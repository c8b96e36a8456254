/** `_repr_json_` (IPython/extensions/version_information.py, lines 102-107): the
    packages as a JSON object with one member, "Software versions", whose value lists
    one `{"module": name, "version": version}` object per package. The document is
    modelled as a JSON value; `json.dumps`, which turns it into text, is not part of
    this model. */
module JsonRepr {
  import opened Text
  import opened Collector

  /** The JSON values the rendering uses. */
  datatype Json = JString(str: string) | JArray(items: seq<Json>) | JObject(members: seq<(string, Json)>)

  /** The object for one package: its name under "module" and its version under "version". */
  function EntryJson(p: Package): Json
  {
    JObject([("module", JString(p.name)), ("version", JString(p.version))])
  }

  /** The list comprehension over `self.packages`: one object per package, in order. */
  function EntriesJson(packages: seq<Package>): (items: seq<Json>)
    ensures |items| == |packages|
  {
    if packages == [] then [] else [EntryJson(packages[0])] + EntriesJson(packages[1..])
  }

  /** The document `_repr_json_` serialises. The timestamp is not part of it. */
  function ReprJson(packages: seq<Package>): Json
  {
    JObject([("Software versions", JArray(EntriesJson(packages)))])
  }

  /** The value of the first member named `key`. */
  function Member(members: seq<(string, Json)>, key: string): (r: Option<Json>)
    ensures r.Some? <==> exists i :: 0 <= i < |members| && members[i].0 == key
  {
    if members == [] then None
    else if members[0].0 == key then Some(members[0].1)
    else
      var r := Member(members[1..], key);
      assert forall i :: 1 <= i < |members| ==> members[i] == members[1..][i - 1];
      r
  }

  /** Reads one entry back; members are found by key, so their order does not matter. */
  function PackageOfJson(j: Json): Option<Package>
  {
    if !j.JObject? then None
    else
      match (Member(j.members, "module"), Member(j.members, "version"))
      case (Some(JString(name)), Some(JString(version))) => Some(Package(name, version))
      case _ => None
  }

  function PackagesOfItems(items: seq<Json>): (r: Option<seq<Package>>)
    ensures r.Some? ==> |r.value| == |items|
  {
    if items == [] then Some([])
    else
      match (PackageOfJson(items[0]), PackagesOfItems(items[1..]))
      case (Some(p), Some(rest)) => Some([p] + rest)
      case _ => None
  }

  /** The reader of the document: the packages it lists, or `None` for a document
      of another shape. */
  function PackagesOfJson(j: Json): Option<seq<Package>>
  {
    if !j.JObject? then None
    else
      match Member(j.members, "Software versions")
      case Some(JArray(items)) => PackagesOfItems(items)
      case _ => None
  }

  lemma PackageOfEntry(p: Package)
    ensures PackageOfJson(EntryJson(p)) == Some(p)
  {
    var members := EntryJson(p).members;
    assert Member(members, "module") == Some(JString(p.name));
    assert members[0].0 != "version";
    assert Member(members, "version") == Some(JString(p.version));
  }

  /** The document lists every package, in order, with its name and version unchanged:
      nothing of `self.packages` is lost, whatever the names and versions hold. */
  lemma {:induction false} JsonRoundTrip(packages: seq<Package>)
    ensures PackagesOfJson(ReprJson(packages)) == Some(packages)
  {
    EntriesRoundTrip(packages);
  }

  lemma {:induction false} EntriesRoundTrip(packages: seq<Package>)
    ensures PackagesOfItems(EntriesJson(packages)) == Some(packages)
  {
    if packages != [] {
      var items := EntriesJson(packages);
      assert items[0] == EntryJson(packages[0]) && items[1..] == EntriesJson(packages[1..]);
      PackageOfEntry(packages[0]);
      EntriesRoundTrip(packages[1..]);
      assert packages == [packages[0]] + packages[1..];
    }
  }
}
