/** `_repr_pretty_` (IPython/extensions/version_information.py, lines 149-158): a
    title, the timestamp, the first three packages (the interpreter, IPython and the
    operating system) as `# name: version` comments, and every further package as a
    `name==version` line, the form of a pip requirements file. */
module PrettyRepr {
  import opened Text
  import opened Collector

  const Title: string := "# Software versions\n# -----------------\n"
  const Comment: string := "# "
  const Colon: string := ": "
  const Pin: string := "=="
  const Newline: string := "\n"

  /** How many packages are written as comments: the first three, or all when there are fewer. */
  function HeadCount(packages: seq<Package>): (n: nat)
    ensures n <= |packages| && n <= 3
    ensures n == 3 || n == |packages|
  {
    if |packages| < 3 then |packages| else 3
  }

  /** One of the first three packages, as a comment line `# name: version`. */
  function HeadLine(p: Package): string
  {
    Comment + (p.name + (Colon + (p.version + Newline)))
  }

  /** Any later package, as a pin line `name==version`. */
  function TailLine(p: Package): string
  {
    p.name + (Pin + (p.version + Newline))
  }

  function HeadLines(packages: seq<Package>): string
  {
    if packages == [] then [] else HeadLine(packages[0]) + HeadLines(packages[1..])
  }

  function TailLines(packages: seq<Package>): string
  {
    if packages == [] then [] else TailLine(packages[0]) + TailLines(packages[1..])
  }

  /** The text `_repr_pretty_` hands to the printer for the object's packages and
      timestamp. */
  function ReprPretty(packages: seq<Package>, time: string): string
  {
    var n := HeadCount(packages);
    Title + Comment + (time + (Newline + (HeadLines(packages[..n]) + TailLines(packages[n..]))))
  }

  /** Reads `name==version` lines to the end of the text. */
  function ParseTail(t: string): Option<seq<Package>>
    decreases |t|
  {
    if t == [] then Some([])
    else
      match SplitAt(t, Pin)
      case None => None
      case Some((name, r)) =>
        match SplitAt(r, Newline)
        case None => None
        case Some((version, after)) =>
          match ParseTail(after)
          case None => None
          case Some(ps) => Some([Package(name, version)] + ps)
  }

  /** Reads up to `k` comment lines and then `name==version` lines. */
  function ParseHead(t: string, k: nat): Option<seq<Package>>
    decreases |t|
  {
    if t == [] then Some([])
    else if k == 0 then ParseTail(t)
    else if !StartsWith(t, Comment) then None
    else
      match SplitAt(t[|Comment|..], Colon)
      case None => None
      case Some((name, r)) =>
        match SplitAt(r, Newline)
        case None => None
        case Some((version, after)) =>
          match ParseHead(after, k - 1)
          case None => None
          case Some(ps) => Some([Package(name, version)] + ps)
  }

  /** The reader of the text: the packages and the timestamp it shows. */
  function ParsePretty(t: string): Option<(seq<Package>, string)>
  {
    var head := Title + Comment;
    if !StartsWith(t, head) then None
    else
      match SplitAt(t[|head|..], Newline)
      case None => None
      case Some((time, body)) =>
        match ParseHead(body, 3)
        case None => None
        case Some(ps) => Some((ps, time))
  }

  /** What the text can show without ambiguity: one line per item, so no line break in
      the timestamp or a version; no `:` in the names written as comments and no `=`
      in the names written as pins. */
  predicate PrettyReadable(packages: seq<Package>, time: string)
  {
    && '\n' !in time
    && (forall i :: 0 <= i < |packages| ==> '\n' !in packages[i].version)
    && (forall i :: 0 <= i < |packages| && i < 3 ==> ':' !in packages[i].name)
    && (forall i :: 3 <= i < |packages| ==> '=' !in packages[i].name)
  }

  predicate TailReadable(packages: seq<Package>)
  {
    forall i :: 0 <= i < |packages| ==> '\n' !in packages[i].version && '=' !in packages[i].name
  }

  predicate HeadReadable(packages: seq<Package>)
  {
    forall i :: 0 <= i < |packages| ==> '\n' !in packages[i].version && ':' !in packages[i].name
  }

  lemma ParseTailCons(p: Package, rest: string)
    requires '=' !in p.name && '\n' !in p.version
    ensures ParseTail(TailLine(p) + rest) ==
      match ParseTail(rest)
      case None => None
      case Some(ps) => Some([p] + ps)
  {
    AppendAssoc(p.version, Newline, rest);
    AppendAssoc(Pin, p.version + Newline, rest);
    AppendAssoc(p.name, Pin + (p.version + Newline), rest);
    SplitAtHeadFree(p.name, Pin, p.version + (Newline + rest));
    SplitAtHeadFree(p.version, Newline, rest);
  }

  lemma {:induction false} ParseTailOf(packages: seq<Package>)
    requires TailReadable(packages)
    ensures ParseTail(TailLines(packages)) == Some(packages)
  {
    if packages != [] {
      assert TailReadable(packages[1..]) by {
        assert forall i :: 1 <= i < |packages| ==> packages[1..][i - 1] == packages[i];
      }
      ParseTailOf(packages[1..]);
      ParseTailCons(packages[0], TailLines(packages[1..]));
      assert [packages[0]] + packages[1..] == packages;
    }
  }

  lemma ParseHeadCons(p: Package, rest: string, k: nat)
    requires k > 0 && ':' !in p.name && '\n' !in p.version
    ensures ParseHead(HeadLine(p) + rest, k) ==
      match ParseHead(rest, k - 1)
      case None => None
      case Some(ps) => Some([p] + ps)
  {
    var r := p.name + (Colon + (p.version + (Newline + rest)));
    AppendAssoc(p.version, Newline, rest);
    AppendAssoc(Colon, p.version + Newline, rest);
    AppendAssoc(p.name, Colon + (p.version + Newline), rest);
    AppendAssoc(Comment, p.name + (Colon + (p.version + Newline)), rest);
    StartsWithAppend(Comment, r);
    SplitAtHeadFree(p.name, Colon, p.version + (Newline + rest));
    SplitAtHeadFree(p.version, Newline, rest);
  }

  lemma ParseHeadNone(tails: seq<Package>, k: nat)
    requires TailReadable(tails) && (k == 0 || tails == [])
    ensures ParseHead(TailLines(tails), k) == Some(tails)
  {
    if tails != [] {
      ParseTailOf(tails);
    }
  }

  lemma ParseHeadStep(heads: seq<Package>, tails: seq<Package>, k: nat)
    requires heads != [] && k > 0 && ':' !in heads[0].name && '\n' !in heads[0].version
    requires ParseHead(HeadLines(heads[1..]) + TailLines(tails), k - 1) == Some(heads[1..] + tails)
    ensures ParseHead(HeadLines(heads) + TailLines(tails), k) == Some(heads + tails)
  {
    var rest := HeadLines(heads[1..]) + TailLines(tails);
    assert HeadLines(heads) == HeadLine(heads[0]) + HeadLines(heads[1..]);
    AppendAssoc(HeadLine(heads[0]), HeadLines(heads[1..]), TailLines(tails));
    ParseHeadCons(heads[0], rest, k);
    ConsAppend(heads, tails);
  }

  /** The comment lines of `heads` followed by the pins of `tails` read back as both,
      when there are `k` comment lines, or fewer and no pins. */
  lemma {:induction false} ParseHeadOf(heads: seq<Package>, tails: seq<Package>, k: nat)
    requires HeadReadable(heads) && TailReadable(tails)
    requires |heads| == k || (|heads| < k && tails == [])
    ensures ParseHead(HeadLines(heads) + TailLines(tails), k) == Some(heads + tails)
    decreases heads
  {
    if heads == [] {
      assert HeadLines(heads) + TailLines(tails) == TailLines(tails);
      assert heads + tails == tails;
      ParseHeadNone(tails, k);
    } else {
      assert HeadReadable(heads[1..]) by {
        assert forall i :: 1 <= i < |heads| ==> heads[1..][i - 1] == heads[i];
      }
      ParseHeadOf(heads[1..], tails, k - 1);
      ParseHeadStep(heads, tails, k);
    }
  }

  /** The text shows every package, in order, and the timestamp: the reader gets back
      exactly what was rendered. */
  lemma PrettyRoundTrip(packages: seq<Package>, time: string)
    requires PrettyReadable(packages, time)
    ensures ParsePretty(ReprPretty(packages, time)) == Some((packages, time))
  {
    var n := HeadCount(packages);
    var heads, tails := packages[..n], packages[n..];
    var body := HeadLines(heads) + TailLines(tails);
    var head := Title + Comment;
    StartsWithAppend(head, time + (Newline + body));
    SplitAtHeadFree(time, Newline, body);
    assert HeadReadable(heads) && TailReadable(tails) by {
      assert forall i :: 0 <= i < |tails| ==> tails[i] == packages[n + i];
    }
    ParseHeadOf(heads, tails, 3);
    assert heads + tails == packages;
  }
}
