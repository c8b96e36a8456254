/** The argument of the `%version_information` magic: a comma-separated list of
    module names (IPython/extensions/version_information.py, lines 84-86). */
module Arguments {
  import opened Text

  /** The pieces that are not empty, in their order (the `if len(module) > 0` test). */
  function NonEmpty(pieces: seq<string>): (r: seq<string>)
    ensures |r| <= |pieces|
    ensures forall i :: 0 <= i < |r| ==> r[i] != []
  {
    if pieces == [] then []
    else (if pieces[0] == [] then [] else [pieces[0]]) + NonEmpty(pieces[1..])
  }

  /** Every piece kept is one of the pieces given. */
  lemma {:induction false} NonEmptyFrom(pieces: seq<string>)
    ensures forall i :: 0 <= i < |NonEmpty(pieces)| ==> NonEmpty(pieces)[i] in pieces
  {
    if pieces != [] {
      NonEmptyFrom(pieces[1..]);
      assert forall x :: x in pieces[1..] ==> x in pieces;
    }
  }

  lemma {:induction false} NonEmptyAppend(a: seq<string>, b: seq<string>)
    ensures NonEmpty(a + b) == NonEmpty(a) + NonEmpty(b)
  {
    if a == [] {
      assert a + b == b;
    } else {
      assert (a + b)[1..] == a[1..] + b;
      NonEmptyAppend(a[1..], b);
    }
  }

  /** Skipping empty pieces changes nothing when there are none. */
  lemma {:induction false} NonEmptyKeepsAll(pieces: seq<string>)
    requires forall i :: 0 <= i < |pieces| ==> pieces[i] != []
    ensures NonEmpty(pieces) == pieces
  {
    if pieces != [] {
      NonEmptyKeepsAll(pieces[1..]);
    }
  }

  /** Skipping empty pieces does not change what they spell laid end to end. */
  lemma {:induction false} FlattenNonEmpty(pieces: seq<string>)
    ensures Flatten(NonEmpty(pieces)) == Flatten(pieces)
  {
    if pieces != [] {
      FlattenNonEmpty(pieces[1..]);
      FlattenAppend(if pieces[0] == [] then [] else [pieces[0]], NonEmpty(pieces[1..]));
    }
  }

  /** The line with its spaces deleted, cut at every comma, the empty pieces skipped: the names of the
      modules to report on. Only the space character is deleted; tabs and other
      white space stay inside the names. */
  function ParseModules(line: string): (modules: seq<string>)
    ensures forall i :: 0 <= i < |modules| ==> modules[i] != []
    ensures forall i :: 0 <= i < |modules| ==> ' ' !in modules[i] && ',' !in modules[i]
  {
    NonEmptyFrom(Split(Replace(line, ' ', ""), ','));
    SplitMembers(Replace(line, ' ', ""), ',');
    NonEmpty(Split(Replace(line, ' ', ""), ','))
  }

  /** Laid end to end the names hold every character of the line that is neither a space
      nor a comma, in order, and nothing else. */
  lemma ParseModulesCover(line: string)
    ensures Flatten(ParseModules(line)) == Replace(Replace(line, ' ', ""), ',', "")
  {
    var pieces := Split(Replace(line, ' ', ""), ',');
    FlattenNonEmpty(pieces);
    FlattenSplit(Replace(line, ' ', ""), ',');
  }

  /** A comma splits the line: the names before it, then the names after it. Hence a
      leading, trailing or doubled comma adds no name. */
  lemma ParseModulesAppend(a: string, b: string)
    ensures ParseModules(a + "," + b) == ParseModules(a) + ParseModules(b)
  {
    var a', b' := Replace(a, ' ', ""), Replace(b, ' ', "");
    ReplaceAppend(a + ",", b, ' ', "");
    ReplaceAppend(a, ",", ' ', "");
    assert Replace(a + "," + b, ' ', "") == a' + [','] + b';
    SplitAppend(a', ',', b');
    NonEmptyAppend(Split(a', ','), Split(b', ','));
  }

  /** A stretch without commas is one name, its spaces deleted, or none if nothing is left. */
  lemma ParseModulesPiece(x: string)
    requires ',' !in x
    ensures ParseModules(x) == if Replace(x, ' ', "") == [] then [] else [Replace(x, ' ', "")]
  {
    DeleteMembers(x, ' ');
    SplitNoSeparator(Replace(x, ' ', ""), ',');
  }

  /** No module is requested exactly when the line holds nothing but spaces and commas,
      the empty line included. */
  lemma ParseModulesEmpty(line: string)
    ensures ParseModules(line) == [] <==> forall i :: 0 <= i < |line| ==> line[i] == ' ' || line[i] == ','
  {
    var modules := ParseModules(line);
    var rest := Replace(Replace(line, ' ', ""), ',', "");
    ParseModulesCover(line);
    DeleteMembers(line, ' ');
    DeleteMembers(Replace(line, ' ', ""), ',');
    if modules == [] {
      assert rest == [];
      forall i | 0 <= i < |line|
        ensures line[i] == ' ' || line[i] == ','
      {
        assert line[i] in line;
      }
    } else {
      assert modules[0] != [];
      assert Flatten(modules) == modules[0] + Flatten(modules[1..]);
      assert modules[0][0] in rest;
    }
  }

  /** Joining names with commas, with or without a space after each, gives a line that
      parses back to exactly those names. */
  lemma ParseModulesOfJoin(names: seq<string>)
    requires forall i :: 0 <= i < |names| ==> names[i] != [] && ' ' !in names[i] && ',' !in names[i]
    ensures ParseModules(Join(names, ",")) == names
    ensures ParseModules(Join(names, ", ")) == names
  {
    DeleteFromJoin(names, ",", ' ');
    DeleteFromJoin(names, ", ", ' ');
    assert Replace(", ", ' ', "") == ",";
    assert Replace(",", ' ', "") == ",";
    if names != [] {
      SplitUnique(names, ',');
      NonEmptyKeepsAll(names);
    }
  }

  /** The example of the magic's documentation: two modules, in the order given. */
  lemma ParseModulesExample()
    ensures ParseModules("sphinx, jinja2") == ["sphinx", "jinja2"]
  {
    assert Join(["sphinx", "jinja2"], ", ") == "sphinx, jinja2";
    ParseModulesOfJoin(["sphinx", "jinja2"]);
  }

  /** Only spaces are deleted: a tab stays part of the name it precedes. */
  lemma ParseModulesKeepsTabs()
    ensures ParseModules("numpy,\tscipy") == ["numpy", "\tscipy"]
  {
    assert Join(["numpy", "\tscipy"], ",") == "numpy,\tscipy";
    ParseModulesOfJoin(["numpy", "\tscipy"]);
  }
}
