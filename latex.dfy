/** `_repr_latex_` (IPython/extensions/version_information.py, lines 138-147): a
    `tabular` with a heading row, one row per package and a row spanning both columns
    with the timestamp. The templates are raw strings, so each `\n` in them is a
    backslash followed by the letter n, not a line break. Only the versions are
    escaped. */
module LatexRepr {
  import opened Text
  import opened Escaping
  import opened Collector

  const TabularOpen: string := "\\begin{tabular}{|l|l|}\\hline\\n"
  const HeadingRow: string := "{\\bf Software} & {\\bf Version} \\\\ \\hline\\hline\\n"
  const CellSep: string := " & "
  const RowEnd: string := " \\\\ \\hline\\n"
  const TimeOpen: string := "\\hline \\multicolumn{2}{|l|}{"
  const TimeClose: string := "} \\\\ \\hline\\n"
  const TabularClose: string := "\\end{tabular}\\n"

  /** One package row: the name, the column separator, the escaped version and the row end. */
  function LatexRow(p: Package): string
  {
    p.name + (CellSep + (LatexEscape(p.version) + RowEnd))
  }

  function LatexRows(packages: seq<Package>): string
  {
    if packages == [] then [] else LatexRow(packages[0]) + LatexRows(packages[1..])
  }

  /** The row with the timestamp and the end of the environment. */
  function LatexFooter(time: string): string
  {
    TimeOpen + (time + (TimeClose + TabularClose))
  }

  /** The text `_repr_latex_` returns for the object's packages and timestamp. */
  function ReprLatex(packages: seq<Package>, time: string): string
  {
    TabularOpen + HeadingRow + (LatexRows(packages) + LatexFooter(time))
  }

  /** Reads the footer: the timestamp, if `t` is exactly a footer. */
  function ParseLatexFooter(t: string): Option<string>
  {
    if !StartsWith(t, TimeOpen) then None
    else
      match SplitAt(t[|TimeOpen|..], TimeClose)
      case Some((time, after)) => if after == TabularClose then Some(time) else None
      case None => None
  }

  /** Reads one package row at the front of `t`: the package and the text after the row. */
  function ParseLatexRow(t: string): (r: Option<(Package, string)>)
    ensures r.Some? ==> |r.value.1| < |t|
  {
    match SplitAt(t, CellSep)
    case None => None
    case Some((name, cells)) =>
      match SplitAt(cells, RowEnd)
      case None => None
      case Some((escaped, after)) =>
        match LatexUnescape(escaped)
        case None => None
        case Some(version) => Some((Package(name, version), after))
  }

  /** Reads the rows and the footer after the heading. */
  function ParseLatexBody(t: string): Option<(seq<Package>, string)>
    decreases |t|
  {
    if StartsWith(t, TimeOpen) then
      match ParseLatexFooter(t)
      case Some(time) => Some(([], time))
      case None => None
    else
      match ParseLatexRow(t)
      case None => None
      case Some((p, rest)) =>
        match ParseLatexBody(rest)
        case None => None
        case Some((ps, time)) => Some(([p] + ps, time))
  }

  /** The reader of the table: the packages and the timestamp it shows. */
  function ParseLatex(t: string): Option<(seq<Package>, string)>
  {
    var head := TabularOpen + HeadingRow;
    if StartsWith(t, head) then ParseLatexBody(t[|head|..]) else None
  }

  /** What the table can show without ambiguity: names without spaces (as every name
      the magic reports on is) and a timestamp without a closing brace. Versions may
      hold anything: they are escaped. */
  predicate LatexReadable(packages: seq<Package>, time: string)
  {
    '}' !in time && forall i :: 0 <= i < |packages| ==> ' ' !in packages[i].name
  }

  lemma ParseLatexFooterOf(time: string)
    requires '}' !in time
    ensures ParseLatexFooter(LatexFooter(time)) == Some(time)
  {
    StartsWithAppend(TimeOpen, time + (TimeClose + TabularClose));
    SplitAtHeadFree(time, TimeClose, TabularClose);
  }

  /** The end of a row is not found inside an escaped version: it holds two adjacent
      backslashes, which escaped text never does, right after a space. */
  lemma RowEndNotInEscaped(e: string, rest: string)
    requires NoDoubleBackslash(e)
    ensures forall j :: 0 <= j < |e| ==> !OccursAt(e + (RowEnd + rest), RowEnd, j)
  {
    var s := e + (RowEnd + rest);
    forall j | 0 <= j < |e|
      ensures !OccursAt(s, RowEnd, j)
    {
      var k: nat;
      if j + 2 < |e| {
        k := if e[j + 1] != '\\' then 1 else 2;
        assert s[j + k] == e[j + k];
      } else if j + 2 == |e| {
        k := 2;
        assert s[j + k] == RowEnd[0];
      } else {
        k := 1;
        assert s[j + k] == RowEnd[0];
      }
      DiffersAt(s[j..], RowEnd, k);
    }
  }

  lemma ParseLatexRowOf(p: Package, rest: string)
    requires ' ' !in p.name
    ensures ParseLatexRow(LatexRow(p) + rest) == Some((p, rest))
  {
    var escaped := LatexEscape(p.version);
    var cells := escaped + (RowEnd + rest);
    AppendAssoc(escaped, RowEnd, rest);
    AppendAssoc(CellSep, escaped + RowEnd, rest);
    AppendAssoc(p.name, CellSep + (escaped + RowEnd), rest);
    assert LatexRow(p) + rest == p.name + (CellSep + cells);
    SplitAtHeadFree(p.name, CellSep, cells);
    LatexEscapeNoDoubleBackslash(p.version);
    RowEndNotInEscaped(escaped, rest);
    SplitAtFirst(escaped, RowEnd, rest);
    LatexUnescapeEscape(p.version);
  }

  /** A row never reads as the footer: a name without spaces cannot stand where the
      footer has `\hline` and a space. */
  lemma RowIsNoFooter(p: Package, rest: string)
    requires ' ' !in p.name
    ensures !StartsWith(LatexRow(p) + rest, TimeOpen)
  {
    var t := LatexRow(p) + rest;
    var n := |p.name|;
    if n > 6 {
      assert t[6] == p.name[6];
      DiffersAt(t, TimeOpen, 6);
    } else if n == 6 {
      assert t[7] == CellSep[1];
      DiffersAt(t, TimeOpen, 7);
    } else {
      assert t[n] == CellSep[0];
      DiffersAt(t, TimeOpen, n);
    }
  }

  lemma FooterIsFooter(time: string)
    ensures StartsWith(LatexFooter(time), TimeOpen)
  {
    StartsWithAppend(TimeOpen, time + (TimeClose + TabularClose));
  }

  /** After a row, the reader goes on with the text that follows it. */
  lemma ParseLatexBodyCons(p: Package, rest: string)
    requires ' ' !in p.name
    ensures ParseLatexBody(LatexRow(p) + rest) ==
      match ParseLatexBody(rest)
      case None => None
      case Some((ps, time)) => Some(([p] + ps, time))
  {
    RowIsNoFooter(p, rest);
    ParseLatexRowOf(p, rest);
  }

  lemma ParseLatexBodyFooter(time: string)
    requires '}' !in time
    ensures ParseLatexBody(LatexFooter(time)) == Some(([], time))
  {
    FooterIsFooter(time);
    ParseLatexFooterOf(time);
  }

  lemma ParseLatexBodyStep(packages: seq<Package>, time: string)
    requires packages != [] && ' ' !in packages[0].name
    requires ParseLatexBody(LatexRows(packages[1..]) + LatexFooter(time)) == Some((packages[1..], time))
    ensures ParseLatexBody(LatexRows(packages) + LatexFooter(time)) == Some((packages, time))
  {
    var rest := LatexRows(packages[1..]) + LatexFooter(time);
    assert LatexRows(packages) == LatexRow(packages[0]) + LatexRows(packages[1..]);
    AppendAssoc(LatexRow(packages[0]), LatexRows(packages[1..]), LatexFooter(time));
    ParseLatexBodyCons(packages[0], rest);
    assert [packages[0]] + packages[1..] == packages;
  }

  lemma {:induction false} ParseLatexBodyOf(packages: seq<Package>, time: string)
    requires LatexReadable(packages, time)
    ensures ParseLatexBody(LatexRows(packages) + LatexFooter(time)) == Some((packages, time))
  {
    if packages == [] {
      assert LatexRows(packages) + LatexFooter(time) == LatexFooter(time);
      ParseLatexBodyFooter(time);
    } else {
      assert LatexReadable(packages[1..], time) by {
        assert forall i :: 1 <= i < |packages| ==> packages[1..][i - 1] == packages[i];
      }
      ParseLatexBodyOf(packages[1..], time);
      ParseLatexBodyStep(packages, time);
    }
  }

  /** The table shows every package, in order, with its version as it was before
      escaping, and the timestamp: the reader gets back exactly what was rendered. */
  lemma LatexRoundTrip(packages: seq<Package>, time: string)
    requires LatexReadable(packages, time)
    ensures ParseLatex(ReprLatex(packages, time)) == Some((packages, time))
  {
    var head := TabularOpen + HeadingRow;
    StartsWithAppend(head, LatexRows(packages) + LatexFooter(time));
    ParseLatexBodyOf(packages, time);
  }
}
