/** `_repr_html_` (IPython/extensions/version_information.py, lines 109-118): a
    two-column table with a heading row, one row per package and a last row holding
    the timestamp. Only the versions are escaped; names and the timestamp are written
    as they are. */
module HtmlRepr {
  import opened Text
  import opened Escaping
  import opened Collector

  const TableOpen: string := "<table>"
  const HeadingRow: string := "<tr><th>Software</th><th>Version</th></tr>"
  const RowOpen: string := "<tr><td>"
  const CellBreak: string := "</td><td>"
  const RowClose: string := "</td></tr>"
  const TimeOpen: string := "<tr><td colspan='2'>"
  const TableClose: string := "</table>"

  /** One package row: the name as it is and the escaped version, each in a cell. */
  function HtmlRow(p: Package): string
  {
    RowOpen + (p.name + (CellBreak + (HtmlEscape(p.version) + RowClose)))
  }

  function HtmlRows(packages: seq<Package>): string
  {
    if packages == [] then [] else HtmlRow(packages[0]) + HtmlRows(packages[1..])
  }

  /** The row holding the timestamp and the end of the table. */
  function HtmlFooter(time: string): string
  {
    TimeOpen + (time + (RowClose + TableClose))
  }

  /** The text `_repr_html_` returns for the object's packages and timestamp. */
  function ReprHtml(packages: seq<Package>, time: string): string
  {
    TableOpen + HeadingRow + (HtmlRows(packages) + HtmlFooter(time))
  }

  /** Reads the footer: the timestamp, if `t` is exactly a footer. */
  function ParseHtmlFooter(t: string): Option<string>
  {
    if !StartsWith(t, TimeOpen) then None
    else
      match SplitAt(t[|TimeOpen|..], RowClose)
      case Some((time, after)) => if after == TableClose then Some(time) else None
      case None => None
  }

  /** Reads one package row at the front of `t`: the package and the text after the row. */
  function ParseHtmlRow(t: string): (r: Option<(Package, string)>)
    ensures r.Some? ==> |r.value.1| < |t|
  {
    if !StartsWith(t, RowOpen) then None
    else
      match SplitAt(t[|RowOpen|..], CellBreak)
      case None => None
      case Some((name, cells)) =>
        match SplitAt(cells, RowClose)
        case None => None
        case Some((escaped, after)) =>
          match HtmlUnescape(escaped)
          case None => None
          case Some(version) => Some((Package(name, version), after))
  }

  /** Reads the rows and the footer after the heading. A footer is told from a row by
      the character after `<tr><td`. */
  function ParseHtmlBody(t: string): Option<(seq<Package>, string)>
    decreases |t|
  {
    if StartsWith(t, TimeOpen) then
      match ParseHtmlFooter(t)
      case Some(time) => Some(([], time))
      case None => None
    else
      match ParseHtmlRow(t)
      case None => None
      case Some((p, rest)) =>
        match ParseHtmlBody(rest)
        case None => None
        case Some((ps, time)) => Some(([p] + ps, time))
  }

  /** The reader of the table: the packages and the timestamp it shows. */
  function ParseHtml(t: string): Option<(seq<Package>, string)>
  {
    var head := TableOpen + HeadingRow;
    if StartsWith(t, head) then ParseHtmlBody(t[|head|..]) else None
  }

  /** What the table can show without ambiguity: names and a timestamp that hold no `<`,
      as the cell markup starts with it. (Versions may hold anything: they are escaped.) */
  predicate HtmlReadable(packages: seq<Package>, time: string)
  {
    '<' !in time && forall i :: 0 <= i < |packages| ==> '<' !in packages[i].name
  }

  lemma ParseHtmlFooterOf(time: string)
    requires '<' !in time
    ensures ParseHtmlFooter(HtmlFooter(time)) == Some(time)
  {
    StartsWithAppend(TimeOpen, time + (RowClose + TableClose));
    SplitAtHeadFree(time, RowClose, TableClose);
  }

  lemma ParseHtmlRowOf(p: Package, rest: string)
    requires '<' !in p.name
    ensures ParseHtmlRow(HtmlRow(p) + rest) == Some((p, rest))
  {
    var escaped := HtmlEscape(p.version);
    var cells := escaped + (RowClose + rest);
    AppendAssoc(escaped, RowClose, rest);
    AppendAssoc(CellBreak, escaped + RowClose, rest);
    AppendAssoc(p.name, CellBreak + (escaped + RowClose), rest);
    AppendAssoc(RowOpen, p.name + (CellBreak + (escaped + RowClose)), rest);
    assert HtmlRow(p) + rest == RowOpen + (p.name + (CellBreak + cells));
    StartsWithAppend(RowOpen, p.name + (CellBreak + cells));
    SplitAtHeadFree(p.name, CellBreak, cells);
    SplitAtHeadFree(escaped, RowClose, rest);
    HtmlUnescapeEscape(p.version);
  }

  /** A row never reads as the footer: they differ at their eighth character. */
  lemma RowIsNoFooter(p: Package, rest: string)
    ensures !StartsWith(HtmlRow(p) + rest, TimeOpen)
  {
    var t := HtmlRow(p) + rest;
    assert t[7] == RowOpen[7];
  }

  lemma FooterIsFooter(time: string)
    ensures StartsWith(HtmlFooter(time), TimeOpen)
  {
    StartsWithAppend(TimeOpen, time + (RowClose + TableClose));
  }

  /** After a row, the reader goes on with the text that follows it. */
  lemma ParseHtmlBodyCons(p: Package, rest: string)
    requires '<' !in p.name
    ensures ParseHtmlBody(HtmlRow(p) + rest) ==
      match ParseHtmlBody(rest)
      case None => None
      case Some((ps, time)) => Some(([p] + ps, time))
  {
    RowIsNoFooter(p, rest);
    ParseHtmlRowOf(p, rest);
  }

  lemma ParseHtmlBodyFooter(time: string)
    requires '<' !in time
    ensures ParseHtmlBody(HtmlFooter(time)) == Some(([], time))
  {
    FooterIsFooter(time);
    ParseHtmlFooterOf(time);
  }

  lemma ParseHtmlBodyStep(packages: seq<Package>, time: string)
    requires packages != [] && '<' !in packages[0].name
    requires ParseHtmlBody(HtmlRows(packages[1..]) + HtmlFooter(time)) == Some((packages[1..], time))
    ensures ParseHtmlBody(HtmlRows(packages) + HtmlFooter(time)) == Some((packages, time))
  {
    var rest := HtmlRows(packages[1..]) + HtmlFooter(time);
    assert HtmlRows(packages) == HtmlRow(packages[0]) + HtmlRows(packages[1..]);
    AppendAssoc(HtmlRow(packages[0]), HtmlRows(packages[1..]), HtmlFooter(time));
    ParseHtmlBodyCons(packages[0], rest);
    assert [packages[0]] + packages[1..] == packages;
  }

  lemma {:induction false} ParseHtmlBodyOf(packages: seq<Package>, time: string)
    requires HtmlReadable(packages, time)
    ensures ParseHtmlBody(HtmlRows(packages) + HtmlFooter(time)) == Some((packages, time))
  {
    if packages == [] {
      assert HtmlRows(packages) + HtmlFooter(time) == HtmlFooter(time);
      ParseHtmlBodyFooter(time);
    } else {
      assert HtmlReadable(packages[1..], time) by {
        assert forall i :: 1 <= i < |packages| ==> packages[1..][i - 1] == packages[i];
      }
      ParseHtmlBodyOf(packages[1..], time);
      ParseHtmlBodyStep(packages, time);
    }
  }

  /** The table shows every package, in order, with its version as it was before
      escaping, and the timestamp: the reader gets back exactly what was rendered. */
  lemma HtmlRoundTrip(packages: seq<Package>, time: string)
    requires HtmlReadable(packages, time)
    ensures ParseHtml(ReprHtml(packages, time)) == Some((packages, time))
  {
    var head := TableOpen + HeadingRow;
    var body := HtmlRows(packages) + HtmlFooter(time);
    StartsWithAppend(head, body);
    ParseHtmlBodyOf(packages, time);
  }
}
