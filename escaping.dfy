/** The two escapers applied to version strings: the LaTeX substitution table of
    `_latex_escape` (IPython/extensions/version_information.py, lines 121-136) and
    the default mode of `cgi.escape` used by the HTML rendering (line 114). Each
    comes with the decoder that undoes it. */
module Escaping {
  import opened Text

  // ---------------------------------------------------------------- LaTeX

  /** The twelve characters of the `CHARS` table. */
  predicate LatexSpecial(c: char)
  {
    || c == '&' || c == '%' || c == '$' || c == '#' || c == '_' || c == '{'
    || c == '}' || c == '~' || c == '^' || c == '\\' || c == '>' || c == '<'
  }

  /** The table's replacement for `c`, or `c` itself. */
  function LatexChar(c: char): (r: string)
    ensures LatexSpecial(c) ==> |r| >= 2 && r[0] == '\\' && forall i :: 1 <= i < |r| ==> r[i] != '\\'
    ensures !LatexSpecial(c) ==> r == [c] && c != '\\'
  {
    match c
    case '&' => "\\&"
    case '%' => "\\%"
    case '$' => "\\$"
    case '#' => "\\#"
    case '_' => "\\letterunderscore{}"
    case '{' => "\\letteropenbrace{}"
    case '}' => "\\letterclosebrace{}"
    case '~' => "\\lettertilde{}"
    case '^' => "\\letterhat{}"
    case '\\' => "\\letterbackslash{}"
    case '>' => "\\textgreater"
    case '<' => "\\textless"
    case _ => [c]
  }

  /** `_latex_escape`: every character replaced by its table entry, the results joined. */
  function LatexEscape(s: string): (r: string)
    ensures |r| >= |s|
  {
    if s == [] then [] else LatexChar(s[0]) + LatexEscape(s[1..])
  }

  /** Escaping is a homomorphism of strings: it can be done piece by piece. */
  lemma {:induction false} LatexEscapeAppend(a: string, b: string)
    ensures LatexEscape(a + b) == LatexEscape(a) + LatexEscape(b)
  {
    if a == [] {
      assert a + b == b;
    } else {
      assert (a + b)[0] == a[0] && (a + b)[1..] == a[1..] + b;
      LatexEscapeAppend(a[1..], b);
    }
  }

  /** A string without any of the table's characters is left as it is. */
  lemma {:induction false} LatexEscapePlain(s: string)
    requires forall i :: 0 <= i < |s| ==> !LatexSpecial(s[i])
    ensures LatexEscape(s) == s
  {
    if s != [] {
      LatexEscapePlain(s[1..]);
    }
  }

  /** Nothing the table produces is re-escaped, and every special character grows:
      the result is longer than the input by at least one per special character. */
  lemma {:induction false} LatexEscapeGrows(s: string)
    ensures (exists i :: 0 <= i < |s| && LatexSpecial(s[i])) ==> |LatexEscape(s)| > |s|
  {
    if s != [] {
      LatexEscapeGrows(s[1..]);
      if !LatexSpecial(s[0]) && exists i :: 0 <= i < |s| && LatexSpecial(s[i]) {
        var i :| 0 <= i < |s| && LatexSpecial(s[i]);
        assert s[1..][i - 1] == s[i];
      }
    }
  }

  /** No two backslashes are adjacent in a string. */
  predicate NoDoubleBackslash(s: string)
  {
    forall i :: 0 <= i < |s| - 1 ==> !(s[i] == '\\' && s[i + 1] == '\\')
  }

  /** Escaped text never holds two adjacent backslashes, since a lone backslash is
      itself escaped and every table entry has a letter or symbol after its backslash. */
  lemma {:induction false} LatexEscapeNoDoubleBackslash(s: string)
    ensures NoDoubleBackslash(LatexEscape(s))
  {
    if s != [] {
      LatexEscapeNoDoubleBackslash(s[1..]);
      var head, tail := LatexChar(s[0]), LatexEscape(s[1..]);
      var r := head + tail;
      assert head[|head| - 1] != '\\';
      forall i | 0 <= i < |r| - 1
        ensures !(r[i] == '\\' && r[i + 1] == '\\')
      {
        if i < |head| - 1 {
          assert r[i + 1] == head[i + 1];
        } else if i == |head| - 1 {
          assert r[i] == head[|head| - 1];
        } else {
          assert r[i] == tail[i - |head|] && r[i + 1] == tail[i + 1 - |head|];
        }
      }
    }
  }

  /** The table entry a backslash sequence at the front of `t` can only be, told by
      the character after the backslash and, for the `\letter...` and `\text...`
      entries, by the first character after that word. */
  function LatexEntryAt(t: string): Option<char>
    requires |t| >= 2
  {
    match t[1]
    case '&' => Some('&')
    case '%' => Some('%')
    case '$' => Some('$')
    case '#' => Some('#')
    case 'l' =>
      if |t| < 8 then None
      else (match t[7]
        case 'u' => Some('_')
        case 'o' => Some('{')
        case 'c' => Some('}')
        case 't' => Some('~')
        case 'h' => Some('^')
        case 'b' => Some('\\')
        case _ => None)
    case 't' =>
      if |t| < 6 then None
      else (match t[5]
        case 'g' => Some('>')
        case 'l' => Some('<')
        case _ => None)
    case _ => None
  }

  /** Reads one escaped character at the front of `t`: the character and how many
      characters of `t` it took, or `None` if `t` cannot start an escaped string. */
  function LatexToken(t: string): (r: Option<(char, nat)>)
    requires t != []
    ensures r.Some? ==> 1 <= r.value.1 <= |t| && t[..r.value.1] == LatexChar(r.value.0)
  {
    if t[0] != '\\' then
      if LatexSpecial(t[0]) then None else Some((t[0], 1))
    else if |t| < 2 then None
    else
      match LatexEntryAt(t)
      case None => None
      case Some(c) =>
        if StartsWith(t, LatexChar(c)) then Some((c, |LatexChar(c)|)) else None
  }

  /** Escaping a string is escaping its first character and then the rest. */
  lemma LatexEscapeCons(c: char, rest: string)
    ensures LatexEscape([c] + rest) == LatexChar(c) + LatexEscape(rest)
  {
    assert ([c] + rest)[0] == c && ([c] + rest)[1..] == rest;
  }

  /** Text that starts with the entry for `c` and goes on with the escape of `rest`
      is the escape of `c` followed by `rest`. */
  lemma LatexEscapeReassemble(t: string, n: nat, c: char, rest: string)
    requires n <= |t| && t[..n] == LatexChar(c) && LatexEscape(rest) == t[n..]
    ensures LatexEscape([c] + rest) == t
  {
    LatexEscapeCons(c, rest);
    SliceJoin(t, n);
  }

  /** The decoder of `LatexEscape`: `None` for text that no string escapes to. */
  function LatexUnescape(t: string): (r: Option<string>)
    ensures r.Some? ==> LatexEscape(r.value) == t
    decreases |t|
  {
    if t == [] then Some([])
    else
      match LatexToken(t)
      case None => None
      case Some((c, n)) =>
        match LatexUnescape(t[n..])
        case None => None
        case Some(rest) =>
          LatexEscapeReassemble(t, n, c, rest);
          Some([c] + rest)
  }

  /** Each table entry, whatever follows it, is told apart from the other eleven. */
  lemma LatexEntryOfChar(c: char, rest: string)
    requires LatexSpecial(c)
    ensures |LatexChar(c) + rest| >= 2 && LatexEntryAt(LatexChar(c) + rest) == Some(c)
  {
    var e := LatexChar(c);
    var t := e + rest;
    assert t[1] == e[1];
    if |e| > 5 {
      assert t[5] == e[5];
    }
    if |e| > 7 {
      assert t[7] == e[7];
    }
  }

  /** Two table entries never start one another: whichever follows, the reader
      recognises the entry it is given. */
  lemma LatexTokenOfChar(c: char, rest: string)
    ensures LatexToken(LatexChar(c) + rest) == Some((c, |LatexChar(c)|))
  {
    var t := LatexChar(c) + rest;
    StartsWithAppend(LatexChar(c), rest);
    assert t[0] == LatexChar(c)[0];
    assert t[..1] == [t[0]];
    if LatexSpecial(c) {
      LatexEntryOfChar(c, rest);
    }
  }

  /** Decoding an escaped character followed by more text reads the character and
      then decodes the rest. */
  lemma LatexUnescapeCons(c: char, rest: string)
    ensures LatexUnescape(LatexChar(c) + rest) ==
      if LatexUnescape(rest).Some? then Some([c] + LatexUnescape(rest).value) else None
  {
    var t := LatexChar(c) + rest;
    LatexTokenOfChar(c, rest);
    assert t[|LatexChar(c)|..] == rest;
  }

  /** Decoding undoes escaping. */
  lemma {:induction false} LatexUnescapeEscape(s: string)
    ensures LatexUnescape(LatexEscape(s)) == Some(s)
  {
    if s != [] {
      LatexUnescapeEscape(s[1..]);
      LatexUnescapeCons(s[0], LatexEscape(s[1..]));
      assert s == [s[0]] + s[1..];
    }
  }




  // ---------------------------------------------------------------- HTML

  /** The three characters `cgi.escape` replaces when `quote` is false. */
  predicate HtmlSpecial(c: char)
  {
    c == '&' || c == '<' || c == '>'
  }

  /** The entity reference `cgi.escape` writes for one character, or the character itself. */
  function HtmlChar(c: char): (r: string)
    ensures HtmlSpecial(c) ==> |r| >= 4 && r[0] == '&' && r[|r| - 1] == ';' && '&' !in r[1..]
    ensures !HtmlSpecial(c) ==> r == [c]
  {
    match c
    case '&' => "&amp;"
    case '<' => "&lt;"
    case '>' => "&gt;"
    case _ => [c]
  }

  /** `cgi.escape(s)` with its default `quote=False`: `&`, `<` and `>` become entity
      references and every other character, quotes included, is kept. (The library
      replaces `&` first and then `<` and `>`, so no entity is escaped twice; the
      effect is this per-character map.) */
  function HtmlEscape(s: string): (r: string)
    ensures '<' !in r && '>' !in r
    ensures |r| >= |s|
  {
    if s == [] then [] else HtmlChar(s[0]) + HtmlEscape(s[1..])
  }

  /** The entity references `cgi.escape` writes. */
  predicate StartsWithEntity(t: string)
  {
    StartsWith(t, "&amp;") || StartsWith(t, "&lt;") || StartsWith(t, "&gt;")
  }

  /** Every `&` of escaped text begins one of the three entity references. */
  lemma {:induction false} HtmlEscapeEntities(s: string)
    ensures forall i :: 0 <= i < |HtmlEscape(s)| && HtmlEscape(s)[i] == '&' ==> StartsWithEntity(HtmlEscape(s)[i..])
  {
    if s != [] {
      HtmlEscapeEntities(s[1..]);
      var head, tail := HtmlChar(s[0]), HtmlEscape(s[1..]);
      var r := head + tail;
      forall i | 0 <= i < |r| && r[i] == '&'
        ensures StartsWithEntity(r[i..])
      {
        if i < |head| {
          assert r[i] == head[i];
          assert i == 0;
          StartsWithAppend(head, tail);
          assert r[0..] == r;
        } else {
          assert r[i..] == tail[i - |head|..];
        }
      }
    }
  }

  /** Reads one escaped character at the front of `t`, as `LatexToken` does. */
  function HtmlToken(t: string): (r: Option<(char, nat)>)
    requires t != []
    ensures r.Some? ==> 1 <= r.value.1 <= |t| && t[..r.value.1] == HtmlChar(r.value.0)
  {
    if t[0] == '&' then
      if StartsWith(t, "&amp;") then Some(('&', 5))
      else if StartsWith(t, "&lt;") then Some(('<', 4))
      else if StartsWith(t, "&gt;") then Some(('>', 4))
      else None
    else if HtmlSpecial(t[0]) then None
    else Some((t[0], 1))
  }

  /** Escaping a string is escaping its first character and then the rest. */
  lemma HtmlEscapeCons(c: char, rest: string)
    ensures HtmlEscape([c] + rest) == HtmlChar(c) + HtmlEscape(rest)
  {
    assert ([c] + rest)[0] == c && ([c] + rest)[1..] == rest;
  }

  /** Text that starts with the entry for `c` and goes on with the escape of `rest`
      is the escape of `c` followed by `rest`. */
  lemma HtmlEscapeReassemble(t: string, n: nat, c: char, rest: string)
    requires n <= |t| && t[..n] == HtmlChar(c) && HtmlEscape(rest) == t[n..]
    ensures HtmlEscape([c] + rest) == t
  {
    HtmlEscapeCons(c, rest);
    SliceJoin(t, n);
  }

  /** The decoder of `HtmlEscape`: `None` for text that no string escapes to. */
  function HtmlUnescape(t: string): (r: Option<string>)
    ensures r.Some? ==> HtmlEscape(r.value) == t
    decreases |t|
  {
    if t == [] then Some([])
    else
      match HtmlToken(t)
      case None => None
      case Some((c, n)) =>
        match HtmlUnescape(t[n..])
        case None => None
        case Some(rest) =>
          HtmlEscapeReassemble(t, n, c, rest);
          Some([c] + rest)
  }

  lemma HtmlTokenOfChar(c: char, rest: string)
    ensures HtmlToken(HtmlChar(c) + rest) == Some((c, |HtmlChar(c)|))
  {
    var t := HtmlChar(c) + rest;
    StartsWithAppend(HtmlChar(c), rest);
    assert t[0] == HtmlChar(c)[0];
    if HtmlSpecial(c) {
      assert t[1] == HtmlChar(c)[1];
    }
  }

  /** Decoding an escaped character followed by more text reads the character and
      then decodes the rest. */
  lemma HtmlUnescapeCons(c: char, rest: string)
    ensures HtmlUnescape(HtmlChar(c) + rest) ==
      if HtmlUnescape(rest).Some? then Some([c] + HtmlUnescape(rest).value) else None
  {
    var t := HtmlChar(c) + rest;
    HtmlTokenOfChar(c, rest);
    assert t[|HtmlChar(c)|..] == rest;
  }

  /** Decoding undoes escaping. */
  lemma {:induction false} HtmlUnescapeEscape(s: string)
    ensures HtmlUnescape(HtmlEscape(s)) == Some(s)
  {
    if s != [] {
      HtmlUnescapeEscape(s[1..]);
      HtmlUnescapeCons(s[0], HtmlEscape(s[1..]));
      assert s == [s[0]] + s[1..];
    }
  }



}
