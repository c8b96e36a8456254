/** Worked instances of the properties proved in the other modules. */
module Examples {
  import opened Escaping

  lemma LatexEscapeSingle(c: char)
    ensures LatexEscape([c]) == LatexChar(c)
  {
    assert [c][1..] == [];
  }

  /** A version such as `1.0_beta#2`: plain parts around an underscore and a hash
      escape to `1.0\letterunderscore{}beta\#2`. */
  lemma LatexEscapeExample(major: string, tag: string, build: string)
    requires forall i :: 0 <= i < |major| ==> !LatexSpecial(major[i])
    requires forall i :: 0 <= i < |tag| ==> !LatexSpecial(tag[i])
    requires forall i :: 0 <= i < |build| ==> !LatexSpecial(build[i])
    ensures LatexEscape(major + "_" + tag + "#" + build)
         == major + "\\letterunderscore{}" + tag + "\\#" + build
  {
    LatexEscapeSingle('_');
    LatexEscapeSingle('#');
    assert LatexChar('_') == "\\letterunderscore{}";
    assert LatexChar('#') == "\\#";
    LatexEscapePlain(major);
    LatexEscapePlain(tag);
    LatexEscapePlain(build);
    LatexEscapeAppend(major, "_");
    LatexEscapeAppend(major + "_", tag);
    LatexEscapeAppend(major + "_" + tag, "#");
    LatexEscapeAppend(major + "_" + tag + "#", build);
  }
}
