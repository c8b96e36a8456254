/** The renderings of what `version_information` collects: for the packages the magic
    leaves in the object, the JSON document always gives back the report, and the
    HTML table, the LaTeX table and the text listing give it back, with the
    timestamp, under conditions on the line and the environment. */
module Views {
  import opened Text
  import opened Arguments
  import opened Collector
  import opened HtmlRepr
  import opened LatexRepr
  import opened JsonRepr
  import opened PrettyRepr

  /** No name in a report holds a space: the three fixed names have none and the
      requested ones have theirs deleted. */
  lemma ReportNamesHaveNoSpace(env: Environment, line: string)
    ensures forall i :: 0 <= i < |Report(env, line)| ==> ' ' !in Report(env, line)[i].name
  {
    ReportShape(env, line);
    var r := Report(env, line);
    forall i | 3 <= i < |r|
      ensures ' ' !in r[i].name
    {
      assert r[i].name == ParseModules(line)[i - 3];
    }
  }

  /** The LaTeX table of any report, with a timestamp without a closing brace, shows
      the report exactly. */
  lemma LatexShowsReport(env: Environment, line: string)
    requires '}' !in env.clock
    ensures ParseLatex(ReprLatex(Report(env, line), env.clock)) == Some((Report(env, line), env.clock))
  {
    ReportNamesHaveNoSpace(env, line);
    LatexRoundTrip(Report(env, line), env.clock);
  }

  /** The requested names hold only characters of the line. */
  lemma ReportNamesFromLine(env: Environment, line: string, c: char)
    requires c !in line
    ensures forall i :: 3 <= i < |Report(env, line)| ==> c !in Report(env, line)[i].name
  {
    ReportShape(env, line);
    var r := Report(env, line);
    var modules := ParseModules(line);
    var pieces := Split(Replace(line, ' ', ""), ',');
    DeleteMembers(line, ' ');
    SplitMembers(Replace(line, ' ', ""), ',');
    NonEmptyFrom(pieces);
    forall i | 3 <= i < |r|
      ensures c !in r[i].name
    {
      assert r[i].name == modules[i - 3];
    }
  }

  /** The HTML table of a report shows it exactly when neither the line nor the
      timestamp holds a `<`. */
  lemma HtmlShowsReport(env: Environment, line: string)
    requires '<' !in line && '<' !in env.clock
    ensures ParseHtml(ReprHtml(Report(env, line), env.clock)) == Some((Report(env, line), env.clock))
  {
    ReportShape(env, line);
    ReportNamesFromLine(env, line, '<');
    var r := Report(env, line);
    assert HtmlReadable(r, env.clock);
    HtmlRoundTrip(r, env.clock);
  }

  /** The JSON document of any report lists exactly the report. */
  lemma JsonShowsReport(env: Environment, line: string)
    ensures PackagesOfJson(ReprJson(Report(env, line))) == Some(Report(env, line))
  {
    JsonRoundTrip(Report(env, line));
  }

  /** The text listing of a report shows it, with the timestamp, when the clock, IPython's
      version, the operating system and every resolved version are one line each and no
      requested name holds a `=`. */
  lemma PrettyShowsReport(env: Environment, line: string)
    requires '=' !in line
    requires '\n' !in env.clock && '\n' !in env.ipythonVersion
    requires '\n' !in env.osName && '\n' !in env.platform
    requires forall i :: 0 <= i < |ParseModules(line)| ==> '\n' !in Resolve(env, ParseModules(line)[i])
    ensures ParsePretty(ReprPretty(Report(env, line), env.clock)) == Some((Report(env, line), env.clock))
  {
    ReportShape(env, line);
    ReportNamesFromLine(env, line, '=');
    var r := Report(env, line);
    assert '\n' !in r[2].version by {
      assert r[2].version == env.osName + (" [" + (env.platform + "]"));
    }
    forall i | 3 <= i < |r|
      ensures '\n' !in r[i].version
    {
      assert r[i].version == Resolve(env, ParseModules(line)[i - 3]);
    }
    assert PrettyReadable(r, env.clock);
    PrettyRoundTrip(r, env.clock);
  }
}
