/** The `%version_information` line magic (IPython/extensions/version_information.py,
    lines 68-100): it records a timestamp and builds the list of `(name, version)`
    packages that the renderers display. Everything the magic reads from its process —
    the interpreter's version string, IPython's version, the operating system, the
    clock and the two ways of looking a module's version up — is an `Environment`
    given to it. */
module Collector {
  import opened Text
  import opened Arguments

  /** One entry of the report: a display name and a version, or the message of the
      error that stands in for the version. */
  datatype Package = Package(name: string, version: string)

  /** The outcome of one way of looking a version up: the version, or the message
      (`str(e)`) of the exception it raised. */
  datatype Lookup = Found(version: string) | Raised(message: string)

  /** What the magic reads from the running process. */
  datatype Environment = Environment(
    sysVersion: string,                 // sys.version
    ipythonVersion: string,             // IPython.__version__
    osName: string,                     // os.name
    platform: string,                   // sys.platform
    clock: string,                      // the local time, already formatted
    importVersion: string -> Lookup,    // import <m>; <m>.__version__
    pkgResources: Option<string -> Lookup>) // pkg_resources.require(<m>)[0].version, if pkg_resources imported

  /** The three entries every report starts with: the interpreter, IPython and the
      operating system. The interpreter's version has its line breaks removed, so that
      every rendering keeps it on one line. */
  function Header(env: Environment): (h: seq<Package>)
    ensures |h| == 3
    ensures h[0].name == "Python" && h[1].name == "IPython" && h[2].name == "OS"
    ensures '\n' !in h[0].version
  {
    [Package("Python", Replace(env.sysVersion, '\n', "")),
     Package("IPython", env.ipythonVersion),
     Package("OS", env.osName + " [" + env.platform + "]")]
  }

  /** The interpreter's version as reported holds every character of `sys.version`
      except the line breaks, and nothing else. */
  lemma HeaderPythonVersion(env: Environment)
    ensures forall x :: x in Header(env)[0].version <==> x in env.sysVersion && x != '\n'
  {
    DeleteMembers(env.sysVersion, '\n');
  }

  /** The version reported for one requested module. The module's own `__version__`
      wins; when importing it or reading the attribute fails, `pkg_resources` is asked;
      when that fails too, the message of its exception is reported. Without
      `pkg_resources` the bare `raise` re-raises the import's exception, so its message
      is reported. No outcome is an error of the magic itself. */
  function Resolve(env: Environment, name: string): (v: string)
    ensures env.importVersion(name).Found? ==> v == env.importVersion(name).version
    ensures env.importVersion(name).Raised? && env.pkgResources.None? ==> v == env.importVersion(name).message
    ensures env.importVersion(name).Raised? && env.pkgResources.Some? ==>
      v == match env.pkgResources.value(name)
           case Found(version) => version
           case Raised(message) => message
  {
    match env.importVersion(name)
    case Found(version) => version
    case Raised(importError) =>
      match env.pkgResources
      case None => importError
      case Some(require) =>
        match require(name)
        case Found(version) => version
        case Raised(requireError) => requireError
  }

  /** The `try`/`except` block of the magic's loop, statement by statement. */
  method LookUpVersion(env: Environment, name: string) returns (version: string)
    ensures version == Resolve(env, name)
  {
    match env.importVersion(name)
    case Found(v) =>
      version := v;
    case Raised(importError) =>
      match env.pkgResources
      case None =>
        version := importError;
      case Some(require) =>
        match require(name)
        case Found(v) =>
          version := v;
        case Raised(requireError) =>
          version := requireError;
  }

  /** The fallback is consulted only for a module whose own version cannot be read:
      two environments that agree on a successful import agree on the version. */
  lemma ResolveImportFirst(env1: Environment, env2: Environment, name: string)
    requires env1.importVersion(name).Found?
    requires env1.importVersion(name) == env2.importVersion(name)
    ensures Resolve(env1, name) == Resolve(env2, name)
  {
  }

  /** One entry per requested module, in the order requested. */
  function Entries(env: Environment, modules: seq<string>): (r: seq<Package>)
    ensures |r| == |modules|
  {
    if modules == [] then []
    else [Package(modules[0], Resolve(env, modules[0]))] + Entries(env, modules[1..])
  }

  lemma {:induction false} EntriesAppend(env: Environment, a: seq<string>, b: seq<string>)
    ensures Entries(env, a + b) == Entries(env, a) + Entries(env, b)
  {
    if a == [] {
      assert a + b == b;
    } else {
      assert (a + b)[0] == a[0] && (a + b)[1..] == a[1..] + b;
      EntriesAppend(env, a[1..], b);
    }
  }

  /** Entry `i` is the `i`-th requested module with its resolved version; no module is
      dropped, merged or reordered. */
  lemma {:induction false} EntriesAt(env: Environment, modules: seq<string>)
    ensures forall i :: 0 <= i < |modules| ==>
      Entries(env, modules)[i] == Package(modules[i], Resolve(env, modules[i]))
  {
    if modules != [] {
      EntriesAt(env, modules[1..]);
      var r := Entries(env, modules);
      forall i | 1 <= i < |modules|
        ensures r[i] == Package(modules[i], Resolve(env, modules[i]))
      {
        assert r[i] == Entries(env, modules[1..])[i - 1];
        assert modules[1..][i - 1] == modules[i];
      }
    }
  }

  /** One step of the magic's loop: the next name adds its entry, an empty one nothing. */
  lemma EntriesStep(env: Environment, names: seq<string>, i: nat)
    requires i < |names|
    ensures Entries(env, NonEmpty(names[..i + 1])) ==
      Entries(env, NonEmpty(names[..i])) +
      (if |names[i]| > 0 then [Package(names[i], Resolve(env, names[i]))] else [])
  {
    var name := names[i];
    assert names[..i + 1] == names[..i] + [name];
    NonEmptyAppend(names[..i], [name]);
    EntriesAppend(env, NonEmpty(names[..i]), NonEmpty([name]));
    if |name| > 0 {
      assert NonEmpty([name]) == [name];
    } else {
      assert NonEmpty([name]) == [];
    }
  }

  /** The packages `version_information(line)` leaves in `self.packages`. */
  function Report(env: Environment, line: string): seq<Package>
  {
    Header(env) + Entries(env, ParseModules(line))
  }

  /** The report has the three header entries and then exactly one entry per requested
      module name, in order, each with its resolved version. */
  lemma ReportShape(env: Environment, line: string)
    ensures |Report(env, line)| == 3 + |ParseModules(line)|
    ensures Report(env, line)[0].name == "Python"
    ensures Report(env, line)[1].name == "IPython"
    ensures Report(env, line)[2].name == "OS"
    ensures '\n' !in Report(env, line)[0].version
    ensures forall i :: 0 <= i < |ParseModules(line)| ==>
      Report(env, line)[3 + i] == Package(ParseModules(line)[i], Resolve(env, ParseModules(line)[i]))
  {
    var modules := ParseModules(line);
    EntriesAt(env, modules);
    var r := Report(env, line);
    forall i | 0 <= i < |modules|
      ensures r[3 + i] == Package(modules[i], Resolve(env, modules[i]))
    {
      assert r[3 + i] == Entries(env, modules)[i];
    }
  }

  /** A module named twice is reported twice, with the same version both times. */
  lemma ReportKeepsDuplicates(env: Environment, line: string, i: nat, j: nat)
    requires i < |ParseModules(line)| && j < |ParseModules(line)|
    requires ParseModules(line)[i] == ParseModules(line)[j]
    ensures |Report(env, line)| > 3 + i && |Report(env, line)| > 3 + j
    ensures Report(env, line)[3 + i] == Report(env, line)[3 + j]
  {
    ReportShape(env, line);
  }

  /** An empty line, or one of spaces and commas only, reports the header alone. */
  lemma ReportHeaderOnly(env: Environment, line: string)
    requires forall i :: 0 <= i < |line| ==> line[i] == ' ' || line[i] == ','
    ensures Report(env, line) == Header(env)
  {
    ParseModulesEmpty(line);
  }

  /** The loop of `version_information`: for every piece of the split line that is
      not empty, look its version up and append the entry. */
  method CollectEntries(env: Environment, modules: seq<string>) returns (entries: seq<Package>)
    ensures entries == Entries(env, NonEmpty(modules))
  {
    entries := [];
    for i := 0 to |modules|
      invariant entries == Entries(env, NonEmpty(modules[..i]))
    {
      var name := modules[i];
      EntriesStep(env, modules, i);
      if |name| > 0 {
        var version := LookUpVersion(env, name);
        entries := entries + [Package(name, version)];
      }
    }
    assert modules[..|modules|] == modules;
  }

  /** The magic's object: the timestamp and the packages of its last invocation, read
      by the renderers. */
  class VersionInformation {
    var time: string
    var packages: seq<Package>

    constructor ()
      ensures time == [] && packages == []
    {
      time := [];
      packages := [];
    }

    /** `version_information(line)`: takes the time, lists the header entries, and
        appends one entry for every non-empty comma-separated name of `line`. */
    method Collect(line: string, env: Environment)
      modifies this
      ensures time == env.clock
      ensures packages == Report(env, line)
    {
      time := env.clock;
      var entries := CollectEntries(env, Split(Replace(line, ' ', ""), ','));
      packages := Header(env) + entries;
    }
  }
}
