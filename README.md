# version_information, modelled in Dafny

This project models IPython's `version_information` extension. The extension
provides the `%version_information` line magic. The magic takes a
comma-separated list of module names and records a timestamp. It then builds a
list of `(name, version)` packages: first the interpreter, IPython and the
operating system, then each requested module with the version it reports. The
object then renders that list four ways: a JSON document, an HTML table, a
LaTeX `tabular` and a plain-text listing (comments followed by pip-style
`name==version` pins).

The model has these parts:

- `Text`: Python's one-character `str.replace` and `str.split`. `Join` is proved to invert `Split` (`JoinSplit`, `SplitUnique`), and `Flatten` of a split is proved to be the string with its separators deleted (`FlattenSplit`). The module also holds the prefix and cut helpers the readers use.
- `Arguments`: the parsing of the magic's argument line.
- `Collector`: the report itself.
  - The process the magic reads becomes an `Environment` value: the interpreter's version string, IPython's version, the OS name and platform, the formatted clock, and the two version lookups (import and `pkg_resources`).
  - The lookup order is a function (`Resolve`) with a statement-by-statement method beside it (`LookUpVersion`).
  - The loop is the method `CollectEntries`, proved against the function `Entries`.
  - The magic's object is the class `VersionInformation`, whose `Collect` sets the `time` and `packages` fields.
- `Escaping`: the LaTeX escape table and HTML escaping. Each escape comes with a decoder, which is proved to invert it.
- `JsonRepr`, `HtmlRepr`, `LatexRepr`, `PrettyRepr`: each renderer, plus a reader of its output, and a round-trip lemma for each.
  - The JSON reader gets the packages back exactly, for all packages. The document holds no timestamp.
  - The HTML, LaTeX and text readers get the packages and the timestamp back exactly. Each needs a readability condition (`HtmlReadable`, `LatexReadable`, `PrettyReadable`), because these renderings write names and the timestamp unescaped.
- `Views`: the four round trips applied to the report of any line and environment.
  - JSON: no condition.
  - LaTeX: the clock holds no `}`.
  - HTML: neither the line nor the clock holds a `<`.
  - Text listing: the line holds no `=`, and the clock, IPython's version, the operating system's fields and every resolved version hold no line break.

Three details of the source that the model keeps:

- The argument line loses its space characters only. A tab stays part of the name it precedes (`ParseModulesKeepsTabs`).
- `cgi.escape` is called with its default `quote=False`, so only `&`, `<` and `>` are replaced and `"` is written as it is.
- The LaTeX templates are raw strings. Each `\n` in them is a backslash followed by the letter `n`, and the model's constants hold exactly that.

## Model

| member | source | states |
|---|---|---|
| Text.Split | IPython/extensions/version_information.py:84 | Splitting on one separator gives at least one piece, and no piece holds the separator. |
| Text.JoinSplit | IPython/extensions/version_information.py:84 | Joining the pieces of a split with the separator gives back the original string. |
| Text.SplitUnique | IPython/extensions/version_information.py:84 | Split is the only way to cut a string into separator-free pieces that join back to it. |
| Text.FlattenSplit | IPython/extensions/version_information.py:84 | Laid end to end, the pieces of a split are the string with the separators deleted. |
| Text.DeleteMembers | IPython/extensions/version_information.py:84 | After deleting a character, a string holds exactly its other characters. |
| Arguments.ParseModules | IPython/extensions/version_information.py:84-86 | Every requested name is non-empty and holds neither a space nor a comma. |
| Arguments.ParseModulesCover | IPython/extensions/version_information.py:84-86 | The names, laid end to end, are the line with its spaces and commas deleted: nothing else is lost and order is kept. |
| Arguments.ParseModulesAppend | IPython/extensions/version_information.py:84-86 | A comma splits the line: the names before it, then the names after it. Extra commas add no name. |
| Arguments.ParseModulesPiece | IPython/extensions/version_information.py:84-86 | A stretch without commas gives one name (its spaces deleted), or none when nothing is left. |
| Arguments.ParseModulesEmpty | IPython/extensions/version_information.py:84-86 | No module is requested if and only if the line holds nothing but spaces and commas. |
| Arguments.ParseModulesOfJoin | IPython/extensions/version_information.py:84-86 | Valid names joined by "," or by ", " parse back to exactly those names, in order. |
| Arguments.ParseModulesExample | IPython/extensions/version_information.py:31 | The documented argument "sphinx, jinja2" requests sphinx, then jinja2. |
| Arguments.ParseModulesKeepsTabs | IPython/extensions/version_information.py:84 | Only spaces are deleted: "numpy,\tscipy" requests "numpy" and "\tscipy". |
| Collector.Header | IPython/extensions/version_information.py:81-83 | The report starts with exactly three entries: Python, IPython and OS. The Python version holds no line break. |
| Collector.HeaderPythonVersion | IPython/extensions/version_information.py:81 | The Python version holds exactly the characters of sys.version other than line breaks. |
| Collector.Resolve | IPython/extensions/version_information.py:87-99 | Order of lookup: a successful import's version wins. Otherwise, without pkg_resources, the import error's message is reported (bare raise). Otherwise pkg_resources' version is reported, or its error message. |
| Collector.LookUpVersion | IPython/extensions/version_information.py:87-99 | The try/except block, branch by branch, yields the version Resolve specifies. |
| Collector.ResolveImportFirst | IPython/extensions/version_information.py:87-91 | The fallback is never consulted when the import succeeds: environments that agree on a successful import agree on the version. |
| Collector.Entries | IPython/extensions/version_information.py:85-99 | One entry per requested module. |
| Collector.EntriesAppend | IPython/extensions/version_information.py:85-99 | The entries of two lists of names, one after the other, are the entries of both lists. |
| Collector.EntriesAt | IPython/extensions/version_information.py:85-99 | Entry i is the i-th requested name with its resolved version: nothing is dropped, merged or reordered. |
| Collector.EntriesStep | IPython/extensions/version_information.py:85-99 | One loop iteration: a non-empty piece appends its entry, an empty piece appends nothing. |
| Collector.CollectEntries | IPython/extensions/version_information.py:84-99 | The loop over the split line returns exactly the entries of its non-empty pieces, in order. |
| Collector.ReportShape | IPython/extensions/version_information.py:81-99 | The report has the three header entries, then exactly one entry per requested name, in order, each with its resolved version. |
| Collector.ReportKeepsDuplicates | IPython/extensions/version_information.py:85-99 | A module named twice is reported twice, with the same version. |
| Collector.ReportHeaderOnly | IPython/extensions/version_information.py:81-86 | A line of only spaces and commas, the empty line included, reports the header alone. |
| Collector.VersionInformation.Collect | IPython/extensions/version_information.py:79-100 | The magic sets time to the clock and packages to the report of its line. |
| Escaping.LatexChar | IPython/extensions/version_information.py:122-136 | A table character becomes a backslash sequence with no further backslash. Any other character is kept as it is and is not a backslash. |
| Escaping.LatexEscape | IPython/extensions/version_information.py:121-136 | Escaping never shortens the text. |
| Escaping.LatexEscapeAppend | IPython/extensions/version_information.py:136 | Escaping works character by character, so it distributes over concatenation. |
| Escaping.LatexEscapePlain | IPython/extensions/version_information.py:136 | Text without table characters is unchanged. |
| Escaping.LatexEscapeGrows | IPython/extensions/version_information.py:122-136 | Text with a table character gets strictly longer. |
| Escaping.LatexEscapeNoDoubleBackslash | IPython/extensions/version_information.py:122-136 | Escaped text never holds two adjacent backslashes. |
| Escaping.LatexTokenOfChar | IPython/extensions/version_information.py:122-135 | Each table entry is read back as its own character at the front of any text, so the table is injective. |
| Escaping.LatexUnescape | IPython/extensions/version_information.py:121-136 | The decoder returns only strings whose escape is the given text. |
| Escaping.LatexUnescapeEscape | IPython/extensions/version_information.py:121-136 | Decoding every escape gives back the original string: _latex_escape loses nothing. |
| Examples.LatexEscapeExample | IPython/extensions/version_information.py:126-127 | A version made of plain parts around "_" and "#" escapes to those parts around \letterunderscore{} and \#. |
| Escaping.HtmlChar | IPython/extensions/version_information.py:114 | &, < and > become entity references; any other character, quotes included, is kept. |
| Escaping.HtmlEscape | IPython/extensions/version_information.py:114 | Escaped text holds no < and no >, and is never shorter. |
| Escaping.HtmlEscapeEntities | IPython/extensions/version_information.py:114 | Every & of escaped text begins one of the three entity references, so nothing is escaped twice. |
| Escaping.HtmlTokenOfChar | IPython/extensions/version_information.py:114 | Each entity reference is read back as its own character. |
| Escaping.HtmlUnescape | IPython/extensions/version_information.py:114 | The decoder returns only strings whose escape is the given text. |
| Escaping.HtmlUnescapeEscape | IPython/extensions/version_information.py:114 | Decoding every escape gives back the original string. |
| JsonRepr.EntriesJson | IPython/extensions/version_information.py:104-106 | One object per package. |
| JsonRepr.Member | IPython/extensions/version_information.py:103-106 | A key lookup succeeds if and only if some member has that key. |
| JsonRepr.PackageOfEntry | IPython/extensions/version_information.py:105 | The object for a package reads back as that package. |
| JsonRepr.JsonRoundTrip | IPython/extensions/version_information.py:102-107 | The document lists every package, in order, with name and version unchanged, whatever they hold. |
| HtmlRepr.ParseHtmlRowOf | IPython/extensions/version_information.py:113-115 | A package row reads back as that package, its version unescaped, followed by the rest of the text. |
| HtmlRepr.RowIsNoFooter | IPython/extensions/version_information.py:115-116 | A package row can never be taken for the timestamp row. |
| HtmlRepr.ParseHtmlFooterOf | IPython/extensions/version_information.py:116-117 | The timestamp row and the table's end read back as the timestamp. |
| HtmlRepr.ParseHtmlBodyOf | IPython/extensions/version_information.py:113-117 | The rows and footer read back as the packages, in order, and the timestamp. |
| HtmlRepr.HtmlRoundTrip | IPython/extensions/version_information.py:109-118 | Given names and a timestamp without <, the table reads back exactly as the packages, in order, with their original versions, and the timestamp. |
| LatexRepr.RowEndNotInEscaped | IPython/extensions/version_information.py:143-144 | The row end never occurs inside an escaped version. |
| LatexRepr.ParseLatexRowOf | IPython/extensions/version_information.py:142-144 | A package row reads back as that package, its version unescaped, followed by the rest of the text. |
| LatexRepr.RowIsNoFooter | IPython/extensions/version_information.py:144-145 | A row whose name has no space can never be taken for the timestamp row. |
| LatexRepr.ParseLatexFooterOf | IPython/extensions/version_information.py:145-146 | The timestamp row and the environment's end read back as the timestamp. |
| LatexRepr.ParseLatexBodyOf | IPython/extensions/version_information.py:142-146 | The rows and footer read back as the packages, in order, and the timestamp. |
| LatexRepr.LatexRoundTrip | IPython/extensions/version_information.py:138-147 | Given space-free names and a timestamp without }, the tabular reads back exactly as the packages, in order, with their original versions, and the timestamp. |
| PrettyRepr.HeadCount | IPython/extensions/version_information.py:154-156 | At most three packages are written as comments: three, or all of them when there are fewer. |
| PrettyRepr.ParseTailOf | IPython/extensions/version_information.py:156-157 | The pin lines read back as the packages they were written from. |
| PrettyRepr.ParseHeadOf | IPython/extensions/version_information.py:154-157 | Comment lines followed by pin lines read back as both lists, in order. |
| PrettyRepr.PrettyRoundTrip | IPython/extensions/version_information.py:149-158 | The listing reads back exactly as the packages, in order, and the timestamp. The first three are comments and the rest are pins. Requires one-line values and unambiguous names. |
| Views.ReportNamesHaveNoSpace | IPython/extensions/version_information.py:81-86 | No name in any report holds a space. |
| Views.ReportNamesFromLine | IPython/extensions/version_information.py:84-86 | A character absent from the line appears in no requested name. |
| Views.LatexShowsReport | IPython/extensions/version_information.py:79-147 | For any line and environment whose clock has no }, the LaTeX table of the report reads back as the report and the time. |
| Views.HtmlShowsReport | IPython/extensions/version_information.py:79-118 | For any line and clock without <, the HTML table of the report reads back as the report and the time. |
| Views.JsonShowsReport | IPython/extensions/version_information.py:79-107 | For any line and environment, the JSON document of the report reads back as exactly the report. |
| Views.PrettyShowsReport | IPython/extensions/version_information.py:79-158 | For a line without = and an environment whose clock, IPython version, OS fields and resolved versions are one line each, the text listing of the report reads back as the report and the time. |

## Left out

- Running `exec` on an import and calling `pkg_resources.require`: each is a function of the `Environment` that returns a version or an error message. Only the lookup order and the fallback are modelled.
- Reading `sys.version`, `IPython.__version__`, `os.name`, `sys.platform` and the clock: these are fields of the `Environment`. The clock is taken as already formatted, because `time.strftime` is not modelled.
- Collector.Resolve: reports `str(e)` as a given message string, and a `__version__` as a string. Python would also accept versions that are not strings; the model does not.
- JsonRepr.ReprJson: the document is a structured JSON value. Its serialisation to text by `json.dumps` (quoting, escaping, key order of a dict) is not modelled. The reader therefore looks members up by key.
- Escaping.HtmlEscape: models only the default mode of `cgi.escape` (lines 54 and 114). The `quote=True` mode, which also escapes `"`, is never used and is not modelled.
- PrettyRepr.ReprPretty: models the text handed to the printer. The printer `pp.text` and its `cycle` argument are not modelled.
- The `magics_class` and `line_magic` decorators and `load_ipython_extension` (registration with IPython): there is no IPython shell to register with.
- The renderers are functions of the packages and the timestamp. They do not read the fields of a `VersionInformation` object. `Collect` sets exactly those fields, so a renderer applied to them renders the object.
- HtmlRepr.HtmlRoundTrip: requires names and a timestamp without `<`. Names and the timestamp are written unescaped, so the table of other values can be ambiguous.
- LatexRepr.LatexRoundTrip: requires names without spaces and a timestamp without `}`, for the same reason. Every report meets the first condition (`Views.ReportNamesHaveNoSpace`).
- PrettyRepr.PrettyRoundTrip: requires one-line versions and timestamp, comment names without `:` and pin names without `=`. The listing of other values can be ambiguous.
- Examples.LatexEscapeExample: proves the general form with any plain parts around `_` and `#`, not the one literal string `1.0_beta#2`.
- Collector.VersionInformation.Collect, Collector.Resolve: model only returned versions and caught errors. The handlers at lines 92 and 98 catch `Exception` only. A `SystemExit` or `KeyboardInterrupt` raised during an import escapes the magic. When that happens, `self.time` and `self.packages` are already set and the earlier entries already appended in place. In the model, `Collect` always completes, and it assigns `packages` once, from the list `CollectEntries` builds.
- Collector.ReportKeepsDuplicates: "the same version" for a module named twice holds because the two lookups are functions of the name alone. Python would run the import again for a module whose first import failed part-way, and could get a different outcome. The model assumes repeated lookups of one name agree.
