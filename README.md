# The YAML-driven resolver tests of pip, modelled in Dafny

pip's resolver tests are driven by YAML fixtures (`tests/functional/test_yaml.py`). Each fixture
file holds a `base` mapping and a list of `cases`. Every case lists the packages that must be
`available`, in a compact notation such as `"foo 1.0; depends bar, baz"`. It also lists the
install `request`s to make and the `transaction` expected of each. The harness:

- turns each fixture into named test cases (`generate_yaml_tests`, `id_func`);
- parses the compact notation into the keyword arguments of the wheel builder (`convert_to_dict`
  and its `stripping_split`);
- checks the shape of every case, runs each install request and compares its effect with the
  expected transaction (`test_yaml_based`, `handle_install_request`).

A successful install reports the sorted `"name version"` entries of the `.dist-info`
directories it created.

The model has these modules:

- `Wrappers`: `Option` and `Result`. A Python exception becomes a `Failure` value that names the
  assertion or error that raised it.
- `Scan`: the loops that stop at the first offending element: `FirstWhere`, `FirstFault`, and
  `ReadEach`, a `for` loop whose body either raises or reassigns a variable. Each comes with its
  lemmas.
- `PyText`: the Python string builtins the harness uses, specified on `seq<char>`:
  - `strip`, `split` (with and without `maxsplit`), `rsplit(sep, 1)`, `join`;
  - `startswith`, `endswith`, `in`, ASCII `lower`;
  - POSIX `os.path.basename` (cut at the last `/`), slicing with negative bounds, and `str` of a
    non-negative integer.
- `Values`: the values `yaml.safe_load` produces, and Python truthiness.
- `SpecParser`: `convert_to_dict`. It is a function `ParsePackageSpec` on text, plus the method
  `ConvertToDict` and its loop `ApplyClauses`, proved equal to it.
- `SpecRender`: the compact notation written back from a record. It is used for the round trip
  through `convert_to_dict`.
- `Fixtures`: what `generate_yaml_tests` makes of one fixture, and `id_func`. The loop is the
  method `GenerateCases`, proved equal to the function `FixtureCases`.
- `Installed`: the `returncode == 0` branch of `handle_install_request`. The loop is
  `SummariseInstall`, proved equal to the function `InstallSummary`. The sort is insertion into a
  sorted list, proved sorted, a permutation, and the only sorted permutation.
- `CaseRunner`: `test_yaml_based` and `handle_install_request`. The methods are `RunCase`,
  `CheckPackages`, `CheckRequests` and `HandleInstallRequest`, each proved equal to a verdict
  function (`CaseVerdict` and the functions it uses).

The installer process is a parameter, `run: (nat, string) -> InstallerRun`. `run(j, r)` is what
`pip install r` reports for the `j`-th request: the paths it created on exit status 0, otherwise
its error output.

The intended behaviour of the conflict branch is to turn the installer's conflict message into
`{required_by, selector}` records. The code as written does something else. Line 135 calls
`re.finditer(message, _conflict_finder_pat)`, with the compiled pattern where the text to search
belongs, so Python raises before any record is built. The model follows the code: a failed
install whose lower-cased error output contains `conflicting` makes the handler raise
(`ConflictScanRaised`). Any other failed install has the empty effect `{}`.

`SpecParser.ApplyClause`, `Installed.EntryOfPath` and `CaseRunner.CheckPackage` are the loop bodies
of `ApplyClauses`, `SummariseInstall` and `CheckPackages`, split out only so that each loop's proof
stays small; each is proved equal to the function that states its meaning (`ReadClause`, `EntryOf`,
`PackageFault`).

## Model

| member | source | states |
|---|---|---|
| SpecParser.StrippingSplit | tests/functional/test_yaml.py:72-76 | there is at least one piece, and at most `count + 1` when a count is given; no piece has whitespace at either end |
| SpecParser.StrippingSplitOfStripped | tests/functional/test_yaml.py:72-76 | stripping the text first changes nothing, because the text is stripped before the split anyway |
| SpecParser.ConvertToDict | tests/functional/test_yaml.py:70-92 | the method computes `ParsePackageSpec`: the header fault, else the first clause fault, else the record |
| SpecParser.ApplyClauses | tests/functional/test_yaml.py:86-90 | the loop over the clauses computes `ReadClauses`: the fault of the first faulty clause, else the arguments of the last clause, else `[]` |
| SpecParser.ApplyClause | tests/functional/test_yaml.py:87-90 | one clause raises exactly when it is faulty and then reports its fault; otherwise it yields the arguments split on `,` |
| SpecParser.ReadClausesAccepted | tests/functional/test_yaml.py:86-90 | when every clause is accepted, the result is the last clause's arguments, or `[]` when there are no clauses |
| SpecParser.ReadClausesSucceedsIff | tests/functional/test_yaml.py:86-90 | the clauses are read through exactly when no clause is faulty |
| SpecParser.ReadClausesFailure | tests/functional/test_yaml.py:86-90 | a failed read reports the fault of the first faulty clause; every clause before it is accepted |
| SpecParser.ParseSucceedsIff | tests/functional/test_yaml.py:84-90 | the parse succeeds exactly when the header has two fields and no clause is faulty |
| SpecParser.ParseFailureIsFirstFault | tests/functional/test_yaml.py:84-90 | a failed parse reports the header's field count if that is wrong; otherwise it reports the fault of the first faulty clause |
| SpecParser.ParsedRecord | tests/functional/test_yaml.py:80-90 | an accepted spec has name and version from the header and empty `extras`; `depends` comes from the last clause, or is `[]` with no clause |
| SpecParser.HeaderFieldsCountSpaces | tests/functional/test_yaml.py:84 | the header has one more field than it has spaces; tabs do not separate fields |
| SpecParser.HeaderNeedsOneSpace | tests/functional/test_yaml.py:84 | a header without exactly one space fails with its field count; every accepted spec has exactly one space in its header |
| SpecParser.TwoSpacesInHeaderFields | tests/functional/test_yaml.py:84 | two spaces in the header, adjacent or not, give at least three fields |
| SpecParser.TwoSpacesInHeaderFail | tests/functional/test_yaml.py:84 | such a header fails the parse with a field count of at least three |
| SpecParser.HeaderFault | tests/functional/test_yaml.py:84 | a wrong header field count is the fault reported, whatever the clauses are |
| SpecParser.ClauseWords | tests/functional/test_yaml.py:87 | `stripping_split(part, " ", 1)` gives the stripped verb and argument text when the stripped clause has a space; otherwise it gives the stripped clause alone |
| SpecParser.ClauseVerdict | tests/functional/test_yaml.py:87-90 | no space gives a missing-argument fault, and a verb other than `depends` gives an unknown-verb fault; a `depends` clause's arguments are the text after the first space, split on `,` and stripped |
| SpecParser.ParsedNameVersion | tests/functional/test_yaml.py:84 | an accepted name and version are non-empty, contain no space or `;`, and have no whitespace at either end |
| SpecParser.HeaderPair | tests/functional/test_yaml.py:84 | the two fields of a stripped, `;`-free header are non-empty and free of spaces and `;` |
| SpecRender.RenderParses | tests/functional/test_yaml.py:70-92 | every record the compact notation can express comes back unchanged from `convert_to_dict` |
| Scan.ReadEachFailure | tests/functional/test_yaml.py:86-90 | a loop whose body raises stops with the error of the first element whose reading fails |
| Scan.ReadEachSucceedsIff | tests/functional/test_yaml.py:86-90 | such a loop gets through exactly when every element reads through |
| Scan.ReadEachAccepted | tests/functional/test_yaml.py:86-90 | then the loop ends with the reading of the last element |
| Scan.FirstFaultIsFirst | tests/functional/test_yaml.py:163-193 | a loop that stops at the first faulty element finds nothing exactly when no element is faulty; a fault it reports is that of an element with no faulty element before it |
| PyText.JoinSplit | tests/functional/test_yaml.py:74 | joining the pieces of `split(sep)` with `sep` gives back the text |
| PyText.SplitJoin | tests/functional/test_yaml.py:74 | splitting a join of `sep`-free pieces gives back the pieces |
| PyText.SplitLength | tests/functional/test_yaml.py:74 | `split(sep)` has one more piece than the text has separators |
| PyText.SplitOnce | tests/functional/test_yaml.py:76 | `split(sep, 1)` cuts at the first separator, or keeps the whole text when there is none |
| PyText.StripIdempotent | tests/functional/test_yaml.py:74 | stripping twice is stripping once |
| PyText.StripIsInfix | tests/functional/test_yaml.py:74 | the stripped text is a contiguous part of the text, with only whitespace removed around it |
| PyText.RSplitOnceJoin | tests/functional/test_yaml.py:118 | `rsplit(sep, 1)` gives two pieces exactly when `sep` occurs; they are the text around its last occurrence, and the second piece contains no `sep` |
| PyText.BasenameKeepsSuffix | tests/functional/test_yaml.py:117 | a basename keeps every `/`-free suffix of its path |
| PyText.DecimalRoundTrip | tests/functional/test_yaml.py:49 | reading back the digits `str(i)` writes gives `i` |
| PyText.ContainsAt | tests/functional/test_yaml.py:129 | an occurrence of a word at any index makes `word in text` hold |
| PyText.ContainsIndex | tests/functional/test_yaml.py:129 | and `word in text` holds only where the word occurs at some index |
| Fixtures.BaseNameOfFixture | tests/functional/test_yaml.py:38 | for `directory/relative.ext` with a four-character extension, the base name is `relative` |
| Fixtures.BaseNameLength | tests/functional/test_yaml.py:38 | a path drops the directory, the separator and the extension; a path too short for that gives an empty name |
| Fixtures.CaseNameSuffix | tests/functional/test_yaml.py:47-49 | the index is appended after a `-` exactly when the fixture has several cases, and it reads back as the index |
| Fixtures.CaseNamesDistinct | tests/functional/test_yaml.py:47-49 | the cases of a fixture with several cases get pairwise different names |
| Fixtures.MergedCaseFields | tests/functional/test_yaml.py:44-51 | a case holds the template's keys over the base's, with `:name:` set and `skip` removed; it is marked xfail exactly when the template's `skip`, or else the base's, is truthy |
| Fixtures.MergeCase | tests/functional/test_yaml.py:44-51 | the loop body copies, updates, names, suffixes and pops in that order, which yields `MergedCase` |
| Fixtures.GenerateCases | tests/functional/test_yaml.py:32-54 | the loop over one fixture's cases yields `FixtureCases`, its errors included |
| Fixtures.FixtureCasesOkIff | tests/functional/test_yaml.py:34-46 | a fixture is read exactly when it has a list of `cases` that is empty, or that is all mappings with `base` a mapping or absent |
| Fixtures.FixtureCasesContents | tests/functional/test_yaml.py:40-54 | one case per template, in order, each merged over `base` and named after the file; the names are pairwise different |
| Fixtures.Truncate | tests/functional/test_yaml.py:64-67 | a label has at most 25 characters |
| Fixtures.TruncateShape | tests/functional/test_yaml.py:64-67 | a text of at most 25 characters is kept; a longer one becomes its first 20 characters, `...` and its last 2 |
| Fixtures.TruncateIdempotent | tests/functional/test_yaml.py:64-67 | shortening a shortened label changes nothing |
| Fixtures.IdFuncNames | tests/functional/test_yaml.py:57-67 | a mapping with `:name:` is labelled by that name; anything else gets a text label of at most 25 characters, its text form itself when short |
| Fixtures.IdFuncOfGeneratedCase | tests/functional/test_yaml.py:47-49 | a generated case is reported under its generated name |
| Installed.DistInfoStemShape | tests/functional/test_yaml.py:115-117 | for a `.dist-info` path the basename is the stem followed by `.dist-info`, and the stem has no `/` |
| Installed.EntryShape | tests/functional/test_yaml.py:115-122 | an entry fails exactly when the stem has no `-`; otherwise the basename is `name-version.dist-info`, the version contains no `-`, and the entry is `name version` |
| Installed.EntryOfDistribution | tests/functional/test_yaml.py:115-122 | the directory `prefix/name-version.dist-info`, with no `-` in the version, reports `name version` |
| Installed.LastSeparator | tests/functional/test_yaml.py:118 | `rsplit("-", 1)` separates a version that contains no `-` from the name before it |
| Installed.EntryOfPath | tests/functional/test_yaml.py:115-122 | the loop body for a `.dist-info` path computes `EntryOf`; unpacking fails unless there are two pieces |
| Installed.SummariseInstall | tests/functional/test_yaml.py:110-124 | the loop and the sort compute `InstallSummary`: the first unpacking failure, else the sorted entries |
| Installed.EntriesStep | tests/functional/test_yaml.py:114-122 | one more path leaves the entries as they were, extends them by its entry, or fails with it |
| Installed.CollectFailurePersists | tests/functional/test_yaml.py:114-122 | once a prefix of the paths fails, the whole list fails the same way |
| Installed.EntriesContents | tests/functional/test_yaml.py:114-122 | the entries succeed exactly when every `.dist-info` path has a version separator; then there is one entry per such path, in order |
| Installed.DistInfoPathsMembers | tests/functional/test_yaml.py:114-115 | a path is among the `.dist-info` paths exactly when it was created and ends in `.dist-info` |
| Installed.StrLtIrreflexive | tests/functional/test_yaml.py:124 | the string order of `sort()` is irreflexive |
| Installed.StrLtAsymmetric | tests/functional/test_yaml.py:124 | and asymmetric |
| Installed.StrLtTotal | tests/functional/test_yaml.py:124 | and total |
| Installed.StrLtTransitive | tests/functional/test_yaml.py:124 | and transitive |
| Installed.Insert | tests/functional/test_yaml.py:124 | insertion adds exactly the one element |
| Installed.InsertSorted | tests/functional/test_yaml.py:124 | insertion into a sorted list keeps it sorted |
| Installed.SortStrings | tests/functional/test_yaml.py:124 | the sorted list is a permutation of the list |
| Installed.SortStringsSorted | tests/functional/test_yaml.py:124 | the sorted list is sorted |
| Installed.SortedUnique | tests/functional/test_yaml.py:124 | two sorted lists with the same elements are equal, so the summary does not depend on the order of creation |
| Installed.InstallSummaryContents | tests/functional/test_yaml.py:110-124 | the summary succeeds exactly when the entries do; it is sorted, a permutation of the entries, and has one entry per `.dist-info` path |
| Installed.InstallSummaryMembers | tests/functional/test_yaml.py:114-124 | every `.dist-info` path has its entry in the summary, and every summary entry comes from one |
| CaseRunner.HandleInstallRequest | tests/functional/test_yaml.py:95-144 | the handler computes `InstallEffect`: a non-string requirement raises; exit status 0 gives `{install: summary}`; a conflict mention raises; any other failure gives `{}` |
| CaseRunner.InstallEffectOfZeroExit | tests/functional/test_yaml.py:110-124 | on exit status 0 the effect has the single key `install`, holding the sorted summary with one entry per `.dist-info` path |
| CaseRunner.InstallEffectOfNonZeroExit | tests/functional/test_yaml.py:129-135 | `conflicting` in the error output, in any letter case and at any index, makes the handler raise; with no mention, and whenever it does not raise, the effect is `{}` |
| CaseRunner.OnlyKey | tests/functional/test_yaml.py:181 | the key taken from a one-key request is in it, and it is the only key |
| CaseRunner.SingleKey | tests/functional/test_yaml.py:178-181 | a mapping with one key has no other key |
| CaseRunner.RunCase | tests/functional/test_yaml.py:151-193 | the test body computes `CaseVerdict`: list shapes, then the count check, then the packages, then the requests |
| CaseRunner.CheckPackages | tests/functional/test_yaml.py:163-167 | the package loop reports the first refused package |
| CaseRunner.CheckPackage | tests/functional/test_yaml.py:164-167 | a string package must parse, and any package must then be a mapping |
| CaseRunner.CheckRequests | tests/functional/test_yaml.py:176-193 | the loop over requests zipped with transactions reports the first failing request |
| CaseRunner.PackagesFaultIsFirst | tests/functional/test_yaml.py:163-167 | no package is refused exactly when the scan finds nothing; otherwise the fault is that of a refused package with none refused before it |
| CaseRunner.RequestsFaultIsFirst | tests/functional/test_yaml.py:176-193 | every request passes exactly when the loop finds nothing; otherwise the fault is that of a failing request whose predecessors all passed |
| CaseRunner.RequestPassesIff | tests/functional/test_yaml.py:178-193 | a request passes exactly when its only key is `install`, its requirement is a string, and the install has the expected effect |
| CaseRunner.RequestShapeRejected | tests/functional/test_yaml.py:178-185 | a non-mapping fails, a request without exactly one key fails with its key count, and a single key other than `install` fails as unsupported |
| CaseRunner.CasePassesIff | tests/functional/test_yaml.py:151-193 | a case passes exactly when its three fields are lists and `request` and `transaction` have equal lengths; every package must be a mapping or a parsable string, and every request a single `install` whose effect is its transaction |
| CaseRunner.CountMismatchRejected | tests/functional/test_yaml.py:156-158 | request and transaction lists of different lengths fail with both counts, before any package or install is looked at |
| CaseRunner.BadRequestRejected | tests/functional/test_yaml.py:178-185 | a case with a request that is not a single `install` action never passes |

## Left out

- Reading fixtures (lines 32-33): the directory glob, the file reads and `yaml.safe_load` are not modelled. The model starts from the value `data` and the path text of one fixture. Mapping keys are strings, and floats and dates are not among the values.
- Laziness of `generate_yaml_tests` (line 54): cases yielded before a failure are not modelled. A bad template fails only that fixture in the model. In Python, pytest exhausts the generator while collecting the parametrised `test_yaml_based` (lines 147-150), so the assertion is a collection error for the whole module.
- pytest parametrisation and marks (lines 52, 147-150): these are not modelled. A case only records whether its popped `skip` was truthy; what pytest does with an expected failure is not modelled.
- `str(param)` in `id_func` (line 64): the text form of a parameter is an input of `IdFunc`, because Python's `repr` of nested values is not modelled.
- The install process (lines 99-105): `script.pip`, `path_to_url` and the scratch index are the parameter `run`. The part of the result that is not reported is not modelled, nor is the message `str(result)` of the final assertion (line 193).
- `_result_object` (lines 107-109, 190-191): the key is stored and then deleted before the comparison, so the effect compared is built without it.
- Building wheels (line 169): `create_basic_wheel_for_package(script, **package)` is not modelled. Neither are wrong keyword arguments in a mapping package. The model only checks that a package is a mapping, or a string that parses.
- The conflict records (lines 13-25, 130-142): the regular expression and the construction of records are not modelled. As written, line 135 raises before either matters, and the mismatch between `di["name"]` and the `package` group at line 139 is never reached. A correct extraction would need a regular-expression engine.
- PyText.Basename: POSIX `os.path.basename` only; the Windows separators of `ntpath.basename`, `\` and a drive's `:`, are not modelled. On Windows a created path such as `venv\Lib\site-packages\foo-1.0.dist-info` gives `foo 1.0` in Python, but the model's `Installed.EntryOf` keeps the directory part.
- CaseRunner.MentionsConflict: `lower()` is modelled on ASCII letters only; Python's full Unicode case mapping is left out.
- CaseRunner.ListField: a present `available`, `request` or `transaction` that is not a list fails the case as `NotAList`. The model does not follow Python into iterating a string or the keys of a mapping.
- Fixtures.FixtureCases: `cases` that is not a list, and templates that are not mappings, are failures. Python's `dict.update` would also accept an iterable of key-value pairs, and iterating an empty string or mapping yields no case.
- CaseRunner.CaseVerdict: effects are compared with structural equality on `Value`. Python's `1 == True` and `1 == 1.0` are not modelled.
- Installed.SortStrings: `list.sort` is modelled by insertion. For a total order every sort gives the same list (`SortedUnique`), so the algorithm pip's Python uses does not matter.
- The `TODO` items in the source (extras of installed packages, uninstall checks, lines 120, 126-127) are not implemented there and are not modelled.
