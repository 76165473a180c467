# doctester: a Dafny model of its test synthesisers

doctester turns the examples in Python stub files (`.pyi`) and in markdown
documents into runnable tests, and counts how those tests do. This project
models the text-synthesis half of that pipeline and the counting around it:

- **Markdown fences.** `stubtester/_blocks.py` finds the python fences of a
  markdown document. It names each one after the closest preceding header and
  the fence's ordinal, escapes the code and wraps it as a docstring test (module `Blocks`).
- **Stub blocks, pytest flavour.** `stubtester/_stubs.py` finds each
  `def`/`class` header followed by a triple-quoted docstring (module
  `StubPattern`). It strips markdown fence lines from the docstring and wraps
  it as a `def test_<name>(): """…"""; pass` function (module `StubTests`).
- **Doctest-to-assertion synthesis.** `doctester/_stub_parser.py` classifies
  each doctest example of a docstring as setup code or as an assertion, emits
  one test function per docstring with at least one assertion, and assembles
  the test module (module `StubParser`).
- **Near-duplicate with file-loop counters.** `doctester/_stubs.py` repeats
  that synthesis without the fence-marker rule. It counts `test_*` functions
  and keeps running totals over the files, with an all-passed flag and an
  exit status (module `DocStubs`).
- **Result counting.** `doctester/_stub_runner.py` and `doctester/_models.py`
  count passed and total tests per module and sum them over the files; a file
  whose module cannot be loaded counts as one failed test (modules `Runner`, `Models`).
- **Plugin collector.** `pytest_stubtester/plugin.py` decides which files the
  plugin collects and which docstrings of a stub's declaration tree become
  test items (module `Plugin`). `Plugin.ExtractDoctestsFromAst` and
  `Plugin.Collect` compute what the code as written computes, which never
  reaches class members (see "## Findings"). `Plugin.ExtractDoctestsFromAstFixed`
  and `Plugin.CollectFixed` are the intended versions, which recurse into classes.

Shared modules:

- `Text` models Python's string operations: `str.isspace`, ASCII `\w`,
  `strip`, `startswith`, `in`, `replace`, `split`, `join` and `str(int)`.
- `Scan` holds generic scanners, among them a `finditer`-style iteration over
  any matcher function.
- `Paths` models `Path.suffix`, `Path.stem` and ASCII `lower()`.

The regular expressions are written as deterministic scanners. Each pattern's
backtracking is resolved by hand:
- a `\w+` or `\s*` run is maximal wherever the character after it cannot
  continue the run;
- a non-greedy body ends at the first closing delimiter.

The stub pattern `(?:def|class)\s+(\w+)…:\s*"""(.*?)"""` is the same in all
three files that use it. It is defined once, in `StubPattern`.

Foreign behaviour is a parameter of the model:
- the chunks produced by `doctest.DocTestParser().parse`;
- `repr`;
- the tree produced by `ast.parse` (`None` for a syntax error);
- whether a parsed doctest has examples;
- the members and outcomes of an executed test module;
- the result of running pytest on a written file.

Where the source loops, the model is a method with a loop, proved equal to a
specification function. This covers the example loop of `_convert_doctest`
and of `_convert_doctests_to_assertions`, the block loop of
`generate_test_module_content`, the counters of `_run_tests_in_module`, and
the file loops of `run_pyi_tests` and `test_pyi_files`. The properties are
proved about those functions.

## Model

| member | source | states |
|---|---|---|
| Text.StripShape | src/doctester/_stub_parser.py:79 | `strip()` returns a contiguous slice of its input with no whitespace at either end, and is empty exactly when the input is all whitespace |
| Text.StripIdempotent | src/doctester/_stub_parser.py:91 | stripping the already-stripped expected output again changes nothing |
| Text.ContainsIff | src/doctester/_stub_parser.py:38 | the substring test `p in s` holds iff `p` occurs at some index of `s` |
| Text.ContainsPair | src/doctester/_stub_parser.py:38 | a two-character operator such as `==` is in `s` iff it occurs at two adjacent positions |
| Text.JoinSplit | src/doctester/_stub_parser.py:45 | joining the parts of `s.split(sep)` with `sep` gives `s` back |
| Text.SplitJoin | src/doctester/_stub_parser.py:45 | splitting a join of separator-free parts gives the parts back |
| Text.SplitOfJoin | src/doctester/_stub_parser.py:45 | splitting `"\n".join(parts)` on newlines gives the split lines of each part, in order |
| Text.JoinEmptyIff | src/stubtester/_stubs.py:59-61 | a join is empty iff there are no parts or a single empty part |
| Text.LStripBy | src/stubtester/_blocks.py:46 | left stripping removes exactly the longest prefix of dropped characters |
| Text.RStripBy | src/stubtester/_blocks.py:46 | right stripping removes exactly the longest suffix of dropped characters |
| Text.Decimal | src/stubtester/_blocks.py:45 | `str(idx)` is a non-empty run of ASCII digits |
| Text.DecimalRoundTrip | src/stubtester/_blocks.py:45 | reading the digits of `str(idx)` back gives `idx` |
| Text.DecimalInjective | src/stubtester/_blocks.py:45 | different ordinals print differently |
| Scan.RunEnd | src/stubtester/_stubs.py:13 | a `\w+`/`\s*` run ends at the first character that cannot continue it |
| Scan.FindFrom | src/stubtester/_stubs.py:14 | the non-greedy `(.*?)"""` ends at the first later `"""`, and `None` means there is none |
| Scan.FindIter | src/stubtester/_blocks.py:39 | `finditer` yields only matches, in increasing and non-overlapping order |
| Scan.FindIterComplete | src/stubtester/_blocks.py:39 | every position where the matcher succeeds lies inside some yielded match |
| Scan.ChainSorted | src/stubtester/_blocks.py:19 | the matches `finditer` yields have strictly increasing start offsets |
| Scan.LineEndFrom | src/stubtester/_stubs.py:70 | the end of a line is the first newline or the end of the text |
| Paths.RFind | src/stubtester/_stubs.py:23 | the last `.` of a name is found, and no later `.` exists |
| Paths.StemAndSuffix | src/pytest_stubtester/plugin.py:101 | a file name is its stem followed by its suffix; a non-empty suffix is a `.` followed by at least one non-dot character, after a non-empty stem |
| Paths.Lower | src/pytest_stubtester/plugin.py:101 | `lower()` maps each character and keeps the length |
| Paths.TestFileNameShape | src/stubtester/_stubs.py:23 | the generated file `<stem>_test.py` has suffix `.py` and stem `<stem>_test` |
| Models.Add | src/doctester/_stub_runner.py:68-69 | a pointwise sum has the summed `failed`, and stays valid when both parts are |
| Models.SumAppend | src/doctester/_stub_runner.py:68-69 | appending a result to the list adds it to the total |
| Models.SumFailedIsSum | src/doctester/_models.py:16-18 | the `failed` of the summed result is the sum of the `failed` of each result; the aggregate is never rebuilt from `failed` |
| Models.SumValid | src/doctester/_stub_runner.py:68-70 | if each part has `0 <= passed <= total`, so does the sum |
| Models.SumNoFailureIff | src/doctester/_stub_runner.py:68-70 | for valid parts, the sum has no failure iff no part has one |
| Models.SumFailedNonNegative | src/doctester/_models.py:16-18 | for valid parts, the summed `failed` is never negative |
| Models.NoFailureIffAllPassed | src/doctester/_models.py:16-18 | `failed == 0` iff `passed == total`; for a valid result, `failed > 0` iff `passed < total` |
| StubPattern.KeywordEnd | src/stubtester/_stubs.py:13 | the keyword is recognised exactly where `def` or `class` occurs |
| StubPattern.SkipGroup | src/stubtester/_stubs.py:13 | the optional `[...]` / `(...)` group runs to the first closing bracket, or is empty when the text does not open one |
| StubPattern.SkipReturn | src/stubtester/_stubs.py:13 | the optional `->[^:]+` annotation is `->` followed by at least one non-colon character, up to a `:` |
| StubPattern.SignatureEnd | src/stubtester/_stubs.py:13-14 | the signature ends just after its `:` |
| StubPattern.MatchAt | src/stubtester/_stubs.py:12-16 | a match at `i` has a `\w+` name after the keyword, and a body starting after the opening `"""` and ending at the first following `"""` |
| StubPattern.DocstringClose | src/stubtester/_stubs.py:14 | the docstring closes at the first `"""` after the opening one |
| StubPattern.MatchedBodyIsClosable | src/stubtester/_stubs.py:14 | a matched body contains no `"""` and does not end with `"` |
| StubPattern.PartsMakeMatch | src/stubtester/_stubs.py:12-16 | keyword, word name and a pair of triple quotes with no `"""` between them make a match |
| StubPattern.FindAll | src/stubtester/_stubs.py:56 | `findall` returns matches only, non-overlapping and in text order |
| StubPattern.FindAllComplete | src/stubtester/_stubs.py:56 | every position where the pattern matches is covered by a returned match |
| StubTests.FenceLineEnd | src/stubtester/_stubs.py:70 | a fence-line match starts at a line start and ends at a line end |
| StubTests.FenceLineIsMatched | src/stubtester/_stubs.py:70 | every line made of whitespace, three backticks and an optional word tag is matched |
| StubTests.MatchHasNoContent | src/stubtester/_stubs.py:70 | every match of the fence-line pattern spans only lines without other content |
| StubTests.BlanksAroundFenceHaveNoContent | src/stubtester/_stubs.py:70 | a fence marker between whitespace leaves no content line |
| StubTests.FenceLineMatcherRemovesFenceLines | src/stubtester/_stubs.py:70 | the `re.sub` matcher matches whole lines, covers no content line, and matches every fence line at a line start |
| StubTests.RemoveKeepsContentLines | src/stubtester/_stubs.py:70 | from any line start, the non-blank lines left by the removal are the content lines of the input, unchanged and in order |
| StubTests.CleanKeepsContentLines | src/stubtester/_stubs.py:70 | the non-blank lines of the cleaned docstring are exactly its lines with content other than a fence marker, unchanged and in order |
| StubTests.RemoveAddsNoTripleQuote | src/stubtester/_stubs.py:70 | removing fence lines creates no `"""` |
| StubTests.CleanKeepsLiteralClosable | src/stubtester/_stubs.py:70-74 | a body with no `"""` that does not end in `"` keeps both properties after cleaning, so it can still be embedded between triple quotes |
| StubTests.TestFunctionRescans | src/stubtester/_stubs.py:66-76 | the generated function is matched again by the stub pattern, as `test_<name>` with the cleaned docstring as its body |
| StubTests.TestFunctionNotBlank | src/stubtester/_stubs.py:72-76 | the template is never blank |
| StubTests.NoBlankTestFunction | src/stubtester/_stubs.py:58 | the `str.strip` filter removes no function |
| StubTests.ModuleContentLayout | src/stubtester/_stubs.py:52-63 | the content is `None` iff the text has no block; otherwise it is the header `# Generated tests from <name>` and a blank line, then the functions joined with newlines, in match order |
| StubTests.GeneratedFunctionRescans | src/stubtester/_stubs.py:55-60 | the k-th generated function re-matches as `test_` plus the k-th block's name, and keeps exactly that block's content lines |
| StubTests.MatchedBlockRescans | src/stubtester/_stubs.py:66-76 | the same, for any block the pattern matches |
| StubTests.ProcessPyiFileRunsAllBlocks | src/stubtester/_stubs.py:19-33 | no run happens when the text has no block; otherwise pytest runs once, on `<stem>_test.py` holding the generated content |
| Blocks.FirstClose | src/stubtester/_blocks.py:10 | the non-greedy fence body ends at the first later line that is exactly three backticks |
| Blocks.FenceAt | src/stubtester/_blocks.py:9-12 | a fence match starts at a line, has a `\w+` tag and trailing whitespace on its opening line, and its body runs to the first closing line |
| Blocks.FencePartsMakeFence | src/stubtester/_blocks.py:9-12 | an opening line and the first later closing line make a fence |
| Blocks.Fences | src/stubtester/_blocks.py:39 | the fences are matches, non-overlapping and in document order |
| Blocks.FencesComplete | src/stubtester/_blocks.py:39 | every position where a fence matches lies inside a listed fence |
| Blocks.FenceBodyEndsWithNewline | src/stubtester/_blocks.py:10 | a fence body is empty or ends with a newline |
| Blocks.HeaderAt | src/stubtester/_blocks.py:13 | a header match starts at a line start with `#` |
| Blocks.Headers | src/stubtester/_blocks.py:19 | the headers are matches over the whole text, inside fences included, non-overlapping and in order |
| Blocks.HeadersComplete | src/stubtester/_blocks.py:19 | every header match position lies inside a listed header |
| Blocks.HeadersSorted | src/stubtester/_blocks.py:19 | the headers have strictly increasing start offsets |
| Blocks.LastBefore | src/stubtester/_blocks.py:24-27 | the index found is that of the last header starting strictly before the fence, or `None` when none does |
| Blocks.HeaderFor | src/stubtester/_blocks.py:21-29 | the title base is `markdown_test` when no header precedes the fence, and otherwise the title of a preceding header after which no header precedes it |
| Blocks.ClosestHeader | src/stubtester/_blocks.py:21-29 | over sorted headers, the chosen one is the closest header before the fence |
| Blocks.SanitizeChar | src/stubtester/_blocks.py:14 | `[^a-zA-Z0-9_]` is replaced by `_`, and word characters are kept |
| Blocks.Sanitize | src/stubtester/_blocks.py:44 | `TITLE.sub` maps each character and keeps the length |
| Blocks.SanitizeKeepsWords | src/stubtester/_blocks.py:44 | a string of word characters is unchanged |
| Blocks.TitleShape | src/stubtester/_blocks.py:43-46 | a title is non-empty, has only `[A-Za-z0-9_]`, has no leading or trailing `_`, and ends with the fence ordinal |
| Blocks.TitleIndexRoundTrip | src/stubtester/_blocks.py:40-46 | the ordinal can be read back from the title |
| Blocks.TitlesOfDifferentFencesDiffer | src/stubtester/_blocks.py:40-46 | fences with different ordinals get different titles, whatever their headers |
| Blocks.EscapeStep | src/stubtester/_blocks.py:47 | escaping works left to right: `"""` becomes `\"\"\"`, a backslash becomes four, and any other character is kept |
| Blocks.EscapeHead | src/stubtester/_blocks.py:47 | the escaped code starts with `"` iff the code starts with a `"` that does not begin a `"""` |
| Blocks.QuadrupleKeepsLeadingQuotes | src/stubtester/_blocks.py:47 | doubling backslashes keeps a leading run of up to three quotes |
| Blocks.EscapeCodeReadsBack | src/stubtester/_blocks.py:47 | for code not ending in `"`, the escaped code closed by `"""` is one complete Python string literal, whose value is the code with each backslash doubled |
| Blocks.EscapeCodeCanHoldTripleQuote | src/stubtester/_blocks.py:47 | the escaped code of `"""""` plus a newline contains the substring `"""`; the literal still reads back correctly as above |
| Blocks.PythonIndices | src/stubtester/_blocks.py:41 | exactly the fences tagged `py` or `python` are kept, in document order |
| Blocks.PyTestsAtPythonFences | src/stubtester/_blocks.py:40-46 | the j-th test comes from the j-th python fence, titled with that fence's index among all fences |
| Blocks.PyTestTitlesDistinct | src/stubtester/_blocks.py:40-46 | no two generated tests share a title |
| Blocks.Render | src/stubtester/_blocks.py:50 | one function is rendered per test, in order |
| Blocks.MarkdownTestSpec | src/stubtester/_blocks.py:38-51 | each test comes from a python fence. Its title is built from the fence's closest preceding header and its ordinal, its code reads back as the fence body, and the title is a valid identifier tail |
| Blocks.CaseSpec | src/stubtester/_blocks.py:43-47 | one fence's test case has a title and code with these properties |
| Blocks.MarkdownTestCount | src/stubtester/_blocks.py:38-41 | there are as many tests as python fences |
| StubParser.IsSetupCodeIff | src/doctester/_stub_parser.py:36-39 | an example is setup code iff it starts with `import `, `from `, `def ` or `class `, or contains `=` but none of `==`, `>=`, `<=`, `!=` |
| StubParser.AssignmentIsSetupCode | src/doctester/_stub_parser.py:36-39 | example of `IsSetupCodeIff`: `x = 1` is setup code |
| StubParser.ComparisonIsNotSetupCode | src/doctester/_stub_parser.py:36-39 | example of `IsSetupCodeIff`: `x == 1` and `a <= b` are not setup code |
| StubParser.TestBlockLines | src/doctester/_stub_parser.py:28-33 | an assertion block is an empty line, then `res = <source>`, then the `_assert_test` check with the expected value, the block name and `repr(source)`, then `return False` |
| StubParser.SetupSectionLines | src/doctester/_stub_parser.py:45 | each setup line is indented by four spaces; with no setup the section is a single line of four spaces |
| StubParser.TestGeneratorLines | src/doctester/_stub_parser.py:42-52 | the function is `def test_<name>() -> bool:`, then the indented setup lines, then the assertion blocks' lines in order, then `return True` |
| StubParser.TestGeneratorNotBlank | src/doctester/_stub_parser.py:47-52 | a generated function is never blank |
| StubParser.RoleOfIgnored | src/doctester/_stub_parser.py:72-92 | a chunk contributes nothing iff it is not an example, or is skipped, or starts with three backticks, or is a non-setup example whose stripped expected output is empty or `...`; an assertion expects the stripped output |
| StubParser.Roles | src/doctester/_stub_parser.py:72 | one role is computed per chunk |
| StubParser.ConvertExamples | src/doctester/_stub_parser.py:62-96 | the example loop computes the specified conversion |
| StubParser.ConvertDoctest | src/doctester/_stub_parser.py:62-96 | `_convert_doctest` is that conversion with fence-marker examples dropped |
| StubParser.ConvertStep | src/doctester/_stub_parser.py:84-92 | each example appends its setup source or its assertion block to the lists, in order |
| StubParser.AssertionBlocksEmptyIff | src/doctester/_stub_parser.py:94 | there are no assertion blocks iff no chunk is an assertion |
| StubParser.ConvertedEmptyIff | src/doctester/_stub_parser.py:94-96 | the result is `""`, and is blank, iff no assertion was produced, even when setup lines exist |
| StubParser.SetupSourcesSkip | src/doctester/_stub_parser.py:84-85 | a chunk that is not setup code adds no setup line |
| StubParser.AssertionBlocksSkip | src/doctester/_stub_parser.py:86-92 | a chunk that is not an assertion adds no assertion block |
| StubParser.RolesSplit | src/doctester/_stub_parser.py:72 | the chunks are classified independently of one another |
| StubParser.RolesAppend | src/doctester/_stub_parser.py:72 | the roles of two chunk lists together are the roles of each, concatenated |
| StubParser.IgnoredChunkContributesNothing | src/doctester/_stub_parser.py:72-89 | removing an ignored chunk leaves the generated function unchanged |
| StubParser.KeptIff | src/doctester/_stub_parser.py:108-112 | a function is kept iff it converts from some block and is not blank |
| StubParser.KeptEmptyIff | src/doctester/_stub_parser.py:108-115 | nothing is kept iff every block converts to a blank string |
| StubParser.CollectTestFunctions | src/doctester/_stub_parser.py:105-112 | the block loop leaves the header, the assertion helper and the kept functions in block order; `has_tests` is set iff a function was kept |
| StubParser.GenerateTestModuleContent | src/doctester/_stub_parser.py:99-117 | the generator computes the specified module content |
| StubParser.TestFunctionsOfIff | src/doctester/_stub_parser.py:108-112 | a function is in the module iff it is the conversion of a block with an assertion |
| StubParser.TestFunctionsOfEmptyIff | src/doctester/_stub_parser.py:108-115 | no function is kept iff no block has an assertion |
| StubParser.ModuleContentNoneIff | src/doctester/_stub_parser.py:99-117 | the result is `None` iff there is no block or no block has an assertion |
| StubParser.ModuleContentNotEmpty | src/doctester/_stub_parser.py:114-117 | a produced module is never empty |
| DocStubs.ConvertDoctestsToAssertions | src/doctester/_stubs.py:34-80 | the loop computes the conversion without the fence-marker rule |
| DocStubs.OneChunkConverted | src/doctester/_stubs.py:41-70 | a single example yields a function iff it is an assertion |
| DocStubs.FenceRoles | src/doctester/_stubs.py:48-60 | a non-setup example whose source starts with three backticks is an assertion here, while the stub parser ignores it |
| DocStubs.FenceExampleKeptHere | src/doctester/_stubs.py:48-67 | such an example yields a test function here and none in the stub parser |
| DocStubs.SameConversionWithoutFences | src/doctester/_stubs.py:34-80 | without fence-marker examples, the two conversions agree |
| DocStubs.RunTestsInModule | src/doctester/_stubs.py:83-90 | `total` counts the `test_*` functions and `passed` those that return true, so `0 <= passed <= total` |
| DocStubs.ModuleTextOf | src/doctester/_stubs.py:128-141 | the written module is the header with the file's path, the helper and the test functions, joined with newlines |
| DocStubs.TestPyiFile | src/doctester/_stubs.py:117-159 | one iteration of the file loop yields the file's counts, or nothing when the file is skipped or its module cannot be loaded |
| DocStubs.CountedStep | src/doctester/_stubs.py:117-159 | each file adds its counts, or nothing, to the running list |
| DocStubs.TestPyiFiles | src/doctester/_stubs.py:93-169 | the counters are the sum of the files' counts with `failed == total - passed` and `0 <= passed <= total`; `all_tests_passed` is false iff `failed > 0`, exactly when the exit status is 1 |
| DocStubs.FileWithoutAssertionSkipped | src/doctester/_stubs.py:124-138 | a file with no block, or none with an assertion, leaves every counter unchanged |
| DocStubs.FileCountsValid | src/doctester/_stubs.py:150-156 | each file's counts satisfy `0 <= passed <= total` |
| DocStubs.AllTestsPassedIff | src/doctester/_stubs.py:153-169 | the run has no failure iff no file has one |
| Runner.PassedAtMostTotal | src/doctester/_stub_runner.py:11-18 | a module never has more passed than total tests |
| Runner.AllPassedIff | src/doctester/_stub_runner.py:11-18 | a module has no failure iff each of its `test_*` functions returns true |
| Runner.AllPassedStep | src/doctester/_stub_runner.py:13-17 | each member keeps that equivalence |
| Runner.CountsStep | src/doctester/_stub_runner.py:13-17 | a `test_*` member adds one to `total`, and one to `passed` when it returns true; other members add nothing |
| Runner.EveryTestPassesStep | src/doctester/_stub_runner.py:14-17 | a passing or non-test member keeps "every test passes" as it was |
| Runner.NonTestIgnored | src/doctester/_stub_runner.py:14 | functions not named `test_*` do not change the result |
| Runner.RunTestsInModule | src/doctester/_stub_runner.py:11-18 | the loop computes the specified counts, and they are valid |
| Runner.PresentStep | src/doctester/_stub_runner.py:40-61 | each file appends its result, or nothing, to the list |
| Runner.PresentSkip | src/doctester/_stub_runner.py:42-43 | a file without a result can be removed without changing the list |
| Runner.PresentAllValid | src/doctester/_stub_runner.py:61-66 | when each result is valid, the collected list is too |
| Runner.RunPyiTests | src/doctester/_stub_runner.py:33-70 | the loop returns the pointwise sum of the per-file results |
| Runner.FileResultValid | src/doctester/_stub_runner.py:51-66 | each file's result is valid |
| Runner.FileResultsValid | src/doctester/_stub_runner.py:68-70 | the aggregate has `0 <= passed <= total` |
| Runner.FileResultCases | src/doctester/_stub_runner.py:41-66 | a file with no content adds nothing; a file whose module cannot be loaded adds `(1, 0)`; otherwise it adds its module's counts |
| Runner.SkippedFileContributesNothing | src/doctester/_stub_runner.py:41-43 | a skipped file does not change the results |
| Runner.RunSucceedsIff | src/doctester/_stub_runner.py:68-70 | the aggregate has no failure iff no file has one |
| Plugin.RecurseExtractSound | src/pytest_stubtester/plugin.py:132-143 | every item from a definition has a doctest and a name under the definition's full name |
| Plugin.ExtractDefsSound | src/pytest_stubtester/plugin.py:116-120 | every item from a body has a doctest and a name under the prefix |
| Plugin.ExtractDefsComplete | src/pytest_stubtester/plugin.py:116-120 | every definition in a body whose docstring contains `>>>` yields `(full name, docstring, lineno)` |
| Plugin.OtherStatementsIgnored | src/pytest_stubtester/plugin.py:118 | statements other than `def` and `class`, `async def` among them, change nothing |
| Plugin.ClassMemberQualified | src/pytest_stubtester/plugin.py:134-142 | a member's item is named `Outer.member` |
| Plugin.AsWrittenIsOwnItem | src/pytest_stubtester/plugin.py:132-143 | as written, a definition yields at most its own item, a prefix of what the intended version yields; for a function the two agree |
| Plugin.AsWrittenTopLevelOnly | src/pytest_stubtester/plugin.py:116-143 | as written, exactly the top-level definitions with a doctest yield items |
| Plugin.AsWrittenDropsMembers | src/pytest_stubtester/plugin.py:136-143 | a class without a docstring, with a member whose docstring has `>>>`, yields nothing as written and `C.m` when fixed |
| Plugin.ExtractDoctestsFromAstCases | src/pytest_stubtester/plugin.py:107-143 | as the code is written: a file that does not parse yields nothing; a module docstring with `>>>` yields `(stem, docstring, 1)` alone; otherwise an item is yielded iff it is `(name, docstring, lineno)` of a top-level definition whose docstring contains `>>>`, so no class member is ever yielded |
| Plugin.ExtractDoctestsFromAstDropsMembers | src/pytest_stubtester/plugin.py:116-143 | on a stub holding only a class without a docstring whose method has `>>> 1`, the code as written yields nothing and the intended extraction yields `C.m` |
| Plugin.ExtractDefsIncludes | src/pytest_stubtester/plugin.py:116-120 | the flat map over a body keeps every item of each definition |
| Plugin.ExtractDoctestsFromAstFixedCases | src/pytest_stubtester/plugin.py:107-143 | with the intended recursion: the same first two cases; otherwise every item has a doctest, every top-level definition with `>>>` yields its item, and every member with `>>>` of a top-level class yields `Class.member` |
| Plugin.CollectItemsIff | src/pytest_stubtester/plugin.py:43-65 | `collect` makes exactly one test function for each item whose doctest has examples, with the item's name, and never more functions than items |
| Plugin.CollectCases | src/pytest_stubtester/plugin.py:36-65 | `collect` as written: nothing for a file that does not parse; the module test alone when the module docstring's doctest has examples; otherwise exactly one test function per top-level definition whose docstring has a doctest with examples, under its own name |
| Plugin.AcceptFileShape | src/pytest_stubtester/plugin.py:98-104 | a file is collected only when the option is on and the last four characters of its name, lowercased, are `.pyi` |
| Plugin.AcceptUpperCase | src/pytest_stubtester/plugin.py:101 | example of `AcceptFileShape`: `stub.PYI` is collected and `stub.py` is not |

## Left out

- **Side effects.** Reading and writing files, temporary directories,
  `shutil`, `sys.path`/`sys.modules`, `importlib` loading and module
  execution are not modelled. Neither are the subprocess call to pytest and
  its report parsing (`_run_pytest`, `TestResult.from_process`). A loaded
  module enters as its list of functions, each with its name and outcome;
  a pytest run enters as a function parameter.
- **Discovery and presentation.** Package discovery, `glob`, the CLI, the
  console and progress printing are not modelled. The exit status of
  `test_pyi_files` is returned as a value instead of `sys.exit`.
- **Foreign libraries.** `doctest.DocTestParser` (its output is the input
  chunk list), `repr`, `ast.parse`/`ast.get_docstring` and
  `DocTestParser.get_doctest` are inputs or parameters.
  `PyiModule._run_doctest` is not modelled.
- **Unicode.** `\w` is ASCII letters, digits and `_`; Unicode word characters
  are not modelled. `lower()` lowercases ASCII only. `\s` and `strip()` use
  the `str.isspace` characters listed in `Text.IsSpace`.
- **Exceptions.** In `doctester/_stubs.py` an exception raised while a
  module executes or a test function runs propagates out of
  `test_pyi_files`. The model's `None` there stands only for "no module
  specification". In `_stub_runner.py` every load or run error is the same
  `None`, counted as `(1, 0)`.
- **Parser errors.** `doctest.DocTestParser().parse` (called from
  `generate_test_module_content` and `_convert_doctests_to_assertions`) and
  `DocTestParser.get_doctest` (in `collect`) raise `ValueError` on a
  malformed example, such as a prompt not followed by a blank or
  inconsistent indentation. The model takes their results as total
  functions (`parse`, `hasExamples`) and assumes they never raise. In the
  source such an error aborts `run_pyi_tests` (the call sits before its
  `try`) and `test_pyi_files`, and becomes a collection error in pytest. It
  is never counted as `(1, 0)`.
- **Line mapping.** No remapping of line numbers back to markdown sources
  is modelled, because none of the modelled files computes one.
- DocStubs.TestPyiFile: the body of one iteration of the `test_pyi_files`
  loop is a method of its own. `DocStubs.TestPyiFiles` calls it, so the loop
  and its counters are still modelled as written.
- StubParser.ModuleHeader: the header is built from the file's name, as in
  `_module_content`. `doctester/_stubs.py` builds it from the file's full
  path (`DocStubs.ModuleText`).
- **Immutability.** `TestResult` is a datatype, so it cannot change after
  construction and its equality is structural. This matches the frozen
  dataclass and needs no lemma.

## Findings

| source | as written | input that shows it | evidently intended | confidence | as-written member | corrected member |
|---|---|---|---|---|---|---|
| src/pytest_stubtester/plugin.py:132-143 | `_recurse_extract` is a generator. The iterator over a class's members that it `return`s becomes the generator's stop value, and `flat_map` discards it, so no class member is ever collected | `class C:` with no docstring, whose method `m` has the docstring `>>> 1` | the members' items are yielded too, named `C.m` | not executed | Plugin.ExtractDoctestsFromAstDropsMembers | Plugin.ExtractDoctestsFromAstFixedCases |
