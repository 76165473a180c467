/**
 * The older doctester entry point: the same block pattern and the same
 * doctest conversion as the stub parser, except that examples whose source
 * starts with a fence marker are kept, and a file loop that keeps running
 * `total`, `passed` and `failed` counters and an `all_tests_passed` flag.
 *
 * Reading the stub files, writing the test files and importing them are not
 * modelled: a stub file is its path, its name and its text, and the loader
 * is a parameter taking the test file's name and text, answering `None`
 * when no module specification can be made for it.
 */
module DocStubs {
  import opened Text
  import opened Models
  import Paths
  import StubPattern
  import StubParser
  import Runner

  /** `_convert_doctests_to_assertions`: the conversion without dropping fence-marker examples. */
  method ConvertDoctestsToAssertions(blockName: string, chunks: seq<StubParser.Chunk>, repr: string -> string)
    returns (r: string)
    ensures r == StubParser.Converted(blockName, chunks, false, repr)
  {
    r := StubParser.ConvertExamples(blockName, chunks, repr, false);
  }

  /**
   * The two conversions differ on an example whose source is a fence marker
   * (and not setup code) and whose expected output is neither empty nor
   * `...`: the stub parser drops it, this one turns it into an assertion.
   */
  lemma FenceExampleKeptHere(blockName: string, source: string, want: string, repr: string -> string)
    requires StartsWith(Strip(source), Backticks) && !StubParser.IsSetupCode(Strip(source))
    requires Strip(want) != [] && Strip(want) != "..."
    ensures StubParser.Converted(blockName, [StubParser.Example(source, want, false)], true, repr) == ""
    ensures StubParser.Converted(blockName, [StubParser.Example(source, want, false)], false, repr) != ""
  {
    var c := StubParser.Example(source, want, false);
    FenceRoles(source, want);
    OneChunkConverted(blockName, c, true, repr);
    OneChunkConverted(blockName, c, false, repr);
  }

  /** A block of one chunk converts to nothing exactly when the chunk is no assertion. */
  lemma OneChunkConverted(blockName: string, c: StubParser.Chunk, dropFences: bool, repr: string -> string)
    ensures StubParser.Converted(blockName, [c], dropFences, repr) == "" <==> !StubParser.RoleOf(c, dropFences).Assertion?
  {
    var roles := StubParser.Roles([c], dropFences);
    assert roles == [StubParser.RoleOf(c, dropFences)];
    StubParser.ConvertedEmptyIff(blockName, [c], dropFences, repr);
    assert StubParser.HasAssertion(roles) <==> roles[0].Assertion?;
  }

  /** The roles of an example whose stripped source is a fence marker that is not setup code. */
  lemma FenceRoles(s: string, w: string)
    requires StartsWith(Strip(s), Backticks) && !StubParser.IsSetupCode(Strip(s))
    requires Strip(w) != [] && Strip(w) != "..."
    ensures StubParser.RoleOf(StubParser.Example(s, w, false), true) == StubParser.Ignored
    ensures StubParser.RoleOf(StubParser.Example(s, w, false), false) == StubParser.Assertion(Strip(s), Strip(w))
  {
    StripIdempotent(w);
  }

  /** No example of the block starts with a fence marker once stripped. */
  predicate NoFenceExample(chunks: seq<StubParser.Chunk>)
  {
    forall k :: 0 <= k < |chunks| && chunks[k].Example? ==> !StartsWith(Strip(chunks[k].source), Backticks)
  }

  /** Without fence-marker examples both conversions produce the same function. */
  lemma SameConversionWithoutFences(blockName: string, chunks: seq<StubParser.Chunk>, repr: string -> string)
    requires NoFenceExample(chunks)
    ensures StubParser.Converted(blockName, chunks, true, repr) == StubParser.Converted(blockName, chunks, false, repr)
  {
    assert StubParser.Roles(chunks, true) == StubParser.Roles(chunks, false) by {
      forall k | 0 <= k < |chunks|
        ensures StubParser.RoleOf(chunks[k], true) == StubParser.RoleOf(chunks[k], false)
      {
      }
    }
  }

  /** `_run_tests_in_module` of this file: the same counting, returned as `(passed, total)`. */
  method RunTestsInModule(members: seq<Runner.Member>) returns (passed: int, total: int)
    ensures TestResult(total, passed) == Runner.ModuleResult(members)
    ensures 0 <= passed <= total
  {
    var r := Runner.RunTestsInModule(members);
    passed, total := r.passed, r.total;
  }

  /** A stub file found under the package: its path, its name and its text. */
  datatype PyiFile = PyiFile(path: string, name: string, text: string)

  /** The test module written for a file, or `None` when the file is skipped before writing. */
  function ModuleText(f: PyiFile, parse: string -> seq<StubParser.Chunk>, repr: string -> string): Option<string>
  {
    var blocks := StubPattern.FindAll(f.text);
    var functions := StubParser.TestFunctionsOf(blocks, parse, repr, false);
    if blocks == [] || functions == [] then None
    else Some(Join("\n", [StubParser.ModuleHeader(f.path), StubParser.AssertionHelper] + functions))
  }

  lemma ModuleTextOf(f: PyiFile, parse: string -> seq<StubParser.Chunk>, repr: string -> string,
                     blocks: seq<StubPattern.DocBlock>, moduleContent: seq<string>)
    requires blocks == StubPattern.FindAll(f.text) && blocks != []
    requires StubParser.TestFunctionsOf(blocks, parse, repr, false) != []
    requires moduleContent == [StubParser.ModuleHeader(f.path), StubParser.AssertionHelper]
                            + StubParser.TestFunctionsOf(blocks, parse, repr, false)
    ensures ModuleText(f, parse, repr) == Some(Join("\n", moduleContent))
  {
  }

  /** What a file adds to the counters, or `None` when it is skipped. */
  function FileCounts(f: PyiFile, parse: string -> seq<StubParser.Chunk>, repr: string -> string,
                      load: (string, string) -> Option<seq<Runner.Member>>): Option<TestResult>
  {
    match ModuleText(f, parse, repr)
    case None => None
    case Some(content) =>
      match load(Paths.TestFileName(f.name), content)
      case None => None
      case Some(members) => Some(Runner.ModuleResult(members))
  }

  function CountsStep(parse: string -> seq<StubParser.Chunk>, repr: string -> string,
                      load: (string, string) -> Option<seq<Runner.Member>>): PyiFile -> Option<TestResult>
  {
    (f: PyiFile) => FileCounts(f, parse, repr, load)
  }

  /** The per-file counts that are added to the counters, in file order. */
  function Counted(files: seq<PyiFile>, parse: string -> seq<StubParser.Chunk>, repr: string -> string,
                   load: (string, string) -> Option<seq<Runner.Member>>): seq<TestResult>
  {
    Runner.Present(files, CountsStep(parse, repr, load))
  }

  /**
   * One iteration of the file loop of `test_pyi_files`, up to the counts it
   * adds: `None` when the file has no block, no test function, or no module
   * specification can be made for its test file.
   */
  method TestPyiFile(pyiFile: PyiFile, parse: string -> seq<StubParser.Chunk>, repr: string -> string,
                     load: (string, string) -> Option<seq<Runner.Member>>)
    returns (counts: Option<TestResult>)
    ensures counts == FileCounts(pyiFile, parse, repr, load)
    ensures counts.Some? ==> counts.value.Valid()
  {
    var testFile := Paths.TestFileName(pyiFile.name);
    var blocks := StubPattern.FindAll(pyiFile.text);
    if blocks == [] {
      return None;
    }
    var moduleContent, hasTests :=
      StubParser.CollectTestFunctions(StubParser.ModuleHeader(pyiFile.path), blocks, parse, repr, false);
    if !hasTests {
      return None;
    }
    ModuleTextOf(pyiFile, parse, repr, blocks, moduleContent);
    var testModule := load(testFile, Join("\n", moduleContent));
    if testModule.None? {
      return None;
    }
    var filePassed, fileTotal := RunTestsInModule(testModule.value);
    return Some(TestResult(fileTotal, filePassed));
  }

  /** One more file adds its counts to the counted list, if it has any. */
  lemma CountedStep(files: seq<PyiFile>, i: nat, parse: string -> seq<StubParser.Chunk>, repr: string -> string,
                    load: (string, string) -> Option<seq<Runner.Member>>)
    requires i < |files|
    ensures var c := FileCounts(files[i], parse, repr, load);
      Counted(files[..i + 1], parse, repr, load)
      == Counted(files[..i], parse, repr, load) + (if c.None? then [] else [c.value])
  {
    var step := CountsStep(parse, repr, load);
    Runner.PresentStep(files, i, step);
    assert step(files[i]) == FileCounts(files[i], parse, repr, load);
  }

  /**
   * The counting of `test_pyi_files`: `total` and `passed` are the sums over
   * the counted files, `failed` is always `total - passed`, `allTestsPassed`
   * is false exactly when something failed, and the exit status is 1 exactly then.
   */
  method TestPyiFiles(files: seq<PyiFile>, parse: string -> seq<StubParser.Chunk>, repr: string -> string,
                      load: (string, string) -> Option<seq<Runner.Member>>)
    returns (total: int, passed: int, failed: int, allTestsPassed: bool, exitCode: int)
    ensures TestResult(total, passed) == Sum(Counted(files, parse, repr, load))
    ensures failed == total - passed
    ensures 0 <= passed <= total
    ensures allTestsPassed <==> failed == 0
    ensures exitCode == (if allTestsPassed then 0 else 1)
  {
    allTestsPassed := true;
    total, passed, failed := 0, 0, 0;
    for i := 0 to |files|
      invariant TestResult(total, passed) == Sum(Counted(files[..i], parse, repr, load))
      invariant failed == total - passed
      invariant 0 <= passed <= total
      invariant allTestsPassed <==> failed == 0
    {
      var counts := TestPyiFile(files[i], parse, repr, load);
      CountedStep(files, i, parse, repr, load);
      ghost var before := Counted(files[..i], parse, repr, load);
      if counts.None? {
        assert Counted(files[..i + 1], parse, repr, load) == before + [] == before;
      } else {
        var fileTotal, filePassed := counts.value.total, counts.value.passed;
        assert Counted(files[..i + 1], parse, repr, load) == before + [counts.value];
        SumAppend(before, counts.value);
        total := total + fileTotal;
        passed := passed + filePassed;
        var fileFailed := fileTotal - filePassed;
        failed := failed + fileFailed;
        if fileFailed > 0 {
          allTestsPassed := false;
        }
      }
    }
    assert files[..|files|] == files;
    exitCode := if !allTestsPassed then 1 else 0;
  }

  /** A file with no block, or whose blocks have no assertion, leaves every counter unchanged. */
  lemma FileWithoutAssertionSkipped(before: seq<PyiFile>, f: PyiFile, after: seq<PyiFile>,
                                    parse: string -> seq<StubParser.Chunk>, repr: string -> string,
                                    load: (string, string) -> Option<seq<Runner.Member>>)
    requires var blocks := StubPattern.FindAll(f.text);
      forall k :: 0 <= k < |blocks| ==> !StubParser.BlockHasAssertion(blocks[k], parse, false)
    ensures FileCounts(f, parse, repr, load).None?
    ensures Counted(before + [f] + after, parse, repr, load) == Counted(before + after, parse, repr, load)
  {
    var blocks := StubPattern.FindAll(f.text);
    StubParser.TestFunctionsOfEmptyIff(blocks, parse, repr, false);
    Runner.PresentSkip(before, f, after, CountsStep(parse, repr, load));
  }

  /** Every counted file keeps `0 <= passed <= total`. */
  lemma FileCountsValid(f: PyiFile, parse: string -> seq<StubParser.Chunk>, repr: string -> string,
                        load: (string, string) -> Option<seq<Runner.Member>>)
    ensures FileCounts(f, parse, repr, load).Some? ==> FileCounts(f, parse, repr, load).value.Valid()
  {
    var content := ModuleText(f, parse, repr);
    if content.Some? {
      var loaded := load(Paths.TestFileName(f.name), content.value);
      if loaded.Some? {
        Runner.PassedAtMostTotal(loaded.value);
      }
    }
  }

  /** The run ends with every test passed exactly when every counted file has no failure. */
  lemma AllTestsPassedIff(files: seq<PyiFile>, parse: string -> seq<StubParser.Chunk>, repr: string -> string,
                          load: (string, string) -> Option<seq<Runner.Member>>)
    ensures var rs := Counted(files, parse, repr, load);
      Sum(rs).Failed() == 0 <==> forall k :: 0 <= k < |rs| ==> rs[k].Failed() == 0
  {
    var g := CountsStep(parse, repr, load);
    forall f ensures g(f).Some? ==> g(f).value.Valid() {
      FileCountsValid(f, parse, repr, load);
    }
    Runner.PresentAllValid(files, g);
    SumNoFailureIff(Counted(files, parse, repr, load));
  }
}
