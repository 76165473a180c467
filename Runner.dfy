/**
 * The doctester's stub runner: counting the `test_` functions of a loaded
 * test module, and aggregating the results of every stub file.
 *
 * Loading a module and calling its functions are not modelled: a loaded
 * module is the list of its functions (name and whether the call returned a
 * truthy value), and the loader is a parameter that answers `None` when
 * loading or running raised an exception.
 */
module Runner {
  import opened Text
  import opened Models
  import Paths
  import StubParser

  /** A function of a loaded module, as `inspect.getmembers(module, inspect.isfunction)` lists it. */
  datatype Member = Member(name: string, outcome: bool)

  /** The functions that are counted: those whose name starts with `test_`. */
  predicate IsTest(m: Member)
  {
    StartsWith(m.name, "test_")
  }

  /** How many members are tests. */
  function TestCount(members: seq<Member>): nat
    decreases |members|
  {
    if members == [] then 0
    else TestCount(members[..|members| - 1]) + (if IsTest(members[|members| - 1]) then 1 else 0)
  }

  /** How many members are tests whose call returned a truthy value. */
  function PassedCount(members: seq<Member>): nat
    decreases |members|
  {
    if members == [] then 0
    else
      var m := members[|members| - 1];
      PassedCount(members[..|members| - 1]) + (if IsTest(m) && m.outcome then 1 else 0)
  }

  /** The result of a module: `total` tests, `passed` of them passing. */
  function ModuleResult(members: seq<Member>): TestResult
  {
    TestResult(TestCount(members), PassedCount(members))
  }

  /** A module never passes more tests than it has. */
  lemma {:induction false} PassedAtMostTotal(members: seq<Member>)
    ensures PassedCount(members) <= TestCount(members)
    ensures ModuleResult(members).Valid()
    decreases |members|
  {
    if members != [] {
      PassedAtMostTotal(members[..|members| - 1]);
    }
  }

  /** Every test of the module returned a truthy value. */
  predicate AllTestsPass(members: seq<Member>)
  {
    forall k :: 0 <= k < |members| && IsTest(members[k]) ==> members[k].outcome
  }

  /** Every test of a module passes exactly when its result has no failure. */
  lemma {:induction false} AllPassedIff(members: seq<Member>)
    ensures ModuleResult(members).Failed() == 0 <==> AllTestsPass(members)
    decreases |members|
  {
    if members != [] {
      var init, m := members[..|members| - 1], members[|members| - 1];
      AllPassedIff(init);
      PassedAtMostTotal(init);
      assert members == init + [m];
      AllPassedStep(init, m);
    }
  }

  lemma AllPassedStep(init: seq<Member>, m: Member)
    requires ModuleResult(init).Failed() == 0 <==> AllTestsPass(init)
    requires PassedCount(init) <= TestCount(init)
    ensures ModuleResult(init + [m]).Failed() == 0 <==> AllTestsPass(init + [m])
  {
    CountsStep(init, m);
    if IsTest(m) && !m.outcome {
      assert ModuleResult(init + [m]).Failed() > 0;
      assert !AllTestsPass(init + [m]) by {
        assert IsTest((init + [m])[|init|]) && !(init + [m])[|init|].outcome;
      }
    } else {
      assert ModuleResult(init + [m]).Failed() == ModuleResult(init).Failed();
      EveryTestPassesStep(init, m);
    }
  }

  lemma CountsStep(init: seq<Member>, m: Member)
    ensures TestCount(init + [m]) == TestCount(init) + (if IsTest(m) then 1 else 0)
    ensures PassedCount(init + [m]) == PassedCount(init) + (if IsTest(m) && m.outcome then 1 else 0)
  {
    var ms := init + [m];
    assert ms[..|ms| - 1] == init && ms[|ms| - 1] == m;
  }

  lemma EveryTestPassesStep(init: seq<Member>, m: Member)
    requires IsTest(m) ==> m.outcome
    ensures AllTestsPass(init + [m]) <==> AllTestsPass(init)
  {
    assert forall k :: 0 <= k < |init| ==> (init + [m])[k] == init[k];
  }

  /** A function that is not a test changes neither count, wherever it is listed. */
  lemma {:induction false} NonTestIgnored(before: seq<Member>, m: Member, after: seq<Member>)
    requires !IsTest(m)
    ensures ModuleResult(before + [m] + after) == ModuleResult(before + after)
    decreases |after|
  {
    if after == [] {
      assert (before + [m] + after)[..|before + [m] + after| - 1] == before;
      assert before + after == before;
    } else {
      var init, last := after[..|after| - 1], after[|after| - 1];
      NonTestIgnored(before, m, init);
      assert (before + [m] + after)[..|before + [m] + after| - 1] == before + [m] + init;
      assert (before + after)[..|before + after| - 1] == before + init;
    }
  }

  /** `_run_tests_in_module`: count the tests and the passing ones. */
  method RunTestsInModule(members: seq<Member>) returns (r: TestResult)
    ensures r == ModuleResult(members)
    ensures r.Valid()
  {
    var passed, total := 0, 0;
    for i := 0 to |members|
      invariant total == TestCount(members[..i])
      invariant passed == PassedCount(members[..i])
    {
      assert members[..i + 1][..i] == members[..i];
      var m := members[i];
      if StartsWith(m.name, "test_") {
        total := total + 1;
        if m.outcome {
          passed := passed + 1;
        }
      }
    }
    assert members[..|members|] == members;
    PassedAtMostTotal(members);
    r := TestResult(total, passed);
  }

  /** A stub file: its name and its text. */
  datatype StubFile = StubFile(name: string, text: string)

  /**
   * What one stub file adds to the results: nothing when no module is
   * generated (or it is empty); `(1, 0)` when loading or running the test
   * file raised; otherwise the module's counts. `load` receives the test
   * file's name and text.
   */
  function FileResult(f: StubFile, parse: string -> seq<StubParser.Chunk>, repr: string -> string,
                      load: (string, string) -> Option<seq<Member>>): Option<TestResult>
  {
    var content := StubParser.ModuleContent(f.name, f.text, parse, repr);
    if content.None? || content.value == "" then None
    else
      match load(Paths.TestFileName(f.name), content.value)
      case None => Some(TestResult(1, 0))
      case Some(members) => Some(ModuleResult(members))
  }

  /** The present values of `g` over `xs`, in order. */
  function Present<T, U>(xs: seq<T>, g: T -> Option<U>): seq<U>
    decreases |xs|
  {
    if xs == [] then []
    else
      var r := g(xs[|xs| - 1]);
      Present(xs[..|xs| - 1], g) + (if r.None? then [] else [r.value])
  }

  /** One more element adds its value, if it has one. */
  lemma PresentStep<T, U>(xs: seq<T>, i: nat, g: T -> Option<U>)
    requires i < |xs|
    ensures Present(xs[..i + 1], g) == Present(xs[..i], g) + (if g(xs[i]).None? then [] else [g(xs[i]).value])
  {
    assert xs[..i + 1][..i] == xs[..i];
  }

  /** An element without a value can be removed from anywhere without changing the values. */
  lemma {:induction false} PresentSkip<T, U>(before: seq<T>, x: T, after: seq<T>, g: T -> Option<U>)
    requires g(x).None?
    ensures Present(before + [x] + after, g) == Present(before + after, g)
    decreases |after|
  {
    if after == [] {
      assert (before + [x] + after)[..|before + [x] + after| - 1] == before;
      assert before + after == before;
    } else {
      var init := after[..|after| - 1];
      PresentSkip(before, x, init, g);
      assert (before + [x] + after)[..|before + [x] + after| - 1] == before + [x] + init;
      assert (before + after)[..|before + after| - 1] == before + init;
    }
  }

  /** The per-file step as a function value. */
  function FileStep(parse: string -> seq<StubParser.Chunk>, repr: string -> string,
                    load: (string, string) -> Option<seq<Member>>): StubFile -> Option<TestResult>
  {
    (f: StubFile) => FileResult(f, parse, repr, load)
  }

  /** The results collected in `all_results`, in file order. */
  function FileResults(files: seq<StubFile>, parse: string -> seq<StubParser.Chunk>, repr: string -> string,
                       load: (string, string) -> Option<seq<Member>>): seq<TestResult>
  {
    Present(files, FileStep(parse, repr, load))
  }

  /** `run_pyi_tests`: the pointwise sum of the results of every file. */
  method RunPyiTests(files: seq<StubFile>, parse: string -> seq<StubParser.Chunk>, repr: string -> string,
                     load: (string, string) -> Option<seq<Member>>)
    returns (r: TestResult)
    ensures r == Sum(FileResults(files, parse, repr, load))
  {
    var allResults: seq<TestResult> := [];
    for i := 0 to |files|
      invariant allResults == FileResults(files[..i], parse, repr, load)
    {
      assert files[..i + 1][..i] == files[..i];
      var pyiFile := files[i];
      var moduleContent := StubParser.GenerateTestModuleContent(pyiFile.name, pyiFile.text, parse, repr);
      if moduleContent.None? || moduleContent.value == "" {
        continue;
      }
      var testFile := Paths.TestFileName(pyiFile.name);
      var testModule := load(testFile, moduleContent.value);
      if testModule.Some? {
        var result := RunTestsInModule(testModule.value);
        allResults := allResults + [result];
      } else {
        allResults := allResults + [TestResult(1, 0)];
      }
    }
    assert files[..|files|] == files;
    r := Sum(allResults);
  }

  /** When every value of `g` is valid, so is every present value. */
  lemma {:induction false} PresentAllValid<T>(xs: seq<T>, g: T -> Option<TestResult>)
    requires forall x :: g(x).Some? ==> g(x).value.Valid()
    ensures AllValid(Present(xs, g))
    decreases |xs|
  {
    if xs != [] {
      PresentAllValid(xs[..|xs| - 1], g);
    }
  }

  /** A file's result, the error result included, keeps `0 <= passed <= total`. */
  lemma FileResultValid(f: StubFile, parse: string -> seq<StubParser.Chunk>, repr: string -> string,
                        load: (string, string) -> Option<seq<Member>>)
    ensures FileResult(f, parse, repr, load).Some? ==> FileResult(f, parse, repr, load).value.Valid()
  {
    var content := StubParser.ModuleContent(f.name, f.text, parse, repr);
    if content.Some? && content.value != "" {
      var loaded := load(Paths.TestFileName(f.name), content.value);
      if loaded.Some? {
        PassedAtMostTotal(loaded.value);
      }
    }
  }

  /** Every collected result is valid, and so is their sum, the value `run_pyi_tests` returns. */
  lemma FileResultsValid(files: seq<StubFile>, parse: string -> seq<StubParser.Chunk>,
                         repr: string -> string, load: (string, string) -> Option<seq<Member>>)
    ensures AllValid(FileResults(files, parse, repr, load))
    ensures Sum(FileResults(files, parse, repr, load)).Valid()
  {
    var g := FileStep(parse, repr, load);
    forall f ensures g(f).Some? ==> g(f).value.Valid() {
      FileResultValid(f, parse, repr, load);
    }
    PresentAllValid(files, g);
    SumValid(FileResults(files, parse, repr, load));
  }

  /**
   * A file that yields no module adds no result, a file whose test module
   * raised adds exactly `(1, 0)`, and any other file adds its module's counts.
   */
  lemma FileResultCases(f: StubFile, parse: string -> seq<StubParser.Chunk>, repr: string -> string,
                        load: (string, string) -> Option<seq<Member>>)
    ensures StubParser.ModuleContent(f.name, f.text, parse, repr).None? ==> FileResult(f, parse, repr, load).None?
    ensures var c := StubParser.ModuleContent(f.name, f.text, parse, repr);
      c.Some? && load(Paths.TestFileName(f.name), c.value).None? ==>
        FileResult(f, parse, repr, load) == Some(TestResult(1, 0))
    ensures var c := StubParser.ModuleContent(f.name, f.text, parse, repr);
      c.Some? && load(Paths.TestFileName(f.name), c.value).Some? ==>
        FileResult(f, parse, repr, load) == Some(ModuleResult(load(Paths.TestFileName(f.name), c.value).value))
  {
    var c := StubParser.ModuleContent(f.name, f.text, parse, repr);
    if c.Some? {
      StubParser.ModuleContentNotEmpty(f.name, f.text, parse, repr);
    }
  }

  /** A file without a module contributes nothing, wherever it is in the list. */
  lemma SkippedFileContributesNothing(before: seq<StubFile>, f: StubFile, after: seq<StubFile>,
                                      parse: string -> seq<StubParser.Chunk>, repr: string -> string,
                                      load: (string, string) -> Option<seq<Member>>)
    requires FileResult(f, parse, repr, load).None?
    ensures FileResults(before + [f] + after, parse, repr, load) == FileResults(before + after, parse, repr, load)
  {
    PresentSkip(before, f, after, FileStep(parse, repr, load));
  }

  /** The run has no failure exactly when no file's result has one. */
  lemma RunSucceedsIff(files: seq<StubFile>, parse: string -> seq<StubParser.Chunk>, repr: string -> string,
                       load: (string, string) -> Option<seq<Member>>)
    ensures var rs := FileResults(files, parse, repr, load);
      Sum(rs).Failed() == 0 <==> forall k :: 0 <= k < |rs| ==> rs[k].Failed() == 0
  {
    FileResultsValid(files, parse, repr, load);
    SumNoFailureIff(FileResults(files, parse, repr, load));
  }
}
