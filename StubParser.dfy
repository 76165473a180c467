/**
 * The doctester's synthesiser: each doctest example of a stub docstring is
 * classified as setup code or as an assertion, and the block becomes a test
 * function that runs the setup, then checks each assertion's value against
 * its expected output with `_assert_test`.
 *
 * `doctest.DocTestParser().parse` is not modelled: its output is the input
 * here, a sequence of chunks. `repr` is a function parameter.
 */
module StubParser {
  import opened Text
  import StubPattern

  /** One piece of a parsed docstring: the prose between examples, or an example and its `SKIP` flag. */
  datatype Chunk = Prose(text: string) | Example(source: string, want: string, skip: bool)

  /** The helper every generated module defines first (`ASSERTION_HELPER`). */
  const AssertionHelper: string :=
    "\nfrom typing import Any\n"
    + "def _assert_test(got: Any, expected: Any, name: str, source: str) -> bool:\n"
    + "    if got != expected:\n"
    + "        print(f'--- ERROR IN: {name} ---')\n"
    + "        print(f'Source  : {source}')\n"
    + "        print(f'Got     : {got!r}')\n"
    + "        print(f'Expected: {expected!r}')\n"
    + "        return False\n"
    + "    return True\n"

  // ---------------------------------------------------------------------------
  // `_is_setup_code`

  predicate StartsWithSetupKeyword(source: string)
  {
    StartsWith(source, "import ") || StartsWith(source, "from ")
    || StartsWith(source, "def ") || StartsWith(source, "class ")
  }

  /** A source is setup code when it opens with a keyword, or assigns without comparing. */
  predicate IsSetupCode(source: string)
  {
    StartsWithSetupKeyword(source)
    || ('=' in source && !Contains(source, "==") && !Contains(source, ">=")
        && !Contains(source, "<=") && !Contains(source, "!="))
  }

  /** An `=` at `k` that is no part of `==`, `>=`, `<=` or `!=`. */
  predicate LoneEquals(s: string, k: nat)
    requires k < |s|
  {
    s[k] == '=' && (k == 0 || (s[k - 1] != '=' && s[k - 1] != '>' && s[k - 1] != '<' && s[k - 1] != '!'))
    && (k + 1 == |s| || s[k + 1] != '=')
  }

  /** The source has an `=` and every `=` in it stands alone. */
  predicate IsAssignmentLike(s: string)
  {
    (exists k :: 0 <= k < |s| && s[k] == '=')
    && forall k :: 0 <= k < |s| && s[k] == '=' ==> LoneEquals(s, k)
  }

  /**
   * Character by character: a source is setup code exactly when it starts
   * with one of the four keywords or it has an `=` and each of its `=` is a
   * lone one.
   */
  lemma IsSetupCodeIff(s: string)
    ensures IsSetupCode(s) <==> StartsWithSetupKeyword(s) || IsAssignmentLike(s)
  {
    ContainsPair(s, '=', '=');
    ContainsPair(s, '>', '=');
    ContainsPair(s, '<', '=');
    ContainsPair(s, '!', '=');
    var noOps := !Contains(s, "==") && !Contains(s, ">=") && !Contains(s, "<=") && !Contains(s, "!=");
    if noOps {
      forall k | 0 <= k < |s| && s[k] == '=' ensures LoneEquals(s, k) {
        if k > 0 {
          assert s[k - 1] != '=' && s[k - 1] != '>' && s[k - 1] != '<' && s[k - 1] != '!' by {
            assert s[k - 1] == s[k - 1] && s[k - 1 + 1] == '=';
          }
        }
        if k + 1 < |s| {
          assert s[k + 1] != '=' by {
            assert s[k] == '=';
          }
        }
      }
    }
    if forall k :: 0 <= k < |s| && s[k] == '=' ==> LoneEquals(s, k) {
      forall i | 0 <= i < |s| - 1 && s[i + 1] == '='
        ensures s[i] != '=' && s[i] != '>' && s[i] != '<' && s[i] != '!'
      {
        assert LoneEquals(s, i + 1);
      }
    }
  }

  /** `x = 1` is setup code. */
  lemma AssignmentIsSetupCode()
    ensures IsSetupCode("x = 1")
  {
    var s := "x = 1";
    assert s[2] == '=';
    ContainsPair(s, '=', '=');
    ContainsPair(s, '>', '=');
    ContainsPair(s, '<', '=');
    ContainsPair(s, '!', '=');
  }

  /** `x == 1` and `a <= b` are comparisons, not setup code. */
  lemma ComparisonIsNotSetupCode()
    ensures !IsSetupCode("x == 1") && !IsSetupCode("a <= b")
  {
    ContainsPair("x == 1", '=', '=');
    assert "x == 1"[2] == '=' && "x == 1"[3] == '=';
    ContainsPair("a <= b", '<', '=');
    assert "a <= b"[2] == '<' && "a <= b"[3] == '=';
  }

  // ---------------------------------------------------------------------------
  // `_test_block` and `_test_generator`

  /** The lines that evaluate an assertion's source and compare it with the expected value. */
  function TestBlock(source: string, expected: string, blockName: string, repr: string -> string): string
  {
    Join("\n", ["",
                "    res = " + source,
                "    if not _assert_test(res, " + expected + ", \"" + blockName + "\", " + repr(source) + "):",
                "        return False"])
  }

  /** The four lines of an assertion block, when none of its parts holds a newline. */
  lemma TestBlockLines(source: string, expected: string, blockName: string, repr: string -> string)
    requires '\n' !in source && '\n' !in expected && '\n' !in blockName && '\n' !in repr(source)
    ensures Split(TestBlock(source, expected, blockName, repr), '\n')
      == ["", "    res = " + source,
          "    if not _assert_test(res, " + expected + ", \"" + blockName + "\", " + repr(source) + "):",
          "        return False"]
  {
    var l1 := "    res = " + source;
    var l2 := "    if not _assert_test(res, " + expected + ", \"" + blockName + "\", " + repr(source) + "):";
    var l3 := "        return False";
    NoNewlineIn(l1, "    res = ", source);
    NoNewlineIn4(l2, "    if not _assert_test(res, " + expected + ", \"", blockName, "\", " + repr(source), "):");
    SplitOfJoin(["", l1, l2, l3], '\n');
    SplitEachNoSep(["", l1, l2, l3], '\n');
  }

  lemma NoNewlineIn(l: string, a: string, b: string)
    requires l == a + b && '\n' !in a && '\n' !in b
    ensures '\n' !in l
  {
    assert forall k :: 0 <= k < |l| ==> l[k] == (if k < |a| then a[k] else b[k - |a|]);
  }

  lemma NoNewlineIn4(l: string, a: string, b: string, c: string, d: string)
    requires l == a + b + c + d
    requires '\n' !in a && '\n' !in b && '\n' !in c && '\n' !in d
    ensures '\n' !in l
  {
    NoNewlineIn(a + b, a, b);
    NoNewlineIn(a + b + c, a + b, c);
    NoNewlineIn(l, a + b + c, d);
  }

  lemma ReturnLineHasNoNewline()
    ensures '\n' !in "    return True"
  {
    assert forall k :: 0 <= k < |"    return True"| ==> "    return True"[k] != '\n';
  }

  /** Each line prefixed with four spaces. */
  function Indent(lines: seq<string>): (r: seq<string>)
  {
    seq(|lines|, k requires 0 <= k < |lines| => "    " + lines[k])
  }

  /** The setup section: the lines of the setup sources, each indented. */
  function SetupSection(setupCode: seq<string>): string
  {
    Join("\n", Indent(Split(Join("\n", setupCode), '\n')))
  }

  /** `_test_generator`: the test function of a block with at least one assertion. */
  function TestGenerator(blockName: string, testBlocks: seq<string>, setupCode: seq<string>): string
  {
    Join("\n", ["", "def test_" + blockName + "() -> bool:", SetupSection(setupCode),
                Join("\n", testBlocks), "    return True", ""])
  }

  /**
   * The setup section's lines are the setup sources' lines, each indented by
   * four spaces; with no setup code it is one line of four spaces.
   */
  lemma SetupSectionLines(setupCode: seq<string>)
    ensures Split(SetupSection(setupCode), '\n') == Indent(Split(Join("\n", setupCode), '\n'))
    ensures setupCode == [] ==> SetupSection(setupCode) == "    "
  {
    var lines := Split(Join("\n", setupCode), '\n');
    SplitPartsHaveNoSep(Join("\n", setupCode), '\n');
    forall k | 0 <= k < |lines| ensures '\n' !in Indent(lines)[k] {
      NoNewlineIn(Indent(lines)[k], "    ", lines[k]);
    }
    SplitJoin(Indent(lines), '\n');
    if setupCode == [] {
      assert Join("\n", setupCode) == "";
      assert lines == [""];
      assert Indent(lines)[0] == "    " + "" == "    ";
      assert Indent(lines) == ["    "];
    }
  }

  /**
   * Read line by line, a generated test function is: an empty line, the
   * `def` line, the setup section's lines, the assertion blocks' lines, then
   * `return True` and the empty remainder after the final newline.
   */
  lemma TestGeneratorLines(blockName: string, testBlocks: seq<string>, setupCode: seq<string>)
    requires '\n' !in blockName
    ensures Split(TestGenerator(blockName, testBlocks, setupCode), '\n')
      == ["", "def test_" + blockName + "() -> bool:"] + Indent(Split(Join("\n", setupCode), '\n'))
         + Split(Join("\n", testBlocks), '\n') + ["    return True", ""]
  {
    var d := "def test_" + blockName + "() -> bool:";
    var s, t := SetupSection(setupCode), Join("\n", testBlocks);
    NoNewlineIn4(d, "def test_", blockName, "() -> bool:", "");
    SetupSectionLines(setupCode);
    var parts := ["", d, s, t, "    return True", ""];
    assert TestGenerator(blockName, testBlocks, setupCode) == Join(['\n'], parts);
    SplitOfJoin(parts, '\n');
    assert parts == ["", d] + [s, t] + ["    return True", ""];
    ReturnLineHasNoNewline();
    SplitEachAround(["", d], s, t, ["    return True", ""], '\n');
  }

  lemma SplitEachAround(pre: seq<string>, s: string, t: string, post: seq<string>, sep: char)
    requires forall k :: 0 <= k < |pre| ==> sep !in pre[k]
    requires forall k :: 0 <= k < |post| ==> sep !in post[k]
    ensures SplitEach(pre + [s, t] + post, sep) == pre + Split(s, sep) + Split(t, sep) + post
  {
    var b, c := Split(s, sep), Split(t, sep);
    SplitEachAppend(pre + [s, t], post, sep);
    SplitEachAppend(pre, [s, t], sep);
    SplitEachNoSep(pre, sep);
    SplitEachNoSep(post, sep);
    assert [s, t][1..] == [t];
    assert SplitEach([s, t], sep) == b + SplitEach([t], sep);
    assert SplitEach([t], sep) == c + SplitEach([], sep);
    assert SplitEach([s, t], sep) == b + c;
    assert pre + (b + c) == pre + b + c;
  }

  // ---------------------------------------------------------------------------
  // `_convert_doctest`

  /** What one chunk contributes to its block's test function. */
  datatype Role = Ignored | Setup(source: string) | Assertion(source: string, expected: string)

  /**
   * The role of a chunk. `dropFences` is true for `_convert_doctest`, which
   * also ignores examples whose source starts with three backticks; the
   * variant of the conversion in `doctester/_stubs.py` does not.
   */
  function RoleOf(c: Chunk, dropFences: bool): Role
  {
    if c.Prose? || c.skip then Ignored
    else
      var source := Strip(c.source);
      if dropFences && StartsWith(source, Backticks) then Ignored
      else if IsSetupCode(source) then Setup(source)
      else
        var rawExpected := Strip(c.want);
        if rawExpected == [] || rawExpected == "..." then Ignored
        else Assertion(source, Strip(rawExpected))
  }

  /**
   * The chunks that add nothing: prose, skipped examples, fence examples when
   * they are dropped, and assertions whose expected output is empty or `...`.
   * The second strip of the expected output changes nothing.
   */
  lemma RoleOfIgnored(c: Chunk, dropFences: bool)
    ensures RoleOf(c, dropFences) == Ignored <==>
      c.Prose? || c.skip || (dropFences && StartsWith(Strip(c.source), Backticks))
      || (!IsSetupCode(Strip(c.source)) && (Strip(c.want) == [] || Strip(c.want) == "..."))
    ensures RoleOf(c, dropFences).Assertion? ==> RoleOf(c, dropFences).expected == Strip(c.want)
  {
    if c.Example? {
      StripIdempotent(c.want);
    }
  }

  /** The role of each chunk, in order. */
  function Roles(chunks: seq<Chunk>, dropFences: bool): (r: seq<Role>)
    ensures |r| == |chunks|
  {
    seq(|chunks|, k requires 0 <= k < |chunks| => RoleOf(chunks[k], dropFences))
  }

  /** The setup source a role contributes. */
  function SetupOf(role: Role): seq<string>
  {
    match role
    case Setup(s) => [s]
    case _ => []
  }

  /** The assertion block a role contributes. */
  function AssertionOf(blockName: string, role: Role, repr: string -> string): seq<string>
  {
    match role
    case Assertion(s, e) => [TestBlock(s, e, blockName, repr)]
    case _ => []
  }

  /** The setup sources, in order. */
  function SetupSources(roles: seq<Role>): seq<string>
    decreases |roles|
  {
    if roles == [] then [] else SetupSources(roles[..|roles| - 1]) + SetupOf(roles[|roles| - 1])
  }

  /** The assertion blocks, in order. */
  function AssertionBlocks(blockName: string, roles: seq<Role>, repr: string -> string): seq<string>
    decreases |roles|
  {
    if roles == [] then []
    else AssertionBlocks(blockName, roles[..|roles| - 1], repr) + AssertionOf(blockName, roles[|roles| - 1], repr)
  }

  /** The test function for the given roles: nothing without an assertion. */
  function Generated(blockName: string, roles: seq<Role>, repr: string -> string): string
  {
    var testBlocks := AssertionBlocks(blockName, roles, repr);
    if testBlocks == [] then "" else TestGenerator(blockName, testBlocks, SetupSources(roles))
  }

  /** The converted block. */
  function Converted(blockName: string, chunks: seq<Chunk>, dropFences: bool, repr: string -> string): string
  {
    Generated(blockName, Roles(chunks, dropFences), repr)
  }

  /**
   * The loop of `_convert_doctest` (with `dropFences`) and of
   * `_convert_doctests_to_assertions` (without): setup sources and assertion
   * blocks are appended in the order of the chunks.
   */
  method ConvertExamples(blockName: string, chunks: seq<Chunk>, repr: string -> string, dropFences: bool)
    returns (r: string)
    ensures r == Converted(blockName, chunks, dropFences, repr)
  {
    var setupCode: seq<string> := [];
    var testBlocks: seq<string> := [];
    for i := 0 to |chunks|
      invariant setupCode == SetupSources(Roles(chunks[..i], dropFences))
      invariant testBlocks == AssertionBlocks(blockName, Roles(chunks[..i], dropFences), repr)
    {
      ConvertStep(blockName, chunks, i, dropFences, repr);
      var example := chunks[i];
      if example.Prose? || example.skip {
        assert RoleOf(example, dropFences) == Ignored;
        continue;
      }
      var source := Strip(example.source);
      if dropFences && StartsWith(source, Backticks) {
        assert RoleOf(example, dropFences) == Ignored;
        continue;
      }
      if IsSetupCode(source) {
        assert RoleOf(example, dropFences) == Setup(source);
        setupCode := setupCode + [source];
      } else {
        var rawExpected := Strip(example.want);
        if rawExpected == [] || rawExpected == "..." {
          assert RoleOf(example, dropFences) == Ignored;
          continue;
        }
        var expected := Strip(rawExpected);
        assert RoleOf(example, dropFences) == Assertion(source, expected);
        testBlocks := testBlocks + [TestBlock(source, expected, blockName, repr)];
      }
    }
    assert chunks[..|chunks|] == chunks;
    if testBlocks == [] {
      return "";
    }
    return TestGenerator(blockName, testBlocks, setupCode);
  }

  /** `_convert_doctest` */
  method ConvertDoctest(blockName: string, chunks: seq<Chunk>, repr: string -> string) returns (r: string)
    ensures r == Converted(blockName, chunks, true, repr)
  {
    r := ConvertExamples(blockName, chunks, repr, true);
  }

  /** One more chunk adds its role's contribution at the end of each list. */
  lemma ConvertStep(blockName: string, chunks: seq<Chunk>, i: nat, dropFences: bool, repr: string -> string)
    requires i < |chunks|
    ensures SetupSources(Roles(chunks[..i + 1], dropFences))
         == SetupSources(Roles(chunks[..i], dropFences)) + SetupOf(RoleOf(chunks[i], dropFences))
    ensures AssertionBlocks(blockName, Roles(chunks[..i + 1], dropFences), repr)
         == AssertionBlocks(blockName, Roles(chunks[..i], dropFences), repr)
            + AssertionOf(blockName, RoleOf(chunks[i], dropFences), repr)
  {
    var r := Roles(chunks[..i + 1], dropFences);
    assert r[..i] == Roles(chunks[..i], dropFences);
    assert r[i] == RoleOf(chunks[i], dropFences);
  }

  predicate HasAssertion(roles: seq<Role>)
  {
    exists k :: 0 <= k < |roles| && roles[k].Assertion?
  }

  lemma {:induction false} AssertionBlocksEmptyIff(blockName: string, roles: seq<Role>, repr: string -> string)
    ensures AssertionBlocks(blockName, roles, repr) == [] <==> !HasAssertion(roles)
    decreases |roles|
  {
    if roles != [] {
      var init := roles[..|roles| - 1];
      AssertionBlocksEmptyIff(blockName, init, repr);
      if HasAssertion(init) {
        var k :| 0 <= k < |init| && init[k].Assertion?;
        assert roles[k] == init[k];
      }
    }
  }

  /** A test function is never blank: its second character is the `d` of `def`. */
  lemma TestGeneratorNotBlank(blockName: string, testBlocks: seq<string>, setupCode: seq<string>)
    ensures !IsBlank(TestGenerator(blockName, testBlocks, setupCode))
  {
    var parts := ["", "def test_" + blockName + "() -> bool:", SetupSection(setupCode),
                  Join("\n", testBlocks), "    return True", ""];
    var rest := Join("\n", parts[2..]);
    assert Join("\n", parts) == "" + "\n" + Join("\n", parts[1..]);
    assert Join("\n", parts[1..]) == parts[1] + "\n" + rest;
    assert TestGenerator(blockName, testBlocks, setupCode)[1] == parts[1][0] == 'd';
  }

  /**
   * A block converts to the empty string exactly when none of its chunks is
   * an assertion, however much setup code it has; otherwise to a function
   * that is not blank.
   */
  lemma ConvertedEmptyIff(blockName: string, chunks: seq<Chunk>, dropFences: bool, repr: string -> string)
    ensures Converted(blockName, chunks, dropFences, repr) == "" <==> !HasAssertion(Roles(chunks, dropFences))
    ensures IsBlank(Converted(blockName, chunks, dropFences, repr)) <==> !HasAssertion(Roles(chunks, dropFences))
  {
    var roles := Roles(chunks, dropFences);
    AssertionBlocksEmptyIff(blockName, roles, repr);
    var testBlocks := AssertionBlocks(blockName, roles, repr);
    if testBlocks != [] {
      TestGeneratorNotBlank(blockName, testBlocks, SetupSources(roles));
    }
  }

  lemma {:induction false} SetupSourcesSkip(before: seq<Role>, c: Role, after: seq<Role>)
    requires !c.Setup?
    ensures SetupSources(before + [c] + after) == SetupSources(before + after)
    decreases |after|
  {
    if after == [] {
      assert before + [c] + after == before + [c];
      assert (before + [c])[..|before|] == before;
      assert before + after == before;
    } else {
      var init := after[..|after| - 1];
      SetupSourcesSkip(before, c, init);
      assert (before + [c] + after)[..|before + [c] + after| - 1] == before + [c] + init;
      assert (before + after)[..|before + after| - 1] == before + init;
    }
  }

  lemma {:induction false} AssertionBlocksSkip(blockName: string, before: seq<Role>, c: Role, after: seq<Role>,
                                               repr: string -> string)
    requires !c.Assertion?
    ensures AssertionBlocks(blockName, before + [c] + after, repr) == AssertionBlocks(blockName, before + after, repr)
    decreases |after|
  {
    if after == [] {
      assert before + [c] + after == before + [c];
      assert (before + [c])[..|before|] == before;
      assert before + after == before;
    } else {
      var init := after[..|after| - 1];
      AssertionBlocksSkip(blockName, before, c, init, repr);
      assert (before + [c] + after)[..|before + [c] + after| - 1] == before + [c] + init;
      assert (before + after)[..|before + after| - 1] == before + init;
    }
  }

  lemma RolesSplit(before: seq<Chunk>, c: Chunk, after: seq<Chunk>, dropFences: bool)
    ensures Roles(before + [c] + after, dropFences)
         == Roles(before, dropFences) + [RoleOf(c, dropFences)] + Roles(after, dropFences)
    ensures Roles(before + after, dropFences) == Roles(before, dropFences) + Roles(after, dropFences)
  {
    RolesAppend(before + [c], after, dropFences);
    RolesAppend(before, [c], dropFences);
    RolesAppend(before, after, dropFences);
    assert Roles([c], dropFences) == [RoleOf(c, dropFences)];
  }

  lemma RolesAppend(a: seq<Chunk>, b: seq<Chunk>, dropFences: bool)
    ensures Roles(a + b, dropFences) == Roles(a, dropFences) + Roles(b, dropFences)
  {
    var l, r := Roles(a, dropFences), Roles(b, dropFences);
    forall k | 0 <= k < |a + b| ensures Roles(a + b, dropFences)[k] == (l + r)[k] {
      if k < |a| {
        assert (a + b)[k] == a[k];
      } else {
        assert (a + b)[k] == b[k - |a|];
      }
    }
  }

  /** A chunk whose role is `Ignored` can be removed from anywhere without changing the result. */
  lemma IgnoredChunkContributesNothing(blockName: string, before: seq<Chunk>, c: Chunk, after: seq<Chunk>,
                                       dropFences: bool, repr: string -> string)
    requires RoleOf(c, dropFences) == Ignored
    ensures Converted(blockName, before + [c] + after, dropFences, repr)
         == Converted(blockName, before + after, dropFences, repr)
  {
    RolesSplit(before, c, after, dropFences);
    var rb, ra := Roles(before, dropFences), Roles(after, dropFences);
    SetupSourcesSkip(rb, Ignored, ra);
    AssertionBlocksSkip(blockName, rb, Ignored, ra, repr);
  }

  // ---------------------------------------------------------------------------
  // `generate_test_module_content`

  /** The first line of a generated module (`_module_content`). */
  function ModuleHeader(fileName: string): string
  {
    "# Generated tests from " + fileName + "\n"
  }

  /** The conversion applied to each block: its doctest chunks turned into a test function. */
  function Conversion(parse: string -> seq<Chunk>, repr: string -> string, dropFences: bool)
    : StubPattern.DocBlock -> string
  {
    (b: StubPattern.DocBlock) => Converted(b.name, parse(b.body), dropFences, repr)
  }

  /** The conversions that are not blank, in block order. */
  function Kept(blocks: seq<StubPattern.DocBlock>, convert: StubPattern.DocBlock -> string): seq<string>
    decreases |blocks|
  {
    if blocks == [] then []
    else
      var f := convert(blocks[|blocks| - 1]);
      Kept(blocks[..|blocks| - 1], convert) + (if IsBlank(f) then [] else [f])
  }

  /** A string is kept exactly when it is the non-blank conversion of some block. */
  lemma {:induction false} KeptIff(blocks: seq<StubPattern.DocBlock>, convert: StubPattern.DocBlock -> string)
    ensures forall f :: f in Kept(blocks, convert) <==>
      exists k :: 0 <= k < |blocks| && !IsBlank(convert(blocks[k])) && f == convert(blocks[k])
    decreases |blocks|
  {
    if blocks != [] {
      var init := blocks[..|blocks| - 1];
      KeptIff(init, convert);
      assert forall k :: 0 <= k < |init| ==> init[k] == blocks[k];
    }
  }

  /** Nothing is kept exactly when every conversion is blank. */
  lemma {:induction false} KeptEmptyIff(blocks: seq<StubPattern.DocBlock>, convert: StubPattern.DocBlock -> string)
    ensures Kept(blocks, convert) == [] <==> forall k :: 0 <= k < |blocks| ==> IsBlank(convert(blocks[k]))
    decreases |blocks|
  {
    if blocks != [] {
      var init := blocks[..|blocks| - 1];
      KeptEmptyIff(init, convert);
      assert forall k :: 0 <= k < |init| ==> init[k] == blocks[k];
    }
  }

  /** The converted blocks that are not blank, in block order; `parse` is the doctest parser. */
  function TestFunctionsOf(blocks: seq<StubPattern.DocBlock>, parse: string -> seq<Chunk>,
                           repr: string -> string, dropFences: bool): seq<string>
  {
    Kept(blocks, Conversion(parse, repr, dropFences))
  }

  /**
   * The loop shared by `generate_test_module_content` and `test_pyi_files`:
   * the module's parts start with the header and the helper, and each block
   * whose conversion is not blank adds its function and sets `hasTests`.
   */
  method CollectTestFunctions(header: string, blocks: seq<StubPattern.DocBlock>, parse: string -> seq<Chunk>,
                              repr: string -> string, dropFences: bool)
    returns (moduleContent: seq<string>, hasTests: bool)
    ensures moduleContent == [header, AssertionHelper] + TestFunctionsOf(blocks, parse, repr, dropFences)
    ensures hasTests <==> TestFunctionsOf(blocks, parse, repr, dropFences) != []
  {
    ghost var convert := Conversion(parse, repr, dropFences);
    moduleContent := [header, AssertionHelper];
    hasTests := false;
    for i := 0 to |blocks|
      invariant moduleContent == [header, AssertionHelper] + Kept(blocks[..i], convert)
      invariant hasTests <==> Kept(blocks[..i], convert) != []
    {
      assert blocks[..i + 1][..i] == blocks[..i];
      var testFunction := ConvertExamples(blocks[i].name, parse(blocks[i].body), repr, dropFences);
      assert testFunction == convert(blocks[..i + 1][i]);
      if !IsBlank(testFunction) {
        moduleContent := moduleContent + [testFunction];
        hasTests := true;
      }
    }
    assert blocks[..|blocks|] == blocks;
  }

  /** What `generate_test_module_content` returns for a stub file called `fileName` with text `content`. */
  function ModuleContent(fileName: string, content: string, parse: string -> seq<Chunk>, repr: string -> string)
    : Option<string>
  {
    var blocks := StubPattern.FindAll(content);
    var functions := TestFunctionsOf(blocks, parse, repr, true);
    if blocks == [] || functions == [] then None
    else Some(Join("\n", [ModuleHeader(fileName), AssertionHelper] + functions))
  }

  method GenerateTestModuleContent(fileName: string, content: string, parse: string -> seq<Chunk>,
                                   repr: string -> string)
    returns (r: Option<string>)
    ensures r == ModuleContent(fileName, content, parse, repr)
  {
    var blocks := StubPattern.FindAll(content);
    if blocks == [] {
      return None;
    }
    var moduleContent, hasTests := CollectTestFunctions(ModuleHeader(fileName), blocks, parse, repr, true);
    if !hasTests {
      return None;
    }
    return Some(Join("\n", moduleContent));
  }

  /** Whether the block converts to a test function. */
  predicate BlockHasAssertion(b: StubPattern.DocBlock, parse: string -> seq<Chunk>, dropFences: bool)
  {
    HasAssertion(Roles(parse(b.body), dropFences))
  }

  /**
   * The functions kept are exactly the conversions of the blocks that have
   * an assertion: each kept function is one of them, and each of them is kept.
   */
  lemma TestFunctionsOfIff(blocks: seq<StubPattern.DocBlock>, parse: string -> seq<Chunk>,
                           repr: string -> string, dropFences: bool)
    ensures forall f :: f in TestFunctionsOf(blocks, parse, repr, dropFences) <==>
      exists k :: 0 <= k < |blocks| && BlockHasAssertion(blocks[k], parse, dropFences)
                  && f == Converted(blocks[k].name, parse(blocks[k].body), dropFences, repr)
  {
    var convert := Conversion(parse, repr, dropFences);
    KeptIff(blocks, convert);
    forall k | 0 <= k < |blocks|
      ensures IsBlank(convert(blocks[k])) <==> !BlockHasAssertion(blocks[k], parse, dropFences)
    {
      ConvertedEmptyIff(blocks[k].name, parse(blocks[k].body), dropFences, repr);
    }
  }

  /** No function is kept exactly when no block has an assertion. */
  lemma TestFunctionsOfEmptyIff(blocks: seq<StubPattern.DocBlock>, parse: string -> seq<Chunk>,
                                repr: string -> string, dropFences: bool)
    ensures TestFunctionsOf(blocks, parse, repr, dropFences) == [] <==>
      forall k :: 0 <= k < |blocks| ==> !BlockHasAssertion(blocks[k], parse, dropFences)
  {
    var convert := Conversion(parse, repr, dropFences);
    KeptEmptyIff(blocks, convert);
    forall k | 0 <= k < |blocks|
      ensures IsBlank(convert(blocks[k])) <==> !BlockHasAssertion(blocks[k], parse, dropFences)
    {
      ConvertedEmptyIff(blocks[k].name, parse(blocks[k].body), dropFences, repr);
    }
  }

  /**
   * No module exactly when the stub has no block or no block has an
   * assertion; otherwise the module is the header, the helper and the kept
   * functions, joined by newlines, and it has at least one function.
   */
  lemma ModuleContentNoneIff(fileName: string, content: string, parse: string -> seq<Chunk>, repr: string -> string)
    ensures var blocks := StubPattern.FindAll(content);
      ModuleContent(fileName, content, parse, repr).None? <==>
        blocks == [] || forall k :: 0 <= k < |blocks| ==> !BlockHasAssertion(blocks[k], parse, true)
  {
    var blocks := StubPattern.FindAll(content);
    TestFunctionsOfIff(blocks, parse, repr, true);
    var fs := TestFunctionsOf(blocks, parse, repr, true);
    if fs != [] {
      assert fs[0] in fs;
    }
    if k :| 0 <= k < |blocks| && BlockHasAssertion(blocks[k], parse, true) {
      assert Converted(blocks[k].name, parse(blocks[k].body), true, repr) in fs;
    }
  }

  /** A generated module is never empty: the header alone has text. */
  lemma ModuleContentNotEmpty(fileName: string, content: string, parse: string -> seq<Chunk>, repr: string -> string)
    ensures ModuleContent(fileName, content, parse, repr).Some? ==> ModuleContent(fileName, content, parse, repr).value != ""
  {
    var functions := TestFunctionsOf(StubPattern.FindAll(content), parse, repr, true);
    JoinEmptyIff("\n", [ModuleHeader(fileName), AssertionHelper] + functions);
  }
}
