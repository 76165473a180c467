/**
 * The pytest plugin's collector: which files it collects, and which
 * docstrings of a stub's declaration tree become test items.
 *
 * Parsing is not modelled: the tree is an input (`None` when the file does
 * not parse), and doctest parsing enters only as the predicate saying
 * whether a docstring has examples.
 */
module Plugin {
  import opened Text
  import Paths

  /**
   * A statement of a module or class body. `FunctionDef` and `ClassDef` carry
   * what `ast.get_docstring` returns; every other statement, an `async def`
   * included, is `OtherStatement`.
   */
  datatype Node =
    | FunctionDef(name: string, doc: Option<string>, lineno: nat)
    | ClassDef(name: string, doc: Option<string>, lineno: nat, body: seq<Node>)
    | OtherStatement

  /** A parsed stub: its docstring and its top-level statements. */
  datatype Tree = Tree(doc: Option<string>, body: seq<Node>)

  /** What the extraction yields: `(name, docstring, lineno)`. */
  datatype Item = Item(name: string, doc: string, lineno: nat)

  /** `_is_def` */
  predicate IsDef(n: Node)
  {
    n.FunctionDef? || n.ClassDef?
  }

  /** `docstring and ">>>" in docstring` */
  predicate HasDoctest(doc: Option<string>)
  {
    doc.Some? && doc.value != "" && Contains(doc.value, ">>>")
  }

  /** `f"{prefix}{node.name}" if prefix else node.name` */
  function FullName(prefix: string, name: string): string
  {
    if prefix != "" then prefix + name else name
  }

  /** The item a definition yields for its own docstring, if any. */
  function OwnItem(n: Node, prefix: string): seq<Item>
    requires IsDef(n)
  {
    if HasDoctest(n.doc) then [Item(FullName(prefix, n.name), n.doc.value, n.lineno)] else []
  }

  /**
   * `_recurse_extract` as written. It is a generator, so the iterator over
   * the class members that it `return`s is discarded: only the definition's
   * own item comes out.
   */
  function RecurseExtractAsWritten(n: Node, prefix: string): seq<Item>
    requires IsDef(n)
  {
    OwnItem(n, prefix)
  }

  /**
   * `_recurse_extract` as intended: the definition's own item, then, for a
   * class, the items of its member definitions under the prefix `Class.`.
   */
  function RecurseExtract(n: Node, prefix: string): seq<Item>
    requires IsDef(n)
    decreases n, 1
  {
    OwnItem(n, prefix)
    + (if n.ClassDef? then ExtractDefs(n.body, FullName(prefix, n.name) + ".") else [])
  }

  /** `.filter(_is_def).flat_map(lambda n: _recurse_extract(n, prefix))` over a body. */
  function ExtractDefs(nodes: seq<Node>, prefix: string): seq<Item>
    decreases nodes, 0
  {
    if nodes == [] then []
    else (if IsDef(nodes[0]) then RecurseExtract(nodes[0], prefix) else []) + ExtractDefs(nodes[1..], prefix)
  }

  /** The top-level flat map with the generator as written. */
  function ExtractDefsAsWritten(nodes: seq<Node>): seq<Item>
  {
    if nodes == [] then []
    else (if IsDef(nodes[0]) then RecurseExtractAsWritten(nodes[0], "") else []) + ExtractDefsAsWritten(nodes[1..])
  }

  /**
   * `_extract_doctests_from_ast` as written: nothing for a file that does not
   * parse; the module docstring alone when it has a doctest; otherwise the
   * items the generator as written yields for the top-level definitions.
   */
  function ExtractDoctestsFromAst(stem: string, tree: Option<Tree>): seq<Item>
  {
    if tree.None? then []
    else if HasDoctest(tree.value.doc) then [Item(stem, tree.value.doc.value, 1)]
    else ExtractDefsAsWritten(tree.value.body)
  }

  /** `_extract_doctests_from_ast` with the recursion into class members that was intended. */
  function ExtractDoctestsFromAstFixed(stem: string, tree: Option<Tree>): seq<Item>
  {
    if tree.None? then []
    else if HasDoctest(tree.value.doc) then [Item(stem, tree.value.doc.value, 1)]
    else ExtractDefs(tree.value.body, "")
  }

  /** The docstring has a doctest, and the name lies under `full`. */
  predicate ItemsUnder(items: seq<Item>, full: string)
  {
    forall k :: 0 <= k < |items| ==> HasDoctest(Some(items[k].doc)) && StartsWith(items[k].name, full)
  }

  lemma StartsWithTrans(s: string, p: string, q: string)
    requires StartsWith(s, p + q)
    ensures StartsWith(s, p)
  {
    assert s[..|p|] == (p + q)[..|p|];
  }

  lemma ItemsUnderWeaken(items: seq<Item>, p: string, q: string)
    requires ItemsUnder(items, p + q)
    ensures ItemsUnder(items, p)
  {
    forall k | 0 <= k < |items| ensures StartsWith(items[k].name, p) {
      StartsWithTrans(items[k].name, p, q);
    }
  }

  lemma ItemsUnderAppend(a: seq<Item>, b: seq<Item>, full: string)
    requires ItemsUnder(a, full) && ItemsUnder(b, full)
    ensures ItemsUnder(a + b, full)
  {
  }

  /**
   * Every item of a definition has a doctest in its docstring and a name
   * that starts with the definition's qualified name.
   */
  lemma {:induction false} RecurseExtractSound(n: Node, prefix: string)
    requires IsDef(n)
    ensures ItemsUnder(RecurseExtract(n, prefix), FullName(prefix, n.name))
    decreases n, 1
  {
    var full := FullName(prefix, n.name);
    assert StartsWith(full, full) by {
      assert full[..|full|] == full;
    }
    if n.ClassDef? {
      ExtractDefsSound(n.body, full + ".");
      ItemsUnderWeaken(ExtractDefs(n.body, full + "."), full, ".");
      ItemsUnderAppend(OwnItem(n, prefix), ExtractDefs(n.body, full + "."), full);
    }
  }

  /** Every item of a body has a doctest and a name that starts with the prefix. */
  lemma {:induction false} ExtractDefsSound(nodes: seq<Node>, prefix: string)
    ensures ItemsUnder(ExtractDefs(nodes, prefix), prefix)
    decreases nodes, 0
  {
    if nodes != [] {
      ExtractDefsSound(nodes[1..], prefix);
      if IsDef(nodes[0]) {
        var n := nodes[0];
        RecurseExtractSound(n, prefix);
        if prefix != "" {
          ItemsUnderWeaken(RecurseExtract(n, prefix), prefix, n.name);
        } else {
          assert ItemsUnder(RecurseExtract(n, prefix), prefix) by {
            forall k | 0 <= k < |RecurseExtract(n, prefix)| ensures StartsWith(RecurseExtract(n, prefix)[k].name, "") {
            }
          }
        }
        ItemsUnderAppend(RecurseExtract(n, prefix), ExtractDefs(nodes[1..], prefix), prefix);
      }
    }
  }

  /**
   * Every definition of a body whose docstring has a doctest yields its item,
   * named with the prefix; statements that are not definitions yield nothing.
   */
  lemma {:induction false} ExtractDefsComplete(nodes: seq<Node>, prefix: string, k: nat)
    requires k < |nodes| && IsDef(nodes[k]) && HasDoctest(nodes[k].doc)
    ensures Item(FullName(prefix, nodes[k].name), nodes[k].doc.value, nodes[k].lineno) in ExtractDefs(nodes, prefix)
    decreases k
  {
    if k == 0 {
      assert RecurseExtract(nodes[0], prefix)[0] == Item(FullName(prefix, nodes[0].name), nodes[0].doc.value, nodes[0].lineno);
    } else {
      ExtractDefsComplete(nodes[1..], prefix, k - 1);
    }
  }

  /** Statements that are not definitions are skipped wherever they are. */
  lemma {:induction false} OtherStatementsIgnored(before: seq<Node>, after: seq<Node>, prefix: string)
    ensures ExtractDefs(before + [OtherStatement] + after, prefix) == ExtractDefs(before + after, prefix)
    decreases |before|
  {
    if before == [] {
      assert before + [OtherStatement] + after == [OtherStatement] + after;
      assert ([OtherStatement] + after)[1..] == after;
      assert before + after == after;
    } else {
      OtherStatementsIgnored(before[1..], after, prefix);
      assert (before + [OtherStatement] + after)[1..] == before[1..] + [OtherStatement] + after;
      assert (before + after)[1..] == before[1..] + after;
    }
  }

  /** A member of a class with a doctest is yielded under the name `Class.member`. */
  lemma ClassMemberQualified(c: Node, prefix: string, k: nat)
    requires c.ClassDef? && k < |c.body| && IsDef(c.body[k]) && HasDoctest(c.body[k].doc)
    ensures Item(FullName(prefix, c.name) + "." + c.body[k].name, c.body[k].doc.value, c.body[k].lineno)
            in RecurseExtract(c, prefix)
  {
    ExtractDefsComplete(c.body, FullName(prefix, c.name) + ".", k);
  }

  /** As written, a definition yields at most its own item, a prefix of the intended items. */
  lemma AsWrittenIsOwnItem(n: Node, prefix: string)
    requires IsDef(n)
    ensures |RecurseExtractAsWritten(n, prefix)| <= 1
    ensures RecurseExtractAsWritten(n, prefix) <= RecurseExtract(n, prefix)
    ensures n.FunctionDef? ==> RecurseExtractAsWritten(n, prefix) == RecurseExtract(n, prefix)
  {
  }

  /**
   * As written, a module body yields exactly the top-level definitions that
   * have a doctest, under their bare names: no class member ever comes out.
   */
  lemma {:induction false} AsWrittenTopLevelOnly(nodes: seq<Node>)
    ensures forall t :: t in ExtractDefsAsWritten(nodes) <==>
      exists k :: 0 <= k < |nodes| && IsDef(nodes[k]) && HasDoctest(nodes[k].doc)
                  && t == Item(nodes[k].name, nodes[k].doc.value, nodes[k].lineno)
    decreases |nodes|
  {
    if nodes != [] {
      AsWrittenTopLevelOnly(nodes[1..]);
      assert forall k :: 1 <= k < |nodes| ==> nodes[1..][k - 1] == nodes[k];
    }
  }

  /** As written, the method of a class is lost: a class without a doctest of its own yields nothing. */
  lemma AsWrittenDropsMembers()
    ensures var c := ClassDef("C", None, 1, [FunctionDef("m", Some(">>> 1"), 2)]);
      RecurseExtractAsWritten(c, "") == []
      && RecurseExtract(c, "") == [Item("C.m", ">>> 1", 2)]
  {
    var m := FunctionDef("m", Some(">>> 1"), 2);
    var c := ClassDef("C", None, 1, [m]);
    assert Contains(">>> 1", ">>>") by {
      assert StartsWith(">>> 1", ">>>");
    }
    assert HasDoctest(m.doc);
    assert FullName("", "C") + "." == "C.";
    assert FullName("C.", "m") == "C.m";
    assert OwnItem(m, "C.") == [Item("C.m", ">>> 1", 2)];
    assert OwnItem(c, "") == [];
    assert ExtractDefs([m], "C.") == RecurseExtract(m, "C.") + ExtractDefs([], "C.");
  }

  /**
   * The extraction yields nothing for a file that does not parse, exactly
   * the module item for a module docstring with a doctest, and otherwise
   * exactly the top-level definitions whose docstring has a doctest, under
   * their bare names.
   */
  lemma ExtractDoctestsFromAstCases(stem: string, tree: Option<Tree>)
    ensures tree.None? ==> ExtractDoctestsFromAst(stem, tree) == []
    ensures tree.Some? && HasDoctest(tree.value.doc) ==>
      ExtractDoctestsFromAst(stem, tree) == [Item(stem, tree.value.doc.value, 1)]
    ensures tree.Some? && !HasDoctest(tree.value.doc) ==>
      forall t :: t in ExtractDoctestsFromAst(stem, tree) <==>
        exists k :: 0 <= k < |tree.value.body| && IsDef(tree.value.body[k]) && HasDoctest(tree.value.body[k].doc)
                    && t == Item(tree.value.body[k].name, tree.value.body[k].doc.value, tree.value.body[k].lineno)
  {
    if tree.Some? && !HasDoctest(tree.value.doc) {
      AsWrittenTopLevelOnly(tree.value.body);
    }
  }

  /** A top-level definition yields every item its own extraction yields. */
  lemma {:induction false} ExtractDefsIncludes(nodes: seq<Node>, prefix: string, k: nat, x: Item)
    requires k < |nodes| && IsDef(nodes[k]) && x in RecurseExtract(nodes[k], prefix)
    ensures x in ExtractDefs(nodes, prefix)
    decreases k
  {
    if k > 0 {
      ExtractDefsIncludes(nodes[1..], prefix, k - 1, x);
    }
  }

  /**
   * The intended extraction: the same first two cases; otherwise only items
   * with a doctest, every top-level definition with a doctest under its own
   * name, and every member with a doctest of a top-level class as
   * `Class.member`.
   */
  lemma ExtractDoctestsFromAstFixedCases(stem: string, tree: Option<Tree>)
    ensures tree.None? ==> ExtractDoctestsFromAstFixed(stem, tree) == []
    ensures tree.Some? && HasDoctest(tree.value.doc) ==>
      ExtractDoctestsFromAstFixed(stem, tree) == [Item(stem, tree.value.doc.value, 1)]
    ensures forall k :: 0 <= k < |ExtractDoctestsFromAstFixed(stem, tree)| ==>
      HasDoctest(Some(ExtractDoctestsFromAstFixed(stem, tree)[k].doc))
    ensures tree.Some? && !HasDoctest(tree.value.doc) ==>
      forall k :: 0 <= k < |tree.value.body| && IsDef(tree.value.body[k]) && HasDoctest(tree.value.body[k].doc) ==>
        Item(tree.value.body[k].name, tree.value.body[k].doc.value, tree.value.body[k].lineno)
        in ExtractDoctestsFromAstFixed(stem, tree)
    ensures tree.Some? && !HasDoctest(tree.value.doc) ==>
      forall k, j ::
        (0 <= k < |tree.value.body| && tree.value.body[k].ClassDef? && 0 <= j < |tree.value.body[k].body|
         && IsDef(tree.value.body[k].body[j]) && HasDoctest(tree.value.body[k].body[j].doc)) ==>
        Item(tree.value.body[k].name + "." + tree.value.body[k].body[j].name,
             tree.value.body[k].body[j].doc.value, tree.value.body[k].body[j].lineno)
        in ExtractDoctestsFromAstFixed(stem, tree)
  {
    if tree.Some? && !HasDoctest(tree.value.doc) {
      var nodes := tree.value.body;
      ExtractDefsSound(nodes, "");
      forall k | 0 <= k < |nodes| && IsDef(nodes[k]) && HasDoctest(nodes[k].doc)
        ensures Item(nodes[k].name, nodes[k].doc.value, nodes[k].lineno) in ExtractDefs(nodes, "")
      {
        ExtractDefsComplete(nodes, "", k);
      }
      forall k, j | 0 <= k < |nodes| && nodes[k].ClassDef? && 0 <= j < |nodes[k].body|
        && IsDef(nodes[k].body[j]) && HasDoctest(nodes[k].body[j].doc)
        ensures Item(nodes[k].name + "." + nodes[k].body[j].name, nodes[k].body[j].doc.value, nodes[k].body[j].lineno)
                in ExtractDefs(nodes, "")
      {
        ClassMemberQualified(nodes[k], "", j);
        ExtractDefsIncludes(nodes, "", k,
          Item(nodes[k].name + "." + nodes[k].body[j].name, nodes[k].body[j].doc.value, nodes[k].body[j].lineno));
      }
    }
  }

  /**
   * On a stub whose only statement is a class without a docstring, whose
   * method has a doctest, the extraction as written yields nothing and the
   * intended one yields `C.m`.
   */
  lemma ExtractDoctestsFromAstDropsMembers()
    ensures var tree := Some(Tree(None, [ClassDef("C", None, 1, [FunctionDef("m", Some(">>> 1"), 2)])]));
      ExtractDoctestsFromAst("stub", tree) == []
      && ExtractDoctestsFromAstFixed("stub", tree) == [Item("C.m", ">>> 1", 2)]
  {
    var c := ClassDef("C", None, 1, [FunctionDef("m", Some(">>> 1"), 2)]);
    AsWrittenDropsMembers();
    assert ExtractDefsAsWritten([c]) == RecurseExtractAsWritten(c, "") + ExtractDefsAsWritten([]);
    assert ExtractDefs([c], "") == RecurseExtract(c, "") + ExtractDefs([], "");
  }

  /** What `collect` makes of an item: a test function with the item's name running its doctest. */
  datatype TestFunction = TestFunction(name: string, doc: string, lineno: nat)

  /** The items whose parsed doctest has examples, as test functions, in order. */
  function CollectItems(items: seq<Item>, hasExamples: string -> bool): seq<TestFunction>
  {
    if items == [] then []
    else
      var i := items[0];
      (if hasExamples(i.doc) then [TestFunction(i.name, i.doc, i.lineno)] else [])
      + CollectItems(items[1..], hasExamples)
  }

  /** `PyiModule.collect` for a stub with stem `stem` and tree `tree`, as written. */
  function Collect(stem: string, tree: Option<Tree>, hasExamples: string -> bool): seq<TestFunction>
  {
    CollectItems(ExtractDoctestsFromAst(stem, tree), hasExamples)
  }

  /** `PyiModule.collect` over the intended extraction. */
  function CollectFixed(stem: string, tree: Option<Tree>, hasExamples: string -> bool): seq<TestFunction>
  {
    CollectItems(ExtractDoctestsFromAstFixed(stem, tree), hasExamples)
  }

  /** A test function is collected exactly when it comes from an item whose doctest has examples. */
  lemma {:induction false} CollectItemsIff(items: seq<Item>, hasExamples: string -> bool)
    ensures forall t :: t in CollectItems(items, hasExamples) <==>
      exists k :: 0 <= k < |items| && hasExamples(items[k].doc)
                  && t == TestFunction(items[k].name, items[k].doc, items[k].lineno)
    ensures |CollectItems(items, hasExamples)| <= |items|
    decreases |items|
  {
    if items != [] {
      CollectItemsIff(items[1..], hasExamples);
      assert forall k :: 1 <= k < |items| ==> items[1..][k - 1] == items[k];
    }
  }

  /**
   * `collect` as written: nothing for a file that does not parse; the module
   * test alone when the module docstring has a doctest with examples;
   * otherwise exactly one test function per top-level definition whose
   * docstring has a doctest with examples, under the definition's own name.
   */
  lemma CollectCases(stem: string, tree: Option<Tree>, hasExamples: string -> bool)
    ensures tree.None? ==> Collect(stem, tree, hasExamples) == []
    ensures tree.Some? && HasDoctest(tree.value.doc) ==>
      Collect(stem, tree, hasExamples)
      == if hasExamples(tree.value.doc.value) then [TestFunction(stem, tree.value.doc.value, 1)] else []
    ensures tree.Some? && !HasDoctest(tree.value.doc) ==>
      forall t :: t in Collect(stem, tree, hasExamples) <==>
        exists k :: 0 <= k < |tree.value.body| && IsDef(tree.value.body[k]) && HasDoctest(tree.value.body[k].doc)
                    && hasExamples(tree.value.body[k].doc.value)
                    && t == TestFunction(tree.value.body[k].name, tree.value.body[k].doc.value, tree.value.body[k].lineno)
  {
    var items := ExtractDoctestsFromAst(stem, tree);
    ExtractDoctestsFromAstCases(stem, tree);
    CollectItemsIff(items, hasExamples);
    if tree.Some? && HasDoctest(tree.value.doc) {
      assert CollectItems(items, hasExamples) == CollectItems(items[..1], hasExamples) + CollectItems([], hasExamples);
    }
    if tree.Some? && !HasDoctest(tree.value.doc) {
      var nodes := tree.value.body;
      forall t | t in Collect(stem, tree, hasExamples)
        ensures exists k :: 0 <= k < |nodes| && IsDef(nodes[k]) && HasDoctest(nodes[k].doc)
                              && hasExamples(nodes[k].doc.value)
                              && t == TestFunction(nodes[k].name, nodes[k].doc.value, nodes[k].lineno)
      {
        var i :| 0 <= i < |items| && hasExamples(items[i].doc)
                 && t == TestFunction(items[i].name, items[i].doc, items[i].lineno);
        assert items[i] in items;
      }
      forall t | exists k :: 0 <= k < |nodes| && IsDef(nodes[k]) && HasDoctest(nodes[k].doc)
                             && hasExamples(nodes[k].doc.value)
                             && t == TestFunction(nodes[k].name, nodes[k].doc.value, nodes[k].lineno)
        ensures t in Collect(stem, tree, hasExamples)
      {
        var k :| 0 <= k < |nodes| && IsDef(nodes[k]) && HasDoctest(nodes[k].doc)
                && hasExamples(nodes[k].doc.value) && t == TestFunction(nodes[k].name, nodes[k].doc.value, nodes[k].lineno);
        var x := Item(nodes[k].name, nodes[k].doc.value, nodes[k].lineno);
        assert x in items;
        var i :| 0 <= i < |items| && items[i] == x;
      }
    }
  }

  /** `pytest_collect_file`: only with `--pyi-enabled`, only a `.pyi` suffix in any case. */
  predicate AcceptFile(enabled: bool, fileName: string)
  {
    enabled && Paths.Lower(Paths.Suffix(fileName)) == ".pyi"
  }

  /**
   * An accepted file name ends with `.pyi` up to case and has a non-empty
   * stem; nothing is accepted without the option; `.PYI` is accepted.
   */
  lemma AcceptFileShape(enabled: bool, fileName: string)
    ensures AcceptFile(enabled, fileName) ==>
      enabled && |fileName| >= 5 && Paths.Lower(fileName[|fileName| - 4..]) == ".pyi"
    ensures !enabled ==> !AcceptFile(enabled, fileName)
  {
    Paths.StemAndSuffix(fileName);
    if AcceptFile(enabled, fileName) {
      var s := Paths.Suffix(fileName);
      assert |s| == 4;
      assert fileName[|fileName| - 4..] == s by {
        assert Paths.Stem(fileName) + s == fileName;
      }
    }
  }

  lemma AcceptUpperCase()
    ensures AcceptFile(true, "stub.PYI")
    ensures !AcceptFile(true, "stub.py")
  {
    assert Paths.RFind("stub.PYI", '.') == 4 by {
      assert "stub.PYI"[..7][..6][..5] == "stub.";
    }
    assert Paths.Lower(".PYI") == ".pyi";
    assert Paths.RFind("stub.py", '.') == 4 by {
      assert "stub.py"[..6][..5] == "stub.";
    }
  }
}
