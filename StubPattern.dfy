/**
 * The definition-with-docstring pattern that all three stub readers share:
 *
 *   (?:def|class)\s+(\w+)(?:\[[^\]]*\])?\s*(?:\([^)]*\))?\s*(?:->[^:]+)?:\s*"""(.*?)"""
 *
 * compiled with DOTALL and used with `findall`. Every step of a match is
 * deterministic: the greedy runs and negated character classes cannot give
 * back a character without the next step failing (a run of `\s` is followed
 * by something that is not white space, a `\w+` name by `[`, `(`, `-`, `:` or
 * white space), and the lazy body stops at the first closing `"""`.
 * `MatchAt` is therefore the unique match beginning at a position, and
 * `Blocks` is the left-to-right `findall`.
 */
module StubPattern {
  import opened Text
  import opened Scan

  /** One match: its span and its two groups, the name and the docstring body. */
  datatype DocBlock = DocBlock(start: nat, name: string, body: string, end: nat)

  /** `(?:def|class)`: the position after the keyword. */
  function KeywordEnd(text: string, i: nat): (r: Option<nat>)
    requires i <= |text|
    ensures r.Some? ==> r.value <= |text|
    ensures r.Some? <==> OccursAt(text, "def", i) || OccursAt(text, "class", i)
  {
    if OccursAt(text, "def", i) then Some(i + 3)
    else if OccursAt(text, "class", i) then Some(i + 5)
    else None
  }

  /**
   * An optional group `open [^close]* close` at `p`: absent when `text[p]` is not
   * `open`; when it is, the group must find its `close` or the match fails (the
   * characters after the name cannot be consumed any other way).
   */
  function SkipGroup(text: string, p: nat, open: char, close: char): (r: Option<nat>)
    requires p <= |text|
    ensures r.Some? ==> p <= r.value <= |text|
    ensures r.Some? && r.value > p ==> text[p] == open && text[r.value - 1] == close
    ensures r.Some? && r.value > p ==> forall k :: p < k < r.value - 1 ==> text[k] != close
    ensures r.Some? && r.value == p ==> p == |text| || text[p] != open
  {
    if p < |text| && text[p] == open then
      var q :- FindChar(text, close, p + 1);
      Some(q + 1)
    else Some(p)
  }

  /** The optional return annotation `->[^:]+`, which must stop just before a `:`. */
  function SkipReturn(text: string, p: nat): (r: Option<nat>)
    requires p <= |text|
    ensures r.Some? ==> p <= r.value <= |text|
    ensures r.Some? && r.value > p ==>
      OccursAt(text, "->", p) && r.value > p + 2 && r.value < |text| && text[r.value] == ':'
      && forall k :: p + 2 <= k < r.value ==> text[k] != ':'
  {
    if OccursAt(text, "->", p) then
      var q :- FindChar(text, ':', p + 2);
      if q > p + 2 then Some(q) else None
    else Some(p)
  }

  /**
   * What follows the name, up to and including the colon: the optional type
   * parameters, the optional parameter list, the optional return annotation,
   * with white space between them.
   */
  function SignatureEnd(text: string, n: nat): (r: Option<nat>)
    requires n <= |text|
    ensures r.Some? ==> n < r.value <= |text| && text[r.value - 1] == ':'
  {
    var p1 :- SkipGroup(text, n, '[', ']');
    var p2 := RunEnd(text, p1, IsSpace);
    var p3 :- SkipGroup(text, p2, '(', ')');
    var p4 := RunEnd(text, p3, IsSpace);
    var p5 :- SkipReturn(text, p4);
    if p5 < |text| && text[p5] == ':' then Some(p5 + 1) else None
  }

  /**
   * What a match `b` at `i` is: it starts with a keyword, its name is a
   * non-empty run of word characters, and its body is the text between an
   * opening and the first following closing `"""`, which ends the match.
   */
  predicate IsMatch(text: string, i: nat, b: DocBlock)
  {
    b.start == i && i < b.end <= |text|
    && (OccursAt(text, "def", i) || OccursAt(text, "class", i))
    && b.name != [] && (forall k :: 0 <= k < |b.name| ==> IsWordChar(b.name[k]))
    && b.end >= |b.body| + 6
    && OccursAt(text, TripleQuote, b.end - 6 - |b.body|)
    && OccursAt(text, TripleQuote, b.end - 3)
    && b.body == text[b.end - 3 - |b.body|..b.end - 3]
    && forall k :: b.end - 3 - |b.body| <= k < b.end - 3 ==> !OccursAt(text, TripleQuote, k)
  }

  /**
   * A matched body can be put back between triple quotes: it holds no `"""`
   * and does not end with a quote (else the closing quotes would start one
   * character earlier).
   */
  lemma MatchedBodyIsClosable(text: string, i: nat, b: DocBlock)
    requires IsMatch(text, i, b)
    ensures forall k: nat :: !OccursAt(b.body, TripleQuote, k)
    ensures b.body == [] || b.body[|b.body| - 1] != '"'
  {
    BodyHasNoClose(text, b.end - 3 - |b.body|, b.end - 3, b.body);
    BodyBeforeClose(text, b.end - 3 - |b.body|, b.end - 3, b.body);
  }

  lemma BodyHasNoClose(text: string, o: nat, e: nat, body: string)
    requires o <= e <= |text| && body == text[o..e]
    requires forall k :: o <= k < e ==> !OccursAt(text, TripleQuote, k)
    ensures forall k: nat :: !OccursAt(body, TripleQuote, k)
  {
    forall k: nat | k + 3 <= |body| ensures !OccursAt(body, TripleQuote, k) {
      SliceOfSlice(text, o, e, k, k + 3);
      assert !OccursAt(text, TripleQuote, o + k);
    }
  }

  lemma BodyBeforeClose(text: string, o: nat, e: nat, body: string)
    requires o <= e && e + 3 <= |text| && body == text[o..e] && OccursAt(text, TripleQuote, e)
    requires forall k :: o <= k < e ==> !OccursAt(text, TripleQuote, k)
    ensures body == [] || body[|body| - 1] != '"'
  {
    if body != [] {
      assert !OccursAt(text, TripleQuote, e - 1);
      assert text[e] == text[e..e + 3][0] == '"' && text[e + 1] == text[e..e + 3][1] == '"';
      assert text[e - 1] != '"' by {
        assert text[e - 1..e + 2] != TripleQuote;
        assert text[e - 1..e + 2] == [text[e - 1], text[e], text[e + 1]];
      }
      assert text[e - 1] == body[|body| - 1];
    }
  }

  /** The match of the pattern that begins at `i`, if there is one. */
  function MatchAt(text: string, i: nat): (r: Option<DocBlock>)
    requires i <= |text|
    ensures r.Some? ==> IsMatch(text, i, r.value)
  {
    var k :- KeywordEnd(text, i);
    var s := RunEnd(text, k, IsSpace);
    if s == k then None else
    var n := RunEnd(text, s, IsWordChar);
    if n == s then None else
    MatchAfterName(text, i, s, n)
  }

  /** The rest of a match whose keyword starts at `i` and whose name is `text[s..n]`. */
  function MatchAfterName(text: string, i: nat, s: nat, n: nat): (r: Option<DocBlock>)
    requires i < s < n <= |text|
    requires OccursAt(text, "def", i) || OccursAt(text, "class", i)
    requires forall j :: s <= j < n ==> IsWordChar(text[j])
    ensures r.Some? ==> IsMatch(text, i, r.value)
  {
    var c :- SignatureEnd(text, n);
    var o := RunEnd(text, c, IsSpace);
    var q :- DocstringClose(text, o);
    PartsMakeMatch(text, i, s, n, o, q);
    Some(BlockOf(text, i, s, n, o, q))
  }

  /** The block whose keyword is at `i`, name at `[s, n)` and quotes at `o` and `q`. */
  function BlockOf(text: string, i: nat, s: nat, n: nat, o: nat, q: nat): DocBlock
    requires s <= n <= |text| && o + 3 <= q <= |text|
  {
    DocBlock(i, text[s..n], text[o + 3..q], q + 3)
  }

  /** `"""(.*?)"""` at `o`: where the first closing quotes after the opening ones start. */
  function DocstringClose(text: string, o: nat): (r: Option<nat>)
    requires o <= |text|
    ensures r.Some? ==> OccursAt(text, TripleQuote, o) && o + 3 <= r.value && OccursAt(text, TripleQuote, r.value)
    ensures r.Some? ==> forall k :: o + 3 <= k < r.value ==> !OccursAt(text, TripleQuote, k)
  {
    if !OccursAt(text, TripleQuote, o) then None else FindFrom(text, TripleQuote, o + 3)
  }

  lemma PartsMakeMatch(text: string, i: nat, s: nat, n: nat, o: nat, q: nat)
    requires i < s < n <= o && o + 3 <= q && q + 3 <= |text|
    requires OccursAt(text, "def", i) || OccursAt(text, "class", i)
    requires forall j :: s <= j < n ==> IsWordChar(text[j])
    requires OccursAt(text, TripleQuote, o) && OccursAt(text, TripleQuote, q)
    requires forall j :: o + 3 <= j < q ==> !OccursAt(text, TripleQuote, j)
    ensures IsMatch(text, i, BlockOf(text, i, s, n, o, q))
  {
    var b := BlockOf(text, i, s, n, o, q);
    assert b.end - 6 - |b.body| == o;
    assert b.end - 3 - |b.body| == o + 3;
  }

  function BlockStart(b: DocBlock): nat
  {
    b.start
  }

  function BlockEnd(b: DocBlock): nat
  {
    b.end
  }

  /** The pattern tried at each position of `text`. */
  function Matcher(text: string): nat -> Option<DocBlock>
  {
    (i: nat) => if i < |text| then MatchAt(text, i) else None
  }

  lemma MatcherAdvances(text: string)
    ensures Advances(|text|, Matcher(text), BlockStart, BlockEnd)
  {
    forall i: nat | i < |text| && Matcher(text)(i).Some?
      ensures BlockStart(Matcher(text)(i).value) == i < BlockEnd(Matcher(text)(i).value) <= |text|
    {
      assert Matcher(text)(i) == MatchAt(text, i);
    }
  }

  /**
   * `findall` over the whole text: try each position in turn; after a match
   * the search resumes at its end. Each block listed is the match at its
   * start, and each ends before the next begins.
   */
  function FindAll(text: string): (r: seq<DocBlock>)
    ensures forall k :: 0 <= k < |r| ==> r[k].start < |text| && MatchAt(text, r[k].start) == Some(r[k])
    ensures forall k :: 0 <= k < |r| - 1 ==> r[k].end <= r[k + 1].start
  {
    MatcherAdvances(text);
    var r := FindIter(|text|, 0, Matcher(text), BlockStart, BlockEnd);
    assert forall k :: 0 <= k < |r| ==> Matcher(text)(BlockStart(r[k])) == MatchAt(text, r[k].start);
    r
  }

  /**
   * Nothing is missed: every position where the pattern matches lies inside
   * one of the matches found, the match beginning there or an earlier one.
   */
  lemma FindAllComplete(text: string, p: nat)
    requires p <= |text| && MatchAt(text, p).Some?
    ensures exists k :: 0 <= k < |FindAll(text)| && FindAll(text)[k].start <= p < FindAll(text)[k].end
  {
    MatcherAdvances(text);
    assert Matcher(text)(p) == MatchAt(text, p);
    var r := FindIter(|text|, 0, Matcher(text), BlockStart, BlockEnd);
    FindIterComplete(|text|, 0, Matcher(text), BlockStart, BlockEnd, p);
    var k :| 0 <= k < |r| && BlockStart(r[k]) <= p < BlockEnd(r[k]);
    assert FindAll(text)[k] == r[k];
  }
}
