/**
 * The markdown extractor of the stub tester (stubtester/_blocks.py): fenced
 * code blocks and headers are found by scanners that stand for the module's
 * two regular expressions, and every fence tagged `py` or `python` becomes a
 * test function named after the nearest header before it and the fence's
 * ordinal, whose docstring holds the fence's body.
 */
module Blocks {
  import opened Text
  import opened Scan

  // ---------------------------------------------------------------------------
  // Fences: ^```(\w+)\s*$\n(.*?)^```$ with MULTILINE and DOTALL.
  //
  // The tag is the longest run of word characters (a shorter one leaves a word
  // character that neither `\s*` nor `$` accepts). `\s*$\n` takes the longest
  // white-space run and gives back up to its last newline, where the body
  // starts; giving back further only lets the body start at white space, which
  // cannot begin a closing line, so a failure there is final. The lazy body
  // ends at the first closing line.

  datatype Fence = Fence(start: nat, tag: string, body: string, end: nat)

  /** A closing line `^```$` begins at `q`. */
  predicate IsCloseAt(text: string, q: nat)
  {
    IsLineStart(text, q) && OccursAt(text, Backticks, q) && IsLineEnd(text, q + 3)
  }

  /** The first closing line at or after `p`. */
  function FirstClose(text: string, p: nat): (r: Option<nat>)
    requires p <= |text|
    ensures r.Some? ==> p <= r.value && r.value + 3 <= |text| && IsCloseAt(text, r.value)
    ensures r.Some? ==> forall q :: p <= q < r.value ==> !IsCloseAt(text, q)
    ensures r.None? ==> forall q: nat :: p <= q ==> !IsCloseAt(text, q)
    decreases |text| - p
  {
    if IsCloseAt(text, p) then Some(p)
    else if p == |text| then None
    else FirstClose(text, p + 1)
  }

  /**
   * What a fence `f` found at `i` is: an opening line made of three backticks,
   * a non-empty word tag and white space only; a body running from the line
   * after it to the first closing line; the match ends after the closing
   * backticks.
   */
  predicate IsFence(text: string, i: nat, f: Fence)
  {
    var tagEnd := i + 3 + |f.tag|;
    var close := f.end - 3;
    f.start == i && IsLineStart(text, i) && OccursAt(text, Backticks, i)
    && f.end <= |text| && tagEnd + |f.body| + 4 <= f.end
    && f.tag != [] && f.tag == text[i + 3..tagEnd]
    && (forall k :: 0 <= k < |f.tag| ==> IsWordChar(f.tag[k]))
    && (forall k :: tagEnd <= k < close - |f.body| ==> IsSpace(text[k]))
    && text[close - |f.body| - 1] == '\n'
    && f.body == text[close - |f.body|..close]
    && IsCloseAt(text, close)
    && (forall q :: close - |f.body| <= q < close ==> !IsCloseAt(text, q))
  }

  /** The fence match that begins at `i`, if there is one. */
  function FenceAt(text: string, i: nat): (r: Option<Fence>)
    requires i <= |text|
    ensures r.Some? ==> IsFence(text, i, r.value)
  {
    if !(IsLineStart(text, i) && OccursAt(text, Backticks, i)) then None else
    var t := RunEnd(text, i + 3, IsWordChar);
    if t == i + 3 then None else
    var w := RunEnd(text, t, IsSpace);
    var j :- LastWhere(text, t, w, IsNewline);
    var q :- FirstClose(text, j + 1);
    FencePartsMakeFence(text, i, t, j, q);
    Some(Fence(i, text[i + 3..t], text[j + 1..q], q + 3))
  }

  lemma FencePartsMakeFence(text: string, i: nat, t: nat, j: nat, q: nat)
    requires i + 3 < t <= j < q && q + 3 <= |text|
    requires IsLineStart(text, i) && OccursAt(text, Backticks, i)
    requires forall k :: i + 3 <= k < t ==> IsWordChar(text[k])
    requires forall k :: t <= k <= j ==> IsSpace(text[k])
    requires text[j] == '\n' && IsCloseAt(text, q)
    requires forall p :: j + 1 <= p < q ==> !IsCloseAt(text, p)
    ensures IsFence(text, i, Fence(i, text[i + 3..t], text[j + 1..q], q + 3))
  {
    var f := Fence(i, text[i + 3..t], text[j + 1..q], q + 3);
    assert i + 3 + |f.tag| == t;
    assert f.end - 3 - |f.body| == j + 1;
  }

  function FenceStart(f: Fence): nat
  {
    f.start
  }

  function FenceEnd(f: Fence): nat
  {
    f.end
  }

  /** The fence pattern tried at each position of `text`. */
  function FenceMatcher(text: string): nat -> Option<Fence>
  {
    (i: nat) => if i < |text| then FenceAt(text, i) else None
  }

  lemma FenceMatcherAdvances(text: string)
    ensures Advances(|text|, FenceMatcher(text), FenceStart, FenceEnd)
  {
    forall i: nat | i < |text| && FenceMatcher(text)(i).Some?
      ensures FenceStart(FenceMatcher(text)(i).value) == i < FenceEnd(FenceMatcher(text)(i).value) <= |text|
    {
      assert FenceMatcher(text)(i) == FenceAt(text, i);
    }
  }

  /** `finditer` over the whole text: after a fence the search resumes at its end. */
  function Fences(text: string): (r: seq<Fence>)
    ensures forall k :: 0 <= k < |r| ==> r[k].start < |text| && FenceAt(text, r[k].start) == Some(r[k])
    ensures forall k :: 0 <= k < |r| - 1 ==> r[k].end <= r[k + 1].start
  {
    FenceMatcherAdvances(text);
    var r := FindIter(|text|, 0, FenceMatcher(text), FenceStart, FenceEnd);
    assert forall k :: 0 <= k < |r| ==> FenceMatcher(text)(FenceStart(r[k])) == FenceAt(text, r[k].start);
    r
  }

  /** No fence is missed: every position where a fence matches lies inside a fence found. */
  lemma FencesComplete(text: string, p: nat)
    requires p <= |text| && FenceAt(text, p).Some?
    ensures exists k :: 0 <= k < |Fences(text)| && Fences(text)[k].start <= p < Fences(text)[k].end
  {
    FenceMatcherAdvances(text);
    assert FenceMatcher(text)(p) == FenceAt(text, p);
    var r := FindIter(|text|, 0, FenceMatcher(text), FenceStart, FenceEnd);
    FindIterComplete(|text|, 0, FenceMatcher(text), FenceStart, FenceEnd, p);
    var k :| 0 <= k < |r| && FenceStart(r[k]) <= p < FenceEnd(r[k]);
    assert Fences(text)[k] == r[k];
  }

  /** A fence body is empty or ends with the newline before its closing line. */
  lemma FenceBodyEndsWithNewline(text: string, i: nat, f: Fence)
    requires IsFence(text, i, f)
    ensures f.body == [] || f.body[|f.body| - 1] == '\n'
  {
    if f.body != [] {
      assert f.body[|f.body| - 1] == text[f.end - 4];
    }
  }

  // ---------------------------------------------------------------------------
  // Headers: ^(#+)\s+(.+)$ with MULTILINE, without DOTALL.
  //
  // `\s+` may run across newlines. When it stops before a character that is not
  // white space, `.+` takes the rest of that line. When it runs to the end of
  // the text, it gives back characters until `.+` can take one that is not a
  // newline, so the title is then made of white space. Only the start and the
  // stripped title of a header are used.

  datatype Header = Header(start: nat, title: string, end: nat)

  predicate IsHash(c: char)
  {
    c == '#'
  }

  predicate NotNewline(c: char)
  {
    c != '\n'
  }

  /** The header match that begins at `i`, if there is one. */
  function HeaderAt(text: string, i: nat): (r: Option<Header>)
    requires i <= |text|
    ensures r.Some? ==> r.value.start == i && i < r.value.end <= |text|
    ensures r.Some? ==> IsLineStart(text, i) && text[i] == '#'
  {
    if !IsLineStart(text, i) then None else
    var h := RunEnd(text, i, IsHash);
    if h == i then None else
    var w := RunEnd(text, h, IsSpace);
    if w == h then None else
    var g :- if w < |text| then Some(w) else LastWhere(text, h + 1, w, NotNewline);
    var e := LineEndFrom(text, g);
    Some(Header(i, Strip(text[g..e]), e))
  }

  function HeaderStart(h: Header): nat
  {
    h.start
  }

  function HeaderEnd(h: Header): nat
  {
    h.end
  }

  /** The header pattern tried at each position of `text`. */
  function HeaderMatcher(text: string): nat -> Option<Header>
  {
    (i: nat) => if i < |text| then HeaderAt(text, i) else None
  }

  lemma HeaderMatcherAdvances(text: string)
    ensures Advances(|text|, HeaderMatcher(text), HeaderStart, HeaderEnd)
  {
    forall i: nat | i < |text| && HeaderMatcher(text)(i).Some?
      ensures HeaderStart(HeaderMatcher(text)(i).value) == i < HeaderEnd(HeaderMatcher(text)(i).value) <= |text|
    {
      assert HeaderMatcher(text)(i) == HeaderAt(text, i);
    }
  }

  /**
   * `finditer` for headers over the whole text, fences included: each header
   * listed is the match at its start, and each ends before the next begins.
   */
  function Headers(text: string): (r: seq<Header>)
    ensures forall k :: 0 <= k < |r| ==> r[k].start < r[k].end <= |text| && HeaderAt(text, r[k].start) == Some(r[k])
    ensures forall k :: 0 <= k < |r| - 1 ==> r[k].end <= r[k + 1].start
  {
    HeaderMatcherAdvances(text);
    var r := FindIter(|text|, 0, HeaderMatcher(text), HeaderStart, HeaderEnd);
    assert forall k :: 0 <= k < |r| ==> HeaderMatcher(text)(HeaderStart(r[k])) == HeaderAt(text, r[k].start);
    r
  }

  /** Every position where a header matches lies inside a header found. */
  lemma HeadersComplete(text: string, p: nat)
    requires p <= |text| && HeaderAt(text, p).Some?
    ensures exists k :: 0 <= k < |Headers(text)| && Headers(text)[k].start <= p < Headers(text)[k].end
  {
    HeaderMatcherAdvances(text);
    assert HeaderMatcher(text)(p) == HeaderAt(text, p);
    var r := FindIter(|text|, 0, HeaderMatcher(text), HeaderStart, HeaderEnd);
    FindIterComplete(|text|, 0, HeaderMatcher(text), HeaderStart, HeaderEnd, p);
    var k :| 0 <= k < |r| && HeaderStart(r[k]) <= p < HeaderEnd(r[k]);
    assert Headers(text)[k] == r[k];
  }

  /** Header starts strictly increase along the list. */
  predicate SortedByStart(hs: seq<Header>)
  {
    forall j, k :: 0 <= j < k < |hs| ==> hs[j].start < hs[k].start
  }

  /** Headers are found in document order. */
  lemma HeadersSorted(text: string)
    ensures SortedByStart(Headers(text))
  {
    var hs := Headers(text);
    ChainSorted(hs, HeaderStart, HeaderEnd);
    assert forall j, k :: 0 <= j < k < |hs| ==> HeaderStart(hs[j]) < HeaderStart(hs[k]);
  }

  const DefaultTitle: string := "markdown_test"

  /** The index of the last of the first `n` headers that starts before `b`, if any. */
  function LastBefore(hs: seq<Header>, b: nat, n: nat): (r: Option<nat>)
    requires n <= |hs|
    ensures r.Some? ==> r.value < n && hs[r.value].start < b && forall j :: r.value < j < n ==> hs[j].start >= b
    ensures r.None? ==> forall k :: 0 <= k < n ==> hs[k].start >= b
    decreases n
  {
    if n == 0 then None
    else if hs[n - 1].start < b then Some(n - 1)
    else LastBefore(hs, b, n - 1)
  }

  /** The nearest header: the last in the list that starts before `b`, or the default name. */
  function HeaderFor(hs: seq<Header>, b: nat): (r: string)
    ensures (forall k :: 0 <= k < |hs| ==> hs[k].start >= b) ==> r == DefaultTitle
    ensures (exists k :: 0 <= k < |hs| && hs[k].start < b) ==>
      exists k :: 0 <= k < |hs| && hs[k].start < b && r == hs[k].title
        && forall j :: k < j < |hs| ==> hs[j].start >= b
  {
    var last := LastBefore(hs, b, |hs|);
    if last.None? then DefaultTitle else hs[last.value].title
  }

  /**
   * With the headers in document order, the chosen one is the closest: no
   * other header starting before `b` starts after it.
   */
  lemma ClosestHeader(hs: seq<Header>, b: nat)
    requires SortedByStart(hs)
    requires exists k :: 0 <= k < |hs| && hs[k].start < b
    ensures exists k ::
      && 0 <= k < |hs| && hs[k].start < b && HeaderFor(hs, b) == hs[k].title
      && (forall j :: 0 <= j < |hs| && hs[j].start < b ==> hs[j].start <= hs[k].start)
  {
    var k :| 0 <= k < |hs| && hs[k].start < b && HeaderFor(hs, b) == hs[k].title
      && forall j :: k < j < |hs| ==> hs[j].start >= b;
    forall j | 0 <= j < |hs| && hs[j].start < b ensures hs[j].start <= hs[k].start {
      if j < k {
        assert hs[j].start < hs[k].start;
      }
    }
  }

  // ---------------------------------------------------------------------------
  // Test names: TITLE.sub("_", f"{header}_{idx}").strip("_").

  /** `[^a-zA-Z0-9_]` becomes `_`. */
  function SanitizeChar(c: char): (r: char)
    ensures IsWordChar(r)
    ensures IsWordChar(c) ==> r == c
  {
    if IsWordChar(c) then c else '_'
  }

  function Sanitize(s: string): (r: string)
    ensures |r| == |s|
    ensures forall k :: 0 <= k < |s| ==> r[k] == SanitizeChar(s[k])
  {
    seq(|s|, k requires 0 <= k < |s| => SanitizeChar(s[k]))
  }

  function Title(header: string, idx: nat): string
  {
    StripBy(Sanitize(header + "_" + Decimal(idx)), IsUnderscore)
  }

  lemma SanitizeAppend(a: string, b: string)
    ensures Sanitize(a + b) == Sanitize(a) + Sanitize(b)
  {
  }

  lemma SanitizeKeepsWords(s: string)
    requires forall k :: 0 <= k < |s| ==> IsWordChar(s[k])
    ensures Sanitize(s) == s
  {
  }

  /**
   * Stripping characters from both ends keeps a suffix that none of them can
   * remove: what remains is a suffix of `s` that still ends with `d`.
   */
  lemma StripKeepsSuffix(s: string, d: string, drop: char -> bool)
    requires d != [] && |d| <= |s| && s[|s| - |d|..] == d
    requires forall k :: 0 <= k < |d| ==> !drop(d[k])
    ensures var t := StripBy(s, drop);
      |d| <= |t| && t == s[|s| - |t|..] && !drop(t[0]) && !drop(t[|t| - 1])
  {
    var l := LStripBy(s, drop);
    assert !drop(s[|s| - |d|]);
    assert |l| >= |d|;
    assert !drop(l[|l| - 1]);
  }

  /** The sanitised name before stripping: the header's characters, an underscore, the digits. */
  lemma SanitizedName(header: string, idx: nat)
    ensures Sanitize(header + "_" + Decimal(idx)) == Sanitize(header) + "_" + Decimal(idx)
  {
    SanitizeAppend(header + "_", Decimal(idx));
    SanitizeAppend(header, "_");
    SanitizeKeepsWords(Decimal(idx));
  }

  /** Stripping underscores from word characters that end with `_` and digits. */
  lemma StripUnderscoresShape(a: string, d: string)
    requires d != [] && forall k :: 0 <= k < |d| ==> IsDigit(d[k])
    requires forall k :: 0 <= k < |a| ==> IsWordChar(a[k])
    ensures var t := StripBy(a + "_" + d, IsUnderscore);
      |d| <= |t| && t[|t| - |d|..] == d && (|t| == |d| || t[|t| - |d| - 1] == '_')
      && t != [] && t[0] != '_' && t[|t| - 1] != '_' && forall k :: 0 <= k < |t| ==> IsWordChar(t[k])
  {
    var s := a + "_" + d;
    assert s[|s| - |d|..] == d;
    StripKeepsSuffix(s, d, IsUnderscore);
    SuffixOfNameShape(a, d, StripBy(s, IsUnderscore));
  }

  /** A suffix of `a + "_" + d` at least as long as `d`. */
  lemma SuffixOfNameShape(a: string, d: string, t: string)
    requires d != [] && forall k :: 0 <= k < |d| ==> IsDigit(d[k])
    requires forall k :: 0 <= k < |a| ==> IsWordChar(a[k])
    requires |d| <= |t| <= |a| + 1 + |d| && t == (a + "_" + d)[|a| + 1 + |d| - |t|..]
    ensures t[|t| - |d|..] == d && (|t| == |d| || t[|t| - |d| - 1] == '_')
    ensures forall k :: 0 <= k < |t| ==> IsWordChar(t[k])
  {
    var s := a + "_" + d;
    forall k | 0 <= k < |t| ensures IsWordChar(t[k]) {
      assert t[k] == s[|s| - |t| + k];
    }
    if |t| > |d| {
      assert t[|t| - |d| - 1] == s[|s| - |d| - 1] == '_';
    }
  }

  /** `t` ends with the digits `d`, and they are all of it or follow an underscore. */
  predicate EndsWithOrdinal(t: string, d: string)
  {
    |d| <= |t| && t[|t| - |d|..] == d && (|t| == |d| || t[|t| - |d| - 1] == '_')
  }

  /**
   * A title is the ordinal's digits after a prefix that is empty or ends with
   * an underscore; it is a non-empty identifier tail with no underscore at
   * either end.
   */
  lemma TitleShape(header: string, idx: nat)
    ensures EndsWithOrdinal(Title(header, idx), Decimal(idx))
    ensures var t := Title(header, idx);
      t != [] && t[0] != '_' && t[|t| - 1] != '_' && forall k :: 0 <= k < |t| ==> IsWordChar(t[k])
  {
    SanitizedName(header, idx);
    StripUnderscoresShape(Sanitize(header), Decimal(idx));
  }

  /** What follows the last underscore of `t` (all of `t` when it has none). */
  function LastSegment(t: string): string
    decreases |t|
  {
    if t == [] || t[|t| - 1] == '_' then [] else LastSegment(t[..|t| - 1]) + [t[|t| - 1]]
  }

  /** The ordinal read back from a title: the number after its last underscore. */
  function TitleIndex(title: string): nat
  {
    ParseDecimal(LastSegment(title))
  }

  /** Digits placed after an underscore (or at the start) form the last segment. */
  lemma {:induction false} LastSegmentOfDigits(t: string, d: string)
    requires EndsWithOrdinal(t, d)
    requires forall k :: 0 <= k < |d| ==> IsDigit(d[k])
    ensures LastSegment(t) == d
    decreases |d|
  {
    if d != [] {
      var n := |d| - 1;
      var t' := t[..|t| - 1];
      assert t'[|t'| - n..] == d[..n];
      LastSegmentOfDigits(t', d[..n]);
      assert t[|t| - 1] == d[n];
      assert d[..n] + [d[n]] == d;
    }
  }

  /** Every title carries its fence's ordinal, so titles of different fences differ. */
  lemma TitleIndexRoundTrip(header: string, idx: nat)
    ensures TitleIndex(Title(header, idx)) == idx
  {
    var t, d := Title(header, idx), Decimal(idx);
    TitleShape(header, idx);
    LastSegmentOfDigits(t, d);
    assert TitleIndex(t) == ParseDecimal(d);
    DecimalRoundTrip(idx);
  }

  lemma TitlesOfDifferentFencesDiffer(h1: string, i1: nat, h2: string, i2: nat)
    requires i1 != i2
    ensures Title(h1, i1) != Title(h2, i2)
  {
    TitleIndexRoundTrip(h1, i1);
    TitleIndexRoundTrip(h2, i2);
  }

  // ---------------------------------------------------------------------------
  // Embedding a body in the `"""` docstring of the generated function:
  // code.replace("\\", "\\\\\\\\").replace('"""', '\\"\\"\\"').

  const FourBackslashes: string := "\\\\\\\\"
  const EscapedTripleQuote: string := "\\\"\\\"\\\""

  /** The first replacement: every backslash becomes four. */
  function QuadrupleBackslashes(code: string): string
  {
    ReplaceAll(code, "\\", FourBackslashes)
  }

  /** Both replacements, in the source's order. */
  function EscapeCode(code: string): string
  {
    ReplaceAll(QuadrupleBackslashes(code), TripleQuote, EscapedTripleQuote)
  }

  /**
   * How Python reads the contents of a `"""` literal from `t`, the text after
   * the opening quotes: `\\` and `\"` are escapes, the first unescaped `"""`
   * closes the literal, and the value is returned only when that closing is
   * the end of `t`. Any other escape is outside what the generated code
   * holds and gives `None`, as does a literal that never closes.
   */
  function ReadLiteral(t: string): Option<string>
    decreases |t|
  {
    if t == [] then None
    else if OccursAt(t, TripleQuote, 0) then (if |t| == 3 then Some([]) else None)
    else if t[0] == '\\' then
      if |t| >= 2 && (t[1] == '\\' || t[1] == '"') then
        var v :- ReadLiteral(t[2..]);
        Some([t[1]] + v)
      else None
    else
      var v :- ReadLiteral(t[1..]);
      Some([t[0]] + v)
  }

  /** The docstring value the generated code carries: the body with each backslash doubled. */
  function DoubleBackslashes(s: string): string
    decreases |s|
  {
    if s == [] then [] else (if s[0] == '\\' then "\\\\" else [s[0]]) + DoubleBackslashes(s[1..])
  }

  lemma QuadrupleStep(s: string)
    requires s != []
    ensures QuadrupleBackslashes(s) == (if s[0] == '\\' then FourBackslashes else [s[0]]) + QuadrupleBackslashes(s[1..])
  {
  }

  /** Quadrupling backslashes keeps a leading run of up to three quotes. */
  lemma {:induction false} QuadrupleKeepsLeadingQuotes(s: string, n: nat)
    requires n <= 3
    ensures StartsWith(QuadrupleBackslashes(s), TripleQuote[..n]) <==> StartsWith(s, TripleQuote[..n])
    decreases n
  {
    if n > 0 && s != [] {
      QuadrupleStep(s);
      var q := QuadrupleBackslashes(s);
      if s[0] == '"' {
        QuadrupleKeepsLeadingQuotes(s[1..], n - 1);
        assert TripleQuote[..n] == ['"'] + TripleQuote[..n - 1];
        assert q == ['"'] + QuadrupleBackslashes(s[1..]);
        assert s == ['"'] + s[1..];
        StartsWithCons('"', QuadrupleBackslashes(s[1..]), TripleQuote[..n - 1]);
        StartsWithCons('"', s[1..], TripleQuote[..n - 1]);
      } else {
        assert q[0] != '"';
      }
    }
  }

  lemma StartsWithCons(c: char, x: string, p: string)
    ensures StartsWith([c] + x, [c] + p) <==> StartsWith(x, p)
  {
    if StartsWith(x, p) {
      assert ([c] + x)[..|p| + 1] == [c] + x[..|p|];
    }
    if StartsWith([c] + x, [c] + p) {
      assert x[..|p|] == ([c] + x)[..|p| + 1][1..];
    }
  }

  lemma ReplaceTripleQuotePlain(c: char, rest: string)
    requires c != '"'
    ensures ReplaceAll([c] + rest, TripleQuote, EscapedTripleQuote) == [c] + ReplaceAll(rest, TripleQuote, EscapedTripleQuote)
  {
    assert ([c] + rest)[1..] == rest;
  }

  /** How the escape treats the first character (or the first three quotes) of a body. */
  lemma EscapeStep(s: string)
    requires s != []
    ensures StartsWith(s, TripleQuote) ==> EscapeCode(s) == EscapedTripleQuote + EscapeCode(s[3..])
    ensures !StartsWith(s, TripleQuote) && s[0] == '\\' ==> EscapeCode(s) == FourBackslashes + EscapeCode(s[1..])
    ensures !StartsWith(s, TripleQuote) && s[0] != '\\' ==> EscapeCode(s) == [s[0]] + EscapeCode(s[1..])
  {
    if StartsWith(s, TripleQuote) {
      EscapeStepQuotes(s);
    } else if s[0] == '\\' {
      EscapeStepBackslash(s);
    } else {
      EscapeStepOther(s);
    }
  }

  lemma EscapeStepQuotes(s: string)
    requires StartsWith(s, TripleQuote)
    ensures EscapeCode(s) == EscapedTripleQuote + EscapeCode(s[3..])
  {
    var q := QuadrupleBackslashes;
    QuadrupleStep(s);
    QuadrupleStep(s[1..]);
    QuadrupleStep(s[2..]);
    QuadrupleKeepsLeadingQuotes(s, 3);
    assert TripleQuote[..3] == TripleQuote;
    assert s[1..][1..] == s[2..] && s[2..][1..] == s[3..];
    assert q(s) == TripleQuote + q(s[3..]);
    assert (TripleQuote + q(s[3..]))[3..] == q(s[3..]);
  }

  lemma EscapeStepBackslash(s: string)
    requires s != [] && s[0] == '\\'
    ensures EscapeCode(s) == FourBackslashes + EscapeCode(s[1..])
  {
    var q := QuadrupleBackslashes;
    QuadrupleStep(s);
    var r := q(s[1..]);
    assert q(s) == [s[0]] + ([s[0]] + ([s[0]] + ([s[0]] + r)));
    ReplaceTripleQuotePlain(s[0], [s[0]] + ([s[0]] + ([s[0]] + r)));
    ReplaceTripleQuotePlain(s[0], [s[0]] + ([s[0]] + r));
    ReplaceTripleQuotePlain(s[0], [s[0]] + r);
    ReplaceTripleQuotePlain(s[0], r);
  }

  lemma EscapeStepOther(s: string)
    requires s != [] && !StartsWith(s, TripleQuote) && s[0] != '\\'
    ensures EscapeCode(s) == [s[0]] + EscapeCode(s[1..])
  {
    var q := QuadrupleBackslashes;
    QuadrupleStep(s);
    if s[0] == '"' {
      QuadrupleKeepsLeadingQuotes(s, 3);
      assert !StartsWith(q(s), TripleQuote);
      assert q(s)[1..] == q(s[1..]);
    } else {
      ReplaceTripleQuotePlain(s[0], q(s[1..]));
    }
  }

  /** The escape of a non-empty body begins with an unescaped quote exactly when the body begins with a quote that is not one of three. */
  lemma EscapeHead(s: string)
    requires s != []
    ensures EscapeCode(s) != []
    ensures EscapeCode(s)[0] == '"' <==> s[0] == '"' && !StartsWith(s, TripleQuote)
  {
    EscapeStep(s);
  }

  /**
   * The escape is sound for every fence body: the docstring of the generated
   * function closes exactly at the quotes placed after the body, and its value
   * is the body with each backslash doubled, every quote kept. A body that
   * ended with a quote would be cut short, but a fence body is empty or ends
   * with a newline (`FenceBodyEndsWithNewline`).
   */
  lemma {:induction false} EscapeCodeReadsBack(s: string)
    requires s == [] || s[|s| - 1] != '"'
    ensures ReadLiteral(EscapeCode(s) + TripleQuote) == Some(DoubleBackslashes(s))
    decreases |s|
  {
    if s == [] {
      assert EscapeCode(s) + TripleQuote == TripleQuote;
    } else {
      EscapeStep(s);
      if StartsWith(s, TripleQuote) {
        EscapeCodeReadsBack(s[3..]);
        ReadBackTripleQuote(EscapeCode(s[3..]), DoubleBackslashes(s[3..]));
        DoubleBackslashesQuotes(s);
      } else if s[0] == '\\' {
        EscapeCodeReadsBack(s[1..]);
        ReadBackBackslash(EscapeCode(s[1..]), DoubleBackslashes(s[1..]));
      } else {
        EscapeCodeReadsBack(s[1..]);
        if s[0] == '"' {
          NoEarlyClose(s);
        }
        ReadBackPlain(s[0], EscapeCode(s[1..]), DoubleBackslashes(s[1..]));
      }
    }
  }

  lemma ReadBackTripleQuote(e: string, v: string)
    requires ReadLiteral(e + TripleQuote) == Some(v)
    ensures ReadLiteral(EscapedTripleQuote + e + TripleQuote) == Some(TripleQuote + v)
  {
    var r0 := e + TripleQuote;
    var r1 := ['\\', '"'] + r0;
    var r2 := ['\\', '"'] + r1;
    ReadEscaped('"', r0, v);
    ReadEscaped('"', r1, ['"'] + v);
    ReadEscaped('"', r2, ['"'] + (['"'] + v));
    EscapedQuotesThen(e);
    QuotesThen(v);
  }

  lemma EscapedQuotesThen(e: string)
    ensures ['\\', '"'] + (['\\', '"'] + (['\\', '"'] + (e + TripleQuote))) == EscapedTripleQuote + e + TripleQuote
  {
  }

  lemma QuotesThen(v: string)
    ensures ['"'] + (['"'] + (['"'] + v)) == TripleQuote + v
  {
  }

  lemma ReadBackBackslash(e: string, v: string)
    requires ReadLiteral(e + TripleQuote) == Some(v)
    ensures ReadLiteral(FourBackslashes + e + TripleQuote) == Some("\\\\" + v)
  {
    var r0 := e + TripleQuote;
    var r1 := ['\\', '\\'] + r0;
    ReadEscaped('\\', r0, v);
    ReadEscaped('\\', r1, ['\\'] + v);
    assert ['\\', '\\'] + r1 == FourBackslashes + e + TripleQuote;
    assert ['\\'] + (['\\'] + v) == "\\\\" + v;
  }

  lemma ReadBackPlain(c: char, e: string, v: string)
    requires c != '\\'
    requires c == '"' ==> !StartsWith(e + TripleQuote, "\"\"")
    requires ReadLiteral(e + TripleQuote) == Some(v)
    ensures ReadLiteral([c] + e + TripleQuote) == Some([c] + v)
  {
    var r := e + TripleQuote;
    var t := [c] + r;
    assert [c] + e + TripleQuote == t;
    assert t[0] == c && t[1..] == r;
    if c == '"' && |t| >= 3 {
      assert t[1..3] == r[..2];
    }
  }

  /** After a lone leading quote, the escaped rest does not begin with two quotes. */
  lemma NoEarlyClose(s: string)
    requires s != [] && s[0] == '"' && !StartsWith(s, TripleQuote) && s[|s| - 1] != '"'
    ensures !StartsWith(EscapeCode(s[1..]) + TripleQuote, "\"\"")
  {
    var s' := s[1..];
    EscapeHead(s');
    var r := EscapeCode(s') + TripleQuote;
    assert r[0] == EscapeCode(s')[0];
    if s'[0] == '"' {
      assert s == ['"'] + s';
      StartsWithCons('"', s', TripleQuote[..2]);
      assert TripleQuote == ['"'] + TripleQuote[..2];
      assert |s'| >= 2 && s'[1] != '"';
      assert !StartsWith(s', TripleQuote);
      EscapeStep(s');
      assert EscapeCode(s') == ['"'] + EscapeCode(s'[1..]);
      EscapeHead(s'[1..]);
      assert r[1] == EscapeCode(s'[1..])[0];
    }
  }

  /** Reading one escape pair `\c` for `c` a backslash or a quote. */
  lemma ReadEscaped(c: char, rest: string, v: string)
    requires c == '\\' || c == '"'
    requires ReadLiteral(rest) == Some(v)
    ensures ReadLiteral(['\\', c] + rest) == Some([c] + v)
  {
    var t := ['\\', c] + rest;
    assert t[0] == '\\' && t[1] == c && !OccursAt(t, TripleQuote, 0);
    assert t[2..] == rest;
  }

  lemma DoubleBackslashesQuotes(s: string)
    requires StartsWith(s, TripleQuote)
    ensures DoubleBackslashes(s) == TripleQuote + DoubleBackslashes(s[3..])
  {
    assert s[0] == '"' && s[1] == '"' && s[2] == '"' by {
      assert s[..3] == TripleQuote;
    }
    assert s[1..][1..] == s[2..] && s[2..][1..] == s[3..];
    var d3 := DoubleBackslashes(s[3..]);
    assert DoubleBackslashes(s[2..]) == "\"" + d3;
    assert DoubleBackslashes(s[1..]) == "\"" + ("\"" + d3);
    assert DoubleBackslashes(s) == "\"" + ("\"" + ("\"" + d3));
  }

  /**
   * The escaped text may still contain three quotes in a row: five quotes
   * become `\"\"\"""`. The run starts with an escaped quote, so Python does
   * not close the docstring there (`EscapeCodeReadsBack`).
   */
  lemma EscapeCodeCanHoldTripleQuote()
    ensures OccursAt(EscapeCode("\"\"\"\"\"\n"), TripleQuote, 5)
  {
    var s := "\"\"\"\"\"\n";
    EscapeStep(s);
    assert s[3..] == "\"\"\n";
    EscapeStep("\"\"\n");
    assert "\"\"\n"[1..] == "\"\n";
    EscapeStep("\"\n");
    assert "\"\n"[1..] == "\n";
    EscapeStep("\n");
    assert "\n"[1..] == "";
    assert EscapeCode("") == "";
    assert EscapeCode(s) == "\\\"\\\"\\\"\"\"\n";
  }

  // ---------------------------------------------------------------------------
  // The pipeline: enumerate all fences, keep the python ones, name and emit them.

  /** The tags that mark a fence as Python code. */
  predicate IsPython(tag: string)
  {
    tag == "py" || tag == "python"
  }

  /** One generated test: its name after `test_` and its escaped body. */
  datatype TestCase = TestCase(title: string, code: string)

  /** The test made from fence number `k` (counted among all fences). */
  function CaseFor(fs: seq<Fence>, hs: seq<Header>, k: nat): TestCase
    requires k < |fs|
  {
    TestCase(Title(HeaderFor(hs, fs[k].start), k), EscapeCode(fs[k].body))
  }

  /** `enumerate`, then `filter_star` on the tag, then `map_star` to a test. */
  function PyTests(fs: seq<Fence>, hs: seq<Header>): seq<TestCase>
    decreases |fs|
  {
    if fs == [] then []
    else
      var n := |fs| - 1;
      PyTests(fs[..n], hs) + (if IsPython(fs[n].tag) then [CaseFor(fs, hs, n)] else [])
  }

  /** The ordinals of the python fences, in increasing order and all of them. */
  function PythonIndices(fs: seq<Fence>): (ix: seq<nat>)
    ensures forall j :: 0 <= j < |ix| ==> ix[j] < |fs| && IsPython(fs[ix[j]].tag)
    ensures forall j, j' :: 0 <= j < j' < |ix| ==> ix[j] < ix[j']
    ensures forall k :: 0 <= k < |fs| && IsPython(fs[k].tag) ==> k in ix
    decreases |fs|
  {
    if fs == [] then []
    else
      var n := |fs| - 1;
      var init := PythonIndices(fs[..n]);
      assert forall k :: 0 <= k < n ==> fs[..n][k] == fs[k];
      init + (if IsPython(fs[n].tag) then [n] else [])
  }

  /**
   * The tests are exactly the python fences in document order: test `j` comes
   * from the `j`-th python fence and is named with that fence's ordinal.
   */
  lemma {:induction false} PyTestsAtPythonFences(fs: seq<Fence>, hs: seq<Header>)
    ensures |PyTests(fs, hs)| == |PythonIndices(fs)|
    ensures forall j :: 0 <= j < |PyTests(fs, hs)| ==> PyTests(fs, hs)[j] == CaseFor(fs, hs, PythonIndices(fs)[j])
    decreases |fs|
  {
    if fs != [] {
      var n := |fs| - 1;
      var init := fs[..n];
      PyTestsAtPythonFences(init, hs);
      forall k | 0 <= k < n ensures CaseFor(init, hs, k) == CaseFor(fs, hs, k) {
        assert init[k] == fs[k];
      }
    }
  }

  /** No two generated tests share a name. */
  lemma PyTestTitlesDistinct(fs: seq<Fence>, hs: seq<Header>, j: nat, j': nat)
    requires j < j' < |PyTests(fs, hs)|
    ensures PyTests(fs, hs)[j].title != PyTests(fs, hs)[j'].title
  {
    PyTestsAtPythonFences(fs, hs);
    var ix := PythonIndices(fs);
    TitlesOfDifferentFencesDiffer(HeaderFor(hs, fs[ix[j]].start), ix[j], HeaderFor(hs, fs[ix[j']].start), ix[j']);
  }

  /** `_to_func`: the text of one generated function. */
  function ToFunc(t: TestCase): string
  {
    "def test_" + t.title + "():\n    \"\"\"" + t.code + "\"\"\"\n    pass\n"
  }

  function Render(ts: seq<TestCase>): (r: seq<string>)
    ensures |r| == |ts| && forall j :: 0 <= j < |ts| ==> r[j] == ToFunc(ts[j])
    decreases |ts|
  {
    if ts == [] then [] else [ToFunc(ts[0])] + Render(ts[1..])
  }

  /** `parse_markdown`: the test cases of a markdown text. */
  function MarkdownTests(content: string): seq<TestCase>
  {
    PyTests(Fences(content), Headers(content))
  }

  /** `parse_markdown`: one function text per python fence. */
  function ParseMarkdown(content: string): seq<string>
  {
    Render(MarkdownTests(content))
  }

  /**
   * What each generated test holds: its name is a well-formed identifier tail
   * carrying the ordinal of a python fence of the text, its docstring reads
   * back as that fence's body (backslashes doubled), and the header it is
   * named after is the closest one before the fence, or the default name.
   */
  lemma MarkdownTestSpec(content: string, j: nat)
    requires j < |MarkdownTests(content)|
    ensures var fs, t := Fences(content), MarkdownTests(content)[j];
      var k := TitleIndex(t.title);
      && k < |fs| && IsPython(fs[k].tag) && IsFence(content, fs[k].start, fs[k])
      && t.title == Title(HeaderFor(Headers(content), fs[k].start), k)
      && ReadLiteral(t.code + TripleQuote) == Some(DoubleBackslashes(fs[k].body))
    ensures var t := MarkdownTests(content)[j];
      t.title != [] && t.title[0] != '_' && t.title[|t.title| - 1] != '_'
      && forall i :: 0 <= i < |t.title| ==> IsWordChar(t.title[i])
  {
    var fs, hs := Fences(content), Headers(content);
    PyTestsAtPythonFences(fs, hs);
    var k := PythonIndices(fs)[j];
    CaseSpec(content, fs[k], HeaderFor(hs, fs[k].start), k, MarkdownTests(content)[j]);
  }

  /** What the test made from fence `f`, numbered `k` and named after `h`, holds. */
  lemma CaseSpec(content: string, f: Fence, h: string, k: nat, t: TestCase)
    requires f.start <= |content| && FenceAt(content, f.start) == Some(f)
    requires t == TestCase(Title(h, k), EscapeCode(f.body))
    ensures TitleIndex(t.title) == k && IsFence(content, f.start, f)
    ensures ReadLiteral(t.code + TripleQuote) == Some(DoubleBackslashes(f.body))
    ensures t.title != [] && t.title[0] != '_' && t.title[|t.title| - 1] != '_'
    ensures forall i :: 0 <= i < |t.title| ==> IsWordChar(t.title[i])
  {
    TitleIndexRoundTrip(h, k);
    TitleShape(h, k);
    FenceBodyEndsWithNewline(content, f.start, f);
    EscapeCodeReadsBack(f.body);
  }

  /** Every python fence of the text yields a test, and nothing else does. */
  lemma MarkdownTestCount(content: string)
    ensures |MarkdownTests(content)| == |PythonIndices(Fences(content))|
  {
    PyTestsAtPythonFences(Fences(content), Headers(content));
  }
}
