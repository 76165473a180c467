/**
 * The stub tester's synthesiser: every definition with a docstring in a stub
 * file becomes a test function whose docstring is the original one with its
 * markdown fence lines removed, so that pytest's doctest collection runs the
 * examples it contains.
 */
module StubTests {
  import opened Text
  import opened Scan
  import opened Models
  import StubPattern
  import Paths

  // ---------------------------------------------------------------------------
  // Lines of a docstring.

  /**
   * A fence line: white space, three backticks, an optional tag of word
   * characters, white space; `i` is where the backticks start and `j` where
   * the tag ends.
   */
  predicate FenceLineSplit(l: string, i: nat, j: nat)
  {
    i + 3 <= j <= |l|
    && IsBlank(l[..i]) && OccursAt(l, Backticks, i)
    && (forall k :: i + 3 <= k < j ==> IsWordChar(l[k]))
    && IsBlank(l[j..])
  }

  predicate IsFenceLine(l: string)
  {
    exists i: nat, j: nat :: i <= |l| && j <= |l| && FenceLineSplit(l, i, j)
  }

  /** A line that carries something other than white space and a fence. */
  predicate IsContentLine(l: string)
  {
    !IsBlank(l) && !IsFenceLine(l)
  }

  /** The strings that a `str.strip` filter keeps, in order. */
  function NonBlank(ls: seq<string>): seq<string>
    decreases |ls|
  {
    if ls == [] then []
    else (if IsBlank(ls[0]) then [] else [ls[0]]) + NonBlank(ls[1..])
  }

  /** The content lines, in order. */
  function ContentLines(ls: seq<string>): seq<string>
    decreases |ls|
  {
    if ls == [] then []
    else (if IsContentLine(ls[0]) then [ls[0]] else []) + ContentLines(ls[1..])
  }

  lemma {:induction false} ContentLinesAppend(xs: seq<string>, ys: seq<string>)
    ensures ContentLines(xs + ys) == ContentLines(xs) + ContentLines(ys)
    decreases |xs|
  {
    if xs != [] {
      assert (xs + ys)[1..] == xs[1..] + ys;
      ContentLinesAppend(xs[1..], ys);
    } else {
      assert xs + ys == ys;
    }
  }

  lemma {:induction false} NoContentInBlankLines(ls: seq<string>)
    requires forall k :: 0 <= k < |ls| ==> IsBlank(ls[k])
    ensures ContentLines(ls) == []
    decreases |ls|
  {
    if ls != [] {
      NoContentInBlankLines(ls[1..]);
    }
  }

  /** Every line of a blank text is blank. */
  lemma {:induction false} BlankTextHasBlankLines(w: string)
    requires IsBlank(w)
    ensures forall k :: 0 <= k < |Split(w, '\n')| ==> IsBlank(Split(w, '\n')[k])
    decreases |w|
  {
    if w != [] {
      BlankTextHasBlankLines(w[1..]);
      SplitCons(w[0], w[1..], '\n');
      assert [w[0]] + w[1..] == w;
    }
  }

  /** Splitting after a line terminated by a newline. */
  lemma SplitAfterLine(l: string, rest: string)
    requires '\n' !in l
    ensures Split(l + "\n" + rest, '\n') == [l] + Split(rest, '\n')
  {
    SplitNoSep(l, '\n');
    SplitAppend(l, "\n" + rest, '\n');
    SplitCons('\n', rest, '\n');
    assert l + "\n" + rest == l + ("\n" + rest);
    assert ("\n" + rest)[1..] == rest;
    assert Fuse([l], [""] + Split(rest, '\n')) == [l + ""] + Split(rest, '\n');
    assert l + "" == l;
  }

  /** The lines of a text that a newline or the end follows. */
  lemma SplitBeforeNewline(a: string, b: string)
    requires b == [] || b[0] == '\n'
    ensures Split(a + b, '\n') == Split(a, '\n') + Split(b, '\n')[1..]
    ensures Split(b, '\n')[0] == ""
  {
    SplitAppend(a, b, '\n');
    if b != [] {
      SplitCons('\n', b[1..], '\n');
      assert [b[0]] + b[1..] == b;
    }
    var sa, sb := Split(a, '\n'), Split(b, '\n');
    assert sb[0] == "";
    assert sa[|sa| - 1] + "" == sa[|sa| - 1];
    assert sa[..|sa| - 1] + [sa[|sa| - 1]] == sa;
  }

  // ---------------------------------------------------------------------------
  // re.sub(r"^\s*```\w*\s*$", "", docstring, flags=re.MULTILINE)
  //
  // At a line start, `\s*` runs up to the first character that is not white
  // space (across newlines); the backticks must be there, since a shorter run
  // leaves white space before them. The tag `\w*` is maximal, since white space
  // or a line end must follow it. The final `\s*` runs greedily, possibly over
  // newlines; `$` then holds at the end of the text or, giving characters back,
  // at the last newline of the run. A match thus removes whole lines: some
  // blank lines, a fence line and the blank lines after it, but never the
  // newline that ends the last of them.

  /** Where the fence-line match that begins at `p` ends, if there is one. */
  function FenceLineEnd(s: string, p: nat): (r: Option<nat>)
    requires p <= |s|
    ensures r.Some? ==> IsLineStart(s, p) && p < r.value && IsLineEnd(s, r.value)
  {
    if !IsLineStart(s, p) then None else
    var a := RunEnd(s, p, IsSpace);
    if !OccursAt(s, Backticks, a) then None else
    var b := RunEnd(s, a + 3, IsWordChar);
    var c := RunEnd(s, b, IsSpace);
    if c == |s| then Some(c) else LastWhere(s, b, c, IsNewline)
  }

  /** What a match removes has no content line. */
  lemma MatchHasNoContent(s: string, p: nat)
    requires p <= |s| && FenceLineEnd(s, p).Some?
    ensures ContentLines(Split(s[p..FenceLineEnd(s, p).value], '\n')) == []
  {
    var a := RunEnd(s, p, IsSpace);
    var b := RunEnd(s, a + 3, IsWordChar);
    MatchedLinesHaveNoContent(s, p, a, b, FenceLineEnd(s, p).value);
  }

  /** A matched stretch of text holds blank lines and one fence line. */
  lemma MatchedLinesHaveNoContent(s: string, p: nat, a: nat, b: nat, e: nat)
    requires p <= a && a + 3 <= b <= e <= |s|
    requires forall k :: p <= k < a ==> IsSpace(s[k])
    requires OccursAt(s, Backticks, a)
    requires forall k :: a + 3 <= k < b ==> IsWordChar(s[k])
    requires forall k :: b <= k < e ==> IsSpace(s[k])
    ensures ContentLines(Split(s[p..e], '\n')) == []
  {
    var w1, m, w2 := s[p..a], s[a..b], s[b..e];
    assert s[p..e] == w1 + m + w2;
    assert IsBlank(w1) && IsBlank(w2);
    assert m[..3] == Backticks;
    assert forall k :: 3 <= k < |m| ==> IsWordChar(m[k]) by {
      forall k | 3 <= k < |m| ensures IsWordChar(m[k]) {
        assert m[k] == s[a + k];
      }
    }
    BlanksAroundFenceHaveNoContent(w1, m, w2);
  }

  lemma BlanksAroundFenceHaveNoContent(w1: string, m: string, w2: string)
    requires IsBlank(w1) && IsBlank(w2)
    requires |m| >= 3 && m[..3] == Backticks
    requires forall k :: 3 <= k < |m| ==> IsWordChar(m[k])
    ensures ContentLines(Split(w1 + m + w2, '\n')) == []
  {
    assert '\n' !in m by {
      forall k | 0 <= k < |m| ensures m[k] != '\n' {
        if k < 3 { assert m[k] == Backticks[k]; }
      }
    }
    BlankTextHasBlankLines(w1);
    BlankTextHasBlankLines(w2);
    var sa, sb := Split(w1, '\n'), Split(w2, '\n');
    var n := |sa|;
    var line := sa[n - 1] + m + sb[0];
    SplitAroundLine(w1, m, w2);
    assert FenceLineSplit(line, |sa[n - 1]|, |sa[n - 1]| + |m|) by {
      assert line[..|sa[n - 1]|] == sa[n - 1];
      assert line[|sa[n - 1]| + |m|..] == sb[0];
      assert line[|sa[n - 1]|..|sa[n - 1]| + 3] == m[..3];
      forall k | |sa[n - 1]| + 3 <= k < |sa[n - 1]| + |m| ensures IsWordChar(line[k]) {
        assert line[k] == m[k - |sa[n - 1]|];
      }
    }
    assert IsFenceLine(line);
    NoContentInBlankLines(sa[..n - 1]);
    NoContentInBlankLines(sb[1..]);
    ContentLinesAppend(sa[..n - 1], [line]);
    ContentLinesAppend(sa[..n - 1] + [line], sb[1..]);
  }

  /** The lines of `w1 + m + w2` when `m` has no newline. */
  lemma SplitAroundLine(w1: string, m: string, w2: string)
    requires '\n' !in m
    ensures var sa, sb := Split(w1, '\n'), Split(w2, '\n');
      Split(w1 + m + w2, '\n') == sa[..|sa| - 1] + [sa[|sa| - 1] + m + sb[0]] + sb[1..]
  {
    SplitNoSep(m, '\n');
    SplitAppend(w1, m, '\n');
    SplitAppend(w1 + m, w2, '\n');
    var sa := Split(w1, '\n');
    var sm := sa[..|sa| - 1] + [sa[|sa| - 1] + m];
    assert Split(w1 + m, '\n') == sm;
    assert sm[..|sm| - 1] == sa[..|sa| - 1];
  }

  /** A fence line at a line start is always matched there. */
  lemma FenceLineIsMatched(s: string, p: nat)
    requires p <= |s|
    ensures IsLineStart(s, p) && IsFenceLine(s[p..LineEndFrom(s, p)]) ==> FenceLineEnd(s, p).Some?
  {
    var nl := LineEndFrom(s, p);
    var l := s[p..nl];
    if IsLineStart(s, p) && IsFenceLine(l) {
      var i: nat, j: nat :| FenceLineSplit(l, i, j);
      assert FenceLineSplit(l, i, j);
      assert p + j <= nl <= |s|;
      forall k | p <= k < p + i ensures IsSpace(s[k]) {
        assert l[..i][k - p] == s[k];
      }
      assert OccursAt(s, Backticks, p + i) by {
        forall t | 0 <= t < 3 ensures s[p + i..p + i + 3][t] == Backticks[t] {
          assert s[p + i + t] == l[i + t] == l[i..i + 3][t];
        }
      }
      forall k | p + i + 3 <= k < p + j ensures IsWordChar(s[k]) {
        assert s[k] == l[k - p];
      }
      forall k | p + j <= k < nl ensures IsSpace(s[k]) {
        assert s[k] == l[j..][k - p - j];
      }
      FenceAtLineStartIsMatched(s, p, p + i, p + j, nl);
    }
  }

  lemma FenceAtLineStartIsMatched(s: string, p: nat, a: nat, j: nat, nl: nat)
    requires IsLineStart(s, p) && p <= a && a + 3 <= j <= nl && IsLineEnd(s, nl)
    requires forall k :: p <= k < a ==> IsSpace(s[k])
    requires OccursAt(s, Backticks, a)
    requires forall k :: a + 3 <= k < j ==> IsWordChar(s[k])
    requires forall k :: j <= k < nl ==> IsSpace(s[k])
    ensures FenceLineEnd(s, p).Some?
  {
    assert s[a] == Backticks[0];
    assert RunEnd(s, p, IsSpace) == a;
    var b := RunEnd(s, a + 3, IsWordChar);
    assert b == j by {
      if j < nl {
        assert IsSpace(s[j]);
      }
    }
    var c := RunEnd(s, b, IsSpace);
    assert nl < c || c == |s|;
    if c != |s| {
      assert s[nl] == '\n';
      assert LastWhere(s, b, c, IsNewline).Some?;
    }
  }

  // ---------------------------------------------------------------------------
  // `re.sub(pattern, "", s)` for a MULTILINE pattern whose matches are whole
  // lines: `at(p)` is where the match that begins at `p` ends, if there is one.

  /** Every match starts a line and ends, further on, at a line end. */
  predicate LineMatcher(s: string, at: nat -> Option<nat>)
  {
    forall p: nat :: p < |s| && at(p).Some? ==> IsLineStart(s, p) && p < at(p).value <= |s| && IsLineEnd(s, at(p).value)
  }

  /** `re.sub` from position `p`: matches are dropped, other characters kept. */
  function RemoveMatches(s: string, p: nat, at: nat -> Option<nat>): string
    requires p <= |s| && LineMatcher(s, at)
    decreases |s| - p
  {
    if p == |s| then []
    else match at(p)
      case Some(e) => RemoveMatches(s, e, at)
      case None => [s[p]] + RemoveMatches(s, p + 1, at)
  }

  /** The fence-line pattern tried at each position of `s`. */
  function FenceLineMatcher(s: string): (at: nat -> Option<nat>)
    ensures LineMatcher(s, at)
  {
    (p: nat) => if p < |s| then FenceLineEnd(s, p) else None
  }

  /** The cleaned docstring. */
  function Clean(docstring: string): string
  {
    RemoveMatches(docstring, 0, FenceLineMatcher(docstring))
  }

  /**
   * A matcher of whole lines that drops no content line, and matches every
   * fence line it is tried on.
   */
  predicate FenceLineRemover(s: string, at: nat -> Option<nat>)
  {
    && LineMatcher(s, at)
    && (forall p: nat :: p < |s| && at(p).Some? ==> ContentLines(Split(s[p..at(p).value], '\n')) == [])
    && (forall p: nat :: p < |s| && at(p).None? && IsLineStart(s, p) ==> !IsFenceLine(s[p..LineEndFrom(s, p)]))
  }

  lemma FenceLineMatcherRemovesFenceLines(s: string)
    ensures FenceLineRemover(s, FenceLineMatcher(s))
  {
    var at := FenceLineMatcher(s);
    forall p: nat | p < |s| && at(p).Some? ensures ContentLines(Split(s[p..at(p).value], '\n')) == [] {
      assert at(p) == FenceLineEnd(s, p);
      MatchHasNoContent(s, p);
    }
    forall p: nat | p < |s| && at(p).None? && IsLineStart(s, p) ensures !IsFenceLine(s[p..LineEndFrom(s, p)]) {
      assert at(p) == FenceLineEnd(s, p);
      FenceLineIsMatched(s, p);
    }
  }

  /** A line with no match at its start is copied through its newline. */
  lemma {:induction false} CopyLine(s: string, q: nat, nl: nat, at: nat -> Option<nat>)
    requires LineMatcher(s, at)
    requires q <= nl <= |s| && IsLineEnd(s, nl)
    requires forall k :: q <= k < nl ==> s[k] != '\n'
    requires q < |s| ==> at(q).None?
    ensures nl < |s| ==> RemoveMatches(s, q, at) == s[q..nl] + "\n" + RemoveMatches(s, nl + 1, at)
    ensures nl == |s| ==> RemoveMatches(s, q, at) == s[q..]
    decreases nl - q
  {
    if q < |s| {
      RemoveStep(s, q, at);
    }
    if q == nl && nl < |s| {
      assert s[q..nl] == [];
    } else if q < nl {
      CopyLine(s, q + 1, nl, at);
      assert s[q..nl] == [s[q]] + s[q + 1..nl];
      if nl < |s| {
        var x := RemoveMatches(s, nl + 1, at);
        assert [s[q]] + (s[q + 1..nl] + "\n" + x) == ([s[q]] + s[q + 1..nl]) + "\n" + x;
      } else {
        assert [s[q]] + s[q + 1..] == s[q..];
      }
    }
  }

  /** One step of `re.sub`. */
  lemma RemoveStep(s: string, p: nat, at: nat -> Option<nat>)
    requires LineMatcher(s, at)
    requires p < |s|
    ensures at(p).None? ==> RemoveMatches(s, p, at) == [s[p]] + RemoveMatches(s, p + 1, at)
    ensures at(p).Some? ==> RemoveMatches(s, p, at) == RemoveMatches(s, at(p).value, at)
  {
  }

  /**
   * From a line start (or a newline that a match left behind), the non-blank
   * lines of what `re.sub` produces are the content lines of the original.
   */
  lemma {:induction false} RemoveKeepsContentLines(s: string, p: nat, at: nat -> Option<nat>)
    requires FenceLineRemover(s, at)
    requires p <= |s|
    requires p == |s| || IsLineStart(s, p) || s[p] == '\n'
    ensures NonBlank(Split(RemoveMatches(s, p, at), '\n')) == ContentLines(Split(s[p..], '\n'))
    decreases |s| - p, 1
  {
    if p == |s| {
      assert s[p..] == [];
    } else {
      var m := at(p);
      match m
      case Some(e) =>
        RemoveKeepsContentLines(s, e, at);
        MatchDropsNoContent(s, p, e, at);
      case None =>
        UnmatchedLineIsCopied(s, p, at);
    }
  }

  /** The step of the induction where a match starts at `p`. */
  lemma MatchDropsNoContent(s: string, p: nat, e: nat, at: nat -> Option<nat>)
    requires FenceLineRemover(s, at)
    requires p < |s| && at(p) == Some(e)
    requires NonBlank(Split(RemoveMatches(s, e, at), '\n')) == ContentLines(Split(s[e..], '\n'))
    ensures NonBlank(Split(RemoveMatches(s, p, at), '\n')) == ContentLines(Split(s[p..], '\n'))
  {
    RemoveStep(s, p, at);
    SliceAt(s, p, e);
    DropMatched(RemoveMatches(s, e, at), s[p..e], s[e..], s[p..]);
  }

  lemma SliceAt(s: string, p: nat, e: nat)
    requires p <= e <= |s|
    ensures s[p..] == s[p..e] + s[e..]
  {
  }

  /** Text without content lines before the rest, which starts a line, adds no content line. */
  lemma DropMatched(r: string, x: string, t: string, u: string)
    requires u == x + t
    requires ContentLines(Split(x, '\n')) == [] && (t == [] || t[0] == '\n')
    requires NonBlank(Split(r, '\n')) == ContentLines(Split(t, '\n'))
    ensures NonBlank(Split(r, '\n')) == ContentLines(Split(u, '\n'))
  {
    SkipMatchedLines(x, t);
  }

  /** The step of the induction where no match starts at `p`. */
  lemma {:induction false} UnmatchedLineIsCopied(s: string, p: nat, at: nat -> Option<nat>)
    requires FenceLineRemover(s, at)
    requires p < |s| && (IsLineStart(s, p) || s[p] == '\n') && at(p).None?
    ensures NonBlank(Split(RemoveMatches(s, p, at), '\n')) == ContentLines(Split(s[p..], '\n'))
    decreases |s| - p, 0
  {
    var nl := LineEndFrom(s, p);
    if nl < |s| {
      RemoveKeepsContentLines(s, nl + 1, at);
    }
    CopyUnmatchedLine(s, p, nl, at);
  }

  lemma CopyUnmatchedLine(s: string, p: nat, nl: nat, at: nat -> Option<nat>)
    requires FenceLineRemover(s, at)
    requires p < |s| && (IsLineStart(s, p) || s[p] == '\n') && at(p).None?
    requires nl == LineEndFrom(s, p)
    requires nl < |s| ==>
      NonBlank(Split(RemoveMatches(s, nl + 1, at), '\n')) == ContentLines(Split(s[nl + 1..], '\n'))
    ensures NonBlank(Split(RemoveMatches(s, p, at), '\n')) == ContentLines(Split(s[p..], '\n'))
  {
    var l := s[p..nl];
    assert !IsFenceLine(l) by {
      if !IsLineStart(s, p) {
        assert nl == p;
      }
    }
    CopyLine(s, p, nl, at);
    if nl == |s| {
      assert l == s[p..];
      LastLineIsCopied(s, p);
    } else {
      LineThenRest(s, p, nl);
      KeepLine(l, RemoveMatches(s, nl + 1, at), s[nl + 1..]);
    }
  }

  lemma LastLineIsCopied(s: string, p: nat)
    requires p <= |s| && '\n' !in s[p..] && !IsFenceLine(s[p..])
    ensures NonBlank(Split(s[p..], '\n')) == ContentLines(Split(s[p..], '\n'))
  {
    var l := s[p..];
    SplitNoSep(l, '\n');
    assert [l][1..] == [];
  }

  lemma LineThenRest(s: string, p: nat, nl: nat)
    requires p <= nl < |s| && s[nl] == '\n'
    ensures s[p..] == s[p..nl] + "\n" + s[nl + 1..]
  {
    assert s[p..] == s[p..nl] + s[nl..];
    assert s[nl..] == [s[nl]] + s[nl + 1..];
  }

  /** Lines without content, ended by a newline or by the end, add no content line. */
  lemma SkipMatchedLines(x: string, t: string)
    requires ContentLines(Split(x, '\n')) == []
    requires t == [] || t[0] == '\n'
    ensures ContentLines(Split(x + t, '\n')) == ContentLines(Split(t, '\n'))
  {
    SplitBeforeNewline(x, t);
    var tail := Split(t, '\n');
    ContentLinesAppend(Split(x, '\n'), tail[1..]);
    assert tail == [tail[0]] + tail[1..];
    assert ContentLines(tail) == ContentLines(tail[1..]);
  }

  /** A line that is not a fence line is kept exactly when it is not blank. */
  lemma KeepLine(l: string, x: string, t: string)
    requires '\n' !in l && !IsFenceLine(l)
    requires NonBlank(Split(x, '\n')) == ContentLines(Split(t, '\n'))
    ensures NonBlank(Split(l + "\n" + x, '\n')) == ContentLines(Split(l + "\n" + t, '\n'))
  {
    SplitAfterLine(l, x);
    SplitAfterLine(l, t);
    var ys, zs := Split(x, '\n'), Split(t, '\n');
    assert ([l] + ys)[1..] == ys;
    assert ([l] + zs)[1..] == zs;
  }

  /**
   * Cleaning removes every fence line and keeps every content line: the
   * non-blank lines of the cleaned docstring are exactly its content lines,
   * unchanged and in their order.
   */
  lemma CleanKeepsContentLines(docstring: string)
    ensures NonBlank(Split(Clean(docstring), '\n')) == ContentLines(Split(docstring, '\n'))
  {
    FenceLineMatcherRemovesFenceLines(docstring);
    RemoveKeepsContentLines(docstring, 0, FenceLineMatcher(docstring));
    assert docstring[0..] == docstring;
  }

  // ---------------------------------------------------------------------------
  // Cleaning keeps a docstring closable: it never creates a `"""` and never
  // leaves a quote at the end that the original did not have there.

  /** After a match, what follows is empty or starts with the newline that ended it. */
  lemma {:induction false} ResumesAtNewline(s: string, q: nat, at: nat -> Option<nat>)
    requires LineMatcher(s, at)
    requires q <= |s| && (q == |s| || s[q] == '\n')
    ensures RemoveMatches(s, q, at) == [] || RemoveMatches(s, q, at)[0] == '\n'
    decreases |s| - q
  {
    if q < |s| {
      RemoveStep(s, q, at);
      if at(q).Some? {
        ResumesAtNewline(s, at(q).value, at);
      }
    }
  }

  /** What `re.sub` produces from `p` starts with `s[p]`, or with a newline, or is empty. */
  lemma FirstKept(s: string, p: nat, at: nat -> Option<nat>)
    requires LineMatcher(s, at)
    requires p < |s|
    ensures at(p).None? ==> RemoveMatches(s, p, at) != [] && RemoveMatches(s, p, at)[0] == s[p]
    ensures at(p).Some? ==> RemoveMatches(s, p, at) == [] || RemoveMatches(s, p, at)[0] == '\n'
  {
    RemoveStep(s, p, at);
    if at(p).Some? {
      ResumesAtNewline(s, at(p).value, at);
    }
  }

  lemma TripleQuoteAfterHead(c: char, x: string, k: nat)
    ensures OccursAt([c] + x, TripleQuote, k + 1) <==> OccursAt(x, TripleQuote, k)
  {
    if k + 4 <= |x| + 1 {
      assert ([c] + x)[k + 1..k + 4] == x[k..k + 3];
    }
  }

  /** Cleaning creates no `"""`. */
  lemma {:induction false} RemoveAddsNoTripleQuote(s: string, p: nat, at: nat -> Option<nat>)
    requires LineMatcher(s, at)
    requires p <= |s|
    requires forall k: nat :: p <= k ==> !OccursAt(s, TripleQuote, k)
    ensures forall k: nat :: !OccursAt(RemoveMatches(s, p, at), TripleQuote, k)
    decreases |s| - p
  {
    if p < |s| {
      RemoveStep(s, p, at);
      if at(p).Some? {
        RemoveAddsNoTripleQuote(s, at(p).value, at);
      } else {
        RemoveAddsNoTripleQuote(s, p + 1, at);
        var x := RemoveMatches(s, p + 1, at);
        forall k: nat ensures !OccursAt([s[p]] + x, TripleQuote, k) {
          if k == 0 {
            NoQuoteRunAtHead(s, p, at);
          } else {
            TripleQuoteAfterHead(s[p], x, k - 1);
          }
        }
      }
    }
  }

  /** No `"""` begins at the head of what `re.sub` keeps from `p` on. */
  lemma NoQuoteRunAtHead(s: string, p: nat, at: nat -> Option<nat>)
    requires LineMatcher(s, at)
    requires p < |s| && at(p).None? && !OccursAt(s, TripleQuote, p)
    ensures !OccursAt([s[p]] + RemoveMatches(s, p + 1, at), TripleQuote, 0)
  {
    var x := RemoveMatches(s, p + 1, at);
    var t := [s[p]] + x;
    if OccursAt(t, TripleQuote, 0) {
      QuoteRun(t, 0);
      assert t[1] == x[0] && t[2] == x[1];
      var y := KeptQuote(s, p + 1, at);
      assert x[1] == y[0];
      var z := KeptQuote(s, p + 2, at);
      QuoteRun(s, p);
      assert false;
    }
  }

  /** `"""` at `i`, character by character. */
  lemma QuoteRun(t: string, i: nat)
    ensures OccursAt(t, TripleQuote, i)
      <==> i + 3 <= |t| && t[i] == '"' && t[i + 1] == '"' && t[i + 2] == '"'
  {
    if i + 3 <= |t| && t[i] == '"' && t[i + 1] == '"' && t[i + 2] == '"' {
      assert t[i..i + 3] == TripleQuote;
    }
  }

  /** A kept text that starts with a quote starts with the quote at `q`, kept. */
  lemma KeptQuote(s: string, q: nat, at: nat -> Option<nat>) returns (rest: string)
    requires LineMatcher(s, at)
    requires q <= |s|
    requires RemoveMatches(s, q, at) != [] && RemoveMatches(s, q, at)[0] == '"'
    ensures q < |s| && s[q] == '"'
    ensures rest == RemoveMatches(s, q, at)[1..] && (q + 1 <= |s| ==> rest == RemoveMatches(s, q + 1, at))
  {
    FirstKept(s, q, at);
    RemoveStep(s, q, at);
    rest := RemoveMatches(s, q, at)[1..];
  }

  /** `r` is empty or ends with a newline or with the last character of `s`. */
  predicate EndsAsKept(s: string, r: string)
  {
    r == [] || r[|r| - 1] == '\n' || (s != [] && r[|r| - 1] == s[|s| - 1])
  }

  /** The last character kept is the text's own last character or a newline. */
  lemma {:induction false} LastKept(s: string, p: nat, at: nat -> Option<nat>)
    requires LineMatcher(s, at)
    requires p <= |s|
    ensures EndsAsKept(s, RemoveMatches(s, p, at))
    decreases |s| - p
  {
    if p < |s| {
      var m := at(p);
      if m.Some? {
        LastKept(s, m.value, at);
        LastAfterMatch(s, p, at);
      } else {
        LastKept(s, p + 1, at);
        LastOfCons(s, p, at);
      }
    }
  }

  lemma LastAfterMatch(s: string, p: nat, at: nat -> Option<nat>)
    requires LineMatcher(s, at)
    requires p < |s| && at(p).Some?
    requires EndsAsKept(s, RemoveMatches(s, at(p).value, at))
    ensures EndsAsKept(s, RemoveMatches(s, p, at))
  {
    RemoveStep(s, p, at);
  }

  lemma LastOfCons(s: string, p: nat, at: nat -> Option<nat>)
    requires LineMatcher(s, at)
    requires p < |s| && at(p).None?
    requires EndsAsKept(s, RemoveMatches(s, p + 1, at))
    ensures EndsAsKept(s, RemoveMatches(s, p, at))
  {
    RemoveStep(s, p, at);
    var x := RemoveMatches(s, p + 1, at);
    if x == [] && p + 1 < |s| {
      FirstKept(s, p + 1, at);
    }
  }

  /**
   * A docstring with no `"""` and no quote at its end (what the block pattern
   * captures) stays so when cleaned, so it still fits between `"""` and `"""`.
   */
  lemma CleanKeepsLiteralClosable(d: string)
    requires forall k: nat :: !OccursAt(d, TripleQuote, k)
    requires d == [] || d[|d| - 1] != '"'
    ensures forall k: nat :: !OccursAt(Clean(d), TripleQuote, k)
    ensures Clean(d) == [] || Clean(d)[|Clean(d)| - 1] != '"'
  {
    var at := FenceLineMatcher(d);
    RemoveAddsNoTripleQuote(d, 0, at);
    LastKept(d, 0, at);
    assert EndsAsKept(d, Clean(d));
  }

  // ---------------------------------------------------------------------------
  // `_block_to_test_function`: a test function whose docstring is the cleaned one.

  /** The generated function up to the opening quotes of its docstring. */
  function FunctionHead(name: string): string
  {
    "\ndef test_" + name + "():\n    " + TripleQuote
  }

  /** The generated function after its docstring's contents. */
  const FunctionTail: string := TripleQuote + "\n    pass\n"

  function BlockToTestFunction(name: string, docstring: string): string
  {
    FunctionHead(name) + Clean(docstring) + FunctionTail
  }

  /**
   * Read by the block pattern again, the generated function is one match, at
   * its `def`, named `test_<name>`, whose body is the whole cleaned docstring:
   * cleaning never lets the docstring close early. The block pattern's bodies
   * meet the requirements (`MatchedBodyIsClosable`).
   */
  lemma TestFunctionRescans(name: string, docstring: string)
    requires name != [] && forall k :: 0 <= k < |name| ==> IsWordChar(name[k])
    requires forall k: nat :: !OccursAt(docstring, TripleQuote, k)
    requires docstring == [] || docstring[|docstring| - 1] != '"'
    ensures var f := BlockToTestFunction(name, docstring);
      StubPattern.MatchAt(f, 1) == Some(StubPattern.DocBlock(1, "test_" + name, Clean(docstring), |f| - 10))
  {
    var c, f := Clean(docstring), BlockToTestFunction(name, docstring);
    CleanKeepsLiteralClosable(docstring);
    assert f == FunctionHead(name) + c + FunctionTail;
    RescanWith(name, c, f);
  }

  // ---------------------------------------------------------------------------
  // `_generate_test_module_content` and `process_pyi_file`.

  /** The comment and blank line that open every generated module. */
  function ModuleHeader(fileName: string): string
  {
    "# Generated tests from " + fileName + "\n\n"
  }

  /** The test function of each block that `findall` returns, in order. */
  function TestFunctions(blocks: seq<StubPattern.DocBlock>): seq<string>
  {
    seq(|blocks|, k requires 0 <= k < |blocks| => BlockToTestFunction(blocks[k].name, blocks[k].body))
  }

  /**
   * The test module for a stub file called `fileName` (its last path
   * component) whose text is `text`: the header and the non-blank test
   * functions joined by newlines, or `None` when that join is empty.
   */
  function GenerateTestModuleContent(fileName: string, text: string): Option<string>
  {
    var res := Join("\n", NonBlank(TestFunctions(StubPattern.FindAll(text))));
    if res == [] then None else Some(ModuleHeader(fileName) + res)
  }

  /** A generated function is never blank, so the `str.strip` filter keeps it. */
  lemma TestFunctionNotBlank(name: string, docstring: string)
    ensures !IsBlank(BlockToTestFunction(name, docstring))
  {
    assert BlockToTestFunction(name, docstring)[1] == 'd';
  }

  lemma {:induction false} NonBlankKeepsAll(fs: seq<string>)
    requires forall k :: 0 <= k < |fs| ==> !IsBlank(fs[k])
    ensures NonBlank(fs) == fs
    decreases |fs|
  {
    if fs != [] {
      NonBlankKeepsAll(fs[1..]);
    }
  }

  lemma NoBlankTestFunction(blocks: seq<StubPattern.DocBlock>)
    ensures NonBlank(TestFunctions(blocks)) == TestFunctions(blocks)
  {
    var fs := TestFunctions(blocks);
    forall k | 0 <= k < |fs| ensures !IsBlank(fs[k]) {
      TestFunctionNotBlank(blocks[k].name, blocks[k].body);
    }
    NonBlankKeepsAll(fs);
  }

  /**
   * The filter drops nothing: the module is the header and one test function
   * per block, in order, separated by newlines; and there is no module
   * exactly when the file has no definition with a docstring.
   */
  lemma ModuleContentLayout(fileName: string, text: string)
    ensures var blocks := StubPattern.FindAll(text);
      && (GenerateTestModuleContent(fileName, text).None? <==> blocks == [])
      && (blocks != [] ==>
            GenerateTestModuleContent(fileName, text) == Some(ModuleHeader(fileName) + Join("\n", TestFunctions(blocks))))
  {
    var blocks := StubPattern.FindAll(text);
    NoBlankTestFunction(blocks);
    JoinEmptyIff("\n", TestFunctions(blocks));
    if blocks != [] {
      TestFunctionNotBlank(blocks[0].name, blocks[0].body);
    }
  }

  /**
   * Each generated function, read by the block pattern again, is one match
   * named `test_<name>` whose body is the block's docstring with its fence
   * lines removed, and which keeps that docstring's content lines.
   */
  lemma GeneratedFunctionRescans(text: string, k: nat)
    requires k < |StubPattern.FindAll(text)|
    ensures var b, f := StubPattern.FindAll(text)[k], TestFunctions(StubPattern.FindAll(text))[k];
      && StubPattern.MatchAt(f, 1) == Some(StubPattern.DocBlock(1, "test_" + b.name, Clean(b.body), |f| - 10))
      && NonBlank(Split(Clean(b.body), '\n')) == ContentLines(Split(b.body, '\n'))
  {
    var blocks := StubPattern.FindAll(text);
    var b := blocks[k];
    assert StubPattern.MatchAt(text, b.start) == Some(b);
    assert TestFunctions(blocks)[k] == BlockToTestFunction(b.name, b.body);
    MatchedBlockRescans(text, b);
  }

  lemma MatchedBlockRescans(text: string, b: StubPattern.DocBlock)
    requires StubPattern.IsMatch(text, b.start, b)
    ensures var f := BlockToTestFunction(b.name, b.body);
      && StubPattern.MatchAt(f, 1) == Some(StubPattern.DocBlock(1, "test_" + b.name, Clean(b.body), |f| - 10))
      && NonBlank(Split(Clean(b.body), '\n')) == ContentLines(Split(b.body, '\n'))
  {
    StubPattern.MatchedBodyIsClosable(text, b.start, b);
    TestFunctionRescans(b.name, b.body);
    CleanKeepsContentLines(b.body);
  }

  /**
   * `process_pyi_file`: no result when the stub yields no module; otherwise
   * the result of running pytest on the module written to the test file.
   * Writing the file and running pytest are the parameter `runPytest`, given
   * the test file's name and its contents.
   */
  function ProcessPyiFile<R>(fileName: string, text: string, runPytest: (string, string) -> R): Option<R>
  {
    match GenerateTestModuleContent(fileName, text)
    case None => None
    case Some(content) => Some(runPytest(Paths.TestFileName(fileName), content))
  }

  /** pytest runs exactly when the stub has a definition with a docstring, on the module of all of them. */
  lemma ProcessPyiFileRunsAllBlocks<R>(fileName: string, text: string, runPytest: (string, string) -> R)
    ensures var blocks := StubPattern.FindAll(text);
      && (ProcessPyiFile(fileName, text, runPytest).None? <==> blocks == [])
      && (blocks != [] ==>
            ProcessPyiFile(fileName, text, runPytest) == Some(runPytest(Paths.TestFileName(fileName), ModuleHeader(fileName) + Join("\n", TestFunctions(blocks)))))
  {
    ModuleContentLayout(fileName, text);
  }

  /** The characters of the head, by position; `n` is where the parameter list opens. */
  lemma HeadChars(name: string)
    ensures var h, n := FunctionHead(name), 10 + |name|;
      && |h| == n + 11 && h[1..4] == "def" && h[4] == ' ' && h[5..n] == "test_" + name
      && h[n] == '(' && h[n + 1] == ')' && h[n + 2] == ':' && h[n + 3] == '\n'
      && h[n + 4] == ' ' && h[n + 5] == ' ' && h[n + 6] == ' ' && h[n + 7] == ' '
      && h[n + 8..] == TripleQuote
  {
    var h, n := FunctionHead(name), 10 + |name|;
    assert h == "\ndef " + ("test_" + name) + "():\n    \"\"\"";
  }

  lemma RescanWith(name: string, c: string, f: string)
    requires name != [] && forall k :: 0 <= k < |name| ==> IsWordChar(name[k])
    requires forall k: nat :: !OccursAt(c, TripleQuote, k)
    requires c == [] || c[|c| - 1] != '"'
    requires f == FunctionHead(name) + c + FunctionTail
    ensures StubPattern.MatchAt(f, 1) == Some(StubPattern.DocBlock(1, "test_" + name, c, |f| - 10))
  {
    var n := 10 + |name|;
    FunctionChars(name, c, f);
    RescanParts(f, n, c);
  }

  /** The rescan of a function whose characters are laid out as `FunctionChars` says. */
  lemma RescanParts(f: string, n: nat, c: string)
    requires forall k: nat :: !OccursAt(c, TripleQuote, k)
    requires c == [] || c[|c| - 1] != '"'
    requires 5 < n && |f| == n + 24 + |c| && f[1..4] == "def" && f[4] == ' '
    requires forall k :: 5 <= k < n ==> IsWordChar(f[k])
    requires f[n] == '(' && f[n + 1] == ')' && f[n + 2] == ':' && f[n + 3] == '\n'
    requires f[n + 4] == ' ' && f[n + 5] == ' ' && f[n + 6] == ' ' && f[n + 7] == ' '
    requires OccursAt(f, TripleQuote, n + 8)
    requires f[n + 11..n + 11 + |c|] == c && OccursAt(f, TripleQuote, n + 11 + |c|)
    ensures StubPattern.MatchAt(f, 1) == Some(StubPattern.DocBlock(1, f[5..n], c, |f| - 10))
  {
    var o := n + 8;
    var q := o + 3 + |c|;
    HeadSteps(f, n);
    NoCloseInBody(f, o + 3, c);
    FindFromAt(f, TripleQuote, o + 3, q);
    MatchAtSteps(f, n, o, q);
    BlockOfParts(f, n, o, q, f[5..n], c);
  }

  lemma BlockOfParts(f: string, n: nat, o: nat, q: nat, nm: string, c: string)
    requires 5 <= n <= |f| && o + 3 <= q && q + 13 == |f|
    requires f[5..n] == nm && f[o + 3..q] == c
    ensures StubPattern.BlockOf(f, 1, 5, n, o, q) == StubPattern.DocBlock(1, nm, c, |f| - 10)
  {
  }

  /** The characters of a generated function, by position; `n` is where its parameter list opens. */
  lemma FunctionChars(name: string, c: string, f: string)
    requires name != [] && forall k :: 0 <= k < |name| ==> IsWordChar(name[k])
    requires f == FunctionHead(name) + c + FunctionTail
    ensures var n := 10 + |name|;
      && |f| == n + 24 + |c| && f[1..4] == "def" && f[4] == ' '
      && f[5..n] == "test_" + name && (forall k :: 5 <= k < n ==> IsWordChar(f[k]))
      && f[n] == '(' && f[n + 1] == ')' && f[n + 2] == ':' && f[n + 3] == '\n'
      && f[n + 4] == ' ' && f[n + 5] == ' ' && f[n + 6] == ' ' && f[n + 7] == ' '
      && OccursAt(f, TripleQuote, n + 8)
      && f[n + 11..n + 11 + |c|] == c && OccursAt(f, TripleQuote, n + 11 + |c|)
  {
    var h, n := FunctionHead(name), 10 + |name|;
    HeadChars(name);
    HeadOfFunction(h, c, f);
    assert f[1..4] == h[1..4];
    assert f[5..n] == h[5..n];
    forall k | 5 <= k < n ensures IsWordChar(f[k]) {
      assert f[k] == f[5..n][k - 5];
      if k < 10 {
        assert f[5..n][k - 5] == "test_"[k - 5];
      } else {
        assert f[5..n][k - 5] == name[k - 10];
      }
    }
    assert f[n + 8..n + 11] == h[n + 8..];
  }

  lemma HeadOfFunction(h: string, c: string, f: string)
    requires f == h + c + FunctionTail
    ensures |f| == |h| + |c| + 13 && f[..|h|] == h && f[|h|..|h| + |c|] == c
    ensures OccursAt(f, TripleQuote, |h| + |c|)
  {
    assert f[|h| + |c|..|h| + |c| + 3] == TripleQuote;
  }

  /** The head of a generated function drives the block pattern up to its opening quotes. */
  lemma HeadSteps(f: string, n: nat)
    requires 5 < n && n + 11 <= |f| && f[1..4] == "def" && f[4] == ' '
    requires forall k :: 5 <= k < n ==> IsWordChar(f[k])
    requires f[n] == '(' && f[n + 1] == ')' && f[n + 2] == ':' && f[n + 3] == '\n'
    requires f[n + 4] == ' ' && f[n + 5] == ' ' && f[n + 6] == ' ' && f[n + 7] == ' '
    requires OccursAt(f, TripleQuote, n + 8)
    ensures StubPattern.KeywordEnd(f, 1) == Some(4) && RunEnd(f, 4, IsSpace) == 5
    ensures RunEnd(f, 5, IsWordChar) == n && StubPattern.SignatureEnd(f, n) == Some(n + 3)
    ensures RunEnd(f, n + 3, IsSpace) == n + 8
  {
    HeadKeyword(f);
    RunEndAt(f, 5, n, IsWordChar);
    SignatureOfHead(f, n);
    HeadIndent(f, n);
  }

  lemma HeadKeyword(f: string)
    requires 6 <= |f| && f[1..4] == "def" && f[4] == ' ' && IsWordChar(f[5])
    ensures StubPattern.KeywordEnd(f, 1) == Some(4) && RunEnd(f, 4, IsSpace) == 5
  {
    assert OccursAt(f, "def", 1);
    RunEndAt(f, 4, 5, IsSpace);
  }

  lemma HeadIndent(f: string, n: nat)
    requires n + 11 <= |f| && f[n + 3] == '\n'
    requires f[n + 4] == ' ' && f[n + 5] == ' ' && f[n + 6] == ' ' && f[n + 7] == ' '
    requires OccursAt(f, TripleQuote, n + 8)
    ensures RunEnd(f, n + 3, IsSpace) == n + 8
  {
    assert f[n + 8] == f[n + 8..n + 11][0];
    RunEndAt(f, n + 3, n + 8, IsSpace);
  }

  /** How `MatchAt` proceeds when each of its steps is known. */
  lemma MatchAtSteps(f: string, n: nat, o: nat, q: nat)
    requires 5 < n <= o && o + 3 <= q && q + 3 <= |f|
    requires StubPattern.KeywordEnd(f, 1) == Some(4) && RunEnd(f, 4, IsSpace) == 5
    requires RunEnd(f, 5, IsWordChar) == n && StubPattern.SignatureEnd(f, n) == Some(n + 3)
    requires RunEnd(f, n + 3, IsSpace) == o
    requires OccursAt(f, TripleQuote, o) && FindFrom(f, TripleQuote, o + 3) == Some(q)
    ensures StubPattern.MatchAt(f, 1) == Some(StubPattern.BlockOf(f, 1, 5, n, o, q))
  {
    assert StubPattern.MatchAt(f, 1) == StubPattern.MatchAfterName(f, 1, 5, n);
    assert StubPattern.DocstringClose(f, o) == Some(q);
  }

  /** The signature `():` of the generated function. */
  lemma SignatureOfHead(f: string, n: nat)
    requires n + 3 <= |f| && f[n] == '(' && f[n + 1] == ')' && f[n + 2] == ':'
    ensures StubPattern.SignatureEnd(f, n) == Some(n + 3)
  {
    assert StubPattern.SkipGroup(f, n, '[', ']') == Some(n);
    RunEndAt(f, n, n, IsSpace);
    assert FindChar(f, ')', n + 1) == Some(n + 1);
    RunEndAt(f, n + 2, n + 2, IsSpace);
    assert !OccursAt(f, "->", n + 2);
  }

  /** No `"""` begins inside a body that has none and ends with no quote. */
  lemma NoCloseInBody(f: string, b: nat, c: string)
    requires b + |c| <= |f| && f[b..b + |c|] == c
    requires forall k: nat :: !OccursAt(c, TripleQuote, k)
    requires c == [] || c[|c| - 1] != '"'
    ensures forall k :: b <= k < b + |c| ==> !OccursAt(f, TripleQuote, k)
  {
    forall k | b <= k < b + |c| ensures !OccursAt(f, TripleQuote, k) {
      if k + 3 <= b + |c| {
        SliceOfSlice(f, b, b + |c|, k - b, k - b + 3);
        assert !OccursAt(c, TripleQuote, k - b);
      } else {
        var last := b + |c| - 1;
        assert f[last] == f[b..b + |c|][|c| - 1];
        if k + 3 <= |f| {
          assert f[k..k + 3][last - k] == f[last];
        }
      }
    }
  }
}
