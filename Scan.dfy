/**
 * Building blocks of the deterministic scanners that stand for the source's
 * regular expressions: greedy runs, and leftmost searches with their
 * minimality stated.
 */
module Scan {
  import opened Text

  /** The end of the longest run of `p`-characters that starts at `i` (a greedy `p*`). */
  function RunEnd(text: string, i: nat, p: char -> bool): (e: nat)
    requires i <= |text|
    ensures i <= e <= |text|
    ensures forall k :: i <= k < e ==> p(text[k])
    ensures e == |text| || !p(text[e])
    decreases |text| - i
  {
    if i < |text| && p(text[i]) then RunEnd(text, i + 1, p) else i
  }

  /** A run of `p`-characters from `i` that stops at `j` is the greedy run. */
  lemma {:induction false} RunEndAt(text: string, i: nat, j: nat, p: char -> bool)
    requires i <= j <= |text|
    requires forall k :: i <= k < j ==> p(text[k])
    requires j == |text| || !p(text[j])
    ensures RunEnd(text, i, p) == j
    decreases j - i
  {
    if i < j {
      RunEndAt(text, i + 1, j, p);
    }
  }

  /** The first index at or after `i` where `pat` occurs (`text.find(pat, i)`). */
  function FindFrom(text: string, pat: string, i: nat): (r: Option<nat>)
    requires i <= |text|
    ensures r.Some? ==> i <= r.value && OccursAt(text, pat, r.value)
    ensures r.Some? ==> forall k :: i <= k < r.value ==> !OccursAt(text, pat, k)
    ensures r.None? ==> forall k: nat :: i <= k ==> !OccursAt(text, pat, k)
    decreases |text| - i
  {
    if OccursAt(text, pat, i) then Some(i)
    else if i == |text| then None
    else FindFrom(text, pat, i + 1)
  }

  /** An occurrence at `j` with none between `i` and `j` is the one found. */
  lemma {:induction false} FindFromAt(text: string, pat: string, i: nat, j: nat)
    requires i <= j <= |text| && OccursAt(text, pat, j)
    requires forall k :: i <= k < j ==> !OccursAt(text, pat, k)
    ensures FindFrom(text, pat, i) == Some(j)
    decreases j - i
  {
    if i < j {
      FindFromAt(text, pat, i + 1, j);
    }
  }

  /** The first index at or after `i` holding `c` (`text.find(c, i)`). */
  function FindChar(text: string, c: char, i: nat): (r: Option<nat>)
    requires i <= |text|
    ensures r.Some? ==> i <= r.value < |text| && text[r.value] == c
    ensures r.Some? ==> forall k :: i <= k < r.value ==> text[k] != c
    ensures r.None? ==> forall k :: i <= k < |text| ==> text[k] != c
    decreases |text| - i
  {
    if i == |text| then None
    else if text[i] == c then Some(i)
    else FindChar(text, c, i + 1)
  }

  /** MULTILINE `^`: position 0 or just after a newline. */
  predicate IsLineStart(text: string, i: nat)
  {
    i <= |text| && (i == 0 || text[i - 1] == '\n')
  }

  /** MULTILINE `$`: the end of the text or just before a newline. */
  predicate IsLineEnd(text: string, i: nat)
  {
    i <= |text| && (i == |text| || text[i] == '\n')
  }

  /** The last index in `text[lo..hi]` whose character satisfies `p`, if any. */
  function LastWhere(text: string, lo: nat, hi: nat, p: char -> bool): (r: Option<nat>)
    requires lo <= hi <= |text|
    ensures r.Some? ==> lo <= r.value < hi && p(text[r.value])
    ensures r.Some? ==> forall k :: r.value < k < hi ==> !p(text[k])
    ensures r.None? ==> forall k :: lo <= k < hi ==> !p(text[k])
    decreases hi - lo
  {
    if lo == hi then None
    else if p(text[hi - 1]) then Some(hi - 1)
    else LastWhere(text, lo, hi - 1, p)
  }

  predicate IsNewline(c: char)
  {
    c == '\n'
  }

  /** The end of the line that contains position `i`. */
  function LineEndFrom(text: string, i: nat): (e: nat)
    requires i <= |text|
    ensures i <= e && IsLineEnd(text, e)
    ensures forall k :: i <= k < e ==> text[k] != '\n'
    decreases |text| - i
  {
    if i == |text| || text[i] == '\n' then i else LineEndFrom(text, i + 1)
  }

  // ---------------------------------------------------------------------------
  // `finditer` for a pattern whose match at each position is unique: `at(i)`
  // is the match that begins at `i`, if any, and `start`/`end` give a match's
  // span.

  /** Every match begins where it was asked for and ends after that, within the text. */
  predicate Advances<M>(n: nat, at: nat -> Option<M>, start: M -> nat, end: M -> nat)
  {
    forall i: nat :: i < n && at(i).Some? ==> start(at(i).value) == i && i < end(at(i).value) <= n
  }

  /**
   * The matches found scanning from `from` in a text of length `n`: the search
   * tries each position in turn and, after a match, resumes at its end.
   */
  function FindIter<M>(n: nat, from: nat, at: nat -> Option<M>, start: M -> nat, end: M -> nat): (r: seq<M>)
    requires from <= n && Advances(n, at, start, end)
    ensures forall k :: 0 <= k < |r| ==> from <= start(r[k]) < end(r[k]) <= n && at(start(r[k])) == Some(r[k])
    ensures forall k :: 0 <= k < |r| - 1 ==> end(r[k]) <= start(r[k + 1])
    decreases n - from
  {
    if from == n then []
    else match at(from)
      case Some(m) => [m] + FindIter(n, end(m), at, start, end)
      case None => FindIter(n, from + 1, at, start, end)
  }

  /** Some match in `r` spans position `p`. */
  predicate Covers<M>(r: seq<M>, start: M -> nat, end: M -> nat, p: nat)
  {
    exists k :: 0 <= k < |r| && start(r[k]) <= p < end(r[k])
  }

  /**
   * Nothing is missed: every position where a match begins lies inside one of
   * the matches found, the one beginning there or an earlier one.
   */
  lemma {:induction false} FindIterComplete<M>(n: nat, from: nat, at: nat -> Option<M>, start: M -> nat, end: M -> nat, p: nat)
    requires from <= p < n && Advances(n, at, start, end) && at(p).Some?
    ensures Covers(FindIter(n, from, at, start, end), start, end, p)
    decreases n - from
  {
    var m := at(from);
    if m.Some? {
      var e := end(m.value);
      FindIterMatch(n, from, at, start, end);
      if e <= p {
        FindIterComplete(n, e, at, start, end, p);
      }
      CoversCons(m.value, FindIter(n, e, at, start, end), start, end, p);
    } else {
      assert p != from;
      FindIterComplete(n, from + 1, at, start, end, p);
    }
  }

  lemma FindIterMatch<M>(n: nat, from: nat, at: nat -> Option<M>, start: M -> nat, end: M -> nat)
    requires from < n && Advances(n, at, start, end) && at(from).Some?
    ensures FindIter(n, from, at, start, end) == [at(from).value] + FindIter(n, end(at(from).value), at, start, end)
  {
  }

  lemma CoversCons<M>(m: M, rest: seq<M>, start: M -> nat, end: M -> nat, p: nat)
    requires start(m) <= p < end(m) || Covers(rest, start, end, p)
    ensures Covers([m] + rest, start, end, p)
  {
    if start(m) <= p < end(m) {
      assert ([m] + rest)[0] == m;
    } else {
      var k :| 0 <= k < |rest| && start(rest[k]) <= p < end(rest[k]);
      assert ([m] + rest)[k + 1] == rest[k];
    }
  }

  /** Non-empty spans, each ending before the next begins, have strictly increasing starts. */
  lemma {:induction false} ChainSorted<M>(r: seq<M>, start: M -> nat, end: M -> nat)
    requires forall k :: 0 <= k < |r| ==> start(r[k]) < end(r[k])
    requires forall k :: 0 <= k < |r| - 1 ==> end(r[k]) <= start(r[k + 1])
    ensures forall j, k :: 0 <= j < k < |r| ==> start(r[j]) < start(r[k])
    decreases |r|
  {
    if |r| > 1 {
      var init := r[..|r| - 1];
      ChainSorted(init, start, end);
      forall j | 0 <= j < |r| - 1 ensures start(r[j]) < start(r[|r| - 1]) {
        if j < |r| - 2 {
          assert start(init[j]) < start(init[|r| - 2]);
        }
      }
    }
  }
}
