/**
 * The doctester's result record: a frozen pair of counters with a derived
 * failure count, and the pointwise sum used to aggregate results.
 */
module Models {

  /**
   * `TestResult(total, passed)`. As a datatype it is immutable and its equality
   * is structural on the two counters, like the frozen dataclass.
   */
  datatype TestResult = TestResult(total: int, passed: int) {

    /** The derived `failed` property. */
    function Failed(): int
    {
      total - passed
    }

    /** The invariant that every producer of a result keeps: `0 <= passed <= total`. */
    predicate Valid()
    {
      0 <= passed <= total
    }
  }

  /** Pointwise addition of two results. */
  function Add(a: TestResult, b: TestResult): (r: TestResult)
    ensures r.Failed() == a.Failed() + b.Failed()
    ensures a.Valid() && b.Valid() ==> r.Valid()
  {
    TestResult(a.total + b.total, a.passed + b.passed)
  }

  /** `TestResult(sum(r.total ...), sum(r.passed ...))` over a list of results. */
  function Sum(rs: seq<TestResult>): TestResult
    decreases |rs|
  {
    if rs == [] then TestResult(0, 0) else Add(Sum(rs[..|rs| - 1]), rs[|rs| - 1])
  }

  /** Summing one more result adds it. */
  lemma SumAppend(rs: seq<TestResult>, r: TestResult)
    ensures Sum(rs + [r]) == Add(Sum(rs), r)
  {
    assert (rs + [r])[..|rs|] == rs;
  }

  /** The sum of the failure counts, used to state what the aggregate's `failed` is. */
  function SumFailed(rs: seq<TestResult>): int
    decreases |rs|
  {
    if rs == [] then 0 else SumFailed(rs[..|rs| - 1]) + rs[|rs| - 1].Failed()
  }

  predicate AllValid(rs: seq<TestResult>)
  {
    forall k :: 0 <= k < |rs| ==> rs[k].Valid()
  }

  /** The aggregate's derived `failed` is the sum of the parts' `failed`, though it is never stored. */
  lemma {:induction false} SumFailedIsSum(rs: seq<TestResult>)
    ensures Sum(rs).Failed() == SumFailed(rs)
    decreases |rs|
  {
    if rs != [] {
      SumFailedIsSum(rs[..|rs| - 1]);
    }
  }

  /** Aggregating by total and passed keeps `0 <= passed <= total`. */
  lemma {:induction false} SumValid(rs: seq<TestResult>)
    requires AllValid(rs)
    ensures Sum(rs).Valid()
    decreases |rs|
  {
    if rs != [] {
      AllValidPrefix(rs, |rs| - 1);
      SumValid(rs[..|rs| - 1]);
    }
  }

  lemma AllValidPrefix(rs: seq<TestResult>, n: nat)
    requires AllValid(rs) && n <= |rs|
    ensures AllValid(rs[..n])
  {
    forall k | 0 <= k < n ensures rs[..n][k].Valid() {
      assert rs[..n][k] == rs[k];
    }
  }

  /**
   * For valid parts, the aggregate has no failure exactly when no part has one:
   * the aggregate's `failed == 0` is the command line's success signal.
   */
  lemma {:induction false} SumNoFailureIff(rs: seq<TestResult>)
    requires AllValid(rs)
    ensures Sum(rs).Failed() == 0 <==> forall k :: 0 <= k < |rs| ==> rs[k].Failed() == 0
    decreases |rs|
  {
    SumFailedIsSum(rs);
    if rs != [] {
      var init := rs[..|rs| - 1];
      AllValidPrefix(rs, |rs| - 1);
      SumNoFailureIff(init);
      SumFailedIsSum(init);
      SumFailedNonNegative(init);
      assert forall k :: 0 <= k < |init| ==> init[k] == rs[k];
    }
  }

  lemma {:induction false} SumFailedNonNegative(rs: seq<TestResult>)
    requires AllValid(rs)
    ensures SumFailed(rs) >= 0
    decreases |rs|
  {
    if rs != [] {
      AllValidPrefix(rs, |rs| - 1);
      SumFailedNonNegative(rs[..|rs| - 1]);
    }
  }

  /** `failed == 0` exactly when `passed == total`. */
  lemma NoFailureIffAllPassed(r: TestResult)
    ensures r.Failed() == 0 <==> r.passed == r.total
    ensures r.Valid() ==> (r.Failed() > 0 <==> r.passed < r.total)
  {
  }
}
