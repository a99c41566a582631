/** Logs of admission times, and how many admissions fall into one window. */
module Windows {

  ghost predicate NonDecreasing(log: seq<real>) {
    forall i, j :: 0 <= i < j < |log| ==> log[i] <= log[j]
  }

  /** The admissions in the closed window `[a, b]`, by their place in the log. */
  ghost function Closed(log: seq<real>, a: real, b: real): set<nat> {
    set i: nat | i < |log| && a <= log[i] <= b
  }

  /** The admissions in the half-open window `(a, b]`. */
  ghost function HalfOpen(log: seq<real>, a: real, b: real): set<nat> {
    set i: nat | i < |log| && a < log[i] <= b
  }

  ghost predicate Between(lo: nat, i: nat, hi: nat) {
    lo <= i < hi
  }

  ghost function Range(lo: nat, hi: nat): set<nat> {
    set i: nat | i < hi && Between(lo, i, hi)
  }

  lemma {:induction false} RangeSize(lo: nat, hi: nat)
    requires lo <= hi
    ensures |Range(lo, hi)| == hi - lo
    decreases hi - lo
  {
    if lo < hi {
      RangeSize(lo, hi - 1);
      assert Range(lo, hi) == Range(lo, hi - 1) + {hi - 1};
    }
  }

  lemma SubsetSize<T>(s: set<T>, t: set<T>)
    requires s <= t
    ensures |s| <= |t|
  {
    assert t == s + (t - s);
  }

  /** The closed window of width `v` at `a` holds at most `limit` admissions. */
  ghost predicate AtMost(log: seq<real>, a: real, v: real, limit: nat) {
    |Closed(log, a, a + v)| <= limit
  }

  /** So does every other, wherever it starts. */
  ghost predicate Holds(log: seq<real>, v: real, limit: nat) {
    forall a: real :: AtMost(log, a, v, limit)
  }

  /** No stamp lags an earlier one by more than `d`; with 0 they never decrease. */
  ghost predicate LateBy(stamps: seq<real>, d: real) {
    forall i, j :: 0 <= i < j < |stamps| ==> stamps[i] <= stamps[j] + d
  }

  function Max(x: real, y: real): real {
    if x >= y then x else y
  }
}
