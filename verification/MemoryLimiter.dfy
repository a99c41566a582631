/** The per-worker sliding-window limiter `InMemoryRateLimiter` of
    `src/api/auth.py`. Time stamps are reals. */
module MemoryLimiter {
  import opened Windows

  datatype Outcome = Admitted | Refused(retryAfter: int)

  /** Python's `int(x)`: towards zero. */
  function Truncated(x: real): int {
    if x >= 0.0 then x.Floor else -((-x).Floor)
  }

  /** The Retry-After seconds of a refusal. */
  function RetryAfter(oldest: real, w: real, t: real): int {
    var sec := Truncated(oldest + w - t) + 1;
    if sec < 1 then 1 else sec
  }

  /** The deque without the leading entries older than `cutoff`. */
  function Prune(bucket: seq<real>, cutoff: real): seq<real> {
    if bucket == [] || bucket[0] >= cutoff then bucket else Prune(bucket[1..], cutoff)
  }

  /** One call on one key's deque. */
  function Check(bucket: seq<real>, limit: nat, w: real, t: real): (seq<real>, Outcome)
    requires limit > 0
  {
    var live := Prune(bucket, t - w);
    if |live| >= limit then (live, Refused(RetryAfter(live[0], w, t))) else (live + [t], Admitted)
  }

  function BucketOf(buckets: map<string, seq<real>>, key: string): seq<real> {
    if key in buckets then buckets[key] else []
  }

  class InMemoryRateLimiter {
    const limit: nat
    const windowSec: real
    var buckets: map<string, seq<real>>

    ghost predicate Valid()
      reads this
    {
      limit > 0
    }

    constructor (limit: nat, windowSec: real)
      requires limit > 0
      ensures Valid() && this.limit == limit && this.windowSec == windowSec && buckets == map[]
    {
      this.limit, this.windowSec, buckets := limit, windowSec, map[];
    }

    /** Counts one submit of `key` at `t`, or refuses it. Other keys are not touched. */
    method CheckAndRecord(key: string, t: real) returns (o: Outcome)
      requires Valid()
      modifies this
      ensures Valid()
      ensures var (bucket, outcome) := Check(BucketOf(old(buckets), key), limit, windowSec, t);
              o == outcome && buckets == old(buckets)[key := bucket]
    {
      var cutoff := t - windowSec;
      var bucket := BucketOf(buckets, key);
      while bucket != [] && bucket[0] < cutoff
        invariant Prune(bucket, cutoff) == Prune(BucketOf(old(buckets), key), cutoff)
      {
        bucket := bucket[1..];
      }
      if |bucket| >= limit {
        buckets := buckets[key := bucket];
        return Refused(RetryAfter(bucket[0], windowSec, t));
      }
      buckets := buckets[key := bucket + [t]];
      return Admitted;
    }
  }

  // ---- Runs of one key ---------------------------------------------------

  /** The deque and, beside it, every admission since the start. */
  datatype History = History(bucket: seq<real>, log: seq<real>)

  function Step(h: History, limit: nat, w: real, t: real): History
    requires limit > 0
  {
    var (bucket, o) := Check(h.bucket, limit, w, t);
    History(bucket, if o.Admitted? then h.log + [t] else h.log)
  }

  function Run(ts: seq<real>, limit: nat, w: real): History
    requires limit > 0
  {
    if ts == [] then History([], []) else Step(Run(ts[..|ts| - 1], limit, w), limit, w, ts[|ts| - 1])
  }

  /** What a request at `t` is told after the requests `ts`. */
  function Answer(ts: seq<real>, limit: nat, w: real, t: real): Outcome
    requires limit > 0
  {
    Check(Run(ts, limit, w).bucket, limit, w, t).1
  }

  lemma RunSnoc(ts: seq<real>, limit: nat, w: real, t: real)
    requires limit > 0
    ensures Run(ts + [t], limit, w) == Step(Run(ts, limit, w), limit, w, t)
  {
    assert (ts + [t])[..|ts|] == ts;
  }

  lemma {:induction false} PruneDrops(bucket: seq<real>, cutoff: real) returns (k: nat)
    ensures k <= |bucket| && Prune(bucket, cutoff) == bucket[k..]
    ensures forall i :: 0 <= i < k ==> bucket[i] < cutoff
    ensures k < |bucket| ==> bucket[k] >= cutoff
  {
    if bucket == [] || bucket[0] >= cutoff {
      k := 0;
    } else {
      var j := PruneDrops(bucket[1..], cutoff);
      k := j + 1;
      assert forall i :: 1 <= i < |bucket| ==> bucket[i] == bucket[1..][i - 1];
    }
  }

  /** On any clock: the deque is the end of the full history, and what it has
      dropped is outside the window of the latest stamp. */
  ghost predicate Suffix(h: History, limit: nat, w: real, now: real) {
    && |h.bucket| <= |h.log|
    && h.bucket == h.log[|h.log| - |h.bucket|..]
    && (forall i :: 0 <= i < |h.log| ==> h.log[i] <= now)
    && (forall i :: 0 <= i < |h.log| - |h.bucket| ==> h.log[i] < now - w)
    && |h.bucket| <= limit
  }

  /** On an ordered clock the history is sorted, and the deque its live end. */
  ghost predicate LiveSuffix(h: History, limit: nat, w: real, now: real) {
    Suffix(h, limit, w, now) && NonDecreasing(h.log)
  }

  /** On a clock that is late by at most `d`: every window shorter by `d` holds
      at most `limit`. */
  ghost predicate LateSuffix(h: History, limit: nat, w: real, now: real, d: real) {
    Suffix(h, limit, w, now) && Holds(h.log, w - d, limit)
  }

  /** The prune at `t`, seen on the full history: it keeps `log[k..]`. */
  lemma PruneHistory(h: History, limit: nat, w: real, now: real, t: real) returns (k: nat)
    requires Suffix(h, limit, w, now)
    ensures k <= |h.log| && Prune(h.bucket, t - w) == h.log[k..] && |h.log| - k <= limit
    ensures forall i :: 0 <= i < k ==> h.log[i] < Max(now, t) - w
    ensures |h.log| - |h.bucket| <= k && (k < |h.log| ==> h.log[k] >= t - w)
  {
    hide Prune;
    var base := |h.log| - |h.bucket|;
    var j := PruneDrops(h.log[base..], t - w);
    k := base + j;
    assert h.log[base..][j..] == h.log[k..];
    forall i | 0 <= i < k ensures h.log[i] < Max(now, t) - w {
      if i >= base { assert h.log[i] == h.log[base..][i - base]; }
    }
    assert k < |h.log| ==> h.log[k] == h.log[base..][j];
  }

  lemma StepKeepsSuffix(h: History, limit: nat, w: real, now: real, t: real)
    requires limit > 0 && Suffix(h, limit, w, now) && w >= 0.0
    ensures Suffix(Step(h, limit, w, t), limit, w, Max(now, t))
  {
    var k := PruneHistory(h, limit, w, now, t);
    assert SeenFrom(h.log, limit, w, Max(now, t), k);
    hide Suffix, SeenFrom, Prune;
    if |h.log[k..]| < limit {
      AdmissionKeepsSuffix(h.log, limit, w, Max(now, t), t, k);
    } else {
      RefusalKeepsSuffix(h.log, limit, w, Max(now, t), k);
    }
  }

  /** A prune keeps `log[k..]`, which fits the limit. */
  ghost predicate SeenFrom(log: seq<real>, limit: nat, w: real, now: real, k: nat) {
    && k <= |log| <= k + limit
    && (forall i :: 0 <= i < |log| ==> log[i] <= now)
    && (forall i :: 0 <= i < k ==> log[i] < now - w)
  }

  lemma RefusalKeepsSuffix(log: seq<real>, limit: nat, w: real, now: real, k: nat)
    requires SeenFrom(log, limit, w, now, k)
    ensures Suffix(History(log[k..], log), limit, w, now)
  {
  }

  lemma AdmissionKeepsSuffix(log: seq<real>, limit: nat, w: real, now: real, t: real, k: nat)
    requires SeenFrom(log, limit, w, now, k) && |log| < k + limit && t <= now
    ensures Suffix(History(log[k..] + [t], log + [t]), limit, w, now)
  {
    var all := log + [t];
    assert log[k..] + [t] == all[k..];
    assert forall i :: 0 <= i < |log| ==> all[i] == log[i];
  }

  lemma StepKeepsLiveSuffix(h: History, limit: nat, w: real, now: real, t: real)
    requires limit > 0 && w >= 0.0 && LiveSuffix(h, limit, w, now) && now <= t
    ensures LiveSuffix(Step(h, limit, w, t), limit, w, t)
  {
    StepKeepsSuffix(h, limit, w, now, t);
    hide Prune;
  }

  /** An admission that sees all but the first `k` of the history, when these are
      older than the window of the latest stamp. */
  lemma AdmissionHolds(log: seq<real>, k: nat, limit: nat, w: real, d: real, now: real, t: real)
    requires Holds(log, w - d, limit) && k <= |log| < k + limit && now <= t + d
    requires forall i :: 0 <= i < k ==> log[i] < now - w
    ensures Holds(log + [t], w - d, limit)
  {
    var more, v := log + [t], w - d;
    forall a: real ensures AtMost(more, a, v, limit) {
      AdmissionFits(log, k, limit, w, d, now, t, a);
    }
  }

  lemma AdmissionFits(log: seq<real>, k: nat, limit: nat, w: real, d: real, now: real, t: real, a: real)
    requires AtMost(log, a, w - d, limit) && k <= |log| < k + limit && now <= t + d
    requires forall i :: 0 <= i < k ==> log[i] < now - w
    ensures AtMost(log + [t], a, w - d, limit)
  {
    var s := Closed(log + [t], a, a + (w - d));
    if a <= t <= a + (w - d) {
      assert s <= Range(k, |log| + 1);
      SubsetSize(s, Range(k, |log| + 1));
      RangeSize(k, |log| + 1);
    } else {
      assert s == Closed(log, a, a + (w - d));
    }
  }

  lemma StepKeepsLateSuffix(h: History, limit: nat, w: real, now: real, t: real, d: real)
    requires limit > 0 && w >= 0.0 && d >= 0.0 && LateSuffix(h, limit, w, now, d) && now <= t + d
    ensures LateSuffix(Step(h, limit, w, t), limit, w, Max(now, t), d)
  {
    StepKeepsSuffix(h, limit, w, now, t);
    var k := PruneHistory(h, limit, w, now, t);
    hide Prune, Holds;
    if |h.log| < k + limit { AdmissionHolds(h.log, k, limit, w, d, Max(now, t), t); }
  }

  lemma {:induction false} DequeIsLiveSuffix(ts: seq<real>, limit: nat, w: real, now: real)
    requires limit > 0 && w >= 0.0 && NonDecreasing(ts)
    requires if ts == [] then true else now == ts[|ts| - 1]
    ensures LiveSuffix(Run(ts, limit, w), limit, w, now)
    decreases |ts|
  {
    if ts != [] {
      var n := |ts| - 1;
      DequeIsLiveSuffix(ts[..n], limit, w, if n == 0 then now else ts[n - 1]);
      StepKeepsLiveSuffix(Run(ts[..n], limit, w), limit, w, if n == 0 then now else ts[n - 1], now);
    }
  }

  function Latest(ts: seq<real>): real
    requires ts != []
  {
    if |ts| == 1 then ts[0] else Max(Latest(ts[..|ts| - 1]), ts[|ts| - 1])
  }

  lemma {:induction false} LatestIsLate(ts: seq<real>, t: real, d: real)
    requires ts != [] && LateBy(ts + [t], d)
    ensures Latest(ts) <= t + d
  {
    var n := |ts| - 1;
    assert (ts + [t])[n] == ts[n] && (ts + [t])[|ts|] == t;
    if n > 0 {
      LateByPart(ts, t, d);
      LatestIsLate(ts[..n], t, d);
    }
  }

  lemma LateByPart(ts: seq<real>, t: real, d: real)
    requires ts != [] && LateBy(ts + [t], d)
    ensures LateBy(ts[..|ts| - 1] + [t], d)
  {
    var all, part := ts + [t], ts[..|ts| - 1] + [t];
    forall i, j | 0 <= i < j < |part| ensures part[i] <= part[j] + d {
      assert part[i] == all[i];
      assert part[j] == all[if j == |part| - 1 then |ts| else j];
    }
  }

  /** After any run whose stamps are late by at most `d`. */
  lemma {:induction false} DequeIsLateSuffix(ts: seq<real>, limit: nat, w: real, d: real)
    requires limit > 0 && w >= 0.0 && d >= 0.0 && ts != [] && LateBy(ts, d)
    ensures LateSuffix(Run(ts, limit, w), limit, w, Latest(ts), d)
    decreases |ts|
  {
    var n := |ts| - 1;
    var t := ts[n];
    assert ts == ts[..n] + [t];
    if n == 0 {
      NothingLate(limit, w, t, d);
      StepKeepsLateSuffix(History([], []), limit, w, t, t, d);
    } else {
      DequeIsLateSuffix(ts[..n], limit, w, d);
      LatestIsLate(ts[..n], t, d);
      hide LateSuffix, Step;
      StepKeepsLateSuffix(Run(ts[..n], limit, w), limit, w, Latest(ts[..n]), t, d);
    }
  }

  lemma NothingLate(limit: nat, w: real, now: real, d: real)
    ensures LateSuffix(History([], []), limit, w, now, d)
  {
    var none: seq<real>, v := [], w - d;
    forall a: real ensures AtMost(none, a, v, limit) {
      assert Closed(none, a, a + v) == {};
    }
  }

  lemma LatestNow(ts: seq<real>, limit: nat, w: real, t: real) returns (now: real)
    requires limit > 0 && w >= 0.0 && NonDecreasing(ts + [t])
    ensures now <= t && LiveSuffix(Run(ts, limit, w), limit, w, now)
  {
    var all := ts + [t];
    assert forall i :: 0 <= i < |ts| ==> all[i] == ts[i];
    now := if ts == [] then t else all[|ts| - 1];
    assert ts != [] ==> all[|ts| - 1] <= all[|ts|];
    DequeIsLiveSuffix(ts, limit, w, now);
  }

  /** On a sorted history a prune at a later stamp keeps exactly what is live. */
  lemma LiveFrom(h: History, limit: nat, w: real, now: real, t: real) returns (k: nat)
    requires LiveSuffix(h, limit, w, now) && now <= t
    ensures k <= |h.log| && Prune(h.bucket, t - w) == h.log[k..] && |h.log| - k <= limit
    ensures forall i :: 0 <= i < k ==> h.log[i] < t - w
    ensures forall i :: k <= i < |h.log| ==> h.log[i] >= t - w
  {
    k := PruneHistory(h, limit, w, now, t);
    hide Prune;
  }

  /** A request is admitted exactly when fewer than `limit` of all admissions so
      far lie in the closed window that ends at it. */
  lemma AdmittedIff(ts: seq<real>, limit: nat, w: real, t: real)
    requires limit > 0 && w >= 0.0 && NonDecreasing(ts + [t])
    ensures Answer(ts, limit, w, t).Admitted? <==> |Closed(Run(ts, limit, w).log, t - w, t)| < limit
  {
    var h := Run(ts, limit, w);
    var now := LatestNow(ts, limit, w, t);
    var d := LiveFrom(h, limit, w, now, t);
    assert Closed(h.log, t - w, t) == Range(d, |h.log|);
    RangeSize(d, |h.log|);
  }

  /** Over any run whose stamps are late by at most `d` no closed window of width
      `w - d`, wherever it starts, holds more than `limit` admissions; on an
      ordered clock that is the whole window. */
  lemma WindowBound(ts: seq<real>, limit: nat, w: real, d: real, a: real)
    requires limit > 0 && w >= 0.0 && d >= 0.0 && LateBy(ts, d)
    ensures |Closed(Run(ts, limit, w).log, a, a + (w - d))| <= limit
  {
    if ts == [] {
      assert Closed(Run(ts, limit, w).log, a, a + (w - d)) == {};
    } else {
      DequeIsLateSuffix(ts, limit, w, d);
      assert AtMost(Run(ts, limit, w).log, a, w - d, limit);
    }
  }

  /** The Retry-After of a refusal is enough: as long as nothing else is admitted,
      a later request is admitted exactly when it comes more than `wait` seconds
      after, and the header exceeds `wait` by at most one second. */
  lemma RetryAfterSuffices(ts: seq<real>, limit: nat, w: real, t: real, us: seq<real>, later: real)
    requires limit > 0 && w >= 0.0 && NonDecreasing(ts + [t]) && NonDecreasing(ts + [t] + us + [later])
    requires Answer(ts, limit, w, t).Refused? && t <= later
    requires Run(ts + [t] + us, limit, w).log == Run(ts, limit, w).log
    ensures var header := Answer(ts, limit, w, t).retryAfter;
            var wait := Prune(Run(ts, limit, w).bucket, t - w)[0] + w - t;
            && 0.0 <= wait < header as real <= wait + 1.0
            && (Answer(ts + [t] + us, limit, w, later).Admitted? <==> wait < later - t)
  {
    var h := Run(ts, limit, w);
    var now := LatestNow(ts, limit, w, t);
    var d := LiveFrom(h, limit, w, now, t);
    hide Run, Prune, LiveSuffix, NonDecreasing, RetryAfter;
    assert Prune(h.bucket, t - w)[0] == h.log[d];
    assert |h.log| - d == limit;
    HeaderCoversWait(h.log[d], w, t);
    AdmittedIff(ts + [t] + us, limit, w, later);
    FullWindow(h.log, d, limit, later - w, later);
  }

  lemma HeaderCoversWait(oldest: real, w: real, t: real)
    requires oldest >= t - w
    ensures oldest + w - t < RetryAfter(oldest, w, t) as real <= oldest + w - t + 1.0
  {
  }

  /** A full window `log[d..]` is full exactly as long as its oldest entry is in. */
  lemma FullWindow(log: seq<real>, d: nat, limit: nat, a: real, b: real)
    requires limit > 0 && d + limit == |log| && NonDecreasing(log) && forall i :: 0 <= i < |log| ==> log[i] <= b
    ensures |Closed(log, a, b)| < limit <==> log[d] < a
  {
    var s := Closed(log, a, b);
    RangeSize(d, |log|);
    RangeSize(d + 1, |log|);
    if a <= log[d] {
      assert Range(d, |log|) <= s;
      SubsetSize(Range(d, |log|), s);
    } else {
      assert s <= Range(d + 1, |log|);
      SubsetSize(s, Range(d + 1, |log|));
    }
  }

  /** The first `n` requests were all admitted, and the deque holds those from
      place `k` on. */
  ghost predicate AllAdmitted(ts: seq<real>, n: nat, limit: nat, w: real, k: nat)
    requires limit > 0
  {
    k <= n <= |ts| && Run(ts[..n], limit, w) == History(ts[k..n], ts[..n])
  }

  lemma NextAdmitted(ts: seq<real>, n: nat, limit: nat, w: real, k: nat, l: nat)
    requires limit > 0 && n < |ts| && AllAdmitted(ts, n, limit, w, k) && k <= l <= n < l + limit
    requires forall i :: k <= i < l ==> ts[i] < ts[n] - w
    requires l < n ==> ts[l] >= ts[n] - w
    ensures AllAdmitted(ts, n + 1, limit, w, l)
  {
    hide Run, Prune, Check;
    var bucket := ts[k..n];
    assert Prune(bucket, ts[n] - w) == bucket[l - k..] by { PruneExactly(bucket, ts[n] - w, l - k); }
    CheckAdmits(bucket, limit, w, ts[n], l - k);
    assert ts[..n] + [ts[n]] == ts[..n + 1];
    RunSnoc(ts[..n], limit, w, ts[n]);
    assert bucket[l - k..] + [ts[n]] == ts[l..n + 1];
  }

  lemma CheckAdmits(bucket: seq<real>, limit: nat, w: real, t: real, d: nat)
    requires d <= |bucket| < d + limit && Prune(bucket, t - w) == bucket[d..]
    ensures Check(bucket, limit, w, t) == (bucket[d..] + [t], Admitted)
  {
  }

  /** `limit` requests at 0, one at `z` that pushes them all out of the deque, and
      one at `l`, stamped before it. */
  function LateStamp(limit: nat, z: real, l: real): seq<real> {
    seq(limit, _ => 0.0) + [z] + [l]
  }

  lemma LateStampIs(limit: nat, z: real, l: real)
    ensures var ts := LateStamp(limit, z, l);
            |ts| == limit + 2 && (forall i :: 0 <= i < limit ==> ts[i] == 0.0) && ts[limit] == z && ts[limit + 1] == l
  {
  }

  lemma LateStampIsAdmitted(limit: nat, w: real, z: real, l: real)
    requires limit >= 2 && w >= 0.0 && z > w && z >= l - w
    ensures Run(LateStamp(limit, z, l), limit, w).log == LateStamp(limit, z, l)
  {
    var ts := LateStamp(limit, z, l);
    NoneYet(ts, limit, w);
    hide AllAdmitted;
    for n := 0 to limit
      invariant AllAdmitted(ts, n, limit, w, 0)
    {
      NextAdmitted(ts, n, limit, w, 0, 0);
    }
    NextAdmitted(ts, limit, limit, w, 0, limit);
    NextAdmitted(ts, limit + 1, limit, w, limit, limit);
    LogOf(ts, limit, w, limit);
  }

  /** With a limit of two or more, lateness `d` costs exactly `d` of the window:
      every run whose stamps are late by at most `d` keeps to the limit in every
      closed window of width `v` if and only if `v` is at most `w - d` (or
      negative, when windows are empty). */
  lemma WindowBoundIff(limit: nat, w: real, d: real, v: real)
    requires limit >= 2 && w >= 0.0 && d >= 0.0
    ensures (forall ts :: LateBy(ts, d) ==> Holds(Run(ts, limit, w).log, v, limit)) <==> v < 0.0 || v <= w - d
  {
    if v < 0.0 || v <= w - d {
      forall ts, a: real | LateBy(ts, d) ensures AtMost(Run(ts, limit, w).log, a, v, limit) {
        WindowBound(ts, limit, w, d, a);
        NarrowerHolds(Run(ts, limit, w).log, a, v, w - d, limit);
      }
    } else {
      var l := if d <= w then v else 0.0;
      LateStampBreaks(limit, w, d, v, l);
    }
  }

  lemma NarrowerHolds(log: seq<real>, a: real, v: real, wide: real, limit: nat)
    requires AtMost(log, a, wide, limit) && (v < 0.0 || v <= wide)
    ensures AtMost(log, a, v, limit)
  {
    if v < 0.0 {
      assert Closed(log, a, a + v) == {};
    } else {
      SubsetSize(Closed(log, a, a + v), Closed(log, a, a + wide));
    }
  }

  /** The run that breaks it: the last request is `d` late and falls into the
      window that `limit` others already fill. */
  lemma LateStampBreaks(limit: nat, w: real, d: real, v: real, l: real)
    requires limit >= 2 && w >= 0.0 && d >= 0.0 && 0.0 <= l <= v && l + d > w
    ensures LateBy(LateStamp(limit, l + d, l), d)
    ensures !AtMost(Run(LateStamp(limit, l + d, l), limit, w).log, 0.0, v, limit)
    ensures !Holds(Run(LateStamp(limit, l + d, l), limit, w).log, v, limit)
  {
    var ts := LateStamp(limit, l + d, l);
    LateStampIsAdmitted(limit, w, l + d, l);
    LateStampIs(limit, l + d, l);
    hide Run, LateStamp;
    var inside := Range(0, limit) + {limit + 1};
    RangeSize(0, limit);
    assert inside <= Closed(ts, 0.0, 0.0 + v);
    SubsetSize(inside, Closed(ts, 0.0, 0.0 + v));
  }

  // ---- A limit of one --------------------------------------------------------

  /** The deque holds the last admission, and admissions are more than `w` apart. */
  ghost predicate Apart(h: History, w: real) {
    && (if h.log == [] then h.bucket == [] else h.bucket == [h.log[|h.log| - 1]])
    && forall i, j :: 0 <= i < j < |h.log| ==> h.log[i] + w < h.log[j]
  }

  lemma StepKeepsApart(h: History, w: real, t: real)
    requires w >= 0.0 && Apart(h, w)
    ensures Apart(Step(h, 1, w, t), w)
  {
    var all := h.log + [t];
    if h.log == [] {
      assert h.bucket + [t] == [t];
    } else {
      var last := h.log[|h.log| - 1];
      assert h.bucket[1..] == [];
      assert Prune(h.bucket, t - w) == if last >= t - w then h.bucket else [];
      if last < t - w {
        assert Step(h, 1, w, t) == History([t], all) by { assert [] + [t] == [t]; }
        assert forall i :: 0 <= i < |h.log| ==> all[i] == h.log[i] && h.log[i] <= last;
      }
    }
    hide Prune;
  }

  lemma {:induction false} RunIsApart(ts: seq<real>, w: real)
    requires w >= 0.0
    ensures Apart(Run(ts, 1, w), w)
  {
    if ts != [] {
      var n := |ts| - 1;
      RunIsApart(ts[..n], w);
      hide Apart, Step;
      StepKeepsApart(Run(ts[..n], 1, w), w, ts[n]);
    }
  }

  /** A limit of one needs no order at all: on any clock the bound holds for
      exactly the windows that are not wider than `w`. */
  lemma LimitOneBoundIff(w: real, v: real)
    requires w >= 0.0
    ensures (forall ts :: Holds(Run(ts, 1, w).log, v, 1)) <==> v <= w
  {
    if v <= w {
      forall ts, a: real ensures AtMost(Run(ts, 1, w).log, a, v, 1) {
        RunIsApart(ts, w);
        ApartFits(Run(ts, 1, w).log, w, v, a);
      }
    } else {
      TwoApart(w, v);
    }
  }

  lemma ApartFits(log: seq<real>, w: real, v: real, a: real)
    requires v <= w && forall i, j :: 0 <= i < j < |log| ==> log[i] + w < log[j]
    ensures AtMost(log, a, v, 1)
  {
    var s := Closed(log, a, a + v);
    if s != {} {
      var i :| i in s;
      assert forall j :: j in s ==> !(j < i) && !(i < j);
      assert s <= {i};
      SubsetSize(s, {i});
    }
  }

  lemma TwoApart(w: real, v: real)
    requires 0.0 <= w < v
    ensures !Holds(Run([0.0, v], 1, w).log, v, 1)
  {
    var ts := [0.0, v];
    NoneYet(ts, 1, w);
    hide AllAdmitted;
    NextAdmitted(ts, 0, 1, w, 0, 0);
    NextAdmitted(ts, 1, 1, w, 0, 1);
    LogOf(ts, 1, w, 1);
    hide Run;
    assert {0, 1} <= Closed(ts, 0.0, 0.0 + v);
    SubsetSize({0, 1}, Closed(ts, 0.0, 0.0 + v));
    assert !AtMost(ts, 0.0, v, 1);
  }

  lemma NoneYet(ts: seq<real>, limit: nat, w: real)
    requires limit > 0
    ensures AllAdmitted(ts, 0, limit, w, 0)
  {
  }

  lemma LogOf(ts: seq<real>, limit: nat, w: real, k: nat)
    requires limit > 0 && AllAdmitted(ts, |ts|, limit, w, k)
    ensures Run(ts, limit, w).log == ts
  {
    assert ts[..|ts|] == ts;
  }

  lemma {:induction false} PruneExactly(bucket: seq<real>, cutoff: real, k: nat)
    requires k <= |bucket|
    requires forall i :: 0 <= i < k ==> bucket[i] < cutoff
    requires k < |bucket| ==> bucket[k] >= cutoff
    ensures Prune(bucket, cutoff) == bucket[k..]
  {
    if k > 0 {
      PruneExactly(bucket[1..], cutoff, k - 1);
      assert bucket[1..][k - 1..] == bucket[k..];
    }
  }

  // ---- Several keys ------------------------------------------------------------

  datatype Request = Request(key: string, t: real)

  /** The deques after any sequence of requests by any keys. */
  function RunAll(rs: seq<Request>, limit: nat, w: real): map<string, seq<real>>
    requires limit > 0
  {
    if rs == [] then map[]
    else
      var n := |rs| - 1;
      var m := RunAll(rs[..n], limit, w);
      m[rs[n].key := Check(BucketOf(m, rs[n].key), limit, w, rs[n].t).0]
  }

  function TimesOf(rs: seq<Request>, key: string): seq<real> {
    if rs == [] then []
    else
      var n := |rs| - 1;
      TimesOf(rs[..n], key) + if rs[n].key == key then [rs[n].t] else []
  }

  /** However the keys' requests interleave, each key sees a limiter of its own. */
  lemma {:induction false} KeysAreIndependent(rs: seq<Request>, limit: nat, w: real, key: string)
    requires limit > 0
    ensures BucketOf(RunAll(rs, limit, w), key) == Run(TimesOf(rs, key), limit, w).bucket
  {
    if rs != [] {
      var n := |rs| - 1;
      KeysAreIndependent(rs[..n], limit, w, key);
      if rs[n].key == key {
        RunSnoc(TimesOf(rs[..n], key), limit, w, rs[n].t);
      } else {
        assert TimesOf(rs, key) == TimesOf(rs[..n], key);
      }
    }
  }
}
