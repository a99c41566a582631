/** Runs of the fleet put together on purpose: a call that is not interrupted is
    one, and so is the worst case that the fleet's bound allows. */
module FleetRuns {
  import opened Wrappers
  import opened Windows
  import opened FleetLimiter
  import opened FleetBounds
  import ML = MemoryLimiter
  import R = RedisLimiter

  ghost predicate Path(run: seq<Fleet>, steps: seq<Step>, limit: nat, w: real, d: Lag)
    requires limit > 0
  {
    |run| == |steps| + 1 && forall i :: 0 <= i < |steps| ==> Next(run[i], run[i + 1], steps[i], limit, w, d)
  }

  ghost predicate Reaches(s: Fleet, t: Fleet, limit: nat, w: real, d: Lag)
    requires limit > 0
  {
    exists run, steps :: Path(run, steps, limit, w, d) && run[0] == s && run[|steps|] == t
  }

  lemma ReachesItself(s: Fleet, limit: nat, w: real, d: Lag)
    requires limit > 0
    ensures Reaches(s, s, limit, w, d)
  {
    assert Path([s], [], limit, w, d);
  }

  lemma ReachesBy(s: Fleet, t: Fleet, u: Fleet, step: Step, limit: nat, w: real, d: Lag)
    requires limit > 0 && Reaches(s, t, limit, w, d) && Next(t, u, step, limit, w, d)
    ensures Reaches(s, u, limit, w, d)
  {
    hide Next;
    var run, steps :| Path(run, steps, limit, w, d) && run[0] == s && run[|steps|] == t;
    var run', steps' := run + [u], steps + [step];
    forall i | 0 <= i < |steps'| ensures Next(run'[i], run'[i + 1], steps'[i], limit, w, d) {
      if i < |steps| { assert run'[i] == run[i] && run'[i + 1] == run[i + 1] && steps'[i] == steps[i]; }
    }
    assert Path(run', steps', limit, w, d);
  }

  /** What is reached from an initial state is a state of a run. */
  lemma ReachedInRun(s: Fleet, t: Fleet, n: nat, limit: nat, w: real, d: Lag)
    returns (run: seq<Fleet>, steps: seq<Step>)
    requires limit > 0 && Init(s, n) && Reaches(s, t, limit, w, d)
    ensures IsRun(run, steps, n, limit, w, d) && run[0] == s && run[|steps|] == t
  {
    run, steps :| Path(run, steps, limit, w, d) && run[0] == s && run[|steps|] == t;
  }

  // ---- An uninterrupted call --------------------------------------------------

  /** The submit is over: the set is `zset`, the worker's deque `live`, and the
      caller was told `o`. */
  ghost predicate Ended(u: Fleet, id: nat, worker: nat, ts: real, zset: map<nat, real>, live: seq<real>,
                        o: ML.Outcome)
  {
    && u.zset == zset && worker < |u.local| && u.local[worker].bucket == live
    && id in u.phases && u.phases[id] == if o.Admitted? then Admitted(ts) else Refused(ts)
  }

  /** The submit may run now, on its worker and on its fallback. */
  ghost predicate MayCall(s: Fleet, id: nat, d: Lag) {
    && Ready(s, id, d)
    && s.phases[id].worker < |s.local| && s.local[s.phases[id].worker].now <= s.phases[id].ts + d.stamp
  }

  lemma FallbackIsStep(s: Fleet, t: Fleet, id: nat, limit: nat, w: real, d: Lag, live: seq<real>, o: ML.Outcome)
    returns (u: Fleet)
    requires limit > 0 && Reaches(s, t, limit, w, d) && id in t.phases && t.phases[id].Failed?
    requires t.phases[id].worker < |t.local| && t.local[t.phases[id].worker].now <= t.phases[id].ts + d.stamp
    requires (live, o) == ML.Check(t.local[t.phases[id].worker].bucket, limit, w, t.phases[id].ts)
    ensures Reaches(s, u, limit, w, d) && Ended(u, id, t.phases[id].worker, t.phases[id].ts, t.zset, live, o)
  {
    u := AfterLocal(t, id, limit, w);
    hide ML.Check, Reaches;
    ReachesBy(s, t, u, AskLocal(id), limit, w, d);
  }

  lemma LostTransactionIsSteps(s: Fleet, id: nat, applied: bool, limit: nat, w: real, d: Lag,
                               live: seq<real>, o: ML.Outcome)
    returns (u: Fleet)
    requires limit > 0 && MayCall(s, id, d)
    requires (live, o) == ML.Check(s.local[s.phases[id].worker].bucket, limit, w, s.phases[id].ts)
    ensures Reaches(s, u, limit, w, d)
    ensures var Started(worker, ts) := s.phases[id];
            Ended(u, id, worker, ts, if applied then Counted(s.zset, id, ts, w) else s.zset, live, o)
  {
    hide ML.Check, Reaches, Counted, Ended;
    var Started(worker, ts) := s.phases[id];
    ReachesItself(s, limit, w, d);
    var t;
    if applied {
      t := Goes(s.(zset := Counted(s.zset, id, ts, w), latest := Max(s.latest, ts),
                   expiresAt := s.server + w + GRACE_SEC, leaked := s.leaked + {id}),
                id, Failed(worker, ts));
      ReachesBy(s, s, t, TransactReplyLost(id), limit, w, d);
    } else {
      t := Goes(s, id, Failed(worker, ts));
      ReachesBy(s, s, t, TransactFails(id), limit, w, d);
    }
    u := FallbackIsStep(s, t, id, limit, w, d, live, o);
  }

  /** The transaction alone: admitted, or over the cap with the member still in. */
  lemma TransactionIsStep(s: Fleet, id: nat, limit: nat, w: real, d: Lag) returns (t: Fleet)
    requires limit > 0 && MayCall(s, id, d)
    ensures Reaches(s, t, limit, w, d)
    ensures var Started(worker, ts) := s.phases[id];
            && t.zset == Counted(s.zset, id, ts, w) && t.local == s.local && id in t.phases
            && t.phases[id] == if |t.zset| <= limit then Admitted(ts) else Over(worker, ts)
  {
    hide Reaches, Counted;
    ReachesItself(s, limit, w, d);
    t := AfterTransaction(s, id, limit, w);
    ReachesBy(s, s, t, Transact(id), limit, w, d);
  }

  lemma LostRollbackIsSteps(s: Fleet, t: Fleet, id: nat, applied: bool, limit: nat, w: real, d: Lag,
                            live: seq<real>, o: ML.Outcome)
    returns (u: Fleet)
    requires limit > 0 && Reaches(s, t, limit, w, d) && id in t.phases && t.phases[id].Over?
    requires t.phases[id].worker < |t.local| && t.local[t.phases[id].worker].now <= t.phases[id].ts + d.stamp
    requires (live, o) == ML.Check(t.local[t.phases[id].worker].bucket, limit, w, t.phases[id].ts)
    ensures Reaches(s, u, limit, w, d)
    ensures Ended(u, id, t.phases[id].worker, t.phases[id].ts, if applied then t.zset - {id} else t.zset, live, o)
  {
    hide ML.Check, Reaches, Ended;
    var Over(worker, ts) := t.phases[id];
    var t';
    if applied {
      t' := Goes(t.(zset := t.zset - {id}), id, Failed(worker, ts));
      ReachesBy(s, t, t', RollbackReplyLost(id), limit, w, d);
    } else {
      t' := Goes(t.(leaked := t.leaked + {id}), id, Failed(worker, ts));
      ReachesBy(s, t, t', RollbackFails(id), limit, w, d);
    }
    u := FallbackIsStep(s, t', id, limit, w, d, live, o);
  }

  lemma RollbackIsStep(s: Fleet, t: Fleet, id: nat, limit: nat, w: real, d: Lag) returns (u: Fleet)
    requires limit > 0 && Reaches(s, t, limit, w, d) && id in t.phases && t.phases[id].Over?
    ensures Reaches(s, u, limit, w, d) && u.zset == t.zset - {id} && u.local == t.local
    ensures u.phases == t.phases[id := RolledBack(t.phases[id].worker, t.phases[id].ts)]
    ensures u.log == t.log && SameTimes(t, u)
  {
    hide Reaches;
    u := Goes(t.(zset := t.zset - {id}), id, RolledBack(t.phases[id].worker, t.phases[id].ts));
    ReachesBy(s, t, u, Rollback(id), limit, w, d);
  }

  lemma LostReadIsSteps(s: Fleet, t: Fleet, id: nat, limit: nat, w: real, d: Lag, live: seq<real>, o: ML.Outcome)
    returns (u: Fleet)
    requires limit > 0 && Reaches(s, t, limit, w, d) && id in t.phases && t.phases[id].RolledBack?
    requires t.phases[id].worker < |t.local| && t.local[t.phases[id].worker].now <= t.phases[id].ts + d.stamp
    requires (live, o) == ML.Check(t.local[t.phases[id].worker].bucket, limit, w, t.phases[id].ts)
    ensures Reaches(s, u, limit, w, d)
    ensures Ended(u, id, t.phases[id].worker, t.phases[id].ts, t.zset, live, o)
  {
    hide ML.Check, Reaches, Ended;
    var t' := Goes(t, id, Failed(t.phases[id].worker, t.phases[id].ts));
    ReachesBy(s, t, t', ReadOldestFails(id), limit, w, d);
    u := FallbackIsStep(s, t', id, limit, w, d, live, o);
  }

  lemma ReadIsStep(s: Fleet, t: Fleet, id: nat, limit: nat, w: real, d: Lag, o: ML.Outcome) returns (u: Fleet)
    requires limit > 0 && Reaches(s, t, limit, w, d) && id in t.phases && t.phases[id].RolledBack?
    requires t.phases[id].worker < |t.local| && o.Refused?
    ensures Reaches(s, u, limit, w, d)
    ensures Ended(u, id, t.phases[id].worker, t.phases[id].ts, t.zset, t.local[t.phases[id].worker].bucket, o)
  {
    hide Reaches;
    u := Goes(t, id, Refused(t.phases[id].ts));
    ReachesBy(s, t, u, ReadOldest(id), limit, w, d);
  }

  /** Whatever fails, a call of `RedisRateLimiter.CheckAndRecord` that nobody
      interrupts is a run of the fleet: same set, same deque, same answer. */
  lemma CallIsSteps(s: Fleet, id: nat, fault: R.Fault, r: Result<Option<int>, ()>, now: map<nat, real>,
                    live: seq<real>, o: ML.Outcome, limit: nat, w: real, d: Lag)
    returns (u: Fleet)
    requires limit > 0 && MayCall(s, id, d)
    requires R.CountsTo(r, now, s.zset, id, s.phases[id].ts, limit, w, fault)
    requires R.Called(o, r, s.local[s.phases[id].worker].bucket, live, s.phases[id].ts, limit, w)
    ensures Reaches(s, u, limit, w, d)
    ensures Ended(u, id, s.phases[id].worker, s.phases[id].ts, now, live, o)
  {
    hide ML.Check, Reaches, Counted, R.IsOldest;
    if fault.TransactionFails? {
      u := LostTransactionIsSteps(s, id, fault.applied, limit, w, d, live, o);
    } else {
      u := TransactionIsStep(s, id, limit, w, d);
      if u.phases[id].Over? {
        if fault.RollbackFails? {
          u := LostRollbackIsSteps(s, u, id, fault.applied, limit, w, d, live, o);
        } else {
          u := RollbackIsStep(s, u, id, limit, w, d);
          if fault.ReadFails? {
            u := LostReadIsSteps(s, u, id, limit, w, d, live, o);
          } else {
            u := ReadIsStep(s, u, id, limit, w, d, o);
          }
        }
      }
    }
  }

  // ---- The worst case -----------------------------------------------------------

  function Same(a: real, k: nat): seq<real> {
    seq(k, _ => a)
  }

  function Zeros(n: nat): seq<nat> {
    seq(n, _ => 0)
  }

  /** A transaction stamped `a` keeps to the lag. */
  ghost predicate InTime(s: Fleet, a: real, d: Lag) {
    s.latest <= a + d.stamp && s.expired <= a + d.expiry && a <= s.server + d.ahead
  }

  /** Everything asked for was admitted, all of it stamped `a`: `redis` submits by
      Redis, `counts[j]` by the fallback of worker `j`, `total` in all. */
  ghost predicate AllAt(s: Fleet, a: real, redis: nat, counts: seq<nat>, total: nat, d: Lag) {
    && |s.local| == |counts| && InTime(s, a, d) && s.latest <= a
    && (forall j :: 0 <= j < |counts| ==> s.local[j].bucket == Same(a, counts[j]) && s.local[j].now <= a)
    && |s.zset| == redis && (forall m :: m in s.zset ==> s.zset[m] == a && m < total)
    && (forall id: nat :: id in s.phases <==> id < total)
    && (forall id :: id in s.phases ==> s.phases[id] == Admitted(a))
  }

  /** The first `redis` of them were logged by Redis. */
  ghost predicate RedisLog(s: Fleet, a: real, redis: nat) {
    |s.log| == redis && forall i: nat :: i < redis ==> s.log[i] == Entry(i, a)
  }

  lemma NonePrunedNow(zset: map<nat, real>, id: nat, ts: real, w: real)
    requires id !in zset && forall m :: m in zset ==> zset[m] > ts - w
    ensures Counted(zset, id, ts, w) == zset[id := ts] && |zset[id := ts]| == |zset| + 1
  {
  }

  lemma TransactionAdds(t: Fleet, id: nat, limit: nat, w: real) returns (u: Fleet)
    requires id in t.phases && t.phases[id].Started? && w > 0.0 && id !in t.zset && |t.zset| < limit
    requires forall m :: m in t.zset ==> t.zset[m] == t.phases[id].ts
    ensures u == AfterTransaction(t, id, limit, w)
    ensures var ts := t.phases[id].ts;
            && u.zset == t.zset[id := ts] && |u.zset| == |t.zset| + 1 && u.latest == Max(t.latest, ts)
            && u.server == t.server && u.expired == t.expired && u.expiresAt == t.server + w + GRACE_SEC
            && u.local == t.local && u.phases == t.phases[id := Admitted(ts)]
            && u.log == t.log + [Entry(id, ts)]
  {
    u := AfterTransaction(t, id, limit, w);
    NonePrunedNow(t.zset, id, t.phases[id].ts, w);
    hide Counted;
  }

  lemma OneMoreByRedis(s: Fleet, a: real, counts: seq<nat>, k: nat, limit: nat, w: real, d: Lag) returns (u: Fleet)
    requires 0 <= k < limit && w > 0.0 && a >= 0.0 && d.Valid() && |counts| > 0 && AllAt(s, a, k, counts, k, d)
    requires RedisLog(s, a, k)
    ensures AllAt(u, a, k + 1, counts, k + 1, d) && RedisLog(u, a, k + 1)
    ensures u.server == s.server && u.expired == s.expired && u.expiresAt == s.server + w + GRACE_SEC
    ensures exists t :: Next(s, t, Begin(k, 0, a), limit, w, d) && Next(t, u, Transact(k), limit, w, d)
  {
    hide AfterTransaction, Same;
    var t := Goes(s, k, Started(0, a));
    u := TransactionAdds(t, k, limit, w);
    assert Next(s, t, Begin(k, 0, a), limit, w, d) && Next(t, u, Transact(k), limit, w, d);
  }

  lemma SameAdmits(a: real, k: nat, limit: nat, w: real)
    requires k < limit && w > 0.0
    ensures ML.Check(Same(a, k), limit, w, a) == (Same(a, k + 1), ML.Admitted)
  {
    ML.PruneExactly(Same(a, k), a - w, 0);
    assert Same(a, k) + [a] == Same(a, k + 1);
  }

  lemma OneMoreByFallback(s: Fleet, a: real, redis: nat, counts: seq<nat>, total: nat, j: nat,
                          limit: nat, w: real, d: Lag)
    returns (u: Fleet)
    requires limit > 0 && w > 0.0 && a >= 0.0 && d.Valid()
    requires j < |counts| && counts[j] < limit && AllAt(s, a, redis, counts, total, d)
    ensures AllAt(u, a, redis, counts[j := counts[j] + 1], total + 1, d) && u.log == s.log
    ensures exists t, t' ::
              && Next(s, t, Begin(total, j, a), limit, w, d)
              && Next(t, t', TransactFails(total), limit, w, d)
              && Next(t', u, AskLocal(total), limit, w, d)
  {
    var t := Goes(s, total, Started(j, a));
    var t' := Goes(t, total, Failed(j, a));
    SameAdmits(a, counts[j], limit, w);
    hide ML.Check, Same;
    u := AfterLocal(t', total, limit, w);
    assert Next(s, t, Begin(total, j, a), limit, w, d) && Next(t, t', TransactFails(total), limit, w, d)
      && Next(t', u, AskLocal(total), limit, w, d);
  }

  /** `r` submits admitted by Redis, all stamped `a`. */
  lemma FillRedis(s: Fleet, a: real, n: nat, r: nat, limit: nat, w: real, d: Lag) returns (u: Fleet)
    requires limit > 0 && r <= limit && w > 0.0 && a >= 0.0 && d.Valid() && n > 0
    requires AllAt(s, a, 0, Zeros(n), 0, d) && RedisLog(s, a, 0)
    ensures Reaches(s, u, limit, w, d) && AllAt(u, a, r, Zeros(n), r, d) && RedisLog(u, a, r)
    ensures u.server == s.server && u.expired == s.expired
    ensures r > 0 ==> u.expiresAt == s.server + w + GRACE_SEC
  {
    assert |Zeros(n)| == n;
    hide AllAt, Reaches, Next, RedisLog;
    ReachesItself(s, limit, w, d);
    u := s;
    for k := 0 to r
      invariant Reaches(s, u, limit, w, d) && AllAt(u, a, k, Zeros(n), k, d) && RedisLog(u, a, k)
      invariant u.server == s.server && u.expired == s.expired
      invariant k > 0 ==> u.expiresAt == s.server + w + GRACE_SEC
    {
      var was := u;
      u := OneMoreByRedis(was, a, Zeros(n), k, limit, w, d);
      var t :| Next(was, t, Begin(k, 0, a), limit, w, d) && Next(t, u, Transact(k), limit, w, d);
      ReachesBy(s, was, t, Begin(k, 0, a), limit, w, d);
      ReachesBy(s, t, u, Transact(k), limit, w, d);
    }
  }

  lemma FillFallback(s: Fleet, v: Fleet, a: real, redis: nat, counts: seq<nat>, total: nat, j: nat,
                     limit: nat, w: real, d: Lag)
    returns (u: Fleet)
    requires limit > 0 && w > 0.0 && a >= 0.0 && d.Valid() && j < |counts| && counts[j] == 0
    requires Reaches(s, v, limit, w, d) && AllAt(v, a, redis, counts, total, d)
    ensures Reaches(s, u, limit, w, d) && AllAt(u, a, redis, counts[j := limit], total + limit, d) && u.log == v.log
  {
    hide AllAt, Reaches, Next;
    assert counts[j := 0] == counts;
    u := v;
    for k := 0 to limit
      invariant Reaches(s, u, limit, w, d) && AllAt(u, a, redis, counts[j := k], total + k, d) && u.log == v.log
    {
      var was, id := u, total + k;
      u := OneMoreByFallback(was, a, redis, counts[j := k], id, j, limit, w, d);
      assert counts[j := k][j := k + 1] == counts[j := k + 1];
      var t, t' :| Next(was, t, Begin(id, j, a), limit, w, d) && Next(t, t', TransactFails(id), limit, w, d)
        && Next(t', u, AskLocal(id), limit, w, d);
      ReachesBy(s, was, t, Begin(id, j, a), limit, w, d);
      ReachesBy(s, t, t', TransactFails(id), limit, w, d);
      ReachesBy(s, t', u, AskLocal(id), limit, w, d);
    }
  }

  /** The first `j` fallbacks are full, the others empty. */
  function Filled(n: nat, j: nat, limit: nat): seq<nat> {
    seq(n, k => if k < j then limit else 0)
  }

  /** The stamps may be `a`. */
  ghost predicate NotAfter(s: Fleet, a: real, d: Lag) {
    a >= 0.0 && InTime(s, a, d) && s.latest <= a && forall j :: 0 <= j < |s.local| ==> s.local[j].now <= a
  }

  /** The bounds are the best possible: from every initial state a fleet of `n`
      workers can be brought to admit `r + n * limit` submits at one moment, any
      `r` up to `limit` of them by Redis and, after it fails, `limit` by every
      fallback. */
  lemma FleetBoundIsReached(s: Fleet, n: nat, limit: nat, w: real, d: Lag, r: nat, a: real, v: real)
    returns (run: seq<Fleet>, steps: seq<Step>)
    requires limit > 0 && r <= limit && n > 0 && w > 0.0 && d.Valid() && v > 0.0 && Init(s, n) && NotAfter(s, a, d)
    ensures IsRun(run, steps, n, limit, w, d) && run[0] == s
    ensures |HalfOpen(Times(run[|steps|].log), a - v, a)| == r
    ensures |AdmittedIn(run[|steps|], a - v, a)| == r + n * limit
  {
    NothingYet(s, n, a, d);
    hide *;
    var u := FillRedis(s, a, n, r, limit, w, d);
    RedisLogSize(u, a, r, v);
    var log, total: nat := u.log, r;
    for j := 0 to n
      invariant Reaches(s, u, limit, w, d) && AllAt(u, a, r, Filled(n, j, limit), total, d) && u.log == log
      invariant total == Total(r, j, limit)
    {
      NextTotal(r, j, limit);
      u := FillFallback(s, u, a, r, Filled(n, j, limit), total, j, limit, w, d);
      total := total + limit;
    }
    AllAdmitted(u, a, r, Filled(n, n, limit), total, v, d);
    run, steps := ReachedInRun(s, u, n, limit, w, d);
  }

  function Total(r: nat, j: nat, limit: nat): nat {
    r + j * limit
  }

  lemma NextTotal(r: nat, j: nat, limit: nat)
    ensures Total(r, j + 1, limit) == Total(r, j, limit) + limit
  {
    OneMore(j, limit);
  }

  lemma RedisLogSize(u: Fleet, a: real, r: nat, v: real)
    requires v > 0.0 && RedisLog(u, a, r)
    ensures |HalfOpen(Times(u.log), a - v, a)| == r
  {
    assert HalfOpen(Times(u.log), a - v, a) == Range(0, r);
    RangeSize(0, r);
  }

  lemma NothingYet(s: Fleet, n: nat, a: real, d: Lag)
    requires Init(s, n) && NotAfter(s, a, d)
    ensures AllAt(s, a, 0, Zeros(n), 0, d) && RedisLog(s, a, 0)
  {
    assert Same(a, 0) == [];
    forall j | 0 <= j < n ensures s.local[j].bucket == Same(a, Zeros(n)[j]) {
      assert Zeros(n)[j] == 0;
    }
  }

  lemma AllAdmitted(u: Fleet, a: real, redis: nat, counts: seq<nat>, total: nat, v: real, d: Lag)
    requires v > 0.0 && AllAt(u, a, redis, counts, total, d)
    ensures |AdmittedIn(u, a - v, a)| == total
  {
    assert AdmittedIn(u, a - v, a) == Range(0, total);
    RangeSize(0, total);
  }

  /** A fleet that has just started, when Redis shows `server`. */
  function NewFleet(n: nat, server: real): Fleet {
    Fleet(map[], server, server, 0.0, 0.0, [], {}, map[], seq(n, _ => Fallback([], [], 0.0)))
  }

  // ---- What the fallbacks are promised for ------------------------------------

  /** Redis admitted `r` submits in the window of width `v` at `a`. */
  ghost predicate RedisAdmitted(s: Fleet, a: real, v: real, r: nat) {
    |HalfOpen(Times(s.log), a, a + v)| == r
  }

  ghost predicate FleetFits(s: Fleet, a: real, v: real, bound: nat) {
    |AdmittedIn(s, a, a + v)| <= bound
  }

  /** Every window in which Redis admitted `r` holds at most `n * limit` in all. */
  ghost predicate DocumentedBound(n: nat, limit: nat, w: real, d: Lag, v: real, r: nat)
    requires limit > 0
  {
    forall run, steps, a: real ::
      IsRun(run, steps, n, limit, w, d) && RedisAdmitted(run[|steps|], a, v, r) ==>
        FleetFits(run[|steps|], a, v, n * limit)
  }

  /** The documented bound holds for exactly the windows in which Redis admitted
      nothing. */
  lemma DocumentedBoundIff(n: nat, limit: nat, w: real, d: Lag, r: nat)
    requires limit > 0 && n > 0 && w > 0.0 && d.Valid() && d.Total() < w && r <= limit
    ensures DocumentedBound(n, limit, w, d, w - d.Total(), r) <==> r == 0
  {
    var v := w - d.Total();
    if r == 0 {
      forall run, steps, a: real | IsRun(run, steps, n, limit, w, d) && RedisAdmitted(run[|steps|], a, v, r)
        ensures FleetFits(run[|steps|], a, v, n * limit)
      {
        OutageWindowBound(run, steps, n, limit, w, d, |steps|, a);
      }
    } else {
      var run, steps := FleetBoundIsReached(NewFleet(n, 0.0), n, limit, w, d, r, 0.0, v);
      hide IsRun, HalfOpen, AdmittedIn, Times;
      assert 0.0 - v + v == 0.0;
      assert RedisAdmitted(run[|steps|], 0.0 - v, v, r) && !FleetFits(run[|steps|], 0.0 - v, v, n * limit);
    }
  }

  // ---- What lag costs -------------------------------------------------------------

  ghost predicate RedisFits(s: Fleet, a: real, v: real, limit: nat) {
    |HalfOpen(Times(s.log), a, a + v)| <= limit
  }

  /** Every run keeps every window of width `v` to the limit. */
  ghost predicate RedisKeeps(n: nat, limit: nat, w: real, d: Lag, v: real)
    requires limit > 0
  {
    forall run, steps, a: real :: IsRun(run, steps, n, limit, w, d) ==> RedisFits(run[|steps|], a, v, limit)
  }

  lemma NarrowerFits(s: Fleet, a: real, v: real, wide: real, limit: nat)
    requires RedisFits(s, a, wide, limit) && (v <= 0.0 || v <= wide)
    ensures RedisFits(s, a, v, limit)
  {
    if v <= 0.0 {
      assert HalfOpen(Times(s.log), a, a + v) == {};
    } else {
      SubsetSize(HalfOpen(Times(s.log), a, a + v), HalfOpen(Times(s.log), a, a + wide));
    }
  }

  /** The lag costs exactly its total: Redis keeps every window of width `v` to the
      limit, in all runs that keep to the lag, if and only if `v` is at most `w`
      less the total (or no window at all). Of how late a submit may come after an
      expiry, and how far stamps may run ahead, 60 seconds cost nothing. */
  lemma RedisWindowBoundIff(n: nat, limit: nat, w: real, d: Lag, v: real)
    requires limit > 0 && n > 0 && w > 0.0 && d.Valid()
    ensures RedisKeeps(n, limit, w, d, v) <==> v <= 0.0 || v <= w - d.Total()
  {
    if v <= 0.0 || v <= w - d.Total() {
      forall run, steps, a: real | IsRun(run, steps, n, limit, w, d) ensures RedisFits(run[|steps|], a, v, limit) {
        RedisWindowBound(run, steps, n, limit, w, d, |steps|, a);
        NarrowerFits(run[|steps|], a, v, w - d.Total(), limit);
      }
    } else {
      var l := Max(w - d.Total(), 0.0);
      var run, steps, a := Overfull(n, limit, w, d, l);
      TooMany(run[|steps|], limit, a, l, v);
    }
  }

  /** A run with `limit` admissions stamped `a` and one more stamped `a + l`. */
  lemma Overfull(n: nat, limit: nat, w: real, d: Lag, l: real)
    returns (run: seq<Fleet>, steps: seq<Step>, a: real)
    requires limit > 0 && n > 0 && w > 0.0 && d.Valid() && l == Max(w - d.Total(), 0.0)
    ensures IsRun(run, steps, n, limit, w, d) && OneTooMany(run[|steps|], limit, a, l)
  {
    if d.stamp >= d.expiry + d.ahead - GRACE_SEC {
      a := 0.0;
      var u := LateAdmission(NewFleet(n, w), n, limit, w, d, l);
      run, steps := ReachedInRun(NewFleet(n, w), u, n, limit, w, d);
    } else {
      a := d.ahead;
      var u := AdmissionAfterExpiry(NewFleet(n, 0.0), n, limit, w, d, l);
      run, steps := ReachedInRun(NewFleet(n, 0.0), u, n, limit, w, d);
    }
  }

  ghost predicate OneTooMany(u: Fleet, limit: nat, a: real, l: real) {
    && |u.log| > limit && u.log[|u.log| - 1].ts == a + l
    && forall i :: 0 <= i < limit ==> u.log[i].ts == a
  }

  lemma TooMany(u: Fleet, limit: nat, a: real, l: real, v: real)
    requires 0.0 <= l < v && OneTooMany(u, limit, a, l)
    ensures !RedisFits(u, a + l - v, v, limit)
  {
    var inside, all := Range(0, limit) + {|u.log| - 1}, HalfOpen(Times(u.log), a + l - v, a + l - v + v);
    RangeSize(0, limit);
    assert inside <= all;
    SubsetSize(inside, all);
  }

  /** A submit of worker 0 from its start to the end of its transaction. */
  lemma SubmitIsSteps(s: Fleet, t: Fleet, id: nat, ts: real, limit: nat, w: real, d: Lag) returns (u: Fleet)
    requires limit > 0 && Reaches(s, t, limit, w, d) && |t.local| > 0
    requires id !in t.phases && ts >= 0.0 && InTime(t, ts, d)
    ensures Reaches(s, u, limit, w, d) && |u.local| == |t.local|
    ensures u.zset == Counted(t.zset, id, ts, w) && u.latest == Max(t.latest, ts)
    ensures u.server == t.server && u.expired == t.expired
    ensures var ok := UnderCap(t.zset, id, ts, limit, w);
            && u.log == (if ok then t.log + [Entry(id, ts)] else t.log)
            && u.phases == t.phases[id := if ok then Admitted(ts) else Over(0, ts)]
  {
    hide Reaches, Counted, UnderCap;
    var b := Goes(t, id, Started(0, ts));
    ReachesBy(s, t, b, Begin(id, 0, ts), limit, w, d);
    u := AfterTransaction(b, id, limit, w);
    assert t.phases[id := Started(0, ts)][id := Admitted(ts)] == t.phases[id := Admitted(ts)];
    assert t.phases[id := Started(0, ts)][id := Over(0, ts)] == t.phases[id := Over(0, ts)];
    ReachesBy(s, b, u, Transact(id), limit, w, d);
  }

  lemma CountedOneMore(zset: map<nat, real>, id: nat, ts: real, w: real)
    ensures |Counted(zset, id, ts, w)| <= |zset| + 1
  {
    var z := Counted(zset, id, ts, w);
    SubsetSize(z.Keys, zset.Keys + {id});
    assert |zset.Keys + {id}| <= |zset.Keys| + 1;
    assert |z| == |z.Keys| && |zset| == |zset.Keys|;
  }

  lemma AllPruned(zset: map<nat, real>, id: nat, ts: real, w: real)
    requires forall m :: m in zset ==> 0.0 <= zset[m] <= ts - w
    ensures Counted(zset, id, ts, w) == map[id := ts]
  {
    assert PrunedSet(zset, ts - w) == map[];
  }

  /** Stamps that come late: `limit` admissions stamped 0, something that pushes
      them out of the set, and then one more stamped `l`. */
  lemma LateAdmission(s: Fleet, n: nat, limit: nat, w: real, d: Lag, l: real) returns (u: Fleet)
    requires limit > 0 && n > 0 && w > 0.0 && d.Valid() && Init(s, n) && NotAfter(s, 0.0, d)
    requires 0.0 <= l <= w <= l + d.stamp && w <= s.server + d.ahead
    ensures Reaches(s, u, limit, w, d) && OneTooMany(u, limit, 0.0, l)
  {
    NothingYet(s, n, 0.0, d);
    u := FillRedis(s, 0.0, n, limit, limit, w, d);
    assert |Zeros(n)| == n;
    hide Reaches;
    if limit >= 2 {
      u := PushedOutByOne(s, u, Zeros(n), limit, w, d, l);
    } else {
      u := PushedOutByPhantom(s, u, Zeros(n), w, d, l);
    }
  }

  /** With a limit of two or more, the pushing submit may itself be admitted. */
  lemma PushedOutByOne(s: Fleet, t: Fleet, counts: seq<nat>, limit: nat, w: real, d: Lag, l: real) returns (u: Fleet)
    requires limit >= 2 && |counts| > 0 && w > 0.0 && d.Valid()
    requires 0.0 <= l <= w <= l + d.stamp && w <= t.server + d.ahead
    requires Reaches(s, t, limit, w, d) && AllAt(t, 0.0, limit, counts, limit, d) && RedisLog(t, 0.0, limit)
    ensures Reaches(s, u, limit, w, d) && OneTooMany(u, limit, 0.0, l)
  {
    hide Reaches, Counted;
    AllPruned(t.zset, limit, w, w);
    u := SubmitIsSteps(s, t, limit, w, limit, w, d);
    CountedOneMore(u.zset, limit + 1, l, w);
    u := SubmitIsSteps(s, u, limit + 1, l, limit, w, d);
  }

  /** With a limit of one it has to be a phantom: two submits over the cap, the
      second of which prunes the admission, both rolled back afterwards. */
  lemma PushedOutByPhantom(s: Fleet, t: Fleet, counts: seq<nat>, w: real, d: Lag, l: real) returns (u: Fleet)
    requires |counts| > 0 && w > 0.0 && d.Valid()
    requires 0.0 <= l <= w <= l + d.stamp && w <= t.server + d.ahead
    requires Reaches(s, t, 1, w, d) && AllAt(t, 0.0, 1, counts, 1, d) && RedisLog(t, 0.0, 1)
    ensures Reaches(s, u, 1, w, d) && OneTooMany(u, 1, 0.0, l)
  {
    u := TwoOver(s, t, counts, w, d);
    var before := u;
    hide *;
    u := RollbackIsStep(s, u, 1, 1, w, d);
    u := RollbackIsStep(s, u, 2, 1, w, d);
    OneFits(u.zset, 3, l, w);
    u := SubmitIsSteps(s, u, 3, l, 1, w, d);
    OneTooManyIf(u, l);
  }

  lemma OneTooManyIf(u: Fleet, l: real)
    requires |u.log| == 2 && u.log[0].ts == 0.0 && u.log[1].ts == l
    ensures OneTooMany(u, 1, 0.0, l)
  {
  }

  lemma OneFits(zset: map<nat, real>, id: nat, ts: real, w: real)
    requires zset == map[]
    ensures UnderCap(zset, id, ts, 1, w)
  {
    CountedOneMore(zset, id, ts, w);
  }

  /** Both are stamped after the admission, and the second prunes it. */
  lemma TwoOver(s: Fleet, t: Fleet, counts: seq<nat>, w: real, d: Lag) returns (u: Fleet)
    requires |counts| > 0 && w > 0.0 && d.Valid() && w <= t.server + d.ahead
    requires Reaches(s, t, 1, w, d) && AllAt(t, 0.0, 1, counts, 1, d) && RedisLog(t, 0.0, 1)
    ensures Reaches(s, u, 1, w, d) && |u.local| > 0 && u.zset - {1} - {2} == map[]
    ensures u.latest == w && u.server == t.server && u.expired == t.expired <= d.expiry
    ensures |u.log| == 1 && u.log[0].ts == 0.0
    ensures 1 in u.phases && u.phases[1].Over? && 2 in u.phases && u.phases[2].Over? && 3 !in u.phases
  {
    hide Reaches, Counted, Same;
    NonePrunedNow(t.zset, 1, w / 2.0, w);
    u := SubmitIsSteps(s, t, 1, w / 2.0, 1, w, d);
    OnlyOnePruned(t.zset, w);
    u := SubmitIsSteps(s, u, 2, w, 1, w, d);
  }

  lemma OnlyOnePruned(zset: map<nat, real>, w: real)
    requires w > 0.0 && forall m :: m in zset ==> zset[m] == 0.0 && m == 0
    ensures var z := Counted(zset[1 := w / 2.0], 2, w, w);
            z.Keys == {1, 2} && |z| == 2 && z - {1} - {2} == map[]
  {
    var z := Counted(zset[1 := w / 2.0], 2, w, w);
    assert z.Keys == {1, 2};
    assert |z| == |z.Keys|;
  }

  /** A submit held back past the key's time to live is in the order of stamps and
      still finds an empty set. */
  lemma AdmissionAfterExpiry(s: Fleet, n: nat, limit: nat, w: real, d: Lag, l: real) returns (u: Fleet)
    requires limit > 0 && n > 0 && w > 0.0 && d.Valid() && Init(s, n) && NotAfter(s, d.ahead, d)
    requires s.server == 0.0 && s.expired <= 0.0
    requires l == Max(w + GRACE_SEC - d.expiry - d.ahead, 0.0)
    ensures Reaches(s, u, limit, w, d) && OneTooMany(u, limit, d.ahead, l)
  {
    var a := d.ahead;
    NothingYet(s, n, a, d);
    var t := FillRedis(s, a, n, limit, limit, w, d);
    assert |Zeros(n)| == n;
    hide Reaches, Counted;
    var late := t.(server := w + GRACE_SEC);
    ReachesBy(s, t, late, Tick(w + GRACE_SEC), limit, w, d);
    var empty := late.(zset := map[], expired := Max(late.expired, late.server));
    ReachesBy(s, late, empty, Expire, limit, w, d);
    CountedOneMore(empty.zset, limit, a + l, w);
    u := SubmitIsSteps(s, empty, limit, a + l, limit, w, d);
  }

  // ---- What phantoms cost -------------------------------------------------------

  /** `limit` admissions stamped 0, and `k` submits over the cap stamped between
      them and `w`, none rolled back. */
  ghost predicate OverAt(t: Fleet, limit: nat, k: nat, w: real, d: Lag) {
    && |t.local| > 0 && RedisLog(t, 0.0, limit)
    && t.latest <= w / 2.0 && t.expired <= d.expiry && w <= t.server + d.ahead
    && (forall id: nat :: id in t.phases <==> id < limit + k)
    && OverSet(t.zset, limit, k, w)
  }

  ghost predicate OverSet(zset: map<nat, real>, limit: nat, k: nat, w: real) {
    && zset.Keys == Range(0, limit + k)
    && forall m :: m in zset ==> zset[m] == if m < limit then 0.0 else w / 2.0
  }

  lemma OverSetGrows(zset: map<nat, real>, limit: nat, k: nat, w: real)
    requires w > 0.0 && OverSet(zset, limit, k, w)
    ensures !UnderCap(zset, limit + k, w / 2.0, limit, w)
    ensures OverSet(Counted(zset, limit + k, w / 2.0, w), limit, k + 1, w)
  {
    var id := limit + k;
    OverSetNext(zset, limit, k, w);
    NonePrunedNow(zset, id, w / 2.0, w);
    hide Counted, OverSet;
    assert |zset| == |zset.Keys| == id;
  }

  lemma OverSetNext(zset: map<nat, real>, limit: nat, k: nat, w: real)
    requires OverSet(zset, limit, k, w)
    ensures |zset.Keys| == limit + k && limit + k !in zset.Keys
    ensures OverSet(zset[limit + k := w / 2.0], limit, k + 1, w)
  {
    var id, more := limit + k, zset[limit + k := w / 2.0];
    RangeGrows(0, id);
    RangeSize(0, id);
    hide Range;
    assert more.Keys == zset.Keys + {id};
  }

  lemma RangeGrows(lo: nat, hi: nat)
    requires lo <= hi
    ensures Range(lo, hi + 1) == Range(lo, hi) + {hi} && hi !in Range(lo, hi)
  {
  }

  lemma OneMoreOver(s: Fleet, t: Fleet, limit: nat, k: nat, w: real, d: Lag) returns (u: Fleet)
    requires limit > 0 && w > 0.0 && d.Valid() && Reaches(s, t, limit, w, d) && OverAt(t, limit, k, w, d)
    ensures Reaches(s, u, limit, w, d) && OverAt(u, limit, k + 1, w, d)
  {
    hide Reaches, Counted, UnderCap, OverSet;
    OverSetGrows(t.zset, limit, k, w);
    u := SubmitIsSteps(s, t, limit + k, w / 2.0, limit, w, d);
  }

  lemma PhantomsFill(zset: map<nat, real>, limit: nat, w: real)
    requires w > 0.0 && OverSet(zset, limit, limit, w)
    ensures !UnderCap(zset, limit + limit, w, limit, w)
  {
    var z := Counted(zset, limit + limit, w, w);
    assert z.Keys == Range(limit, limit + limit + 1);
    RangeSize(limit, limit + limit + 1);
    assert |z| == |z.Keys|;
  }

  lemma FilledKeys(t: Fleet, limit: nat, counts: seq<nat>, w: real, d: Lag)
    requires w > 0.0 && AllAt(t, 0.0, limit, counts, limit, d) && RedisLog(t, 0.0, limit)
    requires |counts| > 0 && w <= t.server + d.ahead
    ensures OverAt(t, limit, 0, w, d)
  {
    RangeSize(0, limit);
    assert |t.zset.Keys| == limit && t.zset.Keys <= Range(0, limit);
    SameSize(t.zset.Keys, Range(0, limit));
  }

  lemma SameSize(p: set<nat>, q: set<nat>)
    requires p <= q && |p| == |q|
    ensures p == q
  {
    assert q == p + (q - p);
  }

  /** The price of a separate rollback: for every limit there is a run in which a
      submit is refused although its window holds no admission at all, because as
      many others over the cap are not rolled back yet. */
  lemma SpuriousRefusal(s: Fleet, n: nat, limit: nat, w: real, d: Lag)
    returns (run: seq<Fleet>, steps: seq<Step>, id: nat)
    requires limit > 0 && n > 0 && w > 0.0 && d.Valid() && Init(s, n)
    requires NotAfter(s, 0.0, d) && w <= s.server + d.ahead
    ensures IsRun(run, steps, n, limit, w, d)
    ensures var last := run[|steps|];
            id in last.phases && last.phases[id] == Refused(w) && HalfOpen(Times(last.log), 0.0, w) == {}
  {
    NothingYet(s, n, 0.0, d);
    var u := FillRedis(s, 0.0, n, limit, limit, w, d);
    assert |Zeros(n)| == n;
    FilledKeys(u, limit, Zeros(n), w, d);
    u := AllOver(s, u, limit, w, d);
    id := limit + limit;
    u := RefusedForPhantoms(s, u, limit, w, d);
    hide IsRun;
    run, steps := ReachedInRun(s, u, n, limit, w, d);
  }

  lemma AllOver(s: Fleet, t: Fleet, limit: nat, w: real, d: Lag) returns (u: Fleet)
    requires limit > 0 && w > 0.0 && d.Valid() && Reaches(s, t, limit, w, d) && OverAt(t, limit, 0, w, d)
    ensures Reaches(s, u, limit, w, d) && OverAt(u, limit, limit, w, d)
  {
    hide OverAt, Reaches;
    u := t;
    for k := 0 to limit
      invariant Reaches(s, u, limit, w, d) && OverAt(u, limit, k, w, d)
    {
      u := OneMoreOver(s, u, limit, k, w, d);
    }
  }

  lemma RefusedForPhantoms(s: Fleet, t: Fleet, limit: nat, w: real, d: Lag) returns (u: Fleet)
    requires limit > 0 && w > 0.0 && d.Valid() && Reaches(s, t, limit, w, d) && OverAt(t, limit, limit, w, d)
    ensures Reaches(s, u, limit, w, d)
    ensures var id := limit + limit; id in u.phases && u.phases[id] == Refused(w)
    ensures HalfOpen(Times(u.log), 0.0, w) == {}
  {
    hide Reaches, UnderCap, Counted;
    var id := limit + limit;
    PhantomsFill(t.zset, limit, w);
    u := SubmitIsSteps(s, t, id, w, limit, w, d);
    u := RollbackIsStep(s, u, id, limit, w, d);
    var last := Goes(u, id, Refused(w));
    ReachesBy(s, u, last, ReadOldest(id), limit, w, d);
    u := last;
  }
}
