/** What the Redis limiter promises in every run of the fleet: how many submits
    it admits in a window, alone and with the fallbacks, and when Redis admits. */
module FleetBounds {
  import opened Windows
  import opened FleetLimiter
  import ML = MemoryLimiter

  // ---- Windows ----------------------------------------------------------------------

  /** In every state of every run no half-open window of width `w - d.Total()`, wherever it
      starts, holds more than `limit` submits admitted through Redis. */
  lemma RedisWindowBound(run: seq<Fleet>, steps: seq<Step>, n: nat, limit: nat, w: real, d: Lag, i: nat, a: real)
    requires limit > 0 && w >= 0.0 && d.Valid() && IsRun(run, steps, n, limit, w, d) && i < |run|
    ensures |HalfOpen(Times(run[i].log), a, a + (w - d.Total()))| <= limit
  {
    RunInv(run, steps, n, limit, w, d, i);
    assert Fits(run[i].log, a, w - d.Total(), limit);
    LogInExactly(run[i].log, run[i].phases, a, a + (w - d.Total()));
  }

  /** The submits admitted by whatever limiter with a time stamp in `(a, b]`. */
  ghost function AdmittedIn(s: Fleet, a: real, b: real): set<nat> {
    set id | id in s.phases && s.phases[id].Admitted? && a < s.phases[id].ts <= b
  }

  ghost function LocalsIn(local: seq<Fallback>, a: real, b: real): set<nat> {
    if local == [] then {} else LogIn(local[0].log, a, b) + LocalsIn(local[1..], a, b)
  }

  lemma {:induction false} ImageSize(log: seq<Entry>, places: set<nat>)
    requires forall i :: i in places ==> i < |log|
    ensures |set i | i in places :: log[i].id| <= |places|
    decreases |places|
  {
    var image := set i | i in places :: log[i].id;
    if places == {} {
      assert image == {};
    } else {
      var i :| i in places;
      ImageSize(log, places - {i});
      var rest := set j | j in places - {i} :: log[j].id;
      assert image == rest + {log[i].id};
    }
  }

  lemma LogInSize(log: seq<Entry>, a: real, b: real)
    ensures |LogIn(log, a, b)| <= |HalfOpen(Times(log), a, b)|
  {
    var places := HalfOpen(Times(log), a, b);
    ImageSize(log, places);
    assert LogIn(log, a, b) == set i | i in places :: log[i].id;
  }

  lemma {:induction false} LocalsInSize(local: seq<Fallback>, phases: map<nat, Phase>, limit: nat, w: real, d: Lag,
                                        a: real)
    requires forall k :: 0 <= k < |local| ==> FallbackOk(local[k], phases, limit, w, d)
    ensures |LocalsIn(local, a, a + (w - d.Total()))| <= |local| * limit
  {
    if local != [] {
      var log, b := local[0].log, a + (w - d.Total());
      LocalsInSize(local[1..], phases, limit, w, d, a);
      FallbackInSize(local[0], phases, limit, w, d, a);
      UnionSize(LogIn(log, a, b), LocalsIn(local[1..], a, b));
      OneMore(|local| - 1, limit);
    }
  }

  lemma FallbackInSize(f: Fallback, phases: map<nat, Phase>, limit: nat, w: real, d: Lag, a: real)
    requires FallbackOk(f, phases, limit, w, d)
    ensures |LogIn(f.log, a, a + (w - d.Total()))| <= limit
  {
    var b := a + (w - d.Total());
    LogInSize(f.log, a, b);
    assert AtMost(Times(f.log), a, w - d.Total(), limit);
    SubsetSize(HalfOpen(Times(f.log), a, b), Closed(Times(f.log), a, b));
  }

  lemma UnionSize(s: set<nat>, t: set<nat>)
    ensures |s + t| <= |s| + |t|
  {
    assert s + t == s + (t - s);
    SubsetSize(t - s, t);
  }

  lemma OneMore(k: nat, limit: nat)
    ensures k * limit + limit == (k + 1) * limit
  {
  }

  lemma {:induction false} LocalsInHas(local: seq<Fallback>, k: nat, id: nat, ts: real, a: real, b: real)
    requires k < |local| && InLog(local[k].log, id, ts) && a < ts <= b
    ensures id in LocalsIn(local, a, b)
  {
    if k > 0 {
      LocalsInHas(local[1..], k - 1, id, ts, a, b);
    } else {
      var i :| 0 <= i < |local[0].log| && local[0].log[i] == Entry(id, ts);
      assert local[0].log[i].id == id;
    }
  }

  /** Whatever fails, and however the workers interleave, a fleet of `n` admits
      at most `(n + 1) * limit` submits of a key in any window. */
  lemma FleetWindowBound(run: seq<Fleet>, steps: seq<Step>, n: nat, limit: nat, w: real, d: Lag, i: nat, a: real)
    requires limit > 0 && w >= 0.0 && d.Valid() && IsRun(run, steps, n, limit, w, d) && i < |run|
    ensures |AdmittedIn(run[i], a, a + (w - d.Total()))| <= (n + 1) * limit
  {
    OutageWindowBound(run, steps, n, limit, w, d, i, a);
    RedisWindowBound(run, steps, n, limit, w, d, i, a);
    OneMore(n, limit);
  }

  /** The fallbacks add at most `n * limit` to what Redis admitted in a window, and
      a window in which Redis admitted nothing holds no more than that. */
  lemma OutageWindowBound(run: seq<Fleet>, steps: seq<Step>, n: nat, limit: nat, w: real, d: Lag, i: nat, a: real)
    requires limit > 0 && w >= 0.0 && d.Valid() && IsRun(run, steps, n, limit, w, d) && i < |run|
    ensures |AdmittedIn(run[i], a, a + (w - d.Total()))|
            <= |HalfOpen(Times(run[i].log), a, a + (w - d.Total()))| + n * limit
  {
    RunInv(run, steps, n, limit, w, d, i);
    FleetStateBound(run[i], limit, w, d, a);
    LogInExactly(run[i].log, run[i].phases, a, a + (w - d.Total()));
  }

  lemma FleetStateBound(s: Fleet, limit: nat, w: real, d: Lag, a: real)
    requires Inv(s, limit, w, d)
    ensures |AdmittedIn(s, a, a + (w - d.Total()))| <= |LogIn(s.log, a, a + (w - d.Total()))| + |s.local| * limit
  {
    hide *;
    var b := a + (w - d.Total());
    var shared, local := LogIn(s.log, a, b), LocalsIn(s.local, a, b);
    AllLocalsInSize(s, limit, w, d, a);
    UnionSize(shared, local);
    AdmittedAreLogged(s, limit, w, d, a, b);
    SubsetSize(AdmittedIn(s, a, b), shared + local);
  }

  lemma AllLocalsInSize(s: Fleet, limit: nat, w: real, d: Lag, a: real)
    requires Inv(s, limit, w, d)
    ensures |LocalsIn(s.local, a, a + (w - d.Total()))| <= |s.local| * limit
  {
    hide FallbackOk, AllLogged, SharedOk, LocalsIn;
    LocalsInSize(s.local, s.phases, limit, w, d, a);
  }

  lemma AdmittedAreLogged(s: Fleet, limit: nat, w: real, d: Lag, a: real, b: real)
    requires Inv(s, limit, w, d)
    ensures AdmittedIn(s, a, b) <= LogIn(s.log, a, b) + LocalsIn(s.local, a, b)
  {
    hide SharedOk, LocalOk;
    forall id | id in AdmittedIn(s, a, b) ensures id in LogIn(s.log, a, b) + LocalsIn(s.local, a, b) {
      var ts := s.phases[id].ts;
      if InLog(s.log, id, ts) {
        var j :| 0 <= j < |s.log| && s.log[j] == Entry(id, ts);
        assert s.log[j].id == id;
      } else {
        var k :| 0 <= k < |s.local| && InLog(s.local[k].log, id, ts);
        LocalsInHas(s.local, k, id, ts, a, b);
      }
    }
  }

  // ---- When Redis admits ---------------------------------------------------------------

  /** The clock once the submit's transaction has come. */
  ghost function ClockAfter(s: Fleet, id: nat, d: Lag): real
    requires id in s.phases
  {
    Max(Clock(s, d), s.phases[id].ts)
  }

  /** The admissions in the window of the clock. Without any lag that is the
      window that ends at the submit. */
  ghost function Live(s: Fleet, id: nat, w: real, d: Lag): set<nat>
    requires id in s.phases
  {
    LogIn(s.log, ClockAfter(s, id, d) - w, ClockAfter(s, id, d))
  }

  /** The members that the transaction does not prune and that are no such
      admissions: submits that wait for their rollback, or lost it to a failure. */
  ghost function Phantoms(s: Fleet, id: nat, w: real, d: Lag): set<nat>
    requires id in s.phases
  {
    set m | m in s.zset && s.zset[m] > s.phases[id].ts - w && m !in Live(s, id, w, d)
  }

  /** What the transaction counts: admissions, phantoms and the new member. */
  ghost predicate Partitioned(s: Fleet, id: nat, w: real, d: Lag)
    requires id in s.phases
  {
    var mine, other := Live(s, id, w, d), Phantoms(s, id, w, d);
    && Counted(s.zset, id, s.phases[id].ts, w).Keys == mine + other + {id}
    && mine !! other && id !in mine && id !in other
  }

  lemma MembersSplit(s: Fleet, id: nat, limit: nat, w: real, d: Lag)
    requires SharedOk(s, limit, w, d) && Ready(s, id, d)
    ensures Ids(s.log, s.phases) && Partitioned(s, id, w, d)
  {
    hide Sparse, InLog;
    var z := Counted(s.zset, id, s.phases[id].ts, w);
    forall m | m in Live(s, id, w, d) ensures m in z && m != id {
    }
    CountedMembers(s.zset, id, s.phases[id].ts, w);
    hide Counted, LogIn, Live, Ids, RecentOk;
  }

  lemma LogInExactly(log: seq<Entry>, phases: map<nat, Phase>, a: real, b: real)
    requires Ids(log, phases)
    ensures |LogIn(log, a, b)| == |HalfOpen(Times(log), a, b)|
  {
    var places := HalfOpen(Times(log), a, b);
    InjectiveImageSize(log, places);
    assert LogIn(log, a, b) == set i | i in places :: log[i].id;
  }

  lemma {:induction false} InjectiveImageSize(log: seq<Entry>, places: set<nat>)
    requires forall i :: i in places ==> i < |log|
    requires forall i, j :: 0 <= i < j < |log| ==> log[i].id != log[j].id
    ensures |set i | i in places :: log[i].id| == |places|
    decreases |places|
  {
    var image := set i | i in places :: log[i].id;
    if places == {} {
      assert image == {};
    } else {
      var i :| i in places;
      InjectiveImageSize(log, places - {i});
      var rest := set j | j in places - {i} :: log[j].id;
      assert image == rest + {log[i].id} && log[i].id !in rest;
    }
  }

  lemma SplitSize(s: Fleet, id: nat, w: real, d: Lag)
    requires id in s.phases && Ids(s.log, s.phases) && Partitioned(s, id, w, d)
    ensures var c := ClockAfter(s, id, d);
            |Counted(s.zset, id, s.phases[id].ts, w)|
            == |HalfOpen(Times(s.log), c - w, c)| + |Phantoms(s, id, w, d)| + 1
  {
    hide Counted, LogIn, Phantoms, Times, HalfOpen, Ids, Max;
    LogInExactly(s.log, s.phases, ClockAfter(s, id, d) - w, ClockAfter(s, id, d));
    KeyCount(Counted(s.zset, id, s.phases[id].ts, w), Live(s, id, w, d), Phantoms(s, id, w, d), id);
  }

  lemma KeyCount(z: map<nat, real>, mine: set<nat>, other: set<nat>, id: nat)
    requires z.Keys == mine + other + {id} && mine !! other && id !in mine && id !in other
    ensures |z| == |mine| + |other| + 1
  {
    assert |mine + other| == |mine| + |other|;
    assert |z.Keys| == |z|;
  }

  lemma RunPartition(run: seq<Fleet>, steps: seq<Step>, n: nat, limit: nat, w: real, d: Lag, i: nat, id: nat)
    requires limit > 0 && w >= 0.0 && d.Valid() && IsRun(run, steps, n, limit, w, d) && i < |run|
    requires Ready(run[i], id, d)
    ensures Ids(run[i].log, run[i].phases) && Partitioned(run[i], id, w, d)
  {
    RunInv(run, steps, n, limit, w, d, i);
    MembersSplit(run[i], id, limit, w, d);
  }

  /** In every state of every run, Redis admits a submit exactly when the
      admissions and the phantoms in the window of the clock are together fewer
      than `limit`. With a lag below the window a phantom is a submit that Redis
      counted and did not admit: its rollback is to come, or it was lost, or the
      reply to its transaction was. */
  lemma AdmittedIff(run: seq<Fleet>, steps: seq<Step>, n: nat, limit: nat, w: real, d: Lag, i: nat, id: nat)
    requires limit > 0 && w >= 0.0 && d.Valid() && IsRun(run, steps, n, limit, w, d) && i < |run|
    requires Ready(run[i], id, d)
    ensures var s, c := run[i], ClockAfter(run[i], id, d);
            AfterTransaction(s, id, limit, w).phases[id].Admitted?
            <==> |HalfOpen(Times(s.log), c - w, c)| + |Phantoms(s, id, w, d)| < limit
    ensures d.Total() < w || d.Total() == 0.0 ==>
              forall m :: m in Phantoms(run[i], id, w, d) ==> Pending(run[i], m)
  {
    hide *;
    RunPhantoms(run, steps, n, limit, w, d, i, id);
    RunAdmits(run, steps, n, limit, w, d, i, id);
  }

  lemma RunPhantoms(run: seq<Fleet>, steps: seq<Step>, n: nat, limit: nat, w: real, d: Lag, i: nat, id: nat)
    requires limit > 0 && w >= 0.0 && d.Valid() && IsRun(run, steps, n, limit, w, d) && i < |run|
    requires Ready(run[i], id, d)
    ensures d.Total() < w || d.Total() == 0.0 ==>
              forall m :: m in Phantoms(run[i], id, w, d) ==> Pending(run[i], m)
  {
    RunInv(run, steps, n, limit, w, d, i);
    hide IsRun, Inv, Pending, Phantoms;
    if d.Total() < w || d.Total() == 0.0 { PhantomsArePending(run[i], id, limit, w, d); }
  }

  lemma RunAdmits(run: seq<Fleet>, steps: seq<Step>, n: nat, limit: nat, w: real, d: Lag, i: nat, id: nat)
    requires limit > 0 && w >= 0.0 && d.Valid() && IsRun(run, steps, n, limit, w, d) && i < |run|
    requires Ready(run[i], id, d)
    ensures var s, c := run[i], ClockAfter(run[i], id, d);
            AfterTransaction(s, id, limit, w).phases[id].Admitted?
            <==> |HalfOpen(Times(s.log), c - w, c)| + |Phantoms(s, id, w, d)| < limit
  {
    hide IsRun, Partitioned, AfterTransaction, Counted, HalfOpen, Phantoms, Times, Ids;
    RunPartition(run, steps, n, limit, w, d, i, id);
    SplitSize(run[i], id, w, d);
    TransactionAdmits(run[i], id, limit, w, d);
  }

  lemma TransactionAdmits(s: Fleet, id: nat, limit: nat, w: real, d: Lag)
    requires Ready(s, id, d)
    ensures AfterTransaction(s, id, limit, w).phases[id].Admitted?
            <==> |Counted(s.zset, id, s.phases[id].ts, w)| <= limit
  {
    hide Counted;
  }

  /** With no rollback pending and none lost, that is: exactly when fewer than
      `limit` admissions lie in the window, as long as the lateness is less than
      the window or none at all. */
  lemma AdmittedIffQuiet(run: seq<Fleet>, steps: seq<Step>, n: nat, limit: nat, w: real, d: Lag, i: nat, id: nat)
    requires limit > 0 && w >= 0.0 && d.Valid() && IsRun(run, steps, n, limit, w, d) && i < |run|
    requires Ready(run[i], id, d) && (d.Total() < w || d.Total() == 0.0)
    requires run[i].leaked == {} && forall m :: m in run[i].phases ==> !run[i].phases[m].Over?
    ensures var s, c := run[i], ClockAfter(run[i], id, d);
            AfterTransaction(s, id, limit, w).phases[id].Admitted?
            <==> |HalfOpen(Times(s.log), c - w, c)| < limit
  {
    hide IsRun, AfterTransaction, HalfOpen, Phantoms, Times;
    AdmittedIff(run, steps, n, limit, w, d, i, id);
    assert Phantoms(run[i], id, w, d) == {};
  }

  lemma PhantomsArePending(s: Fleet, id: nat, limit: nat, w: real, d: Lag)
    requires Inv(s, limit, w, d) && Ready(s, id, d) && (d.Total() < w || d.Total() == 0.0)
    ensures forall m :: m in Phantoms(s, id, w, d) ==> Pending(s, m)
  {
    hide Sparse, LocalOk, AllLogged;
    forall m | m in s.zset && s.zset[m] > s.phases[id].ts - w && !Pending(s, m) ensures m in Live(s, id, w, d) {
      var i :| 0 <= i < |s.log| && s.log[i] == Entry(m, s.zset[m]);
      assert s.log[i].id == m && ClockAfter(s, id, d) - w < s.log[i].ts <= ClockAfter(s, id, d);
    }
  }
}
