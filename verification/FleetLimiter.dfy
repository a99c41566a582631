/** The Redis limiter of `src/api/auth.py` as a fleet of workers runs it: one
    sorted set shared by all workers, a transaction and a separate rollback per
    submit, and each worker's own in-memory limiter for when Redis fails. The
    machine is that of one key; keys share nothing. */
module FleetLimiter {
  import opened Windows
  import ML = MemoryLimiter

  datatype Entry = Entry(id: nat, ts: real)

  /** Where one submit stands. `ts` is read before anything is sent. */
  datatype Phase =
    | Started(worker: nat, ts: real)
    | Over(worker: nat, ts: real)        // counted above the cap, rollback to come
    | RolledBack(worker: nat, ts: real)  // rolled back, oldest entry to be read
    | Failed(worker: nat, ts: real)      // Redis raised, local limiter to be asked
    | Admitted(ts: real)
    | Refused(ts: real)

  /** A worker's fallback limiter: its deque, all it has admitted, its last call. */
  datatype Fallback = Fallback(bucket: seq<real>, log: seq<Entry>, now: real)

  /** `zset`, the time `expiresAt` when its key is dropped, and the deques are what
      the system stores; `server` is the time Redis goes by. The logs, the time of
      the last expiry, the latest stamp and `leaked` (members whose rollback will
      never come) record the run. */
  datatype Fleet = Fleet(
    zset: map<nat, real>,
    server: real,
    expiresAt: real,
    expired: real,
    latest: real,
    log: seq<Entry>,
    leaked: set<nat>,
    phases: map<nat, Phase>,
    local: seq<Fallback>)

  datatype Step =
    | Begin(id: nat, worker: nat, ts: real)
    | Transact(id: nat)
    | TransactReplyLost(id: nat)
    | TransactFails(id: nat)
    | Rollback(id: nat)
    | RollbackReplyLost(id: nat)
    | RollbackFails(id: nat)
    | ReadOldest(id: nat)
    | ReadOldestFails(id: nat)
    | AskLocal(id: nat)
    | Tick(at: real)
    | Expire

  const GRACE_SEC: real := 60.0

  function Times(log: seq<Entry>): seq<real> {
    seq(|log|, i requires 0 <= i < |log| => log[i].ts)
  }

  /** ZREMRANGEBYSCORE key 0 cutoff. */
  function PrunedSet(zset: map<nat, real>, cutoff: real): map<nat, real> {
    map m | m in zset && !(0.0 <= zset[m] <= cutoff) :: zset[m]
  }

  /** The transaction: prune, then ZADD, then ZCARD. */
  function Counted(zset: map<nat, real>, id: nat, ts: real, w: real): map<nat, real> {
    PrunedSet(zset, ts - w)[id := ts]
  }

  predicate UnderCap(zset: map<nat, real>, id: nat, ts: real, limit: nat, w: real) {
    |Counted(zset, id, ts, w)| <= limit
  }

  function Goes(s: Fleet, id: nat, p: Phase): Fleet {
    s.(phases := s.phases[id := p])
  }

  function AfterTransaction(s: Fleet, id: nat, limit: nat, w: real): Fleet
    requires id in s.phases && s.phases[id].Started?
  {
    var Started(worker, ts) := s.phases[id];
    var t := s.(zset := Counted(s.zset, id, ts, w), latest := Max(s.latest, ts), expiresAt := s.server + w + GRACE_SEC);
    if UnderCap(s.zset, id, ts, limit, w)
    then Goes(t.(log := t.log + [Entry(id, ts)]), id, Admitted(ts))
    else Goes(t, id, Over(worker, ts))
  }

  function AfterLocal(s: Fleet, id: nat, limit: nat, w: real): Fleet
    requires limit > 0 && id in s.phases && s.phases[id].Failed? && s.phases[id].worker < |s.local|
  {
    var Failed(worker, ts) := s.phases[id];
    var f := s.local[worker];
    var (bucket, o) := ML.Check(f.bucket, limit, w, ts);
    match o
    case Admitted =>
      Goes(s.(local := s.local[worker := Fallback(bucket, f.log + [Entry(id, ts)], Max(f.now, ts))]), id, Admitted(ts))
    case Refused(_) =>
      Goes(s.(local := s.local[worker := Fallback(bucket, f.log, Max(f.now, ts))]), id, Refused(ts))
  }

  /** What is assumed of time stamps when their transaction comes: none lags the
      latest by more than `stamp`, nor the key's last expiry by more than `expiry`,
      and none is more than `ahead` of the server's own time. */
  datatype Lag = Lag(stamp: real, expiry: real, ahead: real) {
    ghost predicate Valid() {
      stamp >= 0.0 && expiry >= 0.0 && ahead >= 0.0
    }

    /** What it costs: an expiry only what goes beyond the 60 seconds of grace. */
    function Total(): real {
      Max(stamp, expiry + ahead - GRACE_SEC)
    }
  }

  /** The submit's transaction may come next. */
  ghost predicate Ready(s: Fleet, id: nat, d: Lag) {
    && id in s.phases && s.phases[id].Started?
    && s.latest <= s.phases[id].ts + d.stamp
    && s.expired <= s.phases[id].ts + d.expiry
    && s.phases[id].ts <= s.server + d.ahead
  }

  /** One atomic step of the fleet. Transactions keep to the lag `d`, and the calls
      of each fallback to its lateness of stamps; everything else interleaves
      freely, and Redis may fail or lose a reply at any point. */
  ghost predicate Next(s: Fleet, t: Fleet, step: Step, limit: nat, w: real, d: Lag)
    requires limit > 0
  {
    match step
    case Begin(id, worker, ts) =>
      id !in s.phases && worker < |s.local| && ts >= 0.0 && t == Goes(s, id, Started(worker, ts))
    case Transact(id) =>
      && Ready(s, id, d)
      && t == AfterTransaction(s, id, limit, w)
    case TransactReplyLost(id) =>
      && Ready(s, id, d)
      && var Started(worker, ts) := s.phases[id];
         t == Goes(s.(zset := Counted(s.zset, id, ts, w), latest := Max(s.latest, ts),
                      expiresAt := s.server + w + GRACE_SEC, leaked := s.leaked + {id}),
                   id, Failed(worker, ts))
    case TransactFails(id) =>
      id in s.phases && s.phases[id].Started? && t == Goes(s, id, Failed(s.phases[id].worker, s.phases[id].ts))
    case Rollback(id) =>
      && id in s.phases && s.phases[id].Over?
      && t == Goes(s.(zset := s.zset - {id}), id, RolledBack(s.phases[id].worker, s.phases[id].ts))
    case RollbackReplyLost(id) =>
      && id in s.phases && s.phases[id].Over?
      && t == Goes(s.(zset := s.zset - {id}), id, Failed(s.phases[id].worker, s.phases[id].ts))
    case RollbackFails(id) =>
      && id in s.phases && s.phases[id].Over?
      && t == Goes(s.(leaked := s.leaked + {id}), id, Failed(s.phases[id].worker, s.phases[id].ts))
    case ReadOldest(id) =>
      id in s.phases && s.phases[id].RolledBack? && t == Goes(s, id, Refused(s.phases[id].ts))
    case ReadOldestFails(id) =>
      id in s.phases && s.phases[id].RolledBack? && t == Goes(s, id, Failed(s.phases[id].worker, s.phases[id].ts))
    case AskLocal(id) =>
      && id in s.phases && s.phases[id].Failed? && s.phases[id].worker < |s.local|
      && s.local[s.phases[id].worker].now <= s.phases[id].ts + d.stamp
      && t == AfterLocal(s, id, limit, w)
    case Tick(at) =>
      s.server <= at && t == s.(server := at)
    case Expire =>
      s.expiresAt <= s.server && t == s.(zset := map[], expired := Max(s.expired, s.server))
  }

  /** `n` workers, no submit yet. */
  ghost predicate Init(s: Fleet, n: nat) {
    && s.zset == map[] && s.log == [] && s.leaked == {} && s.phases == map[] && |s.local| == n
    && forall k :: 0 <= k < n ==> s.local[k].bucket == [] && s.local[k].log == []
  }

  // ---- The invariant ---------------------------------------------------------

  ghost predicate Ids(log: seq<Entry>, phases: map<nat, Phase>) {
    && (forall i, j :: 0 <= i < j < |log| ==> log[i].id != log[j].id)
    && (forall i :: 0 <= i < |log| ==> log[i].id in phases && phases[log[i].id] == Admitted(log[i].ts))
  }

  ghost predicate InLog(log: seq<Entry>, id: nat, ts: real) {
    exists i :: 0 <= i < |log| && log[i] == Entry(id, ts)
  }

  /** The ids of the admissions with a stamp in `(a, b]`. */
  ghost function LogIn(log: seq<Entry>, a: real, b: real): set<nat> {
    set i | 0 <= i < |log| && a < log[i].ts <= b :: log[i].id
  }

  ghost predicate Fits(log: seq<Entry>, a: real, v: real, limit: nat) {
    |LogIn(log, a, a + v)| <= limit
  }

  /** No window of width `v` holds more than `limit` admissions. */
  ghost predicate Sparse(log: seq<Entry>, v: real, limit: nat) {
    forall a: real :: Fits(log, a, v, limit)
  }

  /** The latest stamp or, if that is later, the time from which an expiry counts. */
  ghost function Clock(s: Fleet, d: Lag): real {
    Max(s.latest, s.expired - GRACE_SEC + d.ahead)
  }

  ghost predicate LogOk(s: Fleet, limit: nat, w: real, d: Lag) {
    && Ids(s.log, s.phases)
    && Sparse(s.log, w - d.Total(), limit)
    && (forall i :: 0 <= i < |s.log| ==>
          && 0.0 <= s.log[i].ts <= s.latest && s.log[i].ts <= s.server + d.ahead
          && s.log[i].ts + w + GRACE_SEC <= s.expiresAt + d.ahead)
  }

  /** Every admission inside the window of the latest stamp is a member; every
      member was admitted, awaits its rollback or leaked, and lies in that window
      or came late. */
  ghost predicate MembersOk(s: Fleet, w: real, d: Lag) {
    RecentOk(s.log, s.zset, Clock(s, d) - w) && ScoresOk(s) && ReasonsOk(s) && AgesOk(s, w, d)
  }

  ghost predicate ScoresOk(s: Fleet) {
    && (forall m :: m in s.zset ==>
          m in s.phases && !s.phases[m].Started? && s.zset[m] == s.phases[m].ts >= 0.0)
    && (forall m :: m in s.phases && s.phases[m].Started? ==> s.phases[m].ts >= 0.0)
  }

  ghost predicate ReasonsOk(s: Fleet) {
    forall m :: m in s.zset ==> InLog(s.log, m, s.zset[m]) || Pending(s, m)
  }

  /** Counted but not admitted. */
  ghost predicate Pending(s: Fleet, m: nat) {
    m in s.leaked || (m in s.phases && s.phases[m].Over?)
  }

  ghost predicate AgesOk(s: Fleet, w: real, d: Lag) {
    forall m :: m in s.zset ==> s.zset[m] > Clock(s, d) - w || s.zset[m] >= Clock(s, d) - d.Total()
  }

  ghost predicate RecentOk(log: seq<Entry>, zset: map<nat, real>, cutoff: real) {
    forall i :: 0 <= i < |log| && log[i].ts > cutoff ==> log[i].id in zset && zset[log[i].id] == log[i].ts
  }

  /** The shared half. */
  ghost predicate SharedOk(s: Fleet, limit: nat, w: real, d: Lag) {
    LogOk(s, limit, w, d) && MembersOk(s, w, d)
  }

  ghost predicate FallbackOk(f: Fallback, phases: map<nat, Phase>, limit: nat, w: real, d: Lag) {
    Ids(f.log, phases) && ML.LateSuffix(ML.History(f.bucket, Times(f.log)), limit, w, f.now, d.Total())
  }

  ghost predicate LocalOk(s: Fleet, limit: nat, w: real, d: Lag) {
    forall k :: 0 <= k < |s.local| ==> FallbackOk(s.local[k], s.phases, limit, w, d)
  }

  ghost predicate Logged(s: Fleet, id: nat, ts: real) {
    InLog(s.log, id, ts) || exists k :: 0 <= k < |s.local| && InLog(s.local[k].log, id, ts)
  }

  /** Every admission was made by Redis or by one of the fallbacks. */
  ghost predicate AllLogged(s: Fleet) {
    forall id :: id in s.phases && s.phases[id].Admitted? ==> Logged(s, id, s.phases[id].ts)
  }

  ghost predicate Inv(s: Fleet, limit: nat, w: real, d: Lag) {
    SharedOk(s, limit, w, d) && LocalOk(s, limit, w, d) && AllLogged(s)
  }

  lemma InitInv(s: Fleet, n: nat, limit: nat, w: real, d: Lag)
    requires Init(s, n) && w >= 0.0 && d.Valid()
    ensures Inv(s, limit, w, d)
  {
    hide FallbackOk, LogOk;
    forall k | 0 <= k < n ensures FallbackOk(s.local[k], s.phases, limit, w, d) {
      NothingLogged(s.local[k], s.phases, limit, w, d);
    }
    EmptyLogOk(s, limit, w, d);
  }

  lemma EmptyLogOk(s: Fleet, limit: nat, w: real, d: Lag)
    requires s.log == []
    ensures LogOk(s, limit, w, d)
  {
    var log, v := s.log, w - d.Total();
    forall a: real ensures Fits(log, a, v, limit) {
      assert LogIn(log, a, a + v) == {};
    }
  }

  lemma NothingLogged(f: Fallback, phases: map<nat, Phase>, limit: nat, w: real, d: Lag)
    requires f.bucket == [] && f.log == []
    ensures FallbackOk(f, phases, limit, w, d)
  {
    assert Times(f.log) == [];
    ML.NothingLate(limit, w, f.now, d.Total());
  }

  /** The heart of it: as long as the lag is kept, the transaction
      counts every admission of a window of width `w - d.Total()` around the stamp, and
      the new member. */
  lemma RecentAreCounted(s: Fleet, id: nat, limit: nat, w: real, d: Lag, a: real)
    requires d.Valid() && SharedOk(s, limit, w, d) && Ready(s, id, d)
    requires a < s.phases[id].ts <= a + (w - d.Total())
    ensures LogIn(s.log, a, a + (w - d.Total())) + {id} <= Counted(s.zset, id, s.phases[id].ts, w).Keys
    ensures id !in LogIn(s.log, a, a + (w - d.Total()))
  {
    hide Sparse, InLog;
    forall m | m in LogIn(s.log, a, a + (w - d.Total()))
      ensures m in Counted(s.zset, id, s.phases[id].ts, w).Keys && m != id
    {
      var i :| 0 <= i < |s.log| && s.log[i].id == m && a < s.log[i].ts;
    }
  }

  lemma TimesSnoc(log: seq<Entry>, e: Entry)
    ensures Times(log + [e]) == Times(log) + [e.ts]
  {
  }

  lemma LogInSnoc(log: seq<Entry>, e: Entry, a: real, b: real)
    ensures LogIn(log + [e], a, b) == LogIn(log, a, b) + if a < e.ts <= b then {e.id} else {}
  {
    var all := log + [e];
    assert all[|log|] == e;
    forall m | m in LogIn(log, a, b) ensures m in LogIn(all, a, b) {
      var i :| 0 <= i < |log| && a < log[i].ts <= b && log[i].id == m;
      assert all[i].id == m && a < all[i].ts <= b;
    }
    forall m | m in LogIn(all, a, b) && m !in LogIn(log, a, b) ensures m == e.id && a < e.ts <= b {
      var i :| 0 <= i < |all| && a < all[i].ts <= b && all[i].id == m;
    }
  }

  /** An admission under the cap overfills no window. */
  lemma AdmissionFits(s: Fleet, id: nat, limit: nat, w: real, d: Lag, a: real)
    requires d.Valid() && SharedOk(s, limit, w, d) && Ready(s, id, d)
    requires UnderCap(s.zset, id, s.phases[id].ts, limit, w)
    ensures Fits(s.log + [Entry(id, s.phases[id].ts)], a, w - d.Total(), limit)
  {
    hide SharedOk, LogIn, UnderCap, Counted, Fits;
    var ts, v := s.phases[id].ts, w - d.Total();
    var z := Counted(s.zset, id, ts, w);
    CapOnKeys(s.zset, id, ts, limit, w);
    SharedFits(s, limit, w, d, a);
    if a < ts <= a + v {
      RecentAreCounted(s, id, limit, w, d, a);
      FitsWith(s.log, Entry(id, ts), a, v, limit, z.Keys);
    } else {
      FitsWithout(s.log, Entry(id, ts), a, v, limit);
    }
  }

  lemma FitsWith(log: seq<Entry>, e: Entry, a: real, v: real, limit: nat, keys: set<nat>)
    requires a < e.ts <= a + v && LogIn(log, a, a + v) + {e.id} <= keys && |keys| <= limit
    ensures Fits(log + [e], a, v, limit)
  {
    LogInSnoc(log, e, a, a + v);
    hide LogIn;
    SubsetSize(LogIn(log, a, a + v) + {e.id}, keys);
  }

  lemma FitsWithout(log: seq<Entry>, e: Entry, a: real, v: real, limit: nat)
    requires !(a < e.ts <= a + v) && Fits(log, a, v, limit)
    ensures Fits(log + [e], a, v, limit)
  {
    LogInSnoc(log, e, a, a + v);
    hide LogIn;
    assert LogIn(log, a, a + v) + {} == LogIn(log, a, a + v);
  }

  lemma SharedFits(s: Fleet, limit: nat, w: real, d: Lag, a: real)
    requires SharedOk(s, limit, w, d)
    ensures Fits(s.log, a, w - d.Total(), limit)
  {
  }

  lemma CapOnKeys(zset: map<nat, real>, id: nat, ts: real, limit: nat, w: real)
    requires UnderCap(zset, id, ts, limit, w)
    ensures |Counted(zset, id, ts, w).Keys| <= limit
  {
    hide Counted;
    assert |Counted(zset, id, ts, w).Keys| == |Counted(zset, id, ts, w)|;
  }

  lemma InLogGrows(log: seq<Entry>, e: Entry, id: nat, ts: real)
    ensures InLog(log, id, ts) ==> InLog(log + [e], id, ts)
    ensures InLog(log + [e], e.id, e.ts)
  {
    if InLog(log, id, ts) {
      var i :| 0 <= i < |log| && log[i] == Entry(id, ts);
      assert (log + [e])[i] == Entry(id, ts);
    }
    assert (log + [e])[|log|] == Entry(e.id, e.ts);
  }

  lemma IdsStay(log: seq<Entry>, phases: map<nat, Phase>, id: nat, p: Phase)
    requires Ids(log, phases) && (id in phases ==> !phases[id].Admitted?)
    ensures Ids(log, phases[id := p])
  {
  }

  lemma IdsGrow(log: seq<Entry>, phases: map<nat, Phase>, id: nat, ts: real)
    requires Ids(log, phases) && (id in phases ==> !phases[id].Admitted?)
    ensures Ids(log + [Entry(id, ts)], phases[id := Admitted(ts)])
  {
  }

  // ---- Steps of the shared half --------------------------------------------

  lemma TransactionKeepsShared(s: Fleet, id: nat, limit: nat, w: real, d: Lag)
    requires limit > 0 && w >= 0.0 && d.Valid() && SharedOk(s, limit, w, d) && Ready(s, id, d)
    ensures SharedOk(AfterTransaction(s, id, limit, w), limit, w, d)
  {
    hide SharedOk, AfterTransaction;
    if UnderCap(s.zset, id, s.phases[id].ts, limit, w) {
      AdmissionKeepsLog(s, id, limit, w, d);
      AdmissionKeepsMembers(s, id, limit, w, d);
      SharedIf(AfterTransaction(s, id, limit, w), limit, w, d);
    } else {
      OverKeepsShared(s, id, limit, w, d);
    }
  }

  lemma SharedIf(s: Fleet, limit: nat, w: real, d: Lag)
    requires LogOk(s, limit, w, d) && MembersOk(s, w, d)
    ensures SharedOk(s, limit, w, d)
  {
  }

  lemma OverKeepsShared(s: Fleet, id: nat, limit: nat, w: real, d: Lag)
    requires limit > 0 && w >= 0.0 && d.Valid() && SharedOk(s, limit, w, d) && Ready(s, id, d)
    requires !UnderCap(s.zset, id, s.phases[id].ts, limit, w)
    ensures SharedOk(AfterTransaction(s, id, limit, w), limit, w, d)
  {
    hide Sparse, InLog, UnderCap, ReasonsOk;
    OverKeepsReasons(s, id, limit, w);
    IdsStay(s.log, s.phases, id, Over(s.phases[id].worker, s.phases[id].ts));
  }

  lemma OverKeepsReasons(s: Fleet, id: nat, limit: nat, w: real)
    requires ReasonsOk(s) && id in s.phases && s.phases[id].Started?
    requires !UnderCap(s.zset, id, s.phases[id].ts, limit, w)
    ensures ReasonsOk(AfterTransaction(s, id, limit, w))
  {
    CountedMembers(s.zset, id, s.phases[id].ts, w);
    hide InLog, Counted, UnderCap;
  }

  lemma AdmissionKeepsLog(s: Fleet, id: nat, limit: nat, w: real, d: Lag)
    requires limit > 0 && d.Valid() && SharedOk(s, limit, w, d) && Ready(s, id, d)
    requires UnderCap(s.zset, id, s.phases[id].ts, limit, w)
    ensures LogOk(AfterTransaction(s, id, limit, w), limit, w, d)
  {
    var more, v := s.log + [Entry(id, s.phases[id].ts)], w - d.Total();
    forall a: real ensures Fits(more, a, v, limit) {
      AdmissionFits(s, id, limit, w, d, a);
    }
    assert Sparse(more, v, limit);
    IdsGrow(s.log, s.phases, id, s.phases[id].ts);
    hide Sparse, Ids, Counted, InLog, RecentOk;
  }

  lemma ClockMoves(s: Fleet, id: nat, limit: nat, w: real, d: Lag)
    requires Ready(s, id, d)
    ensures Clock(AfterTransaction(s, id, limit, w), d) == Max(Clock(s, d), s.phases[id].ts)
    ensures Clock(s, d) <= s.phases[id].ts + d.Total()
  {
    hide Counted, UnderCap;
  }

  lemma AdmissionKeepsMembers(s: Fleet, id: nat, limit: nat, w: real, d: Lag)
    requires w >= 0.0 && d.Valid() && SharedOk(s, limit, w, d) && Ready(s, id, d)
    requires UnderCap(s.zset, id, s.phases[id].ts, limit, w)
    ensures MembersOk(AfterTransaction(s, id, limit, w), w, d)
  {
    var ts := s.phases[id].ts;
    hide Sparse, InLog, Counted, UnderCap, RecentOk, ScoresOk, ReasonsOk, AgesOk, Clock;
    ClockMoves(s, id, limit, w, d);
    AdmissionKeepsScores(s, id, limit, w);
    AdmissionKeepsReasons(s, id, limit, w);
  }

  lemma AdmissionKeepsScores(s: Fleet, id: nat, limit: nat, w: real)
    requires ScoresOk(s) && id in s.phases && s.phases[id].Started?
    requires UnderCap(s.zset, id, s.phases[id].ts, limit, w)
    ensures ScoresOk(AfterTransaction(s, id, limit, w))
  {
    CountedMembers(s.zset, id, s.phases[id].ts, w);
    hide Counted, UnderCap;
  }

  lemma AdmissionKeepsReasons(s: Fleet, id: nat, limit: nat, w: real)
    requires ReasonsOk(s) && id in s.phases && s.phases[id].Started?
    requires UnderCap(s.zset, id, s.phases[id].ts, limit, w)
    ensures ReasonsOk(AfterTransaction(s, id, limit, w))
  {
    var e := Entry(id, s.phases[id].ts);
    var t := AfterTransaction(s, id, limit, w);
    CountedMembers(s.zset, id, e.ts, w);
    hide InLog, Counted, UnderCap;
    InLogGrows(s.log, e, id, e.ts);
    forall m | m in t.zset && m != id ensures InLog(t.log, m, t.zset[m]) || Pending(t, m) {
      InLogGrows(s.log, e, m, s.zset[m]);
    }
  }

  lemma CountedMembers(zset: map<nat, real>, id: nat, ts: real, w: real)
    ensures var z := Counted(zset, id, ts, w);
            && id in z && z[id] == ts
            && (forall m :: m in z && m != id ==> m in zset && z[m] == zset[m])
            && (forall m :: m in z && m != id && z[m] >= 0.0 ==> z[m] > ts - w)
            && (forall m :: m in zset && m != id && zset[m] > ts - w ==> m in z)
  {
  }

  lemma LostTransactionKeepsShared(s: Fleet, t: Fleet, id: nat, limit: nat, w: real, d: Lag)
    requires limit > 0 && w >= 0.0 && d.Valid() && SharedOk(s, limit, w, d)
    requires Next(s, t, TransactReplyLost(id), limit, w, d)
    ensures SharedOk(t, limit, w, d)
  {
    hide Sparse, InLog;
    IdsStay(s.log, s.phases, id, t.phases[id]);
  }

  ghost predicate SameTimes(s: Fleet, t: Fleet) {
    t.server == s.server && t.expiresAt == s.expiresAt && t.expired == s.expired && t.latest == s.latest
  }

  /** A submit that is not admitted moves on, its member gone or given up. */
  lemma MoveKeepsShared(s: Fleet, t: Fleet, id: nat, limit: nat, w: real, d: Lag)
    requires SharedOk(s, limit, w, d) && (id in s.phases ==> !s.phases[id].Admitted?)
    requires t.log == s.log && SameTimes(s, t) && s.leaked <= t.leaked
    requires t.zset == s.zset || t.zset == s.zset - {id}
    requires id in t.phases && t.phases == s.phases[id := t.phases[id]]
    requires if id in s.phases then t.phases[id].ts == s.phases[id].ts else t.phases[id].ts >= 0.0
    requires t.phases[id].Started? ==> id !in s.phases
    requires id in t.zset ==> t.phases[id].Over? || id in t.leaked
    ensures SharedOk(t, limit, w, d)
  {
    hide Sparse, InLog;
    IdsStay(s.log, s.phases, id, t.phases[id]);
  }

  lemma StepKeepsShared(s: Fleet, t: Fleet, step: Step, limit: nat, w: real, d: Lag)
    requires limit > 0 && w >= 0.0 && d.Valid() && Inv(s, limit, w, d) && Next(s, t, step, limit, w, d)
    ensures SharedOk(t, limit, w, d)
  {
    match step
    case Begin(id, _, _) => MoveKeepsShared(s, t, id, limit, w, d);
    case Transact(id) => TransactionKeepsShared(s, id, limit, w, d);
    case TransactReplyLost(id) => LostTransactionKeepsShared(s, t, id, limit, w, d);
    case TransactFails(id) => MoveKeepsShared(s, t, id, limit, w, d);
    case Rollback(id) => MoveKeepsShared(s, t, id, limit, w, d);
    case RollbackReplyLost(id) => MoveKeepsShared(s, t, id, limit, w, d);
    case RollbackFails(id) => MoveKeepsShared(s, t, id, limit, w, d);
    case ReadOldest(id) => MoveKeepsShared(s, t, id, limit, w, d);
    case ReadOldestFails(id) => MoveKeepsShared(s, t, id, limit, w, d);
    case AskLocal(id) => AskLocalKeepsShared(s, t, id, limit, w, d);
    case Tick(_) => TickKeepsShared(s, t, step.at, limit, w, d);
    case Expire => ExpiryKeepsShared(s, t, limit, w, d);
  }

  lemma TickKeepsShared(s: Fleet, t: Fleet, at: real, limit: nat, w: real, d: Lag)
    requires limit > 0 && SharedOk(s, limit, w, d) && Next(s, t, Tick(at), limit, w, d)
    ensures SharedOk(t, limit, w, d)
  {
    hide Sparse, InLog, Ids, RecentOk;
  }

  /** What the key's expiry drops has been out of every window for the grace. */
  lemma ExpiryKeepsShared(s: Fleet, t: Fleet, limit: nat, w: real, d: Lag)
    requires limit > 0 && SharedOk(s, limit, w, d) && Next(s, t, Expire, limit, w, d)
    ensures SharedOk(t, limit, w, d)
  {
    hide Sparse, InLog, Ids;
    assert Clock(t, d) >= t.server - GRACE_SEC + d.ahead;
  }

  lemma AskLocalKeepsShared(s: Fleet, t: Fleet, id: nat, limit: nat, w: real, d: Lag)
    requires limit > 0 && SharedOk(s, limit, w, d) && Next(s, t, AskLocal(id), limit, w, d)
    ensures SharedOk(t, limit, w, d)
  {
    MoveKeepsShared(s, t, id, limit, w, d);
  }

  // ---- Steps of the fallbacks ------------------------------------------------

  lemma FallbackStays(f: Fallback, phases: map<nat, Phase>, id: nat, p: Phase, limit: nat, w: real, d: Lag)
    requires FallbackOk(f, phases, limit, w, d) && (id in phases ==> !phases[id].Admitted?)
    ensures FallbackOk(f, phases[id := p], limit, w, d)
  {
    IdsStay(f.log, phases, id, p);
  }

  lemma FallbackSteps(f: Fallback, phases: map<nat, Phase>, id: nat, ts: real, limit: nat, w: real, d: Lag)
    requires limit > 0 && w >= 0.0 && d.Valid() && FallbackOk(f, phases, limit, w, d) && f.now <= ts + d.stamp
    requires id in phases && !phases[id].Admitted?
    ensures var (bucket, o) := ML.Check(f.bucket, limit, w, ts);
            var now := Max(f.now, ts);
            && (o.Admitted? ==>
                  FallbackOk(Fallback(bucket, f.log + [Entry(id, ts)], now), phases[id := Admitted(ts)], limit, w, d))
            && (o.Refused? ==> FallbackOk(Fallback(bucket, f.log, now), phases[id := Refused(ts)], limit, w, d))
  {
    ML.StepKeepsLateSuffix(ML.History(f.bucket, Times(f.log)), limit, w, f.now, ts, d.Total());
    TimesSnoc(f.log, Entry(id, ts));
    IdsGrow(f.log, phases, id, ts);
    IdsStay(f.log, phases, id, Refused(ts));
    hide ML.LateSuffix, Ids, Times;
  }

  lemma AskLocalKeepsLocal(s: Fleet, t: Fleet, id: nat, limit: nat, w: real, d: Lag)
    requires limit > 0 && w >= 0.0 && d.Valid() && LocalOk(s, limit, w, d) && Next(s, t, AskLocal(id), limit, w, d)
    ensures LocalOk(t, limit, w, d)
  {
    var Failed(worker, ts) := s.phases[id];
    FallbackSteps(s.local[worker], s.phases, id, ts, limit, w, d);
    forall k | 0 <= k < |t.local| ensures FallbackOk(t.local[k], t.phases, limit, w, d) {
      if k != worker { FallbackStays(s.local[k], s.phases, id, t.phases[id], limit, w, d); }
    }
  }

  lemma OtherStepsKeepLocal(s: Fleet, t: Fleet, id: nat, limit: nat, w: real, d: Lag)
    requires LocalOk(s, limit, w, d) && t.local == s.local && (id in s.phases ==> !s.phases[id].Admitted?)
    requires id in t.phases && t.phases == s.phases[id := t.phases[id]]
    ensures LocalOk(t, limit, w, d)
  {
    forall k | 0 <= k < |t.local| ensures FallbackOk(t.local[k], t.phases, limit, w, d) {
      FallbackStays(s.local[k], s.phases, id, t.phases[id], limit, w, d);
    }
  }

  lemma StepKeepsLocal(s: Fleet, t: Fleet, step: Step, limit: nat, w: real, d: Lag)
    requires limit > 0 && w >= 0.0 && d.Valid() && LocalOk(s, limit, w, d) && Next(s, t, step, limit, w, d)
    ensures LocalOk(t, limit, w, d)
  {
    if step.AskLocal? {
      AskLocalKeepsLocal(s, t, step.id, limit, w, d);
    } else if !step.Expire? && !step.Tick? {
      OtherStepsKeepLocal(s, t, step.id, limit, w, d);
    }
  }

  // ---- Every admission is logged ------------------------------------------------

  /** The logs only ever get longer, and an admission stays one. */
  ghost predicate LogsGrow(s: Fleet, t: Fleet) {
    && (t.log == s.log || exists e :: t.log == s.log + [e])
    && |t.local| == |s.local|
    && (forall k :: 0 <= k < |s.local| ==>
          t.local[k].log == s.local[k].log || exists e :: t.local[k].log == s.local[k].log + [e])
  }

  lemma StepGrowsLogs(s: Fleet, t: Fleet, step: Step, limit: nat, w: real, d: Lag)
    requires limit > 0 && Next(s, t, step, limit, w, d)
    ensures LogsGrow(s, t)
    ensures forall id :: id in s.phases && s.phases[id].Admitted? ==> id in t.phases && t.phases[id] == s.phases[id]
  {
    hide Counted, ML.Check;
  }

  lemma LoggedStays(s: Fleet, t: Fleet, id: nat, ts: real)
    requires Logged(s, id, ts) && LogsGrow(s, t)
    ensures Logged(t, id, ts)
  {
    if InLog(s.log, id, ts) {
      if t.log != s.log {
        var e :| t.log == s.log + [e];
        InLogGrows(s.log, e, id, ts);
      }
    } else {
      var k :| 0 <= k < |s.local| && InLog(s.local[k].log, id, ts);
      if t.local[k].log != s.local[k].log {
        var e :| t.local[k].log == s.local[k].log + [e];
        InLogGrows(s.local[k].log, e, id, ts);
      }
      assert InLog(t.local[k].log, id, ts);
    }
  }

  lemma LoggedByRedis(s: Fleet, id: nat, ts: real)
    requires InLog(s.log, id, ts)
    ensures Logged(s, id, ts)
  {
  }

  lemma LoggedByWorker(s: Fleet, worker: nat, id: nat, ts: real)
    requires worker < |s.local| && InLog(s.local[worker].log, id, ts)
    ensures Logged(s, id, ts)
  {
  }

  lemma RedisAdmissionIsLogged(s: Fleet, id: nat, limit: nat, w: real)
    requires id in s.phases && s.phases[id].Started?
    ensures var t := AfterTransaction(s, id, limit, w);
            t.phases[id].Admitted? ==> Logged(t, id, t.phases[id].ts)
  {
    hide Counted, UnderCap, Logged, InLog;
    var t, ts := AfterTransaction(s, id, limit, w), s.phases[id].ts;
    InLogGrows(s.log, Entry(id, ts), id, ts);
    if t.phases[id].Admitted? { LoggedByRedis(t, id, ts); }
  }

  lemma LocalAdmissionIsLogged(s: Fleet, id: nat, limit: nat, w: real)
    requires limit > 0 && id in s.phases && s.phases[id].Failed? && s.phases[id].worker < |s.local|
    ensures var t := AfterLocal(s, id, limit, w);
            t.phases[id].Admitted? ==> Logged(t, id, t.phases[id].ts)
  {
    hide Logged, InLog, ML.Check;
    var t := AfterLocal(s, id, limit, w);
    var Failed(worker, ts) := s.phases[id];
    InLogGrows(s.local[worker].log, Entry(id, ts), id, ts);
    if t.phases[id].Admitted? { LoggedByWorker(t, worker, id, ts); }
  }

  lemma NewAdmissionIsLogged(s: Fleet, t: Fleet, step: Step, limit: nat, w: real, d: Lag, id: nat)
    requires limit > 0 && Next(s, t, step, limit, w, d) && id in t.phases && t.phases[id].Admitted?
    requires !(id in s.phases && s.phases[id].Admitted?)
    ensures Logged(t, id, t.phases[id].ts)
  {
    hide Counted, UnderCap, Logged, ML.Check;
    if step.Transact? {
      RedisAdmissionIsLogged(s, step.id, limit, w);
    } else {
      assert step.AskLocal? && step.id == id;
      LocalAdmissionIsLogged(s, id, limit, w);
    }
  }

  lemma StepLogsAdmissions(s: Fleet, t: Fleet, step: Step, limit: nat, w: real, d: Lag)
    requires limit > 0 && AllLogged(s) && Next(s, t, step, limit, w, d)
    ensures AllLogged(t)
  {
    hide Next, Logged, LogsGrow;
    StepGrowsLogs(s, t, step, limit, w, d);
    forall id | id in t.phases && t.phases[id].Admitted? ensures Logged(t, id, t.phases[id].ts) {
      if id in s.phases && s.phases[id].Admitted? {
        LoggedStays(s, t, id, t.phases[id].ts);
      } else {
        NewAdmissionIsLogged(s, t, step, limit, w, d, id);
      }
    }
  }

  /** Every step of the fleet keeps the invariant. */
  lemma StepKeepsInv(s: Fleet, t: Fleet, step: Step, limit: nat, w: real, d: Lag)
    requires limit > 0 && w >= 0.0 && d.Valid() && Inv(s, limit, w, d) && Next(s, t, step, limit, w, d)
    ensures Inv(t, limit, w, d) && |t.local| == |s.local|
  {
    StepKeepsShared(s, t, step, limit, w, d);
    StepKeepsLocal(s, t, step, limit, w, d);
    StepLogsAdmissions(s, t, step, limit, w, d);
  }

  // ---- Whole runs ------------------------------------------------------------------

  /** A run of a fleet of `n` workers: states, each reached from the one before. */
  ghost predicate IsRun(run: seq<Fleet>, steps: seq<Step>, n: nat, limit: nat, w: real, d: Lag)
    requires limit > 0
  {
    && |run| == |steps| + 1 && Init(run[0], n)
    && forall i :: 0 <= i < |steps| ==> Next(run[i], run[i + 1], steps[i], limit, w, d)
  }

  lemma {:induction false} RunInv(run: seq<Fleet>, steps: seq<Step>, n: nat, limit: nat, w: real, d: Lag, i: nat)
    requires limit > 0 && w >= 0.0 && d.Valid() && IsRun(run, steps, n, limit, w, d) && i < |run|
    ensures Inv(run[i], limit, w, d) && |run[i].local| == n
  {
    if i == 0 {
      InitInv(run[0], n, limit, w, d);
    } else {
      RunInv(run, steps, n, limit, w, d, i - 1);
      StepKeepsInv(run[i - 1], run[i], steps[i - 1], limit, w, d);
    }
  }
}
