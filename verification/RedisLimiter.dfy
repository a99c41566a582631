/** `RedisRateLimiter` of `src/api/auth.py` as an object, called without
    interruption: what one submit does to the shared sorted set and to the
    worker's fallback, with Redis failing at any of its three round trips. */
module RedisLimiter {
  import opened Windows
  import opened Wrappers
  import F = FleetLimiter
  import ML = MemoryLimiter

  /** Which round trip raises, if one does, and whether Redis had done its part. */
  datatype Fault =
    | Healthy
    | TransactionFails(applied: bool)
    | RollbackFails(applied: bool)
    | ReadFails

  type Sets = map<string, map<nat, real>>

  function SetOf(sets: Sets, key: string): map<nat, real> {
    if key in sets then sets[key] else map[]
  }

  /** The lowest score of the set. */
  ghost predicate IsOldest(zset: map<nat, real>, score: real) {
    (exists m :: m in zset && zset[m] == score) && forall k :: k in zset ==> score <= zset[k]
  }

  lemma OldestExists(zset: map<nat, real>) returns (m: nat)
    requires |zset| > 0
    ensures m in zset && forall k :: k in zset ==> zset[m] <= zset[k]
    decreases |zset|
  {
    var first: nat :| first in zset.Keys;
    m := first;
    var rest := zset - {first};
    assert rest.Keys == zset.Keys - {first};
    assert |rest| == |zset| - 1;
    if |rest| > 0 {
      var other := OldestExists(rest);
      assert forall k :: k in zset ==> k == first || (k in rest && rest[k] == zset[k]);
      if zset[other] < zset[first] { m := other; }
    }
  }

  class Redis {
    var sets: Sets
    var ttlSec: map<string, real>

    constructor ()
      ensures sets == map[] && ttlSec == map[]
    {
      sets, ttlSec := map[], map[];
    }

    /** ZREMRANGEBYSCORE, ZADD, ZCARD and EXPIRE in one transaction. */
    method PruneAddCount(key: string, cutoff: real, member: nat, ts: real, ttl: real) returns (count: nat)
      modifies this
      ensures sets == old(sets)[key := F.PrunedSet(SetOf(old(sets), key), cutoff)[member := ts]]
      ensures count == |sets[key]|
      ensures ttlSec == old(ttlSec)[key := ttl]
    {
      var zset: map<nat, real> := F.PrunedSet(SetOf(sets, key), cutoff);
      zset := zset[member := ts];
      sets := sets[key := zset];
      count := |zset|;
      ttlSec := ttlSec[key := ttl];
    }

    method ZRem(key: string, member: nat)
      modifies this
      ensures sets == old(sets)[key := SetOf(old(sets), key) - {member}]
      ensures ttlSec == old(ttlSec)
    {
      sets := sets[key := SetOf(sets, key) - {member}];
    }

    /** ZRANGE key 0 0 WITHSCORES. */
    method Oldest(key: string) returns (score: Option<real>)
      ensures score.None? <==> |SetOf(sets, key)| == 0
      ensures score.Some? ==> IsOldest(SetOf(sets, key), score.value)
    {
      var zset := SetOf(sets, key);
      if |zset| == 0 {
        return None;
      }
      ghost var first := OldestExists(zset);
      var m: nat :| m in zset.Keys && forall k :: k in zset.Keys ==> zset[m] <= zset[k];
      score := Some(zset[m]);
    }
  }

  /** The header: until the oldest member leaves, or the whole window without one. */
  function RetryAfter(oldest: Option<real>, w: real, ts: real): int {
    if oldest.Some? then ML.RetryAfter(oldest.value, w, ts)
    else if ML.Truncated(w) < 1 then 1 else ML.Truncated(w)
  }

  /** `r` is what `_count` answers and `now` what it leaves of `zset`: under the
      cap nothing after the transaction can go wrong, above it the member is
      taken back unless that fails. */
  ghost predicate CountsTo(r: Result<Option<int>, ()>, now: map<nat, real>, zset: map<nat, real>,
                           member: nat, ts: real, limit: nat, w: real, fault: Fault)
  {
    var z := F.Counted(zset, member, ts, w);
    if fault.TransactionFails? then r.Failure? && now == (if fault.applied then z else zset)
    else if |z| <= limit then r == Success(None) && now == z
    else if fault.RollbackFails? then r.Failure? && now == (if fault.applied then z - {member} else z)
    else if fault.ReadFails? then r.Failure? && now == z - {member}
    else
      && now == z - {member} && r.Success? && r.value.Some?
      && exists oldest :: IsOldest(now, oldest) && r.value.value == ML.RetryAfter(oldest, w, ts)
  }

  /** One call on one key: what `_count` answers decides, and only its failure
      makes the fallback look at the submit. */
  ghost predicate Called(o: ML.Outcome, r: Result<Option<int>, ()>, bucket: seq<real>, live: seq<real>,
                         ts: real, limit: nat, w: real)
    requires limit > 0
  {
    match r
    case Failure(_) => (live, o) == ML.Check(bucket, limit, w, ts)
    case Success(None) => live == bucket && o == ML.Admitted
    case Success(Some(header)) => live == bucket && o == ML.Refused(header)
  }

  class RedisRateLimiter {
    const limit: nat
    const windowSec: real
    const client: Redis
    const fallback: ML.InMemoryRateLimiter

    ghost predicate Valid()
      reads this, fallback
    {
      limit > 0 && fallback.limit == limit && fallback.windowSec == windowSec && fallback.Valid()
    }

    /** The fallback is built once and kept: it counts over all of a worker's failures. */
    constructor (client: Redis, limit: nat, windowSec: real)
      requires limit > 0
      ensures Valid() && this.client == client && this.limit == limit && this.windowSec == windowSec
      ensures fresh(fallback) && fallback.buckets == map[]
    {
      this.client, this.limit, this.windowSec := client, limit, windowSec;
      fallback := new ML.InMemoryRateLimiter(limit, windowSec);
    }

    /** `_count`: the refusal's header if the submit is over the cap, or an error. */
    method Count(key: string, member: nat, ts: real, fault: Fault) returns (r: Result<Option<int>, ()>)
      requires limit > 0
      modifies client
      ensures forall k :: k != key ==> SetOf(client.sets, k) == SetOf(old(client.sets), k)
      ensures CountsTo(r, SetOf(client.sets, key), SetOf(old(client.sets), key), member, ts, limit, windowSec, fault)
      ensures client.ttlSec == if fault == TransactionFails(false) then old(client.ttlSec)
                               else old(client.ttlSec)[key := windowSec + F.GRACE_SEC]
    {
      hide IsOldest, F.PrunedSet;
      if fault == TransactionFails(false) {
        return Failure(());
      }
      var count := client.PruneAddCount(key, ts - windowSec, member, ts, windowSec + F.GRACE_SEC);
      if fault.TransactionFails? {
        return Failure(());
      }
      if count <= limit {
        return Success(None);
      }
      if fault == RollbackFails(false) {
        return Failure(());
      }
      ghost var z := SetOf(client.sets, key);
      client.ZRem(key, member);
      if fault.RollbackFails? || fault.ReadFails? {
        return Failure(());
      }
      var oldest := client.Oldest(key);
      return Success(Some(RetryAfter(oldest, windowSec, ts)));
    }

    /** Counts one submit, with the local limiter when Redis is away. */
    method CheckAndRecord(key: string, member: nat, ts: real, fault: Fault) returns (o: ML.Outcome)
      requires Valid()
      modifies client, fallback
      ensures Valid()
      ensures exists r ::
                && CountsTo(r, SetOf(client.sets, key), SetOf(old(client.sets), key),
                            member, ts, limit, windowSec, fault)
                && Called(o, r, ML.BucketOf(old(fallback.buckets), key), ML.BucketOf(fallback.buckets, key),
                          ts, limit, windowSec)
      ensures client.ttlSec == if fault == TransactionFails(false) then old(client.ttlSec)
                               else old(client.ttlSec)[key := windowSec + F.GRACE_SEC]
      ensures forall k :: k != key ==>
                SetOf(client.sets, k) == SetOf(old(client.sets), k)
                && ML.BucketOf(fallback.buckets, k) == ML.BucketOf(old(fallback.buckets), k)
    {
      var r := Count(key, member, ts, fault);
      if r.Failure? {
        o := fallback.CheckAndRecord(key, ts);
        return;
      }
      o := if r.value.Some? then ML.Refused(r.value.value) else ML.Admitted;
    }
  }

  // ---- Retry-After ----------------------------------------------------------

  ghost predicate Scored(zset: map<nat, real>) {
    forall m :: m in zset ==> zset[m] >= 0.0
  }

  /** The members that have not left the window when the clock shows `cutoff + w`. */
  ghost function Outliving(zset: map<nat, real>, cutoff: real): set<nat> {
    set m | m in zset && zset[m] > cutoff
  }

  /** Of any set, just full, overfull or neither: a submit at `later` is admitted
      exactly when fewer than `limit` members outlive its window. */
  lemma LaterAdmittedIff(zset: map<nat, real>, limit: nat, w: real, id: nat, later: real)
    requires id !in zset && Scored(zset)
    ensures F.UnderCap(zset, id, later, limit, w) <==> |Outliving(zset, later - w)| < limit
  {
    var kept := F.PrunedSet(zset, later - w);
    assert kept.Keys == Outliving(zset, later - w);
    assert |kept| == |kept.Keys|;
  }

  /** What is left of `zset` when nothing is added: other submits may still take
      their members back. */
  ghost predicate Shrunk(rest: map<nat, real>, zset: map<nat, real>) {
    forall m :: m in rest ==> m in zset && rest[m] == zset[m]
  }

  /** Every submit from `ts + sec` on is admitted, whoever takes members back. */
  ghost predicate Suffices(sec: real, zset: map<nat, real>, limit: nat, w: real, ts: real, id: nat) {
    forall rest, later: real :: Shrunk(rest, zset) && later >= ts + sec ==> F.UnderCap(rest, id, later, limit, w)
  }

  lemma StillAdmitted(rest: map<nat, real>, zset: map<nat, real>, limit: nat, w: real, id: nat, from: real, later: real)
    requires id !in zset && Scored(zset) && Shrunk(rest, zset) && from <= later
    requires |Outliving(zset, from - w)| < limit
    ensures F.UnderCap(rest, id, later, limit, w)
  {
    LaterAdmittedIff(rest, limit, w, id, later);
    SubsetSize(Outliving(rest, later - w), Outliving(zset, from - w));
  }

  /** A wait is enough exactly when fewer than `limit` members outlive it. */
  lemma SufficesIff(sec: real, zset: map<nat, real>, limit: nat, w: real, ts: real, id: nat)
    requires id !in zset && Scored(zset)
    ensures Suffices(sec, zset, limit, w, ts, id) <==> |Outliving(zset, ts + sec - w)| < limit
  {
    LaterAdmittedIff(zset, limit, w, id, ts + sec);
    if |Outliving(zset, ts + sec - w)| < limit {
      hide F.UnderCap, Outliving;
      forall rest, later: real | Shrunk(rest, zset) && later >= ts + sec
        ensures F.UnderCap(rest, id, later, limit, w)
      {
        StillAdmitted(rest, zset, limit, w, id, ts + sec, later);
      }
    } else {
      hide F.UnderCap, Outliving;
      assert Shrunk(zset, zset);
    }
  }

  /** The header of a refusal covers the oldest member's window by at most a
      second. It is enough exactly when fewer than `limit` members outlive it, in
      particular when the refusal leaves a set that is just full. */
  lemma RetryAfterSuffices(zset: map<nat, real>, oldest: real, limit: nat, w: real, ts: real, id: nat)
    requires IsOldest(zset, oldest) && id !in zset && Scored(zset) && oldest >= ts - w
    ensures var header, wait := ML.RetryAfter(oldest, w, ts) as real, oldest + w - ts;
            && wait < header <= wait + 1.0
            && (Suffices(header, zset, limit, w, ts, id) <==> |Outliving(zset, ts + header - w)| < limit)
            && (|zset| <= limit ==> Suffices(header, zset, limit, w, ts, id))
  {
    ML.HeaderCoversWait(oldest, w, ts);
    var header := ML.RetryAfter(oldest, w, ts) as real;
    SufficesIff(header, zset, limit, w, ts, id);
    if |zset| <= limit { OldestLeaves(zset, oldest, ts + header - w); }
  }

  lemma OldestLeaves(zset: map<nat, real>, oldest: real, cutoff: real)
    requires IsOldest(zset, oldest) && oldest <= cutoff
    ensures |Outliving(zset, cutoff)| < |zset|
  {
    var m :| m in zset && zset[m] == oldest;
    SubsetSize(Outliving(zset, cutoff), zset.Keys - {m});
    assert |zset| == |zset.Keys|;
  }

  /** When a set is just full the needed wait is exactly that of its oldest member. */
  lemma JustFullAdmitsIff(zset: map<nat, real>, oldest: real, limit: nat, w: real, id: nat, later: real)
    requires |zset| == limit && IsOldest(zset, oldest) && id !in zset && Scored(zset)
    ensures F.UnderCap(zset, id, later, limit, w) <==> oldest + w <= later
  {
    LaterAdmittedIff(zset, limit, w, id, later);
    if oldest <= later - w {
      OldestLeaves(zset, oldest, later - w);
    } else {
      assert Outliving(zset, later - w) == zset.Keys;
      assert |zset| == |zset.Keys|;
    }
  }

  /** A whole window is always enough, however many phantoms overfill the set:
      they age out like admissions. */
  lemma WholeWindowSuffices(zset: map<nat, real>, limit: nat, w: real, ts: real, id: nat)
    requires limit > 0 && id !in zset && Scored(zset) && forall m :: m in zset ==> zset[m] <= ts
    ensures Suffices(w, zset, limit, w, ts, id)
  {
    SufficesIff(w, zset, limit, w, ts, id);
    assert Outliving(zset, ts + w - w) == {};
  }
}
