/** The Redis half of `src/api/admin_migrate.py`: a SCAN sweep for jobs without an
    owner, and the runs that re-own or delete them. */
module AdminSweep {
  import opened Wrappers

  const JOB_KEY_PREFIX := "job:"

  datatype Job = Job(id: string, owner: Option<string>, createdAt: real, rest: string)

  /** A payload that does not parse as a job is passed over, never rewritten. */
  datatype Value = Parsed(job: Job) | Corrupt

  /** A key's value and its remaining time to live in milliseconds, if it has one. */
  datatype Slot = Slot(value: Value, ttlMs: Option<nat>)

  type Store = map<string, Slot>

  function JobKey(id: string): string {
    JOB_KEY_PREFIX + id
  }

  /** Every job is stored under its own id, as the job store writes it. */
  ghost predicate WellKeyed(s: Store) {
    forall k :: k in s && s[k].value.Parsed? ==> k == JobKey(s[k].value.job.id)
  }

  predicate NullOwned(s: Store, key: string) {
    key in s && s[key].value.Parsed? && s[key].value.job.owner.None?
  }

  predicate Matches(s: Store, key: string, cutoff: Option<real>) {
    NullOwned(s, key) && (cutoff.None? || s[key].value.job.createdAt < cutoff.value)
  }

  ghost function Matching(s: Store, cutoff: Option<real>): set<string> {
    set k | k in s && Matches(s, k, cutoff)
  }

  // ---- The scan -----------------------------------------------------------

  datatype Scan = Scan(ids: seq<string>, truncated: bool)

  predicate Full(n: nat, limit: Option<nat>) {
    limit.Some? && n >= limit.value
  }

  /** What a sweep has collected once the keys `keys` have come by, in that order. */
  function Collected(s: Store, keys: seq<string>, cutoff: Option<real>, limit: Option<nat>): Scan {
    if keys == [] then Scan([], false)
    else
      var n := |keys| - 1;
      var before := Collected(s, keys[..n], cutoff, limit);
      if before.truncated || !Matches(s, keys[n], cutoff) then before
      else if Full(|before.ids|, limit) then before.(truncated := true)
      else before.(ids := before.ids + [s[keys[n]].value.job.id])
  }

  function Flat(batches: seq<seq<string>>): seq<string> {
    if batches == [] then [] else Flat(batches[..|batches| - 1]) + batches[|batches| - 1]
  }

  lemma CollectedSnoc(s: Store, keys: seq<string>, key: string, cutoff: Option<real>, limit: Option<nat>)
    ensures var before := Collected(s, keys, cutoff, limit);
            Collected(s, keys + [key], cutoff, limit)
            == if before.truncated || !Matches(s, key, cutoff) then before
               else if Full(|before.ids|, limit) then before.(truncated := true)
               else before.(ids := before.ids + [s[key].value.job.id])
  {
    assert (keys + [key])[..|keys|] == keys;
  }

  lemma {:induction false} TruncationIsFinal(s: Store, keys: seq<string>, more: seq<string>,
                                             cutoff: Option<real>, limit: Option<nat>)
    requires Collected(s, keys, cutoff, limit).truncated
    ensures Collected(s, keys + more, cutoff, limit) == Collected(s, keys, cutoff, limit)
  {
    if more == [] {
      assert keys + more == keys;
    } else {
      var n := |more| - 1;
      TruncationIsFinal(s, keys, more[..n], cutoff, limit);
      CollectedSnoc(s, keys + more[..n], more[n], cutoff, limit);
      assert keys + more == (keys + more[..n]) + [more[n]];
    }
  }

  /** The sweep's two loops over what SCAN returns, batch after batch. */
  method ScanNullOwnerJobs(s: Store, batches: seq<seq<string>>, cutoff: Option<real>, limit: Option<nat>)
    returns (r: Scan)
    ensures r == Collected(s, Flat(batches), cutoff, limit)
  {
    NothingSeen(s, batches, cutoff, limit);
    hide Collected, Flat;
    r := Scan([], false);
    for b := 0 to |batches|
      invariant r == Collected(s, Flat(batches[..b]), cutoff, limit) && !r.truncated
    {
      var done := Flat(batches[..b]);
      var keys := batches[b];
      FlatNext(batches, b);
      assert done + keys[..0] == done;
      var i := 0;
      while i < |keys| && !r.truncated
        invariant 0 <= i <= |keys|
        invariant r == Collected(s, done + keys[..i], cutoff, limit)
      {
        CollectedSnoc(s, done + keys[..i], keys[i], cutoff, limit);
        assert done + keys[..i + 1] == done + keys[..i] + [keys[i]];
        if Matches(s, keys[i], cutoff) {
          if Full(|r.ids|, limit) {
            r := r.(truncated := true);
          } else {
            r := r.(ids := r.ids + [s[keys[i]].value.job.id]);
          }
        }
        i := i + 1;
      }
      if r.truncated {
        Rest(s, batches, b, i, cutoff, limit);
        return;
      }
      assert keys[..|keys|] == keys;
    }
    assert batches[..|batches|] == batches;
  }

  lemma NothingSeen(s: Store, batches: seq<seq<string>>, cutoff: Option<real>, limit: Option<nat>)
    ensures Collected(s, Flat(batches[..0]), cutoff, limit) == Scan([], false)
  {
  }

  lemma FlatNext(batches: seq<seq<string>>, b: nat)
    requires b < |batches|
    ensures Flat(batches[..b + 1]) == Flat(batches[..b]) + batches[b]
  {
    assert batches[..b + 1][..b] == batches[..b];
  }

  lemma {:induction false} FlatPrefix(batches: seq<seq<string>>, b: nat) returns (more: seq<string>)
    requires b <= |batches|
    ensures Flat(batches) == Flat(batches[..b]) + more
  {
    if b == |batches| {
      more := [];
      assert batches[..b] == batches;
    } else {
      var n := |batches| - 1;
      var m := FlatPrefix(batches[..n], b);
      assert batches[..n][..b] == batches[..b];
      more := m + batches[n];
    }
  }

  lemma Rest(s: Store, batches: seq<seq<string>>, b: nat, i: nat, cutoff: Option<real>, limit: Option<nat>)
    requires b < |batches| && i <= |batches[b]|
    requires Collected(s, Flat(batches[..b]) + batches[b][..i], cutoff, limit).truncated
    ensures Collected(s, Flat(batches), cutoff, limit)
            == Collected(s, Flat(batches[..b]) + batches[b][..i], cutoff, limit)
  {
    var more := FlatPrefix(batches, b + 1);
    var done := Flat(batches[..b]);
    FlatNext(batches, b);
    hide Collected, Flat;
    assert batches[b] == batches[b][..i] + batches[b][i..];
    assert Flat(batches) == done + batches[b][..i] + (batches[b][i..] + more);
    TruncationIsFinal(s, done + batches[b][..i], batches[b][i..] + more, cutoff, limit);
  }

  /** SCAN's promise on a store that does not change: every key comes by at least
      once. Keys may come by again, in any order, in batches of any size. */
  ghost predicate Sweeps(keys: seq<string>, s: Store) {
    forall k :: k in s ==> k in keys
  }

  /** Only matching rows are collected, at most `limit`; without truncation none
      that came by is missing, and a match is never passed over for nothing. */
  lemma {:induction false} CollectedMatches(s: Store, keys: seq<string>, cutoff: Option<real>, limit: Option<nat>)
    requires WellKeyed(s) && (limit.Some? ==> limit.value >= 1)
    ensures var r := Collected(s, keys, cutoff, limit);
            && (forall id :: id in r.ids ==> Matches(s, JobKey(id), cutoff))
            && (limit.Some? ==> |r.ids| <= limit.value)
            && (!r.truncated ==> forall k :: k in keys && Matches(s, k, cutoff) ==> s[k].value.job.id in r.ids)
            && (r.truncated ==> r.ids != [])
  {
    if keys != [] {
      CollectedMatches(s, keys[..|keys| - 1], cutoff, limit);
    }
  }

  /** The same on the fields of the rows: what is collected are jobs without an owner
      from before the cut-off, and all of those unless the sweep was cut short. */
  lemma CollectedFields(s: Store, keys: seq<string>, cutoff: Option<real>, limit: Option<nat>, id: string)
    requires WellKeyed(s) && (limit.Some? ==> limit.value >= 1)
    ensures var r, key := Collected(s, keys, cutoff, limit), "job:" + id;
            var unowned := && key in s && s[key].value.Parsed? && s[key].value.job.owner == None
                           && (cutoff.Some? ==> s[key].value.job.createdAt < cutoff.value);
            (id in r.ids ==> unowned) && (!r.truncated && key in keys && unowned ==> id in r.ids)
  {
    CollectedMatches(s, keys, cutoff, limit);
    var key := "job:" + id;
    assert JobKey(id) == key && key[4..] == id;
    if key in s && s[key].value.Parsed? {
      assert JobKey(s[key].value.job.id)[4..] == s[key].value.job.id;
    }
  }

  // ---- The writes ------------------------------------------------------------

  /** The time to live a rewrite leaves. A key in its last millisecond reads as 0,
      which is written back as none at all. */
  function RewrittenTtl(ttlMs: Option<nat>): Option<nat> {
    if ttlMs == Some(0) then None else ttlMs
  }

  function Owned(slot: Slot, owner: string): Slot
    requires slot.value.Parsed?
  {
    Slot(Parsed(slot.value.job.(owner := Some(owner))), RewrittenTtl(slot.ttlMs))
  }

  /** The store once the rows `ids` have been re-owned one after another. */
  function Assigned(s: Store, ids: seq<string>, owner: string): Store {
    if ids == [] then s
    else
      var t := Assigned(s, ids[..|ids| - 1], owner);
      var key := JobKey(ids[|ids| - 1]);
      if NullOwned(t, key) then t[key := Owned(t[key], owner)] else t
  }

  function Deleted(s: Store, ids: seq<string>): Store {
    if ids == [] then s
    else
      var t := Deleted(s, ids[..|ids| - 1]);
      var key := JobKey(ids[|ids| - 1]);
      if NullOwned(t, key) then t - {key} else t
  }

  class Redis {
    var store: Store

    constructor (s: Store)
      ensures store == s
    {
      store := s;
    }

    /** SET: the value is replaced, and a time to live that is not given again is gone. */
    method Set(key: string, value: Value, px: Option<nat>)
      modifies this
      ensures store == old(store)[key := Slot(value, px)]
    {
      store := store[key := Slot(value, px)];
    }

    /** PTTL: the remaining milliseconds, -1 without any, -2 without the key. */
    method Pttl(key: string) returns (ms: int)
      ensures ms == if key !in store then -2 else if store[key].ttlMs.None? then -1 else store[key].ttlMs.value
    {
      if key !in store {
        return -2;
      }
      ms := match store[key].ttlMs case None => -1 case Some(n) => n;
    }

    method WriteJobPreservingTtl(key: string, job: Job)
      modifies this
      ensures store.Keys == old(store).Keys + {key} && store[key].value == Parsed(job)
      ensures forall k :: k in old(store) && k != key ==> store[k] == old(store)[k]
      ensures key !in old(store) ==> store[key].ttlMs == None
      ensures key in old(store) ==> store[key].ttlMs == RewrittenTtl(old(store)[key].ttlMs)
      ensures key in old(store) ==> (store[key].ttlMs == old(store)[key].ttlMs <==> old(store)[key].ttlMs != Some(0))
    {
      var remaining := Pttl(key);
      if remaining > 0 {
        Set(key, Parsed(job), Some(remaining));
      } else {
        Set(key, Parsed(job), None);
      }
    }

    /** `assign_job_owner`: every row is read again, and left alone if it has an
        owner by now, is gone, or no longer parses. */
    method AssignJobOwner(ids: seq<string>, owner: string, dryRun: bool) returns (changed: nat)
      modifies this
      ensures dryRun ==> changed == 0 && store == old(store)
      ensures !dryRun ==> store == Assigned(old(store), ids, owner)
      ensures !dryRun ==> changed + NullCount(store) == NullCount(old(store))
    {
      changed := 0;
      if dryRun {
        return;
      }
      for i := 0 to |ids|
        invariant store == Assigned(old(store), ids[..i], owner)
        invariant changed + NullCount(store) == NullCount(old(store))
      {
        assert ids[..i + 1][..i] == ids[..i];
        var key := JobKey(ids[i]);
        if NullOwned(store, key) {
          AssignCounts(store, key, owner);
          ghost var was := store;
          WriteJobPreservingTtl(key, store[key].value.job.(owner := Some(owner)));
          assert store == was[key := Owned(was[key], owner)];
          changed := changed + 1;
        }
      }
      assert ids[..|ids|] == ids;
    }

    /** `delete_null_owner_jobs`, with the same second look before each delete. */
    method DeleteNullOwnerJobs(ids: seq<string>, dryRun: bool) returns (changed: nat)
      modifies this
      ensures dryRun ==> changed == 0 && store == old(store)
      ensures !dryRun ==> store == Deleted(old(store), ids) && changed + |store| == |old(store)|
    {
      changed := 0;
      if dryRun {
        return;
      }
      for i := 0 to |ids|
        invariant store == Deleted(old(store), ids[..i]) && changed + |store| == |old(store)|
      {
        assert ids[..i + 1][..i] == ids[..i];
        var key := JobKey(ids[i]);
        if NullOwned(store, key) {
          assert (store - {key}).Keys == store.Keys - {key};
          assert |store.Keys - {key}| == |store.Keys| - 1;
          store := store - {key};
          changed := changed + 1;
        }
      }
      assert ids[..|ids|] == ids;
    }
  }

  ghost function NullKeys(s: Store): set<string> {
    set k | k in s && NullOwned(s, k)
  }

  ghost function NullCount(s: Store): nat {
    |NullKeys(s)|
  }

  lemma AssignCounts(s: Store, key: string, owner: string)
    requires NullOwned(s, key)
    ensures NullCount(s[key := Owned(s[key], owner)]) == NullCount(s) - 1
  {
    var t := s[key := Owned(s[key], owner)];
    assert NullKeys(t) == NullKeys(s) - {key};
  }

  ghost function KeysOf(ids: seq<string>): set<string> {
    set id | id in ids :: JobKey(id)
  }

  /** What re-owning does to the store: the unowned rows named are owned
      afterwards, and every other field and every other row is as before. */
  lemma {:induction false} AssignedExactly(s: Store, ids: seq<string>, owner: string)
    ensures Assigned(s, ids, owner).Keys == s.Keys
    ensures forall k :: k in s ==>
              Assigned(s, ids, owner)[k] == if NullOwned(s, k) && k in KeysOf(ids) then Owned(s[k], owner) else s[k]
  {
    if ids != [] {
      var n := |ids| - 1;
      AssignedExactly(s, ids[..n], owner);
      assert ids == ids[..n] + [ids[n]];
      hide KeysOf, JobKey;
    }
  }

  /** Field by field: an unowned job that is named gets the given owner and keeps its
      id, age and everything else; any other slot is untouched. */
  lemma AssignedFields(s: Store, ids: seq<string>, owner: string, k: string)
    requires k in s
    ensures k in Assigned(s, ids, owner)
    ensures var before, after := s[k].value, Assigned(s, ids, owner)[k].value;
            if before.Parsed? && before.job.owner == None && exists id :: id in ids && k == "job:" + id then
              && after.Parsed? && after.job.owner == Some(owner) && after.job.id == before.job.id
              && after.job.createdAt == before.job.createdAt && after.job.rest == before.job.rest
            else Assigned(s, ids, owner)[k] == s[k]
  {
    AssignedExactly(s, ids, owner);
    assert k in KeysOf(ids) <==> exists id :: id in ids && k == "job:" + id;
  }

  /** Retention survives a run for every key but those that are re-owned in their
      last millisecond. */
  lemma TtlSurvivesIff(s: Store, ids: seq<string>, owner: string, k: string)
    requires k in s
    ensures k in Assigned(s, ids, owner)
    ensures Assigned(s, ids, owner)[k].ttlMs == s[k].ttlMs
            <==> !(s[k].ttlMs == Some(0) && NullOwned(s, k) && k in KeysOf(ids))
  {
    AssignedExactly(s, ids, owner);
  }

  /** What deleting does: the unowned rows named are gone, and nothing else is. */
  lemma {:induction false} DeletedExactly(s: Store, ids: seq<string>)
    ensures forall k :: k in Deleted(s, ids) <==> k in s && !(NullOwned(s, k) && k in KeysOf(ids))
    ensures forall k :: k in Deleted(s, ids) ==> Deleted(s, ids)[k] == s[k]
  {
    if ids != [] {
      var n := |ids| - 1;
      DeletedExactly(s, ids[..n]);
      assert ids == ids[..n] + [ids[n]];
    }
  }

  /** On the fields: a job that is named and has no owner goes, any other slot stays. */
  lemma DeletedFields(s: Store, ids: seq<string>, k: string)
    requires k in s
    ensures k !in Deleted(s, ids) <==>
              s[k].value.Parsed? && s[k].value.job.owner == None && exists id :: id in ids && k == "job:" + id
    ensures k in Deleted(s, ids) ==> Deleted(s, ids)[k] == s[k]
  {
    DeletedExactly(s, ids);
    assert k in KeysOf(ids) <==> exists id :: id in ids && k == "job:" + id;
  }

  // ---- Repeated runs -----------------------------------------------------------

  /** `assign --yes`: sweep, then re-own what the sweep collected. */
  function AssignRun(s: Store, keys: seq<string>, owner: string, cutoff: Option<real>, limit: Option<nat>): Store {
    Assigned(s, Collected(s, keys, cutoff, limit).ids, owner)
  }

  /** A run changes matching rows only, and in those only the owner. */
  lemma AssignRunTouches(s: Store, keys: seq<string>, owner: string, cutoff: Option<real>, limit: Option<nat>)
    requires WellKeyed(s) && (limit.Some? ==> limit.value >= 1)
    ensures var t := AssignRun(s, keys, owner, cutoff, limit);
            && t.Keys == s.Keys && WellKeyed(t)
            && (forall k :: k in s && t[k] != s[k] ==> Matches(s, k, cutoff) && t[k] == Owned(s[k], owner))
            && Matching(t, cutoff) <= Matching(s, cutoff)
  {
    CollectedMatches(s, keys, cutoff, limit);
    AssignedExactly(s, Collected(s, keys, cutoff, limit).ids, owner);
  }

  /** A row whose id was collected matches no longer. */
  lemma CollectedIsOwned(s: Store, keys: seq<string>, owner: string, cutoff: Option<real>, limit: Option<nat>,
                         id: string)
    requires WellKeyed(s) && (limit.Some? ==> limit.value >= 1) && id in Collected(s, keys, cutoff, limit).ids
    ensures JobKey(id) in Matching(s, cutoff)
    ensures JobKey(id) !in Matching(AssignRun(s, keys, owner, cutoff, limit), cutoff)
  {
    var ids := Collected(s, keys, cutoff, limit).ids;
    CollectedMatches(s, keys, cutoff, limit);
    AssignedExactly(s, ids, owner);
    assert JobKey(id) in KeysOf(ids);
  }

  /** One run over any SCAN order with any repeats: as long as a row matches at
      least one matching row is re-owned, and all of them are if the sweep was
      not cut short. */
  lemma AssignRunProgress(s: Store, keys: seq<string>, owner: string, cutoff: Option<real>, limit: Option<nat>)
    requires WellKeyed(s) && Sweeps(keys, s) && (limit.Some? ==> limit.value >= 1)
    ensures var t, r := AssignRun(s, keys, owner, cutoff, limit), Collected(s, keys, cutoff, limit);
            && (Matching(s, cutoff) != {} ==> Matching(t, cutoff) < Matching(s, cutoff))
            && (!r.truncated ==> Matching(t, cutoff) == {})
            && (Matching(s, cutoff) == {} ==> r == Scan([], false))
  {
    var r := Collected(s, keys, cutoff, limit);
    CollectedMatches(s, keys, cutoff, limit);
    AssignRunTouches(s, keys, owner, cutoff, limit);
    forall k | k in Matching(s, cutoff) && !r.truncated
      ensures s[k].value.job.id in r.ids
      ensures k !in Matching(AssignRun(s, keys, owner, cutoff, limit), cutoff)
    {
      assert k in keys && k == JobKey(s[k].value.job.id);
      CollectedIsOwned(s, keys, owner, cutoff, limit, s[k].value.job.id);
    }
    if r.ids != [] {
      CollectedIsOwned(s, keys, owner, cutoff, limit, r.ids[0]);
    }
  }

  /** The stores of a series of runs, each over a sweep of its own. */
  ghost predicate Series(stores: seq<Store>, sweeps: seq<seq<string>>, owner: string,
                         cutoff: Option<real>, limit: Option<nat>)
  {
    && |stores| == |sweeps| + 1 && WellKeyed(stores[0])
    && forall i :: 0 <= i < |sweeps| ==>
         Sweeps(sweeps[i], stores[i]) && stores[i + 1] == AssignRun(stores[i], sweeps[i], owner, cutoff, limit)
  }

  lemma {:induction false} SeriesShrinks(stores: seq<Store>, sweeps: seq<seq<string>>, owner: string,
                                         cutoff: Option<real>, limit: Option<nat>, i: nat)
    requires Series(stores, sweeps, owner, cutoff, limit) && i < |stores| && (limit.Some? ==> limit.value >= 1)
    ensures WellKeyed(stores[i]) && stores[i].Keys == stores[0].Keys
    ensures |Matching(stores[i], cutoff)| == 0 || |Matching(stores[i], cutoff)| + i <= |Matching(stores[0], cutoff)|
    ensures forall k :: k in stores[0] && stores[i][k] != stores[0][k] ==>
              Matches(stores[0], k, cutoff) && stores[i][k] == Owned(stores[0][k], owner)
  {
    if i > 0 {
      SeriesShrinks(stores, sweeps, owner, cutoff, limit, i - 1);
      AssignRunProgress(stores[i - 1], sweeps[i - 1], owner, cutoff, limit);
      AssignRunTouches(stores[i - 1], sweeps[i - 1], owner, cutoff, limit);
      ProperSubsetSize(Matching(stores[i], cutoff), Matching(stores[i - 1], cutoff));
    }
  }

  lemma ProperSubsetSize(a: set<string>, b: set<string>)
    requires a <= b
    ensures |a| <= |b| && (a < b ==> |a| < |b|)
  {
    assert b == a + (b - a);
    if a < b { var x :| x in b && x !in a; assert x in b - a; }
  }

  /** As many runs as there are matching rows leave none, whatever SCAN did; the
      next run then matches nothing and changes nothing, and over the whole
      series no row changed but those, and they only in their owner. */
  lemma SeriesConverges(stores: seq<Store>, sweeps: seq<seq<string>>, owner: string,
                        cutoff: Option<real>, limit: Option<nat>, next: seq<string>)
    requires Series(stores, sweeps, owner, cutoff, limit) && (limit.Some? ==> limit.value >= 1)
    requires |sweeps| >= |Matching(stores[0], cutoff)|
    requires Sweeps(next, stores[|sweeps|])
    ensures var end := stores[|sweeps|];
            && Matching(end, cutoff) == {}
            && Collected(end, next, cutoff, limit) == Scan([], false)
            && AssignRun(end, next, owner, cutoff, limit) == end
            && end.Keys == stores[0].Keys
            && forall k :: k in end ==>
                 end[k] == if Matches(stores[0], k, cutoff) then Owned(stores[0][k], owner) else stores[0][k]
  {
    var n := |sweeps|;
    SeriesShrinks(stores, sweeps, owner, cutoff, limit, n);
    var end := stores[n];
    AssignRunProgress(end, next, owner, cutoff, limit);
    forall k | k in end && Matches(stores[0], k, cutoff) ensures end[k] == Owned(stores[0][k], owner) {
      assert k !in Matching(end, cutoff);
    }
  }

  // ---- What the flag `truncated` tells --------------------------------------

  /** How often a matching key comes by, repeats included. */
  function Visits(s: Store, keys: seq<string>, cutoff: Option<real>): nat {
    if keys == [] then 0
    else Visits(s, keys[..|keys| - 1], cutoff) + if Matches(s, keys[|keys| - 1], cutoff) then 1 else 0
  }

  /** A sweep is truncated exactly when a matching key comes by more than `limit`
      times in all, and collects one id a visit up to there. */
  lemma {:induction false} TruncatedIff(s: Store, keys: seq<string>, cutoff: Option<real>, limit: Option<nat>)
    ensures var r, n := Collected(s, keys, cutoff, limit), Visits(s, keys, cutoff);
            && (r.truncated <==> limit.Some? && n > limit.value)
            && |r.ids| == (if r.truncated then limit.value else n)
  {
    if keys != [] { TruncatedIff(s, keys[..|keys| - 1], cutoff, limit); }
  }

  ghost predicate NoRepeats(keys: seq<string>) {
    forall i, j :: 0 <= i < j < |keys| ==> keys[i] != keys[j]
  }

  ghost function Matched(s: Store, keys: seq<string>, cutoff: Option<real>): set<string> {
    set k | k in keys && Matches(s, k, cutoff)
  }

  lemma {:induction false} VisitsOnce(s: Store, keys: seq<string>, cutoff: Option<real>)
    requires NoRepeats(keys)
    ensures |Matched(s, keys, cutoff)| == Visits(s, keys, cutoff)
  {
    if keys == [] {
      assert Matched(s, keys, cutoff) == {};
    } else {
      var n := |keys| - 1;
      var before, last := keys[..n], keys[n];
      VisitsOnce(s, before, cutoff);
      assert keys == before + [last] && last !in before;
      MatchedNext(s, before, last, cutoff);
    }
  }

  lemma MatchedNext(s: Store, keys: seq<string>, key: string, cutoff: Option<real>)
    requires key !in keys
    ensures |Matched(s, keys + [key], cutoff)| == |Matched(s, keys, cutoff)| + if Matches(s, key, cutoff) then 1 else 0
  {
    hide Matches;
    var more := if Matches(s, key, cutoff) then {key} else {};
    assert forall k :: k in keys + [key] <==> k in keys || k == key;
    assert Matched(s, keys + [key], cutoff) == Matched(s, keys, cutoff) + more;
  }

  /** There is a visit for every matching key that comes by, and one more for one
      that comes by again. */
  lemma {:induction false} VisitsAtLeast(s: Store, keys: seq<string>, cutoff: Option<real>)
    ensures |Matched(s, keys, cutoff)| <= Visits(s, keys, cutoff) <= |keys|
    ensures Revisited(s, keys, cutoff) ==> |Matched(s, keys, cutoff)| < Visits(s, keys, cutoff)
  {
    if |keys| == 0 {
      assert Matched(s, keys, cutoff) == {};
    } else {
      var before, last := keys[..|keys| - 1], keys[|keys| - 1];
      assert keys == before + [last];
      VisitsAtLeast(s, before, cutoff);
      hide Revisited, Matched;
      if last in before {
        MatchedAgain(s, before, last, cutoff);
      } else {
        MatchedNext(s, before, last, cutoff);
      }
    }
  }

  /** A matching key comes by twice. */
  ghost predicate Revisited(s: Store, keys: seq<string>, cutoff: Option<real>) {
    exists i, j :: 0 <= i < j < |keys| && keys[i] == keys[j] && Matches(s, keys[i], cutoff)
  }

  lemma MatchedAgain(s: Store, keys: seq<string>, key: string, cutoff: Option<real>)
    requires key in keys
    ensures Matched(s, keys + [key], cutoff) == Matched(s, keys, cutoff)
    ensures Revisited(s, keys + [key], cutoff) ==> Revisited(s, keys, cutoff) || Matches(s, key, cutoff)
  {
    hide Matches;
    assert forall k :: k in keys + [key] <==> k in keys;
    if Revisited(s, keys + [key], cutoff) {
      var all := keys + [key];
      var i, j :| 0 <= i < j < |all| && all[i] == all[j] && Matches(s, all[i], cutoff);
      if j < |keys| { assert keys[i] == keys[j] && Matches(s, keys[i], cutoff); }
    }
  }

  /** The flag says what its documentation says of the store: there are more
      matching rows than the limit allows to collect. */
  ghost predicate MeansMoreRows(s: Store, keys: seq<string>, cutoff: Option<real>, limit: nat) {
    Collected(s, keys, cutoff, Some(limit)).truncated <==> |Matching(s, cutoff)| > limit
  }

  /** It does for every store that the sweep is one of. */
  ghost predicate AlwaysMeansMoreRows(keys: seq<string>, cutoff: Option<real>, limit: nat) {
    forall s :: WellKeyed(s) && Sweeps(keys, s) ==> MeansMoreRows(s, keys, cutoff, limit)
  }

  /** What SCAN's pattern lets through. */
  ghost predicate JobKeys(keys: seq<string>) {
    forall k :: k in keys ==> |k| >= 4 && k == JobKey(k[4..])
  }

  /** The flag can be trusted exactly for the sweeps that repeat no key, and for
      those too short to be cut. */
  lemma TruncatedMeansMoreRowsIff(keys: seq<string>, cutoff: Option<real>, limit: nat)
    requires limit >= 1 && JobKeys(keys)
    ensures AlwaysMeansMoreRows(keys, cutoff, limit) <==> NoRepeats(keys) || |keys| <= limit
  {
    if NoRepeats(keys) || |keys| <= limit {
      forall s | WellKeyed(s) && Sweeps(keys, s) ensures MeansMoreRows(s, keys, cutoff, limit) {
        if NoRepeats(keys) {
          TruncatedMeansMoreRows(s, keys, cutoff, limit);
        } else {
          TooShortToCut(s, keys, cutoff, limit);
        }
      }
    } else {
      var i, j :| 0 <= i < j < |keys| && keys[i] == keys[j];
      var s := RepeatMisleads(keys, cutoff, limit, i, j);
    }
  }

  lemma TooShortToCut(s: Store, keys: seq<string>, cutoff: Option<real>, limit: nat)
    requires Sweeps(keys, s) && |keys| <= limit
    ensures MeansMoreRows(s, keys, cutoff, limit)
  {
    TruncatedIff(s, keys, cutoff, Some(limit));
    VisitsAtLeast(s, keys, cutoff);
    MatchingIsMatched(s, keys, cutoff);
  }

  lemma MatchingIsMatched(s: Store, keys: seq<string>, cutoff: Option<real>)
    requires Sweeps(keys, s)
    ensures Matching(s, cutoff) == Matched(s, keys, cutoff)
  {
  }

  /** Unowned rows under the given keys, old enough for the cut-off. */
  function Unowned(keys: set<string>, cutoff: Option<real>): Store
    requires forall k :: k in keys ==> |k| >= 4
  {
    var created := if cutoff.Some? then cutoff.value - 1.0 else 0.0;
    map k | k in keys :: Slot(Parsed(Job(k[4..], None, created, "")), None)
  }

  lemma UnownedMatch(keys: set<string>, cutoff: Option<real>)
    requires forall k :: k in keys ==> |k| >= 4 && k == JobKey(k[4..])
    ensures WellKeyed(Unowned(keys, cutoff)) && Matching(Unowned(keys, cutoff), cutoff) == keys
    ensures forall k :: Matches(Unowned(keys, cutoff), k, cutoff) <==> k in keys
  {
    hide JobKey;
  }

  /** Some `n` of the keys, with `key` among them. */
  lemma {:induction false} Choose(keys: set<string>, n: nat, key: string) returns (some: set<string>)
    requires key in keys && 1 <= n <= |keys|
    ensures some <= keys && |some| == n && key in some
    decreases |keys|
  {
    if |keys| == n {
      some := keys;
    } else {
      assert keys - {key} != {} by { assert |keys - {key}| == |keys| - 1; }
      var other :| other in keys - {key};
      some := Choose(keys - {other}, n, key);
    }
  }

  lemma AllVisited(s: Store, keys: seq<string>, cutoff: Option<real>)
    requires forall k :: k in keys ==> Matches(s, k, cutoff)
    ensures Visits(s, keys, cutoff) == |keys|
  {
    hide Matches;
    if |keys| > 0 { AllVisited(s, keys[..|keys| - 1], cutoff); }
  }

  /** A store whose matching rows the limit allows to collect, and whose sweep is
      cut short all the same. */
  lemma RepeatMisleads(keys: seq<string>, cutoff: Option<real>, limit: nat, i: nat, j: nat) returns (s: Store)
    requires limit >= 1 && JobKeys(keys) && |keys| > limit && i < j < |keys| && keys[i] == keys[j]
    ensures WellKeyed(s) && Sweeps(keys, s)
    ensures Collected(s, keys, cutoff, Some(limit)).truncated && |Matching(s, cutoff)| <= limit
    ensures !MeansMoreRows(s, keys, cutoff, limit)
  {
    var distinct := set k | k in keys;
    assert keys[i] in distinct;
    var some := Choose(distinct, if |distinct| <= limit then |distinct| else limit, keys[i]);
    s := Unowned(some, cutoff);
    UnownedMatch(some, cutoff);
    hide Unowned;
    assert Sweeps(keys, s);
    TruncatedIff(s, keys, cutoff, Some(limit));
    if |distinct| <= limit {
      WholeSet(some, distinct);
      AllVisited(s, keys, cutoff);
    } else {
      VisitsAtLeast(s, keys, cutoff);
      assert Revisited(s, keys, cutoff);
      MatchingIsMatched(s, keys, cutoff);
    }
  }

  lemma WholeSet(some: set<string>, all: set<string>)
    requires some <= all && |some| == |all|
    ensures some == all
  {
    assert all == some + (all - some);
  }

  /** If SCAN returns no key twice, the flag says what its documentation says:
      there are more matching rows than the limit allows to collect. */
  lemma TruncatedMeansMoreRows(s: Store, keys: seq<string>, cutoff: Option<real>, limit: nat)
    requires Sweeps(keys, s) && NoRepeats(keys)
    ensures Collected(s, keys, cutoff, Some(limit)).truncated <==> |Matching(s, cutoff)| > limit
  {
    TruncatedIff(s, keys, cutoff, Some(limit));
    VisitsOnce(s, keys, cutoff);
    MatchingIsMatched(s, keys, cutoff);
  }

  /** A run re-owns exactly the rows it collected: truncated or not, what remains is
      the matching rows that were not. */
  lemma RowsRemaining(s: Store, keys: seq<string>, owner: string, cutoff: Option<real>, limit: Option<nat>)
    requires WellKeyed(s) && (limit.Some? ==> limit.value >= 1)
    ensures var ids := Collected(s, keys, cutoff, limit).ids;
            && Matching(AssignRun(s, keys, owner, cutoff, limit), cutoff) == Matching(s, cutoff) - KeysOf(ids)
            && KeysOf(ids) <= Matching(s, cutoff)
  {
    var ids := Collected(s, keys, cutoff, limit).ids;
    CollectedMatches(s, keys, cutoff, limit);
    AssignedExactly(s, ids, owner);
    hide Collected, Assigned, JobKey;
  }

  /** The flag is set, and nothing is left to do, when SCAN returns the only
      unowned job more often than the limit. */
  lemma TruncatedWithNothingLeft(s: Store, keys: seq<string>, key: string, owner: string,
                                 cutoff: Option<real>, limit: nat)
    requires WellKeyed(s) && s.Keys == {key} && Matches(s, key, cutoff) && limit >= 1
    requires Visits(s, keys, cutoff) > limit
    ensures Collected(s, keys, cutoff, Some(limit)).truncated
    ensures Matching(AssignRun(s, keys, owner, cutoff, Some(limit)), cutoff) == {}
  {
    TruncatedIff(s, keys, cutoff, Some(limit));
    var ids := Collected(s, keys, cutoff, Some(limit)).ids;
    CollectedMatches(s, keys, cutoff, Some(limit));
    RowsRemaining(s, keys, owner, cutoff, Some(limit));
    assert JobKey(ids[0]) in KeysOf(ids);
    assert JobKey(ids[0]) == key;
  }
}
