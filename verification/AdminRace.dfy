/** One row of `assign_job_owner` in `src/api/admin_migrate.py` beside other
    clients: its GET, its PTTL and its SET, with any writes in between. */
module AdminRace {
  import opened Wrappers
  import opened AdminSweep

  /** Where the row stands. What the SET will write is fixed by the GET, and its
      time to live by the PTTL. */
  datatype Pc = Unread | Read(job: Job) | Timed(job: Job, px: Option<nat>) | Done

  datatype Race = Race(store: Store, pc: Pc)

  /** `Other` is another client that writes or deletes a key. */
  datatype Step = Get | Pttl | Put | Other(key: string, slot: Option<Slot>)

  function Remaining(s: Store, key: string): Option<nat> {
    if key in s then RewrittenTtl(s[key].ttlMs) else None
  }

  ghost predicate Next(s: Race, t: Race, step: Step, key: string, owner: string) {
    match step
    case Get =>
      && s.pc.Unread?
      && t == s.(pc := if NullOwned(s.store, key) then Read(s.store[key].value.job.(owner := Some(owner))) else Done)
    case Pttl =>
      s.pc.Read? && t == s.(pc := Timed(s.pc.job, Remaining(s.store, key)))
    case Put =>
      s.pc.Timed? && t == Race(s.store[key := Slot(Parsed(s.pc.job), s.pc.px)], Done)
    case Other(k, slot) =>
      t == s.(store := if slot.Some? then s.store[k := slot.value] else s.store - {k})
  }

  ghost predicate IsRun(run: seq<Race>, steps: seq<Step>, key: string, owner: string) {
    && |run| == |steps| + 1 && run[0].pc.Unread?
    && forall i :: 0 <= i < |steps| ==> Next(run[i], run[i + 1], steps[i], key, owner)
  }

  /** The row has an owner. */
  predicate IsOwned(s: Store, key: string) {
    key in s && s[key].value.Parsed? && s[key].value.job.owner.Some?
  }

  /** Another client gives the row an owner. */
  predicate Owns(step: Step, key: string) {
    step.Other? && step.key == key && step.slot.Some?
    && step.slot.value.value.Parsed? && step.slot.value.value.job.owner.Some?
  }

  predicate Writes(step: Step, key: string) {
    step.Other? && step.key == key
  }

  /** The row was read at `g`, and nothing of the admin's has been written since. */
  ghost predicate ReadAt(run: seq<Race>, steps: seq<Step>, key: string, owner: string, g: nat, i: nat)
    requires |run| == |steps| + 1 && g < i < |run|
  {
    && steps[g].Get? && NullOwned(run[g].store, key)
    && (run[i].pc.Read? || run[i].pc.Timed?)
    && run[i].pc.job == run[g].store[key].value.job.(owner := Some(owner))
    && forall j :: g < j < i ==> steps[j].Pttl? || steps[j].Other?
  }

  lemma {:induction false} ReadBefore(run: seq<Race>, steps: seq<Step>, key: string, owner: string, i: nat)
    returns (g: nat)
    requires IsRun(run, steps, key, owner) && i < |run| && (run[i].pc.Read? || run[i].pc.Timed?)
    ensures g < i && ReadAt(run, steps, key, owner, g, i)
  {
    assert i > 0;
    assert Next(run[i - 1], run[i], steps[i - 1], key, owner);
    if steps[i - 1].Get? {
      g := i - 1;
    } else {
      g := ReadBefore(run, steps, key, owner, i - 1);
    }
  }

  /** The last write of another client to the row after `g` gave it an owner. */
  ghost predicate LastOwns(steps: seq<Step>, key: string, g: nat, i: nat)
    requires i <= |steps|
  {
    exists j :: g < j < i && Owns(steps[j], key) && forall m :: j < m < i ==> !Writes(steps[m], key)
  }

  lemma {:induction false} OwnedSince(run: seq<Race>, steps: seq<Step>, key: string, owner: string, g: nat, i: nat)
    requires IsRun(run, steps, key, owner) && g < i < |run| && ReadAt(run, steps, key, owner, g, i)
    ensures IsOwned(run[i].store, key) <==> LastOwns(steps, key, g, i)
    decreases i
  {
    assert Next(run[i - 1], run[i], steps[i - 1], key, owner);
    if i - 1 > g {
      assert ReadAt(run, steps, key, owner, g, i - 1);
      OwnedSince(run, steps, key, owner, g, i - 1);
    }
  }

  lemma {:induction false} TimedBefore(run: seq<Race>, steps: seq<Step>, key: string, owner: string, i: nat)
    returns (h: nat)
    requires IsRun(run, steps, key, owner) && i < |run| && run[i].pc.Timed?
    ensures h < i && steps[h].Pttl? && run[i].pc.px == Remaining(run[h].store, key)
  {
    assert i > 0;
    assert Next(run[i - 1], run[i], steps[i - 1], key, owner);
    h := i - 1;
    if !steps[i - 1].Pttl? { h := TimedBefore(run, steps, key, owner, i - 1); }
  }

  /** The time to live the row ends up with is the one it had at the PTTL, unless that
      was its last millisecond; a row that was gone by then comes back without any. */
  lemma TtlIsFromPttl(run: seq<Race>, steps: seq<Step>, key: string, owner: string, p: nat) returns (h: nat)
    requires IsRun(run, steps, key, owner) && p < |steps| && steps[p].Put?
    ensures h < p && steps[h].Pttl? && key in run[p + 1].store
    ensures run[p + 1].store[key].ttlMs
            == if key in run[h].store && run[h].store[key].ttlMs != Some(0) then run[h].store[key].ttlMs else None
  {
    assert Next(run[p], run[p + 1], steps[p], key, owner);
    h := TimedBefore(run, steps, key, owner, p);
  }

  /** The SET overwrites an owner exactly when the last write of another client to
      the row between the GET and the SET gave it one. Whatever was written in
      between, the row becomes the one that was read, with the new owner. */
  lemma OverwritesIff(run: seq<Race>, steps: seq<Step>, key: string, owner: string, p: nat) returns (g: nat)
    requires IsRun(run, steps, key, owner) && p < |steps| && steps[p].Put?
    ensures g < p && steps[g].Get? && NullOwned(run[g].store, key)
    ensures key in run[p].store && run[p].store[key].value.Parsed? && run[p].store[key].value.job.owner.Some?
            <==> LastOwns(steps, key, g, p)
    ensures key in run[p + 1].store
    ensures run[p + 1].store[key].value == Parsed(run[g].store[key].value.job.(owner := Some(owner)))
  {
    assert Next(run[p], run[p + 1], steps[p], key, owner);
    g := ReadBefore(run, steps, key, owner, p);
    OwnedSince(run, steps, key, owner, g, p);
  }

  /** A row that has an owner when it is read is left alone. */
  lemma OwnedIsSkipped(run: seq<Race>, steps: seq<Step>, key: string, owner: string, g: nat, p: nat)
    requires IsRun(run, steps, key, owner) && g < |steps| && p < |steps|
    requires steps[g].Get? && IsOwned(run[g].store, key)
    ensures !steps[p].Put?
  {
    if steps[p].Put? {
      var h := OverwritesIff(run, steps, key, owner, p);
      OneGet(run, steps, key, owner, g, h);
    }
  }

  /** The row is read once. */
  lemma OneGet(run: seq<Race>, steps: seq<Step>, key: string, owner: string, g: nat, h: nat)
    requires IsRun(run, steps, key, owner) && g < |steps| && h < |steps| && steps[g].Get? && steps[h].Get?
    ensures g == h
  {
    assert Next(run[g], run[g + 1], steps[g], key, owner) && Next(run[h], run[h + 1], steps[h], key, owner);
    if g < h {
      ReadNoMore(run, steps, key, owner, g + 1, h);
    } else if h < g {
      ReadNoMore(run, steps, key, owner, h + 1, g);
    }
  }

  lemma {:induction false} ReadNoMore(run: seq<Race>, steps: seq<Step>, key: string, owner: string, i: nat, j: nat)
    requires IsRun(run, steps, key, owner) && i <= j < |run| && !run[i].pc.Unread?
    ensures !run[j].pc.Unread?
    decreases j
  {
    if i < j {
      ReadNoMore(run, steps, key, owner, i, j - 1);
      assert Next(run[j - 1], run[j], steps[j - 1], key, owner);
    }
  }
}
