/** The append transactions of `PostgresConversationStore` in
    `src/api/conversations.py`, interleaved statement by statement. */
module PostgresAppends {
  import C = Conversations

  datatype Phase =
    | Waiting                    // has not locked the parent row
    | Locked                     // holds it, has not inserted
    | Inserted(ordinal: nat)     // has inserted, not committed
    | Committed(ordinal: nat)
    | Missing                    // found no parent row
    | RolledBack

  /** One `append_job` call; `start` is when its transaction started. */
  datatype Append = Append(conv: string, jobId: string, query: string, report: string, start: real, phase: Phase)

  /** `table` is what is committed, the only thing other transactions see.
      `locks` are the parent rows locked by FOR UPDATE, each with its holder, and
      `now` is the server's time as far as a transaction has seen it. */
  datatype Db = Db(table: C.Table, locks: map<string, nat>, calls: map<nat, Append>, now: real)

  datatype Step =
    | Open(x: nat, conv: string, jobId: string, query: string, report: string, at: real)
    | LockParent(x: nat)
    | FindNoParent(x: nat)
    | Insert(x: nat)
    | Commit(x: nat)
    | Rollback(x: nat)
    | Create(c: C.Conversation)
    | Rename(id: string, title: string)
    | Delete(id: string)

  predicate HoldsLock(a: Append) {
    a.phase.Locked? || a.phase.Inserted?
  }

  function Moves(d: Db, x: nat, p: Phase): Db
    requires x in d.calls
  {
    d.(calls := d.calls[x := d.calls[x].(phase := p)])
  }

  /** The row a commit makes visible: the job with the ordinal the insert took, and
      NOW(), which is the start of the transaction. */
  function WithJob(c: C.Conversation, a: Append, ordinal: nat): C.Conversation {
    c.(jobs := c.jobs + [C.Job(a.jobId, ordinal, a.query, a.report)], updatedAt := a.start)
  }

  ghost predicate Next(d: Db, e: Db, step: Step) {
    match step
    case Open(x, conv, jobId, query, report, at) =>
      && x !in d.calls && d.now <= at
      && e == d.(calls := d.calls[x := Append(conv, jobId, query, report, at, Waiting)], now := at)
    case LockParent(x) =>
      && x in d.calls && d.calls[x].phase.Waiting? && d.calls[x].conv in d.table && d.calls[x].conv !in d.locks
      && e == Moves(d, x, Locked).(locks := d.locks[d.calls[x].conv := x])
    case FindNoParent(x) =>
      x in d.calls && d.calls[x].phase.Waiting? && d.calls[x].conv !in d.table && e == Moves(d, x, Missing)
    case Insert(x) =>
      && x in d.calls && d.calls[x].phase.Locked? && d.calls[x].conv in d.table
      && e == Moves(d, x, Inserted(C.MaxOrdinal(d.table[d.calls[x].conv].jobs) + 1))
    case Commit(x) =>
      && x in d.calls && d.calls[x].phase.Inserted? && d.calls[x].conv in d.table
      && var a := d.calls[x];
         e == Moves(d, x, Committed(a.phase.ordinal)).(
                table := d.table[a.conv := WithJob(d.table[a.conv], a, a.phase.ordinal)],
                locks := d.locks - {a.conv})
    case Rollback(x) =>
      && x in d.calls && (d.calls[x].phase.Waiting? || HoldsLock(d.calls[x]))
      && e == Moves(d, x, RolledBack).(locks := if HoldsLock(d.calls[x]) then d.locks - {d.calls[x].conv} else d.locks)
    case Create(c) =>
      && c.id !in d.table && c.jobs == [] && d.now <= c.updatedAt
      && e == d.(table := d.table[c.id := c], now := c.updatedAt)
    case Rename(id, title) =>
      id in d.table && id !in d.locks && e == d.(table := d.table[id := d.table[id].(title := title)])
    case Delete(id) =>
      id in d.table && id !in d.locks && e == d.(table := d.table - {id})
  }

  ghost predicate CallOk(d: Db, x: nat)
    requires x in d.calls
  {
    var a := d.calls[x];
    HoldsLock(a) ==>
      && a.conv in d.locks && d.locks[a.conv] == x && a.conv in d.table
      && (a.phase.Inserted? ==> a.phase.ordinal == |d.table[a.conv].jobs| + 1)
  }

  ghost predicate Inv(d: Db) {
    && C.AllNumbered(d.table)
    && (forall x :: x in d.calls ==> CallOk(d, x))
    && (forall k :: k in d.locks ==>
          d.locks[k] in d.calls && HoldsLock(d.calls[d.locks[k]]) && d.calls[d.locks[k]].conv == k)
  }

  lemma CommitKeepsInv(d: Db, e: Db, x: nat)
    requires Inv(d) && Next(d, e, Commit(x))
    ensures Inv(e)
  {
    var conv := d.calls[x].conv;
    assert CallOk(d, x);
    C.NumberedMax(d.table[conv].jobs);
    assert C.Numbered(e.table[conv].jobs);
    forall y | y in e.calls ensures CallOk(e, y) {
      assert CallOk(d, y);
    }
  }

  lemma InsertKeepsInv(d: Db, e: Db, x: nat)
    requires Inv(d) && Next(d, e, Insert(x))
    ensures Inv(e)
  {
    C.NumberedMax(d.table[d.calls[x].conv].jobs);
    forall y | y in e.calls ensures CallOk(e, y) {
      assert CallOk(d, y);
    }
  }

  lemma RollbackKeepsInv(d: Db, e: Db, x: nat)
    requires Inv(d) && Next(d, e, Rollback(x))
    ensures Inv(e)
  {
    hide C.AllNumbered;
    assert CallOk(d, x);
    forall y | y in e.calls ensures CallOk(e, y) {
      assert CallOk(d, y);
    }
  }

  lemma LockKeepsInv(d: Db, e: Db, x: nat)
    requires Inv(d) && Next(d, e, LockParent(x))
    ensures Inv(e)
  {
    hide C.AllNumbered;
    forall y | y in e.calls ensures CallOk(e, y) {
      assert CallOk(d, y);
    }
  }

  /** A statement that takes no lock and gives none back. */
  lemma OtherStepKeepsInv(d: Db, e: Db, step: Step)
    requires Inv(d) && Next(d, e, step)
    requires step.Open? || step.FindNoParent? || step.Create? || step.Rename? || step.Delete?
    ensures Inv(e)
  {
    forall y | y in e.calls ensures CallOk(e, y) {
      if y in d.calls { assert CallOk(d, y); }
    }
  }

  lemma StepKeepsInv(d: Db, e: Db, step: Step)
    requires Inv(d) && Next(d, e, step)
    ensures Inv(e)
  {
    hide Inv, Next;
    match step
    case Commit(x) => CommitKeepsInv(d, e, x);
    case Insert(x) => InsertKeepsInv(d, e, x);
    case LockParent(x) => LockKeepsInv(d, e, x);
    case Rollback(x) => RollbackKeepsInv(d, e, x);
    case _ => OtherStepKeepsInv(d, e, step);
  }

  ghost predicate IsRun(run: seq<Db>, steps: seq<Step>) {
    && |run| == |steps| + 1 && run[0] == Db(map[], map[], map[], run[0].now)
    && forall i :: 0 <= i < |steps| ==> Next(run[i], run[i + 1], steps[i])
  }

  lemma {:induction false} RunInv(run: seq<Db>, steps: seq<Step>, i: nat)
    requires IsRun(run, steps) && i < |run|
    ensures Inv(run[i])
  {
    if i > 0 {
      RunInv(run, steps, i - 1);
      StepKeepsInv(run[i - 1], run[i], steps[i - 1]);
    }
  }

  /** However append transactions interleave, and whichever of them roll back, the
      committed ordinals of every conversation are exactly 1, 2, up to n. */
  lemma OrdinalsAreGapless(run: seq<Db>, steps: seq<Step>, i: nat, conv: string)
    requires IsRun(run, steps) && i < |run| && conv in run[i].table
    ensures C.Numbered(run[i].table[conv].jobs)
  {
    RunInv(run, steps, i);
  }

  /** What an in-memory store does to its table in one call, or nothing. */
  ghost predicate MemoryStep(t: C.Table, u: C.Table, step: Step, calls: map<nat, Append>) {
    match step
    case Commit(x) =>
      && x in calls && calls[x].conv in t
      && var a := calls[x];
         u == t[a.conv := C.Appended(t[a.conv], a.jobId, a.query, a.report, a.start)]
    case Create(c) => u == t[c.id := c]
    case Rename(id, title) => id in t && u == t[id := t[id].(title := title)]
    case Delete(id) => id in t && u == t - {id}
    case _ => u == t
  }

  /** Every run is a run of the in-memory store: a commit is its append, with the
      same ordinal and stamped with the start of its transaction, and every statement before the commit is invisible. */
  lemma RunsLikeMemory(run: seq<Db>, steps: seq<Step>, i: nat)
    requires IsRun(run, steps) && i < |steps|
    ensures MemoryStep(run[i].table, run[i + 1].table, steps[i], run[i].calls)
    ensures steps[i].Commit? ==> run[i + 1].calls[steps[i].x].phase
                                 == Committed(|run[i + 1].table[run[i].calls[steps[i].x].conv].jobs|)
  {
    RunInv(run, steps, i);
    assert Next(run[i], run[i + 1], steps[i]);
    if steps[i].Commit? {
      var a := run[i].calls[steps[i].x];
      assert CallOk(run[i], steps[i].x);
      C.NumberedMax(run[i].table[a.conv].jobs);
    }
  }

  /** A call that reports a missing conversation found none, and one that reports an
      ordinal has its job in the conversation at that place. */
  lemma {:induction false} Reports(run: seq<Db>, steps: seq<Step>, i: nat, x: nat)
    requires IsRun(run, steps) && i < |run| && x in run[i].calls
    ensures run[i].calls[x].phase.Missing? ==>
              exists j: nat :: j < i && steps[j] == FindNoParent(x) && run[i].calls[x].conv !in run[j].table
    ensures run[i].calls[x].phase.Committed? ==>
              exists j: nat :: j < i && steps[j] == Commit(x) && TookPlace(run[j + 1].table, run[i].calls[x])
  {
    assert i > 0;
    var d, e := run[i - 1], run[i];
    assert Next(d, e, steps[i - 1]);
    if x in d.calls {
      Reports(run, steps, i - 1, x);
      if steps[i - 1] == Commit(x) {
        RunInv(run, steps, i - 1);
        assert CallOk(d, x);
      }
    }
  }

  /** The job of a committed call, last in its conversation with the ordinal reported. */
  ghost predicate TookPlace(t: C.Table, a: Append) {
    && a.phase.Committed? && a.conv in t && |t[a.conv].jobs| == a.phase.ordinal >= 1
    && t[a.conv].jobs[a.phase.ordinal - 1] == C.Job(a.jobId, a.phase.ordinal, a.query, a.report)
  }

  // ---- The time stamp of a conversation -----------------------------------------

  /** Step `j` stamps the conversation. */
  ghost predicate Stamps(run: seq<Db>, steps: seq<Step>, j: nat, conv: string)
    requires IsRun(run, steps) && j < |steps|
  {
    match steps[j]
    case Commit(x) => x in run[j].calls && run[j].calls[x].conv == conv
    case Create(c) => c.id == conv
    case _ => false
  }

  /** When the transaction of such a step started. */
  ghost function StartOf(run: seq<Db>, steps: seq<Step>, j: nat): real
    requires IsRun(run, steps) && j < |steps|
  {
    match steps[j]
    case Commit(x) => if x in run[j].calls then run[j].calls[x].start else 0.0
    case Create(c) => c.updatedAt
    case _ => 0.0
  }

  /** No step between `j` and `i` stamps or deletes the conversation. */
  ghost predicate Untouched(run: seq<Db>, steps: seq<Step>, j: nat, i: nat, conv: string)
    requires IsRun(run, steps) && i <= |steps|
  {
    forall m :: j < m < i ==> !Stamps(run, steps, m, conv) && steps[m] != Delete(conv)
  }

  lemma {:induction false} LastStamp(run: seq<Db>, steps: seq<Step>, i: nat, conv: string) returns (j: nat)
    requires IsRun(run, steps) && i < |run| && conv in run[i].table
    ensures j < i && Stamps(run, steps, j, conv) && Untouched(run, steps, j, i, conv)
    ensures run[i].table[conv].updatedAt == StartOf(run, steps, j)
  {
    assert i > 0;
    assert Next(run[i - 1], run[i], steps[i - 1]);
    if Stamps(run, steps, i - 1, conv) {
      j := i - 1;
    } else {
      j := LastStamp(run, steps, i - 1, conv);
      assert steps[i - 1] != Delete(conv);
    }
  }

  /** Where a transaction started: its own step, or the one that opened it. */
  ghost predicate StartedAt(run: seq<Db>, steps: seq<Step>, o: nat, j: nat)
    requires IsRun(run, steps) && o <= j < |steps|
  {
    match steps[j]
    case Commit(x) => steps[o].Open? && steps[o].x == x
    case _ => o == j
  }

  lemma {:induction false} OpenOf(run: seq<Db>, steps: seq<Step>, i: nat, x: nat) returns (o: nat)
    requires IsRun(run, steps) && i < |run| && x in run[i].calls
    ensures o < i && steps[o].Open? && steps[o].x == x && run[i].calls[x].start == steps[o].at
  {
    assert i > 0;
    assert Next(run[i - 1], run[i], steps[i - 1]);
    if x in run[i - 1].calls {
      o := OpenOf(run, steps, i - 1, x);
    } else {
      o := i - 1;
    }
  }

  lemma {:induction false} TimePasses(run: seq<Db>, steps: seq<Step>, i: nat, j: nat)
    requires IsRun(run, steps) && i <= j < |run|
    ensures run[i].now <= run[j].now
    decreases j
  {
    if i < j {
      TimePasses(run, steps, i, j - 1);
      assert Next(run[j - 1], run[j], steps[j - 1]);
    }
  }

  lemma StartStep(run: seq<Db>, steps: seq<Step>, j: nat, conv: string) returns (o: nat)
    requires IsRun(run, steps) && j < |steps| && Stamps(run, steps, j, conv)
    ensures o <= j && StartedAt(run, steps, o, j)
    ensures run[o].now <= StartOf(run, steps, j) == run[o + 1].now
  {
    if steps[j].Commit? {
      o := OpenOf(run, steps, j, steps[j].x);
    } else {
      o := j;
    }
    assert Next(run[o], run[o + 1], steps[o]);
  }

  /** A commit moves a conversation's time stamp back exactly when its transaction
      started before that of the step that stamped it last, which a transaction
      that waited for the row lock can have done. In particular it never does when
      it was opened after the other had started. */
  lemma StampMovesBackIff(run: seq<Db>, steps: seq<Step>, i: nat) returns (j: nat, mine: nat, other: nat)
    requires IsRun(run, steps) && i < |steps| && steps[i].Commit?
    ensures steps[i].x in run[i].calls && run[i].calls[steps[i].x].conv in run[i].table
    ensures var conv := run[i].calls[steps[i].x].conv;
            && j < i && Stamps(run, steps, j, conv) && Untouched(run, steps, j, i, conv)
            && conv in run[i + 1].table
            && (run[i + 1].table[conv].updatedAt < run[i].table[conv].updatedAt
                <==> StartOf(run, steps, i) < StartOf(run, steps, j))
    ensures mine <= i && StartedAt(run, steps, mine, i) && other <= j && StartedAt(run, steps, other, j)
    ensures StartOf(run, steps, i) < StartOf(run, steps, j) ==> mine < other
  {
    assert Next(run[i], run[i + 1], steps[i]);
    var conv := run[i].calls[steps[i].x].conv;
    j := LastStamp(run, steps, i, conv);
    mine := StartStep(run, steps, i, conv);
    other := StartStep(run, steps, j, conv);
    if other < mine { TimePasses(run, steps, other + 1, mine); }
  }

  /** It does happen: an append that has been waiting since before the last stamp
      goes through as soon as the row is unlocked. */
  lemma WaiterMovesStampBack(d: Db, x: nat) returns (e: Db, f: Db, g: Db)
    requires Inv(d) && x in d.calls && d.calls[x].phase.Waiting?
    requires d.calls[x].conv in d.table && d.calls[x].conv !in d.locks
    requires d.calls[x].start < d.table[d.calls[x].conv].updatedAt
    ensures Next(d, e, LockParent(x)) && Next(e, f, Insert(x)) && Next(f, g, Commit(x))
    ensures var conv := d.calls[x].conv;
            conv in g.table && g.table[conv].updatedAt < d.table[conv].updatedAt
  {
    var conv := d.calls[x].conv;
    e := Moves(d, x, Locked).(locks := d.locks[conv := x]);
    f := Moves(e, x, Inserted(C.MaxOrdinal(e.table[conv].jobs) + 1));
    var a := f.calls[x];
    g := Moves(f, x, Committed(a.phase.ordinal)).(
      table := f.table[conv := WithJob(f.table[conv], a, a.phase.ordinal)], locks := f.locks - {conv});
  }

  // ---- Without the lock -----------------------------------------------------------

  /** An insert by a transaction that has locked nothing. */
  ghost predicate InsertUnlocked(d: Db, e: Db, x: nat) {
    && x in d.calls && d.calls[x].phase.Waiting? && d.calls[x].conv in d.table
    && e == Moves(d, x, Inserted(C.MaxOrdinal(d.table[d.calls[x].conv].jobs) + 1))
  }

  /** The row lock is needed: of two inserts into a conversation before either
      commits, both take the same ordinal, though each is a single statement. */
  lemma UnlockedInsertsCollide(d: Db, e: Db, f: Db, x: nat, y: nat)
    requires InsertUnlocked(d, e, x) && InsertUnlocked(e, f, y) && d.calls[x].conv == e.calls[y].conv
    ensures x != y && x in f.calls && y in f.calls
    ensures f.calls[x].phase.Inserted? && f.calls[x].phase == f.calls[y].phase
  {
  }
}
