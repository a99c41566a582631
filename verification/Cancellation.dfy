/** The zombie accounting of `src/cancellation.py`: many cancel tokens, each with
    its own lock, and one process-wide counter with another. A step here is what
    a thread does between two points where another thread can run. */
module Cancellation {
  import opened Arithmetic
  import opened Wrappers

  /** What the thread that holds a token's lock does next. */
  datatype Pc =
    | EnterHeld(name: string)
    | ExitHeld(handle: nat)
    | AbandonHeld
    | Adjust(delta: int)                  // wants the process lock
    | AdjustLocked(delta: int)            // has it, is about to read the counter
    | AdjustRead(delta: int, seen: int)   // is about to write
    | AdjustWritten                       // is about to give the process lock back
    | Leaving                             // is about to give the token's lock back

  /** `running` and `abandoned` are the token's fields and `next` its handle
      counter; `holder` is its lock. `surplus` records what repeated abandons
      have counted twice. */
  datatype Token = Token(
    running: map<nat, string>,
    next: nat,
    abandoned: bool,
    holder: Option<Pc>,
    surplus: nat)

  /** `lock` is the token whose holder has the process lock. */
  datatype Process = Process(tokens: seq<Token>, counter: int, lock: Option<nat>)

  datatype Step =
    | NewToken
    | Acquire(k: nat, pc: Pc)
    | Body(k: nat)
    | TakeProcessLock(k: nat)
    | ReadCounter(k: nat)
    | WriteCounter(k: nat)
    | DropProcessLock(k: nat)
    | Release(k: nat)

  /** The work under the token's lock, up to where the counter is needed. */
  function AfterBody(t: Token, pc: Pc): Token
    requires pc.EnterHeld? || pc.ExitHeld? || pc.AbandonHeld?
  {
    match pc
    case EnterHeld(name) =>
      t.(running := t.running[t.next := name], next := t.next + 1,
         holder := Some(if t.abandoned then Adjust(1) else Leaving))
    case ExitHeld(handle) =>
      if handle !in t.running then t.(holder := Some(Leaving))
      else t.(running := t.running - {handle}, holder := Some(if t.abandoned then Adjust(-1) else Leaving))
    case AbandonHeld =>
      t.(abandoned := true,
         surplus := if t.abandoned then t.surplus + |t.running| else t.surplus,
         holder := Some(if |t.running| > 0 then Adjust(|t.running|) else Leaving))
  }

  function Updated(p: Process, k: nat, t: Token): Process
    requires k < |p.tokens|
  {
    p.(tokens := p.tokens[k := t])
  }

  function Holding(p: Process, k: nat, pc: Pc): Process
    requires k < |p.tokens|
  {
    Updated(p, k, p.tokens[k].(holder := Some(pc)))
  }

  ghost predicate Next(p: Process, q: Process, step: Step) {
    match step
    case NewToken => q == p.(tokens := p.tokens + [Token(map[], 0, false, None, 0)])
    case Acquire(k, pc) =>
      && k < |p.tokens| && p.tokens[k].holder.None? && (pc.EnterHeld? || pc.ExitHeld? || pc.AbandonHeld?)
      && q == Holding(p, k, pc)
    case Body(k) =>
      && k < |p.tokens| && p.tokens[k].holder.Some?
      && var pc := p.tokens[k].holder.value;
         (pc.EnterHeld? || pc.ExitHeld? || pc.AbandonHeld?) && q == Updated(p, k, AfterBody(p.tokens[k], pc))
    case TakeProcessLock(k) =>
      && k < |p.tokens| && p.lock.None?
      && p.tokens[k].holder.Some? && p.tokens[k].holder.value.Adjust?
      && q == Holding(p, k, AdjustLocked(p.tokens[k].holder.value.delta)).(lock := Some(k))
    case ReadCounter(k) =>
      && k < |p.tokens| && p.tokens[k].holder.Some? && p.tokens[k].holder.value.AdjustLocked?
      && q == Holding(p, k, AdjustRead(p.tokens[k].holder.value.delta, p.counter))
    case WriteCounter(k) =>
      && k < |p.tokens| && p.tokens[k].holder.Some? && p.tokens[k].holder.value.AdjustRead?
      && var pc := p.tokens[k].holder.value;
         q == Holding(p, k, AdjustWritten).(counter := Max(0, pc.seen + pc.delta))
    case DropProcessLock(k) =>
      && k < |p.tokens| && p.tokens[k].holder == Some(AdjustWritten)
      && q == Holding(p, k, Leaving).(lock := None)
    case Release(k) =>
      && k < |p.tokens| && p.tokens[k].holder == Some(Leaving)
      && q == Updated(p, k, p.tokens[k].(holder := None))
  }

  // ---- What the counter stands for -----------------------------------------

  /** The delta a token's holder still has to apply. */
  function Pending(t: Token): int {
    match t.holder
    case Some(Adjust(d)) => d
    case Some(AdjustLocked(d)) => d
    case Some(AdjustRead(d, _)) => d
    case _ => 0
  }

  /** What the counter already holds on account of `t`. */
  function Share(t: Token): int {
    (if t.abandoned then |t.running| else 0) + t.surplus - Pending(t)
  }

  function Shares(ts: seq<Token>): int {
    if ts == [] then 0 else Shares(ts[..|ts| - 1]) + Share(ts[|ts| - 1])
  }

  /** Node threads of abandoned tokens that are still running. */
  function Zombies(ts: seq<Token>): nat {
    if ts == [] then 0
    else
      var t := ts[|ts| - 1];
      Zombies(ts[..|ts| - 1]) + if t.abandoned then |t.running| else 0
  }

  function Surplus(ts: seq<Token>): nat {
    if ts == [] then 0 else Surplus(ts[..|ts| - 1]) + ts[|ts| - 1].surplus
  }

  predicate HasProcessLock(t: Token) {
    t.holder.Some? && (t.holder.value.AdjustLocked? || t.holder.value.AdjustRead? || t.holder.value.AdjustWritten?)
  }

  ghost predicate TokenOk(t: Token) {
    && (forall h :: h in t.running ==> h < t.next)
    && (!t.abandoned ==> Pending(t) == 0 && t.surplus == 0)
    && Share(t) >= 0
  }

  ghost predicate Inv(p: Process) {
    && (forall k :: 0 <= k < |p.tokens| ==> TokenOk(p.tokens[k]))
    && (forall k :: 0 <= k < |p.tokens| ==> (HasProcessLock(p.tokens[k]) <==> p.lock == Some(k)))
    && (forall k :: 0 <= k < |p.tokens| && p.tokens[k].holder.Some? && p.tokens[k].holder.value.AdjustRead? ==>
          p.tokens[k].holder.value.seen == p.counter)
    && (p.lock.Some? ==> p.lock.value < |p.tokens|)
    && p.counter == Shares(p.tokens)
  }

  lemma {:induction false} SharesUpdate(ts: seq<Token>, k: nat, t: Token)
    requires k < |ts|
    ensures Shares(ts[k := t]) == Shares(ts) - Share(ts[k]) + Share(t)
  {
    var n := |ts| - 1;
    if k == n {
      assert ts[k := t][..n] == ts[..n];
    } else {
      SharesUpdate(ts[..n], k, t);
      assert ts[k := t][..n] == ts[..n][k := t];
    }
  }

  lemma {:induction false} SharesNotNegative(ts: seq<Token>)
    requires forall k :: 0 <= k < |ts| ==> Share(ts[k]) >= 0
    ensures Shares(ts) >= 0
    ensures forall k :: 0 <= k < |ts| ==> Share(ts[k]) <= Shares(ts)
  {
    if ts != [] { SharesNotNegative(ts[..|ts| - 1]); }
  }

  lemma EnterKeepsToken(t: Token, name: string)
    requires TokenOk(t) && t.holder == Some(EnterHeld(name))
    ensures TokenOk(AfterBody(t, EnterHeld(name))) && Share(AfterBody(t, EnterHeld(name))) == Share(t)
  {
  }

  lemma ExitKeepsToken(t: Token, handle: nat)
    requires TokenOk(t) && t.holder == Some(ExitHeld(handle))
    ensures TokenOk(AfterBody(t, ExitHeld(handle))) && Share(AfterBody(t, ExitHeld(handle))) == Share(t)
  {
  }

  lemma AbandonKeepsToken(t: Token)
    requires TokenOk(t) && t.holder == Some(AbandonHeld)
    ensures TokenOk(AfterBody(t, AbandonHeld)) && Share(AfterBody(t, AbandonHeld)) == Share(t)
  {
  }

  lemma BodyKeepsToken(t: Token, pc: Pc)
    requires TokenOk(t) && t.holder == Some(pc) && (pc.EnterHeld? || pc.ExitHeld? || pc.AbandonHeld?)
    ensures TokenOk(AfterBody(t, pc)) && Share(AfterBody(t, pc)) == Share(t)
  {
    hide *;
    match pc
    case EnterHeld(name) => EnterKeepsToken(t, name);
    case ExitHeld(handle) => ExitKeepsToken(t, handle);
    case AbandonHeld => AbandonKeepsToken(t);
  }

  /** The clamp at zero never fires: what is written is the old counter plus the delta. */
  lemma ClampNeverFires(p: Process, k: nat)
    requires Inv(p) && k < |p.tokens| && p.tokens[k].holder.Some? && p.tokens[k].holder.value.AdjustRead?
    ensures var pc := p.tokens[k].holder.value;
            Max(0, pc.seen + pc.delta) == p.counter + pc.delta
  {
    var t := p.tokens[k];
    SharesNotNegative(p.tokens);
    var t' := t.(holder := None);
    SharesUpdate(p.tokens, k, t');
    SharesNotNegative(p.tokens[k := t']);
  }

  lemma SameShareKeepsInv(p: Process, q: Process, k: nat, t: Token)
    requires Inv(p) && k < |p.tokens| && q.tokens == p.tokens[k := t] && q.counter == p.counter
    requires TokenOk(t) && Share(t) == Share(p.tokens[k])
    requires q.lock == if HasProcessLock(t) then Some(k) else if p.lock == Some(k) then None else p.lock
    requires HasProcessLock(t) ==> p.lock == Some(k) || p.lock == None
    requires t.holder.Some? && t.holder.value.AdjustRead? ==> t.holder.value.seen == p.counter
    ensures Inv(q)
  {
    SharesUpdate(p.tokens, k, t);
  }

  lemma WriteKeepsInv(p: Process, q: Process, k: nat)
    requires Inv(p) && Next(p, q, WriteCounter(k))
    ensures Inv(q)
  {
    ClampNeverFires(p, k);
    SharesUpdate(p.tokens, k, q.tokens[k]);
  }

  lemma BodyKeepsInv(p: Process, q: Process, k: nat)
    requires Inv(p) && Next(p, q, Body(k))
    ensures Inv(q)
  {
    hide Share, Shares, TokenOk;
    var t, pc := p.tokens[k], p.tokens[k].holder.value;
    BodyKeepsToken(t, pc);
    assert HasProcessLock(t) <==> p.lock == Some(k);
    SameShareKeepsInv(p, q, k, AfterBody(t, pc));
  }

  /** Taking and giving back locks, and reading the counter, move no share. */
  lemma LockStepKeepsInv(p: Process, q: Process, step: Step)
    requires Inv(p) && Next(p, q, step)
    requires step.Acquire? || step.TakeProcessLock? || step.ReadCounter? || step.DropProcessLock? || step.Release?
    ensures Inv(q)
  {
    var k := step.k;
    var t := q.tokens[k];
    assert Share(t) == Share(p.tokens[k]) && TokenOk(t);
    SameShareKeepsInv(p, q, k, t);
  }

  lemma StepKeepsInv(p: Process, q: Process, step: Step)
    requires Inv(p) && Next(p, q, step)
    ensures Inv(q)
  {
    match step
    case NewToken =>
    case Body(k) => BodyKeepsInv(p, q, k);
    case WriteCounter(k) => WriteKeepsInv(p, q, k);
    case _ => LockStepKeepsInv(p, q, step);
  }

  // ---- Whole runs -----------------------------------------------------------

  ghost predicate IsRun(run: seq<Process>, steps: seq<Step>) {
    && |run| == |steps| + 1 && run[0] == Process([], 0, None)
    && forall i :: 0 <= i < |steps| ==> Next(run[i], run[i + 1], steps[i])
  }

  lemma {:induction false} RunInv(run: seq<Process>, steps: seq<Step>, i: nat)
    requires IsRun(run, steps) && i < |run|
    ensures Inv(run[i])
  {
    if i > 0 {
      RunInv(run, steps, i - 1);
      StepKeepsInv(run[i - 1], run[i], steps[i - 1]);
    }
  }
}
