/** `CancelToken` and the process-wide counter of `src/cancellation.py` as objects.
    Each method does, without interruption, what the steps of `Cancellation` do
    one at a time. */
module CancelTokens {
  import opened Arithmetic
  import opened Wrappers
  import opened Cancellation

  /** What one call makes of a token that nobody else is inside of. */
  function Called(t: Token, pc: Pc): Token
    requires pc.EnterHeld? || pc.ExitHeld? || pc.AbandonHeld?
  {
    AfterBody(t, pc).(holder := None)
  }

  /** What it adds to the counter. */
  function Delta(t: Token, pc: Pc): int
    requires pc.EnterHeld? || pc.ExitHeld? || pc.AbandonHeld?
  {
    Pending(AfterBody(t, pc))
  }

  /** The names of the nodes with handles below `n`, in start order. */
  function NamesBelow(running: map<nat, string>, n: nat): seq<string> {
    if n == 0 then [] else NamesBelow(running, n - 1) + if n - 1 in running then [running[n - 1]] else []
  }

  lemma {:induction false} NamesBelowSize(running: map<nat, string>, n: nat)
    ensures |NamesBelow(running, n)| == |set h | h in running && h < n|
  {
    if n == 0 {
      assert (set h | h in running && h < 0) == {};
    } else {
      NamesBelowSize(running, n - 1);
      var before := set h | h in running && h < n - 1;
      assert (set h | h in running && h < n) == before + if n - 1 in running then {n - 1} else {};
    }
  }

  /** `hs` are the running handles below `n`, smallest first. */
  ghost predicate InStartOrder(hs: seq<nat>, running: map<nat, string>, n: nat) {
    && (forall k :: 0 <= k < |hs| ==> hs[k] in running && hs[k] < n)
    && (forall h :: h in running && h < n ==> h in hs)
    && forall j, k :: 0 <= j < k < |hs| ==> hs[j] < hs[k]
  }

  lemma {:induction false} HandlesBelow(running: map<nat, string>, n: nat) returns (hs: seq<nat>)
    ensures InStartOrder(hs, running, n) && |hs| == |NamesBelow(running, n)|
    ensures forall k :: 0 <= k < |hs| ==> NamesBelow(running, n)[k] == running[hs[k]]
  {
    hs := [];
    if n > 0 {
      hs := HandlesBelow(running, n - 1);
      if n - 1 in running { hs := hs + [n - 1]; }
    }
  }

  /** Every running node is named, only once, and in start order. */
  lemma NamesAreAll(t: Token) returns (hs: seq<nat>)
    requires TokenOk(t)
    ensures |hs| == |NamesBelow(t.running, t.next)| == |t.running|
    ensures forall h :: h in hs <==> h in t.running
    ensures forall j, k :: 0 <= j < k < |hs| ==> hs[j] < hs[k]
    ensures forall k :: 0 <= k < |hs| ==> hs[k] in t.running && NamesBelow(t.running, t.next)[k] == t.running[hs[k]]
  {
    NamesBelowSize(t.running, t.next);
    hs := HandlesBelow(t.running, t.next);
    assert (set h | h in t.running && h < t.next) == t.running.Keys;
  }

  class AbandonedNodes {
    var count: int

    constructor ()
      ensures count == 0
    {
      count := 0;
    }

    /** `_adjust_abandoned`. */
    method Adjust(delta: int)
      modifies this
      ensures count == Max(0, old(count) + delta)
    {
      count := Max(0, count + delta);
    }
  }

  class CancelToken {
    const zombies: AbandonedNodes
    var reason: string
    var isSet: bool
    var running: map<nat, string>
    var next: nat
    var abandoned: bool
    ghost var surplus: nat

    ghost function State(): Token
      reads this
    {
      Token(running, next, abandoned, None, surplus)
    }

    constructor (zombies: AbandonedNodes)
      ensures this.zombies == zombies && !isSet && reason == ""
      ensures State() == Token(map[], 0, false, None, 0) && TokenOk(State())
    {
      this.zombies := zombies;
      reason, isSet, running, next, abandoned, surplus := "", false, map[], 0, false, 0;
    }

    /** The first reason that says anything wins; the token stays set. */
    method Cancel(why: string)
      modifies this
      ensures isSet && reason == (if old(reason) == "" then why else old(reason))
      ensures State() == old(State())
    {
      if reason == "" {
        reason := why;
      }
      isSet := true;
    }

    method EnterNode(name: string) returns (handle: nat)
      requires TokenOk(State())
      modifies this, zombies
      ensures State() == Called(old(State()), EnterHeld(name)) && TokenOk(State())
      ensures zombies.count == AfterDelta(old(zombies.count), Delta(old(State()), EnterHeld(name)))
      ensures handle !in old(running) && running == old(running)[handle := name]
      ensures handle == old(next) && next == old(next) + 1 && abandoned == old(abandoned)
      ensures zombies.count == if old(abandoned) then Max(0, old(zombies.count) + 1) else old(zombies.count)
      ensures isSet == old(isSet) && reason == old(reason)
    {
      EnterKeepsToken(State().(holder := Some(EnterHeld(name))), name);
      handle := next;
      next := next + 1;
      running := running[handle := name];
      if abandoned {
        zombies.Adjust(1);
      }
    }

    /** A handle that is not running, never given out or given back before, does nothing. */
    method ExitNode(handle: nat)
      requires TokenOk(State())
      modifies this, zombies
      ensures State() == Called(old(State()), ExitHeld(handle)) && TokenOk(State())
      ensures zombies.count == AfterDelta(old(zombies.count), Delta(old(State()), ExitHeld(handle)))
      ensures handle !in old(running) ==> State() == old(State()) && zombies.count == old(zombies.count)
      ensures running == old(running) - {handle} && next == old(next) && abandoned == old(abandoned)
      ensures handle in old(running) ==>
                zombies.count == if abandoned then Max(0, old(zombies.count) - 1) else old(zombies.count)
      ensures isSet == old(isSet) && reason == old(reason)
    {
      ExitKeepsToken(State().(holder := Some(ExitHeld(handle))), handle);
      if handle !in running {
        return;
      }
      running := running - {handle};
      if abandoned {
        zombies.Adjust(-1);
      }
    }

    /** `running_nodes`: the names in start order. */
    method RunningNodes() returns (names: seq<string>, ghost handles: seq<nat>)
      requires TokenOk(State())
      ensures (forall h :: h in handles <==> h in running) && |names| == |handles| == |running|
      ensures forall j, k :: 0 <= j < k < |handles| ==> handles[j] < handles[k]
      ensures forall k :: 0 <= k < |handles| ==> names[k] == running[handles[k]]
    {
      handles := NamesAreAll(State());
      names := NamesBelow(running, next);
    }

    /** Every node running now is counted, in a token that was abandoned before once more. */
    method Abandon() returns (names: seq<string>, ghost handles: seq<nat>)
      requires TokenOk(State())
      modifies this, zombies
      ensures State() == Called(old(State()), AbandonHeld) && TokenOk(State())
      ensures zombies.count == AfterDelta(old(zombies.count), Delta(old(State()), AbandonHeld))
      ensures abandoned && running == old(running) && next == old(next)
      ensures zombies.count
              == if running == map[] then old(zombies.count) else Max(0, old(zombies.count) + |running|)
      ensures (forall h :: h in handles <==> h in running) && |names| == |handles| == |running|
      ensures forall j, k :: 0 <= j < k < |handles| ==> handles[j] < handles[k]
      ensures forall k :: 0 <= k < |handles| ==> names[k] == running[handles[k]]
      ensures isSet == old(isSet) && reason == old(reason)
    {
      AbandonKeepsToken(State().(holder := Some(AbandonHeld)));
      if abandoned {
        surplus := surplus + |running|;
      }
      abandoned := true;
      names, handles := RunningNodes();
      if |names| > 0 {
        zombies.Adjust(|names|);
      }
    }
  }

  /** The counter after a call: a call that changes nothing does not touch it. */
  function AfterDelta(count: int, delta: int): int {
    if delta == 0 then count else Max(0, count + delta)
  }

  /** The process after an uninterrupted call on token `k`. */
  function CalledOn(p: Process, k: nat, pc: Pc): Process
    requires k < |p.tokens| && (pc.EnterHeld? || pc.ExitHeld? || pc.AbandonHeld?)
  {
    var t := p.tokens[k];
    Process(p.tokens[k := Called(t, pc)], AfterDelta(p.counter, Delta(t, pc)), p.lock)
  }

  /** An uninterrupted call that leaves the counter alone is three steps of the machine. */
  lemma SilentCallIsSteps(p: Process, k: nat, pc: Pc) returns (a: Process, b: Process)
    requires k < |p.tokens| && p.tokens[k].holder.None?
    requires pc.EnterHeld? || pc.ExitHeld? || pc.AbandonHeld?
    requires Delta(p.tokens[k], pc) == 0
    ensures Next(p, a, Acquire(k, pc)) && Next(a, b, Body(k)) && Next(b, CalledOn(p, k, pc), Release(k))
  {
    a := Holding(p, k, pc);
    b := Updated(a, k, AfterBody(p.tokens[k], pc));
    hide AfterBody;
    assert Updated(b, k, Called(p.tokens[k], pc)) == CalledOn(p, k, pc);
  }

  /** One that moves the counter is seven, with the process lock inside the token's. */
  lemma CountedCallIsSteps(p: Process, k: nat, pc: Pc)
    returns (a: Process, b: Process, c: Process, d: Process, e: Process, f: Process)
    requires k < |p.tokens| && p.tokens[k].holder.None? && p.lock.None?
    requires pc.EnterHeld? || pc.ExitHeld? || pc.AbandonHeld?
    requires Delta(p.tokens[k], pc) != 0
    ensures Next(p, a, Acquire(k, pc)) && Next(a, b, Body(k))
    ensures Next(b, c, TakeProcessLock(k)) && Next(c, d, ReadCounter(k))
    ensures Next(d, e, WriteCounter(k)) && Next(e, f, DropProcessLock(k))
    ensures Next(f, CalledOn(p, k, pc), Release(k))
  {
    a := Holding(p, k, pc);
    b := Updated(a, k, AfterBody(p.tokens[k], pc));
    c, d, e, f := AdjustIsSteps(b, k, Delta(p.tokens[k], pc));
    hide AfterBody;
    assert Updated(f, k, Called(p.tokens[k], pc)) == CalledOn(p, k, pc);
  }

  /** `_adjust_abandoned`, step by step. */
  lemma AdjustIsSteps(b: Process, k: nat, delta: int) returns (c: Process, d: Process, e: Process, f: Process)
    requires k < |b.tokens| && b.lock.None? && b.tokens[k].holder == Some(Adjust(delta))
    ensures Next(b, c, TakeProcessLock(k)) && Next(c, d, ReadCounter(k))
    ensures Next(d, e, WriteCounter(k)) && Next(e, f, DropProcessLock(k))
    ensures f == Process(b.tokens[k := b.tokens[k].(holder := Some(Leaving))], Max(0, b.counter + delta), None)
  {
    c := Holding(b, k, AdjustLocked(delta)).(lock := Some(k));
    d := Holding(c, k, AdjustRead(delta, b.counter));
    e := Holding(d, k, AdjustWritten).(counter := Max(0, b.counter + delta));
    f := Holding(e, k, Leaving).(lock := None);
  }
}
