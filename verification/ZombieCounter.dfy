/** What the process-wide counter of `src/cancellation.py` says in every run of
    the cancel tokens: when it is exact, and by how much it is off. What was
    abandoned and what runs is read off the steps of the run. */
module ZombieCounter {
  import opened Wrappers
  import opened Cancellation

  // ---- What has happened -----------------------------------------------------

  /** Step `j` is the work of a call `pc` under the lock of token `k`. */
  ghost predicate Did(run: seq<Process>, steps: seq<Step>, j: nat, k: nat, pc: Pc)
    requires j < |steps| && j < |run|
  {
    steps[j] == Body(k) && k < |run[j].tokens| && run[j].tokens[k].holder == Some(pc)
  }

  /** `abandon` was called on token `k` before state `i`. */
  ghost predicate AbandonBefore(run: seq<Process>, steps: seq<Step>, i: nat, k: nat)
    requires i <= |steps| && i < |run|
  {
    exists j: nat :: j < i && Did(run, steps, j, k, AbandonHeld)
  }

  /** Step `j` is the `enter_node` of `name` that gives out handle `h` of token `k`. */
  ghost predicate Entered(run: seq<Process>, steps: seq<Step>, j: nat, k: nat, h: nat, name: string)
    requires j < |steps| && j < |run|
  {
    Did(run, steps, j, k, EnterHeld(name)) && run[j].tokens[k].next == h
  }

  /** Handle `h` of token `k` was given out to `name` before state `i` and not given back since. */
  ghost predicate Inside(run: seq<Process>, steps: seq<Step>, i: nat, k: nat, h: nat, name: string)
    requires i <= |steps| && i < |run|
  {
    exists j: nat :: j < i && Entered(run, steps, j, k, h, name)
               && forall m: nat :: j < m < i ==> !Did(run, steps, m, k, ExitHeld(h))
  }

  lemma {:induction false} TokensGrow(run: seq<Process>, steps: seq<Step>, j: nat, i: nat)
    requires IsRun(run, steps) && j <= i < |run|
    ensures |run[j].tokens| <= |run[i].tokens|
  {
    if j < i {
      TokensGrow(run, steps, j, i - 1);
      assert Next(run[i - 1], run[i], steps[i - 1]);
    }
  }

  lemma NewTokenIsUntouched(run: seq<Process>, steps: seq<Step>, i: nat, k: nat)
    requires IsRun(run, steps) && i < |run| && k >= |run[i].tokens|
    ensures !AbandonBefore(run, steps, i, k)
    ensures forall h: nat, name :: !Inside(run, steps, i, k, h, name)
  {
    forall j: nat | j < i ensures k >= |run[j].tokens| { TokensGrow(run, steps, j, i); }
  }

  /** A token is abandoned if and only if `abandon` was called on it. */
  lemma {:induction false} AbandonedIff(run: seq<Process>, steps: seq<Step>, i: nat, k: nat)
    requires IsRun(run, steps) && i < |run| && k < |run[i].tokens|
    ensures run[i].tokens[k].abandoned <==> AbandonBefore(run, steps, i, k)
  {
    if i > 0 {
      var p, q := run[i - 1], run[i];
      assert Next(p, q, steps[i - 1]);
      if k < |p.tokens| {
        AbandonedIff(run, steps, i - 1, k);
      } else {
        NewTokenIsUntouched(run, steps, i - 1, k);
      }
      assert AbandonBefore(run, steps, i, k)
        <==> AbandonBefore(run, steps, i - 1, k) || Did(run, steps, i - 1, k, AbandonHeld);
    }
  }

  lemma InsideNext(run: seq<Process>, steps: seq<Step>, i: nat, k: nat, h: nat, name: string)
    requires i < |steps| && i + 1 < |run|
    ensures Inside(run, steps, i + 1, k, h, name)
            <==> || Entered(run, steps, i, k, h, name)
                 || (Inside(run, steps, i, k, h, name) && !Did(run, steps, i, k, ExitHeld(h)))
  {
    hide Did, Entered;
    if Inside(run, steps, i + 1, k, h, name) {
      var j: nat :| j < i + 1 && Entered(run, steps, j, k, h, name)
               && forall m: nat :: j < m < i + 1 ==> !Did(run, steps, m, k, ExitHeld(h));
    }
    if Inside(run, steps, i, k, h, name) && !Did(run, steps, i, k, ExitHeld(h)) {
      var j: nat :| j < i && Entered(run, steps, j, k, h, name)
               && forall m: nat :: j < m < i ==> !Did(run, steps, m, k, ExitHeld(h));
      assert forall m: nat :: j < m < i + 1 ==> !Did(run, steps, m, k, ExitHeld(h));
    }
  }

  ghost predicate Runs(t: Token, h: nat, name: string) {
    h in t.running && t.running[h] == name
  }

  lemma RunsNext(p: Process, q: Process, step: Step, k: nat, h: nat, name: string)
    requires Inv(p) && Next(p, q, step) && k < |p.tokens|
    ensures Runs(q.tokens[k], h, name)
            <==> || (step == Body(k) && p.tokens[k].holder == Some(EnterHeld(name)) && p.tokens[k].next == h)
                 || (Runs(p.tokens[k], h, name) && !(step == Body(k) && p.tokens[k].holder == Some(ExitHeld(h))))
  {
    hide Shares, Share;
  }

  /** A node is running if and only if it has entered and not left. */
  lemma {:induction false} RunningIff(run: seq<Process>, steps: seq<Step>, i: nat, k: nat, h: nat, name: string)
    requires IsRun(run, steps) && i < |run| && k < |run[i].tokens|
    ensures h in run[i].tokens[k].running && run[i].tokens[k].running[h] == name
            <==> Inside(run, steps, i, k, h, name)
  {
    if i > 0 {
      var p, q := run[i - 1], run[i];
      assert Next(p, q, steps[i - 1]);
      RunInv(run, steps, i - 1);
      InsideNext(run, steps, i - 1, k, h, name);
      if k < |p.tokens| {
        hide Inside, Inv, Next;
        RunningIff(run, steps, i - 1, k, h, name);
        RunsNext(p, q, steps[i - 1], k, h, name);
      } else {
        NewTokenIsUntouched(run, steps, i - 1, k);
      }
    }
  }

  /** The nodes still running whose token has been abandoned, as token and handle. */
  ghost function GivenUp(run: seq<Process>, steps: seq<Step>, i: nat): set<(nat, nat)>
    requires i <= |steps| && i < |run|
  {
    set k: nat, h | k < |run[i].tokens| && h in run[i].tokens[k].running && AbandonBefore(run, steps, i, k) :: (k, h)
  }

  function ZombieSet(ts: seq<Token>): set<(nat, nat)> {
    set k: nat, h | k < |ts| && ts[k].abandoned && h in ts[k].running :: (k, h)
  }

  /** The handles `hs` of token `k`. */
  function Handles(k: nat, hs: set<nat>): set<(nat, nat)> {
    set h | h in hs :: (k, h)
  }

  lemma HandlesSize(k: nat, hs: set<nat>)
    ensures |Handles(k, hs)| == |hs|
  {
    if hs == {} {
      assert Handles(k, hs) == {};
    } else {
      var h :| h in hs;
      HandlesSize(k, hs - {h});
      assert Handles(k, hs) == Handles(k, hs - {h}) + {(k, h)};
    }
  }

  lemma ZombieSetSplit(ts: seq<Token>, n: nat)
    requires n + 1 == |ts|
    ensures var last := Handles(n, if ts[n].abandoned then ts[n].running.Keys else {});
            ZombieSet(ts) == ZombieSet(ts[..n]) + last && ZombieSet(ts[..n]) !! last
  {
  }

  lemma {:induction false} ZombiesAreSet(ts: seq<Token>)
    ensures |ZombieSet(ts)| == Zombies(ts)
  {
    if ts == [] {
      assert ZombieSet(ts) == {};
    } else {
      var n := |ts| - 1;
      ZombieSetSplit(ts, n);
      hide ZombieSet, Handles;
      ZombiesAreSet(ts[..n]);
      HandlesSize(n, if ts[n].abandoned then ts[n].running.Keys else {});
    }
  }

  lemma GivenUpSize(run: seq<Process>, steps: seq<Step>, i: nat)
    requires IsRun(run, steps) && i < |run|
    ensures |GivenUp(run, steps, i)| == Zombies(run[i].tokens)
  {
    forall k: nat | k < |run[i].tokens|
      ensures run[i].tokens[k].abandoned <==> AbandonBefore(run, steps, i, k)
    {
      AbandonedIff(run, steps, i, k);
    }
    hide AbandonBefore, IsRun;
    assert GivenUp(run, steps, i) == ZombieSet(run[i].tokens);
    ZombiesAreSet(run[i].tokens);
  }

  /** Step `j` abandons a token that was abandoned before and has nodes running. */
  ghost predicate Repeats(run: seq<Process>, steps: seq<Step>, j: nat)
    requires j < |steps| && j < |run|
  {
    steps[j].Body? && Did(run, steps, j, steps[j].k, AbandonHeld) && AbandonBefore(run, steps, j, steps[j].k)
    && run[j].tokens[steps[j].k].running != map[]
  }

  /** The nodes that such steps counted once more. */
  ghost function CountedTwice(run: seq<Process>, steps: seq<Step>, i: nat): nat
    requires i <= |steps| && i < |run|
  {
    if i == 0 then 0
    else CountedTwice(run, steps, i - 1)
         + if Repeats(run, steps, i - 1) then |run[i - 1].tokens[steps[i - 1].k].running| else 0
  }

  // ---- What the counter says ---------------------------------------------------

  /** No thread is inside any token's lock. */
  ghost predicate Quiet(p: Process) {
    forall k :: 0 <= k < |p.tokens| ==> p.tokens[k].holder.None?
  }

  function Pendings(ts: seq<Token>): int {
    if ts == [] then 0 else Pendings(ts[..|ts| - 1]) + Pending(ts[|ts| - 1])
  }

  lemma {:induction false} SharesSplit(ts: seq<Token>)
    ensures Shares(ts) == Zombies(ts) + Surplus(ts) - Pendings(ts)
  {
    if ts != [] { SharesSplit(ts[..|ts| - 1]); }
  }

  lemma {:induction false} QuietPendsNothing(ts: seq<Token>)
    requires forall k :: 0 <= k < |ts| ==> ts[k].holder.None?
    ensures Pendings(ts) == 0
  {
    if ts != [] { QuietPendsNothing(ts[..|ts| - 1]); }
  }

  lemma {:induction false} SurplusUpdate(ts: seq<Token>, k: nat, t: Token)
    requires k < |ts|
    ensures Surplus(ts[k := t]) == Surplus(ts) - ts[k].surplus + t.surplus
  {
    var n := |ts| - 1;
    if k == n {
      assert ts[k := t][..n] == ts[..n];
    } else {
      SurplusUpdate(ts[..n], k, t);
      assert ts[k := t][..n] == ts[..n][k := t];
    }
  }

  lemma StepSurplus(p: Process, q: Process, step: Step)
    requires Next(p, q, step)
    ensures Surplus(q.tokens) == Surplus(p.tokens)
            + if step.Body? && p.tokens[step.k].holder == Some(AbandonHeld) && p.tokens[step.k].abandoned
              then |p.tokens[step.k].running| else 0
  {
    if step.NewToken? {
      assert q.tokens[..|p.tokens|] == p.tokens;
    } else {
      SurplusUpdate(p.tokens, step.k, q.tokens[step.k]);
    }
  }

  lemma {:induction false} SurplusIs(run: seq<Process>, steps: seq<Step>, i: nat)
    requires IsRun(run, steps) && i < |run|
    ensures Surplus(run[i].tokens) == CountedTwice(run, steps, i)
  {
    if i > 0 {
      var p, q, step := run[i - 1], run[i], steps[i - 1];
      SurplusIs(run, steps, i - 1);
      assert Next(p, q, step);
      StepSurplus(p, q, step);
      if step.Body? {
        AbandonedIff(run, steps, i - 1, step.k);
        assert |p.tokens[step.k].running| == 0 <==> p.tokens[step.k].running == map[];
      }
      hide AbandonBefore, Surplus, Next, IsRun, AfterBody;
    }
  }

  /** At any moment, even while threads are inside locks, what `/healthz` reads is
      the number of nodes given up and still running, plus what repeated abandons
      counted twice, less the deltas still to be applied. */
  lemma CounterBetweenSteps(run: seq<Process>, steps: seq<Step>, i: nat)
    requires IsRun(run, steps) && i < |run|
    ensures run[i].counter
            == |GivenUp(run, steps, i)| + CountedTwice(run, steps, i) - Pendings(run[i].tokens)
  {
    RunInv(run, steps, i);
    SharesSplit(run[i].tokens);
    GivenUpSize(run, steps, i);
    SurplusIs(run, steps, i);
  }

  /** So whenever no token's lock is held, no delta is open. */
  lemma CounterWhenQuiet(run: seq<Process>, steps: seq<Step>, i: nat)
    requires IsRun(run, steps) && i < |run| && Quiet(run[i])
    ensures run[i].counter == |GivenUp(run, steps, i)| + CountedTwice(run, steps, i)
  {
    CounterBetweenSteps(run, steps, i);
    QuietPendsNothing(run[i].tokens);
  }

  lemma {:induction false} CountedTwiceIff(run: seq<Process>, steps: seq<Step>, i: nat)
    requires i <= |steps| && i < |run|
    ensures CountedTwice(run, steps, i) == 0 <==> forall j: nat :: j < i ==> !Repeats(run, steps, j)
  {
    hide Did, AbandonBefore;
    if i > 0 {
      CountedTwiceIff(run, steps, i - 1);
    }
  }

  /** The counter is exact, in a quiet state of any run, if and only if no token
      with nodes running has been abandoned a second time. */
  lemma CounterIsExactIff(run: seq<Process>, steps: seq<Step>, i: nat)
    requires IsRun(run, steps) && i < |run| && Quiet(run[i])
    ensures run[i].counter == |GivenUp(run, steps, i)| <==> forall j: nat :: j < i ==> !Repeats(run, steps, j)
  {
    CounterWhenQuiet(run, steps, i);
    CountedTwiceIff(run, steps, i);
  }

  /** Without such a repeat the counter is back at zero once every node given up
      has returned, and never below zero on the way. */
  lemma CounterReturnsToZero(run: seq<Process>, steps: seq<Step>, i: nat)
    requires IsRun(run, steps) && i < |run|
    requires forall j: nat :: j < i ==> !Repeats(run, steps, j)
    ensures run[i].counter >= 0
    ensures Quiet(run[i]) ==> (run[i].counter == 0 <==> GivenUp(run, steps, i) == {})
  {
    RunInv(run, steps, i);
    SharesNotNegative(run[i].tokens);
    hide *;
    if Quiet(run[i]) { CounterIsExactIff(run, steps, i); }
  }
}
