/** Supervisor runs in which no judge ever gives a usable answer, so that the
    fallback of `src/agents/supervisor.py` routes every turn. */
module SupervisorFallback {
  import opened ResearchState
  import opened Supervisor
  import opened Wrappers
  import Critic

  /** The judge raises, or names no action or one that is switched off. */
  predicate Unusable(j: Judge, c: Config) {
    j.ProviderDown? || j.Malformed? || (j.Answer? && (j.named.None? || !Available(j.named.value, c)))
  }

  /** Only the critic writes the revision fields, the pass counter and the
      critique, and it writes nothing else. */
  ghost predicate Framed(s: State, t: State, c: Config, r: Critic.Reply) {
    if DefaultNextAction(s, c).Critique? then
      t == Critic.CriticAgent(s, c, r).(loopIterations := t.loopIterations)
    else
      && t.revisionNeeded == s.revisionNeeded && t.revisionTarget == s.revisionTarget
      && t.iteration == s.iteration && t.critique == s.critique
  }

  /** A complete run within the cost ceiling: the last decision is to stop. */
  ghost predicate FallbackRun(seen: seq<State>, judges: seq<Judge>, replies: seq<Critic.Reply>, c: Config) {
    && !c.mockData && |replies| == |seen|
    && SupervisedRun(seen, seq(|seen|, _ => false), judges, c)
    && (forall i :: 0 <= i < |seen| ==> Unusable(judges[i], c))
    && (forall i :: 0 <= i < |seen| - 1 ==> Framed(seen[i], seen[i + 1], c, replies[i]))
    && Decided(seen[|seen| - 1], c).action.Stop?
  }

  /** What is decided: the cap first, then the fixed pipeline's next action. */
  function Decided(s: State, c: Config): Decision {
    if s.loopIterations >= c.maxLoopIterations then Decision(Stop, "max_iterations_reached", s.loopIterations + 1)
    else FallBack(s, c, s.loopIterations + 1)
  }

  /** The decisions of such a run are those of the supervisor. */
  lemma UnusableFallsBack(s: State, c: Config, j: Judge)
    requires !c.mockData && Unusable(j, c)
    ensures SupervisorAgent(s, c, false, j) == Success(Decided(s, c))
  {
  }

  /** The turn that leads from one seen state to the next. */
  lemma TurnOf(seen: seq<State>, judges: seq<Judge>, replies: seq<Critic.Reply>, c: Config, i: nat)
    requires FallbackRun(seen, judges, replies, c) && i < |seen| - 1
    ensures seen[i].loopIterations == i < c.maxLoopIterations
    ensures Decided(seen[i], c).action == DefaultNextAction(seen[i], c) && !DefaultNextAction(seen[i], c).Stop?
    ensures Framed(seen[i], seen[i + 1], c, replies[i])
  {
    var over := seq(|seen|, _ => false);
    LoopCounter(seen, over, judges, c, i);
    assert Turn(seen[i], seen[i + 1], c, over[i], judges[i]);
    UnusableFallsBack(seen[i], c, judges[i]);
    DecisionRoutes(seen[i], c, false, judges[i]);
  }

  lemma LastTurn(seen: seq<State>, judges: seq<Judge>, replies: seq<Critic.Reply>, c: Config)
    requires FallbackRun(seen, judges, replies, c)
    ensures var last := seen[|seen| - 1];
            && last.loopIterations == |seen| - 1 <= c.maxLoopIterations
            && (|seen| - 1 < c.maxLoopIterations ==> DefaultNextAction(last, c).Stop?)
            && Decided(last, c) == Decision(Stop, if |seen| - 1 == c.maxLoopIterations then "max_iterations_reached"
                                                  else "llm_failed", |seen|)
  {
    LoopCounter(seen, seq(|seen|, _ => false), judges, c, |seen| - 1);
  }

  /** Every turn takes action `a`, and only the cap ends the run. */
  ghost predicate StuckOn(seen: seq<State>, c: Config, a: Action) {
    && |seen| == c.maxLoopIterations + 1
    && (forall i :: 0 <= i < |seen| - 1 ==> Decided(seen[i], c).action == a)
    && Decided(seen[|seen| - 1], c) == Decision(Stop, "max_iterations_reached", |seen|)
  }

  lemma StuckIfRepeated(seen: seq<State>, judges: seq<Judge>, replies: seq<Critic.Reply>, c: Config, a: Action)
    requires FallbackRun(seen, judges, replies, c) && !a.Stop?
    requires forall i :: 0 <= i < |seen| ==> DefaultNextAction(seen[i], c) == a
    ensures StuckOn(seen, c, a)
  {
    assert |seen| > 0;
    hide FallbackRun, DefaultNextAction, Decided;
    LastTurn(seen, judges, replies, c);
    forall i | 0 <= i < |seen| - 1 ensures Decided(seen[i], c).action == a {
      TurnOf(seen, judges, replies, c, i);
    }
  }

  // ---- A pending revision -----------------------------------------------------

  lemma {:induction false} RevisionStaysPending(seen: seq<State>, judges: seq<Judge>, replies: seq<Critic.Reply>,
                                                c: Config, k: nat, i: nat)
    requires FallbackRun(seen, judges, replies, c) && k <= i < |seen| && RevisionPending(seen[k], c)
    ensures RevisionPending(seen[i], c) && seen[i].revisionTarget == seen[k].revisionTarget
    ensures DefaultNextAction(seen[i], c) == RevisionAction(seen[k].revisionTarget)
    decreases i
  {
    if k < i {
      RevisionStaysPending(seen, judges, replies, c, k, i - 1);
      TurnOf(seen, judges, replies, c, i - 1);
    }
  }

  /** From a pending revision the fallback makes no progress: it is the same
      action until the cap. */
  lemma RevisionRunsToCap(seen: seq<State>, judges: seq<Judge>, replies: seq<Critic.Reply>, c: Config)
    requires FallbackRun(seen, judges, replies, c) && RevisionPending(seen[0], c)
    ensures StuckOn(seen, c, RevisionAction(seen[0].revisionTarget))
  {
    forall i | 0 <= i < |seen| ensures DefaultNextAction(seen[i], c) == RevisionAction(seen[0].revisionTarget) {
      RevisionStaysPending(seen, judges, replies, c, 0, i);
    }
    hide FallbackRun, StuckOn, RevisionPending, DefaultNextAction;
    StuckIfRepeated(seen, judges, replies, c, RevisionAction(seen[0].revisionTarget));
  }

  // ---- An empty critique ---------------------------------------------------------

  /** The pass leaves a critique. */
  predicate Critiques(r: Critic.Reply) {
    r.Object? && r.critique
  }

  /** The pass leaves neither a critique nor a revision: the reply is unusable, or
      has no critique and asks for nothing that can be carried out. */
  predicate LeavesNothing(s: State, c: Config, r: Critic.Reply) {
    !Critiques(r) && !Critic.Revises(s, c, r)
  }

  /** Every pass but one that the cap would end anyway leaves nothing. */
  ghost predicate PassesLeaveNothing(seen: seq<State>, replies: seq<Critic.Reply>, c: Config)
    requires |seen| <= |replies|
  {
    forall i :: 0 <= i < |seen| - 1 && i + 1 < c.maxLoopIterations && DefaultNextAction(seen[i], c).Critique? ==>
      LeavesNothing(seen[i], c, replies[i])
  }

  lemma {:induction false} CritiqueStaysEmpty(seen: seq<State>, judges: seq<Judge>, replies: seq<Critic.Reply>,
                                              c: Config, i: nat)
    requires FallbackRun(seen, judges, replies, c) && i < |seen| && i < c.maxLoopIterations
    requires DefaultNextAction(seen[0], c).Critique? && PassesLeaveNothing(seen, replies, c)
    ensures DefaultNextAction(seen[i], c).Critique?
  {
    if i > 0 {
      CritiqueStaysEmpty(seen, judges, replies, c, i - 1);
      TurnOf(seen, judges, replies, c, i - 1);
      hide DefaultNextAction, LeavesNothing;
    }
  }

  /** A critic that leaves nothing is asked again until the cap. */
  lemma EmptyCritiqueRunsToCap(seen: seq<State>, judges: seq<Judge>, replies: seq<Critic.Reply>, c: Config)
    requires FallbackRun(seen, judges, replies, c) && c.maxLoopIterations >= 1
    requires DefaultNextAction(seen[0], c).Critique? && PassesLeaveNothing(seen, replies, c)
    ensures StuckOn(seen, c, Critique)
  {
    var last := |seen| - 1;
    LastTurn(seen, judges, replies, c);
    if last < c.maxLoopIterations {
      CritiqueStaysEmpty(seen, judges, replies, c, last);
    }
    forall i | 0 <= i < last ensures Decided(seen[i], c).action == Critique {
      TurnOf(seen, judges, replies, c, i);
      CritiqueStaysEmpty(seen, judges, replies, c, i);
    }
    hide FallbackRun, DefaultNextAction, PassesLeaveNothing;
  }

  // ---- When the fallback progresses ------------------------------------------------

  predicate Filled(s: State, a: Action) {
    match a
    case Plan => s.subQuestions
    case Search => s.papers
    case Read => s.analyses
    case Synthesize => s.draft
    case Critique => s.critique
    case _ => true
  }

  /** The node fills its own stage and empties none. */
  ghost predicate Fills(s: State, t: State, a: Action) {
    && Filled(t, a)
    && (s.subQuestions ==> t.subQuestions) && (s.papers ==> t.papers) && (s.analyses ==> t.analyses)
    && (s.draft ==> t.draft)
  }

  /** Every node but the critic does. */
  ghost predicate AllFill(seen: seq<State>, c: Config) {
    forall i :: 0 <= i < |seen| - 1 && !DefaultNextAction(seen[i], c).Critique? ==>
      Fills(seen[i], seen[i + 1], DefaultNextAction(seen[i], c))
  }

  /** Stages before the critic that are still empty. */
  function EmptyBefore(s: State): nat {
    One(!s.subQuestions) + One(!s.papers) + One(!s.analyses) + One(!s.draft)
  }

  function Empty(s: State): nat {
    EmptyBefore(s) + One(!s.critique)
  }

  /** With nodes that fill their stages, the critic excepted, a run repeats one
      action up to the cap if and only if it starts with a revision pending, or
      with the critic and every pass that is not the last leaves nothing. */
  lemma FallbackStuckIff(seen: seq<State>, judges: seq<Judge>, replies: seq<Critic.Reply>, c: Config)
    requires FallbackRun(seen, judges, replies, c) && AllFill(seen, c) && c.maxLoopIterations >= 2
    ensures (exists a: Action :: !a.Stop? && StuckOn(seen, c, a))
            <==> RevisionPending(seen[0], c)
                 || (DefaultNextAction(seen[0], c).Critique? && PassesLeaveNothing(seen, replies, c))
  {
    if RevisionPending(seen[0], c) {
      RevisionRunsToCap(seen, judges, replies, c);
    } else if DefaultNextAction(seen[0], c).Critique? && PassesLeaveNothing(seen, replies, c) {
      EmptyCritiqueRunsToCap(seen, judges, replies, c);
      assert !Critique.Stop?;
    } else {
      forall a: Action | !a.Stop? && StuckOn(seen, c, a) ensures false {
        StuckFrom(seen, judges, replies, c, a);
      }
    }
  }

  lemma StuckFrom(seen: seq<State>, judges: seq<Judge>, replies: seq<Critic.Reply>, c: Config, a: Action)
    requires FallbackRun(seen, judges, replies, c) && AllFill(seen, c) && c.maxLoopIterations >= 2
    requires !a.Stop? && StuckOn(seen, c, a) && !RevisionPending(seen[0], c)
    ensures DefaultNextAction(seen[0], c).Critique? && PassesLeaveNothing(seen, replies, c)
  {
    forall i | 0 <= i < |seen| - 1 ensures DefaultNextAction(seen[i], c) == a {
      TurnOf(seen, judges, replies, c, i);
    }
    TurnOf(seen, judges, replies, c, 0);
    hide DefaultNextAction, RevisionPending, LeavesNothing, Decided;
    forall i | 0 <= i < |seen| - 1 && i + 1 < c.maxLoopIterations && DefaultNextAction(seen[i], c).Critique?
      ensures LeavesNothing(seen[i], c, replies[i])
    {
      TurnOf(seen, judges, replies, c, i);
    }
  }

  /** Some critic pass of the run asks for a revision. */
  ghost predicate Revised(seen: seq<State>, replies: seq<Critic.Reply>, c: Config) {
    exists i :: 0 <= i < |seen| - 1 && i < |replies|
      && DefaultNextAction(seen[i], c).Critique? && Critic.Revises(seen[i], c, replies[i])
  }

  /** There is a critique at the start, or a pass leaves one before the cap. */
  ghost predicate Critiqued(seen: seq<State>, replies: seq<Critic.Reply>, c: Config)
    requires 0 < |seen| <= |replies|
  {
    seen[0].critique
    || exists i :: 0 <= i < |seen| - 1 && i + 1 < c.maxLoopIterations
         && DefaultNextAction(seen[i], c).Critique? && Critiques(replies[i])
  }

  lemma {:induction false} NonePending(seen: seq<State>, judges: seq<Judge>, replies: seq<Critic.Reply>,
                                       c: Config, i: nat)
    requires FallbackRun(seen, judges, replies, c) && i < |seen|
    requires !RevisionPending(seen[0], c) && !Revised(seen, replies, c)
    ensures !RevisionPending(seen[i], c)
  {
    if i > 0 {
      NonePending(seen, judges, replies, c, i - 1);
      TurnOf(seen, judges, replies, c, i - 1);
      hide FallbackRun, RevisionPending, DefaultNextAction, Critic.Revises;
    }
  }

  /** With a critique from the start, every turn fills a stage. */
  lemma {:induction false} StagesFill(seen: seq<State>, judges: seq<Judge>, replies: seq<Critic.Reply>,
                                      c: Config, i: nat)
    requires FallbackRun(seen, judges, replies, c) && AllFill(seen, c) && i < |seen| && seen[0].critique
    requires !RevisionPending(seen[0], c) && !Revised(seen, replies, c)
    ensures seen[i].critique && EmptyBefore(seen[i]) + i <= EmptyBefore(seen[0])
  {
    if i > 0 {
      StagesFill(seen, judges, replies, c, i - 1);
      NonePending(seen, judges, replies, c, i - 1);
      TurnOf(seen, judges, replies, c, i - 1);
      assert !DefaultNextAction(seen[i - 1], c).Critique?;
      hide FallbackRun, RevisionPending, DefaultNextAction;
    }
  }

  /** A critique comes from somewhere. */
  lemma {:induction false} CritiqueFrom(seen: seq<State>, judges: seq<Judge>, replies: seq<Critic.Reply>,
                                        c: Config, i: nat)
    requires FallbackRun(seen, judges, replies, c) && i < |seen| && i < c.maxLoopIterations && seen[i].critique
    ensures Critiqued(seen, replies, c)
  {
    if i > 0 {
      TurnOf(seen, judges, replies, c, i - 1);
      if DefaultNextAction(seen[i - 1], c).Critique? {
      } else {
        CritiqueFrom(seen, judges, replies, c, i - 1);
      }
    }
  }

  /** With a critique before the cap and no revision the run ends before the cap. */
  lemma EndsBeforeCap(seen: seq<State>, judges: seq<Judge>, replies: seq<Critic.Reply>, c: Config)
    requires FallbackRun(seen, judges, replies, c) && AllFill(seen, c) && c.maxLoopIterations > Empty(seen[0])
    requires !RevisionPending(seen[0], c) && !Revised(seen, replies, c) && Critiqued(seen, replies, c)
    ensures |seen| - 1 < c.maxLoopIterations
  {
    LastTurn(seen, judges, replies, c);
    var last := |seen| - 1;
    if seen[0].critique {
      StagesFill(seen, judges, replies, c, last);
    } else {
      var i :| 0 <= i < last && i + 1 < c.maxLoopIterations
        && DefaultNextAction(seen[i], c).Critique? && Critiques(replies[i]);
      NonePending(seen, judges, replies, c, i + 1);
      TurnOf(seen, judges, replies, c, i);
      if last == c.maxLoopIterations { TurnOf(seen, judges, replies, c, i + 1); }
    }
  }

  /** With nodes that fill their stages, the critic excepted, and a cap beyond the
      empty ones, the fallback works through to its own stop if and only if no
      revision is pending at the start, no pass asks for one, and there is a
      critique at the start or from some pass before the cap. */
  lemma FallbackFinishesIff(seen: seq<State>, judges: seq<Judge>, replies: seq<Critic.Reply>, c: Config)
    requires FallbackRun(seen, judges, replies, c) && AllFill(seen, c) && c.maxLoopIterations > Empty(seen[0])
    ensures Decided(seen[|seen| - 1], c).stopReason == "llm_failed"
            <==> !RevisionPending(seen[0], c) && !Revised(seen, replies, c) && Critiqued(seen, replies, c)
  {
    LastTurn(seen, judges, replies, c);
    var last := |seen| - 1;
    if RevisionPending(seen[0], c) {
      RevisionStaysPending(seen, judges, replies, c, 0, last);
    } else if Revised(seen, replies, c) {
      var i :| 0 <= i < last && DefaultNextAction(seen[i], c).Critique? && Critic.Revises(seen[i], c, replies[i]);
      TurnOf(seen, judges, replies, c, i);
      RevisionStaysPending(seen, judges, replies, c, i + 1, last);
    } else if Critiqued(seen, replies, c) {
      EndsBeforeCap(seen, judges, replies, c);
    } else if last < c.maxLoopIterations {
      NonePending(seen, judges, replies, c, last);
      if seen[last].critique { CritiqueFrom(seen, judges, replies, c, last); }
    }
  }
}
