/** The supervisor loop of `src/agents/supervisor.py`: observe, decide, act. */
module Supervisor {
  import opened ResearchState
  import opened Wrappers
  import Critic

  datatype Action = Plan | Search | Read | Synthesize | Critique | Verify | RefineQuery | Stop

  /** What becomes of the routing call. `named` is the action the judge's text
      names, if it names one; `stopReason` its stripped text, empty when it is
      not a text. Control signals (cancellation, cost ceiling) are not absorbed,
      and a reply that is valid JSON but no object fails outside the handler. */
  datatype Judge =
    | Answer(named: Option<Action>, stopReason: string)
    | ProviderDown
    | Malformed
    | NotAnObject
    | Control

  datatype Decision = Decision(action: Action, stopReason: string, loopIterations: nat)

  predicate Available(a: Action, c: Config) {
    (a.Verify? ==> c.verifier) && (a.RefineQuery? ==> c.queryRefiner)
  }

  /** The action whose node a revision goes to. */
  function RevisionAction(target: Target): Action {
    match target
    case ToPlanner => Plan
    case ToSearch => Search
    case _ => Synthesize
  }

  /** A revision is wanted, routable, and has a critic pass left. */
  predicate RevisionPending(s: State, c: Config) {
    s.revisionNeeded && s.iteration < c.maxIterations && Routable(s.revisionTarget)
  }

  /** `_default_next_action`. */
  function DefaultNextAction(s: State, c: Config): Action {
    if RevisionPending(s, c) then
      RevisionAction(s.revisionTarget)
    else if !s.subQuestions then Plan
    else if !s.papers then Search
    else if !s.analyses then Read
    else if !s.draft then Synthesize
    else if !s.critique then Critique
    else Stop
  }

  predicate OutcomeRecorded(s: State) {
    s.verified || s.unsupportedClaims || s.missingEvidence || s.recommendation
  }

  /** `_state_aware_mock_next_action`. */
  function StateAwareNextAction(s: State, c: Config): Action {
    var fixed := DefaultNextAction(s, c);
    if fixed.Critique? && c.verifier && s.evidence && !OutcomeRecorded(s) then Verify else fixed
  }

  /** `_fall_back`. */
  function FallBack(s: State, c: Config, loopIter: nat): Decision {
    var action := DefaultNextAction(s, c);
    Decision(action, if action.Stop? then "llm_failed" else "", loopIter)
  }

  /** `supervisor_agent`. */
  function SupervisorAgent(s: State, c: Config, overBudget: bool, j: Judge): Result<Decision, ()> {
    var loopIter := s.loopIterations + 1;
    if loopIter > c.maxLoopIterations then Success(Decision(Stop, "max_iterations_reached", loopIter))
    else if overBudget then Success(Decision(Stop, "budget_reached", loopIter))
    else if c.mockData then
      var action := if c.stateAware then StateAwareNextAction(s, c) else DefaultNextAction(s, c);
      Success(Decision(action, if action.Stop? then "mock_mode" else "", loopIter))
    else
      match j
      case Control => Failure(())
      case NotAnObject => Failure(())
      case ProviderDown => Success(FallBack(s, c, loopIter))
      case Malformed => Success(FallBack(s, c, loopIter))
      case Answer(named, stopReason) =>
        if named.None? || !Available(named.value, c) then Success(FallBack(s, c, loopIter))
        else if !named.value.Stop? then Success(Decision(named.value, "", loopIter))
        else Success(Decision(Stop, if stopReason == "" then "supervisor_stop" else stopReason, loopIter))
  }

  /** Where `route_after_supervisor` sends a decision. */
  datatype Route = Node(action: Action) | Finished | DisabledAction | UnknownAction

  function RouteAfterSupervisor(a: Option<Action>, c: Config): Route {
    match a
    case None => UnknownAction
    case Some(Stop) => Finished
    case Some(action) => if Available(action, c) then Node(action) else DisabledAction
  }

  /** A fresh decision always routes: to a node, or to the end exactly when it is
      `stop`, and it carries a stop reason exactly then. */
  lemma DecisionRoutes(s: State, c: Config, overBudget: bool, j: Judge)
    requires SupervisorAgent(s, c, overBudget, j).Success?
    ensures var d := SupervisorAgent(s, c, overBudget, j).value;
            && RouteAfterSupervisor(Some(d.action), c) == (if d.action.Stop? then Finished else Node(d.action))
            && (d.stopReason != "" <==> d.action.Stop?)
            && d.loopIterations == s.loopIterations + 1
            && (!d.action.Stop? ==> s.loopIterations < c.maxLoopIterations && !overBudget)
  {
    var d := SupervisorAgent(s, c, overBudget, j).value;
    assert Available(DefaultNextAction(s, c), c);
    assert Available(StateAwareNextAction(s, c), c);
    assert Available(d.action, c);
  }

  /** The two ceilings stop the run before anything else is looked at, the loop's first. */
  lemma CeilingsStop(s: State, c: Config, overBudget: bool, j: Judge)
    requires s.loopIterations >= c.maxLoopIterations || overBudget
    ensures SupervisorAgent(s, c, overBudget, j)
            == Success(Decision(Stop, if s.loopIterations >= c.maxLoopIterations then "max_iterations_reached"
                                      else "budget_reached", s.loopIterations + 1))
  {
  }

  /** A judge below the ceilings that names an action which is switched on gets that
      action; its stop reason counts only for a stop, and has a default there. */
  lemma JudgeDecides(s: State, c: Config, j: Judge)
    requires s.loopIterations < c.maxLoopIterations && !c.mockData && j.Answer? && j.named.Some?
    requires (j.named == Some(Verify) ==> c.verifier) && (j.named == Some(RefineQuery) ==> c.queryRefiner)
    ensures SupervisorAgent(s, c, false, j).Success?
    ensures var d := SupervisorAgent(s, c, false, j).value;
            && d.action == j.named.value && d.loopIterations == s.loopIterations + 1
            && (!d.action.Stop? ==> d.stopReason == "")
            && (d.action.Stop? && j.stopReason != "" ==> d.stopReason == j.stopReason)
            && (d.action.Stop? && j.stopReason == "" ==> d.stopReason == "supervisor_stop")
  {
  }

  /** One that names nothing known, or an action that is switched off, is overruled by
      the fixed pipeline, and so is one that cannot be read or reached. */
  lemma JudgeOverruled(s: State, c: Config, j: Judge)
    requires s.loopIterations < c.maxLoopIterations && !c.mockData
    requires || j.ProviderDown? || j.Malformed? || (j.Answer? && j.named == None)
             || (j.Answer? && j.named == Some(Verify) && !c.verifier)
             || (j.Answer? && j.named == Some(RefineQuery) && !c.queryRefiner)
    ensures var action := DefaultNextAction(s, c);
            SupervisorAgent(s, c, false, j)
            == Success(Decision(action, if action.Stop? then "llm_failed" else "", s.loopIterations + 1))
  {
  }

  /** The fixed pipeline: a wanted revision with a pass left goes to its node, whatever
      stages are filled; without one, or with no pass left, the first empty stage is
      next, and after the last the run stops. */
  lemma PipelineOrder(s: State, c: Config)
    ensures s.revisionNeeded && s.iteration + 1 <= c.maxIterations ==>
              && (s.revisionTarget == ToPlanner ==> DefaultNextAction(s, c) == Plan)
              && (s.revisionTarget == ToSearch ==> DefaultNextAction(s, c) == Search)
              && (s.revisionTarget == ToSynthesizer ==> DefaultNextAction(s, c) == Synthesize)
    ensures !s.revisionNeeded || s.iteration >= c.maxIterations || s.revisionTarget in {NoTarget, Elsewhere} ==>
              var stages := [s.subQuestions, s.papers, s.analyses, s.draft, s.critique];
              var actions := [Plan, Search, Read, Synthesize, Critique];
              && (forall k :: 0 <= k < 5 && (forall i :: 0 <= i < k ==> stages[i]) && !stages[k] ==>
                    DefaultNextAction(s, c) == actions[k])
              && ((forall k :: 0 <= k < 5 ==> stages[k]) ==> DefaultNextAction(s, c) == Stop)
  {
    var stages := [s.subQuestions, s.papers, s.analyses, s.draft, s.critique];
    assert stages[0] == s.subQuestions && stages[1] == s.papers && stages[2] == s.analyses;
    assert stages[3] == s.draft && stages[4] == s.critique;
  }

  /** Exactly when there is no decision: the judge was asked, and the call ended
      in a control signal or in a reply that is no object. */
  lemma NoDecisionIff(s: State, c: Config, overBudget: bool, j: Judge)
    ensures SupervisorAgent(s, c, overBudget, j).Failure? <==>
              && (j.Control? || j.NotAnObject?)
              && !c.mockData && !overBudget && s.loopIterations < c.maxLoopIterations
  {
  }

  // ---- Whole runs, whatever the judge and the nodes do ----------------------

  /** A decision is made, by some judge, and its node runs. The node may change
      anything but the loop counter. */
  ghost predicate Turn(s: State, t: State, c: Config, over: bool, j: Judge) {
    && SupervisorAgent(s, c, over, j).Success?
    && RouteAfterSupervisor(Some(SupervisorAgent(s, c, over, j).value.action), c).Node?
    && t.loopIterations == SupervisorAgent(s, c, over, j).value.loopIterations
  }

  /** The states the supervisor sees, from a fresh loop counter on. */
  ghost predicate SupervisedRun(seen: seq<State>, over: seq<bool>, judges: seq<Judge>, c: Config) {
    && seen != [] && |over| == |judges| == |seen|
    && seen[0].loopIterations == 0
    && forall i :: 0 <= i < |seen| - 1 ==> Turn(seen[i], seen[i + 1], c, over[i], judges[i])
  }

  lemma {:induction false} LoopCounter(seen: seq<State>, over: seq<bool>, judges: seq<Judge>, c: Config, i: nat)
    requires SupervisedRun(seen, over, judges, c) && i < |seen|
    ensures seen[i].loopIterations == i <= c.maxLoopIterations
  {
    if i > 0 {
      LoopCounter(seen, over, judges, c, i - 1);
      assert Turn(seen[i - 1], seen[i], c, over[i - 1], judges[i - 1]);
      DecisionRoutes(seen[i - 1], c, over[i - 1], judges[i - 1]);
    }
  }

  /** A run executes at most `max_loop_iterations` actions, and once it has
      executed that many the next decision is to stop, whatever the judge says. */
  lemma ActionsAreBounded(seen: seq<State>, over: seq<bool>, judges: seq<Judge>, c: Config, o: bool, j: Judge)
    requires SupervisedRun(seen, over, judges, c)
    ensures |seen| - 1 <= c.maxLoopIterations
    ensures |seen| - 1 == c.maxLoopIterations ==>
              SupervisorAgent(seen[|seen| - 1], c, o, j)
              == Success(Decision(Stop, "max_iterations_reached", c.maxLoopIterations + 1))
  {
    LoopCounter(seen, over, judges, c, |seen| - 1);
  }

  /** On every state a critic pass leaves behind, and on every later one whose
      revision fields are untouched, the supervisor's own guard on the pass
      counter changes nothing: a wanted revision is what the fallback does. */
  lemma RevisionGuardIsImplied(s: State, c: Config, r: Critic.Reply, later: State)
    requires var t := Critic.CriticAgent(s, c, r);
             later.revisionNeeded == t.revisionNeeded && later.revisionTarget == t.revisionTarget
             && later.iteration == t.iteration
    ensures later.revisionNeeded ==>
              later.iteration < c.maxIterations
              && DefaultNextAction(later, c) == RevisionAction(r.target)
  {
    Critic.RevisionIff(s, c, r);
  }

  // ---- Mock mode ----------------------------------------------------------------

  /** What the mock nodes write. `claims` is whether the abstracts hold a claim. */
  function MockNode(s: State, c: Config, a: Action, claims: bool): State {
    match a
    case Plan => s.(subQuestions := true)
    case Search => s.(papers := true)
    case Read => s.(analyses := s.papers, evidence := if c.evidenceStore then claims else s.evidence)
    case Synthesize => s.(draft := true)
    case Critique => Critic.CriticAgent(s, c, Critic.Unparseable)
    case Verify =>
      s.(verified := true, unsupportedClaims := false, missingEvidence := false, recommendation := false)
    case _ => s
  }

  /** What the supervisor decides in mock mode, where no judge is asked and no
      cost arises. */
  function MockAction(s: State, c: Config): Action
    requires c.mockData
  {
    SupervisorAgent(s, c, false, Malformed).value.action
  }

  /** One turn of the loop in mock mode: decide, then run the node. */
  function MockTurn(s: State, c: Config, claims: bool): State
    requires c.mockData
  {
    MockNode(s, c, MockAction(s, c), claims).(loopIterations := s.loopIterations + 1)
  }

  /** The actions executed from `s` until the supervisor stops. */
  function MockTrace(s: State, c: Config, claims: bool): seq<Action>
    requires c.mockData
    decreases c.maxLoopIterations + 1 - s.loopIterations
  {
    if MockAction(s, c).Stop? then [] else [MockAction(s, c)] + MockTrace(MockTurn(s, c, claims), c, claims)
  }

  function One(b: bool): nat {
    if b then 1 else 0
  }

  /** Stages not done yet; a verification still possible counts as one. */
  function Unfinished(s: State): nat {
    One(!s.subQuestions) + One(!s.papers) + One(!s.analyses) + One(!s.draft) + One(!s.critique)
    + One(!s.critique && !OutcomeRecorded(s))
  }

  /** States of a mock run: no revision wanted, nothing read that was not found. */
  ghost predicate MockOk(s: State) {
    !s.revisionNeeded && (s.papers || !s.analyses)
  }

  lemma MockDecision(s: State, c: Config)
    requires c.mockData && s.loopIterations < c.maxLoopIterations
    ensures MockAction(s, c) == if c.stateAware then StateAwareNextAction(s, c) else DefaultNextAction(s, c)
  {
  }

  /** In mock mode every turn that is not a stop finishes a stage. */
  lemma MockTurnMakesProgress(s: State, c: Config, claims: bool, t: State)
    requires c.mockData && MockOk(s) && s.loopIterations < c.maxLoopIterations
    requires !MockAction(s, c).Stop? && t == MockTurn(s, c, claims)
    ensures MockOk(t) && Unfinished(t) < Unfinished(s)
  {
    hide *;
    MockDecision(s, c);
    TurnIs(s, c, claims);
    ProgressOf(s, c, claims, MockAction(s, c), t);
  }

  lemma ProgressOf(s: State, c: Config, claims: bool, a: Action, t: State)
    requires c.mockData && MockOk(s) && !a.Stop?
    requires a == DefaultNextAction(s, c) || a == StateAwareNextAction(s, c)
    requires t == MockNode(s, c, a, claims).(loopIterations := s.loopIterations + 1)
    ensures MockOk(t) && Unfinished(t) < Unfinished(s)
  {
  }

  /** A mock run from any such state ends within its unfinished stages. */
  lemma {:induction false} MockRunEnds(s: State, c: Config, claims: bool)
    requires c.mockData && MockOk(s)
    ensures |MockTrace(s, c, claims)| <= Unfinished(s)
    decreases c.maxLoopIterations + 1 - s.loopIterations
  {
    if s.loopIterations < c.maxLoopIterations && !MockAction(s, c).Stop? {
      MockTurnMakesProgress(s, c, claims, MockTurn(s, c, claims));
      MockRunEnds(MockTurn(s, c, claims), c, claims);
    }
  }

  /** The stages of a mock run from the empty state; verification is one of them
      exactly when the state-aware router, the verifier and evidence are there. */
  function FullTrace(c: Config, claims: bool): seq<Action> {
    [Plan] + ([Search] + ([Read] + ([Synthesize] + LastStages(c, claims))))
  }

  function LastStages(c: Config, claims: bool): seq<Action> {
    if c.stateAware && c.verifier && c.evidenceStore && claims then [Verify] + [Critique] else [Critique]
  }

  function Prefix(t: seq<Action>, n: int): seq<Action> {
    if n <= 0 then [] else if n < |t| then t[..n] else t
  }

  /** Puts one action in front of a run that is already known. */
  lemma MockStep(s: State, c: Config, claims: bool, a: Action, rest: seq<Action>)
    requires c.mockData && !a.Stop?
    requires a == if c.stateAware then StateAwareNextAction(s, c) else DefaultNextAction(s, c)
    requires s.loopIterations < c.maxLoopIterations ==>
               MockTrace(MockTurn(s, c, claims), c, claims)
               == Prefix(rest, c.maxLoopIterations - (s.loopIterations + 1))
    ensures MockTrace(s, c, claims) == Prefix([a] + rest, c.maxLoopIterations - s.loopIterations)
  {
    if s.loopIterations < c.maxLoopIterations { MockDecision(s, c); }
  }

  /** The states of a mock run after its first `k` actions, up to the draft. */
  function After(k: nat, c: Config, claims: bool): State {
    EMPTY.(subQuestions := k >= 1, papers := k >= 2, analyses := k >= 3, draft := k >= 4,
           evidence := k >= 3 && c.evidenceStore && claims, loopIterations := k)
  }

  lemma MockFromDraft(c: Config, claims: bool)
    requires c.mockData
    ensures MockTrace(After(4, c, claims), c, claims) == Prefix(LastStages(c, claims), c.maxLoopIterations - 4)
  {
    var s := After(4, c, claims);
    assert Unfinished(s.(critique := true, verified := true)) == 0;
    hide *;
    if c.maxLoopIterations > 4 {
      MockDecision(s, c);
      TurnIs(s, c, claims);
    }
    if c.stateAware && c.verifier && c.evidenceStore && claims {
      MockStep(s, c, claims, Verify, [Critique]);
    } else {
      MockStep(s, c, claims, Critique, []);
      assert [Critique] + [] == [Critique];
    }
  }

  /** The `k`th action of a mock run, counting from zero, up to the draft. */
  function Stage(k: nat): Action {
    if k == 0 then Plan else if k == 1 then Search else if k == 2 then Read else Synthesize
  }

  /** The `k`th action and the state it leads to. */
  lemma StageTurn(k: nat, c: Config, claims: bool)
    requires c.mockData && k < 4
    ensures !Stage(k).Stop? && After(k, c, claims).loopIterations == k
    ensures DefaultNextAction(After(k, c, claims), c) == Stage(k) == StateAwareNextAction(After(k, c, claims), c)
    ensures MockNode(After(k, c, claims), c, Stage(k), claims).(loopIterations := k + 1) == After(k + 1, c, claims)
  {
    if k == 0 {
    } else if k == 1 {
    } else if k == 2 {
    } else {
    }
  }

  lemma MockStageStep(k: nat, c: Config, claims: bool, rest: seq<Action>)
    requires c.mockData && k < 4
    requires MockTrace(After(k + 1, c, claims), c, claims) == Prefix(rest, c.maxLoopIterations - (k + 1))
    ensures MockTrace(After(k, c, claims), c, claims) == Prefix([Stage(k)] + rest, c.maxLoopIterations - k)
  {
    hide *;
    var s := After(k, c, claims);
    StageTurn(k, c, claims);
    if c.maxLoopIterations > k {
      MockDecision(s, c);
      TurnIs(s, c, claims);
    }
    MockStep(s, c, claims, Stage(k), rest);
  }

  lemma TurnIs(s: State, c: Config, claims: bool)
    requires c.mockData
    ensures MockTurn(s, c, claims) == MockNode(s, c, MockAction(s, c), claims).(loopIterations := s.loopIterations + 1)
  {
    hide MockNode, MockAction;
  }

  /** From the empty state a mock run is exactly that list of actions, or its
      beginning as far as the loop cap reaches. */
  lemma MockTraceFromEmpty(c: Config, claims: bool)
    requires c.mockData
    ensures MockTrace(EMPTY, c, claims) == Prefix(FullTrace(c, claims), c.maxLoopIterations)
  {
    hide *;
    var last := LastStages(c, claims);
    MockFromDraft(c, claims);
    MockStageStep(3, c, claims, last);
    MockStageStep(2, c, claims, [Stage(3)] + last);
    MockStageStep(1, c, claims, [Stage(2)] + ([Stage(3)] + last));
    MockStageStep(0, c, claims, [Stage(1)] + ([Stage(2)] + ([Stage(3)] + last)));
    TraceBegins(c, claims);
  }

  lemma TraceBegins(c: Config, claims: bool)
    ensures After(0, c, claims) == EMPTY
    ensures FullTrace(c, claims) == [Stage(0)] + ([Stage(1)] + ([Stage(2)] + ([Stage(3)] + LastStages(c, claims))))
  {
    hide LastStages;
  }
}
