/** The critic of `src/agents/critic.py` and the fixed pipeline that loops on it. */
module Critic {
  import opened ResearchState

  /** The judge's reply. `asksRevision` is whether the field is the literal
      `true`, `target` what its text names once stripped and in lower case, and
      `critique` whether its text is more than white space. */
  datatype Reply = Unparseable | NotAnObject | Object(asksRevision: bool, target: Target, critique: bool)

  /** `critic_agent`: the state after a pass. */
  function CriticAgent(s: State, c: Config, r: Reply): State {
    if c.mockData then
      s.(critique := true, revisionNeeded := false, revisionTarget := NoTarget, iteration := s.iteration + 1)
    else
      var reply := if r.Object? then r else Object(false, NoTarget, false);
      var needed := reply.asksRevision && Routable(reply.target);
      var target := if needed then reply.target else NoTarget;
      var ceiling := s.iteration + 1 >= c.maxIterations;
      s.(critique := reply.critique,
         revisionNeeded := needed && !ceiling,
         revisionTarget := if ceiling then NoTarget else target,
         iteration := s.iteration + 1)
  }

  /** `route_after_critique`: the node a revision goes to, or none for the end. */
  function RouteAfterCritique(s: State): Target {
    if s.revisionNeeded && Routable(s.revisionTarget) then s.revisionTarget else NoTarget
  }

  /** A revision is asked for only with a node to go to and a pass left to make. */
  ghost predicate RevisionOk(s: State, c: Config) {
    if s.revisionNeeded then Routable(s.revisionTarget) && s.iteration < c.maxIterations
    else s.revisionTarget == NoTarget
  }

  /** What has to come together for a pass to ask for a revision. */
  predicate Revises(s: State, c: Config, r: Reply) {
    !c.mockData && r.Object? && r.asksRevision && Routable(r.target) && s.iteration + 2 <= c.maxIterations
  }

  /** Exactly when a pass asks for a revision, and that it can then be carried out. */
  lemma RevisionIff(s: State, c: Config, r: Reply)
    ensures RevisionOk(CriticAgent(s, c, r), c)
    ensures CriticAgent(s, c, r).revisionNeeded <==> Revises(s, c, r)
    ensures Revises(s, c, r) <==>
              && !c.mockData && r.Object? && r.asksRevision && r.target in {ToPlanner, ToSearch, ToSynthesizer}
              && s.iteration + 2 <= c.maxIterations
    ensures RouteAfterCritique(CriticAgent(s, c, r)) == if Revises(s, c, r) then r.target else NoTarget
  {
    var t := CriticAgent(s, c, r);
    if Revises(s, c, r) {
      assert t.revisionNeeded && t.revisionTarget == r.target;
    } else {
      assert !t.revisionNeeded && t.revisionTarget == NoTarget;
    }
  }

  /** The whole state after a pass: every pass counts, it leaves a critique iff the reply
      has one, it asks for what `Revises` says, and the rest is as it was. */
  lemma PassMeans(s: State, c: Config, r: Reply)
    ensures CriticAgent(s, c, r)
            == s.(critique := c.mockData || (r.Object? && r.critique), revisionNeeded := Revises(s, c, r),
                  revisionTarget := if Revises(s, c, r) then r.target else NoTarget, iteration := s.iteration + 1)
  {
    hide Routable;
  }

  /** The states in which a fixed-pipeline run reaches the critic: the first with
      the counter at zero, each further one because the pass before it routed
      back. The nodes in between may change anything but the counter. */
  ghost predicate FixedRun(visits: seq<State>, replies: seq<Reply>, c: Config) {
    && |visits| == |replies|
    && (visits != [] ==> visits[0].iteration == 0)
    && forall i :: 0 <= i < |visits| - 1 ==>
         var after := CriticAgent(visits[i], c, replies[i]);
         RouteAfterCritique(after) != NoTarget && visits[i + 1].iteration == after.iteration
  }

  lemma {:induction false} VisitNumber(visits: seq<State>, replies: seq<Reply>, c: Config, i: nat)
    requires FixedRun(visits, replies, c) && i < |visits|
    ensures visits[i].iteration == i && (i > 0 ==> i < c.maxIterations)
  {
    if i > 0 {
      VisitNumber(visits, replies, c, i - 1);
      RevisionIff(visits[i - 1], c, replies[i - 1]);
    }
  }

  /** Whatever the judge says, a run makes at most `max_iterations` passes, and
      the pass counter never exceeds its ceiling. */
  lemma PassesAreBounded(visits: seq<State>, replies: seq<Reply>, c: Config)
    requires c.maxIterations >= 1 && FixedRun(visits, replies, c)
    ensures |visits| <= c.maxIterations
    ensures forall i :: 0 <= i < |visits| ==> CriticAgent(visits[i], c, replies[i]).iteration <= c.maxIterations
  {
    forall i | 0 <= i < |visits|
      ensures CriticAgent(visits[i], c, replies[i]).iteration <= c.maxIterations
    {
      VisitNumber(visits, replies, c, i);
    }
    if visits != [] { VisitNumber(visits, replies, c, |visits| - 1); }
  }

  /** The bound is reached: a judge that always sends the run back gets exactly
      `max_iterations` passes. */
  lemma {:induction false} StubbornJudge(c: Config, s: State, ask: Reply, n: nat) returns (visits: seq<State>)
    requires !c.mockData && 1 <= n <= c.maxIterations && s.iteration == 0
    requires ask.Object? && ask.asksRevision && Routable(ask.target)
    ensures |visits| == n && FixedRun(visits, seq(n, _ => ask), c)
    decreases n
  {
    if n == 1 {
      visits := [s];
    } else {
      var before := StubbornJudge(c, s, ask, n - 1);
      VisitNumber(before, seq(n - 1, _ => ask), c, n - 2);
      RevisionIff(before[n - 2], c, ask);
      visits := before + [CriticAgent(before[n - 2], c, ask)];
    }
  }
}
