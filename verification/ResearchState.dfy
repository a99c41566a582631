/** The part of the workflow state that routing decisions read. */
module ResearchState {

  /** `revision_target`: one of the three nodes the critic can route to, nothing,
      or a text no router knows. */
  datatype Target = NoTarget | ToPlanner | ToSearch | ToSynthesizer | Elsewhere

  predicate Routable(t: Target) {
    t.ToPlanner? || t.ToSearch? || t.ToSynthesizer?
  }

  /** Of the lists and texts only whether they are non-empty is ever tested. */
  datatype State = State(
    subQuestions: bool,
    papers: bool,
    analyses: bool,
    draft: bool,
    critique: bool,
    evidence: bool,
    verified: bool,
    unsupportedClaims: bool,
    missingEvidence: bool,
    recommendation: bool,
    revisionNeeded: bool,
    revisionTarget: Target,
    iteration: nat,
    loopIterations: nat)

  const EMPTY := State(false, false, false, false, false, false, false, false, false, false, false, NoTarget, 0, 0)

  datatype Config = Config(
    maxIterations: nat,
    maxLoopIterations: nat,
    verifier: bool,
    queryRefiner: bool,
    evidenceStore: bool,
    mockData: bool,
    stateAware: bool)
}
