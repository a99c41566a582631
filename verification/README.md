# Verified models of the research assistant's core logic

Dafny models of the parts of the repository whose correctness depends on whole
runs: a worklist, two rate limiters and the fleet that combines them, a retry
token bucket, nested-lock thread accounting, two agent loops, two text
splitters, an admin sweep, conversation stores, query deduplication, and the
path from load-time validation to the request that is sent. Each model takes
the same branches in the same order as the code it cites, and the theorems are
about every input or every run.

`dafny verify dfyconfig.toml` checks everything.

| file | models |
|---|---|
| `RuntimeLock.dfy` | `scripts/derive_runtime_lock.py`: the dependency closure and the lock file |
| `MemoryLimiter.dfy`, `Windows.dfy` | `src/api/auth.py`: the in-memory limiter |
| `RedisLimiter.dfy`, `FleetLimiter.dfy`, `FleetBounds.dfy`, `FleetRuns.dfy` | `src/api/auth.py`: the Redis limiter as an object; a fleet of workers with their fallbacks as interleaved steps; what connects the two, and the worst case |
| `RetryBudget.dfy`, `RetryEnvelope.dfy` | `src/resilience.py`, `src/llm.py`, `src/agents/synthesizer.py`: token bucket and retry envelopes |
| `Cancellation.dfy`, `ZombieCounter.dfy`, `CancelTokens.dfy`, `Arithmetic.dfy` | `src/cancellation.py`: as interleaved steps, what the counter says in their runs, and as objects whose calls are runs of those steps |
| `ResearchState.dfy`, `Critic.dfy`, `Supervisor.dfy`, `SupervisorFallback.dfy` | `src/agents/critic.py`, `src/agents/supervisor.py`, `src/graph/workflow.py` and the mock nodes |
| `SizeCap.dfy`, `Sentences.dfy`, `TextSpans.dfy`, `Text.dfy` | `src/api/retriever.py`, `src/agents/mock_mode.py`: the splitters, over Python's white space |
| `ModelTable.dfy`, `RequestProfile.dfy` | `src/llm_models.py`, `src/config.py`, `src/llm.py` |
| `QueryRefiner.dfy` | `src/agents/query_refiner.py` |
| `AdminSweep.dfy`, `AdminRace.dfy` | `src/api/admin_migrate.py`, the Redis half; one row of it beside other clients |
| `Conversations.dfy`, `PostgresAppends.dfy` | `src/api/conversations.py` |
| `Wrappers.dfy` | `Option` and `Result` |

Time stamps, tokens and costs are reals. Clocks, the network, model replies and
`SCAN`'s choices are arguments, so a theorem holds whatever they are. Every
assumption on a clock is a named hypothesis: an ordered clock, or for the fleet
a lag. What the window bounds of the limiters and the grant bound of the token
bucket become without an ordered clock is stated exactly; the theorems on single
admissions, Retry-After in memory, reads of the bucket and refusals are for
ordered clocks.

Numeric hypotheses are the ranges that `Settings` enforces at load: a limit of at
least 1 (src/config.py:704-707), at least one critic pass (src/config.py:317-321),
a retry count from 0 and a positive timeout (src/config.py:257-267), a bucket of
at least one token with positive refill and refund (src/config.py:510-534).

## Model

| member | source | states |
|---|---|---|
| RuntimeLock.Walk.Activate | scripts/derive_runtime_lock.py:106-113 | `activate` raises one name's extras and queues it exactly when that is news |
| RuntimeLock.RequirementApplies | scripts/derive_runtime_lock.py:71-90 | a requirement applies iff it has no marker, or the base context or some active extra makes the marker true |
| RuntimeLock.Walk.ActivateRoots | scripts/derive_runtime_lock.py:115-119 | the project's own applicable requirements are covered when the walk starts, and the loop invariant holds |
| RuntimeLock.Walk.Visit | scripts/derive_runtime_lock.py:130-134 | one visit keeps the walk's invariant even when the visited name raises its own extras on the way; nothing is queued without a new fact |
| RuntimeLock.Walk.VisitNext | scripts/derive_runtime_lock.py:122-134 | a turn either gains a fact or shortens the queue; a missing distribution is reported without changing anything |
| RuntimeLock.Walk.Drain | scripts/derive_runtime_lock.py:122-134 | the loop ends, with the least closed assignment, or with a name that every closure needs and nobody installed |
| RuntimeLock.RuntimeDistributionNames | scripts/derive_runtime_lock.py:93-136 | the result is exactly the names of the least assignment closed under the applicable requirements |
| RuntimeLock.RaiseKeepsConsistent | scripts/derive_runtime_lock.py:106-113 | an activation, also of the name being visited, keeps the invariant: what is not queued was visited under the extras it has now |
| RuntimeLock.ApplicableIsForced | scripts/derive_runtime_lock.py:71-90 | the rule is monotone: what applies under some extras is covered in every closed assignment above them |
| RuntimeLock.QuietIsLeast | scripts/derive_runtime_lock.py:122-136 | with an empty queue the invariant says that the assignment is the least closed one |
| RuntimeLock.LeastClosedIsUnique | scripts/derive_runtime_lock.py:93-136 | there is only one least closed assignment |
| RuntimeLock.LeastClosedInAnyOrder | scripts/derive_runtime_lock.py:115-134 | it does not depend on the order or repetition of listed requirements |
| RuntimeLock.LockedLines | scripts/derive_runtime_lock.py:42-68 | all pins iff every requirement is an exact pin and no two pin the same name; else the error of the first line that fails |
| RuntimeLock.RenderRuntimeLock | scripts/derive_runtime_lock.py:139-158 | the pins of exactly the closure, or which closure members lack a pin, or the first failure before that; of any two names listed the first is a proper prefix of the second or has the smaller character where they first differ |
| RuntimeLock.RuntimeLockIsUnique | scripts/derive_runtime_lock.py:139-158 | two renderings from the same pins and requirements, however ordered, are the same lines |
| Text.LexIsPythonOrder | scripts/derive_runtime_lock.py:151-157 | the comparison behind every sorted list is Python's: prefix, or smaller character at the first difference |
| MemoryLimiter.InMemoryRateLimiter.CheckAndRecord | src/api/auth.py:272-295 | the popping loop and the cap on one key's deque compute `Check`; other keys are untouched |
| MemoryLimiter.StepKeepsSuffix | src/api/auth.py:272-295 | on any clock one call keeps: the deque is the end of all admissions, and what it dropped is outside the window of the latest stamp |
| MemoryLimiter.StepKeepsLiveSuffix | src/api/auth.py:272-295 | on an ordered clock it is the sorted suffix of all admissions that is still in the window |
| MemoryLimiter.StepKeepsLateSuffix | src/api/auth.py:272-295 | with stamps late by at most d every closed window of width w - d holds at most `limit` |
| MemoryLimiter.DequeIsLiveSuffix | src/api/auth.py:256-295 | after any run with a nondecreasing clock the deque is the live suffix of the full history |
| MemoryLimiter.AdmittedIff | src/api/auth.py:280-295 | a request is admitted iff the full history has fewer than `limit` entries in the closed window that ends at it |
| MemoryLimiter.WindowBound | src/api/auth.py:256-295 | over every run with stamps late by at most d no closed window of width w - d, wherever it starts, holds more than `limit` admissions; d = 0 is the ordered clock |
| MemoryLimiter.WindowBoundIff | src/api/auth.py:278-295 | for a limit of two or more: all runs late by at most d keep every closed window of width v to the limit iff v <= w - d (or v < 0) |
| MemoryLimiter.LimitOneBoundIff | src/api/auth.py:278-295 | for a limit of one the bound holds on any clock, for exactly the widths up to w |
| MemoryLimiter.RetryAfterSuffices | src/api/auth.py:284-293 | with nothing admitted meanwhile a later request is admitted iff it waited longer than the needed wait; the header exceeds that by at most a second (section 10.2.3 of RFC 9110) |
| MemoryLimiter.LateStampBreaks | src/api/auth.py:278-282 | the run that breaks a wider window: `limit` submits at one moment, one that pushes them out of the deque, and one d before it |
| MemoryLimiter.KeysAreIndependent | src/api/auth.py:281 | however keys interleave, each sees a limiter of its own |
| FleetLimiter.RecentAreCounted | src/api/auth.py:408-418 | as long as the lag is kept the transaction counts every admission of a window of width w less the lag around its stamp, and the new member |
| FleetLimiter.ExpiryKeepsShared | src/api/auth.py:413 | what the key's expiry drops was out of every window for the 60 seconds of grace, less what stamps run ahead of the server |
| FleetLimiter.StepKeepsInv | src/api/auth.py:354-427 | every step of the fleet, failures and lost replies included, keeps the invariant of shared set, fallbacks and logs |
| FleetLimiter.RunInv | src/api/auth.py:354-427 | the invariant holds in every state of every run |
| FleetBounds.RedisWindowBound | src/api/auth.py:390-427 | no half-open window of width w less the total lag holds more than `limit` submits admitted through Redis, for any interleaving, expiries and pending rollbacks; the lag bounds how late a stamp is behind the latest and behind the key's last expiry, and how far it runs ahead of the server |
| FleetBounds.OutageWindowBound | src/api/auth.py:325-328 | a fleet of n workers admits at most n * limit submits in a window on top of what Redis admitted in it, so n * limit when that is nothing |
| FleetBounds.FleetWindowBound | src/api/auth.py:343-388 | with Redis failing at any point a fleet of n workers admits at most (n + 1) * limit submits in any window |
| FleetBounds.AdmittedIff | src/api/auth.py:408-418 | Redis admits a submit iff admissions and phantoms in the window of the clock are together fewer than `limit`; with a lag below the window every phantom was counted and not admitted: its rollback is to come or was lost, or its reply was |
| FleetBounds.AdmittedIffQuiet | src/api/auth.py:408-418 | with no rollback pending and nothing lost, and a lag below the window: iff fewer than `limit` admissions are in the window |
| FleetRuns.RedisWindowBoundIff | src/api/auth.py:363-427 | lag costs exactly its total, for every limit: all runs that keep to it keep every window of width v to the limit iff v <= w - total (or v <= 0), the total being the lateness between stamps or, if more, lateness after an expiry plus running ahead, less the 60 seconds of grace |
| FleetRuns.SpuriousRefusal | src/api/auth.py:416-419 | for every limit there is a run in which a submit is refused with no admission at all in its window, because others over the cap are not rolled back yet |
| RedisLimiter.Redis.PruneAddCount | src/api/auth.py:408-414 | the transaction: prune, then add, then count, then set the key's time to live |
| RedisLimiter.RedisRateLimiter.constructor | src/api/auth.py:331-349 | one fallback, with the same limit and window, kept for the limiter's lifetime |
| RedisLimiter.RedisRateLimiter.Count | src/api/auth.py:390-427 | admitted under the cap; over it the member is taken back and the header comes from the oldest member; an error of any round trip with what it leaves behind |
| RedisLimiter.RedisRateLimiter.CheckAndRecord | src/api/auth.py:354-388 | only an error makes the fallback look at the submit, and then it decides; other keys are untouched |
| RedisLimiter.LaterAdmittedIff | src/api/auth.py:408-418 | of any set, just full, overfull or neither, a later submit is admitted iff fewer than `limit` members outlive its window |
| RedisLimiter.SufficesIff | src/api/auth.py:420-427 | a wait is enough, whoever takes members back meanwhile, iff fewer than `limit` members outlive it |
| RedisLimiter.RetryAfterSuffices | src/api/auth.py:420-427 | the header covers the oldest member's window by at most a second; it is enough iff fewer than `limit` members outlive it, as when the set is just full |
| RedisLimiter.JustFullAdmitsIff | src/api/auth.py:420-427 | of a set that is just full a later submit is admitted iff the oldest member's window has ended |
| RedisLimiter.WholeWindowSuffices | src/api/auth.py:408-418 | waiting a whole window is always enough, however many phantoms overfill the set |
| FleetRuns.CallIsSteps | src/api/auth.py:354-427 | whatever fails, a call that nobody interrupts is a run of the fleet: same set, same deque, same answer |
| FleetRuns.ReachedInRun | src/api/auth.py:354-427 | what steps reach from an initial state is the last state of a run |
| FleetRuns.FleetBoundIsReached | src/api/auth.py:343-388 | the bounds are the best possible: from every initial state a run admits r + n * limit submits at one moment, any r up to `limit` of them by Redis |
| FleetRuns.DocumentedBoundIff | src/api/auth.py:325-328 | n * limit is guaranteed for the windows in which Redis admitted r submits iff r = 0 |
| RetryBudget.RetryBudget.RefillLocked | src/resilience.py:200-206 | the lazy, saturating refill, which moves the last-refill time unconditionally |
| RetryBudget.RetryBudget.TrySpend | src/resilience.py:208-223 | granted iff the refilled tokens cover the cost, which is all that is then taken; a refusal takes nothing and is counted |
| RetryBudget.RetryBudget.OnSuccess | src/resilience.py:225-229 | the refund on success, up to capacity |
| RetryBudget.RetryBudget.Tokens | src/resilience.py:231-236 | reading refills and returns the tokens |
| RetryBudget.TokensStayInBounds | src/resilience.py:193-236 | over every run, on any clock, tokens stay in [0, capacity] |
| RetryBudget.Ledger | src/resilience.py:193-236 | over every run, on any clock, what is granted, what is left and what a full bucket could not hold add up to what was there, the forward refill and the refunds |
| RetryBudget.NothingLostIff | src/resilience.py:206-229 | granted cost and what is left are exactly what was there and what came in iff no refill or refund of the run meets the capacity |
| RetryBudget.TwoSpends | src/resilience.py:208-223 | two spends at one moment are both granted iff the tokens there cover both |
| RetryBudget.CostIsPaidFor | src/resilience.py:193-236 | for every clock granted cost and what is left come out of what was there, the clock's forward movements and refunds |
| RetryBudget.GrantBoundAnyClock | src/resilience.py:193-236 | for every clock granted cost is at most capacity + refill * forward clock movement + refund * successes |
| RetryBudget.GrantBoundIff | src/resilience.py:193-236 | for fixed call times: on every stretch and for all calls granted cost is at most capacity + refill * elapsed + refund * successes iff the times never decrease |
| RetryBudget.RefillComposes | src/resilience.py:200-206 | saturating refill composes: a look in between changes nothing later |
| RetryBudget.ReadsChangeNoGrant | src/resilience.py:231-236 | erasing every read of the tokens from a run changes no answer |
| RetryBudget.SameGrants | src/resilience.py:231-236 | two runs that differ only in where tokens are read grant the same |
| RetryBudget.RefusalEnds | src/resilience.py:208-223 | a refused caller is granted later iff the missing tokens have refilled |
| RetryBudget.BackwardStepMints | src/resilience.py:204 | at any backward step the single next call, for a full bucket, exceeds the allowance of its stretch |
| RetryEnvelope.ClampIsLargestThatFits | src/resilience.py:413-427 | the clamp is the largest count up to the configured one whose worst case fits the budget, or 0 |
| RetryEnvelope.EnvelopesAgree | src/llm.py:149-178 | the two envelopes agree iff the configured count is not negative |
| RetryEnvelope.ChainFitsJob | src/llm.py:149-178 | a call chain stays within 0.75 of the job unless one attempt alone is longer |
| RetryEnvelope.CallWithOneRetry | src/agents/synthesizer.py:417-508 | one or two calls; the second iff the first was unusable and fits; then the pair stays within the budget if that call respects its worst case |
| RetryEnvelope.NodeFitsJob | src/agents/synthesizer.py:81-148 | the whole node stays within the budget, or within one attempt longer than it |
| Cancellation.StepKeepsInv | src/cancellation.py:83-108 | every micro-step of enter, exit and abandon, with both locks, keeps: the counter is what the tokens account for |
| Cancellation.ClampNeverFires | src/cancellation.py:87-93 | the clamp at zero never changes what is written |
| ZombieCounter.AbandonedIff | src/cancellation.py:227-240 | in every state of every run a token is abandoned iff `abandon` was called on it |
| ZombieCounter.RunningIff | src/cancellation.py:168-197 | a node is running iff an earlier enter gave out its handle and no exit has given it back since |
| ZombieCounter.CounterWhenQuiet | src/cancellation.py:168-244 | whenever no token lock is held the counter is the number of nodes still running whose token has been abandoned, plus what repeated abandons counted twice |
| ZombieCounter.CounterBetweenSteps | src/cancellation.py:96-108 | at any moment it is off by exactly the deltas not yet applied |
| ZombieCounter.CounterIsExactIff | src/cancellation.py:227-244 | in a quiet state the counter is exactly the number of running nodes of tokens abandoned at some step iff no step abandoned a token a second time while it had nodes running |
| ZombieCounter.CounterReturnsToZero | src/cancellation.py:186-197 | without such a step the counter is never negative, and in a quiet state 0 iff every abandoned node has returned |
| CancelTokens.AbandonedNodes.Adjust | src/cancellation.py:87-93 | the counter moves by the delta, clamped at zero |
| CancelTokens.CancelToken.Cancel | src/cancellation.py:135-145 | the first reason wins and the token stays set |
| CancelTokens.CancelToken.EnterNode | src/cancellation.py:168-184 | the next handle is registered under the name, and counted iff the token was abandoned |
| CancelTokens.CancelToken.ExitNode | src/cancellation.py:186-197 | a running handle is removed, and uncounted iff the token was abandoned; any other handle changes nothing |
| CancelTokens.CancelToken.Abandon | src/cancellation.py:227-244 | the token is abandoned, its running nodes stay registered, every one of them is counted, and they are named in the order of their handles |
| CancelTokens.CancelToken.RunningNodes | src/cancellation.py:199-202 | the name of every running node, once, in the order of their handles |
| CancelTokens.NamesAreAll | src/cancellation.py:199-202 | the names list every running node exactly once, in start order |
| CancelTokens.SilentCallIsSteps | src/cancellation.py:168-197 | an uninterrupted call that leaves the counter alone is a run of the step machine |
| CancelTokens.CountedCallIsSteps | src/cancellation.py:87-93 | so is one that moves it, with the process lock taken inside the token's |
| Critic.RevisionIff | src/agents/critic.py:174-231 | exactly when a pass asks for a revision; it then has a routable target and a pass left |
| Critic.PassMeans | src/agents/critic.py:174-231 | the whole state after a pass: it always counts, leaves a critique iff the reply has one, and touches nothing but the revision fields besides |
| Critic.VisitNumber | src/graph/workflow.py:118-140 | the pass counter counts the visits of a fixed-pipeline run |
| Critic.PassesAreBounded | src/agents/critic.py:200-217 | whatever the judge says a run makes at most `max_iterations` passes |
| Critic.StubbornJudge | src/agents/critic.py:200-217 | the bound is reached by a judge that always sends the run back |
| Supervisor.DecisionRoutes | src/agents/supervisor.py:401-630 | a fresh decision routes to a node, or ends the run exactly when it is `stop`; the stop reason is non-empty exactly then |
| Supervisor.CeilingsStop | src/agents/supervisor.py:422-463 | the loop cap, then the budget, stop the run before anything else is looked at |
| Supervisor.JudgeDecides | src/agents/supervisor.py:574-600 | below the ceilings the action a judge names is decided if it is switched on; its stop reason counts for a stop only, and has a default there |
| Supervisor.JudgeOverruled | src/agents/supervisor.py:538-590 | a judge that cannot be reached or read, or names nothing known or an action that is switched off, is overruled by the fixed pipeline |
| Supervisor.PipelineOrder | src/agents/supervisor.py:272-298 | the fixed pipeline: a wanted revision with a pass left first, then the first empty stage, then the stop |
| Supervisor.NoDecisionIff | src/agents/supervisor.py:538-572 | there is no decision iff the judge was asked and the call ended in a control signal or a reply that is no object |
| Supervisor.LoopCounter | src/agents/supervisor.py:422-437 | the loop counter counts the turns of a run and stays within its cap |
| Supervisor.ActionsAreBounded | src/agents/supervisor.py:422-437 | a run executes at most `max_loop_iterations` actions, and then stops whatever the judge says |
| Supervisor.RevisionGuardIsImplied | src/agents/supervisor.py:279-286 | after any critic pass the supervisor's own guard is implied: a wanted revision is what the fallback does |
| SupervisorFallback.UnusableFallsBack | src/agents/supervisor.py:538-590 | an unusable judge leaves the decision to the loop cap and the fixed pipeline |
| SupervisorFallback.RevisionRunsToCap | src/agents/supervisor.py:279-286 | when only the fallback routes, a revision pending at the start makes the whole run one action, as often as the cap allows, ended by the cap |
| SupervisorFallback.EmptyCritiqueRunsToCap | src/agents/critic.py:195 | a run that starts with the critic, and whose passes before the last leave neither a critique nor a revision, asks the critic until the cap |
| SupervisorFallback.FallbackStuckIff | src/agents/supervisor.py:272-298 | with nodes that fill their stages, the critic excepted, a run repeats one action up to the cap iff it starts with a revision pending, or with the critic and every pass but the last leaves nothing |
| SupervisorFallback.FallbackFinishesIff | src/agents/supervisor.py:272-298 | with nodes that fill their stages, the critic excepted, the fallback works through to its own stop iff no revision is pending at the start, no pass asks for one, and there is a critique at the start or from a pass before the cap |
| Supervisor.MockTurnMakesProgress | src/agents/supervisor.py:464-478 | in mock mode every turn that is not a stop strictly reduces the unfinished stages |
| Supervisor.MockRunEnds | src/agents/supervisor.py:464-478 | so a mock run ends within its unfinished stages |
| Supervisor.MockTraceFromEmpty | src/agents/supervisor.py:272-325 | from the empty state the trace is plan, search, read, synthesize, verify iff router, flag and evidence are there, critique, or its prefix at the loop cap |
| SizeCap.NextSep | src/api/retriever.py:97 | the first paragraph break at or after a place |
| SizeCap.HardSplit | src/api/retriever.py:102-110 | an oversize paragraph is cut every `max` characters |
| SizeCap.PackParagraphs | src/api/retriever.py:98-117 | the packing loop computes the greedy packing |
| SizeCap.SizeCap | src/api/retriever.py:89-117 | a text that fits is one chunk; otherwise the greedy packing, no chunk empty or longer than the maximum; for every text each character that is not white space is in exactly one chunk, in order |
| SizeCap.ParagraphsAreClean | src/api/retriever.py:97 | paragraphs are stripped, non-empty and contain no break |
| SizeCap.ParagraphsCoverText | src/api/retriever.py:97 | for every text the paragraphs are ordered, disjoint, verbatim slices of it with only white space outside them |
| SizeCap.ParagraphBreaks | src/api/retriever.py:97 | two line feeds in a row stand between any two paragraphs and in none |
| SizeCap.ParagraphsKeepInk | src/api/retriever.py:97 | put together the paragraphs have the characters of the text that are not white space, in order |
| SizeCap.JoinedSplitsBack | src/api/retriever.py:97-112 | joining paragraphs and splitting again gives the same paragraphs |
| SizeCap.SlicesOf | src/api/retriever.py:108-109 | the slices put together are the paragraph; each is non-empty, and all but the last have exactly `max` characters |
| SizeCap.GreedyIsPacking | src/api/retriever.py:98-117 | the chunks reproduce the paragraphs in order, nothing lost or repeated |
| SizeCap.GreedyChunkSizes | src/api/retriever.py:98-117 | every chunk has between 1 and `max` characters |
| SizeCap.GreedyFills | src/api/retriever.py:111-115 | a chunk of whole paragraphs is full: the next paragraph does not fit any more |
| SizeCap.GreedyStaysAhead | src/api/retriever.py:111-115 | no packing of all paragraphs uses fewer chunks than greedy does on any suffix |
| SizeCap.GreedyIsFewest | src/api/retriever.py:98-117 | greedy uses the fewest chunks of all order-preserving packings |
| SizeCap.GroupsSplitBack | src/api/retriever.py:111-117 | every chunk that is no slice splits back into the paragraphs that went into it |
| Sentences.ScanSpans | src/agents/mock_mode.py:386-395 | the character loop returns the stripped pieces between sentence ends |
| Sentences.SplitSentences | src/agents/mock_mode.py:364-396 | the scan returns verbatim slices with only white space outside them, one ending at every period that white space or the end of the text follows, all but the last ending there, none with such a period before its last character |
| Sentences.SentencesCoverText | src/agents/mock_mode.py:364-396 | sentences are ordered, disjoint, verbatim slices, and every character outside them is white space |
| Sentences.SentenceEnds | src/agents/mock_mode.py:386-395 | the same of the recursive definition, which every other law of the scan is about |
| Sentences.SentencesAreAtomic | src/agents/mock_mode.py:386-395 | every sentence is trimmed with no end inside, and all but the last end in a period |
| Sentences.JoinedScansBack | src/agents/mock_mode.py:364-396 | scanning such a list joined by spaces gives the list |
| Sentences.RoundTrip | src/agents/mock_mode.py:364-396 | for all texts: the sentences joined by spaces scan to the same sentences, and each sentence to itself |
| Sentences.ScanImage | src/agents/mock_mode.py:364-396 | the lists a scan can return are exactly those |
| Text.StripIs | src/agents/mock_mode.py:393 | `strip` is the one trimmed slice with only white space around it |
| Text.SpacesAre | src/agents/mock_mode.py:391 | white space is the 29 code points of `str.isspace` |
| ModelTable.LongestPrefixMatch | src/llm_models.py:287-316 | the loop finds the longest fitting key whatever the order of the table |
| ModelTable.LongestFitIsLongest | src/llm_models.py:287-316 | that key is the longest of all that fit, and unique |
| ModelTable.Lookup | src/llm_models.py:319-347 | exact row, else longest snapshot row, else family row, else the conservative one, in any table order |
| ModelTable.KnownRow | src/llm_models.py:319-340 | a model gets its own row, else that of the longest known id that it continues with a `-` |
| ModelTable.FamilyRow | src/llm_models.py:340-347 | else that of the longest family prefix, which may be the whole id, else a row that allows nothing |
| ModelTable.SnapshotHasKnownRow | src/llm_models.py:319-347 | a dated snapshot or point release of a known id gets a row of the known table |
| RequestProfile.CheckRequestProfile | src/config.py:2199-2266 | passes iff thinking and every effort are supported where they would reach; otherwise blames the first offender in order |
| RequestProfile.CheckEffort | src/config.py:2239-2265 | one agent's effort passes iff every model it would reach lists the level; else names the agent and the first model that does not |
| RequestProfile.CheckTierEffort | src/config.py:2391-2443 | passes iff every tier override is well formed and supported; otherwise names the first bad key and what is wrong |
| RequestProfile.PartitionAtDot | src/config.py:2412 | the key built at call time splits at load time into the tier and agent it was built from |
| RequestProfile.EffortPrecedence | src/config.py:2157-2165 | the tier's override, else the agent's own level, nothing when that is `off`, else the default; without an agent the default |
| RequestProfile.CheckedModels | src/config.py:2180-2196 | which models the checks look at, and which of them the default effort reaches |
| RequestProfile.NamedAgentGetsWhatIsConfigured | src/llm.py:320-363 | for every accepted configuration a named agent's call to its model sends the configured thinking and the effort of the first source that has one: tier override, own level or `off`, default |
| RequestProfile.AgentlessEffortIff | src/config.py:2180-2196 | acceptance rules out that an agentless call's effort is dropped iff some check looks at the base model |
| RequestProfile.BuildRequestKwargs | src/llm.py:366-421 | the assembled fields, absent rather than null |
| RequestProfile.RequestIsAllowed | src/llm.py:320-421 | for any model id and any settings the value of every field of a request; an optional one is there iff the operator enabled it and the row allows it |
| RequestProfile.RefusedTierTextSendsNothing | src/config.py:2159-2161 | a refused tier text outranks the agent's own effort all the same, and nothing is sent |
| QueryRefiner.FreshQueries | src/agents/query_refiner.py:193-209 | the loop keeps the new queries in order |
| QueryRefiner.FreshIsFresh | src/agents/query_refiner.py:193-209 | what is kept is new and distinct, and what is dropped is known or repeated |
| QueryRefiner.FreshKeepsFirstOffers | src/agents/query_refiner.py:193-209 | the reply's order is kept, and of several spellings the first |
| QueryRefiner.SameQuery | src/agents/query_refiner.py:74-76 | texts that differ in outer white space only, or that lower-casing makes equal, are one query, and no others |
| QueryRefiner.QueryRefinerAgent | src/agents/query_refiner.py:147-228 | a reply that is no object fails outside the handler; any other call gives the new batch with the outgoing one moved to the history, or both lists as they were |
| QueryRefiner.RefineMeans | src/agents/query_refiner.py:184-228 | both lists stay as they are iff the reply offers nothing new; otherwise the batch is new and the outgoing one moves to the history |
| QueryRefiner.RefineReadsFirst | src/agents/query_refiner.py:198-209 | a new batch comes from the first `max` items only, and every text among them is known afterwards |
| QueryRefiner.NeverTwice | src/agents/query_refiner.py:193-209 | over any run no query is put in flight twice: nothing in a new batch equals, once stripped and lower-cased, anything that was ever in flight or in the history |
| QueryRefiner.KnownGrows | src/agents/query_refiner.py:147-228 | over any run the known queries only grow and the history only gets longer at its end |
| QueryRefiner.HistoryGrowsByOutgoingBatch | src/agents/query_refiner.py:215-218 | a successful step extends the history by exactly the outgoing batch, strictly after another success |
| QueryRefiner.HistoryStaysDistinct | src/agents/query_refiner.py:193-218 | a run that starts without repeats has none |
| AdminSweep.ScanNullOwnerJobs | src/api/admin_migrate.py:355-424 | the two loops collect what one pass over the flattened batches collects, up to the limit |
| AdminSweep.CollectedMatches | src/api/admin_migrate.py:355-424 | only matching rows are collected, at most `limit`, and without truncation all that came by |
| AdminSweep.CollectedFields | src/api/admin_migrate.py:395-416 | on the fields: jobs without an owner from before the cut-off, and without truncation all of those |
| AdminSweep.TruncatedIff | src/api/admin_migrate.py:404-406 | a sweep is truncated iff matching keys come by more often than the limit |
| AdminSweep.VisitsAtLeast | src/api/admin_migrate.py:395-416 | there is a visit for every matching key that comes by, and more visits than keys if one comes by again |
| AdminSweep.TruncatedMeansMoreRows | src/api/admin_migrate.py:163 | when SCAN repeats no key the flag means that more rows match than the limit |
| AdminSweep.TruncatedMeansMoreRowsIff | src/api/admin_migrate.py:163 | for every limit and cut-off: the flag means that for all stores a sweep can be of iff the sweep repeats no key or is no longer than the limit |
| AdminSweep.RepeatMisleads | src/api/admin_migrate.py:404-406 | for every longer sweep with a repeat, a store whose matching rows fit the limit and whose sweep is cut short all the same |
| AdminSweep.RowsRemaining | src/api/admin_migrate.py:427-478 | truncated or not, what remains after a run is exactly the matching rows it did not collect |
| AdminSweep.TruncatedWithNothingLeft | src/api/admin_migrate.py:163 | when the only unowned job comes by more often than the limit the flag is set and no row is left |
| AdminSweep.Redis.WriteJobPreservingTtl | src/api/admin_migrate.py:324-352 | only the key changes; its time to live survives iff it was not in its last millisecond |
| AdminSweep.Redis.AssignJobOwner | src/api/admin_migrate.py:427-478 | the loop re-owns what is still unowned and counts exactly that |
| AdminSweep.Redis.DeleteNullOwnerJobs | src/api/admin_migrate.py:481-531 | the loop deletes what is still unowned and counts exactly that |
| AdminSweep.AssignedExactly | src/api/admin_migrate.py:427-478 | unowned rows named are owned afterwards, every other row and field is as before |
| AdminSweep.AssignedFields | src/api/admin_migrate.py:455-463 | on the fields: a named job without an owner gets the given one and keeps id, age and everything else; any other slot is untouched |
| AdminSweep.TtlSurvivesIff | src/api/admin_migrate.py:343-352 | retention survives a run for every key but those re-owned in their last millisecond |
| AdminSweep.DeletedExactly | src/api/admin_migrate.py:481-531 | unowned rows named are gone and nothing else is |
| AdminSweep.DeletedFields | src/api/admin_migrate.py:504-512 | on the fields: a named job without an owner goes, any other slot stays |
| AdminSweep.AssignRunTouches | src/api/admin_migrate.py:427-478 | a run changes matching rows only, and no owned row |
| AdminSweep.AssignRunProgress | src/api/admin_migrate.py:355-478 | over any SCAN order with repeats a run with a match re-owns at least one, and all if not truncated |
| AdminSweep.SeriesShrinks | src/api/admin_migrate.py:355-478 | in a series of runs each brings the number of matching rows down by at least one until none is left |
| AdminSweep.SeriesConverges | src/api/admin_migrate.py:355-478 | repeated runs end with no matching row; one more matches nothing and changes nothing |
| AdminRace.OverwritesIff | src/api/admin_migrate.py:438-440 | beside other clients a row's SET overwrites an owner iff the last other write between its GET and its SET gave one; the row becomes the one that was read, with the new owner |
| AdminRace.TtlIsFromPttl | src/api/admin_migrate.py:343-352 | the time to live that the row ends up with is the one at its PTTL, whatever happened since |
| AdminRace.OwnedIsSkipped | src/api/admin_migrate.py:457-458 | a row that has an owner when it is read is left alone |
| Conversations.InMemoryConversationStore.AppendJob | src/api/conversations.py:242-264 | the new job has the arguments' fields and is last, with the ordinal after the largest; nothing else of the row but its time stamp changes, and a missing conversation changes nothing |
| Conversations.InMemoryConversationStore.UpdateTitle | src/api/conversations.py:266-282 | only the title changes, not the time stamp |
| Conversations.InMemoryConversationStore.Delete | src/api/conversations.py:284-304 | a row goes iff there is no principal or it is the row's owner; someone else's row is told apart from a missing one by nothing |
| Conversations.InMemoryConversationStore.List | src/api/conversations.py:201-240 | a page is a slice of the one sorted listing, and with a principal has no row but its own |
| Conversations.ListingFields | src/api/conversations.py:201-236 | on the fields: without a principal all rows, with one exactly those it owns, so none without an owner; latest update first, equal ones by id |
| Conversations.AppendKeepsNumbered | src/api/conversations.py:249-258 | MAX + 1 keeps the ordinals 1 to n |
| Conversations.SortedIsUnique | src/api/conversations.py:222-236 | there is one listing in the order of (-updated_at, id) |
| Conversations.PagesArePrefix | src/api/conversations.py:237-240 | n consecutive pages are the first n * limit rows |
| Conversations.PagesTile | src/api/conversations.py:401-452 | on an unchanging store consecutive pages tile the visible rows exactly once, in order |
| PostgresAppends.StepKeepsInv | src/api/conversations.py:454-520 | every statement of every transaction keeps: the lock holder's next ordinal is still the next |
| PostgresAppends.OrdinalsAreGapless | src/api/conversations.py:454-520 | for any interleaving and any rollbacks each conversation's ordinals are exactly 1 to n |
| PostgresAppends.RunsLikeMemory | src/api/conversations.py:454-520 | every run is a run of the in-memory store: a commit is its append, with the same ordinal, stamped with the start of its transaction |
| PostgresAppends.Reports | src/api/conversations.py:454-520 | a call that reports an ordinal has put its job there, and one that reports a missing conversation found none |
| PostgresAppends.StampMovesBackIff | src/api/conversations.py:505-512 | a commit moves `updated_at` back iff its transaction started before that of the last step that stamped the conversation, which it can only have done if it was opened before that |
| PostgresAppends.WaiterMovesStampBack | src/api/conversations.py:466-512 | an append that waited for the row lock since before the last stamp does so as soon as it gets the lock |
| PostgresAppends.UnlockedInsertsCollide | src/api/conversations.py:484-486 | without the row lock two inserts before either commits take the same ordinal |

## Where the code and its documentation differ

The models follow the code.

- `RedisRateLimiter` lists ZCARD before ZADD and says that two concurrent
  requests might both squeak past (src/api/auth.py:306-317). The pipeline adds
  first and counts second (src/api/auth.py:409-412): none squeaks past
  (`FleetBounds.RedisWindowBound`), and what a concurrent rollback can cause
  is a refusal too many (`FleetBounds.AdmittedIff`). Because the stamp is read
  before the transaction is sent (src/api/auth.py:363) two requests can cross on
  the wire; that costs exactly their lateness (`FleetRuns.RedisWindowBoundIff`).
  The refusals are real (`FleetRuns.SpuriousRefusal`).
- `RedisRateLimiter` promises N * limit for a fleet without Redis
  (src/api/auth.py:325-328). Over a window in which Redis fails or comes back
  the bound is (N + 1) * limit, and that is reached
  (`FleetRuns.FleetBoundIsReached`); N * limit is guaranteed exactly for the
  windows in which Redis admitted nothing (`FleetRuns.DocumentedBoundIff`).
- `_write_job_preserving_ttl` treats a remaining time of 0 like -1 and -2
  (src/api/admin_migrate.py:346-352), so a key in its last millisecond loses
  its retention (`AdminSweep.TtlSurvivesIff`).
- `truncated` is documented as "more rows remain" (src/api/admin_migrate.py:163).
  SCAN may repeat keys, and the flag counts visits (`AdminSweep.TruncatedIff`):
  it can be trusted exactly for sweeps without repeats or no longer than the limit
  (`AdminSweep.TruncatedMeansMoreRowsIff`).
- `assign_job_owner` must never overwrite an owner that another writer just set
  (src/api/admin_migrate.py:438-440). It reads a row and writes it in separate
  round trips; `AdminRace.OverwritesIff` says when it does.
- `append_job` says that its single INSERT leaves no gap even without the row
  lock (src/api/conversations.py:484-486). Without it two inserts take the same
  ordinal (`PostgresAppends.UnlockedInsertsCollide`).
- `updated_at` is the start of the appending transaction, not its commit, so a
  conversation's time stamp can go back (`PostgresAppends.StampMovesBackIff`).
- A judge reply that is valid JSON but no object raises outside the
  supervisor's handler (src/agents/supervisor.py:572); it is one of the two
  ways to get no decision in `Supervisor.NoDecisionIff`.

## Left out

- Redis, Postgres and SQL text: only atomic transactions, row locks, SCAN with repeats and times to live are modelled; keys that expire between two admin runs are not.
- PEP 508 markers and name canonicalisation: a marker is its truth value per extra, and names are canonical.
- Floating point: time stamps, tokens and costs are reals, so rounding is not modelled.
- The tables behind `str.lower`: the query theorems hold for every lower-casing function; white space is Python's.
- Prompt texts and judge texts of critic and supervisor: a reply is what it names once stripped and lower-cased; scores and messages are left out.
- Conversations as shared mutable objects: a store holds values, so a caller that keeps a returned conversation and mutates it is not modelled.
- Cancellation.StepKeepsInv: the text of a cancel reason and the polling in `drain` are not part of the step machine, which needs interleavings of single statements; `CancelTokens` has the reason.
- FleetBounds.AdmittedIffQuiet: with a lag of a whole window or more, late members from before the window of the clock are counted too; `FleetBounds.AdmittedIff` counts them among the phantoms.
- The heading splitter, chunk records, mock briefings and the evidence block: grouping and formatting around the splitters modelled here.
- `parse_api_keys`, `_lookup_principal`, keystore files: single-pass parsing.
- `full_jitter_delay`, `interruptible_sleep`, the registry of budgets and warn-once sets.
- The SQL half of the admin tool, its dry-run report and command line, which also refuses a limit below 1 (src/api/admin_migrate.py:1239-1240), a hypothesis of the sweep theorems.
- The concrete capability rows: theorems hold for every table.
- Model client, tracing, metrics and logging.
