# Verified model of the qiven runtime control plane

The runtime decides whether an agent's proposed action may run. A proposal becomes a control
transaction. Resolvers report evidence for its requirements in any order, two gates reach a verdict,
an allowed transaction is bound to a single-use token, and the token is spent under a fenced lease
and a reconciliation barrier. A hook host tracks every admitted tool call until it is closed. Frames
arrive over an authenticated channel, and pure-data algorithms select rules, compare locks and read
hook payloads.

Each component is modelled twice. The part that changes state in the source is a class or a method
with loops. Its contract ties it to a step function or a relation on values. The promises are then
proved about every run of that function. Beside them, each decision has a law that states it without
that function: on the fields and octets of its inputs, or on the steps of the run before it. Clocks, derived intents, accepted submissions, journal
answers and peer behaviour are inputs, so "every run" covers every environment. SHA-256, HMAC-SHA256
and the nonce hash are arbitrary functions; nothing assumes they are collision free.

| files | component |
|---|---|
| Requirements, Resolver, Transactions, ControlState, ControlCore | the transaction engine, its step function and its imperative form |
| ControlInvariants, ControlTheorems, Schedule, Conservation, Provenance | what every run of the engine keeps, and where every decision came from |
| Executor, HookHost, HookConservation, HookDecisions, Refresh | the worker pool, the hook session protocol, cognition refresh |
| LittleEndian, Binding, StateImage, SingleUse, Admission, Lifecycle | preimages, the persisted image, single use, lease and barrier, and the three composed |
| Framing, Replay, Serving | the frame codec, the replay window, connections and serve slots |
| Ordering, Selection, Cutover | ordering lemmas, budgeted selection, the cutover gate |
| Scanner, Events, Payload, PayloadGrammar, ValueGrammar | strings, values and fields of hook payloads, and the grammar of what is accepted |

`dafny verify dfyconfig.toml` checks the whole project.

## Findings

Each property below is false of the code as it stands. The first member named is a failing input or
family of inputs; the second says exactly when the code does meet the property.

- A failure report that matches no requirement still counts down (src/state.cpp:396-433), and can
  leave a transaction awaiting forever: `Conservation.StrayReportStrands`. Once it has run the count
  ahead, even evidence that was asked for can do so: `Conservation.SolicitedReportStrands`. For every
  transaction of every run, a report leaves it awaiting exactly when it already was or
  `Schedule.Strands` holds before the report (`Schedule.AwaitsOnlyStranded`), and after any run it
  awaits exactly when one message did (`Schedule.StrandedExactly`). Stranding always takes a stray
  first (`Schedule.StrandedOnceAfterStray`). The count itself stays exact under
  `Schedule.ExactUnlessStray`.
- A restart that restores an image older than a consumption accepts the token again, and dispatches
  again: `SingleUse.UnsavedRestartForgets`, `Lifecycle.UnsavedRestartDispatchesAgain`. The exact
  condition is `SingleUse.SpentExactlyWhenSaved`.
- A stop request does not keep a connection from taking a slot: the stop test is made outside the lock
  (src/ipc/named_pipe_server.cpp:882-901). `Serving.SlotTakenAfterStop` is the interleaving;
  `Serving.StopIsFinalExactly` says when a stop is final.
- The open line of a connection is logged after its slot is taken and before the guarded thread
  creation (src/ipc/named_pipe_server.cpp:899-936), so a log hook that throws there leaks the slot:
  `Serving.ThrowingLogLeaks`. The count can still drain to zero exactly when none leaked:
  `Serving.DrainsExactly`.
- The lease authority starts its epochs over with each process (src/port/execution_authority.cpp:26-31),
  so a grant from before a restart can validate, and free, a later lease: `Lifecycle.RestartReusesEpoch`.
  `Lifecycle.OldGrantValidAgainExactly` says exactly when.
- The evidence preimage leaves out the evidence type (`Binding.EvidenceTypeUnbound`), and the intent
  preimage binds only whether there was a prior failure (`Binding.PriorFailureUnbound`).
  `Binding.EvidenceInjectiveUpToType` and `Binding.IntentsInjectiveUpToFailure` say exactly what is
  bound.
- A tool that a session's manifest leaves degraded is admitted again, without another session start,
  once the idle session has been evicted: `HookDecisions.EvictionForgetsDegradation`.
  `HookDecisions.DegradedExactlySince` says exactly when a tool is degraded.
- The supporting share is computed in 64-bit arithmetic that can wrap
  (`Selection.LargerBudgetDropsCandidate`), and a share above 100 percent can overrun the budget
  (`Selection.ShareOverrunsBudget`). The exact conditions are `Selection.LargerCapExtendsExactly` and
  `Selection.BudgetHeldExactly`.
- A path prefix with a trailing slash never matches, although the comment in
  src/cognition/selector_eval.cpp:16-18 says it is normalized away: `Selection.TrailingSlashMisses`,
  `Selection.PathUnderAsMeantExactly`.
- The comment in src/ipc/framing.cpp:149-151 asks for a timestamp inside the window of two clocks; the
  code checks one: `Replay.AcceptedOutsideLiveClock`, `Replay.BothClocksExactly`.
- Lock entries without a commit are overwritten silently, so one that disagrees with the workspace
  need not close the cutover gate: `Cutover.OverwrittenEntryIgnored`, `Cutover.CutoverExactly`.

The body-size branch of the frame decoder cannot be reached: `Framing.BodyCapUnreachable`.

## Model

| member | source | states |
|---|---|---|
| `Requirements.RequirementSet.Merge` | src/requirement.cpp:17-45 | merging one instance gives exactly the merged list: a known identity only gains new origins, a new one is appended |
| `Requirements.DeriveRequirementSet` | src/requirement.cpp:47-72 | the two nested loops compute the merge of everything every intent derives |
| `Requirements.DerivationIsExactUnion` | src/requirement.cpp:17-72 | identities stay distinct, nothing derived is dropped, and origins are exactly the producing intents, once each and ascending |
| `Requirements.DerivationInOrder` | src/requirement.cpp:17-72 | requirements are listed in the order in which they are first derived |
| `Resolver.FindBinding` | src/resolver.cpp:80-92 | a binding is returned exactly when it is the only accepted one for the kind and view |
| `Resolver.ValidateReceipt` | src/resolver.cpp:180-240 | a receipt is accepted if and only if it agrees with requirement, binding, generation and policy, is unexpired and is attributable |
| `Transactions.EvaluateBeforeJudgment` | src/transaction.cpp:25-67 | the judgment gate's phase for every packet, and no change to a terminal transaction |
| `Transactions.EvaluateBeforeExecution` | src/transaction.cpp:69-108 | the execution gate's phase, reached only from prepared or awaiting transactions |
| `Transactions.GatesExactly` | src/transaction.cpp:25-108 | each phase either gate leaves, by the packet failure and the requirements that bring it about |
| `Transactions.DispositionExactly` | src/transaction.cpp:110-125 | which phases read as allow, re-deliberate, await and deny |
| `ControlCore.IngressQueue.TryPush` | src/ingress.cpp:16-32 | a push appends exactly when the queue is open and below capacity |
| `ControlCore.ControlCore.Drain` | src/state.cpp:83-108 | draining equals running the step function over the whole queue, with exact counters |
| `ControlCore.ControlCore.HandleProposal` | src/state.cpp:123-225 | replay, integrity failure and new transaction each leave the specified state |
| `ControlCore.ControlCore.OpenTransaction` | src/state.cpp:150-225 | derivation, activation, dispatch and first evaluation give the specified new transaction |
| `ControlCore.ControlCore.Launch` | src/state.cpp:219-225 | dispatch and, with nothing outstanding, immediate evaluation of a stored transaction |
| `ControlCore.ControlCore.PreSatisfy` | src/state.cpp:178-209 | the loop equals pre-satisfaction, whose effect `Provenance.PresatisfiedExactly` states |
| `ControlCore.ControlCore.DispatchResolvers` | src/state.cpp:227-312 | after dispatch a blocking pending requirement is pending if a unique binding offers its kind and the executor accepted it, and failed otherwise; nothing else changes; the count is that of the ones left pending |
| `ControlCore.ControlCore.HandleEvidence` | src/state.cpp:314-394 | an evidence delivery steps its transaction and the counters as specified, including unknown, duplicate and rejected receipts |
| `ControlCore.ControlCore.HandleFailure` | src/state.cpp:396-433 | a failure report steps its transaction as specified, including one that matches nothing |
| `ControlCore.ControlCore.ReevaluateAfterReports` | src/state.cpp:435-459 | in-flight judgment evidence re-deliberates; otherwise both gates run in order |
| `ControlState.DispatchExactly` | src/state.cpp:227-312 | what dispatch does to every requirement, bound and accepted or not |
| `ControlInvariants.StepKeepsInv` | src/state.cpp:123-459 | every message keeps tables, correlation bijection, distinct identities, counts and phases consistent |
| `ControlInvariants.RunKeepsInv` | src/state.cpp:83-459 | the invariant holds after every message stream |
| `ControlInvariants.StepIsLocal` | src/state.cpp:314-459 | a message changes no transaction other than its own |
| `ControlTheorems.RunIsLocal` | src/state.cpp:83-459 | over any run a transaction depends only on its own reports |
| `ControlTheorems.AllowSafety` | src/transaction.cpp:69-108 | in every run an allowed transaction has every blocking requirement satisfied and each judgment-gating one by an activation at proposal time |
| `ControlTheorems.EntryRunEvolves` | src/state.cpp:337-370 | identities never change, a status leaves Pending at most once, only activation at filing time activates, and a decided phase stays |
| `ControlTheorems.DecidedByEvaluation` | src/state.cpp:379-459 | a transaction is decided exactly when it has been evaluated |
| `ControlTheorems.EvaluatedOnce` | src/state.cpp:379-393 | over any run, stray reports included, each transaction is evaluated at most once |
| `Schedule.ExactUnlessStray` | src/state.cpp:406-432 | a report keeps the outstanding count equal to the open blocking requirements if and only if it is not a stray arriving while reports are outstanding |
| `Schedule.SettlesToAnswered` | src/transaction.cpp:25-108 | with nothing open, evaluation gives re-deliberation, denial or allow by the answers and never awaits |
| `Schedule.SolicitedRun` | src/state.cpp:221-393 | without strays the count is exact at every point, the decision falls when it reaches zero, and no transaction awaits |
| `Schedule.AwaitsOnlyStranded` | src/state.cpp:314-459 | for every entry a run can hold, a report leaves the transaction awaiting if and only if it already was, or the report is the last one counted while only execution requirements are open and it answers none of them or satisfies one of several |
| `Schedule.AwaitsExactly` | src/state.cpp:396-459 | where the count is still exact, a report leaves the transaction awaiting if and only if it is a stray that closes the count while nothing is in flight or failed and only execution requirements are open |
| `Schedule.StrandedExactly` | src/state.cpp:314-459 | after any number of messages of any run, stray or solicited, a transaction awaits if and only if one of them stranded it |
| `Schedule.StrandedOnceAfterStray` | src/state.cpp:396-459 | stranding is final, happens at most once per transaction, and takes an unsolicited report, this one or an earlier one |
| `Schedule.ScheduleIndependence` | src/state.cpp:314-459 | for every drain order, interleaving and duplication the phase is fixed by the proposal and its answers |
| `Schedule.VerdictIgnoresTimeAndOrder` | src/state.cpp:314-459 | for receipts without expiry, two drains of the same reports in any order, at any times and among any traffic give the same phase |
| `Conservation.ActivationsConserved` | src/state.cpp:178-217 | over any run the activation-satisfied requirements are as many as the spent activation uses |
| `Conservation.ReplayIsInert` | src/state.cpp:123-148 | a replayed proposal changes nothing, a conflicting one adds one to its key's integrity count and does nothing else, and the dangling-key branch is unreachable |
| `Conservation.CountedIsInert` | src/state.cpp:314-336 | everything counted as a replay or as dropped left the control state unchanged |
| `Conservation.OneTransactionPerKey` | src/state.cpp:123-148 | two transactions of a run never share a correlation key |
| `Conservation.ResumeContextExact` | src/state.cpp:337-378 | the resume context holds exactly the receipts that satisfied judgment-gating requirements in flight, one for each |
| `Conservation.ResumeInDrainOrder` | src/state.cpp:337-378 | and lists them in the order they were drained |
| `Conservation.StrayReportStrands` | src/state.cpp:396-433 | one stray failure report leaves a transaction awaiting forever, whatever follows |
| `Conservation.SolicitedReportStrands` | src/state.cpp:314-459 | a run in which a stray strands nothing and the satisfying evidence after it leaves the transaction awaiting for every continuation |
| `Provenance.AnswerExactly` | src/resolver.cpp:180-240 | a report satisfies its requirement if and only if it delivers evidence that agrees, field by field, with the requirement, the only binding for its kind, the generation and the policy, and is unexpired and attributable; otherwise it fails it |
| `Provenance.BoundExactly` | src/resolver.cpp:80-92 | a kind is bound if and only if one position of the accepted list alone has it in the default view |
| `Provenance.PresatisfiedExactly` | src/state.cpp:178-209 | each judgment-gating requirement takes the first unspent activation with its own subject, the pinned revision and digest and its generation, and stays open only when none is left |
| `Provenance.FiledExactly` | src/state.cpp:150-312 | a new proposal files one transaction with its own action and causal parent, one requirement per derived identity in order, each satisfied, pending or failed as activations, binding and submission determine, and the count of the open ones |
| `Provenance.FirstReportDecides` | src/state.cpp:314-433 | over every run an open requirement is decided by the first report that names it and by nothing else, with that receipt as its evidence |
| `Provenance.SatisfiedHasSource` | src/state.cpp:178-394 | in every reachable state each satisfied requirement took an activation of its own proposal, or was dispatched and satisfied by an acceptable receipt drained after filing under the only binding |
| `Provenance.AllowedHasSources` | src/transaction.cpp:69-108 | in every run an allowed transaction has such a source for every blocking requirement: an activation before the judgment, a vouched receipt before the execution |
| `Provenance.DecidedExactly` | src/state.cpp:435-459 | a transaction reads deny until its one evaluation, and from then on the verdict on its requirements as that input left them, each of the four by its exact condition |
| `Provenance.TalliedExactly` | src/state.cpp:83-148 | what each drained message counts as: replay, dropped, rejected receipt or integrity failure |
| `Provenance.DrainAddsUp` | src/state.cpp:83-108 | a drain reports the messages it took and the sum of what each counted as |
| `Provenance.IntegrityCounted` | src/state.cpp:123-148 | over every run a key's integrity count is the number of proposals under it that differed from the filed one |
| `Executor.Executor.SubmitTask` | src/executor.cpp:82-94 | a task is accepted exactly when the pool is open and the queue has room |
| `Executor.Executor.WorkerTurn` | src/executor.cpp:26-45 | a waiting worker takes the front task, leaves after shutdown, or keeps waiting |
| `Executor.Executor.FinishTask` | src/executor.cpp:60-80 | returning and throwing both complete the task once, and waiters are notified exactly when the pool is idle |
| `Executor.RunKeepsInv` | src/executor.cpp:26-120 | in every interleaving each accepted task is in exactly one place and queued in acceptance order |
| `Executor.AlwaysBounded` | src/executor.cpp:26-120 | accepted = completed + running + pending, with pending and running within their bounds |
| `Executor.CountersExact` | src/executor.cpp:26-120 | in every interleaving the accepted, completed and exception counters are the submissions that found room, the tasks that ended, in order, and those that threw |
| `Executor.OldestFirst` | src/executor.cpp:26-58 | a waiting worker takes the oldest queued task |
| `Executor.JoinedMeansAllRanOnce` | src/executor.cpp:102-120 | once all workers have left, every accepted task has run exactly once |
| `Executor.IdleIsNotified` | src/executor.cpp:71-100 | the pool becomes idle only by a finishing task, which notifies |
| `Executor.ShutdownDescends` | src/executor.cpp:26-120 | after shutdown each worker action strictly uses up remaining work |
| `Executor.ShutdownNeverStuck` | src/executor.cpp:26-120 | while a worker is present some worker action is possible |
| `Executor.ShutdownBounded` | src/executor.cpp:26-120 | joining takes a bounded number of worker actions whatever interleaves |
| `HookHost.RuntimeHost.Ensure` | src/host/runtime_host.cpp:839-874 | a session is found or created as specified, fail-closed when the journal refuses |
| `HookHost.RuntimeHost.HandlePreTool` | src/host/runtime_host.cpp:967-1240 | the reply and new state of a tool call; it is admitted if and only if the session is there or journaled, neither degrades the tool nor has it outstanding, and the reading clears the call |
| `HookHost.RuntimeHost.HandlePostTool` | src/host/runtime_host.cpp:1242-1289 | the observation closes the outstanding call or is recorded as unmatched |
| `HookHost.RuntimeHost.HandleSessionStart` | src/host/runtime_host.cpp:889-965 | the degraded tools and the verdict, for an empty manifest, an unreadable profile and a declared surface |
| `HookHost.DeclaredTokens` | src/host/runtime_host.cpp:926-939 | the loop collects the non-empty comma-separated tokens |
| `HookHost.DegradedExactly` | src/host/runtime_host.cpp:924-954 | a tool is degraded if and only if the inventory declares it and the manifest does not hold it as a whole token |
| `HookHost.RuntimeHost.HandleHookEvent` | src/host/runtime_host.cpp:589-614 | the state and the reply of every event: the served ones while serving, refusal and no change otherwise |
| `HookHost.RuntimeHost.EvictIdleSessions` | src/host/runtime_host.cpp:736-755 | exactly the idle sessions without outstanding calls are forgotten |
| `HookHost.RuntimeHost.DrainHost` | src/host/runtime_host.cpp:656-691 | every outstanding call is marked indeterminate once and all sessions are cleared |
| `HookConservation.PreToolEffect` | src/host/runtime_host.cpp:1042-1240 | a call admits one fresh action on a free slot or moves nothing, and admits only known, ungoverned targets |
| `HookConservation.PostToolEffect` | src/host/runtime_host.cpp:1265-1288 | an observation closes exactly the call on its slot or moves nothing |
| `HookConservation.DrainEffect` | src/host/runtime_host.cpp:656-678 | a drain marks exactly the outstanding actions |
| `HookConservation.DrainBalanced` | src/host/runtime_host.cpp:656-691 | draining a host with balanced books marks every outstanding action once and keeps the books |
| `HookConservation.EvictionLosesNothing` | src/host/runtime_host.cpp:736-755 | eviction keeps every outstanding call |
| `HookConservation.NextKeepsInv` | src/host/runtime_host.cpp:536-1289 | every step of the host keeps the books balanced |
| `HookConservation.HookActionsConserved` | src/host/runtime_host.cpp:536-1289 | in every run admits = outcomes + drain marks + outstanding, and each admitted action is in exactly one of the three |
| `HookConservation.DrainIsFinal` | src/host/runtime_host.cpp:656-678 | after a drain nothing is outstanding and nothing is admitted again |
| `HookConservation.ClosedHostAdmitsNothing` | src/host/runtime_host.cpp:589-598 | shutting down is final and admits nothing |
| `HookDecisions.PreToolExactly` | src/host/runtime_host.cpp:967-1240 | admission, each kind of denial and refusal, each by its exact condition on the state before the call |
| `HookDecisions.PreToolLeaves` | src/host/runtime_host.cpp:967-1240 | one audit event per call, the admitted action on its tool, and nothing else moved |
| `HookDecisions.PreToolMints` | src/host/runtime_host.cpp:967-1240 | which ids a call uses, and that the admitted action is the one minted for it |
| `HookDecisions.EnsureLeaves` | src/host/runtime_host.cpp:839-874 | first contact: a known session is seen, a new one is minted clean and registered if it can be journaled |
| `HookDecisions.PostToolLeaves` | src/host/runtime_host.cpp:1242-1289 | an observation closes the outstanding call and audits its outcome, or is audited as unmatched |
| `HookDecisions.SessionStartLeaves` | src/host/runtime_host.cpp:889-965 | a session start replaces the degraded tools by those its manifest declares away, unless the manifest is empty, and reports whether there are any |
| `HookDecisions.DrainLeaves` | src/host/runtime_host.cpp:656-691 | a drain keeps the sessions, leaves no call outstanding, and appends one mark, with its tool, for each call that was |
| `HookDecisions.ServesExactly` | src/host/runtime_host.cpp:589-598 | the host serves exactly while no shutdown, request or drain has been taken |
| `HookDecisions.EvictedExactly` | src/host/runtime_host.cpp:736-755 | a session is evicted if and only if it has no outstanding call and its last served event is further back than the bound |
| `HookDecisions.DegradedExactlySince` | src/host/runtime_host.cpp:889-965 | over every run a tool is degraded if and only if the last manifest of its session declared it away and the session was not evicted since |
| `HookDecisions.BusyExactlySince` | src/host/runtime_host.cpp:1042-1289 | a call is outstanding if and only if it was admitted and neither observed nor drained since |
| `HookDecisions.AdmitsExactly` | src/host/runtime_host.cpp:967-1240 | over every run, which calls are admitted, in terms of the steps before them |
| `HookDecisions.DegradedIsNotAdmitted` | src/host/runtime_host.cpp:997-1005 | a tool declared away is not admitted until another manifest or an eviction |
| `HookDecisions.EvictionForgetsDegradation` | src/host/runtime_host.cpp:736-755 | a run in which an eviction lets a degraded tool through |
| `Refresh.RefreshWorker.TriggerRefresh` | src/host/runtime_host.cpp:616-641 | a trigger is accepted exactly while the worker runs, and then pending |
| `Refresh.RefreshWorker.BeginAttempt` | src/host/runtime_host.cpp:766-802 | an attempt starts if and only if the worker runs, one is due or pending, and the coalesce interval has passed |
| `Refresh.RefreshWorker.ActivateGeneration` | src/host/generation_activation.cpp:5-24 | the journal gains its maximum plus one, or nothing changes |
| `Refresh.RefreshWorker.ConcludeAttempt` | src/host/runtime_host.cpp:1357-1392 | how an attempt ends: generation, journal, digest, clock and outcome for new, active, unactivated and unpublished content |
| `Refresh.RefreshWorker.RecordAttempt` | src/host/runtime_host.cpp:813-818 | the later update of the state text and the attempt clock |
| `Refresh.RefreshWorker.ContainFault` | src/host/runtime_host.cpp:820-828 | a fault before or after the swap degrades the state and stamps the attempt |
| `Refresh.GenerationIsJournalMaximum` | src/host/runtime_host.cpp:1357-1392 | the generation is always the largest id in the journal, moves by one and adds exactly itself only with new content, and the freshness clock moves only when the published bundle is active |
| `Refresh.AttemptEndsExactly` | src/host/runtime_host.cpp:1357-1408 | in every run the generation moves by one, with digest and clock, if and only if new content was published and activated; the outcome is current, degraded, fallback or expired by its exact condition |
| `Refresh.HealthIsLastOutcome` | src/host/runtime_host.cpp:803-828 | over every run the recorded time and state are those of the attempt that ended last, degraded if it faulted |
| `Refresh.WorkerExactly` | src/host/runtime_host.cpp:757-835 | what each step does to the worker, the running flag and the pending flag |
| `Refresh.PendingExactly` | src/host/runtime_host.cpp:616-641 | over every run a refresh is pending if and only if a trigger was accepted and no attempt started since |
| `Refresh.FreshIsNotExpired` | src/host/runtime_host.cpp:716-734 | a freshness that is reported is never refused as stale, and exactly when the converse fails |
| `Refresh.AttemptsAreSpaced` | src/host/runtime_host.cpp:757-835 | when an attempt is stamped no earlier than it started, attempts start at least the coalesce interval apart |
| `Refresh.TriggerIsNotLost` | src/host/runtime_host.cpp:616-641 | an accepted trigger stays pending until a later attempt starts |
| `LittleEndian.ValueOfLe` | src/state_store.cpp:21-51 | reading back a written integer returns it |
| `LittleEndian.LeOfValue` | src/state_store.cpp:21-51 | writing back a read integer reproduces its octets |
| `LittleEndian.LastIsMostSignificant` | src/state_store.cpp:21-51 | the last octet is the most significant |
| `Binding.ByteBuilder.PutBytes` | src/decision.cpp:28-33 | appends the length-prefixed text |
| `Binding.ByteBuilder.PutAction` | src/decision.cpp:40-49 | appends the action's fields in order |
| `Binding.ByteBuilder.PutIntents` | src/decision.cpp:51-74 | appends the counted intent records |
| `Binding.ByteBuilder.PutRequirements` | src/decision.cpp:76-92 | appends the counted requirement records |
| `Binding.ByteBuilder.PutEvidence` | src/decision.cpp:94-119 | appends the counted receipt records |
| `Binding.ByteBuilder.PutBinding` | src/decision.cpp:132-153 | appends the versioned binding tuple in order |
| `Binding.ItemsPrefix` | src/decision.cpp:28-49 | encodings of the same shape are self-delimiting: equal bytes mean equal fields and equal remainders |
| `Binding.ActionInjective` | src/decision.cpp:40-49 | two actions have the same preimage if and only if they are equal |
| `Binding.BindingInjective` | src/decision.cpp:132-153 | two decisions have the same token preimage if and only if they agree on every bound fact and the nonce |
| `Binding.RequirementsInjective` | src/decision.cpp:76-92 | two requirement packets have the same preimage if and only if they are equal |
| `Binding.EvidenceInjectiveUpToType` | src/decision.cpp:94-119 | two evidence sets have the same preimage if and only if they agree on all but the evidence types |
| `Binding.EvidenceTypeUnbound` | src/decision.cpp:94-119 | any receipt keeps its preimage under another evidence type |
| `Binding.IntentsInjectiveUpToFailure` | src/decision.cpp:51-74 | two intent sets have the same preimage if and only if they agree on all but which prior failure is named |
| `Binding.PriorFailureUnbound` | src/decision.cpp:51-74 | any intent with a prior failure keeps its preimage under another |
| `Binding.ActionLayout` | src/decision.cpp:40-49 | order and width of every field of an action preimage |
| `Binding.TokenLayout` | src/decision.cpp:132-153 | order and width of every field a token's MAC is taken of |
| `Binding.RequirementLayout` | src/decision.cpp:76-92 | order and width of a requirement record |
| `Binding.IntentLayout` | src/decision.cpp:51-74 | order and width of an intent record |
| `Binding.ReceiptLayout` | src/decision.cpp:94-119 | order and width of a receipt record |
| `Binding.ListedLayout` | src/decision.cpp:51-119 | a list is its count and its records in order |
| `StateImage.Serialize` | src/state_store.cpp:56-85 | writes the sorted canonical image, or aborts over capacity |
| `StateImage.Deserialize` | src/state_store.cpp:87-147 | the cursor loops accept and return exactly what the image format denotes |
| `StateImage.DecodeEncode` | src/state_store.cpp:56-147 | every well-formed image decodes from its encoding |
| `StateImage.EncodeDecode` | src/state_store.cpp:87-147 | every accepted byte string re-encodes to itself |
| `StateImage.RefusesExactlyNonImages` | src/state_store.cpp:87-147 | bytes are refused if and only if no image encodes to them |
| `StateImage.SavedStateReadsBack` | src/state_store.cpp:56-147 | a saved state decodes to exactly its hashes and scopes |
| `StateImage.ResavesToItself` | src/state_store.cpp:56-85 | restoring and saving again reproduces the bytes if and only if both lists were strictly ascending |
| `StateImage.ImageLayout` | src/state_store.cpp:56-85 | where the mark, both counts, every hash and every scope stand |
| `StateImage.CanonicalSize` | src/state_store.cpp:56-85 | an image takes 12 octets, 32 per hash and 8 per scope, and is written if and only if that is at most 16777216 |
| `StateImage.SavedInOrder` | src/state_store.cpp:59-63 | hashes are saved in octet order and scopes in numeric order |
| `SingleUse.Revalidate` | src/decision.cpp:287-315 | each stale outcome by its field: the named one differs and all earlier ones agree; consumed if and only if all seven agree |
| `SingleUse.DecisionLedger.Consume` | src/decision.cpp:265-321 | every attempt burns the hash; consumed if and only if it was unspent, authentic, in time and equal in all seven facts, and every other outcome by its exact condition |
| `SingleUse.VerdictExactly` | src/decision.cpp:265-321 | every answer of the ledger by the fields it rests on |
| `SingleUse.DecisionLedger.SeedConsumed` | src/decision.cpp:328-331 | a seeded hash is spent |
| `SingleUse.SeedConsumedTokens` | src/state_store.cpp:173-179 | exactly the image's hashes are added |
| `SingleUse.RestoreBarriers` | src/state_store.cpp:165-171 | exactly the image's scopes are raised in addition |
| `SingleUse.BoundDecisionIsSpendable` | src/decision.cpp:173-263 | only allowed transactions are bound; a bound decision carries the transaction's action and grounds, authenticates, and is fresh under its own facts for its lifetime |
| `SingleUse.FreshForAnotherActionIsCollision` | src/decision.cpp:265-291 | a decision is fresh for a different action only through a SHA-256 collision |
| `SingleUse.RestartRestoresLastSave` | src/state_store.cpp:165-179 | a restart brings back ledger and barrier as of the last save |
| `SingleUse.SpentExactlyWhenSaved` | src/state_store.cpp:165-179 | a token is spent if and only if some attempt on it was saved before every restart since |
| `SingleUse.BarredExactly` | src/state_store.cpp:165-171 | over any history a scope is barred if and only if a raise of it survived every restart since and no later lift of it did |
| `SingleUse.ConsumedTwiceOnlyUnsaved` | src/decision.cpp:265-331 | two consumptions of one token are separated by a restart no save precedes |
| `SingleUse.SingleUseAcrossRestarts` | src/decision.cpp:265-331 | if every restart follows a save made after the last consume, each token is consumed at most once |
| `SingleUse.UnsavedRestartForgets` | src/state_store.cpp:165-179 | without that save every authentic decision can be consumed twice |
| `Lifecycle.AuthorizeAction` | src/admission.cpp:11-82 | consuming and composing together make one step of the combined system |
| `Lifecycle.DispatchIsAuthorized` | src/admission.cpp:11-82 | in any run with restarts a dispatch implies an unspent, authentic, unexpired allow for the presented action, equal to the facts in all seven fields, and an unbarred scope |
| `Lifecycle.DispatchesExactly` | src/admission.cpp:11-82 | over every history with saves and restarts, which authorizations dispatch, in terms of that history alone |
| `Lifecycle.DispatchedTwiceOnlyUnsaved` | src/decision.cpp:265-331 | one token dispatches twice only across a restart no save since precedes |
| `Lifecycle.OneDispatchPerToken` | src/decision.cpp:265-331 | if every restart follows a save made since the last authorization, each token dispatches at most once |
| `Lifecycle.UnresolvedIsNeverDispatched` | src/state_store.cpp:165-171 | a scope raised and saved is not dispatched into until an authoritative reconciliation, across restarts |
| `Lifecycle.UnsavedRestartDispatchesAgain` | src/state_store.cpp:165-179 | without the save every authentic allow dispatches again after a restart |
| `Lifecycle.EpochsGrowWithinProcess` | src/port/execution_authority.cpp:26-32 | dispatches without a restart between them carry strictly larger epochs |
| `Lifecycle.ValidExactly` | src/port/execution_authority.cpp:46-49 | any grant, however old, is valid if and only if the current process made a dispatch with its epoch that was not released since |
| `Lifecycle.OldGrantValidAgainExactly` | src/port/execution_authority.cpp:35-49 | a grant from before a restart validates, and would free the lease, if and only if the new process holds a lease of the same epoch |
| `Lifecycle.RestartReusesEpoch` | src/port/execution_authority.cpp:26-31 | a history in which the old grant validates and frees the new lease |
| `Admission.NullExecutionAuthority.RequestAdmission` | src/port/execution_authority.cpp:5-33 | refusal or a fresh epoch, and the lease it leaves |
| `Admission.NullExecutionAuthority.ReleaseGrant` | src/port/execution_authority.cpp:35-44 | only the current grant frees the lease |
| `Admission.ReconciliationBarrier.Check` | src/reconciliation.cpp:12-19 | blocked exactly for equivalent mutations in a raised scope |
| `Admission.ReconciliationCoordinator.ReconcileScope` | src/reconciliation.cpp:49-86 | only an authoritative observation with content lifts the scope; a failure carries its fingerprint |
| `Admission.AdmissionCoordinator.ComposeAdmission` | src/admission.cpp:11-82 | the gated sequence gives the specified outcome, permit and lease |
| `Admission.EpochsIncrease` | src/port/execution_authority.cpp:5-33 | later dispatches carry strictly larger epochs |
| `Admission.StaleStaysStale` | src/port/execution_authority.cpp:5-49 | an issued grant once invalid is never valid again |
| `Admission.OneWriter` | src/port/execution_authority.cpp:5-49 | the grant of a dispatch is valid if and only if no release of its epoch happened since; while it is, no other epoch is valid and releasing any other changes nothing |
| `Admission.LeaseReleasedBetween` | src/port/execution_authority.cpp:5-49 | between two dispatches the earlier lease was released |
| `Admission.BarredExactlyWhenUnreconciled` | src/reconciliation.cpp:7-86 | a scope is barred if and only if it was raised and not authoritatively reconciled since |
| `Admission.DispatchSafety` | src/admission.cpp:11-82 | in any run a dispatch implies a consumed allow for that very action, a simulated purpose, an unbarred scope and a permit that says so; stale-grant and authority-error denials are unreachable |
| `Admission.AnswersExactly` | src/admission.cpp:11-82 | every outcome of every composition by its exact condition on the run before it |
| `Admission.LeasedExactly` | src/port/execution_authority.cpp:5-49 | the lease is taken if and only if some dispatch was not released, and its holder is that dispatch's transaction |
| `Admission.ResolvedExactly` | src/reconciliation.cpp:49-86 | an authoritative observation is a failure if and only if it starts with "failed:", with the rest as its text |
| `Admission.FirstRaiserKept` | src/reconciliation.cpp:7-11 | raising a raised scope keeps its first transaction |
| `Framing.ConstantTimeEqual` | src/auth.cpp:66-78 | the accumulated difference is zero exactly when the octets agree |
| `Framing.DecodeFrame` | src/ipc/framing.cpp:87-140 | the checks in order give the specified verdict |
| `Framing.DecodeEncode` | src/ipc/framing.cpp:61-140 | what decoding makes of any encoded frame, with the packing of version and flags |
| `Framing.EncodeDecode` | src/ipc/framing.cpp:87-140 | every accepted byte string is the encoding of its header and body |
| `Framing.FramesAreCanonical` | src/ipc/framing.cpp:61-140 | two byte strings verified as the same frame are equal |
| `Framing.VerifiedExactly` | src/ipc/framing.cpp:87-140 | a frame is verified if and only if its size, mark, version, length field and MAC are right, octet by octet, and where its fields are |
| `Framing.DeniedExactly` | src/ipc/framing.cpp:87-140 | each denial by the first check that fails |
| `Framing.BodyCapUnreachable` | src/ipc/framing.cpp:116-119 | the separate body cap never fires |
| `Replay.ReplayGuard.Accept` | src/ipc/framing.cpp:142-179 | the queue with its hash set behaves as a list of recent nonces, and the set always mirrors the queue |
| `Replay.EvictionRemovesOwnHash` | src/ipc/framing.cpp:172-176 | evicting the front removes exactly its own hash |
| `Replay.WindowIsLastAccepted` | src/ipc/framing.cpp:142-179 | in every run the window is the last 256 accepted nonces and accepted sequences strictly increase |
| `Replay.AcceptedExactly` | src/ipc/framing.cpp:142-179 | acceptance as an if-and-only-if over the run's history: sequence, clock last noted, nonce size and the last 256 accepted |
| `Replay.NoReplayInWindow` | src/ipc/framing.cpp:165-171 | no nonce hash is accepted twice within 256 acceptances |
| `Replay.BothClocksExactly` | src/ipc/framing.cpp:149-158 | the reference clock alone implies the live clock's window if and only if the journal clock is unset, or not ahead of the live one and, past the window length, not behind it |
| `Replay.AcceptedOutsideLiveClock` | src/ipc/framing.cpp:149-158 | an accepted attempt outside the live clock's window |
| `Serving.ServeConnection` | src/ipc/pipe_service.cpp:45-153 | serves to the first turn that is not replied to and reports that turn's cause |
| `Serving.SequencesIncrease` | src/ipc/pipe_service.cpp:104-118 | handled frames have strictly increasing sequence numbers |
| `Serving.ServeWithinBounds` | src/ipc/pipe_service.cpp:45-153 | the handler runs at most the budget's number of times, on verified frames that parse, and the one close cause reported is the one the turn after the last reply met |
| `Serving.EndsExactly` | src/ipc/pipe_service.cpp:66-153 | each close cause by what that turn met |
| `Serving.ServeLoop.PassStopTest` | src/ipc/named_pipe_server.cpp:880-885 | the unlocked first section lets a connection go on exactly when no stop was requested |
| `Serving.ServeLoop.TakeSlot` | src/ipc/named_pipe_server.cpp:886-901 | the locked second section gives a slot exactly below the cap and otherwise counts a busy answer |
| `Serving.ServeLoop.OpenConnection` | src/ipc/named_pipe_server.cpp:902-967 | a throwing log keeps the slot, a thread that cannot be created gives it back, and otherwise the connection is served |
| `Serving.ServeLoop.ReleaseSlot` | src/ipc/named_pipe_server.cpp:1015-1027 | the guarded decrement always decrements |
| `Serving.SlotsConserved` | src/ipc/named_pipe_server.cpp:880-1027 | in every interleaving of test, lock, log failure, spawn failure, thread end and stop the live count is the number of slots held or leaked, within the cap, and zero exactly when there are none |
| `Serving.StepAccounts` | src/ipc/named_pipe_server.cpp:880-967 | every connection past the stop test takes a slot, is turned away exactly at the cap, or is on its way |
| `Serving.ThrowingLogLeaks` | src/ipc/named_pipe_server.cpp:899-936 | a throwing log leaves a slot counted that nobody holds |
| `Serving.DrainsExactly` | src/ipc/named_pipe_server.cpp:751-760 | the live count can still reach zero if and only if no slot was leaked |
| `Serving.StoppingOnlyAdmitsPassed` | src/ipc/named_pipe_server.cpp:880-1027 | once stopping, connections past the test only become fewer, no more slots are taken than there were such connections, and only by them |
| `Serving.SlotTakenAfterStop` | src/ipc/named_pipe_server.cpp:882-901 | the interleaving in which a slot is taken after the stop request |
| `Serving.StopIsFinalExactly` | src/ipc/named_pipe_server.cpp:728-732 | no continuation takes another slot if and only if nothing is between test and lock, or every slot is leaked |
| `Ordering.AscendingUnique` | src/state_store.cpp:59-63 | a strictly ascending list is determined by its members |
| `Ordering.LexExactly` | src/state_store.cpp:59-63 | octet strings are ordered by the first octet that differs |
| `Ordering.SortedStable` | src/cognition/selector_eval.cpp:307-317 | the sort keeps the order of ties |
| `Selection.PathUnderPrefix` | src/cognition/selector_eval.cpp:14-26 | a path matches exactly when the prefix, not ending in a slash, and a slash lead it |
| `Selection.PathUnderAsMeantExactly` | src/cognition/selector_eval.cpp:14-26 | the code answers as its comment means if and only if the prefix is not a longer one ending in a slash that leads the path |
| `Selection.TrailingSlashMisses` | src/cognition/selector_eval.cpp:14-26 | a changed path a trailing-slash prefix misses |
| `Selection.EvaluateRule` | src/cognition/selector_eval.cpp:123-272 | the verdict of the typed selector law |
| `Selection.VerdictExactly` | src/cognition/selector_eval.cpp:123-272 | each verdict, dimension by dimension |
| `Selection.PlacedExactly` | src/cognition/selector_eval.cpp:274-305 | which rules are protected, critical unknowns and supporting |
| `Selection.SizeExactly` | src/cognition/selector_eval.cpp:282-304 | what id, path and each control add to a rule's size |
| `Selection.ScoreExactly` | src/cognition/selector_eval.cpp:31-79 | what each control, explicit id and the repository add to a score |
| `Selection.ContainsExactly` | src/cognition/selector_eval.cpp:36-56 | a text contains a part if and only if it is the part with something or nothing on either side |
| `Selection.Partition` | src/cognition/selector_eval.cpp:274-305 | the three groups in policy order and the protected byte count |
| `Selection.WordScore` | src/cognition/selector_eval.cpp:41-65 | ten for each word of at least five letters the objective mentions |
| `Selection.RankScore` | src/cognition/selector_eval.cpp:31-79 | the lexical score: whole phrases, words, explicit ids and repository |
| `Selection.Rank` | src/cognition/selector_eval.cpp:307-317 | a permutation with higher scores first and, at equal scores, smaller ids first; stable |
| `Selection.FillBudget` | src/cognition/selector_eval.cpp:341-361 | the kept candidates are the longest prefix within the cap |
| `Selection.EvaluateSelection` | src/cognition/selector_eval.cpp:116-366 | every applicable protected rule and critical unknown is kept, the candidates are the longest ranked prefix, and readiness follows |
| `Selection.RankedByScoreThenId` | src/cognition/selector_eval.cpp:307-317 | earlier in the ranking means a higher score, or the same score and no larger id; ties keep policy order |
| `Selection.CandidatesOutrank` | src/cognition/selector_eval.cpp:307-361 | in every evaluation the candidates are in that order, and precede every supporting rule that was not kept |
| `Selection.ReadinessExactly` | src/cognition/selector_eval.cpp:327-366 | each readiness by what the listed rules take, the budget and the unknowns |
| `Selection.SelectionDetermined` | src/cognition/selector_eval.cpp:116-366 | the whole result is determined by the inputs |
| `Selection.SelectionIgnoresRuleOrder` | src/cognition/selector_eval.cpp:116-366 | permuting rules with unique ids changes neither candidates nor readiness |
| `Selection.BudgetHeld` | src/cognition/selector_eval.cpp:327-361 | counted bytes stay within min(requested, policy cap) for shares up to 100 |
| `Selection.BudgetExactly` | src/cognition/selector_eval.cpp:327-344 | the budget is the smaller of request and cap, and the share the percentage rounded down |
| `Selection.BudgetHeldExactly` | src/cognition/selector_eval.cpp:341-361 | the remaining budget is never overrun if and only if the cap is within it or below any rule's size |
| `Selection.LargerCapExtendsExactly` | src/cognition/selector_eval.cpp:341-361 | one cap's choice always extends another's if and only if they are in order or the first fits no rule |
| `Selection.LargerBudgetExtends` | src/cognition/selector_eval.cpp:327-361 | a larger budget keeps everything kept before, when the share does not wrap |
| `Selection.WrapShrinksCap` | src/cognition/selector_eval.cpp:344-344 | a concrete budget whose wrapped cap is below a smaller budget's |
| `Selection.LargerBudgetDropsCandidate` | src/cognition/selector_eval.cpp:327-361 | an evaluation in which the larger budget drops the candidate the smaller one keeps |
| `Selection.ShareOverrunsBudget` | src/cognition/selector_eval.cpp:341-361 | an evaluation whose share of 200 percent overruns the budget |
| `Cutover.CompareEntries` | src/cognition/shadow_compare.cpp:362-391 | the slots, the conflicted repositories and the conflict rows |
| `Cutover.CompareOne` | src/cognition/shadow_compare.cpp:354-446 | conflict rows in lock order, then one row per remaining repository in order |
| `Cutover.CompareRepository` | src/cognition/shadow_compare.cpp:399-445 | the divergence of one repository |
| `Cutover.DivergenceExactly` | src/cognition/shadow_compare.cpp:399-445 | each divergence of a repository by its exact condition, and the fields of its row |
| `Cutover.ConflictExactly` | src/cognition/shadow_compare.cpp:364-391 | an entry conflicts if and only if the entry of its repository before it records a commit and differs |
| `Cutover.ConflictRowsExactly` | src/cognition/shadow_compare.cpp:364-391 | one row per conflict, with what the earlier entry said |
| `Cutover.RowsDetermined` | src/cognition/shadow_compare.cpp:354-446 | the rows, with their order, are determined by the lock and the workspace |
| `Cutover.CutoverGrade` | src/cognition/shadow_compare.cpp:333-350 | true exactly when there are rows and all are equal and not shadow |
| `Cutover.CutoverExactly` | src/cognition/shadow_compare.cpp:333-446 | the gate opens if and only if the lock is non-empty and every governing entry is matched by an authoritative node with equal filters |
| `Cutover.CutoverWithCommits` | src/cognition/shadow_compare.cpp:333-446 | with commits everywhere the gate opens if and only if every entry has a present, non-shadow node with its commit, tree and filters |
| `Cutover.OverwrittenEntryIgnored` | src/cognition/shadow_compare.cpp:364-391 | a lock whose overwritten entry disagrees while the gate opens |
| `Scanner.ScanStringAt` | src/adapter/zcode_event.cpp:17-138 | the same verdict and end with or without extraction, within bounds |
| `Scanner.ReadHex` | src/adapter/zcode_event.cpp:84-101 | four hexadecimal digits, or refusal |
| `Scanner.Utf8RoundTrip` | src/adapter/zcode_event.cpp:103-124 | each accepted code is written in the form of section 3 of RFC 3629 and decodes back |
| `Scanner.ScansExactlyStrings` | src/adapter/zcode_event.cpp:17-138 | a string is accepted with an end and a content if and only if the text is a quoted sequence of allowed units meaning it |
| `Scanner.EscapeRoundTrip` | src/adapter/zcode_event.cpp:17-138 | any octet string can be written and read back |
| `Scanner.UnitsExactly` | src/adapter/zcode_event.cpp:36-82 | which octets stand for themselves and what each escape means, as in section 7 of RFC 8259 |
| `Scanner.HexExactly` | src/adapter/zcode_event.cpp:84-101 | the hexadecimal digits |
| `Scanner.CodesExactly` | src/adapter/zcode_event.cpp:84-124 | a four-digit code is allowed unless it is a surrogate, and means its character |
| `Events.SkipValue` | src/adapter/zcode_event.cpp:157-257 | recursion and loops terminate and return the specified end, strictly further on |
| `Events.Punctuation` | src/adapter/zcode_event.cpp:157-257 | the punctuation and bounds of the scanner |
| `Events.ShallowerAcceptsMore` | src/adapter/zcode_event.cpp:157-162 | acceptance at a depth implies acceptance, with the same end, at any smaller one |
| `Events.NestingBound` | src/adapter/zcode_event.cpp:157-212 | arrays nested n deep are accepted if and only if they stay within depth 16 |
| `Events.SkipShifts` | src/adapter/zcode_event.cpp:157-257 | a value accepted on its own is accepted with the same extent inside any text, before anything that is no part of a number |
| `Events.SkipBack` | src/adapter/zcode_event.cpp:157-257 | a value read inside a text is a value on its own with the same extent |
| `Payload.Extraction.TakeValue` | src/adapter/zcode_event.cpp:298-366 | a wanted, nested or skipped value, including a wanted inner value that is not readable |
| `Payload.Extraction.ParseMembers` | src/adapter/zcode_event.cpp:270-380 | the member loop collects the specified fields and end |
| `Payload.ExtractEvent` | src/adapter/zcode_event.cpp:383-419 | size bound, object start, members and trailing text decide as specified |
| `Payload.KeysSpelled` | src/adapter/zcode_event.cpp:270-349 | the names of the keys that are read |
| `Payload.FieldsByName` | src/adapter/zcode_event.cpp:270-349 | which keys are read at which level, and the field each one sets |
| `Payload.OversizeExactly` | src/adapter/zcode_event.cpp:383-390 | a payload is refused as too large if and only if it is over 1048576 octets |
| `PayloadGrammar.ExtractReadsBack` | src/adapter/zcode_event.cpp:270-419 | extraction of any object of string members, tool inputs and other skippable values, with any blanks and in any order, returns what it states, the last value of each field winning |
| `PayloadGrammar.ExtractsExactly` | src/adapter/zcode_event.cpp:270-419 | extraction yields given fields if and only if the payload is within the size bound and is a writing, in the stated grammar, of one object that states them |
| `PayloadGrammar.TrailingCommaTolerated` | src/adapter/zcode_event.cpp:367-379 | a comma before the closing brace is accepted and says nothing |
| `PayloadGrammar.BrokenStringTolerated` | src/adapter/zcode_event.cpp:301-349 | an unreadable inner string is passed over when the rest of it reads as a value |
| `PayloadGrammar.EventRoundTrip` | src/adapter/zcode_event.cpp:270-419 | any five field values can be written and are extracted unchanged |
| `ValueGrammar.SkipsExactly` | src/adapter/zcode_event.cpp:157-257 | a value is skipped, to a given end, if and only if the text up to there is a writing, in an inductive grammar with a depth of sixteen, of a string, word, number or container |
| `ValueGrammar.SkippableExactly` | src/adapter/zcode_event.cpp:298-366 | so the other members of a payload are exactly those with such a value, at depth 2 and 3 |

## Left out

- Executor.Executor.WorkerTurn: does not model the observed-concurrency maximum, which is diagnostic.
- Operating-system threads, condition variables, pipes, DPAPI, SQLite, git and file access: only the counters, maps and logs they guard are modelled, and waiting is a guard on a step.
- Packet readiness comes from an external library; it is taken as no packet failure and every gating requirement satisfied, and a new packet has no failure.
- Report retry under a full ingress queue: a second push would send a moved-from message; reports are delivered on the first push.
- Id minting: ids are fresh; the bit layout of the sortable ids is not modelled.
- Audit and journal write failures in the host: the log records attempts to append.
- Overflow of 64-bit counters, clocks and byte sums other than the supporting share.
- Selection.EvaluateSelection: does not model the evidence texts and the per-rule score fields of the evaluation list, which only report.
- Binding.RequirementsInjective: takes lists of fewer than 2^32 records, which the 16 MiB builder limit of the source implies.
- Serving.ServeLoop.OpenConnection: does not model a log hook that throws again in a fault handler, which ends the process.
- Serving.ServeConnection: does not model reply contents, error texts or the linger after a terminal error.
- HookHost.RuntimeHost.HandlePreTool: whether a target is governed, and the detail of that judgment, are inputs.
- HookHost.RuntimeHost.HandleSessionStart: does not model the reply's detail text and refresh state.
- HookHost.RuntimeHost.DrainHost: does not model stopping the refresh worker, which is a step of the refresh model, and the journal checkpoint.
- Events.SkipValue: does not claim that accepted text is valid JSON; the scanner tolerates missing and trailing commas.
- Outcome recording and failure memory, activation policy and profile parsing, task bundles, receipts as JSON, the command-line apps and the Python tools.
