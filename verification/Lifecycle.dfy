/** The authorization lifecycle end to end: a decision is consumed by the
    ledger and composed with the lease and the barrier, over runs with saves
    and restarts (src/decision.cpp, src/admission.cpp, src/state_store.cpp). */
module Lifecycle {
  import opened Values
  import opened Binding
  import Admission
  import SingleUse
  import StateImage

  /** What the digests, the scopes of actions and the tokens are computed with. */
  datatype Setting = Setting(crypto: SingleUse.Crypto, scopeOf: ObservedAction -> u64)

  /** The ledger, the barrier and the store as one component sees them, and the
      lease with the barrier as the other does. */
  datatype System = System(world: SingleUse.World, plane: Admission.Plane)

  const INITIAL := System(SingleUse.EMPTY, Admission.INITIAL)

  datatype Op =
    | Authorize(decision: Decision, facts: SingleUse.Facts, now: nat, action: ObservedAction, purpose: Admission.Purpose)
    | Release(grant: Admission.Grant)
    | Raise(scope: u64, transaction: nat)
    | Reconcile(scope: u64, evidence: Admission.Evidence, detail: Bytes)
    | Save
    | Restart

  function Presented(c: Setting, action: ObservedAction): Admission.Presented
  {
    Admission.Presented(SingleUse.ActionDigest(c.crypto, action), c.scopeOf(action))
  }

  function Consumption(c: Setting, s: System, op: Op): ConsumeOutcome
    requires op.Authorize?
  {
    SingleUse.Verdict(c.crypto, s.world.consumed, op.decision, op.facts, op.now)
  }

  /** What the coordinator makes of the ledger's answer. */
  function Composed(c: Setting, s: System, op: Op): (Admission.Plane, Admission.Outcome)
    requires op.Authorize?
  {
    Admission.Compose(s.plane, op.decision, Consumption(c, s, op), Presented(c, op.action), op.purpose)
  }

  /** What the ledger, the barrier set and the store see of a step. */
  function Seen(op: Op): SingleUse.Op
  {
    match op
    case Authorize(decision, facts, now, _, _) => SingleUse.ConsumeOp(decision, facts, now)
    case Release(_) => SingleUse.Elsewhere
    case Raise(scope, _) => SingleUse.RaiseOp(scope)
    case Reconcile(scope, evidence, detail) =>
      if Admission.Lifts(evidence, detail) then SingleUse.LiftOp(scope) else SingleUse.Elsewhere
    case Save => SingleUse.SaveOp
    case Restart => SingleUse.RestartOp
  }

  /** What the lease and the barrier become. A restarted process has a fresh
      authority and raises the restored scopes. */
  ghost function NextPlane(c: Setting, s: System, op: Op): Admission.Plane
  {
    match op
    case Authorize(_, _, _, _, _) => Composed(c, s, op).0
    case Release(grant) => Admission.Release(s.plane, grant)
    case Raise(scope, transaction) => Admission.Raise(s.plane, scope, transaction)
    case Reconcile(scope, evidence, detail) => Admission.Reconcile(s.plane, scope, evidence, detail)
    case Save => s.plane
    case Restart =>
      var restored := SingleUse.Restored(s.world.stored).1;
      Admission.INITIAL.(scopes := map scope | scope in restored :: 0)
  }

  ghost function Apply(c: Setting, s: System, op: Op): System
  {
    System(SingleUse.Apply(s.world, Seen(op)), NextPlane(c, s, op))
  }

  ghost function Run(c: Setting, ops: seq<Op>): System
  {
    if ops == [] then INITIAL else Apply(c, Run(c, ops[..|ops| - 1]), ops[|ops| - 1])
  }

  /** Consuming and composing, in the order an admission does. */
  method AuthorizeAction(c: Setting, ledger: SingleUse.DecisionLedger, coordinator: Admission.AdmissionCoordinator,
                         op: Op, ghost stored: Option<Bytes>)
    returns (outcome: Admission.Outcome)
    requires op.Authorize? && ledger.crypto == c.crypto
    modifies ledger, coordinator.authority
    ensures var s := System(SingleUse.World(old(ledger.consumed), coordinator.barrier.scopes.Keys, stored),
                            old(coordinator.State()));
            && ledger.consumed == Apply(c, s, op).world.consumed
            && coordinator.State() == Apply(c, s, op).plane
            && outcome == Composed(c, s, op).1
  {
    var consumption := ledger.Consume(op.decision, op.facts, op.now);
    outcome := coordinator.ComposeAdmission(op.decision, consumption, Presented(c, op.action), op.purpose);
  }

  // ---- The two views stay together ----

  ghost function SeenAll(ops: seq<Op>): (r: seq<SingleUse.Op>)
    ensures |r| == |ops| && forall i :: 0 <= i < |ops| ==> r[i] == Seen(ops[i])
  {
    seq(|ops|, i requires 0 <= i < |ops| => Seen(ops[i]))
  }

  lemma RunStep(c: Setting, ops: seq<Op>, k: nat)
    requires k < |ops|
    ensures Run(c, ops[..k + 1]) == Apply(c, Run(c, ops[..k]), ops[k])
  {
    assert ops[..k + 1][..k] == ops[..k];
  }

  lemma {:induction false} WorldIsSeen(c: Setting, ops: seq<Op>, n: nat)
    requires n <= |ops|
    ensures Run(c, ops[..n]).world == SingleUse.Run(SeenAll(ops)[..n])
  {
    hide Seen, NextPlane;
    if n > 0 {
      WorldIsSeen(c, ops, n - 1);
      RunStep(c, ops, n - 1);
      SingleUse.RunStep(SeenAll(ops), n - 1);
    }
  }

  lemma StepKeepsScopes(c: Setting, s: System, op: Op)
    requires s.plane.scopes.Keys == s.world.scopes
    ensures Apply(c, s, op).plane.scopes.Keys == Apply(c, s, op).world.scopes
  {
    hide SingleUse.Verdict;
    if op.Authorize? {
      ComposeKeepsScopes(s.plane, op.decision, Consumption(c, s, op), Presented(c, op.action), op.purpose);
    }
  }

  lemma ComposeKeepsScopes(p: Admission.Plane, d: Decision, o: ConsumeOutcome, presented: Admission.Presented,
                           purpose: Admission.Purpose)
    ensures Admission.Compose(p, d, o, presented, purpose).0.scopes == p.scopes
  {
  }

  lemma {:induction false} ScopesAgree(c: Setting, ops: seq<Op>, n: nat)
    requires n <= |ops|
    ensures Run(c, ops[..n]).plane.scopes.Keys == Run(c, ops[..n]).world.scopes
  {
    hide Apply;
    if n > 0 {
      ScopesAgree(c, ops, n - 1);
      RunStep(c, ops, n - 1);
      StepKeepsScopes(c, Run(c, ops[..n - 1]), ops[n - 1]);
    }
  }

  // ---- Dispatches ----

  ghost predicate DispatchesAt(c: Setting, ops: seq<Op>, k: nat)
  {
    k < |ops| && ops[k].Authorize? && Composed(c, Run(c, ops[..k]), ops[k]).1.Dispatched?
  }

  ghost predicate Typed(ops: seq<Op>)
  {
    forall i :: 0 <= i < |ops| && ops[i].Authorize? ==> |ops[i].decision.tokenHash| == StateImage.HASH_SIZE
  }

  lemma ComposeDispatches(p: Admission.Plane, d: Decision, o: ConsumeOutcome, presented: Admission.Presented,
                          purpose: Admission.Purpose)
    requires Admission.Compose(p, d, o, presented, purpose).1.Dispatched?
    ensures o.Consumed? && d.disposition.Allow? && presented.digest == d.actionDigest
    ensures presented.scope !in p.scopes && purpose.SimulatedProof?
  {
  }

  /** Everything the decision was taken under still holds, field by field;
      evidence is compared only when it is given. */
  ghost predicate AllAgree(d: Decision, facts: SingleUse.Facts)
  {
    && d.actionDigest == facts.actionDigest
    && d.generation == facts.generation
    && d.cognitionRevision == facts.cognitionRevision
    && d.profile == facts.profile
    && d.resolverRegistryRevision == facts.resolverRegistryRevision
    && (facts.evidenceSetDigest.Some? ==> d.evidenceSetDigest == facts.evidenceSetDigest.value)
    && d.resourceScopeDigest == facts.resourceScopeDigest
  }

  /** A dispatch is preceded by everything: an unspent, authentic, unexpired and
      fresh allow for the presented action, and a scope without unresolved
      uncertainty. */
  lemma DispatchIsAuthorized(c: Setting, ops: seq<Op>, k: nat)
    requires DispatchesAt(c, ops, k)
    ensures k < |ops| && ops[k].Authorize?
    ensures var s, op := Run(c, ops[..k]), ops[k];
            && op.decision.tokenHash !in s.world.consumed
            && SingleUse.Authentic(c.crypto, op.decision) && SingleUse.InTime(op.decision, op.now)
            && SingleUse.Fresh(op.decision, op.facts) && AllAgree(op.decision, op.facts)
            && op.decision.disposition.Allow? && op.purpose.SimulatedProof?
            && SingleUse.ActionDigest(c.crypto, op.action) == op.decision.actionDigest == op.facts.actionDigest
            && c.scopeOf(op.action) !in s.world.scopes
    ensures SingleUse.AnswersConsumed(c.crypto, SeenAll(ops), k)
  {
    hide Run, SingleUse.Run, SingleUse.Authentic, SingleUse.Verdict, SingleUse.InTime;
    var s, op := Run(c, ops[..k]), ops[k];
    ComposeDispatches(s.plane, op.decision, Consumption(c, s, op), Presented(c, op.action), op.purpose);
    SingleUse.VerdictNames(c.crypto, s.world.consumed, op.decision, op.facts, op.now);
    SingleUse.Agrees(op.decision, op.facts);
    ScopesAgree(c, ops, k);
    WorldIsSeen(c, ops, k);
  }

  /** One token dispatches twice only across a restart that no save since the
      first dispatch precedes, whatever else happens in between. */
  lemma DispatchedTwiceOnlyUnsaved(c: Setting, ops: seq<Op>, j: nat, k: nat)
    requires Typed(ops) && j < k && DispatchesAt(c, ops, j) && DispatchesAt(c, ops, k)
    requires ops[j].decision.tokenHash == ops[k].decision.tokenHash
    ensures exists r: nat :: j < r < k && ops[r].Restart? && !SingleUse.SavedBetween(SeenAll(ops), j, r)
  {
    hide DispatchesAt, SingleUse.AnswersConsumed, SingleUse.SavedBetween;
    var seen := SeenAll(ops);
    DispatchIsAuthorized(c, ops, j);
    DispatchIsAuthorized(c, ops, k);
    SeenTyped(ops);
    assert seen[j] == Seen(ops[j]) && seen[k] == Seen(ops[k]);
    SingleUse.ConsumedTwiceOnlyUnsaved(c.crypto, seen, j, k);
    var r: nat :| j < r < k && seen[r].RestartOp? && !SingleUse.SavedBetween(seen, j, r);
    assert seen[r] == Seen(ops[r]);
  }

  /** Where every restart follows a save made since the last authorization, each
      token dispatches at most once over the whole run. */
  lemma OneDispatchPerToken(c: Setting, ops: seq<Op>)
    requires Typed(ops)
    requires forall j: nat, r: nat :: j < r < |ops| && ops[j].Authorize? && ops[r].Restart? ==>
               SingleUse.SavedBetween(SeenAll(ops), j, r)
    ensures forall j: nat, k: nat :: j < k && DispatchesAt(c, ops, j) && DispatchesAt(c, ops, k) ==>
              ops[j].decision.tokenHash != ops[k].decision.tokenHash
  {
    hide SingleUse.SavedBetween, Run;
    forall j: nat, k: nat | j < k && DispatchesAt(c, ops, j) && DispatchesAt(c, ops, k)
      ensures ops[j].decision.tokenHash != ops[k].decision.tokenHash
    {
      if ops[j].decision.tokenHash == ops[k].decision.tokenHash {
        DispatchedTwiceOnlyUnsaved(c, ops, j, k);
      }
    }
  }

  // ---- Uncertainty survives restarts ----

  /** The scope was raised at i, no authoritative reconciliation lifted it, and
      every restart since found a save made after i. */
  ghost predicate Unresolved(ops: seq<Op>, n: nat, i: nat, scope: u64)
  {
    && i < n <= |ops| && ops[i].Raise? && ops[i].scope == scope
    && (forall l :: i < l < n && ops[l].Reconcile? && ops[l].scope == scope ==>
          !Admission.Lifts(ops[l].evidence, ops[l].detail))
    && (forall r: nat :: i < r < n && ops[r].Restart? ==> SingleUse.SavedBetween(SeenAll(ops), i, r))
  }

  lemma SeenTyped(ops: seq<Op>)
    requires Typed(ops)
    ensures SingleUse.Typed(SeenAll(ops))
  {
    var seen := SeenAll(ops);
    assert forall i :: 0 <= i < |seen| && seen[i].ConsumeOp? ==> ops[i].Authorize? && seen[i].decision == ops[i].decision;
  }

  lemma {:induction false} UnresolvedIsBarred(ops: seq<Op>, n: nat, i: nat, scope: u64)
    requires Typed(ops) && Unresolved(ops, n, i, scope)
    ensures var w := SingleUse.Run(SeenAll(ops)[..n]);
            && scope in w.scopes
            && (SingleUse.SavedBetween(SeenAll(ops), i, n) ==> scope in SingleUse.Restored(w.stored).1)
  {
    hide SingleUse.Run, SingleUse.Restored, SingleUse.SavesAt;
    var seen := SeenAll(ops);
    SeenTyped(ops);
    SingleUse.StepEffect(seen, n - 1);
    SingleUse.ScopeEffect(seen, n - 1);
    if i < n - 1 {
      UnresolvedIsBarred(ops, n - 1, i, scope);
    }
  }

  /** Nothing is dispatched into an unresolved scope, across saves and restarts. */
  lemma UnresolvedIsNeverDispatched(c: Setting, ops: seq<Op>, i: nat, k: nat)
    requires Typed(ops) && k < |ops| && ops[k].Authorize? && Unresolved(ops, k, i, c.scopeOf(ops[k].action))
    ensures !DispatchesAt(c, ops, k)
  {
    hide Run, Unresolved, SingleUse.Run;
    UnresolvedIsBarred(ops, k, i, c.scopeOf(ops[k].action));
    WorldIsSeen(c, ops, k);
    if DispatchesAt(c, ops, k) {
      DispatchIsAuthorized(c, ops, k);
    }
  }

  /** Everything about an authorization that the components check. */
  ghost predicate Authorized(c: Setting, op: Op)
  {
    && op.Authorize? && op.purpose.SimulatedProof? && op.decision.disposition.Allow?
    && SingleUse.Authentic(c.crypto, op.decision) && SingleUse.InTime(op.decision, op.now)
    && SingleUse.Fresh(op.decision, op.facts)
    && SingleUse.ActionDigest(c.crypto, op.action) == op.decision.actionDigest
  }

  /** In a fresh process with nothing restored, an authorized action gets the
      first epoch. */
  lemma FirstDispatch(c: Setting, s: System, op: Op)
    requires Authorized(c, op) && s.world.consumed == {} && s.plane == Admission.INITIAL
    ensures Composed(c, s, op).1.Dispatched? && Composed(c, s, op).1.permit.grant.epoch == 1
    ensures Composed(c, s, op).0.lease == 1
  {
    hide SingleUse.Authentic, SingleUse.Fresh, SingleUse.InTime, SingleUse.ActionDigest;
    SingleUse.VerdictNames(c.crypto, {}, op.decision, op.facts, op.now);
  }

  /** A run that dispatches, restarts without a save and dispatches again. */
  lemma TwoProcesses(c: Setting, a: Op, b: Op)
    requires Authorized(c, a) && Authorized(c, b)
    ensures var ops := [a, Restart, b];
            && DispatchesAt(c, ops, 0) && DispatchesAt(c, ops, 2)
            && GrantAt(c, ops, 0).epoch == 1 && GrantAt(c, ops, 2).epoch == 1
            && Run(c, ops).plane.lease == 1
  {
    hide Authorized, Composed;
    var ops := [a, Restart, b];
    assert ops[..0] == [] && ops[..1] == [a] && ops[..2] == [a, Restart];
    assert [a, Restart][..1] == [a] && [a][..0] == [];
    FirstDispatch(c, INITIAL, a);
    IsAuthorize(c, a);
    IsAuthorize(c, b);
    assert Run(c, [a]).world.stored == None;
    assert Run(c, [a, Restart]).world.consumed == {} && Run(c, [a, Restart]).plane == Admission.INITIAL;
    FirstDispatch(c, Run(c, [a, Restart]), b);
  }

  lemma IsAuthorize(c: Setting, op: Op)
    requires Authorized(c, op)
    ensures op.Authorize?
  {
  }

  /** Without the save, every authentic allow dispatches again after a restart. */
  lemma UnsavedRestartDispatchesAgain(c: Setting, op: Op)
    requires Authorized(c, op)
    ensures var ops := [op, Restart, op]; DispatchesAt(c, ops, 0) && DispatchesAt(c, ops, 2)
  {
    TwoProcesses(c, op, op);
  }

  // ---- Epochs across restarts ----

  ghost function GrantAt(c: Setting, ops: seq<Op>, k: nat): Admission.Grant
    requires DispatchesAt(c, ops, k)
  {
    Composed(c, Run(c, ops[..k]), ops[k]).1.permit.grant
  }

  /** The dispatches among the first n steps since the last restart. */
  ghost function SinceRestart(c: Setting, ops: seq<Op>, n: nat): nat
    requires n <= |ops|
  {
    if n == 0 || ops[n - 1].Restart? then 0
    else SinceRestart(c, ops, n - 1) + if DispatchesAt(c, ops, n - 1) then 1 else 0
  }

  lemma StepLease(c: Setting, s: System, op: Op)
    requires s.plane.nextEpoch > 0
    ensures var p, p' := s.plane, NextPlane(c, s, op);
            && (op.Restart? ==> p'.lease == 0 && p'.nextEpoch == 1)
            && (op.Release? ==> p'.nextEpoch == p.nextEpoch && p'.lease == if p.lease == op.grant.epoch then 0 else p.lease)
            && (op.Authorize? && Composed(c, s, op).1.Dispatched? ==>
                  && p.lease == 0 && p'.lease == p.nextEpoch && p'.nextEpoch == p.nextEpoch + 1
                  && Composed(c, s, op).1.permit.grant.epoch == p.nextEpoch)
            && (!op.Restart? && !op.Release? && !(op.Authorize? && Composed(c, s, op).1.Dispatched?) ==>
                  p'.lease == p.lease && p'.nextEpoch == p.nextEpoch)
  {
    hide SingleUse.Verdict, SingleUse.Restored, SingleUse.ActionDigest;
  }

  /** The authority's counter is what the process has dispatched. */
  lemma {:induction false} EpochsCountDispatches(c: Setting, ops: seq<Op>, n: nat)
    requires n <= |ops|
    ensures Run(c, ops[..n]).plane.nextEpoch == SinceRestart(c, ops, n) + 1
  {
    hide NextPlane, Composed, SingleUse.Apply;
    if n > 0 {
      EpochsCountDispatches(c, ops, n - 1);
      RunStep(c, ops, n - 1);
      StepLease(c, Run(c, ops[..n - 1]), ops[n - 1]);
    }
  }

  /** The dispatch at k got this epoch, and since then its process has neither
      restarted nor seen a release of it. */
  ghost predicate Holds(c: Setting, ops: seq<Op>, k: nat, n: nat, epoch: nat)
  {
    && k < n <= |ops| && DispatchesAt(c, ops, k) && SinceRestart(c, ops, k) + 1 == epoch
    && forall i :: k < i < n ==> !ops[i].Restart? && !(ops[i].Release? && ops[i].grant.epoch == epoch)
  }

  lemma {:induction false} HoldingIsLeased(c: Setting, ops: seq<Op>, k: nat, n: nat, epoch: nat)
    requires Holds(c, ops, k, n, epoch)
    ensures Run(c, ops[..n]).plane.lease == epoch
  {
    hide NextPlane, Composed, SingleUse.Apply, Run;
    EpochsCountDispatches(c, ops, n - 1);
    RunStep(c, ops, n - 1);
    StepLease(c, Run(c, ops[..n - 1]), ops[n - 1]);
    if k < n - 1 {
      HoldingIsLeased(c, ops, k, n - 1, epoch);
    }
  }

  lemma {:induction false} LeasedIsHolding(c: Setting, ops: seq<Op>, n: nat, epoch: nat)
    requires n <= |ops| && epoch != 0 && Run(c, ops[..n]).plane.lease == epoch
    ensures exists k: nat :: Holds(c, ops, k, n, epoch)
  {
    hide NextPlane, Composed, SingleUse.Apply;
    if n > 0 {
      EpochsCountDispatches(c, ops, n - 1);
      RunStep(c, ops, n - 1);
      StepLease(c, Run(c, ops[..n - 1]), ops[n - 1]);
      if DispatchesAt(c, ops, n - 1) {
        assert Holds(c, ops, n - 1, n, epoch);
      } else {
        LeasedIsHolding(c, ops, n - 1, epoch);
        var k: nat :| Holds(c, ops, k, n - 1, epoch);
        assert Holds(c, ops, k, n, epoch);
      }
    }
  }

  /** Any grant, however old, is valid exactly when the current process has made a
      dispatch with its epoch that was not released since. */
  lemma ValidExactly(c: Setting, ops: seq<Op>, n: nat, grant: Admission.Grant)
    requires n <= |ops|
    ensures Admission.StillValid(Run(c, ops[..n]).plane, grant) <==>
            grant.epoch != 0 && exists k: nat :: Holds(c, ops, k, n, grant.epoch)
  {
    hide Holds, Run;
    if Admission.StillValid(Run(c, ops[..n]).plane, grant) {
      LeasedIsHolding(c, ops, n, grant.epoch);
    }
    if k: nat :| Holds(c, ops, k, n, grant.epoch) {
      HoldingIsLeased(c, ops, k, n, grant.epoch);
    }
  }

  /** A grant issued before a restart validates again, and would free the lease
      when released, exactly while the new process holds its own lease of the same
      epoch. */
  lemma OldGrantValidAgainExactly(c: Setting, ops: seq<Op>, j: nat, r: nat, n: nat)
    requires DispatchesAt(c, ops, j) && j < r < n <= |ops| && ops[r].Restart?
    ensures var grant, p := GrantAt(c, ops, j), Run(c, ops[..n]).plane;
            var epoch := SinceRestart(c, ops, j) + 1;
            var held := exists k: nat :: r < k && Holds(c, ops, k, n, epoch);
            && (Admission.StillValid(p, grant) <==> held)
            && (Admission.Release(p, grant).lease != p.lease <==> held)
  {
    hide Run, NextPlane, Composed, SingleUse.Apply;
    var grant := GrantAt(c, ops, j);
    EpochsCountDispatches(c, ops, j);
    StepLease(c, Run(c, ops[..j]), ops[j]);
    ValidExactly(c, ops, n, grant);
    forall k: nat | Holds(c, ops, k, n, grant.epoch) ensures r < k {
      assert !DispatchesAt(c, ops, r);
    }
  }

  /** Without a restart in between, epochs never repeat. */
  lemma EpochsGrowWithinProcess(c: Setting, ops: seq<Op>, j: nat, k: nat)
    requires j < k && DispatchesAt(c, ops, j) && DispatchesAt(c, ops, k)
    requires forall i :: j < i < k ==> !ops[i].Restart?
    ensures GrantAt(c, ops, j).epoch < GrantAt(c, ops, k).epoch
  {
    hide Run, NextPlane, Composed, SinceRestart;
    EpochsCountDispatches(c, ops, j);
    EpochsCountDispatches(c, ops, k);
    StepLease(c, Run(c, ops[..j]), ops[j]);
    StepLease(c, Run(c, ops[..k]), ops[k]);
    SinceGrows(c, ops, j, k);
  }

  lemma {:induction false} SinceGrows(c: Setting, ops: seq<Op>, j: nat, n: nat)
    requires j < n <= |ops| && DispatchesAt(c, ops, j) && forall i :: j < i < n ==> !ops[i].Restart?
    ensures SinceRestart(c, ops, j) < SinceRestart(c, ops, n)
  {
    hide Composed, Run;
    if j < n - 1 {
      SinceGrows(c, ops, j, n - 1);
    }
  }

  /** A restart starts the epochs over: the grant of the first process validates
      in the second, and releasing it frees the second's lease. */
  lemma RestartReusesEpoch(c: Setting, a: Op, b: Op)
    requires Authorized(c, a) && Authorized(c, b)
    ensures var ops := [a, Restart, b];
            && DispatchesAt(c, ops, 0) && DispatchesAt(c, ops, 2)
            && Admission.StillValid(Run(c, ops).plane, GrantAt(c, ops, 0))
            && Admission.Release(Run(c, ops).plane, GrantAt(c, ops, 0)).lease == 0
  {
    hide Run, DispatchesAt, GrantAt;
    TwoProcesses(c, a, b);
  }

  // ---- Exactly which authorizations dispatch ----

  /** Nothing in the current process holds the lease. */
  ghost predicate LeaseFree(c: Setting, ops: seq<Op>, k: nat)
  {
    forall j: nat, epoch: nat :: !Holds(c, ops, j, k, epoch)
  }

  lemma LeaseFreeExactly(c: Setting, ops: seq<Op>, k: nat)
    requires k <= |ops|
    ensures Run(c, ops[..k]).plane.lease == 0 <==> LeaseFree(c, ops, k)
  {
    hide Run, Holds;
    var lease := Run(c, ops[..k]).plane.lease;
    if lease != 0 {
      LeasedIsHolding(c, ops, k, lease);
    }
    if j: nat, epoch: nat :| Holds(c, ops, j, k, epoch) {
      HoldingIsLeased(c, ops, j, k, epoch);
      HeldEpochPositive(c, ops, j, k, epoch);
    }
  }

  lemma HeldEpochPositive(c: Setting, ops: seq<Op>, j: nat, k: nat, epoch: nat)
    requires Holds(c, ops, j, k, epoch)
    ensures epoch > 0
  {
  }

  /** Over every history of authorizations, releases, raises, reconciliations,
      saves and restarts, which authorizations dispatch, in terms of that history
      alone: no earlier attempt on the token survived, its MAC and hash are
      right, its time is not up, every fact it was bound to still holds, it is an
      allow for the presented action and a simulated purpose, no raise of the
      effect scope survives without a surviving lift, and the process holds no
      unreleased lease. */
  lemma DispatchesExactly(c: Setting, ops: seq<Op>, k: nat)
    requires Typed(ops) && k < |ops| && ops[k].Authorize?
    ensures var op, seen := ops[k], SeenAll(ops);
            var d := op.decision;
            DispatchesAt(c, ops, k) <==>
            && !(exists i: nat :: SingleUse.Live(seen, k, i, d.tokenHash))
            && c.crypto.hmac(TokenPreimage(d)) == d.token.mac
            && c.crypto.sha256(d.token.mac + d.token.nonce) == d.tokenHash
            && (d.expiresAt == 0 || op.now <= d.expiresAt)
            && AllAgree(d, op.facts)
            && d.disposition.Allow? && op.purpose == Admission.SimulatedProof
            && c.crypto.sha256(Items(ActionItems(op.action))) == d.actionDigest
            && !(exists i: nat :: SingleUse.RaisedAt(seen, k, i, c.scopeOf(op.action)))
            && LeaseFree(c, ops, k)
  {
    hide Run, SingleUse.Run, SingleUse.Live, SingleUse.RaisedAt, LeaseFree, TokenPreimage, Items, SingleUse.Verdict;
    var op, seen := ops[k], SeenAll(ops);
    var s := Run(c, ops[..k]);
    SeenTyped(ops);
    WorldIsSeen(c, ops, k);
    ScopesAgree(c, ops, k);
    SingleUse.SpentExactlyWhenSaved(seen, k, op.decision.tokenHash);
    SingleUse.BarredExactly(seen, k, c.scopeOf(op.action));
    LeaseFreeExactly(c, ops, k);
    SingleUse.VerdictExactly(c.crypto, s.world.consumed, op.decision, op.facts, op.now);
    EpochsCountDispatches(c, ops, k);
    ComposedExactly(s.plane, op.decision, Consumption(c, s, op), Presented(c, op.action), op.purpose);
    hide Admission.Compose, SingleUse.NamesChange;
    ConsumedAgrees(op.decision, op.facts, Consumption(c, s, op));
  }

  lemma ComposedExactly(p: Admission.Plane, d: Decision, o: ConsumeOutcome, presented: Admission.Presented,
                        purpose: Admission.Purpose)
    requires p.nextEpoch > 0
    ensures Admission.Compose(p, d, o, presented, purpose).1.Dispatched? <==>
            && o.Consumed? && d.disposition.Allow? && presented.digest == d.actionDigest
            && presented.scope !in p.scopes && purpose.SimulatedProof? && p.lease == 0
  {
  }

  lemma ConsumedAgrees(d: Decision, facts: SingleUse.Facts, o: ConsumeOutcome)
    ensures SingleUse.NamesChange(d, facts, o) ==> (o.Consumed? <==> AllAgree(d, facts))
  {
  }
}
