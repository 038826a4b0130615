/** From a consumed decision to a dispatched action: the single-writer lease
    (src/port/execution_authority.cpp), the reconciliation barrier
    (src/reconciliation.cpp) and their composition (src/admission.cpp). */
module Admission {
  import opened Values
  import opened Binding

  datatype Purpose = RealMutation | SimulatedProof

  datatype Grant = Grant(epoch: nat, fence: nat, transaction: nat)

  datatype Refusal = NoAuthority | LeaseHeld

  /** A refusal is a denial by the authority; any other error is a failure of the
      authority itself. */
  datatype GrantResult = Granted(grant: Grant) | Refused(refusal: Refusal) | Failure

  /** The presented action: its re-derived digest and effect scope. */
  datatype Presented = Presented(digest: Bytes, scope: u64)

  datatype Permit = Permit(grant: Grant, transaction: nat, actionDigest: Bytes, scope: u64)

  datatype Outcome =
    | Dispatched(permit: Permit)
    | DeniedNoCognitiveAllow
    | DeniedByExecutionAuthority
    | DeniedAuthorityError
    | DeniedStaleGrant
    | DeniedReconciliationBarrier

  datatype Evidence = AuthoritativeObservation | NoEvidence

  datatype Fingerprint = Fingerprint(operation: Bytes, category: Bytes, stableMessage: Bytes)

  datatype Resolution = ResolvedSucceeded | ResolvedFailed(fingerprint: Fingerprint) | StillIndeterminate

  /** The prefix of an authoritative failure observation. */
  const FAILED_PREFIX: Bytes := Ascii("failed:")
  const RECONCILED: Bytes := Ascii("reconciled")
  const OBSERVATION: Bytes := Ascii("authoritative-observation")

  // ---- Values ----

  datatype Plane = Plane(nextEpoch: nat, lease: nat, holder: nat, scopes: map<u64, nat>)

  const INITIAL := Plane(1, 0, 0, map[])

  predicate StillValid(p: Plane, grant: Grant)
  {
    grant.epoch != 0 && p.lease == grant.epoch
  }

  function Request(p: Plane, purpose: Purpose, transaction: nat): (Plane, GrantResult)
  {
    if purpose.RealMutation? then (p, Refused(NoAuthority))
    else if p.lease != 0 then (p, Refused(LeaseHeld))
    else
      (p.(nextEpoch := p.nextEpoch + 1, lease := p.nextEpoch, holder := transaction),
       Granted(Grant(p.nextEpoch, p.nextEpoch, transaction)))
  }

  function Release(p: Plane, grant: Grant): Plane
  {
    if p.lease == grant.epoch then p.(lease := 0, holder := 0) else p
  }

  function Compose(p: Plane, decision: Decision, consumption: ConsumeOutcome, presented: Presented, purpose: Purpose)
    : (Plane, Outcome)
  {
    if !consumption.Consumed? || !decision.disposition.Allow? then (p, DeniedNoCognitiveAllow)
    else if presented.digest != decision.actionDigest then (p, DeniedNoCognitiveAllow)
    else if presented.scope in p.scopes then (p, DeniedReconciliationBarrier)
    else
      var (p', result) := Request(p, purpose, decision.transaction);
      match result
      case Refused(_) => (p', DeniedByExecutionAuthority)
      case Failure => (p', DeniedAuthorityError)
      case Granted(grant) =>
        if !StillValid(p', grant) then (Release(p', grant), DeniedStaleGrant)
        else (p', Dispatched(Permit(grant, decision.transaction, decision.actionDigest, presented.scope)))
  }

  predicate Lifts(evidence: Evidence, detail: Bytes)
  {
    evidence.AuthoritativeObservation? && detail != []
  }

  function Raise(p: Plane, scope: u64, transaction: nat): Plane
  {
    if scope in p.scopes then p else p.(scopes := p.scopes[scope := transaction])
  }

  /** What an observation resolves to; the failure text is normalized by a
      function of the context library. */
  function Resolved(normalize: Bytes -> Bytes, evidence: Evidence, detail: Bytes): Resolution
  {
    if !Lifts(evidence, detail) then StillIndeterminate
    else if FAILED_PREFIX <= detail then
      ResolvedFailed(Fingerprint(RECONCILED, OBSERVATION, normalize(detail[|FAILED_PREFIX|..])))
    else ResolvedSucceeded
  }

  function Reconcile(p: Plane, scope: u64, evidence: Evidence, detail: Bytes): Plane
  {
    if Lifts(evidence, detail) then p.(scopes := p.scopes - {scope}) else p
  }

  // ---- The objects, updated in place ----

  class NullExecutionAuthority {
    var nextEpoch: nat
    var lease: nat
    var holder: nat

    constructor ()
      ensures nextEpoch == 1 && lease == 0 && holder == 0
    {
      nextEpoch, lease, holder := 1, 0, 0;
    }

    method RequestAdmission(purpose: Purpose, transaction: nat) returns (result: GrantResult)
      modifies this
      ensures forall scopes :: (Plane(nextEpoch, lease, holder, scopes), result)
                == Request(old(Plane(nextEpoch, lease, holder, scopes)), purpose, transaction)
    {
      if purpose.RealMutation? {
        return Refused(NoAuthority);
      }
      if lease != 0 {
        return Refused(LeaseHeld);
      }
      var grant := Grant(nextEpoch, nextEpoch, transaction);
      nextEpoch := nextEpoch + 1;
      lease := grant.epoch;
      holder := transaction;
      return Granted(grant);
    }

    method ReleaseGrant(grant: Grant)
      modifies this`lease, this`holder
      ensures forall scopes :: Plane(nextEpoch, lease, holder, scopes)
                == Release(old(Plane(nextEpoch, lease, holder, scopes)), grant)
    {
      if lease == grant.epoch {
        lease, holder := 0, 0;
      }
    }

    method GrantStillValid(grant: Grant) returns (valid: bool)
      ensures valid <==> grant.epoch != 0 && lease == grant.epoch
    {
      return grant.epoch != 0 && lease == grant.epoch;
    }
  }

  class ReconciliationBarrier {
    var scopes: map<u64, nat>

    constructor ()
      ensures scopes == map[]
    {
      scopes := map[];
    }

    method RaiseOver(scope: u64, transaction: nat)
      modifies this
      ensures scopes == if scope in old(scopes) then old(scopes) else old(scopes)[scope := transaction]
    {
      if scope !in scopes {
        scopes := scopes[scope := transaction];
      }
    }

    /** An equivalent mutation is blocked in a raised scope; an independent one
        never is. */
    method Check(scope: u64, independent: bool) returns (blocked: bool)
      ensures blocked <==> !independent && scope in scopes
    {
      if independent {
        return false;
      }
      return scope in scopes;
    }

    method Lift(scope: u64)
      modifies this
      ensures scopes == old(scopes) - {scope}
    {
      scopes := scopes - {scope};
    }
  }

  class ReconciliationCoordinator {
    const barrier: ReconciliationBarrier
    const normalize: Bytes -> Bytes
    var resolutions: nat

    constructor (barrier: ReconciliationBarrier, normalize: Bytes -> Bytes)
      ensures this.barrier == barrier && this.normalize == normalize && resolutions == 0
    {
      this.barrier, this.normalize := barrier, normalize;
      resolutions := 0;
    }

    method ReconcileScope(scope: u64, evidence: Evidence, detail: Bytes) returns (resolution: Resolution)
      modifies this`resolutions, barrier
      ensures resolutions == old(resolutions) + 1
      ensures barrier.scopes == Reconcile(INITIAL.(scopes := old(barrier.scopes)), scope, evidence, detail).scopes
      ensures resolution == Resolved(normalize, evidence, detail)
    {
      resolutions := resolutions + 1;
      if evidence != AuthoritativeObservation || detail == [] {
        return StillIndeterminate;
      }
      barrier.Lift(scope);
      if FAILED_PREFIX <= detail {
        return ResolvedFailed(Fingerprint(RECONCILED, OBSERVATION, normalize(detail[7..])));
      }
      return ResolvedSucceeded;
    }
  }

  class AdmissionCoordinator {
    const authority: NullExecutionAuthority
    const barrier: ReconciliationBarrier

    constructor (authority: NullExecutionAuthority, barrier: ReconciliationBarrier)
      ensures this.authority == authority && this.barrier == barrier
    {
      this.authority, this.barrier := authority, barrier;
    }

    ghost function State(): Plane
      reads authority, barrier
    {
      Plane(authority.nextEpoch, authority.lease, authority.holder, barrier.scopes)
    }

    method ComposeAdmission(decision: Decision, consumption: ConsumeOutcome, presented: Presented, purpose: Purpose)
      returns (outcome: Outcome)
      modifies authority
      ensures (State(), outcome) == Compose(old(State()), decision, consumption, presented, purpose)
    {
      if !consumption.Consumed? || !decision.disposition.Allow? {
        return DeniedNoCognitiveAllow;
      }
      if presented.digest != decision.actionDigest {
        return DeniedNoCognitiveAllow;
      }
      var blocked := barrier.Check(presented.scope, false);
      if blocked {
        return DeniedReconciliationBarrier;
      }
      var result := authority.RequestAdmission(purpose, decision.transaction);
      if result.Refused? {
        return DeniedByExecutionAuthority;
      }
      if result.Failure? {
        return DeniedAuthorityError;
      }
      var valid := authority.GrantStillValid(result.grant);
      if !valid {
        authority.ReleaseGrant(result.grant);
        return DeniedStaleGrant;
      }
      return Dispatched(Permit(result.grant, decision.transaction, decision.actionDigest, presented.scope));
    }
  }

  // ---- Runs ----

  datatype Op =
    | ComposeOp(decision: Decision, consumption: ConsumeOutcome, presented: Presented, purpose: Purpose)
    | ReleaseOp(grant: Grant)
    | RaiseOp(scope: u64, transaction: nat)
    | ReconcileOp(scope: u64, evidence: Evidence, detail: Bytes)

  ghost function Apply(p: Plane, op: Op): Plane
  {
    match op
    case ComposeOp(decision, consumption, presented, purpose) =>
      Compose(p, decision, consumption, presented, purpose).0
    case ReleaseOp(grant) => Release(p, grant)
    case RaiseOp(scope, transaction) => Raise(p, scope, transaction)
    case ReconcileOp(scope, evidence, detail) => Reconcile(p, scope, evidence, detail)
  }

  ghost function Run(ops: seq<Op>): Plane
  {
    if ops == [] then INITIAL else Apply(Run(ops[..|ops| - 1]), ops[|ops| - 1])
  }

  /** What the composition at position k answers. */
  ghost function Answer(ops: seq<Op>, k: nat): Outcome
    requires k < |ops| && ops[k].ComposeOp?
  {
    Compose(Run(ops[..k]), ops[k].decision, ops[k].consumption, ops[k].presented, ops[k].purpose).1
  }

  ghost predicate DispatchesAt(ops: seq<Op>, k: nat)
  {
    k < |ops| && ops[k].ComposeOp? && Answer(ops, k).Dispatched?
  }

  ghost predicate Issued(p: Plane, grant: Grant)
  {
    0 < grant.epoch < p.nextEpoch
  }

  lemma RunStep(ops: seq<Op>, k: nat)
    requires k < |ops|
    ensures Run(ops[..k + 1]) == Apply(Run(ops[..k]), ops[k])
  {
    assert ops[..k + 1][..k] == ops[..k];
  }

  lemma {:induction false} RunMonotone(ops: seq<Op>, j: nat, k: nat)
    requires j <= k <= |ops|
    ensures 0 < Run(ops[..j]).nextEpoch <= Run(ops[..k]).nextEpoch
    ensures Run(ops[..k]).lease < Run(ops[..k]).nextEpoch
  {
    if k > 0 {
      RunMonotone(ops, if j == k then k - 1 else j, k - 1);
      RunStep(ops, k - 1);
    }
  }

  /** Later dispatches carry strictly larger epochs. */
  lemma EpochsIncrease(ops: seq<Op>, j: nat, k: nat)
    requires j < k && DispatchesAt(ops, j) && DispatchesAt(ops, k)
    ensures 0 < Answer(ops, j).permit.grant.epoch < Answer(ops, k).permit.grant.epoch
  {
    RunMonotone(ops, j + 1, k);
    RunMonotone(ops, j, j);
    RunStep(ops, j);
  }

  /** A grant that has been issued and is no longer valid never becomes valid
      again, whatever is released, forged or requested later. */
  lemma {:induction false} StaleStaysStale(ops: seq<Op>, j: nat, k: nat, grant: Grant)
    requires j <= k <= |ops|
    requires Issued(Run(ops[..j]), grant) && !StillValid(Run(ops[..j]), grant)
    ensures !StillValid(Run(ops[..k]), grant)
  {
    if j < k {
      StaleStaysStale(ops, j, k - 1, grant);
      RunMonotone(ops, j, k - 1);
      RunStep(ops, k - 1);
    }
  }

  /** A release of that epoch happened after j and before n. */
  ghost predicate ReleasedBetween(ops: seq<Op>, j: nat, n: nat, epoch: nat)
    requires n <= |ops|
  {
    exists r :: j < r < n && ops[r].ReleaseOp? && ops[r].grant.epoch == epoch
  }

  /** The grant of a dispatch is valid until a release of its own epoch and never
      after; while it is valid no other epoch is, and releasing any other, stale
      or forged, changes nothing. */
  lemma OneWriter(ops: seq<Op>, j: nat, n: nat)
    requires j < n <= |ops| && DispatchesAt(ops, j)
    ensures var grant, p := Answer(ops, j).permit.grant, Run(ops[..n]);
            && (StillValid(p, grant) <==> !ReleasedBetween(ops, j, n, grant.epoch))
            && (StillValid(p, grant) ==>
                  forall other: Grant :: other.epoch != grant.epoch ==> !StillValid(p, other) && Release(p, other) == p)
  {
    hide Run;
    var grant := Answer(ops, j).permit.grant;
    RunMonotone(ops, j, j);
    RunStep(ops, j);
    if !StillValid(Run(ops[..n]), grant) {
      HeldUntilReleased(ops, j, n, grant.epoch);
    } else if r :| j < r < n && ops[r].ReleaseOp? && ops[r].grant.epoch == grant.epoch {
      RunMonotone(ops, j + 1, r + 1);
      RunStep(ops, r);
      StaleStaysStale(ops, r + 1, n, grant);
    }
  }

  /** Between two dispatches the earlier lease has been released. */
  lemma LeaseReleasedBetween(ops: seq<Op>, j: nat, k: nat)
    requires j < k && DispatchesAt(ops, j) && DispatchesAt(ops, k)
    ensures exists r :: j < r < k && ops[r].ReleaseOp? && ops[r].grant.epoch == Answer(ops, j).permit.grant.epoch
  {
    RunMonotone(ops, j, j);
    RunStep(ops, j);
    assert Run(ops[..k]).lease == 0;
    HeldUntilReleased(ops, j, k, Answer(ops, j).permit.grant.epoch);
  }

  lemma {:induction false} HeldUntilReleased(ops: seq<Op>, j: nat, k: nat, epoch: nat)
    requires j < k <= |ops| && epoch != 0 && Run(ops[..j + 1]).lease == epoch && Run(ops[..k]).lease != epoch
    ensures exists r :: j < r < k && ops[r].ReleaseOp? && ops[r].grant.epoch == epoch
  {
    if Run(ops[..k - 1]).lease != epoch {
      assert k - 1 != j + 1;
      HeldUntilReleased(ops, j, k - 1, epoch);
    } else {
      RunStep(ops, k - 1);
    }
  }

  /** The scope was raised at i and not authoritatively reconciled since. */
  ghost predicate Stands(ops: seq<Op>, n: nat, i: nat, scope: u64)
  {
    && i < n <= |ops| && ops[i].RaiseOp? && ops[i].scope == scope
    && forall j :: i < j < n && ops[j].ReconcileOp? && ops[j].scope == scope ==>
         !Lifts(ops[j].evidence, ops[j].detail)
  }

  ghost predicate RaisedSince(ops: seq<Op>, n: nat, scope: u64)
  {
    exists i: nat :: Stands(ops, n, i, scope)
  }

  lemma {:induction false} StandingIsBarred(ops: seq<Op>, n: nat, i: nat, scope: u64)
    requires Stands(ops, n, i, scope)
    ensures scope in Run(ops[..n]).scopes
  {
    hide Run;
    RunStep(ops, n - 1);
    if i < n - 1 {
      StandingIsBarred(ops, n - 1, i, scope);
    }
  }

  lemma {:induction false} BarredIsStanding(ops: seq<Op>, n: nat, scope: u64)
    requires n <= |ops| && scope in Run(ops[..n]).scopes
    ensures RaisedSince(ops, n, scope)
  {
    if n > 0 {
      var m := n - 1;
      RunStep(ops, m);
      if scope in Run(ops[..m]).scopes {
        BarredIsStanding(ops, m, scope);
        var i: nat :| Stands(ops, m, i, scope);
        assert Stands(ops, n, i, scope);
      } else {
        assert Stands(ops, n, m, scope);
      }
    }
  }

  /** Over any history, a scope is barred exactly when it was raised and not
      authoritatively reconciled since. */
  lemma BarredExactlyWhenUnreconciled(ops: seq<Op>, n: nat, scope: u64)
    requires n <= |ops|
    ensures scope in Run(ops[..n]).scopes <==> RaisedSince(ops, n, scope)
  {
    if scope in Run(ops[..n]).scopes {
      BarredIsStanding(ops, n, scope);
    }
    if i: nat :| Stands(ops, n, i, scope) {
      StandingIsBarred(ops, n, i, scope);
    }
  }

  /** Everything a dispatch implies, in any run: a consumed allow for exactly
      the presented action, no real mutation, and an effect scope with no
      unreconciled uncertainty. Stale-grant and authority-error denials never
      happen. */
  lemma DispatchSafety(ops: seq<Op>, k: nat)
    requires k < |ops| && ops[k].ComposeOp?
    ensures !Answer(ops, k).DeniedStaleGrant? && !Answer(ops, k).DeniedAuthorityError?
    ensures DispatchesAt(ops, k) ==>
              && ops[k].purpose.SimulatedProof?
              && ops[k].consumption.Consumed? && ops[k].decision.disposition.Allow?
              && ops[k].presented.digest == ops[k].decision.actionDigest
              && !RaisedSince(ops, k, ops[k].presented.scope)
              && Answer(ops, k).permit.scope == ops[k].presented.scope
              && Answer(ops, k).permit.actionDigest == ops[k].presented.digest
              && Answer(ops, k).permit.transaction == ops[k].decision.transaction
              && StillValid(Run(ops[..k + 1]), Answer(ops, k).permit.grant)
              && Answer(ops, k).permit.grant.transaction == ops[k].decision.transaction
  {
    RunMonotone(ops, k, k);
    RunStep(ops, k);
    BarredExactlyWhenUnreconciled(ops, k, ops[k].presented.scope);
  }

  /** A dispatch of the run still holds the lease at n. */
  ghost predicate Holds(ops: seq<Op>, j: nat, n: nat)
    requires n <= |ops|
  {
    j < n && DispatchesAt(ops, j) && !ReleasedBetween(ops, j, n, Answer(ops, j).permit.grant.epoch)
  }

  ghost predicate HoldsAs(ops: seq<Op>, j: nat, n: nat, p: Plane)
    requires n <= |ops|
  {
    Holds(ops, j, n) && Answer(ops, j).permit.grant.epoch == p.lease && ops[j].decision.transaction == p.holder
  }

  lemma {:induction false} LeaseHasHolder(ops: seq<Op>, n: nat)
    requires n <= |ops|
    ensures Run(ops[..n]).lease != 0 ==> exists j: nat :: HoldsAs(ops, j, n, Run(ops[..n]))
    ensures Run(ops[..n]).lease == 0 ==> Run(ops[..n]).holder == 0
  {
    hide Run;
    if n == 0 {
      NoLeaseYet(ops);
    } else {
      var m := n - 1;
      LeaseHasHolder(ops, m);
      RunStep(ops, m);
      RunMonotone(ops, m, m);
      if Run(ops[..n]).lease != 0 {
        if DispatchesAt(ops, m) {
          assert HoldsAs(ops, m, n, Run(ops[..n]));
        } else {
          var j: nat :| HoldsAs(ops, j, m, Run(ops[..m]));
          assert HoldsAs(ops, j, n, Run(ops[..n]));
        }
      }
    }
  }

  lemma NoLeaseYet(ops: seq<Op>)
    ensures Run(ops[..0]).lease == 0 && Run(ops[..0]).holder == 0
  {
  }

  /** The lease is taken exactly while some dispatch has not been released, and
      its holder is that dispatch's transaction. */
  lemma LeasedExactly(ops: seq<Op>, n: nat)
    requires n <= |ops|
    ensures Run(ops[..n]).lease != 0 <==> exists j: nat :: Holds(ops, j, n)
    ensures forall j: nat :: Holds(ops, j, n) ==> Run(ops[..n]).holder == ops[j].decision.transaction
    ensures Run(ops[..n]).lease == 0 ==> Run(ops[..n]).holder == 0
  {
    hide Run;
    LeaseHasHolder(ops, n);
    forall j: nat | Holds(ops, j, n)
      ensures Run(ops[..n]).lease != 0 && Run(ops[..n]).holder == ops[j].decision.transaction
    {
      OneWriter(ops, j, n);
      var i: nat :| HoldsAs(ops, i, n, Run(ops[..n]));
      if i < j {
        EpochsIncrease(ops, i, j);
      } else if j < i {
        EpochsIncrease(ops, j, i);
      }
    }
  }

  /** What every composition of every run answers, and exactly when: dispatched
      needs a consumed allow for the presented action, a scope without
      unreconciled uncertainty, a simulated purpose and no unreleased dispatch;
      each denial is the first of these that fails. */
  lemma AnswersExactly(ops: seq<Op>, k: nat)
    requires k < |ops| && ops[k].ComposeOp?
    ensures var answer, op := Answer(ops, k), ops[k];
            var allowed := && op.consumption == Consumed && op.decision.disposition.Allow?
                           && op.presented.digest == op.decision.actionDigest;
            var barred := RaisedSince(ops, k, op.presented.scope);
            var leased := exists j: nat :: Holds(ops, j, k);
            && (answer.DeniedNoCognitiveAllow? <==> !allowed)
            && (answer.DeniedReconciliationBarrier? <==> allowed && barred)
            && (answer.DeniedByExecutionAuthority? <==>
                  allowed && !barred && (op.purpose == RealMutation || leased))
            && (answer.Dispatched? <==> allowed && !barred && op.purpose == SimulatedProof && !leased)
  {
    hide Run;
    RunMonotone(ops, k, k);
    BarredExactlyWhenUnreconciled(ops, k, ops[k].presented.scope);
    LeasedExactly(ops, k);
    hide Holds, RaisedSince;
  }

  /** What an observation resolves to: nothing without authority and detail, a
      failure exactly for a detail that starts with the failure mark, with the
      rest of it as its normalized text, and otherwise a success. */
  lemma ResolvedExactly(normalize: Bytes -> Bytes, evidence: Evidence, detail: Bytes)
    ensures var resolution, mark := Resolved(normalize, evidence, detail), Ascii("failed:");
            && (resolution.StillIndeterminate? <==> evidence != AuthoritativeObservation || detail == [])
            && (resolution.ResolvedFailed? <==> evidence == AuthoritativeObservation && mark <= detail)
            && (resolution.ResolvedSucceeded? <==>
                  evidence == AuthoritativeObservation && detail != [] && !(mark <= detail))
            && (forall text :: evidence == AuthoritativeObservation && detail == mark + text ==>
                  resolution == ResolvedFailed(Fingerprint(Ascii("reconciled"), Ascii("authoritative-observation"),
                                                           normalize(text))))
  {
    forall text | detail == FAILED_PREFIX + text ensures detail[|FAILED_PREFIX|..] == text {
    }
  }

  /** A raise over a raised scope keeps the transaction that raised it first. */
  lemma FirstRaiserKept(p: Plane, scope: u64, first: nat, second: nat)
    requires scope !in p.scopes
    ensures Raise(p, scope, first).scopes[scope] == first
    ensures Raise(Raise(p, scope, first), scope, second) == Raise(p, scope, first)
  {
  }
}
