/** The control transaction and its two preparation gates (src/transaction.cpp). */
module Transactions {
  import opened Values
  import opened Requirements

  datatype Status = Pending | Satisfied | Failed

  /** Where the evidence recorded for a requirement came from. */
  datatype Evidence = FromActivation(event: nat) | FromReceipt(id: nat)

  datatype Prepared = Prepared(identity: Identity, status: Status, evidence: seq<Evidence>)

  datatype PreparationFailure = NoFailure | InvocationPolicyMissing | OtherFailure

  datatype Packet = Packet(requirements: seq<Prepared>, failure: PreparationFailure)

  datatype Phase =
    | Observed
    | Classified
    | PolicyPinned
    | RequirementsDerived
    | PreparingBeforeJudgment
    | Denied
    | ReDeliberationRequired
    | PreparedForJudgment
    | PreparingBeforeExecution
    | AwaitingRequirement
    | CognitiveAllowed
    | Stale

  datatype Transaction = Transaction(
    id: nat,
    causalParent: Option<nat>,
    correlation: CorrelationKey,
    action: ObservedAction,
    packet: Packet,
    phase: Phase)
  {
    predicate Terminal()
    {
      phase.Denied? || phase.ReDeliberationRequired?
    }
  }

  datatype Disposition = Allow | ReDeliberate | Await | Deny | NotGoverned

  function DispositionOf(t: Transaction): Disposition
  {
    match t.phase
    case CognitiveAllowed => Allow
    case ReDeliberationRequired => ReDeliberate
    case AwaitingRequirement => Await
    case PreparingBeforeExecution => Await
    case PreparedForJudgment => Await
    case _ => Deny
  }

  /** What each phase reads as: only a decided transaction is ever anything but
      denied, one between the gates is awaited, and none is ungoverned. */
  lemma DispositionExactly(t: Transaction)
    ensures DispositionOf(t).Allow? <==> t.phase == CognitiveAllowed
    ensures DispositionOf(t).ReDeliberate? <==> t.phase == ReDeliberationRequired
    ensures DispositionOf(t).Await? <==>
            t.phase == AwaitingRequirement || t.phase == PreparingBeforeExecution || t.phase == PreparedForJudgment
    ensures DispositionOf(t).Deny? <==>
            || t.phase == Observed || t.phase == Classified || t.phase == PolicyPinned
            || t.phase == RequirementsDerived || t.phase == PreparingBeforeJudgment
            || t.phase == Denied || t.phase == Stale
  {
  }

  predicate GatesJudgment(p: Prepared)
  {
    p.identity.blocking && p.identity.boundary.BeforeJudgment?
  }

  predicate ReadyForJudgment(packet: Packet)
  {
    && packet.failure.NoFailure?
    && forall p :: p in packet.requirements && GatesJudgment(p) ==> p.status.Satisfied?
  }

  predicate ReadyForExecution(packet: Packet)
  {
    && packet.failure.NoFailure?
    && forall p :: p in packet.requirements && p.identity.blocking ==> p.status.Satisfied?
  }

  /** The phase the judgment gate leaves a non-terminal transaction in. */
  ghost function JudgmentGate(packet: Packet): Phase
  {
    if !packet.failure.NoFailure? then Denied
    else if ReadyForJudgment(packet) then PreparedForJudgment
    else if exists p :: p in packet.requirements && GatesJudgment(p) && p.status.Failed? then Denied
    else ReDeliberationRequired
  }

  ghost function ExecutionGate(packet: Packet): Phase
  {
    if !packet.failure.NoFailure? then Denied
    else if ReadyForExecution(packet) then CognitiveAllowed
    else if exists p :: p in packet.requirements && p.identity.blocking && p.status.Failed? then Denied
    else AwaitingRequirement
  }

  /** Each phase either gate can leave, by the failure and the requirements that
      bring it about. */
  lemma GatesExactly(packet: Packet)
    ensures var sound := packet.failure == NoFailure;
            var open := exists p :: p in packet.requirements && GatesJudgment(p) && p.status != Satisfied;
            var failed := exists p :: p in packet.requirements && GatesJudgment(p) && p.status == Failed;
            && (JudgmentGate(packet) == PreparedForJudgment <==> sound && !open)
            && (JudgmentGate(packet) == Denied <==> !sound || failed)
            && (JudgmentGate(packet) == ReDeliberationRequired <==> sound && open && !failed)
    ensures var sound := packet.failure == NoFailure;
            var open := exists p :: p in packet.requirements && p.identity.blocking && p.status != Satisfied;
            var failed := exists p :: p in packet.requirements && p.identity.blocking && p.status == Failed;
            && (ExecutionGate(packet) == CognitiveAllowed <==> sound && !open)
            && (ExecutionGate(packet) == Denied <==> !sound || failed)
            && (ExecutionGate(packet) == AwaitingRequirement <==> sound && open && !failed)
  {
  }

  method EvaluateBeforeJudgment(t: Transaction) returns (evaluated: bool, after: Transaction)
    ensures evaluated <==> t.phase != Denied && t.phase != ReDeliberationRequired
    ensures after == if evaluated then t.(phase := JudgmentGate(t.packet)) else t
  {
    if t.Terminal() { return false, t; }
    if !t.packet.failure.NoFailure? {
      return true, t.(phase := Denied);
    }
    if ReadyForJudgment(t.packet) {
      return true, t.(phase := PreparedForJudgment);
    }
    var requirements := t.packet.requirements;
    for i := 0 to |requirements|
      invariant forall j :: 0 <= j < i && GatesJudgment(requirements[j]) ==> !requirements[j].status.Failed?
    {
      if GatesJudgment(requirements[i]) && requirements[i].status.Failed? {
        return true, t.(phase := Denied);
      }
    }
    return true, t.(phase := ReDeliberationRequired);
  }

  method EvaluateBeforeExecution(t: Transaction) returns (evaluated: bool, after: Transaction)
    ensures evaluated == (t.phase.PreparedForJudgment? || t.phase.AwaitingRequirement?)
    ensures after == if evaluated then t.(phase := ExecutionGate(t.packet)) else t
  {
    if !t.phase.PreparedForJudgment? && !t.phase.AwaitingRequirement? { return false, t; }
    if !t.packet.failure.NoFailure? {
      return true, t.(phase := Denied);
    }
    if ReadyForExecution(t.packet) {
      return true, t.(phase := CognitiveAllowed);
    }
    var requirements := t.packet.requirements;
    for i := 0 to |requirements|
      invariant forall j :: 0 <= j < i && requirements[j].identity.blocking ==> !requirements[j].status.Failed?
    {
      if requirements[i].identity.blocking && requirements[i].status.Failed? {
        return true, t.(phase := Denied);
      }
    }
    return true, t.(phase := AwaitingRequirement);
  }
}
