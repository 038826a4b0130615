/** The single-threaded control core, updated in place (src/state.cpp), and the
    bounded ingress queue it drains (src/ingress.cpp). */
module ControlCore {
  import opened Values
  import opened Requirements
  import opened Resolver
  import opened Transactions
  import opened ControlState

  class IngressQueue {
    const capacity: nat
    var messages: seq<Input>
    var closed: bool

    constructor (capacity: nat)
      requires capacity > 0
      ensures this.capacity == capacity && messages == [] && !closed
    {
      this.capacity := capacity;
      messages := [];
      closed := false;
    }

    method TryPush(message: Input) returns (pushed: bool)
      modifies this`messages
      ensures pushed <==> !closed && |old(messages)| < capacity
      ensures messages == if pushed then old(messages) + [message] else old(messages)
    {
      if closed || |messages| >= capacity {
        return false;
      }
      messages := messages + [message];
      return true;
    }

    method Pop() returns (message: Option<Input>)
      modifies this`messages
      ensures old(messages) == [] ==> message.None? && messages == []
      ensures old(messages) != [] ==> message == Some(old(messages)[0]) && messages == old(messages)[1..]
    {
      if messages == [] {
        return None;
      }
      message := Some(messages[0]);
      messages := messages[1..];
    }

    method Close()
      modifies this`closed
      ensures closed
    {
      closed := true;
    }
  }

  class ControlCore {
    const cfg: Config
    var transactions: map<nat, Transaction>
    var byCorrelation: map<CorrelationKey, nat>
    var integrityFailures: map<CorrelationKey, nat>
    var outstanding: map<nat, nat>
    var redeliberation: set<nat>
    var resume: map<nat, seq<EvidenceReceipt>>
    var spent: set<nat>
    var nextId: nat

    ghost function State(): Core
      reads this
    {
      Core(transactions, byCorrelation, integrityFailures, outstanding, redeliberation, resume, spent, nextId)
    }

    /** Every transaction has a report count, and resume context exactly when
        it is marked for re-deliberation. */
    ghost predicate Valid()
      reads this
    {
      && outstanding.Keys == transactions.Keys
      && resume.Keys == redeliberation
      && (forall id :: id in resume ==> resume[id] != [])
      && (forall id :: id in transactions || id in redeliberation ==> id < nextId)
    }

    constructor (cfg: Config)
      ensures this.cfg == cfg && State() == INITIAL && Valid()
    {
      this.cfg := cfg;
      transactions, byCorrelation, integrityFailures, outstanding := map[], map[], map[], map[];
      redeliberation, resume, spent, nextId := {}, map[], {}, 1;
    }

    method Drain(ingress: IngressQueue) returns (result: DrainResult)
      requires Valid()
      modifies this, ingress`messages
      ensures Valid()
      ensures State() == Run(cfg, old(State()), old(ingress.messages))
      ensures ingress.messages == []
      ensures result == TallyRun(cfg, old(State()), old(ingress.messages))
    {
      hide Step, Tally;
      result := EMPTY_RESULT;
      ghost var all := ingress.messages;
      while true
        invariant Valid()
        invariant result.processed <= |all|
        invariant ingress.messages == all[result.processed..]
        invariant State() == Run(cfg, old(State()), all[..result.processed])
        invariant result == TallyRun(cfg, old(State()), all[..result.processed])
        decreases |all| - result.processed
      {
        var message := ingress.Pop();
        if message.None? {
          assert all[..result.processed] == all;
          break;
        }
        ghost var n := result.processed;
        assert all[..n + 1][..n] == all[..n];
        assert message.value == all[n];
        TallyCountsNoMessage(cfg, State(), message.value);
        result := HandleMessage(message.value, result);
        result := result.(processed := result.processed + 1);
      }
    }

    method HandleMessage(input: Input, before: DrainResult) returns (result: DrainResult)
      requires Valid()
      modifies this
      ensures Valid() && State() == Step(cfg, old(State()), input)
      ensures result == Sum(before, Tally(cfg, old(State()), input))
    {
      match input.message
      case Proposal(_, _, _, _) => result := HandleProposal(input, before);
      case EvidenceDelivery(_, _, _) => result := HandleEvidence(input.message, input.now, before);
      case ResolutionFailure(_, _) => result := HandleFailure(input.message, input.now, before);
    }

    method HandleProposal(input: Input, before: DrainResult) returns (result: DrainResult)
      requires Valid() && input.message.Proposal?
      modifies this
      ensures Valid() && State() == Propose(cfg, old(State()), input)
      ensures result == Sum(before, ProposalTally(cfg, old(State()), input.message))
    {
      result := before;
      var m := input.message;
      if m.key in byCorrelation {
        var existing := byCorrelation[m.key];
        if existing !in transactions {
          result := result.(integrityFailures := result.integrityFailures + 1);
        } else if (cfg.digestOf)(transactions[existing].action) == (cfg.digestOf)(m.action) {
          result := result.(replays := result.replays + 1);
        } else {
          result := result.(integrityFailures := result.integrityFailures + 1);
          integrityFailures := integrityFailures[m.key := Count(integrityFailures, m.key) + 1];
        }
        return;
      }
      OpenTransaction(input);
    }

    method OpenTransaction(input: Input)
      requires Valid() && input.message.Proposal?
      modifies this
      ensures Valid() && State() == Create(cfg, old(State()), input)
    {
      hide PreSatisfied, Derived, Opened, Launched;
      var m := input.message;
      var derived := DeriveRequirementSet(input.intents);
      var requirements := PreSatisfy(Unprepared(derived.instances), m.receipts, m.key, input.now);
      OpenedIsLaunched(cfg, nextId, input, old(spent));
      var id := nextId;
      nextId := nextId + 1;
      byCorrelation := byCorrelation[m.key := id];
      transactions := transactions[id := Transaction(id, m.causalParent, m.key, m.action,
                                                     Packet(requirements, NoFailure), RequirementsDerived)];
      Launch(id, input.accepted);
    }

    /** Dispatches a stored transaction and evaluates it at once if no report is
        outstanding. */
    method Launch(id: nat, accepted: set<Identity>)
      requires id in transactions && id !in redeliberation
      modifies this`transactions, this`outstanding
      ensures transactions == old(transactions)[id := Launched(cfg, accepted, old(transactions[id])).transaction]
      ensures outstanding == old(outstanding)[id := Launched(cfg, accepted, old(transactions[id])).outstanding]
    {
      hide DispatchedAll, CountOpen, Verdict;
      DispatchResolvers(id, accepted);
      if outstanding[id] == 0 {
        ReevaluateAfterReports(id);
      }
    }

    /** Spends unspent, matching activation receipts on requirements that gate
        this judgment, one receipt per requirement. */
    method PreSatisfy(requirements: seq<Prepared>, receipts: seq<ActivationReceipt>, key: CorrelationKey, now: nat)
      returns (prepared: seq<Prepared>)
      modifies this`spent
      ensures Activated(prepared, spent) == PreSatisfied(cfg, receipts, key, now, requirements, old(spent))
    {
      prepared := [];
      for i := 0 to |requirements|
        invariant Activated(prepared, spent) == PreSatisfied(cfg, receipts, key, now, requirements[..i], old(spent))
      {
        assert requirements[..i + 1][..i] == requirements[..i];
        var p := requirements[i];
        ghost var was := spent;
        if GatesJudgment(p) && p.status.Pending? {
          for k := 0 to |receipts|
            invariant p == requirements[i] && spent == was
            invariant FirstUsable(cfg, receipts, p.identity, key, now, spent)
                      == Later(FirstUsable(cfg, receipts[k..], p.identity, key, now, spent), k)
          {
            assert receipts[k..][1..] == receipts[k + 1..];
            var use := UseOf(cfg, receipts[k]);
            if use in spent {
              continue;
            }
            if !ValidFor(receipts[k], p.identity, cfg.revision, cfg.snapshotDigest, key.generation, now) {
              continue;
            }
            p := p.(status := Satisfied, evidence := p.evidence + [FromActivation(receipts[k].event)]);
            spent := spent + {use};
            break;
          }
        }
        prepared := prepared + [p];
      }
      assert requirements[..|requirements|] == requirements;
    }

    static ghost function Later(r: Option<nat>, k: nat): Option<nat>
    {
      if r.None? then None else Some(r.value + k)
    }

    method DispatchResolvers(id: nat, accepted: set<Identity>)
      requires id in transactions
      modifies this`transactions, this`outstanding
      ensures transactions == old(transactions)[id := old(transactions)[id].(packet :=
                old(transactions)[id].packet.(requirements :=
                  DispatchedAll(cfg, accepted, old(transactions)[id].packet.requirements)))]
      ensures forall i :: 0 <= i < |old(transactions)[id].packet.requirements| ==>
                Dispatches(cfg, accepted, old(transactions)[id].packet.requirements[i],
                           transactions[id].packet.requirements[i])
      ensures outstanding == old(outstanding)[id := CountOpen(transactions[id].packet.requirements)]
    {
      var submitted := 0;
      var requirements := transactions[id].packet.requirements;
      ghost var was := requirements;
      for i := 0 to |requirements|
        invariant transactions == old(transactions) && outstanding == old(outstanding)
        invariant |requirements| == |was|
        invariant forall j :: 0 <= j < i ==> requirements[j] == Dispatched(cfg, accepted, was[j])
        invariant forall j :: i <= j < |was| ==> requirements[j] == was[j]
        invariant submitted == CountOpen(requirements[..i])
      {
        ghost var done := requirements[..i];
        var p := requirements[i];
        if p.identity.blocking && p.status.Pending? {
          var binding := FindBinding(cfg.bindings, p.identity.kind);
          if binding.None? {
            requirements := requirements[i := p.(status := Failed)];
          } else if p.identity in accepted {
            submitted := submitted + 1;
          } else {
            requirements := requirements[i := p.(status := Failed)];
          }
        }
        assert requirements[..i + 1][..i] == done;
      }
      assert requirements[..|requirements|] == requirements;
      assert requirements == DispatchedAll(cfg, accepted, was);
      DispatchExactly(cfg, accepted, was);
      transactions := transactions[id := transactions[id].(packet :=
        transactions[id].packet.(requirements := requirements))];
      outstanding := outstanding[id := submitted];
    }

    ghost function Delivered(c: Core, m: Message, now: nat): Core
      requires !m.Proposal?
    {
      if Filed(c, m.transaction) then Put(c, m.transaction, Reported(cfg, View(c, m.transaction), m, now)) else c
    }

    method FindRequirement(requirements: seq<Prepared>, identity: Identity) returns (r: Option<nat>)
      ensures r == Locate(requirements, identity)
    {
      for i := 0 to |requirements|
        invariant forall j :: 0 <= j < i ==> requirements[j].identity != identity
      {
        if requirements[i].identity == identity {
          return Some(i);
        }
      }
      return None;
    }

    method HandleEvidence(m: Message, now: nat, before: DrainResult) returns (result: DrainResult)
      requires Valid() && m.EvidenceDelivery?
      modifies this
      ensures Valid() && State() == Delivered(old(State()), m, now)
      ensures result == Sum(before, ReportTally(cfg, old(State()), m, now))
    {
      hide Recorded, CountedDown, Answer, Put;
      result := before;
      var id := m.transaction;
      if id !in transactions {
        return result.(droppedUnknown := result.droppedUnknown + 1);
      }
      PutSame(State(), id);
      var requirements := transactions[id].packet.requirements;
      var found := FindRequirement(requirements, m.requirement);
      if found.None? {
        return result.(droppedUnknown := result.droppedUnknown + 1);
      }
      if !requirements[found.value].status.Pending? {
        return result.(replays := result.replays + 1);
      }
      var accepted := RecordEvidence(id, found.value, m, now);
      if !accepted {
        result := result.(receiptRejections := result.receiptRejections + 1,
                          integrityFailures := result.integrityFailures + 1);
      }
      RecordThenCountDown(cfg, old(State()), id, m, now, found.value);
      ReportArrived(id);
    }

    /** Exactly one accepted binding must exist, and the receipt must match it. */
    method AcceptsReceipt(m: Message, generation: nat, now: nat) returns (accepted: bool)
      requires m.EvidenceDelivery?
      ensures accepted <==> Answer(cfg, generation, m, now).Satisfied?
      ensures !accepted ==> Answer(cfg, generation, m, now).Failed?
    {
      var rejection := WrongRequirement;
      var binding := FindBinding(cfg.bindings, m.requirement.kind);
      if binding.Some? {
        rejection := ValidateReceipt(m.receipt, binding.value, m.requirement, generation, cfg.policyDigest, now);
      }
      return rejection.NoRejection?;
    }

    /** Records how the receipt answers the requirement at position i. */
    method RecordEvidence(id: nat, i: nat, m: Message, now: nat) returns (accepted: bool)
      requires Valid() && Filed(State(), id) && m.EvidenceDelivery?
      requires i < |transactions[id].packet.requirements|
      requires transactions[id].packet.requirements[i].identity == m.requirement
      modifies this`transactions, this`redeliberation, this`resume
      ensures Valid()
      ensures accepted <==> Answer(cfg, old(transactions[id]).correlation.generation, m, now).Satisfied?
      ensures !accepted ==> Answer(cfg, old(transactions[id]).correlation.generation, m, now).Failed?
      ensures State() == Put(old(State()), id, Recorded(cfg, old(View(State(), id)), m, now, i))
    {
      hide Answer;
      PutSame(State(), id);
      var t := transactions[id];
      var p := t.packet.requirements[i];
      accepted := AcceptsReceipt(m, t.correlation.generation, now);
      if accepted {
        p := p.(status := Satisfied, evidence := p.evidence + [FromReceipt(m.receipt.id)]);
        if GatesJudgment(p) {
          redeliberation := redeliberation + {id};
          resume := resume[id := ResumeOf(resume, id) + [m.receipt]];
        }
      } else {
        p := p.(status := Failed);
      }
      transactions := transactions[id := t.(packet := t.packet.(requirements := t.packet.requirements[i := p]))];
    }

    method HandleFailure(m: Message, ghost now: nat, before: DrainResult) returns (result: DrainResult)
      requires Valid() && m.ResolutionFailure?
      modifies this
      ensures Valid() && State() == Delivered(old(State()), m, now)
      ensures result == Sum(before, ReportTally(cfg, old(State()), m, now))
    {
      result := before;
      var id := m.transaction;
      if id !in transactions {
        return result.(droppedUnknown := result.droppedUnknown + 1);
      }
      PutSame(State(), id);
      var requirements := transactions[id].packet.requirements;
      var found := FindRequirement(requirements, m.requirement);
      if found.Some? {
        if !requirements[found.value].status.Pending? {
          return result.(replays := result.replays + 1);
        }
        FailRequirement(id, found.value, m, now);
        ghost var e := Recorded(cfg, old(View(State(), id)), m, now, found.value);
        PutThenView(old(State()), id, e);
        PutTwice(old(State()), id, e, CountedDown(e));
      }
      ReportArrived(id);
    }

    method FailRequirement(id: nat, i: nat, ghost m: Message, ghost now: nat)
      requires Valid() && Filed(State(), id) && m.ResolutionFailure?
      requires i < |transactions[id].packet.requirements|
      modifies this`transactions
      ensures Valid()
      ensures State() == Put(old(State()), id, Recorded(cfg, old(View(State(), id)), m, now, i))
    {
      PutSame(State(), id);
      var t := transactions[id];
      transactions := transactions[id := t.(packet := t.packet.(requirements :=
        t.packet.requirements[i := t.packet.requirements[i].(status := Failed)]))];
    }

    /** Counts one report down and evaluates when it was the last. */
    method ReportArrived(id: nat)
      requires Valid() && Filed(State(), id)
      modifies this`transactions, this`outstanding
      ensures Valid() && State() == Put(old(State()), id, CountedDown(old(View(State(), id))))
    {
      PutSame(State(), id);
      if id in outstanding && outstanding[id] > 0 {
        outstanding := outstanding[id := outstanding[id] - 1];
        if outstanding[id] == 0 {
          ReevaluateAfterReports(id);
        }
      }
    }

    method ReevaluateAfterReports(id: nat)
      requires id in transactions
      modifies this`transactions
      ensures transactions == old(transactions)[id := old(transactions[id]).(phase :=
                Verdict(old(transactions[id]), id in redeliberation))]
    {
      var t := transactions[id];
      if t.Terminal() {
        return;
      }
      if id in redeliberation && t.packet.failure.NoFailure? {
        transactions := transactions[id := t.(phase := ReDeliberationRequired)];
        return;
      }
      var evaluated;
      evaluated, t := EvaluateBeforeJudgment(t);
      if t.phase.PreparedForJudgment? {
        evaluated, t := EvaluateBeforeExecution(t);
      }
      transactions := transactions[id := t];
    }
  }
}
