/** What every step of the control core keeps, for arbitrary ingress messages:
    stray, duplicate and unsolicited reports included. */
module ControlInvariants {
  import opened Values
  import opened Requirements
  import opened Resolver
  import opened Transactions
  import opened ControlState

  ghost predicate Distinct(requirements: seq<Prepared>)
  {
    forall i, j :: 0 <= i < j < |requirements| ==> requirements[i].identity != requirements[j].identity
  }

  /** Only a satisfied requirement carries evidence, exactly one piece, and an
      activation only ever satisfies a requirement that gates the judgment. */
  ghost predicate Sound(p: Prepared)
  {
    if p.status.Satisfied? then |p.evidence| == 1 && (p.evidence[0].FromActivation? ==> GatesJudgment(p))
    else p.evidence == []
  }

  /** Satisfied before the judgment opened. */
  ghost predicate ByActivation(p: Prepared)
  {
    p.status.Satisfied? && |p.evidence| == 1 && p.evidence[0].FromActivation?
  }

  /** A judgment-gating requirement satisfied by an in-flight report. */
  ghost predicate InFlight(p: Prepared)
  {
    GatesJudgment(p) && p.status.Satisfied? && !ByActivation(p)
  }

  ghost predicate AllSound(requirements: seq<Prepared>)
  {
    forall p :: p in requirements ==> Sound(p)
  }

  ghost predicate AnyInFlight(requirements: seq<Prepared>)
  {
    exists p :: p in requirements && InFlight(p)
  }

  ghost predicate AllBlockingSatisfied(requirements: seq<Prepared>)
  {
    forall p :: p in requirements && p.identity.blocking ==> p.status.Satisfied?
  }

  ghost predicate SettledPhase(phase: Phase)
  {
    phase.Denied? || phase.ReDeliberationRequired? || phase.AwaitingRequirement? || phase.CognitiveAllowed?
  }

  ghost function RequirementsOf(e: Entry): seq<Prepared>
  {
    e.transaction.packet.requirements
  }

  /** Everything but the relation between the report count and the phase. */
  ghost predicate Consistent(e: Entry)
  {
    && e.transaction.packet.failure.NoFailure?
    && Distinct(RequirementsOf(e))
    && AllSound(RequirementsOf(e))
    && (e.redeliberate <==> AnyInFlight(RequirementsOf(e)))
    && (e.redeliberate <==> e.resume != [])
    && (e.transaction.phase.RequirementsDerived? || SettledPhase(e.transaction.phase))
    && (e.transaction.phase.CognitiveAllowed? ==> AllBlockingSatisfied(RequirementsOf(e)) && !e.redeliberate)
  }

  /** A transaction is undecided exactly while reports are outstanding, and the
      count never exceeds the open requirements. */
  ghost predicate WellKept(e: Entry)
  {
    && Consistent(e)
    && e.outstanding <= CountOpen(RequirementsOf(e))
    && (e.outstanding > 0 <==> e.transaction.phase.RequirementsDerived?)
  }

  /** The tables agree on their keys, ids are below the mint, and correlation
      keys and transactions are in bijection. */
  ghost predicate Tables(c: Core)
  {
    && c.outstanding.Keys == c.transactions.Keys
    && c.resume.Keys == c.redeliberation <= c.transactions.Keys
    && (forall id :: id in c.resume ==> c.resume[id] != [])
    && (forall id :: id in c.transactions ==> id < c.nextId && c.transactions[id].id == id)
    && CorrelationBijection(c)
  }

  ghost predicate CorrelationBijection(c: Core)
  {
    && (forall k :: k in c.byCorrelation ==>
          c.byCorrelation[k] in c.transactions && c.transactions[c.byCorrelation[k]].correlation == k)
    && (forall id :: id in c.transactions ==>
          c.transactions[id].correlation in c.byCorrelation
          && c.byCorrelation[c.transactions[id].correlation] == id)
  }

  ghost predicate Inv(c: Core)
  {
    && Tables(c)
    && forall id :: id in c.transactions ==> WellKept(View(c, id))
  }

  // ---- Counting open requirements ----

  lemma {:induction false} CountOpenZero(requirements: seq<Prepared>)
    ensures CountOpen(requirements) == 0 <==> forall i :: 0 <= i < |requirements| ==> !Open(requirements[i])
  {
    if requirements != [] {
      var last := |requirements| - 1;
      CountOpenZero(requirements[..last]);
      assert forall i :: 0 <= i < last ==> requirements[..last][i] == requirements[i];
    }
  }

  lemma {:induction false} CountOpenUpdate(requirements: seq<Prepared>, i: nat, p: Prepared)
    requires i < |requirements|
    ensures CountOpen(requirements[i := p]) + (if Open(requirements[i]) then 1 else 0)
            == CountOpen(requirements) + (if Open(p) then 1 else 0)
  {
    var last := |requirements| - 1;
    if i == last {
      assert requirements[i := p][..last] == requirements[..last];
    } else {
      CountOpenUpdate(requirements[..last], i, p);
      assert requirements[i := p][..last] == requirements[..last][i := p];
    }
  }

  // ---- One transaction ----

  lemma {:induction false} PreSatisfiedShape(cfg: Config, receipts: seq<ActivationReceipt>, key: CorrelationKey,
                                            now: nat, requirements: seq<Prepared>, spent: set<nat>, i: nat)
    requires i < |requirements| && requirements[i].status.Pending? && requirements[i].evidence == []
    ensures var p := PreSatisfied(cfg, receipts, key, now, requirements, spent).requirements[i];
            p.identity == requirements[i].identity
            && (p == requirements[i] || (GatesJudgment(p) && ByActivation(p)))
  {
    var last := |requirements| - 1;
    if i < last {
      PreSatisfiedShape(cfg, receipts, key, now, requirements[..last], spent, i);
    }
  }

  /** Each requirement of a new transaction is satisfied by an activation,
      failed, or pending without evidence. */
  lemma OpenedRequirements(cfg: Config, id: nat, input: Input, spent: set<nat>)
    requires input.message.Proposal?
    ensures var requirements := RequirementsOf(Opened(cfg, id, input, spent).0);
            Distinct(requirements) && AllSound(requirements) && !AnyInFlight(requirements)
  {
    var m := input.message;
    var unprepared := Unprepared(Derived(input.intents));
    var pre := PreSatisfied(cfg, m.receipts, m.key, input.now, unprepared, spent).requirements;
    DerivationIsExactUnion(input.intents);
    forall i | 0 <= i < |pre| ensures pre[i].identity == unprepared[i].identity && Sound(pre[i]) && !InFlight(pre[i]) {
      PreSatisfiedShape(cfg, m.receipts, m.key, input.now, unprepared, spent, i);
    }
    var after := DispatchedAll(cfg, input.accepted, pre);
    assert RequirementsOf(Opened(cfg, id, input, spent).0) == after;
    hide PreSatisfied, Derived, Dispatchable;
    assert forall i :: 0 <= i < |after| ==>
      after[i].identity == unprepared[i].identity && Sound(after[i]) && !InFlight(after[i]);
  }

  /** Settling keeps a transaction consistent and allows it exactly when every
      blocking requirement is satisfied and nothing was satisfied in flight. */
  lemma SettlingIsSafe(e: Entry)
    requires Consistent(e) && e.transaction.phase.RequirementsDerived?
    ensures Consistent(Settled(e)) && SettledPhase(Settled(e).transaction.phase)
    ensures Settled(e).transaction.phase.CognitiveAllowed? <==>
            !e.redeliberate && AllBlockingSatisfied(RequirementsOf(e))
  {
  }

  lemma OpenedKept(cfg: Config, id: nat, input: Input, spent: set<nat>)
    requires input.message.Proposal?
    ensures var e := Opened(cfg, id, input, spent).0;
            WellKept(e) && e.transaction.id == id && e.transaction.correlation == input.message.key
            && e.outstanding == CountOpen(RequirementsOf(e)) && !e.redeliberate && e.resume == []
  {
    OpenedRequirements(cfg, id, input, spent);
    hide PreSatisfied, Derived, Dispatchable, DispatchedAll, AllSound, Distinct, AnyInFlight, CountOpen;
    var e := Opened(cfg, id, input, spent).0;
    SettlingIsSafe(e.(transaction := e.transaction.(phase := RequirementsDerived)));
  }

  /** Moving one requirement out of Pending. */
  lemma UpdateEffect(requirements: seq<Prepared>, i: nat, p: Prepared)
    requires i < |requirements| && requirements[i].status.Pending?
    requires p.identity == requirements[i].identity && !p.status.Pending? && Sound(p)
    requires Distinct(requirements) && AllSound(requirements)
    ensures var after := requirements[i := p];
            && Distinct(after)
            && AllSound(after)
            && (AllBlockingSatisfied(requirements) ==> !p.identity.blocking && AllBlockingSatisfied(after))
            && (AnyInFlight(after) <==> InFlight(p) || AnyInFlight(requirements))
            && CountOpen(after) == CountOpen(requirements) - if p.identity.blocking then 1 else 0
  {
    var after := requirements[i := p];
    assert requirements[i] in requirements;
    CountOpenUpdate(requirements, i, p);
    assert forall q :: q in after ==> q == p || q in requirements;
    assert after[i] == p;
    forall q | q in requirements && q != requirements[i] ensures q in after {
      var j :| 0 <= j < |requirements| && requirements[j] == q;
      assert after[j] == q;
    }
  }

  /** What recording one answer does to the requirement it answers. */
  lemma RecordedEffect(cfg: Config, e: Entry, m: Message, now: nat, i: nat)
    requires Consistent(e) && !m.Proposal? && i < |RequirementsOf(e)|
    requires RequirementsOf(e)[i].status.Pending?
    ensures var e' := Recorded(cfg, e, m, now, i);
            && |RequirementsOf(e')| == |RequirementsOf(e)|
            && var p, p' := RequirementsOf(e)[i], RequirementsOf(e')[i];
            && e' == WithRequirements(e, RequirementsOf(e)[i := p']).(redeliberate := e'.redeliberate, resume := e'.resume)
            && p'.identity == p.identity
            && p'.status == Answer(cfg, e.transaction.correlation.generation, m, now)
            && !p'.status.Pending? && Sound(p') && !ByActivation(p')
            && (e'.redeliberate <==> e.redeliberate || InFlight(p'))
            && (e'.redeliberate <==> e'.resume != [])
  {
    assert RequirementsOf(e)[i] in RequirementsOf(e);
  }

  lemma RecordedConsistent(cfg: Config, e: Entry, m: Message, now: nat, i: nat)
    requires Consistent(e) && !m.Proposal? && i < |RequirementsOf(e)|
    requires RequirementsOf(e)[i].status.Pending?
    ensures var e' := Recorded(cfg, e, m, now, i);
            && Consistent(e')
            && CountOpen(RequirementsOf(e'))
               == CountOpen(RequirementsOf(e)) - if RequirementsOf(e)[i].identity.blocking then 1 else 0
  {
    RecordedEffect(cfg, e, m, now, i);
    var e' := Recorded(cfg, e, m, now, i);
    UpdateEffect(RequirementsOf(e), i, RequirementsOf(e')[i]);
    hide Recorded, Distinct, AllSound, AnyInFlight, AllBlockingSatisfied, CountOpen;
    assert RequirementsOf(e') == RequirementsOf(e)[i := RequirementsOf(e')[i]];
  }

  /** No report, solicited or not, breaks a transaction. */
  lemma ReportedKept(cfg: Config, e: Entry, m: Message, now: nat)
    requires WellKept(e) && !m.Proposal?
    ensures WellKept(Reported(cfg, e, m, now))
  {
    hide Recorded, Distinct, AllSound, AnyInFlight, AllBlockingSatisfied, CountOpen, Answer;
    var found := Locate(RequirementsOf(e), m.requirement);
    var e' := e;
    if found.Some? && RequirementsOf(e)[found.value].status.Pending? {
      e' := Recorded(cfg, e, m, now, found.value);
      RecordedConsistent(cfg, e, m, now, found.value);
      RecordedEffect(cfg, e, m, now, found.value);
    }
    if e'.outstanding == 1 {
      SettlingIsSafe(e'.(outstanding := 0));
    }
  }

  // ---- The whole core ----

  /** What one input means for one transaction already filed. */
  ghost function EntryStep(cfg: Config, id: nat, e: Entry, input: Input): Entry
  {
    if !input.message.Proposal? && input.message.transaction == id then
      Reported(cfg, e, input.message, input.now)
    else e
  }

  lemma ReportedMeta(cfg: Config, e: Entry, m: Message, now: nat)
    requires !m.Proposal?
    ensures var e' := Reported(cfg, e, m, now);
            && e'.transaction == e.transaction.(packet := e'.transaction.packet, phase := e'.transaction.phase)
            && (e.redeliberate ==> e'.redeliberate)
            && (e.resume != [] ==> e'.resume != [])
  {
    hide Answer, Verdict;
  }

  /** A step changes one filed transaction at most, the one its report names,
      and what happens there does not depend on the others. */
  lemma StepIsLocal(cfg: Config, c: Core, input: Input, id: nat)
    requires Tables(c) && id in c.transactions
    ensures var c' := Step(cfg, c, input);
            Filed(c', id) && View(c', id) == EntryStep(cfg, id, View(c, id), input)
  {
    hide Reported, Opened, CorrelationBijection;
    var m := input.message;
    if !m.Proposal? && Filed(c, m.transaction) {
      ReportedMeta(cfg, View(c, m.transaction), m, input.now);
      if m.transaction == id {
        PutThenView(c, id, Reported(cfg, View(c, id), m, input.now));
      }
    }
  }

  /** A proposal files at most one transaction, under a fresh id. */
  lemma CreateFiles(cfg: Config, c: Core, input: Input)
    requires Tables(c) && input.message.Proposal? && input.message.key !in c.byCorrelation
    ensures var id, c' := c.nextId, Create(cfg, c, input);
            && id !in c.transactions
            && Filed(c', id) && View(c', id) == Opened(cfg, id, input, c.spent).0
            && c'.transactions.Keys == c.transactions.Keys + {id}
            && Tables(c')
  {
    hide Opened, Tables;
    CreateTables(cfg, c, input);
    CreateViews(cfg, c, input);
  }

  lemma CreateViews(cfg: Config, c: Core, input: Input)
    requires Tables(c) && input.message.Proposal? && input.message.key !in c.byCorrelation
    ensures var id, c' := c.nextId, Create(cfg, c, input);
            && id !in c.transactions
            && Filed(c', id) && View(c', id) == Opened(cfg, id, input, c.spent).0
            && c'.transactions.Keys == c.transactions.Keys + {id}
  {
    hide Opened, CorrelationBijection;
    var id := c.nextId;
    OpenedKept(cfg, id, input, c.spent);
    PutThenView(c, id, Opened(cfg, id, input, c.spent).0);
  }

  lemma CreateTables(cfg: Config, c: Core, input: Input)
    requires Tables(c) && input.message.Proposal? && input.message.key !in c.byCorrelation
    ensures Tables(Create(cfg, c, input))
  {
    hide Opened;
    OpenedKept(cfg, c.nextId, input, c.spent);
  }

  lemma ReportTables(cfg: Config, c: Core, m: Message, now: nat)
    requires Tables(c) && !m.Proposal? && Filed(c, m.transaction)
    requires var e := Reported(cfg, View(c, m.transaction), m, now); e.redeliberate <==> e.resume != []
    ensures Tables(Put(c, m.transaction, Reported(cfg, View(c, m.transaction), m, now)))
  {
    hide Reported, CorrelationBijection;
    ReportedMeta(cfg, View(c, m.transaction), m, now);
    ReportBijection(cfg, c, m, now);
  }

  lemma ReportBijection(cfg: Config, c: Core, m: Message, now: nat)
    requires CorrelationBijection(c) && !m.Proposal? && Filed(c, m.transaction)
    ensures CorrelationBijection(Put(c, m.transaction, Reported(cfg, View(c, m.transaction), m, now)))
  {
    hide Reported;
    ReportedMeta(cfg, View(c, m.transaction), m, now);
  }

  lemma StepTables(cfg: Config, c: Core, input: Input)
    requires Inv(c)
    ensures var c' := Step(cfg, c, input);
            && Tables(c')
            && c.transactions.Keys <= c'.transactions.Keys <= c.transactions.Keys + {c.nextId}
  {
    hide Reported, Opened;
    var m := input.message;
    if m.Proposal? {
      if m.key !in c.byCorrelation {
        CreateFiles(cfg, c, input);
      }
    } else if Filed(c, m.transaction) {
      ReportedKept(cfg, View(c, m.transaction), m, input.now);
      ReportTables(cfg, c, m, input.now);
    }
  }

  lemma StepKeepsInv(cfg: Config, c: Core, input: Input)
    requires Inv(c)
    ensures Inv(Step(cfg, c, input))
    ensures c.transactions.Keys <= Step(cfg, c, input).transactions.Keys
  {
    StepTables(cfg, c, input);
    var m, c' := input.message, Step(cfg, c, input);
    hide Tables, Consistent, Opened, Reported, Put;
    forall id | id in c'.transactions ensures WellKept(View(c', id)) {
      if id in c.transactions {
        StepIsLocal(cfg, c, input, id);
        if !m.Proposal? {
          ReportedKept(cfg, View(c, id), m, input.now);
        }
      } else {
        StepFiles(cfg, c, input);
        OpenedKept(cfg, id, input, c.spent);
      }
    }
  }

  /** Only a proposal under a new correlation key files a transaction. */
  lemma StepFiles(cfg: Config, c: Core, input: Input)
    requires Tables(c)
    ensures var c' := Step(cfg, c, input);
            c'.transactions.Keys != c.transactions.Keys ==>
              && input.message.Proposal? && input.message.key !in c.byCorrelation
              && c.nextId !in c.transactions
              && Filed(c', c.nextId) && View(c', c.nextId) == Opened(cfg, c.nextId, input, c.spent).0
  {
    hide Reported, Opened, CorrelationBijection;
    if input.message.Proposal? && input.message.key !in c.byCorrelation {
      CreateFiles(cfg, c, input);
    }
  }

  lemma {:induction false} RunKeepsInv(cfg: Config, c: Core, inputs: seq<Input>)
    requires Inv(c)
    ensures Inv(Run(cfg, c, inputs))
    ensures c.transactions.Keys <= Run(cfg, c, inputs).transactions.Keys
  {
    if inputs != [] {
      RunKeepsInv(cfg, c, inputs[..|inputs| - 1]);
      StepKeepsInv(cfg, Run(cfg, c, inputs[..|inputs| - 1]), inputs[|inputs| - 1]);
    }
  }
}
