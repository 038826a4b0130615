/** The control core as a value and a step: what one ingress message does to
    the control state (src/state.cpp). Every theorem about runs is stated over
    this step; ControlCore proves that the in-place code performs it. */
module ControlState {
  import opened Values
  import opened Requirements
  import opened Resolver
  import opened Transactions

  /** What the core is constructed with. The hash of an activation's use
      identity and the action digest stay uninterpreted. */
  datatype Config = Config(
    bindings: seq<Binding>,
    policyDigest: Bytes,
    revision: Bytes,
    snapshotDigest: Bytes,
    useOf: (Bytes, nat, nat) -> nat,
    digestOf: ObservedAction -> Bytes)

  datatype Message =
    | Proposal(key: CorrelationKey, action: ObservedAction, causalParent: Option<nat>,
               receipts: seq<ActivationReceipt>)
    | EvidenceDelivery(transaction: nat, requirement: Identity, receipt: EvidenceReceipt)
    | ResolutionFailure(transaction: nat, requirement: Identity)

  /** One drained message with what the core reads around it: the clock, what
      each classified intent derives, and which submissions the bounded
      executor accepts. */
  datatype Input = Input(message: Message, now: nat, intents: seq<seq<Identity>>, accepted: set<Identity>)

  datatype Core = Core(
    transactions: map<nat, Transaction>,
    byCorrelation: map<CorrelationKey, nat>,
    integrityFailures: map<CorrelationKey, nat>,
    outstanding: map<nat, nat>,
    redeliberation: set<nat>,
    resume: map<nat, seq<EvidenceReceipt>>,
    spent: set<nat>,
    nextId: nat)

  const INITIAL := Core(map[], map[], map[], map[], {}, map[], {}, 1)

  function UseOf(cfg: Config, a: ActivationReceipt): nat
  {
    (cfg.useOf)(a.subject, a.generation, a.event)
  }

  // ---- Proposal time ----

  function Unprepared(instances: seq<Instance>): (r: seq<Prepared>)
    ensures |r| == |instances|
    ensures forall i :: 0 <= i < |r| ==> r[i] == Prepared(instances[i].identity, Pending, [])
  {
    seq(|instances|, i requires 0 <= i < |instances| => Prepared(instances[i].identity, Pending, []))
  }

  predicate Usable(cfg: Config, a: ActivationReceipt, identity: Identity, key: CorrelationKey, now: nat,
                   spent: set<nat>)
  {
    UseOf(cfg, a) !in spent
    && ValidFor(a, identity, cfg.revision, cfg.snapshotDigest, key.generation, now)
  }

  ghost function FirstUsable(cfg: Config, receipts: seq<ActivationReceipt>, identity: Identity,
                             key: CorrelationKey, now: nat, spent: set<nat>): (r: Option<nat>)
    ensures r.Some? ==> r.value < |receipts| && Usable(cfg, receipts[r.value], identity, key, now, spent)
  {
    if receipts == [] then None
    else if Usable(cfg, receipts[0], identity, key, now, spent) then Some(0)
    else
      var r := FirstUsable(cfg, receipts[1..], identity, key, now, spent);
      if r.None? then None else Some(r.value + 1)
  }

  /** Requirements after pre-satisfaction, and the activations spent so far. */
  datatype Activated = Activated(requirements: seq<Prepared>, spent: set<nat>)

  ghost function Activate(cfg: Config, receipts: seq<ActivationReceipt>, key: CorrelationKey, now: nat,
                          p: Prepared, spent: set<nat>): (Prepared, set<nat>)
  {
    if !GatesJudgment(p) || !p.status.Pending? then (p, spent)
    else
      match FirstUsable(cfg, receipts, p.identity, key, now, spent)
      case None => (p, spent)
      case Some(k) =>
        (p.(status := Satisfied, evidence := p.evidence + [FromActivation(receipts[k].event)]),
         spent + {UseOf(cfg, receipts[k])})
  }

  ghost function PreSatisfied(cfg: Config, receipts: seq<ActivationReceipt>, key: CorrelationKey, now: nat,
                              requirements: seq<Prepared>, spent: set<nat>): (r: Activated)
    ensures |r.requirements| == |requirements|
  {
    if requirements == [] then Activated([], spent)
    else
      var last := |requirements| - 1;
      var before := PreSatisfied(cfg, receipts, key, now, requirements[..last], spent);
      var (p, spent') := Activate(cfg, receipts, key, now, requirements[last], before.spent);
      Activated(before.requirements + [p], spent')
  }

  ghost predicate Dispatchable(cfg: Config, accepted: set<Identity>, identity: Identity)
  {
    BindingFor(cfg.bindings, identity.kind).Some? && identity in accepted
  }

  predicate Open(p: Prepared)
  {
    p.identity.blocking && p.status.Pending?
  }

  /** A blocking requirement nobody can resolve fails closed at once. */
  ghost function Dispatched(cfg: Config, accepted: set<Identity>, p: Prepared): Prepared
  {
    if Open(p) && !Dispatchable(cfg, accepted, p.identity) then p.(status := Failed) else p
  }

  ghost function DispatchedAll(cfg: Config, accepted: set<Identity>, requirements: seq<Prepared>)
    : (r: seq<Prepared>)
    ensures |r| == |requirements|
    ensures forall i :: 0 <= i < |r| ==> r[i] == Dispatched(cfg, accepted, requirements[i])
  {
    seq(|requirements|, i requires 0 <= i < |requirements| => Dispatched(cfg, accepted, requirements[i]))
  }

  /** What dispatch does to one requirement: a blocking pending one stays pending
      when a unique binding offers its kind and the executor accepted it, and is
      failed otherwise; nothing else is touched. */
  ghost predicate Dispatches(cfg: Config, accepted: set<Identity>, p: Prepared, p': Prepared)
  {
    if p.identity.blocking && p.status.Pending? then
      && p' == p.(status := p'.status)
      && (p'.status.Pending? <==>
            (exists k: nat :: UniqueOffer(cfg.bindings, p.identity.kind, k)) && p.identity in accepted)
      && (p'.status.Failed? <==> !p'.status.Pending?)
    else p' == p
  }

  lemma DispatchExactly(cfg: Config, accepted: set<Identity>, requirements: seq<Prepared>)
    ensures var r := DispatchedAll(cfg, accepted, requirements);
            |r| == |requirements| && forall i :: 0 <= i < |r| ==> Dispatches(cfg, accepted, requirements[i], r[i])
  {
    hide UniqueOffer;
  }

  ghost function CountOpen(requirements: seq<Prepared>): nat
  {
    if requirements == [] then 0
    else
      var last := |requirements| - 1;
      CountOpen(requirements[..last]) + if Open(requirements[last]) then 1 else 0
  }

  /** All the core keeps about one transaction. The core files it under the
      transaction's id in four tables. */
  datatype Entry = Entry(transaction: Transaction, outstanding: nat, redeliberate: bool,
                         resume: seq<EvidenceReceipt>)

  ghost function Opened(cfg: Config, id: nat, input: Input, spent: set<nat>): (Entry, set<nat>)
    requires input.message.Proposal?
  {
    var m := input.message;
    var pre := PreSatisfied(cfg, m.receipts, m.key, input.now, Unprepared(Derived(input.intents)), spent);
    var requirements := DispatchedAll(cfg, input.accepted, pre.requirements);
    var t := Transaction(id, m.causalParent, m.key, m.action, Packet(requirements, NoFailure), RequirementsDerived);
    var e := Entry(t, CountOpen(requirements), false, []);
    (if e.outstanding == 0 then Settled(e) else e, pre.spent)
  }

  ghost function Create(cfg: Config, c: Core, input: Input): Core
    requires input.message.Proposal?
  {
    var (e, spent) := Opened(cfg, c.nextId, input, c.spent);
    Put(c, c.nextId, e).(byCorrelation := c.byCorrelation[input.message.key := c.nextId],
                         spent := spent,
                         nextId := c.nextId + 1)
  }

  /** What dispatching a drafted transaction, and evaluating it if nothing is
      outstanding, leaves. */
  ghost function Launched(cfg: Config, accepted: set<Identity>, t: Transaction): (e: Entry)
    ensures !e.redeliberate && e.resume == []
  {
    var requirements := DispatchedAll(cfg, accepted, t.packet.requirements);
    var e := Entry(t.(packet := t.packet.(requirements := requirements)), CountOpen(requirements), false, []);
    if e.outstanding == 0 then Settled(e) else e
  }

  lemma OpenedIsLaunched(cfg: Config, id: nat, input: Input, spent: set<nat>)
    requires input.message.Proposal?
    ensures var m := input.message;
            var pre := PreSatisfied(cfg, m.receipts, m.key, input.now, Unprepared(Derived(input.intents)), spent);
            var t := Transaction(id, m.causalParent, m.key, m.action, Packet(pre.requirements, NoFailure),
                                 RequirementsDerived);
            Opened(cfg, id, input, spent) == (Launched(cfg, input.accepted, t), pre.spent)
  {
    hide PreSatisfied, DispatchedAll, CountOpen, Derived, Verdict;
  }

  ghost function Propose(cfg: Config, c: Core, input: Input): Core
    requires input.message.Proposal?
  {
    var m := input.message;
    if m.key !in c.byCorrelation then Create(cfg, c, input)
    else
      var id := c.byCorrelation[m.key];
      if id in c.transactions && (cfg.digestOf)(c.transactions[id].action) != (cfg.digestOf)(m.action) then
        c.(integrityFailures := c.integrityFailures[m.key := Count(c.integrityFailures, m.key) + 1])
      else c
  }

  function Count(counts: map<CorrelationKey, nat>, key: CorrelationKey): nat
  {
    if key in counts then counts[key] else 0
  }

  // ---- Reports ----

  /** Position of the first requirement with the given identity. */
  ghost function Locate(requirements: seq<Prepared>, identity: Identity): (r: Option<nat>)
    ensures r.None? ==> forall j :: 0 <= j < |requirements| ==> requirements[j].identity != identity
    ensures r.Some? ==> r.value < |requirements| && requirements[r.value].identity == identity
                        && forall j :: 0 <= j < r.value ==> requirements[j].identity != identity
  {
    if requirements == [] then None
    else if requirements[0].identity == identity then Some(0)
    else
      var r := Locate(requirements[1..], identity);
      assert forall j :: 0 < j < |requirements| ==> requirements[j] == requirements[1..][j - 1];
      if r.None? then None else Some(r.value + 1)
  }

  /** The phase `reevaluate_after_reports` leaves a transaction in. */
  ghost function Verdict(t: Transaction, redeliberate: bool): Phase
  {
    if t.Terminal() then t.phase
    else if redeliberate && t.packet.failure.NoFailure? then ReDeliberationRequired
    else if JudgmentGate(t.packet).PreparedForJudgment? then ExecutionGate(t.packet)
    else JudgmentGate(t.packet)
  }

  ghost function Settled(e: Entry): Entry
  {
    e.(transaction := e.transaction.(phase := Verdict(e.transaction, e.redeliberate)))
  }

  ghost function CountedDown(e: Entry): Entry
  {
    if e.outstanding == 0 then e
    else if e.outstanding == 1 then Settled(e.(outstanding := 0))
    else e.(outstanding := e.outstanding - 1)
  }

  /** How a report answers its requirement. */
  ghost function Answer(cfg: Config, generation: nat, m: Message, now: nat): Status
    requires !m.Proposal?
  {
    if m.ResolutionFailure? then Failed
    else
      match BindingFor(cfg.bindings, m.requirement.kind)
      case None => Failed
      case Some(b) =>
        if Acceptable(m.receipt, b, m.requirement, generation, cfg.policyDigest, now) then Satisfied else Failed
  }

  ghost function Recorded(cfg: Config, e: Entry, m: Message, now: nat, i: nat): Entry
    requires !m.Proposal? && i < |e.transaction.packet.requirements|
  {
    var requirements := e.transaction.packet.requirements;
    var p := requirements[i];
    if m.EvidenceDelivery? && Answer(cfg, e.transaction.correlation.generation, m, now).Satisfied? then
      var p' := p.(status := Satisfied, evidence := p.evidence + [FromReceipt(m.receipt.id)]);
      var e' := WithRequirements(e, requirements[i := p']);
      if GatesJudgment(p) then e'.(redeliberate := true, resume := e.resume + [m.receipt]) else e'
    else WithRequirements(e, requirements[i := p.(status := Failed)])
  }

  ghost function WithRequirements(e: Entry, requirements: seq<Prepared>): Entry
  {
    e.(transaction := e.transaction.(packet := e.transaction.packet.(requirements := requirements)))
  }

  /** What one report does to the transaction it names. */
  ghost function Reported(cfg: Config, e: Entry, m: Message, now: nat): Entry
    requires !m.Proposal?
  {
    var requirements := e.transaction.packet.requirements;
    match Locate(requirements, m.requirement)
    case None => if m.EvidenceDelivery? then e else CountedDown(e)
    case Some(i) =>
      if !requirements[i].status.Pending? then e else CountedDown(Recorded(cfg, e, m, now, i))
  }

  function ResumeOf(resume: map<nat, seq<EvidenceReceipt>>, id: nat): seq<EvidenceReceipt>
  {
    if id in resume then resume[id] else []
  }

  ghost predicate Filed(c: Core, id: nat)
  {
    id in c.transactions && id in c.outstanding
  }

  ghost function View(c: Core, id: nat): Entry
    requires Filed(c, id)
  {
    Entry(c.transactions[id], c.outstanding[id], id in c.redeliberation, ResumeOf(c.resume, id))
  }

  ghost function Put(c: Core, id: nat, e: Entry): Core
  {
    c.(transactions := c.transactions[id := e.transaction],
       outstanding := c.outstanding[id := e.outstanding],
       redeliberation := if e.redeliberate then c.redeliberation + {id} else c.redeliberation,
       resume := if e.resume == [] then c.resume else c.resume[id := e.resume])
  }

  /** The tables never forget a re-deliberation mark or resume context. */
  ghost predicate Keeps(c: Core, id: nat, e: Entry)
  {
    && (id in c.redeliberation ==> e.redeliberate)
    && (id in c.resume ==> e.resume != [])
  }

  lemma PutThenView(c: Core, id: nat, e: Entry)
    requires Keeps(c, id, e)
    ensures Filed(Put(c, id, e), id) && View(Put(c, id, e), id) == e
  {
  }

  lemma PutTwice(c: Core, id: nat, e: Entry, e': Entry)
    requires Keeps(c, id, e) && Keeps(Put(c, id, e), id, e')
    ensures Put(Put(c, id, e), id, e') == Put(c, id, e')
  {
  }

  lemma PutSame(c: Core, id: nat)
    requires Filed(c, id) && (id in c.resume ==> c.resume[id] != [])
    ensures Put(c, id, View(c, id)) == c && Keeps(c, id, View(c, id))
  {
    assert id in c.redeliberation ==> c.redeliberation + {id} == c.redeliberation;
  }

  /** Recording an answer and then counting down files what both together do. */
  lemma RecordThenCountDown(cfg: Config, c: Core, id: nat, m: Message, now: nat, i: nat)
    requires Filed(c, id) && (id in c.resume ==> c.resume[id] != []) && !m.Proposal?
    requires i < |c.transactions[id].packet.requirements|
    ensures var e := Recorded(cfg, View(c, id), m, now, i);
            && Filed(Put(c, id, e), id) && View(Put(c, id, e), id) == e
            && Put(Put(c, id, e), id, CountedDown(e)) == Put(c, id, CountedDown(e))
  {
    hide Answer, Verdict;
    var e := Recorded(cfg, View(c, id), m, now, i);
    RecordedKeeps(cfg, c, id, m, now, i);
    PutThenView(c, id, e);
    PutTwice(c, id, e, CountedDown(e));
  }

  lemma RecordedKeeps(cfg: Config, c: Core, id: nat, m: Message, now: nat, i: nat)
    requires Filed(c, id) && (id in c.resume ==> c.resume[id] != []) && !m.Proposal?
    requires i < |c.transactions[id].packet.requirements|
    ensures Keeps(c, id, Recorded(cfg, View(c, id), m, now, i))
  {
    hide Answer;
  }

  // ---- Steps and runs ----

  ghost function Step(cfg: Config, c: Core, input: Input): Core
  {
    if input.message.Proposal? then Propose(cfg, c, input)
    else
      var m := input.message;
      if Filed(c, m.transaction) then
        Put(c, m.transaction, Reported(cfg, View(c, m.transaction), m, input.now))
      else c
  }

  ghost function Run(cfg: Config, c: Core, inputs: seq<Input>): Core
  {
    if inputs == [] then c
    else Step(cfg, Run(cfg, c, inputs[..|inputs| - 1]), inputs[|inputs| - 1])
  }

  // ---- What a drain counts ----

  datatype DrainResult = DrainResult(
    processed: nat,
    droppedUnknown: nat,
    integrityFailures: nat,
    replays: nat,
    receiptRejections: nat)

  const EMPTY_RESULT := DrainResult(0, 0, 0, 0, 0)
  const REPLAY := EMPTY_RESULT.(replays := 1)
  const DROPPED := EMPTY_RESULT.(droppedUnknown := 1)

  function Sum(a: DrainResult, b: DrainResult): DrainResult
  {
    DrainResult(a.processed + b.processed, a.droppedUnknown + b.droppedUnknown,
                a.integrityFailures + b.integrityFailures, a.replays + b.replays,
                a.receiptRejections + b.receiptRejections)
  }

  ghost function ProposalTally(cfg: Config, c: Core, m: Message): DrainResult
    requires m.Proposal?
  {
    if m.key !in c.byCorrelation then EMPTY_RESULT
    else
      var id := c.byCorrelation[m.key];
      if id in c.transactions && (cfg.digestOf)(c.transactions[id].action) == (cfg.digestOf)(m.action) then REPLAY
      else EMPTY_RESULT.(integrityFailures := 1)
  }

  ghost function ReportTally(cfg: Config, c: Core, m: Message, now: nat): DrainResult
    requires !m.Proposal?
  {
    if !Filed(c, m.transaction) then DROPPED
    else
      var t := c.transactions[m.transaction];
      match Locate(t.packet.requirements, m.requirement)
      case None => if m.EvidenceDelivery? then DROPPED else EMPTY_RESULT
      case Some(i) =>
        if !t.packet.requirements[i].status.Pending? then REPLAY
        else if m.EvidenceDelivery? && Answer(cfg, t.correlation.generation, m, now).Failed? then
          EMPTY_RESULT.(integrityFailures := 1, receiptRejections := 1)
        else EMPTY_RESULT
  }

  ghost function Tally(cfg: Config, c: Core, input: Input): DrainResult
  {
    if input.message.Proposal? then ProposalTally(cfg, c, input.message)
    else ReportTally(cfg, c, input.message, input.now)
  }

  lemma TallyCountsNoMessage(cfg: Config, c: Core, input: Input)
    ensures Tally(cfg, c, input).processed == 0
  {
  }

  ghost function TallyRun(cfg: Config, c: Core, inputs: seq<Input>): DrainResult
  {
    if inputs == [] then EMPTY_RESULT
    else
      var last := |inputs| - 1;
      Sum(TallyRun(cfg, c, inputs[..last]),
          Tally(cfg, Run(cfg, c, inputs[..last]), inputs[last]).(processed := 1))
  }
}
