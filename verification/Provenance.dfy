/** Where everything the control core decides on came from: how a filed
    transaction starts, what each report does to it, and hence, over every run,
    which message put each requirement into its status and each transaction
    into its phase. */
module Provenance {
  import opened Values
  import opened Requirements
  import opened Resolver
  import opened Transactions
  import opened ControlState
  import opened ControlInvariants
  import opened ControlTheorems
  import opened Conservation

  // ---- What a report must carry ----

  /** A report satisfies its requirement exactly when it delivers evidence, one
      accepted binding alone offers the requirement's kind in the default view,
      and the receipt agrees with requirement, binding, generation and policy,
      is unexpired, and names its content, revision and subject. Every other
      report fails it. */
  lemma AnswerExactly(cfg: Config, generation: nat, m: Message, now: nat)
    requires !m.Proposal?
    ensures Answer(cfg, generation, m, now).Satisfied? <==>
            && m.EvidenceDelivery?
            && exists k: nat ::
                 && UniqueOffer(cfg.bindings, m.requirement.kind, k)
                 && var b, r := cfg.bindings[k], m.receipt;
                 && r.requirement == m.requirement
                 && r.resolverType == b.resolverType && r.name == b.name
                 && r.version == b.version && r.version == b.resolverVersion
                 && r.evidenceType == b.acceptedEvidence
                 && r.generation == generation && r.policyDigest == cfg.policyDigest
                 && (r.expiresAt == 0 || now == 0 || now <= r.expiresAt)
                 && (exists i :: 0 <= i < |r.contentDigest| && r.contentDigest[i] != 0)
                 && r.sourceRevision != [] && r.subject != []
    ensures Answer(cfg, generation, m, now).Satisfied? || Answer(cfg, generation, m, now).Failed?
  {
    var kind := m.requirement.kind;
    if k: nat :| UniqueOffer(cfg.bindings, kind, k) {
      SoleOffer(cfg.bindings, kind, k);
    }
  }

  lemma SoleOffer(bindings: seq<Binding>, kind: nat, k: nat)
    requires UniqueOffer(bindings, kind, k)
    ensures BindingFor(bindings, kind) == Some(bindings[k])
    ensures forall j: nat :: UniqueOffer(bindings, kind, j) ==> j == k
  {
  }

  /** A kind has a binding exactly when one position of the accepted list, and
      no other, has that kind and the default view. */
  lemma BoundExactly(bindings: seq<Binding>, kind: nat)
    ensures BindingFor(bindings, kind).Some? <==>
            exists k :: 0 <= k < |bindings| && bindings[k].kind == kind && bindings[k].view == Ascii("default")
              && forall j :: 0 <= j < |bindings| && j != k ==>
                   bindings[j].kind != kind || bindings[j].view != Ascii("default")
  {
    forall k: nat | k < |bindings| && bindings[k].kind == kind && bindings[k].view == Ascii("default")
      ensures UniqueOffer(bindings, kind, k) <==>
              forall j :: 0 <= j < |bindings| && j != k ==>
                bindings[j].kind != kind || bindings[j].view != Ascii("default")
    {
    }
  }

  // ---- How a transaction starts ----

  /** The activation is for this requirement, revision, snapshot and generation,
      complete, canonical and unexpired. */
  ghost predicate Attests(cfg: Config, a: ActivationReceipt, q: Identity, key: CorrelationKey, now: nat)
  {
    && a.subject == q.subject != [] && a.revision == cfg.revision != []
    && a.injectedDigest == cfg.snapshotDigest && a.generation == key.generation
    && a.evidenceType == 1 && a.actorToken != 0 && a.sessionToken != 0 && a.event != 0
    && (a.expiresAt == 0 || now == 0 || now <= a.expiresAt)
  }

  /** Requirement p took activation k of the proposal: the first that attests
      to it and is not used up, spent for the first time. */
  ghost predicate Takes(cfg: Config, input: Input, p: Prepared, spent: set<nat>, spent': set<nat>, k: nat)
    requires input.message.Proposal?
  {
    var m := input.message;
    && k < |m.receipts|
    && p.status.Satisfied? && p.evidence == [FromActivation(m.receipts[k].event)]
    && Attests(cfg, m.receipts[k], p.identity, m.key, input.now)
    && UseOf(cfg, m.receipts[k]) !in spent && UseOf(cfg, m.receipts[k]) in spent'
    && forall j :: 0 <= j < k && Attests(cfg, m.receipts[j], p.identity, m.key, input.now) ==>
         UseOf(cfg, m.receipts[j]) in spent'
  }

  /** Every activation of the proposal that attests to q is used up. */
  ghost predicate NoneLeft(cfg: Config, input: Input, q: Identity, spent': set<nat>)
    requires input.message.Proposal?
  {
    var m := input.message;
    forall j :: 0 <= j < |m.receipts| && Attests(cfg, m.receipts[j], q, m.key, input.now) ==>
      UseOf(cfg, m.receipts[j]) in spent'
  }

  lemma {:induction false} FirstUsableIsFirst(cfg: Config, receipts: seq<ActivationReceipt>, q: Identity,
                                             key: CorrelationKey, now: nat, spent: set<nat>)
    ensures var r := FirstUsable(cfg, receipts, q, key, now, spent);
            forall j :: 0 <= j < (if r.Some? then r.value else |receipts|) ==>
              !Usable(cfg, receipts[j], q, key, now, spent)
  {
    hide Usable;
    if receipts != [] && !Usable(cfg, receipts[0], q, key, now, spent) {
      FirstUsableIsFirst(cfg, receipts[1..], q, key, now, spent);
      assert forall j :: 0 < j < |receipts| ==> receipts[j] == receipts[1..][j - 1];
    }
  }

  lemma UsableAttests(cfg: Config, a: ActivationReceipt, q: Identity, key: CorrelationKey, now: nat, spent: set<nat>)
    ensures Usable(cfg, a, q, key, now, spent) <==> Attests(cfg, a, q, key, now) && UseOf(cfg, a) !in spent
  {
  }

  /** One requirement at pre-satisfaction. */
  ghost predicate Presatisfies(cfg: Config, input: Input, p: Prepared, p': Prepared, spent: set<nat>, spent': set<nat>)
    requires input.message.Proposal?
  {
    p'.identity == p.identity
    && if GatesJudgment(p) then
         || (p' == p && NoneLeft(cfg, input, p.identity, spent'))
         || exists k: nat :: Takes(cfg, input, p', spent, spent', k)
       else p' == p
  }

  lemma ActivatePresatisfies(cfg: Config, input: Input, p: Prepared, spent: set<nat>)
    requires input.message.Proposal? && p.status.Pending? && p.evidence == []
    ensures var m := input.message;
            var (p', spent') := Activate(cfg, m.receipts, m.key, input.now, p, spent);
            spent <= spent' && Presatisfies(cfg, input, p, p', spent, spent')
  {
    hide Usable, Attests;
    var m := input.message;
    var (p', spent') := Activate(cfg, m.receipts, m.key, input.now, p, spent);
    FirstUsableIsFirst(cfg, m.receipts, p.identity, m.key, input.now, spent);
    forall j | 0 <= j < |m.receipts|
      ensures Usable(cfg, m.receipts[j], p.identity, m.key, input.now, spent) <==>
              Attests(cfg, m.receipts[j], p.identity, m.key, input.now) && UseOf(cfg, m.receipts[j]) !in spent
    {
      UsableAttests(cfg, m.receipts[j], p.identity, m.key, input.now, spent);
    }
    var r := FirstUsable(cfg, m.receipts, p.identity, m.key, input.now, spent);
    assert GatesJudgment(p) && r.Some? ==> Takes(cfg, input, p', spent, spent', r.value);
  }

  lemma PresatisfiesLater(cfg: Config, input: Input, p: Prepared, p': Prepared, spent: set<nat>, earlier: set<nat>,
                          spent': set<nat>, later: set<nat>)
    requires input.message.Proposal? && Presatisfies(cfg, input, p, p', spent, spent')
    requires earlier <= spent && spent' <= later
    ensures Presatisfies(cfg, input, p, p', earlier, later)
  {
    hide Attests;
    if k: nat :| Takes(cfg, input, p', spent, spent', k) {
      assert Takes(cfg, input, p', earlier, later, k);
    }
  }

  /** At pre-satisfaction each requirement that gates the judgment takes the
      first activation that attests to it and is left, and stays open only when
      none is left; no other requirement changes. */
  lemma {:induction false} PresatisfiedExactly(cfg: Config, input: Input, requirements: seq<Prepared>, spent: set<nat>,
                                              i: nat)
    requires input.message.Proposal?
    requires forall j :: 0 <= j < |requirements| ==> requirements[j].status.Pending? && requirements[j].evidence == []
    ensures var m := input.message;
            var r := PreSatisfied(cfg, m.receipts, m.key, input.now, requirements, spent);
            spent <= r.spent
            && (i < |requirements| ==>
                  Presatisfies(cfg, input, requirements[i], r.requirements[i], spent, r.spent))
    decreases |requirements|
  {
    hide Activate, Presatisfies;
    if requirements != [] {
      var m, last := input.message, |requirements| - 1;
      var before := PreSatisfied(cfg, m.receipts, m.key, input.now, requirements[..last], spent);
      PresatisfiedExactly(cfg, input, requirements[..last], spent, i);
      ActivatePresatisfies(cfg, input, requirements[last], before.spent);
      var r := PreSatisfied(cfg, m.receipts, m.key, input.now, requirements, spent);
      if i < last {
        PresatisfiesLater(cfg, input, requirements[i], r.requirements[i], spent, spent, before.spent, r.spent);
      } else if i == last {
        PresatisfiesLater(cfg, input, requirements[i], r.requirements[i], before.spent, spent, r.spent, r.spent);
      }
    }
  }

  /** How requirement q of a proposal starts. One that gates the judgment and
      finds an activation is satisfied by it. Any other is open, except that a
      blocking one is failed at once unless a unique binding offers its kind and
      the executor accepted its submission. */
  ghost predicate Starts(cfg: Config, input: Input, q: Identity, p: Prepared, spent: set<nat>, spent': set<nat>)
    requires input.message.Proposal?
  {
    && p.identity == q
    && if q.blocking && q.boundary.BeforeJudgment? && p.status.Satisfied? then
         exists k: nat :: Takes(cfg, input, p, spent, spent', k)
       else
         && p.evidence == []
         && (q.blocking && q.boundary.BeforeJudgment? ==> NoneLeft(cfg, input, q, spent'))
         && (p.status.Pending? <==>
               q.blocking ==> (exists k: nat :: UniqueOffer(cfg.bindings, q.kind, k)) && q in input.accepted)
         && (p.status.Failed? <==> !p.status.Pending?)
  }

  lemma PresatisfiedStarts(cfg: Config, input: Input, q: Identity, p': Prepared, spent: set<nat>, spent': set<nat>)
    requires input.message.Proposal?
    requires Presatisfies(cfg, input, Prepared(q, Pending, []), p', spent, spent')
    ensures Starts(cfg, input, q, Dispatched(cfg, input.accepted, p'), spent, spent')
  {
    hide Attests, UniqueOffer;
    var p := Dispatched(cfg, input.accepted, p');
    if k: nat :| Takes(cfg, input, p', spent, spent', k) {
      assert Takes(cfg, input, p, spent, spent', k);
    }
  }

  /** A new proposal files exactly one transaction. It carries the proposal's
      identity, action and causal parent, one requirement per derived identity
      in that order, each started as its activations, binding and submission
      determine, and counts one outstanding report per open requirement. */
  lemma FiledExactly(cfg: Config, c: Core, input: Input)
    requires Inv(c) && input.message.Proposal? && input.message.key !in c.byCorrelation
    ensures var c', id, m := Step(cfg, c, input), c.nextId, input.message;
            && c'.transactions.Keys == c.transactions.Keys + {id} && id !in c.transactions
            && Filed(c', id)
            && var t, identities := c'.transactions[id], Derived(input.intents);
            && t.id == id && t.correlation == m.key && t.action == m.action && t.causalParent == m.causalParent
            && |t.packet.requirements| == |identities|
            && (forall i :: 0 <= i < |identities| ==>
                  Starts(cfg, input, identities[i].identity, t.packet.requirements[i], c.spent, c'.spent))
            && c'.outstanding[id] == CountOpen(t.packet.requirements)
  {
    CreateFiles(cfg, c, input);
    OpenedStarts(cfg, c.nextId, input, c.spent);
    OpenedKept(cfg, c.nextId, input, c.spent);
    hide Opened, Tables, Starts, WellKept, CountOpen, Derived;
    var c' := Step(cfg, c, input);
    assert View(c', c.nextId) == Opened(cfg, c.nextId, input, c.spent).0;
    assert c'.spent == Opened(cfg, c.nextId, input, c.spent).1;
  }

  lemma OpenedStarts(cfg: Config, id: nat, input: Input, spent: set<nat>)
    requires input.message.Proposal?
    ensures var (e, spent') := Opened(cfg, id, input, spent);
            var identities, m := Derived(input.intents), input.message;
            && |RequirementsOf(e)| == |identities|
            && e.transaction.action == m.action && e.transaction.causalParent == m.causalParent
            && forall i :: 0 <= i < |identities| ==>
                 Starts(cfg, input, identities[i].identity, RequirementsOf(e)[i], spent, spent')
  {
    hide PreSatisfied, Derived, Dispatched, Starts, Presatisfies, Verdict, CountOpen;
    var m, identities := input.message, Derived(input.intents);
    var unprepared := Unprepared(identities);
    var pre := PreSatisfied(cfg, m.receipts, m.key, input.now, unprepared, spent);
    forall i | 0 <= i < |identities|
      ensures Starts(cfg, input, identities[i].identity, Dispatched(cfg, input.accepted, pre.requirements[i]),
                     spent, pre.spent)
    {
      PresatisfiedExactly(cfg, input, unprepared, spent, i);
      PresatisfiedStarts(cfg, input, identities[i].identity, pre.requirements[i], spent, pre.spent);
    }
  }

  // ---- What one report does ----

  ghost predicate Reports(input: Input, id: nat, q: Identity)
  {
    !input.message.Proposal? && input.message.transaction == id && input.message.requirement == q
  }

  /** A pending requirement after the report that answers it. */
  ghost function AnsweredBy(cfg: Config, generation: nat, p: Prepared, input: Input): Prepared
    requires !input.message.Proposal?
  {
    if Answer(cfg, generation, input.message, input.now).Satisfied? then
      Prepared(p.identity, Satisfied, [FromReceipt(input.message.receipt.id)])
    else Prepared(p.identity, Failed, [])
  }

  lemma ReportAnswers(cfg: Config, e: Entry, input: Input, i: nat)
    requires Consistent(e) && !input.message.Proposal? && i < |RequirementsOf(e)|
    ensures var e', p := Reported(cfg, e, input.message, input.now), RequirementsOf(e)[i];
            && |RequirementsOf(e')| == |RequirementsOf(e)|
            && RequirementsOf(e')[i] ==
               if p.status.Pending? && input.message.requirement == p.identity then
                 AnsweredBy(cfg, e.transaction.correlation.generation, p, input)
               else p
  {
    hide AllSound, AnyInFlight, AllBlockingSatisfied, Verdict, Recorded, Answer;
    var m, requirements := input.message, RequirementsOf(e);
    var found := Locate(requirements, m.requirement);
    SoundAt(e, i);
    if found.Some? && requirements[found.value].status.Pending? {
      RecordAnswers(cfg, e, input, found.value);
      assert i != found.value ==> requirements[i].identity != m.requirement;
    }
  }

  lemma RecordAnswers(cfg: Config, e: Entry, input: Input, i: nat)
    requires Consistent(e) && !input.message.Proposal? && i < |RequirementsOf(e)|
    requires RequirementsOf(e)[i].status.Pending?
    ensures RequirementsOf(Recorded(cfg, e, input.message, input.now, i)) ==
            var generation := e.transaction.correlation.generation;
            RequirementsOf(e)[i := AnsweredBy(cfg, generation, RequirementsOf(e)[i], input)]
  {
    hide Consistent;
    SoundAt(e, i);
    var p, generation := RequirementsOf(e)[i], e.transaction.correlation.generation;
    assert p.evidence == [];
    assert RequirementsOf(Recorded(cfg, e, input.message, input.now, i))[i] == AnsweredBy(cfg, generation, p, input);
  }

  lemma SoundAt(e: Entry, i: nat)
    requires Consistent(e) && i < |RequirementsOf(e)|
    ensures Sound(RequirementsOf(e)[i])
  {
    assert RequirementsOf(e)[i] in RequirementsOf(e);
  }

  // ---- Over runs ----

  ghost predicate FirstReport(inputs: seq<Input>, id: nat, q: Identity, from: nat, to: nat, j: nat)
  {
    && from <= j < to <= |inputs|
    && Reports(inputs[j], id, q)
    && forall l :: from <= l < j ==> !Reports(inputs[l], id, q)
  }

  ghost predicate Unreported(inputs: seq<Input>, id: nat, q: Identity, from: nat, to: nat)
    requires to <= |inputs|
  {
    forall l :: from <= l < to ==> !Reports(inputs[l], id, q)
  }

  /** What one input does to one requirement of a filed transaction. */
  lemma StepAnswers(cfg: Config, inputs: seq<Input>, id: nat, n: nat, i: nat)
    requires n < |inputs| && id in After(cfg, inputs, n).transactions
    requires i < |After(cfg, inputs, n).transactions[id].packet.requirements|
    ensures id in After(cfg, inputs, n + 1).transactions
    ensures var t, t' := After(cfg, inputs, n).transactions[id], After(cfg, inputs, n + 1).transactions[id];
            && t' == t.(packet := t'.packet, phase := t'.phase)
            && |t'.packet.requirements| == |t.packet.requirements|
            && var p := t.packet.requirements[i];
            t'.packet.requirements[i] ==
            if p.status.Pending? && Reports(inputs[n], id, p.identity) then
              AnsweredBy(cfg, t.correlation.generation, p, inputs[n])
            else p
  {
    hide Run, Reported, Tables, Consistent, CountOpen, Answer, Put;
    AfterStep(cfg, inputs, n);
    AfterKeepsInv(cfg, inputs, n);
    var c := After(cfg, inputs, n);
    StepIsLocal(cfg, c, inputs[n], id);
    if !inputs[n].message.Proposal? && inputs[n].message.transaction == id {
      ReportedMeta(cfg, View(c, id), inputs[n].message, inputs[n].now);
      ReportAnswers(cfg, View(c, id), inputs[n], i);
    }
  }

  /** Over every run a requirement that starts open is decided by the first
      report that names it, whatever else is drained, and by nothing else: it
      stays open while none is drained, and no later report changes it. */
  lemma {:induction false} FirstReportDecides(cfg: Config, inputs: seq<Input>, id: nat, from: nat, n: nat, i: nat)
    requires from <= n <= |inputs| && id in After(cfg, inputs, from).transactions
    requires i < |After(cfg, inputs, from).transactions[id].packet.requirements|
    ensures id in After(cfg, inputs, n).transactions
    ensures var t, t' := After(cfg, inputs, from).transactions[id], After(cfg, inputs, n).transactions[id];
            && t' == t.(packet := t'.packet, phase := t'.phase)
            && |t'.packet.requirements| == |t.packet.requirements|
            && var p, p' := t.packet.requirements[i], t'.packet.requirements[i];
            && (!p.status.Pending? || Unreported(inputs, id, p.identity, from, n) ==> p' == p)
            && (forall j: nat :: p.status.Pending? && FirstReport(inputs, id, p.identity, from, n, j) ==>
                  p' == AnsweredBy(cfg, t.correlation.generation, p, inputs[j]))
    decreases n - from
  {
    hide Run, Answer;
    if from < n {
      FirstReportDecides(cfg, inputs, id, from, n - 1, i);
      StepAnswers(cfg, inputs, id, n - 1, i);
      var p := After(cfg, inputs, from).transactions[id].packet.requirements[i];
      forall j: nat | p.status.Pending? && FirstReport(inputs, id, p.identity, from, n, j)
        ensures After(cfg, inputs, n).transactions[id].packet.requirements[i]
                == AnsweredBy(cfg, After(cfg, inputs, from).transactions[id].correlation.generation, p, inputs[j])
      {
        if j < n - 1 {
          assert FirstReport(inputs, id, p.identity, from, n - 1, j);
        } else {
          assert Unreported(inputs, id, p.identity, from, n - 1);
        }
      }
    }
  }

  lemma {:induction false} ReportedOrNot(inputs: seq<Input>, id: nat, q: Identity, from: nat, n: nat)
    requires from <= n <= |inputs|
    ensures Unreported(inputs, id, q, from, n) || exists j: nat :: FirstReport(inputs, id, q, from, n, j)
    decreases n - from
  {
    if from < n {
      var before := n - 1;
      ReportedOrNot(inputs, id, q, from, before);
      if j: nat :| FirstReport(inputs, id, q, from, before, j) {
        assert FirstReport(inputs, id, q, from, n, j);
      } else if Reports(inputs[n - 1], id, q) {
        assert FirstReport(inputs, id, q, from, n, n - 1);
      }
    }
  }

  /** The proposal that filed a transaction, and how each requirement started. */
  lemma FiledByProposal(cfg: Config, inputs: seq<Input>, id: nat, k: nat)
    requires FiledAt(cfg, inputs, id, k)
    ensures inputs[k].message.Proposal?
    ensures var c, c' := After(cfg, inputs, k), After(cfg, inputs, k + 1);
            var t, m, identities := c'.transactions[id], inputs[k].message, Derived(inputs[k].intents);
            && t.correlation == m.key && t.action == m.action && t.causalParent == m.causalParent
            && |t.packet.requirements| == |identities|
            && forall i :: 0 <= i < |identities| ==>
                 Starts(cfg, inputs[k], identities[i].identity, t.packet.requirements[i], c.spent, c'.spent)
  {
    hide Run, Opened, Tables, Starts, WellKept, CountOpen, Derived;
    AfterStep(cfg, inputs, k);
    AfterKeepsInv(cfg, inputs, k);
    NewlyFiled(cfg, After(cfg, inputs, k), inputs[k], id);
    FiledExactly(cfg, After(cfg, inputs, k), inputs[k]);
  }

  /** The report drained at j satisfied the requirement of a transaction filed
      at k: it came later, delivered evidence for that transaction and
      requirement, was the first to name it, and was acceptable under the only
      binding for its kind. */
  ghost predicate Vouched(cfg: Config, inputs: seq<Input>, id: nat, key: CorrelationKey, k: nat, p: Prepared, j: nat)
  {
    && k < |inputs|
    && FirstReport(inputs, id, p.identity, k + 1, |inputs|, j)
    && var m := inputs[j].message;
    && m.EvidenceDelivery?
    && p.status.Satisfied? && p.evidence == [FromReceipt(m.receipt.id)]
    && exists b: nat :: UniqueOffer(cfg.bindings, p.identity.kind, b)
         && Acceptable(m.receipt, cfg.bindings[b], p.identity, key.generation, cfg.policyDigest, inputs[j].now)
  }

  lemma AnswerIsVouched(cfg: Config, generation: nat, m: Message, now: nat)
    requires !m.Proposal? && Answer(cfg, generation, m, now).Satisfied?
    ensures m.EvidenceDelivery?
    ensures exists b: nat :: UniqueOffer(cfg.bindings, m.requirement.kind, b)
              && Acceptable(m.receipt, cfg.bindings[b], m.requirement, generation, cfg.policyDigest, now)
  {
    AnswerExactly(cfg, generation, m, now);
  }

  /** In every state any run reaches, every satisfied requirement of every
      transaction was satisfied in one of two ways. Either an activation its
      own proposal carried attested to it, unspent until then; or it was
      dispatched, and the first report that named it after filing delivered an
      acceptable receipt, whose id is its one piece of evidence. */
  lemma SatisfiedHasSource(cfg: Config, inputs: seq<Input>, id: nat, k: nat, i: nat)
    requires FiledAt(cfg, inputs, id, k) && id in Run(cfg, INITIAL, inputs).transactions
    requires i < |Run(cfg, INITIAL, inputs).transactions[id].packet.requirements|
    requires Run(cfg, INITIAL, inputs).transactions[id].packet.requirements[i].status.Satisfied?
    ensures inputs[k].message.Proposal?
    ensures var m, p := inputs[k].message, Run(cfg, INITIAL, inputs).transactions[id].packet.requirements[i];
            var spent, spent' := After(cfg, inputs, k).spent, After(cfg, inputs, k + 1).spent;
            if GatesJudgment(p) && ByActivation(p) then exists a: nat :: Takes(cfg, inputs[k], p, spent, spent', a)
            else
              && (p.identity.blocking ==>
                    (exists b: nat :: UniqueOffer(cfg.bindings, p.identity.kind, b)) && p.identity in inputs[k].accepted)
              && exists j: nat :: Vouched(cfg, inputs, id, m.key, k, p, j)
  {
    hide Run, Answer, Takes, Acceptable, UniqueOffer;
    var n := |inputs|;
    assert inputs[..n] == inputs;
    FiledByProposal(cfg, inputs, id, k);
    LaterEvolves(cfg, inputs, k + 1, n, id);
    FirstReportDecides(cfg, inputs, id, k + 1, n, i);
    var key := inputs[k].message.key;
    var p := After(cfg, inputs, k + 1).transactions[id].packet.requirements[i];
    var p' := After(cfg, inputs, n).transactions[id].packet.requirements[i];
    assert Starts(cfg, inputs[k], Derived(inputs[k].intents)[i].identity, p, After(cfg, inputs, k).spent,
                  After(cfg, inputs, k + 1).spent);
    if p.status.Pending? {
      ReportedOrNot(inputs, id, p.identity, k + 1, n);
      assert !Unreported(inputs, id, p.identity, k + 1, n);
      var j: nat :| FirstReport(inputs, id, p.identity, k + 1, n, j);
      AnswerIsVouched(cfg, key.generation, inputs[j].message, inputs[j].now);
      assert Vouched(cfg, inputs, id, key, k, p', j);
    } else {
      TakenIsActivation(cfg, inputs[k], p, After(cfg, inputs, k).spent, After(cfg, inputs, k + 1).spent);
    }
  }

  lemma TakenIsActivation(cfg: Config, input: Input, p: Prepared, spent: set<nat>, spent': set<nat>)
    requires input.message.Proposal? && exists a: nat :: Takes(cfg, input, p, spent, spent', a)
    ensures ByActivation(p)
  {
  }

  /** In every state any run reaches, an allowed transaction has, for each of
      its blocking requirements, a source: one that gates the judgment took an
      activation its own proposal carried, and one that gates the execution was
      dispatched and then satisfied by the first report drained for it after
      filing, an acceptable receipt under the only binding for its kind. */
  lemma AllowedHasSources(cfg: Config, inputs: seq<Input>, id: nat)
    requires id in Run(cfg, INITIAL, inputs).transactions
    requires DispositionOf(Run(cfg, INITIAL, inputs).transactions[id]).Allow?
    ensures exists k: nat :: FiledAt(cfg, inputs, id, k) && inputs[k].message.Proposal?
              && forall i :: 0 <= i < |Run(cfg, INITIAL, inputs).transactions[id].packet.requirements| ==>
                   BlockingHasSource(cfg, inputs, id, k, Run(cfg, INITIAL, inputs).transactions[id].packet.requirements[i])
  {
    hide Run, Tables, Vouched, Takes, UniqueOffer, Starts;
    AllowSafety(cfg, inputs, id);
    var final := Run(cfg, INITIAL, inputs).transactions[id].packet.requirements;
    var k: nat :| k < |inputs| && FiledAt(cfg, inputs, id, k)
                  && var filed := After(cfg, inputs, k + 1).transactions[id].packet.requirements;
                     |filed| == |final|
                     && forall i :: 0 <= i < |final| && GatesJudgment(final[i]) ==>
                          filed[i] == final[i] && ByActivation(filed[i]);
    FiledByProposal(cfg, inputs, id, k);
    forall i | 0 <= i < |final| ensures BlockingHasSource(cfg, inputs, id, k, final[i]) {
      assert final[i] in final;
      if final[i].identity.blocking {
        SatisfiedHasSource(cfg, inputs, id, k, i);
      }
    }
  }

  ghost predicate BlockingHasSource(cfg: Config, inputs: seq<Input>, id: nat, k: nat, p: Prepared)
    requires k < |inputs| && inputs[k].message.Proposal?
  {
    p.identity.blocking ==>
      if p.identity.boundary.BeforeJudgment? then
        var spent, spent' := After(cfg, inputs, k).spent, After(cfg, inputs, k + 1).spent;
        exists a: nat :: Takes(cfg, inputs[k], p, spent, spent', a)
      else
        && (exists b: nat :: UniqueOffer(cfg.bindings, p.identity.kind, b)) && p.identity in inputs[k].accepted
        && exists j: nat :: Vouched(cfg, inputs, id, inputs[k].message.key, k, p, j)
  }

  // ---- How a transaction is decided ----

  /** The four verdicts, each by exactly the requirements that bring it about. */
  ghost predicate DecidesAs(requirements: seq<Prepared>, phase: Phase)
  {
    var inFlight := exists p :: p in requirements && GatesJudgment(p) && p.status.Satisfied? && !ByActivation(p);
    var judgmentOpen := exists p :: p in requirements && GatesJudgment(p) && !p.status.Satisfied?;
    var judgmentFailed := exists p :: p in requirements && GatesJudgment(p) && p.status.Failed?;
    var anyFailed := exists p :: p in requirements && p.identity.blocking && p.status.Failed?;
    var anyOpen := exists p :: p in requirements && p.identity.blocking && !p.status.Satisfied?;
    && (phase.CognitiveAllowed? <==> !inFlight && !anyOpen)
    && (phase.ReDeliberationRequired? <==> inFlight || (judgmentOpen && !judgmentFailed))
    && (phase.Denied? <==> !inFlight && (judgmentFailed || (!judgmentOpen && anyFailed)))
    && (phase.AwaitingRequirement? <==> !inFlight && !judgmentOpen && !anyFailed && anyOpen)
  }

  lemma SettlesAs(e: Entry)
    requires Consistent(e) && e.transaction.phase.RequirementsDerived?
    ensures DecidesAs(RequirementsOf(e), Settled(e).transaction.phase)
  {
    hide AllSound, Distinct, ByActivation;
  }

  /** The evaluating step settles a consistent, undecided transaction. */
  lemma EvaluationSettles(cfg: Config, c: Core, input: Input, id: nat)
    requires Inv(c) && Evaluates(cfg, c, input, id)
    ensures var c' := Step(cfg, c, input);
            id in c'.transactions && DecidesAs(c'.transactions[id].packet.requirements, c'.transactions[id].phase)
  {
    hide Tables, DecidesAs;
    var m := input.message;
    if m.Proposal? {
      CreateFiles(cfg, c, input);
      OpenedSettles(cfg, id, input, c.spent);
    } else {
      StepIsLocal(cfg, c, input, id);
      ReportSettles(cfg, View(c, id), m, input.now);
    }
  }

  lemma OpenedSettles(cfg: Config, id: nat, input: Input, spent: set<nat>)
    requires input.message.Proposal? && Opened(cfg, id, input, spent).0.outstanding == 0
    ensures var e := Opened(cfg, id, input, spent).0; DecidesAs(RequirementsOf(e), e.transaction.phase)
  {
    OpenedRequirements(cfg, id, input, spent);
    hide PreSatisfied, Derived, Dispatchable, DispatchedAll, AllSound, Distinct, AnyInFlight, CountOpen, DecidesAs;
    var e := Opened(cfg, id, input, spent).0;
    SettlesAs(e.(transaction := e.transaction.(phase := RequirementsDerived)));
  }

  lemma ReportSettles(cfg: Config, e: Entry, m: Message, now: nat)
    requires WellKept(e) && !m.Proposal? && CountsDown(e, m) && e.outstanding == 1
    ensures var e' := Reported(cfg, e, m, now); DecidesAs(RequirementsOf(e'), e'.transaction.phase)
  {
    hide Recorded, Distinct, AllSound, AnyInFlight, AllBlockingSatisfied, CountOpen, Answer, DecidesAs;
    var found := Locate(RequirementsOf(e), m.requirement);
    var before := e;
    if found.Some? {
      before := Recorded(cfg, e, m, now, found.value);
      RecordedConsistent(cfg, e, m, now, found.value);
      RecordedEffect(cfg, e, m, now, found.value);
    }
    SettlesAs(before.(outstanding := 0));
  }

  /** Over every run a transaction reads Deny until the one input that evaluates
      it. From then on its disposition is the verdict on its requirements as
      that input left them, and nothing drained later changes it. */
  lemma DecidedExactly(cfg: Config, inputs: seq<Input>, id: nat, k: nat)
    requires EvaluatedAt(cfg, inputs, id, k)
    ensures forall n :: 0 <= n <= k && id in After(cfg, inputs, n).transactions ==>
              DispositionOf(After(cfg, inputs, n).transactions[id]).Deny?
    ensures id in After(cfg, inputs, k + 1).transactions
    ensures var t := After(cfg, inputs, k + 1).transactions[id];
            DecidesAs(t.packet.requirements, t.phase)
            && forall n :: k < n <= |inputs| ==>
                 id in After(cfg, inputs, n).transactions && After(cfg, inputs, n).transactions[id].phase == t.phase
  {
    hide Evaluates, Step, Run, DecidesAs, Tables, Consistent, CountOpen;
    AfterKeepsInv(cfg, inputs, k);
    AfterStep(cfg, inputs, k);
    EvaluationSettles(cfg, After(cfg, inputs, k), inputs[k], id);
    forall n | 0 <= n <= k && id in After(cfg, inputs, n).transactions
      ensures DispositionOf(After(cfg, inputs, n).transactions[id]).Deny?
    {
      UndecidedBefore(cfg, inputs, id, k, n);
    }
    AfterKeepsInv(cfg, inputs, k + 1);
    StepEvaluates(cfg, After(cfg, inputs, k), inputs[k], id);
    forall n | k < n <= |inputs|
      ensures id in After(cfg, inputs, n).transactions
              && After(cfg, inputs, n).transactions[id].phase == After(cfg, inputs, k + 1).transactions[id].phase
    {
      LaterEvolves(cfg, inputs, k + 1, n, id);
    }
  }

  lemma UndecidedBefore(cfg: Config, inputs: seq<Input>, id: nat, k: nat, n: nat)
    requires EvaluatedAt(cfg, inputs, id, k) && n <= k && id in After(cfg, inputs, n).transactions
    ensures DispositionOf(After(cfg, inputs, n).transactions[id]).Deny?
  {
    hide Evaluates, Step, Run, Tables, CountOpen;
    LaterEvolves(cfg, inputs, n, k, id);
    AfterKeepsInv(cfg, inputs, k);
    StepEvaluates(cfg, After(cfg, inputs, k), inputs[k], id);
    assert !Decided(After(cfg, inputs, k), id);
    AfterKeepsInv(cfg, inputs, n);
  }

  // ---- What a drain counts ----

  /** The proposal reuses the key of a filed transaction. */
  ghost predicate Reproposes(cfg: Config, c: Core, m: Message, same: bool)
  {
    && m.Proposal? && m.key in c.byCorrelation && c.byCorrelation[m.key] in c.transactions
    && same == ((cfg.digestOf)(c.transactions[c.byCorrelation[m.key]].action) == (cfg.digestOf)(m.action))
  }

  /** The report names a requirement of a filed transaction. */
  ghost predicate Addresses(c: Core, m: Message, i: nat)
  {
    && !m.Proposal? && m.transaction in c.transactions
    && i < |c.transactions[m.transaction].packet.requirements|
    && c.transactions[m.transaction].packet.requirements[i].identity == m.requirement
  }

  ghost predicate AddressesPending(c: Core, m: Message, pending: bool)
  {
    exists i: nat :: Addresses(c, m, i)
      && c.transactions[m.transaction].packet.requirements[i].status.Pending? == pending
  }

  /** What each drained message counts as, exactly. */
  lemma TalliedExactly(cfg: Config, c: Core, input: Input)
    requires Inv(c)
    ensures var m, tally := input.message, Tally(cfg, c, input);
            var known := !m.Proposal? && m.transaction in c.transactions;
            && tally.replays == (if Reproposes(cfg, c, m, true) || AddressesPending(c, m, false) then 1 else 0)
            && tally.droppedUnknown ==
               (if !m.Proposal? && (!known || (m.EvidenceDelivery? && forall i: nat :: !Addresses(c, m, i)))
                then 1 else 0)
            && tally.receiptRejections ==
               (if m.EvidenceDelivery? && AddressesPending(c, m, true)
                   && !Answer(cfg, c.transactions[m.transaction].correlation.generation, m, input.now).Satisfied?
                then 1 else 0)
            && tally.integrityFailures ==
               tally.receiptRejections + (if Reproposes(cfg, c, m, false) then 1 else 0)
  {
    KeysAgree(c);
    if input.message.Proposal? {
      ProposalTallied(cfg, c, input.message);
    } else {
      ReportTallied(cfg, c, input.message, input.now);
    }
    hide Inv, ProposalTally, ReportTally, Answer;
  }

  lemma ProposalTallied(cfg: Config, c: Core, m: Message)
    requires Inv(c) && m.Proposal?
    ensures ProposalTally(cfg, c, m) ==
            if Reproposes(cfg, c, m, true) then REPLAY
            else if Reproposes(cfg, c, m, false) then EMPTY_RESULT.(integrityFailures := 1)
            else EMPTY_RESULT
  {
    hide WellKept;
    assert m.key in c.byCorrelation ==> c.byCorrelation[m.key] in c.transactions;
  }

  lemma ReportTallied(cfg: Config, c: Core, m: Message, now: nat)
    requires Inv(c) && !m.Proposal? && forall id :: id in c.transactions ==> Filed(c, id)
    ensures ReportTally(cfg, c, m, now) ==
            if m.transaction !in c.transactions then DROPPED
            else if AddressesPending(c, m, false) then REPLAY
            else if AddressesPending(c, m, true) then
              if m.EvidenceDelivery?
                 && !Answer(cfg, c.transactions[m.transaction].correlation.generation, m, now).Satisfied?
              then EMPTY_RESULT.(integrityFailures := 1, receiptRejections := 1) else EMPTY_RESULT
            else if m.EvidenceDelivery? then DROPPED else EMPTY_RESULT
    ensures m.transaction !in c.transactions ==> forall i: nat :: !Addresses(c, m, i)
    ensures !(AddressesPending(c, m, false) && AddressesPending(c, m, true))
  {
    hide Tables, Consistent, CountOpen, Answer;
    if m.transaction in c.transactions {
      assert WellKept(View(c, m.transaction));
      DistinctKept(View(c, m.transaction));
      OnlyAddressed(c, m);
      AnswerExactly(cfg, c.transactions[m.transaction].correlation.generation, m, now);
    }
  }

  lemma DistinctKept(e: Entry)
    requires WellKept(e)
    ensures Distinct(RequirementsOf(e))
  {
  }

  lemma OnlyAddressed(c: Core, m: Message)
    requires !m.Proposal? && m.transaction in c.transactions
    requires Distinct(c.transactions[m.transaction].packet.requirements)
    ensures var requirements := c.transactions[m.transaction].packet.requirements;
            var found := Locate(requirements, m.requirement);
            && (found.None? ==> forall i: nat :: !Addresses(c, m, i))
            && (found.Some? ==> Addresses(c, m, found.value) && forall i: nat :: Addresses(c, m, i) ==> i == found.value)
  {
    var requirements := c.transactions[m.transaction].packet.requirements;
    var found := Locate(requirements, m.requirement);
    if found.Some? {
      forall i: nat | Addresses(c, m, i) ensures i == found.value {
        assert !(found.value < i);
      }
    }
  }

  /** A drain reports how many messages it took and, for each kind, the sum of
      what they counted as. */
  lemma {:induction false} DrainAddsUp(cfg: Config, c: Core, inputs: seq<Input>)
    ensures TallyRun(cfg, c, inputs).processed == |inputs|
    ensures forall input ::
              var t, t' := TallyRun(cfg, c, inputs), TallyRun(cfg, c, inputs + [input]);
              var one := Tally(cfg, Run(cfg, c, inputs), input);
              && t'.replays == t.replays + one.replays
              && t'.droppedUnknown == t.droppedUnknown + one.droppedUnknown
              && t'.integrityFailures == t.integrityFailures + one.integrityFailures
              && t'.receiptRejections == t.receiptRejections + one.receiptRejections
  {
    hide Tally, Step;
    if inputs != [] {
      DrainAddsUp(cfg, c, inputs[..|inputs| - 1]);
    }
    forall input ensures (inputs + [input])[..|inputs|] == inputs {
    }
  }

  ghost function MismatchCount(cfg: Config, inputs: seq<Input>, key: CorrelationKey, n: nat): nat
    requires n <= |inputs|
  {
    if n == 0 then 0
    else
      MismatchCount(cfg, inputs, key, n - 1)
      + var m := inputs[n - 1].message;
        if Reproposes(cfg, After(cfg, inputs, n - 1), m, false) && m.key == key then 1 else 0
  }

  /** Over every run, a key's integrity count is exactly the number of proposals
      drained under it whose action differed from the one it was filed with. */
  lemma {:induction false} IntegrityCounted(cfg: Config, inputs: seq<Input>, key: CorrelationKey, n: nat)
    requires n <= |inputs|
    ensures Count(After(cfg, inputs, n).integrityFailures, key) == MismatchCount(cfg, inputs, key, n)
  {
    hide Run, Step, Inv, Reproposes, Count;
    if n == 0 {
      NoneCountedYet(cfg, inputs, key);
    } else {
      IntegrityCounted(cfg, inputs, key, n - 1);
      AfterStep(cfg, inputs, n - 1);
      AfterKeepsInv(cfg, inputs, n - 1);
      StepCounts(cfg, After(cfg, inputs, n - 1), inputs[n - 1], key);
    }
  }

  lemma NoneCountedYet(cfg: Config, inputs: seq<Input>, key: CorrelationKey)
    ensures Count(After(cfg, inputs, 0).integrityFailures, key) == 0
  {
  }

  lemma StepCounts(cfg: Config, c: Core, input: Input, key: CorrelationKey)
    requires Inv(c)
    ensures Count(Step(cfg, c, input).integrityFailures, key) == Count(c.integrityFailures, key)
            + if Reproposes(cfg, c, input.message, false) && input.message.key == key then 1 else 0
  {
    hide Step, WellKept, Tables;
    if input.message.Proposal? && input.message.key in c.byCorrelation {
      ReplayIsInert(cfg, c, input);
    } else {
      OtherwiseUncounted(cfg, c, input);
    }
  }

  lemma OtherwiseUncounted(cfg: Config, c: Core, input: Input)
    requires !(input.message.Proposal? && input.message.key in c.byCorrelation)
    ensures Step(cfg, c, input).integrityFailures == c.integrityFailures
  {
    hide Reported, Opened;
  }
}
