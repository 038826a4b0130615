/** Conservation over whole runs of the control core: activation receipts are
    spent one for one, duplicates change nothing, and what a stray report can
    and cannot do. */
module Conservation {
  import opened Values
  import opened Requirements
  import opened Resolver
  import opened Transactions
  import opened ControlState
  import opened ControlInvariants
  import opened ControlTheorems
  import opened Schedule

  // ---- Activations ----

  ghost function ActivatedAt(requirements: seq<Prepared>): set<nat>
  {
    set i: nat | i < |requirements| && ByActivation(requirements[i])
  }

  /** Every (transaction, position) satisfied by an activation. */
  ghost function ActivatedSites(c: Core): set<(nat, nat)>
  {
    set id, i: nat | id in c.transactions && i < |c.transactions[id].packet.requirements|
                     && ByActivation(c.transactions[id].packet.requirements[i]) :: (id, i)
  }

  lemma ActivateSpends(cfg: Config, receipts: seq<ActivationReceipt>, key: CorrelationKey, now: nat,
                       p: Prepared, spent: set<nat>)
    requires p.status.Pending? && p.evidence == []
    ensures var (p', spent') := Activate(cfg, receipts, key, now, p, spent);
            && spent <= spent'
            && |spent'| == |spent| + (if ByActivation(p') then 1 else 0)
  {
    hide FirstUsable, ValidFor;
  }

  lemma {:induction false} OneUseEach(cfg: Config, receipts: seq<ActivationReceipt>, key: CorrelationKey, now: nat,
                                     requirements: seq<Prepared>, spent: set<nat>)
    requires forall i :: 0 <= i < |requirements| ==> requirements[i].status.Pending? && requirements[i].evidence == []
    ensures var after := PreSatisfied(cfg, receipts, key, now, requirements, spent);
            spent <= after.spent && |after.spent| == |spent| + |ActivatedAt(after.requirements)|
  {
    hide Activate, ByActivation;
    var after := PreSatisfied(cfg, receipts, key, now, requirements, spent);
    if requirements == [] {
      assert ActivatedAt(after.requirements) == {};
    } else {
      var last := |requirements| - 1;
      OneUseEach(cfg, receipts, key, now, requirements[..last], spent);
      var before := PreSatisfied(cfg, receipts, key, now, requirements[..last], spent);
      ActivateSpends(cfg, receipts, key, now, requirements[last], before.spent);
      ActivatedAppend(before.requirements, after.requirements[last]);
      assert after.requirements == before.requirements + [after.requirements[last]];
    }
  }

  lemma ActivatedAppend(requirements: seq<Prepared>, p: Prepared)
    ensures |ActivatedAt(requirements + [p])| == |ActivatedAt(requirements)| + (if ByActivation(p) then 1 else 0)
  {
    var n := |requirements|;
    assert ActivatedAt(requirements + [p]) == ActivatedAt(requirements) + if ByActivation(p) then {n} else {};
  }

  ghost function Pairs(id: nat, positions: set<nat>): set<(nat, nat)>
  {
    set i | i in positions :: (id, i)
  }

  lemma {:induction false} PairsCount(id: nat, positions: set<nat>)
    ensures |Pairs(id, positions)| == |positions|
  {
    if positions == {} {
      assert Pairs(id, positions) == {};
    } else {
      var i :| i in positions;
      PairsCount(id, positions - {i});
      assert Pairs(id, positions) == Pairs(id, positions - {i}) + {(id, i)};
      assert (id, i) !in Pairs(id, positions - {i});
    }
  }

  lemma OpenedActivates(cfg: Config, id: nat, input: Input, spent: set<nat>)
    requires input.message.Proposal?
    ensures var (e, spent') := Opened(cfg, id, input, spent);
            |spent'| == |spent| + |ActivatedAt(RequirementsOf(e))|
  {
    var m, unprepared := input.message, Unprepared(Derived(input.intents));
    var pre := PreSatisfied(cfg, m.receipts, m.key, input.now, unprepared, spent);
    OneUseEach(cfg, m.receipts, m.key, input.now, unprepared, spent);
    hide PreSatisfied, Derived, Dispatchable, CountOpen, Verdict;
    var after := DispatchedAll(cfg, input.accepted, pre.requirements);
    assert forall i :: 0 <= i < |after| ==> (ByActivation(after[i]) <==> ByActivation(pre.requirements[i]));
    assert ActivatedAt(after) == ActivatedAt(pre.requirements);
    assert RequirementsOf(Opened(cfg, id, input, spent).0) == after;
  }

  /** Filing a transaction adds the pairs of its own activated positions. */
  lemma SitesGrow(c: Core, c': Core, id: nat)
    requires id !in c.transactions && c'.transactions.Keys == c.transactions.Keys + {id}
    requires forall other :: other in c.transactions ==> c'.transactions[other] == c.transactions[other]
    ensures |ActivatedSites(c')| == |ActivatedSites(c)| + |ActivatedAt(c'.transactions[id].packet.requirements)|
  {
    hide ByActivation, ActivatedSites, ActivatedAt, Pairs;
    var new' := ActivatedAt(c'.transactions[id].packet.requirements);
    PairsCount(id, new');
    forall site: (nat, nat)
      ensures site in ActivatedSites(c') <==> site in ActivatedSites(c) || site in Pairs(id, new')
      ensures !(site in ActivatedSites(c) && site in Pairs(id, new'))
    {
      SiteOf(c, c', id, site.0, site.1);
      assert site == (site.0, site.1);
    }
    assert ActivatedSites(c') == ActivatedSites(c) + Pairs(id, new');
    assert ActivatedSites(c) !! Pairs(id, new');
  }

  lemma InSites(c: Core, t: nat, i: nat)
    ensures (t, i) in ActivatedSites(c) <==>
            t in c.transactions && i in ActivatedAt(c.transactions[t].packet.requirements)
  {
    hide ByActivation;
  }

  /** A site is new exactly when it is one of the filed transaction's. */
  lemma SiteOf(c: Core, c': Core, id: nat, t: nat, i: nat)
    requires id !in c.transactions && c'.transactions.Keys == c.transactions.Keys + {id}
    requires forall other :: other in c.transactions ==> c'.transactions[other] == c.transactions[other]
    ensures var new' := Pairs(id, ActivatedAt(c'.transactions[id].packet.requirements));
            && ((t, i) in ActivatedSites(c') <==> (t, i) in ActivatedSites(c) || (t, i) in new')
            && !((t, i) in ActivatedSites(c) && (t, i) in new')
  {
    hide ActivatedSites, ActivatedAt;
    InSites(c, t, i);
    InSites(c', t, i);
    assert t in c'.transactions <==> t in c'.transactions.Keys;
  }

  lemma CreateActivates(cfg: Config, c: Core, input: Input)
    requires Inv(c) && input.message.Proposal? && input.message.key !in c.byCorrelation
    ensures var c' := Create(cfg, c, input);
            |ActivatedSites(c')| - |ActivatedSites(c)| == |c'.spent| - |c.spent|
  {
    CreateFiles(cfg, c, input);
    OpenedActivates(cfg, c.nextId, input, c.spent);
    hide Opened, Inv, ActivatedSites, ActivatedAt, Tables;
    SitesGrow(c, Create(cfg, c, input), c.nextId);
  }

  lemma ReportActivates(cfg: Config, c: Core, input: Input)
    requires Inv(c) && !input.message.Proposal?
    ensures ActivatedSites(Step(cfg, c, input)) == ActivatedSites(c)
  {
    hide Reported, WellKept, Tables;
    var m, c' := input.message, Step(cfg, c, input);
    StepFiles(cfg, c, input);
    KeysAgree(c);
    forall id, i: nat | id in c.transactions
      ensures (id, i) in ActivatedSites(c') <==> (id, i) in ActivatedSites(c)
    {
      StepIsLocal(cfg, c, input, id);
      if m.transaction == id {
        ReportedEvolves(cfg, View(c, id), m, input.now);
      }
    }
  }

  /** Over any run, exactly as many activation uses are spent as requirements
      were satisfied by an activation: none is spent twice, none for nothing. */
  lemma {:induction false} ActivationsConserved(cfg: Config, inputs: seq<Input>)
    ensures var c := Run(cfg, INITIAL, inputs);
            |ActivatedSites(c)| == |c.spent|
  {
    if inputs == [] {
      assert ActivatedSites(INITIAL) == {};
    } else {
      var before, last := inputs[..|inputs| - 1], inputs[|inputs| - 1];
      ActivationsConserved(cfg, before);
      RunKeepsInv(cfg, INITIAL, before);
      var c := Run(cfg, INITIAL, before);
      hide Inv, Create, ActivatedSites, Reported;
      if !last.message.Proposal? {
        ReportActivates(cfg, c, last);
      } else if last.message.key !in c.byCorrelation {
        CreateActivates(cfg, c, last);
      } else {
        ReplayIsInert(cfg, c, last);
        SameSites(c, Step(cfg, c, last));
      }
    }
  }

  lemma SameSites(c: Core, c': Core)
    requires c'.transactions == c.transactions
    ensures ActivatedSites(c') == ActivatedSites(c)
  {
  }

  // ---- Duplicate proposals ----

  /** A proposal under a known correlation key never opens a second transaction
      and never hits a dangling key: identical content changes nothing at all,
      different content adds one to the key's integrity count and does nothing
      else. */
  lemma ReplayIsInert(cfg: Config, c: Core, input: Input)
    requires Inv(c) && input.message.Proposal? && input.message.key in c.byCorrelation
    ensures var m, c' := input.message, Step(cfg, c, input);
            var id := c.byCorrelation[m.key];
            && id in c.transactions && c.transactions[id].correlation == m.key
            && c'.(integrityFailures := c.integrityFailures) == c
            && (forall key :: Count(c'.integrityFailures, key) == Count(c.integrityFailures, key)
                  + if key == m.key && (cfg.digestOf)(c.transactions[id].action) != (cfg.digestOf)(m.action) then 1 else 0)
            && ((cfg.digestOf)(c.transactions[id].action) == (cfg.digestOf)(m.action) ==> c' == c)
  {
  }

  /** Whatever a drain counts as a replay or as dropped left the control state
      exactly as it was. */
  lemma CountedIsInert(cfg: Config, c: Core, input: Input)
    requires Inv(c)
    requires Tally(cfg, c, input).replays + Tally(cfg, c, input).droppedUnknown > 0
    ensures Step(cfg, c, input) == c
  {
    var m := input.message;
    if !m.Proposal? && Filed(c, m.transaction) {
      PutSame(c, m.transaction);
    }
  }

  /** So two transactions of one run never share a correlation key. */
  lemma OneTransactionPerKey(cfg: Config, inputs: seq<Input>, id: nat, other: nat)
    requires var c := Run(cfg, INITIAL, inputs); id in c.transactions && other in c.transactions && id != other
    ensures var c := Run(cfg, INITIAL, inputs); c.transactions[id].correlation != c.transactions[other].correlation
  {
    RunKeepsInv(cfg, INITIAL, inputs);
  }

  // ---- Resume context ----

  ghost function CountInFlight(requirements: seq<Prepared>): nat
  {
    if requirements == [] then 0
    else
      var last := |requirements| - 1;
      CountInFlight(requirements[..last]) + if InFlight(requirements[last]) then 1 else 0
  }

  lemma {:induction false} CountInFlightUpdate(requirements: seq<Prepared>, i: nat, p: Prepared)
    requires i < |requirements|
    ensures CountInFlight(requirements[i := p]) + (if InFlight(requirements[i]) then 1 else 0)
            == CountInFlight(requirements) + (if InFlight(p) then 1 else 0)
  {
    hide InFlight;
    var last := |requirements| - 1;
    if i == last {
      assert requirements[i := p][..last] == requirements[..last];
    } else {
      CountInFlightUpdate(requirements[..last], i, p);
      assert requirements[i := p][..last] == requirements[..last][i := p];
    }
  }

  lemma {:induction false} CountInFlightZero(requirements: seq<Prepared>)
    requires !AnyInFlight(requirements)
    ensures CountInFlight(requirements) == 0
  {
    hide InFlight;
    if requirements != [] {
      CountInFlightZero(requirements[..|requirements| - 1]);
    }
  }

  /** The receipts kept for the next proposal are exactly those that satisfied
      a judgment-gating requirement in flight, one for each. */
  ghost predicate ResumeMatches(e: Entry)
  {
    && |e.resume| == CountInFlight(RequirementsOf(e))
    && (forall r :: r in e.resume ==>
          exists p :: p in RequirementsOf(e) && InFlight(p) && p.identity == r.requirement
                      && p.evidence == [FromReceipt(r.id)])
    && (forall p :: p in RequirementsOf(e) && InFlight(p) ==>
          exists r :: r in e.resume && r.requirement == p.identity && p.evidence == [FromReceipt(r.id)])
  }

  lemma RecordedReceipt(cfg: Config, e: Entry, m: Message, now: nat, i: nat)
    requires Consistent(e) && !m.Proposal? && i < |RequirementsOf(e)|
    requires RequirementsOf(e)[i].status.Pending? && RequirementsOf(e)[i].identity == m.requirement
    ensures var e' := Recorded(cfg, e, m, now, i);
            && |RequirementsOf(e')| == |RequirementsOf(e)|
            && var p' := RequirementsOf(e')[i];
            && RequirementsOf(e') == RequirementsOf(e)[i := p']
            && (InFlight(p') ==> m.EvidenceDelivery? && m.receipt.requirement == p'.identity
                                 && p'.evidence == [FromReceipt(m.receipt.id)])
            && e'.resume == e.resume + (if InFlight(p') then [m.receipt] else [])
  {
    assert RequirementsOf(e)[i] in RequirementsOf(e);
  }

  lemma RecordedResume(cfg: Config, e: Entry, m: Message, now: nat, i: nat)
    requires Consistent(e) && ResumeMatches(e) && !m.Proposal? && i < |RequirementsOf(e)|
    requires RequirementsOf(e)[i].status.Pending? && RequirementsOf(e)[i].identity == m.requirement
    ensures ResumeMatches(Recorded(cfg, e, m, now, i))
  {
    RecordedReceipt(cfg, e, m, now, i);
    assert !InFlight(RequirementsOf(e)[i]);
    hide Recorded, InFlight, Consistent, CountInFlight;
    var e' := Recorded(cfg, e, m, now, i);
    CountInFlightUpdate(RequirementsOf(e), i, RequirementsOf(e')[i]);
    var requirements, after := RequirementsOf(e), RequirementsOf(e');
    forall p | p in requirements && InFlight(p) ensures p in after {
      var j :| 0 <= j < |requirements| && requirements[j] == p;
      assert after[j] == p;
    }
    forall r | r in e'.resume
      ensures exists p :: p in after && InFlight(p) && p.identity == r.requirement && p.evidence == [FromReceipt(r.id)]
    {
      if r in e.resume {
        var p :| p in requirements && InFlight(p) && p.identity == r.requirement && p.evidence == [FromReceipt(r.id)];
        assert p in after;
      } else {
        assert after[i] in after;
      }
    }
    forall p | p in after && InFlight(p)
      ensures exists r :: r in e'.resume && r.requirement == p.identity && p.evidence == [FromReceipt(r.id)]
    {
      if p in requirements {
        var r :| r in e.resume && r.requirement == p.identity && p.evidence == [FromReceipt(r.id)];
        assert r in e'.resume;
      } else {
        assert p == after[i] && m.receipt in e'.resume;
      }
    }
  }

  lemma ReportedResume(cfg: Config, e: Entry, m: Message, now: nat)
    requires WellKept(e) && ResumeMatches(e) && !m.Proposal?
    ensures ResumeMatches(Reported(cfg, e, m, now))
  {
    hide Recorded, Verdict, WellKept, InFlight, Answer;
    var found := Locate(RequirementsOf(e), m.requirement);
    if found.Some? && RequirementsOf(e)[found.value].status.Pending? {
      assert Consistent(e) by { KeptIsConsistent(e); }
      RecordedResume(cfg, e, m, now, found.value);
    }
  }

  lemma KeptIsConsistent(e: Entry)
    requires WellKept(e)
    ensures Consistent(e)
  {
  }

  lemma OpenedResume(cfg: Config, id: nat, input: Input, spent: set<nat>)
    requires input.message.Proposal?
    ensures ResumeMatches(Opened(cfg, id, input, spent).0)
  {
    OpenedKept(cfg, id, input, spent);
    hide Opened, CountOpen, Distinct, AllSound, InFlight, CountInFlight;
    CountInFlightZero(RequirementsOf(Opened(cfg, id, input, spent).0));
  }

  lemma StepResume(cfg: Config, c: Core, input: Input, id: nat)
    requires Inv(c) && (id in c.transactions ==> Filed(c, id) && ResumeMatches(View(c, id)))
    ensures var c' := Step(cfg, c, input); id in c'.transactions ==> Filed(c', id) && ResumeMatches(View(c', id))
  {
    hide Step, Tables, WellKept, ResumeMatches, Reported, Opened, Put;
    if id in c.transactions {
      StepIsLocal(cfg, c, input, id);
      if !input.message.Proposal? && input.message.transaction == id {
        ReportedResume(cfg, View(c, id), input.message, input.now);
      }
    } else if id in Step(cfg, c, input).transactions {
      NewlyFiled(cfg, c, input, id);
      FiledView(cfg, c, input);
      OpenedResume(cfg, id, input, c.spent);
    }
  }

  /** At every point of any run, each transaction's resume context holds exactly
      the receipts that satisfied its judgment-gating requirements in flight. */
  lemma {:induction false} ResumeContextExact(cfg: Config, inputs: seq<Input>, n: nat, id: nat)
    requires n <= |inputs|
    ensures var c := After(cfg, inputs, n); id in c.transactions ==> Filed(c, id) && ResumeMatches(View(c, id))
  {
    hide Step, ResumeMatches, Inv;
    if n > 0 {
      ResumeContextExact(cfg, inputs, n - 1, id);
      AfterStep(cfg, inputs, n - 1);
      AfterKeepsInv(cfg, inputs, n - 1);
      StepResume(cfg, After(cfg, inputs, n - 1), inputs[n - 1], id);
    }
  }

  /** The k-th message puts a judgment-gating requirement of the transaction in
      flight. */
  ghost predicate PutsInFlight(cfg: Config, inputs: seq<Input>, id: nat, k: nat)
    requires k < |inputs|
  {
    var c, c' := After(cfg, inputs, k), After(cfg, inputs, k + 1);
    && id in c.transactions && Filed(c, id) && Filed(c', id)
    && CountInFlight(RequirementsOf(View(c', id))) > CountInFlight(RequirementsOf(View(c, id)))
    && inputs[k].message.EvidenceDelivery?
  }

  /** The receipts that did so among the first n messages, in drain order. */
  ghost function DeliveredInFlight(cfg: Config, inputs: seq<Input>, id: nat, n: nat): seq<EvidenceReceipt>
    requires n <= |inputs|
  {
    if n == 0 then []
    else
      DeliveredInFlight(cfg, inputs, id, n - 1)
      + if PutsInFlight(cfg, inputs, id, n - 1) then [inputs[n - 1].message.receipt] else []
  }

  lemma RecordedOrder(cfg: Config, e: Entry, m: Message, now: nat)
    requires WellKept(e) && !m.Proposal?
    ensures var e' := Reported(cfg, e, m, now);
            var more := CountInFlight(RequirementsOf(e')) > CountInFlight(RequirementsOf(e));
            (more ==> m.EvidenceDelivery?) && e'.resume == e.resume + if more then [m.receipt] else []
  {
    hide Recorded, Verdict, WellKept, InFlight, Answer, CountInFlight;
    var found := Locate(RequirementsOf(e), m.requirement);
    if found.Some? && RequirementsOf(e)[found.value].status.Pending? {
      assert Consistent(e) by { KeptIsConsistent(e); }
      PendingNotInFlight(RequirementsOf(e)[found.value]);
      RecordedReceipt(cfg, e, m, now, found.value);
      CountInFlightUpdate(RequirementsOf(e), found.value,
                          RequirementsOf(Recorded(cfg, e, m, now, found.value))[found.value]);
    }
  }

  lemma PendingNotInFlight(p: Prepared)
    requires p.status.Pending?
    ensures !InFlight(p)
  {
  }

  /** Over any run, the resume context lists those receipts in the order they
      were drained. */
  lemma {:induction false} ResumeInDrainOrder(cfg: Config, inputs: seq<Input>, n: nat, id: nat)
    requires n <= |inputs|
    ensures var c := After(cfg, inputs, n);
            if id in c.transactions then Filed(c, id) && View(c, id).resume == DeliveredInFlight(cfg, inputs, id, n)
            else DeliveredInFlight(cfg, inputs, id, n) == []
  {
    hide Step, Inv, Run;
    if n == 0 {
      NothingDrained(cfg, inputs);
    } else {
      ResumeInDrainOrder(cfg, inputs, n - 1, id);
      AfterStep(cfg, inputs, n - 1);
      AfterKeepsInv(cfg, inputs, n - 1);
      StepOrder(cfg, After(cfg, inputs, n - 1), inputs[n - 1], id);
    }
  }

  lemma StepOrder(cfg: Config, c: Core, input: Input, id: nat)
    requires Inv(c)
    ensures var c' := Step(cfg, c, input);
            && (id in c.transactions ==>
                  && Filed(c, id) && Filed(c', id)
                  && var more := CountInFlight(RequirementsOf(View(c', id))) > CountInFlight(RequirementsOf(View(c, id)));
                     && (more ==> input.message.EvidenceDelivery?)
                     && View(c', id).resume == View(c, id).resume + if more then [input.message.receipt] else [])
            && (id in c'.transactions && id !in c.transactions ==> Filed(c', id) && View(c', id).resume == [])
            && c.transactions.Keys <= c'.transactions.Keys
  {
    hide Step, WellKept, Reported, Opened, Put, CountInFlight;
    StepKeepsInv(cfg, c, input);
    if id in c.transactions {
      StepIsLocal(cfg, c, input, id);
      if !input.message.Proposal? && input.message.transaction == id {
        RecordedOrder(cfg, View(c, id), input.message, input.now);
      }
    } else if id in Step(cfg, c, input).transactions {
      NewlyFiled(cfg, c, input, id);
      FiledView(cfg, c, input);
      OpenedKept(cfg, id, input, c.spent);
    }
  }

  // ---- What a stray report can do ----

  /** Accounting is not exact for arbitrary messages: one failure report for a
      requirement nobody derived settles a fresh proposal while its only
      requirement is still pending, and it then waits forever, whatever is
      drained afterwards. */
  lemma StrayReportStrands(cfg: Config, key: CorrelationKey, action: ObservedAction, needed: Identity,
                           stray: Identity, later: seq<Input>)
    requires needed.blocking && needed.boundary.BeforeExecution? && stray != needed
    requires BindingFor(cfg.bindings, needed.kind).Some?
    ensures var proposal := Input(Proposal(key, action, None, []), 0, [[needed]], {needed});
            var c := Run(cfg, INITIAL, [proposal, Input(ResolutionFailure(1, stray), 0, [], {})] + later);
            && 1 in c.transactions
            && c.transactions[1].phase.AwaitingRequirement?
  {
    var proposal := Input(Proposal(key, action, None, []), 0, [[needed]], {needed});
    var report := Input(ResolutionFailure(1, stray), 0, [], {});
    var inputs := [proposal, report] + later;
    StraySettles(cfg, key, action, needed, stray);
    AfterStep(cfg, inputs, 0);
    AfterStep(cfg, inputs, 1);
    assert inputs[..|inputs|] == inputs;
    hide Step, Run;
    assert After(cfg, inputs, 0) == INITIAL by { NothingDrained(cfg, inputs); }
    LaterEvolves(cfg, inputs, 2, |inputs|, 1);
  }

  lemma NothingDrained(cfg: Config, inputs: seq<Input>)
    ensures After(cfg, inputs, 0) == INITIAL
  {
  }

  lemma StraySettles(cfg: Config, key: CorrelationKey, action: ObservedAction, needed: Identity, stray: Identity)
    requires needed.blocking && needed.boundary.BeforeExecution? && stray != needed
    requires BindingFor(cfg.bindings, needed.kind).Some?
    ensures var proposal := Input(Proposal(key, action, None, []), 0, [[needed]], {needed});
            var c := Step(cfg, Step(cfg, INITIAL, proposal), Input(ResolutionFailure(1, stray), 0, [], {}));
            && 1 in c.transactions
            && c.transactions[1].phase.AwaitingRequirement?
            && c.transactions[1].packet.requirements == [Prepared(needed, Pending, [])]
  {
    var proposal := Input(Proposal(key, action, None, []), 0, [[needed]], {needed});
    var report := Input(ResolutionFailure(1, stray), 0, [], {});
    var p := Prepared(needed, Pending, []);
    OpenedSingle(cfg, key, action, needed);
    hide Opened, Step, Reported, WellKept;
    RunKeepsInv(cfg, INITIAL, []);
    FiledView(cfg, INITIAL, proposal);
    StepKeepsInv(cfg, INITIAL, proposal);
    StepIsLocal(cfg, Step(cfg, INITIAL, proposal), report, 1);
    StrayEntry(cfg, View(Step(cfg, INITIAL, proposal), 1), p, report.message);
  }

  /** A stray failure settles an entry with one pending execution requirement as
      awaiting it. */
  lemma StrayEntry(cfg: Config, e: Entry, p: Prepared, m: Message)
    requires p.identity.blocking && p.identity.boundary.BeforeExecution? && p.status.Pending?
    requires e.transaction.packet == Packet([p], NoFailure) && e.transaction.phase.RequirementsDerived?
    requires e.outstanding == 1 && !e.redeliberate && m.ResolutionFailure? && m.requirement != p.identity
    ensures var e' := Reported(cfg, e, m, 0);
            e'.transaction.phase.AwaitingRequirement? && RequirementsOf(e') == [p]
  {
    assert Locate([p], m.requirement) == None;
    assert p in [p];
  }

  lemma OpenedSingle(cfg: Config, key: CorrelationKey, action: ObservedAction, needed: Identity)
    requires needed.blocking && needed.boundary.BeforeExecution?
    requires BindingFor(cfg.bindings, needed.kind).Some?
    ensures var e := Opened(cfg, 1, Input(Proposal(key, action, None, []), 0, [[needed]], {needed}), {}).0;
            e == Entry(Transaction(1, None, key, action, Packet([Prepared(needed, Pending, [])], NoFailure),
                                   RequirementsDerived), 1, false, [])
  {
    OpenedPending(cfg, key, action, [needed]);
    assert (set i | i in [needed]) == {needed};
    hide Opened;
    assert Unanswered([needed]) == [Prepared(needed, Pending, [])];
  }

  ghost function Unanswered(needed: seq<Identity>): seq<Prepared>
  {
    seq(|needed|, i requires 0 <= i < |needed| => Prepared(needed[i], Pending, []))
  }

  ghost predicate AllDispatchable(cfg: Config, needed: seq<Identity>)
  {
    && needed != []
    && (forall i, j :: 0 <= i < j < |needed| ==> needed[i] != needed[j])
    && forall i :: 0 <= i < |needed| ==>
         needed[i].blocking && needed[i].boundary.BeforeExecution? && BindingFor(cfg.bindings, needed[i].kind).Some?
  }

  /** A proposal whose one intent needs distinct, dispatchable requirements opens
      with all of them pending and counted. */
  lemma OpenedPending(cfg: Config, key: CorrelationKey, action: ObservedAction, needed: seq<Identity>)
    requires AllDispatchable(cfg, needed)
    ensures var e := Opened(cfg, 1, Input(Proposal(key, action, None, []), 0, [needed], set i | i in needed), {}).0;
            e == Entry(Transaction(1, None, key, action, Packet(Unanswered(needed), NoFailure), RequirementsDerived),
                       |needed|, false, [])
  {
    hide Derived, PreSatisfied, CountOpen, Settled, Dispatchable;
    var accepted := set i | i in needed;
    var requirements := Unanswered(needed);
    DerivedDistinct(needed);
    assert Unprepared(Derived([needed])) == requirements;
    NothingActivated(cfg, key, requirements);
    AllOpen(requirements);
    forall i | 0 <= i < |needed| ensures Dispatchable(cfg, accepted, needed[i]) {
      IsDispatchable(cfg, accepted, needed[i]);
    }
    assert DispatchedAll(cfg, accepted, requirements) == requirements;
  }

  lemma IsDispatchable(cfg: Config, accepted: set<Identity>, identity: Identity)
    requires BindingFor(cfg.bindings, identity.kind).Some? && identity in accepted
    ensures Dispatchable(cfg, accepted, identity)
  {
  }

  lemma DerivedDistinct(needed: seq<Identity>)
    requires forall i, j :: 0 <= i < j < |needed| ==> needed[i] != needed[j]
    ensures |Derived([needed])| == |needed|
    ensures forall i :: 0 <= i < |needed| ==> Derived([needed])[i].identity == needed[i]
  {
    var one: seq<seq<Identity>> := [needed];
    assert one[..0] == [] && Derived([]) == [];
    MergedDistinct(needed);
  }

  lemma {:induction false} MergedDistinct(needed: seq<Identity>)
    requires forall i, j :: 0 <= i < j < |needed| ==> needed[i] != needed[j]
    ensures |MergedIntent([], needed, 0)| == |needed|
    ensures forall i :: 0 <= i < |needed| ==> MergedIntent([], needed, 0)[i].identity == needed[i]
  {
    if needed != [] {
      MergedDistinct(needed[..|needed| - 1]);
    }
  }

  lemma {:induction false} NothingActivated(cfg: Config, key: CorrelationKey, requirements: seq<Prepared>)
    ensures PreSatisfied(cfg, [], key, 0, requirements, {}) == Activated(requirements, {})
  {
    if requirements != [] {
      NothingActivated(cfg, key, requirements[..|requirements| - 1]);
    }
  }

  lemma {:induction false} AllOpen(requirements: seq<Prepared>)
    requires forall i :: 0 <= i < |requirements| ==> Open(requirements[i])
    ensures CountOpen(requirements) == |requirements|
  {
    if requirements != [] {
      AllOpen(requirements[..|requirements| - 1]);
    }
  }

  // ---- A solicited report can strand too ----

  /** The messages of the second failing history: two execution requirements, a
      stray failure, and satisfying evidence for the first of the two. */
  ghost function StrayThenEvidence(key: CorrelationKey, action: ObservedAction, a: Identity, b: Identity,
                                   stray: Identity, receipt: EvidenceReceipt): seq<Input>
  {
    [Input(Proposal(key, action, None, []), 0, [[a, b]], set i | i in [a, b]),
     Input(ResolutionFailure(1, stray), 0, [], {}),
     Input(EvidenceDelivery(1, a, receipt), 0, [], {})]
  }

  lemma TwoUnanswered(a: Identity, b: Identity)
    ensures Unanswered([a, b]) == [Prepared(a, Pending, []), Prepared(b, Pending, [])]
  {
  }

  lemma TwoOpen(cfg: Config, a: Identity, b: Identity)
    requires AllDispatchable(cfg, [a, b])
    ensures a.blocking && b.blocking && a.boundary.BeforeExecution? && b.boundary.BeforeExecution?
  {
    assert [a, b][0] == a && [a, b][1] == b;
  }

  /** The first failure matches neither requirement and strands nothing; it runs
      the count ahead, and the evidence that then answers the first requirement,
      as it was asked to, leaves the transaction awaiting the second forever. */
  lemma SolicitedReportStrands(cfg: Config, key: CorrelationKey, action: ObservedAction, a: Identity, b: Identity,
                               stray: Identity, receipt: EvidenceReceipt, later: seq<Input>)
    requires AllDispatchable(cfg, [a, b]) && stray != a && stray != b
    requires Answer(cfg, key.generation, EvidenceDelivery(1, a, receipt), 0).Satisfied?
    ensures var inputs := StrayThenEvidence(key, action, a, b, stray, receipt) + later;
            && !Awaits(After(cfg, inputs, 2), 1)
            && Filed(After(cfg, inputs, 2), 1) && !Stray(View(After(cfg, inputs, 2), 1), inputs[2].message)
            && Awaits(After(cfg, inputs, 3), 1)
            && Awaits(Run(cfg, INITIAL, inputs), 1)
  {
    hide Opened, Step, Run, Reported, Answer, After, AllDispatchable, Unanswered, Strands, Stray, BindingFor;
    var inputs := StrayThenEvidence(key, action, a, b, stray, receipt) + later;
    var p, q := Prepared(a, Pending, []), Prepared(b, Pending, []);
    var t := Transaction(1, None, key, action, Packet([p, q], NoFailure), RequirementsDerived);
    TwoUnanswered(a, b);
    TwoOpen(cfg, a, b);
    OpenedPending(cfg, key, action, [a, b]);
    AfterProposal(cfg, inputs);
    AfterReport(cfg, inputs, 1);
    StrayLeavesTwo(cfg, View(After(cfg, inputs, 1), 1), t, p, q, inputs[1].message);
    AfterReport(cfg, inputs, 2);
    EvidenceStrands(cfg, Entry(t, 1, false, []), p, q, inputs[2].message);
    assert StrandsAt(cfg, inputs, 1, 2);
    StrandedExactly(cfg, inputs, 3, 1);
    StrandedExactly(cfg, inputs, |inputs|, 1);
    AfterAll(cfg, inputs);
  }

  lemma AfterAll(cfg: Config, inputs: seq<Input>)
    ensures After(cfg, inputs, |inputs|) == Run(cfg, INITIAL, inputs)
  {
    assert inputs[..|inputs|] == inputs;
  }

  lemma AfterProposal(cfg: Config, inputs: seq<Input>)
    requires inputs != [] && inputs[0].message.Proposal?
    ensures Filed(After(cfg, inputs, 1), 1)
    ensures View(After(cfg, inputs, 1), 1) == Opened(cfg, 1, inputs[0], {}).0
  {
    AfterStep(cfg, inputs, 0);
    NothingDrained(cfg, inputs);
    hide Opened, Step, Run;
    RunKeepsInv(cfg, INITIAL, []);
    RunOfNothing(cfg);
    FiledView(cfg, INITIAL, inputs[0]);
  }

  lemma RunOfNothing(cfg: Config)
    ensures Run(cfg, INITIAL, []) == INITIAL
  {
  }

  lemma AfterReport(cfg: Config, inputs: seq<Input>, k: nat)
    requires k < |inputs| && !inputs[k].message.Proposal? && inputs[k].message.transaction == 1
    requires Filed(After(cfg, inputs, k), 1)
    ensures Filed(After(cfg, inputs, k + 1), 1)
    ensures View(After(cfg, inputs, k + 1), 1)
            == Reported(cfg, View(After(cfg, inputs, k), 1), inputs[k].message, inputs[k].now)
  {
    AfterStep(cfg, inputs, k);
    AfterKeepsInv(cfg, inputs, k);
    hide Step, Run, Reported;
    StepIsLocal(cfg, After(cfg, inputs, k), inputs[k], 1);
  }

  lemma StrayLeavesTwo(cfg: Config, e: Entry, t: Transaction, p: Prepared, q: Prepared, m: Message)
    requires t.packet == Packet([p, q], NoFailure) && e == Entry(t, 2, false, [])
    requires m.ResolutionFailure? && m.requirement != p.identity && m.requirement != q.identity
    ensures Reported(cfg, e, m, 0) == Entry(t, 1, false, [])
  {
    assert Locate([p, q], m.requirement) == None;
  }

  lemma EvidenceStrands(cfg: Config, e: Entry, p: Prepared, q: Prepared, m: Message)
    requires e.transaction.packet == Packet([p, q], NoFailure) && e.outstanding == 1
    requires forall r :: r in [p, q] ==> Open(r) && r.identity.boundary.BeforeExecution?
    requires m.EvidenceDelivery? && m.requirement == p.identity
    requires Answer(cfg, e.transaction.correlation.generation, m, 0).Satisfied?
    ensures Strands(cfg, e, m, 0) && !Stray(e, m)
  {
    hide Answer;
    assert p in [p, q] && q in [p, q];
    assert Locate([p, q], m.requirement) == Some(0);
    AllOpen([p, q]);
  }
}
