/** Report accounting and schedule independence: which messages keep the count
    of outstanding reports exact, and why the verdict of a proposal does not
    depend on the order its reports are drained in. */
module Schedule {
  import opened Values
  import opened Requirements
  import opened Transactions
  import opened ControlState
  import opened ControlInvariants
  import opened ControlTheorems

  // ---- Exact accounting ----

  /** A report that counts down without closing an open requirement: a failure
      for a requirement the packet does not hold, or any report for a pending
      non-blocking one. */
  ghost predicate Stray(e: Entry, m: Message)
    requires !m.Proposal?
  {
    match Locate(RequirementsOf(e), m.requirement)
    case None => m.ResolutionFailure?
    case Some(i) => RequirementsOf(e)[i].status.Pending? && !RequirementsOf(e)[i].identity.blocking
  }

  ghost predicate AnyBlockingFailed(requirements: seq<Prepared>)
  {
    exists p :: p in requirements && p.identity.blocking && p.status.Failed?
  }

  /** The verdict once every blocking requirement has been answered. */
  ghost function AnsweredPhase(requirements: seq<Prepared>): Phase
  {
    if AnyInFlight(requirements) then ReDeliberationRequired
    else if AnyBlockingFailed(requirements) then Denied
    else CognitiveAllowed
  }

  /** The count is exact and the phase is a function of the statuses. */
  ghost predicate Accounted(e: Entry)
  {
    && WellKept(e)
    && e.outstanding == CountOpen(RequirementsOf(e))
    && (SettledPhase(e.transaction.phase) ==> e.transaction.phase == AnsweredPhase(RequirementsOf(e)))
  }

  /** Starting from an exact count, a report keeps it exact if and only if it
      is not a stray arriving while reports are outstanding. */
  lemma ExactUnlessStray(cfg: Config, e: Entry, m: Message, now: nat)
    requires WellKept(e) && e.outstanding == CountOpen(RequirementsOf(e)) && !m.Proposal?
    ensures var e' := Reported(cfg, e, m, now);
            e'.outstanding == CountOpen(RequirementsOf(e')) <==> !(Stray(e, m) && e.outstanding > 0)
  {
    hide CountOpen, Answer, Recorded, Verdict, Distinct, AllSound, AnyInFlight, AllBlockingSatisfied;
    var found := Locate(RequirementsOf(e), m.requirement);
    if found.Some? && RequirementsOf(e)[found.value].status.Pending? {
      RecordedEffect(cfg, e, m, now, found.value);
      RecordedConsistent(cfg, e, m, now, found.value);
    }
  }

  /** With nothing open, settling gives the answered phase: it neither waits
      nor re-deliberates for a pending requirement. */
  lemma SettlesToAnswered(e: Entry)
    requires Consistent(e) && e.transaction.phase.RequirementsDerived? && CountOpen(RequirementsOf(e)) == 0
    ensures Settled(e).transaction.phase == AnsweredPhase(RequirementsOf(e))
  {
    var requirements := RequirementsOf(e);
    CountOpenZero(requirements);
    hide CountOpen, AllSound, Distinct;
    assert forall p :: p in requirements && p.identity.blocking && !p.status.Satisfied? ==> p.status.Failed?;
    assert !AnyBlockingFailed(requirements) <==> AllBlockingSatisfied(requirements);
  }

  /** Answering a non-blocking requirement does not move the verdict. */
  lemma AnsweredPhaseIgnoresNonBlocking(requirements: seq<Prepared>, i: nat, p: Prepared)
    requires i < |requirements| && !requirements[i].identity.blocking && p.identity == requirements[i].identity
    ensures AnsweredPhase(requirements[i := p]) == AnsweredPhase(requirements)
  {
    var after := requirements[i := p];
    assert forall q :: q in after && q.identity.blocking ==> q in requirements;
    forall q | q in requirements && q.identity.blocking ensures q in after {
      var j :| 0 <= j < |requirements| && requirements[j] == q;
      assert after[j] == q;
    }
  }

  lemma ReportedAccounted(cfg: Config, e: Entry, m: Message, now: nat)
    requires Accounted(e) && !m.Proposal? && !(Stray(e, m) && e.outstanding > 0)
    ensures Accounted(Reported(cfg, e, m, now))
  {
    ReportedKept(cfg, e, m, now);
    ExactUnlessStray(cfg, e, m, now);
    var found := Locate(RequirementsOf(e), m.requirement);
    hide CountOpen, Answer, Recorded, Verdict, Distinct, AllSound, AnyInFlight, AllBlockingSatisfied, AnsweredPhase;
    if found.Some? && RequirementsOf(e)[found.value].status.Pending? {
      var e' := Recorded(cfg, e, m, now, found.value);
      RecordedEffect(cfg, e, m, now, found.value);
      RecordedConsistent(cfg, e, m, now, found.value);
      if e.outstanding == 1 {
        SettlesToAnswered(e'.(outstanding := 0));
      } else if e.outstanding == 0 {
        NothingOpen(RequirementsOf(e), found.value);
        AnsweredPhaseIgnoresNonBlocking(RequirementsOf(e), found.value, RequirementsOf(e')[found.value]);
      }
    }
  }

  lemma NothingOpen(requirements: seq<Prepared>, i: nat)
    requires i < |requirements| && requirements[i].status.Pending? && CountOpen(requirements) == 0
    ensures !requirements[i].identity.blocking
  {
    CountOpenZero(requirements);
  }

  lemma OpenedAccounted(cfg: Config, id: nat, input: Input, spent: set<nat>)
    requires input.message.Proposal?
    ensures Accounted(Opened(cfg, id, input, spent).0)
  {
    OpenedKept(cfg, id, input, spent);
    hide PreSatisfied, Derived, Dispatchable, DispatchedAll, AllSound, Distinct, AnyInFlight, CountOpen, Verdict;
    var e := Opened(cfg, id, input, spent).0;
    if e.outstanding == 0 {
      SettlesToAnswered(Reopened(e));
    }
  }

  ghost function Reopened(e: Entry): Entry
  {
    e.(transaction := e.transaction.(phase := RequirementsDerived))
  }

  /** Nothing an input does is stray. */
  ghost predicate Solicited(c: Core, input: Input)
  {
    var m := input.message;
    !m.Proposal? && Filed(c, m.transaction) ==>
      !(Stray(View(c, m.transaction), m) && View(c, m.transaction).outstanding > 0)
  }

  lemma StepAccounted(cfg: Config, c: Core, input: Input, id: nat)
    requires Inv(c) && Solicited(c, input)
    requires id in c.transactions ==> Accounted(View(c, id))
    ensures var c' := Step(cfg, c, input);
            id in c'.transactions ==> Filed(c', id) && Accounted(View(c', id))
  {
    StepKeepsInv(cfg, c, input);
    KeysAgree(c);
    KeysAgree(Step(cfg, c, input));
    hide Accounted, Tables, Stray, Opened, Reported, Put, Step, WellKept;
    if id in c.transactions {
      StepIsLocal(cfg, c, input, id);
      if !input.message.Proposal? && input.message.transaction == id {
        ReportedAccounted(cfg, View(c, id), input.message, input.now);
      }
    } else if id in Step(cfg, c, input).transactions {
      NewlyFiled(cfg, c, input, id);
      FiledView(cfg, c, input);
      OpenedAccounted(cfg, c.nextId, input, c.spent);
    }
  }

  lemma FiledView(cfg: Config, c: Core, input: Input)
    requires Inv(c) && input.message.Proposal? && input.message.key !in c.byCorrelation
    ensures Filed(Step(cfg, c, input), c.nextId)
    ensures View(Step(cfg, c, input), c.nextId) == Opened(cfg, c.nextId, input, c.spent).0
  {
    hide Opened;
    CreateFiles(cfg, c, input);
  }

  /** In a run where every report answers a dispatched requirement, at each
      point the count of every transaction equals its open requirements, a
      transaction is decided exactly when that count is zero, and then by its
      statuses alone: none ever waits. */
  lemma {:induction false} SolicitedRun(cfg: Config, inputs: seq<Input>, n: nat, id: nat)
    requires n <= |inputs|
    requires forall k :: 0 <= k < n ==> Solicited(After(cfg, inputs, k), inputs[k])
    requires Filed(After(cfg, inputs, n), id)
    ensures var e := View(After(cfg, inputs, n), id);
            && e.outstanding == CountOpen(RequirementsOf(e))
            && e.transaction.phase
               == (if e.outstanding == 0 then AnsweredPhase(RequirementsOf(e)) else RequirementsDerived)
            && !e.transaction.phase.AwaitingRequirement?
  {
    SolicitedRunAccounted(cfg, inputs, n, id);
    hide Run, CountOpen;
    AnsweredIsSettled(RequirementsOf(View(After(cfg, inputs, n), id)));
  }

  lemma AnsweredIsSettled(requirements: seq<Prepared>)
    ensures SettledPhase(AnsweredPhase(requirements)) && !AnsweredPhase(requirements).AwaitingRequirement?
  {
  }

  lemma {:induction false} SolicitedRunAccounted(cfg: Config, inputs: seq<Input>, n: nat, id: nat)
    requires n <= |inputs|
    requires forall k :: 0 <= k < n ==> Solicited(After(cfg, inputs, k), inputs[k])
    ensures var c := After(cfg, inputs, n);
            id in c.transactions ==> Filed(c, id) && Accounted(View(c, id))
  {
    hide Accounted, Solicited, Step, Inv;
    if n > 0 {
      SolicitedRunAccounted(cfg, inputs, n - 1, id);
      AfterStep(cfg, inputs, n - 1);
      AfterKeepsInv(cfg, inputs, n - 1);
      StepAccounted(cfg, After(cfg, inputs, n - 1), inputs[n - 1], id);
    }
  }

  // ---- When a transaction is stranded ----

  /** Nothing blocks judgment and nothing is lost, but execution still misses a
      report. */
  ghost predicate OnlyExecutionOpen(requirements: seq<Prepared>)
  {
    && !AnyInFlight(requirements) && !AnyBlockingFailed(requirements)
    && forall p :: p in requirements && Open(p) ==> p.identity.boundary.BeforeExecution?
  }

  lemma OpenExists(requirements: seq<Prepared>)
    requires CountOpen(requirements) > 0
    ensures exists p :: p in requirements && Open(p)
  {
    CountOpenZero(requirements);
  }

  lemma SettlesToAwaiting(e: Entry)
    requires Consistent(e) && e.transaction.phase.RequirementsDerived? && CountOpen(RequirementsOf(e)) > 0
    ensures Settled(e).transaction.phase.AwaitingRequirement? <==> OnlyExecutionOpen(RequirementsOf(e))
  {
    hide CountOpen, AllSound, Distinct;
    var requirements := RequirementsOf(e);
    OpenExists(requirements);
    assert forall p :: p in requirements && p.identity.blocking && !p.status.Satisfied? && !p.status.Failed? ==> Open(p);
  }

  /** The report answers a requirement that is still open. */
  ghost predicate AnswersOpen(e: Entry, m: Message)
    requires !m.Proposal?
  {
    match Locate(RequirementsOf(e), m.requirement)
    case None => false
    case Some(i) => Open(RequirementsOf(e)[i])
  }

  /** Known before the report: it is the last one counted, only execution
      requirements are open and nothing settles the verdict, and the report
      either answers none of them or satisfies one while another stays open. */
  ghost predicate Strands(cfg: Config, e: Entry, m: Message, now: nat)
    requires !m.Proposal?
  {
    && CountsDown(e, m) && e.outstanding == 1
    && OnlyExecutionOpen(RequirementsOf(e))
    && (AnswersOpen(e, m) ==>
          CountOpen(RequirementsOf(e)) > 1 && Answer(cfg, e.transaction.correlation.generation, m, now).Satisfied?)
  }

  lemma UpdateMembers(requirements: seq<Prepared>, i: nat, p: Prepared)
    requires i < |requirements|
    ensures p in requirements[i := p]
    ensures forall q :: q in requirements[i := p] ==> q == p || q in requirements
    ensures forall q :: q in requirements && q != requirements[i] ==> q in requirements[i := p]
  {
    var after := requirements[i := p];
    assert after[i] == p;
    forall q | q in requirements && q != requirements[i] ensures q in after {
      var j :| 0 <= j < |requirements| && requirements[j] == q;
      assert after[j] == q;
    }
  }

  /** What answering the pending requirement at i makes of the openness. */
  lemma AnswerLeavesOpen(requirements: seq<Prepared>, i: nat, p: Prepared)
    requires i < |requirements| && requirements[i].status.Pending?
    requires p.identity == requirements[i].identity && !p.status.Pending? && !ByActivation(p)
    ensures OnlyExecutionOpen(requirements[i := p]) <==>
            OnlyExecutionOpen(requirements) && (requirements[i].identity.blocking ==> p.status.Satisfied?)
  {
    hide ByActivation;
    var after, was := requirements[i := p], requirements[i];
    UpdateMembers(requirements, i, p);
    assert was in requirements;
    if !was.identity.blocking {
      assert forall q: Prepared :: q.identity.blocking ==> (q in after <==> q in requirements);
    }
    if was.identity.blocking && p.status.Failed? {
      assert AnyBlockingFailed(after);
    }
    if was.identity.blocking && p.status.Satisfied? && was.identity.boundary.BeforeJudgment? {
      assert InFlight(p) && AnyInFlight(after) && Open(was);
    }
  }

  lemma UnlocatedStrands(cfg: Config, e: Entry, m: Message, now: nat)
    requires WellKept(e) && !m.Proposal? && Locate(RequirementsOf(e), m.requirement).None?
    ensures Reported(cfg, e, m, now).transaction.phase.AwaitingRequirement? <==>
            e.transaction.phase.AwaitingRequirement? || Strands(cfg, e, m, now)
  {
    hide CountOpen, Answer, Distinct, AllSound, AnyInFlight, OnlyExecutionOpen, Settled;
    if m.ResolutionFailure? && e.outstanding == 1 {
      SettlesToAwaiting(e.(outstanding := 0));
      assert Reported(cfg, e, m, now) == Settled(e.(outstanding := 0));
    }
  }

  /** The entry with the answer recorded, before its phase is settled. */
  lemma AnsweredSettles(e: Entry)
    requires Consistent(e) && e.transaction.phase.RequirementsDerived?
    ensures Settled(e).transaction.phase.AwaitingRequirement? <==>
            CountOpen(RequirementsOf(e)) > 0 && OnlyExecutionOpen(RequirementsOf(e))
  {
    hide Settled, AnsweredPhase, CountOpen, OnlyExecutionOpen, Consistent;
    if CountOpen(RequirementsOf(e)) > 0 {
      SettlesToAwaiting(e);
    } else {
      SettlesToAnswered(e);
      AnsweredIsSettled(RequirementsOf(e));
    }
  }

  lemma LocatedStrands(cfg: Config, e: Entry, m: Message, now: nat, i: nat)
    requires WellKept(e) && !m.Proposal? && Locate(RequirementsOf(e), m.requirement) == Some(i)
    ensures Reported(cfg, e, m, now).transaction.phase.AwaitingRequirement? <==>
            e.transaction.phase.AwaitingRequirement? || Strands(cfg, e, m, now)
  {
    hide CountOpen, Answer, Recorded, Distinct, AllSound, AnyInFlight, OnlyExecutionOpen, Settled;
    if RequirementsOf(e)[i].status.Pending? {
      var e' := Recorded(cfg, e, m, now, i);
      RecordedEffect(cfg, e, m, now, i);
      if e.outstanding == 1 {
        RecordedConsistent(cfg, e, m, now, i);
        AnsweredSettles(e'.(outstanding := 0));
        AnswerLeavesOpen(RequirementsOf(e), i, RequirementsOf(e')[i]);
      }
    }
  }

  /** For every entry a run can hold: a report leaves the transaction awaiting if
      and only if it already was, or the report strands it. */
  lemma AwaitsOnlyStranded(cfg: Config, e: Entry, m: Message, now: nat)
    requires WellKept(e) && !m.Proposal?
    ensures Reported(cfg, e, m, now).transaction.phase.AwaitingRequirement? <==>
            e.transaction.phase.AwaitingRequirement? || Strands(cfg, e, m, now)
  {
    hide WellKept, Strands, Reported;
    match Locate(RequirementsOf(e), m.requirement)
    case None => UnlocatedStrands(cfg, e, m, now);
    case Some(i) => LocatedStrands(cfg, e, m, now, i);
  }

  /** Where the count is still exact, only a stray strands. */
  lemma AwaitsExactly(cfg: Config, e: Entry, m: Message, now: nat)
    requires Accounted(e) && !m.Proposal?
    ensures Reported(cfg, e, m, now).transaction.phase.AwaitingRequirement? <==>
            Stray(e, m) && e.outstanding == 1 && OnlyExecutionOpen(RequirementsOf(e))
  {
    AnsweredIsSettled(RequirementsOf(e));
    hide Reported, OnlyExecutionOpen, CountOpen, AnsweredPhase, Consistent;
    AwaitsOnlyStranded(cfg, e, m, now);
  }

  // ---- Stranding over whole runs ----

  /** The k-th message strands the transaction. */
  ghost predicate StrandsAt(cfg: Config, inputs: seq<Input>, id: nat, k: nat)
  {
    && k < |inputs| && !inputs[k].message.Proposal? && inputs[k].message.transaction == id
    && Filed(After(cfg, inputs, k), id)
    && Strands(cfg, View(After(cfg, inputs, k), id), inputs[k].message, inputs[k].now)
  }

  ghost predicate Awaits(c: Core, id: nat)
  {
    id in c.transactions && c.transactions[id].phase.AwaitingRequirement?
  }

  /** A proposal never leaves its own transaction awaiting. */
  lemma OpenedDoesNotAwait(cfg: Config, id: nat, input: Input, spent: set<nat>)
    requires input.message.Proposal?
    ensures !Opened(cfg, id, input, spent).0.transaction.phase.AwaitingRequirement?
  {
    var e := Opened(cfg, id, input, spent).0;
    OpenedAccounted(cfg, id, input, spent);
    AnsweredIsSettled(RequirementsOf(e));
    hide Opened, CountOpen, AnsweredPhase, Consistent;
  }

  lemma StepAwaits(cfg: Config, c: Core, input: Input, id: nat)
    requires Inv(c)
    ensures var m := input.message;
            Awaits(Step(cfg, c, input), id) <==>
              || Awaits(c, id)
              || (!m.Proposal? && m.transaction == id && Filed(c, id) && Strands(cfg, View(c, id), m, input.now))
  {
    hide Step, Opened, Reported, Strands, WellKept, Put;
    var m, c' := input.message, Step(cfg, c, input);
    if id in c.transactions {
      StepIsLocal(cfg, c, input, id);
      if !m.Proposal? && m.transaction == id {
        AwaitsOnlyStranded(cfg, View(c, id), m, input.now);
      }
    } else if id in c'.transactions {
      NewlyFiled(cfg, c, input, id);
      FiledView(cfg, c, input);
      OpenedDoesNotAwait(cfg, id, input, c.spent);
    }
  }

  /** After any n messages of any run, stray or solicited, a transaction awaits if
      and only if one of them stranded it. */
  lemma {:induction false} StrandedExactly(cfg: Config, inputs: seq<Input>, n: nat, id: nat)
    requires n <= |inputs|
    ensures Awaits(After(cfg, inputs, n), id) <==> exists k: nat :: k < n && StrandsAt(cfg, inputs, id, k)
  {
    hide Step, Run, Strands, Inv;
    if n == 0 {
      StartsUnawaited(cfg, inputs, id);
    } else {
      StrandedExactly(cfg, inputs, n - 1, id);
      AfterStep(cfg, inputs, n - 1);
      AfterKeepsInv(cfg, inputs, n - 1);
      StepAwaits(cfg, After(cfg, inputs, n - 1), inputs[n - 1], id);
      assert StrandsAt(cfg, inputs, id, n - 1) ==> exists k: nat :: k < n && StrandsAt(cfg, inputs, id, k);
    }
  }

  lemma StartsUnawaited(cfg: Config, inputs: seq<Input>, id: nat)
    ensures !Awaits(After(cfg, inputs, 0), id)
  {
  }

  /** Stranding is final and happens at most once; and it takes a stray, this
      message or an earlier one. */
  lemma StrandedOnceAfterStray(cfg: Config, inputs: seq<Input>, id: nat, k: nat)
    requires StrandsAt(cfg, inputs, id, k)
    ensures forall n :: k < n <= |inputs| ==> Awaits(After(cfg, inputs, n), id)
    ensures forall j: nat :: j != k ==> !StrandsAt(cfg, inputs, id, j)
    ensures exists j :: 0 <= j <= k && !Solicited(After(cfg, inputs, j), inputs[j])
  {
    hide Step, Run, Strands, Inv, Solicited, After;
    forall n | k < n <= |inputs| ensures Awaits(After(cfg, inputs, n), id) {
      StrandedExactly(cfg, inputs, n, id);
    }
    forall j: nat | j != k ensures !StrandsAt(cfg, inputs, id, j) {
      if StrandsAt(cfg, inputs, id, j) {
        var first, second := if j < k then j else k, if j < k then k else j;
        StrandedExactly(cfg, inputs, second, id);
        AfterKeepsInv(cfg, inputs, second);
        StrandsUndecided(cfg, After(cfg, inputs, second), id, inputs[second]);
      }
    }
    if forall j :: 0 <= j <= k ==> Solicited(After(cfg, inputs, j), inputs[j]) {
      AwaitingIsFiled(cfg, inputs, k + 1, id);
      SolicitedRun(cfg, inputs, k + 1, id);
    }
  }

  lemma AwaitingIsFiled(cfg: Config, inputs: seq<Input>, n: nat, id: nat)
    requires n <= |inputs| && id in After(cfg, inputs, n).transactions
    ensures Filed(After(cfg, inputs, n), id)
    ensures View(After(cfg, inputs, n), id).transaction == After(cfg, inputs, n).transactions[id]
  {
    AfterKeepsInv(cfg, inputs, n);
  }

  /** Only an undecided transaction can be stranded. */
  lemma StrandsUndecided(cfg: Config, c: Core, id: nat, input: Input)
    requires Inv(c) && !input.message.Proposal? && Filed(c, id)
    requires Strands(cfg, View(c, id), input.message, input.now)
    ensures !Awaits(c, id)
  {
  }

  // ---- Schedule independence ----

  /** A report for this transaction answers a requirement dispatched for it,
      the way `satisfied` says. Identical duplicates are allowed. */
  ghost predicate AnswersAs(cfg: Config, id: nat, e: Entry, input: Input, satisfied: Identity -> bool)
  {
    var m := input.message;
    !m.Proposal? && m.transaction == id ==>
      && (exists i :: 0 <= i < |RequirementsOf(e)| && Open(RequirementsOf(e)[i])
            && RequirementsOf(e)[i].identity == m.requirement)
      && (Answer(cfg, e.transaction.correlation.generation, m, input.now).Satisfied? <==> satisfied(m.requirement))
  }

  /** The requirements reported for a transaction. */
  ghost function Heard(id: nat, inputs: seq<Input>): set<Identity>
  {
    set k | 0 <= k < |inputs| && !inputs[k].message.Proposal? && inputs[k].message.transaction == id
      :: inputs[k].message.requirement
  }

  ghost predicate Tracked(p: Prepared, p': Prepared, heard: set<Identity>, satisfied: Identity -> bool)
  {
    && p'.identity == p.identity
    && if Open(p) && p.identity in heard
       then !ByActivation(p') && p'.status == if satisfied(p.identity) then Satisfied else Failed
       else p' == p
  }

  ghost predicate Tracks(e: Entry, e': Entry, heard: set<Identity>, satisfied: Identity -> bool)
  {
    && |RequirementsOf(e')| == |RequirementsOf(e)|
    && e'.transaction.correlation == e.transaction.correlation
    && forall i :: 0 <= i < |RequirementsOf(e)| ==>
         Tracked(RequirementsOf(e)[i], RequirementsOf(e')[i], heard, satisfied)
  }

  /** Dispatched identities are distinct, so a report finds its requirement. */
  lemma LocateTracked(e: Entry, e': Entry, heard: set<Identity>, satisfied: Identity -> bool, i: nat)
    requires Distinct(RequirementsOf(e)) && Tracks(e, e', heard, satisfied) && i < |RequirementsOf(e)|
    ensures Locate(RequirementsOf(e'), RequirementsOf(e)[i].identity) == Some(i)
  {
    var found := Locate(RequirementsOf(e'), RequirementsOf(e)[i].identity);
    assert RequirementsOf(e')[i].identity == RequirementsOf(e)[i].identity;
    assert found.Some? ==> RequirementsOf(e')[found.value].identity == RequirementsOf(e)[found.value].identity;
  }

  /** What a located report leaves of the requirements. */
  lemma ReportedRequirements(cfg: Config, e: Entry, m: Message, now: nat, i: nat)
    requires Consistent(e) && !m.Proposal? && Locate(RequirementsOf(e), m.requirement) == Some(i)
    ensures var e' := Reported(cfg, e, m, now);
            && |RequirementsOf(e')| == |RequirementsOf(e)|
            && RequirementsOf(e') == RequirementsOf(e)[i := RequirementsOf(e')[i]]
            && (if RequirementsOf(e)[i].status.Pending? then
                  && RequirementsOf(e')[i].identity == m.requirement
                  && !ByActivation(RequirementsOf(e')[i])
                  && RequirementsOf(e')[i].status == Answer(cfg, e.transaction.correlation.generation, m, now)
                else RequirementsOf(e')[i] == RequirementsOf(e)[i])
  {
    hide Recorded, Verdict, Answer, Distinct, AllSound, AnyInFlight, AllBlockingSatisfied;
    if RequirementsOf(e)[i].status.Pending? {
      RecordedEffect(cfg, e, m, now, i);
    }
  }

  lemma TrackStep(cfg: Config, e: Entry, e': Entry, heard: set<Identity>, satisfied: Identity -> bool,
                  m: Message, now: nat, i: nat)
    requires Accounted(e') && Distinct(RequirementsOf(e)) && Tracks(e, e', heard, satisfied)
    requires !m.Proposal? && i < |RequirementsOf(e)|
    requires Open(RequirementsOf(e)[i]) && RequirementsOf(e)[i].identity == m.requirement
    requires Answer(cfg, e.transaction.correlation.generation, m, now).Satisfied? <==> satisfied(m.requirement)
    ensures var e'' := Reported(cfg, e', m, now);
            Accounted(e'') && Tracks(e, e'', heard + {m.requirement}, satisfied)
  {
    LocateTracked(e, e', heard, satisfied, i);
    assert Tracked(RequirementsOf(e)[i], RequirementsOf(e')[i], heard, satisfied);
    ReportedAccounted(cfg, e', m, now);
    ReportedMeta(cfg, e', m, now);
    ReportedRequirements(cfg, e', m, now, i);
    AnswerDecides(cfg, e.transaction.correlation.generation, m, now);
    hide Accounted, Reported, Answer, ByActivation, Locate;
    var e'' := Reported(cfg, e', m, now);
    forall j | 0 <= j < |RequirementsOf(e)|
      ensures Tracked(RequirementsOf(e)[j], RequirementsOf(e'')[j], heard + {m.requirement}, satisfied)
    {
      assert Tracked(RequirementsOf(e)[j], RequirementsOf(e')[j], heard, satisfied);
      assert j != i ==> RequirementsOf(e)[j].identity != m.requirement;
    }
  }

  lemma AnswerDecides(cfg: Config, generation: nat, m: Message, now: nat)
    requires !m.Proposal?
    ensures !Answer(cfg, generation, m, now).Pending?
  {
  }

  lemma {:induction false} EntryRunTracks(cfg: Config, id: nat, e: Entry, inputs: seq<Input>,
                                         satisfied: Identity -> bool)
    requires Accounted(e)
    requires forall k :: 0 <= k < |inputs| ==> AnswersAs(cfg, id, e, inputs[k], satisfied)
    ensures var e' := EntryRun(cfg, id, e, inputs);
            Accounted(e') && Tracks(e, e', Heard(id, inputs), satisfied)
  {
    hide Answer, CountOpen, AllSound, AnyInFlight, AllBlockingSatisfied, AnsweredPhase, Reported;
    if inputs != [] {
      var before, last := inputs[..|inputs| - 1], inputs[|inputs| - 1];
      EntryRunTracks(cfg, id, e, before, satisfied);
      HeardGrows(id, inputs);
      if !last.message.Proposal? && last.message.transaction == id {
        assert AnswersAs(cfg, id, e, last, satisfied);
        var i :| 0 <= i < |RequirementsOf(e)| && Open(RequirementsOf(e)[i])
          && RequirementsOf(e)[i].identity == last.message.requirement;
        TrackStep(cfg, e, EntryRun(cfg, id, e, before), Heard(id, before), satisfied, last.message, last.now, i);
      }
    }
  }

  lemma HeardGrows(id: nat, inputs: seq<Input>)
    requires inputs != []
    ensures var before, m := Heard(id, inputs[..|inputs| - 1]), inputs[|inputs| - 1].message;
            Heard(id, inputs) == if !m.Proposal? && m.transaction == id then before + {m.requirement} else before
  {
    var before := inputs[..|inputs| - 1];
    assert forall k :: 0 <= k < |before| ==> before[k] == inputs[k];
  }

  ghost predicate AllHeard(e: Entry, heard: set<Identity>)
  {
    forall i :: 0 <= i < |RequirementsOf(e)| && Open(RequirementsOf(e)[i]) ==> RequirementsOf(e)[i].identity in heard
  }

  /** The verdict as a function of the proposal and of how its dispatched
      requirements are answered, with no schedule in it. */
  ghost function Outcome(requirements: seq<Prepared>, satisfied: Identity -> bool): Phase
  {
    if exists p :: p in requirements && Open(p) && GatesJudgment(p) && satisfied(p.identity) then
      ReDeliberationRequired
    else if exists p :: p in requirements && p.identity.blocking
                        && (p.status.Failed? || (Open(p) && !satisfied(p.identity))) then Denied
    else CognitiveAllowed
  }

  lemma TracksInFlight(e: Entry, e': Entry, heard: set<Identity>, satisfied: Identity -> bool)
    requires Tracks(e, e', heard, satisfied) && AllHeard(e, heard) && !AnyInFlight(RequirementsOf(e))
    ensures AnyInFlight(RequirementsOf(e')) <==>
            exists p :: p in RequirementsOf(e) && Open(p) && GatesJudgment(p) && satisfied(p.identity)
  {
    var requirements, after := RequirementsOf(e), RequirementsOf(e');
    if AnyInFlight(after) {
      var p :| p in after && InFlight(p);
      var i :| 0 <= i < |after| && after[i] == p;
      assert requirements[i] in requirements;
      assert Tracked(requirements[i], after[i], heard, satisfied);
    }
    if p :| p in requirements && Open(p) && GatesJudgment(p) && satisfied(p.identity) {
      var i :| 0 <= i < |requirements| && requirements[i] == p;
      assert Tracked(requirements[i], after[i], heard, satisfied);
      assert after[i] in after;
    }
  }

  lemma TracksFailed(e: Entry, e': Entry, heard: set<Identity>, satisfied: Identity -> bool)
    requires Tracks(e, e', heard, satisfied) && AllHeard(e, heard)
    ensures AnyBlockingFailed(RequirementsOf(e')) <==>
            exists p :: p in RequirementsOf(e) && p.identity.blocking
                        && (p.status.Failed? || (Open(p) && !satisfied(p.identity)))
  {
    var requirements, after := RequirementsOf(e), RequirementsOf(e');
    if AnyBlockingFailed(after) {
      var p :| p in after && p.identity.blocking && p.status.Failed?;
      var i :| 0 <= i < |after| && after[i] == p;
      assert requirements[i] in requirements;
      assert Tracked(requirements[i], after[i], heard, satisfied);
    }
    if p :| p in requirements && p.identity.blocking && (p.status.Failed? || (Open(p) && !satisfied(p.identity))) {
      var i :| 0 <= i < |requirements| && requirements[i] == p;
      assert Tracked(requirements[i], after[i], heard, satisfied);
      assert after[i] in after;
    }
  }

  lemma TracksOutcome(e: Entry, e': Entry, heard: set<Identity>, satisfied: Identity -> bool)
    requires Tracks(e, e', heard, satisfied) && AllHeard(e, heard) && !AnyInFlight(RequirementsOf(e))
    ensures AnsweredPhase(RequirementsOf(e')) == Outcome(RequirementsOf(e), satisfied)
  {
    TracksInFlight(e, e', heard, satisfied);
    TracksFailed(e, e', heard, satisfied);
    hide AnyInFlight, AnyBlockingFailed, Tracks, AllHeard;
  }

  lemma TracksOpen(e: Entry, e': Entry, heard: set<Identity>, satisfied: Identity -> bool)
    requires Tracks(e, e', heard, satisfied)
    ensures CountOpen(RequirementsOf(e')) == 0 <==> AllHeard(e, heard)
  {
    CountOpenZero(RequirementsOf(e'));
    var requirements, after := RequirementsOf(e), RequirementsOf(e');
    assert forall i :: 0 <= i < |requirements| ==> Tracked(requirements[i], after[i], heard, satisfied);
    assert forall i :: 0 <= i < |requirements| ==>
      (Open(after[i]) <==> Open(requirements[i]) && requirements[i].identity !in heard);
  }

  /** Whatever order the reports of a proposal are drained in, however they
      interleave with other proposals and with reports of other transactions,
      and however often identical reports repeat: the transaction stays
      undecided until the last dispatched requirement is heard, and then has
      the outcome fixed by its proposal and its answers. */
  lemma ScheduleIndependence(cfg: Config, c: Core, proposal: Input, inputs: seq<Input>, satisfied: Identity -> bool)
    requires Inv(c) && proposal.message.Proposal? && proposal.message.key !in c.byCorrelation
    requires var e := Opened(cfg, c.nextId, proposal, c.spent).0;
             forall k :: 0 <= k < |inputs| ==> AnswersAs(cfg, c.nextId, e, inputs[k], satisfied)
    ensures var id, e := c.nextId, Opened(cfg, c.nextId, proposal, c.spent).0;
            var final := Run(cfg, Step(cfg, c, proposal), inputs);
            && id in final.transactions
            && final.transactions[id].phase ==
               if AllHeard(e, Heard(id, inputs)) then Outcome(RequirementsOf(e), satisfied) else RequirementsDerived
  {
    var id, e := c.nextId, Opened(cfg, c.nextId, proposal, c.spent).0;
    StepKeepsInv(cfg, c, proposal);
    FiledView(cfg, c, proposal);
    OpenedAccounted(cfg, id, proposal, c.spent);
    OpenedKept(cfg, id, proposal, c.spent);
    RunIsLocal(cfg, Step(cfg, c, proposal), inputs, id);
    EntryRunTracks(cfg, id, e, inputs, satisfied);
    hide Run, Step, Opened, EntryRun, AllHeard, Outcome, Tracks, AnswersAs, CountOpen, AnsweredPhase;
    var e' := EntryRun(cfg, id, e, inputs);
    TracksOpen(e, e', Heard(id, inputs), satisfied);
    if AllHeard(e, Heard(id, inputs)) {
      TracksOutcome(e, e', Heard(id, inputs), satisfied);
    }
  }

  /** A receipt that claims no expiry is answered the same at every time, so
      its answer cannot depend on when it is drained. */
  lemma AnswerIsTimeless(cfg: Config, generation: nat, m: Message, now: nat, later: nat)
    requires !m.Proposal? && (m.EvidenceDelivery? ==> m.receipt.expiresAt == 0)
    ensures Answer(cfg, generation, m, now) == Answer(cfg, generation, m, later)
  {
  }

  /** Every report for the transaction is the one its resolver made for a
      dispatched requirement, and none expires. */
  ghost predicate ReportsOf(id: nat, e: Entry, inputs: seq<Input>, report: Identity -> Message)
  {
    forall k :: 0 <= k < |inputs| && !inputs[k].message.Proposal? && inputs[k].message.transaction == id ==>
      var m := inputs[k].message;
      && m == report(m.requirement)
      && (m.EvidenceDelivery? ==> m.receipt.expiresAt == 0)
      && exists i :: 0 <= i < |RequirementsOf(e)| && Open(RequirementsOf(e)[i])
                     && RequirementsOf(e)[i].identity == m.requirement
  }

  ghost predicate Satisfies(cfg: Config, generation: nat, m: Message)
  {
    !m.Proposal? && Answer(cfg, generation, m, 0).Satisfied?
  }

  /** Two drains of the same reports, in any orders, at any times, among any
      other traffic, give the proposal the same phase: for receipts without
      expiry the verdict is a function of the reports alone. */
  lemma VerdictIgnoresTimeAndOrder(cfg: Config, c: Core, proposal: Input, a: seq<Input>, b: seq<Input>,
                                   report: Identity -> Message)
    requires Inv(c) && proposal.message.Proposal? && proposal.message.key !in c.byCorrelation
    requires ReportsOf(c.nextId, Opened(cfg, c.nextId, proposal, c.spent).0, a, report)
    requires ReportsOf(c.nextId, Opened(cfg, c.nextId, proposal, c.spent).0, b, report)
    requires Heard(c.nextId, a) == Heard(c.nextId, b)
    ensures var x, y := Run(cfg, Step(cfg, c, proposal), a), Run(cfg, Step(cfg, c, proposal), b);
            && c.nextId in x.transactions && c.nextId in y.transactions
            && x.transactions[c.nextId].phase == y.transactions[c.nextId].phase
  {
    hide Inv, Opened, Run, Step, Outcome, AllHeard, Heard;
    var e := Opened(cfg, c.nextId, proposal, c.spent).0;
    var satisfied := (i: Identity) => Satisfies(cfg, e.transaction.correlation.generation, report(i));
    ReportsAnswer(cfg, c.nextId, e, a, report, satisfied);
    ReportsAnswer(cfg, c.nextId, e, b, report, satisfied);
    ScheduleIndependence(cfg, c, proposal, a, satisfied);
    ScheduleIndependence(cfg, c, proposal, b, satisfied);
  }

  lemma ReportsAnswer(cfg: Config, id: nat, e: Entry, inputs: seq<Input>, report: Identity -> Message,
                      satisfied: Identity -> bool)
    requires ReportsOf(id, e, inputs, report)
    requires forall i :: satisfied(i) == Satisfies(cfg, e.transaction.correlation.generation, report(i))
    ensures forall k :: 0 <= k < |inputs| ==> AnswersAs(cfg, id, e, inputs[k], satisfied)
  {
    hide Answer;
    forall k | 0 <= k < |inputs| ensures AnswersAs(cfg, id, e, inputs[k], satisfied) {
      var m := inputs[k].message;
      if !m.Proposal? && m.transaction == id {
        AnswerIsTimeless(cfg, e.transaction.correlation.generation, m, inputs[k].now, 0);
      }
    }
  }
}
