/** Safety of the control core over whole runs: transactions are independent,
    statuses settle once, allow is safe, and each transaction is evaluated at
    most once. */
module ControlTheorems {
  import opened Values
  import opened Transactions
  import opened ControlState
  import opened ControlInvariants

  // ---- Following one transaction through a run ----

  ghost function EntryRun(cfg: Config, id: nat, e: Entry, inputs: seq<Input>): Entry
  {
    if inputs == [] then e
    else EntryStep(cfg, id, EntryRun(cfg, id, e, inputs[..|inputs| - 1]), inputs[|inputs| - 1])
  }

  /** Transactions do not interfere: in any interleaving, a transaction ends as
      if only the reports that name it had been drained. */
  lemma {:induction false} RunIsLocal(cfg: Config, c: Core, inputs: seq<Input>, id: nat)
    requires Inv(c) && id in c.transactions
    ensures var c' := Run(cfg, c, inputs);
            Filed(c', id) && View(c', id) == EntryRun(cfg, id, View(c, id), inputs)
  {
    if inputs != [] {
      var before := inputs[..|inputs| - 1];
      RunIsLocal(cfg, c, before, id);
      RunKeepsInv(cfg, c, before);
      StepIsLocal(cfg, Run(cfg, c, before), inputs[|inputs| - 1], id);
    }
  }

  lemma {:induction false} RunConcat(cfg: Config, c: Core, a: seq<Input>, b: seq<Input>)
    ensures Run(cfg, c, a + b) == Run(cfg, Run(cfg, c, a), b)
  {
    if b == [] {
      assert a + b == a;
    } else {
      var last := |b| - 1;
      RunConcat(cfg, c, a, b[..last]);
      assert (a + b)[..|a + b| - 1] == a + b[..last];
    }
  }

  /** What can happen to a transaction after it was filed: a requirement leaves
      Pending once and keeps its evidence, none is activated late, a settled
      phase is final, and the count only falls. */
  ghost predicate Evolves(e: Entry, e': Entry)
  {
    var old', new' := RequirementsOf(e), RequirementsOf(e');
    && |new'| == |old'|
    && (forall i :: 0 <= i < |old'| ==>
          && new'[i].identity == old'[i].identity
          && (!old'[i].status.Pending? ==> new'[i] == old'[i])
          && (ByActivation(new'[i]) ==> new'[i] == old'[i]))
    && (SettledPhase(e.transaction.phase) ==> e'.transaction.phase == e.transaction.phase)
    && e'.outstanding <= e.outstanding
  }

  lemma ReportedEvolves(cfg: Config, e: Entry, m: Message, now: nat)
    requires WellKept(e) && !m.Proposal?
    ensures Evolves(e, Reported(cfg, e, m, now))
  {
    hide Distinct, AllSound, AnyInFlight, AllBlockingSatisfied, CountOpen, Answer, Recorded, Verdict;
    var found := Locate(RequirementsOf(e), m.requirement);
    if found.Some? && RequirementsOf(e)[found.value].status.Pending? {
      RecordedEffect(cfg, e, m, now, found.value);
    }
  }

  lemma {:induction false} EntryRunEvolves(cfg: Config, id: nat, e: Entry, inputs: seq<Input>)
    requires WellKept(e)
    ensures WellKept(EntryRun(cfg, id, e, inputs)) && Evolves(e, EntryRun(cfg, id, e, inputs))
  {
    hide Consistent, Reported;
    if inputs != [] {
      var before, last := inputs[..|inputs| - 1], inputs[|inputs| - 1];
      EntryRunEvolves(cfg, id, e, before);
      var e' := EntryRun(cfg, id, e, before);
      if !last.message.Proposal? && last.message.transaction == id {
        ReportedKept(cfg, e', last.message, last.now);
        ReportedEvolves(cfg, e', last.message, last.now);
      }
    }
  }

  // ---- Allow safety ----

  /** The state a whole run reaches after its first k inputs. */
  ghost function After(cfg: Config, inputs: seq<Input>, k: nat): Core
    requires k <= |inputs|
  {
    Run(cfg, INITIAL, inputs[..k])
  }

  lemma AfterKeepsInv(cfg: Config, inputs: seq<Input>, k: nat)
    requires k <= |inputs|
    ensures Inv(After(cfg, inputs, k))
  {
    RunKeepsInv(cfg, INITIAL, inputs[..k]);
  }

  lemma KeysAgree(c: Core)
    requires Inv(c)
    ensures forall id :: id in c.transactions ==> Filed(c, id)
  {
  }

  ghost predicate FiledAt(cfg: Config, inputs: seq<Input>, id: nat, k: nat)
  {
    k < |inputs| && id !in After(cfg, inputs, k).transactions && id in After(cfg, inputs, k + 1).transactions
  }

  lemma {:induction false} SomeInputFiles(cfg: Config, inputs: seq<Input>, id: nat, n: nat)
    requires n <= |inputs| && id in After(cfg, inputs, n).transactions
    ensures exists k :: 0 <= k < n && FiledAt(cfg, inputs, id, k)
  {
    assert n > 0;
    if id in After(cfg, inputs, n - 1).transactions {
      SomeInputFiles(cfg, inputs, id, n - 1);
    } else {
      assert FiledAt(cfg, inputs, id, n - 1);
    }
  }

  /** From one point of a run to a later one, a filed transaction evolves. */
  lemma LaterEvolves(cfg: Config, inputs: seq<Input>, j: nat, k: nat, id: nat)
    requires j <= k <= |inputs| && id in After(cfg, inputs, j).transactions
    ensures var c, c' := After(cfg, inputs, j), After(cfg, inputs, k);
            && Filed(c, id) && Filed(c', id)
            && WellKept(View(c, id)) && WellKept(View(c', id))
            && Evolves(View(c, id), View(c', id))
  {
    hide Run, EntryRun, Consistent, Evolves, Tables, CountOpen;
    var c := After(cfg, inputs, j);
    AfterKeepsInv(cfg, inputs, j);
    assert id in c.outstanding by { KeysAgree(c); }
    RunConcat(cfg, INITIAL, inputs[..j], inputs[j..k]);
    assert inputs[..j] + inputs[j..k] == inputs[..k];
    RunIsLocal(cfg, c, inputs[j..k], id);
    EntryRunEvolves(cfg, id, View(c, id), inputs[j..k]);
  }

  /** In every state any run reaches, a transaction that reads Allow has every
      blocking requirement satisfied, and each one gating the judgment was
      already satisfied, by an activation, when its proposal was filed. */
  lemma AllowSafety(cfg: Config, inputs: seq<Input>, id: nat)
    requires id in Run(cfg, INITIAL, inputs).transactions
    requires DispositionOf(Run(cfg, INITIAL, inputs).transactions[id]).Allow?
    ensures var final := Run(cfg, INITIAL, inputs).transactions[id].packet.requirements;
            && AllBlockingSatisfied(final)
            && exists k :: 0 <= k < |inputs| && FiledAt(cfg, inputs, id, k)
                 && var filed := After(cfg, inputs, k + 1).transactions[id].packet.requirements;
                    |filed| == |final|
                    && forall i :: 0 <= i < |final| && GatesJudgment(final[i]) ==>
                         filed[i] == final[i] && ByActivation(filed[i])
  {
    hide Run, Tables;
    var n := |inputs|;
    assert inputs[..n] == inputs;
    SomeInputFiles(cfg, inputs, id, n);
    var k :| 0 <= k < n && FiledAt(cfg, inputs, id, k);
    LaterEvolves(cfg, inputs, k + 1, n, id);
    var final := After(cfg, inputs, n).transactions[id].packet.requirements;
    forall i | 0 <= i < |final| && GatesJudgment(final[i]) ensures ByActivation(final[i]) {
      assert final[i] in final && !InFlight(final[i]);
    }
  }

  // ---- One evaluation ----

  /** The report brings the count down: it answers a pending requirement, or is a
      failure for one the packet does not hold. */
  ghost predicate CountsDown(e: Entry, m: Message)
    requires !m.Proposal?
  {
    match Locate(RequirementsOf(e), m.requirement)
    case None => m.ResolutionFailure?
    case Some(i) => RequirementsOf(e)[i].status.Pending?
  }

  /** Draining this input evaluates the gates of transaction `id`. */
  ghost predicate Evaluates(cfg: Config, c: Core, input: Input, id: nat)
  {
    var m := input.message;
    if m.Proposal? then
      m.key !in c.byCorrelation && id == c.nextId && Opened(cfg, id, input, c.spent).0.outstanding == 0
    else
      m.transaction == id && Filed(c, id) && CountsDown(View(c, id), m) && View(c, id).outstanding == 1
  }

  ghost predicate Decided(c: Core, id: nat)
  {
    id in c.transactions && SettledPhase(c.transactions[id].phase)
  }

  lemma ReportedDecides(cfg: Config, e: Entry, m: Message, now: nat)
    requires WellKept(e) && !m.Proposal?
    ensures SettledPhase(Reported(cfg, e, m, now).transaction.phase) <==>
            SettledPhase(e.transaction.phase) || (CountsDown(e, m) && e.outstanding == 1)
    ensures SettledPhase(e.transaction.phase) <==> e.outstanding == 0
  {
    ReportedKept(cfg, e, m, now);
    hide Consistent, Answer, Verdict, CountOpen;
  }

  /** A transaction is decided after a step exactly when it was decided before
      or this step evaluated it, and never both. */
  lemma StepEvaluates(cfg: Config, c: Core, input: Input, id: nat)
    requires Inv(c)
    ensures Decided(Step(cfg, c, input), id) <==> Decided(c, id) || Evaluates(cfg, c, input, id)
    ensures !(Decided(c, id) && Evaluates(cfg, c, input, id))
  {
    KeysAgree(c);
    NextIdIsFresh(c);
    hide Tables, Opened, Put, Reported, Step, WellKept, CountsDown, SettledPhase;
    var m := input.message;
    if id in c.transactions {
      StepIsLocal(cfg, c, input, id);
      if !m.Proposal? && m.transaction == id {
        ReportedDecides(cfg, View(c, id), m, input.now);
      }
    } else {
      NewlyFiled(cfg, c, input, id);
    }
  }

  lemma NextIdIsFresh(c: Core)
    requires Inv(c)
    ensures c.nextId !in c.transactions
  {
  }

  /** A transaction is filed by a new proposal only, undecided exactly when
      something was dispatched for it. */
  lemma NewlyFiled(cfg: Config, c: Core, input: Input, id: nat)
    requires Inv(c) && id !in c.transactions
    ensures var c', m := Step(cfg, c, input), input.message;
            && (id in c'.transactions <==> m.Proposal? && m.key !in c.byCorrelation && id == c.nextId)
            && (id in c'.transactions ==>
                  (SettledPhase(c'.transactions[id].phase) <==> Opened(cfg, id, input, c.spent).0.outstanding == 0))
  {
    StepTables(cfg, c, input);
    StepFiles(cfg, c, input);
    if input.message.Proposal? && input.message.key !in c.byCorrelation {
      CreateFiles(cfg, c, input);
      OpenedKept(cfg, c.nextId, input, c.spent);
    }
  }

  ghost predicate EvaluatedAt(cfg: Config, inputs: seq<Input>, id: nat, k: nat)
  {
    k < |inputs| && Evaluates(cfg, After(cfg, inputs, k), inputs[k], id)
  }

  lemma AfterStep(cfg: Config, inputs: seq<Input>, k: nat)
    requires k < |inputs|
    ensures After(cfg, inputs, k + 1) == Step(cfg, After(cfg, inputs, k), inputs[k])
  {
    assert inputs[..k + 1][..k] == inputs[..k];
  }

  lemma NothingDecidedYet(cfg: Config, inputs: seq<Input>, id: nat)
    ensures !Decided(After(cfg, inputs, 0), id)
  {
  }

  lemma {:induction false} DecidedByEvaluation(cfg: Config, inputs: seq<Input>, id: nat, n: nat)
    requires n <= |inputs|
    ensures Decided(After(cfg, inputs, n), id) <==> exists k :: 0 <= k < n && EvaluatedAt(cfg, inputs, id, k)
  {
    hide Evaluates, Step, Inv, Run, Decided;
    if n == 0 {
      NothingDecidedYet(cfg, inputs, id);
    } else {
      DecidedByEvaluation(cfg, inputs, id, n - 1);
      AfterStep(cfg, inputs, n - 1);
      AfterKeepsInv(cfg, inputs, n - 1);
      StepEvaluates(cfg, After(cfg, inputs, n - 1), inputs[n - 1], id);
      assert Evaluates(cfg, After(cfg, inputs, n - 1), inputs[n - 1], id) <==> EvaluatedAt(cfg, inputs, id, n - 1);
    }
  }

  /** Over any run each transaction is evaluated at most once, and it is
      decided exactly when it has been evaluated. */
  lemma EvaluatedOnce(cfg: Config, inputs: seq<Input>, id: nat)
    ensures forall j, k :: 0 <= j < k < |inputs| ==>
              !(EvaluatedAt(cfg, inputs, id, j) && EvaluatedAt(cfg, inputs, id, k))
    ensures Decided(Run(cfg, INITIAL, inputs), id) <==>
            exists k :: 0 <= k < |inputs| && EvaluatedAt(cfg, inputs, id, k)
  {
    hide Evaluates, Step, Inv, Run, Decided;
    assert inputs[..|inputs|] == inputs;
    DecidedByEvaluation(cfg, inputs, id, |inputs|);
    forall j, k | 0 <= j < k < |inputs|
      ensures !(EvaluatedAt(cfg, inputs, id, j) && EvaluatedAt(cfg, inputs, id, k))
    {
      if EvaluatedAt(cfg, inputs, id, j) {
        DecidedByEvaluation(cfg, inputs, id, k);
        AfterKeepsInv(cfg, inputs, k);
        StepEvaluates(cfg, After(cfg, inputs, k), inputs[k], id);
      }
    }
  }
}
