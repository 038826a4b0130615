/** The host-autonomous cognition refresh (src/host/runtime_host.cpp,
    src/host/generation_activation.cpp). Operator triggers, the worker's
    decision to start, the locked end of an attempt, its later recording and the
    stop interleave; fetching and publishing happen outside the lock and arrive
    as an outcome. */
module Refresh {
  import opened Values

  /** Between attempts, within one, or past its locked part with the outcome not
      yet recorded. */
  datatype Worker = Resting | Attempting(since: nat) | Swapped(stamp: nat, outcome: Health)

  datatype Attempt = Published(digest: Bytes, activated: bool) | Unpublished

  datatype Health = Current | LocalFallback | ExpiredWindow | Degraded

  /** `journal` holds the generation ids ever advanced to. */
  datatype State = State(
    generation: nat,
    journal: set<nat>,
    activeDigest: Bytes,
    lastOk: nat,
    lastAttempt: nat,
    pending: bool,
    workerRunning: bool,
    worker: Worker,
    health: Health)

  datatype Step =
    | Trigger(now: nat)
    | Begin(now: nat, due: bool)
    | Conclude(now: nat, attempt: Attempt)
    | Record
    | Fault(now: nat)
    | Start
    | Stop

  datatype Setting = Setting(coalesce: nat, window: nat)

  ghost predicate IsMaximum(journal: set<nat>, id: nat)
  {
    (journal == {} && id == 0) || (id in journal && forall g :: g in journal ==> g <= id)
  }

  lemma OneMoreGeneration(journal: set<nat>, id: nat, g: nat)
    requires IsMaximum(journal, id)
    ensures IsMaximum(journal + {g}, if g > id then g else id)
  {
    if journal == {} {
      assert journal + {g} == {g};
    }
  }

  lemma {:induction false} MaximumExists(journal: set<nat>) returns (id: nat)
    ensures IsMaximum(journal, id)
  {
    if journal == {} {
      id := 0;
    } else {
      var g :| g in journal;
      var rest := MaximumExists(journal - {g});
      OneMoreGeneration(journal - {g}, rest, g);
      assert journal - {g} + {g} == journal;
      id := if g > rest then g else rest;
    }
  }

  ghost function Maximum(journal: set<nat>): (id: nat)
    ensures IsMaximum(journal, id)
  {
    assert exists id: nat :: IsMaximum(journal, id) by {
      var id := MaximumExists(journal);
    }
    var id: nat :| IsMaximum(journal, id);
    id
  }

  predicate MayBegin(cfg: Setting, s: State, now: nat, due: bool)
  {
    s.worker.Resting? && s.workerRunning && (s.pending || due) && now >= s.lastAttempt + cfg.coalesce
  }

  /** The locked part of an attempt. A publish with new content must activate a
      generation; one that cannot is reported degraded and does not freshen the
      clock. */
  ghost function Concluded(cfg: Setting, s: State, now: nat, attempt: Attempt): State
  {
    match attempt
    case Published(digest, activated) =>
      if digest == s.activeDigest then s.(lastOk := now, worker := Swapped(now, Current))
      else if !activated then s.(worker := Swapped(now, Degraded))
      else
        var id := Maximum(s.journal) + 1;
        s.(journal := s.journal + {id}, generation := id, activeDigest := digest, lastOk := now,
           worker := Swapped(now, Current))
    case Unpublished =>
      s.(worker := Swapped(now, if s.lastOk != 0 && cfg.window != 0 && now < s.lastOk + cfg.window && s.lastOk <= now
                                then LocalFallback else ExpiredWindow))
  }

  ghost function Apply(cfg: Setting, s: State, step: Step): State
  {
    match step
    case Trigger(_) => if s.workerRunning then s.(pending := true) else s
    case Begin(now, due) =>
      if MayBegin(cfg, s, now, due) then s.(worker := Attempting(now), pending := false) else s
    case Conclude(now, attempt) => if s.worker.Attempting? then Concluded(cfg, s, now, attempt) else s
    case Record =>
      if s.worker.Swapped? then s.(worker := Resting, lastAttempt := s.worker.stamp, health := s.worker.outcome) else s
    case Fault(now) =>
      if s.worker.Resting? then s else s.(worker := Resting, lastAttempt := now, health := Degraded)
    case Start => if s.worker.Resting? then s.(workerRunning := true) else s
    case Stop => s.(workerRunning := false)
  }

  /** How an attempt ends. A publish of new content that activates moves the
      generation to the journal's next id, with the digest and the clock; a
      publish of the active content moves the clock alone; everything else moves
      nothing. The outcome is degraded, a local fallback or an expired window
      exactly as the publish, the last success, the window and the clock say. */
  ghost predicate Ends(cfg: Setting, s: State, now: nat, attempt: Attempt, s': State)
  {
    var same := attempt.Published? && attempt.digest == s.activeDigest;
    var fresh' := attempt.Published? && attempt.digest != s.activeDigest;
    var within := s.lastOk > 0 && s.lastOk <= now < s.lastOk + cfg.window;
    && s'.worker.Swapped? && s'.worker.stamp == now
    && (s'.worker.outcome.Current? <==> same || (fresh' && attempt.activated))
    && (s'.worker.outcome.Degraded? <==> fresh' && !attempt.activated)
    && (s'.worker.outcome.LocalFallback? <==> attempt.Unpublished? && within)
    && (s'.worker.outcome.ExpiredWindow? <==> attempt.Unpublished? && !within)
    && s'.lastOk == (if s'.worker.outcome.Current? then now else s.lastOk)
    && (if fresh' && attempt.activated then
          && s'.activeDigest == attempt.digest
          && (exists top: nat :: IsMaximum(s.journal, top) && s'.generation == top + 1)
          && s'.journal == s.journal + {s'.generation}
        else s'.activeDigest == s.activeDigest && s'.generation == s.generation && s'.journal == s.journal)
    && s' == s.(generation := s'.generation, journal := s'.journal, activeDigest := s'.activeDigest,
                lastOk := s'.lastOk, worker := s'.worker)
  }

  class RefreshWorker {
    const cfg: Setting
    var generation: nat
    var journal: set<nat>
    var activeDigest: Bytes
    var lastOk: nat
    var lastAttempt: nat
    var pending: bool
    var workerRunning: bool
    var worker: Worker
    var health: Health

    function Value(): State
      reads this
    {
      State(generation, journal, activeDigest, lastOk, lastAttempt, pending, workerRunning, worker, health)
    }

    constructor (cfg: Setting, generation: nat, journal: set<nat>, digest: Bytes, lastOk: nat)
      ensures this.cfg == cfg
      ensures Value() == State(generation, journal, digest, lastOk, 0, false, false, Resting, Current)
    {
      this.cfg := cfg;
      this.generation, this.journal, activeDigest, this.lastOk := generation, journal, digest, lastOk;
      lastAttempt, pending, workerRunning, worker, health := 0, false, false, Resting, Current;
    }

    method StartWorker()
      requires worker.Resting?
      modifies this`workerRunning
      ensures Value() == Apply(cfg, old(Value()), Start)
    {
      workerRunning := true;
    }

    method StopWorker()
      modifies this`workerRunning
      ensures Value() == Apply(cfg, old(Value()), Stop)
    {
      workerRunning := false;
    }

    method TriggerRefresh(now: nat) returns (accepted: bool, immediate: bool)
      modifies this`pending
      ensures Value() == Apply(cfg, old(Value()), Trigger(now))
      ensures accepted == workerRunning
      ensures immediate <==> accepted && now >= lastAttempt + cfg.coalesce
    {
      if !workerRunning {
        return false, false;
      }
      pending := true;
      return true, now >= lastAttempt + cfg.coalesce;
    }

    method BeginAttempt(now: nat, due: bool) returns (started: bool)
      requires worker.Resting?
      modifies this`pending, this`worker
      ensures Value() == Apply(cfg, old(Value()), Begin(now, due))
      ensures started <==> worker.Attempting?
      ensures started <==> workerRunning && (old(pending) || due) && lastAttempt + cfg.coalesce <= now
    {
      if !workerRunning {
        return false;
      }
      if !pending && !due {
        return false;
      }
      if now < lastAttempt + cfg.coalesce {
        return false;
      }
      pending := false;
      worker := Attempting(now);
      return true;
    }

    /** The largest generation id the journal holds, or zero. */
    method MaxGenerationId() returns (id: nat)
      ensures IsMaximum(journal, id)
    {
      id := 0;
      var rest := journal;
      while rest != {}
        invariant rest <= journal && IsMaximum(journal - rest, id)
        decreases |rest|
      {
        var g :| g in rest;
        OneMoreGeneration(journal - rest, id, g);
        assert journal - rest + {g} == journal - (rest - {g});
        if g > id {
          id := g;
        }
        rest := rest - {g};
      }
      assert journal - rest == journal;
    }

    /** The next journal generation, or none when the journal refuses. */
    method ActivateGeneration(advances: bool) returns (id: Option<nat>)
      modifies this`journal
      ensures id == if advances then Some(Maximum(old(journal)) + 1) else None
      ensures journal == old(journal) + if advances then {id.value} else {}
    {
      var top := MaxGenerationId();
      MaximumUnique(journal, top);
      if !advances {
        return None;
      }
      journal := journal + {top + 1};
      return Some(top + 1);
    }

    method ConcludeAttempt(now: nat, attempt: Attempt)
      requires worker.Attempting?
      modifies this`generation, this`journal, this`activeDigest, this`lastOk, this`worker
      ensures Value() == Apply(cfg, old(Value()), Conclude(now, attempt))
      ensures Ends(cfg, old(Value()), now, attempt, Value())
    {
      match attempt {
        case Published(digest, activated) =>
          var failed := false;
          if digest != activeDigest {
            var id := ActivateGeneration(activated);
            if id.Some? {
              generation := id.value;
              activeDigest := digest;
            } else {
              failed := true;
            }
          }
          if failed {
            worker := Swapped(now, Degraded);
          } else {
            lastOk := now;
            worker := Swapped(now, Current);
          }
        case Unpublished =>
          if lastOk != 0 && cfg.window != 0 && now < lastOk + cfg.window && lastOk <= now {
            worker := Swapped(now, LocalFallback);
          } else {
            worker := Swapped(now, ExpiredWindow);
          }
      }
    }

    /** The separate update after the swap. */
    method RecordAttempt()
      requires worker.Swapped?
      modifies this`lastAttempt, this`worker, this`health
      ensures Value() == Apply(cfg, old(Value()), Record)
    {
      health := worker.outcome;
      lastAttempt := worker.stamp;
      worker := Resting;
    }

    /** A fault anywhere in an attempt is contained: the worker continues. */
    method ContainFault(now: nat)
      requires !worker.Resting?
      modifies this`lastAttempt, this`worker, this`health
      ensures Value() == Apply(cfg, old(Value()), Fault(now))
    {
      health := Degraded;
      lastAttempt := now;
      worker := Resting;
    }
  }

  lemma MaximumUnique(journal: set<nat>, id: nat)
    requires IsMaximum(journal, id)
    ensures id == Maximum(journal)
  {
  }

  // ---- Runs ----

  ghost function Run(cfg: Setting, s: State, steps: seq<Step>): State
  {
    if steps == [] then s else Apply(cfg, Run(cfg, s, steps[..|steps| - 1]), steps[|steps| - 1])
  }

  ghost function At(cfg: Setting, s: State, steps: seq<Step>, k: nat): State
    requires k <= |steps|
  {
    Run(cfg, s, steps[..k])
  }

  lemma AtStep(cfg: Setting, s: State, steps: seq<Step>, k: nat)
    requires k < |steps|
    ensures At(cfg, s, steps, k + 1) == Apply(cfg, At(cfg, s, steps, k), steps[k])
  {
    assert steps[..k + 1][..k] == steps[..k];
  }

  /** The served generation is the largest the journal holds, at all times. It
      moves, by one, only with content that differs from the active bundle, and
      the journal gains exactly it; the freshness clock moves only when the bundle
      just published is the active one. */
  lemma {:induction false} GenerationIsJournalMaximum(cfg: Setting, s: State, steps: seq<Step>, k: nat)
    requires IsMaximum(s.journal, s.generation) && k < |steps|
    ensures var before, after := At(cfg, s, steps, k), At(cfg, s, steps, k + 1);
            && IsMaximum(after.journal, after.generation)
            && (after.generation != before.generation ==>
                  && after.generation == before.generation + 1
                  && after.journal == before.journal + {after.generation}
                  && after.activeDigest != before.activeDigest
                  && steps[k].Conclude? && steps[k].attempt == Published(after.activeDigest, true))
            && (after.generation == before.generation ==>
                  after.activeDigest == before.activeDigest && after.journal == before.journal)
            && (after.lastOk != before.lastOk ==>
                  && steps[k].Conclude? && steps[k].attempt.Published?
                  && after.activeDigest == steps[k].attempt.digest
                  && after.lastOk == steps[k].now)
  {
    hide Run;
    AtStep(cfg, s, steps, k);
    if k > 0 {
      GenerationIsJournalMaximum(cfg, s, steps, k - 1);
    } else {
      AtStart(cfg, s, steps);
    }
    ApplyAdvances(cfg, At(cfg, s, steps, k), steps[k]);
  }

  lemma AtStart(cfg: Setting, s: State, steps: seq<Step>)
    ensures At(cfg, s, steps, 0) == s
  {
  }

  lemma ApplyAdvances(cfg: Setting, s: State, step: Step)
    requires IsMaximum(s.journal, s.generation)
    ensures var s' := Apply(cfg, s, step);
            && IsMaximum(s'.journal, s'.generation)
            && (s'.generation != s.generation ==>
                  && s'.generation == s.generation + 1 && s'.journal == s.journal + {s'.generation}
                  && s'.activeDigest != s.activeDigest
                  && step.Conclude? && step.attempt == Published(s'.activeDigest, true))
            && (s'.generation == s.generation ==> s'.activeDigest == s.activeDigest && s'.journal == s.journal)
            && (s'.lastOk != s.lastOk ==>
                  && step.Conclude? && step.attempt.Published?
                  && s'.activeDigest == step.attempt.digest && s'.lastOk == step.now)
  {
    MaximumUnique(s.journal, s.generation);
  }

  /** In every run each attempt that ends does so exactly as specified: with an
      activated publish of new content the generation is the old one plus one,
      the digest the published one, the clock now and the outcome current. */
  lemma AttemptEndsExactly(cfg: Setting, s: State, steps: seq<Step>, k: nat)
    requires IsMaximum(s.journal, s.generation) && k < |steps|
    requires steps[k].Conclude? && At(cfg, s, steps, k).worker.Attempting?
    ensures var before, after := At(cfg, s, steps, k), At(cfg, s, steps, k + 1);
            var now, attempt := steps[k].now, steps[k].attempt;
            && Ends(cfg, before, now, attempt, after)
            && (after.generation == before.generation + 1 <==>
                  attempt.Published? && attempt.activated && attempt.digest != before.activeDigest)
            && (after.generation == before.generation + 1 ==>
                  after.activeDigest == attempt.digest && after.lastOk == now && after.worker == Swapped(now, Current))
  {
    hide Run;
    AtStep(cfg, s, steps, k);
    AtMaximum(cfg, s, steps, k);
    var before := At(cfg, s, steps, k);
    MaximumUnique(before.journal, before.generation);
  }

  lemma {:induction false} AtMaximum(cfg: Setting, s: State, steps: seq<Step>, k: nat)
    requires IsMaximum(s.journal, s.generation) && k <= |steps|
    ensures IsMaximum(At(cfg, s, steps, k).journal, At(cfg, s, steps, k).generation)
  {
    hide Run;
    if k == 0 {
      AtStart(cfg, s, steps);
    } else {
      GenerationIsJournalMaximum(cfg, s, steps, k - 1);
    }
  }

  /** The attempt that ended last before n: it concluded or faulted at i. */
  ghost predicate LastEnd(cfg: Setting, s: State, steps: seq<Step>, n: nat, i: nat)
  {
    && i < n <= |steps| && EndsAt(cfg, s, steps, i)
    && forall j :: i < j < n ==> !EndsAt(cfg, s, steps, j)
  }

  ghost predicate EndsAt(cfg: Setting, s: State, steps: seq<Step>, i: nat)
  {
    && i < |steps|
    && ((steps[i].Conclude? && At(cfg, s, steps, i).worker.Attempting?)
        || (steps[i].Fault? && !At(cfg, s, steps, i).worker.Resting?))
  }

  /** The worker still holds the attempt that ended at i unrecorded, or its time
      and outcome are on record, degraded if it faulted. */
  ghost predicate Reflects(cfg: Setting, s: State, steps: seq<Step>, now: State, i: nat)
    requires i < |steps| && (steps[i].Conclude? || steps[i].Fault?)
  {
    var ended := At(cfg, s, steps, i + 1).worker;
    if now.worker.Swapped? then
      steps[i].Conclude? && now.worker == ended && now.worker.stamp == steps[i].now
    else
      && now.lastAttempt == steps[i].now
      && if steps[i].Fault? then now.health == Degraded else ended.Swapped? && now.health == ended.outcome
  }

  lemma EndReflects(cfg: Setting, s: State, steps: seq<Step>, i: nat)
    requires EndsAt(cfg, s, steps, i)
    ensures Reflects(cfg, s, steps, At(cfg, s, steps, i + 1), i)
  {
    hide Run, Maximum;
    AtStep(cfg, s, steps, i);
  }

  lemma StepReflects(cfg: Setting, s: State, steps: seq<Step>, i: nat, last: nat)
    requires EndsAt(cfg, s, steps, i) && last < |steps| && !EndsAt(cfg, s, steps, last)
    requires Reflects(cfg, s, steps, At(cfg, s, steps, last), i)
    ensures Reflects(cfg, s, steps, At(cfg, s, steps, last + 1), i)
  {
    hide Run, Maximum;
    AtStep(cfg, s, steps, last);
  }

  /** Over every run, what is on record once an attempt is recorded is the time
      and outcome of the attempt that ended last; before the first one ends, what
      the host started with. */
  lemma {:induction false} HealthIsLastOutcome(cfg: Setting, s: State, steps: seq<Step>, n: nat)
    requires s.worker.Resting? && n <= |steps|
    ensures forall i: nat :: LastEnd(cfg, s, steps, n, i) ==> Reflects(cfg, s, steps, At(cfg, s, steps, n), i)
    ensures (exists i: nat :: LastEnd(cfg, s, steps, n, i))
            || (var now := At(cfg, s, steps, n);
                !now.worker.Swapped? && now.health == s.health && now.lastAttempt == s.lastAttempt)
  {
    hide Run, Maximum, Reflects, MayBegin;
    if n == 0 {
      AtStart(cfg, s, steps);
    } else {
      var last := n - 1;
      HealthIsLastOutcome(cfg, s, steps, last);
      if EndsAt(cfg, s, steps, last) {
        assert LastEnd(cfg, s, steps, n, last);
        EndReflects(cfg, s, steps, last);
      } else {
        AtStep(cfg, s, steps, last);
        forall i: nat | LastEnd(cfg, s, steps, n, i) ensures Reflects(cfg, s, steps, At(cfg, s, steps, n), i) {
          assert LastEnd(cfg, s, steps, last, i);
          StepReflects(cfg, s, steps, i, last);
        }
        if i: nat :| LastEnd(cfg, s, steps, last, i) {
          assert LastEnd(cfg, s, steps, n, i);
        }
      }
    }
  }

  // ---- The worker, exactly ----

  /** What each step does to the worker: an attempt starts when it rests, runs, is
      asked or due, and the coalesce interval has passed; it ends by concluding,
      is recorded, or faults; it can be started only while resting. */
  lemma WorkerExactly(cfg: Setting, s: State, step: Step)
    ensures var s' := Apply(cfg, s, step);
            var starts := && step.Begin? && s.worker == Resting && s.workerRunning && (s.pending || step.due)
                          && s.lastAttempt + cfg.coalesce <= step.now;
            && (starts ==> s'.worker == Attempting(step.now))
            && (step.Conclude? && s.worker.Attempting? ==> s'.worker.Swapped? && s'.worker.stamp == step.now)
            && (step == Record && s.worker.Swapped? ==>
                  s' == s.(worker := Resting, lastAttempt := s.worker.stamp, health := s.worker.outcome))
            && (step.Fault? && s.worker != Resting ==>
                  s' == s.(worker := Resting, lastAttempt := step.now, health := Degraded))
            && (s'.worker != s.worker ==>
                  starts || (step.Conclude? && s.worker.Attempting?) || (step == Record && s.worker.Swapped?)
                  || (step.Fault? && s.worker != Resting))
            && (s'.workerRunning <==> step != Stop && (s.workerRunning || (step == Start && s.worker == Resting)))
            && (s'.pending <==> (s.pending && !starts) || (step.Trigger? && s.workerRunning))
  {
    hide Maximum;
  }

  /** A trigger was accepted at i and no attempt has started since. */
  ghost predicate Asked(cfg: Setting, s: State, steps: seq<Step>, n: nat, i: nat)
  {
    && i < n <= |steps| && steps[i].Trigger? && At(cfg, s, steps, i).workerRunning
    && forall j :: i < j < n ==> !StartsAt(cfg, s, steps, j)
  }

  /** Over every run a refresh is pending exactly when a trigger was accepted, or
      one was pending at the outset, and no attempt has started since. */
  lemma {:induction false} PendingExactly(cfg: Setting, s: State, steps: seq<Step>, n: nat)
    requires n <= |steps|
    ensures At(cfg, s, steps, n).pending <==>
            || (exists i: nat :: Asked(cfg, s, steps, n, i))
            || (s.pending && forall j :: 0 <= j < n ==> !StartsAt(cfg, s, steps, j))
  {
    hide Run, Apply;
    if n == 0 {
      AtStart(cfg, s, steps);
    } else {
      var m := n - 1;
      PendingExactly(cfg, s, steps, m);
      AtStep(cfg, s, steps, m);
      WorkerExactly(cfg, At(cfg, s, steps, m), steps[m]);
      var starts := StartsAt(cfg, s, steps, m);
      assert (forall j :: 0 <= j < n ==> !StartsAt(cfg, s, steps, j)) <==>
             !starts && forall j :: 0 <= j < m ==> !StartsAt(cfg, s, steps, j);
      if steps[m].Trigger? && At(cfg, s, steps, m).workerRunning {
        assert Asked(cfg, s, steps, n, m);
      }
      if i: nat :| Asked(cfg, s, steps, m, i) {
        assert !starts ==> Asked(cfg, s, steps, n, i);
      }
      if i: nat :| Asked(cfg, s, steps, n, i) {
        assert i < m ==> Asked(cfg, s, steps, m, i);
      }
    }
  }

  // ---- What a request is told ----

  /** The refresh state reported at a time. */
  ghost function Reported(cfg: Setting, s: State, now: nat): Health
  {
    if s.health.Degraded? then Degraded
    else if s.lastOk != 0 && cfg.window != 0 && now < s.lastOk + cfg.window && s.lastOk <= now then s.health
    else ExpiredWindow
  }

  /** Governed calls are refused as stale. */
  predicate Expired(cfg: Setting, s: State, now: nat)
  {
    cfg.window != 0 && s.lastOk + cfg.window <= now
  }

  /** A freshness that is reported is never refused as stale. The converse fails
      exactly for a host that never refreshed, has no window, or reads a clock
      before its last success. */
  lemma FreshIsNotExpired(cfg: Setting, s: State, now: nat)
    requires !s.health.Degraded? && !s.health.ExpiredWindow?
    ensures !Reported(cfg, s, now).ExpiredWindow? <==>
            !Expired(cfg, s, now) && s.lastOk != 0 && cfg.window != 0 && s.lastOk <= now
    ensures !Reported(cfg, s, now).ExpiredWindow? ==> Reported(cfg, s, now) == s.health
  {
  }

  /** The worker's clock readings move forward within an attempt: what it is
      stamped with is no earlier than its start. */
  ghost predicate StampsForward(cfg: Setting, s: State, steps: seq<Step>)
  {
    forall k :: 0 <= k < |steps| ==>
      var t := At(cfg, s, steps, k);
      && (steps[k].Conclude? && t.worker.Attempting? ==> t.worker.since <= steps[k].now)
      && (steps[k].Fault? && t.worker.Attempting? ==> t.worker.since <= steps[k].now)
      && (steps[k].Fault? && t.worker.Swapped? ==> t.worker.stamp <= steps[k].now)
  }

  ghost predicate StartsAt(cfg: Setting, s: State, steps: seq<Step>, k: nat)
  {
    k < |steps| && steps[k].Begin? && MayBegin(cfg, At(cfg, s, steps, k), steps[k].now, steps[k].due)
  }

  /** The latest time an attempt is known by. */
  ghost predicate MarkedSince(s: State, time: nat)
  {
    match s.worker
    case Resting => s.lastAttempt >= time
    case Attempting(since) => since >= time
    case Swapped(stamp, _) => stamp >= time
  }

  /** Once an attempt started, everything later is marked no earlier. */
  lemma {:induction false} StartLeavesMark(cfg: Setting, s: State, steps: seq<Step>, i: nat, k: nat)
    requires StampsForward(cfg, s, steps) && StartsAt(cfg, s, steps, i) && i < k <= |steps|
    ensures MarkedSince(At(cfg, s, steps, k), steps[i].now)
  {
    hide Run;
    AtStep(cfg, s, steps, k - 1);
    if k > i + 1 {
      StartLeavesMark(cfg, s, steps, i, k - 1);
    }
  }

  /** Attempts start at least the coalesce interval apart. */
  lemma AttemptsAreSpaced(cfg: Setting, s: State, steps: seq<Step>, i: nat, j: nat)
    requires StampsForward(cfg, s, steps) && i < j && StartsAt(cfg, s, steps, i) && StartsAt(cfg, s, steps, j)
    ensures steps[j].now >= steps[i].now + cfg.coalesce
  {
    hide Run;
    StartLeavesMark(cfg, s, steps, i, j);
  }

  /** An accepted trigger stays pending until a later attempt starts. */
  lemma {:induction false} TriggerIsNotLost(cfg: Setting, s: State, steps: seq<Step>, i: nat, n: nat)
    requires i < n <= |steps| && steps[i].Trigger? && At(cfg, s, steps, i).workerRunning
    ensures At(cfg, s, steps, n).pending || exists j :: i < j < n && StartsAt(cfg, s, steps, j)
  {
    hide Run;
    AtStep(cfg, s, steps, n - 1);
    if n > i + 1 {
      TriggerIsNotLost(cfg, s, steps, i, n - 1);
      if At(cfg, s, steps, n - 1).pending && !At(cfg, s, steps, n).pending {
        assert StartsAt(cfg, s, steps, n - 1);
      }
    }
  }
}
