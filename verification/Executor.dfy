/** The bounded resolver executor (src/executor.cpp). Worker threads, submitters
    and the shutting-down thread interleave at their critical sections; each
    section is one atomic action on the shared state. Tasks are numbered in the
    order they are accepted. */
module Executor {

  datatype Worker = Waiting | Executing(task: nat) | Exited

  datatype Pool = Pool(
    capacity: nat,
    workers: seq<Worker>,
    pending: seq<nat>,
    running: nat,
    shutdown: bool,
    exceptions: nat,
    accepted: nat,
    completed: seq<nat>)

  datatype Action =
    | Submit
    | Take(w: nat)
    | Finish(w: nat, threw: bool)
    | Leave(w: nat)
    | BeginShutdown

  predicate WorkerAction(a: Action)
  {
    a.Take? || a.Finish? || a.Leave?
  }

  ghost predicate Enabled(s: Pool, a: Action)
  {
    match a
    case Submit => true
    case Take(w) => w < |s.workers| && s.workers[w].Waiting? && s.pending != []
    case Finish(w, _) => w < |s.workers| && s.workers[w].Executing?
    case Leave(w) => w < |s.workers| && s.workers[w].Waiting? && s.pending == [] && s.shutdown
    case BeginShutdown => true
  }

  /** An action that is not enabled does not happen. */
  ghost function Apply(s: Pool, a: Action): Pool
  {
    if !Enabled(s, a) then s else
    match a
    case Submit =>
      if s.shutdown || |s.pending| >= s.capacity then s
      else s.(pending := s.pending + [s.accepted], accepted := s.accepted + 1)
    case Take(w) =>
      s.(workers := s.workers[w := Executing(s.pending[0])], pending := s.pending[1..], running := s.running + 1)
    case Finish(w, threw) =>
      s.(workers := s.workers[w := Waiting],
         running := if s.running == 0 then 0 else s.running - 1,
         exceptions := if threw then s.exceptions + 1 else s.exceptions,
         completed := s.completed + [s.workers[w].task])
    case Leave(w) => s.(workers := s.workers[w := Exited])
    case BeginShutdown => s.(shutdown := true)
  }

  /** No accepted task is queued or running: what `wait_all` waits for. */
  ghost predicate Idle(s: Pool)
  {
    s.pending == [] && s.running == 0
  }

  class Executor {
    const capacity: nat
    var workers: seq<Worker>
    var pending: seq<nat>
    var running: nat
    var shutdown: bool
    var exceptions: nat
    var accepted: nat
    ghost var completed: seq<nat>

    ghost function State(): Pool
      reads this
    {
      Pool(capacity, workers, pending, running, shutdown, exceptions, accepted, completed)
    }

    constructor (workers: nat, capacity: nat)
      requires workers > 0 && capacity > 0
      ensures State() == Start(workers, capacity)
    {
      this.capacity := capacity;
      this.workers := seq(workers, i => Waiting);
      pending, running, shutdown, exceptions, accepted, completed := [], 0, false, 0, 0, [];
    }

    method SubmitTask() returns (ok: bool)
      modifies this`pending, this`accepted
      ensures ok <==> !shutdown && |old(pending)| < capacity
      ensures State() == Apply(old(State()), Submit)
    {
      if shutdown || |pending| >= capacity {
        return false;
      }
      pending := pending + [accepted];
      accepted := accepted + 1;
      return true;
    }

    /** One turn of the worker loop: take the front task, leave, or keep
        waiting. */
    method WorkerTurn(w: nat)
      requires w < |workers| && workers[w].Waiting?
      modifies this`workers, this`pending, this`running
      ensures old(pending) != [] ==> State() == Apply(old(State()), Take(w))
      ensures old(pending) == [] && shutdown ==> State() == Apply(old(State()), Leave(w))
      ensures old(pending) == [] && !shutdown ==> State() == old(State())
    {
      if pending == [] {
        if shutdown {
          workers := workers[w := Exited];
        }
        return;
      }
      workers := workers[w := Executing(pending[0])];
      pending := pending[1..];
      running := running + 1;
    }

    /** The task returned or threw; the last one out wakes the waiters. */
    method FinishTask(w: nat, threw: bool) returns (notified: bool)
      requires w < |workers| && workers[w].Executing? && running > 0
      modifies this`workers, this`running, this`exceptions, this`completed
      ensures State() == Apply(old(State()), Finish(w, threw))
      ensures notified <==> Idle(State())
    {
      if threw {
        exceptions := exceptions + 1;
      }
      running := running - 1;
      completed := completed + [workers[w].task];
      workers := workers[w := Waiting];
      return pending == [] && running == 0;
    }

    method Shutdown()
      modifies this`shutdown
      ensures State() == Apply(old(State()), BeginShutdown)
    {
      shutdown := true;
    }
  }

  // ---- Every interleaving ----

  ghost function Start(workers: nat, capacity: nat): Pool
  {
    Pool(capacity, seq(workers, i => Waiting), [], 0, false, 0, 0, [])
  }

  ghost function Outcome(s: Pool, run: seq<Action>): Pool
  {
    if run == [] then s else Apply(Outcome(s, run[..|run| - 1]), run[|run| - 1])
  }

  ghost function Busy(s: Pool): set<nat>
  {
    set w: nat | w < |s.workers| && s.workers[w].Executing?
  }

  /** Tasks taken off the queue so far. */
  ghost function Taken(s: Pool): int
  {
    s.accepted - |s.pending|
  }

  ghost predicate HeldOnce(s: Pool)
  {
    && (forall i, j :: 0 <= i < j < |s.completed| ==> s.completed[i] != s.completed[j])
    && (forall w, v :: w in Busy(s) && v in Busy(s) && w != v ==> s.workers[w].task != s.workers[v].task)
    && (forall w :: w in Busy(s) ==> s.workers[w].task !in s.completed)
    && (forall t :: t in s.completed ==> t < Taken(s))
    && (forall w :: w in Busy(s) ==> s.workers[w].task < Taken(s))
    && (forall t: nat :: t < Taken(s) ==> t in s.completed || exists w :: w in Busy(s) && s.workers[w].task == t)
  }

  /** Every accepted task is in exactly one place, in acceptance order while
      queued; bounds hold; nobody leaves work behind. */
  ghost predicate Inv(s: Pool)
  {
    && |s.pending| <= s.capacity
    && s.running == |Busy(s)|
    && s.accepted == |s.completed| + s.running + |s.pending|
    && (forall i :: 0 <= i < |s.pending| ==> s.pending[i] == Taken(s) + i)
    && HeldOnce(s)
    && (forall w :: 0 <= w < |s.workers| && s.workers[w].Exited? ==> s.shutdown && s.pending == [])
  }

  lemma {:induction false} CountBelow(numbers: set<nat>, n: nat)
    requires forall x :: x in numbers ==> x < n
    ensures |numbers| <= n
  {
    if n == 0 {
      assert numbers == {};
    } else {
      CountBelow(numbers - {n - 1}, n - 1);
    }
  }

  lemma TakeHeldOnce(s: Pool, w: nat)
    requires HeldOnce(s) && Enabled(s, Take(w)) && s.pending[0] == Taken(s)
    ensures var s' := Apply(s, Take(w));
            HeldOnce(s') && Busy(s') == Busy(s) + {w} && w !in Busy(s)
  {
    var s' := Apply(s, Take(w));
    var t := s.pending[0];
    assert Busy(s') == Busy(s) + {w} && w !in Busy(s);
    assert forall v :: v in Busy(s) ==> s'.workers[v] == s.workers[v] && s.workers[v].task < t;
    forall x: nat | x < Taken(s') ensures x in s'.completed || exists v :: v in Busy(s') && s'.workers[v].task == x {
      if x == t {
        assert w in Busy(s') && s'.workers[w].task == t;
      } else if x !in s.completed {
        var v :| v in Busy(s) && s.workers[v].task == x;
        assert v in Busy(s') && s'.workers[v].task == x;
      }
    }
  }

  lemma TakeKeepsInv(s: Pool, w: nat)
    requires Inv(s) && Enabled(s, Take(w))
    ensures Inv(Apply(s, Take(w)))
  {
    TakeHeldOnce(s, w);
    hide HeldOnce, Busy;
  }

  lemma FinishHeldOnce(s: Pool, w: nat, threw: bool)
    requires HeldOnce(s) && Enabled(s, Finish(w, threw))
    ensures var s' := Apply(s, Finish(w, threw));
            HeldOnce(s') && w in Busy(s) && Busy(s') == Busy(s) - {w}
  {
    var s' := Apply(s, Finish(w, threw));
    assert w in Busy(s) && Busy(s') == Busy(s) - {w};
    forall t: nat | t < Taken(s') ensures t in s'.completed || exists v :: v in Busy(s') && s'.workers[v].task == t {
      if t !in s'.completed {
        var v :| v in Busy(s) && s.workers[v].task == t;
        assert v in Busy(s') && s'.workers[v].task == t;
      }
    }
  }

  lemma FinishKeepsInv(s: Pool, w: nat, threw: bool)
    requires Inv(s) && Enabled(s, Finish(w, threw))
    ensures Inv(Apply(s, Finish(w, threw)))
  {
    hide HeldOnce, Busy;
    FinishHeldOnce(s, w, threw);
  }

  lemma OtherHeldOnce(s: Pool, a: Action)
    requires HeldOnce(s) && Enabled(s, a) && !a.Take? && !a.Finish?
    ensures HeldOnce(Apply(s, a)) && Busy(Apply(s, a)) == Busy(s)
  {
    var s' := Apply(s, a);
    assert Busy(s') == Busy(s);
    assert forall w :: w in Busy(s) ==> s'.workers[w] == s.workers[w];
  }

  lemma OtherKeepsInv(s: Pool, a: Action)
    requires Inv(s) && Enabled(s, a) && !a.Take? && !a.Finish?
    ensures Inv(Apply(s, a))
  {
    hide HeldOnce, Busy;
    OtherHeldOnce(s, a);
  }

  lemma StepKeepsInv(s: Pool, a: Action)
    requires Inv(s)
    ensures Inv(Apply(s, a))
    ensures |Apply(s, a).workers| == |s.workers|
  {
    hide Inv;
    if Enabled(s, a) {
      match a
      case Take(w) => TakeKeepsInv(s, w);
      case Finish(w, threw) => FinishKeepsInv(s, w, threw);
      case _ => OtherKeepsInv(s, a);
    }
  }

  lemma {:induction false} RunKeepsInv(workers: nat, capacity: nat, run: seq<Action>)
    ensures Inv(Outcome(Start(workers, capacity), run))
    ensures |Outcome(Start(workers, capacity), run).workers| == workers
  {
    var s := Start(workers, capacity);
    if run == [] {
      assert Busy(s) == {};
    } else {
      RunKeepsInv(workers, capacity, run[..|run| - 1]);
      StepKeepsInv(Outcome(s, run[..|run| - 1]), run[|run| - 1]);
    }
  }

  /** In every interleaving: the books balance, the queue and the running count
      stay within their bounds. */
  lemma AlwaysBounded(workers: nat, capacity: nat, run: seq<Action>)
    ensures var s := Outcome(Start(workers, capacity), run);
            && s.accepted == |s.completed| + s.running + |s.pending|
            && |s.pending| <= capacity
            && s.running <= workers
  {
    RunKeepsInv(workers, capacity, run);
    CountBelow(Busy(Outcome(Start(workers, capacity), run)), workers);
    CapacityFixed(Start(workers, capacity), run);
  }

  lemma {:induction false} CapacityFixed(s: Pool, run: seq<Action>)
    ensures Outcome(s, run).capacity == s.capacity
  {
    if run != [] {
      CapacityFixed(s, run[..|run| - 1]);
    }
  }

  ghost predicate Ends(s: Pool, a: Action)
  {
    a.Finish? && a.w < |s.workers| && s.workers[a.w].Executing?
  }

  /** The tasks of a run that ended, in order, and how many of them threw. */
  ghost function Ended(s: Pool, run: seq<Action>): seq<nat>
  {
    if run == [] then []
    else
      var before, last := Outcome(s, run[..|run| - 1]), run[|run| - 1];
      Ended(s, run[..|run| - 1]) + if Ends(before, last) then [before.workers[last.w].task] else []
  }

  ghost function Threw(s: Pool, run: seq<Action>): nat
  {
    if run == [] then 0
    else
      var before, last := Outcome(s, run[..|run| - 1]), run[|run| - 1];
      Threw(s, run[..|run| - 1]) + if Ends(before, last) && last.threw then 1 else 0
  }

  /** The submissions of a run that found the executor open and the queue below
      its capacity. */
  ghost function Admitted(s: Pool, run: seq<Action>): nat
  {
    if run == [] then 0
    else
      var before, last := Outcome(s, run[..|run| - 1]), run[|run| - 1];
      Admitted(s, run[..|run| - 1])
      + if last.Submit? && !before.shutdown && |before.pending| < before.capacity then 1 else 0
  }

  /** In every interleaving the counters say what happened: the tasks accepted
      are the submissions that found room before shutdown, those completed are
      the ones that ended, in that order, and the exceptions are those of them
      that threw; shutdown is reported exactly once it has begun. */
  lemma {:induction false} CountersExact(workers: nat, capacity: nat, run: seq<Action>)
    ensures var s, start := Outcome(Start(workers, capacity), run), Start(workers, capacity);
            && s.accepted == Admitted(start, run)
            && s.completed == Ended(start, run)
            && s.exceptions == Threw(start, run) <= |s.completed|
            && (s.shutdown <==> BeginShutdown in run)
  {
    hide Apply;
    if run != [] {
      var before, last := run[..|run| - 1], run[|run| - 1];
      CountersExact(workers, capacity, before);
      StepCounts(Outcome(Start(workers, capacity), before), last);
      assert run == before + [last];
    }
  }

  lemma StepCounts(s: Pool, a: Action)
    ensures var s' := Apply(s, a);
            && s'.accepted == s.accepted + (if a.Submit? && !s.shutdown && |s.pending| < s.capacity then 1 else 0)
            && s'.completed == s.completed + (if Ends(s, a) then [s.workers[a.w].task] else [])
            && s'.exceptions == s.exceptions + (if Ends(s, a) && a.threw then 1 else 0)
            && (s'.shutdown <==> s.shutdown || a == BeginShutdown)
  {
  }

  /** A waiting worker takes the oldest queued task. */
  lemma OldestFirst(s: Pool, w: nat, i: nat)
    requires Inv(s) && w < |s.workers| && s.workers[w].Waiting? && i < |s.pending|
    ensures Apply(s, Take(w)).workers[w].Executing? && Apply(s, Take(w)).workers[w].task <= s.pending[i]
    ensures Apply(s, Take(w)).pending == s.pending[1..]
  {
    hide HeldOnce;
    assert s.pending[0] == Taken(s) + 0 && s.pending[i] == Taken(s) + i;
  }

  /** Once every worker has been joined, each accepted task, throwing ones
      included, has run exactly once. */
  lemma JoinedMeansAllRanOnce(workers: nat, capacity: nat, run: seq<Action>)
    requires workers > 0
    requires var s := Outcome(Start(workers, capacity), run);
             forall w :: 0 <= w < |s.workers| ==> s.workers[w].Exited?
    ensures var s := Outcome(Start(workers, capacity), run);
            && Idle(s)
            && |s.completed| == s.accepted
            && forall t: nat :: t < s.accepted <==> t in s.completed
  {
    RunKeepsInv(workers, capacity, run);
    var s := Outcome(Start(workers, capacity), run);
    assert s.workers[0].Exited?;
    assert Busy(s) == {};
  }

  /** The pool becomes idle only by a task finishing, and that finish wakes the
      waiters: `wait_all` cannot miss it. */
  lemma IdleIsNotified(s: Pool, a: Action)
    requires !Idle(s) && Idle(Apply(s, a))
    ensures a.Finish? && Enabled(s, a)
  {
  }

  // ---- Shutdown completes ----

  ghost function Present(s: Pool): set<nat>
  {
    set w: nat | w < |s.workers| && !s.workers[w].Exited?
  }

  ghost function Work(s: Pool): nat
  {
    2 * |s.pending| + |Busy(s)| + |Present(s)|
  }

  /** After shutdown every worker action uses up work and nothing else adds
      any. */
  lemma ShutdownDescends(s: Pool, a: Action)
    requires Inv(s) && s.shutdown
    ensures Apply(s, a).shutdown
    ensures if WorkerAction(a) && Enabled(s, a) then Work(Apply(s, a)) < Work(s) else Work(Apply(s, a)) == Work(s)
  {
    hide Inv;
    var s' := Apply(s, a);
    if !WorkerAction(a) || !Enabled(s, a) {
      assert s'.workers == s.workers;
    } else if a.Take? {
      assert Busy(s') == Busy(s) + {a.w} && a.w !in Busy(s);
      assert Present(s') == Present(s);
    } else if a.Finish? {
      assert Busy(s') == Busy(s) - {a.w} && a.w in Busy(s);
      assert Present(s') == Present(s);
    } else {
      assert Busy(s') == Busy(s);
      assert Present(s') == Present(s) - {a.w} && a.w in Present(s);
    }
  }

  /** While a worker is present some worker action is enabled. */
  lemma ShutdownNeverStuck(s: Pool)
    requires s.shutdown && Present(s) != {}
    ensures exists a :: WorkerAction(a) && Enabled(s, a)
  {
    var w :| w in Present(s);
    var a := if s.workers[w].Executing? then Finish(w, false) else if s.pending != [] then Take(w) else Leave(w);
    assert WorkerAction(a) && Enabled(s, a);
  }

  /** The worker actions of a run that really happen. */
  ghost function WorkerActions(s: Pool, run: seq<Action>): nat
  {
    if run == [] then 0
    else
      var before, last := run[..|run| - 1], run[|run| - 1];
      WorkerActions(s, before) + if WorkerAction(last) && Enabled(Outcome(s, before), last) then 1 else 0
  }

  /** So joining the workers after shutdown takes a bounded number of worker
      actions, whatever else interleaves. */
  lemma {:induction false} ShutdownBounded(s: Pool, run: seq<Action>)
    requires Inv(s) && s.shutdown
    ensures var s' := Outcome(s, run);
            Inv(s') && s'.shutdown && WorkerActions(s, run) + Work(s') <= Work(s)
  {
    if run != [] {
      ShutdownBounded(s, run[..|run| - 1]);
      StepKeepsInv(Outcome(s, run[..|run| - 1]), run[|run| - 1]);
      ShutdownDescends(Outcome(s, run[..|run| - 1]), run[|run| - 1]);
    }
  }
}
