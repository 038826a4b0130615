/** Serving frames: the per-connection loop (src/ipc/pipe_service.cpp) and the
    serve-thread slots (src/ipc/named_pipe_server.cpp). */
module Serving {
  import opened Values
  import opened Framing

  // ---- One connection ----

  /** What the loop meets at one turn: the stop flag, a read that ends without
      a frame, or a frame and whether its reply can be written. */
  datatype Event =
    | StopFlag
    | ReadAborted
    | ReadTimedOut
    | PeerClosed
    | Arrived(bytes: Bytes, writable: bool)

  datatype Cause =
    | AdmissionRejected
    | StopClosed
    | IdleClosed
    | ClientClosed
    | FrameError
    | SequenceViolation
    | BudgetClosed

  datatype Stats = Stats(
    framesServed: nat,
    admitted: bool,
    admissionRejected: bool,
    sequenceViolation: bool,
    frameError: bool,
    budgetClosed: bool,
    idleClosed: bool,
    clientClosed: bool,
    stopClosed: bool)

  /** The flags a connection that served `framesServed` replies and ended for
      one cause reports. */
  function Closed(framesServed: nat, cause: Cause): Stats
  {
    Stats(framesServed, !cause.AdmissionRejected?, cause.AdmissionRejected?, cause.SequenceViolation?,
          cause.FrameError?, cause.BudgetClosed?, cause.IdleClosed?, cause.ClientClosed?, cause.StopClosed?)
  }

  /** The connection's peer, the codec key, the request parser and the budget. */
  datatype Setting = Setting(events: nat -> Event, hmac: Bytes -> Mac, parses: Bytes -> bool, maxFrames: nat)

  ghost function FrameAt(c: Setting, i: nat): Decoded
  {
    if c.events(i).Arrived? then Decode(c.hmac, c.events(i).bytes) else Denied(SizeOutsideBounds)
  }

  /** The i-th turn brings a verified frame. */
  ghost predicate VerifiedAt(c: Setting, i: nat)
  {
    FrameAt(c, i).Verified?
  }

  ghost function SequenceBefore(c: Setting, i: nat): nat
  {
    if i == 0 || !VerifiedAt(c, i - 1) then 0 else FrameAt(c, i - 1).header.sequence
  }

  /** The i-th turn reaches the handler. */
  ghost predicate HandledAt(c: Setting, i: nat)
  {
    && VerifiedAt(c, i)
    && SequenceBefore(c, i) < FrameAt(c, i).header.sequence
    && c.parses(FrameAt(c, i).body)
    && i < c.maxFrames
  }

  ghost predicate RepliedAt(c: Setting, i: nat)
  {
    HandledAt(c, i) && c.events(i).writable
  }

  /** Why a connection whose first n turns were replied to ends at turn n. */
  ghost function CauseAt(c: Setting, n: nat): Cause
    requires !RepliedAt(c, n)
  {
    match c.events(n)
    case StopFlag => StopClosed
    case ReadAborted => StopClosed
    case ReadTimedOut => IdleClosed
    case PeerClosed => ClientClosed
    case Arrived(_, _) =>
      if !FrameAt(c, n).Verified? then FrameError
      else if FrameAt(c, n).header.sequence <= SequenceBefore(c, n) then SequenceViolation
      else if !c.parses(FrameAt(c, n).body) then FrameError
      else if n >= c.maxFrames then BudgetClosed
      else ClientClosed
  }

  /** Serves until the first turn that is not replied to, hands each frame to
      the handler once and in order, and reports the one cause of closing. */
  method ServeConnection(c: Setting, rejection: Bytes) returns (stats: Stats, handled: seq<Decoded>)
    ensures rejection != [] ==> stats == Closed(0, AdmissionRejected) && handled == []
    ensures rejection == [] ==>
              && !RepliedAt(c, stats.framesServed)
              && stats == Closed(stats.framesServed, CauseAt(c, stats.framesServed))
              && |handled| == stats.framesServed + (if HandledAt(c, stats.framesServed) then 1 else 0)
              && (forall i :: 0 <= i < stats.framesServed ==> RepliedAt(c, i))
              && (forall i :: 0 <= i < |handled| ==> HandledAt(c, i) && handled[i] == FrameAt(c, i))
  {
    hide Decode, HandledAt, RepliedAt, CauseAt, SequenceBefore, FrameAt;
    handled := [];
    if rejection != [] {
      return Closed(0, AdmissionRejected), handled;
    }
    var served := 0;
    var lastSequence := 0;
    StartsAtZero(c);
    while true
      invariant served <= c.maxFrames && |handled| == served
      invariant lastSequence == SequenceBefore(c, served)
      invariant forall i :: 0 <= i < served ==> RepliedAt(c, i)
      invariant forall i :: 0 <= i < |handled| ==> HandledAt(c, i) && handled[i] == FrameAt(c, i)
      decreases c.maxFrames - served
    {
      var turn := TakeTurn(c, served, lastSequence);
      TurnFacts(c, served);
      if turn.frame.Verified? {
        handled := handled + [turn.frame];
      }
      if turn.Ends? {
        return Closed(served, turn.cause), handled;
      }
      lastSequence := turn.frame.header.sequence;
      served := served + 1;
    }
  }

  lemma StartsAtZero(c: Setting)
    ensures SequenceBefore(c, 0) == 0
  {
  }

  lemma TurnFacts(c: Setting, n: nat)
    ensures RepliedAt(c, n) ==> HandledAt(c, n)
    ensures HandledAt(c, n) ==>
              n < c.maxFrames && FrameAt(c, n).Verified? && SequenceBefore(c, n + 1) == FrameAt(c, n).header.sequence
  {
    hide Decode;
  }

  /** One turn: the frame that reached the handler, if one did, and the close
      cause when the turn is the last. */
  datatype Turn = Goes(frame: Decoded) | Ends(frame: Decoded, cause: Cause)

  method TakeTurn(c: Setting, served: nat, lastSequence: nat) returns (turn: Turn)
    requires lastSequence == SequenceBefore(c, served)
    ensures turn.frame.Verified? <==> HandledAt(c, served)
    ensures HandledAt(c, served) ==> turn.frame == FrameAt(c, served)
    ensures turn.Goes? <==> RepliedAt(c, served)
    ensures turn.Ends? ==> turn.cause == CauseAt(c, served)
  {
    hide Decode, SequenceBefore;
    var nothing := Denied(SizeOutsideBounds);
    var event := c.events(served);
    if event.StopFlag? || event.ReadAborted? {
      return Ends(nothing, StopClosed);
    }
    if event.ReadTimedOut? {
      return Ends(nothing, IdleClosed);
    }
    if event.PeerClosed? {
      return Ends(nothing, ClientClosed);
    }
    var frame := DecodeFrame(c.hmac, event.bytes);
    if frame.Denied? {
      return Ends(nothing, FrameError);
    }
    if frame.header.sequence <= lastSequence {
      return Ends(nothing, SequenceViolation);
    }
    if !c.parses(frame.body) {
      return Ends(nothing, FrameError);
    }
    if served + 1 > c.maxFrames {
      return Ends(nothing, BudgetClosed);
    }
    if !event.writable {
      return Ends(frame, ClientClosed);
    }
    return Goes(frame);
  }

  /** Handled frames carry strictly increasing sequence numbers. */
  lemma {:induction false} SequencesIncrease(c: Setting, i: nat, j: nat)
    requires i < j && HandledAt(c, i) && HandledAt(c, j) && forall k: nat :: i < k < j ==> HandledAt(c, k)
    ensures 0 < FrameAt(c, i).header.sequence < FrameAt(c, j).header.sequence
  {
    hide Decode;
    if i < j - 1 {
      SequencesIncrease(c, i, j - 1);
    }
  }

  /** The close cause a connection reports after n replies, given the sequence
      number of the last frame replied to: each flag by what the n-th turn met. */
  ghost predicate EndsAsMet(c: Setting, n: nat, last: nat, stats: Stats)
  {
    var event := c.events(n);
    var frame := if event.Arrived? then Decode(c.hmac, event.bytes) else Denied(SizeOutsideBounds);
    var later := frame.Verified? && last < frame.header.sequence;
    && !stats.admissionRejected
    && (stats.stopClosed <==> event == StopFlag || event == ReadAborted)
    && (stats.idleClosed <==> event == ReadTimedOut)
    && (stats.frameError <==> event.Arrived? && (frame.Denied? || (later && !c.parses(frame.body))))
    && (stats.sequenceViolation <==> frame.Verified? && frame.header.sequence <= last)
    && (stats.budgetClosed <==> later && c.parses(frame.body) && n == c.maxFrames)
    && (stats.clientClosed <==>
          event == PeerClosed || (later && c.parses(frame.body) && n < c.maxFrames && !event.writable))
  }

  lemma EndsExactly(c: Setting, n: nat, last: nat)
    requires !RepliedAt(c, n) && n <= c.maxFrames && last == SequenceBefore(c, n)
    ensures EndsAsMet(c, n, last, Closed(n, CauseAt(c, n))) && !CauseAt(c, n).AdmissionRejected?
  {
    hide Decode, SequenceBefore;
  }

  /** However a connection goes, the handler runs at most `maxFrames` times, on
      verified frames that parse, in strictly increasing sequence; exactly one
      close cause is reported, the one the turn after the last reply met. */
  method ServeWithinBounds(c: Setting, rejection: Bytes) returns (stats: Stats, handled: seq<Decoded>)
    ensures |handled| <= c.maxFrames && stats.framesServed <= |handled| <= stats.framesServed + 1
    ensures forall i :: 0 <= i < |handled| ==> handled[i].Verified?
    ensures forall i, j :: 0 <= i < j < |handled| ==> handled[i].header.sequence < handled[j].header.sequence
    ensures forall i :: 0 <= i < |handled| ==>
              c.events(i).Arrived? && handled[i] == Decode(c.hmac, c.events(i).bytes) && c.parses(handled[i].body)
    ensures forall i :: 0 <= i < stats.framesServed ==> c.events(i).writable
    ensures stats.admitted <==> rejection == []
    ensures rejection != [] ==> stats.framesServed == 0 && stats.admissionRejected
    ensures exists cause: Cause :: stats == Closed(stats.framesServed, cause)
    ensures rejection == [] ==>
              var n := stats.framesServed;
              EndsAsMet(c, n, if n == 0 then 0 else handled[n - 1].header.sequence, stats)
  {
    hide Decode, EndsAsMet, HandledAt, RepliedAt, CauseAt, FrameAt, SequenceBefore, VerifiedAt;
    stats, handled := ServeConnection(c, rejection);
    forall i: nat | i < |handled|
      ensures handled[i].Verified? && i < c.maxFrames
      ensures c.events(i).Arrived? && handled[i] == Decode(c.hmac, c.events(i).bytes) && c.parses(handled[i].body)
    {
      HandledFacts(c, i);
    }
    forall i, j | 0 <= i < j < |handled| ensures handled[i].header.sequence < handled[j].header.sequence {
      SequencesIncrease(c, i, j);
    }
    if rejection == [] {
      var n := stats.framesServed;
      forall i: nat | i < n ensures c.events(i).writable {
        RepliedFacts(c, i);
      }
      if n == 0 {
        StartsAtZero(c);
      } else {
        TurnFacts(c, n - 1);
      }
      EndsExactly(c, n, if n == 0 then 0 else handled[n - 1].header.sequence);
    }
  }

  lemma HandledFacts(c: Setting, i: nat)
    requires HandledAt(c, i)
    ensures i < c.maxFrames && c.events(i).Arrived? && FrameAt(c, i) == Decode(c.hmac, c.events(i).bytes)
    ensures FrameAt(c, i).Verified? && c.parses(FrameAt(c, i).body)
  {
    hide Decode;
  }

  lemma RepliedFacts(c: Setting, i: nat)
    requires RepliedAt(c, i)
    ensures HandledAt(c, i) && c.events(i).Arrived? && c.events(i).writable
  {
    hide Decode;
  }

  // ---- Serve-thread slots ----

  /** Connections that passed the stop test, those whose accept path holds a slot,
      those being served, and the counters the loop keeps. A slot is leaked when
      the accept path fails between taking it and guarding it. */
  datatype Loop = Loop(
    live: nat,
    passed: set<nat>,
    opening: set<nat>,
    holders: set<nat>,
    leaked: nat,
    stopping: bool,
    busyRejected: nat,
    acquired: nat,
    released: nat)

  const IDLE := Loop(0, {}, {}, {}, 0, false, 0, 0, 0)

  /** The stop test is made outside the lock under which a slot is taken, and the
      open line is logged after it, before the guarded thread creation. */
  datatype Step =
    | TestStop(connection: nat)
    | Acquire(connection: nat)
    | LogThrows(connection: nat)
    | SpawnFails(connection: nat)
    | Spawned(connection: nat)
    | ThreadEnds(connection: nat)
    | RequestStop

  class ServeLoop {
    const maxConnections: nat
    var live: nat
    ghost var passed: set<nat>
    ghost var opening: set<nat>
    ghost var holders: set<nat>
    ghost var leaked: nat
    var stopping: bool
    var busyRejected: nat
    ghost var acquired: nat
    ghost var released: nat

    ghost function Value(): Loop
      reads this
    {
      Loop(live, passed, opening, holders, leaked, stopping, busyRejected, acquired, released)
    }

    constructor (maxConnections: nat)
      ensures this.maxConnections == maxConnections && Value() == IDLE
    {
      this.maxConnections := maxConnections;
      live, passed, opening, holders, leaked := 0, {}, {}, {}, 0;
      stopping, busyRejected, acquired, released := false, 0, 0, 0;
    }

    method RequestStopNow()
      modifies this`stopping
      ensures Value() == Apply(maxConnections, old(Value()), RequestStop)
    {
      stopping := true;
    }

    /** The first section of a dispatch: the unlocked stop test. */
    method PassStopTest(connection: nat) returns (goOn: bool)
      requires connection !in passed + opening + holders
      modifies this`passed
      ensures Value() == Apply(maxConnections, old(Value()), TestStop(connection))
      ensures goOn <==> connection in passed
    {
      if stopping {
        return false;
      }
      passed := passed + {connection};
      return true;
    }

    /** The second section, under the lock: a slot, or the busy answer. */
    method TakeSlot(connection: nat) returns (taken: bool)
      requires Consistent(maxConnections, Value()) && connection in passed
      modifies this`live, this`passed, this`opening, this`busyRejected, this`acquired
      ensures Value() == Apply(maxConnections, old(Value()), Acquire(connection))
      ensures taken <==> connection in opening
    {
      passed := passed - {connection};
      if live >= maxConnections {
        busyRejected := busyRejected + 1;
        return false;
      }
      live := live + 1;
      opening, acquired := opening + {connection}, acquired + 1;
      return true;
    }

    /** The rest of the accept path: the open line is logged outside the guard, so
        a throwing log leaves the slot taken; a thread that cannot be created
        gives it back. */
    method OpenConnection(connection: nat, logThrows: bool, spawns: bool) returns (served: bool)
      requires Consistent(maxConnections, Value()) && connection in opening
      modifies this`live, this`opening, this`holders, this`leaked, this`released
      ensures Value() == Apply(maxConnections, old(Value()),
                               if logThrows then LogThrows(connection)
                               else if spawns then Spawned(connection) else SpawnFails(connection))
      ensures served <==> !logThrows && spawns
    {
      opening := opening - {connection};
      if logThrows {
        leaked := leaked + 1;
        return false;
      }
      if spawns {
        holders := holders + {connection};
        return true;
      }
      if live > 0 {
        live := live - 1;
      }
      released := released + 1;
      return false;
    }

    /** A thread that ended gives its slot back; the guard on the counter never
        has to hold it back. */
    method ReleaseSlot(connection: nat)
      requires Consistent(maxConnections, Value()) && connection in holders
      modifies this`live, this`holders, this`released
      ensures Value() == Apply(maxConnections, old(Value()), ThreadEnds(connection))
      ensures live == old(live) - 1
    {
      assert live > 0;
      if live > 0 {
        live := live - 1;
      }
      holders, released := holders - {connection}, released + 1;
    }
  }

  function Apply(cap: nat, s: Loop, step: Step): Loop
  {
    match step
    case RequestStop => s.(stopping := true)
    case TestStop(connection) =>
      if s.stopping || connection in s.passed + s.opening + s.holders then s
      else s.(passed := s.passed + {connection})
    case Acquire(connection) =>
      if connection !in s.passed then s
      else if s.live >= cap then s.(passed := s.passed - {connection}, busyRejected := s.busyRejected + 1)
      else
        s.(live := s.live + 1, passed := s.passed - {connection}, opening := s.opening + {connection},
           acquired := s.acquired + 1)
    case LogThrows(connection) =>
      if connection !in s.opening then s else s.(opening := s.opening - {connection}, leaked := s.leaked + 1)
    case SpawnFails(connection) =>
      if connection !in s.opening then s else Lowered(s.(opening := s.opening - {connection}))
    case Spawned(connection) =>
      if connection !in s.opening then s
      else s.(opening := s.opening - {connection}, holders := s.holders + {connection})
    case ThreadEnds(connection) =>
      if connection !in s.holders then s else Lowered(s.(holders := s.holders - {connection}))
  }

  function Lowered(s: Loop): Loop
  {
    s.(live := if s.live > 0 then s.live - 1 else 0, released := s.released + 1)
  }

  /** What a loop in state s becomes by the given steps. */
  ghost function Continue(cap: nat, s: Loop, steps: seq<Step>): Loop
  {
    if steps == [] then s else Apply(cap, Continue(cap, s, steps[..|steps| - 1]), steps[|steps| - 1])
  }

  ghost predicate Consistent(cap: nat, s: Loop)
  {
    && s.live == |s.opening| + |s.holders| + s.leaked && s.live <= cap
    && s.acquired == s.released + s.live
    && s.passed !! s.opening && s.passed !! s.holders && s.opening !! s.holders
  }

  lemma OneLess(members: set<nat>, x: nat)
    requires x in members
    ensures |members - {x}| == |members| - 1
  {
  }

  lemma StepKeepsConsistent(cap: nat, s: Loop, step: Step)
    requires Consistent(cap, s)
    ensures Consistent(cap, Apply(cap, s, step))
    ensures s.leaked <= Apply(cap, s, step).leaked
    ensures s.leaked == cap ==> Apply(cap, s, step).acquired == s.acquired
  {
    if step.LogThrows? || step.SpawnFails? || step.Spawned? {
      OpeningKeepsConsistent(cap, s, step);
    } else if step.Acquire? {
      AcquireKeepsConsistent(cap, s, step.connection);
    } else if step.ThreadEnds? && step.connection in s.holders {
      OneLess(s.holders, step.connection);
    }
  }

  lemma AcquireKeepsConsistent(cap: nat, s: Loop, connection: nat)
    requires Consistent(cap, s)
    ensures Consistent(cap, Apply(cap, s, Acquire(connection)))
    ensures s.leaked == cap ==> Apply(cap, s, Acquire(connection)).acquired == s.acquired
  {
    if connection in s.passed {
      assert |s.opening + {connection}| == |s.opening| + 1;
    }
  }

  lemma OpeningKeepsConsistent(cap: nat, s: Loop, step: Step)
    requires Consistent(cap, s) && (step.LogThrows? || step.SpawnFails? || step.Spawned?)
    ensures Consistent(cap, Apply(cap, s, step))
  {
    if step.connection in s.opening {
      OneLess(s.opening, step.connection);
      assert |s.holders + {step.connection}| == |s.holders| + 1;
    }
  }

  /** Every connection that passes the stop test takes a slot, is turned away busy
      or is still on its way, and it is turned away exactly when the cap is
      reached. */
  lemma StepAccounts(cap: nat, s: Loop, step: Step)
    requires Consistent(cap, s)
    ensures var s' := Apply(cap, s, step);
            && |s'.passed| + s'.acquired + s'.busyRejected == |s.passed| + s.acquired + s.busyRejected
               + (if step.TestStop? && !s.stopping && step.connection !in s.passed + s.opening + s.holders then 1 else 0)
            && (s'.busyRejected != s.busyRejected <==>
                  step.Acquire? && step.connection in s.passed && s.live == cap)
            && (s'.acquired != s.acquired <==> step.Acquire? && step.connection in s.passed && s.live < cap)
            && (s'.leaked != s.leaked <==> step.LogThrows? && step.connection in s.opening)
            && (s'.stopping <==> s.stopping || step == RequestStop)
            && (forall x :: x in s'.holders <==>
                  (x in s.holders && step != ThreadEnds(x)) || (x in s.opening && step == Spawned(x)))
  {
    if step.Acquire? && step.connection in s.passed {
      OneLess(s.passed, step.connection);
    }
  }

  /** Over every interleaving the live count is the number of slots held or
      leaked, never exceeds the cap, and every slot acquired was released, is held
      or is leaked; the counter reads zero exactly when there are none. */
  lemma {:induction false} SlotsConserved(cap: nat, steps: seq<Step>)
    ensures var s := Continue(cap, IDLE, steps);
            && Consistent(cap, s)
            && (s.live == 0 <==> s.opening == {} && s.holders == {} && s.leaked == 0)
  {
    hide Apply;
    if steps != [] {
      SlotsConserved(cap, steps[..|steps| - 1]);
      StepKeepsConsistent(cap, Continue(cap, IDLE, steps[..|steps| - 1]), steps[|steps| - 1]);
    }
  }

  lemma ContinueStep(cap: nat, s: Loop, steps: seq<Step>, step: Step)
    ensures Continue(cap, s, steps + [step]) == Apply(cap, Continue(cap, s, steps), step)
  {
    assert (steps + [step])[..|steps|] == steps;
  }

  // ---- Leaked slots ----

  /** A log hook that throws once keeps a slot of every later state. */
  lemma ThrowingLogLeaks(cap: nat, connection: nat)
    requires cap > 0
    ensures var s := Continue(cap, IDLE, [TestStop(connection), Acquire(connection), LogThrows(connection)]);
            s.opening == {} && s.holders == {} && s.live == 1
  {
    ContinueStep(cap, IDLE, [], TestStop(connection));
    ContinueStep(cap, IDLE, [TestStop(connection)], Acquire(connection));
    ContinueStep(cap, IDLE, [TestStop(connection), Acquire(connection)], LogThrows(connection));
    assert [] + [TestStop(connection)] == [TestStop(connection)];
    assert [TestStop(connection)] + [Acquire(connection)] == [TestStop(connection), Acquire(connection)];
    assert [TestStop(connection), Acquire(connection)] + [LogThrows(connection)]
        == [TestStop(connection), Acquire(connection), LogThrows(connection)];
  }

  lemma {:induction false} LeaksStay(cap: nat, s: Loop, steps: seq<Step>)
    requires Consistent(cap, s)
    ensures Consistent(cap, Continue(cap, s, steps)) && s.leaked <= Continue(cap, s, steps).leaked
  {
    hide Apply;
    if steps != [] {
      var before := Continue(cap, s, steps[..|steps| - 1]);
      LeaksStay(cap, s, steps[..|steps| - 1]);
      StepKeepsConsistent(cap, before, steps[|steps| - 1]);
    }
  }

  /** The live count can still come down to zero, which is what the drain waits
      for, if and only if no slot was leaked. */
  lemma DrainsExactly(cap: nat, s: Loop)
    requires Consistent(cap, s)
    ensures (exists steps :: Continue(cap, s, steps).live == 0) <==> s.leaked == 0
  {
    if s.leaked == 0 {
      var steps := Emptying(cap, s);
    }
    if steps :| Continue(cap, s, steps).live == 0 {
      LeaksStay(cap, s, steps);
    }
  }

  lemma {:induction false} Emptying(cap: nat, s: Loop) returns (steps: seq<Step>)
    requires Consistent(cap, s) && s.leaked == 0
    ensures Continue(cap, s, steps).live == 0
    decreases s.live
  {
    if s.live == 0 {
      steps := [];
    } else {
      var step := SlotGivenBack(cap, s);
      StepKeepsConsistent(cap, s, step);
      var rest := Emptying(cap, Apply(cap, s, step));
      steps := [step] + rest;
      ContinueFirst(cap, s, step, rest);
    }
  }

  lemma {:induction false} ContinueFirst(cap: nat, s: Loop, step: Step, rest: seq<Step>)
    ensures Continue(cap, s, [step] + rest) == Continue(cap, Apply(cap, s, step), rest)
  {
    hide Apply;
    if rest == [] {
      assert [step] + rest == [] + [step];
      ContinueStep(cap, s, [], step);
    } else {
      var init, last := rest[..|rest| - 1], rest[|rest| - 1];
      ContinueFirst(cap, s, step, init);
      ContinueStep(cap, s, [step] + init, last);
      assert [step] + rest == ([step] + init) + [last];
    }
  }

  /** Some holder of a slot can give it back. */
  lemma SlotGivenBack(cap: nat, s: Loop) returns (step: Step)
    requires Consistent(cap, s) && s.live > s.leaked
    ensures Apply(cap, s, step) == Lowered(s).(opening := Apply(cap, s, step).opening,
                                               holders := Apply(cap, s, step).holders)
  {
    if s.holders != {} {
      var holder :| holder in s.holders;
      step := ThreadEnds(holder);
    } else {
      var connection :| connection in s.opening;
      step := SpawnFails(connection);
    }
  }

  // ---- After a stop request ----

  /** A connection that passed the stop test before the request still takes its
      slot after it. */
  lemma SlotTakenAfterStop(cap: nat, connection: nat)
    requires cap > 0
    ensures var steps := [TestStop(connection), RequestStop, Acquire(connection)];
            && Continue(cap, IDLE, steps[..2]).stopping
            && Continue(cap, IDLE, steps[..2]).live == 0
            && Continue(cap, IDLE, steps).opening == {connection}
  {
    var steps := [TestStop(connection), RequestStop, Acquire(connection)];
    assert steps[..3] == steps && steps[..2][..1] == steps[..1] && steps[..1][..0] == [];
    assert Continue(cap, IDLE, steps[..1]) == IDLE.(passed := {connection});
    assert Continue(cap, IDLE, steps[..2]) == IDLE.(passed := {connection}, stopping := true);
  }

  lemma StoppingStep(cap: nat, s: Loop, step: Step)
    requires s.stopping
    ensures var s' := Apply(cap, s, step);
            && s'.stopping && s'.passed <= s.passed
            && s.acquired <= s'.acquired && s'.acquired + |s'.passed| <= s.acquired + |s.passed|
            && s'.opening + s'.holders <= s.opening + s.holders + s.passed
  {
    if step.Acquire? && step.connection in s.passed {
      OneLess(s.passed, step.connection);
    }
  }

  /** Once stopping, connections past the test only become fewer; no more slots
      are ever taken than there were such connections, and only by them. */
  lemma {:induction false} StoppingOnlyAdmitsPassed(cap: nat, s: Loop, steps: seq<Step>)
    requires s.stopping
    ensures var s' := Continue(cap, s, steps);
            && s'.stopping && s'.passed <= s.passed
            && s.acquired <= s'.acquired && s'.acquired + |s'.passed| <= s.acquired + |s.passed|
            && s'.opening + s'.holders <= s.opening + s.holders + s.passed
  {
    hide Apply;
    if steps != [] {
      var before := Continue(cap, s, steps[..|steps| - 1]);
      StoppingOnlyAdmitsPassed(cap, s, steps[..|steps| - 1]);
      StoppingStep(cap, before, steps[|steps| - 1]);
    }
  }

  lemma {:induction false} NoSlotLeft(cap: nat, s: Loop, steps: seq<Step>)
    requires Consistent(cap, s) && s.leaked == cap
    ensures Continue(cap, s, steps).acquired == s.acquired
  {
    hide Apply;
    if steps != [] {
      var init := steps[..|steps| - 1];
      NoSlotLeft(cap, s, init);
      LeaksStay(cap, s, init);
      StepKeepsConsistent(cap, Continue(cap, s, init), steps[|steps| - 1]);
    }
  }

  /** A stop request is final, in that no continuation takes another slot,
      exactly when no connection is between the test and the lock, or every slot
      is leaked. */
  lemma StopIsFinalExactly(cap: nat, s: Loop)
    requires Consistent(cap, s) && s.stopping
    ensures (forall steps :: Continue(cap, s, steps).acquired == s.acquired) <==> s.passed == {} || s.leaked == cap
  {
    if s.passed == {} || s.leaked == cap {
      forall steps ensures Continue(cap, s, steps).acquired == s.acquired {
        if s.leaked == cap {
          NoSlotLeft(cap, s, steps);
        } else {
          StoppingOnlyAdmitsPassed(cap, s, steps);
        }
      }
    } else {
      var steps := OneMoreSlot(cap, s);
      assert Continue(cap, s, steps).acquired != s.acquired;
    }
  }

  /** The waiting connection takes a free slot, after one is given back if all
      are held. */
  lemma OneMoreSlot(cap: nat, s: Loop) returns (steps: seq<Step>)
    requires Consistent(cap, s) && s.passed != {} && s.leaked < cap
    ensures Continue(cap, s, steps).acquired == s.acquired + 1
  {
    var connection :| connection in s.passed;
    if s.live < cap {
      steps := [Acquire(connection)];
      ContinueStep(cap, s, [], Acquire(connection));
      assert [] + steps == steps;
    } else {
      var step := SlotGivenBack(cap, s);
      steps := [step, Acquire(connection)];
      ContinueFirst(cap, s, step, [Acquire(connection)]);
      ContinueStep(cap, Apply(cap, s, step), [], Acquire(connection));
      assert [step] + [Acquire(connection)] == steps && [] + [Acquire(connection)] == [Acquire(connection)];
    }
  }
}
