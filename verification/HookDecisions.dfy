/** What the hook surface decides, exactly: each reply in terms of the state
    before the call, and, over every run, in terms of the steps before it
    (src/host/runtime_host.cpp). */
module HookDecisions {
  import opened Values
  import opened HookHost
  import opened HookConservation

  // ---- One call ----

  /** The session is there, or can be minted and journaled. */
  predicate Reached(h: Host, handle: Handle, r: Reading)
  {
    handle in h.sessions || r.sessionJournaled
  }

  predicate DegradedIn(h: Host, handle: Handle, tool: Tool)
  {
    handle in h.sessions && tool in h.sessions[handle].degraded
  }

  predicate BusyIn(h: Host, handle: Handle, tool: Tool)
  {
    handle in h.sessions && tool in h.sessions[handle].outstanding
  }

  /** A call is admitted exactly when its session is reached and neither degrades
      the tool nor has it outstanding, the tool is known, its target is judged
      not governed, and the transaction opened and its decision was bound and
      consumed. Each denial has its own exact condition, and the rest is
      refused. */
  lemma PreToolExactly(h: Host, handle: Handle, tool: Tool, r: Reading)
    ensures var reply := ServePreTool(h, handle, tool, r).1;
            var reached, degraded, busy := Reached(h, handle, r), DegradedIn(h, handle, tool), BusyIn(h, handle, tool);
            var judged := reached && !degraded && r.known && !busy && r.target.Judged?;
            && (reply.Admit? <==>
                  && (handle in h.sessions || r.sessionJournaled)
                  && (handle in h.sessions ==>
                        tool !in h.sessions[handle].degraded && tool !in h.sessions[handle].outstanding)
                  && r.known && r.target == Judged(false)
                  && r.transactionOpened && r.decisionBound && r.decisionConsumed)
            && (reply == Denied(DeniedScopeMismatch) <==> reached && degraded)
            && (reply == Denied(DeniedUnknownTool) <==> reached && !degraded && !r.known)
            && (reply == Denied(DeniedOutstanding) <==> reached && !degraded && r.known && busy)
            && (reply == Denied(DeniedNoTarget) <==> reached && !degraded && r.known && !busy && r.target == NoTarget)
            && (reply == Denied(DeniedProfileUnavailable) <==>
                  reached && !degraded && r.known && !busy && r.target == ProfileUnavailable)
            && (reply == Denied(DeniedExpiredCognition) <==>
                  judged && r.target.governed && r.transactionOpened && r.expired)
            && (reply == Denied(DeniedGoverned) <==>
                  judged && r.target.governed && r.transactionOpened && !r.expired)
            && (reply == Refused <==>
                  || !reached
                  || (judged && (!r.transactionOpened
                                 || (!r.target.governed && !(r.decisionBound && r.decisionConsumed)))))
  {
  }

  /** What serving any event leaves besides its own effect: the session is there
      when it was reached, seen now, and no other session moved. */
  ghost predicate Visits(h: Host, handle: Handle, r: Reading, h': Host)
  {
    && h'.mode == h.mode && h'.shuttingDown == h.shuttingDown
    && h'.sessions.Keys == h.sessions.Keys + (if Reached(h, handle, r) then {handle} else {})
    && (forall g :: g in h.sessions && g != handle ==> h'.sessions[g] == h.sessions[g])
    && (handle in h'.sessions ==> h'.sessions[handle].lastSeen == r.now)
  }

  /** The registration a first contact appends, under the id it mints. */
  ghost function Registration(h: Host, handle: Handle, r: Reading): seq<Event>
  {
    if handle !in h.sessions && r.sessionJournaled then [Event(SessionRegistered, h.nextId, [])] else []
  }

  ghost function DegradedSet(h: Host, handle: Handle): set<Tool>
  {
    if handle in h.sessions then h.sessions[handle].degraded else {}
  }

  ghost function OutstandingOf(h: Host, handle: Handle): map<Tool, nat>
  {
    if handle in h.sessions then h.sessions[handle].outstanding else map[]
  }

  /** First contact alone: a session that is there is seen; otherwise one is
      minted, without degraded tools or calls, if it can be journaled. */
  lemma EnsureLeaves(h: Host, handle: Handle, r: Reading)
    ensures var h' := EnsureSession(h, handle, r);
            && Visits(h, handle, r, h')
            && DegradedSet(h', handle) == DegradedSet(h, handle)
            && OutstandingOf(h', handle) == OutstandingOf(h, handle)
            && h'.log == h.log + Registration(h, handle, r)
            && h'.nextId == h.nextId + (if handle in h.sessions then 0 else 1)
  {
  }

  /** What a call leaves: one audit event, its denial or its admission, and the
      admitted action on its tool under an id never used before. */
  lemma PreToolLeaves(h: Host, handle: Handle, tool: Tool, r: Reading)
    ensures var (h', reply) := ServePreTool(h, handle, tool, r);
            && Visits(h, handle, r, h')
            && DegradedSet(h', handle) == DegradedSet(h, handle)
            && h'.log == h.log + Registration(h, handle, r)
                         + (match reply
                            case Denied(kind) => [Event(kind, 0, tool)]
                            case Admit(action) => [Event(Admitted, action, tool)]
                            case _ => [])
            && OutstandingOf(h', handle) ==
               if reply.Admit? then OutstandingOf(h, handle)[tool := reply.action] else OutstandingOf(h, handle)
  {
    hide EnsureSession;
    EnsureLeaves(h, handle, r);
  }

  /** The ids a call uses: one for a new session, one for the action once its
      target is judged, which is the one admitted, and one for the decision. */
  lemma PreToolMints(h: Host, handle: Handle, tool: Tool, r: Reading)
    ensures var (h', reply) := ServePreTool(h, handle, tool, r);
            var minted := h.nextId + (if handle in h.sessions then 0 else 1);
            var judged := Reached(h, handle, r) && r.known && r.target.Judged?
                          && !DegradedIn(h, handle, tool) && !BusyIn(h, handle, tool);
            && (reply.Admit? ==> reply.action == minted)
            && h'.nextId == minted + (if !judged then 0 else if r.transactionOpened && !r.target.governed then 2 else 1)
  {
    hide EnsureSession;
    EnsureLeaves(h, handle, r);
  }

  /** An observation of an outstanding call closes it and audits the outcome; any
      other is audited as unmatched when its session is reached. */
  lemma PostToolLeaves(h: Host, handle: Handle, tool: Tool, r: Reading)
    ensures var (h', reply) := ServePostTool(h, handle, tool, r);
            && Visits(h, handle, r, h')
            && DegradedSet(h', handle) == DegradedSet(h, handle)
            && (if BusyIn(h, handle, tool) then
                  && reply == Closed(h.sessions[handle].outstanding[tool])
                  && h'.log == h.log + [Event(Correlated, reply.action, tool)]
                  && h'.nextId == h.nextId + 1
                  && OutstandingOf(h', handle) == OutstandingOf(h, handle) - {tool}
                else
                  && reply == Degraded
                  && h'.log == h.log + Registration(h, handle, r)
                               + (if Reached(h, handle, r) then [Event(Unmatched, 0, tool)] else [])
                  && h'.nextId == h.nextId + (if handle in h.sessions then 0 else 1)
                  && OutstandingOf(h', handle) == OutstandingOf(h, handle))
  {
    hide EnsureSession;
    EnsureLeaves(h, handle, r);
  }

  /** The manifest of a session start degrades the tool: the profile could not be
      read and the tool is one of the three mediated ones, or the profile lists
      it and the manifest does not hold it as a whole token. */
  ghost predicate DeclaredAway(manifest: Bytes, inventory: Option<seq<Tool>>, tool: Tool)
  {
    match inventory
    case None => tool == Ascii("Bash") || tool == Ascii("Write") || tool == Ascii("Edit")
    case Some(tools) => tool in tools && !exists i: nat :: Declares(manifest, tool, i)
  }

  lemma MediatedTools()
    ensures MEDIATED == {Ascii("Bash"), Ascii("Write"), Ascii("Edit")} && COMMA == ',' as int
  {
    assert Ascii("Bash") == [66, 97, 115, 104];
    assert Ascii("Write") == [87, 114, 105, 116, 101];
    assert Ascii("Edit") == [69, 100, 105, 116];
  }

  lemma DeclaredAwayExactly(degraded: set<Tool>, manifest: Bytes, inventory: Option<seq<Tool>>, tool: Tool)
    ensures tool in DegradedBy(degraded, manifest, inventory) <==>
            if manifest == [] then tool in degraded else DeclaredAway(manifest, inventory, tool)
  {
    hide TokensFrom, Declares;
    MediatedTools();
    if manifest != [] && inventory.Some? {
      DegradedExactly(degraded, manifest, inventory.value, tool);
    }
  }

  /** A session start that reaches its session replaces what it degrades by what
      its manifest declares away, unless the manifest is empty, and reports
      whether anything is degraded; it moves no call. */
  lemma SessionStartLeaves(h: Host, handle: Handle, manifest: Bytes, inventory: Option<seq<Tool>>, r: Reading)
    ensures var (h', reply) := ServeSessionStart(h, handle, manifest, inventory, r);
            && Visits(h, handle, r, h')
            && h'.log == h.log + Registration(h, handle, r)
            && OutstandingOf(h', handle) == OutstandingOf(h, handle)
            && h'.nextId == h.nextId + (if handle in h.sessions then 0 else 1)
            && reply == (if Reached(h, handle, r) then Acknowledged(DegradedSet(h', handle) != {}) else Refused)
            && forall tool :: tool in DegradedSet(h', handle) <==>
                 if Reached(h, handle, r) && manifest != [] then DeclaredAway(manifest, inventory, tool)
                 else tool in DegradedSet(h, handle)
  {
    hide DegradedBy, DeclaredAway;
    var h1 := EnsureSession(h, handle, r);
    if handle in h1.sessions {
      var degraded := h1.sessions[handle].degraded;
      forall tool ensures tool in DegradedBy(degraded, manifest, inventory) <==>
                          if manifest == [] then tool in degraded else DeclaredAway(manifest, inventory, tool)
      {
        DeclaredAwayExactly(degraded, manifest, inventory, tool);
      }
    }
  }

  /** A drain ends the host's service, keeps every session with what it degrades
      and when it was seen, leaves no call outstanding, and appends nothing but
      one mark, with its tool, for each call that was. */
  lemma DrainLeaves(h: Host, h': Host)
    requires DrainStep(h, h')
    ensures h'.shuttingDown && h'.nextId == h.nextId && h'.mode == (if h.mode.Running? then Draining else h.mode)
    ensures h'.sessions.Keys == h.sessions.Keys
    ensures forall g :: g in h.sessions ==>
              h'.sessions[g] == Session(h.sessions[g].lastSeen, h.sessions[g].degraded, map[])
    ensures h.log <= h'.log
    ensures forall i :: |h.log| <= i < |h'.log| ==>
              && h'.log[i].kind == Indeterminate
              && exists g :: g in h.sessions && h'.log[i].tool in h.sessions[g].outstanding
                             && h.sessions[g].outstanding[h'.log[i].tool] == h'.log[i].action
    ensures multiset(Ids(h'.log, Indeterminate)) == multiset(Ids(h.log, Indeterminate)) + multiset(Outstanding(h).Values)
  {
    hide Ids, Calls;
    ActionsAreValues(h.sessions);
  }

  // ---- Over runs: serving ----

  predicate Stops(step: Step)
  {
    step.Shutdown? || step.RequestShutdown? || step.Drain?
  }

  lemma NextServing(h: Host, step: Step, h': Host)
    requires Next(h, step, h')
    ensures Serving(h') <==> Serving(h) && !Stops(step)
    ensures Stops(step) ==> !h'.mode.Running?
  {
  }

  /** The host serves exactly while it started serving and no shutdown, shutdown
      request or drain has been taken. */
  lemma {:induction false} ServesExactly(states: seq<Host>, steps: seq<Step>, n: nat)
    requires IsRun(states, steps) && n < |states|
    ensures Serving(states[n]) <==> Serving(states[0]) && forall j :: 0 <= j < n ==> !Stops(steps[j])
  {
    hide Next;
    if n > 0 {
      ServesExactly(states, steps, n - 1);
      assert Next(states[n - 1], steps[n - 1], states[n - 1 + 1]);
      NextServing(states[n - 1], steps[n - 1], states[n]);
    }
  }

  // ---- Over runs: visits and eviction ----

  /** A hook event of this session is served at i. */
  ghost predicate VisitedAt(states: seq<Host>, steps: seq<Step>, handle: Handle, i: nat)
  {
    && i < |steps| && i < |states| && HookEvent(steps[i]) && Serving(states[i]) && steps[i].handle == handle
    && Reached(states[i], handle, steps[i].reading)
  }

  ghost predicate LastVisit(states: seq<Host>, steps: seq<Step>, handle: Handle, n: nat, i: nat)
  {
    && i < n && VisitedAt(states, steps, handle, i)
    && forall j :: i < j < n ==> !VisitedAt(states, steps, handle, j)
  }

  lemma ServeVisits(h: Host, step: Step)
    requires HookEvent(step)
    ensures Visits(h, step.handle, step.reading, Serve(h, step).0)
  {
    hide Visits, ServePreTool, ServePostTool, ServeSessionStart;
    match step
    case SessionStart(handle, manifest, inventory, r) => SessionStartLeaves(h, handle, manifest, inventory, r);
    case PreTool(handle, tool, r) => PreToolLeaves(h, handle, tool, r);
    case PostTool(handle, tool, r) => PostToolLeaves(h, handle, tool, r);
  }

  /** What any step means for one session's presence and clock. */
  lemma NextPresence(states: seq<Host>, steps: seq<Step>, handle: Handle, i: nat)
    requires i < |steps| && i + 1 < |states| && Next(states[i], steps[i], states[i + 1])
    ensures var h, h' := states[i], states[i + 1];
            && (VisitedAt(states, steps, handle, i) ==>
                  handle in h'.sessions && h'.sessions[handle].lastSeen == steps[i].reading.now)
            && (!VisitedAt(states, steps, handle, i) && handle in h'.sessions ==>
                  handle in h.sessions && h'.sessions[handle].lastSeen == h.sessions[handle].lastSeen)
            && (handle in h.sessions && !steps[i].Evict? ==> handle in h'.sessions)
            && (handle in h.sessions && steps[i].Evict? ==>
                  (handle !in h'.sessions <==>
                   && h.sessions[handle].outstanding == map[]
                   && h.sessions[handle].lastSeen + steps[i].bound < steps[i].now))
  {
    hide EnsureSession, ServePreTool, ServePostTool, ServeSessionStart;
    if HookEvent(steps[i]) {
      ServeVisits(states[i], steps[i]);
    }
  }

  /** Over every run a session's clock reads the time of the last event served
      for it, and an eviction forgets it exactly when it has no outstanding call
      and that event is further back than the bound. */
  lemma {:induction false} EvictedExactly(states: seq<Host>, steps: seq<Step>, handle: Handle, n: nat)
    requires IsRun(states, steps) && n < |states| && handle in states[n].sessions
    ensures exists i: nat :: LastVisit(states, steps, handle, n, i)
    ensures forall i: nat :: LastVisit(states, steps, handle, n, i) ==>
              && states[n].sessions[handle].lastSeen == steps[i].reading.now
              && (n < |steps| && steps[n].Evict? ==>
                    (handle !in states[n + 1].sessions <==>
                     states[n].sessions[handle].outstanding == map[]
                     && steps[i].reading.now + steps[n].bound < steps[n].now))
  {
    hide Next, VisitedAt;
    SeenAt(states, steps, handle, n);
    if n < |steps| {
      NextPresence(states, steps, handle, n);
    }
  }

  lemma {:induction false} SeenAt(states: seq<Host>, steps: seq<Step>, handle: Handle, n: nat)
    requires IsRun(states, steps) && n < |states| && handle in states[n].sessions
    ensures exists i: nat :: LastVisit(states, steps, handle, n, i)
    ensures forall i: nat :: LastVisit(states, steps, handle, n, i) ==>
              states[n].sessions[handle].lastSeen == steps[i].reading.now
  {
    hide Next;
    assert n > 0;
    var last := n - 1;
    assert Next(states[last], steps[last], states[last + 1]);
    NextPresence(states, steps, handle, last);
    if VisitedAt(states, steps, handle, last) {
      assert LastVisit(states, steps, handle, n, last);
    } else {
      SeenAt(states, steps, handle, last);
      var i: nat :| LastVisit(states, steps, handle, last, i);
      assert LastVisit(states, steps, handle, n, i);
      forall j: nat | LastVisit(states, steps, handle, n, j)
        ensures states[n].sessions[handle].lastSeen == steps[j].reading.now
      {
        assert LastVisit(states, steps, handle, last, j);
      }
    }
  }

  // ---- Over runs: degradation ----

  /** A served session start with a manifest re-declares the session's tools. */
  ghost predicate Redeclares(states: seq<Host>, steps: seq<Step>, handle: Handle, i: nat)
  {
    VisitedAt(states, steps, handle, i) && steps[i].SessionStart? && steps[i].manifest != []
  }

  /** The session start at i declared the tool away, none has re-declared since,
      and the session has not been evicted. */
  ghost predicate DegradedSince(states: seq<Host>, steps: seq<Step>, handle: Handle, tool: Tool, n: nat, i: nat)
  {
    && i < n < |states|
    && Redeclares(states, steps, handle, i)
    && DeclaredAway(steps[i].manifest, steps[i].inventory, tool)
    && (forall j :: i < j < n ==> !Redeclares(states, steps, handle, j))
    && forall j :: i < j <= n ==> handle in states[j].sessions
  }

  lemma NextDegraded(states: seq<Host>, steps: seq<Step>, handle: Handle, tool: Tool, i: nat)
    requires i < |steps| && i + 1 < |states| && Next(states[i], steps[i], states[i + 1])
    ensures DegradedIn(states[i + 1], handle, tool) <==>
            && handle in states[i + 1].sessions
            && if Redeclares(states, steps, handle, i) then DeclaredAway(steps[i].manifest, steps[i].inventory, tool)
               else DegradedIn(states[i], handle, tool)
  {
    hide EnsureSession, ServePreTool, ServePostTool, ServeSessionStart, DeclaredAway;
    var h, step := states[i], steps[i];
    if HookEvent(step) {
      match step
      case SessionStart(g, manifest, inventory, r) => SessionStartLeaves(h, g, manifest, inventory, r);
      case PreTool(g, t, r) => PreToolLeaves(h, g, t, r);
      case PostTool(g, t, r) => PostToolLeaves(h, g, t, r);
    }
  }

  /** Over every run a session degrades a tool exactly when its last session
      start with a manifest declared the tool away and the session has not been
      evicted since. */
  lemma {:induction false} DegradedExactlySince(states: seq<Host>, steps: seq<Step>, handle: Handle, tool: Tool, n: nat)
    requires IsRun(states, steps) && n < |states|
    ensures DegradedIn(states[n], handle, tool) <==>
            exists i: nat :: DegradedSince(states, steps, handle, tool, n, i)
  {
    hide Next, Redeclares, DeclaredAway;
    if n > 0 {
      var last := n - 1;
      assert Next(states[last], steps[last], states[last + 1]);
      DegradedExactlySince(states, steps, handle, tool, last);
      NextDegraded(states, steps, handle, tool, last);
      if DegradedIn(states[n], handle, tool) {
        if Redeclares(states, steps, handle, last) {
          assert DegradedSince(states, steps, handle, tool, n, last);
        } else {
          var i: nat :| DegradedSince(states, steps, handle, tool, last, i);
          assert DegradedSince(states, steps, handle, tool, n, i);
        }
      }
      if i: nat :| DegradedSince(states, steps, handle, tool, n, i) {
        assert i < last ==> DegradedSince(states, steps, handle, tool, last, i);
      }
    }
  }

  // ---- Over runs: admission ----

  ghost predicate AdmittedAt(states: seq<Host>, steps: seq<Step>, handle: Handle, tool: Tool, i: nat)
  {
    && i < |steps| && i < |states| && steps[i].PreTool? && steps[i].handle == handle && steps[i].tool == tool
    && Serving(states[i]) && ServePreTool(states[i], handle, tool, steps[i].reading).1.Admit?
  }

  /** The step at i ends whatever call is outstanding on the tool. */
  ghost predicate EndsAt(states: seq<Host>, steps: seq<Step>, handle: Handle, tool: Tool, i: nat)
  {
    && i < |steps| && i < |states|
    && (steps[i].Drain?
        || (Serving(states[i]) && steps[i].PostTool? && steps[i].handle == handle && steps[i].tool == tool))
  }

  ghost predicate BusySince(states: seq<Host>, steps: seq<Step>, handle: Handle, tool: Tool, n: nat, i: nat)
  {
    i < n && AdmittedAt(states, steps, handle, tool, i)
    && forall j :: i < j < n ==> !EndsAt(states, steps, handle, tool, j)
  }

  lemma NextBusy(states: seq<Host>, steps: seq<Step>, handle: Handle, tool: Tool, i: nat)
    requires i < |steps| && i + 1 < |states| && Next(states[i], steps[i], states[i + 1])
    ensures BusyIn(states[i + 1], handle, tool) <==>
            || AdmittedAt(states, steps, handle, tool, i)
            || (BusyIn(states[i], handle, tool) && !EndsAt(states, steps, handle, tool, i))
  {
    hide Ids, Calls, Next, ServePreTool, Serving;
    NextEffect(states[i], steps[i], states[i + 1]);
    SlotOf(states[i].sessions, handle, tool);
    SlotOf(states[i + 1].sessions, handle, tool);
  }

  /** Over every run a call is outstanding on a tool exactly when one was admitted
      and neither an observation of that tool nor a drain has come since. */
  lemma {:induction false} BusyExactlySince(states: seq<Host>, steps: seq<Step>, handle: Handle, tool: Tool, n: nat)
    requires IsRun(states, steps) && n < |states|
    ensures BusyIn(states[n], handle, tool) <==> exists i: nat :: BusySince(states, steps, handle, tool, n, i)
  {
    hide Next, AdmittedAt, EndsAt;
    if n > 0 {
      var last := n - 1;
      assert Next(states[last], steps[last], states[last + 1]);
      BusyExactlySince(states, steps, handle, tool, last);
      NextBusy(states, steps, handle, tool, last);
      if BusyIn(states[n], handle, tool) {
        if AdmittedAt(states, steps, handle, tool, last) {
          assert BusySince(states, steps, handle, tool, n, last);
        } else {
          var i: nat :| BusySince(states, steps, handle, tool, last, i);
          assert BusySince(states, steps, handle, tool, n, i);
        }
      }
      if i: nat :| BusySince(states, steps, handle, tool, n, i) {
        assert i < last ==> BusySince(states, steps, handle, tool, last, i);
      }
    }
  }

  /** Over every run, which calls are admitted, in terms of what came before: the
      host has not been told to stop, the session is known or is journaled now,
      no session start still in force declared the tool away, no call of the
      tool is open, and the reading clears the call. */
  lemma AdmitsExactly(states: seq<Host>, steps: seq<Step>, n: nat)
    requires IsRun(states, steps) && n < |steps| && steps[n].PreTool?
    ensures var handle, tool, r := steps[n].handle, steps[n].tool, steps[n].reading;
            AdmittedAt(states, steps, handle, tool, n) <==>
            && Serving(states[0]) && (forall j :: 0 <= j < n ==> !Stops(steps[j]))
            && (handle in states[n].sessions || r.sessionJournaled)
            && !(exists i: nat :: DegradedSince(states, steps, handle, tool, n, i))
            && !(exists i: nat :: BusySince(states, steps, handle, tool, n, i))
            && r.known && r.target == Judged(false)
            && r.transactionOpened && r.decisionBound && r.decisionConsumed
  {
    hide Next, DegradedSince, BusySince, ServePreTool, Serving;
    var handle, tool := steps[n].handle, steps[n].tool;
    ServesExactly(states, steps, n);
    DegradedExactlySince(states, steps, handle, tool, n);
    BusyExactlySince(states, steps, handle, tool, n);
    PreToolExactly(states[n], handle, tool, steps[n].reading);
  }

  /** A tool that a session start declared away is not admitted in that session
      until another session start re-declares it or the session is evicted. */
  lemma DegradedIsNotAdmitted(states: seq<Host>, steps: seq<Step>, handle: Handle, tool: Tool, i: nat, n: nat)
    requires IsRun(states, steps) && i < n < |steps|
    requires Redeclares(states, steps, handle, i) && DeclaredAway(steps[i].manifest, steps[i].inventory, tool)
    requires AdmittedAt(states, steps, handle, tool, n)
    ensures || (exists j :: i < j < n && Redeclares(states, steps, handle, j))
            || exists j :: i < j < n && steps[j].Evict? && handle in states[j].sessions && handle !in states[j + 1].sessions
  {
    hide Next, DeclaredAway, ServePreTool, VisitedAt;
    AdmitsExactly(states, steps, n);
    assert !DegradedSince(states, steps, handle, tool, n, i);
    if forall j :: i < j < n ==> !Redeclares(states, steps, handle, j) {
      var gone: nat :| i < gone <= n && handle !in states[gone].sessions;
      LeavesByEviction(states, steps, handle, i, gone);
    }
  }

  lemma {:induction false} LeavesByEviction(states: seq<Host>, steps: seq<Step>, handle: Handle, i: nat, n: nat)
    requires IsRun(states, steps) && i < n < |states|
    requires VisitedAt(states, steps, handle, i) && handle !in states[n].sessions
    ensures exists j :: i < j < n && steps[j].Evict? && handle in states[j].sessions && handle !in states[j + 1].sessions
  {
    hide Next, VisitedAt;
    var last := n - 1;
    assert Next(states[last], steps[last], states[last + 1]);
    NextPresence(states, steps, handle, last);
    assert last != i;
    if handle !in states[last].sessions {
      LeavesByEviction(states, steps, handle, i, last);
    } else {
      assert steps[last].Evict? && handle !in states[last + 1].sessions;
    }
  }

  /** Eviction does re-admit: for every session and tool there is a run in which
      a session start declares the tool away, an idle eviction forgets that, and
      the tool is admitted with no session start in between. */
  lemma EvictionForgetsDegradation(handle: Handle, tool: Tool) returns (states: seq<Host>, steps: seq<Step>)
    ensures IsRun(states, steps) && |steps| == 3
    ensures Redeclares(states, steps, handle, 0) && DeclaredAway(steps[0].manifest, steps[0].inventory, tool)
    ensures steps[1] == Evict(1, 0)
    ensures AdmittedAt(states, steps, handle, tool, 2)
  {
    var r := Reading(0, true, true, Judged(false), false, true, true, true);
    var start := Host(Running, false, map[], [], 1);
    steps := [SessionStart(handle, [COMMA], Some([tool]), r), Evict(1, 0), PreTool(handle, tool, r)];
    var started := ServeSessionStart(start, handle, [COMMA], Some([tool]), r).0;
    var evicted := started.(sessions := Evicted(started.sessions, 1, 0));
    var admitted := ServePreTool(evicted, handle, tool, r).0;
    states := [start, started, evicted, admitted];
    forall i: nat ensures !Declares([COMMA], tool, i) {
      CommaDeclaresNothing(tool, i);
    }
    SessionStartLeaves(start, handle, [COMMA], Some([tool]), r);
    hide ServeSessionStart, ServePreTool, Declares;
    assert handle !in evicted.sessions;
    PreToolExactly(evicted, handle, tool, r);
  }

  lemma CommaDeclaresNothing(tool: Tool, i: nat)
    ensures !Declares([COMMA], tool, i)
  {
    assert [] + [COMMA] + [] == [COMMA];
    hide Declares;
    if i == 0 {
      DeclaresAfterComma([], [], tool, i);
    } else {
      DeclaresAfterComma([], [], tool, i - 1);
      DeclaresWhole([], tool, i - 1);
    }
  }
}
