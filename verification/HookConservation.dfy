/** Every admitted action is closed once: over any interleaving of hook events,
    eviction, shutdown and drain (src/host/runtime_host.cpp). */
module HookConservation {
  import opened Values
  import opened HookHost

  type Slot = (Handle, Tool)

  /** Outstanding calls, by session and tool. */
  ghost function Slots(sessions: map<Handle, Session>): set<Slot>
  {
    set handle, tool | handle in sessions && tool in sessions[handle].outstanding :: (handle, tool)
  }

  ghost function Calls(sessions: map<Handle, Session>): map<Slot, nat>
  {
    map slot | slot in Slots(sessions) :: sessions[slot.0].outstanding[slot.1]
  }

  ghost function Outstanding(h: Host): map<Slot, nat>
  {
    Calls(h.sessions)
  }

  ghost predicate OneToOne(m: map<Slot, nat>)
  {
    forall x, y :: x in m && y in m && x != y ==> m[x] != m[y]
  }

  /** Each admitted action is either closed by an outcome, marked indeterminate
      by a drain, or outstanding, and only one of these; ids never repeat. */
  ghost predicate Inv(h: Host)
  {
    && multiset(Ids(h.log, Admitted))
       == multiset(Ids(h.log, Correlated)) + multiset(Ids(h.log, Indeterminate))
          + multiset(Outstanding(h).Values)
    && OneToOne(Outstanding(h))
    && (forall id :: id in multiset(Ids(h.log, Admitted)) ==> id < h.nextId)
    && (forall id :: multiset(Ids(h.log, Admitted))[id] <= 1)
  }

  // ---- The four things a step can do to the books ----

  ghost predicate SameLog(h: Host, h': Host)
  {
    && Ids(h'.log, Admitted) == Ids(h.log, Admitted)
    && Ids(h'.log, Correlated) == Ids(h.log, Correlated)
    && Ids(h'.log, Indeterminate) == Ids(h.log, Indeterminate)
  }

  ghost predicate Quiet(h: Host, h': Host)
  {
    SameLog(h, h') && h'.nextId >= h.nextId && Outstanding(h') == Outstanding(h)
  }

  ghost predicate Admits(h: Host, h': Host, slot: Slot, action: nat)
  {
    && Ids(h'.log, Admitted) == Ids(h.log, Admitted) + [action]
    && Ids(h'.log, Correlated) == Ids(h.log, Correlated)
    && Ids(h'.log, Indeterminate) == Ids(h.log, Indeterminate)
    && h.nextId <= action < h'.nextId
    && slot !in Outstanding(h)
    && Outstanding(h') == Outstanding(h)[slot := action]
  }

  ghost predicate Closes(h: Host, h': Host, slot: Slot)
  {
    && slot in Outstanding(h)
    && Ids(h'.log, Admitted) == Ids(h.log, Admitted)
    && Ids(h'.log, Correlated) == Ids(h.log, Correlated) + [Outstanding(h)[slot]]
    && Ids(h'.log, Indeterminate) == Ids(h.log, Indeterminate)
    && h'.nextId >= h.nextId
    && Outstanding(h') == Outstanding(h) - {slot}
  }

  ghost predicate Abandons(h: Host, h': Host)
  {
    && Ids(h'.log, Admitted) == Ids(h.log, Admitted)
    && Ids(h'.log, Correlated) == Ids(h.log, Correlated)
    && multiset(Ids(h'.log, Indeterminate))
       == multiset(Ids(h.log, Indeterminate)) + multiset(Outstanding(h).Values)
    && h'.nextId >= h.nextId
    && Outstanding(h') == map[]
  }

  lemma AppendIds(h: Host, kind: Kind, action: nat, tool: Tool, of: Kind)
    ensures Ids(Append(h, kind, action, tool).log, of) == Ids(h.log, of) + if kind == of then [action] else []
  {
    assert (h.log + [Event(kind, action, tool)])[..|h.log|] == h.log;
  }

  /** Sessions that agree on their outstanding calls, the rest having none. */
  lemma SameCalls(sessions: map<Handle, Session>, sessions': map<Handle, Session>)
    requires forall h :: h in sessions ==> h in sessions' && sessions'[h].outstanding == sessions[h].outstanding
    requires forall h :: h in sessions' && h !in sessions ==> sessions'[h].outstanding == map[]
    ensures Calls(sessions') == Calls(sessions)
  {
    assert Slots(sessions') == Slots(sessions);
  }

  lemma EnsureQuiet(h: Host, handle: Handle, r: Reading)
    ensures Quiet(h, EnsureSession(h, handle, r))
  {
    hide Ids, Calls;
    SameCalls(h.sessions, EnsureSession(h, handle, r).sessions);
    if handle !in h.sessions && r.sessionJournaled {
      AppendQuiet(h.(nextId := h.nextId + 1, sessions := h.sessions[handle := Session(r.now, {}, map[])]),
                  SessionRegistered, h.nextId, []);
    }
  }

  lemma AppendQuiet(h: Host, kind: Kind, action: nat, tool: Tool)
    requires kind != Admitted && kind != Correlated && kind != Indeterminate
    ensures Quiet(h, Append(h, kind, action, tool))
  {
    AppendIds(h, kind, action, tool, Admitted);
    AppendIds(h, kind, action, tool, Correlated);
    AppendIds(h, kind, action, tool, Indeterminate);
  }

  lemma AdmitEffect(h: Host, handle: Handle, tool: Tool, action: nat)
    requires handle in h.sessions && tool !in h.sessions[handle].outstanding && action < h.nextId
    ensures var session := h.sessions[handle];
            var h' := Append(h.(sessions := h.sessions[handle := session.(outstanding := session.outstanding[tool := action])]),
                             Admitted, action, tool);
            Admits(h.(nextId := action), h', (handle, tool), action)
  {
    hide Calls, Ids;
    var session := h.sessions[handle];
    var h1 := h.(sessions := h.sessions[handle := session.(outstanding := session.outstanding[tool := action])]);
    AppendIds(h1, Admitted, action, tool, Admitted);
    AppendIds(h1, Admitted, action, tool, Correlated);
    AppendIds(h1, Admitted, action, tool, Indeterminate);
    CallAdded(h.sessions, handle, tool, action);
  }

  lemma CallAdded(sessions: map<Handle, Session>, handle: Handle, tool: Tool, action: nat)
    requires handle in sessions && tool !in sessions[handle].outstanding
    ensures var session := sessions[handle];
            var sessions' := sessions[handle := session.(outstanding := session.outstanding[tool := action])];
            (handle, tool) !in Calls(sessions) && Calls(sessions') == Calls(sessions)[(handle, tool) := action]
  {
    var session := sessions[handle];
    var sessions' := sessions[handle := session.(outstanding := session.outstanding[tool := action])];
    assert Slots(sessions') == Slots(sessions) + {(handle, tool)};
  }

  /** A call either admits one fresh action on a free slot, or moves nothing;
      it is never admitted for a governed, unknown or degraded target. */
  lemma PreToolEffect(h: Host, handle: Handle, tool: Tool, r: Reading)
    ensures var (h', reply) := ServePreTool(h, handle, tool, r);
            if reply.Admit? then Admits(h, h', (handle, tool), reply.action) && r.known && r.target == Judged(false)
            else Quiet(h, h')
  {
    var h1 := EnsureSession(h, handle, r);
    EnsureQuiet(h, handle, r);
    var (h', reply) := ServePreTool(h, handle, tool, r);
    hide EnsureSession, Ids, Calls;
    if handle in h1.sessions {
      if reply.Denied? {
        var minted := h1.(nextId := h1.nextId + 1);
        AppendQuiet(h1, reply.kind, 0, tool);
        AppendQuiet(minted, reply.kind, 0, tool);
      } else if reply.Admit? {
        var bound := h1.(nextId := h1.nextId + 2);
        AdmitEffect(bound, handle, tool, reply.action);
      }
    }
  }

  /** An observation closes exactly the call outstanding on its slot, or moves
      nothing. */
  lemma PostToolEffect(h: Host, handle: Handle, tool: Tool, r: Reading)
    ensures var (h', reply) := ServePostTool(h, handle, tool, r);
            if (handle, tool) in Outstanding(h) then
              Closes(h, h', (handle, tool)) && reply == Closed(Outstanding(h)[(handle, tool)])
            else Quiet(h, h')
  {
    var h1 := EnsureSession(h, handle, r);
    EnsureQuiet(h, handle, r);
    SlotOf(h1.sessions, handle, tool);
    hide Slots, Calls;
    if handle in h1.sessions {
      var session := h1.sessions[handle];
      if tool in session.outstanding {
        CloseEffect(h1.(nextId := h1.nextId + 1), handle, tool);
      } else {
        AppendQuiet(h1, Unmatched, 0, tool);
      }
    }
  }

  lemma SlotOf(sessions: map<Handle, Session>, handle: Handle, tool: Tool)
    ensures (handle, tool) in Calls(sessions) <==> handle in sessions && tool in sessions[handle].outstanding
    ensures (handle, tool) in Calls(sessions) ==> Calls(sessions)[(handle, tool)] == sessions[handle].outstanding[tool]
  {
  }

  lemma CloseEffect(h: Host, handle: Handle, tool: Tool)
    requires handle in h.sessions && tool in h.sessions[handle].outstanding
    ensures var session := h.sessions[handle];
            var h' := Append(h.(sessions := h.sessions[handle := session.(outstanding := session.outstanding - {tool})]),
                             Correlated, session.outstanding[tool], tool);
            Closes(h, h', (handle, tool))
  {
    hide Calls, Ids;
    var session := h.sessions[handle];
    var h1 := h.(sessions := h.sessions[handle := session.(outstanding := session.outstanding - {tool})]);
    var action := session.outstanding[tool];
    AppendIds(h1, Correlated, action, tool, Admitted);
    AppendIds(h1, Correlated, action, tool, Correlated);
    AppendIds(h1, Correlated, action, tool, Indeterminate);
    CallRemoved(h.sessions, handle, tool);
  }

  lemma CallRemoved(sessions: map<Handle, Session>, handle: Handle, tool: Tool)
    requires handle in sessions && tool in sessions[handle].outstanding
    ensures var session := sessions[handle];
            var sessions' := sessions[handle := session.(outstanding := session.outstanding - {tool})];
            && (handle, tool) in Calls(sessions) && Calls(sessions)[(handle, tool)] == session.outstanding[tool]
            && Calls(sessions') == Calls(sessions) - {(handle, tool)}
  {
    var session := sessions[handle];
    var sessions' := sessions[handle := session.(outstanding := session.outstanding - {tool})];
    assert (handle, tool) in Slots(sessions);
    assert Slots(sessions') == Slots(sessions) - {(handle, tool)};
  }

  lemma DrainEffect(h: Host, h': Host)
    requires DrainStep(h, h')
    ensures Abandons(h, h')
  {
    assert Slots(h'.sessions) == {};
    ActionsAreValues(h.sessions);
  }

  lemma ActionsAreValues(sessions: map<Handle, Session>)
    ensures ActionsOf(sessions, sessions.Keys) == Calls(sessions).Values
  {
    forall a | a in ActionsOf(sessions, sessions.Keys) ensures a in Calls(sessions).Values {
      var handle, tool :| handle in sessions && tool in sessions[handle].outstanding
        && sessions[handle].outstanding[tool] == a;
      assert (handle, tool) in Slots(sessions) && Calls(sessions)[(handle, tool)] == a;
    }
  }

  /** A drain may rely on distinct actions: the books guarantee them. */
  lemma OneToOneSessions(sessions: map<Handle, Session>)
    requires OneToOne(Calls(sessions))
    ensures Injective(sessions)
  {
    forall h, t | h in sessions && t in sessions[h].outstanding
      ensures (h, t) in Calls(sessions) && Calls(sessions)[(h, t)] == sessions[h].outstanding[t]
    {
      assert (h, t) in Slots(sessions);
    }
  }

  /** Eviction forgets idle sessions only, so no outstanding call is lost. */
  lemma EvictionLosesNothing(sessions: map<Handle, Session>, now: nat, bound: nat)
    ensures Calls(Evicted(sessions, now, bound)) == Calls(sessions)
  {
    assert Slots(Evicted(sessions, now, bound)) == Slots(sessions);
  }

  // ---- The books stay balanced ----

  lemma OneMoreCall(m: map<Slot, nat>, slot: Slot, action: nat)
    requires OneToOne(m) && slot !in m && action !in m.Values
    ensures OneToOne(m[slot := action]) && m[slot := action].Values == m.Values + {action}
  {
    var m' := m[slot := action];
    assert m'[slot] == action;
    assert forall s :: s in m ==> m'[s] == m[s] && m[s] in m.Values;
  }

  lemma OneCallLess(m: map<Slot, nat>, slot: Slot)
    requires OneToOne(m) && slot in m
    ensures OneToOne(m - {slot}) && (m - {slot}).Values == m.Values - {m[slot]} && m[slot] in m.Values
  {
    var m' := m - {slot};
    assert forall s :: s in m && s != slot ==> s in m' && m'[s] == m[s];
  }

  lemma AdmitsKeepsInv(h: Host, h': Host, slot: Slot, action: nat)
    requires Inv(h) && Admits(h, h', slot, action)
    ensures Inv(h')
  {
    hide Ids, Calls, OneToOne;
    assert multiset(Ids(h.log, Admitted))[action] == 0;
    OneMoreCall(Outstanding(h), slot, action);
  }

  lemma ClosesKeepsInv(h: Host, h': Host, slot: Slot)
    requires Inv(h) && Closes(h, h', slot)
    ensures Inv(h')
  {
    hide Ids, Calls, OneToOne;
    OneCallLess(Outstanding(h), slot);
  }

  lemma QuietKeepsInv(h: Host, h': Host)
    requires Inv(h) && Quiet(h, h')
    ensures Inv(h')
  {
  }

  lemma AbandonsKeepsInv(h: Host, h': Host)
    requires Inv(h) && Abandons(h, h')
    ensures Inv(h')
  {
    NoCalls(h');
    hide Ids, Calls;
  }

  /** Only a served call admits, only a served observation closes, only a drain
      abandons; everything else moves no action. */
  lemma NextEffect(h: Host, step: Step, h': Host)
    requires Next(h, step, h')
    ensures if step.PreTool? && Serving(h) && ServePreTool(h, step.handle, step.tool, step.reading).1.Admit? then
              Admits(h, h', (step.handle, step.tool), ServePreTool(h, step.handle, step.tool, step.reading).1.action)
            else if step.PostTool? && Serving(h) && (step.handle, step.tool) in Outstanding(h) then
              Closes(h, h', (step.handle, step.tool))
            else if step.Drain? then Abandons(h, h')
            else Quiet(h, h')
  {
    hide Ids, Calls, EnsureSession, DrainStep, Evicted;
    match step {
      case PreTool(handle, tool, r) => PreToolEffect(h, handle, tool, r);
      case PostTool(handle, tool, r) => PostToolEffect(h, handle, tool, r);
      case SessionStart(handle, manifest, inventory, r) => SessionStartQuiet(h, handle, manifest, inventory, r);
      case Shutdown => AppendQuiet(h, ShutdownRequested, 0, []);
      case RequestShutdown =>
      case Evict(now, bound) => EvictionLosesNothing(h.sessions, now, bound);
      case Drain => DrainEffect(h, h');
    }
  }

  lemma SessionStartQuiet(h: Host, handle: Handle, manifest: Bytes, inventory: Option<seq<Tool>>, r: Reading)
    ensures Quiet(h, ServeSessionStart(h, handle, manifest, inventory, r).0)
  {
    hide Ids, Calls, EnsureSession;
    EnsureQuiet(h, handle, r);
    SameCalls(EnsureSession(h, handle, r).sessions, ServeSessionStart(h, handle, manifest, inventory, r).0.sessions);
  }

  lemma NextKeepsInv(h: Host, step: Step, h': Host)
    requires Inv(h) && Next(h, step, h')
    ensures Inv(h')
  {
    NextEffect(h, step, h');
    hide Inv, Quiet, Admits, Closes, Abandons, Next, Calls, ServePreTool;
    if step.PreTool? && Serving(h) && ServePreTool(h, step.handle, step.tool, step.reading).1.Admit? {
      AdmitsKeepsInv(h, h', (step.handle, step.tool),
                     ServePreTool(h, step.handle, step.tool, step.reading).1.action);
    } else if step.PostTool? && Serving(h) && (step.handle, step.tool) in Outstanding(h) {
      ClosesKeepsInv(h, h', (step.handle, step.tool));
    } else if step.Drain? {
      AbandonsKeepsInv(h, h');
    } else {
      QuietKeepsInv(h, h');
    }
  }

  lemma NoCalls(h: Host)
    requires Outstanding(h) == map[]
    ensures OneToOne(Outstanding(h)) && Outstanding(h).Values == {}
  {
  }

  // ---- Whole runs ----

  /** A run: states[i] steps to states[i + 1] by steps[i]. */
  ghost predicate IsRun(states: seq<Host>, steps: seq<Step>)
  {
    && |states| == |steps| + 1
    && states[0].sessions == map[] && states[0].log == []
    && forall i :: 0 <= i < |steps| ==> Next(states[i], steps[i], states[i + 1])
  }

  lemma StartsBalanced(h: Host)
    requires h.sessions == map[] && h.log == []
    ensures Inv(h)
  {
    assert Slots(h.sessions) == {};
  }

  lemma {:induction false} RunKeepsInv(states: seq<Host>, steps: seq<Step>, n: nat)
    requires IsRun(states, steps) && n < |states|
    ensures Inv(states[n])
  {
    hide Inv, Next;
    if n == 0 {
      StartsBalanced(states[0]);
    } else {
      RunKeepsInv(states, steps, n - 1);
      assert Next(states[n - 1], steps[n - 1], states[n - 1 + 1]);
      NextKeepsInv(states[n - 1], steps[n - 1], states[n]);
    }
  }

  lemma {:induction false} ValuesCount(m: map<Slot, nat>)
    requires OneToOne(m)
    ensures |m.Values| == |m.Keys|
  {
    if m.Keys == {} {
      assert m.Values == {};
    } else {
      var slot :| slot in m;
      OneCallLess(m, slot);
      assert (m - {slot}).Keys == m.Keys - {slot};
      ValuesCount(m - {slot});
    }
  }

  /** At every point of every run: admits are outcomes plus drain marks plus
      outstanding calls, an action is admitted once and closed at most once,
      and only if it was admitted. */
  lemma HookActionsConserved(states: seq<Host>, steps: seq<Step>, n: nat)
    requires IsRun(states, steps) && n < |states|
    ensures var h := states[n];
            && |Ids(h.log, Admitted)| == |Ids(h.log, Correlated)| + |Ids(h.log, Indeterminate)| + |Slots(h.sessions)|
            && forall id: nat ::
                 && multiset(Ids(h.log, Admitted))[id] <= 1
                 && multiset(Ids(h.log, Correlated))[id] + multiset(Ids(h.log, Indeterminate))[id]
                    + (if id in Outstanding(h).Values then 1 else 0)
                    == multiset(Ids(h.log, Admitted))[id]
  {
    RunKeepsInv(states, steps, n);
    var h := states[n];
    ValuesCount(Outstanding(h));
    assert Outstanding(h).Keys == Slots(h.sessions);
    hide Ids, Calls, OneToOne, IsRun;
    assert |multiset(Ids(h.log, Admitted))| == |Ids(h.log, Admitted)|;
    assert |multiset(Outstanding(h).Values)| == |Outstanding(h).Values|;
  }

  /** Shutting down is final, and then nothing is admitted. */
  lemma ClosedHostAdmitsNothing(h: Host, step: Step, h': Host)
    requires h.shuttingDown && Next(h, step, h')
    ensures h'.shuttingDown && Ids(h'.log, Admitted) == Ids(h.log, Admitted)
    ensures Outstanding(h') == Outstanding(h) || Outstanding(h') == map[]
  {
    match step {
      case Shutdown => AppendQuiet(h, ShutdownRequested, 0, []);
      case Evict(now, bound) => EvictionLosesNothing(h.sessions, now, bound);
      case Drain => DrainEffect(h, h');
      case _ =>
    }
  }

  /** After a drain no call is outstanding and none is ever admitted again. */
  lemma {:induction false} DrainIsFinal(states: seq<Host>, steps: seq<Step>, i: nat, n: nat)
    requires IsRun(states, steps) && i < n < |states| && steps[i].Drain?
    ensures Slots(states[n].sessions) == {}
    ensures Ids(states[n].log, Admitted) == Ids(states[i].log, Admitted)
  {
    DrainHolds(states, steps, i, n);
    assert Outstanding(states[n]).Keys == Slots(states[n].sessions);
  }

  lemma {:induction false} DrainHolds(states: seq<Host>, steps: seq<Step>, i: nat, n: nat)
    requires IsRun(states, steps) && i < n < |states| && steps[i].Drain?
    ensures states[n].shuttingDown && Outstanding(states[n]) == map[]
    ensures Ids(states[n].log, Admitted) == Ids(states[i].log, Admitted)
  {
    hide Ids, Calls, EnsureSession;
    assert Next(states[n - 1], steps[n - 1], states[n - 1 + 1]);
    if n == i + 1 {
      DrainEffect(states[i], states[n]);
    } else {
      DrainHolds(states, steps, i, n - 1);
      ClosedHostAdmitsNothing(states[n - 1], steps[n - 1], states[n]);
    }
  }

  /** The balanced books are what lets a drain mark every outstanding action
      once; it keeps them and leaves nothing outstanding. */
  method DrainBalanced(host: RuntimeHost)
    requires Inv(host.State())
    modifies host
    ensures Inv(host.State()) && Abandons(old(host.State()), host.State())
  {
    hide Inv, Abandons, DrainStep;
    ghost var before := host.State();
    InvIsInjective(before);
    host.DrainHost();
    DrainEffect(before, host.State());
    AbandonsKeepsInv(before, host.State());
  }

  lemma InvIsInjective(h: Host)
    requires Inv(h)
    ensures Injective(h.sessions)
  {
    hide Ids, Calls;
    OneToOneSessions(h.sessions);
  }
}
