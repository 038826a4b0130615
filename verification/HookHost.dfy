/** The hook surface of the runtime host (src/host/runtime_host.cpp). One mutex
    serializes its steps; what the journal, the profile and the judgment answer
    along the way are inputs of each step. */
module HookHost {
  import opened Values

  type Handle = Bytes
  type Tool = Bytes

  datatype Session = Session(lastSeen: nat, degraded: set<Tool>, outstanding: map<Tool, nat>)

  datatype Mode = Starting | Running | Draining

  datatype Kind =
    | SessionRegistered
    | Admitted
    | Correlated
    | Indeterminate
    | DeniedScopeMismatch
    | DeniedUnknownTool
    | DeniedOutstanding
    | DeniedNoTarget
    | DeniedProfileUnavailable
    | DeniedExpiredCognition
    | DeniedGoverned
    | Unmatched
    | ShutdownRequested

  /** One audit append; `action` is meaningful for admits and closes. */
  datatype Event = Event(kind: Kind, action: nat, tool: Tool)

  datatype Host = Host(mode: Mode, shuttingDown: bool, sessions: map<Handle, Session>, log: seq<Event>, nextId: nat)

  /** What judging the target of a call finds. */
  datatype Target = NoTarget | ProfileUnavailable | Judged(governed: bool)

  /** What the host reads while serving one hook event. */
  datatype Reading = Reading(
    now: nat,
    sessionJournaled: bool,
    known: bool,
    target: Target,
    expired: bool,
    transactionOpened: bool,
    decisionBound: bool,
    decisionConsumed: bool)

  datatype Step =
    | SessionStart(handle: Handle, manifest: Bytes, inventory: Option<seq<Tool>>, reading: Reading)
    | PreTool(handle: Handle, tool: Tool, reading: Reading)
    | PostTool(handle: Handle, tool: Tool, reading: Reading)
    | Shutdown
    | RequestShutdown
    | Evict(now: nat, bound: nat)
    | Drain

  datatype Reply = Refused | Denied(kind: Kind) | Admit(action: nat) | Closed(action: nat) | Degraded | Acknowledged(degraded: bool)

  // ---- What each step does ----

  function Append(h: Host, kind: Kind, action: nat, tool: Tool): Host
  {
    h.(log := h.log + [Event(kind, action, tool)])
  }

  /** First contact mints the session; a mint that cannot be journaled is not
      cached. */
  function EnsureSession(h: Host, handle: Handle, r: Reading): Host
  {
    if handle in h.sessions then
      h.(sessions := h.sessions[handle := h.sessions[handle].(lastSeen := r.now)])
    else
      var h' := h.(nextId := h.nextId + 1);
      if !r.sessionJournaled then h'
      else Append(h'.(sessions := h.sessions[handle := Session(r.now, {}, map[])]), SessionRegistered, h.nextId, [])
  }

  function ServePreTool(h: Host, handle: Handle, tool: Tool, r: Reading): (Host, Reply)
  {
    var h' := EnsureSession(h, handle, r);
    if handle !in h'.sessions then (h', Refused)
    else
      var session := h'.sessions[handle];
      if tool in session.degraded then Deny(h', DeniedScopeMismatch, tool)
      else if !r.known then Deny(h', DeniedUnknownTool, tool)
      else if tool in session.outstanding then Deny(h', DeniedOutstanding, tool)
      else if r.target.NoTarget? then Deny(h', DeniedNoTarget, tool)
      else if r.target.ProfileUnavailable? then Deny(h', DeniedProfileUnavailable, tool)
      else
        var action, minted := h'.nextId, h'.(nextId := h'.nextId + 1);
        if !r.transactionOpened then (minted, Refused)
        else if r.target.governed && r.expired then Deny(minted, DeniedExpiredCognition, tool)
        else if r.target.governed then Deny(minted, DeniedGoverned, tool)
        else
          var bound := minted.(nextId := minted.nextId + 1);
          if !r.decisionBound || !r.decisionConsumed then (bound, Refused)
          else
            (Append(bound.(sessions := bound.sessions[handle :=
                      session.(outstanding := session.outstanding[tool := action])]), Admitted, action, tool),
             Admit(action))
  }

  function Deny(h: Host, kind: Kind, tool: Tool): (Host, Reply)
  {
    (Append(h, kind, 0, tool), Denied(kind))
  }

  function ServePostTool(h: Host, handle: Handle, tool: Tool, r: Reading): (Host, Reply)
  {
    var h' := EnsureSession(h, handle, r);
    if handle !in h'.sessions then (h', Degraded)
    else
      var session := h'.sessions[handle];
      if tool !in session.outstanding then (Append(h', Unmatched, 0, tool), Degraded)
      else
        var action := session.outstanding[tool];
        (Append(h'.(sessions := h'.sessions[handle := session.(outstanding := session.outstanding - {tool})],
                    nextId := h'.nextId + 1), Correlated, action, tool),
         Closed(action))
  }

  const COMMA: byte := 44

  /** "Bash", "Write" and "Edit", degraded when the profile cannot be read. */
  const MEDIATED: set<Tool> := {[66, 97, 115, 104], [87, 114, 105, 116, 101], [69, 100, 105, 116]}

  /** The tokens of a comma-separated list whose first token starts with
      `token`. */
  function TokensFrom(token: Bytes, list: Bytes): set<Bytes>
    decreases |list|
  {
    if list == [] then Named(token)
    else if list[0] == COMMA then Named(token) + TokensFrom([], list[1..])
    else TokensFrom(token + [list[0]], list[1..])
  }

  function Named(token: Bytes): set<Bytes>
  {
    if token == [] then {} else {token}
  }

  /** What a session start leaves degraded: an empty manifest declares nothing,
      an unreadable profile degrades the mediated tools, and otherwise the
      declared tools the manifest does not name. */
  function DegradedBy(degraded: set<Tool>, manifest: Bytes, inventory: Option<seq<Tool>>): set<Tool>
  {
    if manifest == [] then degraded
    else
      match inventory
      case None => MEDIATED
      case Some(tools) => set tool | tool in tools && tool !in TokensFrom([], manifest)
  }

  function ServeSessionStart(h: Host, handle: Handle, manifest: Bytes, inventory: Option<seq<Tool>>, r: Reading)
    : (Host, Reply)
  {
    var h' := EnsureSession(h, handle, r);
    if handle !in h'.sessions then (h', Refused)
    else
      var degraded := DegradedBy(h'.sessions[handle].degraded, manifest, inventory);
      (h'.(sessions := h'.sessions[handle := h'.sessions[handle].(degraded := degraded)]), Acknowledged(degraded != {}))
  }

  /** The state and reply of a served hook event. */
  function Serve(h: Host, step: Step): (Host, Reply)
    requires HookEvent(step)
  {
    match step
    case SessionStart(handle, manifest, inventory, r) => ServeSessionStart(h, handle, manifest, inventory, r)
    case PreTool(handle, tool, r) => ServePreTool(h, handle, tool, r)
    case PostTool(handle, tool, r) => ServePostTool(h, handle, tool, r)
  }

  predicate Idle(session: Session, now: nat, bound: nat)
  {
    session.outstanding == map[] && now > session.lastSeen && now - session.lastSeen > bound
  }

  function Closing(h: Host): Host
  {
    h.(mode := if h.mode.Running? then Draining else h.mode, shuttingDown := true)
  }

  // ---- The host, updated in place ----

  class RuntimeHost {
    var mode: Mode
    var shuttingDown: bool
    var sessions: map<Handle, Session>
    var log: seq<Event>
    var nextId: nat

    ghost function State(): Host
      reads this
    {
      Host(mode, shuttingDown, sessions, log, nextId)
    }

    constructor ()
      ensures State() == Host(Starting, false, map[], [], 1)
    {
      mode, shuttingDown, sessions, log, nextId := Starting, false, map[], [], 1;
    }

    method Audit(kind: Kind, action: nat, tool: Tool)
      modifies this`log
      ensures State() == Append(old(State()), kind, action, tool)
    {
      log := log + [Event(kind, action, tool)];
    }

    method Mint() returns (id: nat)
      modifies this`nextId
      ensures id == old(nextId) && nextId == id + 1
    {
      id := nextId;
      nextId := nextId + 1;
    }

    method Ensure(handle: Handle, r: Reading) returns (found: bool)
      modifies this
      ensures State() == EnsureSession(old(State()), handle, r)
      ensures found <==> handle in sessions
    {
      if handle in sessions {
        sessions := sessions[handle := sessions[handle].(lastSeen := r.now)];
        return true;
      }
      var id := Mint();
      if !r.sessionJournaled {
        return false;
      }
      sessions := sessions[handle := Session(r.now, {}, map[])];
      Audit(SessionRegistered, id, []);
      return true;
    }

    method HandlePreTool(handle: Handle, tool: Tool, r: Reading) returns (reply: Reply)
      modifies this
      ensures (State(), reply) == ServePreTool(old(State()), handle, tool, r)
      ensures reply.Admit? <==>
              && (handle in old(sessions) || r.sessionJournaled)
              && (handle in old(sessions) ==>
                    tool !in old(sessions)[handle].degraded && tool !in old(sessions)[handle].outstanding)
              && r.known && r.target == Judged(false)
              && r.transactionOpened && r.decisionBound && r.decisionConsumed
    {
      var found := Ensure(handle, r);
      if !found {
        return Refused;
      }
      var session := sessions[handle];
      if tool in session.degraded {
        Audit(DeniedScopeMismatch, 0, tool);
        return Denied(DeniedScopeMismatch);
      }
      if !r.known {
        Audit(DeniedUnknownTool, 0, tool);
        return Denied(DeniedUnknownTool);
      }
      if tool in session.outstanding {
        Audit(DeniedOutstanding, 0, tool);
        return Denied(DeniedOutstanding);
      }
      if r.target.NoTarget? {
        Audit(DeniedNoTarget, 0, tool);
        return Denied(DeniedNoTarget);
      }
      if r.target.ProfileUnavailable? {
        Audit(DeniedProfileUnavailable, 0, tool);
        return Denied(DeniedProfileUnavailable);
      }
      var action := Mint();
      if !r.transactionOpened {
        return Refused;
      }
      if r.target.governed {
        var kind := if r.expired then DeniedExpiredCognition else DeniedGoverned;
        Audit(kind, 0, tool);
        return Denied(kind);
      }
      var decision := Mint();
      if !r.decisionBound || !r.decisionConsumed {
        return Refused;
      }
      sessions := sessions[handle := session.(outstanding := session.outstanding[tool := action])];
      Audit(Admitted, action, tool);
      return Admit(action);
    }

    method HandlePostTool(handle: Handle, tool: Tool, r: Reading) returns (reply: Reply)
      modifies this
      ensures (State(), reply) == ServePostTool(old(State()), handle, tool, r)
    {
      var found := Ensure(handle, r);
      if !found {
        return Degraded;
      }
      var session := sessions[handle];
      if tool !in session.outstanding {
        Audit(Unmatched, 0, tool);
        return Degraded;
      }
      var action := session.outstanding[tool];
      var fresh' := Mint();
      Audit(Correlated, action, tool);
      sessions := sessions[handle := session.(outstanding := session.outstanding - {tool})];
      return Closed(action);
    }

    method HandleSessionStart(handle: Handle, manifest: Bytes, inventory: Option<seq<Tool>>, r: Reading)
      returns (reply: Reply)
      modifies this
      ensures (State(), reply) == ServeSessionStart(old(State()), handle, manifest, inventory, r)
    {
      var found := Ensure(handle, r);
      if !found {
        return Refused;
      }
      var degraded := sessions[handle].degraded;
      if manifest != [] {
        if inventory.None? {
          degraded := MEDIATED;
        } else {
          degraded := Mismatched(manifest, inventory.value);
        }
        sessions := sessions[handle := sessions[handle].(degraded := degraded)];
      }
      assert sessions == sessions[handle := sessions[handle].(degraded := degraded)];
      return Acknowledged(degraded != {});
    }

    /** A hook event is served only while running and not shutting down. */
    method HandleHookEvent(step: Step) returns (reply: Reply)
      requires HookEvent(step)
      modifies this
      ensures Next(old(State()), step, State())
      ensures (State(), reply) == if Serving(old(State())) then Serve(old(State()), step) else (old(State()), Refused)
    {
      if !mode.Running? || shuttingDown {
        return Refused;
      }
      match step
      case SessionStart(handle, manifest, inventory, r) =>
        reply := HandleSessionStart(handle, manifest, inventory, r);
      case PreTool(handle, tool, r) => reply := HandlePreTool(handle, tool, r);
      case PostTool(handle, tool, r) => reply := HandlePostTool(handle, tool, r);
    }

    method EvictIdleSessions(now: nat, bound: nat)
      modifies this`sessions
      ensures State() == old(State()).(sessions := Evicted(old(sessions), now, bound))
    {
      var handles := sessions.Keys;
      while handles != {}
        invariant handles <= sessions.Keys <= old(sessions).Keys
        invariant forall h :: h in handles ==> sessions[h] == old(sessions)[h]
        invariant forall h :: h in old(sessions) && h !in handles ==>
                    (h in sessions <==> !Idle(old(sessions)[h], now, bound))
                    && (h in sessions ==> sessions[h] == old(sessions)[h])
        decreases |handles|
      {
        var h :| h in handles;
        if Idle(sessions[h], now, bound) {
          sessions := sessions - {h};
        }
        handles := handles - {h};
      }
    }

    method HandleShutdown()
      modifies this
      ensures State() == Closing(Append(old(State()), ShutdownRequested, 0, []))
    {
      Audit(ShutdownRequested, 0, []);
      shuttingDown := true;
      if mode.Running? {
        mode := Draining;
      }
    }

    method DrainHost()
      requires Injective(sessions)
      modifies this
      ensures DrainStep(old(State()), State())
    {
      if mode.Running? {
        mode := Draining;
      }
      shuttingDown := true;
      MarkOutstanding();
    }

    method MarkOutstanding()
      requires Injective(sessions)
      modifies this`sessions, this`log
      ensures Cleared(old(sessions), sessions)
      ensures MarksOnly(old(log), log, ActionsOf(old(sessions), old(sessions).Keys))
      ensures NamesCalls(old(log), log, old(sessions))
    {
      hide Injective, MarksOnly, ActionsOf, SessionActions, NamesCalls, MarksOf;
      ghost var was := sessions;
      var handles := sessions.Keys;
      NothingMarked(log, was, handles);
      NothingNamed(log, was);
      while handles != {}
        invariant sessions.Keys == was.Keys && handles <= was.Keys
        invariant forall h :: h in handles ==> sessions[h] == was[h]
        invariant forall h :: h in was && h !in handles ==> sessions[h] == was[h].(outstanding := map[])
        invariant MarksOnly(old(log), log, ActionsOf(was, was.Keys - handles))
        invariant NamesCalls(old(log), log, was)
        decreases |handles|
      {
        var h :| h in handles;
        ghost var before := log;
        OneMoreSession(was, handles, h);
        MarkSession(sessions[h]);
        MarksCompose(old(log), before, log, ActionsOf(was, was.Keys - handles), SessionActions(was[h]));
        NamesMore(old(log), before, log, was, h);
        sessions := sessions[h := sessions[h].(outstanding := map[])];
        handles := handles - {h};
      }
      assert was.Keys - handles == was.Keys;
    }

    method MarkSession(session: Session)
      requires InjectiveTools(session)
      modifies this`log
      ensures MarksOnly(old(log), log, SessionActions(session))
      ensures MarksOf(old(log), log, session)
    {
      var tools := session.outstanding.Keys;
      ghost var marked: set<nat> := {};
      assert MarksOf(log, log, session);
      while tools != {}
        invariant tools <= session.outstanding.Keys
        invariant forall t :: t in session.outstanding ==> (session.outstanding[t] in marked <==> t !in tools)
        invariant marked <= SessionActions(session)
        invariant MarksOnly(old(log), log, marked)
        invariant MarksOf(old(log), log, session)
        decreases |tools|
      {
        hide MarksOnly, MarksOf;
        var t :| t in tools;
        var action := session.outstanding[t];
        MarkOne(old(log), log, marked, action, t);
        MarkNamed(old(log), log, session, t);
        log := log + [Event(Indeterminate, action, t)];
        marked := marked + {action};
        tools := tools - {t};
      }
      assert marked == SessionActions(session);
    }
  }

  // ---- The manifest ----

  /** Splits the manifest at its commas, dropping empty tokens. */
  method DeclaredTokens(manifest: Bytes) returns (tokens: set<Bytes>)
    ensures tokens == TokensFrom([], manifest)
  {
    tokens := {};
    var token: Bytes := [];
    for i := 0 to |manifest|
      invariant tokens + TokensFrom(token, manifest[i..]) == TokensFrom([], manifest)
    {
      assert manifest[i..][1..] == manifest[i + 1..];
      if manifest[i] == COMMA {
        tokens, token := tokens + Named(token), [];
      } else {
        token := token + [manifest[i]];
      }
    }
    tokens := tokens + Named(token);
  }

  method Mismatched(manifest: Bytes, inventory: seq<Tool>) returns (degraded: set<Tool>)
    ensures degraded == set tool | tool in inventory && tool !in TokensFrom([], manifest)
  {
    var declared := DeclaredTokens(manifest);
    degraded := {};
    for i := 0 to |inventory|
      invariant degraded == set tool | tool in inventory[..i] && tool !in TokensFrom([], manifest)
    {
      assert inventory[..i + 1] == inventory[..i] + [inventory[i]];
      if inventory[i] !in declared {
        degraded := degraded + {inventory[i]};
      }
    }
    assert inventory[..|inventory|] == inventory;
  }

  /** The manifest holds the tool as a whole token, between commas or ends. */
  ghost predicate Declares(manifest: Bytes, tool: Bytes, i: nat)
  {
    && tool != [] && COMMA !in tool
    && i + |tool| <= |manifest| && manifest[i..i + |tool|] == tool
    && (i == 0 || manifest[i - 1] == COMMA)
    && (i + |tool| == |manifest| || manifest[i + |tool|] == COMMA)
  }

  lemma DeclaresWhole(token: Bytes, tool: Bytes, i: nat)
    requires COMMA !in token
    ensures Declares(token, tool, i) <==> i == 0 && tool == token != []
  {
    assert forall k :: 0 <= k < |token| ==> token[k] != COMMA;
    assert token[..|token|] == token;
  }

  lemma CommaWithin(list: Bytes, i: nat, j: nat, at: nat)
    requires i <= j <= |list| && at < |list| && list[at] == COMMA
    ensures i <= at < j ==> COMMA in list[i..j]
  {
    if i <= at < j {
      assert list[i..j][at - i] == COMMA;
    }
  }

  lemma DeclaresAfterComma(token: Bytes, rest: Bytes, tool: Bytes, i: nat)
    requires COMMA !in token
    ensures Declares(token + [COMMA] + rest, tool, |token| + 1 + i) <==> Declares(rest, tool, i)
    ensures i <= |token| ==> (Declares(token + [COMMA] + rest, tool, i) <==> i == 0 && tool == token != [])
  {
    hide Declares;
    DeclaresInRest(token, rest, tool, i);
    if i <= |token| {
      DeclaresFirst(token, rest, tool, i);
    }
  }

  lemma DeclaresInRest(token: Bytes, rest: Bytes, tool: Bytes, i: nat)
    ensures Declares(token + [COMMA] + rest, tool, |token| + 1 + i) <==> Declares(rest, tool, i)
  {
    var list := token + [COMMA] + rest;
    var j := |token| + 1 + i;
    assert list[|token|] == COMMA && forall k :: 0 <= k < |rest| ==> list[|token| + 1 + k] == rest[k];
    if i + |tool| <= |rest| {
      assert list[j..j + |tool|] == rest[i..i + |tool|];
    }
  }

  lemma DeclaresFirst(token: Bytes, rest: Bytes, tool: Bytes, i: nat)
    requires COMMA !in token && i <= |token|
    ensures Declares(token + [COMMA] + rest, tool, i) <==> i == 0 && tool == token != []
  {
    var list := token + [COMMA] + rest;
    assert list[..|token|] == token;
    assert forall k :: 0 <= k < |token| ==> list[k] == token[k] && token[k] != COMMA;
    if i + |tool| <= |list| {
      CommaWithin(list, i, i + |tool|, |token|);
    }
  }

  lemma {:induction false} TokensAreDeclared(token: Bytes, list: Bytes, tool: Bytes)
    requires COMMA !in token
    ensures tool in TokensFrom(token, list) <==> exists i: nat :: Declares(token + list, tool, i)
    decreases |list|
  {
    hide Declares;
    if list == [] {
      assert token + list == token;
      DeclaresWhole(token, tool, 0);
      forall i: nat ensures Declares(token, tool, i) <==> i == 0 && tool == token != [] {
        DeclaresWhole(token, tool, i);
      }
    } else if list[0] == COMMA {
      var rest := list[1..];
      assert token + list == token + [COMMA] + rest;
      TokensAreDeclared([], rest, tool);
      assert [] + rest == rest;
      if i: nat :| Declares(token + list, tool, i) {
        DeclaresAfterComma(token, rest, tool, if i <= |token| then i else i - |token| - 1);
      }
      if i: nat :| Declares(rest, tool, i) {
        DeclaresAfterComma(token, rest, tool, i);
      }
      DeclaresAfterComma(token, rest, tool, 0);
    } else {
      assert token + list == (token + [list[0]]) + list[1..];
      TokensAreDeclared(token + [list[0]], list[1..], tool);
    }
  }

  /** With a readable profile, a session start degrades exactly the inventory's
      tools that the manifest does not hold as a whole token. */
  lemma DegradedExactly(degraded: set<Tool>, manifest: Bytes, inventory: seq<Tool>, tool: Tool)
    requires manifest != []
    ensures tool in DegradedBy(degraded, manifest, Some(inventory)) <==>
            tool in inventory && !exists i: nat :: Declares(manifest, tool, i)
  {
    hide Declares;
    TokensAreDeclared([], manifest, tool);
    assert [] + manifest == manifest;
  }

  // ---- Drain and eviction as relations ----

  ghost function Evicted(sessions: map<Handle, Session>, now: nat, bound: nat): map<Handle, Session>
  {
    map h | h in sessions && !Idle(sessions[h], now, bound) :: sessions[h]
  }

  ghost function ActionsOf(sessions: map<Handle, Session>, handles: set<Handle>): set<nat>
  {
    set h, t | h in handles && h in sessions && t in sessions[h].outstanding :: sessions[h].outstanding[t]
  }

  ghost function SessionActions(session: Session): set<nat>
  {
    set t | t in session.outstanding :: session.outstanding[t]
  }

  ghost predicate InjectiveTools(session: Session)
  {
    forall t, u :: t in session.outstanding && u in session.outstanding && t != u ==>
      session.outstanding[t] != session.outstanding[u]
  }

  /** No two outstanding calls share an action. */
  ghost predicate Injective(sessions: map<Handle, Session>)
  {
    && (forall h :: h in sessions ==> InjectiveTools(sessions[h]))
    && (forall h, g :: h in sessions && g in sessions && h != g ==>
          SessionActions(sessions[h]) !! SessionActions(sessions[g]))
  }

  lemma OneMoreSession(sessions: map<Handle, Session>, handles: set<Handle>, h: Handle)
    requires Injective(sessions) && h in handles && handles <= sessions.Keys
    ensures InjectiveTools(sessions[h])
    ensures ActionsOf(sessions, sessions.Keys - handles) !! SessionActions(sessions[h])
    ensures ActionsOf(sessions, sessions.Keys - (handles - {h}))
            == ActionsOf(sessions, sessions.Keys - handles) + SessionActions(sessions[h])
  {
    hide InjectiveTools;
    forall a | a in ActionsOf(sessions, sessions.Keys - handles) ensures a !in SessionActions(sessions[h]) {
      var g, t :| g in sessions.Keys - handles && t in sessions[g].outstanding && sessions[g].outstanding[t] == a;
      assert a in SessionActions(sessions[g]);
    }
  }

  lemma NothingMarked(log: seq<Event>, sessions: map<Handle, Session>, handles: set<Handle>)
    requires handles == sessions.Keys
    ensures MarksOnly(log, log, ActionsOf(sessions, sessions.Keys - handles))
  {
    assert ActionsOf(sessions, sessions.Keys - handles) == {};
  }

  lemma NothingNamed(log: seq<Event>, sessions: map<Handle, Session>)
    ensures NamesCalls(log, log, sessions)
  {
  }

  lemma MarksCompose(a: seq<Event>, b: seq<Event>, c: seq<Event>, xs: set<nat>, ys: set<nat>)
    requires MarksOnly(a, b, xs) && MarksOnly(b, c, ys) && xs !! ys
    ensures MarksOnly(a, c, xs + ys)
  {
    assert multiset(xs + ys) == multiset(xs) + multiset(ys);
  }

  /** Audit ids of one kind, in order. */
  ghost function Ids(log: seq<Event>, kind: Kind): seq<nat>
  {
    if log == [] then []
    else
      var last := log[|log| - 1];
      Ids(log[..|log| - 1], kind) + if last.kind == kind then [last.action] else []
  }

  /** The log grew by one indeterminate mark per action of `actions`. */
  ghost predicate MarksOnly(log: seq<Event>, log': seq<Event>, actions: set<nat>)
  {
    && log <= log'
    && multiset(Ids(log', Indeterminate)) == multiset(Ids(log, Indeterminate)) + multiset(actions)
    && forall kind :: kind != Indeterminate ==> Ids(log', kind) == Ids(log, kind)
  }

  /** The event marks a call of the session, with its tool. */
  ghost predicate MarksCall(event: Event, session: Session)
  {
    event.kind == Indeterminate && event.tool in session.outstanding && session.outstanding[event.tool] == event.action
  }

  ghost predicate MarksOf(log: seq<Event>, log': seq<Event>, session: Session)
  {
    && |log| <= |log'| && log'[..|log|] == log
    && forall i :: |log| <= i < |log'| ==> MarksCall(log'[i], session)
  }

  lemma MarkNamed(log: seq<Event>, log': seq<Event>, session: Session, tool: Tool)
    requires MarksOf(log, log', session) && tool in session.outstanding
    ensures MarksOf(log, log' + [Event(Indeterminate, session.outstanding[tool], tool)], session)
  {
  }

  lemma NamesMore(log: seq<Event>, log': seq<Event>, log'': seq<Event>, sessions: map<Handle, Session>, h: Handle)
    requires NamesCalls(log, log', sessions) && h in sessions && MarksOf(log', log'', sessions[h])
    ensures NamesCalls(log, log'', sessions)
  {
    assert log''[..|log|] == log''[..|log'|][..|log|];
    forall i | |log| <= i < |log''| ensures exists g :: g in sessions && MarksCall(log''[i], sessions[g]) {
      if i < |log'| {
        assert log''[i] == log''[..|log'|][i];
      }
    }
  }

  /** Whatever the log gained marks a call some session had outstanding. */
  ghost predicate NamesCalls(log: seq<Event>, log': seq<Event>, sessions: map<Handle, Session>)
  {
    && |log| <= |log'| && log'[..|log|] == log
    && forall i :: |log| <= i < |log'| ==> exists h :: h in sessions && MarksCall(log'[i], sessions[h])
  }

  lemma MarkOne(log: seq<Event>, log': seq<Event>, actions: set<nat>, action: nat, tool: Tool)
    requires MarksOnly(log, log', actions) && action !in actions
    ensures MarksOnly(log, log' + [Event(Indeterminate, action, tool)], actions + {action})
  {
    var log'' := log' + [Event(Indeterminate, action, tool)];
    assert log''[..|log'|] == log';
  }

  ghost predicate Cleared(sessions: map<Handle, Session>, sessions': map<Handle, Session>)
  {
    && sessions'.Keys == sessions.Keys
    && forall h :: h in sessions ==> sessions'[h] == sessions[h].(outstanding := map[])
  }

  ghost predicate DrainStep(h: Host, h': Host)
  {
    && h' == Closing(h).(sessions := h'.sessions, log := h'.log)
    && Cleared(h.sessions, h'.sessions)
    && MarksOnly(h.log, h'.log, ActionsOf(h.sessions, h.sessions.Keys))
    && NamesCalls(h.log, h'.log, h.sessions)
  }

  predicate HookEvent(step: Step)
  {
    step.SessionStart? || step.PreTool? || step.PostTool?
  }

  predicate Serving(h: Host)
  {
    h.mode.Running? && !h.shuttingDown
  }

  /** One serialized step of the host. */
  ghost predicate Next(h: Host, step: Step, h': Host)
  {
    match step
    case SessionStart(handle, manifest, inventory, r) =>
      h' == if Serving(h) then ServeSessionStart(h, handle, manifest, inventory, r).0 else h
    case PreTool(handle, tool, r) => h' == if Serving(h) then ServePreTool(h, handle, tool, r).0 else h
    case PostTool(handle, tool, r) => h' == if Serving(h) then ServePostTool(h, handle, tool, r).0 else h
    case Shutdown => h' == Closing(Append(h, ShutdownRequested, 0, []))
    case RequestShutdown => h' == Closing(h)
    case Evict(now, bound) => h' == h.(sessions := Evicted(h.sessions, now, bound))
    case Drain => DrainStep(h, h')
  }
}
