/** Extracting the event fields of a hook payload
    (src/adapter/zcode_event.cpp). */
module Payload {
  import opened Values
  import opened Scanner
  import opened Events

  /** "session_id" */
  const SESSION_ID: Bytes := [0x73, 0x65, 0x73, 0x73, 0x69, 0x6F, 0x6E, 0x5F, 0x69, 0x64]
  /** "sessionId" */
  const SESSION_ID_CAMEL: Bytes := [0x73, 0x65, 0x73, 0x73, 0x69, 0x6F, 0x6E, 0x49, 0x64]
  /** "hook_event_name" */
  const HOOK_EVENT_NAME: Bytes := [0x68, 0x6F, 0x6F, 0x6B, 0x5F, 0x65, 0x76, 0x65, 0x6E, 0x74, 0x5F, 0x6E, 0x61, 0x6D, 0x65]
  /** "event_name" */
  const EVENT_NAME: Bytes := [0x65, 0x76, 0x65, 0x6E, 0x74, 0x5F, 0x6E, 0x61, 0x6D, 0x65]
  /** "tool_name" */
  const TOOL_NAME: Bytes := [0x74, 0x6F, 0x6F, 0x6C, 0x5F, 0x6E, 0x61, 0x6D, 0x65]
  /** "toolName" */
  const TOOL_NAME_CAMEL: Bytes := [0x74, 0x6F, 0x6F, 0x6C, 0x4E, 0x61, 0x6D, 0x65]
  /** "command" */
  const COMMAND: Bytes := [0x63, 0x6F, 0x6D, 0x6D, 0x61, 0x6E, 0x64]
  /** "file_path" */
  const FILE_PATH: Bytes := [0x66, 0x69, 0x6C, 0x65, 0x5F, 0x70, 0x61, 0x74, 0x68]
  /** "filePath" */
  const FILE_PATH_CAMEL: Bytes := [0x66, 0x69, 0x6C, 0x65, 0x50, 0x61, 0x74, 0x68]
  /** "tool_input" */
  const TOOL_INPUT: Bytes := [0x74, 0x6F, 0x6F, 0x6C, 0x5F, 0x69, 0x6E, 0x70, 0x75, 0x74]
  /** "toolInput" */
  const TOOL_INPUT_CAMEL: Bytes := [0x74, 0x6F, 0x6F, 0x6C, 0x49, 0x6E, 0x70, 0x75, 0x74]

  datatype Fields = Fields(session: Bytes, event: Bytes, tool: Bytes, command: Bytes, filePath: Bytes)

  const NO_FIELDS := Fields([], [], [], [], [])

  datatype Extracted = Extracted(fields: Fields) | Oversize | UnreadablePayload

  // ---- What members mean ----

  predicate Wanted(key: Bytes, inner: bool)
  {
    if inner then key == COMMAND || key == FILE_PATH || key == FILE_PATH_CAMEL
    else key == SESSION_ID || key == SESSION_ID_CAMEL || key == HOOK_EVENT_NAME || key == EVENT_NAME
         || key == TOOL_NAME || key == TOOL_NAME_CAMEL
  }

  predicate NamesInput(key: Bytes)
  {
    key == TOOL_INPUT || key == TOOL_INPUT_CAMEL
  }

  function Assign(f: Fields, key: Bytes, value: Bytes): Fields
  {
    if key == SESSION_ID || key == SESSION_ID_CAMEL then f.(session := value)
    else if key == HOOK_EVENT_NAME || key == EVENT_NAME then f.(event := value)
    else if key == TOOL_NAME || key == TOOL_NAME_CAMEL then f.(tool := value)
    else if key == COMMAND then f.(command := value)
    else f.(filePath := value)
  }

  /** Where a member list ends and the fields collected by then. */
  datatype Collected = Collected(end: nat, fields: Fields)

  // ---- Collecting members ----

  /** The value of one member. A wanted inner value that is no readable string is
      skipped from wherever reading it stopped. */
  function MemberValue(text: Bytes, pos: nat, depth: nat, f: Fields, inner: bool, key: Bytes): (r: Option<Collected>)
    requires pos <= |text|
    ensures r.Some? ==> pos < r.value.end <= |text|
    decreases |text| - pos, 0
  {
    var scan := ScanString(text, pos);
    if Wanted(key, inner) && scan.Scanned? then Some(Collected(scan.end, Assign(f, key, scan.content)))
    else if Wanted(key, inner) && !inner then None
    else if !Wanted(key, inner) && !inner && NamesInput(key) && pos < |text| && text[pos] == OPEN_BRACE then
      Members(text, pos + 1, depth + 1, f, true)
    else
      var from := if Wanted(key, inner) then scan.end else pos;
      var end := if from <= |text| then Skip(text, from, depth + 1) else None;
      if end.None? then None else Some(Collected(end.value, f))
  }

  /** One turn of the member loop: the end of the list, or where it goes on. */
  datatype Turn = Ended(result: Option<Collected>) | Going(next: nat, fields: Fields)

  function NextMember(text: Bytes, pos: nat, depth: nat, f: Fields, inner: bool): (r: Turn)
    requires pos <= |text|
    ensures r.Ended? && r.result.Some? ==> pos < r.result.value.end <= |text|
    ensures r.Going? ==> pos < r.next <= |text|
    decreases |text| - pos, 1
  {
    var start := SkipBlank(text, pos);
    if start >= |text| then Ended(None)
    else if text[start] == CLOSE_BRACE then Ended(Some(Collected(start + 1, f)))
    else
      var value := MemberStart(text, start);
      if value.None? then Ended(None)
      else
        var member := MemberValue(text, value.value, depth, f, inner, ScanString(text, start).content);
        if member.None? then Ended(None) else AfterMember(text, member.value)
  }

  /** A comma continues the list and a brace ends it. */
  function AfterMember(text: Bytes, member: Collected): (r: Turn)
    requires member.end <= |text|
    ensures r.Ended? && r.result.Some? ==> member.end < r.result.value.end <= |text|
    ensures r.Going? ==> member.end < r.next <= |text|
  {
    var next := SkipBlank(text, member.end);
    if next >= |text| then Ended(None)
    else if text[next] == COMMA then Going(next + 1, member.fields)
    else if text[next] == CLOSE_BRACE then Ended(Some(Collected(next + 1, member.fields)))
    else Ended(None)
  }

  function Members(text: Bytes, pos: nat, depth: nat, f: Fields, inner: bool): (r: Option<Collected>)
    requires pos <= |text|
    ensures r.Some? ==> pos < r.value.end <= |text|
    decreases |text| - pos, 2
  {
    match NextMember(text, pos, depth, f, inner)
    case Ended(result) => result
    case Going(next, fields) => Members(text, next, depth, fields, inner)
  }

  function Extract(raw: Bytes): Extracted
  {
    if |raw| > MAX_BYTES then Oversize
    else
      var start := SkipBlank(raw, 0);
      if start >= |raw| || raw[start] != OPEN_BRACE then UnreadablePayload
      else
        var members := Members(raw, start + 1, ROOT_DEPTH, NO_FIELDS, false);
        if members.None? || SkipBlank(raw, members.value.end) != |raw| then UnreadablePayload
        else Extracted(members.value.fields)
  }

  // ---- The extraction, with its cursor and its output record ----

  class Extraction {
    var fields: Fields

    constructor ()
      ensures fields == NO_FIELDS
    {
      fields := NO_FIELDS;
    }

    method TakeValue(text: Bytes, pos: nat, depth: nat, inner: bool, key: Bytes) returns (end: Option<nat>)
      requires pos <= |text|
      modifies this
      ensures var r := MemberValue(text, pos, depth, old(fields), inner, key);
              end.Some? == r.Some? && (r.Some? ==> r.value == Collected(end.value, fields))
      decreases |text| - pos, 0
    {
      hide ScanString, Skip, Members;
      var wanted := Wanted(key, inner);
      if wanted {
        var from := pos;
        if pos < |text| && text[pos] == QUOTE {
          var ok, stop, value := ScanStringAt(text, pos, true);
          if ok {
            fields := Assign(fields, key, value);
            return Some(stop);
          }
          from := stop;
        } else {
          NoString(text, pos);
        }
        if !inner {
          return None;
        }
        if from < |text| {
          end := SkipValue(text, from, depth + 1);
          return;
        }
        EndSkipsNothing(text, from, depth + 1);
        return None;
      }
      if !inner && NamesInput(key) && pos < |text| && text[pos] == OPEN_BRACE {
        end := ParseMembers(text, pos + 1, depth + 1, true);
        return;
      }
      end := SkipValue(text, pos, depth + 1);
    }

    method TakeMember(text: Bytes, pos: nat, depth: nat, inner: bool) returns (more: bool, end: Option<nat>)
      requires pos <= |text|
      modifies this
      ensures var r := NextMember(text, pos, depth, old(fields), inner);
              if more then end.Some? && r == Going(end.value, fields)
              else r.Ended? && end.Some? == r.result.Some?
                   && (end.Some? ==> r.result.value == Collected(end.value, fields))
      decreases |text| - pos, 1
    {
      hide ScanString, MemberStart, MemberValue, RunEnd;
      var start := SkipRun(text, pos, Blank);
      if start >= |text| {
        return false, None;
      }
      if text[start] == CLOSE_BRACE {
        return false, Some(start + 1);
      }
      var value, key := FindMemberStart(text, start);
      if value.None? {
        return false, None;
      }
      var stop := TakeValue(text, value.value, depth, inner, key);
      if stop.None? {
        return false, None;
      }
      var next := SkipRun(text, stop.value, Blank);
      if next < |text| && text[next] == COMMA {
        return true, Some(next + 1);
      }
      if next < |text| && text[next] == CLOSE_BRACE {
        return false, Some(next + 1);
      }
      return false, None;
    }

    method ParseMembers(text: Bytes, pos: nat, depth: nat, inner: bool) returns (end: Option<nat>)
      requires pos <= |text|
      modifies this
      ensures var r := Members(text, pos, depth, old(fields), inner);
              end.Some? == r.Some? && (r.Some? ==> r.value == Collected(end.value, fields))
      decreases |text| - pos, 2
    {
      hide NextMember;
      var cursor := pos;
      while true
        invariant pos <= cursor <= |text|
        invariant Members(text, cursor, depth, fields, inner) == Members(text, pos, depth, old(fields), inner)
        decreases |text| - cursor
      {
        var more, next := TakeMember(text, cursor, depth, inner);
        if !more {
          return next;
        }
        cursor := next.value;
      }
    }
  }

  lemma NoString(text: Bytes, pos: nat)
    requires pos >= |text| || text[pos] != QUOTE
    ensures ScanString(text, pos) == Failed(pos)
  {
  }

  lemma EndSkipsNothing(text: Bytes, pos: nat, depth: nat)
    requires pos == |text|
    ensures Skip(text, pos, depth) == None
  {
  }

  method ExtractEvent(raw: Bytes) returns (r: Extracted)
    ensures r == Extract(raw)
  {
    hide Members, RunEnd;
    if |raw| > MAX_BYTES {
      return Oversize;
    }
    var out := new Extraction();
    var pos := SkipRun(raw, 0, Blank);
    if pos >= |raw| || raw[pos] != OPEN_BRACE {
      return UnreadablePayload;
    }
    var end := out.ParseMembers(raw, pos + 1, ROOT_DEPTH, false);
    if end.None? {
      return UnreadablePayload;
    }
    assert end.value <= |raw|;
    pos := SkipRun(raw, end.value, Blank);
    if pos != |raw| {
      return UnreadablePayload;
    }
    return Extracted(out.fields);
  }

  // ---- The names of the fields ----

  lemma KeysSpelled()
    ensures SESSION_ID == Ascii("session_id") && SESSION_ID_CAMEL == Ascii("sessionId")
    ensures HOOK_EVENT_NAME == Ascii("hook_event_name") && EVENT_NAME == Ascii("event_name")
    ensures TOOL_NAME == Ascii("tool_name") && TOOL_NAME_CAMEL == Ascii("toolName")
    ensures COMMAND == Ascii("command")
    ensures FILE_PATH == Ascii("file_path") && FILE_PATH_CAMEL == Ascii("filePath")
    ensures TOOL_INPUT == Ascii("tool_input") && TOOL_INPUT_CAMEL == Ascii("toolInput")
  {
  }

  /** Which keys are read, at which level, and which field each one sets. */
  lemma FieldsByName(f: Fields, key: Bytes, value: Bytes)
    ensures var session := key == SESSION_ID || key == SESSION_ID_CAMEL;
            var event := key == HOOK_EVENT_NAME || key == EVENT_NAME;
            var tool := key == TOOL_NAME || key == TOOL_NAME_CAMEL;
            var command := key == COMMAND;
            var filePath := key == FILE_PATH || key == FILE_PATH_CAMEL;
            && (Wanted(key, false) <==> session || event || tool)
            && (Wanted(key, true) <==> command || filePath)
            && (NamesInput(key) <==> key == TOOL_INPUT || key == TOOL_INPUT_CAMEL)
            && (session ==> Assign(f, key, value) == Fields(value, f.event, f.tool, f.command, f.filePath))
            && (event ==> Assign(f, key, value) == Fields(f.session, value, f.tool, f.command, f.filePath))
            && (tool ==> Assign(f, key, value) == Fields(f.session, f.event, value, f.command, f.filePath))
            && (command ==> Assign(f, key, value) == Fields(f.session, f.event, f.tool, value, f.filePath))
            && (filePath ==> Assign(f, key, value) == Fields(f.session, f.event, f.tool, f.command, value))
  {
  }

  /** A payload of more than 1048576 octets, and no other, is refused as too
      large. */
  lemma OversizeExactly(raw: Bytes)
    ensures Extract(raw) == Oversize <==> |raw| > 1_048_576
  {
    hide Members;
  }
}
