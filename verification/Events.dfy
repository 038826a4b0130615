/** Hook payloads: skipping values, collecting members and extracting the
    event fields (src/adapter/zcode_event.cpp). */
module Events {
  import opened Values
  import opened Scanner

  const OPEN_BRACE: byte := 0x7B
  const CLOSE_BRACE: byte := 0x7D
  const OPEN_BRACKET: byte := 0x5B
  const CLOSE_BRACKET: byte := 0x5D
  const COLON: byte := 0x3A
  const COMMA: byte := 0x2C

  const MAX_BYTES: nat := 1024 * 1024
  const MAX_DEPTH: nat := 16
  const ROOT_DEPTH: nat := 1

  const TRUE: Bytes := [0x74, 0x72, 0x75, 0x65]
  const FALSE: Bytes := [0x66, 0x61, 0x6C, 0x73, 0x65]
  const NULL: Bytes := [0x6E, 0x75, 0x6C, 0x6C]

  // ---- Whitespace, literals, numbers ----

  predicate Blank(b: byte)
  {
    b == 0x20 || b == 0x09 || b == 0x0D || b == 0x0A
  }

  predicate Numeric(b: byte)
  {
    0x30 <= b <= 0x39 || b == 0x2D || b == 0x2B || b == 0x2E || b == 0x65 || b == 0x45
  }

  /** The first position from pos on whose octet is not a member of the class. */
  function RunEnd(text: Bytes, pos: nat, member: byte -> bool): (r: nat)
    requires pos <= |text|
    ensures pos <= r <= |text|
    ensures forall i :: pos <= i < r ==> member(text[i])
    ensures r < |text| ==> !member(text[r])
    decreases |text| - pos
  {
    if pos < |text| && member(text[pos]) then RunEnd(text, pos + 1, member) else pos
  }

  function SkipBlank(text: Bytes, pos: nat): (r: nat)
    requires pos <= |text|
    ensures pos <= r <= |text|
  {
    RunEnd(text, pos, Blank)
  }

  method SkipRun(text: Bytes, pos: nat, member: byte -> bool) returns (end: nat)
    requires pos <= |text|
    ensures end == RunEnd(text, pos, member)
  {
    end := pos;
    while end < |text| && member(text[end])
      invariant pos <= end <= |text| && RunEnd(text, end, member) == RunEnd(text, pos, member)
    {
      end := end + 1;
    }
  }

  function Literal(text: Bytes, pos: nat, word: Bytes): (r: Option<nat>)
    requires pos <= |text|
    ensures r.Some? ==> r.value == pos + |word| <= |text|
  {
    if pos + |word| <= |text| && text[pos..pos + |word|] == word then Some(pos + |word|) else None
  }

  // ---- Skipping a value ----

  /** Past a member's key and colon: where its value starts. */
  function MemberStart(text: Bytes, pos: nat): (r: Option<nat>)
    requires pos <= |text|
    ensures r.Some? ==> pos < r.value <= |text|
  {
    var key := ScanString(text, pos);
    if key.Failed? then None
    else
      var colon := SkipBlank(text, key.end);
      if colon >= |text| || text[colon] != COLON then None else Some(SkipBlank(text, colon + 1))
  }

  function Skip(text: Bytes, pos: nat, depth: nat): (r: Option<nat>)
    requires pos <= |text|
    ensures r.Some? ==> pos < r.value <= |text|
    decreases |text| - pos, 0
  {
    if pos >= |text| || depth > MAX_DEPTH then None
    else
      var c := text[pos];
      if c == QUOTE then
        var scan := ScanString(text, pos);
        if scan.Scanned? then Some(scan.end) else None
      else if c == OPEN_BRACE || c == OPEN_BRACKET then SkipItems(text, pos + 1, c, depth + 1)
      else if c == 0x74 then Literal(text, pos, TRUE)
      else if c == 0x66 then Literal(text, pos, FALSE)
      else if c == 0x6E then Literal(text, pos, NULL)
      else if c == 0x2D || c == 0x2B || 0x30 <= c <= 0x39 then Some(RunEnd(text, pos, Numeric))
      else None
  }

  function Close(open: byte): byte
  {
    if open == OPEN_BRACE then CLOSE_BRACE else CLOSE_BRACKET
  }

  /** One turn inside a container: the end of the container, or where the next
      item may start. */
  datatype Progress = Stop(end: Option<nat>) | More(next: nat)

  /** Where the value of the item at a position starts. */
  function ItemStart(text: Bytes, pos: nat, open: byte): (r: Option<nat>)
    requires pos <= |text|
    ensures r.Some? ==> pos <= r.value <= |text|
  {
    if open == OPEN_BRACE then MemberStart(text, pos) else Some(pos)
  }

  function NextItem(text: Bytes, pos: nat, open: byte, depth: nat): (r: Progress)
    requires pos <= |text|
    ensures r.Stop? && r.end.Some? ==> pos < r.end.value <= |text|
    ensures r.More? ==> pos < r.next <= |text|
    decreases |text| - pos, 1
  {
    var start := SkipBlank(text, pos);
    if start >= |text| then Stop(None)
    else if text[start] == Close(open) then Stop(Some(start + 1))
    else
      var value := ItemStart(text, start, open);
      if value.None? then Stop(None)
      else
        var end := Skip(text, value.value, depth);
        if end.None? then Stop(None) else More(PastComma(text, end.value))
  }

  /** From inside a container to past its closing bracket. */
  function SkipItems(text: Bytes, pos: nat, open: byte, depth: nat): (r: Option<nat>)
    requires pos <= |text|
    ensures r.Some? ==> pos < r.value <= |text|
    decreases |text| - pos, 2
  {
    match NextItem(text, pos, open, depth)
    case Stop(end) => end
    case More(next) => SkipItems(text, next, open, depth)
  }

  function PastComma(text: Bytes, pos: nat): (r: nat)
    requires pos <= |text|
    ensures pos <= r <= |text|
  {
    var p := SkipBlank(text, pos);
    if p < |text| && text[p] == COMMA then p + 1 else p
  }

  method FindMemberStart(text: Bytes, pos: nat) returns (r: Option<nat>, key: Bytes)
    requires pos <= |text|
    ensures r == MemberStart(text, pos)
    ensures r.Some? ==> ScanString(text, pos).Scanned? && key == ScanString(text, pos).content
  {
    hide ScanString, RunEnd;
    var ok, end;
    ok, end, key := ScanStringAt(text, pos, true);
    if !ok {
      return None, key;
    }
    var colon := SkipRun(text, end, Blank);
    if colon >= |text| || text[colon] != COLON {
      return None, key;
    }
    var start := SkipRun(text, colon + 1, Blank);
    return Some(start), key;
  }

  /** Recursion and loops end because every success moves the cursor on. */
  method SkipValue(text: Bytes, pos: nat, depth: nat) returns (r: Option<nat>)
    requires pos <= |text|
    ensures r == Skip(text, pos, depth)
    decreases |text| - pos, 0
  {
    hide ScanString, SkipItems, Literal;
    if pos >= |text| || depth > MAX_DEPTH {
      return None;
    }
    var c := text[pos];
    if c == QUOTE {
      var ok, end, _ := ScanStringAt(text, pos, false);
      return if ok then Some(end) else None;
    }
    if c == OPEN_BRACE || c == OPEN_BRACKET {
      r := SkipContainer(text, pos + 1, c, depth + 1);
      return;
    }
    if c == 0x74 {
      return Literal(text, pos, TRUE);
    }
    if c == 0x66 {
      return Literal(text, pos, FALSE);
    }
    if c == 0x6E {
      return Literal(text, pos, NULL);
    }
    if c == 0x2D || c == 0x2B || 0x30 <= c <= 0x39 {
      var end := SkipRun(text, pos, Numeric);
      return Some(end);
    }
    return None;
  }

  method SkipContainer(text: Bytes, pos: nat, open: byte, depth: nat) returns (r: Option<nat>)
    requires pos <= |text|
    ensures r == SkipItems(text, pos, open, depth)
    decreases |text| - pos, 2
  {
    hide NextItem;
    var cursor := pos;
    while true
      invariant pos <= cursor <= |text|
      invariant SkipItems(text, cursor, open, depth) == SkipItems(text, pos, open, depth)
      decreases |text| - cursor
    {
      var progress := TakeItem(text, cursor, open, depth);
      if progress.Stop? {
        return progress.end;
      }
      cursor := progress.next;
    }
  }

  method TakeItem(text: Bytes, pos: nat, open: byte, depth: nat) returns (r: Progress)
    requires pos <= |text|
    ensures r == NextItem(text, pos, open, depth)
    decreases |text| - pos, 1
  {
    hide Skip, RunEnd, MemberStart;
    var start := SkipRun(text, pos, Blank);
    if start >= |text| {
      return Stop(None);
    }
    if text[start] == Close(open) {
      return Stop(Some(start + 1));
    }
    if open == OPEN_BRACE {
      var value, _ := FindMemberStart(text, start);
      if value.None? {
        return Stop(None);
      }
      start := value.value;
    }
    var end := SkipValue(text, start, depth);
    if end.None? {
      return Stop(None);
    }
    var next := SkipRun(text, end.value, Blank);
    if next < |text| && text[next] == COMMA {
      next := next + 1;
    }
    return More(next);
  }

  // ---- The depth bound ----

  /** A shallower starting depth accepts at least as much, with the same end. */
  lemma {:induction false} ShallowerAcceptsMore(text: Bytes, pos: nat, deep: nat, shallow: nat)
    requires pos <= |text| && shallow <= deep
    ensures Skip(text, pos, deep).Some? ==> Skip(text, pos, shallow) == Skip(text, pos, deep)
    decreases |text| - pos, 0
  {
    hide ScanString, Literal, SkipItems;
    if pos < |text| && (text[pos] == OPEN_BRACE || text[pos] == OPEN_BRACKET) {
      ShallowerItems(text, pos + 1, text[pos], deep + 1, shallow + 1);
    }
  }

  lemma {:induction false} ShallowerItems(text: Bytes, pos: nat, open: byte, deep: nat, shallow: nat)
    requires pos <= |text| && shallow <= deep
    ensures SkipItems(text, pos, open, deep).Some? ==>
              SkipItems(text, pos, open, shallow) == SkipItems(text, pos, open, deep)
    decreases |text| - pos, 2
  {
    hide NextItem;
    ShallowerNext(text, pos, open, deep, shallow);
    var progress := NextItem(text, pos, open, deep);
    if progress.More? {
      ShallowerItems(text, progress.next, open, deep, shallow);
    }
  }

  lemma {:induction false} ShallowerNext(text: Bytes, pos: nat, open: byte, deep: nat, shallow: nat)
    requires pos <= |text| && shallow <= deep
    ensures NextItem(text, pos, open, deep) != Stop(None) ==>
              NextItem(text, pos, open, shallow) == NextItem(text, pos, open, deep)
    decreases |text| - pos, 1
  {
    hide Skip, RunEnd, MemberStart;
    var start := SkipBlank(text, pos);
    if start < |text| && text[start] != Close(open) {
      var value := if open == OPEN_BRACE then MemberStart(text, start) else Some(start);
      if value.Some? {
        ShallowerAcceptsMore(text, value.value, deep, shallow);
      }
    }
  }

  /** n empty arrays one inside the other. */
  function Nested(n: nat): (r: Bytes)
    ensures |r| == 2 * n
  {
    if n == 0 then [] else [OPEN_BRACKET] + Nested(n - 1) + [CLOSE_BRACKET]
  }

  lemma NotBlank(text: Bytes, pos: nat)
    requires pos < |text| && !Blank(text[pos])
    ensures SkipBlank(text, pos) == pos
  {
  }

  lemma ClosesAt(text: Bytes, pos: nat, depth: nat)
    requires pos < |text| && text[pos] == CLOSE_BRACKET
    ensures NextItem(text, pos, OPEN_BRACKET, depth) == Stop(Some(pos + 1))
  {
    hide Skip, RunEnd, MemberStart;
    NotBlank(text, pos);
  }

  lemma ItemThenClose(text: Bytes, pos: nat, end: nat, depth: nat)
    requires pos < end < |text| && text[pos] == OPEN_BRACKET && text[end] == CLOSE_BRACKET
    requires Skip(text, pos, depth) == Some(end) || Skip(text, pos, depth) == None
    ensures NextItem(text, pos, OPEN_BRACKET, depth) ==
            if Skip(text, pos, depth).Some? then More(end) else Stop(None)
  {
    hide Skip, RunEnd, MemberStart;
    NotBlank(text, pos);
    NotBlank(text, end);
  }

  /** Arrays nested n deep are accepted exactly up to the depth bound. */
  lemma {:induction false} NestingBound(text: Bytes, pos: nat, depth: nat, n: nat)
    requires n > 0 && pos + 2 * n <= |text| && text[pos..pos + 2 * n] == Nested(n)
    ensures Skip(text, pos, depth) == if depth + n - 1 <= MAX_DEPTH then Some(pos + 2 * n) else None
    decreases n
  {
    hide ScanString, Literal, NextItem;
    var slice, last := text[pos..pos + 2 * n], pos + 2 * n - 1;
    assert slice[0] == text[pos] == OPEN_BRACKET;
    assert slice[2 * n - 1] == text[last] == CLOSE_BRACKET;
    ClosesAt(text, last, depth + 1);
    assert SkipItems(text, last, OPEN_BRACKET, depth + 1) == Some(last + 1);
    if n > 1 {
      assert slice == [OPEN_BRACKET] + (Nested(n - 1) + [CLOSE_BRACKET]);
      SplitSlice(text, pos, last + 1, [OPEN_BRACKET], Nested(n - 1) + [CLOSE_BRACKET]);
      SplitSlice(text, pos + 1, last + 1, Nested(n - 1), [CLOSE_BRACKET]);
      NestingBound(text, pos + 1, depth + 1, n - 1);
      assert text[pos + 1] == text[pos + 1..last][0];
      ItemThenClose(text, pos + 1, last, depth + 1);
    }
  }

  // ---- A value is read the same inside a larger text ----

  lemma {:induction false} RunEndUnique(text: Bytes, pos: nat, member: byte -> bool, end: nat)
    requires pos <= end <= |text| && (forall i :: pos <= i < end ==> member(text[i]))
    requires end == |text| || !member(text[end])
    ensures RunEnd(text, pos, member) == end
    decreases end - pos
  {
    if pos < end {
      RunEndUnique(text, pos + 1, member, end);
    }
  }

  /** The octets of `part` lie in `text` at `off`. */
  ghost predicate Within(part: Bytes, text: Bytes, off: nat)
  {
    off + |part| <= |text| && text[off..off + |part|] == part
  }

  lemma WithinAt(part: Bytes, text: Bytes, off: nat)
    requires Within(part, text, off)
    ensures forall i :: 0 <= i < |part| ==> text[off + i] == part[i]
    ensures forall i, j :: 0 <= i <= j <= |part| ==> text[off + i..off + j] == part[i..j]
  {
    assert forall i :: 0 <= i < |part| ==> text[off..off + |part|][i] == part[i];
  }

  lemma RunShifts(part: Bytes, text: Bytes, off: nat, pos: nat, member: byte -> bool)
    requires Within(part, text, off) && pos <= |part|
    requires RunEnd(part, pos, member) < |part| || off + |part| == |text| || !member(text[off + |part|])
    ensures RunEnd(text, off + pos, member) == off + RunEnd(part, pos, member)
  {
    hide RunEnd;
    var end := RunEnd(part, pos, member);
    WithinAt(part, text, off);
    forall i | off + pos <= i < off + end ensures member(text[i]) {
      assert text[off + (i - off)] == part[i - off];
    }
    RunEndUnique(text, off + pos, member, off + end);
  }

  lemma StringShifts(part: Bytes, text: Bytes, off: nat, pos: nat)
    requires Within(part, text, off) && ScanString(part, pos).Scanned?
    ensures ScanString(text, off + pos)
            == Scanned(off + ScanString(part, pos).end, ScanString(part, pos).content)
  {
    hide ScanString;
    var scan := ScanString(part, pos);
    WithinAt(part, text, off);
    ScansExactlyStrings(part, pos, scan.end, scan.content);
    assert text[off + pos..off + scan.end] == part[pos..scan.end];
    ScansExactlyStrings(text, off + pos, off + scan.end, scan.content);
  }

  lemma MemberStartShifts(part: Bytes, text: Bytes, off: nat, pos: nat)
    requires Within(part, text, off) && pos <= |part|
    requires MemberStart(part, pos).Some? && MemberStart(part, pos).value < |part|
    ensures MemberStart(text, off + pos) == Some(off + MemberStart(part, pos).value)
  {
    hide ScanString, RunEnd;
    var key := ScanString(part, pos);
    WithinAt(part, text, off);
    StringShifts(part, text, off, pos);
    RunShifts(part, text, off, key.end, Blank);
    RunShifts(part, text, off, SkipBlank(part, key.end) + 1, Blank);
  }

  /** Nothing that could lengthen a number follows. */
  ghost predicate Bounded(part: Bytes, text: Bytes, off: nat)
  {
    Within(part, text, off) && (off + |part| == |text| || !Numeric(text[off + |part|]))
  }

  /** A value accepted on its own is accepted, with the same extent, wherever it
      stands before something that is no part of a number. */
  lemma {:induction false} SkipShifts(part: Bytes, text: Bytes, off: nat, pos: nat, depth: nat)
    requires Bounded(part, text, off) && pos <= |part| && Skip(part, pos, depth).Some?
    ensures Skip(text, off + pos, depth) == Some(off + Skip(part, pos, depth).value)
    decreases |part| - pos, 0
  {
    hide ScanString, RunEnd, SkipItems;
    WithinAt(part, text, off);
    var c := part[pos];
    assert text[off + pos] == c;
    if c == QUOTE {
      StringShifts(part, text, off, pos);
    } else if c == OPEN_BRACE || c == OPEN_BRACKET {
      ItemsShift(part, text, off, pos + 1, c, depth + 1);
    } else if c == 0x2D || c == 0x2B || 0x30 <= c <= 0x39 {
      RunShifts(part, text, off, pos, Numeric);
    }
  }

  lemma {:induction false} ItemsShift(part: Bytes, text: Bytes, off: nat, pos: nat, open: byte, depth: nat)
    requires Bounded(part, text, off) && pos <= |part| && SkipItems(part, pos, open, depth).Some?
    ensures SkipItems(text, off + pos, open, depth) == Some(off + SkipItems(part, pos, open, depth).value)
    decreases |part| - pos, 2
  {
    hide NextItem;
    var progress := NextItem(part, pos, open, depth);
    if progress.More? {
      NothingAtEnd(part, progress.next, open, depth);
      NextShifts(part, text, off, pos, open, depth);
      ItemsShift(part, text, off, progress.next, open, depth);
    } else {
      NextShifts(part, text, off, pos, open, depth);
    }
  }

  lemma NothingAtEnd(text: Bytes, pos: nat, open: byte, depth: nat)
    requires pos <= |text| && SkipItems(text, pos, open, depth).Some?
    ensures pos < |text| && SkipBlank(text, pos) < |text|
  {
    hide Skip, MemberStart;
  }

  lemma {:induction false} NextShifts(part: Bytes, text: Bytes, off: nat, pos: nat, open: byte, depth: nat)
    requires Bounded(part, text, off) && pos <= |part|
    requires var p := NextItem(part, pos, open, depth);
             p != Stop(None) && (p.More? ==> p.next < |part|)
    ensures NextItem(text, off + pos, open, depth) ==
            match NextItem(part, pos, open, depth)
            case Stop(end) => Stop(Some(off + end.value))
            case More(next) => More(off + next)
    decreases |part| - pos, 1
  {
    hide Skip, SkipBlank, PastComma, ItemStart;
    WithinAt(part, text, off);
    BlankShifts(part, text, off, pos);
    var start := SkipBlank(part, pos);
    assert text[off + start] == part[start];
    if part[start] != Close(open) {
      var value := ItemStart(part, start, open).value;
      SkipInside(part, value, depth);
      ItemStartShifts(part, text, off, start, open);
      SkipShifts(part, text, off, value, depth);
      CommaShifts(part, text, off, Skip(part, value, depth).value);
    }
  }

  lemma BlankShifts(part: Bytes, text: Bytes, off: nat, pos: nat)
    requires Within(part, text, off) && pos <= |part| && SkipBlank(part, pos) < |part|
    ensures SkipBlank(text, off + pos) == off + SkipBlank(part, pos)
  {
    hide RunEnd;
    RunShifts(part, text, off, pos, Blank);
  }

  lemma CommaShifts(part: Bytes, text: Bytes, off: nat, pos: nat)
    requires Within(part, text, off) && pos <= |part| && PastComma(part, pos) < |part|
    ensures PastComma(text, off + pos) == off + PastComma(part, pos)
  {
    hide SkipBlank;
    WithinAt(part, text, off);
    BlankShifts(part, text, off, pos);
  }

  lemma ItemStartShifts(part: Bytes, text: Bytes, off: nat, pos: nat, open: byte)
    requires Within(part, text, off) && pos <= |part|
    requires ItemStart(part, pos, open).Some? && ItemStart(part, pos, open).value < |part|
    ensures ItemStart(text, off + pos, open) == Some(off + ItemStart(part, pos, open).value)
  {
    hide MemberStart;
    if open == OPEN_BRACE {
      MemberStartShifts(part, text, off, pos);
    }
  }

  lemma SkipInside(text: Bytes, pos: nat, depth: nat)
    requires pos <= |text| && Skip(text, pos, depth).Some?
    ensures pos < |text| && !Blank(text[pos])
  {
    hide ScanString, SkipItems;
  }

  // ---- And the other way: what is read in a text is read alone ----

  lemma RunBack(part: Bytes, text: Bytes, off: nat, pos: nat, member: byte -> bool)
    requires Within(part, text, off) && pos <= |part| && RunEnd(text, off + pos, member) <= off + |part|
    ensures off + RunEnd(part, pos, member) == RunEnd(text, off + pos, member)
  {
    hide RunEnd;
    var end := RunEnd(text, off + pos, member) - off;
    WithinAt(part, text, off);
    forall i | pos <= i < end ensures member(part[i]) {
      assert text[off + i] == part[i];
    }
    RunEndUnique(part, pos, member, end);
  }

  lemma BlankBack(part: Bytes, text: Bytes, off: nat, pos: nat)
    requires Within(part, text, off) && pos <= |part| && SkipBlank(text, off + pos) <= off + |part|
    ensures off + SkipBlank(part, pos) == SkipBlank(text, off + pos)
  {
    hide RunEnd;
    RunBack(part, text, off, pos, Blank);
  }

  lemma StringBack(part: Bytes, text: Bytes, off: nat, pos: nat)
    requires Within(part, text, off) && pos <= |part|
    requires ScanString(text, off + pos).Scanned? && ScanString(text, off + pos).end <= off + |part|
    ensures ScanString(part, pos)
            == Scanned(ScanString(text, off + pos).end - off, ScanString(text, off + pos).content)
  {
    hide ScanString;
    var scan := ScanString(text, off + pos);
    var end := scan.end - off;
    WithinAt(part, text, off);
    ScansExactlyStrings(text, off + pos, scan.end, scan.content);
    assert text[off + pos..off + end] == part[pos..end];
    ScansExactlyStrings(part, pos, end, scan.content);
  }

  lemma MemberStartBack(part: Bytes, text: Bytes, off: nat, pos: nat)
    requires Within(part, text, off) && pos <= |part|
    requires MemberStart(text, off + pos).Some? && MemberStart(text, off + pos).value <= off + |part|
    ensures MemberStart(part, pos) == Some(MemberStart(text, off + pos).value - off)
  {
    hide ScanString, SkipBlank;
    var key := ScanString(text, off + pos);
    WithinAt(part, text, off);
    StringBack(part, text, off, pos);
    BlankBack(part, text, off, key.end - off);
    var colon := SkipBlank(text, key.end) - off;
    assert text[off + colon] == part[colon];
    BlankBack(part, text, off, colon + 1);
  }

  lemma ItemStartBack(part: Bytes, text: Bytes, off: nat, pos: nat, open: byte)
    requires Within(part, text, off) && pos <= |part|
    requires ItemStart(text, off + pos, open).Some? && ItemStart(text, off + pos, open).value <= off + |part|
    ensures ItemStart(part, pos, open) == Some(ItemStart(text, off + pos, open).value - off)
  {
    hide MemberStart;
    if open == OPEN_BRACE {
      MemberStartBack(part, text, off, pos);
    }
  }

  lemma CommaBack(part: Bytes, text: Bytes, off: nat, pos: nat)
    requires Within(part, text, off) && pos <= |part| && PastComma(text, off + pos) <= off + |part|
    ensures off + PastComma(part, pos) == PastComma(text, off + pos)
  {
    hide SkipBlank;
    WithinAt(part, text, off);
    BlankBack(part, text, off, pos);
    var p := SkipBlank(part, pos);
    assert p < |part| ==> text[off + p] == part[p];
  }

  /** A value read inside a text is a value on its own, with the same extent. */
  lemma {:induction false} SkipBack(part: Bytes, text: Bytes, off: nat, pos: nat, depth: nat)
    requires Within(part, text, off) && pos <= |part|
    requires Skip(text, off + pos, depth).Some? && Skip(text, off + pos, depth).value <= off + |part|
    ensures Skip(part, pos, depth) == Some(Skip(text, off + pos, depth).value - off)
    decreases |text| - off - pos, 0
  {
    hide ScanString, RunEnd, SkipItems;
    WithinAt(part, text, off);
    var c := text[off + pos];
    assert part[pos] == c;
    if c == QUOTE {
      StringBack(part, text, off, pos);
    } else if c == OPEN_BRACE || c == OPEN_BRACKET {
      ItemsBack(part, text, off, pos + 1, c, depth + 1);
    } else if c == 0x2D || c == 0x2B || 0x30 <= c <= 0x39 {
      RunBack(part, text, off, pos, Numeric);
    }
  }

  lemma {:induction false} ItemsBack(part: Bytes, text: Bytes, off: nat, pos: nat, open: byte, depth: nat)
    requires Within(part, text, off) && pos <= |part|
    requires SkipItems(text, off + pos, open, depth).Some? && SkipItems(text, off + pos, open, depth).value <= off + |part|
    ensures SkipItems(part, pos, open, depth) == Some(SkipItems(text, off + pos, open, depth).value - off)
    decreases |text| - off - pos, 2
  {
    hide NextItem;
    var progress := NextItem(text, off + pos, open, depth);
    NextBack(part, text, off, pos, open, depth);
    if progress.More? {
      ItemsBack(part, text, off, progress.next - off, open, depth);
    }
  }

  ghost predicate Reaches(p: Progress, end: nat)
  {
    match p
    case Stop(e) => e.Some? && e.value <= end
    case More(next) => next <= end
  }

  lemma {:induction false} NextBack(part: Bytes, text: Bytes, off: nat, pos: nat, open: byte, depth: nat)
    requires Within(part, text, off) && pos <= |part|
    requires Reaches(NextItem(text, off + pos, open, depth), off + |part|)
    ensures NextItem(part, pos, open, depth) ==
            match NextItem(text, off + pos, open, depth)
            case Stop(end) => Stop(Some(end.value - off))
            case More(next) => More(next - off)
    decreases |text| - off - pos, 1
  {
    hide Skip, SkipBlank, PastComma, ItemStart;
    WithinAt(part, text, off);
    BlankBack(part, text, off, pos);
    var start := SkipBlank(part, pos);
    assert text[off + start] == part[start];
    if text[off + start] != Close(open) {
      var value := ItemStart(text, off + start, open).value;
      ItemStartBack(part, text, off, start, open);
      SkipBack(part, text, off, value - off, depth);
      CommaBack(part, text, off, Skip(text, value, depth).value - off);
    }
  }

  // ---- Strings that fail part of the way ----

  /** An octet a value may start with is neither a control nor a backslash. */
  lemma ValueStart(text: Bytes, pos: nat, depth: nat)
    requires pos <= |text| && Skip(text, pos, depth).Some?
    ensures pos < |text| && text[pos] >= 0x20 && text[pos] != BACKSLASH
  {
    hide ScanString, SkipItems;
  }

  /** Nothing that could complete a four-digit escape follows. */
  ghost predicate HexBounded(part: Bytes, text: Bytes, off: nat)
  {
    Within(part, text, off) && (off + |part| == |text| || HexDigit(text[off + |part|]).None?)
  }

  lemma UnitShifts(part: Bytes, text: Bytes, off: nat, pos: nat)
    requires Within(part, text, off) && pos < |part| && ReadUnit(part, pos).Read?
    ensures ReadUnit(text, off + pos) == ReadUnit(part, pos)
  {
    hide ReadUnit, Allowed;
    var u := ReadUnit(part, pos).unit;
    WithinAt(part, text, off);
    assert text[off + pos..off + (pos + |Render(u)|)] == part[pos..pos + |Render(u)|];
    UnitReads(text, off + pos, u);
  }

  lemma UnitBack(part: Bytes, text: Bytes, off: nat, pos: nat)
    requires Within(part, text, off) && pos < |part| && ReadUnit(text, off + pos).Read?
    requires pos + |Render(ReadUnit(text, off + pos).unit)| <= |part|
    ensures ReadUnit(part, pos) == ReadUnit(text, off + pos)
  {
    hide ReadUnit, Allowed;
    var u := ReadUnit(text, off + pos).unit;
    WithinAt(part, text, off);
    assert text[off + pos..off + (pos + |Render(u)|)] == part[pos..pos + |Render(u)|];
    UnitReads(part, pos, u);
  }

  /** The reading at pos gives up before an octet a value could start with. */
  ghost predicate GivesUp(text: Bytes, pos: nat, limit: nat)
    requires pos < |text|
  {
    var r := ReadUnit(text, pos);
    && text[pos] != QUOTE && r.Unreadable?
    && pos + r.consumed < limit <= |text| && text[pos + r.consumed] >= 0x20 && text[pos + r.consumed] != BACKSLASH
  }

  lemma GivesUpShifts(part: Bytes, text: Bytes, off: nat, pos: nat)
    requires HexBounded(part, text, off) && pos < |part| && GivesUp(part, pos, |part|)
    ensures ReadUnit(text, off + pos) == ReadUnit(part, pos)
  {
    hide HexDigit, HexValue, Escaped;
    WithinAt(part, text, off);
    assert text[off + pos] == part[pos] && text[off + (pos + 1)] == part[pos + 1];
    if part[pos + 1] == LETTER_U {
      HexSliceShifts(part, text, off, pos + 2);
    }
  }

  lemma GivesUpBack(part: Bytes, text: Bytes, off: nat, pos: nat)
    requires Within(part, text, off) && pos < |part| && GivesUp(text, off + pos, off + |part|)
    ensures ReadUnit(part, pos) == ReadUnit(text, off + pos)
  {
    hide HexDigit, HexValue, Escaped;
    WithinAt(part, text, off);
    assert text[off + pos] == part[pos] && text[off + (pos + 1)] == part[pos + 1];
    if part[pos + 1] == LETTER_U && pos + 6 <= |part| {
      assert text[off + (pos + 2)..off + (pos + 6)] == part[pos + 2..pos + 6];
    }
  }

  lemma HexSliceShifts(part: Bytes, text: Bytes, off: nat, pos: nat)
    requires HexBounded(part, text, off) && pos <= |part|
    ensures pos + 4 <= |part| ==> text[off + pos..off + pos + 4] == part[pos..pos + 4]
    ensures pos + 4 > |part| && off + pos + 4 <= |text| ==> !AllHex(text[off + pos..off + pos + 4])
  {
    hide HexDigit;
    WithinAt(part, text, off);
    if pos + 4 <= |part| {
      assert text[off + pos..off + (pos + 4)] == part[pos..pos + 4];
    } else if off + pos + 4 <= |text| {
      var digits := text[off + pos..off + pos + 4];
      assert digits[|part| - pos] == text[off + |part|];
    }
  }

  /** A string that fails before a value fails there wherever it stands before
      something that is no hexadecimal digit. */
  lemma {:induction false} BodyFailShifts(part: Bytes, text: Bytes, off: nat, pos: nat)
    requires HexBounded(part, text, off) && pos <= |part| && ScanBody(part, pos).Failed?
    requires var f := ScanBody(part, pos).end; f < |part| && part[f] >= 0x20 && part[f] != BACKSLASH
    ensures ScanBody(text, off + pos) == Failed(off + ScanBody(part, pos).end)
    decreases |part| - pos
  {
    hide ReadUnit, Meaning, Render;
    WithinAt(part, text, off);
    assert text[off + pos] == part[pos];
    var r := ReadUnit(part, pos);
    if r.Unreadable? {
      GivesUpShifts(part, text, off, pos);
    } else {
      UnitShifts(part, text, off, pos);
      RenderNonEmpty(r.unit);
      BodyFailShifts(part, text, off, pos + |Render(r.unit)|);
    }
  }

  lemma {:induction false} BodyFailBack(part: Bytes, text: Bytes, off: nat, pos: nat)
    requires Within(part, text, off) && pos <= |part| && ScanBody(text, off + pos).Failed?
    requires var f := ScanBody(text, off + pos).end; f < off + |part| && text[f] >= 0x20 && text[f] != BACKSLASH
    ensures ScanBody(part, pos) == Failed(ScanBody(text, off + pos).end - off)
    decreases |text| - off - pos
  {
    hide ReadUnit, Meaning, Render;
    WithinAt(part, text, off);
    assert text[off + pos] == part[pos];
    var r := ReadUnit(text, off + pos);
    if r.Unreadable? {
      GivesUpBack(part, text, off, pos);
    } else {
      UnitBack(part, text, off, pos);
      RenderNonEmpty(r.unit);
      BodyFailBack(part, text, off, pos + |Render(r.unit)|);
    }
  }

  /** The punctuation and the bounds the scanner works with. */
  lemma Punctuation()
    ensures OPEN_BRACE == '{' as int && CLOSE_BRACE == '}' as int
    ensures OPEN_BRACKET == '[' as int && CLOSE_BRACKET == ']' as int
    ensures COLON == ':' as int && COMMA == ',' as int && QUOTE == '"' as int && BACKSLASH == '\\' as int
    ensures MAX_BYTES == 1_048_576 && MAX_DEPTH == 16 && ROOT_DEPTH == 1
  {
  }
}
