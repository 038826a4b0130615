/** The payloads the scanner accepts, as a grammar: written members, blanks and
    tolerated irregularities (src/adapter/zcode_event.cpp). */
module PayloadGrammar {
  import opened Values
  import opened Scanner
  import opened Events
  import opened Payload

  /** The blanks around a member's key and value. */
  datatype Gaps = Gaps(before: Bytes, afterKey: Bytes, afterColon: Bytes, after: Bytes)

  const NO_GAPS := Gaps([], [], [], [])

  /** A member: a string, the tool input with its own members, or any other value
      the scanner can skip. */
  datatype Item =
    | Text(gaps: Gaps, key: seq<Unit>, value: seq<Unit>)
    | Input(gaps: Gaps, key: seq<Unit>, members: List)
    | Other(gaps: Gaps, key: seq<Unit>, raw: Bytes)

  /** Members up to the closing brace: blanks alone, a last member, or a member
      and a comma. A comma may be followed by nothing but blanks. */
  datatype List = End(gap: Bytes) | Last(item: Item) | Then(item: Item, rest: List)

  function KeyBytes(item: Item): Bytes
  {
    item.gaps.before + (Quoted(item.key) + (item.gaps.afterKey + ([COLON] + item.gaps.afterColon)))
  }

  function ValueBytes(item: Item): Bytes
    decreases item, 0
  {
    match item
    case Text(_, _, value) => Quoted(value)
    case Input(_, _, members) => [OPEN_BRACE] + ListBytes(members)
    case Other(_, _, raw) => raw
  }

  function ItemBytes(item: Item): Bytes
    decreases item, 1
  {
    KeyBytes(item) + (ValueBytes(item) + item.gaps.after)
  }

  function ListBytes(list: List): Bytes
    decreases list, 2
  {
    match list
    case End(gap) => gap + [CLOSE_BRACE]
    case Last(item) => ItemBytes(item) + [CLOSE_BRACE]
    case Then(item, rest) => ItemBytes(item) + ([COMMA] + ListBytes(rest))
  }

  /** The depth at which a member list of the event, or of the tool input, is. */
  function Level(inner: bool): nat
  {
    if inner then ROOT_DEPTH + 1 else ROOT_DEPTH
  }

  ghost predicate AllBlank(gap: Bytes)
  {
    forall i :: 0 <= i < |gap| ==> Blank(gap[i])
  }

  ghost predicate BlankGaps(gaps: Gaps)
  {
    AllBlank(gaps.before) && AllBlank(gaps.afterKey) && AllBlank(gaps.afterColon) && AllBlank(gaps.after)
  }

  /** Where the scanner starts skipping a value: at its start, except that an
      inner field whose string is unreadable is skipped from where it failed. */
  function SkipsFrom(key: Bytes, raw: Bytes, inner: bool): nat
  {
    if Wanted(key, inner) then ScanString(raw, 0).end else 0
  }

  /** A value the scanner skips, under a key that does not ask for another: an
      identity field has to be a string, and an object under the tool-input key
      would be entered. */
  ghost predicate Skippable(key: Bytes, raw: Bytes, inner: bool)
  {
    var from := SkipsFrom(key, raw, inner);
    && from <= |raw| && Skip(raw, from, Level(inner) + 1) == Some(|raw|)
    && (Wanted(key, inner) ==> inner && ScanString(raw, 0).Failed?)
    && (!inner && NamesInput(key) ==> raw[0] != OPEN_BRACE)
  }

  ghost predicate Writable(item: Item, inner: bool)
    decreases item, 0
  {
    && AllAllowed(item.key) && BlankGaps(item.gaps)
    && match item
       case Text(_, _, value) => AllAllowed(value)
       case Input(_, key, members) => !inner && NamesInput(MeaningAll(key)) && AllWritable(members, true)
       case Other(_, key, raw) => Skippable(MeaningAll(key), raw, inner)
  }

  ghost predicate AllWritable(list: List, inner: bool)
    decreases list, 1
  {
    match list
    case End(gap) => AllBlank(gap)
    case Last(item) => Writable(item, inner)
    case Then(item, rest) => Writable(item, inner) && AllWritable(rest, inner)
  }

  /** What a list of members says: the last wanted value of each field. */
  ghost function Stated(f: Fields, list: List, inner: bool): Fields
    requires AllWritable(list, inner)
    decreases list, 1
  {
    match list
    case End(_) => f
    case Last(item) => StatedBy(f, item, inner)
    case Then(item, rest) => Stated(StatedBy(f, item, inner), rest, inner)
  }

  ghost function StatedBy(f: Fields, item: Item, inner: bool): Fields
    requires Writable(item, inner)
    decreases item, 0
  {
    match item
    case Text(_, key, value) =>
      if Wanted(MeaningAll(key), inner) then Assign(f, MeaningAll(key), MeaningAll(value)) else f
    case Input(_, _, members) => Stated(f, members, true)
    case Other(_, _, _) => f
  }

  // ---- Finding a member's value ----

  lemma StartsWith(text: Bytes, pos: nat, end: nat, b: byte, rest: Bytes)
    requires pos <= end <= |text| && text[pos..end] == [b] + rest
    ensures pos < end && text[pos] == b && text[pos + 1..end] == rest
  {
    SplitSlice(text, pos, end, [b], rest);
    assert text[pos..pos + 1][0] == b;
  }

  /** Blanks are skipped up to the first octet that is none. */
  lemma SkipsGap(text: Bytes, pos: nat, end: nat, gap: Bytes, rest: Bytes)
    requires pos <= end <= |text| && AllBlank(gap) && rest != [] && !Blank(rest[0])
    requires text[pos..end] == gap + rest
    ensures pos + |gap| < end && SkipBlank(text, pos) == pos + |gap|
    ensures text[pos + |gap|..end] == rest && text[pos + |gap|] == rest[0]
  {
    hide RunEnd;
    SplitSlice(text, pos, end, gap, rest);
    var stop := pos + |gap|;
    assert text[stop] == text[stop..end][0];
    forall i | pos <= i < stop ensures Blank(text[i]) {
      assert text[i] == text[pos..stop][i - pos];
    }
    RunEndUnique(text, pos, Blank, stop);
  }

  /** A key and its colon lead to the value. */
  lemma KeyLeadsToValue(text: Bytes, pos: nat, end: nat, item: Item, rest: Bytes) returns (start: nat, value: nat)
    requires pos <= end <= |text| && AllAllowed(item.key) && BlankGaps(item.gaps) && rest != [] && !Blank(rest[0])
    requires text[pos..end] == KeyBytes(item) + rest
    ensures pos <= start < value < end && value == pos + |KeyBytes(item)|
    ensures text[value..end] == rest && text[value] == rest[0]
    ensures SkipBlank(text, pos) == start && text[start] == QUOTE
    ensures MemberStart(text, start) == Some(value) && ScanString(text, start).Scanned?
    ensures ScanString(text, start).content == MeaningAll(item.key)
  {
    hide ScanString, Quoted, AllAllowed, MeaningAll, SkipBlank, AllBlank;
    var quoted, gaps := Quoted(item.key), item.gaps;
    var afterKey := gaps.afterKey + ([COLON] + (gaps.afterColon + rest));
    KeyParts(item, rest);
    QuoteFirst(item.key, afterKey);
    SkipsGap(text, pos, end, gaps.before, quoted + afterKey);
    start := pos + |gaps.before|;
    SplitSlice(text, start, end, quoted, afterKey);
    var keyEnd := start + |quoted|;
    QuotedScans(text, start, keyEnd, item.key);
    value := ColonLeads(text, keyEnd, end, gaps, rest);
  }

  lemma KeyParts(item: Item, rest: Bytes)
    ensures KeyBytes(item) + rest == item.gaps.before
              + (Quoted(item.key) + (item.gaps.afterKey + ([COLON] + (item.gaps.afterColon + rest))))
    ensures |KeyBytes(item)| == |item.gaps.before| + |Quoted(item.key)| + |item.gaps.afterKey| + 1 + |item.gaps.afterColon|
  {
    hide Quoted;
  }

  lemma QuoteFirst(key: seq<Unit>, rest: Bytes)
    ensures (Quoted(key) + rest)[0] == QUOTE && !Blank(QUOTE)
  {
    hide RenderAll;
  }

  lemma ColonLeads(text: Bytes, pos: nat, end: nat, gaps: Gaps, rest: Bytes) returns (value: nat)
    requires pos <= end <= |text| && BlankGaps(gaps) && rest != [] && !Blank(rest[0])
    requires text[pos..end] == gaps.afterKey + ([COLON] + (gaps.afterColon + rest))
    ensures var colon := SkipBlank(text, pos);
            && colon < |text| && text[colon] == COLON && SkipBlank(text, colon + 1) == value
            && value == pos + |gaps.afterKey| + 1 + |gaps.afterColon| < end
            && text[value..end] == rest && text[value] == rest[0]
  {
    hide SkipBlank, AllBlank;
    var afterColon := gaps.afterColon + rest;
    SkipsGap(text, pos, end, gaps.afterKey, [COLON] + afterColon);
    var colon := pos + |gaps.afterKey|;
    StartsWith(text, colon, end, COLON, afterColon);
    SkipsGap(text, colon + 1, end, gaps.afterColon, rest);
    value := colon + 1 + |gaps.afterColon|;
  }

  // ---- Reading one value ----

  /** The value at `pos`, with its key, is collected as the item states. */
  ghost predicate ValueReads(text: Bytes, pos: nat, end: nat, f: Fields, inner: bool, item: Item)
    requires Writable(item, inner) && pos <= |text|
  {
    MemberValue(text, pos, Level(inner), f, inner, MeaningAll(item.key)) == Some(Collected(end, StatedBy(f, item, inner)))
  }

  lemma StringSkips(text: Bytes, pos: nat, end: nat, value: seq<Unit>, depth: nat)
    requires pos <= end <= |text| && AllAllowed(value) && text[pos..end] == Quoted(value) && depth <= MAX_DEPTH
    ensures Skip(text, pos, depth) == Some(end)
  {
    hide RenderAll, AllAllowed, MeaningAll, ScanString;
    QuotedScans(text, pos, end, value);
    assert text[pos] == text[pos..end][0] == QUOTE;
  }

  lemma TextReads(text: Bytes, pos: nat, end: nat, f: Fields, inner: bool, item: Item)
    requires pos <= end <= |text| && item.Text? && Writable(item, inner) && text[pos..end] == ValueBytes(item)
    ensures ValueReads(text, pos, end, f, inner, item)
  {
    hide ScanString, RenderAll, AllAllowed, MeaningAll, Skip;
    QuotedScans(text, pos, end, item.value);
    StringSkips(text, pos, end, item.value, Level(inner) + 1);
    assert text[pos] == text[pos..end][0] == QUOTE;
  }

  /** What follows a value: no part of a number and no hexadecimal digit. */
  predicate Separates(b: byte)
  {
    b == COMMA || b == CLOSE_BRACE || Blank(b)
  }

  lemma SeparatesAll(b: byte)
    requires Separates(b)
    ensures !Numeric(b) && HexDigit(b).None?
  {
  }

  /** The start of a skipped value in its text. */
  lemma SkipsFromShifts(text: Bytes, pos: nat, end: nat, key: Bytes, raw: Bytes, inner: bool)
    requires pos <= end < |text| && text[pos..end] == raw && Separates(text[end]) && Skippable(key, raw, inner)
    requires Wanted(key, inner)
    ensures ScanString(text, pos) == Failed(pos + SkipsFrom(key, raw, inner))
  {
    hide Skip, ScanBody;
    var from := SkipsFrom(key, raw, inner);
    ValueStart(raw, from, Level(inner) + 1);
    assert text[pos] == text[pos..end][0] == raw[0];
    if raw[0] == QUOTE {
      SeparatesAll(text[end]);
      assert HexBounded(raw, text, pos);
      BodyFailShifts(raw, text, pos, 1);
    }
  }

  lemma OtherReads(text: Bytes, pos: nat, end: nat, f: Fields, inner: bool, item: Item)
    requires pos <= end < |text| && item.Other? && Writable(item, inner) && text[pos..end] == ValueBytes(item)
    requires Separates(text[end])
    ensures ValueReads(text, pos, end, f, inner, item)
  {
    hide AllAllowed, MeaningAll, Skip, Members, ScanString;
    var key, raw := MeaningAll(item.key), item.raw;
    var from := SkipsFrom(key, raw, inner);
    SkipInside(raw, from, Level(inner) + 1);
    SeparatesAll(text[end]);
    assert Bounded(raw, text, pos);
    SkipShifts(raw, text, pos, from, Level(inner) + 1);
    assert text[pos] == text[pos..end][0] == raw[0];
    if Wanted(key, inner) {
      SkipsFromShifts(text, pos, end, key, raw, inner);
    }
  }

  lemma {:induction false} InputReads(text: Bytes, pos: nat, end: nat, f: Fields, item: Item)
    requires pos <= end <= |text| && item.Input? && Writable(item, false) && text[pos..end] == ValueBytes(item)
    ensures ValueReads(text, pos, end, f, false, item)
    decreases item, 0
  {
    hide AllAllowed, MeaningAll, Skip, Members;
    StartsWith(text, pos, end, OPEN_BRACE, ListBytes(item.members));
    NoString(text, pos);
    KeyNamesOne(MeaningAll(item.key));
    ListReads(text, pos + 1, end, f, true, item.members);
  }

  lemma KeyNamesOne(key: Bytes)
    requires NamesInput(key)
    ensures !Wanted(key, false)
  {
  }

  /** No value starts with a blank. */
  lemma ValueStarts(item: Item, inner: bool)
    requires Writable(item, inner)
    ensures ValueBytes(item) != [] && !Blank(ValueBytes(item)[0])
  {
    hide Skip, ScanBody;
    if item.Other? {
      SkipInside(item.raw, SkipsFrom(MeaningAll(item.key), item.raw, inner), Level(inner) + 1);
    }
  }

  lemma {:induction false} ItemReads(text: Bytes, pos: nat, end: nat, f: Fields, inner: bool, item: Item)
    requires pos <= end < |text| && Writable(item, inner)
    requires text[pos..end] == ItemBytes(item) && (text[end] == COMMA || text[end] == CLOSE_BRACE)
    ensures NextMember(text, pos, Level(inner), f, inner) ==
            if text[end] == COMMA then Going(end + 1, StatedBy(f, item, inner))
            else Ended(Some(Collected(end + 1, StatedBy(f, item, inner))))
    decreases item, 2
  {
    hide ScanString, MemberValue, MemberStart, KeyBytes, ValueBytes, SkipBlank, Skippable, AllAllowed, AllBlank, Separates;
    var tail := ValueBytes(item) + item.gaps.after;
    ValueStarts(item, inner);
    var start, value := KeyLeadsToValue(text, pos, end, item, tail);
    var stop := value + |ValueBytes(item)|;
    SplitSlice(text, value, end, ValueBytes(item), item.gaps.after);
    AfterValue(text, stop, end, item.gaps.after);
    AnyValueReads(text, value, stop, f, inner, item);
  }

  lemma {:induction false} AnyValueReads(text: Bytes, pos: nat, end: nat, f: Fields, inner: bool, item: Item)
    requires pos <= end < |text| && Writable(item, inner) && text[pos..end] == ValueBytes(item) && Separates(text[end])
    ensures ValueReads(text, pos, end, f, inner, item)
    decreases item, 1
  {
    hide ValueReads, ValueBytes, Skippable;
    if item.Text? {
      TextReads(text, pos, end, f, inner, item);
    } else if item.Other? {
      OtherReads(text, pos, end, f, inner, item);
    } else {
      InputReads(text, pos, end, f, item);
    }
  }

  /** The blanks after a value end at the separator. */
  lemma AfterValue(text: Bytes, stop: nat, end: nat, gap: Bytes)
    requires stop <= end < |text| && AllBlank(gap) && text[stop..end] == gap
    requires text[end] == COMMA || text[end] == CLOSE_BRACE
    ensures SkipBlank(text, stop) == end && Separates(text[stop])
  {
    assert text[stop..end + 1] == gap + [text[end]];
    SkipsGap(text, stop, end + 1, gap, [text[end]]);
    assert gap != [] ==> text[stop] == gap[0];
  }

  /** A written member list is read back as what it states. */
  lemma {:induction false} ListReads(text: Bytes, pos: nat, end: nat, f: Fields, inner: bool, list: List)
    requires pos <= end <= |text| && AllWritable(list, inner)
    requires text[pos..end] == ListBytes(list)
    ensures Members(text, pos, Level(inner), f, inner) == Some(Collected(end, Stated(f, list, inner)))
    decreases list, 4
  {
    hide MemberValue, MemberStart, ItemBytes, NextMember, Writable;
    match list
    case End(gap) => EmptyListReads(text, pos, end, f, inner, gap);
    case Last(item) => LastItemReads(text, pos, end, f, inner, item);
    case Then(item, rest) =>
      SplitSlice(text, pos, end, ItemBytes(item), [COMMA] + ListBytes(rest));
      var stop := pos + |ItemBytes(item)|;
      StartsWith(text, stop, end, COMMA, ListBytes(rest));
      ItemReads(text, pos, stop, f, inner, item);
      ListReads(text, stop + 1, end, StatedBy(f, item, inner), inner, rest);
  }

  lemma {:induction false} LastItemReads(text: Bytes, pos: nat, end: nat, f: Fields, inner: bool, item: Item)
    requires pos <= end <= |text| && Writable(item, inner)
    requires text[pos..end] == ItemBytes(item) + [CLOSE_BRACE]
    ensures Members(text, pos, Level(inner), f, inner) == Some(Collected(end, StatedBy(f, item, inner)))
    decreases item, 3
  {
    hide ItemBytes, NextMember, Writable;
    SplitSlice(text, pos, end, ItemBytes(item), [CLOSE_BRACE]);
    var stop := pos + |ItemBytes(item)|;
    assert text[stop] == text[stop..end][0];
    ItemReads(text, pos, stop, f, inner, item);
  }

  lemma EmptyListReads(text: Bytes, pos: nat, end: nat, f: Fields, inner: bool, gap: Bytes)
    requires pos <= end <= |text| && AllBlank(gap) && text[pos..end] == gap + [CLOSE_BRACE]
    ensures Members(text, pos, Level(inner), f, inner) == Some(Collected(end, f))
  {
    hide MemberValue, MemberStart, SkipBlank;
    SkipsGap(text, pos, end, gap, [CLOSE_BRACE]);
  }

  /** The payload is one object, with blanks around it. */
  ghost predicate IsWriting(raw: Bytes, before: Bytes, list: List, after: Bytes)
  {
    && AllBlank(before) && AllWritable(list, false) && AllBlank(after)
    && raw == before + ([OPEN_BRACE] + (ListBytes(list) + after))
  }

  /** Extraction reads back every payload written as one object: string members,
      tool inputs and any other values the scanner can skip, in whatever order
      and with whatever blanks between them. */
  lemma ExtractReadsBack(raw: Bytes, before: Bytes, list: List, after: Bytes)
    requires IsWriting(raw, before, list, after)
    ensures Extract(raw) == if |raw| > MAX_BYTES then Oversize else Extracted(Stated(NO_FIELDS, list, false))
  {
    hide Members, ListBytes, AllWritable, Stated, RunEnd;
    var bytes := ListBytes(list);
    assert raw[0..|raw|] == raw;
    SkipsGap(raw, 0, |raw|, before, [OPEN_BRACE] + (bytes + after));
    var start := |before|;
    StartsWith(raw, start, |raw|, OPEN_BRACE, bytes + after);
    SplitSlice(raw, start + 1, |raw|, bytes, after);
    ListReads(raw, start + 1, start + 1 + |bytes|, NO_FIELDS, false, list);
    BlankToEnd(raw, start + 1 + |bytes|, after);
  }

  lemma BlankToEnd(text: Bytes, pos: nat, gap: Bytes)
    requires pos <= |text| && AllBlank(gap) && text[pos..|text|] == gap
    ensures SkipBlank(text, pos) == |text|
  {
    hide RunEnd;
    forall i | pos <= i < |text| ensures Blank(text[i]) {
      assert text[i] == text[pos..|text|][i - pos];
    }
    RunEndUnique(text, pos, Blank, |text|);
  }

  // ---- What is accepted is written ----

  lemma GapIsBlank(text: Bytes, pos: nat)
    requires pos <= |text|
    ensures AllBlank(text[pos..SkipBlank(text, pos)])
  {
    hide RunEnd;
    var end := SkipBlank(text, pos);
    forall i | 0 <= i < end - pos ensures Blank(text[pos..end][i]) {
      assert text[pos..end][i] == text[pos + i];
    }
  }

  /** The key, colon and blanks before a member's value. */
  lemma KeyIsWritten(text: Bytes, pos: nat, after: Bytes) returns (gaps: Gaps, key: seq<Unit>)
    requires pos <= |text| && AllBlank(after) && MemberStart(text, SkipBlank(text, pos)).Some?
    ensures AllAllowed(key) && BlankGaps(gaps) && gaps.after == after
    ensures ScanString(text, SkipBlank(text, pos)).Scanned?
    ensures MeaningAll(key) == ScanString(text, SkipBlank(text, pos)).content
    ensures text[pos..MemberStart(text, SkipBlank(text, pos)).value] == KeyBytes(Other(gaps, key, []))
  {
    hide ScanString, SkipBlank, AllAllowed, MeaningAll, Quoted, AllBlank;
    var start := SkipBlank(text, pos);
    var scan := ScanString(text, start);
    var colon := SkipBlank(text, scan.end);
    var value := SkipBlank(text, colon + 1);
    GapIsBlank(text, pos);
    GapIsBlank(text, scan.end);
    GapIsBlank(text, colon + 1);
    key := KeyUnits(text, start);
    gaps := Gaps(text[pos..start], text[scan.end..colon], text[colon + 1..value], after);
    JoinKey(text, pos, start, scan.end, colon, value);
  }

  lemma KeyUnits(text: Bytes, pos: nat) returns (units: seq<Unit>)
    requires ScanString(text, pos).Scanned?
    ensures AllAllowed(units) && MeaningAll(units) == ScanString(text, pos).content
    ensures text[pos..ScanString(text, pos).end] == Quoted(units)
  {
    hide ScanString, AllAllowed, MeaningAll, Quoted;
    var scan := ScanString(text, pos);
    ScansExactlyStrings(text, pos, scan.end, scan.content);
    units :| AllAllowed(units) && text[pos..scan.end] == Quoted(units) && scan.content == MeaningAll(units);
  }

  lemma JoinKey(text: Bytes, a: nat, b: nat, c: nat, d: nat, e: nat)
    requires a <= b <= c <= d < e <= |text|
    ensures text[a..e] == text[a..b] + (text[b..c] + (text[c..d] + ([text[d]] + text[d + 1..e])))
  {
  }

  /** Any value that is accepted is a string, a tool input or skipped. */
  lemma {:induction false} ValueIsWritten(text: Bytes, pos: nat, f: Fields, inner: bool, gaps: Gaps, key: seq<Unit>)
    returns (item: Item)
    requires pos <= |text| && AllAllowed(key) && BlankGaps(gaps)
    requires MemberValue(text, pos, Level(inner), f, inner, MeaningAll(key)).Some?
    ensures item.gaps == gaps && item.key == key && Writable(item, inner)
    ensures var r := MemberValue(text, pos, Level(inner), f, inner, MeaningAll(key)).value;
            text[pos..r.end] == ValueBytes(item) && r.fields == StatedBy(f, item, inner)
    decreases |text| - pos, 0
  {
    hide ScanString, AllAllowed, MeaningAll, Skip, Members, AllBlank, Quoted;
    var name := MeaningAll(key);
    var scan := ScanString(text, pos);
    if Wanted(name, inner) && scan.Scanned? {
      var value := KeyUnits(text, pos);
      item := Text(gaps, key, value);
    } else if !Wanted(name, inner) && !inner && NamesInput(name) && pos < |text| && text[pos] == OPEN_BRACE {
      var members := MembersAreWritten(text, pos + 1, f, true);
      item := Input(gaps, key, members);
      var end := Members(text, pos + 1, Level(true), f, true).value.end;
      assert text[pos..end] == [text[pos]] + text[pos + 1..end];
    } else {
      var from := if Wanted(name, inner) then scan.end else pos;
      var end := Skip(text, from, Level(inner) + 1).value;
      var raw := text[pos..end];
      SkippedIsSkippable(text, pos, end, name, inner);
      item := Other(gaps, key, raw);
    }
  }

  lemma SkippedIsSkippable(text: Bytes, pos: nat, end: nat, key: Bytes, inner: bool)
    requires pos <= |text|
    requires var scan := ScanString(text, pos);
             var from := if Wanted(key, inner) then scan.end else pos;
             from <= |text| && Skip(text, from, Level(inner) + 1) == Some(end)
    requires Wanted(key, inner) ==> inner && ScanString(text, pos).Failed?
    requires !inner && NamesInput(key) && pos < |text| ==> text[pos] != OPEN_BRACE
    ensures pos <= end <= |text| && Skippable(key, text[pos..end], inner)
  {
    hide Skip, ScanString, Wanted, NamesInput;
    var from := if Wanted(key, inner) then ScanString(text, pos).end else pos;
    SliceSkips(text, pos, from, end, Level(inner) + 1);
    if Wanted(key, inner) {
      SliceFails(text, pos, end, Level(inner) + 1);
    }
  }

  lemma SliceWithin(text: Bytes, pos: nat, end: nat)
    requires pos < end <= |text|
    ensures Within(text[pos..end], text, pos) && text[pos..end][0] == text[pos]
  {
  }

  lemma SliceSkips(text: Bytes, pos: nat, from: nat, end: nat, depth: nat)
    requires pos <= from <= |text| && Skip(text, from, depth) == Some(end)
    ensures pos < end <= |text| && text[pos..end][0] == text[pos]
    ensures Skip(text[pos..end], from - pos, depth) == Some(end - pos)
  {
    hide Skip;
    SliceWithin(text, pos, end);
    SkipBack(text[pos..end], text, pos, from - pos, depth);
  }

  lemma SliceFails(text: Bytes, pos: nat, end: nat, depth: nat)
    requires pos < end <= |text| && ScanString(text, pos).Failed?
    requires ScanString(text, pos).end <= |text| && Skip(text, ScanString(text, pos).end, depth) == Some(end)
    ensures ScanString(text[pos..end], 0) == Failed(ScanString(text, pos).end - pos)
  {
    hide Skip, ScanString;
    SliceWithin(text, pos, end);
    ValueStart(text, ScanString(text, pos).end, depth);
    FailBack(text[pos..end], text, pos);
  }

  lemma FailBack(part: Bytes, text: Bytes, off: nat)
    requires Within(part, text, off) && part != [] && ScanString(text, off).Failed?
    requires var f := ScanString(text, off).end; f < off + |part| && text[f] >= 0x20 && text[f] != BACKSLASH
    ensures ScanString(part, 0) == Failed(ScanString(text, off).end - off)
  {
    hide ScanBody;
    WithinAt(part, text, off);
    assert text[off + 0] == part[0];
    if part[0] == QUOTE {
      BodyFailBack(part, text, off, 1);
    }
  }

  /** A member that is read, and where its separator is. */
  lemma {:induction false} MemberIsWritten(text: Bytes, pos: nat, f: Fields, inner: bool) returns (item: Item, stop: nat)
    requires pos <= |text| && SkipBlank(text, pos) < |text| && text[SkipBlank(text, pos)] != CLOSE_BRACE
    requires NextMember(text, pos, Level(inner), f, inner) != Ended(None)
    ensures Writable(item, inner) && pos <= stop < |text| && text[pos..stop] == ItemBytes(item)
    ensures text[stop] == COMMA || text[stop] == CLOSE_BRACE
    ensures NextMember(text, pos, Level(inner), f, inner) ==
            if text[stop] == COMMA then Going(stop + 1, StatedBy(f, item, inner))
            else Ended(Some(Collected(stop + 1, StatedBy(f, item, inner))))
    decreases |text| - pos, 1
  {
    hide ScanString, SkipBlank, MemberStart, MemberValue, AllAllowed, MeaningAll, AllBlank, KeyBytes, ValueBytes, Writable;
    var value := MemberStart(text, SkipBlank(text, pos)).value;
    KeyIsScanned(text, SkipBlank(text, pos));
    var content := ScanString(text, SkipBlank(text, pos)).content;
    var member := MemberValue(text, value, Level(inner), f, inner, content).value;
    stop := SkipBlank(text, member.end);
    GapIsBlank(text, member.end);
    var gaps, key := KeyIsWritten(text, pos, text[member.end..stop]);
    item := ValueIsWritten(text, value, f, inner, gaps, key);
    KeyBytesAlike(item, Other(gaps, key, []));
    assert text[pos..stop] == text[pos..value] + (text[value..member.end] + text[member.end..stop]);
  }

  lemma KeyIsScanned(text: Bytes, pos: nat)
    requires pos <= |text| && MemberStart(text, pos).Some?
    ensures ScanString(text, pos).Scanned?
  {
    hide ScanString, SkipBlank;
  }

  lemma KeyBytesAlike(a: Item, b: Item)
    requires a.key == b.key && a.gaps == b.gaps
    ensures KeyBytes(a) == KeyBytes(b)
  {
  }

  /** Every member list that is accepted was written as some list, and states what
      was collected. */
  lemma {:induction false} MembersAreWritten(text: Bytes, pos: nat, f: Fields, inner: bool) returns (list: List)
    requires pos <= |text| && Members(text, pos, Level(inner), f, inner).Some?
    ensures AllWritable(list, inner)
    ensures var r := Members(text, pos, Level(inner), f, inner).value;
            text[pos..r.end] == ListBytes(list) && r.fields == Stated(f, list, inner)
    decreases |text| - pos, 2
  {
    hide NextMember, Writable, ItemBytes, SkipBlank, AllBlank, StatedBy;
    var start := MembersStart(text, pos, f, inner);
    if text[start] == CLOSE_BRACE {
      GapIsBlank(text, pos);
      list := End(text[pos..start]);
      JoinMember(text, pos, start, start + 1);
    } else {
      var item, stop := MemberIsWritten(text, pos, f, inner);
      if text[stop] == COMMA {
        var rest := MembersAreWritten(text, stop + 1, StatedBy(f, item, inner), inner);
        list := Then(item, rest);
        var end := Members(text, stop + 1, Level(inner), StatedBy(f, item, inner), inner).value.end;
        JoinMember(text, pos, stop, end);
      } else {
        list := Last(item);
        JoinMember(text, pos, stop, stop + 1);
      }
    }
  }

  lemma JoinMember(text: Bytes, pos: nat, stop: nat, end: nat)
    requires pos <= stop < end <= |text|
    ensures text[pos..end] == text[pos..stop] + ([text[stop]] + text[stop + 1..end])
    ensures end == stop + 1 ==> text[pos..end] == text[pos..stop] + [text[stop]]
  {
  }

  lemma MembersStart(text: Bytes, pos: nat, f: Fields, inner: bool) returns (start: nat)
    requires pos <= |text| && Members(text, pos, Level(inner), f, inner).Some?
    ensures start == SkipBlank(text, pos) < |text|
    ensures text[start] == CLOSE_BRACE ==> NextMember(text, pos, Level(inner), f, inner) == Ended(Some(Collected(start + 1, f)))
    ensures NextMember(text, pos, Level(inner), f, inner) != Ended(None)
  {
    hide MemberValue, MemberStart, SkipBlank;
    start := SkipBlank(text, pos);
  }

  lemma AcceptedIsWritten(raw: Bytes) returns (before: Bytes, list: List, after: Bytes)
    requires Extract(raw).Extracted?
    ensures IsWriting(raw, before, list, after) && Extract(raw).fields == Stated(NO_FIELDS, list, false)
  {
    hide Members, ListBytes, AllWritable, Stated, SkipBlank, AllBlank;
    var start := SkipBlank(raw, 0);
    var end := Members(raw, start + 1, ROOT_DEPTH, NO_FIELDS, false).value.end;
    GapIsBlank(raw, 0);
    GapIsBlank(raw, end);
    before, after := raw[0..start], raw[end..|raw|];
    list := MembersAreWritten(raw, start + 1, NO_FIELDS, false);
    assert raw == raw[0..start] + ([raw[start]] + (raw[start + 1..end] + raw[end..|raw|]));
  }

  /** The accepted payloads exactly: extraction yields these fields if and only if
      the payload is within the size bound and is a writing of one object, in this
      grammar, that states them. */
  lemma ExtractsExactly(raw: Bytes, fields: Fields)
    ensures Extract(raw) == Extracted(fields) <==>
            && |raw| <= 1_048_576
            && exists before, list, after ::
                 IsWriting(raw, before, list, after) && fields == Stated(NO_FIELDS, list, false)
  {
    hide Extract, Stated, AllWritable, ListBytes;
    if Extract(raw) == Extracted(fields) {
      var before, list, after := AcceptedIsWritten(raw);
      AcceptedIsSmall(raw);
    }
    if before, list, after :| IsWriting(raw, before, list, after) && fields == Stated(NO_FIELDS, list, false) {
      ExtractReadsBack(raw, before, list, after);
    }
  }

  lemma AcceptedIsSmall(raw: Bytes)
    requires Extract(raw).Extracted?
    ensures |raw| <= MAX_BYTES
  {
    hide Members;
  }

  // ---- Events ----

  /** The payload a harness writes for one tool call. */
  function EventItems(f: Fields): List
  {
    Then(Plainly(SESSION_ID, f.session), Then(Plainly(HOOK_EVENT_NAME, f.event), Then(Plainly(TOOL_NAME, f.tool),
         Last(Input(NO_GAPS, EscapeAll(TOOL_INPUT), InputItems(f))))))
  }

  function InputItems(f: Fields): List
  {
    Then(Plainly(COMMAND, f.command), Last(Plainly(FILE_PATH, f.filePath)))
  }

  function Plainly(key: Bytes, value: Bytes): Item
  {
    Text(NO_GAPS, EscapeAll(key), EscapeAll(value))
  }

  /** Any five field values can be written and are extracted unchanged. */
  lemma EventRoundTrip(f: Fields)
    ensures var raw := [OPEN_BRACE] + ListBytes(EventItems(f));
            |raw| <= MAX_BYTES ==> Extract(raw) == Extracted(f)
  {
    EventStates(f);
    hide EventItems, Extract, ListBytes, AllWritable, Stated;
    var bytes := ListBytes(EventItems(f));
    assert [] + ([OPEN_BRACE] + (bytes + [])) == [OPEN_BRACE] + bytes;
    ExtractReadsBack([OPEN_BRACE] + bytes, [], EventItems(f), []);
  }

  lemma PlainlyStates(g: Fields, key: Bytes, value: Bytes, inner: bool)
    ensures Writable(Plainly(key, value), inner)
    ensures StatedBy(g, Plainly(key, value), inner) == if Wanted(key, inner) then Assign(g, key, value) else g
  {
    hide EscapeAll, MeaningAll, AllAllowed;
    EscapeRoundTrip(key);
    EscapeRoundTrip(value);
  }

  lemma EventStates(f: Fields)
    ensures AllWritable(EventItems(f), false) && Stated(NO_FIELDS, EventItems(f), false) == f
  {
    hide EscapeAll, MeaningAll, AllAllowed, Plainly, InputItems;
    var a := NO_FIELDS.(session := f.session);
    var b := a.(event := f.event);
    var c := b.(tool := f.tool);
    PlainlyStates(NO_FIELDS, SESSION_ID, f.session, false);
    PlainlyStates(a, HOOK_EVENT_NAME, f.event, false);
    PlainlyStates(b, TOOL_NAME, f.tool, false);
    EscapeRoundTrip(TOOL_INPUT);
    InputStates(c, f);
    var last := Input(NO_GAPS, EscapeAll(TOOL_INPUT), InputItems(f));
    assert Writable(last, false) && StatedBy(c, last, false) == f;
    hide Writable, StatedBy;
    OneMoreStated(b, Plainly(TOOL_NAME, f.tool), Last(last), false);
    OneMoreStated(a, Plainly(HOOK_EVENT_NAME, f.event), Then(Plainly(TOOL_NAME, f.tool), Last(last)), false);
  }

  lemma OneMoreStated(f: Fields, item: Item, rest: List, inner: bool)
    requires Writable(item, inner) && AllWritable(rest, inner)
    ensures AllWritable(Then(item, rest), inner)
    ensures Stated(f, Then(item, rest), inner) == Stated(StatedBy(f, item, inner), rest, inner)
  {
    hide Writable, StatedBy;
  }

  lemma InputStates(g: Fields, f: Fields)
    ensures AllWritable(InputItems(f), true)
    ensures Stated(g, InputItems(f), true) == g.(command := f.command, filePath := f.filePath)
  {
    hide Plainly;
    var h := g.(command := f.command);
    PlainlyStates(g, COMMAND, f.command, true);
    PlainlyStates(h, FILE_PATH, f.filePath, true);
    assert Stated(h, Last(Plainly(FILE_PATH, f.filePath)), true) == h.(filePath := f.filePath);
  }

  // ---- Tolerances ----

  /** A list may end in a comma, and the comma says nothing. */
  lemma TrailingCommaTolerated(f: Fields, item: Item, inner: bool)
    requires Writable(item, inner)
    ensures AllWritable(Then(item, End([])), inner)
    ensures Stated(f, Then(item, End([])), inner) == Stated(f, Last(item), inner)
  {
    hide Writable;
  }

  lemma BadEscapeFails(raw: Bytes)
    requires |raw| > 3 && raw[0] == QUOTE && raw[1] == BACKSLASH && raw[2] == 0x78
    ensures ScanString(raw, 0) == Failed(3)
  {
    hide AllHex;
  }

  /** An unreadable string for an inner field is passed over when what is left of
      it reads as a value: a quote, a bad escape and any value the scanner skips. */
  lemma BrokenStringTolerated(value: Bytes, key: Bytes)
    requires Wanted(key, true) && Skip(value, 0, Level(true) + 1) == Some(|value|)
    ensures Skippable(key, [QUOTE, BACKSLASH, 0x78] + value, true)
  {
    hide Skip, ScanString, Wanted, NamesInput;
    SkipInside(value, 0, Level(true) + 1);
    var raw := [QUOTE, BACKSLASH, 0x78] + value;
    assert raw[0] == QUOTE && raw[1] == BACKSLASH && raw[2] == 0x78;
    BadEscapeFails(raw);
    assert Within(value, raw, 3);
    assert Bounded(value, raw, 3);
    SkipShifts(value, raw, 3, 0, Level(true) + 1);
  }
}
