/** The values the scanner can skip, as a grammar: strings, words, number runs
    and nested containers with optional commas (src/adapter/zcode_event.cpp). */
module ValueGrammar {
  import opened Values
  import opened Scanner
  import opened Events
  import Payload
  import G = PayloadGrammar

  datatype Value =
    | Str(units: seq<Unit>)
    | Word(word: Bytes)
    | Number(digits: Bytes)
    | Container(open: byte, gap: Bytes, entries: Entries)

  datatype Entries = Done | With(entry: Entry, rest: Entries)

  /** In an object an entry has a key; in an array the key part is not written. */
  datatype Entry = Entry(key: seq<Unit>, afterKey: Bytes, afterColon: Bytes, value: Value, sep: Sep)

  /** Between entries: blanks, and at most one comma. */
  datatype Sep = Sep(before: Bytes, comma: bool, after: Bytes)

  function KeyBytes(open: byte, e: Entry): Bytes
  {
    if open == '{' as int then Quoted(e.key) + (e.afterKey + ([':' as int] + e.afterColon)) else []
  }

  function SepBytes(s: Sep): Bytes
  {
    s.before + if s.comma then [',' as int] + s.after else []
  }

  function ValueBytes(v: Value): Bytes
    decreases v, 0
  {
    match v
    case Str(units) => Quoted(units)
    case Word(word) => word
    case Number(digits) => digits
    case Container(open, gap, entries) => [open] + (gap + EntriesBytes(open, entries))
  }

  function EntriesBytes(open: byte, entries: Entries): (r: Bytes)
    ensures r != []
    decreases entries, 1
  {
    match entries
    case Done => [if open == '{' as int then '}' as int else ']' as int]
    case With(e, rest) => KeyBytes(open, e) + (ValueBytes(e.value) + (SepBytes(e.sep) + EntriesBytes(open, rest)))
  }

  predicate NumberStart(b: byte)
  {
    b == '-' as int || b == '+' as int || '0' as int <= b <= '9' as int
  }

  /** An octet a number may hold after its first. */
  predicate NumberPart(b: byte)
  {
    NumberStart(b) || b == '.' as int || b == 'e' as int || b == 'E' as int
  }

  predicate Space(b: byte)
  {
    b == ' ' as int || b == '\t' as int || b == '\r' as int || b == '\n' as int
  }

  ghost predicate Spaces(gap: Bytes)
  {
    forall i :: 0 <= i < |gap| ==> Space(gap[i])
  }

  /** A value that may stand at the given depth. Depth 16 is the last one. */
  ghost predicate Legal(v: Value, depth: nat)
    decreases v, 0
  {
    depth <= 16
    && match v
       case Str(units) => AllAllowed(units)
       case Word(word) => word == Ascii("true") || word == Ascii("false") || word == Ascii("null")
       case Number(digits) =>
         digits != [] && NumberStart(digits[0]) && forall i :: 0 <= i < |digits| ==> NumberPart(digits[i])
       case Container(open, gap, entries) =>
         (open == '{' as int || open == '[' as int) && Spaces(gap) && LegalEntries(open, entries, depth + 1)
  }

  /** A number must not run into what follows it. */
  ghost predicate LegalEntries(open: byte, entries: Entries, depth: nat)
    decreases entries, 1
  {
    match entries
    case Done => true
    case With(e, rest) =>
      && (open == '{' as int ==> AllAllowed(e.key) && Spaces(e.afterKey) && Spaces(e.afterColon))
      && Legal(e.value, depth)
      && Spaces(e.sep.before) && Spaces(e.sep.after)
      && (e.value.Number? ==> !NumberPart((SepBytes(e.sep) + EntriesBytes(open, rest))[0]))
      && LegalEntries(open, rest, depth)
  }

  lemma Classes(b: byte)
    ensures Space(b) <==> Blank(b)
    ensures NumberPart(b) <==> Numeric(b)
    ensures NumberStart(b) <==> b == 0x2D || b == 0x2B || 0x30 <= b <= 0x39
  {
  }

  lemma SpacesAreBlank(gap: Bytes)
    ensures Spaces(gap) <==> G.AllBlank(gap)
  {
    forall i | 0 <= i < |gap| ensures Space(gap[i]) <==> Blank(gap[i]) {
      Classes(gap[i]);
    }
  }

  lemma Words()
    ensures Ascii("true") == TRUE && Ascii("false") == FALSE && Ascii("null") == NULL
  {
  }

  // ---- How values and entries begin ----

  lemma ValueFirst(v: Value, depth: nat)
    requires Legal(v, depth)
    ensures var b := ValueBytes(v);
            b != [] && !Blank(b[0]) && b[0] != COMMA && b[0] != CLOSE_BRACE && b[0] != CLOSE_BRACKET
  {
    hide RenderAll, AllAllowed;
    Words();
  }

  lemma EntriesFirst(open: byte, entries: Entries, depth: nat)
    requires (open == OPEN_BRACE || open == OPEN_BRACKET) && LegalEntries(open, entries, depth)
    ensures var b := EntriesBytes(open, entries)[0];
            !Blank(b) && b != COMMA && (b == Close(open) <==> entries.Done?)
  {
    hide RenderAll, AllAllowed, Spaces, ValueBytes;
    if entries.With? {
      ValueFirst(entries.entry.value, depth);
    }
  }

  // ---- What is written is skipped ----

  lemma {:induction false} WrittenSkips(text: Bytes, pos: nat, end: nat, v: Value, depth: nat)
    requires pos <= end <= |text| && Legal(v, depth) && text[pos..end] == ValueBytes(v)
    requires v.Number? ==> end == |text| || !NumberPart(text[end])
    ensures Skip(text, pos, depth) == Some(end)
    decreases v, 0
  {
    hide ScanString, AllAllowed, Quoted, RunEnd, SkipItems, MeaningAll;
    ValueFirst(v, depth);
    assert text[pos] == text[pos..end][0] == ValueBytes(v)[0];
    match v
    case Str(units) =>
      QuotedFirst(units);
      QuotedScans(text, pos, end, units);
    case Word(word) => Words();
    case Number(digits) => NumberSkips(text, pos, end, digits);
    case Container(open, gap, entries) =>
      G.StartsWith(text, pos, end, open, gap + EntriesBytes(open, entries));
      EntriesSkip(text, pos + 1, end, open, gap, entries, depth + 1);
  }

  lemma QuotedFirst(units: seq<Unit>)
    ensures Quoted(units) != [] && Quoted(units)[0] == QUOTE
  {
    hide RenderAll;
  }

  lemma NumberSkips(text: Bytes, pos: nat, end: nat, digits: Bytes)
    requires pos < end <= |text| && text[pos..end] == digits
    requires NumberStart(digits[0]) && forall i :: 0 <= i < |digits| ==> NumberPart(digits[i])
    requires end == |text| || !NumberPart(text[end])
    ensures RunEnd(text, pos, Numeric) == end
    ensures text[pos] == 0x2D || text[pos] == 0x2B || 0x30 <= text[pos] <= 0x39
  {
    hide RunEnd;
    assert text[pos] == text[pos..end][0];
    forall i | pos <= i < end ensures Numeric(text[i]) {
      assert text[i] == text[pos..end][i - pos];
    }
    RunEndUnique(text, pos, Numeric, end);
  }

  lemma {:induction false} EntriesSkip(text: Bytes, pos: nat, end: nat, open: byte, gap: Bytes, entries: Entries, depth: nat)
    requires pos <= end <= |text| && (open == OPEN_BRACE || open == OPEN_BRACKET)
    requires Spaces(gap) && LegalEntries(open, entries, depth)
    requires text[pos..end] == gap + EntriesBytes(open, entries)
    ensures SkipItems(text, pos, open, depth) == Some(end)
    decreases entries, 1
  {
    hide ScanString, AllAllowed, Quoted, SkipBlank, Skip, KeyBytes, SepBytes, ValueBytes, Spaces, NextItem, Legal,
      LegalEntries, EntriesBytes, ItemStart, PastComma;
    EntriesFirst(open, entries, depth);
    EntriesParts(open, entries, depth);
    SpacesAreBlank(gap);
    G.SkipsGap(text, pos, end, gap, EntriesBytes(open, entries));
    var start := pos + |gap|;
    if entries.Done? {
      ItemsEnd(text, pos, open, depth);
    } else {
      var e, rest := entries.entry, entries.rest;
      var after := SepBytes(e.sep) + EntriesBytes(open, rest);
      var p := KeyLeads(text, start, end, open, e, after, depth);
      SplitSlice(text, p, end, ValueBytes(e.value), after);
      var q := p + |ValueBytes(e.value)|;
      assert text[q] == text[q..end][0] == after[0];
      WrittenSkips(text, p, q, e.value, depth);
      var r, gap' := SepSkips(text, q, end, open, e.sep, rest, depth);
      ItemsGoOn(text, pos, open, depth, p, q);
      EntriesSkip(text, r, end, open, gap', rest, depth);
    }
  }

  lemma EntriesParts(open: byte, entries: Entries, depth: nat)
    requires LegalEntries(open, entries, depth) && (open == OPEN_BRACE || open == OPEN_BRACKET)
    ensures entries.Done? ==> EntriesBytes(open, entries) == [Close(open)]
    ensures entries.With? ==>
              var e, rest := entries.entry, entries.rest;
              var after := SepBytes(e.sep) + EntriesBytes(open, rest);
              && EntriesBytes(open, entries) == KeyBytes(open, e) + (ValueBytes(e.value) + after)
              && (open == OPEN_BRACE ==> AllAllowed(e.key) && Spaces(e.afterKey) && Spaces(e.afterColon))
              && Legal(e.value, depth) && Spaces(e.sep.before) && Spaces(e.sep.after)
              && (e.value.Number? ==> !NumberPart(after[0]))
              && LegalEntries(open, rest, depth)
  {
    hide KeyBytes, ValueBytes, Legal, AllAllowed, Spaces, SepBytes;
  }

  lemma ItemsEnd(text: Bytes, pos: nat, open: byte, depth: nat)
    requires pos <= |text| && SkipBlank(text, pos) < |text| && text[SkipBlank(text, pos)] == Close(open)
    ensures NextItem(text, pos, open, depth) == Stop(Some(SkipBlank(text, pos) + 1))
  {
    hide SkipBlank;
  }

  lemma ItemsGoOn(text: Bytes, pos: nat, open: byte, depth: nat, p: nat, q: nat)
    requires pos <= |text| && SkipBlank(text, pos) < |text| && text[SkipBlank(text, pos)] != Close(open)
    requires ItemStart(text, SkipBlank(text, pos), open) == Some(p) && Skip(text, p, depth) == Some(q)
    ensures NextItem(text, pos, open, depth) == More(PastComma(text, q))
  {
    hide SkipBlank, Skip, ItemStart;
  }

  /** Past the key, if there is one, to the entry's value. */
  lemma KeyLeads(text: Bytes, start: nat, end: nat, open: byte, e: Entry, after: Bytes, depth: nat) returns (p: nat)
    requires start <= end <= |text| && (open == OPEN_BRACE || open == OPEN_BRACKET)
    requires open == OPEN_BRACE ==> AllAllowed(e.key) && Spaces(e.afterKey) && Spaces(e.afterColon)
    requires Legal(e.value, depth) && text[start..end] == KeyBytes(open, e) + (ValueBytes(e.value) + after)
    ensures start <= p <= end && ItemStart(text, start, open) == Some(p)
    ensures text[p..end] == ValueBytes(e.value) + after
  {
    hide ScanString, AllAllowed, Quoted, SkipBlank, ValueBytes, Spaces, Legal, MeaningAll;
    ValueFirst(e.value, depth);
    var rest := ValueBytes(e.value) + after;
    assert rest[0] == ValueBytes(e.value)[0];
    if open == OPEN_BRACE {
      SpacesAreBlank(e.afterKey);
      SpacesAreBlank(e.afterColon);
      var gaps := G.Gaps([], e.afterKey, e.afterColon, []);
      assert G.KeyBytes(G.Other(gaps, e.key, [])) == KeyBytes(open, e);
      var s;
      s, p := G.KeyLeadsToValue(text, start, end, G.Other(gaps, e.key, []), rest);
      NothingToSkip(text, start, end, e, rest);
    } else {
      p := start;
      assert KeyBytes(open, e) + rest == rest;
    }
  }

  lemma NothingToSkip(text: Bytes, start: nat, end: nat, e: Entry, rest: Bytes)
    requires start <= end <= |text| && text[start..end] == KeyBytes(OPEN_BRACE, e) + rest
    ensures SkipBlank(text, start) == start
  {
    hide Quoted;
    QuotedFirst(e.key);
    assert text[start] == text[start..end][0] == QUOTE;
  }

  /** Past the separator to the next entry, with the blanks still before it. */
  lemma SepSkips(text: Bytes, q: nat, end: nat, open: byte, s: Sep, rest: Entries, depth: nat)
    returns (r: nat, gap: Bytes)
    requires q <= end <= |text| && (open == OPEN_BRACE || open == OPEN_BRACKET)
    requires Spaces(s.before) && Spaces(s.after) && LegalEntries(open, rest, depth)
    requires text[q..end] == SepBytes(s) + EntriesBytes(open, rest)
    ensures q <= r <= end && PastComma(text, q) == r && Spaces(gap)
    ensures text[r..end] == gap + EntriesBytes(open, rest)
  {
    hide SkipBlank, EntriesBytes, LegalEntries, Spaces;
    var bytes := EntriesBytes(open, rest);
    EntriesFirst(open, rest, depth);
    SpacesAreBlank(s.before);
    if s.comma {
      var after := [COMMA] + (s.after + bytes);
      assert SepBytes(s) + bytes == s.before + after;
      G.SkipsGap(text, q, end, s.before, after);
      G.StartsWith(text, q + |s.before|, end, COMMA, s.after + bytes);
      r, gap := q + |s.before| + 1, s.after;
    } else {
      assert SepBytes(s) + bytes == s.before + bytes;
      G.SkipsGap(text, q, end, s.before, bytes);
      r, gap := q + |s.before|, [];
      NoSpaces();
      assert [] + bytes == bytes;
    }
  }

  lemma NoSpaces()
    ensures Spaces([])
  {
  }

  // ---- What is skipped is written ----

  lemma {:induction false} SkippedIsWritten(text: Bytes, pos: nat, depth: nat) returns (v: Value)
    requires pos <= |text| && Skip(text, pos, depth).Some?
    ensures var end := Skip(text, pos, depth).value;
            && Legal(v, depth) && text[pos..end] == ValueBytes(v)
            && (v.Number? ==> end == |text| || !NumberPart(text[end]))
    decreases |text| - pos, 0
  {
    hide ScanString, AllAllowed, Quoted, RunEnd, SkipItems, MeaningAll, Literal, EntriesBytes, LegalEntries;
    var c, end := text[pos], Skip(text, pos, depth).value;
    Classes(c);
    if c == QUOTE {
      var units := G.KeyUnits(text, pos);
      v := Str(units);
    } else if c == OPEN_BRACE || c == OPEN_BRACKET {
      var gap, entries := ItemsAreWritten(text, pos + 1, c, depth + 1);
      v := Container(c, gap, entries);
      assert text[pos..end] == [c] + text[pos + 1..end];
    } else if c == 0x74 || c == 0x66 || c == 0x6E {
      v := Word(text[pos..end]);
      WordIsWritten(text, pos, depth, end);
    } else {
      v := Number(text[pos..end]);
      NumberIsWritten(text, pos, end);
    }
  }

  lemma WordIsWritten(text: Bytes, pos: nat, depth: nat, end: nat)
    requires pos < |text| && Skip(text, pos, depth) == Some(end)
    requires text[pos] == 0x74 || text[pos] == 0x66 || text[pos] == 0x6E
    ensures depth <= 16
    ensures text[pos..end] == Ascii("true") || text[pos..end] == Ascii("false") || text[pos..end] == Ascii("null")
  {
    hide SkipItems, ScanString, RunEnd;
    Words();
  }

  lemma NumberIsWritten(text: Bytes, pos: nat, end: nat)
    requires pos < |text| && NumberStart(text[pos]) && RunEnd(text, pos, Numeric) == end
    ensures pos < end <= |text| && text[pos..end][0] == text[pos]
    ensures forall i :: 0 <= i < end - pos ==> NumberPart(text[pos..end][i])
    ensures end == |text| || !NumberPart(text[end])
  {
    Classes(text[pos]);
    assert forall i :: 0 <= i < end - pos ==> text[pos..end][i] == text[pos + i];
  }

  lemma {:induction false} ItemsAreWritten(text: Bytes, pos: nat, open: byte, depth: nat)
    returns (gap: Bytes, entries: Entries)
    requires pos <= |text| && (open == OPEN_BRACE || open == OPEN_BRACKET) && SkipItems(text, pos, open, depth).Some?
    ensures gap == text[pos..SkipBlank(text, pos)] && Spaces(gap) && LegalEntries(open, entries, depth)
    ensures text[pos..SkipItems(text, pos, open, depth).value] == gap + EntriesBytes(open, entries)
    decreases |text| - pos, 2
  {
    hide ScanString, AllAllowed, Quoted, SkipBlank, Skip, SkipItems, ItemStart, PastComma, KeyBytes, SepBytes, ValueBytes,
      Spaces, Legal;
    var start, end := SkipBlank(text, pos), SkipItems(text, pos, open, depth).value;
    ItemsParts(text, pos, open, depth);
    gap := text[pos..start];
    G.GapIsBlank(text, pos);
    SpacesAreBlank(gap);
    if text[start] == Close(open) {
      entries := Done;
      assert text[pos..end] == gap + [text[start]];
    } else {
      var p := ItemStart(text, start, open).value;
      var q := Skip(text, p, depth).value;
      var r := PastComma(text, q);
      SkipTwice(text, pos);
      var key, afterKey, afterColon := EntryKey(text, start, open);
      var v := SkippedIsWritten(text, p, depth);
      var gap', rest := ItemsAreWritten(text, r, open, depth);
      var sep := SepIsWritten(text, q, r, gap');
      var e := Entry(key, afterKey, afterColon, v, sep);
      KeyOfEntry(open, e);
      entries := With(e, rest);
      JoinEntry(text, start, p, q, r, end, KeyBytes(open, e), ValueBytes(v), sep, gap', EntriesBytes(open, rest));
      assert text[pos..end] == gap + text[start..end];
      assert text[q] == text[q..end][0];
    }
  }

  lemma ItemsParts(text: Bytes, pos: nat, open: byte, depth: nat)
    requires pos <= |text| && SkipItems(text, pos, open, depth).Some?
    ensures var start, end := SkipBlank(text, pos), SkipItems(text, pos, open, depth).value;
            && start < end <= |text|
            && if text[start] == Close(open) then end == start + 1
               else
                 var p := ItemStart(text, start, open);
                 && p.Some? && Skip(text, p.value, depth).Some?
                 && var q := Skip(text, p.value, depth).value;
                 && start <= p.value < q <= PastComma(text, q) <= end
                 && SkipItems(text, PastComma(text, q), open, depth) == Some(end)
  {
    hide SkipBlank, Skip, ItemStart, PastComma;
  }

  /** The key part of an entry. */
  lemma EntryKey(text: Bytes, start: nat, open: byte) returns (key: seq<Unit>, afterKey: Bytes, afterColon: Bytes)
    requires start < |text| && ItemStart(text, start, open).Some? && SkipBlank(text, start) == start
    ensures open == OPEN_BRACE ==> AllAllowed(key) && Spaces(afterKey) && Spaces(afterColon)
    ensures text[start..ItemStart(text, start, open).value] ==
            if open == OPEN_BRACE then Quoted(key) + (afterKey + ([COLON] + afterColon)) else []
  {
    hide ScanString, AllAllowed, Quoted, SkipBlank, Spaces, MeaningAll;
    key, afterKey, afterColon := [], [], [];
    if open == OPEN_BRACE {
      var gaps;
      gaps, key := G.KeyIsWritten(text, start, []);
      afterKey, afterColon := gaps.afterKey, gaps.afterColon;
      SpacesAreBlank(afterKey);
      SpacesAreBlank(afterColon);
      ScannedAtQuote(text, start);
      NoGapBefore(text, start, MemberStart(text, start).value, gaps.before,
                  Quoted(key) + (afterKey + ([COLON] + afterColon)));
    }
  }

  lemma ScannedAtQuote(text: Bytes, pos: nat)
    requires ScanString(text, pos).Scanned?
    ensures pos < |text| && text[pos] == QUOTE
  {
  }

  lemma NoGapBefore(text: Bytes, start: nat, end: nat, gap: Bytes, rest: Bytes)
    requires start < end <= |text| && text[start] == QUOTE && G.AllBlank(gap) && text[start..end] == gap + rest
    ensures gap == [] && text[start..end] == rest
  {
    assert text[start] == text[start..end][0] == (gap + rest)[0];
    BlankFirst(gap, rest);
    assert [] + rest == rest;
  }

  lemma BlankFirst(gap: Bytes, rest: Bytes)
    requires G.AllBlank(gap) && gap + rest != []
    ensures gap == [] || Blank((gap + rest)[0])
  {
  }

  lemma KeyOfEntry(open: byte, e: Entry)
    ensures KeyBytes(open, e) == if open == OPEN_BRACE then Quoted(e.key) + (e.afterKey + ([COLON] + e.afterColon)) else []
  {
  }

  lemma SepIsWritten(text: Bytes, q: nat, r: nat, gap: Bytes) returns (sep: Sep)
    requires q <= |text| && r == PastComma(text, q) && gap == text[r..SkipBlank(text, r)]
    ensures Spaces(sep.before) && Spaces(sep.after)
    ensures SepBytes(sep) == text[q..r] + gap
  {
    hide SkipBlank;
    var p := SkipBlank(text, q);
    G.GapIsBlank(text, q);
    G.GapIsBlank(text, r);
    SpacesAreBlank(text[q..p]);
    SpacesAreBlank(gap);
    if r == p {
      SkipTwice(text, q);
      sep := Sep(text[q..p], false, []);
    } else {
      sep := Sep(text[q..p], true, gap);
      assert text[q..r] == text[q..p] + [COMMA];
    }
  }

  lemma SkipTwice(text: Bytes, pos: nat)
    requires pos <= |text|
    ensures SkipBlank(text, SkipBlank(text, pos)) == SkipBlank(text, pos)
  {
  }

  lemma JoinEntry(text: Bytes, start: nat, p: nat, q: nat, r: nat, end: nat, key: Bytes, value: Bytes, sep: Sep,
                  gap: Bytes, rest: Bytes)
    requires start <= p <= q <= r <= end <= |text|
    requires text[start..p] == key && text[p..q] == value && SepBytes(sep) == text[q..r] + gap
    requires text[r..end] == gap + rest
    ensures text[start..end] == key + (value + (SepBytes(sep) + rest))
    ensures text[q..end] == SepBytes(sep) + rest
  {
    assert text[q..end] == text[q..r] + text[r..end];
    assert text[p..end] == text[p..q] + text[q..end];
    assert text[start..end] == text[start..p] + text[p..end];
  }

  /** A value is skipped, to a given end, exactly when the text up to there is a
      writing of a legal value: strings of allowed units, the three words, number
      runs taken whole, and containers nested no deeper than sixteen, whose
      entries may or may not be separated by a comma. */
  lemma SkipsExactly(text: Bytes, pos: nat, depth: nat, end: nat)
    requires pos <= |text|
    ensures Skip(text, pos, depth) == Some(end) <==>
            pos <= end <= |text|
            && exists v :: Legal(v, depth) && text[pos..end] == ValueBytes(v)
                           && (v.Number? ==> end == |text| || !NumberPart(text[end]))
  {
    hide Skip, Legal, ValueBytes;
    if Skip(text, pos, depth) == Some(end) {
      var v := SkippedIsWritten(text, pos, depth);
    }
    if pos <= end <= |text| {
      if v :| Legal(v, depth) && text[pos..end] == ValueBytes(v)
              && (v.Number? ==> end == |text| || !NumberPart(text[end])) {
        WrittenSkips(text, pos, end, v, depth);
      }
    }
  }

  /** So the members a payload may carry besides its fields are exactly those with
      a legal value: at depth 2 in the event and 3 in the tool input, and no
      object where the tool input is entered. */
  lemma SkippableExactly(key: Bytes, raw: Bytes, inner: bool)
    requires !Payload.Wanted(key, inner)
    ensures G.Skippable(key, raw, inner) <==>
            && (exists v :: Legal(v, if inner then 3 else 2) && raw == ValueBytes(v))
            && !(!inner && Payload.NamesInput(key) && raw[0] == '{' as int)
  {
    hide Skip, Legal, ValueBytes, Payload.Wanted, Payload.NamesInput;
    SkipsExactly(raw, 0, if inner then 3 else 2, |raw|);
    assert raw[0..|raw|] == raw;
    if v :| Legal(v, if inner then 3 else 2) && raw == ValueBytes(v) {
      ValueFirst(v, if inner then 3 else 2);
    }
  }
}
