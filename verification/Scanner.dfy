/** JSON strings as the hook payload scanner reads them
    (src/adapter/zcode_event.cpp): escapes, \u sequences and UTF-8 output. */
module Scanner {
  import opened Values

  const QUOTE: byte := 0x22
  const BACKSLASH: byte := 0x5C
  const LETTER_U: byte := 0x75

  // ---- UTF-8 of section 3 of RFC 3629, for codes below 0x10000 ----

  type code = c: int | 0 <= c < 0x1_0000

  predicate Surrogate(c: code)
  {
    0xD800 <= c <= 0xDFFF
  }

  function Utf8(c: code): Bytes
  {
    if c < 0x80 then [c]
    else if c < 0x800 then [0xC0 + c / 64, 0x80 + c % 64]
    else [0xE0 + c / 4096, 0x80 + c / 64 % 64, 0x80 + c % 64]
  }

  predicate Continuation(b: byte)
  {
    0x80 <= b < 0xC0
  }

  /** A strict decoder of one- to three-octet sequences: shortest forms only,
      no surrogates. */
  function Utf8Decode(bytes: Bytes): Option<code>
  {
    if |bytes| == 1 && bytes[0] < 0x80 then Some(bytes[0])
    else if |bytes| == 2 && 0xC2 <= bytes[0] < 0xE0 && Continuation(bytes[1]) then
      Some((bytes[0] as int - 0xC0) * 64 + (bytes[1] as int - 0x80))
    else if |bytes| == 3 && 0xE0 <= bytes[0] < 0xF0 && Continuation(bytes[1]) && Continuation(bytes[2]) then
      var c := (bytes[0] as int - 0xE0) * 4096 + (bytes[1] as int - 0x80) * 64 + (bytes[2] as int - 0x80);
      if c < 0x800 || Surrogate(c) then None else Some(c)
    else None
  }

  /** Every non-surrogate code is written so that it decodes back. */
  lemma Utf8RoundTrip(c: code)
    requires !Surrogate(c)
    ensures Utf8Decode(Utf8(c)) == Some(c)
  {
    assert c == c / 64 * 64 + c % 64;
    assert c / 64 == c / 4096 * 64 + c / 64 % 64;
  }

  // ---- Hexadecimal digits ----

  function HexDigit(b: byte): Option<nat>
  {
    if 0x30 <= b <= 0x39 then Some(b - 0x30)
    else if 0x61 <= b <= 0x66 then Some(b - 0x61 + 10)
    else if 0x41 <= b <= 0x46 then Some(b - 0x41 + 10)
    else None
  }

  predicate AllHex(digits: Bytes)
  {
    forall i :: 0 <= i < |digits| ==> HexDigit(digits[i]).Some?
  }

  function HexValue(digits: Bytes): nat
    requires AllHex(digits)
  {
    if digits == [] then 0
    else 16 * HexValue(digits[..|digits| - 1]) + HexDigit(digits[|digits| - 1]).value
  }

  lemma {:induction false} HexBound(digits: Bytes)
    requires AllHex(digits) && |digits| <= 4
    ensures |digits| == 4 ==> HexValue(digits) < 0x1_0000
    ensures |digits| == 3 ==> HexValue(digits) < 0x1000
    ensures |digits| == 2 ==> HexValue(digits) < 0x100
    ensures |digits| == 1 ==> HexValue(digits) < 0x10
  {
    if digits != [] {
      HexBound(digits[..|digits| - 1]);
    }
  }

  /** Four digits, most significant first; stops at the first that is none. */
  method ReadHex(text: Bytes, pos: nat) returns (r: Option<code>)
    requires pos + 4 <= |text|
    ensures r.Some? <==> AllHex(text[pos..pos + 4])
    ensures r.Some? ==> r.value == HexValue(text[pos..pos + 4])
  {
    var value: nat := 0;
    for digit := 0 to 4
      invariant AllHex(text[pos..pos + digit]) && value == HexValue(text[pos..pos + digit])
    {
      var h := HexDigit(text[pos + digit]);
      if h.None? {
        assert text[pos..pos + 4][digit] == text[pos + digit];
        return None;
      }
      assert text[pos..pos + digit + 1] == text[pos..pos + digit] + [text[pos + digit]];
      value := 16 * value + h.value;
    }
    HexBound(text[pos..pos + 4]);
    return Some(value);
  }

  // ---- The grammar of string contents ----

  /** One unit of a string: a plain octet, a two-character escape, or \uXXXX. */
  datatype Unit = Plain(octet: byte) | Escape(letter: byte) | Code(digits: Bytes)

  /** What a two-character escape stands for. */
  function Escaped(letter: byte): Option<byte>
  {
    if letter == QUOTE || letter == BACKSLASH || letter == 0x2F then Some(letter)
    else if letter == 0x62 then Some(0x08)
    else if letter == 0x66 then Some(0x0C)
    else if letter == 0x6E then Some(0x0A)
    else if letter == 0x72 then Some(0x0D)
    else if letter == 0x74 then Some(0x09)
    else None
  }

  predicate Allowed(u: Unit)
  {
    match u
    case Plain(b) => b >= 0x20 && b != QUOTE && b != BACKSLASH
    case Escape(letter) => Escaped(letter).Some?
    case Code(digits) => |digits| == 4 && AllHex(digits) && (HexBound(digits); !Surrogate(HexValue(digits)))
  }

  function Render(u: Unit): Bytes
  {
    match u
    case Plain(b) => [b]
    case Escape(letter) => [BACKSLASH, letter]
    case Code(digits) => [BACKSLASH, LETTER_U] + digits
  }

  function Meaning(u: Unit): Bytes
    requires Allowed(u)
  {
    match u
    case Plain(b) => [b]
    case Escape(letter) => [Escaped(letter).value]
    case Code(digits) => HexBound(digits); Utf8(HexValue(digits))
  }

  predicate AllAllowed(units: seq<Unit>)
  {
    forall i :: 0 <= i < |units| ==> Allowed(units[i])
  }

  function RenderAll(units: seq<Unit>): Bytes
  {
    if units == [] then [] else Render(units[0]) + RenderAll(units[1..])
  }

  function MeaningAll(units: seq<Unit>): Bytes
    requires AllAllowed(units)
  {
    if units == [] then [] else Meaning(units[0]) + MeaningAll(units[1..])
  }

  function Quoted(units: seq<Unit>): Bytes
  {
    [QUOTE] + RenderAll(units) + [QUOTE]
  }

  // ---- Reading one unit, then a string ----

  /** The unit at a position, or how far the cursor moves before giving up. */
  datatype Reading = Read(unit: Unit) | Unreadable(consumed: nat)

  function ReadUnit(text: Bytes, pos: nat): (r: Reading)
    requires pos < |text|
    ensures r.Read? ==> Allowed(r.unit) && pos + |Render(r.unit)| <= |text|
                        && text[pos..pos + |Render(r.unit)|] == Render(r.unit)
    ensures r.Unreadable? ==> pos + r.consumed <= |text|
  {
    var c := text[pos];
    if c < 0x20 || c == QUOTE then Unreadable(0)
    else if c != BACKSLASH then Read(Plain(c))
    else if pos + 1 >= |text| then Unreadable(0)
    else if Escaped(text[pos + 1]).Some? then Read(Escape(text[pos + 1]))
    else if text[pos + 1] != LETTER_U || pos + 6 > |text| || !AllHex(text[pos + 2..pos + 6]) then Unreadable(2)
    else
      var digits := text[pos + 2..pos + 6];
      HexBound(digits);
      assert text[pos..pos + 6] == [BACKSLASH, LETTER_U] + digits;
      if Surrogate(HexValue(digits)) then Unreadable(6) else Read(Code(digits))
  }

  datatype Scan = Scanned(end: nat, content: Bytes) | Failed(end: nat)

  /** The string from inside its opening quote. */
  function ScanBody(text: Bytes, pos: nat): (r: Scan)
    requires pos <= |text|
    ensures pos <= r.end <= |text| && (r.Scanned? ==> pos < r.end)
    decreases |text| - pos
  {
    if pos == |text| then Failed(pos)
    else if text[pos] == QUOTE then Scanned(pos + 1, [])
    else
      match ReadUnit(text, pos)
      case Unreadable(consumed) => Failed(pos + consumed)
      case Read(unit) => Prefixed(Meaning(unit), ScanBody(text, pos + |Render(unit)|))
  }

  function Prefixed(head: Bytes, scan: Scan): (r: Scan)
    ensures r.end == scan.end && (r.Scanned? <==> scan.Scanned?)
  {
    match scan
    case Scanned(end, content) => Scanned(end, head + content)
    case Failed(end) => scan
  }

  function ScanString(text: Bytes, pos: nat): (r: Scan)
    ensures r.Scanned? ==> pos < r.end <= |text|
    ensures pos < |text| && text[pos] == QUOTE ==> pos < r.end <= |text|
    ensures r.end >= pos
  {
    if pos >= |text| || text[pos] != QUOTE then Failed(pos) else ScanBody(text, pos + 1)
  }

  // ---- The scanner ----

  /** Advances a cursor; extraction only decides whether the content is kept. */
  method ScanStringAt(text: Bytes, pos: nat, extract: bool) returns (ok: bool, end: nat, content: Bytes)
    ensures ok <==> ScanString(text, pos).Scanned?
    ensures end == ScanString(text, pos).end
    ensures ok && extract ==> content == ScanString(text, pos).content
  {
    hide ReadUnit, Meaning, Render, Prefixed;
    end, content := pos, [];
    if end >= |text| || text[end] != QUOTE {
      return false, end, content;
    }
    end := end + 1;
    PrefixedNothing(ScanBody(text, end));
    while end < |text|
      invariant pos < end <= |text|
      invariant extract ==> ScanString(text, pos) == Prefixed(content, ScanBody(text, end))
      invariant ScanString(text, pos).end == ScanBody(text, end).end
      invariant ScanString(text, pos).Scanned? <==> ScanBody(text, end).Scanned?
      decreases |text| - end
    {
      if text[end] == QUOTE {
        PrefixedNothing(ScanBody(text, end));
        return true, end + 1, content;
      }
      var ok', next, meaning := ScanUnit(text, end);
      if !ok' {
        return false, next, content;
      }
      if extract {
        var rest := ScanBody(text, next);
        PrefixedTwice(content, meaning, rest);
        content := content + meaning;
      }
      end := next;
    }
    return false, end, content;
  }

  lemma PrefixedNothing(scan: Scan)
    ensures Prefixed([], scan) == scan
    ensures forall content: Bytes :: scan == Scanned(scan.end, []) ==> Prefixed(content, scan) == Scanned(scan.end, content)
  {
    if scan.Scanned? {
      assert [] + scan.content == scan.content;
    }
  }

  lemma PrefixedTwice(a: Bytes, b: Bytes, scan: Scan)
    ensures Prefixed(a, Prefixed(b, scan)) == Prefixed(a + b, scan)
  {
    if scan.Scanned? {
      assert a + (b + scan.content) == (a + b) + scan.content;
    }
  }

  /** One turn of the scanning loop. */
  method ScanUnit(text: Bytes, pos: nat) returns (ok: bool, next: nat, meaning: Bytes)
    requires pos < |text| && text[pos] != QUOTE
    ensures var r := ReadUnit(text, pos);
            && (ok <==> r.Read?)
            && (ok ==> next == pos + |Render(r.unit)| && meaning == Meaning(r.unit))
            && (!ok ==> next == pos + r.consumed)
    ensures ok ==> pos < next <= |text|
  {
    hide AllHex, HexValue, Utf8;
    var c := text[pos];
    if c < 0x20 {
      return false, pos, [];
    }
    if c != BACKSLASH {
      return true, pos + 1, [c];
    }
    if pos + 1 >= |text| {
      return false, pos, [];
    }
    var letter := text[pos + 1];
    if letter != LETTER_U {
      var simple := Escaped(letter);
      if simple.None? {
        return false, pos + 2, [];
      }
      return true, pos + 2, [simple.value];
    }
    if pos + 2 + 4 > |text| {
      return false, pos + 2, [];
    }
    var value := ReadHex(text, pos + 2);
    if value.None? {
      return false, pos + 2, [];
    }
    if Surrogate(value.value) {
      return false, pos + 6, [];
    }
    return true, pos + 6, Utf8(value.value);
  }

  // ---- Exactly the grammar ----

  lemma {:induction false} ScannedIsQuoted(text: Bytes, pos: nat) returns (units: seq<Unit>)
    requires pos <= |text| && ScanBody(text, pos).Scanned?
    ensures AllAllowed(units)
    ensures text[pos..ScanBody(text, pos).end] == RenderAll(units) + [QUOTE]
    ensures ScanBody(text, pos).content == MeaningAll(units)
    decreases |text| - pos
  {
    hide Allowed, Meaning, Render;
    if text[pos] == QUOTE {
      units := [];
    } else {
      var unit := ReadUnit(text, pos).unit;
      var next := pos + |Render(unit)|;
      RenderNonEmpty(unit);
      var rest := ScannedIsQuoted(text, next);
      units := [unit] + rest;
      assert units[1..] == rest;
      var end := ScanBody(text, pos).end;
      assert text[pos..end] == text[pos..next] + text[next..end];
    }
  }

  lemma RenderNonEmpty(u: Unit)
    ensures |Render(u)| > 0
  {
  }

  lemma SplitSlice(text: Bytes, pos: nat, end: nat, a: Bytes, b: Bytes)
    requires pos <= end <= |text| && text[pos..end] == a + b
    ensures pos + |a| <= end && text[pos..pos + |a|] == a && text[pos + |a|..end] == b
  {
    assert text[pos..pos + |a|] == text[pos..end][..|a|];
    assert text[pos + |a|..end] == text[pos..end][|a|..];
  }

  lemma {:induction false} QuotedIsScanned(text: Bytes, pos: nat, end: nat, units: seq<Unit>)
    requires pos <= end <= |text| && AllAllowed(units) && text[pos..end] == RenderAll(units) + [QUOTE]
    ensures ScanBody(text, pos) == Scanned(end, MeaningAll(units))
    decreases |units|
  {
    hide Allowed, Meaning, Render;
    if units == [] {
      assert text[pos..end] == [QUOTE];
      assert text[pos..end][0] == text[pos];
    } else {
      var n := |Render(units[0])|;
      RenderNonEmpty(units[0]);
      var body := RenderAll(units[1..]) + [QUOTE];
      assert text[pos..end] == Render(units[0]) + body;
      SplitSlice(text, pos, end, Render(units[0]), body);
      UnitReads(text, pos, units[0]);
      QuotedIsScanned(text, pos + n, end, units[1..]);
    }
  }

  /** A rendered unit is read back as itself. */
  lemma UnitReads(text: Bytes, pos: nat, u: Unit)
    requires Allowed(u) && pos + |Render(u)| <= |text| && text[pos..pos + |Render(u)|] == Render(u)
    ensures pos < |text| && text[pos] != QUOTE && ReadUnit(text, pos) == Read(u)
  {
    hide HexValue;
    var slice := text[pos..pos + |Render(u)|];
    match u
    case Plain(b) =>
      assert text[pos] == slice[0];
    case Escape(letter) =>
      assert text[pos] == slice[0] && text[pos + 1] == slice[1];
    case Code(digits) =>
      assert text[pos] == slice[0] && text[pos + 1] == slice[1];
      assert text[pos + 2..pos + 6] == slice[2..] == digits;
  }

  /** The scanner accepts exactly the grammar: a string ends at `end` with this
      content if and only if the text between is a quoted sequence of allowed
      units meaning it. */
  lemma ScansExactlyStrings(text: Bytes, pos: nat, end: nat, content: Bytes)
    requires pos <= end <= |text|
    ensures ScanString(text, pos) == Scanned(end, content) <==>
            exists units :: AllAllowed(units) && text[pos..end] == Quoted(units) && content == MeaningAll(units)
  {
    hide AllAllowed, RenderAll, MeaningAll, ScanBody;
    if ScanString(text, pos) == Scanned(end, content) {
      var units := ScannedIsQuoted(text, pos + 1);
      assert text[pos..end] == [QUOTE] + text[pos + 1..end];
      assert text[pos..end] == Quoted(units);
    }
    if units :| AllAllowed(units) && text[pos..end] == Quoted(units) && content == MeaningAll(units) {
      QuotedScans(text, pos, end, units);
    }
  }

  lemma QuotedScans(text: Bytes, pos: nat, end: nat, units: seq<Unit>)
    requires pos <= end <= |text| && AllAllowed(units) && text[pos..end] == Quoted(units)
    ensures ScanString(text, pos) == Scanned(end, MeaningAll(units))
  {
    hide AllAllowed, RenderAll, MeaningAll, ScanBody;
    assert text[pos] == text[pos..end][0] == QUOTE;
    assert text[pos + 1..end] == text[pos..end][1..] == RenderAll(units) + [QUOTE];
    QuotedIsScanned(text, pos + 1, end, units);
  }

  // ---- Every content can be written ----

  function HexLetter(n: nat): byte
    requires n < 16
  {
    if n < 10 then 0x30 + n else 0x61 + n - 10
  }

  function EscapeOctet(b: byte): Unit
  {
    if b == QUOTE || b == BACKSLASH then Escape(b)
    else if b < 0x20 then Code([0x30, 0x30, HexLetter(b / 16), HexLetter(b % 16)])
    else Plain(b)
  }

  function EscapeAll(content: Bytes): seq<Unit>
  {
    seq(|content|, i requires 0 <= i < |content| => EscapeOctet(content[i]))
  }

  lemma FourDigits(d: Bytes)
    requires |d| == 4 && AllHex(d)
    ensures HexValue(d) == 4096 * HexDigit(d[0]).value + 256 * HexDigit(d[1]).value
                           + 16 * HexDigit(d[2]).value + HexDigit(d[3]).value
  {
    hide HexDigit;
    assert d[..3][..2] == d[..2] && d[..2][..1] == d[..1] && d[..1][..0] == [];
    assert HexValue(d[..1]) == HexDigit(d[..1][0]).value;
    assert HexValue(d[..2]) == 16 * HexValue(d[..1]) + HexDigit(d[..2][1]).value;
    assert HexValue(d[..3]) == 16 * HexValue(d[..2]) + HexDigit(d[..3][2]).value;
  }

  lemma EscapeOctetMeans(b: byte)
    ensures Allowed(EscapeOctet(b)) && Meaning(EscapeOctet(b)) == [b]
  {
    if b < 0x20 {
      var d := [0x30, 0x30, HexLetter(b / 16), HexLetter(b % 16)];
      assert HexDigit(d[2]) == Some(b / 16) && HexDigit(d[3]) == Some(b % 16);
      assert AllHex(d);
      FourDigits(d);
    }
  }

  /** Any octet string has a rendering, and scanning it gives the string back. */
  lemma {:induction false} EscapeRoundTrip(content: Bytes)
    ensures AllAllowed(EscapeAll(content)) && MeaningAll(EscapeAll(content)) == content
  {
    hide Allowed, Meaning, EscapeOctet;
    if content != [] {
      EscapeRoundTrip(content[1..]);
      EscapeOctetMeans(content[0]);
      assert EscapeAll(content)[1..] == EscapeAll(content[1..]);
      var units := EscapeAll(content);
      forall i | 0 <= i < |units| ensures Allowed(units[i]) {
        EscapeOctetMeans(content[i]);
      }
      assert content == [content[0]] + content[1..];
    }
  }

  // ---- The alphabet, as section 7 of RFC 8259 gives it ----

  /** What may stand for itself, what each escape stands for, and which codes may
      be written with \\u: all but surrogates. */
  lemma UnitsExactly(b: byte)
    ensures Allowed(Plain(b)) <==> 0x20 <= b <= 0x21 || 0x23 <= b <= 0x5B || 0x5D <= b <= 0xFF
    ensures Allowed(Escape(b)) <==>
            || b == '"' as int || b == '\\' as int || b == '/' as int || b == 'b' as int
            || b == 'f' as int || b == 'n' as int || b == 'r' as int || b == 't' as int
    ensures b == '"' as int || b == '\\' as int || b == '/' as int ==> Meaning(Escape(b)) == [b]
    ensures Meaning(Escape('b' as int)) == [8] && Meaning(Escape('f' as int)) == [12]
    ensures Meaning(Escape('n' as int)) == ['\n' as int] && Meaning(Escape('r' as int)) == ['\r' as int]
    ensures Meaning(Escape('t' as int)) == ['\t' as int]
    ensures Render(Escape(b)) == ['\\' as int, b]
  {
  }

  /** Hexadecimal digits, in either case. */
  lemma HexExactly(b: byte)
    ensures HexDigit(b).Some? <==>
            '0' as int <= b <= '9' as int || 'a' as int <= b <= 'f' as int || 'A' as int <= b <= 'F' as int
    ensures '0' as int <= b <= '9' as int ==> HexDigit(b) == Some(b - '0' as int)
    ensures 'a' as int <= b <= 'f' as int ==> HexDigit(b) == Some(10 + b - 'a' as int)
    ensures 'A' as int <= b <= 'F' as int ==> HexDigit(b) == Some(10 + b - 'A' as int)
  {
  }

  /** A code of four digits, most significant first, is allowed unless it is a
      surrogate, and stands for the one character whose UTF-8 is its meaning. */
  lemma CodesExactly(digits: Bytes)
    requires |digits| == 4 && AllHex(digits)
    ensures var value := ((HexDigit(digits[0]).value * 16 + HexDigit(digits[1]).value) * 16
                          + HexDigit(digits[2]).value) * 16 + HexDigit(digits[3]).value;
            && value < 0x1_0000
            && (Allowed(Code(digits)) <==> !(0xD800 <= value < 0xE000))
            && (Allowed(Code(digits)) ==> Utf8Decode(Meaning(Code(digits))) == Some(value))
            && Render(Code(digits)) == Ascii("\\u") + digits
  {
    FourDigits(digits);
    HexBound(digits);
    if Allowed(Code(digits)) {
      Utf8RoundTrip(HexValue(digits));
    }
    hide HexValue, Utf8, Utf8Decode;
  }
}
