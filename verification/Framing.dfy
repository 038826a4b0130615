/** Authenticated length-prefixed frames (src/ipc/framing.cpp) and the
    constant-time comparison they rest on (src/auth.cpp). */
module Framing {
  import opened Values
  import opened LittleEndian

  /** "QVR1" */
  const MAGIC: nat := 0x51565231
  const VERSION: nat := 1
  const MAX_BODY: nat := 1024 * 1024
  const MAX_FRAME: nat := MAX_BODY + 64
  const HEADER: nat := 32
  const PREFIX: nat := 64

  type u16 = n: int | 0 <= n < 0x1_0000
  type u32 = n: int | 0 <= n < 0x1_0000_0000

  /** An HMAC-SHA256 value. */
  type Mac = b: Bytes | |b| == 32 witness seq(32, i => 0)

  datatype Header = Header(magic: u32, proto: u16, flags: u16, bodyLength: u64, requestId: u64, sequence: u64)

  datatype Denial =
    | SizeOutsideBounds
    | BadMagic
    | UnsupportedVersion
    | LengthDisagrees
    | BodyTooLarge
    | MacMismatch

  datatype Decoded = Verified(header: Header, body: Bytes) | Denied(denial: Denial)

  type Body = b: Bytes | |b| < 0x1_0000_0000_0000_0000

  // ---- Comparison in constant time ----

  /** Bitwise exclusive or, and or, of the low `width` bits. */
  function Xor(a: nat, b: nat, width: nat): nat
  {
    if width == 0 then 0 else (if a % 2 == b % 2 then 0 else 1) + 2 * Xor(a / 2, b / 2, width - 1)
  }

  function Or(a: nat, b: nat, width: nat): nat
  {
    if width == 0 then 0 else (if a % 2 == 0 && b % 2 == 0 then 0 else 1) + 2 * Or(a / 2, b / 2, width - 1)
  }

  function Pow2(n: nat): nat
  {
    if n == 0 then 1 else 2 * Pow2(n - 1)
  }

  lemma {:induction false} XorIsZero(a: nat, b: nat, width: nat)
    requires a < Pow2(width) && b < Pow2(width)
    ensures Xor(a, b, width) == 0 <==> a == b
    ensures Xor(a, b, width) < Pow2(width)
  {
    if width > 0 {
      XorIsZero(a / 2, b / 2, width - 1);
    }
  }

  lemma {:induction false} OrIsZero(a: nat, b: nat, width: nat)
    requires a < Pow2(width) && b < Pow2(width)
    ensures Or(a, b, width) == 0 <==> a == 0 && b == 0
    ensures Or(a, b, width) < Pow2(width)
  {
    if width > 0 {
      OrIsZero(a / 2, b / 2, width - 1);
    }
  }

  lemma OctetWidth()
    ensures Pow2(8) == 256
  {
    assert Pow2(4) == 16;
  }

  /** Never stops early, and still answers exactly whether the octets agree. */
  method ConstantTimeEqual(a: Bytes, b: Bytes) returns (equal: bool)
    ensures equal <==> a == b
  {
    if |a| != |b| {
      return false;
    }
    hide Xor, Or, Pow2;
    OctetWidth();
    var diff: byte := 0;
    for i := 0 to |a|
      invariant diff == 0 <==> a[..i] == b[..i]
    {
      assert a[..i + 1] == a[..i] + [a[i]] && b[..i + 1] == b[..i] + [b[i]];
      XorIsZero(a[i], b[i], 8);
      OrIsZero(diff, Xor(a[i], b[i], 8), 8);
      diff := Or(diff, Xor(a[i], b[i], 8), 8);
    }
    assert a == a[..|a|] && b == b[..|b|];
    return diff == 0;
  }

  // ---- The codec ----

  function HeaderBytes(h: Header, bodyLength: nat): (r: Bytes)
    ensures |r| == HEADER
  {
    Le(h.magic, 4) + (Le(h.proto + 0x1_0000 * h.flags, 4)
    + (Le(bodyLength, 8) + (Le(h.requestId, 8) + Le(h.sequence, 8))))
  }

  /** The header with the actual body length, a MAC over header and body, and
      the body. */
  function Encode(hmac: Bytes -> Mac, h: Header, body: Body): Bytes
  {
    var header := HeaderBytes(h, |body|);
    header + hmac(header + body) + body
  }

  function ReadHeader(bytes: Bytes): Header
    requires |bytes| >= HEADER
  {
    Widths();
    var packed := Value(bytes[4..8]);
    Header(Value(bytes[..4]), packed % 0x1_0000, packed / 0x1_0000, Value(bytes[8..16]), Value(bytes[16..24]),
           Value(bytes[24..32]))
  }

  function Decode(hmac: Bytes -> Mac, bytes: Bytes): Decoded
  {
    if |bytes| < PREFIX || |bytes| > MAX_FRAME then Denied(SizeOutsideBounds)
    else
      var h := ReadHeader(bytes);
      if h.magic != MAGIC then Denied(BadMagic)
      else if h.proto != VERSION then Denied(UnsupportedVersion)
      else if h.bodyLength != |bytes| - PREFIX then Denied(LengthDisagrees)
      else if h.bodyLength > MAX_BODY then Denied(BodyTooLarge)
      else if bytes[HEADER..PREFIX] != hmac(bytes[..HEADER] + bytes[PREFIX..]) then Denied(MacMismatch)
      else Verified(h, bytes[PREFIX..])
  }

  method DecodeFrame(hmac: Bytes -> Mac, bytes: Bytes) returns (r: Decoded)
    ensures r == Decode(hmac, bytes)
  {
    if |bytes| < PREFIX || |bytes| > MAX_FRAME {
      return Denied(SizeOutsideBounds);
    }
    var header := ReadHeader(bytes);
    if header.magic != MAGIC {
      return Denied(BadMagic);
    }
    if header.proto != VERSION {
      return Denied(UnsupportedVersion);
    }
    if header.bodyLength != |bytes| - PREFIX {
      return Denied(LengthDisagrees);
    }
    if header.bodyLength > MAX_BODY {
      return Denied(BodyTooLarge);
    }
    var expected := hmac(bytes[..HEADER] + bytes[PREFIX..]);
    var authentic := ConstantTimeEqual(bytes[HEADER..PREFIX], expected);
    if !authentic {
      return Denied(MacMismatch);
    }
    return Verified(header, bytes[PREFIX..]);
  }

  // ---- Two-way inverse ----

  lemma HeaderParts(a: Bytes, b: Bytes, c: Bytes, d: Bytes, e: Bytes, h: Bytes)
    requires h == a + (b + (c + (d + e))) && |a| == |b| == 4 && |c| == |d| == |e| == 8
    ensures h[..4] == a && h[4..8] == b && h[8..16] == c && h[16..24] == d && h[24..32] == e
  {
  }

  lemma Packing(proto: u16, flags: u16)
    ensures (proto + 0x1_0000 * flags) % 0x1_0000 == proto
    ensures (proto + 0x1_0000 * flags) / 0x1_0000 == flags
    ensures proto + 0x1_0000 * flags < 0x1_0000_0000
  {
  }

  lemma HeaderReadsBack(h: Header, bodyLength: u64)
    ensures ReadHeader(HeaderBytes(h, bodyLength)) == h.(bodyLength := bodyLength)
  {
    hide Le, Value, Pow256;
    Widths();
    var packed := h.proto + 0x1_0000 * h.flags;
    Packing(h.proto, h.flags);
    HeaderParts(Le(h.magic, 4), Le(packed, 4), Le(bodyLength, 8), Le(h.requestId, 8), Le(h.sequence, 8),
                HeaderBytes(h, bodyLength));
    ValueOfLe(h.magic, 4);
    ValueOfLe(packed, 4);
    ValueOfLe(bodyLength, 8);
    ValueOfLe(h.requestId, 8);
    ValueOfLe(h.sequence, 8);
  }

  lemma HeaderWritesBack(bytes: Bytes)
    requires |bytes| == HEADER
    ensures HeaderBytes(ReadHeader(bytes), ReadHeader(bytes).bodyLength) == bytes
  {
    hide Le, Value, Pow256;
    LeOfValue(bytes[..4]);
    LeOfValue(bytes[4..8]);
    LeOfValue(bytes[8..16]);
    LeOfValue(bytes[16..24]);
    LeOfValue(bytes[24..32]);
    assert bytes == bytes[..4] + (bytes[4..8] + (bytes[8..16] + (bytes[16..24] + bytes[24..32])));
  }

  lemma ReadHeaderIsLocal(bytes: Bytes)
    requires |bytes| >= HEADER
    ensures ReadHeader(bytes) == ReadHeader(bytes[..HEADER])
  {
    var h := bytes[..HEADER];
    assert bytes[..4] == h[..4] && bytes[4..8] == h[4..8] && bytes[8..16] == h[8..16];
    assert bytes[16..24] == h[16..24] && bytes[24..32] == h[24..32];
  }

  /** What decoding makes of any encoded frame: it is verified, with the true
      body length, exactly when magic, version and body size are in bounds. */
  lemma DecodeEncode(hmac: Bytes -> Mac, h: Header, body: Body)
    ensures Decode(hmac, Encode(hmac, h, body)) ==
            if |body| > MAX_BODY then Denied(SizeOutsideBounds)
            else if h.magic != MAGIC then Denied(BadMagic)
            else if h.proto != VERSION then Denied(UnsupportedVersion)
            else Verified(h.(bodyLength := |body|), body)
  {
    hide Le, Value, HeaderBytes, ReadHeader;
    var bytes := Encode(hmac, h, body);
    var header := HeaderBytes(h, |body|);
    assert bytes[..HEADER] == header && bytes[HEADER..PREFIX] == hmac(header + body) && bytes[PREFIX..] == body;
    HeaderReadsBack(h, |body|);
    ReadHeaderIsLocal(bytes);
  }

  /** Every accepted byte string is the encoding of what it decodes to. */
  lemma EncodeDecode(hmac: Bytes -> Mac, bytes: Bytes)
    requires Decode(hmac, bytes).Verified?
    ensures var r := Decode(hmac, bytes);
            && |r.body| <= MAX_BODY && r.header.bodyLength == |r.body|
            && r.header.magic == MAGIC && r.header.proto == VERSION
            && Encode(hmac, r.header, r.body) == bytes
  {
    hide Le, Value, HeaderBytes, ReadHeader;
    ReadHeaderIsLocal(bytes);
    HeaderWritesBack(bytes[..HEADER]);
    assert bytes == bytes[..HEADER] + bytes[HEADER..PREFIX] + bytes[PREFIX..];
  }

  /** What a verified frame looks like, octet by octet, and that nothing else is
      verified: between 64 and 1048640 octets, the magic "1RVQ", version 1, a
      length field that counts the body, and the MAC of header and body between
      the two. */
  lemma VerifiedExactly(hmac: Bytes -> Mac, bytes: Bytes)
    ensures Decode(hmac, bytes).Verified? <==>
            && 64 <= |bytes| <= 1_048_640
            && Value(bytes[..4]) == Value(Ascii("1RVQ"))
            && Value(bytes[4..8]) % 0x1_0000 == 1
            && Value(bytes[8..16]) == |bytes| - 64
            && bytes[32..64] == hmac(bytes[..32] + bytes[64..])
    ensures Decode(hmac, bytes).Verified? ==>
              var r := Decode(hmac, bytes);
              && r.body == bytes[64..] && r.header.bodyLength == |bytes| - 64
              && r.header.flags == Value(bytes[4..8]) / 0x1_0000
              && r.header.requestId == Value(bytes[16..24]) && r.header.sequence == Value(bytes[24..32])
  {
    MagicSpelled();
    hide Value, Pow256;
  }

  lemma MagicSpelled()
    ensures Value(Ascii("1RVQ")) == MAGIC
  {
    assert Ascii("1RVQ") == [0x31, 0x52, 0x56, 0x51];
    assert Ascii("1RVQ")[1..] == [0x52, 0x56, 0x51] && [0x52, 0x56, 0x51][1..] == [0x56, 0x51];
    assert [0x56, 0x51][1..] == [0x51] && [0x51][1..] == [];
    assert Value([0x51]) == 0x51 && Value([0x56, 0x51]) == 0x5156 && Value([0x52, 0x56, 0x51]) == 0x515652;
  }

  /** Each way a frame is denied, by the first check it fails. */
  lemma DeniedExactly(hmac: Bytes -> Mac, bytes: Bytes)
    ensures var r := Decode(hmac, bytes);
            var sized := 64 <= |bytes| <= 1_048_640;
            var marked := sized && Value(bytes[..4]) == MAGIC;
            var versioned := marked && Value(bytes[4..8]) % 0x1_0000 == 1;
            && (r == Denied(SizeOutsideBounds) <==> !sized)
            && (r == Denied(BadMagic) <==> sized && !marked)
            && (r == Denied(UnsupportedVersion) <==> marked && !versioned)
            && (r == Denied(LengthDisagrees) <==> versioned && Value(bytes[8..16]) != |bytes| - 64)
            && (r == Denied(MacMismatch) <==>
                  versioned && Value(bytes[8..16]) == |bytes| - 64
                  && bytes[32..64] != hmac(bytes[..32] + bytes[64..]))
  {
    hide Value, Pow256;
  }

  /** A verified frame determines its bytes and is determined by them. */
  lemma FramesAreCanonical(hmac: Bytes -> Mac, a: Bytes, b: Bytes)
    requires Decode(hmac, a).Verified? && Decode(hmac, a) == Decode(hmac, b)
    ensures a == b
  {
    hide Decode, Encode;
    EncodeDecode(hmac, a);
    EncodeDecode(hmac, b);
  }

  /** The separate body cap never fires: the frame bound already implies it. */
  lemma BodyCapUnreachable(hmac: Bytes -> Mac, bytes: Bytes)
    ensures Decode(hmac, bytes) != Denied(BodyTooLarge)
  {
    hide ReadHeader;
  }
}
