/** The persisted control-state image: consumed token hashes and active
    barrier scopes (src/state_store.cpp). */
module StateImage {
  import opened Values
  import opened LittleEndian
  import opened Ordering

  /** "QST2" */
  const MAGIC: nat := 0x51535432
  const HASH_SIZE: nat := 32
  const CAPACITY: nat := 16 * 1024 * 1024

  datatype Image = Image(hashes: seq<Bytes>, scopes: seq<u64>)

  function HashSet(image: Image): set<Bytes>
  {
    set h | h in image.hashes
  }

  function ScopeSet(image: Image): set<u64>
  {
    set s | s in image.scopes
  }

  ghost predicate HashesSized(hashes: seq<Bytes>)
  {
    forall i :: 0 <= i < |hashes| ==> |hashes[i]| == HASH_SIZE
  }

  ghost predicate WellFormed(image: Image)
  {
    HashesSized(image.hashes) && |image.hashes| < 0x1_0000_0000 && |image.scopes| < 0x1_0000_0000
  }

  // ---- The representation ----

  function HashBytes(hashes: seq<Bytes>): Bytes
  {
    if hashes == [] then [] else hashes[0] + HashBytes(hashes[1..])
  }

  function ScopeBytes(scopes: seq<u64>): (r: Bytes)
    ensures |r| == 8 * |scopes|
  {
    if scopes == [] then [] else Le(scopes[0], 8) + ScopeBytes(scopes[1..])
  }

  function Encode(image: Image): Bytes
  {
    Le(MAGIC, 4) + (Le(|image.hashes|, 4) + (HashBytes(image.hashes)
    + (Le(|image.scopes|, 4) + ScopeBytes(image.scopes))))
  }

  /** What a byte string denotes, if it is an image at all. */
  function ReadHashes(bytes: Bytes, count: nat): (r: seq<Bytes>)
    requires |bytes| == 32 * count
    ensures |r| == count
  {
    if count == 0 then [] else [bytes[..32]] + ReadHashes(bytes[32..], count - 1)
  }

  function ReadScopes(bytes: Bytes, count: nat): (r: seq<u64>)
    requires |bytes| == 8 * count
    ensures |r| == count
  {
    if count == 0 then [] else
      Widths();
      [Value(bytes[..8])] + ReadScopes(bytes[8..], count - 1)
  }

  function Decode(bytes: Bytes): Option<Image>
  {
    if |bytes| < 8 || Value(bytes[..4]) != MAGIC then None
    else
      var hashes := Value(bytes[4..8]);
      var middle := 8 + 32 * hashes;
      if |bytes| < middle + 4 then None
      else
        var scopes := Value(bytes[middle..middle + 4]);
        if |bytes| != middle + 4 + 8 * scopes then None
        else Some(Image(ReadHashes(bytes[8..middle], hashes), ReadScopes(bytes[middle + 4..], scopes)))
  }

  // ---- The two directions ----

  lemma {:induction false} HashesReadBack(hashes: seq<Bytes>)
    requires HashesSized(hashes)
    ensures |HashBytes(hashes)| == 32 * |hashes|
    ensures ReadHashes(HashBytes(hashes), |hashes|) == hashes
  {
    if hashes != [] {
      HashesReadBack(hashes[1..]);
      assert HashBytes(hashes)[..32] == hashes[0] && HashBytes(hashes)[32..] == HashBytes(hashes[1..]);
    }
  }

  lemma {:induction false} HashesWriteBack(bytes: Bytes, count: nat)
    requires |bytes| == 32 * count
    ensures HashesSized(ReadHashes(bytes, count)) && HashBytes(ReadHashes(bytes, count)) == bytes
  {
    if count != 0 {
      HashesWriteBack(bytes[32..], count - 1);
      assert ReadHashes(bytes, count)[1..] == ReadHashes(bytes[32..], count - 1);
      assert bytes == bytes[..32] + bytes[32..];
    }
  }

  lemma {:induction false} ScopesReadBack(scopes: seq<u64>)
    ensures ReadScopes(ScopeBytes(scopes), |scopes|) == scopes
  {
    hide Le, Value, Pow256;
    if scopes != [] {
      ScopesReadBack(scopes[1..]);
      Widths();
      ValueOfLe(scopes[0], 8);
      assert ScopeBytes(scopes)[..8] == Le(scopes[0], 8) && ScopeBytes(scopes)[8..] == ScopeBytes(scopes[1..]);
    }
  }

  lemma {:induction false} ScopesWriteBack(bytes: Bytes, count: nat)
    requires |bytes| == 8 * count
    ensures ScopeBytes(ReadScopes(bytes, count)) == bytes
  {
    hide Le, Value, Pow256;
    if count != 0 {
      ScopesWriteBack(bytes[8..], count - 1);
      LeOfValue(bytes[..8]);
      assert ReadScopes(bytes, count)[1..] == ReadScopes(bytes[8..], count - 1);
      assert bytes == bytes[..8] + bytes[8..];
    }
  }

  lemma FiveParts(m: Bytes, n: Bytes, h: Bytes, k: Bytes, s: Bytes, b: Bytes)
    requires b == m + (n + (h + (k + s))) && |m| == |n| == |k| == 4
    ensures |b| == 12 + |h| + |s|
    ensures b[..4] == m && b[4..8] == n && b[8..8 + |h|] == h
    ensures b[8 + |h|..12 + |h|] == k && b[12 + |h|..] == s
  {
  }

  /** Decoding an encoded image returns it. */
  lemma DecodeEncode(image: Image)
    requires WellFormed(image)
    ensures Decode(Encode(image)) == Some(image)
  {
    hide Le, Value, Pow256, HashBytes, ScopeBytes, ReadHashes, ReadScopes;
    var h, s := HashBytes(image.hashes), ScopeBytes(image.scopes);
    HashesReadBack(image.hashes);
    ScopesReadBack(image.scopes);
    FiveParts(Le(MAGIC, 4), Le(|image.hashes|, 4), h, Le(|image.scopes|, 4), s, Encode(image));
    Widths();
    ValueOfLe(MAGIC, 4);
    ValueOfLe(|image.hashes|, 4);
    ValueOfLe(|image.scopes|, 4);
  }

  lemma SplitAt(b: Bytes, i: nat, j: nat)
    requires i <= j <= |b|
    ensures b[i..] == b[i..j] + b[j..]
  {
  }

  lemma RejoinFive(b: Bytes, middle: nat)
    requires 8 <= middle && middle + 4 <= |b|
    ensures b == b[..4] + (b[4..8] + (b[8..middle] + (b[middle..middle + 4] + b[middle + 4..])))
  {
    assert b == b[..4] + b[4..];
    SplitAt(b, 4, 8);
    SplitAt(b, 8, middle);
    SplitAt(b, middle, middle + 4);
  }

  /** Every accepted byte string is the encoding of what it decodes to. */
  lemma EncodeDecode(bytes: Bytes)
    requires Decode(bytes).Some?
    ensures WellFormed(Decode(bytes).value) && Encode(Decode(bytes).value) == bytes
  {
    hide Le, Value, Pow256, HashBytes, ScopeBytes, ReadHashes, ReadScopes;
    var hashes := Value(bytes[4..8]);
    var middle := 8 + 32 * hashes;
    var scopes := Value(bytes[middle..middle + 4]);
    Widths();
    HashesWriteBack(bytes[8..middle], hashes);
    ScopesWriteBack(bytes[middle + 4..], scopes);
    LeOfValue(bytes[..4]);
    LeOfValue(bytes[4..8]);
    LeOfValue(bytes[middle..middle + 4]);
    RejoinFive(bytes, middle);
  }

  /** A byte string is refused exactly when it is no image's encoding. */
  lemma RefusesExactlyNonImages(bytes: Bytes)
    ensures Decode(bytes).None? <==> forall image :: WellFormed(image) ==> Encode(image) != bytes
  {
    hide Decode, Encode;
    if Decode(bytes).Some? {
      EncodeDecode(bytes);
    } else {
      forall image | WellFormed(image) ensures Encode(image) != bytes {
        DecodeEncode(image);
      }
    }
  }

  // ---- The canonical image of a state ----

  ghost predicate TokenHashes(hashes: set<Bytes>)
  {
    forall h :: h in hashes ==> |h| == HASH_SIZE
  }

  ghost function Canonical(hashes: set<Bytes>, scopes: set<u64>): (image: Image)
    ensures Lists(LexBefore, image.hashes, hashes) && Lists(Less, image.scopes, scopes)
  {
    LexOrder();
    LessOrder();
    Image(ListOf(LexBefore, hashes), ListOf(Less, scopes))
  }

  ghost predicate WithinCapacity(hashes: set<Bytes>, scopes: set<u64>)
  {
    |Encode(Canonical(hashes, scopes))| <= CAPACITY
  }

  lemma CanonicalSize(hashes: set<Bytes>, scopes: set<u64>)
    requires TokenHashes(hashes)
    ensures |Encode(Canonical(hashes, scopes))| == 12 + 32 * |hashes| + 8 * |scopes|
    ensures WithinCapacity(hashes, scopes) <==> 12 + 32 * |hashes| + 8 * |scopes| <= 16_777_216
    ensures WithinCapacity(hashes, scopes) ==> WellFormed(Canonical(hashes, scopes))
  {
    hide Le, HashBytes, ScopeBytes;
    var image := Canonical(hashes, scopes);
    LexOrder();
    LessOrder();
    ListSize(LexBefore, image.hashes, hashes);
    ListSize(Less, image.scopes, scopes);
    forall i | 0 <= i < |image.hashes| ensures |image.hashes[i]| == HASH_SIZE {
      assert image.hashes[i] in hashes;
    }
    HashesReadBack(image.hashes);
  }

  /** Decoding what a state was saved as gives back exactly its consumed hashes
      and its barrier scopes, each listed once in order. */
  lemma SavedStateReadsBack(hashes: set<Bytes>, scopes: set<u64>)
    requires TokenHashes(hashes) && WithinCapacity(hashes, scopes)
    ensures Decode(Encode(Canonical(hashes, scopes))) == Some(Canonical(hashes, scopes))
    ensures HashSet(Canonical(hashes, scopes)) == hashes
    ensures ScopeSet(Canonical(hashes, scopes)) == scopes
  {
    hide Decode, Encode;
    CanonicalSize(hashes, scopes);
    DecodeEncode(Canonical(hashes, scopes));
  }

  /** Restoring an accepted image and saving again reproduces its bytes exactly
      when the image listed its hashes and scopes in strictly ascending order. */
  lemma ResavesToItself(bytes: Bytes)
    requires Decode(bytes).Some?
    ensures var image := Decode(bytes).value;
            Encode(Canonical(HashSet(image), ScopeSet(image))) == bytes
            <==> Ascending(LexBefore, image.hashes) && Ascending(Less, image.scopes)
  {
    hide Decode, Encode, LexBefore, Canonical, ListOf;
    var image := Decode(bytes).value;
    var hashes, scopes := HashSet(image), ScopeSet(image);
    LexOrder();
    LessOrder();
    EncodeDecode(bytes);
    assert TokenHashes(hashes);
    var canonical := Canonical(hashes, scopes);
    if Encode(canonical) == bytes {
      SmallerListFits(bytes, image, canonical);
      DecodeEncode(canonical);
    } else if Ascending(LexBefore, image.hashes) && Ascending(Less, image.scopes) {
      AscendingUnique(LexBefore, image.hashes, canonical.hashes);
      AscendingUnique(Less, image.scopes, canonical.scopes);
    }
  }

  lemma {:induction false} SetNoLarger<T>(s: seq<T>, members: set<T>)
    requires members == set x | x in s
    ensures |members| <= |s|
  {
    if s == [] {
      assert members == {};
    } else {
      var rest := set x | x in s[1..];
      assert members == rest + {s[0]};
      SetNoLarger(s[1..], rest);
    }
  }

  lemma SmallerListFits(bytes: Bytes, image: Image, canonical: Image)
    requires WellFormed(image)
    requires Lists(LexBefore, canonical.hashes, HashSet(image))
    requires Lists(Less, canonical.scopes, ScopeSet(image))
    ensures WellFormed(canonical)
  {
    hide LexBefore;
    LexOrder();
    LessOrder();
    ListSize(LexBefore, canonical.hashes, HashSet(image));
    ListSize(Less, canonical.scopes, ScopeSet(image));
    SetNoLarger(image.hashes, HashSet(image));
    SetNoLarger(image.scopes, ScopeSet(image));
    forall i | 0 <= i < |canonical.hashes| ensures |canonical.hashes[i]| == HASH_SIZE {
      assert canonical.hashes[i] in canonical.hashes;
    }
  }

  // ---- Serializing and deserializing ----

  /** Appends everything in order; a builder over its capacity aborts. */
  method Serialize(consumed: set<Bytes>, scopes: set<u64>) returns (r: Option<Bytes>)
    requires TokenHashes(consumed)
    ensures r == if WithinCapacity(consumed, scopes) then Some(Encode(Canonical(consumed, scopes))) else None
  {
    hide Le, HashBytes, ScopeBytes, LexBefore;
    LexOrder();
    LessOrder();
    var hashes := SortSet(LexBefore, consumed);
    var ids := SortSet(Less, scopes);
    ListUnique(LexBefore, hashes, consumed);
    ListUnique(Less, ids, scopes);
    var out := Le(MAGIC, 4) + Le(|hashes|, 4);
    out := AppendHashes(out, hashes);
    out := out + Le(|ids|, 4);
    out := AppendScopes(out, ids);
    assert out == Encode(Canonical(consumed, scopes));
    if |out| > CAPACITY {
      return None;
    }
    return Some(out);
  }

  method AppendHashes(start: Bytes, hashes: seq<Bytes>) returns (out: Bytes)
    ensures out == start + HashBytes(hashes)
  {
    out := start;
    for i := 0 to |hashes|
      invariant out + HashBytes(hashes[i..]) == start + HashBytes(hashes)
    {
      assert hashes[i..][1..] == hashes[i + 1..];
      assert out + HashBytes(hashes[i..]) == (out + hashes[i]) + HashBytes(hashes[i + 1..]);
      out := out + hashes[i];
    }
  }

  method AppendScopes(start: Bytes, scopes: seq<u64>) returns (out: Bytes)
    ensures out == start + ScopeBytes(scopes)
  {
    hide Le;
    out := start;
    for i := 0 to |scopes|
      invariant out + ScopeBytes(scopes[i..]) == start + ScopeBytes(scopes)
    {
      assert scopes[i..][1..] == scopes[i + 1..];
      assert out + ScopeBytes(scopes[i..]) == (out + Le(scopes[i], 8)) + ScopeBytes(scopes[i + 1..]);
      out := out + Le(scopes[i], 8);
    }
  }

  method GetWord(bytes: Bytes, offset: nat, width: nat) returns (r: Option<nat>)
    ensures r == if offset + width > |bytes| then None else Some(Value(bytes[offset..offset + width]))
  {
    if offset + width > |bytes| {
      return None;
    }
    return Some(Value(bytes[offset..offset + width]));
  }

  method Deserialize(bytes: Bytes) returns (r: Option<Image>)
    ensures r == Decode(bytes)
  {
    hide Value, Pow256, ReadHashes, ReadScopes;
    Widths();
    var magic := GetWord(bytes, 0, 4);
    if magic.None? || magic.value != MAGIC {
      return None;
    }
    var hashCount := GetWord(bytes, 4, 4);
    if hashCount.None? {
      return None;
    }
    if hashCount.value * 32 + 8 > |bytes| {
      return None;
    }
    var hashes := GetHashes(bytes, 8, hashCount.value);
    var offset := 8 + 32 * hashCount.value;
    var scopeCount := GetWord(bytes, offset, 4);
    if scopeCount.None? {
      return None;
    }
    offset := offset + 4;
    if scopeCount.value * 8 + offset > |bytes| {
      return None;
    }
    var scopes := GetScopes(bytes, offset, scopeCount.value);
    offset := offset + 8 * scopeCount.value;
    if offset != |bytes| {
      return None;
    }
    assert bytes[12 + 32 * hashCount.value..offset] == bytes[12 + 32 * hashCount.value..];
    return Some(Image(hashes, scopes));
  }

  lemma ReadHashesStep(bytes: Bytes, offset: nat, end: nat, count: nat)
    requires count > 0 && offset + 32 * count == end <= |bytes|
    ensures ReadHashes(bytes[offset..end], count)
            == [bytes[offset..offset + 32]] + ReadHashes(bytes[offset + 32..end], count - 1)
  {
    assert bytes[offset..end][..32] == bytes[offset..offset + 32];
    assert bytes[offset..end][32..] == bytes[offset + 32..end];
  }

  lemma ReadScopesStep(bytes: Bytes, offset: nat, end: nat, count: nat)
    requires count > 0 && offset + 8 * count == end <= |bytes|
    ensures Value(bytes[offset..offset + 8]) < 0x1_0000_0000_0000_0000
    ensures ReadScopes(bytes[offset..end], count)
            == [Value(bytes[offset..offset + 8])] + ReadScopes(bytes[offset + 8..end], count - 1)
  {
    hide Value, Pow256;
    Widths();
    assert bytes[offset..end][..8] == bytes[offset..offset + 8];
    assert bytes[offset..end][8..] == bytes[offset + 8..end];
  }

  method GetHashes(bytes: Bytes, start: nat, count: nat) returns (hashes: seq<Bytes>)
    requires start + 32 * count <= |bytes|
    ensures hashes == ReadHashes(bytes[start..start + 32 * count], count)
  {
    hide ReadHashes;
    ghost var end := start + 32 * count;
    hashes := [];
    for i := 0 to count
      invariant hashes + ReadHashes(bytes[start + 32 * i..end], count - i) == ReadHashes(bytes[start..end], count)
    {
      var offset := start + 32 * i;
      ReadHashesStep(bytes, offset, end, count - i);
      hashes := hashes + [bytes[offset..offset + 32]];
    }
  }

  method GetScopes(bytes: Bytes, start: nat, count: nat) returns (scopes: seq<u64>)
    requires start + 8 * count <= |bytes|
    ensures scopes == ReadScopes(bytes[start..start + 8 * count], count)
  {
    hide Value, Pow256, ReadScopes;
    ghost var end := start + 8 * count;
    scopes := [];
    for i := 0 to count
      invariant scopes + ReadScopes(bytes[start + 8 * i..end], count - i) == ReadScopes(bytes[start..end], count)
    {
      var offset := start + 8 * i;
      ReadScopesStep(bytes, offset, end, count - i);
      var scope := GetWord(bytes, offset, 8);
      scopes := scopes + [scope.value];
    }
  }

  // ---- Where everything is ----

  lemma {:induction false} HashAt(hashes: seq<Bytes>, i: nat)
    requires HashesSized(hashes) && i < |hashes|
    ensures |HashBytes(hashes)| == 32 * |hashes|
    ensures HashBytes(hashes)[32 * i..32 * i + 32] == hashes[i]
  {
    HashesReadBack(hashes);
    if i > 0 {
      HashAt(hashes[1..], i - 1);
      var rest := HashBytes(hashes[1..]);
      assert HashBytes(hashes)[32 * i..32 * i + 32] == rest[32 * (i - 1)..32 * (i - 1) + 32];
    }
  }

  lemma {:induction false} ScopeAt(scopes: seq<u64>, i: nat)
    requires i < |scopes|
    ensures Value(ScopeBytes(scopes)[8 * i..8 * i + 8]) == scopes[i]
  {
    hide Le, Value, Pow256;
    if i == 0 {
      Widths();
      ValueOfLe(scopes[0], 8);
      assert ScopeBytes(scopes)[..8] == Le(scopes[0], 8);
    } else {
      ScopeAt(scopes[1..], i - 1);
      var rest := ScopeBytes(scopes[1..]);
      assert ScopeBytes(scopes)[8 * i..8 * i + 8] == rest[8 * (i - 1)..8 * (i - 1) + 8];
    }
  }

  lemma MagicSpelled()
    ensures Le(MAGIC, 4) == Ascii("2TSQ")
  {
    assert Ascii("2TSQ") == [0x32, 0x54, 0x53, 0x51];
    assert Le(0x51, 1) == [0x51];
    assert Le(0x5153, 2) == [0x53] + Le(0x51, 1);
    assert Le(0x515354, 3) == [0x54] + Le(0x5153, 2);
  }

  /** The image octet by octet: the mark, the number of hashes, each hash, the
      number of scopes, each scope. */
  lemma ImageLayout(image: Image, i: nat, j: nat)
    requires WellFormed(image)
    ensures var b, n, m := Encode(image), |image.hashes|, |image.scopes|;
            && |b| == 12 + 32 * n + 8 * m
            && b[..4] == Ascii("2TSQ") && Value(b[4..8]) == n && Value(b[8 + 32 * n..12 + 32 * n]) == m
            && (i < n ==> b[8 + 32 * i..8 + 32 * i + 32] == image.hashes[i])
            && (j < m ==> Value(b[12 + 32 * n + 8 * j..12 + 32 * n + 8 * j + 8]) == image.scopes[j])
  {
    hide Le, Value, Pow256, HashBytes, ScopeBytes;
    var h, s, b := HashBytes(image.hashes), ScopeBytes(image.scopes), Encode(image);
    HashesReadBack(image.hashes);
    FiveParts(Le(MAGIC, 4), Le(|image.hashes|, 4), h, Le(|image.scopes|, 4), s, b);
    MagicSpelled();
    Widths();
    ValueOfLe(|image.hashes|, 4);
    ValueOfLe(|image.scopes|, 4);
    if i < |image.hashes| {
      HashAt(image.hashes, i);
      Within(b, 8, 8 + |h|, 32 * i, 32 * i + 32);
    }
    if j < |image.scopes| {
      ScopeAt(image.scopes, j);
      assert b[12 + |h|..|b|] == s;
      Within(b, 12 + |h|, |b|, 8 * j, 8 * j + 8);
    }
  }

  lemma Within(b: Bytes, from: nat, to: nat, i: nat, j: nat)
    requires from <= to <= |b| && i <= j <= to - from
    ensures b[from..to][i..j] == b[from + i..from + j]
  {
    var inner, outer := b[from..to][i..j], b[from + i..from + j];
    forall k | 0 <= k < j - i ensures inner[k] == outer[k] {
      assert inner[k] == b[from..to][i + k] == b[from + i + k];
    }
  }

  /** A saved state lists its hashes in octet order and its scopes in numeric
      order. */
  lemma SavedInOrder(hashes: set<Bytes>, scopes: set<u64>, i: nat, j: nat)
    requires i < j
    ensures var image := Canonical(hashes, scopes);
            && (j < |image.hashes| ==> exists k: nat :: DiffersAt(image.hashes[i], image.hashes[j], k))
            && (j < |image.scopes| ==> image.scopes[i] < image.scopes[j])
  {
    hide LexBefore, ListOf;
    var image := Canonical(hashes, scopes);
    if j < |image.hashes| {
      LexExactly(image.hashes[i], image.hashes[j]);
    }
  }
}
