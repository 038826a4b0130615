/** Fixed-width little-endian integers, the scalar representation of every
    persisted image, frame header and digest preimage. */
module LittleEndian {
  import opened Values

  function Pow256(n: nat): (r: nat)
    ensures r > 0
  {
    if n == 0 then 1 else 256 * Pow256(n - 1)
  }

  /** The `width` low-order octets of a value, least significant first. */
  function Le(value: nat, width: nat): (r: Bytes)
    ensures |r| == width
  {
    if width == 0 then [] else [value % 256] + Le(value / 256, width - 1)
  }

  function Value(bytes: Bytes): (r: nat)
    ensures r < Pow256(|bytes|)
  {
    if bytes == [] then 0 else bytes[0] + 256 * Value(bytes[1..])
  }

  lemma Widths()
    ensures Pow256(4) == 0x1_0000_0000
    ensures Pow256(8) == 0x1_0000_0000_0000_0000
  {
    assert Pow256(2) == 0x1_0000;
    assert Pow256(4) == 0x1_0000_0000;
    assert Pow256(6) == 0x1_0000_0000_0000;
  }

  lemma {:induction false} ValueOfLe(value: nat, width: nat)
    requires value < Pow256(width)
    ensures Value(Le(value, width)) == value
  {
    if width > 0 {
      ValueOfLe(value / 256, width - 1);
      assert Le(value, width)[1..] == Le(value / 256, width - 1);
    }
  }

  lemma {:induction false} LeOfValue(bytes: Bytes)
    ensures Le(Value(bytes), |bytes|) == bytes
  {
    if bytes != [] {
      LeOfValue(bytes[1..]);
      assert Value(bytes) % 256 == bytes[0] && Value(bytes) / 256 == Value(bytes[1..]);
    }
  }

  /** The last octet is the most significant one. */
  lemma {:induction false} LastIsMostSignificant(bytes: Bytes, last: byte)
    ensures Value(bytes + [last]) == Value(bytes) + Pow256(|bytes|) * last
  {
    if bytes == [] {
      assert [] + [last] == [last] && [last][1..] == [];
    } else {
      LastIsMostSignificant(bytes[1..], last);
      assert (bytes + [last])[1..] == bytes[1..] + [last];
      Shift(Pow256(|bytes| - 1), last);
    }
  }

  lemma Shift(power: nat, octet: nat)
    ensures 256 * (power * octet) == (256 * power) * octet
  {
  }
}
