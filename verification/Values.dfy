/** Identity values shared by the components of the control plane
    (include/qiven/runtime/identity.hpp, observed_action.hpp). */
module Values {

  datatype Option<+T> = None | Some(value: T)

  /** One octet; strings and digests of the source are octet sequences. */
  type byte = b: int | 0 <= b < 256

  type Bytes = seq<byte>

  /** The octets of a text in the seven-bit character set. */
  function Ascii(text: string): (r: Bytes)
    requires forall i :: 0 <= i < |text| ==> text[i] < 128 as char
    ensures |r| == |text| && forall i :: 0 <= i < |r| ==> r[i] == text[i] as int
  {
    seq(|text|, i requires 0 <= i < |text| => text[i] as int)
  }

  type u64 = n: int | 0 <= n < 0x1_0000_0000_0000_0000

  /** The five-tuple that binds one harness action to its control identity. */
  datatype CorrelationKey = CorrelationKey(
    generation: nat,
    adapter: nat,
    session: nat,
    actor: nat,
    action: nat)

  datatype ObservedAction = ObservedAction(
    adapter: nat,
    session: nat,
    actor: nat,
    capability: nat,
    operation: Bytes,
    target: Bytes,
    argumentDigest: Bytes)
}
