/** Bytes and little-endian numbers. */
module Bytes {

  type byte = x: nat | x < 256 witness 0

  function LittleEndian(bytes: seq<byte>): nat {
    if bytes == [] then 0 else bytes[0] + 256 * LittleEndian(bytes[1..])
  }

  /** The low `n` bytes of a number, lowest first. */
  function ToBytes(value: nat, n: nat): (bytes: seq<byte>)
    ensures |bytes| == n
  {
    if n == 0 then [] else [value % 256] + ToBytes(value / 256, n - 1)
  }

  function Pow256(n: nat): nat {
    if n == 0 then 1 else 256 * Pow256(n - 1)
  }

  lemma {:induction false} BytesRoundTrip(value: nat, n: nat)
    requires value < Pow256(n)
    ensures LittleEndian(ToBytes(value, n)) == value
  {
    if n > 0 {
      BytesRoundTrip(value / 256, n - 1);
      assert ToBytes(value, n)[1..] == ToBytes(value / 256, n - 1);
    }
  }
}
