/** Small shared vocabulary: bytes, optional values and C character classes. */
module Basics {

  /** One octet of a buffer, as the C sources see an `unsigned char`. */
  type Byte = b: int | 0 <= b < 256

  /** 2^32: the modulus of the sources' `unsigned int` / `DWORD` arithmetic. */
  const TwoTo32: int := 0x1_0000_0000

  datatype Option<+T> = None | Some(value: T)

  /** Little-endian unsigned value of a byte string. */
  function LittleEndian(bs: seq<Byte>): (v: nat)
    ensures v < Pow256(|bs|)
  {
    if |bs| == 0 then 0 else bs[0] + 256 * LittleEndian(bs[1..])
  }

  function Pow256(n: nat): (p: nat)
    ensures p >= 1
  {
    if n == 0 then 1 else 256 * Pow256(n - 1)
  }

  /** The `n`-byte little-endian encoding of `v`; `LittleEndian` inverts it. */
  function ToLittleEndian(v: nat, n: nat): (bs: seq<Byte>)
    requires v < Pow256(n)
    ensures |bs| == n
    ensures LittleEndian(bs) == v
  {
    if n == 0 then [] else [v % 256] + ToLittleEndian(v / 256, n - 1)
  }

  /** `isspace` in the C locale. */
  predicate IsSpace(c: char) {
    c == ' ' || c == '\t' || c == '\n' || c == '\r' || c == '\U{000B}' || c == '\U{000C}'
  }

  predicate IsDecimalDigit(c: char) {
    '0' <= c <= '9'
  }

  /** Sequence concatenation regroups; stated once so proofs can name the step. */
  lemma AppendAssociates<T>(a: seq<T>, b: seq<T>, c: seq<T>)
    ensures a + b + c == a + (b + c)
  {
  }

  lemma AppendEmpty<T>(a: seq<T>)
    ensures [] + a == a
  {
  }

  /** `mem` holds `bytes` from address `p` on. */
  ghost predicate At<T>(mem: seq<T>, p: nat, bytes: seq<T>) {
    p + |bytes| <= |mem| && forall i :: 0 <= i < |bytes| ==> mem[p + i] == bytes[i]
  }

  lemma AtParts<T>(mem: seq<T>, p: nat, w: seq<T>, a: seq<T>, b: seq<T>)
    requires At(mem, p, w) && w == a + b
    ensures At(mem, p, a) && At(mem, p + |a|, b)
  {
    forall i | 0 <= i < |a|
      ensures mem[p + i] == a[i]
    {
      assert w[i] == a[i];
    }
    forall i | 0 <= i < |b|
      ensures mem[p + |a| + i] == b[i]
    {
      assert mem[p + (|a| + i)] == w[|a| + i];
    }
  }
}
