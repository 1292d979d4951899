/** Bytes, Rust's `u32`, and its little-endian encoding (`to_le_bytes` /
    `from_le_bytes`), shared by the PFS reader and the PFS writer. */
module Bytes {

  /** A byte, as its value. Exclusive or, the one bitwise operation the
      codec needs, is defined on values bit by bit (see the cipher). */
  type byte = x: int | 0 <= x < 0x100

  const U32_LIMIT: int := 0x1_0000_0000

  /** Rust's `u32`. */
  type u32 = x: int | 0 <= x < U32_LIMIT

  /** `u32::from_le_bytes`: the first byte is the least significant. */
  function DecodeU32(b: seq<byte>): (r: u32)
    requires |b| == 4
    ensures r % 0x100 == b[0] as int
    ensures r / 0x100 == (b[1] as int) + 0x100 * (b[2] as int) + 0x1_0000 * (b[3] as int)
  {
    var x := (b[0] as int) + 0x100 * (b[1] as int) + 0x1_0000 * (b[2] as int) + 0x100_0000 * (b[3] as int);
    DivModByte(x, (b[1] as int) + 0x100 * (b[2] as int) + 0x1_0000 * (b[3] as int), b[0] as int);
    x
  }

  /** `u32::to_le_bytes`: four bytes that decode back to `x`. */
  function EncodeU32(x: u32): (r: seq<byte>)
    ensures |r| == 4 && DecodeU32(r) == x
  {
    EncodeDecodesBack(x);
    Digits(x)
  }

  /** The base-256 digits of `x`, least significant first. */
  function Digits(x: u32): seq<byte>
  {
    var q1 := x / 0x100;
    var q2 := q1 / 0x100;
    [(x % 0x100) as byte, (q1 % 0x100) as byte, (q2 % 0x100) as byte, (q2 / 0x100) as byte]
  }

  lemma EncodeDecodesBack(x: u32)
    ensures |Digits(x)| == 4 && DecodeU32(Digits(x)) == x
  {
    var q1 := x / 0x100;
    var q2 := q1 / 0x100;
    var q3 := q2 / 0x100;
    var r := Digits(x);
    ByteRoundTrip(x % 0x100);
    ByteRoundTrip(q1 % 0x100);
    ByteRoundTrip(q2 % 0x100);
    ByteRoundTrip(q3);
    assert r[0] as int == x % 0x100 && r[1] as int == q1 % 0x100 && r[2] as int == q2 % 0x100 && r[3] as int == q3;
  }

  lemma ByteRoundTrip(v: int)
    requires 0 <= v < 0x100
    ensures (v as byte) as int == v
  {
  }

  /** Every four bytes are the encoding of the value they decode to, so
      decoding is injective and the encoding is the only one. */
  lemma EncodeDecode(b: seq<byte>)
    requires |b| == 4
    ensures EncodeU32(DecodeU32(b)) == b
  {
    var x := DecodeU32(b);
    var b0, b1, b2, b3 := b[0] as int, b[1] as int, b[2] as int, b[3] as int;
    DivModByte(x, b1 + 0x100 * b2 + 0x1_0000 * b3, b0);
    DivModByte(x / 0x100, b2 + 0x100 * b3, b1);
    DivModByte(x / 0x100 / 0x100, b3, b2);
  }

  /** Division with remainder by 256 has the one answer. */
  lemma DivModByte(x: int, q: int, r: int)
    requires 0 <= r < 0x100 && x == 0x100 * q + r
    ensures x / 0x100 == q && x % 0x100 == r
  {
  }

  /** `n` zero bytes (`[0_u8; n]`). */
  function Zeros(n: nat): (r: seq<byte>)
    ensures |r| == n && forall i :: 0 <= i < n ==> r[i] == 0
  {
    seq(n, _ => 0)
  }

  /** A slice of a concatenation that lines up with its middle part is that part. */
  lemma SliceMiddle(a: seq<byte>, b: seq<byte>, c: seq<byte>)
    ensures (a + b + c)[|a|..|a| + |b|] == b
  {
    assert (a + b + c)[|a|..|a| + |b|] == ((a + b) + c)[|a|..|a| + |b|];
  }
}
