/** The keystream deriver and the cyclic XOR cipher. The digest is SHA-1
    (FIPS 180-4), a foreign crate call: the model takes it as a parameter
    whose only known property is its 20-byte result. */
module Cipher {
  import opened Bytes

  const DIGEST_SIZE: nat := 20

  /** A 20-byte key (`[u8; 20]`). */
  type Digest = s: seq<byte> | |s| == DIGEST_SIZE witness Zeros(DIGEST_SIZE)

  /** A hash function with a 160-bit result, standing for SHA-1. */
  type HashFn = seq<byte> -> Digest

  /** The key of a version 2 or 6 archive, and of a freshly created one. */
  function ZeroKey(): (k: Digest)
    ensures forall i :: 0 <= i < DIGEST_SIZE ==> k[i] == 0
  {
    Zeros(DIGEST_SIZE)
  }

  /** Byte `i` of `data` XOR byte `i % |key|` of the key. */
  function Xor(data: seq<byte>, key: seq<byte>): (r: seq<byte>)
    requires |key| > 0
    ensures |r| == |data|
    ensures forall i :: 0 <= i < |data| ==> r[i] == XorByte(data[i], key[i % |key|])
  {
    seq(|data|, i requires 0 <= i < |data| => XorByte(data[i], key[i % |key|]))
  }

  /** The cipher keeps the length, and it undoes itself: the same call
      obfuscates a payload when packing and recovers it when unpacking. */
  lemma XorInvolutive(data: seq<byte>, key: seq<byte>)
    requires |key| > 0
    ensures |Xor(data, key)| == |data|
    ensures Xor(Xor(data, key), key) == data
  {
    var once := Xor(data, key);
    forall i | 0 <= i < |data|
      ensures Xor(once, key)[i] == data[i]
    {
      XorByteTwice(data[i], key[i % |key|]);
    }
  }

  /** Bitwise exclusive or of two bytes (Rust's `^` on `u8`). */
  function XorByte(b: byte, k: byte): (r: byte)
    ensures k == 0 ==> r == b
  {
    XorBitsZero(b, 8);
    XorBits(b, k, 8)
  }

  /** Exclusive or of the low `n` bits of `a` and `b`, lowest bit first. */
  function XorBits(a: nat, b: nat, n: nat): (r: nat)
    ensures r < Pow2(n)
  {
    if n == 0 then 0
    else (if a % 2 == b % 2 then 0 else 1) + 2 * XorBits(a / 2, b / 2, n - 1)
  }

  function Pow2(n: nat): (r: nat)
    ensures r > 0
  {
    if n == 0 then 1 else 2 * Pow2(n - 1)
  }

  /** Bit `i` of `a`, counted from the lowest. */
  function Bit(a: nat, i: nat): (r: nat)
    ensures r < 2
  {
    if i == 0 then a % 2 else Bit(a / 2, i - 1)
  }

  /** `XorBits` is exclusive or: each of the low `n` bits of the result is 1
      exactly when the bits of `a` and `b` at that place differ. */
  lemma {:induction false} XorBitsBit(a: nat, b: nat, n: nat, i: nat)
    requires i < n
    ensures Bit(XorBits(a, b, n), i) == 1 <==> Bit(a, i) != Bit(b, i)
  {
    if i > 0 {
      XorBitsBit(a / 2, b / 2, n - 1, i - 1);
    }
  }

  /** Exclusive or does not depend on the order of its operands. */
  lemma {:induction false} XorBitsCommutes(a: nat, b: nat, n: nat)
    ensures XorBits(a, b, n) == XorBits(b, a, n)
  {
    if n > 0 {
      XorBitsCommutes(a / 2, b / 2, n - 1);
    }
  }

  /** A worked value: `0xF0 ^ 0x3C == 0xCC`. */
  lemma XorByteExample()
    ensures XorByte(0xF0, 0x3C) == 0xCC
  {
    assert XorBits(0xF, 0x3, 4) == 0xC;
  }

  lemma XorByteTwice(b: byte, k: byte)
    ensures XorByte(XorByte(b, k), k) == b
  {
    XorBitsTwice(b, k, 8);
  }

  lemma {:induction false} XorBitsTwice(a: nat, b: nat, n: nat)
    requires a < Pow2(n)
    ensures XorBits(XorBits(a, b, n), b, n) == a
  {
    if n > 0 {
      var x := XorBits(a, b, n);
      var rest := XorBits(a / 2, b / 2, n - 1);
      assert x % 2 == (if a % 2 == b % 2 then 0 else 1) && x / 2 == rest;
      XorBitsTwice(a / 2, b / 2, n - 1);
    }
  }

  /** With the all-zero key of versions 2 and 6 the payload is stored as is. */
  lemma ZeroKeyIsIdentity(data: seq<byte>)
    ensures Xor(data, ZeroKey()) == data
  {
    assert forall i :: 0 <= i < |data| ==> Xor(data, ZeroKey())[i] == data[i];
  }

  lemma {:induction false} XorBitsZero(a: nat, n: nat)
    requires a < Pow2(n)
    ensures XorBits(a, 0, n) == a
  {
    if n > 0 {
      XorBitsZero(a / 2, n - 1);
    }
  }
}
