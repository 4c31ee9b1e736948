/** Bytes as the Node.js `Buffer` holds them, and the one byte operation the
    decryption needs. */
module Bytes {
  type Byte = b: int | 0 <= b < 256

  /** Bitwise exclusive or of two bytes. */
  function Xor(a: Byte, b: Byte): (r: Byte) {
    XorBitsBound(a, b, 8);
    XorBits(a, b, 8)
  }

  /** Exclusive or of the low `n` bits, least significant first. */
  function XorBits(a: nat, b: nat, n: nat): nat {
    if n == 0 then 0 else (if a % 2 == b % 2 then 0 else 1) + 2 * XorBits(a / 2, b / 2, n - 1)
  }

  function Pow2(n: nat): (p: nat)
    ensures p >= 1
  {
    if n == 0 then 1 else 2 * Pow2(n - 1)
  }

  lemma {:induction false} XorBitsBound(a: nat, b: nat, n: nat)
    ensures XorBits(a, b, n) < Pow2(n)
  {
    if n > 0 {
      XorBitsBound(a / 2, b / 2, n - 1);
    }
  }

  /** Exclusive or, byte by byte, of two sequences of the same length. */
  function XorAll(a: seq<Byte>, b: seq<Byte>): (r: seq<Byte>)
    requires |a| == |b|
    ensures |r| == |a|
    ensures forall i :: 0 <= i < |r| ==> r[i] == Xor(a[i], b[i])
  {
    seq(|a|, i requires 0 <= i < |a| => Xor(a[i], b[i]))
  }

  /** Exclusive or with the same byte twice gives the byte back. */
  lemma XorCancel(a: Byte, b: Byte)
    ensures Xor(Xor(a, b), b) == a
  {
    assert Pow2(8) == 256;
    XorBitsBound(a, b, 8);
    XorBitsCancel(a, b, 8);
  }

  /** Cancelling on the low `n` bits of a number below `2^n` gives the number back. */
  lemma {:induction false} XorBitsCancel(a: nat, b: nat, n: nat)
    requires a < Pow2(n)
    ensures XorBits(XorBits(a, b, n), b, n) == a
  {
    if n > 0 {
      var bit := if a % 2 == b % 2 then 0 else 1;
      var rest := XorBits(a / 2, b / 2, n - 1);
      assert XorBits(a, b, n) == bit + 2 * rest;
      assert a / 2 < Pow2(n - 1);
      XorBitsCancel(a / 2, b / 2, n - 1);
      Halves(bit, rest);
      Halves(a % 2, a / 2);
    }
  }

  /** The low bit and the rest of `bit + 2 * rest`. */
  lemma Halves(bit: nat, rest: nat)
    requires bit < 2
    ensures (bit + 2 * rest) % 2 == bit && (bit + 2 * rest) / 2 == rest
  {
  }

  lemma XorAllCancel(a: seq<Byte>, b: seq<Byte>)
    requires |a| == |b|
    ensures XorAll(XorAll(a, b), b) == a
  {
    forall i | 0 <= i < |a|
      ensures XorAll(XorAll(a, b), b)[i] == a[i]
    {
      XorCancel(a[i], b[i]);
    }
  }
}
