/** AES-256-CBC decryption as `crypto.createDecipheriv` performs it with automatic
    padding: cipher block chaining as section 6.2 of NIST SP 800-38A defines it,
    over an abstract block cipher, followed by the removal of the PKCS #7 padding
    of section 6.3 of RFC 5652. */
module Cbc {
  import opened Wrappers
  import opened Items
  import opened Bytes

  const BLOCK_SIZE: nat := 16

  /** One cipher block. */
  type Block = b: seq<Byte> | |b| == 16 witness seq(16, _ => 0)

  const WRONG_FINAL_BLOCK_LENGTH: string := "wrong final block length"
  const BAD_DECRYPT: string := "bad decrypt"

  /** The `i`th block of a sequence of whole blocks. */
  function BlockAt(c: seq<Byte>, i: nat): Block
    requires 16 * i + 16 <= |c|
  {
    c[16 * i..16 * i + 16]
  }

  /** The block chained into block `i`: the initialisation vector for the first,
      the ciphertext block before it otherwise. */
  function Chained(iv: Block, c: seq<Byte>, i: nat): Block
    requires 16 * i <= |c|
  {
    if i == 0 then iv else BlockAt(c, i - 1)
  }

  /** The last block of a non-empty sequence of whole blocks. */
  function LastBlock(c: seq<Byte>): Block
    requires |c| >= 16
  {
    c[|c| - 16..]
  }

  /** The last ciphertext block written so far, or the initialisation vector. */
  function Previous(iv: Block, front: seq<Byte>): Block {
    if |front| < 16 then iv else LastBlock(front)
  }

  /** CBC decryption, `P_i = D(C_i) XOR C_{i-1}` with `C_0` the initialisation vector,
      written block by block from the back. */
  function Decrypt(dec: Block -> Block, iv: Block, c: seq<Byte>): (p: seq<Byte>)
    requires |c| % 16 == 0
    ensures |p| == |c|
    decreases |c|
  {
    if |c| == 0 then []
    else
      var front := c[..|c| - 16];
      Decrypt(dec, iv, front) + XorAll(dec(LastBlock(c)), Previous(iv, front))
  }

  /** CBC encryption, `C_i = E(P_i XOR C_{i-1})`, the inverse chaining. */
  function Encrypt(enc: Block -> Block, iv: Block, p: seq<Byte>): (c: seq<Byte>)
    requires |p| % 16 == 0
    ensures |c| == |p|
    decreases |p|
  {
    if |p| == 0 then []
    else
      var front := Encrypt(enc, iv, p[..|p| - 16]);
      front + enc(XorAll(LastBlock(p), Previous(iv, front)))
  }

  /** Every plaintext block is the decryption of its ciphertext block XOR the block
      chained into it: the formula of section 6.2 of NIST SP 800-38A. */
  lemma {:induction false} DecryptBlock(dec: Block -> Block, iv: Block, c: seq<Byte>, i: nat)
    requires |c| % 16 == 0 && 16 * i + 16 <= |c|
    ensures Decrypt(dec, iv, c)[16 * i..16 * i + 16] == XorAll(dec(BlockAt(c, i)), Chained(iv, c, i))
    decreases |c|
  {
    var front := c[..|c| - 16];
    var head := Decrypt(dec, iv, front);
    var tail := XorAll(dec(LastBlock(c)), Previous(iv, front));
    if 16 * i + 16 == |c| {
      SliceAppend(head, tail, 16 * i);
      LastChained(iv, c, i);
    } else {
      DecryptBlock(dec, iv, front, i);
      SliceAppend(head, tail, 16 * i);
      FrontChained(iv, c, i);
    }
  }

  /** A block-long slice of a concatenation lies in one part when the parts meet at a block edge. */
  lemma SliceAppend(head: seq<Byte>, tail: seq<Byte>, k: nat)
    requires |tail| == 16 && (k + 16 <= |head| || k == |head|)
    ensures k + 16 <= |head| ==> (head + tail)[k..k + 16] == head[k..k + 16]
    ensures k == |head| ==> (head + tail)[k..k + 16] == tail
  {
  }

  /** The last block and the block chained into it. */
  lemma LastChained(iv: Block, c: seq<Byte>, i: nat)
    requires |c| % 16 == 0 && 16 * i + 16 == |c|
    ensures BlockAt(c, i) == LastBlock(c) && Chained(iv, c, i) == Previous(iv, c[..|c| - 16])
  {
    var k := |c| - 16;
    assert 16 * i == k;
    if i > 0 {
      assert 16 * (i - 1) == k - 16;
      PrefixSlice(c, k - 16, k);
    }
  }

  lemma PrefixSlice(c: seq<Byte>, a: nat, b: nat)
    requires a <= b <= |c|
    ensures c[..b][a..] == c[a..b]
  {
  }

  /** An earlier block and the block chained into it are the same in the front. */
  lemma FrontChained(iv: Block, c: seq<Byte>, i: nat)
    requires |c| % 16 == 0 && 16 * i + 16 < |c|
    ensures BlockAt(c[..|c| - 16], i) == BlockAt(c, i)
    ensures Chained(iv, c[..|c| - 16], i) == Chained(iv, c, i)
  {
  }

  /** Decryption undoes encryption under the same initialisation vector when the
      block decryption undoes the block encryption. */
  lemma {:induction false} DecryptEncrypt(enc: Block -> Block, dec: Block -> Block, iv: Block, p: seq<Byte>)
    requires |p| % 16 == 0
    requires forall b: Block :: dec(enc(b)) == b
    ensures Decrypt(dec, iv, Encrypt(enc, iv, p)) == p
    decreases |p|
  {
    if |p| > 0 {
      var pf := p[..|p| - 16];
      var front := Encrypt(enc, iv, pf);
      var c := Encrypt(enc, iv, p);
      EncryptLast(enc, iv, p);
      DecryptLast(dec, iv, c);
      DecryptEncrypt(enc, dec, iv, pf);
      XorAllCancel(LastBlock(p), Previous(iv, front));
      LastBlockSplit(p);
    }
  }

  /** The last step of encryption: the front is the encryption of the front, and
      the last block is the block encryption of the chained last plaintext block. */
  lemma EncryptLast(enc: Block -> Block, iv: Block, p: seq<Byte>)
    requires |p| % 16 == 0 && |p| > 0
    ensures var front := Encrypt(enc, iv, p[..|p| - 16]);
      var c := Encrypt(enc, iv, p);
      |c| == |p| && c[..|c| - 16] == front && LastBlock(c) == enc(XorAll(LastBlock(p), Previous(iv, front)))
  {
    var front := Encrypt(enc, iv, p[..|p| - 16]);
    var x := enc(XorAll(LastBlock(p), Previous(iv, front)));
    assert Encrypt(enc, iv, p) == front + x;
    assert (front + x)[..|front|] == front;
    assert (front + x)[|front|..] == x;
  }

  /** The last step of decryption, on a non-empty whole number of blocks. */
  lemma DecryptLast(dec: Block -> Block, iv: Block, c: seq<Byte>)
    requires |c| % 16 == 0 && |c| > 0
    ensures Decrypt(dec, iv, c) == Decrypt(dec, iv, c[..|c| - 16]) + XorAll(dec(LastBlock(c)), Previous(iv, c[..|c| - 16]))
  {
  }

  lemma LastBlockSplit(p: seq<Byte>)
    requires |p| >= 16
    ensures p == p[..|p| - 16] + LastBlock(p)
  {
  }

  /** The PKCS #7 padding of a message: `n` bytes of value `n`, with `n` from 1 to 16
      bringing the length to a whole number of blocks. */
  function Pad(m: seq<Byte>): (p: seq<Byte>) {
    m + Padding(16 - |m| % 16)
  }

  /** `decipher.final()` with automatic padding, on the whole decrypted text: the
      last byte `n` must lie in 1..16 and the last `n` bytes must all be `n`. */
  function Unpad(p: seq<Byte>): (r: Result<seq<Byte>, Thrown>)
    requires |p| >= 16
  {
    var n := p[|p| - 1];
    if n == 0 || n > 16 then Failure(Thrown(BAD_DECRYPT))
    else if exists i :: |p| - n <= i < |p| && p[i] != n then Failure(Thrown(BAD_DECRYPT))
    else Success(p[..|p| - n])
  }

  /** The bytes the padding check accepts: a message followed by its padding. */
  predicate PaddedBy(p: seq<Byte>, m: seq<Byte>) {
    exists n: nat :: 1 <= n <= 16 && p == m + Padding(n)
  }

  /** `n` bytes of value `n`. */
  function Padding(n: nat): (s: seq<Byte>)
    requires 1 <= n <= 16
    ensures |s| == n && forall i :: 0 <= i < n ==> s[i] == n
  {
    seq(n, _ => n)
  }

  /** Padding lengthens a message by 1 to 16 bytes, to a whole number of blocks. */
  lemma PadLength(m: seq<Byte>)
    ensures |Pad(m)| % 16 == 0 && |m| < |Pad(m)| <= |m| + 16 && PaddedBy(Pad(m), m)
  {
  }

  /** Unpadding accepts exactly the padded messages, and gives the message back. */
  lemma UnpadAccepts(p: seq<Byte>)
    requires |p| >= 16
    ensures Unpad(p).Success? <==> exists m :: |m| < |p| && PaddedBy(p, m)
    ensures Unpad(p).Success? ==> PaddedBy(p, Unpad(p).value) && |p| - 16 <= |Unpad(p).value| < |p|
  {
    if Unpad(p).Success? {
      var n := p[|p| - 1] as nat;
      PaddedTail(p, n);
      assert PaddedBy(p, Unpad(p).value);
    }
    if exists m :: |m| < |p| && PaddedBy(p, m) {
      var m :| |m| < |p| && PaddedBy(p, m);
      var k: nat :| 1 <= k <= 16 && p == m + Padding(k);
      UnpadPadded(p, m, k);
    }
  }

  /** A tail of `n` bytes each equal to `n` is the padding `n`. */
  lemma PaddedTail(p: seq<Byte>, n: nat)
    requires 1 <= n <= 16 && n <= |p|
    requires forall i :: |p| - n <= i < |p| ==> p[i] == n
    ensures p == p[..|p| - n] + Padding(n)
  {
    assert p[|p| - n..] == Padding(n);
  }

  /** Unpadding a message followed by padding gives the message. */
  lemma UnpadPadded(p: seq<Byte>, m: seq<Byte>, k: nat)
    requires |p| >= 16 && 1 <= k <= 16 && p == m + Padding(k)
    ensures Unpad(p) == Success(m)
  {
    assert p[|p| - 1] == k;
    assert forall i :: |p| - k <= i < |p| ==> p[i] == k;
    assert p[..|p| - k] == m;
  }

  /** Removing the padding of a padded message gives the message. */
  lemma UnpadPad(m: seq<Byte>)
    ensures |Pad(m)| >= 16 ==> Unpad(Pad(m)) == Success(m)
  {
    var p := Pad(m);
    var n := 16 - |m| % 16;
    if |p| >= 16 {
      assert p[|p| - 1] == n;
      assert p[..|p| - n] == m;
    }
  }

  /** Padding is determined by the message: the accepted text is its message's padding. */
  lemma PadUnpad(p: seq<Byte>)
    requires |p| >= 16 && |p| % 16 == 0
    ensures Unpad(p).Success? ==> Pad(Unpad(p).value) == p
  {
    if Unpad(p).Success? {
      var n := p[|p| - 1];
      var m := p[..|p| - n];
      PadCount(|p|, n);
      assert p == m + Padding(n);
    }
  }

  /** Cutting `n` bytes, 1 to 16, off a whole number of blocks leaves a length that
      pads by exactly `n`. */
  lemma PadCount(len: nat, n: nat)
    requires len % 16 == 0 && 1 <= n <= 16 && n <= len
    ensures 16 - (len - n) % 16 == n
  {
    var q := len / 16;
    assert len == 16 * q;
    assert q >= 1;
    assert len - n == 16 * (q - 1) + (16 - n);
    if n == 16 {
      assert (len - n) % 16 == 0;
    } else {
      assert (len - n) % 16 == 16 - n;
    }
  }

  /** `decipher.update(data)` followed by `decipher.final()`: data that is not a
      non-empty whole number of blocks is refused, and otherwise the padding of
      the decrypted text is checked and removed. */
  function Decipher(dec: Block -> Block, iv: Block, c: seq<Byte>): (r: Result<seq<Byte>, Thrown>) {
    if |c| == 0 || |c| % 16 != 0 then Failure(Thrown(WRONG_FINAL_BLOCK_LENGTH))
    else Unpad(Decrypt(dec, iv, c))
  }

  /** A deciphered text is the decrypted data without its 1 to 16 bytes of padding. */
  lemma DecipherShape(dec: Block -> Block, iv: Block, c: seq<Byte>)
    ensures Decipher(dec, iv, c).Success? ==>
      |c| > 0 && |c| % 16 == 0 && PaddedBy(Decrypt(dec, iv, c), Decipher(dec, iv, c).value)
      && |c| - 16 <= |Decipher(dec, iv, c).value| < |c|
    ensures |c| == 0 || |c| % 16 != 0 ==> Decipher(dec, iv, c) == Failure(Thrown(WRONG_FINAL_BLOCK_LENGTH))
  {
    if |c| > 0 && |c| % 16 == 0 {
      UnpadAccepts(Decrypt(dec, iv, c));
    }
  }

  /** Encrypting the padded message and deciphering the result gives the message back. */
  lemma DecipherEncrypted(enc: Block -> Block, dec: Block -> Block, iv: Block, m: seq<Byte>)
    requires forall b: Block :: dec(enc(b)) == b
    ensures Decipher(dec, iv, Encrypt(enc, iv, Pad(m))) == Success(m)
  {
    PadLength(m);
    DecryptEncrypt(enc, dec, iv, Pad(m));
    UnpadPad(m);
  }
}
