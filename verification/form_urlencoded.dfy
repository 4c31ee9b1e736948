/** The `application/x-www-form-urlencoded` format of the WHATWG URL Standard: the
    serializer of section 5.2, which `URLSearchParams.toString()` runs, and the
    parser of section 5.1 with the percent-decoding of section 1.3. Names and values
    are strings; on the wire they are UTF-8 bytes. */
module FormUrlencoded {
  import opened Bytes
  import opened Seqs
  import Utf8

  const AMPERSAND: Byte := 0x26
  const EQUALS: Byte := 0x3D
  const PLUS: Byte := 0x2B
  const PERCENT: Byte := 0x25
  const SPACE: Byte := 0x20

  /** A name and its value. */
  type Pair = (string, string)

  predicate Alphanumeric(b: Byte) {
    0x30 <= b <= 0x39 || 0x41 <= b <= 0x5A || 0x61 <= b <= 0x7A
  }

  /** The bytes outside the form percent-encode set: ASCII alphanumerics and `*-._`. */
  predicate Unreserved(b: Byte) {
    Alphanumeric(b) || b == 0x2A || b == 0x2D || b == 0x2E || b == 0x5F
  }

  /** The bytes an encoded name or value consists of. */
  predicate Encoded(b: Byte) {
    Unreserved(b) || b == PLUS || b == PERCENT
  }

  /** The upper-case hex digit of a nibble, as percent-encoding writes it. */
  function UpperHex(n: nat): (d: Byte)
    requires n < 16
    ensures Alphanumeric(d)
  {
    if n < 10 then 0x30 + n else 0x41 + n - 10
  }

  /** An ASCII hex digit of either case. */
  predicate IsHex(b: Byte) {
    0x30 <= b <= 0x39 || 0x41 <= b <= 0x46 || 0x61 <= b <= 0x66
  }

  function HexValue(b: Byte): (n: nat)
    requires IsHex(b)
    ensures n < 16
  {
    if b <= 0x39 then b - 0x30 else if b <= 0x46 then b - 0x41 + 10 else b - 0x61 + 10
  }

  /** One byte of a name or value: itself when unreserved, `+` for a space, `%XY` otherwise. */
  function EncodeByte(b: Byte): (e: seq<Byte>)
    ensures 1 <= |e| && forall i :: 0 <= i < |e| ==> Encoded(e[i])
  {
    if Unreserved(b) then [b]
    else if b == SPACE then [PLUS]
    else [PERCENT, UpperHex(b / 16), UpperHex(b % 16)]
  }

  /** The percent-encoding of a byte sequence with spaces as `+`. */
  function EncodeBytes(bs: seq<Byte>): (r: seq<Byte>)
    ensures forall i :: 0 <= i < |r| ==> Encoded(r[i])
  {
    if |bs| == 0 then [] else EncodeByte(bs[0]) + EncodeBytes(bs[1..])
  }

  /** A name or value encoded: its UTF-8 bytes, percent-encoded. */
  function EncodeText(s: string): seq<Byte> {
    EncodeBytes(Utf8.EncodeString(s))
  }

  /** `name=value`, both encoded. */
  function PairBytes(p: Pair): (r: seq<Byte>)
    ensures forall i :: 0 <= i < |r| ==> r[i] < 0x80 && r[i] != AMPERSAND
  {
    EncodeText(p.0) + [EQUALS] + EncodeText(p.1)
  }

  /** The serializer: the encoded pairs in order, separated by `&`. */
  function SerializeBytes(pairs: seq<Pair>): (r: seq<Byte>)
    ensures forall i :: 0 <= i < |r| ==> r[i] < 0x80
  {
    if |pairs| == 0 then []
    else if |pairs| == 1 then PairBytes(pairs[0])
    else PairBytes(pairs[0]) + [AMPERSAND] + SerializeBytes(pairs[1..])
  }

  /** ASCII bytes as the characters they encode. */
  function Chars(bs: seq<Byte>): (s: string)
    requires forall i :: 0 <= i < |bs| ==> bs[i] < 0x80
    ensures |s| == |bs| && forall i :: 0 <= i < |bs| ==> s[i] as int == bs[i]
  {
    seq(|bs|, i requires 0 <= i < |bs| => bs[i] as char)
  }

  /** `new URLSearchParams(pairs).toString()`. */
  function Serialize(pairs: seq<Pair>): string {
    Chars(SerializeBytes(pairs))
  }

  /** `+` read as a space, as the parser does before percent-decoding. */
  function PlusAsSpace(b: Byte): Byte {
    if b == PLUS then SPACE else b
  }

  /** Percent-decoding: `%` and two hex digits of either case give one byte; any
      other byte, a `%` without two hex digits included, stands for itself. */
  function PercentDecode(bs: seq<Byte>): seq<Byte>
    decreases |bs|
  {
    if |bs| == 0 then []
    else if bs[0] == PERCENT && |bs| >= 3 && IsHex(bs[1]) && IsHex(bs[2]) then
      [HexValue(bs[1]) * 16 + HexValue(bs[2])] + PercentDecode(bs[3..])
    else [bs[0]] + PercentDecode(bs[1..])
  }

  /** A name or value read back: `+` as space, percent-decoded, then UTF-8 decoded
      with replacement of ill-formed sequences. */
  function DecodeText(bs: seq<Byte>): string {
    Utf8.Decode(PercentDecode(MapSeq(PlusAsSpace, bs)))
  }

  /** The position of the first `x`, or the length when there is none. */
  function IndexOf(bs: seq<Byte>, x: Byte): (k: nat)
    ensures k <= |bs| && (k < |bs| ==> bs[k] == x)
    ensures forall j :: 0 <= j < k ==> bs[j] != x
  {
    if |bs| == 0 || bs[0] == x then 0 else 1 + IndexOf(bs[1..], x)
  }

  /** One `&`-free sequence: split at its first `=`; without one, all of it is the
      name and the value is empty. */
  function ParsePiece(piece: seq<Byte>): Pair {
    var k := IndexOf(piece, EQUALS);
    (DecodeText(piece[..k]), DecodeText(if k < |piece| then piece[k + 1..] else []))
  }

  /** The parser: the sequences between `&`s, empty ones skipped, each one a pair. */
  function ParseBytes(bs: seq<Byte>): seq<Pair>
    decreases |bs|
  {
    if |bs| == 0 then []
    else
      var k := IndexOf(bs, AMPERSAND);
      var rest := if k < |bs| then ParseBytes(bs[k + 1..]) else [];
      if k == 0 then rest else [ParsePiece(bs[..k])] + rest
  }

  /** `new URLSearchParams(s)` on a string: its UTF-8 bytes, parsed. */
  function Parse(s: string): seq<Pair> {
    ParseBytes(Utf8.EncodeString(s))
  }

  lemma UpperHexValue(n: nat)
    requires n < 16
    ensures IsHex(UpperHex(n)) && HexValue(UpperHex(n)) == n && UpperHex(n) != PLUS
  {
  }

  /** Decoding takes back one encoded byte at the front. */
  lemma DecodeEncodeByte(b: Byte, rest: seq<Byte>)
    ensures PercentDecode(MapSeq(PlusAsSpace, EncodeByte(b) + rest)) == [b] + PercentDecode(MapSeq(PlusAsSpace, rest))
  {
    var e := EncodeByte(b);
    var r := MapSeq(PlusAsSpace, rest);
    MapAppend(PlusAsSpace, e, rest);
    if !Unreserved(b) && b != SPACE {
      UpperHexValue(b / 16);
      UpperHexValue(b % 16);
      var m := MapSeq(PlusAsSpace, e) + r;
      assert m[..3] == e;
      assert m[3..] == r;
    } else {
      var m := MapSeq(PlusAsSpace, e) + r;
      assert m[0] == b;
      assert m[1..] == r;
    }
  }

  /** Decoding undoes encoding, byte for byte. */
  lemma {:induction false} DecodeEncodeBytes(bs: seq<Byte>)
    ensures PercentDecode(MapSeq(PlusAsSpace, EncodeBytes(bs))) == bs
  {
    if |bs| > 0 {
      DecodeEncodeByte(bs[0], EncodeBytes(bs[1..]));
      DecodeEncodeBytes(bs[1..]);
      assert [bs[0]] + bs[1..] == bs;
    }
  }

  /** Reading back an encoded name or value gives the string that was encoded. */
  lemma DecodeEncodeText(s: string)
    ensures DecodeText(EncodeText(s)) == s
  {
    DecodeEncodeBytes(Utf8.EncodeString(s));
    Utf8.DecodeEncodeString(s);
  }

  /** The first `x` of a concatenation, when the front holds none. */
  lemma IndexOfAfter(a: seq<Byte>, x: Byte, b: seq<Byte>)
    requires forall i :: 0 <= i < |a| ==> a[i] != x
    ensures IndexOf(a + [x] + b, x) == |a|
  {
    assert (a + [x] + b)[|a|] == x;
    assert forall i :: 0 <= i < |a| ==> (a + [x] + b)[i] == a[i];
  }

  /** An encoded pair parses back to the pair. */
  lemma ParsePairBytes(p: Pair)
    ensures ParsePiece(PairBytes(p)) == p
  {
    var n := EncodeText(p.0);
    var v := EncodeText(p.1);
    var bs := n + [EQUALS] + v;
    IndexOfAfter(n, EQUALS, v);
    assert bs[..|n|] == n;
    assert bs[|n| + 1..] == v;
    DecodeEncodeText(p.0);
    DecodeEncodeText(p.1);
  }

  /** Without an `x`, the search runs to the end. */
  lemma IndexOfAbsent(bs: seq<Byte>, x: Byte)
    requires forall i :: 0 <= i < |bs| ==> bs[i] != x
    ensures IndexOf(bs, x) == |bs|
  {
  }

  /** A non-empty `&`-free sequence parses as one pair. */
  lemma ParseLast(piece: seq<Byte>)
    requires |piece| > 0 && forall i :: 0 <= i < |piece| ==> piece[i] != AMPERSAND
    ensures ParseBytes(piece) == [ParsePiece(piece)]
  {
    IndexOfAbsent(piece, AMPERSAND);
    assert piece[..|piece|] == piece;
    assert ParseBytes(piece) == [ParsePiece(piece[..|piece|])] + [];
  }

  /** A non-empty `&`-free sequence before a `&` parses as the first pair. */
  lemma ParseFront(piece: seq<Byte>, rest: seq<Byte>)
    requires |piece| > 0 && forall i :: 0 <= i < |piece| ==> piece[i] != AMPERSAND
    ensures ParseBytes(piece + [AMPERSAND] + rest) == [ParsePiece(piece)] + ParseBytes(rest)
  {
    var bs := piece + [AMPERSAND] + rest;
    IndexOfAfter(piece, AMPERSAND, rest);
    assert bs[..|piece|] == piece;
    assert bs[|piece| + 1..] == rest;
  }

  /** Parsing the serialization of a list of pairs gives the list back. */
  lemma {:induction false} ParseSerializeBytes(pairs: seq<Pair>)
    ensures ParseBytes(SerializeBytes(pairs)) == pairs
  {
    if |pairs| > 0 {
      var head := PairBytes(pairs[0]);
      ParsePairBytes(pairs[0]);
      assert |head| > 0;
      if |pairs| == 1 {
        ParseLast(head);
      } else {
        ParseFront(head, SerializeBytes(pairs[1..]));
        ParseSerializeBytes(pairs[1..]);
        assert [pairs[0]] + pairs[1..] == pairs;
      }
    }
  }

  /** The UTF-8 bytes of ASCII characters are their values. */
  lemma {:induction false} AsciiBytes(bs: seq<Byte>)
    requires forall i :: 0 <= i < |bs| ==> bs[i] < 0x80
    ensures Utf8.EncodeString(Chars(bs)) == bs
    decreases |bs|
  {
    if |bs| > 0 {
      var n := |bs| - 1;
      var s := Chars(bs);
      assert s[..n] == Chars(bs[..n]);
      AsciiBytes(bs[..n]);
      assert Utf8.Encode(s[n]) == [bs[n]];
      assert bs == bs[..n] + [bs[n]];
    }
  }

  /** `new URLSearchParams(new URLSearchParams(pairs).toString())` holds the same
      pairs, in the same order. */
  lemma ParseSerialize(pairs: seq<Pair>)
    ensures Parse(Serialize(pairs)) == pairs
  {
    AsciiBytes(SerializeBytes(pairs));
    ParseSerializeBytes(pairs);
  }
}
