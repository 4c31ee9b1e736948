/** The timeline's thread colour: a hue taken from the first four bytes of the
    SHA-256 digest of the thread key, written as an `hsla(...)` CSS colour. The
    digest itself is a parameter; only its length is assumed. */
module ThreadColor {
  import opened Wrappers
  import opened Items
  import opened SignalSource
  import opened Bytes

  /** A SHA-256 digest. */
  type Digest = d: seq<Byte> | |d| == 32 witness seq(32, _ => 0)

  const HEX_DIGITS: string := "0123456789abcdef"

  /** The lower-case hex digit of a nibble. */
  function HexDigit(n: int): char
    requires 0 <= n < 16
  {
    HEX_DIGITS[n]
  }

  /** Two lower-case hex digits per byte, high nibble first, as `js-sha256`'s hex output. */
  function Hex(b: seq<Byte>): (h: string)
    ensures |h| == 2 * |b|
  {
    if |b| == 0 then "" else Hex(b[..|b| - 1]) + [HexDigit(b[|b| - 1] / 16), HexDigit(b[|b| - 1] % 16)]
  }

  /** The value of a hex digit, either case; `None` for any other character. */
  function DigitValue(c: char): (v: Option<nat>)
    ensures v.Some? ==> v.value < 16
  {
    if '0' <= c <= '9' then Some(c as int - '0' as int)
    else if 'a' <= c <= 'f' then Some(c as int - 'a' as int + 10)
    else if 'A' <= c <= 'F' then Some(c as int - 'A' as int + 10)
    else None
  }

  /** The length of the longest prefix of hex digits. */
  function HexRun(s: string): (n: nat)
    ensures n <= |s|
    ensures forall i :: 0 <= i < n ==> DigitValue(s[i]).Some?
    ensures n < |s| ==> DigitValue(s[n]).None?
  {
    if |s| == 0 || DigitValue(s[0]).None? then 0
    else
      var n := HexRun(s[1..]);
      assert forall i :: 1 <= i <= n ==> s[i] == s[1..][i - 1];
      1 + n
  }

  /** The number a string of hex digits denotes, most significant first. */
  function HexValue(s: string): nat
    requires forall i :: 0 <= i < |s| ==> DigitValue(s[i]).Some?
  {
    if |s| == 0 then 0 else HexValue(s[..|s| - 1]) * 16 + DigitValue(s[|s| - 1]).value
  }

  /** `parseInt(s, 16)` on a string without sign, blanks or `0x`: the leading hex
      digits, or `None` (`NaN`) when there are none. */
  function ParseInt16(s: string): (r: Option<nat>)
    ensures r.None? <==> |s| == 0 || DigitValue(s[0]).None?
  {
    var n := HexRun(s);
    if n == 0 then None else Some(HexValue(s[..n]))
  }

  /** The bytes as one big-endian unsigned number. */
  function BigEndian(b: seq<Byte>): nat {
    if |b| == 0 then 0 else BigEndian(b[..|b| - 1]) * 256 + b[|b| - 1]
  }

  lemma HexDigitValue(n: int)
    requires 0 <= n < 16
    ensures DigitValue(HexDigit(n)) == Some(n)
  {
  }

  /** Appending two digits multiplies by 256 and adds their value. */
  lemma HexValueSnoc(h: string, c1: char, c2: char)
    requires forall i :: 0 <= i < |h| ==> DigitValue(h[i]).Some?
    requires DigitValue(c1).Some? && DigitValue(c2).Some?
    ensures forall i :: 0 <= i < |h + [c1, c2]| ==> DigitValue((h + [c1, c2])[i]).Some?
    ensures HexValue(h + [c1, c2]) == HexValue(h) * 256 + DigitValue(c1).value * 16 + DigitValue(c2).value
  {
    var h2 := h + [c1, c2];
    assert h2[..|h2| - 1] == h + [c1];
    assert (h + [c1])[..|h|] == h;
  }

  /** Reading the hex output back gives the number the bytes denote. */
  lemma {:induction false} HexValueOfHex(b: seq<Byte>)
    ensures forall i :: 0 <= i < |Hex(b)| ==> DigitValue(Hex(b)[i]).Some?
    ensures HexValue(Hex(b)) == BigEndian(b)
  {
    if |b| > 0 {
      var front := b[..|b| - 1];
      var x := b[|b| - 1];
      HexValueOfHex(front);
      HexDigitValue(x / 16);
      HexDigitValue(x % 16);
      HexValueSnoc(Hex(front), HexDigit(x / 16), HexDigit(x % 16));
    }
  }

  /** The first `2k` hex digits are the hex output of the first `k` bytes. */
  lemma {:induction false} HexPrefix(b: seq<Byte>, k: nat)
    requires k <= |b|
    ensures Hex(b)[..2 * k] == Hex(b[..k])
    decreases |b|
  {
    if k < |b| {
      var front := b[..|b| - 1];
      HexPrefix(front, k);
      assert front[..k] == b[..k];
      assert Hex(b) == Hex(front) + [HexDigit(b[|b| - 1] / 16), HexDigit(b[|b| - 1] % 16)];
    } else {
      assert b[..k] == b;
    }
  }

  /** `hashHex.slice(0, 8)` parsed in base 16 is the digest's first four bytes, big-endian. */
  lemma FirstEightHex(d: Digest)
    ensures ParseInt16(Hex(d)[..8]) == Some(BigEndian(d[..4]))
  {
    HexPrefix(d, 4);
    var s := Hex(d[..4]);
    HexValueOfHex(d[..4]);
    assert s[..8] == s;
  }

  /** Four bytes make a 32-bit unsigned number. */
  lemma {:induction false} BigEndianBound(b: seq<Byte>)
    ensures BigEndian(b) < Pow256(|b|)
  {
    if |b| > 0 {
      BigEndianBound(b[..|b| - 1]);
    }
  }

  function Pow256(n: nat): nat {
    if n == 0 then 1 else 256 * Pow256(n - 1)
  }

  /** The decimal digits of a number, as a template literal prints it. */
  function Decimal(n: nat): (s: string)
    ensures |s| > 0
    ensures forall i :: 0 <= i < |s| ==> '0' <= s[i] <= '9'
  {
    if n < 10 then [DecChar(n)] else Decimal(n / 10) + [DecChar(n % 10)]
  }

  function DecChar(n: nat): (c: char)
    requires n < 10
    ensures '0' <= c <= '9'
  {
    ('0' as int + n) as char
  }

  /** The number a string of decimal digits denotes. */
  function DecimalValue(s: string): nat
    requires forall i :: 0 <= i < |s| ==> '0' <= s[i] <= '9'
  {
    if |s| == 0 then 0 else DecimalValue(s[..|s| - 1]) * 10 + (s[|s| - 1] as int - '0' as int)
  }

  /** The printed hue reads back as the hue. */
  lemma {:induction false} DecimalRoundTrip(n: nat)
    ensures DecimalValue(Decimal(n)) == n
  {
    if n >= 10 {
      DecimalRoundTrip(n / 10);
      var s := Decimal(n);
      assert s[..|s| - 1] == Decimal(n / 10);
    }
  }

  const SATURATION_LIGHTNESS_ALPHA: string := ", 70%, 15%, 1)"

  /** `numeric % 360`. */
  function Hue(d: Digest): (h: nat)
    ensures h < 360
  {
    BigEndian(d[..4]) % 360
  }

  /** `getThreadColor(threadId)`. `js-sha256` throws on a key that is not a string,
      so the `undefined` key (`None`) is an error. */
  function GetThreadColor(threadId: Option<string>, sha256: string -> Digest): (r: Result<string, Thrown>)
    ensures threadId.None? <==> r.Failure?
    ensures r.Success? ==> exists hue: nat :: hue < 360 && r.value == "hsla(" + Decimal(hue) + SATURATION_LIGHTNESS_ALPHA
  {
    match threadId
    case None => Failure(Thrown("input is invalid type"))
    case Some(t) =>
      var d := sha256(t);
      FirstEightHex(d);
      var numeric := ParseInt16(Hex(d)[..8]).value;
      Success("hsla(" + Decimal(numeric % 360) + SATURATION_LIGHTNESS_ALPHA)
  }

  /** The colour of a thread is the hue of its digest's first four bytes: keys whose
      digests agree there share a colour, whatever the remaining bytes. */
  lemma ColorIsHue(t: string, sha256: string -> Digest)
    ensures GetThreadColor(Some(t), sha256) == Success("hsla(" + Decimal(Hue(sha256(t))) + SATURATION_LIGHTNESS_ALPHA)
  {
    FirstEightHex(sha256(t));
  }

  /** Different hues give different colours: the hue can be read back from the colour. */
  lemma ColorsSeparateHues(d1: Digest, d2: Digest)
    requires "hsla(" + Decimal(Hue(d1)) + SATURATION_LIGHTNESS_ALPHA == "hsla(" + Decimal(Hue(d2)) + SATURATION_LIGHTNESS_ALPHA
    ensures Hue(d1) == Hue(d2)
  {
    var s1 := Decimal(Hue(d1));
    var s2 := Decimal(Hue(d2));
    assert |s1| == |s2| by {
      assert |"hsla(" + s1 + SATURATION_LIGHTNESS_ALPHA| == |"hsla(" + s2 + SATURATION_LIGHTNESS_ALPHA|;
    }
    assert s1 == ("hsla(" + s1 + SATURATION_LIGHTNESS_ALPHA)[5..5 + |s1|];
    assert s2 == ("hsla(" + s2 + SATURATION_LIGHTNESS_ALPHA)[5..5 + |s2|];
    DecimalRoundTrip(Hue(d1));
    DecimalRoundTrip(Hue(d2));
  }

  /** Items from the Signal source carry no thread key, so colouring their group throws. */
  lemma SignalGroupsHaveNoColor(row: ResultRow, parseJson: string -> Option<MessageJson>, sha256: string -> Digest)
    ensures GetThreadColor(ToItem(row, parseJson).threadId, sha256).Failure?
  {
  }
}
