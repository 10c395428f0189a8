/** Bytes and their lowercase hexadecimal rendering, as Node's `buf.toString('hex')` produces it. */
module Hex {
  import opened Wrappers

  type byte = x: int | 0 <= x < 256

  const HexDigits: string := "0123456789abcdef"

  predicate IsLowerHexDigit(c: char)
  {
    ('0' <= c <= '9') || ('a' <= c <= 'f')
  }

  function HexDigitValue(c: char): (d: nat)
    requires IsLowerHexDigit(c)
    ensures d < 16 && HexDigits[d] == c
  {
    if '0' <= c <= '9' then c as int - '0' as int else c as int - 'a' as int + 10
  }

  lemma HexDigitRoundTrip(d: nat)
    requires d < 16
    ensures IsLowerHexDigit(HexDigits[d]) && HexDigitValue(HexDigits[d]) == d
  {
  }

  /** Two lowercase hex digits, high nibble first. */
  function ByteToHex(b: byte): (r: string)
    ensures |r| == 2 && IsLowerHexDigit(r[0]) && IsLowerHexDigit(r[1])
    ensures HexDigitValue(r[0]) * 16 + HexDigitValue(r[1]) == b
  {
    var hi := b / 16;
    var lo := b % 16;
    HexDigitRoundTrip(hi);
    HexDigitRoundTrip(lo);
    [HexDigits[hi], HexDigits[lo]]
  }

  /** The hex encoding of a byte sequence: two characters per byte, in order. */
  function ToHex(bs: seq<byte>): (r: string)
    ensures |r| == 2 * |bs|
  {
    if bs == [] then [] else ByteToHex(bs[0]) + ToHex(bs[1..])
  }

  /** The encoding uses only the digits `0-9` and the lowercase letters `a-f`. */
  lemma {:induction false} ToHexIsLowerHex(bs: seq<byte>)
    ensures forall i :: 0 <= i < |ToHex(bs)| ==> IsLowerHexDigit(ToHex(bs)[i])
  {
    if bs != [] {
      ToHexIsLowerHex(bs[1..]);
      var h, t := ByteToHex(bs[0]), ToHex(bs[1..]);
      assert ToHex(bs) == h + t;
      forall i | 2 <= i < |ToHex(bs)|
        ensures ToHex(bs)[i] == t[i - 2]
      {
      }
    }
  }

  /** Decodes a lowercase hex string; `None` for an odd length or a character outside `[0-9a-f]`. */
  function FromHex(s: string): Option<seq<byte>>
    decreases |s|
  {
    if s == [] then Some([])
    else if |s| < 2 || !IsLowerHexDigit(s[0]) || !IsLowerHexDigit(s[1]) then None
    else
      match FromHex(s[2..])
      case None => None
      case Some(rest) => Some([PairValue(s[0], s[1])] + rest)
  }

  /** The byte two hex digits spell, high nibble first. */
  function PairValue(a: char, b: char): (v: byte)
    requires IsLowerHexDigit(a) && IsLowerHexDigit(b)
    ensures v == HexDigitValue(a) * 16 + HexDigitValue(b)
  {
    var x, y := HexDigitValue(a), HexDigitValue(b);
    assert x * 16 <= 15 * 16;
    x * 16 + y
  }

  /** Encoding the byte two hex digits spell gives back those digits. */
  lemma PairValueEncodes(a: char, b: char)
    requires IsLowerHexDigit(a) && IsLowerHexDigit(b)
    ensures ByteToHex(PairValue(a, b)) == [a, b]
  {
    var h := ByteToHex(PairValue(a, b));
    HexDigitPairUnique(h[0], h[1], a, b);
  }

  /** A pair of hex digits is determined by the number it spells. */
  lemma HexDigitPairUnique(a: char, b: char, c: char, d: char)
    requires IsLowerHexDigit(a) && IsLowerHexDigit(b) && IsLowerHexDigit(c) && IsLowerHexDigit(d)
    requires HexDigitValue(a) * 16 + HexDigitValue(b) == HexDigitValue(c) * 16 + HexDigitValue(d)
    ensures a == c && b == d
  {
    var x, y, z, w := HexDigitValue(a), HexDigitValue(b), HexDigitValue(c), HexDigitValue(d);
    assert x == z;
    assert HexDigits[x] == a && HexDigits[z] == c;
    assert HexDigits[y] == b && HexDigits[w] == d;
  }

  /** Hex encoding distributes over concatenation. */
  lemma {:induction false} ToHexAppend(a: seq<byte>, b: seq<byte>)
    ensures ToHex(a + b) == ToHex(a) + ToHex(b)
    decreases |a|
  {
    if a == [] {
      assert a + b == b;
    } else {
      assert (a + b)[1..] == a[1..] + b;
      ToHexAppend(a[1..], b);
    }
  }

  /** The encoding of the first `k` bytes is the first `2k` characters of the encoding. */
  lemma ToHexPrefix(bs: seq<byte>, k: nat)
    requires k <= |bs|
    ensures ToHex(bs[..k]) == ToHex(bs)[..2 * k]
  {
    var a, b := bs[..k], bs[k..];
    assert bs == a + b;
    ToHexAppend(a, b);
    var ha := ToHex(a);
    assert ToHex(bs) == ha + ToHex(b);
    assert |ha| == 2 * k;
    assert (ha + ToHex(b))[..|ha|] == ha;
  }

  /** Decoding the encoding gives back the bytes. */
  lemma {:induction false} HexRoundTrip(bs: seq<byte>)
    ensures FromHex(ToHex(bs)) == Some(bs)
  {
    if bs != [] {
      HexRoundTrip(bs[1..]);
      var h, t := ByteToHex(bs[0]), ToHex(bs[1..]);
      var s := h + t;
      assert s == ToHex(bs);
      assert s[2..] == t;
      assert s[0] == h[0] && s[1] == h[1];
      assert PairValue(s[0], s[1]) == bs[0];
      assert [bs[0]] + bs[1..] == bs;
    }
  }

  /** Every string the decoder accepts is the encoding of what it decodes to. */
  lemma {:induction false} HexDecodeIsInverse(s: string, bs: seq<byte>)
    requires FromHex(s) == Some(bs)
    ensures ToHex(bs) == s
    decreases |s|
  {
    if s != [] {
      assert |s| >= 2 && IsLowerHexDigit(s[0]) && IsLowerHexDigit(s[1]);
      var rest := FromHex(s[2..]).value;
      var v := PairValue(s[0], s[1]);
      assert bs == [v] + rest;
      HexDecodeIsInverse(s[2..], rest);
      PairValueEncodes(s[0], s[1]);
      assert bs[0] == v && bs[1..] == rest;
      assert ToHex(bs) == ByteToHex(v) + ToHex(rest);
      assert s == [s[0], s[1]] + s[2..];
    }
  }
}
