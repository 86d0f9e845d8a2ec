/** Machine integers, byte strings and the upper-case hexadecimal rendering of a digest. */
module Bytes {
  import opened Results

  type uint8 = x: int | 0 <= x < 0x100
  type uint16 = x: int | 0 <= x < 0x1_0000
  /** Rust's `u64`, used for manifest sizes. */
  type u64 = x: int | 0 <= x < 0x1_0000_0000_0000_0000

  type Bytes = seq<uint8>

  /** A SHA-1 digest: twenty bytes. */
  type Digest = s: Bytes | |s| == 20
    witness [0, 0, 0, 0, 0, 0, 0, 0, 0, 0, 0, 0, 0, 0, 0, 0, 0, 0, 0, 0]

  const HEX_DIGITS: string := "0123456789ABCDEF"

  function HexDigit(v: int): char
    requires 0 <= v < 16
  {
    HEX_DIGITS[v]
  }

  /** The value of an upper-case hexadecimal digit; lower-case letters are not digits here. */
  function HexValue(c: char): Option<int> {
    if '0' <= c <= '9' then Some(c as int - '0' as int)
    else if 'A' <= c <= 'F' then Some(c as int - 'A' as int + 10)
    else None
  }

  /** `format!` with the upper-case hex specifier: each byte as two upper-case hexadecimal digits, high nibble first. */
  function HexUpper(bs: Bytes): (h: string)
    ensures |h| == 2 * |bs|
  {
    if bs == [] then []
    else [HexDigit(bs[0] / 16), HexDigit(bs[0] % 16)] + HexUpper(bs[1..])
  }

  /** Where each digit of the rendering comes from, and that every character is an upper-case digit. */
  lemma {:induction false} HexUpperAt(bs: Bytes)
    ensures forall i :: 0 <= i < |bs| ==>
      HexUpper(bs)[2 * i] == HexDigit(bs[i] / 16) && HexUpper(bs)[2 * i + 1] == HexDigit(bs[i] % 16)
    ensures forall k :: 0 <= k < 2 * |bs| ==> HexUpper(bs)[k] in HEX_DIGITS
  {
    if bs != [] {
      HexUpperAt(bs[1..]);
      var h := HexUpper(bs);
      assert h == [HexDigit(bs[0] / 16), HexDigit(bs[0] % 16)] + HexUpper(bs[1..]);
      forall i | 1 <= i < |bs|
        ensures h[2 * i] == HexDigit(bs[i] / 16) && h[2 * i + 1] == HexDigit(bs[i] % 16)
      {
        assert bs[1..][i - 1] == bs[i];
        assert h[2 * i] == HexUpper(bs[1..])[2 * (i - 1)];
        assert h[2 * i + 1] == HexUpper(bs[1..])[2 * (i - 1) + 1];
      }
      forall k | 2 <= k < 2 * |bs| ensures h[k] in HEX_DIGITS {
        assert h[k] == HexUpper(bs[1..])[k - 2];
      }
    }
  }

  /** Reads back a string of upper-case hexadecimal digit pairs. */
  function HexDecode(h: string): Option<Bytes>
    decreases |h|
  {
    if h == [] then Some([])
    else if |h| == 1 then None
    else
      match (HexValue(h[0]), HexValue(h[1]), HexDecode(h[2..]))
      case (Some(hi), Some(lo), Some(rest)) =>
        if 0 <= hi < 16 && 0 <= lo < 16 then Some([hi * 16 + lo] + rest) else None
      case _ => None
  }

  lemma HexDigitValue(v: int)
    requires 0 <= v < 16
    ensures HexValue(HexDigit(v)) == Some(v)
  {
  }

  /** The digit pair of one byte reads back as that byte. */
  lemma HexPair(b: uint8, rest: string, tail: Bytes)
    requires HexDecode(rest) == Some(tail)
    ensures HexDecode([HexDigit(b / 16), HexDigit(b % 16)] + rest) == Some([b] + tail)
  {
    var h := [HexDigit(b / 16), HexDigit(b % 16)] + rest;
    HexDigitValue(b / 16);
    HexDigitValue(b % 16);
    assert h[2..] == rest;
  }

  /** Reading the rendering back gives the digest: the rendering loses nothing. */
  lemma {:induction false} HexRoundTrip(bs: Bytes)
    ensures HexDecode(HexUpper(bs)) == Some(bs)
  {
    if bs != [] {
      HexRoundTrip(bs[1..]);
      HexPair(bs[0], HexUpper(bs[1..]), bs[1..]);
      assert [bs[0]] + bs[1..] == bs;
    }
  }

  /** Two digests are equal exactly when their renderings are. */
  lemma HexInjective(a: Bytes, b: Bytes)
    ensures HexUpper(a) == HexUpper(b) <==> a == b
  {
    if HexUpper(a) == HexUpper(b) {
      HexRoundTrip(a);
      HexRoundTrip(b);
    }
  }
}
