/**
 * The UTF-16 encoding form (section 3.9 of the Unicode Standard) between Rust
 * strings and 16-bit code units: `str::encode_utf16` is total,
 * `String::from_utf16` fails on a surrogate that is not part of a pair.
 */
module Utf16 {
  import opened Results
  import opened Bytes

  predicate IsHighSurrogate(u: uint16) {
    0xD800 <= u <= 0xDBFF
  }

  predicate IsLowSurrogate(u: uint16) {
    0xDC00 <= u <= 0xDFFF
  }

  /** `String::from_utf16`'s error: some surrogate is unpaired. */
  datatype Utf16Error = UnpairedSurrogate

  /** The code units of one character: itself below U+10000, a high and a low surrogate above. */
  function EncodeChar(c: char): (us: seq<uint16>)
    ensures |us| == 1 ==> !IsHighSurrogate(us[0]) && !IsLowSurrogate(us[0]) && us[0] == c as int
    ensures |us| == 2 ==> IsHighSurrogate(us[0]) && IsLowSurrogate(us[1])
    ensures |us| == 1 || |us| == 2
  {
    var cp := c as int;
    if cp < 0x1_0000 then [cp]
    else
      var v := cp - 0x1_0000;
      [0xD800 + v / 0x400, 0xDC00 + v % 0x400]
  }

  /** `str::encode_utf16`. */
  function EncodeUtf16(s: string): seq<uint16> {
    if s == [] then [] else EncodeChar(s[0]) + EncodeUtf16(s[1..])
  }

  /** The character a surrogate pair stands for. */
  function PairToChar(hi: uint16, lo: uint16): char
    requires IsHighSurrogate(hi) && IsLowSurrogate(lo)
  {
    (0x1_0000 + (hi - 0xD800) * 0x400 + (lo - 0xDC00)) as char
  }

  /** `String::from_utf16`. */
  function DecodeUtf16(us: seq<uint16>): Result<string, Utf16Error>
    decreases |us|
  {
    if us == [] then Ok([])
    else if !IsHighSurrogate(us[0]) && !IsLowSurrogate(us[0]) then
      var rest :- DecodeUtf16(us[1..]);
      Ok([us[0] as char] + rest)
    else if IsHighSurrogate(us[0]) && |us| >= 2 && IsLowSurrogate(us[1]) then
      var rest :- DecodeUtf16(us[2..]);
      Ok([PairToChar(us[0], us[1])] + rest)
    else Err(UnpairedSurrogate)
  }

  lemma PairRoundTrip(c: char)
    requires c as int >= 0x1_0000
    ensures var us := EncodeChar(c); |us| == 2 && PairToChar(us[0], us[1]) == c
  {
    var v := c as int - 0x1_0000;
    assert v == v / 0x400 * 0x400 + v % 0x400;
  }

  lemma PairSplit(hi: uint16, lo: uint16)
    requires IsHighSurrogate(hi) && IsLowSurrogate(lo)
    ensures EncodeChar(PairToChar(hi, lo)) == [hi, lo]
  {
    var a, b := hi - 0xD800, lo - 0xDC00;
    var v := a * 0x400 + b;
    DivModUnique(v, a, b);
  }

  lemma DivModUnique(v: int, a: int, b: int)
    requires 0 <= b < 0x400 && 0 <= a && v == a * 0x400 + b
    ensures v / 0x400 == a && v % 0x400 == b
  {
  }

  lemma DecodeCons(c: char, rest: seq<uint16>)
    ensures DecodeUtf16(EncodeChar(c) + rest) ==
      match DecodeUtf16(rest)
      case Ok(s) => Ok([c] + s)
      case Err(e) => Err(e)
  {
    var us := EncodeChar(c) + rest;
    if c as int < 0x1_0000 {
      assert us[1..] == rest;
    } else {
      PairRoundTrip(c);
      assert us[2..] == rest;
    }
  }

  /** Encoding then decoding gives the string back. */
  lemma {:induction false} DecodeEncode(s: string)
    ensures DecodeUtf16(EncodeUtf16(s)) == Ok(s)
  {
    if s != [] {
      DecodeEncode(s[1..]);
      DecodeCons(s[0], EncodeUtf16(s[1..]));
      assert [s[0]] + s[1..] == s;
    }
  }

  /** Whatever decodes, re-encodes to the same code units: decoding loses nothing. */
  lemma {:induction false} EncodeDecode(us: seq<uint16>)
    requires DecodeUtf16(us).Ok?
    ensures EncodeUtf16(DecodeUtf16(us).value) == us
    decreases |us|
  {
    if us != [] {
      var s := DecodeUtf16(us).value;
      if !IsHighSurrogate(us[0]) && !IsLowSurrogate(us[0]) {
        EncodeDecode(us[1..]);
        assert s[1..] == DecodeUtf16(us[1..]).value;
        assert [us[0]] + us[1..] == us;
      } else {
        EncodeDecode(us[2..]);
        PairSplit(us[0], us[1]);
        assert s[1..] == DecodeUtf16(us[2..]).value;
        assert [us[0], us[1]] + us[2..] == us;
      }
    }
  }

  lemma {:induction false} EncodeAppend(a: string, b: string)
    ensures EncodeUtf16(a + b) == EncodeUtf16(a) + EncodeUtf16(b)
  {
    if a == [] {
      assert a + b == b;
    } else {
      assert (a + b)[0] == a[0];
      assert (a + b)[1..] == a[1..] + b;
      EncodeAppend(a[1..], b);
    }
  }
}
