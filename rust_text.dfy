/**
 * The parts of Rust's `str` that the core relies on, stated over `seq<char>`:
 * Unicode White_Space (used by `trim` and by the regex class `\s`), `trim`,
 * `lines`, `join("\n")`, UTF-8 byte lengths and byte-offset slicing, and
 * `u64::from_str`.
 */
module RustText {
  import opened Results
  import opened Bytes

  /** The Unicode White_Space property, which `char::is_whitespace` and `\s` both test. */
  predicate IsWhitespace(c: char) {
    ('\t' <= c <= '\r') || c == ' ' || c == '\U{0085}' || c == '\U{00A0}' || c == '\U{1680}'
    || ('\U{2000}' <= c <= '\U{200A}') || c == '\U{2028}' || c == '\U{2029}' || c == '\U{202F}'
    || c == '\U{205F}' || c == '\U{3000}'
  }

  predicate AllWhitespace(s: string) {
    forall i :: 0 <= i < |s| ==> IsWhitespace(s[i])
  }

  /** `str::trim_start`: the longest suffix that does not start with whitespace. */
  function TrimStart(s: string): (r: string)
    ensures |r| <= |s| && r == s[|s| - |r|..]
    decreases |s|
  {
    if s != [] && IsWhitespace(s[0]) then TrimStart(s[1..]) else s
  }

  /** What `TrimStart` cuts is whitespace, and what it keeps does not start with whitespace. */
  lemma {:induction false} TrimStartShape(s: string)
    ensures var r := TrimStart(s);
      && (r == [] || !IsWhitespace(r[0]))
      && AllWhitespace(s[..|s| - |r|])
    decreases |s|
  {
    if s != [] && IsWhitespace(s[0]) {
      TrimStartShape(s[1..]);
      WhitespaceCons(s, |s| - |TrimStart(s)|);
    }
  }

  /** A whitespace character followed by whitespace. */
  lemma WhitespaceCons(s: string, k: nat)
    requires 0 < k <= |s| && IsWhitespace(s[0]) && AllWhitespace(s[1..][..k - 1])
    ensures AllWhitespace(s[..k])
  {
    forall i | 0 <= i < k ensures IsWhitespace(s[..k][i]) {
      if i > 0 {
        assert s[..k][i] == s[1..][..k - 1][i - 1];
      }
    }
  }

  /** Whitespace followed by a whitespace character. */
  lemma WhitespaceSnoc(s: string, k: nat)
    requires k < |s| && IsWhitespace(s[|s| - 1]) && AllWhitespace(s[..|s| - 1][k..])
    ensures AllWhitespace(s[k..])
  {
    forall i | 0 <= i < |s| - k ensures IsWhitespace(s[k..][i]) {
      if i < |s| - 1 - k {
        assert s[k..][i] == s[..|s| - 1][k..][i];
      }
    }
  }

  /** Slicing a suffix is slicing the whole. */
  lemma SuffixSlices<T>(s: seq<T>, n: nat, k: nat)
    requires n + k <= |s|
    ensures s[n..][..k] == s[n..n + k] && s[n..][k..] == s[n + k..]
  {
  }

  /** `str::trim_end`: the longest prefix that does not end with whitespace. */
  function TrimEnd(s: string): (r: string)
    ensures |r| <= |s| && r == s[..|r|]
    decreases |s|
  {
    if s != [] && IsWhitespace(s[|s| - 1]) then TrimEnd(s[..|s| - 1]) else s
  }

  /** What `TrimEnd` cuts is whitespace, and what it keeps does not end with whitespace. */
  lemma {:induction false} TrimEndShape(s: string)
    ensures var r := TrimEnd(s);
      && (r == [] || !IsWhitespace(r[|r| - 1]))
      && AllWhitespace(s[|r|..])
    decreases |s|
  {
    if s != [] && IsWhitespace(s[|s| - 1]) {
      TrimEndShape(s[..|s| - 1]);
      WhitespaceSnoc(s, |TrimEnd(s)|);
    }
  }

  /** `str::trim`. */
  function Trim(s: string): string {
    TrimEnd(TrimStart(s))
  }

  /** The trimmed string neither starts nor ends with whitespace. */
  lemma TrimEnds(s: string)
    ensures var t := Trim(s); t == [] || (!IsWhitespace(t[0]) && !IsWhitespace(t[|t| - 1]))
  {
    var u := TrimStart(s);
    var t := TrimEnd(u);
    TrimStartShape(s);
    TrimEndShape(u);
    if t != [] {
      assert t[0] == u[0];
    }
  }

  /** A string without surrounding whitespace is its own trim. */
  lemma TrimOfTrimmed(s: string)
    requires s == [] || (!IsWhitespace(s[0]) && !IsWhitespace(s[|s| - 1]))
    ensures Trim(s) == s
  {
  }

  lemma TrimIdempotent(s: string)
    ensures Trim(Trim(s)) == Trim(s)
  {
    TrimEnds(s);
    TrimOfTrimmed(Trim(s));
  }

  /** The index of the first occurrence of `c` at or after `from`. */
  function IndexOf(s: string, c: char, from: nat): (r: Option<nat>)
    requires from <= |s|
    ensures r.Some? ==> from <= r.value < |s| && s[r.value] == c
    ensures forall j :: from <= j < |s| && (r.None? || j < r.value) ==> s[j] != c
    decreases |s| - from
  {
    if from == |s| then None
    else if s[from] == c then Some(from)
    else IndexOf(s, c, from + 1)
  }

  /** What `lines` does to one `\n`-terminated piece: drop one `\r` before the `\n`. */
  function StripCr(l: string): string {
    if |l| > 0 && l[|l| - 1] == '\r' then l[..|l| - 1] else l
  }

  /**
   * `str::lines`: split after every `\n`, remove the `\n` and one `\r` before it.
   * A final piece without `\n` is kept as it is (even a trailing lone `\r`); an
   * empty final piece does not count as a line.
   */
  function Lines(s: string): (ls: seq<string>)
    ensures forall k :: 0 <= k < |ls| ==> '\n' !in ls[k]
    decreases |s|
  {
    if s == [] then []
    else
      match IndexOf(s, '\n', 0)
      case None => [s]
      case Some(i) =>
        assert '\n' !in s[..i];
        [StripCr(s[..i])] + Lines(s[i + 1..])
  }

  /** The pieces of `s` between `\n` characters; there is always at least one. */
  function SplitLf(s: string): (ps: seq<string>)
    ensures |ps| >= 1
    ensures forall k :: 0 <= k < |ps| ==> '\n' !in ps[k]
    decreases |s|
  {
    match IndexOf(s, '\n', 0)
    case None => [s]
    case Some(i) =>
      assert '\n' !in s[..i];
      [s[..i]] + SplitLf(s[i + 1..])
  }

  /** `join("\n")` over a sequence of lines. */
  function Join(ls: seq<string>): string
    decreases |ls|
  {
    if |ls| == 0 then ""
    else if |ls| == 1 then ls[0]
    else ls[0] + "\n" + Join(ls[1..])
  }

  lemma IndexOfPrefix(a: string, rest: string)
    requires '\n' !in a
    ensures IndexOf(a + "\n" + rest, '\n', 0) == Some(|a|)
  {
    var s := a + "\n" + rest;
    assert s[|a|] == '\n';
    assert forall j :: 0 <= j < |a| ==> s[j] == a[j];
  }

  lemma IndexOfNone(a: string)
    requires '\n' !in a
    ensures IndexOf(a, '\n', 0) == None
  {
  }

  /** Splitting a joined sequence of newline-free lines gives the lines back. */
  lemma {:induction false} SplitJoin(ls: seq<string>)
    requires |ls| >= 1
    requires forall k :: 0 <= k < |ls| ==> '\n' !in ls[k]
    ensures SplitLf(Join(ls)) == ls
    decreases |ls|
  {
    if |ls| == 1 {
      IndexOfNone(ls[0]);
    } else {
      var rest := Join(ls[1..]);
      IndexOfPrefix(ls[0], rest);
      var s := ls[0] + "\n" + rest;
      assert s[..|ls[0]|] == ls[0];
      assert s[|ls[0]| + 1..] == rest;
      SplitJoin(ls[1..]);
      assert [ls[0]] + ls[1..] == ls;
    }
  }

  /** Joining the pieces of a string gives the string back. */
  lemma {:induction false} JoinSplit(s: string)
    ensures Join(SplitLf(s)) == s
    decreases |s|
  {
    match IndexOf(s, '\n', 0)
    case None =>
    case Some(i) =>
      JoinSplit(s[i + 1..]);
      var ps := SplitLf(s);
      assert ps[1..] == SplitLf(s[i + 1..]);
      assert s == s[..i] + "\n" + s[i + 1..];
  }

  /** A newline-free first line followed by `\n` becomes the first line of `lines`. */
  lemma LinesCons(a: string, rest: string)
    requires '\n' !in a
    ensures Lines(a + "\n" + rest) == [StripCr(a)] + Lines(rest)
  {
    IndexOfPrefix(a, rest);
    var s := a + "\n" + rest;
    assert s[..|a|] == a;
    assert s[|a| + 1..] == rest;
  }

  lemma LinesSingle(a: string)
    requires '\n' !in a
    ensures Lines(a) == if a == [] then [] else [a]
  {
    IndexOfNone(a);
  }

  /** `l` is the `k`-th of the lines `ls`, possibly without a final `\r`. */
  ghost predicate FromLine(l: string, ls: seq<string>, k: int) {
    0 <= k < |ls| && (l == ls[k] || l == StripCr(ls[k]))
  }

  /** `l` is one of the lines `ls`, possibly without a final `\r`. */
  ghost predicate FromSomeLine(l: string, ls: seq<string>) {
    exists k :: FromLine(l, ls, k)
  }

  /** Every line read back from a join is one of the joined lines, possibly without a final `\r`. */
  lemma {:induction false} LinesOfJoin(ls: seq<string>)
    requires forall k :: 0 <= k < |ls| ==> '\n' !in ls[k]
    ensures forall i :: 0 <= i < |Lines(Join(ls))| ==> FromSomeLine(Lines(Join(ls))[i], ls)
    decreases |ls|
  {
    if |ls| == 1 {
      LinesSingle(ls[0]);
      assert FromSomeLine(ls[0], ls) by {
        assert FromLine(ls[0], ls, 0);
      }
    } else if |ls| > 1 {
      var rest := ls[1..];
      LinesCons(ls[0], Join(rest));
      LinesOfJoin(rest);
      var out := Lines(Join(ls));
      var tail := Lines(Join(rest));
      assert out == [StripCr(ls[0])] + tail;
      forall i | 0 <= i < |out| ensures FromSomeLine(out[i], ls) {
        if i == 0 {
          assert FromLine(out[i], ls, 0);
        } else {
          assert out[i] == tail[i - 1];
          var j :| FromLine(tail[i - 1], rest, j);
          assert rest[j] == ls[j + 1];
          assert FromLine(out[i], ls, j + 1);
        }
      }
    }
  }

  /** The line added after a final `\n` is the last line. */
  lemma {:induction false} LinesAppendLine(c: string, d: string)
    requires d != [] && '\n' !in d
    ensures var ls := Lines(c + "\n" + d); |ls| >= 1 && ls[|ls| - 1] == d
    decreases |c|
  {
    var s := c + "\n" + d;
    match IndexOf(c, '\n', 0)
    case None =>
      LinesCons(c, d);
      LinesSingle(d);
    case Some(i) =>
      assert c == c[..i] + "\n" + c[i + 1..];
      assert s == c[..i] + "\n" + (c[i + 1..] + "\n" + d);
      assert '\n' !in c[..i];
      LinesCons(c[..i], c[i + 1..] + "\n" + d);
      LinesAppendLine(c[i + 1..], d);
  }

  /** Dropping one final `\r` does not change what `trim` gives. */
  lemma TrimStripCr(l: string)
    ensures Trim(StripCr(l)) == Trim(l)
  {
    if |l| > 0 && l[|l| - 1] == '\r' {
      var u := TrimStart(l);
      var v := TrimStart(l[..|l| - 1]);
      TrimStartDropLast(l);
      TrimEndDropLast(u);
    }
  }

  /** `v` is `u` without its last character, or both are empty. */
  predicate DropsLast(u: string, v: string) {
    (u == [] && v == []) || (u != [] && v == u[..|u| - 1])
  }

  /** Removing a final whitespace character removes the last character of what `TrimStart` keeps, if anything is kept. */
  lemma {:induction false} TrimStartDropLast(l: string)
    requires |l| > 0 && IsWhitespace(l[|l| - 1])
    ensures DropsLast(TrimStart(l), TrimStart(l[..|l| - 1]))
    decreases |l|
  {
    if |l| == 1 {
      assert TrimStart(l) == TrimStart(l[1..]);
      assert l[..|l| - 1] == [] && l[1..] == [];
    } else if IsWhitespace(l[0]) {
      var tail := l[1..];
      TrimStartDropLast(tail);
      SkipFirstOfInit(l);
      assert tail[..|tail| - 1] == l[1..|l| - 1];
    } else {
      KeepFirstOfInit(l);
    }
  }

  /** Whitespace at the front of a longer string is skipped with or without the last character. */
  lemma SkipFirstOfInit(l: string)
    requires |l| > 1 && IsWhitespace(l[0])
    ensures TrimStart(l) == TrimStart(l[1..])
    ensures TrimStart(l[..|l| - 1]) == TrimStart(l[1..|l| - 1])
  {
    var init := l[..|l| - 1];
    assert init[0] == l[0];
    assert init[1..] == l[1..|l| - 1];
  }

  /** A string that starts with a non-whitespace character is its own `TrimStart`, with or without the last character. */
  lemma KeepFirstOfInit(l: string)
    requires |l| > 1 && !IsWhitespace(l[0])
    ensures TrimStart(l) == l && TrimStart(l[..|l| - 1]) == l[..|l| - 1]
  {
    assert l[..|l| - 1][0] == l[0];
  }

  lemma TrimEndDropLast(u: string)
    requires u != [] ==> IsWhitespace(u[|u| - 1])
    ensures u != [] ==> TrimEnd(u) == TrimEnd(u[..|u| - 1])
  {
  }

  // ---------------------------------------------------------------------------
  // UTF-8 byte lengths: `str::len` and `&line[a..b]` count bytes, not characters.

  /** The number of bytes of `c` in UTF-8. */
  function Utf8Width(c: char): (w: nat)
    ensures 1 <= w <= 4
  {
    if c as int < 0x80 then 1 else if c as int < 0x800 then 2 else if c as int < 0x1_0000 then 3 else 4
  }

  /** `str::len`: the length in UTF-8 bytes. */
  function ByteLen(s: string): (n: nat)
    ensures n >= |s|
  {
    if s == [] then 0 else Utf8Width(s[0]) + ByteLen(s[1..])
  }

  /** The character index at which byte offset `k` starts, or `None` when `k` is inside a character or past the end. */
  function CharIndexAtByte(s: string, k: nat): (r: Option<nat>)
    ensures r.Some? ==> r.value <= |s| && ByteLen(s[..r.value]) == k
    decreases |s|
  {
    if k == 0 then Some(0)
    else if s == [] || k < Utf8Width(s[0]) then None
    else
      match CharIndexAtByte(s[1..], k - Utf8Width(s[0]))
      case None => None
      case Some(i) =>
        assert s[..i + 1][1..] == s[1..][..i];
        Some(i + 1)
  }

  /** Byte offset `k` is found exactly when it is a character boundary: the byte length of some prefix. */
  lemma {:induction false} CharIndexAtBoundary(s: string, k: nat)
    ensures CharIndexAtByte(s, k).None? <==> forall i :: 0 <= i <= |s| ==> ByteLen(s[..i]) != k
    decreases |s|
  {
    if k != 0 && s != [] {
      var w := Utf8Width(s[0]);
      forall i | 1 <= i <= |s| ensures ByteLen(s[..i]) == w + ByteLen(s[1..][..i - 1]) {
        assert s[..i][1..] == s[1..][..i - 1];
      }
      if k >= w {
        CharIndexAtBoundary(s[1..], k - w);
        if CharIndexAtByte(s, k).None? {
          forall i | 0 <= i <= |s| ensures ByteLen(s[..i]) != k {
            if i > 0 {
              assert ByteLen(s[1..][..i - 1]) != k - w;
            }
          }
        }
      }
    } else if k != 0 {
      assert s[..0] == [];
    }
  }

  /** `t` is a run of characters of `s` that starts at the character whose byte offset is `a`. */
  ghost predicate StartsAtByte(s: string, a: nat, t: string) {
    exists i :: 0 <= i && i + |t| <= |s| && ByteLen(s[..i]) == a && t == s[i..i + |t|]
  }

  /** `&s[a..b]` with byte offsets; `None` where Rust panics because an offset is not on a character boundary. */
  function ByteSlice(s: string, a: nat, b: nat): (r: Option<string>)
    requires a <= b
    ensures r.Some? ==> ByteLen(r.value) == b - a && StartsAtByte(s, a, r.value)
  {
    match CharIndexAtByte(s, a)
    case None => None
    case Some(i) =>
      match CharIndexAtByte(s[i..], b - a)
      case None => None
      case Some(j) =>
        assert s[i..][..j] == s[i..i + j];
        Some(s[i..i + j])
  }

  /** `&s[a..]` with a byte offset. */
  function ByteSliceFrom(s: string, a: nat): (r: Option<string>)
    ensures r.Some? ==> StartsAtByte(s, a, r.value) && |r.value| <= |s| && r.value == s[|s| - |r.value|..]
  {
    match CharIndexAtByte(s, a)
    case None => None
    case Some(i) => Some(s[i..])
  }

  predicate IsAscii(s: string) {
    forall i :: 0 <= i < |s| ==> s[i] as int < 0x80
  }

  /** For ASCII text, bytes and characters coincide: the byte offsets are character indices. */
  lemma {:induction false} AsciiOffsets(s: string, k: nat)
    requires IsAscii(s) && k <= |s|
    ensures ByteLen(s) == |s|
    ensures CharIndexAtByte(s, k) == Some(k)
    decreases |s|
  {
    if s != [] {
      AsciiOffsets(s[1..], if k == 0 then 0 else k - 1);
    }
  }

  lemma AsciiSuffix(s: string, a: nat)
    requires IsAscii(s) && a <= |s|
    ensures IsAscii(s[a..])
  {
    var t := s[a..];
    forall i | 0 <= i < |t| ensures t[i] as int < 0x80 {
      assert t[i] == s[a + i];
    }
  }

  /** On ASCII text every byte offset is a character boundary, so the byte slices are plain slices. */
  lemma AsciiSlices(s: string, a: nat, b: nat)
    requires IsAscii(s) && a <= b <= |s|
    ensures ByteLen(s) == |s|
    ensures ByteSlice(s, a, b) == Some(s[a..b])
    ensures ByteSliceFrom(s, a) == Some(s[a..])
  {
    AsciiOffsets(s, a);
    AsciiSlice(s, a, b);
  }

  lemma AsciiSlice(s: string, a: nat, b: nat)
    requires IsAscii(s) && a <= b <= |s|
    ensures ByteSlice(s, a, b) == Some(s[a..b])
  {
    AsciiOffsets(s, a);
    AsciiSuffix(s, a);
    AsciiOffsets(s[a..], b - a);
    assert s[a..][..b - a] == s[a..b];
  }

  // ---------------------------------------------------------------------------
  // `u64::from_str`

  /** `core::num::IntErrorKind` as far as an unsigned parse can produce it. */
  datatype IntErrorKind = Empty | InvalidDigit | PosOverflow

  predicate IsDigit(c: char) {
    '0' <= c <= '9'
  }

  function DigitValue(c: char): nat
    requires IsDigit(c)
  {
    c as int - '0' as int
  }

  predicate AllDigits(s: string) {
    forall i :: 0 <= i < |s| ==> IsDigit(s[i])
  }

  /** The decimal value of `ds` read after the value `acc`, with unbounded integers. */
  function DecimalValue(ds: string, acc: nat): (v: nat)
    requires AllDigits(ds)
    ensures v >= acc
    decreases |ds|
  {
    if ds == [] then acc else DecimalValue(ds[1..], acc * 10 + DigitValue(ds[0]))
  }

  /** The digits `u64::from_str` reads: the text after one optional leading `+`. */
  function UnsignedBody(s: string): string {
    if |s| > 0 && s[0] == '+' then s[1..] else s
  }

  /** The digit loop of `u64::from_str`: a non-digit or an overflow stops it, whichever comes first. */
  function AccumulateDigits(ds: string, acc: u64): Result<u64, IntErrorKind>
    decreases |ds|
  {
    if ds == [] then Ok(acc)
    else if !IsDigit(ds[0]) then Err(InvalidDigit)
    else
      var next := acc * 10 + DigitValue(ds[0]);
      if next >= 0x1_0000_0000_0000_0000 then Err(PosOverflow)
      else AccumulateDigits(ds[1..], next)
  }

  /** `u64::from_str`. */
  function ParseU64(s: string): Result<u64, IntErrorKind> {
    if s == [] then Err(Empty)
    else if |s| == 1 && (s[0] == '+' || s[0] == '-') then Err(InvalidDigit)
    else AccumulateDigits(UnsignedBody(s), 0)
  }

  lemma {:induction false} AccumulateSound(ds: string, acc: u64)
    ensures AccumulateDigits(ds, acc).Ok? ==> AllDigits(ds) && AccumulateDigits(ds, acc).value == DecimalValue(ds, acc)
    ensures AccumulateDigits(ds, acc) == Err(PosOverflow) ==> exists k :: 0 <= k <= |ds| && AllDigits(ds[..k]) && DecimalValue(ds[..k], acc) >= 0x1_0000_0000_0000_0000
    decreases |ds|
  {
    if ds != [] && IsDigit(ds[0]) {
      var next := acc * 10 + DigitValue(ds[0]);
      if next >= 0x1_0000_0000_0000_0000 {
        assert ds[..1][1..] == [];
        assert DecimalValue(ds[..1], acc) == next;
      } else {
        AccumulateSound(ds[1..], next);
        if AccumulateDigits(ds, acc) == Err(PosOverflow) {
          var k :| 0 <= k <= |ds[1..]| && AllDigits(ds[1..][..k]) && DecimalValue(ds[1..][..k], next) >= 0x1_0000_0000_0000_0000;
          assert ds[..k + 1][1..] == ds[1..][..k];
          assert DecimalValue(ds[..k + 1], acc) == DecimalValue(ds[1..][..k], next);
        }
      }
    }
  }

  lemma {:induction false} AccumulateComplete(ds: string, acc: u64)
    requires AllDigits(ds)
    ensures DecimalValue(ds, acc) < 0x1_0000_0000_0000_0000 ==> AccumulateDigits(ds, acc) == Ok(DecimalValue(ds, acc))
    ensures DecimalValue(ds, acc) >= 0x1_0000_0000_0000_0000 ==> AccumulateDigits(ds, acc) == Err(PosOverflow)
    decreases |ds|
  {
    if ds != [] {
      var next := acc * 10 + DigitValue(ds[0]);
      if next < 0x1_0000_0000_0000_0000 {
        AccumulateComplete(ds[1..], next);
      }
    }
  }

  /**
   * `u64::from_str` accepts exactly an optional `+` followed by at least one
   * decimal digit whose value fits in 64 bits, and returns that value.
   */
  lemma ParseU64Spec(s: string)
    ensures ParseU64(s).Ok? <==>
      (var ds := UnsignedBody(s); ds != [] && AllDigits(ds) && DecimalValue(ds, 0) < 0x1_0000_0000_0000_0000)
    ensures ParseU64(s).Ok? ==> ParseU64(s).value == DecimalValue(UnsignedBody(s), 0)
  {
    var ds := UnsignedBody(s);
    if s != [] && !(|s| == 1 && (s[0] == '+' || s[0] == '-')) {
      AccumulateSound(ds, 0);
      if ds != [] && AllDigits(ds) {
        AccumulateComplete(ds, 0);
      }
    }
  }
}
