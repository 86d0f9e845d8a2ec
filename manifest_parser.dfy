/**
 * The text-parsing half of `get_manifest`: the manifest is a table whose rows
 * follow a header line; each row of at least 70 bytes carries the size in
 * columns 0..14, the SHA in columns 22..63 and the name from column 69 on.
 */
module ManifestParser {
  import opened Results
  import opened Bytes
  import opened RustText
  import opened Manifest

  // ---------------------------------------------------------------------------
  // The header pattern `^\s*Size\s*Chunks\s*File SHA\s*Flags Name\s*$`

  /** The literal words of the header, in order; `\s*` stands between and around them. */
  const HEADER_WORDS: seq<string> := ["Size", "Chunks", "File SHA", "Flags Name"]

  /** Words that do not begin with whitespace, so a run of `\s*` before them can never reach into them. */
  predicate WordsStartSolid(words: seq<string>) {
    forall k :: 0 <= k < |words| ==> words[k] != [] && !IsWhitespace(words[k][0])
  }

  /**
   * The regular language `\s* w0 \s* w1 ... \s* wn \s*`, said directly: some
   * whitespace, the first word, and the rest of the pattern on what follows.
   */
  ghost predicate MatchesWords(s: string, words: seq<string>)
    decreases |words|, 1
  {
    if words == [] then AllWhitespace(s) else exists i :: WordAfterSpace(s, words, i)
  }

  /** The first word of the pattern starts at offset `i`, after whitespace, and the rest of the pattern matches what follows it. */
  ghost predicate WordAfterSpace(s: string, words: seq<string>, i: int)
    requires words != []
    decreases |words|, 0
  {
    var w := words[0];
    0 <= i <= |s| - |w| && AllWhitespace(s[..i]) && s[i..i + |w|] == w && MatchesWords(s[i + |w|..], words[1..])
  }

  /** The matcher: skip all whitespace, expect the next word, and so on; only whitespace may remain. */
  predicate SkipMatch(s: string, words: seq<string>)
    decreases |words|
  {
    var t := TrimStart(s);
    if words == [] then t == []
    else words[0] <= t && SkipMatch(t[|words[0]|..], words[1..])
  }

  /** `header.is_match(line)`. */
  predicate IsHeader(line: string) {
    SkipMatch(line, HEADER_WORDS)
  }

  /** Whitespace followed by a non-whitespace character (or nothing) is exactly what `TrimStart` skips. */
  lemma {:induction false} TrimStartSkips(s: string, i: nat)
    requires i <= |s| && AllWhitespace(s[..i]) && (i == |s| || !IsWhitespace(s[i]))
    ensures TrimStart(s) == s[i..]
    decreases i
  {
    if i > 0 {
      assert IsWhitespace(s[..i][0]);
      assert s[1..][..i - 1] == s[1..i];
      assert s[1..i] == s[..i][1..];
      TrimStartSkips(s[1..], i - 1);
      assert s[1..][i - 1..] == s[i..];
    }
  }

  lemma SolidTail(words: seq<string>)
    requires words != [] && WordsStartSolid(words)
    ensures WordsStartSolid(words[1..])
  {
    forall k | 0 <= k < |words[1..]| ensures words[1..][k] != [] && !IsWhitespace(words[1..][k][0]) {
      assert words[1..][k] == words[k + 1];
    }
  }

  /** The pattern matches when its first word sits after a run of whitespace and the rest matches what follows. */
  lemma MatchesAt(s: string, words: seq<string>, i: nat)
    requires words != [] && i + |words[0]| <= |s|
    requires AllWhitespace(s[..i]) && s[i..i + |words[0]|] == words[0]
    requires MatchesWords(s[i + |words[0]|..], words[1..])
    ensures MatchesWords(s, words)
  {
    assert WordAfterSpace(s, words, i);
  }

  /** A match of the pattern, split at its first word. */
  lemma MatchesSplit(s: string, words: seq<string>) returns (i: nat)
    requires words != [] && MatchesWords(s, words)
    ensures i + |words[0]| <= |s|
    ensures AllWhitespace(s[..i]) && s[i..i + |words[0]|] == words[0]
    ensures MatchesWords(s[i + |words[0]|..], words[1..])
  {
    i :| WordAfterSpace(s, words, i);
  }

  /** The matcher, one word at a time. */
  lemma SkipMatchStep(s: string, words: seq<string>)
    requires words != []
    ensures SkipMatch(s, words) <==> words[0] <= TrimStart(s) && SkipMatch(TrimStart(s)[|words[0]|..], words[1..])
  {
  }

  /** A word at the front of the trimmed text sits in the text after a run of whitespace. */
  lemma TrimmedWord(s: string, w: string) returns (n: nat)
    requires w <= TrimStart(s)
    ensures n == |s| - |TrimStart(s)| && n + |w| <= |s|
    ensures AllWhitespace(s[..n]) && s[n..n + |w|] == w && s[n + |w|..] == TrimStart(s)[|w|..]
  {
    var t := TrimStart(s);
    n := |s| - |t|;
    SuffixSlices(s, n, |w|);
    TrimStartShape(s);
  }

  lemma SoundStep(s: string, words: seq<string>)
    requires words != [] && words[0] <= TrimStart(s)
    requires MatchesWords(TrimStart(s)[|words[0]|..], words[1..])
    ensures MatchesWords(s, words)
  {
    var n := TrimmedWord(s, words[0]);
    MatchesAt(s, words, n);
  }

  /** Whatever the matcher accepts is in the regular language. */
  lemma {:induction false} SkipMatchSound(s: string, words: seq<string>)
    requires SkipMatch(s, words)
    ensures MatchesWords(s, words)
    decreases |words|
  {
    if words == [] {
      TrimStartShape(s);
      assert s[..|s| - |TrimStart(s)|] == s;
    } else {
      SkipMatchStep(s, words);
      SkipMatchSound(TrimStart(s)[|words[0]|..], words[1..]);
      SoundStep(s, words);
    }
  }

  /** Whatever is in the regular language the matcher accepts, for words that start with a non-whitespace character. */
  lemma {:induction false} SkipMatchComplete(s: string, words: seq<string>)
    requires WordsStartSolid(words) && MatchesWords(s, words)
    ensures SkipMatch(s, words)
    decreases |words|
  {
    if words == [] {
      TrimStartSkips(s, |s|);
    } else {
      var w := words[0];
      SolidTail(words);
      var i := MatchesSplit(s, words);
      assert s[i] == w[0];
      TrimStartSkips(s, i);
      var t := TrimStart(s);
      assert t[..|w|] == w;
      assert t[|w|..] == s[i + |w|..];
      SkipMatchComplete(t[|w|..], words[1..]);
      SkipMatchStep(s, words);
    }
  }

  /** `IsHeader` is `header.is_match`: the line is the header pattern and nothing else. */
  lemma HeaderIsPattern(line: string)
    ensures IsHeader(line) <==> MatchesWords(line, HEADER_WORDS)
  {
    assert WordsStartSolid(HEADER_WORDS) by {
      forall k | 0 <= k < |HEADER_WORDS| ensures HEADER_WORDS[k] != [] && !IsWhitespace(HEADER_WORDS[k][0]) {
        assert HEADER_WORDS[k][0] in "SCFF";
      }
    }
    if IsHeader(line) {
      SkipMatchSound(line, HEADER_WORDS);
    }
    if MatchesWords(line, HEADER_WORDS) {
      SkipMatchComplete(line, HEADER_WORDS);
    }
  }

  // ---------------------------------------------------------------------------
  // Data lines

  /** The smallest byte length of a data row; shorter lines after the header are skipped. */
  const MIN_ROW_BYTES: nat := 70

  /** What one line after the header contributes. */
  datatype LineOutcome =
    | Skipped
    | Entry(name: string, info: FileInfo)
    | Failed(failure: Failure)

  /**
   * One line after the header: too short is skipped; otherwise the three
   * fixed byte ranges are cut (panicking off a character boundary), trimmed,
   * and the size parsed as a `u64`.
   */
  function ParseDataLine(line: string): (o: LineOutcome)
    ensures o.Skipped? <==> ByteLen(line) < MIN_ROW_BYTES
  {
    if ByteLen(line) < MIN_ROW_BYTES then Skipped
    else
      match (ByteSlice(line, 0, 14), ByteSlice(line, 22, 63), ByteSliceFrom(line, 69))
      case (Some(sizeField), Some(shaField), Some(nameField)) =>
        (match ParseU64(Trim(sizeField))
         case Ok(size) => Entry(Trim(nameField), FileInfo(size, Trim(shaField)))
         case Err(kind) => Failed(ParseIntFailure(kind)))
      case _ => Failed(SliceOffCharBoundary)
  }

  /** On an ASCII row every byte is a character, so the fields are the character ranges themselves. */
  lemma AsciiRowFields(line: string)
    requires IsAscii(line) && |line| >= MIN_ROW_BYTES
    ensures ParseDataLine(line) ==
      match ParseU64(Trim(line[0..14]))
      case Ok(size) => Entry(Trim(line[69..]), FileInfo(size, Trim(line[22..63])))
      case Err(kind) => Failed(ParseIntFailure(kind))
  {
    AsciiSlices(line, 0, 14);
    AsciiSlices(line, 22, 63);
    AsciiSlices(line, 69, |line|);
  }

  // ---------------------------------------------------------------------------
  // The whole text

  /** The first line `isHeader` accepts, if any. */
  function FirstHeader(ls: seq<string>, isHeader: string -> bool): (h: Option<nat>)
    ensures h.Some? ==> h.value < |ls| && isHeader(ls[h.value])
    ensures forall j :: 0 <= j < |ls| && (h.None? || j < h.value) ==> !isHeader(ls[j])
  {
    if ls == [] then None
    else if isHeader(ls[0]) then Some(0)
    else match FirstHeader(ls[1..], isHeader)
      case None => None
      case Some(k) => Some(k + 1)
  }

  /** `file_map.insert(name, info)` for an entry; a failure stops everything. */
  function Step(m: map<string, FileInfo>, o: LineOutcome): Result<map<string, FileInfo>, Failure> {
    match o
    case Skipped => Ok(m)
    case Entry(name, info) => Ok(m[name := info])
    case Failed(f) => Err(f)
  }

  /** The map built from the rows, line by line in order. */
  function ParseRows(ls: seq<string>, parse: string -> LineOutcome): Result<map<string, FileInfo>, Failure>
    decreases |ls|
  {
    if ls == [] then Ok(map[])
    else
      var m :- ParseRows(ls[..|ls| - 1], parse);
      Step(m, parse(ls[|ls| - 1]))
  }

  /** No header, no entries; otherwise the map of the rows after the first header. */
  function ManifestFrom(ls: seq<string>, isHeader: string -> bool, parse: string -> LineOutcome): Result<VersionManifest, Failure> {
    match FirstHeader(ls, isHeader)
    case None => Ok(VersionManifest(map[]))
    case Some(h) =>
      var m :- ParseRows(ls[h + 1..], parse);
      Ok(VersionManifest(m))
  }

  /** What `get_manifest` makes of the downloaded text. */
  function ManifestOf(text: string): Result<VersionManifest, Failure> {
    ManifestFrom(Lines(text), IsHeader, ParseDataLine)
  }

  lemma {:induction false} ParseRowsErrSticks(ls: seq<string>, i: nat, parse: string -> LineOutcome)
    requires i <= |ls| && ParseRows(ls[..i], parse).Err?
    ensures ParseRows(ls, parse) == ParseRows(ls[..i], parse)
    decreases |ls| - i
  {
    if i < |ls| {
      assert ls[..i + 1][..i] == ls[..i];
      ParseRowsErrSticks(ls, i + 1, parse);
    } else {
      assert ls[..i] == ls;
    }
  }

  /**
   * The flag-driven walk of `get_manifest` over the lines: parse a row only
   * once a header has been seen, and only afterwards test the line for the
   * header, so the header line itself is never a row.
   */
  method ParseManifestLines(ls: seq<string>, isHeader: string -> bool, parse: string -> LineOutcome)
    returns (r: Result<VersionManifest, Failure>)
    ensures r == ManifestFrom(ls, isHeader, parse)
  {
    var fileMap: map<string, FileInfo> := map[];
    var afterHeader := false;
    ghost var first := FirstHeader(ls, isHeader);
    var i := 0;
    while i < |ls|
      invariant 0 <= i <= |ls|
      invariant afterHeader <==> first.Some? && first.value < i
      invariant !afterHeader ==> fileMap == map[]
      invariant afterHeader ==> ParseRows(ls[first.value + 1..i], parse) == Ok(fileMap)
    {
      var line := ls[i];
      if afterHeader {
        ghost var rows := ls[first.value + 1..];
        RowsSnoc(ls, first.value + 1, i, parse, fileMap);
        match parse(line)
        case Skipped =>
        case Entry(name, info) =>
          fileMap := fileMap[name := info];
        case Failed(f) =>
          ParseRowsErrSticks(rows, i + 1 - (first.value + 1), parse);
          return Err(f);
      } else if isHeader(line) {
        assert ls[i + 1..i + 1] == [];
      }
      afterHeader := afterHeader || isHeader(line);
      i := i + 1;
    }
    if afterHeader {
      assert ls[first.value + 1..i] == ls[first.value + 1..];
    }
    r := Ok(VersionManifest(fileMap));
  }

  /** One more row after the rows from `a` up to line `i`. */
  lemma RowsSnoc(ls: seq<string>, a: nat, i: nat, parse: string -> LineOutcome, m: map<string, FileInfo>)
    requires a <= i < |ls| && ParseRows(ls[a..i], parse) == Ok(m)
    ensures ParseRows(ls[a..i + 1], parse) == Step(m, parse(ls[i]))
    ensures ls[a..][..i + 1 - a] == ls[a..i + 1]
  {
    assert ls[a..i + 1][..i - a] == ls[a..i];
    assert ls[a..i + 1][i - a] == ls[i];
  }

  /** The parsing body of `get_manifest`, given the downloaded text. */
  method GetManifest(text: string) returns (r: Result<VersionManifest, Failure>)
    ensures r == ManifestOf(text)
  {
    r := ParseManifestLines(Lines(text), IsHeader, ParseDataLine);
  }

  // ---------------------------------------------------------------------------
  // What the rows make

  /** The last row that makes an entry for `name`. */
  function LastEntry(ls: seq<string>, name: string, parse: string -> LineOutcome): (k: Option<nat>)
    ensures k.Some? ==> k.value < |ls| && parse(ls[k.value]).Entry? && parse(ls[k.value]).name == name
    ensures forall j :: 0 <= j < |ls| && (k.None? || k.value < j) ==> !(parse(ls[j]).Entry? && parse(ls[j]).name == name)
    decreases |ls|
  {
    if ls == [] then None
    else if parse(ls[|ls| - 1]).Entry? && parse(ls[|ls| - 1]).name == name then Some(|ls| - 1)
    else LastEntry(ls[..|ls| - 1], name, parse)
  }

  /** The rows parse exactly when none of them fails. */
  lemma {:induction false} RowsOk(ls: seq<string>, parse: string -> LineOutcome)
    ensures ParseRows(ls, parse).Ok? <==> forall k :: 0 <= k < |ls| ==> !parse(ls[k]).Failed?
    decreases |ls|
  {
    if ls != [] {
      var init := ls[..|ls| - 1];
      RowsOk(init, parse);
      assert forall k :: 0 <= k < |init| ==> init[k] == ls[k];
    }
  }

  /** A failure is the one of the first failing row. */
  lemma {:induction false} RowsErr(ls: seq<string>, parse: string -> LineOutcome)
    requires ParseRows(ls, parse).Err?
    ensures exists k ::
      && 0 <= k < |ls|
      && parse(ls[k]) == Failed(ParseRows(ls, parse).error)
      && (forall j :: 0 <= j < k ==> !parse(ls[j]).Failed?)
    decreases |ls|
  {
    var init := ls[..|ls| - 1];
    assert forall k :: 0 <= k < |init| ==> init[k] == ls[k];
    if ParseRows(init, parse).Err? {
      RowsErr(init, parse);
      var k :| 0 <= k < |init| && parse(init[k]) == Failed(ParseRows(init, parse).error) &&
        forall j :: 0 <= j < k ==> !parse(init[j]).Failed?;
      assert parse(ls[k]) == Failed(ParseRows(ls, parse).error);
    } else {
      RowsOk(init, parse);
      assert parse(ls[|ls| - 1]) == Failed(ParseRows(ls, parse).error);
    }
  }

  /**
   * The map holds a name exactly when some row makes an entry for it, and then
   * the entry of the LAST such row: a later duplicate replaces an earlier one.
   */
  lemma {:induction false} RowsEntries(ls: seq<string>, parse: string -> LineOutcome)
    requires ParseRows(ls, parse).Ok?
    ensures var m := ParseRows(ls, parse).value;
      forall name :: (name in m <==> LastEntry(ls, name, parse).Some?) &&
        (name in m ==> m[name] == parse(ls[LastEntry(ls, name, parse).value]).info)
    decreases |ls|
  {
    if ls != [] {
      var init := ls[..|ls| - 1];
      RowsEntries(init, parse);
      var m := ParseRows(ls, parse).value;
      forall name ensures (name in m <==> LastEntry(ls, name, parse).Some?) &&
        (name in m ==> m[name] == parse(ls[LastEntry(ls, name, parse).value]).info)
      {
        var last := ls[|ls| - 1];
        if !(parse(last).Entry? && parse(last).name == name) {
          assert LastEntry(ls, name, parse) == LastEntry(init, name, parse);
          if LastEntry(init, name, parse).Some? {
            assert init[LastEntry(init, name, parse).value] == ls[LastEntry(init, name, parse).value];
          }
        }
      }
    }
  }

  /** No header line: the manifest is empty, whatever else the text holds. */
  lemma NoHeaderNoEntries(ls: seq<string>, isHeader: string -> bool, parse: string -> LineOutcome)
    requires forall k :: 0 <= k < |ls| ==> !isHeader(ls[k])
    ensures ManifestFrom(ls, isHeader, parse) == Ok(VersionManifest(map[]))
  {
    match FirstHeader(ls, isHeader)
    case None =>
    case Some(h) =>
      assert false;
  }

  /**
   * With the first header at line h, the lines parse exactly when no later
   * line fails, and then each listed name carries the entry of the last row
   * for it after h; nothing before the header, and not the header itself, is read.
   */
  lemma ManifestRows(ls: seq<string>, isHeader: string -> bool, parse: string -> LineOutcome, h: nat)
    requires FirstHeader(ls, isHeader) == Some(h)
    ensures var rows := ls[h + 1..];
      var r := ManifestFrom(ls, isHeader, parse);
      && (r.Ok? <==> forall k :: 0 <= k < |rows| ==> !parse(rows[k]).Failed?)
      && (r.Ok? ==>
            forall name :: (name in r.value.entries <==> LastEntry(rows, name, parse).Some?) &&
              (name in r.value.entries ==> r.value.entries[name] == parse(rows[LastEntry(rows, name, parse).value]).info))
  {
    var rows := ls[h + 1..];
    RowsOk(rows, parse);
    if ParseRows(rows, parse).Ok? {
      RowsEntries(rows, parse);
    }
  }

  /** A failing manifest fails with the failure of its first failing row after the header. */
  lemma ManifestFailure(ls: seq<string>, isHeader: string -> bool, parse: string -> LineOutcome, h: nat)
    requires FirstHeader(ls, isHeader) == Some(h) && ManifestFrom(ls, isHeader, parse).Err?
    ensures var rows := ls[h + 1..];
      exists k ::
        && 0 <= k < |rows|
        && parse(rows[k]) == Failed(ManifestFrom(ls, isHeader, parse).error)
        && (forall j :: 0 <= j < k ==> !parse(rows[j]).Failed?)
  {
    RowsErr(ls[h + 1..], parse);
  }

  /** Lines too short to be rows change nothing wherever they appear among the rows. */
  lemma {:induction false} SkippedRowsIgnored(a: seq<string>, line: string, b: seq<string>, parse: string -> LineOutcome)
    requires parse(line) == Skipped
    ensures ParseRows(a + [line] + b, parse) == ParseRows(a + b, parse)
    decreases |b|
  {
    if b == [] {
      assert a + [line] + b == a + [line];
      assert (a + [line])[..|a|] == a;
      assert a + b == a;
    } else {
      var b0 := b[..|b| - 1];
      SkippedRowsIgnored(a, line, b0, parse);
      assert (a + [line] + b)[..|a + [line] + b| - 1] == a + [line] + b0;
      assert (a + b)[..|a + b| - 1] == a + b0;
    }
  }

  /** A line of fewer than 70 bytes after the header is ignored. */
  lemma ShortRowIgnored(a: seq<string>, line: string, b: seq<string>)
    requires ByteLen(line) < MIN_ROW_BYTES
    ensures ParseRows(a + [line] + b, ParseDataLine) == ParseRows(a + b, ParseDataLine)
  {
    SkippedRowsIgnored(a, line, b, ParseDataLine);
  }
}
