/**
 * The UTF-16LE configuration editor: reading a file as little-endian 16-bit
 * units, writing units back, appending text, and adding or removing one
 * directive line of the decoded text.
 */
module Utf16Le {
  import opened Results
  import opened Bytes
  import opened RustText
  import opened FileSystem
  import opened Utf16

  // ---------------------------------------------------------------------------
  // Bytes and units

  /** Pairs of bytes, low byte first. */
  function LePairs(b: Bytes): (us: seq<uint16>)
    requires |b| % 2 == 0
    ensures 2 * |us| == |b|
    decreases |b|
  {
    if b == [] then [] else [(b[0] as int) + 0x100 * (b[1] as int)] + LePairs(b[2..])
  }

  lemma {:induction false} LePairsAt(b: Bytes)
    requires |b| % 2 == 0
    ensures forall i :: 0 <= i < |b| / 2 ==> LePairs(b)[i] == (b[2 * i] as int) + 0x100 * (b[2 * i + 1] as int)
    decreases |b|
  {
    if b != [] {
      LePairsAt(b[2..]);
      var us := LePairs(b);
      forall i | 1 <= i < |b| / 2 ensures us[i] == (b[2 * i] as int) + 0x100 * (b[2 * i + 1] as int) {
        assert us[i] == LePairs(b[2..])[i - 1];
        assert b[2..][2 * (i - 1)] == b[2 * i];
        assert b[2..][2 * (i - 1) + 1] == b[2 * i + 1];
      }
    }
  }

  /**
   * The conversion step of `read_utf16le_file_to_u16`: an odd number of bytes
   * is `InvalidData`; otherwise unit i is byte 2i plus 256 times byte 2i+1.
   */
  function UnitsFromLeBytes(b: Bytes): (r: Result<seq<uint16>, IoError>)
    ensures r.Ok? <==> |b| % 2 == 0
    ensures r.Err? ==> r.error == InvalidData
    ensures r.Ok? ==> 2 * |r.value| == |b|
    ensures r.Ok? ==> forall i :: 0 <= i < |r.value| ==> r.value[i] == (b[2 * i] as int) + 0x100 * (b[2 * i + 1] as int)
  {
    if |b| % 2 != 0 then Err(InvalidData)
    else
      LePairsAt(b);
      Ok(LePairs(b))
  }

  /** The bytes `write_u16::<LittleEndian>` emits for each unit in turn. */
  function LeBytes(us: seq<uint16>): (b: Bytes)
    ensures |b| == 2 * |us|
  {
    if us == [] then [] else [us[0] % 0x100, us[0] / 0x100] + LeBytes(us[1..])
  }

  lemma {:induction false} LeBytesAppend(us: seq<uint16>, u: uint16)
    ensures LeBytes(us + [u]) == LeBytes(us) + [u % 0x100, u / 0x100]
  {
    if us == [] {
      assert us + [u] == [u];
    } else {
      assert (us + [u])[1..] == us[1..] + [u];
      LeBytesAppend(us[1..], u);
    }
  }

  lemma {:induction false} PairsOfLeBytes(us: seq<uint16>)
    ensures LePairs(LeBytes(us)) == us
  {
    if us != [] {
      PairsOfLeBytes(us[1..]);
      var b := LeBytes(us);
      assert b[2..] == LeBytes(us[1..]);
      assert (b[0] as int) + 0x100 * (b[1] as int) == us[0];
      assert [us[0]] + us[1..] == us;
    }
  }

  /** Reading back what was written gives the units. */
  lemma UnitsOfLeBytes(us: seq<uint16>)
    ensures UnitsFromLeBytes(LeBytes(us)) == Ok(us)
  {
    PairsOfLeBytes(us);
  }

  /** Writing what was read gives the bytes: the conversion loses nothing. */
  lemma {:induction false} LeBytesOfUnits(b: Bytes)
    requires |b| % 2 == 0
    ensures LeBytes(LePairs(b)) == b
    decreases |b|
  {
    if b != [] {
      LeBytesOfUnits(b[2..]);
      var u := (b[0] as int) + 0x100 * (b[1] as int);
      assert u % 0x100 == b[0] && u / 0x100 == b[1];
      assert [b[0], b[1]] + b[2..] == b;
    }
  }

  /** `read_utf16le_file_to_u16`: the whole file as units. */
  function ReadUtf16leFileToU16(fs: Tree, path: Path): (r: Result<seq<uint16>, IoError>)
    ensures path !in fs && FileOnWay(fs, path) ==> r == Err(NotADirectory)
    ensures path !in fs && !FileOnWay(fs, path) ==> r == Err(NotFound)
    ensures path in fs && fs[path].Dir? ==> r == Err(IsADirectory)
    ensures path in fs && fs[path].File? && |fs[path].data| % 2 != 0 ==> r == Err(InvalidData)
    ensures r.Ok? <==> path in fs && fs[path].File? && |fs[path].data| % 2 == 0
    ensures r.Ok? ==> LeBytes(r.value) == fs[path].data
  {
    var bytes :- ReadToEnd(fs, path);
    var units :- UnitsFromLeBytes(bytes);
    LeBytesOfUnits(bytes);
    Ok(units)
  }

  /** The tree after `write_u16_as_utf16le` has written `units` to `path`. */
  function WrittenUnits(fs: Tree, path: Path, units: seq<uint16>): Result<Tree, IoError> {
    var created :- CreateFile(fs, path);
    Ok(created[path := File(LeBytes(units))])
  }

  /** `write_u16_as_utf16le`: create or truncate the file, then write each unit as two bytes, low byte first. */
  method WriteU16AsUtf16le(fs: Tree, path: Path, units: seq<uint16>) returns (r: Result<Tree, IoError>)
    ensures CreateFile(fs, path).Err? ==> r == Err(CreateFile(fs, path).error)
    ensures CreateFile(fs, path).Ok? ==> r == Ok(fs[path := File(LeBytes(units))])
    ensures r == WrittenUnits(fs, path, units)
  {
    var created := CreateFile(fs, path);
    if created.Err? {
      return Err(created.error);
    }
    var written: Bytes := [];
    for i := 0 to |units|
      invariant written == LeBytes(units[..i])
    {
      var unit := units[i];
      LeBytesAppend(units[..i], unit);
      assert units[..i + 1] == units[..i] + [unit];
      written := written + [unit % 0x100, unit / 0x100];
    }
    assert units[..|units|] == units;
    assert created.value[path := File(written)] == fs[path := File(written)];
    r := Ok(created.value[path := File(written)]);
  }

  /** A tree whose every non-root entry sits in an existing directory. */
  predicate WellFormed(t: Tree) {
    forall p :: p in t && p != "" ==> IsDir(t, Parent(p).value)
  }

  /** On a well-formed tree, an existing file can always be rewritten in place. */
  lemma RewriteExisting(fs: Tree, path: Path)
    requires WellFormed(fs) && path in fs && fs[path].File?
    ensures CreateFile(fs, path) == Ok(fs[path := File([])])
  {
  }

  /** Writing units and reading the file back gives the same units. */
  lemma WriteThenRead(fs: Tree, path: Path, units: seq<uint16>)
    requires WrittenUnits(fs, path, units).Ok?
    ensures ReadUtf16leFileToU16(WrittenUnits(fs, path, units).value, path) == Ok(units)
  {
    UnitsOfLeBytes(units);
  }

  // ---------------------------------------------------------------------------
  // append_utf16le

  /** The tree after `append_utf16le(path, newContent)`. */
  function AppendedTree(fs: Tree, path: Path, newContent: string): Result<Tree, IoError> {
    var units :- ReadUtf16leFileToU16(fs, path);
    WrittenUnits(fs, path, units + EncodeUtf16(newContent))
  }

  /** `append_utf16le`: read the units, extend them with the UTF-16 of `newContent`, write them back. */
  method AppendUtf16le(fs: Tree, path: Path, newContent: string) returns (r: Result<Tree, IoError>)
    ensures ReadUtf16leFileToU16(fs, path).Err? ==> r == Err(ReadUtf16leFileToU16(fs, path).error)
    ensures r == AppendedTree(fs, path, newContent)
  {
    var read := ReadUtf16leFileToU16(fs, path);
    if read.Err? {
      return Err(read.error);
    }
    var utf16Data := read.value;
    var newUtf16 := EncodeUtf16(newContent);
    utf16Data := utf16Data + newUtf16;
    r := WriteU16AsUtf16le(fs, path, utf16Data);
  }

  /**
   * After appending to a well-formed file, its units are the old units followed
   * by the new text's; when the old units were valid UTF-16, the file now
   * decodes to the old text followed by the new text.
   */
  lemma AppendedContents(fs: Tree, path: Path, newContent: string)
    requires WellFormed(fs) && ReadUtf16leFileToU16(fs, path).Ok?
    ensures AppendedTree(fs, path, newContent).Ok?
    ensures var units := ReadUtf16leFileToU16(fs, path).value;
      ReadUtf16leFileToU16(AppendedTree(fs, path, newContent).value, path) == Ok(units + EncodeUtf16(newContent))
    ensures var units := ReadUtf16leFileToU16(fs, path).value;
      DecodeUtf16(units).Ok? ==>
        DecodeUtf16(units + EncodeUtf16(newContent)) == Ok(DecodeUtf16(units).value + newContent)
  {
    var units := ReadUtf16leFileToU16(fs, path).value;
    RewriteExisting(fs, path);
    WriteThenRead(fs, path, units + EncodeUtf16(newContent));
    if DecodeUtf16(units).Ok? {
      var s := DecodeUtf16(units).value;
      EncodeDecode(units);
      EncodeAppend(s, newContent);
      DecodeEncode(s + newContent);
    }
  }

  // ---------------------------------------------------------------------------
  // add_directive and remove_directive

  /** The file decoded as text: unreadable units or invalid UTF-16 are errors. */
  function ReadConfig(fs: Tree, path: Path): Result<string, IoError> {
    var units :- ReadUtf16leFileToU16(fs, path);
    match DecodeUtf16(units)
    case Ok(content) => Ok(content)
    case Err(_) => Err(InvalidData)
  }

  /** `content.lines().any(|line| line.trim() == directive)`. */
  predicate HasDirective(content: string, directive: string) {
    var ls := Lines(content);
    exists k :: 0 <= k < |ls| && Trim(ls[k]) == directive
  }

  /** A directive that can be found again once added: non-empty, already trimmed, on one line. */
  predicate IsLineDirective(directive: string) {
    directive != [] && '\n' !in directive && !IsWhitespace(directive[0]) && !IsWhitespace(directive[|directive| - 1])
  }

  /** The tree after `add_directive(path, directive)`. */
  function AddedTree(fs: Tree, path: Path, directive: string): Result<Tree, IoError> {
    var content :- ReadConfig(fs, path);
    if HasDirective(content, directive) then Ok(fs)
    else WrittenUnits(fs, path, EncodeUtf16(content + "\n" + directive))
  }

  /**
   * `add_directive`: when some line already trims to the directive nothing is
   * written; otherwise the text becomes `content + "\n" + directive`.
   */
  method AddDirective(fs: Tree, path: Path, directive: string) returns (r: Result<Tree, IoError>)
    ensures ReadConfig(fs, path).Err? ==> r == Err(ReadConfig(fs, path).error)
    ensures ReadConfig(fs, path).Ok? && HasDirective(ReadConfig(fs, path).value, directive) ==> r == Ok(fs)
    ensures r == AddedTree(fs, path, directive)
  {
    var utf16Data := ReadUtf16leFileToU16(fs, path);
    if utf16Data.Err? {
      return Err(utf16Data.error);
    }
    var decoded := DecodeUtf16(utf16Data.value);
    if decoded.Err? {
      return Err(InvalidData);
    }
    var content := decoded.value;
    if HasDirective(content, directive) {
      return Ok(fs);
    }
    var updatedContent := content + "\n" + directive;
    var updatedUtf16 := EncodeUtf16(updatedContent);
    r := WriteU16AsUtf16le(fs, path, updatedUtf16);
  }

  /** Once appended on its own line, a line directive is present. */
  lemma AppendedDirectivePresent(content: string, directive: string)
    requires IsLineDirective(directive)
    ensures HasDirective(content + "\n" + directive, directive)
  {
    LinesAppendLine(content, directive);
    TrimOfTrimmed(directive);
    var ls := Lines(content + "\n" + directive);
    assert Trim(ls[|ls| - 1]) == directive;
  }

  /**
   * After a successful `add_directive` on a well-formed tree the file decodes
   * to text that holds the directive, so adding it a second time writes nothing.
   */
  lemma AddDirectiveIdempotent(fs: Tree, path: Path, directive: string)
    requires WellFormed(fs) && IsLineDirective(directive) && ReadConfig(fs, path).Ok?
    ensures AddedTree(fs, path, directive).Ok?
    ensures var fs' := AddedTree(fs, path, directive).value;
      && ReadConfig(fs', path).Ok?
      && HasDirective(ReadConfig(fs', path).value, directive)
      && AddedTree(fs', path, directive) == Ok(fs')
  {
    var content := ReadConfig(fs, path).value;
    if !HasDirective(content, directive) {
      var updated := EncodeUtf16(content + "\n" + directive);
      RewriteExisting(fs, path);
      WriteThenRead(fs, path, updated);
      DecodeEncode(content + "\n" + directive);
      AppendedDirectivePresent(content, directive);
    }
  }

  /** The lines `keep` accepts, in their original order. */
  function Filter(ls: seq<string>, keep: string -> bool): (kept: seq<string>)
    ensures |kept| <= |ls|
  {
    if ls == [] then []
    else if keep(ls[0]) then [ls[0]] + Filter(ls[1..], keep)
    else Filter(ls[1..], keep)
  }

  /** The test of `filter(|line| !line.trim().eq(directive))`. */
  function KeepOther(directive: string): string -> bool {
    l => Trim(l) != directive
  }

  /** Filtering keeps order: it works piece by piece, keeps an accepted line and drops any other. */
  lemma {:induction false} FilterOrder(a: seq<string>, b: seq<string>, keep: string -> bool)
    ensures Filter(a + b, keep) == Filter(a, keep) + Filter(b, keep)
    ensures forall l :: Filter([l], keep) == if keep(l) then [l] else []
  {
    if a == [] {
      assert a + b == b;
    } else {
      assert (a + b)[0] == a[0];
      assert (a + b)[1..] == a[1..] + b;
      FilterOrder(a[1..], b, keep);
    }
    forall l ensures Filter([l], keep) == if keep(l) then [l] else [] {
      assert [l][1..] == [];
    }
  }

  /** Every kept line is an accepted line of the input; when every line is accepted, all are kept. */
  lemma {:induction false} FilterMembers(ls: seq<string>, keep: string -> bool)
    ensures forall l :: l in Filter(ls, keep) ==> l in ls && keep(l)
    ensures (forall k :: 0 <= k < |ls| ==> keep(ls[k])) ==> Filter(ls, keep) == ls
  {
    if ls != [] {
      FilterMembers(ls[1..], keep);
      assert [ls[0]] + ls[1..] == ls;
    }
  }

  /** The text `remove_directive` writes: the kept lines joined by `"\n"`. */
  function RemovedText(content: string, directive: string): string {
    Join(Filter(Lines(content), KeepOther(directive)))
  }

  /** The tree after `remove_directive(path, directive)`. */
  function RemovedTree(fs: Tree, path: Path, directive: string): Result<Tree, IoError> {
    var content :- ReadConfig(fs, path);
    WrittenUnits(fs, path, EncodeUtf16(RemovedText(content, directive)))
  }

  /** `remove_directive`: rewrite the file without the lines that trim to the directive. */
  method RemoveDirective(fs: Tree, path: Path, directive: string) returns (r: Result<Tree, IoError>)
    ensures ReadConfig(fs, path).Err? ==> r == Err(ReadConfig(fs, path).error)
    ensures r == RemovedTree(fs, path, directive)
  {
    var utf16Data := ReadUtf16leFileToU16(fs, path);
    if utf16Data.Err? {
      return Err(utf16Data.error);
    }
    var decoded := DecodeUtf16(utf16Data.value);
    if decoded.Err? {
      return Err(InvalidData);
    }
    var content := decoded.value;
    var updatedContent := Join(Filter(Lines(content), KeepOther(directive)));
    var updatedUtf16 := EncodeUtf16(updatedContent);
    r := WriteU16AsUtf16le(fs, path, updatedUtf16);
  }

  /** Joining single lines none of which trims to the directive gives text without the directive. */
  lemma JoinAvoids(kept: seq<string>, directive: string)
    requires forall k :: 0 <= k < |kept| ==> '\n' !in kept[k] && Trim(kept[k]) != directive
    ensures !HasDirective(Join(kept), directive)
  {
    LinesOfJoin(kept);
    var ls := Lines(Join(kept));
    forall k | 0 <= k < |ls| ensures Trim(ls[k]) != directive {
      var j :| FromLine(ls[k], kept, j);
      TrimStripCr(kept[j]);
    }
  }

  /** No line of the rewritten text trims to the directive. */
  lemma RemovedEverywhere(content: string, directive: string)
    ensures !HasDirective(RemovedText(content, directive), directive)
  {
    var ls := Lines(content);
    var kept := Filter(ls, KeepOther(directive));
    FilterMembers(ls, KeepOther(directive));
    forall k | 0 <= k < |kept| ensures '\n' !in kept[k] && Trim(kept[k]) != directive {
      assert kept[k] in kept;
      var i :| 0 <= i < |ls| && ls[i] == kept[k];
    }
    JoinAvoids(kept, directive);
  }

  /**
   * The rewritten text is exactly the kept lines, in order, separated by `\n`:
   * split at `\n` it gives them back one by one (and it is empty when nothing is kept).
   */
  lemma RemovedLines(content: string, directive: string)
    ensures var kept := Filter(Lines(content), KeepOther(directive));
      && (kept == [] ==> RemovedText(content, directive) == "")
      && (kept != [] ==> SplitLf(RemovedText(content, directive)) == kept)
  {
    var kept := Filter(Lines(content), KeepOther(directive));
    FilterMembers(Lines(content), KeepOther(directive));
    if kept != [] {
      forall k | 0 <= k < |kept| ensures '\n' !in kept[k] {
        assert kept[k] in kept;
      }
      SplitJoin(kept);
    }
  }

  /** After a successful `remove_directive` on a well-formed tree the file decodes to text without the directive. */
  lemma RemoveDirectiveEffect(fs: Tree, path: Path, directive: string)
    requires WellFormed(fs) && ReadConfig(fs, path).Ok?
    ensures RemovedTree(fs, path, directive).Ok?
    ensures var fs' := RemovedTree(fs, path, directive).value;
      && ReadConfig(fs', path) == Ok(RemovedText(ReadConfig(fs, path).value, directive))
      && !HasDirective(ReadConfig(fs', path).value, directive)
  {
    var content := ReadConfig(fs, path).value;
    var text := RemovedText(content, directive);
    RewriteExisting(fs, path);
    WriteThenRead(fs, path, EncodeUtf16(text));
    DecodeEncode(text);
    RemovedEverywhere(content, directive);
  }

  /** Units that are not valid UTF-16 make both edits fail with `InvalidData`, and nothing is written. */
  lemma InvalidTextNotEdited(fs: Tree, path: Path, directive: string)
    requires ReadUtf16leFileToU16(fs, path).Ok? && DecodeUtf16(ReadUtf16leFileToU16(fs, path).value).Err?
    ensures AddedTree(fs, path, directive) == Err(InvalidData)
    ensures RemovedTree(fs, path, directive) == Err(InvalidData)
  {
  }
}
