/**
 * `VersionManifest::copy_to_folder`: create every listed directory under the
 * destination, then copy every listed file from the source, checking each
 * file's checksum while it is copied and stopping at the first failure.
 * The map's iteration order is a parameter: a sequence listing its keys.
 */
module Copier {
  import opened Results
  import opened Bytes
  import opened FileSystem
  import opened Manifest
  import opened Checksum
  import opened Verifier

  /** The effects on the destination, in the order they happen. */
  datatype Op =
    | MadeDirs(path: Path)
    | Created(path: Path)
    | Wrote(path: Path, chunk: Bytes)
    | Flushed(path: Path)

  /** What the copying sink has written to the destination file, and the effects it had. */
  datatype CopyState = CopyState(written: Bytes, log: seq<Op>)

  /** The sink `copy_to_folder` passes: `write_all` a non-empty chunk, `flush` on the empty one. */
  function CopySink(name: Path): (CopyState, Bytes) -> Result<CopyState, Failure> {
    (st: CopyState, chunk: Bytes) => Ok(CopyChunk(name, st, chunk))
  }

  function CopyChunk(name: Path, st: CopyState, chunk: Bytes): CopyState {
    if |chunk| > 0 then CopyState(st.written + chunk, st.log + [Wrote(name, chunk)])
    else CopyState(st.written, st.log + [Flushed(name)])
  }

  /** The outcome of a copy: the result, the destination tree, and the effects on it. */
  datatype Copy = Copy(result: Result<(), Failure>, dst: Tree, log: seq<Op>)

  /** The loop that makes the directories, over the names still to visit. */
  function DirPhase(m: VersionManifest, names: seq<Path>, dst: Tree, log: seq<Op>): Copy
    requires ListsOnly(names, m)
    decreases |names|
  {
    if names == [] then Copy(Ok(()), dst, log)
    else
      var name := names[0];
      if !m.entries[name].IsFolder() then DirPhase(m, names[1..], dst, log)
      else
        match CreateDirAll(dst, name)
        case Err(e) => Copy(Err(IoFailure(e)), dst, log)
        case Ok(t) => DirPhase(m, names[1..], t, log + [MadeDirs(name)])
  }

  /**
   * Copying one file: create (or truncate) it, feed the source through the
   * copying sink, keep what was written, and compare the checksum.
   */
  function CopyFile(m: VersionManifest, src: Tree, name: Path, sha1: Bytes -> Digest, readSize: nat -> nat,
                    dst: Tree, log: seq<Op>): Copy
    requires name in m.entries
  {
    match CreateFile(dst, name)
    case Err(e) => Copy(Err(IoFailure(e)), dst, log)
    case Ok(t) =>
      var c := ChecksumWhileOf(src, name, sha1, readSize, CopySink(name), CopyState([], []));
      var t' := t[name := File(c.state.written)];
      var log' := log + [Created(name)] + c.state.log;
      match c.result
      case Err(f) => Copy(Err(f), t', log')
      case Ok(hex) => Copy(if hex != m.entries[name].sha then Err(ManifestFailure(MismatchedContent)) else Ok(()), t', log')
  }

  /** The loop that copies the files, over the names still to visit. */
  function FilePhase(m: VersionManifest, src: Tree, names: seq<Path>, sha1: Bytes -> Digest, readSize: nat -> nat,
                     dst: Tree, log: seq<Op>): Copy
    requires ListsOnly(names, m)
    decreases |names|
  {
    if names == [] then Copy(Ok(()), dst, log)
    else if m.entries[names[0]].IsFolder() then FilePhase(m, src, names[1..], sha1, readSize, dst, log)
    else
      var c := CopyFile(m, src, names[0], sha1, readSize, dst, log);
      if c.result.Err? then c else FilePhase(m, src, names[1..], sha1, readSize, c.dst, c.log)
  }

  /** Every name in the order is listed in the manifest. */
  predicate ListsOnly(order: seq<Path>, m: VersionManifest) {
    forall k :: 0 <= k < |order| ==> order[k] in m.entries
  }

  function CopyOf(m: VersionManifest, order: seq<Path>, src: Tree, dst: Tree, sha1: Bytes -> Digest, readSize: nat -> nat): Copy
    requires ListsOnly(order, m)
  {
    var d := DirPhase(m, order, dst, []);
    if d.result.Err? then d else FilePhase(m, src, order, sha1, readSize, d.dst, d.log)
  }

  /** `copy_to_folder`, with `order` the order in which the map yields its entries (the same for both loops). */
  method CopyToFolder(m: VersionManifest, order: seq<Path>, src: Tree, dst0: Tree, sha1: Bytes -> Digest, readSize: nat -> nat)
    returns (result: Result<(), Failure>, dst: Tree, log: seq<Op>)
    requires ListsOnly(order, m)
    ensures Copy(result, dst, log) == CopyOf(m, order, src, dst0, sha1, readSize)
  {
    dst, log := dst0, [];
    ghost var dirs := DirPhase(m, order, dst0, []);
    for i := 0 to |order|
      invariant DirPhase(m, order[i..], dst, log) == dirs
    {
      assert order[i..][1..] == order[i + 1..];
      var name := order[i];
      var info := m.entries[name];
      if info.IsFolder() {
        var made := CreateDirAll(dst, name);
        if made.Err? {
          return Err(IoFailure(made.error)), dst, log;
        }
        dst, log := made.value, log + [MadeDirs(name)];
      }
    }
    ghost var files := FilePhase(m, src, order, sha1, readSize, dst, log);
    for i := 0 to |order|
      invariant FilePhase(m, src, order[i..], sha1, readSize, dst, log) == files
    {
      assert order[i..][1..] == order[i + 1..];
      var name := order[i];
      var info := m.entries[name];
      if info.IsFolder() {
        continue;
      }
      var created := CreateFile(dst, name);
      if created.Err? {
        return Err(IoFailure(created.error)), dst, log;
      }
      dst, log := created.value, log + [Created(name)];
      var checksum, st := ChecksumWhile(src, name, sha1, readSize, CopySink(name), CopyState([], []));
      dst, log := dst[name := File(st.written)], log + st.log;
      if checksum.Err? {
        return Err(checksum.error), dst, log;
      }
      if checksum.value != info.sha {
        return Err(ManifestFailure(MismatchedContent)), dst, log;
      }
    }
    result := Ok(());
  }

  // ---------------------------------------------------------------------------
  // One file

  /** The effect of the copying sink for one chunk. */
  function ChunkOp(name: Path, chunk: Bytes): Op {
    if |chunk| > 0 then Wrote(name, chunk) else Flushed(name)
  }

  /** The effects of the copying sink for a sequence of chunks, in order. */
  function SinkLog(name: Path, cs: seq<Bytes>): seq<Op> {
    if cs == [] then [] else [ChunkOp(name, cs[0])] + SinkLog(name, cs[1..])
  }

  /** The copying sink never fails; it writes the chunks' concatenation and logs each chunk. */
  lemma {:induction false} FeedCopy(name: Path, st: CopyState, cs: seq<Bytes>)
    ensures Feed(CopySink(name), st, cs) == Fed(CopyState(st.written + Concat(cs), st.log + SinkLog(name, cs)), None)
    decreases |cs|
  {
    if cs == [] {
      assert st.written + [] == st.written;
      assert st.log + [] == st.log;
    } else {
      var c := cs[0];
      var st' := CopyChunk(name, st, c);
      assert CopySink(name)(st, c) == Ok(st');
      assert Feed(CopySink(name), st, cs) == Feed(CopySink(name), st', cs[1..]);
      FeedCopy(name, st', cs[1..]);
      assert st'.log == st.log + [ChunkOp(name, c)];
      assert st'.log + SinkLog(name, cs[1..]) == st.log + SinkLog(name, cs);
      if |c| > 0 {
        assert st'.written + Concat(cs[1..]) == st.written + Concat(cs);
      } else {
        assert c == [];
        assert Concat(cs) == Concat(cs[1..]);
      }
    }
  }

  /** For chunks that end with the single empty one: a write for each chunk but the last, in order, then a flush. */
  lemma {:induction false} SinkLogShape(name: Path, cs: seq<Bytes>)
    requires |cs| >= 1 && cs[|cs| - 1] == []
    requires forall k :: 0 <= k < |cs| - 1 ==> |cs[k]| > 0
    ensures var ops := SinkLog(name, cs);
      && |ops| == |cs|
      && ops[|ops| - 1] == Flushed(name)
      && (forall k :: 0 <= k < |cs| - 1 ==> ops[k] == Wrote(name, cs[k]))
    decreases |cs|
  {
    var ops := SinkLog(name, cs);
    if |cs| > 1 {
      var rest := cs[1..];
      assert forall k :: 0 <= k < |rest| - 1 ==> rest[k] == cs[k + 1];
      SinkLogShape(name, rest);
      assert ops == [Wrote(name, cs[0])] + SinkLog(name, rest);
      forall k | 1 <= k < |cs| - 1 ensures ops[k] == Wrote(name, cs[k]) {
        assert ops[k] == SinkLog(name, rest)[k - 1];
        assert cs[k] == rest[k - 1];
      }
    }
  }

  /** Copying a file's chunks: one write per chunk but the last, in order, then a single flush. */
  lemma SinkLogOfChunks(name: Path, readSize: nat -> nat, data: Bytes)
    ensures var cs := Chunks(readSize, data, 0);
      var ops := SinkLog(name, cs);
      && |ops| == |cs|
      && ops[|ops| - 1] == Flushed(name)
      && (forall k :: 0 <= k < |cs| - 1 ==> ops[k] == Wrote(name, cs[k]))
  {
    ChunksTile(readSize, data, 0);
    SinkLogShape(name, Chunks(readSize, data, 0));
  }

  /**
   * Copying an existing source file writes exactly its bytes to the
   * destination, and the copy passes exactly when their checksum is the
   * listed one; no other path of the destination changes.
   */
  lemma CopyFileEffect(m: VersionManifest, src: Tree, name: Path, sha1: Bytes -> Digest, readSize: nat -> nat,
                       dst: Tree, log: seq<Op>)
    requires name in m.entries && name in src && src[name].File? && CreateFile(dst, name).Ok?
    ensures var c := CopyFile(m, src, name, sha1, readSize, dst, log);
      var data := src[name].data;
      && c.dst == dst[name := File(data)]
      && c.log == log + [Created(name)] + SinkLog(name, Chunks(readSize, data, 0))
      && (c.result.Ok? <==> HexUpper(sha1(data)) == m.entries[name].sha)
      && (c.result.Err? ==> c.result == Err(ManifestFailure(MismatchedContent)))
  {
    var data := src[name].data;
    var cs := Chunks(readSize, data, 0);
    FeedCopy(name, CopyState([], []), cs);
    ChunksTile(readSize, data, 0);
    assert [] + Concat(cs) == data[0..] == data;
    assert [] + SinkLog(name, cs) == SinkLog(name, cs);
    assert Feed(CopySink(name), CopyState([], []), cs) == Fed(CopyState(data, SinkLog(name, cs)), None);
    assert ReadToEnd(src, name) == Ok(data);
    var checked := ChecksumWhileOf(src, name, sha1, readSize, CopySink(name), CopyState([], []));
    assert checked == Checked(Ok(HexUpper(sha1(data))), CopyState(data, SinkLog(name, cs)));
    assert CreateFile(dst, name).value[name := File(data)] == dst[name := File(data)];
  }

  /** Copying a file touches only that file, and never removes anything. */
  lemma CopyFileFrame(m: VersionManifest, src: Tree, name: Path, sha1: Bytes -> Digest, readSize: nat -> nat,
                      dst: Tree, log: seq<Op>)
    requires name in m.entries
    ensures var c := CopyFile(m, src, name, sha1, readSize, dst, log);
      && dst.Keys <= c.dst.Keys
      && (forall p :: p in dst && p != name ==> c.dst[p] == dst[p])
      && c.log[..|log|] == log
      && (forall k :: |log| <= k < |c.log| ==> !c.log[k].MadeDirs?)
  {
    var c := CopyFile(m, src, name, sha1, readSize, dst, log);
    if CreateFile(dst, name).Ok? {
      var st := ChecksumWhileOf(src, name, sha1, readSize, CopySink(name), CopyState([], [])).state;
      if ReadToEnd(src, name).Ok? {
        FeedCopy(name, CopyState([], []), Chunks(readSize, ReadToEnd(src, name).value, 0));
        NoMadeDirsInSinkLog(name, Chunks(readSize, ReadToEnd(src, name).value, 0));
      }
      assert c.log == log + ([Created(name)] + st.log);
    }
  }

  lemma {:induction false} NoMadeDirsInSinkLog(name: Path, cs: seq<Bytes>)
    ensures forall k :: 0 <= k < |SinkLog(name, cs)| ==> !SinkLog(name, cs)[k].MadeDirs?
  {
    if cs != [] {
      NoMadeDirsInSinkLog(name, cs[1..]);
    }
  }

  // ---------------------------------------------------------------------------
  // Order, early exit, frame

  /** The first loop only makes directories, and only adds to the log. */
  lemma {:induction false} DirPhaseLog(m: VersionManifest, names: seq<Path>, dst: Tree, log: seq<Op>)
    requires ListsOnly(names, m)
    ensures var d := DirPhase(m, names, dst, log);
      && |log| <= |d.log| && d.log[..|log|] == log
      && (forall k :: |log| <= k < |d.log| ==> d.log[k].MadeDirs?)
    decreases |names|
  {
    if names != [] {
      var name := names[0];
      if !m.entries[name].IsFolder() {
        DirPhaseLog(m, names[1..], dst, log);
      } else if CreateDirAll(dst, name).Ok? {
        var log' := log + [MadeDirs(name)];
        DirPhaseLog(m, names[1..], CreateDirAll(dst, name).value, log');
        assert log'[..|log|] == log;
      }
    }
  }

  /** The second loop never makes directories, and only adds to the log. */
  lemma {:induction false} FilePhaseLog(m: VersionManifest, src: Tree, names: seq<Path>, sha1: Bytes -> Digest,
                                        readSize: nat -> nat, dst: Tree, log: seq<Op>)
    requires ListsOnly(names, m)
    ensures var f := FilePhase(m, src, names, sha1, readSize, dst, log);
      && |log| <= |f.log| && f.log[..|log|] == log
      && (forall k :: |log| <= k < |f.log| ==> !f.log[k].MadeDirs?)
    decreases |names|
  {
    if names != [] {
      if m.entries[names[0]].IsFolder() {
        FilePhaseLog(m, src, names[1..], sha1, readSize, dst, log);
      } else {
        var c := CopyFile(m, src, names[0], sha1, readSize, dst, log);
        CopyFileFrame(m, src, names[0], sha1, readSize, dst, log);
        if c.result.Ok? {
          FilePhaseLog(m, src, names[1..], sha1, readSize, c.dst, c.log);
          NoDirsAppended(log, c.log, FilePhase(m, src, names[1..], sha1, readSize, c.dst, c.log).log);
        }
      }
    }
  }

  /** Two extensions of a log that add no `MadeDirs` make one. */
  lemma NoDirsAppended(log: seq<Op>, mid: seq<Op>, out: seq<Op>)
    requires |log| <= |mid| && mid[..|log|] == log && forall k :: |log| <= k < |mid| ==> !mid[k].MadeDirs?
    requires |mid| <= |out| && out[..|mid|] == mid && forall k :: |mid| <= k < |out| ==> !out[k].MadeDirs?
    ensures |log| <= |out| && out[..|log|] == log && forall k :: |log| <= k < |out| ==> !out[k].MadeDirs?
  {
    assert out[..|log|] == mid[..|log|];
    forall k | |log| <= k < |mid| ensures !out[k].MadeDirs? {
      assert out[k] == mid[k];
    }
  }

  /** Every directory is made before anything is done to any file. */
  lemma DirectoriesFirst(m: VersionManifest, order: seq<Path>, src: Tree, dst: Tree, sha1: Bytes -> Digest, readSize: nat -> nat)
    requires ListsOnly(order, m)
    ensures var log := CopyOf(m, order, src, dst, sha1, readSize).log;
      forall i, j :: 0 <= i < j < |log| && log[j].MadeDirs? ==> log[i].MadeDirs?
  {
    var d := DirPhase(m, order, dst, []);
    DirPhaseLog(m, order, dst, []);
    if d.result.Ok? {
      FilePhaseLog(m, src, order, sha1, readSize, d.dst, d.log);
      var log := CopyOf(m, order, src, dst, sha1, readSize).log;
      forall i, j | 0 <= i < j < |log| && log[j].MadeDirs? ensures log[i].MadeDirs? {
        assert j < |d.log|;
        assert log[i] == log[..|d.log|][i];
      }
    }
  }

  /**
   * The copy stops at its first failure: once the entries visited so far
   * have failed, the entries after them change nothing, so none of them is touched.
   */
  lemma {:induction false} FilePhaseStops(m: VersionManifest, src: Tree, names: seq<Path>, rest: seq<Path>,
                                          sha1: Bytes -> Digest, readSize: nat -> nat, dst: Tree, log: seq<Op>)
    requires ListsOnly(names, m) && ListsOnly(rest, m)
    requires FilePhase(m, src, names, sha1, readSize, dst, log).result.Err?
    ensures ListsOnly(names + rest, m)
    ensures FilePhase(m, src, names + rest, sha1, readSize, dst, log) == FilePhase(m, src, names, sha1, readSize, dst, log)
    decreases |names|
  {
    assert ListsOnly(names + rest, m) by {
      forall k | 0 <= k < |names + rest| ensures (names + rest)[k] in m.entries {
        if k >= |names| {
          assert (names + rest)[k] == rest[k - |names|];
        }
      }
    }
    assert (names + rest)[0] == names[0];
    assert (names + rest)[1..] == names[1..] + rest;
    if m.entries[names[0]].IsFolder() {
      FilePhaseStops(m, src, names[1..], rest, sha1, readSize, dst, log);
    } else {
      var c := CopyFile(m, src, names[0], sha1, readSize, dst, log);
      if c.result.Ok? {
        FilePhaseStops(m, src, names[1..], rest, sha1, readSize, c.dst, c.log);
      }
    }
  }

  /** The same for the loop that makes directories: after a failure, later entries change nothing. */
  lemma {:induction false} DirPhaseStops(m: VersionManifest, names: seq<Path>, rest: seq<Path>, dst: Tree, log: seq<Op>)
    requires ListsOnly(names, m) && ListsOnly(rest, m)
    requires DirPhase(m, names, dst, log).result.Err?
    ensures ListsOnly(names + rest, m)
    ensures DirPhase(m, names + rest, dst, log) == DirPhase(m, names, dst, log)
    decreases |names|
  {
    assert ListsOnly(names + rest, m) by {
      forall k | 0 <= k < |names + rest| ensures (names + rest)[k] in m.entries {
        if k >= |names| {
          assert (names + rest)[k] == rest[k - |names|];
        }
      }
    }
    var name := names[0];
    assert (names + rest)[0] == name;
    assert (names + rest)[1..] == names[1..] + rest;
    if !m.entries[name].IsFolder() {
      DirPhaseStops(m, names[1..], rest, dst, log);
    } else if CreateDirAll(dst, name).Ok? {
      DirPhaseStops(m, names[1..], rest, CreateDirAll(dst, name).value, log + [MadeDirs(name)]);
    }
  }

  /** Making directories never removes or changes an existing path. */
  lemma {:induction false} DirPhaseFrame(m: VersionManifest, names: seq<Path>, dst: Tree, log: seq<Op>)
    requires ListsOnly(names, m)
    ensures var d := DirPhase(m, names, dst, log);
      dst.Keys <= d.dst.Keys && forall p :: p in dst ==> d.dst[p] == dst[p]
    decreases |names|
  {
    if names != [] {
      var name := names[0];
      if !m.entries[name].IsFolder() {
        DirPhaseFrame(m, names[1..], dst, log);
      } else if CreateDirAll(dst, name).Ok? {
        CreateDirAllEffect(dst, name);
        DirPhaseFrame(m, names[1..], CreateDirAll(dst, name).value, log + [MadeDirs(name)]);
      }
    }
  }

  /** Copying files changes only the files it visits, and never removes anything. */
  lemma {:induction false} FilePhaseFrame(m: VersionManifest, src: Tree, names: seq<Path>, sha1: Bytes -> Digest,
                                          readSize: nat -> nat, dst: Tree, log: seq<Op>)
    requires ListsOnly(names, m)
    ensures var f := FilePhase(m, src, names, sha1, readSize, dst, log);
      dst.Keys <= f.dst.Keys && forall p :: p in dst && p !in names ==> f.dst[p] == dst[p]
    decreases |names|
  {
    if names != [] {
      if m.entries[names[0]].IsFolder() {
        FilePhaseFrame(m, src, names[1..], sha1, readSize, dst, log);
      } else {
        var c := CopyFile(m, src, names[0], sha1, readSize, dst, log);
        CopyFileFrame(m, src, names[0], sha1, readSize, dst, log);
        if c.result.Ok? {
          FilePhaseFrame(m, src, names[1..], sha1, readSize, c.dst, c.log);
        }
      }
    }
  }

  /** Once the files among `a` are copied, copying `a + b` goes on exactly as copying `b` from there. */
  lemma {:induction false} FilePhaseAppend(m: VersionManifest, src: Tree, a: seq<Path>, b: seq<Path>,
                                           sha1: Bytes -> Digest, readSize: nat -> nat, dst: Tree, log: seq<Op>)
    requires ListsOnly(a, m) && ListsOnly(b, m)
    requires FilePhase(m, src, a, sha1, readSize, dst, log).result.Ok?
    ensures ListsOnly(a + b, m)
    ensures var fa := FilePhase(m, src, a, sha1, readSize, dst, log);
      FilePhase(m, src, a + b, sha1, readSize, dst, log) == FilePhase(m, src, b, sha1, readSize, fa.dst, fa.log)
    decreases |a|
  {
    assert ListsOnly(a + b, m) by {
      forall k | 0 <= k < |a + b| ensures (a + b)[k] in m.entries {
        if k >= |a| {
          assert (a + b)[k] == b[k - |a|];
        }
      }
    }
    if a == [] {
      assert a + b == b;
    } else {
      assert (a + b)[0] == a[0];
      assert (a + b)[1..] == a[1..] + b;
      if m.entries[a[0]].IsFolder() {
        FilePhaseAppend(m, src, a[1..], b, sha1, readSize, dst, log);
      } else {
        var c := CopyFile(m, src, a[0], sha1, readSize, dst, log);
        FilePhaseAppend(m, src, a[1..], b, sha1, readSize, c.dst, c.log);
      }
    }
  }

  /**
   * A later failure does not undo earlier copies: what the file pass over `a`
   * left in the destination is still there after the pass over `a + b`,
   * however that ends, except at the paths `b` visits again.
   */
  lemma FailureKeepsCopies(m: VersionManifest, src: Tree, a: seq<Path>, b: seq<Path>,
                           sha1: Bytes -> Digest, readSize: nat -> nat, dst: Tree, log: seq<Op>)
    requires ListsOnly(a, m) && ListsOnly(b, m)
    requires FilePhase(m, src, a, sha1, readSize, dst, log).result.Ok?
    ensures ListsOnly(a + b, m)
    ensures var fa := FilePhase(m, src, a, sha1, readSize, dst, log);
      var f := FilePhase(m, src, a + b, sha1, readSize, dst, log);
      forall p :: p in fa.dst && p !in b ==> p in f.dst && f.dst[p] == fa.dst[p]
  {
    var fa := FilePhase(m, src, a, sha1, readSize, dst, log);
    FilePhaseAppend(m, src, a, b, sha1, readSize, dst, log);
    FilePhaseFrame(m, src, b, sha1, readSize, fa.dst, fa.log);
  }

  /**
   * The same for the whole copy: if the files among the first `k` names were
   * copied, they are in place at the end, whether or not a later file fails,
   * unless a later name is the same path.
   */
  lemma CopiesSurvive(m: VersionManifest, order: seq<Path>, src: Tree, dst: Tree, sha1: Bytes -> Digest,
                      readSize: nat -> nat, k: nat)
    requires ListsOnly(order, m) && k <= |order|
    requires DirPhase(m, order, dst, []).result.Ok?
    requires FilePhase(m, src, order[..k], sha1, readSize, DirPhase(m, order, dst, []).dst, DirPhase(m, order, dst, []).log).result.Ok?
    ensures var d := DirPhase(m, order, dst, []);
      var fa := FilePhase(m, src, order[..k], sha1, readSize, d.dst, d.log);
      var c := CopyOf(m, order, src, dst, sha1, readSize);
      forall p :: p in fa.dst && p !in order[k..] ==> p in c.dst && c.dst[p] == fa.dst[p]
  {
    var d := DirPhase(m, order, dst, []);
    assert order[..k] + order[k..] == order;
    FailureKeepsCopies(m, src, order[..k], order[k..], sha1, readSize, d.dst, d.log);
  }

  /**
   * Whatever happens, nothing in the destination is removed, and a path the
   * manifest does not list keeps its contents. That files copied before a
   * failure stay where they are is stated by CopiesSurvive.
   */
  lemma CopyFrame(m: VersionManifest, order: seq<Path>, src: Tree, dst: Tree, sha1: Bytes -> Digest, readSize: nat -> nat)
    requires ListsOnly(order, m)
    ensures var c := CopyOf(m, order, src, dst, sha1, readSize);
      dst.Keys <= c.dst.Keys && forall p :: p in dst && p !in m.entries ==> c.dst[p] == dst[p]
  {
    var d := DirPhase(m, order, dst, []);
    DirPhaseFrame(m, order, dst, []);
    if d.result.Ok? {
      FilePhaseFrame(m, src, order, sha1, readSize, d.dst, d.log);
    }
  }

  // ---------------------------------------------------------------------------
  // Round trip

  /** Every entry has a non-empty name, and every directory above an entry is itself listed as a folder. */
  predicate Closed(m: VersionManifest) {
    forall n :: n in m.entries ==>
      (n != "" && forall q :: q in Chain(n) && q != n && q != "" ==> q in m.entries && m.entries[q].IsFolder())
  }

  /** In a closed manifest, the parent of an entry is the root or a listed folder. */
  lemma ParentListed(m: VersionManifest, n: Path)
    requires Closed(m) && n in m.entries
    ensures Parent(n).Some?
    ensures var q := Parent(n).value; q == "" || (q in m.entries && m.entries[q].IsFolder())
  {
    var q := Parent(n).value;
    assert q in Chain(n);
  }

  /** No path on the way from the root to a listed folder is a file: the premise under which the first loop succeeds. */
  ghost predicate NoFileOnChains(t: Tree, m: VersionManifest) {
    forall n, q :: n in m.entries && m.entries[n].IsFolder() && q in Chain(n) && q in t ==> t[q] == Dir
  }

  /** `p` lies on the way to one of the listed folders among `names`. */
  ghost predicate OnSomeChain(p: Path, names: seq<Path>, m: VersionManifest) {
    exists k :: 0 <= k < |names| && names[k] in m.entries && m.entries[names[k]].IsFolder() && p in Chain(names[k])
  }

  lemma OnLaterChain(p: Path, names: seq<Path>, m: VersionManifest)
    requires names != [] && OnSomeChain(p, names[1..], m)
    ensures OnSomeChain(p, names, m)
  {
    var k :| 0 <= k < |names[1..]| && names[1..][k] in m.entries && m.entries[names[1..][k]].IsFolder() && p in Chain(names[1..][k]);
    assert names[k + 1] == names[1..][k];
  }

  /** Making one listed folder succeeds, keeps every entry, and adds only directories on its chain. */
  lemma DirStep(m: VersionManifest, dst: Tree, name: Path)
    requires name in m.entries && m.entries[name].IsFolder() && NoFileOnChains(dst, m)
    ensures CreateDirAll(dst, name).Ok?
    ensures var t := CreateDirAll(dst, name).value;
      && NoFileOnChains(t, m) && IsDir(t, name)
      && (forall p :: p in dst ==> p in t && t[p] == dst[p])
      && (forall p :: p in t && p !in dst ==> t[p] == Dir && p in Chain(name))
  {
    CreateDirAllSucceeds(dst, name);
    CreateDirAllEffect(dst, name);
  }

  /**
   * When no file is in the way of a listed folder, the first loop succeeds,
   * keeps every entry the destination had, makes every listed folder among
   * `names`, and adds only directories on the way to those folders.
   */
  lemma {:induction false} DirPhaseMakesAll(m: VersionManifest, names: seq<Path>, dst: Tree, log: seq<Op>)
    requires ListsOnly(names, m) && NoFileOnChains(dst, m)
    ensures var d := DirPhase(m, names, dst, log);
      && d.result.Ok?
      && NoFileOnChains(d.dst, m)
      && (forall p :: p in dst ==> p in d.dst && d.dst[p] == dst[p])
      && (forall p :: p in d.dst && p !in dst ==> d.dst[p] == Dir && OnSomeChain(p, names, m))
      && (forall k :: 0 <= k < |names| && m.entries[names[k]].IsFolder() ==> IsDir(d.dst, names[k]))
    decreases |names|
  {
    if names != [] {
      var name := names[0];
      if m.entries[name].IsFolder() {
        DirStep(m, dst, name);
      }
      var t := if m.entries[name].IsFolder() then CreateDirAll(dst, name).value else dst;
      var l := if m.entries[name].IsFolder() then log + [MadeDirs(name)] else log;
      DirPhaseMakesAll(m, names[1..], t, l);
      var d := DirPhase(m, names, dst, log);
      assert d == DirPhase(m, names[1..], t, l);
      forall p | p in d.dst && p !in dst ensures d.dst[p] == Dir && OnSomeChain(p, names, m) {
        if p in t {
          assert p in Chain(names[0]);
        } else {
          OnLaterChain(p, names, m);
        }
      }
      forall k | 0 <= k < |names| && m.entries[names[k]].IsFolder() ensures IsDir(d.dst, names[k]) {
        if k > 0 {
          assert names[k] == names[1..][k - 1];
        }
      }
    }
  }

  /** The premise under which the second loop succeeds: the root and every listed folder are directories, and no listed file is a directory. */
  ghost predicate ReadyForFiles(t: Tree, m: VersionManifest) {
    && IsDir(t, "")
    && (forall n :: n in m.entries && m.entries[n].IsFolder() ==> IsDir(t, n))
    && (forall p :: p in t && p in m.entries && !m.entries[p].IsFolder() ==> t[p].File?)
  }

  /** Every entry of the manifest passes `check_file` against the tree. */
  ghost predicate AllPass(m: VersionManifest, t: Tree, sha1: Bytes -> Digest) {
    forall n :: n in m.entries ==> CheckResult(m, t, n, sha1) == Ok(())
  }

  lemma SourceEntry(m: VersionManifest, src: Tree, sha1: Bytes -> Digest, n: Path)
    requires AllPass(m, src, sha1) && n in m.entries
    ensures n in src && Agrees(m.entries[n], src[n], sha1)
  {
    CheckVerdicts(m, src, n, sha1);
  }

  /** Copying one listed file of an agreeing source succeeds, puts the source file in place and keeps ReadyForFiles. */
  lemma FileStep(m: VersionManifest, src: Tree, name: Path, sha1: Bytes -> Digest, readSize: nat -> nat,
                 dst: Tree, log: seq<Op>)
    requires Closed(m) && AllPass(m, src, sha1) && name in m.entries && !m.entries[name].IsFolder()
    requires ReadyForFiles(dst, m)
    ensures var c := CopyFile(m, src, name, sha1, readSize, dst, log);
      c.result.Ok? && c.dst == dst[name := src[name]] && ReadyForFiles(c.dst, m)
  {
    SourceEntry(m, src, sha1, name);
    ParentListed(m, name);
    assert IsDir(dst, Parent(name).value);
    assert CreateFile(dst, name).Ok?;
    CopyFileEffect(m, src, name, sha1, readSize, dst, log);
    ReadyAfterFile(dst, m, name, src[name]);
  }

  /** Putting a listed file in place keeps ReadyForFiles. */
  lemma ReadyAfterFile(t: Tree, m: VersionManifest, name: Path, node: Node)
    requires ReadyForFiles(t, m) && name in m.entries && !m.entries[name].IsFolder() && node.File?
    ensures ReadyForFiles(t[name := node], m)
  {
    var t' := t[name := node];
    assert IsDir(t', "") by {
      assert "" != name by {
        assert !IsDir(t, name);
      }
    }
  }

  lemma {:induction false} FilePhaseCopiesAll(m: VersionManifest, src: Tree, names: seq<Path>, sha1: Bytes -> Digest,
                                              readSize: nat -> nat, dst: Tree, log: seq<Op>)
    requires Closed(m) && AllPass(m, src, sha1) && ListsOnly(names, m) && ReadyForFiles(dst, m)
    ensures var f := FilePhase(m, src, names, sha1, readSize, dst, log);
      && f.result.Ok?
      && ReadyForFiles(f.dst, m)
      && (forall p :: p in dst && p !in names ==> p in f.dst && f.dst[p] == dst[p])
      && (forall k :: 0 <= k < |names| && !m.entries[names[k]].IsFolder() ==> names[k] in f.dst && f.dst[names[k]] == src[names[k]])
    decreases |names|
  {
    if names != [] {
      var name := names[0];
      var c := CopyFile(m, src, name, sha1, readSize, dst, log);
      var t := if m.entries[name].IsFolder() then dst else c.dst;
      var l := if m.entries[name].IsFolder() then log else c.log;
      if !m.entries[name].IsFolder() {
        FileStep(m, src, name, sha1, readSize, dst, log);
      }
      FilePhaseCopiesAll(m, src, names[1..], sha1, readSize, t, l);
      var f := FilePhase(m, src, names, sha1, readSize, dst, log);
      assert f == FilePhase(m, src, names[1..], sha1, readSize, t, l);
      forall n | n in m.entries && !m.entries[n].IsFolder() ensures n in src {
        SourceEntry(m, src, sha1, n);
      }
      CopiesExtend(m, src, names, t, f.dst);
      KeptExtend(names, dst, t, f.dst);
    }
  }

  /** The files copied by the later steps, and the first one if it is a file, are all in place. */
  lemma CopiesExtend(m: VersionManifest, src: Tree, names: seq<Path>, t: Tree, out: Tree)
    requires names != [] && ListsOnly(names, m)
    requires forall n :: n in m.entries && !m.entries[n].IsFolder() ==> n in src
    requires !m.entries[names[0]].IsFolder() ==> names[0] in t && t[names[0]] == src[names[0]]
    requires forall p :: p in t && p !in names[1..] ==> p in out && out[p] == t[p]
    requires forall k :: 0 <= k < |names[1..]| && !m.entries[names[1..][k]].IsFolder() ==>
      names[1..][k] in out && out[names[1..][k]] == src[names[1..][k]]
    ensures forall k :: 0 <= k < |names| && !m.entries[names[k]].IsFolder() ==> names[k] in out && out[names[k]] == src[names[k]]
  {
    forall k | 0 <= k < |names| && !m.entries[names[k]].IsFolder() ensures names[k] in out && out[names[k]] == src[names[k]] {
      if k > 0 {
        assert names[k] == names[1..][k - 1];
      } else if names[0] in names[1..] {
        var j :| 0 <= j < |names[1..]| && names[1..][j] == names[0];
      }
    }
  }

  /** A path the steps do not name keeps its contents through the first step and the later ones. */
  lemma KeptExtend(names: seq<Path>, dst: Tree, t: Tree, out: Tree)
    requires names != []
    requires forall p :: p in dst && p != names[0] ==> p in t && t[p] == dst[p]
    requires forall p :: p in t && p !in names[1..] ==> p in out && out[p] == t[p]
    ensures forall p :: p in dst && p !in names ==> p in out && out[p] == dst[p]
  {
  }

  /** A copied tree that holds every listed folder as a directory and every listed file as in the source agrees like the source. */
  lemma CopiedEntryPasses(m: VersionManifest, src: Tree, dst: Tree, sha1: Bytes -> Digest, n: Path)
    requires AllPass(m, src, sha1) && n in m.entries
    requires m.entries[n].IsFolder() ==> IsDir(dst, n)
    requires !m.entries[n].IsFolder() ==> n in dst && n in src && dst[n] == src[n]
    ensures CheckResult(m, dst, n, sha1) == Ok(())
  {
    SourceEntry(m, src, sha1, n);
    CheckVerdicts(m, dst, n, sha1);
  }

  /**
   * Copying a source that passes every check, with a closed manifest, into an
   * empty destination succeeds, and afterwards every entry passes
   * `check_file` against the destination too.
   */
  lemma CopyRoundTrip(m: VersionManifest, order: seq<Path>, src: Tree, sha1: Bytes -> Digest, readSize: nat -> nat)
    requires ListsOnly(order, m) && (forall n :: n in m.entries ==> n in order)
    requires Closed(m) && AllPass(m, src, sha1)
    ensures var c := CopyOf(m, order, src, map["" := Dir], sha1, readSize);
      c.result.Ok? && AllPass(m, c.dst, sha1)
  {
    var dst0: Tree := map["" := Dir];
    var d := DirPhase(m, order, dst0, []);
    DirsReady(m, order, dst0);
    FilePhaseCopiesAll(m, src, order, sha1, readSize, d.dst, d.log);
    var c := CopyOf(m, order, src, dst0, sha1, readSize);
    assert c == FilePhase(m, src, order, sha1, readSize, d.dst, d.log);
    AllCopiedPass(m, src, order, c.dst, sha1);
  }

  lemma AllCopiedPass(m: VersionManifest, src: Tree, order: seq<Path>, dst: Tree, sha1: Bytes -> Digest)
    requires ListsOnly(order, m) && (forall n :: n in m.entries ==> n in order)
    requires AllPass(m, src, sha1) && ReadyForFiles(dst, m)
    requires forall k :: 0 <= k < |order| && !m.entries[order[k]].IsFolder() ==> order[k] in dst && dst[order[k]] == src[order[k]]
    ensures AllPass(m, dst, sha1)
  {
    forall n | n in m.entries ensures CheckResult(m, dst, n, sha1) == Ok(()) {
      var k :| 0 <= k < |order| && order[k] == n;
      SourceEntry(m, src, sha1, n);
      CopiedEntryPasses(m, src, dst, sha1, n);
    }
  }

  /** After the first loop over all the entries, starting from the bare root, the files can be copied. */
  lemma DirsReady(m: VersionManifest, order: seq<Path>, dst0: Tree)
    requires ListsOnly(order, m) && (forall n :: n in m.entries ==> n in order)
    requires Closed(m) && dst0 == map["" := Dir]
    ensures var d := DirPhase(m, order, dst0, []);
      d.result.Ok? && ReadyForFiles(d.dst, m)
  {
    assert NoFileOnChains(dst0, m);
    DirPhaseMakesAll(m, order, dst0, []);
    var d := DirPhase(m, order, dst0, []);
    assert IsDir(dst0, "");
    forall n | n in m.entries && m.entries[n].IsFolder() ensures IsDir(d.dst, n) {
      var k :| 0 <= k < |order| && order[k] == n;
    }
    forall p | p in d.dst && p !in dst0 ensures p in m.entries && m.entries[p].IsFolder() {
      var k :| 0 <= k < |order| && order[k] in m.entries && m.entries[order[k]].IsFolder() && p in Chain(order[k]);
    }
  }
}
