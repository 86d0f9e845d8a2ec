/**
 * `VersionManifest::check_file` and `check_is_up_to_date`: compare one path of
 * the game directory with its manifest entry, in a fixed order of tests.
 */
module Verifier {
  import opened Results
  import opened Bytes
  import opened FileSystem
  import opened Manifest
  import opened Checksum

  /** What `check_file` returns, together with the final state of the caller's sink. */
  datatype Verdict<S> = Verdict(result: Result<(), Failure>, state: S)

  function Reject(e: ManifestError): Result<(), Failure> {
    Err(ManifestFailure(e))
  }

  /**
   * The tests of `check_file`, in order: listed, present, of the listed kind;
   * a directory with size 0 passes; a file must have the listed size and then
   * the listed checksum; a directory with another size stays unexplained.
   */
  function CheckFileOf<S>(m: VersionManifest, game: Tree, child: Path, sha1: Bytes -> Digest, readSize: nat -> nat,
                          process: (S, Bytes) -> Result<S, Failure>, s0: S): Verdict<S>
  {
    if child !in m.entries then Verdict(Reject(UnknownFile), s0)
    else
      var info := m.entries[child];
      if child !in game then Verdict(Reject(FileDoesNotExist), s0)
      else if IsDir(game, child) != info.IsFolder() then Verdict(Reject(MismatchedType(info.IsFolder())), s0)
      else if IsDir(game, child) && info.size == 0 then Verdict(Ok(()), s0)
      else if game[child].File? then
        if |game[child].data| != info.size then Verdict(Reject(MismatchedContent), s0)
        else
          var c := ChecksumWhileOf(game, child, sha1, readSize, process, s0);
          match c.result
          case Err(f) => Verdict(Err(f), c.state)
          case Ok(hex) => Verdict(if hex != info.sha then Reject(MismatchedContent) else Ok(()), c.state)
      else Verdict(Reject(ImpossibleError), s0)
  }

  /** `check_file`: the sink sees the file's chunks only once every cheaper test has passed. */
  method CheckFile<S>(m: VersionManifest, game: Tree, child: Path, sha1: Bytes -> Digest, readSize: nat -> nat,
                      process: (S, Bytes) -> Result<S, Failure>, s0: S)
    returns (result: Result<(), Failure>, state: S)
    ensures Verdict(result, state) == CheckFileOf(m, game, child, sha1, readSize, process, s0)
  {
    state := s0;
    if child !in m.entries {
      return Reject(UnknownFile), state;
    }
    var info := m.entries[child];
    if child !in game {
      return Reject(FileDoesNotExist), state;
    }
    if IsDir(game, child) != info.IsFolder() {
      return Reject(MismatchedType(info.IsFolder())), state;
    }
    if IsDir(game, child) {
      if info.size == 0 {
        return Ok(()), state;
      }
    }
    if game[child].File? {
      if |game[child].data| != info.size {
        return Reject(MismatchedContent), state;
      }
      var checksum;
      checksum, state := ChecksumWhile(game, child, sha1, readSize, process, s0);
      if checksum.Err? {
        return Err(checksum.error), state;
      }
      if checksum.value != info.sha {
        return Reject(MismatchedContent), state;
      }
      return Ok(()), state;
    }
    result := Reject(ImpossibleError);
  }

  /** The path agrees with its entry: a directory listed as a folder of size 0, or a file with the listed size and checksum. */
  ghost predicate Agrees(info: FileInfo, node: Node, sha1: Bytes -> Digest) {
    || (node == Dir && info.IsFolder() && info.size == 0)
    || (node.File? && !info.IsFolder() && |node.data| == info.size && HexUpper(sha1(node.data)) == info.sha)
  }

  /** A file listed as a file whose size or checksum differs from the entry. */
  ghost predicate ContentDiffers(info: FileInfo, node: Node, sha1: Bytes -> Digest) {
    node.File? && !info.IsFolder() && (|node.data| != info.size || HexUpper(sha1(node.data)) != info.sha)
  }

  /** What `check_file` answers with a sink that never fails. */
  function CheckResult(m: VersionManifest, game: Tree, child: Path, sha1: Bytes -> Digest): Result<(), Failure> {
    CheckFileOf(m, game, child, sha1, _ => 0, Discard, ()).result
  }

  /** Neither the sink (when it never fails) nor the sizes of the reads change what `check_file` answers. */
  lemma CheckIgnoresSink<S(!new)>(m: VersionManifest, game: Tree, child: Path, sha1: Bytes -> Digest, readSize: nat -> nat,
                                  process: (S, Bytes) -> Result<S, Failure>, s0: S)
    requires NeverFails(process)
    ensures CheckFileOf(m, game, child, sha1, readSize, process, s0).result == CheckResult(m, game, child, sha1)
  {
    ChecksumIgnoresSink(game, child, sha1, readSize, process, s0);
    ChecksumIgnoresSink(game, child, sha1, _ => 0, Discard, ());
  }

  /** Each test's error, exactly when the tests before it pass and it fails. */
  lemma CheckErrors(m: VersionManifest, game: Tree, child: Path, sha1: Bytes -> Digest)
    ensures var r := CheckResult(m, game, child, sha1);
      && (r == Reject(UnknownFile) <==> child !in m.entries)
      && (r == Reject(FileDoesNotExist) <==> child in m.entries && child !in game)
      && (forall wanted :: r == Reject(MismatchedType(wanted)) <==>
            child in m.entries && child in game && (game[child] == Dir) != m.entries[child].IsFolder() &&
            wanted == m.entries[child].IsFolder())
      && (r == Reject(ImpossibleError) <==>
            child in m.entries && child in game && game[child] == Dir && m.entries[child].IsFolder() &&
            m.entries[child].size != 0)
  {
    ChecksumIgnoresSink(game, child, sha1, _ => 0, Discard, ());
  }

  /** A path passes exactly when it agrees with its entry, and is reported as changed exactly when its content differs. */
  lemma CheckVerdicts(m: VersionManifest, game: Tree, child: Path, sha1: Bytes -> Digest)
    ensures var r := CheckResult(m, game, child, sha1);
      && (r == Ok(()) <==> child in m.entries && child in game && Agrees(m.entries[child], game[child], sha1))
      && (r == Reject(MismatchedContent) <==>
            child in m.entries && child in game && ContentDiffers(m.entries[child], game[child], sha1))
      && (r.Err? ==> r.error.ManifestFailure?)
  {
    ChecksumIgnoresSink(game, child, sha1, _ => 0, Discard, ());
  }

  /**
   * The checksum is compared as text with the upper-case rendering, so an
   * entry whose SHA has a character other than `0`-`9` and `A`-`F` (a
   * lower-case digest, say) never passes.
   */
  lemma LowercaseShaNeverPasses(m: VersionManifest, game: Tree, child: Path, sha1: Bytes -> Digest)
    requires child in m.entries
    requires exists i :: 0 <= i < |m.entries[child].sha| && m.entries[child].sha[i] !in HEX_DIGITS
    ensures CheckResult(m, game, child, sha1) != Ok(())
  {
    CheckVerdicts(m, game, child, sha1);
    var info := m.entries[child];
    if child in game && game[child].File? {
      var h := HexUpper(sha1(game[child].data));
      HexUpperAt(sha1(game[child].data));
      var i :| 0 <= i < |info.sha| && info.sha[i] !in HEX_DIGITS;
      if i < |h| {
        assert h[i] in HEX_DIGITS;
      }
    }
  }

  /** A file of the listed size whose digest is not that of the listed bytes is reported as changed. */
  lemma TamperingDetected(m: VersionManifest, game: Tree, child: Path, sha1: Bytes -> Digest, listed: Bytes)
    requires child in m.entries && child in game && game[child].File?
    requires !m.entries[child].IsFolder() && m.entries[child].sha == HexUpper(sha1(listed))
    requires |game[child].data| == m.entries[child].size && sha1(game[child].data) != sha1(listed)
    ensures CheckResult(m, game, child, sha1) == Reject(MismatchedContent)
  {
    HexInjective(sha1(game[child].data), sha1(listed));
    CheckVerdicts(m, game, child, sha1);
  }

  /** The file whose state decides whether the installed game is current. */
  const CATALOG: Path := "LimbusCompany_Data/StreamingAssets/aa/catalog.json"

  /**
   * `check_is_up_to_date`: check the catalog; a passing check is `true`, a
   * content mismatch is `false`, and every other error is passed on.
   */
  method CheckIsUpToDate(m: VersionManifest, game: Tree, sha1: Bytes -> Digest, readSize: nat -> nat)
    returns (r: Result<bool, Failure>)
    ensures r == Ok(true) <==> CATALOG in m.entries && CATALOG in game && Agrees(m.entries[CATALOG], game[CATALOG], sha1)
    ensures r == Ok(false) <==> CATALOG in m.entries && CATALOG in game && ContentDiffers(m.entries[CATALOG], game[CATALOG], sha1)
    ensures r.Err? ==> r.error.ManifestFailure? && r.error.error != MismatchedContent
    ensures r.Err? <==> CheckResult(m, game, CATALOG, sha1).Err? && CheckResult(m, game, CATALOG, sha1) != Reject(MismatchedContent)
    ensures r.Err? ==> CheckResult(m, game, CATALOG, sha1) == Err(r.error)
  {
    var checked, u := CheckFile(m, game, CATALOG, sha1, readSize, Discard, ());
    CheckIgnoresSink(m, game, CATALOG, sha1, readSize, Discard, ());
    CheckVerdicts(m, game, CATALOG, sha1);
    match checked
    case Ok(_) =>
      r := Ok(true);
    case Err(e) =>
      if e == ManifestFailure(MismatchedContent) {
        r := Ok(false);
      } else {
        r := Err(e);
      }
  }
}
