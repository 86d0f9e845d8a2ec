/**
 * The version manifest: for every path of the game directory, the size and
 * upper-case SHA-1 the download server lists, and the errors a check against
 * it reports.
 */
module Manifest {
  import opened Bytes
  import opened RustText
  import opened FileSystem

  /** The SHA the manifest lists for a directory: forty zeros. */
  const FOLDER_SHA: string := "0000000000000000000000000000000000000000"

  /** One manifest entry. */
  datatype FileInfo = FileInfo(size: u64, sha: string)
  {
    /** `is_folder`: the entry stands for a directory exactly when its SHA is forty zeros. */
    function IsFolder(): (folder: bool)
      ensures folder <==> |sha| == 40 && forall i :: 0 <= i < |sha| ==> sha[i] == '0'
    {
      sha == FOLDER_SHA
    }
  }

  /** `VersionManifest`: entries keyed by path relative to the game directory. */
  datatype VersionManifest = VersionManifest(entries: map<string, FileInfo>)

  /** Why a path does not agree with the manifest. */
  datatype ManifestError =
    | UnknownFile
    | FileDoesNotExist
    | MismatchedType(wantedDir: bool)
    | MismatchedContent
    | ImpossibleError
  {
    /** The `Display` text of each error. */
    function Message(): (m: string)
      ensures m != []
    {
      match this
      case UnknownFile => "File is not list in the manifest"
      case MismatchedType(true) => "Expected directory but got a file"
      case MismatchedType(false) => "Expected file but got a directory"
      case MismatchedContent => "File does not match the checksum"
      case FileDoesNotExist => "File should exist but does not"
      case ImpossibleError => "Unknown error"
    }
  }

  /** Each error displays differently, so the message identifies the error. */
  lemma MessageInjective(a: ManifestError, b: ManifestError)
    ensures a.Message() == b.Message() <==> a == b
  {
    if a != b {
      MessageKey(a);
      MessageKey(b);
    }
  }

  /** Two characters of each message tell the errors apart. */
  lemma MessageKey(e: ManifestError)
    ensures |e.Message()| > 9
    ensures e.Message()[5] == match e
      case UnknownFile => 'i'
      case MismatchedType(_) => 't'
      case MismatchedContent => 'd'
      case FileDoesNotExist => 's'
      case ImpossibleError => 'w'
    ensures e.MismatchedType? ==> e.Message()[9] == if e.wantedDir then 'd' else 'f'
  {
    var m := e.Message();
    match e
    case UnknownFile => assert m == "File is not list in the manifest";
    case MismatchedType(true) => assert m == "Expected directory but got a file";
    case MismatchedType(false) => assert m == "Expected file but got a directory";
    case MismatchedContent => assert m == "File does not match the checksum";
    case FileDoesNotExist => assert m == "File should exist but does not";
    case ImpossibleError => assert m == "Unknown error";
  }

  /**
   * The errors that reach a caller through `Box<dyn Error>`: a manifest error,
   * an I/O error, a malformed size, or the panic a string slice off a character
   * boundary raises.
   */
  datatype Failure =
    | ManifestFailure(error: ManifestError)
    | IoFailure(io: IoError)
    | ParseIntFailure(kind: IntErrorKind)
    | SliceOffCharBoundary
}
