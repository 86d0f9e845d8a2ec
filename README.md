# Manifest integrity engine and UTF-16LE config editor

This project models two parts of a game launcher's back end and proves
properties about them.

**The manifest integrity engine** (`src-tauri/src/commands/checksum.rs`):
- A version manifest is a map from relative path names to a `FileInfo`: an expected size and an upper-case SHA-1 hex string. The sentinel hash of forty `'0'` characters marks a directory.
- The engine parses that manifest from its plain-text listing.
- It hashes a file in 8192-byte reads while passing every chunk to a caller-supplied sink.
- It checks one path of a game folder against the manifest, with an error for each kind of mismatch.
- It probes whether the folder is up to date by checking the catalog file.
- It copies a tree into a destination folder, verifying every byte as the sink writes it.

**The configuration editor** (`src-tauri/src/utf16le_utils.rs`):
- It reads a file as little-endian 16-bit units.
- It writes units back, and appends text.
- It adds or removes one directive line of the decoded text, keeping every other line.

Modules, one per file:

| module | what it holds |
|---|---|
| `Results` | `Option` and `Result` |
| `Bytes` | byte and integer types, and the `{:X}` upper-case hex rendering |
| `RustText` | the Rust `str` operations the source relies on |
| `FileSystem` | a file tree as a map from paths to nodes, with the `std::fs` calls used |
| `Utf16` | `encode_utf16` and `String::from_utf16` |
| `Utf16Le` | the config editor |
| `Manifest` | the manifest data model and error messages |
| `ManifestParser` | the text parser |
| `Checksum` | the streaming hash |
| `Verifier` | `check_file` and `check_is_up_to_date` |
| `Copier` | `copy_to_folder` |

The Rust `str` operations in `RustText` are `trim`, `lines`, `split('\n')`, `join("\n")`, byte slicing and `u64::from_str`.

How the model represents the source:
- **The file system** is a value: a map from `/`-separated relative paths to `Dir` or `File(bytes)`. The root of a folder is `""`.
- **Operations that change files** return the new tree.
- **SHA-1** is a parameter `sha1: Bytes -> Digest`.
- **Read sizes.** How many bytes each `read` returns is a parameter `readSize`; the model bounds it by the buffer and by what is left.
- **HashMap order.** The order in which `copy_to_folder` walks the HashMap is a parameter `order` that lists manifest names.
- **Sinks.** The `FnMut` closure passed to `calculate_checksum_while` becomes a pure sink `(S, Bytes) -> Result<S, Failure>` threaded through the loop as state `S`. The no-op closure is `Discard`. The copy closure is `CopySink`, whose state records the bytes written to the destination file and the log of writes and flushes.

Two details of the manifest format follow `get_manifest` exactly:
- **Byte lengths.** Manifest rows are measured and cut in bytes (`line.len()`, `line[0..14]`), not in characters. A slice that falls inside a multi-byte character panics in Rust; the model turns that into the `SliceOffCharBoundary` failure.
- **The header pattern** `^\s*Size\s*Chunks\s*File SHA\s*Flags Name\s*$` allows zero whitespace between the words as well as any amount.

## Model

| member | source | states |
|---|---|---|
| Manifest.FileInfo.IsFolder | src-tauri/src/commands/checksum.rs:14-26 | an entry is a folder exactly when its hash is forty `'0'` characters |
| Manifest.ManifestError.Message | src-tauri/src/commands/checksum.rs:41-53 | every error has a non-empty message |
| Manifest.MessageInjective | src-tauri/src/commands/checksum.rs:43-50 | two errors have the same message exactly when they are the same error, including both `MismatchedType` directions |
| Bytes.HexUpper | src-tauri/src/commands/checksum.rs:79-80 | `format!` with the upper-case hex specifier: two characters per byte; what they are is stated by HexUpperAt |
| Bytes.HexUpperAt | src-tauri/src/commands/checksum.rs:79-80 | the rendering puts each byte's high then low nibble at positions 2i and 2i+1, and uses only `0-9A-F` |
| Bytes.HexRoundTrip | src-tauri/src/commands/checksum.rs:79-80 | reading the upper-case hex rendering back gives the digest |
| Bytes.HexInjective | src-tauri/src/commands/checksum.rs:79-80 | two digests render to the same string exactly when they are equal |
| Checksum.ReadChunk | src-tauri/src/commands/checksum.rs:68-70 | one `read` into the 8192-byte buffer fills its first n cells with the next n bytes of the file, where n is bounded by the buffer and what remains, and is 0 only at the end |
| Checksum.ChunksTile | src-tauri/src/commands/checksum.rs:69-76 | the chunks the loop reads concatenate to the file, each but the last has 1 to 8192 bytes, and the last is empty |
| Checksum.ChecksumWhile | src-tauri/src/commands/checksum.rs:57-83 | the loop's result and sink state are those of feeding the chunks in order: an open error, the first sink error, or the upper-case hex of the file's digest; the empty chunk reaches the sink before the loop stops |
| Checksum.FeedStops | src-tauri/src/commands/checksum.rs:71 | once the sink fails no later chunk is fed and the state stays as it was |
| Checksum.SinkSeesFile | src-tauri/src/commands/checksum.rs:69-76 | a sink that records its chunks sees exactly the file's bytes, in order, in chunks of 1 to 8192 bytes, followed by one empty chunk |
| Checksum.ChecksumIgnoresSink | src-tauri/src/commands/checksum.rs:57-88 | with a sink that never fails, the result is the hex of the digest of the file's bytes, whatever the read sizes and the sink |
| Checksum.CalculateChecksum | src-tauri/src/commands/checksum.rs:86-88 | hashing with the no-op sink gives the hex of the digest of the file's contents, or the open error |
| Verifier.CheckFile | src-tauri/src/commands/checksum.rs:138-176 | the method's result and sink state are those of the check, in the source's order of tests |
| Verifier.CheckErrors | src-tauri/src/commands/checksum.rs:142-162 | `UnknownFile` iff the path is not listed; `FileDoesNotExist` iff listed and absent; `MismatchedType(wanted)` iff the kinds differ and `wanted` is the entry's kind; `ImpossibleError` iff it is a folder on both sides with a non-zero size |
| Verifier.CheckVerdicts | src-tauri/src/commands/checksum.rs:158-175 | success iff listed, present and agreeing (a folder of size 0, or a file with the listed size and hash); `MismatchedContent` iff it is a file whose size or hash differs; every error is a manifest error |
| Verifier.CheckIgnoresSink | src-tauri/src/commands/checksum.rs:138-176 | with a sink that never fails, the verdict does not depend on the sink or the read sizes |
| Verifier.LowercaseShaNeverPasses | src-tauri/src/commands/checksum.rs:169-171 | an entry whose hash holds a character outside `0-9A-F` never passes, because the hex comparison is case-sensitive |
| Verifier.TamperingDetected | src-tauri/src/commands/checksum.rs:164-171 | a file of the listed size whose bytes digest differently from the listed ones is reported as `MismatchedContent` |
| Verifier.CheckIsUpToDate | src-tauri/src/commands/checksum.rs:92-99 | `Ok(true)` iff the catalog entry agrees; `Ok(false)` iff it is a file whose content differs; an error exactly when `check_file` fails with something other than `MismatchedContent`, and then it is that same error |
| Copier.CopyToFolder | src-tauri/src/commands/checksum.rs:101-136 | the method's result, destination tree and log are those of the two passes: `create_dir_all` for every folder entry, then create, stream and compare each file entry, stopping at the first error |
| Copier.FeedCopy | src-tauri/src/commands/checksum.rs:121-128 | the copy sink appends each non-empty chunk to the destination and logs a write, logs a flush for the empty chunk, and never fails |
| Copier.SinkLogOfChunks | src-tauri/src/commands/checksum.rs:121-128 | copying a file logs one write per non-empty chunk in order and ends with exactly one flush |
| Copier.CopyFileEffect | src-tauri/src/commands/checksum.rs:116-132 | for a source path that is a file, and a destination path where `File::create` succeeds (it is not a directory and its parent is one), copying leaves the destination holding exactly the source bytes, logs the create and the sink's writes, and succeeds iff the hex digest equals the listed hash, otherwise `MismatchedContent` |
| Copier.CopyFileFrame | src-tauri/src/commands/checksum.rs:116-132 | copying one file changes no other destination entry and only appends to the log, without making directories |
| Copier.DirectoriesFirst | src-tauri/src/commands/checksum.rs:102-133 | every directory creation in the log comes before every file operation |
| Copier.DirPhaseStops | src-tauri/src/commands/checksum.rs:106 | a failed `create_dir_all` ends the copy: later names change nothing |
| Copier.FilePhaseStops | src-tauri/src/commands/checksum.rs:118-132 | a failed file copy ends the copy: later names change nothing |
| Copier.CopyFrame | src-tauri/src/commands/checksum.rs:101-136 | no destination entry disappears, and entries whose names are not in the manifest are left unchanged |
| Copier.FilePhaseAppend | src-tauri/src/commands/checksum.rs:111-133 | once the files of a first run of names are copied, the loop over that run followed by more names goes on exactly as the loop over the rest, from the state the first run left |
| Copier.FailureKeepsCopies | src-tauri/src/commands/checksum.rs:111-133 | whatever the later names do, including fail, every entry the first run of the file loop left is still there with the same contents, unless a later name is the same path |
| Copier.CopiesSurvive | src-tauri/src/commands/checksum.rs:101-136 | in the whole copy, the files copied for the first `k` names are in place at the end, whether or not a later file fails, unless a later name is the same path |
| Copier.DirPhaseMakesAll | src-tauri/src/commands/checksum.rs:103-108 | when no file sits on the way to a listed folder, the directory pass succeeds, keeps every existing entry, makes every listed folder, and adds only directories on the way to listed folders |
| Copier.FilePhaseCopiesAll | src-tauri/src/commands/checksum.rs:111-133 | for a closed manifest (no entry is the root, and every folder above a listed path is itself listed as a folder), from a source that passes every check, into a destination whose root and listed folders are directories and where no listed file is a directory, the file pass succeeds, gives every listed file the source's contents and leaves every entry the pass does not name, including unlisted ones, as it was |
| Copier.CopyRoundTrip | src-tauri/src/commands/checksum.rs:101-176 | for a closed manifest (no entry is the root, and every folder above a listed path is itself listed as a folder) and an order naming every entry, copying a source that passes every check into an empty folder succeeds, and then every listed path of the destination passes `check_file` |
| ManifestParser.IsHeader | src-tauri/src/commands/checksum.rs:186 | the header test: skip whitespace, expect the next header word, repeat, and allow only whitespace after the last; what it accepts is stated by HeaderIsPattern |
| ManifestParser.HeaderIsPattern | src-tauri/src/commands/checksum.rs:186 | the header test succeeds exactly on lines of the form: whitespace, `Size`, whitespace, `Chunks`, whitespace, `File SHA`, whitespace, `Flags Name`, whitespace |
| ManifestParser.ParseDataLine | src-tauri/src/commands/checksum.rs:191-198 | a row is skipped exactly when it is shorter than 70 bytes |
| ManifestParser.AsciiRowFields | src-tauri/src/commands/checksum.rs:195-200 | an ASCII row of at least 70 characters has as its size bytes 0–14 trimmed and parsed, as its hash bytes 22–63 trimmed, and as its name byte 69 onward trimmed, or the parse error |
| ManifestParser.FirstHeader | src-tauri/src/commands/checksum.rs:187-203 | the position found is a header line and no earlier line is one |
| ManifestParser.ParseRowsErrSticks | src-tauri/src/commands/checksum.rs:198 | once a row fails to parse, later rows do not change the outcome |
| ManifestParser.ParseManifestLines | src-tauri/src/commands/checksum.rs:184-206 | the loop with its `after_header` flag gives the model's parse: rows after the first header, the first failing row's error, or the map |
| ManifestParser.GetManifest | src-tauri/src/commands/checksum.rs:184-206 | parsing the fetched text by `lines()` gives the manifest of that text |
| ManifestParser.LastEntry | src-tauri/src/commands/checksum.rs:200 | the position found carries the name and no later row does |
| ManifestParser.RowsOk | src-tauri/src/commands/checksum.rs:189-204 | parsing succeeds iff no row after the header fails |
| ManifestParser.RowsErr | src-tauri/src/commands/checksum.rs:198 | a failure is the error of the first failing row |
| ManifestParser.RowsEntries | src-tauri/src/commands/checksum.rs:200 | a name is in the map iff some row carries it, and its info is that of the last such row |
| ManifestParser.NoHeaderNoEntries | src-tauri/src/commands/checksum.rs:187-203 | text with no header line gives the empty manifest |
| ManifestParser.ManifestRows | src-tauri/src/commands/checksum.rs:187-206 | only the lines after the first header count: success iff none of them fails, and then the entries are the last row per name |
| ManifestParser.ManifestFailure | src-tauri/src/commands/checksum.rs:195-198 | a failing parse reports the error of the first failing row after the header |
| ManifestParser.SkippedRowsIgnored | src-tauri/src/commands/checksum.rs:191-193 | a skipped row can be removed without changing the result |
| ManifestParser.ShortRowIgnored | src-tauri/src/commands/checksum.rs:191-193 | a row shorter than 70 bytes anywhere after the header changes nothing |
| RustText.TrimStartShape | src-tauri/src/commands/checksum.rs:195-197 | `trim_start` removes exactly a whitespace prefix and leaves a string that does not start with whitespace |
| RustText.TrimEndShape | src-tauri/src/commands/checksum.rs:195-197 | `trim_end` removes exactly a whitespace suffix and leaves a string that does not end with whitespace |
| RustText.TrimEnds | src-tauri/src/commands/checksum.rs:195-197 | a trimmed string neither starts nor ends with whitespace |
| RustText.TrimIdempotent | src-tauri/src/commands/checksum.rs:195-197 | trimming twice is trimming once |
| RustText.TrimStripCr | src-tauri/src/utf16le_utils.rs:58 | a line trims to the same string with or without its trailing carriage return |
| RustText.IndexOf | src-tauri/src/commands/checksum.rs:189 | the position found holds the sought character and no earlier one does |
| RustText.Lines | src-tauri/src/commands/checksum.rs:189 | no line of `lines()` contains a line feed |
| RustText.SplitJoin | src-tauri/src/utf16le_utils.rs:81-85 | splitting the `"\n"`-join of lines without line feeds on `'\n'` gives the lines back |
| RustText.JoinSplit | src-tauri/src/utf16le_utils.rs:81-85 | joining the pieces of a split on `'\n'` gives the text back |
| RustText.LinesOfJoin | src-tauri/src/utf16le_utils.rs:81-85 | every line of a joined text is one of the joined lines, less a trailing carriage return |
| RustText.LinesAppendLine | src-tauri/src/utf16le_utils.rs:63 | a line appended after `"\n"` is the last line of the result |
| RustText.ParseU64Spec | src-tauri/src/commands/checksum.rs:198 | `u64::from_str` succeeds iff the text after an optional `+` is a non-empty run of digits of value below 2^64, and then gives that value |
| RustText.CharIndexAtBoundary | src-tauri/src/commands/checksum.rs:195-197 | a byte offset is found exactly when it is a character boundary, the byte length of some prefix; otherwise the slice panics |
| RustText.ByteSlice | src-tauri/src/commands/checksum.rs:195-196 | a slice that succeeds is `b - a` bytes long and starts at the character whose byte offset is `a` |
| RustText.ByteSliceFrom | src-tauri/src/commands/checksum.rs:197 | a slice that succeeds is a suffix of the text starting at the character whose byte offset is `a` |
| RustText.AsciiSlices | src-tauri/src/commands/checksum.rs:195-197 | on ASCII text byte offsets are character offsets, so the byte slices never fail |
| FileSystem.Mkdir | src-tauri/src/commands/checksum.rs:106 | `create_dir` succeeds exactly when the path is new and its parent is a directory, and then adds that one directory; an existing path is `AlreadyExists`; otherwise the error is `NotADirectory` exactly when a regular file stands above the path, and `NotFound` if not |
| FileSystem.CreateDirAll | src-tauri/src/commands/checksum.rs:106 | `create_dir_all`: create the parents first when the parent is missing, and accept an existing directory; its effect is stated by CreateDirAllEffect, CreateDirAllSucceeds and CreateDirAllOverFile |
| FileSystem.CreateDirAllEffect | src-tauri/src/commands/checksum.rs:106 | `create_dir_all` makes the path a directory, keeps every existing entry, and adds only directories along the path |
| FileSystem.CreateDirAllSucceeds | src-tauri/src/commands/checksum.rs:106 | `create_dir_all` succeeds when nothing along the path is a file |
| FileSystem.CreateDirAllOverFile | src-tauri/src/commands/checksum.rs:106 | `create_dir_all` onto an existing file fails |
| FileSystem.CreateFile | src-tauri/src/commands/checksum.rs:118 | `File::create` succeeds exactly when the path is not a directory and its parent is one, and leaves it present and empty, truncating any old contents; a directory path is `IsADirectory`; otherwise the error is `NotADirectory` exactly when a regular file stands above the path, and `NotFound` if not |
| FileSystem.ReadToEnd | src-tauri/src/utf16le_utils.rs:7-9 | reading succeeds exactly on files and gives their bytes; a directory is `IsADirectory`; a missing path is `NotADirectory` when a regular file stands above it, and `NotFound` otherwise |
| FileSystem.FileInTheWay | src-tauri/src/utf16le_utils.rs:7-9 | below the regular file `a`, reading `a/b` and creating `a/b/c` both fail with `NotADirectory` |
| Utf16.EncodeChar | src-tauri/src/utf16le_utils.rs:40 | a character encodes as one non-surrogate unit equal to its scalar value, or as a high and low surrogate pair |
| Utf16.DecodeEncode | src-tauri/src/utf16le_utils.rs:40-66 | decoding the UTF-16 of a string gives the string back |
| Utf16.EncodeDecode | src-tauri/src/utf16le_utils.rs:54-66 | re-encoding decoded units gives the units back |
| Utf16.EncodeAppend | src-tauri/src/utf16le_utils.rs:40-43 | encoding a concatenation is concatenating the encodings |
| Utf16Le.ReadUtf16leFileToU16 | src-tauri/src/utf16le_utils.rs:6-26 | a missing path is `NotADirectory` when a regular file stands above it and `NotFound` otherwise, a directory `IsADirectory`, a file of odd length `InvalidData`; otherwise it succeeds, and writing the units back little-endian gives the file's bytes |
| Utf16Le.UnitsFromLeBytes | src-tauri/src/utf16le_utils.rs:12-23 | an odd byte count is `InvalidData`; otherwise there are half as many units and unit i is byte 2i plus 256 times byte 2i+1 |
| Utf16Le.UnitsOfLeBytes | src-tauri/src/utf16le_utils.rs:20-31 | reading back the little-endian bytes of units gives the units |
| Utf16Le.LeBytesOfUnits | src-tauri/src/utf16le_utils.rs:20-31 | writing the units read from an even byte string gives the bytes back |
| Utf16Le.WriteU16AsUtf16le | src-tauri/src/utf16le_utils.rs:28-34 | the file is created or truncated and then holds each unit as two bytes, low byte first; a create error is passed on |
| Utf16Le.WriteThenRead | src-tauri/src/utf16le_utils.rs:6-34 | reading a file just written gives the written units |
| Utf16Le.AppendUtf16le | src-tauri/src/utf16le_utils.rs:36-47 | a read error is passed on; otherwise the file is rewritten with its units followed by the UTF-16 of the new text |
| Utf16Le.AppendedContents | src-tauri/src/utf16le_utils.rs:36-47 | on a tree whose entries all sit in directories and a file that reads as UTF-16 units, appending succeeds, and the file then reads as the old units plus the new text's units, and valid old text decodes to the old text plus the new text |
| Utf16Le.AddDirective | src-tauri/src/utf16le_utils.rs:49-70 | read and decode errors are passed on; a file with a line trimming to the directive is left unchanged; otherwise it becomes the text, `"\n"`, then the directive |
| Utf16Le.AppendedDirectivePresent | src-tauri/src/utf16le_utils.rs:58-63 | after `format!("{}\n{}")` a single-line trimmed directive is found by the `any` test |
| Utf16Le.AddDirectiveIdempotent | src-tauri/src/utf16le_utils.rs:49-70 | for a non-empty directive on one line with no whitespace at either end, and a tree whose entries all sit in directories, after adding the file holds the directive, and adding it again changes nothing |
| Utf16Le.FilterOrder | src-tauri/src/utf16le_utils.rs:81-84 | the filter keeps exactly the accepted lines, in their original order |
| Utf16Le.FilterMembers | src-tauri/src/utf16le_utils.rs:81-84 | every kept line is an accepted line of the input, and when all lines are accepted all are kept |
| Utf16Le.RemoveDirective | src-tauri/src/utf16le_utils.rs:72-92 | read and decode errors are passed on; otherwise the file is rewritten with the lines that do not trim to the directive, joined by `"\n"` |
| Utf16Le.RemovedLines | src-tauri/src/utf16le_utils.rs:81-85 | the written text splits on `'\n'` into exactly the kept lines, and is empty when none are kept |
| Utf16Le.RemovedEverywhere | src-tauri/src/utf16le_utils.rs:81-85 | no line of the written text trims to the directive |
| Utf16Le.RemoveDirectiveEffect | src-tauri/src/utf16le_utils.rs:72-92 | on a tree whose entries all sit in directories and a file that reads and decodes as UTF-16, the rewrite succeeds, the file decodes to the filtered text, and the directive is no longer present |
| Utf16Le.InvalidTextNotEdited | src-tauri/src/utf16le_utils.rs:54-55 | units that are not valid UTF-16 make both the add and the remove fail with `InvalidData` |

## Left out

- HTTP fetch: the download of the manifest text (`get_manifest` lines 181-182) is left out. The parser starts from the text, since the network cannot be modelled.
- SHA-1: the hash function itself is a parameter. The properties hold for any function from bytes to 20-byte digests.
- Read sizes: how many bytes each operating-system `read` returns is a parameter bounded by the buffer and the remaining bytes. Interrupted or failing reads in the middle of a file are not modelled.
- HashMap order: the iteration order is the parameter `order`. The model does not say which order Rust picks.
- Copier.CopyToFolder: `write_all` and `flush` on the destination file never fail in the model. The modelled errors are those of `create_dir_all`, `File::create` (a missing parent, a directory or a file in the way) and reading the source file.
- I/O errors in general: only `NotFound`, `AlreadyExists`, `IsADirectory`, `NotADirectory` and `InvalidData` are modelled. Permissions, full disks and other OS errors are not. FileSystem.Mkdir, FileSystem.CreateFile and FileSystem.ReadToEnd succeed when the parent is a directory, or the path is present, without walking the rest of the path from the root. On a tree where some entry's parent is missing, which no disk has, they can therefore succeed where the operating system would fail; on every tree whose entries all sit in directories the two agree.
- Verifier.CheckFile: `metadata().size()` is taken to be the length of the file's bytes. A metadata error, or a file that changes between the metadata call and the read, is not modelled.
- Checksum.ChecksumWhile: when the sink fails, the model keeps the sink state from before the failing chunk. The Rust closure's partial effects, such as a write that failed half-way, are not modelled.
- Copier.FilePhaseCopiesAll: this requires a closed manifest. When a listed file's folder is not itself listed (only `a/x`, say), `copy_to_folder` never creates `a`, and `File::create` fails with `NotFound` (checksum.rs line 118); the model does the same, so the lemma does not claim success there.
- Copier.CopyRoundTrip: this requires the same closed manifest, for the same reason, and an order that names every entry.
- Utf16Le.AddDirectiveIdempotent: this requires a directive that is non-empty, already trimmed and on one line. For any other directive, such as `" x"`, no trimmed line ever equals it (utf16le_utils.rs line 58), so every call appends it again, in the model as in the source.
- Utf16Le.AppendedDirectivePresent: this requires a directive that is non-empty, already trimmed and on one line. A directive with surrounding whitespace or a line feed is written but never found again by the `any` test, in the model as in the source.
- Utf16Le.RemoveDirective: the rewrite goes through `lines()`. It therefore turns `"\r\n"` line ends into `"\n"` and drops one trailing line feed. The model reproduces this, and the lemmas state it rather than claiming the other lines are byte-for-byte unchanged.
- Text: Unicode normalisation and case folding are not modelled. Whitespace is the Unicode `White_Space` set that `trim` and the regex `\s` use.
- Panics: a byte slice of a manifest row that falls inside a multi-byte character panics in Rust. It is modelled as the failure `SliceOffCharBoundary`.
- Verifier.CheckFile: a node is a directory or a regular file. A listed file that exists as neither, such as a FIFO, a socket or a device, is not modelled; `check_file` answers `ImpossibleError` for it (checksum.rs lines 164 and 175), and Verifier.CheckErrors states `ImpossibleError` only for the directory case.
- Paths: the model has no symbolic links, absolute paths, `.` or `..` components, or platform path separators. Paths are `/`-separated names relative to a folder root written `""`, and they are compared as strings: the repeated or trailing slashes that Rust's `Path` normalises away (`"a//b"`, `"a/"`) would name other entries than `"a/b"` and `"a"`.
- Copier.CopyToFolder: the source and destination are separate trees. Copying a folder into itself or into an overlapping folder is not modelled.
- ManifestParser.IsHeader: the regex engine is not modelled in general. Only the one header pattern the source uses is.
- Tests: the `tests` module of `checksum.rs` is not part of this model.
- Concurrency: the async runtime around `get_manifest` is left out.
