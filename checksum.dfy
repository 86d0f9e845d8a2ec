/**
 * `calculate_checksum_while`: read a file through an 8192-byte buffer, hand
 * every chunk (and finally the empty chunk of end of file) to a caller's sink,
 * and hash what was read. SHA-1 itself and the sizes the operating system
 * chooses for each `read` are parameters of the model.
 */
module Checksum {
  import opened Results
  import opened Bytes
  import opened FileSystem
  import opened Manifest

  const BUFFER_SIZE: nat := 8192

  /**
   * How many bytes one `read` into the buffer returns: the size the system
   * picks (`readSize` of the offset), kept between 1 and what fits and
   * remains; 0 exactly at end of file.
   */
  function ReadLen(readSize: nat -> nat, pos: nat, remaining: nat): (n: nat)
    ensures n == 0 <==> remaining == 0
    ensures n <= remaining && n <= BUFFER_SIZE
  {
    var cap := if remaining < BUFFER_SIZE then remaining else BUFFER_SIZE;
    if 1 <= readSize(pos) <= cap then readSize(pos) else cap
  }

  /** The chunks successive reads produce from offset `pos` on, ending with the empty read at end of file (`ChunksTile`). */
  function Chunks(readSize: nat -> nat, data: Bytes, pos: nat): (cs: seq<Bytes>)
    requires pos <= |data|
    ensures |cs| >= 1
    decreases |data| - pos
  {
    var n := ReadLen(readSize, pos, |data| - pos);
    if n == 0 then [[]] else [data[pos..pos + n]] + Chunks(readSize, data, pos + n)
  }

  function Concat(cs: seq<Bytes>): Bytes {
    if cs == [] then [] else cs[0] + Concat(cs[1..])
  }

  /**
   * The chunks tile the rest of the file: every chunk but the last holds
   * between 1 and 8192 bytes, the last is empty, and together they are the data.
   */
  lemma ChunksTile(readSize: nat -> nat, data: Bytes, pos: nat)
    requires pos <= |data|
    ensures var cs := Chunks(readSize, data, pos);
      && Concat(cs) == data[pos..]
      && cs[|cs| - 1] == []
      && (forall k :: 0 <= k < |cs| - 1 ==> 1 <= |cs[k]| <= BUFFER_SIZE)
  {
    ChunksConcat(readSize, data, pos);
    ChunksLast(readSize, data, pos);
    ChunksSizes(readSize, data, pos);
  }

  lemma {:induction false} ChunksLast(readSize: nat -> nat, data: Bytes, pos: nat)
    requires pos <= |data|
    ensures var cs := Chunks(readSize, data, pos); cs[|cs| - 1] == []
    decreases |data| - pos
  {
    var n := ReadLen(readSize, pos, |data| - pos);
    ChunksStep(readSize, data, pos);
    if n != 0 {
      ChunksLast(readSize, data, pos + n);
      var cs := Chunks(readSize, data, pos);
      assert cs[|cs| - 1] == cs[1..][|cs| - 2];
    }
  }

  lemma {:induction false} ChunksConcat(readSize: nat -> nat, data: Bytes, pos: nat)
    requires pos <= |data|
    ensures Concat(Chunks(readSize, data, pos)) == data[pos..]
    decreases |data| - pos
  {
    var n := ReadLen(readSize, pos, |data| - pos);
    ChunksStep(readSize, data, pos);
    if n == 0 {
      ConcatCons(Chunks(readSize, data, pos), [], []);
      assert data[pos..] == [];
    } else {
      ChunksConcat(readSize, data, pos + n);
      ConcatCons(Chunks(readSize, data, pos), data[pos..pos + n], data[pos + n..]);
      SliceSplit(data, pos, pos + n);
    }
  }

  lemma ConcatCons(cs: seq<Bytes>, a: Bytes, b: Bytes)
    requires cs != [] && cs[0] == a && Concat(cs[1..]) == b
    ensures Concat(cs) == a + b
  {
  }

  lemma PrefixGrows(data: Bytes, pos: nat, n: nat)
    requires pos + n <= |data|
    ensures data[..pos + n] == data[..pos] + data[pos..pos + n]
  {
  }

  lemma SliceSplit(data: Bytes, i: nat, j: nat)
    requires i <= j <= |data|
    ensures data[i..] == data[i..j] + data[j..]
  {
  }

  lemma {:induction false} ChunksSizes(readSize: nat -> nat, data: Bytes, pos: nat)
    requires pos <= |data|
    ensures var cs := Chunks(readSize, data, pos);
      forall k :: 0 <= k < |cs| - 1 ==> 1 <= |cs[k]| <= BUFFER_SIZE
    decreases |data| - pos
  {
    var n := ReadLen(readSize, pos, |data| - pos);
    if n != 0 {
      var rest := Chunks(readSize, data, pos + n);
      ChunksSizes(readSize, data, pos + n);
      var cs := Chunks(readSize, data, pos);
      ChunksStep(readSize, data, pos);
      assert cs[1..] == rest;
      forall k | 0 <= k < |cs| - 1 ensures 1 <= |cs[k]| <= BUFFER_SIZE {
        if k > 0 {
          assert cs[k] == rest[k - 1];
        } else {
          assert |cs[0]| == n;
        }
      }
    }
  }

  /** What feeding the chunks to a sink leaves: its state, and the failure that stopped it, if any. */
  datatype Fed<S> = Fed(state: S, failure: Option<Failure>)

  /** The sink gets the chunks one by one; its first failure stops the feeding. */
  function Feed<S>(process: (S, Bytes) -> Result<S, Failure>, s: S, cs: seq<Bytes>): Fed<S> {
    if cs == [] then Fed(s, None)
    else
      match process(s, cs[0])
      case Err(f) => Fed(s, Some(f))
      case Ok(s') => Feed(process, s', cs[1..])
  }

  /** What `calculate_checksum_while` returns, together with the final state of the sink. */
  datatype Checked<S> = Checked(result: Result<string, Failure>, state: S)

  /**
   * The file is opened and read to its end, every chunk handed to the sink;
   * a failure of the file or of the sink is the result; otherwise the result
   * is the upper-case hexadecimal SHA-1 of the file's bytes.
   */
  function ChecksumWhileOf<S>(fs: Tree, path: Path, sha1: Bytes -> Digest, readSize: nat -> nat,
                              process: (S, Bytes) -> Result<S, Failure>, s0: S): Checked<S>
  {
    match ReadToEnd(fs, path)
    case Err(e) => Checked(Err(IoFailure(e)), s0)
    case Ok(data) => Outcome(Feed(process, s0, Chunks(readSize, data, 0)), sha1(data))
  }

  /** The sink's failure, if it failed; otherwise the digest in upper-case hexadecimal. */
  function Outcome<S>(fed: Fed<S>, digest: Digest): Checked<S> {
    match fed.failure
    case Some(f) => Checked(Err(f), fed.state)
    case None => Checked(Ok(HexUpper(digest)), fed.state)
  }

  /** One `file.read(&mut buffer)`: the next bytes of the file land at the front of the buffer. */
  method ReadChunk(buffer: array<uint8>, data: Bytes, pos: nat, readSize: nat -> nat) returns (n: nat)
    requires buffer.Length == BUFFER_SIZE && pos <= |data|
    modifies buffer
    ensures n == ReadLen(readSize, pos, |data| - pos)
    ensures buffer[..n] == data[pos..pos + n]
    ensures buffer[n..] == old(buffer[n..])
  {
    n := ReadLen(readSize, pos, |data| - pos);
    var i := 0;
    while i < n
      invariant 0 <= i <= n
      invariant forall j :: 0 <= j < i ==> buffer[j] == data[pos + j]
      invariant forall j :: n <= j < buffer.Length ==> buffer[j] == old(buffer[j])
    {
      buffer[i] := data[pos + i];
      i := i + 1;
    }
    assert buffer[..n] == data[pos..pos + n];
    assert buffer[n..] == old(buffer[n..]);
  }

  /** The first chunk from `pos` is the next read; after it come the chunks from the following offset, or nothing at end of file. */
  lemma ChunksStep(readSize: nat -> nat, data: Bytes, pos: nat)
    requires pos <= |data|
    ensures var cs := Chunks(readSize, data, pos);
      var n := ReadLen(readSize, pos, |data| - pos);
      && cs[0] == data[pos..pos + n]
      && cs[1..] == if n == 0 then [] else Chunks(readSize, data, pos + n)
  {
    var n := ReadLen(readSize, pos, |data| - pos);
    if n == 0 {
      assert data[pos..pos] == [];
    }
  }

  /** One turn of the read loop, said of the chunks still to come from `pos`. */
  lemma FeedNext<S>(process: (S, Bytes) -> Result<S, Failure>, s: S, readSize: nat -> nat, data: Bytes, pos: nat)
    requires pos <= |data|
    ensures var n := ReadLen(readSize, pos, |data| - pos);
      var r := process(s, data[pos..pos + n]);
      var fed := Feed(process, s, Chunks(readSize, data, pos));
      && (r.Err? ==> fed == Fed(s, Some(r.error)))
      && (r.Ok? && n == 0 ==> fed == Fed(r.value, None))
      && (r.Ok? && n != 0 ==> fed == Feed(process, r.value, Chunks(readSize, data, pos + n)))
  {
    ChunksStep(readSize, data, pos);
    FeedStep(process, s, Chunks(readSize, data, pos));
  }

  /** Feeding a chunk: a failure stops with the state unchanged; otherwise the rest is fed to the new state. */
  lemma FeedStep<S>(process: (S, Bytes) -> Result<S, Failure>, s: S, cs: seq<Bytes>)
    requires cs != []
    ensures process(s, cs[0]).Err? ==> Feed(process, s, cs) == Fed(s, Some(process(s, cs[0]).error))
    ensures process(s, cs[0]).Ok? ==> Feed(process, s, cs) == Feed(process, process(s, cs[0]).value, cs[1..])
  {
  }

  /**
   * `calculate_checksum_while`: the sink sees each chunk before it is hashed
   * and is called once more with the empty chunk at end of file; the hasher
   * is modelled by the bytes it was given, digested at the end.
   */
  method ChecksumWhile<S>(fs: Tree, path: Path, sha1: Bytes -> Digest, readSize: nat -> nat,
                          process: (S, Bytes) -> Result<S, Failure>, s0: S)
    returns (result: Result<string, Failure>, state: S)
    ensures Checked(result, state) == ChecksumWhileOf(fs, path, sha1, readSize, process, s0)
  {
    var file := ReadToEnd(fs, path);
    if file.Err? {
      return Err(IoFailure(file.error)), s0;
    }
    var data := file.value;
    var hashed: Bytes := [];
    var buffer := new uint8[BUFFER_SIZE](_ => 0);
    var pos: nat := 0;
    state := s0;
    ghost var total := Feed(process, s0, Chunks(readSize, data, 0));
    while true
      invariant pos <= |data| && hashed == data[..pos]
      invariant total == Feed(process, state, Chunks(readSize, data, pos))
      decreases |data| - pos
    {
      var bytesRead := ReadChunk(buffer, data, pos, readSize);
      var chunk := buffer[..bytesRead];
      FeedNext(process, state, readSize, data, pos);
      var processed := process(state, chunk);
      if processed.Err? {
        return Err(processed.error), state;
      }
      state := processed.value;
      if bytesRead == 0 {
        assert pos == |data|;
        break;
      }
      PrefixGrows(data, pos, bytesRead);
      hashed := hashed + chunk;
      pos := pos + bytesRead;
    }
    assert hashed == data;
    result := Ok(HexUpper(sha1(hashed)));
  }

  /** The sink of `calculate_checksum`: accept every chunk. */
  function Discard(u: (), chunk: Bytes): Result<(), Failure> {
    Ok(())
  }

  /** The checksum of a file: its upper-case hexadecimal SHA-1, or why it cannot be read. */
  function ChecksumOf(fs: Tree, path: Path, sha1: Bytes -> Digest): Result<string, Failure> {
    match ReadToEnd(fs, path)
    case Err(e) => Err(IoFailure(e))
    case Ok(data) => Ok(HexUpper(sha1(data)))
  }

  /** A sink that never fails. */
  ghost predicate NeverFails<S(!new)>(process: (S, Bytes) -> Result<S, Failure>) {
    forall s, c :: process(s, c).Ok?
  }

  lemma {:induction false} FeedNeverFails<S(!new)>(process: (S, Bytes) -> Result<S, Failure>, s: S, cs: seq<Bytes>)
    requires NeverFails(process)
    ensures Feed(process, s, cs).failure.None?
  {
    if cs != [] {
      FeedNeverFails(process, process(s, cs[0]).value, cs[1..]);
    }
  }

  /** A sink that never fails cannot change the checksum, however the reads are cut. */
  lemma ChecksumIgnoresSink<S(!new)>(fs: Tree, path: Path, sha1: Bytes -> Digest, readSize: nat -> nat,
                               process: (S, Bytes) -> Result<S, Failure>, s0: S)
    requires NeverFails(process)
    ensures ChecksumWhileOf(fs, path, sha1, readSize, process, s0).result == ChecksumOf(fs, path, sha1)
  {
    if ReadToEnd(fs, path).Ok? {
      FeedNeverFails(process, s0, Chunks(readSize, ReadToEnd(fs, path).value, 0));
    }
  }

  /** `calculate_checksum`: the checksum with a sink that accepts everything. */
  method CalculateChecksum(fs: Tree, path: Path, sha1: Bytes -> Digest, readSize: nat -> nat)
    returns (r: Result<string, Failure>)
    ensures r == ChecksumOf(fs, path, sha1)
  {
    var u;
    r, u := ChecksumWhile(fs, path, sha1, readSize, Discard, ());
    ChecksumIgnoresSink(fs, path, sha1, readSize, Discard, ());
  }

  /** Chunks after the one the sink rejects are never handed to it. */
  lemma {:induction false} FeedStops<S>(process: (S, Bytes) -> Result<S, Failure>, s: S, a: seq<Bytes>, b: seq<Bytes>)
    requires Feed(process, s, a).failure.Some?
    ensures Feed(process, s, a + b) == Feed(process, s, a)
  {
    assert a != [];
    assert (a + b)[0] == a[0];
    match process(s, a[0])
    case Err(_) =>
    case Ok(s') =>
      assert (a + b)[1..] == a[1..] + b;
      FeedStops(process, s', a[1..], b);
  }

  /** The sink that keeps every chunk it is given. */
  function Record(seen: seq<Bytes>, chunk: Bytes): Result<seq<Bytes>, Failure> {
    Ok(seen + [chunk])
  }

  lemma {:induction false} FeedRecords(seen: seq<Bytes>, cs: seq<Bytes>)
    ensures Feed(Record, seen, cs) == Fed(seen + cs, None)
    decreases |cs|
  {
    if cs == [] {
      assert seen + cs == seen;
    } else {
      FeedRecords(seen + [cs[0]], cs[1..]);
      assert seen + [cs[0]] + cs[1..] == seen + cs;
    }
  }

  /**
   * The sink is handed exactly the chunks of the whole file, in order, ending
   * with the empty chunk: what it sees, concatenated, is the file.
   */
  lemma SinkSeesFile(fs: Tree, path: Path, sha1: Bytes -> Digest, readSize: nat -> nat)
    requires ReadToEnd(fs, path).Ok?
    ensures var seen := ChecksumWhileOf(fs, path, sha1, readSize, Record, []).state;
      && seen == Chunks(readSize, ReadToEnd(fs, path).value, 0)
      && Concat(seen) == ReadToEnd(fs, path).value
      && seen[|seen| - 1] == []
      && (forall k :: 0 <= k < |seen| - 1 ==> 1 <= |seen[k]| <= BUFFER_SIZE)
  {
    var data := ReadToEnd(fs, path).value;
    var cs := Chunks(readSize, data, 0);
    FeedRecords([], cs);
    assert [] + cs == cs;
    assert Feed(Record, [], cs) == Fed(cs, None);
    assert ChecksumWhileOf(fs, path, sha1, readSize, Record, []) == Checked(Ok(HexUpper(sha1(data))), cs);
    ChunksTile(readSize, data, 0);
    assert data[0..] == data;
  }
}
