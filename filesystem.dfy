/**
 * An abstract file system: a tree seen from a root directory, mapping each
 * relative path (components separated by `/`, the root itself being "") to a
 * directory or to a regular file and its bytes. The operations model the
 * `std::fs` calls the core makes: `File::open` + `read`, `File::create`,
 * `create_dir` and `create_dir_all`.
 */
module FileSystem {
  import opened Results
  import opened Bytes

  type Path = string

  datatype Node = Dir | File(data: Bytes)

  type Tree = map<Path, Node>

  /** The `std::io::ErrorKind`s these calls produce. */
  datatype IoError = NotFound | AlreadyExists | IsADirectory | NotADirectory | InvalidData

  function LastSlash(p: Path, k: nat): (r: Option<nat>)
    requires k <= |p|
    ensures r.Some? ==> r.value < k && p[r.value] == '/'
    decreases k
  {
    if k == 0 then None else if p[k - 1] == '/' then Some(k - 1) else LastSlash(p, k - 1)
  }

  /** `Path::parent`, relative to the root: "a/b" has parent "a", "a" has parent "", the root has none. */
  function Parent(p: Path): (r: Option<Path>)
    ensures r.None? <==> p == ""
    ensures r.Some? ==> |r.value| < |p|
  {
    if p == "" then None
    else
      match LastSlash(p, |p|)
      case None => Some("")
      case Some(i) => Some(p[..i])
  }

  /** `p` and every directory above it, up to and including the root. */
  function Chain(p: Path): (c: set<Path>)
    ensures p in c && "" in c
    decreases |p|
  {
    match Parent(p)
    case None => {p}
    case Some(q) => {p} + Chain(q)
  }

  predicate IsDir(t: Tree, p: Path) {
    p in t && t[p] == Dir
  }

  /** Some directory above `p` is a regular file, so that looking `p` up fails with `ENOTDIR`. */
  ghost predicate FileOnWay(t: Tree, p: Path) {
    exists q :: q in Chain(p) && q != p && q in t && t[q].File?
  }

  /** The test the path lookup makes, walking up from the parent of `p`. */
  function FileAbove(t: Tree, p: Path): (b: bool)
    ensures b <==> FileOnWay(t, p)
    decreases |p|
  {
    match Parent(p)
    case None => false
    case Some(q) => FileAboveStep(t, p, q); (q in t && t[q].File?) || FileAbove(t, q)
  }

  /** The directories above `p` are its parent and the directories above that. */
  lemma FileAboveStep(t: Tree, p: Path, q: Path)
    requires Parent(p) == Some(q)
    ensures FileOnWay(t, p) <==> (q in t && t[q].File?) || FileOnWay(t, q)
  {
    assert Chain(p) == {p} + Chain(q);
    assert p !in Chain(q) by {
      ChainShorter(q, p);
    }
    if FileOnWay(t, p) {
      var r :| r in Chain(p) && r != p && r in t && t[r].File?;
      if r != q {
        assert r in Chain(q) && r != q;
      }
    }
  }

  /** Every path of `Chain(p)` is at most as long as `p`. */
  lemma {:induction false} ChainShorter(p: Path, x: Path)
    requires |x| > |p|
    ensures x !in Chain(p)
    decreases |p|
  {
    match Parent(p)
    case None =>
    case Some(q) => ChainShorter(q, x);
  }

  /** The error of a lookup that reaches a missing parent: `ENOTDIR` when a file is in the way, `ENOENT` otherwise. */
  function Missing(t: Tree, p: Path): (e: IoError)
    ensures e == NotADirectory <==> FileOnWay(t, p)
    ensures e == NotFound <==> !FileOnWay(t, p)
  {
    if FileAbove(t, p) then NotADirectory else NotFound
  }

  /** `std::fs::create_dir`: the parent must be an existing directory and `p` must not exist. */
  function Mkdir(t: Tree, p: Path): (r: Result<Tree, IoError>)
    ensures r.Ok? <==> p !in t && (p == "" || IsDir(t, Parent(p).value))
    ensures r.Ok? ==> r.value == t[p := Dir]
    ensures p in t ==> r == Err(AlreadyExists)
    ensures p !in t && r.Err? ==> r == Err(NotADirectory) || r == Err(NotFound)
    ensures p !in t && r.Err? ==> (r == Err(NotADirectory) <==> FileOnWay(t, p))
  {
    if p in t then Err(AlreadyExists)
    else
      match Parent(p)
      case None => Ok(t[p := Dir])
      case Some(q) =>
        if IsDir(t, q) then Ok(t[p := Dir])
        else Err(Missing(t, p))
  }

  /**
   * `std::fs::create_dir_all`: try `create_dir`; when the parent is missing,
   * create the parent first and try again; an existing directory is success.
   */
  function CreateDirAll(t: Tree, p: Path): Result<Tree, IoError>
    decreases |p|
  {
    match Mkdir(t, p)
    case Ok(t1) => Ok(t1)
    case Err(NotFound) =>
      (match Parent(p)
       case None => Err(NotFound)
       case Some(q) =>
         match CreateDirAll(t, q)
         case Err(e) => Err(e)
         case Ok(t2) =>
           match Mkdir(t2, p)
           case Ok(t3) => Ok(t3)
           case Err(e) => if IsDir(t2, p) then Ok(t2) else Err(e))
    case Err(e) => if IsDir(t, p) then Ok(t) else Err(e)
  }

  /** `File::create`: create `p` as an empty file or truncate the existing one. */
  function CreateFile(t: Tree, p: Path): (r: Result<Tree, IoError>)
    ensures r.Ok? <==> !IsDir(t, p) && (p == "" || IsDir(t, Parent(p).value))
    ensures r.Ok? ==> r.value == t[p := File([])]
    ensures IsDir(t, p) ==> r == Err(IsADirectory)
    ensures r.Err? && !IsDir(t, p) ==> r == Err(NotADirectory) || r == Err(NotFound)
    ensures !IsDir(t, p) ==> (r == Err(NotADirectory) <==> FileOnWay(t, p) && !IsDir(t, Parent(p).value))
  {
    if IsDir(t, p) then Err(IsADirectory)
    else
      match Parent(p)
      case None => Ok(t[p := File([])])
      case Some(q) =>
        if IsDir(t, q) then Ok(t[p := File([])])
        else Err(Missing(t, p))
  }

  /** Below a regular file, opening and creating fail with `ENOTDIR`, not `ENOENT`. */
  lemma FileInTheWay()
    ensures var t: Tree := map["" := Dir, "a" := File([1])];
      ReadToEnd(t, "a/b") == Err(NotADirectory) && CreateFile(t, "a/b/c") == Err(NotADirectory)
  {
    var t: Tree := map["" := Dir, "a" := File([1])];
    assert LastSlash("a/b", 2) == Some(1);
    assert LastSlash("a/b", 3) == Some(1);
    assert "a/b"[..1] == "a";
    assert Parent("a/b") == Some("a");
    assert "a" in Chain("a/b");
    assert LastSlash("a/b/c", 4) == Some(3);
    assert LastSlash("a/b/c", 5) == Some(3);
    assert "a/b/c"[..3] == "a/b";
    assert Parent("a/b/c") == Some("a/b");
    assert "a" in Chain("a/b/c");
  }

  /** `File::open` followed by reading to the end: a directory opens but cannot be read. */
  function ReadToEnd(t: Tree, p: Path): (r: Result<Bytes, IoError>)
    ensures r.Ok? <==> p in t && t[p].File?
    ensures r.Ok? ==> r.value == t[p].data
    ensures p in t && t[p].Dir? ==> r == Err(IsADirectory)
    ensures p !in t ==> (r == Err(NotADirectory) <==> FileOnWay(t, p))
    ensures p !in t ==> (r == Err(NotFound) <==> !FileOnWay(t, p))
  {
    if p !in t then Err(Missing(t, p))
    else if t[p].Dir? then Err(IsADirectory)
    else Ok(t[p].data)
  }

  /**
   * What `create_dir_all` does when it succeeds: `p` is a directory, nothing
   * that existed changes, and everything new is a directory on the way from
   * the root to `p`.
   */
  lemma {:induction false} CreateDirAllEffect(t: Tree, p: Path)
    ensures CreateDirAll(t, p).Ok? ==>
      var t' := CreateDirAll(t, p).value;
      && IsDir(t', p)
      && t.Keys <= t'.Keys <= t.Keys + Chain(p)
      && (forall q :: q in t ==> t'[q] == t[q])
      && (forall q :: q in t' && q !in t ==> t'[q] == Dir)
    decreases |p|
  {
    match Parent(p)
    case None =>
    case Some(q) =>
      CreateDirAllEffect(t, q);
  }

  /** `create_dir_all` succeeds whenever no file stands on the way from the root to `p`. */
  lemma {:induction false} CreateDirAllSucceeds(t: Tree, p: Path)
    requires forall q :: q in Chain(p) && q in t ==> t[q] == Dir
    ensures CreateDirAll(t, p).Ok?
    decreases |p|
  {
    match Parent(p)
    case None =>
    case Some(q) =>
      if p !in t && q !in t {
        CreateDirAllSucceeds(t, q);
        CreateDirAllEffect(t, q);
      }
  }

  /** `create_dir_all` fails when `p` itself is an existing file. */
  lemma CreateDirAllOverFile(t: Tree, p: Path)
    requires p in t && t[p].File?
    ensures CreateDirAll(t, p).Err?
  {
  }
}
