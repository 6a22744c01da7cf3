/**
 * The part of `std::fs`, `std::path` and the `walkdir` crate that the wrapper
 * relies on, modelled as a value. A filesystem is a finite map from relative
 * paths (one string per component) to nodes; the working directory is the
 * empty path and is never a key. Every operation of the wrapper that touches
 * the disk takes such a map and yields the map it leaves behind.
 */
module FileSystem {

  datatype Option<+T> = None | Some(value: T)

  /** A relative path, one string per component. */
  type Path = seq<string>

  datatype Node = Dir | File(content: seq<char>)

  type FS = map<Path, Node>

  /** Why a filesystem operation stopped early. */
  datatype Error =
    | NotFound(path: Path)          // the path does not exist
    | NotADirectory(path: Path)     // the path exists but is not a directory
    | IoFailure(path: Path)         // creating, writing or removing this path failed
    | DecodeFailure(path: Path)     // the archive at this path could not be opened or decoded
    | NoFileName(path: Path)        // the path has no final component
    | NotUtf8(path: Path)           // the file at this path is not valid UTF-8 and cannot be read as text

  /**
   * What an operation on the filesystem leaves behind: the new state, or the
   * state at the point where it gave up together with the reason; a panic
   * ends the process, so no state is observed after it.
   */
  datatype Outcome = Done(fs: FS) | Failed(fs: FS, error: Error) | Panicked

  predicate IsDir(fs: FS, p: Path) { p in fs && fs[p].Dir? }

  predicate IsFile(fs: FS, p: Path) { p in fs && fs[p].File? }

  function Parent(p: Path): Path
    requires |p| > 0
  {
    p[..|p| - 1]
  }

  /** `Path::file_name`: the final component, if there is one. */
  function FileName(p: Path): Option<string> {
    if |p| == 0 then None else Some(p[|p| - 1])
  }

  /**
   * The shape every real directory tree has: the working directory is not an
   * entry, and every proper ancestor of an entry is a directory entry.
   */
  ghost predicate Wf(fs: FS) {
    && [] !in fs
    && forall p, k {:trigger p[..k], fs[p]} :: p in fs && 1 <= k < |p| ==> IsDir(fs, p[..k])
  }

  /**
   * `fs` and `fs'` agree on every path that is not at or below `c`: nothing
   * outside the subtree rooted at `c` was created, removed or rewritten.
   */
  ghost predicate Confined(fs: FS, fs': FS, c: Path) {
    forall q :: !(c <= q) ==> (q in fs <==> q in fs') && (q in fs ==> fs'[q] == fs[q])
  }

  /** `fs'` keeps every entry of `fs`, and no file became a directory or back. */
  ghost predicate Extends(fs: FS, fs': FS) {
    forall q :: q in fs ==> q in fs' && fs'[q].Dir? == fs[q].Dir?
  }

  // ---------------------------------------------------------------------------
  // Primitive operations, each failing exactly where the operating system does.

  /**
   * `fs::create_dir_all`: creates `p` and every missing ancestor. It fails when
   * `p` or one of its ancestors is a file.
   */
  function CreateDirAll(fs: FS, p: Path): (r: Option<FS>)
    ensures r.Some? <==> forall k :: 1 <= k <= |p| && p[..k] in fs ==> fs[p[..k]].Dir?
    ensures r.Some? ==> forall k :: 1 <= k <= |p| ==> IsDir(r.value, p[..k])
    ensures r.Some? ==> forall q :: q in fs ==> q in r.value && r.value[q] == fs[q]
    ensures r.Some? ==> forall q :: q in r.value && q !in fs ==> 0 < |q| <= |p| && q == p[..|q|]
    decreases |p|
  {
    if |p| == 0 then Some(fs)
    else
      assert p[..|p|] == p;
      assert forall k :: 1 <= k < |p| ==> Parent(p)[..k] == p[..k];
      match CreateDirAll(fs, Parent(p))
      case None => None
      case Some(fs1) =>
        if p in fs1 then (if fs1[p].Dir? then Some(fs1) else None)
        else Some(fs1[p := Dir])
  }

  /** `fs::remove_file`: fails unless `p` is a file. */
  function RemoveFile(fs: FS, p: Path): (r: Option<FS>)
    ensures r.Some? <==> IsFile(fs, p)
    ensures r.Some? ==> r.value == fs - {p}
  {
    if IsFile(fs, p) then Some(fs - {p}) else None
  }

  /** `fs::remove_dir_all`: removes the directory `p` and everything below it. */
  function RemoveDirAll(fs: FS, p: Path): (r: Option<FS>)
    ensures r.Some? <==> IsDir(fs, p)
    ensures r.Some? ==> forall q :: q in r.value <==> q in fs && !(p <= q)
    ensures r.Some? ==> forall q :: q in r.value ==> r.value[q] == fs[q]
  {
    if IsDir(fs, p) then Some(map q | q in fs && !(p <= q) :: fs[q]) else None
  }

  /**
   * Opening `p` for writing with truncation (`fs::write`, `OpenOptions` with
   * `create` and `truncate`, `fs::copy`) and writing `data`. It fails when `p`
   * is a directory or when its parent is not an existing directory.
   */
  function WriteFile(fs: FS, p: Path, data: seq<char>): (r: Option<FS>)
    ensures r.Some? <==> |p| > 0 && !IsDir(fs, p) && (|p| > 1 ==> IsDir(fs, Parent(p)))
    ensures r.Some? ==> r.value == fs[p := File(data)]
  {
    if |p| == 0 || IsDir(fs, p) || (|p| > 1 && !IsDir(fs, Parent(p))) then None
    else Some(fs[p := File(data)])
  }

  // ---------------------------------------------------------------------------
  // Walking a tree with `walkdir`.

  /**
   * `w` is an order in which `WalkDir::new(root)` may yield the entries of
   * `fs`: every path at or below `root` exactly once, parents before children.
   */
  ghost predicate IsWalk(fs: FS, root: Path, w: seq<Path>) {
    && (forall i :: 0 <= i < |w| ==> w[i] in fs && root <= w[i])
    && (forall p :: p in fs && root <= p ==> p in w)
    && (forall i, j :: 0 <= i < j < |w| ==> w[i] != w[j])
    && (forall i, j :: 0 <= i < |w| && 0 <= j < |w| && w[i] < w[j] ==> i < j)
  }

  /** The order of a walk is not modelled: it is an oracle. */
  type Walker = (FS, Path) -> seq<Path>

  ghost predicate WalkerOk(walker: Walker) {
    forall fs, root :: root in fs ==> IsWalk(fs, root, walker(fs, root))
  }

  // ---------------------------------------------------------------------------
  // Path names.

  /** `char::to_ascii_lowercase` over a string. */
  function AsciiLower(s: string): (r: string)
    ensures |r| == |s|
  {
    if s == [] then []
    else [if 'A' <= s[0] <= 'Z' then (s[0] as int + 32) as char else s[0]] + AsciiLower(s[1..])
  }

  /** Lowercasing twice is lowercasing once. */
  lemma {:induction false} AsciiLowerIdempotent(s: string)
    ensures AsciiLower(AsciiLower(s)) == AsciiLower(s)
    decreases |s|
  {
    if s != [] {
      AsciiLowerIdempotent(s[1..]);
      assert AsciiLower(s)[1..] == AsciiLower(s[1..]);
    }
  }

  /** Index of the last `.` in `s`, if any. */
  function LastDot(s: string): (r: Option<nat>)
    ensures r.Some? ==> r.value < |s| && s[r.value] == '.'
  {
    if s == [] then None
    else if s[|s| - 1] == '.' then Some(|s| - 1)
    else LastDot(s[..|s| - 1])
  }

  /**
   * `Path::extension` of a file name: the text after the last `.`, except that
   * `..` and names whose only `.` is the first character have none.
   */
  function Extension(name: string): Option<string> {
    if name == ".." then None
    else match LastDot(name)
      case None => None
      case Some(i) => if i == 0 then None else Some(name[i + 1..])
  }

  /** `path.extension()` of a whole path. */
  function PathExtension(p: Path): Option<string> {
    match FileName(p)
    case None => None
    case Some(n) => Extension(n)
  }

  // ---------------------------------------------------------------------------
  // The primitives keep the tree shape and touch only the paths they name.

  lemma CreateDirAllKeepsWf(fs: FS, p: Path)
    requires Wf(fs) && CreateDirAll(fs, p).Some?
    ensures Wf(CreateDirAll(fs, p).value)
  {
    var r := CreateDirAll(fs, p).value;
    forall q, k | q in r && 1 <= k < |q| ensures IsDir(r, q[..k]) {
      if q in fs {
        assert IsDir(fs, q[..k]);
      } else {
        assert q == p[..|q|];
        assert q[..k] == p[..k];
      }
    }
  }

  lemma WriteFileKeepsWf(fs: FS, p: Path, data: seq<char>)
    requires Wf(fs) && WriteFile(fs, p, data).Some?
    ensures Wf(WriteFile(fs, p, data).value)
  {
    var r := WriteFile(fs, p, data).value;
    forall q, k | q in r && 1 <= k < |q| ensures IsDir(r, q[..k]) {
      if q == p {
        assert q[..k] == Parent(p)[..k];
        if k < |p| - 1 {
          assert IsDir(fs, Parent(p)[..k]);
        }
        assert q[..k] != p;
      } else {
        assert IsDir(fs, q[..k]);
        // a directory entry `q[..k]` cannot be the path just written: `p` is not a directory
        assert q[..k] != p;
      }
    }
  }

  lemma RemoveFileKeepsWf(fs: FS, p: Path)
    requires Wf(fs) && RemoveFile(fs, p).Some?
    ensures Wf(RemoveFile(fs, p).value)
  {
    var r := RemoveFile(fs, p).value;
    forall q, k | q in r && 1 <= k < |q| ensures IsDir(r, q[..k]) {
      assert IsDir(fs, q[..k]);
    }
  }

  lemma RemoveDirAllKeepsWf(fs: FS, p: Path)
    requires Wf(fs) && RemoveDirAll(fs, p).Some?
    ensures Wf(RemoveDirAll(fs, p).value)
  {
    var r := RemoveDirAll(fs, p).value;
    forall q, k | q in r && 1 <= k < |q| ensures IsDir(r, q[..k]) {
      assert IsDir(fs, q[..k]);
    }
  }

  /** Creating directories below an existing directory `c` changes nothing outside `c`. */
  lemma CreateDirAllConfined(fs: FS, p: Path, c: Path)
    requires Wf(fs) && IsDir(fs, c) && c <= p && CreateDirAll(fs, p).Some?
    ensures Confined(fs, CreateDirAll(fs, p).value, c)
    ensures Extends(fs, CreateDirAll(fs, p).value)
  {
    var r := CreateDirAll(fs, p).value;
    forall q | !(c <= q) && q in r ensures q in fs {
      if 0 < |q| <= |p| && q == p[..|q|] {
        if |q| < |c| {
          assert q == c[..|q|];
          assert IsDir(fs, c[..|q|]);
        }
      }
    }
  }

  /** Creating a directory whose parent exists adds that directory and nothing else. */
  lemma CreateDirAllUnderDir(fs: FS, p: Path)
    requires Wf(fs) && |p| > 0 && (|p| > 1 ==> IsDir(fs, Parent(p))) && CreateDirAll(fs, p).Some?
    ensures Confined(fs, CreateDirAll(fs, p).value, p)
    ensures Extends(fs, CreateDirAll(fs, p).value)
  {
    var r := CreateDirAll(fs, p).value;
    forall q | !(p <= q) && q in r ensures q in fs {
      if 0 < |q| < |p| - 1 && q == p[..|q|] {
        assert q == Parent(p)[..|q|];
      }
    }
  }

  /** `q` lies on the way to `p` or below it: one of the two is a prefix of the other. */
  predicate Around(p: Path, q: Path) {
    q <= p || p <= q
  }

  /**
   * `fs` and `fs'` agree on every path that is neither an ancestor of `p`,
   * nor `p`, nor below it: an operation aimed at `p` changed nothing else.
   */
  ghost predicate ChangedAround(fs: FS, fs': FS, p: Path) {
    forall q :: !Around(p, q) ==> (q in fs <==> q in fs') && (q in fs ==> fs'[q] == fs[q])
  }

  /** Creating the directories of a path around `p` only adds paths around `p`. */
  lemma CreateDirAllAround(fs: FS, t: Path, p: Path)
    requires Around(p, t) && CreateDirAll(fs, t).Some?
    ensures ChangedAround(fs, CreateDirAll(fs, t).value, p)
  {
    var r := CreateDirAll(fs, t).value;
    forall q | q in r && q !in fs ensures Around(p, q) {
      if |q| <= |p| {
        assert q == t[..|q|];
        if |t| <= |p| {
          assert q == p[..|q|];
        } else {
          assert q == p[..|q|] by { assert p == t[..|p|]; }
        }
      } else if p <= t {
        assert p == t[..|p|];
        assert p == q[..|p|];
      }
    }
  }

  /** Two prefixes of the same path are around each other. */
  lemma PrefixesAround(p: Path, t: Path, u: Path)
    requires p <= u && t <= u
    ensures Around(p, t)
  {
    if |p| <= |t| {
      assert p == u[..|p|] == t[..|p|];
    } else {
      assert t == u[..|t|] == p[..|t|];
    }
  }

  lemma ChangedAroundTransitive(a: FS, b: FS, c: FS, p: Path)
    requires ChangedAround(a, b, p) && ChangedAround(b, c, p)
    ensures ChangedAround(a, c, p)
  {
  }

  lemma ExtendsTransitive(a: FS, b: FS, c: FS)
    requires Extends(a, b) && Extends(b, c)
    ensures Extends(a, c)
  {
  }

  lemma ConfinedTransitive(a: FS, b: FS, c: FS, root: Path)
    requires Confined(a, b, root) && Confined(b, c, root)
    ensures Confined(a, c, root)
  {
  }
}
