/**
 * The tree helpers of the wrapper: extracting the submissions archive,
 * copying additional submission directories in, removing macOS metadata and
 * spelling out diacritics in Java sources.
 */
module Helper {
  import opened FileSystem
  import opened Archives
  import opened Transliteration

  // ---------------------------------------------------------------------------
  // unzip_to

  /** What `unzip_to(zip, dest)` does to `fs`. */
  function UnzipSpec(fs: FS, zip: Path, dest: Path, codec: Codec): Outcome {
    match Open(fs, zip, codec)
    case Unreadable => Failed(fs, DecodeFailure(zip))
    case Listing(es, complete) => Unpack(fs, dest, es, complete, ZipStyle, zip)
  }

  /**
   * Opens the archive, then writes its entries one by one below `dest`: a
   * directory entry is created with its ancestors, a file entry gets its parent
   * created if missing and is then written with truncation. A name that is not
   * enclosed in `dest` panics.
   */
  method UnzipTo(fs: FS, zip: Path, dest: Path, codec: Codec) returns (r: Outcome)
    ensures r == UnzipSpec(fs, zip, dest, codec)
  {
    var listing := Open(fs, zip, codec);
    if listing.Unreadable? {
      return Failed(fs, DecodeFailure(zip));
    }
    var es := listing.entries;
    var cur := fs;
    for i := 0 to |es|
      invariant Unpack(cur, dest, es[i..], listing.complete, ZipStyle, zip) == UnzipSpec(fs, zip, dest, codec)
    {
      assert es[i..][1..] == es[i + 1..];
      var e := es[i];
      if e.name.None? {
        return Panicked;
      }
      var out := dest + e.name.value;
      if e.isDir {
        var made := CreateDirAll(cur, out);
        if made.None? {
          return Failed(cur, IoFailure(out));
        }
        cur := made.value;
      } else {
        if |out| == 0 {
          return Failed(cur, IoFailure(out));
        }
        if Parent(out) !in cur {
          var made := CreateDirAll(cur, Parent(out));
          if made.None? {
            return Failed(cur, IoFailure(Parent(out)));
          }
          cur := made.value;
        }
        var written := WriteFile(cur, out, e.data);
        if written.None? {
          return Failed(cur, IoFailure(out));
        }
        cur := written.value;
      }
    }
    if !listing.complete {
      return Failed(cur, DecodeFailure(zip));
    }
    return Done(cur);
  }

  /** An archive that cannot be opened or parsed leaves the tree untouched. */
  lemma UnzipUnreadable(fs: FS, zip: Path, dest: Path, codec: Codec)
    requires !IsFile(fs, zip) || codec(fs[zip].content).Unreadable?
    ensures UnzipSpec(fs, zip, dest, codec) == Failed(fs, DecodeFailure(zip))
  {
  }

  // ---------------------------------------------------------------------------
  // add_subs

  /**
   * The walk loop of `add_subs` for one directory: a walked directory is
   * created at `tmp + p` with its ancestors, anything else is copied there with
   * `fs::copy`, which fails unless `p` is a file.
   */
  function CopyWalk(fs: FS, tmp: Path, w: seq<Path>): (r: Outcome)
    ensures !r.Panicked?
    decreases |w|
  {
    if w == [] then Done(fs)
    else
      var p := w[0];
      var target := tmp + p;
      if IsDir(fs, p) then
        match CreateDirAll(fs, target)
        case None => Failed(fs, IoFailure(target))
        case Some(fs1) => CopyWalk(fs1, tmp, w[1..])
      else if IsFile(fs, p) then
        match WriteFile(fs, target, fs[p].content)
        case None => Failed(fs, IoFailure(target))
        case Some(fs1) => CopyWalk(fs1, tmp, w[1..])
      else Failed(fs, IoFailure(target))
  }

  /**
   * What `add_subs(dirs, tmp)` does: each argument must exist and be a
   * directory; `tmp + d` is created and the walk of `d` copied below `tmp`.
   * The first failure stops everything, leaving what was copied before it.
   */
  function AddSubsSpec(fs: FS, dirs: seq<Path>, tmp: Path, walker: Walker): (r: Outcome)
    ensures !r.Panicked?
    decreases |dirs|
  {
    if dirs == [] then Done(fs)
    else
      var d := dirs[0];
      if d !in fs then Failed(fs, NotFound(d))
      else if !IsDir(fs, d) then Failed(fs, NotADirectory(d))
      else match CreateDirAll(fs, tmp + d)
        case None => Failed(fs, IoFailure(tmp + d))
        case Some(fs1) =>
          match CopyWalk(fs1, tmp, walker(fs1, d))
          case Done(fs2) => AddSubsSpec(fs2, dirs[1..], tmp, walker)
          case Failed(fs2, err) => Failed(fs2, err)
          case Panicked => Panicked
  }

  method AddSubs(fs: FS, dirs: seq<Path>, tmp: Path, walker: Walker) returns (r: Outcome)
    ensures r == AddSubsSpec(fs, dirs, tmp, walker)
  {
    var cur := fs;
    for i := 0 to |dirs|
      invariant AddSubsSpec(cur, dirs[i..], tmp, walker) == AddSubsSpec(fs, dirs, tmp, walker)
    {
      assert dirs[i..][1..] == dirs[i + 1..];
      var d := dirs[i];
      if d !in cur {
        return Failed(cur, NotFound(d));
      }
      if !IsDir(cur, d) {
        return Failed(cur, NotADirectory(d));
      }
      var made := CreateDirAll(cur, tmp + d);
      if made.None? {
        return Failed(cur, IoFailure(tmp + d));
      }
      var start := made.value;
      cur := start;
      var w := walker(start, d);
      for j := 0 to |w|
        invariant CopyWalk(cur, tmp, w[j..]) == CopyWalk(start, tmp, w)
      {
        assert w[j..][1..] == w[j + 1..];
        var p := w[j];
        var target := tmp + p;
        if IsDir(cur, p) {
          var created := CreateDirAll(cur, target);
          if created.None? {
            return Failed(cur, IoFailure(target));
          }
          cur := created.value;
        } else if IsFile(cur, p) {
          var copied := WriteFile(cur, target, cur[p].content);
          if copied.None? {
            return Failed(cur, IoFailure(target));
          }
          cur := copied.value;
        } else {
          return Failed(cur, IoFailure(target));
        }
      }
    }
    return Done(cur);
  }

  /**
   * Processing stops at the first argument that does not exist or is not a
   * directory; the tree it fails with holds every copy made before.
   */
  lemma {:induction false} AddSubsStopsAtBadDir(fs: FS, dirs: seq<Path>, tmp: Path, walker: Walker, i: nat)
    requires i < |dirs| && AddSubsSpec(fs, dirs[..i], tmp, walker).Done?
    ensures var f := AddSubsSpec(fs, dirs[..i], tmp, walker).fs;
      (dirs[i] !in f ==> AddSubsSpec(fs, dirs, tmp, walker) == Failed(f, NotFound(dirs[i]))) &&
      (dirs[i] in f && !IsDir(f, dirs[i]) ==> AddSubsSpec(fs, dirs, tmp, walker) == Failed(f, NotADirectory(dirs[i])))
    decreases i
  {
    if i == 0 {
      assert dirs[..0] == [];
    } else {
      var d := dirs[0];
      assert dirs[..i][0] == d && dirs[..i][1..] == dirs[1..][..i - 1];
      var fs1 := CreateDirAll(fs, tmp + d).value;
      var fs2 := CopyWalk(fs1, tmp, walker(fs1, d)).fs;
      AddSubsStopsAtBadDir(fs2, dirs[1..], tmp, walker, i - 1);
    }
  }

  /** `tmp` and `d` lie in separate subtrees: neither is a prefix of the other. */
  ghost predicate Apart(tmp: Path, d: Path) {
    !(tmp <= d) && !(d <= tmp)
  }

  /** Every path of `fs0` outside `tmp` is still in `cur`, unchanged. */
  ghost predicate Kept(fs0: FS, tmp: Path, cur: FS) {
    forall x :: x in fs0 && !(tmp <= x) ==> x in cur && cur[x] == fs0[x]
  }

  /** `q` of `fs0` is reproduced at `tmp + q` in `cur`. */
  ghost predicate Mirrored(fs0: FS, tmp: Path, cur: FS, q: Path) {
    q in fs0 ==> tmp + q in cur && cur[tmp + q] == fs0[q]
  }

  lemma Unprefixed(tmp: Path, d: Path, q: Path)
    requires Apart(tmp, d) && d <= q
    ensures !(tmp <= q)
  {
  }

  /** Copying the walk of a directory apart from `tmp` mirrors every walked path and touches nothing outside `tmp`. */
  lemma {:induction false} CopyWalkMirrors(fs0: FS, cur: FS, tmp: Path, d: Path, w: seq<Path>, q: Path)
    requires Apart(tmp, d) && forall j :: 0 <= j < |w| ==> d <= w[j]
    requires Kept(fs0, tmp, cur)
    requires CopyWalk(cur, tmp, w).Done?
    ensures Kept(fs0, tmp, CopyWalk(cur, tmp, w).fs)
    ensures Mirrored(fs0, tmp, cur, q) ==> Mirrored(fs0, tmp, CopyWalk(cur, tmp, w).fs, q)
    ensures q in w && d <= q ==> Mirrored(fs0, tmp, CopyWalk(cur, tmp, w).fs, q)
    decreases |w|
  {
    if w != [] {
      var p := w[0];
      Unprefixed(tmp, d, p);
      var fs1 := if IsDir(cur, p) then CreateDirAll(cur, tmp + p).value else WriteFile(cur, tmp + p, cur[p].content).value;
      assert |tmp + p| > 0 ==> (tmp + p)[..|tmp + p|] == tmp + p;
      assert Kept(fs0, tmp, fs1) by {
        forall x | x in fs0 && !(tmp <= x) ensures x in fs1 && fs1[x] == fs0[x] {
          assert x != tmp + p;
        }
      }
      assert Mirrored(fs0, tmp, cur, q) ==> Mirrored(fs0, tmp, fs1, q) by {
        if Mirrored(fs0, tmp, cur, q) && q in fs0 && !IsDir(cur, p) && tmp + p == tmp + q {
          assert p == (tmp + p)[|tmp|..] == (tmp + q)[|tmp|..] == q;
        }
      }
      assert Mirrored(fs0, tmp, fs1, p) by {
        if p in fs0 {
          assert |d| > 0;
        }
      }
      forall j | 0 <= j < |w[1..]| ensures d <= w[1..][j] {
        assert w[1..][j] == w[j + 1];
      }
      CopyWalkMirrors(fs0, fs1, tmp, d, w[1..], q);
      CopyWalkMirrors(fs0, fs1, tmp, d, w[1..], p);
    }
  }

  /** Some argument is at or above `q`. */
  ghost predicate UnderSome(dirs: seq<Path>, q: Path) {
    exists i :: 0 <= i < |dirs| && dirs[i] <= q
  }

  lemma UnderSomeSplit(dirs: seq<Path>, q: Path)
    requires |dirs| > 0
    ensures UnderSome(dirs, q) <==> dirs[0] <= q || UnderSome(dirs[1..], q)
  {
    if UnderSome(dirs, q) && !(dirs[0] <= q) {
      var i :| 0 <= i < |dirs| && dirs[i] <= q;
      assert dirs[1..][i - 1] == dirs[i];
    }
    if UnderSome(dirs[1..], q) {
      var i :| 0 <= i < |dirs[1..]| && dirs[1..][i] <= q;
      assert dirs[i + 1] == dirs[1..][i];
    }
  }

  /** Creating directories keeps every existing node, so it keeps what is kept and mirrored. */
  lemma CreateDirAllKeepsMirror(fs0: FS, tmp: Path, cur: FS, t: Path, q: Path)
    requires Kept(fs0, tmp, cur) && CreateDirAll(cur, t).Some?
    ensures Kept(fs0, tmp, CreateDirAll(cur, t).value)
    ensures Mirrored(fs0, tmp, cur, q) ==> Mirrored(fs0, tmp, CreateDirAll(cur, t).value, q)
  {
  }

  /** Copying a whole walk of `d`, a directory apart from `tmp`, mirrors what lies below `d`. */
  lemma CopyWalkOfDir(fs0: FS, fs1: FS, d: Path, tmp: Path, w: seq<Path>, q: Path)
    requires Apart(tmp, d) && Kept(fs0, tmp, fs1) && IsWalk(fs1, d, w)
    requires CopyWalk(fs1, tmp, w).Done?
    ensures Kept(fs0, tmp, CopyWalk(fs1, tmp, w).fs)
    ensures Mirrored(fs0, tmp, fs1, q) ==> Mirrored(fs0, tmp, CopyWalk(fs1, tmp, w).fs, q)
    ensures d <= q ==> Mirrored(fs0, tmp, CopyWalk(fs1, tmp, w).fs, q)
  {
    if q in fs0 && d <= q {
      Unprefixed(tmp, d, q);
      assert q in fs1;
      assert q in w;
    }
    CopyWalkMirrors(fs0, fs1, tmp, d, w, q);
  }

  lemma {:induction false} AddSubsMirrors(fs0: FS, cur: FS, dirs: seq<Path>, tmp: Path, walker: Walker, q: Path)
    requires WalkerOk(walker)
    requires forall i :: 0 <= i < |dirs| ==> Apart(tmp, dirs[i])
    requires Kept(fs0, tmp, cur)
    requires AddSubsSpec(cur, dirs, tmp, walker).Done?
    ensures Kept(fs0, tmp, AddSubsSpec(cur, dirs, tmp, walker).fs)
    ensures Mirrored(fs0, tmp, cur, q) ==> Mirrored(fs0, tmp, AddSubsSpec(cur, dirs, tmp, walker).fs, q)
    ensures UnderSome(dirs, q) ==> Mirrored(fs0, tmp, AddSubsSpec(cur, dirs, tmp, walker).fs, q)
    decreases |dirs|
  {
    if dirs != [] {
      var d := dirs[0];
      assert Apart(tmp, d);
      var fs1 := CreateDirAll(cur, tmp + d).value;
      var fs2 := CopyWalk(fs1, tmp, walker(fs1, d)).fs;
      CreateDirAllKeepsMirror(fs0, tmp, cur, tmp + d, q);
      assert d in fs1;
      CopyWalkOfDir(fs0, fs1, d, tmp, walker(fs1, d), q);
      forall i | 0 <= i < |dirs[1..]| ensures Apart(tmp, dirs[1..][i]) {
        assert dirs[1..][i] == dirs[i + 1];
      }
      assert AddSubsSpec(cur, dirs, tmp, walker) == AddSubsSpec(fs2, dirs[1..], tmp, walker);
      AddSubsMirrors(fs0, fs2, dirs[1..], tmp, walker, q);
      UnderSomeSplit(dirs, q);
    }
  }

  /**
   * When every argument lies apart from `tmp` and `add_subs` succeeds, each
   * path below an argument appears at `tmp + p` as the same directory or a
   * copy of the same file, and nothing outside `tmp` has changed.
   */
  lemma AddSubsCopies(fs: FS, dirs: seq<Path>, tmp: Path, walker: Walker)
    requires WalkerOk(walker)
    requires forall i :: 0 <= i < |dirs| ==> Apart(tmp, dirs[i])
    requires AddSubsSpec(fs, dirs, tmp, walker).Done?
    ensures var r := AddSubsSpec(fs, dirs, tmp, walker).fs;
      forall q :: q in fs && UnderSome(dirs, q) ==> tmp + q in r && r[tmp + q] == fs[q]
    ensures Kept(fs, tmp, AddSubsSpec(fs, dirs, tmp, walker).fs)
  {
    var r := AddSubsSpec(fs, dirs, tmp, walker).fs;
    forall q | q in fs && UnderSome(dirs, q) ensures tmp + q in r && r[tmp + q] == fs[q] {
      AddSubsMirrors(fs, fs, dirs, tmp, walker, q);
    }
    AddSubsMirrors(fs, fs, dirs, tmp, walker, []);
  }

  /** The copy loop writes only at `tmp` and below it, or creates ancestors of `tmp`. */
  lemma {:induction false} CopyWalkAround(fs: FS, tmp: Path, w: seq<Path>)
    ensures ChangedAround(fs, CopyWalk(fs, tmp, w).fs, tmp)
    decreases |w|
  {
    if w != [] {
      var p := w[0];
      if IsDir(fs, p) && CreateDirAll(fs, tmp + p).Some? {
        var next := CreateDirAll(fs, tmp + p).value;
        CreateDirAllAround(fs, tmp + p, tmp);
        CopyWalkAround(next, tmp, w[1..]);
        ChangedAroundTransitive(fs, next, CopyWalk(next, tmp, w[1..]).fs, tmp);
      } else if !IsDir(fs, p) && IsFile(fs, p) && WriteFile(fs, tmp + p, fs[p].content).Some? {
        var next := WriteFile(fs, tmp + p, fs[p].content).value;
        CopyWalkAround(next, tmp, w[1..]);
        ChangedAroundTransitive(fs, next, CopyWalk(next, tmp, w[1..]).fs, tmp);
      }
    }
  }

  /** `add_subs` changes nothing away from `tmp`, whether it succeeds or stops early. */
  lemma {:induction false} AddSubsAround(fs: FS, dirs: seq<Path>, tmp: Path, walker: Walker)
    ensures ChangedAround(fs, AddSubsSpec(fs, dirs, tmp, walker).fs, tmp)
    decreases |dirs|
  {
    if dirs != [] {
      var d := dirs[0];
      if d in fs && IsDir(fs, d) && CreateDirAll(fs, tmp + d).Some? {
        var fs1 := CreateDirAll(fs, tmp + d).value;
        CreateDirAllAround(fs, tmp + d, tmp);
        var c := CopyWalk(fs1, tmp, walker(fs1, d));
        CopyWalkAround(fs1, tmp, walker(fs1, d));
        ChangedAroundTransitive(fs, fs1, c.fs, tmp);
        if c.Done? {
          AddSubsAround(c.fs, dirs[1..], tmp, walker);
          ChangedAroundTransitive(fs, c.fs, AddSubsSpec(c.fs, dirs[1..], tmp, walker).fs, tmp);
        }
      }
    }
  }

  // ---------------------------------------------------------------------------
  // sanitize_submissions

  /** A directory whose final component is exactly `__MACOSX` (case-sensitive). */
  ghost predicate IsMacDir(fs: FS, p: Path) {
    IsDir(fs, p) && FileName(p) == Some("__MACOSX")
  }

  /** `q` is at or below a `__MACOSX` directory that is at or below `root`. */
  ghost predicate InMacTree(fs: FS, root: Path, q: Path) {
    root <= q && exists k :: |root| <= k <= |q| && IsMacDir(fs, q[..k])
  }

  /** The tree once every `__MACOSX` directory below `root` is removed. */
  ghost function MacRemoved(fs: FS, root: Path): FS {
    map q | q in fs && !InMacTree(fs, root, q) :: fs[q]
  }

  /**
   * `to_lowercase` of the path ends with `.ds_store`. The path's string ends
   * with its final component, and the suffix holds no separator, so only the
   * final component decides.
   */
  predicate IsDsStore(p: Path) {
    match FileName(p)
    case None => false
    case Some(n) => |n| >= 9 && AsciiLower(n)[|n| - 9..] == ".ds_store"
  }

  /** The paths the second walk collects. */
  ghost function DsStores(fs: FS, root: Path): set<Path> {
    set q | q in fs && root <= q && IsDsStore(q)
  }

  /** Removing the collected paths succeeds: the root survives the first phase and no collected path is a directory. */
  ghost predicate SanitizeSucceeds(fs: FS, root: Path) {
    var fs1 := MacRemoved(fs, root);
    root in fs && root in fs1 && forall q :: q in DsStores(fs1, root) ==> IsFile(fs1, q)
  }

  ghost function Sanitized(fs: FS, root: Path): FS {
    var fs1 := MacRemoved(fs, root);
    map q | q in fs1 && q !in DsStores(fs1, root) :: fs1[q]
  }

  /** Some walked entry among the first ones is a `__MACOSX` directory at or above `q`. */
  ghost predicate Covered(fs: FS, ws: seq<Path>, q: Path) {
    exists j :: 0 <= j < |ws| && IsMacDir(fs, ws[j]) && ws[j] <= q
  }

  lemma CoveredExtend(fs: FS, ws: seq<Path>, p: Path, q: Path)
    ensures Covered(fs, ws + [p], q) <==> Covered(fs, ws, q) || (IsMacDir(fs, p) && p <= q)
  {
    if Covered(fs, ws + [p], q) {
      var j :| 0 <= j < |ws + [p]| && IsMacDir(fs, (ws + [p])[j]) && (ws + [p])[j] <= q;
      if j < |ws| {
        assert (ws + [p])[j] == ws[j];
      }
    }
    if Covered(fs, ws, q) {
      var j :| 0 <= j < |ws| && IsMacDir(fs, ws[j]) && ws[j] <= q;
      assert (ws + [p])[j] == ws[j];
    }
    if IsMacDir(fs, p) && p <= q {
      assert (ws + [p])[|ws|] == p;
    }
  }

  /** After the whole walk, being covered is being in a `__MACOSX` subtree. */
  lemma CoveredByWalk(fs: FS, root: Path, w: seq<Path>, q: Path)
    requires IsWalk(fs, root, w) && q in fs
    ensures Covered(fs, w, q) <==> InMacTree(fs, root, q)
  {
    if Covered(fs, w, q) {
      var j :| 0 <= j < |w| && IsMacDir(fs, w[j]) && w[j] <= q;
      assert q[..|w[j]|] == w[j];
      assert root <= w[j];
    }
    if InMacTree(fs, root, q) {
      var k :| |root| <= k <= |q| && IsMacDir(fs, q[..k]);
      assert root <= q[..k];
      var j :| 0 <= j < |w| && w[j] == q[..k];
    }
  }

  /** One step of the first walk keeps the loop's picture of the tree. */
  lemma MacStep(fs: FS, ws: seq<Path>, p: Path, cur: FS)
    requires cur == map q | q in fs && !Covered(fs, ws, q) :: fs[q]
    ensures var next := if IsDir(cur, p) && FileName(p) == Some("__MACOSX") then RemoveDirAll(cur, p).value else cur;
      next == map q | q in fs && !Covered(fs, ws + [p], q) :: fs[q]
  {
    forall q ensures Covered(fs, ws + [p], q) <==> Covered(fs, ws, q) || (IsMacDir(fs, p) && p <= q) {
      CoveredExtend(fs, ws, p, q);
    }
    if !(IsDir(cur, p) && FileName(p) == Some("__MACOSX")) && IsMacDir(fs, p) {
      assert Covered(fs, ws, p);
      var j :| 0 <= j < |ws| && IsMacDir(fs, ws[j]) && ws[j] <= p;
      forall q | p <= q ensures Covered(fs, ws, q) {
        assert ws[j] <= q;
      }
    }
  }

  /** The first walk of `sanitize_submissions`: every `__MACOSX` directory met is removed with its contents. */
  method RemoveMacDirs(fs: FS, root: Path, w: seq<Path>) returns (fs1: FS)
    requires IsWalk(fs, root, w)
    ensures fs1 == MacRemoved(fs, root)
  {
    fs1 := fs;
    for i := 0 to |w|
      invariant fs1 == map q | q in fs && !Covered(fs, w[..i], q) :: fs[q]
    {
      var p := w[i];
      assert w[..i + 1] == w[..i] + [p];
      MacStep(fs, w[..i], p, fs1);
      if IsDir(fs1, p) && FileName(p) == Some("__MACOSX") {
        fs1 := RemoveDirAll(fs1, p).value;
      }
    }
    assert w[..|w|] == w;
    forall q | q in fs ensures Covered(fs, w, q) <==> InMacTree(fs, root, q) {
      CoveredByWalk(fs, root, w, q);
    }
  }

  /** The second walk: the set of walked paths whose name ends with `.ds_store`. */
  method CollectDsStores(fs: FS, root: Path, w: seq<Path>) returns (toRemove: set<Path>)
    requires IsWalk(fs, root, w)
    ensures toRemove == DsStores(fs, root)
  {
    toRemove := {};
    for i := 0 to |w|
      invariant forall q :: q in toRemove <==> q in w[..i] && IsDsStore(q)
    {
      assert w[..i + 1] == w[..i] + [w[i]];
      if IsDsStore(w[i]) {
        toRemove := toRemove + {w[i]};
      }
    }
    assert w[..|w|] == w;
  }

  /** Removes each path of `toRemove` as a file, in an unspecified order, stopping at the first that is not one. */
  method RemoveFiles(fs: FS, toRemove: set<Path>) returns (r: Outcome)
    ensures !r.Panicked?
    ensures r.Done? <==> forall q :: q in toRemove ==> IsFile(fs, q)
    ensures r.Done? ==> r.fs == map q | q in fs && q !in toRemove :: fs[q]
    ensures r.Failed? ==> r.error.IoFailure? && r.error.path in toRemove && !IsFile(fs, r.error.path)
  {
    var cur := fs;
    var left := toRemove;
    while left != {}
      invariant left <= toRemove
      invariant cur == map q | q in fs && q !in toRemove - left :: fs[q]
      invariant forall q :: q in toRemove - left ==> IsFile(fs, q)
      decreases |left|
    {
      var q :| q in left;
      var removed := RemoveFile(cur, q);
      if removed.None? {
        return Failed(cur, IoFailure(q));
      }
      cur := removed.value;
      left := left - {q};
    }
    return Done(cur);
  }

  /**
   * `sanitize_submissions(root)`: the first walk removes every `__MACOSX`
   * directory it meets; the second walk collects every path whose name ends
   * with `.ds_store` in any case, and each collected path is then removed as
   * a file, in the `HashSet`'s unspecified order.
   */
  method SanitizeSubmissions(fs: FS, root: Path, walker: Walker) returns (r: Outcome)
    requires WalkerOk(walker)
    ensures !r.Panicked?
    ensures root !in fs ==> r == Failed(fs, NotFound(root))
    ensures r.Done? <==> SanitizeSucceeds(fs, root)
    ensures r.Done? ==> r.fs == Sanitized(fs, root)
    ensures r.Failed? && root in fs && root in MacRemoved(fs, root) ==>
      r.error.IoFailure? && r.error.path in DsStores(MacRemoved(fs, root), root) && IsDir(MacRemoved(fs, root), r.error.path)
  {
    if root !in fs {
      return Failed(fs, NotFound(root));
    }
    var fs1 := RemoveMacDirs(fs, root, walker(fs, root));
    if root !in fs1 {
      return Failed(fs1, NotFound(root));
    }
    var toRemove := CollectDsStores(fs1, root, walker(fs1, root));
    r := RemoveFiles(fs1, toRemove);
  }

  /** After a successful sanitize no `__MACOSX` directory and no `.ds_store` path remains below `root`. */
  lemma SanitizedIsClean(fs: FS, root: Path)
    requires SanitizeSucceeds(fs, root)
    ensures forall p :: p in Sanitized(fs, root) && root <= p ==> !IsMacDir(Sanitized(fs, root), p)
    ensures forall p :: p in Sanitized(fs, root) && root <= p ==> !IsDsStore(p)
  {
    var fs1 := MacRemoved(fs, root);
    var r := Sanitized(fs, root);
    forall p | p in r && root <= p ensures !IsMacDir(r, p) {
      if IsMacDir(r, p) {
        assert p[..|p|] == p;
        assert IsMacDir(fs, p[..|p|]);
        assert false;
      }
    }
  }

  /**
   * Paths below `root` that match neither rule keep their node, and nothing
   * outside `root` changes.
   */
  lemma SanitizeKeepsOthers(fs: FS, root: Path)
    requires SanitizeSucceeds(fs, root)
    ensures forall q :: q in fs && !InMacTree(fs, root, q) && !(root <= q && IsDsStore(q)) ==>
      q in Sanitized(fs, root) && Sanitized(fs, root)[q] == fs[q]
    ensures Confined(fs, Sanitized(fs, root), root)
  {
  }

  /** Sanitizing a sanitized tree succeeds and removes nothing more. */
  lemma SanitizeIdempotent(fs: FS, root: Path)
    requires IsDir(fs, root) && SanitizeSucceeds(fs, root)
    ensures SanitizeSucceeds(Sanitized(fs, root), root)
    ensures Sanitized(Sanitized(fs, root), root) == Sanitized(fs, root)
  {
    var r := Sanitized(fs, root);
    SanitizedIsClean(fs, root);
    var fs1 := MacRemoved(fs, root);
    assert root !in DsStores(fs1, root);
    forall q | q in r ensures !InMacTree(r, root, q) {
      forall k | root <= q && |root| <= k <= |q| ensures !IsMacDir(r, q[..k]) {
        assert root <= q[..k];
      }
    }
    assert MacRemoved(r, root) == r;
    assert DsStores(r, root) == {};
  }

  // ---------------------------------------------------------------------------
  // clean_non_ascii

  /** The extension of `p` equals `java`, ignoring ASCII case. */
  predicate IsJavaPath(p: Path) {
    match PathExtension(p)
    case None => false
    case Some(e) => AsciiLower(e) == "java"
  }

  /** A Java source below `root`: the files `clean_non_ascii` reads. */
  ghost predicate IsJavaSource(fs: FS, root: Path, q: Path) {
    root <= q && IsFile(fs, q) && IsJavaPath(q)
  }

  /** The content transformation of `clean_non_ascii`, as a value. */
  function Cleaner(keepNonAscii: bool): string -> string {
    s => CleanContent(s, keepNonAscii)
  }

  /** The tree once every Java source below `root` holds its content transformed by `clean`. */
  ghost function Cleaned(fs: FS, root: Path, clean: string -> string): FS {
    map q | q in fs :: if IsJavaSource(fs, root, q) then File(clean(fs[q].content)) else fs[q]
  }

  /** The tree once the Java sources among `ws` are cleaned. */
  ghost function CleanedAmong(fs: FS, root: Path, clean: string -> string, ws: seq<Path>): FS {
    map q | q in fs :: if q in ws && IsJavaSource(fs, root, q) then File(clean(fs[q].content)) else fs[q]
  }

  lemma CleanedAmongKinds(fs: FS, root: Path, clean: string -> string, ws: seq<Path>)
    ensures forall q :: q in fs <==> q in CleanedAmong(fs, root, clean, ws)
    ensures forall q :: q in fs ==> CleanedAmong(fs, root, clean, ws)[q].Dir? == fs[q].Dir?
  {
  }

  /** One entry of the walk: what the loop does to it is what the specification says. */
  lemma CleanedAmongStep(fs: FS, root: Path, clean: string -> string, ws: seq<Path>, p: Path)
    requires p in fs && p !in ws && root <= p
    ensures var cur := CleanedAmong(fs, root, clean, ws);
      var next := CleanedAmong(fs, root, clean, ws + [p]);
      p in cur && cur[p] == fs[p] &&
      (IsDir(cur, p) || !IsJavaPath(p) ==> next == cur) &&
      (!IsDir(cur, p) && IsJavaPath(p) ==> next == cur[p := File(clean(cur[p].content))])
  {
    var cur := CleanedAmong(fs, root, clean, ws);
    var next := CleanedAmong(fs, root, clean, ws + [p]);
    assert cur[p] == fs[p];
    var expected := if IsJavaSource(fs, root, p) then cur[p := File(clean(fs[p].content))] else cur;
    forall q | q in fs ensures q in next && q in expected && next[q] == expected[q] {
      assert q in ws + [p] <==> q in ws || q == p;
    }
    assert next == expected;
  }

  /** The walk's `i`-th entry extends its first `i` entries by a path not met before. */
  lemma WalkStep(fs: FS, root: Path, w: seq<Path>, i: nat)
    requires IsWalk(fs, root, w) && i < |w|
    ensures w[..i + 1] == w[..i] + [w[i]]
    ensures w[i] !in w[..i] && w[i] in fs && root <= w[i]
  {
  }

  /** Once the whole walk is processed, every Java source below `root` is cleaned. */
  lemma CleanedAmongWalk(fs: FS, root: Path, clean: string -> string, w: seq<Path>)
    requires IsWalk(fs, root, w)
    ensures CleanedAmong(fs, root, clean, w) == Cleaned(fs, root, clean)
  {
    forall q | q in fs && IsJavaSource(fs, root, q) ensures q in w {
    }
  }

  /** Under the tree shape, a walked file can always be written back. */
  lemma CleanedAmongWritable(fs: FS, root: Path, clean: string -> string, ws: seq<Path>, p: Path, data: string)
    requires Wf(fs) && IsFile(fs, p)
    ensures WriteFile(CleanedAmong(fs, root, clean, ws), p, data).Some?
  {
    CleanedAmongKinds(fs, root, clean, ws);
    if |p| > 1 {
      assert IsDir(fs, p[..|p| - 1]);
    }
  }

  /**
   * Whether the bytes a file holds are valid UTF-8. `fs::read_to_string`
   * fails on any other file, so the text a file is read as is its content
   * only when this holds.
   */
  type Utf8Check = seq<char> -> bool

  /** Every Java source below `root` can be read as text. */
  ghost predicate JavaDecodes(fs: FS, root: Path, utf8: Utf8Check) {
    forall q :: IsJavaSource(fs, root, q) ==> utf8(fs[q].content)
  }

  /**
   * `clean_non_ascii(root, keep)`: walks `root`, skips directories and every
   * path whose extension is not `java`, reads each remaining file as text,
   * which fails when it is not UTF-8, and writes it back only when cleaning
   * changes it.
   */
  method CleanNonAscii(fs: FS, root: Path, keepNonAscii: bool, utf8: Utf8Check, walker: Walker) returns (r: Outcome)
    requires WalkerOk(walker)
    ensures !r.Panicked?
    ensures root !in fs ==> r == Failed(fs, NotFound(root))
    ensures r.Done? ==> r.fs == Cleaned(fs, root, Cleaner(keepNonAscii)) && JavaDecodes(fs, root, utf8)
    ensures r.Failed? && r.error.NotUtf8? ==> IsJavaSource(fs, root, r.error.path) && !utf8(fs[r.error.path].content)
    ensures root in fs && Wf(fs) ==> (r.Done? <==> JavaDecodes(fs, root, utf8))
  {
    if root !in fs {
      return Failed(fs, NotFound(root));
    }
    r := CleanWalk(fs, root, Cleaner(keepNonAscii), utf8, walker(fs, root));
  }

  /** Every Java source among `ws` can be read as text. */
  ghost predicate DecodesAmong(fs: FS, root: Path, utf8: Utf8Check, ws: seq<Path>) {
    forall q :: q in ws && IsJavaSource(fs, root, q) ==> utf8(fs[q].content)
  }

  lemma DecodesAmongStep(fs: FS, root: Path, utf8: Utf8Check, ws: seq<Path>, p: Path)
    requires DecodesAmong(fs, root, utf8, ws)
    requires IsJavaSource(fs, root, p) ==> utf8(fs[p].content)
    ensures DecodesAmong(fs, root, utf8, ws + [p])
  {
    forall q | q in ws + [p] && IsJavaSource(fs, root, q) ensures utf8(fs[q].content) {
      assert q in ws || q == p;
    }
  }

  lemma DecodesAmongWalk(fs: FS, root: Path, utf8: Utf8Check, w: seq<Path>)
    requires IsWalk(fs, root, w) && DecodesAmong(fs, root, utf8, w)
    ensures JavaDecodes(fs, root, utf8)
  {
    forall q | IsJavaSource(fs, root, q) ensures utf8(fs[q].content) {
      assert q in w;
    }
  }

  /** The walk loop of `clean_non_ascii`, for the given transformation. */
  method CleanWalk(fs: FS, root: Path, clean: string -> string, utf8: Utf8Check, w: seq<Path>) returns (r: Outcome)
    requires IsWalk(fs, root, w)
    ensures !r.Panicked?
    ensures r.Done? ==> r.fs == Cleaned(fs, root, clean) && JavaDecodes(fs, root, utf8)
    ensures r.Failed? ==>
      || (r.error.NotUtf8? && IsJavaSource(fs, root, r.error.path) && !utf8(fs[r.error.path].content))
      || (r.error.IoFailure? && !Wf(fs))
  {
    var cur := fs;
    for i := 0 to |w|
      invariant cur == CleanedAmong(fs, root, clean, w[..i])
      invariant DecodesAmong(fs, root, utf8, w[..i])
    {
      var p := w[i];
      WalkStep(fs, root, w, i);
      CleanedAmongStep(fs, root, clean, w[..i], p);
      if !IsDir(cur, p) && IsJavaPath(p) {
        assert IsJavaSource(fs, root, p);
        var content := cur[p].content;
        if !utf8(content) {
          return Failed(cur, NotUtf8(p));
        }
        var cleaned := clean(content);
        if cleaned == content {
          assert cur[p := File(cleaned)] == cur;
        } else {
          if Wf(fs) {
            CleanedAmongWritable(fs, root, clean, w[..i], p, cleaned);
          }
          var written := WriteFile(cur, p, cleaned);
          if written.None? {
            return Failed(cur, IoFailure(p));
          }
          cur := written.value;
        }
      } else {
        assert !IsJavaSource(fs, root, p);
      }
      DecodesAmongStep(fs, root, utf8, w[..i], p);
    }
    assert w[..|w|] == w;
    CleanedAmongWalk(fs, root, clean, w);
    DecodesAmongWalk(fs, root, utf8, w);
    return Done(cur);
  }

  /** Only Java sources below `root` change, and each is rewritten exactly when cleaning changes it. */
  lemma CleanedTouchesOnlyJava(fs: FS, root: Path, keepNonAscii: bool)
    ensures forall q :: q in fs && !IsJavaSource(fs, root, q) ==> Cleaned(fs, root, Cleaner(keepNonAscii))[q] == fs[q]
    ensures forall q :: q in fs && IsJavaSource(fs, root, q) ==>
      (Cleaned(fs, root, Cleaner(keepNonAscii))[q] == fs[q] <==> forall c :: c in fs[q].content ==> Stable(c, keepNonAscii))
  {
    forall q | q in fs && IsJavaSource(fs, root, q)
      ensures Cleaned(fs, root, Cleaner(keepNonAscii))[q] == fs[q] <==> forall c :: c in fs[q].content ==> Stable(c, keepNonAscii)
    {
      CleanContentUnchangedIff(fs[q].content, keepNonAscii);
    }
  }

  /** Cleaning a cleaned tree changes nothing. */
  lemma CleanedIdempotent(fs: FS, root: Path, keepNonAscii: bool)
    ensures Cleaned(Cleaned(fs, root, Cleaner(keepNonAscii)), root, Cleaner(keepNonAscii)) == Cleaned(fs, root, Cleaner(keepNonAscii))
  {
    var r := Cleaned(fs, root, Cleaner(keepNonAscii));
    forall q | q in r && IsJavaSource(r, root, q) ensures CleanContent(r[q].content, keepNonAscii) == r[q].content {
      CleanContentIdempotent(fs[q].content, keepNonAscii);
    }
  }
}
