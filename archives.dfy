/**
 * Archive codecs (`zip`, `unrar`, `sevenz_rust`, `tar`, `flate2`) as oracles:
 * a codec turns the bytes of an archive into the sequence of entries it holds,
 * or says it cannot read them. What the wrapper does with those entries, and
 * where they land on disk, is modelled here once for all formats.
 */
module Archives {
  import opened FileSystem

  /**
   * One entry as the library reports it. `name` is the entry's path relative
   * to the destination, or `None` when the name would leave the destination
   * (the names `ZipFile::enclosed_name` refuses).
   */
  datatype Entry = Entry(name: Option<Path>, isDir: bool, data: seq<char>)

  /**
   * The result of decoding an archive: it cannot be opened or parsed at all,
   * or it yields `entries` in order and then either ends (`complete`) or
   * fails while reading the next one.
   */
  datatype Decoded = Unreadable | Listing(entries: seq<Entry>, complete: bool)

  type Codec = seq<char> -> Decoded

  /** One codec per supported container format. */
  datatype Codecs = Codecs(zip: Codec, rar: Codec, sevenZ: Codec, tar: Codec, tarGz: Codec)

  /**
   * How a sequence of entries is written out:
   * - `ZipStyle` is the loop of `unzip_to`: a name that is not enclosed panics
   *   (`enclosed_name().unwrap()`), directories are created, files written;
   * - `LibraryStyle` is what `tar` and `sevenz_rust` do internally: names that
   *   would escape are skipped, directories created, files written;
   * - `RarStyle` is the header loop of `rar`: directory entries are skipped and
   *   file entries extracted.
   */
  datatype Placement = ZipStyle | LibraryStyle | RarStyle

  /** Opening an archive: a missing path or a directory cannot be read as one. */
  function Open(fs: FS, p: Path, codec: Codec): Decoded {
    if IsFile(fs, p) then codec(fs[p].content) else Unreadable
  }

  /**
   * Writes one entry at `out`: a directory entry is `create_dir_all`; a file
   * entry creates its parent when the parent does not exist yet, then opens
   * `out` with create and truncate and copies the data into it. A failure
   * leaves whatever was created before it.
   */
  function PlaceEntry(fs: FS, out: Path, isDir: bool, data: seq<char>): (r: Outcome)
    ensures !r.Panicked?
    ensures r.Failed? ==> r.error.IoFailure?
    ensures Extends(fs, r.fs)
    ensures forall q :: q in r.fs && q !in fs ==> q <= out
    ensures forall q :: q in fs && fs[q].Dir? ==> r.fs[q] == Dir
    ensures r.Done? && !isDir ==> out in r.fs && r.fs[out] == File(data)
    ensures r.Done? && !isDir ==> forall q :: q in fs && q != out ==> r.fs[q] == fs[q]
    ensures r.Done? && isDir && |out| > 0 ==> IsDir(r.fs, out)
    ensures r.Done? && isDir ==> forall q :: q in fs ==> r.fs[q] == fs[q]
  {
    if isDir then
      assert |out| > 0 ==> out[..|out|] == out;
      match CreateDirAll(fs, out)
      case None => Failed(fs, IoFailure(out))
      case Some(fs1) => Done(fs1)
    else if |out| == 0 then Failed(fs, IoFailure(out))
    else
      var made := if Parent(out) in fs then Some(fs) else CreateDirAll(fs, Parent(out));
      match made
      case None => Failed(fs, IoFailure(Parent(out)))
      case Some(fs1) =>
        match WriteFile(fs1, out, data)
        case None => Failed(fs1, IoFailure(out))
        case Some(fs2) => Done(fs2)
  }

  lemma PlaceEntryKeepsShape(fs: FS, out: Path, isDir: bool, data: seq<char>, c: Path)
    requires Wf(fs) && IsDir(fs, c) && c <= out
    ensures Wf(PlaceEntry(fs, out, isDir, data).fs)
    ensures Confined(fs, PlaceEntry(fs, out, isDir, data).fs, c)
  {
    if isDir {
      if CreateDirAll(fs, out).Some? {
        CreateDirAllKeepsWf(fs, out);
        CreateDirAllConfined(fs, out, c);
      }
    } else if |out| > 0 && out != c {
      assert c <= Parent(out);
      var made := if Parent(out) in fs then Some(fs) else CreateDirAll(fs, Parent(out));
      if made.Some? {
        if Parent(out) !in fs {
          CreateDirAllKeepsWf(fs, Parent(out));
          CreateDirAllConfined(fs, Parent(out), c);
        }
        if WriteFile(made.value, out, data).Some? {
          WriteFileKeepsWf(made.value, out, data);
        }
      }
    }
  }

  /**
   * Writes `es` below `dest` in order, as `mode` prescribes. A failed write
   * stops with an I/O error at that entry; a listing that could not be read
   * to its end leaves what was written so far and reports a decoding error.
   */
  function Unpack(fs: FS, dest: Path, es: seq<Entry>, complete: bool, mode: Placement, archive: Path): (r: Outcome)
    ensures !r.Panicked? ==> Extends(fs, r.fs)
    decreases |es|
  {
    if es == [] then
      if complete then Done(fs) else Failed(fs, DecodeFailure(archive))
    else
      var e := es[0];
      match e.name
      case None =>
        if mode.ZipStyle? then Panicked else Unpack(fs, dest, es[1..], complete, mode, archive)
      case Some(n) =>
        if e.isDir && mode.RarStyle? then Unpack(fs, dest, es[1..], complete, mode, archive)
        else
          match PlaceEntry(fs, dest + n, e.isDir, e.data)
          case Failed(fs1, err) => Failed(fs1, err)
          case Done(fs1) => Unpack(fs1, dest, es[1..], complete, mode, archive)
  }

  /** Writing one entry at or below `p` changes nothing away from `p`. */
  lemma PlaceEntryAround(fs: FS, out: Path, isDir: bool, data: seq<char>, p: Path)
    requires p <= out
    ensures ChangedAround(fs, PlaceEntry(fs, out, isDir, data).fs, p)
  {
    if isDir {
      if CreateDirAll(fs, out).Some? {
        CreateDirAllAround(fs, out, p);
      }
    } else if |out| > 0 {
      if Parent(out) !in fs && CreateDirAll(fs, Parent(out)).Some? {
        PrefixesAround(p, Parent(out), out);
        CreateDirAllAround(fs, Parent(out), p);
      }
    }
  }

  /** Unpacking into `dest` changes nothing away from `dest`, however far it gets. */
  lemma {:induction false} UnpackAround(fs: FS, dest: Path, es: seq<Entry>, complete: bool, mode: Placement, archive: Path)
    requires !Unpack(fs, dest, es, complete, mode, archive).Panicked?
    ensures ChangedAround(fs, Unpack(fs, dest, es, complete, mode, archive).fs, dest)
    decreases |es|
  {
    if es != [] {
      var e := es[0];
      if e.name.Some? && !(e.isDir && mode.RarStyle?) {
        var placed := PlaceEntry(fs, dest + e.name.value, e.isDir, e.data);
        PlaceEntryAround(fs, dest + e.name.value, e.isDir, e.data, dest);
        if placed.Done? {
          UnpackAround(placed.fs, dest, es[1..], complete, mode, archive);
          ChangedAroundTransitive(fs, placed.fs, Unpack(placed.fs, dest, es[1..], complete, mode, archive).fs, dest);
        }
      } else {
        UnpackAround(fs, dest, es[1..], complete, mode, archive);
      }
    }
  }

  /** Unpacking below an existing directory keeps the tree shape and stays below it. */
  lemma {:induction false} UnpackStaysBelow(fs: FS, dest: Path, es: seq<Entry>, complete: bool, mode: Placement, archive: Path)
    requires Wf(fs) && IsDir(fs, dest)
    requires !Unpack(fs, dest, es, complete, mode, archive).Panicked?
    ensures Wf(Unpack(fs, dest, es, complete, mode, archive).fs)
    ensures Confined(fs, Unpack(fs, dest, es, complete, mode, archive).fs, dest)
    decreases |es|
  {
    if es != [] {
      var e := es[0];
      if e.name.Some? && !(e.isDir && mode.RarStyle?) {
        var out := dest + e.name.value;
        var placed := PlaceEntry(fs, out, e.isDir, e.data);
        PlaceEntryKeepsShape(fs, out, e.isDir, e.data, dest);
        if placed.Done? {
          UnpackStaysBelow(placed.fs, dest, es[1..], complete, mode, archive);
          ConfinedTransitive(fs, placed.fs, Unpack(placed.fs, dest, es[1..], complete, mode, archive).fs, dest);
        }
      } else {
        UnpackStaysBelow(fs, dest, es[1..], complete, mode, archive);
      }
    }
  }

  /** Some entry of `es` has a name that is not enclosed in the destination. */
  ghost predicate HasUnenclosed(es: seq<Entry>) {
    exists i :: 0 <= i < |es| && es[i].name.None?
  }

  /**
   * A panic comes only from `unzip_to`, and only from an entry whose name is
   * not enclosed; `unzip_to` does panic at such an entry unless writing an
   * earlier entry failed first.
   */
  lemma {:induction false} UnpackPanicsOnlyOnUnenclosed(fs: FS, dest: Path, es: seq<Entry>, complete: bool, mode: Placement, archive: Path)
    ensures Unpack(fs, dest, es, complete, mode, archive).Panicked? ==> mode.ZipStyle? && HasUnenclosed(es)
    ensures mode.ZipStyle? && |es| > 0 && es[0].name.None? ==> Unpack(fs, dest, es, complete, mode, archive).Panicked?
    ensures mode.ZipStyle? && HasUnenclosed(es) ==>
      var r := Unpack(fs, dest, es, complete, mode, archive);
      r.Panicked? || (r.Failed? && r.error.IoFailure?)
    decreases |es|
  {
    if es != [] {
      var e := es[0];
      var next := fs;
      if e.name.Some? && !(e.isDir && mode.RarStyle?) {
        var placed := PlaceEntry(fs, dest + e.name.value, e.isDir, e.data);
        if placed.Done? {
          next := placed.fs;
        }
      }
      UnpackPanicsOnlyOnUnenclosed(next, dest, es[1..], complete, mode, archive);
      if HasUnenclosed(es[1..]) {
        var i :| 0 <= i < |es[1..]| && es[1..][i].name.None?;
        assert es[i + 1].name.None?;
      }
      if HasUnenclosed(es) && e.name.Some? {
        var i :| 0 <= i < |es| && es[i].name.None?;
        assert es[1..][i - 1].name.None?;
      }
    }
  }

  /** `q` is at or above the target of some named entry of `es`. */
  ghost predicate TargetPrefix(dest: Path, es: seq<Entry>, q: Path) {
    exists i :: 0 <= i < |es| && es[i].name.Some? && q <= dest + es[i].name.value
  }

  /**
   * However far unpacking gets, every path it adds is an entry's target or
   * one of that target's ancestors.
   */
  lemma {:induction false} UnpackAddsOnlyTargets(fs: FS, dest: Path, es: seq<Entry>, complete: bool, mode: Placement, archive: Path)
    requires !Unpack(fs, dest, es, complete, mode, archive).Panicked?
    ensures forall q :: q in Unpack(fs, dest, es, complete, mode, archive).fs && q !in fs ==> TargetPrefix(dest, es, q)
    decreases |es|
  {
    if es != [] {
      var e := es[0];
      var r := Unpack(fs, dest, es, complete, mode, archive).fs;
      if e.name.None? || (e.isDir && mode.RarStyle?) {
        UnpackAddsOnlyTargets(fs, dest, es[1..], complete, mode, archive);
        forall q | q in r && q !in fs ensures TargetPrefix(dest, es, q) {
          var j :| 0 <= j < |es[1..]| && es[1..][j].name.Some? && q <= dest + es[1..][j].name.value;
          assert es[1..][j] == es[j + 1];
        }
      } else {
        var placed := PlaceEntry(fs, dest + e.name.value, e.isDir, e.data);
        if placed.Done? {
          UnpackAddsOnlyTargets(placed.fs, dest, es[1..], complete, mode, archive);
          forall q | q in r && q !in fs ensures TargetPrefix(dest, es, q) {
            if q !in placed.fs {
              var j :| 0 <= j < |es[1..]| && es[1..][j].name.Some? && q <= dest + es[1..][j].name.value;
              assert es[1..][j] == es[j + 1];
            } else {
              assert es[0].name.Some? && q <= dest + es[0].name.value;
            }
          }
        } else {
          forall q | q in r && q !in fs ensures TargetPrefix(dest, es, q) {
            assert es[0].name.Some? && q <= dest + es[0].name.value;
          }
        }
      }
    }
  }

  /** `q` is the target of no file entry of `es`. */
  ghost predicate NoFileTargets(dest: Path, es: seq<Entry>, q: Path) {
    forall j :: 0 <= j < |es| && es[j].name.Some? && !es[j].isDir ==> dest + es[j].name.value != q
  }

  /**
   * Entries that succeed never undo each other: a directory stays a
   * directory, and a path no later file entry targets keeps its node.
   */
  lemma {:induction false} UnpackKeeps(fs: FS, dest: Path, es: seq<Entry>, complete: bool, mode: Placement, archive: Path, q: Path)
    requires Unpack(fs, dest, es, complete, mode, archive).Done?
    requires q in fs
    ensures fs[q].Dir? ==> Unpack(fs, dest, es, complete, mode, archive).fs[q] == Dir
    ensures NoFileTargets(dest, es, q) ==> Unpack(fs, dest, es, complete, mode, archive).fs[q] == fs[q]
    decreases |es|
  {
    if es != [] {
      var e := es[0];
      assert NoFileTargets(dest, es, q) ==> NoFileTargets(dest, es[1..], q) by {
        if NoFileTargets(dest, es, q) {
          forall j | 0 <= j < |es[1..]| && es[1..][j].name.Some? && !es[1..][j].isDir
            ensures dest + es[1..][j].name.value != q
          {
            assert es[1..][j] == es[j + 1];
          }
        }
      }
      if e.name.None? || (e.isDir && mode.RarStyle?) {
        UnpackKeeps(fs, dest, es[1..], complete, mode, archive, q);
      } else {
        var fs1 := PlaceEntry(fs, dest + e.name.value, e.isDir, e.data).fs;
        UnpackKeeps(fs1, dest, es[1..], complete, mode, archive, q);
        assert !e.isDir && NoFileTargets(dest, es, q) ==> dest + es[0].name.value != q;
      }
    }
  }

  /** No file entry after position `i` has the same name as entry `i`. */
  ghost predicate LastWithName(es: seq<Entry>, i: nat)
    requires i < |es|
  {
    forall j :: i < j < |es| && es[j].name == es[i].name ==> es[j].isDir
  }

  /** Every named directory entry of `es` is a directory of `r`, unless `mode` skips them. */
  ghost predicate DirsPlaced(r: FS, dest: Path, es: seq<Entry>, mode: Placement) {
    forall i :: 0 <= i < |es| && es[i].name.Some? && es[i].isDir && !mode.RarStyle? ==>
      IsDir(r, dest + es[i].name.value)
  }

  /** Every named file entry of `es` that is the last with its name holds its data in `r`. */
  ghost predicate FilesPlaced(r: FS, dest: Path, es: seq<Entry>) {
    forall i :: 0 <= i < |es| && es[i].name.Some? && !es[i].isDir && LastWithName(es, i) ==>
      dest + es[i].name.value in r && r[dest + es[i].name.value] == File(es[i].data)
  }

  /**
   * When unpacking succeeds the listing was complete, every named directory
   * entry exists as a directory below `dest` (unless the mode skips
   * directories), and every named file entry that no later file entry
   * replaces holds its own data: a later entry for the same path overwrites
   * an earlier one. Nothing else appears: every added path is an entry's
   * target or one of its ancestors.
   */
  lemma UnpackPlacesEntries(fs: FS, dest: Path, es: seq<Entry>, complete: bool, mode: Placement, archive: Path)
    requires |dest| > 0 && Unpack(fs, dest, es, complete, mode, archive).Done?
    ensures complete
    ensures DirsPlaced(Unpack(fs, dest, es, complete, mode, archive).fs, dest, es, mode)
    ensures FilesPlaced(Unpack(fs, dest, es, complete, mode, archive).fs, dest, es)
    ensures forall q :: q in Unpack(fs, dest, es, complete, mode, archive).fs && q !in fs ==> TargetPrefix(dest, es, q)
  {
    PlacesEntries(fs, dest, es, complete, mode, archive);
    UnpackAddsOnlyTargets(fs, dest, es, complete, mode, archive);
  }

  /** The induction behind `UnpackPlacesEntries`. */
  lemma {:induction false} PlacesEntries(fs: FS, dest: Path, es: seq<Entry>, complete: bool, mode: Placement, archive: Path)
    requires |dest| > 0 && Unpack(fs, dest, es, complete, mode, archive).Done?
    ensures complete
    ensures DirsPlaced(Unpack(fs, dest, es, complete, mode, archive).fs, dest, es, mode)
    ensures FilesPlaced(Unpack(fs, dest, es, complete, mode, archive).fs, dest, es)
    decreases |es|
  {
    if es != [] {
      var e := es[0];
      var r := Unpack(fs, dest, es, complete, mode, archive).fs;
      var next := fs;
      if e.name.Some? && !(e.isDir && mode.RarStyle?) {
        next := PlaceEntry(fs, dest + e.name.value, e.isDir, e.data).fs;
      }
      assert r == Unpack(next, dest, es[1..], complete, mode, archive).fs;
      PlacesEntries(next, dest, es[1..], complete, mode, archive);
      forall i | 1 <= i < |es| && es[i].name.Some? && es[i].isDir && !mode.RarStyle?
        ensures IsDir(r, dest + es[i].name.value)
      {
        assert es[i] == es[1..][i - 1];
      }
      forall i | 1 <= i < |es| && es[i].name.Some? && !es[i].isDir && LastWithName(es, i)
        ensures dest + es[i].name.value in r && r[dest + es[i].name.value] == File(es[i].data)
      {
        assert es[i] == es[1..][i - 1];
        assert LastWithName(es[1..], i - 1) by {
          forall j | i - 1 < j < |es[1..]| && es[1..][j].name == es[1..][i - 1].name
            ensures es[1..][j].isDir
          {
            assert es[1..][j] == es[j + 1];
          }
        }
      }
      if e.name.Some? && !(e.isDir && mode.RarStyle?) {
        var out := dest + e.name.value;
        UnpackKeeps(next, dest, es[1..], complete, mode, archive, out);
        if !e.isDir && LastWithName(es, 0) {
          forall j | 0 <= j < |es[1..]| && es[1..][j].name.Some? && !es[1..][j].isDir
            ensures dest + es[1..][j].name.value != out
          {
            assert es[1..][j] == es[j + 1];
            assert (dest + es[1..][j].name.value)[|dest|..] == es[1..][j].name.value;
            assert out[|dest|..] == e.name.value;
          }
        }
      }
    }
  }
}
