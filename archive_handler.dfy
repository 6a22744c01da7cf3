/**
 * The extraction strategies of `archive_handler.rs`. Each one is called with
 * the temporary directory `tmp`, the student's directory below it and the
 * archive inside that directory. Each one unpacks the archive and removes it
 * when that worked.
 */
module ArchiveHandler {
  import opened FileSystem
  import opened Archives
  import opened Helper

  /** The supported container formats, one per strategy function. */
  datatype Strategy = ZipArchive | RarArchive | SevenZArchive | TarArchive | TarGzArchive

  /**
   * Where a strategy writes the archive's contents. `zip` and `rar` use `tmp`
   * joined with the file name of the student directory, and have nowhere to
   * go when that directory has no file name. The library-backed strategies
   * use the student directory itself and ignore `tmp`.
   */
  function Destination(s: Strategy, tmp: Path, student: Path): Option<Path> {
    if s.ZipArchive? || s.RarArchive? then
      match FileName(student)
      case None => None
      case Some(n) => Some(tmp + [n])
    else Some(student)
  }

  /** The codec a library-backed strategy reads the archive with. */
  function LibraryCodec(s: Strategy, codecs: Codecs): Codec
    requires !s.ZipArchive? && !s.RarArchive?
  {
    match s
    case SevenZArchive => codecs.sevenZ
    case TarArchive => codecs.tar
    case TarGzArchive => codecs.tarGz
  }

  /** The last step of every strategy: after a successful unpack the archive is removed. */
  function Finish(r: Outcome, archive: Path): Outcome {
    match r
    case Done(fs) => (
      match RemoveFile(fs, archive)
      case None => Failed(fs, IoFailure(archive))
      case Some(fs1) => Done(fs1))
    case _ => r
  }

  /**
   * `zip`: take the student directory's file name, create `tmp/<name>`,
   * unzip into it and remove the archive.
   */
  function ZipSpec(fs: FS, codecs: Codecs, tmp: Path, student: Path, archive: Path): Outcome {
    match FileName(student)
    case None => Failed(fs, NoFileName(student))
    case Some(n) =>
      match CreateDirAll(fs, tmp + [n])
      case None => Failed(fs, IoFailure(tmp + [n]))
      case Some(fs1) => Finish(UnzipSpec(fs1, archive, tmp + [n], codecs.zip), archive)
  }

  /**
   * `rar`: open the archive first, then take the student directory's file
   * name, create `tmp/<name>`, extract the file entries there, skipping
   * directory entries, and remove the archive.
   */
  function RarSpec(fs: FS, codecs: Codecs, tmp: Path, student: Path, archive: Path): Outcome {
    match Open(fs, archive, codecs.rar)
    case Unreadable => Failed(fs, DecodeFailure(archive))
    case Listing(es, complete) =>
      match FileName(student)
      case None => Failed(fs, NoFileName(student))
      case Some(n) =>
        match CreateDirAll(fs, tmp + [n])
        case None => Failed(fs, IoFailure(tmp + [n]))
        case Some(fs1) => Finish(Unpack(fs1, tmp + [n], es, complete, RarStyle, archive), archive)
  }

  /**
   * `sz`, `tar` and `gz`: the library opens the archive, creates the student
   * directory if needed and unpacks into it; then the archive is removed.
   */
  function LibrarySpec(fs: FS, codec: Codec, student: Path, archive: Path): Outcome {
    match Open(fs, archive, codec)
    case Unreadable => Failed(fs, DecodeFailure(archive))
    case Listing(es, complete) =>
      match CreateDirAll(fs, student)
      case None => Failed(fs, IoFailure(student))
      case Some(fs1) => Finish(Unpack(fs1, student, es, complete, LibraryStyle, archive), archive)
  }

  /** What calling the strategy `s` does. */
  function ExtractSpec(s: Strategy, fs: FS, codecs: Codecs, tmp: Path, student: Path, archive: Path): Outcome {
    match s
    case ZipArchive => ZipSpec(fs, codecs, tmp, student, archive)
    case RarArchive => RarSpec(fs, codecs, tmp, student, archive)
    case _ => LibrarySpec(fs, LibraryCodec(s, codecs), student, archive)
  }

  // ---------------------------------------------------------------------------
  // The strategy functions.

  method Zip(fs: FS, codecs: Codecs, tmp: Path, student: Path, archive: Path) returns (r: Outcome)
    ensures r == ExtractSpec(ZipArchive, fs, codecs, tmp, student, archive)
  {
    var name := FileName(student);
    if name.None? {
      return Failed(fs, NoFileName(student));
    }
    var dest := tmp + [name.value];
    var made := CreateDirAll(fs, dest);
    if made.None? {
      return Failed(fs, IoFailure(dest));
    }
    var unzipped := UnzipTo(made.value, archive, dest, codecs.zip);
    if !unzipped.Done? {
      return unzipped;
    }
    var removed := RemoveFile(unzipped.fs, archive);
    if removed.None? {
      return Failed(unzipped.fs, IoFailure(archive));
    }
    return Done(removed.value);
  }

  method Rar(fs: FS, codecs: Codecs, tmp: Path, student: Path, archive: Path) returns (r: Outcome)
    ensures r == ExtractSpec(RarArchive, fs, codecs, tmp, student, archive)
  {
    var listing := Open(fs, archive, codecs.rar);
    if listing.Unreadable? {
      return Failed(fs, DecodeFailure(archive));
    }
    var name := FileName(student);
    if name.None? {
      return Failed(fs, NoFileName(student));
    }
    var dest := tmp + [name.value];
    var made := CreateDirAll(fs, dest);
    if made.None? {
      return Failed(fs, IoFailure(dest));
    }
    var unpacked := RarHeaders(made.value, dest, listing.entries, listing.complete, archive);
    if !unpacked.Done? {
      return unpacked;
    }
    var removed := RemoveFile(unpacked.fs, archive);
    if removed.None? {
      return Failed(unpacked.fs, IoFailure(archive));
    }
    return Done(removed.value);
  }

  /**
   * The header loop of `rar`: a file entry is extracted to `dest/<name>`, a
   * directory entry is skipped, and a header that cannot be read ends the
   * loop with a decoding error.
   */
  method RarHeaders(fs: FS, dest: Path, es: seq<Entry>, complete: bool, archive: Path) returns (r: Outcome)
    ensures r == Unpack(fs, dest, es, complete, RarStyle, archive)
  {
    var cur := fs;
    for i := 0 to |es|
      invariant Unpack(cur, dest, es[i..], complete, RarStyle, archive) == Unpack(fs, dest, es, complete, RarStyle, archive)
    {
      assert es[i..][1..] == es[i + 1..];
      var e := es[i];
      if e.name.Some? && !e.isDir {
        var placed := PlaceEntry(cur, dest + e.name.value, false, e.data);
        if placed.Failed? {
          return placed;
        }
        cur := placed.fs;
      }
    }
    if !complete {
      return Failed(cur, DecodeFailure(archive));
    }
    return Done(cur);
  }

  /** The body shared by `sz`, `tar` and `gz`; the unpacking itself happens inside the library. */
  method LibraryExtract(fs: FS, codec: Codec, student: Path, archive: Path) returns (r: Outcome)
    ensures r == LibrarySpec(fs, codec, student, archive)
  {
    var listing := Open(fs, archive, codec);
    if listing.Unreadable? {
      return Failed(fs, DecodeFailure(archive));
    }
    var made := CreateDirAll(fs, student);
    if made.None? {
      return Failed(fs, IoFailure(student));
    }
    var unpacked := Unpack(made.value, student, listing.entries, listing.complete, LibraryStyle, archive);
    if !unpacked.Done? {
      return unpacked;
    }
    var removed := RemoveFile(unpacked.fs, archive);
    if removed.None? {
      return Failed(unpacked.fs, IoFailure(archive));
    }
    return Done(removed.value);
  }

  method Sz(fs: FS, codecs: Codecs, tmp: Path, student: Path, archive: Path) returns (r: Outcome)
    ensures r == ExtractSpec(SevenZArchive, fs, codecs, tmp, student, archive)
  {
    r := LibraryExtract(fs, codecs.sevenZ, student, archive);
  }

  method Tar(fs: FS, codecs: Codecs, tmp: Path, student: Path, archive: Path) returns (r: Outcome)
    ensures r == ExtractSpec(TarArchive, fs, codecs, tmp, student, archive)
  {
    r := LibraryExtract(fs, codecs.tar, student, archive);
  }

  method Gz(fs: FS, codecs: Codecs, tmp: Path, student: Path, archive: Path) returns (r: Outcome)
    ensures r == ExtractSpec(TarGzArchive, fs, codecs, tmp, student, archive)
  {
    r := LibraryExtract(fs, codecs.tarGz, student, archive);
  }

  /** Calling the strategy chosen for an archive. */
  method Extract(s: Strategy, fs: FS, codecs: Codecs, tmp: Path, student: Path, archive: Path) returns (r: Outcome)
    ensures r == ExtractSpec(s, fs, codecs, tmp, student, archive)
  {
    match s
    case ZipArchive => r := Zip(fs, codecs, tmp, student, archive);
    case RarArchive => r := Rar(fs, codecs, tmp, student, archive);
    case SevenZArchive => r := Sz(fs, codecs, tmp, student, archive);
    case TarArchive => r := Tar(fs, codecs, tmp, student, archive);
    case TarGzArchive => r := Gz(fs, codecs, tmp, student, archive);
  }

  // ---------------------------------------------------------------------------
  // What every strategy guarantees.

  /**
   * When the student directory sits directly below `tmp`, which is how the
   * wrapper lays out submissions, every strategy unpacks into the student
   * directory.
   */
  lemma DestinationIsStudentDir(s: Strategy, tmp: Path, student: Path)
    requires |student| > 0 && tmp == Parent(student)
    ensures Destination(s, tmp, student) == Some(student)
  {
    assert Parent(student) + [student[|student| - 1]] == student;
  }

  /** Only `zip` can panic, and only `zip` and `rar` depend on `tmp`. */
  lemma OnlyZipPanics(s: Strategy, fs: FS, codecs: Codecs, tmp: Path, student: Path, archive: Path)
    ensures ExtractSpec(s, fs, codecs, tmp, student, archive).Panicked? ==> s.ZipArchive?
  {
    match s
    case ZipArchive =>
    case RarArchive =>
      if Open(fs, archive, codecs.rar).Listing? && FileName(student).Some? {
        var n := FileName(student).value;
        if CreateDirAll(fs, tmp + [n]).Some? {
          var d := Open(fs, archive, codecs.rar);
          UnpackPanicsOnlyOnUnenclosed(CreateDirAll(fs, tmp + [n]).value, tmp + [n], d.entries, d.complete, RarStyle, archive);
        }
      }
    case _ =>
      var d := Open(fs, archive, LibraryCodec(s, codecs));
      if d.Listing? && CreateDirAll(fs, student).Some? {
        UnpackPanicsOnlyOnUnenclosed(CreateDirAll(fs, student).value, student, d.entries, d.complete, LibraryStyle, archive);
      }
  }

  lemma LibraryIgnoresTmp(s: Strategy, fs: FS, codecs: Codecs, tmp1: Path, tmp2: Path, student: Path, archive: Path)
    requires !s.ZipArchive? && !s.RarArchive?
    ensures ExtractSpec(s, fs, codecs, tmp1, student, archive) == ExtractSpec(s, fs, codecs, tmp2, student, archive)
  {
  }

  /** The archive is untouched until the last step, which removes it. */
  lemma FinishRemovesArchive(fs: FS, u: Outcome, archive: Path)
    requires IsFile(fs, archive) && (u.Panicked? || Extends(fs, u.fs))
    ensures var r := Finish(u, archive);
      && (r.Done? ==> archive !in r.fs && Extends(fs - {archive}, r.fs))
      && (r.Failed? ==> IsFile(r.fs, archive))
  {
  }

  /**
   * A strategy that ran to its end has removed the archive and kept every
   * other entry that existed before, each with its kind; a strategy that
   * failed left the archive where it was.
   */
  lemma ArchiveRemovedExactlyOnSuccess(s: Strategy, fs: FS, codecs: Codecs, tmp: Path, student: Path, archive: Path)
    requires IsFile(fs, archive)
    ensures var r := ExtractSpec(s, fs, codecs, tmp, student, archive);
      && (r.Done? ==> archive !in r.fs && Extends(fs - {archive}, r.fs))
      && (r.Failed? ==> IsFile(r.fs, archive))
  {
    var codec := if s.ZipArchive? then codecs.zip else if s.RarArchive? then codecs.rar else LibraryCodec(s, codecs);
    var mode := if s.ZipArchive? then ZipStyle else if s.RarArchive? then RarStyle else LibraryStyle;
    match Destination(s, tmp, student)
    case None =>
    case Some(dest) =>
      if CreateDirAll(fs, dest).Some? {
        var fs1 := CreateDirAll(fs, dest).value;
        var d := Open(fs1, archive, codec);
        assert d == Open(fs, archive, codec);
        if d.Listing? {
          var u := Unpack(fs1, dest, d.entries, d.complete, mode, archive);
          if !u.Panicked? {
            ExtendsTransitive(fs, fs1, u.fs);
          }
          FinishRemovesArchive(fs, u, archive);
        } else {
          FinishRemovesArchive(fs, Failed(fs1, DecodeFailure(archive)), archive);
        }
      }
  }

  /** `fs'` keeps every entry of `fs` with its kind, except possibly the file `archive`. */
  ghost predicate KeptExceptArchive(fs: FS, fs': FS, archive: Path) {
    forall q :: q in fs && !(q == archive && fs[q].File?) ==> q in fs' && fs'[q].Dir? == fs[q].Dir?
  }

  lemma FinishKeeps(fs: FS, u: Outcome, archive: Path)
    requires !u.Panicked? && Extends(fs, u.fs)
    ensures KeptExceptArchive(fs, Finish(u, archive).fs, archive)
  {
  }

  /** No strategy that returns deletes anything but the archive file, or turns a directory into a file. */
  lemma ExtractKeepsKinds(s: Strategy, fs: FS, codecs: Codecs, tmp: Path, student: Path, archive: Path)
    requires !ExtractSpec(s, fs, codecs, tmp, student, archive).Panicked?
    ensures KeptExceptArchive(fs, ExtractSpec(s, fs, codecs, tmp, student, archive).fs, archive)
  {
    var codec := if s.ZipArchive? then codecs.zip else if s.RarArchive? then codecs.rar else LibraryCodec(s, codecs);
    var mode := if s.ZipArchive? then ZipStyle else if s.RarArchive? then RarStyle else LibraryStyle;
    match Destination(s, tmp, student)
    case None =>
    case Some(dest) =>
      if CreateDirAll(fs, dest).Some? {
        var fs1 := CreateDirAll(fs, dest).value;
        var d := Open(fs1, archive, codec);
        assert d == Open(fs, archive, codec);
        if d.Listing? {
          var u := Unpack(fs1, dest, d.entries, d.complete, mode, archive);
          ExtendsTransitive(fs, fs1, u.fs);
          FinishKeeps(fs, u, archive);
        } else {
          FinishKeeps(fs, Failed(fs1, DecodeFailure(archive)), archive);
        }
      }
  }

  /**
   * An archive that is missing or cannot be opened is reported as such. `rar`
   * and the library-backed strategies open it before touching anything;
   * `zip` has created its destination by then.
   */
  lemma UnreadableArchive(s: Strategy, fs: FS, codecs: Codecs, tmp: Path, student: Path, archive: Path)
    requires !IsFile(fs, archive) || (match s
      case ZipArchive => codecs.zip(fs[archive].content)
      case RarArchive => codecs.rar(fs[archive].content)
      case _ => LibraryCodec(s, codecs)(fs[archive].content)).Unreadable?
    ensures !s.ZipArchive? ==> ExtractSpec(s, fs, codecs, tmp, student, archive) == Failed(fs, DecodeFailure(archive))
    ensures s.ZipArchive? && FileName(student).Some? && CreateDirAll(fs, tmp + [FileName(student).value]).Some? ==>
      ExtractSpec(s, fs, codecs, tmp, student, archive)
        == Failed(CreateDirAll(fs, tmp + [FileName(student).value]).value, DecodeFailure(archive))
  {
    if s.ZipArchive? && FileName(student).Some? {
      var dest := tmp + [FileName(student).value];
      if CreateDirAll(fs, dest).Some? {
        UnzipUnreadable(CreateDirAll(fs, dest).value, archive, dest, codecs.zip);
      }
    }
  }

  /** `fs'` agrees with `fs` outside `dest`, except possibly at `archive`. */
  ghost predicate KeptOutside(fs: FS, fs': FS, dest: Path, archive: Path) {
    forall q :: q != archive && !(dest <= q) ==> (q in fs <==> q in fs') && (q in fs ==> fs'[q] == fs[q])
  }

  /** The stages after `create_dir_all(dest)`: unpacking below `dest`, then removing the archive. */
  lemma UnpackedStaysInDestination(fs: FS, fs1: FS, dest: Path, u: Outcome, archive: Path)
    requires Confined(fs, fs1, dest)
    requires Wf(fs1) && !u.Panicked? && Wf(u.fs) && Confined(fs1, u.fs, dest)
    ensures Wf(Finish(u, archive).fs) && KeptOutside(fs, Finish(u, archive).fs, dest, archive)
  {
    if u.Done? && RemoveFile(u.fs, archive).Some? {
      RemoveFileKeepsWf(u.fs, archive);
    }
  }

  /**
   * Below an existing parent directory, a strategy that did not panic keeps
   * the tree shape and changes nothing outside its destination except for
   * removing the archive.
   */
  lemma ExtractStaysInDestination(s: Strategy, fs: FS, codecs: Codecs, tmp: Path, student: Path, archive: Path, dest: Path)
    requires Wf(fs)
    requires Destination(s, tmp, student) == Some(dest) && |dest| > 0
    requires |dest| > 1 ==> IsDir(fs, Parent(dest))
    requires !ExtractSpec(s, fs, codecs, tmp, student, archive).Panicked?
    ensures Wf(ExtractSpec(s, fs, codecs, tmp, student, archive).fs)
    ensures KeptOutside(fs, ExtractSpec(s, fs, codecs, tmp, student, archive).fs, dest, archive)
  {
    var codec := if s.ZipArchive? then codecs.zip else if s.RarArchive? then codecs.rar else LibraryCodec(s, codecs);
    var mode := if s.ZipArchive? then ZipStyle else if s.RarArchive? then RarStyle else LibraryStyle;
    if CreateDirAll(fs, dest).Some? {
      var fs1 := CreateDirAll(fs, dest).value;
      CreateDirAllUnderDir(fs, dest);
      CreateDirAllKeepsWf(fs, dest);
      assert dest[..|dest|] == dest;
      var d := Open(fs1, archive, codec);
      assert d == Open(fs, archive, codec);
      var u := if d.Unreadable? then Failed(fs1, DecodeFailure(archive)) else Unpack(fs1, dest, d.entries, d.complete, mode, archive);
      if d.Listing? && !u.Panicked? {
        UnpackStaysBelow(fs1, dest, d.entries, d.complete, mode, archive);
      }
      if !u.Panicked? {
        UnpackedStaysInDestination(fs, fs1, dest, u, archive);
      }
    }
  }
}
