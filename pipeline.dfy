/**
 * `prepare` in `main.rs`: every child of the temporary directory is one
 * student's submission. Its tree is walked, files that are not archives are
 * deleted, and the single archive found is extracted with the strategy its
 * extension selects. Submissions with no archive, or with more than one, are
 * removed. The remaining tree is then sanitized and its Java sources
 * transliterated.
 */
module Pipeline {
  import opened FileSystem
  import opened Archives
  import opened Helper
  import opened ArchiveHandler

  // ---------------------------------------------------------------------------
  // The extension match.

  /** The strategy the lower-cased extension selects; `gz` is taken to be `tar.gz`. */
  function StrategyFor(ext: Option<string>): Option<Strategy> {
    match ext
    case None => None
    case Some(e) =>
      var l := AsciiLower(e);
      if l == "zip" then Some(ZipArchive)
      else if l == "rar" then Some(RarArchive)
      else if l == "7z" then Some(SevenZArchive)
      else if l == "tar" then Some(TarArchive)
      else if l == "gz" then Some(TarGzArchive)
      else None
  }

  /** The lower-case extension that selects each strategy. */
  function ExtensionOf(s: Strategy): string {
    match s
    case ZipArchive => "zip"
    case RarArchive => "rar"
    case SevenZArchive => "7z"
    case TarArchive => "tar"
    case TarGzArchive => "gz"
  }

  /** The strategy a walked path selects, if any. */
  function StrategyOf(p: Path): Option<Strategy> {
    StrategyFor(PathExtension(p))
  }

  /** A strategy is selected exactly by its own extension, in any ASCII case. */
  lemma StrategyForIff(ext: Option<string>, s: Strategy)
    ensures StrategyFor(ext) == Some(s) <==> ext.Some? && AsciiLower(ext.value) == ExtensionOf(s)
  {
  }

  /** No other extension, and no extension at all, selects a strategy. */
  lemma StrategyForNone(ext: Option<string>)
    ensures StrategyFor(ext).None? <==>
      ext.None? || AsciiLower(ext.value) !in {"zip", "rar", "7z", "tar", "gz"}
  {
  }

  /** The match does not depend on the case of the extension. */
  lemma StrategyForIgnoresCase(e: string)
    ensures StrategyFor(Some(AsciiLower(e))) == StrategyFor(Some(e))
  {
    AsciiLowerIdempotent(e);
  }

  // ---------------------------------------------------------------------------
  // The walk over one student directory.

  /**
   * The state of the walk loop: the tree, the archive candidate
   * `archive_file`, and `fun`, the strategy last selected (`None` is the
   * `dummy` placeholder).
   */
  datatype Scanned = Scanned(fs: FS, archive: Option<Path>, fun: Option<Strategy>)

  /** A recorded candidate always goes together with the strategy its own extension selects. */
  predicate FunMatches(archive: Option<Path>, fun: Option<Strategy>) {
    archive.Some? ==> fun.Some? && fun == StrategyOf(archive.value)
  }

  /**
   * The walk loop from the state `archive`, `fun` over the remaining entries
   * `w`. An entry without a strategy is deleted if it is a file and skipped
   * otherwise. The first entry with a strategy becomes the candidate; a
   * second one clears the candidate and ends the walk.
   */
  function ScanSpec(fs: FS, w: seq<Path>, archive: Option<Path>, fun: Option<Strategy>): (r: Scanned)
    ensures FunMatches(archive, fun) ==> FunMatches(r.archive, r.fun)
    decreases |w|
  {
    if w == [] then Scanned(fs, archive, fun)
    else
      match StrategyOf(w[0])
      case None => ScanSpec(if IsFile(fs, w[0]) then fs - {w[0]} else fs, w[1..], archive, fun)
      case Some(s) =>
        if archive.Some? then Scanned(fs, None, Some(s))
        else ScanSpec(fs, w[1..], Some(w[0]), Some(s))
  }

  method Scan(fs: FS, w: seq<Path>) returns (r: Scanned)
    ensures r == ScanSpec(fs, w, None, None)
  {
    var cur := fs;
    var archive: Option<Path> := None;
    var fun: Option<Strategy> := None;
    var i := 0;
    while i < |w|
      invariant 0 <= i <= |w|
      invariant ScanSpec(cur, w[i..], archive, fun) == ScanSpec(fs, w, None, None)
    {
      assert w[i..][1..] == w[i + 1..];
      var p := w[i];
      var selected := StrategyOf(p);
      if selected.None? {
        if IsFile(cur, p) {
          cur := RemoveFile(cur, p).value;
        }
        i := i + 1;
        continue;
      }
      fun := selected;
      if archive.Some? {
        archive := None;
        break;
      }
      archive := Some(p);
      i := i + 1;
    }
    return Scanned(cur, archive, fun);
  }

  /** The entries of a walk that select a strategy, in walk order. */
  function Recognized(w: seq<Path>): (r: seq<Path>)
    ensures forall p :: p in r <==> p in w && StrategyOf(p).Some?
    decreases |w|
  {
    if w == [] then []
    else (if StrategyOf(w[0]).Some? then [w[0]] else []) + Recognized(w[1..])
  }

  /**
   * The candidate left by the walk: the only recognized entry when there is
   * exactly one, and none when there are none or several.
   */
  lemma {:induction false} ScanCandidate(fs: FS, w: seq<Path>, a: Option<Path>, fun: Option<Strategy>)
    ensures a.None? ==>
      ScanSpec(fs, w, a, fun).archive == (if |Recognized(w)| == 1 then Some(Recognized(w)[0]) else None)
    ensures a.Some? ==>
      ScanSpec(fs, w, a, fun).archive == (if |Recognized(w)| == 0 then a else None)
    decreases |w|
  {
    if w != [] {
      var fs1 := if IsFile(fs, w[0]) then fs - {w[0]} else fs;
      match StrategyOf(w[0])
      case None =>
        ScanCandidate(fs1, w[1..], a, fun);
      case Some(s) =>
        ScanCandidate(fs, w[1..], Some(w[0]), Some(s));
    }
  }

  /** The walk is stopped early by a second recognized entry. */
  predicate Stopped(w: seq<Path>, archive: Option<Path>) {
    |Recognized(w)| >= (if archive.Some? then 1 else 2)
  }

  /** `fs` without the files among `w` that select no strategy. */
  ghost function PlainFilesRemoved(fs: FS, w: seq<Path>): FS {
    map q | q in fs && !(q in w && fs[q].File? && StrategyOf(q).None?) :: fs[q]
  }

  /**
   * The walk deletes only files that select no strategy, and never a
   * directory; when it is not stopped early it deletes all such files among
   * the walked entries.
   */
  lemma {:induction false} ScanDeletes(fs: FS, w: seq<Path>, a: Option<Path>, fun: Option<Strategy>)
    ensures var r := ScanSpec(fs, w, a, fun).fs;
      forall q :: q in r ==> q in fs && r[q] == fs[q]
    ensures var r := ScanSpec(fs, w, a, fun).fs;
      forall q :: q in fs && q !in r ==> q in w && fs[q].File? && StrategyOf(q).None?
    ensures !Stopped(w, a) ==> ScanSpec(fs, w, a, fun).fs == PlainFilesRemoved(fs, w)
    decreases |w|
  {
    if w != [] {
      var fs1 := if IsFile(fs, w[0]) then fs - {w[0]} else fs;
      match StrategyOf(w[0])
      case None =>
        ScanDeletes(fs1, w[1..], a, fun);
        if !Stopped(w, a) {
          assert Recognized(w) == Recognized(w[1..]);
          assert PlainFilesRemoved(fs1, w[1..]) == PlainFilesRemoved(fs, w);
        }
      case Some(s) =>
        if a.None? {
          ScanDeletes(fs, w[1..], Some(w[0]), Some(s));
          if !Stopped(w, a) {
            assert Recognized(w) == [w[0]] + Recognized(w[1..]);
            assert PlainFilesRemoved(fs, w[1..]) == PlainFilesRemoved(fs, w);
          }
        } else {
          assert Recognized(w) == [w[0]] + Recognized(w[1..]);
        }
    }
  }

  // ---------------------------------------------------------------------------
  // The loop over the students.

  /** The order `fs::read_dir` lists a directory in is an oracle, like the walk order. */
  type Lister = (FS, Path) -> seq<Path>

  predicate ChildOf(d: Path, c: Path) {
    |c| == |d| + 1 && d <= c
  }

  ghost predicate Distinct(s: seq<Path>) {
    forall i, j :: 0 <= i < j < |s| ==> s[i] != s[j]
  }

  /** `cs` lists every entry directly inside `d` exactly once. */
  ghost predicate IsListing(fs: FS, d: Path, cs: seq<Path>) {
    && (forall i :: 0 <= i < |cs| ==> cs[i] in fs && ChildOf(d, cs[i]))
    && (forall q :: q in fs && ChildOf(d, q) ==> q in cs)
    && Distinct(cs)
  }

  ghost predicate ListerOk(lister: Lister) {
    forall fs, d :: IsDir(fs, d) ==> IsListing(fs, d, lister(fs, d))
  }

  /** The walk over the student directory `c` from a fresh candidate and the `dummy` strategy. */
  function Candidate(fs: FS, c: Path, walker: Walker): Scanned {
    ScanSpec(fs, walker(fs, c), None, None)
  }

  /**
   * One student directory after the walk: the candidate, if there is one, is
   * extracted with the strategy the walk selected. An extraction error is
   * logged and dropped, keeping whatever the strategy left behind; a panic
   * ends everything.
   */
  function ProcessChild(fs: FS, codecs: Codecs, tmp: Path, c: Path, walker: Walker): Outcome {
    var sc := Candidate(fs, c, walker);
    match sc.archive
    case None => Done(sc.fs)
    case Some(a) =>
      var r := ExtractSpec(sc.fun.value, sc.fs, codecs, tmp, c, a);
      if r.Panicked? then Panicked else Done(r.fs)
  }

  /** The state of the loop over the students: the outcome so far and the `no_zip` list. */
  datatype Swept = Swept(out: Outcome, noZip: seq<Path>)

  /**
   * The loop over the listed children `cs` of `tmp`: a child that is not a
   * directory ends it with an error; a child without a single candidate is
   * remembered in `noZip`.
   */
  function ExtractChildren(fs: FS, codecs: Codecs, tmp: Path, cs: seq<Path>, walker: Walker, noZip: seq<Path>): Swept
    decreases |cs|
  {
    if cs == [] then Swept(Done(fs), noZip)
    else if !IsDir(fs, cs[0]) then Swept(Failed(fs, NotADirectory(cs[0])), noZip)
    else
      var r := ProcessChild(fs, codecs, tmp, cs[0], walker);
      if r.Panicked? then Swept(Panicked, noZip)
      else
        ExtractChildren(r.fs, codecs, tmp, cs[1..], walker, NextNoZip(fs, cs[0], walker, noZip))
  }

  /** `fs::remove_dir_all` on each path in turn, stopping at the first failure. */
  function RemoveAll(fs: FS, ds: seq<Path>): Outcome
    decreases |ds|
  {
    if ds == [] then Done(fs)
    else
      match RemoveDirAll(fs, ds[0])
      case None => Failed(fs, IoFailure(ds[0]))
      case Some(fs1) => RemoveAll(fs1, ds[1..])
  }

  /**
   * `prepare` up to sanitizing: list `tmp`, process each student and remove
   * the directories left without an archive.
   */
  function ExtractAll(fs: FS, codecs: Codecs, tmp: Path, lister: Lister, walker: Walker): Outcome {
    if !IsDir(fs, tmp) then Failed(fs, if tmp in fs then NotADirectory(tmp) else NotFound(tmp))
    else
      var sw := ExtractChildren(fs, codecs, tmp, lister(fs, tmp), walker, []);
      if sw.out.Done? then RemoveAll(sw.out.fs, sw.noZip) else sw.out
  }

  method ExtractSubmissions(fs: FS, codecs: Codecs, tmp: Path, cs: seq<Path>, walker: Walker) returns (sw: Swept)
    ensures sw == ExtractChildren(fs, codecs, tmp, cs, walker, [])
  {
    var cur := fs;
    var noZip: seq<Path> := [];
    for i := 0 to |cs|
      invariant ExtractChildren(cur, codecs, tmp, cs[i..], walker, noZip) == ExtractChildren(fs, codecs, tmp, cs, walker, [])
    {
      assert cs[i..][1..] == cs[i + 1..];
      var c := cs[i];
      if !IsDir(cur, c) {
        return Swept(Failed(cur, NotADirectory(c)), noZip);
      }
      var sc := Scan(cur, walker(cur, c));
      if sc.archive.None? {
        noZip := noZip + [c];
        cur := sc.fs;
      } else {
        var r := Extract(sc.fun.value, sc.fs, codecs, tmp, c, sc.archive.value);
        if r.Panicked? {
          return Swept(Panicked, noZip);
        }
        // a failed extraction is only logged
        cur := r.fs;
      }
    }
    return Swept(Done(cur), noZip);
  }

  method RemoveSubmissions(fs: FS, ds: seq<Path>) returns (r: Outcome)
    ensures r == RemoveAll(fs, ds)
  {
    var cur := fs;
    for i := 0 to |ds|
      invariant RemoveAll(cur, ds[i..]) == RemoveAll(fs, ds)
    {
      assert ds[i..][1..] == ds[i + 1..];
      var removed := RemoveDirAll(cur, ds[i]);
      if removed.None? {
        return Failed(cur, IoFailure(ds[i]));
      }
      cur := removed.value;
    }
    return Done(cur);
  }

  /**
   * `prepare`: extraction and removal as `ExtractAll`, then
   * `sanitize_submissions` and `clean_non_ascii` on the whole of `tmp`.
   */
  method Prepare(fs: FS, codecs: Codecs, tmp: Path, keepNonAscii: bool, utf8: Utf8Check, lister: Lister, walker: Walker)
    returns (r: Outcome)
    requires WalkerOk(walker)
    ensures var e := ExtractAll(fs, codecs, tmp, lister, walker);
      !e.Done? ==> r == e
    ensures var e := ExtractAll(fs, codecs, tmp, lister, walker);
      r.Done? ==>
        && e.Done? && SanitizeSucceeds(e.fs, tmp) && JavaDecodes(Sanitized(e.fs, tmp), tmp, utf8)
        && r.fs == Cleaned(Sanitized(e.fs, tmp), tmp, Cleaner(keepNonAscii))
    ensures var e := ExtractAll(fs, codecs, tmp, lister, walker);
      e.Done? && SanitizeSucceeds(e.fs, tmp) && tmp in Sanitized(e.fs, tmp) && Wf(Sanitized(e.fs, tmp)) ==>
        (r.Done? <==> JavaDecodes(Sanitized(e.fs, tmp), tmp, utf8))
    ensures r.Panicked? <==> ExtractAll(fs, codecs, tmp, lister, walker).Panicked?
  {
    if !IsDir(fs, tmp) {
      return Failed(fs, if tmp in fs then NotADirectory(tmp) else NotFound(tmp));
    }
    var sw := ExtractSubmissions(fs, codecs, tmp, lister(fs, tmp), walker);
    if !sw.out.Done? {
      return sw.out;
    }
    var removed := RemoveSubmissions(sw.out.fs, sw.noZip);
    if !removed.Done? {
      return removed;
    }
    var sanitized := SanitizeSubmissions(removed.fs, tmp, walker);
    if !sanitized.Done? {
      return sanitized;
    }
    r := CleanNonAscii(sanitized.fs, tmp, keepNonAscii, utf8, walker);
  }

  // ---------------------------------------------------------------------------
  // What `prepare` guarantees.

  /** The entries at or below `c` that select a strategy. */
  ghost function ArchivesBelow(fs: FS, c: Path): set<Path> {
    set q | q in fs && c <= q && StrategyOf(q).Some?
  }

  /** `fs` and `fs'` agree on everything at or below `d`. */
  ghost predicate SameBelow(fs: FS, fs': FS, d: Path) {
    forall q :: d <= q ==> (q in fs <==> q in fs') && (q in fs ==> fs'[q] == fs[q])
  }

  lemma {:induction false} RecognizedDistinct(w: seq<Path>)
    requires Distinct(w)
    ensures Distinct(Recognized(w))
    decreases |w|
  {
    if w != [] {
      RecognizedDistinct(w[1..]);
      var rest := Recognized(w[1..]);
      if StrategyOf(w[0]).Some? {
        assert Recognized(w) == [w[0]] + rest;
        assert w[0] !in w[1..];
      }
    }
  }

  /** Over a walk, the recognized entries are exactly the archive entries below its root. */
  lemma RecognizedAreArchives(fs: FS, c: Path, w: seq<Path>)
    requires IsWalk(fs, c, w)
    ensures forall x :: x in Recognized(w) <==> x in ArchivesBelow(fs, c)
  {
  }

  /** A duplicate-free sequence whose elements all lie in a one-element set has at most one element. */
  lemma SingletonSeq(rs: seq<Path>, s: set<Path>)
    requires Distinct(rs) && |s| == 1 && forall x :: x in rs <==> x in s
    ensures |rs| == 1 && s == {rs[0]}
  {
    var a :| a in s;
    assert s == {a} by {
      assert |s - {a}| == 0;
    }
    assert a in rs;
    forall i | 0 <= i < |rs| ensures rs[i] == a {
      assert rs[i] in rs;
    }
    // the first and the last element are both `a`, so they are the same element
    assert rs[0] == a && rs[|rs| - 1] == a;
  }

  /**
   * The walk of a student directory ends with a candidate exactly when the
   * directory holds exactly one entry with an archive extension, and the
   * candidate is that entry.
   */
  lemma CandidateIsSingleArchive(fs: FS, c: Path, w: seq<Path>)
    requires IsWalk(fs, c, w)
    ensures ScanSpec(fs, w, None, None).archive.Some? <==> |ArchivesBelow(fs, c)| == 1
    ensures ScanSpec(fs, w, None, None).archive.Some? ==> ArchivesBelow(fs, c) == {ScanSpec(fs, w, None, None).archive.value}
  {
    ScanCandidate(fs, w, None, None);
    RecognizedDistinct(w);
    RecognizedAreArchives(fs, c, w);
    SameElements(Recognized(w), ArchivesBelow(fs, c));
  }

  /** A duplicate-free sequence has one element exactly when the set of its elements has one. */
  lemma SameElements(rs: seq<Path>, ab: set<Path>)
    requires Distinct(rs) && forall x :: x in rs <==> x in ab
    ensures |rs| == 1 <==> |ab| == 1
    ensures |rs| == 1 ==> ab == {rs[0]}
  {
    if |rs| == 1 {
      assert ab == {rs[0]};
    } else if |ab| == 1 {
      SingletonSeq(rs, ab);
    } else if |rs| > 0 {
      assert rs[0] in ab;
    }
  }

  lemma ApartChildren(tmp: Path, c: Path, d: Path, q: Path)
    requires ChildOf(tmp, c) && ChildOf(tmp, d) && c != d && d <= q
    ensures !(c <= q)
  {
  }

  /** One student's turn, confined to its own directory, leaves every other student directory as it was. */
  lemma OtherChildUntouched(fs: FS, fs1: FS, tmp: Path, c: Path, d: Path)
    requires Confined(fs, fs1, c) && ChildOf(tmp, c) && ChildOf(tmp, d) && c != d
    ensures SameBelow(fs, fs1, d)
  {
    forall q | d <= q ensures (q in fs <==> q in fs1) && (q in fs ==> fs1[q] == fs[q]) {
      ApartChildren(tmp, c, d, q);
    }
  }

  lemma SameBelowArchives(fs: FS, fs': FS, d: Path)
    requires SameBelow(fs, fs', d)
    ensures ArchivesBelow(fs, d) == ArchivesBelow(fs', d)
  {
  }

  /** Deleting only files keeps the tree shape. */
  lemma RemovingFilesKeepsWf(fs: FS, fs': FS)
    requires Wf(fs)
    requires forall q :: q in fs' ==> q in fs && fs'[q] == fs[q]
    requires forall q :: q in fs && q !in fs' ==> fs[q].File?
    ensures Wf(fs')
  {
    forall p, k | p in fs' && 1 <= k < |p| ensures IsDir(fs', p[..k]) {
      assert IsDir(fs, p[..k]);
    }
  }

  /**
   * One student's turn keeps the tree shape, changes nothing outside the
   * student directory and leaves that directory in place.
   */
  lemma ProcessChildStaysInside(fs: FS, codecs: Codecs, tmp: Path, c: Path, walker: Walker)
    requires Wf(fs) && IsDir(fs, tmp) && ChildOf(tmp, c) && IsDir(fs, c)
    requires IsWalk(fs, c, walker(fs, c))
    requires !ProcessChild(fs, codecs, tmp, c, walker).Panicked?
    ensures var r := ProcessChild(fs, codecs, tmp, c, walker).fs;
      Wf(r) && Confined(fs, r, c) && IsDir(r, c)
  {
    var w := walker(fs, c);
    var sc := Candidate(fs, c, walker);
    ScanDeletes(fs, w, None, None);
    RemovingFilesKeepsWf(fs, sc.fs);
    assert Confined(fs, sc.fs, c);
    assert !(c <= tmp);
    if sc.archive.Some? {
      var a := sc.archive.value;
      CandidateIsSingleArchive(fs, c, w);
      assert a in ArchivesBelow(fs, c);
      var s := sc.fun.value;
      assert Parent(c) == tmp;
      DestinationIsStudentDir(s, tmp, c);
      ExtractStaysInDestination(s, sc.fs, codecs, tmp, c, a, c);
      ExtractKeepsKinds(s, sc.fs, codecs, tmp, c, a);
    }
  }

  /** The `no_zip` list after the turn of `c`. */
  function NextNoZip(fs: FS, c: Path, walker: Walker, noZip: seq<Path>): seq<Path> {
    if Candidate(fs, c, walker).archive.None? then noZip + [c] else noZip
  }

  /** The preconditions of the loop facts: the children of `tmp` still to come, and `no_zip` so far. */
  ghost predicate LoopReady(fs: FS, tmp: Path, cs: seq<Path>, noZip: seq<Path>) {
    && Wf(fs) && IsDir(fs, tmp)
    && (forall i :: 0 <= i < |cs| ==> ChildOf(tmp, cs[i]))
    && Distinct(cs) && Distinct(noZip)
    && (forall i :: 0 <= i < |noZip| ==> ChildOf(tmp, noZip[i]) && IsDir(fs, noZip[i]) && noZip[i] !in cs)
  }

  /** The turn of one child `c` of `tmp`: it leaves the tree shape, `tmp`, `c` and every other child as they were. */
  lemma ChildTurn(fs: FS, codecs: Codecs, tmp: Path, c: Path, walker: Walker)
    requires WalkerOk(walker) && Wf(fs) && IsDir(fs, tmp) && ChildOf(tmp, c) && IsDir(fs, c)
    requires !ProcessChild(fs, codecs, tmp, c, walker).Panicked?
    ensures var fs1 := ProcessChild(fs, codecs, tmp, c, walker).fs;
      && Wf(fs1) && IsDir(fs1, tmp) && Confined(fs, fs1, tmp) && IsDir(fs1, c)
      && (forall d :: ChildOf(tmp, d) && d != c ==> SameBelow(fs, fs1, d))
    ensures Candidate(fs, c, walker).archive.None? <==> |ArchivesBelow(fs, c)| != 1
  {
    var fs1 := ProcessChild(fs, codecs, tmp, c, walker).fs;
    assert IsWalk(fs, c, walker(fs, c));
    ProcessChildStaysInside(fs, codecs, tmp, c, walker);
    CandidateIsSingleArchive(fs, c, walker(fs, c));
    assert !(c <= tmp);
    forall d | ChildOf(tmp, d) && d != c ensures SameBelow(fs, fs1, d) {
      OtherChildUntouched(fs, fs1, tmp, c, d);
    }
  }

  /** The turn of the first child: what it leaves behind for the rest of the loop. */
  lemma ChildStep(fs: FS, codecs: Codecs, tmp: Path, cs: seq<Path>, walker: Walker, noZip: seq<Path>)
    requires WalkerOk(walker) && LoopReady(fs, tmp, cs, noZip)
    requires cs != [] && IsDir(fs, cs[0]) && !ProcessChild(fs, codecs, tmp, cs[0], walker).Panicked?
    ensures var fs1 := ProcessChild(fs, codecs, tmp, cs[0], walker).fs;
      && LoopReady(fs1, tmp, cs[1..], NextNoZip(fs, cs[0], walker, noZip))
      && Confined(fs, fs1, tmp) && IsDir(fs1, cs[0])
      && (forall d :: ChildOf(tmp, d) && d != cs[0] ==> SameBelow(fs, fs1, d))
    ensures Candidate(fs, cs[0], walker).archive.None? <==> |ArchivesBelow(fs, cs[0])| != 1
  {
    var c := cs[0];
    var fs1 := ProcessChild(fs, codecs, tmp, c, walker).fs;
    ChildTurn(fs, codecs, tmp, c, walker);
    var rest := cs[1..];
    RestReady(tmp, cs);
    if Candidate(fs, c, walker).archive.None? {
      NoZipStep(fs, fs1, tmp, c, rest, noZip, noZip + [c]);
    } else {
      NoZipStep(fs, fs1, tmp, c, rest, noZip, noZip);
    }
  }

  lemma RestReady(tmp: Path, cs: seq<Path>)
    requires cs != [] && Distinct(cs) && forall i :: 0 <= i < |cs| ==> ChildOf(tmp, cs[i])
    ensures cs[0] !in cs[1..] && Distinct(cs[1..])
    ensures forall i :: 0 <= i < |cs[1..]| ==> ChildOf(tmp, cs[1..][i])
    ensures forall d :: d in cs <==> d == cs[0] || d in cs[1..]
  {
    assert forall i :: 0 <= i < |cs[1..]| ==> cs[1..][i] == cs[i + 1];
  }

  /** `no_zip` after the turn of `c`, with or without `c` added, is still ready for the rest of the loop. */
  lemma NoZipStep(fs: FS, fs1: FS, tmp: Path, c: Path, rest: seq<Path>, noZip: seq<Path>, noZip': seq<Path>)
    requires noZip' == noZip + [c] || noZip' == noZip
    requires Distinct(noZip) && ChildOf(tmp, c) && IsDir(fs1, c) && c !in rest
    requires forall i :: 0 <= i < |noZip| ==> ChildOf(tmp, noZip[i]) && IsDir(fs, noZip[i]) && noZip[i] !in [c] + rest
    requires forall d :: ChildOf(tmp, d) && d != c ==> SameBelow(fs, fs1, d)
    ensures Distinct(noZip')
    ensures forall i :: 0 <= i < |noZip'| ==> ChildOf(tmp, noZip'[i]) && IsDir(fs1, noZip'[i]) && noZip'[i] !in rest
  {
    forall i | 0 <= i < |noZip'| ensures ChildOf(tmp, noZip'[i]) && IsDir(fs1, noZip'[i]) && noZip'[i] !in rest {
      if i < |noZip| {
        assert noZip'[i] == noZip[i] && noZip[i] != c;
        assert SameBelow(fs, fs1, noZip[i]);
      }
    }
    forall i, j | 0 <= i < j < |noZip'| ensures noZip'[i] != noZip'[j] {
      if j == |noZip| {
        assert noZip[i] != c;
      }
    }
  }

  /** The loop keeps the tree shape and `tmp`, and touches no student directory except those it visits. */
  lemma {:induction false} LoopFrame(fs: FS, codecs: Codecs, tmp: Path, cs: seq<Path>, walker: Walker, noZip: seq<Path>)
    requires WalkerOk(walker) && LoopReady(fs, tmp, cs, noZip)
    ensures var sw := ExtractChildren(fs, codecs, tmp, cs, walker, noZip);
      !sw.out.Panicked? ==>
        && Wf(sw.out.fs) && IsDir(sw.out.fs, tmp) && Confined(fs, sw.out.fs, tmp)
        && forall d :: ChildOf(tmp, d) && d !in cs ==> SameBelow(fs, sw.out.fs, d)
    decreases |cs|
  {
    if cs != [] && IsDir(fs, cs[0]) && !ProcessChild(fs, codecs, tmp, cs[0], walker).Panicked? {
      var fs1 := ProcessChild(fs, codecs, tmp, cs[0], walker).fs;
      ChildStep(fs, codecs, tmp, cs, walker, noZip);
      LoopFrame(fs1, codecs, tmp, cs[1..], walker, NextNoZip(fs, cs[0], walker, noZip));
      var sw := ExtractChildren(fs1, codecs, tmp, cs[1..], walker, NextNoZip(fs, cs[0], walker, noZip));
      if !sw.out.Panicked? {
        forall d | ChildOf(tmp, d) && d !in cs ensures SameBelow(fs, sw.out.fs, d) {
          assert d != cs[0] && d !in cs[1..];
          assert SameBelow(fs, fs1, d) && SameBelow(fs1, sw.out.fs, d);
        }
      }
    }
  }

  /**
   * What a loop over `cs` that ran to the end, starting from `fs` and
   * `noZip` and ending in `fsEnd` and `noZipEnd`, has established.
   */
  ghost predicate DoneFacts(fs: FS, fsEnd: FS, tmp: Path, cs: seq<Path>, noZip: seq<Path>, noZipEnd: seq<Path>) {
    && (forall i :: 0 <= i < |cs| ==> IsDir(fs, cs[i]))
    && (forall d :: d in noZipEnd <==> d in noZip || (d in cs && |ArchivesBelow(fs, d)| != 1))
    && LoopReady(fsEnd, tmp, [], noZipEnd)
    && (forall d :: d in cs && |ArchivesBelow(fs, d)| == 1 ==> IsDir(fsEnd, d))
  }

  /** The facts for the rest of the loop, from `fs1` on, give those for the whole loop from `fs`. */
  lemma DoneStep(fs: FS, fs1: FS, fsEnd: FS, tmp: Path, cs: seq<Path>, noZip: seq<Path>, noZip': seq<Path>, noZipEnd: seq<Path>)
    requires cs != [] && DoneFacts(fs1, fsEnd, tmp, cs[1..], noZip', noZipEnd)
    requires IsDir(fs, cs[0]) && IsDir(fs1, cs[0]) && cs[0] !in cs[1..] && SameBelow(fs1, fsEnd, cs[0])
    requires forall i :: 0 <= i < |cs| ==> ChildOf(tmp, cs[i])
    requires forall d :: ChildOf(tmp, d) && d != cs[0] ==> SameBelow(fs, fs1, d)
    requires noZip' == if |ArchivesBelow(fs, cs[0])| != 1 then noZip + [cs[0]] else noZip
    ensures DoneFacts(fs, fsEnd, tmp, cs, noZip, noZipEnd)
  {
    var c := cs[0];
    forall d | d in cs[1..] ensures ArchivesBelow(fs1, d) == ArchivesBelow(fs, d) && (IsDir(fs1, d) <==> IsDir(fs, d)) {
      var i :| 0 <= i < |cs[1..]| && cs[1..][i] == d;
      assert cs[i + 1] == d;
      assert d != c && SameBelow(fs, fs1, d);
      SameBelowArchives(fs, fs1, d);
    }
    forall i | 0 <= i < |cs| ensures IsDir(fs, cs[i]) {
      if i > 0 {
        assert cs[i] == cs[1..][i - 1];
      }
    }
    forall d ensures d in cs <==> d == c || d in cs[1..] {
      if d in cs {
        var i :| 0 <= i < |cs| && cs[i] == d;
        if i > 0 {
          assert cs[1..][i - 1] == d;
        }
      }
    }
  }

  /**
   * A loop that ran through every child met directories only; it put into
   * `no_zip` exactly the children without a single archive, which are all
   * still directories, and it kept every child with a single archive.
   */
  lemma {:induction false} LoopDone(fs: FS, codecs: Codecs, tmp: Path, cs: seq<Path>, walker: Walker, noZip: seq<Path>)
    requires WalkerOk(walker) && LoopReady(fs, tmp, cs, noZip)
    requires ExtractChildren(fs, codecs, tmp, cs, walker, noZip).out.Done?
    ensures var sw := ExtractChildren(fs, codecs, tmp, cs, walker, noZip);
      DoneFacts(fs, sw.out.fs, tmp, cs, noZip, sw.noZip)
    decreases |cs|
  {
    if cs != [] {
      var c := cs[0];
      var fs1 := ProcessChild(fs, codecs, tmp, c, walker).fs;
      var noZip' := NextNoZip(fs, c, walker, noZip);
      ChildStep(fs, codecs, tmp, cs, walker, noZip);
      RestReady(tmp, cs);
      LoopDone(fs1, codecs, tmp, cs[1..], walker, noZip');
      LoopFrame(fs1, codecs, tmp, cs[1..], walker, noZip');
      var sw := ExtractChildren(fs1, codecs, tmp, cs[1..], walker, noZip');
      assert ExtractChildren(fs, codecs, tmp, cs, walker, noZip) == sw;
      DoneStep(fs, fs1, sw.out.fs, tmp, cs, noZip, noZip', sw.noZip);
    }
  }

  /** The loop fails only at a listed child that was not a directory to begin with. */
  lemma {:induction false} LoopFailed(fs: FS, codecs: Codecs, tmp: Path, cs: seq<Path>, walker: Walker, noZip: seq<Path>)
    requires WalkerOk(walker) && LoopReady(fs, tmp, cs, noZip)
    ensures var sw := ExtractChildren(fs, codecs, tmp, cs, walker, noZip);
      sw.out.Failed? ==>
        sw.out.error.NotADirectory? && sw.out.error.path in cs && !IsDir(fs, sw.out.error.path)
    decreases |cs|
  {
    if cs != [] && IsDir(fs, cs[0]) && !ProcessChild(fs, codecs, tmp, cs[0], walker).Panicked? {
      var fs1 := ProcessChild(fs, codecs, tmp, cs[0], walker).fs;
      ChildStep(fs, codecs, tmp, cs, walker, noZip);
      LoopFailed(fs1, codecs, tmp, cs[1..], walker, NextNoZip(fs, cs[0], walker, noZip));
      var sw := ExtractChildren(fs1, codecs, tmp, cs[1..], walker, NextNoZip(fs, cs[0], walker, noZip));
      if sw.out.Failed? {
        var p := sw.out.error.path;
        assert p in cs[1..] && p != cs[0];
        assert SameBelow(fs, fs1, p);
      }
    }
  }

  /** `q` lies at or below one of `ds`. */
  ghost predicate UnderAny(ds: seq<Path>, q: Path) {
    exists i :: 0 <= i < |ds| && ds[i] <= q
  }

  lemma UnderAnySplit(ds: seq<Path>, q: Path)
    requires |ds| > 0
    ensures UnderAny(ds, q) <==> ds[0] <= q || UnderAny(ds[1..], q)
  {
    if UnderAny(ds, q) {
      var i :| 0 <= i < |ds| && ds[i] <= q;
      if i > 0 {
        assert ds[1..][i - 1] <= q;
      }
    }
    if UnderAny(ds[1..], q) {
      var i :| 0 <= i < |ds[1..]| && ds[1..][i] <= q;
      assert ds[i + 1] <= q;
    }
  }

  /** Removing distinct existing student directories succeeds and removes exactly their subtrees. */
  lemma {:induction false} RemoveAllRemoves(fs: FS, tmp: Path, ds: seq<Path>)
    requires Distinct(ds)
    requires forall i :: 0 <= i < |ds| ==> ChildOf(tmp, ds[i]) && IsDir(fs, ds[i])
    ensures RemoveAll(fs, ds).Done?
    ensures forall q :: q in RemoveAll(fs, ds).fs <==> q in fs && !UnderAny(ds, q)
    ensures forall q :: q in RemoveAll(fs, ds).fs ==> RemoveAll(fs, ds).fs[q] == fs[q]
    decreases |ds|
  {
    if ds != [] {
      var fs1 := RemoveDirAll(fs, ds[0]).value;
      var rest := ds[1..];
      forall i | 0 <= i < |rest| ensures ChildOf(tmp, rest[i]) && IsDir(fs1, rest[i]) {
        assert rest[i] == ds[i + 1];
        ApartChildren(tmp, ds[0], rest[i], rest[i]);
      }
      assert Distinct(rest) by {
        forall i, j | 0 <= i < j < |rest| ensures rest[i] != rest[j] {
          assert rest[i] == ds[i + 1] && rest[j] == ds[j + 1];
        }
      }
      RemoveAllRemoves(fs1, tmp, rest);
      assert RemoveAll(fs, ds) == RemoveAll(fs1, rest);
      forall q ensures UnderAny(ds, q) <==> ds[0] <= q || UnderAny(rest, q) {
        UnderAnySplit(ds, q);
      }
    }
  }

  /**
   * After the extraction loop and the removal of `no_zip`: a student
   * directory that did not hold exactly one archive entry is gone with
   * everything below it, including one that held two or more; one that did
   * hold exactly one is still a directory; nothing outside `tmp` changed.
   */
  lemma ExtractAllKeepsOnlySingleArchives(fs: FS, codecs: Codecs, tmp: Path, lister: Lister, walker: Walker)
    requires Wf(fs) && WalkerOk(walker) && ListerOk(lister)
    requires ExtractAll(fs, codecs, tmp, lister, walker).Done?
    ensures var e := ExtractAll(fs, codecs, tmp, lister, walker).fs;
      forall c, q :: ChildOf(tmp, c) && c in fs && |ArchivesBelow(fs, c)| != 1 && c <= q ==> q !in e
    ensures var e := ExtractAll(fs, codecs, tmp, lister, walker).fs;
      forall c :: ChildOf(tmp, c) && c in fs && |ArchivesBelow(fs, c)| == 1 ==> IsDir(e, c)
    ensures Confined(fs, ExtractAll(fs, codecs, tmp, lister, walker).fs, tmp)
  {
    var cs := lister(fs, tmp);
    assert IsListing(fs, tmp, cs);
    var sw := ExtractChildren(fs, codecs, tmp, cs, walker, []);
    LoopFrame(fs, codecs, tmp, cs, walker, []);
    LoopDone(fs, codecs, tmp, cs, walker, []);
    RemoveAllRemoves(sw.out.fs, tmp, sw.noZip);
    var e := RemoveAll(sw.out.fs, sw.noZip).fs;
    assert e == ExtractAll(fs, codecs, tmp, lister, walker).fs;
    RemovalKeepsOnlySingles(fs, sw.out.fs, e, tmp, cs, sw.noZip);
  }

  /** Removing the `no_zip` directories a finished loop collected, in terms of the loop's facts. */
  lemma RemovalKeepsOnlySingles(fs: FS, fsEnd: FS, e: FS, tmp: Path, cs: seq<Path>, noZipEnd: seq<Path>)
    requires IsListing(fs, tmp, cs) && DoneFacts(fs, fsEnd, tmp, cs, [], noZipEnd) && Confined(fs, fsEnd, tmp)
    requires forall q :: q in e <==> q in fsEnd && !UnderAny(noZipEnd, q)
    requires forall q :: q in e ==> e[q] == fsEnd[q]
    ensures forall c, q :: ChildOf(tmp, c) && c in fs && |ArchivesBelow(fs, c)| != 1 && c <= q ==> q !in e
    ensures forall c :: ChildOf(tmp, c) && c in fs && |ArchivesBelow(fs, c)| == 1 ==> IsDir(e, c)
    ensures Confined(fs, e, tmp)
  {
    forall c, q | ChildOf(tmp, c) && c in fs && |ArchivesBelow(fs, c)| != 1 && c <= q ensures q !in e {
      assert c in cs && c in noZipEnd;
      var i :| 0 <= i < |noZipEnd| && noZipEnd[i] == c;
      assert UnderAny(noZipEnd, q);
    }
    forall c | ChildOf(tmp, c) && c in fs && |ArchivesBelow(fs, c)| == 1 ensures IsDir(e, c) {
      assert c in cs && c !in noZipEnd;
    }
  }

  /**
   * The only errors `prepare` reports before sanitizing are an unreadable
   * `tmp` and a child of `tmp` that is not a directory; errors of the
   * extraction strategies never end the loop. A child that is not a
   * directory always leads to an error or an earlier panic.
   */
  lemma ExtractAllErrors(fs: FS, codecs: Codecs, tmp: Path, lister: Lister, walker: Walker)
    requires Wf(fs) && WalkerOk(walker) && ListerOk(lister)
    ensures var e := ExtractAll(fs, codecs, tmp, lister, walker);
      e.Failed? ==>
        || (e.error == NotFound(tmp) && tmp !in fs)
        || (e.error == NotADirectory(tmp) && IsFile(fs, tmp))
        || (e.error.NotADirectory? && ChildOf(tmp, e.error.path) && e.error.path in fs && !IsDir(fs, e.error.path))
    ensures (exists c :: ChildOf(tmp, c) && c in fs && !IsDir(fs, c)) ==> !ExtractAll(fs, codecs, tmp, lister, walker).Done?
  {
    if IsDir(fs, tmp) {
      var cs := lister(fs, tmp);
      assert IsListing(fs, tmp, cs);
      var sw := ExtractChildren(fs, codecs, tmp, cs, walker, []);
      LoopFailed(fs, codecs, tmp, cs, walker, []);
      if sw.out.Done? {
        LoopDone(fs, codecs, tmp, cs, walker, []);
        RemoveAllRemoves(sw.out.fs, tmp, sw.noZip);
      }
    }
  }
}
