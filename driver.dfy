/**
 * The rest of `main.rs`: `init`, which checks the inputs and lays out the
 * result and temporary directories; `run`, which renders the jplag command,
 * runs it and looks at its exit status; and `main`, which chains the phases
 * and decides whether the temporary directory is cleaned up.
 */
module Driver {
  import opened FileSystem
  import opened Archives
  import opened Helper
  import opened Pipeline

  // ---------------------------------------------------------------------------
  // Rendering the jplag command.

  /** The words `ws` separated by single `sep` characters. */
  function Join(ws: seq<string>, sep: char): (r: string)
    ensures |ws| == 1 ==> r == ws[0]
    decreases |ws|
  {
    if ws == [] then ""
    else if |ws| == 1 then ws[0]
    else ws[0] + [sep] + Join(ws[1..], sep)
  }

  /**
   * Splitting at every `sep`, keeping empty pieces (`str::split` with a
   * character pattern).
   */
  function Split(s: string, sep: char): (r: seq<string>)
    ensures |r| > 0
    decreases |s|
  {
    if s == [] then [""]
    else if s[0] == sep then [""] + Split(s[1..], sep)
    else
      var t := Split(s[1..], sep);
      [[s[0]] + t[0]] + t[1..]
  }

  /** The text of a relative path, components separated by `/`. */
  function PathText(p: Path): string {
    Join(p, '/')
  }

  /** The argument vector `run` passes to `java`: `-jar`, the jar, then the jplag arguments. */
  function Argv(jar: Path, args: seq<string>): seq<string> {
    ["-jar", PathText(jar)] + args
  }

  /** The logged command line: the program name and every argument, separated by single spaces. */
  function CommandLine(jar: Path, args: seq<string>): string {
    Join(["java"] + Argv(jar, args), ' ')
  }

  /** Appending one more word to a joined sequence. */
  lemma {:induction false} JoinSnoc(ws: seq<string>, w: string, sep: char)
    requires |ws| > 0
    ensures Join(ws + [w], sep) == Join(ws, sep) + [sep] + w
    decreases |ws|
  {
    if |ws| > 1 {
      assert (ws + [w])[1..] == ws[1..] + [w];
      JoinSnoc(ws[1..], w, sep);
    } else {
      assert ws + [w] == [ws[0], w];
    }
  }

  /**
   * `run`'s `push_str` loop: `"java -jar <jar>"` followed by `" " + a` for
   * every argument `a` in order.
   */
  method RenderCommand(jar: Path, args: seq<string>) returns (cmd: string)
    ensures cmd == CommandLine(jar, args)
  {
    cmd := "java -jar " + PathText(jar);
    assert cmd == Join(["java", "-jar", PathText(jar)], ' ');
    for i := 0 to |args|
      invariant cmd == Join(["java", "-jar", PathText(jar)] + args[..i], ' ')
    {
      JoinSnoc(["java", "-jar", PathText(jar)] + args[..i], args[i], ' ');
      assert ["java", "-jar", PathText(jar)] + args[..i + 1] == ["java", "-jar", PathText(jar)] + args[..i] + [args[i]];
      cmd := cmd + " " + args[i];
    }
    assert ["java"] + Argv(jar, args) == ["java", "-jar", PathText(jar)] + args[..|args|];
  }

  /** Splitting `w + sep + s`, where `w` has no separator, gives `w` and then the pieces of `s`. */
  lemma {:induction false} SplitAfterWord(w: string, s: string, sep: char)
    requires sep !in w
    ensures Split(w + [sep] + s, sep) == [w] + Split(s, sep)
    decreases |w|
  {
    if w == [] {
      assert [sep] + s == w + [sep] + s;
      assert ([sep] + s)[1..] == s;
    } else {
      assert (w + [sep] + s)[1..] == w[1..] + [sep] + s;
      SplitAfterWord(w[1..], s, sep);
      assert [w[0]] + w[1..] == w;
    }
  }

  /** A word without a separator splits into itself. */
  lemma {:induction false} SplitWord(w: string, sep: char)
    requires sep !in w
    ensures Split(w, sep) == [w]
    decreases |w|
  {
    if w != [] {
      SplitWord(w[1..], sep);
      assert [w[0]] + w[1..] == w;
    }
  }

  /** No piece of a split contains the separator. */
  lemma {:induction false} SplitPiecesLackSep(s: string, sep: char)
    ensures forall i :: 0 <= i < |Split(s, sep)| ==> sep !in Split(s, sep)[i]
    decreases |s|
  {
    if s != [] {
      SplitPiecesLackSep(s[1..], sep);
      var t := Split(s[1..], sep);
      if s[0] != sep {
        assert Split(s, sep) == [[s[0]] + t[0]] + t[1..];
        forall i | 1 <= i < |Split(s, sep)| ensures sep !in Split(s, sep)[i] {
          assert Split(s, sep)[i] == t[i];
        }
      } else {
        forall i | 1 <= i < |Split(s, sep)| ensures sep !in Split(s, sep)[i] {
          assert Split(s, sep)[i] == t[i - 1];
        }
      }
    }
  }

  /** Splitting undoes joining exactly when no word contains the separator. */
  lemma {:induction false} SplitJoin(ws: seq<string>, sep: char)
    requires |ws| > 0
    ensures Split(Join(ws, sep), sep) == ws <==> forall i :: 0 <= i < |ws| ==> sep !in ws[i]
    decreases |ws|
  {
    if forall i :: 0 <= i < |ws| ==> sep !in ws[i] {
      if |ws| == 1 {
        SplitWord(ws[0], sep);
      } else {
        SplitJoin(ws[1..], sep);
        SplitAfterWord(ws[0], Join(ws[1..], sep), sep);
        assert [ws[0]] + ws[1..] == ws;
      }
    } else {
      SplitPiecesLackSep(Join(ws, sep), sep);
    }
  }

  /**
   * The logged command splits at its spaces back into the program name and
   * the argument vector that `run` executes exactly when neither the jar path
   * nor any argument contains a space; otherwise the logged line does not
   * reproduce the run.
   */
  lemma CommandLineSplits(jar: Path, args: seq<string>)
    ensures Split(CommandLine(jar, args), ' ') == ["java"] + Argv(jar, args) <==>
      ' ' !in PathText(jar) && forall i :: 0 <= i < |args| ==> ' ' !in args[i]
  {
    var ws := ["java"] + Argv(jar, args);
    SplitJoin(ws, ' ');
    assert ws[2] == PathText(jar);
    assert forall i :: 0 <= i < |args| ==> ws[i + 3] == args[i];
    assert (forall i :: 0 <= i < |ws| ==> ' ' !in ws[i]) <==>
      ' ' !in PathText(jar) && forall i :: 0 <= i < |args| ==> ' ' !in args[i];
  }

  // ---------------------------------------------------------------------------
  // `init`.

  /** `fs::exists`: the empty path names no file. */
  predicate Exists(fs: FS, p: Path) {
    p in fs
  }

  /** `let _ = fs::remove_dir_all(p)`: removes the directory if there is one, and ignores any failure. */
  function RemoveDirIfAny(fs: FS, p: Path): (r: FS)
    ensures forall q :: q in r <==> q in fs && !(IsDir(fs, p) && p <= q)
    ensures Confined(fs, r, p)
  {
    if IsDir(fs, p) then RemoveDirAll(fs, p).value else fs
  }

  /**
   * `let _ = fs::remove_dir_all(p)` followed by `fs::create_dir_all(p)?`: the
   * removal's failure is ignored, the creation's is not.
   */
  function ResetDir(fs: FS, p: Path): Option<FS> {
    CreateDirAll(RemoveDirIfAny(fs, p), p)
  }

  /**
   * What `init` does: the source archive must exist, then the jplag jar;
   * the result directory is emptied and recreated, the temporary directory
   * removed, the source extracted into it and the additional submission
   * directories copied next to the extracted ones.
   */
  function InitSpec(fs: FS, source: Path, result: Path, tmp: Path, jar: Path, subs: seq<Path>, zip: Codec, walker: Walker): (r: Outcome)
    ensures !Exists(fs, source) ==> r == Failed(fs, NotFound(source))
    ensures Exists(fs, source) && !Exists(fs, jar) ==> r == Failed(fs, NotFound(jar))
  {
    if !Exists(fs, source) then Failed(fs, NotFound(source))
    else if !Exists(fs, jar) then Failed(fs, NotFound(jar))
    else
      match ResetDir(fs, result)
      case None => Failed(RemoveDirIfAny(fs, result), IoFailure(result))
      case Some(fs1) =>
        var fs2 := RemoveDirIfAny(fs1, tmp);
        match UnzipSpec(fs2, source, tmp, zip)
        case Done(fs3) => AddSubsSpec(fs3, subs, tmp, walker)
        case Failed(fs3, err) => Failed(fs3, err)
        case Panicked => Panicked
  }

  method Init(fs: FS, source: Path, result: Path, tmp: Path, jar: Path, subs: seq<Path>, zip: Codec, walker: Walker)
    returns (r: Outcome)
    ensures r == InitSpec(fs, source, result, tmp, jar, subs, zip, walker)
  {
    if !Exists(fs, source) {
      return Failed(fs, NotFound(source));
    }
    if !Exists(fs, jar) {
      return Failed(fs, NotFound(jar));
    }
    var cur := RemoveDirIfAny(fs, result);
    var made := CreateDirAll(cur, result);
    if made.None? {
      return Failed(cur, IoFailure(result));
    }
    cur := RemoveDirIfAny(made.value, tmp);
    var unzipped := UnzipTo(cur, source, tmp, zip);
    if !unzipped.Done? {
      return unzipped;
    }
    r := AddSubs(unzipped.fs, subs, tmp, walker);
  }

  /**
   * Recreating a directory in a well-formed tree gives an empty directory
   * and changes nothing away from it; it fails exactly when the path or one
   * of its ancestors is a file.
   */
  lemma ResetDirEmpties(fs: FS, p: Path)
    requires Wf(fs) && |p| > 0
    ensures ResetDir(fs, p).Some? <==> forall k :: 1 <= k <= |p| && p[..k] in fs ==> fs[p[..k]].Dir?
    ensures ResetDir(fs, p).Some? ==>
      var r := ResetDir(fs, p).value;
      IsDir(r, p) && (forall q :: p < q ==> q !in r) && ChangedAround(fs, r, p)
  {
    var cleared := RemoveDirIfAny(fs, p);
    assert p[..|p|] == p;
    if CreateDirAll(cleared, p).Some? {
      var r := CreateDirAll(cleared, p).value;
      CreateDirAllAround(cleared, p, p);
      forall q | p < q && q in fs ensures IsDir(fs, p) {
        assert q[..|p|] == p;
      }
    }
  }

  /**
   * `init` changes nothing away from the result and temporary directories;
   * when it succeeds and the two lie apart, the result directory exists and
   * is empty.
   */
  lemma InitLaysOut(fs: FS, source: Path, result: Path, tmp: Path, jar: Path, subs: seq<Path>, zip: Codec, walker: Walker)
    requires Wf(fs) && |result| > 0
    requires !InitSpec(fs, source, result, tmp, jar, subs, zip, walker).Panicked?
    ensures var r := InitSpec(fs, source, result, tmp, jar, subs, zip, walker).fs;
      forall q :: !Around(result, q) && !Around(tmp, q) ==> (q in fs <==> q in r) && (q in fs ==> r[q] == fs[q])
    ensures var r := InitSpec(fs, source, result, tmp, jar, subs, zip, walker);
      r.Done? && Apart(result, tmp) ==>
        IsDir(r.fs, result) && forall q :: result < q ==> q !in r.fs
  {
    var r := InitSpec(fs, source, result, tmp, jar, subs, zip, walker);
    if Exists(fs, source) && Exists(fs, jar) {
      ResetDirEmpties(fs, result);
      if ResetDir(fs, result).Some? {
        var fs1 := ResetDir(fs, result).value;
        var fs2 := RemoveDirIfAny(fs1, tmp);
        var u := UnzipSpec(fs2, source, tmp, zip);
        assert !u.Panicked?;
        var fs3 := u.fs;
        if u.Done? {
          AddSubsAround(fs3, subs, tmp, walker);
        }
        // every step after the reset is aimed at `tmp`
        assert ChangedAround(fs2, fs3, tmp) by {
          if Open(fs2, source, zip).Listing? {
            UnpackAround(fs2, tmp, Open(fs2, source, zip).entries, Open(fs2, source, zip).complete, ZipStyle, source);
          }
        }
        assert ChangedAround(fs1, r.fs, tmp);
        if r.Done? && Apart(result, tmp) {
          forall q | result <= q ensures !Around(tmp, q) {
            if q <= tmp {
              PrefixesAround(result, tmp, q);
            }
          }
        }
      }
    }
  }

  /**
   * A source archive inside the result directory is deleted by the reset
   * before it is read, so `init` fails to open it.
   */
  lemma InitLosesSourceInResult(fs: FS, source: Path, result: Path, tmp: Path, jar: Path, subs: seq<Path>, zip: Codec, walker: Walker)
    requires IsFile(fs, source) && Exists(fs, jar) && IsDir(fs, result) && result < source
    requires ResetDir(fs, result).Some?
    ensures InitSpec(fs, source, result, tmp, jar, subs, zip, walker).Failed?
    ensures InitSpec(fs, source, result, tmp, jar, subs, zip, walker).error == DecodeFailure(source)
  {
    var fs1 := ResetDir(fs, result).value;
    assert source !in RemoveDirIfAny(fs, result);
    assert source !in fs1;
  }

  // ---------------------------------------------------------------------------
  // `run`.

  /** How the jplag child process went, as far as `run` can observe it. */
  datatype ChildRun =
    | SpawnFails           // `spawn` returned an error
    | ListenFails          // reading the child's output failed
    | WaitFails            // `wait` returned an error
    | Exits(success: bool) // the child ended with this exit status

  /** Why `run` failed; each carries the rendered command, as the messages do. */
  datatype RunError =
    | SpawnFailed(cmd: string)
    | ListenFailed(cmd: string)
    | WaitFailed(cmd: string)
    | JplagFailed(cmd: string)        // non-success exit status
    | ResultDirUnreadable(dir: Path)  // `read_dir` of the result directory failed

  /** The result of `run`: the entry it reports as the result file, or an error. */
  datatype RunResult = Ran(resultFile: Option<Path>) | RunFailed(error: RunError)

  /** The last of the listed entries, which `run` reports as the result file. */
  function LastEntry(cs: seq<Path>): (r: Option<Path>)
    ensures r.None? <==> cs == []
    ensures r.Some? ==> r.value in cs && r.value == cs[|cs| - 1]
  {
    if cs == [] then None else Some(cs[|cs| - 1])
  }

  /**
   * What `run` does: the command is rendered, the child is run, a
   * non-success exit is an error; after a success the result directory is
   * listed. It never changes the filesystem.
   */
  function RunSpec(fs: FS, result: Path, jar: Path, args: seq<string>, child: ChildRun, lister: Lister): RunResult {
    var cmd := CommandLine(jar, args);
    match child
    case SpawnFails => RunFailed(SpawnFailed(cmd))
    case ListenFails => RunFailed(ListenFailed(cmd))
    case WaitFails => RunFailed(WaitFailed(cmd))
    case Exits(ok) =>
      if !ok then RunFailed(JplagFailed(cmd))
      else if !IsDir(fs, result) then RunFailed(ResultDirUnreadable(result))
      else Ran(LastEntry(lister(fs, result)))
  }

  /** The loop over the result directory that keeps the last entry seen. */
  method LastListed(cs: seq<Path>) returns (r: Option<Path>)
    ensures r == LastEntry(cs)
  {
    r := None;
    for i := 0 to |cs|
      invariant r == LastEntry(cs[..i])
    {
      r := Some(cs[i]);
    }
    assert cs[..|cs|] == cs;
  }

  method Run(fs: FS, result: Path, jar: Path, args: seq<string>, child: ChildRun, lister: Lister)
    returns (r: RunResult)
    ensures r == RunSpec(fs, result, jar, args, child, lister)
  {
    var cmd := RenderCommand(jar, args);
    match child {
      case SpawnFails => return RunFailed(SpawnFailed(cmd));
      case ListenFails => return RunFailed(ListenFailed(cmd));
      case WaitFails => return RunFailed(WaitFailed(cmd));
      case Exits(ok) =>
        if !ok {
          return RunFailed(JplagFailed(cmd));
        }
        if !IsDir(fs, result) {
          return RunFailed(ResultDirUnreadable(result));
        }
        var last := LastListed(lister(fs, result));
        return Ran(last);
    }
  }

  /**
   * `run` succeeds exactly when the child exits with success and the result
   * directory can be listed; the file it reports is then an entry directly
   * inside the result directory, and it reports none only when that
   * directory is empty. A failed run names the command that reproduces it.
   */
  lemma RunOutcome(fs: FS, result: Path, jar: Path, args: seq<string>, child: ChildRun, lister: Lister)
    requires ListerOk(lister)
    ensures var r := RunSpec(fs, result, jar, args, child, lister);
      r.Ran? <==> child == Exits(true) && IsDir(fs, result)
    ensures var r := RunSpec(fs, result, jar, args, child, lister);
      r.Ran? && r.resultFile.Some? ==> r.resultFile.value in fs && ChildOf(result, r.resultFile.value)
    ensures var r := RunSpec(fs, result, jar, args, child, lister);
      r.Ran? ==> (r.resultFile.None? <==> forall q :: q in fs ==> !ChildOf(result, q))
    ensures var r := RunSpec(fs, result, jar, args, child, lister);
      child == Exits(false) ==> r == RunFailed(JplagFailed(CommandLine(jar, args)))
  {
    if child == Exits(true) && IsDir(fs, result) {
      var cs := lister(fs, result);
      assert IsListing(fs, result, cs);
      if cs != [] {
        assert cs[|cs| - 1] in fs && ChildOf(result, cs[|cs| - 1]);
      }
    }
  }

  // ---------------------------------------------------------------------------
  // `main`.

  /** The resolved settings `main` works with. */
  datatype Settings = Settings(
    source: Path,
    tmp: Path,
    preserveTmp: bool,
    result: Path,
    keepNonAscii: bool,
    jar: Path,
    args: seq<string>,
    subs: seq<Path>)

  /** Why `main` stopped early. */
  datatype Reason =
    | JavaNotExecutable
    | InitFailed(initError: Error)
    | PrepareFailed(prepareError: Error)
    | RunAborted(runError: RunError)
    | CleanupFailed(cleanupError: Error)

  /** How `main` ends: the filesystem it leaves behind, with the reason when it stopped early. */
  datatype Ending = Finished(fs: FS) | Aborted(fs: FS, reason: Reason) | Crashed

  /** The tree `prepare` leaves behind when it succeeds, from the tree its extraction phase left. */
  ghost function Prepared(extracted: FS, tmp: Path, keepNonAscii: bool): FS {
    Cleaned(Sanitized(extracted, tmp), tmp, Cleaner(keepNonAscii))
  }

  /** Whether `main` removes the temporary directory after a successful run. */
  predicate CleansUp(s: Settings, release: bool) {
    release && !s.preserveTmp
  }

  /**
   * `main` once `prepare` has succeeded with `fs`: `run`, then the cleanup
   * decision. A failed run leaves everything, the temporary directory
   * included, as `prepare` left it; a cleanup removes the temporary
   * directory with everything below it and nothing else.
   */
  function Conclude(fs: FS, s: Settings, child: ChildRun, lister: Lister, release: bool): (r: Ending)
    ensures !r.Crashed?
    ensures r.Aborted? ==> r.fs == fs
    ensures r.Aborted? ==> (r.reason.RunAborted? && RunSpec(fs, s.result, s.jar, s.args, child, lister) == RunFailed(r.reason.runError))
                           || (r.reason == CleanupFailed(IoFailure(s.tmp)) && CleansUp(s, release) && !IsDir(fs, s.tmp))
    ensures r.Finished? <==> RunSpec(fs, s.result, s.jar, s.args, child, lister).Ran? && (CleansUp(s, release) ==> IsDir(fs, s.tmp))
    ensures r.Finished? && CleansUp(s, release) ==>
      forall q :: q in r.fs <==> q in fs && !(s.tmp <= q)
    ensures r.Finished? && !CleansUp(s, release) ==> r.fs == fs
  {
    match RunSpec(fs, s.result, s.jar, s.args, child, lister)
    case RunFailed(e) => Aborted(fs, RunAborted(e))
    case Ran(_) =>
      if !CleansUp(s, release) then Finished(fs)
      else match RemoveDirAll(fs, s.tmp)
        case None => Aborted(fs, CleanupFailed(IoFailure(s.tmp)))
        case Some(fs1) => Finished(fs1)
  }

  /** `r` comes from the phases after `prepare`. */
  predicate PastPrepare(r: Ending) {
    r.Finished? || (r.Aborted? && (r.reason.RunAborted? || r.reason.CleanupFailed?))
  }

  /**
   * `main` after the arguments are resolved: the Java check, `init`,
   * `prepare`, `run`, then the cleanup of the temporary directory, which a
   * release build does unless it is told to preserve it and a debug build
   * never does. `javaOk` is the outcome of `check_java_executable`, and
   * `utf8` says which file contents `fs::read_to_string` accepts.
   */
  method MainFlow(fs: FS, s: Settings, codecs: Codecs, utf8: Utf8Check, lister: Lister, walker: Walker, javaOk: bool, child: ChildRun, release: bool)
    returns (r: Ending)
    requires WalkerOk(walker)
    ensures !javaOk ==> r == Aborted(fs, JavaNotExecutable)
    ensures var i := InitSpec(fs, s.source, s.result, s.tmp, s.jar, s.subs, codecs.zip, walker);
      javaOk && !i.Done? ==> r == (if i.Panicked? then Crashed else Aborted(i.fs, InitFailed(i.error)))
    ensures var i := InitSpec(fs, s.source, s.result, s.tmp, s.jar, s.subs, codecs.zip, walker);
      PastPrepare(r) ==>
        && javaOk && i.Done? && ExtractAll(i.fs, codecs, s.tmp, lister, walker).Done?
        && JavaDecodes(Sanitized(ExtractAll(i.fs, codecs, s.tmp, lister, walker).fs, s.tmp), s.tmp, utf8)
        && r == Conclude(Prepared(ExtractAll(i.fs, codecs, s.tmp, lister, walker).fs, s.tmp, s.keepNonAscii), s, child, lister, release)
    ensures var i := InitSpec(fs, s.source, s.result, s.tmp, s.jar, s.subs, codecs.zip, walker);
      javaOk && i.Done? && ExtractAll(i.fs, codecs, s.tmp, lister, walker).Done? ==>
        var e := ExtractAll(i.fs, codecs, s.tmp, lister, walker).fs;
        SanitizeSucceeds(e, s.tmp) && s.tmp in Sanitized(e, s.tmp) && Wf(Sanitized(e, s.tmp)) ==>
          (PastPrepare(r) <==> JavaDecodes(Sanitized(e, s.tmp), s.tmp, utf8)) &&
          (JavaDecodes(Sanitized(e, s.tmp), s.tmp, utf8) ==> r == Conclude(Prepared(e, s.tmp, s.keepNonAscii), s, child, lister, release))
  {
    if !javaOk {
      return Aborted(fs, JavaNotExecutable);
    }
    var i := Init(fs, s.source, s.result, s.tmp, s.jar, s.subs, codecs.zip, walker);
    if i.Panicked? {
      return Crashed;
    }
    if i.Failed? {
      return Aborted(i.fs, InitFailed(i.error));
    }
    r := PrepareAndFinish(i.fs, s, codecs, utf8, lister, walker, child, release);
  }

  /**
   * `main` once `init` has succeeded with `fs`: `prepare`, then the phases
   * after it. A failed `prepare` aborts with its error.
   */
  method PrepareAndFinish(fs: FS, s: Settings, codecs: Codecs, utf8: Utf8Check, lister: Lister, walker: Walker,
                          child: ChildRun, release: bool)
    returns (r: Ending)
    requires WalkerOk(walker)
    ensures var e := ExtractAll(fs, codecs, s.tmp, lister, walker);
      PastPrepare(r) ==>
        && e.Done? && JavaDecodes(Sanitized(e.fs, s.tmp), s.tmp, utf8)
        && r == Conclude(Prepared(e.fs, s.tmp, s.keepNonAscii), s, child, lister, release)
    ensures !PastPrepare(r) ==> r.Crashed? || (r.Aborted? && r.reason.PrepareFailed?)
    ensures var e := ExtractAll(fs, codecs, s.tmp, lister, walker);
      !e.Done? ==> r == (if e.Panicked? then Crashed else Aborted(e.fs, PrepareFailed(e.error)))
    ensures var e := ExtractAll(fs, codecs, s.tmp, lister, walker);
      e.Done? && SanitizeSucceeds(e.fs, s.tmp) && s.tmp in Sanitized(e.fs, s.tmp) && Wf(Sanitized(e.fs, s.tmp)) ==>
        (PastPrepare(r) <==> JavaDecodes(Sanitized(e.fs, s.tmp), s.tmp, utf8))
  {
    ghost var e := ExtractAll(fs, codecs, s.tmp, lister, walker);
    var prepared := Prepare(fs, codecs, s.tmp, s.keepNonAscii, utf8, lister, walker);
    if prepared.Panicked? {
      return Crashed;
    }
    if prepared.Failed? {
      return Aborted(prepared.fs, PrepareFailed(prepared.error));
    }
    assert e.Done? && prepared.fs == Prepared(e.fs, s.tmp, s.keepNonAscii);
    r := Finish(prepared.fs, s, child, lister, release);
  }

  /** The phases after `prepare`: `run`, then the cleanup. */
  method Finish(fs: FS, s: Settings, child: ChildRun, lister: Lister, release: bool) returns (r: Ending)
    ensures r == Conclude(fs, s, child, lister, release)
  {
    var ran := Run(fs, s.result, s.jar, s.args, child, lister);
    if ran.RunFailed? {
      return Aborted(fs, RunAborted(ran.error));
    }
    if !CleansUp(s, release) {
      return Finished(fs);
    }
    var cleaned := RemoveDirAll(fs, s.tmp);
    if cleaned.None? {
      return Aborted(fs, CleanupFailed(IoFailure(s.tmp)));
    }
    return Finished(cleaned.value);
  }
}
