/**
 * `conf/config.rs`: how the settings of a run are resolved. Every setting
 * is taken from the command line if given there, else from the TOML
 * configuration file, else from a built-in default; the jplag argument
 * vector is built from the resolved directories unless the command line
 * supplies one. The command-line record, the parsed TOML record, `fs::exists`
 * and the line read from stdin are inputs.
 */
module Config {
  import opened FileSystem

  // ---------------------------------------------------------------------------
  // Constants and records.

  const DefaultConfigFile: string := "config.toml"
  const DefaultSourceFile: string := "submissions.zip"
  const DefaultJplagFile: string := "jplag.jar"
  const DefaultTargetDir: string := "out/"
  const DefaultTmpDir: string := "tmp/"
  const DefaultResults: string := "results"
  const DefaultJavaVersion: string := "java"

  /** The command-line record; `jplagArgs` is everything after `--`, `addSubDirs` the positional arguments. */
  datatype Args = Args(
    init: bool,
    keepNonAscii: bool,
    abortOnErr: bool,
    config: Option<string>,
    sourceZip: Option<string>,
    targetDir: Option<string>,
    tmpDir: Option<string>,
    preserveTmpDir: bool,
    ignoreFile: Option<string>,
    jplagJar: Option<string>,
    addSubDirs: seq<string>,
    jplagArgs: seq<string>)

  /** The TOML record: every field may be absent. */
  datatype TomlConfig = TomlConfig(
    sourceZip: Option<string>,
    targetDir: Option<string>,
    tmpDir: Option<string>,
    ignoreFile: Option<string>,
    jplagJar: Option<string>,
    jplagArgs: Option<seq<string>>)

  /** The resolved settings. */
  datatype ParsedArgs = ParsedArgs(
    sourceFile: string,
    tmpDir: string,
    preserveTmpDir: bool,
    targetDir: string,
    abortOnError: bool,
    jplagJar: string,
    jplagArgs: seq<string>,
    additionalSubmissionDirs: seq<string>)

  datatype ConfigError =
    | ConfigFileNotFound(file: string)   // an explicitly named config file does not exist
    | ConfigUnreadable(file: string)     // reading or parsing the config file failed
    | IgnoreFileNotFound(file: string)
    | StdinUnreadable
    | ConfigNotWritten                   // opening, writing or flushing `config.toml` failed

  /** `fs::exists` on a path given as text. */
  type Exists = string -> bool

  /** `fs::read_to_string` followed by TOML parsing: `None` when either fails. */
  type TomlReader = string -> Option<TomlConfig>

  const EmptyConfig: TomlConfig := TomlConfig(None, None, None, None, None, None)

  /** `cli.unwrap_or_else(|| toml.unwrap_or_else(|| default))`. */
  function Pick(cli: Option<string>, toml: Option<string>, default: string): string {
    if cli.Some? then cli.value else if toml.Some? then toml.value else default
  }

  /** `Option::or`. */
  function Or<T>(a: Option<T>, b: Option<T>): Option<T> {
    if a.Some? then a else b
  }

  /** The jplag arguments used when neither the command line nor the TOML file gives any. */
  function DefaultJplagArgs(tmpDir: string, targetDir: string): seq<string> {
    [tmpDir, "-r", targetDir + "/" + DefaultResults, "-l", DefaultJavaVersion, "--encoding", "utf-8"]
  }

  // ---------------------------------------------------------------------------
  // `parse_toml`.

  /** The outcome of loading the configuration file. */
  datatype Loaded = Loaded(config: TomlConfig) | LoadFailed(error: ConfigError)

  /**
   * `parse_toml`: the file named on the command line, else `config.toml`. A
   * missing default file gives the all-absent record.
   */
  function LoadConfig(args: Args, present: Exists, read: TomlReader): (r: Loaded)
    ensures var file := if args.config.Some? then args.config.value else DefaultConfigFile;
      !present(file) ==> (r.LoadFailed? <==> args.config.Some?)
    ensures var file := if args.config.Some? then args.config.value else DefaultConfigFile;
      !present(file) && args.config.None? ==> r == Loaded(EmptyConfig)
    ensures r.LoadFailed? ==> r.error.ConfigFileNotFound? || r.error.ConfigUnreadable?
  {
    var file := if args.config.Some? then args.config.value else DefaultConfigFile;
    if !present(file) then
      if args.config.Some? then LoadFailed(ConfigFileNotFound(file)) else Loaded(EmptyConfig)
    else
      match read(file)
      case None => LoadFailed(ConfigUnreadable(file))
      case Some(c) => Loaded(c)
  }

  // ---------------------------------------------------------------------------
  // `parse_args`.

  /**
   * The configuration file is loaded lazily: only when a setting is missing
   * on the command line, or no jplag arguments were given there (the ignore
   * file is then looked up with an eager `or`).
   */
  predicate NeedsConfig(args: Args) {
    args.sourceZip.None? || args.tmpDir.None? || args.targetDir.None? || args.jplagJar.None? || args.jplagArgs == []
  }

  /** What `parse_args` comes to. */
  datatype Resolution =
    | InitRequested(dump: DumpResult)   // `--init`: the default config is dumped and the process exits
    | Resolved(parsed: ParsedArgs)
    | Rejected(error: ConfigError)
    | Crashed(cause: ConfigError)      // the lazily loaded configuration could not be loaded: a panic

  /**
   * `parse_args`, as a function of the command line, the file system's
   * answers and the line the prompt of `--init` reads.
   */
  function Resolve(args: Args, present: Exists, read: TomlReader, line: Option<string>, writeOk: bool): (r: Resolution)
    ensures args.init <==> r.InitRequested?
    ensures r.Rejected? ==> r.error.IgnoreFileNotFound? && args.jplagArgs == [] && !present(r.error.file)
    ensures r.Resolved? ==>
      && r.parsed.additionalSubmissionDirs == args.addSubDirs
      && r.parsed.abortOnError == args.abortOnErr
      && r.parsed.preserveTmpDir == args.preserveTmpDir
  {
    if args.init then InitRequested(Dump(DefaultConfig(), present(DefaultConfigFile), line, writeOk))
    else if NeedsConfig(args) && LoadConfig(args, present, read).LoadFailed? then
      Crashed(LoadConfig(args, present, read).error)
    else
      var conf := if NeedsConfig(args) then LoadConfig(args, present, read).config else EmptyConfig;
      var tmpDir := Pick(args.tmpDir, conf.tmpDir, DefaultTmpDir);
      var targetDir := Pick(args.targetDir, conf.targetDir, DefaultTargetDir);
      var parsed := ParsedArgs(
        Pick(args.sourceZip, conf.sourceZip, DefaultSourceFile),
        tmpDir,
        args.preserveTmpDir,
        targetDir,
        args.abortOnErr,
        Pick(args.jplagJar, conf.jplagJar, DefaultJplagFile),
        args.jplagArgs,
        args.addSubDirs);
      if args.jplagArgs != [] then Resolved(parsed)
      else
        var base := if conf.jplagArgs.Some? then conf.jplagArgs.value else DefaultJplagArgs(tmpDir, targetDir);
        match Or(args.ignoreFile, conf.ignoreFile)
        case None => Resolved(parsed.(jplagArgs := base))
        case Some(f) =>
          if !present(f) then Rejected(IgnoreFileNotFound(f))
          else Resolved(parsed.(jplagArgs := base + ["-x", f]))
  }

  /**
   * `parse_args` written as the source does it: each field in turn, then the
   * argument vector grown in place by `append` and `push`.
   */
  method ParseArgs(args: Args, present: Exists, read: TomlReader, line: Option<string>, writeOk: bool)
    returns (r: Resolution)
    ensures r == Resolve(args, present, read, line, writeOk)
  {
    if args.init {
      var dumped := DumpRecord(DefaultConfig(), present(DefaultConfigFile), line, writeOk);
      return InitRequested(dumped);
    }
    var conf := EmptyConfig;
    if NeedsConfig(args) {
      var loaded := LoadConfig(args, present, read);
      if loaded.LoadFailed? {
        return Crashed(loaded.error);
      }
      conf := loaded.config;
    }
    var source := Pick(args.sourceZip, conf.sourceZip, DefaultSourceFile);
    var tmpDir := Pick(args.tmpDir, conf.tmpDir, DefaultTmpDir);
    var targetDir := Pick(args.targetDir, conf.targetDir, DefaultTargetDir);
    var jplagJar := Pick(args.jplagJar, conf.jplagJar, DefaultJplagFile);
    var jplagArgs := args.jplagArgs;
    if jplagArgs == [] {
      var toAppend := if conf.jplagArgs.Some? then conf.jplagArgs.value else DefaultJplagArgs(tmpDir, targetDir);
      jplagArgs := jplagArgs + toAppend;
      var ignoreFile := Or(args.ignoreFile, conf.ignoreFile);
      if ignoreFile.Some? {
        if !present(ignoreFile.value) {
          return Rejected(IgnoreFileNotFound(ignoreFile.value));
        }
        jplagArgs := jplagArgs + ["-x"];
        jplagArgs := jplagArgs + [ignoreFile.value];
      }
    }
    return Resolved(ParsedArgs(source, tmpDir, args.preserveTmpDir, targetDir, args.abortOnErr, jplagJar, jplagArgs, args.addSubDirs));
  }

  // ---------------------------------------------------------------------------
  // `dump_default_config`.

  /** The record `--init` writes: every default, and no ignore file. */
  function DefaultConfig(): (r: TomlConfig)
    ensures r.ignoreFile.None?
    ensures r.jplagArgs == Some(DefaultJplagArgs(DefaultTmpDir, DefaultTargetDir))
  {
    TomlConfig(
      Some(DefaultSourceFile), Some(DefaultTargetDir), Some(DefaultTmpDir), None, Some(DefaultJplagFile),
      Some([DefaultTmpDir, "-r", DefaultTargetDir + "/" + DefaultResults, "-l", DefaultJavaVersion, "--encoding", "utf-8"]))
  }

  /** What `dump_default_config` did. */
  datatype DumpResult = Declined | Written(config: TomlConfig) | DumpFailed(error: ConfigError)

  /** `char::is_whitespace`: the characters with the Unicode `White_Space` property. */
  predicate IsWhitespace(c: char) {
    || '\U{0009}' <= c <= '\U{000D}' || c == ' ' || c == '\U{0085}' || c == '\U{00A0}' || c == '\U{1680}'
    || '\U{2000}' <= c <= '\U{200A}' || c == '\U{2028}' || c == '\U{2029}' || c == '\U{202F}' || c == '\U{205F}'
    || c == '\U{3000}'
  }

  /** `str::trim_start`: drops the leading whitespace and no more. */
  function TrimStart(s: string): (r: string)
    ensures |r| <= |s| && r == s[|s| - |r|..]
    ensures forall j :: 0 <= j < |s| - |r| ==> IsWhitespace(s[j])
    ensures r != [] ==> !IsWhitespace(r[0])
    decreases |s|
  {
    if s != [] && IsWhitespace(s[0]) then TrimStart(s[1..]) else s
  }

  /** `str::trim_end`: drops the trailing whitespace and no more. */
  function TrimEnd(s: string): (r: string)
    ensures |r| <= |s| && r == s[..|r|]
    ensures forall j :: |r| <= j < |s| ==> IsWhitespace(s[j])
    ensures r != [] ==> !IsWhitespace(r[|r| - 1])
    decreases |s|
  {
    if s != [] && IsWhitespace(s[|s| - 1]) then TrimEnd(s[..|s| - 1]) else s
  }

  /** `str::trim`. */
  function Trim(s: string): string {
    TrimEnd(TrimStart(s))
  }

  /** The prompt's answer: `input.to_lowercase().trim() == "y"`. */
  predicate Accepts(line: string) {
    Trim(AsciiLower(line)) == "y"
  }

  /**
   * `dump_default_config` once its record is built: an existing
   * `config.toml` is overwritten only after the prompt is accepted;
   * `present` says whether it exists, `line` is what stdin gave (`None` if
   * reading failed), `writeOk` whether opening, writing and flushing the
   * file succeeded.
   */
  function Dump(record: TomlConfig, present: bool, line: Option<string>, writeOk: bool): (r: DumpResult)
    ensures r.Written? <==> (!present || (line.Some? && Accepts(line.value))) && writeOk
    ensures r.Written? ==> r.config == record
    ensures r == Declined <==> present && line.Some? && !Accepts(line.value)
    ensures r.DumpFailed? && r.error == StdinUnreadable <==> present && line.None?
  {
    if present && line.None? then DumpFailed(StdinUnreadable)
    else if present && !Accepts(line.value) then Declined
    else if !writeOk then DumpFailed(ConfigNotWritten)
    else Written(record)
  }

  method DumpRecord(record: TomlConfig, present: bool, line: Option<string>, writeOk: bool) returns (r: DumpResult)
    ensures r == Dump(record, present, line, writeOk)
  {
    if present {
      if line.None? {
        return DumpFailed(StdinUnreadable);
      }
      if !Accepts(line.value) {
        return Declined;
      }
    }
    if !writeOk {
      return DumpFailed(ConfigNotWritten);
    }
    return Written(record);
  }

  // ---------------------------------------------------------------------------
  // Properties of `parse_args`.

  /** The lazily loaded configuration panics exactly when it is needed and cannot be loaded. */
  lemma PanicsIff(args: Args, present: Exists, read: TomlReader, line: Option<string>, writeOk: bool)
    ensures var file := if args.config.Some? then args.config.value else DefaultConfigFile;
      Resolve(args, present, read, line, writeOk).Crashed? <==>
        !args.init && NeedsConfig(args)
        && (if present(file) then read(file).None? else args.config.Some?)
  {
  }

  /**
   * Each setting comes from the command line if given there, else from the
   * configuration file, else from its default.
   */
  lemma SettingPrecedence(args: Args, present: Exists, read: TomlReader, line: Option<string>, writeOk: bool)
    requires Resolve(args, present, read, line, writeOk).Resolved?
    ensures var p := Resolve(args, present, read, line, writeOk).parsed;
      var loaded := LoadConfig(args, present, read);
      && (args.sourceZip.Some? ==> p.sourceFile == args.sourceZip.value)
      && (args.tmpDir.Some? ==> p.tmpDir == args.tmpDir.value)
      && (args.targetDir.Some? ==> p.targetDir == args.targetDir.value)
      && (args.jplagJar.Some? ==> p.jplagJar == args.jplagJar.value)
      && (args.sourceZip.None? ==> loaded.Loaded? && p.sourceFile == Pick(None, loaded.config.sourceZip, DefaultSourceFile))
      && (args.tmpDir.None? ==> loaded.Loaded? && p.tmpDir == Pick(None, loaded.config.tmpDir, DefaultTmpDir))
      && (args.targetDir.None? ==> loaded.Loaded? && p.targetDir == Pick(None, loaded.config.targetDir, DefaultTargetDir))
      && (args.jplagJar.None? ==> loaded.Loaded? && p.jplagJar == Pick(None, loaded.config.jplagJar, DefaultJplagFile))
  {
  }

  /**
   * Jplag arguments given on the command line are passed on verbatim, and
   * the ignore file is then disregarded: it is neither appended nor checked.
   */
  lemma CliJplagArgsVerbatim(args: Args, present: Exists, read: TomlReader, line: Option<string>, writeOk: bool,
                             ignoreFile: Option<string>)
    requires !args.init && args.jplagArgs != []
    ensures var r := Resolve(args, present, read, line, writeOk);
      && !r.Rejected?
      && (r.Resolved? ==> r.parsed.jplagArgs == args.jplagArgs)
      && r == Resolve(args.(ignoreFile := ignoreFile), present, read, line, writeOk)
  {
  }

  /** When the command line gives every setting, the configuration file is never consulted. */
  lemma CompleteCliIgnoresConfig(args: Args, present: Exists, read: TomlReader, present': Exists, read': TomlReader,
                                 line: Option<string>, writeOk: bool)
    requires !args.init && !NeedsConfig(args)
    ensures Resolve(args, present, read, line, writeOk).Resolved?
    ensures Resolve(args, present, read, line, writeOk) == Resolve(args, present', read', line, writeOk)
  {
  }

  /**
   * Without jplag arguments on the command line: exactly the configured or
   * built-in arguments, followed by `-x` and the ignore file when one is set
   * (the command line's before the configuration file's), which must exist.
   */
  lemma IgnoreFileAppended(args: Args, present: Exists, read: TomlReader, line: Option<string>, writeOk: bool)
    requires !args.init && args.jplagArgs == []
    requires LoadConfig(args, present, read).Loaded?
    ensures var conf := LoadConfig(args, present, read).config;
      var r := Resolve(args, present, read, line, writeOk);
      var ignore := if args.ignoreFile.Some? then args.ignoreFile else conf.ignoreFile;
      && (r.Rejected? <==> ignore.Some? && !present(ignore.value))
      && (r.Resolved? ==>
            var base := if conf.jplagArgs.Some? then conf.jplagArgs.value
                        else DefaultJplagArgs(r.parsed.tmpDir, r.parsed.targetDir);
            r.parsed.jplagArgs == base + (if ignore.Some? then ["-x", ignore.value] else []))
  {
  }

  /**
   * When neither the command line nor the TOML file gives jplag arguments,
   * the built-in ones follow the resolved directories: the submissions are
   * read from the temporary directory and the report goes to `results`
   * inside the target directory. Each directory comes from the command
   * line, else the TOML file, else the built-in default.
   */
  lemma DefaultJplagArgsFollowDirs(args: Args, present: Exists, read: TomlReader, line: Option<string>, writeOk: bool)
    requires !args.init && args.jplagArgs == []
    requires LoadConfig(args, present, read).Loaded? && LoadConfig(args, present, read).config.jplagArgs.None?
    ensures var conf := LoadConfig(args, present, read).config;
      var r := Resolve(args, present, read, line, writeOk);
      var ignore := if args.ignoreFile.Some? then args.ignoreFile else conf.ignoreFile;
      && (ignore.None? ==> r.Resolved?)
      && (r.Resolved? ==>
            && r.parsed.jplagArgs ==
                 [r.parsed.tmpDir, "-r", r.parsed.targetDir + "/results", "-l", "java", "--encoding", "utf-8"]
                 + (if ignore.Some? then ["-x", ignore.value] else [])
            && r.parsed.tmpDir == (if args.tmpDir.Some? then args.tmpDir.value
                                   else if conf.tmpDir.Some? then conf.tmpDir.value else "tmp/")
            && r.parsed.targetDir == (if args.targetDir.Some? then args.targetDir.value
                                      else if conf.targetDir.Some? then conf.targetDir.value else "out/"))
  {
    var r := Resolve(args, present, read, line, writeOk);
    if r.Resolved? {
      var target := r.parsed.targetDir;
      assert target + "/" + DefaultResults == target + "/results";
    }
  }

  /**
   * The file `--init` writes changes nothing for a command line that
   * overrides no directory: resolving with it gives the settings resolving
   * without any configuration file gives.
   */
  lemma DumpedConfigAgreesWithDefaults(args: Args, withConfig: Exists, without: Exists, read: TomlReader,
                                       line: Option<string>, writeOk: bool)
    requires !args.init && args.config.None? && args.tmpDir.None? && args.targetDir.None?
    requires withConfig(DefaultConfigFile) && read(DefaultConfigFile) == Some(DefaultConfig())
    requires !without(DefaultConfigFile)
    requires forall f :: f != DefaultConfigFile ==> withConfig(f) == without(f)
    requires args.ignoreFile != Some(DefaultConfigFile)
    ensures Resolve(args, withConfig, read, line, writeOk) == Resolve(args, without, read, line, writeOk)
  {
  }

  /**
   * The file `--init` writes names `tmp/` inside its jplag arguments, so a
   * temporary directory given on the command line no longer reaches jplag,
   * while without a configuration file it does.
   */
  lemma DumpedConfigPinsTmpDir(args: Args, withConfig: Exists, without: Exists, read: TomlReader,
                               line: Option<string>, writeOk: bool)
    requires !args.init && args.config.None? && args.jplagArgs == [] && args.ignoreFile.None?
    requires args.tmpDir.Some? && args.tmpDir.value != DefaultTmpDir
    requires withConfig(DefaultConfigFile) && read(DefaultConfigFile) == Some(DefaultConfig())
    requires !without(DefaultConfigFile)
    ensures var r := Resolve(args, withConfig, read, line, writeOk);
      r.Resolved? && r.parsed.tmpDir == args.tmpDir.value && r.parsed.jplagArgs[0] == DefaultTmpDir != r.parsed.tmpDir
    ensures var r := Resolve(args, without, read, line, writeOk);
      r.Resolved? && r.parsed.tmpDir == args.tmpDir.value && r.parsed.jplagArgs[0] == r.parsed.tmpDir
  {
  }

  // ---------------------------------------------------------------------------
  // Properties of the prompt.

  /** Every character of `s` other than the one at `i` is whitespace. */
  predicate OnlyWhitespaceBesides(s: string, i: int) {
    forall j :: 0 <= j < |s| && j != i ==> IsWhitespace(s[j])
  }

  /** `char::to_ascii_lowercase`. */
  function LowerChar(c: char): char {
    if 'A' <= c <= 'Z' then (c as int + 32) as char else c
  }

  /** `AsciiLower` works character by character. */
  lemma {:induction false} AsciiLowerAt(s: string, i: int)
    requires 0 <= i < |s|
    ensures AsciiLower(s)[i] == LowerChar(s[i])
    decreases |s|
  {
    if i > 0 {
      AsciiLowerAt(s[1..], i - 1);
      assert AsciiLower(s)[i] == AsciiLower(s[1..])[i - 1];
    }
  }

  /** Lowercasing keeps whitespace and turns only `y` and `Y` into `y`. */
  lemma LowerCharFacts(c: char)
    ensures IsWhitespace(LowerChar(c)) <==> IsWhitespace(c)
    ensures LowerChar(c) == 'y' <==> c == 'y' || c == 'Y'
  {
  }

  /** Only one `y`, surrounded by whitespace, trims to `y`. */
  lemma TrimIsY(s: string)
    ensures Trim(s) == "y" <==> exists i :: 0 <= i < |s| && s[i] == 'y' && OnlyWhitespaceBesides(s, i)
  {
    var t := TrimStart(s);
    var k := |s| - |t|;
    var u := TrimEnd(t);
    if Trim(s) == "y" {
      assert u == t[..1];
      assert t[0] == s[k];
      forall j | 0 <= j < |s| && j != k
        ensures IsWhitespace(s[j])
      {
        if j > k {
          assert s[j] == t[j - k];
        }
      }
      assert s[k] == 'y' && OnlyWhitespaceBesides(s, k);
    }
    if i :| 0 <= i < |s| && s[i] == 'y' && OnlyWhitespaceBesides(s, i) {
      assert !IsWhitespace(s[i]);
      assert i >= k;
      assert t[i - k] == s[i];
      assert !IsWhitespace(t[0]);
      assert t[0] == s[k];
      assert k == i;
      assert u[|u| - 1] == s[i + |u| - 1];
      assert |u| == 1;
      assert u == [s[i]];
    }
  }

  /** The lowered line has a lone `y` where the line has a lone `y` or `Y`. */
  lemma LoneYLowered(line: string, i: int)
    requires 0 <= i < |line|
    ensures var l := AsciiLower(line);
      (l[i] == 'y' && OnlyWhitespaceBesides(l, i)) <==>
      ((line[i] == 'y' || line[i] == 'Y') && OnlyWhitespaceBesides(line, i))
  {
    var l := AsciiLower(line);
    forall j | 0 <= j < |line|
      ensures IsWhitespace(l[j]) <==> IsWhitespace(line[j])
      ensures l[j] == 'y' <==> line[j] == 'y' || line[j] == 'Y'
    {
      AsciiLowerAt(line, j);
      LowerCharFacts(line[j]);
    }
  }

  /**
   * The prompt accepts exactly a line holding one `y` or `Y` and otherwise
   * only whitespace (the line break `read_line` keeps included).
   */
  lemma AcceptsExactly(line: string)
    ensures Accepts(line) <==>
      exists i :: 0 <= i < |line| && (line[i] == 'y' || line[i] == 'Y') && OnlyWhitespaceBesides(line, i)
  {
    var l := AsciiLower(line);
    TrimIsY(l);
    if Accepts(line) {
      var i :| 0 <= i < |l| && l[i] == 'y' && OnlyWhitespaceBesides(l, i);
      LoneYLowered(line, i);
    }
    if i :| 0 <= i < |line| && (line[i] == 'y' || line[i] == 'Y') && OnlyWhitespaceBesides(line, i) {
      LoneYLowered(line, i);
    }
  }

  /** A line of nothing but whitespace, the empty line included, declines the prompt. */
  lemma BlankLineDeclines(line: string)
    requires forall j :: 0 <= j < |line| ==> IsWhitespace(line[j])
    ensures !Accepts(line)
  {
    AcceptsExactly(line);
  }
}
