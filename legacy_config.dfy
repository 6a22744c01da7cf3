/**
 * `src/config.rs`: the older configuration resolution. It follows the same
 * command line, then TOML file, then default order, but loads the
 * configuration file eagerly, reports a broken one as an error instead of
 * panicking, appends the ignore file even to jplag arguments given on the
 * command line, and has two sets of built-in jplag arguments selected by the
 * `legacy` build feature.
 */
module LegacyConfig {
  import opened FileSystem
  import opened Config

  /** The command-line record of this version; `ignored` collects the positional arguments. */
  datatype LegacyArgs = LegacyArgs(
    init: bool,
    debug: bool,
    config: Option<string>,
    sourceZip: Option<string>,
    targetDir: Option<string>,
    tmpDir: Option<string>,
    ignoreFile: Option<string>,
    jplagJar: Option<string>,
    ignored: seq<string>,
    jplagArgs: seq<string>)

  /** The five values `parse_args` returns. */
  datatype Settings = Settings(source: string, tmpDir: string, targetDir: string, jplagJar: string, jplagArgs: seq<string>)

  datatype LegacyResolution =
    | InitRan(dump: DumpResult)
    | Parsed(settings: Settings)
    | ParseFailed(error: ConfigError)

  const LegacyResultsZip: string := "results.zip"
  const LegacyJavaVersion: string := "java19"

  /** The built-in jplag arguments; `legacy` is the build feature of that name. */
  function LegacyDefaultArgs(legacy: bool, tmpDir: string, targetDir: string): seq<string> {
    if legacy then ["-s", tmpDir, "-r", targetDir, "-l", LegacyJavaVersion]
    else [tmpDir, "-r", targetDir + "/" + LegacyResultsZip, "-l", DefaultJavaVersion]
  }

  /**
   * `parse_toml` of this version: a missing file is an error unless its
   * name is `config.toml`, whether or not that name was given explicitly.
   */
  function LoadToml(file: string, present: Exists, read: TomlReader): (r: Loaded)
    ensures !present(file) ==> (r.LoadFailed? <==> file != DefaultConfigFile)
    ensures !present(file) && file == DefaultConfigFile ==> r == Loaded(EmptyConfig)
    ensures present(file) ==> (r.LoadFailed? <==> read(file).None?)
  {
    if !present(file) then
      if file != DefaultConfigFile then LoadFailed(ConfigFileNotFound(file)) else Loaded(EmptyConfig)
    else
      match read(file)
      case None => LoadFailed(ConfigUnreadable(file))
      case Some(c) => Loaded(c)
  }

  /** The record `--init` writes in this version. */
  function LegacyDefaultConfig(legacy: bool): (r: TomlConfig)
    ensures r.ignoreFile.None?
    ensures r.jplagArgs == Some(LegacyDefaultArgs(legacy, DefaultTmpDir, DefaultTargetDir))
  {
    TomlConfig(
      Some(DefaultSourceFile), Some(DefaultTargetDir), Some(DefaultTmpDir), None, Some(DefaultJplagFile),
      Some(if legacy then ["-s", DefaultTmpDir, "-r", DefaultTargetDir, "-l", LegacyJavaVersion]
           else [DefaultTmpDir, "-r", DefaultTargetDir + "/" + LegacyResultsZip, "-l", DefaultJavaVersion]))
  }

  function ConfigFileOf(args: LegacyArgs): string {
    if args.config.Some? then args.config.value else DefaultConfigFile
  }

  /** `parse_args` of this version, as a function of its inputs. */
  function LegacyResolve(legacy: bool, args: LegacyArgs, present: Exists, read: TomlReader,
                         line: Option<string>, writeOk: bool): (r: LegacyResolution)
    ensures args.init <==> r.InitRan?
    ensures r.InitRan? ==> r.dump == Dump(LegacyDefaultConfig(legacy), present(DefaultConfigFile), line, writeOk)
    ensures r.ParseFailed? ==>
      || (r.error.IgnoreFileNotFound? && !present(r.error.file))
      || (LoadToml(ConfigFileOf(args), present, read).LoadFailed?
          && r.error == LoadToml(ConfigFileOf(args), present, read).error)
  {
    if args.init then InitRan(Dump(LegacyDefaultConfig(legacy), present(DefaultConfigFile), line, writeOk))
    else
      match LoadToml(ConfigFileOf(args), present, read)
      case LoadFailed(e) => ParseFailed(e)
      case Loaded(conf) =>
        var tmpDir := Pick(args.tmpDir, conf.tmpDir, DefaultTmpDir);
        var targetDir := Pick(args.targetDir, conf.targetDir, DefaultTargetDir);
        var base :=
          if args.jplagArgs != [] then args.jplagArgs
          else if conf.jplagArgs.Some? then conf.jplagArgs.value
          else LegacyDefaultArgs(legacy, tmpDir, targetDir);
        var settings := Settings(
          Pick(args.sourceZip, conf.sourceZip, DefaultSourceFile), tmpDir, targetDir,
          Pick(args.jplagJar, conf.jplagJar, DefaultJplagFile), base);
        match Or(args.ignoreFile, conf.ignoreFile)
        case None => Parsed(settings)
        case Some(f) =>
          if !present(f) then ParseFailed(IgnoreFileNotFound(f))
          else Parsed(settings.(jplagArgs := base + ["-x", f]))
  }

  /** `parse_args` as the source writes it, the argument vector grown by `append` and `push`. */
  method LegacyParseArgs(legacy: bool, args: LegacyArgs, present: Exists, read: TomlReader,
                         line: Option<string>, writeOk: bool) returns (r: LegacyResolution)
    ensures r == LegacyResolve(legacy, args, present, read, line, writeOk)
  {
    if args.init {
      var dumped := DumpRecord(LegacyDefaultConfig(legacy), present(DefaultConfigFile), line, writeOk);
      return InitRan(dumped);
    }
    var loaded := LoadToml(ConfigFileOf(args), present, read);
    if loaded.LoadFailed? {
      return ParseFailed(loaded.error);
    }
    var conf := loaded.config;
    var source := Pick(args.sourceZip, conf.sourceZip, DefaultSourceFile);
    var tmpDir := Pick(args.tmpDir, conf.tmpDir, DefaultTmpDir);
    var targetDir := Pick(args.targetDir, conf.targetDir, DefaultTargetDir);
    var jplagJar := Pick(args.jplagJar, conf.jplagJar, DefaultJplagFile);
    var jplagArgs := args.jplagArgs;
    if jplagArgs == [] {
      var toAppend := if conf.jplagArgs.Some? then conf.jplagArgs.value else LegacyDefaultArgs(legacy, tmpDir, targetDir);
      jplagArgs := jplagArgs + toAppend;
    }
    var ignoreFile := Or(args.ignoreFile, conf.ignoreFile);
    if ignoreFile.Some? {
      if !present(ignoreFile.value) {
        return ParseFailed(IgnoreFileNotFound(ignoreFile.value));
      }
      jplagArgs := jplagArgs + ["-x"];
      jplagArgs := jplagArgs + [ignoreFile.value];
    }
    return Parsed(Settings(source, tmpDir, targetDir, jplagJar, jplagArgs));
  }

  // ---------------------------------------------------------------------------
  // Properties.

  /** Each setting comes from the command line, else the configuration file, else its default. */
  lemma LegacyPrecedence(legacy: bool, args: LegacyArgs, present: Exists, read: TomlReader,
                         line: Option<string>, writeOk: bool)
    requires LegacyResolve(legacy, args, present, read, line, writeOk).Parsed?
    ensures var st := LegacyResolve(legacy, args, present, read, line, writeOk).settings;
      var loaded := LoadToml(ConfigFileOf(args), present, read);
      && loaded.Loaded?
      && st.source == Pick(args.sourceZip, loaded.config.sourceZip, DefaultSourceFile)
      && st.tmpDir == Pick(args.tmpDir, loaded.config.tmpDir, DefaultTmpDir)
      && st.targetDir == Pick(args.targetDir, loaded.config.targetDir, DefaultTargetDir)
      && st.jplagJar == Pick(args.jplagJar, loaded.config.jplagJar, DefaultJplagFile)
      && (args.sourceZip.Some? ==> st.source == args.sourceZip.value)
      && (args.tmpDir.Some? ==> st.tmpDir == args.tmpDir.value)
      && (args.targetDir.Some? ==> st.targetDir == args.targetDir.value)
      && (args.jplagJar.Some? ==> st.jplagJar == args.jplagJar.value)
  {
  }

  /**
   * The argument vector starts with the command line's arguments, else the
   * configuration file's, else the built-in ones, and ends with `-x` and the
   * ignore file exactly when one is set; a missing ignore file is an error
   * even when the command line gave the jplag arguments.
   */
  lemma LegacyIgnoreFileAlwaysAppended(legacy: bool, args: LegacyArgs, present: Exists, read: TomlReader,
                                       line: Option<string>, writeOk: bool)
    requires !args.init && LoadToml(ConfigFileOf(args), present, read).Loaded?
    ensures var conf := LoadToml(ConfigFileOf(args), present, read).config;
      var r := LegacyResolve(legacy, args, present, read, line, writeOk);
      var ignore := if args.ignoreFile.Some? then args.ignoreFile else conf.ignoreFile;
      var base :=
        if args.jplagArgs != [] then args.jplagArgs
        else if conf.jplagArgs.Some? then conf.jplagArgs.value
        else LegacyDefaultArgs(legacy, Pick(args.tmpDir, conf.tmpDir, DefaultTmpDir),
                               Pick(args.targetDir, conf.targetDir, DefaultTargetDir));
      && (r.ParseFailed? <==> ignore.Some? && !present(ignore.value))
      && (r.ParseFailed? ==> r.error == IgnoreFileNotFound(ignore.value))
      && (r.Parsed? ==> r.settings.jplagArgs == base + (if ignore.Some? then ["-x", ignore.value] else []))
  {
  }

  /** The two sets of built-in arguments, written out. */
  lemma LegacyBuiltInArgs(legacy: bool, args: LegacyArgs, present: Exists, read: TomlReader,
                          line: Option<string>, writeOk: bool)
    requires !args.init && args.jplagArgs == [] && args.ignoreFile.None?
    requires LoadToml(ConfigFileOf(args), present, read) == Loaded(EmptyConfig)
    ensures var r := LegacyResolve(legacy, args, present, read, line, writeOk);
      && r.Parsed?
      && (legacy ==> r.settings.jplagArgs == ["-s", r.settings.tmpDir, "-r", r.settings.targetDir, "-l", "java19"])
      && (!legacy ==> r.settings.jplagArgs == [r.settings.tmpDir, "-r", r.settings.targetDir + "/results.zip", "-l", "java"])
  {
    var target := LegacyResolve(legacy, args, present, read, line, writeOk).settings.targetDir;
    assert target + "/" + LegacyResultsZip == target + "/results.zip";
  }

  /**
   * The record `--init` writes resolves, for a command line that overrides
   * nothing, to the settings resolving without any configuration file gives.
   */
  lemma LegacyDumpedConfigAgreesWithDefaults(legacy: bool, args: LegacyArgs, withConfig: Exists, without: Exists,
                                             read: TomlReader, line: Option<string>, writeOk: bool)
    requires !args.init && args.config.None? && args.tmpDir.None? && args.targetDir.None? && args.jplagArgs == []
    requires withConfig(DefaultConfigFile) && read(DefaultConfigFile) == Some(LegacyDefaultConfig(legacy))
    requires !without(DefaultConfigFile)
    requires forall f :: f != DefaultConfigFile ==> withConfig(f) == without(f)
    requires args.ignoreFile != Some(DefaultConfigFile)
    ensures LegacyResolve(legacy, args, withConfig, read, line, writeOk)
         == LegacyResolve(legacy, args, without, read, line, writeOk)
  {
  }

  /**
   * Where the two versions part: `--config config.toml` naming a missing
   * file is an error in the current version and the empty configuration in
   * this one; an unreadable configuration file is an error here and a panic
   * there.
   */
  lemma VersionsDifferOnConfigFile(legacy: bool, args: LegacyArgs, current: Args, present: Exists, read: TomlReader,
                                   line: Option<string>, writeOk: bool)
    requires !args.init && !current.init && NeedsConfig(current)
    requires args.config == current.config && (args.config.None? || args.config == Some(DefaultConfigFile))
    ensures !present(DefaultConfigFile) && args.config.Some? ==>
      && Config.Resolve(current, present, read, line, writeOk) == Crashed(ConfigFileNotFound(DefaultConfigFile))
      && LoadToml(ConfigFileOf(args), present, read) == Loaded(EmptyConfig)
    ensures present(DefaultConfigFile) && read(DefaultConfigFile).None? ==>
      && Config.Resolve(current, present, read, line, writeOk) == Crashed(ConfigUnreadable(DefaultConfigFile))
      && LegacyResolve(legacy, args, present, read, line, writeOk) == ParseFailed(ConfigUnreadable(DefaultConfigFile))
  {
  }
}
