# jplag_wrapper, modelled in Dafny

jplag_wrapper prepares a batch of student submissions for the JPlag
plagiarism detector and then runs JPlag on them. Its `main` works in four
stages:

- It resolves its settings from the command line, a TOML file and built-in
  defaults.
- `init` resets the result directory, unpacks the submissions archive into a
  temporary directory and copies extra submission directories in.
- `prepare` visits every student directory. It deletes files that are not
  archives, extracts the one archive a student handed in with the strategy
  its extension selects, and removes students without exactly one archive.
  It then deletes macOS metadata (`__MACOSX` directories, `.DS_Store`
  files) and spells out German diacritics in Java sources.
- `run` starts `java -jar <jplag> <args>` and waits for it. `cleanup` then
  removes the temporary directory unless asked to keep it.

The model treats the file tree as a value, `FS = map<Path, Node>`, where a
path is a sequence of components. Every operation returns
`Done(fs) | Failed(fs, error) | Panicked`, so a failure reports the tree as
the failing step left it. Anything the program asks the outside world is a
parameter:

- the archive codecs (bytes to a list of entries);
- the order of `walkdir` walks and of `fs::read_dir` listings;
- whether a file's bytes are valid UTF-8, which `fs::read_to_string` needs;
- whether `java --version` succeeds, and how the JPlag child process ends;
- `fs::exists` and TOML reading for the configuration, and the line read
  from stdin.

The walk and listing oracles come with ghost predicates (`WalkerOk`,
`ListerOk`). They say that an oracle lists exactly the entries below, or
directly inside, a directory, each once, parents before children.

Loops in the source are `method`s with `while`/`for` loops, each proved equal
to a recursive specification function. The properties are lemmas about those
functions. The error-collecting macro mutates a vector in place, so it is a
class with a `seq` field.

Modules, in dependency order:

| Module | Files and source |
|---|---|
| `FileSystem` | `filesystem.dfy`: the primitives `create_dir_all`, `remove_file`, `remove_dir_all`, `write`, and walks |
| `Archives` | `archives.dfy`: unpacking a list of archive entries |
| `Transliteration` | `transliteration.dfy`: the text transformation of `clean_non_ascii` |
| `Helper` | `helper.dfy`: `src/helper.rs` |
| `ArchiveHandler` | `archive_handler.dfy`: `src/archive_handler.rs` |
| `Pipeline` | `pipeline.dfy`: `prepare` in `src/main.rs` |
| `Driver` | `driver.dfy`: `main`, `init`, `run` and `cleanup` in `src/main.rs` |
| `Config` | `config.dfy`: `src/conf/config.rs` |
| `LegacyConfig` | `legacy_config.dfy`: the older `src/config.rs` |
| `Macros` | `macros.dfy`: `src/macros.rs` |

## Model

| member | source | states |
|---|---|---|
| FileSystem.CreateDirAll | src/main.rs:123 | succeeds exactly when no prefix of the path is a file; afterwards every prefix is a directory, every old entry is unchanged, and only prefixes of the path were added |
| FileSystem.RemoveFile | src/helper.rs:177 | succeeds exactly on a file, and removes that one entry |
| FileSystem.RemoveDirAll | src/main.rs:234-239 | succeeds exactly on a directory, and removes it and everything below it, nothing else |
| FileSystem.WriteFile | src/helper.rs:232-233 | succeeds exactly when the path is not a directory and its parent is one; the file then holds the new data |
| FileSystem.AsciiLower | src/main.rs:188 | keeps the length of the name |
| FileSystem.AsciiLowerIdempotent | src/main.rs:188 | lower-casing twice is lower-casing once |
| FileSystem.CreateDirAllKeepsWf | src/main.rs:123 | creating directories keeps the tree shape: every entry's parent is a directory |
| FileSystem.WriteFileKeepsWf | src/helper.rs:232-233 | writing a file keeps the tree shape |
| FileSystem.RemoveFileKeepsWf | src/helper.rs:177 | removing a file keeps the tree shape |
| FileSystem.RemoveDirAllKeepsWf | src/main.rs:234-239 | removing a directory tree keeps the tree shape |
| FileSystem.CreateDirAllConfined | src/archive_handler.rs:41 | creating a path at or below an existing directory changes nothing outside that directory, loses no entry and changes no entry's kind |
| FileSystem.CreateDirAllUnderDir | src/main.rs:123 | creating a directory whose parent exists changes nothing outside that directory and keeps every entry's kind |
| FileSystem.CreateDirAllAround | src/helper.rs:114 | creating a path that is a prefix or an extension of `p` changes nothing away from `p` |
| Archives.PlaceEntry | src/helper.rs:65-89 | one entry never panics, loses no entry and keeps directories directories; a placed file entry holds its data and nothing else changes; a placed directory entry is a directory and every old entry is unchanged |
| Archives.PlaceEntryKeepsShape | src/helper.rs:65-89 | placing an entry below an existing directory keeps the tree shape and changes nothing outside that directory |
| Archives.PlaceEntryAround | src/helper.rs:61-89 | placing an entry at or below `p` changes nothing away from `p` |
| Archives.Unpack | src/helper.rs:57-93 | unpacking a list of entries, however far it gets, loses no old entry and turns no file into a directory or back |
| Archives.UnpackAround | src/helper.rs:57-91 | unpacking into `dest` changes nothing away from `dest`, however far it gets |
| Archives.UnpackStaysBelow | src/helper.rs:57-91 | unpacking below an existing directory keeps the tree shape and changes nothing outside it |
| Archives.UnpackPanicsOnlyOnUnenclosed | src/helper.rs:57-61 | a panic comes only from `unzip_to`'s `enclosed_name().unwrap()` on an escaping name; whenever some entry has such a name, `unzip_to` panics unless writing an earlier entry failed first |
| Archives.UnpackKeeps | src/helper.rs:57-91 | after a complete unpack, directories stay directories, and an entry no file entry targets is unchanged |
| Archives.UnpackAddsOnlyTargets | src/helper.rs:57-91 | however far unpacking gets, every path it adds is an entry's target or an ancestor of one |
| Archives.UnpackPlacesEntries | src/helper.rs:57-93 | after a complete unpack, every directory entry is a directory, every file entry holds the data of the last entry with its name, and no path appears that is not an entry's target or an ancestor of one |
| Transliteration.ReplaceAllOne | src/helper.rs:188-196 | the replacement table applied to one character gives its image: the two-letter spelling of a diacritic, or the character itself |
| Transliteration.ReplaceAllIsCharWise | src/helper.rs:218-220 | the fold of `replace` calls over the table acts on each character on its own |
| Transliteration.StripCharWise | src/helper.rs:222-224 | stripping non-ASCII characters after the table is the character-wise image with stripping on |
| Transliteration.CharWiseStable | src/helper.rs:218-224 | every character of the output is one the transformation leaves alone |
| Transliteration.CleanContentIsStable | src/helper.rs:218-224 | the transformed content holds only characters the transformation leaves alone |
| Transliteration.CleanContentIsCharWise | src/helper.rs:218-224 | the content transformation is the per-character image |
| Transliteration.CleanContentAppend | src/helper.rs:218-224 | transforming a concatenation transforms each part |
| Transliteration.CleanContentUnchangedIff | src/helper.rs:226-229 | content is left unchanged exactly when all its characters are ones the transformation leaves alone, which is when the file is not rewritten |
| Transliteration.CleanContentKeepsAscii | src/helper.rs:222-229 | ASCII content is never changed |
| Transliteration.CleanContentIdempotent | src/helper.rs:218-229 | a second pass changes nothing |
| Transliteration.MuellerSpelledOut | src/helper.rs:188-224 | "Müller" becomes "Mueller", whether or not non-ASCII is kept |
| Transliteration.KeptCharactersSurvive | src/helper.rs:222-224 | "été" stays as it is when non-ASCII is kept, and becomes "t" when it is stripped |
| Helper.UnzipTo | src/helper.rs:35-94 | the loop over the archive's entries computes `UnzipSpec`: open, then place the entries in order, stopping at the first failure |
| Helper.UnzipUnreadable | src/helper.rs:45-53 | an archive that is missing or cannot be parsed fails with a decoding error and leaves the tree untouched |
| Helper.AddSubs | src/helper.rs:96-134 | the loop over the extra directories computes `AddSubsSpec` |
| Helper.AddSubsStopsAtBadDir | src/helper.rs:102-109 | processing stops at the first argument that does not exist or is not a directory, with that error and every copy made before it |
| Helper.CopyWalkMirrors | src/helper.rs:116-130 | copying the walk of a directory apart from `tmp` reproduces every walked path at `tmp + path` and changes nothing outside `tmp` |
| Helper.AddSubsMirrors | src/helper.rs:102-131 | a successful `add_subs` reproduces every path below each argument at `tmp + path` |
| Helper.AddSubsCopies | src/helper.rs:113-130 | after success each path below an argument is at `tmp + path` as the same directory or the same file, and nothing outside `tmp` changed |
| Helper.CopyWalkAround | src/helper.rs:116-130 | the copy loop changes nothing away from `tmp` |
| Helper.AddSubsAround | src/helper.rs:96-134 | `add_subs` changes nothing away from `tmp`, whether it succeeds or stops early |
| Helper.RemoveMacDirs | src/helper.rs:147-159 | the first walk removes exactly the `__MACOSX` directory trees below the root |
| Helper.CollectDsStores | src/helper.rs:163-172 | the second walk collects exactly the paths whose lower-cased text ends with `.ds_store` |
| Helper.RemoveFiles | src/helper.rs:176-178 | removing the collected set succeeds exactly when each is a file, and then removes exactly them; otherwise it fails at one that is not |
| Helper.SanitizeSubmissions | src/helper.rs:138-181 | a missing root fails with `NotFound`; success happens exactly under `SanitizeSucceeds`, and the result is the `Sanitized` tree |
| Helper.SanitizedIsClean | src/helper.rs:138-181 | after success no `__MACOSX` directory and no `.ds_store` path remains below the root |
| Helper.SanitizeKeepsOthers | src/helper.rs:138-181 | every other entry is kept unchanged, and nothing outside the root changes |
| Helper.SanitizeIdempotent | src/helper.rs:138-181 | sanitizing a sanitized tree succeeds and removes nothing more |
| Helper.CleanNonAscii | src/helper.rs:184-237 | a missing root fails with `NotFound`; success yields the tree with every Java source transformed, and every Java source was valid UTF-8; a `NotUtf8` failure names a Java source that is not; on a well-formed tree it succeeds exactly when every Java source is valid UTF-8 |
| Helper.CleanWalk | src/helper.rs:198-234 | the walk loop writes exactly the transformed content of each Java source it meets; it fails only at a Java source that is not valid UTF-8, or at a write on a tree that is not well-formed |
| Helper.CleanedTouchesOnlyJava | src/helper.rs:203-233 | only Java sources below the root change, and each changes exactly when it holds a character the transformation does not leave alone |
| Helper.CleanedIdempotent | src/helper.rs:184-237 | cleaning a cleaned tree changes nothing |
| ArchiveHandler.Zip | src/archive_handler.rs:22-57 | `zip` computes its specification: file name of the student directory, `create_dir_all(tmp/name)`, `unzip_to`, remove the archive |
| ArchiveHandler.Rar | src/archive_handler.rs:60-114 | `rar` computes its specification: open first, then the file name, `create_dir_all`, the header loop, remove the archive |
| ArchiveHandler.RarHeaders | src/archive_handler.rs:84-103 | the header loop extracts file entries to `dest/name`, skips directory entries, and stops at an unreadable header |
| ArchiveHandler.LibraryExtract | src/archive_handler.rs:142-173 | the shared body of `sz`, `tar` and `gz` computes the library specification |
| ArchiveHandler.Sz | src/archive_handler.rs:117-139 | `sz` unpacks into the student directory and removes the archive |
| ArchiveHandler.Tar | src/archive_handler.rs:142-173 | `tar` unpacks into the student directory and removes the archive |
| ArchiveHandler.Gz | src/archive_handler.rs:176-211 | `gz` unpacks the gzipped tar into the student directory and removes the archive |
| ArchiveHandler.Extract | src/main.rs:227-229 | calling the strategy the walk selected computes that strategy's specification |
| ArchiveHandler.DestinationIsStudentDir | src/archive_handler.rs:33-37 | for a student directory directly below `tmp`, every strategy unpacks into the student directory |
| ArchiveHandler.OnlyZipPanics | src/archive_handler.rs:45-46 | only `zip` can panic, through `unzip_to` |
| ArchiveHandler.LibraryIgnoresTmp | src/archive_handler.rs:117-127 | `sz`, `tar` and `gz` do not depend on the temporary directory |
| ArchiveHandler.FinishRemovesArchive | src/archive_handler.rs:51-52 | the archive is untouched until the final step, which removes it |
| ArchiveHandler.ArchiveRemovedExactlyOnSuccess | src/archive_handler.rs:22-57 | a strategy that succeeded removed the archive and kept every other entry with its kind; one that failed left the archive in place |
| ArchiveHandler.ExtractKeepsKinds | src/archive_handler.rs:22-211 | no strategy that returns deletes anything but the archive or turns a directory into a file |
| ArchiveHandler.UnreadableArchive | src/archive_handler.rs:71-73 | `rar` and the library strategies fail on an unreadable archive with the tree untouched; `zip` has created its destination by then |
| ArchiveHandler.ExtractStaysInDestination | src/archive_handler.rs:37-46 | a strategy that did not panic keeps the tree shape and changes nothing outside its destination except removing the archive |
| Pipeline.StrategyForIff | src/main.rs:185-196 | a strategy is selected exactly by its own lower-cased extension |
| Pipeline.StrategyForNone | src/main.rs:196-207 | any other extension, or none, selects no strategy |
| Pipeline.StrategyForIgnoresCase | src/main.rs:185-188 | the selection does not depend on the case of the extension |
| Pipeline.ScanSpec | src/main.rs:190-219 | a recorded candidate always goes with the strategy its own extension selects |
| Pipeline.Scan | src/main.rs:167-220 | the walk loop computes `ScanSpec` from an empty candidate and the `dummy` strategy |
| Pipeline.ScanCandidate | src/main.rs:209-219 | the candidate left by the walk is the only recognized entry when there is exactly one, and none when there are none or several |
| Pipeline.ScanDeletes | src/main.rs:196-207 | the walk deletes only files that select no strategy, never a directory, and all such files when not stopped early |
| Pipeline.CandidateIsSingleArchive | src/main.rs:165-225 | a student directory keeps a candidate exactly when it holds exactly one archive entry, and the candidate is that entry |
| Pipeline.ProcessChildStaysInside | src/main.rs:209-229 | one student's turn keeps the tree shape and changes nothing outside the student directory |
| Pipeline.LoopFrame | src/main.rs:154-230 | the student loop keeps the tree shape and `tmp`, and touches only the student directories it visits |
| Pipeline.LoopDone | src/main.rs:154-230 | a loop that ran through every child put into `no_zip` exactly the children without a single archive, and kept the others as directories |
| Pipeline.LoopFailed | src/main.rs:159-163 | the loop fails only at a listed child that was not a directory |
| Pipeline.ExtractSubmissions | src/main.rs:154-230 | the loop over the listed children computes `ExtractChildren` |
| Pipeline.RemoveSubmissions | src/main.rs:232-240 | the `no_zip` loop computes `RemoveAll` |
| Pipeline.RemoveAllRemoves | src/main.rs:232-240 | removing distinct existing student directories succeeds and removes exactly their subtrees |
| Pipeline.ExtractAllKeepsOnlySingleArchives | src/main.rs:151-240 | afterwards a student directory without exactly one archive is gone with all below it, one with exactly one is still a directory, and nothing outside `tmp` changed |
| Pipeline.ExtractAllErrors | src/main.rs:154-163 | the only errors before sanitizing are an unreadable `tmp` and a child of `tmp` that is not a directory; strategy errors never end the loop |
| Pipeline.Prepare | src/main.rs:144-250 | extraction errors pass through; success means sanitizing succeeded, every Java source was valid UTF-8 and the tree is the sanitized, cleaned extraction; once sanitizing leaves a well-formed tree, success happens exactly when every Java source is valid UTF-8; a panic comes only from extraction |
| Driver.RenderCommand | src/main.rs:254-258 | the logged command is `java -jar <jar>` followed by each argument after a space |
| Driver.SplitJoin | src/main.rs:254-258 | splitting a joined list at the separator gives the list back exactly when no element contains the separator |
| Driver.CommandLineSplits | src/main.rs:254-267 | the logged command splits at spaces into the argument vector the child gets exactly when no argument and no jar path component contains a space |
| Driver.RemoveDirIfAny | src/main.rs:122 | `let _ = remove_dir_all` removes the tree below an existing directory and otherwise changes nothing |
| Driver.InitSpec | src/main.rs:107-119 | a missing source archive fails first, then a missing jar, before anything is changed |
| Driver.Init | src/main.rs:95-141 | `init` computes `InitSpec` |
| Driver.ResetDirEmpties | src/main.rs:121-123 | resetting the result directory succeeds exactly when no prefix is a file, and leaves it an empty directory, changing nothing away from it |
| Driver.InitLaysOut | src/main.rs:121-136 | `init` changes nothing away from the result and temporary directories; on success with the two apart, the result directory is empty |
| Driver.InitLosesSourceInResult | src/main.rs:121-129 | a source archive inside the result directory is deleted before it is read, so `init` fails with a decoding error |
| Driver.LastEntry | src/main.rs:298-303 | the result file is the last listed entry, or none when the directory is empty |
| Driver.LastListed | src/main.rs:298-303 | the loop over the result directory keeps the last entry |
| Driver.Run | src/main.rs:253-308 | `run` computes `RunSpec` |
| Driver.RunOutcome | src/main.rs:253-308 | `run` succeeds exactly when JPlag exits successfully and the result directory is readable; the result file is an entry of it; a failed exit reports the logged command |
| Driver.Conclude | src/main.rs:72-91 | after `prepare`: success exactly when `run` succeeds and, when cleaning up, `tmp` exists; cleanup removes exactly the tree below `tmp`; a run failure aborts with the tree unchanged |
| Driver.Finish | src/main.rs:72-91 | the last stage computes `Conclude` |
| Driver.MainFlow | src/main.rs:19-92 | a missing Java aborts first; an `init` failure aborts with its error; reaching `run` means every Java source was valid UTF-8 and the tree is the prepared extraction; once sanitizing leaves a well-formed tree, `run` is reached exactly when every Java source is valid UTF-8 |
| Driver.PrepareAndFinish | src/main.rs:70-91 | after `init`: an extraction failure or panic aborts `main` with it; reaching `run` means every Java source was valid UTF-8 and the tree is the prepared extraction; otherwise `prepare` failed or panicked |
| Config.LoadConfig | src/conf/config.rs:171-208 | a missing config file is an error exactly when `--config` named it, else the empty record; errors are only not-found or unreadable |
| Config.Resolve | src/conf/config.rs:56-168 | `--init` exactly selects the dump; the only error is a missing ignore file; abort flag, preserve flag and extra directories are copied from the command line |
| Config.ParseArgs | src/conf/config.rs:56-168 | the method with `append` and `push` computes `Resolve` |
| Config.DefaultConfig | src/conf/config.rs:226-242 | the dumped record has no ignore file and holds the default jplag arguments of the default directories |
| Config.TrimStart | src/conf/config.rs:220 | drops exactly the leading whitespace |
| Config.TrimEnd | src/conf/config.rs:220 | drops exactly the trailing whitespace |
| Config.Dump | src/conf/config.rs:212-276 | writes exactly when `config.toml` is absent or the prompt is accepted, and the write succeeds; declines exactly on an existing file and a non-accepting line |
| Config.DumpRecord | src/conf/config.rs:211-276 | the method computes `Dump` |
| Config.PanicsIff | src/conf/config.rs:23-26 | resolution panics exactly when the lazily loaded config is needed and is missing while named, or unreadable |
| Config.SettingPrecedence | src/conf/config.rs:66-104 | source, temporary directory, target directory and jar each come from the command line, else the TOML file, else the default |
| Config.CliJplagArgsVerbatim | src/conf/config.rs:108-145 | jplag arguments given on the command line are used verbatim, and the ignore file is neither appended nor checked |
| Config.CompleteCliIgnoresConfig | src/conf/config.rs:66-127 | a command line giving every setting resolves without consulting the configuration file at all |
| Config.IgnoreFileAppended | src/conf/config.rs:111-139 | without command-line arguments the vector is exactly the TOML arguments, or the built-in ones of the resolved directories, followed by `-x` and the ignore file (command line first) when one is set; a missing ignore file is the only error |
| Config.DefaultJplagArgsFollowDirs | src/conf/config.rs:66-139 | when neither the command line nor the TOML file gives arguments, the vector is exactly `[tmp, -r, target/results, -l, java, --encoding, utf-8]`, plus `-x` and the ignore file when set, with each directory from the command line, else the TOML file, else the default |
| Config.DumpedConfigAgreesWithDefaults | src/conf/config.rs:233-241 | the dumped file resolves to the same settings as no file, for a command line that overrides no directory |
| Config.DumpedConfigPinsTmpDir | src/conf/config.rs:233-241 | with the dumped file, a temporary directory given on the command line no longer reaches jplag's arguments, while without a file it does |
| Config.TrimIsY | src/conf/config.rs:220 | a string trims to `y` exactly when it is one `y` surrounded by whitespace |
| Config.AcceptsExactly | src/conf/config.rs:220 | the prompt accepts exactly a line of one `y` or `Y` and otherwise whitespace |
| Config.BlankLineDeclines | src/conf/config.rs:212-224 | an empty or blank line declines the overwrite |
| LegacyConfig.LoadToml | src/config.rs:250-282 | a missing file is an error exactly when its name is not `config.toml`; a present one fails exactly when unreadable |
| LegacyConfig.LegacyDefaultConfig | src/config.rs:296-319 | the dumped record has no ignore file and holds the built-in arguments of the default directories for the build feature |
| LegacyConfig.LegacyResolve | src/config.rs:147-248 | `--init` exactly selects the dump; errors are a missing ignore file or the configuration file's own error |
| LegacyConfig.LegacyParseArgs | src/config.rs:147-248 | the method with `append` and `push` computes `LegacyResolve` |
| LegacyConfig.LegacyPrecedence | src/config.rs:163-191 | each setting comes from the command line, else the TOML file, else the default |
| LegacyConfig.LegacyIgnoreFileAlwaysAppended | src/config.rs:195-241 | the arguments are the command line's, else TOML's, else built-in, then `-x` and the ignore file when set, even after command-line arguments; a missing ignore file is `IgnoreFileNotFound` |
| LegacyConfig.LegacyBuiltInArgs | src/config.rs:195-224 | the built-in arguments are `[tmp, -r, target/results.zip, -l, java]`, or `[-s, tmp, -r, target, -l, java19]` with the `legacy` feature |
| LegacyConfig.LegacyDumpedConfigAgreesWithDefaults | src/config.rs:296-319 | the dumped file resolves to the same settings as no file, for a command line that overrides no directory |
| LegacyConfig.VersionsDifferOnConfigFile | src/config.rs:250-269 | a missing `--config config.toml` crashes the current version but is the empty config here; an unreadable file crashes there and is an error here |
| Macros.Handled | src/macros.rs:4-8 | aborting returns the error with the list unchanged; otherwise the error is appended at the end and control continues |
| Macros.CollectingKeepsAll | src/macros.rs:8 | collecting over a run of errors keeps all of them, in order, after the earlier ones |
| Macros.AbortingStopsAtFirst | src/macros.rs:5-7 | aborting returns the first error and records none |
| Macros.ErrorList.HandleSubErr | src/macros.rs:1-9 | the exact state change: with abort the list is unchanged and the error is returned, otherwise one error is appended |

## Left out

- `listen_for_output` (src/helper.rs:239-252), which prints JPlag's output line by line: printing is not modelled.
- The debugging panic in `prepare` when its counter reaches 3 (src/main.rs:180-183): modelling it would make every batch of three or more walked entries panic. The model leaves it out and describes the pipeline the counter interrupts.
- The unreachable `return Err` after `break` (src/main.rs:213-217): dead code. Two archives clear the candidate and end the walk, as the code does.
- `dummy` (src/archive_handler.rs:214-223): it is never called, because a candidate always goes with the strategy of its own extension (`Pipeline.ScanSpec`). The strategy is an `Option`, and `None` stands for `dummy`.
- Archive decoding: each format's codec is a function parameter from bytes to entries. The libraries' own checks are not modelled: `unrar` path checks, `sevenz_rust` and `tar`, including tar's deferred directory permissions. `rar`, `7z` and `tar` entries whose names escape the destination are skipped.
- I/O errors of the primitives beyond the ones the tree shape decides: permissions, a full disk, errors of `fs::exists`, errors of individual `walkdir` and `read_dir` entries, and entries disappearing during a walk other than those removed by the walk itself.
- Snapshots and timing: `Instant::now`, the runtime log, `tracing` and the log level (`get_log_level`, src/config.rs:136-142).
- `env::current_dir` in `run`: paths are relative, and the current directory is the root of the tree.
- `check_java_executable` (src/helper.rs:14-33) is the boolean `javaOk` parameter. The JPlag child process is the `ChildRun` parameter: spawn, listen and wait failures, or an exit status.
- Command-line parsing (src/conf/args.rs, clap), TOML parsing and serialization, stdin, and the file write of `--init`: these are inputs or booleans.
- `main` destructures `parse_args`'s result as an eight-tuple, but `parse_args` returns the `ParsedArgs` struct, which has no `keep_non_ascii` field (src/main.rs:32-41). `Driver.MainFlow` takes the eight settings as one record; `keep_non_ascii` is carried only by `Args`.
- src/config.rs refers to `custom_error::FileNotFoundError::IgnoreFileNotFound`, which src/custom_error.rs does not declare. The model uses one `ConfigError` datatype for both versions.
- `to_lowercase` and `trim` use Unicode case mapping and the `White_Space` property. The model lower-cases ASCII only, which decides the same for the comparisons the code makes: with `y` at the prompt and the `.ds_store` suffix. `Config.IsWhitespace` lists the `White_Space` characters.
- Helper.AddSubsCopies: the copy is proved only for arguments that lie apart from `tmp`. An argument inside `tmp` or above it would copy into its own walk.
- Archives.UnpackPlacesEntries: stated for a non-empty destination, which every caller passes.
- Helper.CleanNonAscii: the exact success condition (every Java source is valid UTF-8) is proved only for a well-formed tree, where every entry's parent is a directory.
- Pipeline.Prepare: the exact success condition is stated only when sanitizing succeeds and leaves a well-formed tree.
- Driver.MainFlow: reaching `run` is characterised exactly only when sanitizing succeeds and leaves a well-formed tree.
- Reading a Java source as text is modelled by the `utf8` parameter, which says whether a file's content is valid UTF-8. The model does not decode bytes, so a valid file's content is its text.
- Driver.InitLaysOut: the emptiness of the result directory is proved only when it lies apart from `tmp`.
- Macros.ErrorList.HandleSubErr: the `$to_execute` expression is evaluated and discarded by the caller before the macro decides, so it is not a parameter.

## Observations

These lemmas record behaviour of the code as written:

- `Transliteration.MuellerSpelledOut`: the replacement table applies whatever `keep_non_ascii` is; the flag only decides whether other non-ASCII characters are stripped.
- `Pipeline.ExtractAllErrors` and `Pipeline.ExtractAllKeepsOnlySingleArchives`: students are handled one after another, a failed extraction does not end the loop, and a student directory with exactly one archive stays in place even when extracting it failed.
- `Helper.SanitizeKeepsOthers`: sanitizing removes only `__MACOSX` directory trees and paths ending in `.ds_store`.
- `Driver.InitLosesSourceInResult`: a source archive placed inside the result directory is deleted by the reset before it is read.
- `Driver.CommandLineSplits`: the command logged for manual debugging is a faithful rendering of the child's argument vector only when no argument contains a space.
- `Config.DumpedConfigPinsTmpDir`: the file `--init` writes fixes `tmp/` inside `jplag_args`. With that file in place, `--tmp-dir` moves the extraction but not the directory JPlag reads.
- `LegacyConfig.VersionsDifferOnConfigFile`: the two configuration versions treat a missing `--config config.toml` and an unreadable file differently.
