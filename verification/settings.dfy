/** Where the monitor keeps its files, its default configuration, and the
    defaults `watch` applies to omitted arguments. Python truthiness applies
    throughout: an empty string counts as absent. */
module Settings {
  import opened Wrappers

  /** An optional argument is used only when present and non-empty. */
  predicate Given(arg: Option<string>)
  {
    arg.Some? && arg.value != ""
  }

  /** `a / b` on paths, without Python's normalisation of separators. */
  function Join(dir: string, name: string): string
  {
    dir + "/" + name
  }

  const DataDirName: string := ".libby-book-monitor"

  /** The data directory used when neither the flag nor the environment names one. */
  function DefaultDataDir(home: string): string
  {
    Join(home, DataDirName)
  }

  /** `get_data_dir`: the `--data-dir` flag, else `LIBBY_BOOK_MONITOR_DATA`, else
      the default under the home directory. The result is never empty, and a
      later source is consulted only when every earlier one is absent. */
  function DataDir(flag: Option<string>, env: Option<string>, home: string): (r: string)
    ensures r != ""
    ensures Given(flag) ==> r == flag.value
    ensures !Given(flag) && Given(env) ==> r == env.value
    ensures !Given(flag) && !Given(env) ==> r == DefaultDataDir(home)
  {
    if Given(flag) then flag.value
    else if Given(env) then env.value
    else DefaultDataDir(home)
  }

  const WatchlistStem: string := "watchlist"
  const JsonSuffix: string := ".json"

  /** The watchlist file name for a profile: `watchlist-<profile>.json`, or
      `watchlist.json` when no profile is given. */
  function WatchlistFileName(profile: Option<string>): (r: string)
    ensures |r| >= |WatchlistStem| + |JsonSuffix|
    ensures r[..|WatchlistStem|] == WatchlistStem && r[|r| - |JsonSuffix|..] == JsonSuffix
  {
    if Given(profile) then WatchlistStem + "-" + profile.value + JsonSuffix
    else WatchlistStem + JsonSuffix
  }

  /** `get_watchlist_path`. */
  function WatchlistPath(dataDir: string, profile: Option<string>): string
  {
    Join(dataDir, WatchlistFileName(profile))
  }

  /** Profiles are kept apart: two profile arguments give the same watchlist file
      name exactly when both are absent (an empty profile counting as absent) or
      both name the same profile. */
  lemma ProfilesAreDisjoint(p: Option<string>, q: Option<string>)
    ensures WatchlistFileName(p) == WatchlistFileName(q) <==>
              (Given(p) <==> Given(q)) && (Given(p) ==> p.value == q.value)
  {
    var a, b := WatchlistFileName(p), WatchlistFileName(q);
    if Given(p) && Given(q) && a == b {
      var n := |WatchlistStem| + 1;
      assert p.value == a[n..|a| - |JsonSuffix|];
      assert q.value == b[n..|b| - |JsonSuffix|];
    } else if Given(p) && !Given(q) {
      assert a[|WatchlistStem|] != b[|WatchlistStem|];
    } else if !Given(p) && Given(q) {
      assert a[|WatchlistStem|] != b[|WatchlistStem|];
    }
  }

  /** The configuration document. `defaultLibrary` is `None` when the key is missing. */
  datatype Config = Config(defaultLibrary: Option<string>, libraries: map<string, string>)

  const FallbackLibrary: string := "telaviv"

  /** The configuration written on first use. */
  const DefaultConfig: Config := Config(Some(FallbackLibrary), map[FallbackLibrary := "Israel Digital"])

  /** The library a new entry is watched in: the `--library` flag, else the
      configured default library (even an empty one), else `telaviv` when the
      configuration has no such key. A non-empty flag always wins; any other
      library comes from the configuration unless it is the fallback; and the
      entry gets an empty library code, which is later sent to the search as
      is, exactly when the flag is absent and the configuration names "" as
      its default. */
  function WatchLibrary(flag: Option<string>, config: Config): (r: string)
    ensures Given(flag) ==> r == flag.value
    ensures !Given(flag) && config.defaultLibrary.Some? ==> r == config.defaultLibrary.value
    ensures !Given(flag) && r != FallbackLibrary ==> config.defaultLibrary == Some(r)
    ensures !Given(flag) && config.defaultLibrary.None? ==> r == FallbackLibrary
    ensures r == "" <==> !Given(flag) && config.defaultLibrary == Some("")
  {
    if Given(flag) then flag.value
    else match config.defaultLibrary
      case Some(lib) => lib
      case None => FallbackLibrary
  }

  /** A non-empty `--library` flag makes the configuration irrelevant. */
  lemma LibraryFlagOverridesConfig(flag: Option<string>, config: Config, other: Config)
    requires Given(flag)
    ensures WatchLibrary(flag, config) == WatchLibrary(flag, other) == flag.value
  {
  }

  /** The author recorded for a new entry: the `--author` flag, else empty. */
  function WatchAuthor(flag: Option<string>): (r: string)
    ensures Given(flag) ==> r == flag.value
    ensures r == "" <==> !Given(flag)
  {
    if Given(flag) then flag.value else ""
  }

  /** Under the default configuration a watch without `--library` uses a library
      that the configuration names. */
  lemma DefaultLibraryIsConfigured(flag: Option<string>)
    requires !Given(flag)
    ensures WatchLibrary(flag, DefaultConfig) in DefaultConfig.libraries
  {
  }
}
