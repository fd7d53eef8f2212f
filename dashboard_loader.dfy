/**
 * The dashboard's cached load: probe three candidate data directories and use
 * the first that exists, then read the three league files from it as the
 * back-end does (with ten numeric columns, and the position column turned into
 * text), and report why nothing could be loaded when that happens. The script
 * stops with an error banner when no table, or an empty one, comes back.
 */
module DashboardLoader {
  import opened Wrappers
  import opened Frames

  /** The absolute Windows path the script falls back on. */
  const WindowsDataDir: string := "F:\\graph project\\Football-Dataset-Visualisation\\backend\\data"

  /**
   * Where the script looks for the data, in order: `backend/data` and `data`
   * under its own directory, then the fixed Windows path.
   */
  function CandidateDirs(scriptDir: string): (dirs: seq<string>)
    ensures |dirs| == 3 && dirs[2] == WindowsDataDir
    ensures dirs[0] == JoinPath(JoinPath(scriptDir, "backend"), "data") && dirs[1] == JoinPath(scriptDir, "data")
    ensures |scriptDir| <= |dirs[0]| && dirs[0][..|scriptDir|] == scriptDir
    ensures |scriptDir| <= |dirs[1]| && dirs[1][..|scriptDir|] == scriptDir
    ensures 4 <= |dirs[0]| && dirs[0][|dirs[0]| - 4..] == "data"
    ensures 4 <= |dirs[1]| && dirs[1][|dirs[1]| - 4..] == "data"
  {
    var backend := JoinPath(scriptDir, "backend");
    var nested, direct := JoinPath(backend, "data"), JoinPath(scriptDir, "data");
    PrefixOfPrefix(scriptDir, backend, nested);
    assert 4 <= |nested| && nested[|nested| - 4..] == "data";
    assert 4 <= |direct| && direct[|direct| - 4..] == "data";
    [nested, direct, WindowsDataDir]
  }

  /** A prefix of a prefix of a path is a prefix of that path. */
  lemma PrefixOfPrefix(a: string, b: string, c: string)
    requires |a| <= |b| <= |c| && b[..|a|] == a && c[..|b|] == b
    ensures c[..|a|] == a
  {
    assert c[..|a|] == c[..|b|][..|a|];
  }

  /** League name and file name, in the order the script lists them. */
  const Files: seq<(string, string)> := [
    ("EPL", "EPL_14_20_players_stat.csv"),
    ("LaLiga", "laliga_14_20_players_stat.csv"),
    ("Bundesliga", "Bundesliga_14_20_players_stat.csv")
  ]

  const NumericColumns: seq<string> := [
    "goals", "assists", "minutes", "xg", "xa", "shots",
    "goals_per90", "assists_per90", "xg_per90", "xa_per90"
  ]

  /** The `league` tag is not one of the coerced columns: no numeric label has its length. */
  lemma LeagueNotNumeric()
    ensures "league" !in NumericColumns
  {
    forall i | 0 <= i < |NumericColumns| ensures NumericColumns[i] != "league" {
      assert |NumericColumns[i]| != |"league"|;
    }
  }

  const FolderNotFound: string := "Data folder not found."
  const NoFilesLoaded: string := "No files loaded."

  /** Position of the first path that exists, if any. */
  function FirstExisting(fs: FileSystem, paths: seq<string>): (r: Option<nat>)
    ensures r.None? <==> forall i :: 0 <= i < |paths| ==> !Exists(fs, paths[i])
    ensures r.Some? ==> r.value < |paths| && Exists(fs, paths[r.value])
    ensures r.Some? ==> forall i :: 0 <= i < r.value ==> !Exists(fs, paths[i])
  {
    if paths == [] then None
    else if Exists(fs, paths[0]) then Some(0)
    else match FirstExisting(fs, paths[1..])
      case None => None
      case Some(k) => Some(k + 1)
  }

  /** When path `k` exists and no earlier one does, the probe picks `k`. */
  lemma {:induction false} FirstExistingAt(fs: FileSystem, paths: seq<string>, k: nat)
    requires k < |paths| && Exists(fs, paths[k])
    requires forall j :: 0 <= j < k ==> !Exists(fs, paths[j])
    ensures FirstExisting(fs, paths) == Some(k)
    decreases k
  {
    if k > 0 {
      FirstExistingAt(fs, paths[1..], k - 1);
    }
  }

  /** The directory the script settles on: the first candidate that exists, none when none does. */
  function DataDir(fs: FileSystem, scriptDir: string): (d: Option<string>)
    ensures d.None? <==> forall i :: 0 <= i < 3 ==> !Exists(fs, CandidateDirs(scriptDir)[i])
    ensures d.Some? ==> d.value in CandidateDirs(scriptDir) && Exists(fs, d.value)
  {
    match FirstExisting(fs, CandidateDirs(scriptDir))
    case None => None
    case Some(k) => Some(CandidateDirs(scriptDir)[k])
  }

  /** The probing loop: take the first candidate that exists and stop looking. */
  method FindDataDir(fs: FileSystem, scriptDir: string) returns (dataDir: Option<string>)
    ensures dataDir == DataDir(fs, scriptDir)
  {
    var paths := CandidateDirs(scriptDir);
    dataDir := None;
    for i := 0 to |paths|
      invariant dataDir.None?
      invariant forall j :: 0 <= j < i ==> !Exists(fs, paths[j])
    {
      if Exists(fs, paths[i]) {
        dataDir := Some(paths[i]);
        FirstExistingAt(fs, paths, i);
        return;
      }
    }
  }

  /**
   * What `load_data` returns: a table and no message, or no table and the
   * reason, "Data folder not found." exactly when no candidate directory exists.
   */
  function Loaded(fs: FileSystem, scriptDir: string): (r: (Option<Frame>, Option<string>))
    ensures r.0.Some? <==> r.1.None?
    ensures r.1.Some? ==> r.1.value == FolderNotFound || r.1.value == NoFilesLoaded
    ensures r.1 == Some(FolderNotFound) <==> DataDir(fs, scriptDir).None?
    ensures r.0.Some? ==> r.0.value == Concat(LoadAll(fs, DataDir(fs, scriptDir).value, Files, NumericColumns, true))
  {
    match DataDir(fs, scriptDir)
    case None => (None, Some(FolderNotFound))
    case Some(dir) =>
      var frames := LoadAll(fs, dir, Files, NumericColumns, true);
      if frames == [] then (None, Some(NoFilesLoaded)) else (Some(Concat(frames)), None)
  }

  /** `load_data`: probe the directories, then read, prepare and collect each league file. */
  method LoadData(fs: FileSystem, scriptDir: string) returns (df: Option<Frame>, errorMsg: Option<string>)
    ensures (df, errorMsg) == Loaded(fs, scriptDir)
  {
    var dataDir := FindDataDir(fs, scriptDir);
    if dataDir.None? {
      return None, Some(FolderNotFound);
    }
    var dir := dataDir.value;
    var datasets := LoadFiles(fs, dir, Files, NumericColumns, true);
    if datasets == [] {
      return None, Some(NoFilesLoaded);
    }
    df, errorMsg := Some(Concat(datasets)), None;
  }

  /**
   * A table comes back exactly when no message does; the message is "Data folder
   * not found." when no candidate directory exists and "No files loaded." when
   * none of the three files loads from the directory found.
   */
  lemma LoadedOutcomes(fs: FileSystem, scriptDir: string)
    ensures var (df, msg) := Loaded(fs, scriptDir);
      && (df.Some? <==> msg.None?)
      && (msg == Some(FolderNotFound) <==> forall i :: 0 <= i < 3 ==> !Exists(fs, CandidateDirs(scriptDir)[i]))
      && (msg == Some(NoFilesLoaded) <==>
            DataDir(fs, scriptDir).Some? && LoadAll(fs, DataDir(fs, scriptDir).value, Files, NumericColumns, true) == [])
  {
  }

  /** The data comes from the first existing candidate, even when a later one holds the files. */
  lemma UsesFirstExisting(fs: FileSystem, scriptDir: string, k: nat)
    requires k < 3 && Exists(fs, CandidateDirs(scriptDir)[k])
    requires forall i :: 0 <= i < k ==> !Exists(fs, CandidateDirs(scriptDir)[i])
    ensures DataDir(fs, scriptDir) == Some(CandidateDirs(scriptDir)[k])
  {
    FirstExistingAt(fs, CandidateDirs(scriptDir), k);
  }

  /** The configured league names are the three leagues. */
  lemma ConfiguredLeagues()
    ensures forall x :: x in Leagues(Files) ==> Str(x) in {Str("EPL"), Str("LaLiga"), Str("Bundesliga")}
  {
    assert Leagues(Files) == ["EPL", "LaLiga", "Bundesliga"];
  }

  /**
   * Every row of the table read from a directory carries one of the three
   * league names, each of the ten numeric columns a row has holds a number, and
   * every row has a position.
   */
  lemma DirRowsTaggedAndNumeric(fs: FileSystem, dir: string)
    ensures forall r: Row :: r in Concat(LoadAll(fs, dir, Files, NumericColumns, true)).rows ==>
      && "league" in r && r["league"] in {Str("EPL"), Str("LaLiga"), Str("Bundesliga")}
      && (forall c :: c in NumericColumns && c in r ==> r[c].Num?)
      && "position" in r && !r["position"].Missing?
  {
    var frames := LoadAll(fs, dir, Files, NumericColumns, true);
    LeagueNotNumeric();
    LoadAllRows(fs, dir, Files, NumericColumns, true);
    ConcatRows(frames);
    ConfiguredLeagues();
    forall r: Row | r in Concat(frames).rows
      ensures "league" in r && r["league"] in {Str("EPL"), Str("LaLiga"), Str("Bundesliga")}
      ensures forall c :: c in NumericColumns && c in r ==> r[c].Num?
      ensures "position" in r && !r["position"].Missing?
    {
      assert r in AllRows(frames);
      assert r["league"] == Str(r["league"].text);
    }
  }

  /** The same holds for the table `load_data` returns. */
  lemma LoadedRowsTaggedAndNumeric(fs: FileSystem, scriptDir: string)
    requires Loaded(fs, scriptDir).0.Some?
    ensures forall r: Row :: r in Loaded(fs, scriptDir).0.value.rows ==>
      && "league" in r && r["league"] in {Str("EPL"), Str("LaLiga"), Str("Bundesliga")}
      && (forall c :: c in NumericColumns && c in r ==> r[c].Num?)
      && "position" in r && !r["position"].Missing?
  {
    DirRowsTaggedAndNumeric(fs, DataDir(fs, scriptDir).value);
  }

  /** What the script does with the load: stop with an error banner, or go on with the table. */
  datatype Startup = Halt(message: string) | Run(df: Frame)

  const BannerPrefix: string := "\U{1F6A8} Error: "

  /** The banner prints the loader's message after its prefix, or "None" when there is none. */
  function Banner(msg: Option<string>): (text: string)
    ensures |BannerPrefix| <= |text| && text[..|BannerPrefix|] == BannerPrefix
    ensures msg.Some? ==> text[|BannerPrefix|..] == msg.value
    ensures msg.None? ==> text[|BannerPrefix|..] == "None"
  {
    BannerPrefix + msg.GetOr("None")
  }

  /** `if df is None or df.empty: st.error(...); st.stop()`. */
  function Start(fs: FileSystem, scriptDir: string): (s: Startup)
    ensures s.Run? ==> s.df.rows != [] && Loaded(fs, scriptDir).0 == Some(s.df)
    ensures s.Halt? <==> Loaded(fs, scriptDir).0.None? || Loaded(fs, scriptDir).0.value.rows == []
    ensures s.Halt? ==> s.message == Banner(Loaded(fs, scriptDir).1)
  {
    var (df, msg) := Loaded(fs, scriptDir);
    if df.None? || df.value.rows == [] then Halt(Banner(msg)) else Run(df.value)
  }

  /**
   * Files that all load but hold no rows give an empty table with no message,
   * so the script stops with the banner "Error: None".
   */
  lemma EmptyFilesHaltWithoutReason(fs: FileSystem, scriptDir: string)
    requires Loaded(fs, scriptDir).0.Some? && Loaded(fs, scriptDir).0.value.rows == []
    ensures Start(fs, scriptDir) == Halt(Banner(None))
  {
    LoadedOutcomes(fs, scriptDir);
  }
}
