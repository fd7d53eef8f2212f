/**
 * The HTTP back-end's start-up load: the three league files under `./data` are
 * read in configuration order, each prepared (headers normalised, league tag,
 * seven numeric columns coerced), skipped when missing or failing, and the
 * survivors concatenated into the one table every request is answered from.
 */
module BackendLoader {
  import opened Wrappers
  import opened Frames

  const DataDir: string := "./data"

  /** League name and file name, in the order the configuration lists them. */
  const Files: seq<(string, string)> := [
    ("EPL", "EPL_14_20_players_stat.csv"),
    ("LaLiga", "laliga_14_20_players_stat.csv"),
    ("Bundesliga", "Bundesliga_14_20_players_stat.csv")
  ]

  const NumericColumns: seq<string> := ["goals", "assists", "minutes", "xg", "xa", "shots", "xg_per90"]

  /** The frames that load, in configuration order. */
  function LoadedFrames(fs: FileSystem): seq<Frame> {
    LoadAll(fs, DataDir, Files, NumericColumns, false)
  }

  /** The start-up table: the loaded frames' rows one after another, or an empty frame when nothing loaded. */
  function Loaded(fs: FileSystem): (df: Frame)
    ensures df.rows == AllRows(LoadedFrames(fs))
    ensures LoadedFrames(fs) == [] ==> df == Frame([], [])
  {
    if LoadedFrames(fs) == [] then Frame([], [])
    else
      ConcatRows(LoadedFrames(fs));
      Concat(LoadedFrames(fs))
  }

  /** The rows the `i`-th configured file contributes: none when it is skipped. */
  function RowsFrom(fs: FileSystem, i: nat): seq<Row>
    requires i < |Files|
  {
    SourceRows(fs, DataDir, Files[i], NumericColumns, false)
  }

  /** `load_data`: the loop over the configured files, appending each frame that loads. */
  method LoadData(fs: FileSystem) returns (df: Frame)
    ensures df == Loaded(fs)
  {
    var datasets := LoadFiles(fs, DataDir, Files, NumericColumns, false);
    if |datasets| > 0 {
      df := Concat(datasets);
    } else {
      df := Frame([], []);
    }
  }

  /** The loaded frames hold the files' rows in configuration order. */
  lemma LoadedFramesInOrder(fs: FileSystem)
    ensures AllRows(LoadedFrames(fs)) == RowsFrom(fs, 0) + RowsFrom(fs, 1) + RowsFrom(fs, 2)
  {
    var first, second := [Files[0]], [Files[0], Files[1]];
    assert [] + [Files[0]] == first && first + [Files[1]] == second && second + [Files[2]] == Files;
    LoadAllSnoc(fs, DataDir, [], Files[0], NumericColumns, false);
    LoadAllSnoc(fs, DataDir, first, Files[1], NumericColumns, false);
    LoadAllSnoc(fs, DataDir, second, Files[2], NumericColumns, false);
    assert AllRows(LoadAll(fs, DataDir, first, NumericColumns, false)) == RowsFrom(fs, 0);
    assert AllRows(LoadAll(fs, DataDir, second, NumericColumns, false)) == RowsFrom(fs, 0) + RowsFrom(fs, 1);
  }

  /**
   * The table holds the rows of the EPL, LaLiga and Bundesliga files, in that
   * order, each file's rows in file order; a skipped file contributes none.
   */
  lemma LoadedInOrder(fs: FileSystem)
    ensures Loaded(fs).rows == RowsFrom(fs, 0) + RowsFrom(fs, 1) + RowsFrom(fs, 2)
  {
    LoadedFramesInOrder(fs);
  }

  /** The configured league names are the three leagues. */
  lemma ConfiguredLeagues()
    ensures forall x :: x in Leagues(Files) ==> Str(x) in {Str("EPL"), Str("LaLiga"), Str("Bundesliga")}
  {
    assert Leagues(Files) == ["EPL", "LaLiga", "Bundesliga"];
  }

  /**
   * Every row of the table carries one of the three league names, and each of
   * the seven numeric columns a row has holds a number.
   */
  lemma LoadedRowsTaggedAndNumeric(fs: FileSystem)
    ensures forall r: Row :: r in Loaded(fs).rows ==>
      "league" in r && r["league"] in {Str("EPL"), Str("LaLiga"), Str("Bundesliga")} &&
      forall c :: c in NumericColumns && c in r ==> r[c].Num?
  {
    LoadAllRows(fs, DataDir, Files, NumericColumns, false);
    ConfiguredLeagues();
  }

  /** When no file loads, the table is empty. */
  lemma NothingLoadedIsEmpty(fs: FileSystem)
    requires forall i :: 0 <= i < |Files| ==> LoadOne(fs, DataDir, Files[i], NumericColumns, false).None?
    ensures Loaded(fs) == Frame([], [])
  {
    LoadAllNoneLoaded(fs, DataDir, Files, NumericColumns, false);
  }
}
