/**
 * The table loading both front-ends share: a CSV source is read into a frame,
 * its header labels are normalised, every row is tagged with the league, the
 * listed numeric columns are coerced to numbers (0 for anything unreadable), and
 * the frames that loaded are concatenated. Reading files is abstract: the file
 * system is a value handed in.
 */
module Frames {
  import opened Wrappers
  import opened Text
  import Numbers

  /** One cell as pandas holds it: a number, a text, or NaN. */
  datatype Cell = Num(value: real) | Str(text: string) | Missing

  /** A frame row, keyed by column label. A label the row lacks reads as NaN. */
  type Row = map<string, Cell>

  /** What `pd.read_csv` returns: the header labels and the cell rows beneath them. */
  datatype RawTable = RawTable(header: seq<string>, cells: seq<seq<Cell>>)

  /** A DataFrame: its column labels, in order, and its rows. */
  datatype Frame = Frame(columns: seq<string>, rows: seq<Row>)

  /** The content behind a file path: a table `read_csv` can read, or one it raises on. */
  datatype Source = Unreadable | Read(table: RawTable)

  datatype FileSystem = FileSystem(dirs: set<string>, files: map<string, Source>)

  /** `os.path.exists`: true for directories and files alike. */
  predicate Exists(fs: FileSystem, path: string) {
    path in fs.dirs || path in fs.files
  }

  /** `pd.read_csv(path)`, or None when it raises (an unreadable file, or a directory). */
  function ReadCsv(fs: FileSystem, path: string): Option<RawTable> {
    if path in fs.files && fs.files[path].Read? then Some(fs.files[path].table) else None
  }

  /**
   * `os.path.join(a, b)` for a relative `b`, with the POSIX separator: the
   * directory, then one '/' unless it already ends in one, then the name.
   */
  function JoinPath(a: string, b: string): (p: string)
    ensures |p| == |a| + |b| || (|p| == |a| + |b| + 1 && p[|a|] == '/')
    ensures p[..|a|] == a && p[|p| - |b|..] == b
  {
    if a == [] || a[|a| - 1] == '/' then a + b else a + "/" + b
  }

  /** Every row is keyed by exactly the frame's column labels. */
  predicate WellFormed(f: Frame) {
    forall k :: 0 <= k < |f.rows| ==> f.rows[k].Keys == set c | c in f.columns
  }

  function CellAt(cells: seq<Cell>, i: nat): Cell {
    if i < |cells| then cells[i] else Missing
  }

  /** A cell row keyed by its labels; a short row reads NaN, and of two equal labels the later wins. */
  function RowOf(columns: seq<string>, cells: seq<Cell>): (r: Row)
    ensures r.Keys == set c | c in columns
  {
    if columns == [] then map[]
    else
      var n := |columns| - 1;
      RowOf(columns[..n], cells)[columns[n] := CellAt(cells, n)]
  }

  /** Under a label that no later column repeats, the row holds that column's cell. */
  lemma {:induction false} RowOfAt(columns: seq<string>, cells: seq<Cell>, i: nat)
    requires i < |columns|
    requires forall j :: i < j < |columns| ==> columns[j] != columns[i]
    ensures RowOf(columns, cells)[columns[i]] == CellAt(cells, i)
  {
    var n := |columns| - 1;
    if i < n {
      RowOfAt(columns[..n], cells, i);
    }
  }

  /** `df.columns = [c.strip().lower().replace(' ', '_') for c in df.columns]`. */
  function Normalised(raw: RawTable): (f: Frame)
    ensures |f.columns| == |raw.header|
    ensures forall i :: 0 <= i < |raw.header| ==> f.columns[i] == NormaliseHeader(raw.header[i])
    ensures |f.rows| == |raw.cells| && WellFormed(f)
  {
    var columns := seq(|raw.header|, i requires 0 <= i < |raw.header| => NormaliseHeader(raw.header[i]));
    Frame(columns, seq(|raw.cells|, k requires 0 <= k < |raw.cells| => RowOf(columns, raw.cells[k])))
  }

  /** `df['league'] = league`: a new column at the end, or the existing one overwritten. */
  function Tag(f: Frame, league: string): (g: Frame)
    ensures |g.rows| == |f.rows|
    ensures forall k :: 0 <= k < |f.rows| ==> g.rows[k] == f.rows[k]["league" := Str(league)]
    ensures forall c :: c in g.columns <==> c in f.columns || c == "league"
    ensures forall c :: c != "league" ==> Occurrences(g.columns, c) == Occurrences(f.columns, c)
    ensures WellFormed(f) ==> WellFormed(g)
  {
    var columns := if "league" in f.columns then f.columns else f.columns + ["league"];
    assert forall c :: c != "league" ==> Occurrences(columns, c) == Occurrences(f.columns, c) by {
      if "league" !in f.columns {
        forall c | c != "league" ensures Occurrences(columns, c) == Occurrences(f.columns, c) {
          OccurrencesAppend(f.columns, ["league"], c);
        }
      }
    }
    Frame(columns, seq(|f.rows|, k requires 0 <= k < |f.rows| => f.rows[k]["league" := Str(league)]))
  }

  /** How many columns carry the label `c`. */
  function Occurrences(columns: seq<string>, c: string): (n: nat)
    ensures n > 0 <==> c in columns
  {
    if columns == [] then 0
    else Occurrences(columns[..|columns| - 1], c) + (if columns[|columns| - 1] == c then 1 else 0)
  }

  lemma {:induction false} OccurrencesAppend(a: seq<string>, b: seq<string>, c: string)
    ensures Occurrences(a + b, c) == Occurrences(a, c) + Occurrences(b, c)
    decreases |b|
  {
    if b != [] {
      assert (a + b)[..|a + b| - 1] == a + b[..|b| - 1];
      OccurrencesAppend(a, b[..|b| - 1], c);
    } else {
      assert a + b == a;
    }
  }

  /** `pd.to_numeric(x, errors='coerce')` followed by `fillna(0)`, on one cell. */
  function Coerce(c: Cell): (d: Cell)
    ensures d.Num?
    ensures c.Num? ==> d == c
    ensures c.Missing? ==> d == Num(0.0)
    ensures c.Str? && Numbers.ParseNumber(c.text).Some? ==> d == Num(Numbers.ParseNumber(c.text).value)
    ensures c.Str? && Numbers.ParseNumber(c.text).None? ==> d == Num(0.0)
  {
    match c
    case Num(_) => c
    case Missing => Num(0.0)
    case Str(s) => Num(Numbers.ParseNumber(s).GetOr(0.0))
  }

  /** `df[c] = pd.to_numeric(df[c], errors='coerce').fillna(0)` for a column that occurs once. */
  function CoerceColumn(f: Frame, c: string): (g: Frame)
    ensures g.columns == f.columns && |g.rows| == |f.rows|
    ensures forall k :: 0 <= k < |f.rows| ==> g.rows[k].Keys == f.rows[k].Keys
  {
    Frame(f.columns, seq(|f.rows|, k requires 0 <= k < |f.rows| =>
      if c in f.rows[k] then f.rows[k][c := Coerce(f.rows[k][c])] else f.rows[k]))
  }

  /**
   * The coercion loop over the listed columns: a listed column that is present is
   * coerced; one whose label occurs twice makes `df[c]` a frame, on which
   * `to_numeric` raises, so the whole source fails (None).
   */
  function CoerceAll(f: Frame, cols: seq<string>): (r: Option<Frame>)
    ensures r.Some? ==> r.value.columns == f.columns && |r.value.rows| == |f.rows|
    decreases |cols|
  {
    if cols == [] then Some(f)
    else if cols[0] !in f.columns then CoerceAll(f, cols[1..])
    else if Occurrences(f.columns, cols[0]) > 1 then None
    else CoerceAll(CoerceColumn(f, cols[0]), cols[1..])
  }

  /** The coercion loop, column by column, as the loaders run it. */
  method CoerceNumeric(f: Frame, cols: seq<string>) returns (g: Frame, ok: bool)
    ensures ok <==> CoerceAll(f, cols).Some?
    ensures ok ==> CoerceAll(f, cols) == Some(g)
  {
    g, ok := f, true;
    for j := 0 to |cols|
      invariant CoerceAll(f, cols) == CoerceAll(g, cols[j..])
    {
      var c := cols[j];
      assert cols[j..][1..] == cols[j + 1..];
      if c in g.columns {
        if Occurrences(g.columns, c) > 1 {
          ok := false;
          break;
        }
        g := CoerceColumn(g, c);
      }
    }
  }

  /** What the coercion loop leaves in every cell: listed, present columns coerced, the rest untouched. */
  lemma {:induction false} CoerceAllCells(f: Frame, cols: seq<string>, g: Frame)
    requires CoerceAll(f, cols) == Some(g)
    ensures g.columns == f.columns && |g.rows| == |f.rows|
    ensures forall k :: 0 <= k < |f.rows| ==> g.rows[k].Keys == f.rows[k].Keys
    ensures forall k, key :: 0 <= k < |f.rows| && key in f.rows[k] ==>
      g.rows[k][key] == if key in cols && key in f.columns then Coerce(f.rows[k][key]) else f.rows[k][key]
    decreases |cols|
  {
    if cols != [] {
      var c := cols[0];
      assert forall x :: x in cols <==> x == c || x in cols[1..];
      if c !in f.columns {
        CoerceAllCells(f, cols[1..], g);
      } else {
        var h := CoerceColumn(f, c);
        CoerceAllCells(h, cols[1..], g);
      }
    }
  }

  /** The coercion fails exactly when a listed label that is present occurs more than once. */
  lemma {:induction false} CoerceAllFails(f: Frame, cols: seq<string>)
    ensures CoerceAll(f, cols).None? <==> exists c :: c in cols && Occurrences(f.columns, c) > 1
    decreases |cols|
  {
    if cols != [] {
      var c := cols[0];
      if c !in f.columns {
        CoerceAllFails(f, cols[1..]);
        assert Occurrences(f.columns, c) == 0;
      } else if Occurrences(f.columns, c) > 1 {
      } else {
        CoerceAllFails(CoerceColumn(f, c), cols[1..]);
      }
      assert forall x :: x in cols <==> x == c || x in cols[1..];
    }
  }

  /** `df['position'] = df['position'].astype(str)`: NaN becomes the text "nan". */
  function PositionAsText(f: Frame): (g: Frame)
    ensures g.columns == f.columns && |g.rows| == |f.rows|
    ensures forall k :: 0 <= k < |f.rows| ==> g.rows[k].Keys == f.rows[k].Keys
    ensures forall k :: 0 <= k < |f.rows| && "position" in f.rows[k] ==> !g.rows[k]["position"].Missing?
  {
    Frame(f.columns, seq(|f.rows|, k requires 0 <= k < |f.rows| =>
      if "position" in f.rows[k] && f.rows[k]["position"].Missing?
      then f.rows[k]["position" := Str("nan")] else f.rows[k]))
  }

  /**
   * One source, from the table `read_csv` returned to the frame appended to the
   * list: normalise, tag, coerce, and (for the dashboard) turn the position column
   * into text, which raises a KeyError when there is none.
   */
  function Prepare(raw: RawTable, league: string, cols: seq<string>, positionAsText: bool): (r: Option<Frame>)
    ensures r.Some? ==> |r.value.rows| == |raw.cells|
    ensures r.Some? ==> forall c :: c in r.value.columns <==> c in Normalised(raw).columns || c == "league"
    ensures r.Some? && positionAsText ==> "position" in r.value.columns
  {
    match CoerceAll(Tag(Normalised(raw), league), cols)
    case None => None
    case Some(f) =>
      if !positionAsText then Some(f)
      else if "position" in f.columns then Some(PositionAsText(f))
      else None
  }

  /**
   * One configured file: skipped (None) when it does not exist or any step
   * raises; an existing, readable file is loaded exactly as it prepares.
   */
  function LoadOne(fs: FileSystem, dir: string, file: (string, string), cols: seq<string>, positionAsText: bool): (r: Option<Frame>)
    ensures !Exists(fs, JoinPath(dir, file.1)) || ReadCsv(fs, JoinPath(dir, file.1)).None? ==> r.None?
    ensures r.Some? ==> Prepare(ReadCsv(fs, JoinPath(dir, file.1)).value, file.0, cols, positionAsText) == r
    ensures Exists(fs, JoinPath(dir, file.1)) && ReadCsv(fs, JoinPath(dir, file.1)).Some? ==>
      r == Prepare(ReadCsv(fs, JoinPath(dir, file.1)).value, file.0, cols, positionAsText)
  {
    var path := JoinPath(dir, file.1);
    if !Exists(fs, path) then None
    else match ReadCsv(fs, path)
      case None => None
      case Some(raw) => Prepare(raw, file.0, cols, positionAsText)
  }

  /**
   * One pass of a loading loop: join the path, skip a missing file, read it and
   * prepare it, skipping it when any step raises.
   */
  method LoadFile(fs: FileSystem, dir: string, file: (string, string), cols: seq<string>, positionAsText: bool)
    returns (loaded: Option<Frame>)
    ensures loaded == LoadOne(fs, dir, file, cols, positionAsText)
  {
    loaded := None;
    var (league, filename) := file;
    var path := JoinPath(dir, filename);
    if Exists(fs, path) {
      var raw := ReadCsv(fs, path);
      if raw.Some? {
        var frame := Tag(Normalised(raw.value), league);
        var coerced, ok := CoerceNumeric(frame, cols);
        if ok {
          if !positionAsText {
            loaded := Some(coerced);
          } else if "position" in coerced.columns {
            loaded := Some(PositionAsText(coerced));
          }
        }
      }
    }
  }

  /** The frames of the configured files that load, in configuration order. */
  function LoadAll(fs: FileSystem, dir: string, files: seq<(string, string)>, cols: seq<string>, positionAsText: bool): seq<Frame>
  {
    if files == [] then []
    else
      var init := LoadAll(fs, dir, files[..|files| - 1], cols, positionAsText);
      match LoadOne(fs, dir, files[|files| - 1], cols, positionAsText)
      case None => init
      case Some(f) => init + [f]
  }

  /** At most one frame per configured file. */
  lemma {:induction false} LoadAllCount(fs: FileSystem, dir: string, files: seq<(string, string)>, cols: seq<string>, positionAsText: bool)
    ensures |LoadAll(fs, dir, files, cols, positionAsText)| <= |files|
  {
    if files != [] {
      LoadAllCount(fs, dir, files[..|files| - 1], cols, positionAsText);
    }
  }

  /** When every configured file is skipped, nothing is loaded. */
  lemma {:induction false} LoadAllNoneLoaded(fs: FileSystem, dir: string, files: seq<(string, string)>, cols: seq<string>, positionAsText: bool)
    requires forall i :: 0 <= i < |files| ==> LoadOne(fs, dir, files[i], cols, positionAsText).None?
    ensures LoadAll(fs, dir, files, cols, positionAsText) == []
  {
    if files != [] {
      var init := files[..|files| - 1];
      forall i | 0 <= i < |init| ensures LoadOne(fs, dir, init[i], cols, positionAsText).None? {
        assert init[i] == files[i];
      }
      LoadAllNoneLoaded(fs, dir, init, cols, positionAsText);
    }
  }

  /** When every configured file loads, there is one frame per file. */
  lemma {:induction false} LoadAllEveryLoaded(fs: FileSystem, dir: string, files: seq<(string, string)>, cols: seq<string>, positionAsText: bool)
    requires forall i :: 0 <= i < |files| ==> LoadOne(fs, dir, files[i], cols, positionAsText).Some?
    ensures |LoadAll(fs, dir, files, cols, positionAsText)| == |files|
  {
    if files != [] {
      var init := files[..|files| - 1];
      forall i | 0 <= i < |init| ensures LoadOne(fs, dir, init[i], cols, positionAsText).Some? {
        assert init[i] == files[i];
      }
      LoadAllEveryLoaded(fs, dir, init, cols, positionAsText);
    }
  }

  /** Loading the first `i + 1` files is loading the first `i`, then file `i`. */
  lemma LoadAllPrefix(fs: FileSystem, dir: string, files: seq<(string, string)>, i: nat, cols: seq<string>, positionAsText: bool)
    requires i < |files|
    ensures LoadAll(fs, dir, files[..i + 1], cols, positionAsText) ==
      match LoadOne(fs, dir, files[i], cols, positionAsText)
      case None => LoadAll(fs, dir, files[..i], cols, positionAsText)
      case Some(f) => LoadAll(fs, dir, files[..i], cols, positionAsText) + [f]
  {
    assert files[..i + 1][..i] == files[..i] && files[..i + 1][i] == files[i];
  }

  /**
   * The loading loop both front-ends run: each configured file in turn, the
   * frames that load appended to `datasets`.
   */
  method LoadFiles(fs: FileSystem, dir: string, files: seq<(string, string)>, cols: seq<string>, positionAsText: bool)
    returns (datasets: seq<Frame>)
    ensures datasets == LoadAll(fs, dir, files, cols, positionAsText)
  {
    datasets := [];
    var i := 0;
    while i < |files|
      invariant i <= |files|
      invariant datasets == LoadAll(fs, dir, files[..i], cols, positionAsText)
    {
      var loaded := LoadFile(fs, dir, files[i], cols, positionAsText);
      LoadAllPrefix(fs, dir, files, i, cols, positionAsText);
      if loaded.Some? {
        datasets := datasets + [loaded.value];
      }
      i := i + 1;
    }
    assert files[..|files|] == files;
  }

  /** Column labels of `more` not yet in `columns`, appended after them. */
  function AppendNew(columns: seq<string>, more: seq<string>): (r: seq<string>)
    ensures |columns| <= |r| && r[..|columns|] == columns
    ensures forall i :: |columns| <= i < |r| ==> r[i] in more && r[i] !in columns
    ensures forall c :: c in r <==> c in columns || c in more
    decreases |more|
  {
    if more == [] then columns
    else if more[0] in columns then AppendNew(columns, more[1..])
    else AppendNew(columns + [more[0]], more[1..])
  }

  /** `pd.concat(frames, ignore_index=True)`: the rows one after another, under the union of the labels. */
  function Concat(frames: seq<Frame>): (f: Frame)
    ensures forall c :: c in f.columns <==> exists i :: 0 <= i < |frames| && c in frames[i].columns
  {
    if frames == [] then Frame([], [])
    else
      var init := Concat(frames[..|frames| - 1]);
      var last := frames[|frames| - 1];
      assert forall i :: 0 <= i < |frames| - 1 ==> frames[..|frames| - 1][i] == frames[i];
      Frame(AppendNew(init.columns, last.columns), init.rows + last.rows)
  }

  /** The rows of a concatenation are the frames' rows, one frame after another. */
  function AllRows(frames: seq<Frame>): seq<Row> {
    if frames == [] then [] else AllRows(frames[..|frames| - 1]) + frames[|frames| - 1].rows
  }

  lemma {:induction false} ConcatRows(frames: seq<Frame>)
    ensures Concat(frames).rows == AllRows(frames)
  {
    if frames != [] {
      ConcatRows(frames[..|frames| - 1]);
    }
  }

  /** The tagged frame a source is coerced from: well formed, every row tagged with the league. */
  lemma TaggedRows(raw: RawTable, league: string)
    ensures var t := Tag(Normalised(raw), league);
      WellFormed(t) && |t.rows| == |raw.cells| &&
      forall k :: 0 <= k < |t.rows| ==> "league" in t.rows[k] && t.rows[k]["league"] == Str(league)
  {
  }

  /** What the position step leaves: every row has a position, and no other cell changes. */
  lemma PositionCells(g: Frame)
    requires WellFormed(g) && "position" in g.columns
    ensures var f := PositionAsText(g);
      WellFormed(f) &&
      forall k :: 0 <= k < |f.rows| ==> (
        f.rows[k].Keys == g.rows[k].Keys &&
        !f.rows[k]["position"].Missing? &&
        forall c :: c in g.rows[k] && (c != "position" || !g.rows[k][c].Missing?) ==> f.rows[k][c] == g.rows[k][c])
  {
  }

  /**
   * A prepared source keeps one row per CSV row, every row carries the league,
   * every listed column a row has holds a number, and (on the dashboard) every
   * position is set.
   */
  lemma PreparedRows(raw: RawTable, league: string, cols: seq<string>, positionAsText: bool, f: Frame)
    requires "league" !in cols
    requires Prepare(raw, league, cols, positionAsText) == Some(f)
    ensures |f.rows| == |raw.cells|
    ensures forall k :: 0 <= k < |f.rows| ==> "league" in f.rows[k] && f.rows[k]["league"] == Str(league)
    ensures forall k, c :: 0 <= k < |f.rows| && c in cols && c in f.rows[k] ==> f.rows[k][c].Num?
    ensures positionAsText ==> forall k :: 0 <= k < |f.rows| ==>
      "position" in f.rows[k] && !f.rows[k]["position"].Missing?
  {
    var t := Tag(Normalised(raw), league);
    TaggedRows(raw, league);
    var g := CoerceAll(t, cols).value;
    CoerceAllCells(t, cols, g);
    assert WellFormed(g);
    if positionAsText {
      assert f == PositionAsText(g);
      PositionCells(g);
    } else {
      assert f == g;
    }
  }

  /**
   * Under a header label that normalises to a label no later column shares (and
   * that the loader does not itself rewrite), the prepared row holds the CSV cell,
   * coerced when the label is a listed numeric column.
   */
  lemma PreparedCell(raw: RawTable, league: string, cols: seq<string>, positionAsText: bool, f: Frame, k: nat, i: nat)
    requires Prepare(raw, league, cols, positionAsText) == Some(f)
    requires k < |raw.cells| && i < |raw.header|
    requires forall j :: i < j < |raw.header| ==> NormaliseHeader(raw.header[j]) != NormaliseHeader(raw.header[i])
    requires NormaliseHeader(raw.header[i]) !in {"league", "position"}
    ensures var name := NormaliseHeader(raw.header[i]); var cell := CellAt(raw.cells[k], i);
      k < |f.rows| && name in f.rows[k] && f.rows[k][name] == if name in cols then Coerce(cell) else cell
  {
    var name := NormaliseHeader(raw.header[i]);
    var t := Tag(Normalised(raw), league);
    TaggedCell(raw, league, k, i);
    var g := CoerceAll(t, cols).value;
    CoerceAllCells(t, cols, g);
    if positionAsText {
      PositionKeepsCell(g, k, name);
    }
  }

  /** The position step leaves every other cell as it was. */
  lemma PositionKeepsCell(g: Frame, k: nat, name: string)
    requires k < |g.rows| && name in g.rows[k] && name != "position"
    ensures var f := PositionAsText(g);
      k < |f.rows| && name in f.rows[k] && f.rows[k][name] == g.rows[k][name]
  {
  }

  lemma TaggedCell(raw: RawTable, league: string, k: nat, i: nat)
    requires k < |raw.cells| && i < |raw.header|
    requires forall j :: i < j < |raw.header| ==> NormaliseHeader(raw.header[j]) != NormaliseHeader(raw.header[i])
    requires NormaliseHeader(raw.header[i]) != "league"
    ensures var t := Tag(Normalised(raw), league); var name := NormaliseHeader(raw.header[i]);
      k < |t.rows| && name in t.columns && name in t.rows[k] && t.rows[k][name] == CellAt(raw.cells[k], i)
  {
    var n := Normalised(raw);
    RowOfAt(n.columns, raw.cells[k], i);
    assert n.columns[i] == NormaliseHeader(raw.header[i]);
  }

  /**
   * A source fails to load exactly when a listed numeric label occurs twice
   * after normalisation, or (on the dashboard) when there is no position column.
   */
  lemma PrepareFails(raw: RawTable, league: string, cols: seq<string>, positionAsText: bool)
    requires "league" !in cols
    ensures var columns := Normalised(raw).columns;
      Prepare(raw, league, cols, positionAsText).None? <==>
        (exists c :: c in cols && Occurrences(columns, c) > 1) || (positionAsText && "position" !in columns)
  {
    var n := Normalised(raw);
    var t := Tag(n, league);
    CoerceAllFails(t, cols);
    assert forall c :: c in cols ==> Occurrences(t.columns, c) == Occurrences(n.columns, c);
    match CoerceAll(t, cols)
    case None =>
    case Some(g) =>
      CoerceAllCells(t, cols, g);
      assert "position" in g.columns <==> "position" in n.columns;
  }

  /**
   * An existing file that reads, has each listed numeric label at most once and
   * (on the dashboard) a position column is loaded: a frame with one row per
   * data line.
   */
  lemma ReadableFileLoads(fs: FileSystem, dir: string, file: (string, string), cols: seq<string>, positionAsText: bool)
    requires "league" !in cols
    requires Exists(fs, JoinPath(dir, file.1)) && ReadCsv(fs, JoinPath(dir, file.1)).Some?
    requires var columns := Normalised(ReadCsv(fs, JoinPath(dir, file.1)).value).columns;
      (forall c :: c in cols ==> Occurrences(columns, c) <= 1) && (positionAsText ==> "position" in columns)
    ensures var r := LoadOne(fs, dir, file, cols, positionAsText);
      r.Some? && |r.value.rows| == |ReadCsv(fs, JoinPath(dir, file.1)).value.cells|
  {
    PrepareFails(ReadCsv(fs, JoinPath(dir, file.1)).value, file.0, cols, positionAsText);
  }

  /** The league names of the configured files, in configuration order. */
  function Leagues(files: seq<(string, string)>): (r: seq<string>)
    ensures |r| == |files| && forall i :: 0 <= i < |files| ==> r[i] == files[i].0
  {
    if files == [] then [] else Leagues(files[..|files| - 1]) + [files[|files| - 1].0]
  }

  /** The rows one configured file contributes: none when it is skipped. */
  function SourceRows(fs: FileSystem, dir: string, file: (string, string), cols: seq<string>, positionAsText: bool): seq<Row> {
    match LoadOne(fs, dir, file, cols, positionAsText)
    case None => []
    case Some(f) => f.rows
  }

  /** Every row a file contributes carries that file's league, numbers in the listed columns, and (on the dashboard) a position. */
  lemma SourceRowsPrepared(fs: FileSystem, dir: string, file: (string, string), cols: seq<string>, positionAsText: bool)
    requires "league" !in cols
    ensures forall r: Row :: r in SourceRows(fs, dir, file, cols, positionAsText) ==>
      "league" in r && r["league"] == Str(file.0) &&
      (forall c :: c in cols && c in r ==> r[c].Num?) &&
      (positionAsText ==> "position" in r && !r["position"].Missing?)
  {
    match LoadOne(fs, dir, file, cols, positionAsText)
    case None =>
    case Some(f) =>
      var raw := ReadCsv(fs, JoinPath(dir, file.1)).value;
      PreparedRows(raw, file.0, cols, positionAsText, f);
  }

  /**
   * Every loaded row carries the league of one of the configured files, every
   * listed column it has holds a number, and (on the dashboard) its position is set.
   */
  lemma {:induction false} LoadAllRows(fs: FileSystem, dir: string, files: seq<(string, string)>, cols: seq<string>, positionAsText: bool)
    requires "league" !in cols
    ensures forall r: Row :: r in AllRows(LoadAll(fs, dir, files, cols, positionAsText)) ==>
      "league" in r && r["league"].Str? && r["league"].text in Leagues(files) &&
      (forall c :: c in cols && c in r ==> r[c].Num?) &&
      (positionAsText ==> "position" in r && !r["position"].Missing?)
  {
    if files != [] {
      var init := files[..|files| - 1];
      var file := files[|files| - 1];
      LoadAllRows(fs, dir, init, cols, positionAsText);
      assert files == init + [file];
      LoadAllSnoc(fs, dir, init, file, cols, positionAsText);
      SourceRowsPrepared(fs, dir, file, cols, positionAsText);
      assert forall x :: x in Leagues(init) ==> x in Leagues(files);
      assert file.0 == Leagues(files)[|files| - 1];
    }
  }

  /** Loading one more file appends its rows, or nothing when it is skipped. */
  lemma LoadAllSnoc(fs: FileSystem, dir: string, files: seq<(string, string)>, file: (string, string), cols: seq<string>, positionAsText: bool)
    ensures var before := LoadAll(fs, dir, files, cols, positionAsText);
      && LoadAll(fs, dir, files + [file], cols, positionAsText) ==
           (match LoadOne(fs, dir, file, cols, positionAsText) case None => before case Some(f) => before + [f])
      && AllRows(LoadAll(fs, dir, files + [file], cols, positionAsText)) ==
           AllRows(before) + SourceRows(fs, dir, file, cols, positionAsText)
  {
    assert (files + [file])[..|files|] == files;
    var before := LoadAll(fs, dir, files, cols, positionAsText);
    match LoadOne(fs, dir, file, cols, positionAsText)
    case None =>
    case Some(f) =>
      assert (before + [f])[..|before|] == before;
  }
}
