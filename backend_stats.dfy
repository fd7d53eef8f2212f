/**
 * The `/api/stats` request: the optional league and name filters over the
 * loaded table, then the player count, goal total, top-ten scorers, the
 * more-than-five-goals scatter and one 50-row page of the filtered table.
 */
module BackendStats {
  import opened Wrappers
  import opened Text
  import opened Records
  import opened Ranking

  /** The query string: `league`, `search` and `page`, each possibly absent. */
  datatype StatsQuery = StatsQuery(league: Option<string>, search: Option<string>, page: Option<int>)

  /** One top-scorer chart entry. */
  datatype Scorer = Scorer(name: string, goals: int, league: string)

  /** One goals-versus-xG scatter point. */
  datatype Point = Point(name: string, goals: int, xg: real, league: string)

  datatype Stats = Stats(totalPlayers: nat, totalGoals: int, topScorers: seq<Scorer>, scatter: seq<Point>, table: seq<Record>)

  /** A JSON body with status 200, or an error body with its status. */
  datatype Response = Ok(stats: Stats) | Failure(status: nat, error: string)

  const PageSize: nat := 50
  const TopCount: nat := 10
  const ScatterGoals: int := 5

  /** The league filter applies only to a league that is given, non-empty and not "All". */
  predicate FiltersLeague(q: StatsQuery) {
    q.league.Some? && q.league.value != "" && q.league.value != "All"
  }

  /** The lower-cased search text; an absent search is the empty text. */
  function Needle(q: StatsQuery): (n: string)
    ensures q.search.None? ==> n == ""
    ensures q.search.Some? ==> n == Lower(q.search.value)
    ensures q.search.Some? ==> |n| == |q.search.value|
    ensures forall i :: 0 <= i < |n| ==> !IsUpper(n[i])
  {
    Lower(q.search.GetOr(""))
  }

  /** The masks the request applies, in the order it applies them. */
  function ActiveCriteria(q: StatsQuery): (cs: seq<Criterion>)
    ensures |cs| == (if FiltersLeague(q) then 1 else 0) + (if Needle(q) != "" then 1 else 0)
    ensures FiltersLeague(q) ==> cs[0] == LeagueIs(q.league.value)
    ensures Needle(q) != "" ==> cs[|cs| - 1] == NameContains(Needle(q))
  {
    (if FiltersLeague(q) then [LeagueIs(q.league.value)] else []) +
    (if Needle(q) != "" then [NameContains(Needle(q))] else [])
  }

  /** The league filter, then the name filter, each applied only when the request asks for it. */
  function Filtered(rows: seq<Record>, q: StatsQuery): (res: seq<Record>)
    ensures |res| <= |rows|
    ensures forall r :: r in res ==> r in rows
    ensures FiltersLeague(q) ==> forall r :: r in res ==> r.league == q.league.value
    ensures !FiltersLeague(q) && Needle(q) == "" ==> res == rows
  {
    var byLeague := if FiltersLeague(q) then Where(rows, LeagueIs(q.league.value)) else rows;
    if Needle(q) != "" then Where(byLeague, NameContains(Needle(q))) else byLeague
  }

  /** The two filters in sequence are one pass with both masks. */
  lemma FilteredIsChain(rows: seq<Record>, q: StatsQuery)
    ensures Filtered(rows, q) == WhereAll(rows, ActiveCriteria(q))
  {
    WhereAllEmpty(rows);
    var first := if FiltersLeague(q) then [LeagueIs(q.league.value)] else [];
    if FiltersLeague(q) {
      WhereExtendsChain(rows, [], LeagueIs(q.league.value));
      assert [] + first == first;
    }
    if Needle(q) != "" {
      WhereExtendsChain(rows, first, NameContains(Needle(q)));
    } else {
      assert first + [] == first;
    }
  }

  /**
   * A row survives the filters exactly when it is in the table, has the
   * requested league (when one is requested) and its lower-cased name contains
   * the lower-cased search text.
   */
  lemma FilteredMembers(rows: seq<Record>, q: StatsQuery, r: Record)
    ensures r in Filtered(rows, q) <==>
      r in rows &&
      (FiltersLeague(q) ==> r.league == q.league.value) &&
      Contains(Lower(r.name), Needle(q))
  {
    if Needle(q) == "" {
      ContainsEmpty(Lower(r.name));
    }
  }

  /** Filtering keeps the table's row order. */
  lemma FilteredIsSubsequence(rows: seq<Record>, q: StatsQuery)
    ensures IsSubsequence(Filtered(rows, q), rows)
  {
    FilteredIsChain(rows, q);
    WhereAllIsSubsequence(rows, ActiveCriteria(q));
  }

  /** Python's clamping of one slice bound: negative counts from the end. */
  function SliceBound(i: int, len: nat): (b: nat)
    ensures b <= len
    ensures 0 <= i <= len ==> b == i
    ensures i > len ==> b == len
    ensures i < 0 && len as int + i >= 0 ==> b == len as int + i
    ensures len as int + i < 0 ==> b == 0
  {
    if i < 0 then (if i + len < 0 then 0 else i + len)
    else if i > len then len
    else i
  }

  /** `xs[start:end]` with Python's slice semantics. */
  function PySlice<T>(xs: seq<T>, start: int, end: int): (r: seq<T>)
    ensures |r| <= |xs|
    ensures 0 <= start <= end <= |xs| ==> r == xs[start..end]
    ensures SliceBound(end, |xs|) <= SliceBound(start, |xs|) ==> r == []
    ensures forall k :: 0 <= k < |r| ==> SliceBound(start, |xs|) + k < |xs| && r[k] == xs[SliceBound(start, |xs|) + k]
  {
    var s, e := SliceBound(start, |xs|), SliceBound(end, |xs|);
    if s < e then xs[s..e] else []
  }

  /** `filtered.iloc[start:start + 50]` with `start = (page - 1) * 50`. */
  function Page(rows: seq<Record>, page: int): (r: seq<Record>)
    ensures |r| <= PageSize
  {
    var start := (page - 1) * PageSize;
    PySlice(rows, start, start + PageSize)
  }

  /** A page from 1 on is the 50-row block at its offset, cut at the end of the table. */
  lemma PageBlock(rows: seq<Record>, page: int)
    requires page >= 1
    ensures var start := (page - 1) * PageSize;
      Page(rows, page) == if start >= |rows| then [] else rows[start..if start + PageSize <= |rows| then start + PageSize else |rows|]
  {
  }

  /** A slice of the rows keeps their order. */
  lemma PageIsSubsequence(rows: seq<Record>, page: int)
    ensures IsSubsequence(Page(rows, page), rows)
  {
    var start := (page - 1) * PageSize;
    var s, e := SliceBound(start, |rows|), SliceBound(start + PageSize, |rows|);
    if s < e {
      SliceIsSubsequence(rows, s, e);
    }
  }

  /** Page 0 is empty whatever the table. */
  lemma PageZeroEmpty(rows: seq<Record>)
    ensures Page(rows, 0) == []
  {
  }

  /**
   * A negative page counts back from the end of the table: page -k is the
   * 50 rows that end 50 * k rows before the end.
   */
  lemma NegativePageFromEnd(rows: seq<Record>, page: int)
    requires page < 0 && PageSize * (1 - page) <= |rows|
    ensures Page(rows, page) == rows[|rows| + (page - 1) * PageSize .. |rows| + page * PageSize]
    ensures |Page(rows, page)| == PageSize
  {
  }

  /** Pages 1 to k, one after the other. */
  function Pages(rows: seq<Record>, k: nat): seq<Record> {
    if k == 0 then [] else Pages(rows, k - 1) + Page(rows, k)
  }

  /** Reading pages 1, 2, ..., k in turn gives the first 50 * k rows, nothing skipped or repeated. */
  lemma {:induction false} PagesArePrefix(rows: seq<Record>, k: nat)
    ensures Pages(rows, k) == rows[..if PageSize * k <= |rows| then PageSize * k else |rows|]
  {
    if k > 0 {
      PagesArePrefix(rows, k - 1);
      PageBlock(rows, k);
      var a := if PageSize * (k - 1) <= |rows| then PageSize * (k - 1) else |rows|;
      var b := if PageSize * k <= |rows| then PageSize * k else |rows|;
      assert rows[..b] == rows[..a] + rows[a..b];
    }
  }

  function ScorerOf(r: Record): Scorer {
    Scorer(r.name, r.goals, r.league)
  }

  function PointOf(r: Record): Point {
    Point(r.name, r.goals, r.xg, r.league)
  }

  /** `[['player_name', 'goals', 'league']].to_dict(orient='records')`. */
  function Scorers(rows: seq<Record>): (s: seq<Scorer>)
    ensures |s| == |rows| && forall i :: 0 <= i < |rows| ==> s[i] == ScorerOf(rows[i])
  {
    seq(|rows|, i requires 0 <= i < |rows| => ScorerOf(rows[i]))
  }

  /** `[['player_name', 'goals', 'xg', 'league']].to_dict(orient='records')`. */
  function Points(rows: seq<Record>): (s: seq<Point>)
    ensures |s| == |rows| && forall i :: 0 <= i < |rows| ==> s[i] == PointOf(rows[i])
  {
    seq(|rows|, i requires 0 <= i < |rows| => PointOf(rows[i]))
  }

  /** The top-scorer chart: the ten rows with the most goals, or nothing for no rows. */
  function TopScorers(f: seq<Record>): (top: seq<Scorer>)
    ensures |top| == if |f| < TopCount then |f| else TopCount
  {
    if f == [] then [] else Scorers(Largest(f, TopCount, Goals))
  }

  /** The scatter: the rows with more than five goals, or nothing for no rows. */
  function Scatter(f: seq<Record>): (pts: seq<Point>)
    ensures |pts| <= |f|
    ensures forall i :: 0 <= i < |pts| ==> pts[i].goals > ScatterGoals
  {
    if f == [] then []
    else
      var big := Where(f, GoalsOver(ScatterGoals));
      assert forall i :: 0 <= i < |big| ==> big[i] in big;
      Points(big)
  }

  /** `get_stats`: a 500 error on an empty table, otherwise the statistics of the filtered rows. */
  function GetStats(rows: seq<Record>, q: StatsQuery): (resp: Response)
    ensures resp.Failure? <==> rows == []
    ensures resp.Failure? ==> resp.status == 500 && resp.error == "No data loaded"
    ensures resp.Ok? ==> resp.stats.totalPlayers == |Filtered(rows, q)|
    ensures resp.Ok? ==> resp.stats.totalGoals == TotalGoals(Filtered(rows, q))
    ensures resp.Ok? ==> resp.stats.topScorers == TopScorers(Filtered(rows, q))
    ensures resp.Ok? ==> resp.stats.scatter == Scatter(Filtered(rows, q))
    ensures resp.Ok? ==> IsSubsequence(resp.stats.table, Filtered(rows, q)) && |resp.stats.table| <= PageSize
    ensures resp.Ok? ==> resp.stats.table == Page(Filtered(rows, q), q.page.GetOr(1))
  {
    if rows == [] then Failure(500, "No data loaded")
    else
      var f := Filtered(rows, q);
      PageIsSubsequence(f, q.page.GetOr(1));
      Ok(Stats(|f|, if f == [] then 0 else TotalGoals(f), TopScorers(f), Scatter(f), Page(f, q.page.GetOr(1))))
  }

  /** The top-scorer chart lists min(10, n) of n rows, most goals first, each from the rows. */
  lemma TopScorersRanked(f: seq<Record>)
    ensures var top := TopScorers(f);
      && |top| == (if |f| < TopCount then |f| else TopCount)
      && (forall i, j :: 0 <= i < j < |top| ==> top[i].goals >= top[j].goals)
      && (forall i :: 0 <= i < |top| ==> top[i] in Scorers(f))
  {
    var top := TopScorers(f);
    if f != [] {
      var picked := Largest(f, TopCount, Goals);
      forall i, j | 0 <= i < j < |top| ensures top[i].goals >= top[j].goals {
        assert Key(picked[i], Goals) >= Key(picked[j], Goals);
      }
      forall i | 0 <= i < |top| ensures top[i] in Scorers(f) {
        assert picked[i] in f;
        var j :| 0 <= j < |f| && f[j] == picked[i];
        assert Scorers(f)[j] == top[i];
      }
    }
  }

  /**
   * Every row left out of the top-scorer chart ranks below every row listed:
   * fewer goals, or as many and a later row.
   */
  lemma TopScorersLeaveFewer(f: seq<Record>)
    ensures var top, ix := TopScorers(f), LargestIndices(f, TopCount, Goals);
      forall x, i :: 0 <= x < |f| && x !in ix && 0 <= i < |top| && i < |ix| ==>
        f[x].goals < top[i].goals || (f[x].goals == top[i].goals && ix[i] < x)
  {
    var top, ix := TopScorers(f), LargestIndices(f, TopCount, Goals);
    if f != [] {
      var picked := Largest(f, TopCount, Goals);
      forall x, i | 0 <= x < |f| && x !in ix && 0 <= i < |top| && i < |ix|
        ensures f[x].goals < top[i].goals || (f[x].goals == top[i].goals && ix[i] < x)
      {
        assert top[i].goals == picked[i].goals;
      }
    }
  }

  /** The scatter is the points of the rows with more than five goals. */
  lemma ScatterOfBig(f: seq<Record>)
    ensures Scatter(f) == Points(Where(f, GoalsOver(ScatterGoals)))
  {
    if f == [] {
      assert Where(f, GoalsOver(ScatterGoals)) == [];
    }
  }

  /** The rows with more than five goals, each as often as the table has it, and no other row. */
  lemma BigCounts(f: seq<Record>)
    ensures forall r: Record ::
      multiset(Where(f, GoalsOver(ScatterGoals)))[r] == if r.goals > ScatterGoals then multiset(f)[r] else 0
  {
    forall r: Record ensures multiset(Where(f, GoalsOver(ScatterGoals)))[r] ==
      if r.goals > ScatterGoals then multiset(f)[r] else 0
    {
      WhereCounts(f, GoalsOver(ScatterGoals), r);
    }
  }

  /** Every row with more than five goals has its point on the scatter. */
  lemma ScatterMembers(f: seq<Record>)
    ensures forall r :: r in f && r.goals > ScatterGoals ==> PointOf(r) in Scatter(f)
  {
    var big := Where(f, GoalsOver(ScatterGoals));
    var pts := Points(big);
    ScatterOfBig(f);
    forall r | r in f && r.goals > ScatterGoals ensures PointOf(r) in pts {
      var i :| 0 <= i < |big| && big[i] == r;
      assert pts[i] == PointOf(r);
    }
  }

  /**
   * The scatter holds the points of exactly the rows with more than five
   * goals: those rows, in table order, each as often as the table has it.
   */
  lemma ScatterExact(f: seq<Record>)
    ensures var pts := Scatter(f);
      && (forall i :: 0 <= i < |pts| ==> pts[i].goals > ScatterGoals)
      && (forall r :: r in f && r.goals > ScatterGoals ==> PointOf(r) in pts)
      && |pts| == |Where(f, GoalsOver(ScatterGoals))|
    ensures exists big: seq<Record> ::
      && IsSubsequence(big, f) && Scatter(f) == Points(big)
      && (forall r: Record :: multiset(big)[r] == if r.goals > ScatterGoals then multiset(f)[r] else 0)
  {
    ScatterMembers(f);
    ScatterOfBig(f);
    WhereIsSubsequence(f, GoalsOver(ScatterGoals));
    BigCounts(f);
  }

  /** The goal total is the sum over the filtered players, so at most the whole table's. */
  lemma TotalGoalsBounded(rows: seq<Record>, q: StatsQuery)
    requires rows != [] && forall r :: r in rows ==> r.goals >= 0
    ensures 0 <= GetStats(rows, q).stats.totalGoals <= TotalGoals(rows)
  {
    var byLeague := if FiltersLeague(q) then Where(rows, LeagueIs(q.league.value)) else rows;
    if FiltersLeague(q) {
      TotalGoalsOfFilter(rows, LeagueIs(q.league.value));
    }
    if Needle(q) != "" {
      TotalGoalsOfFilter(byLeague, NameContains(Needle(q)));
    }
  }

  /** Without a page parameter the table is the first 50 filtered rows. */
  lemma DefaultPageIsFirst(rows: seq<Record>, q: StatsQuery)
    requires rows != [] && q.page.None?
    ensures var f := Filtered(rows, q);
      GetStats(rows, q).stats.table == f[..if PageSize <= |f| then PageSize else |f|]
  {
    var f := Filtered(rows, q);
    PageBlock(f, 1);
  }
}
