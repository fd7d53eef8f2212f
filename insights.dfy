/**
 * What the dashboard derives from the filtered view: the season report (the
 * first row holding the most goals, the most assists and the largest goals
 * minus xG), the searched player's summary (estimated games, finishing text
 * and verdict), and which panel the first tab shows.
 */
module Insights {
  import opened Wrappers
  import opened Records
  import opened Ranking
  import opened Sidebar

  /** Row `k` holds the largest key of the rows, and no earlier row does. */
  predicate IsFirstMax(rows: seq<Record>, k: nat, m: Metric) {
    && k < |rows|
    && (forall j :: 0 <= j < |rows| ==> Key(rows[j], m) <= Key(rows[k], m))
    && (forall j :: 0 <= j < k ==> Key(rows[j], m) < Key(rows[k], m))
  }

  /** At most one row is the first to hold the maximum. */
  lemma FirstMaxUnique(rows: seq<Record>, a: nat, b: nat, m: Metric)
    requires IsFirstMax(rows, a, m) && IsFirstMax(rows, b, m)
    ensures a == b
  {
    assert Key(rows[a], m) == Key(rows[b], m);
  }

  /** The season report's three rows, as positions in the view. */
  datatype Report = Report(mvp: nat, creator: nat, clinical: nat)

  /** The season report: nothing on an empty view, otherwise the three `idxmax` rows. */
  function SeasonReport(view: seq<Record>): (r: Option<Report>)
    ensures r.None? <==> view == []
    ensures r.Some? ==> IsFirstMax(view, r.value.mvp, Goals)
    ensures r.Some? ==> IsFirstMax(view, r.value.creator, Assists)
    ensures r.Some? ==> IsFirstMax(view, r.value.clinical, Efficiency)
  {
    if view == [] then None
    else Some(Report(ArgMax(view, Goals).value, ArgMax(view, Assists).value, ArgMax(view, Efficiency).value))
  }

  /** `int(minutes / 90)`: whole games played, truncated toward zero. */
  function EstimatedGames(minutes: int): (games: int)
    ensures minutes >= 0 ==> 0 <= games && 90 * games <= minutes < 90 * games + 90
    ensures minutes < 0 ==> games <= 0 && 90 * games - 90 < minutes <= 90 * games
  {
    if minutes >= 0 then minutes / 90 else -((-minutes) / 90)
  }

  /** Truncation toward zero is symmetric, unlike floor division. */
  lemma EstimatedGamesOdd(minutes: int)
    ensures EstimatedGames(-minutes) == -EstimatedGames(minutes)
  {
  }

  const Legend: string := "League Legend \U{1F31F}"
  const Starter: string := "Key Starter \U{2705}"
  const Rotation: string := "Squad Rotation Player"

  /** The performance verdict from career goals and assists. */
  function Verdict(goals: int, assists: int): (v: string)
    ensures v in {Legend, Starter, Rotation}
  {
    if goals > 50 || assists > 30 then Legend
    else if goals > 20 || assists > 15 then Starter
    else Rotation
  }

  /** The verdict's standing: 2 for a legend, 1 for a starter, 0 otherwise. */
  function Tier(v: string): nat {
    if v == Legend then 2 else if v == Starter then 1 else 0
  }

  /**
   * A legend has more than 50 goals or more than 30 assists; a starter is not a
   * legend but has more than 20 goals or more than 15 assists; everyone else is
   * a rotation player.
   */
  lemma VerdictThresholds(goals: int, assists: int)
    ensures Verdict(goals, assists) == Legend <==> goals > 50 || assists > 30
    ensures Verdict(goals, assists) == Starter <==> goals <= 50 && assists <= 30 && (goals > 20 || assists > 15)
    ensures Verdict(goals, assists) == Rotation <==> goals <= 20 && assists <= 15
  {
  }

  /** More goals and more assists never lower the verdict. */
  lemma VerdictMonotone(g1: int, a1: int, g2: int, a2: int)
    requires g1 <= g2 && a1 <= a2
    ensures Tier(Verdict(g1, a1)) <= Tier(Verdict(g2, a2))
  {
  }

  /** "better" when the player scored more than expected, "lower" otherwise. */
  function Finishing(goals: int, xg: real): (text: string)
    ensures text == "better" || text == "lower"
  {
    if goals as real > xg then "better" else "lower"
  }

  /** Finishing is "better" exactly when the player's efficiency is positive. */
  lemma FinishingIsEfficiency(r: Record)
    ensures Finishing(r.goals, r.xg) == "better" <==> Key(r, Efficiency) > 0.0
  {
  }

  /**
   * When anyone on view out-scored their xG, the report's clinical finisher did
   * too: the clinical finisher's finishing is "better".
   */
  lemma ClinicalFinisherFinishesBetter(view: seq<Record>, i: nat)
    requires i < |view| && Finishing(view[i].goals, view[i].xg) == "better"
    ensures var k := SeasonReport(view).value.clinical;
      Finishing(view[k].goals, view[k].xg) == "better"
  {
    var k := SeasonReport(view).value.clinical;
    FinishingIsEfficiency(view[i]);
    FinishingIsEfficiency(view[k]);
    assert Key(view[i], Efficiency) <= Key(view[k], Efficiency);
  }

  /** The searched player's summary text, from the first row on view. */
  datatype Summary = Summary(
    name: string, team: string, games: int, minutes: int, goals: int, assists: int, xg: real,
    finishing: string, verdict: string)

  /**
   * The summary of one record: its name, team and counts as shown, whole games
   * from minutes, "better" finishing exactly for a positive efficiency, and the
   * verdict its goals and assists earn.
   */
  function SummaryOf(p: Record): (s: Summary)
    ensures s.name == p.name && s.team == p.team
    ensures s.minutes == p.minutes && s.goals == p.goals && s.assists == p.assists && s.xg == p.xg
    ensures s.games == EstimatedGames(p.minutes)
    ensures p.minutes >= 0 ==> 0 <= s.games && 90 * s.games <= p.minutes < 90 * s.games + 90
    ensures s.finishing == "better" <==> Key(p, Efficiency) > 0.0
    ensures s.finishing != "better" ==> s.finishing == "lower"
    ensures s.verdict == Verdict(p.goals, p.assists)
    ensures s.verdict in {Legend, Starter, Rotation}
  {
    Summary(p.name, p.team, EstimatedGames(p.minutes), p.minutes, p.goals, p.assists, p.xg,
      Finishing(p.goals, p.xg), Verdict(p.goals, p.assists))
  }

  /** `filtered_df.iloc[0]`: the first row on view, none (an IndexError) for an empty view. */
  function PlayerSummary(view: seq<Record>): (s: Option<Summary>)
    ensures s.Some? <==> view != []
    ensures s.Some? ==> s.value == SummaryOf(view[0])
  {
    if view == [] then None else Some(SummaryOf(view[0]))
  }

  /**
   * Searching for a name the player picker offers always yields a summary, and
   * it is about that player, with the verdict the player's own record earns.
   */
  lemma SummaryOfSearchedPlayer(df: seq<Record>, s: Selection)
    requires s.player != NoPlayer
    requires s.player in PlayerOptions(PositionView(TeamView(LeagueView(df, s.league), s.team), s.position))[1..]
    ensures var sum := PlayerSummary(View(df, s));
      && sum.Some? && sum.value.name == s.player
      && exists r :: r in df && r.name == s.player && sum.value.verdict == Verdict(r.goals, r.assists)
  {
    var pv := PositionView(TeamView(LeagueView(df, s.league), s.team), s.position);
    OfferedPlayerHasRows(pv, s.player);
    var v := View(df, s);
    assert v[0] in v;
  }

  /** The first tab: the searched player, else the chosen team's scorers, else the league panel. */
  datatype Panel =
    | PlayerPanel(summary: Option<Summary>)
      /** The team's rows in the chosen league, before the position filter. */
    | TeamPanel(team: string, teamView: seq<Record>)
      /** The rows on view. */
    | LeaguePanel(view: seq<Record>)

  function AnalysisPanel(df: seq<Record>, s: Selection): (p: Panel)
    ensures p.PlayerPanel? <==> s.player != NoPlayer
    ensures p.TeamPanel? <==> s.player == NoPlayer && s.team != All
    ensures p.PlayerPanel? ==> p.summary == PlayerSummary(View(df, s))
    ensures p.PlayerPanel? ==> (p.summary.Some? <==> View(df, s) != [])
    ensures p.TeamPanel? ==> p.team == s.team && forall r :: r in p.teamView <==>
      r in df && (s.league != All ==> r.league == s.league) && r.team == s.team
    ensures p.LeaguePanel? ==> p.view == View(df, s)
  {
    if s.player != NoPlayer then PlayerPanel(PlayerSummary(View(df, s)))
    else if s.team != All then TeamPanel(s.team, TeamView(LeagueView(df, s.league), s.team))
    else LeaguePanel(View(df, s))
  }

  /** The team panel's bars: the rows sorted by goals, then those with at least one goal. */
  function TeamChart(teamView: seq<Record>): (chart: seq<Record>)
    ensures forall i, j :: 0 <= i < j < |chart| ==> chart[i].goals <= chart[j].goals
    ensures forall r :: r in chart <==> r in teamView && r.goals > 0
  {
    var sorted := SortByGoals(teamView);
    WhereIsSubsequence(sorted, GoalsOver(0));
    GoalsAscendingSubsequence(Where(sorted, GoalsOver(0)), sorted);
    SameMembers(sorted, teamView);
    Where(sorted, GoalsOver(0))
  }

  const MatrixMinutes: int := 500
  const TopPerformers: nat := 10

  /** The league panel's bubble chart: the rows with more than 500 minutes. */
  function Matrix(view: seq<Record>): (m: seq<Record>)
    ensures forall r :: r in m <==> r in view && r.minutes > MatrixMinutes
    ensures IsSubsequence(m, view)
  {
    WhereIsSubsequence(view, MinutesOver(MatrixMinutes));
    Where(view, MinutesOver(MatrixMinutes))
  }

  /**
   * The league panel's bar chart: `nlargest(10, 'goals')`, the ten (or fewer)
   * highest scorers, most goals first. They are the rows at distinct positions
   * `ix` of the view, and every row left out ranks below every row shown:
   * fewer goals, or as many and a later row.
   */
  function TopChart(view: seq<Record>): (top: seq<Record>)
    ensures |top| == if |view| < TopPerformers then |view| else TopPerformers
    ensures forall i, j :: 0 <= i < j < |top| ==> top[i].goals >= top[j].goals
    ensures forall i :: 0 <= i < |top| ==> top[i] in view
    ensures var ix := LargestIndices(view, TopPerformers, Goals);
      && |ix| == |top|
      && (forall i :: 0 <= i < |top| ==> ix[i] < |view| && top[i] == view[ix[i]])
      && (forall i, j :: 0 <= i < j < |ix| ==> ix[i] != ix[j])
      && (forall x, i :: 0 <= x < |view| && x !in ix && 0 <= i < |top| ==>
            view[x].goals < top[i].goals || (view[x].goals == top[i].goals && ix[i] < x))
  {
    TopChartGoals(view);
    Largest(view, TopPerformers, Goals)
  }

  /**
   * The ten highest scorers come most goals first, from distinct positions, and
   * every row left out has fewer goals than each row shown, or as many and a
   * later row.
   */
  lemma TopChartGoals(view: seq<Record>)
    ensures var top := Largest(view, TopPerformers, Goals);
      forall i, j :: 0 <= i < j < |top| ==> top[i].goals >= top[j].goals
    ensures var top, ix := Largest(view, TopPerformers, Goals), LargestIndices(view, TopPerformers, Goals);
      && |ix| == |top|
      && (forall i, j :: 0 <= i < j < |ix| ==> ix[i] != ix[j])
      && (forall x, i :: 0 <= x < |view| && x !in ix && 0 <= i < |top| ==>
            view[x].goals < top[i].goals || (view[x].goals == top[i].goals && ix[i] < x))
  {
    var top, ix := Largest(view, TopPerformers, Goals), LargestIndices(view, TopPerformers, Goals);
    LargestPicks(view, TopPerformers, Goals);
    assert forall i, j :: 0 <= i < j < |top| ==> Key(top[i], Goals) >= Key(top[j], Goals);
    forall x, i | 0 <= x < |view| && x !in ix && 0 <= i < |top|
      ensures view[x].goals < top[i].goals || (view[x].goals == top[i].goals && ix[i] < x)
    {
      assert Key(view[x], Goals) < Key(top[i], Goals) || (Key(view[x], Goals) == Key(top[i], Goals) && ix[i] < x);
    }
  }

  /** The team panel reads the team's rows before the position filter, so the position pick does not change it. */
  lemma TeamPanelIgnoresPosition(df: seq<Record>, s: Selection, position: string)
    requires s.player == NoPlayer && s.team != All
    ensures AnalysisPanel(df, s) == AnalysisPanel(df, s.(position := position))
  {
  }

  /** The team chart holds each row of the team with at least one goal, as often as the team's rows do. */
  lemma TeamChartCounts(teamView: seq<Record>, r: Record)
    ensures multiset(TeamChart(teamView))[r] == multiset(Where(teamView, GoalsOver(0)))[r]
  {
    var sorted := SortByGoals(teamView);
    WhereCounts(sorted, GoalsOver(0), r);
    WhereCounts(teamView, GoalsOver(0), r);
  }
}
