/**
 * The dashboard's sidebar: league, team, position and player pickers, each
 * offering a sentinel ("All", or "None" for the player) followed by the sorted
 * distinct values of a table, and the filter chain the picks apply in turn.
 */
module Sidebar {
  import opened Records
  import opened Sorting

  const All: string := "All"
  const NoPlayer: string := "None"

  /** A picker's entries: the sentinel, then `sorted(values.unique())`. */
  function Options(sentinel: string, values: seq<string>): (opts: seq<string>)
    ensures |opts| >= 1 && opts[0] == sentinel && StrictlySorted(opts[1..])
    ensures forall v :: v in opts[1..] <==> v in values
  {
    var distinct := SortedUnique(values);
    assert ([sentinel] + distinct)[1..] == distinct;
    [sentinel] + distinct
  }

  function LeaguesOf(rows: seq<Record>): (vs: seq<string>)
    ensures |vs| == |rows| && forall i :: 0 <= i < |rows| ==> vs[i] == rows[i].league
  {
    seq(|rows|, i requires 0 <= i < |rows| => rows[i].league)
  }

  function TeamsOf(rows: seq<Record>): (vs: seq<string>)
    ensures |vs| == |rows| && forall i :: 0 <= i < |rows| ==> vs[i] == rows[i].team
  {
    seq(|rows|, i requires 0 <= i < |rows| => rows[i].team)
  }

  function PositionsOf(rows: seq<Record>): (vs: seq<string>)
    ensures |vs| == |rows| && forall i :: 0 <= i < |rows| ==> vs[i] == rows[i].position
  {
    seq(|rows|, i requires 0 <= i < |rows| => rows[i].position)
  }

  function NamesOf(rows: seq<Record>): (vs: seq<string>)
    ensures |vs| == |rows| && forall i :: 0 <= i < |rows| ==> vs[i] == rows[i].name
  {
    seq(|rows|, i requires 0 <= i < |rows| => rows[i].name)
  }

  /** The league picker, over the whole table: "All", then each league of a row once, sorted. */
  function LeagueOptions(df: seq<Record>): (opts: seq<string>)
    ensures |opts| >= 1 && opts[0] == All && StrictlySorted(opts[1..])
    ensures forall v :: v in opts[1..] <==> exists i :: 0 <= i < |df| && df[i].league == v
  {
    Options(All, LeaguesOf(df))
  }

  /** The team picker, over the rows of the chosen league: "All", then each of their teams once, sorted. */
  function TeamOptions(leagueView: seq<Record>): (opts: seq<string>)
    ensures |opts| >= 1 && opts[0] == All && StrictlySorted(opts[1..])
    ensures forall v :: v in opts[1..] <==> exists i :: 0 <= i < |leagueView| && leagueView[i].team == v
  {
    Options(All, TeamsOf(leagueView))
  }

  /**
   * The position picker, over the whole table whatever league and team are
   * chosen: "All", then each position of a row once, sorted.
   */
  function PositionOptions(df: seq<Record>): (opts: seq<string>)
    ensures |opts| >= 1 && opts[0] == All && StrictlySorted(opts[1..])
    ensures forall v :: v in opts[1..] <==> exists i :: 0 <= i < |df| && df[i].position == v
  {
    Options(All, PositionsOf(df))
  }

  /** The player picker, over the rows left after the position filter: "None", then each name once, sorted. */
  function PlayerOptions(positionView: seq<Record>): (opts: seq<string>)
    ensures |opts| >= 1 && opts[0] == NoPlayer && StrictlySorted(opts[1..])
    ensures forall v :: v in opts[1..] <==> exists i :: 0 <= i < |positionView| && positionView[i].name == v
  {
    Options(NoPlayer, NamesOf(positionView))
  }

  /** The picks, one per picker. */
  datatype Selection = Selection(league: string, team: string, position: string, player: string)

  /** `df if selected_league == 'All' else df[df['league'] == selected_league]`. */
  function LeagueView(df: seq<Record>, league: string): (v: seq<Record>)
    ensures forall r :: r in v <==> r in df && (league != All ==> r.league == league)
  {
    if league == All then df else Where(df, LeagueIs(league))
  }

  /** The team filter on the league view; "All" keeps it whole. */
  function TeamView(leagueView: seq<Record>, team: string): (v: seq<Record>)
    ensures forall r :: r in v <==> r in leagueView && (team != All ==> r.team == team)
  {
    if team == All then leagueView else Where(leagueView, TeamIs(team))
  }

  /** The position filter on the team view; "All" keeps it whole. */
  function PositionView(teamView: seq<Record>, position: string): (v: seq<Record>)
    ensures forall r :: r in v <==> r in teamView && (position != All ==> r.position == position)
  {
    if position == All then teamView else Where(teamView, PositionIs(position))
  }

  /** The player filter on the position view; "None" keeps it whole. */
  function PlayerView(positionView: seq<Record>, player: string): (v: seq<Record>)
    ensures forall r :: r in v <==> r in positionView && (player != NoPlayer ==> r.name == player)
  {
    if player == NoPlayer then positionView else Where(positionView, NameIs(player))
  }

  /**
   * The table every later panel reads: the four filters in turn. A row is on
   * view exactly when it is in the table and matches every pick that is not
   * its picker's sentinel.
   */
  function View(df: seq<Record>, s: Selection): (v: seq<Record>)
    ensures forall r :: r in v <==>
      && r in df
      && (s.league != All ==> r.league == s.league)
      && (s.team != All ==> r.team == s.team)
      && (s.position != All ==> r.position == s.position)
      && (s.player != NoPlayer ==> r.name == s.player)
  {
    PlayerView(PositionView(TeamView(LeagueView(df, s.league), s.team), s.position), s.player)
  }

  /** The masks the picks switch on, in the order the script applies them. */
  function Criteria(s: Selection): seq<Criterion> {
    (if s.league != All then [LeagueIs(s.league)] else []) +
    (if s.team != All then [TeamIs(s.team)] else []) +
    (if s.position != All then [PositionIs(s.position)] else []) +
    (if s.player != NoPlayer then [NameIs(s.player)] else [])
  }

  /** One more optional filter on a chain's result is the chain with that optional mask. */
  lemma OptionalStep(rows: seq<Record>, cs: seq<Criterion>, on: bool, c: Criterion)
    ensures (if on then Where(WhereAll(rows, cs), c) else WhereAll(rows, cs)) ==
            WhereAll(rows, cs + (if on then [c] else []))
  {
    if on {
      WhereExtendsChain(rows, cs, c);
    } else {
      assert cs + [] == cs;
    }
  }

  /** The four filters in turn are one pass with the masks the picks switch on. */
  lemma ViewIsChain(df: seq<Record>, s: Selection)
    ensures View(df, s) == WhereAll(df, Criteria(s))
  {
    WhereAllEmpty(df);
    var c1 := if s.league != All then [LeagueIs(s.league)] else [];
    var c2 := c1 + if s.team != All then [TeamIs(s.team)] else [];
    var c3 := c2 + if s.position != All then [PositionIs(s.position)] else [];
    OptionalStep(df, [], s.league != All, LeagueIs(s.league));
    assert [] + c1 == c1;
    OptionalStep(df, c1, s.team != All, TeamIs(s.team));
    OptionalStep(df, c2, s.position != All, PositionIs(s.position));
    OptionalStep(df, c3, s.player != NoPlayer, NameIs(s.player));
  }

  /** The view keeps the table's row order. */
  lemma ViewIsSubsequence(df: seq<Record>, s: Selection)
    ensures IsSubsequence(View(df, s), df)
  {
    ViewIsChain(df, s);
    WhereAllIsSubsequence(df, Criteria(s));
  }

  /** Leaving every picker on its sentinel shows the whole table. */
  lemma SentinelsShowAll(df: seq<Record>)
    ensures View(df, Selection(All, All, All, NoPlayer)) == df
  {
  }

  /** A team the team picker offers has rows in the league view. */
  lemma OfferedTeamHasRows(leagueView: seq<Record>, team: string)
    requires team in TeamOptions(leagueView)[1..]
    ensures TeamView(leagueView, team) != []
  {
    var i :| 0 <= i < |leagueView| && leagueView[i].team == team;
    assert leagueView[i] in TeamView(leagueView, team);
  }

  /**
   * A player the player picker offers has rows, and when that name is not the
   * sentinel every row on view carries it.
   */
  lemma OfferedPlayerHasRows(positionView: seq<Record>, player: string)
    requires player in PlayerOptions(positionView)[1..]
    ensures PlayerView(positionView, player) != []
    ensures player != NoPlayer ==> forall r :: r in PlayerView(positionView, player) ==> r.name == player
  {
    var i :| 0 <= i < |positionView| && positionView[i].name == player;
    assert positionView[i] in PlayerView(positionView, player);
  }

  /**
   * Positions are offered from the whole table, so a position can be offered
   * that no row of the chosen league holds, and picking it empties the view.
   */
  lemma OfferedPositionMayBeEmpty()
    ensures var gk := Record("Keeper", "Alpha", "EPL", "GK", 900, 0, 0, 0, 0.0, 0.0);
      var df := [gk, gk.(name := "Defender", team := "Beta", league := "LaLiga", position := "D")];
      var s := Selection("EPL", All, "D", NoPlayer);
      "D" in PositionOptions(df)[1..] && View(df, s) == []
  {
    var gk := Record("Keeper", "Alpha", "EPL", "GK", 900, 0, 0, 0, 0.0, 0.0);
    var d := gk.(name := "Defender", team := "Beta", league := "LaLiga", position := "D");
    var df := [gk, d];
    assert df[1].position == "D";
    assert df == [gk] + [d] && [d] == [d] + [] && [gk] == [gk] + [];
    WhereCons(gk, [d], LeagueIs("EPL"));
    WhereCons(d, [], LeagueIs("EPL"));
    var leagueView := LeagueView(df, "EPL");
    assert leagueView == [gk];
    WhereCons(gk, [], PositionIs("D"));
    assert PositionView(TeamView(leagueView, All), "D") == [];
  }
}
