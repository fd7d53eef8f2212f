/**
 * The loaded table as the two front-ends query it: a sequence of player-season
 * records, filtered by boolean masks (`df[df[col] == v]`, `str.contains`,
 * `df[df[col] > k]`) and summed.
 */
module Records {
  import opened Text

  /** One player-season row, with the columns the queries read. */
  datatype Record = Record(
    name: string, team: string, league: string, position: string,
    minutes: int, goals: int, assists: int, shots: int, xg: real, xa: real)

  /** One boolean mask of the filter chains. */
  datatype Criterion =
    | LeagueIs(league: string)
    | TeamIs(team: string)
    | PositionIs(position: string)
    | NameIs(name: string)
      /** `player_name.str.lower().str.contains(needle)`, with `needle` already lower-cased. */
    | NameContains(needle: string)
    | GoalsOver(goalBound: int)
    | MinutesOver(minuteBound: int)

  /** The row passes the mask; a name search with an empty needle passes every row. */
  predicate Matches(r: Record, c: Criterion)
    ensures c.NameContains? && c.needle == [] ==> Matches(r, c)
    ensures c.NameContains? && Matches(r, c) ==> |c.needle| <= |r.name|
  {
    match c
    case LeagueIs(l) => r.league == l
    case TeamIs(t) => r.team == t
    case PositionIs(p) => r.position == p
    case NameIs(n) => r.name == n
    case NameContains(n) => ContainsEmpty(Lower(r.name)); Contains(Lower(r.name), n)
    case GoalsOver(k) => r.goals > k
    case MinutesOver(k) => r.minutes > k
  }

  /** Two tables holding the same rows as often hold the same rows. */
  lemma SameMembers(a: seq<Record>, b: seq<Record>)
    requires multiset(a) == multiset(b)
    ensures forall r :: r in a <==> r in b
  {
    forall r ensures r in a <==> r in b {
      assert r in a <==> r in multiset(a);
      assert r in b <==> r in multiset(b);
    }
  }

  /** `rows[mask]`: the rows that match, in their original order. */
  function Where(rows: seq<Record>, c: Criterion): (res: seq<Record>)
    ensures |res| <= |rows|
    ensures forall r :: r in res <==> r in rows && Matches(r, c)
  {
    if rows == [] then []
    else (if Matches(rows[0], c) then [rows[0]] else []) + Where(rows[1..], c)
  }

  /** `a` can be obtained from `b` by deleting elements. */
  predicate IsSubsequence(a: seq<Record>, b: seq<Record>)
    decreases |b|
  {
    a == [] || (b != [] && if a[0] == b[0] then IsSubsequence(a[1..], b[1..]) else IsSubsequence(a, b[1..]))
  }

  /** Every row of a subsequence is a row of the table it was taken from. */
  lemma {:induction false} SubsequenceMembers(a: seq<Record>, b: seq<Record>)
    requires IsSubsequence(a, b)
    ensures forall x :: x in a ==> x in b
    decreases |b|
  {
    if a != [] {
      if a[0] == b[0] {
        SubsequenceMembers(a[1..], b[1..]);
        assert a == [a[0]] + a[1..];
      } else {
        SubsequenceMembers(a, b[1..]);
      }
      assert b == [b[0]] + b[1..];
    }
  }

  /** A contiguous slice is a subsequence. */
  lemma {:induction false} SliceIsSubsequence(rows: seq<Record>, lo: nat, hi: nat)
    requires lo <= hi <= |rows|
    ensures IsSubsequence(rows[lo..hi], rows)
    decreases |rows|
  {
    if lo < hi {
      var slice := rows[lo..hi];
      if slice[0] == rows[0] {
        assert forall j :: 0 <= j < hi - lo - 1 ==> slice[1..][j] == rows[lo + 1 + j] == rows[1..][lo..hi - 1][j];
        assert slice[1..] == rows[1..][lo..hi - 1];
        SliceIsSubsequence(rows[1..], lo, hi - 1);
      } else {
        assert lo > 0;
        assert slice == rows[1..][lo - 1..hi - 1];
        SliceIsSubsequence(rows[1..], lo - 1, hi - 1);
      }
    }
  }

  /** A filter keeps the original order: its result is a subsequence of its input. */
  lemma {:induction false} WhereIsSubsequence(rows: seq<Record>, c: Criterion)
    ensures IsSubsequence(Where(rows, c), rows)
  {
    if rows != [] {
      WhereIsSubsequence(rows[1..], c);
      var rest := Where(rows[1..], c);
      if rest != [] {
        assert rest[0] in rest;
      }
      if Matches(rows[0], c) {
        assert Where(rows, c)[1..] == rest;
      } else {
        assert Where(rows, c) == rest;
      }
    }
  }

  /** The mask on a table with a first row: that row if it matches, then the mask on the rest. */
  lemma WhereCons(x: Record, rest: seq<Record>, c: Criterion)
    ensures Where([x] + rest, c) == (if Matches(x, c) then [x] else []) + Where(rest, c)
  {
    assert ([x] + rest)[0] == x && ([x] + rest)[1..] == rest;
  }

  lemma SplitFirst(a: seq<Record>, b: seq<Record>)
    requires a != []
    ensures a == [a[0]] + a[1..]
    ensures a + b == [a[0]] + (a[1..] + b)
  {
  }

  lemma AppendAssoc(x: seq<Record>, y: seq<Record>, z: seq<Record>)
    ensures x + (y + z) == (x + y) + z
  {
  }

  /** A filter keeps every copy of every matching row and no copy of any other. */
  lemma {:induction false} WhereCounts(rows: seq<Record>, c: Criterion, r: Record)
    ensures multiset(Where(rows, c))[r] == if Matches(r, c) then multiset(rows)[r] else 0
  {
    if rows != [] {
      SplitFirst(rows, []);
      WhereCons(rows[0], rows[1..], c);
      WhereCounts(rows[1..], c, r);
    }
  }

  /** Filtering two blocks of rows one after the other is filtering their concatenation. */
  lemma {:induction false} WhereConcat(a: seq<Record>, b: seq<Record>, c: Criterion)
    ensures Where(a + b, c) == Where(a, c) + Where(b, c)
  {
    if a == [] {
      assert a + b == b;
    } else {
      SplitFirst(a, b);
      WhereCons(a[0], a[1..] + b, c);
      WhereCons(a[0], a[1..], c);
      WhereConcat(a[1..], b, c);
      AppendAssoc(if Matches(a[0], c) then [a[0]] else [], Where(a[1..], c), Where(b, c));
    }
  }

  /** A mask every row passes leaves the table as it is. */
  lemma {:induction false} WhereKeepsAll(rows: seq<Record>, c: Criterion)
    requires forall r :: r in rows ==> Matches(r, c)
    ensures Where(rows, c) == rows
  {
    if rows != [] {
      WhereKeepsAll(rows[1..], c);
    }
  }

  /** The row passes every mask of the chain. */
  predicate MatchesAll(r: Record, cs: seq<Criterion>) {
    forall i :: 0 <= i < |cs| ==> Matches(r, cs[i])
  }

  /** One pass keeping the rows that pass every mask: what a chain of filters should amount to. */
  function WhereAll(rows: seq<Record>, cs: seq<Criterion>): seq<Record> {
    if rows == [] then []
    else (if MatchesAll(rows[0], cs) then [rows[0]] else []) + WhereAll(rows[1..], cs)
  }

  /** Applying one more filter to a chain's result is the chain extended by that mask. */
  lemma {:induction false} WhereExtendsChain(rows: seq<Record>, cs: seq<Criterion>, c: Criterion)
    ensures Where(WhereAll(rows, cs), c) == WhereAll(rows, cs + [c])
  {
    if rows != [] {
      WhereExtendsChain(rows[1..], cs, c);
      var r := rows[0];
      assert MatchesAll(r, cs + [c]) <==> MatchesAll(r, cs) && Matches(r, c) by {
        assert (cs + [c])[|cs|] == c;
        assert forall i :: 0 <= i < |cs| ==> (cs + [c])[i] == cs[i];
      }
      var head := if MatchesAll(r, cs) then [r] else [];
      WhereConcat(head, WhereAll(rows[1..], cs), c);
    }
  }

  /** A chain of filters keeps the original order. */
  lemma {:induction false} WhereAllIsSubsequence(rows: seq<Record>, cs: seq<Criterion>)
    ensures IsSubsequence(WhereAll(rows, cs), rows)
  {
    if rows != [] {
      WhereAllIsSubsequence(rows[1..], cs);
      WhereAllMembers(rows[1..], cs);
      var rest := WhereAll(rows[1..], cs);
      if rest != [] {
        assert rest[0] in rest;
      }
      if MatchesAll(rows[0], cs) {
        assert WhereAll(rows, cs)[1..] == rest;
      } else {
        assert WhereAll(rows, cs) == rest;
      }
    }
  }

  /** A chain keeps exactly the rows passing every mask. */
  lemma {:induction false} WhereAllMembers(rows: seq<Record>, cs: seq<Criterion>)
    ensures forall r :: r in WhereAll(rows, cs) <==> r in rows && MatchesAll(r, cs)
  {
    if rows != [] {
      WhereAllMembers(rows[1..], cs);
      assert rows == [rows[0]] + rows[1..];
    }
  }

  /** With no mask, the chain is the identity. */
  lemma {:induction false} WhereAllEmpty(rows: seq<Record>)
    ensures WhereAll(rows, []) == rows
  {
    if rows != [] {
      WhereAllEmpty(rows[1..]);
    }
  }

  /** `rows['goals'].sum()`: with no negative count, at least every single row's goals. */
  function TotalGoals(rows: seq<Record>): (t: int)
    ensures (forall i :: 0 <= i < |rows| ==> rows[i].goals >= 0) ==>
      0 <= t && forall i :: 0 <= i < |rows| ==> rows[i].goals <= t
  {
    if rows == [] then 0 else rows[0].goals + TotalGoals(rows[1..])
  }

  lemma {:induction false} TotalGoalsConcat(a: seq<Record>, b: seq<Record>)
    ensures TotalGoals(a + b) == TotalGoals(a) + TotalGoals(b)
  {
    if a != [] {
      assert (a + b)[1..] == a[1..] + b;
      TotalGoalsConcat(a[1..], b);
    } else {
      assert a + b == b;
    }
  }

  /** With goal counts that are never negative, a filter can only lower the goal total. */
  lemma {:induction false} TotalGoalsOfFilter(rows: seq<Record>, c: Criterion)
    requires forall r :: r in rows ==> r.goals >= 0
    ensures 0 <= TotalGoals(Where(rows, c)) <= TotalGoals(rows)
  {
    if rows != [] {
      TotalGoalsOfFilter(rows[1..], c);
      var head := if Matches(rows[0], c) then [rows[0]] else [];
      assert Where(rows, c) == head + Where(rows[1..], c);
      TotalGoalsConcat(head, Where(rows[1..], c));
    }
  }
}
