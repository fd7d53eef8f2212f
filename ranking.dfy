/**
 * Ranking rows by one column: `idxmax` (the first row holding the maximum) and
 * `nlargest(n, col)` with its default `keep='first'` (the n largest, in
 * descending order, ties in original row order).
 */
module Ranking {
  import opened Wrappers
  import opened Records

  /** The columns rows are ranked by. */
  datatype Metric = Goals | Assists | Efficiency

  /**
   * The value a row is ranked by; efficiency is goals minus expected goals,
   * positive exactly when a player scored more than expected.
   */
  function Key(r: Record, m: Metric): (k: real)
    ensures m == Efficiency ==> (k > 0.0 <==> r.goals as real > r.xg)
  {
    match m
    case Goals => r.goals as real
    case Assists => r.assists as real
    case Efficiency => r.goals as real - r.xg
  }

  /** The column `m` of the table, one value per row. */
  function Column(rows: seq<Record>, m: Metric): (col: seq<real>)
    ensures |col| == |rows| && forall i :: 0 <= i < |rows| ==> col[i] == Key(rows[i], m)
  {
    seq(|rows|, i requires 0 <= i < |rows| => Key(rows[i], m))
  }

  predicate InRange(keys: seq<real>, cand: seq<nat>) {
    forall i :: 0 <= i < |cand| ==> cand[i] < |keys|
  }

  predicate Increasing(cand: seq<nat>) {
    forall i, j :: 0 <= i < j < |cand| ==> cand[i] < cand[j]
  }

  /** The row numbers 0, 1, ..., n - 1. */
  function Indices(n: nat): (ix: seq<nat>)
    ensures |ix| == n && forall i :: 0 <= i < n ==> ix[i] == i
  {
    seq(n, i requires 0 <= i < n => i)
  }

  /** Position, among the candidate rows, of the first one holding the largest key. */
  function FirstMax(keys: seq<real>, cand: seq<nat>): (k: nat)
    requires |cand| > 0 && InRange(keys, cand)
    ensures k < |cand|
    ensures forall j :: 0 <= j < |cand| ==> keys[cand[j]] <= keys[cand[k]]
    ensures forall j :: 0 <= j < k ==> keys[cand[j]] < keys[cand[k]]
  {
    if |cand| == 1 then 0
    else
      var k := FirstMax(keys, cand[1..]) + 1;
      assert forall j :: 1 <= j < |cand| ==> cand[j] == cand[1..][j - 1];
      if keys[cand[0]] >= keys[cand[k]] then 0 else k
  }

  /** `rows[col].idxmax()`: the first row holding the column's maximum, none for no rows. */
  function ArgMax(rows: seq<Record>, m: Metric): (r: Option<nat>)
    ensures r.None? <==> rows == []
    ensures r.Some? ==> r.value < |rows|
    ensures r.Some? ==> forall j :: 0 <= j < |rows| ==> Key(rows[j], m) <= Key(rows[r.value], m)
    ensures r.Some? ==> forall j :: 0 <= j < r.value ==> Key(rows[j], m) < Key(rows[r.value], m)
  {
    if rows == [] then None
    else
      var keys, ix := Column(rows, m), Indices(|rows|);
      var k := FirstMax(keys, ix);
      assert forall j :: 0 <= j < |rows| ==> keys[ix[j]] == Key(rows[j], m);
      Some(k)
  }

  /** Repeatedly takes the first candidate with the largest key, up to `n` times. */
  function Select(keys: seq<real>, cand: seq<nat>, n: nat): (ix: seq<nat>)
    requires InRange(keys, cand)
    ensures |ix| == if n < |cand| then n else |cand|
    decreases n
  {
    if n == 0 || cand == [] then []
    else
      var k := FirstMax(keys, cand);
      [cand[k]] + Select(keys, cand[..k] + cand[k + 1..], n - 1)
  }

  /** Row numbers drawn from in-range candidates are in range. */
  lemma InRangeOfMembers(keys: seq<real>, cand: seq<nat>, ix: seq<nat>)
    requires InRange(keys, cand) && forall i :: 0 <= i < |ix| ==> ix[i] in cand
    ensures InRange(keys, ix)
  {
    forall i | 0 <= i < |ix| ensures ix[i] < |keys| {
      var p :| 0 <= p < |cand| && cand[p] == ix[i];
    }
  }

  /** Removing one candidate keeps the rest increasing and removes exactly that one. */
  lemma RemoveAt(cand: seq<nat>, k: nat)
    requires Increasing(cand) && k < |cand|
    ensures var rest := cand[..k] + cand[k + 1..];
      |rest| == |cand| - 1 && Increasing(rest) &&
      (forall x :: x in rest <==> x in cand && x != cand[k]) &&
      (forall p :: 0 <= p < |rest| ==> (p < k ==> rest[p] == cand[p]) && (p >= k ==> rest[p] == cand[p + 1]))
  {
    var rest := cand[..k] + cand[k + 1..];
    forall p | 0 <= p < |rest| ensures (p < k ==> rest[p] == cand[p]) && (p >= k ==> rest[p] == cand[p + 1]) {
    }
    forall x ensures x in rest <==> x in cand && x != cand[k] {
      if x in cand && x != cand[k] {
        var p :| 0 <= p < |cand| && cand[p] == x;
        if p < k {
          assert rest[p] == x;
        } else {
          assert rest[p - 1] == x;
        }
      }
    }
  }

  /** The selection's picks: min(n, |cand|) distinct candidates. */
  predicate Picks(cand: seq<nat>, n: nat, ix: seq<nat>) {
    && |ix| == (if n < |cand| then n else |cand|)
    && (forall i :: 0 <= i < |ix| ==> ix[i] in cand)
    && (forall i, j :: 0 <= i < j < |ix| ==> ix[i] != ix[j])
  }

  /** The picks come in non-increasing key order, equal keys in increasing row order. */
  predicate RankOrdered(keys: seq<real>, ix: seq<nat>)
    requires InRange(keys, ix)
  {
    && (forall i, j :: 0 <= i < j < |ix| ==> keys[ix[i]] >= keys[ix[j]])
    && (forall i, j :: 0 <= i < j < |ix| && keys[ix[i]] == keys[ix[j]] ==> ix[i] < ix[j])
  }

  /**
   * Every candidate left out ranks below every pick: its key is smaller, or
   * equal with a later row (`keep='first'` keeps the earlier of tied rows).
   */
  predicate LeavesSmaller(keys: seq<real>, cand: seq<nat>, ix: seq<nat>)
    requires InRange(keys, cand) && InRange(keys, ix)
  {
    forall x, i :: x in cand && x !in ix && 0 <= i < |ix| ==>
      keys[x] < keys[ix[i]] || (keys[x] == keys[ix[i]] && ix[i] < x)
  }

  /** Every candidate other than the first largest one has a smaller key, or an equal key and a later row. */
  lemma BelowFirstMax(keys: seq<real>, cand: seq<nat>, k: nat, tail: seq<nat>)
    requires InRange(keys, cand) && Increasing(cand) && k < |cand|
    requires forall j :: 0 <= j < |cand| ==> keys[cand[j]] <= keys[cand[k]]
    requires forall j :: 0 <= j < k ==> keys[cand[j]] < keys[cand[k]]
    requires forall i :: 0 <= i < |tail| ==> tail[i] in cand[..k] + cand[k + 1..]
    ensures forall j :: 0 <= j < |tail| ==> tail[j] < |keys| && keys[tail[j]] <= keys[cand[k]]
    ensures forall j :: 0 <= j < |tail| && keys[tail[j]] == keys[cand[k]] ==> cand[k] < tail[j]
  {
    var rest := cand[..k] + cand[k + 1..];
    forall j | 0 <= j < |tail|
      ensures tail[j] < |keys| && keys[tail[j]] <= keys[cand[k]]
      ensures keys[tail[j]] == keys[cand[k]] ==> cand[k] < tail[j]
    {
      var p :| 0 <= p < |rest| && rest[p] == tail[j];
      if p < k {
        assert rest[p] == cand[p];
      } else {
        assert rest[p] == cand[p + 1];
      }
    }
  }

  /** A row ahead of a ranked selection, with a key at least as large and ties broken by row, keeps it ranked. */
  lemma HeadRanked(keys: seq<real>, h: nat, tail: seq<nat>)
    requires h < |keys| && InRange(keys, tail) && RankOrdered(keys, tail)
    requires forall j :: 0 <= j < |tail| ==> keys[tail[j]] <= keys[h]
    requires forall j :: 0 <= j < |tail| && keys[tail[j]] == keys[h] ==> h < tail[j]
    ensures InRange(keys, [h] + tail) && RankOrdered(keys, [h] + tail)
  {
    var ix := [h] + tail;
    forall i, j | 0 <= i < j < |ix|
      ensures keys[ix[i]] >= keys[ix[j]]
      ensures keys[ix[i]] == keys[ix[j]] ==> ix[i] < ix[j]
    {
      assert ix[j] == tail[j - 1];
      if i > 0 {
        assert ix[i] == tail[i - 1];
      }
    }
  }

  /** Putting the first largest candidate in front of a ranked selection of the rest keeps it ranked. */
  lemma ConsRanked(keys: seq<real>, cand: seq<nat>, k: nat, tail: seq<nat>)
    requires InRange(keys, cand) && Increasing(cand) && k < |cand|
    requires forall j :: 0 <= j < |cand| ==> keys[cand[j]] <= keys[cand[k]]
    requires forall j :: 0 <= j < k ==> keys[cand[j]] < keys[cand[k]]
    requires forall i :: 0 <= i < |tail| ==> tail[i] in cand[..k] + cand[k + 1..]
    requires InRange(keys, tail) && RankOrdered(keys, tail)
    ensures InRange(keys, [cand[k]] + tail) && RankOrdered(keys, [cand[k]] + tail)
  {
    BelowFirstMax(keys, cand, k, tail);
    HeadRanked(keys, cand[k], tail);
  }

  /** Putting one candidate in front of a selection of the others keeps the picks distinct. */
  lemma ConsPicks(cand: seq<nat>, k: nat, n: nat, tail: seq<nat>)
    requires Increasing(cand) && k < |cand| && n > 0
    requires Picks(cand[..k] + cand[k + 1..], n - 1, tail)
    ensures Picks(cand, n, [cand[k]] + tail)
  {
    var rest := cand[..k] + cand[k + 1..];
    var ix := [cand[k]] + tail;
    RemoveAt(cand, k);
    forall i | 0 <= i < |ix| ensures ix[i] in cand {
      if i > 0 {
        assert ix[i] == tail[i - 1] && tail[i - 1] in rest;
      }
    }
    forall i, j | 0 <= i < j < |ix|
      ensures ix[i] != ix[j]
    {
      assert ix[j] == tail[j - 1] && tail[j - 1] in rest;
      if i > 0 {
        assert ix[i] == tail[i - 1];
      }
    }
  }

  /** Putting the first largest candidate in front of a selection of the others keeps what is left out ranked below. */
  lemma ConsLeaves(keys: seq<real>, cand: seq<nat>, k: nat, rest: seq<nat>, tail: seq<nat>, ix: seq<nat>)
    requires InRange(keys, cand) && Increasing(cand) && k < |cand|
    requires forall j :: 0 <= j < |cand| ==> keys[cand[j]] <= keys[cand[k]]
    requires forall j :: 0 <= j < k ==> keys[cand[j]] < keys[cand[k]]
    requires rest == cand[..k] + cand[k + 1..] && ix == [cand[k]] + tail
    requires InRange(keys, rest) && InRange(keys, tail) && InRange(keys, ix)
    requires LeavesSmaller(keys, rest, tail)
    ensures LeavesSmaller(keys, cand, ix)
  {
    RemoveAt(cand, k);
    forall x, i | x in cand && x !in ix && 0 <= i < |ix|
      ensures keys[x] < keys[ix[i]] || (keys[x] == keys[ix[i]] && ix[i] < x)
    {
      var p :| 0 <= p < |cand| && cand[p] == x;
      if i > 0 {
        assert x in rest && x !in tail;
        assert ix[i] == tail[i - 1];
      } else if p > k {
        assert cand[k] < cand[p];
      }
    }
  }

  /** The candidates left after removing one are still in range and increasing. */
  lemma RemainingCandidates(keys: seq<real>, cand: seq<nat>, k: nat)
    requires InRange(keys, cand) && Increasing(cand) && k < |cand|
    ensures InRange(keys, cand[..k] + cand[k + 1..]) && Increasing(cand[..k] + cand[k + 1..])
  {
    var rest := cand[..k] + cand[k + 1..];
    RemoveAt(cand, k);
    InRangeOfMembers(keys, cand, rest);
  }

  /** One step of the selection: the first largest candidate, then a selection of the others. */
  lemma SelectStep(keys: seq<real>, cand: seq<nat>, n: nat)
    requires InRange(keys, cand) && n != 0 && cand != []
    ensures var k := FirstMax(keys, cand);
      Select(keys, cand, n) == [cand[k]] + Select(keys, cand[..k] + cand[k + 1..], n - 1)
  {
  }

  /** The candidates the selection chooses from after taking the first largest one. */
  function Remaining(keys: seq<real>, cand: seq<nat>): seq<nat>
    requires InRange(keys, cand) && cand != []
  {
    var k := FirstMax(keys, cand);
    cand[..k] + cand[k + 1..]
  }

  /** A step of the selection keeps its picks distinct candidates. */
  lemma PicksStep(keys: seq<real>, cand: seq<nat>, n: nat, tail: seq<nat>)
    requires InRange(keys, cand) && Increasing(cand) && n != 0 && cand != []
    requires tail == Select(keys, Remaining(keys, cand), n - 1)
    requires Picks(Remaining(keys, cand), n - 1, tail)
    ensures Picks(cand, n, Select(keys, cand, n))
  {
    SelectStep(keys, cand, n);
    ConsPicks(cand, FirstMax(keys, cand), n, tail);
  }

  /** A step of the selection keeps it in ranked order. */
  lemma RankedStep(keys: seq<real>, cand: seq<nat>, n: nat, tail: seq<nat>)
    requires InRange(keys, cand) && Increasing(cand) && n != 0 && cand != []
    requires tail == Select(keys, Remaining(keys, cand), n - 1)
    requires InRange(keys, tail) && RankOrdered(keys, tail)
    ensures InRange(keys, Select(keys, cand, n)) && RankOrdered(keys, Select(keys, cand, n))
  {
    var k := FirstMax(keys, cand);
    assert Remaining(keys, cand) == cand[..k] + cand[k + 1..];
    RemainingCandidates(keys, cand, k);
    SelectPicks(keys, Remaining(keys, cand), n - 1);
    ConsRanked(keys, cand, k, tail);
    SelectStep(keys, cand, n);
    assert Select(keys, cand, n) == [cand[k]] + tail;
  }

  /** A step of the selection keeps what it leaves ranked below what it takes. */
  lemma LeavesStep(keys: seq<real>, cand: seq<nat>, n: nat, tail: seq<nat>)
    requires InRange(keys, cand) && Increasing(cand) && n != 0 && cand != []
    requires tail == Select(keys, Remaining(keys, cand), n - 1)
    requires InRange(keys, Remaining(keys, cand))
    requires InRange(keys, tail) && LeavesSmaller(keys, Remaining(keys, cand), tail)
    ensures InRange(keys, Select(keys, cand, n)) && LeavesSmaller(keys, cand, Select(keys, cand, n))
  {
    var k := FirstMax(keys, cand);
    SelectStep(keys, cand, n);
    ConsLeaves(keys, cand, k, Remaining(keys, cand), tail, Select(keys, cand, n));
  }

  /** The selection takes min(n, |cand|) distinct candidates. */
  lemma {:induction false} SelectPicks(keys: seq<real>, cand: seq<nat>, n: nat)
    requires InRange(keys, cand) && Increasing(cand)
    ensures Picks(cand, n, Select(keys, cand, n)) && InRange(keys, Select(keys, cand, n))
    decreases n
  {
    if n != 0 && cand != [] {
      var rest := Remaining(keys, cand);
      RemainingCandidates(keys, cand, FirstMax(keys, cand));
      SelectPicks(keys, rest, n - 1);
      PicksStep(keys, cand, n, Select(keys, rest, n - 1));
    }
    InRangeOfMembers(keys, cand, Select(keys, cand, n));
  }

  /** The selection comes in non-increasing key order, equal keys in increasing row order. */
  lemma {:induction false} SelectRanked(keys: seq<real>, cand: seq<nat>, n: nat)
    requires InRange(keys, cand) && Increasing(cand)
    ensures InRange(keys, Select(keys, cand, n)) && RankOrdered(keys, Select(keys, cand, n))
    decreases n
  {
    if n != 0 && cand != [] {
      var rest := Remaining(keys, cand);
      RemainingCandidates(keys, cand, FirstMax(keys, cand));
      SelectRanked(keys, rest, n - 1);
      RankedStep(keys, cand, n, Select(keys, rest, n - 1));
    }
  }

  /** Every candidate the selection leaves ranks below every one it takes: a smaller key, or an equal key and a later row. */
  lemma {:induction false} SelectLeaves(keys: seq<real>, cand: seq<nat>, n: nat)
    requires InRange(keys, cand) && Increasing(cand)
    ensures InRange(keys, Select(keys, cand, n)) && LeavesSmaller(keys, cand, Select(keys, cand, n))
    decreases n
  {
    if n != 0 && cand != [] {
      var rest := Remaining(keys, cand);
      RemainingCandidates(keys, cand, FirstMax(keys, cand));
      SelectLeaves(keys, rest, n - 1);
      LeavesStep(keys, cand, n, Select(keys, rest, n - 1));
    }
  }

  /**
   * The selection takes min(n, |cand|) distinct candidates, in non-increasing key
   * order, equal keys in increasing row order, and every candidate it leaves has
   * a smaller key, or an equal key and a later row.
   */
  lemma SelectSpec(keys: seq<real>, cand: seq<nat>, n: nat)
    requires InRange(keys, cand) && Increasing(cand)
    ensures var ix := Select(keys, cand, n);
      Picks(cand, n, ix) && InRange(keys, ix) && RankOrdered(keys, ix) && LeavesSmaller(keys, cand, ix)
  {
    SelectPicks(keys, cand, n);
    SelectRanked(keys, cand, n);
    SelectLeaves(keys, cand, n);
  }

  /** The row numbers `nlargest(n, col)` returns, in the order it returns them. */
  function LargestIndices(rows: seq<Record>, n: nat, m: Metric): seq<nat> {
    Select(Column(rows, m), Indices(|rows|), n)
  }

  /** The candidates of `nlargest` are every row, in row order. */
  lemma AllRowsCandidates(rows: seq<Record>, m: Metric)
    ensures InRange(Column(rows, m), Indices(|rows|)) && Increasing(Indices(|rows|))
    ensures forall x :: 0 <= x < |rows| ==> x in Indices(|rows|)
  {
    var all := Indices(|rows|);
    forall x | 0 <= x < |rows| ensures x in all {
      assert all[x] == x;
    }
  }

  lemma LargestPicks(rows: seq<Record>, n: nat, m: Metric)
    ensures var ix := LargestIndices(rows, n, m);
      && |ix| == (if n < |rows| then n else |rows|)
      && (forall i :: 0 <= i < |ix| ==> ix[i] < |rows|)
      && (forall i, j :: 0 <= i < j < |ix| ==> ix[i] != ix[j])
  {
    AllRowsCandidates(rows, m);
    SelectPicks(Column(rows, m), Indices(|rows|), n);
  }

  lemma LargestRanked(rows: seq<Record>, n: nat, m: Metric)
    ensures var ix := LargestIndices(rows, n, m);
      && (forall i :: 0 <= i < |ix| ==> ix[i] < |rows|)
      && (forall i, j :: 0 <= i < j < |ix| ==> Key(rows[ix[i]], m) >= Key(rows[ix[j]], m))
      && (forall i, j :: 0 <= i < j < |ix| && Key(rows[ix[i]], m) == Key(rows[ix[j]], m) ==> ix[i] < ix[j])
  {
    AllRowsCandidates(rows, m);
    SelectRanked(Column(rows, m), Indices(|rows|), n);
  }

  lemma LargestLeaves(rows: seq<Record>, n: nat, m: Metric)
    ensures var ix := LargestIndices(rows, n, m);
      && (forall i :: 0 <= i < |ix| ==> ix[i] < |rows|)
      && (forall x, i :: 0 <= x < |rows| && x !in ix && 0 <= i < |ix| ==>
            Key(rows[x], m) < Key(rows[ix[i]], m) || (Key(rows[x], m) == Key(rows[ix[i]], m) && ix[i] < x))
  {
    AllRowsCandidates(rows, m);
    SelectLeaves(Column(rows, m), Indices(|rows|), n);
  }

  /**
   * `nlargest(n, col)` picks min(n, |rows|) distinct rows, in non-increasing
   * order of the column, ties in original row order, and every row it leaves
   * out ranks below every row it picks: a smaller value, or an equal value and
   * a later row.
   */
  lemma LargestSpec(rows: seq<Record>, n: nat, m: Metric)
    ensures var ix := LargestIndices(rows, n, m);
      && |ix| == (if n < |rows| then n else |rows|)
      && (forall i :: 0 <= i < |ix| ==> ix[i] < |rows|)
      && (forall i, j :: 0 <= i < j < |ix| ==> ix[i] != ix[j])
      && (forall i, j :: 0 <= i < j < |ix| ==> Key(rows[ix[i]], m) >= Key(rows[ix[j]], m))
      && (forall i, j :: 0 <= i < j < |ix| && Key(rows[ix[i]], m) == Key(rows[ix[j]], m) ==> ix[i] < ix[j])
      && (forall x, i :: 0 <= x < |rows| && x !in ix && 0 <= i < |ix| ==>
            Key(rows[x], m) < Key(rows[ix[i]], m) || (Key(rows[x], m) == Key(rows[ix[i]], m) && ix[i] < x))
  {
    LargestPicks(rows, n, m);
    LargestRanked(rows, n, m);
    LargestLeaves(rows, n, m);
  }

  /** `nlargest(n, col)`: the picked rows themselves. */
  function Largest(rows: seq<Record>, n: nat, m: Metric): (top: seq<Record>)
    ensures |top| == (if n < |rows| then n else |rows|)
    ensures var ix := LargestIndices(rows, n, m);
      |ix| == |top| && forall i :: 0 <= i < |top| ==> ix[i] < |rows| && top[i] == rows[ix[i]]
    ensures forall i :: 0 <= i < |top| ==> top[i] in rows
    ensures forall i, j :: 0 <= i < j < |top| ==> Key(top[i], m) >= Key(top[j], m)
    ensures var ix := LargestIndices(rows, n, m);
      forall x, i :: 0 <= x < |rows| && x !in ix && 0 <= i < |top| && i < |ix| ==>
        Key(rows[x], m) < Key(top[i], m) || (Key(rows[x], m) == Key(top[i], m) && ix[i] < x)
  {
    var ix := LargestIndices(rows, n, m);
    LargestSpec(rows, n, m);
    seq(|ix|, i requires 0 <= i < |ix| => rows[ix[i]])
  }

  /** Rows in non-decreasing order of goals. */
  predicate GoalsAscending(rows: seq<Record>) {
    forall i, j :: 0 <= i < j < |rows| ==> rows[i].goals <= rows[j].goals
  }

  /** A row with no more goals than any row of an ascending table can go in front of it. */
  lemma ConsAscending(h: Record, tail: seq<Record>)
    requires GoalsAscending(tail) && forall x :: x in tail ==> h.goals <= x.goals
    ensures GoalsAscending([h] + tail)
  {
    assert forall j :: 0 < j < |[h] + tail| ==> ([h] + tail)[j] == tail[j - 1] && tail[j - 1] in tail;
  }

  /** The first row of an ascending table has no more goals than any other. */
  lemma HeadIsLeast(sorted: seq<Record>, x: Record)
    requires GoalsAscending(sorted) && sorted != [] && x in sorted[1..]
    ensures sorted[0].goals <= x.goals
  {
    var k :| 0 <= k < |sorted[1..]| && sorted[1..][k] == x;
    assert sorted[k + 1] == x;
  }

  /** A row with no more goals than the first of an ascending table can go in front of it. */
  lemma LeastInFront(sorted: seq<Record>, r: Record)
    requires GoalsAscending(sorted) && (sorted == [] || r.goals <= sorted[0].goals)
    ensures GoalsAscending([r] + sorted)
  {
    forall x | x in sorted ensures r.goals <= x.goals {
      if x != sorted[0] {
        assert sorted == [sorted[0]] + sorted[1..];
        HeadIsLeast(sorted, x);
      }
    }
    ConsAscending(r, sorted);
  }

  /** The first row of an ascending table can go in front of the rest with a larger row inserted. */
  lemma HeadInFront(sorted: seq<Record>, r: Record, tail: seq<Record>)
    requires GoalsAscending(sorted) && sorted != [] && r.goals > sorted[0].goals
    requires GoalsAscending(tail) && multiset(tail) == multiset(sorted[1..]) + multiset{r}
    ensures GoalsAscending([sorted[0]] + tail)
    ensures multiset([sorted[0]] + tail) == multiset(sorted) + multiset{r}
  {
    assert sorted == [sorted[0]] + sorted[1..];
    forall x | x in tail ensures sorted[0].goals <= x.goals {
      assert x in multiset(tail);
      if x != r {
        assert x in multiset(sorted[1..]);
        HeadIsLeast(sorted, x);
      }
    }
    ConsAscending(sorted[0], tail);
  }

  /** Places `r` before the first row with at least as many goals. */
  function InsertByGoals(sorted: seq<Record>, r: Record): (res: seq<Record>)
    requires GoalsAscending(sorted)
    ensures GoalsAscending(res)
    ensures multiset(res) == multiset(sorted) + multiset{r}
  {
    if sorted == [] || r.goals <= sorted[0].goals then
      LeastInFront(sorted, r);
      [r] + sorted
    else
      var tail := InsertByGoals(sorted[1..], r);
      HeadInFront(sorted, r, tail);
      [sorted[0]] + tail
  }

  /** `sort_values(by='goals', ascending=True)`: the same rows, fewest goals first. */
  function SortByGoals(rows: seq<Record>): (res: seq<Record>)
    ensures GoalsAscending(res)
    ensures multiset(res) == multiset(rows)
  {
    if rows == [] then []
    else
      assert rows == [rows[0]] + rows[1..];
      InsertByGoals(SortByGoals(rows[1..]), rows[0])
  }

  /** Deleting rows from a table in goal order leaves it in goal order. */
  lemma {:induction false} GoalsAscendingSubsequence(a: seq<Record>, b: seq<Record>)
    requires IsSubsequence(a, b) && GoalsAscending(b)
    ensures GoalsAscending(a)
    decreases |b|
  {
    if a != [] {
      if a[0] == b[0] {
        GoalsAscendingSubsequence(a[1..], b[1..]);
        SubsequenceMembers(a[1..], b[1..]);
        assert forall j :: 0 < j < |a| ==> a[j] == a[1..][j - 1] && a[j] in b[1..];
        assert forall x :: x in b[1..] ==> b[0].goals <= x.goals by {
          forall x | x in b[1..] ensures b[0].goals <= x.goals {
            var k :| 0 <= k < |b[1..]| && b[1..][k] == x;
            assert b[k + 1] == x;
          }
        }
      } else {
        assert GoalsAscending(b[1..]) by {
          assert forall j :: 0 <= j < |b[1..]| ==> b[1..][j] == b[j + 1];
        }
        GoalsAscendingSubsequence(a, b[1..]);
      }
    }
  }
}
