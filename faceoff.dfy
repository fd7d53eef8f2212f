/**
 * The player comparison tab: each chosen name is looked up as the first row of
 * the whole table carrying it, and five metrics are shown side by side, the
 * strictly larger value of each in green.
 */
module FaceOff {
  import opened Wrappers
  import opened Records
  import opened Sorting
  import opened Sidebar

  datatype Colour = Green | White

  /** The colours of the left and right value of one metric. */
  function Colours(left: real, right: real): (c: (Colour, Colour))
    ensures c.0 == Green <==> left > right
    ensures c.1 == Green <==> right > left
  {
    (if left > right then Green else White, if right > left then Green else White)
  }

  /** At most one side is green, and equal values leave both white. */
  lemma AtMostOneGreen(left: real, right: real)
    ensures !(Colours(left, right).0 == Green && Colours(left, right).1 == Green)
    ensures left == right ==> Colours(left, right) == (White, White)
  {
  }

  /** Swapping the players swaps the colours. */
  lemma ColoursSwap(left: real, right: real)
    ensures Colours(right, left) == (Colours(left, right).1, Colours(left, right).0)
  {
  }

  /** Position of the first row carrying the name, if any. */
  function FirstNamed(df: seq<Record>, name: string): (k: Option<nat>)
    ensures k.None? <==> forall i :: 0 <= i < |df| ==> df[i].name != name
    ensures k.Some? ==> k.value < |df| && df[k.value].name == name
    ensures k.Some? ==> forall i :: 0 <= i < k.value ==> df[i].name != name
  {
    if df == [] then None
    else if df[0].name == name then Some(0)
    else match FirstNamed(df[1..], name)
      case None => None
      case Some(k) => Some(k + 1)
  }

  /** `df[df['player_name'] == name].iloc[0]` is the first row of the table with that name. */
  lemma {:induction false} FirstNamedIsFirstOfFilter(df: seq<Record>, name: string)
    ensures var k := FirstNamed(df, name); var w := Where(df, NameIs(name));
      (k.None? <==> w == []) && (k.Some? ==> w[0] == df[k.value])
    decreases |df|
  {
    if df != [] && df[0].name != name {
      FirstNamedIsFirstOfFilter(df[1..], name);
    }
    var w := Where(df, NameIs(name));
    if w != [] {
      assert w[0] in w;
    }
  }

  /** One column of the comparison. */
  datatype TapeLine = TapeLine(metric: string, left: real, right: real, leftColour: Colour, rightColour: Colour)

  function Line(metric: string, left: real, right: real): (l: TapeLine)
    ensures l.metric == metric && l.left == left && l.right == right
    ensures (l.leftColour, l.rightColour) == Colours(left, right)
  {
    var (c1, c2) := Colours(left, right);
    TapeLine(metric, left, right, c1, c2)
  }

  /** The metric labels, in the order the tab shows them. */
  const Metrics: seq<string> := ["Goals", "Assists", "xG", "Shots", "Mins"]

  /**
   * The five metrics side by side: the first player's value on the left, the
   * second's on the right, each coloured by comparing the two.
   */
  function Tape(p1: Record, p2: Record): (lines: seq<TapeLine>)
    ensures |lines| == |Metrics| && forall i :: 0 <= i < |lines| ==> lines[i].metric == Metrics[i]
    ensures lines[0].left == p1.goals as real && lines[0].right == p2.goals as real
    ensures lines[1].left == p1.assists as real && lines[1].right == p2.assists as real
    ensures lines[2].left == p1.xg && lines[2].right == p2.xg
    ensures lines[3].left == p1.shots as real && lines[3].right == p2.shots as real
    ensures lines[4].left == p1.minutes as real && lines[4].right == p2.minutes as real
    ensures forall i :: 0 <= i < |lines| ==> (lines[i].leftColour, lines[i].rightColour) == Colours(lines[i].left, lines[i].right)
  {
    [ Line("Goals", p1.goals as real, p2.goals as real),
      Line("Assists", p1.assists as real, p2.assists as real),
      Line("xG", p1.xg, p2.xg),
      Line("Shots", p1.shots as real, p2.shots as real),
      Line("Mins", p1.minutes as real, p2.minutes as real) ]
  }

  /** The comparison of two chosen names; none when a name is on no row (an IndexError). */
  function Compare(df: seq<Record>, name1: string, name2: string): (r: Option<seq<TapeLine>>)
    ensures r.Some? <==> FirstNamed(df, name1).Some? && FirstNamed(df, name2).Some?
    ensures r.Some? ==> r.value == Tape(df[FirstNamed(df, name1).value], df[FirstNamed(df, name2).value])
  {
    match (FirstNamed(df, name1), FirstNamed(df, name2))
    case (Some(i), Some(j)) => Some(Tape(df[i], df[j]))
    case _ => None
  }

  /** The same line seen from the other side: values and colours exchanged. */
  function Swapped(l: TapeLine): TapeLine {
    TapeLine(l.metric, l.right, l.left, l.rightColour, l.leftColour)
  }

  /** Comparing the players the other way round shows every line mirrored. */
  lemma TapeSwap(p1: Record, p2: Record)
    ensures forall i :: 0 <= i < |Metrics| ==> Tape(p2, p1)[i] == Swapped(Tape(p1, p2)[i])
  {
  }

  /** Swapping the two pickers swaps the sides of the comparison and nothing else. */
  lemma CompareSwap(df: seq<Record>, name1: string, name2: string)
    ensures Compare(df, name2, name1).Some? <==> Compare(df, name1, name2).Some?
    ensures Compare(df, name1, name2).Some? ==>
      forall i :: 0 <= i < |Metrics| ==> Compare(df, name2, name1).value[i] == Swapped(Compare(df, name1, name2).value[i])
  {
  }

  /** A player compared with themself has no green value anywhere. */
  lemma SelfComparisonAllWhite(df: seq<Record>, name: string)
    requires FirstNamed(df, name).Some?
    ensures forall l :: l in Compare(df, name, name).value ==> l.leftColour == White && l.rightColour == White
  {
    var p := df[FirstNamed(df, name).value];
    var lines := Tape(p, p);
    forall l | l in lines ensures l.leftColour == White && l.rightColour == White {
      var i :| 0 <= i < 5 && lines[i] == l;
      AtMostOneGreen(l.left, l.right);
    }
  }

  /** Whatever the two players, no metric shows both values in green. */
  lemma NeverBothGreen(df: seq<Record>, name1: string, name2: string)
    requires Compare(df, name1, name2).Some?
    ensures forall l :: l in Compare(df, name1, name2).value ==> !(l.leftColour == Green && l.rightColour == Green)
  {
    var lines := Compare(df, name1, name2).value;
    forall l | l in lines ensures !(l.leftColour == Green && l.rightColour == Green) {
      var i :| 0 <= i < 5 && lines[i] == l;
      AtMostOneGreen(l.left, l.right);
    }
  }

  /**
   * Both pickers offer `sorted(df['player_name'].unique())`, over the whole
   * table: each name of a row once, in sorted order.
   */
  function FaceOffOptions(df: seq<Record>): (opts: seq<string>)
    ensures StrictlySorted(opts)
    ensures forall v :: v in opts <==> exists i :: 0 <= i < |df| && df[i].name == v
  {
    SortedUnique(NamesOf(df))
  }

  /** Any two names the pickers offer can be compared: each is on some row. */
  lemma OfferedPlayersCompare(df: seq<Record>, name1: string, name2: string)
    requires name1 in FaceOffOptions(df) && name2 in FaceOffOptions(df)
    ensures Compare(df, name1, name2).Some?
  {
    var i :| 0 <= i < |df| && df[i].name == name1;
    var j :| 0 <= j < |df| && df[j].name == name2;
  }
}
