/** End-to-end generations on a 5-by-5 board. */
module Scenarios {
  import opened Generation
  import opened Conway

  /** `g` is a 5-by-5 board whose live cells are exactly those at the given storage indices. */
  predicate IsBoard(g: seq<bool>, live: set<int>)
  {
    |g| == 25 && forall i :: 0 <= i < 25 ==> (g[i] <==> i in live)
  }

  /** The 5-by-5 board with the given live cells. */
  function Board(live: set<int>): (g: seq<bool>)
    ensures IsBoard(g, live)
  {
    seq(25, i => i in live)
  }

  /** The count of live cells among eight, written out. */
  lemma LiveCountOfEight(s: seq<bool>)
    requires |s| == 8
    ensures LiveCount(s) ==
      Tally(s[0]) + Tally(s[1]) + Tally(s[2]) + Tally(s[3])
      + Tally(s[4]) + Tally(s[5]) + Tally(s[6]) + Tally(s[7])
  {
    LiveCountCons(s);
    LiveCountCons(s[1..]);
    LiveCountCons(s[2..]);
    LiveCountCons(s[3..]);
    LiveCountCons(s[4..]);
    LiveCountCons(s[5..]);
    LiveCountCons(s[6..]);
    LiveCountCons(s[7..]);
    assert s[8..] == [];
  }

  /** The rule at one cell of a 5-by-5 board: border cells die, the nine
      interior cells follow the rule on their eight neighbours, which lie at
      storage distance 1, 4, 5 and 6 on both sides. */
  lemma RuleOnFive(g: seq<bool>, x: nat, y: nat)
    requires |g| == 25 && x < 5 && y < 5
    ensures InBounds(g, 5, x, y) && SiblingsDefined(g, 5, 5, x, y)
    ensures OnBorder(5, 5, x, y) ==> !ShouldCrabLive(g, 5, 5, x, y)
    ensures !OnBorder(5, 5, x, y) ==>
      var i := Index(5, x, y);
      var count :=
        Tally(g[i - 6]) + Tally(g[i - 5]) + Tally(g[i - 4])
        + Tally(g[i - 1]) + Tally(g[i + 1])
        + Tally(g[i + 4]) + Tally(g[i + 5]) + Tally(g[i + 6]);
      ShouldCrabLive(g, 5, 5, x, y) == (count == 3 || (g[i] && count == 2))
  {
    CellInBounds(g, 5, 5, x, y);
    if !OnBorder(5, 5, x, y) {
      SiblingsOnFive(g, x, y);
      LiveCountOfEight(CrabsSiblings(g, 5, 5, x, y));
    }
  }

  /** The eight siblings of an interior cell of a 5-by-5 board, by storage index. */
  lemma SiblingsOnFive(g: seq<bool>, x: nat, y: nat)
    requires |g| == 25 && x < 5 && y < 5 && !OnBorder(5, 5, x, y)
    ensures SiblingsDefined(g, 5, 5, x, y)
    ensures var i := Index(5, x, y);
      CrabsSiblings(g, 5, 5, x, y)
      == [g[i - 6], g[i - 5], g[i - 4], g[i - 1], g[i + 1], g[i + 4], g[i + 5], g[i + 6]]
  {
    CellInBounds(g, 5, 5, x, y);
  }

  /** One cell of a 5-by-5 board after a step. */
  lemma CellAfterStep(g: seq<bool>, x: nat, y: nat)
    requires |g| == 25 && x < 5 && y < 5
    ensures Index(5, x, y) < 25
    ensures OnBorder(5, 5, x, y) ==> !Next(g, 5, 5)[Index(5, x, y)]
    ensures !OnBorder(5, 5, x, y) ==>
      var i := Index(5, x, y);
      var count :=
        Tally(g[i - 6]) + Tally(g[i - 5]) + Tally(g[i - 4])
        + Tally(g[i - 1]) + Tally(g[i + 1])
        + Tally(g[i + 4]) + Tally(g[i + 5]) + Tally(g[i + 6]);
      Next(g, 5, 5)[i] == (count == 3 || (g[i] && count == 2))
  {
    NextAtCell(g, 5, x, y);
    RuleOnFive(g, x, y);
  }

  /** A single live crab at (2, 2) has no live neighbour and dies, leaving
      the whole board dead. */
  lemma LoneCrabDies(g: seq<bool>, h: seq<bool>)
    requires IsBoard(g, {Index(5, 2, 2)}) && IsBoard(h, {})
    ensures Next(g, 5, 5) == h
  {
    forall i | 0 <= i < 25
      ensures Next(g, 5, 5)[i] == h[i]
    {
      var x, y := i % 5, i / 5;
      assert i == Index(5, x, y);
      CellAfterStep(g, x, y);
      if !OnBorder(5, 5, x, y) {
        LoneNeighbourhood(g, x, y);
      }
    }
  }

  /** With one live crab, every interior cell has at most one live neighbour. */
  lemma LoneNeighbourhood(g: seq<bool>, x: nat, y: nat)
    requires IsBoard(g, {Index(5, 2, 2)})
    requires 1 <= x <= 3 && 1 <= y <= 3
    ensures var i := Index(5, x, y);
      Tally(g[i - 6]) + Tally(g[i - 5]) + Tally(g[i - 4])
      + Tally(g[i - 1]) + Tally(g[i + 1])
      + Tally(g[i + 4]) + Tally(g[i + 5]) + Tally(g[i + 6]) <= 1
  {
  }

  /** A horizontal blinker through (1, 2), (2, 2), (3, 2) turns vertical:
      (2, 1) and (2, 3) are born with three neighbours each, the centre
      survives with two, and the two ends die with one. */
  lemma BlinkerTurns(g: seq<bool>, h: seq<bool>)
    requires IsBoard(g, {Index(5, 1, 2), Index(5, 2, 2), Index(5, 3, 2)})
    requires IsBoard(h, {Index(5, 2, 1), Index(5, 2, 2), Index(5, 2, 3)})
    ensures Next(g, 5, 5) == h
  {
    forall i | 0 <= i < 25
      ensures Next(g, 5, 5)[i] == h[i]
    {
      var x, y := i % 5, i / 5;
      assert i == Index(5, x, y);
      CellAfterStep(g, x, y);
      BlinkerTarget(h, x, y);
      if !OnBorder(5, 5, x, y) {
        BlinkerInterior(g, x, y);
      }
    }
  }

  /** The vertical blinker, by coordinates. */
  lemma BlinkerTarget(h: seq<bool>, x: nat, y: nat)
    requires IsBoard(h, {Index(5, 2, 1), Index(5, 2, 2), Index(5, 2, 3)})
    requires x < 5 && y < 5
    ensures h[Index(5, x, y)] == (x == 2 && 1 <= y <= 3)
  {
  }

  /** The interior of the blinker step: exactly the middle column is alive. */
  lemma BlinkerInterior(g: seq<bool>, x: nat, y: nat)
    requires IsBoard(g, {Index(5, 1, 2), Index(5, 2, 2), Index(5, 3, 2)})
    requires 1 <= x <= 3 && 1 <= y <= 3
    ensures Next(g, 5, 5)[Index(5, x, y)] == (x == 2)
  {
    CellAfterStep(g, x, y);
    BlinkerNeighbourhood(g, x, y);
  }

  /** The live neighbours of the interior cells of the horizontal blinker:
      three for (2, 1) and (2, 3), two for the centre, one for the ends. */
  lemma BlinkerNeighbourhood(g: seq<bool>, x: nat, y: nat)
    requires IsBoard(g, {Index(5, 1, 2), Index(5, 2, 2), Index(5, 3, 2)})
    requires 1 <= x <= 3 && 1 <= y <= 3
    ensures var i := Index(5, x, y);
      var count :=
        Tally(g[i - 6]) + Tally(g[i - 5]) + Tally(g[i - 4])
        + Tally(g[i - 1]) + Tally(g[i + 1])
        + Tally(g[i + 4]) + Tally(g[i + 5]) + Tally(g[i + 6]);
      g[i] == (y == 2)
      && count == (if y == 2 then 2 - (if x == 2 then 0 else 1) else (if x == 2 then 3 else 2))
  {
  }

  /** The two scenarios on concrete boards. */
  lemma ConcreteScenarios()
    ensures Next(Board({12}), 5, 5) == Board({})
    ensures Next(Board({11, 12, 13}), 5, 5) == Board({7, 12, 17})
  {
    LoneCrabDies(Board({12}), Board({}));
    BlinkerTurns(Board({11, 12, 13}), Board({7, 12, 17}));
  }
}
