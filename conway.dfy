/** Conway's Game of Life on an n-by-n board stored row by row, stated over
    coordinates and sets of cells rather than over storage indices and
    neighbour lists: the reference that the engine's generation step is
    proved to follow on square boards (the only shape its host uses). */
module Conway {
  import opened Generation

  /** Cell (a, b) is on the board and alive. */
  ghost predicate LiveAt(g: seq<bool>, n: int, a: int, b: int)
  {
    0 <= a < n && 0 <= b < n && 0 <= a + n * b < |g| && g[a + n * b]
  }

  /** The live cells among those adjacent to (x, y), diagonals included. */
  ghost function LiveNeighbours(g: seq<bool>, n: int, x: int, y: int): set<(int, int)>
  {
    set a, b | x - 1 <= a <= x + 1 && y - 1 <= b <= y + 1 && (a, b) != (x, y) && LiveAt(g, n, a, b) :: (a, b)
  }

  /** The outer ring of the board, whose cells the engine always kills. */
  ghost predicate Rim(n: int, x: int, y: int)
  {
    x == 0 || y == 0 || x == n - 1 || y == n - 1
  }

  /** Birth on 3, survival on 2 or 3, and a dead rim. */
  ghost predicate AliveNext(g: seq<bool>, n: int, x: int, y: int)
  {
    var c := |LiveNeighbours(g, n, x, y)|;
    !Rim(n, x, y) && (c == 3 || (c == 2 && LiveAt(g, n, x, y)))
  }

  /** On an n-by-n board the engine's next generation is Conway's: the cell
      stored at (x, y) is alive afterwards exactly when the reference rule
      says so. */
  lemma {:induction false} NextIsLife(g: seq<bool>, n: nat, x: nat, y: nat)
    requires |g| == n * n && x < n && y < n
    ensures Index(n, x, y) < |g|
    ensures Next(g, n, n)[Index(n, x, y)] == AliveNext(g, n, x, y)
  {
    NextAtCell(g, n, x, y);
    if OnBorder(n, n, x, y) {
      assert Rim(n, x, y);
    } else {
      assert !Rim(n, x, y);
      SiblingCountIsNeighbourCount(g, n, x, y);
      assert GetCrab(g, n, x, y) == LiveAt(g, n, x, y);
    }
  }

  /** On a square board, draw's loop visits cell (x, y) at its own storage index. */
  lemma NextAtCell(g: seq<bool>, n: nat, x: nat, y: nat)
    requires |g| == n * n && x < n && y < n
    ensures Index(n, x, y) < |g|
    ensures InBounds(g, n, x, y) && SiblingsDefined(g, n, n, x, y)
    ensures Next(g, n, n)[Index(n, x, y)] == ShouldCrabLive(g, n, n, x, y)
  {
    CellInBounds(g, n, n, x, y);
    var i := Index(n, x, y);
    DecodeEncode(n, x, y);
    assert Next(g, n, n)[i] == NextCell(g, n, n, i);
  }

  /** Position of neighbour number `k` of (x, y). */
  function Neighbour(x: int, y: int, k: nat): (int, int)
    requires k < 8
  {
    (x + Offsets[k].0, y + Offsets[k].1)
  }

  /** The neighbour positions picked by the live entries of `s` from index `m` on. */
  ghost function Picked(s: seq<bool>, x: int, y: int, m: nat): set<(int, int)>
    requires m <= |s| <= 8
  {
    set k | m <= k < |s| && s[k] :: Neighbour(x, y, k)
  }

  lemma NeighbourInjective(x: int, y: int, k: nat, j: nat)
    requires k < 8 && j < 8 && k != j
    ensures Neighbour(x, y, k) != Neighbour(x, y, j)
  {
  }

  /** Distinct offsets pick distinct cells, so the set is as large as the
      count of live entries. */
  lemma {:induction false} PickedCount(s: seq<bool>, x: int, y: int, m: nat)
    requires m <= |s| == 8
    ensures |Picked(s, x, y, m)| == LiveCount(s[m..])
    decreases 8 - m
  {
    if m == 8 {
      assert Picked(s, x, y, 8) == {};
    } else {
      PickedCount(s, x, y, m + 1);
      LiveCountCons(s[m..]);
      assert s[m..][1..] == s[m + 1..];
      PickedSplit(s, x, y, m);
    }
  }

  /** The cells picked from index `m` on are those picked after `m`, plus
      neighbour `m` when it is live, which is not among the others. */
  lemma PickedSplit(s: seq<bool>, x: int, y: int, m: nat)
    requires m < |s| == 8
    ensures Neighbour(x, y, m) !in Picked(s, x, y, m + 1)
    ensures Picked(s, x, y, m) == (if s[m] then {Neighbour(x, y, m)} else {}) + Picked(s, x, y, m + 1)
  {
    forall k | m + 1 <= k < 8 ensures Neighbour(x, y, k) != Neighbour(x, y, m) {
      NeighbourInjective(x, y, k, m);
    }
  }

  /** For an interior cell of an n-by-n board, the number of live siblings
      the engine counts is the number of live adjacent cells. */
  lemma SiblingCountIsNeighbourCount(g: seq<bool>, n: nat, x: nat, y: nat)
    requires |g| == n * n && x < n && y < n && !OnBorder(n, n, x, y)
    ensures SiblingsDefined(g, n, n, x, y)
    ensures LiveSiblingCount(g, n, n, x, y) == |LiveNeighbours(g, n, x, y)|
  {
    SiblingsAreNeighbours(g, n, x, y);
    var s := CrabsSiblings(g, n, n, x, y);
    PickedAreLiveNeighbours(g, n, x, y, s);
    PickedCount(s, x, y, 0);
    assert s[0..] == s;
  }

  /** Sibling `k` of an interior cell is the state of its adjacent cell at offset `k`. */
  lemma SiblingsAreNeighbours(g: seq<bool>, n: nat, x: nat, y: nat)
    requires |g| == n * n && x < n && y < n && !OnBorder(n, n, x, y)
    ensures SiblingsDefined(g, n, n, x, y)
    ensures forall k :: 0 <= k < 8 ==>
              CrabsSiblings(g, n, n, x, y)[k] == LiveAt(g, n, Neighbour(x, y, k).0, Neighbour(x, y, k).1)
  {
    CellInBounds(g, n, n, x, y);
    forall k | 0 <= k < 8
      ensures CrabsSiblings(g, n, n, x, y)[k] == LiveAt(g, n, Neighbour(x, y, k).0, Neighbour(x, y, k).1)
    {
      SiblingIsNeighbour(g, n, x, y, k);
    }
  }

  lemma SiblingIsNeighbour(g: seq<bool>, n: nat, x: nat, y: nat, k: nat)
    requires |g| == n * n && x < n && y < n && !OnBorder(n, n, x, y) && k < 8
    ensures SiblingsDefined(g, n, n, x, y)
    ensures CrabsSiblings(g, n, n, x, y)[k] == LiveAt(g, n, Neighbour(x, y, k).0, Neighbour(x, y, k).1)
  {
    CellInBounds(g, n, n, x, y);
    var (a, b) := Neighbour(x, y, k);
    NeighbourIndexIsIndex(n, x, y, k);
    assert NeighbourIndex(n, x, y, k) == a + n * b;
  }

  lemma PickedAreLiveNeighbours(g: seq<bool>, n: nat, x: nat, y: nat, s: seq<bool>)
    requires |s| == 8
    requires forall k :: 0 <= k < 8 ==> s[k] == LiveAt(g, n, Neighbour(x, y, k).0, Neighbour(x, y, k).1)
    ensures LiveNeighbours(g, n, x, y) == Picked(s, x, y, 0)
  {
    forall p | p in LiveNeighbours(g, n, x, y)
      ensures p in Picked(s, x, y, 0)
    {
      var k := if p.1 == y - 1 then p.0 - x + 1
               else if p.1 == y then (if p.0 == x - 1 then 3 else 4)
               else p.0 - x + 6;
      assert Neighbour(x, y, k) == p;
    }
    forall p | p in Picked(s, x, y, 0)
      ensures p in LiveNeighbours(g, n, x, y)
    {
      var k :| 0 <= k < 8 && s[k] && Neighbour(x, y, k) == p;
    }
  }
}
