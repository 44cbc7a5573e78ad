/** The read-only half of `World` (src/main.rs): the cell lookup, the
    neighbour enumeration and the birth/survival rule, written as functions
    of one generation `crabs` (a snapshot of the `crabs` vector), together
    with `Next`, the generation that one `draw` call computes from it.

    Every access encodes cell (x, y) as `x + height * y`, while `draw`
    decodes its loop index `i` as `(i % width, i / width)`; both are kept
    as the source writes them. */
module Generation {

  /** Storage index of cell (x, y), as every access in the source computes it. */
  function Index(height: int, x: int, y: int): int
  {
    x + height * y
  }

  /** Offsets (dx, dy) of the Moore neighbours, in the order the siblings
      are returned:
        0 1 2
        3 _ 4
        5 6 7 */
  const Offsets: seq<(int, int)> :=
    [(-1, -1), (0, -1), (1, -1), (-1, 0), (1, 0), (-1, 1), (0, 1), (1, 1)]

  /** Storage index of neighbour number `k` of cell (x, y): the source's
      `(x + dx) + height * (y + dy)`, multiplied out for each offset. */
  function NeighbourIndex(height: int, x: int, y: int, k: nat): int
    requires k < 8
  {
    var i := Index(height, x, y);
    [i - height - 1, i - height, i - height + 1, i - 1, i + 1, i + height - 1, i + height, i + height + 1][k]
  }

  /** `NeighbourIndex` is the index of the cell at offset `k`. */
  lemma NeighbourIndexIsIndex(height: int, x: int, y: int, k: nat)
    requires k < 8
    ensures NeighbourIndex(height, x, y, k) == Index(height, x + Offsets[k].0, y + Offsets[k].1)
  {
    assert height * (y - 1) == height * y - height;
    assert height * (y + 1) == height * y + height;
  }

  /** The border test of `get_crabs_siblings`: such a cell gets no neighbours. */
  predicate OnBorder(width: nat, height: nat, x: nat, y: nat)
  {
    x == 0 || y == 0 || y >= height - 1 || x >= width - 1
  }

  /** On a cell inside the grid the border test picks exactly the outer
      ring: first or last column, first or last row. */
  lemma OnBorderInGrid(width: nat, height: nat, x: nat, y: nat)
    requires x < width && y < height
    ensures OnBorder(width, height, x, y) <==> x == 0 || y == 0 || x == width - 1 || y == height - 1
  {
  }

  /** The index of cell (x, y) is inside the vector (else indexing panics). */
  predicate InBounds(crabs: seq<bool>, height: nat, x: nat, y: nat)
  {
    Index(height, x, y) < |crabs|
  }

  /** `get_crab`: the state of cell (x, y). */
  function GetCrab(crabs: seq<bool>, height: nat, x: nat, y: nat): bool
    requires InBounds(crabs, height, x, y)
  {
    crabs[Index(height, x, y)]
  }

  /** `get_crab` after `set_crab`: the cell written reads back as `val`, and
      every cell stored at another index reads as before. */
  lemma GetCrabAfterSet(crabs: seq<bool>, height: nat, x: nat, y: nat, val: bool)
    requires InBounds(crabs, height, x, y)
    ensures GetCrab(crabs[Index(height, x, y) := val], height, x, y) == val
    ensures forall a: nat, b: nat :: InBounds(crabs, height, a, b) && Index(height, a, b) != Index(height, x, y) ==>
              GetCrab(crabs[Index(height, x, y) := val], height, a, b) == GetCrab(crabs, height, a, b)
  {
  }

  /** What `get_crabs_siblings` needs in order not to panic: the `usize`
      subtractions `height - 1` and `width - 1` do not underflow whenever
      the short-circuiting border test reaches them, and for an interior
      cell all eight reads are inside the vector. */
  predicate SiblingsDefined(crabs: seq<bool>, width: nat, height: nat, x: nat, y: nat)
  {
    && (x != 0 && y != 0 ==> height >= 1)
    && (x != 0 && y != 0 && y < height - 1 ==> width >= 1)
    && (!OnBorder(width, height, x, y) ==>
          forall k :: 0 <= k < 8 ==> 0 <= NeighbourIndex(height, x, y, k) < |crabs|)
  }

  /** For an interior cell neither subtraction underflows, and the eight
      reads stay inside the vector exactly when the bottom-right one does. */
  lemma SiblingsDefinedExactly(crabs: seq<bool>, width: nat, height: nat, x: nat, y: nat)
    requires !OnBorder(width, height, x, y)
    ensures SiblingsDefined(crabs, width, height, x, y) <==> Index(height, x + 1, y + 1) < |crabs|
  {
    assert height * y >= height by { MulMonotone(1, y, height); }
    assert height * (y + 1) == height * y + height;
    assert NeighbourIndex(height, x, y, 7) == Index(height, x + 1, y + 1);
    if Index(height, x + 1, y + 1) < |crabs| {
      forall k | 0 <= k < 8
        ensures 0 <= NeighbourIndex(height, x, y, k) < |crabs|
      {
      }
    }
  }

  /** `get_crabs_siblings`: no neighbours at all for a border cell, otherwise
      the eight Moore neighbours in the order of `Offsets`. */
  function CrabsSiblings(crabs: seq<bool>, width: nat, height: nat, x: nat, y: nat): (siblings: seq<bool>)
    requires SiblingsDefined(crabs, width, height, x, y)
    ensures |siblings| == if OnBorder(width, height, x, y) then 0 else 8
    ensures !OnBorder(width, height, x, y) ==>
              forall k :: 0 <= k < 8 ==> siblings[k] == crabs[NeighbourIndex(height, x, y, k)]
  {
    if OnBorder(width, height, x, y) then []
    else
      [ crabs[NeighbourIndex(height, x, y, 0)], crabs[NeighbourIndex(height, x, y, 1)],
        crabs[NeighbourIndex(height, x, y, 2)], crabs[NeighbourIndex(height, x, y, 3)],
        crabs[NeighbourIndex(height, x, y, 4)], crabs[NeighbourIndex(height, x, y, 5)],
        crabs[NeighbourIndex(height, x, y, 6)], crabs[NeighbourIndex(height, x, y, 7)] ]
  }

  /** For an interior cell the eight neighbours and the cell itself are nine
      different storage cells, so no cell is counted twice or as its own
      neighbour. */
  lemma SiblingCellsDistinct(width: nat, height: nat, x: nat, y: nat)
    requires !OnBorder(width, height, x, y)
    ensures forall k :: 0 <= k < 8 ==> NeighbourIndex(height, x, y, k) != Index(height, x, y)
    ensures forall k, m :: 0 <= k < m < 8 ==>
              NeighbourIndex(height, x, y, k) != NeighbourIndex(height, x, y, m)
  {
    assert height >= 3;
    assert height * (y - 1) == height * y - height;
    assert height * (y + 1) == height * y + height;
  }

  /** One for a live cell, zero for a dead one. */
  function Tally(alive: bool): nat
  {
    if alive then 1 else 0
  }

  /** The number of live cells in `s` (`filter(|c| *c).count()`). */
  function LiveCount(s: seq<bool>): (n: nat)
    ensures n <= |s|
  {
    if s == [] then 0
    else
      var init := s[..|s| - 1];
      assert s == init + [s[|s| - 1]];
      LiveCount(init) + Tally(s[|s| - 1])
  }

  /** The count read from the front: the first cell, then the rest. */
  lemma {:induction false} LiveCountCons(s: seq<bool>)
    requires s != []
    ensures LiveCount(s) == Tally(s[0]) + LiveCount(s[1..])
    decreases |s|
  {
    if |s| > 1 {
      var init := s[..|s| - 1];
      LiveCountCons(init);
      assert init[1..] == s[1..][..|s| - 2];
    }
  }

  /** `LiveCount` counts exactly the occurrences of `true`. */
  lemma {:induction false} LiveCountIsMultiplicity(s: seq<bool>)
    ensures LiveCount(s) == multiset(s)[true]
  {
    if s != [] {
      var init := s[..|s| - 1];
      assert s == init + [s[|s| - 1]];
      LiveCountIsMultiplicity(init);
    }
  }

  /** The live-neighbour count of `should_crab_live`: at most 8, and 0 on the border. */
  function LiveSiblingCount(crabs: seq<bool>, width: nat, height: nat, x: nat, y: nat): (alive: nat)
    requires SiblingsDefined(crabs, width, height, x, y)
    ensures alive <= 8
    ensures OnBorder(width, height, x, y) ==> alive == 0
  {
    LiveCount(CrabsSiblings(crabs, width, height, x, y))
  }

  /** `should_crab_live`: a live cell survives with 2 or 3 live neighbours,
      a dead cell is born with exactly 3; every border cell dies. */
  function ShouldCrabLive(crabs: seq<bool>, width: nat, height: nat, x: nat, y: nat): (live: bool)
    requires InBounds(crabs, height, x, y) && SiblingsDefined(crabs, width, height, x, y)
    ensures OnBorder(width, height, x, y) ==> !live
    ensures live <==>
              || (GetCrab(crabs, height, x, y) && LiveSiblingCount(crabs, width, height, x, y) in {2, 3})
              || (!GetCrab(crabs, height, x, y) && LiveSiblingCount(crabs, width, height, x, y) == 3)
  {
    var alive := LiveSiblingCount(crabs, width, height, x, y);
    if GetCrab(crabs, height, x, y) then alive == 2 || alive == 3 else alive == 3
  }

  /** The grids on which the source's encoding `x + height * y` of every
      cell (x, y) with x < width and y < height lands inside a vector of
      `width * height` cells (see `EncodingFitsExactly`). */
  predicate EncodingFits(width: nat, height: nat)
  {
    width == 0 || height <= width || height == 1
  }

  lemma EncodeInBounds(width: nat, height: nat, x: nat, y: nat)
    requires EncodingFits(width, height) && x < width && y < height
    ensures 0 <= Index(height, x, y) < width * height
  {
    if height != 1 {
      assert height * y <= width * y by { MulMonotone(height, width, y); }
      assert width * (y + 1) <= width * height by { MulMonotone(y + 1, height, width); }
    }
  }

  lemma MulMonotone(a: nat, b: nat, c: nat)
    requires a <= b
    ensures a * c <= b * c && c * a <= c * b
  {
  }

  /** `EncodingFits` is exactly the condition under which every in-grid cell
      is stored inside the vector; otherwise the last cell, which `draw`
      visits, is out of bounds. */
  lemma EncodingFitsExactly(width: nat, height: nat)
    ensures EncodingFits(width, height) <==>
              forall x: nat, y: nat :: x < width && y < height ==> Index(height, x, y) < width * height
  {
    if EncodingFits(width, height) {
      forall x: nat, y: nat | x < width && y < height
        ensures Index(height, x, y) < width * height
      {
        EncodeInBounds(width, height, x, y);
      }
    } else {
      CornerOutside(width, height);
    }
  }

  /** Off `EncodingFits`, the bottom-right cell is stored past the vector. */
  lemma CornerOutside(width: nat, height: nat)
    requires !EncodingFits(width, height)
    ensures 1 <= width < height
    ensures Index(height, width - 1, height - 1) >= width * height
  {
    var y := height - 1;
    assert height * y >= (width + 1) * y by { MulMonotone(width + 1, height, y); }
    assert (width + 1) * y == width * y + y;
    assert width * height == width * y + width;
  }

  /** Off `EncodingFits`, the last loop index of `draw` decodes to the
      bottom-right cell, which `get_crab` looks up outside the vector: a
      non-empty `draw` on such a board panics there at the latest. */
  lemma LastCellOutside(crabs: seq<bool>, width: nat, height: nat)
    requires !EncodingFits(width, height) && |crabs| == width * height
    ensures 0 < width && 0 < |crabs|
    ensures var i := |crabs| - 1; !InBounds(crabs, height, i % width, i / width)
  {
    CornerOutside(width, height);
    assert width * height >= width by { MulMonotone(1, height, width); }
    assert width * (height - 1) == width * height - width;
    DecodeEncode(width, width - 1, height - 1);
  }

  /** Every cell inside the grid can be read, and so can its neighbours. */
  lemma CellInBounds(crabs: seq<bool>, width: nat, height: nat, x: nat, y: nat)
    requires EncodingFits(width, height) && |crabs| == width * height
    requires x < width && y < height
    ensures InBounds(crabs, height, x, y) && SiblingsDefined(crabs, width, height, x, y)
  {
    EncodeInBounds(width, height, x, y);
    if !OnBorder(width, height, x, y) {
      forall k | 0 <= k < 8
        ensures 0 <= NeighbourIndex(height, x, y, k) < |crabs|
      {
        EncodeInBounds(width, height, x + Offsets[k].0, y + Offsets[k].1);
        NeighbourIndexIsIndex(height, x, y, k);
      }
    }
  }

  /** The loop index `i` of `draw` decodes to a cell inside the grid. */
  lemma DecodeInGrid(width: nat, height: nat, i: nat)
    requires i < width * height
    ensures width >= 1 && height >= 1
    ensures i % width < width && i / width < height
  {
    assert width != 0 && height != 0;
    var x, y := i % width, i / width;
    assert i == width * y + x;
    if y >= height {
      MulMonotone(height, y, width);
      assert false;
    }
  }

  /** On a board of `n` columns, the encoding of a column `x < n` is undone
      by draw's decoding. */
  lemma DecodeEncode(n: nat, x: nat, y: nat)
    requires x < n
    ensures Index(n, x, y) % n == x && Index(n, x, y) / n == y
  {
    var i := x + n * y;
    var q, r := i / n, i % n;
    assert n * q + r == n * y + x;
    if q < y {
      MulMonotone(q + 1, y, n);
      assert false;
    } else if q > y {
      MulMonotone(y + 1, q, n);
      assert false;
    }
  }

  /** Draw's decoding `(i % width, i / width)` leads every loop index back to
      the cell stored at `i` exactly when the board is square or has at most
      one row (or no column); otherwise loop index `width` reads the cell at
      `height`. */
  lemma DecodeEncodeExactly(width: nat, height: nat)
    ensures (forall i: nat :: 0 < width && i < width * height ==> Index(height, i % width, i / width) == i)
        <==> (width == height || height <= 1 || width == 0)
  {
    if width == height {
      forall i: nat | 0 < width && i < width * height
        ensures Index(height, i % width, i / width) == i
      {
      }
    } else if height == 1 {
      forall i: nat | 0 < width && i < width * height
        ensures Index(height, i % width, i / width) == i
      {
        DecodeEncode(width, i, 0);
      }
    } else if height > 1 && width > 0 {
      DecodeEncode(width, 0, 1);
      MulMonotone(2, height, width);
      assert Index(height, width % width, width / width) != width;
    }
  }

  /** The state of cell `i` after one `draw`: the rule applied at
      `(i % width, i / width)` of the old generation. */
  function NextCell(crabs: seq<bool>, width: nat, height: nat, i: nat): bool
    requires EncodingFits(width, height) && |crabs| == width * height && i < |crabs|
  {
    DecodeInGrid(width, height, i);
    CellInBounds(crabs, width, height, i % width, i / width);
    ShouldCrabLive(crabs, width, height, i % width, i / width)
  }

  /** Cell `i` of the next generation is the rule at its decoded coordinates,
      which are in the grid and whose siblings can be read. */
  lemma NextCellAt(crabs: seq<bool>, width: nat, height: nat, i: nat)
    requires EncodingFits(width, height) && |crabs| == width * height && i < |crabs|
    ensures width >= 1 && 0 <= i % width && 0 <= i / width
    ensures InBounds(crabs, height, i % width, i / width)
    ensures SiblingsDefined(crabs, width, height, i % width, i / width)
    ensures NextCell(crabs, width, height, i) == ShouldCrabLive(crabs, width, height, i % width, i / width)
  {
    DecodeInGrid(width, height, i);
    CellInBounds(crabs, width, height, i % width, i / width);
  }

  /** The generation one `draw` computes. */
  function Next(crabs: seq<bool>, width: nat, height: nat): (next: seq<bool>)
    requires EncodingFits(width, height) && |crabs| == width * height
    ensures |next| == |crabs|
  {
    seq(|crabs|, i requires 0 <= i < |crabs| => NextCell(crabs, width, height, i))
  }

  /** Every border cell is dead after a step, whatever its state before. */
  lemma BorderCellsDie(crabs: seq<bool>, width: nat, height: nat, i: nat)
    requires EncodingFits(width, height) && |crabs| == width * height && i < |crabs|
    requires 0 < width && OnBorder(width, height, i % width, i / width)
    ensures !Next(crabs, width, height)[i]
  {
    NextCellAt(crabs, width, height, i);
  }
}
