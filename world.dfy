/** The `World` struct of src/main.rs: the automaton's two cell vectors, its
    fixed dimensions and colours, and the two operations that change state,
    `set_crab` and `draw`. The read-only operations are the functions of
    module `Generation`, applied to the snapshot `crabs[..]`. */
module Engine {
  import opened Primitives
  import opened Generation

  class World {
    const clearColor: Color
    const crabColor: Color
    const width: u32
    const height: u32
    /** The current generation. */
    const crabs: array<bool>
    /** The scratch vector `draw` writes the next generation into. */
    const crabBuffer: array<bool>

    /** Both vectors hold `width * height` cells and are separate. */
    predicate Valid()
    {
      crabs.Length == width * height && crabBuffer.Length == width * height && crabs != crabBuffer
    }

    /** `new`, with the random fill of the cells replaced by `seed`: no
        dimension is rejected, and a zero dimension gives an empty world. */
    constructor (clearColor: Color, crabColor: Color, width: u32, height: u32, seed: seq<bool>)
      requires |seed| == width * height
      ensures Valid() && fresh(crabs) && fresh(crabBuffer)
      ensures this.clearColor == clearColor && this.crabColor == crabColor
      ensures this.width == width && this.height == height
      ensures crabs[..] == seed
      ensures forall j :: 0 <= j < crabBuffer.Length ==> !crabBuffer[j]
    {
      this.clearColor := clearColor;
      this.crabColor := crabColor;
      this.width := width;
      this.height := height;
      this.crabs := new bool[width * height](j requires 0 <= j < |seed| => seed[j]);
      this.crabBuffer := new bool[width * height](_ => false);
    }

    /** `set_crab`: afterwards `get_crab(x, y)` returns `val`, and no other
        cell has changed. */
    method SetCrab(val: bool, x: nat, y: nat)
      requires Valid() && Index(height, x, y) < crabs.Length
      modifies crabs
      ensures Valid()
      ensures GetCrab(crabs[..], height, x, y) == val
      ensures forall j :: 0 <= j < crabs.Length && j != Index(height, x, y) ==> crabs[j] == old(crabs[j])
    {
      crabs[x + height * y] := val;
    }

    /** The first half of an iteration of `draw`: decode the loop index to
        a cell and evaluate the rule there. This is the run-time evaluation
        of `NextCell` on the current vector, which specifies it. */
    method ShouldLiveAt(i: nat) returns (shouldLive: bool)
      requires Valid() && EncodingFits(width, height) && i < crabs.Length
      ensures shouldLive == NextCell(crabs[..], width, height, i)
    {
      NextCellAt(crabs[..], width, height, i);
      var x := i % width;
      var y := i / width;
      shouldLive := ShouldCrabLive(crabs[..], width, height, x, y);
    }

    /** `draw`: one generation step with double buffering. Every cell of the
        scratch vector gets the rule evaluated on the untouched current
        generation and pixel `i` of the frame its colour; only then is the
        scratch vector copied over the current generation. Bytes of the frame
        past the last pixel are left alone. */
    method Draw(frame: array<byte>)
      requires Valid() && EncodingFits(width, height)
      requires 4 * crabs.Length <= frame.Length
      modifies crabs, crabBuffer, frame
      ensures Valid()
      ensures crabs[..] == Next(old(crabs[..]), width, height)
      ensures crabBuffer[..] == crabs[..]
      ensures frame[..4 * crabs.Length] == Render(crabs[..], crabColor, clearColor)
      ensures frame[4 * crabs.Length..] == old(frame[4 * crabs.Length..])
      ensures forall i :: 0 <= i < crabs.Length ==>
                frame[4 * i .. 4 * i + 4] == if crabs[i] then crabColor else clearColor
    {
      ComputeGeneration(frame);
      ghost var image := Render(crabBuffer[..], crabColor, clearColor);
      assert frame[..4 * crabs.Length] == image;
      CommitBuffer();
      forall i | 0 <= i < crabs.Length
        ensures frame[4 * i .. 4 * i + 4] == if crabs[i] then crabColor else clearColor
      {
        RenderPixel(crabs[..], crabColor, clearColor, i);
        assert frame[4 * i .. 4 * i + 4] == frame[..4 * crabs.Length][4 * i .. 4 * i + 4];
      }
    }

    /** The loop of `draw`: the scratch vector receives the next generation
        of the untouched current one, and the frame its image in front of
        the bytes it already held past the last pixel. */
    method ComputeGeneration(frame: array<byte>)
      requires Valid() && EncodingFits(width, height)
      requires 4 * crabs.Length <= frame.Length
      modifies crabBuffer, frame
      ensures crabBuffer[..] == Next(crabs[..], width, height)
      ensures frame[..] == Render(crabBuffer[..], crabColor, clearColor) + old(frame[4 * crabs.Length..])
    {
      ghost var next := Next(crabs[..], width, height);
      ghost var original := frame[..];
      for i := 0 to crabs.Length
        invariant forall j :: 0 <= j < i ==> crabBuffer[j] == next[j]
        invariant frame[..] == Render(next[..i], crabColor, clearColor) + original[4 * i..]
      {
        ghost var before := frame[..];
        DrawCell(frame, i);
        FrameStep(before, frame[..], next, original, crabColor, clearColor, i);
      }
      assert crabBuffer[..] == next;
      assert next[..crabs.Length] == next;
    }

    /** One iteration of the loop of `draw`: cell `i` of the scratch vector
        gets the rule evaluated on the current generation, and pixel `i` of
        the frame gets the matching colour. */
    method DrawCell(frame: array<byte>, i: nat)
      requires Valid() && EncodingFits(width, height)
      requires i < crabs.Length && 4 * crabs.Length <= frame.Length
      modifies crabBuffer, frame
      ensures crabBuffer[..] == old(crabBuffer[..])[i := NextCell(crabs[..], width, height, i)]
      ensures frame[..] == old(frame[..4 * i]) + (if crabBuffer[i] then crabColor else clearColor)
                           + old(frame[4 * i + 4..])
    {
      var shouldLive := ShouldLiveAt(i);
      crabBuffer[i] := shouldLive;
      if shouldLive {
        CopyPixel(frame, i, crabColor);
      } else {
        CopyPixel(frame, i, clearColor);
      }
    }

    /** The last statement of `draw`, `copy_from_slice`: the current
        generation becomes a copy of the scratch vector, which keeps its
        contents. */
    method CommitBuffer()
      requires Valid()
      modifies crabs
      ensures Valid()
      ensures crabs[..] == crabBuffer[..]
    {
      forall j | 0 <= j < crabs.Length {
        crabs[j] := crabBuffer[j];
      }
    }
  }

  /** The frame image of a generation: four bytes per cell, `crabColor` for
      a live cell and `clearColor` for a dead one. */
  function Render(cells: seq<bool>, crabColor: Color, clearColor: Color): (image: seq<byte>)
    ensures |image| == 4 * |cells|
  {
    if cells == [] then []
    else
      Render(cells[..|cells| - 1], crabColor, clearColor)
      + (if cells[|cells| - 1] then crabColor else clearColor)
  }

  /** One pixel more of the image: if the frame held the image of the first
      `i` cells followed by its original bytes, then writing the colour of cell
      `i` at pixel `i` leaves the image of the first `i + 1` cells followed by
      the original bytes. */
  lemma FrameStep(before: seq<byte>, after: seq<byte>, cells: seq<bool>, original: seq<byte>,
                  crabColor: Color, clearColor: Color, i: nat)
    requires i < |cells| && 4 * |cells| <= |original|
    requires before == Render(cells[..i], crabColor, clearColor) + original[4 * i..]
    requires after == before[..4 * i] + (if cells[i] then crabColor else clearColor) + before[4 * i + 4..]
    ensures after == Render(cells[..i + 1], crabColor, clearColor) + original[4 * (i + 1)..]
  {
    RenderStep(cells, crabColor, clearColor, i);
    Splice(before, Render(cells[..i], crabColor, clearColor), original,
           if cells[i] then crabColor else clearColor, 4 * i);
  }

  /** Overwriting the four bytes after a prefix `r` extends the prefix. */
  lemma Splice(before: seq<byte>, r: seq<byte>, original: seq<byte>, color: Color, n: nat)
    requires |r| == n && n + 4 <= |original| && before == r + original[n..]
    ensures before[..n] + color + before[n + 4..] == (r + color) + original[n + 4..]
  {
    assert before[..n] == r;
    assert before[n + 4..] == original[n + 4..];
  }

  /** Rendering one more cell appends its colour. */
  lemma RenderStep(cells: seq<bool>, crabColor: Color, clearColor: Color, i: nat)
    requires i < |cells|
    ensures Render(cells[..i + 1], crabColor, clearColor)
         == Render(cells[..i], crabColor, clearColor) + (if cells[i] then crabColor else clearColor)
  {
    assert cells[..i + 1][..i] == cells[..i];
  }

  /** Pixel `i` of the image is the colour of cell `i`, and of nothing else. */
  lemma {:induction false} RenderPixel(cells: seq<bool>, crabColor: Color, clearColor: Color, i: nat)
    requires i < |cells|
    ensures Render(cells, crabColor, clearColor)[4 * i .. 4 * i + 4] == if cells[i] then crabColor else clearColor
  {
    var init := cells[..|cells| - 1];
    if i < |cells| - 1 {
      RenderPixel(init, crabColor, clearColor, i);
    }
  }

  /** `copy_from_slice` of a colour into pixel `i`, bytes `4 * i` to
      `4 * i + 3`, of the frame. */
  method CopyPixel(frame: array<byte>, i: nat, color: Color)
    requires 4 * i + 4 <= frame.Length
    modifies frame
    ensures frame[..] == old(frame[..4 * i]) + color + old(frame[4 * i + 4..])
  {
    forall k | 0 <= k < 4 {
      frame[4 * i + k] := color[k];
    }
  }
}
