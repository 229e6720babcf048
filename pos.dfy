/** The position generator of src/server/src/pos.rs: an iterator over tile
    positions that fills a queue of ring vertices, turns each vertex into a
    run of tile positions, and hands those out from the front of a queue. */
module Positions {
  import opened Ints
  import opened Results
  import opened Tiles
  import opened Seqs

  /** The two unit directions of VERTICE_COUPLE: east, then south. */
  const VerticeCouple: seq<Position> := [Position(1, 0), Position(0, -1)]

  /** An `i32` as the unsigned value of its 32 two's-complement bits. */
  function ToU32(x: i32): u32
  {
    if x >= 0 then x else x + U32_LIMIT
  }

  /** The low 32 bits of `u` read back as a two's-complement `i32`. */
  function FromU32(u: nat): i32
  {
    var w := u % U32_LIMIT;
    if w <= I32_MAX then w else w - U32_LIMIT
  }

  /** Bitwise or of two naturals, bit by bit from the lowest. */
  function OrNat(a: nat, b: nat): nat
    decreases a + b
  {
    if a == 0 then b
    else if b == 0 then a
    else 2 * OrNat(a / 2, b / 2) + (if a % 2 == 1 || b % 2 == 1 then 1 else 0)
  }

  /** Rust's `|` on two `i32`s: the or of their two's-complement bits (which
      stays within 32 bits, so taking the low 32 bits loses nothing). */
  function Or32(a: i32, b: i32): i32
  {
    FromU32(OrNat(ToU32(a), ToU32(b)))
  }

  /** Or-ing with zero changes nothing, on either side. */
  lemma OrZero(a: i32)
    ensures Or32(a, 0) == a && Or32(0, a) == a
  {
  }

  /** The four vertices next_vertices appends for a ring of radius `s`. */
  function VertexRing(s: i32): (ring: seq<Position>)
    requires s != I32_MIN
    ensures |ring| == 4
    ensures forall k :: 0 <= k < 4 ==> (ring[k].x == 0 || ring[k].y == 0)
    ensures forall k :: 0 <= k < 4 ==> ring[k].x + ring[k].y == (if k == 0 || k == 3 then s else -s)
  {
    [Position(s, 0), Position(0, -s), Position(-s, 0), Position(0, s)]
  }

  /** The vertex queue once next_tiles has refilled it: the four vertices of
      the ring of radius `step` if it was empty, unchanged otherwise. */
  function Refill(vertices: seq<Position>, step: u32): (q: seq<Position>)
    requires vertices == [] ==> U32AsI32(step) != I32_MIN
    ensures |q| > 0
    ensures vertices != [] ==> q == vertices
  {
    if vertices == [] then VertexRing(U32AsI32(step)) else vertices
  }

  /** How many tiles a vertex stands for: the or of its coordinates; a
      negative count gives none. */
  function RunLength(v: Position): i32
  {
    Or32(v.x, v.y)
  }

  /** The run of `n` tiles fits in `i32` coordinates from `lp`. */
  predicate RunFits(lp: Position, n: i32)
  {
    n <= 0 || (lp.x + n - 1 <= I32_MAX && lp.y + n - 1 <= I32_MAX)
  }

  /** The positions next_tiles pushes for a vertex whose run length is `n`,
      seen from `lp`. */
  function TileRun(lp: Position, n: i32): (run: seq<Position>)
    requires RunFits(lp, n)
    ensures |run| == if n < 0 then 0 else n
  {
    seq(if n < 0 then 0 else n,
        i requires 0 <= i < n => Position(Or32(lp.x, lp.x + i), Or32(lp.y, lp.y + i)))
  }

  /** next_tiles does not panic: refilling the vertex queue does not
      overflow, and neither does the run of the vertex it consumes. */
  predicate TilesDefined(lp: Position, vertices: seq<Position>, step: u32)
  {
    && (vertices == [] ==> U32AsI32(step) != I32_MIN)
    && RunFits(lp, RunLength(Refill(vertices, step)[0]))
  }

  /** The tiles next_tiles pushes. */
  function NewTiles(lp: Position, vertices: seq<Position>, step: u32): seq<Position>
    requires TilesDefined(lp, vertices, step)
  {
    TileRun(lp, RunLength(Refill(vertices, step)[0]))
  }

  /** The tile queue `next` draws from: refilled by next_tiles only when
      empty. */
  function Pending(lp: Position, tiles: seq<Position>, vertices: seq<Position>, step: u32): seq<Position>
    requires tiles == [] ==> TilesDefined(lp, vertices, step)
  {
    if tiles == [] then NewTiles(lp, vertices, step) else tiles
  }

  /** `next` does not panic: it has a tile to take off the front. */
  predicate NextDefined(lp: Position, tiles: seq<Position>, vertices: seq<Position>, step: u32)
  {
    (tiles == [] ==> TilesDefined(lp, vertices, step)) && Pending(lp, tiles, vertices, step) != []
  }

  /** A ring's vertices count `s` tiles for the east and north vertices and
      `-s` (none) for the south and west ones. */
  lemma {:induction false} RingRunLengths(s: i32)
    requires s != I32_MIN
    ensures RunLength(VertexRing(s)[0]) == s && RunLength(VertexRing(s)[3]) == s
    ensures RunLength(VertexRing(s)[1]) == -s && RunLength(VertexRing(s)[2]) == -s
  {
    OrZero(s);
    OrZero(-s);
  }

  /** Seen from the origin, a run of `n` tiles is the diagonal (0,0) to
      (n-1,n-1). */
  lemma {:induction false} OriginRunDiagonal(n: i32)
    ensures RunFits(Origin, n)
    ensures forall i :: 0 <= i < n ==> TileRun(Origin, n)[i] == Position(i, i)
  {
    forall i | 0 <= i < n
      ensures TileRun(Origin, n)[i] == Position(i, i)
    {
      OrZero(i);
    }
  }

  /** A generator of step 0 has nothing to yield from empty queues: its
      ring is four copies of the origin, each of run length 0, so `next`
      panics. */
  lemma {:induction false} StepZeroCannotYield(lp: Position)
    ensures !NextDefined(lp, [], [], 0)
  {
    OrZero(0);
    assert Refill([], 0)[0] == Position(0, 0);
  }

  /** A fresh generator of step `s > 0` at the origin first hands out the
      diagonal (0,0) to (s-1,s-1). */
  lemma {:induction false} FirstRunIsDiagonal(step: u32)
    requires 0 < step <= I32_MAX
    ensures NextDefined(Origin, [], [], step)
    ensures var run := Pending(Origin, [], [], step);
            |run| == step && forall i :: 0 <= i < step ==> run[i] == Position(i, i)
  {
    RingRunLengths(step);
    OriginRunDiagonal(step);
  }

  class PosGenerator {
    var step: u32
    var lastPos: Position
    var tiles: seq<Position>
    var vertices: seq<Position>

    /** PosGenerator::new: empty queues at the origin. */
    constructor (step: u32)
      ensures this.step == step && lastPos == Origin && tiles == [] && vertices == []
    {
      this.step := step;
      tiles := [];
      vertices := [];
      lastPos := Origin;
    }

    /** total_pos: one plus the sum of `2 * i` for `i` below the step. */
    method TotalPos() returns (nbr: u32)
      requires TotalPosOf(step) <= U32_MAX
      ensures nbr == TotalPosOf(step) == 1 + step * (step - 1)
    {
      nbr := 1;
      var i := 0;
      while i < step
        invariant 0 <= i <= step
        invariant nbr == TotalPosOf(i)
      {
        TotalPosMono(i + 1, step);
        nbr := nbr + 2 * i;
        i := i + 1;
      }
      TotalPosClosedForm(step);
    }

    /** next_vertices: appends the four vertices of the ring of radius
        `step`, read as an `i32`, turning clockwise from east. */
    method NextVertices()
      modifies this
      requires U32AsI32(step) != I32_MIN
      ensures step == old(step) && lastPos == old(lastPos) && tiles == old(tiles)
      ensures vertices == old(vertices) + VertexRing(U32AsI32(step))
    {
      var s := U32AsI32(step);
      var sign: i32 := 1;
      var round := 0;
      while round < 2
        invariant 0 <= round <= 2
        invariant sign == if round % 2 == 0 then 1 else -1
        invariant vertices == old(vertices) + VertexRing(s)[..2 * round]
        invariant step == old(step) && lastPos == old(lastPos) && tiles == old(tiles)
      {
        var i := 0;
        while i < 2
          invariant 0 <= i <= 2
          invariant vertices == old(vertices) + VertexRing(s)[..2 * round + i]
          invariant step == old(step) && lastPos == old(lastPos) && tiles == old(tiles)
        {
          var c := VerticeCouple[i];
          var v := Position(c.x * sign * s, c.y * sign * s);
          assert VertexRing(s)[..2 * round + i + 1] == VertexRing(s)[..2 * round + i] + [v];
          vertices := vertices + [v];
          i := i + 1;
        }
        sign := sign * -1;
        round := round + 1;
      }
      assert VertexRing(s)[..4] == VertexRing(s);
    }

    /** next_tiles: refills the vertex queue only when it is empty, takes
        its first vertex, and pushes that vertex's run of tiles. */
    method NextTiles()
      modifies this
      requires TilesDefined(lastPos, vertices, step)
      ensures vertices == old(Refill(vertices, step))[1..]
      ensures tiles == old(tiles) + old(NewTiles(lastPos, vertices, step))
      ensures step == old(step) && lastPos == old(lastPos)
    {
      if |vertices| == 0 {
        NextVertices();
      }
      var v := vertices[0];
      vertices := vertices[1..];
      var run := PushRun(lastPos, RunLength(v));
      tiles := tiles + run;
    }

    /** The loop of next_tiles: the positions pushed for a run of `n` tiles
        seen from `lp`, in order. */
    static method PushRun(lp: Position, n: i32) returns (run: seq<Position>)
      requires RunFits(lp, n)
      ensures run == TileRun(lp, n)
    {
      ghost var spec := TileRun(lp, n);
      run := [];
      var i := 0;
      while i < n
        invariant 0 <= i <= |spec|
        invariant run == spec[..i]
      {
        var tile := Position(Or32(lp.x, lp.x + i), Or32(lp.y, lp.y + i));
        assert tile == spec[i];
        PrefixStep(spec, i);
        run := run + [tile];
        i := i + 1;
      }
      assert spec[..|spec|] == spec;
    }

    /** Iterator::next: refills the tile queue only when it is empty, then
        removes and returns its front. */
    method Next() returns (r: Option<Position>)
      modifies this
      requires NextDefined(lastPos, tiles, vertices, step)
      ensures var pending := old(Pending(lastPos, tiles, vertices, step));
              r == Some(pending[0]) && tiles == pending[1..]
      ensures vertices == if old(tiles) == [] then old(Refill(vertices, step))[1..] else old(vertices)
      ensures step == old(step) && lastPos == old(lastPos)
    {
      if |tiles| == 0 {
        NextTiles();
      }
      r := Some(tiles[0]);
      tiles := tiles[1..];
    }
  }

  /** The sum total_pos computes: one plus `2 * i` for each `i` below
      `step`. */
  function TotalPosOf(step: nat): nat
  {
    if step == 0 then 1 else TotalPosOf(step - 1) + 2 * (step - 1)
  }

  /** The sum has the closed form `1 + step * (step - 1)`. */
  lemma {:induction false} TotalPosClosedForm(step: nat)
    ensures TotalPosOf(step) == 1 + step * (step - 1)
  {
    if step > 0 {
      TotalPosClosedForm(step - 1);
      assert step * (step - 1) == (step - 1) * (step - 2) + 2 * (step - 1);
    }
  }

  /** The sum grows with the step. */
  lemma {:induction false} TotalPosMono(i: nat, j: nat)
    requires i <= j
    ensures TotalPosOf(i) <= TotalPosOf(j)
  {
    if i < j {
      TotalPosMono(i, j - 1);
    }
  }
}
