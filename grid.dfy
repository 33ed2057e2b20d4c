/**
 * The rectangular grid (`Map` in the game): row-major cell indices, the
 * bounds-checked index of a position, one clamped step in a direction, and
 * the cell indices covered by a square asteroid.
 */
module Grid {
  import opened Results
  import opened Directions

  /** One more than the largest `u32`. */
  const U32_LIMIT: int := 0x1_0000_0000

  /** Rust's 32-bit unsigned integer; arithmetic that leaves it panics. */
  type u32 = n: int | 0 <= n < 0x1_0000_0000

  /** A cell, by column `x` and row `y`. */
  datatype Position = Position(x: u32, y: u32)

  /** The two explicit panics of the bounds-checked index, in the order they are checked. */
  datatype BoundsError = WidthExceeded | HeightExceeded

  /** A square body: every cell within `radius` columns and rows of `position`. */
  datatype Asteroid = Asteroid(position: Position, radius: u32)

  datatype Map = Map(width: u32, height: u32) {

    /**
     * Neither dimension is zero (so `width - 1` and `height - 1` do not
     * underflow) and the cell count, hence every cell index, fits in a `u32`.
     */
    predicate Valid() {
      1 <= width && 1 <= height && width * height < U32_LIMIT
    }

    predicate Contains(p: Position) {
      p.x < width && p.y < height
    }
  }

  /** `y * w + x` is the row-major index of an in-grid cell and decodes back to `(x, y)`. */
  lemma {:induction false} RowMajor(w: nat, h: nat, x: nat, y: nat)
    requires x < w && y < h
    ensures y * w + x < w * h
    ensures (y * w + x) % w == x && (y * w + x) / w == y
  {
    assert (y + 1) * w == y * w + w;
    MulMonotone(y + 1, h, w);
    var n := y * w + x;
    var q, m := n / w, n % w;
    assert n == q * w + m;
    if q < y {
      MulMonotone(q + 1, y, w);
      assert false;
    } else if q > y {
      MulMonotone(y + 1, q, w);
      assert false;
    }
  }

  lemma MulMonotone(a: nat, b: nat, w: nat)
    requires a <= b
    ensures a * w <= b * w
  {
  }

  /**
   * Row-major index of an in-grid cell (`get_index`). The index lies inside
   * the cell buffer and dividing it by the width gives back the cell.
   */
  function Index(m: Map, column: u32, row: u32): (i: nat)
    requires m.Valid() && column < m.width && row < m.height
    ensures i < m.width * m.height
    ensures i % m.width == column && i / m.width == row
  {
    RowMajor(m.width, m.height, column, row);
    row * m.width + column
  }

  /** Distinct in-grid positions have distinct indices. */
  lemma IndexInjective(m: Map, p: Position, q: Position)
    requires m.Valid() && m.Contains(p) && m.Contains(q)
    ensures Index(m, p.x, p.y) == Index(m, q.x, q.y) <==> p == q
  {
  }

  /**
   * The bounds-checked index of a position (`get_index_from_position`): it
   * fails exactly for positions outside the grid, reporting the column first.
   */
  function IndexFromPosition(m: Map, p: Position): (r: Result<nat, BoundsError>)
    requires m.Valid()
    ensures r.Ok? <==> m.Contains(p)
    ensures r == Err(WidthExceeded) <==> p.x >= m.width
    ensures r.Ok? ==> r.value == Index(m, p.x, p.y) && r.value < m.width * m.height
  {
    if p.x > m.width - 1 then Err(WidthExceeded)
    else if p.y > m.height - 1 then Err(HeightExceeded)
    else Ok(Index(m, p.x, p.y))
  }

  /** An index below `w * h` lies in a row below `h`. */
  lemma RowOfIndex(w: nat, h: nat, i: nat)
    requires 1 <= w && i < w * h
    ensures i / w < h
  {
    var q := i / w;
    assert i == q * w + i % w;
  }

  /** The cell with index `i`: the inverse of `Index` on the cell buffer. */
  function PositionOfIndex(m: Map, i: nat): (p: Position)
    requires m.Valid() && i < m.width * m.height
    ensures m.Contains(p) && Index(m, p.x, p.y) == i
    ensures IndexFromPosition(m, p) == Ok(i)
  {
    RowOfIndex(m.width, m.height, i);
    Position(i % m.width, i / m.width)
  }

  /** Whether a step in direction `d` from `p` would leave the grid at its edge. */
  predicate AtEdge(m: Map, p: Position, d: Direction) {
    match d
    case Up => p.y == 0
    case Right => p.x == m.width - 1
    case Down => p.y == m.height - 1
    case Left => p.x == 0
  }

  /**
   * The step can be computed without `u32` underflow (`width - 1`,
   * `height - 1`) or overflow (`x + 1`, `y + 1`). Every in-grid position of a
   * valid map satisfies this.
   */
  predicate StepDefined(m: Map, p: Position, d: Direction) {
    match d
    case Up => true
    case Right => 1 <= m.width && (p.x == m.width - 1 || p.x + 1 < U32_LIMIT)
    case Down => 1 <= m.height && (p.y == m.height - 1 || p.y + 1 < U32_LIMIT)
    case Left => true
  }

  /**
   * One step in direction `d`, clamped at the grid's edges
   * (`position_in_direction`). The position stays put exactly at the edge
   * for that direction; otherwise exactly one coordinate moves by one in
   * that direction. In-grid positions stay in the grid; nothing wraps.
   */
  function Step(m: Map, p: Position, d: Direction): (r: Position)
    requires StepDefined(m, p, d)
    ensures r == p <==> AtEdge(m, p, d)
    ensures !AtEdge(m, p, d) ==> r.x == p.x + DeltaX(d) && r.y == p.y + DeltaY(d)
    ensures m.Contains(p) ==> m.Contains(r)
  {
    match d
    case Up => if p.y == 0 then Position(p.x, p.y) else Position(p.x, p.y - 1)
    case Right => if p.x == m.width - 1 then Position(p.x, p.y) else Position(p.x + 1, p.y)
    case Down => if p.y == m.height - 1 then Position(p.x, p.y) else Position(p.x, p.y + 1)
    case Left => if p.x == 0 then Position(p.x, p.y) else Position(p.x - 1, p.y)
  }

  /** Every in-grid position of a valid map can take a step in any direction. */
  lemma InGridStepDefined(m: Map, p: Position, d: Direction)
    requires m.Valid() && m.Contains(p)
    ensures StepDefined(m, p, d)
  {
  }

  /** Clamping is idempotent: a second step from the clamped position stays put. */
  lemma StepIdempotentAtEdge(m: Map, p: Position, d: Direction)
    requires StepDefined(m, p, d) && AtEdge(m, p, d)
    ensures StepDefined(m, Step(m, p, d), d) && Step(m, Step(m, p, d), d) == Step(m, p, d)
  {
  }

  /** The square's corners can be computed in `u32` without under- or overflow. */
  predicate NoWrap(a: Asteroid) {
    a.radius <= a.position.x && a.radius <= a.position.y
    && a.position.x + a.radius + 1 < U32_LIMIT && a.position.y + a.radius + 1 < U32_LIMIT
  }

  /** The asteroid's whole square lies inside the grid. */
  predicate FitsIn(m: Map, a: Asteroid) {
    a.position.x + a.radius < m.width && a.position.y + a.radius < m.height
  }

  /** Cell `i` of the buffer lies in the asteroid's square. */
  predicate InSquare(m: Map, a: Asteroid, i: nat)
    requires m.Valid()
  {
    i < m.width * m.height
    && a.position.x - a.radius <= i % m.width <= a.position.x + a.radius
    && a.position.y - a.radius <= i / m.width <= a.position.y + a.radius
  }

  predicate Increasing(s: seq<nat>) {
    forall j, k :: 0 <= j < k < |s| ==> s[j] < s[k]
  }

  /**
   * Cell `i` comes before cell `(x, y)` in a row-major walk over columns
   * `x0 .. x1 - 1` that starts at row `y0`.
   */
  predicate Visited(m: Map, x0: int, x1: int, y0: int, x: int, y: int, i: nat)
    requires m.Valid()
  {
    i < m.width * m.height && x0 <= i % m.width < x1 && y0 <= i / m.width
    && (i / m.width < y || (i / m.width == y && i % m.width < x))
  }

  /** Visiting the in-grid cell `(x, y)` adds exactly its index to the visited cells. */
  lemma VisitCell(m: Map, x0: int, x1: int, y0: int, x: u32, y: u32, i: nat)
    requires m.Valid() && m.Contains(Position(x, y)) && x0 <= x < x1 && y0 <= y
    ensures Visited(m, x0, x1, y0, x + 1, y, i) <==> Visited(m, x0, x1, y0, x, y, i) || i == Index(m, x, y)
  {
    var w := m.width;
    if i < w * m.height && i % w == x && i / w == y {
      assert i == (i / w) * w + i % w;
    }
  }

  /** Finishing a row is starting the next one. */
  lemma NextRow(m: Map, x0: int, x1: int, y0: int, y: int, i: nat)
    requires m.Valid()
    ensures Visited(m, x0, x1, y0, x1, y, i) <==> Visited(m, x0, x1, y0, x0, y + 1, i)
  {
  }

  /**
   * The indices of the asteroid's (2r+1) x (2r+1) square, row by row
   * (`get_asteroid_indexes`). Fails exactly when the square leaves the
   * grid; otherwise the indices are increasing, there are (2r+1)^2 of them,
   * and they are exactly the cells of the square.
   */
  method AsteroidIndexes(m: Map, a: Asteroid) returns (r: Result<seq<nat>, BoundsError>)
    requires m.Valid() && NoWrap(a)
    ensures r.Ok? <==> FitsIn(m, a)
    ensures r.Ok? ==> |r.value| == (2 * a.radius + 1) * (2 * a.radius + 1)
    ensures r.Ok? ==> Increasing(r.value)
    ensures r.Ok? ==> forall i :: i in r.value <==> InSquare(m, a, i)
  {
    var w := m.width;
    var x0, y0 := a.position.x - a.radius, a.position.y - a.radius;
    var x1, y1 := a.position.x + a.radius + 1, a.position.y + a.radius + 1;
    var side := x1 - x0;
    var indexes: seq<nat> := [];
    var y := y0;
    while y < y1
      invariant y0 <= y <= y1
      invariant |indexes| == (y - y0) * side
      invariant y > y0 ==> x1 <= w && y <= m.height
      invariant Increasing(indexes)
      invariant |indexes| > 0 ==> indexes[|indexes| - 1] < y * w
      invariant forall i :: i in indexes <==> Visited(m, x0, x1, y0, x0, y, i)
    {
      var x := x0;
      while x < x1
        invariant x0 <= x <= x1
        invariant |indexes| == (y - y0) * side + (x - x0)
        invariant x > x0 ==> x <= w && y < m.height
        invariant Increasing(indexes)
        invariant |indexes| > 0 ==> indexes[|indexes| - 1] < y * w + x
        invariant forall i :: i in indexes <==> Visited(m, x0, x1, y0, x, y, i)
      {
        var res := IndexFromPosition(m, Position(x, y));
        if res.Err? {
          return Err(res.error);
        }
        forall i | true
          ensures Visited(m, x0, x1, y0, x + 1, y, i) <==> Visited(m, x0, x1, y0, x, y, i) || i == res.value
        {
          VisitCell(m, x0, x1, y0, x, y, i);
        }
        indexes := indexes + [res.value];
        x := x + 1;
      }
      forall i | true
        ensures Visited(m, x0, x1, y0, x1, y, i) <==> Visited(m, x0, x1, y0, x0, y + 1, i)
      {
        NextRow(m, x0, x1, y0, y, i);
      }
      assert (y + 1) * w == y * w + w;
      assert (y + 1 - y0) * side == (y - y0) * side + side;
      y := y + 1;
    }
    return Ok(indexes);
  }
}
