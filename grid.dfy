/** Pixel geometry of the playing field: points, the four headings, one step
    of the snake, the canvas bounds, and how a pair of `Math.random()` values
    becomes a food cell. */
module Grid {

  /** Side of one cell in pixels; every position the game produces is a multiple of it. */
  const SNAKE_SIZE: int := 20

  /** A position on the canvas, in pixels (y grows downwards). */
  datatype Point = Point(x: int, y: int)

  datatype Direction = Up | Down | Left | Right

  /** The 180-degree turn of a heading. */
  function Opposite(d: Direction): (r: Direction)
    ensures r != d
  {
    match d
    case Up => Down
    case Down => Up
    case Left => Right
    case Right => Left
  }

  /** The point one cell away from `p` in direction `d`. */
  function Step(p: Point, d: Direction): Point
  {
    match d
    case Up => p.(y := p.y - SNAKE_SIZE)
    case Down => p.(y := p.y + SNAKE_SIZE)
    case Left => p.(x := p.x - SNAKE_SIZE)
    case Right => p.(x := p.x + SNAKE_SIZE)
  }

  /** Two points one cell apart along exactly one axis. */
  predicate Adjacent(p: Point, q: Point)
  {
    (p.x == q.x && (q.y == p.y - SNAKE_SIZE || q.y == p.y + SNAKE_SIZE)) ||
    (p.y == q.y && (q.x == p.x - SNAKE_SIZE || q.x == p.x + SNAKE_SIZE))
  }

  /** A step reaches a neighbouring cell, and stepping back the opposite way undoes it. */
  lemma StepUndone(p: Point, d: Direction)
    ensures Adjacent(p, Step(p, d))
    ensures Step(Step(p, d), Opposite(d)) == p
  {
  }

  /** Canvas dimensions the game works with: positive multiples of the cell size. */
  predicate CanvasOk(width: int, height: int)
  {
    width > 0 && height > 0 && width % SNAKE_SIZE == 0 && height % SNAKE_SIZE == 0
  }

  /** Inside the canvas: the negation of the wall test of checkCollision. */
  predicate InBounds(p: Point, width: int, height: int)
  {
    0 <= p.x < width && 0 <= p.y < height
  }

  /** A value `Math.random()` can return. */
  predicate IsUnit(r: real)
  {
    0.0 <= r < 1.0
  }

  /** Two `Math.random()` results, one per axis. */
  datatype Draw = Draw(rx: real, ry: real)

  predicate DrawInRange(d: Draw)
  {
    IsUnit(d.rx) && IsUnit(d.ry)
  }

  /** `maxX` / `maxY` of placeFood: the number of cells along a side, less one. */
  function DrawSpan(extent: int): int
  {
    extent / SNAKE_SIZE - 1
  }

  /** `Math.floor(r * maxX) * SNAKE_SIZE`: one coordinate of a random food position
      for a canvas side of `extent` pixels. */
  function Scale(r: real, extent: int): int
  {
    (r * (DrawSpan(extent) as real)).Floor * SNAKE_SIZE
  }

  /** The cell named by a pair of random values. */
  function DrawnCell(d: Draw, width: int, height: int): Point
  {
    Point(Scale(d.rx, width), Scale(d.ry, height))
  }

  /** The largest coordinate `Scale` can produce along a side of `extent` pixels. */
  function DrawMax(extent: int): int
  {
    if extent / SNAKE_SIZE >= 2 then (extent / SNAKE_SIZE - 2) * SNAKE_SIZE else 0
  }

  /** A coordinate a drawn food cell can have: a multiple of the cell size in [0, DrawMax]. */
  predicate OnDrawGrid(v: int, extent: int)
  {
    0 <= v <= DrawMax(extent) && v % SNAKE_SIZE == 0
  }

  predicate FoodCellOk(p: Point, width: int, height: int)
  {
    OnDrawGrid(p.x, width) && OnDrawGrid(p.y, height)
  }

  /** A drawn coordinate is a cell boundary between 0 and DrawMax; in particular it
      lies inside the canvas and, once the side has two cells or more, never in
      its last cell. */
  lemma ScaleRange(r: real, extent: int)
    requires IsUnit(r) && extent > 0 && extent % SNAKE_SIZE == 0
    ensures OnDrawGrid(Scale(r, extent), extent)
    ensures 0 <= Scale(r, extent) < extent
    ensures extent >= 2 * SNAKE_SIZE ==> Scale(r, extent) < extent - SNAKE_SIZE
  {
    var n := DrawSpan(extent);
    assert n >= 0;
    var t := r * (n as real);
    assert 0.0 <= t;
    if n == 0 {
      assert t == 0.0;
      assert t.Floor == 0;
    } else {
      assert t < n as real by {
        assert (1.0 - r) * (n as real) > 0.0;
      }
      assert t.Floor as real <= t;
      assert 0 <= t.Floor < n;
    }
  }

  /** Conversely, every coordinate allowed by OnDrawGrid is produced by some random value,
      so the drawn coordinates are exactly the multiples of the cell size up to DrawMax. */
  lemma ScaleReaches(v: int, extent: int)
    requires extent > 0 && extent % SNAKE_SIZE == 0
    requires OnDrawGrid(v, extent)
    ensures exists r :: IsUnit(r) && Scale(r, extent) == v
  {
    var k := v / SNAKE_SIZE;
    assert v == k * SNAKE_SIZE;
    if DrawSpan(extent) == 0 {
      assert v == 0;
      assert Scale(0.0, extent) == v;
    } else {
      UnitFraction(k, DrawSpan(extent));
      ScaleAt((k as real) / (DrawSpan(extent) as real), k, extent);
    }
  }

  lemma ScaleAt(r: real, k: int, extent: int)
    requires r * (DrawSpan(extent) as real) == k as real
    ensures Scale(r, extent) == k * SNAKE_SIZE
  {
  }

  /** k / n is a possible `Math.random()` value when 0 <= k < n, and scaling it by n gives k back. */
  lemma UnitFraction(k: int, n: int)
    requires 0 <= k < n
    ensures IsUnit((k as real) / (n as real))
    ensures (k as real) / (n as real) * (n as real) == k as real
  {
    var r := (k as real) / (n as real);
    assert r * (n as real) == k as real;
    BelowOne(k, n, r);
  }

  lemma BelowOne(k: int, n: int, r: real)
    requires 0 <= k < n && r * (n as real) == k as real
    ensures IsUnit(r)
  {
  }

  /** A drawn cell satisfies FoodCellOk and is inside the canvas. */
  lemma DrawnCellOk(d: Draw, width: int, height: int)
    requires DrawInRange(d) && CanvasOk(width, height)
    ensures FoodCellOk(DrawnCell(d, width, height), width, height)
    ensures InBounds(DrawnCell(d, width, height), width, height)
  {
    ScaleRange(d.rx, width);
    ScaleRange(d.ry, height);
  }
}
