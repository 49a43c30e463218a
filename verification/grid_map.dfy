/** The tile map (src/map.rs): a row-major grid of ground types, cell lookups
    that treat everything off the map as `Empty`, single-cell setters, and the
    bounding-box line-of-sight test. */
module GridMap {
  import opened Geometry

  datatype GroundType = Empty | Grass | Water | Forest

  /** Row-major: the cell (x, y) is stored at index x + y * width. */
  datatype Map = Map(height: nat, width: nat, data: seq<GroundType>)

  /** A grid cell `(i32, i32)`; coordinates may be negative or off the map. */
  type Cell = (int, int)

  predicate Valid(m: Map) {
    |m.data| == m.width * m.height
  }

  /** a < b implies a * w + w <= b * w. */
  lemma {:induction false} MulStep(a: nat, b: nat, w: nat)
    requires a < b
    ensures a * w + w <= b * w
    decreases b
  {
    assert b * w == (b - 1) * w + w;
    if a < b - 1 {
      MulStep(a, b - 1, w);
    }
  }

  /** The row-major index of an on-map cell lies inside the data. */
  function CellIndex(m: Map, x: nat, y: nat): (i: nat)
    requires Valid(m)
    requires x < m.width && y < m.height
    ensures i < |m.data|
  {
    MulStep(y, m.height, m.width);
    x + y * m.width
  }

  /** Two cells in on-map columns with the same row-major index coincide. */
  lemma IndexInjective(m: Map, x1: nat, y1: nat, x2: nat, y2: nat)
    requires x1 < m.width && x2 < m.width
    requires x1 + y1 * m.width == x2 + y2 * m.width
    ensures x1 == x2 && y1 == y2
  {
    if y1 < y2 {
      MulStep(y1, y2, m.width);
      assert false;
    } else if y2 < y1 {
      MulStep(y2, y1, m.width);
      assert false;
    }
  }

  /** `Map::get_at`: the ground type of an on-map cell, `Empty` elsewhere. */
  function GetAt(m: Map, x: nat, y: nat): (g: GroundType)
    requires Valid(m)
    ensures x >= m.width || y >= m.height ==> g == Empty
    ensures x < m.width && y < m.height ==> g == m.data[CellIndex(m, x, y)]
  {
    if x >= m.width || y >= m.height then
      Empty
    else
      m.data[CellIndex(m, x, y)]
  }

  /** `Map::point_moveable`: units may stand on a cell exactly when it lies on
      the map and holds grass. */
  function PointMoveable(m: Map, c: Cell): (r: bool)
    requires Valid(m)
    ensures c.0 < 0 || c.1 < 0 ==> !r
    ensures c.0 >= m.width || c.1 >= m.height ==> !r
    ensures r <==> 0 <= c.0 < m.width && 0 <= c.1 < m.height && GetAt(m, c.0, c.1) == Grass
  {
    if c.0 < 0 || c.1 < 0 then
      false
    else
      GetAt(m, c.0, c.1) == Grass
  }

  /** Writes one ground type at the row-major index of (x, y). */
  function SetAt(m: Map, x: nat, y: nat, g: GroundType): (r: Map)
    requires Valid(m)
    requires x + y * m.width < |m.data|
    ensures Valid(r) && r.width == m.width && r.height == m.height
    ensures x < m.width ==> y < m.height && GetAt(r, x, y) == g
    ensures x < m.width ==> forall cx: nat, cy: nat :: (cx, cy) != (x, y) ==> GetAt(r, cx, cy) == GetAt(m, cx, cy)
  {
    var r := m.(data := m.data[x + y * m.width := g]);
    if x < m.width then
      assert y < m.height by {
        if m.height <= y {
          MulStep(m.height, y + 1, m.width);
        }
      }
      assert forall cx: nat, cy: nat :: (cx, cy) != (x, y) ==> GetAt(r, cx, cy) == GetAt(m, cx, cy) by {
        forall cx: nat, cy: nat | (cx, cy) != (x, y)
          ensures GetAt(r, cx, cy) == GetAt(m, cx, cy)
        {
          if cx < m.width && cy < m.height {
            if cx + cy * m.width == x + y * m.width {
              IndexInjective(m, cx, cy, x, y);
            }
          }
        }
      }
      r
    else
      r
  }

  /** `Map::set_water`: the cell stops being moveable and, for an on-map
      column, no other cell changes. An index past the data panics in the
      source, hence the precondition. */
  function SetWater(m: Map, x: nat, y: nat): (r: Map)
    requires Valid(m)
    requires x + y * m.width < |m.data|
    ensures Valid(r) && r.width == m.width && r.height == m.height
    ensures !PointMoveable(r, (x, y))
    ensures x < m.width ==> forall c: Cell :: c != (x, y) ==> PointMoveable(r, c) == PointMoveable(m, c)
  {
    SetAt(m, x, y, Water)
  }

  /** `Map::set_grass`: for an on-map column the cell becomes moveable and no
      other cell changes. */
  function SetGrass(m: Map, x: nat, y: nat): (r: Map)
    requires Valid(m)
    requires x + y * m.width < |m.data|
    ensures Valid(r) && r.width == m.width && r.height == m.height
    ensures x < m.width ==> PointMoveable(r, (x, y))
    ensures x < m.width ==> forall c: Cell :: c != (x, y) ==> PointMoveable(r, c) == PointMoveable(m, c)
  {
    SetAt(m, x, y, Grass)
  }

  function MinReal(a: real, b: real): real {
    if a <= b then a else b
  }

  function MaxReal(a: real, b: real): real {
    if a >= b then a else b
  }

  /** An inclusive rectangle of cells. */
  datatype Box = Box(minX: int, maxX: int, minY: int, maxY: int)

  /** The cells `line_of_sight` inspects: the bounding box of the two points,
      each lower side widened by half a cell when its fractional part is below
      0.25, each upper side when it is above 0.75, then truncated to cells. */
  function SightBox(p: Point, q: Point): (b: Box)
    ensures b.minX <= b.maxX && b.minY <= b.maxY
  {
    var minX := MinReal(p.x, q.x);
    var minY := MinReal(p.y, q.y);
    var maxX := MaxReal(p.x, q.x);
    var maxY := MaxReal(p.y, q.y);
    var minX' := if Fmod1(minX) < 0.25 then minX - 0.5 else minX;
    var minY' := if Fmod1(minY) < 0.25 then minY - 0.5 else minY;
    var maxX' := if Fmod1(maxX) > 0.75 then maxX + 0.5 else maxX;
    var maxY' := if Fmod1(maxY) > 0.75 then maxY + 0.5 else maxY;
    TruncMonotone(minX', maxX');
    TruncMonotone(minY', maxY');
    Box(Trunc(minX'), Trunc(maxX'), Trunc(minY'), Trunc(maxY'))
  }

  predicate InBox(b: Box, c: Cell) {
    b.minX <= c.0 <= b.maxX && b.minY <= c.1 <= b.maxY
  }

  /** Every cell of the box is moveable. */
  predicate BoxClear(m: Map, b: Box)
    requires Valid(m)
  {
    forall x: int, y: int | b.minX <= x <= b.maxX && b.minY <= y <= b.maxY :: PointMoveable(m, (x, y))
  }

  /** `Map::line_of_sight`: scans the sight box of the two points. */
  method LineOfSight(m: Map, p1: Point, p2: Point) returns (r: bool)
    requires Valid(m)
    ensures r <==> BoxClear(m, SightBox(p1, p2))
  {
    r := ScanBox(m, SightBox(p1, p2));
  }

  /** The nested loops of `line_of_sight`: column by column, answering false
      at the first blocked cell. */
  method ScanBox(m: Map, b: Box) returns (r: bool)
    requires Valid(m)
    ensures r <==> BoxClear(m, b)
  {
    var x := b.minX;
    while x < b.maxX + 1
      invariant b.minX <= x
      invariant b.minX <= b.maxX ==> x <= b.maxX + 1
      invariant forall cx: int, cy: int :: b.minX <= cx < x && b.minY <= cy <= b.maxY ==> PointMoveable(m, (cx, cy))
    {
      var y := b.minY;
      while y < b.maxY + 1
        invariant b.minY <= y
        invariant b.minY <= b.maxY ==> y <= b.maxY + 1
        invariant forall cy: int :: b.minY <= cy < y ==> PointMoveable(m, (x, cy))
      {
        if !PointMoveable(m, (x, y)) {
          return false;
        }
        y := y + 1;
      }
      x := x + 1;
    }
    return true;
  }

  /** The sight box does not depend on the order of the two points, so line
      of sight is symmetric. */
  lemma SightBoxSymmetric(m: Map, p: Point, q: Point)
    requires Valid(m)
    ensures SightBox(p, q) == SightBox(q, p)
    ensures BoxClear(m, SightBox(p, q)) <==> BoxClear(m, SightBox(q, p))
  {
    assert MinReal(p.x, q.x) == MinReal(q.x, p.x) && MaxReal(p.x, q.x) == MaxReal(q.x, p.x);
    assert MinReal(p.y, q.y) == MinReal(q.y, p.y) && MaxReal(p.y, q.y) == MaxReal(q.y, p.y);
  }

  /** Both endpoints' own cells lie in the sight box, so line of sight between
      two points requires both of their cells to be moveable. */
  lemma SightBoxHoldsEndpoints(m: Map, p: Point, q: Point)
    requires Valid(m)
    ensures InBox(SightBox(p, q), AsInt(p)) && InBox(SightBox(p, q), AsInt(q))
    ensures BoxClear(m, SightBox(p, q)) ==> PointMoveable(m, AsInt(p)) && PointMoveable(m, AsInt(q))
  {
    var minX := MinReal(p.x, q.x);
    var minY := MinReal(p.y, q.y);
    var maxX := MaxReal(p.x, q.x);
    var maxY := MaxReal(p.y, q.y);
    var minX' := if Fmod1(minX) < 0.25 then minX - 0.5 else minX;
    var minY' := if Fmod1(minY) < 0.25 then minY - 0.5 else minY;
    var maxX' := if Fmod1(maxX) > 0.75 then maxX + 0.5 else maxX;
    var maxY' := if Fmod1(maxY) > 0.75 then maxY + 0.5 else maxY;
    TruncMonotone(minX', p.x);
    TruncMonotone(minX', q.x);
    TruncMonotone(p.x, maxX');
    TruncMonotone(q.x, maxX');
    TruncMonotone(minY', p.y);
    TruncMonotone(minY', q.y);
    TruncMonotone(p.y, maxY');
    TruncMonotone(q.y, maxY');
  }

  /** A point well inside a grass cell (both fractional offsets in
      [0.25, 0.75]) sees itself: no widening happens and only its own cell is
      checked. */
  lemma CentredPointSeesItself(m: Map, p: Point)
    requires Valid(m)
    requires 0.25 <= Fmod1(p.x) <= 0.75 && 0.25 <= Fmod1(p.y) <= 0.75
    requires PointMoveable(m, AsInt(p))
    ensures SightBox(p, p) == Box(AsInt(p).0, AsInt(p).0, AsInt(p).1, AsInt(p).1)
    ensures BoxClear(m, SightBox(p, p))
  {
  }
}
