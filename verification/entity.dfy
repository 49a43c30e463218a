/** A unit of the world (src/entity.rs): pairwise separation from close
    neighbours and the correction that keeps it out of blocked cells. */
module Entities {
  import opened Wrappers
  import opened Geometry
  import opened GridMap

  /** An entity: its location and the id its holder gave it. */
  datatype Entity = Entity(location: Point, id: nat)

  /** Two entities closer than this push each other apart. */
  const MaxDist: real := 0.55

  /** How close to a cell edge (as a fraction of a cell) an entity may come
      when the neighbour across that edge is blocked. */
  const Threshold: real := 0.25

  /** `Entity::add_force_vect`: the location is translated by exactly the force. */
  function AddForceVect(e: Entity, force: Vector): (r: Entity)
    ensures DistTo(r.location, e.location) == force
    ensures r.id == e.id
  {
    e.(location := Added(e.location, force))
  }

  /** `Entity::interact_with`: the push `self` receives from `other`. Its
      direction is that of `distVect(self, other)` and its size grows linearly
      from 0 at distance 0.55 to 0.055 at distance 0; coincident entities and
      entities at least 0.55 apart do not push. `distVect` stands for
      `Point::dist_vect`, which is not part of this model. */
  function InteractWith(self: Entity, other: Entity, len: Vector -> real, distVect: (Point, Point) -> Vector)
    : (r: Option<Vector>)
    requires IsLength(len)
    ensures distVect(self.location, other.location) == Zero ==> r == None
    ensures len(distVect(self.location, other.location)) >= MaxDist ==> r == None
    ensures r.Some? <==> 0.0 < len(distVect(self.location, other.location)) < MaxDist
    ensures r.Some? ==>
      var d := distVect(self.location, other.location);
      && len(r.value) == (MaxDist - len(d)) * 0.1
      && 0.0 < len(r.value) < 0.055
      && r.value == Multiplied(d, (MaxDist - len(d)) * 0.1 / len(d))
  {
    var d := distVect(self.location, other.location);
    var distance := len(d);
    if distance == 0.0 then
      None
    else if distance < MaxDist then
      var k := (MaxDist - distance) * 0.1;
      var moveVect := Multiplied(Normalized(d, len), k);
      ScaledUnit(d, k, len);
      Some(moveVect)
    else
      None
  }

  /** Scaling the unit vector of a non-zero d by k > 0 gives a vector of
      length k along d. */
  lemma ScaledUnit(d: Vector, k: real, len: Vector -> real)
    requires IsLength(len)
    requires d != Zero && 0.0 < k
    ensures len(Multiplied(Normalized(d, len), k)) == k
    ensures Multiplied(Normalized(d, len), k) == Multiplied(d, k / len(d))
  {
    var n := Normalized(d, len);
    assert len(Multiplied(n, k)) == Abs(k) * len(n);
    assert n == Multiplied(d, 1.0 / len(d));
    assert d.x * (1.0 / len(d)) * k == d.x * (k / len(d));
    assert d.y * (1.0 / len(d)) * k == d.y * (k / len(d));
  }

  /** The first correction step of `interact_with_map`: when the entity's own
      cell is blocked it moves 0.1 along the axis on which it is farther from
      the cell centre (ties go to y), toward the nearer edge of that axis. */
  function PushOutOfBlocked(m: Map, p: Point): (r: Point)
    requires Valid(m)
    ensures PointMoveable(m, AsInt(p)) ==> r == p
    ensures !PointMoveable(m, AsInt(p)) && Abs(Fmod1(p.x) - 0.5) > Abs(Fmod1(p.y) - 0.5) ==>
      r.y == p.y && r.x == (if Fmod1(p.x) > 0.5 then p.x + 0.1 else p.x - 0.1)
    ensures !PointMoveable(m, AsInt(p)) && Abs(Fmod1(p.x) - 0.5) <= Abs(Fmod1(p.y) - 0.5) ==>
      r.x == p.x && r.y == (if Fmod1(p.y) > 0.5 then p.y + 0.1 else p.y - 0.1)
    ensures Abs(r.x - p.x) + Abs(r.y - p.y) == (if PointMoveable(m, AsInt(p)) then 0.0 else 0.1)
  {
    var locXRem := Fmod1(p.x);
    var locYRem := Fmod1(p.y);
    if PointMoveable(m, AsInt(p)) then
      p
    else if Abs(locXRem - 0.5) > Abs(locYRem - 0.5) then
      if locXRem > 0.5 then Added(p, Vector(0.1, 0.0)) else Added(p, Vector(-0.1, 0.0))
    else
      if locYRem > 0.5 then Added(p, Vector(0.0, 0.1)) else Added(p, Vector(0.0, -0.1))
  }

  /** The side step of `interact_with_map`. `c`, `rx` and `ry` are the cell and
      fractional offsets of the location before any correction: an offset
      within 0.25 of an edge whose neighbour is blocked is clamped to 0.25 from
      that edge of the current cell; otherwise the coordinate is kept. */
  function ClampSides(m: Map, p: Point, c: Cell, rx: real, ry: real): (r: Point)
    requires Valid(m)
    ensures rx < Threshold && !PointMoveable(m, (c.0 - 1, c.1)) ==> r.x == Trunc(p.x) as real + Threshold
    ensures rx > 1.0 - Threshold && !PointMoveable(m, (c.0 + 1, c.1)) ==> r.x == Trunc(p.x) as real + 1.0 - Threshold
    ensures ry < Threshold && !PointMoveable(m, (c.0, c.1 - 1)) ==> r.y == Trunc(p.y) as real + Threshold
    ensures ry > 1.0 - Threshold && !PointMoveable(m, (c.0, c.1 + 1)) ==> r.y == Trunc(p.y) as real + 1.0 - Threshold
    ensures ((rx < Threshold ==> PointMoveable(m, (c.0 - 1, c.1)))
          && (rx > 1.0 - Threshold ==> PointMoveable(m, (c.0 + 1, c.1)))) ==> r.x == p.x
    ensures ((ry < Threshold ==> PointMoveable(m, (c.0, c.1 - 1)))
          && (ry > 1.0 - Threshold ==> PointMoveable(m, (c.0, c.1 + 1)))) ==> r.y == p.y
  {
    var x1 := if rx < Threshold && !PointMoveable(m, (c.0 - 1, c.1)) then Trunc(p.x) as real + Threshold else p.x;
    var x2 := if rx > 1.0 - Threshold && !PointMoveable(m, (c.0 + 1, c.1)) then Trunc(x1) as real + 1.0 - Threshold else x1;
    var y1 := if ry < Threshold && !PointMoveable(m, (c.0, c.1 - 1)) then Trunc(p.y) as real + Threshold else p.y;
    var y2 := if ry > 1.0 - Threshold && !PointMoveable(m, (c.0, c.1 + 1)) then Trunc(y1) as real + 1.0 - Threshold else y1;
    Point(x2, y2)
  }

  /** Whether the corner clamp toward the diagonal neighbour (c.0 + dx, c.1 + dy)
      fires: both offsets within 0.25 of that corner and the neighbour blocked. */
  predicate CornerBlocked(m: Map, c: Cell, rx: real, ry: real, dx: int, dy: int)
    requires Valid(m)
  {
    && (if dx < 0 then rx < Threshold else rx > 1.0 - Threshold)
    && (if dy < 0 then ry < Threshold else ry > 1.0 - Threshold)
    && !PointMoveable(m, (c.0 + dx, c.1 + dy))
  }

  /** The corner step of `interact_with_map`: at most one corner can fire, and
      it sets exactly one coordinate, y when the x offset is farther from the
      centre than the y offset (`ax`, `ay`), x otherwise. */
  function ClampCorners(m: Map, p: Point, c: Cell, rx: real, ry: real, ax: real, ay: real): (r: Point)
    requires Valid(m)
    ensures r.x == p.x || r.y == p.y
    ensures (!CornerBlocked(m, c, rx, ry, -1, -1) && !CornerBlocked(m, c, rx, ry, 1, -1)
          && !CornerBlocked(m, c, rx, ry, -1, 1) && !CornerBlocked(m, c, rx, ry, 1, 1)) ==> r == p
    ensures CornerBlocked(m, c, rx, ry, -1, -1) ==>
      r == (if ax > ay then p.(y := Trunc(p.y) as real + Threshold) else p.(x := Trunc(p.x) as real + Threshold))
    ensures CornerBlocked(m, c, rx, ry, 1, -1) ==>
      r == (if ax > ay then p.(y := Trunc(p.y) as real + Threshold) else p.(x := Trunc(p.x) as real + 1.0 - Threshold))
    ensures CornerBlocked(m, c, rx, ry, -1, 1) ==>
      r == (if ax > ay then p.(y := Trunc(p.y) as real + 1.0 - Threshold) else p.(x := Trunc(p.x) as real + Threshold))
    ensures CornerBlocked(m, c, rx, ry, 1, 1) ==>
      r == (if ax > ay then p.(y := Trunc(p.y) as real + 1.0 - Threshold) else p.(x := Trunc(p.x) as real + 1.0 - Threshold))
  {
    var p1 :=
      if rx < Threshold && ry < Threshold && !PointMoveable(m, (c.0 - 1, c.1 - 1)) then
        if ax > ay then p.(y := Trunc(p.y) as real + Threshold) else p.(x := Trunc(p.x) as real + Threshold)
      else p;
    var p2 :=
      if rx > 1.0 - Threshold && ry < Threshold && !PointMoveable(m, (c.0 + 1, c.1 - 1)) then
        if ax > ay then p1.(y := Trunc(p1.y) as real + Threshold) else p1.(x := Trunc(p1.x) as real + 1.0 - Threshold)
      else p1;
    var p3 :=
      if rx < Threshold && ry > 1.0 - Threshold && !PointMoveable(m, (c.0 - 1, c.1 + 1)) then
        if ax > ay then p2.(y := Trunc(p2.y) as real + 1.0 - Threshold) else p2.(x := Trunc(p2.x) as real + Threshold)
      else p2;
    if rx > 1.0 - Threshold && ry > 1.0 - Threshold && !PointMoveable(m, (c.0 + 1, c.1 + 1)) then
      if ax > ay then p3.(y := Trunc(p3.y) as real + 1.0 - Threshold) else p3.(x := Trunc(p3.x) as real + 1.0 - Threshold)
    else p3
  }

  /** `Entity::interact_with_map`: the three correction steps in order, all
      driven by the cell and offsets of the location before the call. */
  function InteractWithMap(m: Map, e: Entity): (r: Entity)
    requires Valid(m)
    ensures r.id == e.id
  {
    var p := e.location;
    var c := AsInt(p);
    var rx := Fmod1(p.x);
    var ry := Fmod1(p.y);
    var ax := Abs(rx - 0.5);
    var ay := Abs(ry - 0.5);
    var p1 := PushOutOfBlocked(m, p);
    var p2 := ClampSides(m, p1, c, rx, ry);
    var p3 := ClampCorners(m, p2, c, rx, ry, ax, ay);
    e.(location := p3)
  }

  /** All nine cells around the entity's own cell, itself included, are moveable. */
  predicate OpenSurroundings(m: Map, c: Cell)
    requires Valid(m)
  {
    && PointMoveable(m, (c.0 - 1, c.1 - 1)) && PointMoveable(m, (c.0, c.1 - 1)) && PointMoveable(m, (c.0 + 1, c.1 - 1))
    && PointMoveable(m, (c.0 - 1, c.1)) && PointMoveable(m, c) && PointMoveable(m, (c.0 + 1, c.1))
    && PointMoveable(m, (c.0 - 1, c.1 + 1)) && PointMoveable(m, (c.0, c.1 + 1)) && PointMoveable(m, (c.0 + 1, c.1 + 1))
  }

  /** An entity in open surroundings is left where it is. */
  lemma OpenSurroundingsUnchanged(m: Map, e: Entity)
    requires Valid(m)
    requires OpenSurroundings(m, AsInt(e.location))
    ensures InteractWithMap(m, e) == e
  {
  }

  /** An entity in a moveable cell whose offsets keep 0.25 away from every
      edge is left where it is, whatever its neighbours hold. */
  lemma CentredEntityUnchanged(m: Map, e: Entity)
    requires Valid(m)
    requires PointMoveable(m, AsInt(e.location))
    requires Threshold <= Fmod1(e.location.x) <= 1.0 - Threshold
    requires Threshold <= Fmod1(e.location.y) <= 1.0 - Threshold
    ensures InteractWithMap(m, e) == e
  {
  }

  /** Point q lies in cell c, at least 0.25 away from every edge whose
      neighbour is blocked. */
  predicate ClearInCell(m: Map, c: Cell, q: Point)
    requires Valid(m)
  {
    && c.0 as real <= q.x < c.0 as real + 1.0
    && c.1 as real <= q.y < c.1 as real + 1.0
    && (!PointMoveable(m, (c.0 - 1, c.1)) ==> c.0 as real + Threshold <= q.x)
    && (!PointMoveable(m, (c.0 + 1, c.1)) ==> q.x <= c.0 as real + 1.0 - Threshold)
    && (!PointMoveable(m, (c.0, c.1 - 1)) ==> c.1 as real + Threshold <= q.y)
    && (!PointMoveable(m, (c.0, c.1 + 1)) ==> q.y <= c.1 as real + 1.0 - Threshold)
  }

  /** The side clamp leaves a point of cell c, given with its own offsets,
      clear of every blocked side. */
  lemma SidesClear(m: Map, p: Point, c: Cell)
    requires Valid(m)
    requires 0 <= c.0 && 0 <= c.1
    requires c.0 as real <= p.x < c.0 as real + 1.0 && c.1 as real <= p.y < c.1 as real + 1.0
    ensures ClearInCell(m, c, ClampSides(m, p, c, p.x - c.0 as real, p.y - c.1 as real))
  {
    InCell(p.x, c.0);
    InCell(p.y, c.1);
  }

  /** The corner clamp only moves a coordinate to 0.25 inside its cell, so
      it keeps a point clear of the blocked sides. */
  lemma CornersKeepClear(m: Map, p: Point, c: Cell, rx: real, ry: real, ax: real, ay: real)
    requires Valid(m)
    requires 0 <= c.0 && 0 <= c.1
    requires ClearInCell(m, c, p)
    ensures ClearInCell(m, c, ClampCorners(m, p, c, rx, ry, ax, ay))
  {
    InCell(p.x, c.0);
    InCell(p.y, c.1);
  }

  /** For an entity at non-negative coordinates in a moveable cell, the
      correction keeps it in its cell and at least 0.25 away from every edge
      whose neighbour is blocked. */
  lemma ClearOfBlockedSides(m: Map, e: Entity)
    requires Valid(m)
    requires 0.0 <= e.location.x && 0.0 <= e.location.y
    requires PointMoveable(m, AsInt(e.location))
    ensures var c := AsInt(e.location);
      var q := InteractWithMap(m, e).location;
      && AsInt(q) == c
      && (!PointMoveable(m, (c.0 - 1, c.1)) ==> Fmod1(q.x) >= Threshold)
      && (!PointMoveable(m, (c.0 + 1, c.1)) ==> Fmod1(q.x) <= 1.0 - Threshold)
      && (!PointMoveable(m, (c.0, c.1 - 1)) ==> Fmod1(q.y) >= Threshold)
      && (!PointMoveable(m, (c.0, c.1 + 1)) ==> Fmod1(q.y) <= 1.0 - Threshold)
  {
    CorrectionClear(m, e);
    ClearInCellOffsets(m, AsInt(e.location), InteractWithMap(m, e).location);
  }

  /** The three correction steps, for an entity in a moveable cell at
      non-negative coordinates, end clear of the blocked sides of its cell. */
  lemma CorrectionClear(m: Map, e: Entity)
    requires Valid(m)
    requires 0.0 <= e.location.x && 0.0 <= e.location.y
    requires PointMoveable(m, AsInt(e.location))
    ensures 0 <= AsInt(e.location).0 && 0 <= AsInt(e.location).1
    ensures ClearInCell(m, AsInt(e.location), InteractWithMap(m, e).location)
  {
    var p := e.location;
    var c := AsInt(p);
    var rx := Fmod1(p.x);
    var ry := Fmod1(p.y);
    InCell(p.x, c.0);
    InCell(p.y, c.1);
    var p2 := ClampSides(m, p, c, rx, ry);
    SidesClear(m, p, c);
    CornersKeepClear(m, p2, c, rx, ry, Abs(rx - 0.5), Abs(ry - 0.5));
  }

  /** A point clear of the blocked sides of cell c, read back through
      `as_int` and `% 1.0`. */
  lemma ClearInCellOffsets(m: Map, c: Cell, q: Point)
    requires Valid(m)
    requires 0 <= c.0 && 0 <= c.1
    requires ClearInCell(m, c, q)
    ensures AsInt(q) == c
    ensures !PointMoveable(m, (c.0 - 1, c.1)) ==> Fmod1(q.x) >= Threshold
    ensures !PointMoveable(m, (c.0 + 1, c.1)) ==> Fmod1(q.x) <= 1.0 - Threshold
    ensures !PointMoveable(m, (c.0, c.1 - 1)) ==> Fmod1(q.y) >= Threshold
    ensures !PointMoveable(m, (c.0, c.1 + 1)) ==> Fmod1(q.y) <= 1.0 - Threshold
  {
    InCell(q.x, c.0);
    InCell(q.y, c.1);
  }

  /** A coordinate inside cell k truncates to k and has offset v - k. */
  lemma InCell(v: real, k: int)
    requires 0 <= k
    requires k as real <= v < k as real + 1.0
    ensures Trunc(v) == k && Fmod1(v) == v - k as real
  {
  }
}
