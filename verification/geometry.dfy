/** Continuous points and vectors of the game world (src/point.rs), over `real`.

    `Vector::length` is a square root, which has no closed form here: every
    operation that needs it takes the length function `len` as a parameter and
    requires `IsLength(len)`, which assumes only that `len` is non-negative,
    zero exactly on the zero vector and scales by |k|; the Euclidean length is
    one such function. */
module Geometry {

  datatype Vector = Vector(x: real, y: real)

  datatype Point = Point(x: real, y: real)

  const Zero: Vector := Vector(0.0, 0.0)

  function Abs(r: real): real {
    if r < 0.0 then -r else r
  }

  /** `len` behaves as a length: it is non-negative, vanishes exactly on the
      zero vector, and scaling a vector by k scales its length by |k|. The
      Euclidean length sqrt(x² + y²) of the source is one such function. */
  ghost predicate IsLength(len: Vector -> real) {
    && (forall v :: 0.0 <= len(v))
    && (forall v :: len(v) == 0.0 <==> v == Zero)
    && (forall v, k :: len(Multiplied(v, k)) == Abs(k) * len(v))
  }

  /** Negating a vector keeps its length. */
  lemma LengthOfNegated(len: Vector -> real, v: Vector)
    requires IsLength(len)
    ensures len(Negated(v)) == len(v)
  {
    assert Negated(v) == Multiplied(v, -1.0);
  }

  /** `Vector::normalized`: the unit vector in v's direction; the zero vector
      is returned for itself. */
  function Normalized(v: Vector, len: Vector -> real): (r: Vector)
    requires IsLength(len)
    ensures v == Zero ==> r == Zero
    ensures v != Zero ==> len(v) > 0.0 && len(r) == 1.0 && r == Multiplied(v, 1.0 / len(v))
  {
    var length := len(v);
    if length == 0.0 then
      Zero
    else
      var r := Vector(v.x / length, v.y / length);
      assert r == Multiplied(v, 1.0 / length);
      assert Abs(1.0 / length) * length == 1.0;
      r
  }

  /** `Vector::x_normalized`: scaled so that the x component becomes ±1. */
  function XNormalized(v: Vector): (r: Vector)
    ensures v.x == 0.0 ==> r == Zero
    ensures v.x != 0.0 ==> (r.x == 1.0 || r.x == -1.0) && r.x * v.x > 0.0
    ensures v.x != 0.0 ==> r.y * Abs(v.x) == v.y
  {
    if v.x == 0.0 then
      Zero
    else
      var r := Vector(v.x / Abs(v.x), v.y / Abs(v.x));
      assert r.x == 1.0 || r.x == -1.0 by {
        if v.x > 0.0 {
          assert v.x / v.x == 1.0;
        } else {
          assert v.x / (-v.x) == -1.0;
        }
      }
      r
  }

  /** `Vector::y_normalized`: scaled so that the y component becomes ±1. */
  function YNormalized(v: Vector): (r: Vector)
    ensures v.y == 0.0 ==> r == Zero
    ensures v.y != 0.0 ==> (r.y == 1.0 || r.y == -1.0) && r.y * v.y > 0.0
    ensures v.y != 0.0 ==> r.x * Abs(v.y) == v.x
  {
    if v.y == 0.0 then
      Zero
    else
      var r := Vector(v.x / Abs(v.y), v.y / Abs(v.y));
      assert r.y == 1.0 || r.y == -1.0 by {
        if v.y > 0.0 {
          assert v.y / v.y == 1.0;
        } else {
          assert v.y / (-v.y) == -1.0;
        }
      }
      r
  }

  /** Component-wise sum of two vectors. */
  function Sum(v: Vector, w: Vector): Vector {
    Vector(v.x + w.x, v.y + w.y)
  }

  /** `Vector::add`, which updates its receiver in place. */
  method VectorAdd(v: Vector, other: Vector) returns (v': Vector)
    ensures v' == Sum(v, other)
    ensures Sum(v', Negated(other)) == v
  {
    v' := v;
    v' := v'.(x := v'.x + other.x);
    v' := v'.(y := v'.y + other.y);
  }

  /** `Vector::multiplied`. */
  function Multiplied(v: Vector, times: real): (r: Vector)
    ensures times == 1.0 ==> r == v
    ensures times == 0.0 ==> r == Zero
  {
    Vector(v.x * times, v.y * times)
  }

  /** `Vector::negated`. */
  function Negated(v: Vector): (r: Vector)
    ensures Sum(v, r) == Zero
  {
    Vector(-v.x, -v.y)
  }

  lemma NegatedInvolution(v: Vector)
    ensures Negated(Negated(v)) == v
  {
  }

  /** `Point::added`: the point translated by a vector. */
  function Added(p: Point, vec: Vector): (r: Point)
    ensures DistTo(r, p) == vec
  {
    Point(p.x + vec.x, p.y + vec.y)
  }

  /** `Point::add`, which translates its receiver in place. */
  method PointAdd(p: Point, vec: Vector) returns (p': Point)
    ensures p' == Added(p, vec)
  {
    p' := p;
    p' := p'.(x := p'.x + vec.x);
    p' := p'.(y := p'.y + vec.y);
  }

  /** `Point::dist_to`: the vector from `other` to `p`. */
  function DistTo(p: Point, other: Point): (r: Vector)
    ensures r == Zero <==> p == other
  {
    Vector(p.x - other.x, p.y - other.y)
  }

  lemma AddedDistTo(p: Point, q: Point)
    ensures Added(q, DistTo(p, q)) == p
  {
  }

  /** The distance vector reversed is the negated distance vector. */
  lemma DistToSwapped(p: Point, q: Point)
    ensures DistTo(q, p) == Negated(DistTo(p, q))
  {
  }

  /** `x as i32` on a float: truncation toward zero (saturation at the i32
      bounds is not modelled). */
  function Trunc(r: real): (t: int)
    ensures 0.0 <= r ==> t as real <= r < t as real + 1.0
    ensures r < 0.0 ==> t as real - 1.0 < r <= t as real
    ensures 0.0 <= r ==> 0 <= t
    ensures r < 0.0 ==> t <= 0
  {
    if r >= 0.0 then r.Floor else -((-r).Floor)
  }

  /** Truncation is monotone. */
  lemma TruncMonotone(a: real, b: real)
    requires a <= b
    ensures Trunc(a) <= Trunc(b)
  {
  }

  /** `r % 1.0` on a float: the remainder of truncating division, which has
      the sign of r. */
  function Fmod1(r: real): (m: real)
    ensures 0.0 <= r ==> 0.0 <= m < 1.0
    ensures r < 0.0 ==> -1.0 < m <= 0.0
    ensures r == Trunc(r) as real + m
  {
    r - Trunc(r) as real
  }

  /** `Point::as_int`: the cell holding the point, truncating toward zero. */
  function AsInt(p: Point): (c: (int, int))
    ensures 0.0 <= p.x ==> c.0 as real <= p.x < c.0 as real + 1.0
    ensures 0.0 <= p.y ==> c.1 as real <= p.y < c.1 as real + 1.0
    ensures p.x < 0.0 ==> c.0 as real - 1.0 < p.x <= c.0 as real
    ensures p.y < 0.0 ==> c.1 as real - 1.0 < p.y <= c.1 as real
  {
    (Trunc(p.x), Trunc(p.y))
  }
}
