/** A projectile flying in a straight line from its start to its end point
    (src/projectile.rs). */
module Projectiles {
  import opened Wrappers
  import opened Geometry

  /** Distance under which an increment snaps onto the end point. */
  const SnapDistance: real := 0.11
  /** Distance covered by one increment. */
  const Speed: real := 0.2

  datatype Projectile = Projectile(location: Point, startPoint: Point, endPoint: Point, angle: real)

  /** `Projectile::new`: starts at the start point, its angle taken from the
      vector start→end. `angleOf` stands for `Vector::angle`, which is not
      part of this model. */
  function NewProjectile(startPoint: Point, endPoint: Point, angleOf: Vector -> real): (p: Projectile)
    ensures p.location == p.startPoint == startPoint && p.endPoint == endPoint
    ensures p.angle == angleOf(DistTo(endPoint, startPoint))
  {
    Projectile(startPoint, startPoint, endPoint, angleOf(DistTo(endPoint, startPoint)))
  }

  /** `Projectile::at_location`: both coordinates equal those of the end point. */
  function AtLocation(p: Projectile): (r: bool)
    ensures r <==> p.location == p.endPoint
  {
    p.location.x == p.endPoint.x && p.location.y == p.endPoint.y
  }

  /** `Projectile::increment`: within 0.11 of the end point the projectile
      lands on it exactly; otherwise it moves 0.2 straight towards it. */
  function Increment(p: Projectile, len: Vector -> real): (r: Projectile)
    requires IsLength(len)
    ensures r.startPoint == p.startPoint && r.endPoint == p.endPoint && r.angle == p.angle
    ensures len(DistTo(p.location, p.endPoint)) < SnapDistance ==> AtLocation(r)
    ensures AtLocation(p) ==> r == p
    ensures len(DistTo(p.location, p.endPoint)) >= SnapDistance ==>
      && DistTo(r.location, p.endPoint)
         == Multiplied(DistTo(p.location, p.endPoint), 1.0 - Speed / len(DistTo(p.location, p.endPoint)))
      && len(DistTo(r.location, p.endPoint)) == Abs(len(DistTo(p.location, p.endPoint)) - Speed)
      && len(DistTo(r.location, p.location)) == Speed
  {
    var distVect := DistTo(p.location, p.endPoint);
    if len(distVect) < SnapDistance then
      p.(location := Point(p.endPoint.x, p.endPoint.y))
    else
      var r := p.(location := Added(p.location, Multiplied(Normalized(distVect, len), -Speed)));
      StepTowards(p.location, p.endPoint, len);
      r
  }

  /** One step of length `Speed` from `a` towards `b`, when `a` is at least
      `SnapDistance` away, ends `|d - Speed|` away from `b`. */
  lemma StepTowards(a: Point, b: Point, len: Vector -> real)
    requires IsLength(len)
    requires len(DistTo(a, b)) >= SnapDistance
    ensures var step := Multiplied(Normalized(DistTo(a, b), len), -Speed);
      && DistTo(Added(a, step), b) == Multiplied(DistTo(a, b), 1.0 - Speed / len(DistTo(a, b)))
      && len(DistTo(Added(a, step), b)) == Abs(len(DistTo(a, b)) - Speed)
      && len(DistTo(Added(a, step), a)) == Speed
  {
    var d := DistTo(a, b);
    var l := len(d);
    assert d != Zero;
    var k := 1.0 - Speed / l;
    var step := Multiplied(Normalized(d, len), -Speed);
    assert Normalized(d, len) == Multiplied(d, 1.0 / l);
    assert step == Multiplied(d, -Speed / l);
    assert DistTo(Added(a, step), b) == Multiplied(d, k);
    assert Abs(k) * l == Abs(l - Speed) by {
      assert (Speed / l) * l == Speed;
    }
    assert DistTo(Added(a, step), a) == step;
    assert Abs(-Speed / l) * l == Speed by {
      assert (Speed / l) * l == Speed;
    }
  }

  /** `n` successive increments. */
  function IncrementN(p: Projectile, n: nat, len: Vector -> real): Projectile
    requires IsLength(len)
    decreases n
  {
    if n == 0 then p else IncrementN(Increment(p, len), n - 1, len)
  }

  /** A projectile closer than 0.11 + 0.2·k to its end point has landed after
      k + 1 increments, and stays there. */
  lemma {:induction false} ArrivesWithin(p: Projectile, k: nat, len: Vector -> real)
    requires IsLength(len)
    requires len(DistTo(p.location, p.endPoint)) < SnapDistance + Speed * k as real
    ensures AtLocation(IncrementN(p, k + 1, len))
    decreases k
  {
    var d := len(DistTo(p.location, p.endPoint));
    var q := Increment(p, len);
    if d < SnapDistance {
      StaysLanded(q, k, len);
    } else if d >= Speed {
      assert k >= 1;
      ArrivesWithin(q, k - 1, len);
    } else {
      assert k >= 1;
      assert len(DistTo(q.location, q.endPoint)) < SnapDistance;
      StaysLanded(Increment(q, len), k - 1, len);
    }
  }

  /** Further increments leave a landed projectile where it is. */
  lemma {:induction false} StaysLanded(p: Projectile, n: nat, len: Vector -> real)
    requires IsLength(len)
    requires AtLocation(p)
    ensures IncrementN(p, n, len) == p
    decreases n
  {
    if n > 0 {
      StaysLanded(Increment(p, len), n - 1, len);
    }
  }

  /** `Projectile::get_height`: a parabola over the remaining distance, zero at
      both ends and peaking at the total distance halfway. The source divides
      by the total distance, so a projectile whose start and end coincide has
      no height (NaN there); it is `None` here. */
  function GetHeight(p: Projectile, len: Vector -> real): (h: Option<real>)
    requires IsLength(len)
    ensures h.None? <==> p.startPoint == p.endPoint
    ensures p.location == p.startPoint && h.Some? ==> h.value == 0.0
    ensures p.location == p.endPoint && h.Some? ==> h.value == 0.0
    ensures h.Some? && len(DistTo(p.endPoint, p.location)) <= len(DistTo(p.endPoint, p.startPoint)) ==>
      0.0 <= h.value <= len(DistTo(p.endPoint, p.startPoint))
    ensures h.Some? && 2.0 * len(DistTo(p.endPoint, p.location)) == len(DistTo(p.endPoint, p.startPoint)) ==>
      h.value == len(DistTo(p.endPoint, p.startPoint))
  {
    var totalLength := len(DistTo(p.endPoint, p.startPoint));
    var lengthRemaining := len(DistTo(p.endPoint, p.location));
    if totalLength == 0.0 then
      assert DistTo(p.endPoint, p.startPoint) == Zero;
      None
    else
      HeightBounds(lengthRemaining, totalLength);
      Some(Arc(lengthRemaining, totalLength))
  }

  /** The height formula of `get_height` for a non-zero total length. */
  function Arc(lengthRemaining: real, totalLength: real): real
    requires totalLength != 0.0
  {
    var progress := lengthRemaining / totalLength;
    var x := 2.0 * progress - 1.0;
    var y := -x * x + 1.0;
    y * totalLength
  }

  /** The parabola 1 - (2·rem/total - 1)² lies in [0, 1] for 0 <= rem <= total,
      is 0 at both ends and 1 halfway. */
  lemma HeightBounds(rem: real, total: real)
    requires 0.0 <= rem && 0.0 < total
    ensures rem <= total ==> 0.0 <= Arc(rem, total) <= total
    ensures rem == total ==> Arc(rem, total) == 0.0
    ensures rem == 0.0 ==> Arc(rem, total) == 0.0
    ensures 2.0 * rem == total ==> Arc(rem, total) == total
  {
    var x := 2.0 * (rem / total) - 1.0;
    var y := -x * x + 1.0;
    assert Arc(rem, total) == y * total;
    if rem <= total {
      assert rem / total <= 1.0;
      assert -1.0 <= x <= 1.0;
      assert x * x <= 1.0 by {
        if x >= 0.0 {
          assert x * x <= x * 1.0;
        } else {
          assert x * x <= (-x) * 1.0;
        }
      }
      assert 0.0 <= y <= 1.0;
      assert 0.0 <= y * total <= total;
    }
    if rem == total {
      assert rem / total == 1.0;
    }
    if 2.0 * rem == total {
      assert rem / total == 0.5;
    }
  }

  /** A freshly fired projectile with distinct ends starts at height 0. */
  lemma FiredAtGroundLevel(startPoint: Point, endPoint: Point, angleOf: Vector -> real, len: Vector -> real)
    requires IsLength(len)
    requires startPoint != endPoint
    ensures GetHeight(NewProjectile(startPoint, endPoint, angleOf), len) == Some(0.0)
  {
  }
}
