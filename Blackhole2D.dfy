/** The 2D simulation: light rays in the equatorial plane of a Schwarzschild black hole at
    the origin, integrated in polar coordinates (r, phi) with respect to an affine parameter
    lambda by a semi-implicit Euler step, each carrying a bounded trail of its Cartesian
    positions, oldest first. */
module Blackhole2D {
  import opened Numerics

  /** The affine-parameter increment of one geodesic step. */
  const GEODESIC_STEP: real := 0.02
  /** Ray::maxTrailLength */
  const MAX_TRAIL_LENGTH: nat := 1000
  /** The number of rays initRays creates. */
  const NUM_RAYS: nat := 30

  // ------------------------------------------------------------------------------------
  // The black hole

  datatype BlackHole = BlackHole(position: Vec2, mass: real, rs: real)

  /** BlackHole(pos, normalized_radius): the horizon radius is given, the mass is 1. */
  function WithRadius(pos: Vec2, normalizedRadius: real): (bh: BlackHole)
    ensures bh.position == pos && bh.mass == 1.0
    ensures bh.rs == normalizedRadius
  {
    BlackHole(pos, 1.0, normalizedRadius)
  }

  /** BlackHole(pos, m): the horizon radius is the scaled Schwarzschild radius 2m / 1000,
      positive for a positive mass. */
  function WithMass(pos: Vec2, mass: real): (bh: BlackHole)
    ensures bh.position == pos && bh.mass == mass
    ensures 500.0 * bh.rs == mass
    ensures 0.0 < mass ==> 0.0 < bh.rs
  {
    BlackHole(pos, mass, 2.0 * mass / 1000.0)
  }

  /** getSchwarzschildRadius */
  function SchwarzschildRadius(bh: BlackHole): real
  {
    bh.rs
  }

  /** The black hole of the 2D main program: its constructor call passes a float radius,
      which selects BlackHole(pos, normalized_radius). */
  const MainBlackHole: BlackHole := WithRadius(Zero2, 0.2)

  /** getSchwarzschildRadius gives back the horizon radius each constructor set up; the main
      program's black hole has radius 0.2 and mass 1. */
  lemma SchwarzschildRadiusOfConstructors(pos: Vec2, radius: real, mass: real)
    ensures SchwarzschildRadius(WithRadius(pos, radius)) == radius
    ensures 500.0 * SchwarzschildRadius(WithMass(pos, mass)) == mass
    ensures SchwarzschildRadius(MainBlackHole) == 0.2 && MainBlackHole.mass == 1.0
  {
  }

  // ------------------------------------------------------------------------------------
  // Geodesic integration

  /** The polar state of a ray: position (r, phi) and velocity (dr/dlambda, dphi/dlambda). */
  datatype Polar = Polar(r: real, phi: real, dr: real, dphi: real)

  /** d^2r/dlambda^2 of the simplified null-geodesic equations. */
  function RadialAccel(r: real, dr: real, dphi: real, rs: real): real
    requires r != 0.0 && r != rs
  {
    r * dphi * dphi * (1.0 - rs / r) - rs * dr * dr / (2.0 * r * (r - rs))
  }

  /** Without a black hole (rs == 0) only the centrifugal term r * dphi^2 of straight-line
      motion in polar coordinates remains. */
  lemma RadialAccelFlat(r: real, dr: real, dphi: real)
    requires r != 0.0
    ensures RadialAccel(r, dr, dphi, 0.0) == r * dphi * dphi
  {
    var den := 2.0 * r * (r - 0.0);
    assert den != 0.0 by {
      SqFacts(r);
      assert den == 2.0 * Sq(r);
    }
    assert 0.0 * dr * dr / den == 0.0;
    assert 0.0 / r == 0.0;
  }

  /** At a turning point (dr == 0) the centrifugal term is reduced by the factor
      (r - rs) / r; it points outwards exactly when r > rs. */
  lemma RadialAccelTurningPoint(r: real, dphi: real, rs: real)
    requires r != 0.0 && r != rs
    ensures RadialAccel(r, 0.0, dphi, rs) == dphi * dphi * (r - rs)
  {
    var den := 2.0 * r * (r - rs);
    assert den != 0.0 by {
      DenominatorNonZero(r, rs);
    }
    assert rs * 0.0 * 0.0 / den == 0.0;
    assert r * (1.0 - rs / r) == r - rs;
  }

  lemma DenominatorNonZero(r: real, rs: real)
    requires r != 0.0 && r != rs
    ensures 2.0 * r * (r - rs) != 0.0
  {
  }

  /** d^2phi/dlambda^2. It is exactly the angular acceleration that keeps the angular
      momentum r^2 * dphi constant along the continuous flow:
      d/dlambda (r^2 * dphi) = 2 r dr dphi + r^2 d^2phi = 0. */
  function AngularAccel(r: real, dr: real, dphi: real): (a: real)
    requires r != 0.0
    ensures 2.0 * r * dr * dphi + r * r * a == 0.0
  {
    -2.0 * dr * dphi / r
  }

  /** The geodesic step is defined away from the horizon (it divides by r - rs). */
  predicate Integrable(p: Polar, rs: real)
  {
    p.r <= 0.0 || p.r != rs
  }

  /** geodesic(ray, rs): nothing for r <= 0; otherwise the velocities are advanced by the
      accelerations of the pre-step state, then the position by the new velocities. */
  function GeodesicStep(p: Polar, rs: real): Polar
    requires Integrable(p, rs)
  {
    if p.r <= 0.0 then p
    else
      var dr := p.dr + RadialAccel(p.r, p.dr, p.dphi, rs) * GEODESIC_STEP;
      var dphi := p.dphi + AngularAccel(p.r, p.dr, p.dphi) * GEODESIC_STEP;
      Polar(p.r + dr * GEODESIC_STEP, p.phi + dphi * GEODESIC_STEP, dr, dphi)
  }

  /** The step is semi-implicit Euler: the position moves by the UPDATED velocity, so
      compared with the old velocity it gains the acceleration times h^2. */
  lemma GeodesicIsSemiImplicit(p: Polar, rs: real)
    requires p.r > 0.0 && p.r != rs
    ensures GeodesicStep(p, rs).dr == p.dr + RadialAccel(p.r, p.dr, p.dphi, rs) * GEODESIC_STEP
    ensures GeodesicStep(p, rs).dphi == p.dphi + AngularAccel(p.r, p.dr, p.dphi) * GEODESIC_STEP
    ensures GeodesicStep(p, rs).r ==
      p.r + p.dr * GEODESIC_STEP + RadialAccel(p.r, p.dr, p.dphi, rs) * GEODESIC_STEP * GEODESIC_STEP
    ensures GeodesicStep(p, rs).phi ==
      p.phi + p.dphi * GEODESIC_STEP + AngularAccel(p.r, p.dr, p.dphi) * GEODESIC_STEP * GEODESIC_STEP
  {
  }

  /** A ray moving straight towards or away from the hole (dphi == 0) keeps its angle. */
  lemma RadialRayStaysRadial(p: Polar, rs: real)
    requires Integrable(p, rs) && p.dphi == 0.0
    ensures GeodesicStep(p, rs).phi == p.phi
    ensures GeodesicStep(p, rs).dphi == 0.0
  {
  }

  // ------------------------------------------------------------------------------------
  // The trail

  /** The trail after Ray::update appends p: p goes at the back and, past
      MAX_TRAIL_LENGTH entries, the oldest entry at the front is dropped. */
  function Pushed(trail: seq<Vec2>, p: Vec2): (t: seq<Vec2>)
    ensures |trail| < MAX_TRAIL_LENGTH ==> t == trail + [p]
    ensures |trail| >= MAX_TRAIL_LENGTH ==> t == trail[1..] + [p]
    ensures |trail| <= MAX_TRAIL_LENGTH ==> 1 <= |t| <= MAX_TRAIL_LENGTH
  {
    var t := trail + [p];
    if |t| > MAX_TRAIL_LENGTH then t[1..] else t
  }

  /** The trail after appending every point of ps in turn. */
  function PushedAll(trail: seq<Vec2>, ps: seq<Vec2>): seq<Vec2>
    decreases |ps|
  {
    if ps == [] then trail else PushedAll(Pushed(trail, ps[0]), ps[1..])
  }

  /** The most recent MAX_TRAIL_LENGTH entries of a history. */
  function Recent(history: seq<Vec2>): seq<Vec2>
  {
    if |history| > MAX_TRAIL_LENGTH then history[|history| - MAX_TRAIL_LENGTH..] else history
  }

  /** The trail is a sliding window: after any sequence of appends it holds exactly the
      most recent MAX_TRAIL_LENGTH points of the whole history, oldest first. */
  lemma {:induction false} TrailIsRecentHistory(trail: seq<Vec2>, ps: seq<Vec2>)
    requires |trail| <= MAX_TRAIL_LENGTH
    ensures PushedAll(trail, ps) == Recent(trail + ps)
    decreases |ps|
  {
    if ps != [] {
      var t := Pushed(trail, ps[0]);
      var rest := ps[1..];
      TrailIsRecentHistory(t, rest);
      assert trail + ps == (trail + [ps[0]]) + rest;
      if |trail| == MAX_TRAIL_LENGTH {
        var h := trail + [ps[0]];
        assert t == h[1..];
        var n := |h + rest|;
        assert (h + rest)[n - MAX_TRAIL_LENGTH..] == (h[1..] + rest)[|h[1..] + rest| - MAX_TRAIL_LENGTH..];
      }
    }
  }

  // ------------------------------------------------------------------------------------
  // The ray

  /** Cartesian position of a polar state, as Ray::update computes it. */
  function Cartesian(m: Libm, p: Polar): Vec2
  {
    Vec2(p.r * m.cos(p.phi), p.r * m.sin(p.phi))
  }

  /** The trail after Ray::update(rs): unchanged inside the horizon, otherwise the current
      Cartesian position is appended. */
  function UpdatedTrail(m: Libm, trail: seq<Vec2>, p: Polar, rs: real): seq<Vec2>
  {
    if p.r < rs then trail else Pushed(trail, Cartesian(m, p))
  }

  /** Everything a Ray holds. */
  datatype RayState = RayState(polar: Polar, trail: seq<Vec2>)

  /** One iteration of the frame loop for one ray: a ray at or outside the horizon takes a
      geodesic step and then records its new position; a ray inside is left alone. */
  function FrameStep(m: Libm, s: RayState, rs: real): RayState
    requires Integrable(s.polar, rs)
  {
    if s.polar.r >= rs then
      var q := GeodesicStep(s.polar, rs);
      RayState(q, UpdatedTrail(m, s.trail, q, rs))
    else s
  }

  /** A frame keeps the trail between 1 and MAX_TRAIL_LENGTH entries; a ray inside the
      horizon is not changed at all. */
  lemma FrameStepFacts(m: Libm, s: RayState, rs: real)
    requires Integrable(s.polar, rs)
    requires 1 <= |s.trail| <= MAX_TRAIL_LENGTH
    ensures 1 <= |FrameStep(m, s, rs).trail| <= MAX_TRAIL_LENGTH
    ensures s.polar.r < rs ==> FrameStep(m, s, rs) == s
  {
  }

  /** The squared speed of a polar velocity at radius r: dr^2 + r^2 * dphi^2. */
  function SpeedSq(r: real, dr: real, dphi: real): real
  {
    Sq(dr) + Sq(r) * Sq(dphi)
  }

  /** The Cartesian velocity (dx, dy) of a polar velocity (dr, dphi) at pos, scaled by the
      radius r == |pos| (dx = (x dr - y r dphi) / r, dy = (y dr + x r dphi) / r). */
  function CartesianVelocityTimesR(pos: Vec2, r: real, dr: real, dphi: real): Vec2
  {
    Vec2(pos.x * dr - pos.y * r * dphi, pos.y * dr + pos.x * r * dphi)
  }

  /** The radial part (p.d) / r and the angular part (p x d) / r^2 of a Cartesian velocity d
      at p, with r the length of p, are its polar velocity: they have the speed of d and
      map back to d. */
  lemma PolarOfCartesian(r: real, p: Vec2, d: Vec2)
    requires 0.0 < r && 0.0 < Sq(r) && Sq(r) == Dot2(p, p)
    ensures SpeedSq(r, Dot2(p, d) / r, Cross2(p, d) / Sq(r)) == Dot2(d, d)
    ensures CartesianVelocityTimesR(p, r, Dot2(p, d) / r, Cross2(p, d) / Sq(r)) == Scale2(d, r)
  {
    var r2 := Sq(r);
    var q1 := Dot2(p, d) / r;
    var q2 := Cross2(p, d) / r2;
    assert q1 * r == Dot2(p, d);
    assert q2 * r2 == Cross2(p, d);
    assert r2 == r * r;
    // the speed
    SqOfProduct(q1, r);
    SqOfProduct(q2, r2);
    Lagrange(p, d);
    SpeedAlgebra(Sq(q1), Sq(q2), r2, Dot2(d, d), Sq(Dot2(p, d)), Sq(Cross2(p, d)));
    // the direction
    BackToCartesian(p, d, r, q1, q2);
  }

  /** A polar velocity (q1, q2) with q1 r == p.d and q2 r^2 == p x d converts back to d. */
  lemma BackToCartesian(p: Vec2, d: Vec2, r: real, q1: real, q2: real)
    requires r != 0.0 && r * r == Dot2(p, p)
    requires q1 * r == Dot2(p, d) && q2 * (r * r) == Cross2(p, d)
    ensures CartesianVelocityTimesR(p, r, q1, q2) == Scale2(d, r)
  {
    CartesianIdentity(p, d);
    DirectionAlgebra(p.x, p.y, q1, q2, r, Dot2(p, d), Cross2(p, d));
    var v := CartesianVelocityTimesR(p, r, q1, q2);
    assert v.x == p.x * q1 - p.y * r * q2;
    assert v.y == p.y * q1 + p.x * r * q2;
    assert v.x * r == p.x * Dot2(p, d) - p.y * Cross2(p, d);
    assert v.x * r == d.x * Dot2(p, p);
    assert v.y * r == d.y * Dot2(p, p);
    assert d.x * Dot2(p, p) == d.x * r * r;
    assert d.y * Dot2(p, p) == d.y * r * r;
    Cancel(v.x, d.x * r, r);
    Cancel(v.y, d.y * r, r);
  }

  lemma SpeedAlgebra(a: real, b: real, r2: real, dd: real, sd: real, sc: real)
    requires r2 != 0.0 && a * r2 == sd && b * Sq(r2) == sc && sd + sc == r2 * dd
    ensures a + r2 * b == dd
  {
    assert (a + r2 * b) * r2 == a * r2 + b * (r2 * r2);
    Cancel(a + r2 * b, dd, r2);
  }

  lemma DirectionAlgebra(x: real, y: real, q1: real, q2: real, r: real, dot: real, cross: real)
    requires q1 * r == dot && q2 * (r * r) == cross
    ensures (x * q1 - y * r * q2) * r == x * dot - y * cross
    ensures (y * q1 + x * r * q2) * r == y * dot + x * cross
  {
    assert x * q1 * r == x * dot;
    assert y * q1 * r == y * dot;
    assert y * r * q2 * r == y * cross;
    assert x * r * q2 * r == x * cross;
  }

  /** Rotating back: x (p.d) - y (p x d) == d.x |p|^2 and y (p.d) + x (p x d) == d.y |p|^2. */
  lemma CartesianIdentity(p: Vec2, d: Vec2)
    ensures p.x * Dot2(p, d) - p.y * Cross2(p, d) == d.x * Dot2(p, p)
    ensures p.y * Dot2(p, d) + p.x * Cross2(p, d) == d.y * Dot2(p, p)
  {
  }

  /** Scaling a polar velocity by k scales its Cartesian velocity by k. */
  lemma CartesianVelocityScale(p: Vec2, r: real, dr: real, dphi: real, k: real)
    ensures CartesianVelocityTimesR(p, r, dr * k, dphi * k) == Scale2(CartesianVelocityTimesR(p, r, dr, dphi), k)
  {
  }

  lemma Cancel(a: real, b: real, k: real)
    requires k != 0.0 && a * k == b * k
    ensures a == b
  {
    assert a == (a * k) / k;
  }

  /** Lagrange's identity in the plane: (p.d)^2 + (p x d)^2 == |p|^2 |d|^2. */
  lemma Lagrange(p: Vec2, d: Vec2)
    ensures Sq(Dot2(p, d)) + Sq(Cross2(p, d)) == Dot2(p, p) * Dot2(d, d)
  {
  }

  /** Scaling a polar velocity by k scales its squared speed by k^2. */
  lemma SpeedSqScale(r: real, dr: real, dphi: real, k: real)
    ensures SpeedSq(r, dr * k, dphi * k) == Sq(k) * SpeedSq(r, dr, dphi)
  {
    SqOfProduct(dr, k);
    SqOfProduct(dphi, k);
  }

  /** A polar velocity (dr/dlambda, dphi/dlambda). */
  datatype Velocity = Velocity(dr: real, dphi: real)

  /** The polar velocity of a Cartesian velocity dir at pos: (p.d) / r and (p x d) / r^2. */
  function RawPolarVelocity(m: Libm, pos: Vec2, dir: Vec2): Velocity
    requires Lawful(m) && pos != Zero2
  {
    LengthFacts2(m, pos);
    var r := Length2(m, pos);
    SqOfPositive(r);
    Velocity(Dot2(pos, dir) / r, Cross2(pos, dir) / Sq(r))
  }

  /** The polar velocity the Ray constructor computes for a ray at pos heading along dir:
      the polar velocity of dir, multiplied by 1 / |dir| and divided by its own speed (which
      is |dir| again). */
  function PolarVelocity(m: Libm, pos: Vec2, dir: Vec2): Velocity
    requires Lawful(m) && pos != Zero2 && dir != Zero2
  {
    LengthFacts2(m, pos);
    LengthFacts2(m, dir);
    var r := Length2(m, pos);
    SqOfPositive(r);
    PolarOfCartesian(r, pos, dir);
    var raw := RawPolarVelocity(m, pos, dir);
    var currentMag := m.sqrt(SpeedSq(r, raw.dr, raw.dphi));
    var factor := (1.0 / Length2(m, dir)) / currentMag;
    Velocity(raw.dr * factor, raw.dphi * factor)
  }

  /** (1 / l) / l == 1 / l^2 */
  lemma InverseSquare(l: real, dd: real)
    requires 0.0 < l && Sq(l) == dd
    ensures 0.0 < dd && (1.0 / l) / l == 1.0 / dd
  {
    SqOfPositive(l);
  }

  /** The constructor's velocity is the polar velocity of dir divided by |dir|^2. */
  lemma PolarVelocityIsRawOverDirSq(m: Libm, pos: Vec2, dir: Vec2)
    requires Lawful(m) && pos != Zero2 && dir != Zero2
    ensures 0.0 < Dot2(dir, dir)
    ensures PolarVelocity(m, pos, dir) ==
      Velocity(RawPolarVelocity(m, pos, dir).dr * (1.0 / Dot2(dir, dir)),
       RawPolarVelocity(m, pos, dir).dphi * (1.0 / Dot2(dir, dir)))
    ensures SpeedSq(Length2(m, pos), RawPolarVelocity(m, pos, dir).dr, RawPolarVelocity(m, pos, dir).dphi)
            == Dot2(dir, dir)
    ensures CartesianVelocityTimesR(pos, Length2(m, pos), RawPolarVelocity(m, pos, dir).dr,
              RawPolarVelocity(m, pos, dir).dphi) == Scale2(dir, Length2(m, pos))
  {
    LengthFacts2(m, pos);
    LengthFacts2(m, dir);
    var r := Length2(m, pos);
    SqOfPositive(r);
    PolarOfCartesian(r, pos, dir);
    var raw := RawPolarVelocity(m, pos, dir);
    assert raw == Velocity(Dot2(pos, dir) / r, Cross2(pos, dir) / Sq(r));
    var f := (1.0 / Length2(m, dir)) / m.sqrt(SpeedSq(r, raw.dr, raw.dphi));
    var v := PolarVelocity(m, pos, dir);
    assert v.dr == raw.dr * f && v.dphi == raw.dphi * f;
    assert m.sqrt(SpeedSq(r, raw.dr, raw.dphi)) == Length2(m, dir);
    InverseSquare(Length2(m, dir), Dot2(dir, dir));
    assert f == 1.0 / Dot2(dir, dir);
  }

  /** The constructor's velocity has squared speed 1 / |dir|^2: the speed is 1 / |dir|, the
      unit speed only because every caller passes a unit dir. */
  lemma InitialSpeed(m: Libm, pos: Vec2, dir: Vec2)
    requires Lawful(m) && pos != Zero2 && dir != Zero2
    ensures var v := PolarVelocity(m, pos, dir);
      SpeedSq(Length2(m, pos), v.dr, v.dphi) * Dot2(dir, dir) == 1.0
  {
    PolarVelocityIsRawOverDirSq(m, pos, dir);
    ScaledSpeed(Length2(m, pos), RawPolarVelocity(m, pos, dir), Dot2(dir, dir));
  }

  /** The constructor's velocity points along dir: converted back to Cartesian coordinates
      it is dir / |dir|^2. */
  lemma InitialDirection(m: Libm, pos: Vec2, dir: Vec2)
    requires Lawful(m) && pos != Zero2 && dir != Zero2
    ensures 0.0 < Dot2(dir, dir)
    ensures var v := PolarVelocity(m, pos, dir);
      CartesianVelocityTimesR(pos, Length2(m, pos), v.dr, v.dphi) ==
        Scale2(dir, Length2(m, pos) / Dot2(dir, dir))
  {
    PolarVelocityIsRawOverDirSq(m, pos, dir);
    ScaledDirection(pos, dir, Length2(m, pos), RawPolarVelocity(m, pos, dir), Dot2(dir, dir));
  }

  /** Dividing a polar velocity of squared speed dd by dd leaves squared speed 1 / dd. */
  lemma ScaledSpeed(r: real, raw: Velocity, dd: real)
    requires 0.0 < dd && SpeedSq(r, raw.dr, raw.dphi) == dd
    ensures SpeedSq(r, raw.dr * (1.0 / dd), raw.dphi * (1.0 / dd)) * dd == 1.0
  {
    var f := 1.0 / dd;
    calc {
      SpeedSq(r, raw.dr * f, raw.dphi * f) * dd;
    == { SpeedSqScale(r, raw.dr, raw.dphi, f); }
      Sq(f) * SpeedSq(r, raw.dr, raw.dphi) * dd;
    == { SpeedOverSquare(SpeedSq(r, raw.dr, raw.dphi), dd); }
      1.0;
    }
  }

  /** Dividing the polar velocity of dir by dd divides its Cartesian velocity by dd. */
  lemma ScaledDirection(pos: Vec2, dir: Vec2, r: real, raw: Velocity, dd: real)
    requires 0.0 < dd
    requires CartesianVelocityTimesR(pos, r, raw.dr, raw.dphi) == Scale2(dir, r)
    ensures CartesianVelocityTimesR(pos, r, raw.dr * (1.0 / dd), raw.dphi * (1.0 / dd)) == Scale2(dir, r / dd)
  {
    var f := 1.0 / dd;
    CartesianVelocityScale(pos, r, raw.dr, raw.dphi, f);
    ScaleByInverse(dir, r, dd);
  }

  lemma ScaleByInverse(d: Vec2, r: real, dd: real)
    requires dd != 0.0
    ensures Scale2(Scale2(d, r), 1.0 / dd) == Scale2(d, r / dd)
  {
    assert d.x * r * (1.0 / dd) == d.x * (r / dd);
    assert d.y * r * (1.0 / dd) == d.y * (r / dd);
  }

  lemma SpeedOverSquare(s: real, dd: real)
    requires 0.0 < dd && s == dd
    ensures Sq(1.0 / dd) * s * dd == 1.0
  {
    var f := 1.0 / dd;
    assert f * dd == 1.0;
    assert Sq(f) * s * dd == (f * dd) * (f * dd);
  }

  /** The polar state the Ray constructor computes for a ray at pos heading along dir. */
  function InitialPolar(m: Libm, pos: Vec2, dir: Vec2): Polar
    requires Lawful(m) && pos != Zero2 && dir != Zero2
  {
    var v := PolarVelocity(m, pos, dir);
    Polar(Length2(m, pos), m.atan2(pos.y, pos.x), v.dr, v.dphi)
  }

  class Ray {
    var r: real
    var phi: real
    var drDlambda: real
    var dphiDlambda: real
    /** The trail, oldest entry first. */
    var trail: seq<Vec2>

    ghost predicate Valid()
      reads this
    {
      1 <= |trail| <= MAX_TRAIL_LENGTH
    }

    function PolarState(): Polar
      reads this
    {
      Polar(r, phi, drDlambda, dphiDlambda)
    }

    function State(): RayState
      reads this
    {
      RayState(PolarState(), trail)
    }

    /** A ray at pos heading along dir: pos is converted to polar coordinates, dir to a polar
        velocity, and the trail holds pos alone. */
    constructor (pos: Vec2, dir: Vec2, m: Libm)
      requires Lawful(m) && pos != Zero2 && dir != Zero2
      ensures Valid() && trail == [pos]
      ensures PolarState() == InitialPolar(m, pos, dir)
      ensures 0.0 < r && Sq(r) == Dot2(pos, pos)
    {
      LengthFacts2(m, pos);
      LengthFacts2(m, dir);
      var radius := Length2(m, pos);
      SqOfPositive(radius);
      PolarOfCartesian(radius, pos, dir);
      assert RawPolarVelocity(m, pos, dir) == Velocity(Dot2(pos, dir) / radius, Cross2(pos, dir) / Sq(radius));
      var magnitudeInv := 1.0 / Length2(m, dir);
      var dr := Dot2(pos, dir) / radius;
      var dphi := Cross2(pos, dir) / Sq(radius);
      var currentMag := m.sqrt(SpeedSq(radius, dr, dphi));
      var factor := magnitudeInv / currentMag;
      ghost var v := PolarVelocity(m, pos, dir);
      assert v.dr == dr * factor && v.dphi == dphi * factor;
      r := radius;
      phi := m.atan2(pos.y, pos.x);
      drDlambda := dr * factor;
      dphiDlambda := dphi * factor;
      trail := [pos];
    }

    /** Ray::update(rs): record the current Cartesian position unless inside the horizon. */
    method Update(rs: real, m: Libm)
      requires Valid()
      modifies this`trail
      ensures Valid()
      ensures trail == UpdatedTrail(m, old(trail), old(PolarState()), rs)
    {
      ghost var p := PolarState();
      if r < rs {
        return;
      }
      var x := r * m.cos(phi);
      var y := r * m.sin(phi);
      assert Vec2(x, y) == Cartesian(m, p);
      trail := trail + [Vec2(x, y)];
      if |trail| > MAX_TRAIL_LENGTH {
        trail := trail[1..];
      }
      assert trail == Pushed(old(trail), Vec2(x, y));
    }
  }

  /** geodesic(ray, rs): one semi-implicit Euler step of the ray's polar state. */
  method Geodesic(ray: Ray, rs: real)
    requires Integrable(ray.PolarState(), rs)
    modifies ray`r, ray`phi, ray`drDlambda, ray`dphiDlambda
    ensures ray.PolarState() == GeodesicStep(old(ray.PolarState()), rs)
    ensures ray.trail == old(ray.trail)
  {
    var r := ray.r;
    var dr := ray.drDlambda;
    var dphi := ray.dphiDlambda;
    if r <= 0.0 {
      return;
    }
    var d2r := RadialAccel(r, dr, dphi, rs);
    var d2phi := AngularAccel(r, dr, dphi);
    ray.drDlambda := ray.drDlambda + d2r * GEODESIC_STEP;
    ray.dphiDlambda := ray.dphiDlambda + d2phi * GEODESIC_STEP;
    ray.r := ray.r + ray.drDlambda * GEODESIC_STEP;
    ray.phi := ray.phi + ray.dphiDlambda * GEODESIC_STEP;
  }

  // ------------------------------------------------------------------------------------
  // Initialisation and the frame loop

  /** The start position of ray i: just left of the view, heights spread evenly over
      [-0.9, 0.9]. */
  function StartPosition(width: int, height: int, i: nat): Vec2
    requires height != 0
  {
    var aspect := (width as real) / (height as real);
    Vec2(-1.0 * aspect - 0.1, -0.9 + (1.8 * (i as real)) / ((NUM_RAYS - 1) as real))
  }

  /** The start positions run from height -0.9 to 0.9 in equal steps, and none is the
      origin (so every ray can be constructed). */
  lemma StartPositions(width: int, height: int)
    requires height != 0
    ensures StartPosition(width, height, 0).y == -0.9
    ensures StartPosition(width, height, NUM_RAYS - 1).y == 0.9
    ensures forall i: nat :: i + 1 < NUM_RAYS ==>
      StartPosition(width, height, i + 1).y - StartPosition(width, height, i).y == 1.8 / 29.0
    ensures forall i: nat :: i < NUM_RAYS ==> StartPosition(width, height, i) != Zero2
  {
    forall i: nat | i < NUM_RAYS
      ensures StartPosition(width, height, i) != Zero2
    {
      var y := StartPosition(width, height, i).y;
      if i <= 14 {
        assert y <= -0.9 + 1.8 * 14.0 / 29.0 < 0.0;
      } else {
        assert y >= -0.9 + 1.8 * 15.0 / 29.0 > 0.0;
      }
    }
  }

  /** The unit direction every ray starts with. */
  function StartDirection(m: Libm): Vec2
  {
    Normalize2(m, Vec2(1.0, 0.0))
  }

  lemma StartDirectionIsUnit(m: Libm)
    requires Lawful(m)
    ensures StartDirection(m) != Zero2
    ensures Dot2(StartDirection(m), StartDirection(m)) == 1.0
  {
    NormalizeIsUnit2(m, Vec2(1.0, 0.0));
    DotSelfPositive2(StartDirection(m));
  }

  /** Every ray initRays creates starts with unit speed (dr^2 + r^2 dphi^2 == 1) heading
      in the +x direction. */
  lemma StartRaysMoveRight(m: Libm, width: int, height: int, i: nat)
    requires Lawful(m) && height != 0 && i < NUM_RAYS
    ensures StartPosition(width, height, i) != Zero2 && StartDirection(m) != Zero2
    ensures var p := InitialPolar(m, StartPosition(width, height, i), StartDirection(m));
      SpeedSq(p.r, p.dr, p.dphi) == 1.0
    ensures var pos := StartPosition(width, height, i);
      var p := InitialPolar(m, pos, StartDirection(m));
      CartesianVelocityTimesR(pos, p.r, p.dr, p.dphi) == Scale2(StartDirection(m), p.r)
  {
    StartPositions(width, height);
    StartDirectionIsUnit(m);
    var pos := StartPosition(width, height, i);
    var dir := StartDirection(m);
    InitialSpeed(m, pos, dir);
    InitialDirection(m, pos, dir);
    assert Length2(m, pos) / Dot2(dir, dir) == Length2(m, pos);
  }

  /** initRays: replace the rays by NUM_RAYS fresh ones, one per start position. */
  method InitRays(width: int, height: int, m: Libm) returns (rays: seq<Ray>)
    requires Lawful(m) && height != 0
    ensures |rays| == NUM_RAYS
    ensures forall i :: 0 <= i < |rays| ==> fresh(rays[i]) && rays[i].Valid()
    ensures forall i :: 0 <= i < |rays| ==> rays[i].trail == [StartPosition(width, height, i)]
    ensures forall i :: 0 <= i < |rays| ==>
      rays[i].PolarState() == InitialPolar(m, StartPosition(width, height, i), StartDirection(m))
    ensures forall i, j :: 0 <= i < j < |rays| ==> rays[i] != rays[j]
  {
    StartPositions(width, height);
    StartDirectionIsUnit(m);
    rays := [];
    var i := 0;
    while i < NUM_RAYS
      invariant 0 <= i <= NUM_RAYS
      invariant |rays| == i
      invariant forall k :: 0 <= k < i ==> fresh(rays[k]) && rays[k].Valid()
      invariant forall k :: 0 <= k < i ==> rays[k].trail == [StartPosition(width, height, k)]
      invariant forall k :: 0 <= k < i ==>
        rays[k].PolarState() == InitialPolar(m, StartPosition(width, height, k), StartDirection(m))
      invariant forall k, l :: 0 <= k < l < i ==> rays[k] != rays[l]
    {
      var ray := new Ray(StartPosition(width, height, i), StartDirection(m), m);
      rays := rays + [ray];
      i := i + 1;
    }
  }

  ghost predicate Distinct(rays: seq<Ray>)
  {
    forall i, j :: 0 <= i < j < |rays| ==> rays[i] != rays[j]
  }

  ghost predicate AllValid(rays: seq<Ray>)
    reads set i | 0 <= i < |rays| :: rays[i]
  {
    forall i :: 0 <= i < |rays| ==> rays[i].Valid()
  }

  /** The simulation part of one frame: every ray at or outside the horizon takes a geodesic
      step and records its position; rays inside the horizon are skipped. */
  method Advance(rays: seq<Ray>, bh: BlackHole, m: Libm)
    requires Distinct(rays) && AllValid(rays)
    requires forall i :: 0 <= i < |rays| ==> Integrable(rays[i].PolarState(), SchwarzschildRadius(bh))
    modifies set i | 0 <= i < |rays| :: rays[i]
    ensures AllValid(rays)
    ensures forall i :: 0 <= i < |rays| ==>
      rays[i].State() == FrameStep(m, old(rays[i].State()), SchwarzschildRadius(bh))
  {
    var rs := SchwarzschildRadius(bh);
    var k := 0;
    while k < |rays|
      invariant 0 <= k <= |rays|
      invariant AllValid(rays)
      invariant forall i :: 0 <= i < k ==> rays[i].State() == FrameStep(m, old(rays[i].State()), rs)
      invariant forall i :: k <= i < |rays| ==> rays[i].State() == old(rays[i].State())
    {
      var ray := rays[k];
      if ray.r >= rs {
        Geodesic(ray, rs);
        ray.Update(rs, m);
      }
      k := k + 1;
    }
  }
}
