/** Vector arithmetic over the reals, and the host math library the simulation calls.
    The glm vectors of the source hold floats or doubles; here every component is an exact
    real, so rounding, overflow and NaN are not part of the model. */
module Numerics {

  datatype Vec2 = Vec2(x: real, y: real)

  datatype Vec3 = Vec3(x: real, y: real, z: real)

  const Zero2: Vec2 := Vec2(0.0, 0.0)
  const Zero3: Vec3 := Vec3(0.0, 0.0, 0.0)

  function Add3(a: Vec3, b: Vec3): Vec3 { Vec3(a.x + b.x, a.y + b.y, a.z + b.z) }

  function Sub3(a: Vec3, b: Vec3): Vec3 { Vec3(a.x - b.x, a.y - b.y, a.z - b.z) }

  function Scale3(v: Vec3, k: real): Vec3 { Vec3(v.x * k, v.y * k, v.z * k) }

  function Dot3(a: Vec3, b: Vec3): real { a.x * b.x + a.y * b.y + a.z * b.z }

  function Scale2(v: Vec2, k: real): Vec2 { Vec2(v.x * k, v.y * k) }

  function Dot2(a: Vec2, b: Vec2): real { a.x * b.x + a.y * b.y }

  /** The 2D cross product (the z component of a x b). */
  function Cross2(a: Vec2, b: Vec2): real { a.x * b.y - a.y * b.x }

  /** The square of a real. Squares are kept behind this function: the solver handles
      facts about a bare product of a term with itself poorly. */
  function Sq(a: real): real { a * a }

  /** The transcendental functions of the host's C math library, passed in as values.
      Only sqrt is constrained (by Lawful); sin, cos and atan2 are arbitrary. */
  datatype Libm = Libm(sqrt: real -> real, sin: real -> real, cos: real -> real, atan2: (real, real) -> real)

  /** sqrt returns the non-negative square root of every non-negative argument. */
  ghost predicate Lawful(m: Libm)
  {
    forall x: real :: 0.0 <= x ==> 0.0 <= m.sqrt(x) && Sq(m.sqrt(x)) == x
  }

  /** glm::length */
  function Length3(m: Libm, v: Vec3): real { m.sqrt(Dot3(v, v)) }

  function Length2(m: Libm, v: Vec2): real { m.sqrt(Dot2(v, v)) }

  /** glm::normalize, v scaled by the reciprocal of its length. For the zero vector glm
      divides by zero; here the zero vector is returned unchanged. */
  function Normalize3(m: Libm, v: Vec3): Vec3
  {
    var l := Length3(m, v);
    if l == 0.0 then v else Scale3(v, 1.0 / l)
  }

  function Normalize2(m: Libm, v: Vec2): Vec2
  {
    var l := Length2(m, v);
    if l == 0.0 then v else Scale2(v, 1.0 / l)
  }

  lemma SqOfPositive(b: real)
    requires 0.0 < b
    ensures 0.0 < Sq(b)
  {
    calc {
      Sq(b);
    ==
      b * b;
    >
      0.0;
    }
  }

  /** A square is never negative, and is positive unless its root is zero. */
  lemma SqFacts(a: real)
    ensures 0.0 <= Sq(a)
    ensures a != 0.0 <==> 0.0 < Sq(a)
  {
    if a > 0.0 {
      SqOfPositive(a);
    } else if a < 0.0 {
      SqOfPositive(-a);
      assert Sq(a) == Sq(-a);
    }
  }

  lemma SqOfProduct(a: real, b: real)
    ensures Sq(a * b) == Sq(a) * Sq(b)
  {
  }

  lemma DotSelf3(v: Vec3)
    ensures Dot3(v, v) == Sq(v.x) + Sq(v.y) + Sq(v.z)
  {
  }

  lemma DotSelf2(v: Vec2)
    ensures Dot2(v, v) == Sq(v.x) + Sq(v.y)
  {
  }

  lemma DotScale3(v: Vec3, k: real)
    ensures Dot3(Scale3(v, k), Scale3(v, k)) == Sq(k) * Dot3(v, v)
  {
    var w := Scale3(v, k);
    DotSelf3(w);
    DotSelf3(v);
    SqOfProduct(v.x, k);
    SqOfProduct(v.y, k);
    SqOfProduct(v.z, k);
  }

  /** A vector other than zero has a positive squared length. */
  lemma DotSelfPositive3(v: Vec3)
    ensures 0.0 <= Dot3(v, v)
    ensures v != Zero3 <==> 0.0 < Dot3(v, v)
  {
    SqFacts(v.x);
    SqFacts(v.y);
    SqFacts(v.z);
    DotSelf3(v);
    assert v.x == 0.0 && v.y == 0.0 && v.z == 0.0 ==> v == Zero3;
  }

  lemma DotSelfPositive2(v: Vec2)
    ensures 0.0 <= Dot2(v, v)
    ensures v != Zero2 <==> 0.0 < Dot2(v, v)
  {
    SqFacts(v.x);
    SqFacts(v.y);
    DotSelf2(v);
    assert v.x == 0.0 && v.y == 0.0 ==> v == Zero2;
  }

  /** The length is never negative, squares to the dot product, and is zero exactly for the
      zero vector. */
  lemma LengthFacts3(m: Libm, v: Vec3)
    requires Lawful(m)
    ensures 0.0 <= Length3(m, v)
    ensures Sq(Length3(m, v)) == Dot3(v, v)
    ensures Length3(m, v) == 0.0 <==> v == Zero3
  {
    DotSelfPositive3(v);
    SqFacts(Length3(m, v));
  }

  lemma LengthFacts2(m: Libm, v: Vec2)
    requires Lawful(m)
    ensures 0.0 <= Length2(m, v)
    ensures Sq(Length2(m, v)) == Dot2(v, v)
    ensures Length2(m, v) == 0.0 <==> v == Zero2
  {
    DotSelfPositive2(v);
    SqFacts(Length2(m, v));
  }

  /** glm::normalize of a non-zero vector has unit length. */
  lemma NormalizeIsUnit3(m: Libm, v: Vec3)
    requires Lawful(m)
    requires v != Zero3
    ensures Dot3(Normalize3(m, v), Normalize3(m, v)) == 1.0
  {
    LengthFacts3(m, v);
    var l := Length3(m, v);
    DotScale3(v, 1.0 / l);
    SqOfProduct(1.0 / l, l);
    assert (1.0 / l) * l == 1.0;
  }

  lemma DotScale2(v: Vec2, k: real)
    ensures Dot2(Scale2(v, k), Scale2(v, k)) == Sq(k) * Dot2(v, v)
  {
    var w := Scale2(v, k);
    DotSelf2(w);
    DotSelf2(v);
    SqOfProduct(v.x, k);
    SqOfProduct(v.y, k);
  }

  lemma NormalizeIsUnit2(m: Libm, v: Vec2)
    requires Lawful(m)
    requires v != Zero2
    ensures Dot2(Normalize2(m, v), Normalize2(m, v)) == 1.0
  {
    LengthFacts2(m, v);
    var l := Length2(m, v);
    DotScale2(v, 1.0 / l);
    SqOfProduct(1.0 / l, l);
    assert (1.0 / l) * l == 1.0;
  }
}
