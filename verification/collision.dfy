/** The pairwise collision resolver (`resolveCollision` in src/script.js).

    The angle `-atan2(yd, xd)` of the line of centres is supplied by a
    `Frame`: a function from the displacement `(xd, yd)` between the two
    centres to the cosine and sine of that angle. Every property below that
    needs a genuine angle asks only that the frame give a unit pair. */
module Collision {
  import opened Vector
  import opened Particles

  type Frame = (real, real) -> Rotation

  /** Every displacement gets the cosine and sine of some angle. */
  ghost predicate UnitFrame(frame: Frame) {
    forall xd: real, yd: real :: IsUnit(frame(xd, yd))
  }

  /** The approach guard: the relative velocity does not point away from the
      other centre (the dot product with the displacement is not negative). */
  predicate Approaching(a: Particle, b: Particle)
    ensures Approaching(a, b) <==> Dot(Sub(Vel(b), Vel(a)), Sub(Pos(a), Pos(b))) >= 0.0
  {
    Dot(Sub(Vel(a), Vel(b)), Sub(Pos(b), Pos(a))) >= 0.0
  }

  /** The 1-D exchange along the rotated x-axis, with the program's mass
      weights: both new x-components use `(m2 - m1)` and `2 * m2`. The
      y-components pass through. */
  function Exchange(u1: Vec2, u2: Vec2, m1: real, m2: real): (v: (Vec2, Vec2))
    requires m1 + m2 != 0.0
    ensures v.0.y == u1.y && v.1.y == u2.y
  {
    (Vec2(u1.x * (m2 - m1) / (m1 + m2) + u2.x * 2.0 * m2 / (m1 + m2), u1.y),
     Vec2(u2.x * (m2 - m1) / (m1 + m2) + u1.x * 2.0 * m2 / (m1 + m2), u2.y))
  }

  /** With equal masses the exchange swaps the x-components. */
  lemma ExchangeEqualMasses(u1: Vec2, u2: Vec2, m: real)
    requires m != 0.0
    ensures Exchange(u1, u2, m, m) == (Vec2(u2.x, u1.y), Vec2(u1.x, u2.y))
  {
    var sum := m + m;
    assert u1.x * (m - m) / sum == 0.0;
    assert u2.x * (m - m) / sum == 0.0;
    assert u2.x * 2.0 * m == u2.x * sum;
    assert u1.x * 2.0 * m == u1.x * sum;
    DivCancel(u2.x, sum);
    DivCancel(u1.x, sum);
    assert Exchange(u1, u2, m, m).0.x == u2.x;
    assert Exchange(u1, u2, m, m).1.x == u1.x;
  }

  lemma DivCancel(a: real, d: real)
    requires d != 0.0
    ensures a * d / d == a
  {
  }

  /** Resolves a collision between `a` and `b`: when they are approaching,
      rotate both velocities into the frame of the line of centres, exchange
      along it, and rotate back; a separating pair is left as it is. Only the
      two velocities can change. */
  function Resolve(a: Particle, b: Particle, frame: Frame): (r: (Particle, Particle))
    requires a.mass + b.mass != 0.0
    ensures SameBody(a, r.0) && SameBody(b, r.1)
    ensures !Approaching(a, b) ==> r == (a, b)
  {
    if Approaching(a, b) then
      var rot := frame(b.x - a.x, b.y - a.y);
      var u1 := Rotate(Vel(a), rot);
      var u2 := Rotate(Vel(b), rot);
      var v := Exchange(u1, u2, a.mass, b.mass);
      var f1 := Rotate(v.0, Inverse(rot));
      var f2 := Rotate(v.1, Inverse(rot));
      (a.(dx := f1.x, dy := f1.y), b.(dx := f2.x, dy := f2.y))
    else
      (a, b)
  }

  /** Equal masses: in the collision frame the two bodies swap their normal
      components and keep their tangential ones. */
  lemma ResolveSwapsNormalComponents(a: Particle, b: Particle, frame: Frame)
    requires a.mass == b.mass && a.mass != 0.0
    requires IsUnit(frame(b.x - a.x, b.y - a.y))
    requires Approaching(a, b)
    ensures var rot := frame(b.x - a.x, b.y - a.y);
      var r := Resolve(a, b, frame);
      && Rotate(Vel(r.0), rot) == Vec2(Rotate(Vel(b), rot).x, Rotate(Vel(a), rot).y)
      && Rotate(Vel(r.1), rot) == Vec2(Rotate(Vel(a), rot).x, Rotate(Vel(b), rot).y)
  {
    var rot := frame(b.x - a.x, b.y - a.y);
    var u1 := Rotate(Vel(a), rot);
    var u2 := Rotate(Vel(b), rot);
    ExchangeEqualMasses(u1, u2, a.mass);
    var r := Resolve(a, b, frame);
    assert Vel(r.0) == Rotate(Vec2(u2.x, u1.y), Inverse(rot));
    assert Vel(r.1) == Rotate(Vec2(u1.x, u2.y), Inverse(rot));
    RotateInverse(Vec2(u2.x, u1.y), rot);
    RotateInverse(Vec2(u1.x, u2.y), rot);
  }

  /** Equal masses: the sum of the two velocities (so the momentum) and the
      sum of their squared speeds (so the kinetic energy) are kept. */
  lemma ResolveConserves(a: Particle, b: Particle, frame: Frame)
    requires a.mass == b.mass && a.mass != 0.0
    requires IsUnit(frame(b.x - a.x, b.y - a.y))
    ensures var r := Resolve(a, b, frame);
      && Add(Vel(r.0), Vel(r.1)) == Add(Vel(a), Vel(b))
      && NormSq(Vel(r.0)) + NormSq(Vel(r.1)) == NormSq(Vel(a)) + NormSq(Vel(b))
  {
    if Approaching(a, b) {
      ResolveKeepsMomentum(a, b, frame);
      ResolveKeepsEnergy(a, b, frame);
    }
  }

  /** Momentum: rotating back the sum, which the swap leaves equal to the
      sum of the rotated velocities. */
  lemma ResolveKeepsMomentum(a: Particle, b: Particle, frame: Frame)
    requires a.mass == b.mass && a.mass != 0.0
    requires IsUnit(frame(b.x - a.x, b.y - a.y))
    requires Approaching(a, b)
    ensures var r := Resolve(a, b, frame);
      Add(Vel(r.0), Vel(r.1)) == Add(Vel(a), Vel(b))
  {
    var rot := frame(b.x - a.x, b.y - a.y);
    var inv := Inverse(rot);
    var u1 := Rotate(Vel(a), rot);
    var u2 := Rotate(Vel(b), rot);
    var v1, v2 := Vec2(u2.x, u1.y), Vec2(u1.x, u2.y);
    ExchangeEqualMasses(u1, u2, a.mass);
    var r := Resolve(a, b, frame);
    assert Vel(r.0) == Rotate(v1, inv);
    assert Vel(r.1) == Rotate(v2, inv);
    RotateAdd(v1, v2, inv);
    RotateAdd(Vel(a), Vel(b), rot);
    assert Add(v1, v2) == Rotate(Add(Vel(a), Vel(b)), rot);
    RotateInverse(Add(Vel(a), Vel(b)), rot);
  }

  /** Energy: both rotations keep squared lengths, and the swap keeps their
      sum. */
  lemma ResolveKeepsEnergy(a: Particle, b: Particle, frame: Frame)
    requires a.mass == b.mass && a.mass != 0.0
    requires IsUnit(frame(b.x - a.x, b.y - a.y))
    requires Approaching(a, b)
    ensures var r := Resolve(a, b, frame);
      NormSq(Vel(r.0)) + NormSq(Vel(r.1)) == NormSq(Vel(a)) + NormSq(Vel(b))
  {
    var rot := frame(b.x - a.x, b.y - a.y);
    var inv := Inverse(rot);
    var u1 := Rotate(Vel(a), rot);
    var u2 := Rotate(Vel(b), rot);
    var v1, v2 := Vec2(u2.x, u1.y), Vec2(u1.x, u2.y);
    ExchangeEqualMasses(u1, u2, a.mass);
    var r := Resolve(a, b, frame);
    assert Vel(r.0) == Rotate(v1, inv);
    assert Vel(r.1) == Rotate(v2, inv);
    RotatePreservesNorm(v1, inv);
    RotatePreservesNorm(v2, inv);
    RotatePreservesNorm(Vel(a), rot);
    RotatePreservesNorm(Vel(b), rot);
  }

  /** Two bodies on one horizontal line, the left one at least as fast to
      the right as the other: the relative velocity does not point away. */
  lemma ApproachingOnAxis(a: Particle, b: Particle)
    requires a.y == b.y && a.x <= b.x && a.dx >= b.dx
    ensures Approaching(a, b)
  {
    var u := Sub(Vel(a), Vel(b));
    var w := Sub(Pos(b), Pos(a));
    assert w.y == 0.0 && u.x >= 0.0 && w.x >= 0.0;
    assert u.x * w.x >= 0.0;
  }

  /** Rotating by the identity changes nothing. */
  lemma RotateIdentity(v: Vec2)
    ensures Rotate(v, Rotation(1.0, 0.0)) == v
  {
  }

  /** A head-on collision along the x-axis: two bodies of equal mass on one
      horizontal line, the left one approaching, exchange their horizontal
      velocities and keep their vertical ones. The frame only has to be what
      `-atan2` gives: a unit rotation carrying the displacement onto the
      positive x-axis, which there is the identity (`AlignedOnPositiveX`). */
  lemma HeadOnExchange(a: Particle, b: Particle, frame: Frame)
    requires a.mass == b.mass && a.mass != 0.0
    requires a.y == b.y && a.x < b.x && a.dx >= b.dx
    requires IsUnit(frame(b.x - a.x, 0.0)) && Aligned(frame(b.x - a.x, 0.0), b.x - a.x, 0.0)
    ensures Vel(Resolve(a, b, frame).0) == Vec2(b.dx, a.dy)
    ensures Vel(Resolve(a, b, frame).1) == Vec2(a.dx, b.dy)
  {
    AlignedOnPositiveX(frame(b.x - a.x, 0.0), b.x - a.x);
    assert b.y - a.y == 0.0;
    ApproachingOnAxis(a, b);
    ResolveSwapsNormalComponents(a, b, frame);
    var r := Resolve(a, b, frame);
    RotateIdentity(Vel(a));
    RotateIdentity(Vel(b));
    RotateIdentity(Vel(r.0));
    RotateIdentity(Vel(r.1));
  }

  /** The only unit rotation aligned with a displacement along the positive
      x-axis is the identity, the cosine and sine of `-atan2(0, xd) == 0`. */
  lemma AlignedOnPositiveX(rot: Rotation, xd: real)
    requires xd > 0.0
    requires IsUnit(rot) && Aligned(rot, xd, 0.0)
    ensures rot == Rotation(1.0, 0.0)
  {
    assert xd * rot.s == 0.0;
    assert rot.s == 0.0;
    var c := rot.c;
    assert c * c == 1.0;
    assert xd * c >= 0.0;
    assert c >= 0.0;
  }

  /** The exchange as written conserves momentum only for equal masses:
      masses 1 and 2, the first moving at 1 and the second at rest along the
      line of centres, give a total momentum of 1 before and 3 after. */
  lemma ExchangeUnequalMassesBreaksMomentum()
    ensures var v := Exchange(Vec2(1.0, 0.0), Vec2(0.0, 0.0), 1.0, 2.0);
      1.0 * v.0.x + 2.0 * v.1.x == 3.0
  {
  }
}
