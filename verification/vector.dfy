/** Plane vectors, rotations of the velocity frame and distance comparisons.

    The program rotates velocities by an angle obtained from `atan2` and
    measures distances with `sqrt`. Neither is available over `real`, so:
    - an angle is represented by its cosine and sine, `Rotation(c, s)`, and a
      genuine angle satisfies `IsUnit`; rotating by the negated angle is
      rotating by `Inverse(r) == Rotation(c, -s)`;
    - "the distance is below `bound`" is stated on squared distances
      (`WithinDistance`), and `WithinDistanceMeansRootBelow` shows that this is
      exactly the comparison the program makes on the square root. */
module Vector {

  datatype Vec2 = Vec2(x: real, y: real)

  /** The cosine `c` and sine `s` of a rotation angle. */
  datatype Rotation = Rotation(c: real, s: real)

  function Add(a: Vec2, b: Vec2): Vec2 {
    Vec2(a.x + b.x, a.y + b.y)
  }

  function Sub(a: Vec2, b: Vec2): Vec2 {
    Vec2(a.x - b.x, a.y - b.y)
  }

  function Dot(a: Vec2, b: Vec2): real {
    a.x * b.x + a.y * b.y
  }

  function NormSq(v: Vec2): real {
    Dot(v, v)
  }

  /** The squared Euclidean distance between two points. */
  function DistSq(a: Vec2, b: Vec2): real {
    NormSq(Sub(b, a))
  }

  /** `(c, s)` are the cosine and sine of some angle. */
  predicate IsUnit(r: Rotation) {
    r.c * r.c + r.s * r.s == 1.0
  }

  /** The rotation by the negated angle. */
  function Inverse(r: Rotation): (r': Rotation)
    ensures IsUnit(r) ==> IsUnit(r')
  {
    Rotation(r.c, -r.s)
  }

  /** The standard rotation of the plane, as the program's `rotate` computes it
      from `cos(angle)` and `sin(angle)`. */
  function Rotate(v: Vec2, r: Rotation): (w: Vec2)
    ensures NormSq(w) == NormSq(v) * (r.c * r.c + r.s * r.s)
  {
    var w := Vec2(v.x * r.c - v.y * r.s, v.x * r.s + v.y * r.c);
    assert NormSq(w) == (v.x * v.x + v.y * v.y) * (r.c * r.c + r.s * r.s) by {
      calc {
        NormSq(w);
        (v.x * r.c - v.y * r.s) * (v.x * r.c - v.y * r.s)
          + (v.x * r.s + v.y * r.c) * (v.x * r.s + v.y * r.c);
        (v.x * v.x + v.y * v.y) * (r.c * r.c + r.s * r.s);
      }
    }
    w
  }

  /** Rotating by an angle and then by its negation returns the vector. */
  lemma RotateInverse(v: Vec2, r: Rotation)
    requires IsUnit(r)
    ensures Rotate(Rotate(v, r), Inverse(r)) == v
    ensures Rotate(Rotate(v, Inverse(r)), r) == v
  {
    UnitScale(v.x, r);
    UnitScale(v.y, r);
    var w := Rotate(v, r);
    assert Rotate(w, Inverse(r)).x == v.x * (r.c * r.c + r.s * r.s);
    assert Rotate(w, Inverse(r)).y == v.y * (r.c * r.c + r.s * r.s);
    var u := Rotate(v, Inverse(r));
    assert Rotate(u, r).x == v.x * (r.c * r.c + r.s * r.s);
    assert Rotate(u, r).y == v.y * (r.c * r.c + r.s * r.s);
  }

  lemma UnitScale(a: real, r: Rotation)
    requires IsUnit(r)
    ensures a * (r.c * r.c + r.s * r.s) == a
  {
  }

  /** A rotation keeps the squared length of a vector. */
  lemma RotatePreservesNorm(v: Vec2, r: Rotation)
    requires IsUnit(r)
    ensures NormSq(Rotate(v, r)) == NormSq(v)
  {
    UnitScale(NormSq(v), r);
  }

  /** A rotation is linear: it distributes over vector sums. */
  lemma RotateAdd(a: Vec2, b: Vec2, r: Rotation)
    ensures Rotate(Add(a, b), r) == Add(Rotate(a, r), Rotate(b, r))
  {
  }

  /** The rotation takes the displacement `(xd, yd)` onto the non-negative
      x-axis: the rotation by `-atan2(yd, xd)` has this property. */
  predicate Aligned(r: Rotation, xd: real, yd: real) {
    xd * r.s + yd * r.c == 0.0 && xd * r.c - yd * r.s >= 0.0
  }

  /** An aligned rotation maps the displacement to `(d, 0)` where `d` is its
      length: in the rotated frame the line of centres is the x-axis. */
  lemma AlignedMapsOntoAxis(r: Rotation, xd: real, yd: real)
    requires IsUnit(r) && Aligned(r, xd, yd)
    ensures Rotate(Vec2(xd, yd), r).y == 0.0
    ensures Rotate(Vec2(xd, yd), r).x >= 0.0
    ensures Rotate(Vec2(xd, yd), r).x * Rotate(Vec2(xd, yd), r).x == xd * xd + yd * yd
  {
    RotatePreservesNorm(Vec2(xd, yd), r);
  }

  /** The distance between `a` and `b` is below `bound`, stated without the
      square root: `sqrt(D) < bound` holds exactly when `bound > 0` and
      `D < bound * bound`. */
  predicate WithinDistance(a: Vec2, b: Vec2, bound: real) {
    bound > 0.0 && DistSq(a, b) < bound * bound
  }

  /** `WithinDistance` agrees with comparing the literal distance `d`, the
      non-negative root of the squared distance, against `bound`. */
  lemma WithinDistanceMeansRootBelow(a: Vec2, b: Vec2, bound: real, d: real)
    requires d >= 0.0 && d * d == DistSq(a, b)
    ensures WithinDistance(a, b, bound) <==> d < bound
  {
    var dd, db, bb := d * d, d * bound, bound * bound;
    if d < bound {
      assert dd <= db;
      assert db < bb;
    } else if bound > 0.0 {
      assert dd >= db;
      assert db >= bb;
    }
  }

  /** Distance is symmetric. */
  lemma WithinDistanceSymmetric(a: Vec2, b: Vec2, bound: real)
    ensures WithinDistance(a, b, bound) <==> WithinDistance(b, a, bound)
  {
  }
}
