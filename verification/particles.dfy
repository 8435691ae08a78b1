/** One simulated body and the parts of its per-frame update that touch only
    the body itself: the pointer highlight, the wall bounce and the position
    integration (`Particle` and `Particle.update` in src/script.js). */
module Particles {
  import opened Vector
  import opened Options

  /** The program's global physics constants. */
  const Gravity: real := 0.0
  const Friction: real := 1.0
  const MaxRadius: real := 10.0
  const MaxMass: real := 1.0

  /** The pointer lights up bodies whose centre is closer than this. */
  const HighlightRange: real := 100.0
  /** How much the highlight changes per frame. */
  const HighlightStep: real := 0.1

  /** A body: centre `(x, y)`, per-frame displacement `(dx, dy)`, radius,
      mass, and the highlight intensity `fill`. Colour and id are not modelled:
      nothing in the physics reads them. */
  datatype Particle = Particle(
    x: real, y: real,
    dx: real, dy: real,
    radius: real,
    mass: real,
    fill: real)

  /** The drawing surface the bodies bounce inside. */
  datatype Arena = Arena(width: real, height: real)

  /** Gravity added to `dy` per frame, and the factor applied to a velocity
      component on a wall bounce. */
  datatype Physics = Physics(gravity: real, friction: real)

  const Defaults: Physics := Physics(Gravity, Friction)

  function Pos(p: Particle): Vec2 {
    Vec2(p.x, p.y)
  }

  function Vel(p: Particle): Vec2 {
    Vec2(p.dx, p.dy)
  }

  /** `q` is the body `p` with at most its velocity changed. */
  predicate SameBody(p: Particle, q: Particle) {
    q == p.(dx := q.dx, dy := q.dy)
  }

  predicate FillInRange(p: Particle) {
    0.0 <= p.fill <= 1.0
  }

  /** The constructor: the mass is derived from the radius, scaled so that a
      body of the largest radius has the largest mass, and the highlight
      starts dark. */
  function NewParticle(pos: Vec2, vel: Vec2, radius: real): (p: Particle)
    ensures Pos(p) == pos && Vel(p) == vel && p.radius == radius
    ensures p.fill == 0.0 && FillInRange(p)
    ensures radius > 0.0 ==> p.mass > 0.0
    ensures radius == MaxRadius ==> p.mass == MaxMass
  {
    Particle(pos.x, pos.y, vel.x, vel.y, radius, MaxMass * (radius / MaxRadius), 0.0)
  }

  function Min(a: real, b: real): real {
    if a <= b then a else b
  }

  function Max(a: real, b: real): real {
    if a >= b then a else b
  }

  function Abs(a: real): real {
    if a >= 0.0 then a else -a
  }

  /** One frame of the highlight: brighter by one step towards 1 while the
      pointer is near, darker by one step towards 0 otherwise. */
  function Fade(fill: real, near: bool): (r: real)
    ensures 0.0 <= fill <= 1.0 ==> 0.0 <= r <= 1.0
    ensures near && fill <= 1.0 ==> fill <= r <= 1.0
    ensures !near && fill >= 0.0 ==> 0.0 <= r <= fill
  {
    if near then Min(1.0, fill + HighlightStep) else Max(0.0, fill - HighlightStep)
  }

  /** The pointer is within the highlight range of the body's centre. An
      unset pointer compares as "not near": in the program its coordinates
      are undefined, the distance is NaN and the `<` test fails. */
  predicate Near(p: Particle, pointer: Option<Vec2>)
    ensures Near(p, pointer) ==> pointer.Some?
    ensures pointer.Some? ==> (Near(p, pointer) <==> DistSq(pointer.value, Pos(p)) < HighlightRange * HighlightRange)
  {
    pointer.Some? && WithinDistance(Pos(p), pointer.value, HighlightRange)
  }

  /** The highlight step of the update. */
  function Highlight(p: Particle, pointer: Option<Vec2>): (q: Particle)
    ensures q == p.(fill := q.fill)
    ensures FillInRange(p) ==> FillInRange(q)
    ensures pointer.None? ==> q.fill == Max(0.0, p.fill - HighlightStep)
  {
    p.(fill := Fade(p.fill, Near(p, pointer)))
  }

  /** With the current velocity, the next position would put part of the
      body past the left or right wall. */
  predicate LeavesX(p: Particle, arena: Arena) {
    p.x + p.radius + p.dx > arena.width || p.x - p.radius + p.dx < 0.0
  }

  /** Likewise for the bottom or top wall. */
  predicate LeavesY(p: Particle, arena: Arena) {
    p.y + p.radius + p.dy > arena.height || p.y - p.radius + p.dy < 0.0
  }

  /** The wall bounce: a horizontal bounce reverses `dx` with friction; a
      vertical bounce reverses `dy` with friction and damps `dx` once more;
      without a vertical bounce gravity is added to `dy`. */
  function Bounce(p: Particle, arena: Arena, phys: Physics): (q: Particle)
    ensures SameBody(p, q)
    ensures !LeavesX(p, arena) && !LeavesY(p, arena) ==> Vel(q) == Vec2(p.dx, p.dy + phys.gravity)
    ensures LeavesX(p, arena) && !LeavesY(p, arena) ==> Vel(q) == Vec2(-(p.dx * phys.friction), p.dy + phys.gravity)
    ensures !LeavesX(p, arena) && LeavesY(p, arena) ==> Vel(q) == Vec2(p.dx * phys.friction, -(p.dy * phys.friction))
    ensures LeavesX(p, arena) && LeavesY(p, arena) ==>
      Vel(q) == Vec2(-(p.dx * phys.friction) * phys.friction, -(p.dy * phys.friction))
  {
    var dx := if LeavesX(p, arena) then -(p.dx * phys.friction) else p.dx;
    if LeavesY(p, arena) then
      p.(dx := dx * phys.friction, dy := -(p.dy * phys.friction))
    else
      p.(dx := dx, dy := p.dy + phys.gravity)
  }

  function Integrate(p: Particle): Particle {
    p.(x := p.x + p.dx, y := p.y + p.dy)
  }

  /** The motion part of the update: bounce, then move by the new velocity. */
  function Move(p: Particle, arena: Arena, phys: Physics): (q: Particle)
    ensures q.x == p.x + q.dx && q.y == p.y + q.dy
    ensures q.radius == p.radius && q.mass == p.mass && q.fill == p.fill
    ensures LeavesY(p, arena) ==> q.dy == -(p.dy * phys.friction)
    ensures !LeavesY(p, arena) ==> q.dy == p.dy + phys.gravity
    ensures !LeavesX(p, arena) && !LeavesY(p, arena) ==> q.dx == p.dx
    ensures LeavesX(p, arena) && !LeavesY(p, arena) ==> q.dx == -(p.dx * phys.friction)
    ensures !LeavesX(p, arena) && LeavesY(p, arena) ==> q.dx == p.dx * phys.friction
    ensures LeavesX(p, arena) && LeavesY(p, arena) ==> q.dx == -(p.dx * phys.friction) * phys.friction
  {
    Integrate(Bounce(p, arena, phys))
  }

  /** With the default physics (no gravity, no friction loss) a component is
      reversed exactly when the projected position leaves the arena along
      that axis, and speeds along each axis are kept. */
  lemma MoveWithDefaults(p: Particle, arena: Arena)
    ensures Abs(Move(p, arena, Defaults).dx) == Abs(p.dx)
    ensures Abs(Move(p, arena, Defaults).dy) == Abs(p.dy)
    ensures p.dx != 0.0 ==> (Move(p, arena, Defaults).dx == -p.dx <==> LeavesX(p, arena))
    ensures p.dy != 0.0 ==> (Move(p, arena, Defaults).dy == -p.dy <==> LeavesY(p, arena))
  {
  }

  /** A body inside the arena whose projected position crosses a side wall
      turns back towards the inside, whatever the (positive) friction. */
  lemma BounceTurnsBackX(p: Particle, arena: Arena, phys: Physics)
    requires phys.friction > 0.0
    requires 0.0 <= p.x - p.radius && p.x + p.radius <= arena.width
    requires LeavesX(p, arena)
    ensures p.x + p.radius + p.dx > arena.width ==> p.dx > 0.0
    ensures p.x - p.radius + p.dx < 0.0 ==> p.dx < 0.0
    ensures p.dx > 0.0 ==> Move(p, arena, phys).dx < 0.0
    ensures p.dx < 0.0 ==> Move(p, arena, phys).dx > 0.0
    ensures p.dx != 0.0
  {
    var f := phys.friction;
    var once := p.dx * f;
    var twice := once * f;
    if p.dx > 0.0 {
      assert once > 0.0;
      assert twice > 0.0;
    } else if p.dx < 0.0 {
      assert once < 0.0;
      assert twice < 0.0;
    }
  }

  /** Likewise for the top and bottom walls. */
  lemma BounceTurnsBackY(p: Particle, arena: Arena, phys: Physics)
    requires phys.friction > 0.0
    requires 0.0 <= p.y - p.radius && p.y + p.radius <= arena.height
    requires LeavesY(p, arena)
    ensures p.y + p.radius + p.dy > arena.height ==> p.dy > 0.0
    ensures p.y - p.radius + p.dy < 0.0 ==> p.dy < 0.0
    ensures p.dy > 0.0 ==> Move(p, arena, phys).dy < 0.0
    ensures p.dy < 0.0 ==> Move(p, arena, phys).dy > 0.0
    ensures p.dy != 0.0
  {
    var once := p.dy * phys.friction;
    if p.dy > 0.0 {
      assert once > 0.0;
    } else if p.dy < 0.0 {
      assert once < 0.0;
    }
  }

  /** The highlight after `k` frames with the pointer staying near (or
      staying away). */
  function FadeRepeat(fill: real, near: bool, k: nat): real {
    if k == 0 then fill else Fade(FadeRepeat(fill, near, k - 1), near)
  }

  /** Closed form of the highlight ramp: `k` near frames add `k` steps,
      capped at 1; `k` far frames remove `k` steps, floored at 0. */
  lemma {:induction false} FadeRepeatClosedForm(fill: real, k: nat)
    requires 0.0 <= fill <= 1.0
    ensures FadeRepeat(fill, true, k) == Min(1.0, fill + (k as real) * HighlightStep)
    ensures FadeRepeat(fill, false, k) == Max(0.0, fill - (k as real) * HighlightStep)
  {
    if k > 0 {
      FadeRepeatClosedForm(fill, k - 1);
      assert (k as real) * HighlightStep == ((k - 1) as real) * HighlightStep + HighlightStep;
    }
  }
}
