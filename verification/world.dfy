/** The per-frame pass over all bodies: the collision scan and update of one
    body (`Particle.update` in src/script.js) and the in-order world step of
    `animate`. The collection is mutated in place in the program; here each
    stage returns the updated sequence, and a body's index stands for its
    object identity. */
module World {
  import opened Vector
  import opened Options
  import opened Particles
  import opened Collision

  /** What the surroundings supply to one frame: the current arena size and
      the pointer position, unset until the first pointer event. */
  datatype Tick = Tick(arena: Arena, pointer: Option<Vec2>)

  /** The centres are closer than the sum of the radii. The test is the same
      whichever of the two bodies makes it, and never holds for radii that
      do not sum to a positive length. */
  predicate Overlaps(p: Particle, q: Particle)
    ensures Overlaps(p, q) <==> WithinDistance(Pos(q), Pos(p), q.radius + p.radius)
    ensures Overlaps(p, q) ==> p.radius + q.radius > 0.0
  {
    WithinDistance(Pos(p), Pos(q), p.radius + q.radius)
  }

  predicate PositiveMasses(ps: seq<Particle>) {
    forall k :: 0 <= k < |ps| ==> ps[k].mass > 0.0
  }

  predicate UniformMass(ps: seq<Particle>, m: real) {
    forall k :: 0 <= k < |ps| ==> ps[k].mass == m
  }

  predicate FillsInRange(ps: seq<Particle>) {
    forall k :: 0 <= k < |ps| ==> FillInRange(ps[k])
  }

  predicate Increasing(s: seq<nat>) {
    forall a, b :: 0 <= a < b < |s| ==> s[a] < s[b]
  }

  /** The bodies after a collision scan, and the indices of the partners the
      scanning body was resolved against, in scan order. */
  datatype Scanned = Scanned(bodies: seq<Particle>, partners: seq<nat>)

  /** The collision scan of body `i` from index `j` on: every other body whose
      centre is closer than the sum of the radii is resolved against body `i`,
      in index order, each resolution seeing the velocities left by the ones
      before it. Only velocities change, and only bodies that overlap body
      `i` are resolved against it. */
  function ScanFrom(ps: seq<Particle>, i: nat, j: nat, frame: Frame): (r: Scanned)
    requires i < |ps| && j <= |ps|
    requires PositiveMasses(ps)
    decreases |ps| - j
    ensures |r.bodies| == |ps|
    ensures forall k :: 0 <= k < |ps| ==> SameBody(ps[k], r.bodies[k])
    ensures forall n :: 0 <= n < |r.partners| ==>
      j <= r.partners[n] < |ps| && r.partners[n] != i && Overlaps(ps[i], ps[r.partners[n]])
  {
    if j == |ps| then
      Scanned(ps, [])
    else if j != i && Overlaps(ps[i], ps[j]) then
      var pair := Resolve(ps[i], ps[j], frame);
      var rest := ScanFrom(ps[i := pair.0][j := pair.1], i, j + 1, frame);
      Scanned(rest.bodies, [j] + rest.partners)
    else
      ScanFrom(ps, i, j + 1, frame)
  }

  /** The partners come in increasing index order. */
  lemma {:induction false} ScanFromIncreasing(ps: seq<Particle>, i: nat, j: nat, frame: Frame)
    requires i < |ps| && j <= |ps|
    requires PositiveMasses(ps)
    decreases |ps| - j
    ensures Increasing(ScanFrom(ps, i, j, frame).partners)
  {
    if j < |ps| {
      if j != i && Overlaps(ps[i], ps[j]) {
        var pair := Resolve(ps[i], ps[j], frame);
        ScanFromIncreasing(ps[i := pair.0][j := pair.1], i, j + 1, frame);
      } else {
        ScanFromIncreasing(ps, i, j + 1, frame);
      }
    }
  }

  /** Every other body from `j` on that overlaps body `i` is resolved
      against it. */
  lemma {:induction false} ScanFromComplete(ps: seq<Particle>, i: nat, j: nat, frame: Frame)
    requires i < |ps| && j <= |ps|
    requires PositiveMasses(ps)
    decreases |ps| - j
    ensures var r := ScanFrom(ps, i, j, frame);
      forall k :: j <= k < |ps| && k != i && Overlaps(ps[i], ps[k]) ==> k in r.partners
  {
    if j < |ps| {
      var r := ScanFrom(ps, i, j, frame);
      if j != i && Overlaps(ps[i], ps[j]) {
        var pair := Resolve(ps[i], ps[j], frame);
        var next := ps[i := pair.0][j := pair.1];
        var rest := ScanFrom(next, i, j + 1, frame);
        assert r.partners == [j] + rest.partners;
        ScanFromComplete(next, i, j + 1, frame);
        forall k | j <= k < |ps| && k != i && Overlaps(ps[i], ps[k])
          ensures k in r.partners
        {
          if k > j {
            assert Pos(next[k]) == Pos(ps[k]) && next[k].radius == ps[k].radius;
            assert Pos(next[i]) == Pos(ps[i]) && next[i].radius == ps[i].radius;
            assert Overlaps(next[i], next[k]);
            assert k in rest.partners;
          }
        }
      } else {
        ScanFromComplete(ps, i, j + 1, frame);
      }
    }
  }

  /** Bodies other than `i` that are not partners keep every field; a scan
      with no partners changes nothing. */
  lemma {:induction false} ScanFromUntouched(ps: seq<Particle>, i: nat, j: nat, frame: Frame)
    requires i < |ps| && j <= |ps|
    requires PositiveMasses(ps)
    decreases |ps| - j
    ensures var r := ScanFrom(ps, i, j, frame);
      && (forall k :: 0 <= k < |ps| && k != i && k !in r.partners ==> r.bodies[k] == ps[k])
      && (r.partners == [] ==> r.bodies == ps)
  {
    if j < |ps| {
      if j != i && Overlaps(ps[i], ps[j]) {
        var pair := Resolve(ps[i], ps[j], frame);
        ScanFromUntouched(ps[i := pair.0][j := pair.1], i, j + 1, frame);
      } else {
        ScanFromUntouched(ps, i, j + 1, frame);
      }
    }
  }

  /** The reference for what a scan does to the bodies: body `i` is
      resolved against each listed partner in turn, every resolution seeing
      the velocities the previous ones left. */
  function ResolveAll(ps: seq<Particle>, i: nat, partners: seq<nat>, frame: Frame): (r: seq<Particle>)
    requires i < |ps| && PositiveMasses(ps)
    requires forall n :: 0 <= n < |partners| ==> partners[n] < |ps| && partners[n] != i
    decreases |partners|
    ensures |r| == |ps| && PositiveMasses(r)
  {
    if partners == [] then ps
    else
      var k := partners[0];
      var pair := Resolve(ps[i], ps[k], frame);
      ResolveAll(ps[i := pair.0][k := pair.1], i, partners[1..], frame)
  }

  /** The scan's bodies are exactly those of resolving body `i` against its
      partners, in the order the scan found them. */
  lemma {:induction false} ScanFromResolves(ps: seq<Particle>, i: nat, j: nat, frame: Frame)
    requires i < |ps| && j <= |ps|
    requires PositiveMasses(ps)
    decreases |ps| - j
    ensures var r := ScanFrom(ps, i, j, frame);
      r.bodies == ResolveAll(ps, i, r.partners, frame)
  {
    if j < |ps| {
      if j != i && Overlaps(ps[i], ps[j]) {
        var pair := Resolve(ps[i], ps[j], frame);
        var next := ps[i := pair.0][j := pair.1];
        var rest := ScanFrom(next, i, j + 1, frame);
        ScanFromResolves(next, i, j + 1, frame);
        var partners := [j] + rest.partners;
        assert partners[0] == j && partners[1..] == rest.partners;
        assert ResolveAll(ps, i, partners, frame) == ResolveAll(next, i, rest.partners, frame);
      } else {
        ScanFromResolves(ps, i, j + 1, frame);
      }
    }
  }

  /** The whole collision scan of body `i`. */
  function Scan(ps: seq<Particle>, i: nat, frame: Frame): (r: Scanned)
    requires i < |ps| && PositiveMasses(ps)
    ensures |r.bodies| == |ps| && PositiveMasses(r.bodies)
    ensures forall k :: 0 <= k < |ps| ==> SameBody(ps[k], r.bodies[k])
    ensures forall n :: 0 <= n < |r.partners| ==> r.partners[n] != i && r.partners[n] < |ps|
    ensures forall k :: 0 <= k < |ps| && k != i ==> (k in r.partners <==> Overlaps(ps[i], ps[k]))
    ensures forall k :: 0 <= k < |ps| && k != i && k !in r.partners ==> r.bodies[k] == ps[k]
    ensures (forall k :: 0 <= k < |ps| && k != i ==> !Overlaps(ps[i], ps[k])) ==> r == Scanned(ps, [])
    ensures Increasing(r.partners)
    ensures r.bodies == ResolveAll(ps, i, r.partners, frame)
  {
    ScanFromComplete(ps, i, 0, frame);
    ScanFromUntouched(ps, i, 0, frame);
    ScanFromIncreasing(ps, i, 0, frame);
    ScanFromResolves(ps, i, 0, frame);
    var r := ScanFrom(ps, i, 0, frame);
    assert |r.partners| > 0 ==> var k := r.partners[0]; k < |ps| && k != i && Overlaps(ps[i], ps[k]);
    r
  }

  /** An increasing sequence holding only `k`, at least once, is `[k]`. */
  lemma IncreasingOfOne(s: seq<nat>, k: nat)
    requires Increasing(s) && k in s
    requires forall n :: 0 <= n < |s| ==> s[n] == k
    ensures s == [k]
  {
    IncreasingSpread(s);
    assert |s| == 1 && s[0] == k;
  }

  /** Indices of an increasing sequence are at least one apart per step. */
  lemma {:induction false} IncreasingSpread(s: seq<nat>)
    requires Increasing(s) && |s| > 0
    ensures s[|s| - 1] >= s[0] + |s| - 1
  {
    if |s| > 1 {
      var t := s[1..];
      assert Increasing(t) by {
        forall a, b | 0 <= a < b < |t|
          ensures t[a] < t[b]
        {
          assert t[a] == s[a + 1] && t[b] == s[b + 1];
        }
      }
      IncreasingSpread(t);
      assert s[0] < s[1];
    }
  }

  /** A body overlapping exactly one other body is resolved against it once,
      and nothing else changes. */
  lemma ScanSinglePartner(ps: seq<Particle>, i: nat, k: nat, frame: Frame)
    requires i < |ps| && k < |ps| && k != i && PositiveMasses(ps)
    requires Overlaps(ps[i], ps[k])
    requires forall n :: 0 <= n < |ps| && n != i && n != k ==> !Overlaps(ps[i], ps[n])
    ensures var pair := Resolve(ps[i], ps[k], frame);
      Scan(ps, i, frame) == Scanned(ps[i := pair.0][k := pair.1], [k])
  {
    var r := Scan(ps, i, frame);
    assert k in r.partners;
    assert forall n :: 0 <= n < |r.partners| ==> r.partners[n] == k;
    IncreasingOfOne(r.partners, k);
    var pair := Resolve(ps[i], ps[k], frame);
    var next := ps[i := pair.0][k := pair.1];
    assert [k][1..] == [];
    assert ResolveAll(ps, i, [k], frame) == ResolveAll(next, i, [], frame);
  }

  /** The update of body `i`: collision scan, highlight, bounce and move. */
  function Update(ps: seq<Particle>, i: nat, tick: Tick, phys: Physics, frame: Frame): (r: seq<Particle>)
    requires i < |ps| && PositiveMasses(ps)
    ensures |r| == |ps| && PositiveMasses(r)
    ensures forall k :: 0 <= k < |ps| && k != i ==> SameBody(ps[k], r[k])
    ensures r[i].radius == ps[i].radius && r[i].mass == ps[i].mass
    ensures r[i].fill == Fade(ps[i].fill, Near(ps[i], tick.pointer))
    ensures r[i].x == ps[i].x + r[i].dx && r[i].y == ps[i].y + r[i].dy
    ensures forall k :: 0 <= k < |ps| && k != i && !Overlaps(ps[i], ps[k]) ==> r[k] == ps[k]
    ensures (forall k :: 0 <= k < |ps| && k != i ==> !Overlaps(ps[i], ps[k])) ==>
      r == ps[i := Move(Highlight(ps[i], tick.pointer), tick.arena, phys)]
    ensures forall k :: 0 <= k < |ps| && k != i ==> r[k] == Scan(ps, i, frame).bodies[k]
    ensures r[i] == Move(Highlight(Scan(ps, i, frame).bodies[i], tick.pointer), tick.arena, phys)
  {
    var s := Scan(ps, i, frame).bodies;
    s[i := Move(Highlight(s[i], tick.pointer), tick.arena, phys)]
  }

  /** A body touching exactly one other body: the update resolves that one
      collision, then highlights, bounces and moves the body with the velocity
      the collision left it; the other body keeps its collision velocity. */
  lemma UpdateSinglePartner(ps: seq<Particle>, i: nat, k: nat, tick: Tick, phys: Physics, frame: Frame)
    requires i < |ps| && k < |ps| && k != i && PositiveMasses(ps)
    requires Overlaps(ps[i], ps[k])
    requires forall n :: 0 <= n < |ps| && n != i && n != k ==> !Overlaps(ps[i], ps[n])
    ensures var pair := Resolve(ps[i], ps[k], frame);
      Update(ps, i, tick, phys, frame)
        == ps[i := Move(Highlight(pair.0, tick.pointer), tick.arena, phys)][k := pair.1]
  {
    ScanSinglePartner(ps, i, k, frame);
  }

  /** The updates of bodies `i`, `i + 1`, ... in order, each on the sequence
      the previous ones left. */
  function StepFrom(ps: seq<Particle>, i: nat, tick: Tick, phys: Physics, frame: Frame): (r: seq<Particle>)
    requires i <= |ps| && PositiveMasses(ps)
    decreases |ps| - i
    ensures |r| == |ps| && PositiveMasses(r)
    ensures forall k :: 0 <= k < |ps| ==> r[k].radius == ps[k].radius && r[k].mass == ps[k].mass
    ensures forall k :: 0 <= k < i ==> SameBody(ps[k], r[k])
    ensures forall k :: i <= k < |ps| ==> r[k].fill == Fade(ps[k].fill, Near(ps[k], tick.pointer))
  {
    if i == |ps| then ps
    else StepFrom(Update(ps, i, tick, phys, frame), i + 1, tick, phys, frame)
  }

  /** One frame of the simulation. Every body is faded exactly once, by where
      it stood when the frame began; masses and radii never change. */
  function Step(ps: seq<Particle>, tick: Tick, phys: Physics, frame: Frame): (r: seq<Particle>)
    requires PositiveMasses(ps)
    ensures |r| == |ps| && PositiveMasses(r)
    ensures forall k :: 0 <= k < |ps| ==> r[k].radius == ps[k].radius && r[k].mass == ps[k].mass
    ensures forall k :: 0 <= k < |ps| ==> r[k].fill == Fade(ps[k].fill, Near(ps[k], tick.pointer))
    ensures FillsInRange(ps) ==> FillsInRange(r)
  {
    StepFrom(ps, 0, tick, phys, frame)
  }

  /** A run of frames, one per tick. */
  function Run(ps: seq<Particle>, ticks: seq<Tick>, phys: Physics, frame: Frame): (r: seq<Particle>)
    requires PositiveMasses(ps)
    ensures |r| == |ps| && PositiveMasses(r)
    ensures forall m: real :: UniformMass(ps, m) ==> UniformMass(r, m)
    ensures FillsInRange(ps) ==> FillsInRange(r)
    decreases |ticks|
  {
    if ticks == [] then ps
    else Run(Step(ps, ticks[0], phys, frame), ticks[1..], phys, frame)
  }

  /** Without a pointer every highlight dims by one step (floored at 0): the
      unset pointer takes the "far" branch rather than skipping the update. */
  lemma StepWithoutPointerDims(ps: seq<Particle>, arena: Arena, phys: Physics, frame: Frame)
    requires PositiveMasses(ps)
    ensures var r := Step(ps, Tick(arena, None), phys, frame);
      forall k :: 0 <= k < |ps| ==> r[k].fill == Max(0.0, ps[k].fill - HighlightStep)
  {
  }

  /** A lone body has no one to collide with: its update is the highlight
      and the move alone. */
  lemma LoneBodyUpdate(p: Particle, tick: Tick, phys: Physics, frame: Frame)
    requires p.mass > 0.0
    ensures Update([p], 0, tick, phys, frame) == [Move(Highlight(p, tick.pointer), tick.arena, phys)]
  {
    assert Scan([p], 0, frame).bodies == [p];
  }

  /** A lone body moving left whose projected left edge passes the left
      wall, and which stays clear of the top and bottom walls, bounces with
      the default physics: `dx` turns to `-dx`, and it moves by the new
      velocity. The body at `(5, 50)` with radius 10 and velocity `(-3, 0)`
      in a 200 by 200 arena is an instance: it turns to `dx == 3` and moves
      to `x == 8`. */
  lemma LeftWallBounce(p: Particle, tick: Tick, frame: Frame)
    requires p.mass > 0.0 && p.dx < 0.0
    requires p.x - p.radius + p.dx < 0.0
    requires !LeavesY(p, tick.arena)
    ensures var r := Update([p], 0, tick, Defaults, frame);
      && r[0].dx == -p.dx > 0.0 && r[0].x == p.x - p.dx
      && r[0].dy == p.dy && r[0].y == p.y + p.dy
  {
    LoneBodyUpdate(p, tick, Defaults, frame);
  }

  /** The wall bounce of a lone body at `(5, 50)` with radius 10 and velocity
      `(-3, 0)` in a 200 by 200 arena: its projected left edge is at -8, so it
      turns to `dx == 3` and moves to `x == 8`. */
  lemma LeftWallBounceExample(pointer: Option<Vec2>, frame: Frame)
    ensures var r := Update([Particle(5.0, 50.0, -3.0, 0.0, 10.0, MaxMass, 0.0)], 0,
                            Tick(Arena(200.0, 200.0), pointer), Defaults, frame);
      r[0].dx == 3.0 && r[0].x == 8.0 && r[0].dy == 0.0 && r[0].y == 50.0
  {
    LeftWallBounce(Particle(5.0, 50.0, -3.0, 0.0, 10.0, MaxMass, 0.0), Tick(Arena(200.0, 200.0), pointer), frame);
  }

  /** A frame of one body is its highlight followed by its move. */
  lemma StepLone(p: Particle, tick: Tick, phys: Physics, frame: Frame)
    requires p.mass > 0.0
    ensures Step([p], tick, phys, frame) == [Move(Highlight(p, tick.pointer), tick.arena, phys)]
  {
    var r := Update([p], 0, tick, phys, frame);
    assert StepFrom(r, 1, tick, phys, frame) == r;
  }

  /** The frame is one pass in index order, with each body updated in place:
      with two bodies, the second body's scan runs against the first body at
      the position the first update has just moved it to, and collides with
      it exactly when they overlap there. */
  lemma TwoBodyStepInOrder(a: Particle, b: Particle, tick: Tick, phys: Physics, frame: Frame)
    requires a.mass > 0.0 && b.mass > 0.0
    ensures var s := Update([a, b], 0, tick, phys, frame);
      && Step([a, b], tick, phys, frame) == Update(s, 1, tick, phys, frame)
      && s[0].x == a.x + s[0].dx && s[0].y == a.y + s[0].dy
      && (0 in Scan(s, 1, frame).partners <==> Overlaps(s[1], s[0]))
  {
    var ps := [a, b];
    var s := Update(ps, 0, tick, phys, frame);
    var t := Update(s, 1, tick, phys, frame);
    assert StepFrom(t, 2, tick, phys, frame) == t;
    assert StepFrom(s, 1, tick, phys, frame) == t;
  }

  /** In the same two-body frame, the first body ends with the velocity the
      second body's collision with it gives, when they overlap after the
      first move, and as its own update left it otherwise. */
  lemma TwoBodyStepCollides(a: Particle, b: Particle, tick: Tick, phys: Physics, frame: Frame)
    requires a.mass > 0.0 && b.mass > 0.0
    ensures var s := Update([a, b], 0, tick, phys, frame);
      && (Overlaps(s[1], s[0]) ==> Step([a, b], tick, phys, frame)[0] == Resolve(s[1], s[0], frame).1)
      && (!Overlaps(s[1], s[0]) ==> Step([a, b], tick, phys, frame)[0] == s[0])
  {
    TwoBodyStepInOrder(a, b, tick, phys, frame);
    var s := Update([a, b], 0, tick, phys, frame);
    if Overlaps(s[1], s[0]) {
      ScanSinglePartner(s, 1, 0, frame);
    }
  }

  // ----- conservation of the scan for equal masses -----

  function VelX(p: Particle): real {
    p.dx
  }

  function VelY(p: Particle): real {
    p.dy
  }

  function SpeedSq(p: Particle): real {
    NormSq(Vel(p))
  }

  /** The sum of a per-body quantity over the collection. */
  function Total(ps: seq<Particle>, f: Particle -> real): real {
    if ps == [] then 0.0 else f(ps[0]) + Total(ps[1..], f)
  }

  /** Replacing one body changes the total by the difference at that body. */
  lemma {:induction false} TotalUpdate(ps: seq<Particle>, k: nat, p: Particle, f: Particle -> real)
    requires k < |ps|
    ensures Total(ps[k := p], f) == Total(ps, f) - f(ps[k]) + f(p)
  {
    if k == 0 {
      assert ps[k := p][1..] == ps[1..];
    } else {
      TotalUpdate(ps[1..], k - 1, p, f);
      assert ps[k := p][1..] == ps[1..][k - 1 := p];
    }
  }

  /** Replacing two bodies whose quantities keep their sum keeps the total. */
  lemma TotalPairUpdate(ps: seq<Particle>, i: nat, j: nat, a: Particle, b: Particle, f: Particle -> real)
    requires i < |ps| && j < |ps| && i != j
    requires f(a) + f(b) == f(ps[i]) + f(ps[j])
    ensures Total(ps[i := a][j := b], f) == Total(ps, f)
  {
    TotalUpdate(ps, i, a, f);
    TotalUpdate(ps[i := a], j, b, f);
  }

  /** With all masses equal, a collision scan keeps the total velocity (so the
      total momentum) and the total squared speed (so the kinetic energy). */
  lemma {:induction false} ScanFromConserves(ps: seq<Particle>, i: nat, j: nat, frame: Frame, m: real)
    requires i < |ps| && j <= |ps|
    requires m > 0.0 && UniformMass(ps, m)
    requires UnitFrame(frame)
    decreases |ps| - j
    ensures var r := ScanFrom(ps, i, j, frame).bodies;
      && Total(r, VelX) == Total(ps, VelX)
      && Total(r, VelY) == Total(ps, VelY)
      && Total(r, SpeedSq) == Total(ps, SpeedSq)
  {
    if j < |ps| && j != i && Overlaps(ps[i], ps[j]) {
      var pair := Resolve(ps[i], ps[j], frame);
      ResolveConserves(ps[i], ps[j], frame);
      var next := ps[i := pair.0][j := pair.1];
      TotalPairUpdate(ps, i, j, pair.0, pair.1, VelX);
      TotalPairUpdate(ps, i, j, pair.0, pair.1, VelY);
      TotalPairUpdate(ps, i, j, pair.0, pair.1, SpeedSq);
      ScanFromConserves(next, i, j + 1, frame, m);
    } else if j < |ps| {
      ScanFromConserves(ps, i, j + 1, frame, m);
    }
  }

  /** The collision scan of any body conserves momentum and kinetic energy
      when all bodies have the same mass, as every body built by the
      placement does. */
  lemma ScanConserves(ps: seq<Particle>, i: nat, frame: Frame, m: real)
    requires i < |ps| && m > 0.0 && UniformMass(ps, m)
    requires UnitFrame(frame)
    ensures var r := Scan(ps, i, frame).bodies;
      && Total(r, VelX) == Total(ps, VelX)
      && Total(r, VelY) == Total(ps, VelY)
      && Total(r, SpeedSq) == Total(ps, SpeedSq)
  {
    ScanFromConserves(ps, i, 0, frame, m);
  }
}
