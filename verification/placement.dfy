/** The initial placement of the bodies (`init` in src/script.js): each new
    body takes random candidate centres until one is at least two radii from
    every body placed before it.

    The random source is a finite supply of candidate centres, consumed in
    order, and one velocity per body. When the supply runs out before a clear
    candidate turns up the placement answers `None`: the program would keep
    drawing, possibly forever, so the results here are partial correctness. */
module Placement {
  import opened Vector
  import opened Options
  import opened Particles
  import opened Collision
  import opened World

  /** The number of bodies the program creates. */
  const Population: nat := 400

  /** The candidate centre is closer than two radii to the centre of `q`.
      For a radius that is not positive no distance is below twice it. */
  predicate TooClose(c: Vec2, q: Particle, radius: real)
    ensures TooClose(c, q, radius) <==> WithinDistance(Pos(q), c, radius * 2.0)
    ensures radius <= 0.0 ==> !TooClose(c, q, radius)
  {
    WithinDistance(c, Pos(q), radius * 2.0)
  }

  /** The candidate is far enough from every body placed so far. */
  predicate Clear(placed: seq<Particle>, c: Vec2, radius: real) {
    forall k :: 0 <= k < |placed| ==> !TooClose(c, placed[k], radius)
  }

  /** No two bodies of the collection have centres closer than two radii. */
  predicate Separated(ps: seq<Particle>, radius: real) {
    forall a, b :: 0 <= a < b < |ps| ==> !WithinDistance(Pos(ps[b]), Pos(ps[a]), radius * 2.0)
  }

  /** The index of the first candidate at or after `from` that is clear of
      the bodies placed so far. */
  function FirstClear(placed: seq<Particle>, candidates: seq<Vec2>, from: nat, radius: real): (r: Option<nat>)
    decreases |candidates| - from
    ensures r.Some? ==> from <= r.value < |candidates| && Clear(placed, candidates[r.value], radius)
    ensures r.Some? ==> forall n :: from <= n < r.value ==> !Clear(placed, candidates[n], radius)
    ensures r.None? ==> forall n :: from <= n < |candidates| ==> !Clear(placed, candidates[n], radius)
  {
    if from >= |candidates| then None
    else if Clear(placed, candidates[from], radius) then Some(from)
    else FirstClear(placed, candidates, from + 1, radius)
  }

  /** The reference placement: each new body sits at the first candidate,
      after those already used, that is clear of all bodies placed before it. */
  function PlaceFrom(count: nat, radius: real, candidates: seq<Vec2>, velocities: seq<Vec2>,
                     placed: seq<Particle>, cursor: nat): (r: Option<seq<Particle>>)
    requires |placed| <= count <= |velocities|
    decreases count - |placed|
    ensures r.Some? ==> |r.value| == count && r.value[..|placed|] == placed
    ensures r.Some? && Separated(placed, radius) ==> Separated(r.value, radius)
    ensures r.Some? ==> forall k :: |placed| <= k < count ==>
      r.value[k] == NewParticle(Pos(r.value[k]), velocities[k], radius) && Pos(r.value[k]) in candidates
  {
    if |placed| == count then Some(placed)
    else
      match FirstClear(placed, candidates, cursor, radius)
      case None => None
      case Some(n) =>
        var p := NewParticle(candidates[n], velocities[|placed|], radius);
        PlaceFrom(count, radius, candidates, velocities, placed + [p], n + 1)
  }

  /** The placement loop as the program runs it: the first body is taken as
      drawn; every later body takes the first clear draw (`NextClear`). */
  method Place(count: nat, radius: real, candidates: seq<Vec2>, velocities: seq<Vec2>)
    returns (r: Option<seq<Particle>>)
    requires count <= |velocities|
    ensures r == PlaceFrom(count, radius, candidates, velocities, [], 0)
    ensures r.Some? ==> |r.value| == count && Separated(r.value, radius)
    ensures r.Some? ==> forall k :: 0 <= k < count ==>
      r.value[k].radius == radius && r.value[k].fill == 0.0 && Vel(r.value[k]) == velocities[k]
  {
    var placed: seq<Particle> := [];
    var cursor: nat := 0;
    var i := 0;
    while i < count
      invariant i == |placed| <= count
      invariant Separated(placed, radius)
      invariant PlaceFrom(count, radius, candidates, velocities, placed, cursor)
             == PlaceFrom(count, radius, candidates, velocities, [], 0)
    {
      if cursor >= |candidates| {
        assert FirstClear(placed, candidates, cursor, radius) == None;
        PlaceFromExhausted(count, radius, candidates, velocities, placed, cursor);
        return None;
      }
      var found: Option<nat>;
      if i != 0 {
        found := NextClear(placed, candidates, cursor, radius);
      } else {
        FirstClearAt(placed, candidates, cursor, cursor, radius);
        found := Some(cursor);
      }
      if found.None? {
        PlaceFromExhausted(count, radius, candidates, velocities, placed, cursor);
        return None;
      }
      var n := found.value;
      var p := NewParticle(candidates[n], velocities[i], radius);
      PlaceFromStep(count, radius, candidates, velocities, placed, cursor, n);
      SeparatedAppend(placed, p, radius);
      placed := placed + [p];
      cursor := n + 1;
      i := i + 1;
    }
    r := Some(placed);
  }

  /** The rejection loop for one body: the draw at `from` is compared with
      the placed bodies in order, and a draw that comes too close to one of
      them is replaced by the next one and compared again from the first body
      (`j = -1` in the program). */
  method NextClear(placed: seq<Particle>, candidates: seq<Vec2>, from: nat, radius: real)
    returns (r: Option<nat>)
    requires from < |candidates|
    ensures r == FirstClear(placed, candidates, from, radius)
  {
    var cursor := from;
    var j := 0;
    while j < |placed|
      invariant from <= cursor < |candidates|
      invariant 0 <= j <= |placed|
      invariant forall k :: 0 <= k < j ==> !TooClose(candidates[cursor], placed[k], radius)
      invariant forall n :: from <= n < cursor ==> !Clear(placed, candidates[n], radius)
      decreases |candidates| - cursor, |placed| - j
    {
      if TooClose(candidates[cursor], placed[j], radius) {
        if cursor + 1 >= |candidates| {
          FirstClearNone(placed, candidates, from, radius);
          return None;
        }
        cursor := cursor + 1;
        j := 0;
      } else {
        j := j + 1;
      }
    }
    FirstClearAt(placed, candidates, from, cursor, radius);
    r := Some(cursor);
  }

  lemma FirstClearAt(placed: seq<Particle>, candidates: seq<Vec2>, from: nat, c: nat, radius: real)
    requires from <= c < |candidates| && Clear(placed, candidates[c], radius)
    requires forall n :: from <= n < c ==> !Clear(placed, candidates[n], radius)
    ensures FirstClear(placed, candidates, from, radius) == Some(c)
  {
  }

  lemma FirstClearNone(placed: seq<Particle>, candidates: seq<Vec2>, from: nat, radius: real)
    requires forall n :: from <= n < |candidates| ==> !Clear(placed, candidates[n], radius)
    ensures FirstClear(placed, candidates, from, radius) == None
  {
  }

  lemma PlaceFromStep(count: nat, radius: real, candidates: seq<Vec2>, velocities: seq<Vec2>,
                      placed: seq<Particle>, from: nat, c: nat)
    requires |placed| < count <= |velocities|
    requires FirstClear(placed, candidates, from, radius) == Some(c)
    ensures PlaceFrom(count, radius, candidates, velocities, placed, from)
         == PlaceFrom(count, radius, candidates, velocities,
                      placed + [NewParticle(candidates[c], velocities[|placed|], radius)], c + 1)
  {
  }

  lemma PlaceFromExhausted(count: nat, radius: real, candidates: seq<Vec2>, velocities: seq<Vec2>,
                           placed: seq<Particle>, from: nat)
    requires |placed| < count <= |velocities|
    requires FirstClear(placed, candidates, from, radius) == None
    ensures PlaceFrom(count, radius, candidates, velocities, placed, from) == None
  {
  }

  /** Appending a body clear of all others keeps the collection separated. */
  lemma SeparatedAppend(placed: seq<Particle>, p: Particle, radius: real)
    requires Separated(placed, radius) && Clear(placed, Pos(p), radius)
    ensures Separated(placed + [p], radius)
  {
  }

  /** The program's initialisation: 400 bodies of the largest radius, hence
      all of the same, positive mass, all dark, pairwise at least two radii
      apart. */
  method Init(candidates: seq<Vec2>, velocities: seq<Vec2>) returns (r: Option<seq<Particle>>)
    requires |velocities| == Population
    ensures r.Some? ==> |r.value| == Population && Separated(r.value, MaxRadius)
    ensures r.Some? ==> forall k :: 0 <= k < Population ==>
      r.value[k].radius == MaxRadius && r.value[k].mass == MaxMass && r.value[k].fill == 0.0
  {
    r := Place(Population, MaxRadius, candidates, velocities);
    if r.Some? {
      forall k | 0 <= k < Population
        ensures r.value[k].mass == MaxMass
      {
        assert r.value[k] == NewParticle(Pos(r.value[k]), velocities[k], MaxRadius);
      }
    }
  }

  /** Bodies of one radius that are pairwise two radii apart do not overlap,
      so the first collision scan over the placed bodies resolves nothing. */
  lemma SeparatedScanResolvesNothing(ps: seq<Particle>, radius: real, i: nat, frame: Frame)
    requires Separated(ps, radius) && PositiveMasses(ps) && i < |ps|
    requires forall k :: 0 <= k < |ps| ==> ps[k].radius == radius
    ensures forall k :: 0 <= k < |ps| && k != i ==> !Overlaps(ps[i], ps[k])
    ensures Scan(ps, i, frame) == Scanned(ps, [])
  {
    forall k | 0 <= k < |ps| && k != i
      ensures !Overlaps(ps[i], ps[k])
    {
      assert ps[i].radius + ps[k].radius == radius * 2.0;
      if k < i {
        assert !WithinDistance(Pos(ps[i]), Pos(ps[k]), radius * 2.0);
      } else {
        assert !WithinDistance(Pos(ps[k]), Pos(ps[i]), radius * 2.0);
        WithinDistanceSymmetric(Pos(ps[k]), Pos(ps[i]), radius * 2.0);
      }
    }
  }
}
