# Canvas particle collisions: a Dafny model of the physics kernel

The program animates 400 circular bodies in a browser canvas. Every frame,
each body in turn:

1. scans all other bodies and resolves an elastic collision with every one
   whose centre is closer than the sum of the radii;
2. updates its highlight `fill` from the pointer distance;
3. bounces off the walls, with friction and gravity;
4. moves by its velocity.

At start-up, rejection sampling places the bodies so that no two overlap.

This project models that kernel in `src/script.js` over `real` numbers, with
immutable records and pure functions, and proves properties of it:

- `options.dfy` (`Options`): `Option`, used for the unset pointer and for a
  placement whose random supply runs out.
- `vector.dfy` (`Vector`): vectors, the rotation `rotate`, and distance
  comparisons without square roots.
- `particles.dfy` (`Particles`): the `Particle` record, its constructor, the
  highlight, the wall bounce and the integration.
- `collision.dfy` (`Collision`): `resolveCollision`.
- `world.dfy` (`World`): the collision scan and update of one body
  (`Particle.update`), the in-order world step of `animate`, and runs of
  frames.
- `placement.dfy` (`Placement`): the placement loop of `init`.

How the model stands in for what `real` cannot express:

- **Angles.** `atan2`, `cos` and `sin` are replaced by a `Frame`. A frame
  maps the displacement `(xd, yd)` between two centres to a pair `(c, s)`:
  the cosine and sine of `-atan2(yd, xd)`. Rotating by `-angle` is rotating
  by `Inverse(r) == Rotation(c, -s)`. The properties ask only that `c² + s²
  == 1` (`IsUnit`). `Aligned` states what `-atan2` adds: the displacement is
  carried onto the positive x-axis.
- **Square roots.** `getDistance(...) < b` becomes `WithinDistance`, which
  means `b > 0` and squared distance `< b²`.
  `Vector.WithinDistanceMeansRootBelow` proves that this is exactly the
  comparison of the true root with `b`. It holds for any sign of `b`.
- **Bodies in place.** The program mutates bodies in place. Here a body is
  an index into a `seq<Particle>`, and the identity test `this !== particle`
  becomes `j != i`. A body's update sees the velocities that earlier updates
  in the same frame left, as in the program.
- **The pointer.** Before the first pointer event, `mouse.x` and `mouse.y`
  are `undefined`. `getDistance` then yields NaN and `NaN < 100` is false, so
  the highlight dims: the update is not skipped. The model represents the
  unset pointer as `None`, and `Near` is false for it.
- **The exchange formula.** The code uses `(m2 - m1)` and `2 * m2` in both
  lines 77 and 78. This is the textbook formula only when the masses are
  equal. Every body the program builds has the largest radius, so its mass
  is `maxMass = 1`. Momentum and energy conservation are therefore proved for
  equal masses only. `Collision.ExchangeUnequalMassesBreaksMomentum` shows
  that for masses 1 and 2 the momentum is 1 before the exchange and 3 after.

## Model

| member | source | states |
|---|---|---|
| `Vector.Inverse` | src/script.js:81-82 | rotating back by the negated angle uses `(c, -s)`, which is again the cosine and sine of an angle |
| `Vector.Rotate` | src/script.js:47-54 | `rotate` scales squared lengths by `cos² + sin²` (Lagrange's identity), so a genuine angle keeps the speed |
| `Vector.RotateInverse` | src/script.js:73-82 | rotating a velocity into the collision frame and back (or back and then forward) returns it unchanged, for any unit `(c, s)` |
| `Vector.RotatePreservesNorm` | src/script.js:47-54 | `rotate` keeps the squared length of a velocity |
| `Vector.AlignedMapsOntoAxis` | src/script.js:66 | the rotation by `-atan2(yd, xd)` carries the line of centres onto the non-negative x-axis, at a distance equal to its length |
| `Vector.WithinDistanceMeansRootBelow` | src/script.js:39-45 | the squared-distance test agrees with `sqrt(dx² + dy²) < bound` for the non-negative root, for every bound |
| `Particles.NewParticle` | src/script.js:93-102 | a new body has the given centre, velocity and radius and a dark highlight; its mass is positive for a positive radius, and equals `maxMass` at `maxRadius` |
| `Particles.Fade` | src/script.js:127-133 | one highlight step keeps `fill` in `[0, 1]`; it never decreases while the pointer is near and never increases otherwise |
| `Particles.Highlight` | src/script.js:126-133 | only `fill` changes, it stays in `[0, 1]`, and an unset pointer dims by one step, floored at 0, instead of being skipped |
| `Particles.FadeRepeatClosedForm` | src/script.js:127-133 | after `k` frames near the pointer, `fill` is `min(1, fill + k/10)`; after `k` frames away from it, `max(0, fill - k/10)` |
| `Particles.Near` | src/script.js:127 | the pointer is near exactly when it is set and its squared distance from the centre is below `100²`; an unset pointer is never near |
| `Particles.Bounce` | src/script.js:138-146 | only the velocity changes. A side-wall crossing reverses `dx` with friction; a top or bottom crossing reverses `dy` with friction and multiplies `dx` by the friction once more; without one, gravity is added to `dy`. All four combinations of the two tests are stated |
| `Particles.Move` | src/script.js:137-148 | the new position is the old one plus the updated velocity. A vertical bounce reverses `dy` with friction; without one, gravity is added to `dy`. `dx` is kept with no bounce, becomes `-(dx·f)` after a side-wall bounce alone, `dx·f` after a top or bottom bounce alone, and `-(dx·f)·f` after both. Radius, mass and `fill` are untouched |
| `Particles.MoveWithDefaults` | src/script.js:6-7 | with gravity 0 and friction 1, `abs(dx)` and `abs(dy)` are kept. For a moving body, a component is reversed exactly when the projected position leaves the arena on that axis |
| `Particles.BounceTurnsBackX` | src/script.js:138-140 | for a body inside the arena, a projected crossing of the right wall means `dx > 0` and of the left wall `dx < 0`; with positive friction the bounce turns `dx` to the opposite sign, away from the crossed wall |
| `Particles.BounceTurnsBackY` | src/script.js:141-146 | the same for `dy` and the bottom (`y + r + dy > height`, so `dy > 0`) and top (`y - r + dy < 0`, so `dy < 0`) walls |
| `Collision.Approaching` | src/script.js:57-64 | the guard `(vA - vB)·(pB - pA) >= 0` gives the same answer whichever body is taken first |
| `Collision.Exchange` | src/script.js:77-78 | the 1-D exchange passes the tangential (y) components through unchanged |
| `Collision.ExchangeEqualMasses` | src/script.js:77-78 | with equal masses the exchange swaps the normal (x) components |
| `Collision.ExchangeUnequalMassesBreaksMomentum` | src/script.js:77-78 | with masses 1 and 2 the formula as written turns momentum 1 into 3: it conserves momentum only for equal masses |
| `Collision.Resolve` | src/script.js:56-91 | a separating pair (negative dot product of relative velocity and displacement) is left unchanged; otherwise only the two velocities change |
| `Collision.ResolveSwapsNormalComponents` | src/script.js:72-84 | with equal masses and an approaching pair, the new velocities in the collision frame are `(u2.x, u1.y)` and `(u1.x, u2.y)` |
| `Collision.ResolveConserves` | src/script.js:56-91 | with equal masses the sum of the two velocities and the sum of their squared speeds are kept |
| `Collision.ResolveKeepsMomentum` | src/script.js:72-88 | with equal masses an approaching pair leaves with the same sum of velocities: rotating back the swapped components gives back the sum |
| `Collision.ResolveKeepsEnergy` | src/script.js:72-88 | with equal masses an approaching pair leaves with the same sum of squared speeds |
| `Collision.ApproachingOnAxis` | src/script.js:57-64 | two bodies on one horizontal line, the left one moving right at least as fast as the right one, pass the approach guard |
| `Collision.HeadOnExchange` | src/script.js:56-91 | two bodies of equal mass on one horizontal line, the left one approaching, exchange their horizontal velocities and keep their vertical ones, for any unit frame that carries their displacement onto the positive x-axis, as `-atan2` does |
| `Collision.AlignedOnPositiveX` | src/script.js:66 | for a displacement along the positive x-axis the only aligned unit rotation is the identity (`-atan2(0, xd) == 0`) |
| `World.Overlaps` | src/script.js:119 | the overlap test `distance - r1 - r2 < 0` is symmetric in the two bodies and can only hold for a positive radius sum |
| `World.ScanFrom` | src/script.js:117-124 | every partner the scan of body `i` from index `j` on lists is another body at or after `j` that overlaps it. No position, radius, mass or `fill` changes |
| `World.ScanFromIncreasing` | src/script.js:117-124 | the partners are resolved in increasing index order, each at most once |
| `World.ScanFromComplete` | src/script.js:117-124 | every other body at or after `j` that overlaps body `i` is resolved against it |
| `World.ScanFromResolves` | src/script.js:117-124 | the bodies after the scan are exactly those of calling `resolveCollision(this, other)` on each listed partner in turn, every call seeing the velocities the previous ones left (`ResolveAll`) |
| `World.ScanFromUntouched` | src/script.js:117-124 | a body that is not a partner keeps every field, and with no partner the collection is unchanged |
| `World.Scan` | src/script.js:115-124 | a body is never paired with itself. Another body is a partner exactly when their centres are closer than the radius sum, the partners are in index order, and the bodies are those of resolving the partners in that order. Only velocities change, and with no overlap nothing changes |
| `World.ScanSinglePartner` | src/script.js:117-124 | a body overlapping exactly one other body is resolved against it once and nothing else changes: the scan gives `resolveCollision` applied to that pair |
| `World.ScanFromConserves` | src/script.js:117-124 | with equal masses, the remainder of a scan keeps the total velocity and the total squared speed of the collection |
| `World.ScanConserves` | src/script.js:115-124 | with equal masses, a body's whole collision scan keeps total momentum and kinetic energy |
| `World.Update` | src/script.js:115-151 | other bodies change only in velocity, and bodies that do not overlap the updated one not at all. The updated body keeps radius and mass, fades once by its pointer distance, and moves by its new velocity. A body overlapping no other body gets exactly the highlight, bounce and move, and nothing else changes. In general the other bodies are those the collision scan left, and the updated body is highlighted, bounced and moved from the velocity the scan left it |
| `World.UpdateSinglePartner` | src/script.js:115-151 | when exactly one other body touches the updated one, the update resolves that one collision, then highlights, bounces and moves the body from its post-collision velocity; the other body keeps the velocity the collision gave it |
| `World.StepFrom` | src/script.js:184-186 | the in-order pass from body `i` leaves earlier bodies changed only in velocity and fades every later body exactly once |
| `World.Step` | src/script.js:184-186 | one frame keeps masses and radii, fades every body once by where it stood at the start of the frame, and keeps every `fill` in `[0, 1]` |
| `World.Run` | src/script.js:181-187 | over any number of frames the population size, uniform masses and `0 <= fill <= 1` are kept |
| `World.StepWithoutPointerDims` | src/script.js:11-14 | with the pointer unset, a frame dims every highlight by one step, floored at 0 |
| `World.LoneBodyUpdate` | src/script.js:115-151 | a body alone in the collection collides with nothing: its update is the highlight followed by the bounce and move |
| `World.LeftWallBounce` | src/script.js:138-148 | a lone body moving left whose projected left edge passes the left wall, clear of the top and bottom walls, bounces with the default physics to `-dx > 0` and moves to `x - dx` |
| `World.LeftWallBounceExample` | src/script.js:138-148 | a lone body at `(5, 50)` with radius 10 and velocity `(-3, 0)` in a 200 by 200 arena bounces to `dx = 3` and moves to `x = 8` |
| `World.StepLone` | src/script.js:184-186 | a frame of a single body is its highlight followed by its bounce and move |
| `World.TwoBodyStepInOrder` | src/script.js:184-186 | the frame updates bodies in index order and in place: the second body's scan runs against the first body at its already moved position and collides with it exactly when they overlap there |
| `World.TwoBodyStepCollides` | src/script.js:184-186 | in a two-body frame the first body ends with the velocity that the second body's collision with it gives, when they overlap after the first move, and as its own update left it otherwise |
| `Placement.TooClose` | src/script.js:168 | the placement test `distance - 2r < 0` is symmetric in the two centres and never rejects a candidate when the radius is not positive |
| `Placement.FirstClear` | src/script.js:166-175 | the candidate picked is clear of every placed body, and every earlier candidate in the supply is not |
| `Placement.PlaceFrom` | src/script.js:155-178 | the reference placement gives `count` bodies, each built from a supplied candidate and its own velocity, and keeps the collection pairwise two radii apart |
| `Placement.Place` | src/script.js:155-178 | the placement loop gives exactly the reference placement. Its bodies have the given radius, a dark highlight and their own velocities, and are pairwise at least two radii apart |
| `Placement.NextClear` | src/script.js:166-175 | the restart loop (`j = -1` after a rejected draw) settles on exactly the first candidate clear of every placed body, or reports that the supply ran out |
| `Placement.Init` | src/script.js:155-178 | 400 bodies, all of radius `maxRadius` and hence mass `maxMass`, dark, pairwise at least two radii apart |
| `Placement.SeparatedScanResolvesNothing` | src/script.js:166-175 | the placed bodies do not overlap, so a collision scan over them resolves nothing |

## Left out

- Canvas and DOM setup, the `resize`, `mousemove` and `click` listeners, `draw`, `requestAnimationFrame` and `clearRect` are rendering and input. The arena size and the pointer position are inputs to each frame (`Tick`).
- `Math.random`, `randomIntFromRange` and `randomColor` become supplied sequences: candidate centres and one velocity per body. Their ranges (integers in `[radius, width - radius]`, velocities in `[-3, 3]`) are not assumed.
- Placement.Place: the program's loop may draw forever. The model consumes a finite supply and answers `None` when the supply runs out, so its results are partial correctness.
- Colours and the `id` field are left out, because nothing in the physics reads them.
- Real trigonometry and `sqrt` are not modelled. They are replaced by a supplied unit `(c, s)` pair per displacement and by squared-distance comparisons.
- IEEE double rounding and NaN are not modelled; the arithmetic is over `real`. The unset pointer's NaN comparison is modelled by its outcome.
- Collision.ResolveConserves: conservation is stated for equal masses only, because the formula as written does not conserve momentum or energy for unequal masses.
- World.ScanConserves: momentum is stated as the sum of velocities, which equals momentum divided by the common mass.
- Collision.Resolve: requires the two masses not to sum to zero. The division at lines 77-78 needs this, and every body built with a positive radius has a positive mass.
- World.Run: the physics parameters and the frame oracle are fixed over the whole run. Only the arena size and the pointer vary per frame.
