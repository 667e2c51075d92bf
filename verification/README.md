# Fireworks show, modelled in Dafny

A model of the animation core of `fireworks.js`, a canvas page that launches
fireworks, bursts them into fading sparks and finally writes "2026" in
particles. The model covers these parts:

- **`Particle`** (module `Particles`, `particle.dfy`). A spark that slows
  down by 0.99 per frame, falls by gravity 0.1 and loses its random `decay`
  of opacity every frame.
- **`Firework`** (module `Fireworks`, `firework.dfy`). It climbs at
  vy = -random·3 - 12, gains 0.15 per frame and keeps a trail of at most 10
  points that fade by 0.1. It explodes once, when vy ≥ 0 or y ≤ targetY,
  into ⌈random·50 + 50⌉ particles. Afterwards it updates its particles and
  splices out the dead ones.
- **`TextFirework`** (module `TextFireworks`, `text_firework.dfy`). The
  400×100 RGBA image of one character is sampled every 4 pixels. Each
  sample whose alpha byte exceeds 128 becomes a particle. The particle
  starts at a random scatter position and moves `speed` of the way to its
  target every frame.
- **The page's globals** (module `Show`, `show.dfy`, class `Scene`). These are the
  `fireworks` list, the `textFireworks` list and the `isShowing2026` flag,
  with the operations that act on them:
  - `animate`: one frame, without drawing;
  - `startFireworks` and its interval callback;
  - the click handler;
  - `show2026` and its four timer callbacks;
  - `clearCanvas`.
- **The `forEach` + `splice` idiom** (module `Splice`, `splice.dfy`). Both
  `Firework.update` and `animate` use it, and it is modelled once,
  generically. The function `Sweep` gives the list that the pass leaves.
  When the element at index i is removed, its successor slides into slot i,
  which `forEach` has already visited. That successor is therefore neither
  updated nor tested on this pass (`SweepSkipsSuccessor`,
  `FrameSkipsSuccessor`). The model keeps this behaviour of the code.

Mutable objects are classes, as in the source:
- `Particle`, `Firework`, `TextFirework` and `Scene`, the class that holds
  the globals.
- Each has a `View()` value: `PState`, `FState`, `TState` and `Snapshot`.
- These methods are proved against a function on those values:
  - `Particle.Update` against `Step`;
  - `Firework.Update` against `Advance`;
  - `Firework.Explode` against `Detonate`;
  - `CreateTextParticles` against `GlyphParticles`;
  - `TextFirework.Update` against `EaseAll`;
  - `Scene.Animate` against `Frame`;
  - `Scene.Click` and `Scene.IntervalLaunch` against `Launched`;
  - `Scene.Show2026` against `Showing`, `Scene.StartFireworks` against
    `Started`, and `Scene.ClearCanvas` against `Cleared`.
- The other methods (`Push`, `Reveal`, the constructors) state their new
  fields directly.
- The properties are lemmas about these functions.

The object-level proofs track aliasing:
- no two fireworks share a particle object, and no list holds an object
  twice;
- updating one firework leaves every other firework's state untouched;
- an object that a splice drops was dead (a particle with alpha ≤ 0) or
  spent (an exploded firework with no particles).

Every `Math.random()` call is a parameter. The caller supplies a real in
[0, 1) (`IsDraw`).
- `Firework.explode` takes a `Burst`: the count draw, and for each particle
  index a `Spark` with the speed, size and decay draws.
- `animate` takes a `Burst` for each array index.

The cosine and sine of each spark's angle are not computed. A `Spark`
carries the unit direction (`dirX² + dirY² = 1`) in their place.

## Model

| member | source | states |
|---|---|---|
| Draws.PickColor | fireworks.js:172-173 | picking the entry at the floor of a draw times 7 always yields one of the seven palette colours |
| Particles.Spawn | fireworks.js:10-19 | a new particle has opacity 1, gravity 0.1, and a decay in [0.005, 0.025) for every draw in [0, 1) |
| Particles.Particle.constructor | fireworks.js:10-19 | the object's fields are exactly `Spawn` of its arguments and its decay draw |
| Particles.Particle.Update | fireworks.js:21-28 | the new state is `Step` of the old one, and the opacity strictly drops |
| Particles.StepFacts | fireworks.js:21-28 | one frame: velocity ×0.99 plus 0.1 downwards, position moved by the new velocity, opacity down by exactly `decay`; colour, size, decay and gravity kept |
| Particles.StepsFade | fireworks.js:21-28 | after n frames the opacity has dropped by exactly n·decay, and the constant fields are unchanged |
| Particles.DeadAfter | fireworks.js:16-27 | a fresh particle is dead (alpha ≤ 0) after n frames iff n·decay ≥ 1, so certainly after 200 frames |
| Fireworks.Launch | fireworks.js:43-56 | a new firework is climbing, has no trail and no particles, has vx = 0, and has vy in (-15, -12] |
| Fireworks.Firework.constructor | fireworks.js:43-56 | the object's state is `Launch` of its arguments, and the object is valid |
| Fireworks.Iterations | fireworks.js:93 | a loop counting up from 0 while below a real bound runs as many times as the least natural ≥ bound |
| Fireworks.NextTrailFacts | fireworks.js:63-72 | the trail never exceeds 10 points; the newest point is the new position at opacity 0.9; the oldest point is dropped exactly when the trail was full; every other point loses exactly 0.1 |
| Fireworks.BurstSize | fireworks.js:91-93 | an explosion creates between 50 and 100 particles |
| Fireworks.SparkParticleFacts | fireworks.js:94-106 | each burst particle starts at the firework's position and colour with opacity 1, size in [1, 4) and speed in [2, 8) |
| Fireworks.DetonateFacts | fireworks.js:89-108 | `explode` sets the flag, changes nothing else and adds 50–100 particles, each as above |
| Fireworks.ClimbFacts | fireworks.js:59-77 | climbing frame: vy gains 0.15, y moves by the new vy, the trail takes the new position, and the firework explodes iff vy ≥ 0 or y ≤ targetY |
| Fireworks.ExplodedFacts | fireworks.js:78-86 | exploded frame: position, velocity and trail kept; the particle list never grows; survivors keep their order and are old particles, updated or untouched; every particle that is gone was dead after its update |
| Fireworks.AdvanceConsistent | fireworks.js:58-87 | `update` keeps vx = 0, the trail within 10 points, no particles before the burst, and every particle's decay |
| Fireworks.StaysExploded | fireworks.js:58-87 | once exploded, any number of frames keeps it exploded at the same place and never adds particles: at most one explosion |
| Fireworks.ExplodesBy | fireworks.js:59-77 | a climbing firework whose vy + 0.15·n ≥ 0 has exploded after n frames |
| Fireworks.LaunchExplodes | fireworks.js:43-77 | every launched firework has exploded within 100 frames |
| Fireworks.SpliceDistinct | fireworks.js:83 | `splice(i, 1)` on a list without repeated objects removes exactly the object at i and leaves no repeats |
| Fireworks.StatesSplice | fireworks.js:83 | `splice(i, 1)` on the objects is `splice(i, 1)` on their states |
| Fireworks.Firework.Update | fireworks.js:58-87 | the new state is `Advance` of the old one; the firework stays valid; particles are old or new objects; an old particle that was dropped had alpha ≤ 0 |
| Fireworks.Firework.Climb | fireworks.js:59-77 | the climbing branch is `Advance` of the old state, and every particle it holds is new |
| Fireworks.Firework.ExtendTrail | fireworks.js:63-72 | the trail step of a climbing frame yields exactly `NextTrail` of the old trail at the current position, and keeps the trail within 10 points |
| Fireworks.Firework.FadeTrail | fireworks.js:70-72 | every trail point loses exactly 0.1 of opacity, in place |
| Fireworks.Firework.Explode | fireworks.js:89-108 | the loop over the real bound yields exactly `Detonate`: the flag, then one new Particle per iteration, in order |
| Fireworks.Firework.UpdateParticles | fireworks.js:78-86 | the particle states become `Prune` of the old ones; no particle is added; every dropped particle had alpha ≤ 0 |
| Fireworks.Firework.PruneParticles | fireworks.js:80-85 | the `forEach` loop with the splice computes `Prune` of the states it started from |
| Fireworks.Firework.VisitParticle | fireworks.js:80-85 | one callback: the particle is updated, and it is spliced out iff its new opacity is ≤ 0; the rest of the pass is unchanged |
| Splice.KeptLength | fireworks.js:80-85 | the pass never lengthens the array |
| Splice.KeptOrdered | fireworks.js:80-85 | survivors keep their original relative order |
| Splice.SweepOrigin | fireworks.js:80-85 | each survivor is its original element, either updated at its new index and alive, or untouched |
| Splice.SweepRemovesOnlyDead | fireworks.js:80-85 | an element is removed only if its update made it dead |
| Splice.SweepNoneDead | fireworks.js:80-85 | when nothing dies, every element is updated exactly once and nothing is removed |
| Splice.SweepKeeps | fireworks.js:80-85 | a property that every element has and that the update keeps holds of every survivor |
| Splice.SweepSkipsSuccessor | fireworks.js:80-85 | in any array, when the element at the current index dies, its successor survives that pass untouched, even if its own update would have killed it, and the pass continues with the rest at the next index |
| Splice.SweptVisit | fireworks.js:80-85 | one `forEach` iteration (update in place, or splice out) leaves the rest of the pass unchanged |
| TextFireworks.GridAt | fireworks.js:166-168 | sample (column c, row r) of the nested loop is pixel (4c, 4r), visited at step 100r + c |
| TextFireworks.GridMembers | fireworks.js:166-167 | the loop visits exactly the pixels whose coordinates are multiples of 4 inside 400×100 |
| TextFireworks.GridSorted | fireworks.js:166-167 | the loop visits samples in strict row-major order |
| TextFireworks.KeptMembers | fireworks.js:169-171 | a sample is kept iff it is visited and its alpha byte exceeds 128 |
| TextFireworks.KeptOrder | fireworks.js:166-186 | filtering keeps the visiting order and never adds samples |
| TextFireworks.GlyphCellsMembers | fireworks.js:166-171 | the glyph's samples are exactly the grid points whose alpha byte, at index (y·400 + x)·4 + 3, exceeds 128 |
| TextFireworks.GlyphCellsOrder | fireworks.js:166-186 | the glyph's samples are in row-major order without repeats, at most 2500 |
| TextFireworks.SampleStep | fireworks.js:166-184 | one inner iteration appends one particle, made with the next draws, iff the sample's alpha exceeds 128 |
| TextFireworks.GlyphParticlesFacts | fireworks.js:166-186 | one particle per kept sample, at most 2500; each targets (x + sx - 200, y + sy - 50) for its sample (sx, sy), with speed in [0.01, 0.03), size in [2, 5) and a palette colour |
| TextFireworks.TextFirework.constructor | fireworks.js:139-146 | the new text firework holds its text, anchor and exactly `GlyphParticles` of the image |
| TextFireworks.TextFirework.CreateTextParticles | fireworks.js:148-187 | the nested sampling loop appends exactly `GlyphParticles`: the kept samples in row-major order |
| TextFireworks.TextFirework.Update | fireworks.js:189-197 | every particle eases once (`EaseAll`), in place |
| TextFireworks.EaseOffset | fireworks.js:191-195 | one frame multiplies each offset to the target by (1 - speed) |
| TextFireworks.EasesOffset | fireworks.js:189-197 | after n frames the target, speed, colour and size are unchanged, and each offset is the first one times (1 - speed)^n |
| TextFireworks.PowBounds | fireworks.js:194-195 | (1 - speed)^n lies in (0, 1] and below 1 for n > 0, so the offset shrinks geometrically |
| TextFireworks.EaseApproaches | fireworks.js:191-195 | each frame moves a particle strictly closer to its target on every axis where it is not there yet, never past it, and leaves it in place where it is |
| Show.SpentOnlyAfterBurst | fireworks.js:225 | a firework that its own update leaves exploded and empty had already exploded before: a burst leaves particles |
| Show.FrameFacts | fireworks.js:216-237 | one frame keeps the flag and the text fireworks' texts and anchors, never lengthens the fireworks list and keeps every firework consistent; only an already-exploded firework is removed; survivors are originals, in order, updated or untouched |
| Show.FrameSkipsSuccessor | fireworks.js:221-228 | in any scene whose first firework is spent by its update, the second firework is neither updated nor tested in that frame, and the fireworks after it are visited one index earlier |
| Show.ShowingBlocksLaunches | fireworks.js:248-257 | while 2026 is showing, no number of launches adds a firework |
| Show.LaunchesAppend | fireworks.js:248-254 | otherwise launches append their fireworks at the end, in order |
| Show.GuardLifecycle | fireworks.js:241-303 | frames keep the flag, so `show2026` blocks launches; `clearCanvas` and `startFireworks` accept them again |
| Show.Scene.constructor | fireworks.js:210-213 | the globals start empty with the flag down |
| Show.Scene.Animate | fireworks.js:216-237 | the new globals are `Frame` of the old ones; the text fireworks and flag stay; no firework is added; every firework removed was exploded and empty |
| Show.Scene.UpdateFireworks | fireworks.js:221-228 | the fireworks pass yields exactly `Sweep` of the states, with `Advance` as update and "exploded with no particles" as removal test |
| Show.Scene.VisitFirework | fireworks.js:221-228 | one callback: the firework is updated, and it is spliced out iff it is now exploded and empty; the rest of the pass is unchanged |
| Show.Scene.UpdateAt | fireworks.js:222 | updating one firework changes only its own state; all other fireworks keep theirs |
| Show.Scene.UpdatedOne | fireworks.js:222 | a firework whose objects were untouched keeps its state, and the list stays free of shared particles |
| Show.Scene.UpdateTexts | fireworks.js:231-234 | every text firework eases once; the fireworks are untouched |
| Show.Scene.StartFireworks | fireworks.js:240-242 | the new globals are `Started` of the old ones (flag down, no text fireworks, fireworks kept), so launches are accepted again; validity is kept |
| Show.Scene.IntervalLaunch | fireworks.js:247-258 | with the flag down, one new firework is appended: from (random·width, height), aiming at random·height·0.5, with a palette colour; with the flag up, nothing is added and the callback asks to stop; in both cases the new globals are `Launched` of the old ones with that firework |
| Show.Scene.Click | fireworks.js:302-309 | with the flag down, one new firework is appended, from (clientX, height) aiming at clientY; with the flag up, nothing changes; the new globals are `Launched` of the old ones with that firework |
| Show.Scene.Push | fireworks.js:254 | appending a new firework keeps the globals valid and adds its state at the end of the fireworks' states |
| Show.Scene.Show2026 | fireworks.js:267-269 | the new globals are `Showing` of the old ones (flag up, no text fireworks, fireworks kept), so later launches are refused; validity is kept |
| Show.Scene.Reveal | fireworks.js:271-289 | the k-th timer callback appends a text firework for the k-th character of "2026", at the centre shifted by -150, -50, 50 or 150 |
| Show.Scene.ClearCanvas | fireworks.js:293-299 | both lists empty and the flag down |

## Left out

- Drawing: every `draw` method, the translucent fill in `animate` and the opaque fill in `clearCanvas`. They only paint the canvas.
- Text rasterisation. `fillText` onto the offscreen canvas is not modelled. The image bytes are an input to `TextFirework`, `CreateTextParticles` and `Reveal`. The model does not check that these bytes show the firework's `text`, and `fontSize` is stored but not used.
- `Math.cos` and `Math.sin` of each spark's angle. The unit direction is an input, so the model does not tie particle i to the angle 2π·i/particleCount.
- Floating point. Numbers are exact reals, so rounding is not modelled.
- Timers:
  - `requestAnimationFrame` and `animationId` are left out. `Animate` is one frame.
  - The 300 ms interval period and the 10-second `clearInterval` in `startFireworks` are left out. `IntervalLaunch` is one callback, and the caller decides when the callbacks stop.
  - The `setTimeout` delays of `show2026` are left out. The delays are recorded only in `RevealSchedule`, and `Reveal` is one callback. The callbacks do not check the flag, so a late one can still add a text firework after `clearCanvas`.
  - The initial one-second delay before the first `startFireworks` is left out.
- The `resize` handler and canvas sizing. The canvas width and height are parameters.
- Show.Scene.IntervalLaunch: returns `stop` instead of calling `clearInterval` itself. The model proves that `stop` is set exactly when the flag is up.
- Fireworks.Firework.Climb and Fireworks.Firework.Explode: the velocity object `{x, y}` is flattened into the fields `vx` and `vy`. Nothing else holds a reference to that object.
