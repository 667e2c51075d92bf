/** A launched firework (class Firework of fireworks.js): it climbs, leaving a
    short fading trail, until it reaches its apex or its target height, then
    bursts once into 50 to 100 particles that it keeps updating and pruning. */
module Fireworks {
  import opened Draws
  import opened Particles
  import opened Splice

  /** Added to the vertical velocity every frame while climbing. */
  const Lift: real := 0.15
  /** The trail keeps at most this many points. */
  const TrailLength: nat := 10
  /** Every trail point loses this much opacity per frame. */
  const TrailFade: real := 0.1
  /** The radius of the climbing body. */
  const BodySize: real := 3.0

  /** A recent position of the climbing body, fading out. */
  datatype TrailPoint = TrailPoint(x: real, y: real, alpha: real)

  /** The draws `explode` makes for its i-th particle. `dirX` and `dirY` stand
      for cos and sin of the particle's angle 2π·i/particleCount (they are not
      computed here); `speedDraw` is the `velocity` draw, `sizeDraw` the size
      draw and `decayDraw` the Particle constructor's own draw. */
  datatype Spark = Spark(dirX: real, dirY: real, speedDraw: real, sizeDraw: real, decayDraw: real)

  /** All draws of one `explode`: the particle-count draw and one Spark per
      particle index. */
  datatype Burst = Burst(countDraw: real, spark: nat -> Spark)

  predicate ValidSpark(s: Spark) {
    s.dirX * s.dirX + s.dirY * s.dirY == 1.0
    && IsDraw(s.speedDraw) && IsDraw(s.sizeDraw) && IsDraw(s.decayDraw)
  }

  ghost predicate ValidBurst(b: Burst) {
    IsDraw(b.countDraw) && forall k: nat :: ValidSpark(b.spark(k))
  }

  /** Every field of a firework; the velocity object is flattened into vx, vy
      and the particles are their values. */
  datatype FState = FState(x: real, y: real, targetY: real, color: Color, vx: real, vy: real,
                           size: real, trail: seq<TrailPoint>, exploded: bool, particles: seq<PState>)

  /** What holds of every firework from construction on: no horizontal speed,
      a bounded trail, no particles before the burst, and every particle with
      its fixed decay and gravity. */
  predicate Consistent(f: FState) {
    f.vx == 0.0 && f.size == BodySize && |f.trail| <= TrailLength
    && (!f.exploded ==> f.particles == [])
    && forall i :: 0 <= i < |f.particles| ==> Decaying(f.particles[i])
  }

  /** `new Firework(x, y, targetY, color)`: climbing at vy = -random·3 - 12. */
  function Launch(x: real, y: real, targetY: real, color: Color, vyDraw: real): (f: FState)
    requires IsDraw(vyDraw)
    ensures Consistent(f) && !f.exploded && f.trail == []
    ensures -15.0 < f.vy <= -12.0
  {
    FState(x, y, targetY, color, 0.0, -vyDraw * 3.0 - 12.0, BodySize, [], false, [])
  }

  /** Every trail point loses 0.1 of opacity. */
  function Fade(t: seq<TrailPoint>): seq<TrailPoint> {
    seq(|t|, i requires 0 <= i < |t| => t[i].(alpha := t[i].alpha - TrailFade))
  }

  /** Append a point; when that makes more than 10, drop the oldest. */
  function Push(t: seq<TrailPoint>, p: TrailPoint): seq<TrailPoint> {
    if |t + [p]| > TrailLength then (t + [p])[1..] else t + [p]
  }

  /** The trail after one climbing frame that ends at (x, y). */
  function NextTrail(t: seq<TrailPoint>, x: real, y: real): seq<TrailPoint> {
    Fade(Push(t, TrailPoint(x, y, 1.0)))
  }

  /** The number of iterations of a loop counting i = 0, 1, 2, ... while
      i < bound, when the bound is a real: the least natural number not below it. */
  function Iterations(bound: real): (n: nat)
    ensures n as real >= bound && (n == 0 || ((n - 1) as real) < bound)
  {
    if bound <= 0.0 then 0
    else if bound.Floor as real == bound then bound.Floor
    else bound.Floor + 1
  }

  /** particleCount = random·50 + 50, a real. */
  function ParticleCount(b: Burst): real {
    b.countDraw * 50.0 + 50.0
  }

  /** The i-th particle of a burst at (x, y). */
  function SparkParticle(x: real, y: real, color: Color, s: Spark): PState {
    var speed := s.speedDraw * 6.0 + 2.0;
    Spawn(x, y, color, s.dirX * speed, s.dirY * speed, s.sizeDraw * 3.0 + 1.0, s.decayDraw)
  }

  /** The first n particles of a burst at (x, y). */
  function BurstParticles(x: real, y: real, color: Color, b: Burst, n: nat): seq<PState> {
    seq(n, i requires 0 <= i < n => SparkParticle(x, y, color, b.spark(i)))
  }

  /** `explode`: set the flag and append the whole burst. */
  function Detonate(f: FState, b: Burst): FState {
    f.(exploded := true,
       particles := f.particles + BurstParticles(f.x, f.y, f.color, b, Iterations(ParticleCount(b))))
  }

  /** The update of the particle visited at any index. */
  function StepAt(k: nat, p: PState): PState {
    Step(p)
  }

  /** The exploded branch of `update`: forEach, update, splice when dead. */
  function Prune(ps: seq<PState>): seq<PState> {
    Sweep(ps, 0, StepAt, Dead)
  }

  /** `Firework.update`, with `b` the draws of the explosion it may trigger. */
  function Advance(f: FState, b: Burst): FState {
    if !f.exploded then
      var vy := f.vy + Lift;
      var y := f.y + vy;
      var g := f.(vy := vy, y := y, trail := NextTrail(f.trail, f.x, y));
      if vy >= 0.0 || y <= f.targetY then Detonate(g, b) else g
    else
      f.(particles := Prune(f.particles))
  }

  /** n frames, the i-th using the draws bursts(from + i). */
  function Run(f: FState, bursts: nat -> Burst, from: nat, n: nat): FState
    decreases n
  {
    if n == 0 then f else Run(Advance(f, bursts(from)), bursts, from + 1, n - 1)
  }

  /** One climbing frame of the trail: it never holds more than 10 points; the
      newest point, last, is the new position at opacity 0.9; when the trail
      was full the oldest point was dropped; every kept point lost exactly 0.1. */
  lemma NextTrailFacts(t: seq<TrailPoint>, x: real, y: real)
    requires |t| <= TrailLength
    ensures var r, d := NextTrail(t, x, y), if |t| == TrailLength then 1 else 0;
      |r| == |t| + 1 - d && |r| <= TrailLength
      && r[|r| - 1] == TrailPoint(x, y, 0.9)
      && forall i :: 0 <= i < |r| - 1 ==> r[i] == t[i + d].(alpha := t[i + d].alpha - 0.1)
  {
    var u := t + [TrailPoint(x, y, 1.0)];
    var d := if |t| == TrailLength then 1 else 0;
    assert Push(t, TrailPoint(x, y, 1.0)) == u[d..];
    forall i | 0 <= i < |u| - d - 1 ensures u[d..][i] == t[i + d] { }
  }

  /** A burst holds between 50 and 100 particles: the loop bound random·50 + 50
      lies in [50, 100). */
  lemma BurstSize(b: Burst)
    requires IsDraw(b.countDraw)
    ensures 50 <= Iterations(ParticleCount(b)) <= 100
  {
  }

  /** Every burst particle starts at the firework's position with its colour,
      full opacity, a size in [1, 4), a speed in [2, 8) and the fixed decay
      range of every particle. */
  lemma SparkParticleFacts(x: real, y: real, color: Color, s: Spark)
    requires ValidSpark(s)
    ensures var p := SparkParticle(x, y, color, s);
      p.x == x && p.y == y && p.color == color && p.alpha == 1.0
      && 1.0 <= p.size < 4.0 && Decaying(p)
      && 4.0 <= p.vx * p.vx + p.vy * p.vy < 64.0
  {
    var speed := s.speedDraw * 6.0 + 2.0;
    var p := SparkParticle(x, y, color, s);
    calc {
      p.vx * p.vx + p.vy * p.vy;
      (s.dirX * speed) * (s.dirX * speed) + (s.dirY * speed) * (s.dirY * speed);
      (s.dirX * s.dirX + s.dirY * s.dirY) * (speed * speed);
      speed * speed;
    }
    SquareBounds(speed);
  }

  lemma SquareBounds(v: real)
    requires 2.0 <= v < 8.0
    ensures 4.0 <= v * v < 64.0
  {
    assert v * v >= 2.0 * v;
    assert v * v < 8.0 * v;
  }

  /** `explode` on a firework without particles: it is exploded and holds the
      burst, 50 to 100 particles, each as SparkParticleFacts describes. */
  lemma DetonateFacts(f: FState, b: Burst)
    requires ValidBurst(b) && f.particles == []
    ensures var g := Detonate(f, b);
      g.exploded && 50 <= |g.particles| <= 100
      && g.(exploded := f.exploded, particles := []) == f
      && forall i :: 0 <= i < |g.particles| ==>
           var p := g.particles[i];
           p.x == f.x && p.y == f.y && p.color == f.color && p.alpha == 1.0
           && 1.0 <= p.size < 4.0 && Decaying(p)
           && 4.0 <= p.vx * p.vx + p.vy * p.vy < 64.0
  {
    BurstSize(b);
    var g := Detonate(f, b);
    forall i | 0 <= i < |g.particles|
      ensures var p := g.particles[i];
           p.x == f.x && p.y == f.y && p.color == f.color && p.alpha == 1.0
           && 1.0 <= p.size < 4.0 && Decaying(p)
           && 4.0 <= p.vx * p.vx + p.vy * p.vy < 64.0
    {
      assert g.particles[i] == SparkParticle(f.x, f.y, f.color, b.spark(i));
      SparkParticleFacts(f.x, f.y, f.color, b.spark(i));
    }
  }

  /** A climbing frame: x and vx stay, vy gains exactly 0.15, y moves by the
      new vy, the trail takes the new position, and the firework explodes
      exactly when the new vy is not negative or the new y is at or above the
      target (screen y grows downwards); until then it has no particles. */
  lemma ClimbFacts(f: FState, b: Burst)
    requires Consistent(f) && !f.exploded
    ensures var g := Advance(f, b);
      g.x == f.x && g.vx == f.vx == 0.0 && g.vy == f.vy + 0.15 && g.y == f.y + g.vy
      && g.targetY == f.targetY && g.color == f.color
      && g.trail == NextTrail(f.trail, f.x, g.y)
      && (g.exploded <==> (g.vy >= 0.0 || g.y <= f.targetY))
      && (!g.exploded ==> g.particles == [])
  {
  }

  /** An exploded frame: position, velocity and trail stay; the particle list
      never grows; its survivors keep their order and are each an old particle,
      updated or (after a splice) untouched; every particle that is gone was
      dead after its update. */
  lemma {:induction false} ExplodedFacts(f: FState, b: Burst)
    requires f.exploded
    ensures var g, K := Advance(f, b), Kept(f.particles, 0, StepAt, Dead, 0);
      g.exploded && g.x == f.x && g.y == f.y && g.vx == f.vx && g.vy == f.vy && g.trail == f.trail
      && |K| == |g.particles| <= |f.particles|
      && (forall j :: 0 <= j < |K| ==> K[j] < |f.particles|)
      && (forall j, j' :: 0 <= j < j' < |K| ==> K[j] < K[j'])
      && (forall j :: 0 <= j < |K| ==>
            g.particles[j] == f.particles[K[j]]
            || (g.particles[j] == Step(f.particles[K[j]]) && !Dead(g.particles[j])))
      && (forall i :: 0 <= i < |f.particles| && i !in K ==> Dead(Step(f.particles[i])))
  {
    var ps := f.particles;
    KeptLength(ps, 0, StepAt, Dead, 0);
    KeptOrdered(ps, 0, StepAt, Dead, 0);
    SweepOrigin(ps, 0, StepAt, Dead, 0);
    SweepRemovesOnlyDead(ps, 0, StepAt, Dead, 0);
    forall i | 0 <= i < |ps| && 0 + i !in Kept(ps, 0, StepAt, Dead, 0)
      ensures Dead(Step(ps[i]))
    {
      assert Doomed(StepAt, Dead, ps[i]);
      var k: nat :| Dead(StepAt(k, ps[i]));
    }
  }

  /** Advance keeps Consistent: the trail stays within 10 points, there are no
      particles before the burst, and every particle keeps its decay. */
  lemma AdvanceConsistent(f: FState, b: Burst)
    requires Consistent(f) && ValidBurst(b)
    ensures Consistent(Advance(f, b))
  {
    var g := Advance(f, b);
    if !f.exploded {
      NextTrailFacts(f.trail, f.x, f.y + f.vy + Lift);
      if g.exploded {
        DetonateFacts(f.(vy := g.vy, y := g.y, trail := g.trail), b);
      }
    } else {
      SweepKeeps(f.particles, 0, StepAt, Dead, Decaying);
    }
  }

  /** Once exploded, a firework stays exploded with the same position,
      velocity and trail, and its particle list never grows: the explosion
      happens at most once. */
  lemma {:induction false} StaysExploded(f: FState, bursts: nat -> Burst, from: nat, n: nat)
    requires f.exploded
    ensures var g := Run(f, bursts, from, n);
      g.exploded && g.x == f.x && g.y == f.y && g.vx == f.vx && g.vy == f.vy && g.trail == f.trail
      && |g.particles| <= |f.particles|
    decreases n
  {
    if n > 0 {
      ExplodedFacts(f, bursts(from));
      StaysExploded(Advance(f, bursts(from)), bursts, from + 1, n - 1);
    }
  }

  /** A climbing firework whose vertical speed would become non-negative
      within n frames has exploded after n frames. */
  lemma {:induction false} ExplodesBy(f: FState, bursts: nat -> Burst, from: nat, n: nat)
    requires !f.exploded && n >= 1 && f.vy + Lift * (n as real) >= 0.0
    ensures Run(f, bursts, from, n).exploded
    decreases n
  {
    var g := Advance(f, bursts(from));
    if g.exploded {
      StaysExploded(g, bursts, from + 1, n - 1);
    } else {
      assert g.vy == f.vy + Lift;
      ExplodesBy(g, bursts, from + 1, n - 1);
    }
  }

  /** Every launched firework explodes within 100 frames: it starts climbing
      faster than -15 and gains 0.15 per frame. */
  lemma LaunchExplodes(x: real, y: real, targetY: real, color: Color, vyDraw: real, bursts: nat -> Burst)
    requires IsDraw(vyDraw)
    ensures Run(Launch(x, y, targetY, color, vyDraw), bursts, 0, 100).exploded
  {
    ExplodesBy(Launch(x, y, targetY, color, vyDraw), bursts, 0, 100);
  }

  /** What each particle's constructor fixed (its decay and gravity are
      constants of the object). */
  ghost predicate Fading(ps: seq<Particle>) {
    forall q :: q in ps ==> 0.005 <= q.decay < 0.025 && q.gravity == Gravity
  }

  /** No two positions of the list hold the same object. */
  ghost predicate Distinct<T>(xs: seq<T>) {
    forall i, j :: 0 <= i < j < |xs| ==> xs[i] != xs[j]
  }

  /** The values of a list of particle objects. */
  ghost function States(ps: seq<Particle>): (r: seq<PState>)
    reads ps
    ensures |r| == |ps|
  {
    seq(|ps|, i requires 0 <= i < |ps| reads ps => ps[i].View())
  }

  /** `splice(i, 1)` on a list without repetitions removes exactly the
      object at i and leaves a list without repetitions. */
  lemma SpliceDistinct(ps: seq<Particle>, i: nat)
    requires i < |ps| && Distinct(ps)
    ensures var r := ps[..i] + ps[i + 1..];
      Distinct(r) && forall q :: q in r <==> q in ps && q != ps[i]
  {
    var r := ps[..i] + ps[i + 1..];
    forall a, c | 0 <= a < c < |r| ensures r[a] != r[c] {
      var a', c' := if a < i then a else a + 1, if c < i then c else c + 1;
      assert r[a] == ps[a'] && r[c] == ps[c'];
    }
    forall q ensures q in r <==> q in ps && q != ps[i] {
      if q in ps && q != ps[i] {
        var k :| 0 <= k < |ps| && ps[k] == q;
        assert r[if k < i then k else k - 1] == q;
      }
      if q in r {
        var k :| 0 <= k < |r| && r[k] == q;
        assert q == ps[if k < i then k else k + 1];
      }
    }
  }

  /** `splice(i, 1)` commutes with taking values. */
  lemma StatesSplice(ps: seq<Particle>, i: nat)
    requires i < |ps|
    ensures States(ps[..i] + ps[i + 1..]) == States(ps)[..i] + States(ps)[i + 1..]
  {
  }

  /** A firework, updated in place every frame. */
  class Firework {
    const x: real
    var y: real
    const targetY: real
    const color: Color
    const vx: real
    var vy: real
    const size: real
    var trail: seq<TrailPoint>
    var exploded: bool
    var particles: seq<Particle>

    /** The firework as a value. */
    ghost function View(): FState
      reads this, particles
    {
      FState(x, y, targetY, color, vx, vy, size, trail, exploded, States(particles))
    }

    ghost predicate Valid()
      reads this, particles
    {
      Consistent(View()) && Distinct(particles)
    }

    /** `new Firework(x, y, targetY, color)`; `vyDraw` is its Math.random(). */
    constructor (x: real, y: real, targetY: real, color: Color, vyDraw: real)
      requires IsDraw(vyDraw)
      ensures Valid() && particles == []
      ensures View() == Launch(x, y, targetY, color, vyDraw)
    {
      this.x, this.y, this.targetY, this.color := x, y, targetY, color;
      this.vx, this.vy := 0.0, -vyDraw * 3.0 - 12.0;
      this.size := BodySize;
      this.trail, this.exploded, this.particles := [], false, [];
    }

    /** `Firework.update`; `b` holds the draws of the explosion it may
        trigger. Besides the value, the objects: no particle is shared with
        anything allocated before except its own old particles, and every
        particle object an exploded firework drops had opacity at most 0. */
    method Update(b: Burst)
      requires Valid() && ValidBurst(b)
      modifies this, particles
      ensures Valid()
      ensures View() == Advance(old(View()), b)
      ensures forall p :: p in particles ==> p in old(particles) || fresh(p)
      ensures old(exploded) ==> forall p :: p in old(particles) && p !in particles ==> p.alpha <= 0.0
    {
      if !exploded {
        Climb(b);
      } else {
        UpdateParticles();
      }
    }

    /** The climbing branch of `update`: rise, extend the trail, fade it, and
        explode at the top. */
    method Climb(b: Burst)
      requires Valid() && !exploded && ValidBurst(b)
      modifies this
      ensures Valid()
      ensures View() == Advance(old(View()), b)
      ensures forall p :: p in particles ==> fresh(p)
    {
      vy := vy + Lift;
      y := y + vy;
      ExtendTrail();
      if vy >= 0.0 || y <= targetY {
        Explode(b);
      }
    }

    /** The trail step of a climbing frame: append the current position at
        full opacity, drop the oldest point beyond 10, then fade them all. */
    method ExtendTrail()
      requires |trail| <= TrailLength
      modifies this`trail
      ensures trail == NextTrail(old(trail), x, y) && |trail| <= TrailLength
    {
      trail := trail + [TrailPoint(x, y, 1.0)];
      if |trail| > TrailLength {
        trail := trail[1..];
      }
      FadeTrail();
      NextTrailFacts(old(trail), x, y);
    }

    /** The trail fade of a climbing frame, point by point in place. */
    method FadeTrail()
      modifies this`trail
      ensures trail == Fade(old(trail))
    {
      var i := 0;
      while i < |trail|
        invariant 0 <= i <= |trail| == |old(trail)|
        invariant forall k :: 0 <= k < i ==> trail[k] == old(trail)[k].(alpha := old(trail)[k].alpha - TrailFade)
        invariant forall k :: i <= k < |trail| ==> trail[k] == old(trail)[k]
      {
        trail := trail[i := trail[i].(alpha := trail[i].alpha - TrailFade)];
        i := i + 1;
      }
    }

    /** `explode`: the loop over i = 0, 1, 2, ... while i is below the real
        bound particleCount, one new Particle per iteration. */
    method Explode(b: Burst)
      requires Valid() && !exploded && ValidBurst(b)
      modifies this`exploded, this`particles
      ensures Valid()
      ensures View() == Detonate(old(View()), b)
      ensures forall p :: p in particles ==> fresh(p)
    {
      exploded := true;
      var particleCount := b.countDraw * 50.0 + 50.0;
      ghost var n := Iterations(particleCount);
      var i := 0;
      while (i as real) < particleCount
        invariant 0 <= i <= n && exploded
        invariant |particles| == i && Distinct(particles)
        invariant forall p :: p in particles ==> fresh(p)
        invariant States(particles) == BurstParticles(x, y, color, b, i)
        decreases n - i
      {
        var s := b.spark(i);
        var speed := s.speedDraw * 6.0 + 2.0;
        var p := new Particle(x, y, color, s.dirX * speed, s.dirY * speed, s.sizeDraw * 3.0 + 1.0, s.decayDraw);
        assert p.View() == SparkParticle(x, y, color, s);
        ghost var before := States(particles);
        particles := particles + [p];
        assert States(particles) == before + [p.View()];
        assert BurstParticles(x, y, color, b, i + 1)
            == BurstParticles(x, y, color, b, i) + [SparkParticle(x, y, color, b.spark(i))];
        i := i + 1;
      }
      DetonateFacts(old(View()), b);
    }

    /** The exploded branch of `update`: each particle is updated, and spliced
        out when its opacity is at most 0. */
    method UpdateParticles()
      requires Valid() && exploded
      modifies this`particles, particles
      ensures Valid()
      ensures States(particles) == Prune(old(States(particles)))
      ensures forall p :: p in particles ==> p in old(particles)
      ensures forall p :: p in old(particles) && p !in particles ==> p.alpha <= 0.0
    {
      forall q | q in particles ensures 0.005 <= q.decay < 0.025 && q.gravity == Gravity {
        var k :| 0 <= k < |particles| && particles[k] == q;
        assert States(particles)[k] == q.View();
      }
      PruneParticles();
      forall k | 0 <= k < |particles| ensures Decaying(States(particles)[k]) {
        assert particles[k] in particles;
      }
    }

    /** The forEach loop over the particles, with the splice. */
    method PruneParticles()
      requires Distinct(particles) && Fading(particles)
      modifies this`particles, particles
      ensures Distinct(particles) && Fading(particles)
      ensures States(particles) == Prune(old(States(particles)))
      ensures forall p :: p in particles ==> p in old(particles)
      ensures forall p :: p in old(particles) && p !in particles ==> p.alpha <= 0.0
    {
      ghost var start, origin := States(particles), particles;
      SweptStart(start, StepAt, Dead);
      var i := 0;
      while i < |particles|
        invariant Pruning(i, start, origin)
        decreases |particles| - i
      {
        var removed := VisitParticle(i);
        i := i + 1;
      }
      SweptEnd(States(particles), i, StepAt, Dead);
    }

    /** Where the particle pass stands before it visits index i: what it has
        done to the list `origin`, whose states were `start`. */
    ghost predicate Pruning(i: nat, start: seq<PState>, origin: seq<Particle>)
      reads this, particles, origin
    {
      i <= |particles| + 1 && Distinct(particles) && Fading(particles)
      && (forall p :: p in particles ==> p in origin)
      && Swept(States(particles), i, StepAt, Dead) == Prune(start)
      && (forall p :: p in origin && p !in particles ==> p.alpha <= 0.0)
    }

    /** The forEach callback at `index`: update that particle, and splice it
        out when its opacity is now at most 0. */
    method VisitParticle(index: nat) returns (removed: bool)
      requires index < |particles| && Distinct(particles) && Fading(particles)
      modifies this`particles, particles[index]
      ensures var before, e := old(States(particles)), Step(old(States(particles))[index]);
        removed == Dead(e)
        && States(particles) == if removed then before[..index] + before[index + 1..] else before[index := e]
      ensures Distinct(particles) && Fading(particles)
      ensures forall q :: q in particles <==> q in old(particles) && (removed ==> q != old(particles[index]))
      ensures removed ==> old(particles[index]).alpha <= 0.0
      ensures Swept(States(particles), index + 1, StepAt, Dead) == Swept(old(States(particles)), index, StepAt, Dead)
      ensures |particles| <= old(|particles|)
    {
      var particle := particles[index];
      ghost var before := States(particles);
      particle.Update();
      assert States(particles) == before[index := Step(before[index])] by {
        forall k | 0 <= k < |particles|
          ensures States(particles)[k] == before[index := Step(before[index])][k]
        {
          if k != index {
            assert particles[k] != particle;
          }
        }
      }
      removed := particle.alpha <= 0.0;
      SweptVisit(before, index, StepAt, Dead);
      if removed {
        StatesSplice(particles, index);
        SpliceDistinct(particles, index);
        particles := particles[..index] + particles[index + 1..];
      }
    }
  }
}
