/** The spark of an explosion (class Particle of fireworks.js): a point that
    slows down, falls and fades. */
module Particles {
  import opened Draws

  /** Both velocity components are multiplied by this every frame. */
  const Damping: real := 0.99
  /** Added to the vertical velocity every frame (screen y grows downwards). */
  const Gravity: real := 0.1

  /** Every field of a particle. The source's velocity object {x, y} is
      flattened into vx, vy. */
  datatype PState = PState(x: real, y: real, vx: real, vy: real, color: Color,
                           size: real, alpha: real, decay: real, gravity: real)

  /** What construction fixes for good: decay = random·0.02 + 0.005, gravity 0.1. */
  predicate Decaying(p: PState) {
    0.005 <= p.decay < 0.025 && p.gravity == Gravity
  }

  /** A new particle: full opacity and a decay drawn from `decayDraw`. */
  function Spawn(x: real, y: real, color: Color, vx: real, vy: real, size: real, decayDraw: real): (p: PState)
    ensures IsDraw(decayDraw) ==> Decaying(p)
    ensures p.alpha == 1.0
  {
    PState(x, y, vx, vy, color, size, 1.0, decayDraw * 0.02 + 0.005, Gravity)
  }

  /** One frame of `Particle.update`: damp, fall, move by the new velocity,
      fade by `decay`. */
  function Step(p: PState): PState {
    var vx := p.vx * Damping;
    var vy := p.vy * Damping + p.gravity;
    p.(x := p.x + vx, y := p.y + vy, vx := vx, vy := vy, alpha := p.alpha - p.decay)
  }

  /** The splice test of an exploded firework. */
  predicate Dead(p: PState) {
    p.alpha <= 0.0
  }

  /** `n` frames of Step. */
  function Steps(p: PState, n: nat): PState
    decreases n
  {
    if n == 0 then p else Steps(Step(p), n - 1)
  }

  /** One frame: the velocity is 0.99 of the old plus gravity downwards, the
      position moves by the NEW velocity, the opacity drops by exactly `decay`
      (so strictly), and colour, size, decay and gravity stay. */
  lemma StepFacts(p: PState)
    requires Decaying(p)
    ensures var q := Step(p);
      q.vx == 0.99 * p.vx && q.vy == 0.99 * p.vy + 0.1
      && q.x == p.x + q.vx && q.y == p.y + q.vy
      && q.alpha == p.alpha - p.decay && q.alpha < p.alpha
      && q.color == p.color && q.size == p.size && Decaying(q) && q.decay == p.decay
  {
  }

  /** After n frames the opacity has dropped by exactly n·decay and nothing
      that construction fixed has moved. */
  lemma {:induction false} StepsFade(p: PState, n: nat)
    ensures var q := Steps(p, n);
      q.alpha == p.alpha - (n as real) * p.decay
      && q.color == p.color && q.size == p.size && q.decay == p.decay && q.gravity == p.gravity
    decreases n
  {
    if n > 0 {
      StepsFade(Step(p), n - 1);
    }
  }

  /** A particle born at opacity 1 is dead after n frames exactly when
      n·decay has used up its opacity; so it is alive for fewer than
      1/0.005 = 200 frames. */
  lemma {:induction false} DeadAfter(p: PState, n: nat)
    requires Decaying(p) && p.alpha == 1.0
    ensures Dead(Steps(p, n)) <==> (n as real) * p.decay >= 1.0
    ensures n >= 200 ==> Dead(Steps(p, n))
  {
    StepsFade(p, n);
    if n >= 200 {
      assert (n as real) * p.decay >= 200.0 * 0.005;
    }
  }

  /** A spark of an explosion, updated in place every frame. */
  class Particle {
    var x: real
    var y: real
    var vx: real
    var vy: real
    const color: Color
    const size: real
    var alpha: real
    const decay: real
    const gravity: real

    /** The particle as a value. */
    ghost function View(): PState
      reads this
    {
      PState(x, y, vx, vy, color, size, alpha, decay, gravity)
    }

    /** `new Particle(x, y, color, {x: vx, y: vy}, size)`; `decayDraw` is the
        constructor's own Math.random(). */
    constructor (x: real, y: real, color: Color, vx: real, vy: real, size: real, decayDraw: real)
      requires IsDraw(decayDraw)
      ensures View() == Spawn(x, y, color, vx, vy, size, decayDraw)
      ensures Decaying(View())
    {
      this.x, this.y := x, y;
      this.vx, this.vy := vx, vy;
      this.color, this.size := color, size;
      this.alpha := 1.0;
      this.decay := decayDraw * 0.02 + 0.005;
      this.gravity := Gravity;
    }

    /** `Particle.update`. */
    method Update()
      requires Decaying(View())
      modifies this
      ensures View() == Step(old(View()))
      ensures alpha < old(alpha)
    {
      vx := vx * Damping;
      vy := vy * Damping;
      vy := vy + gravity;
      x := x + vx;
      y := y + vy;
      alpha := alpha - decay;
    }
  }
}
