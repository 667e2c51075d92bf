/** A text firework (class TextFirework of fireworks.js): the glyph of a
    character, rasterised at 80px bold onto a 400×100 offscreen canvas, is
    sampled every 4 pixels; each opaque sample becomes a particle that eases
    from a random scatter position towards its own fixed target. */
module TextFireworks {
  import opened Draws

  /** The offscreen canvas is 400 × 100 pixels of 4 bytes (RGBA) each. */
  const ImageBytes: int := 160000
  /** The font size of the rasterised text. */
  const FontSize: int := 80
  /** The number of sample points: (400 / 4) · (100 / 4). */
  const GridCells: int := 2500

  /** A pixel position on the offscreen canvas. */
  datatype Cell = Cell(x: int, y: int)

  /** The alpha byte of pixel (x, y): byte (y·400 + x)·4 + 3 of the buffer. */
  function AlphaAt(pixels: seq<int>, x: int, y: int): int
    requires |pixels| == ImageBytes && 0 <= x < 400 && 0 <= y < 100
  {
    pixels[(y * 400 + x) * 4 + 3]
  }

  /** A sample point: both coordinates are multiples of the stride 4 and lie
      inside the canvas. */
  predicate OnGrid(c: Cell) {
    0 <= c.x < 400 && 0 <= c.y < 100 && c.x % 4 == 0 && c.y % 4 == 0
  }

  /** A sample point that becomes a particle: its alpha byte exceeds 128. */
  predicate Inked(pixels: seq<int>, c: Cell)
    requires |pixels| == ImageBytes
  {
    OnGrid(c) && AlphaAt(pixels, c.x, c.y) > 128
  }

  /** Row-major order: upper rows first, left to right within a row. */
  predicate Before(a: Cell, b: Cell) {
    a.y < b.y || (a.y == b.y && a.x < b.x)
  }

  predicate Sorted(cs: seq<Cell>) {
    forall i, j :: 0 <= i < j < |cs| ==> Before(cs[i], cs[j])
  }

  /** The sample points in the order the nested loop visits them: rows from
      the top in steps of 4, and within a row columns from the left in steps
      of 4. */
  function SampleGrid(): seq<Cell> {
    seq(GridCells, k requires 0 <= k < GridCells => Cell(k % 100 * 4, k / 100 * 4))
  }

  /** The inked cells among cs, in their order. */
  function KeptCells(pixels: seq<int>, cs: seq<Cell>): seq<Cell>
    requires |pixels| == ImageBytes
  {
    if cs == [] then []
    else
      var rest := KeptCells(pixels, cs[..|cs| - 1]);
      if Inked(pixels, cs[|cs| - 1]) then rest + [cs[|cs| - 1]] else rest
  }

  /** Every kept sample of the glyph, in the order the nested loop meets them. */
  function GlyphCells(pixels: seq<int>): seq<Cell>
    requires |pixels| == ImageBytes
  {
    KeptCells(pixels, SampleGrid())
  }

  /** Sample (column col, row row) sits at index row·100 + col of the grid. */
  lemma GridAt(row: int, col: int)
    requires 0 <= row < 25 && 0 <= col < 100
    ensures 0 <= row * 100 + col < GridCells
    ensures SampleGrid()[row * 100 + col] == Cell(col * 4, row * 4)
  {
    var k := row * 100 + col;
    assert k / 100 == row && k % 100 == col;
  }

  /** The grid holds exactly the sample points. */
  lemma GridMembers(c: Cell)
    ensures c in SampleGrid() <==> OnGrid(c)
  {
    if OnGrid(c) {
      GridAt(c.y / 4, c.x / 4);
      assert SampleGrid()[c.y / 4 * 100 + c.x / 4] == c;
    }
    if c in SampleGrid() {
      var k :| 0 <= k < |SampleGrid()| && SampleGrid()[k] == c;
      assert c == Cell(k % 100 * 4, k / 100 * 4);
    }
  }

  /** The grid is in strict row-major order. */
  lemma GridSorted()
    ensures Sorted(SampleGrid())
  {
    forall i, j | 0 <= i < j < GridCells ensures Before(SampleGrid()[i], SampleGrid()[j]) {
      assert i == i / 100 * 100 + i % 100;
      assert j == j / 100 * 100 + j % 100;
    }
  }

  /** A cell survives the filter exactly when it is one of cs and inked. */
  lemma {:induction false} KeptMembers(pixels: seq<int>, cs: seq<Cell>, c: Cell)
    requires |pixels| == ImageBytes
    ensures c in KeptCells(pixels, cs) <==> c in cs && Inked(pixels, c)
    decreases |cs|
  {
    if cs != [] {
      var n := |cs| - 1;
      KeptMembers(pixels, cs[..n], c);
      assert cs == cs[..n] + [cs[n]];
    }
  }

  /** Filtering one more cell appends it exactly when it is inked. */
  lemma KeptSnoc(pixels: seq<int>, cs: seq<Cell>, k: int)
    requires |pixels| == ImageBytes && 0 <= k < |cs|
    ensures KeptCells(pixels, cs[..k + 1]) ==
      KeptCells(pixels, cs[..k]) + (if Inked(pixels, cs[k]) then [cs[k]] else [])
  {
    assert cs[..k + 1][..k] == cs[..k];
  }

  /** Filtering keeps the order and never grows the sequence. */
  lemma {:induction false} KeptOrder(pixels: seq<int>, cs: seq<Cell>)
    requires |pixels| == ImageBytes
    ensures |KeptCells(pixels, cs)| <= |cs|
    ensures Sorted(cs) ==> Sorted(KeptCells(pixels, cs))
    decreases |cs|
  {
    if cs != [] {
      var n := |cs| - 1;
      var rest := KeptCells(pixels, cs[..n]);
      KeptOrder(pixels, cs[..n]);
      if Sorted(cs) && Inked(pixels, cs[n]) {
        forall i | 0 <= i < |rest| ensures Before(rest[i], cs[n]) {
          KeptMembers(pixels, cs[..n], rest[i]);
        }
        assert Sorted(rest + [cs[n]]);
      }
    }
  }

  /** The glyph's samples are exactly the inked sample points. */
  lemma GlyphCellsMembers(pixels: seq<int>, c: Cell)
    requires |pixels| == ImageBytes
    ensures c in GlyphCells(pixels) <==> Inked(pixels, c)
  {
    KeptMembers(pixels, SampleGrid(), c);
    GridMembers(c);
  }

  /** The samples come in strict row-major order, so none is repeated, and
      there are at most 2500 of them. */
  lemma GlyphCellsOrder(pixels: seq<int>)
    requires |pixels| == ImageBytes
    ensures Sorted(GlyphCells(pixels)) && |GlyphCells(pixels)| <= GridCells
  {
    GridSorted();
    KeptOrder(pixels, SampleGrid());
  }

  /** A particle of a text firework. */
  datatype TextParticle = TextParticle(targetX: real, targetY: real, x: real, y: real,
                                       color: Color, size: real, speed: real)

  /** The draws made for one kept sample, in the source's order: colour,
      scatter x, scatter y, size, speed. */
  datatype Scatter = Scatter(colorDraw: real, xDraw: real, yDraw: real, sizeDraw: real, speedDraw: real)

  predicate ValidScatter(d: Scatter) {
    IsDraw(d.colorDraw) && IsDraw(d.xDraw) && IsDraw(d.yDraw) && IsDraw(d.sizeDraw) && IsDraw(d.speedDraw)
  }

  ghost predicate ValidScatters(draws: nat -> Scatter) {
    forall k: nat :: ValidScatter(draws(k))
  }

  /** The particle of sample c for a text anchored at (ax, ay): its target is
      the sample's offset from the canvas centre (200, 50), added to the anchor. */
  function Place(ax: real, ay: real, c: Cell, d: Scatter): TextParticle
    requires ValidScatter(d)
  {
    TextParticle(ax + c.x as real - 200.0, ay + c.y as real - 50.0,
                 ax + (d.xDraw - 0.5) * 800.0, ay + (d.yDraw - 0.5) * 400.0,
                 PickColor(d.colorDraw), d.sizeDraw * 3.0 + 2.0, d.speedDraw * 0.02 + 0.01)
  }

  /** The particles of the samples cs, the k-th using draws(k). */
  function Placed(cs: seq<Cell>, ax: real, ay: real, draws: nat -> Scatter): seq<TextParticle>
    requires ValidScatters(draws)
  {
    seq(|cs|, k requires 0 <= k < |cs| => Place(ax, ay, cs[k], draws(k)))
  }

  /** Placing one more cell appends its particle, made with the next draws. */
  lemma PlacedSnoc(cs: seq<Cell>, c: Cell, ax: real, ay: real, draws: nat -> Scatter)
    requires ValidScatters(draws)
    ensures Placed(cs + [c], ax, ay, draws) == Placed(cs, ax, ay, draws) + [Place(ax, ay, c, draws(|cs|))]
  {
  }

  /** The kept cells among the first k sample points. */
  function Sampled(pixels: seq<int>, k: int): seq<Cell>
    requires |pixels| == ImageBytes && 0 <= k <= GridCells
  {
    KeptCells(pixels, SampleGrid()[..k])
  }

  /** One step of the nested loop, at sample k = (column col, row row): the
      sample is kept, with the next draws, exactly when its alpha byte
      exceeds 128. */
  lemma SampleStep(pixels: seq<int>, ax: real, ay: real, draws: nat -> Scatter, row: int, col: int, k: int)
    requires |pixels| == ImageBytes && ValidScatters(draws) && 0 <= row < 25 && 0 <= col < 100
    requires k == row * 100 + col
    ensures 0 <= k < GridCells
    ensures pixels[(4 * row * 400 + 4 * col) * 4 + 3] > 128 ==>
      Sampled(pixels, k + 1) == Sampled(pixels, k) + [Cell(4 * col, 4 * row)]
      && Placed(Sampled(pixels, k + 1), ax, ay, draws) ==
         Placed(Sampled(pixels, k), ax, ay, draws) + [Place(ax, ay, Cell(4 * col, 4 * row), draws(|Sampled(pixels, k)|))]
    ensures pixels[(4 * row * 400 + 4 * col) * 4 + 3] <= 128 ==> Sampled(pixels, k + 1) == Sampled(pixels, k)
  {
    var c := Cell(4 * col, 4 * row);
    GridAt(row, col);
    GridMembers(c);
    KeptSnoc(pixels, SampleGrid(), k);
    PlacedSnoc(Sampled(pixels, k), c, ax, ay, draws);
  }

  /** Every particle `createTextParticles` makes, in order. */
  function GlyphParticles(pixels: seq<int>, ax: real, ay: real, draws: nat -> Scatter): seq<TextParticle>
    requires |pixels| == ImageBytes && ValidScatters(draws)
  {
    Placed(GlyphCells(pixels), ax, ay, draws)
  }

  /** One particle per glyph sample, at most 2500, however the draws and the
      anchor fall; the k-th aims at (ax + x - 200, ay + y - 50) for the k-th
      sample (x, y), a grid point whose alpha exceeds 128; its speed lies in
      [0.01, 0.03), its size in [2, 5) and its colour in the palette. */
  lemma GlyphParticlesFacts(pixels: seq<int>, ax: real, ay: real, draws: nat -> Scatter)
    requires |pixels| == ImageBytes && ValidScatters(draws)
    ensures var ps, cs := GlyphParticles(pixels, ax, ay, draws), GlyphCells(pixels);
      |ps| == |cs| <= GridCells
      && forall k :: 0 <= k < |ps| ==>
           Inked(pixels, cs[k])
           && ps[k].targetX == ax + cs[k].x as real - 200.0
           && ps[k].targetY == ay + cs[k].y as real - 50.0
           && 0.01 <= ps[k].speed < 0.03 && 2.0 <= ps[k].size < 5.0 && ps[k].color in Palette
  {
    GlyphCellsOrder(pixels);
    var cs := GlyphCells(pixels);
    forall k | 0 <= k < |cs| ensures Inked(pixels, cs[k]) {
      GlyphCellsMembers(pixels, cs[k]);
    }
  }

  /** One frame of a text particle: it closes the fraction `speed` of the
      remaining distance to its target. */
  function Ease(p: TextParticle): TextParticle {
    var dx := p.targetX - p.x;
    var dy := p.targetY - p.y;
    p.(x := p.x + dx * p.speed, y := p.y + dy * p.speed)
  }

  /** `TextFirework.update`: every particle eases once. */
  function EaseAll(ps: seq<TextParticle>): seq<TextParticle> {
    seq(|ps|, i requires 0 <= i < |ps| => Ease(ps[i]))
  }

  function Pow(r: real, n: nat): real
    decreases n
  {
    if n == 0 then 1.0 else r * Pow(r, n - 1)
  }

  /** n frames of Ease. */
  function Eases(p: TextParticle, n: nat): TextParticle
    decreases n
  {
    if n == 0 then p else Eases(Ease(p), n - 1)
  }

  /** One frame multiplies each offset to the target by (1 - speed). */
  lemma EaseOffset(p: TextParticle)
    ensures var q := Ease(p);
      q.targetX - q.x == (1.0 - p.speed) * (p.targetX - p.x)
      && q.targetY - q.y == (1.0 - p.speed) * (p.targetY - p.y)
  {
  }

  /** q's offset to its target is k times p's, on both axes. */
  predicate Scaled(q: TextParticle, p: TextParticle, k: real) {
    q.targetX - q.x == k * (p.targetX - p.x) && q.targetY - q.y == k * (p.targetY - p.y)
  }

  lemma ScaledTrans(p: TextParticle, e: TextParticle, q: TextParticle, r: real, a: real)
    requires Scaled(e, p, r) && Scaled(q, e, a)
    ensures Scaled(q, p, r * a)
  {
    var dx, dy := p.targetX - p.x, p.targetY - p.y;
    assert a * (r * dx) == (r * a) * dx;
    assert a * (r * dy) == (r * a) * dy;
  }

  /** After n frames a particle keeps its target, speed, colour and size, and
      its offset to the target is the first one times (1 - speed)^n. */
  lemma {:induction false} EasesOffset(p: TextParticle, n: nat)
    ensures var q := Eases(p, n);
      q.targetX == p.targetX && q.targetY == p.targetY && q.speed == p.speed
      && q.color == p.color && q.size == p.size
      && Scaled(q, p, Pow(1.0 - p.speed, n))
    decreases n
  {
    if n > 0 {
      var r := 1.0 - p.speed;
      var a := Pow(r, n - 1);
      assert Pow(r, n) == r * a;
      var e, q := Ease(p), Eases(p, n);
      EaseOffset(p);
      assert Scaled(e, p, r);
      EasesOffset(e, n - 1);
      assert e.speed == p.speed && q == Eases(e, n - 1);
      assert Scaled(q, e, a);
      ScaledTrans(p, e, q, r, a);
    }
  }

  lemma MulBelow(x: real, y: real)
    requires 0.0 <= x < 1.0 && 0.0 <= y <= 1.0
    ensures 0.0 <= x * y < 1.0
  {
    assert x * y <= x * 1.0;
  }

  /** A factor in (0, 1] raised to n stays in (0, 1], and below 1 once n > 0:
      with EasesOffset, the offset to the target shrinks geometrically. */
  lemma {:induction false} PowBounds(r: real, n: nat)
    requires 0.0 < r < 1.0
    ensures 0.0 < Pow(r, n) <= 1.0
    ensures n > 0 ==> Pow(r, n) < 1.0
    decreases n
  {
    if n > 0 {
      PowBounds(r, n - 1);
      var prev := Pow(r, n - 1);
      MulBelow(r, prev);
      MulSign(r, prev);
      assert Pow(r, n) == r * prev;
    }
  }

  lemma MulSign(x: real, y: real)
    requires y > 0.0
    ensures x > 0.0 ==> x * y > 0.0
    ensures x < 0.0 ==> x * y < 0.0
  {
  }

  /** A fraction m = d·s, with s in (0, 1), of a distance d lies strictly
      between 0 and d. */
  lemma Fraction(d: real, s: real, m: real)
    requires 0.0 < s < 1.0 && m == d * s
    ensures d > 0.0 ==> 0.0 < m < d
    ensures d < 0.0 ==> d < m < 0.0
  {
    var t := 1.0 - s;
    MulSign(d, s);
    MulSign(d, t);
    assert d * t == d - m;
  }

  /** Moving from `from` by the fraction s in (0, 1) of the way to `to`
      lands strictly between the two, or stays put when they coincide. */
  lemma Approach(from: real, to: real, s: real, v: real)
    requires 0.0 < s < 1.0 && v == from + (to - from) * s
    ensures from < to ==> from < v < to
    ensures to < from ==> to < v < from
    ensures from == to ==> v == from
  {
    Fraction(to - from, s, v - from);
  }

  /** With a speed in (0, 1) every frame moves a particle strictly closer to
      its target along each axis where it is not there yet, never past it,
      and leaves it in place along an axis where it is. */
  lemma EaseApproaches(p: TextParticle)
    requires 0.0 < p.speed < 1.0
    ensures var q := Ease(p);
      (p.x < p.targetX ==> p.x < q.x < p.targetX)
      && (p.targetX < p.x ==> p.targetX < q.x < p.x)
      && (p.x == p.targetX ==> q.x == p.x)
      && (p.y < p.targetY ==> p.y < q.y < p.targetY)
      && (p.targetY < p.y ==> p.targetY < q.y < p.y)
      && (p.y == p.targetY ==> q.y == p.y)
  {
    var q := Ease(p);
    Approach(p.x, p.targetX, p.speed, q.x);
    Approach(p.y, p.targetY, p.speed, q.y);
  }

  /** The value of a text firework. */
  datatype TState = TState(text: string, x: real, y: real, particles: seq<TextParticle>)

  /** A text firework, whose particles ease in place every frame. */
  class TextFirework {
    const text: string
    const x: real
    const y: real
    const fontSize: int
    var particles: seq<TextParticle>

    ghost function View(): TState
      reads this
    {
      TState(text, x, y, particles)
    }

    /** At most one particle per grid cell, each with its speed in [0.01, 0.03). */
    ghost predicate Valid()
      reads this
    {
      |particles| <= GridCells && forall i :: 0 <= i < |particles| ==> 0.01 <= particles[i].speed < 0.03
    }

    /** `new TextFirework(text, x, y)`: `pixels` is the image data the offscreen
        canvas yields for `text`, `draws(k)` the draws for the k-th particle. */
    constructor (text: string, x: real, y: real, pixels: seq<int>, draws: nat -> Scatter)
      requires |pixels| == ImageBytes && ValidScatters(draws)
      ensures Valid()
      ensures View() == TState(text, x, y, GlyphParticles(pixels, x, y, draws))
    {
      this.text, this.x, this.y := text, x, y;
      this.particles := [];
      this.fontSize := FontSize;
      new;
      CreateTextParticles(pixels, draws);
      GlyphParticlesFacts(pixels, x, y, draws);
    }

    /** `createTextParticles`: the nested sampling loop, pushing one particle
        per kept sample. */
    method CreateTextParticles(pixels: seq<int>, draws: nat -> Scatter)
      requires |pixels| == ImageBytes && ValidScatters(draws)
      modifies this`particles
      ensures particles == old(particles) + GlyphParticles(pixels, x, y, draws)
    {
      ghost var start := particles;
      ghost var row, k := 0, 0;
      var kept := 0;
      var sy := 0;
      while sy < 100
        invariant 0 <= row <= 25 && sy == 4 * row && k == row * 100
        invariant kept == |Sampled(pixels, k)|
        invariant particles == start + Placed(Sampled(pixels, k), x, y, draws)
      {
        ghost var col := 0;
        var sx := 0;
        while sx < 400
          invariant 0 <= col <= 100 && sx == 4 * col && k == row * 100 + col
          invariant kept == |Sampled(pixels, k)|
          invariant particles == start + Placed(Sampled(pixels, k), x, y, draws)
        {
          SampleStep(pixels, x, y, draws, row, col, k);
          var index := (sy * 400 + sx) * 4;
          var alpha := pixels[index + 3];
          if alpha > 128 {
            var p := Place(x, y, Cell(sx, sy), draws(kept));
            particles := particles + [p];
            kept := kept + 1;
          }
          sx := sx + 4;
          col, k := col + 1, k + 1;
        }
        sy := sy + 4;
        row := row + 1;
      }
      assert SampleGrid()[..GridCells] == SampleGrid();
    }

    /** `TextFirework.update`. */
    method Update()
      requires Valid()
      modifies this`particles
      ensures Valid()
      ensures particles == EaseAll(old(particles))
    {
      var i := 0;
      while i < |particles|
        invariant 0 <= i <= |particles| == |old(particles)|
        invariant forall k :: 0 <= k < i ==> particles[k] == Ease(old(particles)[k])
        invariant forall k :: i <= k < |particles| ==> particles[k] == old(particles)[k]
      {
        var particle := particles[i];
        var dx := particle.targetX - particle.x;
        var dy := particle.targetY - particle.y;
        particles := particles[i := particle.(x := particle.x + dx * particle.speed,
                                              y := particle.y + dy * particle.speed)];
        i := i + 1;
      }
    }
  }
}
