/** The show as a whole (the globals of fireworks.js and the functions that
    act on them): the list of fireworks, the list of text fireworks and the
    flag isShowing2026, with the frame loop `animate`, the launchers, `show2026`
    and `clearCanvas`. */
module Show {
  import opened Draws
  import opened Particles
  import opened Splice
  import opened Fireworks
  import opened TextFireworks

  /** The globals as a value. */
  datatype Snapshot = Snapshot(fireworks: seq<FState>, texts: seq<TState>, showing2026: bool)

  /** The splice test of `animate`: exploded and without particles. */
  predicate Spent(f: FState) {
    f.exploded && |f.particles| == 0
  }

  /** The update of the firework visited at array index k, with the draws
      bursts(k) for the explosion it may trigger. */
  function AdvanceAt(bursts: nat -> Burst): (nat, FState) -> FState {
    (k: nat, f: FState) => Advance(f, bursts(k))
  }

  /** `TextFirework.update` on the value. */
  function EaseText(t: TState): TState {
    t.(particles := EaseAll(t.particles))
  }

  /** One call of `animate`: the fireworks pass (update, splice when spent),
      then every text firework eases once. */
  function Frame(s: Snapshot, bursts: nat -> Burst): Snapshot {
    s.(fireworks := Sweep(s.fireworks, 0, AdvanceAt(bursts), Spent),
       texts := seq(|s.texts|, i requires 0 <= i < |s.texts| => EaseText(s.texts[i])))
  }

  /** `clearCanvas`. */
  function Cleared(): Snapshot {
    Snapshot([], [], false)
  }

  /** `show2026` before its timers fire. */
  function Showing(s: Snapshot): Snapshot {
    s.(showing2026 := true, texts := [])
  }

  /** `startFireworks` before its interval fires. */
  function Started(s: Snapshot): Snapshot {
    s.(showing2026 := false, texts := [])
  }

  /** A guarded launch (the interval callback or the click handler). */
  function Launched(s: Snapshot, f: FState): Snapshot {
    if s.showing2026 then s else s.(fireworks := s.fireworks + [f])
  }

  /** A series of guarded launches. */
  function LaunchedAll(s: Snapshot, fs: seq<FState>): Snapshot
    decreases |fs|
  {
    if fs == [] then s else LaunchedAll(Launched(s, fs[0]), fs[1..])
  }

  /** The timer callbacks of `show2026`: character, horizontal offset from
      the centre, delay in milliseconds. */
  const RevealSchedule: seq<(string, real, int)> :=
    [("2", -150.0, 0), ("0", -50.0, 200), ("2", 50.0, 400), ("6", 150.0, 600)]

  /** A firework that spends itself in the frame where it is updated had
      already exploded before: an explosion leaves 50 to 100 particles. */
  lemma SpentOnlyAfterBurst(f: FState, b: Burst)
    requires ValidBurst(b)
    ensures Spent(Advance(f, b)) ==> f.exploded
  {
    BurstSize(b);
  }

  /** One frame of the scene:
      - the flag and the number of text fireworks never change; each text
        firework keeps its text and anchor;
      - the fireworks pass never lengthens the list, and keeps every firework
        consistent;
      - a firework disappears only if it was already exploded before the frame
        and is spent after its update; so an unexploded firework never does;
      - every surviving firework is an original one, in the original order,
        either updated once or (right after a removal) untouched. */
  lemma FrameFacts(s: Snapshot, bursts: nat -> Burst)
    requires forall k: nat :: ValidBurst(bursts(k))
    requires forall i :: 0 <= i < |s.fireworks| ==> Consistent(s.fireworks[i])
    ensures var t := Frame(s, bursts);
      t.showing2026 == s.showing2026 && |t.texts| == |s.texts|
      && (forall i :: 0 <= i < |t.texts| ==>
            t.texts[i].text == s.texts[i].text && t.texts[i].x == s.texts[i].x && t.texts[i].y == s.texts[i].y)
      && |t.fireworks| <= |s.fireworks|
      && (forall j :: 0 <= j < |t.fireworks| ==> Consistent(t.fireworks[j]))
    ensures forall i :: 0 <= i < |s.fireworks| && i !in Kept(s.fireworks, 0, AdvanceAt(bursts), Spent, 0) ==>
      s.fireworks[i].exploded && exists b :: ValidBurst(b) && Spent(Advance(s.fireworks[i], b))
    ensures var r, K := Frame(s, bursts).fireworks, Kept(s.fireworks, 0, AdvanceAt(bursts), Spent, 0);
      |K| == |r|
      && (forall j, j' :: 0 <= j < j' < |K| ==> K[j] < K[j'])
      && forall j :: 0 <= j < |r| ==>
           0 <= K[j] < |s.fireworks| && (r[j] == s.fireworks[K[j]] || r[j] == Advance(s.fireworks[K[j]], bursts(j)))
  {
    var xs, step := s.fireworks, AdvanceAt(bursts);
    KeptLength(xs, 0, step, Spent, 0);
    KeptOrdered(xs, 0, step, Spent, 0);
    SweepOrigin(xs, 0, step, Spent, 0);
    forall k: nat, e: FState | Consistent(e) ensures Consistent(step(k, e)) {
      AdvanceConsistent(e, bursts(k));
    }
    SweepKeeps(xs, 0, step, Spent, Consistent);
    SweepRemovesOnlyDead(xs, 0, step, Spent, 0);
    forall i | 0 <= i < |xs| && i !in Kept(xs, 0, step, Spent, 0)
      ensures xs[i].exploded && exists b :: ValidBurst(b) && Spent(Advance(xs[i], b))
    {
      assert 0 + i !in Kept(xs, 0, step, Spent, 0);
      assert Doomed(step, Spent, xs[i]);
      var k: nat :| Spent(step(k, xs[i]));
      SpentOnlyAfterBurst(xs[i], bursts(k));
    }
  }

  /** The splice skip, for the fireworks list: when the first of two
      fireworks is spent by its update, the second one is neither updated nor
      tested in that frame, and the fireworks after it are visited one index
      earlier than they stand. */
  lemma FrameSkipsSuccessor(s: Snapshot, f: FState, g: FState, rest: seq<FState>, bursts: nat -> Burst)
    requires s.fireworks == [f, g] + rest && Spent(Advance(f, bursts(0)))
    ensures Frame(s, bursts).fireworks == [g] + Sweep(rest, 1, AdvanceAt(bursts), Spent)
  {
    SweepSkipsSuccessor(f, g, rest, 0, AdvanceAt(bursts), Spent);
  }

  /** While 2026 is showing, no launch adds a firework, however many come. */
  lemma {:induction false} ShowingBlocksLaunches(s: Snapshot, fs: seq<FState>)
    requires s.showing2026
    ensures LaunchedAll(s, fs) == s
    decreases |fs|
  {
    if fs != [] {
      ShowingBlocksLaunches(Launched(s, fs[0]), fs[1..]);
    }
  }

  /** Otherwise every launch adds its firework at the end, in order. */
  lemma {:induction false} LaunchesAppend(s: Snapshot, fs: seq<FState>)
    requires !s.showing2026
    ensures LaunchedAll(s, fs) == s.(fireworks := s.fireworks + fs)
    decreases |fs|
  {
    if fs != [] {
      LaunchesAppend(Launched(s, fs[0]), fs[1..]);
      assert s.fireworks + [fs[0]] + fs[1..] == s.fireworks + fs;
    }
  }

  /** Frames keep the flag, so `show2026` blocks launches until `clearCanvas`
      or `startFireworks`, after which they are accepted again. */
  lemma GuardLifecycle(s: Snapshot, bursts: nat -> Burst, n: nat, f: FState)
    ensures Frame(Showing(s), bursts).showing2026
    ensures Launched(Frame(Showing(s), bursts), f) == Frame(Showing(s), bursts)
    ensures Launched(Cleared(), f).fireworks == [f]
    ensures Launched(Started(Showing(s)), f).fireworks == s.fireworks + [f]
  {
  }

  /** The particle objects of the fireworks fs. */
  ghost function SparksOf(fs: seq<Firework>): (r: set<Particle>)
    reads fs
    ensures forall i, p :: 0 <= i < |fs| && p in fs[i].particles ==> p in r
  {
    set f, p | f in fs && p in f.particles :: p
  }

  ghost function FStates(fs: seq<Firework>): (r: seq<FState>)
    reads fs, SparksOf(fs)
    ensures |r| == |fs|
  {
    seq(|fs|, i requires 0 <= i < |fs| reads fs, SparksOf(fs) => fs[i].View())
  }

  ghost function TStates(ts: seq<TextFirework>): (r: seq<TState>)
    reads ts
    ensures |r| == |ts|
  {
    seq(|ts|, i requires 0 <= i < |ts| reads ts => ts[i].View())
  }

  /** No two fireworks share a particle object. */
  ghost predicate SeparateSparks(fs: seq<Firework>)
    reads fs
  {
    forall i, j, p :: 0 <= i < |fs| && 0 <= j < |fs| && i != j && p in fs[i].particles ==> p !in fs[j].particles
  }

  /** Every firework distinct, with particles of its own, and valid. */
  ghost predicate Healthy(fs: seq<Firework>)
    reads fs, SparksOf(fs)
  {
    Distinct(fs) && SeparateSparks(fs) && forall f :: f in fs ==> f.Valid()
  }

  lemma FStatesSplice(fs: seq<Firework>, i: nat)
    requires i < |fs|
    ensures FStates(fs[..i] + fs[i + 1..]) == FStates(fs)[..i] + FStates(fs)[i + 1..]
  {
    var r := fs[..i] + fs[i + 1..];
    forall k | 0 <= k < |r| ensures FStates(r)[k] == (FStates(fs)[..i] + FStates(fs)[i + 1..])[k] {
      if k >= i {
        assert r[k] == fs[k + 1];
      }
    }
  }

  lemma HealthySplice(fs: seq<Firework>, i: nat)
    requires i < |fs| && Healthy(fs)
    ensures var r := fs[..i] + fs[i + 1..];
      Healthy(r) && (forall g :: g in r <==> g in fs && g != fs[i])
      && SparksOf(r) <= SparksOf(fs)
  {
    var r := fs[..i] + fs[i + 1..];
    forall a, c | 0 <= a < c < |r| ensures r[a] != r[c] {
      var a', c' := if a < i then a else a + 1, if c < i then c else c + 1;
      assert r[a] == fs[a'] && r[c] == fs[c'];
    }
    forall a, c, p | 0 <= a < |r| && 0 <= c < |r| && a != c && p in r[a].particles
      ensures p !in r[c].particles
    {
      var a', c' := if a < i then a else a + 1, if c < i then c else c + 1;
      assert r[a] == fs[a'] && r[c] == fs[c'];
    }
    forall g ensures g in r <==> g in fs && g != fs[i] {
      if g in fs && g != fs[i] {
        var k :| 0 <= k < |fs| && fs[k] == g;
        if k < i {
          assert r[k] == g;
        } else {
          assert r[k - 1] == g;
        }
      }
      if g in r {
        var k :| 0 <= k < |r| && r[k] == g;
        var k' := if k < i then k else k + 1;
        assert fs[k'] == g;
      }
    }
  }

  /** A firework none of whose objects changed keeps its state. */
  twostate lemma Untouched(g: Firework)
    requires unchanged(g) && forall p :: p in g.particles ==> unchanged(p)
    ensures g.View() == old(g.View()) && (old(g.Valid()) ==> g.Valid())
  {
    forall j | 0 <= j < |g.particles| ensures States(g.particles)[j] == old(States(g.particles))[j] {
      assert g.particles[j] in g.particles;
    }
    assert States(g.particles) == old(States(g.particles));
  }

  /** The globals of the page. */
  class Scene {
    var fireworks: seq<Firework>
    var textFireworks: seq<TextFirework>
    var isShowing2026: bool

    ghost function Sparks(): set<Particle>
      reads this, fireworks
    {
      SparksOf(fireworks)
    }

    ghost function View(): Snapshot
      reads this, fireworks, Sparks(), textFireworks
    {
      Snapshot(FStates(fireworks), TStates(textFireworks), isShowing2026)
    }

    ghost predicate Valid()
      reads this, fireworks, Sparks(), textFireworks
    {
      Healthy(fireworks) && Distinct(textFireworks) && forall t :: t in textFireworks ==> t.Valid()
    }

    /** The globals as the page starts: no fireworks, no text fireworks, the
        flag down. */
    constructor ()
      ensures Valid() && View() == Cleared()
    {
      fireworks, textFireworks, isShowing2026 := [], [], false;
    }

    /** `animate` without the drawing and the rescheduling; `bursts(k)` holds
        the draws for an explosion of the firework visited at index k. The
        text fireworks and the flag stay; no firework object is added; every
        firework object dropped is exploded with no particles. */
    method Animate(bursts: nat -> Burst)
      requires Valid() && forall k: nat :: ValidBurst(bursts(k))
      modifies this, fireworks, Sparks(), textFireworks
      ensures Valid()
      ensures View() == Frame(old(View()), bursts)
      ensures textFireworks == old(textFireworks)
      ensures forall f :: f in fireworks ==> f in old(fireworks)
      ensures forall f :: f in old(fireworks) && f !in fireworks ==> f.exploded && |f.particles| == 0
    {
      ghost var s0 := View();
      UpdateFireworks(bursts);
      assert TStates(textFireworks) == s0.texts && forall t :: t in textFireworks ==> t.Valid();
      UpdateTexts();
    }

    /** The fireworks pass of `animate`: forEach, update, splice when spent. */
    method UpdateFireworks(bursts: nat -> Burst)
      requires Healthy(fireworks) && forall k: nat :: ValidBurst(bursts(k))
      modifies this`fireworks, fireworks, Sparks()
      ensures Healthy(fireworks)
      ensures FStates(fireworks) == Sweep(old(FStates(fireworks)), 0, AdvanceAt(bursts), Spent)
      ensures forall f :: f in fireworks ==> f in old(fireworks)
      ensures forall p :: p in Sparks() ==> p in old(Sparks()) || fresh(p)
      ensures forall f :: f in old(fireworks) && f !in fireworks ==> f.exploded && |f.particles| == 0
    {
      ghost var start, origin := FStates(fireworks), fireworks;
      SweptStart(start, AdvanceAt(bursts), Spent);
      var i := 0;
      while i < |fireworks|
        invariant Sweeping(i, bursts, start, origin)
        invariant forall p :: p in Sparks() ==> p in old(Sparks()) || fresh(p)
        decreases |fireworks| - i
      {
        SweepStep(i, bursts, start, origin);
        i := i + 1;
      }
      SweptEnd(FStates(fireworks), i, AdvanceAt(bursts), Spent);
    }

    /** Where the fireworks pass stands before it visits index i: what it
        has done to the list `origin`, whose states were `start`. */
    ghost predicate Sweeping(i: nat, bursts: nat -> Burst, start: seq<FState>, origin: seq<Firework>)
      reads this, fireworks, Sparks(), origin
    {
      i <= |fireworks| + 1 && Healthy(fireworks)
      && (forall f :: f in fireworks ==> f in origin)
      && Swept(FStates(fireworks), i, AdvanceAt(bursts), Spent) == Sweep(start, 0, AdvanceAt(bursts), Spent)
      && (forall f :: f in origin && f !in fireworks ==> f.exploded && |f.particles| == 0)
    }

    /** One turn of the pass. */
    method SweepStep(i: nat, bursts: nat -> Burst, ghost start: seq<FState>, ghost origin: seq<Firework>)
      requires i < |fireworks| && Sweeping(i, bursts, start, origin) && ValidBurst(bursts(i))
      modifies this`fireworks, fireworks[i], fireworks[i].particles
      ensures Sweeping(i + 1, bursts, start, origin) && |fireworks| <= old(|fireworks|)
      ensures forall p :: p in Sparks() ==> p in old(Sparks()) || fresh(p)
    {
      var removed := VisitFirework(i, bursts);
    }

    /** The forEach callback of `animate` at `index`: update that firework,
        and splice it out when it is exploded and has no particles left. */
    method VisitFirework(index: nat, bursts: nat -> Burst) returns (removed: bool)
      requires index < |fireworks| && Healthy(fireworks) && ValidBurst(bursts(index))
      modifies this`fireworks, fireworks[index], fireworks[index].particles
      ensures var before, e := old(FStates(fireworks)), Advance(old(FStates(fireworks))[index], bursts(index));
        removed == Spent(e)
        && FStates(fireworks) == if removed then before[..index] + before[index + 1..] else before[index := e]
      ensures Healthy(fireworks)
      ensures forall f :: f in fireworks <==> f in old(fireworks) && (removed ==> f != old(fireworks[index]))
      ensures removed ==> var f := old(fireworks[index]); f.exploded && |f.particles| == 0
      ensures forall p :: p in Sparks() ==> p in old(Sparks()) || fresh(p)
      ensures Swept(FStates(fireworks), index + 1, AdvanceAt(bursts), Spent)
        == Swept(old(FStates(fireworks)), index, AdvanceAt(bursts), Spent)
    {
      var firework := fireworks[index];
      ghost var before := FStates(fireworks);
      UpdateAt(index, bursts(index));
      assert FStates(fireworks)[index] == firework.View();
      removed := firework.exploded && |firework.particles| == 0;
      SweptVisit(before, index, AdvanceAt(bursts), Spent);
      if removed {
        FStatesSplice(fireworks, index);
        HealthySplice(fireworks, index);
        fireworks := fireworks[..index] + fireworks[index + 1..];
      }
    }

    /** `firework.update()` on the firework at `index`: the others, which
        share no particle with it, keep their state. */
    method UpdateAt(index: nat, b: Burst)
      requires index < |fireworks| && Healthy(fireworks) && ValidBurst(b)
      modifies fireworks[index], fireworks[index].particles
      ensures FStates(fireworks) == old(FStates(fireworks))[index := Advance(old(FStates(fireworks))[index], b)]
      ensures Healthy(fireworks)
      ensures forall p :: p in Sparks() ==> p in old(Sparks()) || fresh(p)
    {
      var firework := fireworks[index];
      ghost var mine := firework.particles;
      firework.Update(b);
      forall k | 0 <= k < |fireworks| && k != index
        ensures unchanged(fireworks[k]) && forall p :: p in fireworks[k].particles ==> unchanged(p)
      {
        var g := fireworks[k];
        assert g in fireworks && g != firework;
        assert forall p :: p in g.particles ==> p !in mine;
      }
      UpdatedOne(index);
    }

    /** After the firework at `index` alone was updated (its new particles
        are its old ones or new objects), the list is healthy again and its
        states are the old ones with that firework's new state in place. */
    twostate lemma UpdatedOne(index: nat)
      requires index < |fireworks| && fireworks == old(fireworks) && old(Healthy(fireworks))
      requires forall k :: 0 <= k < |fireworks| && k != index ==>
        unchanged(fireworks[k]) && forall p :: p in fireworks[k].particles ==> unchanged(p)
      requires fireworks[index].Valid()
      requires forall p :: p in fireworks[index].particles ==> p in old(fireworks[index].particles) || fresh(p)
      ensures FStates(fireworks) == old(FStates(fireworks))[index := fireworks[index].View()]
      ensures Healthy(fireworks)
      ensures forall p :: p in Sparks() ==> p in old(Sparks()) || fresh(p)
    {
      var fs := fireworks;
      forall k | 0 <= k < |fs| && k != index ensures fs[k].View() == old(fs[k].View()) && fs[k].Valid() {
        assert old(fs[k] in fs && fs[k].Valid());
        Untouched(fs[k]);
      }
      forall i, j, p | 0 <= i < |fs| && 0 <= j < |fs| && i != j && p in fs[i].particles
        ensures p !in fs[j].particles
      {
      }
      forall p | p in SparksOf(fs) ensures p in old(SparksOf(fs)) || fresh(p) {
        var k :| 0 <= k < |fs| && p in fs[k].particles;
      }
    }

    /** The text pass of `animate`: every text firework updates once, in order. */
    method UpdateTexts()
      requires Distinct(textFireworks) && forall t :: t in textFireworks ==> t.Valid()
      requires Healthy(fireworks)
      modifies textFireworks
      ensures forall t :: t in textFireworks ==> t.Valid()
      ensures Healthy(fireworks) && FStates(fireworks) == old(FStates(fireworks))
      ensures TStates(textFireworks) == seq(|old(TStates(textFireworks))|,
        i requires 0 <= i < |old(TStates(textFireworks))| => EaseText(old(TStates(textFireworks))[i]))
    {
      var j := 0;
      while j < |textFireworks|
        invariant 0 <= j <= |textFireworks|
        invariant forall t :: t in textFireworks ==> t.Valid()
        invariant Healthy(fireworks) && FStates(fireworks) == old(FStates(fireworks))
        invariant forall k :: 0 <= k < j ==> textFireworks[k].View() == EaseText(old(textFireworks[k].View()))
        invariant forall k :: j <= k < |textFireworks| ==> textFireworks[k].View() == old(textFireworks[k].View())
      {
        textFireworks[j].Update();
        j := j + 1;
      }
    }

    /** The state changes of `startFireworks`: the flag drops and the text
        fireworks go; the launch interval is `IntervalLaunch`. */
    method StartFireworks()
      modifies this
      requires Valid()
      ensures Valid() && View() == Started(old(View()))
      ensures fireworks == old(fireworks) && textFireworks == [] && !isShowing2026
    {
      isShowing2026 := false;
      textFireworks := [];
    }

    /** The interval callback of `startFireworks`, with canvas size
        (width, height) and the draws for x, targetY, the colour and the
        firework's own vy, in that order. While the flag is down it launches
        from the bottom edge towards the upper half; once it is up it
        launches nothing and asks for the interval to be cleared. */
    method IntervalLaunch(width: real, height: real, xDraw: real, targetDraw: real, colorDraw: real, vyDraw: real)
      returns (stop: bool)
      requires IsDraw(xDraw) && IsDraw(targetDraw) && IsDraw(colorDraw) && IsDraw(vyDraw)
      requires Valid()
      modifies this
      ensures Valid() && stop == isShowing2026 && textFireworks == old(textFireworks)
      ensures View() == Launched(old(View()),
        Launch(xDraw * width, height, targetDraw * height * 0.5, PickColor(colorDraw), vyDraw))
      ensures isShowing2026 == old(isShowing2026)
      ensures old(isShowing2026) ==> fireworks == old(fireworks)
      ensures !old(isShowing2026) ==>
        |fireworks| == |old(fireworks)| + 1 && fireworks[..|old(fireworks)|] == old(fireworks)
        && fresh(fireworks[|old(fireworks)|])
        && fireworks[|old(fireworks)|].View()
           == Launch(xDraw * width, height, targetDraw * height * 0.5, PickColor(colorDraw), vyDraw)
    {
      if !isShowing2026 {
        var x := xDraw * width;
        var y := height;
        var targetY := targetDraw * height * 0.5;
        var color := PickColor(colorDraw);
        var f := new Firework(x, y, targetY, color, vyDraw);
        Push(f);
        stop := false;
      } else {
        stop := true;
      }
    }

    /** The click handler: a firework from the bottom edge at the click's x
        towards the click's y, only while the flag is down. */
    method Click(clientX: real, clientY: real, height: real, colorDraw: real, vyDraw: real)
      requires IsDraw(colorDraw) && IsDraw(vyDraw)
      requires Valid()
      modifies this
      ensures Valid() && textFireworks == old(textFireworks) && isShowing2026 == old(isShowing2026)
      ensures View() == Launched(old(View()), Launch(clientX, height, clientY, PickColor(colorDraw), vyDraw))
      ensures old(isShowing2026) ==> fireworks == old(fireworks)
      ensures !old(isShowing2026) ==>
        |fireworks| == |old(fireworks)| + 1 && fireworks[..|old(fireworks)|] == old(fireworks)
        && fresh(fireworks[|old(fireworks)|])
        && fireworks[|old(fireworks)|].View() == Launch(clientX, height, clientY, PickColor(colorDraw), vyDraw)
    {
      if !isShowing2026 {
        var color := PickColor(colorDraw);
        var f := new Firework(clientX, height, clientY, color, vyDraw);
        Push(f);
      }
    }

    /** Append a new firework f to the list. */
    method Push(f: Firework)
      requires Valid() && f.Valid() && f.particles == [] && f !in fireworks
      modifies this`fireworks
      ensures Valid() && fireworks == old(fireworks) + [f]
      ensures View() == old(View()).(fireworks := old(View()).fireworks + [f.View()])
    {
      fireworks := fireworks + [f];
      assert SparksOf(fireworks) == SparksOf(old(fireworks));
      assert FStates(fireworks) == old(FStates(fireworks)) + [f.View()];
    }

    /** The state changes of `show2026`: the flag rises and the text
        fireworks go; the characters arrive later through `Reveal`. */
    method Show2026()
      modifies this
      requires Valid()
      ensures Valid() && View() == Showing(old(View()))
      ensures fireworks == old(fireworks) && textFireworks == [] && isShowing2026
    {
      isShowing2026 := true;
      textFireworks := [];
    }

    /** The k-th timer callback of `show2026` on a canvas of size
        (width, height): a text firework for the k-th character of 2026 at
        the centre shifted by its offset. `pixels` is what the offscreen
        canvas yields for that character. The callback does not look at the
        flag. */
    method Reveal(k: nat, width: real, height: real, pixels: seq<int>, draws: nat -> Scatter)
      requires k < |RevealSchedule| && |pixels| == ImageBytes && ValidScatters(draws)
      requires Valid()
      modifies this
      ensures Valid() && fireworks == old(fireworks) && isShowing2026 == old(isShowing2026)
      ensures |textFireworks| == |old(textFireworks)| + 1
        && textFireworks[..|old(textFireworks)|] == old(textFireworks)
        && fresh(textFireworks[|old(textFireworks)|])
        && textFireworks[|old(textFireworks)|].View()
           == TState(RevealSchedule[k].0, width / 2.0 + RevealSchedule[k].1, height / 2.0,
                     GlyphParticles(pixels, width / 2.0 + RevealSchedule[k].1, height / 2.0, draws))
    {
      var centerX := width / 2.0;
      var centerY := height / 2.0;
      var entry := RevealSchedule[k];
      var t := new TextFirework(entry.0, centerX + entry.1, centerY, pixels, draws);
      textFireworks := textFireworks + [t];
    }

    /** `clearCanvas` without the opaque fill. */
    method ClearCanvas()
      modifies this
      ensures Valid() && View() == Cleared()
    {
      fireworks := [];
      textFireworks := [];
      isShowing2026 := false;
    }
  }
}
