/** The pruning idiom the animation uses twice (for the particles of an
    exploded firework and for the list of fireworks): a forEach over the array
    whose callback updates the element at `index` and, when the element is now
    dead, splices it out of the same array.

    forEach walks indices 0, 1, 2, ... of the array as it is at that moment and
    stops at its current length. When element `index` is spliced out, the next
    element slides into slot `index`, which forEach has already visited, so that
    element is neither updated nor tested on this pass. */
module Splice {

  /** The survivors, in order, when the pass meets the original elements `xs`
      and the first of them sits at array index `pos`. `step(k, e)` is the update
      of the element visited at index k; `dead` is the splice test. */
  function Sweep<T>(xs: seq<T>, pos: nat, step: (nat, T) -> T, dead: T -> bool): seq<T>
    decreases |xs|
  {
    if xs == [] then []
    else
      var e := step(pos, xs[0]);
      if !dead(e) then [e] + Sweep(xs[1..], pos + 1, step, dead)
      else if |xs| == 1 then []
      else [xs[1]] + Sweep(xs[2..], pos + 1, step, dead)
  }

  /** The array `xs` once forEach has visited indices 0 .. i-1 of it, completed
      by the rest of the pass. A removal of the last element leaves the loop
      index one past the end: then the pass is over. */
  function Swept<T>(xs: seq<T>, i: nat, step: (nat, T) -> T, dead: T -> bool): seq<T> {
    if i <= |xs| then xs[..i] + Sweep(xs[i..], i, step, dead) else xs
  }

  /** The original indices (counted from `base`) of the elements that survive
      Sweep(xs, pos, step, dead). */
  function Kept<T>(xs: seq<T>, pos: nat, step: (nat, T) -> T, dead: T -> bool, base: nat): seq<nat>
    decreases |xs|
  {
    if xs == [] then []
    else if !dead(step(pos, xs[0])) then [base] + Kept(xs[1..], pos + 1, step, dead, base + 1)
    else if |xs| == 1 then []
    else [base + 1] + Kept(xs[2..], pos + 1, step, dead, base + 2)
  }

  /** Element e is dead after its update at some array index. */
  ghost predicate Doomed<T>(step: (nat, T) -> T, dead: T -> bool, e: T) {
    exists k: nat :: dead(step(k, e))
  }

  /** The survivors are as many as the indices Kept lists, never more than
      the original elements: the pass never lengthens the array. */
  lemma {:induction false} KeptLength<T>(xs: seq<T>, pos: nat, step: (nat, T) -> T, dead: T -> bool, base: nat)
    ensures |Kept(xs, pos, step, dead, base)| == |Sweep(xs, pos, step, dead)| <= |xs|
    decreases |xs|
  {
    if xs == [] {
    } else if !dead(step(pos, xs[0])) {
      KeptLength(xs[1..], pos + 1, step, dead, base + 1);
    } else if |xs| > 1 {
      KeptLength(xs[2..], pos + 1, step, dead, base + 2);
    }
  }

  /** The survivors keep their original relative order: Kept is strictly
      increasing and within the original indices. */
  lemma {:induction false} KeptOrdered<T>(xs: seq<T>, pos: nat, step: (nat, T) -> T, dead: T -> bool, base: nat)
    ensures forall j :: 0 <= j < |Kept(xs, pos, step, dead, base)| ==>
      base <= Kept(xs, pos, step, dead, base)[j] < base + |xs|
    ensures forall j, j' :: 0 <= j < j' < |Kept(xs, pos, step, dead, base)| ==>
      Kept(xs, pos, step, dead, base)[j] < Kept(xs, pos, step, dead, base)[j']
    decreases |xs|
  {
    if xs == [] {
    } else if !dead(step(pos, xs[0])) {
      KeptOrdered(xs[1..], pos + 1, step, dead, base + 1);
      var K, K1 := Kept(xs, pos, step, dead, base), Kept(xs[1..], pos + 1, step, dead, base + 1);
      assert K == [base] + K1;
      forall j | 0 < j < |K| ensures K[j] == K1[j - 1] && base < K[j] < base + |xs| { }
    } else if |xs| > 1 {
      KeptOrdered(xs[2..], pos + 1, step, dead, base + 2);
      var K, K1 := Kept(xs, pos, step, dead, base), Kept(xs[2..], pos + 1, step, dead, base + 2);
      assert K == [base + 1] + K1;
      forall j | 0 < j < |K| ensures K[j] == K1[j - 1] && base + 1 < K[j] < base + |xs| { }
    }
  }

  /** Survivor j of `r` is the element K[j] of `xs` (counted from `base`),
      either untouched or updated at array index pos + j and then alive. */
  ghost predicate Traced<T>(r: seq<T>, K: seq<nat>, xs: seq<T>, pos: nat, step: (nat, T) -> T, dead: T -> bool, base: nat) {
    |K| == |r| && (forall j :: 0 <= j < |K| ==> base <= K[j] < base + |xs|) &&
    forall j :: 0 <= j < |r| ==>
      r[j] == xs[K[j] - base] || (r[j] == step(pos + j, xs[K[j] - base]) && !dead(r[j]))
  }

  /** Traced survives putting one more traced survivor in front, when the
      rest were traced in a suffix of the elements. */
  lemma TracedCons<T>(h: T, k: nat, r: seq<T>, K: seq<nat>, xs: seq<T>, d: nat,
                      pos: nat, step: (nat, T) -> T, dead: T -> bool, base: nat)
    requires 1 <= d <= |xs| && Traced(r, K, xs[d..], pos + 1, step, dead, base + d)
    requires base <= k < base + |xs| && (h == xs[k - base] || (h == step(pos, xs[k - base]) && !dead(h)))
    ensures Traced([h] + r, [k] + K, xs, pos, step, dead, base)
  {
    var r', K' := [h] + r, [k] + K;
    forall j | 0 < j < |r'|
      ensures base <= K'[j] < base + |xs|
      ensures r'[j] == xs[K'[j] - base] || (r'[j] == step(pos + j, xs[K'[j] - base]) && !dead(r'[j]))
    {
      var i := j - 1;
      assert r'[j] == r[i] && K'[j] == K[i];
      assert xs[d..][K[i] - (base + d)] == xs[K'[j] - base];
    }
  }

  /** Each survivor is its original element, either updated at its new index
      (and then not dead) or, when it slid into a freed slot, untouched. */
  lemma {:induction false} SweepOrigin<T>(xs: seq<T>, pos: nat, step: (nat, T) -> T, dead: T -> bool, base: nat)
    ensures Traced(Sweep(xs, pos, step, dead), Kept(xs, pos, step, dead, base), xs, pos, step, dead, base)
    decreases |xs|
  {
    if xs == [] {
    } else if !dead(step(pos, xs[0])) {
      SweepOrigin(xs[1..], pos + 1, step, dead, base + 1);
      TracedCons(step(pos, xs[0]), base, Sweep(xs[1..], pos + 1, step, dead),
                 Kept(xs[1..], pos + 1, step, dead, base + 1), xs, 1, pos, step, dead, base);
    } else if |xs| > 1 {
      SweepOrigin(xs[2..], pos + 1, step, dead, base + 2);
      TracedCons(xs[1], base + 1, Sweep(xs[2..], pos + 1, step, dead),
                 Kept(xs[2..], pos + 1, step, dead, base + 2), xs, 2, pos, step, dead, base);
    }
  }

  /** Every original element missing from Kept was spliced out because it was
      dead after its update at some index. */
  lemma {:induction false} SweepRemovesOnlyDead<T>(xs: seq<T>, pos: nat, step: (nat, T) -> T, dead: T -> bool, base: nat)
    ensures forall i :: 0 <= i < |xs| && base + i !in Kept(xs, pos, step, dead, base) ==>
      Doomed(step, dead, xs[i])
    decreases |xs|
  {
    var K := Kept(xs, pos, step, dead, base);
    if xs == [] {
    } else if !dead(step(pos, xs[0])) {
      SweepRemovesOnlyDead(xs[1..], pos + 1, step, dead, base + 1);
      var K1 := Kept(xs[1..], pos + 1, step, dead, base + 1);
      assert K == [base] + K1;
      forall i | 0 <= i < |xs| && base + i !in Kept(xs, pos, step, dead, base)
        ensures Doomed(step, dead, xs[i])
      {
        assert i != 0 && (base + 1) + (i - 1) !in K1;
        assert xs[i] == xs[1..][i - 1];
      }

    } else if |xs| == 1 {
      assert dead(step(pos, xs[0]));
    } else {
      SweepRemovesOnlyDead(xs[2..], pos + 1, step, dead, base + 2);
      var K1 := Kept(xs[2..], pos + 1, step, dead, base + 2);
      assert K == [base + 1] + K1;
      forall i | 0 <= i < |xs| && base + i !in Kept(xs, pos, step, dead, base)
        ensures Doomed(step, dead, xs[i])
      {
        if i == 0 {
          assert dead(step(pos, xs[i]));
        } else {
          assert i != 1 && (base + 2) + (i - 2) !in K1;
          assert xs[i] == xs[2..][i - 2];
        }
      }
    }
  }

  /** Every element updated once at its own index, nothing removed. */
  function Stepped<T>(xs: seq<T>, pos: nat, step: (nat, T) -> T): (r: seq<T>)
    ensures |r| == |xs|
    decreases |xs|
  {
    if xs == [] then [] else [step(pos, xs[0])] + Stepped(xs[1..], pos + 1, step)
  }

  /** A pass in which nothing dies updates every element exactly once and
      removes nothing. */
  lemma {:induction false} SweepNoneDead<T>(xs: seq<T>, pos: nat, step: (nat, T) -> T, dead: T -> bool)
    requires forall j :: 0 <= j < |xs| ==> !dead(step(pos + j, xs[j]))
    ensures Sweep(xs, pos, step, dead) == Stepped(xs, pos, step)
    decreases |xs|
  {
    if xs != [] {
      assert !dead(step(pos + 0, xs[0]));
      forall j | 0 <= j < |xs[1..]| ensures !dead(step(pos + 1 + j, xs[1..][j])) {
        assert !dead(step(pos + (j + 1), xs[j + 1]));
      }
      SweepNoneDead(xs[1..], pos + 1, step, dead);
    }
  }

  /** A property that every element has and that the update keeps holds of
      every survivor. */
  lemma {:induction false} SweepKeeps<T>(xs: seq<T>, pos: nat, step: (nat, T) -> T, dead: T -> bool, P: T -> bool)
    requires forall j :: 0 <= j < |xs| ==> P(xs[j])
    requires forall k: nat, e: T :: P(e) ==> P(step(k, e))
    ensures forall j :: 0 <= j < |Sweep(xs, pos, step, dead)| ==> P(Sweep(xs, pos, step, dead)[j])
    decreases |xs|
  {
    if xs == [] {
    } else if !dead(step(pos, xs[0])) {
      SweepKeeps(xs[1..], pos + 1, step, dead, P);
      assert P(step(pos, xs[0]));
    } else if |xs| > 1 {
      SweepKeeps(xs[2..], pos + 1, step, dead, P);
      assert P(xs[1]);
    }
  }

  /** The skip: when the element at index pos dies, its successor survives
      untouched on that pass, even if its own update would have killed it, and
      the pass goes on with the rest of the array at index pos + 1. */
  lemma SweepSkipsSuccessor<T>(a: T, b: T, rest: seq<T>, pos: nat, step: (nat, T) -> T, dead: T -> bool)
    requires dead(step(pos, a))
    ensures Sweep([a, b] + rest, pos, step, dead) == [b] + Sweep(rest, pos + 1, step, dead)
  {
    assert ([a, b] + rest)[2..] == rest;
  }

  /** Nothing visited yet: the whole pass is ahead. */
  lemma SweptStart<T>(xs: seq<T>, step: (nat, T) -> T, dead: T -> bool)
    ensures Swept(xs, 0, step, dead) == Sweep(xs, 0, step, dead)
  {
    assert xs[0..] == xs;
  }

  /** The loop has stopped: the array is the result of the pass. */
  lemma SweptEnd<T>(xs: seq<T>, i: nat, step: (nat, T) -> T, dead: T -> bool)
    requires i >= |xs|
    ensures Swept(xs, i, step, dead) == xs
  {
    if i == |xs| {
      assert xs[..i] == xs && xs[i..] == [];
    }
  }

  /** One iteration of forEach at index i: update the element in place and
      keep it, or splice it out; either way the rest of the pass is unchanged. */
  lemma SweptVisit<T>(xs: seq<T>, i: nat, step: (nat, T) -> T, dead: T -> bool)
    requires i < |xs|
    ensures var e := step(i, xs[i]);
      if dead(e) then Swept(xs[..i] + xs[i + 1..], i + 1, step, dead) == Swept(xs, i, step, dead)
      else Swept(xs[i := e], i + 1, step, dead) == Swept(xs, i, step, dead)
  {
    var e := step(i, xs[i]);
    assert xs[i..][0] == xs[i];
    if dead(e) {
      var ys := xs[..i] + xs[i + 1..];
      if i + 1 < |xs| {
        assert xs[i..][1..] == xs[i + 1..];
        assert xs[i..][2..] == xs[i + 2..];
        assert ys[..i + 1] == xs[..i] + [xs[i + 1]];
        assert ys[i + 1..] == xs[i + 2..];
      } else {
        assert ys == xs[..i];
      }
    } else {
      var ys := xs[i := e];
      assert xs[i..][1..] == xs[i + 1..];
      assert ys[..i + 1] == xs[..i] + [e];
      assert ys[i + 1..] == xs[i + 1..];
    }
  }
}
