/** The forward-decaying priority reservoir of `metrics/sample.go`.

    Keys are reals: the exponentials and the random divisor that produce them
    arrive as parameters, and only their order and sign matter here. */
module SampleHeap {
  import Heaps

  const RESCALE_THRESHOLD: int := 3_600_000_000_000  // one hour, in nanoseconds

  datatype Sample = Sample(k: real, v: int)

  predicate KeyLess(a: Sample, b: Sample) {
    a.k < b.k
  }

  lemma KeyLessIsOrder()
    ensures Heaps.StrictWeakOrder(KeyLess)
  {
  }

  function Decayed(x: Sample, decay: real): Sample {
    Sample(x.k * decay, x.v)
  }

  function Scaled(s: seq<Sample>, decay: real): (r: seq<Sample>)
    ensures |r| == |s|
    ensures forall i :: 0 <= i < |s| ==> r[i] == Decayed(s[i], decay)
  {
    seq(|s|, i requires 0 <= i < |s| => Decayed(s[i], decay))
  }

  lemma ScaledPushStaysPut(s: seq<Sample>, x: Sample)
    requires Heaps.IsHeap(s, KeyLess)
    requires |s| > 0 ==> !KeyLess(x, s[Heaps.Parent(|s|)])
    ensures Heaps.SiftUp(s + [x], |s|, KeyLess) == s + [x]
  {
  }

  /** A common non-negative factor keeps the heap order. */
  lemma ScaledIsHeap(s: seq<Sample>, decay: real)
    requires decay >= 0.0 && Heaps.IsHeap(s, KeyLess)
    ensures Heaps.IsHeap(Scaled(s, decay), KeyLess)
  {
    hide Scaled, Decayed;
    forall i | 0 < i < |s|
      ensures !KeyLess(Scaled(s, decay)[i], Scaled(s, decay)[Heaps.Parent(i)])
    {
      DecayKeepsOrder(s[Heaps.Parent(i)], s[i], decay);
    }
  }

  lemma DecayKeepsOrder(a: Sample, b: Sample, decay: real)
    requires decay >= 0.0 && !KeyLess(b, a)
    ensures !KeyLess(Decayed(b, decay), Decayed(a, decay))
  {
    ScaleKeepsOrder(a.k, b.k, decay);
  }

  lemma ScaleKeepsOrder(a: real, b: real, decay: real)
    requires decay >= 0.0 && a <= b
    ensures a * decay <= b * decay
  {
    assert (b - a) * decay >= 0.0;
  }

  /** The samples left after the eviction that precedes an insertion. */
  function Kept(s: seq<Sample>, reservoirSize: nat): (r: seq<Sample>)
    requires Heaps.IsHeap(s, KeyLess) && 1 <= reservoirSize
    ensures Heaps.IsHeap(r, KeyLess)
  {
    KeyLessIsOrder();
    if |s| == reservoirSize then Heaps.Pop(s, KeyLess).1 else s
  }

  /** A full reservoir evicts one sample, of least key; another evicts none. */
  lemma KeptEvictsLeast(s: seq<Sample>, reservoirSize: nat) returns (min: Sample)
    requires Heaps.IsHeap(s, KeyLess) && 1 <= reservoirSize
    ensures |s| != reservoirSize ==> Kept(s, reservoirSize) == s
    ensures |s| == reservoirSize ==>
              && min in s && multiset(s) == multiset(Kept(s, reservoirSize)) + multiset{min}
              && AtMost(min, multiset(s))
  {
    KeyLessIsOrder();
    if |s| == reservoirSize {
      min := Heaps.Pop(s, KeyLess).0;
      forall y | y in multiset(s) ensures min.k <= y.k { assert y in s && !KeyLess(y, min); }
    } else {
      min := Sample(0.0, 0);
    }
  }

  /** The reservoir after one sample: evict if full, insert, and rescale if due. */
  function Updated(s: seq<Sample>, reservoirSize: nat, x: Sample, rescale: bool, decay: real): (r: seq<Sample>)
    requires Heaps.IsHeap(s, KeyLess) && 1 <= reservoirSize && decay > 0.0
    ensures Heaps.IsHeap(r, KeyLess)
  {
    KeyLessIsOrder();
    var grown := Heaps.Push(Kept(s, reservoirSize), x, KeyLess);
    ScaledIsHeap(grown, decay);
    if rescale then Scaled(grown, decay) else grown
  }

  /** Exactly the kept samples and the new one; a rescale scales every key in place. */
  lemma UpdatedElements(s: seq<Sample>, reservoirSize: nat, x: Sample, decay: real)
    requires Heaps.IsHeap(s, KeyLess) && 1 <= reservoirSize && decay > 0.0
    ensures multiset(Updated(s, reservoirSize, x, false, decay)) == multiset(Kept(s, reservoirSize)) + multiset{x}
    ensures Updated(s, reservoirSize, x, true, decay) == Scaled(Updated(s, reservoirSize, x, false, decay), decay)
  {
    KeyLessIsOrder();
  }

  /** One call of update: its sample, whether a rescale is due, and by what factor. */
  datatype Step = Step(x: Sample, rescale: bool, decay: real)

  ghost predicate Decaying(steps: seq<Step>) {
    forall i :: 0 <= i < |steps| ==> steps[i].decay > 0.0
  }

  /** The reservoir after a run of updates. */
  ghost function Run(steps: seq<Step>, reservoirSize: nat): (r: seq<Sample>)
    requires 1 <= reservoirSize && Decaying(steps)
    ensures Heaps.IsHeap(r, KeyLess)
  {
    if steps == [] then []
    else
      var n := |steps| - 1;
      Updated(Run(steps[..n], reservoirSize), reservoirSize, steps[n].x, steps[n].rescale, steps[n].decay)
  }

  lemma RunOneMore(steps: seq<Step>, step: Step, reservoirSize: nat)
    requires 1 <= reservoirSize && Decaying(steps) && step.decay > 0.0
    ensures Decaying(steps + [step])
    ensures Run(steps + [step], reservoirSize)
            == Updated(Run(steps, reservoirSize), reservoirSize, step.x, step.rescale, step.decay)
  {
    assert (steps + [step])[..|steps|] == steps;
  }

  /** Every sample of the run, in order, with the key it would have by now. */
  ghost function Seen(steps: seq<Step>): (r: seq<Sample>)
    ensures |r| == |steps|
  {
    if steps == [] then []
    else
      var n := |steps| - 1;
      var s := Seen(steps[..n]) + [steps[n].x];
      if steps[n].rescale then Scaled(s, steps[n].decay) else s
  }

  /** e has at most the key of every sample in m. */
  ghost predicate AtMost(e: Sample, m: multiset<Sample>) {
    forall y :: y in m ==> e.k <= y.k
  }

  /** kept is part of seen, holds newest, and apart from newest holds the greatest keys seen. */
  ghost predicate HoldsGreatest(seen: multiset<Sample>, kept: multiset<Sample>, newest: Sample) {
    && kept <= seen && newest in kept
    && forall e :: e in seen - kept ==> AtMost(e, kept - multiset{newest})
  }

  /** What a run keeps, however often it rescales: the newest sample, and for the rest the greatest keys seen. */
  lemma {:induction false} RunKeepsGreatest(steps: seq<Step>, reservoirSize: nat)
    requires 1 <= reservoirSize && Decaying(steps)
    ensures |Run(steps, reservoirSize)| == if |steps| < reservoirSize then |steps| else reservoirSize
    ensures steps != [] ==>
              HoldsGreatest(multiset(Seen(steps)), multiset(Run(steps, reservoirSize)), Seen(steps)[|steps| - 1])
  {
    hide Updated, HoldsGreatest, Scaled;
    if steps != [] {
      var n := |steps| - 1;
      var before, p, x, decay := Seen(steps[..n]), Run(steps[..n], reservoirSize), steps[n].x, steps[n].decay;
      RunKeepsGreatest(steps[..n], reservoirSize);
      SampleKeepsGreatest(before, p, reservoirSize, x, decay);
      LastSplit(before + [x]);
      UpdatedElements(p, reservoirSize, x, decay);
      if steps[n].rescale {
        ScaledHoldsGreatest(before + [x], Updated(p, reservoirSize, x, false, decay), x, decay);
      }
    }
  }

  lemma DecayIsInjective(x: Sample, y: Sample, decay: real)
    requires decay > 0.0 && Decayed(x, decay) == Decayed(y, decay)
    ensures x == y
  {
    assert x.k == x.k * decay / decay;
    assert y.k == y.k * decay / decay;
  }

  lemma {:induction false} ScaledCount(s: seq<Sample>, decay: real, x: Sample)
    requires decay > 0.0
    ensures multiset(Scaled(s, decay))[Decayed(x, decay)] == multiset(s)[x]
  {
    hide Decayed;
    if s != [] {
      var t, last := s[..|s| - 1], s[|s| - 1];
      ScaledCount(t, decay, x);
      assert s == t + [last] && Scaled(s, decay) == Scaled(t, decay) + [Decayed(last, decay)];
      if Decayed(last, decay) == Decayed(x, decay) { DecayIsInjective(last, x, decay); }
    }
  }

  lemma ScaledComesFrom(s: seq<Sample>, decay: real, y: Sample) returns (x: Sample)
    requires y in multiset(Scaled(s, decay))
    ensures x in multiset(s) && y == Decayed(x, decay)
  {
    hide Decayed;
    var r := Scaled(s, decay);
    var i :| 0 <= i < |r| && r[i] == y;
    x := s[i];
  }

  /** Scaling everything seen and everything kept by a common positive factor changes nothing about what is kept. */
  lemma ScaledHoldsGreatest(seen: seq<Sample>, kept: seq<Sample>, newest: Sample, decay: real)
    requires decay > 0.0 && HoldsGreatest(multiset(seen), multiset(kept), newest)
    ensures HoldsGreatest(multiset(Scaled(seen, decay)), multiset(Scaled(kept, decay)), Decayed(newest, decay))
  {
    hide Decayed, Scaled;
    var a, b, n := multiset(Scaled(seen, decay)), multiset(Scaled(kept, decay)), Decayed(newest, decay);
    forall y | y in b ensures b[y] <= a[y] {
      var x := ScaledComesFrom(kept, decay, y);
      ScaledCount(seen, decay, x);
      ScaledCount(kept, decay, x);
    }
    ScaledCount(kept, decay, newest);
    forall e, y | e in a - b && y in b - multiset{n} ensures e.k <= y.k {
      var x := ScaledComesFrom(seen, decay, e);
      var z := ScaledComesFrom(kept, decay, y);
      ScaledCount(seen, decay, x);
      ScaledCount(kept, decay, x);
      ScaledCount(kept, decay, z);
      assert x in multiset(seen) - multiset(kept) && z in multiset(kept) - multiset{newest};
      assert AtMost(x, multiset(kept) - multiset{newest});
      DecayKeepsOrder(x, z, decay);
    }
  }

  lemma LastSplit(samples: seq<Sample>)
    requires samples != []
    ensures multiset(samples) == multiset(samples[..|samples| - 1]) + multiset{samples[|samples| - 1]}
  {
    assert samples == samples[..|samples| - 1] + [samples[|samples| - 1]];
  }

  lemma SampleKeepsGreatest(seen: seq<Sample>, p: seq<Sample>, reservoirSize: nat, x: Sample, decay: real)
    requires 1 <= reservoirSize && decay > 0.0 && Heaps.IsHeap(p, KeyLess)
    requires |p| == if |seen| < reservoirSize then |seen| else reservoirSize
    requires seen != [] ==> HoldsGreatest(multiset(seen), multiset(p), seen[|seen| - 1])
    ensures var s := Updated(p, reservoirSize, x, false, decay);
            && HoldsGreatest(multiset(seen) + multiset{x}, multiset(s), x)
            && |s| == if |seen| + 1 < reservoirSize then |seen| + 1 else reservoirSize
  {
    hide Updated, Kept;
    var r := Kept(p, reservoirSize);
    var s := Updated(p, reservoirSize, x, false, decay);
    UpdatedElements(p, reservoirSize, x, decay);
    var min := KeptEvictsLeast(p, reservoirSize);
    assert |s| == |multiset(s)| == |multiset(r)| + 1 == |r| + 1;
    if |p| == reservoirSize {
      assert |p| == |multiset(p)| == |multiset(r)| + 1;
      EvictThenAdd(multiset(seen), multiset(p), multiset(r), min, seen[|seen| - 1], x);
    } else {
      AddOnly(multiset(seen), multiset(p), x, seen != [], if seen != [] then seen[|seen| - 1] else x);
    }
  }

  lemma AddOnly(seen: multiset<Sample>, p: multiset<Sample>, x: Sample, started: bool, newest: Sample)
    requires |p| == |seen|
             && (if started then HoldsGreatest(seen, p, newest) else seen == multiset{} && p == multiset{})
    ensures HoldsGreatest(seen + multiset{x}, p + multiset{x}, x)
  {
    assert |seen - p| == 0;
    assert seen + multiset{x} - (p + multiset{x}) == seen - p;
  }

  lemma EvictThenAdd(seen: multiset<Sample>, p: multiset<Sample>, r: multiset<Sample>,
                     min: Sample, newest: Sample, x: Sample)
    requires HoldsGreatest(seen, p, newest) && p == r + multiset{min} && AtMost(min, p)
    ensures HoldsGreatest(seen + multiset{x}, r + multiset{x}, x)
  {
    assert seen + multiset{x} - (r + multiset{x}) == seen - r;
    assert r + multiset{x} - multiset{x} == r;
    forall e, y | e in seen - r && y in r
      ensures e.k <= y.k
    {
      assert y in p;
      if e in seen - p {
        assert min == newest || min in p - multiset{newest};
      } else {
        assert e == min;
      }
    }
  }

  /** A min-heap in the first `len` cells of one fixed backing array. */
  class ExpDecaySampleHeap {
    const s: array<Sample>
    var len: nat

    ghost predicate Valid()
      reads this, s
    {
      len <= s.Length && Heaps.IsHeap(s[..len], KeyLess)
    }

    ghost function Values(): (r: seq<Sample>)
      requires len <= s.Length
      reads this, s
    {
      s[..len]
    }

    constructor (reservoirSize: nat)
      ensures Valid() && Values() == [] && s.Length == reservoirSize && fresh(s)
    {
      s := new Sample[reservoirSize](_ => Sample(0.0, 0));
      len := 0;
    }

    method Clear()
      requires Valid()
      modifies this
      ensures Valid() && Values() == []
    {
      len := 0;
    }

    method Push(x: Sample)
      requires Valid() && len < s.Length
      modifies this, s
      ensures Valid() && len == old(len) + 1
      ensures Values() == Heaps.SiftUp(old(Values()) + [x], old(len), KeyLess)
      ensures forall k :: len <= k < s.Length ==> s[k] == old(s[k])
    {
      var n := len;
      len := n + 1;
      s[n] := x;
      assert s[..len] == old(s[..len]) + [x];
      KeyLessIsOrder();
      Heaps.SiftUpMakesHeap(s[..len], n, KeyLess);
      Up(n);
    }

    method Pop() returns (x: Sample)
      requires Valid() && len > 0
      modifies this, s
      ensures Valid()
      ensures (x, Values()) == (KeyLessIsOrder(); Heaps.Pop(old(Values()), KeyLess))
    {
      KeyLessIsOrder();
      ghost var before := s[..len];
      ghost var popped := Heaps.Pop(before, KeyLess);
      var n := len - 1;
      s[0], s[n] := s[n], s[0];
      assert s[..len] == Heaps.Swap(before, 0, n);
      Down(0, n);
      assert s[..len][..n] == s[..n] && s[..len][n] == s[n];
      x := s[n];
      len := n;
    }

    method Up(j0: nat)
      requires j0 < len <= s.Length
      modifies s
      ensures s[..len] == Heaps.SiftUp(old(s[..len]), j0, KeyLess)
      ensures s[len..] == old(s[len..])
    {
      var j: nat := j0;
      while true
        invariant j < len && s[len..] == old(s[len..])
        invariant Heaps.SiftUp(s[..len], j, KeyLess) == Heaps.SiftUp(old(s[..len]), j0, KeyLess)
        decreases j
      {
        var i := if j == 0 then 0 else (j - 1) / 2;
        if i == j || !(s[j].k < s[i].k) {
          return;
        }
        ghost var t := s[..len];
        s[i], s[j] := s[j], s[i];
        assert s[..len] == Heaps.Swap(t, i, j);
        j := i;
      }
    }

    method Down(i0: nat, n: nat)
      requires n <= len <= s.Length
      modifies s
      ensures s[..len] == Heaps.SiftDown(old(s[..len]), i0, n, KeyLess)
      ensures s[len..] == old(s[len..])
    {
      var i: nat := i0;
      ghost var cur := s[..len];
      while true
        invariant s[len..] == old(s[len..]) && s[..len] == cur
        invariant Heaps.SiftDown(cur, i, n, KeyLess) == Heaps.SiftDown(old(s[..len]), i0, n, KeyLess)
        decreases n - i
      {
        var j1 := 2 * i + 1;
        if j1 >= n {
          return;
        }
        var j := j1;
        if j1 + 1 < n && !(s[j1].k < s[j1 + 1].k) {
          j := j1 + 1;
        }
        if !(s[j].k < s[i].k) {
          return;
        }
        assert j == Heaps.LesserChild(cur, i, n, KeyLess);
        cur := Heaps.Swap(cur, i, j);
        s[i], s[j] := s[j], s[i];
        i := j;
      }
    }
  }

  class ExpDecaySample {
    var count: nat
    const reservoirSize: nat
    var t0: int
    var t1: int
    const values: ExpDecaySampleHeap
    ghost var steps: seq<Step>  // the updates since the sample was created or cleared

    /** The values are what the run of updates leaves, so RunKeepsGreatest speaks of them. */
    ghost predicate Valid()
      reads this, values, values.s
    {
      && values.Valid() && values.s.Length == reservoirSize
      && values.len == (if count < reservoirSize then count else reservoirSize)
      && |steps| == count && Decaying(steps)
      && (1 <= reservoirSize ==> values.Values() == Run(steps, reservoirSize))
    }

    constructor (reservoirSize: nat, now: int)
      ensures Valid() && count == 0 && this.reservoirSize == reservoirSize && t0 == now && t1 == now + RESCALE_THRESHOLD
      ensures fresh(values) && fresh(values.s)
    {
      this.reservoirSize := reservoirSize;
      count, t0, t1 := 0, now, now + RESCALE_THRESHOLD;
      values := new ExpDecaySampleHeap(reservoirSize);
      steps := [];
    }

    method Clear(now: int)
      requires Valid()
      modifies this, values
      ensures Valid() && count == 0 && t0 == now && t1 == now + RESCALE_THRESHOLD
    {
      steps := [];
      count, t0, t1 := 0, now, now + RESCALE_THRESHOLD;
      values.Clear();
    }

    /** `key` is exp((t - t0) * alpha) / rand and `decay` is exp(-alpha * (t - t0)). */
    method Update(t: int, v: int, key: real, decay: real)
      requires Valid() && 1 <= reservoirSize && decay > 0.0
      modifies this, values, values.s
      ensures Valid() && count == old(count) + 1
      ensures values.Values() == Updated(old(values.Values()), reservoirSize, Sample(key, v), t > old(t1), decay)
      ensures steps == old(steps) + [Step(Sample(key, v), t > old(t1), decay)]
      ensures if t > old(t1) then t0 == t && t1 == t + RESCALE_THRESHOLD else t0 == old(t0) && t1 == old(t1)
    {
      hide Run, Updated, Scaled, Heaps.IsHeap;
      RunOneMore(steps, Step(Sample(key, v), t > t1, decay), reservoirSize);
      UpdatedElements(values.Values(), reservoirSize, Sample(key, v), decay);
      steps := steps + [Step(Sample(key, v), t > t1, decay)];
      count := count + 1;
      Insert(Sample(key, v), decay);
      if t > t1 {
        var n := values.len;
        values.Clear();
        t0 := t;
        t1 := t0 + RESCALE_THRESHOLD;
        Refill(n, decay);
      }
    }

    /** A full reservoir loses its least key first. */
    method Insert(x: Sample, ghost decay: real)
      requires values.Valid() && values.len <= values.s.Length == reservoirSize && 1 <= reservoirSize && decay > 0.0
      modifies values, values.s
      ensures values.Valid() && values.Values() == Updated(old(values.Values()), reservoirSize, x, false, decay)
      ensures values.len == if old(values.len) < reservoirSize then old(values.len) + 1 else reservoirSize
    {
      KeyLessIsOrder();
      if values.len == reservoirSize {
        var _ := values.Pop();
      }
      values.Push(x);
    }

    /** The rescale loop: it reads the old slice `values.s[..n]` while pushing into the
        very array that slice aliases. Every sample keeps its cell. */
    method Refill(n: nat, decay: real)
      requires values.len == 0 && n <= values.s.Length && decay > 0.0
      requires Heaps.IsHeap(values.s[..n], KeyLess)
      modifies values, values.s
      ensures values.Valid() && values.len == n
      ensures values.Values() == Scaled(old(values.s[..n]), decay)
    {
      ghost var before := values.s[..n];
      ghost var after := Scaled(before, decay);
      ScaledIsHeap(before, decay);
      for i := 0 to n
        invariant values.len == i && values.Valid()
        invariant values.s[..i] == after[..i]
        invariant forall k :: i <= k < n ==> values.s[k] == before[k]
      {
        var x := values.s[i];
        assert after[i] == Decayed(x, decay);
        ScaledPushStaysPut(values.s[..i], after[i]) by {
          assert i > 0 ==> !KeyLess(after[i], after[Heaps.Parent(i)]);
        }
        ghost var done := values.Values();
        assert done == values.s[..i] == after[..i];
        values.Push(Decayed(x, decay));
        assert values.Values() == done + [after[i]] == after[..i + 1];
      }
      assert after[..n] == after;
    }
  }
}
