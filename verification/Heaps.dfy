/** Binary heaps over sequences: the sift-up and sift-down walks that
    `metrics/sample.go` copies from Go's container/heap, and the heap operations
    built from them that the transaction pool and the dial history rely on. */
module Heaps {

  /** Asymmetric, transitive, and with a transitive complement. */
  ghost predicate StrictWeakOrder<T(!new)>(less: (T, T) -> bool) {
    && (forall x, y :: less(x, y) ==> !less(y, x))
    && (forall x, y, z :: less(x, y) && less(y, z) ==> less(x, z))
    && (forall x, y, z :: !less(x, y) && !less(y, z) ==> !less(x, z))
  }

  function Parent(i: nat): (p: nat)
    requires 0 < i
    ensures p < i
  {
    (i - 1) / 2
  }

  /** Within the first n elements, no child of a node at or after lo precedes that node. */
  ghost predicate HeapFrom<T>(s: seq<T>, lo: nat, n: nat, less: (T, T) -> bool)
    requires n <= |s|
  {
    forall i {:trigger s[i]} :: 0 < i < n && Parent(i) >= lo ==> !less(s[i], s[Parent(i)])
  }

  ghost predicate IsHeap<T>(s: seq<T>, less: (T, T) -> bool) {
    HeapFrom(s, 0, |s|, less)
  }

  /** A heap except that the element at j may precede its parent. */
  ghost predicate UpInvariant<T>(s: seq<T>, j: nat, less: (T, T) -> bool)
    requires j < |s|
  {
    && (forall i {:trigger s[i]} :: 0 < i < |s| && i != j ==> !less(s[i], s[Parent(i)]))
    && (j > 0 ==> forall c {:trigger s[c]} :: 0 < c < |s| && Parent(c) == j ==> !less(s[c], s[Parent(j)]))
  }

  /** As HeapFrom, except that the element at i may follow its children. */
  ghost predicate DownInvariant<T>(s: seq<T>, lo: nat, i: nat, n: nat, less: (T, T) -> bool)
    requires n <= |s|
  {
    && (forall k {:trigger s[k]} :: 0 < k < n && lo <= Parent(k) != i ==> !less(s[k], s[Parent(k)]))
    && (i > 0 && lo <= Parent(i) ==> forall c {:trigger s[c]} :: 0 < c < n && Parent(c) == i ==>
         !less(s[c], s[Parent(i)]))
  }

  function Swap<T>(s: seq<T>, i: nat, j: nat): (r: seq<T>)
    requires i < |s| && j < |s|
    ensures |r| == |s|
  {
    s[i := s[j]][j := s[i]]
  }

  lemma SwapKeepsElements<T>(s: seq<T>, i: nat, j: nat)
    requires i < |s| && j < |s|
    ensures multiset(Swap(s, i, j)) == multiset(s)
  {
  }

  function SiftUp<T>(s: seq<T>, j: nat, less: (T, T) -> bool): (r: seq<T>)
    requires j < |s|
    ensures |r| == |s|
    decreases j
  {
    if j == 0 || !less(s[j], s[Parent(j)]) then s
    else SiftUp(Swap(s, Parent(j), j), Parent(j), less)
  }

  lemma {:induction false} SiftUpKeepsElements<T>(s: seq<T>, j: nat, less: (T, T) -> bool)
    requires j < |s|
    ensures multiset(SiftUp(s, j, less)) == multiset(s)
    decreases j
  {
    if j != 0 && less(s[j], s[Parent(j)]) {
      SwapKeepsElements(s, Parent(j), j);
      SiftUpKeepsElements(Swap(s, Parent(j), j), Parent(j), less);
    }
  }

  /** The child of i that sift-down descends to. */
  function LesserChild<T>(s: seq<T>, i: nat, n: nat, less: (T, T) -> bool): (j: nat)
    requires n <= |s| && 2 * i + 1 < n
    ensures i < j < n && Parent(j) == i
  {
    var j1 := 2 * i + 1;
    if j1 + 1 < n && !less(s[j1], s[j1 + 1]) then j1 + 1 else j1
  }

  function SiftDown<T>(s: seq<T>, i: nat, n: nat, less: (T, T) -> bool): (r: seq<T>)
    requires n <= |s|
    ensures |r| == |s|
    decreases n - i
  {
    if 2 * i + 1 >= n then s
    else
      var j := LesserChild(s, i, n, less);
      if !less(s[j], s[i]) then s else SiftDown(Swap(s, i, j), j, n, less)
  }

  lemma {:induction false} SiftDownKeepsElements<T>(s: seq<T>, i: nat, n: nat, less: (T, T) -> bool)
    requires n <= |s|
    ensures multiset(SiftDown(s, i, n, less)) == multiset(s)
    decreases n - i
  {
    if 2 * i + 1 < n {
      var j := LesserChild(s, i, n, less);
      if less(s[j], s[i]) {
        SwapKeepsElements(s, i, j);
        SiftDownKeepsElements(Swap(s, i, j), j, n, less);
      }
    }
  }

  lemma UpStep<T(!new)>(s: seq<T>, j: nat, less: (T, T) -> bool)
    requires StrictWeakOrder(less) && 0 < j < |s| && UpInvariant(s, j, less) && less(s[j], s[Parent(j)])
    ensures UpInvariant(Swap(s, Parent(j), j), Parent(j), less)
  {
  }

  lemma {:induction false} SiftUpMakesHeap<T(!new)>(s: seq<T>, j: nat, less: (T, T) -> bool)
    requires StrictWeakOrder(less) && j < |s| && UpInvariant(s, j, less)
    ensures IsHeap(SiftUp(s, j, less), less)
    ensures forall k :: j < k < |s| ==> SiftUp(s, j, less)[k] == s[k]
    decreases j
  {
    if j != 0 && less(s[j], s[Parent(j)]) {
      UpStep(s, j, less);
      SiftUpMakesHeap(Swap(s, Parent(j), j), Parent(j), less);
    }
  }

  lemma LesserChildIsLeast<T(!new)>(s: seq<T>, i: nat, n: nat, less: (T, T) -> bool)
    requires StrictWeakOrder(less) && n <= |s| && 2 * i + 1 < n
    ensures forall k {:trigger s[k]} :: 0 < k < n && Parent(k) == i ==> !less(s[k], s[LesserChild(s, i, n, less)])
  {
    forall k | 0 < k < n && Parent(k) == i
      ensures !less(s[k], s[LesserChild(s, i, n, less)])
    {
      assert k == 2 * i + 1 || k == 2 * i + 2;
    }
  }

  lemma DownStep<T(!new)>(s: seq<T>, lo: nat, i: nat, n: nat, less: (T, T) -> bool)
    requires StrictWeakOrder(less) && n <= |s| && lo <= i && 2 * i + 1 < n && DownInvariant(s, lo, i, n, less)
    requires less(s[LesserChild(s, i, n, less)], s[i])
    ensures DownInvariant(Swap(s, i, LesserChild(s, i, n, less)), lo, LesserChild(s, i, n, less), n, less)
  {
    LesserChildIsLeast(s, i, n, less);
  }

  lemma {:induction false} SiftDownMakesHeap<T(!new)>(s: seq<T>, lo: nat, i: nat, n: nat, less: (T, T) -> bool)
    requires StrictWeakOrder(less) && n <= |s| && lo <= i && DownInvariant(s, lo, i, n, less)
    ensures HeapFrom(SiftDown(s, i, n, less), lo, n, less)
    ensures forall k :: n <= k < |s| ==> SiftDown(s, i, n, less)[k] == s[k]
    decreases n - i
  {
    if 2 * i + 1 < n {
      var j := LesserChild(s, i, n, less);
      if less(s[j], s[i]) {
        DownStep(s, lo, i, n, less);
        SiftDownMakesHeap(Swap(s, i, j), lo, j, n, less);
      } else {
        LesserChildIsLeast(s, i, n, less);
      }
    }
  }

  /** heap[0] is a least element. */
  lemma {:induction false} RootIsLeast<T(!new)>(s: seq<T>, i: nat, less: (T, T) -> bool)
    requires StrictWeakOrder(less) && IsHeap(s, less) && i < |s|
    ensures !less(s[i], s[0])
  {
    if i > 0 {
      RootIsLeast(s, Parent(i), less);
    } else {
      assert !less(s[0], s[0]);
    }
  }

  // ---- container/heap operations ----

  function Push<T(!new)>(s: seq<T>, x: T, less: (T, T) -> bool): (r: seq<T>)
    requires StrictWeakOrder(less) && IsHeap(s, less)
    ensures IsHeap(r, less) && multiset(r) == multiset(s) + multiset{x}
  {
    var t := s + [x];
    SiftUpMakesHeap(t, |s|, less);
    SiftUpKeepsElements(t, |s|, less);
    SiftUp(t, |s|, less)
  }

  lemma PoppedIsHeap<T(!new)>(s: seq<T>, less: (T, T) -> bool)
    requires StrictWeakOrder(less) && IsHeap(s, less) && s != []
    ensures var n := |s| - 1;
            var u := SiftDown(Swap(s, 0, n), 0, n, less);
            u[n] == s[0] && IsHeap(u[..n], less)
  {
    hide SiftDown;
    var n := |s| - 1;
    var t := Swap(s, 0, n);
    assert DownInvariant(t, 0, 0, n, less);
    SiftDownMakesHeap(t, 0, 0, n, less);
  }

  lemma PoppedElements<T(!new)>(s: seq<T>, less: (T, T) -> bool)
    requires s != []
    ensures var n := |s| - 1;
            var u := SiftDown(Swap(s, 0, n), 0, n, less);
            multiset(s) == multiset(u[..n]) + multiset{u[n]}
  {
    hide SiftDown;
    var n := |s| - 1;
    var u := SiftDown(Swap(s, 0, n), 0, n, less);
    SwapKeepsElements(s, 0, n);
    SiftDownKeepsElements(Swap(s, 0, n), 0, n, less);
    assert u == u[..n] + [u[n]];
  }

  lemma NoneIsLess<T(!new)>(s: seq<T>, less: (T, T) -> bool)
    requires StrictWeakOrder(less) && IsHeap(s, less) && s != []
    ensures forall x :: x in s ==> !less(x, s[0])
  {
    forall i | 0 <= i < |s| ensures !less(s[i], s[0]) { RootIsLeast(s, i, less); }
  }

  /** heap.Pop: the least element, and the heap without it. */
  function Pop<T(!new)>(s: seq<T>, less: (T, T) -> bool): (r: (T, seq<T>))
    requires StrictWeakOrder(less) && IsHeap(s, less) && s != []
    ensures r.0 == s[0] && IsHeap(r.1, less) && |r.1| == |s| - 1
    ensures multiset(s) == multiset(r.1) + multiset{r.0}
    ensures forall x :: x in s ==> !less(x, r.0)
  {
    PoppedIsHeap(s, less);
    PoppedElements(s, less);
    NoneIsLess(s, less);
    var n := |s| - 1;
    var u := SiftDown(Swap(s, 0, n), 0, n, less);
    (u[n], u[..n])
  }

  function InitFrom<T(!new)>(s: seq<T>, i: nat, less: (T, T) -> bool): (r: seq<T>)
    requires StrictWeakOrder(less) && i <= |s| && HeapFrom(s, i, |s|, less)
    ensures IsHeap(r, less) && |r| == |s| && multiset(r) == multiset(s)
    decreases i
  {
    if i == 0 then s
    else
      SiftDownMakesHeap(s, i - 1, i - 1, |s|, less);
      SiftDownKeepsElements(s, i - 1, |s|, less);
      InitFrom(SiftDown(s, i - 1, |s|, less), i - 1, less)
  }

  /** heap.Init: any sequence rearranged into a heap. */
  function Init<T(!new)>(s: seq<T>, less: (T, T) -> bool): (r: seq<T>)
    requires StrictWeakOrder(less)
    ensures IsHeap(r, less) && |r| == |s| && multiset(r) == multiset(s)
  {
    assert HeapFrom(s, |s| / 2, |s|, less);
    InitFrom(s, |s| / 2, less)
  }

  function RepairAt<T>(t: seq<T>, i: nat, less: (T, T) -> bool): (r: seq<T>)
    requires i < |t|
    ensures |r| == |t| && multiset(r) == multiset(t)
  {
    SiftUpKeepsElements(t, i, less);
    SiftDownKeepsElements(t, i, |t|, less);
    if i > 0 && less(t[i], t[Parent(i)]) then SiftUp(t, i, less) else SiftDown(t, i, |t|, less)
  }

  /** heap.Remove: the element at i swapped to the end, cut off, and the heap repaired. */
  function Remove<T(!new)>(s: seq<T>, i: nat, less: (T, T) -> bool): (r: seq<T>)
    requires StrictWeakOrder(less) && IsHeap(s, less) && i < |s|
    ensures IsHeap(r, less) && multiset(s) == multiset(r) + multiset{s[i]}
  {
    var n := |s| - 1;
    var t := Swap(s, i, n)[..n];
    assert multiset(s) == multiset(t) + multiset{s[i]} by {
      SwapKeepsElements(s, i, n);
      assert Swap(s, i, n) == t + [s[i]];
    }
    if i == n then t else RepairMakesHeap(s, t, i, less); RepairAt(t, i, less)
  }

  /** Whatever value lands at i, its children are in order with i's parent. */
  lemma RepairMakesHeap<T(!new)>(s: seq<T>, t: seq<T>, i: nat, less: (T, T) -> bool)
    requires StrictWeakOrder(less) && IsHeap(s, less) && i < |t| <= |s|
    requires forall k :: 0 <= k < |t| && k != i ==> t[k] == s[k]
    ensures IsHeap(RepairAt(t, i, less), less)
  {
    if i > 0 && less(t[i], t[Parent(i)]) {
      ReplacedSmaller(s, t, i, less);
      SiftUpMakesHeap(t, i, less);
    } else {
      ReplacedLarger(s, t, i, less);
      SiftDownMakesHeap(t, 0, i, |t|, less);
    }
  }

  lemma ReplacedSmaller<T(!new)>(s: seq<T>, t: seq<T>, i: nat, less: (T, T) -> bool)
    requires StrictWeakOrder(less) && IsHeap(s, less) && 0 < i < |t| <= |s|
    requires forall k :: 0 <= k < |t| && k != i ==> t[k] == s[k]
    requires less(t[i], t[Parent(i)])
    ensures UpInvariant(t, i, less)
  {
    forall c | 0 < c < |t| && Parent(c) == i
      ensures !less(t[c], t[Parent(i)]) && !less(t[c], t[i])
    {
      assert !less(s[c], s[i]) && !less(s[i], s[Parent(i)]);
    }
  }

  lemma ReplacedLarger<T(!new)>(s: seq<T>, t: seq<T>, i: nat, less: (T, T) -> bool)
    requires StrictWeakOrder(less) && IsHeap(s, less) && i < |t| <= |s|
    requires forall k :: 0 <= k < |t| && k != i ==> t[k] == s[k]
    requires i > 0 ==> !less(t[i], t[Parent(i)])
    ensures DownInvariant(t, 0, i, |t|, less)
  {
    forall c | 0 < c < |t| && Parent(c) == i && i > 0
      ensures !less(t[c], t[Parent(i)])
    {
      assert !less(s[c], s[i]) && !less(s[i], s[Parent(i)]);
    }
  }
}
