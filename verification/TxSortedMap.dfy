// A nonce-to-transaction map with a heap of its nonces and a cache of its sorted form.
module TxSortedMaps {
  import opened Basics
  import opened NonceIndex
  import opened NonceMaps
  import opened Transactions

  const NONCES := MAX_NONCE + 1

  method Find(s: seq<int>, n: int) returns (i: int)
    requires n in s
    ensures 0 <= i < |s| && s[i] == n
  {
    i := 0;
    while s[i] != n
      invariant 0 <= i < |s| && n in s[i..]
      decreases |s| - i
    {
      i := i + 1;
    }
  }

  function NonceOf(tx: Tx): int { tx.nonce }

  /** Sorting any listing by nonce flattens the map. */
  lemma SortedListing(m: Txs, s: seq<Tx>)
    requires Keyed(m) && Lists(m, s)
    ensures Sorted(s, NonceOf) == Flat(m)
  {
    var r := Sorted(s, NonceOf);
    SortedHolds(s, NonceOf);
    SortedAscends(s, NonceOf);
    SameElements(s, r);
    OnceEach(m, s, r);
    FlatUnique(m, r);
  }

  lemma SameElements<T>(s: seq<T>, r: seq<T>)
    requires multiset(s) == multiset(r)
    ensures |s| == |r| && forall x :: x in s <==> x in r
  {
    assert |multiset(s)| == |multiset(r)|;
    forall x ensures x in s <==> x in r { assert x in s <==> x in multiset(s); assert x in r <==> x in multiset(r); }
  }

  lemma OnceEach(m: Txs, s: seq<Tx>, r: seq<Tx>)
    requires Lists(m, s) && multiset(s) == multiset(r) && Ascending(r, NonceOf)
    requires forall x :: x in s <==> x in r
    ensures Ascends(r)
  {
    forall i, j | 0 <= i < j < |r| ensures r[i].nonce < r[j].nonce {
      assert NonceOf(r[i]) <= NonceOf(r[j]);
      if r[i].nonce == r[j].nonce {
        assert r[i] in s && r[j] in s;
        assert r[i] == r[j];
        TwiceCounts(r, i, j);
        OnceCounts(s, r[i]);
        assert false;
      }
    }
  }

  lemma TwiceCounts<T>(s: seq<T>, i: int, j: int)
    requires 0 <= i < j < |s| && s[i] == s[j]
    ensures multiset(s)[s[i]] >= 2
  {
    var a, b := s[..j], s[j..];
    assert s == a + b;
    assert a[i] in multiset(a) && b[0] in multiset(b);
  }

  lemma {:induction false} OnceCounts(s: seq<Tx>, x: Tx)
    requires forall i, j :: 0 <= i < j < |s| ==> s[i].nonce != s[j].nonce
    ensures multiset(s)[x] <= 1
  {
    if s != [] {
      var t := s[..|s| - 1];
      assert s == t + [s[|s| - 1]];
      OnceCounts(t, x);
      if x == s[|s| - 1] {
        assert x !in t;
        assert x !in multiset(t);
      }
    }
  }

  predicate Holds(f: Tx -> bool, tx: Tx) { f(tx) }

  function When(m: Txs, f: Tx -> bool): Txs {
    map n | n in m && Holds(f, m[n]) :: m[n]
  }

  function Unless(m: Txs, f: Tx -> bool): Txs {
    map n | n in m && !Holds(f, m[n]) :: m[n]
  }

  lemma FilterEnds(m: Txs, left: Txs, removed: seq<Tx>, f: Tx -> bool)
    requires left.Keys <= m.Keys && forall n :: n in left ==> left[n] == m[n]
    requires forall n :: n in m && n !in left ==> Holds(f, m[n])
    requires forall n :: n in left ==> !Holds(f, left[n])
    requires forall x :: x in removed <==> x.nonce in m && m[x.nonce] == x && x.nonce !in left
    requires forall i, j :: 0 <= i < j < |removed| ==> removed[i].nonce != removed[j].nonce
    ensures left == Unless(m, f) && Lists(When(m, f), removed)
  {
    var rest := Unless(m, f);
    forall n ensures n in left <==> n in rest {
      if n in left { assert !Holds(f, left[n]) && left[n] == m[n]; }
      if n in rest { assert n in m && !Holds(f, m[n]); }
    }
    assert left.Keys == rest.Keys;
    forall n | n in left ensures left[n] == rest[n] { assert left[n] == m[n]; }
    var gone := When(m, f);
    forall x ensures x in removed <==> x.nonce in gone && gone[x.nonce] == x {
      assert x.nonce in m ==> (x.nonce in left <==> !Holds(f, m[x.nonce]));
    }
  }

  function Itself(n: int): int { n }

  /** The sorted index lists the keys, each once and in ascending order. */
  lemma SortedOnce(keys: set<Nonce>, index: seq<Nonce>)
    requires Indexes(index, keys)
    ensures var r := Sorted(index, Itself);
            && |r| == |keys| && multiset(r) == multiset(index) && (forall k :: k in r <==> k in keys)
            && forall i, j :: 0 <= i < j < |r| ==> r[i] < r[j]
  {
    hide Sorted, Indexes;
    var r := Sorted(index, Itself);
    SortedHolds(index, Itself);
    SortedAscends(index, Itself);
    SameElements(index, r);
    IndexMembers(index, keys);
    forall i, j | 0 <= i < j < |r| ensures r[i] < r[j] {
      assert Itself(r[i]) <= Itself(r[j]);
      if r[i] == r[j] {
        TwiceCounts(r, i, j);
        assert r[i] in r;
        IndexOnce(index, keys, r[i]);
        assert false;
      }
    }
  }

  /** Sorting the index gives the nonces of the flattened map. */
  lemma SortedIndex(m: Txs, index: seq<Nonce>)
    requires Keyed(m) && Indexes(index, m.Keys)
    ensures var r := Sorted(index, Itself);
            |r| == |m| && multiset(r) == multiset(index) && forall i :: 0 <= i < |r| ==> r[i] == Flat(m)[i].nonce
  {
    hide Sorted, Flat, Indexes;
    var r := Sorted(index, Itself);
    SortedOnce(m.Keys, index);
    var s := seq(|r|, i requires 0 <= i < |r| => assert r[i] in r; m[r[i]]);
    forall i, j | 0 <= i < j < |s| ensures s[i].nonce < s[j].nonce { assert r[i] in r && r[j] in r; }
    forall x: Tx | x.nonce in m && m[x.nonce] == x ensures x in s {
      assert x.nonce in r;
      var i :| 0 <= i < |r| && r[i] == x.nonce;
      assert s[i] == x;
    }
    forall x | x in s ensures x.nonce in m && m[x.nonce] == x {
      var i :| 0 <= i < |s| && s[i] == x;
      assert r[i] in r;
    }
    FlatUnique(m, s);
    assert forall i :: 0 <= i < |r| ==> r[i] in r && s[i].nonce == r[i];
  }

  lemma CapStep(m: Txs, n: Nonce, k: int)
    requires IsHighest(m.Keys, n) && 0 <= k < |m|
    ensures Capped(m, k) == Capped(m - {n}, k) && |m - {n}| == |m| - 1
  {
    assert (m - {n}).Keys == m.Keys - {n};
  }

  lemma ForwardEnds(m: Txs, rest: Txs, h: seq<Nonce>, removed: seq<Tx>, t: Nonce)
    requires Keyed(m) && rest.Keys <= m.Keys && (forall n :: n in rest ==> rest[n] == m[n])
             && (forall n :: n in m && n !in rest ==> n < t)
    requires Indexes(h, rest.Keys) && !(h != [] && h[0] < t) && removed + Flat(rest) == Flat(m)
    ensures rest == AtLeast(m, t) && removed == Flat(Below(m, t)) && |removed| <= |Flat(m)|
            && Flat(m)[|removed|..] == Flat(rest)
  {
    hide Indexes, Flat;
    forall n | n in rest ensures n >= t { RootIsLowest(h, rest.Keys, n); }
    assert rest == AtLeast(m, t);
    FlatSplit(m, t);
    assert Flat(m)[|removed|..] == Flat(rest) && Flat(m)[..|removed|] == removed;
    assert Flat(m)[..|Flat(Below(m, t))|] == Flat(Below(m, t));
  }

  lemma CapEnds(m: Txs, k: int)
    requires |m| == k
    ensures Capped(m, k) == m
  {
  }

  lemma MinusOne(m: Txs, n: Nonce)
    requires Keyed(m)
    ensures Keyed(m - {n}) && (m - {n}).Keys == m.Keys - {n}
  {
  }

  /** The nonces of the flattened map, as a heap in the making. */
  lemma {:induction false} FlatIndex(m: Txs, h: seq<Nonce>)
    requires Keyed(m) && |h| == |m| && forall i :: 0 <= i < |h| ==> h[i] == Flat(m)[i].nonce
    ensures multiset(h) == multiset(m.Keys)
    decreases |m|
  {
    hide Flat, Keyed;
    if m != map[] {
      var n := h[|h| - 1];
      MinusOne(m, n);
      LastIsHighest(m);
      FlatLast(m, n);
      assert (m - {n}).Keys == m.Keys - {n};
      FlatIndex(m - {n}, h[..|h| - 1]);
      assert h == h[..|h| - 1] + [n];
    }
  }

  /** A nonce as a 64-bit counter holds it. */
  function Wrapped(n: int): Nonce {
    n % NONCES
  }

  /** No nonce of [lo, hi) is missing. */
  ghost predicate Filled(m: Txs, lo: int, hi: int) {
    forall k :: lo <= k < hi ==> k in m
  }

  /** The run from lo on has been taken up to p. */
  ghost predicate Taken(m: Txs, rest: Txs, ready: seq<Tx>, lo: int, p: int) {
    0 <= lo <= p <= NONCES && rest == AtLeast(m, p) && ready == Flat(Between(m, lo, p)) && Filled(m, lo, p)
  }

  lemma RunStarts(m: Txs, lo: int)
    requires Keyed(m) && m != map[] && lo == Lowest(m.Keys)
    ensures Taken(m, m, [], lo, lo) && Wrapped(lo) == lo
  {
    assert AtLeast(m, lo) == m && Between(m, lo, lo) == map[];
  }

  lemma RunNext(m: Txs, p: int, n: int)
    requires Keyed(m) && 0 <= p <= NONCES && IsLowest(AtLeast(m, p).Keys, n) && n == Wrapped(p)
    ensures n == p < NONCES && p in m
  {
    assert n in m && n >= p;
  }

  /** Taking the next nonce of the run, which is the lowest of what is left. */
  lemma RunGrows(m: Txs, rest: Txs, ready: seq<Tx>, lo: int, p: int, n: int)
    requires Keyed(m) && Taken(m, rest, ready, lo, p) && IsLowest(rest.Keys, n) && n == Wrapped(p)
    ensures n == p && Taken(m, rest - {n}, ready + [rest[n]], lo, p + 1)
  {
    hide Flat;
    RunNext(m, p, n);
    assert rest - {n} == AtLeast(m, p + 1) && rest[n] == m[p];
    var before, after := Between(m, lo, p), Between(m, lo, p + 1);
    assert after - {p} == before && IsHighest(after.Keys, p);
    FlatLast(after, p);
  }

  lemma FirstMissing(m: Txs, lo: int, p: int)
    requires lo <= p && Filled(m, lo, p) && p !in m
    ensures RunEnd(m.Keys, lo) == p
  {
    hide RunEnd;
    var r := RunEnd(m.Keys, lo);
    assert lo <= r && r !in m && forall k :: lo <= k < r ==> k in m;
    assert !(p < r) && !(r < p);
  }

  lemma RunEndsHere(m: Txs, rest: Txs, ready: seq<Tx>, h: seq<Nonce>, lo: int, p: int)
    requires Keyed(m) && m != map[] && lo == Lowest(m.Keys) && Taken(m, rest, ready, lo, p)
    requires Indexes(h, rest.Keys) && !(h != [] && h[0] == Wrapped(p))
    ensures var run := Between(m, lo, RunEnd(m.Keys, lo)); rest == m - run.Keys && ready == Flat(run)
  {
    hide Indexes, RunEnd, Flat, Filled, Lowest, Keyed, Wrapped;
    NotNext(m, h, p);
    FirstMissing(m, lo, p);
    assert rest == m - Between(m, lo, p).Keys by {
      forall n | n in m ensures lo <= n { assert IsLowest(m.Keys, lo); }
    }
  }

  lemma NotNext(m: Txs, h: seq<Nonce>, p: int)
    requires Keyed(m) && Indexes(h, AtLeast(m, p).Keys) && !(h != [] && h[0] == Wrapped(p))
    ensures p !in m
  {
    hide Indexes;
    if p in m {
      RootIsLowest(h, AtLeast(m, p).Keys, p);
    }
  }

  class TxSortedMap {
    var items: Txs
    var index: seq<Nonce>
    var cache: Option<seq<Tx>>

    ghost predicate Valid()
      reads this
    {
      Keyed(items) && Indexes(index, items.Keys) && CacheOk()
    }

    ghost predicate CacheOk()
      reads this
    {
      cache.Some? ==> cache.value == Flat(items)
    }

    constructor ()
      ensures Valid() && items == map[]
    {
      items, index, cache := map[], [], None;
    }

    method Put(tx: Tx)
      requires Valid() && 0 <= tx.nonce <= MAX_NONCE
      modifies this
      ensures Valid() && items == old(items)[tx.nonce := tx]
    {
      if tx.nonce !in items {
        index := Pushed(index, tx.nonce, items.Keys);
      }
      items, cache := items[tx.nonce := tx], None;
      assert items.Keys == old(items).Keys + {tx.nonce};
      assert tx.nonce in old(items) ==> items.Keys == old(items).Keys;
    }

    method Sort()
      requires Valid()
      modifies `cache
      ensures Valid() && cache == Some(Flat(items))
    {
      if cache.None? {
        var txs := Listing();
        SortedListing(items, txs);
        cache := Some(Sorted(txs, NonceOf));
      }
    }

    /** The transactions in the order in which the map is walked. */
    method Listing() returns (txs: seq<Tx>)
      requires Keyed(items)
      ensures Lists(items, txs)
    {
      txs := [];
      var rest := items.Keys;
      while rest != {}
        invariant rest <= items.Keys
        invariant forall x :: x in txs <==> x.nonce in items && items[x.nonce] == x && x.nonce !in rest
        invariant forall i, j :: 0 <= i < j < |txs| ==> txs[i].nonce != txs[j].nonce
        decreases |rest|
      {
        var n := Pick(rest);
        assert forall i :: 0 <= i < |txs| ==> txs[i] in txs;
        txs := txs + [items[n]];
        rest := rest - {n};
      }
    }

    method Flatten() returns (txs: seq<Tx>)
      requires Valid()
      modifies `cache
      ensures Valid() && txs == Flat(items)
    {
      Sort();
      txs := cache.value;
    }

    method LastElement() returns (tx: Tx)
      requires Valid() && items != map[]
      modifies `cache
      ensures Valid() && IsHighest(items.Keys, tx.nonce) && items[tx.nonce] == tx
    {
      Sort();
      LastIsHighest(items);
      tx := cache.value[|cache.value| - 1];
    }

    /** Everything below threshold goes, lowest first. */
    method Forward(threshold: Nonce) returns (removed: seq<Tx>)
      requires Valid()
      modifies this
      ensures Valid() && items == AtLeast(old(items), threshold) && removed == Flat(Below(old(items), threshold))
    {
      hide Indexes, Flat, AtLeast, Below;
      removed := [];
      while index != [] && index[0] < threshold
        invariant Keyed(items) && Indexes(index, items.Keys) && unchanged(`cache)
        invariant items.Keys <= old(items).Keys && forall n :: n in items ==> items[n] == old(items)[n]
        invariant forall n :: n in old(items) && n !in items ==> n < threshold
        invariant removed + Flat(items) == Flat(old(items))
        decreases |items|
      {
        var tx := TakeLowest();
        removed := removed + [tx];
      }
      ForwardEnds(old(items), items, index, removed, threshold);
      if cache.Some? {
        cache := Some(cache.value[|removed|..]);
      }
    }

    /** The root of the index and its transaction go. */
    method TakeLowest() returns (tx: Tx)
      requires Keyed(items) && Indexes(index, items.Keys) && index != []
      modifies `items, `index
      ensures Keyed(items) && Indexes(index, items.Keys)
      ensures old(IsLowest(items.Keys, index[0])) && items == old(items) - {old(index[0])} && tx == old(items[index[0]])
      ensures [tx] + Flat(items) == Flat(old(items)) && |items| < |old(items)|
    {
      var n := index[0];
      forall k | k in items ensures n in items && n <= k { RootIsLowest(index, items.Keys, k); }
      IndexMembers(index, items.Keys);
      assert IsLowest(items.Keys, n) && n == Lowest(items.Keys);
      tx := items[n];
      index := Popped(index, items.Keys);
      items := items - {n};
      assert items.Keys == old(items).Keys - {n};
    }

    /** filter: takes out what f holds of, leaving the index as it was. */
    method FilterItems(f: Tx -> bool) returns (removed: seq<Tx>)
      requires Keyed(items)
      modifies `items, `cache
      ensures Keyed(items) && items == Unless(old(items), f) && Lists(When(old(items), f), removed)
      ensures removed == [] ==> items == old(items) && cache == old(cache)
      ensures removed != [] ==> cache == None
    {
      removed := [];
      var rest := items.Keys;
      while rest != {}
        invariant rest <= items.Keys <= old(items).Keys && unchanged(`cache)
        invariant forall n :: n in items ==> items[n] == old(items)[n]
        invariant forall n :: n in old(items) && n !in items ==> Holds(f, old(items)[n])
        invariant forall n :: n in items && n !in rest ==> !Holds(f, items[n])
        invariant forall x :: x in removed <==> x.nonce in old(items) && old(items)[x.nonce] == x && x.nonce !in items
        invariant forall i, j :: 0 <= i < j < |removed| ==> removed[i].nonce != removed[j].nonce
        invariant removed == [] ==> items == old(items)
        decreases |rest|
      {
        var n := Pick(rest);
        var tx := items[n];
        rest := rest - {n};
        if Holds(f, tx) {
          assert forall i :: 0 <= i < |removed| ==> removed[i] in removed;
          removed := removed + [tx];
          items := items - {n};
        }
      }
      FilterEnds(old(items), items, removed, f);
      if |removed| > 0 {
        cache := None;
      }
    }

    method Reheap()
      requires Keyed(items)
      modifies `index, `cache
      ensures Valid()
    {
      index := [];
      var rest := items.Keys;
      while rest != {}
        invariant rest <= items.Keys && multiset(index) == multiset(items.Keys - rest)
        decreases |rest|
      {
        var n := Pick(rest);
        assert items.Keys - (rest - {n}) == (items.Keys - rest) + {n};
        index := index + [n];
        rest := rest - {n};
      }
      assert items.Keys - rest == items.Keys;
      index := Rebuilt(index, items.Keys);
      cache := None;
    }

    method Filter(f: Tx -> bool) returns (removed: seq<Tx>)
      requires Valid()
      modifies this
      ensures Valid() && items == Unless(old(items), f) && Lists(When(old(items), f), removed)
    {
      removed := FilterItems(f);
      if |removed| > 0 {
        Reheap();
      }
    }

    /** The gap-free run from the lowest nonce on goes, unless that nonce is above start. The counter wraps at 2^64. */
    method Ready(start: Nonce) returns (ready: seq<Tx>)
      requires Valid()
      modifies this
      ensures Valid() && items == old(items) - Readied(old(items), start).Keys
              && ready == Flat(Readied(old(items), start))
    {
      hide Indexes, Flat, RunEnd;
      IndexMembers(index, items.Keys);
      if index != [] {
        RootIsLowest(index, items.Keys, Lowest(items.Keys));
      }
      if index == [] || index[0] > start {
        return [];
      }
      ready := TakeRun();
      cache := None;
    }

    method TakeRun() returns (ready: seq<Tx>)
      requires Keyed(items) && Indexes(index, items.Keys) && index != [] && items != map[]
               && index[0] == Lowest(items.Keys)
      modifies `items, `index
      ensures Keyed(items) && Indexes(index, items.Keys)
      ensures var lo := Lowest(old(items).Keys);
              var run := Between(old(items), lo, RunEnd(old(items).Keys, lo));
              items == old(items) - run.Keys && ready == Flat(run)
    {
      hide Indexes, Flat, RunEnd, Between, Taken, Lowest, Keyed, Wrapped;
      ready := [];
      var next := index[0];
      ghost var lo, p, m := next, next, items;
      RunStarts(m, lo);
      while index != [] && index[0] == next
        invariant Keyed(items) && Indexes(index, items.Keys)
        invariant Taken(m, items, ready, lo, p) && next == Wrapped(p)
        decreases |items|
      {
        ghost var rest := items;
        var tx := TakeLowest();
        RunGrows(m, rest, ready, lo, p, next);
        ready := ready + [tx];
        next := Wrapped(next + 1);
        p := p + 1;
      }
      RunEndsHere(m, items, ready, index, lo, p);
    }

    lemma CappedAll(m: Txs, k: int)
      requires 0 <= k
      ensures |m| <= k ==> Capped(m, k) == m
    {
    }

    /** At most threshold transactions stay, those of the lowest nonces; the others go, highest first. */
    method Cap(threshold: int) returns (drops: seq<Tx>)
      requires Valid() && 0 <= threshold
      modifies this
      ensures Valid() && items == Capped(old(items), threshold)
      ensures |drops| == |old(items)| - |items|
      ensures forall i :: 0 <= i < |drops| ==> drops[i] == Flat(old(items))[|old(items)| - 1 - i]
    {
      hide Indexes, Flat, Sorted, Capped, Keyed;
      CappedAll(items, threshold);
      if |items| <= threshold {
        return [];
      }
      SortedIndex(items, index);
      index := Sorted(index, Itself);
      drops := DropTop(threshold);
      index := index[..threshold];
      FlatIndex(items, index);
      index := Rebuilt(index, items.Keys);
      if cache.Some? {
        cache := Some(cache.value[..|cache.value| - |drops|]);
      }
    }

    method DropTop(threshold: int) returns (drops: seq<Tx>)
      requires Keyed(items) && 0 <= threshold <= |items| == |index|
               && forall i :: 0 <= i < |index| ==> index[i] == Flat(items)[i].nonce
      modifies `items
      ensures Keyed(items) && |items| == threshold && items == Capped(old(items), threshold)
              && Flat(items) == Flat(old(items))[..threshold]
      ensures |drops| == |old(items)| - threshold
      ensures forall i :: 0 <= i < |drops| ==> drops[i] == Flat(old(items))[|old(items)| - 1 - i]
    {
      hide Flat, Capped;
      drops := [];
      ghost var flat, goal := Flat(items), Capped(items, threshold);
      assert flat[..|flat|] == flat;
      var size := |items|;
      while size > threshold
        invariant threshold <= size == |items| <= |old(items)| == |index| == |flat|
        invariant Keyed(items) && Flat(items) == flat[..size] && Capped(items, threshold) == goal
        invariant |drops| == |old(items)| - size
                  && forall i :: 0 <= i < |drops| ==> drops[i] == flat[|old(items)| - 1 - i]
      {
        var n := index[size - 1];
        LastIsHighest(items);
        FlatLast(items, n);
        CapStep(items, n, threshold);
        assert flat[..size][..size - 1] == flat[..size - 1];
        drops := drops + [items[n]];
        items := items - {n};
        size := size - 1;
      }
      CapEnds(items, threshold);
    }

    method Remove(nonce: Nonce) returns (ok: bool)
      requires Valid()
      modifies this
      ensures Valid() && ok == (nonce in old(items)) && items == old(items) - {nonce}
    {
      hide Indexes, Flat, Keyed;
      MinusOne(items, nonce);
      if nonce !in items {
        assert items == items - {nonce};
        return false;
      }
      IndexMembers(index, items.Keys);
      var i := Find(index, nonce);
      index := Without(index, i, items.Keys);
      items := items - {nonce};
      cache := None;
      return true;
    }
  }
}
