// The heap of nonces that indexes a list of transactions, and sequences sorted by a key.
module NonceIndex {
  import opened Heaps

  predicate Before(a: int, b: int) { a < b }

  lemma BeforeIsOrder()
    ensures StrictWeakOrder(Before)
  {
  }

  /** The heap holds every key once and nothing else. */
  ghost predicate Indexes(h: seq<int>, keys: set<int>) {
    IsHeap(h, Before) && multiset(h) == multiset(keys)
  }

  lemma IndexMembers(h: seq<int>, keys: set<int>)
    requires Indexes(h, keys)
    ensures |h| == |keys| && (forall n :: n in h <==> n in keys) && (h == [] <==> keys == {})
  {
    assert forall n :: n in h <==> n in multiset(h);
    assert |multiset(h)| == |multiset(keys)|;
    assert h != [] ==> h[0] in multiset(h);
  }

  lemma IndexOnce(h: seq<int>, keys: set<int>, n: int)
    requires Indexes(h, keys)
    ensures multiset(h)[n] <= 1
  {
  }

  function Pushed(h: seq<int>, n: int, ghost keys: set<int>): (r: seq<int>)
    requires Indexes(h, keys) && n !in keys
    ensures Indexes(r, keys + {n})
  {
    BeforeIsOrder();
    assert multiset(keys + {n}) == multiset(keys) + multiset{n};
    Push(h, n, Before)
  }

  function Popped(h: seq<int>, ghost keys: set<int>): (r: seq<int>)
    requires Indexes(h, keys) && h != []
    ensures h[0] in keys && Indexes(r, keys - {h[0]})
  {
    BeforeIsOrder();
    IndexMembers(h, keys);
    var r := Pop(h, Before).1;
    assert multiset(keys) == multiset(keys - {h[0]}) + multiset{h[0]};
    assert multiset(r) == multiset(h) - multiset{h[0]};
    r
  }

  lemma RootIsLowest(h: seq<int>, keys: set<int>, n: int)
    requires Indexes(h, keys) && n in keys
    ensures h != [] && h[0] in keys && h[0] <= n
  {
    BeforeIsOrder();
    IndexMembers(h, keys);
    var i :| 0 <= i < |h| && h[i] == n;
    RootIsLeast(h, i, Before);
  }

  function Rebuilt(s: seq<int>, ghost keys: set<int>): (r: seq<int>)
    requires multiset(s) == multiset(keys)
    ensures Indexes(r, keys)
  {
    BeforeIsOrder();
    Init(s, Before)
  }

  function Without(h: seq<int>, i: nat, ghost keys: set<int>): (r: seq<int>)
    requires Indexes(h, keys) && i < |h|
    ensures h[i] in keys && Indexes(r, keys - {h[i]})
  {
    BeforeIsOrder();
    IndexMembers(h, keys);
    var r := Remove(h, i, Before);
    assert multiset(keys) == multiset(keys - {h[i]}) + multiset{h[i]};
    assert multiset(r) == multiset(h) - multiset{h[i]};
    r
  }

  // ---- Sorting ----

  ghost predicate Ascending<T>(s: seq<T>, key: T -> int) {
    forall i, j :: 0 <= i < j < |s| ==> key(s[i]) <= key(s[j])
  }

  function Inserted<T>(s: seq<T>, x: T, key: T -> int): (r: seq<T>) {
    if s == [] || key(x) <= key(s[0]) then [x] + s else [s[0]] + Inserted(s[1..], x, key)
  }

  /** sort.Sort, as far as it is used here. */
  function Sorted<T>(s: seq<T>, key: T -> int): (r: seq<T>) {
    if s == [] then [] else Inserted(Sorted(s[1..], key), s[0], key)
  }

  lemma {:induction false} InsertedHolds<T>(s: seq<T>, x: T, key: T -> int)
    ensures multiset(Inserted(s, x, key)) == multiset(s) + multiset{x}
  {
    if !(s == [] || key(x) <= key(s[0])) {
      InsertedHolds(s[1..], x, key);
      assert s == [s[0]] + s[1..];
    }
  }

  lemma {:induction false} InsertedAscends<T>(s: seq<T>, x: T, key: T -> int)
    requires Ascending(s, key)
    ensures Ascending(Inserted(s, x, key), key)
  {
    if !(s == [] || key(x) <= key(s[0])) {
      var rest := Inserted(s[1..], x, key);
      InsertedAscends(s[1..], x, key);
      InsertedHolds(s[1..], x, key);
      forall y | y in rest ensures key(s[0]) <= key(y) {
        assert y in multiset(rest);
        assert y == x || y in multiset(s[1..]);
      }
    }
  }

  lemma {:induction false} SortedHolds<T>(s: seq<T>, key: T -> int)
    ensures multiset(Sorted(s, key)) == multiset(s)
  {
    if s != [] {
      SortedHolds(s[1..], key);
      InsertedHolds(Sorted(s[1..], key), s[0], key);
      assert s == [s[0]] + s[1..];
    }
  }

  lemma {:induction false} SortedAscends<T>(s: seq<T>, key: T -> int)
    ensures Ascending(Sorted(s, key), key)
  {
    if s != [] {
      SortedAscends(s[1..], key);
      InsertedAscends(Sorted(s[1..], key), s[0], key);
    }
  }
}
