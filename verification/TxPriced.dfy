// The price index over the remote transactions: two heaps whose stale entries are dropped lazily.
module TxPriced {
  import opened Basics
  import opened Heaps
  import opened Transactions
  import opened TxLookups

  const URGENT_RATIO := 4
  const FLOATING_RATIO := 1

  /** cmp without a base fee: by fee cap, then by tip. */
  function Cmp(a: Tx, b: Tx): (c: int)
    ensures -1 <= c <= 1
  {
    if a.feeCap < b.feeCap then -1 else if a.feeCap > b.feeCap then 1
    else if a.tip < b.tip then -1 else if a.tip > b.tip then 1 else 0
  }

  /** Cheaper first; of equal prices the higher nonce first. */
  predicate Cheaper(a: Tx, b: Tx) {
    Cmp(a, b) < 0 || (Cmp(a, b) == 0 && a.nonce > b.nonce)
  }

  lemma CheaperIsOrder()
    ensures StrictWeakOrder(Cheaper)
  {
  }

  lemma CmpAcross(a: Tx, b: Tx, tx: Tx)
    requires !Cheaper(b, a) && Cmp(a, tx) >= 0
    ensures Cmp(b, tx) >= 0
  {
  }

  ghost predicate Priced(h: seq<Tx>) { IsHeap(h, Cheaper) }

  function PushTx(h: seq<Tx>, tx: Tx): (r: seq<Tx>)
    requires Priced(h)
    ensures Priced(r) && multiset(r) == multiset(h) + multiset{tx} && |r| == |h| + 1
  {
    CheaperIsOrder();
    var r := Push(h, tx, Cheaper);
    assert |multiset(r)| == |multiset(h)| + 1;
    r
  }

  function PopTx(h: seq<Tx>): (r: (Tx, seq<Tx>))
    requires Priced(h) && h != []
    ensures r.0 == h[0] && Priced(r.1) && |r.1| == |h| - 1 && multiset(h) == multiset(r.1) + multiset{r.0}
  {
    CheaperIsOrder();
    Pop(h, Cheaper)
  }

  lemma HeadIsCheapest(h: seq<Tx>, x: Tx)
    requires Priced(h) && x in h
    ensures !Cheaper(x, h[0])
  {
    CheaperIsOrder();
    var i :| 0 <= i < |h| && h[i] == x;
    RootIsLeast(h, i, Cheaper);
  }

  /** The two bags agree on the live transactions. */
  ghost predicate SameLive(live: set<Tx>, a: multiset<Tx>, b: multiset<Tx>) {
    forall x :: x in live ==> a[x] == b[x]
  }

  ghost predicate AllFrom(s: seq<Tx>, live: set<Tx>) {
    forall x :: x in s ==> x in live
  }

  ghost function Slots(s: seq<Tx>): int {
    if s == [] then 0 else Slots(s[..|s| - 1]) + NumSlots(s[|s| - 1])
  }

  ghost function Elements(s: seq<Tx>): set<Tx> {
    set x | x in s
  }

  // ---- What a discard drops ----

  /** The heap without the stale entries in front. */
  function Cleaned(h: seq<Tx>, live: set<Tx>): (r: seq<Tx>)
    requires Priced(h)
    ensures Priced(r) && |r| <= |h|
    decreases |h|
  {
    if h == [] || h[0] in live then h else Cleaned(PopTx(h).1, live)
  }

  /** The floating heap after the check for an underpriced transaction, which leaves it alone if the cheapest urgent
      entry is cheaper already. */
  function CheckedFloating(u: seq<Tx>, f: seq<Tx>, live: set<Tx>, tx: Tx): (r: seq<Tx>)
    requires Priced(u) && Priced(f)
    ensures Priced(r)
  {
    var u' := Cleaned(u, live);
    if u' != [] && Cmp(u'[0], tx) < 0 then f else Cleaned(f, live)
  }

  /** The drops in order: the cheapest urgent entry sinks while the floating heap is short of its share, and otherwise
      the cheapest floating entry goes, until the slots are made up or there is nothing left. */
  function Discarded(u: seq<Tx>, f: seq<Tx>, live: set<Tx>, slots: int): (drop: seq<Tx>)
    requires Priced(u) && Priced(f)
    decreases 2 * |u| + |f|
  {
    if slots <= 0 then []
    else if |u| * FLOATING_RATIO > |f| * URGENT_RATIO then
      var (tx, rest) := PopTx(u);
      Discarded(rest, if tx in live then PushTx(f, tx) else f, live, slots)
    else if f == [] then []
    else
      var (tx, rest) := PopTx(f);
      if tx in live then [tx] + Discarded(u, rest, live, slots - NumSlots(tx)) else Discarded(u, rest, live, slots)
  }

  lemma {:induction false} SlotsFirst(tx: Tx, s: seq<Tx>)
    ensures Slots([tx] + s) == NumSlots(tx) + Slots(s)
  {
    var t := [tx] + s;
    if s == [] {
      assert t[..0] == [];
    } else {
      SlotsFirst(tx, s[..|s| - 1]);
      assert t[..|t| - 1] == [tx] + s[..|s| - 1];
    }
  }

  /** Every drop is a live entry of its own; drops stop once the slots are made up, and only fall short of them when
      every live entry is dropped. */
  ghost predicate DropsRight(drop: seq<Tx>, bag: multiset<Tx>, live: set<Tx>, slots: int) {
    && AllFrom(drop, live) && multiset(drop) <= bag
    && (Slots(drop) < slots ==> SameLive(live, bag, multiset(drop)))
    && (drop != [] ==> Slots(drop[..|drop| - 1]) < slots)
  }

  /** The step that sinks an urgent entry. */
  lemma DiscardSinks(u: seq<Tx>, f: seq<Tx>, live: set<Tx>, slots: int)
    requires Priced(u) && Priced(f) && slots > 0 && |u| * FLOATING_RATIO > |f| * URGENT_RATIO
    ensures var (tx, rest) := PopTx(u);
            var f' := if tx in live then PushTx(f, tx) else f;
            && Discarded(u, f, live, slots) == Discarded(rest, f', live, slots)
            && (multiset(u) + multiset(f) == multiset(rest) + multiset(f')
                || (tx !in live && multiset(u) + multiset(f) == multiset(rest) + multiset(f') + multiset{tx}))
  {
    hide PopTx, PushTx;
  }

  /** The step that takes a floating entry. */
  lemma DiscardTakes(u: seq<Tx>, f: seq<Tx>, live: set<Tx>, slots: int)
    requires Priced(u) && Priced(f) && slots > 0 && |u| * FLOATING_RATIO <= |f| * URGENT_RATIO && f != []
    ensures var (tx, rest) := PopTx(f);
            && Discarded(u, f, live, slots)
               == (if tx in live then [tx] + Discarded(u, rest, live, slots - NumSlots(tx))
                 else Discarded(u, rest, live, slots))
            && multiset(u) + multiset(f) == multiset(u) + multiset(rest) + multiset{tx}
  {
    hide PopTx, PushTx;
  }

  lemma {:induction false} DiscardedMeans(u: seq<Tx>, f: seq<Tx>, live: set<Tx>, slots: int)
    requires Priced(u) && Priced(f)
    ensures DropsRight(Discarded(u, f, live, slots), multiset(u) + multiset(f), live, slots)
    decreases 2 * |u| + |f|
  {
    hide Priced, DropsRight, PopTx, PushTx, Discarded;
    var bag := multiset(u) + multiset(f);
    if slots <= 0 || (u == [] && f == []) {
      NoDrops(bag, live, slots);
      DiscardEnds(u, f, live, slots);
    } else if |u| * FLOATING_RATIO > |f| * URGENT_RATIO {
      var (tx, rest) := PopTx(u);
      var f' := if tx in live then PushTx(f, tx) else f;
      DiscardSinks(u, f, live, slots);
      DiscardedMeans(rest, f', live, slots);
      StaleSkipped(Discarded(rest, f', live, slots), bag, multiset(rest) + multiset(f'), live, slots, tx);
    } else {
      var (tx, rest) := PopTx(f);
      DiscardTakes(u, f, live, slots);
      var left := if tx in live then slots - NumSlots(tx) else slots;
      DiscardedMeans(u, rest, live, left);
      if tx in live {
        LiveDropped(Discarded(u, rest, live, left), bag, multiset(u) + multiset(rest), live, slots, tx);
      } else {
        StaleSkipped(Discarded(u, rest, live, left), bag, multiset(u) + multiset(rest), live, slots, tx);
      }
    }
  }

  lemma DiscardEnds(u: seq<Tx>, f: seq<Tx>, live: set<Tx>, slots: int)
    requires Priced(u) && Priced(f) && (slots <= 0 || (u == [] && f == []))
    ensures Discarded(u, f, live, slots) == []
  {
  }

  lemma NoDrops(bag: multiset<Tx>, live: set<Tx>, slots: int)
    requires slots <= 0 || bag == multiset{}
    ensures DropsRight([], bag, live, slots)
  {
  }

  lemma StaleSkipped(drop: seq<Tx>, bag: multiset<Tx>, after: multiset<Tx>, live: set<Tx>, slots: int, tx: Tx)
    requires DropsRight(drop, after, live, slots) && (bag == after || (tx !in live && bag == after + multiset{tx}))
    ensures DropsRight(drop, bag, live, slots)
  {
  }

  lemma LiveDropped(d: seq<Tx>, bag: multiset<Tx>, after: multiset<Tx>, live: set<Tx>, slots: int, tx: Tx)
    requires DropsRight(d, after, live, slots - NumSlots(tx)) && tx in live && bag == after + multiset{tx} && slots > 0
    ensures DropsRight([tx] + d, bag, live, slots)
  {
    DropsOneMore(tx, d, slots);
  }

  lemma DropsOneMore(tx: Tx, d: seq<Tx>, slots: int)
    requires slots > 0 && (d != [] ==> Slots(d[..|d| - 1]) < slots - NumSlots(tx))
    ensures var drop := [tx] + d;
            Slots(drop) == NumSlots(tx) + Slots(d) && multiset(drop) == multiset{tx} + multiset(d)
              && Slots(drop[..|drop| - 1]) < slots
  {
    var drop := [tx] + d;
    SlotsFirst(tx, d);
    if d == [] {
      assert drop[..0] == [];
    } else {
      SlotsFirst(tx, d[..|d| - 1]);
      assert drop[..|drop| - 1] == [tx] + d[..|d| - 1];
    }
  }

  // ---- What a discard frees ----

  /** No live transaction that takes a slot has two entries. */
  ghost predicate NoneDoubled(bag: multiset<Tx>, live: set<Tx>) {
    forall x :: x in live && NumSlots(x) >= 1 ==> bag[x] <= 1
  }

  /** Without repetition, a sequence takes the slots of its elements. */
  lemma {:induction false} SlotsOnce(s: seq<Tx>)
    requires forall x :: x in s && NumSlots(x) >= 1 ==> multiset(s)[x] <= 1
    ensures Slots(s) == SlotSum(Elements(s))
  {
    if s != [] {
      var t, last := s[..|s| - 1], s[|s| - 1];
      assert s == t + [last];
      forall x | x in t && NumSlots(x) >= 1 ensures multiset(t)[x] <= 1 { assert multiset(t)[x] <= multiset(s)[x]; }
      SlotsOnce(t);
      if last in t {
        assert NumSlots(last) == 0 by { assert multiset(s)[last] == multiset(t)[last] + 1; }
        assert Elements(s) == Elements(t);
      } else {
        assert Elements(s) - {last} == Elements(t);
        SlotSumWithout(Elements(s), last);
      }
    }
  }

  /** A repeated transaction is counted each time but frees its slots once. */
  lemma {:induction false} SlotsTwice(s: seq<Tx>, x: Tx)
    ensures SlotSum(Elements(s)) <= Slots(s)
    ensures multiset(s)[x] >= 2 && NumSlots(x) >= 1 ==> SlotSum(Elements(s)) < Slots(s)
  {
    if s != [] {
      var t, last := s[..|s| - 1], s[|s| - 1];
      assert s == t + [last];
      SlotsTwice(t, x);
      if last in t {
        assert Elements(s) == Elements(t);
      } else {
        assert last !in multiset(t);
        assert Elements(s) - {last} == Elements(t);
        SlotSumWithout(Elements(s), last);
      }
    }
  }

  lemma {:induction false} SlotsAcross(a: seq<Tx>, b: seq<Tx>)
    ensures Slots(a + b) == Slots(a) + Slots(b)
  {
    if b == [] {
      assert a + b == a;
    } else {
      SlotsAcross(a, b[..|b| - 1]);
      assert (a + b)[..|a + b| - 1] == a + b[..|b| - 1];
    }
  }

  /** The sequence without its i-th element. */
  ghost function Others(s: seq<Tx>, i: int): seq<Tx>
    requires 0 <= i < |s|
  {
    s[..i] + s[i + 1..]
  }

  lemma SlotsAt(s: seq<Tx>, i: int)
    requires 0 <= i < |s|
    ensures Slots(s) == NumSlots(s[i]) + Slots(Others(s, i)) && multiset(s) == multiset(Others(s, i)) + multiset{s[i]}
  {
    hide Slots;
    var a, b := s[..i], s[i + 1..];
    assert s == a + ([s[i]] + b);
    SlotsAcross(a, [s[i]] + b);
    SlotsFirst(s[i], b);
    SlotsAcross(a, b);
  }

  lemma LessOne(a: multiset<Tx>, b: multiset<Tx>, x: Tx)
    requires a + multiset{x} <= b + multiset{x}
    ensures a <= b
  {
    forall y ensures a[y] <= b[y] { assert (a + multiset{x})[y] <= (b + multiset{x})[y]; }
  }

  /** Fewer entries do not take more slots, and take less if an entry with a slot is missing. */
  lemma {:induction false} SlotsWithin(a: seq<Tx>, b: seq<Tx>, x: Tx)
    requires multiset(a) <= multiset(b)
    ensures Slots(a) <= Slots(b) && (multiset(a)[x] < multiset(b)[x] && NumSlots(x) >= 1 ==> Slots(a) < Slots(b))
    decreases |b|
  {
    hide Slots;
    if a != [] {
      var last := a[|a| - 1];
      assert last in multiset(b);
      var i :| 0 <= i < |b| && b[i] == last;
      SlotsAt(b, i);
      SlotsAt(a, |a| - 1);
      var t, rest := Others(a, |a| - 1), Others(b, i);
      LessOne(multiset(t), multiset(rest), last);
      SlotsWithin(t, rest, x);
    } else {
      SlotsPositive(b, x);
      SlotsNothing();
    }
  }

  lemma SlotsNothing()
    ensures Slots([]) == 0
  {
  }

  lemma {:induction false} SlotsPositive(b: seq<Tx>, x: Tx)
    ensures Slots(b) >= 0 && (x in b && NumSlots(x) >= 1 ==> Slots(b) > 0)
  {
    if b != [] {
      SlotsPositive(b[..|b| - 1], x);
      assert b == b[..|b| - 1] + [b[|b| - 1]];
    }
  }

  /** Every discard that makes up its slots frees the slots that it counted. */
  ghost predicate FreesWhatItReports(u: seq<Tx>, f: seq<Tx>, live: set<Tx>)
    requires Priced(u) && Priced(f)
  {
    forall slots :: Slots(Discarded(u, f, live, slots)) >= slots ==>
      SlotSum(Elements(Discarded(u, f, live, slots))) == Slots(Discarded(u, f, live, slots))
  }

  lemma DropsOnce(drop: seq<Tx>, bag: multiset<Tx>, live: set<Tx>, slots: int)
    requires DropsRight(drop, bag, live, slots) && NoneDoubled(bag, live)
    ensures SlotSum(Elements(drop)) == Slots(drop)
  {
    forall x | x in drop && NumSlots(x) >= 1 ensures multiset(drop)[x] <= 1 { assert x in live; }
    SlotsOnce(drop);
  }

  /** Asking for the slots of all live entries, counted with repetition, gets a doubled one dropped twice. */
  lemma DoubledIsDroppedTwice(u: seq<Tx>, f: seq<Tx>, live: set<Tx>, x: Tx) returns (slots: int)
    requires Priced(u) && Priced(f) && x in live && NumSlots(x) >= 1 && (multiset(u) + multiset(f))[x] >= 2
    ensures var drop := Discarded(u, f, live, slots); Slots(drop) >= slots && SlotSum(Elements(drop)) < Slots(drop)
  {
    hide Priced, Discarded;
    var bag := multiset(u) + multiset(f);
    var enough := Slots(u + f) + 1;
    var whole := Discarded(u, f, live, enough);
    DiscardedMeans(u, f, live, enough);
    assert multiset(u + f) == bag;
    SlotsWithin(whole, u + f, x);
    slots := Slots(whole);
    var drop := Discarded(u, f, live, slots);
    DiscardedMeans(u, f, live, slots);
    WithinWhole(drop, whole, bag, live);
    SlotsWithin(drop, whole, x);
    if Slots(drop) < slots {
      WithinWhole(whole, drop, bag, live);
      SlotsWithin(whole, drop, x);
    }
    SlotsTwice(drop, x);
  }

  lemma WithinWhole(a: seq<Tx>, b: seq<Tx>, bag: multiset<Tx>, live: set<Tx>)
    requires AllFrom(a, live) && multiset(a) <= bag && SameLive(live, bag, multiset(b))
    ensures multiset(a) <= multiset(b)
  {
    forall y ensures multiset(a)[y] <= multiset(b)[y] {
      if y in multiset(a) { assert y in a; }
    }
  }

  /** Discards free what they report if and only if no live transaction that takes a slot has two entries. */
  lemma FreesIffNoneDoubled(u: seq<Tx>, f: seq<Tx>, live: set<Tx>)
    requires Priced(u) && Priced(f)
    ensures FreesWhatItReports(u, f, live) <==> NoneDoubled(multiset(u) + multiset(f), live)
  {
    hide Priced, Discarded;
    var bag := multiset(u) + multiset(f);
    if NoneDoubled(bag, live) {
      forall slots ensures SlotSum(Elements(Discarded(u, f, live, slots))) == Slots(Discarded(u, f, live, slots)) {
        DiscardedMeans(u, f, live, slots);
        DropsOnce(Discarded(u, f, live, slots), bag, live, slots);
      }
    } else {
      var x :| x in live && NumSlots(x) >= 1 && bag[x] > 1;
      var slots := DoubledIsDroppedTwice(u, f, live, x);
      assert Slots(Discarded(u, f, live, slots)) >= slots;
    }
  }

  /** The index with one more entry for a remote transaction, and as it was for a local one. */
  ghost predicate OneMoreEntry(u: seq<Tx>, f: seq<Tx>, stales: int, u': seq<Tx>, f': seq<Tx>, stales': int, tx: Tx,
                               local: bool)
  {
    && f' == f && stales' == stales
    && if local then u' == u else multiset(u') == multiset(u) + multiset{tx} && |u'| == |u| + 1
  }

  class TxPricedList {
    const all: TxLookup
    var stales: int
    var urgent: seq<Tx>
    var floating: seq<Tx>

    ghost predicate Valid()
      reads `urgent, `floating
    {
      Priced(urgent) && Priced(floating)
    }

    /** Every remote transaction occurs in a heap. */
    ghost predicate Covers()
      reads `urgent, `floating, all`remotes
    {
      forall x :: x in all.remotes ==> Tracks(x)
    }

    ghost predicate Tracks(x: Tx)
      reads `urgent, `floating
    {
      x in urgent || x in floating
    }

    ghost function Bag(): multiset<Tx>
      reads `urgent, `floating
    {
      multiset(urgent) + multiset(floating)
    }

    constructor (all: TxLookup)
      ensures Valid() && this.all == all && urgent == [] && floating == [] && stales == 0
    {
      this.all, stales, urgent, floating := all, 0, [], [];
    }

    method Put(tx: Tx, local: bool)
      requires Valid()
      modifies this
      ensures Valid() && (!local ==> Tracks(tx)) && forall x :: old(Tracks(x)) ==> Tracks(x)
      ensures OneMoreEntry(old(urgent), old(floating), old(stales), urgent, floating, stales, tx, local)
    {
      if local {
        return;
      }
      urgent := PushTx(urgent, tx);
      Members(old(urgent), urgent, tx);
    }

    lemma Members(h: seq<Tx>, r: seq<Tx>, tx: Tx)
      requires multiset(r) == multiset(h) + multiset{tx}
      ensures forall x :: x in r <==> x in h || x == tx
    {
      forall x ensures x in r <==> x in h || x == tx {
        assert x in r <==> x in multiset(r);
        assert x in h <==> x in multiset(h);
      }
    }

    lemma SameMembers(h: seq<Tx>, r: seq<Tx>)
      requires multiset(r) == multiset(h)
      ensures forall x :: x in r <==> x in h
    {
      forall x ensures x in r <==> x in h {
        assert x in r <==> x in multiset(r);
        assert x in h <==> x in multiset(h);
      }
    }

    /** Stale entries are dropped from the front of a heap until a live one is there. */
    method DropStale(h: seq<Tx>) returns (r: seq<Tx>, dropped: int)
      requires Priced(h)
      ensures Priced(r) && (r == [] || r[0] in all.remotes) && SameLive(all.remotes, multiset(h), multiset(r))
      ensures r == Cleaned(h, all.remotes) && dropped == |h| - |r| >= 0
    {
      r, dropped := h, 0;
      while r != [] && r[0] !in all.remotes
        invariant Priced(r) && SameLive(all.remotes, multiset(h), multiset(r)) && dropped == |h| - |r| >= 0
        invariant Cleaned(r, all.remotes) == Cleaned(h, all.remotes)
        decreases |r|
      {
        dropped := dropped + 1;
        r := PopTx(r).1;
      }
    }

    /** The lazy check over two heaps equals the scan of all remote transactions. */
    method Underpriced(tx: Tx) returns (r: bool)
      requires Valid() && Covers()
      modifies this
      ensures Valid() && Covers() && SameLive(all.remotes, old(Bag()), Bag())
      ensures r <==> all.remotes != {} && forall x :: x in all.remotes ==> Cmp(x, tx) >= 0
      ensures urgent == Cleaned(old(urgent), all.remotes)
      ensures floating == CheckedFloating(old(urgent), old(floating), all.remotes, tx)
    {
      hide Cleaned;
      var n;
      urgent, n := DropStale(urgent);
      stales := stales - n;
      LiveMembers(all.remotes, old(urgent), urgent);
      if urgent != [] && Cmp(urgent[0], tx) < 0 {
        return false;
      }
      floating, n := DropStale(floating);
      stales := stales - n;
      LiveMembers(all.remotes, old(floating), floating);
      if floating != [] && Cmp(floating[0], tx) < 0 {
        return false;
      }
      forall x | x in all.remotes ensures Cmp(x, tx) >= 0 {
        assert old(Tracks(x)) && Tracks(x);
        NoneCheaper(urgent, x, tx);
        NoneCheaper(floating, x, tx);
      }
      return urgent != [] || floating != [];
    }

    lemma LiveMembers(live: set<Tx>, h: seq<Tx>, r: seq<Tx>)
      requires SameLive(live, multiset(h), multiset(r))
      ensures forall x :: x in live ==> (x in h <==> x in r)
    {
      forall x | x in live ensures x in h <==> x in r {
        assert x in h <==> x in multiset(h);
        assert x in r <==> x in multiset(r);
      }
    }

    lemma NoneCheaper(h: seq<Tx>, x: Tx, tx: Tx)
      requires Priced(h) && (h != [] ==> Cmp(h[0], tx) >= 0)
      ensures x in h ==> Cmp(x, tx) >= 0
    {
      if x in h {
        HeadIsCheapest(h, x);
        CmpAcross(h[0], x, tx);
      }
    }

    /** The removal of transactions is noted; with a quarter of the entries noted stale the heaps are rebuilt. */
    method Removed(count: int)
      requires Valid() && all.Valid()
      modifies this
      ensures Valid() && (old(Covers()) ==> Covers())
      ensures forall x :: x in all.remotes && old(Tracks(x)) ==> Tracks(x)
      ensures old(stales) + count <= (|old(urgent)| + |old(floating)|) / 4 ==>
                urgent == old(urgent) && floating == old(floating) && stales == old(stales) + count
      ensures old(stales) + count > (|old(urgent)| + |old(floating)|) / 4 ==> Bag() == multiset(all.remotes)
    {
      stales := stales + count;
      if stales <= (|urgent| + |floating|) / 4 {
        return;
      }
      Reheap();
    }

    /** The heaps hold every remote transaction once: the cheapest fifth floating, the others urgent. */
    method Reheap()
      requires all.Valid()
      modifies this
      ensures Valid() && Covers() && Bag() == multiset(all.remotes) && |floating| == |all.remotes| / 5
      ensures forall a, b :: a in floating && b in urgent ==> !Cheaper(b, a)
    {
      stales := 0;
      urgent := RemoteList();
      CheaperIsOrder();
      urgent := Init(urgent, Cheaper);
      var floatingCount := |urgent| * FLOATING_RATIO / (URGENT_RATIO + FLOATING_RATIO);
      assert |multiset(urgent)| == |multiset(all.remotes)|;
      floating := [];
      while |floating| < floatingCount
        invariant Priced(urgent) && Bag() == multiset(all.remotes)
                  && |floating| <= floatingCount <= |urgent| + |floating|
        invariant forall a, b :: a in floating && b in urgent ==> !Cheaper(b, a)
      {
        forall b | b in urgent ensures !Cheaper(b, urgent[0]) { HeadIsCheapest(urgent, b); }
        var (tx, rest) := PopTx(urgent);
        Members(rest, urgent, tx);
        urgent, floating := rest, floating + [tx];
      }
      ghost var popped := floating;
      floating := Init(floating, Cheaper);
      SameMembers(popped, floating);
      forall x | x in all.remotes ensures Tracks(x) {
        assert x in Bag();
        assert x in multiset(urgent) || x in multiset(floating);
      }
    }

    method RemoteList() returns (txs: seq<Tx>)
      ensures multiset(txs) == multiset(all.remotes)
    {
      txs := [];
      var rest := all.remotes;
      while rest != {}
        invariant rest <= all.remotes && multiset(txs) == multiset(all.remotes - rest)
        decreases |rest|
      {
        var tx :| tx in rest;
        assert all.remotes - (rest - {tx}) == (all.remotes - rest) + {tx};
        txs := txs + [tx];
        rest := rest - {tx};
      }
      assert all.remotes - rest == all.remotes;
    }

    /** Drops live transactions until they make up the slots asked for. Nothing live is lost: what is not returned is
        still in the heaps. Without force, falling short means that all live entries do not suffice, and puts
        everything back. */
    method Discard(slots: int, force: bool) returns (drop: seq<Tx>, ok: bool)
      requires Valid()
      modifies this
      ensures Valid() && SameLive(all.remotes, old(Bag()), Bag() + multiset(drop))
      ensures var d := Discarded(old(urgent), old(floating), all.remotes, slots);
              && DropsRight(d, old(Bag()), all.remotes, slots)
              && ok == (force || Slots(d) >= slots) && drop == if ok then d else []
    {
      hide Discarded, DropsRight, Priced, SameLive, Slots;
      var left;
      DiscardedMeans(urgent, floating, all.remotes, slots);
      drop, left := Gather(slots);
      if left > 0 && !force {
        ghost var mid := Bag() + multiset(drop);
        urgent := PushAll(urgent, drop);
        drop := [];
        assert Bag() + multiset(drop) == mid;
        return drop, false;
      }
      return drop, true;
    }

    /** The loop of Discard: what is left to make up stays positive only if both heaps are empty. */
    method Gather(slots: int) returns (drop: seq<Tx>, left: int)
      requires Valid()
      modifies this
      ensures Valid() && SameLive(all.remotes, old(Bag()), Bag() + multiset(drop))
      ensures drop == Discarded(old(urgent), old(floating), all.remotes, slots) && left == slots - Slots(drop)
      ensures left > 0 ==> urgent == [] && floating == []
    {
      hide Discarded, Priced, SameLive, Slots;
      SlotsNothing();
      LiveSame(all.remotes, Bag());
      drop, left := [], slots;
      ghost var d := Discarded(urgent, floating, all.remotes, slots);
      while left > 0 && (urgent != [] || floating != [])
        invariant Valid() && SameLive(all.remotes, old(Bag()), Bag() + multiset(drop))
        invariant left == slots - Slots(drop) && drop + Discarded(urgent, floating, all.remotes, left) == d
        decreases 2 * |urgent| + |floating|
      {
        ghost var bag := Bag();
        var tx := DiscardOne(left);
        ghost var more := if tx.Some? then [tx.value] else [];
        LiveKept(all.remotes, old(Bag()), bag, Bag(), drop, more);
        if tx.Some? {
          SlotsMore(drop, tx.value);
          ghost var rest := Discarded(urgent, floating, all.remotes, left - NumSlots(tx.value));
          assert drop + ([tx.value] + rest) == drop + [tx.value] + rest;
          drop := drop + [tx.value];
          left := left - NumSlots(tx.value);
        } else {
          assert drop + more == drop;
        }
      }
      DiscardEnds(urgent, floating, all.remotes, left);
    }

    /** One pass of the loop: an urgent entry sinks, or a floating one is taken and dropped if it is live. */
    method DiscardOne(ghost left: int) returns (tx: Option<Tx>)
      requires Valid() && left > 0 && (urgent != [] || floating != [])
      modifies this
      ensures Valid() && SameLive(all.remotes, old(Bag()), Bag() + multiset(if tx.Some? then [tx.value] else []))
      ensures Discarded(old(urgent), old(floating), all.remotes, left) ==
              if tx.Some? then [tx.value] + Discarded(urgent, floating, all.remotes, left - NumSlots(tx.value))
              else Discarded(urgent, floating, all.remotes, left)
      ensures 2 * |urgent| + |floating| < 2 * |old(urgent)| + |old(floating)|
    {
      hide Discarded, Priced, SameLive, PopTx, PushTx, TxPricedList.Bag;
      if |urgent| * FLOATING_RATIO > |floating| * URGENT_RATIO || FLOATING_RATIO == 0 {
        DiscardSinks(urgent, floating, all.remotes, left);
        Sink();
        tx := None;
      } else {
        DiscardTakes(urgent, floating, all.remotes, left);
        tx := TakeFloating();
      }
    }

    lemma LiveSame(live: set<Tx>, a: multiset<Tx>)
      ensures SameLive(live, a, a + multiset([]))
    {
    }

    lemma LiveKept(live: set<Tx>, a: multiset<Tx>, b: multiset<Tx>, c: multiset<Tx>, drop: seq<Tx>, more: seq<Tx>)
      requires SameLive(live, a, b + multiset(drop)) && SameLive(live, b, c + multiset(more))
      ensures SameLive(live, a, c + multiset(drop + more))
    {
    }

    lemma SlotsMore(s: seq<Tx>, tx: Tx)
      ensures Slots(s + [tx]) == Slots(s) + NumSlots(tx)
    {
      assert (s + [tx])[..|s|] == s;
    }

    /** The cheapest urgent entry moves to the floating heap, or goes if it is stale. */
    method Sink()
      requires Valid() && urgent != []
      modifies this
      ensures Valid() && SameLive(all.remotes, old(Bag()), Bag() + multiset([]))
      ensures urgent == PopTx(old(urgent)).1 && |urgent| == |old(urgent)| - 1 && |floating| <= |old(floating)| + 1
      ensures floating == if old(urgent)[0] in all.remotes then PushTx(old(floating), old(urgent)[0]) else old(floating)
      ensures forall x :: x in old(urgent) ==> !Cheaper(x, old(urgent)[0])
    {
      hide PopTx, PushTx;
      forall x | x in urgent ensures !Cheaper(x, urgent[0]) { HeadIsCheapest(urgent, x); }
      var (tx, rest) := PopTx(urgent);
      urgent := rest;
      if tx !in all.remotes {
        stales := stales - 1;
      } else {
        floating := PushTx(floating, tx);
      }
    }

    /** The cheapest floating entry, unless it is stale. */
    method TakeFloating() returns (tx: Option<Tx>)
      requires Valid() && floating != []
      modifies this
      ensures Valid() && urgent == old(urgent) && floating == PopTx(old(floating)).1
      ensures tx == if old(floating)[0] in all.remotes then Some(old(floating)[0]) else None
      ensures SameLive(all.remotes, old(Bag()), Bag() + multiset(if tx.Some? then [tx.value] else []))
      ensures forall x :: x in old(floating) ==> !Cheaper(x, old(floating)[0])
    {
      hide PopTx;
      forall x | x in floating ensures !Cheaper(x, floating[0]) { HeadIsCheapest(floating, x); }
      var (head, rest) := PopTx(floating);
      floating := rest;
      if head !in all.remotes {
        stales := stales - 1;
        return None;
      }
      return Some(head);
    }

    method PushAll(h: seq<Tx>, txs: seq<Tx>) returns (r: seq<Tx>)
      requires Priced(h)
      ensures Priced(r) && multiset(r) == multiset(h) + multiset(txs)
    {
      hide Priced;
      r := h;
      assert multiset(txs[..0]) == multiset{};
      for i := 0 to |txs|
        invariant Priced(r) && multiset(r) == multiset(h) + multiset(txs[..i])
      {
        r := PushTx(r, txs[i]);
        OneMore(txs, i);
      }
      assert txs[..|txs|] == txs;
    }

    lemma OneMore(txs: seq<Tx>, i: int)
      requires 0 <= i < |txs|
      ensures multiset(txs[..i + 1]) == multiset(txs[..i]) + multiset{txs[i]}
    {
      assert txs[..i + 1] == txs[..i] + [txs[i]];
    }
  }
}
