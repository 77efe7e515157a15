// Two runs of the pool in which a property of its normal operation fails.
module PoolRuns {
  import opened Basics
  import opened NonceMaps
  import opened PoolStates
  import opened Transactions
  import opened TxLookups
  import opened TxPools
  import opened TxPriced

  // ---- A remote transaction accepted beyond the limit ----

  /** A transaction of one slot; the one of account 0 is cheapest. */
  function Small(i: int): Tx {
    Tx(i, 0, if i == 0 then 1 else 2, if i == 0 then 1 else 2, 1, 1, 1, 0, 1, 0)
  }

  /** A dearer transaction of two slots. */
  const LARGE: Tx := Tx(5, 0, 3, 3, 1, 1, 32769, 0, 1, 0)

  const CONFIG: Config := Config(1, 10, 1, 4, 1, 1, 1)

  /** The pool of the run: account i has enough for one transaction, and the limit is five slots. */
  ghost predicate Ready(pool: TxPool)
    reads pool, pool.all, pool.priced
  {
    && pool.Valid() && pool.loose == {} && pool.config == CONFIG
    && pool.locals == {} && pool.all.locals == {} && pool.state == map[]
       && (forall i :: 0 <= i <= 5 ==> pool.Balance(i) == 1)
    && pool.maxGas == 1 && pool.gasPrice == 1 && pool.changesSinceReorg == 0
    && pool.priced.floating == [] && forall a :: At(pool.pending, a) == map[]
  }

  /** Adding a small transaction while there is room. */
  method AddSmall(pool: TxPool, i: int)
    requires Ready(pool) && 0 <= i < 5 && pool.all.slots < 5 && NoRival(pool.all.All(), Small(i))
    modifies pool, pool.all, pool.priced
    ensures Ready(pool) && pool.all.slots == old(pool.all.slots) + 1
            && pool.all.remotes == old(pool.all.remotes) + {Small(i)}
    ensures pool.priced.stales == old(pool.priced.stales) && |pool.priced.urgent| == |old(pool.priced.urgent)| + 1
    ensures multiset(pool.priced.urgent) == multiset(old(pool.priced.urgent)) + multiset{Small(i)}
  {
    hide Consistent, Contiguous, SlotSum;
    RivalsAre(pool.pending, pool.queue, pool.all.All(), Small(i));
    var _, err := pool.Add(Small(i), false, 0);
  }

  ghost function Smalls(n: int): seq<Tx>
    requires 0 <= n
  {
    seq(n, i => Small(i))
  }

  /** A full pool of five small transactions, each with its entry. */
  method FilledPool() returns (pool: TxPool)
    ensures fresh(pool) && fresh(pool.all) && fresh(pool.priced) && Ready(pool) && pool.all.slots == 5
            && pool.priced.stales == 0
    ensures pool.all.remotes == Elements(Smalls(5)) && multiset(pool.priced.urgent) == multiset(Smalls(5))
            && |pool.priced.urgent| == 5
  {
    hide Consistent, Contiguous, TxPool.Indexed;
    pool := new TxPool(CONFIG, {}, map[], map[0 := 1, 1 := 1, 2 := 1, 3 := 1, 4 := 1, 5 := 1], 1);
    for i := 0 to 5
      invariant fresh(pool) && fresh(pool.all) && fresh(pool.priced) && Ready(pool) && pool.all.slots == i
                && pool.priced.stales == 0
      invariant pool.all.remotes == Elements(Smalls(i)) && multiset(pool.priced.urgent) == multiset(Smalls(i))
                && |pool.priced.urgent| == i
    {
      assert Smalls(i + 1) == Smalls(i) + [Small(i)];
      AddSmall(pool, i);
    }
  }

  /** The cheapest goes when the minimum price is raised and comes back when it is lowered, while its old entry is
      still there. */
  method ReturnCheapest(pool: TxPool)
    requires Ready(pool) && pool.all.slots == 5 && pool.priced.stales == 0
    requires pool.all.remotes == Elements(Smalls(5)) && multiset(pool.priced.urgent) == multiset(Smalls(5))
             && |pool.priced.urgent| == 5
    modifies pool, pool.all, pool.priced
    ensures Ready(pool) && pool.all.slots == 5 && pool.all.remotes == Elements(Smalls(5))
    ensures multiset(pool.priced.urgent) == multiset(Smalls(5)) + multiset{Small(0)} && |pool.priced.urgent| == 6
  {
    hide Consistent, Contiguous, TxPool.Indexed, SlotSum;
    DropCheapest(pool);
    AddSmall(pool, 0);
    assert Small(0) == Smalls(5)[0];
    assert Elements(Smalls(5)) - {Small(0)} + {Small(0)} == Elements(Smalls(5));
  }

  method DropCheapest(pool: TxPool)
    requires Ready(pool) && pool.all.slots == 5 && pool.priced.stales == 0
    requires pool.all.remotes == Elements(Smalls(5)) && |pool.priced.urgent| == 5
    modifies pool, pool.all, pool.priced
    ensures Ready(pool) && pool.all.slots == 4 && pool.all.remotes == Elements(Smalls(5)) - {Small(0)}
    ensures pool.priced.urgent == old(pool.priced.urgent)
  {
    hide Consistent, Contiguous, SlotSum;
    OneCheapest(pool.all.remotes);
    assert pool.BelowTip(2) == {Small(0)};
    SlotSumWithout(pool.all.All(), Small(0));
    pool.SetGasPrice(2, 0);
    assert pool.all.All() == old(pool.all.All()) - {Small(0)};
    pool.SetGasPrice(1, 0);
  }

  lemma OneCheapest(live: set<Tx>)
    requires live == Elements(Smalls(5))
    ensures Small(0) in live && forall x :: x in live ==> (x.tip < 2 <==> x == Small(0))
  {
    assert Small(0) == Smalls(5)[0];
  }

  /** With the cheapest of six live urgent entries doubled, a request for two slots drops it twice. */
  lemma DropsTwice(u: seq<Tx>, live: set<Tx>, x: Tx)
    requires Priced(u) && |u| == 6 && AllFrom(u, live) && multiset(u)[x] == 2 && NumSlots(x) == 1
    requires forall y :: y in u && y != x ==> Cheaper(x, y)
    ensures Cleaned(u, live) == u && Discarded(u, [], live, 2) == [x, x]
  {
    hide Priced, PopTx, PushTx, Discarded;
    var bag := multiset(u);
    CheapestFirst(u, x);
    var u1 := PopTx(u).1;
    Leaves(u, u1, x);
    CheapestFirst(u1, x);
    var u2 := PopTx(u1).1;
    Leaves(u1, u2, x);
    NoEntries();
    var f1 := PushTx([], x);
    var f2 := PushTx(f1, x);
    TwoAlike(f2, x);
    var f3 := PopTx(f2).1;
    assert |f3| == 1 && f3 == [x] by { assert multiset(f3) == multiset{x}; assert f3[0] in multiset(f3); }
    DiscardSinks(u, [], live, 2);
    DiscardSinks(u1, f1, live, 2);
    DiscardTakes(u2, f2, live, 2);
    DiscardTakes(u2, f3, live, 1);
    DiscardEnds(u2, PopTx(f3).1, live, 0);
  }

  lemma NoEntries()
    ensures Priced([])
  {
  }

  lemma CheapestFirst(u: seq<Tx>, x: Tx)
    requires Priced(u) && x in multiset(u) && forall y :: y in u && y != x ==> Cheaper(x, y)
    ensures u != [] && u[0] == x
  {
    assert x in u;
    HeadIsCheapest(u, x);
  }

  lemma Leaves(u: seq<Tx>, r: seq<Tx>, x: Tx)
    requires multiset(u) == multiset(r) + multiset{x}
    ensures forall y :: y in r ==> y in u
  {
    forall y | y in r ensures y in u { assert y in multiset(u); }
  }

  lemma TwoAlike(f: seq<Tx>, x: Tx)
    requires multiset(f) == multiset{x, x}
    ensures |f| == 2 && f == [x, x]
  {
    assert |multiset(f)| == 2;
    assert f[0] in multiset(f) && f[1] in multiset(f);
  }

  /** From a pool at its limit of five slots, adding a dearer remote transaction of two slots is accepted and leaves
      six: the doubled entry is counted twice and freed once. */
  method BeyondTheLimit() returns (pool: TxPool, before: int, err: Option<PoolError>)
    ensures pool.Valid() && before <= pool.Limit() && err == None && pool.all.slots == pool.Limit() + 1
    ensures LARGE.sender !in pool.locals && LARGE in pool.all.All()
  {
    hide Consistent, Contiguous, TxPool.Indexed, TxPool.Rejection, TxPool.Freed, SlotSum;
    pool := FilledPool();
    ReturnCheapest(pool);
    before := pool.all.slots;
    LargeIsTaken(pool);
    var _, e := pool.Add(LARGE, false, 0);
    err := e;
  }

  lemma LargeIsTaken(pool: TxPool)
    requires Ready(pool) && pool.all.slots == 5 && pool.all.remotes == Elements(Smalls(5))
    requires multiset(pool.priced.urgent) == multiset(Smalls(5)) + multiset{Small(0)} && |pool.priced.urgent| == 6
    ensures NoRival(pool.all.All(), LARGE) && pool.Rejection(LARGE, false) == None && pool.Freed(LARGE, false) == 1
  {
    hide Consistent, Contiguous, Discarded, Cleaned, Priced, SlotSum, Slots, Elements, Smalls;
    SixEntries(pool.priced.urgent, pool.all.remotes);
    DropsTwice(pool.priced.urgent, pool.all.remotes, Small(0));
    OneFreed();
  }

  lemma SixEntries(u: seq<Tx>, live: set<Tx>)
    requires multiset(u) == multiset(Smalls(5)) + multiset{Small(0)} && live == Elements(Smalls(5))
    ensures AllFrom(u, live) && multiset(u)[Small(0)] == 2 && Small(0) in live
            && (forall y :: y in u && y != Small(0) ==> Cheaper(Small(0), y))
    ensures NoRival(live, LARGE) && LARGE !in live && u != []
  {
    var s := Smalls(5);
    assert s == [Small(0), Small(1), Small(2), Small(3), Small(4)];
    forall y | y in u ensures y in live && (y != Small(0) ==> Cheaper(Small(0), y)) {
      assert y in multiset(u);
      assert y in multiset(s) || y == Small(0);
    }
    assert Small(0) in multiset(u);
  }

  lemma OneFreed()
    ensures Slots([Small(0), Small(0)]) == 2 && SlotSum(Elements([Small(0), Small(0)])) == 1
  {
    var s := [Small(0), Small(0)];
    assert s[..1] == [Small(0)] && s[..1][..0] == [];
    assert Elements(s) == {Small(0)};
    SlotSumWithout({Small(0)}, Small(0));
    assert {Small(0)} - {Small(0)} == {};
  }

  // ---- A promotion of the highest nonce ----

  const LAST: Tx := Tx(7, MAX_NONCE, 1, 1, 1, 1, 1, 0, 1, 0)

  /** From a pool whose runs are right, promoting an account's transaction of the highest nonce leaves a run that its
      next nonce, 0, does not end. */
  method NonceWraps() returns (pool: TxPool, ghost right: bool)
    ensures pool.Valid() && right && !Contiguous(pool.pending, pool.nonces, pool.state)
  {
    hide Consistent, Contiguous;
    pool := new TxPool(CONFIG, {}, map[7 := MAX_NONCE], map[7 := 1], 1);
    RivalsAre(pool.pending, pool.queue, pool.all.All(), LAST);
    var _, err := pool.Add(LAST, false, 0);
    right := Contiguous(pool.pending, pool.nonces, pool.state);
    LastIsRunnable(At(pool.queue, 7));
    var _ := pool.PromoteExecutables({7}, 0);
  }

  lemma LastIsRunnable(q: Txs)
    requires q == map[MAX_NONCE := LAST]
    ensures MAX_NONCE in Readied(Filtered(AtLeast(q, MAX_NONCE), false, 1, 1), MAX_NONCE)
  {
    var list := Filtered(AtLeast(q, MAX_NONCE), false, 1, 1);
    assert list == q;
    assert IsLowest(list.Keys, MAX_NONCE);
  }
}
