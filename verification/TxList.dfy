// The list of one account's transactions: a sorted map with bounds on cost and gas, strict or with gaps.
module TxLists {
  import opened Basics
  import opened NonceIndex
  import opened NonceMaps
  import opened Transactions
  import opened TxSortedMaps

  function Above(n: Nonce): Tx -> bool { (x: Tx) => x.nonce > n }
  function Unpaid(costLimit: int, gasLimit: int): Tx -> bool { (x: Tx) => Unpayable(x, costLimit, gasLimit) }

  /** The bounds hold of everything in the list. */
  ghost predicate Bounded(m: Txs, costcap: int, gascap: int) {
    forall n :: n in m ==> m[n].cost <= costcap && m[n].gas <= gascap
  }

  /** Under the bounds there is nothing to filter, which is what the short circuit relies on. */
  lemma ShortCircuit(m: Txs, strict: bool, costcap: int, gascap: int, costLimit: int, gasLimit: int)
    requires Bounded(m, costcap, gascap) && costcap <= costLimit && gascap <= gasLimit
    ensures Filtered(m, strict, costLimit, gasLimit) == m
    ensures Lists(FilterDrops(m, costLimit, gasLimit), []) && Lists(FilterInvalids(m, strict, costLimit, gasLimit), [])
  {
    assert forall n :: n in m ==> !Unpayable(m[n], costLimit, gasLimit);
  }

  /** The first sweep takes what the naive filter drops, and leaves a list that the limits bound. */
  lemma FirstSweep(m: Txs, costLimit: int, gasLimit: int)
    ensures When(m, Unpaid(costLimit, gasLimit)) == FilterDrops(m, costLimit, gasLimit)
    ensures Bounded(Unless(m, Unpaid(costLimit, gasLimit)), costLimit, gasLimit)
    ensures Unless(m, Unpaid(costLimit, gasLimit)) == Filtered(m, false, costLimit, gasLimit)
    ensures Lists(FilterInvalids(m, false, costLimit, gasLimit), [])
  {
    assert forall n :: n in m ==> Holds(Unpaid(costLimit, gasLimit), m[n]) == Unpayable(m[n], costLimit, gasLimit);
  }

  lemma NothingDropped(m: Txs, costLimit: int, gasLimit: int)
    requires Lists(FilterDrops(m, costLimit, gasLimit), []) && Keyed(m)
    ensures Bounded(m, costLimit, gasLimit) && Unless(m, Unpaid(costLimit, gasLimit)) == m
  {
    var drops := FilterDrops(m, costLimit, gasLimit);
    forall n | n in m ensures !Unpayable(m[n], costLimit, gasLimit) {
      var none: seq<Tx> := [];
      assert m[n] !in none;
    }
    FirstSweep(m, costLimit, gasLimit);
    assert Filtered(m, false, costLimit, gasLimit).Keys == m.Keys;
  }

  lemma SubBounded(m: Txs, f: Tx -> bool, costcap: int, gascap: int)
    requires Bounded(m, costcap, gascap)
    ensures Bounded(Unless(m, f), costcap, gascap)
  {
  }

  /** Removing a nonce and then everything above it. */
  lemma RemoveSplits(m: Txs, nonce: Nonce)
    requires Keyed(m)
    ensures When(m - {nonce}, Above(nonce)) == AtLeast(m, nonce + 1)
            && Unless(m - {nonce}, Above(nonce)) == Below(m, nonce)
  {
    var rest := m - {nonce};
    assert forall n :: n in rest ==> Holds(Above(nonce), rest[n]) == (n > nonce);
    assert When(rest, Above(nonce)).Keys == AtLeast(m, nonce + 1).Keys;
    assert Unless(rest, Above(nonce)).Keys == Below(m, nonce).Keys;
  }

  lemma RemovedNonces(m: Txs, removed: seq<Tx>, costLimit: int, gasLimit: int)
    requires Keyed(m) && Lists(FilterDrops(m, costLimit, gasLimit), removed)
    ensures forall x :: x in removed ==> 0 <= x.nonce <= MAX_NONCE
  {
  }

  /** In two sweeps: what cannot be paid, then, in a strict list, everything above the lowest of those. */
  lemma TwoSweeps(m: Txs, removed: seq<Tx>, lowest: int, costLimit: int, gasLimit: int)
    requires Keyed(m) && Lists(FilterDrops(m, costLimit, gasLimit), removed) && removed != []
    requires (exists x :: x in removed && x.nonce == lowest) && forall x :: x in removed ==> lowest <= x.nonce
    ensures var paid := Unless(m, Unpaid(costLimit, gasLimit));
            && Unless(paid, Above(lowest)) == Filtered(m, true, costLimit, gasLimit)
            && When(paid, Above(lowest)) == FilterInvalids(m, true, costLimit, gasLimit)
  {
    var drops := FilterDrops(m, costLimit, gasLimit);
    forall n | n in m ensures GapBelow(m, n, costLimit, gasLimit) <==> lowest < n {
      if GapBelow(m, n, costLimit, gasLimit) {
        var k :| k in m && k < n && Unpayable(m[k], costLimit, gasLimit);
        assert drops[k] in removed;
      }
    }
    FirstSweep(m, costLimit, gasLimit);
    var paid := Unless(m, Unpaid(costLimit, gasLimit));
    forall n | n in paid ensures Holds(Above(lowest), paid[n]) <==> lowest < n { assert paid[n].nonce == n; }
    assert Unless(paid, Above(lowest)).Keys == Filtered(m, true, costLimit, gasLimit).Keys;
    assert When(paid, Above(lowest)).Keys == FilterInvalids(m, true, costLimit, gasLimit).Keys;
  }

  class TxList {
    const strict: bool
    const txs: TxSortedMap
    var costcap: int
    var gascap: int

    ghost predicate Valid()
      reads this, txs
    {
      txs.Valid() && Bounded(txs.items, costcap, gascap)
    }

    constructor (strict: bool)
      ensures Valid() && this.strict == strict && txs.items == map[] && fresh(txs)
    {
      this.strict := strict;
      txs := new TxSortedMap();
      costcap, gascap := 0, 0;
    }

    /** Inserts the transaction if it has a place of its own or outbids the one in its place. */
    method Add(tx: Tx, priceBump: int) returns (inserted: bool, replaced: Option<Tx>)
      requires Valid() && 0 <= tx.nonce <= MAX_NONCE
      modifies this, txs
      ensures Valid() && inserted == Admits(old(txs.items), tx, priceBump)
      ensures txs.items == if inserted then old(txs.items)[tx.nonce := tx] else old(txs.items)
      ensures replaced == if inserted && tx.nonce in old(txs.items) then Some(old(txs.items)[tx.nonce]) else None
    {
      var held := if tx.nonce in txs.items then Some(txs.items[tx.nonce]) else None;
      if held.Some? {
        if held.value.feeCap >= tx.feeCap || held.value.tip >= tx.tip {
          return false, None;
        }
        var thresholdFeeCap := (100 + priceBump) * held.value.feeCap / 100;
        var thresholdTip := (100 + priceBump) * held.value.tip / 100;
        if tx.feeCap < thresholdFeeCap || tx.tip < thresholdTip {
          return false, None;
        }
      }
      txs.Put(tx);
      if costcap < tx.cost {
        costcap := tx.cost;
      }
      if gascap < tx.gas {
        gascap := tx.gas;
      }
      return true, held;
    }

    method Forward(threshold: Nonce) returns (removed: seq<Tx>)
      requires Valid()
      modifies txs
      ensures Valid() && txs.items == AtLeast(old(txs.items), threshold)
              && removed == Flat(Below(old(txs.items), threshold))
    {
      removed := txs.Forward(threshold);
    }

    /** As the naive filter, whatever the bounds were. */
    method Filter(costLimit: int, gasLimit: int) returns (removed: seq<Tx>, invalids: seq<Tx>)
      requires Valid()
      modifies this, txs
      ensures Valid() && txs.items == Filtered(old(txs.items), strict, costLimit, gasLimit)
      ensures Lists(FilterDrops(old(txs.items), costLimit, gasLimit), removed)
      ensures Lists(FilterInvalids(old(txs.items), strict, costLimit, gasLimit), invalids)
    {
      hide Lists, Keyed, Indexes, Flat, When, Unless, Filtered, FilterDrops, FilterInvalids, Bounded;
      ghost var m := txs.items;
      if costcap <= costLimit && gascap <= gasLimit {
        ShortCircuit(m, strict, costcap, gascap, costLimit, gasLimit);
        return [], [];
      }
      costcap := costLimit;
      gascap := gasLimit;
      FirstSweep(m, costLimit, gasLimit);
      removed := txs.Filter(Unpaid(costLimit, gasLimit));
      if removed == [] {
        NothingDropped(m, costLimit, gasLimit);
        ShortCircuit(m, strict, costcap, gascap, costLimit, gasLimit);
        return [], [];
      }
      invalids := [];
      if strict {
        RemovedNonces(m, removed, costLimit, gasLimit);
        var lowest := LowestNonce(removed);
        TwoSweeps(m, removed, lowest, costLimit, gasLimit);
        SubBounded(txs.items, Above(lowest), costcap, gascap);
        invalids := txs.FilterItems(Above(lowest));
      }
      txs.Reheap();
    }

    method LowestNonce(removed: seq<Tx>) returns (lowest: Nonce)
      requires removed != [] && forall x :: x in removed ==> 0 <= x.nonce <= MAX_NONCE
      ensures (exists x :: x in removed && x.nonce == lowest) && forall x :: x in removed ==> lowest <= x.nonce
    {
      lowest := MAX_NONCE;
      for i := 0 to |removed|
        invariant forall j :: 0 <= j < i ==> lowest <= removed[j].nonce
        invariant lowest == MAX_NONCE || exists x :: x in removed && x.nonce == lowest
      {
        if lowest > removed[i].nonce {
          lowest := removed[i].nonce;
        }
      }
      assert removed[0] in removed;
    }

    method Ready(start: Nonce) returns (ready: seq<Tx>)
      requires Valid()
      modifies txs
      ensures Valid() && txs.items == old(txs.items) - Readied(old(txs.items), start).Keys
      ensures ready == Flat(Readied(old(txs.items), start))
    {
      ready := txs.Ready(start);
    }

    method Cap(threshold: int) returns (drops: seq<Tx>)
      requires Valid() && 0 <= threshold
      modifies txs
      ensures Valid() && txs.items == Capped(old(txs.items), threshold)
      ensures |drops| == |old(txs.items)| - |txs.items|
      ensures forall i :: 0 <= i < |drops| ==> drops[i] == Flat(old(txs.items))[|old(txs.items)| - 1 - i]
    {
      CappedMeans(txs.items, threshold);
      drops := txs.Cap(threshold);
    }

    /** Removes by nonce; a strict list also gives up everything above. */
    method Remove(tx: Tx) returns (removed: bool, invalids: seq<Tx>)
      requires Valid()
      modifies txs
      ensures Valid() && removed == (tx.nonce in old(txs.items))
      ensures removed && strict ==> txs.items == Below(old(txs.items), tx.nonce)
                                    && Lists(AtLeast(old(txs.items), tx.nonce + 1), invalids)
      ensures !(removed && strict) ==> txs.items == old(txs.items) - {tx.nonce} && invalids == []
    {
      hide Lists, Keyed, Indexes, Flat, When, Unless;
      ghost var m := txs.items;
      removed := txs.Remove(tx.nonce);
      if !removed {
        return false, [];
      }
      if strict {
        var nonce := tx.nonce;
        invalids := txs.Filter(Above(nonce));
        RemoveSplits(m, nonce);
        return true, invalids;
      }
      return true, [];
    }
  }
}
