// The transaction pool: how transactions enter, move between the queue and the pending lists, and leave.
module TxPools {
  import opened Basics
  import opened NonceIndex
  import opened NonceMaps
  import opened PoolStates
  import opened Transactions
  import opened TxLookups
  import opened TxPriced

  const NONCES := MAX_NONCE + 1

  /** The next nonce, as a 64-bit counter computes it. */
  function Successor(n: Nonce): Nonce {
    (n + 1) % NONCES
  }

  datatype Config = Config(priceLimit: int, priceBump: int, accountSlots: int, globalSlots: int, accountQueue: int,
    globalQueue: int, lifetime: int)

  const DEFAULTS := Config(1, 10, 16, 5120, 64, 1024, 10800)

  predicate Sane(c: Config) {
    && c.priceLimit >= 1 && c.priceBump >= 1 && c.accountSlots >= 1 && c.globalSlots >= 1
    && c.accountQueue >= 1 && c.globalQueue >= 1 && c.lifetime >= 1
  }

  predicate KeptOrDefault(setting: int, r: int, default: int) {
    (r == setting && setting >= 1) || (r == default && setting < 1)
  }

  /** Settings below 1 are replaced by the defaults, and the others are kept. */
  function Sanitize(c: Config): (r: Config)
    ensures Sane(r) && (Sane(c) ==> r == c)
    ensures KeptOrDefault(c.priceLimit, r.priceLimit, DEFAULTS.priceLimit)
    ensures KeptOrDefault(c.priceBump, r.priceBump, DEFAULTS.priceBump)
    ensures KeptOrDefault(c.accountSlots, r.accountSlots, DEFAULTS.accountSlots)
    ensures KeptOrDefault(c.globalSlots, r.globalSlots, DEFAULTS.globalSlots)
    ensures KeptOrDefault(c.accountQueue, r.accountQueue, DEFAULTS.accountQueue)
    ensures KeptOrDefault(c.globalQueue, r.globalQueue, DEFAULTS.globalQueue)
    ensures KeptOrDefault(c.lifetime, r.lifetime, DEFAULTS.lifetime)
  {
    Config(
      if c.priceLimit < 1 then DEFAULTS.priceLimit else c.priceLimit,
      if c.priceBump < 1 then DEFAULTS.priceBump else c.priceBump,
      if c.accountSlots < 1 then DEFAULTS.accountSlots else c.accountSlots,
      if c.globalSlots < 1 then DEFAULTS.globalSlots else c.globalSlots,
      if c.accountQueue < 1 then DEFAULTS.accountQueue else c.accountQueue,
      if c.globalQueue < 1 then DEFAULTS.globalQueue else c.globalQueue,
      if c.lifetime < 1 then DEFAULTS.lifetime else c.lifetime)
  }

  datatype PoolError =
    | AlreadyKnown | Underpriced | TxPoolOverflow | ReplaceUnderpriced
    | OversizedData | NegativeValue | GasLimit | FeeCapVeryHigh | TipVeryHigh | TipAboveFeeCap
    | NonceTooLow | InsufficientFunds | IntrinsicGas

  /** The lists of a pool with its next nonces and heartbeats. */
  datatype Contents = Contents(pending: Lists, queue: Lists, nonces: map<Address, Nonce>, beats: map<Address, int>)

  const WORD := 0x1_0000_0000_0000_0000_0000_0000_0000_0000 * 0x1_0000_0000_0000_0000_0000_0000_0000_0000

  class TxPool {
    const config: Config
    const all: TxLookup
    const priced: TxPricedList

    var pending: Lists
    var queue: Lists
    var beats: map<Address, int>
    var nonces: map<Address, Nonce>     // the next nonces, where they are known
    var state: map<Address, Nonce>      // the nonces of the chain state, 0 where missing
    var balances: map<Address, int>
    var maxGas: int
    var gasPrice: int
    var locals: set<Address>
    var changesSinceReorg: int
    ghost var loose: set<Tx>            // dropped from the price index and about to be removed

    constructor (config: Config, locals: set<Address>, state: map<Address, Nonce>, balances: map<Address, int>,
                 maxGas: int)
      ensures Valid() && fresh(all) && fresh(priced) && pending == map[] && queue == map[] && loose == {}
              && Contiguous(pending, nonces, state)
      ensures this.config == Sanitize(config) && this.locals == locals && this.state == state
              && this.balances == balances
      ensures this.maxGas == maxGas && gasPrice == this.config.priceLimit && beats == map[] && nonces == map[]
              && changesSinceReorg == 0
      ensures all.All() == {} && all.slots == 0 && priced.urgent == [] && priced.floating == [] && priced.stales == 0
    {
      this.config := Sanitize(config);
      var lookup := new TxLookup();
      all := lookup;
      priced := new TxPricedList(lookup);
      pending, queue, beats, nonces := map[], map[], map[], map[];
      this.state, this.balances, this.maxGas, gasPrice := state, balances, maxGas, Sanitize(config).priceLimit;
      this.locals, changesSinceReorg, loose := locals, 0, {};
    }

    /** The lookup counts right, and the price index tracks every remote transaction that is not on its way out. */
    ghost predicate Indexed()
      reads `loose, all, priced
    {
      all.Valid() && priced.all == all && priced.Valid()
        && forall x :: x in all.remotes && x !in loose ==> priced.Tracks(x)
    }

    ghost predicate Valid()
      reads this, all, priced
    {
      Sane(config) && Indexed() && Consistent(pending, queue, all.All())
    }

    /** validateTx, for a transaction with a sender; the transaction types are all supported. */
    function Invalid(tx: Tx, local: bool): Option<PoolError>
      reads `state, `balances, `maxGas, `gasPrice
    {
      if tx.size > MAX_SIZE then Some(OversizedData)
      else if tx.value < 0 then Some(NegativeValue)
      else if maxGas < tx.gas then Some(GasLimit)
      else if tx.feeCap >= WORD || tx.feeCap <= -WORD then Some(FeeCapVeryHigh)
      else if tx.tip >= WORD || tx.tip <= -WORD then Some(TipVeryHigh)
      else if tx.feeCap < tx.tip then Some(TipAboveFeeCap)
      else if !local && tx.tip < gasPrice then Some(Underpriced)
      else if StateNonce(state, tx.sender) > tx.nonce then Some(NonceTooLow)
      else if Balance(tx.sender) < tx.cost then Some(InsufficientFunds)
      else if tx.gas < tx.intrinsicGas then Some(IntrinsicGas)
      else None
    }

    ghost function Limit(): int { config.globalSlots + config.globalQueue }

    /** No live transaction that takes a slot has two entries in the price index. */
    ghost predicate NoLiveTwice()
      reads all, priced
    {
      NoneDoubled(priced.Bag(), all.remotes)
    }

    /** The slots that the pool lacks for a transaction. */
    ghost function Need(tx: Tx): int
      reads all`slots
    {
      all.slots - Limit() + NumSlots(tx)
    }

    /** What the price index gives up to make room. */
    ghost function Drops(tx: Tx, isLocal: bool): seq<Tx>
      requires priced.Valid()
      reads all, priced
    {
      var (u, f, live) := (priced.urgent, priced.floating, all.remotes);
      if isLocal then Discarded(u, f, live, Need(tx))
      else Discarded(Cleaned(u, live), CheckedFloating(u, f, live, tx), live, Need(tx))
    }

    /** Some remote transaction exists and none is cheaper. */
    ghost predicate Outpriced(tx: Tx)
      reads all`remotes
    {
      all.remotes != {} && forall x :: x in all.remotes ==> Cmp(x, tx) >= 0
    }

    /** Why a full pool makes no room for a transaction. */
    ghost function Refusal(tx: Tx, isLocal: bool): Option<PoolError>
      requires priced.Valid()
      reads `changesSinceReorg, all, priced
    {
      if !isLocal && Outpriced(tx) then Some(Underpriced)
      else if changesSinceReorg > config.globalSlots / 4 then Some(TxPoolOverflow)
      else if !isLocal && Slots(Drops(tx, isLocal)) < Need(tx) then Some(TxPoolOverflow)
      else None
    }

    ghost predicate Full(tx: Tx)
      reads all`slots
    {
      all.slots + NumSlots(tx) > Limit()
    }

    /** Why a transaction is turned away before it gets to compete for its place. */
    ghost function Rejection(tx: Tx, local: bool): Option<PoolError>
      requires priced.Valid()
      reads this, all, priced
    {
      var isLocal := local || tx.sender in locals;
      if tx in all.All() then Some(AlreadyKnown)
      else if Invalid(tx, isLocal).Some? then Invalid(tx, isLocal)
      else if Full(tx) then Refusal(tx, isLocal)
      else None
    }

    /** Takes a transaction into the pool, making room for it if need be. Whatever happens on the way, the structures
        agree afterwards, and a local transaction is only lost to one of its own sender and nonce. An accepted remote
        transaction leaves the pool within its limit exactly if the drops free the slots lacking, and they do if the
        price index has no live transaction twice. */
    method Add(tx: Tx, local: bool, now: int) returns (replaced: bool, err: Option<PoolError>)
      requires Valid() && loose == {} && 0 <= tx.nonce <= MAX_NONCE
      modifies `pending, `queue, `beats, `nonces, `locals, `changesSinceReorg, `loose, all, priced
      ensures Valid() && loose == {}
      ensures Contiguous(old(pending), old(nonces), state) ==> Contiguous(pending, nonces, state)
      ensures err.None? ==> tx in all.All() && all.All() <= old(all.All()) + {tx}
      ensures err.Some? ==> all.All() <= old(all.All()) && locals == old(locals)
      ensures forall x :: x in old(all.locals) ==> x in all.locals || (err.None? && SamePlace(x, tx))
      ensures old(Rejection(tx, local)).Some? ==>
                err == old(Rejection(tx, local)) && pending == old(pending) && queue == old(queue)
                  && all.All() == old(all.All())
      ensures old(Rejection(tx, local)).None? ==>
                err.None? || (err == Some(ReplaceUnderpriced) && !NoRival(old(all.All()), tx))
      ensures old(Rejection(tx, local)).None? && !old(Full(tx)) ==>
                && err == (if Admits(Rival(old(pending), old(queue), tx), tx, config.priceBump) then None
                   else Some(ReplaceUnderpriced))
                && (err.None? ==> TookPlace(old(pending), old(queue), pending, queue, tx))
                && (err.Some? ==> pending == old(pending) && queue == old(queue))
      ensures err.None? && NoRival(old(all.All()), tx) ==>
                all.slots == old(all.slots) + NumSlots(tx) - old(Freed(tx, local))
      ensures err.None? && NoRival(old(all.All()), tx) && old(Full(tx)) ==>
                (all.slots <= Limit() <==> old(Freed(tx, local)) >= old(Need(tx)))
      ensures !old(Full(tx)) ==> changesSinceReorg == old(changesSinceReorg) && nonces == old(nonces)
      ensures err.None? && NoRival(old(all.All()), tx) && !local && !old(Full(tx)) ==>
                Indexes(tx, tx.sender in locals)
                  && all.remotes == old(all.remotes) + (if tx.sender in locals then {} else {tx})
      ensures !local ==> locals == old(locals)
      ensures err.None? && !local && tx.sender !in old(locals) && old(NoLiveTwice()) ==> all.slots <= Limit()
    {
      hide Consistent, Contiguous, SlotSum, TxPool.Indexed, TookPlace, Admits, TxPool.Refusal, TxPool.Drops;
      hide TxPool.NoLiveTwice;
      hide Rival, NoRival;
      if tx in all.All() {
        return false, Some(AlreadyKnown);
      }
      var isLocal := local || tx.sender in locals;
      err := Invalid(tx, isLocal);
      if err.Some? {
        return false, err;
      }
      if all.slots + NumSlots(tx) > config.globalSlots + config.globalQueue {
        err := MakeRoom(tx, isLocal, now);
        if err.Some? {
          return false, err;
        }
        FewerRivals(old(all.All()), all.All(), tx);
      }
      replaced, err := Admit(tx, local, now);
    }

    /** The slots that making room for a transaction frees. */
    ghost function Freed(tx: Tx, local: bool): int
      requires priced.Valid()
      reads this, all, priced
    {
      if Full(tx) then SlotSum(Elements(Drops(tx, local || tx.sender in locals))) else 0
    }

    /** The end of an addition: the transaction competes for its place, and may make its account local. */
    method Admit(tx: Tx, local: bool, now: int) returns (replaced: bool, err: Option<PoolError>)
      requires Valid() && tx !in all.All() && 0 <= tx.nonce <= MAX_NONCE
      modifies `pending, `queue, `beats, `locals, all, priced
      ensures Valid()
      ensures Contiguous(old(pending), nonces, state) ==> Contiguous(pending, nonces, state)
      ensures err == if Admits(Rival(old(pending), old(queue), tx), tx, config.priceBump) then None
              else Some(ReplaceUnderpriced)
      ensures err.None? ==> TookPlace(old(pending), old(queue), pending, queue, tx)
      ensures err.None? ==>
                tx in all.All() && all.All() <= old(all.All()) + {tx} && all.slots <= old(all.slots) + NumSlots(tx)
      ensures err.Some? ==>
                pending == old(pending) && queue == old(queue) && all.All() == old(all.All()) && locals == old(locals)
      ensures forall x :: x in old(all.locals) ==> x in all.locals || (err.None? && SamePlace(x, tx))
      ensures NoRival(old(all.All()), tx) ==> err.None? && all.slots == old(all.slots) + NumSlots(tx)
      ensures err.None? && NoRival(old(all.All()), tx) && !local ==>
                Indexes(tx, tx.sender in locals)
                  && all.remotes == old(all.remotes) + (if tx.sender in locals then {} else {tx})
      ensures !local ==> locals == old(locals)
    {
      hide Consistent, Contiguous, SlotSum, TxPool.Indexed, TookPlace, Outbids, Rival, NoRival;
      RivalsAre(pending, queue, all.All(), tx);
      replaced, err := Place(tx, local || tx.sender in locals, now);
      if err.None? && local && tx.sender !in locals && tx.nonce !in At(pending, tx.sender) {
        MarkLocal(tx.sender);
      }
    }

    /** An account becomes local, and its remote transactions with it. */
    method MarkLocal(addr: Address)
      requires Valid()
      modifies `locals, all, priced
      ensures Valid() && locals == old(locals) + {addr} && all.All() == old(all.All()) && all.slots == old(all.slots)
      ensures old(all.locals) <= all.locals && all.remotes <= old(all.remotes)
              && forall x :: x in all.remotes ==> x.sender !in locals
    {
      hide Consistent, SlotSum;
      locals := locals + {addr};
      var migrated := all.RemoteToLocals(locals);
      priced.Removed(migrated);
    }

    /** Replaces a pending transaction of the same nonce, or puts the new one into the queue. */
    method Place(tx: Tx, isLocal: bool, now: int) returns (replaced: bool, err: Option<PoolError>)
      requires Valid() && tx !in all.All() && 0 <= tx.nonce <= MAX_NONCE
      modifies `pending, `queue, `beats, all, priced
      ensures Valid()
      ensures Contiguous(old(pending), nonces, state) ==> Contiguous(pending, nonces, state)
      ensures err.None? ==> var gone := Displaced(Rival(old(pending), old(queue), tx), tx);
                && all.locals == old(all.locals) - gone + (if isLocal then {tx} else {})
                && all.remotes == old(all.remotes) - gone + (if isLocal then {} else {tx})
                && all.slots <= old(all.slots) + NumSlots(tx)
                   && (gone == {} ==> all.slots == old(all.slots) + NumSlots(tx))
                && (gone == {} ==> Indexes(tx, isLocal))
      ensures err.None? ==> TookPlace(old(pending), old(queue), pending, queue, tx)
      ensures replaced == (err.None? && tx.nonce in Rival(old(pending), old(queue), tx))
      ensures err == if Admits(Rival(old(pending), old(queue), tx), tx, config.priceBump) then None
              else Some(ReplaceUnderpriced)
      ensures err.Some? ==> pending == old(pending) && queue == old(queue)
      ensures err.Some? ==>
                all.locals == old(all.locals) && all.remotes == old(all.remotes) && all.slots == old(all.slots)
    {
      hide Keyed, Owned, IsRun, Consistent, Contiguous, AccountOk, NonEmpty, NextNonce, StateNonce, SlotSum;
      ghost var p, q := At(pending, tx.sender), At(queue, tx.sender);
      AccountIn(pending, queue, all.All(), tx.sender);
      if tx.sender in pending && tx.nonce in pending[tx.sender] {
        var list := pending[tx.sender];
        if !Admits(list, tx, config.priceBump) {
          return false, Some(ReplaceUnderpriced);
        }
        Replaced(tx.sender, p, q, all.All(), tx);
        SwapPending(tx, isLocal, now);
        replaced, err := true, None;
        if Contiguous(old(pending), nonces, state) {
          SameRunAt(old(pending), pending, nonces, state, tx.sender);
          RunChanged(old(pending), nonces, state, pending, nonces, tx.sender);
        }
      } else {
        var ok;
        AtWith(queue, tx.sender, At(queue, tx.sender)[tx.nonce := tx]);
        Enqueued(tx.sender, p, q, all.All(), tx);
        replaced, ok := EnqueueTx(tx, isLocal, true, now);
        if !ok {
          return false, Some(ReplaceUnderpriced);
        }
        err := None;
      }
      ghost var gone := Displaced(Rival(old(pending), old(queue), tx), tx);
      assert all.All() == old(all.All()) - gone + {tx};
      AccountChanged(old(pending), old(queue), old(all.All()), pending, queue, all.All(), tx.sender);
      PlacedSlots(old(all.All()), gone, tx);
    }

    method SwapPending(tx: Tx, isLocal: bool, now: int)
      requires Indexed() && NonEmpty(pending) && tx.sender in pending && tx.nonce in pending[tx.sender]
               && tx !in all.All()
      modifies `pending, `beats, all, priced
      ensures Indexed() && NonEmpty(pending) && OthersSame(old(pending), pending, tx.sender)
      ensures At(pending, tx.sender) == At(old(pending), tx.sender)[tx.nonce := tx]
      ensures all.locals == old(all.locals) - {At(old(pending), tx.sender)[tx.nonce]} + (if isLocal then {tx} else {})
      ensures all.remotes == old(all.remotes) - {At(old(pending), tx.sender)[tx.nonce]} + (if isLocal then {} else {tx})
    {
      hide TxPool.Indexed, NonEmpty, OthersSame;
      var list := pending[tx.sender];
      AtWith(pending, tx.sender, list[tx.nonce := tx]);
      assert tx.nonce in list[tx.nonce := tx];
      pending := pending[tx.sender := list[tx.nonce := tx]];
      Forget(list[tx.nonce]);
      Learn(tx, isLocal);
      beats := beats[tx.sender := now];
    }

    /** Drops cheap remote transactions for a new one that the pool has no room for, or refuses and changes nothing.
        The room suffices exactly if the drops free the slots lacking, which they do if no entry is doubled. */
    method MakeRoom(tx: Tx, isLocal: bool, now: int) returns (err: Option<PoolError>)
      requires Valid() && loose == {} && tx !in all.All() && all.slots + NumSlots(tx) > Limit()
      modifies `pending, `queue, `beats, `nonces, `changesSinceReorg, `loose, all, priced
      ensures Valid() && loose == {} && all.locals == old(all.locals)
      ensures err == old(Refusal(tx, isLocal))
      ensures err.Some? ==>
                pending == old(pending) && queue == old(queue) && nonces == old(nonces)
                  && all.remotes == old(all.remotes)
      ensures err.None? ==> all.remotes == old(all.remotes) - Elements(old(Drops(tx, isLocal)))
      ensures err.None? ==> all.slots == old(all.slots) - SlotSum(Elements(old(Drops(tx, isLocal))))
      ensures err.None? && !isLocal && old(NoLiveTwice()) ==> all.slots + NumSlots(tx) <= Limit()
      ensures Contiguous(old(pending), old(nonces), state) ==> Contiguous(pending, nonces, state)
    {
      hide Consistent, Contiguous, SlotSum, Slots, Cmp, Cleaned, CheckedFloating, Discarded, SameLive, NoneDoubled;
      if !isLocal {
        var under := priced.Underpriced(tx);
        if under {
          return Some(Underpriced);
        }
        StillOnce(old(priced.Bag()), priced.Bag(), all.remotes);
      }
      if changesSinceReorg > config.globalSlots / 4 {
        return Some(TxPoolOverflow);
      }
      var enough := DropCheapest(all.slots - (config.globalSlots + config.globalQueue) + NumSlots(tx), isLocal, now);
      err := if enough then None else Some(TxPoolOverflow);
    }

    /** Drops what the price index gives up for so many slots, or nothing if that is not enough and not forced. */
    method DropCheapest(slots: int, force: bool, now: int) returns (enough: bool)
      requires Valid() && loose == {}
      modifies `pending, `queue, `beats, `nonces, `changesSinceReorg, `loose, all, priced
      ensures Valid() && loose == {} && all.locals == old(all.locals)
      ensures var drop := Discarded(old(priced.urgent), old(priced.floating), old(all.remotes), slots);
              && enough == (force || Slots(drop) >= slots)
              && (enough ==> all.remotes == old(all.remotes) - Elements(drop))
              && (enough ==> all.slots == old(all.slots) - SlotSum(Elements(drop)))
              && (enough && !force && old(NoLiveTwice()) ==> SlotSum(Elements(drop)) >= slots)
      ensures !enough ==>
                pending == old(pending) && queue == old(queue) && nonces == old(nonces) && all.remotes == old(all.remotes)
      ensures Contiguous(old(pending), old(nonces), state) ==> Contiguous(pending, nonces, state)
    {
      hide Consistent, Contiguous, SlotSum, Slots, Discarded, SameLive, NoneDoubled;
      var drop, success := TakeCheapest(slots, force);
      if !success {
        return false;
      }
      changesSinceReorg := changesSinceReorg + |drop|;
      RemoveAll(drop, now);
      loose := {};
      SlotSumSplit(all.All(), Elements(drop));
      assert all.All() + Elements(drop) == old(all.All());
      enough := true;
    }

    /** Discards from the price index; what it gives out is loose until it is removed. */
    method TakeCheapest(slots: int, force: bool) returns (drop: seq<Tx>, success: bool)
      requires Valid() && loose == {}
      modifies `loose, priced
      ensures Valid() && loose == Elements(drop) <= all.remotes
      ensures var d := Discarded(old(priced.urgent), old(priced.floating), all.remotes, slots);
              success == (force || Slots(d) >= slots) && drop == if success then d else []
      ensures success && !force && old(NoLiveTwice()) ==> SlotSum(Elements(drop)) >= slots
    {
      hide Consistent, SlotSum, Slots, SameLive, Priced, Discarded, NoneDoubled;
      ghost var u, f := priced.urgent, priced.floating;
      drop, success := priced.Discard(slots, force);
      loose := Elements(drop);
      StillTracked(all.remotes, u, f, priced.urgent, priced.floating, drop);
      if success && old(NoLiveTwice()) {
        DropsOnce(drop, multiset(u) + multiset(f), all.remotes, slots);
      }
    }

    ghost function BelowTip(price: int): set<Tx>
      reads all`remotes
    {
      set x | x in all.remotes && x.tip < price
    }

    /** The minimum price changes; a rise drops the remote transactions below it. */
    method SetGasPrice(price: int, now: int)
      requires Valid()
      modifies `gasPrice, `pending, `queue, `beats, `nonces, all, priced
      ensures Valid() && gasPrice == price && all.locals == old(all.locals)
      ensures all.remotes == if price > old(gasPrice) then old(all.remotes) - old(BelowTip(price)) else old(all.remotes)
      ensures price <= old(gasPrice) ==> SameEntries() && pending == old(pending) && queue == old(queue)
      ensures (forall x :: x in old(BelowTip(price)) ==> !Has(At(old(pending), x.sender), x))
              && old(priced.stales) + |old(BelowTip(price))| <= (|old(priced.urgent)| + |old(priced.floating)|) / 4
              ==> pending == old(pending) && priced.urgent == old(priced.urgent) && priced.floating == old(priced.floating)
      ensures Contiguous(old(pending), old(nonces), state) ==> Contiguous(pending, nonces, state)
    {
      hide Consistent, Contiguous, SlotSum, Has, At;
      var before := gasPrice;
      gasPrice := price;
      if price > before {
        var drop := all.RemotesBelowTip(price);
        assert Elements(drop) == BelowTip(price);
        CountOnce(drop);
        RemoveAll(drop, now);
        priced.Removed(|drop|);
      }
    }

    /** The k highest nonces of an account's queue go. */
    method CutQueue(addr: Address, k: int, now: int)
      requires Valid() && 0 <= k <= |At(queue, addr)|
      modifies `pending, `queue, `beats, `nonces, all, priced
      ensures Valid() && pending == old(pending) && nonces == old(nonces)
      ensures OthersSame(old(queue), queue, addr) && OthersBeat(old(beats), beats, addr)
      ensures At(queue, addr) == Capped(At(old(queue), addr), |At(old(queue), addr)| - k)
      ensures |At(queue, addr)| == |At(old(queue), addr)| - k
    {
      hide Consistent, Contiguous, TxPool.Indexed, Capped;
      ghost var q := At(queue, addr);
      CappedWhole(q);
      for i := 0 to k
        invariant Valid() && pending == old(pending) && nonces == old(nonces)
        invariant OthersSame(old(queue), queue, addr) && OthersBeat(old(beats), beats, addr)
        invariant At(queue, addr) == Capped(q, |q| - i) && |At(queue, addr)| == |q| - i
      {
        var list := At(queue, addr);
        var n := HighestOf(list.Keys);
        QueuedOnly(addr, n);
        CappedLess(q, |q| - i);
        RemoveTx(list[n], true, now);
      }
    }

    /** A queued transaction is in the lookup and not pending. */
    lemma QueuedOnly(addr: Address, n: Nonce)
      requires Valid() && n in At(queue, addr)
      ensures var tx := At(queue, addr)[n];
              tx.sender == addr && tx.nonce == n && tx in all.All() && !Has(At(pending, addr), tx)
    {
      assert AccountOk(addr, At(pending, addr), At(queue, addr), all.All());
      assert Has(At(queue, addr), At(queue, addr)[n]);
    }

    /** The queues of remote accounts without a heartbeat for long enough are dropped. */
    method Evict(now: int)
      requires Valid()
      modifies `pending, `queue, `beats, `nonces, all, priced
      ensures Valid() && pending == old(pending) && nonces == old(nonces)
      ensures forall a {:trigger At(queue, a)} ::
                At(queue, a) ==
                  if a !in locals && now - Beat(old(beats), a) > config.lifetime then map[] else At(old(queue), a)
    {
      hide Consistent, Contiguous, TxPool.Indexed, Capped;
      var rest := queue.Keys;
      while rest != {}
        invariant Valid() && pending == old(pending) && nonces == old(nonces) && rest <= old(queue).Keys
        invariant forall a {:trigger At(queue, a)} ::
                    At(queue, a) == if a !in rest && Expired(a, old(beats), now) then map[] else At(old(queue), a)
        invariant forall a {:trigger Beat(beats, a)} :: a in rest ==> Beat(beats, a) == Beat(old(beats), a)
        decreases |rest|
      {
        var addr := Pick(rest);
        rest := rest - {addr};
        if addr !in locals {
          if now - Beat(beats, addr) > config.lifetime {
            CappedNone(At(queue, addr));
            CutQueue(addr, |At(queue, addr)|, now);
          }
        }
      }
    }

    ghost predicate Expired(a: Address, beats: map<Address, int>, now: int)
      reads `locals
    {
      a !in locals && now - Beat(beats, a) > config.lifetime
    }

    /** With too many queued, the remote accounts with the oldest heartbeats lose their highest nonces. */
    method TruncateQueue(now: int)
      requires Valid()
      modifies `pending, `queue, `beats, `nonces, all, priced
      ensures Valid() && pending == old(pending) && nonces == old(nonces)
      ensures QueueCut(old(queue), queue, locals, old(beats))
      ensures var excess, remote := Total(old(queue)) - config.globalQueue, Sum(old(queue).Keys - locals, old(queue));
              Total(old(queue)) - Total(queue) == if excess <= 0 then 0 else if excess <= remote then excess else remote
      ensures Total(queue) <= config.globalQueue || forall a :: a !in locals ==> At(queue, a) == map[]
    {
      hide Consistent, Contiguous, TxPool.Indexed, Capped, QueueCut, Emptied, Waits, OthersSame, OthersBeat, Sum, Total;
      hide OldestLast, At;
      var queued := CountAll(queue);
      NothingCut(queue, locals, beats);
      if queued <= config.globalQueue {
        TotalSplit(queue, locals);
        return;
      }
      ghost var waiting := queue.Keys - locals;
      var beats0 := beats;
      var addresses := ByHeartbeat(queue.Keys - locals);
      var drop := queued - config.globalQueue;
      while drop > 0 && |addresses| > 0
        invariant Valid() && pending == old(pending) && nonces == old(nonces)
        invariant 0 <= drop && Total(queue) == config.globalQueue + drop
        invariant OldestLast(addresses, waiting, beats0) && waiting <= old(queue).Keys - locals
        invariant QueueCut(old(queue), queue, locals, beats0) && Waits(old(queue), queue, waiting)
        invariant drop > 0 ==> Emptied(queue, locals, waiting)
        decreases |addresses|
      {
        var addr := addresses[|addresses| - 1];
        OldestTaken(addresses, waiting, beats0);
        addresses := addresses[..|addresses| - 1];
        var size := |At(queue, addr)|;
        var k := if size <= drop then size else drop;
        ghost var q := queue;
        CutQueue(addr, k, now);
        TotalChanged(q, queue, addr);
        QueueCutStep(old(queue), q, queue, waiting, locals, beats0, addr);
        waiting := waiting - {addr};
        drop := drop - k;
      }
      if drop > 0 {
        NoneWaiting(addresses, waiting, beats0);
        NoneLeft(queue, locals);
      }
      CountCut(old(queue), queue, locals, beats0, drop == 0, config.globalQueue);
    }

    /** The highest nonce of an account's pending list goes, and the next nonce with it. */
    method CapOne(addr: Address)
      requires Valid() && |At(pending, addr)| > 1
      modifies `pending, `nonces, all, priced
      ensures Valid() && OthersSame(old(pending), pending, addr)
      ensures var p, p' := At(old(pending), addr), At(pending, addr); p' == Capped(p, |p| - 1) && |p'| == |p| - 1
      ensures var n, top := NextNonce(old(nonces), state, addr), Highest(At(old(pending), addr).Keys);
              NextNonce(nonces, state, addr) == if n <= top then n else top
      ensures forall b :: b != addr ==> NextNonce(nonces, state, b) == NextNonce(old(nonces), state, b)
      ensures Contiguous(old(pending), old(nonces), state) ==> Contiguous(pending, nonces, state)
    {
      hide Consistent, Contiguous, AccountOk, NonEmpty, IsRun, NextNonce, StateNonce, Capped, At, TxPool.Indexed;
      AccountIn(pending, queue, all.All(), addr);
      var list := At(pending, addr);
      var n := HighestOf(list.Keys);
      OneLess(list, n);
      TopDropped(addr, list, At(queue, addr), all.All(), n);
      AtWith(pending, addr, list - {n});
      pending := With(pending, addr, list - {n});
      Forget(list[n]);
      SetIfLower(addr, n);
      AccountChanged(old(pending), old(queue), old(all.All()), pending, queue, all.All(), addr);
      if Contiguous(old(pending), old(nonces), state) {
        RunCutAt(old(pending), old(nonces), state, addr, n);
        TopCut(list, n);
        RunChanged(old(pending), old(nonces), state, pending, nonces, addr);
      }
    }

    /** Each of the accounts loses its highest nonce. */
    method Round(accounts: seq<Address>)
      requires Valid() && Distinct(accounts) && forall i :: 0 <= i < |accounts| ==> |At(pending, accounts[i])| > 1
      modifies `pending, `nonces, all, priced
      ensures Valid() && Lowered(old(pending), pending, accounts) && Total(pending) == Total(old(pending)) - |accounts|
      ensures Contiguous(old(pending), old(nonces), state) ==> Contiguous(pending, nonces, state)
    {
      hide Consistent, Contiguous, TxPool.Indexed, Capped, Total;
      for i := 0 to |accounts|
        invariant Valid() && Total(pending) == Total(old(pending)) - i
        invariant Lowered(old(pending), pending, accounts[..i])
        invariant Contiguous(old(pending), old(nonces), state) ==> Contiguous(pending, nonces, state)
      {
        ghost var p := pending;
        assert accounts[i] !in accounts[..i];
        CapOne(accounts[i]);
        TotalChanged(p, pending, accounts[i]);
        assert accounts[..i + 1] == accounts[..i] + [accounts[i]];
      }
      assert accounts[..|accounts|] == accounts;
    }

    /** The pool is within its limits, as far as remote accounts go. */
    ghost predicate WithinLimits()
      reads `pending, `queue, `locals
    {
      && (Total(pending) <= config.globalSlots || forall a :: a !in locals ==> |At(pending, a)| <= config.accountSlots)
      && (Total(queue) <= config.globalQueue || forall a :: a !in locals ==> At(queue, a) == map[])
    }

    ghost function Held(): Contents
      reads `pending, `queue, `nonces, `beats
    {
      Contents(pending, queue, nonces, beats)
    }

    /** The pool is what the two limits leave of the given contents: cut fairly, and by no more than it takes. */
    ghost predicate Truncated(c: Contents)
      reads `pending, `queue, `locals
    {
      && WithinLimits() && PendingCut(c.pending, pending, locals, config.accountSlots)
         && QueueCut(c.queue, queue, locals, c.beats)
      && (pending == c.pending || Total(pending) + |Shortened(c.pending, pending)| > config.globalSlots)
      && var excess, remote := Total(c.queue) - config.globalQueue, Sum(c.queue.Keys - locals, c.queue);
         Total(c.queue) - Total(queue) == if excess <= 0 then 0 else if excess <= remote then excess else remote
    }

    /** A background run without a new head: the dirty accounts are promoted and the limits enforced. */
    method RunReorg(dirty: set<Address>, now: int) returns (promoted: seq<Tx>, ghost c: Contents)
      requires Valid()
      modifies `pending, `queue, `beats, `nonces, `changesSinceReorg, all, priced
      ensures Valid() && Truncated(c) && changesSinceReorg == 0
      ensures forall a {:trigger At(c.pending, a)} ::
                At(c.pending, a) == At(old(pending), a) + if a in dirty then old(Runnable(a)) else map[]
      ensures forall a {:trigger At(c.queue, a)} ::
                At(c.queue, a) == if a in dirty then old(StillQueued(a)) else At(old(queue), a)
      ensures forall a {:trigger Beat(c.beats, a)} :: At(c.queue, a) != map[] ==>
                Beat(c.beats, a) == if a in dirty && old(Runnable(a)) != map[] then now else Beat(old(beats), a)
      ensures forall x :: x in promoted <==> x.sender in dirty && Has(old(Runnable(x.sender)), x)
      ensures Contiguous(old(pending), old(nonces), state)
              && (forall a :: a in dirty ==> MAX_NONCE !in old(Runnable(a)))
              ==> Contiguous(pending, nonces, state)
    {
      hide Consistent, Contiguous, TxPool.Indexed, TxPool.Runnable, TxPool.StillQueued, TxPool.Truncated, At, Has, Beat;
      promoted := PromoteExecutables(dirty, now);
      c := Held();
      Truncate(now);
    }

    method Truncate(now: int)
      requires Valid()
      modifies `pending, `queue, `beats, `nonces, `changesSinceReorg, all, priced
      ensures Valid() && Truncated(old(Held())) && (AllStart(old(pending), state) ==> AllStart(pending, state))
      ensures Contiguous(old(pending), old(nonces), state) ==> Contiguous(pending, nonces, state)
      ensures changesSinceReorg == 0
    {
      hide Consistent, Contiguous, TxPool.Indexed, QueueCut, PendingCut, Total, Sum, Shortened, At, AllStart, NonEmpty;
      hide AccountOk;
      TruncatePending();
      AccountIn(pending, queue, all.All(), 0);
      if AllStart(old(pending), state) {
        StillStarts(old(pending), pending, locals, config.accountSlots, state);
      }
      TruncateQueue(now);
      changesSinceReorg := 0;
    }

    /** What a reset takes up from an account's queue. */
    ghost function Ready(c: Contents, a: Address): Txs
      reads `state, `balances, `maxGas
    {
      Readied(PayableOf(At(c.queue, a), StateNonce(state, a), Balance(a), maxGas), NextNonce(c.nonces, state, a))
    }

    /** What it leaves there. */
    ghost function Waiting(c: Contents, a: Address): Txs
      reads `state, `balances, `maxGas
    {
      PayableOf(At(c.queue, a), StateNonce(state, a), Balance(a), maxGas) - Ready(c, a).Keys
    }

    /** What it leaves pending: what is executable of the pending list and what was taken up. */
    ghost function PendingAfter(c: Contents, a: Address): Txs
      reads `state, `balances, `maxGas
    {
      ExecutableOf(At(c.pending, a) + Ready(c, a), StateNonce(state, a), Balance(a), maxGas)
    }

    /** What it leaves queued: the rest of the queue, up to the allowance of a remote account, and what was payable but
        not executable of the pending list. */
    ghost function QueuedAfter(c: Contents, a: Address): Txs
      requires Sane(config)
      reads `state, `balances, `maxGas, `locals
    {
      (if a in locals then Waiting(c, a) else Capped(Waiting(c, a), config.accountQueue))
      + (PayableOf(At(c.pending, a) + Ready(c, a), StateNonce(state, a), Balance(a), maxGas) - PendingAfter(c, a).Keys)
    }

    /** A background run for a new head: the state is replaced, dropped transactions come back, everything queued is
        tried, and what the head invalidated is demoted. Every pending list then starts at its account's nonce, and a
        local account loses nothing that it can still pay. */
    method RunReset(state: map<Address, Nonce>, balances: map<Address, int>, maxGas: int, reinject: seq<Tx>, now: int)
      returns (ghost before: Contents, ghost after: Contents)
      requires Valid() && loose == {} && forall i :: 0 <= i < |reinject| ==> 0 <= reinject[i].nonce <= MAX_NONCE
      modifies `state, `balances, `maxGas, `pending, `queue, `beats, `nonces, `locals, `changesSinceReorg, `loose, all,
               priced
      ensures Valid() && loose == {} && this.state == state && this.balances == balances && this.maxGas == maxGas
      ensures locals == old(locals) && changesSinceReorg == 0 && AllStart(pending, state)
      ensures reinject == [] ==> before == Contents(old(pending), old(queue), map[], old(beats))
      ensures forall x :: x in old(all.locals) ==> Holds(before, x) || Ousted(x, reinject)
      ensures forall a {:trigger At(after.pending, a)} :: At(after.pending, a) == PendingAfter(before, a)
      ensures forall a {:trigger At(after.queue, a)} :: At(after.queue, a) == QueuedAfter(before, a)
      ensures Truncated(after)
      ensures forall a {:trigger At(pending, a)} :: a in locals ==>
                At(pending, a) + At(queue, a) ==
                  PayableOf(At(before.pending, a) + At(before.queue, a), StateNonce(state, a), Balance(a), maxGas)
    {
      hide Consistent, Contiguous, TxPool.Indexed, TxPool.PendingAfter, TxPool.QueuedAfter, TxPool.Truncated, At;
      hide AllStart;
      hide PayableOf, Holds;
      this.state, this.balances, this.maxGas, nonces := state, balances, maxGas, map[];
      Reinject(reinject, now);
      before := Held();
      ghost var held := all.All();
      LocalsHeld(old(all.locals), all.locals, pending, queue, all.All(), nonces, beats, reinject);
      after := Refresh(now);
      forall a | a in locals
        ensures At(pending, a) + At(queue, a) ==
                PayableOf(At(before.pending, a) + At(before.queue, a), StateNonce(state, a), Balance(a), maxGas)
      {
        NothingLost(before, after, held, a);
      }
    }

    /** The part of a reset after the state is replaced and the dropped transactions are back. */
    method Refresh(now: int) returns (ghost after: Contents)
      requires Valid()
      modifies `pending, `queue, `beats, `nonces, `changesSinceReorg, all, priced
      ensures Valid() && AllStart(pending, state) && Truncated(after) && changesSinceReorg == 0
      ensures forall a {:trigger At(after.pending, a)} :: At(after.pending, a) == PendingAfter(old(Held()), a)
      ensures forall a {:trigger At(after.queue, a)} :: At(after.queue, a) == QueuedAfter(old(Held()), a)
    {
      hide Consistent, Contiguous, TxPool.Indexed, TxPool.PendingAfter, TxPool.QueuedAfter, TxPool.Truncated, At;
      hide AllStart, NonEmpty;
      hide AccountOk;
      Settle(now);
      AccountIn(pending, queue, all.All(), 0);
      nonces := EndNonces(pending);
      after := Held();
      Truncate(now);
    }

    /** A local account's payable transactions are all still there after a reset. */
    lemma NothingLost(before: Contents, after: Contents, held: set<Tx>, a: Address)
      requires Sane(config) && a in locals && Truncated(after) && Consistent(before.pending, before.queue, held)
      requires At(after.pending, a) == PendingAfter(before, a) && At(after.queue, a) == QueuedAfter(before, a)
      ensures At(pending, a) + At(queue, a) ==
              PayableOf(At(before.pending, a) + At(before.queue, a), StateNonce(state, a), Balance(a), maxGas)
    {
      hide ExecutableOf, PayableOf, Total, Sum, Shortened;
      AccountIn(before.pending, before.queue, held, a);
      Apart(a, At(before.pending, a), At(before.queue, a), held);
      var payable := PayableOf(At(before.queue, a), StateNonce(state, a), Balance(a), maxGas);
      ReadyIsPart(At(before.queue, a), StateNonce(state, a), Balance(a), maxGas, NextNonce(before.nonces, state, a));
      PayableStays(At(before.pending, a), At(before.queue, a), Ready(before, a), StateNonce(state, a), Balance(a),
        maxGas);
    }

    /** Promotion of everything queued and demotion of what is not executable. */
    method Settle(now: int)
      requires Valid()
      modifies `pending, `queue, `beats, `nonces, all, priced
      ensures Valid() && AllStart(pending, state)
      ensures forall a {:trigger At(pending, a)} :: At(pending, a) == PendingAfter(old(Held()), a)
      ensures forall a {:trigger At(queue, a)} :: At(queue, a) == QueuedAfter(old(Held()), a)
    {
      hide Consistent, Contiguous, TxPool.Indexed, Has, AllStart, Readied, PayableOf, ExecutableOf, Capped;
      ghost var c := Held();
      var _ := PromoteExecutables(queue.Keys, now);
      forall a
        ensures At(pending, a) == At(c.pending, a) + Ready(c, a)
        ensures At(queue, a) == if a in locals then Waiting(c, a) else Capped(Waiting(c, a), config.accountQueue)
      {
        if a !in c.queue {
          NoneQueued(At(c.queue, a), StateNonce(state, a), Balance(a), maxGas, NextNonce(c.nonces, state, a),
            config.accountQueue);
          assert At(c.pending, a) + map[] == At(c.pending, a);
        }
      }
      DemoteAll(now);
    }

    method Reinject(txs: seq<Tx>, now: int)
      requires Valid() && loose == {} && forall i :: 0 <= i < |txs| ==> 0 <= txs[i].nonce <= MAX_NONCE
      modifies `pending, `queue, `beats, `nonces, `locals, `changesSinceReorg, `loose, all, priced
      ensures Valid() && loose == {} && locals == old(locals) && all.All() <= old(all.All()) + Elements(txs)
      ensures forall x :: x in old(all.locals) ==> x in all.locals || Ousted(x, txs)
      ensures txs == [] ==> Held() == old(Held())
    {
      hide Consistent, Contiguous, TxPool.Indexed, TxPool.NoLiveTwice, TxPool.Rejection, TxPool.Freed, NoRival;
      hide TookPlace, Admits;
      for i := 0 to |txs|
        invariant Valid() && loose == {} && locals == old(locals) && all.All() <= old(all.All()) + Elements(txs)
        invariant forall x :: x in old(all.locals) ==> x in all.locals || Ousted(x, txs)
        invariant txs == [] ==> Held() == old(Held())
      {
        var _, _ := Add(txs[i], false, now);
        assert txs[i] in txs;
      }
    }

    /** One past the end of each list. */
    method EndNonces(p: Lists) returns (m: map<Address, Nonce>)
      requires NonEmpty(p)
      ensures m.Keys == p.Keys && forall a :: a in p ==> p[a] != map[] && m[a] == Successor(Highest(p[a].Keys))
    {
      hide Successor;
      m := map[];
      var rest := p.Keys;
      while rest != {}
        invariant rest <= p.Keys && m.Keys == p.Keys - rest
        invariant forall a :: a in m ==> p[a] != map[] && m[a] == Successor(Highest(p[a].Keys))
        decreases |rest|
      {
        var a := Pick(rest);
        var n := HighestOf(p[a].Keys);
        m := m[a := Successor(n)];
        rest := rest - {a};
      }
    }

    /** Demotion leaves only lists that start at their account's nonce. */
    method DemoteAll(now: int)
      requires Valid()
      modifies `pending, `queue, `beats, all, priced
      ensures Valid() && AllStart(pending, state)
      ensures forall a {:trigger At(pending, a)} :: At(pending, a) == old(Executable(a))
      ensures forall a {:trigger At(queue, a)} :: At(queue, a) == At(old(queue), a) + old(Demoted(a))
    {
      hide Consistent, TxPool.Indexed, TxPool.Executable, TxPool.Demoted, StartsAt;
      DemoteUnexecutables(now);
      AccountIn(pending, queue, all.All(), 0);
      forall a | a in pending ensures StartsAt(pending[a], StateNonce(state, a)) {
        assert At(pending, a) == old(Executable(a));
        ExecutableStarts(a);
      }
    }

    /** With too many pending, the longest remote accounts are brought level, again and again, until the rest fits or
        they are down to the allowance of an account. */
    method TruncatePending()
      requires Valid()
      modifies `pending, `nonces, all, priced
      ensures Valid()
      ensures Contiguous(old(pending), old(nonces), state) ==> Contiguous(pending, nonces, state)
      ensures PendingCut(old(pending), pending, locals, config.accountSlots)
      ensures Total(pending) <= config.globalSlots
              || forall a :: a !in locals ==> |At(pending, a)| <= config.accountSlots
      ensures pending == old(pending) || Total(pending) + |Shortened(old(pending), pending)| > config.globalSlots
    {
      hide Consistent, Contiguous, TxPool.Indexed, Capped, Total, Offence, PendingCut, Distinct, Lowered;
      var count := CountAll(pending);
      var spammers := map a | a in pending && a !in locals && |pending[a]| > config.accountSlots :: |pending[a]|;
      var offenders: seq<Address> := [];
      ghost var h, t := 0, 0;
      NoOffence(pending, spammers, locals, config.accountSlots);
      while count > config.globalSlots && spammers != map[]
        invariant Valid() && count == Total(pending)
        invariant Contiguous(old(pending), old(nonces), state) ==> Contiguous(pending, nonces, state)
        invariant Offence(old(pending), pending, spammers, offenders, h, t, locals, config.accountSlots)
        invariant count > config.globalSlots ==> h == t
        invariant pending == old(pending) || Total(pending) + |Shortened(old(pending), pending)| > config.globalSlots
        decreases |spammers|
      {
        var offender := PopMax(spammers);
        NewOffender(old(pending), pending, spammers, offenders, h, t, locals, config.accountSlots, offender);
        h, t := if offenders == [] then spammers[offender] else t, spammers[offender];
        spammers := spammers - {offender};
        offenders := offenders + [offender];
        if |offenders| > 1 {
          count, h := Equalise(count, spammers, offenders, old(pending), h, t);
        }
      }
      if count > config.globalSlots && |offenders| > 0 {
        count, t := LowerAll(count, offenders, old(pending), t);
        h := t;
      }
      CutEnds(old(pending), pending, spammers, offenders, h, t, locals, config.accountSlots);
    }

    /** All offenders but the last are lowered together until they are down to the last one's length. */
    method Equalise(pendingCount: int, ghost spammers: map<Address, int>, offenders: seq<Address>, ghost p: Lists,
                    ghost h: int, ghost t: int)
      returns (count: int, ghost h': int)
      requires Valid() && pendingCount == Total(pending) && |offenders| > 1
      requires Offence(p, pending, spammers, offenders, h, t, locals, config.accountSlots)
      requires pending == p || Total(pending) + |Shortened(p, pending)| > config.globalSlots
      modifies `pending, `nonces, all, priced
      ensures Valid() && count == Total(pending)
              && Offence(p, pending, spammers, offenders, h', t, locals, config.accountSlots)
      ensures count > config.globalSlots ==> h' == t
      ensures pending == p || Total(pending) + |Shortened(p, pending)| > config.globalSlots
      ensures Contiguous(old(pending), old(nonces), state) ==> Contiguous(pending, nonces, state)
    {
      hide Consistent, Contiguous, TxPool.Indexed, Capped, Total, Offence, Lowered, Distinct;
      count, h' := pendingCount, h;
      Lengths(p, pending, spammers, offenders, h', t, locals, config.accountSlots);
      var threshold := |At(pending, offenders[|offenders| - 1])|;
      var others := offenders[..|offenders| - 1];
      while count > config.globalSlots && |At(pending, offenders[|offenders| - 2])| > threshold
        invariant Valid() && count == Total(pending)
                  && Offence(p, pending, spammers, offenders, h', t, locals, config.accountSlots)
        invariant |At(pending, offenders[|offenders| - 2])| == h' >= t
        invariant pending == p || Total(pending) + |Shortened(p, pending)| > config.globalSlots
        invariant Contiguous(old(pending), old(nonces), state) ==> Contiguous(pending, nonces, state)
        decreases h'
      {
        ghost var before := pending;
        Lengths(p, pending, spammers, offenders, h', t, locals, config.accountSlots);
        Round(others);
        RoundKeeps(p, before, pending, spammers, offenders, h', t, locals, config.accountSlots);
        h' := h' - 1;
        Lengths(p, pending, spammers, offenders, h', t, locals, config.accountSlots);
        count := count - |others|;
      }
    }

    /** With nobody left to come, all offenders are lowered together, at most to the allowance. */
    method LowerAll(pendingCount: int, offenders: seq<Address>, ghost p: Lists, ghost t: int)
      returns (count: int, ghost t': int)
      requires Valid() && pendingCount == Total(pending) && |offenders| > 0
      requires Offence(p, pending, map[], offenders, t, t, locals, config.accountSlots)
      requires pending == p || Total(pending) + |Shortened(p, pending)| > config.globalSlots
      modifies `pending, `nonces, all, priced
      ensures Valid() && count == Total(pending)
              && Offence(p, pending, map[], offenders, t', t', locals, config.accountSlots)
      ensures count <= config.globalSlots || t' <= config.accountSlots
      ensures pending == p || Total(pending) + |Shortened(p, pending)| > config.globalSlots
      ensures Contiguous(old(pending), old(nonces), state) ==> Contiguous(pending, nonces, state)
    {
      hide Consistent, Contiguous, TxPool.Indexed, Capped, Total, Offence, Lowered, Distinct;
      count, t' := pendingCount, t;
      Lengths(p, pending, map[], offenders, t', t', locals, config.accountSlots);
      while count > config.globalSlots && |At(pending, offenders[|offenders| - 1])| > config.accountSlots
        invariant Valid() && count == Total(pending)
                  && Offence(p, pending, map[], offenders, t', t', locals, config.accountSlots)
        invariant |At(pending, offenders[|offenders| - 1])| == t'
        invariant pending == p || Total(pending) + |Shortened(p, pending)| > config.globalSlots
        invariant Contiguous(old(pending), old(nonces), state) ==> Contiguous(pending, nonces, state)
        decreases t'
      {
        ghost var before := pending;
        Lengths(p, pending, map[], offenders, t', t', locals, config.accountSlots);
        Round(offenders);
        LastRoundKeeps(p, before, pending, offenders, t', locals, config.accountSlots);
        t' := t' - 1;
        Lengths(p, pending, map[], offenders, t', t', locals, config.accountSlots);
        count := count - |offenders|;
      }
    }

    method PopMax(m: map<Address, int>) returns (a: Address)
      requires m != map[]
      ensures a in m && forall b :: b in m ==> m[b] <= m[a]
    {
      a := Pick(m.Keys);
      var rest := m.Keys - {a};
      while rest != {}
        invariant a in m && rest <= m.Keys && forall b :: b in m && b !in rest ==> m[b] <= m[a]
        decreases |rest|
      {
        var b := Pick(rest);
        if m[b] > m[a] {
          a := b;
        }
        rest := rest - {b};
      }
    }

    method CountAll(m: Lists) returns (n: int)
      ensures n == Total(m)
    {
      n := 0;
      var rest := m.Keys;
      while rest != {}
        invariant rest <= m.Keys && n + Sum(rest, m) == Total(m)
        decreases |rest|
      {
        var a := Pick(rest);
        SumFrom(rest, m, a);
        n := n + |m[a]|;
        rest := rest - {a};
      }
    }

    /** The accounts, newest heartbeat first. */
    method ByHeartbeat(accounts: set<Address>) returns (r: seq<Address>)
      ensures OldestLast(r, accounts, beats)
    {
      var beats := this.beats;
      var key := (a: Address) => -Beat(beats, a);
      r := Listing(accounts);
      SortedHolds(r, key);
      SortedAscends(r, key);
      r := Sorted(r, key);
      forall i, j | 0 <= i < j < |r| ensures Beat(beats, r[j]) <= Beat(beats, r[i]) { assert key(r[i]) <= key(r[j]); }
    }

    method Listing(s: set<Address>) returns (r: seq<Address>)
      ensures multiset(r) == multiset(s)
    {
      r := [];
      var rest := s;
      while rest != {}
        invariant rest <= s && multiset(r) == multiset(s - rest)
        decreases |rest|
      {
        var a := Pick(rest);
        assert s - (rest - {a}) == (s - rest) + {a};
        r := r + [a];
        rest := rest - {a};
      }
      assert s - rest == s;
    }

    /** The price index is as it was. */
    twostate predicate SameEntries()
      reads priced
    {
      priced.urgent == old(priced.urgent) && priced.floating == old(priced.floating)
        && priced.stales == old(priced.stales)
    }

    method RemoveAll(txs: seq<Tx>, now: int)
      requires Valid()
      modifies `pending, `queue, `beats, `nonces, all, priced
      ensures Valid() && all.locals == old(all.locals) - Elements(txs)
              && all.remotes == old(all.remotes) - Elements(txs)
      ensures (forall x :: x in txs ==> !Has(At(old(pending), x.sender), x)) ==>
                SameEntries() && pending == old(pending)
      ensures Contiguous(old(pending), old(nonces), state) ==> Contiguous(pending, nonces, state)
    {
      hide Consistent, Contiguous, TxPool.Indexed, Has, At;
      for i := 0 to |txs|
        invariant Valid() && all.locals == old(all.locals) - Elements(txs[..i])
                  && all.remotes == old(all.remotes) - Elements(txs[..i])
        invariant (forall x :: x in txs ==> !Has(At(old(pending), x.sender), x)) ==>
                    SameEntries() && pending == old(pending)
        invariant Contiguous(old(pending), old(nonces), state) ==> Contiguous(pending, nonces, state)
      {
        assert txs[i] in txs;
        RemoveTx(txs[i], false, now);
        assert Elements(txs[..i + 1]) == Elements(txs[..i]) + {txs[i]};
      }
      assert txs[..|txs|] == txs;
    }

    /** Puts a transaction into the queue if it has a place there or outbids the one in its place. */
    method EnqueueTx(tx: Tx, local: bool, addAll: bool, now: int) returns (replaced: bool, ok: bool)
      requires Indexed() && 0 <= tx.nonce <= MAX_NONCE && (addAll ==> tx !in all.All())
      modifies `queue, `beats, all, priced
      ensures Indexed() && ok == Admits(At(old(queue), tx.sender), tx, config.priceBump)
      ensures queue == if ok then With(old(queue), tx.sender, At(old(queue), tx.sender)[tx.nonce := tx]) else old(queue)
      ensures !ok ==> all.locals == old(all.locals) && all.remotes == old(all.remotes)
      ensures ok ==>
                all.locals == old(all.locals) - Displaced(At(old(queue), tx.sender), tx) + if addAll && local then {tx} else {}
      ensures ok ==>
                all.remotes == old(all.remotes) - Displaced(At(old(queue), tx.sender), tx) + if addAll && !local then {tx} else {}
      ensures ok && addAll && tx.nonce !in At(old(queue), tx.sender) ==> Indexes(tx, local)
      ensures replaced == (ok && tx.nonce in At(old(queue), tx.sender))
      ensures beats == if ok && tx.sender !in old(beats) then old(beats)[tx.sender := now] else old(beats)
    {
      var from := tx.sender;
      var list := At(queue, from);
      ok := Admits(list, tx, config.priceBump);
      if !ok {
        return false, false;
      }
      queue := queue[from := list[tx.nonce := tx]];
      assert list[tx.nonce := tx] != map[] by { assert tx.nonce in list[tx.nonce := tx]; }
      replaced := tx.nonce in list;
      if replaced {
        Forget(list[tx.nonce]);
      }
      if addAll {
        Learn(tx, local);
      }
      if from !in beats {
        beats := beats[from := now];
      }
    }

    /** Moves what a strict list gave up into the queue: nothing is lost, as the nonces there are apart. */
    method Requeue(txs: Txs, a: Address, now: int)
      requires Indexed() && NonEmpty(queue) && Owned(txs, a) && txs.Keys !! At(queue, a).Keys
      modifies `queue, `beats, all, priced
      ensures Indexed() && NonEmpty(queue) && all.locals == old(all.locals) && all.remotes == old(all.remotes)
      ensures At(queue, a) == At(old(queue), a) + txs && OthersSame(old(queue), queue, a)
              && OthersBeat(old(beats), beats, a)
    {
      hide NonEmpty;
      var rest := txs.Keys;
      ghost var q := At(queue, a);
      while rest != {}
        invariant Indexed() && NonEmpty(queue) && rest <= txs.Keys && all.locals == old(all.locals)
                  && all.remotes == old(all.remotes)
        invariant At(queue, a) == q + (txs - rest) && OthersSame(old(queue), queue, a)
                  && OthersBeat(old(beats), beats, a)
        decreases |rest|
      {
        var n := Pick(rest);
        OneMoved(q, txs, rest, n);
        RequeueOne(txs[n], now);
        rest := rest - {n};
      }
      assert txs - rest == txs;
    }

    method RequeueOne(tx: Tx, now: int)
      requires Indexed() && NonEmpty(queue) && 0 <= tx.nonce <= MAX_NONCE && tx.nonce !in At(queue, tx.sender)
      modifies `queue, `beats, all, priced
      ensures Indexed() && NonEmpty(queue) && all.locals == old(all.locals) && all.remotes == old(all.remotes)
      ensures At(queue, tx.sender) == At(old(queue), tx.sender)[tx.nonce := tx]
              && OthersSame(old(queue), queue, tx.sender)
      ensures OthersBeat(old(beats), beats, tx.sender)
    {
      AtWith(queue, tx.sender, At(queue, tx.sender)[tx.nonce := tx]);
      var _, _ := EnqueueTx(tx, false, false, now);
    }

    /** The next nonce of an account is lowered to the given one, unless it is that low already. */
    method SetIfLower(addr: Address, nonce: Nonce)
      modifies `nonces
      ensures NextNonce(nonces, state, addr) == var n := NextNonce(old(nonces), state, addr);
              if n <= nonce then n else nonce
      ensures forall b :: b != addr ==> NextNonce(nonces, state, b) == NextNonce(old(nonces), state, b)
    {
      if addr !in nonces {
        nonces := nonces[addr := StateNonce(state, addr)];
      }
      if nonces[addr] <= nonce {
        return;
      }
      nonces := nonces[addr := nonce];
    }

    /** A transaction leaves the pool. From a pending list everything above it goes back to the queue and the next
        nonce is lowered; the list looked into first is the right one, as the nonces of the two are apart. */
    method RemoveTx(tx: Tx, outofbound: bool, now: int)
      requires Valid()
      modifies `pending, `queue, `beats, `nonces, all, priced
      ensures Valid() && all.locals == old(all.locals) - {tx} && all.remotes == old(all.remotes) - {tx}
      ensures OthersSame(old(pending), pending, tx.sender) && OthersSame(old(queue), queue, tx.sender)
      ensures OthersBeat(old(beats), beats, tx.sender)
      ensures !Has(At(old(pending), tx.sender), tx) && !outofbound ==> SameEntries()
      ensures var p, q := At(old(pending), tx.sender), At(old(queue), tx.sender);
              if tx in old(all.All()) && Has(p, tx) then
                && At(pending, tx.sender) == Below(p, tx.nonce) && At(queue, tx.sender) == q + AtLeast(p, tx.nonce + 1)
                && NextNonce(nonces, state, tx.sender) ==
                   (var n := NextNonce(old(nonces), state, tx.sender); if n <= tx.nonce then n else tx.nonce)
              else
                && pending == old(pending) && nonces == old(nonces)
                && At(queue, tx.sender) == if tx in old(all.All()) then q - {tx.nonce} else q
      ensures Contiguous(old(pending), old(nonces), state) ==> Contiguous(pending, nonces, state)
    {
      hide NonEmpty, Below, AtLeast, IsRun, Consistent, Contiguous, AccountOk, NextNonce, StateNonce;
      if tx !in all.All() {
        return;
      }
      var addr := tx.sender;
      ghost var p, q := At(pending, addr), At(queue, addr);
      AccountIn(pending, queue, all.All(), addr);
      all.Remove(tx);
      assert all.All() == old(all.All()) - {tx};
      if outofbound {
        priced.Removed(1);
      }
      if addr in pending && tx.nonce in pending[addr] {
        OutOfPending(addr, p, q, old(all.All()), tx);
        CutPending(tx, now);
        AccountChanged(old(pending), old(queue), old(all.All()), pending, queue, all.All(), addr);
        if Contiguous(old(pending), old(nonces), state) {
          RunCutAt(old(pending), old(nonces), state, addr, tx.nonce);
          RunChanged(old(pending), old(nonces), state, pending, nonces, addr);
        }
        return;
      }
      if addr in queue {
        OutOfQueue(addr, p, q, old(all.All()), tx);
        CutQueued(addr, tx.nonce);
        AccountChanged(old(pending), old(queue), old(all.All()), pending, queue, all.All(), addr);
      }
    }

    method CutQueued(addr: Address, nonce: Nonce)
      requires NonEmpty(queue)
      modifies `queue, `beats
      ensures NonEmpty(queue) && At(queue, addr) == At(old(queue), addr) - {nonce}
              && OthersSame(old(queue), queue, addr)
      ensures OthersBeat(old(beats), beats, addr)
    {
      hide NonEmpty, OthersSame, At;
      var list := At(queue, addr) - {nonce};
      AtWith(queue, addr, list);
      queue := With(queue, addr, list);
      if addr !in queue {
        beats := beats - {addr};
      }
    }

    method CutPending(tx: Tx, now: int)
      requires Indexed() && NonEmpty(pending) && NonEmpty(queue) && tx.sender in pending
      requires Owned(AtLeast(pending[tx.sender], tx.nonce + 1), tx.sender)
      requires AtLeast(pending[tx.sender], tx.nonce + 1).Keys !! At(queue, tx.sender).Keys
      modifies `pending, `queue, `beats, `nonces, all, priced
      ensures Indexed() && NonEmpty(pending) && NonEmpty(queue) && all.locals == old(all.locals)
              && all.remotes == old(all.remotes)
      ensures OthersSame(old(pending), pending, tx.sender) && OthersSame(old(queue), queue, tx.sender)
              && OthersBeat(old(beats), beats, tx.sender)
      ensures At(pending, tx.sender) == Below(old(pending)[tx.sender], tx.nonce)
      ensures At(queue, tx.sender) == At(old(queue), tx.sender) + AtLeast(old(pending)[tx.sender], tx.nonce + 1)
      ensures NextNonce(nonces, state, tx.sender) == var n := NextNonce(old(nonces), state, tx.sender);
              if n <= tx.nonce then n else tx.nonce
      ensures forall b :: b != tx.sender ==> NextNonce(nonces, state, b) == NextNonce(old(nonces), state, b)
    {
      hide NonEmpty, OthersSame, NextNonce, Owned, Below, AtLeast;
      var addr := tx.sender;
      var list := pending[addr];
      AtWith(pending, addr, Below(list, tx.nonce));
      pending := With(pending, addr, Below(list, tx.nonce));
      Requeue(AtLeast(list, tx.nonce + 1), addr, now);
      SetIfLower(addr, tx.nonce);
    }

    /** Puts a transaction into its account's pending list, or drops it for the better one there. */
    method PromoteTx(tx: Tx, now: int) returns (ok: bool)
      requires Indexed() && NonEmpty(pending) && 0 <= tx.nonce <= MAX_NONCE
      modifies `pending, `beats, `nonces, all, priced
      ensures Indexed() && NonEmpty(pending) && ok == Admits(At(old(pending), tx.sender), tx, config.priceBump)
      ensures pending ==
              if ok then With(old(pending), tx.sender, At(old(pending), tx.sender)[tx.nonce := tx]) else old(pending)
      ensures all.All() == old(all.All()) - if ok then Displaced(At(old(pending), tx.sender), tx) else {tx}
      ensures nonces == if ok then old(nonces)[tx.sender := (tx.nonce + 1) % NONCES] else old(nonces)
      ensures beats == if ok then old(beats)[tx.sender := now] else old(beats)
    {
      var list := At(pending, tx.sender);
      ok := Admits(list, tx, config.priceBump);
      if !ok {
        Forget(tx);
        return;
      }
      assert tx.nonce in list[tx.nonce := tx];
      pending := pending[tx.sender := list[tx.nonce := tx]];
      if tx.nonce in list {
        Forget(list[tx.nonce]);
      }
      nonces := nonces[tx.sender := (tx.nonce + 1) % NONCES];
      beats := beats[tx.sender := now];
    }

    /** Transactions leave the lookup without the price index being told. */
    method DropAll(txs: Txs)
      requires Indexed() && Keyed(txs)
      modifies all
      ensures Indexed() && LacksJust(old(all.All()), all.All(), txs)
    {
      hide TxPool.Indexed;
      var rest := txs.Keys;
      while rest != {}
        invariant Indexed() && rest <= txs.Keys
                  && forall x :: x in all.All() <==> x in old(all.All()) && !(Has(txs, x) && x.nonce !in rest)
        decreases |rest|
      {
        var n := Pick(rest);
        Lose(txs[n]);
        rest := rest - {n};
      }
    }

    method Lose(tx: Tx)
      requires Indexed()
      modifies all
      ensures Indexed() && all.All() == old(all.All()) - {tx}
    {
      all.Remove(tx);
    }

    /** What may be promoted from an account's queue: of what is neither old nor unpayable, the run without a gap
        that starts at or below the next nonce. */
    ghost function Payable(addr: Address): Txs
      reads `queue, `state, `balances, `maxGas
    {
      PayableOf(At(queue, addr), StateNonce(state, addr), Balance(addr), maxGas)
    }

    ghost function Runnable(addr: Address): Txs
      reads `queue, `state, `balances, `maxGas, `nonces
    {
      Readied(Payable(addr), NextNonce(nonces, state, addr))
    }

    function Balance(addr: Address): int
      reads `balances
    {
      if addr in balances then balances[addr] else 0
    }

    /** The first and one past the last nonce of what Ready takes. */
    method ReadyRun(list: Txs, start: Nonce) returns (lo: Nonce, hi: Nonce)
      ensures lo <= hi && Between(list, lo, hi) == Readied(list, start) && (lo == hi <==> Readied(list, start) == map[])
      ensures (forall k :: lo <= k < hi ==> k in list)
              && (lo < hi ==> lo <= start && IsLowest(list.Keys, lo) && hi !in list)
    {
      if list == map[] {
        return 0, 0;
      }
      lo := LowestOf(list.Keys);
      if lo > start {
        return lo, lo;
      }
      hi := RunEnd(list.Keys, lo);
      assert lo in Between(list, lo, hi);
    }

    method LowestOf(keys: set<Nonce>) returns (n: Nonce)
      requires keys != {}
      ensures n == Lowest(keys)
    {
      n := Pick(keys);
      var rest := keys - {n};
      while rest != {}
        invariant rest <= keys && n in keys && forall k :: k in keys && k !in rest ==> n <= k
        decreases |rest|
      {
        var k := Pick(rest);
        if k < n {
          n := k;
        }
        rest := rest - {k};
      }
    }

    /** What is too old or cannot be paid leaves an account's queued list and the lookup. */
    method Prune(addr: Address) returns (list: Txs, dropped: int)
      requires Indexed() && AccountOk(addr, At(pending, addr), At(queue, addr), all.All())
      modifies all
      ensures Indexed() && list == Payable(addr) && AccountOk(addr, At(pending, addr), list, all.All())
      ensures forall x: Tx :: x.sender != addr ==> (x in all.All() <==> x in old(all.All()))
    {
      hide Below, AtLeast, Filtered, FilterDrops, AccountOk;
      var q := At(queue, addr);
      var forwards := Below(q, StateNonce(state, addr));
      list := AtLeast(q, StateNonce(state, addr));
      PartsByNonce(q, StateNonce(state, addr));
      DropPart(addr, q, forwards, list);
      var drops := FilterDrops(list, Balance(addr), maxGas);
      PartsByCost(list, Balance(addr), maxGas);
      ghost var aged := list;
      list := Paid(list, Balance(addr), maxGas);
      DropPart(addr, aged, drops, list);
      dropped := |forwards| + |drops|;
    }

    method DropPart(addr: Address, ghost q: Txs, drop: Txs, ghost rest: Txs)
      requires Indexed() && AccountOk(addr, At(pending, addr), q, all.All()) && Parts(q, drop, rest)
      modifies all
      ensures Indexed() && AccountOk(addr, At(pending, addr), rest, all.All())
      ensures forall x: Tx :: x.sender != addr ==> (x in all.All() <==> x in old(all.All()))
    {
      assert Keyed(drop);
      DropAll(drop);
      DroppedFromQueue(addr, At(pending, addr), q, old(all.All()), drop, rest, all.All());
    }

    /** The readied run goes up, lowest nonce first; none is refused. */
    method PromoteRun(addr: Address, list: Txs, lo: Nonce, hi: Nonce, now: int) returns (promoted: seq<Tx>)
      requires Indexed() && NonEmpty(pending) && AccountOk(addr, At(pending, addr), list, all.All())
      requires lo <= hi && forall k :: lo <= k < hi ==> k in list
      modifies `pending, `beats, `nonces, all, priced
      ensures Indexed() && NonEmpty(pending) && all.All() == old(all.All()) && OthersSame(old(pending), pending, addr)
      ensures At(pending, addr) == At(old(pending), addr) + Between(list, lo, hi)
      ensures AccountOk(addr, At(pending, addr), list - Between(list, lo, hi).Keys, all.All())
      ensures forall x :: x in promoted <==> Has(Between(list, lo, hi), x)
      ensures lo == hi ==> nonces == old(nonces)
      ensures lo < hi ==> nonces == old(nonces)[addr := hi % NONCES]
      ensures beats == if lo == hi then old(beats) else old(beats)[addr := now]
    {
      hide TxPool.Indexed, AccountOk, NonEmpty, Between;
      promoted := [];
      ghost var p := At(pending, addr);
      NothingBetween(p, list, lo);
      var n := lo;
      while n < hi
        invariant lo <= n <= hi && Indexed() && NonEmpty(pending) && all.All() == old(all.All())
                  && OthersSame(old(pending), pending, addr)
        invariant At(pending, addr) == p + Between(list, lo, n)
        invariant AccountOk(addr, At(pending, addr), list - Between(list, lo, n).Keys, all.All())
        invariant forall x :: x in promoted <==> Has(Between(list, lo, n), x)
        invariant nonces == if lo == n then old(nonces) else old(nonces)[addr := n % NONCES]
        invariant beats == if lo == n then old(beats) else old(beats)[addr := now]
      {
        OneMoreBetween(addr, p, list, lo, n, all.All());
        AtWith(pending, addr, At(pending, addr)[n := list[n]]);
        var ok := PromoteTx(list[n], now);
        promoted := promoted + [list[n]];
        n := n + 1;
      }
    }

    /** Whether the account's pending list runs from its state nonce up to its next nonce. */
    ghost predicate RunsAt(addr: Address)
      reads `pending, `nonces, `state
    {
      IsRun(At(pending, addr), StateNonce(state, addr), NextNonce(nonces, state, addr))
    }

    /** Moves what can be executed from the queue to the pending lists, account by account. The next nonces stay
        right unless a run reaches the highest nonce, whose successor wraps to 0. */
    method PromoteExecutables(accounts: set<Address>, now: int) returns (promoted: seq<Tx>)
      requires Valid()
      modifies `pending, `queue, `beats, `nonces, all, priced
      ensures Valid()
      ensures forall a {:trigger At(pending, a)} ::
                At(pending, a) == At(old(pending), a) + if a in accounts then old(Runnable(a)) else map[]
      ensures forall a {:trigger At(queue, a)} ::
                At(queue, a) == if a in accounts then old(StillQueued(a)) else At(old(queue), a)
      ensures forall a {:trigger Beat(beats, a)} :: At(queue, a) != map[] ==>
                Beat(beats, a) == if a in accounts && old(Runnable(a)) != map[] then now else Beat(old(beats), a)
      ensures forall x :: x in promoted <==> x.sender in accounts && Has(old(Runnable(x.sender)), x)
      ensures Contiguous(old(pending), old(nonces), state)
              ==> (Contiguous(pending, nonces, state) <==> forall a :: a in accounts ==> MAX_NONCE !in old(Runnable(a)))
    {
      hide TxPool.Runnable, TxPool.StillQueued, TxPool.Indexed, IsRun, Has, Consistent, Contiguous, At, NextNonce;
      hide StateNonce, Beat;
      promoted := [];
      var rest := accounts;
      while rest != {}
        invariant Valid() && rest <= accounts
        invariant forall a :: a in accounts && a !in rest ==> Promoted(a)
        invariant forall a :: a in accounts && a !in rest ==> Beats(a, now)
        invariant forall a :: a !in accounts || a in rest ==> Untouched(a)
        invariant forall x ::
                    x in promoted <==> x.sender in accounts && x.sender !in rest && Has(old(Runnable(x.sender)), x)
        decreases |rest|
      {
        var addr := Pick(rest);
        SameChances(addr);
        label before:
        var more := PromoteAccount(addr, now);
        RunnableOwned@before(addr);
        assert Promoted(addr) && Beats(addr, now);
        promoted := promoted + more;
        rest := rest - {addr};
      }
      ContiguousIf(accounts);
    }

    /** An account's share of a promotion, compared with the state before. */
    twostate predicate Promoted(a: Address)
      requires Sane(config)
      reads `pending, `queue, `nonces, `state
    {
      && At(pending, a) == At(old(pending), a) + old(Runnable(a)) && At(queue, a) == old(StillQueued(a))
      && (old(RunsAt(a)) ==> (RunsAt(a) <==> MAX_NONCE !in old(Runnable(a))))
    }

    /** The heartbeat of an account with something queued after a promotion. */
    twostate predicate Beats(a: Address, now: int)
      reads `queue, `beats
    {
      At(queue, a) != map[] ==> Beat(beats, a) == if old(Runnable(a)) != map[] then now else Beat(old(beats), a)
    }

    twostate predicate Untouched(a: Address)
      reads `pending, `queue, `nonces, `state, `beats
    {
      && At(pending, a) == At(old(pending), a) && At(queue, a) == At(old(queue), a)
         && Beat(beats, a) == Beat(old(beats), a)
      && NextNonce(nonces, state, a) == NextNonce(old(nonces), old(state), a)
    }

    twostate lemma SameChances(a: Address)
      requires Sane(config) && Untouched(a) && state == old(state) && balances == old(balances) && maxGas == old(maxGas)
               && locals == old(locals)
      ensures Runnable(a) == old(Runnable(a)) && StillQueued(a) == old(StillQueued(a)) && RunsAt(a) == old(RunsAt(a))
    {
    }

    twostate lemma RunnableOwned(a: Address)
      requires old(Consistent(pending, queue, all.All()))
      ensures forall x :: old(Has(Runnable(a), x)) ==> x.sender == a
    {
      assert old(AccountOk(a, At(pending, a), At(queue, a), all.All()));
    }

    twostate lemma ContiguousIf(accounts: set<Address>)
      requires Sane(config) && state == old(state)
      requires forall a :: if a in accounts then Promoted(a) else Untouched(a)
      ensures Contiguous(old(pending), old(nonces), state)
              ==> (Contiguous(pending, nonces, state) <==> forall a :: a in accounts ==> MAX_NONCE !in old(Runnable(a)))
    {
      hide TxPool.Runnable, TxPool.StillQueued, IsRun;
      if Contiguous(old(pending), old(nonces), state) {
        forall a
          ensures IsRun(At(pending, a), StateNonce(state, a), NextNonce(nonces, state, a)) <==>
                    !(a in accounts && MAX_NONCE in old(Runnable(a)))
        {
          assert old(RunsAt(a));
          assert if a in accounts then Promoted(a) else Untouched(a);
        }
        if a :| a in accounts && MAX_NONCE in old(Runnable(a)) {
          assert !IsRun(At(pending, a), StateNonce(state, a), NextNonce(nonces, state, a));
        }
      }
    }

    /** What stays pending of an account after a new head: what is payable, up to the first drop, if it still starts
        at the state nonce. */
    ghost function Executable(addr: Address): Txs
      reads `pending, `state, `balances, `maxGas
    {
      ExecutableOf(At(pending, addr), StateNonce(state, addr), Balance(addr), maxGas)
    }

    /** What goes back to the queue: neither old nor dropped, nor kept. */
    ghost function Demoted(addr: Address): Txs
      reads `pending, `state, `balances, `maxGas
    {
      PayableOf(At(pending, addr), StateNonce(state, addr), Balance(addr), maxGas) - Executable(addr).Keys
    }

    /** One account's pending list after a new head. Nothing demoted is lost on the way to the queue. */
    method DemoteAccount(addr: Address, now: int)
      requires Valid()
      modifies `pending, `queue, `beats, all, priced
      ensures Valid() && OthersSame(old(pending), pending, addr) && OthersSame(old(queue), queue, addr)
      ensures At(pending, addr) == old(Executable(addr)) && At(queue, addr) == At(old(queue), addr) + old(Demoted(addr))
    {
      hide AccountOk, Below, AtLeast, Filtered, FilterDrops, FilterInvalids, Parts, LacksJust;
      var p, s := At(pending, addr), StateNonce(state, addr);
      ghost var q := At(queue, addr);
      assert AccountOk(addr, p, q, all.All());
      PartsByNonce(p, s);
      PartsKeyed(addr, p, q, all.All(), Below(p, s), AtLeast(p, s));
      DropAll(Below(p, s));
      DroppedFromPending(addr, p, q, old(all.All()), Below(p, s), AtLeast(p, s), all.All());
      var list := AtLeast(p, s);
      var drops := FilterDrops(list, Balance(addr), maxGas);
      var kept := KeepStrict(list, Balance(addr), maxGas);
      ghost var all1 := all.All();
      PartsOfStrict(list, Balance(addr), maxGas);
      PartsKeyed(addr, list, q, all1, drops, Paid(list, Balance(addr), maxGas));
      DropAll(drops);
      var paid := Paid(list, Balance(addr), maxGas);
      DroppedFromPending(addr, list, q, all1, drops, paid, all.All());
      if kept != map[] && s !in kept {
        kept := map[];
      }
      PartsLeft(paid, Filtered(list, true, Balance(addr), maxGas), FilterInvalids(list, true, Balance(addr), maxGas),
        kept);
      MovedDown(addr, paid, q, all.All(), paid - kept.Keys, kept);
      Requeue(paid - kept.Keys, addr, now);
      AtWith(pending, addr, kept);
      pending := With(pending, addr, kept);
      AccountChanged(old(pending), old(queue), old(all.All()), pending, queue, all.All(), addr);
    }

    /** Takes every pending list to what a new head leaves executable. */
    method DemoteUnexecutables(now: int)
      requires Valid()
      modifies `pending, `queue, `beats, all, priced
      ensures Valid()
      ensures forall a {:trigger At(pending, a)} :: At(pending, a) == old(Executable(a))
      ensures forall a {:trigger At(queue, a)} :: At(queue, a) == At(old(queue), a) + old(Demoted(a))
    {
      hide TxPool.Executable, TxPool.Demoted, TxPool.Indexed, Consistent, At;
      var rest := pending.Keys;
      while rest != {}
        invariant Valid() && rest <= old(pending).Keys
        invariant forall a :: a !in rest && a in old(pending) ==> Settled(a)
        invariant forall a :: a in rest || a !in old(pending) ==> Kept(a)
        decreases |rest|
      {
        var addr := Pick(rest);
        SameExecutable(addr);
        DemoteAccount(addr, now);
        rest := rest - {addr};
      }
      forall a ensures At(pending, a) == old(Executable(a)) && At(queue, a) == At(old(queue), a) + old(Demoted(a)) {
        if a !in old(pending) { NothingPending(a); }
        assert Settled(a);
      }
    }

    twostate lemma ExecutableStarts(a: Address)
      ensures old(Executable(a)) != map[] ==> StartsAt(old(Executable(a)), StateNonce(old(state), a))
    {
    }

    twostate predicate Settled(a: Address)
      reads `pending, `queue
    {
      At(pending, a) == old(Executable(a)) && At(queue, a) == At(old(queue), a) + old(Demoted(a))
    }

    twostate predicate Kept(a: Address)
      reads `pending, `queue
    {
      At(pending, a) == At(old(pending), a) && At(queue, a) == At(old(queue), a)
    }

    twostate lemma SameExecutable(a: Address)
      requires Kept(a) && state == old(state) && balances == old(balances) && maxGas == old(maxGas)
      ensures Executable(a) == old(Executable(a)) && Demoted(a) == old(Demoted(a))
    {
    }

    twostate lemma NothingPending(a: Address)
      requires Kept(a) && a !in old(pending)
      ensures Settled(a)
    {
    }

    method KeepStrict(list: Txs, costLimit: int, gasLimit: int) returns (kept: Txs)
      ensures kept == Filtered(list, true, costLimit, gasLimit)
    {
      var drops := FilterDrops(list, costLimit, gasLimit);
      if drops == map[] {
        NoStrictParts(list, costLimit, gasLimit);
        return list;
      }
      var lowest := LowestOf(drops.Keys);
      StrictParts(list, costLimit, gasLimit, lowest);
      kept := Below(list, lowest);
    }

    /** What stays queued: with room for only so many, unless the account is local. */
    ghost function StillQueued(addr: Address): Txs
      reads `queue, `state, `balances, `maxGas, `nonces, `locals
      requires Sane(config)
    {
      var rest := Payable(addr) - Runnable(addr).Keys;
      if addr in locals then rest else Capped(rest, config.accountQueue)
    }

    method PromoteAccount(addr: Address, now: int) returns (promoted: seq<Tx>)
      requires Valid()
      modifies `pending, `queue, `beats, `nonces, all, priced
      ensures Valid() && OthersSame(old(pending), pending, addr) && OthersSame(old(queue), queue, addr)
      ensures forall b :: b != addr ==> NextNonce(nonces, state, b) == NextNonce(old(nonces), state, b)
      ensures At(pending, addr) == At(old(pending), addr) + old(Runnable(addr))
              && At(queue, addr) == old(StillQueued(addr))
      ensures forall x :: x in promoted <==> Has(old(Runnable(addr)), x)
      ensures old(RunsAt(addr)) ==> (RunsAt(addr) <==> MAX_NONCE !in old(Runnable(addr)))
      ensures OthersBeat(old(beats), beats, addr)
      ensures At(queue, addr) != map[] ==>
                Beat(beats, addr) == if old(Runnable(addr)) != map[] then now else Beat(old(beats), addr)
    {
      hide AccountOk, Between, Filtered, AtLeast, IsRun, Capped, Readied;
      ghost var p, q := At(pending, addr), At(queue, addr);
      if addr !in queue {
        NothingQueued(q, StateNonce(state, addr), Balance(addr), maxGas, NextNonce(nonces, state, addr),
          config.accountQueue);
        assert p + map[] == p;
        return [];
      }
      assert AccountOk(addr, p, q, all.All());
      var list, dropped := Prune(addr);
      var lo, hi := ReadyRun(list, NextNonce(nonces, state, addr));
      Apart(addr, p, list, all.All());
      promoted := PromoteRun(addr, list, lo, hi, now);
      if old(RunsAt(addr)) {
        PrunedFrom(q, list, StateNonce(state, addr), Balance(addr), maxGas);
        PromotionRuns(p, list, StateNonce(state, addr), NextNonce(old(nonces), state, addr), lo, hi);
      }
      var run := Between(list, lo, hi);
      SettleQueue(addr, list - run.Keys, dropped);
      AccountChanged(old(pending), old(queue), old(all.All()), pending, queue, all.All(), addr);
    }

    /** The account's queued list becomes what is left of the given one. */
    method SettleQueue(addr: Address, list: Txs, dropped: int)
      requires Indexed() && Sane(config) && AccountOk(addr, At(pending, addr), list, all.All()) && NonEmpty(queue)
      modifies `queue, `beats, all, priced
      ensures Indexed() && NonEmpty(queue) && OthersSame(old(queue), queue, addr)
      ensures OthersBeat(old(beats), beats, addr)
              && (At(queue, addr) != map[] ==> Beat(beats, addr) == Beat(old(beats), addr))
      ensures At(queue, addr) == if addr in locals then list else Capped(list, config.accountQueue)
      ensures AccountOk(addr, At(pending, addr), At(queue, addr), all.All())
      ensures forall x: Tx :: x.sender != addr ==> (x in all.All() <==> x in old(all.All()))
    {
      hide AccountOk, Capped, NonEmpty, OthersSame;
      var rest, caps := list, 0;
      if addr !in locals {
        rest, caps := CapRest(addr, list);
      }
      priced.Removed(dropped + caps);
      AtWith(queue, addr, rest);
      queue := With(queue, addr, rest);
      if addr !in queue {
        beats := beats - {addr};
      }
    }

    method CapRest(addr: Address, list: Txs) returns (kept: Txs, caps: int)
      requires Indexed() && AccountOk(addr, At(pending, addr), list, all.All()) && Sane(config)
      modifies all
      ensures Indexed() && kept == Capped(list, config.accountQueue)
              && AccountOk(addr, At(pending, addr), kept, all.All())
      ensures forall x: Tx :: x.sender != addr ==> (x in all.All() <==> x in old(all.All()))
    {
      hide AccountOk, Capped, Parts;
      kept := CapList(list, config.accountQueue);
      PartsByCap(list, config.accountQueue);
      var drops := list - kept.Keys;
      caps := |drops|;
      DropPart(addr, list, drops, kept);
    }

    method CapList(list: Txs, k: int) returns (kept: Txs)
      requires 0 <= k
      ensures kept == Capped(list, k)
    {
      kept := list;
      while |kept| > k
        invariant Capped(kept, k) == Capped(list, k)
        decreases |kept|
      {
        var n := HighestOf(kept.Keys);
        assert (kept - {n}).Keys == kept.Keys - {n};
        kept := kept - {n};
      }
    }

    method HighestOf(keys: set<Nonce>) returns (n: Nonce)
      requires keys != {}
      ensures n == Highest(keys)
    {
      n := Pick(keys);
      var rest := keys - {n};
      while rest != {}
        invariant rest <= keys && n in keys && forall k :: k in keys && k !in rest ==> k <= n
        decreases |rest|
      {
        var k := Pick(rest);
        if k > n {
          n := k;
        }
        rest := rest - {k};
      }
    }

    /** A transaction leaves the lookup, and the price index is told. */
    method Forget(tx: Tx)
      requires Indexed()
      modifies all, priced
      ensures Indexed() && all.locals == old(all.locals) - {tx} && all.remotes == old(all.remotes) - {tx}
    {
      all.Remove(tx);
      priced.Removed(1);
    }

    /** The price index has got an entry for a remote transaction. */
    twostate predicate Indexes(tx: Tx, local: bool)
      reads priced
    {
      OneMoreEntry(old(priced.urgent), old(priced.floating), old(priced.stales), priced.urgent, priced.floating,
        priced.stales, tx, local)
    }

    method Learn(tx: Tx, local: bool)
      requires Indexed() && tx !in all.All()
      modifies all, priced
      ensures Indexed() && all.locals == old(all.locals) + (if local then {tx} else {})
      ensures all.remotes == old(all.remotes) + (if local then {} else {tx})
      ensures Indexes(tx, local)
    {
      all.Add(tx, local);
      priced.Put(tx, local);
    }
  }

  /** What a list with gaps keeps of its transactions. */
  function Paid(list: Txs, costLimit: int, gasLimit: int): (r: Txs)
    ensures r == Filtered(list, false, costLimit, gasLimit)
  {
    map n | n in list && !Unpayable(list[n], costLimit, gasLimit) :: list[n]
  }

  /** What the price index loses to a discard is what was discarded. */
  lemma StillTracked(live: set<Tx>, u: seq<Tx>, f: seq<Tx>, u': seq<Tx>, f': seq<Tx>, drop: seq<Tx>)
    requires SameLive(live, multiset(u) + multiset(f), multiset(u') + multiset(f') + multiset(drop))
    ensures forall x :: x in live && (x in u || x in f) && x !in Elements(drop) ==> x in u' || x in f'
  {
    forall x | x in live && (x in u || x in f) && x !in Elements(drop) ensures x in u' || x in f' {
      assert x in multiset(u) || x in multiset(f);
      assert x !in multiset(drop);
      assert x in multiset(u') || x in multiset(f');
    }
  }

  lemma PlacedSlots(all: set<Tx>, gone: set<Tx>, tx: Tx)
    requires tx !in all
    ensures SlotSum(all - gone + {tx}) <= SlotSum(all) + NumSlots(tx)
    ensures gone == {} ==> SlotSum(all - gone + {tx}) == SlotSum(all) + NumSlots(tx)
  {
    SlotSumWithout(all + {tx}, tx);
    assert all + {tx} - {tx} == all;
    SlotSumGrows(all - gone + {tx}, all + {tx});
    if gone == {} {
      assert all - gone + {tx} == all + {tx};
    }
  }

  lemma {:induction false} CountOnce(s: seq<Tx>)
    requires forall i, j :: 0 <= i < j < |s| ==> s[i] != s[j]
    ensures |Elements(s)| == |s|
  {
    if s != [] {
      var t, last := s[..|s| - 1], s[|s| - 1];
      CountOnce(t);
      assert s == t + [last];
      assert last !in t;
      assert Elements(s) == Elements(t) + {last};
    }
  }

  lemma StillOnce(before: multiset<Tx>, after: multiset<Tx>, live: set<Tx>)
    requires SameLive(live, before, after)
    ensures NoneDoubled(before, live) ==> NoneDoubled(after, live)
  {
  }

  /** A pending transaction gives way to one of the same nonce. */
  lemma Replaced(a: Address, p: Txs, q: Txs, all: set<Tx>, tx: Tx)
    requires AccountOk(a, p, q, all) && tx.sender == a && tx.nonce in p && tx !in all
    ensures AccountOk(a, p[tx.nonce := tx], q, all - {p[tx.nonce]} + {tx}) && p[tx.nonce].sender == a
  {
    var p', all' := p[tx.nonce := tx], all - {p[tx.nonce]} + {tx};
    assert 0 <= tx.nonce <= MAX_NONCE && p[tx.nonce].nonce == tx.nonce;
    forall x: Tx | x.sender == a ensures x in all' <==> Has(p', x) || Has(q, x) {
      assert x in all <==> Has(p, x) || Has(q, x);
    }
  }

  lemma Enqueued(a: Address, p: Txs, q: Txs, all: set<Tx>, tx: Tx)
    requires AccountOk(a, p, q, all) && tx.sender == a && tx.nonce !in p && tx !in all && 0 <= tx.nonce <= MAX_NONCE
    ensures AccountOk(a, p, q[tx.nonce := tx], all - Displaced(q, tx) + {tx})
            && forall x :: x in Displaced(q, tx) ==> x.sender == a
  {
    var q', all' := q[tx.nonce := tx], all - Displaced(q, tx) + {tx};
    forall x: Tx | x.sender == a ensures x in all' <==> Has(p, x) || Has(q', x) {
      assert x in all <==> Has(p, x) || Has(q, x);
      assert x in Displaced(q, tx) ==> x.nonce == tx.nonce;
    }
  }

  lemma SameRunAt(p: Lists, p': Lists, nonces: map<Address, Nonce>, state: map<Address, Nonce>, a: Address)
    requires Contiguous(p, nonces, state) && At(p', a).Keys == At(p, a).Keys
    ensures IsRun(At(p', a), StateNonce(state, a), NextNonce(nonces, state, a))
  {
    SameRun(At(p, a), At(p', a), StateNonce(state, a), NextNonce(nonces, state, a));
  }

  lemma SameRun(p: Txs, p': Txs, lo: Nonce, hi: Nonce)
    requires IsRun(p, lo, hi) && p'.Keys == p.Keys
    ensures IsRun(p', lo, hi)
  {
  }

  lemma CappedWhole(q: Txs)
    ensures Capped(q, |q|) == q
  {
  }

  lemma CappedNone(q: Txs)
    ensures Capped(q, 0) == map[]
  {
    CappedMeans(q, 0);
  }

  /** Keeping one less means losing the highest. */
  lemma {:induction false} CappedLess(q: Txs, k: int)
    requires 0 < k <= |q|
    ensures var r := Capped(q, k);
            |r| == k && Capped(q, k - 1) == r - {Highest(r.Keys)} && |r - {Highest(r.Keys)}| == k - 1
    decreases |q|
  {
    CappedMeans(q, k);
    if |q| == k {
      var n := Highest(q.Keys);
      assert (q - {n}).Keys == q.Keys - {n};
    } else {
      var n := Highest(q.Keys);
      assert (q - {n}).Keys == q.Keys - {n};
      CappedLess(q - {n}, k);
    }
  }

  // ---- Cutting the pending lists ----

  ghost predicate Distinct(s: seq<Address>) {
    forall i, j :: 0 <= i < j < |s| ==> s[i] != s[j]
  }

  ghost predicate Lowered(p: Lists, p': Lists, accounts: seq<Address>) {
    && (forall a {:trigger At(p', a)} :: a !in accounts ==> At(p', a) == At(p, a))
    && (forall a {:trigger At(p', a)} :: a in accounts ==>
          |At(p, a)| > 1 && At(p', a) == Capped(At(p, a), |At(p, a)| - 1) && |At(p', a)| == |At(p, a)| - 1)
  }

  lemma OneLess(list: Txs, n: Nonce)
    requires n in list && n == Highest(list.Keys)
    ensures list - {n} == Capped(list, |list| - 1) && |list - {n}| == |list| - 1
  {
    assert (list - {n}).Keys == list.Keys - {n};
    CappedWhole(list - {n});
  }

  lemma TopDropped(a: Address, p: Txs, q: Txs, all: set<Tx>, n: Nonce)
    requires AccountOk(a, p, q, all) && n in p
    ensures p[n].nonce == n && p[n].sender == a && AccountOk(a, p - {n}, q, all - {p[n]})
  {
    var p' := p - {n};
    forall x: Tx | x.sender == a ensures x in all - {p[n]} <==> Has(p', x) || Has(q, x) {
      assert x in all <==> Has(p, x) || Has(q, x);
    }
  }

  lemma TopCut(list: Txs, n: Nonce)
    requires n in list && n == Highest(list.Keys)
    ensures Below(list, n) == list - {n}
  {
  }

  ghost function Shortened(p: Lists, p': Lists): set<Address> {
    set a | a in p && |At(p', a)| < |At(p, a)|
  }

  /** The pending lists are cut fairly: each account keeps its lowest nonces, local ones keep all, none goes below
      its allowance, and what is cut stays at least as long as every other remote list. */
  ghost predicate PendingCut(p: Lists, p': Lists, locals: set<Address>, allowance: int) {
    && (forall a {:trigger At(p', a)} :: |At(p', a)| <= |At(p, a)| && At(p', a) == Capped(At(p, a), |At(p', a)|))
    && (forall a {:trigger At(p', a)} :: a in locals ==> At(p', a) == At(p, a))
    && (forall a {:trigger At(p', a)} :: |At(p', a)| < |At(p, a)| ==> |At(p', a)| >= allowance)
    && (forall a, b {:trigger At(p', a), At(p', b)} :: |At(p', a)| < |At(p, a)| && b !in locals ==>
         |At(p', a)| >= |At(p', b)|)
  }

  /** The offenders taken so far: all but the last have length h, the last has length t, and whoever is still to
      come is no longer than that. Only offenders have lost anything, the last one only if it is level. */
  ghost predicate Offence(p: Lists, p': Lists, spammers: map<Address, int>, offenders: seq<Address>, h: int, t: int,
                          locals: set<Address>, allowance: int)
  {
    && Distinct(offenders) && 1 <= allowance
    && (forall a {:trigger At(p', a)} :: |At(p', a)| <= |At(p, a)| && At(p', a) == Capped(At(p, a), |At(p', a)|))
    && (forall a {:trigger At(p', a)} :: a !in offenders ==> At(p', a) == At(p, a))
    && (forall a {:trigger At(p, a)} :: a in offenders ==> a !in locals && a !in spammers && |At(p, a)| > allowance)
    && (forall a {:trigger At(p, a)} :: a !in offenders && a !in spammers && a !in locals ==> |At(p, a)| <= allowance)
    && (forall a :: a in spammers ==>
          a !in locals && allowance < spammers[a] == |At(p, a)| && (offenders != [] ==> spammers[a] <= t))
    && (offenders == [] ==> h == t)
    && (offenders != [] ==> allowance <= t <= h && |At(p', offenders[|offenders| - 1])| == t)
    && (offenders != [] && (spammers != map[] || t < h) ==> allowance < t)
    && (forall i :: 0 <= i < |offenders| - 1 ==> |At(p', offenders[i])| == h)
    && (offenders != [] && t < h ==> |At(p, offenders[|offenders| - 1])| == t)
  }

  lemma NoOffence(p: Lists, spammers: map<Address, int>, locals: set<Address>, allowance: int)
    requires 1 <= allowance
    requires spammers == map a | a in p && a !in locals && |p[a]| > allowance :: |p[a]|
    ensures Offence(p, p, spammers, [], 0, 0, locals, allowance)
  {
    forall a ensures At(p, a) == Capped(At(p, a), |At(p, a)|) { CappedWhole(At(p, a)); }
  }

  /** The next offender is the longest still to come. */
  lemma NewOffender(p: Lists, p': Lists, spammers: map<Address, int>, offenders: seq<Address>, h: int, t: int,
                    locals: set<Address>, allowance: int, c: Address)
    requires Offence(p, p', spammers, offenders, h, t, locals, allowance) && h == t
    requires c in spammers && forall b :: b in spammers ==> spammers[b] <= spammers[c]
    ensures var h' := if offenders == [] then spammers[c] else t;
            Offence(p, p', spammers - {c}, offenders + [c], h', spammers[c], locals, allowance)
  {
    hide At, Capped;
    assert c !in offenders by { assert |At(p, c)| == spammers[c]; }
    var o := offenders + [c];
    assert At(p', c) == At(p, c);
    forall i | 0 <= i < |o| - 1 ensures |At(p', o[i])| == t { assert o[i] == offenders[i]; }
  }

  lemma Lengths(p: Lists, p': Lists, spammers: map<Address, int>, offenders: seq<Address>, h: int, t: int,
                locals: set<Address>, allowance: int)
    requires Offence(p, p', spammers, offenders, h, t, locals, allowance) && offenders != []
    ensures Distinct(offenders) && Distinct(offenders[..|offenders| - 1]) && 1 <= allowance <= t <= h
    ensures |At(p', offenders[|offenders| - 1])| == t
            && forall i :: 0 <= i < |offenders| - 1 ==> |At(p', offenders[i])| == h
  {
  }

  lemma CappedTwice(m: Txs, k: int)
    requires 0 < k <= |m|
    ensures Capped(Capped(m, k), k - 1) == Capped(m, k - 1) && |Capped(m, k)| == k && |Capped(m, k - 1)| == k - 1
  {
    CappedLess(m, k);
    var r := Capped(m, k);
    OneLess(r, Highest(r.Keys));
  }

  lemma {:induction false} DistinctCount(s: seq<Address>, r: set<Address>)
    requires Distinct(s) && forall x :: x in s ==> x in r
    ensures |s| <= |r|
  {
    if s != [] {
      var t, last := s[..|s| - 1], s[|s| - 1];
      assert last !in t;
      DistinctCount(t, r - {last});
    }
  }

  /** Lowering some accounts leaves each with its lowest nonces. */
  lemma LoweredCaps(p: Lists, p': Lists, p'': Lists, accounts: seq<Address>, a: Address)
    requires Lowered(p', p'', accounts) && |At(p', a)| <= |At(p, a)| && At(p', a) == Capped(At(p, a), |At(p', a)|)
    ensures |At(p'', a)| <= |At(p, a)| && At(p'', a) == Capped(At(p, a), |At(p'', a)|)
  {
    if a in accounts {
      CappedTwice(At(p, a), |At(p', a)|);
    }
  }

  lemma AllShortened(p: Lists, p': Lists, p'': Lists, accounts: seq<Address>)
    requires Distinct(accounts) && Lowered(p', p'', accounts)
             && forall a {:trigger At(p', a)} :: |At(p', a)| <= |At(p, a)|
    ensures |Shortened(p, p'')| >= |accounts|
  {
    forall a | a in accounts ensures a in Shortened(p, p'') {
      assert |At(p'', a)| == |At(p', a)| - 1 && |At(p', a)| <= |At(p, a)|;
    }
    DistinctCount(accounts, Shortened(p, p''));
  }

  lemma RoundKeeps(p: Lists, p': Lists, p'': Lists, spammers: map<Address, int>, offenders: seq<Address>, h: int,
                   t: int,
                   locals: set<Address>, allowance: int)
    requires Offence(p, p', spammers, offenders, h, t, locals, allowance) && t < h && offenders != []
    requires Lowered(p', p'', offenders[..|offenders| - 1])
    ensures Offence(p, p'', spammers, offenders, h - 1, t, locals, allowance) && |Shortened(p, p'')| >= |offenders| - 1
  {
    hide Capped;
    var others, last := offenders[..|offenders| - 1], offenders[|offenders| - 1];
    assert last !in others;
    forall a ensures |At(p'', a)| <= |At(p, a)| && At(p'', a) == Capped(At(p, a), |At(p'', a)|) {
      assert |At(p', a)| <= |At(p, a)|;
      LoweredCaps(p, p', p'', others, a);
    }
    forall a | a !in offenders ensures At(p'', a) == At(p, a) { assert a !in others; }
    forall i | 0 <= i < |offenders| - 1 ensures |At(p'', offenders[i])| == h - 1 { assert others[i] in others; }
    AllShortened(p, p', p'', others);
  }

  lemma LastRoundKeeps(p: Lists, p': Lists, p'': Lists, offenders: seq<Address>, t: int, locals: set<Address>,
                       allowance: int)
    requires Offence(p, p', map[], offenders, t, t, locals, allowance) && allowance < t && offenders != []
    requires Lowered(p', p'', offenders)
    ensures Offence(p, p'', map[], offenders, t - 1, t - 1, locals, allowance) && |Shortened(p, p'')| >= |offenders|
  {
    hide Capped;
    forall a ensures |At(p'', a)| <= |At(p, a)| && At(p'', a) == Capped(At(p, a), |At(p'', a)|) {
      assert |At(p', a)| <= |At(p, a)|;
      LoweredCaps(p, p', p'', offenders, a);
    }
    forall i | 0 <= i < |offenders| ensures |At(p'', offenders[i])| == t - 1 { assert offenders[i] in offenders; }
    AllShortened(p, p', p'', offenders);
  }

  lemma OffenderLengths(p: Lists, p': Lists, spammers: map<Address, int>, offenders: seq<Address>, h: int, t: int,
                        locals: set<Address>, allowance: int, a: Address)
    requires Offence(p, p', spammers, offenders, h, t, locals, allowance) && a in offenders
    ensures allowance <= |At(p', a)| <= h && (|At(p', a)| < |At(p, a)| || h == t ==> |At(p', a)| == h)
  {
    var i :| 0 <= i < |offenders| && offenders[i] == a;
  }

  lemma OthersLengths(p: Lists, p': Lists, spammers: map<Address, int>, offenders: seq<Address>, h: int, t: int,
                      locals: set<Address>, allowance: int, b: Address)
    requires Offence(p, p', spammers, offenders, h, t, locals, allowance) && b !in offenders && b !in locals
    ensures At(p', b) == At(p, b) && (spammers == map[] ==> |At(p', b)| <= allowance)
    ensures offenders != [] ==> |At(p', b)| <= h
  {
    assert At(p', b) == At(p, b);
  }

  /** What the offenders' state means for everybody. */
  lemma CutEnds(p: Lists, p': Lists, spammers: map<Address, int>, offenders: seq<Address>, h: int, t: int,
                locals: set<Address>, allowance: int)
    requires Offence(p, p', spammers, offenders, h, t, locals, allowance)
    ensures PendingCut(p, p', locals, allowance)
    ensures spammers == map[] && (offenders == [] || (h == t && t <= allowance)) ==>
              forall a :: a !in locals ==> |At(p', a)| <= allowance
  {
    hide Capped, Offence, At;
    CutKeepsLowest(p, p', spammers, offenders, h, t, locals, allowance);
    forall a | |At(p', a)| < |At(p, a)| ensures |At(p', a)| >= allowance {
      OffenderLengths(p, p', spammers, offenders, h, t, locals, allowance, a);
    }
    forall a, b | |At(p', a)| < |At(p, a)| && b !in locals ensures |At(p', a)| >= |At(p', b)| {
      FairPair(p, p', spammers, offenders, h, t, locals, allowance, a, b);
    }
    if spammers == map[] && (offenders == [] || (h == t && t <= allowance)) {
      forall a | a !in locals ensures |At(p', a)| <= allowance {
        if a in offenders {
          OffenderLengths(p, p', spammers, offenders, h, t, locals, allowance, a);
        } else {
          OthersLengths(p, p', spammers, offenders, h, t, locals, allowance, a);
        }
      }
    }
  }

  lemma FairPair(p: Lists, p': Lists, spammers: map<Address, int>, offenders: seq<Address>, h: int, t: int,
                 locals: set<Address>, allowance: int, a: Address, b: Address)
    requires Offence(p, p', spammers, offenders, h, t, locals, allowance)
    requires a in offenders && |At(p', a)| < |At(p, a)| && b !in locals
    ensures |At(p', a)| >= |At(p', b)|
  {
    hide Offence;
    OffenderLengths(p, p', spammers, offenders, h, t, locals, allowance, a);
    if b in offenders {
      OffenderLengths(p, p', spammers, offenders, h, t, locals, allowance, b);
    } else {
      OthersLengths(p, p', spammers, offenders, h, t, locals, allowance, b);
    }
  }

  lemma CutKeepsLowest(p: Lists, p': Lists, spammers: map<Address, int>, offenders: seq<Address>, h: int, t: int,
                       locals: set<Address>, allowance: int)
    requires Offence(p, p', spammers, offenders, h, t, locals, allowance)
    ensures forall a {:trigger At(p', a)} :: |At(p', a)| <= |At(p, a)| && At(p', a) == Capped(At(p, a), |At(p', a)|)
    ensures forall a {:trigger At(p', a)} :: a in locals ==> At(p', a) == At(p, a)
    ensures forall a {:trigger At(p', a)} :: |At(p', a)| < |At(p, a)| ==> a in offenders
  {
    hide Capped;
  }

  /** Cutting lists from the top leaves their first nonces. */
  lemma StillStarts(p: Lists, p': Lists, locals: set<Address>, allowance: int, state: map<Address, Nonce>)
    requires PendingCut(p, p', locals, allowance) && 1 <= allowance && NonEmpty(p')
    requires AllStart(p, state)
    ensures AllStart(p', state)
  {
    hide Capped;
    forall a | a in p' ensures StartsAt(p'[a], StateNonce(state, a)) {
      assert At(p', a) == p'[a];
      CappedMeans(At(p, a), |At(p', a)|);
      assert a in p;
      assert StartsAt(p[a], StateNonce(state, a));
      var k := Lowest(p'[a].Keys);
    }
  }

  /** Every list starts at its account's nonce. */
  ghost predicate AllStart(p: Lists, state: map<Address, Nonce>) {
    forall a :: a in p ==> StartsAt(p[a], StateNonce(state, a))
  }

  ghost predicate StartsAt(t: Txs, n: Nonce) { IsLowest(t.Keys, n) }

  // ---- Cutting the queue ----

  /** The queue is cut fairly: each account keeps its lowest nonces, local ones keep all, and an account loses
      something only if no other remote account with anything left has an older heartbeat. */
  ghost predicate QueueCut(q: Lists, q': Lists, locals: set<Address>, beats: map<Address, int>) {
    && (forall a {:trigger At(q', a)} :: |At(q', a)| <= |At(q, a)| && At(q', a) == Capped(At(q, a), |At(q', a)|))
    && (forall a {:trigger At(q', a)} :: a in locals ==> At(q', a) == At(q, a))
    && (forall a, b {:trigger At(q', a), At(q', b)} ::
          a != b && |At(q', a)| < |At(q, a)| && b !in locals && At(q', b) != map[] ==> Beat(beats, a) <= Beat(beats, b))
  }

  /** The accounts not looked at are as they were. */
  ghost predicate Waits(q: Lists, q': Lists, waiting: set<Address>) {
    forall a {:trigger At(q', a)} :: a in waiting ==> At(q', a) == At(q, a)
  }

  /** The remote accounts already looked at have nothing left. */
  ghost predicate Emptied(q: Lists, locals: set<Address>, waiting: set<Address>) {
    forall a {:trigger At(q, a)} :: a !in locals && a !in waiting ==> At(q, a) == map[]
  }

  lemma NothingCut(q: Lists, locals: set<Address>, beats: map<Address, int>)
    ensures QueueCut(q, q, locals, beats) && Emptied(q, locals, q.Keys - locals) && Waits(q, q, q.Keys - locals)
  {
    forall a ensures At(q, a) == Capped(At(q, a), |At(q, a)|) { CappedWhole(At(q, a)); }
  }

  ghost predicate OldestLast(s: seq<Address>, accounts: set<Address>, beats: map<Address, int>) {
    multiset(s) == multiset(accounts) && forall i, j :: 0 <= i < j < |s| ==> Beat(beats, s[j]) <= Beat(beats, s[i])
  }

  lemma TakeLast(s: seq<Address>, accounts: set<Address>)
    requires multiset(s) == multiset(accounts) && s != []
    ensures s[|s| - 1] in accounts && multiset(s[..|s| - 1]) == multiset(accounts - {s[|s| - 1]})
  {
    var a, rest := s[|s| - 1], s[..|s| - 1];
    assert s == rest + [a];
    assert a in multiset(s);
    assert multiset(accounts) == multiset(accounts - {a}) + multiset{a};
    assert multiset(rest) == multiset(s) - multiset{a};
  }

  lemma OldestTaken(s: seq<Address>, accounts: set<Address>, beats: map<Address, int>)
    requires OldestLast(s, accounts, beats) && s != []
    ensures var a, rest := s[|s| - 1], s[..|s| - 1];
            a in accounts && OldestLast(rest, accounts - {a}, beats)
              && forall b :: b in accounts ==> Beat(beats, a) <= Beat(beats, b)
  {
    var a := s[|s| - 1];
    TakeLast(s, accounts);
    forall b | b in accounts ensures Beat(beats, a) <= Beat(beats, b) {
      assert b in multiset(s);
      var i :| 0 <= i < |s| && s[i] == b;
    }
  }

  lemma NoneLeft(q: Lists, locals: set<Address>)
    requires Emptied(q, locals, {})
    ensures forall a :: a !in locals ==> At(q, a) == map[]
  {
  }

  lemma NoneWaiting(s: seq<Address>, accounts: set<Address>, beats: map<Address, int>)
    requires OldestLast(s, accounts, beats) && s == []
    ensures accounts == {}
  {
    assert |multiset(accounts)| == 0;
  }

  lemma QueueCutStep(q0: Lists, q: Lists, q': Lists, waiting: set<Address>, locals: set<Address>,
                     beats: map<Address, int>, c: Address)
    requires QueueCut(q0, q, locals, beats) && Waits(q0, q, waiting) && Emptied(q, locals, waiting)
    requires c in waiting && c !in locals && OthersSame(q, q', c)
             && forall b :: b in waiting ==> Beat(beats, c) <= Beat(beats, b)
    requires |At(q', c)| <= |At(q, c)| && At(q', c) == Capped(At(q, c), |At(q', c)|)
    ensures QueueCut(q0, q', locals, beats) && Waits(q0, q', waiting - {c})
    ensures At(q', c) == map[] ==> Emptied(q', locals, waiting - {c})
  {
    assert At(q, c) == At(q0, c);
    forall a, b | a != b && |At(q', a)| < |At(q0, a)| && b !in locals && At(q', b) != map[]
      ensures Beat(beats, a) <= Beat(beats, b)
    {
      assert At(q, b) != map[];
    }
  }

  lemma NothingElse(q: Lists, q': Lists, locals: set<Address>, beats: map<Address, int>)
    requires QueueCut(q, q', locals, beats) && Emptied(q', locals, {})
    ensures forall a :: a !in q.Keys * locals ==> At(q', a) == map[]
  {
    hide Capped;
    forall a | a !in q.Keys * locals ensures At(q', a) == map[] { assert a in locals ==> At(q', a) == At(q, a); }
  }

  lemma CountCut(q: Lists, q': Lists, locals: set<Address>, beats: map<Address, int>, enough: bool, limit: int)
    requires QueueCut(q, q', locals, beats) && Total(q) > limit
    requires if enough then Total(q') == limit else Total(q') > limit && Emptied(q', locals, {})
    ensures var excess, remote := Total(q) - limit, Sum(q.Keys - locals, q);
            Total(q) - Total(q') == if excess <= remote then excess else remote
  {
    hide Sum, Total, Capped, Beat, At;
    var kept, keys := q.Keys * locals, q.Keys + q'.Keys;
    var others := keys - kept;
    TotalSplit(q, locals);
    forall a | a in kept ensures |At(q', a)| == |At(q, a)| { assert At(q', a) == At(q, a); }
    SumSame(kept, q, q');
    TotalOver(keys, q');
    SumSplit(kept, others, q');
    assert kept + others == keys;
    if !enough {
      NothingElse(q, q', locals, beats);
      SumNone(others, q');
    }
  }

  lemma NoneQueued(q: Txs, s: Nonce, cost: int, gas: int, next: Nonce, k: int)
    requires q == map[] && 0 <= k
    ensures var list := PayableOf(q, s, cost, gas);
            Readied(list, next) == map[] && list - Readied(list, next).Keys == map[] && Capped(map[], k) == map[]
  {
    NothingQueued(q, s, cost, gas, next, k);
  }

  lemma ReadyIsPart(q: Txs, nonce: Nonce, balance: int, gas: int, next: Nonce)
    ensures var list := PayableOf(q, nonce, balance, gas);
            Readied(list, next).Keys <= list.Keys
              && forall n :: n in Readied(list, next) ==> Readied(list, next)[n] == q[n]
  {
    hide GapBelow;
  }

  /** The contents have the transaction, pending or queued. */
  predicate Holds(c: Contents, x: Tx) { Has(At(c.pending, x.sender), x) || Has(At(c.queue, x.sender), x) }

  /** One of these has the sender and the nonce of the transaction. */
  ghost predicate Ousted(x: Tx, txs: seq<Tx>) { exists i :: 0 <= i < |txs| && SamePlace(x, txs[i]) }

  lemma LocalsHeld(locals: set<Tx>, locals': set<Tx>, pending: Lists, queue: Lists, all: set<Tx>,
                   nonces: map<Address, Nonce>, beats: map<Address, int>, txs: seq<Tx>)
    requires Consistent(pending, queue, all) && locals' <= all
             && forall x :: x in locals ==> x in locals' || Ousted(x, txs)
    ensures forall x :: x in locals ==> Holds(Contents(pending, queue, nonces, beats), x) || Ousted(x, txs)
  {
    forall x | x in locals ensures Holds(Contents(pending, queue, nonces, beats), x) || Ousted(x, txs) {
      if x in locals' {
        AccountIn(pending, queue, all, x.sender);
      }
    }
  }

  lemma NothingQueued(q: Txs, s: Nonce, cost: int, gas: int, next: Nonce, k: int)
    requires q == map[] && 0 <= k
    ensures var list := Filtered(AtLeast(q, s), false, cost, gas);
            list == map[] && Readied(list, next) == map[] && list - Readied(list, next).Keys == map[]
              && Capped(map[], k) == map[]
  {
  }

  lemma Apart(a: Address, p: Txs, q: Txs, all: set<Tx>)
    requires AccountOk(a, p, q, all)
    ensures p.Keys !! q.Keys && Keyed(q)
  {
  }

  lemma PartsKeyed(a: Address, p: Txs, q: Txs, all: set<Tx>, drop: Txs, rest: Txs)
    requires AccountOk(a, p, q, all) && Parts(p, drop, rest)
    ensures Keyed(drop)
  {
  }

  lemma PartsLeft(paid: Txs, strict: Txs, invalids: Txs, kept: Txs)
    requires Parts(paid, invalids, strict) && (kept == strict || kept == map[])
    ensures Parts(paid, paid - kept.Keys, kept)
  {
  }

  lemma PrunedFrom(q: Txs, list: Txs, s: Nonce, cost: int, gas: int)
    requires list == Filtered(AtLeast(q, s), false, cost, gas)
    ensures forall n :: n in list ==> s <= n
  {
  }

  lemma PromotionRuns(p: Txs, list: Txs, s: Nonce, next: Nonce, lo: Nonce, hi: Nonce)
    requires IsRun(p, s, next)
    requires p.Keys !! list.Keys && Keyed(list) && (forall n :: n in list ==> s <= n)
    requires lo <= hi && (forall k :: lo <= k < hi ==> k in list) && (lo < hi ==> lo <= next && IsLowest(list.Keys, lo))
    ensures var p', next' := p + Between(list, lo, hi), if lo < hi then hi % NONCES else next;
            IsRun(p', s, next') <==> MAX_NONCE !in Between(list, lo, hi)
  {
    if lo < hi {
      RunExtended(p, list, s, next, lo, hi);
    } else {
      assert p + Between(list, lo, hi) == p;
    }
  }

  lemma NothingBetween(p: Txs, list: Txs, lo: Nonce)
    ensures Between(list, lo, lo) == map[] && p + Between(list, lo, lo) == p
            && list - Between(list, lo, lo).Keys == list
  {
  }

  lemma OneMoreBetween(a: Address, p: Txs, list: Txs, lo: Nonce, n: Nonce, all: set<Tx>)
    requires n in list && lo <= n && AccountOk(a, p + Between(list, lo, n), list - Between(list, lo, n).Keys, all)
    ensures list[n].nonce == n && list[n].sender == a && 0 <= n <= MAX_NONCE && n !in p + Between(list, lo, n)
    ensures (p + Between(list, lo, n))[n := list[n]] == p + Between(list, lo, n + 1)
    ensures AccountOk(a, p + Between(list, lo, n + 1), list - Between(list, lo, n + 1).Keys, all)
    ensures forall x :: Has(Between(list, lo, n + 1), x) <==> Has(Between(list, lo, n), x) || x == list[n]
  {
    var q := list - Between(list, lo, n).Keys;
    assert n in q && q[n] == list[n];
    MovedUp(a, p + Between(list, lo, n), q, all, n);
    assert (p + Between(list, lo, n))[n := list[n]] == p + Between(list, lo, n + 1);
    assert q - {n} == list - Between(list, lo, n + 1).Keys;
    forall x ensures Has(Between(list, lo, n + 1), x) <==> Has(Between(list, lo, n), x) || x == list[n] {
      assert x.nonce in Between(list, lo, n + 1) <==> x.nonce in Between(list, lo, n) || x.nonce == n;
    }
  }

  lemma OneMoved(q: Txs, txs: Txs, rest: set<Nonce>, n: Nonce)
    requires n in rest && rest <= txs.Keys && txs.Keys !! q.Keys
    ensures n !in q + (txs - rest) && (q + (txs - rest))[n := txs[n]] == q + (txs - (rest - {n}))
  {
  }

  /** Of an account's transactions, those neither old nor beyond its means. */
  ghost function PayableOf(t: Txs, nonce: Nonce, balance: int, gas: int): Txs {
    Filtered(AtLeast(t, nonce), false, balance, gas)
  }

  /** Of an account's pending transactions, those a head leaves executable: up to the first one it cannot pay, if they
      start at its nonce. */
  ghost function ExecutableOf(t: Txs, nonce: Nonce, balance: int, gas: int): Txs {
    var list := Filtered(AtLeast(t, nonce), true, balance, gas);
    if nonce in list then list else map[]
  }

  /** Promoting a part of what is payable and demoting what is not executable loses nothing payable. */
  lemma PayableStays(p: Txs, q: Txs, run: Txs, nonce: Nonce, balance: int, gas: int)
    requires p.Keys !! q.Keys && run.Keys <= PayableOf(q, nonce, balance, gas).Keys
             && forall n :: n in run ==> run[n] == q[n]
    ensures var left := ExecutableOf(p + run, nonce, balance, gas);
            left + (PayableOf(q, nonce, balance, gas) - run.Keys
              + (PayableOf(p + run, nonce, balance, gas) - left.Keys))
              == PayableOf(p + q, nonce, balance, gas)
  {
    hide GapBelow;
  }

  /** The last heartbeat of an account; 0 stands for the zero time. */
  function Beat(beats: map<Address, int>, a: Address): int {
    if a in beats then beats[a] else 0
  }

  ghost predicate OthersBeat(m: map<Address, int>, m': map<Address, int>, a: Address) {
    forall b {:trigger Beat(m', b)} :: b != a ==> Beat(m', b) == Beat(m, b)
  }

  /** The list in which a transaction competes: the pending one if it has the nonce, and else the queued one. */
  function Rival(pending: Lists, queue: Lists, tx: Tx): Txs {
    if tx.nonce in At(pending, tx.sender) then At(pending, tx.sender) else At(queue, tx.sender)
  }

  predicate SamePlace(x: Tx, tx: Tx) { x.sender == tx.sender && x.nonce == tx.nonce }

  /** No transaction has the sender and the nonce of this one. */
  ghost predicate NoRival(all: set<Tx>, tx: Tx) {
    forall x :: x in all ==> !SamePlace(x, tx)
  }

  lemma FewerRivals(all: set<Tx>, all': set<Tx>, tx: Tx)
    requires all' <= all
    ensures NoRival(all, tx) ==> NoRival(all', tx)
  {
  }

  /** What a transaction can displace has its sender and its nonce. */
  lemma RivalsAre(p: Lists, q: Lists, all: set<Tx>, tx: Tx)
    requires Consistent(p, q, all)
    ensures forall x :: x in Displaced(Rival(p, q, tx), tx) ==> x in all && SamePlace(x, tx)
    ensures NoRival(all, tx) ==> Displaced(Rival(p, q, tx), tx) == {}
  {
    AccountIn(p, q, all, tx.sender);
    forall x | x in Displaced(Rival(p, q, tx), tx) ensures x in all && SamePlace(x, tx) {
      assert Has(At(p, tx.sender), x) || Has(At(q, tx.sender), x);
    }
  }

  /** The transaction took its place in that list, and nothing else changed. */
  ghost predicate TookPlace(p: Lists, q: Lists, p': Lists, q': Lists, tx: Tx) {
    && OthersSame(p, p', tx.sender) && OthersSame(q, q', tx.sender)
    && if tx.nonce in At(p, tx.sender)
       then At(p', tx.sender) == At(p, tx.sender)[tx.nonce := tx] && At(q', tx.sender) == At(q, tx.sender)
       else At(q', tx.sender) == At(q, tx.sender)[tx.nonce := tx] && At(p', tx.sender) == At(p, tx.sender)
  }

  function Displaced(list: Txs, tx: Tx): set<Tx> {
    if tx.nonce in list then {list[tx.nonce]} else {}
  }
}
