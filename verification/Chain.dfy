/** Blocks, their ancestry, and the two walks that find where two branches meet:
    `reorg` in `blockchain/octopus_blockchain.go` and the one inside `TxPool.reset`. */
module Chain {
  import opened Basics

  type Hash = int
  type TxHash = int

  const ZERO_HASH: Hash := 0
  const MAX_UINT64: int := 0xffff_ffff_ffff_ffff

  datatype Block = Block(hash: Hash, parent: Hash, number: int, difficulty: int, txs: seq<TxHash>)

  /** The block store, by hash: a hash determines its block. */
  type Store = map<Hash, Block>

  /** Blocks sit under their own hash. No block has the last uint64 number, which is what
      number - 1 wraps to below the genesis block. */
  ghost predicate Keyed(store: Store) {
    forall h :: h in store ==> store[h].hash == h && 0 <= store[h].number < MAX_UINT64
  }

  ghost predicate Stored(store: Store, b: Block) {
    b.hash in store && store[b.hash] == b
  }

  /** GetBlock(hash, number) */
  function GetBlock(store: Store, h: Hash, n: int): Option<Block> {
    if h in store && store[h].number == n then Some(store[h]) else None
  }

  /** number - 1 in uint64 arithmetic. */
  function Below(n: int): int {
    if n == 0 then MAX_UINT64 else n - 1
  }

  function Parent(store: Store, b: Block): Option<Block> {
    GetBlock(store, b.parent, Below(b.number))
  }

  /** The k-th parent. */
  function Ancestor(store: Store, b: Block, k: nat): Option<Block> {
    if k == 0 then Some(b)
    else
      match Ancestor(store, b, k - 1)
      case None => None
      case Some(x) => Parent(store, x)
  }

  /** The first k blocks on the way down from b. */
  function Branch(store: Store, b: Block, k: nat): (r: seq<Block>)
    requires k > 0 ==> Ancestor(store, b, k - 1).Some?
    ensures |r| == k
  {
    if k == 0 then []
    else AncestorsBelow(store, b, k - 1); Branch(store, b, k - 1) + [Ancestor(store, b, k - 1).value]
  }

  lemma {:induction false} AncestorsBelow(store: Store, b: Block, k: nat)
    requires Ancestor(store, b, k).Some?
    ensures forall i :: 0 <= i <= k ==> Ancestor(store, b, i).Some?
  {
    if k > 0 { AncestorsBelow(store, b, k - 1); }
  }

  lemma {:induction false} AncestorNumber(store: Store, b: Block, k: nat)
    requires Keyed(store) && Stored(store, b) && Ancestor(store, b, k).Some?
    ensures var x := Ancestor(store, b, k).value; Stored(store, x) && x.number == b.number - k
  {
    if k > 0 { AncestorNumber(store, b, k - 1); }
  }

  /** Going i blocks down from a and j down from b reaches the same block. */
  ghost predicate Meet(store: Store, a: Block, b: Block, i: nat, j: nat) {
    Ancestor(store, a, i).Some? && Ancestor(store, a, i) == Ancestor(store, b, j)
  }

  /** ... and no block above it is an ancestor of both. */
  ghost predicate Fork(store: Store, a: Block, b: Block, i: nat, j: nat) {
    Meet(store, a, b, i, j) && forall p: nat, q: nat :: Meet(store, a, b, p, q) ==> i <= p && j <= q
  }

  lemma ForkIsUnique(store: Store, a: Block, b: Block, i: nat, j: nat, p: nat, q: nat)
    requires Fork(store, a, b, i, j) && Fork(store, a, b, p, q)
    ensures i == p && j == q
  {
    assert Meet(store, a, b, p, q) && Meet(store, a, b, i, j);
  }

  lemma MeetNumbers(store: Store, a: Block, b: Block, i: nat, j: nat)
    requires Keyed(store) && Stored(store, a) && Stored(store, b) && Meet(store, a, b, i, j)
    ensures a.number - i == b.number - j
  {
    AncestorNumber(store, a, i);
    AncestorNumber(store, b, j);
  }

  // ---- The state of a walk ----

  /** x is i below a, y is j below b, and the branches do not meet above them. */
  ghost predicate Walking(store: Store, a: Block, b: Block, i: nat, j: nat, x: Block, y: Block) {
    && Keyed(store) && Stored(store, a) && Stored(store, b)
    && Ancestor(store, a, i) == Some(x) && Ancestor(store, b, j) == Some(y)
    && forall p: nat, q: nat :: Meet(store, a, b, p, q) ==> i <= p && j <= q
  }

  lemma WalkStart(store: Store, a: Block, b: Block)
    requires Keyed(store) && Stored(store, a) && Stored(store, b)
    ensures Walking(store, a, b, 0, 0, a, b)
  {
  }

  /** The higher of two blocks at different numbers is not shared. */
  lemma WalkDownHigher(store: Store, a: Block, b: Block, i: nat, j: nat, x: Block, y: Block)
    requires Walking(store, a, b, i, j, x, y) && x.number > y.number
    ensures Stored(store, x) && Stored(store, y)
    ensures match Parent(store, x)
            case Some(z) => Walking(store, a, b, i + 1, j, z, y) && z.number == x.number - 1
            case None => forall p: nat, q: nat :: !Meet(store, a, b, p, q)
  {
    AncestorNumber(store, a, i);
    AncestorNumber(store, b, j);
    forall p: nat, q: nat | Meet(store, a, b, p, q)
      ensures i + 1 <= p && Parent(store, x).Some?
    {
      MeetNumbers(store, a, b, p, q);
      AncestorsBelow(store, a, p);
      assert Ancestor(store, a, i + 1) == Parent(store, x);
    }
    if Parent(store, x).Some? { AncestorNumber(store, a, i + 1); }
  }

  lemma WalkSwap(store: Store, a: Block, b: Block, i: nat, j: nat, x: Block, y: Block)
    requires Walking(store, a, b, i, j, x, y)
    ensures Walking(store, b, a, j, i, y, x)
  {
    forall p: nat, q: nat | Meet(store, b, a, p, q)
      ensures j <= p && i <= q
    {
      assert Meet(store, a, b, q, p);
    }
  }

  /** Two different blocks at one number: the meeting point, if any, is below both. */
  lemma WalkDownBoth(store: Store, a: Block, b: Block, i: nat, j: nat, x: Block, y: Block)
    requires Walking(store, a, b, i, j, x, y) && x.number == y.number && x.hash != y.hash
    ensures match (Parent(store, x), Parent(store, y))
            case (Some(z), Some(w)) => Walking(store, a, b, i + 1, j + 1, z, w) && z.number == w.number == x.number - 1
            case _ => forall p: nat, q: nat :: !Meet(store, a, b, p, q)
  {
    AncestorNumber(store, a, i);
    AncestorNumber(store, b, j);
    forall p: nat, q: nat | Meet(store, a, b, p, q)
      ensures i + 1 <= p && j + 1 <= q && Parent(store, x).Some? && Parent(store, y).Some?
    {
      MeetNumbers(store, a, b, p, q);
      AncestorsBelow(store, a, p);
      AncestorsBelow(store, b, q);
      assert Ancestor(store, a, i + 1) == Parent(store, x) && Ancestor(store, b, j + 1) == Parent(store, y);
    }
    if Parent(store, x).Some? { AncestorNumber(store, a, i + 1); }
    if Parent(store, y).Some? { AncestorNumber(store, b, j + 1); }
  }

  lemma WalkMeets(store: Store, a: Block, b: Block, i: nat, j: nat, x: Block, y: Block)
    requires Walking(store, a, b, i, j, x, y) && x.hash == y.hash
    ensures x == y && Fork(store, a, b, i, j)
  {
    AncestorNumber(store, a, i);
    AncestorNumber(store, b, j);
  }

  // ---- reorg ----

  datatype WalkError = InvalidOldChain | InvalidNewChain

  datatype WalkResult<+T> = Met(value: T) | Failed(error: WalkError)

  datatype Reorganisation = Reorganisation(common: Block, oldChain: seq<Block>, newChain: seq<Block>)

  /** What a walk from `old` and `new` owes its caller. */
  ghost predicate Splits(store: Store, old_: Block, new_: Block, r: Reorganisation) {
    && Fork(store, old_, new_, |r.oldChain|, |r.newChain|)
    && Ancestor(store, old_, |r.oldChain|) == Some(r.common)
    && (AncestorsBelow(store, old_, |r.oldChain|); r.oldChain == Branch(store, old_, |r.oldChain|))
    && (AncestorsBelow(store, new_, |r.newChain|); r.newChain == Branch(store, new_, |r.newChain|))
  }

  /** Walking, with the blocks passed collected in the two chains. */
  ghost predicate Collected(store: Store, a: Block, b: Block, x: Block, y: Block, xs: seq<Block>, ys: seq<Block>) {
    && Walking(store, a, b, |xs|, |ys|, x, y)
    && (AncestorsBelow(store, a, |xs|); xs == Branch(store, a, |xs|))
    && (AncestorsBelow(store, b, |ys|); ys == Branch(store, b, |ys|))
  }

  /** Follows the branch of a down to the number of b, collecting the blocks it passes. */
  method Level(store: Store, a: Block, b: Block) returns (x: Option<Block>, xs: seq<Block>)
    requires Keyed(store) && Stored(store, a) && Stored(store, b) && a.number >= b.number
    ensures x.Some? ==> Collected(store, a, b, x.value, b, xs, []) && x.value.number == b.number
    ensures x.None? ==> forall p: nat, q: nat :: !Meet(store, a, b, p, q)
  {
    WalkStart(store, a, b);
    x, xs := Some(a), [];
    while x.Some? && x.value.number != b.number
      invariant x.Some? ==> Collected(store, a, b, x.value, b, xs, []) && x.value.number >= b.number
      invariant x.None? ==> forall p: nat, q: nat :: !Meet(store, a, b, p, q)
      decreases if x.Some? then x.value.number - b.number + 1 else 0
    {
      WalkDownHigher(store, a, b, |xs|, 0, x.value, b);
      xs := xs + [x.value];
      x := GetBlock(store, x.value.parent, Below(x.value.number));
    }
  }

  /** The common-ancestor walk of BlockChain.reorg. */
  method Reorg(store: Store, oldBlock: Block, newBlock: Block) returns (r: WalkResult<Reorganisation>)
    requires Keyed(store) && Stored(store, oldBlock) && Stored(store, newBlock)
    ensures r.Met? ==> Splits(store, oldBlock, newBlock, r.value)
    ensures r.Failed? ==> forall p: nat, q: nat :: !Meet(store, oldBlock, newBlock, p, q)
  {
    var x, y := oldBlock, newBlock;
    var oldChain, newChain: seq<Block> := [], [];
    if oldBlock.number > newBlock.number {
      var level;
      level, oldChain := Level(store, oldBlock, newBlock);
      if level.None? {
        return Failed(InvalidOldChain);
      }
      x := level.value;
    } else {
      var level;
      level, newChain := Level(store, newBlock, oldBlock);
      SwapMeets(store, newBlock, oldBlock);
      if level.None? {
        return Failed(InvalidNewChain);
      }
      y := level.value;
      WalkSwap(store, newBlock, oldBlock, |newChain|, 0, y, x);
    }
    while x.hash != y.hash
      invariant Collected(store, oldBlock, newBlock, x, y, oldChain, newChain) && x.number == y.number
      decreases x.number
    {
      WalkDownBoth(store, oldBlock, newBlock, |oldChain|, |newChain|, x, y);
      AncestorNumber(store, oldBlock, |oldChain|);
      oldChain := oldChain + [x];
      newChain := newChain + [y];
      var px := GetBlock(store, x.parent, Below(x.number));
      var py := GetBlock(store, y.parent, Below(y.number));
      if px.None? {
        return Failed(InvalidOldChain);
      }
      if py.None? {
        return Failed(InvalidNewChain);
      }
      x, y := px.value, py.value;
    }
    WalkMeets(store, oldBlock, newBlock, |oldChain|, |newChain|, x, y);
    r := Met(Reorganisation(x, oldChain, newChain));
  }

  lemma SwapMeets(store: Store, a: Block, b: Block)
    ensures (forall p: nat, q: nat :: !Meet(store, a, b, p, q)) ==> forall p: nat, q: nat :: !Meet(store, b, a, p, q)
  {
    if forall p: nat, q: nat :: !Meet(store, a, b, p, q) {
      forall p: nat, q: nat ensures !Meet(store, b, a, p, q) { assert !Meet(store, a, b, q, p); }
    }
  }

  /** Two walks over one store find the same blocks. */
  lemma SplitIsUnique(store: Store, a: Block, b: Block, r: Reorganisation, s: Reorganisation)
    requires Splits(store, a, b, r) && Splits(store, a, b, s)
    ensures r == s
  {
    ForkIsUnique(store, a, b, |r.oldChain|, |r.newChain|, |s.oldChain|, |s.newChain|);
  }

  /** Every block but the genesis has its parent in the store. */
  ghost predicate ParentLinked(store: Store, genesis: Block) {
    && Keyed(store) && Stored(store, genesis) && genesis.number == 0
    && forall h :: h in store && store[h] != genesis ==> Parent(store, store[h]).Some?
  }

  lemma {:induction false} ReachesDown(store: Store, genesis: Block, b: Block, k: nat)
    requires ParentLinked(store, genesis) && Stored(store, b) && k <= b.number
    ensures Ancestor(store, b, k).Some?
    ensures k == b.number ==> Ancestor(store, b, k) == Some(genesis)
  {
    if k > 0 {
      ReachesDown(store, genesis, b, k - 1);
      AncestorNumber(store, b, k - 1);
      var x := Ancestor(store, b, k - 1).value;
      assert store[x.hash] == x;
    }
    AncestorNumber(store, b, k);
    if k == b.number {
      var x := Ancestor(store, b, k).value;
      assert x.number == 0 && store[x.hash] == x;
    }
  }

  /** On a parent-linked store any two blocks meet, so the walk of reorg cannot fail. */
  lemma LinkedBranchesMeet(store: Store, genesis: Block, a: Block, b: Block)
    requires ParentLinked(store, genesis) && Stored(store, a) && Stored(store, b)
    ensures Meet(store, a, b, a.number, b.number)
  {
    ReachesDown(store, genesis, a, a.number);
    ReachesDown(store, genesis, b, b.number);
  }

  // ---- TxPool.reset ----

  function TxsOf(blocks: seq<Block>): seq<TxHash> {
    if blocks == [] then [] else TxsOf(blocks[..|blocks| - 1]) + blocks[|blocks| - 1].txs
  }

  lemma TxsOfSnoc(blocks: seq<Block>, b: Block)
    ensures TxsOf(blocks + [b]) == TxsOf(blocks) + b.txs
  {
    assert (blocks + [b])[..|blocks|] == blocks;
  }

  /** The walk inside TxPool.reset: three loops that collect transactions instead of blocks. */
  method ResetWalk(store: Store, oldHead: Block, newHead: Block)
    returns (r: WalkResult<(seq<TxHash>, seq<TxHash>)>, ghost split: Reorganisation)
    requires Keyed(store) && Stored(store, oldHead) && Stored(store, newHead)
    ensures r.Met? ==>
              Splits(store, oldHead, newHead, split) && r.value == (TxsOf(split.oldChain), TxsOf(split.newChain))
    ensures r.Failed? ==> forall p: nat, q: nat :: !Meet(store, oldHead, newHead, p, q)
  {
    var rem, add := oldHead, newHead;
    var discarded, included: seq<TxHash> := [], [];
    ghost var xs, ys: seq<Block> := [], [];
    split := Reorganisation(oldHead, [], []);
    assert TxsOf([]) == [];
    hide TxsOf, Meet, Parent;
    WalkStart(store, rem, add);
    while rem.number > add.number
      invariant Collected(store, oldHead, newHead, rem, add, xs, ys) && add == newHead && ys == []
      invariant discarded == TxsOf(xs)
      decreases rem.number - add.number
    {
      WalkDownHigher(store, oldHead, newHead, |xs|, |ys|, rem, add);
      TxsOfSnoc(xs, rem);
      discarded, xs := discarded + rem.txs, xs + [rem];
      var p := GetBlock(store, rem.parent, Below(rem.number));
      if p.None? {
        return Failed(InvalidOldChain), split;
      }
      rem := p.value;
    }
    while add.number > rem.number
      invariant Collected(store, oldHead, newHead, rem, add, xs, ys) && rem.number <= add.number
      invariant discarded == TxsOf(xs) && included == TxsOf(ys)
      decreases add.number - rem.number
    {
      WalkDownHigherNew(store, oldHead, newHead, |xs|, |ys|, rem, add);
      TxsOfSnoc(ys, add);
      included, ys := included + add.txs, ys + [add];
      var p := GetBlock(store, add.parent, Below(add.number));
      if p.None? {
        return Failed(InvalidNewChain), split;
      }
      add := p.value;
    }
    while rem.hash != add.hash
      invariant Collected(store, oldHead, newHead, rem, add, xs, ys) && rem.number == add.number
      invariant discarded == TxsOf(xs) && included == TxsOf(ys)
      decreases rem.number
    {
      WalkDownBoth(store, oldHead, newHead, |xs|, |ys|, rem, add);
      AncestorNumber(store, oldHead, |xs|);
      TxsOfSnoc(xs, rem);
      TxsOfSnoc(ys, add);
      discarded, xs := discarded + rem.txs, xs + [rem];
      var p := GetBlock(store, rem.parent, Below(rem.number));
      if p.None? {
        return Failed(InvalidOldChain), split;
      }
      included, ys := included + add.txs, ys + [add];
      var q := GetBlock(store, add.parent, Below(add.number));
      if q.None? {
        return Failed(InvalidNewChain), split;
      }
      rem, add := p.value, q.value;
    }
    WalkMeets(store, oldHead, newHead, |xs|, |ys|, rem, add);
    split := Reorganisation(rem, xs, ys);
    r := Met((discarded, included));
  }

  lemma WalkDownHigherNew(store: Store, a: Block, b: Block, i: nat, j: nat, x: Block, y: Block)
    requires Walking(store, a, b, i, j, x, y) && y.number > x.number
    ensures match Parent(store, y)
            case Some(z) => Walking(store, a, b, i, j + 1, x, z) && z.number == y.number - 1
            case None => forall p: nat, q: nat :: !Meet(store, a, b, p, q)
  {
    WalkSwap(store, a, b, i, j, x, y);
    WalkDownHigher(store, b, a, j, i, y, x);
    SwapMeets(store, b, a);
    match Parent(store, y) {
      case Some(z) => WalkSwap(store, b, a, j + 1, i, z, x);
      case None =>
    }
  }
}
