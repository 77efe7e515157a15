/** Head selection by total difficulty: `blockchain/octopus_forkchoice.go`, and the block writing of
    `blockchain/octopus_blockchain.go` that calls it. */
module ForkChoice {
  import opened Basics
  import opened Chain

  datatype ChainError = UnknownAncestor | CommitFailed | MissingTd | InvalidChain(walk: WalkError)

  datatype WriteStatus = Canonical | Side | NotWritten(error: ChainError)

  /** What a block competes with: total difficulty first, the lower number second. */
  datatype Weight = Weight(td: int, number: int) {
    predicate AtLeast(w: Weight) {
      td > w.td || (td == w.td && number <= w.number)
    }
  }

  /** ForkChoice.ReorgNeeded for known difficulties. `preserve` stands for the miner's preference of its own
      blocks and `coin` for the random draw below one half. */
  predicate ReorgNeeded(current: Weight, extern: Weight, ttd: Option<int>, preserveCurrent: bool, preserveExtern: bool,
                        coin: bool)
  {
    if ttd.Some? && ttd.value <= extern.td then true
    else if extern.td > current.td then true
    else if extern.td == current.td then
      if extern.number < current.number then true
      else extern.number == current.number && !preserveCurrent && (preserveExtern || coin)
    else false
  }

  /** Below the terminal difficulty, the winner weighs at least as much as the loser, and a strictly heavier
      block always wins; equal weight leaves the choice to the preferences and the coin. */
  lemma WinnerIsHeavier(current: Weight, extern: Weight, ttd: Option<int>, preserveCurrent: bool, preserveExtern: bool,
                        coin: bool)
    requires ttd.Some? ==> extern.td < ttd.value
    ensures ReorgNeeded(current, extern, ttd, preserveCurrent, preserveExtern, coin) ==> extern.AtLeast(current)
    ensures !ReorgNeeded(current, extern, ttd, preserveCurrent, preserveExtern, coin) ==> current.AtLeast(extern)
    ensures !current.AtLeast(extern) ==> ReorgNeeded(current, extern, ttd, preserveCurrent, preserveExtern, coin)
    ensures !extern.AtLeast(current) ==> !ReorgNeeded(current, extern, ttd, preserveCurrent, preserveExtern, coin)
  {
  }

  /** Every recorded difficulty is the parent's plus the block's own. */
  ghost predicate AddUp(genesis: Block, store: Store, tds: map<Hash, int>) {
    && tds.Keys == store.Keys
    && genesis.hash in tds && genesis.parent !in tds
    && forall h ::
         h in tds && h != genesis.hash ==>
             store[h].parent in tds && tds[h] == tds[store[h].parent] + store[h].difficulty
  }

  /** One more block keeps what is recorded, so writing a block again changes nothing. */
  lemma RecordKeeps(genesis: Block, store: Store, tds: map<Hash, int>, block: Block)
    requires Keyed(store) && AddUp(genesis, store, tds) && Stored(store, genesis)
    requires 0 <= block.number < MAX_UINT64 && block.hash != genesis.parent
             && (block.hash in store ==> store[block.hash] == block)
    requires block.parent in tds
    ensures var store', tds' := store[block.hash := block], tds[block.hash := tds[block.parent] + block.difficulty];
            && Keyed(store') && AddUp(genesis, store', tds') && Stored(store', block)
            && forall b :: Stored(store, b) ==> Stored(store', b) && b.hash in tds && tds'[b.hash] == tds[b.hash]
  {
    if block.hash in store {
      assert block.hash != genesis.hash;
      assert store[block.hash := block] == store && tds[block.hash := tds[block.parent] + block.difficulty] == tds;
    }
  }

  class BlockChain {
    const genesis: Block
    const ttd: Option<int>
    var store: Store
    var tds: map<Hash, int>
    var head: Block
    ghost var accepted: set<Block>     // the blocks whose write succeeded
    ghost var terminal: Option<Block>  // the latest of them that reached the terminal difficulty

    ghost function WeightOf(b: Block): Weight
      requires b.hash in tds
      reads `tds
    {
      Weight(tds[b.hash], b.number)
    }

    ghost predicate IsTerminal(b: Block)
      requires b.hash in tds
      reads `tds
    {
      ttd.Some? && ttd.value <= tds[b.hash]
    }

    /** The head is the latest accepted block that reached the terminal difficulty; while there is none, it weighs at
        least as much as every accepted block. */
    ghost predicate Valid()
      reads this
    {
      && Keyed(store) && AddUp(genesis, store, tds)
      && Stored(store, genesis) && Stored(store, head)
      && (forall b :: b in accepted ==> Stored(store, b))
      && (terminal.Some? ==> head == terminal.value && IsTerminal(head) && head in accepted)
      && (terminal.None? ==> forall b :: b in accepted ==> WeightOf(head).AtLeast(WeightOf(b)) && !IsTerminal(b))
    }

    constructor (genesis: Block, ttd: Option<int>)
      requires genesis.number == 0 && genesis.parent != genesis.hash
      ensures Valid() && head == genesis && accepted == {} && terminal == None
      ensures this.genesis == genesis && this.ttd == ttd
    {
      this.genesis, this.ttd := genesis, ttd;
      store, tds := map[genesis.hash := genesis], map[genesis.hash := genesis.difficulty];
      head, accepted, terminal := genesis, {}, None;
    }

    /** GetTd(hash, number): the difficulty cache answers for any number, the database only for the block's own. */
    method GetTd(h: Hash, n: int, cached: set<Hash>) returns (td: Option<int>)
      requires Valid()
      ensures td.Some? ==> h in tds && td.value == tds[h]
      ensures h in tds && store[h].number == n ==> td.Some?
    {
      td := if h in tds && (h in cached || store[h].number == n) then Some(tds[h]) else None;
    }

    /** writeBlockWithState: records the block under its parent's difficulty plus its own. */
    method WriteBlockWithState(block: Block, cached: set<Hash>, commits: bool) returns (error: Option<ChainError>)
      requires Valid() && Writable(block)
      modifies this`store, this`tds
      ensures Valid()
      ensures error == Some(UnknownAncestor) ==> store == old(store) && tds == old(tds)
      ensures error != Some(UnknownAncestor) ==>
                && block.parent in old(tds) && store == old(store)[block.hash := block] && Stored(store, block)
                && tds == old(tds)[block.hash := old(tds)[block.parent] + block.difficulty]
      ensures forall b :: Stored(old(store), b) ==> Stored(store, b) && tds[b.hash] == old(tds)[b.hash]
    {
      hide Keyed, AddUp, Stored;
      var ptd := GetTd(block.parent, Below(block.number), cached);
      if ptd.None? {
        return Some(UnknownAncestor);
      }
      RecordKeeps(genesis, store, tds, block);
      store := store[block.hash := block];
      tds := tds[block.hash := ptd.value + block.difficulty];
      error := if commits then None else Some(CommitFailed);
    }

    /** A hash determines its block, and none hashes to the genesis block's parent. */
    ghost predicate Writable(block: Block)
      reads this
    {
      && 0 <= block.number < MAX_UINT64 && block.hash != genesis.parent
      && (block.hash in store ==> store[block.hash] == block)
    }

    /** writeBlockAndSetHead. A block that reaches the terminal difficulty becomes the head if it is accepted at all;
        any other never makes the head lighter. */
    method WriteBlockAndSetHead(block: Block, cached: set<Hash>, commits: bool, preserveCurrent: bool,
                                preserveExtern: bool, coin: bool)
      returns (status: WriteStatus)
      requires Valid() && Writable(block)
      modifies this
      ensures Valid() && Accepted(block, status)
      ensures block.hash in tds && !IsTerminal(block) ==> WeightOf(head).AtLeast(old(WeightOf(head)))
      ensures forall b :: Stored(old(store), b) ==> Stored(store, b) && tds[b.hash] == old(tds)[b.hash]
    {
      hide Keyed, Stored, AddUp, BlockChain.Writable;
      var error := WriteBlockWithState(block, cached, commits);
      if error.Some? {
        return NotWritten(error.value);
      }
      status := SetHead(block, cached, preserveCurrent, preserveExtern, coin);
    }

    /** What a write that ends in this status does to the head and to what is accepted. */
    twostate predicate Accepted(block: Block, status: WriteStatus)
      reads this
    {
      && head == (if status.Canonical? then block else old(head))
      && accepted == (if status.NotWritten? then old(accepted) else old(accepted) + {block})
      && (status.NotWritten? ==> terminal == old(terminal))
      && (!status.NotWritten? ==>
            block.hash in tds && terminal == if IsTerminal(block) then Some(block) else old(terminal))
    }

    /** The choice between the head and a block just recorded. */
    method SetHead(block: Block, cached: set<Hash>, preserveCurrent: bool, preserveExtern: bool, coin: bool)
      returns (status: WriteStatus)
      requires Valid() && Stored(store, block)
      modifies this`head, this`accepted, this`terminal
      ensures Valid() && Accepted(block, status) && block.hash in tds
      ensures !IsTerminal(block) ==> WeightOf(head).AtLeast(old(WeightOf(head)))
    {
      hide AddUp;
      assert block.hash in tds && head.hash in tds && genesis.hash in tds by { InTds(block); InTds(head); }
      var localTd := GetTd(head.hash, head.number, cached);
      var externTd := GetTd(block.hash, block.number, cached);
      if localTd.None? || externTd.None? {
        return NotWritten(MissingTd);
      }
      var current, extern := Weight(localTd.value, head.number), Weight(externTd.value, block.number);
      if !IsTerminal(block) {
        WinnerIsHeavier(current, extern, ttd, preserveCurrent, preserveExtern, coin);
      }
      if ReorgNeeded(current, extern, ttd, preserveCurrent, preserveExtern, coin) {
        if block.parent != head.hash {
          var walk := Reorg(store, head, block);
          if walk.Failed? {
            return NotWritten(InvalidChain(walk.error));
          }
        }
        head := block;
        status := Canonical;
      } else {
        status := Side;
      }
      accepted := accepted + {block};
      terminal := if IsTerminal(block) then Some(block) else terminal;
    }

    lemma InTds(b: Block)
      requires AddUp(genesis, store, tds) && Stored(store, b)
      ensures b.hash in tds && genesis.hash in tds
    {
    }
  }
}
