/** One account's storage (`operationdb/octopus_operationdb_object.go`): dirty, pending and
    origin layers over a storage trie. The trie is a map from keys to non-zero words. */
module StateObject {
  import opened Basics

  type Key = int
  type Word = int

  const ZERO: Word := 0

  /** Go's map read: the zero value for a missing key. */
  function At(m: map<Key, Word>, k: Key): Word {
    if k in m then m[k] else ZERO
  }

  datatype Layers = Layers(origin: map<Key, Word>, pending: map<Key, Word>, dirty: map<Key, Word>,
                           trie: map<Key, Word>)
  {
    function Committed(k: Key): Word {
      if k in pending then pending[k]
      else if k in origin then origin[k]
      else At(trie, k)
    }

    function Read(k: Key): Word {
      if k in dirty then dirty[k] else Committed(k)
    }

    function Write(k: Key, v: Word): Layers {
      if Read(k) == v then this else this.(dirty := dirty[k := v])
    }

    function Finalised(): Layers {
      this.(pending := pending + dirty, dirty := map[])
    }

    /** The pending writes that updateTrie does not skip as unchanged. */
    function Changes(): map<Key, Word> {
      map k | k in pending && pending[k] != At(origin, k) :: pending[k]
    }

    function TrieUpdated(): Layers {
      var s := Finalised();
      s.(origin := s.origin + s.Changes(),
         trie := ApplyToTrie(s.trie, s.Changes()),
         pending := map[])
    }

    /** Every cached origin value is what the trie holds. */
    predicate OriginAgrees() {
      forall k :: k in origin ==> origin[k] == At(trie, k)
    }

    /** No write of zero awaits a key that is outside the origin cache and non-zero in the trie. */
    predicate ZeroWritesKnown() {
      var writes := pending + dirty;
      forall k :: k in writes && writes[k] == ZERO ==> k in origin || At(trie, k) == ZERO
    }
  }

  /** TryUpdate for a non-zero word, TryDelete for zero. */
  function PutWord(trie: map<Key, Word>, k: Key, v: Word): map<Key, Word> {
    if v == ZERO then trie - {k} else trie[k := v]
  }

  /** PutWord for every entry of `changes`. */
  function ApplyToTrie(trie: map<Key, Word>, changes: map<Key, Word>): (r: map<Key, Word>) {
    var live := trie + changes;
    map k | k in live && !(k in changes && changes[k] == ZERO) :: live[k]
  }

  // ---- What the layers promise ----

  lemma WriteThenRead(s: Layers, k: Key, v: Word, q: Key)
    ensures s.Write(k, v).Read(q) == if q == k then v else s.Read(q)
    ensures s.Write(k, v).Committed(q) == s.Committed(q)
  {
  }

  lemma FinaliseKeepsReads(s: Layers, k: Key)
    ensures s.Finalised().Read(k) == s.Read(k) == s.Finalised().Committed(k)
  {
  }

  /** A zero is about to be written for a key that the trie has and the origin layer never cached. */
  predicate LosesDeletion(s: Layers, k: Key) {
    k in s.pending + s.dirty && (s.pending + s.dirty)[k] == ZERO && k !in s.origin && At(s.trie, k) != ZERO
  }

  lemma UpdateKeepsRead(s: Layers, k: Key)
    ensures s.TrieUpdated().Read(k) == s.Read(k) <==> !LosesDeletion(s, k)
  {
    var f := s.Finalised();
    assert f.pending == s.pending + s.dirty;
    if k in f.Changes() {
      assert f.Changes()[k] == f.pending[k];
    }
  }

  /** updateTrie changes no read exactly when no pending zero write is for an uncached non-zero key. */
  lemma UpdateKeepsReadsIff(s: Layers)
    ensures (forall k: Key :: s.TrieUpdated().Read(k) == s.Read(k)) <==> s.ZeroWritesKnown()
  {
    forall k: Key
      ensures s.TrieUpdated().Read(k) == s.Read(k) <==> !LosesDeletion(s, k)
    {
      UpdateKeepsRead(s, k);
    }
    if !s.ZeroWritesKnown() {
      var writes := s.pending + s.dirty;
      var k :| k in writes && writes[k] == ZERO && !(k in s.origin || At(s.trie, k) == ZERO);
      assert LosesDeletion(s, k);
    }
  }

  lemma UpdateKeepsOriginAgreement(s: Layers)
    requires s.OriginAgrees()
    ensures s.TrieUpdated().OriginAgrees()
  {
  }

  /** The failing family, at its smallest: a stored word is overwritten with zero and comes back. */
  lemma LostDeletion(k: Key, v: Word)
    requires v != ZERO
    ensures var s := Layers(map[], map[], map[], map[k := v]);
            s.OriginAgrees() && s.Write(k, ZERO).Read(k) == ZERO && s.Write(k, ZERO).TrieUpdated().Read(k) == v
  {
    var s := Layers(map[], map[], map[], map[k := v]).Write(k, ZERO);
    assert s.Finalised().Changes() == map[];
    UpdateKeepsRead(s, k);
  }

  // ---- Whole runs against a plain key-value store ----

  datatype StorageOp = SetState(k: Key, v: Word) | Finalise | UpdateTrie

  function Step(s: Layers, op: StorageOp): Layers {
    match op
    case SetState(k, v) => s.Write(k, v)
    case Finalise => s.Finalised()
    case UpdateTrie => s.TrieUpdated()
  }

  function Run(s: Layers, ops: seq<StorageOp>): Layers {
    if ops == [] then s else Step(Run(s, ops[..|ops| - 1]), ops[|ops| - 1])
  }

  /** The last word written to k, or `initial` if there is none. */
  function LastWrite(ops: seq<StorageOp>, k: Key, initial: Word): Word {
    if ops == [] then initial
    else
      var op := ops[|ops| - 1];
      if op.SetState? && op.k == k then op.v else LastWrite(ops[..|ops| - 1], k, initial)
  }

  /** Each updateTrie of the run starts with its zero writes known. */
  predicate UpdatesAreSafe(s: Layers, ops: seq<StorageOp>) {
    forall i :: 0 <= i < |ops| && ops[i].UpdateTrie? ==> Run(s, ops[..i]).ZeroWritesKnown()
  }

  /** Under that guard a run of writes, finalisations and trie updates is a plain key-value store. */
  lemma {:induction false} RunIsPlainStore(s: Layers, ops: seq<StorageOp>, k: Key)
    requires s.OriginAgrees() && UpdatesAreSafe(s, ops)
    ensures Run(s, ops).OriginAgrees()
    ensures Run(s, ops).Read(k) == LastWrite(ops, k, s.Read(k))
  {
    if ops != [] {
      var n := |ops| - 1;
      var t := Run(s, ops[..n]);
      assert forall i :: 0 <= i < n ==> ops[..n][..i] == ops[..i];
      RunIsPlainStore(s, ops[..n], k);
      match ops[n]
      case SetState(q, v) => WriteThenRead(t, q, v, k);
      case Finalise => FinaliseKeepsReads(t, k);
      case UpdateTrie =>
        UpdateKeepsReadsIff(t);
        UpdateKeepsOriginAgreement(t);
    }
  }

  // ---- The object ----

  type Address = int
  type Hash = int
  type Code = seq<int>

  const EMPTY_CODE_HASH: Hash := 0
  /** The balance that newObject gives an account without one. */
  const INITIAL_BALANCE: int := 200000000

  /** An account as the account trie stores it, with the content of its storage trie. */
  datatype StateAccount = StateAccount(nonce: int, balance: int, codeHash: Hash, storage: map<Key, Word>)

  /** The code database: nil for the empty hash or a hash it cannot resolve. */
  function ContractCode(codeDb: map<Hash, Code>, codeHash: Hash): Option<Code> {
    if codeHash != EMPTY_CODE_HASH && codeHash in codeDb then Some(codeDb[codeHash]) else None
  }

  /** The storage fields of an account object and the methods that move words between the layers. */
  class OperationObject {
    var origin: map<Key, Word>
    var pending: map<Key, Word>
    var dirty: map<Key, Word>
    var trie: map<Key, Word>

    ghost function Storage(): Layers
      reads this
    {
      Layers(origin, pending, dirty, trie)
    }

    constructor (storage: map<Key, Word>)
      ensures Storage() == Layers(map[], map[], map[], storage) && Storage().OriginAgrees()
    {
      origin, pending, dirty, trie := map[], map[], map[], storage;
    }

    method GetState(k: Key) returns (v: Word)
      ensures v == Storage().Read(k)
    {
      if k in dirty {
        return dirty[k];
      }
      v := GetCommittedState(k);
    }

    method GetCommittedState(k: Key) returns (v: Word)
      ensures v == Storage().Committed(k)
    {
      if k in pending {
        return pending[k];
      }
      if k in origin {
        return origin[k];
      }
      v := if k in trie then trie[k] else ZERO;
    }

    /** SetState; a write of the current value is dropped and reported as no change. */
    method SetState(k: Key, v: Word) returns (changed: bool)
      modifies this`dirty
      ensures Storage() == old(Storage()).Write(k, v)
      ensures changed == (old(Storage()).Read(k) != v)
    {
      var prev := GetState(k);
      changed := prev != v;
      if changed {
        dirty := dirty[k := v];
      }
    }

    /** Moves the dirty writes to the pending layer. */
    method Finalise()
      modifies this`pending, this`dirty
      ensures Storage() == old(Storage()).Finalised()
    {
      var todo := dirty.Keys;
      while todo != {}
        invariant todo <= dirty.Keys && dirty == old(dirty)
        invariant pending == old(pending) + Outside(dirty, todo)
        decreases todo
      {
        var k := Pick(todo);
        OutsideGrows(old(pending), dirty, todo, k);
        pending := pending[k := dirty[k]];
        todo := todo - {k};
      }
      assert Outside(dirty, {}) == dirty;
      dirty := map[];
    }

    /** Writes the pending layer to the trie. Every read survives exactly when each pending
        write of zero is for a key the origin cache knows or the trie holds no word for. */
    method UpdateTrie()
      modifies this`pending, this`dirty, this`origin, this`trie
      ensures Storage() == old(Storage()).TrieUpdated()
      ensures old(Storage().OriginAgrees()) ==> Storage().OriginAgrees()
      ensures (forall k: Key :: Storage().Read(k) == old(Storage()).Read(k)) <==> old(Storage().ZeroWritesKnown())
    {
      ghost var before := Storage();
      Finalise();
      FlushEnds(Storage());
      FlushPending();
      pending := map[];
      UpdateKeepsReadsIff(before);
      if before.OriginAgrees() { UpdateKeepsOriginAgreement(before); }
    }

    /** The layers of s, with every change outside `todo` written. */
    ghost predicate FlushedExcept(s: Layers, todo: set<Key>)
      reads this
    {
      && origin == s.origin + Outside(s.Changes(), todo)
      && trie == ApplyToTrie(s.trie, Outside(s.Changes(), todo))
    }

    /** The write loop of updateTrie. */
    method FlushPending()
      modifies this`origin, this`trie
      ensures FlushedExcept(old(Storage()), {})
    {
      ghost var s := Storage();
      var todo := pending.Keys;
      FlushEnds(s);
      while todo != {}
        invariant todo <= pending.Keys
        invariant FlushedExcept(s, todo)
        decreases todo
      {
        var k := Pick(todo);
        FlushKey(k, s, todo);
        todo := todo - {k};
      }
    }

    /** One key of updateTrie: a value equal to the cached origin is skipped. */
    method FlushKey(k: Key, ghost s: Layers, ghost todo: set<Key>)
      requires k in todo && k in pending && pending == s.pending && FlushedExcept(s, todo)
      modifies this`origin, this`trie
      ensures FlushedExcept(s, todo - {k})
    {
      FlushStep(s, todo, k);
      var value := pending[k];
      if value != (if k in origin then origin[k] else ZERO) {
        origin := origin[k := value];
        if value == ZERO {
          trie := trie - {k};
        } else {
          trie := trie[k := value];
        }
      }
    }
  }

  lemma FlushEnds(s: Layers)
    ensures s.origin + Outside(s.Changes(), s.pending.Keys) == s.origin
    ensures ApplyToTrie(s.trie, Outside(s.Changes(), s.pending.Keys)) == s.trie
    ensures Outside(s.Changes(), {}) == s.Changes()
  {
    assert Outside(s.Changes(), s.pending.Keys) == map[];
  }

  /** The part of a map outside the keys still to come. */
  function Outside(m: map<Key, Word>, todo: set<Key>): map<Key, Word> {
    map k | k in m && k !in todo :: m[k]
  }

  lemma OutsideGrows(base: map<Key, Word>, m: map<Key, Word>, todo: set<Key>, k: Key)
    requires k in m && k in todo
    ensures Outside(m, todo - {k}) == Outside(m, todo)[k := m[k]]
    ensures base + Outside(m, todo - {k}) == (base + Outside(m, todo))[k := m[k]]
  {
  }

  /** One turn of the write loop, with the keys in `todo` still to come. */
  lemma FlushStep(s: Layers, todo: set<Key>, k: Key)
    requires k in todo && k in s.pending
    ensures var done, value := Outside(s.Changes(), todo), s.pending[k];
            var more := Outside(s.Changes(), todo - {k});
            if value != At(s.origin + done, k) then
              && s.origin + more == (s.origin + done)[k := value]
              && ApplyToTrie(s.trie, more) == PutWord(ApplyToTrie(s.trie, done), k, value)
            else
              more == done
  {
    var done, value := Outside(s.Changes(), todo), s.pending[k];
    assert At(s.origin + done, k) == At(s.origin, k);
    if value != At(s.origin, k) {
      OutsideGrows(s.origin, s.Changes(), todo, k);
      ApplyOneMore(s.trie, done, k, value);
    } else {
      assert Outside(s.Changes(), todo - {k}) == done;
    }
  }

  lemma ApplyOneMore(trie: map<Key, Word>, changes: map<Key, Word>, k: Key, v: Word)
    ensures ApplyToTrie(trie, changes[k := v]) == PutWord(ApplyToTrie(trie, changes), k, v)
  {
  }
}
