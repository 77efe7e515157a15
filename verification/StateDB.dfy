/** The journaled state database (`operationdb/octopus_operationdb.go`) and the undo entries of
    `operationdb/octopus_db_journal.go`.

    The database is a value whose objects sit in an explicit store under references, so that an undo
    entry can hold on to an object that a newer one has displaced. */
module StateDB {
  import opened Basics
  import opened StateObject
  import opened AccessLists

  const TWO_64: int := 0x1_0000_0000_0000_0000

  /** A pointer to a live or displaced OperationObject. */
  type Ref = int

  datatype Log = Log(data: int, txHash: Hash, txIndex: int, index: int)

  datatype Entry =
    | CreateObject(account: Address)
    | ResetObject(account: Address, prev: Ref)
    | CodeChange(account: Address, prevCode: Option<Code>, prevHash: Hash)
    | BalanceChange(account: Address, prevBalance: int)
    | NonceChange(account: Address, prevNonce: int)
    | StorageChange(account: Address, key: Key, prevValue: Word)
    | SuicideChange(account: Address, prevSuicided: bool, prevBalance: int)
    | AccessAddAccount(address: Address)
    | AccessAddSlot(address: Address, slot: Key)
    | RefundChange(prevRefund: int)
    | AddLogChange(txHash: Hash)

  /** The fields of an OperationObject, with its storage layers. */
  datatype Obj = Obj(nonce: int, balance: int, codeHash: Hash, code: Option<Code>, suicided: bool, layers: Layers)

  function NewObject(data: StateAccount): Obj {
    Obj(data.nonce, data.balance, data.codeHash, None, false, Layers(map[], map[], map[], data.storage))
  }

  const FRESH_ACCOUNT: StateAccount := StateAccount(0, INITIAL_BALANCE, EMPTY_CODE_HASH, map[])

  /** OperationObject.Code: cached bytes, or what the code database resolves. */
  function CodeOf(o: Obj, codeDb: map<Hash, Code>): Option<Code> {
    if o.code.Some? then o.code else ContractCode(codeDb, o.codeHash)
  }

  datatype DB = DB(trie: map<Address, StateAccount>, codeDb: map<Hash, Code>,
                   store: map<Ref, Obj>, objects: map<Address, Ref>, next: Ref,
                   refund: int, thash: Hash, txIndex: int, logs: map<Hash, seq<Log>>, logSize: int, access: Access,
                   journal: seq<Entry>)
  {
    /** Live references point into the store and are not shared. */
    ghost predicate LiveApart() {
      && (forall r :: r in store ==> r < next)
      && (forall a :: a in objects ==> objects[a] in store)
      && (forall a, b :: a in objects && b in objects && objects[a] == objects[b] ==> a == b)
    }

    /** Displaced references point into the store and are apart from live ones and each other. */
    ghost predicate DisplacedApart() {
      && (forall i :: 0 <= i < |journal| && journal[i].ResetObject? ==> journal[i].prev in store)
      && (forall i, a :: 0 <= i < |journal| && journal[i].ResetObject? && a in objects ==>
           journal[i].prev != objects[a])
      && (forall i, j :: 0 <= i < j < |journal| && journal[i].ResetObject? && journal[j].ResetObject? ==>
           journal[i].prev != journal[j].prev)
    }

    ghost predicate WellFormed() {
      && LiveApart()
      && DisplacedApart()
      && (forall i :: 0 <= i < |journal| && journal[i].CreateObject? ==> journal[i].account !in trie)
      && (forall h :: h in logs ==> logs[h] != [])
      && access.WellFormed()
    }

    predicate Exists(a: Address) {
      a in objects || a in trie
    }

    /** getDeletedOperationObject: the live object, or the one the trie would load. */
    function At(a: Address): Obj
      requires LiveApart() && Exists(a)
    {
      if a in objects then store[objects[a]] else NewObject(trie[a])
    }

    /** The load itself: an account found only in the trie becomes a live object. */
    function Load(a: Address): DB {
      if a in objects || a !in trie then this
      else Install(a, NewObject(trie[a]))
    }

    /** A write to the live object at a, loading it first. */
    function Put(a: Address, o: Obj): DB
      requires Exists(a)
    {
      var d := Load(a);
      d.(store := d.store[d.objects[a] := o])
    }

    function Append(e: Entry): DB {
      this.(journal := journal + [e])
    }

    /** setOperationObject for a new object. */
    function Install(a: Address, o: Obj): DB {
      this.(store := store[next := o], objects := objects[a := next], next := next + 1)
    }

    /** createObject: a new object displaces whatever is at its address. */
    function CreateAt(a: Address): DB {
      var d := Load(a);
      var e := if a in d.objects then ResetObject(a, d.objects[a]) else CreateObject(a);
      d.Append(e).Install(a, NewObject(FRESH_ACCOUNT))
    }

    function GetOrNew(a: Address): DB {
      if Exists(a) then Load(a) else CreateAt(a)
    }
  }

  // ---- What a reader sees ----

  /** An address and a storage key to look at. */
  datatype Probe = Probe(a: Address, k: Key)

  datatype AccountView = Absent | Present(nonce: int, balance: int, codeHash: Hash, code: Option<Code>, suicided: bool,
    word: Word, committed: Word)

  datatype View = View(existing: set<Address>, account: AccountView, refund: int, logs: map<Hash, seq<Log>>,
    logSize: int, access: Access)

  function See(o: Obj, k: Key, codeDb: map<Hash, Code>): AccountView {
    Present(o.nonce, o.balance, o.codeHash, CodeOf(o, codeDb), o.suicided, o.layers.Read(k), o.layers.Committed(k))
  }

  /** What the getters return for the probe, with the refund counter, the logs and the access list. */
  ghost function Observe(d: DB, p: Probe): View
    requires d.LiveApart()
  {
    View(d.objects.Keys + d.trie.Keys, if d.Exists(p.a) then See(d.At(p.a), p.k, d.codeDb) else Absent,
         d.refund, d.logs, d.logSize, d.access)
  }

  // ---- Reverting ----

  /** An entry that changed one field of one account. */
  predicate IsFieldChange(e: Entry) {
    e.CodeChange? || e.BalanceChange? || e.NonceChange? || e.StorageChange? || e.SuicideChange?
  }

  function SetWord(o: Obj, k: Key, v: Word): Obj {
    o.(layers := o.layers.(dirty := o.layers.dirty[k := v]))
  }

  function RestoreField(e: Entry, o: Obj): Obj
    requires IsFieldChange(e)
  {
    match e
    case CodeChange(_, code, hash) => o.(codeHash := hash, code := code)
    case BalanceChange(_, balance) => o.(balance := balance)
    case NonceChange(_, nonce) => o.(nonce := nonce)
    case StorageChange(_, k, v) => SetWord(o, k, v)
    case SuicideChange(_, suicided, balance) => o.(suicided := suicided, balance := balance)
  }

  function DropLastLog(logs: map<Hash, seq<Log>>, h: Hash): map<Hash, seq<Log>>
    requires h in logs && logs[h] != []
  {
    if |logs[h]| == 1 then logs - {h} else logs[h := logs[h][..|logs[h]| - 1]]
  }

  /** The `revert` method of each entry. None where the source would panic: a missing account behind a
      nil object, a missing slot set, an empty log list. */
  function Revert(d: DB, e: Entry): Option<DB>
    requires d.LiveApart()
  {
    match e
    case CreateObject(a) => Some(d.(objects := d.objects - {a}))
    case ResetObject(a, prev) => Some(d.(objects := d.objects[a := prev]))
    case AccessAddAccount(a) => Some(d.(access := d.access.DeleteAddress(a)))
    case AccessAddSlot(a, slot) =>
      if d.access.HasSlotSet(a) then Some(d.(access := d.access.DeleteSlot(a, slot))) else None
    case RefundChange(refund) => Some(d.(refund := refund))
    case AddLogChange(h) =>
      if h in d.logs && d.logs[h] != [] then Some(d.(logs := DropLastLog(d.logs, h), logSize := d.logSize - 1))
        else None
    case _ =>
      if d.Exists(e.account) then Some(d.Put(e.account, RestoreField(e, d.At(e.account))))
      else if e.SuicideChange? then Some(d)
      else None
  }

  function RestoreView(e: Entry, x: AccountView, k: Key, codeDb: map<Hash, Code>): AccountView
    requires IsFieldChange(e) && x.Present?
  {
    match e
    case CodeChange(_, code, hash) =>
      x.(codeHash := hash, code := if code.Some? then code else ContractCode(codeDb, hash))
    case BalanceChange(_, balance) => x.(balance := balance)
    case NonceChange(_, nonce) => x.(nonce := nonce)
    case StorageChange(_, q, v) => if q == k then x.(word := v) else x
    case SuicideChange(_, suicided, balance) => x.(suicided := suicided, balance := balance)
  }

  lemma RestoreShows(e: Entry, o: Obj, k: Key, codeDb: map<Hash, Code>)
    requires IsFieldChange(e)
    ensures See(RestoreField(e, o), k, codeDb) == RestoreView(e, See(o, k, codeDb), k, codeDb)
  {
  }

  /** Reverting e can be done where `after` is visible, and makes `before` visible. */
  ghost predicate Undoes(after: View, e: Entry, before: View, p: Probe, codeDb: map<Hash, Code>) {
    match e
    case CreateObject(a) =>
      && a in after.existing
      && before == after.(existing := after.existing - {a}, account := if a == p.a then Absent else after.account)
    case ResetObject(a, prev) =>
      && a in after.existing
      && before == after.(account := if a == p.a then before.account else after.account)
    case AccessAddAccount(a) =>
      && before == after.(access := after.access.DeleteAddress(a))
      && before.access.WellFormed()
    case AccessAddSlot(a, slot) =>
      && after.access.HasSlotSet(a)
      // A cut in DeleteSlot only ever removes the last slot set.
      && (after.access.slots[after.access.addresses[a]] == {slot} ==>
           after.access.addresses[a] == |after.access.slots| - 1)
      && before == after.(access := after.access.DeleteSlot(a, slot))
      && before.access.WellFormed()
    case RefundChange(refund) =>
      before == after.(refund := refund)
    case AddLogChange(h) =>
      && h in after.logs && after.logs[h] != []
      && before == after.(logs := DropLastLog(after.logs, h), logSize := after.logSize - 1)
      && forall t :: t in before.logs ==> before.logs[t] != []
    case _ =>
      && e.account in after.existing
      && if e.account == p.a then after.account.Present?
         && before == after.(account := RestoreView(e, after.account, p.k, codeDb))
         else before == after
  }

  // ---- History ----

  /** h[i] is what was visible before journal entry i; the last element is what is visible now. */
  ghost predicate LeadsBack(journal: seq<Entry>, h: seq<View>, i: int, p: Probe, codeDb: map<Hash, Code>)
    requires |h| == |journal| + 1 && 0 <= i < |journal|
  {
    Undoes(h[i + 1], journal[i], h[i], p, codeDb)
  }

  ghost predicate Linked(journal: seq<Entry>, h: seq<View>, p: Probe, codeDb: map<Hash, Code>) {
    && |h| == |journal| + 1
    && forall i {:trigger LeadsBack(journal, h, i, p, codeDb)} ::
         0 <= i < |journal| ==> LeadsBack(journal, h, i, p, codeDb)
  }

  /** Displaced objects still show what was visible when they were displaced. */
  ghost predicate Frozen(d: DB, h: seq<View>, p: Probe)
    requires d.DisplacedApart() && |h| == |d.journal| + 1
  {
    forall i :: 0 <= i < |d.journal| && d.journal[i].ResetObject? && d.journal[i].account == p.a ==>
      h[i].account == See(d.store[d.journal[i].prev], p.k, d.codeDb)
  }

  ghost predicate Sound(d: DB, h: seq<View>, p: Probe) {
    && d.WellFormed()
    && Linked(d.journal, h, p, d.codeDb)
    && Frozen(d, h, p)
    && h[|d.journal|] == Observe(d, p)
  }

  lemma LinkOneMore(journal: seq<Entry>, h: seq<View>, e: Entry, now: View, p: Probe, codeDb: map<Hash, Code>)
    requires Linked(journal, h, p, codeDb) && Undoes(now, e, h[|journal|], p, codeDb)
    ensures Linked(journal + [e], h + [now], p, codeDb)
  {
    forall i | 0 <= i < |journal| + 1
      ensures LeadsBack(journal + [e], h + [now], i, p, codeDb)
    {
      assert i < |journal| ==> LeadsBack(journal, h, i, p, codeDb);
    }
  }

  lemma LinkOneLess(journal: seq<Entry>, h: seq<View>, p: Probe, codeDb: map<Hash, Code>)
    requires Linked(journal, h, p, codeDb) && journal != []
    ensures Linked(journal[..|journal| - 1], h[..|journal|], p, codeDb)
    ensures Undoes(h[|journal|], journal[|journal| - 1], h[|journal| - 1], p, codeDb)
  {
    assert LeadsBack(journal, h, |journal| - 1, p, codeDb);
    var rest, g := journal[..|journal| - 1], h[..|journal|];
    forall i | 0 <= i < |rest|
      ensures LeadsBack(rest, g, i, p, codeDb)
    {
      assert LeadsBack(journal, h, i, p, codeDb);
    }
  }

  // ---- Single writes ----

  lemma LoadKeeps(d: DB, a: Address)
    requires d.WellFormed()
    ensures d.Load(a).WellFormed() && (d.Exists(a) ==> a in d.Load(a).objects)
  {
  }

  lemma LoadShows(d: DB, a: Address, p: Probe)
    requires d.WellFormed()
    ensures d.Load(a).WellFormed() && Observe(d.Load(a), p) == Observe(d, p) && (d.Exists(a) ==> a in d.Load(a).objects)
  {
    hide See, DB.DisplacedApart;
    LoadKeeps(d, a);
    var e := d.Load(a);
    assert e.objects.Keys + e.trie.Keys == d.objects.Keys + d.trie.Keys;
  }

  lemma LoadIsSilent(d: DB, h: seq<View>, a: Address, p: Probe)
    requires Sound(d, h, p)
    ensures Sound(d.Load(a), h, p) && (d.Exists(a) ==> a in d.Load(a).objects)
  {
    LoadShows(d, a, p);
  }

  /** The view of d with o at address a. */
  ghost function With(d: DB, a: Address, o: Obj, p: Probe): View
    requires d.LiveApart()
  {
    var v := Observe(d, p);
    v.(existing := v.existing + {a}, account := if a == p.a then See(o, p.k, d.codeDb) else v.account)
  }

  /** A write to one object shows at its address and nowhere else. */
  lemma PutShows(d: DB, a: Address, o: Obj, p: Probe)
    requires d.WellFormed() && d.Exists(a)
    ensures d.Put(a, o).WellFormed() && Observe(d.Put(a, o), p) == With(d, a, o, p)
  {
    var t := d.Put(a, o);
    assert t.objects.Keys + t.trie.Keys == d.objects.Keys + d.trie.Keys == d.objects.Keys + d.trie.Keys + {a};
  }

  lemma PutKeepsFrozen(d: DB, h: seq<View>, a: Address, o: Obj, p: Probe)
    requires d.WellFormed() && d.Exists(a) && |h| == |d.journal| + 1 && Frozen(d, h, p)
    ensures d.Put(a, o).DisplacedApart() && Frozen(d.Put(a, o), h, p)
  {
  }

  /** A field write whose entry restores the field. */
  lemma WriteIsSound(d: DB, h: seq<View>, e: Entry, o: Obj, p: Probe)
    requires Sound(d, h, p) && IsFieldChange(e) && d.Exists(e.account)
    requires See(RestoreField(e, o), p.k, d.codeDb) == See(d.At(e.account), p.k, d.codeDb)
    ensures Sound(d.Append(e).Put(e.account, o), h + [With(d, e.account, o, p)], p)
  {
    hide LeadsBack, Observe, Frozen, Undoes, See, With, RestoreField, DB.DisplacedApart;
    PutShows(d, e.account, o, p);
    PutKeepsFrozen(d, h, e.account, o, p);
    WriteUndone(d, e, o, p);
    EntryIsSound(d, h, d.Put(e.account, o), e, p);
    assert d.Append(e).Put(e.account, o) == d.Put(e.account, o).Append(e);
  }

  lemma WriteUndone(d: DB, e: Entry, o: Obj, p: Probe)
    requires d.LiveApart() && IsFieldChange(e) && d.Exists(e.account)
    requires See(RestoreField(e, o), p.k, d.codeDb) == See(d.At(e.account), p.k, d.codeDb)
    ensures Undoes(With(d, e.account, o, p), e, Observe(d, p), p, d.codeDb)
  {
    RestoreShows(e, o, p.k, d.codeDb);
    assert d.objects.Keys + d.trie.Keys + {e.account} == d.objects.Keys + d.trie.Keys;
  }

  /** d became t without touching the journal or a displaced object: appending e is sound if it undoes that. */
  lemma EntryIsSound(d: DB, h: seq<View>, t: DB, e: Entry, p: Probe)
    requires Sound(d, h, p) && t.WellFormed() && t.journal == d.journal && t.codeDb == d.codeDb && Frozen(t, h, p)
    requires !e.ResetObject? && (e.CreateObject? ==> e.account !in t.trie)
    requires Undoes(Observe(t, p), e, Observe(d, p), p, d.codeDb)
    ensures Sound(t.Append(e), h + [Observe(t, p)], p)
  {
    LinkOneMore(d.journal, h, e, Observe(t, p), p, d.codeDb);
  }

  lemma CreateIsSound(d: DB, h: seq<View>, a: Address, p: Probe)
    requires Sound(d, h, p)
    ensures Sound(d.CreateAt(a), h + [With(d, a, NewObject(FRESH_ACCOUNT), p)], p) && a in d.CreateAt(a).objects
  {
    hide LeadsBack, DB.DisplacedApart, Frozen, See;
    LoadIsSilent(d, h, a, p);
    var l, o := d.Load(a), NewObject(FRESH_ACCOUNT);
    assert With(l, a, o, p) == With(d, a, o, p);
    if a in l.objects {
      DisplaceIsSound(l, h, a, o, p);
    } else {
      FirstIsSound(l, h, a, o, p);
    }
  }

  /** An account created where there was none. */
  lemma FirstIsSound(d: DB, h: seq<View>, a: Address, o: Obj, p: Probe)
    requires Sound(d, h, p) && !d.Exists(a)
    ensures Sound(d.Append(CreateObject(a)).Install(a, o), h + [With(d, a, o, p)], p)
  {
    hide LeadsBack, DB.DisplacedApart, Frozen, See;
    InstallShows(d, a, o, p);
    assert Observe(d, p).existing + {a} - {a} == Observe(d, p).existing;
    EntryIsSound(d, h, d.Install(a, o), CreateObject(a), p);
    assert d.Append(CreateObject(a)).Install(a, o) == d.Install(a, o).Append(CreateObject(a));
  }

  lemma InstallShows(d: DB, a: Address, o: Obj, p: Probe)
    requires d.WellFormed() && a !in d.objects
    ensures d.Install(a, o).WellFormed() && Observe(d.Install(a, o), p) == With(d, a, o, p)
    ensures forall h: seq<View> :: |h| == |d.journal| + 1 && Frozen(d, h, p) ==> Frozen(d.Install(a, o), h, p)
  {
    var t := d.Install(a, o);
    assert t.objects.Keys + t.trie.Keys == d.objects.Keys + d.trie.Keys + {a};
  }

  lemma DisplaceIsSound(d: DB, h: seq<View>, a: Address, o: Obj, p: Probe)
    requires Sound(d, h, p) && a in d.objects
    ensures Sound(d.Append(ResetObject(a, d.objects[a])).Install(a, o), h + [With(d, a, o, p)], p)
  {
    var e := ResetObject(a, d.objects[a]);
    var t := d.Append(e).Install(a, o);
    DisplaceShows(d, a, o, p);
    LinkOneMore(d.journal, h, e, With(d, a, o, p), p, d.codeDb);
  }

  lemma DisplaceShows(d: DB, a: Address, o: Obj, p: Probe)
    requires d.WellFormed() && a in d.objects
    ensures var t := d.Append(ResetObject(a, d.objects[a])).Install(a, o);
            t.WellFormed() && Observe(t, p) == With(d, a, o, p)
  {
    var t := d.Append(ResetObject(a, d.objects[a])).Install(a, o);
    assert t.objects.Keys + t.trie.Keys == d.objects.Keys + d.trie.Keys + {a};
  }

  // ---- The mutators ----

  datatype Op =
    | CreateAccount(a: Address)
    | SubBalance(a: Address, amount: int)
    | AddBalance(a: Address, amount: int)
    | SetBalance(a: Address, amount: int)
    | SetNonce(a: Address, nonce: int)
    | SetCode(a: Address, codeHash: Hash, code: Code)
    | SetState(a: Address, key: Key, value: Word)
    | Suicide(a: Address)
    | AddRefund(gas: int)
    | SubRefund(gas: int)
    | AddLog(data: int)
    | AddAddressToAccessList(a: Address)
    | AddSlotToAccessList(a: Address, slot: Key)
    | Prepare(thash: Hash, txIndex: int)
    | GetAccount(a: Address)
    | GetCode(a: Address)

  /** A journaled field write on an existing account. */
  function Write(d: DB, e: Entry, o: Obj): DB
    requires IsFieldChange(e) && d.Exists(e.account)
  {
    d.Append(e).Put(e.account, o)
  }

  /** The setters that fetch or create their account first. */
  predicate IsFieldOp(op: Op) {
    op.SubBalance? || op.AddBalance? || op.SetBalance? || op.SetNonce? || op.SetCode? || op.SetState?
  }

  /** The entry a setter appends and the object it leaves; None where it leaves the object alone. */
  function FieldWrite(op: Op, o: Obj, codeDb: map<Hash, Code>): (r: Option<(Entry, Obj)>)
    requires IsFieldOp(op)
    ensures r.Some? ==> IsFieldChange(r.value.0) && r.value.0.account == op.a
  {
    match op
    case SubBalance(a, amount) =>
      if amount == 0 then None else Some((BalanceChange(a, o.balance), o.(balance := o.balance - amount)))
    case AddBalance(a, amount) =>
      if amount == 0 then None else Some((BalanceChange(a, o.balance), o.(balance := o.balance + amount)))
    case SetBalance(a, amount) => Some((BalanceChange(a, o.balance), o.(balance := amount)))
    case SetNonce(a, nonce) => Some((NonceChange(a, o.nonce), o.(nonce := nonce)))
    case SetCode(a, codeHash, code) =>
      Some((CodeChange(a, CodeOf(o, codeDb), o.codeHash), o.(codeHash := codeHash, code := Some(code))))
    case SetState(a, key, value) =>
      var prev := o.layers.Read(key);
      if prev == value then None else Some((StorageChange(a, key, prev), SetWord(o, key, value)))
  }

  /** The entry of a setter restores what the object showed. */
  lemma FieldWriteRestores(op: Op, o: Obj, k: Key, codeDb: map<Hash, Code>)
    requires IsFieldOp(op) && FieldWrite(op, o, codeDb).Some?
    ensures var (e, w) := FieldWrite(op, o, codeDb).value; See(RestoreField(e, w), k, codeDb) == See(o, k, codeDb)
  {
  }

  function SetField(d: DB, op: Op): DB
    requires d.LiveApart() && IsFieldOp(op) && d.Exists(op.a)
  {
    match FieldWrite(op, d.At(op.a), d.codeDb)
    case None => d
    case Some((e, o)) => Write(d, e, o)
  }

  /** CreateAccount: the new object takes over the balance of the one it displaces, unjournaled. */
  function Recreate(d: DB, a: Address): DB
    requires d.LiveApart()
  {
    var t := d.CreateAt(a);
    if d.Exists(a) then t.Put(a, NewObject(FRESH_ACCOUNT).(balance := d.At(a).balance)) else t
  }

  function LogsOf(d: DB, h: Hash): seq<Log> {
    if h in d.logs then d.logs[h] else []
  }

  function PushLog(d: DB, data: int): DB {
    var log := Log(data, d.thash, d.txIndex, d.logSize);
    d.Append(AddLogChange(d.thash)).(logs := d.logs[d.thash := LogsOf(d, d.thash) + [log]], logSize := d.logSize + 1)
  }

  function AccessAddress(d: DB, a: Address): DB {
    if d.access.ContainsAddress(a) then d else d.(access := d.access.AddAddress(a)).Append(AccessAddAccount(a))
  }

  function AccessSlot(d: DB, a: Address, slot: Key): DB
    requires d.access.WellFormed()
  {
    var t := if d.access.ContainsAddress(a) then d else d.Append(AccessAddAccount(a));
    var u := t.(access := d.access.AddSlot(a, slot));
    if d.access.Contains(a, slot) then u else u.Append(AccessAddSlot(a, slot))
  }

  /** One call on the database. SubRefund below zero panics after its entry is in the journal. */
  function Apply(d: DB, op: Op): DB
    requires d.WellFormed()
  {
    match op
    case CreateAccount(a) => Recreate(d, a)
    case Suicide(a) =>
      if !d.Exists(a) then d
      else Write(d, SuicideChange(a, d.At(a).suicided, d.At(a).balance), d.At(a).(suicided := true, balance := 0))
    case AddRefund(gas) => d.Append(RefundChange(d.refund)).(refund := (d.refund + gas) % TWO_64)
    case SubRefund(gas) =>
      var t := d.Append(RefundChange(d.refund));
      if gas > d.refund then t else t.(refund := d.refund - gas)
    case AddLog(data) => PushLog(d, data)
    case AddAddressToAccessList(a) => AccessAddress(d, a)
    case AddSlotToAccessList(a, slot) => AccessSlot(d, a, slot)
    case Prepare(thash, txIndex) => d.(thash := thash, txIndex := txIndex)
    case GetAccount(a) => d.Load(a)
    case GetCode(a) => if d.Exists(a) then d.Put(a, d.At(a).(code := CodeOf(d.At(a), d.codeDb))) else d
    case _ => GetOrNewIsSound(d, op.a); SetField(d.GetOrNew(op.a), op)
  }

  lemma GetOrNewIsSound(d: DB, a: Address)
    requires d.WellFormed()
    ensures d.GetOrNew(a).WellFormed() && d.GetOrNew(a).Exists(a)
  {
    var p := Probe(a, 0);
    if d.Exists(a) {
      LoadShows(d, a, p);
    } else {
      InstallShows(d, a, NewObject(FRESH_ACCOUNT), p);
    }
  }

  // ---- Every mutator is sound ----

  /** t continues d: the journal and its history only grow. */
  ghost predicate Continues(d: DB, h: seq<View>, t: DB, g: seq<View>, p: Probe) {
    Sound(t, g, p) && d.journal <= t.journal && h <= g
  }

  lemma GetOrNewContinues(d: DB, h: seq<View>, a: Address, p: Probe) returns (g: seq<View>)
    requires Sound(d, h, p)
    ensures Continues(d, h, d.GetOrNew(a), g, p) && d.GetOrNew(a).Exists(a)
  {
    if d.Exists(a) {
      LoadIsSilent(d, h, a, p);
      g := h;
    } else {
      CreateIsSound(d, h, a, p);
      g := h + [With(d, a, NewObject(FRESH_ACCOUNT), p)];
    }
  }

  lemma WriteContinues(d: DB, h: seq<View>, e: Entry, o: Obj, p: Probe) returns (g: seq<View>)
    requires Sound(d, h, p) && IsFieldChange(e) && d.Exists(e.account)
    requires See(RestoreField(e, o), p.k, d.codeDb) == See(d.At(e.account), p.k, d.codeDb)
    ensures Continues(d, h, Write(d, e, o), g, p)
  {
    WriteIsSound(d, h, e, o, p);
    g := h + [With(d, e.account, o, p)];
  }

  /** Writing a field after the account was fetched or created. */
  lemma FieldContinues(d: DB, h: seq<View>, op: Op, p: Probe) returns (g: seq<View>)
    requires Sound(d, h, p) && IsFieldOp(op)
    ensures Continues(d, h, Apply(d, op), g, p)
  {
    hide Linked, Frozen, Observe, RestoreField, See, FieldWrite, DB.DisplacedApart;
    g := GetOrNewContinues(d, h, op.a, p);
    var t := d.GetOrNew(op.a);
    var w := FieldWrite(op, t.At(op.a), t.codeDb);
    if w.Some? {
      FieldWriteRestores(op, t.At(op.a), p.k, t.codeDb);
      g := WriteContinues(t, g, w.value.0, w.value.1, p);
    }
  }

  lemma SuicideContinues(d: DB, h: seq<View>, a: Address, p: Probe) returns (g: seq<View>)
    requires Sound(d, h, p)
    ensures Continues(d, h, Apply(d, Suicide(a)), g, p)
  {
    g := h;
    if d.Exists(a) {
      g := WriteContinues(d, h, SuicideChange(a, d.At(a).suicided, d.At(a).balance),
        d.At(a).(suicided := true, balance := 0), p);
    }
  }

  /** The unjournaled balance of a re-created account: its entry puts the displaced object back anyway. */
  lemma RecreateContinues(d: DB, h: seq<View>, a: Address, p: Probe) returns (g: seq<View>)
    requires Sound(d, h, p)
    ensures Continues(d, h, Recreate(d, a), g, p)
  {
    CreateIsSound(d, h, a, p);
    var t := d.CreateAt(a);
    g := h + [With(d, a, NewObject(FRESH_ACCOUNT), p)];
    if d.Exists(a) {
      var o := NewObject(FRESH_ACCOUNT).(balance := d.At(a).balance);
      PutShows(t, a, o, p);
      PutKeepsFrozen(t, g, a, o, p);
      LinkResetAgain(t.journal, g, With(t, a, o, p), p, t.codeDb);
      g := h + [With(t, a, o, p)];
    }
  }

  lemma LinkResetAgain(journal: seq<Entry>, h: seq<View>, now: View, p: Probe, codeDb: map<Hash, Code>)
    requires Linked(journal, h, p, codeDb) && journal != [] && journal[|journal| - 1].ResetObject?
    requires var a := journal[|journal| - 1].account;
             now == h[|journal|].(account := if a == p.a then now.account else h[|journal|].account)
    ensures Linked(journal, h[..|journal|] + [now], p, codeDb)
  {
    var g := h[..|journal|] + [now];
    forall i | 0 <= i < |journal|
      ensures LeadsBack(journal, g, i, p, codeDb)
    {
      assert LeadsBack(journal, h, i, p, codeDb);
    }
  }

  /** Loading code into the cache shows nothing new. */
  lemma CacheIsSilent(d: DB, h: seq<View>, a: Address, p: Probe)
    requires Sound(d, h, p) && d.Exists(a)
    ensures Sound(d.Put(a, d.At(a).(code := CodeOf(d.At(a), d.codeDb))), h, p)
  {
    var o := d.At(a).(code := CodeOf(d.At(a), d.codeDb));
    PutShows(d, a, o, p);
    PutKeepsFrozen(d, h, a, o, p);
    assert d.objects.Keys + d.trie.Keys + {a} == d.objects.Keys + d.trie.Keys;
  }

  /** A change outside the objects, undone by its entry. */
  lemma GlobalContinues(d: DB, h: seq<View>, t: DB, e: Entry, p: Probe) returns (g: seq<View>)
    requires Sound(d, h, p)
    requires t == d.(refund := t.refund, logs := t.logs, logSize := t.logSize, access := t.access)
    requires (forall x :: x in t.logs ==> t.logs[x] != []) && t.access.WellFormed()
    requires e.RefundChange? || e.AddLogChange? || e.AccessAddAccount? || e.AccessAddSlot?
    requires Undoes(Observe(t, p), e, Observe(d, p), p, d.codeDb)
    ensures Continues(d, h, t.Append(e), g, p)
  {
    EntryIsSound(d, h, t, e, p);
    g := h + [Observe(t, p)];
  }

  lemma LogContinues(d: DB, h: seq<View>, data: int, p: Probe) returns (g: seq<View>)
    requires Sound(d, h, p)
    ensures Continues(d, h, PushLog(d, data), g, p)
  {
    var t := PushLog(d, data).(journal := d.journal);
    var logs := LogsOf(d, d.thash);
    assert t.logs[d.thash][..|logs|] == logs;
    assert DropLastLog(t.logs, d.thash) == d.logs;
    g := GlobalContinues(d, h, t, AddLogChange(d.thash), p);
  }

  lemma AddressContinues(d: DB, h: seq<View>, a: Address, p: Probe) returns (g: seq<View>)
    requires Sound(d, h, p)
    ensures Continues(d, h, AccessAddress(d, a), g, p)
  {
    g := h;
    if !d.access.ContainsAddress(a) {
      UndoAddAddress(d.access, a);
      AddAddressMeans(d.access, a, a, 0);
      g := GlobalContinues(d, h, d.(access := d.access.AddAddress(a)), AccessAddAccount(a), p);
    }
  }

  /** A slot under a new address makes two entries; between them the history has the bare address. */
  lemma SlotContinues(d: DB, h: seq<View>, a: Address, slot: Key, p: Probe) returns (g: seq<View>)
    requires Sound(d, h, p)
    ensures Continues(d, h, AccessSlot(d, a, slot), g, p)
  {
    g := AddressContinues(d, h, a, p);
    var t := AccessAddress(d, a);
    if d.access.Contains(a, slot) {
      assert d.access.AddSlot(a, slot) == d.access by {
        assert d.access.slots[d.access.addresses[a]] + {slot} == d.access.slots[d.access.addresses[a]];
      }
    } else {
      UndoAddSlot(d.access, a, slot);
      AddSlotKeepsIndices(d.access, a, slot);
      g := GlobalContinues(t, g, t.(access := d.access.AddSlot(a, slot)), AccessAddSlot(a, slot), p);
    }
  }

  lemma RefundContinues(d: DB, h: seq<View>, refund: int, p: Probe) returns (g: seq<View>)
    requires Sound(d, h, p)
    ensures Continues(d, h, d.Append(RefundChange(d.refund)).(refund := refund), g, p)
  {
    g := GlobalContinues(d, h, d.(refund := refund), RefundChange(d.refund), p);
  }

  /** Calls that journal nothing. */
  lemma QuietContinues(d: DB, h: seq<View>, op: Op, p: Probe)
    requires Sound(d, h, p) && (op.Prepare? || op.GetAccount? || op.GetCode?)
    ensures Continues(d, h, Apply(d, op), h, p)
  {
    match op {
      case Prepare(_, _) =>
      case GetAccount(a) => LoadIsSilent(d, h, a, p);
      case GetCode(a) => if d.Exists(a) { CacheIsSilent(d, h, a, p); }
    }
  }

  lemma GlobalOpContinues(d: DB, h: seq<View>, op: Op, p: Probe) returns (g: seq<View>)
    requires Sound(d, h, p)
    requires op.AddRefund? || op.SubRefund? || op.AddLog? || op.AddAddressToAccessList? || op.AddSlotToAccessList?
    ensures Continues(d, h, Apply(d, op), g, p)
  {
    hide Continues;
    match op {
      case AddRefund(gas) => g := RefundContinues(d, h, (d.refund + gas) % TWO_64, p);
      case SubRefund(gas) => g := RefundContinues(d, h, if gas > d.refund then d.refund else d.refund - gas, p);
      case AddLog(data) => g := LogContinues(d, h, data, p);
      case AddAddressToAccessList(a) => g := AddressContinues(d, h, a, p);
      case AddSlotToAccessList(a, slot) => g := SlotContinues(d, h, a, slot, p);
    }
  }

  lemma ApplyContinues(d: DB, h: seq<View>, op: Op, p: Probe) returns (g: seq<View>)
    requires Sound(d, h, p)
    ensures Continues(d, h, Apply(d, op), g, p)
  {
    if op.CreateAccount? {
      g := RecreateContinues(d, h, op.a, p);
    } else if op.Suicide? {
      g := SuicideContinues(d, h, op.a, p);
    } else if IsFieldOp(op) {
      g := FieldContinues(d, h, op, p);
    } else if op.Prepare? || op.GetAccount? || op.GetCode? {
      QuietContinues(d, h, op, p);
      g := h;
    } else {
      g := GlobalOpContinues(d, h, op, p);
    }
  }

  // ---- Reverting is sound ----

  function Popped(d: DB): DB
    requires d.journal != []
  {
    d.(journal := d.journal[..|d.journal| - 1])
  }

  /** c is sound but for the last view of h, which the entry e leads back from. */
  ghost predicate Poised(c: DB, h: seq<View>, e: Entry, p: Probe) {
    && c.WellFormed() && |h| == |c.journal| + 2
    && Linked(c.journal, h[..|c.journal| + 1], p, c.codeDb)
    && Frozen(c, h[..|c.journal| + 1], p)
    && h[|c.journal| + 1] == Observe(c, p)
    && Undoes(h[|c.journal| + 1], e, h[|c.journal|], p, c.codeDb)
  }

  lemma FieldReverts(c: DB, h: seq<View>, e: Entry, p: Probe)
    requires Poised(c, h, e, p) && IsFieldChange(e)
    ensures Revert(c, e).Some? && Revert(c, e).value.journal == c.journal
    ensures Sound(Revert(c, e).value, h[..|c.journal| + 1], p)
  {
    var a := e.account;
    var o := RestoreField(e, c.At(a));
    RestoreShows(e, c.At(a), p.k, c.codeDb);
    PutShows(c, a, o, p);
    PutKeepsFrozen(c, h[..|c.journal| + 1], a, o, p);
    assert c.objects.Keys + c.trie.Keys + {a} == c.objects.Keys + c.trie.Keys;
  }

  lemma GlobalReverts(c: DB, h: seq<View>, e: Entry, p: Probe)
    requires Poised(c, h, e, p) && (e.RefundChange? || e.AddLogChange? || e.AccessAddAccount? || e.AccessAddSlot?)
    ensures Revert(c, e).Some? && Revert(c, e).value.journal == c.journal
    ensures Sound(Revert(c, e).value, h[..|c.journal| + 1], p)
  {
    var t := Revert(c, e).value;
    assert t.objects == c.objects && t.trie == c.trie && t.store == c.store && t.codeDb == c.codeDb;
    assert Observe(t, p) == h[|c.journal|];
    assert t.WellFormed();
  }

  /** The last entry can be reverted, and the database is then sound for the shorter history. */
  lemma RevertIsSound(d: DB, h: seq<View>, p: Probe)
    requires Sound(d, h, p) && d.journal != []
    ensures var n := |d.journal| - 1;
            var r := Revert(Popped(d), d.journal[n]);
            r.Some? && r.value.journal == d.journal[..n] && Sound(r.value, h[..n + 1], p)
  {
    var n := |d.journal| - 1;
    var e, c := d.journal[n], Popped(d);
    hide LeadsBack, Frozen, RestoreField;
    PopPoises(d, h, p);
    if IsFieldChange(e) {
      FieldReverts(c, h, e, p);
    } else if e.CreateObject? {
      UncreateShows(c, e.account, p);
    } else if e.ResetObject? {
      RelinkShows(d, h, p);
    } else {
      GlobalReverts(c, h, e, p);
    }
  }

  lemma PopPoises(d: DB, h: seq<View>, p: Probe)
    requires Sound(d, h, p) && d.journal != []
    ensures Poised(Popped(d), h, d.journal[|d.journal| - 1], p)
  {
    LinkOneLess(d.journal, h, p, d.codeDb);
  }

  lemma UncreateShows(c: DB, a: Address, p: Probe)
    requires c.WellFormed() && a !in c.trie && c.Exists(a)
    ensures var t := c.(objects := c.objects - {a});
            var v := Observe(c, p);
            && t.WellFormed()
            && Observe(t, p) == v.(existing := v.existing - {a}, account := if a == p.a then Absent else v.account)
  {
    var t := c.(objects := c.objects - {a});
    assert t.objects.Keys + t.trie.Keys == c.objects.Keys + c.trie.Keys - {a};
  }

  /** Putting a displaced object back shows what it showed when it was displaced. */
  lemma RelinkShows(d: DB, h: seq<View>, p: Probe)
    requires Sound(d, h, p) && d.journal != [] && d.journal[|d.journal| - 1].ResetObject?
    ensures var n := |d.journal| - 1;
            var t := Popped(d).(objects := d.objects[d.journal[n].account := d.journal[n].prev]);
            t.WellFormed() && Observe(t, p) == h[n]
  {
    var n := |d.journal| - 1;
    var a := d.journal[n].account;
    LinkOneLess(d.journal, h, p, d.codeDb);
    var t := Popped(d).(objects := d.objects[a := d.journal[n].prev]);
    assert t.objects.Keys + t.trie.Keys == d.objects.Keys + d.trie.Keys;
    assert forall i :: 0 <= i < n ==> t.journal[i] == d.journal[i];
  }

  // ---- Whole transactions ----

  /** The calls in order. Every state along a run is well-formed, so the guard never bites (RunContinues). */
  ghost function Run(d: DB, ops: seq<Op>): DB {
    if ops == [] then d
    else
      var t := Run(d, ops[..|ops| - 1]);
      if t.WellFormed() then Apply(t, ops[|ops| - 1]) else t
  }

  /** Calls `revert` on the last `count` entries, newest first; None if one of them would panic. */
  ghost function RevertEntries(d: DB, count: nat): Option<DB>
    requires count <= |d.journal|
    decreases count
  {
    if count == 0 then Some(d)
    else if !d.LiveApart() then None
    else
      match Revert(Popped(d), d.journal[|d.journal| - 1])
      case None => None
      case Some(t) => if |t.journal| == |d.journal| - 1 then RevertEntries(t, count - 1) else None
  }

  lemma {:induction false} RunContinues(d: DB, h: seq<View>, ops: seq<Op>, p: Probe) returns (g: seq<View>)
    requires Sound(d, h, p)
    ensures Continues(d, h, Run(d, ops), g, p)
  {
    if ops == [] {
      g := h;
    } else {
      var t := Run(d, ops[..|ops| - 1]);
      var mid := RunContinues(d, h, ops[..|ops| - 1], p);
      g := ApplyContinues(t, mid, ops[|ops| - 1], p);
    }
  }

  lemma SoundShape(d: DB, h: seq<View>, p: Probe)
    requires Sound(d, h, p)
    ensures |h| == |d.journal| + 1 && d.LiveApart()
  {
  }

  lemma {:induction false} RevertEntriesIsSound(d: DB, h: seq<View>, count: nat, p: Probe)
    requires Sound(d, h, p) && count <= |d.journal|
    ensures var n := |d.journal| - count;
            var r := RevertEntries(d, count);
            r.Some? && r.value.journal == d.journal[..n] && Sound(r.value, h[..n + 1], p)
    decreases count
  {
    hide Sound, Revert;
    SoundShape(d, h, p);
    if count == 0 {
      assert d.journal[..|d.journal|] == d.journal && h[..|d.journal| + 1] == h;
    } else {
      var m := |d.journal| - 1;
      RevertIsSound(d, h, p);
      var t := Revert(Popped(d), d.journal[m]).value;
      RevertEntriesIsSound(t, h[..m + 1], count - 1, p);
      assert d.journal[..m][..m - (count - 1)] == d.journal[..m + 1 - count];
      assert h[..m + 1][..m - (count - 1) + 1] == h[..m + 1 - count + 1];
    }
  }

  /** A database with an empty journal is sound, whatever it holds. */
  lemma StartIsSound(d: DB, p: Probe)
    requires d.WellFormed() && d.journal == []
    ensures Sound(d, [Observe(d, p)], p)
  {
  }

  /** Reverting the entries t has beyond s, newest first, never panics and restores everything a reader of
      s can see: which accounts exist, the probed account's fields, code and word, the refund counter, the logs
      and the access list. */
  ghost predicate RewindsTo(t: DB, s: DB, p: Probe) {
    && s.WellFormed() && s.journal <= t.journal
    && var r := RevertEntries(t, |t.journal| - |s.journal|);
       r.Some? && r.value.WellFormed() && r.value.journal == s.journal && Observe(r.value, p) == Observe(s, p)
  }

  lemma ContinuationRewinds(s: DB, h: seq<View>, t: DB, g: seq<View>, p: Probe)
    requires Sound(s, h, p) && Continues(s, h, t, g, p)
    ensures RewindsTo(t, s, p)
  {
    RevertEntriesIsSound(t, g, |t.journal| - |s.journal|, p);
    assert t.journal[..|s.journal|] == s.journal && g[..|s.journal| + 1] == h;
  }

  /** For any calls `before` and any calls `after` them, reverting the entries of `after` restores, at every
      address and key, what was visible when `before` ended. */
  lemma RevertRestores(d: DB, before: seq<Op>, after: seq<Op>, p: Probe)
    requires d.WellFormed() && d.journal == []
    ensures RewindsTo(Run(Run(d, before), after), Run(d, before), p)
  {
    hide Run, Sound, Apply;
    StartIsSound(d, p);
    var h := RunContinues(d, [Observe(d, p)], before, p);
    var g := RunContinues(Run(d, before), h, after, p);
    ContinuationRewinds(Run(d, before), h, Run(Run(d, before), after), g, p);
  }
}
