// What the pool's structures have to agree on: two lists per account, the lookup, and the next nonces.
module PoolStates {
  import opened NonceMaps
  import opened Transactions

  /** Per account, its transactions by nonce. */
  type Lists = map<Address, Txs>

  function At(m: Lists, a: Address): Txs {
    if a in m then m[a] else map[]
  }

  /** The lists with the account's replaced; no empty list is kept. */
  function With(m: Lists, a: Address, t: Txs): Lists {
    if t == map[] then m - {a} else m[a := t]
  }

  lemma AtWith(m: Lists, a: Address, t: Txs)
    ensures At(With(m, a, t), a) == t && OthersSame(m, With(m, a, t), a)
    ensures NonEmpty(m) ==> NonEmpty(With(m, a, t))
  {
  }

  ghost predicate NonEmpty(m: Lists) { forall a :: a in m ==> m[a] != map[] }

  predicate Has(t: Txs, x: Tx) { x.nonce in t && t[x.nonce] == x }

  ghost predicate Owned(t: Txs, a: Address) {
    Keyed(t) && forall n :: n in t ==> t[n].sender == a
  }

  /** Of one account: the nonces of its two lists are apart, and the lookup has just what they have. */
  ghost predicate AccountOk(a: Address, p: Txs, q: Txs, all: set<Tx>) {
    && Owned(p, a) && Owned(q, a) && p.Keys !! q.Keys
    && forall x: Tx :: x.sender == a ==> (x in all <==> Has(p, x) || Has(q, x))
  }

  /** The lookup is the disjoint union of the pending and the queued transactions. */
  ghost predicate Consistent(pending: Lists, queue: Lists, all: set<Tx>) {
    && NonEmpty(pending) && NonEmpty(queue)
    && forall a :: AccountOk(a, At(pending, a), At(queue, a), all)
  }

  /** A change to one account is a matter of that account alone. */
  lemma AccountChanged(p: Lists, q: Lists, all: set<Tx>, p': Lists, q': Lists, all': set<Tx>, a: Address)
    requires Consistent(p, q, all) && NonEmpty(p') && NonEmpty(q')
    requires OthersSame(p, p', a) && OthersSame(q, q', a)
    requires forall x: Tx :: x.sender != a ==> (x in all' <==> x in all)
    requires AccountOk(a, At(p', a), At(q', a), all')
    ensures Consistent(p', q', all')
  {
    forall b ensures AccountOk(b, At(p', b), At(q', b), all') {
      assert AccountOk(b, At(p, b), At(q, b), all);
    }
  }

  /** Only the account's list changed. */
  ghost predicate OthersSame(m: Lists, m': Lists, a: Address) {
    forall b {:trigger At(m', b)} :: b != a ==> At(m', b) == At(m, b)
  }

  /** Taking a transaction out of a strict list sends everything above it to the queue. */
  lemma OutOfPending(a: Address, p: Txs, q: Txs, all: set<Tx>, tx: Tx)
    requires AccountOk(a, p, q, all) && tx.sender == a && Has(p, tx)
    ensures AtLeast(p, tx.nonce + 1).Keys !! q.Keys && Owned(AtLeast(p, tx.nonce + 1), a)
    ensures AccountOk(a, Below(p, tx.nonce), q + AtLeast(p, tx.nonce + 1), all - {tx})
  {
    var p', q' := Below(p, tx.nonce), q + AtLeast(p, tx.nonce + 1);
    forall x: Tx | x.sender == a ensures x in all - {tx} <==> Has(p', x) || Has(q', x) {
      assert x in all <==> Has(p, x) || Has(q, x);
    }
  }

  lemma OutOfQueue(a: Address, p: Txs, q: Txs, all: set<Tx>, tx: Tx)
    requires AccountOk(a, p, q, all) && tx.sender == a && Has(q, tx)
    ensures AccountOk(a, p, q - {tx.nonce}, all - {tx})
  {
    var q' := q - {tx.nonce};
    forall x: Tx | x.sender == a ensures x in all - {tx} <==> Has(p, x) || Has(q', x) {
      assert x in all <==> Has(p, x) || Has(q, x);
    }
  }

  /** The lookup without the transactions of a list. */
  ghost predicate LacksJust(all: set<Tx>, all': set<Tx>, t: Txs) {
    forall x :: x in all' <==> x in all && !Has(t, x)
  }

  /** The list is split in two. */
  ghost predicate Parts(q: Txs, drop: Txs, rest: Txs) {
    && drop.Keys + rest.Keys == q.Keys && drop.Keys !! rest.Keys
    && (forall n :: n in drop ==> drop[n] == q[n]) && (forall n :: n in rest ==> rest[n] == q[n])
  }

  lemma PartsByNonce(q: Txs, t: Nonce)
    ensures Parts(q, Below(q, t), AtLeast(q, t))
  {
  }

  lemma PartsByCost(q: Txs, costLimit: int, gasLimit: int)
    ensures Parts(q, FilterDrops(q, costLimit, gasLimit), Filtered(q, false, costLimit, gasLimit))
  {
  }

  lemma PartsByCap(q: Txs, k: int)
    requires 0 <= k
    ensures Parts(q, q - Capped(q, k).Keys, Capped(q, k))
  {
    hide Capped;
    CappedMeans(q, k);
    var r := Capped(q, k);
    assert (q - r.Keys).Keys == q.Keys - r.Keys;
  }

  /** Dropping part of the queued list for good. */
  lemma DroppedFromQueue(a: Address, p: Txs, q: Txs, all: set<Tx>, drop: Txs, rest: Txs, all': set<Tx>)
    requires AccountOk(a, p, q, all) && LacksJust(all, all', drop)
    requires Parts(q, drop, rest)
    ensures AccountOk(a, p, rest, all') && forall x: Tx :: x.sender != a ==> (x in all' <==> x in all)
  {
    forall x: Tx | x.sender == a ensures x in all' <==> Has(p, x) || Has(rest, x) {
      assert x in all <==> Has(p, x) || Has(q, x);
    }
    forall x: Tx | x.sender != a ensures x in all' <==> x in all {
      assert x.nonce in drop ==> drop[x.nonce] == q[x.nonce] && q[x.nonce].sender == a;
    }
  }

  lemma DroppedFromPending(a: Address, p: Txs, q: Txs, all: set<Tx>, drop: Txs, rest: Txs, all': set<Tx>)
    requires AccountOk(a, p, q, all) && LacksJust(all, all', drop) && Parts(p, drop, rest)
    ensures AccountOk(a, rest, q, all') && forall x: Tx :: x.sender != a ==> (x in all' <==> x in all)
  {
    forall x: Tx | x.sender == a ensures x in all' <==> Has(rest, x) || Has(q, x) {
      assert x in all <==> Has(p, x) || Has(q, x);
    }
    forall x: Tx | x.sender != a ensures x in all' <==> x in all {
      assert x.nonce in drop ==> drop[x.nonce] == p[x.nonce] && p[x.nonce].sender == a;
    }
  }

  /** Moving part of the pending list to the queued one loses nothing. */
  lemma MovedDown(a: Address, p: Txs, q: Txs, all: set<Tx>, down: Txs, rest: Txs)
    requires AccountOk(a, p, q, all) && Parts(p, down, rest)
    ensures Owned(down, a) && down.Keys !! q.Keys && AccountOk(a, rest, q + down, all)
  {
    var q' := q + down;
    forall x: Tx | x.sender == a ensures x in all <==> Has(rest, x) || Has(q', x) {
      assert x in all <==> Has(p, x) || Has(q, x);
    }
  }

  /** In a strict list, what is dropped, invalidated and kept: the lowest of the dropped is the boundary. */
  lemma StrictParts(p: Txs, costLimit: int, gasLimit: int, lowest: Nonce)
    requires var drops := FilterDrops(p, costLimit, gasLimit); drops != map[] && IsLowest(drops.Keys, lowest)
    ensures Filtered(p, true, costLimit, gasLimit) == Below(p, lowest)
    ensures FilterInvalids(p, true, costLimit, gasLimit) ==
            AtLeast(p, lowest + 1) - FilterDrops(p, costLimit, gasLimit).Keys
  {
    var drops := FilterDrops(p, costLimit, gasLimit);
    forall n | n in p ensures GapBelow(p, n, costLimit, gasLimit) <==> lowest < n {
      if GapBelow(p, n, costLimit, gasLimit) {
        var k :| k in p && k < n && Unpayable(p[k], costLimit, gasLimit);
        assert k in drops;
      }
      if lowest < n { assert lowest in drops && lowest in p; }
    }
  }

  lemma NoStrictParts(p: Txs, costLimit: int, gasLimit: int)
    requires FilterDrops(p, costLimit, gasLimit) == map[]
    ensures Filtered(p, true, costLimit, gasLimit) == p && FilterInvalids(p, true, costLimit, gasLimit) == map[]
  {
    forall n | n in p ensures !Unpayable(p[n], costLimit, gasLimit) {
      assert n !in FilterDrops(p, costLimit, gasLimit);
    }
  }

  lemma PartsOfStrict(p: Txs, costLimit: int, gasLimit: int)
    ensures Parts(p, FilterDrops(p, costLimit, gasLimit), Filtered(p, false, costLimit, gasLimit))
    ensures Parts(Filtered(p, false, costLimit, gasLimit), FilterInvalids(p, true, costLimit, gasLimit),
            Filtered(p, true, costLimit, gasLimit))
  {
  }

  /** Moving one transaction from the queued to the pending list. */
  lemma MovedUp(a: Address, p: Txs, q: Txs, all: set<Tx>, n: Nonce)
    requires AccountOk(a, p, q, all) && n in q
    ensures n !in p && AccountOk(a, p[n := q[n]], q - {n}, all)
  {
    var p', q' := p[n := q[n]], q - {n};
    forall x: Tx | x.sender == a ensures x in all <==> Has(p', x) || Has(q', x) {
      assert x in all <==> Has(p, x) || Has(q, x);
    }
  }

  // ---- Next nonces ----

  function StateNonce(state: map<Address, Nonce>, a: Address): Nonce {
    if a in state then state[a] else 0
  }

  function NextNonce(nonces: map<Address, Nonce>, state: map<Address, Nonce>, a: Address): Nonce {
    if a in nonces then nonces[a] else StateNonce(state, a)
  }

  /** The nonces are just those from lo up to hi. */
  ghost predicate IsRun(t: Txs, lo: Nonce, hi: Nonce) {
    lo <= hi && forall n :: n in t <==> lo <= n < hi
  }

  /** Each account's pending list runs from its state nonce without a gap, and the next nonce is one past its end. */
  ghost predicate Contiguous(pending: Lists, nonces: map<Address, Nonce>, state: map<Address, Nonce>) {
    forall a :: IsRun(At(pending, a), StateNonce(state, a), NextNonce(nonces, state, a))
  }

  lemma RunChanged(p: Lists, nonces: map<Address, Nonce>, state: map<Address, Nonce>, p': Lists,
                   nonces': map<Address, Nonce>, a: Address)
    requires Contiguous(p, nonces, state)
    requires OthersSame(p, p', a) && forall b :: b != a ==> NextNonce(nonces', state, b) == NextNonce(nonces, state, b)
    requires IsRun(At(p', a), StateNonce(state, a), NextNonce(nonces', state, a))
    ensures Contiguous(p', nonces', state)
  {
    forall b ensures IsRun(At(p', b), StateNonce(state, b), NextNonce(nonces', state, b)) {
      assert IsRun(At(p, b), StateNonce(state, b), NextNonce(nonces, state, b));
    }
  }

  lemma AccountIn(p: Lists, q: Lists, all: set<Tx>, a: Address)
    requires Consistent(p, q, all)
    ensures NonEmpty(p) && NonEmpty(q) && AccountOk(a, At(p, a), At(q, a), all)
    ensures forall x :: x in all && x.sender == a ==> Has(At(p, a), x) || Has(At(q, a), x)
    ensures At(p, a).Keys !! At(q, a).Keys
  {
    assert AccountOk(a, At(p, a), At(q, a), all);
  }

  lemma RunCutAt(p: Lists, nonces: map<Address, Nonce>, state: map<Address, Nonce>, a: Address, n: Nonce)
    requires Contiguous(p, nonces, state) && n in At(p, a)
    ensures n < NextNonce(nonces, state, a) && IsRun(Below(At(p, a), n), StateNonce(state, a), n)
  {
    RunCut(At(p, a), StateNonce(state, a), NextNonce(nonces, state, a), n);
  }

  lemma RunCut(t: Txs, lo: Nonce, hi: Nonce, n: Nonce)
    requires IsRun(t, lo, hi) && n in t
    ensures n < hi && IsRun(Below(t, n), lo, n)
  {
  }

  /** Promotion onto a run: the queue's readied run starts where the pending one ends, and the next nonce is right
      after it exactly if it does not wrap. */
  lemma RunExtended(p: Txs, q: Txs, lo: Nonce, hi: Nonce, from: Nonce, to: Nonce)
    requires IsRun(p, lo, hi) && p.Keys !! q.Keys && (forall n :: n in q ==> lo <= n)
    requires from < to && from <= hi && IsLowest(q.Keys, from) && (forall k :: from <= k < to ==> k in q)
    requires Keyed(q)
    ensures from == hi && IsRun(p + Between(q, from, to), lo, to)
    ensures IsRun(p + Between(q, from, to), lo, to % (MAX_NONCE + 1)) <==> MAX_NONCE !in Between(q, from, to)
  {
    assert from in q && to - 1 in q;
    assert from == hi;
    var p' := p + Between(q, from, to);
    assert IsRun(p', lo, to);
    if MAX_NONCE in Between(q, from, to) {
      assert to == MAX_NONCE + 1 && MAX_NONCE in p';
    }
  }

  // ---- Counting ----

  /** The transactions in the lists of some accounts. */
  ghost function Sum(keys: set<Address>, m: Lists): (n: int)
    ensures n >= 0
    decreases keys
  {
    if keys == {} then 0 else
      var a := Lowest(keys);
      |At(m, a)| + Sum(keys - {a}, m)
  }

  ghost function Total(m: Lists): int { Sum(m.Keys, m) }

  /** Any account may be counted first. */
  lemma {:induction false} SumFrom(keys: set<Address>, m: Lists, a: Address)
    requires a in keys
    ensures Sum(keys, m) == |At(m, a)| + Sum(keys - {a}, m)
    decreases keys
  {
    var b := Lowest(keys);
    if a != b {
      SumFrom(keys - {b}, m, a);
      SumFrom(keys - {a}, m, b);
      assert keys - {b} - {a} == keys - {a} - {b};
    }
  }

  lemma {:induction false} SumSame(keys: set<Address>, m: Lists, m': Lists)
    requires forall a :: a in keys ==> |At(m', a)| == |At(m, a)|
    ensures Sum(keys, m') == Sum(keys, m)
    decreases keys
  {
    if keys != {} {
      SumSame(keys - {Lowest(keys)}, m, m');
    }
  }

  lemma {:induction false} SumSplit(some: set<Address>, others: set<Address>, m: Lists)
    requires some !! others
    ensures Sum(some + others, m) == Sum(some, m) + Sum(others, m)
    decreases some
  {
    if some == {} {
      assert some + others == others;
    } else {
      var a := Lowest(some);
      SumFrom(some + others, m, a);
      assert some + others - {a} == some - {a} + others;
      SumSplit(some - {a}, others, m);
    }
  }

  /** Accounts without a list do not count. */
  lemma {:induction false} SumNone(keys: set<Address>, m: Lists)
    requires forall a :: a in keys ==> At(m, a) == map[]
    ensures Sum(keys, m) == 0
    decreases keys
  {
    if keys != {} {
      SumNone(keys - {Lowest(keys)}, m);
    }
  }

  lemma TotalOver(keys: set<Address>, m: Lists)
    requires m.Keys <= keys
    ensures Total(m) == Sum(keys, m)
  {
    SumNone(keys - m.Keys, m);
    SumSplit(m.Keys, keys - m.Keys, m);
    assert m.Keys + (keys - m.Keys) == keys;
  }

  /** One account's list changed. */
  lemma TotalChanged(m: Lists, m': Lists, a: Address)
    requires OthersSame(m, m', a)
    ensures Total(m') == Total(m) - |At(m, a)| + |At(m', a)|
  {
    var keys := m.Keys + m'.Keys + {a};
    TotalOver(keys, m);
    TotalOver(keys, m');
    SumFrom(keys, m, a);
    SumFrom(keys, m', a);
    SumSame(keys - {a}, m, m');
  }

  /** Of some accounts and of the others. */
  lemma TotalSplit(m: Lists, accounts: set<Address>)
    ensures Total(m) == Sum(m.Keys * accounts, m) + Sum(m.Keys - accounts, m)
  {
    SumSplit(m.Keys * accounts, m.Keys - accounts, m);
    assert m.Keys * accounts + (m.Keys - accounts) == m.Keys;
  }
}
