// An account's transactions as a plain map from nonces, and what the pool's lists do to such a map.
module NonceMaps {
  import opened Basics
  import opened Transactions

  type Txs = map<Nonce, Tx>

  /** Every transaction is filed under its own nonce, a 64-bit unsigned number. */
  ghost predicate Keyed(m: Txs) {
    forall n :: n in m ==> m[n].nonce == n && 0 <= n <= MAX_NONCE
  }

  // ---- Ends ----

  ghost predicate IsLowest(keys: set<int>, n: int) { n in keys && forall k :: k in keys ==> n <= k }
  ghost predicate IsHighest(keys: set<int>, n: int) { n in keys && forall k :: k in keys ==> k <= n }

  lemma {:induction false} LowestExists(keys: set<int>)
    requires keys != {}
    ensures exists n :: IsLowest(keys, n)
    decreases keys
  {
    var x := Member(keys);
    if keys == {x} {
      assert IsLowest(keys, x);
    } else {
      LowestExists(keys - {x});
      var n :| IsLowest(keys - {x}, n);
      var l := if x < n then x else n;
      forall k | k in keys ensures l <= k { assert k == x || k in keys - {x}; }
      assert IsLowest(keys, l);
    }
  }

  lemma {:induction false} HighestExists(keys: set<int>)
    requires keys != {}
    ensures exists n :: IsHighest(keys, n)
    decreases keys
  {
    var x := Member(keys);
    if keys == {x} {
      assert IsHighest(keys, x);
    } else {
      HighestExists(keys - {x});
      var n :| IsHighest(keys - {x}, n);
      var l := if x > n then x else n;
      forall k | k in keys ensures k <= l { assert k == x || k in keys - {x}; }
      assert IsHighest(keys, l);
    }
  }

  ghost function Lowest(keys: set<int>): (n: int)
    requires keys != {}
    ensures IsLowest(keys, n)
  {
    LowestExists(keys);
    var n :| IsLowest(keys, n); n
  }

  ghost function Highest(keys: set<int>): (n: int)
    requires keys != {}
    ensures IsHighest(keys, n)
  {
    HighestExists(keys);
    var n :| IsHighest(keys, n); n
  }

  // ---- In order of nonces ----

  ghost function Flat(m: Txs): (s: seq<Tx>)
    ensures |s| == |m|
    decreases |m|
  {
    if m == map[] then [] else
      var n := Lowest(m.Keys);
      var rest := m - {n};
      assert rest.Keys == m.Keys - {n};
      [m[n]] + Flat(rest)
  }

  ghost predicate Ascends(s: seq<Tx>) {
    forall i, j :: 0 <= i < j < |s| ==> s[i].nonce < s[j].nonce
  }

  /** The sequence has exactly the transactions of the map, each once. */
  ghost predicate Lists(m: Txs, s: seq<Tx>) {
    && (forall x :: x in s <==> x.nonce in m && m[x.nonce] == x)
    && (forall i, j :: 0 <= i < j < |s| ==> s[i].nonce != s[j].nonce)
  }

  lemma FlatStarts(m: Txs)
    requires m != map[]
    ensures var n := Lowest(m.Keys); Flat(m) == [m[n]] + Flat(m - {n}) && |m - {n}| == |m| - 1
  {
    var n := Lowest(m.Keys);
    assert (m - {n}).Keys == m.Keys - {n};
  }

  lemma {:induction false} FlatLists(m: Txs)
    requires Keyed(m)
    ensures Lists(m, Flat(m)) && Ascends(Flat(m))
    decreases |m|
  {
    hide Flat, Lowest;
    if m != map[] {
      var n := Lowest(m.Keys);
      var rest := m - {n};
      FlatStarts(m);
      FlatLists(rest);
      var t := Flat(rest);
      forall x ensures x in [m[n]] + t <==> x.nonce in m && m[x.nonce] == x {
        assert x in [m[n]] + t <==> x == m[n] || x in t;
      }
      AscendsAcross([m[n]], t, n + 1);
    }
  }

  /** An ascending listing starts with the lowest nonce and goes on with the others. */
  lemma StartsLowest(m: Txs, s: seq<Tx>)
    requires Keyed(m) && Ascends(s) && s != [] && (forall x :: x in s <==> x.nonce in m && m[x.nonce] == x)
    ensures s[0].nonce in m && s[0] == m[Lowest(m.Keys)]
    ensures forall x :: x in s[1..] <==> x.nonce in m && x.nonce != s[0].nonce && m[x.nonce] == x
  {
    hide Lowest;
    assert s == [s[0]] + s[1..];
    assert s[0] in s;
    assert m[Lowest(m.Keys)] in s;
    forall x | x in s[1..] ensures x in s && x.nonce > s[0].nonce { }
  }

  /** The flattened form is the only ascending listing. */
  lemma {:induction false} FlatUnique(m: Txs, s: seq<Tx>)
    requires Keyed(m) && Ascends(s) && (forall x :: x in s <==> x.nonce in m && m[x.nonce] == x)
    ensures s == Flat(m)
    decreases |m|
  {
    hide Lowest;
    if s == [] {
      assert forall n :: n in m ==> m[n] in s;
      assert m == map[];
    } else {
      hide Flat;
      StartsLowest(m, s);
      FlatStarts(m);
      FlatUnique(m - {s[0].nonce}, s[1..]);
      assert s == [s[0]] + s[1..];
    }
  }

  /** Without the highest, the flattened form lacks its last element. */
  lemma {:induction false} FlatLast(m: Txs, n: int)
    requires Keyed(m) && IsHighest(m.Keys, n)
    ensures Flat(m) == Flat(m - {n}) + [m[n]]
  {
    var rest := m - {n};
    assert rest.Keys == m.Keys - {n};
    FlatLists(rest);
    var s := Flat(rest) + [m[n]];
    forall x ensures x in s <==> x.nonce in m && m[x.nonce] == x {
      assert x in s <==> x in Flat(rest) || x == m[n];
    }
    AscendsAcross(Flat(rest), [m[n]], n);
    FlatUnique(m, s);
  }

  lemma LastIsHighest(m: Txs)
    requires Keyed(m) && m != map[]
    ensures IsHighest(m.Keys, Flat(m)[|m| - 1].nonce) && m[Flat(m)[|m| - 1].nonce] == Flat(m)[|m| - 1]
  {
    var n := Highest(m.Keys);
    FlatLast(m, n);
  }

  lemma AscendsAcross(s: seq<Tx>, r: seq<Tx>, t: int)
    requires Ascends(s) && Ascends(r) && (forall x :: x in s ==> x.nonce < t) && (forall x :: x in r ==> x.nonce >= t)
    ensures Ascends(s + r)
  {
    var sr := s + r;
    forall i, j | 0 <= i < j < |sr| ensures sr[i].nonce < sr[j].nonce {
      assert i < |s| ==> sr[i] in s;
      assert j >= |s| ==> sr[j] in r;
    }
  }

  /** Flattening in two parts, one below the other. */
  lemma FlatSplit(m: Txs, t: int)
    requires Keyed(m)
    ensures Flat(m) == Flat(Below(m, t)) + Flat(AtLeast(m, t))
  {
    var a, b := Below(m, t), AtLeast(m, t);
    FlatLists(a);
    FlatLists(b);
    var s := Flat(a) + Flat(b);
    forall x ensures x in s <==> x.nonce in m && m[x.nonce] == x {
      assert x in s <==> x in Flat(a) || x in Flat(b);
    }
    AscendsAcross(Flat(a), Flat(b), t);
    FlatUnique(m, s);
  }

  function Below(m: Txs, t: int): Txs {
    map n | n in m && n < t :: m[n]
  }

  function AtLeast(m: Txs, t: int): Txs {
    map n | n in m && n >= t :: m[n]
  }

  // ---- Runs without a gap ----

  /** The first nonce from n on that is missing. */
  function RunEnd(keys: set<int>, n: int): (r: int)
    ensures n <= r && r !in keys && forall k :: n <= k < r ==> k in keys
    decreases |keys|
  {
    if n !in keys then n else
      assert |keys - {n}| < |keys|;
      var rest := keys - {n};
      var r := RunEnd(rest, n + 1);
      assert forall k :: k in rest ==> k in keys;
      assert forall k :: n <= k < r ==> k == n || k in rest;
      r
  }

  // ---- What the list operations leave and take ----

  /** Nonces in [lo, hi). */
  function Between(m: Txs, lo: int, hi: int): (r: Txs) {
    map n | n in m && lo <= n < hi :: m[n]
  }

  /** What Ready takes for start: the gap-free run from the lowest nonce, if that is not above start. */
  ghost function Readied(m: Txs, start: int): (r: Txs) {
    if m == map[] || Lowest(m.Keys) > start then map[]
    else Between(m, Lowest(m.Keys), RunEnd(m.Keys, Lowest(m.Keys)))
  }

  /** What Cap leaves: the k lowest nonces. */
  ghost function Capped(m: Txs, k: int): (r: Txs)
    requires 0 <= k
    decreases |m|
  {
    if |m| <= k then m else
      var n := Highest(m.Keys);
      assert (m - {n}).Keys == m.Keys - {n};
      Capped(m - {n}, k)
  }

  lemma {:induction false} CappedMeans(m: Txs, k: int)
    requires 0 <= k
    ensures var r := Capped(m, k);
            && r.Keys <= m.Keys && (forall n :: n in r ==> r[n] == m[n])
            && |r| == (if |m| <= k then |m| else k)
            && forall a, b :: a in r && b in m && b !in r ==> a < b
    decreases |m|
  {
    if |m| > k {
      var n := Highest(m.Keys);
      assert (m - {n}).Keys == m.Keys - {n};
      CappedMeans(m - {n}, k);
    }
  }

  predicate Unpayable(tx: Tx, costLimit: int, gasLimit: int) {
    tx.gas > gasLimit || tx.cost > costLimit
  }

  /** What the naive filter removes for cost or gas, what it then invalidates in a strict list, and what it keeps. */
  function FilterDrops(m: Txs, costLimit: int, gasLimit: int): Txs {
    map n | n in m && Unpayable(m[n], costLimit, gasLimit) :: m[n]
  }

  ghost function FilterInvalids(m: Txs, strict: bool, costLimit: int, gasLimit: int): Txs {
    map n | n in m && strict && !Unpayable(m[n], costLimit, gasLimit) && GapBelow(m, n, costLimit, gasLimit) :: m[n]
  }

  ghost function Filtered(m: Txs, strict: bool, costLimit: int, gasLimit: int): Txs {
    map n | n in m && !Unpayable(m[n], costLimit, gasLimit) && !(strict && GapBelow(m, n, costLimit, gasLimit)) :: m[n]
  }

  /** Some lower nonce is dropped. */
  ghost predicate GapBelow(m: Txs, n: int, costLimit: int, gasLimit: int) {
    exists k :: k in m && k < n && Unpayable(m[k], costLimit, gasLimit)
  }

  /** The rule for replacing a transaction: strictly more fee cap and tip, and by the bump in percent. */
  predicate Outbids(tx: Tx, held: Tx, bump: int) {
    && tx.feeCap > held.feeCap && tx.tip > held.tip
    && tx.feeCap >= (100 + bump) * held.feeCap / 100 && tx.tip >= (100 + bump) * held.tip / 100
  }

  predicate Admits(m: Txs, tx: Tx, bump: int) {
    tx.nonce !in m || Outbids(tx, m[tx.nonce], bump)
  }
}
