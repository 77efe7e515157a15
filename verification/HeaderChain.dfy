/** Ancestor lookup through the canonical number index (`blockchain/octopus_headerchain.go`). */
module HeaderChain {
  import opened Basics
  import opened Chain

  datatype Header = Header(parent: Hash, number: int)

  /** rawdb.ReadCanonicalHash: the zero hash where the index has no entry. */
  function ReadCanonicalHash(canonical: map<int, Hash>, n: int): Hash {
    if n in canonical then canonical[n] else ZERO_HASH
  }

  function GetHeader(headers: map<Hash, Header>, h: Hash, n: int): Option<Header> {
    if h in headers && headers[h].number == n then Some(headers[h]) else None
  }

  /** The plain walk: k headers read one by one. */
  function NthParent(headers: map<Hash, Header>, h: Hash, n: int, k: nat): Option<Hash> {
    if k == 0 then Some(h)
    else
      match NthParent(headers, h, n, k - 1)
      case None => None
      case Some(x) =>
        match GetHeader(headers, x, n - (k - 1))
        case None => None
        case Some(header) => Some(header.parent)
  }

  /** The zero hash is no block, and only a genesis header names it as parent. */
  ghost predicate HeadersSound(headers: map<Hash, Header>) {
    && ZERO_HASH !in headers
    && forall h :: h in headers ==> headers[h].number >= 0 && (headers[h].number > 0 ==> headers[h].parent != ZERO_HASH)
  }

  /** Each canonical hash has its header, whose parent is the canonical hash below it. */
  ghost predicate IndexLinked(headers: map<Hash, Header>, canonical: map<int, Hash>) {
    && (forall n :: n in canonical ==> n >= 0 && canonical[n] in headers && headers[canonical[n]].number == n)
    && (forall n :: n in canonical && n > 0 ==> n - 1 in canonical && headers[canonical[n]].parent == canonical[n - 1])
  }

  /** Going down from a canonical block by headers and by the index is the same. */
  lemma {:induction false} IndexIsWalk(headers: map<Hash, Header>, canonical: map<int, Hash>, n: int, k: nat)
    requires IndexLinked(headers, canonical) && n in canonical && k <= n
    ensures n - k in canonical && NthParent(headers, canonical[n], n, k) == Some(canonical[n - k])
  {
    if k > 0 { IndexIsWalk(headers, canonical, n, k - 1); }
  }

  lemma {:induction false} WalkOn(headers: map<Hash, Header>, h: Hash, n: int, i: nat, k: nat)
    requires NthParent(headers, h, n, i).Some?
    ensures NthParent(headers, h, n, i + k) == NthParent(headers, NthParent(headers, h, n, i).value, n - i, k)
  {
    if k > 0 { WalkOn(headers, h, n, i, k - 1); }
  }

  /** After i individual steps the walk stands on a canonical block. */
  ghost predicate OnIndex(headers: map<Hash, Header>, canonical: map<int, Hash>, h: Hash, n: int, i: nat) {
    NthParent(headers, h, n, i).Some? && n - i in canonical && canonical[n - i] == NthParent(headers, h, n, i).value
  }

  lemma {:induction false} WalkFails(headers: map<Hash, Header>, h: Hash, n: int, i: nat, k: nat)
    requires i <= k && NthParent(headers, h, n, i).None?
    ensures NthParent(headers, h, n, k).None?
    decreases k
  {
    if i < k { WalkFails(headers, h, n, i, k - 1); }
  }

  lemma {:induction false} WalkStaysOffZero(headers: map<Hash, Header>, h: Hash, n: int, i: nat)
    requires HeadersSound(headers) && h != ZERO_HASH && i <= n && NthParent(headers, h, n, i).Some?
    ensures NthParent(headers, h, n, i).value != ZERO_HASH
  {
    if i > 0 { WalkStaysOffZero(headers, h, n, i - 1); }
  }

  /** GetAncestor, from any hash. `steps` counts the headers asked for one by one. */
  method GetAncestor(headers: map<Hash, Header>, canonical: map<int, Hash>, hash0: Hash, number0: int, ancestor0: int,
                     maxNonCanonical0: int)
    returns (hash: Hash, number: int, maxNonCanonical: int, ghost steps: nat)
    requires HeadersSound(headers) && IndexLinked(headers, canonical)
    requires 0 <= number0 && 0 <= ancestor0 && 0 <= maxNonCanonical0
    // A real block: a non-zero answer is the plain walk's.
    ensures hash0 != ZERO_HASH && hash != ZERO_HASH ==>
              number == number0 - ancestor0 && NthParent(headers, hash0, number0, ancestor0) == Some(hash)
    // A zero answer means that the walk fails or that the index is out of the budget's reach.
    ensures hash0 != ZERO_HASH && hash == ZERO_HASH ==>
              || ancestor0 > number0
              || NthParent(headers, hash0, number0, ancestor0).None?
              || (ancestor0 > maxNonCanonical0 && forall i: nat :: i <= maxNonCanonical0 ==>
                  !OnIndex(headers, canonical, hash0, number0, i))
    // The zero hash beyond the index passes for canonical, and gets an answer it should not.
    ensures hash0 == ZERO_HASH ==>
              (hash != ZERO_HASH <==>
                 2 <= ancestor0 <= number0 && number0 !in canonical && number0 - ancestor0 in canonical)
    // The budget pays for individual steps only, and only while off the index.
    ensures maxNonCanonical == maxNonCanonical0 - steps && 0 <= maxNonCanonical
    ensures ancestor0 == 1 || ancestor0 > number0 ==> steps == 0
    ensures forall i: nat :: i < steps ==> !OnIndex(headers, canonical, hash0, number0, i)
  {
    steps, maxNonCanonical := 0, maxNonCanonical0;
    if ancestor0 > number0 {
      return ZERO_HASH, 0, maxNonCanonical, steps;
    }
    if ancestor0 == 1 {
      var header := GetHeader(headers, hash0, number0);
      assert NthParent(headers, hash0, number0, 0) == Some(hash0);
      if header.Some? {
        return header.value.parent, number0 - 1, maxNonCanonical, steps;
      }
      return ZERO_HASH, 0, maxNonCanonical, steps;
    }
    var ancestor := ancestor0;
    hash, number := hash0, number0;
    while ancestor != 0
      invariant 0 <= ancestor == ancestor0 - steps && number == number0 - steps && ancestor <= number
      invariant maxNonCanonical == maxNonCanonical0 - steps && 0 <= maxNonCanonical
      invariant NthParent(headers, hash0, number0, steps) == Some(hash)
      invariant hash0 == ZERO_HASH ==> steps == 0
      invariant forall i: nat :: i < steps ==> !OnIndex(headers, canonical, hash0, number0, i)
      decreases ancestor
    {
      if hash0 != ZERO_HASH { WalkStaysOffZero(headers, hash0, number0, steps); }
      if ReadCanonicalHash(canonical, number) == hash {
        var ancestorHash := ReadCanonicalHash(canonical, number - ancestor);
        if ReadCanonicalHash(canonical, number) == hash {
          if hash != ZERO_HASH {
            IndexIsWalk(headers, canonical, number, ancestor);
            WalkOn(headers, hash0, number0, steps, ancestor);
          }
          return ancestorHash, number - ancestor, maxNonCanonical, steps;
        }
      }
      assert !OnIndex(headers, canonical, hash0, number0, steps);
      if maxNonCanonical == 0 {
        return ZERO_HASH, 0, maxNonCanonical, steps;
      }
      maxNonCanonical := maxNonCanonical - 1;
      ancestor := ancestor - 1;
      var header := GetHeader(headers, hash, number);
      steps := steps + 1;
      if header.None? {
        WalkFails(headers, hash0, number0, steps, ancestor0);
        return ZERO_HASH, 0, maxNonCanonical, steps;
      }
      hash := header.value.parent;
      number := number - 1;
    }
  }

  /** The smallest wrong answer: with only a genesis block indexed, the zero hash at number 2 has "ancestor" 2. */
  method ZeroHashExample() returns (answer: Hash, walk: Option<Hash>)
    ensures answer != ZERO_HASH && walk == None
  {
    var headers, canonical := map[7 := Header(ZERO_HASH, 0)], map[0 := 7];
    var number, budget;
    ghost var steps;
    answer, number, budget, steps := GetAncestor(headers, canonical, ZERO_HASH, 2, 2, 0);
    assert NthParent(headers, ZERO_HASH, 2, 1) == None;
    walk := NthParent(headers, ZERO_HASH, 2, 2);
  }
}
