// The lookup of all the pool's transactions, local and remote, with the slots they take.
module TxLookups {
  import opened Basics
  import opened Transactions

  ghost function SlotSum(s: set<Tx>): int
    decreases s
  {
    if s == {} then 0 else
      var x :| x in s;
      NumSlots(x) + SlotSum(s - {x})
  }

  /** Any element may be taken out first. */
  lemma {:induction false} SlotSumWithout(s: set<Tx>, x: Tx)
    requires x in s
    ensures SlotSum(s) == NumSlots(x) + SlotSum(s - {x})
    decreases s
  {
    var y :| y in s && SlotSum(s) == NumSlots(y) + SlotSum(s - {y});
    if y != x {
      SlotSumWithout(s - {y}, x);
      SlotSumWithout(s - {x}, y);
      assert s - {y} - {x} == s - {x} - {y};
    }
  }

  lemma {:induction false} SlotSumSplit(a: set<Tx>, b: set<Tx>)
    requires a !! b
    ensures SlotSum(a + b) == SlotSum(a) + SlotSum(b)
    decreases a
  {
    if a == {} {
      assert a + b == b;
    } else {
      var x := Member(a);
      SlotSumWithout(a, x);
      SlotSumWithout(a + b, x);
      assert a + b - {x} == a - {x} + b;
      SlotSumSplit(a - {x}, b);
    }
  }

  lemma {:induction false} SlotSumGrows(a: set<Tx>, b: set<Tx>)
    requires a <= b
    ensures SlotSum(a) <= SlotSum(b)
    decreases b
  {
    if a != b {
      assert a + (b - a) == b;
      var x := Member(b - a);
      SlotSumWithout(b, x);
      SlotSumGrows(a, b - {x});
    }
  }

  class TxLookup {
    var slots: int
    var locals: set<Tx>
    var remotes: set<Tx>

    function All(): set<Tx>
      reads `locals, `remotes
    {
      locals + remotes
    }

    /** No transaction is both local and remote, and the slots are counted right. */
    ghost predicate Valid()
      reads this
    {
      locals !! remotes && slots == SlotSum(All())
    }

    constructor ()
      ensures Valid() && All() == {} && slots == 0
    {
      slots, locals, remotes := 0, {}, {};
    }

    /** The slots are counted whether or not the transaction is new, so they stay right exactly if it is. */
    method Add(tx: Tx, local: bool)
      requires Valid()
      modifies this
      ensures slots == old(slots) + NumSlots(tx) && All() == old(All()) + {tx}
      ensures locals == (if local then old(locals) + {tx} else old(locals))
      ensures remotes == (if local then old(remotes) else old(remotes) + {tx})
      ensures tx !in old(All()) ==> Valid()
    {
      slots := slots + NumSlots(tx);
      if local {
        locals := locals + {tx};
      } else {
        remotes := remotes + {tx};
      }
      if tx !in old(All()) {
        SlotSumWithout(All(), tx);
        assert All() - {tx} == old(All());
      }
    }

    /** Unknown transactions are let pass. */
    method Remove(tx: Tx)
      requires Valid()
      modifies this
      ensures Valid() && locals == old(locals) - {tx} && remotes == old(remotes) - {tx}
      ensures slots == if tx in old(All()) then old(slots) - NumSlots(tx) else old(slots)
    {
      if tx !in locals && tx !in remotes {
        assert locals - {tx} == locals && remotes - {tx} == remotes;
        return;
      }
      SlotSumWithout(All(), tx);
      slots := slots - NumSlots(tx);
      locals := locals - {tx};
      remotes := remotes - {tx};
      assert All() == old(All()) - {tx};
    }

    method Migrate(tx: Tx)
      requires tx in remotes && locals !! remotes
      modifies `locals, `remotes
      ensures locals !! remotes && All() == old(All()) && remotes == old(remotes) - {tx}
              && |remotes| == |old(remotes)| - 1
    {
      locals := locals + {tx};
      remotes := remotes - {tx};
    }

    /** The remote transactions of the given accounts become local; the count is of those moved. */
    method RemoteToLocals(accounts: set<Address>) returns (migrated: int)
      requires Valid()
      modifies this
      ensures Valid() && slots == old(slots) && All() == old(All()) && remotes <= old(remotes)
      ensures forall x :: x in old(remotes) ==> (x in remotes <==> x.sender !in accounts)
      ensures migrated == |old(remotes)| - |remotes|
    {
      migrated := 0;
      var rest := remotes;
      while rest != {}
        invariant rest <= remotes <= old(remotes) && slots == old(slots) && locals !! remotes && All() == old(All())
        invariant forall x :: x in old(remotes) && x !in remotes ==> x.sender in accounts
        invariant forall x :: x in remotes && x !in rest ==> x.sender !in accounts
        invariant migrated == |old(remotes)| - |remotes|
        decreases |rest|
      {
        var tx :| tx in rest;
        rest := rest - {tx};
        if tx.sender in accounts {
          Migrate(tx);
          migrated := migrated + 1;
        }
      }
    }

    method RemotesBelowTip(threshold: int) returns (found: seq<Tx>)
      requires Valid()
      ensures forall x :: x in found <==> x in remotes && x.tip < threshold
      ensures forall i, j :: 0 <= i < j < |found| ==> found[i] != found[j]
    {
      found := [];
      var rest := remotes;
      while rest != {}
        invariant rest <= remotes
        invariant forall x :: x in found <==> x in remotes && x !in rest && x.tip < threshold
        invariant forall i, j :: 0 <= i < j < |found| ==> found[i] != found[j]
        decreases |rest|
      {
        var tx :| tx in rest;
        rest := rest - {tx};
        if tx.tip < threshold {
          found := found + [tx];
        }
      }
    }
  }
}
