/** The per-transaction access list (`operationdb/octopus_operationdb.go`): addresses point into a
    list of slot sets by index, which is only sound if additions are undone in reverse order. */
module AccessLists {
  import opened StateObject

  const NO_SLOTS: int := -1

  datatype Access = Access(addresses: map<Address, int>, slots: seq<set<Key>>) {

    /** Indices are in range and not shared, and every slot set has an owner's slot in it. */
    ghost predicate WellFormed() {
      && (forall a :: a in addresses && addresses[a] != NO_SLOTS ==> 0 <= addresses[a] < |slots|)
      && (forall a, b :: a in addresses && b in addresses && addresses[a] == addresses[b] != NO_SLOTS ==> a == b)
      && (forall i :: 0 <= i < |slots| ==> slots[i] != {})
    }

    function AddAddress(a: Address): Access {
      if a in addresses then this else this.(addresses := addresses[a := NO_SLOTS])
    }

    function DeleteAddress(a: Address): Access {
      this.(addresses := addresses - {a})
    }

    predicate HasSlotSet(a: Address) {
      a in addresses && 0 <= addresses[a] < |slots|
    }

    function AddSlot(a: Address, slot: Key): Access
      requires WellFormed()
    {
      if a !in addresses || addresses[a] == NO_SLOTS then
        Access(addresses[a := |slots|], slots + [{slot}])
      else
        this.(slots := slots[addresses[a] := slots[addresses[a]] + {slot}])
    }

    /** The source indexes slots[idx] and cuts slots[:idx]; both need the index in range. */
    function DeleteSlot(a: Address, slot: Key): Access
      requires HasSlotSet(a)
    {
      var idx := addresses[a];
      var left := slots[idx] - {slot};
      if left == {} then Access(addresses[a := NO_SLOTS], slots[..idx]) else this.(slots := slots[idx := left])
    }

    predicate ContainsAddress(a: Address) {
      a in addresses
    }

    predicate Contains(a: Address, slot: Key) {
      HasSlotSet(a) && slot in slots[addresses[a]]
    }
  }

  /** AddAddress adds exactly one address and keeps the indices sound. */
  lemma AddAddressMeans(s: Access, a: Address, b: Address, q: Key)
    requires s.WellFormed()
    ensures s.AddAddress(a).WellFormed()
    ensures s.AddAddress(a).ContainsAddress(b) <==> s.ContainsAddress(b) || b == a
    ensures s.AddAddress(a).Contains(b, q) <==> s.Contains(b, q)
  {
  }

  lemma AddSlotKeepsIndices(s: Access, a: Address, slot: Key)
    requires s.WellFormed()
    ensures s.AddSlot(a, slot).WellFormed()
  {
    var t := s.AddSlot(a, slot);
    if s.HasSlotSet(a) {
      assert t.addresses == s.addresses && |t.slots| == |s.slots|;
      assert slot in t.slots[s.addresses[a]];
    } else {
      assert forall b :: b in t.addresses && t.addresses[b] == |s.slots| ==> b == a;
    }
  }

  /** AddSlot adds exactly one address and one pair. */
  lemma AddSlotMeans(s: Access, a: Address, slot: Key, b: Address, q: Key)
    requires s.WellFormed()
    ensures s.AddSlot(a, slot).ContainsAddress(b) <==> s.ContainsAddress(b) || b == a
    ensures s.AddSlot(a, slot).Contains(b, q) <==> s.Contains(b, q) || (b == a && q == slot)
  {
    if b != a && s.HasSlotSet(a) && s.HasSlotSet(b) {
      assert s.addresses[a] != s.addresses[b];
    }
  }

  lemma UndoAddAddress(s: Access, a: Address)
    requires !s.ContainsAddress(a)
    ensures s.AddAddress(a).DeleteAddress(a) == s
  {
  }

  /** Undoing an added slot restores the list with its address present, and a cut of the slot list
      removes the last set only. */
  lemma UndoAddSlot(s: Access, a: Address, slot: Key)
    requires s.WellFormed() && !s.Contains(a, slot)
    ensures var t := s.AddSlot(a, slot);
            && t.HasSlotSet(a)
            && t.DeleteSlot(a, slot) == s.AddAddress(a)
            && (t.slots[t.addresses[a]] == {slot} ==> t.addresses[a] == |t.slots| - 1)
  {
    var t := s.AddSlot(a, slot);
    if s.HasSlotSet(a) {
      var idx := s.addresses[a];
      assert t.slots[idx] - {slot} == s.slots[idx];
      assert t.slots[idx := s.slots[idx]] == s.slots;
      assert t.slots[idx] != {slot};
    } else {
      assert t.slots[|s.slots|] - {slot} == {};
      assert t.slots[..|s.slots|] == s.slots;
      assert t.addresses[a := NO_SLOTS] == s.AddAddress(a).addresses;
    }
  }

  class AccessList {
    var addresses: map<Address, int>
    var slots: seq<set<Key>>

    ghost function State(): Access
      reads this
    {
      Access(addresses, slots)
    }

    constructor ()
      ensures State() == Access(map[], []) && State().WellFormed()
    {
      addresses := map[];
      slots := [];
    }

    method AddAddress(a: Address) returns (added: bool)
      modifies this
      ensures State() == old(State()).AddAddress(a)
      ensures added == !old(State()).ContainsAddress(a)
    {
      if a in addresses {
        return false;
      }
      addresses := addresses[a := NO_SLOTS];
      added := true;
    }

    method DeleteAddress(a: Address)
      modifies this
      ensures State() == old(State()).DeleteAddress(a)
    {
      addresses := addresses - {a};
    }

    method AddSlot(a: Address, slot: Key) returns (addrChange: bool, slotChange: bool)
      requires State().WellFormed()
      modifies this
      ensures State() == old(State()).AddSlot(a, slot)
      ensures addrChange == !old(State()).ContainsAddress(a)
      ensures slotChange == !old(State()).Contains(a, slot)
    {
      if a !in addresses || addresses[a] == NO_SLOTS {
        addrChange := a !in addresses;
        addresses := addresses[a := |slots|];
        slots := slots + [{slot}];
        return addrChange, true;
      }
      var idx := addresses[a];
      slotChange := slot !in slots[idx];
      if slotChange {
        slots := slots[idx := slots[idx] + {slot}];
      } else {
        assert slots[idx] + {slot} == slots[idx];
      }
      addrChange := false;
    }

    method DeleteSlot(a: Address, slot: Key)
      requires State().HasSlotSet(a)
      modifies this
      ensures State() == old(State()).DeleteSlot(a, slot)
    {
      var idx := addresses[a];
      var left := slots[idx] - {slot};
      slots := slots[idx := left];
      if left == {} {
        assert slots[..idx] == old(slots)[..idx];
        slots := slots[..idx];
        addresses := addresses[a := NO_SLOTS];
      }
    }
  }
}
