/** One-to-many event delivery (`event/octopus_feed.go`). Send keeps the channels still to be served as a
    prefix of the very array that holds all subscriptions, and both shrink while it runs. */
module Feeds {
  import Heaps

  /** A subscriber's channel; REMOVE_SUB is the feed's own channel at index 0. */
  type Chan = int

  const REMOVE_SUB: Chan := -1
  const FIRST_SUB: nat := 1

  function Deactivated(s: seq<Chan>, i: nat, n: nat): seq<Chan>
    requires i < n <= |s|
  {
    s[i := s[n - 1]][n - 1 := s[i]]
  }

  function Deleted(s: seq<Chan>, i: nat): seq<Chan>
    requires i < |s|
  {
    s[..i] + s[i + 1..]
  }

  /** The subscriptions in a case list, behind the removal channel at its head; a channel may have several. */
  ghost function Subscriptions(s: seq<Chan>): multiset<Chan>
    requires s != []
  {
    multiset(s[FIRST_SUB..])
  }

  /** Midway through Send: s lists what is left of the subscriptions `subs`, without those removed meanwhile. Its first
      n entries are still to be served. Deliveries went to the others, and to some that are removed by now. */
  ghost predicate Sending(s: seq<Chan>, n: nat, delivered: seq<Chan>, removed: multiset<Chan>, subs: multiset<Chan>) {
    && FIRST_SUB <= n <= |s| && s[0] == REMOVE_SUB && REMOVE_SUB !in subs
    && Subscriptions(s) + removed == subs
    && multiset(s[n..]) <= multiset(delivered) <= multiset(s[n..]) + removed
  }

  lemma SendingStarts(s: seq<Chan>)
    requires s != [] && s[0] == REMOVE_SUB && REMOVE_SUB !in Subscriptions(s)
    ensures Sending(s, |s|, [], multiset{}, Subscriptions(s))
  {
  }

  /** The channel at i is served: it moves behind the prefix. */
  lemma DeliverKeeps(s: seq<Chan>, n: nat, i: nat, delivered: seq<Chan>, removed: multiset<Chan>, subs: multiset<Chan>)
    requires Sending(s, n, delivered, removed, subs) && FIRST_SUB <= i < n
    ensures Sending(Deactivated(s, i, n), n - 1, delivered + [s[i]], removed, subs)
  {
    DeactivatedKeeps(s, i, n);
    assert Deactivated(s, i, n)[n - 1..] == [s[i]] + s[n..];
  }

  lemma DeactivatedKeeps(s: seq<Chan>, i: nat, n: nat)
    requires FIRST_SUB <= i < n <= |s|
    ensures Subscriptions(Deactivated(s, i, n)) == Subscriptions(s)
  {
    Heaps.SwapKeepsElements(s[FIRST_SUB..], i - 1, n - 2);
    assert Deactivated(s, i, n)[FIRST_SUB..] == Heaps.Swap(s[FIRST_SUB..], i - 1, n - 2);
  }

  /** The channel at i unsubscribes, served or not. */
  lemma RemoveKeeps(s: seq<Chan>, n: nat, i: nat, delivered: seq<Chan>, removed: multiset<Chan>, subs: multiset<Chan>)
    requires Sending(s, n, delivered, removed, subs) && FIRST_SUB <= i < |s|
    ensures Sending(Deleted(s, i), if i < n then n - 1 else n, delivered, removed + multiset{s[i]}, subs)
  {
    var t := Deleted(s, i);
    var m := if i < n then n - 1 else n;
    DeletedKeeps(s, i);
    if i < n {
      assert t[m..] == s[n..];
    } else {
      assert t[m..] == s[n..i] + s[i + 1..];
      assert s[n..] == s[n..i] + [s[i]] + s[i + 1..];
    }
  }

  lemma DeletedInFront(cases: seq<Chan>, inbox: seq<Chan>, i: nat)
    requires i < |cases|
    ensures Deleted(cases + inbox, i) == Deleted(cases, i) + inbox
    ensures i > 0 ==> Deleted(cases, i) != [] && Deleted(cases, i)[0] == cases[0]
  {
  }

  lemma DeletedBehind(cases: seq<Chan>, inbox: seq<Chan>, i: nat)
    requires i < |inbox|
    ensures Deleted(cases + inbox, |cases| + i) == cases + (inbox[..i] + inbox[i + 1..])
  {
  }

  lemma DeletedKeeps(s: seq<Chan>, i: nat)
    requires FIRST_SUB <= i < |s|
    ensures Deleted(s, i) != [] && Subscriptions(s) == Subscriptions(Deleted(s, i)) + multiset{s[i]}
  {
    assert s[FIRST_SUB..] == s[FIRST_SUB..i] + [s[i]] + s[i + 1..];
    assert Deleted(s, i)[FIRST_SUB..] == s[FIRST_SUB..i] + s[i + 1..];
  }

  /** Once the prefix holds only the removal channel, every subscription that stayed was served, and none that was not
      there at the start. In particular a channel with one subscription that stayed got the value exactly once. */
  lemma SendingEnds(s: seq<Chan>, delivered: seq<Chan>, removed: multiset<Chan>, subs: multiset<Chan>)
    requires Sending(s, FIRST_SUB, delivered, removed, subs)
    ensures removed <= subs && subs - removed <= multiset(delivered) <= subs
    ensures forall c :: subs[c] == 1 && c !in removed ==> multiset(delivered)[c] == 1
    ensures Subscriptions(s) == subs - removed && s[0] == REMOVE_SUB && REMOVE_SUB !in subs
  {
  }

  lemma Together(s: seq<Chan>, inbox: seq<Chan>)
    requires s != []
    ensures Subscriptions(s + inbox) == Subscriptions(s) + multiset(inbox)
  {
    assert (s + inbox)[FIRST_SUB..] == s[FIRST_SUB..] + inbox;
  }

  class Feed {
    var buf: array<Chan>    // the backing array of sendCases
    var len: nat            // the length of sendCases
    var inbox: seq<Chan>    // subscriptions not yet in sendCases

    ghost function Cases(): seq<Chan>
      requires len <= buf.Length
      reads this, buf
    {
      buf[..len] + inbox
    }

    ghost predicate Valid()
      reads this, buf
    {
      FIRST_SUB <= len <= buf.Length && buf[0] == REMOVE_SUB && REMOVE_SUB !in Subscriptions(Cases())
    }

    constructor ()
      ensures Valid() && Subscriptions(Cases()) == multiset{} && fresh(buf)
    {
      buf := new Chan[1](_ => REMOVE_SUB);
      len, inbox := 1, [];
    }

    /** The removal channel is the feed's own: nobody else can subscribe it. */
    method Subscribe(c: Chan)
      requires Valid() && c != REMOVE_SUB
      modifies this`inbox
      ensures Valid() && Subscriptions(Cases()) == old(Subscriptions(Cases())) + multiset{c}
    {
      ghost var s := Cases();
      inbox := inbox + [c];
      assert Cases()[FIRST_SUB..] == s[FIRST_SUB..] + [c];
    }

    /** caseList.find over the whole of sendCases. */
    method Find(c: Chan) returns (index: int)
      requires len <= buf.Length
      ensures index == -1 ==> c !in buf[..len]
      ensures index != -1 ==> 0 <= index < len && buf[index] == c
    {
      for i := 0 to len
        invariant c !in buf[..i]
      {
        if buf[i] == c {
          return i;
        }
      }
      return -1;
    }

    /** caseList.delete: shifts the tail left by one, in place. */
    method Delete(index: nat)
      requires index < len <= buf.Length
      modifies buf, this`len
      ensures len == old(len) - 1 && buf[..len] == Deleted(old(buf[..len]), index)
    {
      ghost var s := buf[..len];
      var last := len - 1;
      for i := index to last
        invariant len == last + 1
        invariant forall k :: 0 <= k < index ==> buf[k] == s[k]
        invariant forall k :: index <= k < i ==> buf[k] == s[k + 1]
        invariant forall k :: i <= k <= last ==> buf[k] == s[k]
      {
        buf[i] := buf[i + 1];
      }
      len := last;
    }

    /** caseList.deactivate on the prefix of length n. */
    method Deactivate(index: nat, n: nat)
      requires index < n <= len <= buf.Length
      modifies buf
      ensures buf[..len] == Deactivated(old(buf[..len]), index, n)
    {
      buf[index], buf[n - 1] := buf[n - 1], buf[index];
    }

    /** Unsubscribing while no Send holds the lock. */
    method Remove(c: Chan)
      requires Valid() && c in Subscriptions(Cases())
      modifies this, buf
      ensures Valid() && Subscriptions(Cases()) == old(Subscriptions(Cases())) - multiset{c}
    {
      hide Subscriptions, Deleted;
      ghost var s := Cases();
      if c in inbox {
        var i :| 0 <= i < |inbox| && inbox[i] == c;
        DeletedBehind(buf[..len], inbox, i);
        DeletedKeeps(s, len + i);
        inbox := inbox[..i] + inbox[i + 1..];
      } else {
        var i := Find(c);
        InCases(s, buf[..len], inbox, c);
        DeletedInFront(buf[..len], inbox, i);
        DeletedKeeps(s, i);
        Delete(i);
        assert buf[0] == buf[..len][0];
      }
    }

    lemma InCases(s: seq<Chan>, cases: seq<Chan>, inbox: seq<Chan>, c: Chan)
      requires cases != [] && s == cases + inbox && s[0] == REMOVE_SUB != c && c in Subscriptions(s) && c !in inbox
      ensures c in cases
    {
      assert s[FIRST_SUB..] == cases[FIRST_SUB..] + inbox;
      assert c in cases[FIRST_SUB..];
    }

    /** New subscriptions join sendCases when a Send begins. */
    method TakeInbox()
      requires Valid()
      modifies this
      ensures Valid() && inbox == [] && fresh(buf) && buf[..len] == Cases() == old(Cases())
    {
      var cases := buf[..len] + inbox;
      buf := new Chan[|cases|](i requires 0 <= i < |cases| => cases[i]);
      len, inbox := |cases|, [];
      assert buf[..len] == cases && Cases() == cases;
    }

    /** What others do to the inbox while Send works: they subscribe, and unsubscribe what is still there. */
    method Meanwhile()
      requires REMOVE_SUB !in inbox
      modifies this`inbox
      ensures REMOVE_SUB !in inbox
    {
      var others: seq<Chan> := *;
      if REMOVE_SUB !in others {
        inbox := others;
      }
    }

    /** Sends one value. TrySend and Select may succeed on any channel in any order, any subscriber may unsubscribe
        while Send waits, and others may subscribe. Returns the channels served, in order, and the subscriptions
        removed from sendCases meanwhile. The newcomers wait in the inbox and get nothing. */
    method Send() returns (nsent: nat, delivered: seq<Chan>, removed: multiset<Chan>)
      requires Valid()
      modifies this, buf
      ensures Valid() && removed <= old(Subscriptions(Cases()))
      ensures Subscriptions(Cases()) == old(Subscriptions(Cases())) - removed + multiset(inbox)
      ensures nsent == |delivered|
              && old(Subscriptions(Cases())) - removed <= multiset(delivered) <= old(Subscriptions(Cases()))
      ensures forall c :: old(Subscriptions(Cases()))[c] == 1 && c !in removed ==> multiset(delivered)[c] == 1
    {
      hide Sending, Subscriptions;
      TakeInbox();
      SendingStarts(buf[..len]);
      ghost var subs := Subscriptions(buf[..len]);
      nsent, delivered, removed := 0, [], multiset{};
      var n: nat := len;
      while true
        invariant FIRST_SUB <= n <= len <= buf.Length && REMOVE_SUB !in inbox && fresh(buf)
        invariant Sending(buf[..len], n, delivered, removed, subs) && nsent == |delivered|
        decreases len + n
      {
        Meanwhile();
        nsent, delivered, n := FastPath(n, nsent, delivered, removed, subs);
        if n == FIRST_SUB {
          break;
        }
        nsent, delivered, removed, n := Await(n, nsent, delivered, removed, subs);
      }
      SendingEnds(buf[..len], delivered, removed, subs);
      Together(buf[..len], inbox);
    }

    /** Tries every channel of the prefix once without blocking. */
    method FastPath(n0: nat, nsent0: nat, delivered0: seq<Chan>, ghost removed: multiset<Chan>,
                    ghost subs: multiset<Chan>)
      returns (nsent: nat, delivered: seq<Chan>, n: nat)
      requires n0 <= len <= buf.Length
      requires Sending(buf[..len], n0, delivered0, removed, subs) && nsent0 == |delivered0|
      modifies buf
      ensures Sending(buf[..len], n, delivered, removed, subs) && nsent == |delivered| && FIRST_SUB <= n <= n0
    {
      nsent, delivered, n := nsent0, delivered0, n0;
      var i: nat := FIRST_SUB;
      while i < n
        invariant FIRST_SUB <= i <= n <= n0
        invariant Sending(buf[..len], n, delivered, removed, subs) && nsent == |delivered|
        decreases n - i
      {
        if * {
          nsent, delivered, n := Serve(i, n, nsent, delivered, removed, subs);
        } else {
          i := i + 1;
        }
      }
    }

    /** Blocks on the prefix: either some channel accepts the value, or some subscriber leaves. */
    method Await(n0: nat, nsent0: nat, delivered0: seq<Chan>, removed0: multiset<Chan>, ghost subs: multiset<Chan>)
      returns (nsent: nat, delivered: seq<Chan>, removed: multiset<Chan>, n: nat)
      requires FIRST_SUB < n0 <= len <= buf.Length
      requires Sending(buf[..len], n0, delivered0, removed0, subs) && nsent0 == |delivered0|
      modifies buf, this`len
      ensures FIRST_SUB <= n <= len <= buf.Length && Sending(buf[..len], n, delivered, removed, subs)
      ensures nsent == |delivered| && len + n < old(len) + n0
    {
      hide Sending;
      nsent, delivered, removed, n := nsent0, delivered0, removed0, n0;
      var chosen: nat :| chosen < n;
      if chosen == 0 {
        var leaving: nat :| FIRST_SUB <= leaving < len;
        removed, n := Leave(buf[leaving], n, delivered, removed, subs);
      } else {
        nsent, delivered, n := Serve(chosen, n, nsent, delivered, removed, subs);
      }
    }

    /** A subscriber leaves in the middle of a send; the prefix shrinks if it was still to be served. */
    method Leave(c: Chan, n0: nat, ghost delivered: seq<Chan>, removed0: multiset<Chan>, ghost subs: multiset<Chan>)
      returns (removed: multiset<Chan>, n: nat)
      requires FIRST_SUB <= n0 <= len <= buf.Length && Sending(buf[..len], n0, delivered, removed0, subs)
      requires c in buf[FIRST_SUB..len]
      modifies buf, this`len
      ensures FIRST_SUB <= n <= n0 && n <= len == old(len) - 1 && len <= buf.Length
      ensures removed == removed0 + multiset{c} && Sending(buf[..len], n, delivered, removed, subs)
    {
      hide Sending, Deleted;
      NotAtHead(buf[..len], n0, delivered, removed0, subs, c);
      var index := Find(c);
      RemoveKeeps(buf[..len], n0, index, delivered, removed0, subs);
      removed := removed0 + multiset{c};
      Delete(index);
      n := if index < n0 then n0 - 1 else n0;
    }

    lemma NotAtHead(s: seq<Chan>, n: nat, delivered: seq<Chan>, removed: multiset<Chan>, subs: multiset<Chan>, c: Chan)
      requires Sending(s, n, delivered, removed, subs) && c in s[FIRST_SUB..]
      ensures c in s && c != s[0]
    {
      assert c in Subscriptions(s);
    }

    /** A send on the channel at index i succeeded. */
    method Serve(i: nat, n: nat, nsent: nat, delivered: seq<Chan>, ghost removed: multiset<Chan>,
                 ghost subs: multiset<Chan>)
      returns (nsent': nat, delivered': seq<Chan>, n': nat)
      requires FIRST_SUB <= i < n <= len <= buf.Length
      requires Sending(buf[..len], n, delivered, removed, subs) && nsent == |delivered|
      modifies buf
      ensures Sending(buf[..len], n', delivered', removed, subs)
      ensures nsent' == |delivered'| && n' == n - 1 && delivered' == delivered + [old(buf[i])]
    {
      hide Sending, Deactivated;
      DeliverKeeps(buf[..len], n, i, delivered, removed, subs);
      nsent', delivered', n' := nsent + 1, delivered + [buf[i]], n - 1;
      Deactivate(i, n);
    }
  }
}
