/** The outbound dial scheduler (`p2p/dial.go`) with its expiring history (`p2p/utils.go`).

    Each case of the event loop's select is a method; the loop's own two phases are the top of the loop,
    where static dials are started, and the select. Dial tasks are records in a store under identifiers. */
module Dial {
  import opened Basics
  import Heaps

  type ID = int
  type TaskId = int

  const DIAL_HISTORY_EXPIRATION: int := 35_000_000_000  // inbound throttle time plus five seconds, in nanoseconds

  /** A node record; `ip` is None while the endpoint is unknown. */
  datatype Node = Node(id: ID, ip: Option<int>, tcp: int)

  datatype Task = Task(dest: Node, staticPoolIndex: int)

  datatype DialError = IsSelf | NoPort | AlreadyDialing | AlreadyConnected | NotInNetRestrict | RecentlyDialed

  // ---- expHeap ----

  datatype ExpItem = ExpItem(item: ID, exp: int)

  predicate Sooner(a: ExpItem, b: ExpItem) {
    a.exp < b.exp
  }

  lemma SoonerIsOrder()
    ensures Heaps.StrictWeakOrder(Sooner)
  {
  }

  ghost predicate InHistory(history: seq<ExpItem>, id: ID) {
    exists i :: 0 <= i < |history| && history[i].item == id
  }

  ghost predicate OncePerItem(history: seq<ExpItem>) {
    forall i, j :: 0 <= i < j < |history| ==> history[i].item != history[j].item
  }

  /** A heap of distinct items. */
  ghost predicate HistoryOk(history: seq<ExpItem>) {
    Heaps.IsHeap(history, Sooner) && OncePerItem(history)
  }

  method Contains(history: seq<ExpItem>, id: ID) returns (found: bool)
    ensures found <==> InHistory(history, id)
  {
    for i := 0 to |history|
      invariant forall k :: 0 <= k < i ==> history[k].item != id
    {
      if history[i].item == id {
        return true;
      }
    }
    return false;
  }

  /** OncePerItem in terms of counts, which rearranging keeps. */
  ghost predicate CountedOnce(m: multiset<ExpItem>) {
    forall x, y :: x in m && y in m && x.item == y.item ==> x == y && m[x] == 1
  }

  lemma DistinctIsCountedOnce(history: seq<ExpItem>)
    requires OncePerItem(history)
    ensures CountedOnce(multiset(history))
  {
    forall x, y | x in multiset(history) && y in multiset(history) && x.item == y.item
      ensures x == y && multiset(history)[x] == 1
    {
      var i :| 0 <= i < |history| && history[i] == x;
      assert history[..i] + [history[i]] + history[i + 1..] == history;
      assert x !in history[..i] && x !in history[i + 1..];
    }
  }

  lemma CountedOnceIsDistinct(history: seq<ExpItem>)
    requires CountedOnce(multiset(history))
    ensures OncePerItem(history)
  {
    forall i, j | 0 <= i < j < |history|
      ensures history[i].item != history[j].item
    {
      assert history == history[..i] + [history[i]] + history[i + 1..j] + [history[j]] + history[j + 1..];
      assert history[i] in multiset(history) && history[j] in multiset(history);
    }
  }

  /** expHeap.add: one more entry; the items stay distinct exactly if the new one was not there. */
  method Add(history: seq<ExpItem>, id: ID, exp: int) returns (r: seq<ExpItem>)
    requires Heaps.IsHeap(history, Sooner)
    ensures Heaps.IsHeap(r, Sooner) && multiset(r) == multiset(history) + multiset{ExpItem(id, exp)}
    ensures forall x :: InHistory(r, x) <==> x == id || InHistory(history, x)
    ensures forall e :: e in r <==> e in history || e == ExpItem(id, exp)
    ensures OncePerItem(r) <==> OncePerItem(history) && !InHistory(history, id)
  {
    SoonerIsOrder();
    r := Heaps.Push(history, ExpItem(id, exp), Sooner);
    AddedItems(history, ExpItem(id, exp), r);
    forall e ensures e in r <==> e in history || e == ExpItem(id, exp) { EntryByCount(e, r); EntryByCount(e, history); }
  }

  lemma EntryByCount(e: ExpItem, h: seq<ExpItem>)
    ensures e in h <==> e in multiset(h)
  {
  }

  lemma AddedItems(h: seq<ExpItem>, e: ExpItem, r: seq<ExpItem>)
    requires multiset(r) == multiset(h) + multiset{e}
    ensures forall x :: InHistory(r, x) <==> x == e.item || InHistory(h, x)
    ensures OncePerItem(r) <==> OncePerItem(h) && !InHistory(h, e.item)
  {
    hide OncePerItem, InHistory;
    ItemsByCount(h);
    ItemsByCount(r);
    forall x | x == e.item || InHistory(h, x) ensures InHistory(r, x) {
      if x == e.item {
        assert e in multiset(r);
      } else {
        var y :| y in multiset(h) && y.item == x;
        assert y in multiset(r);
      }
    }
    if OncePerItem(h) && !InHistory(h, e.item) {
      DistinctIsCountedOnce(h);
      CountedOnceIsDistinct(r);
    }
    if OncePerItem(r) {
      DistinctIsCountedOnce(r);
      StillCountedOnce(multiset(h), e);
      CountedOnceIsDistinct(h);
    }
  }

  /** Of distinct items, one less are distinct, and none is like the one left out. */
  lemma StillCountedOnce(m: multiset<ExpItem>, e: ExpItem)
    requires CountedOnce(m + multiset{e})
    ensures CountedOnce(m) && forall y :: y in m ==> y.item != e.item
  {
    var all := m + multiset{e};
    assert e in all;
    forall y | y in m ensures y in all { }
  }

  lemma ItemsByCount(h: seq<ExpItem>)
    ensures forall x :: InHistory(h, x) <==> exists e :: e in multiset(h) && e.item == x
  {
    forall x | InHistory(h, x) ensures exists e :: e in multiset(h) && e.item == x {
      var i :| 0 <= i < |h| && h[i].item == x;
      assert h[i] in multiset(h);
    }
    forall x | exists e :: e in multiset(h) && e.item == x ensures InHistory(h, x) {
      var e :| e in multiset(h) && e.item == x;
      var i :| 0 <= i < |h| && h[i] == e;
    }
  }

  lemma RootIsEarliest(history: seq<ExpItem>)
    requires HistoryOk(history)
    ensures forall e :: e in history ==> history[0].exp <= e.exp
  {
    SoonerIsOrder();
    forall e | e in history ensures history[0].exp <= e.exp {
      var i :| 0 <= i < |history| && history[i] == e;
      Heaps.RootIsLeast(history, i, Sooner);
    }
  }

  /** heap.Pop: the earliest item leaves, the others stay. */
  method PopEarliest(history: seq<ExpItem>) returns (id: ID, r: seq<ExpItem>)
    requires HistoryOk(history) && history != []
    ensures id == history[0].item && HistoryOk(r) && |r| == |history| - 1
    ensures forall x :: InHistory(r, x) <==> x != id && InHistory(history, x)
    ensures forall e :: e in r <==> e in history && e != history[0]
  {
    SoonerIsOrder();
    var p := Heaps.Pop(history, Sooner);
    r, id := p.1, p.0.item;
    PoppedItems(history, p.0, r);
    DistinctIsCountedOnce(history);
    forall e
      ensures e in r <==> e in history && e != history[0]
    {
      EntryByCount(e, r);
      EntryByCount(e, history);
      EntryByCount(history[0], history);
    }
  }

  lemma PoppedItems(h: seq<ExpItem>, e: ExpItem, r: seq<ExpItem>)
    requires OncePerItem(h) && multiset(h) == multiset(r) + multiset{e}
    ensures OncePerItem(r) && forall x :: InHistory(r, x) <==> x != e.item && InHistory(h, x)
  {
    DistinctIsCountedOnce(h);
    CountedOnceIsDistinct(r);
    ItemsByCount(h);
    ItemsByCount(r);
    forall y | y in multiset(r) ensures y.item != e.item && y in multiset(h) { assert multiset(h)[e] == 1; }
    forall y | y in multiset(h) && y.item != e.item ensures y in multiset(r) { }
  }

  // ---- The static pool ----

  /** Back-indices are right: pool entries know their place, and static tasks outside the pool say so. */
  ghost predicate Tracked(tasks: map<TaskId, Task>, statics: map<ID, TaskId>, pool: seq<TaskId>) {
    && (forall id :: id in statics ==> IsTaskFor(tasks, statics[id], id))
    && (forall i :: 0 <= i < |pool| ==> IsPoolEntry(tasks, statics, pool, i))
    && (forall id :: id in statics ==> KnowsItsPlace(tasks, pool, statics[id]))
  }

  ghost predicate IsTaskFor(tasks: map<TaskId, Task>, t: TaskId, id: ID) {
    t in tasks && tasks[t].dest.id == id
  }

  predicate IsTaskOf(tasks: map<TaskId, Task>, t: TaskId, node: Node) {
    t in tasks && tasks[t].dest == node
  }

  ghost predicate IsPoolEntry(tasks: map<TaskId, Task>, statics: map<ID, TaskId>, pool: seq<TaskId>, i: int)
    requires 0 <= i < |pool|
  {
    && pool[i] in tasks && tasks[pool[i]].staticPoolIndex == i
    && tasks[pool[i]].dest.id in statics && statics[tasks[pool[i]].dest.id] == pool[i]
  }

  ghost predicate KnowsItsPlace(tasks: map<TaskId, Task>, pool: seq<TaskId>, t: TaskId) {
    t in tasks && (tasks[t].staticPoolIndex == -1
      || (0 <= tasks[t].staticPoolIndex < |pool| && pool[tasks[t].staticPoolIndex] == t))
  }

  /** Dial tasks after entry idx of the pool was replaced by the last one and the pool cut by one. */
  function TasksWithout(tasks: map<TaskId, Task>, pool: seq<TaskId>, idx: int): map<TaskId, Task>
    requires 0 <= idx < |pool| && pool[idx] in tasks && pool[|pool| - 1] in tasks
  {
    var last := pool[|pool| - 1];
    var moved := tasks[last := tasks[last].(staticPoolIndex := idx)];
    moved[pool[idx] := moved[pool[idx]].(staticPoolIndex := -1)]
  }

  function PoolWithout(pool: seq<TaskId>, idx: int): seq<TaskId>
    requires 0 <= idx < |pool|
  {
    pool[idx := pool[|pool| - 1]][..|pool| - 1]
  }

  /** Tasks keep their nodes, and only membership of the changed task in the pool changes. */
  ghost predicate SameTasksBut(tasks: map<TaskId, Task>, tasks': map<TaskId, Task>, t: TaskId) {
    && tasks'.Keys == tasks.Keys
    && (forall x :: x in tasks ==> tasks'[x].dest == tasks[x].dest)
    && (forall x :: x in tasks && x != t ==> (tasks'[x].staticPoolIndex >= 0 <==> tasks[x].staticPoolIndex >= 0))
  }

  /** The entries of a pool are distinct, so removing one leaves exactly the others. */
  lemma OthersStay(tasks: map<TaskId, Task>, statics: map<ID, TaskId>, pool: seq<TaskId>, idx: int)
    requires Tracked(tasks, statics, pool) && 0 <= idx < |pool|
    ensures forall t :: t in PoolWithout(pool, idx) <==> t in pool && t != pool[idx]
  {
    var pool' := PoolWithout(pool, idx);
    forall i | 0 <= i < |pool| && i != idx ensures pool[i] != pool[idx] {
      assert IsPoolEntry(tasks, statics, pool, i) && IsPoolEntry(tasks, statics, pool, idx);
    }
    forall t | t in pool && t != pool[idx] ensures t in pool' {
      var i :| 0 <= i < |pool| && pool[i] == t;
      assert pool'[if i == |pool| - 1 then idx else i] == t;
    }
  }

  lemma RemoveKeeps(tasks: map<TaskId, Task>, statics: map<ID, TaskId>, pool: seq<TaskId>, idx: int)
    requires Tracked(tasks, statics, pool) && 0 <= idx < |pool|
    ensures IsPoolEntry(tasks, statics, pool, idx) && IsPoolEntry(tasks, statics, pool, |pool| - 1)
    ensures var tasks' := TasksWithout(tasks, pool, idx);
            && Tracked(tasks', statics, PoolWithout(pool, idx))
            && SameTasksBut(tasks, tasks', pool[idx]) && tasks'[pool[idx]].staticPoolIndex == -1
  {
    var last := |pool| - 1;
    assert IsPoolEntry(tasks, statics, pool, idx) && IsPoolEntry(tasks, statics, pool, last);
    var tasks', pool' := TasksWithout(tasks, pool, idx), PoolWithout(pool, idx);
    forall i | 0 <= i < |pool'|
      ensures IsPoolEntry(tasks', statics, pool', i)
    {
      assert IsPoolEntry(tasks, statics, pool, i);
    }
    forall id | id in statics ensures IsTaskFor(tasks', statics[id], id) && KnowsItsPlace(tasks', pool', statics[id]) {
      assert IsTaskFor(tasks, statics[id], id) && KnowsItsPlace(tasks, pool, statics[id]);
    }
  }

  function TasksWith(tasks: map<TaskId, Task>, t: TaskId, n: int): map<TaskId, Task>
    requires t in tasks
  {
    tasks[t := tasks[t].(staticPoolIndex := n)]
  }

  lemma AddKeeps(tasks: map<TaskId, Task>, statics: map<ID, TaskId>, pool: seq<TaskId>, t: TaskId)
    requires Tracked(tasks, statics, pool) && t in tasks && tasks[t].staticPoolIndex == -1
    requires tasks[t].dest.id in statics && statics[tasks[t].dest.id] == t
    ensures var tasks' := TasksWith(tasks, t, |pool|);
            Tracked(tasks', statics, pool + [t]) && SameTasksBut(tasks, tasks', t)
  {
    var tasks', pool' := TasksWith(tasks, t, |pool|), pool + [t];
    forall i | 0 <= i < |pool'|
      ensures IsPoolEntry(tasks', statics, pool', i)
    {
      if i < |pool| {
        assert IsPoolEntry(tasks, statics, pool, i);
      }
    }
    forall id | id in statics ensures IsTaskFor(tasks', statics[id], id) && KnowsItsPlace(tasks', pool', statics[id]) {
      assert IsTaskFor(tasks, statics[id], id) && KnowsItsPlace(tasks, pool, statics[id]);
    }
  }

  // ---- Starting static dials ----

  /** How many of n slots a pool of so many entries fills. */
  function Startable(n: int, entries: nat): nat {
    if n <= 0 then 0 else if n <= entries then n else entries
  }

  ghost predicate SameNodes(tasks: map<TaskId, Task>, tasks': map<TaskId, Task>) {
    tasks'.Keys == tasks.Keys && forall t :: t in tasks ==> tasks'[t].dest == tasks[t].dest
  }

  /** What left the pool is being dialed under its own node, what is newly dialed left the pool, and the dials that
      were going on still are. */
  ghost predicate Launched(tasks: map<TaskId, Task>, pool: seq<TaskId>, pool': seq<TaskId>,
                           dialing: map<ID, TaskId>, dialing': map<ID, TaskId>)
  {
    && (forall t :: t in pool' ==> t in pool)
    && (forall t :: t in pool && t !in pool' ==>
          t in tasks && tasks[t].dest.id !in dialing && IsDialed(dialing', tasks[t].dest.id, t))
    && (forall id :: id in dialing ==> IsDialed(dialing', id, dialing[id]))
    && (forall id :: id in dialing' && id !in dialing ==> dialing'[id] in pool && dialing'[id] !in pool')
  }

  predicate IsDialed(dialing: map<ID, TaskId>, id: ID, t: TaskId) {
    id in dialing && dialing[id] == t
  }

  lemma NoneLaunched(tasks: map<TaskId, Task>, pool: seq<TaskId>, dialing: map<ID, TaskId>)
    ensures Launched(tasks, pool, pool, dialing, dialing) && SameNodes(tasks, tasks)
  {
  }

  lemma LaunchedMore(tasks: map<TaskId, Task>, pool: seq<TaskId>, dialing: map<ID, TaskId>,
                     tasks': map<TaskId, Task>, pool': seq<TaskId>, dialing': map<ID, TaskId>,
                     tasks'': map<TaskId, Task>, pool'': seq<TaskId>, dialing'': map<ID, TaskId>)
    requires Launched(tasks, pool, pool', dialing, dialing') && SameNodes(tasks, tasks')
    requires Launched(tasks', pool', pool'', dialing', dialing'') && SameNodes(tasks', tasks'')
    ensures Launched(tasks, pool, pool'', dialing, dialing'') && SameNodes(tasks, tasks'')
  {
    forall id | id in dialing'' && id !in dialing ensures dialing''[id] in pool && dialing''[id] !in pool'' {
      if id in dialing' {
        var t := dialing'[id];
        assert IsDialed(dialing'', id, t);
        assert t in pool && t !in pool' && t !in pool'';
      } else {
        var t := dialing''[id];
        assert t in pool' && t in pool && t !in pool'';
      }
    }
    forall id | id in dialing ensures IsDialed(dialing'', id, dialing[id]) {
      assert IsDialed(dialing', id, dialing[id]);
    }
    forall t | t in pool && t !in pool''
      ensures t in tasks && tasks[t].dest.id !in dialing && IsDialed(dialing'', tasks[t].dest.id, t)
    {
      if t in pool' {
        assert IsDialed(dialing'', tasks'[t].dest.id, t);
        assert tasks[t].dest.id in dialing ==> IsDialed(dialing', tasks[t].dest.id, dialing[tasks[t].dest.id]);
      } else {
        assert IsDialed(dialing', tasks[t].dest.id, t);
      }
    }
  }

  // ---- The scheduler ----

  class DialScheduler {
    const self: ID
    const maxDialPeers: int
    const maxActiveDials: int
    const netRestrict: Option<set<int>>

    var dialing: map<ID, TaskId>
    var peers: set<ID>
    var dialPeers: int
    var statics: map<ID, TaskId>
    var staticPool: seq<TaskId>
    var tasks: map<TaskId, Task>
    var nextTask: TaskId
    var history: seq<ExpItem>
    var atSelect: bool     // waiting in select, as opposed to the top of the loop
    var slots: int         // free slots left by the last pass over the top of the loop; nodesIn is read if positive
    ghost var running: set<TaskId>  // tasks started whose end has not been received

    /** checkDial, with None for nil. */
    ghost function Check(n: Node): Option<DialError>
      reads `dialing, `peers, `history
    {
      if n.id == self then Some(IsSelf)
      else if n.ip.Some? && n.tcp == 0 then Some(NoPort)
      else if n.id in dialing then Some(AlreadyDialing)
      else if n.id in peers then Some(AlreadyConnected)
      else if netRestrict.Some? && !(n.ip.Some? && n.ip.value in netRestrict.value) then Some(NotInNetRestrict)
      else if InHistory(history, n.id) then Some(RecentlyDialed)
      else None
    }

    /** The static task for id is in the pool exactly if it may be dialed. */
    ghost predicate ExactAt(id: ID)
      requires id in statics && statics[id] in tasks
      reads `tasks, `statics, `dialing, `peers, `history
    {
      tasks[statics[id]].staticPoolIndex >= 0 <==> Check(tasks[statics[id]].dest).None?
    }

    ghost predicate ExactBut(except: set<ID>)
      requires Tracked(tasks, statics, staticPool)
      reads `tasks, `statics, `staticPool, `dialing, `peers, `history
    {
      forall id {:trigger ExactAt(id)} ::
          id in statics && id !in except ==> IsTaskFor(tasks, statics[id], id) && ExactAt(id)
    }

    /** Running tasks are exactly the ones registered under their own node. */
    ghost predicate RunningOk()
      reads `tasks, `dialing, `running
    {
      && (forall id :: id in dialing ==> IsTaskFor(tasks, dialing[id], id) && dialing[id] in running)
      && (forall t :: t in running ==> t in tasks && tasks[t].dest.id in dialing && dialing[tasks[t].dest.id] == t)
    }

    ghost predicate Core()
      reads `tasks, `statics, `staticPool, `dialing, `history, `running, `nextTask
    {
      && Tracked(tasks, statics, staticPool) && HistoryOk(history) && RunningOk()
      && (forall t :: t in tasks ==> t < nextTask)
      && (dialing == map[] || |dialing| <= maxActiveDials)
    }

    /** In every state: the pool is exact, at most maxActiveDials dials run, and where the loop is ready to take a
        dynamic candidate the pool is empty and a slot is free. */
    ghost predicate Valid()
      reads this
    {
      && Core() && ExactBut({})
      && (atSelect && slots > 0 ==> staticPool == [] && |dialing| < maxActiveDials)
    }

    constructor (self: ID, maxDialPeers: int, maxActiveDials: int, netRestrict: Option<set<int>>)
      ensures Valid() && !atSelect && statics == map[] && dialing == map[] && peers == {}
      ensures dialPeers == 0 && history == [] && running == {}
      ensures this.self == self && this.maxDialPeers == maxDialPeers && this.maxActiveDials == maxActiveDials
      ensures this.netRestrict == netRestrict
    {
      this.self, this.netRestrict := self, netRestrict;
      this.maxDialPeers, this.maxActiveDials := maxDialPeers, maxActiveDials;
      dialing, peers, dialPeers, statics, staticPool, tasks, nextTask, history := map[], {}, 0, map[], [], map[], 0, [];
      atSelect, slots, running := false, 0, {};
    }

    method CheckDial(n: Node) returns (e: Option<DialError>)
      ensures e == Check(n)
    {
      var recent := Contains(history, n.id);
      if n.id == self {
        return Some(IsSelf);
      }
      if n.ip.Some? && n.tcp == 0 {
        return Some(NoPort);
      }
      if n.id in dialing {
        return Some(AlreadyDialing);
      }
      if n.id in peers {
        return Some(AlreadyConnected);
      }
      if netRestrict.Some? && !(n.ip.Some? && n.ip.value in netRestrict.value) {
        return Some(NotInNetRestrict);
      }
      if recent {
        return Some(RecentlyDialed);
      }
      e := None;
    }

    method RemoveFromStaticPool(idx: int)
      requires Core() && 0 <= idx < |staticPool|
      modifies this`tasks, this`staticPool
      ensures Core() && SameTasksBut(old(tasks), tasks, old(staticPool)[idx])
      ensures old(staticPool)[idx] in tasks && tasks[old(staticPool)[idx]].staticPoolIndex == -1
      ensures |staticPool| == |old(staticPool)| - 1
      ensures forall t :: t in staticPool <==> t in old(staticPool) && t != old(staticPool)[idx]
    {
      RemoveKeeps(tasks, statics, staticPool, idx);
      OthersStay(tasks, statics, staticPool, idx);
      var task := staticPool[idx];
      var end := |staticPool| - 1;
      staticPool := staticPool[idx := staticPool[end]];
      tasks := tasks[staticPool[idx] := tasks[staticPool[idx]].(staticPoolIndex := idx)];
      staticPool := staticPool[..end];
      tasks := tasks[task := tasks[task].(staticPoolIndex := -1)];
    }

    method AddToStaticPool(t: TaskId)
      requires Core() && t in tasks && tasks[t].staticPoolIndex == -1
      requires tasks[t].dest.id in statics && statics[tasks[t].dest.id] == t
      modifies this`tasks, this`staticPool
      ensures Core() && SameTasksBut(old(tasks), tasks, t) && tasks[t].staticPoolIndex >= 0
    {
      AddKeeps(tasks, statics, staticPool, t);
      staticPool := staticPool + [t];
      tasks := tasks[t := tasks[t].(staticPoolIndex := |staticPool| - 1)];
    }

    /** Something became more permissive for id: its static task may have to join the pool. */
    method UpdateStaticPool(id: ID)
      requires Core() && ExactBut({id})
      requires id in statics && tasks[statics[id]].staticPoolIndex >= 0 ==> Check(tasks[statics[id]].dest).None?
      modifies this`tasks, this`staticPool
      ensures Core() && ExactBut({}) && SameNodes(old(tasks), tasks)
    {
      if id in statics && tasks[statics[id]].staticPoolIndex < 0 {
        var t := statics[id];
        var e := CheckDial(tasks[t].dest);
        assert IsTaskFor(tasks, t, id) && KnowsItsPlace(tasks, staticPool, t);
        if e.None? {
          AddToStaticPool(t);
          PoolChangeKeepsOthers(id);
        }
      }
    }

    /** Only the static task for id moved in or out of the pool, and no check changed: other tasks stay exact. */
    twostate lemma PoolChangeKeepsOthers(id: ID)
      requires Tracked(old(tasks), old(statics), old(staticPool)) && Tracked(tasks, statics, staticPool)
      requires statics == old(statics) && dialing == old(dialing) && peers == old(peers) && history == old(history)
      requires id in statics && SameTasksBut(old(tasks), tasks, statics[id]) && old(ExactBut({id}))
      ensures ExactBut({id})
    {
      forall x | x in statics && x != id
        ensures IsTaskFor(tasks, statics[x], x) && ExactAt(x)
      {
        assert old(ExactAt(x));
        assert IsTaskFor(old(tasks), statics[x], x) && IsTaskFor(old(tasks), statics[id], id);
      }
    }

    // ---- The top of the loop ----

    /** How many more dials may run: the lesser of the two limits less what is running. */
    ghost function Free(): (free: int)
      reads `dialing, `dialPeers
      ensures free + |dialing| <= maxActiveDials && free + |dialing| <= (maxDialPeers - dialPeers) * 2
      ensures free + |dialing| == maxActiveDials || free + |dialing| == (maxDialPeers - dialPeers) * 2
    {
      var limit := (maxDialPeers - dialPeers) * 2;
      (if limit > maxActiveDials then maxActiveDials else limit) - |dialing|
    }

    method FreeDialSlots() returns (free: int)
      ensures free == Free()
    {
      var limit := (maxDialPeers - dialPeers) * 2;
      if limit > maxActiveDials {
        limit := maxActiveDials;
      }
      free := limit - |dialing|;
    }

    /** startDial for a node that may be dialed; a static task stays in the pool until the caller takes it out. */
    method StartDial(t: TaskId, now: int)
      requires Core() && t in tasks && Check(tasks[t].dest).None? && |dialing| < maxActiveDials
      requires ExactBut({})
      modifies this`history, this`dialing, this`running
      ensures Core() && dialing == old(dialing)[tasks[t].dest.id := t] && |dialing| == |old(dialing)| + 1
      ensures ExactBut({tasks[t].dest.id})
      ensures forall e ::
                e in history <==> e in old(history) || e == ExpItem(tasks[t].dest.id, now + DIAL_HISTORY_EXPIRATION)
    {
      hide InHistory, OncePerItem, Heaps.IsHeap, DialScheduler.RunningOk;
      var id := tasks[t].dest.id;
      history := Add(history, id, now + DIAL_HISTORY_EXPIRATION);
      Dialed(t);
      forall x | x in statics && x != id
        ensures IsTaskFor(tasks, statics[x], x) && ExactAt(x)
      {
        assert old(ExactAt(x));
      }
    }

    method Dialed(t: TaskId)
      requires RunningOk() && t in tasks && tasks[t].dest.id !in dialing
      modifies this`dialing, this`running
      ensures RunningOk() && dialing == old(dialing)[tasks[t].dest.id := t] && |dialing| == |old(dialing)| + 1
    {
      var id := tasks[t].dest.id;
      assert t !in running;
      dialing := dialing[id := t];
      running := running + {t};
      assert dialing.Keys == old(dialing).Keys + {id};
    }

    /** Starts the pool entry at idx and takes it out of the pool. */
    method StartFromPool(idx: int, now: int)
      requires Core() && ExactBut({}) && 0 <= idx < |staticPool| && |dialing| < maxActiveDials
      modifies this`history, this`dialing, this`running, this`tasks, this`staticPool
      ensures Core() && ExactBut({}) && |staticPool| == |old(staticPool)| - 1 && |dialing| == |old(dialing)| + 1
      ensures Launched(old(tasks), old(staticPool), staticPool, old(dialing), dialing) && SameNodes(old(tasks), tasks)
    {
      hide HistoryOk, InHistory;
      var t := staticPool[idx];
      assert IsPoolEntry(tasks, statics, staticPool, idx);
      ghost var id := tasks[t].dest.id;
      assert ExactAt(id);
      StartDial(t, now);
      label started:
      RemoveFromStaticPool(idx);
      PoolChangeKeepsOthers@started(id);
      assert ExactAt(id);
    }

    method StartStaticDials(n: int, now: int) returns (started: int)
      requires Core() && ExactBut({}) && n + |dialing| <= maxActiveDials
      modifies this`history, this`dialing, this`running, this`tasks, this`staticPool
      ensures Core() && ExactBut({}) && started == Startable(n, |old(staticPool)|)
      ensures |dialing| == |old(dialing)| + started && |staticPool| == |old(staticPool)| - started
      ensures Launched(old(tasks), old(staticPool), staticPool, old(dialing), dialing) && SameNodes(old(tasks), tasks)
    {
      hide HistoryOk, Tracked, DialScheduler.RunningOk, DialScheduler.ExactBut, Launched, SameNodes;
      started := 0;
      NoneLaunched(tasks, staticPool, dialing);
      while started < n && |staticPool| > 0
        invariant Core() && ExactBut({}) && 0 <= started && (started <= n || started == 0)
        invariant |dialing| == |old(dialing)| + started && |staticPool| == |old(staticPool)| - started
        invariant Launched(old(tasks), old(staticPool), staticPool, old(dialing), dialing)
                  && SameNodes(old(tasks), tasks)
        decreases |staticPool|
      {
        var idx: int :| 0 <= idx < |staticPool|;
        ghost var k, p, d := tasks, staticPool, dialing;
        StartFromPool(idx, now);
        LaunchedMore(old(tasks), old(staticPool), old(dialing), k, p, d, tasks, staticPool, dialing);
        started := started + 1;
      }
    }

    /** From the top of the loop to the select: static dials go first, as many as there are slots and entries, and
        dynamic ones get the slots that are left. */
    method TopOfLoop(now: int)
      requires Valid() && !atSelect
      modifies this`history, this`dialing, this`running, this`tasks, this`staticPool, this`atSelect, this`slots
      ensures Valid() && atSelect
      ensures var started := Startable(old(Free()), |old(staticPool)|);
              && slots == old(Free()) - started && slots == Free()
              && |dialing| == |old(dialing)| + started && |staticPool| == |old(staticPool)| - started
      ensures Launched(old(tasks), old(staticPool), staticPool, old(dialing), dialing) && SameNodes(old(tasks), tasks)
    {
      hide HistoryOk, Tracked, DialScheduler.RunningOk, DialScheduler.ExactBut, Launched, SameNodes;
      var free := FreeDialSlots();
      var started := StartStaticDials(free, now);
      slots := free - started;
      atSelect := true;
    }

    // ---- The select cases ----

    /** A dynamic candidate; nodesIn is only read while slots remain. */
    method NodeArrived(node: Node, now: int) returns (error: Option<DialError>)
      requires Valid() && atSelect && slots > 0
      modifies this
      ensures Valid() && !atSelect && error == old(Check(node))
      ensures error.Some? ==> dialing == old(dialing)
      ensures error.None? ==>
                node.id !in old(dialing) && dialing.Keys == old(dialing).Keys + {node.id} && old(staticPool) == []
      ensures error.None? ==> ExpItem(node.id, now + DIAL_HISTORY_EXPIRATION) in history
    {
      hide HistoryOk, InHistory, Tracked, DialScheduler.RunningOk, DialScheduler.ExactBut, DialScheduler.Check;
      error := CheckDial(node);
      if error.None? {
        StartDynamic(node, now);
      }
      atSelect := false;
    }

    method StartDynamic(node: Node, now: int)
      requires Core() && ExactBut({}) && staticPool == [] && |dialing| < maxActiveDials && Check(node).None?
      modifies this`history, this`dialing, this`running, this`tasks, this`nextTask
      ensures Core() && ExactBut({}) && node.id !in old(dialing) && dialing.Keys == old(dialing).Keys + {node.id}
      ensures ExpItem(node.id, now + DIAL_HISTORY_EXPIRATION) in history
    {
      hide HistoryOk, InHistory, DialScheduler.RunningOk;
      var t := NewTask(node);
      StartDial(t, now);
      if node.id in statics {
        assert IsTaskFor(tasks, statics[node.id], node.id) && KnowsItsPlace(tasks, staticPool, statics[node.id]);
        assert ExactAt(node.id);
      }
    }

    method NewTask(node: Node) returns (t: TaskId)
      requires Core() && ExactBut({})
      modifies this`tasks, this`nextTask
      ensures Core() && ExactBut({}) && t !in old(tasks) && tasks == old(tasks)[t := Task(node, -1)]
    {
      t := nextTask;
      tasks := tasks[t := Task(node, -1)];
      nextTask := nextTask + 1;
      NewTaskKeepsTracked(old(tasks), statics, staticPool, t, node);
      forall x | x in statics
        ensures IsTaskFor(tasks, statics[x], x) && ExactAt(x)
      {
        assert IsTaskFor(old(tasks), statics[x], x) && old(ExactAt(x));
      }
    }

    /** A task ended. */
    method TaskDone(t: TaskId)
      requires Valid() && atSelect && t in running
      modifies this
      ensures Valid() && !atSelect && running == old(running) - {t}
      ensures dialing == old(dialing) - {old(tasks)[t].dest.id}
    {
      hide HistoryOk, InHistory;
      var id := tasks[t].dest.id;
      dialing := dialing - {id};
      running := running - {t};
      assert dialing.Keys == old(dialing).Keys - {id};
      forall x | x in statics && x != id
        ensures IsTaskFor(tasks, statics[x], x) && ExactAt(x)
      {
        assert old(ExactAt(x));
      }
      assert id in statics ==> old(ExactAt(id));
      UpdateStaticPool(id);
      atSelect := false;
    }

    /** A running task resolved its node to a new endpoint with the same identity. */
    method TaskResolved(t: TaskId, dest: Node)
      requires Valid() && t in running && dest.id == tasks[t].dest.id
      modifies this`tasks
      ensures Valid() && tasks == old(tasks)[t := old(tasks)[t].(dest := dest)]
    {
      tasks := tasks[t := tasks[t].(dest := dest)];
      ResolveKeepsTracked(old(tasks), statics, staticPool, t, dest);
      forall x | x in statics ensures IsTaskFor(tasks, statics[x], x) && ExactAt(x) {
        assert IsTaskFor(old(tasks), statics[x], x) && old(ExactAt(x));
      }
    }

    /** A peer connected: its static task may not be dialed any more. */
    method PeerAdded(id: ID, dialed: bool)
      requires Valid() && atSelect
      modifies this
      ensures Valid() && !atSelect && peers == old(peers) + {id} && dialing == old(dialing)
      ensures dialPeers == if dialed then old(dialPeers) + 1 else old(dialPeers)
    {
      hide HistoryOk, InHistory, DialScheduler.RunningOk;
      if dialed {
        dialPeers := dialPeers + 1;
      }
      peers := peers + {id};
      forall x | x in statics && x != id
        ensures IsTaskFor(tasks, statics[x], x) && ExactAt(x)
      {
        assert old(ExactAt(x));
      }
      if id in statics {
        WithdrawFromPool(id);
      }
      atSelect := false;
    }

    /** The static task for id, whose check fails, leaves the pool if it is there. */
    method WithdrawFromPool(id: ID)
      requires Core() && ExactBut({id}) && id in statics && Check(tasks[statics[id]].dest).Some?
      modifies this`tasks, this`staticPool
      ensures Core() && ExactBut({}) && SameTasksBut(old(tasks), tasks, statics[id])
    {
      var t := statics[id];
      assert IsTaskFor(tasks, t, id) && KnowsItsPlace(tasks, staticPool, t);
      if tasks[t].staticPoolIndex >= 0 {
        RemoveFromStaticPool(tasks[t].staticPoolIndex);
        PoolChangeKeepsOthers(id);
      }
      assert ExactAt(id);
    }

    method PeerRemoved(id: ID, dialed: bool)
      requires Valid() && atSelect
      modifies this
      ensures Valid() && !atSelect && peers == old(peers) - {id} && dialing == old(dialing)
      ensures dialPeers == if dialed then old(dialPeers) - 1 else old(dialPeers)
    {
      hide HistoryOk, InHistory, DialScheduler.RunningOk;
      if dialed {
        dialPeers := dialPeers - 1;
      }
      peers := peers - {id};
      forall x | x in statics && x != id
        ensures IsTaskFor(tasks, statics[x], x) && ExactAt(x)
      {
        assert old(ExactAt(x));
      }
      assert id in statics ==> old(ExactAt(id));
      UpdateStaticPool(id);
      atSelect := false;
    }

    /** A new static node; one already known is ignored. */
    method StaticAdded(node: Node)
      requires Valid() && atSelect
      modifies this
      ensures Valid() && !atSelect && statics.Keys == old(statics).Keys + {node.id} && dialing == old(dialing)
      ensures forall id :: id in old(statics) ==> statics[id] == old(statics)[id]
      ensures node.id !in old(statics) ==> IsTaskOf(tasks, statics[node.id], node)
    {
      hide HistoryOk, InHistory, Tracked, DialScheduler.RunningOk, DialScheduler.ExactBut;
      if node.id !in statics {
        RegisterNew(node);
      }
      atSelect := false;
    }

    method RegisterNew(node: Node)
      requires Core() && ExactBut({}) && node.id !in statics
      modifies this`statics, this`tasks, this`nextTask, this`staticPool
      ensures Core() && ExactBut({}) && statics.Keys == old(statics).Keys + {node.id}
      ensures forall id :: id in old(statics) ==> statics[id] == old(statics)[id]
      ensures IsTaskOf(tasks, statics[node.id], node)
    {
      hide HistoryOk, InHistory, DialScheduler.RunningOk;
      var t := NewTask(node);
      RegisterStatic(t);
      UpdateStaticPool(node.id);
    }

    method RegisterStatic(t: TaskId)
      requires Core() && ExactBut({}) && t in tasks && tasks[t].staticPoolIndex == -1 && tasks[t].dest.id !in statics
      modifies this`statics
      ensures Core() && statics == old(statics)[tasks[t].dest.id := t] && ExactBut({tasks[t].dest.id})
    {
      ghost var id := tasks[t].dest.id;
      statics := statics[tasks[t].dest.id := t];
      forall i | 0 <= i < |staticPool|
        ensures IsPoolEntry(tasks, statics, staticPool, i)
      {
        assert IsPoolEntry(tasks, old(statics), staticPool, i);
      }
      forall x | x in statics ensures IsTaskFor(tasks, statics[x], x) && KnowsItsPlace(tasks, staticPool, statics[x]) {
        assert x != id ==> IsTaskFor(tasks, old(statics)[x], x) && KnowsItsPlace(tasks, staticPool, old(statics)[x]);
      }
      forall x | x in statics && x != id
        ensures IsTaskFor(tasks, statics[x], x) && ExactAt(x)
      {
        assert old(ExactAt(x));
      }
    }

    method StaticRemoved(id: ID)
      requires Valid() && atSelect
      modifies this
      ensures Valid() && !atSelect && statics == old(statics) - {id} && dialing == old(dialing)
    {
      if id in statics {
        Unregister(id);
      } else {
        assert statics - {id} == statics;
      }
      atSelect := false;
    }

    /** The pool entry, if any, goes before the static entry: the back-index it needs is kept in the record itself. */
    method Unregister(id: ID)
      requires Core() && ExactBut({}) && id in statics
      modifies this`statics, this`tasks, this`staticPool
      ensures Core() && ExactBut({}) && statics == old(statics) - {id}
    {
      hide HistoryOk, InHistory, DialScheduler.RunningOk;
      var t := statics[id];
      assert IsTaskFor(tasks, t, id) && KnowsItsPlace(tasks, staticPool, t);
      if tasks[t].staticPoolIndex >= 0 {
        RemoveFromStaticPool(tasks[t].staticPoolIndex);
        PoolChangeKeepsOthers(id);
      }
      label out:
      statics := statics - {id};
      UnregisterKeepsTracked(tasks, old(statics), staticPool, id);
      forall x | x in statics ensures IsTaskFor(tasks, statics[x], x) && ExactAt(x) { assert old@out(ExactAt(x)); }
    }

    /** Expired items leave the history one by one; each may let its static task back into the pool. */
    method HistoryExpired(now: int)
      requires Valid() && atSelect
      modifies this
      ensures Valid() && !atSelect && dialing == old(dialing)
      ensures forall e :: e in history <==> e in old(history) && e.exp >= now
    {
      while history != [] && history[0].exp < now
        invariant Core() && ExactBut({}) && dialing == old(dialing)
        invariant forall e :: e in history ==> e in old(history)
        invariant forall e :: e in old(history) && e.exp >= now ==> e in history
        decreases |history|
      {
        ExpireOne();
      }
      RootIsEarliest(history);
      atSelect := false;
    }

    method ExpireOne()
      requires Core() && ExactBut({}) && history != []
      modifies this`history, this`tasks, this`staticPool
      ensures Core() && ExactBut({}) && |history| == |old(history)| - 1
      ensures forall e :: e in history <==> e in old(history) && e != old(history)[0]
    {
      var id;
      id, history := PopEarliest(history);
      forall x | x in statics && x != id
        ensures IsTaskFor(tasks, statics[x], x) && ExactAt(x)
      {
        assert old(ExactAt(x));
      }
      assert id in statics ==> old(ExactAt(id));
      UpdateStaticPool(id);
    }

    // ---- Shutdown ----

    /** The drain after the loop: as many receives as dialing has entries, each served by the end of a task still
        running, and when it ends every task has been received once and none is left running. */
    method Drain() returns (received: int, ghost ended: seq<TaskId>)
      requires Valid()
      modifies this`running
      ensures received == |dialing| == |old(running)| == |ended| && running == {}
      ensures forall t :: t in old(running) <==> t in ended
    {
      RunningCount();
      received, ended := 0, [];
      while received < |dialing|
        invariant 0 <= received == |ended| && received + |running| == |dialing| && running <= old(running)
        invariant forall t :: t in old(running) <==> t in ended || t in running
      {
        ghost var t := Member(running);
        running := running - {t};
        ended := ended + [t];
        received := received + 1;
      }
    }

    lemma RunningCount()
      requires RunningOk()
      ensures |running| == |dialing|
    {
      var started, known := dialing, tasks;
      var f := id requires id in started => started[id];
      forall t | t in running ensures exists id :: id in dialing.Keys && f(id) == t { assert f(known[t].dest.id) == t; }
      forall x, y | x in dialing.Keys && y in dialing.Keys && f(x) == f(y)
        ensures x == y
      {
        assert IsTaskFor(tasks, f(x), x) && IsTaskFor(tasks, f(y), y);
      }
      SameCount(dialing.Keys, running, f);
    }
  }

  lemma {:induction false} SameCount<A, B(!new)>(a: set<A>, b: set<B>, f: A --> B)
    requires forall x :: x in a ==> f.requires(x) && f(x) in b
    requires forall x, y :: x in a && y in a && f(x) == f(y) ==> x == y
    requires forall y :: y in b ==> exists x :: x in a && f(x) == y
    ensures |a| == |b|
    decreases a
  {
    if a == {} {
      assert b == {};
    } else {
      var x := Member(a);
      forall y | y in b - {f(x)} ensures exists z :: z in a - {x} && f(z) == y {
        var z :| z in a && f(z) == y;
        assert z in a - {x};
      }
      SameCount(a - {x}, b - {f(x)}, f);
      assert |a| == |a - {x}| + 1 && |b| == |b - {f(x)}| + 1;
    }
  }

  lemma UnregisterKeepsTracked(tasks: map<TaskId, Task>, statics: map<ID, TaskId>, pool: seq<TaskId>, id: ID)
    requires Tracked(tasks, statics, pool) && id in statics && tasks[statics[id]].staticPoolIndex == -1
    ensures Tracked(tasks, statics - {id}, pool)
  {
    forall i | 0 <= i < |pool|
      ensures IsPoolEntry(tasks, statics - {id}, pool, i)
    {
      assert IsPoolEntry(tasks, statics, pool, i);
    }
    forall x | x in statics - {id} ensures IsTaskFor(tasks, statics[x], x) && KnowsItsPlace(tasks, pool, statics[x]) {
      assert IsTaskFor(tasks, statics[x], x) && KnowsItsPlace(tasks, pool, statics[x]);
    }
  }

  lemma NewTaskKeepsTracked(tasks: map<TaskId, Task>, statics: map<ID, TaskId>, pool: seq<TaskId>, t: TaskId,
                            node: Node)
    requires Tracked(tasks, statics, pool) && t !in tasks
    ensures Tracked(tasks[t := Task(node, -1)], statics, pool)
  {
    var tasks' := tasks[t := Task(node, -1)];
    forall i | 0 <= i < |pool|
      ensures IsPoolEntry(tasks', statics, pool, i)
    {
      assert IsPoolEntry(tasks, statics, pool, i);
    }
    forall id | id in statics ensures IsTaskFor(tasks', statics[id], id) && KnowsItsPlace(tasks', pool, statics[id]) {
      assert IsTaskFor(tasks, statics[id], id) && KnowsItsPlace(tasks, pool, statics[id]);
    }
  }

  lemma ResolveKeepsTracked(tasks: map<TaskId, Task>, statics: map<ID, TaskId>, pool: seq<TaskId>, t: TaskId,
                            dest: Node)
    requires Tracked(tasks, statics, pool) && t in tasks && dest.id == tasks[t].dest.id
    ensures Tracked(tasks[t := tasks[t].(dest := dest)], statics, pool)
  {
    var tasks' := tasks[t := tasks[t].(dest := dest)];
    forall i | 0 <= i < |pool|
      ensures IsPoolEntry(tasks', statics, pool, i)
    {
      assert IsPoolEntry(tasks, statics, pool, i);
    }
    forall id | id in statics ensures IsTaskFor(tasks', statics[id], id) && KnowsItsPlace(tasks', pool, statics[id]) {
      assert IsTaskFor(tasks, statics[id], id) && KnowsItsPlace(tasks, pool, statics[id]);
    }
  }
}
