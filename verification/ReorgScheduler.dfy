// The pool's request-merging scheduler: scheduleReorgLoop, one method per select case, with the run it
// starts and the goroutines that ask it for runs as the other parties.
module ReorgScheduler {
  import opened Basics
  import opened Transactions

  type Channel = int
  type Header = int
  type Events = map<Address, map<Nonce, Tx>>

  // ---- What is handed around by reference ----

  class ResetRequest {
    var oldHead: Header
    var newHead: Header

    constructor (oldHead: Header, newHead: Header)
      ensures this.oldHead == oldHead && this.newHead == newHead
    {
      this.oldHead, this.newHead := oldHead, newHead;
    }
  }

  class AccountSet {
    var accounts: set<Address>

    constructor (accounts: set<Address>)
      ensures this.accounts == accounts
    {
      this.accounts := accounts;
    }

    method Merge(other: AccountSet)
      modifies this
      ensures accounts == old(accounts) + old(other.accounts)
    {
      accounts := accounts + other.accounts;
    }
  }

  class EventSet {
    var events: Events

    constructor ()
      ensures events == map[]
    {
      events := map[];
    }

    method Put(tx: Tx)
      modifies this
      ensures events == WithEvent(old(events), tx)
    {
      if tx.sender !in events {
        events := events[tx.sender := map[]];
      }
      events := events[tx.sender := events[tx.sender][tx.nonce := tx]];
    }
  }

  function WithEvent(events: Events, tx: Tx): Events {
    events[tx.sender := (if tx.sender in events then events[tx.sender] else map[])[tx.nonce := tx]]
  }

  /** The events after queueing txs in order. */
  function Queued(txs: seq<Tx>): Events {
    if txs == [] then map[] else WithEvent(Queued(txs[..|txs| - 1]), txs[|txs| - 1])
  }

  lemma QueuedMore(txs: seq<Tx>, tx: Tx)
    ensures Queued(txs + [tx]) == WithEvent(Queued(txs), tx)
  {
    assert (txs + [tx])[..|txs|] == txs;
  }

  lemma QueuedNothing()
    ensures Queued([]) == map[]
  {
  }

  /** An event reaches its run unless a later one of the same sender and nonce took its place. */
  lemma {:induction false} QueuedHolds(txs: seq<Tx>, i: int)
    requires 0 <= i < |txs|
    requires forall j :: i < j < |txs| ==> !(txs[j].sender == txs[i].sender && txs[j].nonce == txs[i].nonce)
    ensures var q := Queued(txs);
            txs[i].sender in q && txs[i].nonce in q[txs[i].sender] && q[txs[i].sender][txs[i].nonce] == txs[i]
  {
    if i < |txs| - 1 {
      var init := txs[..|txs| - 1];
      QueuedHolds(init, i);
      assert init[i] == txs[i];
    }
  }

  /** Nothing reaches a run that was not queued for it. */
  lemma {:induction false} QueuedIsFromQueue(txs: seq<Tx>, addr: Address, nonce: Nonce)
    requires addr in Queued(txs) && nonce in Queued(txs)[addr]
    ensures Queued(txs)[addr][nonce] in txs
  {
    var init, last := txs[..|txs| - 1], txs[|txs| - 1];
    if !(addr == last.sender && nonce == last.nonce) {
      QueuedIsFromQueue(init, addr, nonce);
    }
  }

  // ---- Runs and requests ----

  /** A request: the i-th reset, from the i-th head to the next, or a promotion of accounts. */
  datatype Request = ResetTo(i: int) | Promote(accounts: set<Address>)

  /** What a run is given: the heads to reset between, with their places in the sequence of heads. */
  datatype Reset = Reset(oldHead: Header, newHead: Header, from: int, to: int)

  datatype Run = Run(done: Channel, reset: Option<Reset>, accounts: Option<set<Address>>, events: Events)
  {
    predicate Includes(r: Request) {
      match r
      case ResetTo(i) => reset.Some? && reset.value.from <= i < reset.value.to
      case Promote(s) => accounts.Some? && s <= accounts.value
    }

    /** The other run, under the same channel, covers all of this one's reset and accounts. */
    predicate GrowsTo(r: Run) {
      && r.done == done
      && (reset.Some? ==> r.reset.Some? && r.reset.value.from <= reset.value.from && reset.value.to <= r.reset.value.to)
      && (accounts.Some? ==> r.accounts.Some? && accounts.value <= r.accounts.value)
    }
  }

  /** A request is with a run launched under the channel its sender was given. */
  ghost predicate Launched(runs: seq<Run>, a: (Request, Channel)) {
    exists k :: 0 <= k < |runs| && runs[k].done == a.1 && runs[k].Includes(a.0)
  }

  ghost predicate Placed(runs: seq<Run>, next: Option<Run>, a: (Request, Channel)) {
    (next.Some? && next.value.done == a.1 && next.value.Includes(a.0)) || Launched(runs, a)
  }

  /** Every answered request is with the next run or with a launched one, under the channel its sender was given. */
  ghost predicate AllPlaced(runs: seq<Run>, next: Option<Run>, answered: seq<(Request, Channel)>) {
    forall j :: 0 <= j < |answered| ==> Placed(runs, next, answered[j])
  }

  lemma LaunchKeepsPlaces(runs: seq<Run>, next: Run, answered: seq<(Request, Channel)>)
    requires AllPlaced(runs, Some(next), answered)
    ensures AllPlaced(runs + [next], None, answered)
  {
    var runs' := runs + [next];
    forall j | 0 <= j < |answered| ensures Launched(runs', answered[j]) {
      assert Placed(runs, Some(next), answered[j]);
      if Launched(runs, answered[j]) {
        var k :| 0 <= k < |runs| && runs[k].done == answered[j].1 && runs[k].Includes(answered[j].0);
        assert runs'[k] == runs[k];
      } else {
        assert runs'[|runs|] == next;
      }
    }
  }

  lemma SamePlaces(runs: seq<Run>, next: Option<Run>, next': Option<Run>, answered: seq<(Request, Channel)>)
    requires AllPlaced(runs, next, answered)
    requires next.Some? ==> next'.Some? && next'.value == next.value.(events := next'.value.events)
    ensures AllPlaced(runs, next', answered)
  {
    forall j | 0 <= j < |answered| ensures Placed(runs, next', answered[j]) { assert Placed(runs, next, answered[j]); }
  }

  /** Taking a request in keeps the earlier ones with their runs. */
  lemma GatherKeepsPlaces(runs: seq<Run>, next: Option<Run>, next': Run, answered: seq<(Request, Channel)>, r: Request)
    requires AllPlaced(runs, next, answered) && next'.Includes(r)
    requires next.Some? ==> next.value.GrowsTo(next')
    ensures AllPlaced(runs, Some(next'), answered + [(r, next'.done)])
  {
    var answered' := answered + [(r, next'.done)];
    forall j | 0 <= j < |answered'| ensures Placed(runs, Some(next'), answered'[j]) {
      assert j < |answered| ==> Placed(runs, next, answered[j]);
    }
  }

  /** Where the resets of the runs have got to. */
  function ResetEnd(runs: seq<Run>): int {
    if runs == [] then 0
    else if runs[|runs| - 1].reset.Some? then runs[|runs| - 1].reset.value.to
    else ResetEnd(runs[..|runs| - 1])
  }

  /** Each reset starts where the last one before it ended. */
  ghost predicate Chained(runs: seq<Run>, heads: seq<Header>) {
    runs != [] ==>
      var r := runs[|runs| - 1].reset;
      && Chained(runs[..|runs| - 1], heads)
      && (r.Some? ==> && ResetEnd(runs[..|runs| - 1]) == r.value.from < r.value.to < |heads| && 0 <= r.value.from
                      && r.value.oldHead == heads[r.value.from] && r.value.newHead == heads[r.value.to])
  }

  lemma {:induction false} ChainedGrows(runs: seq<Run>, heads: seq<Header>, head: Header)
    requires Chained(runs, heads)
    ensures Chained(runs, heads + [head])
  {
    if runs != [] {
      ChainedGrows(runs[..|runs| - 1], heads, head);
    }
  }

  lemma {:induction false} ChainedPrefix(runs: seq<Run>, heads: seq<Header>, n: int)
    requires Chained(runs, heads) && 0 <= n <= |runs|
    ensures Chained(runs[..n], heads)
  {
    if n < |runs| {
      ChainedPrefix(runs[..|runs| - 1], heads, n);
      assert runs[..|runs| - 1][..n] == runs[..n];
    } else {
      assert runs[..n] == runs;
    }
  }

  lemma {:induction false} EndAcross(runs: seq<Run>, i: int, j: int)
    requires 0 <= i < j <= |runs| && runs[i].reset.Some?
    requires forall k :: i < k < j ==> runs[k].reset.None?
    ensures ResetEnd(runs[..j]) == runs[i].reset.value.to
  {
    if i < j - 1 {
      EndAcross(runs, i, j - 1);
      assert runs[..j][..j - 1] == runs[..j - 1];
    }
  }

  /** Launched resets telescope: consecutive ones share a head. */
  lemma Telescope(runs: seq<Run>, heads: seq<Header>, i: int, j: int)
    requires Chained(runs, heads) && 0 <= i < j < |runs|
    requires runs[i].reset.Some? && runs[j].reset.Some? && forall k :: i < k < j ==> runs[k].reset.None?
    ensures runs[j].reset.value.oldHead == runs[i].reset.value.newHead
  {
    ChainedPrefix(runs, heads, i + 1);
    ChainedPrefix(runs, heads, j + 1);
    EndAcross(runs, i, j);
    assert runs[..j + 1][..j] == runs[..j] && runs[..i + 1][..i] == runs[..i];
  }

  /** Runs are over, except that the last one may go on while curDone is its channel. */
  ghost predicate RunsOk(runs: seq<Run>, closed: set<Channel>, curDone: Option<Channel>, nextDone: Channel) {
    && (forall k :: 0 <= k < |runs| ==>
          && runs[k].done < nextDone
          && (runs[k].done in closed || (k == |runs| - 1 && curDone == Some(runs[k].done))))
    && (forall i, j :: 0 <= i < j < |runs| ==> runs[i].done < runs[j].done)
    && (curDone.Some? ==> runs != [] && curDone.value == runs[|runs| - 1].done)
  }

  /** Safety: two runs that are both going on are the same run. */
  lemma OneRunAtATime(runs: seq<Run>, closed: set<Channel>, curDone: Option<Channel>, nextDone: Channel, i: int, j: int)
    requires RunsOk(runs, closed, curDone, nextDone) && 0 <= i < |runs| && 0 <= j < |runs|
    requires runs[i].done !in closed && runs[j].done !in closed
    ensures i == j
  {
    assert i == |runs| - 1 && j == |runs| - 1;
  }

  lemma LaunchKeepsRuns(runs: seq<Run>, closed: set<Channel>, next: Run)
    requires RunsOk(runs, closed, None, next.done)
    ensures RunsOk(runs + [next], closed, Some(next.done), next.done + 1)
  {
  }

  /** The resets of the runs, and of the one being gathered, form one chain up to the latest head. */
  ghost predicate ResetOk(runs: seq<Run>, heads: seq<Header>, next: Option<Reset>) {
    && heads != [] && Chained(runs, heads) && 0 <= ResetEnd(runs) < |heads|
    && (next.None? ==> ResetEnd(runs) == |heads| - 1)
    && (next.Some? ==> && next.value.from == ResetEnd(runs) < |heads| - 1 == next.value.to
                       && next.value.oldHead == heads[next.value.from] && next.value.newHead == heads[next.value.to])
  }

  lemma LaunchKeepsResets(runs: seq<Run>, heads: seq<Header>, next: Run)
    requires ResetOk(runs, heads, next.reset)
    ensures ResetOk(runs + [next], heads, None)
  {
    assert (runs + [next])[..|runs|] == runs;
  }

  /** One more head: the reset being gathered is stretched to it, or started. */
  lemma HeadKeepsResets(runs: seq<Run>, heads: seq<Header>, next: Option<Reset>, head: Header)
    requires ResetOk(runs, heads, next)
    ensures var from := ResetEnd(runs);
            && 0 <= from < |heads| && (next.Some? ==> next.value.from == from && next.value.to < |heads|)
            && heads[from] == (if next.Some? then next.value.oldHead else heads[|heads| - 1])
            && ResetOk(runs, heads + [head], Some(Reset(heads[from], head, from, |heads|)))
  {
    ChainedGrows(runs, heads, head);
  }

  /** One more head, with the request that brought it in. */
  lemma ResetGathered(runs: seq<Run>, heads: seq<Header>, next: Run, launch: bool, answered: seq<(Request, Channel)>,
                      head: Header)
    requires ResetOk(runs, heads, next.reset) && AllPlaced(runs, if launch then Some(next) else None, answered)
    ensures var from := ResetEnd(runs);
            && 0 <= from < |heads|
               && heads[from] == (if next.reset.Some? then next.reset.value.oldHead else heads[|heads| - 1])
            && var r := Some(Reset(heads[from], head, from, |heads|));
            && ResetOk(runs, heads + [head], r)
            && AllPlaced(runs, Some(next.(reset := r)), answered + [(ResetTo(|heads| - 1), next.done)])
  {
    HeadKeepsResets(runs, heads, next.reset, head);
    var from := ResetEnd(runs);
    var next' := next.(reset := Some(Reset(heads[from], head, from, |heads|)));
    GatherKeepsPlaces(runs, if launch then Some(next) else None, next', answered, ResetTo(|heads| - 1));
  }

  lemma EndKeepsRuns(runs: seq<Run>, closed: set<Channel>, curDone: Channel, nextDone: Channel)
    requires RunsOk(runs, closed, Some(curDone), nextDone)
    ensures RunsOk(runs, closed + {curDone}, Some(curDone), nextDone)
            && RunsOk(runs, closed + {curDone}, None, nextDone)
    ensures curDone < nextDone
  {
  }

  // ---- The loop ----

  class Scheduler {
    var curDone: Option<Channel>
    var nextDone: Channel
    var launchNextRun: bool
    var reset: ResetRequest?
    var dirtyAccounts: AccountSet?
    var queuedEvents: EventSet
    var head: Header         // the head that loop() remembers between its reset requests
    var stopped: bool
    var atSelect: bool       // waiting in select, as opposed to the top of the loop

    ghost var closed: set<Channel>
    ghost var runs: seq<Run>
    ghost var answered: seq<(Request, Channel)>  // every request taken, with the channel its sender was given
    ghost var heads: seq<Header>                 // the heads seen by loop(), oldest first
    ghost var unsent: seq<Tx>                    // events queued since the last launch
    ghost var handed: set<object?>               // what runs were started with

    ghost function Owned(): set<object?>
      reads `reset, `dirtyAccounts, `queuedEvents
    {
      {queuedEvents, reset, dirtyAccounts} - {null}
    }

    /** What the next run is given. */
    ghost function Next(): Run
      reads `nextDone, `runs, `heads, `reset, `dirtyAccounts, `queuedEvents, reset, dirtyAccounts, queuedEvents
    {
      Run(nextDone,
          if reset == null then None else Some(Reset(reset.oldHead, reset.newHead, ResetEnd(runs), |heads| - 1)),
          if dirtyAccounts == null then None else Some(dirtyAccounts.accounts),
          queuedEvents.events)
    }

    ghost predicate Valid()
      reads this, reset, dirtyAccounts, queuedEvents
    {
      && RunsOk(runs, closed, curDone, nextDone) && heads != [] && heads[|heads| - 1] == head
         && ResetOk(runs, heads, Next().reset)
      && (!stopped ==> nextDone !in closed)
      && (forall c :: c in closed ==> c <= nextDone)
      && queuedEvents.events == Queued(unsent)
      && (reset != null || dirtyAccounts != null ==> launchNextRun)
      && AllPlaced(runs, if launchNextRun then Some(Next()) else None, answered)
      && null !in handed && this !in handed && queuedEvents !in handed && reset !in handed && dirtyAccounts !in handed
      && (atSelect && launchNextRun ==> curDone.Some?)
    }

    constructor (head: Header)
      ensures Valid() && !atSelect && !stopped && runs == [] && answered == [] && heads == [head] && handed == {}
    {
      curDone, nextDone, launchNextRun, reset, dirtyAccounts := None, 0, false, null, null;
      queuedEvents := new EventSet();
      this.head, stopped, atSelect := head, false, false;
      closed, runs, answered, heads, unsent, handed := {}, [], [], [head], [], {};
    }

    /** The top of the loop: at most one run at a time, started with everything gathered so far. */
    method TopOfLoop()
      requires Valid() && !atSelect && !stopped
      modifies this
      ensures Valid() && atSelect && !stopped && unchanged(`answered) && unchanged(`heads) && unchanged(`closed)
      ensures runs == if old(curDone.None? && launchNextRun) then old(runs) + [old(Next())] else old(runs)
      ensures unchanged(old(handed)) && old(handed) <= handed
    {
      hide RunsOk, ResetOk, AllPlaced, Queued;
      if curDone == None && launchNextRun {
        var events := new EventSet();
        Launch(events);
      }
      atSelect := true;
    }

    method Launch(events: EventSet)
      requires Valid() && !atSelect && !stopped && curDone.None? && launchNextRun
      requires events.events == map[] && events !in handed && events != queuedEvents
      modifies this
      ensures Valid() && unchanged(`answered) && unchanged(`heads) && unchanged(`closed) && unchanged(`stopped)
      ensures runs == old(runs) + [old(Next())] && !launchNextRun
      ensures handed == old(handed + Owned())
    {
      hide RunsOk, ResetOk, AllPlaced, Queued, ResetEnd;
      QueuedNothing();
      LaunchKeepsRuns(runs, closed, Next());
      LaunchKeepsResets(runs, heads, Next());
      LaunchKeepsPlaces(runs, Next(), answered);
      ghost var next, given := Next(), handed + Owned();
      runs, handed, unsent := runs + [next], given, [];
      curDone, nextDone, launchNextRun := Some(nextDone), nextDone + 1, false;
      reset, dirtyAccounts, queuedEvents := null, null, events;
    }

    /** A new chain head: loop() asks for a reset from the head it remembers. A head event without a block is
        ignored by loop(). */
    method HeadArrived(newHead: Header) returns (done: Channel)
      requires Valid() && atSelect && !stopped
      modifies this, reset
      ensures Valid() && !atSelect && !stopped && unchanged(`runs) && unchanged(`closed)
      ensures heads == old(heads) + [newHead] && answered == old(answered) + [(ResetTo(|old(heads)| - 1), done)]
      ensures unchanged(old(handed)) && handed == old(handed)
    {
      hide RunsOk, ResetOk, AllPlaced, Queued, Next;
      var req := new ResetRequest(head, newHead);
      done := ResetRequested(req);
    }

    /** A reset request is merged into the one being gathered, if any. */
    method ResetRequested(req: ResetRequest) returns (done: Channel)
      requires Valid() && atSelect && !stopped && req !in handed && req.oldHead == head
      modifies `reset, `launchNextRun, `head, `atSelect, `heads, `answered, reset
      ensures Valid() && !atSelect && !stopped && unchanged(`runs) && unchanged(`closed)
      ensures heads == old(heads) + [old(req.newHead)]
              && answered == old(answered) + [(ResetTo(|old(heads)| - 1), done)]
      ensures unchanged(old(handed)) && handed == old(handed)
    {
      hide RunsOk, ResetOk, AllPlaced, Queued, ResetEnd;
      ResetGathered(runs, heads, Next(), launchNextRun, answered, req.newHead);
      ghost var from, r := ResetEnd(runs), ResetTo(|heads| - 1);
      ghost var next := Next().(reset := Some(Reset(heads[from], req.newHead, from, |heads|)));
      done := nextDone;
      MergeReset(req);
      assert Next() == next;
      atSelect, answered := false, answered + [(r, done)];
    }

    /** The pending request keeps its old head and takes the new one's new head. */
    method MergeReset(req: ResetRequest)
      modifies `reset, `launchNextRun, `head, `heads, reset
      ensures reset == (if old(reset) == null then req else old(reset)) && launchNextRun
      ensures heads == old(heads) + [head] && head == old(req.newHead) && Next() == old(Next()).(reset := Next().reset)
      ensures var oldHead := if old(reset) == null then old(req.oldHead) else old(reset.oldHead);
              Next().reset == Some(Reset(oldHead, head, ResetEnd(runs), |old(heads)|))
    {
      hide ResetEnd;
      if reset == null {
        reset := req;
      } else {
        reset.newHead := req.newHead;
      }
      launchNextRun, head, heads := true, reset.newHead, heads + [reset.newHead];
    }

    /** A promotion request: its accounts are merged into those being gathered. The set is made for the request. */
    method PromoteRequested(req: AccountSet) returns (done: Channel)
      requires Valid() && atSelect && !stopped && req !in handed && req != dirtyAccounts
      modifies this, dirtyAccounts
      ensures Valid() && !atSelect && !stopped && unchanged(`runs) && unchanged(`closed) && unchanged(`heads)
      ensures answered == old(answered) + [(Promote(old(req.accounts)), done)]
      ensures unchanged(old(handed)) && handed == old(handed)
    {
      hide RunsOk, ResetOk, AllPlaced, Queued;
      ghost var next := if launchNextRun then Some(Next()) else None;
      ghost var r := Promote(req.accounts);
      if dirtyAccounts == null {
        dirtyAccounts := req;
      } else {
        dirtyAccounts.Merge(req);
      }
      launchNextRun := true;
      done := nextDone;
      atSelect := false;
      GatherKeepsPlaces(runs, next, Next(), answered, r);
      answered := answered + [(r, done)];
    }

    /** An event is queued for the next run, but no run is asked for. */
    method EventQueued(tx: Tx)
      requires Valid() && atSelect && !stopped
      modifies this, queuedEvents
      ensures Valid() && !atSelect && !stopped && unchanged(`runs) && unchanged(`closed) && unchanged(`heads)
              && unchanged(`answered)
      ensures unsent == old(unsent) + [tx] && Next() == old(Next()).(events := Queued(unsent))
      ensures unchanged(`launchNextRun) && unchanged(`curDone) && unchanged(`reset) && unchanged(`dirtyAccounts)
      ensures unchanged(old(handed)) && handed == old(handed)
    {
      hide RunsOk, ResetOk, AllPlaced, Queued, WithEvent;
      QueuedMore(unsent, tx);
      ghost var next := if launchNextRun then Some(Next()) else None;
      queuedEvents.Put(tx);
      unsent := unsent + [tx];
      atSelect := false;
      SamePlaces(runs, next, if launchNextRun then Some(Next()) else None, answered);
    }

    /** The run going on finishes: its last act is to close its channel. */
    ghost method RunEnds()
      requires Valid() && runs != [] && runs[|runs| - 1].done !in closed
      modifies `closed
      ensures Valid() && closed == old(closed) + {runs[|runs| - 1].done}
    {
      hide ResetOk, AllPlaced, Queued;
      EndKeepsRuns(runs, closed, curDone.value, nextDone);
      closed := closed + {curDone.value};
    }

    /** The loop hears that the run it waits for is over. */
    method RunDone()
      requires Valid() && atSelect && !stopped && curDone.Some? && curDone.value in closed
      modifies `curDone, `atSelect
      ensures Valid() && !atSelect && curDone.None?
    {
      hide ResetOk, AllPlaced, Queued;
      curDone := None;
      atSelect := false;
    }

    /** Shutdown: the run going on, if any, is waited for, and the senders of requests that no run will include
        are released. */
    method Shutdown()
      requires Valid() && atSelect && !stopped && (curDone.Some? ==> curDone.value in closed)
      modifies `closed, `stopped
      ensures Valid() && stopped && closed == old(closed) + {nextDone}
      ensures forall k :: 0 <= k < |runs| ==> runs[k].done in closed
    {
      hide ResetOk, AllPlaced, Queued;
      closed := closed + {nextDone};
      stopped := true;
    }

    /** Outside shutdown, a requester whose channel is closed had its request included in a run that is over; in
        shutdown the channel may instead be the one of the run that will not be started. */
    lemma ClosedMeansServed(j: int)
      requires Valid() && 0 <= j < |answered| && answered[j].1 in closed
      ensures Served(answered[j]) || (stopped && answered[j].1 == nextDone)
    {
      assert Placed(runs, if launchNextRun then Some(Next()) else None, answered[j]);
    }

    /** The request was included in a run under the sender's channel, and that run is over. */
    ghost predicate Served(a: (Request, Channel))
      reads `runs, `closed
    {
      exists k :: 0 <= k < |runs| && runs[k].done == a.1 && runs[k].Includes(a.0) && runs[k].done in closed
    }

    /** While the loop waits and a request is not yet with a run, some run is going on or about to be noticed as
        over, so the next pass of the loop that follows it will start one. */
    lemma NothingIsForgotten(j: int)
      requires Valid() && atSelect && !stopped && 0 <= j < |answered|
      ensures Launched(runs, answered[j])
              || (curDone.Some? && answered[j].1 == nextDone && Next().Includes(answered[j].0))
    {
      assert Placed(runs, if launchNextRun then Some(Next()) else None, answered[j]);
    }
  }
}
