# A verified model of the blockchain node's core

This project models, in Dafny, the parts of the node whose correctness spans several structures or a whole run, and
proves what they are meant to keep. Each module follows one component of the Go source:

- `Transactions`, `NonceMaps`, `NonceIndex`, `TxSortedMaps`, `TxLists`: one account's transactions. `NonceMaps` says
  what the operations mean on a plain nonce-to-transaction map; `TxSortedMaps` and `TxLists` are the classes with the
  heap index, the sort cache and the cost and gas bounds, proved to do just that.
- `TxLookups`, `TxPriced`: the lookup with its slot count, and the two price heaps with lazy deletion.
- `PoolStates`, `TxPools`: the transaction pool. The lookup is the disjoint union of the pending and the queued
  transactions in every state between operations, and pending lists run without a gap from the account's nonce.
- `PoolRuns`: two runs of the pool, from an empty one, that end where a property of its normal operation fails.
- `ReorgScheduler`: the loop that merges requests into background runs.
- `StateObject`, `AccessLists`, `StateDB`: storage layers over a trie, the access list, and the journal whose entries,
  reverted newest first, restore everything that can be observed.
- `Dial`: the dial scheduler with its static pool and expiring history.
- `Feeds`: the one-to-many event feed.
- `Chain`, `ForkChoice`, `HeaderChain`: branches and where they meet, head selection by total difficulty, the
  ancestor lookup over the canonical index.
- `Protocols`: message-code ranges of the capabilities two peers share.
- `SampleHeap`: the exponentially decaying sample over an array heap.
- `DerivationPath`: parsing and printing of hierarchical key paths.
- `Heaps`, `Basics`: the binary heap of Go's `container/heap`, and an option type.

Where a stated property is not true of the code, the code is kept, a concrete run or input shows the failure, and the
exact condition is proved for all inputs:

- Writing an object's words to the trie changes no read if and only if no zero is written for a stored key that was
  never read (`StateObject.UpdateKeepsReadsIff`; failing input: `StateObject.LostDeletion`).
- The ancestor lookup agrees with the plain walk except for the zero hash, in exactly the stated case
  (`HeaderChain.GetAncestor`; failing input: `HeaderChain.ZeroHashExample`).
- Promotion keeps the next nonces right if and only if no account promotes the highest nonce
  (`TxPools.TxPool.PromoteExecutables`; failing run: `PoolRuns.NonceWraps`).
- The price index frees the slots it reports, whatever it is asked for, if and only if no live transaction that takes a
  slot has two entries (`TxPriced.FreesIffNoneDoubled`). `TxPools.TxPool.Add` accepts a remote transaction into a full
  pool within the slot limit if and only if the drops free what is lacking, and so whenever no entry is doubled. From a
  pool at its limit `PoolRuns.BeyondTheLimit` accepts one and ends above it.

Machine integers are written out where they matter: nonces are 64-bit and their successor wraps, the refund counter
and balances are as in the source, and prices, costs and heights are unbounded integers. Sample keys are reals. Go maps
are walked in any order. Go's `sort` is an insertion sort with the same contract. Time, randomness, readiness of
channels and the outcome of code that is not modelled are parameters.

A transaction is a record that stands for its hash, so a map from hashes to transactions is a set of records.

## Model

| member | source | states |
|---|---|---|
| `Heaps.SiftUpMakesHeap` | metrics/sample.go:583-592 | sifting up repairs a heap whose last element may be too small, and touches nothing after it |
| `Heaps.SiftDownMakesHeap` | metrics/sample.go:594-610 | sifting down repairs a heap whose given element may be too large, leaving everything beyond the heap alone |
| `Heaps.Push` | blockchain/octopus_blockchain_tx_pool.go:1755-1757 | pushing gives a heap with exactly one more element |
| `Heaps.Pop` | blockchain/octopus_blockchain_tx_pool.go:1759-1765 | popping takes out a least element and leaves a heap of the others |
| `Heaps.Init` | blockchain/octopus_blockchain_tx_pool.go:1670-1677 | any sequence becomes a heap of the same elements |
| `Heaps.Remove` | blockchain/octopus_blockchain_tx_pool.go:1736-1741 | the element at any place can be taken out, leaving a heap of the others |
| `Transactions.NumSlots` | blockchain/octopus_blockchain_tx_pool.go:1897-1899 | the least number of slots that the size fits into |
| `NonceMaps.FlatLists` | blockchain/octopus_blockchain_tx_pool.go:1585-1591 | the flattened form has each transaction of the map once, in ascending order of nonces |
| `NonceMaps.FlatUnique` | blockchain/octopus_blockchain_tx_pool.go:1585-1591 | an ascending listing of the map is the flattened form, whatever way it was made |
| `NonceMaps.FlatSplit` | blockchain/octopus_blockchain_tx_pool.go:1625-1639 | flattening splits at any threshold, which is what lets the cache be cut at the front |
| `NonceMaps.FlatLast` | blockchain/octopus_blockchain_tx_pool.go:1699-1720 | without its highest nonce a map flattens to all but the last element, which is what lets the cache be cut at the back |
| `NonceMaps.RunEnd` | blockchain/octopus_blockchain_tx_pool.go:1681-1696 | the first missing nonce: everything from the start up to it is there |
| `NonceMaps.CappedMeans` | blockchain/octopus_blockchain_tx_pool.go:1699-1720 | capping keeps the lowest nonces, as many as allowed, each below everything dropped |
| `NonceIndex.RootIsLowest` | blockchain/octopus_blockchain_tx_pool.go:1749-1765 | the root of the index is the lowest nonce of the list |
| `TxSortedMaps.SortedListing` | blockchain/octopus_blockchain_tx_pool.go:1612-1622 | sorting the transactions in whatever order the map gives them yields the flattened form |
| `TxSortedMaps.SortedIndex` | blockchain/octopus_blockchain_tx_pool.go:1699-1720 | sorting the heap in place gives the nonces of the flattened form |
| `TxSortedMaps.TxSortedMap.Put` | blockchain/octopus_blockchain_tx_pool.go:1604-1610 | refines inserting or overwriting in the plain map; index and cache stay right |
| `TxSortedMaps.TxSortedMap.Sort` | blockchain/octopus_blockchain_tx_pool.go:1612-1622 | afterwards the cache holds the flattened form |
| `TxSortedMaps.TxSortedMap.Flatten` | blockchain/octopus_blockchain_tx_pool.go:1585-1591 | returns the flattened form, cached or not |
| `TxSortedMaps.TxSortedMap.LastElement` | blockchain/octopus_blockchain_tx_pool.go:1723-1726 | returns the transaction of the highest nonce |
| `TxSortedMaps.TxSortedMap.Forward` | blockchain/octopus_blockchain_tx_pool.go:1625-1639 | keeps just the nonces from the threshold on and returns the others, flattened; the shifted cache stays right |
| `TxSortedMaps.TxSortedMap.FilterItems` | blockchain/octopus_blockchain_tx_pool.go:1654-1668 | takes out just what the predicate holds of and returns it, each once |
| `TxSortedMaps.TxSortedMap.Reheap` | blockchain/octopus_blockchain_tx_pool.go:1670-1677 | rebuilds a right index from any contents |
| `TxSortedMaps.TxSortedMap.Filter` | blockchain/octopus_blockchain_tx_pool.go:1644-1651 | as the plain filter, with index and cache right afterwards |
| `TxSortedMaps.TxSortedMap.Ready` | blockchain/octopus_blockchain_tx_pool.go:1681-1696 | takes the gap-free run from the lowest nonce, if that is not above the start, and returns it flattened; the wrapping counter does no harm |
| `TxSortedMaps.TxSortedMap.Cap` | blockchain/octopus_blockchain_tx_pool.go:1699-1720 | keeps the lowest nonces and returns the others from the highest down; the cut cache stays right |
| `TxSortedMaps.TxSortedMap.Remove` | blockchain/octopus_blockchain_tx_pool.go:1729-1746 | removes by nonce, telling whether it was there |
| `TxLists.ShortCircuit` | blockchain/octopus_blockchain_tx_pool.go:1451-1453 | with both bounds within the limits the naive filter drops and invalidates nothing |
| `TxLists.TwoSweeps` | blockchain/octopus_blockchain_tx_pool.go:1457-1477 | dropping the unpayable and then everything above the lowest of those equals the naive strict filter, invalids included |
| `TxLists.TxList.Add` | blockchain/octopus_blockchain_tx_pool.go:1488-1519 | inserts exactly if the place is free or the price is bumped enough, and reports what was replaced; the bounds stay bounds |
| `TxLists.TxList.Forward` | blockchain/octopus_blockchain_tx_pool.go:1443-1445 | as on the plain map, with the bounds still holding |
| `TxLists.TxList.Filter` | blockchain/octopus_blockchain_tx_pool.go:1449-1478 | equals the naive filter in what it keeps, drops and invalidates, whatever the cached bounds were |
| `TxLists.TxList.LowestNonce` | blockchain/octopus_blockchain_tx_pool.go:1468-1473 | the least nonce among the removed ones |
| `TxLists.TxList.Ready` | blockchain/octopus_blockchain_tx_pool.go:1482-1484 | as on the plain map |
| `TxLists.TxList.Cap` | blockchain/octopus_blockchain_tx_pool.go:1522-1524 | as on the plain map |
| `TxLists.TxList.Remove` | blockchain/octopus_blockchain_tx_pool.go:1542-1553 | removes by nonce; a strict list also gives up everything above |
| `TxLookups.SlotSumSplit` | blockchain/octopus_blockchain_tx_pool.go:1853-1858 | the slots of a disjoint union are the sum of the parts |
| `TxLookups.TxLookup.Add` | blockchain/octopus_blockchain_tx_pool.go:1827-1839 | the transaction is in the set asked for and its slots are added; the count is right afterwards if it was not there |
| `TxLookups.TxLookup.Remove` | blockchain/octopus_blockchain_tx_pool.go:1778-1795 | removes from either set and counts its slots off; an unknown one changes nothing |
| `TxLookups.TxLookup.RemoteToLocals` | blockchain/octopus_blockchain_tx_pool.go:1869-1882 | moves just the remote transactions of the accounts, keeps the union and the slots, and counts the moved ones |
| `TxLookups.TxLookup.RemotesBelowTip` | blockchain/octopus_blockchain_tx_pool.go:1885-1894 | finds each remote transaction below the tip once |
| `TxPriced.CheaperIsOrder` | blockchain/octopus_blockchain_tx_pool.go:2050-2074 | the heap's comparison is a strict weak order |
| `TxPriced.TxPricedList.Put` | blockchain/octopus_blockchain_tx_pool.go:1951-1957 | a remote transaction gets exactly one entry more, a local one none |
| `TxPriced.TxPricedList.DropStale` | blockchain/octopus_blockchain_tx_pool.go:1968-1978 | only stale entries go, until a live one is in front; live ones all stay |
| `TxPriced.TxPricedList.Underpriced` | blockchain/octopus_blockchain_tx_pool.go:1960-1986 | true if and only if there is a remote transaction and none of them is cheaper: the lazy check over two heaps equals the scan; the heaps lose stale entries only |
| `TxPriced.TxPricedList.Removed` | blockchain/octopus_blockchain_tx_pool.go:1916-1924 | below a quarter of noted stales the heaps stay, above it they hold the remotes once each; every tracked remote stays tracked |
| `TxPriced.TxPricedList.Reheap` | blockchain/octopus_blockchain_tx_pool.go:1927-1948 | the heaps hold each remote transaction once, and the floating fifth has none dearer than the urgent ones |
| `TxPriced.TxPricedList.Discard` | blockchain/octopus_blockchain_tx_pool.go:1990-2026 | which entries go, in order: urgent ones sink while they are too many, else the cheapest floating one goes if it is live; it stops once the slots are made up, gives up only if all live entries together do not suffice, and then nothing is lost |
| `TxPriced.DiscardedMeans` | blockchain/octopus_blockchain_tx_pool.go:1990-2026 | what is dropped is live and was there, is every live entry if the slots are not made up, and without its last element would not do |
| `TxPriced.FreesIffNoneDoubled` | blockchain/octopus_blockchain_tx_pool.go:1990-2026 | whatever the slots asked for, a successful discard frees the slots it reports, if and only if no live transaction of at least one slot has two entries |
| `TxPriced.DoubledIsDroppedTwice` | blockchain/octopus_blockchain_tx_pool.go:1990-2026 | for any such doubled entry there is a request whose drops are counted for more than they free |
| `TxPriced.TxPricedList.Sink` | blockchain/octopus_blockchain_tx_pool.go:1993-2001 | the cheapest urgent entry moves to the floating heap if it is live |
| `TxPriced.TxPricedList.TakeFloating` | blockchain/octopus_blockchain_tx_pool.go:2003-2015 | the cheapest floating entry is given out if it is live |
| `TxPriced.SlotsOnce` | blockchain/octopus_blockchain_tx_pool.go:2013-2015 | without repetition the slots counted for dropped entries are those they free |
| `PoolStates.AccountChanged` | blockchain/octopus_blockchain_tx_pool.go:471-962 | the agreement of the pool's structures is a matter of each account alone |
| `PoolStates.OutOfPending` | blockchain/octopus_blockchain_tx_pool.go:932-948 | removing from a pending list and queueing what was above it keeps the account's structures in agreement |
| `PoolStates.OutOfQueue` | blockchain/octopus_blockchain_tx_pool.go:951-961 | removing from the queue keeps the account's structures in agreement |
| `PoolStates.MovedUp` | blockchain/octopus_blockchain_tx_pool.go:660-690 | promotion never meets a transaction of the same nonce |
| `PoolStates.MovedDown` | blockchain/octopus_blockchain_tx_pool.go:715-740 | demotion never loses a transaction |
| `PoolStates.StrictParts` | blockchain/octopus_blockchain_tx_pool.go:1465-1475 | the lowest dropped nonce is the boundary between what a strict list keeps and what it gives up |
| `PoolStates.RunExtended` | blockchain/octopus_blockchain_tx_pool.go:621-629 | a readied run starts just where the pending run ends, and the next nonce is right after it if and only if the highest nonce is not in it |
| `PoolStates.TotalChanged` | blockchain/octopus_blockchain_tx_pool.go:787-790 | changing one list changes the total by the difference of its lengths |
| `TxPools.Sanitize` | blockchain/blockchainconfig/txPool_config.go:42-77 | settings of 1 or more are kept, and the others become the defaults |
| `TxPools.TxPool.constructor` | blockchain/octopus_blockchain_tx_pool.go:136-189 | an empty pool agrees with itself, with the settings, state and price it is given |
| `TxPools.TxPool.Add` | blockchain/octopus_blockchain_tx_pool.go:471-564 | the exact reason of every refusal, which then changes no list; the structures agree and runs stay runs, accepted or not; a local transaction is lost only to one of its own sender and nonce; into a full pool a transaction without a rival is accepted within the limit if and only if the drops free the slots lacking, and they do if no live entry is doubled |
| `TxPools.TxPool.Admit` | blockchain/octopus_blockchain_tx_pool.go:521-564 | with room, acceptance and effect are exact, and the transaction may make its account local |
| `TxPools.TxPool.MarkLocal` | blockchain/octopus_blockchain_tx_pool.go:551-556 | no remote transaction of a local account is left |
| `TxPools.TxPool.Place` | blockchain/octopus_blockchain_tx_pool.go:521-550 | the transaction replaces its rival of the same nonce, pending before queued, exactly if it outbids it |
| `TxPools.TxPool.MakeRoom` | blockchain/octopus_blockchain_tx_pool.go:489-520 | the exact reason of a refusal: underpriced if no remote one is cheaper, overflow after too many changes or if the drops do not make up the slots; else exactly the drops go, locals stay, and the new one fits if no live entry is doubled |
| `TxPools.TxPool.DropCheapest` | blockchain/octopus_blockchain_tx_pool.go:502-519 | exactly what the price index gives up leaves the pool, or nothing if that is not enough; the slots fall by what the drops free |
| `TxPools.TxPool.TakeCheapest` | blockchain/octopus_blockchain_tx_pool.go:502-513 | what the price index gives out, in order, all of it remote; it frees the slots asked for if no live entry is doubled |
| `TxPools.TxPool.SetGasPrice` | blockchain/octopus_blockchain_tx_pool.go:575-592 | a raised price drops just the remote transactions below it, and a lowered one nothing; structures agree and runs stay runs |
| `TxPools.TxPool.EnqueueTx` | blockchain/octopus_blockchain_tx_pool.go:749-783 | exact effect on the queue, the lookup and the heartbeat, inserted or refused |
| `TxPools.TxPool.Requeue` | blockchain/octopus_blockchain_tx_pool.go:939-943 | everything given up reaches the queue, and the lookup is untouched |
| `TxPools.TxPool.RemoveTx` | blockchain/octopus_blockchain_tx_pool.go:916-962 | exactly that transaction leaves the pool, its followers go back to the queue, the next nonce is lowered, and runs stay runs |
| `TxPools.TxPool.SetIfLower` | blockchain/octopus_blockchain_tx_pool.go:1404-1415 | the next nonce becomes the lower of the two, with the state's nonce where none is known |
| `TxPools.TxPool.PromoteTx` | blockchain/octopus_blockchain_tx_pool.go:660-690 | exact effect on the pending list, the lookup and the next nonce, inserted or refused |
| `TxPools.TxPool.Prune` | blockchain/octopus_blockchain_tx_pool.go:605-619 | what is old or unpayable leaves the queue and the lookup, and nothing else |
| `TxPools.TxPool.PromoteRun` | blockchain/octopus_blockchain_tx_pool.go:621-628 | the whole readied run becomes pending, none refused |
| `TxPools.TxPool.PromoteAccount` | blockchain/octopus_blockchain_tx_pool.go:600-654 | the pending list grows by the readied run, the rest stays queued up to the cap, and the run stays a run if and only if the highest nonce is not promoted |
| `TxPools.TxPool.PromoteExecutables` | blockchain/octopus_blockchain_tx_pool.go:595-656 | each account's exact share, its heartbeat, and what was promoted; runs stay runs if and only if no account promotes the highest nonce |
| `TxPools.TxPool.DemoteAccount` | blockchain/octopus_blockchain_tx_pool.go:696-744 | exactly the executable part stays pending, and the payable rest is queued without loss |
| `TxPools.TxPool.DemoteUnexecutables` | blockchain/octopus_blockchain_tx_pool.go:694-745 | the same for every account, in whatever order they are walked |
| `TxPools.TxPool.TruncatePending` | blockchain/octopus_blockchain_tx_pool.go:786-868 | ends within the total or with every remote list at the allowance; locals untouched, none below the allowance, whatever is cut stays as long as every other remote list, no more is cut than the last round needs, and runs stay runs |
| `TxPools.TxPool.Equalise` | blockchain/octopus_blockchain_tx_pool.go:812-840 | earlier offenders stay level and come down at most to the newest one's length |
| `TxPools.TxPool.LowerAll` | blockchain/octopus_blockchain_tx_pool.go:842-866 | all offenders come down together, at most to the allowance |
| `TxPools.TxPool.CapOne` | blockchain/octopus_blockchain_tx_pool.go:819-837 | one list loses its highest nonce, the lookup with it, and the next nonce becomes the lower of that and what it was |
| `TxPools.CutEnds` | blockchain/octopus_blockchain_tx_pool.go:786-868 | levelled offenders mean a fair cut for everybody |
| `TxPools.TxPool.TruncateQueue` | blockchain/octopus_blockchain_tx_pool.go:871-913 | removes exactly the lesser of the excess and the remote queued ones, highest nonces of the oldest heartbeats first; locals, pending lists and next nonces untouched |
| `TxPools.TxPool.CutQueue` | blockchain/octopus_blockchain_tx_pool.go:896-911 | just the highest nonces of one queue go, however many are asked for |
| `TxPools.QueueCutStep` | blockchain/octopus_blockchain_tx_pool.go:889-912 | cutting the oldest of the waiting accounts keeps the order fair |
| `TxPools.TxPool.Evict` | blockchain/octopus_blockchain_tx_pool.go:1193-1209 | just the queues of remote accounts without a recent heartbeat go |
| `TxPools.TxPool.RunReorg` | blockchain/octopus_blockchain_tx_pool.go:306-377 | without a new head: each account has its exact share of the promotion, from which both limits then cut fairly and no more than it takes; the promoted ones are exact, and runs stay runs unless the highest nonce is promoted |
| `TxPools.TxPool.RunReset` | blockchain/octopus_blockchain_tx_pool.go:320-357 | with a new head: locals survive the reinjection unless replaced, each account then has its exact executable and queued parts, from which both limits cut fairly; every pending list starts at its account's nonce |
| `TxPools.TxPool.NothingLost` | blockchain/octopus_blockchain_tx_pool.go:320-360 | a local account has, pending or queued, exactly the payable part of what it had once the dropped transactions were back |
| `TxPools.PayableStays` | blockchain/octopus_blockchain_tx_pool.go:600-744 | promoting a part of the payable queue and demoting what is not executable neither loses nor adds a payable transaction |
| `TxPools.TxPool.Settle` | blockchain/octopus_blockchain_tx_pool.go:320-352 | the exact pending and queued part of every account after promotion of everything queued and demotion |
| `TxPools.TxPool.EndNonces` | blockchain/octopus_blockchain_tx_pool.go:346-352 | the next nonces are one past the ends of the lists |
| `PoolRuns.BeyondTheLimit` | blockchain/octopus_blockchain_tx_pool.go:471-564 | a run from an empty pool to its limit of five slots, a price raised and lowered again with the cheapest re-added, and a dearer remote transaction of two slots that is accepted and leaves six |
| `PoolRuns.NonceWraps` | blockchain/octopus_blockchain_tx_pool.go:660-690 | a run in which a transaction of the highest nonce is added and promoted: the runs were right before, and afterwards the next nonce is not the end of the list |
| `ReorgScheduler.QueuedHolds` | blockchain/octopus_blockchain_tx_pool.go:283-289 | a queued event reaches the next run unless a later one of its sender and nonce replaced it |
| `ReorgScheduler.QueuedIsFromQueue` | blockchain/octopus_blockchain_tx_pool.go:283-289 | nothing reaches a run that was not queued for it |
| `ReorgScheduler.OneRunAtATime` | blockchain/octopus_blockchain_tx_pool.go:250-260 | two runs going on are the same run |
| `ReorgScheduler.Telescope` | blockchain/octopus_blockchain_tx_pool.go:263-270 | of consecutive launched resets the later one starts at the head where the earlier one ended |
| `ReorgScheduler.AccountSet.Merge` | blockchain/octopus_blockchain_tx_pool.go:1312-1317 | the accounts of both sets |
| `ReorgScheduler.EventSet.Put` | blockchain/octopus_blockchain_tx_pool.go:283-289 | the event is filed under its sender and nonce |
| `ReorgScheduler.Scheduler.constructor` | blockchain/octopus_blockchain_tx_pool.go:240-247 | nothing is launched or promised at the start |
| `ReorgScheduler.Scheduler.TopOfLoop` | blockchain/octopus_blockchain_tx_pool.go:248-260 | launches exactly if no run is on and one was asked for, with everything gathered; what earlier runs were given is not written to |
| `ReorgScheduler.Scheduler.HeadArrived` | blockchain/octopus_blockchain_tx_pool.go:1168-1173 | a new head becomes a request from the last one, answered with a channel |
| `ReorgScheduler.Scheduler.ResetRequested` | blockchain/octopus_blockchain_tx_pool.go:263-271 | the request joins the gathered reset under the next run's channel; what runs were given is not written to |
| `ReorgScheduler.Scheduler.PromoteRequested` | blockchain/octopus_blockchain_tx_pool.go:273-281 | the accounts join the gathered ones under the next run's channel; what runs were given is not written to |
| `ReorgScheduler.Scheduler.EventQueued` | blockchain/octopus_blockchain_tx_pool.go:283-289 | the event waits for the next run, which it does not ask for; nothing else about that run changes |
| `ReorgScheduler.Scheduler.RunEnds` | blockchain/octopus_blockchain_tx_pool.go:310 | a run closes its own channel and no other |
| `ReorgScheduler.Scheduler.RunDone` | blockchain/octopus_blockchain_tx_pool.go:291-292 | the loop is free to launch again |
| `ReorgScheduler.Scheduler.Shutdown` | blockchain/octopus_blockchain_tx_pool.go:294-300 | all runs are over and the next channel is closed |
| `ReorgScheduler.Scheduler.ClosedMeansServed` | blockchain/octopus_blockchain_tx_pool.go:237-303 | outside shutdown a requester's channel is closed only after a run that included the request |
| `ReorgScheduler.Scheduler.NothingIsForgotten` | blockchain/octopus_blockchain_tx_pool.go:237-303 | while the loop waits, a request without a run is gathered and a run is on whose end leads to the next |
| `StateObject.WriteThenRead` | operationdb/octopus_operationdb_object.go:150-168 | a write shows at its key and nowhere else, and not in the committed state |
| `StateObject.FinaliseKeepsReads` | operationdb/octopus_operationdb_object.go:199-213 | finalising changes no read and commits what was read |
| `StateObject.UpdateKeepsReadsIff` | operationdb/octopus_operationdb_object.go:249-303 | writing to the trie changes no read if and only if each zero write is for a known or already zero key |
| `StateObject.UpdateKeepsRead` | operationdb/octopus_operationdb_object.go:249-303 | the same for one key, with the exact losing case |
| `StateObject.UpdateKeepsOriginAgreement` | operationdb/octopus_operationdb_object.go:249-303 | cached origin values keep agreeing with the trie |
| `StateObject.LostDeletion` | operationdb/octopus_operationdb_object.go:266-283 | a word deleted without having been read before comes back |
| `StateObject.RunIsPlainStore` | operationdb/octopus_operationdb_object.go:348-416 | over any run with safe updates, reads return the last write and origins agree with the trie |
| `StateObject.OperationObject.GetState` | operationdb/octopus_operationdb_object.go:348-360 | reads through dirty, pending, origin and trie |
| `StateObject.OperationObject.GetCommittedState` | operationdb/octopus_operationdb_object.go:363-416 | reads through pending, origin and trie |
| `StateObject.OperationObject.SetState` | operationdb/octopus_operationdb_object.go:150-168 | writes unless the value is there already, and tells which |
| `StateObject.OperationObject.Finalise` | operationdb/octopus_operationdb_object.go:199-213 | the loop moves every dirty word to pending |
| `StateObject.OperationObject.UpdateTrie` | operationdb/octopus_operationdb_object.go:249-303 | the loop applies every change once, with both results above |
| `AccessLists.AddAddressMeans` | operationdb/octopus_operationdb.go:919-925 | an address is in, and no slot is |
| `AccessLists.AddSlotKeepsIndices` | operationdb/octopus_operationdb.go:938-956 | indices stay in range and unshared |
| `AccessLists.AddSlotMeans` | operationdb/octopus_operationdb.go:938-956 | the address and the slot are in, and nothing else |
| `AccessLists.UndoAddAddress` | operationdb/octopus_operationdb.go:929-931 | deleting undoes adding |
| `AccessLists.UndoAddSlot` | operationdb/octopus_operationdb.go:960-974 | deleting undoes adding, and only ever cuts the last slot set |
| `AccessLists.AccessList.AddAddress` | operationdb/octopus_operationdb.go:919-925 | adds, telling whether it was new |
| `AccessLists.AccessList.DeleteAddress` | operationdb/octopus_operationdb.go:929-931 | deletes the address |
| `AccessLists.AccessList.AddSlot` | operationdb/octopus_operationdb.go:938-956 | adds, telling what was new |
| `AccessLists.AccessList.DeleteSlot` | operationdb/octopus_operationdb.go:960-974 | deletes the slot, and its set with the last one |
| `StateDB.ApplyContinues` | operationdb/octopus_operationdb.go:146-398 | every call appends entries that undo it one by one, also through displaced objects |
| `StateDB.RevertIsSound` | operationdb/octopus_db_journal.go:87-189 | reverting the last entry does not panic and restores what was visible before it |
| `StateDB.RevertEntriesIsSound` | operationdb/octopus_db_journal.go:87-189 | the same for any number of entries, newest first |
| `StateDB.RevertRestores` | operationdb/octopus_db_journal.go:87-189 | after any calls, reverting the entries of later calls restores existence, nonce, balance, code, storage, suicide flag, refund, logs and access list |
| `StateDB.CreateIsSound` | operationdb/octopus_operationdb.go:180-201 | creating over an existing account can be undone to the displaced object |
| `StateDB.SuicideContinues` | operationdb/octopus_operationdb.go:316-330 | the suicide flag and the balance can be restored |
| `StateDB.SlotContinues` | operationdb/octopus_operationdb.go:363-376 | both entries of a slot addition undo their part |
| `StateDB.LogContinues` | operationdb/octopus_operationdb.go:390-398 | the last log of the transaction can be taken back |
| `StateDB.RefundContinues` | operationdb/octopus_operationdb.go:273-285 | the refund counter can be restored |
| `Dial.Contains` | p2p/utils.go:28-35 | whether the item is in the history |
| `Dial.Add` | p2p/utils.go:23-25 | exactly the new entry is added, and items stay distinct exactly if it is of a new item |
| `Dial.PopEarliest` | p2p/utils.go:38-45 | exactly the earliest entry goes |
| `Dial.RemoveKeeps` | p2p/dial.go:324-332 | swapping with the last entry keeps every back-index right, also for the last entry itself |
| `Dial.AddKeeps` | p2p/dial.go:411-417 | appending keeps every back-index right |
| `Dial.DialScheduler.constructor` | p2p/dial.go:134-154 | a new scheduler has nothing to dial and keeps its limits and restrictions |
| `Dial.DialScheduler.CheckDial` | p2p/dial.go:379-401 | the first reason in order for which a node may not be dialed |
| `Dial.DialScheduler.RemoveFromStaticPool` | p2p/dial.go:324-332 | exactly that entry leaves the pool, and its record says so |
| `Dial.DialScheduler.AddToStaticPool` | p2p/dial.go:411-417 | the entry joins the pool; the panic for a second time is never reached |
| `Dial.DialScheduler.UpdateStaticPool` | p2p/dial.go:404-409 | the pool is exact again after one node's situation changed |
| `Dial.DialScheduler.FreeDialSlots` | p2p/dial.go:302-309 | the slots left under both limits |
| `Dial.DialScheduler.StartDial` | p2p/dial.go:335-344 | the node is dialed once, entered in the history until its expiry, and the number of dials stays within the limit |
| `Dial.DialScheduler.StartStaticDials` | p2p/dial.go:312-320 | starts exactly the lesser of the slots and the entries, each a pool entry that leaves the pool and is dialed under its own node; dials going on stay |
| `Dial.DialScheduler.TopOfLoop` | p2p/dial.go:213-226 | the free slots go to static entries first, as many as there are, and exactly the rest is left for candidates, which are taken only with the pool empty |
| `Dial.DialScheduler.NodeArrived` | p2p/dial.go:227-232 | a candidate is dialed exactly if nothing speaks against it, and never while static ones wait |
| `Dial.DialScheduler.TaskDone` | p2p/dial.go:234-238 | the finished dial leaves, and the pool is exact |
| `Dial.DialScheduler.TaskResolved` | p2p/dial.go:467-492 | a resolved endpoint keeps the scheduler's invariant |
| `Dial.DialScheduler.PeerAdded` | p2p/dial.go:240-250 | the peer is counted and its static entry leaves the pool |
| `Dial.DialScheduler.PeerRemoved` | p2p/dial.go:253-258 | the peer is counted off and its static entry may return |
| `Dial.DialScheduler.StaticAdded` | p2p/dial.go:260-271 | a new static node is registered with a task that dials it, and pooled exactly if it may be dialed; known ones are left alone |
| `Dial.DialScheduler.StaticRemoved` | p2p/dial.go:273-282 | a static node is forgotten, in the pool too |
| `Dial.DialScheduler.HistoryExpired` | p2p/dial.go:420-429 | exactly the expired entries go, and the pool is exact |
| `Dial.DialScheduler.Drain` | p2p/dial.go:293-297 | shutdown receives exactly once from each dial going on, as many times as there are entries |
| `Dial.DialScheduler.RunningCount` | p2p/dial.go:293-297 | there are as many dials going on as entries to wait for |
| `Feeds.DeliverKeeps` | event/octopus_feed.go:114-120 | a served channel moves out of the prefix, and the accounting of every subscription stays right |
| `Feeds.RemoveKeeps` | event/octopus_feed.go:126-132 | a removal during a send keeps the accounting right, inside the prefix or not |
| `Feeds.SendingEnds` | event/octopus_feed.go:121-123 | with the prefix used up, every subscription that stayed has been served, and none that was not there at the start |
| `Feeds.Feed.constructor` | event/octopus_feed.go:49-54 | a feed without subscribers |
| `Feeds.Feed.Subscribe` | event/octopus_feed.go:27-47 | one subscription more for the channel, which may have some already |
| `Feeds.Feed.Find` | event/octopus_feed.go:153-160 | the index of the channel, or that it is not there |
| `Feeds.Feed.Delete` | event/octopus_feed.go:163-165 | the case goes and the later ones move up in the shared array |
| `Feeds.Feed.Deactivate` | event/octopus_feed.go:168-172 | the case is swapped with the last active one |
| `Feeds.Feed.Remove` | event/octopus_feed.go:55-75 | one subscription of the channel is gone, wherever it is |
| `Feeds.Feed.Send` | event/octopus_feed.go:87-145 | one delivery for each subscription that stays, at most one for each removed meanwhile, none for those that arrive meanwhile, and the number of deliveries is returned, for every order of events |
| `Feeds.Feed.Leave` | event/octopus_feed.go:126-132 | one subscription of the leaving channel goes, and the prefix shrinks exactly if it was still to be served |
| `Chain.ForkIsUnique` | blockchain/octopus_blockchain.go:791-859 | two branches split at one place only |
| `Chain.Reorg` | blockchain/octopus_blockchain.go:791-859 | the walk ends at the highest common ancestor with exactly the two branches, and fails only if the branches do not meet |
| `Chain.Level` | blockchain/octopus_blockchain.go:804-824 | the higher branch is walked down to the lower one's number |
| `Chain.SplitIsUnique` | blockchain/octopus_blockchain.go:791-859 | the result is determined by the two blocks |
| `Chain.LinkedBranchesMeet` | blockchain/octopus_blockchain.go:791-859 | on a parent-linked store any two blocks meet at the genesis, so the walk does not fail |
| `Chain.ResetWalk` | blockchain/octopus_blockchain_tx_pool.go:411-437 | the pool's own walk collects the transactions of the same blocks |
| `ForkChoice.WinnerIsHeavier` | blockchain/octopus_forkchoice.go:49-76 | the choice agrees with total difficulty and then the lower number, whatever the coin and the preserve rule say on ties |
| `ForkChoice.BlockChain.GetTd` | blockchain/octopus_headerchain.go:157-169 | the recorded difficulty, cached or not |
| `ForkChoice.BlockChain.WriteBlockWithState` | blockchain/octopus_blockchain.go:673-699 | a block is recorded with its parent's difficulty and its own, or not at all without a known parent; blocks already recorded stay as they are |
| `ForkChoice.BlockChain.WriteBlockAndSetHead` | blockchain/octopus_blockchain.go:941-981 | the head is the latest accepted block at the terminal difficulty, or while there is none at least as heavy as every accepted block; below the terminal difficulty it never gets lighter |
| `ForkChoice.RecordKeeps` | blockchain/octopus_blockchain.go:673-699 | recorded difficulties keep adding up along parents, and writing a block again changes nothing |
| `HeaderChain.IndexIsWalk` | blockchain/octopus_headerchain.go:119-151 | on a parent-linked index a jump equals the walk |
| `HeaderChain.GetAncestor` | blockchain/octopus_headerchain.go:119-151 | a non-zero answer for a block is the plain walk's, a zero one is justified, the exact case of the zero hash, and the budget drops by the steps walked one by one off the index |
| `HeaderChain.ZeroHashExample` | blockchain/octopus_headerchain.go:131-137 | the zero hash beyond the index gets an answer where the walk has none |
| `Protocols.SortCaps` | p2p/Protocol.go:58-60 | sorted by name and version, with the same members |
| `Protocols.FindProtocol` | p2p/peer.go:388-389 | the first protocol of that name and version |
| `Protocols.AppendKeeps` | p2p/peer.go:394-396 | a new name gets the codes after all assigned ones |
| `Protocols.ReplaceKeeps` | p2p/peer.go:390-396 | a higher version takes over its lower one's place |
| `Protocols.MatchProtocols` | p2p/peer.go:381-403 | each shared name gets its highest shared version, and the ranges are contiguous from 16 |
| `Protocols.RangesAscend` | p2p/peer.go:381-403 | the ranges are pairwise disjoint |
| `Protocols.OneHandler` | p2p/peer.go:299-306 | a code has at most one handler, and none below 16 |
| `Protocols.EndsAgree` | p2p/peer.go:381-403 | both ends compute the same layout if they agree on lengths |
| `Protocols.GetProto` | p2p/peer.go:299-306 | finds a handler of the code, or there is none |
| `Protocols.CodeArrives` | p2p/peer.go:430-459 | a code written at one end is read as the same code by the same protocol at the other |
| `SampleHeap.ScaledIsHeap` | metrics/sample.go:178-184 | scaling all keys keeps the heap |
| `SampleHeap.KeptEvictsLeast` | metrics/sample.go:168-170 | a full reservoir loses a least key |
| `SampleHeap.UpdatedElements` | metrics/sample.go:164-186 | an update keeps the others and adds the sample; a rescale keeps exactly the same samples with scaled keys |
| `SampleHeap.RunKeepsGreatest` | metrics/sample.go:164-186 | over any run, rescales included, the reservoir has the lesser of count and size samples: the newest and the greatest keys of all samples seen, decayed alike |
| `SampleHeap.ScaledHoldsGreatest` | metrics/sample.go:174-184 | what has the newest and the greatest keys still does after all keys decay alike |
| `SampleHeap.ExpDecaySampleHeap.Push` | metrics/sample.go:557-562 | in-place push within capacity |
| `SampleHeap.ExpDecaySampleHeap.Pop` | metrics/sample.go:564-573 | in-place pop of a least key |
| `SampleHeap.ExpDecaySampleHeap.Up` | metrics/sample.go:583-592 | the loop sifts up and writes nothing beyond the heap |
| `SampleHeap.ExpDecaySampleHeap.Down` | metrics/sample.go:594-610 | the loop sifts down and writes nothing beyond the heap |
| `SampleHeap.ExpDecaySample.Update` | metrics/sample.go:164-186 | the update on the shared array, with the rescale times; the reservoir is what the whole run so far leaves |
| `SampleHeap.ExpDecaySample.Refill` | metrics/sample.go:176-184 | pushing into the array that is being read leaves each sample in place with a scaled key |
| `SampleHeap.ExpDecaySample.Clear` | metrics/sample.go:63-70 | an empty sample, with its times restarted |
| `DerivationPath.ComponentRoundTrip` | accounts/hd.go:106-120 | a printed component parses to itself, hardened or not |
| `DerivationPath.RoundTrip` | accounts/hd.go:52-120 | a printed path parses to itself if it is not empty, and is refused as empty otherwise |
| `DerivationPath.Stable` | accounts/hd.go:52-120 | parsing, printing and parsing an accepted text is stable |
| `DerivationPath.RenderInjective` | accounts/hd.go:106-120 | different paths print differently |
| `DerivationPath.ParseDerivationPath` | accounts/hd.go:52-102 | the loop computes the parse, with the first error winning |
| `DerivationPath.String` | accounts/hd.go:106-120 | the loop computes the printed form |

## Left out

- Lists inside the pool: `TxPools` holds each account's list as a plain map, on which `TxLists` was proved to act; the aliasing of list objects is not in the pool's model.
- Orders of walking that only affect the price index, such as in which order a queue that goes as a whole is removed, are not fixed.
- `StateDB` is modelled on values with explicit references to objects, so update in place is not captured there; the dirties counter, the dirtyCode flag, preimages and fakeStorage are not modelled. The deleted flag, which finalising sets, is read by none of the modelled calls: getOperationObject returns a deleted object like any other (operationdb/octopus_operationdb.go:585-590).
- `RevertToSnapshot` is unfinished in the source; the theorem is about calling the entries' revert methods in reverse order.
- TxPools.TxPool.RunReset: does not claim that pending lists have no inner gaps, because only the first nonce is looked at after a new head; which reinjected transactions a full pool takes is what `Add` says of each in turn; transaction events of a run are not modelled beyond the scheduler.
- TxPools.TxPool.Add: senders and signatures, transaction types and the disk journal are not modelled.
- Exactness of the stale counter: removals are not always reported, and local ones are; it is a heuristic.
- The early returns of the pool's reset, when a head is missing or too deep, are not modelled beyond the walk itself.
- ReorgScheduler.Scheduler.RunEnds: the body of a run is in `TxPools`; here it only closes its channel.
- Protocols.EndsAgree: offsets are unbounded integers, without 64-bit wrap-around.
- ForkChoice.BlockChain.WriteBlockAndSetHead: block execution, receipts and the on-disk index are not modelled.
- SampleHeap.ExpDecaySample.Update: keys are reals, without floating-point rounding or infinities; locks are not modelled.
- DerivationPath.ParseDerivationPath: the iterators and JSON forms of paths are left out as easy.
- Dial.DialScheduler.Drain: log lines and timers are not modelled; the goroutine of a dial is the event of its end.
- insertChain, block lookup by hash and other unfinished methods, total balance, the trie, encodings, signatures, the virtual machine, consensus engines, keystores, RPC, transport, discovery and metrics exporters are not part of this model.
