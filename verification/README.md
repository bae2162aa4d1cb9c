# Verified core of the node's in-memory machinery

This project states and proves what the algorithmic parts of the vendored node sources promise: how a
cluster of transactions is put in order, how a stack of coin caches agrees with a plain map, how worker
threads share the checks of a block, how the address manager keeps its tables in step, how headers are
synchronised in two phases, how blocks find their ancestors, and how numbers and addresses are computed
with in place. Every file belongs to the project; `dafny verify dfyconfig.toml` checks it.

## How it is organised

- **Cluster linearization.** `FeeFrac`, `Graphs`, `Positions`, `Diagrams` and `Chunking` hold fees, dependency
  graphs, sets of positions, feerate diagrams and chunks. A diagram is compared through its dual: in every
  direction of feerate, how far an order reaches (`Peak`). `Improvement` turns that into one lemma about moving a
  set to the front, on which `Linearize`, `MergeLinearizations` and the optimality flag rest. `SearchTheory`,
  `SearchSteps`, `SearchQueue`, `SearchLoop`, `Components`, `Transport` and `SearchCandidateFinder` are the
  branch-and-bound search. `Groups`, `GroupEntries`, `GroupPasses`, `PostLinearize`, `TreeOptimality` and
  `MovedLeaf` are post-linearization: a definition of it without links, the linked entries that compute it, and
  what holds of the result.
- **Coins.** `Coins` is the theory of one outpoint through a stack of caches, `CoinsCache` that of the circular
  list, `CoinsViewCache` one cache as a class, `CoinsStack` the stack on a database.
- **Check queue.** `CheckQueue` is a state machine whose steps are what a thread does between two waits.
- **Address manager.** `AddrTables` holds the conditions, `AddrSteps` and `AddrMoves` what each operation does to
  the state and why the conditions survive, `AddrRuns` what becomes of many announcements or waiting entries in
  turn, `AddrMan` the class, `AddrCheck` the consistency check, `AddrSelection` the random selection.
- **Headers and blocks.** `HeaderChains`, `HeadersSync`, `BlockIndex`, `Chain`; `SkipSteps` counts the steps of going
  back.
- **Numbers.** `Powers`, `Limbs`, `ArithUint`, `ArithShift`, `ArithDivision`, `BlockProof`, `Digits`, `Base58`,
  `Base58Codec`. `CuckooCache` is the cache of recent validation results. `Sets` and `Options` are helpers.

## What is taken as given

- Integers are unbounded where the callers guarantee that nothing overflows; widths that matter (32-bit limbs and
  their 64-bit accumulator, the wrap-around of arithmetic modulo two to the width, the epoch size of the cuckoo
  cache) are written out.
- A set of positions is a finite set of naturals; a cluster has positive sizes and no cycles.
- The random swap of the search, the order in which waiting addresses are decided upon, hashes, net groups, clocks
  and random draws are arbitrary: parameters or nondeterministic choices.
- Sorting is the unique sorted arrangement. The capacity of a reserved vector is what was reserved.
- The logarithm that bounds the displacements of the cuckoo cache is a parameter that is at least one.
- The difficulty rule and the hash of a header are parameters of the headers sync, and so is its measure of work,
  of which `BlockProofs.Proof` is one.

## Findings

- `SpendCoin` answers true for an entry that is in the cache but spent already, while its description says that
  such a call has no effect (`coins.cpp:130-150`). The model follows the code: what is returned is then a spent
  coin. `CoinsStacks.CoinsStack.SpendCoin` says exactly when that happens, in terms of what the topmost cache and the
  database hold, and `Coins.SpentTwice` is a coin that is spent again.
- An addition that claims wrongly that nothing is overwritten makes a later spend vanish
  (`Coins.WrongPromiseLosesSpend`); `Coins.SpendReachesParentExactly` says exactly when it does.
- When `AddCoin` throws, the usage counter has been lowered already; the cache is then still consistent exactly
  when the coin held uses no memory (`CoinsViewCaches.CoinsViewCache.AddCoin`). `CoinsViewCaches.AddTwice` leads to
  an inconsistent cache.
- The consistency check of the address manager can miss a network counter (`AddrChecks.MissedCounter`); no
  operation leads to such a state.
- Two branches of the address manager are never taken: an entry outside the tried table always has a reference
  when a connection succeeds, and a waiting entry always finds its cell occupied.
- A time of zero or less given for a successful connection can make the consistency check fail;
  `AddrMans.AddrMan.Good` says exactly when, of the state before the call, and `AddrChecks.ZeroTimeFails` is a case.
- The description of the cuckoo cache says that the first displacement uses the first place of the element; the
  code uses the second (`cuckoocache.h:421-440`). The model follows the code; the description is met exactly when
  the two places are the same (`CuckooCaches.NextIsOther`).
- It also says that the element just put in is not moved. It is moved back at once exactly when the place it was
  put into follows itself among the eight places of the other element (`CuckooCaches.NextIsOther`,
  `CuckooCaches.SwapsBack`).
- The comment in `chain.cpp:83-86` speaks of at most 110 steps to go back among 2^18 blocks. That is right for all
  starts and all targets, and is reached (`SkipSteps.OneHundredTen`).

## Model

| member | source | states |
|---|---|---|
| `SearchCandidateFinders.SearchCandidateFinder.FindCandidateSet` | bitcoinkernel/bitcoin/src/cluster_linearize.h:740-1009 | returns a non-empty topologically closed part of what remains, at least as good as the given one; with iterations left over it is at least as good (higher feerate, then smaller size) as every such set there is; with n transactions remaining fewer than Fib(n + 2) iterations are used however many are allowed, and however few are allowed, whatever is better is among items from which at most the rest of that number can come |
| `SearchSteps.JumpEntangled` | bitcoinkernel/bitcoin/src/cluster_linearize.h:848-889 | after jumping ahead, the best transaction left undecided has an ancestor left undecided |
| `SearchSteps.SplitWork` | bitcoinkernel/bitcoin/src/cluster_linearize.h:932-963 | so the two items of a split together can give rise to fewer splits than the one, by Fibonacci numbers of their undecided transactions |
| `SearchLoops.Explore` | bitcoinkernel/bitcoin/src/cluster_linearize.h:981-1003 | the mixed breadth-first and depth-first loop, for every choice of swaps: terminates, keeps the queue within its reserved room, and is exhaustive unless the iterations ran out; what is left on the queue covers all that is better, and every iteration made it less work |
| `SearchLoops.DepthFirst` | bitcoinkernel/bitcoin/src/cluster_linearize.h:987-996 | working from the back of the queue keeps the same promises and needs no more room than was reserved |
| `SearchLoops.WithinCapacity` | bitcoinkernel/bitcoin/src/cluster_linearize.h:783 | when position plus undecided transactions never exceeds the reserved room, neither does the length of the queue |
| `SearchSteps.AddItem` | bitcoinkernel/bitcoin/src/cluster_linearize.h:820-890 | what an item stands for is kept: every set in it is matched by the best set or by a set of the queued item, pruning and jumping ahead included |
| `SearchSteps.SplitItem` | bitcoinkernel/bitcoin/src/cluster_linearize.h:895-967 | a dropped item holds nothing better than the best set; a split one is covered by its two parts, which have fewer undecided transactions |
| `SearchTheory.PotentialBound` | bitcoinkernel/bitcoin/src/cluster_linearize.h:820-836 | no set of an item has a higher feerate than the potential feerate computed for it |
| `SearchTheory.PruneByPotential` | bitcoinkernel/bitcoin/src/cluster_linearize.h:911-913 | an item whose potential is no better than the best set holds nothing better |
| `SearchTheory.PruneByImproving` | bitcoinkernel/bitcoin/src/cluster_linearize.h:908-910 | an item none of whose undecided transactions can improve the best set holds nothing better |
| `SearchTheory.JumpAhead` | bitcoinkernel/bitcoin/src/cluster_linearize.h:838-858 | including at once a closed set of undecided transactions that is in the potential loses no best set |
| `SearchTheory.SplitCovers` | bitcoinkernel/bitcoin/src/cluster_linearize.h:955-963 | every set of an item either includes the chosen transaction with its ancestors or excludes it with its descendants |
| `Components.CutKeeps` | bitcoinkernel/bitcoin/src/cluster_linearize.h:785-800 | searching connected components apart loses no best set: one of two unconnected parts of a set is as good as the set |
| `Components.GetConnectedComponent` | bitcoinkernel/bitcoin/src/cluster_linearize.h:263-279 | the set of transactions reachable through dependencies in either direction within the given ones |
| `SearchCandidateFinders.SearchCandidateFinder.constructor` | bitcoinkernel/bitcoin/src/cluster_linearize.h:692-715 | the sorted copy of the cluster is isomorphic to it, in descending order of feerate |
| `SearchCandidateFinders.SearchCandidateFinder.MarkDone` | bitcoinkernel/bitcoin/src/cluster_linearize.h:1015-1021 | exactly the given transactions are removed from what remains |
| `Transport.ImageCandidate` | bitcoinkernel/bitcoin/src/cluster_linearize.h:740-752 | what is a candidate for the original positions is one for the sorted positions |
| `Linearizing.Linearize` | bitcoinkernel/bitcoin/src/cluster_linearize.h:1043-1118 | a topologically valid order of the cluster, nowhere below the diagram of the old one, and nowhere below that of any valid order when it is said to be optimal; with a budget that depends on the number of transactions only it is said to be optimal, and otherwise half of the budget was used, or almost all; for every budget the order is made of closed pieces none of which an ancestor set of what remains beats |
| `Linearizing.SearchOn` | bitcoinkernel/bitcoin/src/cluster_linearize.h:1078-1093 | one search spends no more than its share, and with enough iterations left it is exhaustive and leaves enough for the rest |
| `Linearizing.PickNext` | bitcoinkernel/bitcoin/src/cluster_linearize.h:1069-1093 | the set that is output next, and whether the search for it was exhaustive |
| `Linearizing.CutToOld` | bitcoinkernel/bitcoin/src/cluster_linearize.h:1095-1103 | a set that may not be optimal is cut so that moving it to the front lowers no point of the old diagram |
| `Improvement.MoveToFront` | bitcoinkernel/bitcoin/src/cluster_linearize.h:1043-1118 | moving a set to the front lowers no point of the diagram when no intersection of it with a chunk prefix is better than it and it is no worse than the first chunk |
| `MergeLinearization.MergeLinearizations` | bitcoinkernel/bitcoin/src/cluster_linearize.h:1326-1361 | a valid order whose diagram is nowhere below that of either given one |
| `MergeLinearization.PickFront` | bitcoinkernel/bitcoin/src/cluster_linearize.h:1342-1351 | the set taken next can be moved to the front of what remains of both orders without lowering either diagram |
| `PostLinearization.PostLinearize` | bitcoinkernel/bitcoin/src/cluster_linearize.h:1137-1319 | the passes over the linked list of groups, in place, compute the order given by the list-free definition of them |
| `PostLinearization.MergeSwap` | bitcoinkernel/bitcoin/src/cluster_linearize.h:1253-1294 | the loop over the linked entries ends with the groups the definition of one move gives |
| `PostLinearization.WriteBack` | bitcoinkernel/bitcoin/src/cluster_linearize.h:1297-1317 | walking the links backwards writes the groups, in order and direction |
| `GroupPasses.PostLinearizedGood` | bitcoinkernel/bitcoin/src/cluster_linearize.h:1137-1319 | the result is a valid order, nowhere below the given one, and each of its chunks is connected |
| `TreeOptimality.PostLinearizedTree` | bitcoinkernel/bitcoin/src/cluster_linearize.h:1120-1135 | in a cluster where everything has at most one child, or everything at most one parent, the result is at least as good as every valid order |
| `MovedLeaf.PostLinearizedMovedLeaf` | bitcoinkernel/bitcoin/src/cluster_linearize.h:1120-1135 | moving a childless transaction to the end with its fee raised, and then post-linearizing, gives nothing worse than before |
| `FixLinearizations.FixLinearization` | bitcoinkernel/bitcoin/src/cluster_linearize.h:1363-1393 | the in-place rotation computes the order given by inserting each transaction after the last of its ancestors |
| `FixLinearizations.FixedTopological` | bitcoinkernel/bitcoin/src/cluster_linearize.h:1363-1393 | the result is a valid order of the same transactions |
| `FixLinearizations.FixedKeepsValid` | bitcoinkernel/bitcoin/src/cluster_linearize.h:1363-1393 | an order that is valid already is not changed |
| `FixLinearizations.PlacedNoFurther` | bitcoinkernel/bitcoin/src/cluster_linearize.h:1363-1393 | a transaction moves right behind the last of its ancestors and the others keep their order |
| `ChunkLinearizations.ChunkLinearization` | bitcoinkernel/bitcoin/src/cluster_linearize.h:397-412 | the feerates of the chunks |
| `ChunkLinearizations.ConcaveMajorant` | bitcoinkernel/bitcoin/src/cluster_linearize.h:397-412 | the diagram through the chunks is concave, and no cumulative point is above it |
| `ChunkLinearizations.LeastConcaveMajorant` | bitcoinkernel/bitcoin/src/cluster_linearize.h:397-412 | no concave function that no cumulative point is above is anywhere below the diagram, which is one of them |
| `ChunkLinearizations.DiagramMajorizes` | bitcoinkernel/bitcoin/src/cluster_linearize.h:397-412 | no cumulative point is above the diagram through the chunks |
| `Chunking.ChunksIsChunking` | bitcoinkernel/bitcoin/src/cluster_linearize.h:397-412 | chunk feerates do not increase and no prefix of a chunk is better than the chunk |
| `Chunking.ChunkingUnique` | bitcoinkernel/bitcoin/src/cluster_linearize.h:397-412 | there is only one such division of an order |
| `LinearizationChunkings.LinearizationChunking.constructor` | bitcoinkernel/bitcoin/src/cluster_linearize.h:463-471 | the chunks kept are those of the whole order |
| `LinearizationChunkings.LinearizationChunking.BuildChunks` | bitcoinkernel/bitcoin/src/cluster_linearize.h:434-459 | the chunks kept are those of what remains |
| `LinearizationChunkings.LinearizationChunking.MarkDone` | bitcoinkernel/bitcoin/src/cluster_linearize.h:484-504 | after any removal, by the shortcut or not, the chunks kept are those that chunking the remaining order from scratch gives |
| `LinearizationChunkings.LinearizationChunking.IntersectPrefixes` | bitcoinkernel/bitcoin/src/cluster_linearize.h:515-539 | the shortest non-empty intersection with a chunk prefix that is at least as good; no part of it that ends a chunk is better |
| `AncestorCandidateFinders.AncestorCandidateFinder.constructor` | bitcoinkernel/bitcoin/src/cluster_linearize.h:566-590 | the feerates kept are those of the ancestor sets |
| `AncestorCandidateFinders.AncestorCandidateFinder.MarkDone` | bitcoinkernel/bitcoin/src/cluster_linearize.h:598-609 | the feerates kept are those of the ancestor sets within what remains |
| `AncestorCandidateFinders.AncestorCandidateFinder.FindCandidateSet` | bitcoinkernel/bitcoin/src/cluster_linearize.h:628-641 | an ancestor set at least as good as every other one |
| `DepGraphs.DepGraph.AddTransaction` | bitcoinkernel/bitcoin/src/cluster_linearize.h:133-146 | a new position, unconnected to the others, which do not change |
| `DepGraphs.DepGraph.AddDependencies` | bitcoinkernel/bitcoin/src/cluster_linearize.h:177-198 | exactly the reflexive transitive closure of the old relation and the new edges; ancestors and descendants stay converse |
| `DepGraphs.LinkedIsClosure` | bitcoinkernel/bitcoin/src/cluster_linearize.h:177-198 | adding the missing ancestors to the child and everything below it is transitive closure |
| `DepGraphs.DepGraph.RemoveTransactions` | bitcoinkernel/bitcoin/src/cluster_linearize.h:157-171 | the relation restricted to the other positions |
| `ReducedParents.GetReducedParents` | bitcoinkernel/bitcoin/src/cluster_linearize.h:208-219 | the direct parents, when the graph has no cycles |
| `ReducedParents.DirectParentsGenerate` | bitcoinkernel/bitcoin/src/cluster_linearize.h:208-219 | the direct parents regenerate the ancestors |
| `ReducedParents.DirectParentsMinimal` | bitcoinkernel/bitcoin/src/cluster_linearize.h:208-219 | every set that regenerates the ancestors contains the direct parents |
| `Remapping.Remap` | bitcoinkernel/bitcoin/src/cluster_linearize.h:89-111 | the reordered graph is isomorphic to the original |
| `Topology.AppendTopo` | bitcoinkernel/bitcoin/src/cluster_linearize.h:313-323 | the given transactions are appended, ancestors first |
| `Diagrams.PeaksGiveHeights` | bitcoinkernel/bitcoin/src/cluster_linearize.h:397-412 | a diagram is nowhere below another when it reaches as far in every direction |
| `CoinsStacks.CoinsStack.FetchCoin` | bitcoinkernel/bitcoin/src/coins.cpp:48-64 | entries appear in the caches on the way down; nothing that is visible at any level changes |
| `CoinsStacks.CoinsStack.GetCoin` | bitcoinkernel/bitcoin/src/coins.cpp:66-70 | the coin visible at that level, if it is unspent |
| `CoinsStacks.CoinsStack.HaveCoin` | bitcoinkernel/bitcoin/src/coins.cpp:163-166 | whether an unspent coin is visible, which no view changes by being asked |
| `CoinsStacks.CoinsStack.AddCoin` | bitcoinkernel/bitcoin/src/coins.cpp:72-111 | the coin is visible on top, and nothing else changes at any level; the slot and its flags exactly |
| `CoinsStacks.CoinsStack.SpendCoin` | bitcoinkernel/bitcoin/src/coins.cpp:130-150 | what was visible is returned and is no longer visible on top; nothing else changes; the answer is that something was found although nothing is visible exactly when the topmost cache holds a spent coin, or is the only one, holds nothing, and the database holds a spent coin |
| `Coins.SpentTwice` | bitcoinkernel/bitcoin/src/coins.cpp:130-150 | a second spend finds an entry where nothing is visible |
| `CoinsStacks.CoinsStack.Uncache` | bitcoinkernel/bitcoin/src/coins.cpp:274-287 | exactly an unflagged slot is emptied, and nothing visible changes |
| `CoinsStacks.CoinsStack.FlushOrSync` | bitcoinkernel/bitcoin/src/coins.cpp:250-272 | the parent shows what the cache shows, no other view changes; the cache is empty after a flush, and after a sync keeps its unspent coins with no flags |
| `CoinsStacks.CoinsStack.Push` | bitcoinkernel/bitcoin/src/coins.cpp:37-42 | a new cache shows what its base shows |
| `Coins.AddWorks` | bitcoinkernel/bitcoin/src/coins.cpp:72-111 | adding is safe in a stack of any depth when the caller claims no overwrite only if nothing is visible |
| `Coins.AddCoherentExactly` | bitcoinkernel/bitcoin/src/coins.cpp:72-111 | the flags stay truthful after an addition exactly when an overwrite is allowed for, the slot is dirty already, or nothing is visible below |
| `Coins.SpendReachesParentExactly` | bitcoinkernel/bitcoin/src/coins.cpp:72-150 | a spend after an addition reaches the parent exactly under that condition |
| `Coins.WrongPromiseLosesSpend` | bitcoinkernel/bitcoin/src/coins.cpp:72-150 | an addition that wrongly claims no overwrite, then a spend and a flush, leave the old coin in the database |
| `Coins.SpendWorks` | bitcoinkernel/bitcoin/src/coins.cpp:130-150 | spending hides the coin at the top and keeps the flags truthful |
| `Coins.WriteWorks` | bitcoinkernel/bitcoin/src/coins.cpp:183-248 | writing to the parent never meets a misapplied FRESH flag, moves the view down and keeps the flags truthful |
| `Coins.StoreWorks` | bitcoinkernel/bitcoin/src/txdb.cpp:119-145 | writing the lowest cache to the database makes the database show what the cache shows |
| `CoinsViewCaches.CoinsViewCache.BatchWrite` | bitcoinkernel/bitcoin/src/coins.cpp:183-248 | succeeds exactly when no FRESH flag is misapplied; every entry is then the combination of both, lists and counters of both caches are right |
| `CoinsViewCaches.CoinsViewCache.AddCoin` | bitcoinkernel/bitcoin/src/coins.cpp:72-111 | fails exactly when an unspent coin would be overwritten without leave, and is then left invalid exactly when that coin uses memory |
| `CoinsViewCaches.AddTwice` | bitcoinkernel/bitcoin/src/coins.cpp:72-111 | a coin with a long script added twice without leave to overwrite leaves the cache inconsistent |
| `CoinsViewCaches.CoinsViewCache.SpendHere` | bitcoinkernel/bitcoin/src/coins.cpp:130-150 | a FRESH entry is erased and any other becomes spent and DIRTY; list, states and usage stay right |
| `CoinsViewCaches.CoinsViewCache.AddFlags` | bitcoinkernel/bitcoin/src/coins.h:132-144 | the entry is threaded into the circular list once; next and previous stay converse |
| `CoinsViewCaches.CoinsViewCache.SetClean` | bitcoinkernel/bitcoin/src/coins.h:180-187 | the entry leaves the list and its neighbours are joined |
| `CoinsViewCaches.CoinsViewCache.NextAndMaybeErase` | bitcoinkernel/bitcoin/src/coins.h:284-298 | gives the next entry of the list there was, and unflags or erases the current one unless all will be erased |
| `CoinsViewCaches.CoinsViewCache.WriteOut` | bitcoinkernel/bitcoin/src/txdb.cpp:119-145 | the database holds exactly what it held, overwritten by the dirty entries |
| `CoinsViewCaches.CoinsViewCache.FlushTo` | bitcoinkernel/bitcoin/src/coins.cpp:250-259 | the cache is empty afterwards, with usage zero |
| `CoinsViewCaches.CoinsViewCache.SyncTo` | bitcoinkernel/bitcoin/src/coins.cpp:261-272 | no entry is flagged afterwards, spent ones are gone |
| `CoinsViewCaches.CoinsViewCache.Uncache` | bitcoinkernel/bitcoin/src/coins.cpp:274-287 | an entry goes only if it is unflagged |
| `CheckQueues.StepKeeps` | bitcoinkernel/bitcoin/src/checkqueue.h:72-137 | every atomic step of every thread keeps the invariant: what is to do is what is queued plus what is in flight, every check added is somewhere, and the result is that of a finished check |
| `CheckQueues.CompleteIsRight` | bitcoinkernel/bitcoin/src/checkqueue.h:166-170 | in every interleaving, what is returned is no error exactly when all checks of the round pass, and otherwise an error of one of them |
| `CheckQueues.MasterNeverStuck` | bitcoinkernel/bitcoin/src/checkqueue.h:98-110 | while the master waits unnotified some worker is at work and nothing is queued |
| `CheckQueues.TakesWork` | bitcoinkernel/bitcoin/src/checkqueue.h:96-127 | a thread goes to wait, or returns, only when nothing is queued; otherwise it takes checks from the end, within the batch size and its share |
| `CheckQueues.MasterNotified` | bitcoinkernel/bitcoin/src/checkqueue.h:84-110 | in every interleaving, a waiting master that does not wake up of itself has been notified by the time the others have finished as many batches as there were checks left |
| `CheckQueues.TodoNeverNegative` | bitcoinkernel/bitcoin/src/checkqueue.h:84-88 | the counter of what is to do never goes below zero |
| `AddrMans.AddrMan.constructor` | bitcoinkernel/bitcoin/src/addrman.cpp:109-125 | an empty manager is consistent |
| `AddrMans.AddrMan.Add` | bitcoinkernel/bitcoin/src/addrman.cpp:681-691 | every batch keeps the manager consistent, with times as the check wants them; each announcement is dealt with on what the ones before left, and the answer is true exactly when one of them was added; nothing was added means the tables and the known addresses are as before |
| `AddrMans.AddrMan.AddSingle` | bitcoinkernel/bitcoin/src/addrman.cpp:550-624 | the manager stays consistent; an added address has the cell meant for it and its source and no other cell changed; the exact conditions under which a new and a known address are added, and the state after: what a known entry takes over, what a new one is |
| `AddrRuns.UpdatedCell` | bitcoinkernel/bitcoin/src/addrman.cpp:565-596 | a known entry has the announced time if that is later by an hour or a day, the announced services besides its own, and one reference more exactly when it was added; only news about an entry outside the tried table with fewer than eight references is |
| `AddrRuns.GreetedCell` | bitcoinkernel/bitcoin/src/addrman.cpp:593-623 | a new entry is as announced but for the penalty on its time, with one reference; one that gets no cell leaves no trace |
| `AddrMans.AddrMan.PutNew` | bitcoinkernel/bitcoin/src/addrman.cpp:599-623 | a cell is given exactly when it is empty, holds a bad entry, or one that is elsewhere too while ours is not; the displaced entry loses one reference or, with the last one, its place |
| `AddrMans.AddrMan.MakeTried` | bitcoinkernel/bitcoin/src/addrman.cpp:491-548 | the entry leaves all its cells of the new table for its one cell of the tried table; what was there returns to its home cell; at most one entry is lost |
| `AddrMans.AddrMan.LeaveNew` | bitcoinkernel/bitcoin/src/addrman.cpp:495-505 | the search over the buckets finds every cell the entry is in, so that its reference count ends at zero |
| `AddrMans.AddrMan.Good` | bitcoinkernel/bitcoin/src/addrman.cpp:626-679 | the exact conditions under which an entry moves, waits or stays, what then becomes of it and of others, and the exact condition on the time and on the state before under which the check still passes |
| `AddrChecks.ZeroTimeFails` | bitcoinkernel/bitcoin/src/addrman.cpp:626-679 | a connection at time zero that moves an entry makes the check fail |
| `AddrMans.AddrMan.Resolve` | bitcoinkernel/bitcoin/src/addrman.cpp:916-972 | a waiting entry replaces the tried one if and only if that was not reached for four hours and was tried in vain for over a minute within them, or was not tried for four hours while the waiting one was last reached more than forty minutes ago; it gives up if the tried one was reached within four hours, and waits on otherwise |
| `AddrRuns.SettledTimes` | bitcoinkernel/bitcoin/src/addrman.cpp:937-966 | the same of the states before and after, over the times alone |
| `AddrRuns.RunKeepsGood` | bitcoinkernel/bitcoin/src/addrman.cpp:937-966 | over a whole run no entry loses its tried cell within four hours of its last success |
| `AddrMans.AddrMan.ResolveCollisions` | bitcoinkernel/bitcoin/src/addrman.cpp:912-973 | whatever the order in which the waiting entries are taken, each is decided about once, on the state the ones before left; exactly those that were decided no longer wait; an entry reached within four hours keeps its tried cell at every step; consistency is kept |
| `AddrMans.AddrMan.SelectTriedCollision` | bitcoinkernel/bitcoin/src/addrman.cpp:975-1001 | the entry returned is a tried one in the cell the waiting entry wants; an empty cell is never looked up |
| `AddrSteps.StillWaiting` | bitcoinkernel/bitcoin/src/addrman.cpp:975-1001 | since cells of the tried table stay filled and identifiers are not reused, a waiting entry always finds its cell occupied |
| `AddrMans.AddrMan.GetAddr` | bitcoinkernel/bitcoin/src/addrman.cpp:812-851 | at most the asked number of distinct addresses of the asked network class and quality, all of them if there are fewer, with the random order still consistent |
| `AddrSelections.NodeLimitGreatest` | bitcoinkernel/bitcoin/src/addrman.cpp:815-825 | the number asked for is the greatest within what is known, the given number and the given share |
| `AddrMans.AddrMan.Attempt` | bitcoinkernel/bitcoin/src/addrman.cpp:693-711 | only the entry is updated, and the check passes exactly when the time is not negative |
| `AddrMoves.CountedOnce` | bitcoinkernel/bitcoin/src/addrman.cpp:693-711 | failed attempts are counted once until there is a successful connection again |
| `AddrInfos.TerribleExactly` | bitcoinkernel/bitcoin/src/addrman.cpp:69-92 | the exact times and numbers that make an entry look bad |
| `AddrInfos.StaysTerrible` | bitcoinkernel/bitcoin/src/addrman.cpp:69-92 | an entry that looks bad and is left alone goes on doing so, unless it is from the future |
| `AddrMans.AddrMan.Connected` | bitcoinkernel/bitcoin/src/addrman.cpp:877-894 | only the time of the entry is updated |
| `AddrMans.AddrMan.SetServices` | bitcoinkernel/bitcoin/src/addrman.cpp:896-910 | only the services of the entry are updated |
| `AddrSteps.DeletedSound` | bitcoinkernel/bitcoin/src/addrman.cpp:456-471 | deleting keeps maps, random order, tables and counters consistent |
| `AddrSteps.ClearedSound` | bitcoinkernel/bitcoin/src/addrman.cpp:473-489 | clearing a cell keeps them consistent and touches only the entry of that cell |
| `AddrSteps.CreatedSound` | bitcoinkernel/bitcoin/src/addrman.cpp:416-430 | creating an entry keeps them consistent |
| `AddrTables.SwappedSound` | bitcoinkernel/bitcoin/src/addrman.cpp:432-454 | exchanging two places of the random order keeps them consistent |
| `AddrChecks.CheckAddrman` | bitcoinkernel/bitcoin/src/addrman.cpp:1063-1166 | the code is zero exactly when all the conditions hold, as stated without the loops, the key included; any other code names something that is wrong, the earlier parts of the check having found nothing |
| `AddrChecks.SoundPasses` | bitcoinkernel/bitcoin/src/addrman.cpp:1063-1166 | every consistent state with proper times passes the check exactly when the key is not null |
| `AddrChecks.MissedCounter` | bitcoinkernel/bitcoin/src/addrman.cpp:1150-1163 | the check does not notice a missing network counter when another one is there for nothing |
| `AddrChecks.NetworksPassExactly` | bitcoinkernel/bitcoin/src/addrman.cpp:1150-1163 | it notices every wrong counter exactly when each network in use has one |
| `AddrMans.AddrMan.Check` | bitcoinkernel/bitcoin/src/addrman.cpp:1048-1061 | a consistent manager with proper times passes the check exactly when its key is not null |
| `HeadersSync.HeadersSyncState.ProcessNextHeaders` | bitcoinkernel/bitcoin/src/headerssync.cpp:69-138 | over every run: what is handed out continues what was, in order, with the original links; it has enough work or a full buffer above it; with enough work everything is handed out; when the sync ends; the first download takes a batch if and only if the chain with it is linked, of permitted difficulties and within the commitments, the second if and only if moreover it agrees with the first; exactly when more is requested, and how much is held back |
| `HeaderChains.RecordedExactly` | bitcoinkernel/bitcoin/src/headerssync.cpp:178-214 | a header is recorded exactly if the chain with it is one to take |
| `HeaderChains.AcceptedExactly` | bitcoinkernel/bitcoin/src/headerssync.cpp:216-279 | a header is accepted again exactly if the chain with it repeats the first one |
| `HeadersSync.HeadersSyncState.ValidateAndProcessSingleHeader` | bitcoinkernel/bitcoin/src/headerssync.cpp:178-214 | a commitment bit is stored for each height that is due, and the difficulty is checked against the true predecessor |
| `HeadersSync.HeadersSyncState.ValidateAndStoreRedownloadedHeader` | bitcoinkernel/bitcoin/src/headerssync.cpp:216-279 | a header is accepted exactly if it follows the true predecessor with a permitted difficulty and, where a bit is due, the bit stored for its very height agrees |
| `HeadersSync.HeadersSyncState.PopHeadersReadyForAcceptance` | bitcoinkernel/bitcoin/src/headerssync.cpp:281-295 | the compressed headers come out as they went in, with their links restored |
| `HeadersSync.HeadersSyncState.Finalize` | bitcoinkernel/bitcoin/src/headerssync.cpp:52-64 | nothing is kept once the sync is over |
| `HeaderChains.PopBuffer` | bitcoinkernel/bitcoin/src/headerssync.cpp:281-295 | expanding the first compressed header gives back the header that was accepted |
| `HeaderChains.TruePredecessor` | bitcoinkernel/bitcoin/src/headerssync.cpp:216-279 | the last entry of the buffer, or where it starts, is the true predecessor |
| `BlockIndexes.GetAncestor` | bitcoinkernel/bitcoin/src/chain.cpp:89-114 | the block that walking the parents gives, in as many steps as `Steps` says |
| `SkipSteps.StepsAtMost` | bitcoinkernel/bitcoin/src/chain.cpp:79-114 | going back among the first 2^k blocks, from anywhere to anywhere, takes at most (k^2 + 8k - 28) / 4 steps, for every k from 11 on |
| `SkipSteps.StepsReached` | bitcoinkernel/bitcoin/src/chain.cpp:79-114 | from block 2^k - 8 to block 2 it takes exactly that many |
| `SkipSteps.OneHundredTen` | bitcoinkernel/bitcoin/src/chain.cpp:83-86 | for 2^18 blocks that number is 110 |
| `BlockIndexes.InvertLowestOneIs` | bitcoinkernel/bitcoin/src/chain.cpp:76 | in binary, the lowest one is replaced by a zero and nothing else changes |
| `BlockIndexes.BlockIndex.AddBlock` | bitcoinkernel/bitcoin/src/chain.cpp:121-125 | a tree with skip links stays one |
| `BlockIndexes.LastCommonAncestor` | bitcoinkernel/bitcoin/src/chain.cpp:161-184 | the highest block both descend from, or none if there is none |
| `Chains.Chain.SetTip` | bitcoinkernel/bitcoin/src/chain.cpp:22-30 | the chain is the path from the first block to the tip, although writing stops where the old chain is met |
| `Chains.Chain.FindFork` | bitcoinkernel/bitcoin/src/chain.cpp:56-65 | the highest block of the chain that the given block descends from |
| `Chains.LocatorEntries` | bitcoinkernel/bitcoin/src/chain.cpp:32-49 | the hashes of the ancestors at the locator heights |
| `Chains.LocatorDescends` | bitcoinkernel/bitcoin/src/chain.cpp:32-49 | the heights go down strictly and end at the first block |
| `Chains.LocatorSteps` | bitcoinkernel/bitcoin/src/chain.cpp:32-49 | the heights go down by one for the first eleven, then by powers of two in turn, until the first block |
| `Chains.LocatorLength` | bitcoinkernel/bitcoin/src/chain.cpp:32-49 | the length is logarithmic in the height |
| `BlockProofs.GetBlockProof` | bitcoinkernel/bitcoin/src/chain.cpp:127-140 | the proof of work: for every compact target, zero if it is negative, too large or zero, and otherwise the floor of two to the 256 over the target plus one |
| `BlockProofs.ProofIdentity` | bitcoinkernel/bitcoin/src/chain.cpp:127-140 | the quotient that is computed without 257 bits is that floor |
| `ArithUint.Multiply` | bitcoinkernel/bitcoin/src/arith_uint256.cpp:59-73 | the product modulo two to the width, for every number of limbs, with the accumulator never overflowing |
| `ArithUint.MulAssign` | bitcoinkernel/bitcoin/src/arith_uint256.cpp:59-73 | the same in place |
| `ArithUint.MulAssignSmall` | bitcoinkernel/bitcoin/src/arith_uint256.cpp:47-57 | the product with a 32-bit number, modulo two to the width |
| `ArithUint.AddAssign` | bitcoinkernel/bitcoin/src/arith_uint256.h:117-127 | the sum modulo two to the width |
| `ArithUint.SubAssign` | bitcoinkernel/bitcoin/src/arith_uint256.h:129-133 | the difference modulo two to the width |
| `ArithUint.Increment` | bitcoinkernel/bitcoin/src/arith_uint256.h:155-162 | the successor modulo two to the width |
| `ArithShift.ShiftLeft` | bitcoinkernel/bitcoin/src/arith_uint256.cpp:13-28 | the product with a power of two, modulo two to the width, for every distance |
| `ArithShift.ShiftRight` | bitcoinkernel/bitcoin/src/arith_uint256.cpp:30-45 | the floor of the quotient by a power of two, for every distance |
| `ArithShift.CompareTo` | bitcoinkernel/bitcoin/src/arith_uint256.cpp:101-111 | the sign of the difference of the values |
| `ArithShift.Bits` | bitcoinkernel/bitcoin/src/arith_uint256.cpp:155-168 | the number of significant bits |
| `ArithDivision.DivAssign` | bitcoinkernel/bitcoin/src/arith_uint256.cpp:75-99 | the floor of the quotient, for every number of limbs; fails exactly on division by zero |
| `BlockProofs.SetCompact` | bitcoinkernel/bitcoin/src/arith_uint256.cpp:175-193 | the value modulo two to the 256, and both flags exactly |
| `BlockProofs.GetCompact` | bitcoinkernel/bitcoin/src/arith_uint256.cpp:195-216 | the value rounded down to the precision of the form, in the one normal form that has it, and the sign bit exactly |
| `BlockProofs.CompactRoundTrip` | bitcoinkernel/bitcoin/src/arith_uint256.cpp:175-216 | every normal form whose value fits comes back from its value |
| `BlockProofs.CompactUnique` | bitcoinkernel/bitcoin/src/arith_uint256.cpp:195-216 | a value has one normal form it rounds down to |
| `CuckooCaches.Cache.Insert` | bitcoinkernel/bitcoin/src/cuckoocache.h:397-445 | apart from what the epoch check discards, at most one of the live elements and the new one is lost, and nothing else appears; nothing is lost if the element is at one of its places or one of them is open, and otherwise exactly the last element of the chain of displacements |
| `CuckooCaches.NothingDropped` | bitcoinkernel/bitcoin/src/cuckoocache.h:404-419 | an element that is there already or has an open place costs nothing |
| `CuckooCaches.Cache.Contains` | bitcoinkernel/bitcoin/src/cuckoocache.h:474-484 | finds exactly the elements at one of their places, hence every live one; erasing marks the first place that has the element and, but for the default element, removes it and nothing else |
| `CuckooCaches.InsertEraseFind` | bitcoinkernel/bitcoin/src/cuckoocache.h:447-484 | an element that was just erased is still found |
| `CuckooCaches.Cache.EpochCheck` | bitcoinkernel/bitcoin/src/cuckoocache.h:286-318 | ages the epochs exactly when due and enough recent elements are there, and never lets the counter, which it sets, delay that too long |
| `CuckooCaches.Cache.Displace` | bitcoinkernel/bitcoin/src/cuckoocache.h:421-444 | the chain of elements and the path of places: each element but the last found its eight places taken and took the one after that used last, whose element is next; the last one gets its first open place or, at the depth limit, is dropped; every element stays at one of its places and, but for the default one, in one slot; none is moved right after it was put in unless an element has the same place twice in a row |
| `CuckooCaches.Cache.NextLoc` | bitcoinkernel/bitcoin/src/cuckoocache.h:421-436 | the place after the first one that was used last; the second place to begin with |
| `CuckooCaches.NextIsOther` | bitcoinkernel/bitcoin/src/cuckoocache.h:421-436 | the first displacement uses the first place exactly when it is the second one too; a later one returns to the place used last exactly when that follows itself |
| `CuckooCaches.SwapsBack` | bitcoinkernel/bitcoin/src/cuckoocache.h:421-436 | where the first two hashes agree, the first place follows itself |
| `CuckooCaches.PlacedFound` | bitcoinkernel/bitcoin/src/cuckoocache.h:474-484 | an element at one of its eight places is found |
| `CuckooCaches.Cache.constructor` | bitcoinkernel/bitcoin/src/cuckoocache.h:336-349 | an empty cache of the given size |
| `Base58.DecodeEncode` | bitcoinkernel/bitcoin/src/base58.cpp:40-127 | decoding an encoding gives the bytes back, whenever the length limit allows them |
| `Base58.Alphabet` | bitcoinkernel/bitcoin/src/base58.cpp:20-38 | the characters ascend and are exactly the digits and letters of ASCII without 0, I, O and l |
| `Base58.EncodeExample` | bitcoinkernel/bitcoin/src/base58.cpp:87-127 | two encodings |
| `Base58.EncodeDecode` | bitcoinkernel/bitcoin/src/base58.cpp:40-127 | encoding what was decoded gives the word back |
| `Base58.CheckExact` | bitcoinkernel/bitcoin/src/base58.cpp:137-169 | with a checksum, the data is returned exactly for its encoding with nothing but spaces around it, if it is not too long |
| `Base58.DecodeExact` | bitcoinkernel/bitcoin/src/base58.cpp:40-135 | likewise without a checksum; the empty text is never too long |
| `Base58Codec.EncodeBase58` | bitcoinkernel/bitcoin/src/base58.cpp:89-127 | the loops in the buffer compute the encoding |
| `Base58Codec.DecodeBase58` | bitcoinkernel/bitcoin/src/base58.cpp:40-87 | the loops in the buffer compute the decoding, with the same rejections |
| `Base58Codec.EncodeRoom` | bitcoinkernel/bitcoin/src/base58.cpp:98-100 | the buffer for encoding is large enough for every input |
| `Base58Codec.DecodeRoom` | bitcoinkernel/bitcoin/src/base58.cpp:53-55 | the buffer for decoding is large enough for every input |
| `Base58Codec.MultiplyAdd` | bitcoinkernel/bitcoin/src/base58.cpp:63-70 | after the inner loop nothing is left to carry, and the number is multiplied and increased |

## Left out

- `SearchCandidateFinders.SearchCandidateFinder.FindCandidateSet`: the square root of 2^n that its description calls a
  possible bound on the iterations is not stated; the Fibonacci number that is proved grows with 1.618^n.
- The branches of `CheckQueue` for a stop request, and the destructor that joins the threads.
- A database write that fails, the hash of the best block, and partial batches when writing to the database.
- `EmplaceCoinInternalDANGER`, `AccessCoin`, `HaveInputs` and the other thin wrappers around the coin cache.
- Selecting one address at random (`Select_`): its outcome is a matter of probability and of floating-point chances.
- Reading and writing the address manager, and its listing functions `GetEntries_`, `FindAddressEntry_` and `Size_`.
- The secret key of the address manager is part of its rules, as the hashes it gives and whether it is null.
- Numbers as text or floating point (`GetHex`, `ToString`, `getdouble`), and the conversion to and from hashes.
- `FindEarliestAtLeast` and the equivalent time of a difference of work.
- Concurrency of the cuckoo cache: its flags are atomic in the source and plain here.
- The memory layout of bit-packed flags; they are booleans here.
