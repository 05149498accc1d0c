# Verified models of the stateful components

Dafny models of the parts of this repository that carry invariants, with proofs of what they are for.
`dafny verify dfyconfig.toml` checks everything.

| file | component |
|---|---|
| `Sequences.dfy` | options, distinctness and removal at an index, shared by the others |
| `Graph.dfy` | walks along pairs: the equivalence closure that union-find answers |
| `UnionFind.dfy` | the four disjoint-set classes over their arrays, path halving included |
| `Percolation.dfy` | the grid over two union-finds with virtual nodes |
| `PercolationStats.dfy` | shuffle, decoding of sites, and when a trial stops |
| `HierarchicalMutex.dfy` | lock, try_lock and unlock as interleaved steps of any number of threads |
| `HierarchicalLocks.dfy` | the same operations on the mutex objects, seen by one thread |
| `TimeWheel.dfy`, `TimeWheelRuns.dfy` | the hashed timing wheel over its 60 doubly linked chains, and whole runs of it |
| `TimerOrder.dfy`, `SortedTimerList.dfy` | sorted insertion and adjustment on sequences, and the linked list that does them |
| `TimeHeap.dfy` | the ordered set with lazy cancellation |
| `TimerRuns.dfy`, `TimerRequests.dfy` | runs of list and ordered set on sequences of entries, and what they are to run |
| `TimersAgree.dfy` | the list and the ordered set themselves on the same requests |
| `IdleServer.dfy`, `IdleRuns.dfy` | the server that closes idle connections, and its main loop on any events |
| `ChatRoom.dfy`, `ChatRuns.dfy` | the parent process of the chat room with its tables, and its main loop on any events |
| `ParallelAccumulate.dfy` | block partition, threads in any order, fold of the results |
| `ProducerConsumer.dfy` | the two threads around a condition variable as interleaved steps |
| `MedianFinder.dfy` | the median of a stream between two priority queues |

## How to read the model

Classes that change state keep a ghost description beside their fields (the pairs united, the open sites,
the chain of each slot of a wheel, the last activity of a connection), and `Valid()` ties the
two together; each method states the whole new description. The properties of the descriptions are lemmas.
Whole runs appear as sequences of requests, events or steps.

Clock readings, random numbers, process ids, file descriptors, results of system calls and the order in
which threads move are parameters or arbitrary choices. Clock readings do not decrease. Callbacks do not
call back into the structure that runs them. Only the owner unlocks a mutex, as `std::mutex` requires, and
a throw leaves the state as it was. Percolation's union-find is the repository's own
`WeightedQuickUnionUF`, `find` being `root`.

## What the code does not keep

- The note at high-performance-server-programming-linux/ch13/chatroom_server.cc:393-394 says that each child
  writes only to its own part of the shared memory. A child keeps its index when its entry moves, so two
  children can share a part: `ChatRuns.TwoChildrenOneSegment`, and `ChatRuns.OwnThroughout` for when not.
- stop_server ends the loop only after the current batch of events; a connection accepted later in the batch
  leaves a child behind: `ChatRuns.StoppedWithAChild`, and `ChatRuns.EndsWithoutChildren` for when not.
- `sub_process` is right for every listed child, but reaping the last entry leaves the dead pid mapped:
  the contract of `ChatRoom.Parent.ReapOne` says so.
- findMedian divides integers before it converts to double: `MedianFinder.HalfIsLost`, and
  `MedianFinder.MedianFinder.FindMedian` for which streams the result is the median all the same.
- adjustTimer is for timers put off, as its comment says (timer_list.h:77). For an expire that moved below
  that of the timer before it the list is left unsorted: `TimerOrder.EarlierTimeUnsorted`, and
  `TimerOrder.AdjustSorts` for exactly when.
- A wheel timer due "after k ticks" fires on the (k+1)-th call of `tick`, because `tick` serves the current
  slot before it moves on.

## Model

| member | source | states |
|---|---|---|
| `Percolation.Percolation.PercolatesNow` | algorithms4/1_union-find/Percolation.java:88-91 | after any calls of `open`, true exactly if a path of adjacent open sites joins row 1 to row n |
| `Percolation.Percolation.IsFull` | algorithms4/1_union-find/Percolation.java:72-81 | throws exactly off the grid; otherwise true exactly if the site is open and a path of open sites joins it to row 1, also when the grid percolates |
| `Percolation.Percolation.Open` | algorithms4/1_union-find/Percolation.java:33-58 | throws exactly off the grid and then changes nothing; otherwise the open sites are the old ones and this one, and all relations between grid, counter and both union-finds are kept |
| `Percolation.Percolation.IsOpen` | algorithms4/1_union-find/Percolation.java:60-70 | throws exactly off the grid; otherwise tells whether the site was opened |
| `Percolation.Percolation.NumberOfOpenSites` | algorithms4/1_union-find/Percolation.java:83-86 | the number of distinct sites opened, repeated calls not counted |
| `Percolation.VirtualNodesJoined` | algorithms4/1_union-find/Percolation.java:88-91 | in any union-find whose pairs are the neighbour links of the open sites and the links of both virtual nodes, the virtual nodes are joined exactly if the grid percolates: paths through a virtual node are cut away |
| `Percolation.NoBackwash` | algorithms4/1_union-find/Percolation.java:72-81 | without the links of the bottom node, an open site is joined to the top node exactly if it is full |
| `Percolation.TopComponent` | algorithms4/1_union-find/Percolation.java:45-56 | what the top node is joined to is itself or a full site, as long as the bottom node is left out or the grid does not percolate |
| `Percolation.OpeningRecords` | algorithms4/1_union-find/Percolation.java:42-57 | the pairs that `open` unites (virtual nodes and open neighbours) keep the pairs recorded equal to the links of the open sites |
| `Percolation.DirectionsCover` | algorithms4/1_union-find/Percolation.java:4 | the eight offsets, taken in twos, are exactly the four adjacent sites |
| `Percolation.Percolation.Union` | algorithms4/1_union-find/Percolation.java:104-121 | adds to both union-finds the pairs with the open neighbours, and no others |
| `Percolation.Percolation.constructor` | algorithms4/1_union-find/Percolation.java:14-31 | a grid of blocked sites with nothing united |
| `Percolation.Create` | algorithms4/1_union-find/Percolation.java:15-18 | the constructor throws exactly for n <= 0 |
| `Percolation.IndexInjective` | algorithms4/1_union-find/Percolation.java:106 | row * n + col numbers the sites without collision |
| `PercolationStats.PercolationStats.Trial` | algorithms4/1_union-find/PercolationStats.java:50-64 | for every order of the sites the loop stops by percolating, on the first site that makes the grid percolate, with n <= j + 1 <= n*n - n + 1 |
| `PercolationStats.StoppingBounds` | algorithms4/1_union-find/PercolationStats.java:52-64 | while the grid does not percolate there is a next site, at most n*n - n sites are open, and a percolating grid has at least n |
| `PercolationStats.PercolatingNeedsN` | algorithms4/1_union-find/PercolationStats.java:61-65 | a percolating grid has at least n open sites, since a crossing path meets every row |
| `PercolationStats.NonPercolatingLeavesN` | algorithms4/1_union-find/PercolationStats.java:61-65 | a grid that does not percolate has a blocked site in every column, hence at least n of them |
| `PercolationStats.BoundsAttained` | algorithms4/1_union-find/PercolationStats.java:52-64 | random numbers exist on which a trial stops after exactly n sites, and others on which it stops after exactly n*n - n + 1, so neither bound can be improved |
| `PercolationStats.EveryOrderOnce` | algorithms4/1_union-find/PercolationStats.java:32-44 | every order of the sites is dealt by exactly one sequence of random numbers, so uniform numbers give uniform orders |
| `PercolationStats.PercolationStats.Shuffle` | algorithms4/1_union-find/PercolationStats.java:32-44 | the result is the order dealt by the random numbers drawn, and lists each site number exactly once |
| `PercolationStats.RowAndColumn` | algorithms4/1_union-find/PercolationStats.java:53-59 | the decoding by % and / with its special case for column n gives the site whose row-by-row number this is |
| `PercolationStats.DecodeInverse` | algorithms4/1_union-find/PercolationStats.java:53-59 | decoding stays on the grid and is undone by numbering the site again |
| `PercolationStats.PercolationStats.OpenNext` | algorithms4/1_union-find/PercolationStats.java:53-63 | opens the j-th site of the order and tells whether the grid percolates with it |
| `PercolationStats.PercolationStats.Run` | algorithms4/1_union-find/PercolationStats.java:46-68 | every trial has an order of its own, and its value is the count after which that order first percolates over n*n; all values lie between the bounds |
| `PercolationStats.PercolationStats.constructor` | algorithms4/1_union-find/PercolationStats.java:15-25 | the values of all trials lie between the same bounds |
| `PercolationStats.Create` | algorithms4/1_union-find/PercolationStats.java:16-19 | the constructor throws exactly unless n and trials are both positive |
| `UnionFind.SameAnswers` | algorithms4/1_union-find/UnionFind.java:20-154 | on every sequence of connected, union and root calls in any order the four classes answer connected alike, namely whether the pairs united so far join the two nodes, and the two weighted classes give the same roots, halving or not |
| `UnionFind.RunPathCompressionWeightedQuickUnion` | algorithms4/1_union-find/UnionFind.java:114-154 | in every run that mixes union, connected and root, connected answers the equivalence closure of the pairs united before, a root belongs to its node, and roots asked for with no union in between are equal exactly within a component; the roots are those that hanging the lighter tree below the heavier gives |
| `UnionFind.PathCompressionWeightedQuickUnionUF.Root` | algorithms4/1_union-find/UnionFind.java:128-134 | returns the root, terminates after (depth + 1) / 2 steps of which 2 to the power is at most N, leaves every node's root alone and makes no node deeper |
| `UnionFind.PathCompressionWeightedQuickUnionUF.Union` | algorithms4/1_union-find/UnionFind.java:140-153 | the same: the heavier tree's root on top, the first one's on a tie, with the sum of the sizes |
| `UnionFind.TieGoesToFirst` | algorithms4/1_union-find/UnionFind.java:104-110 | after union(0, 1) of two single nodes the root of both is 0 |
| `UnionFind.PathCompressionWeightedQuickUnionUF.Connected` | algorithms4/1_union-find/UnionFind.java:136-138 | true exactly if the pairs united so far join the nodes, although the lookup rewrites links |
| `UnionFind.HalveWeighted` | algorithms4/1_union-find/UnionFind.java:130 | pointing a node at its grandparent keeps the forest, every root, the tree sizes and the halving of weights along links |
| `UnionFind.HalvingShortens` | algorithms4/1_union-find/UnionFind.java:130 | it makes no node deeper |
| `UnionFind.HalvingStep` | algorithms4/1_union-find/UnionFind.java:129-132 | one turn of the loop takes two links off the depth still to go |
| `UnionFind.LogarithmicDepth` | algorithms4/1_union-find/UnionFind.java:87-111 | 2 to the depth of any node is at most the size of its tree, which is at most N: depth is at most log2 N, with or without halving (claimed at algorithms4/README.md:38) |
| `UnionFind.DepthDoublesWeight` | algorithms4/1_union-find/UnionFind.java:98-111 | every link at least doubles the weight: 2 to the depth, times the node's own weight, is at most the root's |
| `UnionFind.HangLighter` | algorithms4/1_union-find/UnionFind.java:104-110 | hanging the lighter root below the heavier keeps sz equal to the node counts of the trees |
| `UnionFind.UnionBySize` | algorithms4/1_union-find/UnionFind.java:98-111 | the branch taken by sz merges exactly the two components, and doing nothing is right when the roots agree |
| `UnionFind.WeightedQuickUnionUF.Root` | algorithms4/1_union-find/UnionFind.java:87-92 | returns the root in as many steps as the node is deep, 2 to the power of which is at most N |
| `UnionFind.WeightedQuickUnionUF.Union` | algorithms4/1_union-find/UnionFind.java:98-111 | records one pair more; all nodes of both trees get the root of the heavier one, of the first one if they weigh the same, its size is the sum, and nothing else changes |
| `UnionFind.WeightedQuickUnionUF.Connected` | algorithms4/1_union-find/UnionFind.java:94-96 | true exactly if the pairs united so far join the nodes |
| `UnionFind.QuickUnionUF.Root` | algorithms4/1_union-find/UnionFind.java:55-60 | terminates with the root of the node's tree |
| `UnionFind.QuickUnionUF.Union` | algorithms4/1_union-find/UnionFind.java:66-70 | records one pair more by one write; all nodes of the first tree get the root of the second |
| `UnionFind.QuickUnionUF.Connected` | algorithms4/1_union-find/UnionFind.java:62-64 | true exactly if the pairs united so far join the nodes |
| `UnionFind.HangRoot` | algorithms4/1_union-find/UnionFind.java:69 | hanging a root below another keeps a forest, with the roots relabelled |
| `UnionFind.QuickFindUF.Union` | algorithms4/1_union-find/UnionFind.java:34-42 | records one pair more; exactly the nodes with the first label get the second |
| `UnionFind.QuickFindUF.Connected` | algorithms4/1_union-find/UnionFind.java:30-32 | true exactly if the pairs united so far join the nodes |
| `UnionFind.ClosureGrows` | algorithms4/1_union-find/UnionFind.java:34-42 | if labels are equal exactly within components, and after merging two of them exactly within components or across the two, they describe the equivalence closure with the pair added |
| `UnionFind.RunQuickFind` | algorithms4/1_union-find/UnionFind.java:20-43 | every answer in a run is the equivalence closure of the pairs united before |
| `UnionFind.RunQuickUnion` | algorithms4/1_union-find/UnionFind.java:45-71 | in every run that mixes union, connected and root, connected answers the equivalence closure of the pairs united before, a root belongs to its node, and roots asked for with no union in between are equal exactly within a component |
| `UnionFind.RunWeightedQuickUnion` | algorithms4/1_union-find/UnionFind.java:73-112 | in every run that mixes union, connected and root, connected answers the equivalence closure of the pairs united before, a root belongs to its node, and roots asked for with no union in between are equal exactly within a component; the roots are those that hanging the lighter tree below the heavier gives |
| `HierarchicalMutex.WaitForIsAcyclic` | cpp-concurrency-in-action/ch3_在线程间共享数据/code_3_8.cpp:83-88 | in no interleaving do threads wait for each other in a circle |
| `HierarchicalMutex.NoDeadlock` | cpp-concurrency-in-action/ch3_在线程间共享数据/code_3_8.cpp:83-98 | in every reachable state, the waits of a sleeping thread lead to one that holds a mutex, is not asleep and has a step to take |
| `HierarchicalMutex.HeldMutexesChain` | cpp-concurrency-in-action/ch3_在线程间共享数据/code_3_8.cpp:73-77 | the levels of the mutexes a thread holds strictly decrease in acquisition order, and their saved values lead back to ULONG_MAX whatever the other threads do |
| `HierarchicalMutex.LockThrows` | cpp-concurrency-in-action/ch3_在线程间共享数据/code_3_8.cpp:63-70 | `lock` throws exactly if the mutex is not below everything the thread holds (nor below ULONG_MAX), so it throws for a mutex already held; a throw changes nothing |
| `HierarchicalMutex.LockTakesFree` | cpp-concurrency-in-action/ch3_在线程间共享数据/code_3_8.cpp:83-109 | lock, or try_lock, of a free mutex below the thread's level takes it in four steps of the thread's own: it is the last one held, owned, remembers the level before, and the level is its hierarchy value; nothing else changes |
| `HierarchicalMutex.TakesFree` | cpp-concurrency-in-action/ch3_在线程间共享数据/code_3_8.cpp:86-87 | the same from behind the check, so also for a thread that slept, once the mutex is free |
| `HierarchicalMutex.LockOfOwned` | cpp-concurrency-in-action/ch3_在线程间共享数据/code_3_8.cpp:85-86 | in every reachable state, lock of a mutex below the thread's level that is owned finds another owner and ends up asleep |
| `HierarchicalMutex.LockSleeps` | cpp-concurrency-in-action/ch3_在线程间共享数据/code_3_8.cpp:86 | behind the check of lock a thread sleeps exactly while somebody owns the mutex; asleep it has no step, otherwise only the acquisition, which is possible |
| `HierarchicalMutex.SleepsOn` | cpp-concurrency-in-action/ch3_在线程间共享数据/code_3_8.cpp:86 | and it goes on sleeping through every step of another thread but the release of that mutex |
| `HierarchicalMutex.TryLockReturns` | cpp-concurrency-in-action/ch3_在线程间共享数据/code_3_8.cpp:100-109 | try_lock never sleeps; on an owned mutex the thread can only go back to exactly where it was, on a free one it can also take it |
| `HierarchicalMutex.UnlockFrees` | cpp-concurrency-in-action/ch3_在线程间共享数据/code_3_8.cpp:90-98 | unlock of the mutex taken last frees it in three steps of the thread's own, and but for the level going back nothing else changes |
| `HierarchicalMutex.UnlockThrows` | cpp-concurrency-in-action/ch3_在线程间共享数据/code_3_8.cpp:90-95 | `unlock` of an owned mutex throws exactly if it is not the last one taken |
| `HierarchicalMutex.UnlockRestores` | cpp-concurrency-in-action/ch3_在线程间共享数据/code_3_8.cpp:96-97 | unlocking brings back the level before the mutex was taken; with nothing held the level is the initial one |
| `HierarchicalMutex.MutualExclusion` | cpp-concurrency-in-action/ch3_在线程间共享数据/code_3_8.cpp:86-97 | two threads never own the same mutex |
| `HierarchicalMutex.LevelIsLowest` | cpp-concurrency-in-action/ch3_在线程间共享数据/code_3_8.cpp:58-61 | between operations a thread's level is the lowest hierarchy value it holds, ULONG_MAX without any |
| `HierarchicalMutex.StepKeepsInv` | cpp-concurrency-in-action/ch3_在线程间共享数据/code_3_8.cpp:63-109 | every step of every thread keeps the invariant of every thread and mutex |
| `HierarchicalMutex.ReachableInv` | cpp-concurrency-in-action/ch3_在线程间共享数据/code_3_8.cpp:83-111 | every reachable state of any number of threads and mutexes satisfies the invariant |
| `HierarchicalMutex.RunKeepsInv` | cpp-concurrency-in-action/ch3_在线程间共享数据/code_3_8.cpp:83-111 | the invariant holds in every state of every interleaving |
| `HierarchicalMutex.OthersKept` | cpp-concurrency-in-action/ch3_在线程间共享数据/code_3_8.cpp:58-61 | a step of one thread leaves the level, the position and the mutexes of every other thread as they were, their owner and saved value included, and so its invariant |
| `HierarchicalMutex.RunningCanStep` | cpp-concurrency-in-action/ch3_在线程间共享数据/code_3_8.cpp:83-98 | a thread that holds a mutex and is not asleep can take a step that changes the state |
| `HierarchicalLocks.HierarchicalMutex.Lock` | cpp-concurrency-in-action/ch3_在线程间共享数据/code_3_8.cpp:83-88 | throws exactly if the level is not above the mutex's, sleeps exactly if it passes that check and another thread owns the mutex, and changes nothing in both cases; otherwise the mutex joins the thread's chain and remembers the level |
| `HierarchicalLocks.HierarchicalMutex.TryLock` | cpp-concurrency-in-action/ch3_在线程间共享数据/code_3_8.cpp:100-109 | throws under the same condition; otherwise takes the mutex exactly if nobody owns it, and changes nothing if not |
| `HierarchicalLocks.HierarchicalMutex.Unlock` | cpp-concurrency-in-action/ch3_在线程间共享数据/code_3_8.cpp:90-98 | throws exactly for a held mutex that is not the last one taken; otherwise the level is the one before and the mutex is free |
| `HierarchicalLocks.ThreadLocal.LastIsLowest` | cpp-concurrency-in-action/ch3_在线程间共享数据/code_3_8.cpp:92-95 | comparing a held mutex's hierarchy value with the level tells whether it is the last one taken |
| `TimeWheelRuns.Run` | high-performance-server-programming-linux/ch11/time_wheel.h:62-151 | in every run of a real wheel, told by the calls alone: a tick runs exactly the callbacks of the timers for which it is the (max(1, timeout) + 1)-th tick since they were added and which nobody deleted before, each once; the wheel holds exactly the waiting timers; and timers added = timers on the wheel + deleted + callbacks run |
| `TimeWheelRuns.FiresExactlyOnce` | high-performance-server-programming-linux/ch11/time_wheel.h:61-94 | of a timer added: no two ticks run it, one has run it exactly if it was not deleted and more than max(1, timeout) ticks came, and it waits exactly if it is neither deleted nor run |
| `TimeWheelRuns.TurnOnce` | high-performance-server-programming-linux/ch11/time_wheel.h:120-151 | one tick of the wheel in a run: what runs is what the calls before make due, and leaves the wheel |
| `TimeWheelRuns.FiredAreDue` | high-performance-server-programming-linux/ch11/time_wheel.h:125-130 | the timers that fire are those for which this is the right tick |
| `TimeWheel.TimeWheel.AddTimer` | high-performance-server-programming-linux/ch11/time_wheel.h:62-94 | null for a negative timeout; otherwise a new timer due on the (k+1)-th next tick, k the computed ticks, joins the others; all 60 chains stay linked, disjoint and on their slots |
| `TimeWheel.TimeWheel.DelTimer` | high-performance-server-programming-linux/ch11/time_wheel.h:97-117 | takes exactly this timer off the wheel |
| `TimeWheel.TimeWheel.Tick` | high-performance-server-programming-linux/ch11/time_wheel.h:120-151 | returns the timers whose callbacks ran: exactly those due now, each once, in chain order; these leave the wheel while its chain is being traversed, the others stay, and it turns by one slot |
| `TimeWheel.TimeWheel.Traverse` | high-performance-server-programming-linux/ch11/time_wheel.h:121-149 | walking along the chain while cutting timers out of it runs the callbacks of the due ones in order |
| `TimeWheel.AfterTick` | high-performance-server-programming-linux/ch11/time_wheel.h:123-150 | the timers left behind by a tick are those not due, with rotations that fit the next slot |
| `TimeWheel.LeftOverNext` | high-performance-server-programming-linux/ch11/time_wheel.h:123-150 | rotation * N + distance to the slot falls by exactly one with each tick |
| `TimeWheel.DueHere` | high-performance-server-programming-linux/ch11/time_wheel.h:125-130 | the timers of the current slot with rotation 0 are exactly the ones due on this tick |
| `TimeWheel.TraversalStep` | high-performance-server-programming-linux/ch11/time_wheel.h:123-149 | one turn of the loop cuts out the timer if it is due and goes on with the next one of the original chain |
| `TimeWheel.RemainingSplits` | high-performance-server-programming-linux/ch11/time_wheel.h:123-149 | what is left of the chain during the traversal: the timers kept so far and the part not visited |
| `TimeWheel.TimeWheel.Fire` | high-performance-server-programming-linux/ch11/time_wheel.h:129-148 | the callback of the timer at hand runs, and removing it, at the head or inside, leaves a linked chain and the next timer to visit |
| `TimeWheel.TimeWheel.Keep` | high-performance-server-programming-linux/ch11/time_wheel.h:125-128 | a timer with rotation left loses one and stays |
| `TimeWheel.TimeWheel.PushFront` | high-performance-server-programming-linux/ch11/time_wheel.h:82-92 | the slot's chain with the timer in front; the other 59 stay |
| `TimeWheel.TimeWheel.Unlink` | high-performance-server-programming-linux/ch11/time_wheel.h:103-116 | the slot's chain without the timer; the other 59 stay |
| `SortedTimerList.SortedTimerLst.AddTimer` | high-performance-server-programming-linux/ch11/timer_list.h:57-74 | null is ignored; otherwise the list is the old one with the timer inserted behind every entry with an expire not above its own |
| `SortedTimerList.SortedTimerLst.AddAfterHead` | high-performance-server-programming-linux/ch11/timer_list.h:166-189 | the head stays first and the timer is inserted into the list behind it |
| `SortedTimerList.SortedTimerLst.AdjustTimer` | high-performance-server-programming-linux/ch11/timer_list.h:78-101 | the list is the specified adjustment of the old one, with the same timers; null is ignored |
| `SortedTimerList.SortedTimerLst.DelTimer` | high-performance-server-programming-linux/ch11/timer_list.h:104-134 | takes exactly this timer out, at head, tail, inside or alone; null is ignored |
| `SortedTimerList.SortedTimerLst.Tick` | high-performance-server-programming-linux/ch11/timer_list.h:139-162 | runs the callbacks of the expired entries in list order and leaves the others, also when none is left and tail is stale |
| `TimerOrder.AdjustIsReinsertion` | high-performance-server-programming-linux/ch11/timer_list.h:76-101 | adjustTimer gives what deleting and adding again would, if and only if the timer has no smaller expire than the one before it |
| `TimerOrder.AdjustSorts` | high-performance-server-programming-linux/ch11/timer_list.h:76-101 | the list is sorted afterwards if and only if the same holds |
| `TimerOrder.EarlierTimeUnsorted` | high-performance-server-programming-linux/ch11/timer_list.h:76-101 | a list in which a timer moved to an earlier time than the one before it, and which adjustTimer leaves unsorted |
| `TimerOrder.PuttingOffIsFine` | high-performance-server-programming-linux/ch11/timer_list.h:76-101 | when an expire in a sorted list only grew, the result is sorted and equals the reinsertion |
| `TimerOrder.InsertKeepsSorted` | high-performance-server-programming-linux/ch11/timer_list.h:57-74 | insertion keeps the list sorted |
| `TimerOrder.RemoveKeepsSorted` | high-performance-server-programming-linux/ch11/timer_list.h:104-134 | removal keeps the list sorted |
| `TimerOrder.PlaceUnique` | high-performance-server-programming-linux/ch11/timer_list.h:170-188 | the position of insertion is the only one behind all not greater and before the first greater entry: insertion is stable |
| `TimerOrder.PlaceBehindHead` | high-performance-server-programming-linux/ch11/timer_list.h:166-189 | searching from the second entry on finds that position when the head is not greater |
| `TimerOrder.ExpiredArePrefix` | high-performance-server-programming-linux/ch11/timer_list.h:147-151 | in a sorted list the loop runs exactly the entries with expire <= now |
| `TimeHeap.ComparatorIsStrictTotal` | high-performance-server-programming-linux/ch11/time_heap.h:48-67 | the comparator is irreflexive, asymmetric, transitive and total on timers, with null first, then by expire, then by address |
| `TimeHeap.TimeHeap.AddTimer` | high-performance-server-programming-linux/ch11/time_heap.h:87-92 | the timer gets its place by expire and address; null is ignored |
| `TimeHeap.TimeHeap.DelTimer` | high-performance-server-programming-linux/ch11/time_heap.h:95-110 | the entry stays and will not run; null is ignored |
| `TimeHeap.TimeHeap.Top` | high-performance-server-programming-linux/ch11/time_heap.h:113-118 | the timer that expires first, of several the one with the lowest address; null exactly if there is none |
| `TimeHeap.TimeHeap.PopTimer` | high-performance-server-programming-linux/ch11/time_heap.h:121-126 | removes the least timer, if there is one |
| `TimeHeap.TimeHeap.Tick` | high-performance-server-programming-linux/ch11/time_heap.h:129-145 | removes the expired entries and runs, in order, those of them not cancelled |
| `TimerRuns.SameCallbacks` | high-performance-server-programming-linux/ch11/time_heap.h:87-145 | on every run of adds, cancellations and ticks in which an added timer and its address are new to the set, list and set run the same multiset of callbacks at each tick, both in order of expire |
| `TimerRuns.StepMatches` | high-performance-server-programming-linux/ch11/time_heap.h:87-145 | each call keeps both sorted with the same live timers, and runs the same callbacks |
| `TimerRuns.TickRunsExpired` | high-performance-server-programming-linux/ch11/timer_list.h:139-162 | both run exactly the live timers with expire <= now |
| `TimerRuns.TickMatches` | high-performance-server-programming-linux/ch11/time_heap.h:129-145 | a tick runs the same multiset and leaves the same live timers |
| `TimerRuns.CancelMatches` | high-performance-server-programming-linux/ch11/time_heap.h:95-110 | deleting from the list and nulling the callback in the set leave the same live timers, whether or not the timer was still live |
| `TimerRuns.AlwaysMatch` | high-performance-server-programming-linux/ch11/time_heap.h:87-145 | after every such run the set's live timers are the list's, both in order |
| `TimerRuns.AddMatches` | high-performance-server-programming-linux/ch11/time_heap.h:87-92 | adding keeps both in order and the live timers the same |
| `TimerRuns.ListCancelRemoves` | high-performance-server-programming-linux/ch11/timer_list.h:104-134 | the cancellation used in runs is the list's removal at the timer's position |
| `TimersAgree.Execute` | high-performance-server-programming-linux/ch11/time_heap.h:71-151 | the linked list and the ordered set themselves, on the same requests: at every tick both hand their callbacks the user data of exactly the timers added, neither cancelled nor run, whose expire has come, each once and in order of expire; so the same |
| `TimersAgree.ExecuteList` | high-performance-server-programming-linux/ch11/timer_list.h:57-162 | the same of every run of the list, any number of timers sharing their user data |
| `TimersAgree.ExecuteSet` | high-performance-server-programming-linux/ch11/time_heap.h:87-145 | the same of every run of the ordered set, although cancelled entries stay in it; timers may be cancelled again or after they ran |
| `TimersAgree.SameUserAgain` | high-performance-server-programming-linux/ch11/time_heap.h:95-110 | such a run: a user's timer is cancelled and another one added for the same user while the first is still in the set; only the second one runs |
| `TimerRequests.ListedIsPending` | high-performance-server-programming-linux/ch11/timer_list.h:57-162 | after any requests at all, the list holds exactly the timers left pending, with their expire |
| `TimerRequests.ListRunsDue` | high-performance-server-programming-linux/ch11/timer_list.h:139-162 | what a tick of the list runs is what is pending and due, each once, in order |
| `TimerRequests.SetRunsDue` | high-performance-server-programming-linux/ch11/time_heap.h:129-145 | what a tick of the ordered set runs is what is pending and due, each once, in order |
| `TimerRequests.SetInOrder` | high-performance-server-programming-linux/ch11/time_heap.h:87-145 | the set, cancelled entries included, holds only what no tick has found expired, so new addresses are new to it, and its live entries are the list's |
| `IdleRuns.Run` | high-performance-server-programming-linux/ch11/nonactive_connection.cc:124-228 | on any possible events: each round that ends with an alarm pending closes exactly the open connections on which nothing happened for 3 * TIMESLOT, each once and the longest idle first, and no other event has a timer close anything; the loop ends behind the first round that ends with a SIGTERM seen; and each open connection has exactly one timer, expiring 3 * TIMESLOT after its last activity |
| `IdleRuns.ClosesIdleOfRun` | high-performance-server-programming-linux/ch11/nonactive_connection.cc:222-226 | what the timers close, told by the events alone: the connections accepted, not closed since by end of file, error or an earlier timer, and idle by their last accept or data |
| `IdleRuns.ExplainedNext` | high-performance-server-programming-linux/ch11/nonactive_connection.cc:133-226 | after every event, timeout is set exactly if an alarm came and no round has ended since, stop_server exactly if a SIGTERM came, a connection is open exactly if it was accepted and since then saw no end of file, no error other than EAGAIN and no timer, and its activity is the last accept or data |
| `IdleRuns.OpenNext` | high-performance-server-programming-linux/ch11/nonactive_connection.cc:136-216 | one event more opens or closes exactly this |
| `IdleRuns.LastNext` | high-performance-server-programming-linux/ch11/nonactive_connection.cc:156-158 | what the server remembers of a live connection is its last activity in the events |
| `IdleRuns.TimersOfOpen` | high-performance-server-programming-linux/ch11/nonactive_connection.cc:145-159 | the listed timers are those of the open connections, one each, expiring 3 * TIMESLOT after the last activity |
| `IdleServer.IdleServer.Accept` | high-performance-server-programming-linux/ch11/nonactive_connection.cc:136-159 | one more live connection with one timer of its own, expiring 3 * TIMESLOT later; the list stays sorted |
| `IdleServer.IdleServer.Receive` | high-performance-server-programming-linux/ch11/nonactive_connection.cc:186-216 | data puts the timer off, an end of file or an error other than EAGAIN closes the connection and removes its timer |
| `IdleServer.IdleServer.TimerHandler` | high-performance-server-programming-linux/ch11/nonactive_connection.cc:64-69 | closes exactly the idle connections, each once, longest idle first, and drops their timers |
| `IdleServer.IdleServer.ExpiredAreIdle` | high-performance-server-programming-linux/ch11/nonactive_connection.cc:64-69 | the expired prefix of the list are exactly the timers of the idle connections |
| `IdleServer.IdleServer.Serve` | high-performance-server-programming-linux/ch11/nonactive_connection.cc:133-226 | each event takes the server to the state the event model says, with one sorted timer per connection |
| `IdleServer.Postpone` | high-performance-server-programming-linux/ch11/nonactive_connection.cc:211-214 | a timer put off keeps the list sorted and its timers the same |
| `ChatRuns.ExplainedNext` | high-performance-server-programming-linux/ch13/chatroom_server.cc:265-360 | after every event of every run, the table holds exactly the children forked and not reaped since, each with its pid, pipe and index at the fork; terminate is set exactly if a SIGTERM met living children; stop_server exactly if a SIGTERM met none or an exit behind a SIGTERM left none |
| `ChatRuns.TableHoldsTheLiving` | high-performance-server-programming-linux/ch13/chatroom_server.cc:265-335 | a pid is in the table exactly if it is that of a living child |
| `ChatRuns.TableCountsTheLiving` | high-performance-server-programming-linux/ch13/chatroom_server.cc:265-271 | g_user_count is the number of living children, at most USER_LIMIT |
| `ChatRuns.LivingNext` | high-performance-server-programming-linux/ch13/chatroom_server.cc:260-335 | a connection accepted and forked while fewer than USER_LIMIT children live has a living child afterwards, an exit ends exactly the children reaped, and nothing else changes who lives |
| `ChatRoom.StepSound` | high-performance-server-programming-linux/ch13/chatroom_server.cc:265-360 | every event keeps the limit and the distinctness |
| `ChatRoom.ReapAllSound` | high-performance-server-programming-linux/ch13/chatroom_server.cc:322-335 | reaping removes exactly the children that exited |
| `ChatRoom.SwapOutMembers` | high-performance-server-programming-linux/ch13/chatroom_server.cc:333 | moving the last entry into the hole keeps every other entry |
| `ChatRoom.Parent.Connect` | high-performance-server-programming-linux/ch13/chatroom_server.cc:260-304 | refuses at the limit and on a failed accept or fork; otherwise appends the child and maps its pid to its index |
| `ChatRoom.Parent.ReapOne` | high-performance-server-programming-linux/ch13/chatroom_server.cc:323-334 | the table without this child, all indices mapped again; its own pid is unmapped, except that reaping the last entry leaves it mapped to the index just freed |
| `ChatRoom.Parent.Exits` | high-performance-server-programming-linux/ch13/chatroom_server.cc:322-338 | reaps all of them, and stops when terminating without children |
| `ChatRoom.Parent.Terminate` | high-performance-server-programming-linux/ch13/chatroom_server.cc:341-356 | signals every living child once and none else, or stops at once without children |
| `ChatRoom.Parent.Broadcast` | high-performance-server-programming-linux/ch13/chatroom_server.cc:373-380 | writes to the pipe of every child but the source, each once |
| `ChatRuns.Run` | high-performance-server-programming-linux/ch13/chatroom_server.cc:243-384 | the main loop on any batches of events: data reaches every living child but the source, SIGTERM every living child, each exactly once; the loop ends behind the first batch in which a SIGTERM meets no living child or an exit behind a SIGTERM leaves none; and it then leaves no child if and only if every child forked behind that event was reaped in the batch |
| `ChatRuns.StopsWithoutChildren` | high-performance-server-programming-linux/ch13/chatroom_server.cc:336-348 | when the server decides to stop no child is alive |
| `ChatRuns.StoppedWithAChild` | high-performance-server-programming-linux/ch13/chatroom_server.cc:250-304 | a connection in the same batch is still served after that: a run that ends with a child alive |
| `ChatRuns.EndsWithoutChildren` | high-performance-server-programming-linux/ch13/chatroom_server.cc:243-384 | when the loop ends, one event of its last batch has set stop_server, and no child is left if and only if each connection behind that event either did not fork or had its child reaped later in the batch |
| `ChatRuns.EmptyAgain` | high-performance-server-programming-linux/ch13/chatroom_server.cc:250-335 | after a moment without children, the table is empty again exactly if every child forked in between was reaped |
| `ChatRoom.SegmentsCollide` | high-performance-server-programming-linux/ch13/chatroom_server.cc:291-303 | after a reap the next child gets a memory segment of its own if and only if the reaped entry was the last |
| `ChatRuns.OwnThroughout` | high-performance-server-programming-linux/ch13/chatroom_server.cc:391-395 | in every run, the living children have memory segments of their own throughout if and only if every fork finds the segment g_user_count unused |
| `ChatRuns.TwoChildrenOneSegment` | high-performance-server-programming-linux/ch13/chatroom_server.cc:391-395 | a run with two living children on one segment, against the note that each writes only to its own |
| `ParallelAccumulate.Parallel` | cpp-concurrency-in-action/ch2_线程的基本管控/parallel_accumulate.cpp:22-57 | for every sequence, hardware thread count (0 included), schedule of the threads and associative operation with identity, the result is the left fold from init |
| `ParallelAccumulate.RunThreads` | cpp-concurrency-in-action/ch2_线程的基本管控/parallel_accumulate.cpp:39-54 | whatever the order in which the threads advance, each result is the fold of its block from T() |
| `ParallelAccumulate.Cut` | cpp-concurrency-in-action/ch2_线程的基本管控/parallel_accumulate.cpp:34-49 | the blocks are contiguous, cover the range, have block_size elements each, and the last one fewer than block_size + num_threads |
| `ParallelAccumulate.BlocksFit` | cpp-concurrency-in-action/ch2_线程的基本管控/parallel_accumulate.cpp:29-34 | there is a thread, no more threads than elements, no block is empty and the last holds what is left |
| `ParallelAccumulate.NumThreads` | cpp-concurrency-in-action/ch2_线程的基本管控/parallel_accumulate.cpp:29-32 | no more threads than the hardware has, 2 if unknown, and no more than it takes for 25 elements each; fewer than the hardware only if that is enough |
| `ParallelAccumulate.BlocksInside` | cpp-concurrency-in-action/ch2_线程的基本管控/parallel_accumulate.cpp:39-49 | every block is non-empty and inside the range |
| `ParallelAccumulate.FoldOfBlocks` | cpp-concurrency-in-action/ch2_线程的基本管控/parallel_accumulate.cpp:56 | folding the results of the first blocks from init equals folding their elements from init |
| `ParallelAccumulate.AccumulateFromZero` | cpp-concurrency-in-action/ch2_线程的基本管控/parallel_accumulate.cpp:18 | a fold from the identity, put behind x, is a fold from x |
| `ProducerConsumer.DeliveredInOrder` | cpp-concurrency-in-action/ch4_等待事件或等待其他条件/condition_variable.cpp:19-45 | in every interleaving, what was printed, then what the consumer holds, then the queue are 0, 1, 2, ... up to the last number pushed |
| `ProducerConsumer.NoLostWakeUp` | cpp-concurrency-in-action/ch4_等待事件或等待其他条件/condition_variable.cpp:21-35 | never both threads at the queue; when the consumer sleeps beside a non-empty queue, the producer is on its way to notify |
| `ProducerConsumer.NeverStuck` | cpp-concurrency-in-action/ch4_等待事件或等待其他条件/condition_variable.cpp:17-46 | no thread can move exactly if both have returned; the consumer returns with everything printed and the queue empty |
| `ProducerConsumer.RunsAreShort` | cpp-concurrency-in-action/ch4_等待事件或等待其他条件/condition_variable.cpp:17-46 | a run has at most 35 (last + 1) + 6 steps, and seven more for each spurious wake-up |
| `ProducerConsumer.RunKeepsInv` | cpp-concurrency-in-action/ch4_等待事件或等待其他条件/condition_variable.cpp:17-46 | the invariant of mutex, queue and loops holds after every interleaving |
| `ProducerConsumer.ProducerTurn` | cpp-concurrency-in-action/ch4_等待事件或等待其他条件/condition_variable.cpp:19-26 | at a free mutex the producer pushes its number, frees the mutex and wakes a sleeping consumer by its own steps |
| `ProducerConsumer.ConsumerTurn` | cpp-concurrency-in-action/ch4_等待事件或等待其他条件/condition_variable.cpp:32-45 | at a free mutex and with a non-empty queue the consumer prints the front by its own steps, and returns exactly if that was the last number |
| `ProducerConsumer.ConsumerSleeps` | cpp-concurrency-in-action/ch4_等待事件或等待其他条件/condition_variable.cpp:35 | with an empty queue it falls asleep, leaving the mutex free, and has no step until notified |
| `ProducerConsumer.StepsRunOut` | cpp-concurrency-in-action/ch4_等待事件或等待其他条件/condition_variable.cpp:17-46 | every step but a spurious wake-up leaves fewer steps to go |
| `ProducerConsumer.Program.Execute` | cpp-concurrency-in-action/ch4_等待事件或等待其他条件/condition_variable.cpp:47-53 | under every scheduler both threads return, with all numbers printed in order |
| `ProducerConsumer.ProducerKeepsInv` | cpp-concurrency-in-action/ch4_等待事件或等待其他条件/condition_variable.cpp:19-26 | every step of the producer keeps the order of the numbers, the mutex's owner, the notification due to a sleeper and the place in the loops |
| `ProducerConsumer.ConsumerKeepsInv` | cpp-concurrency-in-action/ch4_等待事件或等待其他条件/condition_variable.cpp:32-45 | every step of the consumer keeps the same |
| `MedianFinder.MedianFinder.AddNum` | cpp-living-code/sort/heap_sort/priority_queue.cpp:14-31 | the smaller half followed by the larger is the stream in order, the larger having as many or one more |
| `MedianFinder.MedianFinder.FindMedian` | cpp-living-code/sort/heap_sort/priority_queue.cpp:33-35 | the median for odd length; for even length the median without its fraction, towards zero, which is the median if and only if the sum of the two middle numbers is even |
| `MedianFinder.HalfIsLost` | cpp-living-code/sort/heap_sort/priority_queue.cpp:33-35 | after 1 and 2 findMedian gives 1 where the median is 1.5 |
| `MedianFinder.ThroughHigh` | cpp-living-code/sort/heap_sort/priority_queue.cpp:18-23 | a number pushed to the larger half, whose least moves down, leaves two halves in order with the number added |
| `MedianFinder.ThroughLow` | cpp-living-code/sort/heap_sort/priority_queue.cpp:26-31 | the same the other way round |
| `MedianFinder.HalvesAreSorted` | cpp-living-code/sort/heap_sort/priority_queue.cpp:8-9 | two such halves make up the stream in order |
| `MedianFinder.AscendingUnique` | cpp-living-code/sort/heap_sort/priority_queue.cpp:33-35 | there is only one order of the same numbers, so the tops are the middle elements |

## Left out

- 32-bit overflow of `rows * cols + 2` (grids beyond 46339), of `heap1.top() + heap2.top()` and of the tick and expire arithmetic: integers are unbounded.
- ParallelAccumulate.Parallel: integer overflow in `length + min_per_thread - 1` is not modelled, and iterators are positions in a sequence; a data race cannot arise because each thread has its own result, which is an array element here.
- ParallelAccumulate.RunThreads: threads are interleaved element by element by an arbitrary schedule; starting and joining them is not modelled.
- HierarchicalMutex.NoDeadlock: threads and mutexes are values in a state machine, because the steps of several threads interleave inside `lock` and `unlock`; the objects and their fields are in `HierarchicalLocks`, for one thread at a time.
- HierarchicalLocks.HierarchicalMutex.Lock: a call that falls asleep is reported as an outcome; when it wakes up is in `HierarchicalMutex` only.
- MedianFinder.MedianFinder.AddNum: a `std::priority_queue` is the ascending sequence of its elements, not a heap in a vector.
- TimeHeap.TimeHeap.AddTimer: the `std::set` is the sequence in comparator order, not a balanced tree; shared ownership of timers and the unused fields `capacity` and `cur_size` are not modelled.
- TimeWheel.TimeWheel.Tick: a callback is recorded by the timer it belongs to; what it does with the user data is not modelled.
- TimeWheel.TimeWheel.DelTimer: deleting a timer that fired or was deleted before is outside its precondition, as it is undefined in the source; freeing memory and the destructor are not modelled.
- TimersAgree.ExecuteList: a timer is cancelled only while it is pending; the source frees it when it runs or is cancelled, so that any other cancellation is undefined.
- TimersAgree.ExecuteSet: a new timer never has the address of one still in the set, which shares ownership of it.
- SortedTimerList.SortedTimerLst.AdjustTimer: a timer taken out from inside the list keeps stale links until it is linked in again, as in the source; freeing memory and the destructor are not modelled.
- PercolationStats.PercolationStats.Run: values are exact fractions of type `real` where the source rounds to double; mean, standard deviation and confidence interval are left out.
- PercolationStats.PercolationStats.Shuffle: the random numbers are arbitrary in their range, and their distribution is not modelled.
- IdleServer.IdleServer.Receive: the contents of the buffers, and an EPOLLIN for a descriptor that was closed before, are not modelled.
- IdleServer.IdleServer.Accept: a failing `accept`, where the source goes on with users[-1], is outside its precondition.
- ChatRoom.Parent.Broadcast: what the children do with a message, and failing sends, are not modelled; the children themselves, pipes and shared memory contents are left out.
- ProducerConsumer.Program.Execute: the system may wake the consumer for nothing any number of times, but not forever.
- `toString`, the `main` programs and the client of UnionFind.java.
- Sockets, epoll, signals, pipes, fork, shared memory and printing, beyond the events above.
- `nonactive_conn2.cc`, which mixes the interfaces of two timer structures.
- `SmartPtr`, `List.cc`, the stacks, the alternating printers and the pattern demonstrations: no harder property than the ones here.
