# Verified models of the DART runtimes and DASH examples

This project models the algorithms of the repository whose correctness is not visible in their
code, and proves what they promise. `dafny verify dfyconfig.toml` checks everything.

Protocols are state machines whose steps are the atomic operations of the code; a run is any
interleaving by any number of participants. Algorithms that rewrite arrays, lists or nodes are
methods over the same arrays, lists and nodes, proved against functions of the values before.

- **Queue lock** (`QueueLock`): one shared tail word, one `next` word per unit, one message per
  hand-over. An inductive invariant says that tail word, `next` words, pending link writes and
  messages under way describe one duplicate-free queue. From it: mutual exclusion, hand-over in the
  order of the tail swaps, one notification at a time, no deadlock, and that everybody's turn can
  come (`TurnComes`). Mutual exclusion is about
  "acquire has returned and release has not been called": the flags themselves can both be set
  while the previous owner finishes its release (`FlagsDoOverlap`).
- **Minimum-degree ordering** (`EliminationGraph`, `MinDegree`, `MatrixReader`): the theorem that
  reachability through eliminated vertices is adjacency in the elimination graph, the worklist
  search that computes it, and the elimination loop, which recomputes degrees only around the pivot
  and still picks a true minimum-degree vertex each time. The reader of the matrix file produces the
  graph this needs exactly when the file lists every edge once.
- **Buddy allocator** (`BuddyTree`, `BuddySize`, `BuddyHeap`, `Buddy`): trees as values with the laws
  of allocating and freeing; the encoding of a tree in a byte array, in which entries below an unused
  or used node are stale; the array algorithms themselves. Machine words matter. The power-of-two
  test looks at 32 bits and the rounded size passes through `int`, so that rounding is right exactly
  as `HonouredExactly` says: from one byte to 2^34 bytes a request gets the least block that holds it.
  The size looked for is zero exactly as `RoundedSizeZero` says, and then
  the search writes behind the end of the tree exactly if a unit is free (`Alloc`). Byte offsets are
  right in every pool up to level 28; from level 29 on a block at unit 2^28 or above gets a wrong
  one, and passing it to `dart_buddy_free` does not release the block (`AllocThenFree`,
  `SecondHalf`).
- **LFSR jump-ahead** (`Lfsr`): the start of a unit's random stream by square-and-multiply. That
  folding the position into [0, PERIOD] is right needs PERIOD steps to lead back to 1, which is
  proved too, so the result holds for every 64-bit position.
- **Free-list allocator** (`MemoryRanges`, `LinkedList`, `Membucket`): what a sorted list of free
  ranges says about addresses, and the linked lists that hold it. Releasing what was handed out
  restores the free list exactly if it was not empty (`AllocThenFree`): an empty range that is
  released stays in the list.
- **LCG in double precision** (`Division`, `ModularPowers`, `Randlc`): every floating-point operation
  is exact, so one call multiplies modulo 2^46; the sequence has period 2^44; the seed of a unit is
  the documented one exactly when 2^44 divides the rank times the excess of the share over a power
  of two (`SeedStartsShare`).
- **Segment table** (`SegmentIds`, `SegmentTable`): where identifiers are, and the hash table with
  its two free lists, as a finite map from identifiers to elements. The documentation of
  `dart_segment_alloc` promises an empty object; an element from a free list comes back as it was
  when it was freed. `AllocSegment` says exactly when the object is empty, and `RecycledSegment`
  allocates, writes, frees and allocates again.
- **Index spaces** (`Cartesian`): linear indices and coordinates in any number of dimensions and both
  memory orders, with cached offsets, and views. The overload of `at` that takes a view ignores the
  order it is asked for and uses that of the class; `ViewOrderIsHonoured` says for which extents that
  makes no difference.
- **Barrier** (`Barrier`): the reusable barrier whose wait is guarded by `if`. It is right without
  spurious wakeups, and then nobody is ever stuck in it (`NobodyIsStuck`). With them it is right in
  every run exactly if there is at most one process (`RobustExactly`).
- **Work queue** (`WorkQueue`): a ring buffer, and the monitor around it that signals only at the
  empty and the full boundary; the runs of the monitor rewrite the ring. Wakeups suffice exactly
  with at most one producer (`WakeupsSufficeExactly`). The helper is never the one forgotten, so that
  no item is stuck, however many producers there are (`OldestItemIsPopped`).
- **Groups and team ids** (`Groups`): translation arrays, set operations, splitting, and the ids sent
  to the members of a new team. Union and intersection clear the target while they read, which
  matters when the target is an operand: `Union` and `Intersect` say exactly when the result is right
  all the same, and `UnionInPlace`, `UnionWithItself` and `IntersectInPlace` are calls where it is not.

## Model

| member | source | states |
|---|---|---|
| `QueueLock.InitInv` | dart-impl/mpi/src/dart_synchronization.c:72-125 | after initialisation the tail and all `next` words are -1 and the queue invariant holds |
| `QueueLock.AcquireInv` | dart-impl/mpi/src/dart_synchronization.c:139-187 | swapping the tail appends the unit to the queue, and it owns the lock at once exactly if the queue was empty; acquiring while holding changes nothing |
| `QueueLock.TryAcquireInv` | dart-impl/mpi/src/dart_synchronization.c:235-294 | an empty queue gets the unit as its owner; otherwise nothing changes |
| `QueueLock.LinkInv` | dart-impl/mpi/src/dart_synchronization.c:195-219 | the predecessor's `next` word names the unit, and the queue is the same |
| `QueueLock.ReceiveInv` | dart-impl/mpi/src/dart_synchronization.c:221-228 | the receiver is the head of the queue and becomes the owner; no other message is under way |
| `QueueLock.ReleaseInv` | dart-impl/mpi/src/dart_synchronization.c:296-337 | who holds the lock is the head; the tail is reset, which empties the queue, exactly if nobody is queued behind, and a unit that does not hold the lock changes nothing |
| `QueueLock.PollInv` | dart-impl/mpi/src/dart_synchronization.c:349-369 | polling reads either -1 or the successor in the queue, which waits for this unit |
| `QueueLock.SendInv` | dart-impl/mpi/src/dart_synchronization.c:374-375 | the sender leaves the queue, and the one message under way is for the new head |
| `QueueLock.ResetInv` | dart-impl/mpi/src/dart_synchronization.c:376-377 | the own `next` word is reset and the queue keeps all its links |
| `QueueLock.StepInv` | dart-impl/mpi/src/dart_synchronization.c:139-384 | every step of every unit keeps the invariant |
| `QueueLock.MutualExclusion` | dart-impl/mpi/src/dart_synchronization.c:139-384 | after any run, two units that are between a returned acquire and the release are the same unit |
| `QueueLock.FirstComeFirstServed` | dart-impl/mpi/src/dart_synchronization.c:175-233 | acquires return in the order of the tail swaps |
| `QueueLock.FlagsOverlapOnlyWhileFinishing` | dart-impl/mpi/src/dart_synchronization.c:323-379 | two flags are set only while one of the units is finishing its release |
| `QueueLock.FlagsDoOverlap` | dart-impl/mpi/src/dart_synchronization.c:323-379 | a run of two units after which both flags are set |
| `QueueLock.OneNotification` | dart-impl/mpi/src/dart_synchronization.c:226-227 | at most one message is under way, to the next owner, which waits for its sender |
| `QueueLock.ResetBeforeReentry` | dart-impl/mpi/src/dart_synchronization.c:374-379 | a unit that may enter the queue again has its `next` word reset |
| `QueueLock.PositionNeverGrows` | dart-impl/mpi/src/dart_synchronization.c:139-384 | the queue position of a waiting unit drops when the head leaves and never grows |
| `QueueLock.OnlyReleasesAdvanceTheTurn` | dart-impl/mpi/src/dart_synchronization.c:296-384 | the turn passes on by accepted releases alone, one unit each |
| `QueueLock.InternalStepsTerminate` | dart-impl/mpi/src/dart_synchronization.c:139-384 | steps inside calls that change something come to an end |
| `QueueLock.QuietMeansHandedOver` | dart-impl/mpi/src/dart_synchronization.c:323-379 | when nothing can move, the unit whose turn it is holds the lock and all others wait in line |
| `QueueLock.LockIsHandedOver` | dart-impl/mpi/src/dart_synchronization.c:323-379 | from every reachable state the calls in progress lead to the hand-over, in boundedly many steps |
| `QueueLock.CallsAreAlwaysPossible` | dart-impl/mpi/src/dart_synchronization.c:139-337 | in every reachable state of any number of units, every unit outside a call can acquire, try to acquire and release |
| `QueueLock.ReleaseHandsOver` | dart-impl/mpi/src/dart_synchronization.c:296-384 | when the holder releases with somebody behind it, the calls in progress alone lead to the next unit of the queue holding the lock |
| `QueueLock.TurnComes` | dart-impl/mpi/src/dart_synchronization.c:139-384 | from every reachable state, with no calls but releases, each unit that has swapped the tail and is not done can come to hold the lock |
| `EliminationGraph.ReachTheorem` | dash/examples/app.01.mindeg/main.cpp:361-403 | two remaining vertices are adjacent after eliminations exactly when a path through eliminated vertices joins them |
| `EliminationGraph.OnlyNeighboursChange` | dash/examples/app.01.mindeg/main.cpp:146-160 | eliminating a vertex changes the neighbourhoods of its own neighbours only |
| `EliminationGraph.ThroughTheStart` | dash/examples/app.01.mindeg/main.cpp:385-387 | skipping the start node in the search loses nothing |
| `MinDegree.GetReach` | dash/examples/app.01.mindeg/main.cpp:361-403 | the search ends and reports exactly the remaining nodes joined to the start through eliminated ones, each as often as the start lists it, or once |
| `MinDegree.ReachDistinct` | dash/examples/app.01.mindeg/main.cpp:367-381 | without duplicate neighbours nothing is reported twice |
| `MinDegree.ReachIsElimNeighbours` | dash/examples/app.01.mindeg/main.cpp:158-159 | the number of nodes reported is the degree in the elimination graph |
| `MinDegree.PivotReach` | dash/examples/app.01.mindeg/main.cpp:146-147 | the pivot, although already marked, reports its former neighbours |
| `MinDegree.FindMinDegreeNode` | dash/examples/app.01.mindeg/main.cpp:334-359 | no node is below the one found in the order by degree and id |
| `MinDegree.LeastNodeIsPivot` | dash/examples/app.01.mindeg/main.cpp:29-33 | with current degrees the least node is a remaining vertex of least degree, and of least id among those |
| `MinDegree.UpdateDegrees` | dash/examples/app.01.mindeg/main.cpp:149-160 | recomputing the degrees in the pivot's reach set makes all degrees current again |
| `MinDegree.Eliminate` | dash/examples/app.01.mindeg/main.cpp:127-162 | one step picks a true minimum-degree vertex and keeps every stored degree current |
| `MinDegree.MinDegreeOrdering` | dash/examples/app.01.mindeg/main.cpp:127-162 | the schedule is a permutation of the nodes, each a minimum-degree vertex of what is left, with its step recorded |
| `MatrixReader.SimpleIffEachEdgeOnce` | dash/examples/app.01.mindeg/main.cpp:258-270 | the neighbour lists form a simple graph exactly when no edge is listed twice |
| `MatrixReader.ReadNodes` | dash/examples/app.01.mindeg/main.cpp:252-304 | every node has its id, -1 as step, the other ends of its entries off the diagonal in the order of the file, and their number as degree; the nodes meet the ordering's needs exactly when each edge is listed once |
| `BuddyTree.BlocksDisjoint` | dart-impl/mpi/src/dart_mem.c:131-201 | live blocks do not overlap |
| `BuddyTree.SlotIsAligned` | dart-impl/mpi/src/dart_mem.c:110-114 | blocks are aligned to their size |
| `BuddyTree.TreeOfBlocks` | dart-impl/mpi/src/dart_mem.c:203-217 | the tree is a function of the set of live blocks |
| `BuddyTree.AllocCorrect` | dart-impl/mpi/src/dart_mem.c:150-195 | the search finds the leftmost free aligned block of the size, or there is none |
| `BuddyTree.FreeCorrect` | dart-impl/mpi/src/dart_mem.c:219-261 | freeing succeeds exactly at the start of a live block and removes that block |
| `BuddyTree.AllocThenFree` | dart-impl/mpi/src/dart_mem.c:131-261 | freeing what was just allocated restores the tree |
| `BuddyTree.FreesCommute` | dart-impl/mpi/src/dart_mem.c:203-261 | two frees leave the same tree in either order |
| `BuddyTree.FreeAllAnyOrder` | dart-impl/mpi/src/dart_mem.c:203-261 | freeing all live blocks in any order leaves one unused root |
| `BuddySize.Pow2TestExact` | dart-impl/mpi/src/dart_mem.c:62-65 | the bit trick accepts zero and the powers of two |
| `BuddySize.NextPow2Exact` | dart-impl/mpi/src/dart_mem.c:93-108 | rounding up is right up to 2^31; above, the test of the low word decides what comes out |
| `BuddySize.HonouredExactly` | dart-impl/mpi/src/dart_mem.c:133-143 | the size looked for is the least sufficient power of two, or refused, exactly under this condition |
| `BuddySize.RefusedMeansTooLarge` | dart-impl/mpi/src/dart_mem.c:137-143 | up to 2^31 units the early refusal means that the request exceeds the pool |
| `BuddySize.RoundedSizeZero` | dart-impl/mpi/src/dart_mem.c:133-137 | the size looked for is zero exactly for an empty request and for requests above 2^31 units whose lower word is zero or no power of two |
| `BuddySize.LargeRequestIsTruncated` | dart-impl/mpi/src/dart_mem.c:133-137 | a request of 2^32 + 1 units is treated as one of a single unit |
| `BuddySize.ByteOffsetExactly` | dart-impl/mpi/src/dart_mem.c:110-114 | the byte offset computed in `int` is right exactly below 2^28 units |
| `BuddySize.OffsetReturnsExactly` | dart-impl/mpi/src/dart_mem.c:110-225 | converted to an unsigned offset and back to units, it names the same unit exactly below 2^28 units |
| `BuddyHeap.LeftEdgeClosedForm` | dart-impl/mpi/src/dart_mem.c:110-114 | the formula for the offset of a node agrees with the way down to it |
| `BuddyHeap.TreeAfterChange` | dart-impl/mpi/src/dart_mem.c:150-195 | rewriting entries below one node changes the tree at that node only, whatever is stale elsewhere |
| `Buddy.Pool.MarkParent` | dart-impl/mpi/src/dart_mem.c:116-129 | afterwards a node is full exactly when both children are used or full, and the tree is the same |
| `Buddy.Pool.Search` | dart-impl/mpi/src/dart_mem.c:145-195 | the non-recursive search with back-tracking ends and does what leftmost first fit does on the tree, or leaves the array as it was; for size zero it leaves the tree where a search for one unit would end |
| `Buddy.Pool.Alloc` | dart-impl/mpi/src/dart_mem.c:131-201 | for every request: -1, an unchanged pool and no free block of the size; or the byte offset of the leftmost free block, which is now live, right exactly below unit 2^28 and always up to level 28; or writing behind the tree, exactly if the size looked for is zero and a unit is free. From 1 to 2^34 bytes the size is that of the least block that holds the bytes, and the tree is never left |
| `Buddy.FitsIsLeast` | dart-impl/mpi/src/dart_mem.c:133-137 | where a request is honoured, the blocks that fit are exactly those that hold its bytes while half of them would not |
| `Buddy.Pool.Combine` | dart-impl/mpi/src/dart_mem.c:203-217 | merging with unused siblings and repairing full ancestors removes the block from the tree |
| `Buddy.Pool.Free` | dart-impl/mpi/src/dart_mem.c:219-269 | releases exactly the live block whose first unit holds the byte at the offset; every other outcome leaves the pool as it was |
| `Buddy.AllocThenFree` | dart-impl/mpi/src/dart_mem.c:110-269 | passing the returned offset to the release restores the pool exactly if the block starts below unit 2^28, always up to level 28; otherwise the block stays live |
| `Buddy.SecondHalf` | dart-impl/mpi/src/dart_mem.c:110-269 | two requests in a pool of level 29, the second answered with -2^31, which releases nothing |
| `Buddy.Pool.constructor` | dart-impl/mpi/src/dart_mem.c:78-84 | a new pool has no live block |
| `Buddy.NewPool` | dart-impl/mpi/src/dart_mem.c:67-85 | for every size the assertion lets through: refused below a unit and above 2^51 bytes, beyond the range of `int` shifts above 2^33, otherwise an empty pool of the least power of two that covers the size |
| `Buddy.NumLevel` | dart-impl/mpi/src/dart_mem.c:42-60 | the least positive number of doublings that reaches the size, or the sentinel above 2^63 |
| `Lfsr.StepXor` | dash/examples/bench.03.gups/main.cpp:106-106 | one step is linear |
| `Lfsr.SquareLeft` | dash/examples/bench.03.gups/main.cpp:79-83 | the sum of the table entries chosen by a shifted word is two steps ahead |
| `Lfsr.SquareStep` | dash/examples/bench.03.gups/main.cpp:79-92 | a step before the selection is two steps after it |
| `Lfsr.SquareDoubles` | dash/examples/bench.03.gups/main.cpp:89-92 | selecting table entries by the bits of the e-th element gives element 2e |
| `Lfsr.FastSquareDoubles` | dash/examples/bench.03.gups/main.cpp:89-92 | the same without a table, by spreading the bits |
| `Lfsr.PowerPeriods` | dash/examples/bench.03.gups/main.cpp:72-73 | multiples of PERIOD lead back to 1 |
| `Lfsr.Fold` | dash/examples/bench.03.gups/main.cpp:72-73 | the folded position is in [0, PERIOD] and names the same element |
| `Lfsr.Table` | dash/examples/bench.03.gups/main.cpp:78-83 | the table holds every second element |
| `Lfsr.Squared` | dash/examples/bench.03.gups/main.cpp:89-92 | one round of the inner loop doubles the position |
| `Lfsr.TopBitOf` | dash/examples/bench.03.gups/main.cpp:85-85 | the highest set bit of the position |
| `Lfsr.Starts` | dash/examples/bench.03.gups/main.cpp:66-97 | the result is n steps from 1, for a negative n backwards |
| `MemoryRanges.TakenTiles` | dart-impl/shmem/src/dart_membucket.c:112-127 | handing out the first bytes of a free entry keeps the tiling, the bytes and the gaps |
| `MemoryRanges.FirstFitIsLowest` | dart-impl/shmem/src/dart_membucket.c:99-110 | first fit finds the lowest run of free addresses that is long enough, or there is none |
| `MemoryRanges.MeltedSeparated` | dart-impl/shmem/src/dart_membucket.c:176-200 | after melting no two entries touch |
| `MemoryRanges.MeltedCovers` | dart-impl/shmem/src/dart_membucket.c:176-200 | melting keeps the addresses covered and their number |
| `MemoryRanges.ReleasedTiles` | dart-impl/shmem/src/dart_membucket.c:84-93 | a release keeps the tiling, the bytes and the gaps |
| `MemoryRanges.FreeListIsDetermined` | dart-impl/shmem/src/dart_membucket.c:70-130 | the free list is a function of the entries handed out |
| `MemoryRanges.AllReleased` | dart-impl/shmem/src/dart_membucket.c:39-94 | when nothing is handed out, the free list is the one entry of the new bucket |
| `MemoryRanges.AllocThenFree` | dart-impl/shmem/src/dart_membucket.c:70-130 | releasing what was just handed out restores the free list exactly if it was not an empty range |
| `MemoryRanges.ReleasesCommute` | dart-impl/shmem/src/dart_membucket.c:70-94 | two releases leave the same free list in either order |
| `Membucket.RemoveListEntry` | dart-impl/shmem/src/dart_membucket.c:149-160 | the list without that entry |
| `Membucket.PushFront` | dart-impl/shmem/src/dart_membucket.c:166-174 | the list with a new first entry |
| `Membucket.InsertSorted` | dart-impl/shmem/src/dart_membucket.c:206-231 | the list with the entry before the first that starts above it |
| `Membucket.Melt` | dart-impl/shmem/src/dart_membucket.c:176-200 | the list with touching neighbours merged from the left, in place |
| `Membucket.Bucket.constructor` | dart-impl/shmem/src/dart_membucket.c:39-53 | one free entry, nothing handed out; in order exactly if the size is not zero |
| `Membucket.Bucket.Alloc` | dart-impl/shmem/src/dart_membucket.c:96-130 | the first free range that is long enough gives its first bytes, or null and nothing changed; in a bucket in order and for more than zero bytes that is the lowest run of unused bytes, and the bucket stays in order |
| `Membucket.Bucket.Release` | dart-impl/shmem/src/dart_membucket.c:70-94 | takes back the last entry handed out at the address, or reports 1 and changes nothing; a bucket in order stays in order |
| `Randlc.HalvesGiveProduct` | dash/examples/bench.04.histo-tf/main.cpp:240-254 | the halves give A * X modulo 2^46, and every conversion and intermediate value is in range |
| `Randlc.Statics.Initialise` | dash/examples/bench.04.histo-tf/main.cpp:216-230 | the scale factors are the powers of two and their inverses, computed once |
| `Randlc.Divide` | dash/examples/bench.04.histo-tf/main.cpp:234-254 | scaling, truncating and subtracting gives quotient and remainder exactly |
| `Randlc.Cross` | dash/examples/bench.04.histo-tf/main.cpp:247-251 | the sum of two products is exact |
| `Randlc.Randlc` | dash/examples/bench.04.histo-tf/main.cpp:205-256 | stores A * X modulo 2^46, also when both arguments are the same cell, and returns it over 2^46 |
| `Randlc.NextElement` | dash/examples/bench.04.histo-tf/main.cpp:106-109 | each call moves on by one number of the sequence |
| `Randlc.Log2Is` | dash/examples/bench.04.histo-tf/main.cpp:280-282 | the halvings count the largest power of two that is not above the share |
| `Randlc.Squarings` | dash/examples/bench.04.histo-tf/main.cpp:284-288 | repeated squaring in place gives the multiplier for 2^mq numbers |
| `Randlc.HalfWay` | dash/examples/bench.04.histo-tf/main.cpp:292-302 | one round of the loop over the rank's bits keeps the number that is left to reach |
| `Randlc.Jump` | dash/examples/bench.04.histo-tf/main.cpp:289-302 | the loop ends before its bound and reaches the number at the rank |
| `Randlc.FindMySeed` | dash/examples/bench.04.histo-tf/main.cpp:270-307 | s * a^(kn * 2^mq) modulo 2^46 with 2^mq the largest power of two not above nn / np; for an odd s and an a that is five modulo eight that is the documented first number of the share exactly if 2^44 divides kn times the excess of the share over 2^mq |
| `Randlc.SameElement` | dash/examples/bench.04.histo-tf/main.cpp:258-269 | for the multipliers in use, two positions hold the same number exactly when they differ by a multiple of 2^44 |
| `Randlc.SeedStartsShare` | dash/examples/bench.04.histo-tf/main.cpp:258-269 | for a share q with q * np <= nn < (q + 1) * np, exactly when the seed is the first number of the unit's own share, as documented |
| `Randlc.SeedMissesShare` | dash/examples/bench.04.histo-tf/main.cpp:258-307 | three units and 2^27 numbers, where it is not |
| `ModularPowers.OrderOfFive` | dash/examples/bench.04.histo-tf/main.cpp:92-101 | powers of a multiplier that is five modulo eight return to one modulo 2^(k+2) exactly at multiples of 2^k |
| `SegmentIds.ExhaustedExactly` | dart-impl/mpi/src/dart_segment.c:104-136 | no identifier of a sign is left exactly when 32766, or 32767, segments of that sign are live |
| `SegmentIds.Moves` | dart-impl/mpi/src/dart_segment.c:304-328 | moving an element between its bucket and its free list keeps every used identifier in one place |
| `SegmentIds.Introduces` | dart-impl/mpi/src/dart_segment.c:116-118 | the next identifier is new, and the identifiers used are those between the counters |
| `SegmentTable.Table.constructor` | dart-impl/mpi/src/dart_segment.c:72-84 | the map is empty at first |
| `SegmentTable.Table.GetSegment` | dart-impl/mpi/src/dart_segment.c:38-60 | the element that the map holds for the identifier, the only one of its bucket with it, or null if the segment is not live |
| `SegmentTable.Table.GetFlags` | dart-impl/mpi/src/dart_segment.c:241-256 | the flags of the element in the map, or an error if there is none |
| `SegmentTable.Table.SetFlags` | dart-impl/mpi/src/dart_segment.c:258-273 | changes the flags of that element and nothing else in any element |
| `SegmentTable.Table.AllocSegment` | dart-impl/mpi/src/dart_segment.c:91-147 | null only when the identifiers are used up; otherwise the map gains one entry of the right sign and keeps all others; the record is new with all fields zero, or the first of the free list as it was left; empty exactly for local segments, for an empty free list, or if that first element was empty |
| `SegmentTable.Table.FreeSegment` | dart-impl/mpi/src/dart_segment.c:296-337 | the map loses just that entry, and the element, unchanged, heads the free list of its sign |
| `SegmentTable.RecycledSegment` | dart-impl/mpi/src/dart_segment.c:86-337 | allocating, setting flags, freeing and allocating again gives a record with those flags, in every table |
| `SegmentTable.Table.Fini` | dart-impl/mpi/src/dart_segment.c:339-380 | every element ever created is released exactly once |
| `Cartesian.RowIndexThenCoords` | dash/include/dash/Cartesian.h:446-512 | row-major indices of points are in range, and the coordinates of the index are the point |
| `Cartesian.RowCoordsThenIndex` | dash/include/dash/Cartesian.h:446-512 | coordinates of an index in range are in the box, and their index is the index |
| `Cartesian.RowOrderIsLexicographic` | dash/include/dash/Cartesian.h:374-376 | row-major order is the lexicographic order of points |
| `Cartesian.ColIsReversedRow` | dash/include/dash/Cartesian.h:377-380 | column-major is row-major with the dimensions reversed |
| `Cartesian.ColOrderIsReverseLexicographic` | dash/include/dash/Cartesian.h:377-380 | column-major order compares points from the last coordinate on |
| `Cartesian.IndexAndCoordsInverse` | dash/include/dash/Cartesian.h:446-518 | in both orders indices and points of the box correspond one to one |
| `Cartesian.ViewIsEnumerated` | dash/include/dash/Cartesian.h:525-557 | counting through a view visits every point of its box exactly once |
| `Cartesian.FillOffsets` | dash/include/dash/Cartesian.h:372-380 | the offsets are the products of the extents that run faster |
| `Cartesian.IndexSpace.Resize` | dash/include/dash/Cartesian.h:362-381 | size and both sets of offsets belong to the new extents |
| `Cartesian.IndexSpace.ResizeDimension` | dash/include/dash/Cartesian.h:384-387 | the same with one extent changed |
| `Cartesian.IndexSpace.At` | dash/include/dash/Cartesian.h:446-471 | the linear index of a point of the box |
| `Cartesian.IndexSpace.AtView` | dash/include/dash/Cartesian.h:479-490 | the linear index, in the order of the class, of a point given relative to a view, whatever order is asked for |
| `Cartesian.ViewOrderIsHonoured` | dash/include/dash/Cartesian.h:479-490 | the result is the index asked for at every point exactly if the two orders are the same or at most one extent exceeds one |
| `Cartesian.ViewDropsTheOrder` | dash/include/dash/Cartesian.h:479-490 | a row-major space of two by three and a point whose column-major index is 2, where 1 is returned |
| `Cartesian.IndexSpace.CoordsAt` | dash/include/dash/Cartesian.h:496-518 | the point of the box whose linear index is given |
| `Cartesian.CoordsInView` | dash/include/dash/Cartesian.h:525-557 | the point of the view's box whose position in the view is given |
| `Barrier.StepInv` | dart-impl/shmem/src/shmem_barriers_sysv.c:229-244 | every step except a spurious wakeup keeps mutex, counter and round counts consistent |
| `Barrier.NobodyLeavesEarly` | dart-impl/shmem/src/shmem_barriers_sysv.c:229-244 | without spurious wakeups, nobody leaves a round before everybody has arrived in it |
| `Barrier.RoundsStayClose` | dart-impl/shmem/src/shmem_barriers_sysv.c:229-244 | without spurious wakeups, any two processes are at most one round apart |
| `Barrier.CounterCountsThisRound` | dart-impl/shmem/src/shmem_barriers_sysv.c:232-240 | processes woken but not yet resumed do not count for the next round |
| `Barrier.NobodyIsLeftBehind` | dart-impl/shmem/src/shmem_barriers_sysv.c:229-244 | without spurious wakeups, once all have arrived and nothing moves any more, all have left |
| `Barrier.MutexIsForEverybody` | dart-impl/shmem/src/shmem_barriers_sysv.c:231-236 | while the mutex is free, every process outside can enter and every woken one can go on |
| `Barrier.QuietMeansWaiting` | dart-impl/shmem/src/shmem_barriers_sysv.c:229-244 | without spurious wakeups, once nothing moves any more everybody is outside or waits for the round now filling up, and has left all others |
| `Barrier.EveryRoundCompletes` | dart-impl/shmem/src/shmem_barriers_sysv.c:229-244 | for every number of processes and of rounds, some run without spurious wakeups lets every process leave exactly that many |
| `Barrier.NobodyIsStuck` | dart-impl/shmem/src/shmem_barriers_sysv.c:229-244 | from every state reachable without spurious wakeups, some run without them brings every process out, after as many rounds as one likes |
| `Barrier.InternalStepsTerminate` | dart-impl/shmem/src/shmem_barriers_sysv.c:229-244 | steps inside the barrier come to an end |
| `Barrier.SpuriousWakeupLeavesEarly` | dart-impl/shmem/src/shmem_barriers_sysv.c:233-236 | for any number of processes above one, a run with one spurious wakeup in which a process leaves before another has arrived |
| `Barrier.RobustExactly` | dart-impl/shmem/src/shmem_barriers_sysv.c:229-244 | with spurious wakeups nobody leaves early in any run exactly if there is at most one process |
| `WorkQueue.Ring.constructor` | dart-impl/shmem/src/dart_helper_thread.c:13-23 | an empty ring with every slot marked as no work |
| `WorkQueue.Ring.Pop` | dart-impl/shmem/src/dart_helper_thread.c:42-55 | takes the oldest item, as the monitor's step does, and signals when the ring was full |
| `WorkQueue.Ring.Push` | dart-impl/shmem/src/dart_helper_thread.c:69-83 | appends an item and overwrites none, as the monitor's step does, and signals when the ring was empty |
| `WorkQueue.FirstInFirstOut` | dart-impl/shmem/src/dart_helper_thread.c:33-85 | in every run of the monitor over the ring, with any number of producers, the items popped are a prefix of those pushed and the ring holds the rest in order |
| `WorkQueue.NobodySleepsReady` | dart-impl/shmem/src/dart_helper_thread.c:33-85 | with one producer nobody sleeps on while it could go on |
| `WorkQueue.NotBothAsleep` | dart-impl/shmem/src/dart_helper_thread.c:33-85 | producer and helper do not sleep at the same time |
| `WorkQueue.SecondProducerIsForgotten` | dart-impl/shmem/src/dart_helper_thread.c:50-56 | with two producers a reachable state where one sleeps for ever although there is room |
| `WorkQueue.WakeupsSufficeExactly` | dart-impl/shmem/src/dart_helper_thread.c:33-85 | no wakeup is lost exactly when there is at most one producer |
| `WorkQueue.LockIsForEverybody` | dart-impl/shmem/src/dart_helper_thread.c:33-62 | while the lock is free, every idle thread can call and every woken one can go on; a sleeper can be woken without reason at any time |
| `WorkQueue.QuietMeansAsleep` | dart-impl/shmem/src/dart_helper_thread.c:33-85 | when nothing moves any more every thread is outside or asleep, the helper only on an empty ring, a single producer only on a full one |
| `WorkQueue.InternalStepsTerminate` | dart-impl/shmem/src/dart_helper_thread.c:33-85 | without calls and spurious wakeups the threads come to rest |
| `WorkQueue.ThreadsComeToRest` | dart-impl/shmem/src/dart_helper_thread.c:33-85 | from every reachable state the calls in progress lead to one in which nothing moves any more |
| `WorkQueue.HelperNeverSleepsReady` | dart-impl/shmem/src/dart_helper_thread.c:33-85 | with any number of producers, the helper does not sleep on while there is work |
| `WorkQueue.OldestItemIsPopped` | dart-impl/shmem/src/dart_helper_thread.c:33-85 | with any number of producers, from every reachable state with work in the ring, some run pops the oldest item next |
| `Groups.Group.Rebuild` | dart-impl/shmem/src/dart_groups_impl.c:46-65 | the members stay, and both translations number them in ascending order |
| `Groups.Ascending` | dart-impl/shmem/src/dart_groups_impl.c:46-65 | local ids ascend with global ids and the translations are inverse |
| `Groups.Union` | dart-impl/shmem/src/dart_groups_impl.c:68-87 | the members of both groups, where an operand that is the target counts as empty; that is the union exactly if the rest has all members of the operands left out |
| `Groups.Intersect` | dart-impl/shmem/src/dart_groups_impl.c:90-110 | the common members, where an operand that is the target counts as empty; that is the intersection exactly if no operand is the target or there are no common members |
| `Groups.UnionInPlace` | dart-impl/shmem/src/dart_groups_impl.c:68-87 | adding {5} to {3} in place gives {5} |
| `Groups.UnionWithItself` | dart-impl/shmem/src/dart_groups_impl.c:68-87 | the union of {3} with itself, in place, is empty |
| `Groups.IntersectInPlace` | dart-impl/shmem/src/dart_groups_impl.c:90-110 | intersecting {3} with {3, 5} in place leaves nothing |
| `Groups.AddMember` | dart-impl/shmem/src/dart_groups_impl.c:112-118 | one more member |
| `Groups.DelMember` | dart-impl/shmem/src/dart_groups_impl.c:120-126 | one member less |
| `Groups.StartsSplit` | dart-impl/shmem/src/dart_groups_impl.c:160-168 | the parts are consecutive, cover the group and differ in size by at most one |
| `Groups.Split` | dart-impl/shmem/src/dart_groups_impl.c:156-181 | the parts are disjoint, together have the members of the group, have the sizes of their stretches, and each holds the members with the local ids of its stretch |
| `Groups.NewTeamIds` | dart-impl/shmem/src/dart_teams_impl.c:101-139 | the ids sent out are the members' local ids in the group |

## Left out

- Several locks that share one communicator and tag, several threads in one unit, and destroying a lock.
- How MPI carries out an atomic operation, a flush or a message: each is one step, as MPI 3.1 promises in sections 3.5, 11.3.4 and 11.7.1.
- MinDegree.UpdateDegrees: the units update the degrees of their own nodes side by side; the model does it in one loop, which gives the same because the search reads no degrees.
- MinDegree.FindMinDegreeNode: the distributed minimum search is modelled as one loop; `min_element` is not part of this model.
- MatrixReader.ReadNodes: takes the index pairs of the file; opening and parsing the file, and the unfinished adjacency format.
- Buddy.Pool.Alloc: once the search has written behind the end of the tree, nothing is promised, because what lies there is not part of this model.
- Buddy.Pool: levels up to 30, where the shifts of the code stay within `int`; the mutex, so every operation is one step; the logging and aborting paths, of which only the outcome is kept.
- Buddy.NewPool: a pool above level 30 is only reported as such, because the shifts by its level in `int` are undefined.
- Lfsr: the update loop that XORs the table and its verification, which race by design.
- Membucket.Bucket.Alloc: after a request of zero bytes the lists are described by the same functions, but the bucket is not said to be in order any more; alignment, which the code marks as to be done.
- Membucket: destroying a bucket and printing one.
- Randlc.Double: a double is a significand with a scale that is not normalised; infinities, NaN and negative zero do not occur.
- SegmentTable.Table: each chain is one sequence instead of elements joined by `next` words, and the two free lists stand behind the buckets in one array; unlinking by pointers is modelled for the free-list allocator.
- SegmentTable.Table.FreeSegment: the local segment, which the code asserts is not freed.
- SegmentTable.Table.Fini: freeing the displacement and base pointer arrays of a record.
- Cartesian.IndexSpace: products of extents that exceed the integer type; tiled layouts.
- Barrier: the table of team barriers with its slots, and destroying a barrier.
- WorkQueue: what the helper thread does with an item, and shutdown.
- Groups.NewTeamIds: the messages and barriers of team creation; only the ids sent are modelled. All members have global ids below the number of units.
- Groups.Split: the parts are different objects from the group and from each other, because creating a part clears it.
- All other modules: wrappers over MPI windows, communicators and file formats, locality discovery, containers and iterators, sorting examples, input and output.
