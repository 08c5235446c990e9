# Verified models of the notebook's infrastructure and algorithms

Dafny models of the stateful headers under `code/infra` and `code/mini_stl`, of the graph, grid and
selection algorithms in `leetcode/medium`, and of the level-order binary tree, with proofs of what
those components are for. `dafny verify dfyconfig.toml` checks the project.

| file | models |
|---|---|
| `SpscRing.dfy` | the lock-free ring buffer: a two-thread transition system on wrapping 64-bit indices with stale acquire loads, and the class call by call |
| `HashTable.dfy` | open addressing with tombstones and the mutually recursive rehash, as a class over a bucket array |
| `LruCache.dfy` | what an LRU cache is (`LruSpec`), and the cache class on top of the hash table |
| `LruTraces.dfy` | inclusion, retention and freshness of hits over whole traces, and the cache class replaying a trace |
| `ThreadPool.dfy` | the monitor protocol: workers, submitters, destructor, spurious wakeups, arbitrary scheduler |
| `MemoryPool.dfy` | the intrusive free list, chunk carving, the debug ownership set |
| `ObjectPool.dfy` | objects on the pool and the move-only handles |
| `HandleRuns.dfy` | any number of handles on any number of pools, operation by operation |
| `Programs.dfy` | whole programs over pools, handles and plain pointers, against an address-free model of ownership |
| `CourseSchedule.dfy`, `Matrix01.dfy`, `KClosest.dfy`, `CloneGraph.dfy` | Kahn's algorithm, multi-source BFS, quickselect and bounded heap, graph cloning |
| `BinaryTree.dfy` | level-order construction and traversal, complete trees, height |
| `Words.dfy`, `Counting.dfy`, `Wrappers.dfy` | 64-bit words and bit masks, occurrence counts, optional values |

How the ring is modelled. Each atomic index is its modification order. An acquire load returns any
entry from the newest one its thread has read up to the current one (read-read coherence, section
6.9.2.1 of ISO/IEC 14882:2020) and learns of every buffer access made before that entry was released
(section 31.4). Entry numbers are the unbounded counters, the stored words wrap, so one invariant
relates both. A slot that has been moved from holds nothing readable.

Where the code and its comments differ:

- `push` and `pop` are described as failing when the ring is full or empty. With a stale refresh load
  they may fail on a ring that is neither (`StaleLoadFailsPush`, `StaleLoadFailsPop`). A push can fail
  exactly if N elements are outstanding as far as the producer has read, a pop exactly if none is as far
  as the consumer has read (`PushMayFail`, `PopMayFail`); a caller learns this number from `size()`
  (`SizeIsKnowledge`), and room or stock so known cannot be lost again (`KnownRoomSuffices`,
  `KnownStockSuffices`). With current loads the description is right.
- A "double free" is said to be a pointer already deallocated (code/infra/memory_pool_safe.h:51-53).
  Every pointer already deallocated and not handed out again is reported so; a reported one had been
  deallocated exactly if `allocate` ever returned it (`DoubleFreeExactly`). Addresses inside a block
  (`InteriorPointer`) and blocks of a chunk not handed out yet (`FirstBlockReported`) are reported
  although nobody ever held them, and a deallocated pointer whose block has been handed out again is
  accepted, for it is outstanding (`Deallocate`).

The load factor test is `10 * (size + tombstones) > 7 * cap`; `LoadFactorIsExact` shows that comparing
the quotient with the double nearest to 0.7 decides the same for every power-of-two capacity up to 2^53.
That a count divided by such a capacity is a double without rounding is taken from the format.

## Model

| member | source | states |
|---|---|---|
| `SpscRing.Step` | code/infra/spsc_ring_buffer.h:37-103 | one atomic access or buffer access of either thread; keeps the buffer at N slots |
| `SpscRing.StepInv` | code/infra/spsc_ring_buffer.h:37-103 | every step of either thread keeps the index order, the slot contents and the happens-before bookkeeping |
| `SpscRing.IndexOrder` | code/infra/spsc_ring_buffer.h:38-46 | in every reachable state head_cache <= head <= tail_cache <= tail <= head_cache + N on unbounded counters, and the four words are those counters modulo 2^64 |
| `SpscRing.WordsRefineCounters` | code/infra/spsc_ring_buffer.h:87-101 | the wrapping full test, empty test, size difference and mask agree with exact arithmetic for every power-of-two N, however long the run |
| `SpscRing.NoDataRace` | code/infra/spsc_ring_buffer.h:92-101 | no buffer access conflicts with an access of the other thread it does not happen after; each read takes the value published for it |
| `SpscRing.StepRefines` | code/infra/spsc_ring_buffer.h:37-103 | each step is a legal step of one FIFO queue of capacity N or leaves the queue alone |
| `SpscRing.Linearizable` | code/infra/spsc_ring_buffer.h:27-62 | for every interleaving: answers are those of one bounded FIFO, popped values followed by outstanding ones are the pushed values, the buffer holds them, and with current refresh loads failures mean full or empty |
| `SpscRing.PushesAnswered` | code/infra/spsc_ring_buffer.h:84-103 | over every interleaving the pushes begun are answered one by one, each by a refusal or by pushing its own argument, at most the last being under way |
| `SpscRing.PopsAnswered` | code/infra/spsc_ring_buffer.h:37-62 | the pops begun are answered one by one, at most the last being under way |
| `SpscRing.Delivered` | code/infra/spsc_ring_buffer.h:27-62 | over every interleaving the arguments of the pushes not refused, in the order of the calls, are the values popped followed by those outstanding |
| `SpscRing.ProducerNeverWaits` | code/infra/spsc_ring_buffer.h:84-103 | in every reachable state the producer can begin a call or has a next step, whatever entry an acquire load returns; a call is over after four steps and no consumer step interferes |
| `SpscRing.ConsumerNeverWaits` | code/infra/spsc_ring_buffer.h:37-62 | the same for the consumer |
| `SpscRing.PushMayFail` | code/infra/spsc_ring_buffer.h:91-97 | some refresh load makes a push fail exactly if N elements are outstanding as far as the producer has read before it |
| `SpscRing.PopMayFail` | code/infra/spsc_ring_buffer.h:39-43 | some refresh load makes a pop fail exactly if no element is outstanding as far as the consumer has read before it |
| `SpscRing.PushBeginMayFail` | code/infra/spsc_ring_buffer.h:87-97 | the same before the call: a push can come to fail exactly if N elements are outstanding as far as the producer has read |
| `SpscRing.PopBeginMayFail` | code/infra/spsc_ring_buffer.h:38-43 | the same before the call: a pop can come to fail exactly if none is outstanding as far as the consumer has read |
| `SpscRing.KnownRoomSuffices` | code/infra/spsc_ring_buffer.h:91-97 | once the producer knows of room, its next push does not fail, in any run |
| `SpscRing.KnownStockSuffices` | code/infra/spsc_ring_buffer.h:39-43 | once the consumer knows of an element, its next pop does not fail, in any run |
| `SpscRing.SizeIsKnowledge` | code/infra/spsc_ring_buffer.h:73-77 | size() tells an endpoint exactly the number outstanding as far as it knows |
| `SpscRing.StaleLoadFailsPush` | code/infra/spsc_ring_buffer.h:94-97 | a run in which push reports full on an empty ring because the load is stale |
| `SpscRing.StaleLoadFailsPop` | code/infra/spsc_ring_buffer.h:39-43 | a run in which pop reports empty on a full ring because the load is stale |
| `SpscRing.SizeInRange` | code/infra/spsc_ring_buffer.h:73-77 | size() called by either endpoint lies in 0..N; the producer never under-counts, the consumer never over-counts |
| `SpscRing.EmptyFromEndpoints` | code/infra/spsc_ring_buffer.h:64-71 | while the other side runs and the head is loaded first, empty() called by the producer is never wrongly true and by the consumer never wrongly false; full() the other way round |
| `SpscRing.EmptyTailFirst` | code/infra/spsc_ring_buffer.h:64-67 | the same for empty() with the tail loaded first, which the language leaves open |
| `SpscRing.Room` | code/infra/spsc_ring_buffer.h:91-100 | a producer about to write has room whatever the consumer does |
| `SpscRing.Stocked` | code/infra/spsc_ring_buffer.h:39-45 | a consumer about to read finds the oldest outstanding value whatever the producer does |
| `SpscRing.CapacityFits` | code/infra/spsc_ring_buffer.h:14 | a power-of-two capacity leaves N + 1 representable |
| `SpscRing.CapacityIs` | code/infra/spsc_ring_buffer.h:14 | the admissible capacities are exactly the powers of two that fit a word |
| `SpscRing.SpscRingBuffer.Emplace` | code/infra/spsc_ring_buffer.h:84-103 | an uninterrupted push succeeds exactly if fewer than N are outstanding and appends the value |
| `SpscRing.SpscRingBuffer.Pop` | code/infra/spsc_ring_buffer.h:37-48 | an uninterrupted pop returns and removes the oldest value, or reports empty exactly if there is none |
| `SpscRing.SpscRingBuffer.Size` | code/infra/spsc_ring_buffer.h:73-77 | the number outstanding, at most N |
| `SpscRing.SpscRingBuffer.Full` | code/infra/spsc_ring_buffer.h:69-71 | true exactly with N outstanding |
| `SpscRing.SpscRingBuffer.Empty` | code/infra/spsc_ring_buffer.h:64-67 | uninterrupted, true exactly with none outstanding |
| `Words.MaskIsMod` | code/infra/spsc_ring_buffer.h:16 | x & (2^k - 1) is x mod 2^k |
| `Words.PowerOfTwoTest` | code/infra/spsc_ring_buffer.h:14 | n & (n - 1) is zero exactly for powers of two |
| `Words.ClearLowBits` | code/infra/memory_pool_safe.h:78-79 | x & ~(2^k - 1) rounds a word down to a multiple of 2^k |
| `Words.BitAndBits` | code/infra/spsc_ring_buffer.h:45 | each bit of x & y is set exactly if it is set in both |
| `HashTable.ProbeOrder` | code/mini_stl/hash_table.h:166-167 | linear probing with a mask visits each bucket once, at its distance from home |
| `HashTable.HomeIsRemainder` | code/mini_stl/hash_table.h:164 | the home bucket is the hash modulo the capacity |
| `HashTable.Absent` | code/mini_stl/hash_table.h:187-193 | a search that meets neither the key nor a gap before a gap or the end proves the key absent |
| `HashTable.InsertKeeps` | code/mini_stl/hash_table.h:152-158 | filling the first free bucket, Empty or Tombstone, keeps keys unique and every probe path unbroken, and adds exactly the entry |
| `HashTable.EraseKeeps` | code/mini_stl/hash_table.h:79-84 | a tombstone in place of an entry keeps all other entries reachable and removes exactly the key |
| `HashTable.LoadFactorIsExact` | code/mini_stl/hash_table.h:118-123 | the quotient of count and capacity exceeds the double 0.7 exactly if 10 * count > 7 * cap, over reals: the quotient by a power of two is taken to be exact in a double |
| `HashTable.SevenTenthsIsNearest` | code/mini_stl/hash_table.h:123 | the constant used for 0.7 is the 53-bit fraction nearest to it |
| `HashTable.AlwaysRoom` | code/mini_stl/hash_table.h:180-181 | every valid table has an Empty bucket, so the fallback of find_slot is unreachable |
| `HashTable.HashTable.FindIndex` | code/mini_stl/hash_table.h:184-194 | finds the bucket of the key with its value exactly if the key is in the map |
| `HashTable.HashTable.FindSlot` | code/mini_stl/hash_table.h:162-182 | the key's bucket if present, else the first bucket on its probe path that holds no entry |
| `HashTable.HashTable.Find` | code/mini_stl/hash_table.h:89-99 | map lookup |
| `HashTable.HashTable.MaybeRehash` | code/mini_stl/hash_table.h:122-129 | keeps the map; doubles exactly when 10 * (size + tombstones) > 7 * capacity, rebuilds also when tombstones outnumber entries above capacity 16, otherwise does nothing; never leaves a rehash due |
| `HashTable.HashTable.Rehash` | code/mini_stl/hash_table.h:131-141 | keeps the map, drops all tombstones; terminates because the nested insertions find no rehash due |
| `HashTable.HashTable.EmplaceOrAssign` | code/mini_stl/hash_table.h:143-160 | map update; true exactly for a new key; replaces the bucket array only if a rehash was due |
| `HashTable.HashTable.Erase` | code/mini_stl/hash_table.h:76-87 | map removal; true exactly if the key was present |
| `HashTable.HashTable.Clear` | code/mini_stl/hash_table.h:66-70 | empty map, same capacity |
| `LruCache.UnlinkAgrees` | code/mini_stl/lru_cache.h:65-71 | unlinking a node and erasing its key keeps list and index in agreement |
| `LruCache.TouchAgrees` | code/mini_stl/lru_cache.h:77-80 | splicing a node to the front keeps the agreement and moves exactly its entry |
| `LruCache.LinkAgrees` | code/mini_stl/lru_cache.h:47-48 | a new front node with its index entry keeps the agreement |
| `LruCache.Indexed` | code/mini_stl/lru_cache.h:30-31 | a key is in the index exactly if it is listed, and leads to the node with its value |
| `LruCache.LRUCache.Get` | code/mini_stl/lru_cache.h:29-34 | returns the listed value and makes the entry most recent; a miss changes nothing |
| `LruCache.LRUCache.Put` | code/mini_stl/lru_cache.h:37-63 | the entry is first with the new value; a new key in a full cache evicts exactly the last entry; capacity 0 stores nothing |
| `LruCache.LRUCache.Erase` | code/mini_stl/lru_cache.h:65-71 | removes exactly the key's entry, true exactly if it was listed |
| `LruCache.LRUCache.EvictOne` | code/mini_stl/lru_cache.h:82-86 | drops exactly the least recently used entry from list and index |
| `LruCache.LRUCache.Clear` | code/mini_stl/lru_cache.h:24-27 | list and index become empty together |
| `LruCache.LRUCache.Size` | code/mini_stl/lru_cache.h:21 | the index size is the length of the list |
| `LruTraces.Replay` | code/mini_stl/lru_cache.h:24-71 | the cache on the real hash table, put through any trace, ends with the list and returns the answers the trace theorems speak of |
| `LruTraces.RunListed` | code/mini_stl/lru_cache.h:29-71 | over any trace keys stay distinct and the size within capacity |
| `LruTraces.Inclusion` | code/mini_stl/lru_cache.h:29-71 | on any one trace the smaller cache's list is a subsequence of the larger's, and its hits are the same hits there |
| `LruTraces.InclusionOfHits` | code/mini_stl/lru_cache.h:29-35 | get by get over any trace, where the smaller cache hits the larger hits with the same value |
| `LruTraces.Retention` | code/mini_stl/lru_cache.h:37-63 | after its last use an entry that is not erased survives until capacity distinct other keys have been put or hit, and without erasures is gone exactly from then on |
| `LruTraces.HitsAreLatest` | code/mini_stl/lru_cache.h:29-49 | a hit returns the value last put under the key; erased and cleared keys miss |
| `ThreadPool.StepInv` | code/infra/thread_pool.h:19-79 | every step of workers, submitters and destructor keeps FIFO order, exactly-once, the wakeup balance and the shutdown facts |
| `ThreadPool.ThreadsStarted` | code/infra/thread_pool.h:19-41 | over every run a pool of threadCount threads, one if that is zero, starts exactly as many, all before the first submission, and its destructor returns when exactly as many have ended |
| `ThreadPool.WhoWaits` | code/infra/thread_pool.h:30-79 | clients and notifications never wait, a worker waits only asleep and can always be woken when a notification is due or wake by itself, the destructor waits only for the thread it joins |
| `ThreadPool.NoLostWakeup` | code/infra/thread_pool.h:52-75 | while a worker sleeps, queued tasks are at most pending notifies plus workers about to test the predicate; after notify_all nobody sleeps |
| `ThreadPool.NeverStuck` | code/infra/thread_pool.h:65-79 | with a task queued there is always a notify pending or a worker awake |
| `ThreadPool.ComesToRest` | code/infra/thread_pool.h:65-79 | before stop, in every run, the pool makes no more steps of its own than the work at hand and that brought in by submissions and spurious wakeups allow |
| `ThreadPool.RestIsDone` | code/infra/thread_pool.h:65-79 | when before stop no step of its own is left, every worker sleeps, the queue is empty and every accepted task has finished exactly once |
| `ThreadPool.FifoExactlyOnce` | code/infra/thread_pool.h:57-77 | tasks are dequeued in order of acceptance, and each dequeued task is finished once or in the hands of one worker |
| `ThreadPool.DrainedOnDestruction` | code/infra/thread_pool.h:30-41 | when the joins are done the queue is empty and every accepted task has finished exactly once |
| `ThreadPool.ShutdownTerminates` | code/infra/thread_pool.h:30-41 | after stop, however many submissions are refused meanwhile, all other steps together are at most what queue, running tasks, live workers and notifies allow |
| `ThreadPool.ShutdownProgresses` | code/infra/thread_pool.h:30-41 | after stop, until the destructor returns, a step other than a spurious wakeup is possible |
| `ThreadPool.SubmissionOutcome` | code/infra/thread_pool.h:30-61 | a submission made before the destructor is called has been dequeued in its turn and run exactly once when the destructor has returned; a later one leaves no trace in any run |
| `MemoryPool.AlignedSize` | code/infra/memory_pool_safe.h:74-80 | the least multiple of 16 that holds the request and a link; zero exactly when the addition wraps |
| `MemoryPool.BlocksDisjoint` | code/infra/memory_pool_safe.h:94-105 | distinct blocks of the chunks share no byte |
| `MemoryPool.ExtendPartition` | code/infra/memory_pool_safe.h:94-105 | a fresh chunk extends the partition of blocks into free and outstanding |
| `MemoryPool.MemoryPoolSafe.Create` | code/infra/memory_pool_safe.h:18-26 | construction throws exactly for sizes whose rounding wraps and for zero blocks per chunk; the pool has that many blocks per chunk, of the least multiple of 16 that holds the request and a link |
| `MemoryPool.MemoryPoolSafe.AllocateChunk` | code/infra/memory_pool_safe.h:94-105 | the carving loop links exactly the blocks of the chunk, last first, and touches no outstanding block |
| `MemoryPool.MemoryPoolSafe.Allocate` | code/infra/memory_pool_safe.h:34-44 | hands out an aligned block that was not outstanding: the head of the free list, or the last block of a new chunk; what is stored in outstanding blocks stays |
| `MemoryPool.MemoryPoolSafe.Deallocate` | code/infra/memory_pool_safe.h:46-64 | accepts a non-null pointer exactly if it is outstanding, puts it first on the free list and poisons it beyond the link in the debug build; spares what is stored in other outstanding blocks; a rejected call changes nothing; which exception is decided by chunk membership |
| `MemoryPool.MemoryPoolSafe.BelongsToPool` | code/infra/memory_pool_safe.h:82-92 | true exactly for addresses within a chunk |
| `MemoryPool.MemoryPoolSafe.InPoolIsInBlock` | code/infra/memory_pool_safe.h:82-105 | the addresses within the chunks are exactly those within blocks |
| `MemoryPool.MemoryPoolSafe.BlocksConserved` | code/infra/memory_pool_safe.h:34-64 | free and outstanding blocks together are always the number of chunks times the blocks per chunk |
| `MemoryPool.MemoryPoolSafe.ClientWrite` | code/infra/object_pool_safe.h:75-76 | whatever is stored anywhere in a block that was handed out, the pool stays intact and so does every other such block |
| `MemoryPool.MemoryPoolSafe.OutstandingDisjoint` | code/infra/memory_pool_safe.h:34-44 | outstanding blocks are aligned and never overlap |
| `MemoryPool.MemoryPoolSafe.DoubleFreeExactly` | code/infra/memory_pool_safe.h:50-54 | of the pointers not outstanding, those deallocated before are all reported as double frees, and a report is right exactly if the pointer was ever handed out |
| `MemoryPool.MemoryPoolSafe.FirstBlockReported` | code/infra/memory_pool_safe.h:50-54 | the first block of a chunk just carved is reported as a double free although never handed out |
| `MemoryPool.MemoryPoolSafe.InteriorPointer` | code/infra/memory_pool_safe.h:82-92 | an address inside a block was never handed out nor deallocated, yet lies in the pool and so is reported as a double free |
| `MemoryPool.MemoryPoolSafe.FreeListWalk` | code/infra/memory_pool_safe.h:34-44 | following the links from the head, however far, visits exactly the blocks not outstanding, each once, and ends at null |
| `ObjectPool.ObjectPoolSafe.Create` | code/infra/object_pool_safe.h:73-77 | a new live object at an address no live object has |
| `ObjectPool.ObjectPoolSafe.Destroy` | code/infra/object_pool_safe.h:87-91 | a live object is destroyed, never one destroyed before, and the pool does not throw |
| `ObjectPool.ObjectPoolSafe.CreateHandle` | code/infra/object_pool_safe.h:80-83 | the returned handle is the one owner of the new object |
| `ObjectPool.ObjectPoolSafe.AllDestroyed` | code/infra/object_pool_safe.h:87-91 | once nothing is live, every object ever created has been destroyed exactly once |
| `ObjectPool.PooledPtr.Release` | code/infra/object_pool_safe.h:21-26 | the destructor destroys the owned object exactly once, and nothing when the handle is empty |
| `ObjectPool.PooledPtr.MovedFrom` | code/infra/object_pool_safe.h:28-32 | ownership moves, nothing is destroyed, the source is empty, all other ownership stays |
| `ObjectPool.PooledPtr.MoveAssign` | code/infra/object_pool_safe.h:34-45 | the target's object is destroyed once, the source's changes owner, all other ownership stays, within one pool and across pools; self-assignment does nothing |
| `HandleRuns.SoleOwner` | code/infra/object_pool_safe.h:47-48 | no two handles ever refer to one object |
| `HandleRuns.Assign` | code/infra/object_pool_safe.h:34-45 | among any number of handles and pools, move assignment passes the source's object on, destroys the target's once, and touches no other object, owned or not |
| `HandleRuns.Move` | code/infra/object_pool_safe.h:28-32 | the same for move construction, which destroys nothing |
| `HandleRuns.Make` | code/infra/object_pool_safe.h:80-83 | a new handle with a new object, whatever fresh chunk the allocator returns |
| `HandleRuns.Drop` | code/infra/object_pool_safe.h:21-26 | the handle's object, if any, is destroyed once, and no other |
| `HandleRuns.New` | code/infra/object_pool_safe.h:73-77 | create() makes an object no handle owns and leaves every handle what it has |
| `HandleRuns.Delete` | code/infra/object_pool_safe.h:87-91 | destroy() of such an object ends it once, never throws, and touches no other |
| `Programs.Run` | code/infra/object_pool_safe.h:15-91 | any sequence of creations, moves, assignments and destructions, through handles or directly, keeps every handle sound, never throws, and leaves handles, pointers and pools as the address-free model of ownership says |
| `Programs.AccountedAfterAll` | code/infra/object_pool_safe.h:15-91 | in that model, over any program, each object created belongs to exactly one handle or pointer or has been destroyed exactly once |
| `Programs.Program` | code/infra/object_pool_safe.h:15-91 | at the end of a program's scope exactly the objects its remaining pointers refer to live, and each other object ever created has been destroyed exactly once |
| `CourseSchedule.TopologicalIsAcyclic` | leetcode/medium/part_02.md:42-54 | an order of all courses with prerequisites first rules out every cycle |
| `CourseSchedule.LeftoverCycle` | leetcode/medium/part_02.md:42-54 | courses left with pending prerequisites contain a cycle |
| `CourseSchedule.Relax` | leetcode/medium/part_02.md:47-51 | decrementing a count keeps it the number of pending entries, and zero is reached exactly once |
| `CourseSchedule.CanFinish` | leetcode/medium/part_02.md:22-55 | true exactly if the relation, duplicates and self-loops included, is acyclic; the dequeue order is then topological, and otherwise a cycle lies among the courses never dequeued |
| `Matrix01.NeighboursAre` | leetcode/medium/part_01.md:111 | the four directions are one row up or down and one column left or right |
| `Matrix01.NoShorterWalk` | leetcode/medium/part_01.md:97-127 | no walk from neighbour to neighbour between two cells has fewer moves than their Manhattan distance |
| `Matrix01.ShortestWalk` | leetcode/medium/part_01.md:97-127 | and one has as many |
| `Matrix01.LabelsBounded` | leetcode/medium/part_01.md:113-125 | with every labelled cell done, labels are at most the Manhattan distance to any zero |
| `Matrix01.Relax` | leetcode/medium/part_01.md:117-124 | labelling a neighbour keeps labels witnessed, the queue ordered within one level, and finished cells closed |
| `Matrix01.UpdateMatrix` | leetcode/medium/part_01.md:97-127 | each cell becomes its least Manhattan distance to a zero; without zeros every cell becomes -1 |
| `KClosest.DistIsSquaredLength` | leetcode/medium/part_01.md:155-157 | dist satisfies the laws of a squared length: unit vectors, mirroring, parallelogram |
| `KClosest.SquaredLengthUnique` | leetcode/medium/part_01.md:155-157 | any function with these laws is dist |
| `KClosest.AnswersAgree` | leetcode/medium/part_01.md:154-211 | any two correct answers have the same multiset of distances |
| `KClosest.Partition` | leetcode/medium/part_01.md:195-204 | a pass permutes the segment, keeps the outer splits, and splits it at the pivot's position |
| `KClosest.QuickSelect` | leetcode/medium/part_01.md:184-211 | permutes in place and returns the first k; no point left is nearer to the origin, in coordinates; for 1 <= k < n leaves by its break |
| `KClosest.HeapSelect` | leetcode/medium/part_01.md:154-173 | returns the k points that come first by distance and then by input position, last one first; no point left is nearer to the origin, in coordinates |
| `CloneGraph.WalksAgree` | leetcode/medium/part_01.md:380-430 | every walk along edge numbers in the clone mirrors the walk in the original |
| `CloneGraph.CompleteIsClone` | leetcode/medium/part_01.md:386-396 | a completed map covers exactly the nodes reached and is an isomorphism |
| `CloneGraph.Solution.CloneFrom` | leetcode/medium/part_01.md:384-397 | one recursive call completes every clone but those still open, on cycles and self-loops too |
| `CloneGraph.CloneDepthFirst` | leetcode/medium/part_01.md:380-398 | returns a fresh graph isomorphic to the reachable part, values and neighbour order kept, the original unchanged |
| `CloneGraph.CloneBreadthFirst` | leetcode/medium/part_01.md:404-430 | the same for the queue version |
| `BinaryTree.ConsumedUnique` | code/dsa/data_structure/binary_tree.cpp:64-79 | the consumed prefix is determined by the input |
| `BinaryTree.KnownStep` | code/dsa/data_structure/binary_tree.cpp:109-115 | the children of a node are the next nodes in creation order |
| `BinaryTree.BinaryTree.BuildLevelOrder` | code/dsa/data_structure/binary_tree.cpp:52-80 | the nodes are the values of the slots read, in order; node h has the nodes of slots 2h+1 and 2h+2 as children and no others; reading stops at the end or when the last node has had its pair |
| `BinaryTree.BinaryTree.BuildComplete` | code/dsa/data_structure/binary_tree.cpp:25-48 | node i carries arr[i] with children 2i+1 and 2i+2 |
| `BinaryTree.BinaryTree.LevelOrder` | code/dsa/data_structure/binary_tree.cpp:102-117 | returns the values in creation order: the non-null consumed values, or arr itself after a complete build |
| `BinaryTree.BinaryTree.Height` | code/dsa/data_structure/binary_tree.cpp:82-136 | the greatest number of nodes on a path down from the root: some path has as many and none has more; after a complete build it is the bit length of the number of nodes |
| `BinaryTree.CompleteHeight` | code/dsa/data_structure/binary_tree.cpp:131-136 | the recursion over a complete tree of n nodes gives the number of binary digits of n, that is the least k with n < 2^k |

## Left out

- size() of the ring from a third thread: it reads head before tail and may exceed N.
- The relaxed loads of a thread's own index are its own last store, as coherence demands; stores of the other side are never read relaxed by the code.
- The hash function is arbitrary and equality is that of the key type; a user-supplied equality coarser than that, and DefaultHash itself, are not part of this model.
- HashTable.HashTable.Find: returns the value found where find and at return a pointer; writing through that pointer is not modelled, and the LRU cache never does so.
- HashTable.LoadFactorIsExact: takes from the format that a count divided by a power of two up to 2^53 is a double without rounding; larger capacities are not covered.
- `std::list` of the LRU cache is an order of node identities plus their contents; the link fields are library code. The moving overloads of put and insert_or_assign have the effect of the copying ones.
- Aliased arguments, exceptions of element types, allocation failure and the overflow of blockSize * blocksPerChunk.
- Futures, packaged tasks and argument binding: a task is an opaque action that ends; destroying the pool while submissions continue after its destructor returned.
- Chunks come from `::operator new`, which appears as a parameter (in `HandleRuns.Make` and `New`, as an arbitrary choice) with its guarantee of fresh aligned memory. Stores are recorded by the address they start at; a link counts as stored at the first address of its block.
- MemoryPool of code/infra/memory_pool.h is the model with the debug flag off, where clients return only what they hold.
- The integers of the LeetCode solutions and of the tree indices are unbounded; k and course numbers are not negative, as the problems demand.
- CloneGraph.CloneDepthFirst: is proved for a fresh Solution object; one reused for a second graph keeps its memo map.
- orangesRotting, the other LeetCode solutions, sorts, searches, lists, stacks and `mini_stl/vector.h`: they would add easier results of the same kinds.
- Freeing of tree nodes (`clear`) and the three depth-first traversals of the binary tree.
- Constant-cost claims of the hash table: a large, nearly empty table can rebuild on each erase.
- Benchmarks, timing, thread affinity and all `main` functions.
