# Verified models of the systems-programming examples

Dafny models of the repository's allocator, thread pool, shared-memory ring, blocking queue, LRU
cache, echo server and file search, with proofs about whole runs and all interleavings.
`dafny verify dfyconfig.toml` checks everything.

| file | models |
|---|---|
| `HeapModel.dfy`, `HeapRuns.dfy` | the first-fit heap as values: free list, live blocks, every operation, every run |
| `HeapGaps.dfy` | when releases leave no two free blocks adjacent in memory, and what that is worth |
| `Allocator.dfy` | the allocator in place: headers at heap offsets, a list threaded through them, counters |
| `CircularBuffer.dfy`, `CondVar.dfy` | the ring array and the POSIX condition variable that queue and pool share |
| `BoundedQueue.dfy` | the blocking queue as a step system over any number of threads |
| `ThreadPool.dfy` | workers, submitters and the controlling thread as a step system |
| `SharedRing.dfy` | producers and guarded consumers, one shared access per step |
| `LruModel.dfy` | the cache as values beside the LRU cache it is meant to be |
| `LruBehaviour.dfy` | what such a cache answers, said of the operations alone |
| `LruCache.dfy` | the cache's nodes, table and links in place, following `LruModel.dfy` |
| `EchoServer.dfy` | the slot table, client buffers and cleanup of the poll loop |
| `FileSearch.dfy` | chunked and whole-file counting |
| `Common.dfy` | option type, bytes and minimum |

How the models are set up:

- **Heap.** A block is an interval of heap offsets including its header. That blocks tile the heap
  is said by counting: every byte of the heap is in exactly one free or live block, every other
  byte in none. Header size is 24 (LP64) and `size_t` arithmetic wraps at 2^64. Writing a header
  destroys every header it overlaps, so an unsafe split would show.
- **Concurrency.** One step is one stay in a critical section, cut at each `pthread_cond_wait`. A
  signal wakes at least one sleeper if there is one, sleepers may wake spuriously, woken threads
  compete with newcomers. The shared ring goes down to single bytes and semaphore operations,
  under sequential consistency. Theorems hold for every run from the initial state.
- **What the callers pass.** Histories in the states are tied to the steps of the run: every call of
  a blocking operation returns once or still waits, with its own argument, and the messages, answers
  and echoed bytes are those that the steps ask for (`SubmitsAccounted`, `CallsAccounted`,
  `WrittenIsSent`, `LruExact`, `Serve`).
- **What the system returns.** `accept`, `poll`, `read`, `write`, failing `sem_wait` calls and the
  system's `malloc` in `allocator_init` are parameters with arbitrary values.

Where code and documentation disagree, the code is followed:

- A split writes a header into any surplus; `MallocKeepsIff` and `SplitHeaderOverrun` say exactly
  when that is safe, `FreshUnsafeIff` that unsafe requests exist from the start, and
  `GranularRunSound` gives a condition on requests that makes whole runs safe.
- Freeing is documented to coalesce adjacent free blocks. It compares list neighbours only: a release
  leaves none exactly when no free block ends at the released one and any that starts at its end is
  the head of the list (`FreeCoalescesIff`), a whole run exactly when all its releases are like that
  (`FreshRunCoalescesIff`). Last-in-first-out releases are (`LifoIsClean`), first-in-first-out ones
  are not (`FifoIsNotClean`, `FifoFragments`).
- `thread_pool_wait_all` is documented to wait for completion. It waits for an empty queue: from any
  reachable state its return guarantees completion exactly when everything was complete before the
  call (`WaitAllCompletesIff`); otherwise one worker can drain the queue and still run the last task.
- The ring's header promises that several readers consume independently. Each reader posts
  `sem_empty` (`CreditWhenCaughtUp`), so a second reader is enough to lose a message
  (`SlowReaderLoses`): a reader is served right at every schedule exactly when it is alone, nobody
  writes, or its buffer holds nothing (`ReaderServedIff`). In a single run any number of readers is
  served right as long as no producer gets a full ring ahead of them (`DeliveryWithRoom`).
- A cache hit is documented to make the entry the most recently used one. It does, and keeps the
  others, exactly for the oldest and the newest entry and for one whose `next` is set
  (`HitKeepsRecencyIff`, `MoveToFront`); every other hit cuts off all older entries. Until the first
  such hit the cache is an LRU cache (`RunExact`, `Replay`), and none ever happens exactly in caches
  of at most two entries (`NeverCutsIff`). All of this is for non-negative keys with no new key put
  into an occupied bucket. Colliding keys break even a cache of two entries: put 0, put 1024, get 0
  leaves key 0 out of the chain of its bucket.
- `test.c` of the cache expects about 10% hits in a sequential scan of 100 keys with room for 10.
  There are hits exactly if all keys fit, and then every access after the first round is one
  (`SequentialScan`).
- The echo server drops a live client whose buffer is full, with all it holds (`DroppedIff`). It
  never uses a slot again, so that it serves at most 9999 connections in its life (`FirstAreAdmitted`).

## Model

| member | source | states |
|---|---|---|
| `HeapModel.TotalSizeExact` | 02_memory/custom_malloc/allocator.c:126-130 | the computed block size has room for header and request if and only if the request is at most 2^64 - 32; it is 8-aligned and wastes under 8 bytes |
| `HeapModel.FirstFit` | 02_memory/custom_malloc/allocator.c:70-83 | the entry found is large enough and every earlier one is too small |
| `HeapModel.BlocksDisjoint` | 02_memory/custom_malloc/allocator.c:9-20 | in a well-formed heap all blocks, free or live, are in bounds and pairwise disjoint |
| `HeapModel.PayloadsSound` | 02_memory/custom_malloc/allocator.c:121-174 | live payloads are in bounds, 8-aligned, at least as long as requested and pairwise disjoint; no block header touches one; the free list has no duplicates |
| `HeapModel.CoalesceKeepsBytes` | 02_memory/custom_malloc/allocator.c:89-110 | one pass moves no byte into or out of the free list and keeps its total size |
| `HeapModel.CoalesceReachesFixpoint` | 02_memory/custom_malloc/allocator.c:89-110 | after one pass no entry ends where its list successor starts, and the head stays the head |
| `HeapModel.CoalesceIdempotent` | 02_memory/custom_malloc/allocator.c:89-110 | a list with nothing to merge is left as it is |
| `HeapModel.GrantTiled` | 02_memory/custom_malloc/allocator.c:146-166 | handing out a block keeps every byte in exactly one block and the sizes summing to the heap |
| `HeapModel.MallocKeepsIff` | 02_memory/custom_malloc/allocator.c:121-166 | for every size_t request, the heap stays well-formed if and only if the request is refused, or its size does not wrap and the chosen block's surplus is 0 or holds a header |
| `HeapModel.FreshUnsafeIff` | 02_memory/custom_malloc/allocator.c:46-155 | on a fresh heap the first request, of any size_t value, breaks it exactly when its size wraps or it leaves over something less than 24 bytes |
| `HeapModel.UnsafeRequestExample` | 02_memory/custom_malloc/allocator.c:147-151 | 24 bytes from a fresh heap of 64: the second header would end at byte 72 |
| `HeapModel.SplitHeaderOverrun` | 02_memory/custom_malloc/allocator.c:147-151 | the header written by a split stays inside the block if and only if the surplus holds it; otherwise it reaches past the heap or into another block |
| `HeapModel.FreeKeeps` | 02_memory/custom_malloc/allocator.c:185-212 | releasing a live block keeps the heap well-formed and leaves a coalesced list |
| `HeapRuns.RunKeepsWellFormed` | 02_memory/custom_malloc/allocator.c:121-212 | every run of allocations and releases with safe splits keeps tiling, free list and payload guarantees |
| `HeapRuns.GranularRunSound` | 02_memory/custom_malloc/allocator.c:121-212 | if a granule of at least 24 bytes divides heap and requests, every split of the run is safe and all blocks stay multiples of it |
| `HeapRuns.FreshGranularRunSound` | 02_memory/custom_malloc/allocator.c:46-212 | the same from initialisation, with disjoint payloads and headers that spare them |
| `HeapRuns.MallocFreeRestoresIff` | 02_memory/custom_malloc/allocator.c:121-212 | on a coalesced list, allocating and releasing restores the list if and only if the head served the request |
| `HeapRuns.LifoNeverFragments` | 02_memory/custom_malloc/allocator.c:199-211 | releasing last-allocated-first keeps the live blocks a prefix and the free list at most one block, the rest of the heap |
| `HeapRuns.FifoFragments` | 02_memory/custom_malloc/allocator.c:89-110 | releasing n >= 2 stacked blocks in allocation order leaves n+1 entries though all bytes are free, and no request for the whole heap succeeds |
| `HeapRuns.ReleaseOrderDecides` | 02_memory/custom_malloc/allocator.c:46-212 | both orders from a fresh heap |
| `HeapGaps.FreeCoalescesIff` | 02_memory/custom_malloc/allocator.h:31-35 | a release keeps the free blocks pairwise apart in memory if and only if no free block ends at the released one and any that starts at its end is the list head |
| `HeapGaps.NoneAdjacentIff` | 02_memory/custom_malloc/allocator.c:85-110 | free blocks are pairwise apart if and only if every stretch of free bytes lies in one of them |
| `HeapGaps.ServedIff` | 02_memory/custom_malloc/allocator.c:121-144 | then a request is refused if and only if no stretch of free bytes could hold it |
| `HeapGaps.MallocKeepsApart` | 02_memory/custom_malloc/allocator.c:146-166 | allocating brings no two free blocks together |
| `HeapGaps.RunCoalescesIff` | 02_memory/custom_malloc/allocator.c:121-212 | a safe run leaves no adjacent free blocks at any step if and only if every release in it meets that condition |
| `HeapGaps.FreshRunCoalescesIff` | 02_memory/custom_malloc/allocator.c:46-212 | the same from initialisation, and what the next request then gets |
| `HeapGaps.LifoIsClean` | 02_memory/custom_malloc/allocator.c:199-211 | releasing last-allocated-first meets the condition at every release |
| `HeapGaps.FifoIsNotClean` | 02_memory/custom_malloc/allocator.c:199-211 | releasing two of several stacked blocks oldest first does not |
| `Allocator.FirstFitAllocator.constructor` | 02_memory/custom_malloc/allocator.c:32-41 | the globals before initialisation |
| `Allocator.FirstFitAllocator.Init` | 02_memory/custom_malloc/allocator.c:46-64 | the heap becomes one free block, or stays unavailable |
| `Allocator.FirstFitAllocator.FindFreeBlock` | 02_memory/custom_malloc/allocator.c:70-83 | the first block of sufficient size and its list predecessor |
| `Allocator.FirstFitAllocator.CoalesceList` | 02_memory/custom_malloc/allocator.c:89-110 | the loop terminates, yields the one-pass result, keeps list and live headers and writes into no live payload |
| `Allocator.FirstFitAllocator.Malloc` | 02_memory/custom_malloc/allocator.c:121-174 | follows `HeapModel.Malloc`, returns the new payload or NULL, keeps headers, list and counters consistent, writes into no live payload |
| `Allocator.FirstFitAllocator.Free` | 02_memory/custom_malloc/allocator.c:185-212 | follows `HeapModel.Free`, NULL does nothing, the sanity check never rejects a live pointer, writes into no live payload |
| `Allocator.FirstFitAllocator.SplitBlock` | 02_memory/custom_malloc/allocator.c:146-155 | the list with one entry cut in two |
| `Allocator.FirstFitAllocator.UnlinkBlock` | 02_memory/custom_malloc/allocator.c:157-166 | the list without the entry, which is now marked allocated |
| `Allocator.FirstFitAllocator.Stats` | 02_memory/custom_malloc/allocator.c:217-241 | allocated minus freed is the size of the live blocks although the counters wrap; with the free sizes it is the heap size |
| `Allocator.Replay` | 02_memory/custom_malloc/allocator.c:46-212 | driving the allocator through any safe run ends in the state the run has in `HeapRuns` |
| `CircularBuffer.PushAppends` | 03_threads/producer_consumer/queue.c:104-108 | writing at (front + size) % capacity appends to the contents |
| `CircularBuffer.PopRemovesFirst` | 03_threads/producer_consumer/queue.c:137-140 | advancing front removes the oldest item |
| `CircularBuffer.Buffer.Enqueue` | 03_threads/thread_pool/thread_pool.c:158-162 | in place: contents grow by the item at the end |
| `CircularBuffer.Buffer.Dequeue` | 03_threads/thread_pool/thread_pool.c:25-28 | in place: the oldest item is returned and removed |
| `BoundedQueue.StepKeeps` | 03_threads/producer_consumer/queue.c:85-183 | every critical section keeps the wakeup and FIFO invariants |
| `BoundedQueue.RunKeeps` | 03_threads/producer_consumer/queue.c:85-183 | so does every run |
| `BoundedQueue.NeverDeadlocks` | 03_threads/producer_consumer/queue.c:93-143 | in every reachable state a sleeping consumer means size <= woken consumers, a sleeping producer free slots <= woken producers; they never all sleep together |
| `BoundedQueue.FirstInFirstOut` | 03_threads/producer_consumer/queue.c:104-178 | items that left followed by the buffer are the items that entered, in order, and each producer's items leave in its order |
| `BoundedQueue.WaitsIff` | 03_threads/producer_consumer/queue.c:85-183 | queue_enqueue waits if and only if the queue is full, queue_dequeue if and only if it is empty, else the item enters or one leaves; queue_try_dequeue takes one if and only if the mutex is free and there is one |
| `BoundedQueue.CallsAccounted` | 03_threads/producer_consumer/queue.c:85-183 | over whole runs the items of all queue_enqueue calls a producer begins are its items that entered, in order, and the one with which it waits; dequeue calls and successful tries equal items left plus waiting consumers |
| `ThreadPool.TakeWakeups` | 03_threads/thread_pool/thread_pool.c:25-33 | a dequeue leaves nobody asleep who should wake, thanks to the broadcast at capacity - 1 |
| `ThreadPool.AcceptWakeups` | 03_threads/thread_pool/thread_pool.c:158-165 | the signal of a submit cannot be stolen by a submitter: with room in the queue every sleeper is a worker |
| `ThreadPool.StepKeeps` | 03_threads/thread_pool/thread_pool.c:8-202 | every critical section keeps all invariants of the pool |
| `ThreadPool.RunKeeps` | 03_threads/thread_pool/thread_pool.c:8-202 | so does every run |
| `ThreadPool.NoLostWakeup` | 03_threads/thread_pool/thread_pool.c:11-168 | a sleeping submitter means a full queue, a sleeping worker queue_size <= woken workers; they never sleep at once; a sleeping wait_all means queued tasks; queued tasks or a sleeping submitter imply a worker that can run |
| `ThreadPool.WaitsIff` | 03_threads/thread_pool/thread_pool.c:8-184 | a worker waits if and only if nothing is queued and the pool runs, a submit if and only if the queue is full and the pool runs, wait_all if and only if tasks are queued and the pool runs; else the front task is taken, the worker exits, or the task is queued |
| `ThreadPool.SubmitsAccounted` | 03_threads/thread_pool/thread_pool.c:141-169 | over whole runs the tasks of all calls a thread begins are, in order, those of its calls that returned, each once, and the one with which it waits; a call returns -1 only after shutdown and 0 only before |
| `ThreadPool.ReturnCodes` | 03_threads/thread_pool/thread_pool.c:141-169 | between any two states of a run, submits return 0 if the pool still runs and -1 if it had shut down |
| `ThreadPool.DestroyRunsExactlyTheAccepted` | 03_threads/thread_pool/thread_pool.c:186-202 | when all workers are joined the tasks run are exactly those whose submit returned 0, each once, taken in acceptance order |
| `ThreadPool.WaitAllReturns` | 03_threads/thread_pool/thread_pool.c:171-184 | on return every accepted task was taken, at most one per worker is unfinished, and all are complete if and only if no worker runs one |
| `ThreadPool.CompleteReturnsAtOnce` | 03_threads/thread_pool/thread_pool.c:171-184 | called when all accepted tasks are complete, wait_all returns in its first step and changes nothing |
| `ThreadPool.DrainAndHold` | 03_threads/thread_pool/thread_pool.c:11-45 | while wait_all sleeps any free worker can empty the queue, wake it and still run the last task when it returns |
| `ThreadPool.WaitAllCompletesIff` | 03_threads/thread_pool/thread_pool.h:45-49 | in every reachable state, each possible call of wait_all ends with all accepted tasks complete if and only if they are complete before the call; otherwise some call without any submit meanwhile returns too early |
| `ThreadPool.WaitAllMayReturnEarly` | 03_threads/thread_pool/thread_pool.h:45-49 | a run in which wait_all returns with the only task unfinished |
| `ThreadPool.ShutdownStep` | 03_threads/thread_pool/thread_pool.c:15-23 | after shutdown nobody sleeps on cond_work, nothing is accepted, and every worker step and join decreases 2 * queue_size + running + unexited + unjoined |
| `ThreadPool.ShutdownTerminates` | 03_threads/thread_pool/thread_pool.c:194-202 | workers and joins take at most that many steps, and until the last join one of them can always be taken |
| `ThreadPool.DestroyCanReturn` | 03_threads/thread_pool/thread_pool.c:171-202 | from every reachable state thread_pool_destroy can run to its end: the queue drains, the pool shuts down and all workers are joined |
| `SharedRing.ProducerAccounts` | 08_advanced/shared_memory_ipc/shared_buffer.c:160-199 | every step of buffer_write keeps the slot and mutex accounts, including the error path |
| `SharedRing.ConsumerAccounts` | 08_advanced/shared_memory_ipc/shared_buffer.c:214-245 | every step of buffer_read keeps them |
| `SharedRing.SlotsConserved` | 08_advanced/shared_memory_ipc/shared_buffer.c:167-242 | for any number of producers and consumers sem_empty + held slots + write_pos = MAX_MESSAGES + posts and sem_full + posts owed + tokens taken = write_pos, in every reachable state |
| `SharedRing.CreditWhenCaughtUp` | 08_advanced/shared_memory_ipc/shared_buffer.c:241-242 | with all consumers caught up sem_empty is MAX_MESSAGES + (consumers - 1) * write_pos, right if and only if there is one consumer or no message |
| `SharedRing.ConsumerGuarded` | 08_advanced/shared_memory_ipc/consumer.c:62-82 | for any number of consumers, one that passed the guard never waits on sem_full and reads only published messages |
| `SharedRing.ProducerGuarded` | 08_advanced/shared_memory_ipc/shared_buffer.c:160-199 | the slot under construction holds exactly what its one producer has copied |
| `SharedRing.WriteKeeps` | 08_advanced/shared_memory_ipc/shared_buffer.c:181-187 | a byte copied into the slot at write_pos changes no message a consumer less than a full ring behind has yet to read |
| `SharedRing.ScanKeeps` | 08_advanced/shared_memory_ipc/shared_buffer.c:230-234 | strlen stops at the terminator of the message written, whatever lies behind it |
| `SharedRing.ReadsInside` | 08_advanced/shared_memory_ipc/shared_buffer.c:230-236 | a consumer that is served right never scans or copies past its slot, so it can always go on |
| `SharedRing.WriterAndReaderApart` | 08_advanced/shared_memory_ipc/shared_buffer.c:181-228 | the slot being written differs from the slot such a consumer reads |
| `SharedRing.WrittenIsSent` | 08_advanced/shared_memory_ipc/shared_buffer.c:160-199 | in every run the messages in the ring are, whole and in order, those passed to the buffer_write calls that reached write_pos++, read from the steps alone |
| `SharedRing.WriterGetsOn` | 08_advanced/shared_memory_ipc/shared_buffer.c:174-199 | a producer with a slot waits for the mutex only, and only while another one inside can go on; each of its steps brings its return nearer |
| `SharedRing.PollEntersIff` | 08_advanced/shared_memory_ipc/consumer.c:62-70 | a polling consumer enters buffer_read if and only if there is a message it has not read |
| `SharedRing.ReaderGetsOn` | 08_advanced/shared_memory_ipc/shared_buffer.c:214-245 | a consumer past the guard that is left room has its message after a bounded number of its own steps |
| `SharedRing.DeliveryWithRoom` | 08_advanced/shared_memory_ipc/consumer.c:62-82 | a consumer among any number receives, message by message, what the callers of buffer_write passed, in every run in which no byte is written while it is a full ring behind |
| `SharedRing.OneConsumerHasRoom` | 08_advanced/shared_memory_ipc/shared_buffer.c:167-242 | a single consumer is never a full ring behind a write |
| `SharedRing.FirstTurnDelivers` | 08_advanced/shared_memory_ipc/shared_buffer.c:160-245 | every consumer is served right in runs with at most MAX_MESSAGES writes past the mutex |
| `SharedRing.SlowReaderLoses` | 08_advanced/shared_memory_ipc/shared_buffer.c:214-245 | with two consumers and a producer there is a run in which the first message a consumer receives is the one written MAX_MESSAGES later |
| `SharedRing.ReaderServedIff` | 08_advanced/shared_memory_ipc/shared_buffer.h:13-28 | a consumer is served right in all runs if and only if it is the only one, there is no producer, or its buffer has one byte |
| `SharedRing.ReaderSound` | 08_advanced/shared_memory_ipc/consumer.c:62-82 | with one consumer, at every interleaving: it is at most a full ring behind, slots differ, sem_full keeps a token for every message however many were read, and each message received is the one passed to buffer_write, cut at a NUL or its buffer's end |
| `SharedRing.DeliveredExactIff` | 08_advanced/shared_memory_ipc/shared_buffer.c:230-236 | a message arrives unchanged if and only if it has no NUL and fits the reader's buffer |
| `SharedRing.ExactDeliveryIff` | 08_advanced/shared_memory_ipc/consumer.c:62-82 | in every run with room the received messages are a prefix of those passed to buffer_write if and only if those read have no NUL and fit; a buffer of MSG_SIZE always fits |
| `LruModel.HitKeepsRecencyIff` | 06_storage/lru_cache/lru_cache.c:50-76 | a hit makes the entry the newest and keeps the others if and only if it was the oldest, the newest, or linked; otherwise all older entries are gone |
| `LruModel.StepExactIff` | 06_storage/lru_cache/lru_cache.c:148-223 | with no new key in an occupied bucket, a get or put leaves the entries an LRU cache has, in order, if and only if it does not cut; then hits, misses and evictions agree too |
| `LruModel.RunExact` | 06_storage/lru_cache/lru_cache.c:148-223 | so does every sequence of gets and puts up to the first one that cuts |
| `LruModel.LastUsedInside` | 06_storage/lru_cache/lru_cache.c:172-223 | after it the cache holds the max_size entries put or hit last, ordered by last use |
| `LruModel.AnswerIs` | 06_storage/lru_cache/lru_cache.c:155-169 | a get answers the value of the entry with its key, and nothing if there is none |
| `LruBehaviour.LruExact` | 06_storage/lru_cache/lru_cache.c:148-223 | for any operations on an LRU cache: a get answers the value last put for its key if fewer than max_size other keys were used since its last use and nothing otherwise; hits and misses count these gets, and every new key is inside or was evicted |
| `LruModel.NeverCutsIff` | 06_storage/lru_cache/lru_cache.c:50-76 | no operation of any such sequence cuts if and only if max_size is at most 2 |
| `LruModel.CutExample` | 06_storage/lru_cache/lru_cache.c:50-76 | put 1, 2, 3 and get 2: entry 1 drops out of the list |
| `LruCache.Cache.constructor` | 06_storage/lru_cache/lru_cache.c:113-146 | an empty cache |
| `LruCache.Cache.FindNode` | 06_storage/lru_cache/lru_cache.c:36-48 | finds the node of a key if and only if it is in the cache, and ends although the walk may leave the bucket |
| `LruCache.Cache.MoveToFront` | 06_storage/lru_cache/lru_cache.c:50-76 | in place: following prev from the tail gives the refreshed order if and only if the node was the oldest, the newest, or has a next; the list is the model's in every case |
| `LruCache.Cache.Get` | 06_storage/lru_cache/lru_cache.c:148-170 | answers the value held for the key, or nothing if the key is not inside, also when the hit cuts; follows the model, and the cache stays sound unless the hit cuts |
| `LruCache.Cache.EvictLru` | 06_storage/lru_cache/lru_cache.c:78-111 | the oldest entry leaves list, table and count; an empty cache is left alone |
| `LruCache.Cache.Put` | 06_storage/lru_cache/lru_cache.c:172-223 | follows the model: a present key gets its value and is moved, an absent one becomes the newest and the oldest leaves a full cache |
| `LruCache.Replay` | 06_storage/lru_cache/lru_cache.c:113-223 | driving the cache through any such sequence: the entries are those of an LRU cache, and every answer, the hits, the misses and the evictions are those of `LruExact` |
| `LruCache.SequentialScan` | 06_storage/lru_cache/test.c:109-119 | a cyclic get-then-put scan over k keys hits accesses - k times if all keys fit and never otherwise; contents, misses and evictions of any number of rounds |
| `EchoServer.ServedEchoes` | 04_networking/tcp_echo_server/server_epoll.c:158-200 | bytes sent followed by the buffer stay equal to the bytes received; both histories only grow |
| `EchoServer.ServedExact` | 04_networking/tcp_echo_server/server_epoll.c:158-200 | a client's turn reads as many bytes as are there and fit, and sends as many of those held as write() takes |
| `EchoServer.ServedIsSpoken` | 04_networking/tcp_echo_server/server_epoll.c:158-200 | buffer, memmove and drops amount to a conversation of bytes read and a count of bytes echoed |
| `EchoServer.DroppedIff` | 04_networking/tcp_echo_server/server_epoll.c:158-185 | a client is dropped if and only if it hung up, or is readable and has nothing to read or a full buffer |
| `EchoServer.FullBufferLost` | 04_networking/tcp_echo_server/server_epoll.c:158-200 | a client whose first 4096 bytes could not be echoed is dropped when it sends more, and none of them comes back |
| `EchoServer.Server.constructor` | 04_networking/tcp_echo_server/server_epoll.c:83-92 | empty tables |
| `EchoServer.Server.Accept` | 04_networking/tcp_echo_server/server_epoll.c:111-147 | a connection gets the next slot, or is closed at once if it cannot be non-blocking or the table is full |
| `EchoServer.Server.Service` | 04_networking/tcp_echo_server/server_epoll.c:152-201 | the conversation of one slot goes on by one round or ends, all others are untouched, tables and counts stay consistent |
| `EchoServer.Server.Turn` | 04_networking/tcp_echo_server/server_epoll.c:104-201 | every open conversation goes on by one round, and so does that of every socket admitted in the same round |
| `EchoServer.Server.Cleanup` | 04_networking/tcp_echo_server/server_epoll.c:204-213 | everything still open is closed |
| `EchoServer.FirstAreAdmitted` | 04_networking/tcp_echo_server/server_epoll.c:120-147 | the sockets admitted in a whole run are the first non-blocking ones, as many as there are slots; all others are refused |
| `EchoServer.Serve` | 04_networking/tcp_echo_server/server_epoll.c:94-217 | over a whole run the sockets closed are exactly those accepted, each as often; those admitted are the first non-blocking ones; and each client's bytes read and sent are its conversation over the rounds from the one that accepted it: all that was there and fitted, and all that write() took |
| `FileSearch.WholeEqualsChunkedPlusStraddling` | 02_memory/mmap_playground/benchmark.c:26-37 | however the file is cut, whole-file matches = chunked matches + occurrences whose first and last byte lie in different chunks |
| `FileSearch.SearchBuffer` | 02_memory/mmap_playground/benchmark.c:27-36 | adds the matches inside one buffer |
| `FileSearch.SearchWithRead` | 02_memory/mmap_playground/benchmark.c:15-41 | misses exactly the straddling occurrences |
| `FileSearch.SearchWithMmap` | 02_memory/mmap_playground/benchmark.c:72-82 | counts every match |

## Left out

- Allocator.FirstFitAllocator.Malloc: requires a safe request; the code does not check, and `MallocKeepsIff`, `TotalSizeExact` and `SplitHeaderOverrun` show exactly what happens otherwise.
- Allocator.FirstFitAllocator.SplitBlock: requires a surplus that holds a header, for the same reason.
- Allocator.FirstFitAllocator.Free: requires NULL or the payload of a live block; freeing anything else reads a header that is not there.
- Allocator.FirstFitAllocator.Init: models the first initialisation of a heap that holds at least one header, not a second one that abandons the first.
- allocator_cleanup and all printing.
- BoundedQueue.StepKeeps: pthread_cond_wait and pthread_mutex_lock on valid objects do not fail; the array is updated in place in `CircularBuffer.Buffer`, while the step systems use its value.
- BoundedQueue.CallsAccounted: counts the items taken; which consumer got which item is not recorded.
- ThreadPool.StepKeeps: one controlling thread, because cond_empty gets a single signal; several simultaneous wait_all callers and the pthread_create failure path are not modelled. Tasks terminate.
- SharedRing.ReaderSound: positions stay below 2^64; weak memory ordering, buffer_open, buffer_close and buffer_unlink are not modelled; the data array is a value changed byte by byte by the steps.
- SharedRing.SlowReaderLoses: a consumer whose message was overwritten may scan past the data array; the model stops it at the end of the array, where the code reads on. `ReadsInside` excludes this for consumers served right.
- LruCache.Cache.EvictLru: each bucket holds one node, so the walk along a longer bucket chain does not occur.
- LruCache.Cache.Put: keys are non-negative and a new one needs an empty bucket; a second key in a bucket mixes bucket chain and recency list.
- LruCache.Cache.Get: keys are non-negative, since a negative one indexes outside the table; NULL values and absent keys are told apart, which the C interface does not do. Nothing is said about calls after a hit that cut the list.
- LruCache.Cache.FindNode: keys are non-negative, and the list has not been cut.
- FileSearch.SearchWithMmap: needs a file at most one byte shorter than the query, since the unsigned loop bound wraps for shorter ones.
- EchoServer.Server.Turn: poll flags of a socket accepted in the same round are arbitrary, since the code does not initialise them; failing malloc calls are not modelled.
- lru_cache_clear, lru_cache_stats, lru_cache_destroy and the cache's mutex.
- The mini shell, the signal server, the threaded echo server, vm_study, benchmarks, clients and timing: process, socket and measurement plumbing.
