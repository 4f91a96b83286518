# Verified models of an operating-systems and security code base

Dafny models of the algorithms and protocols behind five small C programs, with proofs of what those
programs are for:

- a **paging simulator** that runs FIFO and LRU replacement over a reference string
  (`Pages`, `Lru`, `Fifo`, `FifoAnomaly`, `Competitive`, `EmptyMark`, `PagingSim`);
- a **round-robin dispatcher** with one semaphore per process thread, and a **counter race**
  (`RoundRobin`, `Dispatcher`, `DispatcherRuns`, `CounterRace`, `Sums`);
- a **lock-ordering demonstration** (`LockOrder`);
- **SHA-256** as a streaming implementation, and the **XOR cipher** keyed by it
  (`Bytes`, `Sha256Spec`, `Sha256Laws`, `Sha256`, `Sha256Example`, `XorCipher`);
- a **key-value server** with a shared slot array, line framing, command parsing and sessions
  (`CStrings`, `KeyValueStore`, `SharedStore`, `Wire`, `WireLaws`, `Session`, `ClientHandler`, `SessionLaws`,
  `Server`, `ServerLaws`);
- a **file store** with permissions and encryption (`FileMeta`, `FileOps`, `FileAccess`).

Every size that the programs fix with a constant is a parameter where a proof does not depend on it:
frames, processes, quantum, threads, increments, locks, slots, key and value sizes, line length. The
server's sizes and the two builds of the lock demonstration are named instances; the sizes of file metadata
are the program's own constants.

Verify everything with `dafny verify dfyconfig.toml`.

## How the models are built

Code that works in place is a method over arrays and fields whose postcondition ties the new state to a
function of the old one; the properties are then proved about that function. So the frame table with
its circular index refines a load-order queue, the stamp array with its minimum search refines a recency
list, the SHA-256 context refines a value that absorbs bytes, the slot array refines a bounded map, the
metadata file refines a map from names to records, and the connection loop refines a session function.

Code whose point is concurrency is a transition system: a state, one atomic step per shared read, shared
write, lock or semaphore operation, and a run for each schedule. Theorems quantify over every schedule.

`Sha256Spec` is written from FIPS 180-4. The implementation in `Sha256` shares with it the addition of
words, Ch, Maj, the constants and the bytes of a word; its rotations, its word loads, its schedule loops, its
rolled rounds, its buffering, its two-branch finish and its length bytes are its own and are proved equal.
`Sha256Example` works the message "abc" through `Sha256Spec` to the digest that NIST publishes for it, and
`Sha256Laws` proves of every message that the last eight padded bytes are its length in bits as a number, and of
every block that its rounds, run backwards, give back the hash words before it.

The modules named `...Laws` and `FileAccess` state what a user of the programs sees in the programs' own texts and
numbers, and not through the functions that the methods are proved against: each reply of the server and what the
line did to the map, who logs in, the lines on the connection, who may read, write, delete, encrypt or decrypt a
file, and the bytes that encryption stores.

Characters stand for the bytes of the text protocol and of file names; hashes, keys and file contents are
sequences of 8-bit vectors.

## Where the code departs from what it promises

For each of these the exact condition under which the promise holds is proved, with an input on which it
fails.

- `OK PUT` is sent whether or not the store took the value (`task4_network_ipc/server.c:260-261`). It is
  true exactly when the key was there or a slot was free: `Session.OkPutMeans`, `Session.OkPutWhenFull`, and
  across clients `Server.PutThenGetAcross`.
- A list of a store with no key in use shows what was left in an uninitialised buffer
  (`task4_network_ipc/server.c:292-295` with 122-136). The store decides the reply exactly when some slot is
  in use: `Session.ListAnswerDecided`, `Session.LeftoverShown`.
- A list reply longer than 512 characters loses its newline (`task4_network_ipc/server.c:150-154`):
  `Session.ListAnswerFits` gives the exact size of the store's keys, `Session.LongList` a store too large;
  no other reply can be so long, `Session.RepliesFit`.
- Values longer than 399 characters are cut without notice (`task4_network_ipc/server.c:213`); a printed
  command parses back exactly under the condition of `Wire.ParseExactly`; `Wire.LongValueCut`.
- An empty line is taken for a disconnection (`task4_network_ipc/server.c:167-169` with 201-203):
  `Wire.EmptyLineCloses`, with the exact condition in `Wire.FramingExactly`.
- What is written to an encrypted file is ciphered from the start of the key of whatever passphrase is given,
  or not at all without one (`task3_filesystem_security/fileops.c:111-121`). The file still stands for
  its text exactly when the bytes so given are those of the file's own key from the joint on:
  `FileOps.StepExactly`. With the file's own passphrase this is the key repeating at the joint of an append,
  `FileOps.OwnPassphrase`, which for every key of 32 bytes happens exactly when the stored length is a multiple
  of 32 or nothing is appended, `XorCipher.JoinForEveryKey`. Reading is alike: `FileOps.ReadExactly`.
  `FileOps.OneByteWrite` and `FileOps.OneByteRead` say which writes and reads of a file of one byte go wrong, and
  `FileOps.FailingRuns` shows runs that do under the passphrase "abc": a write and a read without a
  passphrase, and an append with the right one.
- Rewriting the metadata keeps only the first 1024 records (`task3_filesystem_security/perms.c:68-73`):
  `FileMeta.UpdateExactly`, `FileMeta.OthersKeptExactly`, `FileMeta.RemoveExactly`,
  `FileMeta.RewriteLosesRecord`.
- A file name of 64 or more characters is stored cut but searched whole, so it can be created twice
  (`task3_filesystem_security/perms.c:27` with 44): `FileMeta.CreateKeepsUniqueExactly`,
  `FileMeta.CreatedTwice`. Likewise a key of 64 or
  more characters in the store, which no session can send: `KeyValueStore.PutKeepsUniqueExactly`,
  `KeyValueStore.StoredTwice`.
- Page number -1 marks an empty frame (`task2_memory_management/paging_sim.c:30`), so a reference to that page is taken
  for a hit while a frame is empty. The loops fault as FIFO and LRU do exactly when every such reference comes
  after at least as many distinct pages as there are frames: `PagingSim.RunFifo`, `PagingSim.RunLru`,
  `EmptyMark.FifoExactly`, `EmptyMark.LruExactly`; `PagingSim.FalseHitAddress` is a failing run, and
  `PagingSim.EmptyMarkAddresses` says which addresses have that page.
- More frames can make FIFO fault more, although the second test case announces fewer faults
  (`task2_memory_management/paging_sim.c:195-200`). From k frames to k' it can happen, on some references, exactly when
  k < k' < 2k - 1: `FifoAnomaly.AnomalyExactly`; `FifoAnomaly.BeladyAnomaly` is the program's own pattern.

## Model

| member | source | states |
|---|---|---|
| PagingSim.RunFifo | task2_memory_management/paging_sim.c:65-102 | For every reference string, the faults of the in-place FIFO run; they are those of the load-order queue exactly when the mark of an empty frame is referenced only after the frames are full; hits and faults count all accesses; the frames read from the circular index give the queue |
| PagingSim.FifoAccess | task2_memory_management/paging_sim.c:77-93 | One access hits exactly on resident pages, or on the mark while a frame is empty, and moves the frame table and index from one queue to the next |
| PagingSim.RunLru | task2_memory_management/paging_sim.c:110-163 | The same for the in-place LRU run and the recency list; its frames hold the list's pages, each stamped with its last use |
| PagingSim.LruAccess | task2_memory_management/paging_sim.c:121-147 | One access hits exactly on resident pages, or on the mark while a frame is empty, and keeps the frames and stamps true to the recency list |
| PagingSim.VictimIsLast | task2_memory_management/paging_sim.c:138-144 | With full frames, the frame with the least stamp holds the last page of the recency list |
| PagingSim.StampsDiffer | task2_memory_management/paging_sim.c:122-156 | No two filled frames have the same stamp |
| PagingSim.LeastStamp | task2_memory_management/paging_sim.c:139-142 | The search gives the first frame with the least stamp |
| PagingSim.FrameOf | task2_memory_management/paging_sim.c:122-125 | The scan gives the first frame with the page, or -1 exactly when there is none |
| PagingSim.FrameTable.FindPage | task2_memory_management/paging_sim.c:42-47 | The scan gives the first frame with the page, or -1 exactly when there is none |
| PagingSim.BuildAddressesFromPages | task2_memory_management/paging_sim.c:168-176 | Fills one address per page, in the middle of the page; each non-negative page is translated back to itself; the rest of the array is untouched |
| PagingSim.MiddleOfPage | task2_memory_management/paging_sim.c:168-176 | A generated address has half of its page, rounded down, before it |
| PagingSim.PageBytes | task2_memory_management/paging_sim.c:37-39 | Which addresses translate to a page: its own bytes, two pages of bytes around zero for page 0 |
| PagingSim.AddressRoundTrip | task2_memory_management/paging_sim.c:37-39 | Translating a generated address gives its page back exactly for non-negative pages, or when pages are one byte |
| PagingSim.EmptyMarkAddresses | task2_memory_management/paging_sim.c:30-39 | The addresses whose page number is the mark of an empty frame |
| PagingSim.FalseHitAddress | task2_memory_management/paging_sim.c:30-47 | Address -4096 with pages of 4096 bytes and one empty frame: a hit in both loops, a fault of both algorithms |
| EmptyMark.FifoExactly | task2_memory_management/paging_sim.c:76-93 | The FIFO loop faults as FIFO does exactly when the mark comes only after as many distinct pages as frames |
| EmptyMark.LruExactly | task2_memory_management/paging_sim.c:120-147 | The same for LRU |
| EmptyMark.RecencyKept | task2_memory_management/paging_sim.c:122-145 | The recency list stays ordered by last use among all references, those that find the mark included |
| Lru.StackProperty | task2_memory_management/paging_sim.c:120-157 | With k frames LRU keeps exactly the k most recently used distinct pages, in order |
| Lru.ResidentCount | task2_memory_management/paging_sim.c:120-157 | The number of resident pages is the smaller of k and the distinct pages used |
| Lru.StackByLastUse | task2_memory_management/paging_sim.c:122-156 | The recency list is ordered by strictly decreasing time of last use |
| Lru.Inclusion | task2_memory_management/paging_sim.c:110-157 | The pages resident with k frames are resident with more frames, after every reference string |
| Lru.NoBeladyAnomaly | task2_memory_management/paging_sim.c:110-157 | Every reference that faults with more frames faults with fewer, so faults never increase with frames |
| Lru.HitIffReuseDistance | task2_memory_management/paging_sim.c:120-147 | An access hits exactly when its page was used before and fewer than k other distinct pages since |
| Lru.WindowFaults | task2_memory_management/paging_sim.c:120-157 | A window with at most k distinct pages faults at most once on each |
| Fifo.QueueDistinct | task2_memory_management/paging_sim.c:76-96 | Resident pages are pairwise distinct, and no more than the frames |
| Fifo.QueueIsLastLoads | task2_memory_management/paging_sim.c:84-91 | The resident pages are the last min(k, faults) pages loaded, in load order |
| Fifo.WindowFaults | task2_memory_management/paging_sim.c:76-96 | A window with at most k distinct pages faults at most once on each |
| FifoAnomaly.AnomalyExactly | task2_memory_management/paging_sim.c:76-96 | FIFO can fault more with k' frames than with k exactly when k < k' < 2k - 1 |
| FifoAnomaly.NoAnomaly | task2_memory_management/paging_sim.c:76-96 | From k frames to 2k - 1 or more FIFO never faults more, on any references |
| FifoAnomaly.EnoughFrames | task2_memory_management/paging_sim.c:76-96 | With a frame for every page used FIFO faults least |
| FifoAnomaly.WorstSmall | task2_memory_management/paging_sim.c:76-96 | The worst references for k < k' < 2k - 1 fault 2k' + 1 times with k frames |
| FifoAnomaly.WorstBig | task2_memory_management/paging_sim.c:76-96 | They fault 2k' + 2 times with k' frames |
| FifoAnomaly.BeladyAnomaly | task2_memory_management/paging_sim.c:181-200 | On the first test pattern FIFO faults 9 times with 3 frames and 10 times with 4 |
| Competitive.FifoAnomalySize | task2_memory_management/paging_sim.c:76-96 | Anomalies are bounded: (k' - k + 1) times the faults with k' frames is at most k' times those with k |
| Competitive.ConservativeBound | task2_memory_management/paging_sim.c:76-96 | Any trace that faults at most k times in windows of k pages obeys the competitive bound against every schedule |
| Competitive.LruCompetitive | task2_memory_management/paging_sim.c:120-157 | (k - h + 1) times the faults of LRU with k frames is at most k times the cost of any schedule on h <= k frames; no additive term |
| Competitive.FifoCompetitive | task2_memory_management/paging_sim.c:76-96 | The same bound for FIFO |
| Competitive.LruIsSchedule | task2_memory_management/paging_sim.c:120-157 | LRU is itself one of those schedules and its cost is its fault count, so the bound compares like with like |
| Competitive.FifoIsSchedule | task2_memory_management/paging_sim.c:76-96 | FIFO is itself one of those schedules and its cost is its fault count |
| Competitive.LruAgainstFifo | task2_memory_management/paging_sim.c:65-163 | The two policies of the simulator bounded against each other |
| RoundRobin.SlicesClosed | task1_process_threading/scheduler.c:103-131 | A process takes max(1, ceil(burst / quantum)) slices |
| RoundRobin.ServedInFull | task1_process_threading/scheduler.c:103-131 | Over the whole schedule each process runs for exactly its burst, in exactly its number of slices |
| RoundRobin.ServedSoFar | task1_process_threading/scheduler.c:152-166 | At every point of the schedule, how many turns and how much time each process has had |
| RoundRobin.CompletionTime | task1_process_threading/scheduler.c:152-166 | Process i with r slices finishes at the sum of min(b_j, q r) for j <= i and min(b_j, q (r - 1)) for j > i |
| RoundRobin.BoundedWait | task1_process_threading/scheduler.c:152-166 | Between two of its slices a process waits for at most (n - 1) quanta |
| RoundRobin.SlicesLeft | task1_process_threading/scheduler.c:125-131 | Time is left after r slices exactly when another slice is due |
| RoundRobin.RoundsLeast | task1_process_threading/scheduler.c:152-167 | The number of rounds is the least that gives every process all its slices |
| RoundRobin.EmptyRound | task1_process_threading/scheduler.c:152-162 | A pass over finished processes runs no slice |
| Dispatcher.InitialInv | task1_process_threading/scheduler.c:174-184 | The state that initialisation sets up satisfies the invariant |
| Dispatcher.ExecInv | task1_process_threading/scheduler.c:100-200 | Every interleaving of the dispatcher and the process threads keeps the invariant that places control, semaphores, mutex, control blocks and slices |
| DispatcherRuns.OneToken | task1_process_threading/scheduler.c:104-165 | In every reachable state exactly one of these has control: the dispatcher, one turn semaphore, one thread in its slice, or the done semaphore; so semaphores stay within 0 and 1 |
| DispatcherRuns.OneRunning | task1_process_threading/scheduler.c:107-130 | At most one process is running |
| DispatcherRuns.RemainingNatural | task1_process_threading/scheduler.c:108-125 | The remaining time never goes below zero |
| DispatcherRuns.NoDeadlock | task1_process_threading/scheduler.c:103-167 | In every reachable state that is not final some thread can step |
| DispatcherRuns.RunsTerminate | task1_process_threading/scheduler.c:103-167 | No run is longer than a bound fixed by bursts and quantum |
| DispatcherRuns.Completes | task1_process_threading/scheduler.c:149-200 | Every run can be continued to a final state |
| DispatcherRuns.SameSlices | task1_process_threading/scheduler.c:100-168 | Under every interleaving the slices run so far are the first ones of the sequential round robin |
| DispatcherRuns.FinalOutcome | task1_process_threading/scheduler.c:149-200 | Every final state: the whole round robin has run in its rounds plus one pass, all processes are done, all threads have exited |
| CounterRace.FinalBounds | task1_process_threading/scheduler.c:72-92 | Every interleaving ends with the protected counter at exactly n k and the unprotected one between 2 and n k, or k and n k for one thread or fewer than two increments |
| CounterRace.FinalValuesExactly | task1_process_threading/scheduler.c:72-92 | A value is a final value of the unprotected counter in some run exactly when it lies in that range; for two or more threads and increments the least is 2 |
| CounterRace.RunsEnd | task1_process_threading/scheduler.c:72-92 | Runs are bounded, and one that cannot go on has ended with every thread returned |
| CounterRace.StepInv | task1_process_threading/scheduler.c:81-89 | Each read, write, lock and unlock keeps the invariant |
| LockOrder.NoCircularWait | task1_process_threading/deadlock_demo.c:22-26 | With a global lock order the wait-for relation has no cycle in any reachable state, for any number of threads and locks |
| LockOrder.DeadlockFreedom | task1_process_threading/deadlock_demo.c:22-26 | With a global lock order no reachable state is stuck |
| LockOrder.RunsTerminate | task1_process_threading/deadlock_demo.c:76-107 | Every run is bounded by the total work, and uses it up exactly when every thread has finished |
| LockOrder.ReachableInv | task1_process_threading/deadlock_demo.c:76-107 | In every reachable state a lock is owned by exactly the thread that holds it |
| LockOrder.OwnsFirst | task1_process_threading/deadlock_demo.c:40-107 | Locks are released in the reverse of the order of acquiring: a thread owns the first of its locks, as many as it has acquired and not released |
| LockOrder.DeadlockIffCrossing | task1_process_threading/deadlock_demo.c:15-26 | Threads with any programs can deadlock exactly when their programs cross, a condition on the programs alone |
| LockOrder.SafeBuild | task1_process_threading/deadlock_demo.c:76-107 | The safe build never gets stuck |
| LockOrder.UnsafeBuild | task1_process_threading/deadlock_demo.c:40-68 | The unsafe build has a run that gets stuck |
| Sha256.Hash | task3_filesystem_security/crypto.c:123-128 | The in-place hash of any input is the digest of FIPS 180-4 |
| Sha256.Streaming | task3_filesystem_security/crypto.c:80-121 | However a message is cut into updates, the finished digest is the hash of the whole message |
| Sha256.FinishIsHash | task3_filesystem_security/crypto.c:92-114 | Finishing after any message, in one block or two, gives the hash words of the padded message |
| Sha256.AbsorbMeans | task3_filesystem_security/crypto.c:80-90 | After any message the context holds the hash of its whole blocks, the bytes left, and the bit count |
| Sha256.Sha256Ctx.Init | task3_filesystem_security/crypto.c:71-78 | The fresh context is the starting value |
| Sha256.Sha256Ctx.Update | task3_filesystem_security/crypto.c:80-90 | Absorbs the input byte by byte |
| Sha256.Sha256Ctx.Final | task3_filesystem_security/crypto.c:92-121 | Writes the digest of the finished state |
| Sha256.Sha256Ctx.Transform | task3_filesystem_security/crypto.c:49-69 | Replaces the state by its compression with the buffer, section 6.2.2 of FIPS 180-4 |
| Sha256.Sha256Ctx.MessageSchedule | task3_filesystem_security/crypto.c:52-55 | The two loops fill the 64 words of the message schedule |
| Sha256.Sha256Ctx.RunRounds | task3_filesystem_security/crypto.c:57-65 | The rolled loop ends with the working variables of 64 rounds |
| Sha256.Sha256Ctx.WriteLength | task3_filesystem_security/crypto.c:106-113 | The shifts write the 64-bit length, most significant byte first |
| Sha256.Sha256Ctx.WriteDigest | task3_filesystem_security/crypto.c:116-120 | The two loops write the digest of the state |
| Sha256.MacrosRotate | task3_filesystem_security/crypto.c:30-36 | The shift-and-or macros are the rotations of section 4.1.2 |
| Sha256.LoadIsWord | task3_filesystem_security/crypto.c:53 | Shifting and joining four bytes is reading a big-endian word |
| Sha256Example.HashOfAbc | task3_filesystem_security/crypto.c:38-128 | The hash words of "abc" are those that NIST publishes |
| Sha256Example.DigestOfAbc | task3_filesystem_security/crypto.c:116-120 | Its digest begins with the bytes ba and 78 |
| Sha256Spec.PadAligned | task3_filesystem_security/crypto.c:93-114 | The padding is block-aligned |
| Sha256Spec.PadLeast | task3_filesystem_security/crypto.c:95-103 | The padding uses the fewest zero bytes that fill a block |
| Sha256Spec.UnpadPad | task3_filesystem_security/crypto.c:93-114 | Every message is recovered from its padding |
| Sha256Spec.PadInjective | task3_filesystem_security/crypto.c:93-114 | Different messages never pad to the same blocks |
| Sha256Spec.DigestWords | task3_filesystem_security/crypto.c:116-120 | Every hash word is read back from its four bytes of the digest |
| Sha256Laws.LengthField | task3_filesystem_security/crypto.c:105-113 | The last eight bytes of a padded message, read as a base-256 number, are 8 times its length, modulo 2^64; for messages below 2^61 bytes exactly that |
| Sha256Laws.EndMark | task3_filesystem_security/crypto.c:93-103 | After the message come the byte 80 and zeros, up to the length |
| Sha256Laws.UnroundRound | task3_filesystem_security/crypto.c:59-65 | A round can be undone: subtracting what it added gives back the working variables |
| Sha256Laws.CompressUndone | task3_filesystem_security/crypto.c:49-69 | What a block adds to the hash words, with its 64 rounds run backwards, is the hash words before the block |
| Sha256Laws.BlockKeepsDifference | task3_filesystem_security/crypto.c:57-68 | A block that adds the same to two hash states found them the same, so no block forgets those before it |
| Sha256Spec.HashBlocksLast | task3_filesystem_security/crypto.c:84-88 | One block more compresses the hash of the blocks before |
| XorCipher.XorInPlace | task3_filesystem_security/crypto.c:153-160 | The first bytes of the buffer are XORed with the repeating hash of the passphrase, the rest untouched |
| XorCipher.XorTwice | task3_filesystem_security/crypto.c:153-160 | The cipher undoes itself, for every key and length |
| XorCipher.XorOfZeros | task3_filesystem_security/crypto.c:157-159 | Zero bytes are ciphered to the key, repeated |
| XorCipher.XorShowsKey | task3_filesystem_security/crypto.c:157-159 | Text and ciphertext differ, bit by bit, by the key repeated |
| XorCipher.JoinExactly | task3_filesystem_security/fileops.c:111-121 | Ciphering two pieces apart is ciphering them together exactly when the key repeats at the joint |
| XorCipher.JoinForEveryKey | task3_filesystem_security/fileops.c:111-121 | It is so for every 32-byte key exactly when the first piece is a multiple of 32 long or the second is empty |
| XorCipher.BytesToHex | task3_filesystem_security/crypto.c:162-167 | Writes two digits for each byte and a NUL, and nothing after it |
| XorCipher.UnhexHex | task3_filesystem_security/crypto.c:162-167 | The bytes are read back from their text |
| XorCipher.HexExample | task3_filesystem_security/crypto.c:162-167 | Bytes that need every digit, and their text |
| KeyValueStore.Store.PutKey | task4_network_ipc/server.c:71-94 | The in-place scan stores into the slot of the key, or the first free slot, or fails |
| KeyValueStore.Store.GetKey | task4_network_ipc/server.c:96-107 | The scan reads the first slot of the key |
| KeyValueStore.Store.DelKey | task4_network_ipc/server.c:109-120 | The scan frees the first slot of the key |
| KeyValueStore.Store.ListKeys | task4_network_ipc/server.c:122-136 | The scan writes the keys in use into the buffer until one does not fit, and leaves the buffer as it was when there is none |
| KeyValueStore.PutRefines | task4_network_ipc/server.c:71-94 | Storing succeeds exactly when the key is there or the map is below capacity, then sets the key, and otherwise changes nothing; keys stay unique |
| KeyValueStore.PutPlace | task4_network_ipc/server.c:71-93 | A value goes into the first slot in use for the key, and without one into the first slot not in use |
| KeyValueStore.GetRefines | task4_network_ipc/server.c:96-107 | Reading is looking up in the map |
| KeyValueStore.DelRefines | task4_network_ipc/server.c:109-120 | Deleting takes the key out of the map and tells whether it was there |
| KeyValueStore.ListMeans | task4_network_ipc/server.c:122-136 | What a list writes is the joined keys cut to the buffer; when they fit, the count is the number of keys |
| KeyValueStore.ListDecided | task4_network_ipc/server.c:122-136 | The store decides what a list leaves in the buffer exactly when some slot is in use |
| KeyValueStore.KeyCount | task4_network_ipc/server.c:51-94 | The size of the map is the number of slots in use |
| KeyValueStore.PutKeepsUniqueExactly | task4_network_ipc/server.c:87-91 | With a key of any length, keys stay unique exactly unless the cut key is already there |
| KeyValueStore.StoredTwice | task4_network_ipc/server.c:71-93 | Storing twice under a key of 64 characters fills two slots with one key |
| KeyValueStore.ReplayRefines | task4_network_ipc/server.c:71-136 | From an empty store every run of operations acts as on the bounded map |
| KeyValueStore.StoredIsRead | task4_network_ipc/server.c:71-107 | After a store and operations that spare its key, a read gives the stored value exactly when the store did not fail |
| KeyValueStore.ReadsFit | task4_network_ipc/server.c:76-77 | From an empty store no read gives more than a value buffer holds, whatever was stored |
| SharedStore.StepInv | task4_network_ipc/server.c:71-136 | Every atomic step of every client keeps the invariant: one lock holder, and slots as far changed as its operation has come |
| SharedStore.Linearizable | task4_network_ipc/server.c:71-136 | Under every interleaving of any number of clients, results and slots are those of the operations run one after the other in lock order |
| SharedStore.ActsAsMap | task4_network_ipc/server.c:71-136 | Whenever the lock is free the slots stand for the bounded map of the logged operations, no key twice |
| SharedStore.PutThenGet | task4_network_ipc/server.c:253-277 | A read after a store to its key, with only sparing operations between, finds the value exactly when the store did not fail |
| SharedStore.RealTimeOrder | task4_network_ipc/server.c:71-136 | An operation that ended before another was called comes before it in lock order |
| SharedStore.EntryOfCall | task4_network_ipc/server.c:71-136 | Each ended call stands in the log with its client and operation |
| SharedStore.NoDeadlock | task4_network_ipc/server.c:71-136 | While an operation is in progress some client can step |
| SharedStore.StepsPerCall | task4_network_ipc/server.c:71-136 | Clients take at most slots + 6 steps for each call |
| SharedStore.EveryCallAnswered | task4_network_ipc/server.c:71-136 | Calls are the logged operations and those in progress |
| Wire.Connection.RecvLine | task4_network_ipc/server.c:159-174 | The receiving loop: status, characters consumed and line left in the buffer, for every input |
| Wire.Connection.SendLine | task4_network_ipc/server.c:150-154 | Printing into the buffer of 514 characters and sending its C string sends the message and a newline, cut to 513 characters |
| Wire.PrintLine | task4_network_ipc/server.c:151-152 | The bounded print leaves in the buffer the message and a newline, cut to its size, and a NUL |
| Wire.FramingExactly | task4_network_ipc/server.c:150-174 | Whatever follows, the first line received is the message sent exactly when it has 1 to 510 characters, no newline or NUL, and no final carriage return; then exactly the rest is left |
| Wire.StreamExactly | task4_network_ipc/server.c:150-174 | A stream of messages is received message by message exactly when each is so |
| Wire.EmptyLineCloses | task4_network_ipc/server.c:166-170 | An empty line reads as the end of the connection |
| Wire.NewlineSent | task4_network_ipc/server.c:150-154 | A message goes out with its newline exactly when it has at most 512 characters |
| Wire.ParsePrinted | task4_network_ipc/server.c:212-213 | A printed command with any value parses to the value without leading spaces, up to a newline, cut to its field |
| Wire.ParseExactly | task4_network_ipc/server.c:212-213 | A printed command parses back to itself exactly when its key is a word that fits and its value fits, has no newline and does not begin with a space |
| Wire.ParseShort | task4_network_ipc/server.c:212-213 | A line of one word or of two leaves the fields after it empty |
| Wire.LongValueCut | task4_network_ipc/server.c:213 | A value of 400 characters is cut to 399 |
| Wire.RequestArrives | task4_network_ipc/server.c:150-213 | A store request that fits is what the server reads off the connection, whatever follows it |
| Wire.IsValidToken | task4_network_ipc/server.c:139-147 | The scan accepts exactly tokens within the length and without control characters |
| WireLaws.SentText | task4_network_ipc/server.c:150-154 | What goes out for a message, character by character |
| WireLaws.ServerFraming | task4_network_ipc/server.c:150-174 | With the buffers of the server, exactly the messages of 1 to 510 characters arrive, without newline or NUL and without a final carriage return |
| WireLaws.ReturnAndNewline | task4_network_ipc/server.c:159-174 | A line ended by carriage return and newline reads as what precedes both exactly when that has at most 509 characters, the empty one included; a longer one is an error |
| WireLaws.NoNewline | task4_network_ipc/server.c:159-174 | Without a newline, 511 characters are an error that uses them up, fewer the end of the connection |
| WireLaws.ParseSpaced | task4_network_ipc/server.c:212-213 | A command reads the same with any separators before it and between its words |
| Session.AuthenticatedExactly | task4_network_ipc/server.c:215-233 | A session is authenticated exactly when it heard an AUTH with the name and password of alice or bob, and stays so |
| Session.KnownExactly | task4_network_ipc/server.c:36-41 | The users are alice with alicepass and bob with bobpass, and nobody else |
| Session.NoRequestBeforeAuth | task4_network_ipc/server.c:247-297 | No line asks anything of the store before a successful AUTH |
| Session.FailedAttempts | task4_network_ipc/server.c:233-243 | The attempts counted are the failed AUTH lines, never more than three, and three close the session |
| Session.ReplyCount | task4_network_ipc/server.c:199-308 | Each event heard has one reply, a disconnection none, the third failed AUTH two |
| Session.RepliesBalance | task4_network_ipc/server.c:199-308 | Over a session, one reply for each event heard and one more exactly when it was closed for failed attempts |
| Session.RequestFits | task4_network_ipc/server.c:253-285 | Every operation asked of the store has a key and a value that slots hold whole |
| Session.OkPutMeans | task4_network_ipc/server.c:253-262 | A well-formed PUT is answered OK PUT always; its value is there exactly when the key was there or a slot was free |
| Session.OkPutWhenFull | task4_network_ipc/server.c:260-261 | A full store answers OK PUT and has no value |
| Session.RepliesFit | task4_network_ipc/server.c:216-306 | Every reply but a list has at most 512 characters |
| Session.ListAnswerFits | task4_network_ipc/server.c:291-296 | A list reply keeps its newline exactly when the joined keys and their count leave room |
| Session.ListAnswerDecided | task4_network_ipc/server.c:291-296 | The store decides the reply to a list exactly when some slot is in use |
| Session.LeftoverShown | task4_network_ipc/server.c:291-296 | With no key in use the reply is OK LIST 0 and the text left in the buffer |
| Session.LongList | task4_network_ipc/server.c:291-296 | Eight long keys make a list reply too long to be sent with its newline |
| ClientHandler.HandleClient | task4_network_ipc/server.c:199-308 | While no other client uses the store, the connection loop sends exactly the replies of the session and leaves in the store what its operations make |
| ClientHandler.Execute | task4_network_ipc/server.c:253-306 | One command of an authenticated client: its effect on the slots and its reply |
| ClientHandler.CheckCredentials | task4_network_ipc/server.c:220-227 | The scan accepts exactly alice with alicepass and bob with bobpass |
| ClientHandler.ServeEnds | task4_network_ipc/server.c:199-308 | Serving ends with the session closed and the store changed by the session's operations alone, in order |
| ClientHandler.LaterIsAfter | task4_network_ipc/server.c:199-308 | The session served from a new client is the one of the session properties |
| ClientHandler.ServeHears | task4_network_ipc/server.c:199-208 | Serving hears the lines of the input one by one in order, and last how it ends, until the session is closed |
| SessionLaws.StrangerTurn | task4_network_ipc/server.c:215-251 | A line of a client not yet known: OK AUTH exactly for alice with alicepass and bob with bobpass, the attempts counted, the third failure closing with two replies, any other command refused; the store untouched |
| SessionLaws.AuthAgain | task4_network_ipc/server.c:215-219 | A second AUTH is refused and changes nothing |
| SessionLaws.LoggedInExactly | task4_network_ipc/server.c:215-233 | Over a session: authenticated exactly when an AUTH line with the name and password of one of the two users was heard while it was open |
| SessionLaws.LoginPrinted | task4_network_ipc/server.c:212-227 | A printed AUTH line logs in exactly with these names and passwords |
| SessionLaws.PutTurn | task4_network_ipc/server.c:253-262 | PUT: the map gets the whole value under the key when the key is there or a slot is free; the reply is OK PUT either way, and ERR PUT invalid_input exactly for a bad key or no value |
| SessionLaws.GetTurn | task4_network_ipc/server.c:264-277 | GET: the value in the map after OK GET, cut to 511 characters, not_found exactly without the key, invalid_input exactly for a bad key; nothing changes |
| SessionLaws.DelTurn | task4_network_ipc/server.c:279-289 | DEL: OK DEL exactly when the key is in the map, not_found otherwise, invalid_input for a bad key; the key is not in the map afterwards |
| SessionLaws.ListTurn | task4_network_ipc/server.c:291-297 | LIST: the count, then the joined keys cut to 511 characters, all cut to 543; the leftover text when no key is in use; nothing changes |
| SessionLaws.ListedKeys | task4_network_ipc/server.c:122-136 | The keys in use are read back, in slot order, from a list in which they fit, and their number is the count; in one they do not fit, all but the last key counted are whole |
| SessionLaws.DecimalMeans | task4_network_ipc/server.c:295 | Counts are written in decimal without leading zeros |
| SessionLaws.OtherTurn | task4_network_ipc/server.c:299-307 | QUIT is answered OK BYE and closes the session; what is no command is answered ERR unknown_command |
| SessionLaws.NoLineTurn | task4_network_ipc/server.c:201-209 | The end of the connection closes the session in silence, a violation with one reply; a closed session hears nothing |
| Server.ExecInv | task4_network_ipc/server.c:182-313 | Every interleaving of sessions and of their atomic steps in the store keeps the invariant |
| Server.LoggedWasAuthorised | task4_network_ipc/server.c:182-313 | Every operation in the store's log was asked for by a session after a successful AUTH, and has its result there |
| Server.ServerActsAsMap | task4_network_ipc/server.c:51-52 | Whatever the clients send and however they interleave, whenever the lock is free the store of 128 slots stands for the bounded map of the logged operations |
| Server.PutThenGetAcross | task4_network_ipc/server.c:253-277 | A PUT by one client is answered OK PUT in any case; a GET by another, with only sparing operations between, is answered with the value exactly when the store took it |
| ServerLaws.AnsweredAsTheMap | task4_network_ipc/server.c:253-297 | Under every interleaving of sessions, each logged operation was asked for at a step of its client, and answered with the reply that the map of the operations logged before it asks for |
| ServerLaws.DelThenGetAcross | task4_network_ipc/server.c:264-289 | After a DEL by one client, until the key is stored again, a GET or DEL of it by any client is answered not_found; the DEL itself OK DEL exactly when the key was there |
| ServerLaws.RequestsLogged | task4_network_ipc/server.c:182-313 | Every step of a session that asked the store for an operation has it in the log with its result: no request is lost |
| FileMeta.IsValidPermString | task3_filesystem_security/perms.c:12-19 | Accepts exactly nine places that each hold their own letter or a dash |
| FileMeta.PermittedMeans | task3_filesystem_security/perms.c:117-131 | Access is granted exactly when its letter stands in the part of the owner, else of the group, else of everybody |
| FileMeta.MetaFile.FindFileMeta | task3_filesystem_security/perms.c:21-35 | The scan gives the first record of the name |
| FileMeta.MetaFile.CreateFileMeta | task3_filesystem_security/perms.c:37-56 | Appends a record for a valid permission string and a new name |
| FileMeta.MetaFile.RewriteMatching | task3_filesystem_security/perms.c:60-96 | Reads back the records up to the limit and writes them out with the named one changed or left out |
| FileMeta.MetaFile.ChmodFile | task3_filesystem_security/perms.c:98-103 | Changes the permissions when the string is valid, and tells whether the name was met |
| FileMeta.MetaFile.SetEncryptedFlag | task3_filesystem_security/perms.c:105-109 | Changes the flag of the name, and tells whether it was met |
| FileMeta.MetaFile.DeleteFileMeta | task3_filesystem_security/perms.c:111-115 | Leaves the name out, and tells whether it was met |
| FileMeta.LookupIsMap | task3_filesystem_security/perms.c:21-35 | Finding a record is looking its name up in the map |
| FileMeta.CreateRefines | task3_filesystem_security/perms.c:37-56 | Creating succeeds exactly for valid permissions and a name not there, appends one record, and otherwise changes nothing |
| FileMeta.CreateKeepsUniqueExactly | task3_filesystem_security/perms.c:40-44 | With a name of any length, names stay unique exactly unless the cut name is already there |
| FileMeta.CreatedTwice | task3_filesystem_security/perms.c:40-44 | A name of 64 characters can be created twice |
| FileMeta.UpdateExactly | task3_filesystem_security/perms.c:68-95 | An update rewrites the list as if all records were read back exactly when there are at most 1024 |
| FileMeta.OthersKeptExactly | task3_filesystem_security/perms.c:68-95 | A rewrite keeps all records of other names, in order, exactly when every record past 1024 has the name |
| FileMeta.RemoveExactly | task3_filesystem_security/perms.c:68-95 | A removal keeps all other records exactly when every record past 1024 has the name |
| FileMeta.RewriteLosesRecord | task3_filesystem_security/perms.c:68-95 | With 1025 files, changing the first loses the last |
| FileMeta.OthersUntouched | task3_filesystem_security/perms.c:80-93 | A rewrite keeps the records of other names, unchanged and in order |
| FileMeta.UpdateRefines | task3_filesystem_security/perms.c:60-109 | Within the limit, chmod and flag changes alter the map at the name alone and keep records well formed |
| FileMeta.RemoveRefines | task3_filesystem_security/perms.c:60-115 | Within the limit, a removal takes the name alone out of the map |
| FileMeta.ReplayRefines | task3_filesystem_security/perms.c:21-115 | Over every run within the limits names stay unique, permissions valid, and the records stand for the map the operations make |
| FileOps.FileSystem.FsCreateFile | task3_filesystem_security/fileops.c:33-54 | Creates the record and stores the content, or changes nothing |
| FileOps.FileSystem.FsReadFile | task3_filesystem_security/fileops.c:56-86 | A permitted read gives the first bytes, deciphered when the file is encrypted and a passphrase is given |
| FileOps.FileSystem.FsWriteFile | task3_filesystem_security/fileops.c:88-127 | A permitted write replaces or extends the stored bytes, ciphered when the file is encrypted and a passphrase is given |
| FileOps.FileSystem.FsDeleteFile | task3_filesystem_security/fileops.c:129-147 | A permitted delete removes bytes and record |
| FileOps.FileSystem.Transform | task3_filesystem_security/fileops.c:154-202 | A permitted transform from the opposite flag ciphers the bytes in place and sets the flag |
| FileOps.StepExactly | task3_filesystem_security/fileops.c:33-202 | With any passphrase or none and any number of records, each operation keeps records, flags and stored bytes standing for the plaintexts exactly when its rewrite loses no file and what it ciphers is ciphered as the key of the file asks |
| FileOps.PlainFileFits | task3_filesystem_security/fileops.c:111-121 | A plain file is written rightly with any passphrase or none |
| FileOps.OwnPassphrase | task3_filesystem_security/fileops.c:111-192 | With its own passphrase an encrypted file is overwritten, encrypted and decrypted rightly, and appended to rightly exactly when the key repeats at the joint |
| FileOps.AlignedAppend | task3_filesystem_security/fileops.c:111-121 | An append with the file's own passphrase to a length that is a multiple of 32 is always right |
| FileOps.RunRepresents | task3_filesystem_security/fileops.c:33-202 | Over every run of such operations stored bytes and flags stand for the plaintexts |
| FileOps.ReadExactly | task3_filesystem_security/fileops.c:56-86 | A permitted read with any passphrase or none gives the plaintext, as much as the buffer takes, exactly when the file is plain or the passphrase gives the key's bytes over that much |
| FileOps.DecryptRestoresExactly | task3_filesystem_security/fileops.c:154-214 | Decrypting what was just encrypted restores all files exactly when the two passphrases' keys agree over the file, so with the same passphrase always |
| FileAccess.AccessExactly | task3_filesystem_security/fileops.c:56-202 | For files of any history: read exactly with r in the part that applies to the user, written and deleted exactly with w, encrypted or decrypted exactly with w and the opposite flag |
| FileAccess.CreateExactly | task3_filesystem_security/fileops.c:33-54 | Created exactly with nine places that each hold their own letter or a dash, under a name not there |
| FileAccess.CreatedRecord | task3_filesystem_security/fileops.c:33-54 | The record of a created file holds its owner and group cut to 31 characters, its permissions and no flag, and its content is stored under its name |
| FileAccess.CreatedAccess | task3_filesystem_security/fileops.c:56-202 | From creation on: each user reads, writes, deletes or encrypts the file exactly when the letter stands in the part chosen by his name, else his group; nobody decrypts it; nobody finds it when its name was cut |
| FileAccess.OwnFile | task3_filesystem_security/fileops.c:56-86 | The creator reads a file meant for its owner alone exactly when neither the file name nor his own was cut |
| FileAccess.EncryptedBytes | task3_filesystem_security/fileops.c:154-202 | Encryption stores the bytes XORed with the hash of the passphrase, repeated every 32 bytes |
| FileAccess.ZerosUnderAbc | task3_filesystem_security/fileops.c:154-202 | Two zero bytes encrypted under the passphrase "abc" are stored as ba 78 |
| FileAccess.WrittenIsRead | task3_filesystem_security/fileops.c:56-127 | What was written to a plain file is read back, after what was there before when it was appended |
| FileAccess.DeletedIsGone | task3_filesystem_security/fileops.c:129-147 | After a delete nobody reads the file, with any number of records |
| FileAccess.ChmodDecides | task3_filesystem_security/perms.c:98-103 | Anybody can change permissions, exactly to valid ones and among the first 1024 records; the new ones decide from then on, for the owner and group of before |
| FileAccess.PathOf | task3_filesystem_security/fileops.c:22-31 | A file is stored under its name in the directory, the path cut to 95 characters |
| FileOps.OneByteWrite | task3_filesystem_security/fileops.c:103-121 | Writing to an encrypted file of one byte fails exactly when the passphrase given, or none, does not give the byte of the key at the joint |
| FileOps.OneByteRead | task3_filesystem_security/fileops.c:76-82 | Reading it fails exactly when the passphrase, or none, does not give the first byte of the key |
| FileOps.FailingRuns | task3_filesystem_security/fileops.c:76-121 | Under the passphrase "abc", a write and a read without a passphrase and an append with the right one go wrong |

## Left out

- Sockets, Winsock start-up, the accept loop, thread creation calls and `client.c`: a connection is the text
  that will arrive on it and whether it ends in an error, a client is what it sends.
- Menus, traces, hit ratios, `log_msg`, `audit.c`, clocks, sleeping and yielding: no state depends on them.
- Failures to open, read or write files or to allocate memory: storage is a map from paths to bytes, and the
  metadata file is a sequence of records.
- `generate_salt`, `hash_password` and `auth.c`: an append-only list compared by hash adds nothing hard.
- The C memory model: every shared read, shared write, lock and semaphore operation is one atomic step.
- The dispatcher, the counter race, the lock demonstration and the interleaved store are transition systems
  over values and not methods, because threads interleave inside their loops.
- 32-bit overflow of page arithmetic, counters and burst sums: integers are unbounded.
- Cipher strength and collision resistance.
- Sha256Spec.PadInjective: for messages of 2^61 bytes or more the length field is taken modulo 2^64 bits, as
  the running count of the program is; FIPS 180-4 does not define a hash for them.
- KeyValueStore.Store.ListKeys: the text left in the buffer is a parameter; reading an uninitialised buffer past
  its end, when it holds no NUL, is not modelled otherwise.
- KeyValueStore.PutRefines: keys of 64 or more characters are in `KeyValueStore.PutKeepsUniqueExactly` only,
  since no session can send one.
- ClientHandler.HandleClient: assumes that no other client uses the store while it runs; any number of sessions
  at once are in `Server`, as transitions over values.
- FileOps.StepExactly: file names are shorter than 64 characters, as the menu reads them into a buffer of that
  size; storage is a map by path text, so names with path components, such as "x" and "./x", count as two files
  although a file system may take them for one.
- FileOps.Transform: an empty file is taken as any other, although allocating zero bytes may fail.
