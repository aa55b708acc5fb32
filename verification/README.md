# Verified model of the C library's stateful cores

This Dafny project models the parts of the library in which a fast, stateful form has to
agree with a simple one, and the two lock protocols, and proves that they do.

- **Block array and flat array** (`Strides`, `ExtArray`, `BlockArray`, `StrideLaws`,
  `Lockstep`). Both arrays are classes over what the code mutates: a doubly linked chain of
  partly filled blocks, and one byte array with a length. Strided access is described once,
  by which byte offsets belong to elements of the stride. Every operation of both arrays is
  proved against that description, and a run of any history on both ends with equal bytes
  and equal replies, for every block capacity.
- **Robin Hood hash table** (`RobinHoodSlots`, `RobinHood`). The probe, swap and shift loops
  run over an array of slots; any history of insertions, lookups and removals is that of a
  finite map. Both headers are one table: the key is what is hashed and compared.
- **Shared/exclusive spin latch** (`SpxLatch`, `SpxRuns`). One step is one atomic access of one thread,
  which keeps its stale copy of the word; weak compare-and-swap may fail for no reason.
- **Granularity lock** (`GrLockModel`, `GrLock`, `GrLockRuns`,
  `LockTree`, `LockRights`). A state machine whose steps are
  the mutex-protected sections, the counts and the waiter list that implement each step over
  any history, the rule for parents in a tree of locks, and the rights that the modes give.
- **Slab allocator** (`SlabAlloc`, `SlabRuns`). Freelists threaded through the first words of free cells,
  slabs in a doubly linked list, a cached slab, and empty slabs given back; any history of
  it, and the block array's own history of blocks played on it.
- **Circular buffer** (`Rings`, `CBuffer`, `CBufferRuns`). Head, tail and full flag over the
  caller's array; any history is that of a bounded byte queue, and that of two
  buffers with transfers between them that of two queues.
- **Arithmetic cores** (`Crc32c`, `Bounds`, `Numbers`, `Slices`). Table-driven CRC32C against
  the bitwise definition of section 12.1 of RFC 3720, overflow guards, decimal parsing and
  Python-style slices.

Where the code falls short of what its documentation or tests suggest, the model follows the
code and a lemma or postcondition says exactly when the promise is kept:

- A block-array removal of no elements fails its own assertion exactly when the block that
  holds the starting byte is full (`BlockArrays.BlockArray.Remove`,
  `BlockArrays.RemoveNothingFails`).
- On a hash table without a free slot a failed insertion leaves the table as it was exactly
  when no entry on the way is nearer to its home than the probe; otherwise an entry is lost
  (`RobinHood.Table.Insert`, `RobinHood.FullTableLosesEntry`). The table can then be left
  without a slot that is empty or at home; on such a table, and on no other, deleting a
  present key is answered with DOESNT_EXIST and leaves another entry stored twice
  (`RobinHood.Table.Delete`, `RobinHood.DeleteRunsOut`).
- Buffer pops compare nothing but emptiness; a pop shortens the buffer exactly when it asks
  for no more than is held (`CBuffers.PopShortens`). The guard of `cbuffer_get` compares an
  element index with a byte count, so that some indices out of range reach an assertion
  instead of the documented `false` (`CBuffers.CBuffer.Get`, `CBuffers.GetStops`). The header describes pop_back
  and peek_back as working on the head side; the code and its tests use the tail side.
- A slice step has 64 bits and the resolved distance 32; the resolved stride lists the slice
  exactly when the step fits or reaches over all that is between the bounds
  (`Slices.SliceIffStepFits`, `Slices.StepLost`).

`ok` results stand for the code's assertions: false means that the program would stop.
`ended` says whether a loop ended before it ran out. `Arith` holds what several models use.

## Model

| member | source | states |
|---|---|---|
| Lockstep.RunBoth | src/dev/data_validator.c:408-540 | for every history in scope and every block capacity, the block array and the flat array started empty end with the same bytes and have given the same counts and output bytes, a function of the history alone |
| Lockstep.BlockStep | src/ds/block_array.c:84-552 | each block-array operation in scope has the effect and the reply of the flat byte sequence |
| Lockstep.FlatStep | src/ds/ext_array.c:63-175 | each flat-array operation in scope has the effect and the reply of the flat byte sequence |
| Lockstep.CutPrefix | src/ds/block_array.c:182-273 | the bytes of the whole elements of a read are the first bytes of all those copied out, so that the two arrays' outputs agree on what is counted |
| Lockstep.CutNothing | src/dev/data_validator.c:207-276 | on data of whole elements, cutting a stride to the elements that fit changes neither the bytes taken nor the bytes written |
| Lockstep.SameIffNoneCut | src/ds/ext_array.c:94-115 | on data of any length, the whole elements the flat array reads are all the bytes the block array copies out if and only if the end of the data cuts through no element |
| Lockstep.WritesSameIffNoneCut | src/ds/ext_array.c:117-138 | on data of any length, the flat array's write of the whole elements and the block array's write of every selected byte leave the same bytes for every source if and only if no element is cut |
| Lockstep.RemovalsSameIffAligned | src/ds/ext_array.c:140-175 | on data of any length, the removals of the two arrays leave the same bytes and return the same count if and only if the data are whole elements |
| Lockstep.PlainRead | src/dev/data_validator.c:45-117 | reading elements a to b - 1 that lie inside is in scope, is answered with their number and exactly their bytes, and changes nothing |
| Lockstep.PlainWrite | src/dev/data_validator.c:207-276 | writing them replaces exactly their bytes by the first ones of the source |
| Lockstep.PlainRemove | src/dev/data_validator.c:278-369 | removing them takes exactly their bytes out and is answered with them |
| Lockstep.StridedReply | src/dev/data_validator.c:45-117 | for every stride, the reply to a read is as long as the elements that lie inside, and each of its bytes is that of the element it belongs to |
| Lockstep.AnyStrideInScope | src/dev/data_validator.c:408-540 | no stride of at least one element and no offset up to the length is left out of the histories |
| Lockstep.InsertedAndRemoved | src/dev/data_validator.c:119-205 | an insertion and the removal of what was inserted are answered with these bytes and restore the data |
| Lockstep.BytesBalance | src/dev/data_validator.c:408-540 | over every history without writes, the bytes at the start and those inserted are, as a multiset, those in the replies to the removals and those left |
| BlockArrays.BlockArray.constructor | src/ds/block_array.c:29-46 | an empty array holds no bytes and no live block |
| BlockArrays.BlockArray.Insert | src/ds/block_array.c:84-174 | a splice at any offset up to the length; the list stays well linked, no block overfull, and the list's blocks are exactly the allocator's live cells; only one block is touched, and only as many new ones follow it as are needed |
| BlockArrays.BlockArray.AllocEmpty | src/ds/block_array.c:55-82 | a fresh block is linked behind its predecessor with next and prev inverse to each other, and is the one new live cell |
| BlockArrays.BlockArray.SplitAt | src/ds/block_array.c:102-117 | cutting a block at the offset leaves the bytes in front of it, and the bytes put aside with the blocks behind are the rest |
| BlockArrays.BlockArray.AppendAll | src/ds/block_array.c:121-167 | bytes are appended behind a block; new blocks are taken only when the last one is full, and nothing in front of it or behind it changes |
| BlockArrays.BlockArray.Read | src/ds/block_array.c:182-273 | the count is that of the whole elements inside the data, the output all selected bytes in order, across block boundaries |
| BlockArrays.BlockArray.Write | src/ds/block_array.c:275-366 | the selected bytes are replaced in order by those of the source, everything else stays |
| BlockArrays.BlockArray.Remove | src/ds/block_array.c:368-552 | exactly the selected bytes leave, in order, into dest, the others stay in order; freed blocks leave the live set; the internal assertions hold if and only if it is not a removal of nothing from a full block |
| BlockArrays.BlockArray.RemoveSelected | src/ds/block_array.c:404-498 | the first phase ends with the kept bytes before the write cursor and the removed ones delivered, the write cursor behind the read cursor |
| BlockArrays.BlockArray.MoveChunk | src/ds/block_array.c:439-461 | a move between the cursors keeps the kept bytes in order; the assertion about the next write block holds if and only if the cursors are not in the same block when it fills up |
| BlockArrays.BlockArray.NextBlock | src/ds/block_array.c:472-497 | an exhausted read block is left, and dropped when it is not the write block, without losing a byte |
| BlockArrays.BlockArray.CloseGap | src/ds/block_array.c:500-547 | the second phase moves the rest behind the kept bytes; exact condition for its assertion |
| BlockArrays.BlockArray.GetLen | src/ds/block_array.c:554-565 | the sum of the blocks' lengths is the length of the flat bytes |
| BlockArrays.RemoveNothingFails | src/ds/block_array.c:518-525 | two bytes inserted into blocks of two, then a removal of no elements at the start: the program stops |
| ExtArrays.ExtArray.Reserve | src/ds/ext_array.c:47-61 | room is made without changing the contents |
| ExtArrays.ExtArray.Insert | src/ds/ext_array.c:63-92 | a splice at any offset up to the length |
| ExtArrays.ExtArray.Read | src/ds/ext_array.c:94-115 | the whole elements inside the data and their number |
| ExtArrays.ExtArray.Write | src/ds/ext_array.c:117-138 | exactly the bytes of the whole elements inside the data are replaced |
| ExtArrays.ExtArray.Remove | src/ds/ext_array.c:140-175 | the in-place compaction keeps exactly the bytes not selected, in order, and delivers the selected ones; of a last element that the length cuts, the bytes behind the length take part, as in the code |
| StrideLaws.Conservation | src/ds/block_array.c:368-552 | removed and kept bytes together are the original bytes as a multiset |
| StrideLaws.ElementRead | include/c_specx/ds/stride.h:22-28 | byte k of element t of a read is byte k of element start + t * stride |
| StrideLaws.TakenElements | include/c_specx/ds/stride.h:22-28 | up to the end of element t exactly t whole elements are taken |
| StrideLaws.GapKept | src/ds/block_array.c:368-552 | what removal keeps between two removed elements is the gap between them, unchanged |
| StrideLaws.WriteThenRead | src/ds/block_array.c:275-366 | reading a stride just written gives the bytes written |
| StrideLaws.WrittenAt | src/ds/block_array.c:275-366 | a byte after a write is the source byte of its rank when selected and the old byte otherwise |
| StrideLaws.InsertThenRemove | src/dev/data_validator.c:119-205 | removing what was just inserted returns it and restores the bytes |
| StrideLaws.CountIsWhole | src/ds/ext_array.c:94-115 | the number of whole elements is unique, so equal counts are forced |
| RobinHood.Replay | include/c_specx/ds/robin_hood_ht.h:71-258 | for every hash, size and history in scope the table answers and holds what a finite map does in which an insertion never overwrites |
| RobinHood.RepliesTell | include/c_specx/ds/robin_hood_ht.h:82-258 | every reply of a history, from the operations before it alone: a lookup finds what was put first under the key since its last removal, and an insertion says EXISTS exactly when there is such a value |
| RobinHood.ShortFits | include/c_specx/ds/robin_hood_ht.h:82-129 | every history of at most as many operations as slots is in scope |
| RobinHood.Table.constructor | include/c_specx/ds/robin_hood_ht.h:71-80 | the initialised table stands for the empty map |
| RobinHood.Table.Get | include/c_specx/ds/robin_hood_ht.h:138-184 | the early exit never misses a stored key: found exactly when in the map, with its value |
| RobinHood.Table.Insert | include/c_specx/ds/robin_hood_ht.h:82-129 | EXISTS exactly when the key is present, and then nothing changes; SUCCESS exactly when it is absent and a slot is free; on FULL exactly one entry of the enlarged map is dropped, the new one if and only if nothing moved; no slot is given to an entry nearer to its home |
| RobinHood.Table.Delete | include/c_specx/ds/robin_hood_ht.h:193-258 | exactly the key's entry goes and every other key stays findable, also on a full table, if and only if the key is absent or some slot is empty or at home; otherwise the answer is that the key is not there, it is gone nevertheless, and another entry is stored twice |
| RobinHood.Table.ShiftBack | include/c_specx/ds/robin_hood_ht.h:234-254 | the shift loop meets an empty slot or an entry at home before it runs out if and only if the table has one |
| RobinHood.Table.Count | include/c_specx/ds/robin_hood_ht.h:260-277 | the number of present slots is the size of the map |
| RobinHood.FullTableLosesEntry | include/c_specx/ds/robin_hood_manual_ht.h:72-121 | two keys of one home inserted into two slots, then a third: it is stored, the answer is FULL, and one of the two is lost |
| RobinHood.DeleteRunsOut | include/c_specx/ds/robin_hood_ht.h:193-258 | deleting the third key from that table is answered with DOESNT_EXIST and leaves another entry stored twice |
| RobinHoodSlots.StopMeansAbsent | include/c_specx/ds/robin_hood_manual_ht.h:192-202 | an empty slot or a smaller dib on the probe path proves that the key is nowhere further on |
| RobinHoodSlots.PathFilled | include/c_specx/ds/robin_hood_manual_ht.h:81-118 | in front of an entry the whole way from its home is filled with entries at least as far from theirs |
| RobinHoodSlots.InsertSwap | include/c_specx/ds/robin_hood_manual_ht.h:96-111 | swapping the carried entry with a nearer one keeps the invariant and the entries, one still carried |
| RobinHoodSlots.InsertHere | include/c_specx/ds/robin_hood_manual_ht.h:86-94 | putting the carried entry in the empty slot completes the insertion and leaves a spare slot for deletion |
| RobinHoodSlots.HoleMove | include/c_specx/ds/robin_hood_manual_ht.h:229-234 | moving the next entry into the hole keeps dibs, order and every other entry |
| RobinHoodSlots.HoleGoesOn | include/c_specx/ds/robin_hood_manual_ht.h:215-235 | without a slot that is empty or at home, the slot behind the hole always holds an entry to be moved, all the way round |
| RobinHoodSlots.HoleRunsOut | include/c_specx/ds/robin_hood_manual_ht.h:229-237 | the last move then leaves the entry at the home in two slots; the keys stored are the old ones without the deleted one |
| RobinHoodSlots.Occupancy | include/c_specx/ds/robin_hood_ht.h:260-277 | present slots count distinct keys, and a slot is free exactly when they are fewer than the slots |
| RobinHoodSlots.StoredAt | include/c_specx/ds/robin_hood_ht.h:93-94 | an entry is dib slots behind the slot that is its hash modulo the size, going round |
| RobinHoodSlots.NothingInFront | include/c_specx/ds/robin_hood_ht.h:82-129 | an entry with no filled slot in front of it is in the slot that is its hash modulo the size |
| SpxLatch.InvAlways | include/c_specx/concurrency/spx_latch.h:35-119 | in every state of every run of up to 65535 threads the word is the number of shared holders plus the exclusive bit, set exactly while one thread drains or is exclusive |
| SpxLatch.InvStep | include/c_specx/concurrency/spx_latch.h:35-119 | every atomic access of any thread keeps that invariant |
| SpxLatch.ExclusiveIsAlone | include/c_specx/concurrency/spx_latch.h:115-119 | beside an exclusive thread nobody holds the latch and the word is the exclusive bit alone, so the plain store of 0 discards no reader |
| SpxLatch.DrainStep | include/c_specx/concurrency/spx_latch.h:69-113 | while one thread drains, no shared hold is granted and each step of a shared holder lowers the ranking |
| SpxLatch.DrainBound | include/c_specx/concurrency/spx_latch.h:69-113 | over any run of a drain the shared holders take at most four steps each |
| SpxLatch.UpgraderGivesBack | include/c_specx/concurrency/spx_latch.h:69-104 | concurrent upgrades do not deadlock: another upgrader gives its shared hold back with its third own step at the latest |
| SpxLatch.DrainFinishes | include/c_specx/concurrency/spx_latch.h:108-112 | the draining thread becomes exclusive with its next step exactly when no shared holder is left |
| SpxLatch.AlwaysEnabled | include/c_specx/concurrency/spx_latch.h:35-119 | no thread is ever without a next step |
| SpxRuns.UpgradeEndsExclusive | include/c_specx/concurrency/spx_latch.h:69-113 | over every run, an upgrade that is over has ended with the exclusive hold, and with nothing else before |
| SpxRuns.LockEndsShared | include/c_specx/concurrency/spx_latch.h:35-61 | over every run, a lock call that is over has ended with the shared hold |
| SpxRuns.WayOfStep | include/c_specx/concurrency/spx_latch.h:35-119 | where each access can lead: upgrades only on or to the exclusive hold, lock calls only on or to the shared one |
| SpxRuns.LockGranted | include/c_specx/concurrency/spx_latch.h:35-61 | while no thread has the exclusive bit, a thread running alone gets the shared hold from anywhere in the lock call, however stale its copy of the word; the word grows by one |
| SpxRuns.UpgradeGranted | include/c_specx/concurrency/spx_latch.h:69-113 | while nobody else holds the latch, a thread running alone becomes exclusive from anywhere in the upgrade, also after giving its hold back |
| SpxRuns.WholeWay | include/c_specx/concurrency/spx_latch.h:35-119 | one thread goes from idle through shared and exclusive back to idle with the words 0, 1, 0x10000 and 0 |
| SpxRuns.SwapMayFail | include/c_specx/concurrency/spx_latch.h:40-61 | a weak compare-and-swap may fail on the expected word |
| GrLockModel.InvAlways | src/concurrency/gr_lock.c:172-254 | after every history of any number of threads counts equal outstanding grants, grants are compatible, no wakeup is lost and the waiters are the blocked threads in arrival order |
| GrLockModel.InvStep | src/concurrency/gr_lock.c:172-254 | each mutex-protected section keeps that invariant |
| GrLockModel.ReachableGrants | src/concurrency/gr_lock.c:24-31 | any two reachable grants are compatible; X stands alone and there is at most one SIX |
| GrLockModel.WaitersGetOn | src/concurrency/gr_lock.c:100-110 | every waiter that could join has been signalled; with no holders left, the retry of any waiter acquires the lock |
| GrLockModel.UnlockNeverStops | src/concurrency/gr_lock.c:238-254 | the assertion that the mode is held never fails when a hold is given back, after any history |
| LockRights.MatrixIsRights | src/concurrency/gr_lock.c:24-31 | two modes are compatible if and only if neither may write what the other may read or write as a whole |
| LockRights.GrantedIffFree | src/concurrency/gr_lock.c:172-186 | after every history a lock call is granted at once if and only if no holder has clashing rights, and otherwise its thread is last in the list |
| LockRights.TriedAndRetried | src/concurrency/gr_lock.c:198-236 | so it is for a try with the mutex free and for a waiter that looks again |
| LockRights.AllGranted | src/concurrency/gr_lock.c:172-186 | calls whose rights do not clash are all granted, in any number and order, and nobody waits |
| LockRights.GrantedTogether | src/concurrency/gr_lock.c:24-31 | any number of IS and IX, any number of IS and S, one SIX with any number of IS, and an X alone are granted without a wait |
| LockRights.AnyoneMayCall | src/concurrency/gr_lock.c:172-254 | after every history a thread that does not wait may call and try, any waiter may look again, signalled or not, and any hold may be given back |
| LockRights.SignalsTell | src/concurrency/gr_lock.c:100-110 | a release signals exactly the waiters whose rights clash with no hold that is left, and a waiter that looks in vain is unsignalled again |
| GrLocks.GrLock.IsCompatible | src/concurrency/gr_lock.c:87-98 | true exactly when the mode is compatible with every mode that is held |
| GrLocks.GrLock.WakeWaiters | src/concurrency/gr_lock.c:100-110 | exactly the waiters that could join are signalled |
| GrLocks.GrLock.Append | src/concurrency/gr_lock.c:128-150 | a new waiter goes to the end of the well-formed list |
| GrLocks.GrLock.Remove | src/concurrency/gr_lock.c:152-170 | a waiter leaves the list from any place and the others keep their order |
| GrLocks.GrLock.LockSection | src/concurrency/gr_lock.c:172-214 | the first section of a lock call is one step of the state machine: granted, or last in the list |
| GrLocks.GrLock.WakeSection | src/concurrency/gr_lock.c:172-214 | a wakeup, also a spurious one, is one step of the state machine |
| GrLocks.GrLock.TrySection | src/concurrency/gr_lock.c:216-236 | a try never waits: granted exactly when the mutex is free and the mode joins |
| GrLocks.GrLock.UnlockSection | src/concurrency/gr_lock.c:238-254 | a release takes one hold off and wakes whoever can join now |
| GrLockRuns.Drive | src/concurrency/gr_lock.c:172-254 | for every history of any number of threads, the counts and the waiter list go through the states of the state machine, with each blocked thread's own waiter record at the thread's place in the list |
| GrLockRuns.DoRequest | src/concurrency/gr_lock.c:172-200 | a lock call up to its first wait is the state machine's request, the new record being the calling thread's |
| GrLockRuns.DoRetry | src/concurrency/gr_lock.c:198-214 | a blocked thread that wakes up and looks again with its own record is the state machine's retry |
| GrLockRuns.DoUnlock | src/concurrency/gr_lock.c:238-254 | giving a hold back is the state machine's unlock |
| GrLockRuns.TwoIntentions | src/concurrency/gr_lock.c:216-236 | two tries for IX on a fresh lock both succeed |
| LockTree.TreeSafe | src/concurrency/gr_lock.c:266-288 | in a tree of any depth, explicit and implied locks never give two owners incompatible modes on a node |
| LockTree.LocksMakeSafe | src/concurrency/gr_lock.c:87-98 | what the nodes' own locks grant is compatible on each node |
| LockTree.LockedTreeSafe | src/concurrency/gr_lock.c:172-288 | when each node's lock has gone through any history of its own and holders keep to the rule about parents, no two owners have incompatible modes on any node of a tree of any depth, explicit or implied |
| LockTree.AncestorsHeld | src/concurrency/gr_lock.c:266-288 | a holder of a node holds every ancestor at least in the parent's mode |
| LockTree.ParentModeIsWeakest | src/concurrency/gr_lock.c:266-288 | exactly the modes at least as strong as the parent's mode protect a child |
| LockRights.OrderIsRights | src/concurrency/gr_lock.c:266-288 | a mode is at least as strong as another if and only if it gives all its rights |
| LockRights.ImpliedRights | src/concurrency/gr_lock.c:266-288 | below a node exactly the rights that cover everything are implied |
| LockRights.TwoWriters | src/concurrency/gr_lock.c:266-288 | two owners may write different children of a node at the same time, each with the intention on the node |
| LockRights.TwoWritersReached | src/concurrency/gr_lock.c:172-214 | the locks of the nodes grant these holds |
| LockTree.ParentsNeeded | src/concurrency/gr_lock.c:266-288 | without the parents' locks two owners can get incompatible modes |
| SlabAllocs.SlabAlloc.constructor | src/memory/slab_alloc.c:29-46 | an empty allocator whose cells hold a whole number of words |
| SlabAllocs.SlabAlloc.Alloc | src/memory/slab_alloc.c:104-149 | the cell returned was not live and is now, and it is the first free cell of the cached slab, else of the first slab that has one, else of a new slab; nothing else changes hands, every slab's cells stay split into freelist and live cells |
| SlabAllocs.SlabAlloc.ServingMeans | src/memory/slab_alloc.c:112-137 | the slab that serves is the cached one while it has a free cell, else the first in the list that has one, and none only when all are full |
| SlabAllocs.SlabAlloc.Free | src/memory/slab_alloc.c:184-238 | exactly the freed cell stops being live and is the next its slab hands out; its slab is given back exactly when that was its last live cell and other slabs exist; current is null or linked |
| SlabAllocs.SlabAlloc.FromPtr | src/memory/slab_alloc.c:160-182 | the slab found is the unique owner of a live cell, and the search cannot run off the list |
| SlabAllocs.SlabAlloc.Contains | src/memory/slab_alloc.c:151-158 | the address range test is the region that the slab's cells occupy |
| SlabAllocs.SlabAlloc.Extend | src/memory/slab_alloc.c:65-102 | a new slab stands first in the list with a freelist through all its cells |
| SlabAllocs.ThreadRegion | src/memory/slab_alloc.c:90-99 | the loop lays an acyclic freelist through exactly the cells of the region and writes nowhere else |
| SlabAllocs.RunSpaced | src/memory/slab_alloc.c:90-99 | the j-th cell of a fresh freelist lies j cell sizes behind the first |
| SlabAllocs.SlabAlloc.Scribble | src/memory/slab_alloc.c:104-149 | whatever word an owner writes anywhere in a live cell leaves the allocator intact |
| SlabAllocs.SlabAlloc.LiveCellsApart | src/memory/slab_alloc.c:90-99 | two live cells share no byte: they are apart by the whole cell size |
| SlabAllocs.SlabAlloc.LiveCellAlone | src/memory/slab_alloc.c:90-99 | nor does a live cell share a byte with a free one of any slab |
| SlabAllocs.SlabAlloc.DropSlab | src/memory/slab_alloc.c:208-235 | an empty slab leaves the list and the cache without touching the others |
| SlabAllocs.PopCell | src/memory/slab_alloc.c:142-144 | the first free cell becomes live, the rest stays a freelist, used stays the live count |
| SlabAllocs.PushCell | src/memory/slab_alloc.c:195-199 | a live cell becomes the first free one, used stays the live count |
| SlabAllocs.PopSplit | src/memory/slab_alloc.c:142-144 | taking a free cell keeps the exact split of the slab's cells |
| SlabAllocs.PushThread | src/memory/slab_alloc.c:195-199 | linking a cell in front keeps the freelist acyclic and complete |
| SlabRuns.Replay | src/memory/slab_alloc.c:104-238 | for every history of allocations and frees, and wherever the system puts the slabs, the cells handed out and not freed are exactly the live ones, each held once, no two sharing a byte |
| SlabRuns.AllocationsFit | src/memory/slab_alloc.c:104-149 | any number of allocations may stand in front of a history |
| SlabRuns.FreesFit | src/memory/slab_alloc.c:184-238 | cells held may be freed in any order |
| SlabRuns.SystemExists | src/memory/slab_alloc.c:65-75 | there is a system that places slabs as assumed |
| SlabRuns.BlocksOnSlabs | src/ds/block_array.c:55-82 | after every history of array operations the addresses of the blocks in the list are exactly the slab allocator's live cells, one for each block |
| SlabRuns.Play | src/ds/block_array.c:472-497 | any lawful sequence of the array's allocator calls can be played on the slab allocator, which ends with the outstanding blocks' cells live |
| CBufferRuns.Replay | src/ds/cbuffer.c:431-1555 | for every capacity and history in scope, regions filled and drained by the caller included, the buffer holds and answers what a bounded byte queue does |
| CBufferRuns.Step | src/ds/cbuffer.c:431-1555 | each operation has the queue's effect and reply |
| CBufferRuns.FirstInFirstOut | src/ds/cbuffer.c:431-637 | over any history of a queue user, what was held and accepted is, in this order, what was delivered and is still held |
| CBufferRuns.LastInFirstOut | src/ds/cbuffer.c:1383-1555 | pushes in front that fit are undone by pops in reverse order, leaving the queue behind untouched |
| CBufferRuns.PutAndTaken | src/ds/cbuffer.c:431-1555 | in whatever way bytes that fit are put into an empty buffer and in whatever way as many are taken out, the same bytes come out |
| CBufferRuns.LookingIsTaking | src/ds/cbuffer.c:498-1280 | copying and peeking deliver what reading and popping do and change nothing; an element asked for by its index is the bytes at its place |
| CBufferRuns.CountsTell | src/ds/cbuffer.c:431-637 | the counts answered are those of the whole elements put in or delivered, as many as asked for or as fit |
| CBufferRuns.AnyCallInScope | src/ds/cbuffer.c:431-1555 | no call that the assertions allow is left out of the histories |
| CBufferRuns.FillFree | src/ds/cbuffer.c:170-266 | putting bytes into the next free regions and committing them appends as many as there is room for |
| CBufferRuns.DrainData | src/ds/cbuffer.c:99-353 | taking bytes out of the next data regions and consuming them takes them off the front in order |
| CBufferRuns.ReplayPair | src/ds/cbuffer.c:664-833 | for every history on two buffers over distinct arrays, moves and copies between them included, both hold and answer what two bounded queues do |
| CBufferRuns.PipelineInOrder | src/ds/cbuffer.c:664-727 | two buffers in a row are one queue: whatever the moves between them are, bytes come out in the order in which they went in, and none is lost |
| CBufferRuns.TransferCounts | src/ds/cbuffer.c:664-833 | a transfer answers how many elements it has carried, and a copy leaves on the other side what a move would take |
| CBuffers.CBuffer.Create | src/ds/cbuffer.c:24-37 | an empty buffer over the caller's array |
| CBuffers.CBuffer.CreateWith | src/ds/cbuffer.c:39-53 | the first len bytes of the array are held, also when they fill it |
| CBuffers.CBuffer.DiscardAll | src/ds/cbuffer.c:89-97 | nothing is held afterwards |
| CBuffers.CBuffer.NextDataBytes | src/ds/cbuffer.c:99-126 | a contiguous front of the contents, all of it or up to the end of the array |
| CBuffers.CBuffer.NextAvailBytes | src/ds/cbuffer.c:170-199 | a contiguous free region right behind the contents, all of it or up to the end of the array |
| CBuffers.CBuffer.FakeWrite | src/ds/cbuffer.c:255-266 | what lies behind the head becomes the end of the contents |
| CBuffers.CBuffer.FakeRead | src/ds/cbuffer.c:342-353 | the front is dropped |
| CBuffers.CBuffer.Read | src/ds/cbuffer.c:431-474 | as many whole elements as asked for and held leave the front in order, across the wrap |
| CBuffers.CBuffer.Copy | src/ds/cbuffer.c:498-547 | the same bytes as a read, with the buffer unchanged |
| CBuffers.CBuffer.Write | src/ds/cbuffer.c:585-637 | as many whole elements as fit are appended in order, across the wrap |
| CBuffers.CBuffer.MoveFrom | src/ds/cbuffer.c:664-727 | a front of the source becomes the end of the destination; the two contents in a row stay the same bytes |
| CBuffers.CBuffer.CopyFrom | src/ds/cbuffer.c:768-833 | a front of the source is appended and the source is unchanged |
| CBuffers.CBuffer.Get | src/ds/cbuffer.c:1066-1193 | element idx of the contents, and exactly when the code's assertions hold |
| CBuffers.GetStops | src/ds/cbuffer.c:1066-1193 | two bytes held, element 1 of two bytes asked for: an assertion is met instead of the answer false |
| CBuffers.CBuffer.Peek | src/ds/cbuffer.c:1212-1280 | the oldest element, for either end |
| CBuffers.CBuffer.PushBack | src/ds/cbuffer.c:1324-1354 | appended exactly when it fits |
| CBuffers.CBuffer.PushFront | src/ds/cbuffer.c:1383-1413 | put in front exactly when it fits, across the wrap |
| CBuffers.CBuffer.Pop | src/ds/cbuffer.c:1456-1555 | the oldest bytes leave, for either end, exactly when any are held; what is handed out and held afterwards when more is asked for than is held |
| CBuffers.PopShortens | src/ds/cbuffer.c:1527-1555 | a pop of a nonempty buffer shortens it if and only if it asks for no more than is held |
| CBuffers.PopOverrun | src/ds/cbuffer.c:1527-1555 | two bytes written into a buffer of four, a pop of three: three bytes are held afterwards |
| CBuffers.CBuffer.DataPlan | src/ds/cbuffer.c:971-1008 | the slices of a file write, never more than two |
| CBuffers.CBuffer.FreePlan | src/ds/cbuffer.c:876-915 | the slices of a file read, never more than two |
| CBuffers.CBuffer.WriteToFile | src/ds/cbuffer.c:1046-1062 | the front goes out in order and is consumed; a failed transfer may have sent any front part and consumes nothing |
| CBuffers.CBuffer.ReadFromFile | src/ds/cbuffer.c:953-969 | what the file gives, cut to the room, is appended, or a failed transfer leaves the contents |
| CBuffers.HeadBehind | include/c_specx/ds/cbuffer.h:84-112 | the head is the tail plus the length, reduced, and the full flag tells exactly a full buffer |
| Rings.PlanCovers | src/ds/cbuffer.c:978-1003 | the planned slices are at most two, inside the array, disjoint, and deliver exactly the run |
| Rings.RingSplit | src/ds/cbuffer.c:431-474 | taking bytes off a run that goes round leaves the run that starts behind them |
| Rings.LaidAppends | src/ds/cbuffer.c:1324-1354 | bytes laid down behind a run that goes round extend it at the end |
| Rings.LaidPrepends | src/ds/cbuffer.c:1383-1413 | bytes laid down in front of it extend it at the front |
| Rings.ElementsBoth | src/ds/cbuffer.c:672-687 | limiting by what is held and then by the room is limiting by the smaller |
| Crc32c.TableStep | src/core/checksums.c:57-60 | one table step is eight bit steps of the definition, for every register and byte |
| Crc32c.PolyReflects | src/core/checksums.c:31-31 | the constant is the generator of RFC 3720 with its bits reversed |
| Crc32c.MaskedShift | src/core/checksums.c:29-32 | the branch-free expression is one shift of the register |
| Crc32c.Checksums.Init | src/core/checksums.c:23-36 | the nested loops fill the table with eight shifts of each index |
| Crc32c.Checksums.Execute | src/core/checksums.c:44-62 | the table-driven loop computes the bit-at-a-time checksum for every message and start state |
| Crc32c.ChecksumJoins | src/core/checksums.c:44-62 | checksumming a and then b is checksumming a + b |
| Crc32c.BurstDetected | src/core/checksums.c:44-62 | damage confined to four neighbouring bytes of a message of any length changes the checksum |
| Crc32c.Residue | src/core/checksums.c:44-62 | every message followed by its own checksum, lowest byte first, has the checksum 0x48674BC7, from every start state |
| Crc32c.RegisterInjective | src/core/checksums.c:57-60 | no two registers are led to the same one by the same bytes |
| Bounds.UnsignedGuards | include/c_specx/dev/bounds.h:30-32 | the unsigned guards hold exactly when the result fits and do not overflow themselves |
| Bounds.SumGuards | include/c_specx/dev/bounds.h:34-36 | the same for signed sums and differences |
| Bounds.ProductGuard | include/c_specx/dev/bounds.h:37-41 | the signed product guard holds exactly when the product fits, with truncating division |
| Bounds.ProductGuardFits | include/c_specx/dev/bounds.h:37-41 | no quotient inside the product guard overflows |
| Bounds.DivisionGuard | include/c_specx/dev/bounds.h:43-45 | the division guard excludes exactly the quotients that do not exist or do not fit |
| Bounds.SafeMul | include/c_specx/dev/bounds.h:133-133 | stores the product exactly when it fits |
| Bounds.SafeSub | include/c_specx/dev/bounds.h:132-132 | stores the difference exactly when it fits |
| Bounds.PyMod | src/core/numbers.c:343-352 | a remainder of the division with the sign of the divisor, within the type |
| Numbers.Parse | src/core/numbers.c:24-128 | succeeds exactly when the number denoted fits, however long the string, and returns it |
| Numbers.ParseI32 | src/core/numbers.c:77-128 | succeeds exactly from -2147483648 to 2147483647 |
| Numbers.ParseI64 | src/core/numbers.c:24-75 | succeeds exactly from -9223372036854775808 to 9223372036854775807 |
| Numbers.PrintDenotes | src/core/numbers.c:24-128 | a printed number is a valid input that denotes itself |
| Numbers.RoundTrip | src/core/numbers.c:24-128 | parsing a printed number gives it back exactly when it fits |
| Numbers.PrefixSmaller | src/core/numbers.c:43-59 | an overflow met on the way is an overflow of the whole number |
| Numbers.DigitValues | src/core/numbers.c:48-48 | the ten digits and what each is worth |
| Numbers.Positional | src/core/numbers.c:43-59 | each digit in front counts ten times as much |
| Numbers.LeadingZero | src/core/numbers.c:43-59 | zeros in front change nothing |
| Numbers.Ordered | src/core/numbers.c:43-59 | strings of equal length denote numbers in the order of their characters |
| Numbers.Nines | src/core/numbers.c:43-59 | n nines denote ten to the n less one |
| Numbers.Signs | src/core/numbers.c:33-39 | digits may stand alone or behind one sign, and a minus negates them |
| Slices.ResolveExpect | src/ds/stride.c:52-132 | the step-by-step clamping computes the resolved stride |
| Slices.Resolve | src/ds/stride.c:134-149 | refused exactly when a step is given and not positive |
| Slices.Listing | src/ds/stride.c:52-132 | the resolved stride lists exactly the indices of the Python-style slice |
| Slices.AbsentParts | src/ds/stride.c:52-132 | absent parts take the whole array one by one: `[:]`, `[a:]`, `[:b]` and `[a:b]` written out |
| Slices.PlainSliceRead | src/ds/stride.c:52-132 | reading `[a:b]` delivers the bytes between the bounds, and `[:]` all bytes |
| Slices.EveryStep | src/ds/stride.c:52-132 | a step alone lists its multiples below the length |
| Slices.BoundsFromEnd | src/ds/stride.c:72-114 | negative bounds count from the end, and bounds beyond an end of the array are at it |
| Slices.SumsFitWide | src/ds/stride.c:116-124 | lengths and steps of at most 2^63 - 1 in sum are in range |
| Slices.ListedInside | src/ds/stride.c:52-132 | every listed index is inside the array, in increasing order |
| Slices.SliceIffStepFits | src/ds/stride.c:121-129 | the list is the slice if and only if the step fits 32 bits or reaches over all that is between the clamped bounds |
| Slices.StepLost | src/ds/stride.c:121-129 | a step of 2^32 on 2^32 + 1 elements resolves to a distance of 0 and lists the first index twice instead of the two of the slice |
| Slices.SecondElement | src/ds/stride.c:116-124 | a second element is listed exactly when a step does not reach from one clamped bound to the other |
| Slices.SliceCounted | src/ds/ext_array.c:94-115 | reading a resolved slice delivers all of its elements whole |
| Slices.SliceLength | src/ds/ext_array.c:94-115 | and no byte more |
| Slices.SliceElement | src/ds/ext_array.c:94-115 | byte k of element t read is byte k of the array element that the slice lists |
| Slices.UsfrmsRoundTrip | include/c_specx/ds/stride.h:131-137 | spelling a stride out and resolving it gives it back if and only if it is in bounds and its distance fits 32 bits |
| Slices.EqualResolveAlike | src/ds/stride.c:21-50 | equal user strides resolve to the same stride on every array |
| Slices.EqualIgnoresAbsent | src/ds/stride.c:21-50 | changing an absent part or the colon keeps two strides equal, changing a present part or its presence does not |
| Slices.EqualIsErased | src/ds/stride.c:21-50 | strides are equal if and only if they are the same with absent parts and the colon struck out |

## Left out

- Wrap-around of 32-bit sizes, offsets and lengths in the arrays, buffers and allocator: sizes are unbounded and the address space is never exceeded. The latch word, the parsers, the guards and the resolved distance do have their widths.
- Allocation failure and panics: allocations succeed. Destroying arrays, allocators and locks is not modelled.
- The block array's data is a sequence field of its block, because the C field is embedded in the block and cannot be shared; links and lengths are changed in place.
- The block array takes its blocks from an abstract set of live cells and notes its calls of the allocator, which `SlabRuns.BlocksOnSlabs` plays on the slab allocator; there, addresses are numbers and memory is a map from addresses to words.
- Repeated C passages (moving a chunk, appending, unlinking, fetching across the wrap) are one helper method each; the write cursor's and read cursor's places in the list are ghost values.
- BlockArrays.BlockArray.Insert: return values of insertion are not compared; the block array returns success and the flat array the length inserted.
- BlockArrays.BlockArray.Remove: after a failed assertion nothing is said, as the program stops.
- Lockstep.RunBoth: writes and removals are in scope on data of whole elements, and removals of at least one element; Lockstep.SameIffNoneCut, Lockstep.WritesSameIffNoneCut, Lockstep.RemovalsSameIffAligned and BlockArrays.BlockArray.Remove say exactly when the arrays agree on other data.
- BlockArrays.BlockArray.Read: the block array also copies out the part of a last element that does not fit; the comparison covers the whole elements that are counted.
- RobinHood.Table.Insert: hashes are natural numbers and hash plus distance does not wrap.
- RobinHood.Replay: the histories have a free slot or a present key at every insertion, as the finite map has no answer for a full table; what happens otherwise is in the contracts of Insert and Delete.
- Memory order of the latch's atomics: accesses are sequentially consistent steps. Fairness and starvation freedom are not claimed for either lock.
- The mutex and the condition variable are the step semantics of the lock's state machine: a section is atomic, a signal is a flag, and waking up needs no signal. Errors of creating them are left out.
- The latch around the slab allocator: allocation and freeing are single calls.
- SlabAllocs.SlabAlloc.Alloc: the address of a new slab is a parameter, nonzero and apart from the other slabs; in histories a function of the call and of the slabs in use.
- ExtArrays.ExtArray.Remove: the length rounded up to whole elements is within the capacity, as the code would leave its memory otherwise.
- CBuffers.CBuffer.Pop: a size above the capacity of a nonempty buffer is excluded, as the copy would leave the array. The histories pop no more than is held, and look at no element that meets an assertion.
- CBuffers.CBuffer.MoveFrom: two distinct buffers over distinct arrays.
- CBuffers.CBuffer.ReadFromFile: a file is the bytes it has to give and whether the transfer fails. The variants that assert a full transfer are not modelled.
- Numbers.Parse: the input is a number, as the code asserts; the guards stand for the compiler's built-in checks, whose value stored on overflow is never used.
- Slices.ResolveExpect: the length and the sum that counts the elements, the step added first, fit a signed 64-bit integer, which the code does not check.
- Floating-point parsing and remainders, and chunk growth by a float factor.
- The string, list, chained hash table, serializer and arena helpers: statements about them are easy beside these.
- Files, sockets, threads, timers, both operating-system back ends, the polling and echo servers, logging and the test framework.
