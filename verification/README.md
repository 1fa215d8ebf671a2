# Verified models of the systems suite

Dafny models of the hardest parts of the suite, each proved against what the code is for. Where the
program works by changing things step by step, the model is a class or a method with loops whose
contract ties its new state to a specification on values; the theorems are then about every run of
that specification. Run `dafny verify dfyconfig.toml` to check everything.

## What is modelled

| files | part of the suite |
|---|---|
| `BufferCacheModel`, `BufferCacheOrder`, `BufferCache` | xv6 buffer cache: the LRU list, reference counts, pins |
| `LogModel`, `LogStates`, `LogAdmission`, `LogClients`, `Log` | xv6 redo log: group commit, crash recovery, admission |
| `ShamModel`, `ShamDelivery`, `ShamNetwork`, `ShamWindow`, `ShamStall`, `ShamShut`, `ShamCompletion`, `Sham` | the S.H.A.M. transport: retransmission ring, reorder buffer, windows |
| `Bytes`, `FileBlocks`, `FileModel`, `FileFormat`, `FileTransactions`, `FileSystem` | xv6 files: free map, block maps, readi, writei, itrunc, filewrite |
| `FileCrash` | the files on the log: what a crash and the recovery leave of them |
| `PageModel`, `PageFormat`, `PageShortage`, `UserMemory`, `TrapPages`, `Paging` | Sv39 page tables and the page allocator of the scheduling tree |
| `HeapModel`, `Malloc` | the user-level malloc and free |
| `CfsModel`, `Scheduler`, `SleepLock`, `SleepLockRuns` | the CFS scheduler, and sleep locks with sleep and wakeup |
| `Grep` | the regular-expression matcher |
| `ShellGrammar`, `ShellLexer`, `ShellRoundTrip`, `Shell` | the shell's parser |
| `SwapModel`, `SwapSafety`, `SwapFault`, `SwapOrder`, `SwapClock`, `SwapRuns`, `SwapReached`, `SwapLeak`, `Swap` | demand paging with swap of the memory-management tree |
| `BakeryModel`, `BakeryProgress`, `Bakery` | the bakery simulation |

Disk writes of a block are atomic and in order. Memory that may run out, disks that may be full,
packets that may be lost and `sbrk` that may refuse are parameters: the theorems hold for every
outcome. A panic is a `false`, `null` or `None` result, and its contract says exactly when it
happens. Concurrency is a state machine whose steps are the code's atomic sections, in any order.

Runs start from states that exist: `FileModel.FreshDiskIsOk`, `Swap.Process.constructor`,
`Bakery.Shared.constructor`, `Log.Log.FsInit` on any disk a crash leaves, `CfsModel.BootIsFair`, and
page allocators and heaps that own nothing yet.

## What the code does not keep

Properties that are false of the code are stated with the condition under which they hold, and with a
run or an input that shows they fail.

- `log_write` tests for a full log before it looks for the block, so an operation that stays within
  its ten blocks can still panic by logging one of them again (`LogAdmission.AbsorbedWriteCanPanic`).
  It panics exactly when the log is full, and never if operations log fewer than ten blocks.
- LOGBLOCKS equals NBUF, so the commit of a full log finds no buffer to copy with
  (`LogClients.QuietCommit`, `LogClients.QuietCommitIsReached`, `Log.Log.FinishCommit`).
- The client's window test wraps at 2^32 - 10240, after which a transfer stops for good
  (`ShamStall.StalledForever`): it can for files of that length or more, and for no others
  (`ShamStall.StallsIff`).
- The server never gives back window it counted for packets it discarded: exactly what each packet
  costs is `ShamWindow.ReceiveLoses`, and a run that costs a segment is `ShamWindow.OfferFallsShort`.
  When 20480 bytes are lost a client with nothing in flight stops for good (`ShamShut.ShutForever`): it
  can for files of at least 10240 bytes, and for no others (`ShamShut.ShutsIff`). Shorter files can be
  finished from every state, whatever was lost (`ShamCompletion.CompletesIff`).
- A write whose source faults inside a block leaves the bytes before the fault in the cache without
  logging them: readers see them, and a crash or an eviction loses them. That is so if and only if
  `FileModel.Tears`: the fault is inside a block, after some bytes of it, and the file reached beyond
  the first of these (`FileSystem.Volume.WriteChunk`, and `TearsFile` for `FileSystem.Volume.FileWrite`).
- `wakeup` does not touch the virtual run time, so a process that slept runs alone until it has caught
  up (`CfsModel.SleeperMonopolises`); the bound of 48 holds exactly for runs in which whoever wakes is
  near the others (`CfsModel.SpreadStaysBounded`).
- `malloc` passes its size through an int: from 2^31 bytes on the heap hands out memory the process
  does not have (`Malloc.HugeRequestIsShort`, `HeapModel.PartitionIff`, `Malloc.Heap.Alloc`).
- Heap and stack pages come back from eviction as zeros (`SwapSafety.HeapPageComesBackZero`,
  `SwapReached.HeapStoreIsLost`).
- `vmfault` lets the page below the stack pointer be written even in a read-only segment; the change
  is later lost (`SwapFault.WriteIntoTextIsLost`, `SwapReached.TextStoreIsLost`).
- A heap or stack page that is faulted back keeps its swap slot and takes another the next time
  (`SwapLeak.StepLeaks`): two pages can fill the swap file (`SwapLeak.TwoPagesFillSwap`).
- A clock scan that finds every page referenced fails, although the next would succeed
  (`SwapOrder.ClockFailsOnce`, `SwapReached.FirstScanFails`).
- A customer who is turned away keeps the chefs from ever stopping (`BakeryModel.ChefsStopIff`,
  `BakeryModel.ChefsMayNeverStop`), which can happen exactly if more than 25 come
  (`BakeryModel.TurnedAwayIff`).

## Model

| member | source | states |
|---|---|---|
| LogModel.CrashAtomicity | xv6-memory-management/kernel/log.c:178-204 | Cut a commit after any k of its ordered block writes, and let every later boot crash anywhere in its recovery, any number of times: finally the home blocks are all as before if k is short of the header write, and all as the transaction left them otherwise. |
| LogModel.RunCrashAtomicity | xv6-memory-management/kernel/log.c:65-204 | The same over a whole run of group commits cut at any block write: every home block holds exactly what the groups committed by then made of it. |
| LogModel.RecoveryResult | xv6-memory-management/kernel/log.c:117-124 | Recovery leaves an empty log and, at home, what redoing the header's blocks gives. |
| LogModel.CutRecoveryLosesNothing | xv6-memory-management/kernel/log.c:65-84 | A recovery cut after any of its own writes still stands for the same home blocks. |
| LogModel.BeforeCommitPoint | xv6-memory-management/kernel/log.c:178-204 | Until the header is written, no prefix of a commit changes what recovery would leave at home. |
| LogModel.AfterCommitPoint | xv6-memory-management/kernel/log.c:195-204 | From the header write on, the log alone fixes the home blocks, wherever the installing was cut. |
| LogModel.CommitLayout | xv6-memory-management/kernel/log.c:178-204 | A commit of n blocks is 2n + 2 writes: slots 1 to n of the log, then the header with the count in word 0 and the block numbers in words 1 to n, then the n home blocks, then the header with count 0; the log area is the 31 blocks from its start. |
| BufferCacheModel.GetKeepsReferences | xv6-memory-management/kernel/bio.c:58-89 | bget adds one reference to its block and moves no other count, so a held or pinned buffer is never recycled; it panics exactly when the block is not cached and every buffer is in use. |
| BufferCacheModel.ReadKeepsViews | xv6-memory-management/kernel/bio.c:91-103 | bread returns what readers of the block see, and changes no block that anybody sees. |
| BufferCacheModel.ReleaseKeepsViews | xv6-memory-management/kernel/bio.c:114-137 | brelse gives back one reference and changes no view, if a buffer given back for the last time agrees with the disk. |
| BufferCacheModel.MoveKeepsViews | xv6-memory-management/kernel/bio.c:126-134 | Moving a buffer to the head of the list is invisible to clients and keeps one buffer a block. |
| BufferCacheModel.AdjustKeepsViews | xv6-memory-management/kernel/bio.c:139-151 | bpin and bunpin move one count and no view. |
| BufferCacheModel.StoreChangesOneView | xv6-memory-management/kernel/log.c:187 | Storing into a held buffer changes the view of that block alone. |
| BufferCacheModel.WriteKeepsClean | xv6-memory-management/kernel/bio.c:105-112 | Writing a held block to disk changes no other view and leaves no free buffer stale. |
| BufferCacheModel.CopyPass | xv6-memory-management/kernel/log.c:180-192 | One pass of write_log through the cache puts on disk what readers see of the logged block, and returns every reference. |
| BufferCacheModel.InstallPass | xv6-memory-management/kernel/log.c:67-84 | One pass of install_trans puts the log slot's contents at home and drops one pin. |
| BufferCacheModel.FullIffThirtyBlocks | xv6-memory-management/kernel/bio.c:72-88 | All buffers are in use exactly when thirty different blocks are referenced. |
| BufferCacheOrder.HistoryIsOrdered | xv6-memory-management/kernel/bio.c:58-137 | After every history of calls since binit, the reference counts are those the calls give, and of two buffers that nobody refers to the one nearer the head was given back later; those never used come last. |
| BufferCacheOrder.RecyclesOldest | xv6-memory-management/kernel/bio.c:72-88 | The buffer bget recycles is one never used, if there is one that nobody refers to, and otherwise that of the block whose last holder gave it back longest ago in the history of calls. |
| BufferCache.Cache.constructor | xv6-memory-management/kernel/bio.c:36-53 | binit links thirty unused buffers into one list that is a permutation of the array. |
| BufferCache.Cache.OwnerFields | xv6-memory-management/kernel/bio.c:24-34 | In every valid state the linked list, the array and the model agree: a buffer of the device is the one the list order has for its block. |
| BufferCache.Cache.Get | xv6-memory-management/kernel/bio.c:58-89 | The pointer code of bget does what the model of it does, on the doubly linked list. |
| BufferCache.Cache.Read | xv6-memory-management/kernel/bio.c:91-103 | bread in place, with its null for the panic. |
| BufferCache.Cache.Release | xv6-memory-management/kernel/bio.c:114-137 | brelse in place: the relinking moves the buffer to the head and nothing else. |
| BufferCache.Cache.Pin | xv6-memory-management/kernel/bio.c:139-144 | bpin in place. |
| BufferCache.Cache.Unpin | xv6-memory-management/kernel/bio.c:146-151 | bunpin in place. |
| BufferCache.Cache.WriteBack | xv6-memory-management/kernel/bio.c:105-112 | bwrite: the disk block becomes the buffer's data, and the trace of disk writes grows by it. |
| LogStates.LoggedIsInstallable | xv6-memory-management/kernel/log.c:178-204 | After write_log and write_head, disk and readers agree that the log slots hold the transaction. |
| LogStates.FinishedIsCoherent | xv6-memory-management/kernel/log.c:194-204 | A finished commit loses nothing readers saw, and the disk has caught up with them. |
| LogAdmission.BeginKeepsSound | xv6-memory-management/kernel/log.c:127-143 | An admitted operation keeps logged blocks plus unused reservations within LOGBLOCKS. |
| LogAdmission.BeginAdmits | xv6-memory-management/kernel/log.c:127-143 | An operation is admitted if and only if no commit is going on and the blocks logged and ten for each running operation are at most 20: with at most one running and ten blocks logged it is, and its arrival changes nothing else. |
| LogAdmission.CanBegin | xv6-memory-management/kernel/log.c:127-176 | Whatever has happened, an operation that waits is admitted after the running ones have ended and their commit is done: that leaves an empty log. |
| LogAdmission.LogBlockKeepsSound | xv6-memory-management/kernel/log.c:215-236 | With room left for the operation, log_write panics exactly when the log is full; otherwise the bound is kept. |
| LogAdmission.FullLogIsUsedUp | xv6-memory-management/kernel/log.c:215-236 | The log is full only when every running operation has logged ten blocks, so the write that panics re-logs a block the log already holds. |
| LogAdmission.EndKeepsSound | xv6-memory-management/kernel/log.c:145-176 | end_op never meets a commit in progress, and starts one exactly when no operation is left. |
| LogAdmission.RunStaysSound | xv6-memory-management/kernel/log.c:127-236 | Over every interleaving the reservations fit in LOGBLOCKS and a commit excludes running operations; below ten distinct blocks an operation nothing panics. |
| LogAdmission.AbsorbedWriteCanPanic | xv6-memory-management/kernel/log.c:221-228 | With ten blocks each it can: a run of three operations ends in "too big a transaction" on a write that would have been absorbed. |
| LogAdmission.FullLogIsCommitted | xv6-memory-management/kernel/log.c:127-176 | If instead the three end, a run of operations that keep to their ten blocks commits a full log. |
| LogClients.FullWhenThirtyUsed | xv6-memory-management/kernel/bio.c:72-88 | Counting clients' references and pins, the cache is full exactly when thirty blocks are in use. |
| LogClients.ReadConsistent | xv6-memory-management/kernel/bio.c:91-103 | bread by a client fails exactly when thirty other blocks are in use, and otherwise shows the current contents and keeps log, cache and clients consistent. |
| LogClients.ReleaseConsistent | xv6-memory-management/kernel/bio.c:114-137 | So does brelse of a block somebody holds. |
| LogClients.UpdateConsistent | xv6-memory-management/kernel/log.c:206-236 | A change that is logged is seen at that block only, and keeps them consistent. |
| LogClients.CommitConsistent | xv6-memory-management/kernel/log.c:194-204 | After a commit clients hold what they held, see what they saw, and the disk says the same. |
| LogClients.RecoveredIsConsistent | xv6-memory-management/kernel/log.c:117-124 | Recovery establishes the state clients start from. |
| LogClients.HistoryGrows | xv6-memory-management/kernel/log.c:194-204 | The whole trace of disk writes stays the trace of a recovery and the committed groups, one group more per commit. |
| LogClients.CommitHistory | xv6-memory-management/kernel/log.c:194-204 | A commit adds exactly its group, and an empty one adds none. |
| LogClients.QuietCommit | xv6-memory-management/kernel/log.c:180-192 | LOGBLOCKS equals NBUF: even with no buffer held, a commit finds none to copy with exactly when the log is full. |
| LogClients.QuietCommitIsReached | xv6-memory-management/kernel/log.c:127-192 | Such a run reaches a commit for which no buffer is left, although nobody holds one. |
| Log.Log.FsInit | xv6-memory-management/kernel/fs.c:41-46 | On a cache that binit has just made: panics exactly on a wrong magic number, the disk untouched; otherwise the log is recovered and clients may start. |
| Log.Log.InitLog | xv6-memory-management/kernel/log.c:53-63 | Boots a log on a cache that holds nothing but what is on disk: recovery is done and clients may start. |
| Log.Log.ReadHead | xv6-memory-management/kernel/log.c:86-98 | The in-memory header becomes the disk's. |
| Log.Log.Recover | xv6-memory-management/kernel/log.c:117-124 | Through the cache, writes exactly the writes of recovery, and leaves the recovered image with an empty log. |
| Log.Log.WriteHead | xv6-memory-management/kernel/log.c:100-115 | Changes only the count and the first n block numbers of the header block. |
| Log.Log.WriteLog | xv6-memory-management/kernel/log.c:178-192 | The log slots get what readers see of the logged blocks, never stale disk contents; its first bread panics exactly if every buffer is in use, and no later one can. |
| Log.Log.InstallTrans | xv6-memory-management/kernel/log.c:65-84 | Home blocks get the log slots in order; each pin is dropped unless recovering. |
| Log.Log.Commit | xv6-memory-management/kernel/log.c:194-204 | Either the "no buffers" panic of the first bread, exactly when the log is not empty and every buffer is in use, with the disk untouched, or the disk becomes the image after the whole ordered commit. |
| Log.Log.BeginOp | xv6-memory-management/kernel/log.c:127-143 | Admits an operation exactly when the admission rule does, and changes no contents. |
| Log.Log.Read | xv6-memory-management/kernel/bio.c:91-103 | A client reads the current contents of a home block, or panics exactly when thirty other blocks are in use. |
| Log.Log.Release | xv6-memory-management/kernel/bio.c:114-137 | A client gives a buffer back; contents stay. |
| Log.Log.LogWrite | xv6-memory-management/kernel/log.c:215-236 | Records or absorbs the block and pins a new one; its two panics are the model's. |
| Log.Log.Update | xv6-memory-management/kernel/log.c:206-236 | A client's change to a held block becomes the contents of that block alone; it panics exactly when the log is full. |
| Log.Log.EndOp | xv6-memory-management/kernel/log.c:145-169 | Ends the operation and says whether to commit; its panic is out of reach. |
| Log.Log.FinishCommit | xv6-memory-management/kernel/log.c:160-176 | The commit of the last operation: fails exactly if the log is not empty and thirty blocks are in use, else contents are unchanged, on disk, and one group longer in history. |
| ShamDelivery.ExactDelivery | reliable-transport-protocol/server.c:413-493 | In every run over a network that drops, duplicates and reorders: the output is file[..expected-1], base <= expected <= next, at most 10240 bytes are in flight, and when FIN is taken the output is the whole file. |
| ShamDelivery.UnacknowledgedIsRetained | reliable-transport-protocol/client.c:418-443 | Every segment from base to next sits valid, with its data, in its own ring slot. |
| ShamDelivery.WindowIsNeverOverstated | reliable-transport-protocol/server.c:453-486 | bytes_in_buffer is at least what the buffer holds, so the subtraction in the drain cannot underflow and the offer never exceeds the free space. |
| ShamWindow.ReceiveLoses | reliable-transport-protocol/server.c:438-481 | Exactly what one packet costs the window for good: an early packet without a slot its own length, a packet in order the stale copies its drain passes over, any other nothing. |
| ShamWindow.LostWindowStaysLost | reliable-transport-protocol/server.c:468-486 | Window is lost by a packet if and only if it is early with no slot free, or it is the expected one and either a copy of it is buffered, or two copies of a later segment with no segment between missing; it is never won back, and the offer stays that much below 20480. |
| ShamWindow.DrainReaches | reliable-transport-protocol/server.c:453-467 | The drain delivers a segment if and only if no segment up to it is missing from the buffer. |
| ShamWindow.EarlyIsKept | reliable-transport-protocol/server.c:468-481 | An early segment is put into a slot with its number and data, and counted, as long as fewer than fifty slots are in use. |
| ShamWindow.LossIsForGood | reliable-transport-protocol/server.c:438-486 | Over no run, with any losses, repeats and reordering, does the lost window shrink. |
| ShamWindow.OfferFallsShort | reliable-transport-protocol/server.c:468-486 | For every file of more than one segment a run from the start after which all that came has been written out, nothing buffered can ever be delivered, and the offer is short by a segment. |
| ShamWindow.EmptyOffersAll | reliable-transport-protocol/server.c:483-486 | A server whose slots are all free offers all 20480 bytes in every run: lost window always keeps a slot too. |
| ShamStall.WindowGuard | reliable-transport-protocol/client.c:421 | The 32-bit window test means "less than 10240 beyond base" exactly below 2^32 - 10240. |
| ShamStall.StalledForever | reliable-transport-protocol/client.c:418-443 | From a state with base past that point and data left to send, no run ever sends another new segment. |
| ShamStall.LongFileStalls | reliable-transport-protocol/client.c:418-455 | A run from the start reaches such a state for every file of at least 2^32 - 10240 bytes. |
| ShamStall.StallsIff | reliable-transport-protocol/client.c:418-455 | And for no other: a transfer can come to that stop if and only if the file has at least 2^32 - 10240 bytes. |
| ShamShut.QuietIff | reliable-transport-protocol/client.c:419-422 | With nothing in flight and the file not read to its end, the client sends nothing exactly if the offer is 0 or base has passed that limit: there are these two stops and no third. |
| ShamShut.ShutForever | reliable-transport-protocol/client.c:416-476 | From the first of them on, in any run, the client reads, sends and resends nothing and never finishes; the server has just what had been read. |
| ShamShut.ShutHasLostAll | reliable-transport-protocol/server.c:468-486 | A run from the start comes to it only once 20480 bytes of window or more are lost for good. |
| ShamShut.FullWindowShuts | reliable-transport-protocol/server.c:438-486 | A run from the start that comes to it, for every file of at least 10240 bytes. |
| ShamShut.ShutsIff | reliable-transport-protocol/client.c:416-476 | And for no other: a transfer can come to that stop if and only if the file has at least 10240 bytes. |
| ShamDelivery.SendKeepsInv | reliable-transport-protocol/client.c:424-438 | A segment sent is the next chunk of the file under its right number, and keeps every slot of the ring right. |
| ShamDelivery.AckKeepsInv | reliable-transport-protocol/client.c:445-455 | An ACK, fresh or stale, never takes base back or beyond what the server expects. |
| ShamDelivery.ReceiveKeepsInv | reliable-transport-protocol/server.c:438-481 | Any sent packet, in any order and repeated, keeps the output a prefix of the file and never takes expected back. |
| ShamModel.Drain | reliable-transport-protocol/server.c:453-467 | The drain ends, with no buffered packet left that could be delivered. |
| Sham.Client.Refill | reliable-transport-protocol/client.c:419-443 | The inner send loop fills the ring in place as the model does. |
| Sham.Client.TakeAck | reliable-transport-protocol/client.c:445-455 | ACK handling in place. |
| Sham.Client.Sweep | reliable-transport-protocol/client.c:463-476 | The retransmission sweep: the ring it leaves, and the datagrams it sends in their order, are those of the model, of which LateIsResent and SweptKeeps say what they are. |
| ShamNetwork.LateIsResent | reliable-transport-protocol/client.c:466-475 | Every slot in use that is not acknowledged and has timed out is sent again, with its number and data, once; its place among the datagrams sent is the number of such slots before it, and there are no others. |
| ShamNetwork.SweptKeeps | reliable-transport-protocol/client.c:464-476 | After the sweep a slot is in use exactly if it was and its number is not below base, and keeps its number and data. |
| ShamNetwork.ThenIsGood | reliable-transport-protocol/client.c:416-476 | The invariant holds on a network on which a datagram that is delivered or lost is gone, through every sending, loss and arrival. |
| ShamNetwork.GoesFurther | reliable-transport-protocol/client.c:445-476 | From every state that can be reached with a segment not acknowledged, whatever is lost: the sweep after all slots have timed out, the arrival of one datagram of it, and of its answer, take base further. |
| ShamNetwork.EndsOrStops | reliable-transport-protocol/client.c:416-476 | From every state before the server takes FIN some run goes on to the end, with the whole file at the server, or to one of the two stops. |
| ShamNetwork.TransferCanEnd | reliable-transport-protocol/client.c:416-476 | So it is after every run from the start, with any losses, repeats and reordering; the output is a prefix of the file, and all of it once FIN is taken. |
| ShamCompletion.CompletesIff | reliable-transport-protocol/client.c:416-476 | From every state that a network which loses, doubles and reorders brings it to, a transfer can still be ended with the whole file at the server, if and only if the file has fewer than 10240 bytes. |
| ShamCompletion.RunIsCovered | reliable-transport-protocol/client.c:416-476 | Every run over such a network has a run beside it, with the same client and server, on a network from which nothing is ever taken away. |
| ShamCompletion.RunIsFollowed | reliable-transport-protocol/client.c:416-476 | And the other way round: what has been shown to happen there, such as the two stops, happens over such a network. |
| Sham.Server.Drain | reliable-transport-protocol/server.c:453-467 | The nested drain loops in place equal the model's drain. |
| Sham.Server.DeliverNext | reliable-transport-protocol/server.c:454-466 | One search delivers the first buffered packet with the expected number, if there is one. |
| Sham.Server.Receive | reliable-transport-protocol/server.c:438-486 | One packet: the new state and the ACK, number and window, that answers it. |
| Bytes.PutWordAt | xv6-memory-management/kernel/fs.c:405-444 | A 32-bit little-endian word that was stored is read back, and every other word is unchanged. |
| FileBlocks.BitsAt | xv6-memory-management/kernel/fs.c:65-106 | Setting or clearing one bit of a map block changes that bit alone. |
| FileModel.FreshDiskIsOk | xv6-memory-management/mkfs/mkfs.c:236-250 | A disk without files, its metadata marked as mkfs marks it, is consistent: the invariant has a beginning. |
| FileModel.FirstBitsAt | xv6-memory-management/mkfs/mkfs.c:245-247 | The loop of mkfs marks exactly the first blocks. |
| FileModel.MarkAllocates | xv6-memory-management/kernel/fs.c:65-89 | Marking and zeroing a free block allocates it and touches no other block's state. |
| FileModel.ClearFrees | xv6-memory-management/kernel/fs.c:91-106 | Clearing its bit frees one block and no other. |
| FileModel.GainKeepsMaps | xv6-memory-management/kernel/fs.c:405-444 | Recording a fresh block in an empty slot keeps all owned blocks distinct, nonzero and marked, and files without holes. |
| FileModel.AttachDirectBytes | xv6-memory-management/kernel/fs.c:405-418 | Allocating for one file changes no byte of any file. |
| FileModel.StoreKeepsInv | xv6-memory-management/kernel/fs.c:529-562 | Storing into a data block breaks nothing of the block maps. |
| FileModel.StoreSplices | xv6-memory-management/kernel/fs.c:543-551 | Storing d at off within a block is splicing d into the flat file. |
| FileModel.WroteMore | xv6-memory-management/kernel/fs.c:543-551 | One turn of the write loop, within a block, splices its piece in after what was written before, and leaves the other files alone. |
| FileModel.DataDiffers | xv6-memory-management/kernel/fs.c:405-444 | Different file positions, of the same or different files, are different blocks. |
| FileModel.WroteAll | xv6-memory-management/kernel/fs.c:552-561 | Once the size is updated, the file is the old one with what was stored spliced in as far as the file reaches, and no other file has changed. |
| FileModel.WritesJoin | xv6-memory-management/kernel/file.c:149-172 | Consecutive chunks compose to one splice. |
| FileModel.ReadsBack | xv6-memory-management/kernel/fs.c:494-562 | Bytes that were spliced in are what is there. |
| FileModel.Budget | xv6-memory-management/kernel/file.c:149-172 | With one map block, a chunk logs at most its data blocks and three more. |
| FileModel.WriteBudget | xv6-memory-management/kernel/file.c:143-156 | On any disk a write logs its inode, the indirect block and its map block, the data blocks, and a map block for each of those that is new. |
| FileModel.ChunkTouches | xv6-memory-management/kernel/file.c:143-156 | A chunk of at most 3072 bytes touches at most four data blocks, wherever it starts, and with all it can need stays within MAXOPBLOCKS. |
| FileModel.TruncateKeepsInv | xv6-memory-management/kernel/fs.c:446-476 | Truncation leaves an empty inode, its blocks free, every other file and inode as it was. |
| FileModel.TruncateBytes | xv6-memory-management/kernel/fs.c:446-476 | Freeing one inode's blocks changes no byte of any file. |
| FileSystem.Volume.FirstClear | xv6-memory-management/kernel/fs.c:73-86 | The first clear bit of a map block from b on, or the end of it. |
| FileSystem.Volume.Balloc | xv6-memory-management/kernel/fs.c:65-89 | Returns the lowest block that was free, now marked and zeroed, having logged just those two; 0 exactly when none is free, with nothing changed. |
| FileSystem.Volume.Bmap | xv6-memory-management/kernel/fs.c:400-444 | Returns the address of file block bn, allocating it and the indirect block if need be; an existing mapping is only looked up. No byte of any file changes. |
| FileSystem.Volume.Readi | xv6-memory-management/kernel/fs.c:494-519 | Reads exactly the bytes of the flat file in range, short at its end and none if off + n overflows, and never allocates or writes. If the destination takes fewer it returns -1, having copied those. |
| FileSystem.Volume.Iupdate | xv6-memory-management/kernel/fs.c:222-242 | In the inode's block its 64 bytes, from word 16 * (inum % 16) on, change and nothing else: words 0 and 1, which are type, major, minor and nlink, are kept, word 2 is the size, and the thirteen addresses follow. Every inode on disk is then the one in memory; one block is logged and no file changes a byte. |
| FileModel.DinodeIs | xv6-memory-management/kernel/fs.c:222-242 | Storing a size and thirteen addresses word by word gives exactly that block. |
| FileFormat.DiskHasFile | xv6-memory-management/kernel/fs.h:27-52 | Read from the bytes of the disk alone, with 64-byte inodes, sixteen to a block, and 256 addresses in an indirect block: an inode has the size of its file, and the address for offset off is a block of the disk with byte off % 1024 of it. |
| FileFormat.DiskHasMap | xv6-memory-management/kernel/fs.h:48-52 | Read likewise, the bit of a block in the free map is set exactly for the metadata and the blocks that some inode owns. |
| FileSystem.Volume.StorePiece | xv6-memory-management/kernel/fs.c:538-546 | The piece of a turn, or the part of it that could be copied: logged if all of it was, otherwise cached only, unless its block is in the log already. |
| FileSystem.Volume.WriteLoop | xv6-memory-management/kernel/fs.c:532-551 | writei's loop splices what it wrote, and stops early only when the disk is full or the copy fails. It stops at the byte, and with a part of a piece, just as StopsAt says from the size of the file and where the copy fails; what a failed piece leaves is not kept if no block of the file was in the log before. |
| FileSystem.Volume.Writei | xv6-memory-management/kernel/fs.c:521-562 | -1 exactly for a start past the end or a file too large; else the file is the old one with the first bytes spliced in at off, and every other file is unchanged. r counts the bytes of whole pieces; where it stops, and with how much of a piece copied, is told by the old size and where the copy fails. A part that the file reaches can be read, and is not kept if no block of the file was logged before. |
| FileModel.SeenIs | xv6-memory-management/kernel/fs.c:538-551 | Of a write whose copy fails, more bytes can be read than are counted if and only if it fails inside a block, after some bytes of it, and the file reached beyond the first of these; then all that was copied and the file reached is seen, and the counted ones end where that block began. |
| FileModel.ChunkEnds | xv6-memory-management/kernel/file.c:147-171 | The same over all of filewrite: the chunk it stops in decides, and no chunk before it. |
| FileSystem.Volume.Bfree | xv6-memory-management/kernel/fs.c:91-106 | Frees a marked block, logging its map block and no other; the panic is exactly the unmarked case. |
| FileSystem.Volume.Itrunc | xv6-memory-management/kernel/fs.c:446-476 | Empties the file through direct and indirect blocks, freeing each once; "freeing free block" is out of reach. It logs exactly the map blocks of the file's blocks and the inode's block, on any disk. |
| FileSystem.Volume.WriteChunk | xv6-memory-management/kernel/file.c:143-165 | One transaction of filewrite takes the file system, as the disk will keep it, from one sound state to another, changes logged blocks only and none of the log, and logs at most MAXOPBLOCKS blocks on any disk, seven with one map block. The r bytes it counts are kept; more can be read if and only if Tears, a condition on the old size, the range and where the copy fails, and then exactly those up to the failure that the file reached. |
| FileSystem.Volume.WriteChunks | xv6-memory-management/kernel/file.c:147-171 | The chunk loop amounts to one splice of all it wrote, and says why it stopped; each state between its transactions has a prefix of it. What is read and not kept at its end is told by TearsFile. |
| FileSystem.Volume.FileWrite | xv6-memory-management/kernel/file.c:134-179 | Returns n exactly if all n bytes are in the file at off; otherwise -1, and what fitted or could be copied is there. The bytes up to the new offset are kept, and more can be read if and only if TearsFile: the copy fails inside a block of a chunk that fits, and the file had reached that block's part. It is a chain of such transactions. |
| FileSystem.Volume.Truncate | xv6-memory-management/kernel/sysfile.c:368-370 | Emptying a file is one transaction too, of the map blocks of its blocks and its inode's block: at most two with one map block. |
| FileSystem.Volume.WriteThenRead | xv6-memory-management/kernel/fs.c:494-562 | readi after writei returns the bytes written. |
| FileTransactions.TransactionsJoin | xv6-memory-management/kernel/log.c:145-176 | Operations that end in one group commit make one transaction. |
| FileTransactions.AboveMatters | xv6-memory-management/kernel/fs.c:446-562 | Blocks below the inodes do not matter: with all others alike, a disk has the same sound state and the same files. |
| FileCrash.EncodeIsInjective | xv6-memory-management/kernel/log.c:178-192 | The words the log copies determine the bytes of a block. |
| FileCrash.CrashedFileSystem | xv6-memory-management/kernel/log.c:65-204 | Stop a run of file system operations after any of its block writes, and crash any number of times in recovery: the disk is sound and has exactly the files it had after the last group whose header was written. |
| FileCrash.CrashedOperation | xv6-memory-management/kernel/file.c:149-165 | One operation, such as a chunk of filewrite or a truncation, is there as a whole if its header was written and not at all otherwise. |
| FileCrash.CrashedWrite | xv6-memory-management/kernel/file.c:134-179 | However filewrite is cut short and its transactions are grouped, the recovered file has some first bytes of the data at their place and nothing else new, and every other file is as it was. |
| FileCrash.TrailCommits | xv6-memory-management/kernel/file.c:149-165 | Every transaction of filewrite that logs anything fits the log as a group of its own. |
| PageModel.EntryChangeLeaf | xv6-scheduling/xv6-riscv/kernel/vm.c:97-115 | Changing one entry of one table changes at most the one mapping it stands for, in one address space. |
| PageModel.NewTableKeepsInv | xv6-scheduling/xv6-riscv/kernel/vm.c:97-115 | A table page added by walk keeps every mapping, and has one owner. |
| PageModel.MapKeepsInv | xv6-scheduling/xv6-riscv/kernel/vm.c:145-174 | Storing a leaf entry inserts one mapping and keeps every page owned once. |
| PageModel.UnmapKeepsInv | xv6-scheduling/xv6-riscv/kernel/vm.c:192-212 | Clearing it removes one mapping and leaves its page without owner, not on the free list. |
| PageModel.DropTableKeepsInv | xv6-scheduling/xv6-riscv/kernel/vm.c:262-278 | Freeing an empty table keeps every mapping. |
| PageModel.LeafAt | xv6-scheduling/xv6-riscv/kernel/vm.c:97-138 | What walk finds is the map's entry for the page number: valid exactly if it is mapped, and then with some permission. |
| PageModel.MakePteIs | xv6-scheduling/xv6-riscv/kernel/vm.c:162-165 | Page number and flags are recovered from an entry made of them. |
| UserMemory.EntryBits | xv6-scheduling/xv6-riscv/kernel/riscv.h:358-375 | An entry with flags 27, of a text page, is valid, of the user and not writable; one with 7 is writable and not of the user: the bits are 1, 4 and 16. |
| PageFormat.MapIsHardware | xv6-scheduling/xv6-riscv/kernel/vm.c:97-115 | Sv39 translation by the hardware, from the bytes of memory alone, nine bits of the address for each of three levels, finds at every address below 2^38 the entry that the map from page numbers has. |
| PageModel.EnlargedUndone | xv6-scheduling/xv6-riscv/kernel/vm.c:216-258 | Unmapping what a failed growth mapped restores every mapping. |
| PageModel.UnmappedThenFreed | xv6-scheduling/xv6-riscv/kernel/vm.c:282-288 | Unmapping and then freeing the tables returns every page of the address space, each once. |
| PageModel.PrunedRootFreed | xv6-scheduling/xv6-riscv/kernel/vm.c:262-278 | Freeing the root last leaves no page of the address space with an owner. |
| TrapPages.DetachOne | xv6-scheduling/xv6-riscv/kernel/vm.c:192-212 | Clearing an entry without freeing its page, owned or foreign, removes one mapping; the page keeps its bytes, has no owner and is not on the free list. |
| TrapPages.DetachedThenFreed | xv6-scheduling/xv6-riscv/kernel/proc.c:253-261 | Taking the two top pages out first and then freeing the space gives back all of it but those two pages. |
| UserMemory.LazyView | xv6-scheduling/xv6-riscv/kernel/vm.c:452-473 | A page allocated on demand holds the zeros the process would have read. |
| UserMemory.StoreView | xv6-scheduling/xv6-riscv/kernel/vm.c:342-375 | A store into one process's page is seen by that process, at those addresses, and by no other. |
| UserMemory.CopyIsForked | xv6-scheduling/xv6-riscv/kernel/vm.c:290-324 | Mapping copies of the pages makes the child see at every address below the size just what the parent sees, with the same permissions, from pages of its own. |
| UserMemory.ZerosGrew | xv6-scheduling/xv6-riscv/kernel/vm.c:214-240 | Mapping new pages makes the process see zeros there, with the permissions asked for and read and user access, and everything else as before. |
| PageShortage.SpentMore | xv6-scheduling/xv6-riscv/kernel/vm.c:97-115 | Each step of walk takes one page from the free list if its table was missing, and then all deeper ones are missing too. |
| PageShortage.MissingSame | xv6-scheduling/xv6-riscv/kernel/vm.c:97-115 | Pages that are no tables do not change how many tables are missing. |
| PageShortage.AbsentGrows | xv6-scheduling/xv6-riscv/kernel/vm.c:97-115 | Counted over a whole range, the tables that were missing at first add up to those that each walk finds missing on its turn: a shared table is counted once. |
| Paging.Machine.Kalloc | xv6-scheduling/xv6-riscv/kernel/kalloc.c:65-82 | Takes the head of the free list, filled with 5; 0 exactly when the list is empty. |
| Paging.Machine.Kfree | xv6-scheduling/xv6-riscv/kernel/kalloc.c:42-63 | Puts the page on the list, filled with 1; the panic is exactly a page out of range. |
| Paging.Machine.Freerange | xv6-scheduling/xv6-riscv/kernel/kalloc.c:33-40 | Every page of the range is on the free list once. |
| Paging.Machine.Walk | xv6-scheduling/xv6-riscv/kernel/vm.c:97-115 | Finds the lowest table for a page number, building missing ones if asked; no mapping changes. When asked it fails exactly if there are fewer free pages than tables missing, and takes just those. |
| Paging.Machine.Walkaddr | xv6-scheduling/xv6-riscv/kernel/vm.c:117-138 | The physical page if the number is in range and mapped for the user, else 0. |
| Paging.Machine.MapPage | xv6-scheduling/xv6-riscv/kernel/vm.c:157-171 | One page, with any permission bits: remap panic exactly if already mapped, out of memory exactly if the missing tables outnumber the free pages, with no mapping changed; otherwise mapped, with just those tables added and taken from the free list. |
| Paging.Machine.Mappages | xv6-scheduling/xv6-riscv/kernel/vm.c:140-174 | Inserts n consecutive mappings exactly if none of them is there yet and the free pages are as many as the tables missing for the range, and takes just those; otherwise exactly those before the one that fails, which is mapped already, or for which the tables missing so far are too many. |
| Paging.Machine.Uvmunmap | xv6-scheduling/xv6-riscv/kernel/vm.c:189-212 | Removes the mappings of the range, returns each of their pages to the free list once, and changes no other mapping. |
| Paging.Machine.Detach | xv6-scheduling/xv6-riscv/kernel/vm.c:189-212 | Without do_free: the mappings of the range are gone, the free list and every page but tables unchanged, and owned pages left without owner. |
| Paging.Machine.Uvmdealloc | xv6-scheduling/xv6-riscv/kernel/vm.c:242-258 | Removes exactly the whole pages between the sizes. |
| Paging.Machine.Uvmalloc | xv6-scheduling/xv6-riscv/kernel/vm.c:214-240 | Fails exactly if the free pages are fewer than the new pages and the tables missing on the way to them, and otherwise takes just that many. Then the process sees zeros at every new address, and everything else as before; or the old mapping is restored with every page owned or free as before, and only empty tables may stay behind, with their owner. |
| Paging.Machine.Uvmcopy | xv6-scheduling/xv6-riscv/kernel/vm.c:290-324 | Fails exactly if the free pages are fewer than the parent's mapped pages and the tables the child misses for them, and otherwise takes just that many. Then the child sees at every address what the parent sees, with the same permissions, in copies; on failure it maps nothing and no page is lost. |
| Paging.Machine.Freewalk | xv6-scheduling/xv6-riscv/kernel/vm.c:260-278 | On an address space without mappings, returns every table to the free list once; "freewalk: leaf" is out of reach. |
| Paging.Machine.Uvmfree | xv6-scheduling/xv6-riscv/kernel/vm.c:280-288 | Returns every data page and table of the address space, once, and touches no other. |
| Paging.Machine.FreePagetable | xv6-scheduling/xv6-riscv/kernel/proc.c:253-261 | Tables and memory of the process return to the free list once each; trampoline and trapframe keep their bytes and are not on it; no other process changes. |
| Paging.Machine.Uvmcreate | xv6-scheduling/xv6-riscv/kernel/vm.c:176-187 | An empty root table on a page nobody has; 0 exactly when no page is free. |
| Paging.Machine.Vmfault | xv6-scheduling/xv6-riscv/kernel/vm.c:448-473 | Maps a zero page below the size where nothing is mapped, invisibly to the process, and no page that was mapped changes; fails exactly out of range, where something is mapped, or when free pages do not outnumber the missing tables. |
| Paging.Machine.Copyin | xv6-scheduling/xv6-riscv/kernel/vm.c:377-403 | Returns, byte by byte, what the map translates each address to; stops only at a byte that faults, or whose page is not there yet and needs more pages than are free. |
| Paging.Machine.Copyout | xv6-scheduling/xv6-riscv/kernel/vm.c:339-375 | Stores exactly a prefix of the bytes at their translated addresses, all of them on success; every byte stored is at an address whose entry has the write bit, and a page that was mapped without it keeps all its bytes, whatever the result. No other process sees a change. It stops only at a byte that faults, is not writable, or needs more pages than are free. |
| HeapModel.GiveBackKeepsValid | xv6-memory-management/user/umalloc.c:24-44 | Giving a block back and joining it with its neighbours keeps blocks a partition of the heap, no two free ones adjacent, and the circular list address-ordered. |
| HeapModel.TakeTail | xv6-memory-management/user/umalloc.c:78-83 | Cutting n units off the top of a free block keeps all that, with one more block handed out. |
| HeapModel.TakeWhole | xv6-memory-management/user/umalloc.c:76-78 | So does taking a whole block off the list. |
| HeapModel.GrowKeepsValid | xv6-memory-management/user/umalloc.c:46-61 | So does new memory from sbrk. |
| HeapModel.ArgumentIs | xv6-memory-management/user/umalloc.c:54 | What is left of the size in the int argument of sbrk is the size exactly below 2^31 bytes. |
| HeapModel.PartitionIff | xv6-memory-management/user/umalloc.c:46-61 | After morecore the blocks are a partition of the memory the process really has if and only if the request was below 2^31 bytes. |
| HeapModel.SearchOn | xv6-memory-management/user/umalloc.c:31-34 | free's search comes closer to its end with every step, so it ends. |
| HeapModel.SearchEnds | xv6-memory-management/user/umalloc.c:31-34 | Where it ends is the one place the block belongs on the ordered list. |
| Malloc.Heap.Free | xv6-memory-management/user/umalloc.c:24-44 | Exactly this block is no longer handed out, its room can be had again, and the heap stays sound; the next search starts at the free block below it. |
| Malloc.Heap.FindSpot | xv6-memory-management/user/umalloc.c:30-34 | The search loop ends between the free neighbours. |
| Malloc.HugeRequestIsShort | xv6-memory-management/user/umalloc.c:63-72 | malloc(0xFFFFFFFF): sbrk is asked for 16 bytes and a block of 268435457 units is handed out. |
| Malloc.SafeSizes | xv6-memory-management/user/umalloc.c:63-72 | When nothing fits, the sizes that are safe are those up to 2^31 - 32 bytes. |
| Malloc.Heap.MoreCore | xv6-memory-management/user/umalloc.c:46-61 | Asks for at least 4096 units, narrowed to an int, and frees the units it meant into the heap; on refusal nothing changes. |
| Malloc.Heap.Take | xv6-memory-management/user/umalloc.c:75-85 | Hands out n units of a free block, from its top, and leaves the search pointer at the block before it. |
| Malloc.Heap.Search | xv6-memory-management/user/umalloc.c:69-89 | The circular search ends, with the first block large enough from the search pointer on; one call of morecore is always enough; the blocks stay within the memory granted if and only if the request was safe. |
| Malloc.Heap.Alloc | xv6-memory-management/user/umalloc.c:63-90 | Null exactly when no free block is large enough and sbrk refuses; otherwise a block of the rounded size that nobody had, all others as they were. All blocks lie in memory the process has if and only if a block fitted, sbrk refused, or the request was below 2^31 bytes. |
| Malloc.UnitsHold | xv6-memory-management/user/umalloc.c:69-71 | The units handed out, less the header, hold the bytes asked for, and one unit less would not. |
| Malloc.AsksForMuch | xv6-memory-management/user/umalloc.c:51-54 | sbrk is asked for the units needed or 4096, whichever is more. |
| CfsModel.NobodyStarves | xv6-scheduling/xv6-riscv/kernel/proc.c:497-576 | While the same n user processes are runnable, each is picked within 17*(n-1)+1 decisions. |
| CfsModel.SliceIsShare | xv6-scheduling/xv6-riscv/kernel/proc.c:508-514 | For up to 16 processes the slice is the longest with which all have a turn within 48, from 48 for one or none; beyond that it is 3. |
| CfsModel.ChargeIsWeighted | xv6-scheduling/xv6-riscv/kernel/proc.c:572-575 | A process is charged the whole part of its slice times 1024 over its weight: at weight 1024 the slice itself; nobody else is. |
| CfsModel.PickIsUser | xv6-scheduling/xv6-riscv/kernel/proc.c:527-546 | The best process is runnable, has a pid of 3 or more, and the least virtual run time of all those, the first in the table of equals. |
| CfsModel.WaitIsBounded | xv6-scheduling/xv6-riscv/kernel/proc.c:527-576 | Whatever the virtual run times, a runnable process waits no longer than the turns the others can have before they pass it. |
| CfsModel.SpreadStaysBounded | xv6-scheduling/xv6-riscv/kernel/proc.c:497-576 | Over every run of slices, sleeps, wakeups, forks, exits and reaping: weights stay 1024 and virtual run times of runnable user processes stay within 48 throughout, if and only if every process that wakes is within 48 of the others when it does. |
| CfsModel.WakeIsFairIff | xv6-scheduling/xv6-riscv/kernel/proc.c:752-771 | wakeup leaves the virtual run time as it was, so it keeps the bound exactly if the process is still near the others. |
| CfsModel.SleeperMonopolises | xv6-scheduling/xv6-riscv/kernel/proc.c:527-576 | For every k a run from boot after which, of two runnable user processes, one is passed over 2k times in a row for one that has slept: with sleepers there is no bound on the wait. |
| CfsModel.ForkIsFair | xv6-scheduling/xv6-riscv/kernel/proc.c:321-338 | A child that starts at the least virtual run time keeps that bound. |
| CfsModel.ForkKeepsLeast | xv6-scheduling/xv6-riscv/kernel/proc.c:321-338 | A child is no further than any runnable user process and as far as one of them: it neither waits for the others nor lets them wait. |
| CfsModel.DecideIs | xv6-scheduling/xv6-riscv/kernel/proc.c:530-575 | A decision charges one process one slice and keeps the set of runnable ones. |
| CfsModel.TurnUsed | xv6-scheduling/xv6-riscv/kernel/proc.c:530-575 | Each turn of another process uses up one of those it can have before p. |
| CfsModel.BootIsFair | xv6-scheduling/xv6-riscv/kernel/proc.c:60-74 | A table with at most init in it is fair. |
| Scheduler.Cpu.CountRunnable | xv6-scheduling/xv6-riscv/kernel/proc.c:499-506 | Counts runnable user processes. |
| Scheduler.Cpu.FindBest | xv6-scheduling/xv6-riscv/kernel/proc.c:527-546 | The first runnable user process of least virtual run time, or none. |
| Scheduler.Cpu.Schedule | xv6-scheduling/xv6-riscv/kernel/proc.c:497-577 | Picks the best user process, or the first runnable system process of pid 1 or 2 only if there is none, and sets its slice; nothing is picked only if nothing is runnable. |
| Scheduler.Cpu.ComeBack | xv6-scheduling/xv6-riscv/kernel/proc.c:572-575 | Charges the slice as it comes back, runnable, asleep or a zombie. |
| Scheduler.Cpu.Fork | xv6-scheduling/xv6-riscv/kernel/proc.c:300-368 | Fills the first free slot with a runnable child at the least virtual run time around. |
| Scheduler.Cpu.LeastTime | xv6-scheduling/xv6-riscv/kernel/proc.c:321-338 | The least virtual run time of runnable user processes, or the parent's. |
| SleepLock.MutualExclusion | xv6-scheduling/xv6-riscv/kernel/sleeplock.c:21-41 | In every interleaving at most one process holds the sleep lock, and lk->pid names it. |
| SleepLock.NoLostWakeup | xv6-scheduling/xv6-riscv/kernel/proc.c:724-771 | Whenever the sleep lock and its spin lock are free, nobody sleeps on the lock or is on the way to. |
| SleepLock.NextKeepsInv | xv6-scheduling/xv6-riscv/kernel/proc.c:724-795 | Every step of acquiresleep, releasesleep, sleep, wakeup and kkill keeps the invariant behind both; where each step goes on is OneMoves. |
| SleepLockRuns.OneMoves | xv6-scheduling/xv6-riscv/kernel/sleeplock.c:21-41 | A step moves its own process only, from outside into acquiresleep, from there only to holding the lock, from holding into releasesleep, and from there only to outside. |
| SleepLockRuns.AcquiredBeforeReturn | xv6-scheduling/xv6-riscv/kernel/sleeplock.c:21-31 | Over every run, a process inside acquiresleep is still there at the end or has held the lock: it does not return without, however often it was woken or killed. |
| SleepLockRuns.HeldInBetween | xv6-scheduling/xv6-riscv/kernel/sleeplock.c:21-41 | A process that leaves the outside and is outside again has held the lock in between. |
| SleepLockRuns.CanAcquire | xv6-scheduling/xv6-riscv/kernel/sleeplock.c:21-41 | From every state that can be reached, a process inside acquiresleep has a run on which it comes to hold the lock. |
| SleepLockRuns.KilledLooksAgain | xv6-scheduling/xv6-riscv/kernel/proc.c:776-795 | A sleeper that is killed can run again and tests the lock once more. |
| Grep.Match | xv6-memory-management/user/grep.c:71-82 | 1 exactly when some substring, a prefix if the pattern starts with ^, is in the language of the pattern. |
| Grep.Matchhere | xv6-memory-management/user/grep.c:84-96 | 1 exactly when some prefix of the text is in the language. |
| Grep.Matchstar | xv6-memory-management/user/grep.c:98-106 | 1 exactly when some prefix is in the language of c* and the rest. |
| Grep.HereStar | xv6-memory-management/user/grep.c:98-106 | c* and the rest match here exactly when the rest matches after some run of c. |
| Grep.MatchesSomewhere | xv6-memory-management/user/grep.c:76-81 | Searching every start is searching every substring. |
| ShellRoundTrip.SpacedIsParsed | xv6-memory-management/user/sh.c:333-348 | Every tree with at most nine words to a command, written out with any spaces, tabs, returns, newlines and vertical tabs before the first token and after each, parses to that tree: they are needed only between two words, and after > if another > follows. |
| ShellRoundTrip.PrintedIsParsed | xv6-memory-management/user/sh.c:333-348 | In particular its printed form, with a space after each token, does. |
| ShellRoundTrip.BuildsExactlyTheFit | xv6-memory-management/user/sh.c:333-452 | Those trees, over the lexer's words, are exactly the ones the parser can build. |
| ShellRoundTrip.PrintIsInjective | xv6-memory-management/user/sh.c:333-348 | Different trees are printed differently. |
| ShellRoundTrip.RedirectionModes | xv6-memory-management/user/sh.c:380-403 | "<" opens its file for reading, ">" for writing from the start and ">>" for appending, and each is recorded for its own command. |
| ShellGrammar.WrittenIsParsed | xv6-memory-management/user/sh.c:350-452 | The same on tokens: parenthesised where the grammar needs it, every tree is read back, with nothing left over. |
| ShellGrammar.ExecBack | xv6-memory-management/user/sh.c:405-452 | A command or block is read back whatever follows that cannot belong to it. |
| ShellLexer.GetToken | xv6-memory-management/user/sh.c:271-314 | The token at the cursor, its bounds and the next cursor; a word is maximal. What separates words is said by RenderedIsLexed. |
| ShellLexer.Peek | xv6-memory-management/user/sh.c:316-326 | Moves over white space only, and tells what the next token starts with. |
| ShellLexer.RenderedIsLexed | xv6-memory-management/user/sh.c:271-314 | Tokens written out with any run of the five characters space, tab, return, newline and vertical tab before the first and after each, non-empty where two would run together, are cut into the same tokens: a newline that ends the line is no part of the last word. |
| Shell.ParseRedirs | xv6-memory-management/user/sh.c:380-403 | Takes all redirections that come next, or panics exactly when a file name is missing. |
| Shell.BuildSimple | xv6-memory-management/user/sh.c:421-452 | Arguments and redirections in any mix; panics exactly on a stray symbol, a missing file or a tenth word. |
| Shell.BuildBlock | xv6-memory-management/user/sh.c:405-419 | A parenthesised line with its redirections. |
| Shell.BuildExec | xv6-memory-management/user/sh.c:421-431 | A block or a simple command, as the grammar has it. |
| Shell.BuildPipe | xv6-memory-management/user/sh.c:367-378 | The tree the grammar gives, from the place it stands; terminates by the input left. |
| Shell.BuildLine | xv6-memory-management/user/sh.c:350-365 | The tree the grammar gives for a list of jobs; terminates by the input left. |
| Shell.NulTerminate | xv6-memory-management/user/sh.c:454-499 | Writes NULs at the ends of the command's words and nowhere else. |
| Shell.ReadsBack | xv6-memory-management/user/sh.c:454-499 | After that each argv and file pointer reads exactly its word: no word is cut by the end of another. |
| Shell.ParseCmd | xv6-memory-management/user/sh.c:333-348 | Panics exactly on lines that are no command, else leaves a buffer from which the command reads as the grammar has it. |
| SwapSafety.PagingIsInvisible | xv6-memory-management/kernel/vm.c:72-168 | From exec on, through any evictions and faults, a mapped segment page holds the program file's bytes with the process's own stores. |
| SwapSafety.StepKeepsView | xv6-memory-management/kernel/vm.c:72-168 | Each step leaves the bytes of every segment page as they were, wherever they are kept, exactly unless it discards a page that differs from the file. |
| SwapSafety.GoodIsNotLost | xv6-memory-management/kernel/vm.c:117-162 | That never happens to a page that was not made writable against its segment. |
| SwapSafety.NextKeepsInv | xv6-memory-management/kernel/vm.c:72-168 | Every step keeps: one entry a page, swapped entries with distinct slots whose bits are set, and taken slots inside the swap file. |
| SwapSafety.HeapPageComesBackZero | xv6-memory-management/kernel/vm.c:839-868 | A heap or stack page that is evicted and faulted back is what it was exactly if it was all zero. |
| SwapModel.NoGap | xv6-memory-management/kernel/vm.c:53-64 | The lowest free slot is never beyond the end of the swap file. |
| SwapModel.SlotsAreFew | xv6-memory-management/kernel/vm.c:116-162 | At most 67 slots are ever taken, so at most 67 pages are swapped. |
| SwapFault.SwapIsFullIff | xv6-memory-management/kernel/vm.c:131-149 | Writing a page out fits exactly if one of the first 67 slots is free. |
| SwapFault.FaultIsRun | xv6-memory-management/kernel/vm.c:672-873 | Every page fault, with whatever it evicts, is a run of those steps. |
| SwapFault.FaultKeepsViews | xv6-memory-management/kernel/vm.c:170-181 | A fault changes the bytes of no segment page by making room. |
| SwapFault.EvictOutcome | xv6-memory-management/kernel/vm.c:116-167 | Evicting an entry succeeds exactly if its page is mapped and, when it has to be written, there is a swap file, the disk takes a page, and one of 67 slots is free; the process is killed exactly if there is no swap file or no slot at all. |
| SwapFault.FaultNotesPage | xv6-memory-management/kernel/vm.c:750-868 | A fault that succeeds leaves the page mapped, with an entry that is resident, referenced and the latest to have come in. |
| SwapFault.FaultBringsPageBack | xv6-memory-management/kernel/vm.c:750-838 | An evicted segment page comes back with its bytes and its segment's permissions. |
| SwapFault.SegFaultSucceedsIff | xv6-memory-management/kernel/vm.c:750-838 | When a fault at a segment page succeeds; the read from the swap file never falls short. |
| SwapFault.UpgradeIsStep | xv6-memory-management/kernel/vm.c:711-733 | A mapped segment page needs no upgrade: only what vmfault takes for heap or stack is upgraded. |
| SwapFault.WriteIntoTextIsLost | xv6-memory-management/kernel/vm.c:711-722 | A write let through to read-only text by the stack rule survives one eviction and is lost by the next. |
| SwapReached.TextStoreIsLost | xv6-memory-management/kernel/vm.c:672-873 | A run of faults from exec on, under FIFO, that loses a store to a read-only segment page: it is written by the stack rule, swapped out for a heap page that is touched, faulted back, dropped for the heap page, and reads as at first. For every such page, byte and heap page. |
| SwapReached.HeapStoreIsLost | xv6-memory-management/kernel/vm.c:672-873 | A run of faults from exec on, under FIFO, after which a heap page that was written is zero again, because another heap page was touched when memory was short. |
| SwapReached.FirstScanFails | xv6-memory-management/kernel/vm.c:74-95 | After the first page-in since exec the clock finds no victim, and the next time it does. |
| SwapLeak.StepLeaks | xv6-memory-management/kernel/vm.c:116-162 | Exactly which taken slots belong to no page: a step adds the slot an evicted page still has, when the page is swapped out again or turns out not to be mapped, and no step adds another or takes one away. |
| SwapLeak.OnlyHeapLeaks | xv6-memory-management/kernel/vm.c:750-868 | Only heap and stack pages lose their slots so, because they come back without giving them up. |
| SwapLeak.LeakIsForGood | xv6-memory-management/kernel/vm.c:53-70 | Over no run is such a slot given back. |
| SwapLeak.TwoPagesFillSwap | xv6-memory-management/kernel/vm.c:96-181 | A run of faults from exec on with two heap pages: each turn leaks one slot more, and after 67 turns 66 slots belong to nobody and the next fault cannot be served, whatever the disk takes. |
| SwapRuns.EventsAreRun | xv6-memory-management/kernel/vm.c:672-873 | Any sequence of faults, stores and pages given back is a run of the steps, under either policy. |
| SwapRuns.FaultTakesOldest | xv6-memory-management/kernel/vm.c:96-115 | A fault under FIFO evicts the page of greatest wrapped age, or none. |
| SwapRuns.FifoEvictsInOrder | xv6-memory-management/kernel/vm.c:96-115 | From exec on, whatever pages the process touches, victims under FIFO are in strictly increasing order of arrival, while none is chosen that stayed through 2^64 page-ins. |
| SwapRuns.FewIsYoung | xv6-memory-management/kernel/vm.c:96-115 | Which is so for the first 2^64 - 1 steps. |
| SwapOrder.AgeIsTrue | xv6-memory-management/kernel/vm.c:103-109 | The wrapped 64-bit age is the true age within that limit. |
| SwapOrder.OldestIsFirst | xv6-memory-management/kernel/vm.c:103-109 | The victim came in before every other resident page. |
| SwapOrder.ClockTakesFirst | xv6-memory-management/kernel/vm.c:74-95 | The clock takes the first unreferenced resident page from the hand on, and finds none exactly when all are referenced. |
| SwapOrder.ClockFailsOnce | xv6-memory-management/kernel/vm.c:74-95 | After a scan that found none, the next one finds a victim exactly if any page is resident. |
| SwapClock.ClockEvicts | xv6-memory-management/kernel/vm.c:74-167 | A successful eviction takes the first resident page from the hand on that is not referenced, takes the reference bits of the resident pages before it and no others, and puts the hand where it comes to every other entry before the one just emptied. |
| SwapClock.HandStaysOn | xv6-memory-management/kernel/vm.c:165 | Nothing but an eviction moves the hand. |
| SwapClock.SecondChance | xv6-memory-management/kernel/vm.c:74-167 | A page that comes to the entry emptied last, and is referenced, is not evicted by the next scan and keeps its reference bit, whenever another resident page is not referenced. |
| Swap.Process.Alloc | xv6-memory-management/kernel/vm.c:26-41 | The page's entry, or a fresh one, or -1 when the table is full. |
| Swap.Process.AllocSlot | xv6-memory-management/kernel/vm.c:53-64 | Sets the bit of the first free slot in the byte bitmap. |
| Swap.Process.FreeSlot | xv6-memory-management/kernel/vm.c:65-70 | Clears one slot's bit. |
| Swap.Process.FindOldest | xv6-memory-management/kernel/vm.c:101-110 | The first entry of greatest age, in one loop. |
| Swap.Process.ClockScan | xv6-memory-management/kernel/vm.c:74-93 | One turn of the hand, clearing the reference bits it passes. |
| Swap.Process.EvictVictim | xv6-memory-management/kernel/vm.c:116-167 | Swaps out or discards one page, with every failure the code has, and moves the hand one beyond it. |
| Swap.Process.EvictOne | xv6-memory-management/kernel/vm.c:72-168 | try_evict_one under either policy. |
| Swap.Process.KallocOrEvict | xv6-memory-management/kernel/vm.c:170-181 | A frame at once, or after one eviction, or not at all. |
| Swap.Process.Vmfault | xv6-memory-management/kernel/vm.c:672-873 | The whole handler in place is the fault the theorems speak of. |
| BakeryModel.CapacityIsKept | bakery-simulator/bakery.c:62-163 | In every interleaving: at most 25 customers inside and four on the sofa, nobody stands while a seat is free, and the line fits its 21 places. |
| BakeryModel.StepKeepsInv | bakery-simulator/bakery.c:54-269 | Every critical section keeps the counters, the line, and the order of every customer's times. |
| BakeryModel.OvensSuffice | bakery-simulator/bakery.c:174-235 | Never more than four cakes bake at once, although no code counts ovens. |
| BakeryModel.ServedOnce | bakery-simulator/bakery.c:174-235 | Baking, payment and acceptance of a customer, once set, are never set again. |
| BakeryModel.SpacedAfter | bakery-simulator/bakery.c:174-235 | Accepted payments are at least two apart, and so are the cakes of one chef. |
| BakeryModel.ChefIsBusy | bakery-simulator/bakery.c:170-239 | Between two works of the same chef, payments and cakes alike, at least two units pass, in every run. |
| BakeryModel.ServedInOrder | bakery-simulator/bakery.c:173-235 | Over every run, of two customers the one who paid earlier is accepted earlier, by at least two units, and the one who ordered earlier has the cake put in no later. |
| BakeryModel.PaymentsFirst | bakery-simulator/bakery.c:173-204 | No cake is begun while the register is free and a payment can be accepted. |
| BakeryModel.SeatsInOrder | bakery-simulator/bakery.c:149-163 | Nobody in the line is given a seat before those ahead. |
| BakeryModel.TurnedAwayKeepsChefs | bakery-simulator/bakery.c:241-256 | After one customer was turned away, no chef ever finds all customers done. |
| BakeryModel.ChefsStopIff | bakery-simulator/bakery.c:241-256 | When everybody has gone, the chefs stop exactly if nobody was turned away. |
| BakeryModel.ChefsMayNeverStop | bakery-simulator/bakery.c:62-72 | With more than 25 customers there is a run from opening after which no chef ever ends. |
| BakeryModel.TurnedAwayIff | bakery-simulator/bakery.c:62-72 | From opening, somebody can be turned away if and only if more than 25 customers come in all. |
| BakeryProgress.SomethingToDo | bakery-simulator/bakery.c:54-239 | With all that was begun over and a customer inside, there is always a step that takes some customer inside further: nothing deadlocks. |
| BakeryProgress.ShopCanEmpty | bakery-simulator/bakery.c:54-239 | With one chef or more, from every state a run reaches everybody inside can be served and leave, within fourteen units for each customer there ever is. |
| Bakery.Shared.TryEnter | bakery-simulator/bakery.c:62-72 | Entering, or being turned away, as one step. |
| Bakery.Shared.TakeSeat | bakery-simulator/bakery.c:79-90 | Sitting down or joining the line; the store into standing_customers is in bounds. |
| Bakery.Shared.LookForSeat | bakery-simulator/bakery.c:92-112 | One look: seated exactly if no longer in the line. |
| Bakery.Shared.LeaveShop | bakery-simulator/bakery.c:149-163 | Leaving hands the seat to the head of the line and moves the others up. |
| Bakery.Shared.FindPayment | bakery-simulator/bakery.c:173-192 | The first of the earliest payments that may be accepted, or none. |
| Bakery.Shared.FindOrder | bakery-simulator/bakery.c:205-221 | The first of the earliest orders this chef may bake, or none. |
| Bakery.Shared.ChefTurn | bakery-simulator/bakery.c:170-239 | One turn accepts a payment, else bakes, else changes nothing because nothing can be done. |

## Left out

- BufferCacheOrder.RecyclesOldest: bunpin never takes the last reference there, as install_trans unpins only blocks it has read.
- SleepLockRuns.CanAcquire: says that a run to the lock exists; that a scheduler takes it is not modelled.
- BakeryProgress.ShopCanEmpty: says that such a run exists; that the threads take it is not modelled.
- Log.Log.FinishCommit: clients interleave with a commit between method calls, not inside one; the commit itself runs alone.
- FileModel.FreshDiskIsOk: the root directory and the files that mkfs adds are not on this disk.
- CfsModel.SpreadStaysBounded: other CPUs and the width of vruntime are left out.
- FileSystem.Volume.Writei: what later operations make of bytes a failed copy left unlogged is left out; each operation starts with none.
- SwapRuns.FifoEvictsInOrder: holds while no page stays resident through 2^64 page-ins, beyond which the ages wrap.
- Sleep locks of buffers and devices other than the root device are not in the buffer cache model; neither are its spin locks.
- File system operations run one at a time on a store with one atomic read and write per block, as the log gives it; `FileCrash` ties that store to the disk under the log, not to the buffer cache between them. Of boot, reading the superblock's magic number and the log are modelled.
- Directories, path names, inode allocation and reference counts, and devices are left out: plumbing over the file layer.
- ShamNetwork.TransferCanEnd: says that a run to the end or to a stop exists; how likely a network is to take it is not modelled.
- S.H.A.M.: handshake, teardown, chat mode, logging and real time are left out; a transfer starts with no handshake packet in flight, and the file is shorter than 2^32 - 1 bytes.
- The width of bytes_in_buffer is that of an unbounded number.
- Pages mapped without ownership, such as the trampoline, are a set of foreign pages; proc_pagetable, copyinstr and the kernel page table are left out.
- Free pages carry their list link in a separate sequence, not in their first word.
- malloc: sbrk gives memory above what it gave before, at a multiple of the header size, and callers do not overwrite headers; what happens to memory that a negative size gives back is followed for the one call only.
- CFS: the round-robin and first-come branches and printing are left out.
- grep: reading lines into its buffer is left out.
- Shell: running a command, and the memory of its tree, are left out.
- Demand paging: one process; sharing of swap files by name, fork, the swap_pages counter and log lines are left out. A segment file has fewer than 2^32 bytes, and sbrk gives back no segment page.
- Bakery: printing, reading the input and the real length of a time unit are left out.
- packet-sniffer and posix-shell are left out: they are mostly terminal, process and capture plumbing.
- trap.c, uart.c, plic.c, virtio_disk.c and assembly are left out.
