# Verified core of the seL4 kernel tools and the libnfs client

The repository holds the seL4 kernel with the tools that generate part of its code, and the
libnfs client. This project models the logic at its core and proves what it promises, for all
inputs and over whole runs. Nothing of the original program is executed here.

Six parts:

* **The RPC engine of the client** (`RpcEngine`, `RpcRuns`, `RpcDeadlines`, `RpcEndings`,
  `RpcLists`, `RpcTables`, `RpcClient`). A call is queued, sent in partial writes, moved to one
  of 1024 hashed chains, and ended by a reply, a timeout or a purge, or pushed back on a reconnect.
  `RpcEngine` is a step system over values; the run theorems are about it. `RpcLists`,
  `RpcTables` and `RpcClient` are the linked lists with separate head and tail, relinked in
  place, and every operation on them is proved to take the step of the value model.
* **Record marking** (`Framing`, `FramingReader`, `FramingRuns`; section 11 of RFC 5531): from
  issued messages through any split of sends and receives, and any cutting into fragments, to
  the delivered messages, on a first connection and on one that replaces it.
* **Reads and writes in pieces, with page cache and readahead** (`PageHash`, `PageCache`,
  `PageTable`, `Chunks`, `ReadOps`, `WriteOps`, `OpenFiles`, `CachedReads`, `ReadAheads`,
  `OpenFileRuns`; sections 3.3.6 and 3.3.7 of RFC 1813). The reference is one flat file.
* **Paths** (`Paths`, `PathNormalize`, `Lookup`, `LookupText`, `LookupTree`): the rewriting of a
  path in one buffer against a walk over its components, and the lookup that follows symbolic
  links, against a tree of objects.
* **ZDR** (`Bytes`, `Zdr`, `ZdrMounts`, `ZdrMessages`, `ZdrFormat`, `ZdrStreams`, `ZdrRoutines`;
  RFC 4506 and section 9 of RFC 5531): what values look like on the wire, that this is the
  grammar of the standard, that they are read back, and the routines that do both directions
  through one cursor.
* **The kernel's generators**: bitfields and tagged unions with variable-width tags (`Bits`,
  `Bitfields`, `TagUnions`, `UnionBlocks`) and the algebra of device regions (`Regions`).

Properties that the code does not have in full are stated with the exact condition under which
they hold, and with an input or a run that shows them fail: replies and reused transaction ids
(`ReplyEndsItsCall`, `ReplyEndsAnotherCall`), head and tail after a timeout scan
(`ScanKeepsTail`, `ShorterTimeoutIsUnsafe`), the counter of waiting calls (`StepExact`,
`ScanLeavesCounter`), the rounding loop (`LoopEnds`), the readahead setting (`SetReadahead`,
`ReadaheadOutgrowsCache`), the count a cached read reports (`CountIsRight` for one cache,
`RightFromEveryCache` for all, `CachedEndIsLost`), the count a write reports (`FinishedWrite`,
`OverclaimIsReported`), the cache after a failed write (`UntouchedCache`,
`TornWriteLeavesStalePage`), symbolic links (`FollowReplaces`, `AbsoluteLinkLosesTheRest`,
`InnerLinkIsTaken`, `InnerLinkIsRefused`), counts on the wire (`TestIsRight`, `HugeCountPasses`,
`OverflowPasses`), the memory of array elements (`ElementsStayInside`, `ElementBehindMemory`),
padding at the end of a buffer (`WritesStayInside`, `MessagesStayInside`, `PaddingPastTheEnd`),
the tag comparison (`ComparisonIsRight`), fields written back (`SetOfGet`, `WideHighLosesBits`),
the writers' assertions (`AssertedIsReadBack`, `AssertionMissesBits`) and reserved ranges that
start before a region (`RemovalIsExact`, `EarlyRangeStays`).

Time, the network, the server, memory and the socket are inputs: an operation takes what the
clock says, what each call of `send` accepts, what each reply contains and in which order the
replies come, and whether memory is there. A word of the bitfield modules is the sequence of
its bits, so the word size stays a parameter.

Check everything with `dafny verify dfyconfig.toml`.

## Model

| member | source | states |
|---|---|---|
| `RpcEngine.HashXid` | libnfs/lib/pdu.c:83-86 | a transaction id selects one of the 1024 chains |
| `RpcEngine.FindXid` | libnfs/lib/pdu.c:549-559 | the chain walk finds the first call with the id; every call before it has another id |
| `RpcEngine.Record` | libnfs/lib/pdu.c:263-269 | a queued message is preceded by its record marker, which reads as the last-fragment bit and the length, and is itself unchanged |
| `RpcEngine.StepInvariant` | libnfs/lib/pdu.c:220-272 | every event keeps the invariant: only the head of the out queue is partly written, chain h holds only ids that hash to h, every call has the id its allocation gave it |
| `RpcEngine.RequeueInvariant` | libnfs/lib/socket.c:811-870 | requeueing keeps the invariant and leaves no call partly written |
| `RpcRuns.StepConserves` | libnfs/lib/pdu.c:220-272 | one event holds as many copies of a call as before, plus one exactly for the call it queues |
| `RpcRuns.EveryCallHeldOnce` | libnfs/lib/pdu.c:62-81 | in every reachable state a queued call is held exactly once in out queue, chains and completed calls together, and no other call is held |
| `RpcRuns.CallsArePartitioned` | libnfs/lib/pdu.c:549-581 | in every reachable state the calls ever queued are partitioned into out queue, chains and called back, and no callback runs twice |
| `RpcRuns.TeardownCallsBackAll` | libnfs/lib/init.c:265-305 | after a teardown of any reachable state every call of the run has had its callback exactly once |
| `RpcRuns.XidsClashEvery2To32` | libnfs/lib/pdu.c:155 | two calls share a transaction id if and only if their allocations are a multiple of 2^32 apart |
| `RpcRuns.ReplyEndsItsCall` | libnfs/lib/pdu.c:549-581 | a reply ends the waiting call whose id it carries if and only if no call before it in the chain was allocated a multiple of 2^32 calls away |
| `RpcRuns.ReplyEndsAnotherCall` | libnfs/lib/pdu.c:549-581 | two calls 2^32 allocations apart, from a new context and whatever their messages: the reply to the second ends the first |
| `RpcRuns.WaitLenCoversWaiting` | libnfs/lib/pdu.c:560-569 | over every run of fewer than 2^32 events the waiting counter is never below the number of waiting calls |
| `RpcRuns.DecrementNeverWraps` | libnfs/lib/pdu.c:560-569 | so the decrement on a reply never wraps around |
| `RpcRuns.RequeueResendsEverything` | libnfs/lib/socket.c:835-853 | after a requeue of any reachable state every live call is in the out queue with nothing written, the unsent calls keep their order behind the others, and no call waits |
| `RpcRuns.DisconnectIsFinal` | libnfs/lib/socket.c:765-788 | a disconnect calls back every call; whatever happens after it, until reconnecting is turned on again, a lost connection is not replaced and every call is called back |
| `RpcRuns.ReconnectCanReturn` | libnfs/lib/socket.c:524-535 | turned on again after a disconnect, reconnecting is in force: the next lost connection is replaced and no call is called back |
| `RpcDeadlines.StepKeepsOrder` | libnfs/lib/pdu.c:226-240 | with one timeout, a clock that does not go back and no reconnect, every event keeps deadlines in order along each queue |
| `RpcDeadlines.OrderedScansAsPrefix` | libnfs/lib/socket.c:381-433 | in a queue in deadline order the expired calls are a prefix |
| `RpcDeadlines.SteadyRunsAreSafeToScan` | libnfs/lib/socket.c:381-433 | in every state of every such run each queue is safe to scan, at any time, and a scan removes a prefix |
| `RpcDeadlines.ShorterTimeoutIsUnsafe` | libnfs/lib/socket.c:400-403 | a shorter timeout set between two calls of a new context, whatever its first id and their messages: the scan drops the tail and keeps the head |
| `RpcEndings.CallTimesOut` | libnfs/lib/pdu.c:226-240 | a call issued at any time after any run: while it is live, whatever has happened since, a scan ends it with a timeout if and only if the timeout then in force is positive and has passed since the call was issued; otherwise the call stays |
| `RpcEndings.StepDue` | libnfs/lib/socket.c:381-433 | no event changes the deadline of a call |
| `RpcEndings.PurgeEndsAll` | libnfs/lib/init.c:265-305 | a purge calls back exactly the live calls, all with its status |
| `RpcEndings.ReconnectsRunOut` | libnfs/lib/socket.c:855-869 | in an outage of a client that may try n times the first n attempts call nothing back and lose no call; every later one, and one that cannot be started, ends all calls with an error |
| `RpcEndings.ResentLastFirst` | libnfs/lib/socket.c:843-852 | the place in the out queue of each call that waited: chains and the calls in them are sent again the last one first |
| `RpcEndings.StepExact` | libnfs/lib/pdu.c:560-569 | the waiting counter, where it is the number of waiting calls modulo 2^32, stays so if the event is no scan that finds a waiting call late and no purge while a call waits, and, with fewer than 2^32 waiting calls, only then |
| `RpcEndings.RunExact` | libnfs/lib/pdu.c:560-569 | so it is exact over every run of such events |
| `RpcEndings.ScanLeavesCounter` | libnfs/lib/socket.c:409-432 | one call, sent and timed out: the counter says one and no call waits |
| `RpcLists.Enqueue` | libnfs/lib/pdu.c:62-70 | the linked queue with head and tail holds the old calls and then the new one |
| `RpcLists.ReturnToQueue` | libnfs/lib/pdu.c:75-81 | the linked queue holds the call and then the old ones |
| `RpcLists.UnlinkXid` | libnfs/lib/pdu.c:552-569 | the first call with the id is unlinked, head and tail still agree, and nothing changes when there is none |
| `RpcLists.RemoveItem` | libnfs/include/slist.h:39-50 | the list macro removes exactly the item |
| `RpcLists.ScanQueue` | libnfs/lib/socket.c:389-408 | the list keeps exactly the calls that are not overdue, in order, and the others are called back in order; the tail changes only when the list becomes empty |
| `RpcLists.ScanKeepsTail` | libnfs/lib/socket.c:400-403 | after the scan head and tail agree if and only if the tail was not overdue or everything was |
| `RpcLists.PurgeQueue` | libnfs/lib/init.c:283-288 | every call of the queue is called back once, in order |
| `RpcTables.AppendToChain` | libnfs/lib/socket.c:249-251 | a sent call is at the end of its chain; all other chains are as before |
| `RpcTables.RemoveFromChain` | libnfs/lib/pdu.c:549-569 | a call leaves its chain; all other chains are as before |
| `RpcTables.ScanChains` | libnfs/lib/socket.c:409-432 | every chain keeps exactly its calls that are not overdue |
| `RpcTables.PurgeChains` | libnfs/lib/init.c:290-300 | every chain is drained and every call in it called back once |
| `RpcTables.RequeueAll` | libnfs/lib/socket.c:843-852 | all chains are moved in front of the out queue, call by call, with nothing written |
| `RpcClient.IssueCall` | libnfs/lib/pdu.c:135-272 | the linked structures take the step of the value model when a call is allocated and queued |
| `RpcClient.SendOnce` | libnfs/lib/socket.c:220-253 | a partial write of the head, or its move to its chain, is the step of the value model |
| `RpcClient.WriteToSocket` | libnfs/lib/socket.c:207-255 | the whole writing loop, for any sequence of partial sends |
| `RpcClient.ProcessReply` | libnfs/lib/pdu.c:549-588 | finding, unlinking and calling back a call is the step of the value model |
| `RpcClient.TimeoutScan` | libnfs/lib/socket.c:381-433 | on queues that are safe to scan the scan is the step of the value model |
| `RpcClient.PurgeAll` | libnfs/lib/init.c:265-305 | the purge is the step of the value model and leaves all lists empty |
| `RpcClient.Requeue` | libnfs/lib/socket.c:835-853 | the requeue is the step of the value model |
| `RpcClient.Reconnect` | libnfs/lib/socket.c:811-870 | reconnecting, or purging when it is not allowed or fails, is the step of the value model |
| `RpcClient.Disconnect` | libnfs/lib/socket.c:765-788 | disconnecting is the step of the value model |
| `RpcClient.RpcContext.constructor` | libnfs/lib/init.c:65-104 | a new context is the initial state |
| `RpcClient.RpcContext.Handle` | libnfs/lib/pdu.c:220-272 | the object takes the step of the value model for every event, and its lists stay linked |
| `RpcClient.RpcContext.HandleAll` | libnfs/lib/socket.c:381-433 | the object follows every run of the value model whose scans are safe |
| `RpcClient.SteadyRunsAreHandled` | libnfs/lib/socket.c:381-433 | the object accepts every run with one timeout, a monotone clock and no reconnect |
| `Framing.MarkerRoundTrip` | libnfs/lib/pdu.c:274-281 | the marker of a fragment gives back its size and whether it is the last |
| `Framing.BadMarkerEnds` | libnfs/lib/socket.c:297-314 | after a marker of no bytes or more than the limit nothing more is delivered, whatever follows |
| `Framing.ShortMessageEnds` | libnfs/lib/pdu.c:499-524 | nor after a message that is too short for a transaction id |
| `Framing.ReceiveFollows` | libnfs/lib/socket.c:297-366 | any piece of a legal stream keeps what has been delivered plus what the rest of the stream carries |
| `Framing.AnySplitDelivers` | libnfs/lib/socket.c:297-366 | for every stream of legal fragments and every way of receiving it the receiver delivers a prefix of the messages, and at the end all of them, in order, byte for byte |
| `Framing.CutMessage` | libnfs/lib/pdu.c:482-524 | the fragments of a message cut into any pieces carry the message, whatever is pending before and comes after |
| `Framing.AnyCutDelivers` | libnfs/lib/pdu.c:482-524 | however messages are cut into non-empty fragments and however the bytes are then received, exactly the messages are delivered |
| `Framing.RunOnWire` | libnfs/lib/socket.c:220-253 | over every run the bytes sent are the issued records, up to where the queue has got |
| `Framing.EndToEnd` | libnfs/lib/pdu.c:482-524 | on one connection, whatever is issued, however sends and receives are split, the peer has the messages issued so far in order, and all of them once everything is sent and received |
| `FramingReader.Reassemble` | libnfs/lib/pdu.c:499-524 | the reassembled message is the fragments and the last payload, one behind the other |
| `FramingReader.Reader.ProcessPdu` | libnfs/lib/pdu.c:482-524 | a complete record extends the fragment list or delivers a message, as the value model does |
| `FramingReader.Reader.Round` | libnfs/lib/socket.c:297-366 | one round of receiving on the two buffers is one round of the value model |
| `FramingReader.Reader.Rounds` | libnfs/lib/socket.c:297-366 | receiving any sequence of pieces on the two buffers is what the value model does |
| `FramingRuns.RunFramed` | libnfs/lib/pdu.c:263-269 | over every run, with timeouts, purges, disconnects and reconnects, every live call holds the record of its message |
| `FramingRuns.EndToEndAgain` | libnfs/lib/socket.c:835-853 | after any run of a context, a new connection: its peer has the calls that were live, in the order of the out queue, and then the calls issued since, and all of them once everything is sent and received |
| `PageHash.OddFactor` | libnfs/lib/libnfs.c:142-146 | multiplying by the odd constant cannot make a difference divisible by a power of two |
| `PageHash.PageIndex` | libnfs/lib/libnfs.c:142-146 | the 32-bit cut makes the hash work on the page number modulo 2^20 |
| `PageHash.SameSlot` | libnfs/lib/libnfs.c:142-146 | two pages have the same slot if and only if their numbers agree in the low bits, at most twenty of them |
| `PageHash.ConsecutivePagesDontCollide` | libnfs/lib/libnfs.c:142-146 | any 2^b consecutive pages have different slots in a cache of 2^b pages, any 2^20 in a larger one |
| `PageHash.NextPageCollides` | libnfs/lib/libnfs.c:142-146 | and the page after them has the slot of the first |
| `PageCache.PutKeepsCoherence` | libnfs/lib/libnfs.c:158-183 | storing what was written to the file keeps every page that may be found equal to the file's page, full or partial |
| `PageCache.PutAtKeepsCoherence` | libnfs/lib/libnfs.c:158-183 | the same for bytes at any file offset |
| `PageCache.HitIsTruth` | libnfs/lib/libnfs.c:185-205 | a page that is found is the current page of the file |
| `PageCache.TimeKeepsCoherence` | libnfs/lib/libnfs.c:185-205 | the passing of time never makes a wrong page visible |
| `PageCache.PutThenLookup` | libnfs/lib/libnfs.c:158-205 | whole pages stored together, as many as have different slots, are found again, with their bytes, if and only if there is no time to live or it is not over |
| `PageCache.PartThenLookup` | libnfs/lib/libnfs.c:158-205 | part of a page stored: the page is found, with those bytes changed, if and only if it was found then and its new time to live is not over |
| `PageCache.OtherPagesStay` | libnfs/lib/libnfs.c:158-183 | pages whose slot no stored page shares are found as before |
| `PageCache.UntouchedCache` | libnfs/lib/nfs_v3.c:4310-4324 | a cache left alone by a failed write stays coherent, whichever of its bytes reached the file, if and only if the write would change no byte of a live page |
| `PageCache.TornWriteLeavesStalePage` | libnfs/lib/nfs_v3.c:4310-4324 | a failed write can leave a stale page: a cache, a file and one byte |
| `PageTable.Pages.constructor` | libnfs/lib/libnfs.c:207-217 | a new cache is coherent with every file |
| `PageTable.Pages.Get` | libnfs/lib/libnfs.c:185-205 | the lookup of the value model: offset, time stamp and age must all fit |
| `PageTable.Pages.StoreInPage` | libnfs/lib/libnfs.c:163-177 | one round of the store is the store of the value model in one page |
| `PageTable.Pages.Store` | libnfs/lib/libnfs.c:158-183 | the loop stores exactly what the value model stores |
| `PageTable.Pages.Invalidate` | libnfs/lib/libnfs.c:148-156 | an invalidated cache is coherent with every file |
| `PageTable.CeilIsLeast` | libnfs/lib/init.c:127-133 | the specification of rounding: a power of two, at least x, and the least such |
| `PageTable.LoopEnds` | libnfs/lib/init.c:127-133 | the doubling loop ends if and only if the value is at most 2^31 |
| `PageTable.RoundToPowerOfTwo` | libnfs/lib/init.c:127-133 | the loop computes it, for x up to 2^31 in 32-bit arithmetic |
| `PageTable.ReadaheadIsLeast` | libnfs/lib/init.c:152-168 | the readahead is the least power of two that is as much as was asked for, and a page |
| `PageTable.Options.SetPagecache` | libnfs/lib/init.c:135-141 | the cache size stays zero or a power of two, never falls, and is at least what was asked |
| `PageTable.Options.SetReadahead` | libnfs/lib/init.c:152-168 | the readahead is rounded up; the cache holds twice the readahead if and only if the value is at most 2^30 or the cache already had 2^20 pages |
| `PageTable.ReadaheadOutgrowsCache` | libnfs/lib/init.c:152-168 | a readahead just over 2^30, set on new options, leaves a cache smaller than twice the readahead |
| `Chunks.Issue` | libnfs/lib/nfs_v3.c:4693-4738 | a request is cut into consecutive calls that cover it, all but the last of the full transfer size; all are sent if and only if as many calls as that needs can be sent, otherwise as many as can |
| `Chunks.FewestCalls` | libnfs/lib/nfs_v3.c:4693-4738 | the number of calls is the least whose transfer sizes have room for the request, and one for an empty request |
| `ReadOps.LastReply` | libnfs/lib/nfs_v3.c:4501-4527 | a reply that ends a call keeps the invariant: every byte asked for is outstanding or in place |
| `ReadOps.ShortReply` | libnfs/lib/nfs_v3.c:4526-4550 | a short reply, reissued for the rest, keeps it |
| `ReadOps.FinishedRead` | libnfs/lib/nfs_v3.c:4578-4592 | when nothing is outstanding and nothing failed the buffer has the file's bytes to the end of the request or of the file |
| `ReadOps.ReadOp.OnData` | libnfs/lib/nfs_v3.c:4500-4552 | a data reply, short, overlong, empty or complete, keeps the invariant, leaves less outstanding, and raises a failure only for its cause |
| `ReadOps.ReadOp.OnReply` | libnfs/lib/nfs_v3.c:4465-4560 | so does every reply; failures are never forgotten |
| `ReadOps.Drain` | libnfs/lib/nfs_v3.c:4465-4595 | every order of replies, with the end of the file told at once or by a later empty reply, ends the read with all calls answered; each failure flagged has some reply, lack of memory or refused send to blame |
| `WriteOps.FinishedWrite` | libnfs/lib/nfs_v3.c:4327-4332 | when every call is answered and none failed the file is the old file with the data written over it; the offset reached is the end of the data if and only if no reply claims more, and otherwise the furthest claim |
| `WriteOps.ShortWrite` | libnfs/lib/nfs_v3.c:4270-4295 | a short write, sent again for the rest, keeps the invariant |
| `WriteOps.LastWrite` | libnfs/lib/nfs_v3.c:4296-4300 | a complete or overlong reply keeps the invariant and moves the offset reached as far as it claims |
| `WriteOps.WriteOp.OnReply` | libnfs/lib/nfs_v3.c:4236-4302 | every reply, also one that claims more than was asked, keeps the invariant, whatever part of a failed call reached the file, leaves less outstanding, records the claim, and raises a failure only for its cause; a complete or overlong one moves the offset reached as far as it claims |
| `WriteOps.DrainWrite` | libnfs/lib/nfs_v3.c:4236-4324 | every order of replies ends the write; each failure flagged has some reply or refused send to blame, and a claim past the data some overlong reply |
| `WriteOps.OverclaimIsReported` | libnfs/lib/nfs_v3.c:4296-4300 | one byte, written and answered with a claim of two: the write succeeds and reports two |
| `OpenFiles.TransferSize` | libnfs/lib/nfs_v3.c:689-713 | the smaller of the server's limit and 1 MiB, or none when the limit is under 8 KiB |
| `OpenFiles.ReadCountIsRight` | libnfs/lib/nfs_v3.c:4582-4592 | a read that went to the server reports the right number if and only if the file goes on after the cached part and reaches the read's start, or the read starts on a page boundary and is at or after the end of the file, or for no bytes |
| `OpenFiles.ReadPosition` | libnfs/lib/nfs_v3.c:4583-4588 | a read that moves the position moves it by the number it reports |
| `OpenFiles.OpenFile.Ahead` | libnfs/lib/nfs_v3.c:4666-4678 | the readahead after a read, which is always zero or a power of two up to its limit |
| `OpenFiles.OpenFile.FromCache` | libnfs/lib/nfs_v3.c:4634-4654 | the leading pages found in the cache are copied, exactly up to the first one missing, and are the file's bytes |
| `OpenFiles.Fetch` | libnfs/lib/nfs_v3.c:4680-4738 | asking for the rest and waiting for all replies fills the buffer to the end of the request or of the file; it fails for lack of sends exactly when fewer calls can be sent than the rest needs |
| `OpenFiles.OpenFile.Report` | libnfs/lib/nfs_v3.c:4578-4592 | what was read is stored and the cache stays coherent, the caller gets the part asked for, readahead offset and position follow |
| `OpenFiles.OpenFile.Answer` | libnfs/lib/nfs_v3.c:4557-4592 | one callback: out of memory before error before cancellation, or the bytes |
| `OpenFiles.OpenFile.Pread` | libnfs/lib/nfs_v3.c:4597-4741 | a read delivers the file's bytes, as many as the count says; the position moves by the count if it is to, and not otherwise; the whole new state of cache and readahead; the cache stays coherent; every failure is explained, with the exact number of calls the read needs |
| `OpenFiles.GoodReadIsDone` | libnfs/lib/nfs_v3.c:4597-4741 | with memory and good replies a read is done if and only if all the calls it needs can be sent |
| `OpenFiles.OpenFile.Settle` | libnfs/lib/nfs_v3.c:4305-4332 | one callback: out of memory before error before cancellation, or how far the replies say the write came; the cache agrees with the file unless a failed write changes a cached byte |
| `OpenFiles.OpenFile.Pwrite` | libnfs/lib/nfs_v3.c:4337-4415 | a write that succeeds is the whole write, in the file and in the cache, moves the position by what it reports if it is to, and reports its length if and only if no reply claims more; one that fails leaves every byte old or new and the client as it was, with a coherent cache if it changes no cached byte; every failure is explained |
| `OpenFiles.GoodWriteIsDone` | libnfs/lib/nfs_v3.c:4337-4415 | with good replies a write is done if and only if all the calls it needs can be sent |
| `OpenFiles.OpenFile.Ftruncate` | libnfs/lib/nfs_v3.c:3773-3790 | the file has the new size and the cache agrees with it |
| `OpenFiles.OpenFile.Lseek` | libnfs/lib/nfs_v3.c:2347-2440 | the position moves to where it is asked to, counted from the start, from itself or from the end, if and only if that is not before the start and the size could be had |
| `ReadAheads.ReadChangesRa` | libnfs/lib/nfs_v3.c:4666-4675 | a read that asks the server doubles the readahead, from a page on and up to its limit, if its first missing byte is in the window, and gives it up otherwise |
| `ReadAheads.ReadMovesWindow` | libnfs/lib/nfs_v3.c:4578-4656 | the window then starts behind what was fetched |
| `ReadAheads.ReadaheadGrows` | libnfs/lib/nfs_v3.c:4666-4675 | after n reads in sequence 2^n pages are read ahead, or the limit |
| `ReadAheads.ReadaheadAnswers` | libnfs/lib/nfs_v3.c:4634-4691 | what a read fetched and read ahead of a file that is long enough answers every read in it without a call, until its time to live is over |
| `ReadAheads.WrittenPagesAnswer` | libnfs/lib/nfs_v3.c:4331 | so do whole pages that were written |
| `CachedReads.CountIsRight` | libnfs/lib/nfs_v3.c:4621-4691 | the number a read reports is right if and only if there is no cache, or it has the whole read, or the file goes on after the cached part and reaches the read's start, or the read starts on a page boundary at or after the end of the file |
| `CachedReads.CountIsReportable` | libnfs/lib/nfs_v3.c:4582-4592 | otherwise it is the distance from the read back to its page, or back to the end of the file, as a negative number |
| `CachedReads.CachedPartIsShort` | libnfs/lib/libnfs.c:185-205 | a read finds no more pages in the cache than have different slots |
| `CachedReads.RightFromEveryCache` | libnfs/lib/nfs_v3.c:4621-4691 | a read reports the right number from every coherent cache of a given size if and only if it starts at or before the end of the file, or on a page boundary, and the file does not end on a page boundary inside the pages of the read, or has more pages there than have different slots |
| `CachedReads.ReadPastEndIsNegative` | libnfs/lib/nfs_v3.c:4590 | reading at 200 in a file of 100 bytes through an empty cache reports -100 |
| `CachedReads.CachedEndIsLost` | libnfs/lib/nfs_v3.c:4590 | reading 8192 bytes of a cached file of one page reports no bytes |
| `OpenFileRuns.ReadCallsBound` | libnfs/lib/nfs_v3.c:4666-4738 | a read never needs more calls than its bytes, two pages and the readahead limit make |
| `OpenFileRuns.Perform` | libnfs/lib/nfs_v3.c:4597-4741 | each operation has the effect on file and position that its outcome says, a failed write one that leaves every byte old or new; what it reports is true; and the cache agrees with the file, unless a write fails part-way and would change a byte of a live page |
| `OpenFileRuns.Run` | libnfs/lib/nfs_v3.c:4597-4741 | over every run of reads, writes, truncations and seeks each read that has what it needs succeeds and gives the bytes the file then has, all of them without a cache or when the file does not end on a page boundary inside the read; each successful write is in the file; reads and writes at the position move it by what they report; the cache agrees with the file at the end. The run goes on after a failed write, unless the write would change a byte of the cache as it is then |
| `OpenFileRuns.ReadsInARow` | libnfs/lib/nfs_v3.c:4583-4588 | reads at the position, one after another, together give what one read of all their bytes should give |
| `OpenFileRuns.WritesInARow` | libnfs/lib/nfs_v3.c:4327-4332 | writes at the position, one after another, together write what one write of all their bytes should, when no reply claims more than was sent |
| `Paths.JoinSplit` | libnfs/lib/libnfs.c:868-967 | splitting a path at its slashes and joining the components gives the path |
| `Paths.NormalIsFixed` | libnfs/lib/libnfs.c:868-967 | a normal form that is not empty is its own normal form and means the same path |
| `Paths.NormalIsNoLonger` | libnfs/lib/libnfs.c:868-967 | the normal form is never longer than the path |
| `PathNormalize.StrStr` | libnfs/lib/libnfs.c:874-906 | the first occurrence of the pattern in the buffer, or none |
| `PathNormalize.DropEach` | libnfs/lib/libnfs.c:874-888 | after the loop no inner component is empty (or "."), and the path means the same |
| `PathNormalize.DropParents` | libnfs/lib/libnfs.c:905-923 | after the loop no inner component is "..", and the path means the same; it stops early only on a path that leads above the root |
| `PathNormalize.Finish` | libnfs/lib/libnfs.c:925-964 | the rules for the end of the path finish the normal form or refuse the path |
| `PathNormalize.Normalize` | libnfs/lib/libnfs.c:868-967 | the rewriting returns 0 if and only if the path is absolute and never leads above the root, and the buffer then holds its normal form |
| `Lookup.ReplySound` | libnfs/lib/nfs_v3.c:273-313 | every reply ends the lookup or leaves fewer links to follow, or as many and fewer names |
| `Lookup.EveryLookupEndsOnce` | libnfs/lib/nfs_v3.c:315-420 | whatever the server answers a started lookup ends, after at most 40 READLINK calls, with exactly one callback |
| `Lookup.NoMemoryHasACause` | libnfs/lib/nfs_v3.c:315-420 | a lookup under way ends for lack of memory only when something could not be had |
| `Lookup.NothingToBeHad` | libnfs/lib/nfs_v3.c:315-420 | and does so at the first reply after which something cannot be had, unless the reply is a link that ends it |
| `LookupTree.FollowReplaces` | libnfs/lib/nfs_v3.c:184-233 | a symbolic link is replaced by where it leads, with the rest of the path behind it, if and only if it is relative, or the last name, or leads nowhere: after an absolute link the rest of the path is dropped |
| `LookupTree.InnerLinkIsTaken` | libnfs/lib/nfs_v3.c:184-233 | a link before the last name is replaced by where it leads if and only if links are not refused and it is relative or leads nowhere |
| `LookupTree.LookupFinds` | libnfs/lib/nfs_v3.c:315-420 | against any tree of files, directories and links a lookup ends at the object the path leads to, or fails as that does, when the links before the last name are relative and links are not refused |
| `LookupTree.AbsoluteLinkLosesTheRest` | libnfs/lib/nfs_v3.c:184-206 | a path through an absolute link to a directory, of which the lookup ends at the directory |
| `LookupTree.InnerLinkIsRefused` | libnfs/lib/nfs_v3.c:329-334 | a path through a relative link to a directory, of which the lookup fails where links are refused, though the link is not its last name |
| `LookupText.SplicedFollows` | libnfs/lib/nfs_v3.c:208-233 | the text spliced from a link and what is left of the path resolves to where the link leads |
| `LookupText.PathLookup.Internal` | libnfs/lib/nfs_v3.c:315-420 | the step over the saved text is the step over names |
| `LookupText.PathLookup.OnLookup` | libnfs/lib/nfs_v3.c:273-313 | a LOOKUP or GETATTR reply is the reply of the value model |
| `LookupText.PathLookup.OnReadlink` | libnfs/lib/nfs_v3.c:154-250 | a READLINK reply is the reply of the value model |
| `LookupText.PathLookup.Run` | libnfs/lib/nfs_v3.c:154-420 | the object ends with one callback, after at most 40 READLINK calls, in the state of the value model |
| `LookupText.LookupPath` | libnfs/lib/nfs_v3.c:458-565 | a lookup starts if and only if there is memory, the path resolves and the first call of an empty path can be sent |
| `Bytes.Be32RoundTrip` | libnfs/lib/libnfs-zdr.c:107-125 | a word is read back from its big-endian bytes |
| `ZdrFormat.WordOnWire` | libnfs/lib/libnfs-zdr.c:107-125 | a word is written most significant byte first |
| `ZdrFormat.LongOnWire` | libnfs/lib/libnfs-zdr.c:132-155 | a double word is written high word first |
| `ZdrFormat.OpaqueOnWire` | libnfs/lib/libnfs-zdr.c:162-199 | an opaque is written as its length, its bytes and zeros up to a multiple of four |
| `Zdr.U64RoundTrip` | libnfs/lib/libnfs-zdr.c:132-155 | so is a double word, whatever follows it |
| `Zdr.BytesRoundTrip` | libnfs/lib/libnfs-zdr.c:162-199 | so is a counted opaque, with its padding consumed |
| `Zdr.StringRoundTrip` | libnfs/lib/libnfs-zdr.c:268-315 | so is a string without zero bytes |
| `Zdr.Round4IsMask` | libnfs/lib/libnfs-zdr.c:193-194 | the rounding of the specification is the masking in the code |
| `Zdr.TestIsRight` | libnfs/lib/libnfs-zdr.c:171-173 | the signed 32-bit test of a count says whether the bytes are there if and only if cursor and count add up to less than 2^31; it lets every larger count pass, and the cursor does not move forward |
| `Zdr.ElementsStayInside` | libnfs/lib/libnfs-zdr.c:327-337 | all elements that are read go into the memory of 4 n bytes, in 32-bit arithmetic, if and only if the count n is below 2^30, or at least 2^31, or the buffer has no more words than n - 2^30 |
| `ZdrStreams.WritesStayInside` | libnfs/lib/libnfs-zdr.c:175-187 | every opaque that passes the test without overflow stays inside the buffer, padding and all, if and only if the size is a multiple of four or too small for any |
| `ZdrStreams.HugeCountPasses` | libnfs/lib/libnfs-zdr.c:171-173 | a count of 0xFFFFFFFC in a buffer of eight bytes: the routine succeeds and puts the cursor back on the count |
| `ZdrStreams.OverflowPasses` | libnfs/lib/libnfs-zdr.c:171-173 | a count of 0x7FFFFFFC behind one word, in a buffer of a hundred bytes: the routine succeeds and puts the cursor before the buffer |
| `ZdrStreams.PaddingPastTheEnd` | libnfs/lib/libnfs-zdr.c:175-187 | one byte written to a buffer of five: the three bytes behind the buffer become zeros |
| `ZdrMounts.GroupsRoundTrip` | libnfs/mount/libnfs-raw-mount.c:90-106 | a group list of any length is read back |
| `ZdrMounts.ExportsRoundTrip` | libnfs/mount/libnfs-raw-mount.c:108-126 | an export list of any length, each with its groups, is read back |
| `ZdrMounts.MountsRoundTrip` | libnfs/mount/libnfs-raw-mount.c:70-88 | a mount list of any length is read back |
| `ZdrMounts.MountResRoundTrip` | libnfs/mount/libnfs-raw-mount.c:128-153 | a mount result, with its handle and flavours, is read back |
| `ZdrFormat.GroupsOnWire` | libnfs/mount/libnfs-raw-mount.c:90-106 | before each group a one, at the end a zero |
| `ZdrFormat.ExportsOnWire` | libnfs/mount/libnfs-raw-mount.c:108-126 | the same for exports, each its directory and then its groups |
| `ZdrFormat.MountsOnWire` | libnfs/mount/libnfs-raw-mount.c:70-88 | the same for mounts, each its host and then its directory |
| `ZdrMessages.CallRoundTrip` | libnfs/lib/libnfs-zdr.c:358-397 | a call body is read back |
| `ZdrMessages.ReplyRoundTrip` | libnfs/lib/libnfs-zdr.c:399-485 | a reply body, accepted or rejected, is read back |
| `ZdrMessages.MsgRoundTrip` | libnfs/lib/libnfs-zdr.c:487-521 | a whole message is read back by a reader that expects its kind of results |
| `ZdrFormat.MsgOnWire` | libnfs/lib/libnfs-zdr.c:345-521 | a message is on the wire as the grammar of section 9 of RFC 5531 says, word by word and opaque by opaque |
| `ZdrFormat.CallWords` | libnfs/lib/libnfs-zdr.c:358-397 | the first seven words of a call are id, 0, RPC version, program, version, procedure and credential flavour |
| `ZdrFormat.ReplyWords` | libnfs/lib/libnfs-zdr.c:457-521 | the first three words of a reply are id, 1 and whether it is accepted (0) or denied (1) |
| `ZdrFormat.OthersAreRefused` | libnfs/lib/libnfs-zdr.c:457-521 | another direction is refused, and so is a reply that is neither |
| `ZdrStreams.Stream.UInt` | libnfs/lib/libnfs-zdr.c:107-125 | for buffers of any size, one routine appends the word exactly when it fits, or reads it; reading changes no byte; the cursor stays a multiple of four |
| `ZdrStreams.Stream.UInt64` | libnfs/lib/libnfs-zdr.c:132-155 | the same for a double word |
| `ZdrStreams.Stream.Counted` | libnfs/lib/libnfs-zdr.c:162-199 | the same for a counted opaque, whose padding is not compared with the size; in both directions the comparison is right if and only if cursor and count add up to less than 2^31, and otherwise the routine succeeds with the cursor moved back |
| `ZdrStreams.Stream.Terminate` | libnfs/lib/libnfs-zdr.c:287-311 | in place, in the caller's memory or in new memory: the same bytes with a zero behind them, and the buffer unchanged |
| `ZdrStreams.Stream.GetString` | libnfs/lib/libnfs-zdr.c:268-315 | the string read is the same in all three cases and the buffer does not change; a count whose sum with the cursor overflows passes |
| `ZdrStreams.Stream.Str` | libnfs/lib/libnfs-zdr.c:268-315 | the string routine in both directions |
| `ZdrRoutines.GroupList` | libnfs/mount/libnfs-raw-mount.c:90-97 | the list routine appends the whole list exactly when it fits, or reads it |
| `ZdrRoutines.GroupNode` | libnfs/mount/libnfs-raw-mount.c:98-106 | the same for a node and what follows it |
| `ZdrRoutines.ExportList` | libnfs/mount/libnfs-raw-mount.c:108-115 | the same for exports |
| `ZdrRoutines.ExportNode` | libnfs/mount/libnfs-raw-mount.c:116-126 | the same for an export with its groups |
| `ZdrRoutines.MountList` | libnfs/mount/libnfs-raw-mount.c:70-77 | the same for mounts |
| `ZdrRoutines.MountBody` | libnfs/mount/libnfs-raw-mount.c:78-88 | the same for a mount and what follows it |
| `ZdrRoutines.IntArray` | libnfs/lib/libnfs-zdr.c:317-339 | the array routine appends count and elements exactly when they fit, or reads them; for a count of 2^31 or more it succeeds and reads none, and below that it stores an element behind its memory if and only if more words are there than the memory has room for |
| `ZdrRoutines.ElementBehindMemory` | libnfs/lib/libnfs-zdr.c:327-337 | a count of 2^30 and one word: the element is stored behind memory of no bytes |
| `ZdrRoutines.MountReply` | libnfs/mount/libnfs-raw-mount.c:139-153 | the mount result routine, in both directions and both cases |
| `ZdrRoutines.AuthField` | libnfs/lib/libnfs-zdr.c:345-356 | flavour and body of a credential, in both directions |
| `ZdrRoutines.CallFields` | libnfs/lib/libnfs-zdr.c:358-397 | the call body, in both directions |
| `ZdrRoutines.AcceptedReply` | libnfs/lib/libnfs-zdr.c:399-428 | an accepted reply, with its results or its version range |
| `ZdrRoutines.RejectFields` | libnfs/lib/libnfs-zdr.c:430-455 | a rejected reply |
| `ZdrRoutines.ReplyFields` | libnfs/lib/libnfs-zdr.c:457-485 | a reply body; a status that is neither is refused |
| `ZdrRoutines.Message` | libnfs/lib/libnfs-zdr.c:487-521 | a message is appended exactly when all but its last padding fits, or read as the format says up to a count that leads the routine astray |
| `ZdrRoutines.MessagesStayInside` | libnfs/lib/pdu.c:161-168 | no message that is appended leaves the buffer if and only if its size is a multiple of four or under 40 |
| `ZdrRoutines.WriteThenRead` | libnfs/lib/libnfs-zdr.c:487-521 | a message written to a buffer and read from it comes back whole, and every message shorter than 2^31 bytes that fits is written |
| `Bitfields.Layout` | kernel/tools/bitfield_gen.py:2164-2181 | the loop places the named fields from the top down, each above everything declared after it |
| `Bitfields.PlacedApart` | kernel/tools/bitfield_gen.py:2164-2181 | so fields lie inside the block and share no bit |
| `Bitfields.PlacedAt` | kernel/tools/bitfield_gen.py:2164-2181 | each named field is as far below the top of the block as everything declared up to it, padding included, is wide |
| `Bitfields.SetBase` | kernel/tools/bitfield_gen.py:2202-2215 | a layout is accepted if and only if it is a whole number of words and no field crosses a word boundary |
| `Bitfields.OneWordFits` | kernel/tools/bitfield_gen.py:2211-2215 | the boundary check means that the field fits in its word |
| `Bitfields.GetSet` | kernel/tools/bitfield_gen.py:286-320 | reading a field just written gives the value cut to the field and sign-extended, for low and high fields and either shift |
| `Bitfields.GetOther` | kernel/tools/bitfield_gen.py:309-320 | writing a field changes no other field of the word |
| `Bitfields.SetOfGet` | kernel/tools/bitfield_gen.py:286-320 | writing back what was read changes nothing if and only if the bits that have no place in the value are zero; only a high field wider than the width it is aligned to has such bits |
| `Bitfields.WideHighLosesBits` | kernel/tools/bitfield_gen.py:286-320 | a high field of the whole word, aligned to less: its lowest bit is lost when it is read and written back |
| `Bitfields.AssertedIsReadBack` | kernel/tools/bitfield_gen.py:383-394 | a value that passes the writer's assertion is read back unchanged if and only if it has no bit that the shift moves out of the word |
| `Bitfields.AssertionMissesBits` | kernel/tools/bitfield_gen.py:383-394 | every raised low field has a value that passes the assertion and is not read back |
| `Bitfields.BlockGetSet` | kernel/tools/bitfield_gen.py:2511-2565 | get after set over blocks of several words: a low field gives the lowest bits of the value, a high field the bits below the width it is aligned to, with the sign above if it is extended, and zeros elsewhere |
| `Bitfields.ReaderBits` | kernel/tools/bitfield_gen.py:2511-2565 | which bit of the block each bit of a reader's result is: a low field's in the lowest bits, a high field's below the width it is aligned to, with the sign above if it is extended |
| `Bitfields.WriterBits` | kernel/tools/bitfield_gen.py:2511-2565 | a writer changes the field's bits to the value's and no other bit of the block |
| `Bitfields.BlockGetOther` | kernel/tools/bitfield_gen.py:2511-2565 | and no other field of the block changes |
| `Bitfields.ReadsEach` | kernel/tools/bitfield_gen.py:2450-2509 | after all fields are written each one reads as those bits of its value |
| `Bitfields.New` | kernel/tools/bitfield_gen.py:2450-2509 | the generator makes the block with every field written and zeros elsewhere |
| `Bitfields.AcceptedArgs` | kernel/tools/bitfield_gen.py:2202-2215 | fields of an accepted layout are fields the accessors work for |
| `Bitfields.AcceptedGetSet` | kernel/tools/bitfield_gen.py:2511-2565 | for every accepted layout and every block of it a field just written reads as those bits of the value, and every other field as before |
| `Bitfields.AcceptedSetOfGet` | kernel/tools/bitfield_gen.py:2511-2565 | for every accepted layout, reading a field of a block and writing it back changes nothing if and only if the field's bits without a place in the value are zero |
| `Bitfields.Generate` | kernel/tools/bitfield_gen.py:2450-2509 | from declaration to block: accepted if and only if whole words with no field across a boundary, and then every field reads as the value given |
| `TagUnions.MakeClasses` | kernel/tools/bitfield_gen.py:2108-2160 | the checks accept masks if and only if they are for the widths the blocks use, lie in their fields, the first of several is not zero, no mask but the last repeats, and each includes the one before |
| `TagUnions.CheckValue` | kernel/tools/bitfield_gen.py:2001-2038 | a tag value is accepted if and only if it fits its width, matches all narrower masks and not its own |
| `TagUnions.TagIsRead` | kernel/tools/bitfield_gen.py:1766-1780 | a word that holds an accepted tag in its field reads as that tag, whatever its other bits are |
| `TagUnions.TagsAreNotConfused` | kernel/tools/bitfield_gen.py:1252-1309 | no word holds two accepted tags with different values |
| `TagUnions.ComparisonAgrees` | kernel/tools/bitfield_gen.py:1782-1796 | with one width, or all tag fields at the bottom, the comparison agrees with the reader on every word and tag |
| `TagUnions.ComparisonIsRight` | kernel/tools/bitfield_gen.py:429-444 | it agrees on every word and tag if and only if there is one width or every tag field is at the bottom of its word |
| `UnionBlocks.NewHasTag` | kernel/tools/bitfield_gen.py:1815-1895 | a block that a generator made reads as the generator's tag |
| `UnionBlocks.SetKeepsTag` | kernel/tools/bitfield_gen.py:1896-1960 | writing another field leaves the tag |
| `Regions.OverlapsIsSharing` | kernel/tools/hardware_gen.py:234-240 | two regions that are not empty overlap if and only if they share an address |
| `Regions.Region.RemoveSubregions` | kernel/tools/hardware_gen.py:265-280 | the pieces are not empty and lie one below the other; no address is lost that is not reserved; with ranges apart they are exactly the addresses not reserved by a range that starts in or after the region |
| `Regions.RemovalIsExact` | kernel/tools/hardware_gen.py:265-280 | with ranges apart the result is the region without all reserved addresses if and only if no range starts before the region and reaches into it |
| `Regions.EarlyRangeStays` | kernel/tools/hardware_gen.py:265-280 | a reserved range that starts before the region and reaches into it: its addresses stay in the result |
| `Regions.Merge` | kernel/tools/hardware_gen.py:766-798 | the addresses covered stay the same, the order stays sorted, conditional regions are left alone, other neighbours are left with a gap, and with no conditional region all are strictly separated |

## Left out

- Sockets, polling, address resolution and ports, clocks and allocation: they are inputs of the steps.
- Server contexts, UDP and broadcast: replies there have no callback, or many, so exactly-once does not apply.
- Changing the next transaction id by hand (`rpc_set_next_xid`), and callbacks that queue new calls while a purge runs: the purge assumes there are none.
- Allocating a call and queueing it are one step of the engine; a call that cannot be allocated is a step of its own. A deadline does not change once it is set.
- RpcTables.ScanChains: stated for chains that are safe to scan, for the reason given at RpcClient.TimeoutScan.
- RpcClient.RpcContext.Handle: likewise when the event is a timeout scan.
- RpcClient.RpcContext.HandleAll: likewise for the timeout scans of the run; SteadyRunsAreHandled says which runs need no such condition.
- RpcClient.TimeoutScan: stated for queues that are safe to scan, because the code resets the tail only when a queue becomes empty; ScanKeepsTail says exactly when head and tail disagree otherwise, and the tail then is memory that has been freed.
- RpcRuns.WaitLenCoversWaiting: stated for fewer than 2^32 events, because scans and purges never lower the 32-bit counter.
- Framing.EndToEnd: messages are at least a transaction id long and within the receiver's size limit; an empty record ends the connection in the code. On one connection there is no scan, purge or reconnect; FramingRuns.EndToEndAgain has any of them before its connection starts.
- On platforms without a monotonic clock the engine adds a second to deadlines; that variant is not modelled.
- OpenFiles.OpenFile.Lseek: offsets are not cut to 64 bits.
- One operation at a time on one file handle; the server's file changes only through that handle, and the clock does not move during an operation.
- OpenFiles.OpenFile.Pread: counts, alignment and readahead are not cut to 32 bits, as the casts to `count3` and `int` would for counts near 2^32.
- OpenFiles.OpenFile.Pwrite: a call that was cancelled does not reach the server after the write has ended; a reply that claims more bytes than the call has comes from a server that took all of them; the count is not cut to a signed 32-bit number.
- OpenFileRuns.Run: it stops at a write that fails part-way and would change a byte of a live page; what reads give from a cache that does not agree with the file is not modelled.
- PageTable.RoundToPowerOfTwo: for values over 2^31 the loop of the code does not end, as LoopEnds states; they are excluded.
- PageTable.Options.SetPagecache: likewise, because it rounds its value with that loop.
- PageTable.Options.SetReadahead: likewise.
- Append mode, which asks for the size first, and the other operations on files and directories: they would only add easy members.
- Nested mounts: the loop strips the path at the first match, so the longest match its comment promises is not what it computes.
- LookupTree.LookupFinds: the target of a link is walked over its text, as the code does when it normalises the path, so a name in a target that is followed by ".." is not looked up.
- ZdrStreams.Stream.Counted: a sum of cursor and count that overflows a signed 32-bit number wraps around in the model; C does not define it. What a caller reads or writes after that, from a cursor that may lie before the buffer, is not modelled: the routines above stop there and promise nothing more.
- ZdrStreams.Stream.GetString: when the sum of cursor and count overflows the code writes its zero at an address that is not defined; that is not modelled. The caller's memory, where it is given, is large enough for any string of the buffer.
- ZdrRoutines.IntArray: what is overwritten when elements are stored behind their memory, and what the routines above do then, is not modelled; memory that cannot be had is not, either.
- ZdrStreams.Stream.constructor: the memory of a buffer to write to is taken to go on for up to three bytes behind it, so that padding has somewhere to go.
- Parsing and printing in the generators, HOL text, the `_ptr_` accessors, which are the by-value ones on a word in memory, and the C types of mask literals without a suffix.
- Bitfields.Generate: for a high field that is wider than the width it is aligned to and narrower than a word, the generator stops on a negative shift count when it makes the mask of the new block; the model gives the block that the field writers make. The aligned width is at least one bit and at most a word, as in every declaration of the kernel.
- Bitfields.New: likewise.
- Bitfields.AssertedIsReadBack: for the assertion of union writers, whose mask literal has the word's type.
- TagUnions.MakeClasses: takes the masks in their place in the word; the code keeps them relative to the lowest tag field and shifts them there.
- Sorting the regions before they are merged is a library call, so Regions.Merge starts from sorted ones; names and kernel variables of regions are not carried along.
- Page alignment in `fixup_device_regions`: start and size are aligned separately, so the aligned region need not cover the original.
- Mount and connect ladders, synchronous wrappers, URL parsing, version dispatch, attribute copying and error tables: plumbing, or easy members.
