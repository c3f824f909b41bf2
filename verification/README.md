# Verified model of the Collage core

Collage is a C++ library for distributed objects: nodes exchange commands over connections, master objects publish
versioned data, slave objects map it. This project models its most intricate parts in Dafny and proves what they are
meant to guarantee. `dafny verify dfyconfig.toml` checks all of it.

| files | part of the library |
|---|---|
| `Ring.dfy` | wrapping ring pointers for rings of any length |
| `Rdma.dfy`, `RdmaConnection.dfy` | the handlers of an RDMA connection, as functions and as the object that updates its fields |
| `RdmaProtocol.dfy`, `RdmaTheorems.dfy` | one data direction as a step system with both memories, and its guarantees in every run |
| `RdmaLink.dfy` | two connection objects joined by the network, whose operations are steps of the protocol |
| `MasterHistory.dfy`, `Mapping.dfy`, `FullMasterCM.dfy` | the history a buffered master keeps, and what a mapping slave ends up with |
| `InstanceCache.dfy`, `CacheRuns.dfy` | the slave's instance cache, and whole runs of it |
| `CachePins.dfy`, `MapReply.dfy` | the pins of outstanding map and sync requests, and mapping from end to end |
| `DataStreams.dfy`, `ObjectStreams.dfy` | segmenting, compressing, saving, resending and reading back object data |
| `Framing.dfy`, `Transport.dfy` | commands on the wire, and transports that move any part of a buffer at a time |
| `StreamTransfer.dfy` | streams, framing and transport together |
| `Barriers.dfy`, `Dispatch.dfy`, `SendTokens.dfy` | the barrier, the redispatch of pending commands, the send token |
| `Arithmetic.dfy`, `Common.dfy` | remainders and powers of two, shared types |

Each stateful component is a function on values, a class whose methods are proved to compute that function, or both;
protocols are step systems whose invariants hold in every state of every run.

What the source does differently from what it says, each stated as an exact condition:

- The ring header promises offsets for any ring length; they are right for every total if and only if the ring is at
  most half the counter's range (`OffsetExactIffHalfWord`).
- A read whose size is a multiple of 2^32 is narrowed to zero and loses the notification of the data that is there
  (`ReadSizeMustNotBeWholeWords`; `WholeWordReadLosesNotice` gives a run).
- `_initProtocol` accepts depths from two on, but below six there is no write credit (`InitProtocol`).
- `co/object.h:190-192` says "newer than" the window; the code also keeps versions exactly at its edge (`StoredIffHeadOrInWindow`).
- A decreasing incarnation, documented as undefined, keeps a consistent history exactly under the condition of
  `DecreasingIncarnationConsistentIff`.
- Map data and its reply go over the multicast connection, while a commit to the only slave of a multicast group goes
  over its unicast connection (`co/connections.h:83-92`), and commits before the object is attached are dropped
  (`co/objectStore.cpp:687-690`). Over one connection the slave always gets the history (`OneConnectionGetsHistory`);
  over two, exactly under the condition of `MappedSlaveGetsHistoryIff` and `UncachedSlaveGetsHistoryIff`. Inputs that
  violate it: `CommitBeforeReply`, `CommitBeforeMapData`.
- The cache subtracts the bytes of a deleted incomplete stream although it never added them, so its size stays exact exactly if it deletes no such stream (`StepExactIff`).
- An empty last write cannot be read back (`ReadsBackIff`), and without saving can leave a stream unfinished (`Transfer`, `EmptyAfterFlush`).
- The delta master's flag from an earlier commit can make a version without slaves (`CommitDelta`).

Assumptions: each direction of a connection is reliable and in order; polling the completion queue and the drain part
of a read are atomic; both ends of an RDMA connection use the same depth, from 4 to 2^17, and the same ring length, up
to 2^31; positions one ring length apart are the same byte of the doubly mapped buffer; byte order conversion is the
identity; versions, commit counts, usage and access counts do not wrap; the compressor is any pair of functions with
decompress(compress(x)) = x and any output size; a blocking read does not time out; padding is arbitrary memory.

## Model

| member | source | states |
|---|---|---|
| `Ring.CorrectionDoesNotOverflow` | co/ring.h:43-52 | the correction added at a counter wrap never exceeds the word, and is the true one modulo the ring length |
| `Ring.IncrRepresents` | co/ring.h:43-52 | an increment moves the unbounded total a pointer stands for by exactly the amount, across a wrap or not |
| `Ring.IncrAllRepresents` | co/ring.h:43-52 | the same for every sequence of increments, through any number of wraps |
| `Ring.OffsetIsTotalModNum` | co/ring.h:40-41 | for rings of at most half a word, the offset is the unbounded total modulo the ring length, with no intermediate overflow |
| `Ring.OffsetExactIffHalfWord` | co/ring.h:40-52 | for a power-of-two word, the offset is right for every total if and only if the ring is at most half the word long, although the header claims any length |
| `Ring.OffsetBreaks` | co/ring.h:40-41 | a whole family of totals at which a longer ring yields the wrong offset |
| `Ring.AvailableIsDifference` | co/ring.h:73-76 | available is the true difference of the totals behind two pointers, and negAvailable the free rest of the ring |
| `Ring.SliceOverlay` | co/rdmaConnection.cpp:2284-2296 | copying data behind the stored part of a ring appends it to the ring contents and leaves the rest alone |
| `Ring.BufferQ.constructor` | co/ring.h:160-171 | a new queue of any length below the word is empty |
| `Ring.BufferQ.Put` | co/ring.h:191-197 | put appends one element to the queue contents, for lengths of at most half a word |
| `Ring.BufferQ.Get` | co/ring.h:185-190 | get takes the oldest element of the contents, for lengths of at most half a word |
| `Rdma.ImmRoundTrip` | co/rdmaConnection.cpp:1614-1655 | byte counts of 28 bits and credit counts of 4 bits survive the packing into immediate data, which fits 32 bits |
| `Rdma.FillCount` | co/rdmaConnection.cpp:2284-2296 | what is accepted fits the request, the free room of both rings and the rest of the source buffer, and is as much as these allow |
| `RdmaProtocol.InitInv` | co/rdmaConnection.cpp:1531-1550 | after the setup exchange the protocol invariant holds |
| `RdmaProtocol.AcceptKeeps` | co/rdmaConnection.cpp:685-705 | copying into the source ring keeps the invariant |
| `RdmaProtocol.PostKeeps` | co/rdmaConnection.cpp:1657-1695 | posting a write keeps the invariant |
| `RdmaProtocol.LandByteKeeps` | co/rdmaConnection.cpp:1657-1695 | a single byte landing early keeps the invariant: it overwrites nothing unread |
| `RdmaProtocol.LandKeeps` | co/rdmaConnection.cpp:1657-1695 | a write becoming complete in the sink keeps the invariant |
| `RdmaProtocol.CompleteKeeps` | co/rdmaConnection.cpp:2191-2260 | a local write completion keeps the invariant |
| `RdmaProtocol.PollKeeps` | co/rdmaConnection.cpp:1614-1637 | receiving the immediate data of a write keeps the invariant |
| `RdmaProtocol.ReadKeeps` | co/rdmaConnection.cpp:593-632 | draining, and the flow-control message that may follow, keep the invariant |
| `RdmaProtocol.TakeFcKeeps` | co/rdmaConnection.cpp:1739-1755 | receiving a flow-control message keeps the invariant |
| `RdmaTheorems.RunInv` | co/rdmaConnection.cpp:1531-1772 | the invariant holds in every state of every interleaving of writer, reader, network and completions |
| `RdmaTheorems.DeliveredIsPrefixOfAccepted` | co/rdmaConnection.cpp:505-735 | in every run the bytes returned by reads are a prefix of the bytes accepted by writes |
| `RdmaTheorems.LandingSparesUnread` | co/rdmaConnection.cpp:1657-1695 | a byte of any write in flight never shares its place in the sink with an unread byte, and its source byte is still the accepted one |
| `RdmaTheorems.WritesContiguousAndLossless` | co/rdmaConnection.cpp:1657-1695 | each write is contiguous in both buffers at equal offsets, its length fits 28 bits, and the narrowed byte count of a flow-control message is exact |
| `RdmaTheorems.MessagesCoveredByAcks` | co/rdmaConnection.cpp:1553-1573 | from any point on, flow-control messages are at most the writes they acknowledge, plus one after a message that acknowledged twelve or more |
| `RdmaTheorems.OutstandingBound` | co/rdmaConnection.cpp:1757-1772 | the reader keeps two flow-control credits beyond its unacknowledged writes |
| `RdmaTheorems.FlowControlNeverStarves` | co/rdmaConnection.cpp:549-564 | at most depth/2 - 1 flow-control messages are ever outstanding, so the post after a drain never goes below zero and the retry for lack of credit is never taken |
| `RdmaTheorems.CreditsConserved` | co/rdmaConnection.cpp:1543-1550 | in every run both credit sums are constant, and both counters stay between zero and the depth |
| `RdmaTheorems.ReceivesSuffice` | co/rdmaConnection.cpp:1238 | with both directions at any point of any runs, the messages one side must still receive are at most three fewer than its depth posted receives |
| `RdmaTheorems.ReadSizeMustNotBeWholeWords` | co/rdmaConnection.cpp:593-612 | a read attempt keeps the announced bytes equal to the bytes in the sink if and only if its size is not a multiple of 2^32 |
| `RdmaTheorems.ReadStepIsAttempt` | co/rdmaConnection.cpp:505-642 | the read step of the protocol is what one attempt of readSync does to the reader |
| `RdmaTheorems.NothingStranded` | co/rdmaConnection.cpp:1553-1573 | an empty sink owes no writes and no bytes; with empty queues the writer has all credits and the whole remote ring again |
| `RdmaTheorems.NoDeadlock` | co/rdmaConnection.cpp:644-735 | with a depth of at least six, a writer with data always has a step to take or to wait for |
| `RdmaTheorems.ReadDelivers` | co/rdmaConnection.cpp:2274-2282 | a read delivers exactly the next announced bytes: as many as asked for modulo 2^32, or all there are |
| `RdmaTheorems.ReadSettles` | co/rdmaConnection.cpp:1553-1573 | after a read fewer than twelve writes are owed; a flow-control message goes out exactly if the sink is empty or twelve writes were owed, with all bytes and writes since the last |
| `RdmaTheorems.PostReturnsAll` | co/rdmaConnection.cpp:1639-1655 | a write carries all bytes copied since the last and returns as many flow-control credits as it can, at most fifteen |
| `RdmaTheorems.FillsAll` | co/rdmaConnection.cpp:2284-2296 | a write attempt takes all that the request, both rings and the end of the source buffer leave room for, in terms of the bytes accepted, completed and acknowledged |
| `RdmaTheorems.RestMeansDelivered` | co/rdmaConnection.cpp:505-735 | when nothing but accepting data is left to do, everything accepted is delivered, the queues are empty and nothing is owed |
| `RdmaTheorems.WholeWordReadLosesNotice` | co/rdmaConnection.cpp:593-612 | a run on one-byte rings after which a read of 2^32 bytes loses the notice of a byte that is there |
| `RdmaTheorems.StepsDrainWork` | co/rdmaConnection.cpp:505-735 | every step but accepting data and early landing shrinks a bound on the work left, so the protocol comes to rest |
| `RdmaLinks.Link.constructor` | co/rdmaConnection.cpp:1531-1550 | two connections after their setup messages are in the initial state of the protocol |
| `RdmaLinks.Link.Write` | co/rdmaConnection.cpp:685-735 | one attempt of write on the near connection: without a credit nothing, else as many bytes as size limit, both rings and buffer end leave room for; they are appended to the accepted bytes and posted as one write, and the protocol invariant stays |
| `RdmaLinks.Link.LandByte` | co/rdmaConnection.cpp:1657-1695 | any byte of any write in flight may reach the sink buffer early |
| `RdmaLinks.Link.Land` | co/rdmaConnection.cpp:1657-1695 | the oldest write in flight becomes complete in the sink buffer |
| `RdmaLinks.Link.Complete` | co/rdmaConnection.cpp:2191-2260 | the near connection polls a completion and releases the source bytes |
| `RdmaLinks.Link.Poll` | co/rdmaConnection.cpp:1614-1637 | the far connection polls a landed write, announcing its bytes and taking the returned credits |
| `RdmaLinks.Link.Read` | co/rdmaConnection.cpp:593-632 | one attempt of readSync returns the next accepted bytes, exactly as many as asked for modulo 2^32 or as are announced, and leaves fewer than twelve writes owed |
| `RdmaLinks.Link.TakeFc` | co/rdmaConnection.cpp:1739-1755 | the near connection takes a flow-control message |
| `RdmaLinks.Link.PrefixDelivered` | co/rdmaConnection.cpp:505-735 | on the objects, the bytes read are always a prefix of the bytes written |
| `RdmaLinks.Attempt` | co/rdmaConnection.cpp:685-735 | a write attempt is a fill and a post of all that was filled |
| `RdmaConnections.RdmaConnection.constructor` | co/rdmaConnection.cpp:1531-1550 | fresh equal-sized buffers and zeroed pointers |
| `RdmaConnections.RdmaConnection.InitProtocol` | co/rdmaConnection.cpp:1531-1550 | accepts every depth from two on, sets both credit counters; there is a write credit if and only if the depth is at least six |
| `RdmaConnections.RdmaConnection.Fill` | co/rdmaConnection.cpp:2284-2296 | updates the source ring in place as the writer model does |
| `RdmaConnections.RdmaConnection.TryWrite` | co/rdmaConnection.cpp:685-735 | one attempt of write: nothing without credit or room, else a fill of at most MAX_BS bytes and its post |
| `RdmaConnections.RdmaConnection.Drain` | co/rdmaConnection.cpp:2274-2282 | returns the oldest unread bytes, as many as asked for modulo 2^32 or available, across the end of the doubly mapped sink |
| `RdmaConnections.RdmaConnection.TryRead` | co/rdmaConnection.cpp:593-632 | one attempt of readSync after the poll, with the bytes returned and the message sent |
| `MasterHistory.ObsoleteIsSuffix` | co/fullMasterCM.cpp:141-165 | obsoletion keeps a suffix: nothing inside the window goes, and everything kept but possibly the head is inside |
| `MasterHistory.PruneInv` | co/fullMasterCM.cpp:141-165 | after obsoletion versions are consecutive up to the head, counts ascend, and all but the oldest lie in the window |
| `MasterHistory.CommitInv` | co/fullMasterCM.cpp:330-373 | every commit with a non-decreasing incarnation keeps these three properties |
| `MasterHistory.RunRetained` | co/fullMasterCM.cpp:75-165 | over every run of commits and window changes, the stored versions are the end of the commit log and a dropped version had left the smallest window in force |
| `MasterHistory.StoredIffHeadOrInWindow` | co/fullMasterCM.cpp:141-165 | with an unchanged window a version is stored if and only if it is the head or inside the window |
| `MasterHistory.RunFollowsSteps` | co/fullMasterCM.cpp:98-139 | in every run the incarnation, the window and all versions made, each with its incarnation, are what the steps say: the incarnation asked for, or one more than before |
| `MasterHistory.StoredFollowsSteps` | co/fullMasterCM.cpp:141-165 | in every run with one window, a version is stored if and only if it is the last one made or its incarnation is at most the window behind, in terms of the steps alone |
| `MasterHistory.PlainCommitsStored` | co/fullMasterCM.cpp:330-373 | after setting a window and plain commits with data, a later version v is stored if and only if v plus the window reaches the head |
| `MasterHistory.DecreasingIncarnationLeaves` | co/fullMasterCM.cpp:113-138 | a decreasing incarnation leaves exactly the entries not newer than it, or only the oldest as if from incarnation zero |
| `MasterHistory.DecreasingIncarnationConsistentIff` | co/fullMasterCM.cpp:98-139 | a decreasing incarnation leaves a consistent history if and only if it is not below the newest stored count, or below all of them; the whole invariant holds under the same condition |
| `MasterHistory.DecreasingIncarnationBreaks` | co/fullMasterCM.cpp:113-138 | a run (a window of nine, a commit at incarnation five) whose history incarnation three makes inconsistent |
| `Mapping.MappingCoversHistory` | co/fullMasterCM.cpp:167-250 | each version from the reply version to the head is sent or in the range the slave said it has |
| `Mapping.MappingSendsOnlyRequested` | co/fullMasterCM.cpp:167-250 | only stored versions from the reply version to the head are sent |
| `Mapping.NothingSentTwiceIff` | co/fullMasterCM.cpp:185-215 | nothing the slave has is sent again if and only if its range contains the reply version, ends at the head, or lies outside the span from reply to head |
| `Mapping.SentIffNeeded` | co/fullMasterCM.cpp:167-250 | a stored version is sent if and only if the slave needs it: from the reply to the head and, with a cache, after the part that contains the reply or before the part that ends at the head |
| `Mapping.MergeSpans` | co/versionedSlaveCM.cpp:234-319 | merging a cached run into an overlapping or adjacent queued run gives the whole run, each version once and in order |
| `Mapping.UncachedSlaveGetsHistoryIff` | co/versionedSlaveCM.cpp:321-352 | for every arrival order of map data and commits: without a cache the queue is exactly the history from the reply on if and only if no commit comes before map data and the first commit received follows the head |
| `Mapping.CachedSlaveGetsHistoryIff` | co/fullMasterCM.cpp:167-250 | for every arrival order: queue and cache merged are exactly the history from the reply on if and only if no commit comes before map data and the first commit received leaves no gap to what was sent and cached |
| `Mapping.OneConnectionGetsHistory` | co/fullMasterCM.cpp:167-250 | over one connection, where no commit overtakes the reply, the slave always gets exactly the history |
| `Mapping.AppliedFirst` | co/versionedSlaveCM.cpp:189-231 | from such a queue the map data is applied and every later version follows |
| `Mapping.CommitBeforeReply` | co/objectCM.cpp:193-201 | a commit over the unicast connection between map data and reply on the multicast connection leaves out version 2, which was left to the cache |
| `Mapping.CommitBeforeMapData` | co/versionedSlaveCM.cpp:189-231 | a commit that comes before the map data is thrown away when the map data is applied |
| `MapReplies.MappedSlaveGetsHistoryIff` | co/objectStore.cpp:973-986 | end to end, for every arrival order and any reachable state of the slave: the pinned item merged with what was received is exactly the history from the reply on if and only if no commit comes before map data and none is missing between what was sent, the cache and the first commit received |
| `MapReplies.AnnouncedUsable` | co/objectStore.cpp:412-430 | at the reply the complete run at the front of the pinned item starts where announced and covers the announced range |
| `MapReplies.UsableIsSpan` | co/versionedSlaveCM.cpp:255-275 | the cached streams up to the first incomplete one are a span of the committed versions |
| `MapReplies.OtherInstanceGetsHistoryIff` | co/objectCM.cpp:123-125 | with a cache of another master instance the condition is that of a slave without a cache |
| `MapReplies.MapReply` | co/objectStore.cpp:945-1003 | the reply merges the pinned item into the slave's queue and gives the pin back |
| `MapReplies.FinishMapping` | co/objectStore.cpp:945-1003 | the same end-to-end condition on the master, store and slave objects |
| `FullMaster.FullMasterCM.constructor` | co/fullMasterCM.cpp:75-89 | one stored version, the head |
| `FullMaster.FullMasterCM.SetAutoObsolete` | co/fullMasterCM.cpp:91-96 | changes the window and drops what left it; the invariant stays |
| `FullMaster.FullMasterCM.UpdateCommitCount` | co/fullMasterCM.cpp:98-139 | one more for the next incarnation or the count asked for; versions stay unless it decreases |
| `FullMaster.FullMasterCM.ObsoleteOld` | co/fullMasterCM.cpp:141-165 | the deque loop drops exactly the obsolete prefix |
| `FullMaster.FullMasterCM.Commit` | co/fullMasterCM.cpp:330-373 | a new head version of the current incarnation exactly if the object is dirty and has data; the invariant stays |
| `FullMaster.FullMasterCM.CommitDelta` | co/deltaMasterCM.cpp:42-76 | the delta variant keeps the same history, with a new head version exactly under the delta conditions; without slaves a flag left from an earlier delta also makes a version |
| `FullMaster.FullMasterCM.InitSlave` | co/fullMasterCM.cpp:167-250 | the reply is the requested version if stored, the oldest for an older request; without a cache exactly the stored versions from it on are sent, with a cache exactly those the cache does not cover, in order |
| `FullMaster.FullMasterCM.SendBetween` | co/fullMasterCM.cpp:217-240 | sends the stored versions of a range in order |
| `FullMaster.VersionedSlaveCM.AddInstanceDatas` | co/versionedSlaveCM.cpp:234-319 | merges cached streams, up to the first incomplete one, before and behind the queued ones |
| `FullMaster.VersionedSlaveCM.ApplyMapData` | co/versionedSlaveCM.cpp:189-231 | takes the mapped version and drops what was queued before it |
| `FullMaster.VersionedSlaveCM.SplitCache` | co/versionedSlaveCM.cpp:255-275 | which cached streams go before the queue and which behind it, stopping at the first incomplete one |
| `InstanceCaches.InstanceCache.constructor` | co/instanceCache.cpp:50-53 | an empty cache of a given size |
| `InstanceCaches.InstanceCache.Add` | co/instanceCache.cpp:88-187 | whether a command enters, what it does to items and size including the incomplete bytes it deletes, and that the cache ends within its size or all pinned; pinned items keep master and streams |
| `InstanceCaches.InstanceCache.Claim` | co/instanceCache.cpp:100-124 | the item for a command, emptied if it belongs to another master, unless it is pinned |
| `InstanceCaches.InstanceCache.OpenStream` | co/instanceCache.cpp:126-167 | a stream for the next version or more of the current one; a hole empties an unpinned item |
| `InstanceCaches.InstanceCache.AddCommand` | co/instanceCache.cpp:169-175 | the size counts a stream once it is complete |
| `InstanceCaches.InstanceCache.Get` | co/instanceCache.cpp:215-235 | a lookup pins the item once more and counts as one more use |
| `InstanceCaches.InstanceCache.Release` | co/instanceCache.cpp:237-251 | unpins and evicts used items, with the exact change of the size; the cache stays within its size or all pinned |
| `InstanceCaches.InstanceCache.Erase` | co/instanceCache.cpp:253-267 | removes an unpinned item and accounts for its streams |
| `InstanceCaches.InstanceCache.Remove` | co/instanceCache.cpp:189-213 | every item stays unchanged if and only if it is from another node or pinned, with the exact change of the size |
| `InstanceCaches.InstanceCache.Expire` | co/instanceCache.cpp:269-294 | pinned items stay; of others exactly the leading complete streams not younger than the limit go, and items without any other stream |
| `InstanceCaches.InstanceCache.ReleaseItems` | co/instanceCache.cpp:343-403 | once over the maximum, evicts until the target is met or nothing evictable is left, and no stream once it is met; the loops end because each round takes a stream; only unpinned items lose their oldest streams |
| `InstanceCaches.InstanceCache.ReleaseFirstStreams` | co/instanceCache.cpp:354-373 | the first pass takes one stream of each evictable item until the target is met |
| `InstanceCaches.InstanceCache.ReleaseRound` | co/instanceCache.cpp:375-395 | each further round takes at least one more stream |
| `InstanceCaches.InstanceCache.EraseEmpty` | co/instanceCache.cpp:397-403 | exactly the named items without streams are removed |
| `InstanceCaches.InstanceCache.ReleaseStreams` | co/instanceCache.cpp:307-319 | all streams of an item go, and the size follows |
| `InstanceCaches.InstanceCache.ReleaseOldStreams` | co/instanceCache.cpp:296-305 | the old complete streams at the front of an item go |
| `InstanceCaches.InstanceCache.ReleaseFirstStream` | co/instanceCache.cpp:321-332 | the oldest stream goes, and the size follows |
| `InstanceCaches.InstanceCache.DeleteStream` | co/instanceCache.cpp:334-341 | deleting a stream keeps the size equal to the stored complete bytes less the incomplete bytes ever deleted |
| `InstanceCaches.EntersMeans` | co/instanceCache.cpp:88-167 | when a command enters: a new item, an unpinned item of another master, or for the same master the next version, more of an incomplete one, or any later version if unpinned |
| `InstanceCaches.AddedMeans` | co/instanceCache.cpp:88-175 | what an entering command makes of its item: bytes added to the last stream of its version, a further stream, or a single new one |
| `InstanceCaches.AgedDropsOld` | co/instanceCache.cpp:296-305 | ageing drops exactly the leading complete streams not younger than the time |
| `InstanceCaches.EraseIncomplete` | co/instanceCache.cpp:253-267 | erasing an object of which only a part has arrived makes the size wrap below zero |
| `CacheRuns.RunSound` | co/instanceCache.cpp:88-403 | in every run in which no operation deletes an incomplete stream, the size equals the stored complete bytes, no item is empty, and the cache is within its maximum or all pinned |
| `CacheRuns.StepExactIff` | co/instanceCache.cpp:334-341 | an exact size stays exact through an operation if and only if every stream with bytes that it deletes is complete |
| `CacheRuns.StepWithin` | co/instanceCache.cpp:88-294 | with an exact size, every operation leaves the cache within its maximum or all pinned |
| `CacheRuns.LostIff` | co/instanceCache.cpp:334-341 | the bytes an operation subtracts without having added them are none exactly if it deletes no incomplete stream with bytes |
| `CacheRuns.EvictedSums` | co/instanceCache.cpp:343-403 | evicting never increases the stored bytes |
| `CacheRuns.StreamHasAllBytes` | co/instanceCache.cpp:169-175 | for every list of commands of one version, the stream has the sum of their bytes, as long as its item is not evicted |
| `CacheRuns.StreamIsCounted` | co/instanceCache.cpp:169-175 | with nothing evicted, the size grows by that sum once the last command is there, and not before |
| `CacheRuns.CompleteMeansSpared` | co/instanceCache.cpp:88-294 | a condition to check before the call: unpinned items, with the command added, hold only complete streams |
| `CachePins.ObjectStore.MapNB` | co/objectStore.cpp:360-430 | a map request pins the item and announces its master and all cached versions, if there are any |
| `CachePins.ObjectStore.StartSync` | co/objectStore.cpp:465-522 | a sync request does so too, unless the cached instance is not the requested one, when the pin is given back |
| `CachePins.ObjectStore.Answer` | co/objectStore.cpp:975-998 | the reply finds the announced versions still at the front of the item, complete ones unchanged, and gives the pin back |
| `CachePins.ObjectStore.AnswerSync` | co/objectStore.cpp:1147-1170 | a sync reply takes the newest cached stream: it is the announced one exactly if none was added since |
| `CachePins.ObjectStore.AddInstance` | co/objectStore.cpp:1177-1201 | incoming instance data keeps the pins and what was announced |
| `CachePins.ObjectStore.DropInstance` | co/objectStore.cpp:1040-1048 | unmapping removes exactly this item unless pinned, and keeps what was announced |
| `CachePins.ObjectStore.RemoveInstanceData` | co/objectStore.cpp:164-168 | dropping the data of a node removes exactly its unpinned items and keeps what was announced |
| `CachePins.ObjectStore.ExpireInstanceData` | co/objectStore.cpp:158-162 | so does expiring exactly the old complete streams of unpinned items |
| `CachePins.PinningKept` | co/objectStore.cpp:397-430 | whatever keeps pinned items keeps, for every outstanding request, the access counts equal to the number of requests and the announced versions present |
| `CachePins.AnnounceKeeps` | co/objectStore.cpp:412-430 | a new request and its pin keep both |
| `CachePins.AnswerKeeps` | co/objectStore.cpp:1147-1170 | an answered request and its released pin keep both |
| `DataStreams.ReadsBackIff` | co/dataIStream.cpp:102-196 | however writes are grouped into segments, reading with their sizes returns them if and only if there are none or the last one is not empty |
| `DataStreams.ReadTakes` | co/dataIStream.cpp:102-125 | a read takes exactly the bytes asked for, in order and from one segment, and fails exactly if the next segment with data has fewer |
| `DataStreams.ReadsBackTrailing` | co/objectDataIStream.cpp:153-194 | an empty segment at the end makes no difference to the reader |
| `DataStreams.EmptyAfterFlush` | co/dataOStream.cpp:334-349 | a write longer than the limit followed by an empty one: data was sent, but none is left for the last segment |
| `DataStreams.MergedSame` | co/dataIStream.cpp:177-196 | skipping empty segments keeps the writes that are to be read |
| `ObjectStreams.DataOStream.Enable` | co/dataOStream.cpp:220-235 | an enabled stream has written nothing |
| `ObjectStreams.DataOStream.Compress` | co/dataOStream.cpp:132-187 | the state and result of a compression; a complete result replaces the buffer |
| `ObjectStreams.DataOStream.Flush` | co/dataOStream.cpp:351-365 | one more numbered segment with exactly the writes since the last flush, compressed exactly if that pays off; the buffer still holds all data in save mode |
| `ObjectStreams.DataOStream.Write` | co/dataOStream.cpp:334-349 | a write goes whole into the current group, or starts the next one if more than the limit is buffered |
| `ObjectStreams.DataOStream.Disable` | co/dataOStream.cpp:273-311 | the rest is the last segment; the stream is finished unless, without saving, all writes after the last flush are empty; in save mode all data stays available |
| `ObjectStreams.DataOStream.SendRest` | co/dataOStream.cpp:282-303 | the last segment, and a complete compressed copy only if it is all there is |
| `ObjectStreams.DataOStream.Resend` | co/dataOStream.cpp:258-266 | from every compressor state, a resend is one last segment that decodes to all the data, any number of times |
| `ObjectStreams.ObjectDataIStream.constructor` | co/objectDataIStream.cpp:29-33 | nothing to read |
| `ObjectStreams.ObjectDataIStream.AddDataCommand` | co/objectDataIStream.cpp:70-97 | a command adds its data to what is to be read; the last one makes the stream ready |
| `ObjectStreams.ObjectDataIStream.GetNextBuffer` | co/objectDataIStream.cpp:153-194 | the next command with data, skipping empty ones |
| `ObjectStreams.ObjectDataIStream.CheckBuffer` | co/dataIStream.cpp:177-196 | moves to the next unread data, or reports that there is none |
| `ObjectStreams.ObjectDataIStream.Read` | co/dataIStream.cpp:102-125 | a read returns exactly the requested bytes and leaves the rest, or fails exactly if the next segment with data has fewer |
| `ObjectStreams.WriteAll` | co/dataOStream.cpp:220-365 | a whole session of writes |
| `ObjectStreams.Deliver` | co/objectDataIStream.cpp:70-97 | all commands of a session are accepted in order, and the stream is ready if it was finished |
| `ObjectStreams.ReadAll` | co/dataIStream.cpp:102-196 | reading with given sizes |
| `ObjectStreams.SessionReadsBack` | co/dataIStream.cpp:102-196 | whatever a session sent, the reader gets the writes back if and only if the last one is not empty |
| `ObjectStreams.Transfer` | co/dataOStream.cpp:273-365 | from writes to reads for every buffer limit, compressor, threshold and mode: the same data if and only if the last write is not empty, and a complete stream if and only if there is data, without saving data since the last flush |
| `ObjectStreams.ResendReadsBack` | co/dataOStream.cpp:258-266 | in save mode, after any number of resends, a receiver of one reads the writes back if and only if the last one is not empty |
| `Framing.SizeRoundTrip` | co/oCommand.cpp:164-168 | the 64-bit size field survives encoding |
| `Framing.AnnouncedIsSent` | co/dataOStream.cpp:460-466 | the size announced for a body is what the body takes on the wire, with all chunk sizes |
| `Framing.WalkFindsChunks` | co/dataIStream.cpp:198-236 | walking over a chunked body finds exactly its chunks, whatever follows |
| `Framing.WalkChunks` | co/dataIStream.cpp:219-229 | the pointer walk computes this |
| `Framing.ParseWire` | co/localNode.cpp:1282-1332 | a padded command is cut off the stream exactly, with its padding |
| `Framing.ParseMeans` | co/localNode.cpp:1387-1411 | a command is taken off the stream exactly if 256 bytes and all bytes its size field says are there |
| `Framing.ParseAllWires` | co/localNode.cpp:1282-1332 | any list of commands with any padding bytes parses back to exactly that list |
| `Framing.SegmentRoundTrip` | co/objectDataOCommand.cpp:83-95 | size, sequence number, last marker, compressor and chunk count lie at fixed places of a command, and the segment is read back from it |
| `Framing.SegmentsCrossWire` | co/objectDataOCommand.cpp:97-112 | all segments of a stream come out of the wire bytes in order and unchanged |
| `Transport.Connection.Send` | co/connection.cpp:349-400 | for every way the transport splits writes: all bytes in order, or a prefix and a closed connection |
| `Transport.Connection.RecvSync` | co/connection.cpp:253-336 | for every way the transport splits reads: all requested bytes in order, an untouched receive after a timeout, or a failure that lost no byte |
| `Transport.HandleData` | co/localNode.cpp:1282-1332 | a received command is what parsing the wire bytes gives, and the next receive is started; it succeeds whenever a command is there and the transport moves |
| `Transport.SendBody` | co/dataOStream.cpp:422-458 | raw data, or every chunk after its size |
| `Transport.SendCommand` | co/oCommand.cpp:72-179 | with and without a separate body, the wire gets the framed and padded command |
| `Transport.SendAll` | co/oCommand.cpp:72-179 | a list of commands gets on the wire |
| `Transport.ReceiveAll` | co/localNode.cpp:1282-1332 | receiving until the wire is empty gives all commands |
| `Transport.Exchange` | co/connection.cpp:253-400 | for any commands, padding bytes and splits of writes and reads, the receiver gets exactly the commands sent |
| `StreamTransfer.TransferOverWire` | co/dataOStream.cpp:273-365 | from writes to reads through segments, compression, framed commands and a splitting transport: the same data if and only if the last write is not empty |
| `StreamTransfer.SessionFits` | co/objectDataOCommand.cpp:83-95 | the segments of a session fit the fields of their commands |
| `StreamTransfer.ReceivedSegments` | co/objectDataICommand.cpp:76-81 | the received commands of a stream hold exactly its segments |
| `Barriers.EnterKeeps` | co/barrier.cpp:170-209 | entering keeps the barrier invariant |
| `Barriers.CmdEnterKeeps` | co/barrier.cpp:211-304 | an entry at the master keeps it, also the one that completes a round |
| `Barriers.LastEntry` | co/barrier.cpp:282-304 | when the master has all entries, everyone has entered and every node was notified of all rounds before |
| `Barriers.ReplyKeeps` | co/barrier.cpp:356-367 | a notification keeps it |
| `Barriers.LeaveKeeps` | co/barrier.cpp:195-209 | leaving keeps it, and happens only at the end of the participant's own round |
| `Barriers.InStepLeft` | co/barrier.cpp:188-199 | the incarnation waited for comes only with the end of the round, although it wraps around |
| `Barriers.RunInv` | co/barrier.cpp:170-367 | the invariant holds in every state of every run |
| `Barriers.NobodyLeavesEarly` | co/barrier.cpp:170-304 | nobody leaves a round before everybody entered it, and everybody leaves each round entered once |
| `Barriers.IncarnationsStayTogether` | co/barrier.cpp:306-367 | each node is notified exactly once per round, so incarnations never differ by more than one |
| `Barriers.NoDeadlock` | co/barrier.cpp:170-304 | when everyone waits there is a command to handle or someone can leave |
| `Barriers.NobodyForgotten` | co/barrier.cpp:170-304 | a participant whose round is complete can leave or its notification is on the way; otherwise entries are on the way or someone has not entered |
| `Barriers.Usort` | co/barrier.cpp:292-295 | sorts the nodes and keeps each once |
| `Barriers.HandleEnter` | co/barrier.cpp:211-304 | an entry handled by the master object is a step of the whole system, with its replies in flight, and keeps the invariant |
| `Barriers.HandleReply` | co/barrier.cpp:356-367 | so is a notification handled by the object of another node |
| `Barriers.Barrier.CmdEnter` | co/barrier.cpp:211-304 | collects entries; the last one yields one reply per other node and raises the own incarnation |
| `Dispatch.ReceiversExact` | co/objectStore.cpp:678-722 | a command reaches exactly the attached instances it is meant for |
| `Dispatch.DispatchReachesEveryone` | co/objectStore.cpp:678-722 | in every run each dispatched command was received by exactly the attached instances it was meant for, by someone unless it only concerns instances that are there, and no kept command is meant for anyone attached |
| `Dispatch.ArrivalTakenIff` | co/localNode.cpp:1422-1433 | a command that arrives is dispatched at once exactly if someone it is meant for is there, and is kept otherwise |
| `Dispatch.RedispatchKeeps` | co/localNode.cpp:1456-1484 | trying pending commands again ends, with none left that can be dispatched, and keeps order and contents |
| `Dispatch.HandleKeeps` | co/localNode.cpp:1422-1433 | so does a command that arrives, dispatched or kept |
| `Dispatch.DispatchOrder` | co/localNode.cpp:1456-1484 | dispatching a command that no earlier pending one can overtake keeps the order at every instance |
| `Dispatch.RunKeeps` | co/localNode.cpp:1422-1484 | the same over every list of arrivals |
| `Dispatch.DispatchIsOrderly` | co/localNode.cpp:1422-1484 | whatever dispatching does to the attached objects: no kept command could be dispatched, each command was dispatched once or is kept, and each instance received its commands in arrival order |
| `LocalNodes.LocalNode.RedispatchCommands` | co/localNode.cpp:1456-1484 | the loop over pending commands that restarts after each dispatch |
| `LocalNodes.LocalNode.Receive` | co/localNode.cpp:1422-1433 | a command is dispatched at once exactly if someone it is meant for is there, then pending ones are tried again; otherwise it is kept |
| `SendTokens.LocalNode.CmdAcquireSendToken` | co/localNode.cpp:1920-1944 | a request handled by the node object is a step of the whole system: granted, or queued behind all earlier ones |
| `SendTokens.LocalNode.CmdReleaseSendToken` | co/localNode.cpp:1953-1973 | so is a release, which hands the token to the longest waiting request |
| `SendTokens.StepKeeps` | co/localNode.cpp:1920-1973 | every step keeps the token unique and the queue in order, and no release finds the token already back |
| `SendTokens.RunInv` | co/localNode.cpp:1920-1973 | the same over every run |
| `SendTokens.TokenConserved` | co/sendToken.cpp:27-32 | free token, grants in flight, holders and releases in flight are one in total in every run |
| `SendTokens.GrantsFollowArrival` | co/localNode.cpp:1920-1973 | grants follow the order in which requests arrived, none twice and none left out |
| `SendTokens.WaitingMeansTaken` | co/localNode.cpp:1920-1973 | while requests wait the token is away, and a step that brings it back is possible |

## Left out

- RdmaTheorems.NoDeadlock: for depths 4 and 5 there is no write credit, so it is stated from depth 6 on.
- Framing.ParseAllWires: command sizes below 2^64 only, as the size field holds no more.
- InstanceCaches.InstanceCache.ReleaseItems: does not say in which order the items of the hash map lose their streams.
- InstanceCaches.InstanceCache.constructor: takes any eviction target up to the maximum; the source computes four fifths of it in floating point.
- Dispatch.DispatchReachesEveryone: assumes that attached objects have an instance, as the source asserts.
- MapReplies.MappedSlaveGetsHistoryIff: the announced streams were complete; of an incomplete one `getVersion` is not its version.
- Mapping.Received: each version arrives as a whole; commands of map data and of a commit that mix within one version are not modelled.
- RdmaLinks.Link.Read: sizes that are a multiple of 2^32 are excluded, as they break the notification.
- StreamTransfer.TransferOverWire: less than 2^62 bytes and 2^32 writes and chunks, so that all fields hold their numbers.
- RDMA connection setup and teardown, verbs, event channels, memory registration, Windows paths and statistics.
- A poll of the write thread in the middle of a read of the read thread.
- The buffer pool of RDMA messages: one more use of the ring.
- Timeouts of barriers, token requests, sends and receives; barrier entries for other versions than the current one.
- Socket, pipe and multicast transports below the read and write calls.
- Unbuffered and static change managers, slave commits, and the queue a slave applies versions from.
- Limits on the number of queued versions; a master that waits for its slaves.
- Plain commands that exceed the object buffer size before their last field; the source rules them out.
- Local dispatch of commands without a connection, byte swapping between hosts, and the buffer caches.
- Load balancing, object maps, node discovery and the node handshake.
