# A verified model of INTCP, PEPsal and their test bed

This project models, in Dafny, the parts of the repository that decide what happens to bytes,
and proves what they promise. It follows the shipped configuration: payload cutting, caching and
hop-by-hop congestion control on, interest aggregation and reordering off
(`intcp/include/ikcp.h:12-17`).

* **Block cache** (`CacheModel`, `Slots`, `Cache`, `CacheRuns`, `CacheCapacity`, `CacheEviction`).
  The class `Cache.Cache` keeps the 4096-byte blocks, their 100 slots of byte ranges and the
  list in order of use, and is proved against a plain description of what is stored. Over any
  run of inserts and reads a read returns the longest gap-free prefix of the bytes most recently
  inserted, except where such an insert stopped at a full slot table. Inserts of at least 41
  bytes can never overflow a block, and 41 is the exact bound: a run of 40-byte inserts overflows
  and loses bytes.
* **INTCP node** (`Segments`, `DataHoles`, `Interests`, `Answers`, `Nodes`, `Transport`, `Hop`,
  `ResponderRuns`, `NodeRuns`, `HoleRuns`, `RelayRuns`, `RequesterRuns`, `TimeoutRuns`,
  `GroundStation`). The class `Transport.IntcpTransCB` keeps the queues of a node and edits them in place. Every step is proved against a function on the lists, and
  what these functions do to every single byte is proved separately: subtraction from the holes,
  stamping of interests, cutting of the queue, conservation of requests, the token bucket, the
  packing of datagrams and its inverse. Theorems over whole runs of a responder, a relay and a
  requester follow, on content, on conservation, on when interests and holes are asked for
  again, and on progress of the queue; drivers show that the class goes through such runs.
* **PEPsal** (`Handoff`, `Relay`, `HashTables`, `SynTab`). The hand-off between the poller and
  the workers is a state machine of atomic steps with lock ownership; its safety, the exact
  condition for a lost wake-up, and the completion of every round are proved for any number of
  workers and every schedule. The relay buffer is a FIFO between two sockets whose calls
  may turn out in any way. The chained hash table is proved against stacks of values per key,
  and against a map when keys are distinct.
* **Test bed** (`Routes`, `Traces`, `ParamSets`). The routes installed on a path deliver every
  packet; the two sweeps over a trace find maximal intervals; the enumeration of test parameters
  visits every combination once, in lexicographic order.

Where the promise of the code does not hold for all inputs, the exact condition is proved:
a data packet that straddles the frontier (`DataHoles.PacketGoodIffNoStraddle`, with a concrete
run in `DataHoles.StraddlingAsksForSeenBytes`), a slot overflow
(`CacheCapacity.PlainMapIffFits`, `Slots.ClaimedBytes`, with a run in
`CacheCapacity.StaleByteServed`), a pool in which no worker has waited yet
(`Handoff.LostIffCold`, `Handoff.ColdPoolDeadlocks`), a half-closed connection whose other
direction still has bytes, buffered or yet to come (`Relay.EndRound`, with runs in
`Relay.HalfCloseLosesAnswer` and `Relay.EarlyHalfCloseLosesAnswer`), an interest that times out
after its bytes have arrived (`RequesterRuns.AsksOnlyUnseen`, with a run in
`RequesterRuns.AsksForSeenBytes`), a key inserted twice (`HashTables.PlainMapIffDistinct`, `HashTables.GrowthShowsOldest`, with a run in
`HashTables.OlderValueFound`), more than 98 links in the address plan
(`Routes.UniqueUpTo98Links`), a path cleared on top of another one
(`Routes.OnlyEmptyTablesRestored`), a segment longer than the MSS (`Segments.DatagramsFitMTU`).

`flushDataHoles` erases a hole that is past the timeout and then looks at the erased element
again (`intcp/ikcp.cpp:840-842`); the model takes the two cases as alternatives.

## Model

| member | source | states |
|---|---|---|
| Cache.Block.FindTouching | intcp/cache.cpp:80-99 | the slot scan finds a slot that overlaps or is adjacent to the range, or one that contains it, or reports that there is none |
| Cache.Block.Merge | intcp/cache.cpp:76-102 | the merge loop ends with slots that stay disjoint and non-adjacent and cover, with the grown range, exactly the bytes they covered before plus the new range |
| Cache.Block.Claim | intcp/cache.cpp:103-121 | a free slot takes the merged range; with no free slot and no touching range another slot is overwritten |
| Cache.Block.Insert | intcp/cache.cpp:76-124 | the content of the block becomes the old content overwritten with the new bytes and the buffer is changed there only, unless 100 separate runs are in use and the range touches none: then one run is lost, the buffer stays, and the range is claimed with the bytes the buffer held, which are the new ones if and only if they were there before |
| Cache.Block.Serve | intcp/cache.cpp:153-170 | copies the bytes from an offset to the first one missing, the end of the block or the end asked for, and leaves the rest of the buffer alone |
| Cache.Cache.AddBlock | intcp/cache.cpp:26-51 | a new empty block becomes the most recent one; beyond MAX_BLOCK_NUM the least recent one is dropped from map and list together |
| Cache.Cache.UpdateLRU | intcp/cache.cpp:52-55 | moves exactly this block to the end of the list |
| Cache.Cache.Insert | intcp/cache.cpp:57-128 | the whole cache is the insert applied block by block, or stopped at the first block that overflows |
| Cache.Cache.Read | intcp/cache.cpp:131-179 | returns the length of the longest gap-free cached prefix and its bytes, touches the blocks it served from in order, changes no content |
| CacheRuns.CachedIsLatest | intcp/cache.cpp:57-179 | after any run, whether blocks overflow or not, every cached byte is the one most recently inserted at that name and offset unless that insert stopped at an overflowing block before it got there; map keys and list are in bijection, and at most MAX_BLOCK_NUM blocks remain |
| CacheRuns.ReadReturnsLatest | intcp/cache.cpp:131-179 | what a read returns after any run is the latest bytes, except where the latest insert stopped short, and all of it if none overflowed; the read stops only at a byte that is not cached |
| CacheRuns.CacheIsPlainMap | intcp/cache.cpp:26-128 | while the inserts reach at most MAX_BLOCK_NUM blocks and none overflows, an offset is cached if and only if it was ever inserted, with the byte last inserted |
| CacheCapacity.PlainMapIffFits | intcp/cache.cpp:26-128 | while the inserts reach at most MAX_BLOCK_NUM blocks, the cache is the plain map all along if and only if no insert overflows a block |
| CacheRuns.Perform | intcp/cache.cpp:57-179 | whatever inserts and reads the class is asked for, it passes through such a run |
| CacheCapacity.LongInsertsFit | intcp/cache.cpp:61-121 | over any run whose inserts are at least 41 bytes long no block ever overflows |
| CacheCapacity.ShorterInsertsOverflow | intcp/cache.cpp:103-121 | the bound is tight: a run of 40-byte inserts reaches the overflow branch |
| CacheCapacity.OverflowLosesBytes | intcp/cache.cpp:113-120 | whenever the overflow branch is taken bytes that were cached are lost |
| Slots.ClaimedBytes | intcp/cache.cpp:113-120 | the range claimed in the overflow branch holds what the buffer held, which is the new data if and only if it was there before |
| CacheCapacity.StaleByteServed | intcp/cache.cpp:103-170 | a run of single-byte inserts after which the block serves an old byte where a newer one was inserted last |
| CacheEviction.EvictsLeastRecent | intcp/cache.cpp:35-54 | over any run, whether blocks overflow or not, the dropped block is the one whose last creation or read is the oldest |
| CacheEviction.ReadTouchesServed | intcp/cache.cpp:131-179 | the blocks a read touches are exactly those it serves bytes from, in the order of their offsets |
| CacheEviction.CreatedAreNew | intcp/cache.cpp:57-128 | the blocks an insert creates are exactly the absent ones of its range up to where it stopped |
| Slots.StartsAreSlots | intcp/cache.cpp:76-121 | the runs of the content and the used slots correspond one to one |
| Segments.RoundTrip16 | intcp/include/generality.h:224-246 | encoding and decoding a signed 16-bit field undo each other |
| Segments.RoundTrip32 | intcp/include/generality.h:248-280 | encoding and decoding a 32-bit field undo each other |
| Segments.ParseEncoded | intcp/ikcp.cpp:1413-1435 | parsing takes an encoded segment off a datagram with all header fields and the payload unchanged |
| Segments.ParseDatagrams | intcp/ikcp.cpp:1954-2002 | parsing the datagrams the packer makes of any segments gives back exactly these segments, in order, and none is refused |
| Segments.DatagramsFitMTU | intcp/ikcp.cpp:1954-2002 | all datagrams are at most one MTU exactly if no segment is longer than the MSS |
| Segments.AllowedIsLongest | intcp/ikcp.cpp:1920-1952 | what a flush sends is the longest head of the queue that fits the limit |
| Segments.LimitStaysBounded | intcp/ikcp.cpp:1906-1992 | the limit left after a flush is neither negative nor above the larger of the grant and MTU - 1 |
| Segments.DatagramsLength | intcp/ikcp.cpp:1954-2002 | the datagrams of a list of segments have together exactly the bytes of the segments |
| Segments.WireLayout | intcp/ikcp.cpp:126-139 | the position, width and byte order of every header field on the wire |
| Segments.DatagramsAreFull | intcp/ikcp.cpp:1954-1960 | a datagram is sent off only when the next segment does not fit in it any more |
| Segments.UnusedIsLeft | intcp/ikcp.cpp:1906-1992 | what a flush does not use of its limit and grant is left, all of it while something stays queued and at most one grant otherwise |
| Segments.ChunksCarry | intcp/ikcp.cpp:201-243 | the segments cut from data carry it without gap or overlap, all but the last are full, each header names its bytes |
| DataHoles.DeleteIsSubtraction | intcp/ikcp.cpp:659-693 | deleting a range takes exactly its bytes out of the holes and keeps every timestamp |
| DataHoles.DeleteKeepsOrder | intcp/ikcp.cpp:659-693 | the holes stay sorted, disjoint and nonempty |
| DataHoles.PacketGoodIffNoStraddle | intcp/ikcp.cpp:797-829 | a packet keeps the account of all bytes (holes in order below the frontier, no seen byte in a hole, no byte unaccounted for) if and only if it does not straddle the frontier |
| DataHoles.RunIsGood | intcp/ikcp.cpp:646-867 | over any run of packets that do not straddle, re-requests and flushes, the account holds |
| DataHoles.ReaskedIsUnseen | intcp/ikcp.cpp:831-867 | a flush asks again only for bytes below the frontier that were never seen |
| DataHoles.StraddlingAsksForSeenBytes | intcp/ikcp.cpp:809-813 | a concrete run with a straddling packet after which a seen byte is asked for again |
| DataHoles.FatesCover | intcp/ikcp.cpp:840-864 | every byte of a hole waits, is asked for or is given up, and no other byte is |
| DataHoles.FatesAreByAge | intcp/ikcp.cpp:831-867 | the age of a hole alone decides whether it waits, is asked for or is given up |
| Interests.CutQueueKeepsBytes | intcp/ikcp.cpp:1634-1691 | the interests cut from the queue have exactly its byte sequence, 1 to INTCP_INT_RANGE_LIMIT bytes each, and only full ones have an adjacent successor |
| Interests.ContiguousCount | intcp/ikcp.cpp:1648-1686 | a contiguous run of N bytes gives N divided by the limit, rounded up, interests |
| Interests.StampIsExact | intcp/ikcp.cpp:740-795 | on an ordered list exactly the bytes inside the range get the new timestamp, every byte keeps its transmission count, none appears or disappears |
| Interests.StampKeepsOrder | intcp/ikcp.cpp:740-795 | the list stays ordered, disjoint and nonempty |
| Interests.StampKeepsBytes | intcp/ikcp.cpp:740-795 | the number of bytes in flight stays the same |
| Interests.RequesterFlush | intcp/ikcp.cpp:1726-1751 | a requester keeps asking for the same ranges and never sends more bytes' worth of interests than its limit |
| Interests.RequesterPass | intcp/ikcp.cpp:1726-1860 | a requester's pass over any list leaves every interest whose timeout has not passed as it is, sends each unsent or overdue one it reaches, in order, and stops only where the next one exceeds the limit or was sent INTCP_DEADLINK times |
| Interests.RelayFlush | intcp/ikcp.cpp:1726-1865 | a relay sends every interest once, in order, and keeps none |
| Interests.NotifyMovesBytes | intcp/ikcp.cpp:588-629 | new data moves each byte it covers from pending to served as often as it was asked for and leaves all other bytes pending |
| Interests.NotifyLeavesNoneMeeting | intcp/ikcp.cpp:588-629 | afterwards no pending range is empty or meets the new data, and only parts of the new data were served |
| Transport.IntcpTransCB.SendData | intcp/ikcp.cpp:201-243 | appends exactly the chunks of the data to the send queue and keeps its size on record |
| Transport.IntcpTransCB.Request | intcp/ikcp.cpp:250-272 | queues a range, or refuses an empty one with -2 and any other with -1 when too much is in flight |
| Transport.IntcpTransCB.FetchCached | intcp/ikcp.cpp:505-528 | queues the gap-free cached prefix of the range, cut into segments, and leaves the cache as these reads leave it |
| Transport.IntcpTransCB.ParseInt | intcp/ikcp.cpp:494-585 | answers from the cache; the rest becomes a pending interest, an interest sent at once, or a queued request, by role |
| Transport.IntcpTransCB.NotifyNewData | intcp/ikcp.cpp:588-629 | the pending list and the send queue become what serving the new data makes of them |
| Transport.IntcpTransCB.DeleteDataHole | intcp/ikcp.cpp:659-693 | the list of holes becomes the old one with the range deleted |
| Transport.IntcpTransCB.UpdateIntBuf | intcp/ikcp.cpp:740-795 | the interests in flight become the old ones with the range stamped, cut at its edges |
| Transport.IntcpTransCB.DetectDataHole | intcp/ikcp.cpp:797-829 | frontier, holes and result are those of the detection rule: a hole, carrying the time of the packet, is recorded exactly if the packet begins beyond a positive frontier by at most 100 MSS; a relay then queues a header without payload that names the missing bytes |
| Transport.IntcpTransCB.FlushIntQueue | intcp/ikcp.cpp:1634-1691 | empties the queue and appends its cut to the interests in flight, with intBufBytes in step |
| Transport.IntcpTransCB.FlushIntBuf | intcp/ikcp.cpp:1693-1887 | sends and keeps exactly the interests the pass selects, and takes each range sent out of the holes; at a requester an interest whose timeout has not passed stays as it is, each unsent or overdue one reached within the limit is sent once and kept with the time of the flush and one more transmission, nothing else is sent, and the limit left is exact |
| Transport.IntcpTransCB.FlushDataHoles | intcp/ikcp.cpp:831-867 | a hole younger than INTCP_HOLE_WAIT stays, one from there up to INTCP_SNHOLE_TIMEOUT is asked for and forgotten, an older one is forgotten; a requester logs exactly the ranges asked for |
| Transport.IntcpTransCB.EncodeSeg | intcp/ikcp.cpp:126-139 | the buffer is extended by the header's 23 bytes |
| Transport.IntcpTransCB.Pack | intcp/ikcp.cpp:1954-1980 | adds the segment to the datagram under construction, sending that one off first if it would exceed the MTU |
| Transport.IntcpTransCB.FlushData | intcp/ikcp.cpp:1890-2003 | sends the longest head of the queue the limit allows, stamped, in the datagrams of the packer; queue, size and sequence number are those after it; what is not used of limit and grant is left, capped at the grant only when the queue is emptied |
| Transport.IntcpTransCB.ParseData | intcp/ikcp.cpp:1269-1302 | a relay or responder queues the segment on; one with payload is delivered |
| Transport.IntcpTransCB.Input | intcp/ikcp.cpp:1391-1625 | the queues become those after the parsed segments one by one, up to an inconsistent one; the result code tells which end was reached |
| Transport.IntcpTransCB.InsertData | intcp/udp_intcp.cpp:305-314 | data is inserted in the cache, up to a block that overflows, and pending interests for it are served |
| Transport.IntcpTransCB.FlushInts | intcp/ikcp.cpp:2012-2019 | the three upstream steps composed: what is sent, kept, asked for again and queued |
| Transport.IntcpTransCB.Flush | intcp/ikcp.cpp:2005-2025 | one whole flush by role, with all list sizes kept on record |
| Transport.RelayForwardsInterests | intcp/ikcp.cpp:1634-1865 | a relay's flush sends exactly the bytes it was asked for, in order, and keeps no interest |
| Hop.InputAllIsOnePass | intcp/ikcp.cpp:1391-1625 | taking in datagrams one by one equals taking in all their segments at once |
| Hop.CargoArrives | intcp/ikcp.cpp:1269-1302 | data segments are delivered, and by relays queued, byte for byte at the same offsets and in order; nothing else changes but the holes |
| Hop.OneHop | intcp/ikcp.cpp:1890-2003 | what a node sends of its queue reaches the next node unchanged and in order whatever datagrams it was packed into |
| Hop.RelayAnnounces | intcp/ikcp.cpp:632-644 | when a packet reveals a hole a relay queues a header that names exactly the missing bytes and then the packet |
| Hop.HeaderFillsGap | intcp/ikcp.cpp:797-829 | a hole is recorded at one relay only: a next node with the same frontier, given what the relay queues in any datagrams, ends at the end of the packet and its holes stay as they were |
| Hop.OutgoingFields | intcp/ikcp.cpp:1954-1980 | segments leave unchanged but for consecutive sequence numbers, the clock, and at a responder a window of 5 less the MSS-sized units still queued |
| Hop.ClockIsEchoed | intcp/ikcp.cpp:1954-1980 | data carries the clock of the last interest, advanced by the time it was held |
| ResponderRuns.FetchOpsFetch | intcp/ikcp.cpp:505-528 | a run of the cache goes on through the node's fetching as a run of reads that ends where the fetching does |
| ResponderRuns.EventsAreRun | intcp/ikcp.cpp:494-629 | the cache of a responder passes through a run of inserts and reads, whatever interests and data arrive |
| ResponderRuns.EveryRequestIsAccounted | intcp/ikcp.cpp:494-629 | over any run of a responder, whatever its cache holds at each step, and for every byte, the times it was asked for equal the times it was queued from the cache, plus those queued when it was published later, plus those still pending |
| ResponderRuns.QueuedIsLatest | intcp/ikcp.cpp:494-629 | segments queued for new data carry the bytes just published; those queued from the cache carry the bytes most recently published at their offsets, except where that data overflowed a block before it got there, and without exception if none did |
| ResponderRuns.CacheHoldsPublished | intcp/cache.cpp:57-179 | what a responder's cache holds is what was most recently published, as far as that was stored |
| ResponderRuns.Respond | intcp/ikcp.cpp:494-629 | the class, given any interests and new data, passes through such a run |
| HoleRuns.HolesAreTracked | intcp/ikcp.cpp:646-867 | over any run of datagrams, requests, new data and flushes the holes and the frontier of a requester or relay are those of the account of all bytes |
| HoleRuns.HolesAreGood | intcp/ikcp.cpp:646-867 | after any such run without a straddling packet the node's holes are in order, hold no byte that arrived, every byte below the frontier is accounted for, and no hole that the next flush asks for again has a byte that arrived |
| HoleRuns.PacketReveals | intcp/ikcp.cpp:797-829 | in a run a packet beyond the frontier leaves a hole with its arrival time |
| HoleRuns.HoleIsAskedInTime | intcp/ikcp.cpp:831-867 | a hole that nothing touches stays until the first flush INTCP_HOLE_WAIT after it was noticed, and that flush asks for it if INTCP_SNHOLE_TIMEOUT has not passed |
| HoleRuns.RevealedIsAskedInTime | intcp/ikcp.cpp:797-867 | both together: bytes missing before a packet are asked for by the first flush 10 to 199 ms after it |
| RelayRuns.EveryAskIsForwarded | intcp/ikcp.cpp:494-585 | over any run of a relay and for every byte, the times it was asked for, by interests or by its own re-requests, equal the times it was queued from the cache, plus those asked for upstream, plus those still queued; none is refused |
| RelayRuns.AnswersAreStored | intcp/ikcp.cpp:494-528 | each segment a relay queues from its cache carries the bytes most recently stored at its offsets, except where that data overflowed a block before it got there |
| RequesterRuns.RequestsAreKept | intcp/ikcp.cpp:1634-1887 | over any run of a requester that has not given up, what is in flight followed by what is queued is, offset by offset and in order, what it accepted |
| RequesterRuns.EveryRequestIsKept | intcp/ikcp.cpp:250-272 | for every byte, the times it was in an accepted request equal the times it is in flight plus the times it is queued |
| RequesterRuns.OrderIsKept | intcp/ikcp.cpp:740-795 | if the accepted requests come in order the interests in flight are in order, and the queue follows them |
| RequesterRuns.RefusedForGood | intcp/ikcp.cpp:250-272 | once too much is in flight every later request is refused and changes nothing |
| RequesterRuns.FlushAsksFor | intcp/ikcp.cpp:1693-1865 | a requester's flush asks for the ranges of the unsent and overdue interests up to the first one beyond its limit, whether they arrived or not, and for the holes that have waited |
| TimeoutRuns.InFlightIsOnRecord | intcp/ikcp.cpp:1726-1860 | over any run whose requests come in order each interest in flight carries the number of flushes that sent its bytes and the time they were last sent or stamped |
| TimeoutRuns.ResendsAreSpaced | intcp/ikcp.cpp:1726-1860 | over such runs a byte is sent again only when the timeout for the number of times it was sent has passed since it was last touched, and fewer than INTCP_DEADLINK times |
| TimeoutRuns.LateOnesAreSent | intcp/ikcp.cpp:1726-1860 | and each byte in flight that was never sent, or whose timeout has passed, is sent by the next flush unless that reaches its limit |
| RequesterRuns.AsksOnlyUnseen | intcp/ikcp.cpp:1693-1865 | after a run without a straddling packet a flush asks for no byte that arrived if and only if none of the due interests it sends has one |
| RequesterRuns.AsksForSeenBytes | intcp/ikcp.cpp:1726-1860 | a run of four steps in which a requester asks again for bytes that have arrived |
| NodeRuns.Run | intcp/ikcp.cpp:1391-2025 | the class, given any datagrams, requests, new data and flushes, passes through a run whose steps fix all lists, limits and bytes sent; only a requester gives up |
| NodeRuns.BucketBoundsRun | intcp/ikcp.cpp:1890-2003 | over any run of a node the bytes of all datagrams it has sent, with the limit left, never exceed the first limit plus all grants |
| NodeRuns.HeadIsSent | intcp/ikcp.cpp:1890-2003 | over any run the head of the queue is sent as soon as the limit left before and the grants of the flushes since add up to its length |
| GroundStation.GSsendFunc | intcp/udp_intcp.cpp:562-613 | a tunnel packet is cut into segments, each inserted in the cache in turn, up to a block that overflows, and fed to the session; returns its length and the next offset |
| GroundStation.TunnelPacketArrives | intcp/udp_intcp.cpp:562-613 | the packet is delivered whole and in order behind what was delivered before |
| GroundStation.FirstAlone | intcp/udp_intcp.cpp:628-661 | the first segment cut off a datagram parses to itself alone |
| GroundStation.GSrecvFunc | intcp/udp_intcp.cpp:615-688 | exactly the interests of the datagram go to one session and exactly its data segments to the other, each on its own and in order |
| GroundStation.DispatchIsComplete | intcp/udp_intcp.cpp:615-688 | every segment goes to exactly one of the two sessions, by its command |
| GroundStation.DispatchKeepsOrder | intcp/udp_intcp.cpp:615-688 | datagrams one after the other are dispatched as all their segments together, those of one command in order |
| Handoff.GatherOnce | pepsal_min/pep.c:909-972 | the poller hands over each ready proxy once though both its endpoints may be ready |
| Handoff.ReachableInv | pepsal_min/pep.c:911-1055 | every reachable state satisfies the invariant: locks belong to the threads whose position says so, at most one worker is awake, the proxies are where the poller's position says |
| Handoff.EachInOnePlace | pepsal_min/pep.c:983-1055 | in every reachable state each proxy of the round is in exactly one of ready queue, the worker's hands, active queue or the poller's list, in order; those relayed are the first ones, each once; the item counts are right |
| Handoff.ResumesWhenAllDone | pepsal_min/pep.c:990-997 | the poller leaves the wait only when every proxy was relayed and returned |
| Handoff.SplicesAreNonempty | pepsal_min/include/list.h:365-372 | no list is empty when it is spliced, which the splice needs |
| Handoff.LostIffCold | pepsal_min/pep.c:983-988 | the poller's signal is lost exactly if no worker has ever waited before it |
| Handoff.LostStays | pepsal_min/pep.c:990-993 | after a lost signal the round stays untouched whatever the threads do |
| Handoff.SomeStepEnabled | pepsal_min/pep.c:983-1055 | while a round is under way and its signal was not lost some thread can step |
| Handoff.StepLowersRank | pepsal_min/pep.c:983-1055 | every step of a round lowers a natural number |
| Handoff.RoundCompletes | pepsal_min/pep.c:983-1055 | with one worker that has ever waited, every round is completed under every schedule within a bounded number of steps, each proxy relayed |
| Handoff.ColdPoolDeadlocks | pepsal_min/pep.c:1024-1034 | with one worker that has not waited yet a reachable state has no enabled step and an unfinished round |
| Relay.PepBuffer.UpdateRpos | pepsal_min/pepbuf.c:45-51 | the bytes written behind the read position are appended to the contents |
| Relay.PepBuffer.UpdateWpos | pepsal_min/pepbuf.c:53-63 | the bytes sent leave the front of the contents; an emptied buffer has all its space again |
| Relay.PepReceive | pepsal_min/pep.c:408-436 | whatever the read returns, bytes read equal bytes written followed by bytes buffered, and result and status bits tell how the read turned out |
| Relay.PepSend | pepsal_min/pep.c:438-461 | whatever the write returns, bytes read equal bytes written followed by bytes buffered, and result and status bits tell how the write turned out |
| Relay.PepProxyData | pepsal_min/pep.c:463-498 | terminates when neither side can go on, keeps the FIFO law, polls for reading exactly while the buffer has space and the peer has not ended, and leaves a poll event set unless all was sent and the peer has ended |
| Relay.ServeProxy | pepsal_min/pep.c:1040-1041 | both directions keep their FIFO law; neither disturbs the other |
| Relay.EndRound | pepsal_min/pep.c:1003-1020 | a proxy is closed, both directions at once, exactly if either endpoint is finished; closed without error it has delivered both streams whole if and only if the other endpoint's buffer is empty and its peer has nothing left to send, for which it suffices that both endpoints are finished |
| Relay.HalfCloseLosesAnswer | pepsal_min/pep.c:337-361 | a client that ends its stream while it is slow to read: the proxy is closed without error and a byte of the answer is lost |
| Relay.EarlyHalfCloseLosesAnswer | pepsal_min/pep.c:1003-1020 | a client that ends its stream before the server has answered: the proxy is closed without error and with empty buffers, and the answer is never read |
| HashTables.CreateHashtable | pepsal_min/hashtable.c:29-54 | refuses sizes above 2^30, else an empty table of the smallest listed prime above the size asked for |
| HashTables.HashTable.Expand | pepsal_min/hashtable.c:73-101 | every entry moves to its bucket in the larger table, the count stays, the values of each key change order end for end |
| HashTables.HashTable.Insert | pepsal_min/hashtable.c:139-163 | the value comes first among those of its key, others are untouched or reversed by growth; the count is true and within the load limit unless the table is at its last prime |
| HashTables.HashTable.Search | pepsal_min/hashtable.c:166-182 | returns the first value of the key, or none exactly if there is none |
| HashTables.HashTable.Remove | pepsal_min/hashtable.c:185-214 | takes out exactly the first value of the key |
| HashTables.TableIsMap | pepsal_min/hashtable.c:139-214 | with distinct keys the table is a plain map across any number of expansions, which follow from count and size, and the count is the map's size |
| HashTables.PlainMapIffDistinct | pepsal_min/hashtable.c:139-214 | the table is the plain map after every part of a run if and only if no key is inserted that is in the map already |
| HashTables.Replay | pepsal_min/hashtable.c:139-214 | the class, given any inserts and removals, holds the values, count and size of the run |
| HashTables.GrowthShowsOldest | pepsal_min/hashtable.c:73-163 | inserting one key changes the answer of a search for another if and only if the table grows then and the other key's oldest and newest value differ; the search then finds the oldest |
| HashTables.FillingHolds | pepsal_min/hashtable.c:139-163 | the smallest table takes 35 entries as it is; the 36th turns the values of a key inserted twice around |
| HashTables.OlderValueFound | pepsal_min/hashtable.c:139-182 | a run after which a search finds the older of two values: 2 before the 36th insert, 1 after it, while the map says 2 |
| SynTab.SynTable.Find | pepsal_min/syntab.c:107-110 | finds the connection of a source exactly if the list has one |
| SynTab.SynTable.Add | pepsal_min/syntab.c:112-136 | appends the connection and keeps hash, list and count in step |
| SynTab.SynTable.Delete | pepsal_min/syntab.c:138-146 | removes exactly this connection and keeps hash, list and count in step |
| SynTab.SynTable.SaveProxyFromSocket | pepsal_min/pep.c:537-556 | registers a connection exactly if none from the same source is there |
| Routes.CreateAllLinks | testbed/RealNetwork.py:213-237 | the interfaces of the address plan |
| Routes.UniqueUpTo98Links | testbed/RealNetwork.py:211-237 | no address is given twice if and only if there are at most 98 links |
| Routes.ListSegs | testbed/RealNetwork.py:129-138 | the segments of a path, or none exactly if a link is missing |
| Routes.Network.SetRoute | testbed/RealNetwork.py:126-150 | adds exactly the routes of the path |
| Routes.Network.ClearRoute | testbed/RealNetwork.py:154-178 | removes exactly the routes of the path |
| Routes.OnlyEmptyTablesRestored | testbed/RealNetwork.py:126-178 | setting any path on top of an installed one and clearing it again never restores the tables, because all paths share the first host's default route; on empty tables it always does |
| Routes.SetAndClear | testbed/RealNetwork.py:126-178 | setting and clearing a path restores the routes if and only if a link is missing or none were installed |
| Routes.Network.DynamicLinkUpdate | testbed/linkDnmcThreads.py:97-151 | after any number of path changes the routes are exactly those of the current path |
| Routes.EveryHopGetsNearer | testbed/RealNetwork.py:126-150 | at every node a packet for any address on the path has exactly one next hop, which is one link nearer |
| Routes.PathDelivers | testbed/RealNetwork.py:126-150 | a packet from any node reaches any address on a simple path in as many hops as there are links between, for either orientation of the links |
| Routes.ListLinks | autoTest/get_trace.py:171-178 | the link list of a trace has only links of its paths, no duplicates, no link of a satellite in both directions, and no route of any of its paths fails for a missing link |
| Traces.DownLinkIntervals | autoTest/get_trace.py:299-319 | for each time and each down-link present then (ground station and first satellite, relay station and the satellite after it), the maximal interval containing that time during which it is present |
| Traces.MaximalIsUnique | autoTest/get_trace.py:299-319 | there is only one such interval |
| Traces.DownLinksAre | autoTest/get_trace.py:299-307 | the down-links of a path are exactly ground station and first satellite, and each relay station, at the odd places, with the satellite after it |
| Traces.ChangeTimes | autoTest/get_trace.py:268-289 | consecutive change times delimit the longest stretches with the same satellite |
| ParamSets.TestParamSet.Advance | testbed/Param.py:224-244 | the next choice has the next number, and done is reported exactly after the last one |
| ParamSets.TestParamSet.Add | testbed/Param.py:194-244 | every combination of the choices is visited once, in lexicographic order; the set appended for it gives each single parameter its chosen value and each grouped name the value of the last chosen entry that sets it, and no other names; without groups the sets are pairwise different |
| ParamSets.ChosenIsPerm | testbed/Param.py:194-244 | the parameters built for a choice name every single parameter and grouped name once, with the chosen values, group entries overriding |
| ParamSets.PermsDiffer | testbed/Param.py:194-244 | without groups different choices give different parameters if no choice is listed twice |
| ParamSets.ValueOrders | testbed/Param.py:224-244 | the mixed-radix number orders the choices lexicographically and tells them apart |

## Left out

- Cache.Cache.Insert: requires a nonempty range; an empty one would leave a slot of length zero in the original.
- Cache keys: a name is a byte sequence and the key a pair; packing both into one character array is not modelled.
- Transport.IntcpTransCB.Input: one clock reading per call instead of one per segment; ranges in the headers below 2^31; probe interests for the empty range, which a node sends on receiving data, are not logged.
- Transport.IntcpTransCB.Flush: one clock reading per call; the retransmission timeout is an arbitrary function of the transmission count; the grants are arbitrary naturals.
- Transport.IntcpTransCB.OutputInt: logs the range; the rate in the wnd field comes from congestion control and is left out.
- Transport.IntcpTransCB.FlushDataHoles: a hole past the timeout is given up and one past the waiting time asked for; the original looks at the erased element after giving it up.
- Transport.IntcpTransCB.SendData: the sequence number of a queued segment, uninitialised in the original and overwritten when it is sent, is 0.
- Transport.IntcpTransCB.ParseData: the receive buffer is passed on at once, as the only live branch does; the sequence number of the copy, uninitialised in the original, is 0.
- Hop.OneHop: one clock reading and one cache state for all the datagrams of a flush.
- GroundStation.GSrecvFunc: returns the datagrams it hands to the two sessions instead of calling them.
- HashTables.HashTable.Insert: chains are sequences, allocation failure and the in-place enlargement after it are left out, the load limit is computed exactly instead of with a 32-bit float.
- HashTables.CreateHashtable: the hash function is an arbitrary function of the key.
- Handoff.ReachableInv: no spurious wake-ups; queues are sequences; threads start with their queues initialised.
- Relay.PepProxyData: a write of at least one byte does not return 0, and a read returns 0 only at the end of the stream.
- ParamSets.TestParamSet.Add: names of the parameter sets, which join the printed choices, are left out.
- Traces.DownLinkIntervals: paths of odd length, as the alternation of satellites and relay stations gives; the bandwidth computed from an interval is floating point.
- Routes.PathDelivers: links on the path are up; only exact routes, on-link delivery and default routes are modelled, which is all the plan uses.
- 32-bit wrap-around of offsets: offsets stay below 2^31, as the cache itself assumes.
- Congestion control, round-trip estimation and statistics: floating point.
- IntcpTransCB::recv and the reordering branch: hand-over to the application, easy members.
- Sockets, TUN devices, threads, iptables, Mininet, log parsing and plotting: calls into code outside the repository.
- Proxy reference counting, garbage collection and the listener's connect logic: memory reclamation and system calls.
- Satellite geometry and the parameter tables: library calls and data.
