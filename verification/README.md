# Verified models of the CPE agent's tables, buffers and walkers

This project models, in Dafny, the stateful parts of the CPE telemetry agent and proves what they
keep over whole runs. Code that updates state in place is a class or a method over arrays, proved
equal to a specification function; what the agent promises is then proved about runs of that
function.

| part | modules |
|---|---|
| TCP statistics: packet parser, SYN cache, remote and prefix tables, totals, loss hint | `TcpParse`, `SynCache`, `CounterTable`, `TcpEngine`, `TcpTheorems`, `TcpDocumented`, `TcpStats` |
| Conntrack flow table: search, eviction, deltas and rates, top-N samples, snapshot | `FlowTable`, `FlowTheorems`, `FlowDeltas`, `TopFlows` |
| Spool: drop-oldest ring, resize on reconfiguration, file flush, HTTP batches | `Spool`, `SpoolRing` |
| Control socket: line framing of one client's byte stream | `LineFramer` |
| Netlink: the conntrack message walk, the NFLOG message and attribute walks | `NetlinkWalk`, `NetlinkTheorems` |
| Chunked HTTP bodies, base64 and Basic credentials | `HexNumerals`, `Dechunk`, `Base64` |
| Trace probes: Internet checksum, hop statistics, the TTL loop | `IcmpChecksum`, `TraceRun` |

`Bytes` and `Wrappers` hold byte order, alignment and `Option`.

## How the model reads the code

- The network, clocks, files and the allocator are parameters: received chunks, whether a send, a
  post, a write or an allocation succeeds, the current time, the outcome of every probe.
- A printed IP address is an abstract address; IPv4 addresses keep their number, and `0.0.0.0`
  and IPv6 text both read back as number 0, as `ip4_parse` has it.
- Counters are unbounded. The integer widths that change results are written out: 16-bit packet
  lengths, the 32-bit padded length of the conntrack walk, the attribute length of the NFLOG walk as
  a 32-bit `int`, the 32-bit checksum accumulator, the chunk size and its addition to the output
  position in an `unsigned long`. The last is 32 or 64 bits wide, for the targets under
  `cmake/toolchains`, and every result about chunks holds for both; elsewhere `size_t` has 64 bits.
- Netlink headers and checksum words are little-endian, as on the agent's hosts.
- `double` and `float` are reals.
- Ghost fields record history that the code does not keep: evicted rows, applied packets, SYN
  cache misses, accepted and emitted spool lines, lines discarded by a resize.

## Where the code and its documentation differ

The model follows the code.

- `include/nflog_netlink.h:53` says the NFLOG walk returns the number of packets delivered to the
  callback. The code counts packet messages, including one whose payload attribute is empty or
  missing, or whose attributes take 2 GiB or more. `NetlinkTheorems.CountsCallsIff` says for which messages the two agree, and
  `NetlinkTheorems.EmptyPayloadIsCounted` gives one for which they do not.
- `include/cpe_tcp_stats.h:40` says a row's remote port is 0 if mixed. The code keeps the last one
  seen. `TcpDocumented.MixedPortIsNotZero` is a run on which a row differs from the documentation;
  `TcpDocumented.PortAsDocumentedIff` says when a row meets it.
- `include/cpe_tcp_stats.h:46` describes the repeated SYNs of a row as counted per remote, local
  and remote port. The code recognises them by the whole four-tuple, in one window of 64 that all
  remotes share, and only for IPv4. `TcpDocumented.TwoHostsAreNoRepeat` is a run on which it counts
  fewer; `TcpDocumented.RepeatCountsAgreeIff` says by how many, and when the two agree.

## Where the code leaves its buffers

- The chunk decoder adds a chunk size to its output position in an `unsigned long`
  (`agent/ctl_ch_query.c:328`). When the sum wraps, the size is not cut and the copy writes behind
  the output buffer. `Dechunk.NegativeSizeOverWrites` gives a body, and `Dechunk.OverWritesIff` says
  for which bodies it happens.
- It does not compare a chunk size with what is left of the body (`agent/ctl_ch_query.c:331`). A
  response that ends inside a chunk makes it copy what lies behind the body.
  `Dechunk.CutBodyOverReads` gives a body, and `Dechunk.OverReadsIff` says for which bodies it
  happens. Bodies that are encoded as section 7.1 of RFC 9112 has it do neither
  (`Dechunk.DecodeInvertsEncode`).
- The NFLOG walk subtracts the padded length of a control message without a test
  (`src/nflog_netlink.c:337`). When the buffer ends inside that padding, the length that is left
  wraps and the walk goes on behind the buffer. `NetlinkTheorems.UnpaddedControlIsTorn` gives a
  message, and `NetlinkTheorems.TornIff` says for which buffers it happens.

In each case the model ends the run at that point with a mark, and everything before it is as in the
code.

## Where a documented property needs a condition

- The flow table's slots stand for a map from flows to their latest counters only while conntrack
  ids name flows. When some events carry an id and others do not, an evicted flow's id stays in
  the slot and later answers for another flow: `FlowTheorems.StaleIdTakesAnotherFlow` is such a
  run, and `FlowTheorems.StepRefinesIff` says exactly which events keep the map.

## Model

| member | source | states |
|---|---|---|
| TcpParse.ParseIpPacket | agent/tcp_stats.c:87-177 | the parsing loop ends, reads only inside the buffer, and returns the parse that the theorems below describe |
| TcpParse.ParseBuilt4 | agent/tcp_stats.c:99-130 | every IPv4 header of any legal length, then a TCP header and any rest, parses to the encoded addresses, ports, sequence number, flags and length, a zero length replaced by the buffer's modulo 65536 |
| TcpParse.ParseBuilt6 | agent/tcp_stats.c:132-174 | every IPv6 header, any chain of hop-by-hop (0), routing (43), destination (60) and fragment (44) headers, a TCP header and any rest parse to what was encoded |
| TcpParse.SkipBuiltChain | agent/tcp_stats.c:140-153 | the extension walk passes exactly the encoded chain, wherever it stands in the buffer |
| TcpParse.Parse4Iff | agent/tcp_stats.c:99-130 | a buffer parses as IPv4 if and only if it is some IPv4 header, TCP header and rest: nothing else is accepted |
| TcpParse.Parse6Iff | agent/tcp_stats.c:132-174 | a buffer parses as IPv6 if and only if it is some IPv6 header, extension chain, TCP header and rest |
| SynCache.WindowOfRun | agent/tcp_stats.c:431-454 | in every run of SYNs the cached tuples are pairwise distinct and each was queried before, so no tuple is flagged without an earlier SYN of it |
| SynCache.ExactWhileSmall | agent/tcp_stats.c:431-454 | a tuple is flagged exactly when it was queried before, for all tuples, if and only if the run queried no more than 64 different ones |
| SynCache.FewMissesIff | agent/tcp_stats.c:431-454 | no more than 64 tuples miss if and only if no more than 64 different ones are queried |
| SynCache.MissesFarApart | agent/tcp_stats.c:431-454 | in every run a miss is none of the 64 misses before it, so 65 consecutive ones are different |
| SynCache.UsedSlotInWindow | agent/tcp_stats.c:436-446 | every used slot of the ring holds one of the last 64 misses |
| SynCache.WindowInUsedSlot | agent/tcp_stats.c:436-446 | each of the last 64 misses is in a used slot |
| SynCache.ShowsNoted | agent/tcp_stats.c:447-453 | overwriting the next slot keeps the ring showing exactly the last 64 misses |
| SynCache.Cache.IsRetrans | agent/tcp_stats.c:431-454 | answers yes exactly when the tuple is among the last 64 misses, and then notes nothing; otherwise notes it in place of the oldest |
| SynCache.Cache.Clear | agent/tcp_stats.c:848-850 | after a reset no SYN is remembered |
| CounterTable.PlaceKeeps | agent/tcp_stats.c:367-429 | keys stay distinct, a known key keeps its row and nothing is evicted, an unknown key gets a blank row, and only a full table evicts, a row that no other row undercuts |
| CounterTable.PlaceRow | agent/tcp_stats.c:367-429 | search, append and eviction in the fixed array do what `PlaceKeeps` is about |
| TcpEngine.PrivateIff | agent/tcp_stats.c:65-85 | the mask tests hold exactly for 10.0.0.0 to 10.255.255.255, 172.16.0.0 to 172.31.255.255, 192.168.0.0 to 192.168.255.255, 127.0.0.0 to 127.255.255.255 and 169.254.0.0 to 169.254.255.255 |
| TcpEngine.NetIsBlock | agent/tcp_stats.c:340-365 | a prefix is the aligned block of 2^(32 - l) addresses around the address, l being the wanted length, or 24 if that is 0 or above 32 |
| TcpEngine.SameNet | agent/tcp_stats.c:340-365 | two addresses are rolled up in the same prefix if and only if their leading bits agree |
| TcpEngine.BothDirections | agent/tcp_stats.c:473-497 | both directions of a conversation are counted under one remote if and only if exactly one end lies in the ranges of `PrivateIff`, or both ends are the same; then the remote is the other end, else the destination; ports and local side go with it |
| TcpEngine.ApplySound | agent/tcp_stats.c:456-580 | one packet keeps every table bounded, its keys distinct, no row idle, repeats within SYNs, and the payload balance |
| TcpEngine.RunSound | agent/tcp_stats.c:456-616 | in every reachable state, evictions and resets included: at most 256 and 128 rows with distinct keys, repeats never above SYNs in totals and rows, and parsed = TCP + non-TCP + unparsable |
| TcpEngine.Ledger | agent/tcp_stats.c:511-577 | for every set of addresses and every set of prefixes, live and evicted rows together hold what the packets since the last reset added; so do the totals |
| TcpTheorems.LedgerIsInput | agent/tcp_stats.c:499-533 | the ledger's packets are exactly those fed since the last reset, in order, each counted by its own flags, length and the SYN window before it |
| TcpTheorems.Conservation | agent/tcp_stats.c:511-547 | in every reachable state each global counter is the sum over live remote rows plus what evicted rows held |
| TcpTheorems.TablesAreTallies | agent/tcp_stats.c:499-547 | for every set of remotes its rows hold the tally of its packets' lengths and flag bits, counted independently of the tables; the totals hold the tally of all packets |
| TcpTheorems.CountedByKind | agent/tcp_stats.c:582-616 | in every run the TCP, non-TCP and unparsable counts are the numbers of payloads of that kind since the last reset, told apart by IP version, protocol byte 6 and the way they came in |
| TcpTheorems.RemoteRow | agent/tcp_stats.c:526-547 | a live row holds what its remote's packets added since the reset less what evicted rows of the same remote took |
| TcpTheorems.RowsShowLast | agent/tcp_stats.c:527-533 | in every run each row shows the local address and both ports of the latest packet about its remote |
| TcpDocumented.PortAsDocumentedIff | include/cpe_tcp_stats.h:40 | in every run, with packet n the latest about a row's remote: the row shows the documented port, the common one or 0 if mixed, if and only if the remote's ports agree or packet n has port 0; over the packets since the reset, or since any up to n |
| TcpDocumented.MixedPortIsNotZero | agent/tcp_stats.c:530 | two packets to two ports of one server leave the second port in its row, where the documentation has 0 |
| TcpDocumented.RepeatIff | agent/tcp_stats.c:431-454 | a packet counts as a repeat if and only if it is an IPv4 SYN between nonzero addresses whose four-tuple missed at an earlier packet, at most 64 misses ago |
| TcpDocumented.QueryIff | agent/tcp_stats.c:499-509 | a packet is looked up if and only if it is an IPv4 SYN between addresses other than 0.0.0.0, and two are looked up alike if and only if addresses and ports agree |
| TcpDocumented.RememberedWhileFew | agent/tcp_stats.c:431-454 | while no more than 64 different four-tuples were looked up, that is if and only if the packet is looked up and an earlier one was with the same four-tuple |
| TcpDocumented.RepeatsAgreeIff | include/cpe_tcp_stats.h:46 | a counted repeat always follows a SYN with the same remote and ports, as documented; the two agree on a packet if and only if there is no such earlier SYN or its own four-tuple is remembered |
| TcpDocumented.FewRepeatsAgreeIff | include/cpe_tcp_stats.h:46 | while no more than 64 different four-tuples were looked up, the two agree on a packet if and only if no earlier SYN has its remote and ports, or an earlier one that was looked up has its very four-tuple |
| TcpDocumented.RepeatCountsAgreeIff | include/cpe_tcp_stats.h:46 | for every set of remotes in every run, the documented count is the rows' count plus the SYNs that were overlooked, and they are equal if and only if none was |
| TcpDocumented.FewCountsAgreeIff | include/cpe_tcp_stats.h:46 | in every run of no more than 64 different four-tuples they are equal if and only if each documented repeat is looked up and has the very four-tuple of an earlier one |
| TcpDocumented.TwoHostsAreNoRepeat | agent/tcp_stats.c:442-443 | SYNs of two local hosts from one port to one server are a documented repeat, and none is counted |
| TcpTheorems.EvictsSmallest | agent/tcp_stats.c:383-397 | a packet evicts a remote if and only if the table is full and does not know its remote; the victim's packet count is minimal, the newcomer takes its row, all other rows stay |
| TcpTheorems.EvictsSmallestPrefix | agent/tcp_stats.c:415-428 | the same for prefixes, which only rolled-up packets touch |
| TcpTheorems.PrefixAgreement | agent/tcp_stats.c:549-577 | for every prefix in every run with one prefix length, evictions included, its prefix rows hold what the remote rows inside it hold, and have counted as many remotes as there are such rows |
| TcpTheorems.PrefixRow | agent/tcp_stats.c:549-577 | a prefix row that was never evicted holds what the remote rows inside it hold, live and evicted |
| TcpTheorems.PrefixRowIsLive | agent/tcp_stats.c:571-574 | its remote count is the number of its remotes in the table if and only if none of them was evicted; then all its counters equal the sums over those live rows |
| TcpTheorems.PrefixCoverage | agent/tcp_stats.c:549-556 | while no prefix row was evicted, a prefix has a row if and only if some remote is inside it |
| TcpTheorems.ClampFires | agent/tcp_stats.c:53-62 | the upper clamp would fire exactly when repeats exceed twice the SYNs and FINs |
| TcpTheorems.LossHintUnclamped | agent/tcp_stats.c:44-63 | in every reachable state, for totals and rows alike, neither clamp fires: the hint is in [0, 1] and times the control packets gives back resets plus half the repeats; without control packets it is 0 |
| TcpStats.TcpState.constructor | agent/tcp_stats.c:28-42 | starts with empty tables and no counts |
| TcpStats.TcpState.Reset | agent/tcp_stats.c:833-854 | the state is a fresh one with the same prefix length |
| TcpStats.TcpState.ApplyPacket | agent/tcp_stats.c:456-580 | the in-place update of totals, SYN cache, remote row and prefix row is the step that the theorems are about |
| TcpStats.TcpState.NoteSyn | agent/tcp_stats.c:499-509 | only IPv4 SYNs between nonzero addresses are looked up; nothing but the cache changes |
| TcpStats.TcpState.CountRemoteRow | agent/tcp_stats.c:526-547 | one remote row is touched, and it is a first touch exactly when the row had no packet |
| TcpStats.TcpState.RollUpRemote | agent/tcp_stats.c:549-577 | one prefix row is touched, and counts one more remote exactly on a first touch |
| TcpStats.TcpState.OnNflogPayload | agent/tcp_stats.c:582-616 | a payload is counted once, as TCP, as non-TCP by its version and protocol byte, or as unparsable |
| TcpStats.TcpState.FeedPayload | agent/tcp_stats.c:738-758 | succeeds exactly for a nonempty payload that parses; an empty one is not counted, an unparsable one counts as such whatever its protocol |
| TcpStats.TcpState.FeedNflog | agent/tcp_stats.c:760-772 | every payload that the walk delivers is counted, in order, up to a torn control message if there is one (`NetlinkTheorems.TornIff`); a datagram shorter than a header changes nothing |
| TcpStats.OrientPacket | agent/tcp_stats.c:473-497 | the branches on which side is private choose the remote that `BothDirections` describes |
| FlowTable.FlowState.FindSlotIndex | agent/flow_acct.c:234-267 | one scan finds the first matching slot, else the first free one, else the first least recently seen one, else none |
| FlowTable.WriteEntry | agent/flow_acct.c:305-350 | a free slot is filled from the event; a used one, a victim's included, keeps its first-seen time and, without new counters, its traffic |
| FlowTable.FlowState.ApplyEvent | agent/flow_acct.c:284-377 | at most one slot below the limit changes, as `FindSlotIndex` and `WriteEntry` say; the used count stays the number of used slots; ignored, refused and removed events are told apart |
| FlowTable.FlowState.FeedAndApply | agent/flow_acct.c:383-419 | a datagram's events are applied message by message in order, and all but the refused ones are counted |
| FlowTable.FlowState.Snapshot | agent/flow_acct.c:693-720 | copies out the used slots in table order |
| FlowTheorems.SnapshotLists | agent/flow_acct.c:711-718 | a snapshot lists every tracked flow exactly once, with its counters and last-seen time |
| FlowTheorems.SizeIsUsed | agent/flow_acct.c:305-369 | the number of tracked flows is the number of used slots |
| FlowTheorems.KeyStepRefines | agent/flow_acct.c:284-377 | an event answered by its flow's own slot, or by none, is a step of a bounded map: its flow gets its counters and time, or leaves; a new flow in a full map drives out one seen least recently; nothing else changes |
| FlowTheorems.StepRefinesIff | agent/flow_acct.c:249-258 | for every table with distinct flows: an event is such a step if and only if the slot that answers it is its flow's, or nobody's, or a least recent one that had to go |
| FlowTheorems.IdStepRefinesIff | agent/flow_acct.c:249-251 | an event answered by another flow's slot, by id, is such a step if and only if its flow is new, the table full and that slot least recent |
| FlowTheorems.StepWithoutCountersIff | agent/flow_acct.c:335-345 | an event without counters is such a step, for the counters its slot goes on showing (its flow's own, zeros, or an evicted flow's), under exactly the same condition |
| FlowTheorems.DestroyRemoves | agent/flow_acct.c:354-369 | while destroyed flows are emitted, a destroy event, with a tuple or by id alone, removes exactly the flow of the slot that answers it; one that nobody answers changes nothing, but drives a least recent flow out of a full table |
| FlowTheorems.RunHoldsLatest | agent/flow_acct.c:284-377 | in every run in which ids name flows one to one, or no event has an id: no two used slots share a flow, and each holds its flow's id and the counters and time of the latest event about it |
| FlowTheorems.RunRefines | agent/flow_acct.c:284-377 | in every such run each event is a step of the bounded map |
| FlowTheorems.RunHoldsShown | agent/flow_acct.c:305-350 | the same runs with counters on some events only: no two used slots share a flow, and each holds its flow's id, the time of the latest event about it, and the counters of the latest event with any since the flow entered, or else what the slot showed when it did (zeros, or an evicted flow's) |
| FlowTheorems.RunRefinesShown | agent/flow_acct.c:305-350 | in every such run each event is a step of the bounded map, one without counters for those its slot shows |
| FlowTheorems.StaleIdTakesAnotherFlow | agent/flow_acct.c:249-251 | with ids on some events only, an id left in a victim's slot answers for another flow and takes it out of a table in which it was not least recent |
| FlowTheorems.UsedIsAlive | agent/flow_acct.c:354-369 | while destroyed flows are emitted, in every run each used slot is alive, so it can be sampled |
| FlowTheorems.DeadFlowStaysDead | agent/flow_acct.c:318-350 | otherwise a slot first filled by a destroy event is never alive again |
| FlowDeltas.OneEvent | agent/flow_acct.c:269-277 | a metered slot's delta is what its bytes grew by, or all of them if they fell; without counters bytes and delta stay |
| FlowDeltas.DeltasTelescope | agent/flow_acct.c:269-282 | over any run in which a slot stays in use, its deltas add up to last bytes less first plus what each fall started over, in both directions |
| FlowDeltas.DeltasAreGrowthIff | agent/flow_acct.c:269-282 | they add up to last less first if and only if the bytes never fall |
| FlowDeltas.DeltasSinceEntry | agent/flow_acct.c:302-345 | from the event that brings a flow into a free slot on, the slot's deltas, the first included, add up to its last bytes less those the flow came in with, plus what each fall started over |
| FlowDeltas.FreeSlotFilled | agent/flow_acct.c:189-232 | an event that fills a free slot leaves its own flow, WAN side, state and counters there, both deltas and rates zero, and first-seen equal to last-seen equal to its time |
| FlowDeltas.UsedSlotUpdated | agent/flow_acct.c:318-350 | an event that reaches a slot in use leaves its own flow, WAN side, state and time there, its id and counters if it has any, and keeps first-seen; a destroyed flow is neither used nor alive once emitted |
| FlowDeltas.RateTimesElapsed | agent/flow_acct.c:278-281 | rate times elapsed time is 8000 times the delta when time passed; otherwise the rate stays |
| FlowDeltas.VictimSetsFirstDelta | agent/flow_acct.c:318-345 | a flow that drives out another inherits its first-seen time, and its first delta is taken against the victim's bytes |
| TopFlows.AboutLiveSlots | agent/flow_acct.c:618-622 | the collected indices are the live slots, each once, in table order |
| TopFlows.CollectLive | agent/flow_acct.c:618-622 | the array holds exactly the live slots |
| TopFlows.Busiest | agent/flow_acct.c:624-634 | the inner scan finds the first position with the greatest sum of up and down rate |
| TopFlows.SelectOne | agent/flow_acct.c:624-639 | one round puts a busiest remaining slot in its place and keeps the ranking of those before it |
| TopFlows.SelectTop | agent/flow_acct.c:623-640 | the partial selection sort leaves a permutation of the live slots whose first min(top, count) are in descending rate and not exceeded by any later one |
| TopFlows.RanksBest | agent/flow_acct.c:623-640 | so the first k are k different live slots, every live slot occurs once, and no live slot left out is busier than any of them |
| TopFlows.AboutBusy | agent/flow_acct.c:641-647 | the sampled slots are exactly those among them whose rates sum to at least 1, or that have a delta above 0 |
| TopFlows.SampleTop | agent/flow_acct.c:618-657 | what is offered to the spool is the non-idle part of such a ranking's first top-N (32 by default), in its order |
| TopFlows.SampledInOrder | agent/flow_acct.c:618-657 | so it is at most top-N different slots in descending rate |
| TopFlows.SampledAreBusiest | agent/flow_acct.c:618-657 | they are live and not idle, and a live slot that is not idle and not offered is no busier than any of them |
| Spool.RunSound | agent/agent_core.c:629-652 | in every run the queue is the end of the accepted lines; accepted = emitted + dropped + discarded + queued; lines leave in the order they came, each once; the ring has the configured size or none |
| Spool.AcceptedIsPushed | agent/agent_core.c:633-639 | the accepted lines are those pushed while there was a ring, each cut to 767 bytes |
| Spool.PushDropsOldest | agent/agent_core.c:640-651 | a push lengthens the queue by one, or in a full ring drops exactly the oldest line; the others keep their order |
| Spool.BatchFits | agent/agent_core.c:707-722 | every batch fits the 6144-byte body with its terminator and takes at least seven lines, or the whole of a shorter queue |
| Spool.BatchStopsWhenFull | agent/agent_core.c:707-722 | a batch stops before the end of the queue only where a line of 768 bytes, or the next line with its newline, would not fit |
| Spool.PostDrains | agent/agent_core.c:744-747 | a successful post removes at least seven lines, or all |
| Spool.PostsDrain | agent/agent_core.c:744-747 | after k successful posts at most d - 7k of d lines remain |
| Spool.ConfiguredAs | agent/agent_core.c:208-249 | a configuration is refused when invalid or above 1024 lines, 0 standing for 256; one of another size empties the queue, whether or not the new ring comes up; size and generation are taken over unless it does not |
| SpoolRing.Agent.constructor | agent/agent_core.c:137-164 | an agent starts with an empty ring of the configured size |
| SpoolRing.Agent.PushLine | agent/agent_core.c:629-652 | the ring does what a push does to the queue, and refuses only without a ring |
| SpoolRing.Agent.FlushLines | agent/agent_core.c:664-683 | exactly the lines printed before the first failing write are written, oldest first, and leave the queue; success is reported only if all were and the flush succeeded |
| SpoolRing.Agent.WriteLines | agent/agent_core.c:671-678 | the loop writes and consumes the oldest lines one by one up to the first write that fails |
| SpoolRing.Agent.FillBody | agent/agent_core.c:705-722 | the body is the first n queued lines, each followed by a newline, and the ring is not touched |
| SpoolRing.Agent.EmitHttp | agent/agent_core.c:697-748 | a failed post leaves the ring unchanged; a successful one removes exactly the n lines posted |
| SpoolRing.Agent.EnsureSpool | agent/agent_core.c:110-135 | a change of size, where 0 stands for the default of 256, discards all queued lines, without counting them as drops, even if the new ring cannot be had |
| SpoolRing.Agent.ApplyConfig | agent/agent_core.c:208-249 | an invalid configuration changes nothing; a valid one of another size resizes the ring; size and generation are taken over only on success |
| LineFramer.ServeIsFeed | agent/ipc_server.c:788-845 | one poll that receives a chunk does what feeding its bytes one at a time does |
| LineFramer.ChunksDoNotMatter | agent/ipc_server.c:778-847 | however the stream is split, the same lines come out and the client is closed at the same byte or not at all; between polls an open client's buffer holds no newline and has room |
| LineFramer.SameStreamSameFrames | agent/ipc_server.c:778-847 | two ways of splitting one stream give the same requests and the same end |
| LineFramer.FramingInvertsJoin | agent/ipc_server.c:805-818 | lines joined with newlines come back exactly, with the client open, if and only if each is under 8191 bytes; a longer one closes it |
| LineFramer.HandedAsSent | agent/ipc_server.c:819-823 | a request without NUL bytes is handed over as sent, with or without a carriage return at its end |
| LineFramer.Client.Service | agent/ipc_server.c:778-847 | a poll hands over the complete lines in order and keeps the rest; a failing send closes the client after that line; end of stream and errors close it |
| LineFramer.Client.ProcessLines | agent/ipc_server.c:804-845 | the in-place loop of find, terminate, hand over and shift yields the lines of the buffer and leaves what follows them, closing a full buffer without a newline |
| NetlinkWalk.WalkPacketAttrs | src/nflog_netlink.c:247-309 | the attribute loop, its length an `int`, ends, stays in bounds and makes the one callback, or none, that `GathersLatest` and `CalledBackIff` describe |
| NetlinkWalk.NflogWalk | src/nflog_netlink.c:311-363 | the message loop ends and makes the callbacks that `WalkInvertsEncode` describes; it reads inside the buffer until the torn control message that it marks, which `TornIff` characterises; shorter than a header is an error |
| NetlinkWalk.FeedMessages | agent/flow_acct.c:383-419 | the conntrack loop ends, stays in bounds and feeds the messages that `FedInvertsEncode` describes |
| NetlinkTheorems.FedInvertsEncode | agent/flow_acct.c:394-417 | on any run of well-formed messages the conntrack walk feeds each exactly once, whole and in order |
| NetlinkTheorems.WalkInvertsEncode | src/nflog_netlink.c:322-360 | on any run of well-formed messages the NFLOG walk calls back in order, as `CalledBackIff` has it for each packet message, and passes over all others |
| NetlinkTheorems.ParseInvertsEncode | src/nflog_netlink.c:43-65 | the attribute walk sees exactly the encoded attributes, in order, without their flag bits |
| NetlinkTheorems.GathersLatest | src/nflog_netlink.c:260-304 | a callback is given the last non-empty payload, and hardware protocol, mark and time from the last attributes of their kind that are long enough |
| NetlinkTheorems.CalledBackIff | src/nflog_netlink.c:297-347 | a packet message is called back if and only if its attributes take less than 2 GiB and one of them is a payload with data |
| NetlinkTheorems.CountsCallsIff | src/nflog_netlink.c:344-352 | on any run of well-formed messages the returned count is never below the callbacks, and equals them if and only if every packet message has less than 2 GiB of attributes and a payload with data |
| NetlinkTheorems.EmptyPayloadIsCounted | src/nflog_netlink.c:344-352 | a packet message with an empty payload attribute is counted without a callback |
| NetlinkTheorems.TornIff | src/nflog_netlink.c:335-339 | for every buffer below 4 GiB, the unguarded subtraction wraps if and only if the buffer is whole messages and then a control message whose padding is cut off |
| NetlinkTheorems.UnpaddedControlIsTorn | src/nflog_netlink.c:335-339 | a control message of 17 bytes without padding makes it wrap |
| NetlinkTheorems.AlignedNeverTorn | src/nflog_netlink.c:335-339 | in any buffer whose length is a multiple of four, as the kernel fills it, it never wraps |
| Dechunk.DecodeInvertsEncode | agent/ctl_ch_query.c:309-341 | for every list of non-empty chunks, their sizes in any hexadecimal spelling, decoding gives their concatenation cut to the buffer less one byte, with every copy inside both buffers |
| Dechunk.ReadSize | agent/ctl_ch_query.c:314-317 | a size in any spelling before a line end is read whole, as that size |
| HexNumerals.ReadNumeral | agent/ctl_ch_query.c:314 | white space, a sign, an 0x and any spelling of n, digits above nine in either case and after any number of zeros, are read whole as n; as the greatest `unsigned long` if n is too large, negated after a minus sign |
| HexNumerals.ReadNoNumeral | agent/ctl_ch_query.c:314-317 | without a digit after white space and a sign nothing is read |
| HexNumerals.SpellsIff | agent/ctl_ch_query.c:314 | a string of digits is read as n, whole, if and only if it spells n |
| HexNumerals.HexRoundTrip | agent/ctl_ch_query.c:314-317 | a size printed in hexadecimal is a spelling of it, and reads back as that size |
| Dechunk.DecodeBody | agent/ctl_ch_query.c:309-341 | the loop ends, gives what the round trip is about with a terminator behind it, and says whether every copy was inside both buffers or which one the next copy would leave |
| Dechunk.OverWritesIff | agent/ctl_ch_query.c:328-331 | for every body and buffer size, some copy writes behind the output buffer if and only if the body is whole pieces as the decoder reads them and then a size whose sum with the output position does not fit an `unsigned long` |
| Dechunk.OverReadsIff | agent/ctl_ch_query.c:328-331 | some copy reads behind the body if and only if the body is whole pieces and then a size that asks, after the cut to the room left, for more bytes than follow |
| Dechunk.TurnEndsIff | agent/ctl_ch_query.c:328-331 | the same for one copy, from its size and position alone |
| Dechunk.NegativeSizeOverWrites | agent/ctl_ch_query.c:328-331 | a chunk of one byte and then the size -1 make the copy write behind every output buffer of more than two bytes |
| Dechunk.CutBodyOverReads | agent/ctl_ch_query.c:328-331 | a body that ends inside its first chunk makes the copy read behind it |
| Dechunk.ReadTurn | agent/ctl_ch_query.c:312-338 | one turn of the loop: when it stops, what it copies, where it goes on, and when its copy would leave a buffer; sizes saturate and wrap as in an `unsigned long` |
| Base64.DecodeIff | agent/tls_egress.c:26-56 | a strict decoder accepts a text with a result if and only if the text is that result's encoding: encoding loses nothing, for every byte string |
| Base64.UnquadIff | agent/tls_egress.c:35-52 | four letters decode to one, two or three bytes if and only if they are what the encoder writes for them |
| Base64.EncodeLength | agent/tls_egress.c:35-54 | the encoding of n bytes has 4 * ceil(n / 3) letters |
| Base64.B64Encode | agent/tls_egress.c:26-56 | succeeds if and only if the encoding and a NUL fit the buffer, and then writes exactly those |
| Base64.QuadOfNumber | agent/tls_egress.c:37-51 | shifting and masking the 24-bit number of up to three bytes picks their bits six by six, most significant first |
| Base64.WriteQuad | agent/tls_egress.c:37-51 | four letters are written for up to three bytes, padded with `=`, and what was written before stays |
| Base64.BuildBasicAuth | agent/tls_egress.c:58-78 | fails exactly for an empty user, credentials of 320 bytes or more, or a header buffer too small; otherwise gives the header line |
| Base64.HeaderReadsBackIff | agent/tls_egress.c:65-77 | the header line, whatever its fixed prefix, reads back as the same user and password if and only if the user has no colon |
| Base64.SplitJoined | agent/tls_egress.c:65 | splitting at the first colon gives user and password back if and only if the user has no colon |
| IcmpChecksum.Compute | agent/live_trace.c:52-68 | the summing and folding loops end and give the checksum that the theorems are about, for any length |
| IcmpChecksum.FoldKeepsResidue | agent/live_trace.c:64-66 | folding keeps the sum modulo 65535, and only zero folds to zero |
| IcmpChecksum.ComplementCancels | agent/live_trace.c:64-67 | a sum and the complement of its fold together fold to all ones |
| IcmpChecksum.StoredSum | agent/live_trace.c:413-414 | storing an aligned word changes the sum by exactly that word |
| IcmpChecksum.StoredChecksumChecks | agent/live_trace.c:413-414 | storing the checksum in a zeroed aligned field makes any message of up to 131072 bytes, of odd length too, check to zero |
| IcmpChecksum.ChecksIff | agent/live_trace.c:52-68 | a message of up to 131072 bytes checks to zero if and only if its sum is a nonzero multiple of 65535 |
| IcmpChecksum.WordErrorUnnoticedIff | agent/live_trace.c:52-68 | overwriting one aligned word of a message that checks goes unnoticed if and only if old and new word agree modulo 65535 and some byte of the stored message is not zero |
| TraceRun.HopFigures | agent/live_trace.c:117-154 | for any outcomes: sent = replies + timeouts, loss times sent is the timeouts, mean times replies is the sum of the times, least and greatest are, least <= mean <= greatest, and the hop reached the target exactly when a probe did |
| TraceRun.HopAddress | agent/live_trace.c:670-682 | a hop shows the address that the last of its probes to name one does: the replying address, or the target's if the target sent none; or no address |
| TraceRun.TargetRttIsLast | agent/live_trace.c:674-678 | the run's target time is that of the last probe that reached the target |
| TraceRun.HopRecord | agent/live_trace.c:117-154 | the in-place update of one hop is the step behind `HopFigures`, and no other hop changes |
| TraceRun.SendProbe | agent/live_trace.c:652-668 | the probe is UDP until the first UDP error of the run and ICMP from then on, and the probe that failed is repeated over ICMP at once |
| TraceRun.AttemptIff | agent/live_trace.c:652-668 | an attempt is a UDP probe if and only if UDP was available at the start and no attempt so far, its own included, met a UDP error |
| TraceRun.ProbeHop | agent/live_trace.c:643-680 | all probes of one TTL are recorded in order; UDP is given up for good at its first error and that probe repeated over ICMP |
| TraceRun.ClampArguments | agent/live_trace.c:588-599 | a positive wanted number gives the number from 1 to 32 TTLs or 1 to 16 probes that comes nearest to it; otherwise 30 TTLs or 1 probe |
| TraceRun.NearestIsOne | agent/live_trace.c:588-599 | there is only one such number, and it is the wanted one whenever that is allowed |
| TraceRun.Run | agent/live_trace.c:573-687 | for any network a run ends and is one that `FinishedRuns` describes |
| TraceRun.FinishedRuns | agent/live_trace.c:639-687 | hop i has TTL i + 1, all its probes and correct figures; the run reached the target exactly when its last hop did, no other hop did, and a run that did not reach it used every TTL |

## Left out

- Sockets, netlink open, bind and dump requests, `poll`, clocks, files, directories, TLS and HTTP requests: input and output, reduced to parameters.
- NDJSON and JSON text, ISO timestamps, event names, the FNV flow id: a spool line is an arbitrary text and a flow is identified by its key. An evicted flow's id text, which the newcomer inherits, is therefore not modelled.
- The agent's event queue of 16 entries: a bounded ring that refuses when full, simpler than the spool ring.
- Buffers handed over by the host after a failed allocation: nothing marks a slot as waiting, so such a call always refuses.
- The address text limits of table rows, and counter wrap-around at 32 and 64 bits.
- FlowTable.FlowState.ApplyEvent: does not model the lines emitted for new flows nor the one-time warning about missing counters; whether a destroyed flow's line is accepted by the spool is a parameter.
- FlowTable.FlowState.FeedAndApply: the conntrack decoder is a function from one message to its events, since its library is not part of this model; the events of one datagram are decoded before they are applied, which cannot be observed.
- FlowTheorems.RunHoldsShown: runs with destroy events that have an id and no LAN tuple are outside the run theorems; single ones are covered by `DestroyRemoves`, while destroyed flows are emitted. When they are not, the code overwrites the flow's key with zero addresses, which is not covered.
- The interval test before samples are emitted, and changing `max_flows` in the middle of a run.
- TcpTheorems.PrefixAgreement: changing the prefix length in the middle of a run is excluded, because rows of both lengths then live in one table; `Conservation`, `RunSound` and `Ledger` include it.
- TcpStats.TcpState.FeedNflog: payloads behind a torn control message, which the code reads from outside the datagram, are not modelled; the callbacks of a datagram are applied after its walk and not during it, which cannot be observed.
- NetlinkWalk.FeedMessages: on a 32-bit target the sum of offset and message length can wrap for a length near 4 GiB; the model has a 64-bit `size_t` here.
- NetlinkWalk.NflogWalk: what the code does behind the buffer, once a torn control message made the length wrap, is not modelled; nor are buffers of 4 GiB and more, where the padded length itself wraps.
- Dechunk.DecodeBody: what the code does after a copy that leaves a buffer is not modelled; chunk extensions, and the search for the header that announces chunking, are not modelled.
- SpoolRing.Agent.EmitHttp: the choice between HTTP, file and standard output, and a failing `fclose`, are not modelled.
- SpoolRing.Agent.ApplyConfig: all validation but the bound of 1024 lines is one parameter; rebinding NFLOG and conntrack is left out.
- LineFramer.Client.Service: one client of the eight is modelled; accepting clients, and what a request does and replies, are left out.
- TraceRun.ProbeHop: probe sockets and ICMP parsing are an arbitrary outcome per attempt; ports, ids and sequence numbers of probes are left out.
- The demo ping and traceroute, Lua bindings, the command line, SQL, BMP and IPFIX ingest, flow correlation and YAML configuration.
