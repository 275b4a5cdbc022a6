# Verified model of agent-netx

A Dafny model of the parts of agent-netx where state, concurrency and byte layout meet, with
proofs of what those parts keep. `dafny verify dfyconfig.toml` checks all of it.

| files | subject |
|---|---|
| `bytes.dfy`, `ip.dfy`, `options.dfy` | byte strings, 16-bit fields, `net.IP` and its text as a map key |
| `n2n_protocol.dfy` | the n2n overlay's packets, peer lists and register payloads, byte for byte |
| `n2n_supernode.dfy`, `n2n_lease.dfy` | the supernode's address pool and tables: its methods, and the interleaved system of their locked regions |
| `n2n_edge.dfy`, `n2n_network.dfy`, `n2n_data.dfy`, `n2n_progress.dfy` | the edge's peer table, whole runs of one supernode and any number of edges over a lossy network, the payloads that travel in them, and what can always still happen |
| `wintproxy.dfy` | the WinDivert connection table: two inverse maps, a wrapping port allocator, idle eviction |
| `bigendian.dfy`, `fakedns.dfy` | big-endian increment and CIDR masks, and the FakeDNS allocator built on them, for every IPv4 and IPv6 range |
| `socat.dfy` | the UDP session multiplexer of socat under every interleaving |
| `stunvpv.dfy`, `stunvpv_relay.dfy` | the stunvpv control messages, server and client, and whole runs of the relay |
| `sni.dfy` | `parseSNI` |
| `socks5.dfy` | the SOCKS5 CONNECT handshake, client against server |
| `dnscache.dfy` | the DNS cache and the resolver in front of it |
| `groups.dfy` | the proxy registry, failover groups and selectors |

Code that changes state is written as classes and methods, each proved equal to a function on
values; the theorems are about those functions and about runs of state machines built from
them. A run is a sequence of states, each the result of an enabled step; steps are the locked
regions and channel operations of the code, so every interleaving of them is a run. A map
iteration is a loop that picks an arbitrary remaining key. Time is a natural number of
nanoseconds that never goes back. Encryption is the identity, since a datagram that does not
decrypt is dropped. The text of an address, used everywhere as a map key, is modelled by the
injective `IP.Key`. Socket and clock readings are parameters.

Assumptions a theorem makes appear in its `requires`. The main ones: the n2n pool is built on an
IPv4 or IPv6 network address; an edge's `host:port` text and a virtual address together take at
most 263 bytes, so that 245 peers fit one payload; network payloads are UDP datagrams, hence
shorter than 65536 bytes, and datagrams have the sender's true address.

Where the code does something else than its comments or its neighbours expect, the code is
modelled and the difference is a theorem:

- an edge learns no peer from its RegisterAck, because it reads one byte of a two-byte length
  (`N2nEdge.AckTeachesNothing`, `N2nNetwork.RegistrationTeachesNothing`);
- a TCP flow's IPv4 addresses are recorded in reverse byte order, and two client ports that agree
  modulo 256 share a flow (`WinTProxy.AcceptedAddress`, `WinTProxy.FlowKeyCollides`, `WinTProxy.OwnEndpointsIff`,
  `WinTProxy.CollidingClientIsMistaken`);
- FakeDNS over `0.0.0.0/0` comes to hand out `0.0.0.0` itself; a range smaller than a /24 that
  does not contain the address ending in .3 allocates outside it; and a range written in IPv6
  form, `::ffff:a.b.c.d/n`, is reset to `0.0.0.3` and, not containing it, stays there
  (`FakeDns.HandedOutInNetworkIff`, `FakeDns.ReservedNeverHandedOutIff`, `FakeDns.SameAddrStuck`);
- after a failed read a socat UDP client is never served again: `run` takes its key out of the
  table when the dial fails, and not when a read does (`Socat.CanBeServedIff`, `Socat.StuckRun`);
- `parseSNI` returns hosts from malformed records, although its comment promises the empty string
  (`Sni.HelloNamesHostIff`, `Sni.PromiseKeptIff`, `Sni.NamesBehindAreIgnored`, `Sni.MalformedIsNamed`);
- `Edge.SendTo` falls back on the supernode, which has no case for data (`N2nData.FallbackIsLost`);
- the supernode's answer to a hole-punching request names the requester as its source, so the requester
  ignores it (`N2nData.ConnectIsRelayed`);
- the SOCKS5 client takes a granting reply that ends in the middle for success (`Socks5.CutReplyIsAccepted`);
- `Selector.SetChoice` does not look for cycles (`Groups.SetChoiceKeepsAcyclicIff`);
- a stunvpv sweep takes the index entry of a live client that has an older, stale lease at the
  same address (`Stunvpv.SweepSilencesIff`, `Stunvpv.RestartedClientIsSilenced`).

## Model

| member | source | states |
|---|---|---|
| `IP.Forms` | n2n/protocol.go:29-37 | An IPv4 address has one wire form and one text in its two forms, another IPv6 address keeps its 16 bytes, and slices of other lengths have no wire form. |
| `N2nProtocol.HeaderAddrs` | n2n/protocol.go:29-47 | The address length is that of the normalised source, 4 when there is none, and a destination of another length becomes zeros of that length. |
| `N2nProtocol.MarshalPacket` | n2n/protocol.go:28-53 | Filling the zeroed buffer field by field leaves exactly the packet's encoding. |
| `N2nProtocol.UnmarshalPacket` | n2n/protocol.go:55-82 | The length checks and copies compute the decoding function, errors included, and never index outside the data. |
| `N2nProtocol.DecodeEncode` | n2n/protocol.go:28-82 | Decoding an encoded packet, with any bytes after it, gives back kind and normalised addresses and the payload cut to its length modulo 65536. |
| `N2nProtocol.PayloadSurvives` | n2n/protocol.go:49-79 | The payload comes back unchanged if and only if it is shorter than 65536 bytes. |
| `N2nProtocol.CutPacketRejected` | n2n/protocol.go:55-82 | A packet cut anywhere before its end is rejected, never misread. |
| `N2nProtocol.PacketLayout` | n2n/protocol.go:28-53 | Every field of a packet stands where the format has it, lengths in big-endian order; a source that is no IP address travels as 0.0.0.0. |
| `N2nProtocol.MarshalEntry` | n2n/protocol.go:129-140 | The buffer built for one peer is its two length-prefixed fields. |
| `N2nProtocol.MarshalPeerList` | n2n/protocol.go:125-143 | The loop appends the entries in list order behind a 16-bit count. |
| `N2nProtocol.UnmarshalEntry` | n2n/protocol.go:152-172 | One turn of the loop takes a complete entry at the offset and moves past it, or reports that none is complete; no read leaves the data. |
| `N2nProtocol.UnmarshalPeerList` | n2n/protocol.go:145-175 | The offset loop computes the recursive decoding of count and entries, for any bytes. |
| `N2nProtocol.CompleteIsLargest` | n2n/protocol.go:145-175 | The number of entries said to survive a cut is the largest whose encodings fit in front of it. |
| `N2nProtocol.DecodeTruncatedEntries` | n2n/protocol.go:150-172 | From the first k bytes of encoded entries, exactly the complete ones come back, in order. |
| `N2nProtocol.DecodeTruncatedPeers` | n2n/protocol.go:145-175 | A list cut after two bytes or more decodes to a prefix of the list, the longest that fits, with no corrupted entry. |
| `N2nProtocol.DecodeEncodePeers` | n2n/protocol.go:125-175 | Every list of fewer than 65536 entries with 16-bit address lengths decodes to itself, addresses normalised. |
| `N2nProtocol.ListLayout` | n2n/protocol.go:125-143 | The count and each entry's two lengths and texts stand where the format has them. |
| `N2nProtocol.EntriesBound` | n2n/protocol.go:125-143 | A list whose entries carry at most b address bytes takes at most (b + 4) bytes per entry. |
| `N2nProtocol.MarshalRegisterPayload` | n2n/protocol.go:98-108 | The register payload is community, hostname and port, each text behind its 16-bit length. |
| `N2nProtocol.DecodeEncodeRegistration` | n2n/protocol.go:98-123 | A register payload with texts under 65536 bytes and a 16-bit port reads back as itself, without the panic that unchecked lengths can cause. |
| `N2nProtocol.RegistrationLayout` | n2n/protocol.go:98-108 | Both texts behind their lengths, and the port, stand where the format has them. |
| `N2nProtocol.CutRegistration` | n2n/protocol.go:110-123 | A register payload cut below six bytes is refused, and one cut anywhere behind makes the unchecked reader panic. |
| `N2nSupernode.IpAllocator.Allocate` | n2n/supernode.go:49-63 | The scan marks and returns the first address of the specification, or changes nothing when there is none. |
| `N2nSupernode.FirstFreeSpec` | n2n/supernode.go:49-63 | Allocation fails if and only if the whole pool is used; otherwise the result is an unused pool address and every lower one is used. |
| `N2nSupernode.PoolSize` | n2n/supernode.go:52-61 | The pool is 245 addresses with 245 different keys. |
| `N2nSupernode.PoolIsTenTo254` | n2n/supernode.go:38-63 | An address of the network is in the pool if and only if its last byte is 10 to 254, and the first one allocated ends in 10. |
| `N2nSupernode.ListPeers` | n2n/supernode.go:298-306 | The loop over the table lists every entry once, in some order. |
| `N2nSupernode.Supernode.HandleRegister` | n2n/supernode.go:144-183 | A well-formed request of the right community, when the pool has an address, enters one lease and its index entry and is acknowledged with the table it is now in; anything else changes and sends nothing. |
| `N2nSupernode.Supernode.HandleHeartbeat` | n2n/supernode.go:185-205 | Only the sender's last-seen time moves, and the ack lists the whole table in some order. |
| `N2nSupernode.Supernode.HandleBye` | n2n/supernode.go:225-235 | A known sender's address returns to the pool and its entry and index entry go; an unknown sender changes nothing. |
| `N2nSupernode.Supernode.BroadcastPeerUpdate` | n2n/supernode.go:237-254 | One encoded update goes to each peer at another real address, and to nobody else. |
| `N2nSupernode.Supernode.Cleanup` | n2n/supernode.go:283-296 | Evicting during iteration, in any order, leaves exactly the tables without the stale entries, their index entries and their pool marks. |
| `N2nSupernode.OrderLength` | n2n/supernode.go:165-168 | A map iteration lists as many entries as the table has. |
| `N2nSupernode.AckOnWire` | n2n/supernode.go:170-182 | A RegisterAck is read as one from and to the new address, with that address and the list behind a two-byte length. |
| `N2nSupernode.AnswerOnWire` | n2n/supernode.go:202-205 | A HeartbeatAck echoes the request's addresses and carries the list. |
| `N2nSupernode.UpdateOnWire` | n2n/supernode.go:248-253 | A peer update comes from the new address and carries a list of one. |
| `N2nLease.StepKeepsInv` | n2n/supernode.go:144-296 | Every locked region, in any interleaving, keeps the used set equal to the disjoint union of settled and in-flight leases, the index sound, and the entries keyed by their own address. |
| `N2nLease.RunKeepsInv` | n2n/supernode.go:83-296 | That invariant holds in every state of every run. |
| `N2nLease.PoolAccountsForLeases` | n2n/supernode.go:144-169 | Whenever s.mu is free, the used set is exactly the disjoint union of the table's keys and the in-flight addresses, and each index entry names a live peer with that real address. |
| `N2nLease.RegistrationNeverOverwrites` | n2n/supernode.go:152-169 | Inserting a lease adds one entry, seen now, with what the edge said of itself, under a key that was free, and its index entry, and leaves all other entries as they were. |
| `N2nLease.RegisterStepsAreHandleRegister` | n2n/supernode.go:144-169 | Allocation and insertion run alone leave the tables of the HandleRegister method. |
| `N2nLease.HeartbeatStepsAreHandleHeartbeat` | n2n/supernode.go:185-205 | The same of a heartbeat's two steps and HandleHeartbeat. |
| `N2nLease.ByeStepsAreHandleBye` | n2n/supernode.go:225-235 | The same of a Bye's two steps and HandleBye. |
| `N2nLease.AtMostPoolSize` | n2n/supernode.go:52-61 | There are never more than 245 leases. |
| `N2nLease.RefreshedPeerIsKept` | n2n/supernode.go:185-192 | A peer whose refreshes are at most five minutes apart stays in the table at its address, and its virtual IP is given to nobody else, until its Bye. |
| `N2nLease.NewLeaseIsKept` | n2n/supernode.go:152-161 | In every run a peer that has just registered is kept, at its address, for five minutes or until its Bye. |
| `N2nLease.LastSeenIsLatest` | n2n/supernode.go:158-192 | In every run a peer's last-seen time is that of the last step that registered or refreshed it. |
| `N2nLease.ByeFreesTheLease` | n2n/supernode.go:225-235 | In every run a Bye, once s.mu is free again, has left no entry, no index entry, and no pool mark but one a new registration has set. |
| `N2nLease.SweepEvictsExactlyTheStale` | n2n/supernode.go:283-296 | A cleanup, whatever runs beside it, removes exactly the peers unseen for more than five minutes when it started and exactly the index entries at their real addresses, and frees exactly their virtual IPs, unless a registration meanwhile took them again. |
| `N2nLease.SilentPeerIsEvicted` | n2n/supernode.go:283-296 | In every run a sweep that starts more than five minutes after a peer's last registration or refresh removes it. |
| `N2nLease.SweepSucceeds` | n2n/supernode.go:270-296 | While s.mu is free, at any later moment a sweep can run to its end, and then exactly the peers unseen for more than five minutes are gone. |
| `N2nLease.SectionNeverBlocks` | n2n/supernode.go:225-296 | A Bye or a sweep under way can always go on. |
| `N2nLease.LoneSweepIsCleanup` | n2n/supernode.go:283-296 | The entry-by-entry sweep run alone has the outcome of the cleanup method. |
| `N2nEdge.MergeAgrees` | n2n/edge.go:145-157 | After merging a list without repeats, in whatever order, the table agrees with it on every address but the edge's own and is otherwise unchanged. |
| `N2nEdge.MergeSource` | n2n/edge.go:145-190 | Every pair in a merged table was there before or comes from the list. |
| `N2nEdge.AckTeachesNothing` | n2n/edge.go:105-121 | From every RegisterAck a supernode builds the edge reads its virtual IP and an empty peer list: one byte of the two-byte length is taken for the whole. |
| `N2nEdge.OneByteLengthIsRead` | n2n/edge.go:105-121 | An ack with a one-byte list length, as register expects it, would be read in full. |
| `N2nEdge.CutAckPanicsIff` | n2n/edge.go:100-107 | A cut ack makes register panic if and only if it ends in front of its list length. |
| `N2nEdge.Edge.FinishRegister` | n2n/edge.go:94-124 | A readable ack sets the virtual IP and merges its list; any other datagram is an error or a panic and changes nothing. |
| `N2nEdge.Edge.MergeAllPeers` | n2n/edge.go:116-118 | The loop enters every listed peer, later entries winning. |
| `N2nEdge.MergeAllAt` | n2n/edge.go:112-121 | After register's loop each listed address has the real address of its last entry. |
| `N2nEdge.MergeAllElsewhere` | n2n/edge.go:112-121 | An address that is not listed stays as it was. |
| `N2nEdge.MergeEntries` | n2n/edge.go:145-190 | The loop enters every listed peer but the edge itself, later entries winning. |
| `N2nEdge.Edge.HandlePacket` | n2n/edge.go:126-196 | Each kind of packet has exactly its effect on the table; data packets, and only those, reach the callback; and a hole-punching request, and only that, is answered with the edge's own address where its text resolves. |
| `N2nEdge.DataIsDelivered` | n2n/edge.go:192-214 | A data packet with a payload under 65536 bytes reaches onData with that payload and the sender's address. |
| `N2nEdge.CutIsIgnored` | n2n/edge.go:126-190 | A packet cut anywhere, or a list cut in its count, changes nothing, delivers nothing and is not answered. |
| `N2nEdge.AnswerUpdatesAsker` | n2n/edge.go:159-176 | A hole-punching request is answered with the edge's own address, if its text resolves, and whoever asked then has that address for the edge, if it listed it at all. |
| `N2nEdge.Edge.SendTo` | n2n/edge.go:198-214 | Data goes straight to the recorded address, and through the supernode when there is none or it does not resolve. |
| `N2nNetwork.ListsFit` | n2n/supernode.go:193-204 | Any listing of the supernode's table takes at most 65417 bytes, so it fits the 16-bit payload length. |
| `N2nNetwork.SnapshotArrives` | n2n/protocol.go:125-175 | A listing of the table is decoded entry for entry by the receiver. |
| `N2nNetwork.StepKeepsInv` | n2n/supernode.go:83-254 | Every step of supernode, edges and network, a restart of an edge included, keeps every datagram genuine and every pair in every edge's table vouched for by some past supernode table. |
| `N2nNetwork.RunKeepsInv` | n2n/supernode.go:83-254 | That holds in every run, with datagrams lost, duplicated and reordered at will. |
| `N2nNetwork.TablesWereRegistered` | n2n/edge.go:145-190 | In every run, each (virtual IP, address) pair in any edge's table stood in the supernode's table at some earlier moment. |
| `N2nNetwork.HeartbeatAckAgrees` | n2n/edge.go:145-157 | After an edge handles a HeartbeatAck its table agrees with one earlier supernode table on every virtual IP but its own, and is otherwise unchanged. |
| `N2nNetwork.RegistrationTeachesNothing` | n2n/edge.go:84-124 | In every run, finishing a registration adds no peer, and an edge that reads an ack is then running. |
| `N2nNetwork.NoHolePunching` | n2n/supernode.go:207-223 | No step of any run handles or sends a P2PConnect, because nobody sends a first one. |
| `N2nNetwork.NoDatagramPanics` | n2n/protocol.go:110-123 | Every datagram of every run decodes, none is of a hole-punching kind, and neither register payloads nor acks make their unchecked readers panic. |
| `N2nNetwork.NodeRun` | n2n/supernode.go:83-296 | The supernode's part of a network run is a run of the lease system, so every lease theorem holds in the network. |
| `N2nData.RunningEdgeIsLeased` | n2n/edge.go:84-124 | In every run the virtual IP of a running edge is one the supernode had leased to that edge's real address. |
| `N2nData.DeliveredWasSent` | n2n/edge.go:192-214 | In every run, whatever onData is given was passed to SendTo by an edge, cut to its length modulo 65536; it came directly, the supernode having had this edge at the destination address, and its source is an address leased to the sender. |
| `N2nData.FallbackIsLost` | n2n/edge.go:198-214 | In no run does any step take a datagram that SendTo sent through the supernode, so its payload is delivered to nobody. |
| `N2nData.UpdateIsLearned` | n2n/edge.go:178-190 | In every run, after an edge handles a datagram of a broadcast, its table has the new peer at its real address, unless that goes by the edge's own virtual IP, and is otherwise unchanged. |
| `N2nData.TableChangesOnlyBy` | n2n/edge.go:126-190 | In every run an edge's table changes only when it handles a datagram of a broadcast or of a heartbeat's answer, or its process ends. |
| `N2nData.LeasesWereAsked` | n2n/supernode.go:144-169 | In every run every lease is that of an edge at its real address that asked for it, with the lease's host name and the supernode's own community. |
| `N2nData.ConnectIsRelayed` | n2n/supernode.go:207-223 | A hole-punching request, if anybody sent one, would ask the target to answer to the requester, whose own ack comes from its own virtual IP and so changes nothing. |
| `N2nData.EdgeListsOthers` | n2n/edge.go:145-190 | In every run no running edge lists its own virtual IP, and one that is not running lists nothing. |
| `N2nData.DirectSendIsToAnother` | n2n/edge.go:198-214 | In every run what SendTo sends directly never goes to the virtual IP the sender goes by. |
| `N2nProgress.RegistrationSucceeds` | n2n/supernode.go:144-183 | From any state the invariant allows with s.mu free and a pool address left, an idle edge can come to run under an unused pool address, with its table as it was, its lease seen now and to be announced. |
| `N2nProgress.HeartbeatSucceeds` | n2n/edge.go:269-272 | A running edge can be refreshed: its lease is seen now and its table agrees with the supernode's on every address but its own. |
| `N2nProgress.AnnouncementSucceeds` | n2n/supernode.go:237-254 | A new lease can be announced to any other running edge with a lease, whose table then has it. |
| `N2nProgress.AnnouncesToOthers` | n2n/supernode.go:237-254 | A broadcast goes to exactly the real addresses of leases other than the new one's. |
| `N2nProgress.DirectSendSucceeds` | n2n/edge.go:198-214 | What an edge sends to a running peer in its table can be delivered there, payload and sender's address as they were. |
| `N2nProgress.ByeSucceeds` | n2n/edge.go:216-219 | A running edge with a lease can leave: exactly its entry, index entry and pool mark go. |
| `N2nProgress.CleanupSucceeds` | n2n/supernode.go:270-296 | While s.mu is free, at any later moment a cleanup can run to its end in the network, and exactly the peers unseen for more than five minutes are gone. |
| `N2nProgress.RestartForgets` | n2n/edge.go:25-39 | An edge that stops and starts again begins with no address and an empty table. |
| `N2nProgress.NewcomerIsReached` | n2n/edge.go:84-214 | All together: a continuation registers any idle edge, announces it to any running edge with a lease, and delivers that edge's payload to the new one. |
| `WinTProxy.AcceptedAddress` | listener/tproxy_windows.go:542-549 | Bytes 12 to 15 hold the address in reverse; they are the address on the wire if and only if it reads the same both ways. |
| `WinTProxy.FlowKeyCollides` | listener/tproxy_windows.go:554-561 | Two endpoints share a flow key if and only if family and address agree and the ports agree modulo 256. |
| `WinTProxy.AllocSpec` | listener/tproxy_windows.go:329-341 | The scan hands out the first free port going round from the cursor and stops just past it; it fails if and only if all 20000 ports are taken, with the cursor back where it was. |
| `WinTProxy.GcKeepsInv` | listener/tproxy_windows.go:451-458 | A sweep keeps the two maps inverse, and the port map keeps exactly its non-idle flows. |
| `WinTProxy.OpenKeepsInv` | listener/tproxy_windows.go:286-304 | A new flow is opened if and only if some port is free; it gets one no other flow has, and every other flow stays. |
| `WinTProxy.NextKeepsInv` | listener/tproxy_windows.go:241-458 | Every event on any packet path keeps byReal and byFake inverse and the cursor in range. |
| `WinTProxy.ReachableTable` | listener/tproxy_windows.go:241-458 | In every run each live flow key has its own fake port, the port leads back to the flow, and there are at most 20000 flows. |
| `WinTProxy.FlowIsKept` | listener/tproxy_windows.go:273-354 | A flow never idle for ten minutes keeps its recorded endpoints and its port through any events, and looking the port up gives those endpoints. |
| `WinTProxy.SynOpensStickyFlow` | listener/tproxy_windows.go:273-354 | From an untracked SYN on, which is let in as long as fewer than 20000 ports are taken, every later packet of its key gets the same port, or goes out as it is when it is on loopback already, and the port looks up the SYN's client and destination. |
| `WinTProxy.OwnEndpointsIff` | listener/tproxy_windows.go:273-354 | The port a packet is rewritten to looks up the packet's own endpoints if and only if no flow was tracked under its key or the tracked one recorded those very endpoints. |
| `WinTProxy.CollidingClientIsMistaken` | listener/tproxy_windows.go:273-325 | A second client port that agrees modulo 256 with a tracked one is rewritten to the first one's port and looked up as the first client. |
| `WinTProxy.SweepFreesExactlyIdlePorts` | listener/tproxy_windows.go:451-458 | A sweep frees a port, and evicts its flow, if and only if the flow was idle for more than ten minutes. |
| `WinTProxy.TrackedPacketIsRewritten` | listener/tproxy_windows.go:273-308 | A packet of a tracked flow, whatever its flags, goes to the flow's port and refreshes it, and changes nothing else. |
| `WinTProxy.UntrackedPacketPasses` | listener/tproxy_windows.go:279-284 | An untracked packet that opens no connection is left alone, and so is the table. |
| `WinTProxy.UntrackedSyn` | listener/tproxy_windows.go:285-308 | An untracked SYN is let in if and only if fewer than 20000 ports are taken, to a port nobody had that looks up its own endpoints; otherwise it is dropped and exactly the idle flows go. |
| `WinTProxy.FirstPort` | listener/tproxy_windows.go:329-341 | The first port ever given out is 40000. |
| `WinTProxy.RetriedSynIff` | listener/tproxy_windows.go:293-300 | A dropped SYN that comes again is let in if and only if some flow had been idle for more than ten minutes. |
| `WinTProxy.EmittedIs` | listener/tproxy_windows.go:310-317 | Only a packet from 127.0.0.1 to the listener on 127.0.0.1 is sent on as it is; passed and dropped ones stay so. |
| `WinTProxy.CapturedDatagram` | listener/tproxy_windows.go:241-265 | A captured datagram opens a flow as a SYN does, or refreshes the one there is, or, with all ports taken, has the idle flows swept. |
| `WinTProxy.WinTProxyState.AllocFakeLocked` | listener/tproxy_windows.go:329-341 | The loop returns the port and leaves the cursor of the allocation function. |
| `WinTProxy.WinTProxyState.GcLocked` | listener/tproxy_windows.go:451-458 | Deleting from both maps while iterating, in any order, leaves the swept table. |
| `WinTProxy.WinTProxyState.InsertFlow` | listener/tproxy_windows.go:301-305 | One flow object enters both maps under its key and its port, and nothing else changes. |
| `WinTProxy.WinTProxyState.OpenFlow` | listener/tproxy_windows.go:286-304 | A fresh flow enters the table with the port allocated, or, with no port free, the table is swept and nothing added. |
| `WinTProxy.WinTProxyState.Refresh` | listener/tproxy_windows.go:305-306 | Writing the time through one reference refreshes the flow as both maps see it. |
| `WinTProxy.WinTProxyState.Rewrite` | listener/tproxy_windows.go:273-325 | Table and packet are those of the transition function: pass an untracked non-SYN, drop when ports run out, send on as it is what already goes to the listener on loopback, and otherwise rewrite to the flow's port. |
| `WinTProxy.WinTProxyState.CaptureOnly` | listener/tproxy_windows.go:241-265 | A flow is recorded or refreshed, or the table swept when no port is free. |
| `BigEndian.IncIsPlusOne` | dns/fake.go:60-66 | The carrying increment adds one to the big-endian value, and turns the largest value into zero. |
| `BigEndian.IncrementInPlace` | dns/fake.go:60-66 | The in-place loop, stopping at the first byte that does not wrap, leaves the incremented bytes. |
| `BigEndian.AndHighBits` | dns/fake.go:67-71 | Masking a number with the high bits removes its remainder modulo the power of two below them. |
| `BigEndian.ContainsIsQuotient` | dns/fake.go:67-71 | The byte-wise CIDR test holds if and only if the two values agree when divided by the size of the range. |
| `FakeDns.AdvanceSteps` | dns/fake.go:60-71 | The next address has the next offset in the range; from the last one, which in an IPv6 range is the one before ::ffff:0:0, the counter is reset, except that all of IPv4 goes on to 0.0.0.0. |
| `FakeDns.LeadWalks` | dns/fake.go:54-75 | Up to its first reset the counter gives consecutive addresses from the first one, and then the reset address. |
| `FakeDns.ForwardOfReverse` | dns/fake.go:54-89 | In every run of Allocate, also after wrapping, looking up an address and then the domain found gives the address back. |
| `FakeDns.DistinctRun` | dns/fake.go:54-75 | New domains get the addresses of the counter one after the other, and nothing else is recorded. |
| `FakeDns.OwnsAddressIffLast` | dns/fake.go:54-89 | Of n distinct domains over any range, the i-th still owns its address if and only if no later one was given it. |
| `FakeDns.SameAddr` | dns/fake.go:60-71 | For every range whose reset address is its first one, two places in the allocation order share an address if and only if they are a multiple of the period apart. |
| `FakeDns.SameAddrStuck` | dns/fake.go:68-71 | For any other range, written in IPv6 form, places before the first reset have their own addresses and all later ones share one. |
| `FakeDns.OwnsAddressIffRecent` | dns/fake.go:54-89 | Of n distinct domains over a range whose reset address is its first one, the i-th still owns its address if and only if it is among the last C, C being the addresses from the first to the end of the range, or one more than the range, or one, or all of IPv4, according to where the first one lies. |
| `FakeDns.PeriodIs` | dns/fake.go:19-75 | With at least eight host bits C is two to their number, less three; all of IPv4 for 0.0.0.0/0; and the part in front of ::ffff:0:0 for an IPv6 range that has that in it. |
| `FakeDns.SmallPeriodIs` | dns/fake.go:19-75 | With fewer, C depends on where the range stands in its last byte, and may be one address. |
| `FakeDns.OwnsAddressInIpv4Range` | dns/fake.go:54-89 | Over an IPv4 range a.b.c.d/p with p up to 24, the i-th of n distinct domains owns its address if and only if it is among the last 2^(32-p) - 3, or the last 2^32 for p = 0. |
| `FakeDns.DefaultRange` | config/config.go:328 | The default range 198.18.0.0/15 is exactly the addresses 198.18.x.y and 198.19.x.y, and its counter goes through 131069 addresses before it repeats. |
| `FakeDns.OwnsAddressWhenStuck` | dns/fake.go:54-89 | Over any other range those before the first reset own their addresses for good, and of the rest only the last one does. |
| `FakeDns.RepeatsChangeNothing` | dns/fake.go:55-59 | Any sequence of requests leaves the state its first occurrences alone leave. |
| `FakeDns.AllocateAnswers` | dns/fake.go:54-75 | In every run a known domain is answered with the address it got first, and a new one with the next address of the sequence, which from then on leads back to it. |
| `FakeDns.StartsOverIff` | dns/fake.go:68-71 | The reset address is the first one, except that a range in the form ::ffff:a.b.c.d is reset to 0.0.0.3. |
| `FakeDns.HandedOutIsAddr` | dns/fake.go:54-75 | The addresses handed out in some run are exactly those of the counter's sequence. |
| `FakeDns.HandedOutInNetworkIff` | dns/fake.go:19-75 | For every range, all addresses ever handed out lie in it if and only if the first one does and is what the counter is reset to. |
| `FakeDns.ReservedNeverHandedOutIff` | dns/fake.go:19-75 | For every range with at least a whole byte of hosts, network, gateway and DNS address and all outside addresses are never handed out, if and only if the counter is reset to its first address and the range is not all of IPv4. |
| `FakeDns.FakeDns.Allocate` | dns/fake.go:54-75 | A known domain gets its recorded address and changes nothing; a new one gets the counter's address, recorded both ways, and the counter advances in place, over any IPv4 or IPv6 range. |
| `FakeDns.FakeDns.Domain` | dns/fake.go:77-82 | The reverse lookup finds an address in its 4-byte and its 16-byte form alike. |
| `FakeDns.FakeDns.IsFake` | dns/fake.go:91-93 | Exactly the addresses that begin with the bits of the prefix are fake, IPv4 ones in either form; they are the consecutive ones from the network address on. |
| `FakeDns.ValidCidrIff` | dns/fake.go:19-23 | A range is valid if and only if its prefix is no longer than its address and its host bits are zero, and then has two to the number of host bits addresses, in IPv4 and in IPv6 form. |
| `FakeDns.InNetworkIff` | dns/fake.go:67-71 | An address of the network's length is in the range if and only if it begins with the bits of the prefix, except that IPv4-mapped ones are in no other IPv6 range. |
| `FakeDns.ContainedIff` | dns/fake.go:91-93 | The same for slices of any length, an IPv4 address counting alike in its two forms. |
| `Socat.UdpSessions.Enqueue` | cmd/socat.go:391-415 | The message is offered to the client's own session, created if missing, dropped when 128 wait already; no other inbox changes. |
| `Socat.ReceiveAndPushIsEnqueue` | cmd/socat.go:391-415 | The two steps of the interleaved system change the inboxes as the method does. |
| `Socat.DialFailIsDrop` | cmd/socat.go:423-430 | The step of a failed dial changes the inboxes as the drop method does. |
| `Socat.StepKeepsInv` | cmd/socat.go:391-474 | Every step of the receive loop and the session goroutines keeps inboxes, forwards and replies with their own client and in order. |
| `Socat.RunKeepsInv` | cmd/socat.go:391-520 | That invariant holds in every state of every run. |
| `Socat.RepliesReachTheirClient` | cmd/socat.go:419-468 | In every run, a reply read from the socket opened for a client is written to that client alone. |
| `Socat.DeliveredIsReturned` | cmd/socat.go:447-458 | In every run the clients are sent exactly the replies that were read and written back, in order, each with its bytes and to the client of its session. |
| `Socat.ForwardedIsWritten` | cmd/socat.go:435-446 | In every run what has been forwarded is exactly what the sessions wrote, in order, each the head of its inbox. |
| `Socat.ArrivalsAreRead` | cmd/socat.go:503-518 | In every run the arrivals are exactly the datagrams read, in order. |
| `Socat.InboxIsFifo` | cmd/socat.go:408-446 | In every run what a session accepted, which is what came while fewer than 128 waited, is what it took out followed by what is still in its inbox. |
| `Socat.PhaseIsHistory` | cmd/socat.go:419-468 | In every run a session has ended exactly if a read failed, has failed exactly if its dial did, and dials until one outcome comes; failed writes end nothing. |
| `Socat.OutcomesAreOpen` | cmd/socat.go:419-468 | Both outcomes of each dial, write and read are possible whenever a session is at it. |
| `Socat.InboxesAreBounded` | cmd/socat.go:391-415 | In every state of every run each inbox holds at most 128 messages, all arrivals of its own client, in order. |
| `Socat.ForwardsAreArrivals` | cmd/socat.go:419-446 | In every run each forwarded datagram is an arrival of the client whose session it went through. |
| `Socat.ForwardsKeepOrder` | cmd/socat.go:391-468 | In every run a client's datagrams all go through one session, at most once each and in the order of arrival. |
| `Socat.StuckForever` | cmd/socat.go:460-465 | After a failed read no continuation forwards another datagram of that client. |
| `Socat.CanBeServedIff` | cmd/socat.go:419-468 | In every reachable state some continuation still forwards a datagram of the client if and only if its session has not ended on a failed read. |
| `Socat.StuckRun` | cmd/socat.go:419-468 | For every client there is a run of five steps after which it can never be served again: one datagram in, dialed and written, and a failed read. |
| `Socat.FailedDialIsRetried` | cmd/socat.go:422-430 | A failed dial takes out that client alone, and its next datagram opens a new session that dials again. |
| `Sni.ParseSNI` | listener/http.go:1039-1109 | On any bytes the cursor walk ends, never indexes outside the record, and returns what the field-by-field parse defines. |
| `Sni.ScanExtensions` | listener/http.go:1080-1108 | The loop over the extensions computes the recursive scan of the block. |
| `Sni.FindsHost` | listener/http.go:1039-1109 | For every ClientHello with a host name of 1 to 255 bytes behind any session id, cipher suites, compression list and other extensions, the result is exactly that host. |
| `Sni.ScanIsSound` | listener/http.go:1080-1108 | Any result is empty or 1 to 255 bytes of the block that stand there behind a zero name type and their own length. |
| `Sni.ParseWithBlock` | listener/http.go:1039-1080 | A record with all its fields yields what the walk over its extensions does, up to their declared length or the end of the record. |
| `Sni.OthersYieldNothing` | listener/http.go:1039-1080 | Any other record, not a ClientHello or with a field missing, yields nothing. |
| `Sni.NameIsTaken` | listener/http.go:1087-1104 | A server_name whose list is as long as the extension and starts with a host_name of 1 to 255 bytes yields that name, even where it runs past its extension. |
| `Sni.OtherIsPassedOver` | listener/http.go:1080-1107 | Any other extension, for each reason in turn, is passed over. |
| `Sni.CutEndsTheWalk` | listener/http.go:1084-1086 | An extension cut short ends the walk. |
| `Sni.HelloNamesHostIff` | listener/http.go:1034-1109 | A record is a well-formed ClientHello whose server_name list starts with the host (every length and vector bound right, extensions and names whole and of different types, other extensions' data opaque) if and only if parseSNI returns that host and the checks it leaves out pass. |
| `Sni.PromiseKeptIff` | listener/http.go:1038 | A returned host comes from such a record, as the comment promises, if and only if those checks pass. |
| `Sni.NamesBehindAreIgnored` | listener/http.go:1087-1104 | Whatever stands behind the first name of the list, parseSNI returns that name, but the record is well-formed if and only if it is a whole list of other names, no two of one type. |
| `Sni.MalformedIsNamed` | listener/http.go:1038-1104 | For every host of 2 to 255 bytes, whole records with an overrunning name, or with a wrong list length in an earlier server_name, are malformed and yet yield the host. |
| `Sni.MalformedTailIsNamed` | listener/http.go:1038-1104 | A second name cut after its type, or a second host_name, leaves a malformed record that yields the host. |
| `Socks5.ReadSOCKS5Addr` | forward/forward.go:350-382 | Host and port are read by address type, and the stream is left just behind them or where the read failed. |
| `Socks5.HandleSOCKS5Connect` | forward/forward.go:307-347 | What is written, what is dialed and what is left for the tunnel are those of the server function, on every input and error path. |
| `Socks5.SkipBytes` | proxy/upstream.go:295-312 | The chunked loop discards exactly n bytes, or all there are. |
| `Socks5.Socks5Auth` | proxy/upstream.go:253-270 | The username message is sent, and two bytes are read of which the second decides. |
| `Socks5.ConnectAndSkip` | proxy/upstream.go:224-251 | The request is sent, and the reply is read to its end by its address type. |
| `Socks5.Socks5Handshake` | proxy/upstream.go:187-251 | What the client sends, accepts and leaves unread are those of the client function, on every input. |
| `Socks5.RequestIsSent` | proxy/upstream.go:193-229 | Whichever end's bytes come first, the two ends get past the greeting: the server picks no-auth and the client sends its request and never its password. |
| `Socks5.HandshakeReachesTarget` | forward/forward.go:307-382 | For every host of up to 255 bytes and 16-bit port the server dials exactly that target; on success both ends stand exactly at the first tunnel byte, and otherwise the client reports failure. |
| `Socks5.TargetDialedIff` | proxy/upstream.go:216-229 | For any host and port number, the server dials exactly the requested target if and only if the host has at most 255 bytes and the port fits 16 bits. |
| `Socks5.HandshakeRunExists` | forward/forward.go:307-347 | For every such target, reachable or not, the two ends have a complete run together. |
| `Socks5.RequestIsServed` | forward/forward.go:307-382 | For every name, IPv4 or IPv6 address, and whatever methods were offered, the server dials exactly the target of the request, answers with the right code and leaves the tunnel bytes unread. |
| `Socks5.CutRequestIsRefused` | forward/forward.go:307-382 | A conversation cut anywhere dials nothing, and has been answered as far as it got. |
| `Socks5.OthersAreRefused` | forward/forward.go:314-336 | Commands other than CONNECT and unknown address types are refused with their codes, and another version is not answered. |
| `Socks5.ClientAnswers` | proxy/upstream.go:187-270 | For every choice of the server the client sends exactly greeting, password message and request as far as it gets; it offers a password only with a username and sends it only if asked. |
| `Socks5.ReplyIsRead` | proxy/upstream.go:230-251 | A reply is read exactly to the end of its bound address, for each address type, and a failure code is a failure. |
| `Socks5.OtherReplies` | proxy/upstream.go:234-249 | Any other code or address type is a failure. |
| `Socks5.CutReplyIsAccepted` | proxy/upstream.go:295-312 | A granting reply cut inside its bound address still counts as success, because skip reports nothing. |
| `Socks5.ServerOnlyExtends` | forward/forward.go:307-347 | With more input the server only adds to what it has written, and once it needs no more, further bytes go to the tunnel unread. |
| `Socks5.ClientOnlyExtends` | proxy/upstream.go:187-251 | The same of the client. |
| `Socks5.NoDeadlock` | proxy/upstream.go:187-251 | When each end has read all the other has written, for any host and port number, neither is waiting for more: both handshakes are over. |
| `Socks5.ServerWaitsIff` | forward/forward.go:307-382 | The server counts as waiting exactly when it would take one more byte for itself. |
| `Socks5.ClientWaitsIff` | proxy/upstream.go:187-251 | The client likewise. |
| `DnsCache.KeysNeverCollide` | dns/resolver.go:167-168 | Two questions have the same cache key only if domain and type are equal, whatever colons and digits the domain has. |
| `DnsCache.DecimalIsNumber` | dns/resolver.go:167 | The type in a key is written in decimal, without leading zeros. |
| `DnsCache.ReparsedIsSame` | dns/resolver.go:169-183 | An address stored as text and parsed again is the same address. |
| `DnsCache.Cache.Cleanup` | dns/cache.go:53-65 | Deleting while iterating, in any order, leaves exactly the entries not yet expired. |
| `DnsCache.CacheResolver.Resolve` | dns/resolver.go:166-185 | A live entry is returned and nothing changes; otherwise the inner answer is returned and stored unless it is an error. |
| `DnsCache.StepKeepsInv` | dns/resolver.go:166-185 | With any number of resolutions in flight, the cache holds nothing but the latest success of each question, and all of those still alive. |
| `DnsCache.ResolveReturnsFreshOrInner` | dns/resolver.go:166-185 | In every run a call returns the inner answer of now or the last success for exactly its question, at most one ttl old, and asks the inner resolver only when no such answer is alive. |
| `DnsCache.LogIsTheSteps` | dns/resolver.go:175-183 | The recorded successes are exactly the inner resolver's answers that were no errors, in order. |
| `DnsCache.WaitingIsAsked` | dns/resolver.go:166-175 | What a waiting call stores its answer for is the question it asked. |
| `DnsCache.CleanupLeavesTheLive` | dns/cache.go:53-65 | In every run a cleanup leaves exactly the latest successes no older than the lifetime. |
| `DnsCache.StepsAreResolve` | dns/resolver.go:166-185 | The steps of a call run alone do what the Resolve method does. |
| `DnsCache.CleanupIsInvisible` | dns/cache.go:53-65 | Leaving every cleanup out of a run changes no result of any lookup. |
| `Groups.GetIgnoresCase` | proxy/registry.go:27-35 | Lookups do not see letter case. |
| `Groups.BuiltIns` | proxy/registry.go:27-35 | "direct" and "reject" in any case are the built-in proxies, whatever is registered; every other name is looked up in lower case. |
| `Groups.RegisteredIsFound` | proxy/registry.go:21-35 | What is registered is found under its name in any case until it is taken out, and other names are not touched. |
| `Groups.Registry.SetChoice` | proxy/selector.go:35-44 | A name that resolves to nothing is refused; otherwise the stored lower-case name resolves to the same proxy. |
| `Groups.Registry.Connect` | proxy/selector.go:46-55 | On an acyclic graph Connect ends, dials exactly the depth-first leaf sequence up to the first success, and returns that leaf. |
| `Groups.Registry.ConnectFailover` | proxy/failover_group.go:33-56 | A failover group dials the leaves of its members in order up to the first success; a name that does not resolve is passed over. |
| `Groups.FirstSuccessIsUnique` | proxy/failover_group.go:40-51 | "Up to the first success" determines both the dials and the result. |
| `Groups.FirstSuccessIs` | proxy/failover_group.go:40-51 | The dials go down the list to the first proxy that is not REJECT and is up, which is the result; with none, all are dialed and there is no connection. |
| `Groups.RejectNeverConnects` | proxy/registry.go:132-137 | REJECT never connects, alone or through any group. |
| `Groups.FallThrough` | proxy/failover_group.go:40-51 | Failing all of one list and then stopping somewhere in the next is stopping there in the two together. |
| `Groups.FlattenIgnoresRank` | proxy/failover_group.go:33-56 | The leaf sequence depends on the graph alone, not on the rank that shows it acyclic. |
| `Groups.FlattenOne` | proxy/selector.go:46-55 | A proxy stands for itself, an unknown name for nothing, a selector for its choice. |
| `Groups.FlattenSplits` | proxy/failover_group.go:40-51 | The members of a failover group come one after the other. |
| `Groups.FlattenOfLeaves` | proxy/failover_group.go:40-51 | A failover group of plain proxies is those proxies in the order listed. |
| `Groups.SetChoiceKeepsAcyclicIff` | proxy/selector.go:35-44 | In a graph that has a rank, a new choice leaves one that has a rank, so that Connect terminates, if and only if it is built in or cannot itself reach the selector. |
| `Stunvpv.AddrField` | stunvpv/server.go:325-332 | The field is the normalised address, or 16 zero bytes for one that is neither IPv4 nor IPv6. |
| `Stunvpv.FillHead` | stunvpv/server.go:334-337 | After the first writes the buffer holds type, length, address and four bytes never written. |
| `Stunvpv.MakeControlMessage` | stunvpv/server.go:324-341 | Filling the zeroed buffer leaves exactly the message's encoding. |
| `Stunvpv.ReadControl` | stunvpv/server.go:162-182 | The checks and slices compute the decoding function on any bytes and never index outside them. |
| `Stunvpv.DecodeCutControl` | stunvpv/client.go:176-197 | A message cut short or with bytes after it is rejected only inside its header; otherwise its payload is what is there, up to the declared length. |
| `Stunvpv.DecodeEncodeControl` | stunvpv/server.go:162-182 | A whole message gives back type, normalised address and the payload cut to its length modulo 65536. |
| `Stunvpv.ControlLayout` | stunvpv/server.go:324-341 | Every field of a control message stands where the format has it, with four unused bytes in front of the length. |
| `Stunvpv.ControlIsStunIff` | stunvpv/server.go:130-138 | A control message is taken for STUN if and only if its address travels as 16 bytes with the magic cookie in bytes 2 to 5; never for IPv4, nil or unspecified addresses. |
| `Stunvpv.IsStunIff` | stunvpv/server.go:130-138 | A datagram is for STUN if and only if it has at least 20 bytes and the magic cookie in bytes 4 to 7. |
| `Stunvpv.IsUnspecifiedIff` | stunvpv/server.go:191-200 | The unspecified addresses are 0.0.0.0 in its two forms and ::. |
| `Stunvpv.Server.HandleRegister` | stunvpv/server.go:191-224 | The sender is entered under the address it named, or the lowest free one of the pool, told the table it is now in, and a broadcast that leaves it out is started; with the pool empty nothing happens. |
| `Stunvpv.Server.BroadcastPeerList` | stunvpv/server.go:232-250 | Every peer at another virtual address, and nobody else, is sent the whole table in some order. |
| `Stunvpv.Server.HandleRelayData` | stunvpv/server.go:252-279 | The payload goes to the peer registered under the destination, from the sender's indexed address, when both are known, and nowhere otherwise. |
| `Stunvpv.Server.HandlePacket` | stunvpv/server.go:130-189 | STUN goes to STUN, unreadable messages are ignored, registrations and data have their effects, and nothing else changes the tables. |
| `Stunvpv.Client.HandlePacket` | stunvpv/client.go:176-225 | Exactly data messages reach the callback, with their source and payload, and exactly peer lists are merged into the client's own table. |
| `Stunvpv.Client.FinishRegister` | stunvpv/client.go:137-173 | A whole ack sets the virtual IP and merges its list; any other answer is an error or, cut short, a panic, and changes nothing that lives on. |
| `Stunvpv.RegistrationOutcome` | stunvpv/server.go:191-214 | A registration enters the sender under the address it named, the pool as it was, or under an unused pool address, now used; nothing else changes, and it goes unanswered if and only if it named none and the pool is used up. |
| `Stunvpv.AckIsRead` | stunvpv/client.go:137-173 | The server's answer, as the client reads it: the client gets the address it was entered under, and every other peer of the server's table, as long as that fits one message. |
| `Stunvpv.BroadcastIsListed` | stunvpv/client.go:207-219 | A client that reads a broadcast comes to have every peer of the server's table but itself, and otherwise what it had. |
| `Stunvpv.BroadcastReaches` | stunvpv/server.go:232-250 | Every peer but the one left out is sent a message. |
| `Stunvpv.DataIsDelivered` | stunvpv/client.go:199-225 | A data message, and no other, reaches the callback, with its source and its payload. |
| `Stunvpv.OthersListNothing` | stunvpv/client.go:199-219 | Other messages, and a list cut in its count, leave the client's table alone. |
| `Stunvpv.CutAckIs` | stunvpv/client.go:137-158 | An answer that is cut or of another kind is refused inside its first eight bytes, makes register panic inside the rest of its header, and is otherwise read as far as it goes. |
| `Stunvpv.PayloadArrivesIff` | stunvpv/server.go:252-279 | SendTo, server and callback together: the payload reaches the destination's peer with the sender's indexed address if and only if both are registered and the destination does not carry the magic cookie; it is unchanged if and only if shorter than 65536 bytes. |
| `Stunvpv.Ipv4PayloadArrives` | stunvpv/client.go:227-231 | For an IPv4 destination registration of the two ends is enough. |
| `Stunvpv.NewClientIsConnected` | stunvpv/server.go:191-279 | After a registration every client in the index can send to the new one, and the new one to every peer, unless an address carries the magic cookie. |
| `Stunvpv.SweepSilencesIff` | stunvpv/server.go:309-322 | A payload to a live peer that arrived before a sweep arrives after it if and only if its sender has no stale lease at its address. |
| `Stunvpv.RestartedClientIsSilenced` | stunvpv/server.go:309-322 | A client that registered twice from one address and refreshes the second lease loses its index entry when the first one expires. |
| `StunvpvRelay.StepKeepsInv` | stunvpv/server.go:130-322 | Every step of clients (STUN binding requests included), server goroutines and network keeps each relayed message explained by a SendTo and two registrations. |
| `StunvpvRelay.PastIsTheSteps` | stunvpv/server.go:191-224 | The recorded history is exactly the SendTo calls and table entries among the steps. |
| `StunvpvRelay.RegisterStepsAreHandleRegister` | stunvpv/server.go:191-224 | A registration's two steps run alone do what the HandleRegister method does, and send its ack. |
| `StunvpvRelay.RelayStepsAreHandleRelayData` | stunvpv/server.go:252-279 | The two steps of relaying run alone send what the HandleRelayData method does. |
| `StunvpvRelay.PayloadGoesThrough` | stunvpv/server.go:252-279 | From any state the invariant allows, a payload from a client in the index to a registered address can go all the way, and arrives unchanged with the sender's address. |
| `StunvpvRelay.RegistrationGoesThrough` | stunvpv/server.go:191-224 | While the pool has an address, a client that names none can register: it is entered under an unused pool address, seen now, and sent an ack that gives it that address. |
| `StunvpvRelay.BroadcastGoesThrough` | stunvpv/server.go:232-250 | A registered client can be sent a peer list, to where it registered from. |
| `StunvpvRelay.BindingGoesThrough` | stunvpv/server.go:140-160 | A binding request is answered to where it came from, and touches no table. |
| `StunvpvRelay.SweepGoesThrough` | stunvpv/server.go:309-322 | At any later moment the server can sweep, and exactly the clients unseen for more than five minutes and their index entries go. |
| `StunvpvRelay.DeliveredWasSent` | stunvpv/client.go:176-231 | In every run, whatever a callback is given was passed to SendTo before, unchanged, for an address under which the receiver was entered, comes with an address under which the caller was entered, and was not sent to an unspecified address. |
| `StunvpvRelay.ReachableIndexIsValid` | stunvpv/server.go:252-279 | In every reachable state each index entry parses back to its address, so the end-to-end theorem applies. |

## Left out

- Sockets, WinDivert, TUN devices, TLS, files, clocks and goroutine scheduling: a datagram is a value in a set, a stream is a sequence of bytes, a dial succeeds or fails as a parameter says.
- Cryptography: n2n encryption is the identity; the other ciphers of the repository are not touched.
- n2n: a datagram that does not decrypt is dropped before anything modelled here; `unmarshalRegisterPayload` on malformed bytes is modelled as far as the panic it causes. Real addresses are texts; resolving them is a parameter of `Edge.SendTo`.
- N2nEdge.AckTeachesNothing: states the case of addresses under 256 bytes and fewer than 256 peers, which every reachable supernode satisfies; beyond it the two-byte length would wrap as well.
- The NAT table's packets: checksums, reinjection and `parseV6Flow`. `rewriteUDP` and `captureOnlyV6` are one method, their table code being the same.
- Client-port identity in the NAT: properties are stated over flow keys, since the key keeps one byte of the port.
- FakeDNS `AddStatic`, which overwrites the forward map and breaks the inverse on purpose.
- socat after cancellation: `closeAll` and the races around it. Statistics and messages to the terminal.
- SOCKS5: the second client in `proxy/socks5.go`, whose request reads another number of reply bytes; address texts (an IPv4 or IPv6 address is kept as its bytes), and splitting a target into host and port.
- The NAT's rewritten packet is modelled as the port it gets: its two addresses and its destination port are always those of the listener on loopback.
- Proxy groups other than failover and selector (URL test, round robin, load balance, chains). Names are ASCII, so case folding is too. `SetChoice` during a running `Connect` is not modelled: a call sees one graph. The check for an empty failover group and the default choice of a selector are left to the caller who registers them.
- stunvpv: contents of STUN requests and answers, what resolving a peer's address gives the client (it keeps the text here, and only shows it to the user), `handleBye` (nothing calls it), and uniqueness of leases: an address named by a client is accepted without being marked in the pool. Peer-list payloads are any bytes in a run. `cleanup` is the supernode's, so its loop is not repeated.
- StunvpvRelay.DeliveredWasSent: says "was entered", not "is entered now": between the two halves of a relay the tables may change, and the code does not look again.
- DNS wire parsing, resolvers other than the caching one, and the refresh of expired entries, which does not exist.
- The terminal UI, the LLM client, configuration, the command line, system proxy settings, the dashboard, the frp and UUID codecs, the SOCKS5 UDP header, version comparison and port-range matching.
