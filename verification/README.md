# Volter, verified

A Dafny model of the stateful and wire-facing parts of Volter, a VPN client and server with a peer-to-peer relay
mesh, with machine-checked proofs of what those parts are for. Each module follows one component:

| modules | component |
|---|---|
| `XorMetric`, `RoutingTable`, `TableHistory`, `CapHistories` | the Kademlia contact table: a map and 256 buckets, trimmed to 20 each and 2048 in all |
| `ChunkTransport`, `ChunkRuns`, `PeerRelay`, `PeerMessages` | messages cut into numbered datagrams; the relay that keeps one assembler and at most one session per address under a semaphore; what its sessions are given |
| `HelloCodec`, `Handshake`, `HandshakeRuns`, `TimeSlots`, `ReplayCache`, `RecordStream`, `RecordReader`, `RecordExpiry` | the dexote channel: handshake, runs of handshakes with their cache, slot window, replay cache, padded record stream |
| `Wire`, `WireHandshake`, `HelloCaps`, `HopAcks`, `UdpFrames` | the protocol codecs |
| `Stun` | STUN attributes and the two response parsers |
| `RouteHops`, `OptionScan`, `RouteRelays`, `RouteChains`, `RouteExits`, `RouteAcks` | route planning and its encoding; how options cross from writer to reader; the Go and the Java relay; whole chains, where they end and what of their acknowledgements reaches the client |
| `ByteBucket`, `PathManager`, `PathRuns`, `PathChoices`, `Gossip`, `GossipWinners` | token bucket, path statistics with their sweep and decisions, gossip merge |
| `Bytes`, `Collections`, `Text`, `Discovery` | octets, options and results, white-space trimming, relay descriptions |

Objects that the program updates in place are classes, and its loops are loops; each such method is proved equal to a
function (or to a relation where the program iterates over a map in no particular order), and the lemmas then speak
about that function over all inputs, runs and interleavings. `dafny verify dfyconfig.toml` checks everything.

Conventions. Octets are integers 0 to 255; exclusive or is defined on their bits (`Bytes.XorDigits`), and integers stand in network order (`Bytes.NetworkOrder`). Cryptographic primitives, clock
readings, random draws, the hash and the order of datagrams are parameters; what is assumed of the primitives is
stated in the predicates named `Sound` (Diffie-Hellman commutes, open inverts seal for the same key, nonce and
associated data, sealing adds 16 octets, signatures check under the token that made them) and in `Space.Metric` (bucket
and rank are computed from the hash). That these can be met is proved too (`Handshake.AgreementHasInstances`,
`Handshake.SomeHkdfTellsLabelsApart`,
`RecordStream.SomeCipherIsSound`, `RouteRelays.SomeSignerIsSound`, `RoutingTable.SpaceOf`). Times in `ByteBucket` and rates in `PathManager` are exact reals. A critical
section guarded by a lock is one step, and runs are arbitrary interleavings of such steps.

## What turned out not to hold, and exactly when it does

- The nearest-20 guarantee of the routing table fails at the very moment the global cap fires and holds throughout a history exactly when it never fires (`TableHistory.NearestThroughoutIffNoCap`). Over any history that is exactly while the contacts accepted, at most 20 of each bucket counted, are no more than 2048 (`CapHistories.SilentIffWithinCap`); a history of 2049 offers that makes it fire exists for every node (`CapHistories.CapIsReached`).
- The replay check reads the clock twice. If it ticks between the two readings a hello can be accepted a second time after 180 seconds (`ReplayCache.TickBetweenReadingsAdmitsReplay`); with one reading per handshake it cannot (`NoReplay`), and `AcceptedIff` gives the exact decision for any readings.
- Slot churn: with the same epoch on both ends a server covers clients within 120 seconds exactly when the epoch is a multiple of 120 seconds or churn is off (`TimeSlots.CoveredIff`). The Java server, however, always counts epoch 0 while the client counts the configured one; then the client is covered exactly while its clock is below one epoch (`TimeSlots.ChurningClientCoveredIff`), so with today's clocks never. Churn on a client is not usable against this server.
- The UDP frame writer has no size check although the reader has one: a frame reads back exactly when it is within 65600 octets (`UdpFrames.FrameRoundTrip`). A hop acknowledgement reads back exactly when its three strings fit 16-bit lengths (`HopAcks.HopAckRoundTrip`). Handshake options beyond 2048 octets are dropped without an error (`WireHandshake.OptionsSurviveIff`).
- The assembler takes a non-empty slot for a filled one, so empty chunks are counted again and again (`ChunkTransport.EmptyChunkCountsTwice`). Reassembly is right, in every order with any repeats, exactly for a single piece or for pieces none of which is empty (`ChunkRuns.ReassemblesIff`), which is all the writer emits.
- Chunks carry no message identity. A message that arrives after part of another one is reported intact exactly when, with equal chunk counts, the chunks left over are its own too, or, with different counts, it is complete without its first datagram (`ChunkRuns.LeftoverSurvivesIff`).
- Routes may be planned with any mix of hops, but UDP hops are served by the Go relay, which refuses from its third hop on, and TCP and QUIC hops by the Java server, which refuses from its fifth on and hands on to TCP hops only (`RouteExits.PassableIff`).
- The Java server scans the hop list by itself: it ends the list at the first closing bracket and undoes no escapes, so a list arrives unchanged exactly when no entry holds a closing bracket, a character the writer escapes, or blanks at an end (`OptionScan.ListArrivesIff`). `RouteChains.RouteRuns` follows whatever the relays read, for any addresses. With addresses that need no escaping, the planned last peer reaches the target exactly when kinds and limits allow it and either Go relays serve all hops but the last or no entry holds a closing bracket (`RouteExits.LastPeerDeliversIff`); with bracketed IPv6 addresses the first Java relay reaches the target by itself (`BracketsCutTheRoute`).
- Java relays acknowledge always and never read the acknowledgement of the next hop. The client reads exactly what the target sends if and only if at most one relay visited is a Java relay and, if there is one, acknowledgements were asked for (`RouteAcks.CleanStreamIff`); otherwise acknowledgements arrive as data.
- The second hop check of the Go relay is never reached with an excess (`RouteRelays.SecondLimitIsIdle`).
- A shaped sender sleeps whole nanoseconds, so even in exact arithmetic one sleep is enough exactly when the missing tokens take at most a millisecond or a whole number of nanoseconds (`ByteBucket.OneSleepIff`); one byte at 3 kbit/s takes two (`OneSleepCanFail`), and two are always enough. A request beyond the burst is never granted (`GrantableIffWithinBurst`).
- TCP memory of the path manager outlives its path exactly when the path is swept away while a failing decision on it, with the lock given up, looks for peers in vain (`PathRuns.TiedThroughoutIff`, with an instance in `MemoryCanBeOrphaned`); without overlapping calls it never does.
- A deadline that passes during a read is harmless, under every cipher and for everything read later, exactly when the blocked call had taken no octet of a record (`RecordExpiry.ExpiryHarmlessIff`); an instance of the harm is a body taken for a length record (`RecordReader.ExpiryInsideFrameBreaks`).
- The result of a gossip round is independent of order exactly when no two kept newest descriptions of one ID tie (`Gossip.OrderFreeIffNoTies`).

## Model

| member | source | states |
|---|---|---|
| `XorMetric.ComputeXorDist` | internal/dht/table.go:38-43 | the octet loop computes the XOR distance |
| `XorMetric.DistanceDigits` | internal/dht/table.go:38-43 | each of the 256 binary digits of a distance is 1 exactly when the digits of the two identifiers differ |
| `XorMetric.ZeroDistanceIff` | internal/dht/table.go:38-43 | the distance is zero if and only if the identifiers are the same |
| `Bytes.XorDigits` | internal/dht/table.go:40 | the same, octet by octet, which is what key masking and STUN addresses rest on too |
| `Bytes.NetworkOrder` | internal/peertransport/vp02.go:57-66 | integers are written with the most significant octet first |
| `XorMetric.DistLess` | internal/dht/table.go:45-52 | the octet loop decides exactly whether one distance, read as a 256-bit number, is smaller |
| `XorMetric.LessIsNumeric` | internal/dht/table.go:45-52 | octet order is numeric order and equal numbers are equal digests, so `distLess` is a strict total order |
| `XorMetric.XorLeadingBitIdx` | internal/dht/kbucket.go:7-14 | the loop finds the first differing bit, 255 for identical identifiers |
| `XorMetric.BucketIsLogDistance` | internal/dht/kbucket.go:7-14 | bucket b holds exactly the distances from 2^(255-b) up to 2^(256-b), and 0 falls into 255 |
| `XorMetric.HigherBucketIsCloser` | internal/dht/kbucket.go:7-14 | a strictly higher bucket means a strictly smaller distance |
| `Discovery.RelayHasContact` | internal/discovery/discovery.go:27-36 | true exactly when some endpoint or address field is not blank |
| `RoutingTable.Table.constructor` | internal/dht/table.go:26-32 | a new table is empty and consistent |
| `RoutingTable.Table.DropContact` | internal/dht/table.go:116-130 | exactly the contact leaves both the map and its bucket, and map and buckets still agree |
| `RoutingTable.Table.TrimBucket` | internal/dht/table.go:96-114 | terminates with the bucket holding its 20 nearest and every other bucket untouched |
| `RoutingTable.Table.EvictOneFarthest` | internal/dht/table.go:138-154 | exactly one contact goes, one at the greatest distance; the empty ID never stands in for it |
| `RoutingTable.Table.EnforceCap` | internal/dht/table.go:86-88 | the cap loop terminates with the 2048 nearest contacts |
| `RoutingTable.Table.Insert` | internal/dht/table.go:58-89 | keeps map and buckets consistent within 20 and 2048, and does what `Inserted` says: ignore, refresh in place, or place, trim and cap |
| `RoutingTable.Table.Merge` | internal/dht/table.go:132-136 | a merge is the history of its inserts, every intermediate table being consistent |
| `RoutingTable.Table.NearestTo` | internal/dht/table.go:183-208 | min(k, size) distinct stored contacts, nearest first, none omitted that is closer; a contact whose hash is the target comes first |
| `RoutingTable.ListsHasNoRepeats` | internal/dht/table.go:58-130 | the way buckets are said to list their contacts is the same as: exactly those, none twice |
| `RoutingTable.DropFarthest` | internal/dht/table.go:96-114 | dropping a farthest of the k nearest leaves the k-1 nearest |
| `TableHistory.NewcomerKeepsNearest` | internal/dht/table.go:96-114 | the streaming step: nearest k of what was kept and a newcomer are the nearest k of all ever seen, even if the newcomer was evicted before |
| `TableHistory.OfferKeepsNearest` | internal/dht/table.go:58-114 | an offer on which the cap does not fire keeps every bucket at the nearest 20 of everything accepted |
| `TableHistory.CapBreaksNearest` | internal/dht/table.go:86-88 | when the cap fires, the bucket it takes from falls short |
| `TableHistory.NearestThroughoutIffNoCap` | internal/dht/table.go:58-114 | over a whole history: nearest 20 at every moment if and only if the cap never fires |
| `TableHistory.PresentIsLatest` | internal/dht/table.go:77-80 | a contact present carries the description offered last, through evictions and returns |
| `TableHistory.OrderIndependent` | internal/dht/table.go:58-114 | two cap-free histories that accepted the same contacts keep the same contacts, whatever the order and repeats |
| `TableHistory.EvictsFromLowestBucket` | internal/dht/table.go:138-154 | global eviction takes from the lowest bucket in use |
| `CapHistories.SilentIffWithinCap` | internal/dht/table.go:58-89 | over any history, the cap stays silent if and only if the contacts accepted, at most 20 of each bucket counted, are no more than 2048 |
| `CapHistories.HistoryOf` | internal/dht/table.go:58-136 | any offers whatever lead an empty table through some history |
| `CapHistories.CapIsReached` | internal/dht/table.go:86-88 | for every own identifier there are a hash without collisions and 2049 offers on the last of which the cap fires and breaks the nearest-20 guarantee |
| `ChunkTransport.ChunkRoundTrip` | internal/peertransport/vp02.go:57-113 | every chunk a writer can send is decoded to itself |
| `ChunkTransport.DecodesIff` | internal/peertransport/vp02.go:88-113 | a datagram is taken for a chunk if and only if it starts with that chunk as a writer can send it |
| `ChunkTransport.MalformedResets` | internal/peertransport/vp02.go:88-113 | any other datagram leaves the assembler empty, whatever it held |
| `ChunkTransport.FitsExactly` | internal/peertransport/vp02.go:43-51 | the writer accepts exactly messages of 1 to 1200*2048 octets |
| `ChunkTransport.WriteMessage` | internal/peertransport/vp02.go:43-70 | the offset loop sends the numbered pieces, or nothing |
| `ChunkTransport.PiecesMakeTheMessage` | internal/peertransport/vp02.go:53-68 | the pieces concatenate to the message; each holds 1 to 1200 octets |
| `ChunkTransport.Assembler.Feed` | internal/peertransport/vp02.go:88-132 | one datagram changes the fields and yields a message as `Fed` says, every malformed datagram resetting |
| `ChunkTransport.FedStaysTidy` | internal/peertransport/vp02.go:78-132 | whatever arrives, the assembler is empty or in progress, and empty after a message |
| `ChunkTransport.OneDelivery` | internal/peertransport/vp02.go:114-131 | a repeat changes nothing, a new chunk is kept, the last missing one yields the message |
| `ChunkTransport.Reassembly` | internal/peertransport/vp02.go:43-132 | any order, any repeats: silence until the last missing chunk, then the original message and an empty assembler |
| `ChunkTransport.CountIsFilledIff` | internal/peertransport/vp02.go:118-122 | the step behind it: storing a chunk keeps the counter at the number of filled slots exactly when the payload is not empty |
| `ChunkTransport.EmptyChunkCountsTwice` | internal/peertransport/vp02.go:118-131 | two copies of an empty chunk report a message that never arrived |
| `ChunkRuns.ReassemblesIff` | internal/peertransport/vp02.go:88-132 | for any pieces, empty ones included: every order with repeats is silent until complete and then yields them in a row, if and only if there is one piece or none is empty |
| `ChunkRuns.LeftoverSurvivesIff` | internal/peertransport/vp02.go:101-131 | after part of an earlier message, in any order with repeats, the first report is the new message if and only if the chunks left over are its own too (equal counts) or it is complete without its first datagram (different counts) |
| `ChunkTransport.UdpPeerConn.ReadMessage` | internal/peertransport/vp02.go:134-148 | feeds datagrams up to the one that completes a message and no further |
| `ChunkTransport.UdpPeerConn.Read` | internal/tunnel/peer_udp.go:27-46 | hands over min(n, pending) octets; what is handed over and what stays pending are together what was pending, or the next message |
| `PeerRelay.PeerUDPRelay.Dispatch` | internal/tunnel/peer_udp_listener.go:140-194 | one datagram under the lock does what `Dispatched` says and keeps the relay's invariant; overflow names the session to close |
| `PeerRelay.PeerUDPRelay.CloseSession` | internal/tunnel/peer_udp_listener.go:387-402 | closes once, gives back exactly one token, keeps the invariant |
| `PeerRelay.PeerUDPRelay.Read` | internal/tunnel/peer_udp_listener.go:349-371 | hands octets over in order, touches no other session, blocks only when everything accepted was read, ends only after closing, and hands over some octet whenever there is one |
| `PeerRelay.NextKeepsInv` | internal/tunnel/peer_udp_listener.go:140-402 | every dispatch, close and read step keeps the invariant from any state that has it |
| `PeerRelay.TokensMatchSessions` | internal/tunnel/peer_udp_listener.go:140-194 | in every interleaving: tokens held equal entries with a session and stay within the limit, idle entries are assembling, no send on a closed channel |
| `PeerRelay.OneTokenPerSession` | internal/tunnel/peer_udp_listener.go:387-402 | in every interleaving a session gives back one token, when closed, and two open sessions never share an address |
| `PeerRelay.ReaderSeesPrefix` | internal/tunnel/peer_udp_listener.go:349-371 | in every interleaving the reader has a prefix of what was accepted for the session |
| `PeerMessages.AsmIsFed` | internal/tunnel/peer_udp_listener.go:140-163 | in every interleaving the assembler kept for an address is one fed with the datagrams from it since its last session was closed |
| `PeerMessages.AcceptedIsTaken` | internal/tunnel/peer_udp_listener.go:140-194 | in every interleaving a session has accepted exactly the messages its address completed from the one that opened it until it was closed, in order, except those that met a full inbox |
| `PeerMessages.OpensIff` | internal/tunnel/peer_udp_listener.go:159-182 | a session is opened if and only if a message is completed by an address without an open one while a token is free |
| `PeerMessages.FirstMessageArrives` | internal/tunnel/peer_udp_listener.go:168-182 | the chunks of p in any order with any repeats, whatever else happens in between, open a session whose first read with room for it returns just p |
| `PeerMessages.NextMessageArrives` | internal/tunnel/peer_udp_listener.go:183-189 | with a session open, p joins what was accepted for it unless its inbox is full |
| `HelloCodec.ParseClientPlaintext` | internal/dexote/handshake.go:276-292 | the cursor-driven parser computes `ParseClient`, errors included |
| `HelloCodec.ParseServerPlaintext` | internal/dexote/handshake.go:304-313 | the cursor-driven parser computes `ParseServer`, errors included |
| `HelloCodec.Cursor.U8` | internal/dexote/handshake.go:327-335 | reads one octet or sets the error for good |
| `HelloCodec.Cursor.N` | internal/dexote/handshake.go:337-345 | reads n octets or sets the error and yields zeros |
| `HelloCodec.Cursor.LenPrefixed` | internal/dexote/handshake.go:347-355 | reads a 16-bit length and that many octets |
| `HelloCodec.ClientRoundTrip` | internal/dexote/handshake.go:259-292 | role, token, options, nonce and time come back if and only if token and options fit 16-bit lengths |
| `HelloCodec.ClientParsesIff` | internal/dexote/handshake.go:276-292 | a plaintext is taken for a hello if and only if it is laid out as one of version 1, with any pad and anything behind it |
| `HelloCodec.ServerParsesIff` | internal/dexote/handshake.go:304-313 | the same for the server's reply |
| `HelloCodec.ServerRoundTrip` | internal/dexote/handshake.go:294-313 | nonce and capabilities come back if and only if the capabilities fit a 16-bit length |
| `Handshake.MaskPub` | internal/dexote/dexote.go:57-64 | the masking loop is XOR with the slot's key stream |
| `Handshake.UnmaskUndoesMask` | internal/dexote/dexote.go:57-68 | unmasking recovers the public key |
| `Handshake.KeysAreApart` | internal/dexote/handshake.go:41-54 | when HKDF tells labels apart, the four keys and the secret of a session are five different values |
| `Handshake.ClientHandshake` | internal/dexote/handshake.go:99-173 | writes exactly the hello, then turns exactly the reply into keys; every failure as in the two specification functions |
| `Handshake.ServerHandshake` | internal/dexote/handshake.go:175-251 | reads a hello, judges it with the cache, writes exactly the reply; nothing is written on failure, and the cache is left as `ServerSeen` says in every case |
| `Handshake.TrySlots` | server/src/main/java/dev/c0redev/volter/Dexote.java:312-321 | the loop finds the first candidate slot whose MAC matches, or none when none does |
| `Handshake.FindsTheSlot` | server/src/main/java/dev/c0redev/volter/Dexote.java:312-321 | the client's slot is found wherever it stands among the candidates |
| `Handshake.HelloNeverWraps` | internal/dexote/handshake.go:124-126 | the 8192-octet limit keeps every 16-bit length of a sent hello from wrapping |
| `Handshake.ServerAccepts` | internal/dexote/handshake.go:175-251 | a genuine hello within 90 seconds whose nonce the cache no longer or never held yields the client's role, token and options and a reply; any other yields exactly the replay refusal |
| `Handshake.ClientCompletes` | internal/dexote/handshake.go:142-173 | a genuine reply of any size completes the client, with everything behind it left over, if and only if its ciphertext is within 8192 octets |
| `Handshake.KeyAgreement` | internal/dexote/handshake.go:41-54 | slots worked out within 120 seconds of each other and a timestamp within 90 of its check: a whole run ends with the same secret, the four keys swapped, the payload recovered and nothing consumed beyond the handshake |
| `Handshake.AgreementHasInstances` | internal/dexote/handshake.go:41-54 | at any ordinary time there are primitives and draws that meet every assumption of the agreement |
| `HandshakeRuns.LetInIff` | internal/dexote/handshake.go:175-219 | over any run of handshakes that keeps its cache, whatever arrives: a hello that opens is let in if and only if its timestamp is within 90 seconds and its nonce was not let in within the last 180 |
| `HandshakeRuns.GenuineAnsweredIff` | internal/dexote/handshake.go:175-251 | a client's genuine hello is answered, with its payload recovered, under exactly that condition, and else refused as a replay |
| `HandshakeRuns.NeverTwice` | internal/dexote/handshake.go:213-219 | no nonce with its timestamp is let in twice, if the second handshake reads the same second for both checks |
| `HandshakeRuns.WithoutCache` | internal/dexote/handshake.go:214-217 | without a cache the 90-second window alone decides |
| `TimeSlots.CoveredWithoutChurn` | server/src/main/java/dev/c0redev/volter/Dexote.java:55-74 | without churn a client within 120 seconds of the server, at any time, uses a slot the server tries |
| `TimeSlots.MisalignedEpochMisses` | server/src/main/java/dev/c0redev/volter/Dexote.java:61-66 | an epoch that is no multiple of 120 leaves out a client one second ahead |
| `TimeSlots.CoveredIff` | server/src/main/java/dev/c0redev/volter/Dexote.java:55-74 | with one epoch on both ends, slots are covered at all times if and only if churn is off or the epoch is a multiple of 120 |
| `TimeSlots.ChurningClientCoveredIff` | server/src/main/java/dev/c0redev/volter/ConnectionHandler.java:84-88 | a client counting epochs against the server's epoch 0 is covered if and only if churn is off or its clock is below one epoch |
| `ReplayCache.MemReplayCache.Add` | internal/dexote/keys.go:56-72 | the purge loop drops exactly the expired nonces, then adds or refuses |
| `ReplayCache.CacheIsRecentAcceptances` | internal/dexote/keys.go:56-72 | the cache knows exactly the nonces accepted within the retention time |
| `ReplayCache.AcceptedIff` | internal/dexote/handshake.go:213-219 | on the cache alone, over any run: accepted if and only if timely and the nonce was not accepted in the last 180 seconds |
| `ReplayCache.NoReplay` | internal/dexote/handshake.go:213-219 | on the cache alone: with one clock second per handshake no hello is accepted twice |
| `ReplayCache.TickBetweenReadingsAdmitsReplay` | internal/dexote/keys.go:56-72 | a tick between the two readings lets a replay through |
| `RecordStream.NonceReuseIff` | internal/obfuscate/aead.go:32-36 | two counters give the same nonce exactly when they agree modulo 2^64 |
| `RecordStream.FreshNoncesIff` | internal/obfuscate/aead.go:32-36 | n frames use n different nonces if and only if n is at most 2^64 |
| `RecordStream.JavaPadIsGoPad` | server/src/main/java/dev/c0redev/volter/AeadStream.java:61-78 | the Java writer's pad equals the Go writer's |
| `RecordStream.FrameReads` | internal/obfuscate/aead.go:117-198 | the reader accepts every frame either writer makes and takes exactly that frame |
| `RecordStream.PartialFrameWaits` | internal/obfuscate/aead.go:164-185 | a part of a frame is never taken for a frame |
| `RecordStream.GotIff` | internal/obfuscate/aead.go:164-198 | of whatever arrives a payload is accepted if and only if both records open under the keys and counters of this frame, announcing 18 to 17426 octets and holding that payload |
| `RecordStream.WaitsIff` | internal/obfuscate/aead.go:164-185 | the reader waits if and only if the length record, or the rest of what a genuine one announces, has not arrived |
| `RecordStream.RecordsCarryAll` | internal/obfuscate/aead.go:80-100 | however a buffer is cut, the frames carry all of it in order |
| `RecordStream.Sender.WriteFrame` | internal/obfuscate/aead.go:117-145 | one frame, both counters advanced by one |
| `RecordStream.Sender.Write` | internal/obfuscate/aead.go:80-100 | the loop sends the frames of the whole buffer and advances the counters by their number |
| `RecordStream.StreamIsFaithful` | internal/obfuscate/aead.go:80-198 | over every run of writes, pads, deliveries and reads of whole frames: no failure, bytes read are a prefix of bytes written, counters in lockstep |
| `RecordStream.ReadsMakeProgress` | internal/obfuscate/aead.go:147-198 | once everything has arrived, each read delivers something until all is read |
| `RecordReader.Receiver.ReadFrame` | internal/obfuscate/aead.go:164-198 | header and body leave the connection as they arrive and the counters advance one after the other, as `Pumped` says, every refusal included |
| `RecordReader.Receiver.Read` | internal/obfuscate/aead.go:147-162 | leftovers first, then one frame, the rest of it kept |
| `RecordReader.PumpingIsReading` | internal/obfuscate/aead.go:164-198 | however a frame's octets arrive, the outcome is that of reading them in one piece |
| `RecordReader.BlockingIsFaithful` | internal/obfuscate/aead.go:80-198 | over every run in which calls block anywhere in a frame and deadlines pass between frames: no failure, a prefix is read, only a call waiting for a body has its length counter ahead |
| `RecordReader.BlockedCallReturns` | internal/obfuscate/aead.go:147-198 | once everything sent has arrived, a call returns octets wherever it was blocked, until all is read |
| `RecordReader.Receiver.TimeOut` | internal/obfuscate/aead.go:168-182 | a deadline leaves counters and leftovers and loses what the blocked call had taken |
| `RecordExpiry.HeldIsShape` | internal/obfuscate/aead.go:164-198 | how many octets a blocked call holds follows from what was written, arrived and asked for, whatever cipher and keys |
| `RecordExpiry.ExpiryHarmlessIff` | internal/obfuscate/aead.go:164-198 | after any run with deadlines between records only, one more deadline leaves every later expiry-free continuation unbroken and prefix-faithful under every sound cipher, if and only if no octet of a record had been taken |
| `RecordReader.ExpiryInsideFrameBreaks` | internal/obfuscate/aead.go:168-182 | a deadline between header and body makes the next read fail |
| `WireHandshake.SkipUntilMagic` | internal/protocol/protocol.go:91-105 | the sliding window stops just behind the first magic, or at the end of the input |
| `WireHandshake.AfterMagicIsFirst` | internal/protocol/protocol.go:91-105 | what is found is behind the first occurrence, and nothing is found exactly when there is none |
| `WireHandshake.MagicFoundBehindJunk` | internal/protocol/protocol.go:91-105 | the magic has no border: a magic behind junk is the first found if and only if the junk holds none |
| `WireHandshake.WriteMagic` | internal/protocol/protocol.go:428-452 | the whole magic is written, however it is split |
| `WireHandshake.WriteHandshake` | internal/protocol/protocol.go:404-486 | writes prefix, magic and body, or refuses a token above 4096 octets |
| `WireHandshake.ReadHandshake` | internal/protocol/protocol.go:522-595 | reads role, channel, token and options as `Parse` says, every error included |
| `WireHandshake.ParsedIsPrinted` | internal/protocol/protocol.go:542-595 | the reader accepts nothing but what the writer prints |
| `WireHandshake.HandshakeRoundTrip` | internal/protocol/protocol.go:404-595 | a handshake behind junk and prefix comes back with nothing more consumed if and only if those are free of the magic |
| `WireHandshake.OptionsSurviveIff` | internal/protocol/protocol.go:473-486 | options come back if and only if they are within 2048 octets |
| `HelloCaps.WriteServerHelloCaps` | internal/protocol/protocol.go:247-289 | header, nonce and the set extensions, or an error and nothing written |
| `HelloCaps.ReadServerHelloCaps` | internal/protocol/protocol.go:291-355 | reads header, nonce and extensions as `Parse` says, every error included |
| `HelloCaps.ReadExts` | internal/protocol/protocol.go:320-354 | the TLV loop, with its length and tag checks |
| `HelloCaps.WalkRecovers` | internal/protocol/protocol.go:320-354 | any mix of extensions, in any order and repeated, means the last value per tag; one stray octet is ignored |
| `HelloCaps.AcceptedIffExts` | internal/protocol/protocol.go:320-354 | extension octets are accepted exactly when they are well-formed extensions and at most one stray octet |
| `HelloCaps.CapsRoundTrip` | internal/protocol/protocol.go:247-355 | capabilities with any subset of extensions read back in full |
| `HopAcks.WriteHopAck` | internal/protocol/protocol.go:630-673 | prints the acknowledgement |
| `HopAcks.ReadHopAck` | internal/protocol/protocol.go:675-737 | reads it as `Parse` says, every error included |
| `HopAcks.HopAckRoundTrip` | internal/protocol/protocol.go:630-737 | reads back, nothing more consumed, if and only if the three strings fit 16-bit lengths |
| `HopAcks.ParsesIffPrinted` | internal/protocol/protocol.go:675-737 | what is read as an acknowledgement is exactly what a writer prints |
| `UdpFrames.NormalizeIP` | internal/protocol/protocol.go:885-893 | an IPv4 address, in four octets or mapped in sixteen, becomes its four octets; other 16 octets stay; any other length is refused |
| `UdpFrames.WriteUDPFrame` | internal/protocol/protocol.go:814-853 | writes length and layout with the address normalised, or refuses it |
| `UdpFrames.ReadUDPFrame` | internal/protocol/protocol.go:747-791 | reads a frame as `Parse` says, every check included |
| `UdpFrames.ParsesIffLaidOut` | internal/protocol/protocol.go:758-790 | octets parse to a frame if and only if they are that frame with some pad of at most 64 octets |
| `UdpFrames.FrameRoundTrip` | internal/protocol/protocol.go:747-853 | a written frame reads back with the address the caller passed, an IPv4 address in four octets whichever way it was given, if and only if it is within 65600 octets |
| `Stun.PackAttr` | internal/ice/turn.go:165-172 | the filled buffer is type, length, value and zero padding |
| `Stun.WalkRecovers` | internal/ice/turn.go:186-215 | the walk gives packed attributes back in order, whatever types and padding, if and only if every value fits 16 bits |
| `Stun.DecodeXor` | internal/ice/stun.go:333-364 | the decoding loop computes the XOR-mapped endpoint |
| `Stun.DecodesIffEncoded` | internal/ice/stun.go:333-364 | an endpoint is decoded exactly from the octets that section 15.2 of RFC 5389 encodes it to |
| `Stun.DecodesIffCarried` | internal/ice/stun.go:366-389 | a plain address is decoded exactly from the octets of section 15.1 of RFC 5389, an IPv4 one in its mapped form |
| `Stun.ParseAllocateResponse` | internal/ice/turn.go:174-217 | stays within the packet, ends on every input, and absorbs the attributes met |
| `Stun.AbsorbedIsSaid` | internal/ice/turn.go:202-215 | absorbing one by one leaves the last decodable relay, realm, nonce and error |
| `Stun.AllocationReads` | internal/ice/turn.go:174-217 | a response of packed attributes is read as exactly what they say |
| `Stun.ErrorCodeReads` | internal/ice/turn.go:219-224 | the hundreds and the rest of a code, as section 15.6 of RFC 5389 lays them out, read as that code |
| `Stun.ChallengeReads` | internal/ice/turn.go:174-224 | a refusal with code, realm and nonce reads as just those |
| `Stun.StrangersAreIgnored` | internal/ice/turn.go:174-185 | error -1 and nothing else is read if and only if the packet is too short or lacks the cookie or the transaction |
| `Stun.ParseBindingResponse` | internal/ice/stun.go:283-327 | stays within the packet, ends on every input, refuses in the source's order |
| `Stun.BindingReads` | internal/ice/stun.go:283-327 | a success response of packed attributes yields the first address among them |
| `Stun.SuccessIffClass` | internal/ice/stun.go:287-290 | a success response is one whose class bits, the ninth and the fifth, are 1 and 0 |
| `Stun.MappedOnlyFromAnswers` | internal/ice/stun.go:283-306 | an address is taken only from a success response to this request whose body has arrived |
| `Stun.MappedAddressArrives` | internal/ice/stun.go:283-364 | a server's XOR-mapped address reaches the client unchanged unless an earlier attribute has one |
| `RouteHops.BuildRoutePlan` | internal/tunnel/route_hops.go:106-158 | the loop and fallbacks compute `Plan`, and the hops are what the decision's own fields call for (`Planned`) |
| `RouteHops.PlanIsPlanned` | internal/tunnel/route_hops.go:106-158 | each hop carries the trimmed address of the field for its own kind, TCP before QUIC before UDP at each index, in index order, none passed over below the limit; preferred peers, QUIC, UDP, TCP, only without candidates; else the server, its kind as the decision says |
| `RouteHops.PlanShape` | internal/tunnel/route_hops.go:106-158 | within the hop limit, all usable peers or a single server hop |
| `RouteHops.EncodeRouteHops` | internal/tunnel/route_hops.go:11-25 | the loop encodes the hops, skipping blank ones |
| `RouteHops.HopRoundTripIff` | internal/tunnel/route_hops.go:11-37 | a hop comes back if and only if its parts are trimmed and its kind has no colon |
| `RouteHops.ParsesIffJoined` | internal/tunnel/route_hops.go:27-37 | an entry is read as a hop if and only if, trimmed, it is a kind without a colon, a colon and an address |
| `Text.TrimSpaceIff` | internal/tunnel/route_hops.go:113-119 | trimming takes away exactly the white space at both ends |
| `Text.JavaTrimIff` | server/src/main/java/dev/c0redev/volter/Protocol.java:599-621 | the Java way takes away exactly the characters up to the space at both ends |
| `RouteHops.PeersRoundTrip` | internal/tunnel/route_hops.go:11-37 | a planned chain survives encoding and parsing hop for hop |
| `RouteHops.NextOnRoute` | internal/tunnel/route_hops.go:39-48 | the relay at position k reads the k-th planned hop, the last one none |
| `OptionScan.ParseStringArray` | server/src/main/java/dev/c0redev/volter/Protocol.java:599-621 | the index loop computes `Scan`: the trimmed texts between quotes, up to the first closing bracket |
| `OptionScan.RestIsIgnored` | server/src/main/java/dev/c0redev/volter/Protocol.java:602-606 | what follows the array in the text makes no difference to what is read of it |
| `OptionScan.ListArrivesIff` | server/src/main/java/dev/c0redev/volter/Protocol.java:599-621 | a written list is read back unchanged if and only if no entry holds a closing bracket, a character the writer escapes, or blanks at an end |
| `OptionScan.VerbatimFrontArrives` | server/src/main/java/dev/c0redev/volter/Protocol.java:599-621 | entries that need no escaping arrive up to the first that holds a closing bracket |
| `OptionScan.SurvivesAgain` | server/src/main/java/dev/c0redev/volter/PeerRelayForward.java:114-135 | what one Java relay read and wrote again, the next reads with every backslash doubled and nothing lost |
| `RouteRelays.HandshakeOptsAreStable` | internal/tunnel/preamble.go:204-243 | completing options a second time changes nothing |
| `RouteRelays.SecondLimitIsIdle` | internal/tunnel/peer_relay_forward.go:16-18 | the second hop check of the Go relay never refuses what the first admitted |
| `RouteRelays.GoRefusesIff` | internal/tunnel/peer_udp_listener.go:281-299 | a Go relay refuses if and only if the session is not for relaying, over its limit or two hops, unsigned, a repeat, or arrived without its options |
| `RouteRelays.JavaRefusesIff` | server/src/main/java/dev/c0redev/volter/PeerRelayGuard.java:11-37 | a Java relay refuses, of what asks for relaying, exactly what it has no room for, is over its limit or four hops, or is not signed for its token |
| `RouteRelays.ForwardAdvances` | internal/tunnel/route_hops.go:65-79 | the Go relay's forward adds one to both counters, changes neither hops nor identity, and leaves the signature valid |
| `RouteRelays.JavaSeesNext` | server/src/main/java/dev/c0redev/volter/PeerRelayForward.java:114-135 | what one Java relay hands on, the next sees with both counters advanced, backslashes doubled and nothing else changed |
| `RouteRelays.SeenAfterIs` | server/src/main/java/dev/c0redev/volter/PeerRelayForward.java:114-135 | the same for a row of n Java relays |
| `RouteChains.GoDecides` | internal/tunnel/peer_relay_forward.go:15-45 | at the k-th planned hop a Go relay refuses, delivers or hands on to hop k+1 exactly as limit, nonce, option size and position say |
| `RouteChains.JavaStepAfter` | server/src/main/java/dev/c0redev/volter/SessionHandler.java:112-165 | behind n other Java relays a Java relay decides by its own limit, the guard on the identity it sees, and the entry it reads |
| `RouteChains.ChainIsShort` | internal/tunnel/peer_udp_listener.go:281-291 | whatever the options say, at most six relays of either kind look at a session |
| `RouteChains.ChainFollowsPath` | internal/tunnel/peer_relay_forward.go:15-92 | hops are visited in the order the relays read them, up to the first that its predecessor cannot dial or that refuses |
| `RouteChains.RouteRuns` | internal/tunnel/route_hops.go:50-158 | from plan to exit, for any decision, any addresses and any fresh client options: where the run ends, and that it exits if and only if every hop the relays read is supported and accepts |
| `RouteExits.PassableIff` | server/src/main/java/dev/c0redev/volter/PeerRelayForward.java:30-52 | in terms of kinds and limits: leading UDP hops within 2, then one hop of any kind, then TCP hops only, within 4 in all |
| `RouteExits.RouteReaches` | server/src/main/java/dev/c0redev/volter/Protocol.java:599-621 | with addresses that need no escaping the relays follow the plan, behind the first Java relay up to the first entry with a closing bracket |
| `RouteExits.LastPeerDeliversIff` | server/src/main/java/dev/c0redev/volter/PeerRelayForward.java:15-52 | the planned last peer reaches the target if and only if kinds and limits allow it and brackets do not cut the list |
| `RouteExits.BracketsCutTheRoute` | server/src/main/java/dev/c0redev/volter/ClusterTcpExitBridge.java:23-39 | of two TCP hops, one with a bracketed address, only the first is visited |
| `RouteExits.KindsMatter` | internal/tunnel/peer_relay_forward.go:69-77 | three TCP hops are within the limits, three UDP hops are not, QUIC followed by UDP is not |
| `RouteExits.PlainIdentityIsKnown` | server/src/main/java/dev/c0redev/volter/PeerRelayGuard.java:11-37 | with a plain identity every Java relay of a route judges as the guard does on what was sent |
| `RouteAcks.ClientReadsUnread` | server/src/main/java/dev/c0redev/volter/SessionHandler.java:144-160 | the client reads the acknowledgements no relay has read, in order, and then what the target sends |
| `RouteAcks.CleanStreamIff` | internal/tunnel/tunnel.go:105-115 | over a route that exits, the client reads exactly the target's octets if and only if at most one relay visited is a Java relay and, if one is, acknowledgements were asked for |
| `RouteAcks.AskedIff` | internal/tunnel/route_hops.go:50-63 | acknowledgements are asked for exactly when requested, named by a route, or for more than one hop |
| `ByteBucket.Shaper.TryTake` | internal/tunnel/shaper.go:31-51 | the critical section: refill, then take or compute the sleep |
| `ByteBucket.Shaper.WaitTake` | internal/tunnel/shaper.go:24-54 | a lone call within the burst takes its bytes once, after at most two sleeps; one beyond the burst takes nothing, however often it has slept |
| `ByteBucket.TokensInRange` | internal/tunnel/shaper.go:24-54 | over any interleaving tokens stay between zero and the burst |
| `ByteBucket.RateBound` | internal/tunnel/shaper.go:24-54 | bytes granted between any two attempts are at most a burst plus rate times elapsed time, whoever attempts in between |
| `ByteBucket.RateBoundIsTight` | internal/tunnel/shaper.go:24-54 | the bound is reached |
| `ByteBucket.NextAttempt` | internal/tunnel/shaper.go:46-52 | after a sleep, woken at any later time, the bucket is at most a nanosecond's worth of tokens short |
| `ByteBucket.SleepIsBounded` | internal/tunnel/shaper.go:46-50 | a sleep is at most the larger of a millisecond and the time the missing tokens take |
| `ByteBucket.OneSleepIff` | internal/tunnel/shaper.go:46-52 | a caller woken exactly on time succeeds if and only if the missing tokens take at most a millisecond or a whole number of nanoseconds |
| `ByteBucket.OneSleepCanFail` | internal/tunnel/shaper.go:46-52 | at 3 kbit/s one sleep is not enough for one byte |
| `ByteBucket.SecondSleepSuffices` | internal/tunnel/shaper.go:46-52 | a second sleep always suffices |
| `ByteBucket.GrantableIffWithinBurst` | internal/tunnel/shaper.go:24-54 | a request can ever be granted if and only if it is within the burst |
| `PathManager.Manager.Sweep` | internal/tunnel/path_manager.go:441-490 | stale paths go, then just as many of the oldest as there are too many, and their TCP memory with them |
| `PathManager.Manager.EvictOne` | internal/tunnel/path_manager.go:476-489 | one turn of the swap-remove loop drops an oldest path and keeps list and map in step |
| `PathManager.Manager.Record` | internal/tunnel/path_manager.go:406-439 | sweep, then the rate, streak and TCP memory of the path change as `Recorded` says |
| `PathManager.Manager.BeginDecide` | internal/tunnel/path_manager.go:265-303 | up to the point where the lock is given up: sweep, touch, where the decision is heading and whether peers are looked for, as `Begun` says |
| `PathManager.Manager.FinishDecide` | internal/tunnel/path_manager.go:314-404 | with the lock back: peer, TCP with or without memory, or no preference, as `Finished` says |
| `PathManager.Manager.Decide` | internal/tunnel/path_manager.go:265-404 | a decision nothing interrupts is the two halves in a row |
| `PathManager.SwapRemoveBag` | internal/tunnel/path_manager.go:487-488 | moving the last item into the gap removes exactly the item that was there |
| `PathManager.SurvivesIff` | internal/tunnel/path_manager.go:441-490 | with distinct touches a path survives if and only if it was last touched, or else attempted, at most 30 minutes ago or never, and fewer than 4096 such paths are newer |
| `PathRuns.RunKeepsInv` | internal/tunnel/path_manager.go:265-490 | in every state of every interleaving of records and half-finished decisions: at most 4097 paths, rates between 0 and 1 |
| `PathRuns.ReachedSweepDropsOldest` | internal/tunnel/path_manager.go:441-490 | in every reachable state no sweep drops a path touched more recently than one it keeps |
| `PathRuns.TiedThroughoutIff` | internal/tunnel/path_manager.go:304-404 | TCP memory belongs to known paths throughout an interleaving if and only if no failing path is swept away while its decision looks for peers in vain |
| `PathRuns.SequentialRunsStayTied` | internal/tunnel/path_manager.go:265-490 | calls that do not overlap keep TCP memory to known paths |
| `PathRuns.MemoryCanBeOrphaned` | internal/tunnel/path_manager.go:304-404 | an interleaving that leaves TCP memory for a path no longer known |
| `PathChoices.OthersKeepRecord` | internal/tunnel/path_manager.go:265-490 | decisions, outcomes of other paths and sweeps that a path survives leave its rate and streak alone |
| `PathChoices.RecordFollowsHistory` | internal/tunnel/path_manager.go:406-439 | the streak counts the failures since the last success; a success closes 15 percent of the gap to 1, a failure costs 20 percent, whatever happens to other paths in between |
| `PathChoices.RateInClosedForm` | internal/tunnel/path_manager.go:420-430 | n failures and then m successes leave 1 - (1 - 0.8^n) 0.85^m |
| `PathChoices.ChoiceIs` | internal/tunnel/path_manager.go:265-404 | what a decision comes to in terms of rate, streak and memory alone |
| `PathChoices.FailuresSteer` | internal/tunnel/path_manager.go:265-439 | a new path goes to TCP from its third failure in a row, its second if aggressive; peers are tried from the first, two hops deep, three from the third |
| `PathChoices.SuccessHelps` | internal/tunnel/path_manager.go:420-425 | a success ends streak and memory and never lowers the rate |
| `PathChoices.WeakIsRemembered` | internal/tunnel/path_manager.go:390-399 | TCP is remembered until the cooldown is over exactly when it is the path's weakness that leads there in want of a peer |
| `PathChoices.MemoryDecides` | internal/tunnel/path_manager.go:364-372 | until its time has come a memory makes every decision without a peer TCP, from then on it makes no difference |
| `Gossip.MergeGossip` | internal/discovery/discovery.go:121-150 | the result lists exactly the merged index, strictly sorted by ID |
| `GossipWinners.MergedIffWins` | internal/discovery/discovery.go:121-150 | a description is in the result if and only if it wins for its ID, the base's last unless a reachable update is newer, then the first of the newest, and the second it was updated in is not yet over for `maxAge` |
| `Gossip.KeptIffYoung` | internal/discovery/discovery.go:138-145 | a description stays exactly while some moment of the second it was updated in is less than `maxAge` ago |
| `Gossip.ListingIsUnique` | internal/discovery/discovery.go:146-148 | there is only one such list |
| `Gossip.UpdatedHoldsNewest` | internal/discovery/discovery.go:129-137 | a newest reachable description is held for every ID that has one |
| `Gossip.FoldIsOneMerge` | internal/vpn/gossip_mesh.go:47-76 | merging batch after batch with clock readings that do not go back equals one merge of all at the last reading |
| `Gossip.OrderFreeIffNoTies` | internal/discovery/discovery.go:121-150 | order and repetition do not matter if and only if no kept newest descriptions tie |
| `Gossip.RoundsAgree` | internal/vpn/gossip_mesh.go:47-76 | two rounds that saw the same descriptions, batched differently, end with the same list |

## Left out

- RecordStream.NonceReuseIff: counters are unbounded and the nonce takes their low 64 bits, instead of 64-bit counters that wrap.
- PeerRelay.PeerUDPRelay.Dispatch: the assembler inside an entry is a value here, so aliasing between entries is not modelled; starting the session goroutine and socket writes are left out.
- PathManager.Manager.FinishDecide: which peers are picked, the failure streak read while the lock is given up, and the latency factor are inputs.
- PathRuns.RunKeepsInv: the settings of a manager do not change during a run.
- ByteBucket.Shaper.WaitTake: is watched for a given number of sleeps, a call beyond the burst never returning; other callers interleave in the run lemmas, not inside this method.
- Handshake.ClientHandshake: the Java client has no 8192-octet check on its own hello; only the Go client is modelled.
- Handshake.KeyAgreement: assumes that no other candidate slot yields the same MAC, and a client without slot churn; `TimeSlots.ChurningClientCoveredIff` says what becomes of the others.
- HandshakeRuns.LetInIff, HandshakeRuns.GenuineAnsweredIff: the readings inside the cache are taken not to go back from one handshake to the next.
- PathChoices.FailuresSteer: speaks of the usual latency factor 1; `PathChoices.ChoiceIs` covers any other.
- RouteChains.RouteRuns: which nonces a Go relay has seen and whether a Java server has room, budget and permission for a session are inputs, hop by hop; every hop can be dialled, and a hello with options too large for the dexote channel is not considered. The octets of options as JSON are an input where only their size matters; base64 decoding of signatures is part of the abstract checks. Client options start without a signature and without route progress.
- RouteRelays.JavaSeesNext: the server's scan is taken to find each field where it stands; a text that equals the name of a later field would mislead it. Of numbers only the limits are modelled, of texts well-formed Unicode.
- RouteExits.LastPeerDeliversIff: speaks of relays that have room, see the nonce for the first time, receive the options and know the client, and of addresses that need no escaping; `RouteChains.RouteRuns` covers the others.
- RouteAcks.CleanStreamIff: acknowledgements grant and fit 16-bit lengths.
- WireHandshake.WriteHandshake: the parsing of magicSplit and the random prefix are inputs; any split list is covered.
- Gossip.MergeGossip, RoutingTable.Table.NearestTo: sort.Slice is an insertion sort here; `Nearest` is `NearestTo` with the node's own identifier.
- The relay's nonce memory (`markRelayNonceFresh`) works like the replay cache with milliseconds and 90 seconds, and would add only easy members.
- QUIC, TUN devices, dialling, HTTP polling, camouflage and platform code: effects without state worth a proof here.
- Real cryptography, JSON, base64, URL and IP text parsing: abstract functions or inputs.
- The `k` of a find-node request is one octet on the wire; that codec is not modelled.
- Traffic-shape profiles, junk generation, configuration defaults, metrics and watchdogs: wide but shallow.
