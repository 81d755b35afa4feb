# Dafny models of Wiselib's protocol and library core

Wiselib is a C++ template library for sensor networks. This project models the parts of it that carry the hardest
promises, in the form the code has (fields and buffers updated in place, loops over bytes), and proves them against
specification functions. Verify with `dafny verify dfyconfig.toml`.

**6LoWPAN Neighbor Discovery** (`wiselib.testing/algorithms/6lowpan`)
- `NdOptions`: what the bytes of an option say, and the loop that walks over options, driven by the length bytes in the
  message. `NdMessages` writes options and message bodies into a packet, `NdReader` reads them in place.
- `NdNode`: the state of a node as a value, and what hearing an advertisement, the 60 second timer and the solicitation
  timers do to it, over whole runs. `RouterSolicitation` is the backoff machine in it, `PrefixTable` the prefix list.
- `NdFields`: the same field by field, in bytes, stored fields and numbers.
- `Icmpv6`: the class that does all this in place, with the packet pool (`PacketPool`), the prefix lists
  (`InterfaceManager`, `Ipv6Address`) and the packet buffer (`Packet`, `Checksum`). Each of its methods is proved to
  change the state as `NdNode` says, and to conserve packets.
- `Ipv6`: the IP layer on both sides of it, what it fills in on the way out and whom it hands a packet to on the way in.
- `NdExchange`: from one node to another, from the sending through the IP layers to what the receiver does and sends in
  turn.

**Parsers and printers**: `SplitN3` (the in-place N3 tokenizer), `UartFraming` (DLE/STX/ETX frames), `LorienDebug`
(numbers to text). **Arithmetic**: `FloatingPoint` (single to double on the wire), `StandaloneMath` (Newton's square
root), `TinyOsClock` (ticks to milliseconds). **Containers**: `VectorStatic`, `RoutingTable`, `PeerCache`.
`Bytes` holds big-endian numbers, `Wrappers` what several modules share.

## Where the code and its evident intent differ

The model follows the code; the deviations are proved exactly, with a concrete input where one fails.
- Copies can leave the memory they are meant for: of a prefix longer than 128 bits (`Ipv6Address.CopyStaysInside`) and of
  a context of more than three units (`NdOptions.ContextCopyStaysInside`). Exactly which advertisements do that:
  `NdNode.SpillsExactly` and, as received, `Icmpv6.HarmsExactly`; two that do: `NdNode.AdvertisementSpills`. Methods that meet such a copy say so in their result
  and promise nothing about the memory then; runs end in `Overrun`.
- A context's flag is read with the mask 10 (`NdOptions.ContextReads`), and the loop over options goes on in front of its
  prefix. A context is in step if the loop comes to stand at its end, and quiet if nothing besides it is read: exact
  conditions in `NdOptions.ContextInStep`, `NdOptions.QuietIsReadAlone` and `NdOptions.AlignedExactly`. A context
  with a prefix like fd00:: makes every receiver drop the advertisement: `NdNode.ContextAdvertisementIsMisread`.
- The version of a border router is written big-endian and read with its 16-bit halves exchanged, so that a newer one can
  be refused: `NdOptions.BorderRouterReadsSwapped`, `NdOptions.OrderOverOneHop`, `NdNode.NewerIsRefused`.
- send_nd_message gives its packet back even when the IP layer keeps the number to poll for a route; exactly when:
  `Icmpv6.ICMPv6.SendNdMessage`, an input: `NdExchange.BareSolicitationNeedsRoute`.
- In the mesh-under build a packet that is for no address of the node is neither handed on nor given back:
  `Ipv6.IPv6.Receive`.
- The loop over extension headers has a condition that always holds: `Packet.IPv6Packet.WalkExtensionHeaders`.
- The checksum folds its carry only once: `Checksum.CodeAgainstRfc`, a packet: `Packet.CarryIsLost`.
- The status byte of a registration is always 2: `NdMessages.InsertAddressRegistrationOption`. The identifier of a
  confirmation is cut to the size of a link-layer identifier: `Icmpv6.ICMPv6.ReceiveNeighborMessage`.
- Advertising a context refreshes its lifetime: `NdMessages.WriteContexts`.
- Lifetimes of 1 to 59 seconds underflow when they age: `PrefixTable.AgesWellExactly`, `PrefixTable.FiftyNineIsForever`.
- The solicitation counter has eight bits and wraps to "not soliciting": `RouterSolicitation.SilentAfter255`. Timers
  cannot be cancelled, so a restart doubles them: `RouterSolicitation.TwoTimers`.
- Right after the border router's information expires no solicitation need be active: `NdNode.SolicitsAfterExpiry`,
  `NdNode.SilentAfterExpiry`.
- The comment on send_RA_to_all_routers speaks of three advertisements; its callers ask for one
  (wiselib.testing/algorithms/6lowpan/icmpv6.h:1134, 1149).
- A wrong checksum is noticed, but the message is not dropped (wiselib.testing/algorithms/6lowpan/icmpv6.h:782-792).
- A frame body may contain a DLE only if nothing but DLEs follows it: `UartFraming.FrameArrives`. receive_packet raises
  on some packets before the state is reset (`UartFraming.Accepted`); exactly what that costs a stream:
  `UartFraming.StreamExactly`, an input: `UartFraming.RejectedComesAgain`.
- Erasing from a full vector reads behind its array: `VectorStatic.VectorStatic.Erase`.
- Zeros, denormals, infinities and NaNs do not keep their value on the wire: `FloatingPoint.WidenKeepsValue`.

## Model

| member | source | states |
|---|---|---|
| NdExchange.AdvertisementIsHeard | wiselib.testing/algorithms/6lowpan/icmpv6.h:973-1160 | for the ICMPv6 layer, behind the receive filter: an advertisement whose contexts are quiet is dropped by every node that knows newer border router information (versions compared with halves exchanged), and such a node stays as it is; every other node takes over the parameters, sets exactly the advertised prefixes in their order, stores the live contexts, stops soliciting, and relays or registers at the sender |
| NdExchange.Advertise | wiselib.testing/algorithms/6lowpan/icmpv6.h:1637-1845 | the whole way from the sending of one node, over its IP layer, source and checksum, to the layers of another: the advertisement is sent exactly if a packet is free; the receiver follows it and answers exactly if its receive filter hands it on and the version is new, else it stays as it is and sends nothing; to all routers, it is handed on exactly by routers with another identifier than the sender's |
| NdExchange.AdvertisementReaches | wiselib.testing/algorithms/6lowpan/ipv6.h:926-1079 | the same for every advertisement with quiet contexts, to whatever destination; no copy leaves its memory |
| NdExchange.SoliciterFollows | wiselib.testing/algorithms/6lowpan/icmpv6.h:906-1160 | from the solicitation to the configuration: a node that solicits all routers is answered by every router of another identifier that answers and has a packet free, and follows the answer exactly if it is new |
| NdExchange.PrefixFollowed | wiselib.testing/algorithms/6lowpan/icmpv6.h:1986-2028 | a prefix of the sender that no later one overwrites has its valid and preferred lifetime, flags and length in the slot that the receiver formed for it |
| NdExchange.RestFollowed | wiselib.testing/algorithms/6lowpan/icmpv6.h:1005-1120 | live contexts, hop limit, flags, timers and border router arrive field by field; soliciting stops |
| NdExchange.FollowerAnswers | wiselib.testing/algorithms/6lowpan/icmpv6.h:1122-1159 | what a node that follows sends: one advertisement to ff02::2 from a router of the route-over build, else one solicitation to the sender at its identifier, if a packet is free |
| NdExchange.Transmit | wiselib.testing/algorithms/6lowpan/ipv6.h:672-916 | a message of any kind, completed by the sender's IP layer and interface manager: the receive filter decides whether the receiver reacts, exactly as `Reacted` says, to the bytes that were sent with next header and source filled in; a message that is not handed on changes nothing |
| NdExchange.ReceivedAsSent | wiselib.testing/algorithms/6lowpan/icmpv6.h:779-782 | zeroing the checksum field gives back the message as it was before it was stamped, and the stored checksum is the right one |
| NdExchange.UnderwayIsMessage | wiselib.testing/algorithms/6lowpan/interface_manager.h:197-217 | with next header and source filled in a message is complete; its source is one of the sender's own addresses and never the unspecified one |
| NdExchange.MessageOnAir | wiselib.testing/algorithms/6lowpan/icmpv6.h:1659-1836 | the bytes of a message on the air: next header 58, hop limit 255, type 133 to 136, code 0, target; routers' messages come from the link-local address, neighbors' from the address in slot 1, or else the first other slot in use, and from the link-local address only if there is none; the flags of a neighbor advertisement tell a router |
| NdExchange.AdvertisementOnAir | wiselib.testing/algorithms/6lowpan/icmpv6.h:1704-1731 | the fixed fields of an advertisement on the air |
| NdExchange.SolicitationIsAnswered | wiselib.testing/algorithms/6lowpan/icmpv6.h:906-972 | a solicitation makes the receiver advertise to the sender's link-local address, at the identifier it tells, exactly if the receive filter hands it on, the receiver is a router that knows its border router, and a packet is free |
| NdExchange.RegistrationIsAnswered | wiselib.testing/algorithms/6lowpan/icmpv6.h:1161-1268 | a registration is confirmed by exactly one message, with the lifetime and the identifier asked for, to the first address in use from slot 1 on, or the link-local one if there is none, exactly if it is handed on, a packet is free and the target is no multicast address |
| NdExchange.ConfirmationSays | wiselib.testing/algorithms/6lowpan/icmpv6.h:2044-2095 | what a confirmation says to whoever reads it: lifetime and identifier of the registration, the latter cut to the size of a link-layer identifier |
| NdExchange.ConfirmationReturns | wiselib.testing/algorithms/6lowpan/ipv6.h:1014-1072 | the receive filter of the node that asked hands the confirmation on |
| NdExchange.BareSolicitationNeedsRoute | wiselib.testing/algorithms/6lowpan/icmpv6.h:1838-1843 | a solicitation without options, the input for which the answer needs a route, so that its packet can be given back while the IP layer still polls with it |
| NdExchange.NeighborMessageIsRead | wiselib.testing/algorithms/6lowpan/icmpv6.h:1188-1207 | a solicitation or advertisement of neighbors is walked as link-layer option, then registration, ending at the transport length, with all fields as written |
| NdExchange.SolicitationIsRead | wiselib.testing/algorithms/6lowpan/icmpv6.h:948-971 | a router solicitation is walked to its end and tells the sender's identifier |
| NdExchange.RegistrationIsConfirmed | wiselib.testing/algorithms/6lowpan/icmpv6.h:2083-2108 | the registration a neighbor asks for is the one that is confirmed, lifetime and identifier |
| NdExchange.SentLength | wiselib.testing/algorithms/6lowpan/icmpv6.h:1822 | the transport length of every message sent is where its options end, and within the buffer |
| Ipv6.IPv6.Receive | wiselib.testing/algorithms/6lowpan/ipv6.h:926-1109 | every packet without hop-by-hop options: by the verdict of the receive filter it is given back with nothing changed, handed to ICMPv6, sent on, or kept |
| Ipv6.IPv6.Filter | wiselib.testing/algorithms/6lowpan/ipv6.h:931-1072 | in place: own identifier, packets to all routers at a node that is none, extension headers, destination and protocol |
| Ipv6.IPv6.Deliverable | wiselib.testing/algorithms/6lowpan/ipv6.h:1018-1109 | by the destination: for this node, link-local, to be sent on, or (mesh-under build) neither |
| Ipv6.IPv6.IpPacketForThisNode | wiselib.testing/algorithms/6lowpan/ipv6.h:1121-1131 | some slot of the interface has the address |
| Ipv6.IPv6.Complete | wiselib.testing/algorithms/6lowpan/ipv6.h:816-834 | next header, source and checksum of a message that goes out over the radio |
| Ipv6.DeliveredExactly | wiselib.testing/algorithms/6lowpan/ipv6.h:931-1079 | exactly which packets are handed on: UDP and ICMPv6, not from the own identifier, to an own address, ff02::1, the solicited multicast address, or ff02::2 on a router; everything else is not |
| Ipv6.ForwardedExactly | wiselib.testing/algorithms/6lowpan/ipv6.h:1080-1109 | exactly which packets are sent on, and which are kept in the mesh-under build |
| Ipv6.MulticastAddresses | wiselib.testing/algorithms/6lowpan/ipv6_address.h:70-97 | the three multicast addresses byte by byte; the last is made from the identifier (wiselib.testing/algorithms/6lowpan/ipv6_address.h:261-276) |
| Ipv6.RoutersHear | wiselib.testing/algorithms/6lowpan/ipv6.h:931-948 | a UDP or ICMPv6 packet to all routers is handed on exactly by routers with another identifier than the sender's |
| Ipv6.OwnersHear | wiselib.testing/algorithms/6lowpan/ipv6.h:1018-1020 | a UDP or ICMPv6 packet to an address of a node is handed on by it, unless it comes from its own identifier |
| Icmpv6.ICMPv6.constructor | wiselib.testing/algorithms/6lowpan/icmpv6.h:257-274 | a node starts valid: no solicitation in process, default storage, no context |
| Icmpv6.ICMPv6.Receive | wiselib.testing/algorithms/6lowpan/icmpv6.h:766-1282 | every packet: what is not ICMPv6 or is for RPL is left alone; echoes are answered or taken; for every discovery message, the node loses its memory exactly if `Harms` says so, and else the packet is given back exactly once on every path, every packet taken meanwhile too, no other packet in use is touched, and the node changes and sends exactly as `Reacted` says |
| Icmpv6.HarmsExactly | wiselib.testing/algorithms/6lowpan/icmpv6.h:973-1126 | exactly which messages make a copy leave its memory: advertisements that count and whose walk comes to stand at a prefix of more than 128 bits or a context of more than three units |
| Icmpv6.ICMPv6.Handle | wiselib.testing/algorithms/6lowpan/icmpv6.h:795-1281 | the same by type, behind the checksum |
| Icmpv6.ICMPv6.AnswerEcho | wiselib.testing/algorithms/6lowpan/icmpv6.h:797-834 | an echo request goes back in its own packet, addresses exchanged, type changed; the packet is given back exactly unless the IP layer polls with it |
| Icmpv6.ICMPv6.Dispatch | wiselib.testing/algorithms/6lowpan/icmpv6.h:868-1281 | the common checks, and the reaction by type of message, unless a copy leaves its memory |
| Icmpv6.ICMPv6.DigestAdvertisement | wiselib.testing/algorithms/6lowpan/icmpv6.h:979-1159 | in place: state and reaction are those of the specification function for the bytes of the message; the one exception, a copy that leaves its memory, is met exactly when that function says `Spills` |
| Icmpv6.ICMPv6.AcceptBorderRouter | wiselib.testing/algorithms/6lowpan/icmpv6.h:1005-1045 | the first border router option decides; state changes exactly if it is new or an installation |
| Icmpv6.ICMPv6.TakeAdvertisement | wiselib.testing/algorithms/6lowpan/icmpv6.h:1005-1086 | border router, solicitation counter and fixed fields are taken over, or nothing is |
| Icmpv6.ICMPv6.LearnAdvertisement | wiselib.testing/algorithms/6lowpan/icmpv6.h:1088-1126 | unless a copy leaves its memory, the prefix tables and contexts become what learning the walked options in order gives; an installation gives its last prefix to the serial interface too |
| Icmpv6.ICMPv6.ReceiveRouterAdvertisement | wiselib.testing/algorithms/6lowpan/icmpv6.h:973-1160 | reaction, the messages that follow, and the packet given back once, exactly unless the advertisement spills |
| Icmpv6.ICMPv6.Answer | wiselib.testing/algorithms/6lowpan/icmpv6.h:1122-1159 | relay: the packet is given back first, so that an advertisement always goes out; registration: sent to the source if another packet is free |
| Icmpv6.ICMPv6.DigestSolicitation | wiselib.testing/algorithms/6lowpan/icmpv6.h:912-968 | accepted exactly by a router that (route-over build) knows a border router, for a message whose options all have a length |
| Icmpv6.ICMPv6.ReceiveRouterSolicitation | wiselib.testing/algorithms/6lowpan/icmpv6.h:906-972 | exactly one advertisement to the source exactly if accepted and a packet is free |
| Icmpv6.ICMPv6.WalkNeighborMessage | wiselib.testing/algorithms/6lowpan/icmpv6.h:1182-1207 | one confirmation for each registration read, in order, while the received packet stays in use and unchanged |
| Icmpv6.ICMPv6.ReceiveNeighborMessage | wiselib.testing/algorithms/6lowpan/icmpv6.h:1161-1268 | the message checks, the confirmations, and the packet given back once |
| Icmpv6.ICMPv6.SendNdMessage | wiselib.testing/algorithms/6lowpan/icmpv6.h:1637-1845 | sends one complete message exactly if discovery is enabled on the interface and a packet is free; packets in use stay untouched; the packet taken is the lowest free one and is given back, and the IP layer still polls with it exactly if the message needs a route and none is known |
| Icmpv6.ICMPv6.BuildBody | wiselib.testing/algorithms/6lowpan/icmpv6.h:1686-1817 | body and options by type of message, everything in front of the body untouched |
| Icmpv6.ICMPv6.Build | wiselib.testing/algorithms/6lowpan/icmpv6.h:1659-1836 | hop limit, addresses, length, type, zero code and checksum, around the body |
| Icmpv6.ICMPv6.SendRsToAllRouters | wiselib.testing/algorithms/6lowpan/icmpv6.h:1307-1331 | nothing at counter 0, else exactly one solicitation to all routers if a packet is free, the counter stepped with 8-bit wrap, one timer armed for the computed wait |
| Icmpv6.ICMPv6.Wait | wiselib.testing/algorithms/6lowpan/icmpv6.h:1315-1323 | for every counter that is not 0 the wait is that of the backoff table |
| Icmpv6.ICMPv6.Solicit | wiselib.testing/algorithms/6lowpan/icmpv6.h:1411-1416 | soliciting starts only if it is not in process, and then one solicitation to all routers goes out, if a packet is free; nothing else is sent |
| Icmpv6.ICMPv6.OnSolicitTimer | wiselib.testing/algorithms/6lowpan/icmpv6.h:1307-1331 | a timer turn follows the solicitation machine: one solicitation to all routers if the counter is not 0 and a packet is free, else nothing; after an advertisement it arms nothing either |
| Icmpv6.ICMPv6.SendRaToAllRouters | wiselib.testing/algorithms/6lowpan/icmpv6.h:1342-1359 | one advertisement and the argument of the next timer, for every count of advertisements left |
| Icmpv6.ICMPv6.NdTimeout | wiselib.testing/algorithms/6lowpan/icmpv6.h:1370-1622 | the whole 60 second turn is the specification function of the state; the messages sent are exactly the ordered ones, in order, if a packet is free; packets are conserved |
| Icmpv6.TurnSends | wiselib.testing/algorithms/6lowpan/icmpv6.h:1370-1622 | how many messages a turn sends: one solicitation exactly if it starts soliciting, and one to each neighbor that is due, unless the border router's information expires |
| Icmpv6.ICMPv6.TickBorderRouter | wiselib.testing/algorithms/6lowpan/icmpv6.h:1408-1447 | default routers and the lifetime of the border router's information; at 0 everything is forgotten; one solicitation at most, exactly when soliciting starts |
| Icmpv6.ICMPv6.TickLifetime | wiselib.testing/algorithms/6lowpan/icmpv6.h:1418-1447 | the lifetime counts down; 3 is a reason to solicit, 0 the end |
| Icmpv6.ICMPv6.TickTables | wiselib.testing/algorithms/6lowpan/icmpv6.h:1452-1598 | the rest of a turn: contexts, prefixes, neighbors and their reasons to solicit; one message for each neighbor that is due, in order, and one solicitation where soliciting starts |
| Icmpv6.ICMPv6.SolicitIf | wiselib.testing/algorithms/6lowpan/icmpv6.h:1411-1416 | a reason sends one solicitation exactly if none is in process and a packet is free |
| Icmpv6.ICMPv6.SendToAll | wiselib.testing/algorithms/6lowpan/icmpv6.h:1454-1475 | one message to each address, in order, if a packet is free |
| Icmpv6.ICMPv6.AgeAllContexts | wiselib.testing/algorithms/6lowpan/icmpv6.h:1477-1500 | in place: every context has its turn, and a context at 3 asks for solicitations |
| NdFields.PrefixLearned | wiselib.testing/algorithms/6lowpan/icmpv6.h:1986-2028 | for all bytes of a prefix option: the slot with the formed address has the valid lifetime of bytes 4 to 7, the preferred one of bytes 8 to 11, the flags of byte 3 and the length of byte 2, all others stay; there is such a slot exactly if there was one or room for one |
| NdFields.PrefixInstalled | wiselib.testing/algorithms/6lowpan/icmpv6.h:1122-1126 | likewise on the serial interface, for the last prefix of an installation, with the interface's own identifier |
| NdFields.LastPrefixIsLast | wiselib.testing/algorithms/6lowpan/icmpv6.h:1108-1112 | the last prefix stands at the last place where the walk stands at a prefix |
| NdFields.PrefixArrives | wiselib.testing/algorithms/6lowpan/icmpv6.h:1938-2028 | from the sender's row to the receiver's: lifetimes, flags and length arrive in the slot of the formed address, and when there is such a slot |
| NdFields.ContextLearned | wiselib.testing/algorithms/6lowpan/icmpv6.h:2184-2218 | for all bytes of a context option: which entry takes which bytes, and that the others stay |
| NdFields.ContextsArrive | wiselib.testing/algorithms/6lowpan/icmpv6.h:2125-2218 | from the sender's table to the receiver's, entry by entry |
| NdFields.ContextsOverTurns | wiselib.testing/algorithms/6lowpan/icmpv6.h:1477-1500 | after k turns without an expiry a context of lifetime L has max(0, L - k), is usable exactly if it was and did not run out on the way, and has its prefix |
| NdFields.PrefixesOverTurns | wiselib.testing/algorithms/6lowpan/icmpv6.h:1502-1547 | after k turns every prefix but the link-local one has aged k times |
| NdFields.TurnAsks | wiselib.testing/algorithms/6lowpan/icmpv6.h:1408-1598 | exactly when a turn starts soliciting, in lifetimes and answers of the neighbor cache |
| NdFields.TurnCountsDown | wiselib.testing/algorithms/6lowpan/icmpv6.h:1418-1424 | a turn without an expiry changes nothing of the storage but one unit of the border router's information |
| NdFields.ExpiryForgets | wiselib.testing/algorithms/6lowpan/icmpv6.h:1434-1442 | what an expiry leaves of prefixes, contexts and storage |
| NdFields.FreshExactly | wiselib.testing/algorithms/6lowpan/icmpv6.h:1005-1045 | exactly when an advertisement counts in the route-over build |
| NdFields.AdvertisementTaken | wiselib.testing/algorithms/6lowpan/icmpv6.h:1005-1086 | for all bytes: which bytes of an advertisement that counts become which fields of the storage |
| NdFields.StorageArrives | wiselib.testing/algorithms/6lowpan/icmpv6.h:1704-1731 | the sender's storage and the receiver's, field by field |
| NdFields.AdvertisingRefreshes | wiselib.testing/algorithms/6lowpan/nd_storage.h:669-679 | advertising gives every live context the longest lifetime and changes nothing else |
| NdFields.InterfaceIds | wiselib.testing/algorithms/6lowpan/interface_manager.h:121 | the identifier of the serial interface has bit 15 set, as far as the type has one |
| NdFields.FlagsWritten | wiselib.testing/algorithms/6lowpan/icmpv6.h:1938-1976 | the bytes of flags and lengths that are written, with the 4 that is left in the flags of a prefix off the link |
| NdFields.OptionsSay | wiselib.testing/algorithms/6lowpan/icmpv6.h:1938-2251 | which fields of an entry become which fields of its option |
| NdFields.Starts | wiselib.testing/algorithms/6lowpan/interface_manager.h:102-127 | a node as it starts: not soliciting, link-local addresses with infinite lifetimes, nothing else |
| NdNode.StaleChangesNothing | wiselib.testing/algorithms/6lowpan/icmpv6.h:1005-1045 | route-over build: an advertisement without new border router information leaves counters, parameters, prefixes and contexts as they are; a new one stores its version and silences the solicitor |
| NdNode.HearKeepsVersion | wiselib.testing/algorithms/6lowpan/icmpv6.h:2275-2281 | hearing never lowers the stored version, but for an installation |
| NdNode.VersionNeverDecreases | wiselib.testing/algorithms/6lowpan/icmpv6.h:2261-2296 | over every run without installation and expiry in which no copy leaves its memory, the stored version does not decrease |
| NdNode.StepKeepsVersion | wiselib.testing/algorithms/6lowpan/icmpv6.h:1434-1442 | one step lowers the version only if it is an installation, or an expiry, which makes it 0 |
| NdNode.RunKeepsGoodNode | wiselib.testing/algorithms/6lowpan/icmpv6.h:973-1160 | over every run of advertisements heard, timer turns and advertisements sent in which no copy leaves its memory: timers pending, addresses distinct, link-local slots kept, every field fits its option |
| NdNode.SpillsExactly | wiselib.testing/algorithms/6lowpan/icmpv6.h:1088-1126 | exactly which advertisements make a copy leave its memory, in every state: those that count and whose walk comes to stand at a prefix of more than 128 bits or a context of more than three units, or that an installation sends without any prefix |
| NdNode.HarmlessRunsGoThrough | wiselib.testing/algorithms/6lowpan/icmpv6.h:1088-1126 | a run goes through if every advertisement in it is harmless, which is decided by its bytes alone |
| NdNode.AdvertisementSpills | wiselib.testing/algorithms/6lowpan/icmpv6.h:2213 | two advertisements of 80 bytes, one with a context of five units and one with a prefix of 136 bits, that make every node lose its memory that has heard of no border router |
| NdNode.InitialIsGoodNode | wiselib.testing/algorithms/6lowpan/nd_storage.h:379-392 | a fresh node is one that runs keep |
| NdNode.SolicitsWithoutPrefix | wiselib.testing/algorithms/6lowpan/icmpv6.h:1553-1562 | after a turn in which nothing expired, soliciting is active and a timer pending whenever no global prefix is valid |
| NdNode.SolicitsAfterExpiry | wiselib.testing/algorithms/6lowpan/icmpv6.h:1434-1446 | after the turn of the expiry soliciting starts exactly if no default router is left on a node that is no border router; after the next turn it is active in any case |
| NdNode.SilentAfterExpiry | wiselib.testing/algorithms/6lowpan/icmpv6.h:1434-1446 | a concrete node without a valid global prefix that an expiry leaves silent |
| NdNode.WalkedAreUsable | wiselib.testing/algorithms/6lowpan/icmpv6.h:1092-1120 | whatever the bytes are, all options the loop reads in front of a copy that leaves its memory can be stored |
| NdNode.AdvertisementArrives | wiselib.testing/algorithms/6lowpan/icmpv6.h:1092-1120 | an advertisement with quiet contexts as written by one node, taken apart by another: taken over if and only if the version with exchanged halves is not older |
| NdNode.NewerIsRefused | wiselib.testing/algorithms/6lowpan/icmpv6.h:2265-2277 | a node that heard version 0xFFFF drops the advertisement of the newer version 0x10000 |
| NdNode.ContextAdvertisementIsMisread | wiselib.testing/algorithms/6lowpan/icmpv6.h:2213 | an advertisement whose first live context has 0 as the second byte of its prefix is neither passed on nor answered by any receiver |
| NdNode.SenderIsGood | wiselib.testing/algorithms/6lowpan/nd_storage.h:379-392 | a sender of such an advertisement, in a state that runs keep |
| NdNode.ParametersArrive | wiselib.testing/algorithms/6lowpan/icmpv6.h:1055-1086 | hop limit (0 keeps the old one), flags and timers arrive as written |
| NdNode.OfferedIsWellFormed | wiselib.testing/algorithms/6lowpan/icmpv6.h:1733-1751 | in every kept state all fields of an advertisement fit into its options |
| NdNode.OfferedIsRead | wiselib.testing/algorithms/6lowpan/icmpv6.h:1733-1751 | of an advertisement whose contexts are quiet the loop reads the identifier, the valid prefixes and the live contexts, and the first loop finds the border router option in front |
| NdNode.LearningPrefixes | wiselib.testing/algorithms/6lowpan/icmpv6.h:1108-1112 | learning options without contexts is setting the prefixes in order |
| NdNode.LearningContexts | wiselib.testing/algorithms/6lowpan/icmpv6.h:2184-2218 | learning the contexts of an advertisement overwrites exactly the entries of the live ones |
| NdOptions.WalkReads | wiselib.testing/algorithms/6lowpan/icmpv6.h:1092-1120 | round trip for every list of options without contexts and every identifier size: read in the written order with all fields, ending exactly behind the list, if and only if no advertised prefix is longer than 128 bits |
| NdOptions.WalkReadsInStep | wiselib.testing/algorithms/6lowpan/icmpv6.h:1092-1120 | lists with contexts, all of them in step: read in order, ending exactly behind the list |
| NdOptions.WalkReadsQuiet | wiselib.testing/algorithms/6lowpan/icmpv6.h:1092-1120 | of such a list exactly its options are read, if and only if all contexts are quiet |
| NdOptions.AlignedExactly | wiselib.testing/algorithms/6lowpan/icmpv6.h:1092-1120 | for every list of options, whatever contexts it holds: the walk keeps to its options, reading each and nothing else, if and only if all contexts are quiet; then it reads the list and ends behind it |
| NdOptions.ReadsBack | wiselib.testing/algorithms/6lowpan/icmpv6.h:1903-2095 | identifier, prefix length, flags, lifetimes, prefix, registration lifetime and EUI-64 come back as written |
| NdOptions.TurnReads | wiselib.testing/algorithms/6lowpan/icmpv6.h:1103-1119 | a turn over a written option steps over exactly that option |
| NdOptions.WalkEnds | wiselib.testing/algorithms/6lowpan/icmpv6.h:948-968 | for all bytes: the loop advances in multiples of eight and stops at the end of the message, at an option of length zero, or at one whose copy would leave its memory |
| NdOptions.EndsByPlaces | wiselib.testing/algorithms/6lowpan/icmpv6.h:1092-1120 | for all bytes: how the walk over an advertisement ends is decided exactly by the places where it comes to stand |
| NdOptions.FindsBorderRouter | wiselib.testing/algorithms/6lowpan/icmpv6.h:1007-1031 | the first loop finds the first border router option of a list |
| NdOptions.BorderRouterReadsSwapped | wiselib.testing/algorithms/6lowpan/icmpv6.h:2261-2296 | the version comes back with its halves exchanged, a lifetime of 0 as 10000 |
| NdOptions.VersionOverHops | wiselib.testing/algorithms/6lowpan/icmpv6.h:2265 | a version survives one hop exactly if its halves are equal, and two hops always |
| NdOptions.OrderOverOneHop | wiselib.testing/algorithms/6lowpan/icmpv6.h:2265-2277 | the receiver compares low halves first |
| NdOptions.ContextReads | wiselib.testing/algorithms/6lowpan/icmpv6.h:2184-2218 | identifier, length, lifetime and prefix come back; the flag says whether bit 1 or 3 of the identifier is set |
| NdOptions.ContextBits | wiselib.testing/algorithms/6lowpan/icmpv6.h:2199 | what the mask 10 sees |
| NdOptions.ContextInStep | wiselib.testing/algorithms/6lowpan/icmpv6.h:2213 | for every context, of two or three units: the walk that goes on inside it comes to stand at its end if and only if the first bytes of its prefix say so |
| NdOptions.QuietIsReadAlone | wiselib.testing/algorithms/6lowpan/icmpv6.h:2213 | a context in step is read alone if it is quiet; else more is read than was written |
| NdOptions.ContextEndsWalk | wiselib.testing/algorithms/6lowpan/icmpv6.h:2213 | a prefix with 0 as its second byte ends the walk inside the option |
| NdOptions.ContextCopyStaysInside | wiselib.testing/algorithms/6lowpan/icmpv6.h:2213 | the copy of a context stays inside the sixteen bytes exactly for options of up to three units |
| NdOptions.TurnDependsOn | wiselib.testing/algorithms/6lowpan/icmpv6.h:1092-1120 | a turn depends on the bytes its reader looks at and on no others, whatever its length byte says |
| NdOptions.WrittenStaysWithin | wiselib.testing/algorithms/6lowpan/icmpv6.h:1903-2218 | readers of written options look at nothing behind them |
| NdMessages.InsertLinkLayerOption | wiselib.testing/algorithms/6lowpan/icmpv6.h:1861-1891 | the option stands at the position, the new length is behind it, nothing else changed |
| NdMessages.InsertPrefixInformation | wiselib.testing/algorithms/6lowpan/icmpv6.h:1938-1976 | likewise; without the on-link flag the length byte 4 is left in the flags |
| NdMessages.InsertAddressRegistrationOption | wiselib.testing/algorithms/6lowpan/icmpv6.h:2044-2067 | likewise; the status byte is 2 whatever the status is |
| NdMessages.InsertContextOption | wiselib.testing/algorithms/6lowpan/icmpv6.h:2125-2173 | likewise, two or three units long by the prefix length |
| NdMessages.InsertBorderRouterOption | wiselib.testing/algorithms/6lowpan/icmpv6.h:2230-2251 | likewise |
| NdMessages.WritePrefixes | wiselib.testing/algorithms/6lowpan/icmpv6.h:1743-1746 | one option for each valid slot but the link-local one, in order |
| NdMessages.WriteContexts | wiselib.testing/algorithms/6lowpan/icmpv6.h:1748-1751 | one option for each live context; each is refreshed to the longest lifetime by its lookup (wiselib.testing/algorithms/6lowpan/nd_storage.h:669-679) |
| NdMessages.WriteRouterAdvertisement | wiselib.testing/algorithms/6lowpan/icmpv6.h:1704-1756 | fixed fields and all options of the node's state |
| NdMessages.WriteNeighborMessage | wiselib.testing/algorithms/6lowpan/icmpv6.h:1758-1778 | target, identifier, registration |
| NdMessages.WrittenMore | wiselib.testing/algorithms/6lowpan/icmpv6.h:1733-1751 | inserting one more option extends the list and keeps the ones before |
| NdReader.ReadLinkLayerOption | wiselib.testing/algorithms/6lowpan/icmpv6.h:1903-1922 | the identifier is the big-endian number of its bytes; the position moves by the length byte |
| NdReader.ProcessPrefixInformation | wiselib.testing/algorithms/6lowpan/icmpv6.h:1986-2028 | the table of the interface takes the prefix that stands there; the copy leaves its memory exactly for lengths above 128 |
| NdReader.ProcessContextOption | wiselib.testing/algorithms/6lowpan/icmpv6.h:2184-2218 | the entry is overwritten, the position moves by eight; the copy leaves its memory exactly for more than three units |
| NdReader.LearnOptions | wiselib.testing/algorithms/6lowpan/icmpv6.h:1088-1120 | for all bytes: the ending is that of the walk, and unless a copy left its memory, so are identifier, last prefix and tables |
| NdReader.WalkSolicitation | wiselib.testing/algorithms/6lowpan/icmpv6.h:946-968 | for all bytes: completeness and identifier are those of the walk |
| NdReader.FindBorderRouterOption | wiselib.testing/algorithms/6lowpan/icmpv6.h:1003-1031 | finds the first border router option, unless an option of length zero comes first |
| NdReader.ReadBorderRouterOption | wiselib.testing/algorithms/6lowpan/icmpv6.h:2261-2296 | the three fields |
| NdReader.ReadRegistrationOption | wiselib.testing/algorithms/6lowpan/icmpv6.h:2079-2089 | lifetime and EUI-64 |
| RouterSolicitation.BackoffOverRuns | wiselib.testing/algorithms/6lowpan/icmpv6.h:1307-1331 | over every run: a counter that is not 0 has a timer pending, and the k-th solicitation since the counter was set to 1 has armed the wait 10, 10, 10, 20, 40, 60, 60, ... |
| RouterSolicitation.WaitIsBackoff | wiselib.testing/algorithms/6lowpan/icmpv6.h:36-39 | the computed wait is min(60, 10 * 2^max(0, k - 3)), for every k |
| RouterSolicitation.QuietAfterAdvertisement | wiselib.testing/algorithms/6lowpan/icmpv6.h:1048 | after an advertisement pending timers run out without a solicitation or a new timer |
| RouterSolicitation.Undisturbed | wiselib.testing/algorithms/6lowpan/icmpv6.h:1325 | each undisturbed timer turn sends one more, until the 8-bit counter wraps |
| RouterSolicitation.SilentAfter255 | wiselib.testing/algorithms/6lowpan/icmpv6.h:1325 | unanswered solicitation falls silent with the 255th message |
| RouterSolicitation.TwoTimers | wiselib.testing/algorithms/6lowpan/icmpv6.h:1048 | an advertisement followed by a new start leaves two timers pending, and both keep sending |
| PacketPool.PacketPool.GetUnusedPacketWithNumber | wiselib.testing/algorithms/6lowpan/ipv6_packet_pool_manager.h:90-104 | hands out the lowest free packet, reset and without a next header, and touches no other |
| PacketPool.PacketPool.CleanPacket | wiselib.testing/algorithms/6lowpan/ipv6_packet_pool_manager.h:131-135 | frees exactly that packet |
| PrefixTable.SetRefines | wiselib.testing/algorithms/6lowpan/interface_manager.h:326-360 | insert-or-update on a bounded map: fails and changes nothing exactly if the address is absent and no slot is free |
| PrefixTable.SlotTaken | wiselib.testing/algorithms/6lowpan/interface_manager.h:326-341 | the slot taken is that of the address, else the last free one, else none |
| PrefixTable.RunKeepsGood | wiselib.testing/algorithms/6lowpan/interface_manager.h:303-361 | under any interleaving of sets, timer turns and expiries the memory stays intact exactly as long as no length is above 128; then addresses stay pairwise distinct and slot 0 keeps the link-local address |
| PrefixTable.AgeClosedForm | wiselib.testing/algorithms/6lowpan/icmpv6.h:1502-1547 | after k turns L - 60 k while that is at least 60, else 0; preferred likewise |
| PrefixTable.AgesWellExactly | wiselib.testing/algorithms/6lowpan/icmpv6.h:1513 | the closed form holds exactly for lifetimes 0 or at least 60; 1 to 59 underflow |
| PrefixTable.FiftyNineIsForever | wiselib.testing/algorithms/6lowpan/icmpv6.h:1513 | a lifetime of 59 becomes infinite |
| PrefixTable.InfiniteStays | wiselib.testing/algorithms/6lowpan/icmpv6.h:1508 | infinite and expired entries do not age |
| PrefixTable.AgeKeepsOrder | wiselib.testing/algorithms/6lowpan/icmpv6.h:1511-1529 | after any number of turns the preferred lifetime is at most the valid one |
| PrefixTable.CountIsValidGlobal | wiselib.testing/algorithms/6lowpan/icmpv6.h:1502-1552 | the number computed is the number of global slots valid afterwards |
| InterfaceManager.InterfaceManager.Init | wiselib.testing/algorithms/6lowpan/interface_manager.h:102-127 | slot 0 of both interfaces gets the link-local address, the other slots stay |
| InterfaceManager.InterfaceManager.SendToInterface | wiselib.testing/algorithms/6lowpan/interface_manager.h:188-241 | in place: an unspecified source and a zero checksum are filled in, anything else stays |
| InterfaceManager.SourceIsSpecified | wiselib.testing/algorithms/6lowpan/interface_manager.h:202-216 | the source filled in is the address of the first slot in use from 1 on, else of slot 0, and never the unspecified one |
| InterfaceManager.InterfaceManager.FirstAddressOf | wiselib.testing/algorithms/6lowpan/interface_manager.h:202-216 | the loop over the slots |
| InterfaceManager.InitialRowIsGood | wiselib.testing/algorithms/6lowpan/interface_manager.h:110-125 | what initialisation leaves is a row that runs keep |
| InterfaceManager.InterfaceManager.SetPrefixForInterface | wiselib.testing/algorithms/6lowpan/interface_manager.h:303-361 | in place: the row becomes what insert-or-update gives, the other interface stays, all error codes; exactly lengths above 128 leave the memory |
| InterfaceManager.InterfaceManager.FindSlot | wiselib.testing/algorithms/6lowpan/interface_manager.h:326-341 | the slot of the address, else the last free one |
| InterfaceManager.InterfaceManager.AgePrefixes | wiselib.testing/algorithms/6lowpan/icmpv6.h:1502-1552 | in place: every global slot ages, the count and whether one expires soon |
| InterfaceManager.InterfaceManager.AgeOne | wiselib.testing/algorithms/6lowpan/icmpv6.h:1506-1548 | one slot, as the nested conditions take it |
| InterfaceManager.InterfaceManager.EmptyGlobals | wiselib.testing/algorithms/6lowpan/icmpv6.h:1436-1437 | all slots but the first are emptied |
| Ipv6Address.FormedIsNotNull | wiselib.testing/algorithms/6lowpan/ipv6_address.h:156-172 | no formed address is the unspecified one, since the U bit is set |
| Ipv6Address.FormedKeepsPrefix | wiselib.testing/algorithms/6lowpan/ipv6_address.h:126-140 | prefix bytes in front of the identifier and off the U bit are kept |
| Ipv6Address.IidRoundTrip | wiselib.testing/algorithms/6lowpan/ipv6_address.h:156-200 | identifiers shorter than eight bytes are read back; eight-byte ones lose the U bit |
| Ipv6Address.IidSurvives | wiselib.testing/algorithms/6lowpan/ipv6_address.h:179-200 | exactly when an identifier survives |
| Ipv6Address.SameAddressMeans | wiselib.testing/algorithms/6lowpan/ipv6_address.h:338-346 | comparison is equality of all sixteen bytes |
| Ipv6Address.CommonPrefixMeans | wiselib.testing/algorithms/6lowpan/ipv6_address.h:367-378 | the result is the number of equal leading bytes, and the next one differs |
| Ipv6Address.IPv6Address.SetPrefix | wiselib.testing/algorithms/6lowpan/ipv6_address.h:126-140 | in place, whole bytes copied and the partial one or-ed in, exactly for lengths up to 128 |
| Ipv6Address.CopyStaysInside | wiselib.testing/algorithms/6lowpan/ipv6_address.h:126-140 | the bytes written for a prefix length are all inside the address exactly for lengths up to 128 |
| Ipv6Address.IPv6Address.SetLongIid | wiselib.testing/algorithms/6lowpan/ipv6_address.h:156-172 | in place, the identifier's bytes from the end and the U bit |
| Ipv6Address.IPv6Address.GetIid | wiselib.testing/algorithms/6lowpan/ipv6_address.h:179-200 | the identifier, without the U bit if it is eight bytes long |
| Ipv6Address.IPv6Address.CommonPrefixLength | wiselib.testing/algorithms/6lowpan/ipv6_address.h:367-378 | the loop computes the common prefix |
| Checksum.CodeAgainstRfc | wiselib.testing/algorithms/6lowpan/ipv6_packet.h:474-477 | equal to the complement of section 1 of RFC 1071 exactly if one folding is enough, otherwise exactly one too large |
| Checksum.SumIsValueModulo | wiselib.testing/algorithms/6lowpan/ipv6_packet.h:495-505 | the word sum is congruent modulo 65535 to the number the padded bytes spell |
| Checksum.SumSplits | wiselib.testing/algorithms/6lowpan/ipv6_packet.h:488-506 | summing a, then b with the odd flag of the length of a, is summing a followed by b, for all byte strings |
| Checksum.OnesSumRepresents | wiselib.testing/algorithms/6lowpan/ipv6_packet.h:442-478 | the one's complement sum is congruent to the plain sum |
| Packet.PacketAgainstRfc | wiselib.testing/algorithms/6lowpan/ipv6_packet.h:442-478 | the same for every packet, over the pseudo-header of section 8.1 of RFC 8200 and the payload |
| Packet.CarryIsLost | wiselib.testing/algorithms/6lowpan/ipv6_packet.h:475 | an echo request, with its pseudo-header and a zeroed field, for which it is one too large |
| Packet.PseudoHeaderBytes | wiselib.testing/algorithms/6lowpan/ipv6_packet.h:442-470 | the pseudo-header of section 8.1 of RFC 8200 byte by byte |
| Packet.NoOverflow | wiselib.testing/algorithms/6lowpan/ipv6_packet.h:447-475 | no packet overflows the 32-bit sum |
| Packet.SwappingKeepsChecksum | wiselib.testing/algorithms/6lowpan/icmpv6.h:805-825 | exchanging source and destination leaves the checksum unchanged |
| Packet.ReceiverAgrees | wiselib.testing/algorithms/6lowpan/icmpv6.h:779-782 | what the sender stored is what the receiver recomputes after zeroing the field |
| Packet.NetworkOrder | wiselib.testing/algorithms/6lowpan/ipv6_packet.h:195-210 | on either kind of node numbers go out in network byte order |
| Packet.IPv6Packet.SetPayload | wiselib.testing/algorithms/6lowpan/ipv6_packet.h:195-210 | exactly the bytes of the elements are replaced |
| Packet.IPv6Packet.ChecksumSerialize | wiselib.testing/algorithms/6lowpan/ipv6_packet.h:488-506 | adds the part sum, in 32 bits, with an odd start |
| Packet.IPv6Packet.GenerateChecksum | wiselib.testing/algorithms/6lowpan/ipv6_packet.h:442-478 | the checksum over pseudo-header and payload |
| Packet.IPv6Packet.TransportNextHeader | wiselib.testing/algorithms/6lowpan/ipv6_packet.h:243-276 | the stored next header, else that of the packet, else 255; the walk over extension headers is taken exactly in the last case |
| Packet.IPv6Packet.WalkExtensionHeaders | wiselib.testing/algorithms/6lowpan/ipv6_packet.h:243-276 | the loop over extension headers ends, always with 255, and leaves the transport position moved |
| Packet.StoredCounts | wiselib.testing/algorithms/6lowpan/ipv6_packet.h:243-276 | a stored next header counts; without one 17 and 58 are known, and everything else is 255 |
| Packet.StampedAt | wiselib.testing/algorithms/6lowpan/interface_manager.h:221-232 | a zero field at byte 2 of an ICMPv6 message or byte 6 of a UDP datagram takes the checksum; no other byte and no other packet changes |
| Packet.IPv6Packet.StampChecksum | wiselib.testing/algorithms/6lowpan/interface_manager.h:221-232 | a zero checksum field is filled in, any other stays |
| Packet.IPv6Packet.CheckChecksum | wiselib.testing/algorithms/6lowpan/icmpv6.h:779-782 | the field is zeroed and the verdict is the comparison |
| SplitN3.RoundTrip | wiselib.testing/util/split_n3.h:54-149 | every line of tokens, separated by any blanks, tabs, line feeds and carriage returns, with one of them in front of the final dot, scans into exactly the values of those tokens |
| SplitN3.SplitN3.ParseLine | wiselib.testing/util/split_n3.h:54-66 | in place, for every line that scans: the elements are the scanned strings, each NUL-terminated in the one buffer, none altered by a later one |
| SplitN3.SplitPrinted | wiselib.testing/util/split_n3.h:54-149 | the two together |
| SplitN3.TokenScanned | wiselib.testing/util/split_n3.h:71-79 | one printed token, followed by a blank of any kind, scans into its value |
| SplitN3.PieceScanned | wiselib.testing/util/split_n3.h:71-79 | and with any blanks in front of it too |
| SplitN3.LiteralScanned | wiselib.testing/util/split_n3.h:81-122 | a printed literal with its suffix |
| SplitN3.ItemsScanned | wiselib.testing/util/split_n3.h:81-122 | the escapes of a literal, `\"` kept and `\n` decoded |
| SplitN3.SuffixScanned | wiselib.testing/util/split_n3.h:103-117 | language tag or data type belong to the literal |
| SplitN3.UriScanned | wiselib.testing/util/split_n3.h:138-149 | a URI ends behind its first `>` |
| SplitN3.WordScanned | wiselib.testing/util/split_n3.h:130-136 | a name ends at white space |
| SplitN3.SplitN3.ParseElement | wiselib.testing/util/split_n3.h:71-79 | in place, one element and the position behind it |
| SplitN3.SplitN3.ParseLiteral | wiselib.testing/util/split_n3.h:81-122 | in place, with the shifts that decoding makes |
| SplitN3.SplitN3.ParseName | wiselib.testing/util/split_n3.h:130-136 | in place |
| SplitN3.SplitN3.ParseUri | wiselib.testing/util/split_n3.h:138-149 | in place |
| FloatingPoint.RoundTrip | wiselib.stable/util/serialization/floating_point.h:138-272 | reading what was written gives back every 32-bit pattern |
| FloatingPoint.WidenKeepsValue | wiselib.stable/util/serialization/floating_point.h:138-164 | the eight bytes stand for the same number exactly if the exponent field is 1 to 254 |
| FloatingPoint.WidenFields | wiselib.stable/util/serialization/floating_point.h:138-164 | sign, exponent and fraction of what is written |
| FloatingPoint.NarrowFields | wiselib.stable/util/serialization/floating_point.h:197-212 | sign, exponent and fraction of what is read |
| FloatingPoint.NarrowTruncates | wiselib.stable/util/serialization/floating_point.h:197-212 | a double in range is truncated towards zero by less than one unit in the last place |
| FloatingPoint.SameWireBytes | wiselib.stable/util/serialization/floating_point.h:138-255 | nodes of either byte order that hold the same number put the same bytes on the wire |
| FloatingPoint.AcrossNodes | wiselib.stable/util/serialization/floating_point.h:138-272 | what a little-endian node writes, a big-endian node reads back |
| FloatingPoint.WriteLittleEndian | wiselib.stable/util/serialization/floating_point.h:138-164 | in place, byte by byte, on a little-endian node |
| FloatingPoint.ReadLittleEndian | wiselib.stable/util/serialization/floating_point.h:197-212 | in place, on a little-endian node |
| FloatingPoint.WriteBigEndian | wiselib.stable/util/serialization/floating_point.h:229-255 | in place, on a big-endian node |
| FloatingPoint.ReadBigEndian | wiselib.stable/util/serialization/floating_point.h:257-272 | in place, on a big-endian node |
| StandaloneMath.SqrtEps | wiselib.testing/util/standalone_math.h:220-234 | terminates for every x >= 0 and epsilon > 0 with abs(y y - x) <= epsilon, at the first iterate that is close enough; -1 for negative x |
| StandaloneMath.EnoughTurns | wiselib.testing/util/standalone_math.h:229-232 | some iterate is close enough |
| StandaloneMath.ExcessShrinks | wiselib.testing/util/standalone_math.h:230 | after the first turn y y >= x, and every further turn divides the excess by at least 4 |
| StandaloneMath.StepFromAnywhere | wiselib.testing/util/standalone_math.h:230 | one turn leads above the root |
| StandaloneMath.CloseToRoot | wiselib.testing/util/standalone_math.h:229 | closeness of squares bounds the distance from the root |
| TinyOsClock.ReadingIsCeiling | wiselib.stable/external_interface/tinyos/tinyos_clock.h:84-112 | 1000 seconds(t) + milliseconds(t) is ceil(1000 t / 1024) |
| TinyOsClock.ReadingIsMonotone | wiselib.stable/external_interface/tinyos/tinyos_clock.h:84-112 | so the combined reading is monotone and less than one millisecond above the exact value |
| TinyOsClock.ThreeShifts | wiselib.stable/external_interface/tinyos/tinyos_clock.h:107-111 | floor(3 x / 128) as a sum of three divisions by 128 |
| TinyOsClock.ShiftIsDivision | wiselib.stable/external_interface/tinyos/tinyos_clock.h:107-111 | a 16-bit shift by seven is a division by 128 |
| TinyOsClock.RightUntilOverflow | wiselib.stable/external_interface/tinyos/tinyos_clock.h:95-112 | with every sum in 16 bits the conversion is right if and only if x + 85 does not overflow |
| TinyOsClock.TicksRefine | wiselib.stable/external_interface/tinyos/tinyos_clock.h:95-112 | the division-free form is the ceiling |
| TinyOsClock.MillisecondsReachThousand | wiselib.stable/external_interface/tinyos/tinyos_clock.h:84-87 | the milliseconds are 1000 exactly in the last tick of a second |
| UartFraming.FrameArrives | util/isense/flash_rdfprovider/transfer_templated_strings.py:138-157 | from every state a frame delivers exactly its body if and only if nothing but DLEs follows the first DLE of the body |
| UartFraming.FrameDelivers | util/isense/flash_rdfprovider/transfer_templated_strings.py:138-157 | and then ends in idle exactly if the packet is accepted, from every state |
| UartFraming.FrameEnds | util/isense/flash_rdfprovider/transfer_templated_strings.py:112-133 | which packets are handled and end in idle, by type and length, and which end in escape, from every state |
| UartFraming.UartSlave.ReceivePacket | util/isense/flash_rdfprovider/transfer_templated_strings.py:112-136 | in place: raises exactly when an index is out of range or the asserted length is missing; a transfer reply records its checksum |
| UartFraming.UartSlave.ReceiveTransfer | util/isense/flash_rdfprovider/transfer_templated_strings.py:103-110 | in place: chunk and checksum of a reply that is long enough |
| UartFraming.ReplyRecorded | util/isense/flash_rdfprovider/transfer_templated_strings.py:103-110 | the reply for a chunk records exactly its checksum, for all 32-bit numbers |
| UartFraming.StreamDelivers | util/isense/flash_rdfprovider/transfer_templated_strings.py:138-157 | a stream of frames that are accepted, with DLE-free noise between them, delivers the bodies in order and nothing else |
| UartFraming.StreamExactly | util/isense/flash_rdfprovider/transfer_templated_strings.py:138-157 | exactly which streams of frames with DLE-free noise between them deliver the bodies in order and nothing else: no noise that follows a rejected packet has an ETX in front of its first STX |
| UartFraming.NoiseInEscape | util/isense/flash_rdfprovider/transfer_templated_strings.py:138-157 | what noise delivers behind a rejected packet |
| UartFraming.RejectedComesAgain | util/isense/flash_rdfprovider/transfer_templated_strings.py:138-157 | a rejected packet leaves the receiver in escape: an ETX alone delivers it again |
| UartFraming.TailDelivers | util/isense/flash_rdfprovider/transfer_templated_strings.py:138-157 | every text followed by DLE ETX delivers something, no longer than what was received |
| UartFraming.UartSlave.ReceiveByte | util/isense/flash_rdfprovider/transfer_templated_strings.py:102-157 | one byte, in place; an exception is raised exactly for a packet that is not accepted, and the state stays |
| UartFraming.UartSlave.ReceiveAll | util/isense/flash_rdfprovider/transfer_templated_strings.py:138-157 | many bytes; the checksums are those of the packets handed on |
| UartFraming.Line.SendString | util/isense/flash_rdfprovider/transfer_templated_strings.py:166-170 | exactly one frame is written |
| LorienDebug.NumeralRoundTrip | wiselib.stable/external_interface/lorien/lorien_debug.h:60-89 | the numeral is canonical and evaluates back to the value |
| LorienDebug.NumeralUnique | wiselib.stable/external_interface/lorien/lorien_debug.h:60-89 | a canonical numeral is the numeral of its value |
| LorienDebug.TruncatedDigit | wiselib.stable/external_interface/lorien/lorien_debug.h:72-77 | what a truncating division leaves, for negative values too |
| LorienDebug.SymmetricTable | wiselib.stable/external_interface/lorien/lorien_debug.h:76 | the table of 71 characters serves remainders of both signs |
| LorienDebug.Ltoa | wiselib.stable/external_interface/lorien/lorien_debug.h:60-89 | in place: the numeral and a NUL, or an empty text for a bad base |
| LorienDebug.Ultoa | wiselib.stable/external_interface/lorien/lorien_debug.h:91-119 | in place: the same numeral, for values that are not negative |
| LorienDebug.ReverseInPlace | wiselib.stable/external_interface/lorien/lorien_debug.h:82-87 | the two pointers reverse the text |
| PeerCache.FifoGuarantee | apps/pc_apps/coap_test/udp4radio.h:104-117 | a new peer keeps its index through the next 48 new ones, and the 49th takes it |
| PeerCache.SlotKept | apps/pc_apps/coap_test/udp4radio.h:104-117 | an entry stays until the round-robin index comes round to it |
| PeerCache.AddGivesPeer | apps/pc_apps/coap_test/udp4radio.h:104-117 | the index returned is 1 to 49 and its entry is the peer; no other entry changes |
| PeerCache.AlwaysDistinct | apps/pc_apps/coap_test/udp4radio.h:104-138 | assigned entries stay pairwise distinct |
| PeerCache.ReachedByRun | apps/pc_apps/coap_test/udp4radio.h:104-138 | the invariant of every run |
| PeerCache.FindSound | apps/pc_apps/coap_test/udp4radio.h:127-138 | finding an index means the entry is the peer, and the other way round |
| PeerCache.Udp4Radio.AddCorrespondent | apps/pc_apps/coap_test/udp4radio.h:104-117 | in place |
| PeerCache.Udp4Radio.FindCorrespondent | apps/pc_apps/coap_test/udp4radio.h:127-138 | the search loop |
| VectorStatic.VectorStatic.Insert | wiselib.stable/util/pstl/vector_static.h:186-202 | splices one element in within capacity; a full vector is left alone |
| VectorStatic.VectorStatic.Erase | wiselib.stable/util/pstl/vector_static.h:217-228 | splices one element out; the loop reads behind the array exactly if the vector is full and something is erased |
| VectorStatic.VectorStatic.EraseRange | wiselib.stable/util/pstl/vector_static.h:230-246 | splices a range out |
| VectorStatic.VectorStatic.PushBack | wiselib.stable/util/pstl/vector_static.h:166-173 | appends within capacity |
| VectorStatic.VectorStatic.PopBack | wiselib.stable/util/pstl/vector_static.h:175-179 | drops the last element, if any |
| VectorStatic.VectorStatic.Assign | wiselib.stable/util/pstl/vector_static.h:159-164 | copies of one element, up to the capacity |
| VectorStatic.VectorStatic.AssignRange | wiselib.stable/util/pstl/vector_static.h:151-157 | a range, up to the capacity |
| VectorStatic.VectorStatic.Find | wiselib.stable/util/pstl/vector_static.h:260-266 | the first equal element, or the end |
| VectorStatic.InsertThenErase | wiselib.stable/util/pstl/vector_static.h:186-228 | erasing what was inserted gives back the sequence |
| RoutingTable.RoutingTable.Subscript | wiselib.stable/internal_interface/routing_table/routing_table_static_array.h:71-90 | the place of the key; an absent key is appended, unless the table is full: then nothing changes |
| RoutingTable.RoutingTable.Put | wiselib.stable/internal_interface/routing_table/routing_table_static_array.h:71-90 | an assignment through the subscript is a map update |
| RoutingTable.RoutingTable.Insert | wiselib.stable/internal_interface/routing_table/routing_table_static_array.h:95-108 | a present key keeps its value, an absent one is added, a full table is left alone |
| RoutingTable.RoutingTable.Find | wiselib.stable/internal_interface/routing_table/routing_table_static_array.h:116-124 | agrees with the abstract map |
| RoutingTable.MapOf | wiselib.stable/internal_interface/routing_table/routing_table_static_array.h:71-124 | with distinct keys, the map holds exactly the pairs of the table |
| RoutingTable.AppendNew | wiselib.stable/internal_interface/routing_table/routing_table_static_array.h:77-79 | appending an absent key keeps keys distinct and is one map update |
| RoutingTable.UpdateAt | wiselib.stable/internal_interface/routing_table/routing_table_static_array.h:71-90 | writing a value through a found place is one map update |

## Left out

- Icmpv6.ICMPv6.Receive: messages whose length field exceeds the 1500-byte buffer are excluded by its precondition; what receivers registered for echo replies and the RPL class do is not modelled, nor is anything after a copy that left its memory.
- Icmpv6.ICMPv6.SendNdMessage: of the IP layer only the result that it polls for a route is modelled, with a flag for whether routes are missing; what happens to the message on the radio is not. The SLIP build, which allows solicitations on the serial interface, is left out.
- Icmpv6.ICMPv6.NdTimeout: the default router list and the neighbor cache are not modelled; what they answer in a turn and the neighbors they want messages sent to come in as parameters. Reasons to solicit that arise inside the loops over contexts and prefixes are acted on right behind the loop; starting twice is starting once, and the solicitation holds nothing of the tables.
- Icmpv6.ICMPv6.ReceiveRouterAdvertisement: the default router entry of the source is part of the neighbor cache and left out.
- Icmpv6.ICMPv6.ReceiveNeighborMessage: what the neighbor cache makes of a registration is left out; nothing that is sent depends on it, since the status byte is constant.
- NdExchange.AdvertisementIsHeard: advertisements with contexts that are not quiet are not followed up to the receiver's tables; what is proved of them is that the walk leaves its options, and that it ends in the prefix when the second byte is 0.
- NdExchange.Advertise: messages that need a route are left to the routing protocol; what goes over the radio is received as it was sent, without compression and fragmentation.
- Ipv6.IPv6.Receive: packets with hop-by-hop options are excluded, since their handlers are callbacks; what a packet that is sent on looks like is not modelled. Traffic class and flow label stay 0.
- RouterSolicitation.WaitIsBackoff: the shift is taken on mathematical integers; in C++ large shifts of an int are undefined. Arming a timer is assumed to succeed.
- NdReader.LearnOptions: option readers may look up to 32 bytes behind the end of a message; the buffer array is modelled with 32 bytes of memory behind its 1500. Which bytes a reader looks at is stated in NdOptions.TurnDependsOn. The process that would not advance on an interface other than the radio cannot be reached, since discovery is enabled on the radio only.
- Icmpv6.ICMPv6.constructor: at most 28 prefixes per interface (the configuration has 2), so that every advertisement fits the buffer; at least 2, since neighbor messages are sent from slot 1.
- Packet.IPv6Packet.TransportNextHeader: the transport position is tracked, but payloads are read at the position behind the fixed header; packets with extension headers are none that ICMPv6 takes.
- Packet.IPv6Packet.Reset: header fields of less than a byte (version, traffic class, flow label) are set as whole bytes.
- NdNode.SolicitsAfterExpiry: the validity flag of a fresh context is indeterminate in C++; it is false in the model.
- VectorStatic.VectorStatic.Erase: the array has one cell more than the vector, for the read behind it; value and range constructors, multiple insert and swap are left out.
- RoutingTable.RoutingTable.Insert: the flag it returns, which is not set on insertion, and operator= are left out.
- SplitN3.SplitN3.ParseLine: lines on which the source's assertions fail or which have more elements than the array are excluded.
- StandaloneMath.SqrtEps: exact reals instead of floating point; the angle tables, pow and rounding functions are left out.
- LorienDebug.Ltoa: the buffer must hold the numeral, which the source demands silently; numbers are unbounded.
- UartFraming.UartSlave.ReceiveByte: only nodes of the iSense type; the line-based branch is left out, and of the interpretation of packets all that is only shown.
- The forwarding, fragmentation and compression layers, routing protocols, radios, timers, debug output and applications.
- Fixed-size context manager functions other than the lookup by number; the callback registries and byte-reversal serialization, which would only add easy members.
