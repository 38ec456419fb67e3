# A model of the IP/RIP stack

This project models a small user-space IP stack: every node runs a RIP routing layer, a network layer that builds,
verifies and forwards IP packets, and link layers that carry frames over UDP sockets. It proves what the routing
protocol guarantees for a whole network of such nodes, what the Internet checksum code guarantees for every buffer,
that the chained hash table is a map, and that the hand-off from the packet queue to a link's send buffer loses
nothing but the rest of a frame whose send fails. `dafny verify dfyconfig.toml` checks everything.

## How it is built

- `Words.dfy` has the machine words. `RipTable.dfy` has, as functions on values, what each protocol step does to a
  routing table; `RipLayer.dfy` is the layer itself, a class whose loops update the table in place and are proved
  against those functions; `RipWire.dfy` is the message format.
- `Topology.dfy` is the configured network and walks in it. `Network.dfy` is the network as a state machine. An event
  is one atomic call on one node: send on an interface, deliver a frame, refresh, take an interface down or up, let
  time pass. A frame stays in the set of sent frames for good, so delivering it never, late, twice or out of order
  covers loss, delay, duplication and reordering. A run is any sequence of enabled events from the initial state.
  A request only makes its receiver send, so it appears as the sends it causes; so does the announcement after an
  interface went down.
- `RipSafety.dfy`, `LoopFreedom.dfy`, `Convergence.dfy`, `Aging.dfy`, `LinkFailure.dfy` and `RoutingLoop.dfy` hold the
  theorems about runs. Time is in microseconds; the clock is one for all nodes, of which only differences at one node
  matter. Timed theorems take the longest gap between two refreshes of a node (`p`) and the longest life of a frame
  (`l`) as parameters; the configured timers give `p` = 12 seconds, so a route lives at most 24 seconds and an epoch
  is 24 seconds plus `l`.
- `Checksum.dfy` and `IpHeader.dfy` are the checksum and the 20-byte header, with the byte order of the host as a
  parameter. `Forwarding.dfy` is what the network layer decides about a packet. `NetworkLayer.dfy` rewrites packet
  buffers in place and is proved against these. `Reception.dfy` is the loop that reads a frame off a socket.
- `Delivery.dfy` follows a packet through a changing network whose nodes may have different byte orders, and
  `Traps.dfy` one that is caught where routes lead only to one another.
- `LinkedRing.dfy` has the intrusive circular lists, on the heap, and `HashTable.dfy` the table made of them.
- `HandOff.dfy` is the queue thread and the link threads, interleaved at every access to a shared variable.
  `HandOffSteps.dfy` is what either thread does in a round of its own and which frames are dropped, `SendFailure.dfy`
  what happens when sends fail, and `Blocking.dfy` what happens when an interface goes down with a frame in its slot.

The topology is assumed to be what the link files describe: ports identify nodes, virtual addresses identify
interfaces, link ends mirror each other, and two nodes share at most one link, because the receiving interface is
found by the sender's port.

## What the code does that its design would not suggest

- What keeps routes free of loops, that each points to a node with a strictly smaller cost, does not survive erasure.
  Which steps end it can be told before they are taken: a refresh or an interface going down does exactly if it makes
  a node forget an address that another node goes on routing to it (`LoopFreedom.DescentAfterErasure`), a delivery
  exactly if the receiver adopts a cost that the sender no longer stands by (`LoopFreedom.DescentAfterDelivery`), and
  `LoopFreedom.DescentThroughout` says so for whole runs. `RoutingLoop.LoopAfterExpiry` is a run of four nodes, all
  refreshing every 12 seconds, in which two routes expire and three nodes end up forwarding in a circle, poisoned
  reverse notwithstanding. The circle stands exactly as long as none of its nodes forgets the address or adopts a
  route from outside (`Traps.TrapStands`). Until then the fate of a packet caught there depends on the byte orders of
  the nodes it passes alone (`Traps.CircleFate`): it circles for ever unless it comes to a big-endian node with TTL 1,
  which drops it, or 201, which makes a RIP message of it (`Traps.CirclesIff`); among nodes of one kind a packet
  launched with TTL 16 circles for ever (`Traps.PacketsCircle`).
- A route's timestamp moves only when its cost falls, so routes die even while neighbours keep advertising them:
  `Aging.RouteLifetime`.
- `ntohs` is applied to the 8-bit TTL and two bytes are written back. A little-endian node therefore never drops a
  packet for its TTL and overwrites the protocol with 255; a big-endian one drops only at TTL 1:
  `IpHeader.TransitBytes`, `IpHeader.TtlNeverExpires`. The hop bound of `Delivery.PacketsArrive` comes from route
  costs; a TTL of 16 taken down by one per transit, as was intended, would suffice as well:
  `Delivery.IntendedTtlSuffices`.
- The send buffers hold 1024 bytes of payload, the receive buffer 1024 bytes of frame. A frame is handed over whole
  exactly if it has at most 1024 bytes (`Reception.WholeIffShort`); the loop waits for more of a longer one and lays the
  next frame over it (`Reception.LongFrame`). So payloads of 1005 to 1024 bytes never arrive: `Delivery.PacketsArrive`.
- The `send` command takes any protocol number. With 200 the packet ends at the RIP layer of the first neighbour:
  `Delivery.PacketsArrive`.
- A packet for one of the sender's own addresses is sent out on that interface: `Delivery.OwnAddressDetour`. Without
  erasure it comes back if the neighbour's route costs at most 15: `Delivery.OwnAddressReturns`.
- Two folds are too few for long buffers: `Checksum.RightIffShort` says that `ip_sum` is right for all buffers of `n`
  bytes exactly if `n` is at most 131076, and `Checksum.LongBufferFails` gives a buffer for every other `n`.
- A link thread comes to free a pointer it did not get from `malloc` exactly if a send on its link fails
  (`SendFailure.FreeAfterFailure`), and `SendFailure.BadFreeReachable` is a run in which that happens.
- If an interface goes down while its slot is full and another frame waits for the slot, no further frame is handed to
  any link until that very interface comes up again: `Blocking.OneLinkBlocksAll`, `Blocking.BlockedReachable`.

## Model

| member | source | states |
|---|---|---|
| RipTable.SortedKeys | RipLayer.cc:129-131 | iteration over the table visits keys in ascending order, all of them keys of the table, as many as there are |
| RipTable.KeyIndex | RipLayer.cc:129-131 | the iteration misses no key |
| RipTable.MergeKeeps | RipLayer.cc:62-110 | processing a response forgets no address, worsens no cost, and leaves the node's own addresses alone |
| RipTable.MergeRoute | RipLayer.cc:74-107 | a route changes only to a strictly cheaper one just heard in a usable entry, with the receiving interface and time |
| RipTable.MergeCovers | RipLayer.cc:74-107 | every usable entry is matched afterwards by a route at least as cheap as its cost plus one |
| RipTable.MergeIsMinimum | RipLayer.cc:62-110 | one response: known addresses are the old and the offered ones, at the least of old and offered cost |
| RipTable.MergeIsPointwiseMinimum | RipLayer.cc:55-111 | after any sequence of responses an address is known iff it was known or offered, at the least of all these costs |
| RipTable.MergeOrderIrrelevant | RipLayer.cc:55-111 | two sequences of responses with the same offers leave the same costs, whatever their order, repetition and batching |
| RipTable.PoisonIsSilence | RipLayer.cc:74-77 | entries at cost 16 have no effect, so poisoned reverse is split horizon |
| RipTable.AdvertOfKey | RipLayer.cc:131-139 | a message mentions every route of the table |
| RipTable.KeyOfAdvert | RipLayer.cc:131-139 | a message mentions nothing but routes of the table |
| RipWire.EntryRoundTrip | RipLayer.cc:64-73 | reading back a written entry gives cost, address and mask |
| RipWire.MsgRoundTrip | RipLayer.cc:141-149 | command, number of entries and entries survive serialization, in 4 + 12n bytes |
| RipWire.AnnouncementRoundTrip | RipLayer.cc:120-150 | a receiver reads the sender's table in key order with routes learned on that interface at cost 16, and merging it equals merging it without them |
| RipWire.TableBytes | RipLayer.cc:125-149 | the message for a table, byte for byte: command, number of entries, and for each key in ascending order cost (16 if learned on that interface), address and mask, high byte first |
| RipWire.BodyBytes | RipLayer.cc:56-73 | the entries read from any body that is long enough, byte for byte: how many, and cost, address and mask of each |
| RipLayerModel.RipLayer.constructor | RipLayer.cc:10-32 | every interface is up, the table holds exactly the own addresses at cost 0 over their own interfaces with the full mask, and a request with it goes out on every interface, byte for byte |
| RipLayerModel.RipLayer.IsMyInterface | NodeImpl.cc:59-64 | true iff the address is the local address of an interface, up or down |
| RipLayerModel.RipLayer.GetInterface | NodeImpl.cc:66-72 | the first interface with the local address, or none |
| RipLayerModel.RipLayer.UpdateRouteTable | RipLayer.cc:55-111 | the byte loop computes the merge of the entries that the bytes of the body tell |
| RipLayerModel.RipLayer.PrepareMsgIfc | RipLayer.cc:120-151 | hands over exactly the announcement of the table for that interface, byte for byte |
| RipLayerModel.RipLayer.PrepareMsg | RipLayer.cc:112-118 | exactly one announcement for each interface that is up and none for others, in order, with the command given, byte for byte |
| RipLayerModel.RipLayer.RefreshRouteTable | RipLayer.cc:153-177 | erasing while iterating leaves exactly the routes that are not stale |
| RipLayerModel.RipLayer.GetNextAddress | RipLayer.cc:179-188 | the scan agrees with looking the key up; without a match the default stays |
| RipLayerModel.RipLayer.RemoveIfcEntry | RipLayer.cc:234-252 | removes the address and all routes over its interface, nothing else, then announces on every interface that is up |
| RipLayerModel.RipLayer.AddIfcEntry | RipLayer.cc:254-266 | the address is present at cost 0 over its own interface, with the full mask, stamped now; nothing else changes |
| RipLayerModel.RipLayer.DownCmd | NodeImpl.cc:109-111 | the interface is down before the announcements, which go out on every other interface that is up and not on it |
| RipLayerModel.RipLayer.UpCmd | NodeImpl.cc:122-124 | the interface is up and its address present; nothing is announced |
| RipLayerModel.RipLayer.TransferIpToRip | RipLayer.cc:34-52 | by the first two bytes: requests are answered on every interface that is up, responses merged, other commands ignored |
| RipLayerModel.AnnouncementsTellAll | RipLayer.cc:112-118 | what is announced tells the table exactly once on every interface that is up, interface numbers ascending, and on no other |
| RipLayerModel.AnnouncementsAreSends | RipLayer.cc:112-150 | what a receiver decodes from any announced frame is the command given and the message of the network model |
| Topology.FindVip | NodeImpl.cc:66-72 | the first interface with the address iff there is one |
| Topology.FindPort | NodeImpl.cc:145-153 | the first interface with the remote port iff there is one |
| Topology.ArrivalIsMirror | LinkLayer.cc:88-120 | looking the sender up by port finds the link the frame was sent on |
| Network.EnabledExact | LinkLayer.cc:88-120 | sends are possible on interfaces that are up, and any frame ever sent can be delivered while the interface at the other end of its link is up |
| Network.SendInv | RipLayer.cc:120-137 | what is announced from a good table is true: each cost below 16 is the length of a walk |
| Network.DeliverInv | RipLayer.cc:74-106 | processing a true frame on an interface that is up keeps the network invariant |
| Network.RefreshInv | RipLayer.cc:153-177 | expiry keeps the network invariant |
| Network.DownInv | RipLayer.cc:234-252 | taking an interface down keeps the network invariant |
| Network.UpInv | RipLayer.cc:254-266 | taking an interface up keeps the network invariant |
| Network.ReachableInv | RipLayer.cc:10-28 | the invariant holds in every state of every run |
| RipSafety.WalkSoundness | RipLayer.cc:55-111 | every stored cost is the length of a real walk to the owner that starts on the next-hop interface, so no distance is underestimated |
| RipSafety.NeverStored | RipLayer.cc:74-106 | an address more than 16 links away, or owned by nobody, is never stored |
| RipSafety.CostRange | RipLayer.cc:74-106 | stored costs are at most 16, and 0 exactly for own addresses |
| RipSafety.FlightRange | RipLayer.cc:134-135 | costs in flight are at most 16, 0 only for the sender's own addresses, and adding one does not wrap |
| RipSafety.TableInvariant | RipLayer.cc:234-266 | keys match entries, own addresses are present iff their interface is up, every route leaves by an existing interface that is up |
| RipSafety.DownForgets | RipLayer.cc:237-244 | taking an interface down forgets exactly the routes that leave by it, and leaves the others as they are |
| RipSafety.UpRestores | RipLayer.cc:254-266 | taking an interface up makes it up and its address known at cost 0, stamped now, and changes nothing else in the network |
| RipSafety.MaskInvariant | RipLayer.cc:12-27 | in every reachable state every mask stored or sent is 255.255.255.255 |
| LoopFreedom.StepImproves | RipLayer.cc:94-106 | a step that erases nothing worsens no cost |
| LoopFreedom.StepDescends | RipLayer.cc:94-106 | a step that erases nothing keeps every route pointing to a strictly smaller cost |
| LoopFreedom.EraseFreeDescends | RipLayer.cc:94-106 | in every run without erasure each next-hop node has the address at a strictly smaller cost |
| LoopFreedom.ImprovesOverTime | RipLayer.cc:94-106 | along any stretch without erasure costs only fall |
| LoopFreedom.DescentAfterErasure | RipLayer.cc:162-176 | after a refresh, an interface going down or any other step that is no delivery, routes still descend iff no route that stays points to a node that the step makes forget the address |
| LoopFreedom.DescentAfterDelivery | RipLayer.cc:79-107 | after a delivery routes still descend iff the sender, another node, still holds each address the receiver adopts at a cost no higher than the frame says |
| LoopFreedom.DescentThroughout | RipLayer.cc:55-177 | in any run routes descend in all states up to the k-th iff every step before it met these conditions |
| RoutingLoop.MergeAnnouncement | RipLayer.cc:62-110 | of a whole announcement only the sender's one entry about an address decides the receiver's route to it |
| RoutingLoop.Forget | RipLayer.cc:162-176 | in any network a refresh makes a node forget a foreign route iff it is older than 12 seconds, and changes no other node |
| RoutingLoop.LoopAfterExpiry | RipLayer.cc:153-177 | a state in which three nodes route an address to one another in a circle is reachable by a run in which every node refreshes every 12 seconds and no frame is delayed |
| RoutingLoop.ForeverLost | NetworkLayer.cc:72-86 | in every continuation that keeps this circle a packet launched there has the fate the hosts it passes give it, and never arrives |
| Traps.TrapStands | RipLayer.cc:79-107 | a circle of routes survives a step iff no node in it forgets the address or adopts a route to it from outside |
| Traps.FateStep | NetworkLayer.cc:50-85 | one processing in a circle, exactly: sent on with the next TTL, dropped, made a RIP message, or taken as one |
| Traps.CircleFate | NetworkLayer.cc:50-85 | any number of hops, on hosts of any kinds and each in a later state of the run, as long as the circle stands: the kinds of the hosts passed decide |
| Traps.CirclesIff | NetworkLayer.cc:73-79 | a data packet goes on circling iff it never comes to a big-endian host with TTL 1 or 201 |
| Traps.LittleTail | NetworkLayer.cc:73-79 | little-endian hosts take the TTL down by one each, modulo 256 |
| Traps.LaunchedFirstBig | NetworkLayer.cc:73-79 | a packet launched with TTL 16 becomes a RIP message at its first big-endian host iff 71 little-endian ones came before, modulo 256, and is dropped there iff 15 did |
| Traps.PacketsCircle | NetworkLayer.cc:73-85 | among hosts of one kind a packet circles for ever iff they are little-endian or its TTL is neither 1 nor 201 at first |
| Traps.LaunchedInTrap | NetworkLayer.cc:113-132 | the fate of a packet launched in a circle, for every protocol and size |
| Convergence.PoisonNeverHides | RipLayer.cc:134-135 | a node with the exact cost tells it to every neighbour that is one link further away, also if distances count only links that are left |
| Convergence.Hears | RipLayer.cc:79-107 | a delivered entry is matched by the receiver's table |
| Convergence.ConvergesOver | RipLayer.cc:55-137 | once the tables hold only walks over the links that are left, k rounds over these links without erasure make every node within min(k, 16) of them store the exact distance |
| Convergence.Converges | RipLayer.cc:55-137 | after k rounds without erasure, all interfaces up, every node within min(k, 16) links stores the exact distance, from any reachable state, and keeps it |
| Aging.ExpiryExact | RipLayer.cc:157-175 | a refresh keeps own addresses and foreign ones aged at most 12 seconds; the unsigned age of a future timestamp is told exactly |
| Aging.AgeBound | node.cc:108-109 | no foreign route is older than 12 seconds plus the refresh period |
| Aging.RouteStep | RipLayer.cc:94-106 | in one step a foreign route is kept as it is or replaced by a strictly cheaper one stamped now |
| Aging.StampLag | RipLayer.cc:96-105 | a route held without a gap is restamped at most as often as its cost falls |
| Aging.RouteLifetime | RipLayer.cc:94-106 | no foreign route is held without a gap for more than one life at constant cost, or 16 lives at all |
| LinkFailure.LowCostsAreLive | RipLayer.cc:55-111 | more than j epochs after a set of interfaces went down for good, every stored cost below j is the length of a walk that avoids their links and starts on the route's interface |
| LinkFailure.LowClaimsAreLive | RipLayer.cc:120-137 | so is every cost below j in a frame that can still be delivered |
| LinkFailure.TablesSettle | RipLayer.cc:153-177 | after 17 epochs every stored cost is the length of such a walk |
| LinkFailure.CutOffForgets | RipLayer.cc:153-177 | after 17 epochs a part of the network cut off from the owner of an address has forgotten it |
| LinkFailure.Recovers | RipLayer.cc:55-177 | 17 epochs after a set of interfaces went down for good, the others being up, k rounds without erasure make every node store the exact distance over the links that are left, up to min(k, 16), and keep it |
| LinkFailure.CostFloorRises | RipLayer.cc:55-111 | more than j epochs after its owner fell silent, an address costs at least j in every table and every live frame |
| LinkFailure.CountingToInfinityEnds | RipLayer.cc:153-177 | after 17 epochs no table holds it |
| Checksum.IpSum | ipsum.h:9-30 | returns the complement of the two-fold sum, which for up to 131076 bytes is the complement of the fully reduced one's-complement sum |
| Checksum.FoldExact | ipsum.h:26-28 | two folds give the fully reduced sum iff the second fold leaves no carry |
| Checksum.FoldBound | ipsum.h:26-28 | they do for every sum up to that of 65538 words 0xFFFF |
| Checksum.FoldFailsBeyond | ipsum.h:26-28 | they do not for the next sum |
| Checksum.LongBufferFails | ipsum.h:9-30 | for each length from 131077 bytes on, a buffer that either kind of host sums wrongly |
| Checksum.RightIffShort | ipsum.h:9-30 | on either kind of host all buffers of n bytes are summed right iff n is at most 131076 |
| Checksum.RawSumBound | ipsum.h:15-18 | the raw sum is at most 65535 for each started word |
| Checksum.OddIsPadded | ipsum.h:20-24 | an odd buffer sums like the same buffer padded with a zero byte |
| Checksum.SwappedSum | ipsum.h:15-18 | summing byte-swapped words multiplies by 256 modulo 65535 |
| Checksum.ByteOrderIndependent | ipsum.h:9-30 | little- and big-endian hosts put the same checksum bytes on the wire |
| IpHeader.SealAccepted | NetworkLayer.cc:154-173 | a header sealed by any host is accepted by any host |
| IpHeader.ForwardedAccepted | NetworkLayer.cc:78-83 | a header rewritten in transit by any host is accepted by any host |
| IpHeader.VerificationEquivalence | NetworkLayer.cc:37-45 | zero-and-recompute accepts iff the RFC 1071 all-ones test does and the field is not 0xFFFF on an otherwise non-zero header |
| IpHeader.SingleWordErrors | NetworkLayer.cc:40-45 | changing one other word of an accepted header goes unnoticed iff it swaps 0x0000 and 0xFFFF and the rest is not zero |
| IpHeader.NoticedIsRejected | NetworkLayer.cc:37-45 | any one changed word, the checksum included, makes an accepted header unacceptable, unless it is that exchange |
| IpHeader.BuiltPacket | NetworkLayer.cc:154-173 | a built packet byte for byte: type of service, length, identification, fragment, TTL, protocol, source, destination, payload, and a checksum every host accepts |
| IpHeader.TransitBytes | NetworkLayer.cc:73-79 | the exact TTL and protocol bytes after a transit, and when it drops, for both byte orders |
| IpHeader.TtlNeverExpires | NetworkLayer.cc:73-79 | any number of little-endian transits forwards the packet, its TTL wrapping modulo 256 |
| NetworkLayerModel.NetworkLayer.BuildIpPacket | NetworkLayer.cc:154-173 | the buffer holds the sealed header and the payload, byte for byte, source and destination included |
| NetworkLayerModel.NetworkLayer.TransferRipToIp | NetworkLayer.cc:92-110 | queues the RIP message on the interface it is for, in a packet of protocol 200 from its local to its remote address |
| NetworkLayerModel.NetworkLayer.TransferApplicationToIp | NetworkLayer.cc:113-132 | queues the packet, from the local address of the interface to the destination, for the interface of the route or of the default address, or nothing if there is none |
| NetworkLayerModel.NetworkLayer.TransferTransitData | NetworkLayer.cc:134-152 | queues the packet unchanged for the interface of the route or of the default address, or nothing if there is none |
| NetworkLayerModel.NetworkLayer.Verify | NetworkLayer.cc:37-45 | accepts iff the field is the recomputed checksum |
| NetworkLayerModel.NetworkLayer.RewriteTransit | NetworkLayer.cc:73-83 | leaves the rewritten header, payload untouched |
| NetworkLayerModel.NetworkLayer.TransferData | NetworkLayer.cc:31-91 | decides by the bytes of the header: a bad checksum drops any packet and changes nothing, protocol 200 goes to RIP if the interface is up, own destinations stay, the rest is rewritten and queued; what RIP does with it, and nothing else changes; the payload need only be well formed where it is read |
| Forwarding.DisposeDecides | NetworkLayer.cc:31-88 | the decision on a packet meets the table of cases told by the bytes of its header |
| Forwarding.TransitRewrites | NetworkLayer.cc:73-83 | a transit changes TTL, protocol and checksum only; both addresses stay |
| NetworkLayerModel.RipPacketIsTaken | NetworkLayer.cc:31-53 | every node, of either byte order and with any table, takes such a packet to its RIP layer with the payload unchanged |
| NetworkLayerModel.AnnouncementIsReceived | LinkLayer.cc:66-86 | the receive loop hands over every announcement whole |
| NetworkLayerModel.AnnouncementCrosses | NetworkLayer.cc:31-110 | an announced frame, packed and given to the neighbour's network layer, changes its table as the delivery step of the network model does |
| Reception.RecvData | LinkLayer.cc:63-86 | the loop computes the reading of what the socket returns |
| Reception.ShortFrame | LinkLayer.cc:73-86 | a frame of at most 1024 bytes is handed over at once, and exactly it |
| Reception.LongFrame | LinkLayer.cc:73-86 | a longer one is swallowed: the next frame is laid over its beginning and handed over, too long by 1024 bytes |
| Reception.WholeIffShort | LinkLayer.cc:73-86 | a frame with a true length field is handed over whole iff it has at most 1024 bytes |
| Reception.FrameAfterError | LinkLayer.cc:73-86 | after an error of the socket the next frame is counted one byte short and its length field is not read |
| Reception.BuiltLength | NetworkLayer.cc:157-172 | the length field of a built packet is true |
| Delivery.TransitOk | NetworkLayer.cc:73-83 | within 15 transits by hosts of any byte orders no packet is dropped or becomes a RIP message |
| Delivery.PacketsArrive | NetworkLayer.cc:31-152 | without erasure a packet from a node with cost c to a foreign address arrives within c <= 16 hops while tables change, and is never lost, iff its payload has at most 1004 bytes and its protocol is not 200; with protocol 200 the first neighbour's RIP layer takes it |
| Delivery.IntendedTtlSuffices | NetworkLayer.cc:160 | the intended decrement, by one per transit, would not end such a packet either |
| Delivery.LostIffNoRoute | NetworkLayer.cc:134-144 | a transit node loses a good packet iff it has no route |
| Delivery.LaunchMeans | NetworkLayer.cc:113-132 | a launched packet is at the next node of the route, from the local address of its interface, unless it is too long |
| Delivery.LaunchNeedsRoute | NetworkLayer.cc:117-124 | nothing is launched iff there is no route |
| Delivery.BadChecksumIsLost | NetworkLayer.cc:40-45 | a packet with a bad checksum is lost at any node, whatever its protocol and destination |
| Delivery.DamagedIsLost | NetworkLayer.cc:40-45 | so is a good packet of which one word of the header was changed on the way, unless the checksum cannot notice the change |
| Delivery.OwnAddressDetour | NetworkLayer.cc:113-132 | a packet for an own address leaves on that interface and is lost at the neighbour iff it has no route back, unless it is too long or the RIP layer there takes it |
| Delivery.OwnAddressReturns | NetworkLayer.cc:113-152 | without erasure it fares like one with budget 1 + c, where the neighbour's route costs c <= 15, and comes back to its sender |
| LinkedRing.InsertBefore | list.h:68-76 | the four pointers after the insertion |
| LinkedRing.Unlink | list.h:84-92 | the neighbours joined, the link cleared |
| LinkedRing.Ring.constructor | list.h:59-60 | a ring of the head alone |
| LinkedRing.Ring.InsertHead | list.h:78-79 | the ring with the link in second place |
| LinkedRing.Ring.Remove | list.h:84-92 | the ring without the link, which is freed |
| LinkedRing.Ring.FreeNodes | htable.c:27-29 | every node is freed once, and links are followed by a function that demands an allocated one |
| HashTableModel.HashTable.constructor | htable.c:11-20 | the empty map |
| HashTableModel.HashTable.Lookup | htable.c:70-78 | finds the identifier's node iff it is in the map |
| HashTableModel.HashTable.Get | htable.c:35-40 | map lookup, null if absent |
| HashTableModel.HashTable.Put | htable.c:42-56 | map update, returning the old pointer or null; the invariant keeps the size equal to the number of keys |
| HashTableModel.HashTable.Remove | htable.c:58-68 | map removal, returning the pointer or null |
| HashTableModel.HashTable.Iterate | htable.h:32-47 | visits every key present at the start exactly once, though the body takes out and frees current nodes |
| HashTableModel.HashTable.IterateBucket | list.h:109-121 | the list loop with the successor read ahead visits the bucket in order |
| HashTableModel.HashTable.ListsOnce | htable.c:46-50 | every key is in exactly one bucket, the one it hashes to, once |
| HashTableModel.FlatOnce | htable.h:37-41 | bucket by bucket, no key comes twice |
| HashTableModel.HashTable.Destroy | htable.c:22-33 | every node and head is freed, each once |
| HandOff.QueueStepInv | LinkLayer.cc:11-29 | the queue thread fills the slot only while the link thread keeps off |
| HandOff.LinkStepSlot | LinkLayer.cc:125-161 | the link thread reads and frees the slot only while the queue thread keeps off |
| HandOff.SendStaysInBuffer | LinkLayer.cc:144-155 | no send reads outside the buffer |
| HandOff.EnabledExact | LinkLayer.cc:125-155 | neither thread is ever stuck but for waiting; a send can transmit any part of what is left |
| HandOff.LinkStepConserves | LinkLayer.cc:144-155 | a link thread's step keeps sent plus unsent bytes |
| HandOff.HandOffConserves | MessageQueue.hh:20-40 | in every interleaving without a failed send, unwritable sockets included, sent bytes plus the slot are the stored frames in queue order, and nothing pushed is lost or reordered |
| HandOffSteps.TestDecides | LinkLayer.cc:11-20 | in every run the test of the link decides: dropped and logged so if it is down, on to the slot if it is up, and nothing else changes |
| HandOffSteps.LogTellsTest | LinkLayer.cc:11-29 | in every run each item is tested right after those before it, and is taken iff its link was up then, dropped iff it was down |
| HandOffSteps.DropReachable | LinkLayer.cc:12-14 | a run that drops a frame |
| HandOffSteps.QueueRound | NetworkLayer.cc:207-226 | with the link up and the slot free the queue thread takes six steps to hand the next frame over |
| HandOffSteps.SendsAddUp | LinkLayer.cc:144-155 | sends of any sizes add up |
| HandOffSteps.LinkRound | LinkLayer.cc:31-61 | a link thread sends the frame in its slot whole, frees it at the pointer it was allocated at, and releases the slot |
| SendFailure.FailureLosesRest | LinkLayer.cc:148-151 | a failed send cuts its frame, whole until then, where the send stopped |
| SendFailure.SentPrefixes | LinkLayer.cc:125-161 | in every interleaving, failures included, sent and unsent bytes are one prefix of each stored frame, in order, and as many frames are short as sends failed |
| SendFailure.FreeAfterFailure | LinkLayer.cc:156-157 | in every run a buffer was freed, or is about to be, at another pointer than it was allocated at iff a send on the link has failed |
| SendFailure.BadFreeReachable | LinkLayer.cc:144-157 | a run that ends with such a free, for any frame that is not empty |
| Blocking.StaysBlocked | LinkLayer.cc:16-20 | while the queue thread waits for the slot of a link that is down, no step but that interface coming up ends the wait |
| Blocking.ComingUp | LinkLayer.cc:163-169 | the interface can come up then, and its thread finds the frame still in the slot |
| Blocking.OneLinkBlocksAll | LinkLayer.cc:11-61 | until then, in every run, no frame is stored or dropped for any link |
| Blocking.BlockedReachable | LinkLayer.cc:16-37 | a run that gets there |

## Left out

- Sockets, `select`, `getaddrinfo`: the operating system appears only as events that deliver, lose or send.
- Timers and signals: only that refreshes come with a bounded period; the delay in the timer queue is part of it.
- Command line, printing, logging and the parsing of link files: the topology is taken as parsed.
- Data races on the routing table and on `_isup`: every call on a table is one atomic step; only the send slot is modelled access by access.
- Several calls of `gettimeofday` within one processed message: they give one time.
- Liveness of the condition variables: the hand-off is proved safe, not live, but for the blocking by a link that is down.
- Delivery.PacketsArrive: assumes that each frame is sent as one datagram, and that none of more than 1024 bytes came in on the same socket just before the packet; Reception.LongFrame says what is handed over then.
- Packets with more than 1024 bytes of payload: a precondition, as the code copies them unchecked into a buffer of that size.
- Malformed RIP messages, header-length fields below 5, tables of more than 64 entries and interface numbers out of range: preconditions, as the code does not check them.
- Address arithmetic of `list_item`: a list link and the node that embeds it are one object.
- RipLayerModel.RipLayer.PrepareMsg: requires at most 64 entries, the size of the message buffer the code writes into unchecked.
- Classes for `MessageQueue` and `LinkLayer`: their methods run concurrently, so they are modelled as the steps of the hand-off instead.
