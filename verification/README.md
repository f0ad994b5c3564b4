# A verified model of straw

straw is a MASQUE proxy: CONNECT-IP tunnels (RFC 9484) with address assignment and route advertisement, and bound UDP
sockets with compression contexts (draft-ietf-masque-connect-udp-listen). This project models the stateful logic below
its QUIC and HTTP/3 plumbing and proves what that logic promises. `dafny verify dfyconfig.toml` checks all of it.

How it is put together:

- Pure logic is functions over values. Code that updates state in place is classes and methods with loops; each such
  method is proved equal to a function of the old state, and the properties are proved about that function.
- Code that runs concurrently is a transition system whose steps are the source's critical sections or its single calls
  on a shared structure. Properties are proved for every interleaving, over whole runs.
- What a function computes is also stated without naming its body: lemmas called `...Exactly` give a condition in both
  directions, `...Layout` and `...Numbers` the octets, `...Order` the first guard that decides.
- Bytes are `seq<Byte>`. Machine widths, wrap-around and truncation are written out where they matter.

| part | modules |
|---|---|
| bind-context protocol | `Context`, `BindProtocol`, `BindSafety`, `BindTheorems`, `BindOutcome`, `Lockdown`, `Engagement` |
| checksums, packets, re-segmentation, ICMP | `Rfc1071`, `Packet`, `Segment`, `SegmentTheorems`, `Expand`, `Icmp` |
| control plane | `Pool`, `AddressPool`, `Subnets`, `Router`, `Session`, `ControlPlane`, `ControlTheorems`, `Handler` |
| forwarding engine and limiter | `Engine`, `DataPlane`, `Limiter` |
| capsules and routes | `Varint`, `CapsulePayload`, `CapsuleStream`, `Ranges`, `Advertise` |
| port allocation, interface plan | `PortAllocator`, `Iface`, `Configure` |
| groundwork | `Octets`, `Address`, `Net`, `Sorting` |

**The bind-context protocol.** Client and relay each hold a context table. ASSIGN, ACK and CLOSE travel on ordered
streams; datagrams may be lost, repeated, delayed and reordered at will. Any number of `engage` calls may overlap, time
out, be dropped, meet a full queue or outlive the pump. In every reachable state after connect the relay decodes what the client frames
for its peer (`ClientReachesRelay`); no datagram is ever attributed to another remote (`NoMisattribution`); once the
uncompressed context is closed the firewall stands for the rest of the run (`RelayFirewall`). The other direction can
fail: `RelayReachesClient` gives the exact condition, and `LockedDelivers` says that it holds for good once the client has
closed the uncompressed context. While the ACK is on its way the failure is a window (`AckWindow`); after an ACK timeout
it can be for good (`TimeoutStrands`, `HopelessForever`). `LockdownPossibleExactly` tells the two apart, and while the
pump runs nothing but such a timeout leads there (`OnlyTimeoutStrands`). `Engagement` writes `engage` in one piece, with arbitrary interference between its critical sections.

**The control plane.** Every session handler runs its setup, its ADDRESS_REQUESTs, its route advertisements and its
four-step teardown interleaved with all others and the idle reaper. `ControlTheorems` proves that client routes lead to
holders, that the maps agree when nothing is mid-step, that no two sessions outside teardown accept the same source,
that no advertised route captures a pool address, and that nothing is left behind. `Handler` writes the handler as the
source does, with arbitrary interference between any two calls, and proves that a returned handler has left no trace.

**Where the code and its documentation disagree**, the model follows the code:

- `merge_ranges` is documented to sort by (version, protocol, start) but sorts by the derived order (version, start, end,
  protocol). Meaning is preserved either way (`MergeKeepsMeaning`). Coalescing is not: `MergeCoalescesExactly` says when.
- `RouteAdvertisement::decode` is documented to validate RFC order but looks at that key only where the derived order
  fails; `AcceptedExactly` says what it accepts.
- Specific IPv6 requests may name the gateway, although the pool reserves it in pool order (`GatewayV6Granted`,
  `StepUntouched`).
- `SessionId::compose` is called globally unique; `ComposeCollides` says when two streams share an id.
- `engage` is documented to leave everything as it was on an ACK timeout. The relay keeps the context it has activated,
  so what it frames for the peer is then rejected for the rest of the session (`TimeoutStrands`, `HopelessForever`).
- The interface guard ignores failed removals, so the pin can go while a route stays; `UndoSafeExactly` says when.

Inputs from outside are parameters or free choices: the clock, the outcome of a send, of a kernel command, of an await,
the route lookup before a tunnel exists, and the pieces in which a chunk arrives. `Result` and `Option` carry the
source's errors.

## Model

| member | source | states |
|---|---|---|
| `Varint.Length` | src/capsule/codec.rs:9-21 | the shortest of the four encoding lengths that holds the value; an error exactly above 2^62 - 1 |
| `Varint.ReadEncode` | src/capsule/codec.rs:24-74 | reading an encoded integer gives it back and leaves what follows untouched |
| `Varint.ReadExtend` | src/capsule/codec.rs:24-42 | later octets never change a complete read |
| `Varint.ReadVarint` | src/capsule/codec.rs:24-42 | the accumulating read loop computes the value read, or underflow |
| `Varint.WriteVarint` | src/capsule/codec.rs:45-74 | the octets appended are the encoding; a value over 2^62 - 1 is refused |
| `Address.BytesRoundTrip` | src/capsule/address_assign.rs:73-80 | network-order octets determine the address |
| `Address.ScopedExactly` | src/capsule/mod.rs:108-116 | what a protocol scope lets through |
| `CapsulePayload.DecodeIp` | src/capsule/address_assign.rs:90-116 | a decoded address has the announced family and consumed octets; other versions and short buffers get exactly the source's errors |
| `CapsulePayload.DecodeEntry` | src/capsule/address_assign.rs:48-71 | every decoded entry is well formed: family, prefix bound, request id (non-zero in ADDRESS_REQUEST) |
| `CapsulePayload.EntryRoundTrip` | src/capsule/address_assign.rs:48-87 | an encoded entry decodes to itself before any rest, and is as long as announced |
| `CapsulePayload.EntryExactly` | src/capsule/address_assign.rs:48-81 | octets decode to an entry exactly when they are its layout: varint id, version, address, prefix length |
| `CapsulePayload.EntryErrors` | src/capsule/address_request.rs:53-80 | why an entry is refused |
| `CapsulePayload.EntriesRoundTrip` | src/capsule/address_request.rs:13-95 | any list of well-formed entries survives encode and decode, for both address capsules |
| `CapsulePayload.DecodeEntryList` | src/capsule/address_request.rs:13-28 | the decode loop yields all entries or the first error |
| `CapsulePayload.OctetOrderIsNumeric` | src/capsule/route_advertisement.rs:77-84 | octet-by-octet order of addresses is numeric order |
| `CapsulePayload.RangeRoundTrip` | src/capsule/route_advertisement.rs:86-124 | a well-formed range survives encode and decode |
| `CapsulePayload.RangeLayout` | src/capsule/route_advertisement.rs:113-124 | version, both addresses, protocol |
| `CapsulePayload.RangeErrors` | src/capsule/route_advertisement.rs:86-111 | why a range is refused |
| `CapsulePayload.RoutesRoundTrip` | src/capsule/route_advertisement.rs:13-75 | for any well-formed ranges with distinct (version, protocol, start) the encoded capsule decodes to a permutation of them in strict RFC order |
| `CapsulePayload.UnorderedAccepted` | src/capsule/route_advertisement.rs:22-35 | the decoder accepts a list that is out of RFC order |
| `CapsulePayload.RangesExactly` | src/capsule/route_advertisement.rs:13-20 | octets decode to ranges exactly when these are well formed and the octets are their encoding |
| `CapsulePayload.AcceptedExactly` | src/capsule/route_advertisement.rs:13-38 | a payload is accepted with a result exactly when it is the encoding of well-formed ranges each of which raises version, start or protocol, or keeps the start and raises the end |
| `CapsulePayload.CheckOrder` | src/capsule/route_advertisement.rs:22-35 | the window loop decides that condition |
| `CapsulePayload.DecodeRouteList` | src/capsule/route_advertisement.rs:13-38 | decode loop and order check together |
| `CapsuleStream.NextExtend` | src/capsule/mod.rs:199-216 | a capsule or a failure, once found, does not depend on later octets |
| `CapsuleStream.WaitingCanEnd` | src/capsule/mod.rs:194-212 | whenever the decoder waits, some continuation ends the wait |
| `CapsuleStream.DrainExtend` | src/capsule/mod.rs:184-216 | draining early and again later equals draining once |
| `CapsuleStream.ChunkIndependence` | src/capsule/mod.rs:167-216 | for every way of cutting the stream into chunks the same capsules come out, then the same error, and without an error the same octets stay buffered |
| `CapsuleStream.PayloadRoundTrip` | src/capsule/mod.rs:141-163 | every encodable payload decodes to its normal form, and its announced length is its length |
| `CapsuleStream.NextEncode` | src/capsule/mod.rs:220-231 | an encoded capsule before any rest is the next capsule |
| `CapsuleStream.EnvelopeLayout` | src/capsule/mod.rs:220-231 | type 1, 2, 3 or its own, the payload's length, the payload |
| `CapsuleStream.CutExactly` | src/capsule/mod.rs:141-152 | a whole envelope is a type, a length and that many octets |
| `CapsuleStream.TypesExactly` | src/capsule/mod.rs:154-165 | which type decodes to which capsule; others are kept as they came |
| `CapsuleStream.StreamRoundTrip` | src/capsule/mod.rs:167-231 | any capsules, encoded and received in any chunks, come out in order (routes sorted), and the buffer ends empty |
| `CapsuleStream.EncodeCapsule` | src/capsule/mod.rs:220-231 | the encode loops append exactly the encoding |
| `CapsuleStream.DecodeCapsule` | src/capsule/mod.rs:141-163 | on a whole envelope, the payload's decoding and the rest; on a partial one, an error that reports the shortage |
| `CapsuleStream.CapsuleBuffer.constructor` | src/capsule/mod.rs:179-181 | the buffer starts empty |
| `CapsuleStream.CapsuleBuffer.Push` | src/capsule/mod.rs:184-192 | all pieces of a chunk are appended in order |
| `CapsuleStream.CapsuleBuffer.NextCapsule` | src/capsule/mod.rs:199-216 | waits without consuming, or consumes exactly one envelope and yields its capsule or error |
| `CapsuleStream.CapsuleBuffer.Receive` | src/session/handler.rs:261-268 | one received chunk drains to the specified capsules, error and rest |
| `Ranges.MergeKeepsMeaning` | src/capsule/mod.rs:119-138 | for every list with bounds of the declared family, a packet is admitted after merging exactly when before |
| `Ranges.MergeCoalescesExactly` | src/capsule/mod.rs:119-138 | no overlap or adjacency remains within a (version, protocol) exactly when the sorted input is not interleaved |
| `Ranges.MergeLeavesOverlap` | src/capsule/mod.rs:119-138 | two overlapping TCP ranges stay apart when a UDP range sorts between them |
| `Ranges.MergeSeparates` | src/capsule/mod.rs:119-138 | with one protocol per version the result ascends, is disjoint and nowhere adjacent, up to the top of IPv6 |
| `Ranges.MergedRoutesRoundTrip` | src/session/handler.rs:407-466 | merged single-protocol routes are a valid capsule: they decode to themselves and admit what the input admits |
| `Ranges.MergeRanges` | src/capsule/mod.rs:121-138 | the in-place loop computes the merge |
| `Session.Compose` | src/session/mod.rs:30-42 | the two halves can be read back, modulo 2^24 and 2^40 |
| `Session.ComposeCollides` | src/session/mod.rs:25-32 | two streams share an id exactly when counters agree modulo 2^24 and stream ids modulo 2^40 |
| `Session.ComposeInjective` | src/session/mod.rs:25-32 | ids are unique where counter and stream fit, and the first counter beyond repeats one |
| `Pool.TakeTaken` | src/address_pool.rs:138-148 | the retry loop finds the lowest released free address, else the first one past the cursor, and drops only addresses that are held |
| `Pool.AllocateValid` | src/address_pool.rs:138-175 | pool order keeps the pool valid and assigns an address nobody held, to one session only |
| `Pool.ExhaustedExactly` | src/address_pool.rs:138-155 | `allocate_v4` returns nothing exactly when every usable address is held |
| `Pool.ExhaustedExactlyV6` | src/address_pool.rs:158-175 | `allocate_v6` returns nothing exactly when the window and the released addresses are all held |
| `Pool.SpecificExactly` | src/address_pool.rs:181-243 | a request for one address gets that address exactly when nobody holds it and it is a usable IPv4 host or lies in the IPv6 prefix; the fallback to pool order never gives it out otherwise |
| `Pool.RequestValid` | src/address_pool.rs:181-218 | a request keeps the pool valid, answers with its own id, and gets the named address whenever that can be granted |
| `Pool.RequestExactly` | src/address_pool.rs:181-218 | a grant is one address of the version asked for, under the request's id; nothing is granted exactly when the named address cannot be and that family is exhausted |
| `Pool.ReleaseValid` | src/address_pool.rs:251-268 | release returns exactly the session's addresses and keeps the pool valid |
| `Pool.ReleaseReopens` | src/address_pool.rs:251-268 | after a holder of an IPv4 address is released, an allocation succeeds |
| `Pool.New` | src/address_pool.rs:94-111 | a fresh pool is valid |
| `Pool.Run` | src/address_pool.rs:93-270 | any sequence of operations keeps the pool valid: exact inverse maps, addresses in place, none lost |
| `Pool.RunExclusive` | src/address_pool.rs:84-91 | over any sequence of operations no address is held twice |
| `Pool.RunReserves` | src/address_pool.rs:26-45 | over any sequence of operations the IPv4 network, gateway and broadcast addresses are never held |
| `Pool.RunExhausted` | src/address_pool.rs:26-45 | over any run an IPv4 allocation fails exactly when every host between gateway and broadcast is held |
| `Pool.RunExhaustedV6` | src/address_pool.rs:56-80 | over any run an IPv6 allocation fails exactly when the window of at most 2^64 addresses and all released ones are held |
| `Pool.FreshOffers` | src/address_pool.rs:94-111 | what a fresh family offers |
| `Pool.GatewayV6Granted` | src/address_pool.rs:220-243 | a specific request for the IPv6 gateway is granted |
| `Pool.StepUntouched` | src/address_pool.rs:220-243 | an untouched low IPv6 address becomes held exactly when a specific request names it and it can be granted |
| `Pool.RunReservesV6` | src/address_pool.rs:56-80 | over any run without such a request the low IPv6 addresses are never held |
| `AddressPool.HostPool.constructor` | src/address_pool.rs:94-111 | a family pool starts in the given state |
| `AddressPool.HostPool.Next` | src/address_pool.rs:26-45 | the cursor loop computes `next` |
| `AddressPool.Pools.constructor` | src/address_pool.rs:94-111 | both families and empty maps |
| `AddressPool.Pools.Record` | src/address_pool.rs:245-248 | index and list gain the address |
| `AddressPool.Pools.Search` | src/address_pool.rs:140-148 | the retry loop around `next` |
| `AddressPool.Pools.Allocate` | src/address_pool.rs:138-175 | pool-order allocation in place |
| `AddressPool.Pools.TrySpecific` | src/address_pool.rs:220-243 | grants exactly when specified, and then records |
| `AddressPool.Pools.Request` | src/address_pool.rs:181-218 | serves an ADDRESS_REQUEST entry in place |
| `AddressPool.Pools.Release` | src/address_pool.rs:251-268 | the freeing loop empties exactly the session's holdings |
| `Subnets.CutPartitions` | src/forwarding/router.rs:101-106 | the prefixes of a range contain each of its addresses once and no other address |
| `Subnets.CutCovers` | src/forwarding/router.rs:101-106 | some prefix contains an address exactly when the range does |
| `Subnets.CutGreedy` | src/forwarding/router.rs:100-106 | no prefix could be doubled inside the range |
| `Subnets.OverlapsExactly` | src/forwarding/router.rs:138-140 | `overlaps` holds exactly when two prefixes share an address |
| `Subnets.CutRange` | src/forwarding/router.rs:101-106 | the greedy subnet iteration as a loop |
| `Router.DeniedExactly` | src/forwarding/router.rs:113-121 | a range is refused exactly when it shares an address with a denied prefix |
| `Router.EntriesMean` | src/forwarding/router.rs:93-136 | before the cap, the entries match exactly what the accepted ranges admit |
| `Router.EntriesAvoid` | src/forwarding/router.rs:93-136 | no installed entry covers an address of a denied prefix |
| `Router.Entries` | src/forwarding/router.rs:85-136 | at most 128 usable entries, all for the session |
| `Router.EntriesFirst` | src/forwarding/router.rs:123-127 | the cap keeps the first 128 |
| `Router.EntriesFromClientRanges` | src/forwarding/router.rs:93-136 | the labelled loop computes the capped entries |
| `Router.AnswerUnique` | src/forwarding/router.rs:65-81 | a lookup has one answer: client address, else longest prefix, else nothing |
| `Router.RouteTable.constructor` | src/forwarding/router.rs:33-35 | the table starts empty |
| `Router.RouteTable.InsertClientAddr` | src/forwarding/router.rs:38-40 | one client address is routed |
| `Router.RouteTable.ReplaceSessionRoutes` | src/forwarding/router.rs:50-54 | a session's routes are replaced, others kept in order |
| `Router.ReplaceExactly` | src/forwarding/router.rs:50-54 | a session's old routes are gone, its new ones are there, others keep theirs in order |
| `Router.AdvertisedLookup` | src/forwarding/router.rs:50-90 | after an advertisement an address nobody else routes leads to the session exactly when a range that takes part admits it |
| `Router.RouteTable.RemoveSession` | src/forwarding/router.rs:57-63 | both structures forget the session and nothing else |
| `Router.RemoveExactly` | src/forwarding/router.rs:57-63 | exactly the session's routes and client addresses go |
| `Router.RouteTable.Lookup` | src/forwarding/router.rs:69-81 | the pass over the routes finds the answer |
| `ControlPlane.AdvanceInv` | src/session/handler.rs:169-236 | every call of a handler, in setup, requests and teardown, keeps the invariant |
| `ControlPlane.AdvertiseInv` | src/session/handler.rs:328-346 | installing client routes keeps every route clear of the pools |
| `ControlPlane.StepInv` | src/session/handler.rs:107-136 | every step of any handler or the reaper keeps the invariant |
| `ControlPlane.RunInv` | src/session/handler.rs:107-136 | the invariant holds in every state of every interleaving |
| `ControlTheorems.RoutesLeadToHolders` | src/session/handler.rs:128-133 | a client-address route leads to the holder, or to a session between release and route removal |
| `ControlTheorems.QuiescentAgree` | src/session/handler.rs:215-237 | with no handler mid-step the route map equals the allocation map |
| `ControlTheorems.AcceptsOwn` | src/forwarding/packet.rs:126-140 | before its release a session accepts only sources it holds |
| `ControlTheorems.AcceptsExactly` | src/forwarding/packet.rs:126-140 | in every state a session in service accepts as source exactly the addresses it holds |
| `ControlTheorems.SourcesExclusive` | src/forwarding/packet.rs:126-140 | no two sessions outside teardown accept the same packet source |
| `ControlTheorems.RoutesClear` | src/session/handler.rs:328-342 | every route belongs to a live session and covers no pool address |
| `ControlTheorems.PoolLookup` | src/forwarding/router.rs:69-81 | a pool address is answered from the client-address map alone |
| `ControlTheorems.DeliversToHolder` | src/forwarding/router.rs:69-81 | with no handler mid-step a pool address leads to its holder, or nowhere |
| `ControlTheorems.HolderReached` | src/forwarding/router.rs:69-81 | with no handler mid-step every held address lies in a pool and leads to its holder |
| `ControlTheorems.NothingLeaks` | src/session/handler.rs:127-135 | when no handler is left every shared structure is empty |
| `ControlTheorems.SessionLimit` | src/session/mod.rs:104-115 | no run exceeds the session limit |
| `ControlTheorems.FirstAssignment` | src/session/handler.rs:188-198 | over every run the first assignment is at most one IPv4 and then at most one IPv6 address, under request id 0 |
| `ControlTheorems.ServingListed` | src/session/handler.rs:222-237 | a session in service is registered unless the reaper has taken it off |
| `ControlTheorems.ReapedOnly` | src/server.rs:99-116 | the reaper takes one session off and touches nothing else |
| `ControlTheorems.AdvertisedInstalled` | src/session/handler.rs:328-346 | with the operator's consent a session's routes become those of its ranges, without it nothing changes |
| `ControlTheorems.NoRoutesUnaccepted` | src/session/handler.rs:328-346 | without consent there is never a client route |
| `ControlTheorems.EveryRun` | src/session/handler.rs:107-136 | these statements at every state of every interleaving |
| `Handler.SessionManager.constructor` | src/session/mod.rs:95-101 | the table starts empty |
| `Handler.SessionManager.Insert` | src/session/mod.rs:104-115 | a session is added with an empty snapshot, or refused at the limit |
| `Handler.SessionManager.SetAssigned` | src/session/mod.rs:118-123 | the snapshot is replaced |
| `Handler.SessionManager.Remove` | src/session/mod.rs:150-153 | table and snapshots forget the session |
| `Handler.ProxyContext.constructor` | src/server.rs:23-32 | a fresh context is the initial state |
| `Handler.ProxyContext.Begin` | src/session/handler.rs:111-124 | inserting a session is the first step |
| `Handler.ProxyContext.Allocate` | src/session/handler.rs:188-198 | the unprompted assignments are steps of the system |
| `Handler.ProxyContext.ServeEach` | src/session/handler.rs:308-319 | the entries in turn, each allocated and then routed |
| `Handler.ProxyContext.ServeAll` | src/session/handler.rs:307-325 | under any interference ADDRESS_REQUEST adds to the assignment at most one grant for each entry, in order and under its id, and the published snapshot is the whole assignment |
| `Handler.ProxyContext.AcceptRoutes` | src/session/handler.rs:328-346 | client routes are installed only if accepted, as one step |
| `Handler.ProxyContext.HandleCapsule` | src/session/handler.rs:297-361 | a capsule leaves the handler serving or on its way out; only ADDRESS_REQUEST changes the assignment, by grants to its entries |
| `Handler.ProxyContext.RunTunnel` | src/session/handler.rs:169-279 | setup and service end ready for teardown, whatever fails |
| `Handler.ProxyContext.Teardown` | src/session/handler.rs:130-133 | the four calls remove the handler under any interference |
| `Handler.ProxyContext.HandleSession` | src/session/handler.rs:107-136 | when a handler returns, no shared structure mentions its session |
| `Handler.OthersLeaveAlone` | src/server.rs:99-116 | no other handler's step and no reaping moves this handler |
| `Context.GetPutAddr` | src/udp_bind/context.rs:306-339 | a socket address survives its codec |
| `Context.AddrLayout` | src/udp_bind/context.rs:306-318 | a socket address on the wire: version octet 4 or 6, address and port in network order |
| `Context.GetAddrExactly` | src/udp_bind/context.rs:306-339 | octets read as a socket address exactly when they are its encoding |
| `Context.DecodeOfBody` | src/udp_bind/context.rs:215-253 | a body framed on a context decodes on a table that binds it, to the remote and payload |
| `Context.DecodeExactly` | src/udp_bind/context.rs:215-235 | what any body decodes to: an active context, which supplies the remote if compressed and is followed by it if not |
| `Context.AssignRoundTrip` | src/udp_bind/context.rs:57-87 | COMPRESSION_ASSIGN survives its codec |
| `Context.AssignExactly` | src/udp_bind/context.rs:73-87 | what any COMPRESSION_ASSIGN body decodes to: an id, then version 0 or a remote, and nothing more |
| `Context.ContextIdRoundTrip` | src/udp_bind/context.rs:90-103 | ACK and CLOSE survive their codec |
| `Context.ContextIdExactly` | src/udp_bind/context.rs:97-103 | an ACK or CLOSE body is one varint and nothing more |
| `Context.TableRefines` | src/udp_bind/context.rs:155-183 | over any operations a table holds exactly the lives of its contexts: an even id proposed once, active under its binding from the ACK, gone at the CLOSE |
| `Context.FramingsExactly` | src/udp_bind/socket.rs:235-243 | exactly which contexts carry a datagram for a remote: those bound to it, else the uncompressed ones; something does exactly when either exists |
| `Context.ContextTable.constructor` | src/udp_bind/context.rs:149-151 | the table starts empty |
| `Context.ContextTable.Register` | src/udp_bind/context.rs:155-166 | a new even id becomes pending; odd ids and known ids are refused |
| `Context.ContextTable.Ack` | src/udp_bind/context.rs:169-176 | a pending id becomes active, others are refused |
| `Context.ContextTable.Close` | src/udp_bind/context.rs:179-182 | the id is forgotten in both maps |
| `Context.ContextTable.BindingOf` | src/udp_bind/context.rs:185-187 | what an active context is bound to, if it is active |
| `Context.ContextTable.Find` | src/udp_bind/context.rs:191-211 | an active context with the binding is found if there is one |
| `Context.ContextTable.Encapsulate` | src/udp_bind/socket.rs:235-243 | frames on one of those contexts, and drops exactly when no active context is uncompressed or bound to the remote |
| `BindSafety.HonestReceive` | src/udp_bind/context.rs:215-235 | a datagram framed on an issued context decodes to its own remote and payload, or not at all |
| `BindSafety.ForeignDropped` | src/client.rs:991-995 | a datagram of another session is dropped |
| `BindSafety.StepInv` | src/p2p/relay_socket.rs:361-419 | every step of either end keeps the protocol invariant, with any number of overlapping `engage` calls |
| `BindSafety.RunInv` | src/p2p/relay_socket.rs:361-419 | the invariant holds in every state of every run |
| `BindTheorems.RunGrows` | src/udp_bind/handler.rs:236-271 | a run never replaces the peer, reopens the uncompressed context at an end that closed it, or drops the bound one at the relay |
| `BindTheorems.ClientReachesRelay` | src/p2p/relay_socket.rs:56-73 | in every state after connect the client can frame for its peer, and the relay's current table decodes that to the peer and payload |
| `BindTheorems.NoMisattribution` | src/udp_bind/context.rs:215-253 | a datagram of either direction, received at any later time, is rejected or attributed as it was sent |
| `BindTheorems.EndToEnd` | src/udp_bind/socket.rs:166-231 | the relay emits only what the client addressed, and the client is handed only what the remote sent |
| `BindTheorems.CarriedExactly` | src/udp_bind/socket.rs:166-231 | in every state each end passes a datagram in flight on, under its own remote and payload, exactly when its table decodes it |
| `BindTheorems.PeerHeard` | src/p2p/relay_socket.rs:520-551 | a peer that was not preset is the remote of a packet the relay passed on |
| `BindTheorems.PeerChanges` | src/p2p/relay_socket.rs:520-551 | only the first packet read from the inbox sets the peer |
| `BindTheorems.EngageExclusive` | src/p2p/relay_socket.rs:367-391 | at most one `engage` is between its critical sections |
| `BindTheorems.RelayFirewall` | src/udp_bind/socket.rs:183-194 | once the relay closed the uncompressed context it frames for the peer and for no other remote, for the rest of the run |
| `BindTheorems.ClientFirewall` | src/p2p/relay_socket.rs:56-73 | likewise the client |
| `BindTheorems.RelayReachesClient` | src/client.rs:1010-1033 | the client decodes everything the relay frames for the peer exactly when it has the bound context or the relay has not |
| `BindTheorems.LockedDelivers` | src/p2p/relay_socket.rs:410-418 | once the client has dropped the uncompressed context, for the rest of the run the relay can frame for the peer and the client decodes whatever it frames |
| `BindTheorems.AckWindow` | src/p2p/relay_socket.rs:392-402 | a run in which it does not: the ACK is on its way |
| `BindOutcome.LockdownPossibleExactly` | src/p2p/relay_socket.rs:361-419 | from a reachable state the bound context can still become active at the client, on some continuation, exactly when the pump runs and the relay lacks the context or its ACK is on its way |
| `BindOutcome.ProposedRun` | src/p2p/relay_socket.rs:374-391 | while the pump runs, a pending bound context has its ASSIGN on the way or at the relay, even if the queue was full when it was registered |
| `BindOutcome.HopelessForever` | src/p2p/relay_socket.rs:392-408 | where it cannot become active any more, for the rest of every run: the context stays inactive, no `engage` completes, everything a relay that has the context frames for the peer is rejected, and without the pump no `engage` proposes again |
| `BindOutcome.OnlyTimeoutStrands` | src/p2p/relay_socket.rs:392-408 | with the pump running, such a state is reached only after some `engage` has given up on its ACK timeout |
| `BindOutcome.TimeoutStrands` | src/p2p/relay_socket.rs:403-408 | the ACK timeout leads to such a state |
| `BindOutcome.RefusalStrands` | src/p2p/relay_socket.rs:386-388 | so does the end of the pump: a refused `engage` leaves the context pending and never sent |
| `BindOutcome.QueuedIsOutstanding` | src/p2p/relay_socket.rs:386-388 | a full queue alone does not: whatever is queued before the context is active proposes it |
| `Engagement.SharedLockdown.constructor` | src/p2p/relay_socket.rs:335-341 | a lockdown within a protocol state |
| `Engagement.SharedLockdown.Engage` | src/p2p/relay_socket.rs:361-419 | the whole of `engage` under any interference: it answers with the peer only while the bound context is active, with the uncompressed one gone if it closed it, fails only without a peer or with the uncompressed context still open, and leaves nothing of itself behind |
| `Engagement.SharedLockdown.Pursue` | src/p2p/relay_socket.rs:392-419 | from the proposal on, likewise |
| `Engagement.SharedLockdown.Await` | src/p2p/relay_socket.rs:392-402 | the wait ends observing the context active, or timed out |
| `Engagement.SharedLockdown.GiveUp` | src/p2p/relay_socket.rs:403-408 | giving up leaves the uncompressed context open and the bound one inactive |
| `Engagement.SharedLockdown.Close` | src/p2p/relay_socket.rs:410-418 | the uncompressed context goes exactly when its CLOSE was queued, and the bound one stays |
| `Engagement.SharedLockdown.DropUncompressed` | src/p2p/relay_socket.rs:416-418 | dropping the uncompressed context leaves the bound one active |
| `Engagement.OthersLeaveAlone` | src/client.rs:1000-1033 | no other step moves this `engage` or takes anything back |
| `Lockdown.RelayLockdown.constructor` | src/p2p/relay_socket.rs:335-341 | a lockdown over a table, with the preset peer |
| `Lockdown.RelayLockdown.Peer` | src/p2p/relay_socket.rs:348-350 | the learned peer of the protocol state |
| `Lockdown.RelayLockdown.TrySend` | src/p2p/relay_socket.rs:386-388 | a capsule is queued exactly when the channel is open and not full |
| `Lockdown.RelayLockdown.Begin` | src/p2p/relay_socket.rs:361-391 | up to its await `engage` takes the protocol step, in every outcome |
| `Lockdown.RelayLockdown.Abandon` | src/p2p/relay_socket.rs:403-408 | giving up is the abandon step |
| `Lockdown.RelayLockdown.SendClose` | src/p2p/relay_socket.rs:411-415 | queueing the CLOSE is the close step |
| `Lockdown.RelayLockdown.Finish` | src/p2p/relay_socket.rs:416-418 | dropping the context is the finish step |
| `Lockdown.RelayLockdown.PollRecv` | src/p2p/relay_socket.rs:520-551 | buffers fill in order, payloads cut to size, and only the first source is learned |
| `Lockdown.RouteSend` | src/p2p/relay_socket.rs:447-481 | exactly the peer is tunnelled, dropped exactly when no context carries it |
| `Lockdown.HandleContextCapsule` | src/udp_bind/handler.rs:236-271 | the relay's handler takes the protocol step, with its ACK |
| `Lockdown.PumpHandles` | src/client.rs:1010-1033 | the pump's handler takes the protocol step |
| `Rfc1071.Fold` | src/forwarding/vnet.rs:78-82 | folding ends in 16 bits, keeps the residue modulo 65535 and is zero only for zero |
| `Rfc1071.FilledVerifies` | src/forwarding/vnet.rs:66-83 | a zeroed field filled with the checksum makes the octets verify, under any seed |
| `Rfc1071.ChecksumExactly` | src/forwarding/vnet.rs:66-81 | the checksum of any data, odd or even, is the one 16-bit number that brings seed and padded data to a multiple of 65535, with 0xffff only for all zeroes |
| `Rfc1071.VerifiesExactly` | src/forwarding/vnet.rs:66-81 | what a receiver accepts, in the same terms |
| `Rfc1071.WordSumIsValue` | src/forwarding/packet.rs:202-210 | the word sum is the number the padded data denotes, modulo 65535 |
| `Rfc1071.SumsJoined` | src/forwarding/vnet.rs:66-76 | summing part by part is summing them joined |
| `Rfc1071.InternetChecksum` | src/forwarding/vnet.rs:66-83 | the summing and folding loops compute the checksum of the parts without overflowing 32 bits |
| `Rfc1071.SliceChecksum` | src/forwarding/packet.rs:202-219 | likewise over one slice |
| `Packet.Ipv6FinalProtocol` | src/forwarding/packet.rs:75-122 | the bounded walk over extension headers |
| `Packet.WalkFinds` | src/forwarding/packet.rs:75-122 | over any chain of well-formed extension headers the walk finds the first later fragment or the upper-layer protocol, and gives up at eight |
| `Packet.ParseExactly` | src/forwarding/packet.rs:25-67 | what parses, and to what |
| `Packet.SourceExactly` | src/forwarding/packet.rs:126-140 | a source is accepted exactly when some assignment covers it |
| `Packet.CoversExactly` | src/forwarding/packet.rs:130-134 | an assignment covers what agrees with it in the bits of its prefix |
| `Packet.DecrementedExactly` | src/forwarding/packet.rs:162-190 | a packet that parses goes on exactly with a hop count of at least two, and has otherwise expired |
| `Packet.DecrementedOnly` | src/forwarding/packet.rs:162-199 | a hop changes only TTL and checksum octets, leaves a verifying IPv4 header and the parse |
| `Packet.RechecksummedField` | src/forwarding/packet.rs:193-199 | the refilled field holds the checksum of the header around it |
| `Packet.DecrementTtl` | src/forwarding/packet.rs:162-190 | the buffer becomes the packet one hop later, or stays as it was |
| `Packet.RecomputeIpv4Checksum` | src/forwarding/packet.rs:193-199 | the header checksum is refilled in place |
| `Segment.PseudoSumIsHeaderSum` | src/forwarding/vnet.rs:85-102 | the seed is the sum of the pseudo-header the standards define |
| `Segment.PseudoLayout` | src/forwarding/vnet.rs:85-102 | the pseudo-header octet by octet |
| `Segment.TransportFilledVerifies` | src/forwarding/vnet.rs:122-153 | a completed transport checksum verifies behind the pseudo-header |
| `Segment.TransportFilledOnly` | src/forwarding/vnet.rs:130-150 | nothing but the field changes, and it holds the one checksum |
| `Segment.SplitExactly` | src/forwarding/vnet.rs:157-177 | which frames are segmented and why others are refused |
| `Segment.OffsetIsProduct` | src/forwarding/vnet.rs:188-210 | segment `i` starts `i` times the segment size into the payload |
| `SegmentTheorems.SegmentCorrect` | src/forwarding/vnet.rs:186-228 | every emitted segment carries its chunk under the aggregate's headers with fresh fields, and its IPv4 and TCP checksums verify |
| `SegmentTheorems.SegmentHeader` | src/forwarding/vnet.rs:189-208 | segment `i` has its own length and, over IPv4, the aggregate's identification plus `i`; every other header octet outside sequence number, flags and checksums is the aggregate's |
| `SegmentTheorems.IdentificationsDiffer` | src/forwarding/vnet.rs:199-199 | no two of 65536 consecutive IPv4 segments share an identification |
| `SegmentTheorems.CountIsCeiling` | src/forwarding/vnet.rs:186-186 | there are ceil(payload / mss) segments |
| `SegmentTheorems.PayloadPreserved` | src/forwarding/vnet.rs:186-228 | the segment payloads concatenate to the payload of the aggregate |
| `SegmentTheorems.StreamOctet` | src/forwarding/vnet.rs:186-228 | octet `k` of segment `i` is octet `i` times the segment size plus `k` of the payload |
| `SegmentTheorems.EveryOctetCarried` | src/forwarding/vnet.rs:186-228 | every octet of the payload is carried by one segment and no other reaches it |
| `SegmentTheorems.StreamSequence` | src/forwarding/vnet.rs:210-211 | payload octet `p` carries sequence number base + p modulo 2^32 |
| `SegmentTheorems.FlagsSplit` | src/forwarding/vnet.rs:212-219 | flags OR back to the original; FIN and PSH only on the last segment, CWR only on the first |
| `SegmentTheorems.SegmentParses` | src/forwarding/packet.rs:25-67 | a segment parses with the source, destination and protocol of the aggregate |
| `Expand.NoOverflow` | src/forwarding/vnet.rs:66-102 | the 32-bit register cannot overflow on a frame of the device |
| `Expand.FillTransport` | src/forwarding/vnet.rs:130-150 | the partial checksum is completed in the frame |
| `Expand.SegmentTcp` | src/forwarding/vnet.rs:157-230 | the loop emits exactly the segments, or the source's error and nothing |
| `Expand.Expand` | src/forwarding/vnet.rs:122-153 | one frame becomes itself, itself completed, or its segments |
| `Icmp.ErrorV4Parses` | src/forwarding/icmp.rs:48-102 | an IPv4 error parses, from the gateway to the original source |
| `Icmp.ErrorV4Verifies` | src/forwarding/icmp.rs:48-102 | its header and message checksums verify, and it quotes the original |
| `Icmp.ErrorV4Numbers` | src/forwarding/icmp.rs:68-101 | type, code and MTU of RFC 792 and RFC 1191, quoting the IP header and eight octets |
| `Icmp.ErrorV6Parses` | src/forwarding/icmp.rs:104-144 | an IPv6 error parses, from the gateway to the original source |
| `Icmp.ErrorV6Verifies` | src/forwarding/icmp.rs:104-144 | its checksum verifies with the pseudo-header, and it quotes the original |
| `Icmp.ErrorV6Numbers` | src/forwarding/icmp.rs:117-143 | type, code and MTU of RFC 4443, quoting 48 octets |
| `Icmp.ErrorV6Transport` | src/forwarding/icmp.rs:129-143 | the ICMPv6 checksum verifies behind the packet's own pseudo-header |
| `Icmp.ErrorIsTerminal` | src/forwarding/icmp.rs:33-154 | no error provokes another error |
| `Icmp.TargetExactly` | src/forwarding/icmp.rs:147-154 | the senders no error goes to, as prefixes |
| `Icmp.BuildExactly` | src/forwarding/icmp.rs:33-66 | which packets that parse earn an error |
| `Icmp.BuildV4Error` | src/forwarding/icmp.rs:48-102 | field by field, the specified error or none |
| `Icmp.BuildV6Error` | src/forwarding/icmp.rs:104-144 | field by field, the specified error or none |
| `Limiter.WindowBound` | src/forwarding/limiter.rs:53-83 | any window of calls admits at most one second's rate plus rate times window, in each limited dimension |
| `Limiter.LifetimeBound` | src/forwarding/limiter.rs:37-83 | the same for any stretch of calls in the life of a limiter made full |
| `Limiter.RunWithin` | src/forwarding/limiter.rs:53-83 | over any calls tokens never exceed the rate |
| `Limiter.EarnedExactly` | src/forwarding/limiter.rs:61-63 | what any pause earns: rate times whole microseconds, rounded down |
| `Limiter.SpendExactly` | src/forwarding/limiter.rs:71-82 | admitted exactly when every limited bucket covers it, at the cost of one packet and its octets |
| `Limiter.CallExactly` | src/forwarding/limiter.rs:53-83 | a call tops both buckets up to the rate and then pays |
| `Limiter.HastyStarves` | src/forwarding/limiter.rs:61-69 | an empty bucket asked again sooner than a token takes admits nothing, however long that goes on |
| `Limiter.RefusedSpendsNothing` | src/forwarding/limiter.rs:71-75 | a refused call found a bucket short and spends nothing; a bucket ends lower exactly when its 64-bit sum wrapped |
| `Limiter.WrapHappens` | src/forwarding/limiter.rs:63-67 | the 64-bit sum can wrap |
| `Limiter.SecondFills` | src/forwarding/limiter.rs:59-69 | a second's pause fills a bucket, unless the sum wraps |
| `Limiter.SessionLimiter.constructor` | src/forwarding/limiter.rs:37-46 | the buckets start full |
| `Limiter.SessionLimiter.TryConsumeAt` | src/forwarding/limiter.rs:53-83 | the buckets in place |
| `PortAllocator.New` | src/udp_bind/alloc.rs:34-51 | an empty address list or an inverted range is refused |
| `PortAllocator.AllocateExactly` | src/udp_bind/alloc.rs:62-84 | never a tuple in use; nothing exactly when all are in use, from any cursor, and then nothing changed |
| `PortAllocator.ReleaseReopens` | src/udp_bind/alloc.rs:87-89 | after a release an allocation succeeds |
| `PortAllocator.ReleaseReturns` | src/udp_bind/alloc.rs:87-90 | a release frees that tuple and no other |
| `PortAllocator.NthAllocation` | src/udp_bind/alloc.rs:57-84 | with distinct addresses and no release, allocation n is (ips[n mod k], lo + n div k) |
| `PortAllocator.Allocator.constructor` | src/udp_bind/alloc.rs:34-51 | the allocator starts empty at the low port |
| `PortAllocator.Allocator.Allocate` | src/udp_bind/alloc.rs:62-84 | the nested search loops in place |
| `PortAllocator.Allocator.Release` | src/udp_bind/alloc.rs:87-89 | the tuple is free again |
| `Iface.SplitReaches` | src/iface/mod.rs:86-94 | the halves of a default route reach what it reaches |
| `Iface.PrefixesExact` | src/iface/mod.rs:102-131 | the planned prefixes reach exactly the unscoped well-formed ranges, hold no default route and strictly ascend |
| `Iface.CollectPrefixes` | src/iface/mod.rs:102-131 | the loops compute those prefixes |
| `Configure.ApplySafe` | src/iface/mod.rs:225-272 | in every state of applying a pinned plan a tunnel route is present only with the pin |
| `Configure.AddressesFirst` | src/iface/mod.rs:225-272 | no route is installed before every address |
| `Configure.UndoSafeExactly` | src/iface/mod.rs:215-224 | undoing is safe in every state exactly when the pin's removal failed or every route's removal worked |
| `Configure.UndoCanFail` | src/iface/mod.rs:215-224 | a plan, a kernel and outcomes for which it is not |
| `Configure.UndoRestoresExactly` | src/iface/mod.rs:215-224 | undoing restores the starting state exactly when every removal worked |
| `Configure.RefusalSafeExactly` | src/iface/mod.rs:275-291 | the same over the whole life of a plan refused at any command |
| `Configure.Drop` | src/iface/mod.rs:215-224 | the guard passes exactly the specified states, whatever the kernel refuses |
| `Configure.Realize` | src/iface/mod.rs:275-291 | every command in order, or everything applied undone |
| `Engine.JudgeExactly` | src/forwarding/mod.rs:216-303 | exactly when a client packet reaches a session and exactly when it reaches the network |
| `Engine.JudgeOrder` | src/forwarding/mod.rs:216-303 | the whole decision, guard by guard: the first that fails decides |
| `Engine.JudgePasses` | src/forwarding/mod.rs:216-303 | what is passed on is the packet one hop later, with its parse and a verifying header |
| `Engine.JudgeReports` | src/forwarding/mod.rs:228-299 | an error is reported only about a packet whose source belongs to the sender |
| `Engine.SettingExactly` | src/forwarding/mod.rs:76-78 | a policy admits what one of its ranges contains, and no policy nothing |
| `Engine.ReportAddressed` | src/forwarding/mod.rs:307-317 | a built error goes from a gateway to the source it quotes |
| `Engine.InboundExactly` | src/forwarding/mod.rs:330-358 | exactly when a network packet is dispatched, and where |
| `Engine.InboundOrder` | src/forwarding/mod.rs:330-358 | why an inbound packet stops, in order |
| `Engine.ForwardingEngine.constructor` | src/forwarding/mod.rs:113-134 | every counter zero, nothing registered, limited or logged |
| `Engine.ForwardingEngine.Register` | src/forwarding/mod.rs:142-158 | sink, policy, MTU and limiter of one session |
| `Engine.ForwardingEngine.Unregister` | src/forwarding/mod.rs:161-169 | all of them gone |
| `Engine.ForwardingEngine.Deliver` | src/forwarding/mod.rs:360-400 | the reply of the sink decides; a delivered packet and one found too wide are counted once |
| `Engine.ForwardingEngine.SendIcmpError` | src/forwarding/mod.rs:307-317 | an error that can be built is delivered, counted and on record exactly when the sender's sink takes it |
| `Engine.ForwardingEngine.ForwardValidated` | src/forwarding/mod.rs:216-303 | carries out the decision for the looked-up route |
| `Engine.ForwardingEngine.ForwardAdmitted` | src/forwarding/mod.rs:207-213 | a packet past the limiter is decided and counted once |
| `Engine.ForwardingEngine.ForwardFromClient` | src/forwarding/mod.rs:190-214 | one call of the run, judged with what the lookup answers, with exactly the decided effect on log, counters and limiter; conservation is kept |
| `Engine.ForwardingEngine.DispatchFromNetwork` | src/forwarding/mod.rs:330-358 | one call of the run, judged with what the lookup answers; conservation is kept |
| `Engine.JudgeKinds` | src/forwarding/mod.rs:231-299 | which fault earns which report: an announced MTU below the packet's size, an expired hop count, a policy or scope that refuses, no session and no network |
| `Packet.DestinationRefused` | src/forwarding/packet.rs:144-158 | exactly loopback, link-local, unspecified and broadcast destinations are refused, as prefixes |
| `Router.OthersAppend` | src/forwarding/router.rs:50-63 | retaining drops exactly the session's routes and keeps the order of the rest |
| `Configure.CommandsCarryOut` | src/iface/mod.rs:183-272 | the commands of a setup add exactly the granted addresses; with routes, routes reaching exactly the advertised unscoped addresses, and the requested pin once its path is known; without routes, addresses only |
| `Configure.PlanSafe` | src/iface/mod.rs:183-291 | wherever applying the plan of a pinned setup stops, a tunnel route is present only with the requested pin |
| `Advertise.FromNet` | src/capsule/mod.rs:93-100 | the range of a prefix contains exactly its addresses, under the protocol scope |
| `Advertise.AdvertisedExactly` | src/session/handler.rs:401-467 | the resolved routes admit exactly the wanted destinations under the asked protocol, are disjoint and ascending, and survive the wire |
| `Advertise.RefusedExactly` | src/session/handler.rs:435-463 | a request is refused exactly for an impossible prefix or a name without a usable address |
| `DataPlane.HairpinReachesHolder` | src/forwarding/mod.rs:268-288 | a hairpinned packet comes from an address its sender held at the snapshot and reaches the holder of its destination at the lookup, or a session still removing its routes |
| `DataPlane.DispatchReachesHolder` | src/forwarding/mod.rs:330-358 | a network packet to a pool address likewise |
| `DataPlane.ForwardedOnce` | src/server.rs:253-266 | no two sessions outside teardown get the same packet past the source check |
| `Engine.MoveConserved` | src/forwarding/mod.rs:190-214 | every call keeps the books balanced and every error on record justified and delivered |
| `Engine.RunConserved` | src/forwarding/mod.rs:190-397 | over any run of calls each client packet is counted once among hairpin, tun-out, dropped and rate-limited; deliveries are hairpins plus errors plus dispatches; every error on record was delivered, to the source it quotes |
| `Engine.RunReports` | src/forwarding/mod.rs:216-317 | every error on record answers a call of its own, in order: built from that call's verdict, on the addresses the call was judged by, and sent to the session that made it |
| `Engine.ReportAnswered` | src/forwarding/mod.rs:216-317 | a reportable fault of a session whose sink takes the error is answered with exactly that error |
| `Engine.PassedOn` | src/forwarding/mod.rs:268-297 | a packet that may pass, to a sink or device that takes it, is passed on and counted |
| `DataPlane.ErrorsReachHolders` | src/forwarding/mod.rs:307-317 | beside the control plane, with calls judged by their session's snapshot: every error answers a call of its own, and the session it went to, unless in teardown, held the quoted source |
| `Engine.ForwardingEngine.Admit` | src/forwarding/mod.rs:198-205 | the session's bucket decides, a session without one is admitted |

## Left out

- QUIC, HTTP/3, TLS and the tokio plumbing: I/O over libraries.
- Path promotion, hole punching and its event streams: decided inside another library.
- The relay's own teardown once the client's end of a bound session is gone: its table simply stays as it was.
- Liveness of the idle reaper and of the ACK wait: timers and notification semantics.
- `RelaySocket::lockdown_for` with a peer chosen by the caller: the model has the multiplexed path, where the peer set is shared and written once.
- Destination policy and egress rate cap of the bind socket: they only drop datagrams, which the model already allows.
- A handler task cancelled or panicking between two calls: the model ends a handler only at its awaits.
- Name resolution and the text of request paths: a hostname target arrives as its addresses.
- `VnetHdr::parse`, `encode_none` and the datagram codec: fixed field layouts.
- Client routes and proxy addresses recorded on the session, `touch`, metrics rendering: field copies nothing reads back in the model.
- Identity, authentication, tokens, configuration, NAT and TUN backends, STUN and port mapping: library content or easy members.
- Text of the platform commands: a command is the item it adds or removes.
- SegmentTheorems.SegmentParses: needs a frame of at most 65535 octets and no IPv6 extension headers, as kernel aggregates have.
- Expand.SegmentTcp: needs an IPv4 header length of at least five words, as kernel aggregates have; shorter ones make the source index outside its slices.
- Expand.FillTransport: needs a whole IP header before the transport header, as a shorter one makes the source panic, and at most 98304 octets, so that the 32-bit sum cannot overflow.
- Segment.TransportFilledVerifies: needs an even checksum offset, as every transport protocol has.
- Limiter.WindowBound: an upper bound only; there is no lower one over a window, because the limiter discards fractions of a token (`HastyStarves`).
- ControlPlane.StepInv: a session id is taken to be free when its handler starts; `ComposeCollides` says when ids repeat.
- ControlTheorems.SessionLimit: the length check and the insert are one step; the source does not lock across them.
- ControlPlane.AdvanceInv: `remove_session` and `register_session` are one step each, although each touches several maps.
- Engine.RunConserved: calls on the engine follow one another; inside a call the counters are between two updates.
- Engine.JudgeExactly: the policies and MTUs a packet is judged by are read at one instant.
- Configure.Realize: the kernel refuses to add what exists, which `ifconfig` on macOS does not.
- Packet.DecrementTtl: needs an IPv4 header that ends inside the buffer where the hop count has not run out; a longer one makes the source panic.
- Packet.RecomputeIpv4Checksum: likewise, and at least twelve octets.
- Expand.Expand: needs what `FillTransport` and `SegmentTcp` need.
- Pool.AllocateValid: each pool method is one step; the check and the record inside it are not separated.
- Engine.ForwardingEngine.Deliver: whether a sink is congested or too narrow is a free choice.
- Rfc1071.InternetChecksum: needs a sum that fits its 32-bit register; `NoOverflow` shows that device frames do.
- Rfc1071.SliceChecksum: needs at most 65536 octets, for the same reason.
- CapsuleStream.StreamRoundTrip: needs what the wire format can express, in particular distinct route keys; `AcceptedExactly` covers other route lists.
- Ranges.MergeKeepsMeaning: needs bounds of the declared family, which ranges built from a prefix or decoded from the wire have.
