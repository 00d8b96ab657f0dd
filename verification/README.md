# A verified model of the udpcap socket

udpcap emulates a UDP socket on top of a capture driver: `bind` opens capture handles, a generated
pcap-filter text selects the traffic, `receiveDatagram` polls the handles and reassembles IP fragments,
and `close` may run on another thread meanwhile. This project models that logic in Dafny and proves what
it is meant to guarantee.

| file | models |
|---|---|
| `Common.dfy` | integer widths, options, small set facts |
| `HostAddress.dfy` | addresses, their order, and the ordered container of multicast groups |
| `Packets.dfy` | captured frames, the UDP header, the flags word of the IPv4 header |
| `PcapFilter.dfy` | the pcap-filter language: tokens, printer, parser, meaning under two precedence rules |
| `FilterGenerator.dfy` | the generator, its text as a syntax tree, and the acceptance rule it implements |
| `Reassembly.dfy`, `ReassemblySweep.dfy` | the timestamp index beside the fragment store; expiry |
| `IpReassembly.dfy` | the same as two objects, the engine calling its owner back while it works |
| `Fragmentation.dfy`, `PacketHandler.dfy` | fragments of one packet along a run; from frame to caller's buffers |
| `SocketState.dfy`, `SocketRuns.dfy` | bind, close, join, leave and loopback as functions, and every run of them |
| `Npcap.dfy`, `WaitArithmetic.dfy` | the driver, the clock and the events, with the contract the socket relies on; deadline arithmetic |
| `UdpcapSocket.dfy` | the socket object: configuration calls and the receive loop, updated in place |
| `Protocol.dfy`, `ProtocolRuns.dfy` | receiver thread and controller thread as an interleaved step system; what whole calls of it achieve |

The main results, in the order of the stack:

1. **Protocol.** Over every interleaving of one receiver with one other call, no handle is polled, read
   through, filtered or closed after its release, and each handle is released exactly once. The three
   lists do not change during a call. Once the closed flag is set a call delivers nothing more and ends
   within six steps, with SOCKET_CLOSED unless a wait that had already begun runs out. Nobody deadlocks.
2. **Receive loop.** Every call terminates. The datagrams reported are exactly the accepted outputs of the
   frames claimed, device by device and in order. The answers of the driver decide the error, and a
   timeout is not early.
3. **Filter.** For every configuration with a valid address the emitted text parses, and means the acceptance rule whether
   `and` binds tighter than `or` or equally; installed filters agree with the configuration after every
   run of calls.
4. **Reassembly.** Index and store agree after every run. The sweep as written is exactly characterised.
   Fragmentation is invisible to the caller.

## How the source is read

- `receiveDatagram` leaves the reassembly pointer of its arguments null
  (udpcap/src/udpcap_socket_private.cpp:295, udpcap/src/udpcap_socket_private.h:77), and the handler
  dereferences it (line 958). The model takes the entry of the synchronised list that belongs to the
  device (udpcap/src/udpcap_socket_private.h:170).
- The expiry loop advances its iterator at the erase and again in the loop header
  (udpcap/src/ip_reassembly.cpp:116-123). `Sweep` does the same, and an advance past the end stops it.
  `IntendedSweep` is the loop without the second advance. The iteration order of the hash map is a
  parameter and may differ from call to call.
- `num_handles - 1` is computed in unsigned 32-bit arithmetic (udpcap/src/udpcap_socket_private.cpp:387).
  The model wraps in the same way; with zero handles every wait result counts as a signal. A bind to the
  Any address can leave a bound socket in that state (lines 126-134).
- The remaining wait is cast to 32 bits (line 375). The model wraps in the same way.
- The comment at line 228 says that a timeout of 0 waits for ever; the code waits for ever for negative
  values only. The header says that leaving a group fails on an unbound socket; the code does not check
  (lines 466-494). The model follows the code in both cases.
- After a failed bind, devices it has opened stay listed and open. Changing the groups or the loopback
  flag then regenerates filters with an invalid address; the emitted text contains `ip dst` without an
  address, does not parse, and leaves every filter as it was.
- `ip multicast` tests the first octet of the destination. The manual promises 224..239, compiled filters
  are known to accept more; the upper bound is a parameter `top`, and every statement holds for each
  value from 239 to 255.
- `udp port` matches source and target port, and ports are only visible in a first fragment.
- The fragment engine is foreign code. A small store that meets the contract documented at
  udpcap/src/ip_reassembly.h:63-89 takes its place. Hash function and capacity are parameters; the
  capacity is at least 1, as the engine cannot hold a packet otherwise.
- The driver is an object whose queues, clock, events and errors change as they like within the
  contracts of `Npcap.dfy`. Its `agenda` is the traffic still to come that the filters let through. A
  wait that does not use up an event notification takes time, and a wait never reports a timeout before
  its time or when asked to wait for ever.
- A reached deadline with a negative timeout would need the clock to reach the end of its range; the
  contract of `ReceiveDatagram` says so explicitly.
- In the step system `bind` and `receiveDatagram` exclude each other and there is one controller at a
  time, as udpcap/include/udpcap/udpcap_socket.h:67-70 and 153-160 demand.

## Model

| member | source | states |
|---|---|---|
| Protocol.StepKeepsInv | udpcap/src/udpcap_socket_private.cpp:254-553 | each step of receiver or controller keeps the inductive invariant: who holds which lock where, which listed handles are open at each stage of close, when the lists are aligned, what the flags allow |
| Protocol.ReachableIsSafe | udpcap/src/udpcap_socket_private.cpp:254-347 | in every reachable state a polling or reading receiver finds all listed handles open, waits on the events of the devices it polled and only after a whole pass has found each of them empty, close releases only open handles, filters go to open handles only, and at rest the open handles are exactly the listed ones, each once, and on a bound socket each carries the filter of the present configuration |
| Protocol.RunKeepsInv | udpcap/src/udpcap_socket_private.cpp:221-553 | every run keeps the invariant |
| Protocol.ReleasedAtMostOnce | udpcap/src/udpcap_socket_private.cpp:533-538 | along any run the number of releases of a handle is 1 if it went from open (or not yet created) to gone, and 0 otherwise |
| Protocol.HandlesConserved | udpcap/src/udpcap_socket_private.cpp:520-548 | after any run from the start that leaves the controller at rest, a created handle is listed and never released, or not listed and released exactly once |
| Protocol.ListsStayForTheCall | udpcap/src/udpcap_socket_private.h:165-170 | from taking the list lock to the return of the call, the three lists stay the same under every interleaving |
| Protocol.ClosedCallEnds | udpcap/src/udpcap_socket_private.cpp:264-281 | once the closed flag is set, a call in progress delivers nothing more, takes at most its rank in further steps (six or fewer), and ends with SOCKET_CLOSED, or TIMEOUT only if it had already passed the check |
| Protocol.NotBoundMeansNeverBound | udpcap/src/udpcap_socket_private.cpp:274-281 | NOT_BOUND is only ever the answer to a call that began on a socket neither bound nor closed, although the bound fields are reset outside the locks |
| Protocol.CloseEffect | udpcap/src/udpcap_socket_private.cpp:520-553 | whatever the receiver does meanwhile, a close that returns leaves the socket closed, unbound, with empty lists and no open handle |
| Protocol.DeadlockFree | udpcap/src/udpcap_socket_private.cpp:522-548 | a thread in a call can move, or waits for a lock whose holder can move |
| Protocol.ReachableNeverStuck | udpcap/src/udpcap_socket_private.cpp:254-548 | no reachable state with a call in progress is stuck |
| Protocol.EveryRunFreesTheLock | udpcap/src/udpcap_socket_private.cpp:542-544 | while close asks for the exclusive lock, every run of the current receive call has at most its rank in steps, and after that many steps, or once the call has returned, close can take the lock |
| Protocol.CloserGetsTheLock | udpcap/src/udpcap_socket_private.cpp:542-544 | such a run always exists: the receiver is never stuck before close can take the lock |
| ProtocolRuns.BindEffect | udpcap/src/udpcap_socket_private.cpp:102-175 | a bind that has returned, under every interleaving: after a successful opening bound and not closed, else both flags as before; every adapter opened is a new handle, listed behind the others and open; on success all listed devices carry the new filter |
| ProtocolRuns.ConfigureEffect | udpcap/src/udpcap_socket_private.cpp:828-834 | a call that only changes filters leaves flags, lists and handles alone and, on a bound socket, reaches every listed device |
| ProtocolRuns.CallOutcome | udpcap/src/udpcap_socket_private.cpp:268-405 | under every interleaving a receive call ends with the first thing that settles it: a datagram, a driver error or a timeout; if there is none, with SOCKET_CLOSED or NOT_BOUND |
| ProtocolRuns.CallDelivery | udpcap/src/udpcap_socket_private.cpp:314-319 | a call counts one delivery iff it ends with a datagram |
| ProtocolRuns.CallsAccepted | udpcap/include/udpcap/udpcap_socket.h:67-70 | which calls can be made in which state |
| ProtocolRuns.DatagramCanBeReceived | udpcap/src/udpcap_socket_private.cpp:259-319 | from every resting bound state and for every listed device some run of one receive call polls that device and returns a datagram from it |
| ProtocolRuns.PassDecidesToWait | udpcap/src/udpcap_socket_private.cpp:350-356 | after a whole pass the receiver goes on to the deadline iff every device was empty, otherwise it polls again |
| ProtocolRuns.TimeoutCanBeAnswered | udpcap/src/udpcap_socket_private.cpp:356-364 | from every resting bound state a call can end with TIMEOUT after one pass of empty devices |
| ProtocolRuns.BindCanSucceed | udpcap/src/udpcap_socket_private.cpp:102-175 | from every resting unbound state a bind that opens n adapters can go through |
| ProtocolRuns.ReceivingIsReachable | udpcap/src/udpcap_socket_private.cpp:102-319 | for every number of adapters and each of them a run from the start polls it and returns a datagram |
| UdpcapSockets.UdpcapSocket.ReceiveDatagram | udpcap/src/udpcap_socket_private.cpp:221-417 | terminates; touches only the reassembly states; handles every frame it claims for its own arguments and the bound port; an unfragmented datagram for that port that it claims is what it returns, payload cut to the buffer, source and source port; whatever it returns is a datagram for that port that a claimed frame carries or completes; of the frames claimed exactly one has then yielded a datagram, else none; entry errors touch nothing; otherwise the last answer of the driver decides the error code by code, every wait asked for the time left, a timeout follows a whole pass of empty devices and comes less than a millisecond early for timeouts up to 2^32 - 2 ms, and never for a negative timeout before the end of the clock |
| UdpcapSockets.UdpcapSocket.ReceiveTurn | udpcap/src/udpcap_socket_private.cpp:259-281 | the closed check comes before the bound check, both before any poll; a turn that does not end the call has used up a frame, a notification or time |
| UdpcapSockets.UdpcapSocket.PollAndWait | udpcap/src/udpcap_socket_private.cpp:293-414 | a wait follows only a pass without data; what ends the call is justified by the polls or by a wait that has run out |
| UdpcapSockets.UdpcapSocket.PollPass | udpcap/src/udpcap_socket_private.cpp:293-347 | devices are asked once each, in list order, up to the first datagram or error, whose code determines the result; nothing but a returned datagram is added to the deliveries |
| UdpcapSockets.UdpcapSocket.PollDevice | udpcap/src/udpcap_socket_private.cpp:295-346 | one poll; each answer of the driver has its outcome, and a claimed frame enters the log of its device together with what its handling delivers |
| UdpcapSockets.UdpcapSocket.HandleClaim | udpcap/src/udpcap_socket_private.cpp:940-981 | the frame just claimed is handled on the reassembly state of its own device, with the caller's arguments, at times within the call, by a sweep that walks the whole index once; log and deliveries stay in agreement |
| UdpcapSockets.UdpcapSocket.WaitForData | udpcap/src/udpcap_socket_private.cpp:356-414 | the call times out exactly when the deadline is reached or the wait, asked for on at most 64 events and for the remaining milliseconds, is classified as a timeout; otherwise a notification or time has been used up |
| UdpcapSockets.UdpcapSocket.ReceiveUntilEnd | udpcap/src/udpcap_socket_private.cpp:256-416 | the loop ends, by frames left, notifications left and time left in this order; the flags decide first, then the answers of the driver |
| UdpcapSockets.CallAnswers | udpcap/src/udpcap_socket_private.cpp:295-319 | how the log of a call shows what it returns: a claimed datagram for the bound port is returned, and nothing else is |
| UdpcapSockets.CallsConsumeWhatTheyDeliver | udpcap/src/udpcap_socket_private.cpp:307-319 | between a log and its continuation: without a new delivery no claimed frame has yielded a datagram, with one exactly one has, and it is that one |
| UdpcapSockets.BooksShowConsumed | udpcap/src/udpcap_socket_private.cpp:307-319 | the same for the logs of all devices before and after a call, which is how ReceiveDatagram states it |
| UdpcapSockets.UdpcapSocket.constructor | udpcap/src/udpcap_socket_private.cpp:55-63 | a new socket is unbound, not closed, without groups and with loopback enabled |
| UdpcapSockets.UdpcapSocket.OpenPcapDevice | udpcap/src/udpcap_socket_private.cpp:670-743 | equals the specification: handle created, closed again if activation fails, else appended to all three lists |
| UdpcapSockets.UdpcapSocket.OpenDevicesFor | udpcap/src/udpcap_socket_private.cpp:104-163 | the three ways of opening devices, with devices of a failed bind left listed |
| UdpcapSockets.UdpcapSocket.Bind | udpcap/src/udpcap_socket_private.cpp:76-176 | new state and result equal the specification function, on all paths |
| UdpcapSockets.UdpcapSocket.UpdateAllCaptureFilters | udpcap/src/udpcap_socket_private.cpp:828-834 | every listed handle gets the program compiled from the text of the current configuration, except where compiling or setting fails |
| UdpcapSockets.UdpcapSocket.UpdateCaptureFilter | udpcap/src/udpcap_socket_private.cpp:794-826 | the generated text is compiled and set on one handle; a failure of either leaves the old filter |
| UdpcapSockets.UdpcapSocket.JoinMulticastGroup | udpcap/src/udpcap_socket_private.cpp:419-464 | new state and result equal the specification function |
| UdpcapSockets.UdpcapSocket.LeaveMulticastGroup | udpcap/src/udpcap_socket_private.cpp:466-494 | new state and result equal the specification function |
| UdpcapSockets.UdpcapSocket.SetMulticastLoopbackEnabled | udpcap/src/udpcap_socket_private.cpp:496-513 | filters are regenerated exactly when the flag changes |
| UdpcapSockets.UdpcapSocket.Close | udpcap/src/udpcap_socket_private.cpp:520-553 | new state equals the specification function; the group set is kept |
| SocketState.RunsConserveAndFilter | udpcap/src/udpcap_socket_private.cpp:165-173 | over any run of binds (also partly failing), closes, joins, leaves, loopback changes and receives: handles conserved, lists aligned, and each listed device of a bound socket carries the filter generated from the current configuration (unless its driver refuses filters), which is a parseable text |
| SocketState.ApplyKeepsInv | udpcap/src/udpcap_socket_private.cpp:104-173 | each call keeps the invariant at rest, including binds over devices left by an earlier failed bind |
| SocketState.BindReport | udpcap/src/udpcap_socket_private.cpp:76-176 | a bind succeeds iff the socket is valid and unbound, the address is valid, its adapters exist and, but for Any, all of them open; the list grows by the opened adapters in order, also on failure, and a failed bind changes nothing else |
| SocketState.CloseClosesAll | udpcap/src/udpcap_socket_private.cpp:534-548 | after close every handle ever created has been closed exactly once, also after repeated closes; the groups survive |
| SocketState.EntryErrorIsHistory | udpcap/src/udpcap_socket_private.cpp:239-281 | an invalid socket answers NPCAP_NOT_INITIALIZED; on a valid one the entry error is SOCKET_CLOSED iff the latest of the successful binds and the closes is a close, NOT_BOUND iff there has been neither; failed binds never matter |
| SocketState.MembershipIsHistory | udpcap/src/udpcap_socket_private.cpp:427-452 | the group set after any run equals successful joins minus successful leaves, across closes and later binds, and holds multicast addresses only |
| SocketRuns.FiltersAcceptForHistory | udpcap/src/udpcap_socket_private.cpp:745-792 | after any run, in a bound state, every listed device that takes filters carries one that parses and admits, under both precedence rules and for all frames, exactly what the rule for address, port, groups and loopback flag does, and these four are what the calls of the run have set |
| SocketRuns.BindingIsHistory | udpcap/src/udpcap_socket_private.cpp:165-168 | address and port after any run are those of the latest successful bind, or none after a close |
| SocketRuns.LoopbackIsHistory | udpcap/src/udpcap_socket_private.cpp:496-513 | the loopback flag after any run is the argument of the latest call |
| SocketRuns.SetLoopbackReport | udpcap/src/udpcap_socket_private.cpp:496-513 | setting the flag sets it and changes nothing else but installed filters |
| SocketRuns.BindAdapters | udpcap/src/udpcap_socket_private.cpp:736-740 | each newly listed device has the name, loopback flag, MAC and driver behaviour the machine gives that adapter; devices and handles from before are left as they are |
| SocketRuns.BindHandles | udpcap/src/udpcap_socket_private.cpp:674-733 | a bind creates one handle for each adapter it tries and the driver knows, in order; those it does not list have been closed once |
| SocketRuns.AdaptersStay | udpcap/src/udpcap_socket_private.cpp:670-743 | over any run handles keep name, loopback flag and MAC, and until a close the listed devices stay listed in place |
| SocketState.JoinReport | udpcap/src/udpcap_socket_private.cpp:419-464 | join succeeds iff the socket is valid and bound and the address is a multicast address not yet joined; the set then grows by it |
| SocketState.LeaveReport | udpcap/src/udpcap_socket_private.cpp:466-494 | leave succeeds iff the socket is valid and the address is a member, bound or not |
| SocketState.UnboundLeavesFilters | udpcap/src/udpcap_socket_private.cpp:811-814 | without a bound address no text compiles, so reconfiguring leaves all filters as they are |
| SocketState.BoundFiltersInstalled | udpcap/src/udpcap_socket_private.cpp:170-173 | with a valid address an update installs the current filter on each listed device |
| WaitArithmetic.WaitReachesDeadlineIff | udpcap/src/udpcap_socket_private.cpp:366-376 | a wait for the truncated remaining time ends less than a millisecond before the deadline and is not an infinite wait iff the remaining milliseconds are at most 2^32 - 2 |
| WaitArithmetic.CastWraps | udpcap/src/udpcap_socket_private.cpp:375 | beyond that the cast wraps: concrete remaining times that ask for no wait, and for an endless one |
| WaitArithmetic.ClassifyExactIff | udpcap/src/udpcap_socket_private.cpp:387-413 | the branches tell signalled, abandoned, timed out and failed apart iff there is at least one handle; with none everything counts as signalled |
| Npcaps.Npcap.NextEx | udpcap/src/udpcap_socket_private.cpp:297-303 | what is relied on of pcap_next_ex: 1 with the oldest captured frame not yet claimed, 0 when there is none, anything else an error without a frame; what was captured before stays captured |
| Npcaps.Npcap.Wait | udpcap/src/udpcap_socket_private.cpp:385-387 | what is relied on of WaitForMultipleObjects: signals are used up, other answers take time, no early timeouts |
| FilterGenerator.CreateFilterString | udpcap/src/udpcap_socket_private.cpp:745-792 | the appended text equals the specified text, is the printed form of a filter when the addresses are valid, and is no filter at all when the bound address is not |
| FilterGenerator.TextMeansAdmits | udpcap/src/udpcap_socket_private.cpp:745-792 | for every configuration with a valid address and multicast groups, the text parses and the parsed filter accepts a frame iff the acceptance rule does, under both precedence rules |
| FilterGenerator.FilterMeansAdmits | udpcap/src/udpcap_socket_private.cpp:749-789 | not own source MAC on non-loopback devices, IPv4 UDP, bound port or fragment, and admitted unicast or joined multicast |
| FilterGenerator.ParsesIffAddressValid | udpcap/src/udpcap_socket_private.cpp:768-773 | the text parses iff the bound address is valid, and then to the intended tree |
| FilterGenerator.TextIsPrinted | udpcap/src/udpcap_socket_private.cpp:749-791 | the text is the printed form of the intended tree, for any number of groups |
| FilterGenerator.InvalidAddressFails | udpcap/src/udpcap_socket_private.cpp:769-772 | with an invalid address the text does not parse, whatever else is configured |
| PcapFilter.ParseAfterPrint | udpcap/src/udpcap_socket_private.cpp:808 | every filter is recovered from its printed text |
| PcapFilter.ParsesIffPrinted | udpcap/src/udpcap_socket_private.cpp:808-811 | a text parses to a filter iff it is the printed form of that filter, so whatever is not a printed form is rejected |
| PcapFilter.PrecedenceIrrelevant | udpcap/src/udpcap_socket_private.cpp:763-786 | a filter without mixed chains has one meaning under both precedence rules |
| PcapFilter.PrecedenceMattersWhenMixed | udpcap/src/udpcap_socket_private.cpp:763-786 | a mixed chain on which the two rules differ |
| Packets.FragmentMask | udpcap/src/udpcap_socket_private.cpp:764 | the mask 0x3fff on the word at offset 6 is non-zero iff "more fragments" is set or the offset is non-zero (section 3.1 of RFC 791) |
| Packets.LowMaskIsRemainder | udpcap/src/udpcap_socket_private.cpp:764 | masking with k low bits is the remainder modulo 2^k |
| HostAddresses.LessIsStrictTotalOrder | udpcap/src/host_address.cpp:113-118 | on valid addresses operator< is irreflexive, asymmetric, transitive and total |
| HostAddresses.ClassesByFirstOctet | udpcap/src/host_address.cpp:55-78 | a.b.c.d is loopback iff a is 127, and multicast iff a is 224 to 239 |
| HostAddresses.SpecialAddresses | udpcap/src/host_address.cpp:142-145 | Any is 0.0.0.0 and broadcast is 255.255.255.255 |
| HostAddresses.EquivalenceIsEqualityIffValid | udpcap/src/host_address.cpp:103-118 | key equivalence of the container coincides with operator== iff the key is valid |
| HostAddresses.ContainsRefinesMembership | udpcap/src/udpcap_socket_private.cpp:445 | find in the ordered container is set membership |
| HostAddresses.InsertRefinesUnion | udpcap/src/udpcap_socket_private.cpp:452 | emplace is set union and keeps the order |
| HostAddresses.EraseRefinesDifference | udpcap/src/udpcap_socket_private.cpp:488 | erase is set difference and keeps the order |
| Reassembly.RunKeepsSync | udpcap/src/ip_reassembly.cpp:50-70 | after each packet of any run, index and store hold the same hashes under the same keys and each key hashes to its slot, whatever expires, completes, is evicted or shares a hash |
| Reassembly.ProcessPacketKeepsSync | udpcap/src/ip_reassembly.cpp:50-70 | one packet keeps that agreement, for every iteration order |
| Reassembly.LocatedIsAhead | udpcap/src/ip_reassembly.cpp:158-171 | while the engine works, the store is ahead of the index by the current hash only, also after a re-entrant eviction |
| Reassembly.EngineContract | udpcap/src/ip_reassembly.h:63-89 | the stand-in keeps the documented contract: status and returned packet for non-IP, unfragmented, malformed, buffered and completing input |
| Reassembly.KeyIdentifies | udpcap/src/ip_reassembly.cpp:87-110 | two fragments share a key iff they are of one IP version and agree in identification, source and destination |
| IpReassemblies.IpReassembly.constructor | udpcap/src/ip_reassembly.cpp:41-44 | owner and engine know each other and start empty |
| IpReassemblies.IpReassembly.ProcessPacket | udpcap/src/ip_reassembly.cpp:50-70 | the objects together do what the specification function does, and stay valid |
| IpReassemblies.IpReassembly.RemoveOldPackages | udpcap/src/ip_reassembly.cpp:112-125 | the loop with its double advance equals the specified sweep |
| IpReassemblies.IpReassembly.OnFragmentsCleanCallback | udpcap/src/ip_reassembly.cpp:158-171 | the index loses the hash of the evicted key and nothing else |
| IpReassemblies.IpReassembly.UpdatePackageInTimestampMap | udpcap/src/ip_reassembly.cpp:142-156 | the time is refreshed under the key already there, or a new entry is made |
| IpReassemblies.IpReassembly.RemovePackageFromTimestampMap | udpcap/src/ip_reassembly.cpp:133-140 | the index loses the hash of the key and nothing else |
| IpReassemblies.FragmentEngine.ProcessPacket | udpcap/src/ip_reassembly.h:63-89 | the stand-in engine, with its call back into the owner, equals its specification |
| IpReassemblies.FragmentEngine.AddNewPacket | udpcap/src/ip_reassembly.cpp:158-171 | a full store evicts its least recently used packet and tells the owner |
| IpReassemblies.IpReassembly.GetCurrentCapacity | udpcap/src/ip_reassembly.cpp:127-130 | the size of the index equals the capacity in use, so the out-of-sync message is never printed at rest; both are bounded by the capacity |
| ReassemblySweep.SweepErases | udpcap/src/ip_reassembly.cpp:116-125 | the sweep as written removes exactly the erased positions, from both structures |
| ReassemblySweep.IntendedSweepRemovesExpired | udpcap/src/ip_reassembly.cpp:116-125 | the loop with a single advance removes every expired entry from index and store, and no other |
| ReassemblySweep.SweepCompleteIff | udpcap/src/ip_reassembly.cpp:116-125 | the sweep as written equals that loop iff no two neighbours in iteration order have both expired |
| ReassemblySweep.SweepHalves | udpcap/src/ip_reassembly.cpp:116-125 | it removes only expired entries and at least half of them |
| ReassemblySweep.SweepsClearAll | udpcap/src/ip_reassembly.cpp:112-125 | n sweeps at one time do what the intended loop does in one when fewer than 2^n entries have expired |
| ReassemblySweep.SweepsRemoveExpired | udpcap/src/ip_reassembly.cpp:112-125 | repeated sweeps remove a set of expired entries and nothing else, and keep index and store in agreement |
| ReassemblySweep.IntendedRunIsPrompt | udpcap/src/ip_reassembly.cpp:52-67 | with the intended loop, over any run, no packet handed out joins consecutively buffered fragments further apart than the maximum age |
| ReassemblySweep.CompleteSweepsAreIntended | udpcap/src/ip_reassembly.cpp:112-125 | a run whose sweeps meet no two expired neighbours has the outcomes of the intended run |
| ReassemblySweep.HandedOutPromptOverRuns | udpcap/src/ip_reassembly.cpp:52-67 | with the sweep as written, over any run from the start, a packet handed out respects the maximum age iff none of its fragments, back to the one that began its entry, arrived when that entry had expired and the sweep skipped it |
| ReassemblySweep.HandedOutPromptIff | udpcap/src/ip_reassembly.cpp:52-67 | the same for one packet, judged by the state before the call: the entry does not survive the sweep, or it is within the age so far and has not expired |
| ReassemblySweep.StaleFragmentJoined | udpcap/src/ip_reassembly.cpp:116-123 | a run of three fragments from the start after which a packet is handed out that joins a stale fragment |
| Fragmentation.FragmentsComeOutWhole | udpcap/src/ip_reassembly.h:76-88 | fragments in any order, interleaved with other traffic, give the original frame exactly once, if while the packet is underway each sweep comes within the maximum age of its latest fragment and fewer other fragments than the capacity are collected between two of its own |
| Fragmentation.OthersSpare | udpcap/src/ip_reassembly.cpp:50-70 | other traffic leaves an entry as it is while it has not expired and fewer other packets than the capacity have been used since: expiry by refreshed time, eviction by recency |
| Fragmentation.AssembleParts | udpcap/src/ip_reassembly.h:76-77 | assembly succeeds iff no part is missing, and then yields the original data |
| PacketHandler.FragmentationTransparent | udpcap/src/udpcap_socket_private.cpp:950-1003 | the fragments of a datagram deliver exactly what the unfragmented datagram delivers: source address, source port, port check and truncated payload, once or not at all |
| PacketHandler.SentInFragmentsIsDelivered | udpcap/src/udpcap_socket_private.cpp:950-1003 | a datagram encoded by a sender and cut into fragments in any way reaches the caller once, with the payload it was sent with (cut to the buffer), its source address and its source port, iff it is for the bound port |
| PacketHandler.SentIsDelivered | udpcap/src/udpcap_socket_private.cpp:974-1003 | the same without fragmentation, leaving the reassembly untouched |
| PacketHandler.HandleDelivers | udpcap/src/udpcap_socket_private.cpp:950-1003 | whatever handling a frame delivers is a datagram for the bound port from the sender of that frame |
| Packets.UdpRoundTrip | udpcap/src/udpcap_socket_private.cpp:985-998 | the UDP layer read from an encoded datagram is the one that was encoded |
| Packets.UdpParsesIffEncoded | udpcap/src/udpcap_socket_private.cpp:947-948 | a payload has a UDP layer iff it is an encoded UDP datagram |
| PacketHandler.UnfragmentedDeliveredIff | udpcap/src/udpcap_socket_private.cpp:760-764 | filter and port check together pass exactly the unfragmented datagrams addressed to the socket |
| PacketHandler.KeyDistinguishesAdmitted | udpcap/src/ip_reassembly.cpp:87-95 | among admitted frames, with injective hashes, the key without protocol distinguishes what section 3.2 of RFC 791 distinguishes with it |
| PacketHandler.KeyConfusesUnfiltered | udpcap/src/ip_reassembly.cpp:90-94 | without the filter it would not |
| PacketHandler.CallbackArgs.PacketHandlerRawPtr | udpcap/src/udpcap_socket_private.cpp:940-981 | the in-place handler does to the caller's memory and the reassembly object what the specification function says |
| PacketHandler.CallbackArgs.FillCallbackArgs | udpcap/src/udpcap_socket_private.cpp:983-1004 | buffer prefix, length, address, port and success flag are set for the bound port; otherwise, and beyond the copied length, the caller's memory is untouched |

## Left out

- The driver, packet parsing, link types and Win32 calls are foreign code; they appear as the contracts of `Npcap.dfy` and as already parsed frames.
- The internals of the fragment engine: its stand-in keeps the documented contract and nothing else; which copy of a repeated fragment counts is its own choice.
- Address and MAC formatting (`inet_pton`, `inet_ntop`, `getMac`): an address or MAC is one token of the filter text.
- `kickstartLoopbackMulticast`: network traffic without effect on the socket.
- `npcap_helpers.cpp`: library loading, device enumeration and error texts; what they find is the `Machine` a bind is given.
- `setReceiveBufferSize`, `isBound`, `localAddress`, `isClosed` and the remaining getters read or set one field.
- The maximum age of 5 seconds given at udpcap/src/udpcap_socket_private.cpp:740 and the engine's default capacity are parameters.
- Error messages and debug output; only the error codes are kept.
- Frames already in the driver's buffer when a filter changes: a frame is let through by some filter that was installed, which one is not modelled.
- Fairness between devices: each pass starts at the first device, so nothing is promised about later ones under load.
- Overflow of the clock for timeouts of several hundred years, when adding the timeout in nanoseconds leaves 64 bits.
- Progress of the lock against a receiver that keeps starting new calls: such a call returns SOCKET_CLOSED, but how a lock chooses between waiting threads is not specified.
- ReceiveDatagram: runs as one thread's sequential call on reassembly states held as values in the socket's list; the shared objects and their aliasing are proved separately in `IpReassembly.dfy`, and the interleaving with close in `Protocol.dfy`.
- FragmentationTransparent: assumes that no other fragment shares the hash, that no sweep finds the packet expired (the age counts from its latest fragment) and that fewer other fragments than the capacity come between two of its own; otherwise collision, expiry or eviction legitimately loses the datagram.
