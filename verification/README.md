# ShieldProxy relay core in Dafny

A model of the packet-relay core of ShieldProxy, a Windows relay that lets a
game-streaming client find and reach a Shield streaming device across network
boundaries. Four pieces of sequential logic are modelled as pure functions
over bytes and small records. Each comes with proofs of what the C code
promises.

- `wire.dfy` (module `Wire`) has the fixed-width integer types and the
  `HTONS` byte swap. It also has the big- and little-endian field loads.
- `pcap.dfy` (module `Capture`) has the captured-frame handler
  `packet_handler`. It takes an Ethernet/IPv4/UDP frame (per section 3.1 of
  RFC 791 and RFC 768) and decides whether the port relay learns a port,
  forwards a payload, or does nothing. The module also has the rule that
  decides which interfaces qualify for capture, and one capture step that applies
  the decision to the port relay.
- `udprelay.dfy` (module `UdpRelay`) has the per-interface table of three
  port bindings (video, control, audio). It covers lookup, register,
  reconfigure, forward and unregister.
- `mdns.dfy` (module `MdnsRelay`) has the mDNS relay loop. Each datagram is
  sent either to the recorded remote client or to the multicast group
  224.0.0.251:5353, and the recorded client is updated.
- `platform.dfy` (module `Platform`) has the adapter-filtering loop that
  builds the table of local, multicast-capable IPv4 addresses.

## Representation choices

- Bytes are `uint8` (an `int` subset type). A captured frame is the
  `seq<uint8>` the capture delivered, so `|frame|` stands for `caplen`.
- Ports and IPv4 addresses are modelled as their network values. Port 47998
  is `47998`, and 224.0.0.251 is `0xE00000FB`.
- The C code reads these fields as host-order loads of network-order bytes,
  and compares them with byte-swapped constants (`HTONS`).
  `Wire.LoadLE16IsHtonsOfBE16` and `Wire.LE16MatchesHtonsIff` prove that its
  comparisons decide the same thing as the model's.
  `Capture.WirePortMatchIff` does the same for the session-port table.
- Every header read in `Capture` goes through an accessor whose precondition
  is the bounds check. Because the module verifies, no read in the model
  passes the captured length.
- The adapter filter uses Windows values that are not in the repository's
  files. The software loopback interface type is 24, and the administrative
  and operational statuses become enumerations
  (`Platform.AdminStatus`, `Platform.OperStatus`).
- Calls into the operating system become inputs. This covers socket creation
  and binding, `sendto`/`recvfrom` results, adapter enumeration and interface
  entries. A send becomes a record of what would be sent (`Datagram`,
  `Send`), and its failure becomes a boolean.

## Where the code differs from the intended design

The model follows the code.

- mDNS, no recorded client: a local datagram that arrives before any remote
  client is recorded is not dropped. It is sent to the all-zero socket
  address, which is the zero-initialised "last client" (mdns.c:70, 111).
  See `MdnsRelay.LocalTrafficGoesToClient` and
  `MdnsRelay.ThreeDatagramScenario`.
- mDNS, source port: no source-port test exists. Every non-local sender is
  treated as the remote peer (`MdnsRelay.SourcePortIgnored`).
- mDNS, client update: the recorded client is replaced only when the sender's
  address differs. A new port from the same address is not recorded
  (`MdnsRelay.ClientChangesOnlyOnNewAddress`).
- mDNS, address family: the destination variable lives across loop passes. A
  local datagram copies the whole client address into it, family tag
  included. A remote datagram then rewrites only the address and port. So
  after a local datagram with no client recorded, the multicast destination
  carries family 0 (`MdnsRelay.ThreeDatagramScenario`).
- mDNS, sends to the all-zero endpoint: the send outcome is an input, and
  `MdnsRelay.ThreeDatagramScenario` takes every send to succeed. The first
  local datagram goes to family 0, 0.0.0.0:0. Winsock is expected to refuse
  that send (WSAEAFNOSUPPORT for the unsupported family); the model does not
  decide this and takes the outcome as an input. The code then ends the relay with -1
  (mdns.c:130-135), as `MdnsRelay.FailedSendToNoEndpointStops` shows. So a
  local datagram that arrives before any remote client is recorded would in
  practice stop the relay, and the family-0 multicast send would not occur.
- mDNS, empty datagrams: a zero-byte datagram makes `recvfrom` return 0. The
  loop treats that as a failure and ends with -1 (`MdnsRelay.RunLoop`).
- Capture, payload: the bounds checks use `>=`. A frame is processed only
  when at least one byte follows the UDP header, so zero-payload datagrams
  are dropped.
- Capture, IHL: the IHL is not required to be at least 5, so a UDP header
  can overlap the IPv4 header (`Capture.UdpOffset`).
- Capture, unchecked fields: no EtherType, IP version or protocol field is
  checked.
- Capture, payload length: it is the rest of the capture, not the UDP or
  IPv4 length field (`Capture.HandlePacketForwards`).

## Model

| member | source | states |
|---|---|---|
| `Wire.Htons` | ShieldProxy/udprelay.h:11 | the macro swaps the two bytes of a 16-bit value, and the result fits in 16 bits |
| `Wire.HtonsInvolution` | ShieldProxy/udprelay.h:11 | swapping twice gives the original value |
| `Wire.HtonsInjective` | ShieldProxy/udprelay.h:11 | distinct ports have distinct swapped images |
| `Wire.LoadLE16IsHtonsOfBE16` | ShieldProxy/pcap.c:23-28 | a host-order load of a packed `unsigned short` field is `HTONS` of the field's network value |
| `Wire.LE16MatchesHtonsIff` | ShieldProxy/pcap.c:82-89 | comparing the host-order load with `HTONS(c)` holds exactly when the network value is `c` |
| `Wire.LoadBE32Injective` | ShieldProxy/pcap.c:62-63 | two address fields compare equal exactly when their four wire bytes are equal |
| `UdpRelay.SessionPortsDistinct` | ShieldProxy/udprelay.h:6-11 | there are three session ports (47998, 47999, 48000), they are pairwise distinct, and so are their `HTONS` images in `UDP_PORTS` |
| `UdpRelay.LookupFrom` | ShieldProxy/udprelay.c:12-18 | the scan from index i returns the first binding whose session port matches, or none exactly when none matches |
| `UdpRelay.Lookup` | ShieldProxy/udprelay.c:7-19 | returns the first binding whose `dst_port` equals the argument, or none exactly when no binding matches |
| `UdpRelay.LookupSessionPort` | ShieldProxy/udprelay.c:7-19 | with the session ports in place, each session port finds its own binding and every other port finds none |
| `UdpRelay.Register` | ShieldProxy/udprelay.c:38-90 | every socket is reset, then each binding gets its session port as both ports and its socket. Status 0 holds exactly when every socket was set up. On the first failure the later bindings keep their old ports with no socket |
| `UdpRelay.RegisterLeavesAllUnlearned` | ShieldProxy/udprelay.c:50-54 | after a successful register every binding is unlearned, and forwarding sends nothing on any port |
| `UdpRelay.Reconfigure` | ShieldProxy/udprelay.c:93-110 | an unknown port leaves the context unchanged. Otherwise the matching binding learns the source port and keeps its socket. The change is announced only when the port is new. No session port changes, and no other binding changes |
| `UdpRelay.ReconfigurePreservesSessionPorts` | ShieldProxy/udprelay.c:105-109 | reconfigure keeps every binding's session port |
| `UdpRelay.ReconfigureIdempotent` | ShieldProxy/udprelay.c:105-109 | repeating the same reconfigure changes nothing and announces nothing |
| `UdpRelay.Forward` | ShieldProxy/udprelay.c:112-144 | nothing is sent when the port is unknown or its binding is unlearned. Otherwise exactly `data[0..length)` is sent from the binding's socket to the given address at the learned port, and a send failure is only reported |
| `UdpRelay.ForwardAfterReconfigure` | ShieldProxy/udprelay.c:93-139 | after `reconfigure(P, D)` with P ≠ D and D a session port, `forward(a, D, data, n)` sends `data[0..n)` to `a:P` |
| `UdpRelay.OpenSockets` | ShieldProxy/udprelay.c:26-33 | the loop closes every socket that is not -1 and nothing else: there are as many closes as open bindings, and an open binding's socket is closed at the position equal to the number of open bindings before it, so in binding order |
| `UdpRelay.Unregister` | ShieldProxy/udprelay.c:21-36 | every socket becomes invalid and every port is unchanged. The sockets closed are the open ones, each once, in binding order |
| `UdpRelay.UnregisterClosesRegistered` | ShieldProxy/udprelay.c:21-90 | after a successful register, unregister closes exactly the sockets register created, in binding order |
| `UdpRelay.UnregisterTwiceClosesNothing` | ShieldProxy/udprelay.c:21-36 | a second unregister closes nothing and changes nothing |
| `Capture.ReadIpv4` | ShieldProxy/pcap.c:57-63 | the version/IHL byte and the source and destination addresses are read from offsets 14, 26 and 30, and only when the frame is longer than 34 bytes |
| `Capture.UdpOffset` | ShieldProxy/pcap.c:69 | the UDP header starts 14 + 4·(IHL) bytes in, anywhere from 14 to 74 |
| `Capture.ReadUdp` | ShieldProxy/pcap.c:69-71 | the UDP ports are read only when the offset plus 8 is less than the captured length |
| `Capture.ScanPorts` | ShieldProxy/pcap.c:73-117 | the port loop from entry i, with its early returns, makes the loop-free decision: nothing unless the destination is one of the remaining session ports; then learn when the source port differs and the IPv4 source is foreign, forward the rest of the capture when the ports are equal and the IPv4 source is the interface, and nothing otherwise |
| `Capture.HandlePacket` | ShieldProxy/pcap.c:42-119 | the handler issues at most one call, and exactly the calls of the independent reference decision `Expected` |
| `Capture.HandlePacketAtMostOne` | ShieldProxy/pcap.c:73-86 | a frame causes at most one relay call. It causes one only if both headers lie inside the capture and the UDP destination is a session port |
| `Capture.HandlePacketDropsShortFrames` | ShieldProxy/pcap.c:57-71 | frames of at most 34 bytes, or with no byte after the UDP header, cause nothing |
| `Capture.HandlePacketIgnoresOtherHosts` | ShieldProxy/pcap.c:61-66 | a frame whose IPv4 source and destination both differ from the interface address causes nothing |
| `Capture.HandlePacketLearns` | ShieldProxy/pcap.c:88-99 | `reconfigure(src, dst)` is issued exactly when the destination is a session port, src ≠ dst, the IPv4 source is foreign and the IPv4 destination is the interface |
| `Capture.HandlePacketForwards` | ShieldProxy/pcap.c:100-116 | forward is issued exactly when the UDP source and destination are the same session port and the IPv4 source is the interface. It carries the IPv4 destination, that port, and the rest of the capture after the UDP header, at least one byte |
| `Capture.WirePortMatchIff` | ShieldProxy/pcap.c:82-89 | comparing the raw port fields with `UDP_PORTS[i]` decides the same as comparing their network values with session port i |
| `Capture.ApplyCall` | ShieldProxy/pcap.c:98-115 | a forward call leaves the relay unchanged, and a learn call sends nothing |
| `Capture.ApplyCalls` | ShieldProxy/pcap.c:73-117 | one outcome per call. Forward calls alone never change the relay |
| `Capture.CaptureStep` | ShieldProxy/pcap.c:88-116 | a frame yields one relay outcome per handler call, at most one. A frame that causes nothing changes nothing; a forward leaves the relay unchanged and sends what `Forward` sends; a learn changes the relay exactly as `Reconfigure` does and sends nothing |
| `Capture.ScenarioLearnFrameLearns` | ShieldProxy/pcap.c:88-99 | a device frame to the video port from port 51000 makes the relay learn 51000 |
| `Capture.ScenarioForwardFrameForwards` | ShieldProxy/pcap.c:100-116 | a host frame from and to the video port forwards its one-byte payload to the device address |
| `Capture.VideoSessionScenario` | ShieldProxy/pcap.c:88-116 | learning 51000, then forwarding "X", sends "X" to the device at port 51000 and leaves the relay as it was |
| `Capture.FirstInetAddress` | ShieldProxy/pcap.c:195-216 | the chosen address is the first non-zero IPv4 entry of the device's list, or 0 exactly when there is none |
| `Capture.QualifyInterface` | ShieldProxy/pcap.c:187-229 | an interface qualifies exactly when its link is Ethernet and its chosen address is non-zero and in the OS table. The returned address is the chosen one |
| `MdnsRelay.LocalIndex` | ShieldProxy/mdns.c:105-114 | the table scan stops at the first entry equal to the source address, and runs to the end exactly when there is none |
| `MdnsRelay.LocalIndexFindsMembers` | ShieldProxy/mdns.c:105-117 | the scan finds the source address exactly when it is in the table |
| `MdnsRelay.Step` | ShieldProxy/mdns.c:105-128 | a local sender's datagram goes to the recorded client and changes nothing else. A remote sender's goes to 224.0.0.251:5353, keeping the destination's family. The recorded client becomes the sender exactly when the addresses differ |
| `MdnsRelay.LocalTrafficGoesToClient` | ShieldProxy/mdns.c:105-114 | local traffic goes to the recorded client, which is the all-zero endpoint while none is recorded |
| `MdnsRelay.RemoteTrafficGoesToGroup` | ShieldProxy/mdns.c:117-120 | non-local traffic goes to 224.0.0.251:5353 |
| `MdnsRelay.ClientChangesOnlyOnNewAddress` | ShieldProxy/mdns.c:122-127 | the recorded client changes exactly when a non-local sender's address differs from the recorded one |
| `MdnsRelay.SourcePortIgnored` | ShieldProxy/mdns.c:105-128 | the sender's port influences neither the destination nor whether the client is replaced |
| `MdnsRelay.RepeatedSenderIsStable` | ShieldProxy/mdns.c:122-127 | a second datagram from the same sender changes nothing |
| `MdnsRelay.RunLoop` | ShieldProxy/mdns.c:94-136 | the loop only ever ends with -1. Without an end it sends once per datagram. Each send carries exactly the bytes received (1 to 1500 of them), every iteration before the last send went through, a failed last send ends the loop with -1, and an early end is a failed last send or a failed or empty receive right after it; it runs through every iteration exactly when none stops it |
| `MdnsRelay.RunFrom` | ShieldProxy/mdns.c:94-136 | the loop continued from any pass ends only with -1, keeps the sends already made, and sends once per datagram if it runs through; each new send carries exactly the bytes received (1 to 1500 of them) |
| `MdnsRelay.RunFromRunsThrough` | ShieldProxy/mdns.c:97-135 | the loop runs through every iteration exactly when none has a failed receive, an empty datagram or a failed send |
| `MdnsRelay.RunFromEarlierItersPass` | ShieldProxy/mdns.c:97-135 | every iteration before the one of the last send had a non-empty datagram and a successful send |
| `MdnsRelay.RunFromLastSendFails` | ShieldProxy/mdns.c:130-135 | a failed last send ends the loop with -1 |
| `MdnsRelay.RunFromEarlyExit` | ShieldProxy/mdns.c:97-135 | an early end is a failed last send, or a failed or empty receive right after the last send |
| `MdnsRelay.FollowsStepExtends` | ShieldProxy/mdns.c:105-130 | one more pass, sending to the destination of the next step, keeps the sends and the state in step with the per-datagram rule folded over the senders |
| `MdnsRelay.RunFromFollowsStep` | ShieldProxy/mdns.c:94-136 | the rest of the loop keeps the sends and the state in step with that fold |
| `MdnsRelay.RunLoopFollowsStep` | ShieldProxy/mdns.c:94-136 | the k-th send goes to the destination chosen by the k-th step of the per-datagram rule, folded over the senders in order, and the loop's state is the fold's state after the datagrams it sent |
| `MdnsRelay.RelayLoop` | ShieldProxy/mdns.c:67-139 | the function never returns anything but -1, and a failed table fetch ends it before any datagram |
| `MdnsRelay.FailedSendToNoEndpointStops` | ShieldProxy/mdns.c:105-135 | when a local datagram arrives before any client is recorded and its send to the all-zero endpoint fails, the loop ends with -1 after that one send |
| `MdnsRelay.ThreeDatagramScenario` | ShieldProxy/mdns.c:70-135 | table {10.0.0.5}. A local datagram goes to the all-zero endpoint. A datagram from 203.0.113.9:5353 goes to the multicast group and records that sender. The next local datagram goes to 203.0.113.9:5353 |
| `Platform.EligibleAddressesPrefix` | ShieldProxy/win_plat.c:170-204 | filtering a prefix of the adapter list gives a prefix of the filtered addresses |
| `Platform.EligibleAddressesMembers` | ShieldProxy/win_plat.c:174-203 | an address is in the table exactly when some adapter passes every skip test and has it as its first unicast address |
| `Platform.IfaceIpTable` | ShieldProxy/win_plat.c:169-208 | the table lists the surviving adapters' first unicast addresses in adapter order, cut at the capacity. It never holds more than the capacity, and the reported length is the number written |

## Left out

- Sockets and capture calls are foreign I/O: `socket`, `setsockopt`, `bind`,
  `sendto`, `recvfrom`, and the `pcap_*` open/compile/filter/loop calls. Their
  results are inputs and their effects are records.
- The bring-up control flow of `pcap_init` is resource handling: the cleanup
  paths, closing handles, the netmask taken from the first address
  (pcap.c:232), and starting threads.
- `init_mdns_socket` (mdns.c:5-65) is socket and multicast-membership setup.
  It passes `table_len` to `platform_iface_ip_table` uninitialised
  (mdns.c:11, 38), and that value becomes the loop's capacity at
  win_plat.c:171. The model's `Platform.IfaceIpTable` takes the capacity as
  an input.
- The rest of `platform_iface_ip_table` is left out. Its
  `GetAdaptersAddresses` size/retry loop (win_plat.c:120-159) is a foreign
  call, and it also leaks the previous buffer on every retry. The rest of
  win_plat.c is also left out: WinSock setup, critical-section wrappers, the
  thread stub and change notification are operating-system services.
- `Capture.QualifyInterface`: a device on which `pcap_open_live` fails
  (pcap.c:181-185) or whose relay registration fails (pcap.c:258-262) is also
  skipped. Both are foreign-call outcomes that come before or after the
  qualification, so the member states only when a device qualifies.
- Threading is left out. Each capture thread and the mDNS loop are modelled
  as single-threaded step functions, and the code shown has no locking.
- main.c only brings the components up and prints.
- Console messages are left out. Two are kept as booleans: the "new port"
  announcement of `udprelay_reconfigure`, and the send-failure report of
  `udprelay_forward` (udprelay.c:140-143), as `reportedFailure`.
- `UdpRelay.Register`: socket creation, address reuse and binding are folded
  into one input per binding. That input is a socket handle, or invalid when
  any of those calls failed. The interface address is not modelled.
- `UdpRelay.Forward`: the `sendto` result is a boolean. Only the fact that a
  failure is reported is modelled, not the error code.
- `MdnsRelay.RunLoop`: the loop never ends on its own. The model runs it over
  a finite sequence of receive and send outcomes, and reports where it stands
  when they run out.
- `MdnsRelay.RunLoop`: a datagram longer than the 1500-byte buffer is not
  modelled as a received datagram. Winsock fails such a `recvfrom` with
  WSAEMSGSIZE, so the `byte_count <= 0` check (mdns.c:99-103) ends the loop
  with -1; the model expresses that case as a failed receive, and every
  received datagram fits the buffer.
- `Capture.HandlePacket`: only `caplen`, the captured length, is used, as in
  the code. The original wire length `len` is not modelled.
