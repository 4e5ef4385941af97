/**
  The per-interface packet handler: it reads a captured Ethernet frame holding
  an IPv4 UDP datagram (per section 3.1 of RFC 791 and RFC 768) and decides
  whether the port relay must learn a source port or forward a payload.

  The frame is the `caplen` bytes the capture delivered, so `|frame|` plays the
  part of `caplen`. Every header read goes through an accessor whose
  precondition is the bounds check, so verifying this module shows that no
  read passes the captured length.

  Also here: the rule deciding which capture interfaces take part (an Ethernet
  link with a usable IPv4 address the operating system also reports), and one
  capture step that feeds the handler's decision to the port relay.
*/
module Capture {
  import opened Wire
  import opened UdpRelay

  const EthernetHeaderSize: nat := 14
  /** `sizeof(struct ipv4_header)`: an option-less IPv4 header. */
  const Ipv4HeaderSize: nat := 20
  const UdpHeaderSize: nat := 8

  /** The fields the handler reads from the IPv4 header. */
  datatype Ipv4View = Ipv4View(verIhl: uint8, srcAddr: uint32, dstAddr: uint32)

  /** The fields the handler reads from the UDP header. */
  datatype UdpView = UdpView(srcPort: uint16, dstPort: uint16)

  /** A request the handler makes of the port relay. */
  datatype RelayCall =
    | LearnPort(srcPort: uint16, dstPort: uint16)
    | ForwardPayload(dstAddr: uint32, dstPort: uint16, data: seq<uint8>, length: nat)

  /** The IPv4 header fits in front of the frame's end: the handler's first check. */
  predicate Ipv4Fits(frame: seq<uint8>)
  {
    EthernetHeaderSize + Ipv4HeaderSize < |frame|
  }

  function ReadIpv4(frame: seq<uint8>): (ip: Ipv4View)
    requires Ipv4Fits(frame)
    ensures ip.verIhl == frame[EthernetHeaderSize]
    ensures ip.srcAddr == LoadBE32(frame, EthernetHeaderSize + 12)
    ensures ip.dstAddr == LoadBE32(frame, EthernetHeaderSize + 16)
  {
    Ipv4View(frame[EthernetHeaderSize], LoadBE32(frame, EthernetHeaderSize + 12),
             LoadBE32(frame, EthernetHeaderSize + 16))
  }

  /** Where the UDP header starts: after the Ethernet header and as many 32-bit
      words as the low nibble of the version/IHL byte says. Nothing requires the
      IHL to be at least 5, so the UDP header may overlap the IPv4 header. */
  function UdpOffset(verIhl: uint8): (off: nat)
    ensures EthernetHeaderSize <= off <= EthernetHeaderSize + 60
    ensures (off - EthernetHeaderSize) % 4 == 0
  {
    EthernetHeaderSize + (verIhl % 16) * 4
  }

  function ReadUdp(frame: seq<uint8>, off: nat): (udp: UdpView)
    requires off + UdpHeaderSize < |frame|
    ensures udp.srcPort == LoadBE16(frame, off) && udp.dstPort == LoadBE16(frame, off + 2)
  {
    UdpView(LoadBE16(frame, off), LoadBE16(frame, off + 2))
  }

  /**
    The loop over the session ports, from port `i` on. A port the datagram is
    not addressed to is skipped. Addressed to it from another source port, the
    datagram must come from elsewhere and the relay learns the source port;
    from the session port itself, it must come from this interface and its
    payload (the rest of the capture) is forwarded. A datagram that fails its
    check ends the scan.
  */
  function ScanPorts(frame: seq<uint8>, ifaceAddr: uint32, ip: Ipv4View, off: nat, udp: UdpView, i: nat)
    : (calls: seq<RelayCall>)
    requires off + UdpHeaderSize < |frame|
    requires i <= SessionPortCount
    ensures calls ==
      if udp.dstPort !in SessionPorts[i..] then []
      else if udp.srcPort != udp.dstPort then
        (if ip.srcAddr == ifaceAddr then [] else [LearnPort(udp.srcPort, udp.dstPort)])
      else if ip.srcAddr != ifaceAddr then []
      else [ForwardPayload(ip.dstAddr, udp.dstPort, frame[off + UdpHeaderSize..], |frame| - (off + UdpHeaderSize))]
    decreases SessionPortCount - i
  {
    SessionPortsDistinct();
    if i == SessionPortCount then []
    else if udp.dstPort != SessionPorts[i] then ScanPorts(frame, ifaceAddr, ip, off, udp, i + 1)
    else if udp.srcPort != SessionPorts[i] then
      if ip.srcAddr == ifaceAddr then []
      else [LearnPort(udp.srcPort, udp.dstPort)] + ScanPorts(frame, ifaceAddr, ip, off, udp, i + 1)
    else
      if ip.srcAddr != ifaceAddr then []
      else
        var dataOff := off + UdpHeaderSize;
        [ForwardPayload(ip.dstAddr, udp.dstPort, frame[dataOff..], |frame| - dataOff)]
          + ScanPorts(frame, ifaceAddr, ip, off, udp, i + 1)
  }

  /** `packet_handler`: the relay calls one captured frame gives rise to. */
  function HandlePacket(frame: seq<uint8>, ifaceAddr: uint32): (calls: seq<RelayCall>)
    ensures |calls| <= 1
    ensures calls == Expected(frame, ifaceAddr)
  {
    if !Ipv4Fits(frame) then []
    else
      var ip := ReadIpv4(frame);
      if ip.srcAddr != ifaceAddr && ip.dstAddr != ifaceAddr then []
      else
        var off := UdpOffset(ip.verIhl);
        if off + UdpHeaderSize >= |frame| then []
        else ScanPorts(frame, ifaceAddr, ip, off, ReadUdp(frame, off), 0)
  }

  // ---------------------------------------------------------------------------
  // A reference decision, stated without the loop
  // ---------------------------------------------------------------------------

  /** The frame has both headers inside the capture and a payload of at least one byte. */
  predicate HeadersFit(frame: seq<uint8>)
  {
    Ipv4Fits(frame) && UdpOffset(frame[EthernetHeaderSize]) + UdpHeaderSize < |frame|
  }

  /** What a frame should cause: learning when the device sends to a session
      port from elsewhere; forwarding when this host sends from and to the
      session port; nothing otherwise. */
  function Expected(frame: seq<uint8>, ifaceAddr: uint32): (calls: seq<RelayCall>)
  {
    if !HeadersFit(frame) then []
    else
      var ip := ReadIpv4(frame);
      var off := UdpOffset(ip.verIhl);
      var udp := ReadUdp(frame, off);
      if udp.dstPort !in SessionPorts then []
      else if udp.srcPort != udp.dstPort && ip.srcAddr != ifaceAddr && ip.dstAddr == ifaceAddr then
        [LearnPort(udp.srcPort, udp.dstPort)]
      else if udp.srcPort == udp.dstPort && ip.srcAddr == ifaceAddr then
        [ForwardPayload(ip.dstAddr, udp.dstPort, frame[off + UdpHeaderSize..], |frame| - (off + UdpHeaderSize))]
      else []
  }

  // ---------------------------------------------------------------------------
  // Consequences
  // ---------------------------------------------------------------------------

  /** A frame causes at most one relay call, and only when both headers lie
      inside the capture and the UDP destination is a session port. */
  lemma HandlePacketAtMostOne(frame: seq<uint8>, ifaceAddr: uint32)
    ensures |HandlePacket(frame, ifaceAddr)| <= 1
    ensures HandlePacket(frame, ifaceAddr) != [] ==>
      && |frame| > EthernetHeaderSize + Ipv4HeaderSize
      && |frame| > UdpOffset(frame[EthernetHeaderSize]) + UdpHeaderSize
      && ReadUdp(frame, UdpOffset(frame[EthernetHeaderSize])).dstPort in SessionPorts
  {
  }

  /** Frames too short for the IPv4 header, or for the UDP header where the IHL
      puts it, cause nothing; so do zero-payload datagrams. */
  lemma HandlePacketDropsShortFrames(frame: seq<uint8>, ifaceAddr: uint32)
    requires |frame| <= EthernetHeaderSize + Ipv4HeaderSize
          || |frame| <= UdpOffset(frame[EthernetHeaderSize]) + UdpHeaderSize
    ensures HandlePacket(frame, ifaceAddr) == []
  {
  }

  /** Frames neither from nor to this interface cause nothing. */
  lemma HandlePacketIgnoresOtherHosts(frame: seq<uint8>, ifaceAddr: uint32)
    requires Ipv4Fits(frame)
    requires ReadIpv4(frame).srcAddr != ifaceAddr && ReadIpv4(frame).dstAddr != ifaceAddr
    ensures HandlePacket(frame, ifaceAddr) == []
  {
  }

  /** Learning happens exactly for a device datagram: sent to this interface
      from elsewhere, to a session port, from a different source port. */
  lemma HandlePacketLearns(frame: seq<uint8>, ifaceAddr: uint32, src: uint16, dst: uint16)
    ensures HandlePacket(frame, ifaceAddr) == [LearnPort(src, dst)] <==>
      && HeadersFit(frame)
      && var ip := ReadIpv4(frame);
         var udp := ReadUdp(frame, UdpOffset(ip.verIhl));
         && udp == UdpView(src, dst)
         && dst in SessionPorts && src != dst
         && ip.srcAddr != ifaceAddr && ip.dstAddr == ifaceAddr
  {
  }

  /** Forwarding happens exactly for a host datagram: sent from this
      interface, from and to the same session port. The payload is the rest
      of the capture after the UDP header; neither the IPv4 nor the UDP length
      field is consulted. */
  lemma HandlePacketForwards(frame: seq<uint8>, ifaceAddr: uint32, call: RelayCall)
    requires call.ForwardPayload?
    ensures HandlePacket(frame, ifaceAddr) == [call] <==>
      && HeadersFit(frame)
      && var ip := ReadIpv4(frame);
         var off := UdpOffset(ip.verIhl);
         var udp := ReadUdp(frame, off);
         && udp.dstPort in SessionPorts && udp.srcPort == udp.dstPort
         && ip.srcAddr == ifaceAddr
         && call == ForwardPayload(ip.dstAddr, udp.dstPort, frame[off + UdpHeaderSize..],
                                   |frame| - (off + UdpHeaderSize))
         && call.length == |call.data| > 0
  {
  }

  /** The C code compares host-order loads of the port fields with the
      byte-swapped table `UDP_PORTS`; that decides the same matches as the
      network values against the session ports. */
  lemma WirePortMatchIff(frame: seq<uint8>, off: nat, i: nat)
    requires off + UdpHeaderSize < |frame| && i < SessionPortCount
    ensures LoadLE16(frame, off + 2) == WirePorts[i] <==> ReadUdp(frame, off).dstPort == SessionPorts[i]
    ensures LoadLE16(frame, off) == WirePorts[i] <==> ReadUdp(frame, off).srcPort == SessionPorts[i]
  {
    SessionPortsDistinct();
    LE16MatchesHtonsIff(frame, off + 2, SessionPorts[i]);
    LE16MatchesHtonsIff(frame, off, SessionPorts[i]);
  }

  // ---------------------------------------------------------------------------
  // One capture step: the handler's calls applied to the port relay
  // ---------------------------------------------------------------------------

  /** The port relay's response to one call. `sendFails` is the outcome of
      the send, if one is made. */
  function ApplyCall(ctx: AdapterContext, call: RelayCall, sendFails: bool)
    : (r: (AdapterContext, ForwardOutcome))
    ensures call.ForwardPayload? ==> r.0 == ctx
    ensures call.LearnPort? ==> r.1 == NotSent
  {
    match call
    case LearnPort(s, d) => (Reconfigure(ctx, s, d).0, NotSent)
    case ForwardPayload(a, d, data, n) =>
      (ctx, if n <= |data| then Forward(ctx, a, d, data, n, sendFails) else NotSent)
  }

  /** Applies relay calls in order. */
  function ApplyCalls(ctx: AdapterContext, calls: seq<RelayCall>, sendFails: bool)
    : (r: (AdapterContext, seq<ForwardOutcome>))
    ensures |r.1| == |calls|
    ensures (forall k :: 0 <= k < |calls| ==> calls[k].ForwardPayload?) ==> r.0 == ctx
    decreases |calls|
  {
    if calls == [] then (ctx, [])
    else
      var first := ApplyCall(ctx, calls[0], sendFails);
      var rest := ApplyCalls(first.0, calls[1..], sendFails);
      (rest.0, [first.1] + rest.1)
  }

  /** One captured frame on an interface: the relay calls it causes, applied. */
  function CaptureStep(ctx: AdapterContext, ifaceAddr: uint32, frame: seq<uint8>, sendFails: bool)
    : (r: (AdapterContext, seq<ForwardOutcome>))
    ensures |r.1| == |HandlePacket(frame, ifaceAddr)| <= 1
    ensures HandlePacket(frame, ifaceAddr) == [] ==> r == (ctx, [])
    ensures forall d, p, data, n :: HandlePacket(frame, ifaceAddr) == [ForwardPayload(d, p, data, n)] ==>
      r == (ctx, [Forward(ctx, d, p, data, n, sendFails)])
    ensures forall sp, dp :: HandlePacket(frame, ifaceAddr) == [LearnPort(sp, dp)] ==>
      r == (Reconfigure(ctx, sp, dp).0, [NotSent])
  {
    var calls := HandlePacket(frame, ifaceAddr);
    if calls == [] then ApplyCalls(ctx, calls, sendFails)
    else
      var first := ApplyCall(ctx, calls[0], sendFails);
      assert calls[1..] == [];
      assert ApplyCalls(first.0, calls[1..], sendFails) == (first.0, []);
      assert [first.1] + [] == [first.1];
      assert ApplyCalls(ctx, calls, sendFails) == (first.0, [first.1]);
      ApplyCalls(ctx, calls, sendFails)
  }

  /** 10.0.0.5, this interface's address in the scenario below. */
  const ScenarioIface: uint32 := 0x0A000005
  /** 198.51.100.2, the device's address in the scenario below. */
  const ScenarioDevice: uint32 := 0xC6336402

  /** The device sends one byte to the video port (0xBB7E) from port 51000 (0xC738). */
  const ScenarioLearnFrame: seq<uint8> :=
    [0, 0, 0, 0, 0, 0, 0, 0, 0, 0, 0, 0, 8, 0,
     0x45, 0, 0, 29, 0, 0, 0, 0, 64, 17, 0, 0, 198, 51, 100, 2, 10, 0, 0, 5,
     0xC7, 0x38, 0xBB, 0x7E, 0, 9, 0, 0,
     7]

  /** This host sends "X" from and to the video port. */
  const ScenarioForwardFrame: seq<uint8> :=
    [0, 0, 0, 0, 0, 0, 0, 0, 0, 0, 0, 0, 8, 0,
     0x45, 0, 0, 29, 0, 0, 0, 0, 64, 17, 0, 0, 10, 0, 0, 5, 198, 51, 100, 2,
     0xBB, 0x7E, 0xBB, 0x7E, 0, 9, 0, 0,
     'X' as int]

  lemma ScenarioLearnFrameLearns()
    ensures HandlePacket(ScenarioLearnFrame, ScenarioIface) == [LearnPort(51000, VideoPort)]
  {
    var f := ScenarioLearnFrame;
    assert |f| == 43 && f[14] == 0x45;
    assert LoadBE32(f, 26) == ScenarioDevice;
    assert LoadBE32(f, 30) == ScenarioIface;
    assert UdpOffset(0x45) == 34;
    assert LoadBE16(f, 34) == 51000;
    assert LoadBE16(f, 36) == VideoPort;
    var ip := ReadIpv4(f);
    assert ip == Ipv4View(0x45, ScenarioDevice, ScenarioIface);
    var udp := ReadUdp(f, 34);
    assert udp == UdpView(51000, VideoPort);
    assert VideoPort in SessionPorts[0..];
    assert HandlePacket(f, ScenarioIface) == ScanPorts(f, ScenarioIface, ip, 34, udp, 0);
  }

  lemma ScenarioForwardFrameForwards()
    ensures HandlePacket(ScenarioForwardFrame, ScenarioIface)
         == [ForwardPayload(ScenarioDevice, VideoPort, ['X' as int], 1)]
  {
    var f := ScenarioForwardFrame;
    assert |f| == 43 && f[14] == 0x45;
    assert f[42..] == ['X' as int];
    assert LoadBE32(f, 26) == ScenarioIface;
    assert LoadBE32(f, 30) == ScenarioDevice;
    assert UdpOffset(0x45) == 34;
    assert LoadBE16(f, 34) == VideoPort;
    assert LoadBE16(f, 36) == VideoPort;
    var ip := ReadIpv4(f);
    assert ip == Ipv4View(0x45, ScenarioIface, ScenarioDevice);
    var udp := ReadUdp(f, 34);
    assert udp == UdpView(VideoPort, VideoPort);
    assert VideoPort in SessionPorts[0..];
    assert HandlePacket(f, ScenarioIface) == ScanPorts(f, ScenarioIface, ip, 34, udp, 0);
  }

  /**
    A device on a foreign address sends to the video port from port 51000:
    the video binding learns 51000. Then this host sends "X" from and to the
    video port: the payload goes to the device's address, at port 51000, and
    the relay state stays as it was.
  */
  lemma VideoSessionScenario(ctx: AdapterContext)
    requires HasSessionPorts(ctx)
    requires forall j :: 0 <= j < SessionPortCount ==> !ctx.ports[j].Learned()
    ensures
      var (ctx1, out1) := CaptureStep(ctx, ScenarioIface, ScenarioLearnFrame, false);
      var (ctx2, out2) := CaptureStep(ctx1, ScenarioIface, ScenarioForwardFrame, false);
      && out1 == [NotSent]
      && ctx1.ports[0].srcPort == 51000
      && out2 == [Attempted(Datagram(ctx.ports[0].socket, ScenarioDevice, 51000, ['X' as int]), false)]
      && ctx2 == ctx1
  {
    ScenarioLearnFrameLearns();
    ScenarioForwardFrameForwards();
    var ctx1 := Reconfigure(ctx, 51000, VideoPort).0;
    ForwardAfterReconfigure(ctx, 51000, VideoPort, ScenarioDevice, ['X' as int], 1, false);
    SessionPortsDistinct();
    LookupSessionPort(ctx, VideoPort);
    assert Lookup(ctx, VideoPort) == Some(0);
    var sent := Attempted(Datagram(ctx.ports[0].socket, ScenarioDevice, 51000, ['X' as int]), false);
    assert CaptureStep(ctx, ScenarioIface, ScenarioLearnFrame, false) == (ctx1, [NotSent]);
    assert ctx1.ports[0].srcPort == 51000;
    assert Forward(ctx1, ScenarioDevice, VideoPort, ['X' as int], 1, false) == sent;
    assert CaptureStep(ctx1, ScenarioIface, ScenarioForwardFrame, false) == (ctx1, [sent]);
  }

  // ---------------------------------------------------------------------------
  // Which interfaces are captured on
  // ---------------------------------------------------------------------------

  datatype AddressFamily = Inet | OtherFamily

  /** One entry of a capture device's address list (`pcap_addr_t`). */
  datatype DeviceAddress = DeviceAddress(family: AddressFamily, addr: uint32)

  /** The first IPv4 address in the list that is not 0.0.0.0, or 0 when there is none. */
  function FirstInetAddress(addrs: seq<DeviceAddress>): (a: uint32)
    ensures a != 0 ==> exists k :: 0 <= k < |addrs| && addrs[k] == DeviceAddress(Inet, a)
                        && forall j :: 0 <= j < k ==> addrs[j].family != Inet || addrs[j].addr == 0
    ensures a == 0 <==> forall j :: 0 <= j < |addrs| ==> addrs[j].family != Inet || addrs[j].addr == 0
  {
    if |addrs| == 0 then 0
    else if addrs[0].family == Inet && addrs[0].addr != 0 then addrs[0].addr
    else
      var a := FirstInetAddress(addrs[1..]);
      assert forall j :: 1 <= j < |addrs| ==> addrs[j] == addrs[1..][j - 1];
      if a != 0 then
        var k :| 0 <= k < |addrs[1..]| && addrs[1..][k] == DeviceAddress(Inet, a)
                 && forall j :: 0 <= j < k ==> addrs[1..][j].family != Inet || addrs[1..][j].addr == 0;
        assert addrs[k + 1] == DeviceAddress(Inet, a);
        a
      else a
  }

  /**
    The interface qualification inside `pcap_init`: a device qualifies for
    capture only if its link is Ethernet and the address chosen from its list (every
    IPv4 entry overwrites the choice until one is non-zero) is non-zero and
    appears in the operating system's table of usable addresses. Returns the
    chosen address of a qualifying interface.
  */
  method QualifyInterface(isEthernet: bool, addrs: seq<DeviceAddress>, osTable: seq<uint32>)
    returns (r: Option<uint32>)
    ensures r.Some? <==> isEthernet && FirstInetAddress(addrs) != 0 && FirstInetAddress(addrs) in osTable
    ensures r.Some? ==> r.value == FirstInetAddress(addrs)
  {
    if !isEthernet {
      return None;
    }
    var chosen: uint32 := 0;
    var k := 0;
    while k < |addrs|
      invariant 0 <= k <= |addrs|
      invariant chosen == 0
      invariant FirstInetAddress(addrs) == FirstInetAddress(addrs[k..])
    {
      if addrs[k].family == Inet {
        chosen := addrs[k].addr;
        if chosen != 0 {
          break;
        }
      }
      assert addrs[k..][1..] == addrs[k + 1..];
      k := k + 1;
    }
    if chosen == 0 {
      return None;
    }
    var j := 0;
    while j < |osTable|
      invariant 0 <= j <= |osTable|
      invariant chosen !in osTable[..j]
    {
      if chosen == osTable[j] {
        break;
      }
      j := j + 1;
    }
    if j == |osTable| {
      assert osTable[..j] == osTable;
      return None;
    }
    return Some(chosen);
  }
}
