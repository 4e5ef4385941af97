/**
  The UDP port relay of one capture interface: three port bindings, one per
  streaming session port (video, control, audio). A binding remembers the fixed
  session port (`dstPort`, the port on the device side) and the source port the
  device was last seen using for that session (`srcPort`). A binding whose
  `srcPort` still equals its `dstPort` has not learned anything yet, and
  forwarding through it is suppressed.

  Ports here are port numbers (network values). The C code stores the same
  ports byte-swapped (`HTONS`), see module Wire.
*/
module UdpRelay {
  import opened Wire

  /** Number of session ports, one binding each. */
  const SessionPortCount: nat := 3
  const VideoPort: uint16 := 47998
  const ControlPort: uint16 := 47999
  const AudioPort: uint16 := 48000

  /** The session ports in binding order. */
  const SessionPorts: seq<uint16> := [VideoPort, ControlPort, AudioPort]

  /** The session ports as the C table `UDP_PORTS` holds them: byte-swapped,
      so that they compare equal to host-order loads of wire fields. */
  const WirePorts: seq<uint16> := [Htons(VideoPort), Htons(ControlPort), Htons(AudioPort)]

  /** A socket handle; `InvalidSocket` marks "no socket". */
  type Socket = int
  const InvalidSocket: Socket := -1

  datatype PortBinding = PortBinding(socket: Socket, dstPort: uint16, srcPort: uint16)
  {
    /** The device has been seen sending from a port other than the session port. */
    predicate Learned() { srcPort != dstPort }
  }

  type Bindings = s: seq<PortBinding> | |s| == 3
    witness [PortBinding(-1, 0, 0), PortBinding(-1, 0, 0), PortBinding(-1, 0, 0)]

  /** The per-interface relay state: exactly one binding per session port. */
  datatype AdapterContext = AdapterContext(ports: Bindings)

  /** A datagram handed to the socket layer for sending. */
  datatype Datagram = Datagram(socket: Socket, addr: uint32, port: uint16, payload: seq<uint8>)

  /** What a forward request does: nothing, or one send attempt, whose failure
      is only reported. */
  datatype ForwardOutcome = NotSent | Attempted(datagram: Datagram, reportedFailure: bool)

  lemma SessionPortsDistinct()
    ensures |SessionPorts| == SessionPortCount
    ensures forall i, j :: 0 <= i < j < |SessionPorts| ==> SessionPorts[i] != SessionPorts[j]
    ensures forall i, j :: 0 <= i < j < |WirePorts| ==> WirePorts[i] != WirePorts[j]
    ensures forall i :: 0 <= i < |WirePorts| ==> WirePorts[i] == Htons(SessionPorts[i])
  {
  }

  /** Index of the first binding at or after `i` whose session port is `dstPort`. */
  function LookupFrom(ports: seq<PortBinding>, dstPort: uint16, i: nat): (r: Option<nat>)
    requires i <= |ports|
    ensures r.Some? ==> i <= r.value < |ports| && ports[r.value].dstPort == dstPort
    ensures r.Some? ==> forall j :: i <= j < r.value ==> ports[j].dstPort != dstPort
    ensures r.None? <==> forall j :: i <= j < |ports| ==> ports[j].dstPort != dstPort
    decreases |ports| - i
  {
    if i == |ports| then None
    else if ports[i].dstPort == dstPort then Some(i)
    else LookupFrom(ports, dstPort, i + 1)
  }

  /** `udprelay_lookup_port_context_by_dst`: the first binding whose session
      port is `dstPort`, or none. */
  function Lookup(ctx: AdapterContext, dstPort: uint16): (r: Option<nat>)
    ensures r.Some? ==> r.value < SessionPortCount && ctx.ports[r.value].dstPort == dstPort
    ensures r.Some? ==> forall j :: 0 <= j < r.value ==> ctx.ports[j].dstPort != dstPort
    ensures r.None? <==> forall j :: 0 <= j < SessionPortCount ==> ctx.ports[j].dstPort != dstPort
  {
    LookupFrom(ctx.ports, dstPort, 0)
  }

  /** The bindings hold the session ports in order, whatever they have learned. */
  ghost predicate HasSessionPorts(ctx: AdapterContext)
  {
    forall i :: 0 <= i < SessionPortCount ==> ctx.ports[i].dstPort == SessionPorts[i]
  }

  /** With the session ports in place, a session port finds its own binding and
      any other port finds none. */
  lemma LookupSessionPort(ctx: AdapterContext, port: uint16)
    requires HasSessionPorts(ctx)
    ensures Lookup(ctx, port).Some? <==> port in SessionPorts
    ensures forall i :: 0 <= i < SessionPortCount && SessionPorts[i] == port ==> Lookup(ctx, port) == Some(i)
  {
    SessionPortsDistinct();
  }

  /** Index of the first socket that could not be set up, or `|created|`. */
  function FirstInvalid(created: seq<Socket>): (k: nat)
    ensures k <= |created|
    ensures forall j :: 0 <= j < k ==> created[j] != InvalidSocket
    ensures k < |created| ==> created[k] == InvalidSocket
  {
    if |created| == 0 then 0
    else if created[0] == InvalidSocket then 0
    else 1 + FirstInvalid(created[1..])
  }

  /**
    `udprelay_register`. `created[i]` is the socket the platform created,
    switched to address reuse and bound to session port i, or `InvalidSocket`
    when one of those calls failed (the source closes the socket in that case).
    Every socket is first reset to invalid; then each binding in turn gets its
    session port as both ports and its socket, and the first failure stops the
    setup with status -1.
  */
  method Register(prev: AdapterContext, created: seq<Socket>) returns (ctx: AdapterContext, status: int)
    requires |created| == SessionPortCount
    ensures status == 0 || status == -1
    ensures status == 0 <==> forall j :: 0 <= j < SessionPortCount ==> created[j] != InvalidSocket
    ensures var k := FirstInvalid(created);
      forall j :: 0 <= j < SessionPortCount ==>
        ctx.ports[j] == if j <= k then PortBinding(created[j], SessionPorts[j], SessionPorts[j])
                        else prev.ports[j].(socket := InvalidSocket)
  {
    var ports: Bindings := prev.ports;
    var i := 0;
    while i < SessionPortCount
      invariant 0 <= i <= SessionPortCount
      invariant forall j :: 0 <= j < i ==> ports[j] == prev.ports[j].(socket := InvalidSocket)
      invariant forall j :: i <= j < SessionPortCount ==> ports[j] == prev.ports[j]
    {
      ports := ports[i := ports[i].(socket := InvalidSocket)];
      i := i + 1;
    }
    i := 0;
    while i < SessionPortCount
      invariant 0 <= i <= SessionPortCount
      invariant i <= FirstInvalid(created)
      invariant forall j :: 0 <= j < i ==> ports[j] == PortBinding(created[j], SessionPorts[j], SessionPorts[j])
      invariant forall j :: i <= j < SessionPortCount ==> ports[j] == prev.ports[j].(socket := InvalidSocket)
    {
      ports := ports[i := PortBinding(created[i], SessionPorts[i], SessionPorts[i])];
      if created[i] == InvalidSocket {
        return AdapterContext(ports), -1;
      }
      i := i + 1;
    }
    return AdapterContext(ports), 0;
  }

  /**
    `udprelay_reconfigure`: the device was seen sending to session port
    `dstPort` from `srcPort`. The matching binding learns `srcPort`; the result
    also says whether the change was announced (only when the port is new).
  */
  function Reconfigure(ctx: AdapterContext, srcPort: uint16, dstPort: uint16): (r: (AdapterContext, bool))
    ensures Lookup(ctx, dstPort).None? ==> r == (ctx, false)
    ensures Lookup(ctx, dstPort).Some? ==>
      var i := Lookup(ctx, dstPort).value;
      && r.0.ports[i].srcPort == srcPort
      && r.0.ports[i].socket == ctx.ports[i].socket
      && (r.1 <==> ctx.ports[i].srcPort != srcPort)
    ensures forall j :: 0 <= j < SessionPortCount ==> r.0.ports[j].dstPort == ctx.ports[j].dstPort
    ensures forall j :: 0 <= j < SessionPortCount && Lookup(ctx, dstPort) != Some(j) ==> r.0.ports[j] == ctx.ports[j]
  {
    match Lookup(ctx, dstPort)
    case None => (ctx, false)
    case Some(i) =>
      if ctx.ports[i].srcPort != srcPort then
        (AdapterContext(ctx.ports[i := ctx.ports[i].(srcPort := srcPort)]), true)
      else (ctx, false)
  }

  /**
    `udprelay_forward`: payload bytes the host sent to the device on session
    port `dstPort` are re-sent, from that binding's socket, to the port the
    device last used as its source for the session. `sendFails` is the
    outcome of the platform's send call, which is only reported.
  */
  function Forward(ctx: AdapterContext, dstAddr: uint32, dstPort: uint16, data: seq<uint8>,
                   length: nat, sendFails: bool): (r: ForwardOutcome)
    requires length <= |data|
    ensures r.NotSent? <==> Lookup(ctx, dstPort).None? || !ctx.ports[Lookup(ctx, dstPort).value].Learned()
    ensures r.Attempted? ==>
      var b := ctx.ports[Lookup(ctx, dstPort).value];
      && b.dstPort == dstPort && b.srcPort != dstPort
      && r.datagram == Datagram(b.socket, dstAddr, b.srcPort, data[..length])
      && r.reportedFailure == sendFails
  {
    match Lookup(ctx, dstPort)
    case None => NotSent
    case Some(i) =>
      var b := ctx.ports[i];
      if b.srcPort == b.dstPort then NotSent
      else Attempted(Datagram(b.socket, dstAddr, b.srcPort, data[..length]), sendFails)
  }

  /** The number of bindings in `ports[i..j]` that hold a socket. */
  function CountOpen(ports: seq<PortBinding>, i: nat, j: nat): nat
    requires i <= j <= |ports|
    decreases j - i
  {
    if i == j then 0
    else (if ports[i].socket != InvalidSocket then 1 else 0) + CountOpen(ports, i + 1, j)
  }

  /** The loop of `udprelay_unregister` from binding `i` on: the sockets it
      closes, in the order it closes them. Each open binding's socket sits at
      the position given by the number of open bindings before it, and there
      are as many entries as open bindings, so every open socket is closed once,
      in binding order, and nothing else is. */
  function OpenSockets(ports: seq<PortBinding>, i: nat): (s: seq<Socket>)
    requires i <= |ports|
    ensures |s| == CountOpen(ports, i, |ports|)
    ensures forall j :: i <= j < |ports| && ports[j].socket != InvalidSocket ==>
      CountOpen(ports, i, j) < |s| && s[CountOpen(ports, i, j)] == ports[j].socket
    ensures forall k :: 0 <= k < |s| ==> s[k] != InvalidSocket
    decreases |ports| - i
  {
    if i == |ports| then []
    else if ports[i].socket != InvalidSocket then [ports[i].socket] + OpenSockets(ports, i + 1)
    else OpenSockets(ports, i + 1)
  }

  /**
    `udprelay_unregister`: every open socket is closed and replaced by
    `InvalidSocket`. The result pairs the new context with the sockets closed,
    in binding order. The ports are left as they were.
  */
  function Unregister(ctx: AdapterContext): (r: (AdapterContext, seq<Socket>))
    ensures forall j :: 0 <= j < SessionPortCount ==>
      r.0.ports[j] == ctx.ports[j].(socket := InvalidSocket)
    ensures |r.1| == CountOpen(ctx.ports, 0, SessionPortCount)
    ensures forall j :: 0 <= j < SessionPortCount && ctx.ports[j].socket != InvalidSocket ==>
      CountOpen(ctx.ports, 0, j) < |r.1| && r.1[CountOpen(ctx.ports, 0, j)] == ctx.ports[j].socket
    ensures forall k :: 0 <= k < |r.1| ==> r.1[k] != InvalidSocket
  {
    var ports: Bindings := seq(SessionPortCount, j requires 0 <= j < SessionPortCount =>
      ctx.ports[j].(socket := InvalidSocket));
    (AdapterContext(ports), OpenSockets(ctx.ports, 0))
  }

  // ---------------------------------------------------------------------------
  // Properties relating several calls
  // ---------------------------------------------------------------------------

  /** A freshly registered context has every binding unlearned. */
  lemma RegisterLeavesAllUnlearned(prev: AdapterContext, created: seq<Socket>, ctx: AdapterContext)
    requires |created| == SessionPortCount
    requires forall j :: 0 <= j < SessionPortCount ==> created[j] != InvalidSocket
    requires forall j :: 0 <= j < SessionPortCount ==> ctx.ports[j] == PortBinding(created[j], SessionPorts[j], SessionPorts[j])
    ensures HasSessionPorts(ctx)
    ensures forall j :: 0 <= j < SessionPortCount ==> !ctx.ports[j].Learned()
    ensures forall port, data: seq<uint8>, addr, fails :: Forward(ctx, addr, port, data, |data|, fails) == NotSent
  {
    forall port, data: seq<uint8>, addr, fails
      ensures Forward(ctx, addr, port, data, |data|, fails) == NotSent
    {
      LookupSessionPort(ctx, port);
    }
  }

  /** Reconfigure keeps the session ports in place. */
  lemma ReconfigurePreservesSessionPorts(ctx: AdapterContext, srcPort: uint16, dstPort: uint16)
    requires HasSessionPorts(ctx)
    ensures HasSessionPorts(Reconfigure(ctx, srcPort, dstPort).0)
  {
  }

  /** Repeating the same reconfigure changes nothing and announces nothing. */
  lemma ReconfigureIdempotent(ctx: AdapterContext, srcPort: uint16, dstPort: uint16)
    ensures var (ctx1, _) := Reconfigure(ctx, srcPort, dstPort);
      Reconfigure(ctx1, srcPort, dstPort) == (ctx1, false)
  {
    var (ctx1, _) := Reconfigure(ctx, srcPort, dstPort);
    assert forall j :: 0 <= j < SessionPortCount ==> ctx1.ports[j].dstPort == ctx.ports[j].dstPort;
    assert Lookup(ctx1, dstPort) == Lookup(ctx, dstPort);
  }

  /** After the device is seen on source port P for session port D, forwarding
      for D sends the payload verbatim to P. */
  lemma ForwardAfterReconfigure(ctx: AdapterContext, p: uint16, d: uint16, addr: uint32,
                                data: seq<uint8>, n: nat, fails: bool)
    requires HasSessionPorts(ctx)
    requires d in SessionPorts && p != d
    requires n <= |data|
    ensures var ctx1 := Reconfigure(ctx, p, d).0;
      exists i :: 0 <= i < SessionPortCount && SessionPorts[i] == d &&
        Forward(ctx1, addr, d, data, n, fails) == Attempted(Datagram(ctx.ports[i].socket, addr, p, data[..n]), fails)
  {
    var ctx1 := Reconfigure(ctx, p, d).0;
    LookupSessionPort(ctx, d);
    ReconfigurePreservesSessionPorts(ctx, p, d);
    LookupSessionPort(ctx1, d);
    var i := Lookup(ctx, d).value;
    assert SessionPorts[i] == d;
  }

  /** After a successful register, unregister closes exactly the sockets the
      register created, in binding order. */
  lemma UnregisterClosesRegistered(created: seq<Socket>, ctx: AdapterContext)
    requires |created| == SessionPortCount
    requires forall j :: 0 <= j < SessionPortCount ==> created[j] != InvalidSocket
    requires forall j :: 0 <= j < SessionPortCount ==> ctx.ports[j] == PortBinding(created[j], SessionPorts[j], SessionPorts[j])
    ensures Unregister(ctx).1 == created
  {
    var p := ctx.ports;
    assert OpenSockets(p, 2) == [created[2]] + OpenSockets(p, 3);
    assert OpenSockets(p, 1) == [created[1]] + OpenSockets(p, 2);
    assert OpenSockets(p, 0) == [created[0]] + OpenSockets(p, 1);
  }

  /** A second unregister closes nothing and leaves the context as it is. */
  lemma UnregisterTwiceClosesNothing(ctx: AdapterContext)
    ensures var ctx1 := Unregister(ctx).0;
      Unregister(ctx1) == (ctx1, [])
  {
    var ctx1 := Unregister(ctx).0;
    assert ctx1.ports == Unregister(ctx1).0.ports;
  }
}
