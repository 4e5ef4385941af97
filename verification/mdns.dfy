/**
  The mDNS relay loop. Each received datagram is classified by its source
  address against a table of local interface addresses taken once before the
  loop starts: a datagram from a local address goes to the recorded remote
  client; any other datagram goes to the mDNS multicast group, and its sender
  becomes the recorded client when its address differs from the recorded one.

  The loop keeps two endpoints from one datagram to the next: the recorded
  client and the destination endpoint itself. Both are modelled, because a
  local datagram overwrites the whole destination (address family included)
  while a remote one rewrites only its address and port.
*/
module MdnsRelay {
  import opened Wire

  const MdnsPort: uint16 := 5353
  /** 224.0.0.251 */
  const MdnsAddr: uint32 := 0xE00000FB
  /** Size of the receive buffer. */
  const MdnsMtu: nat := 1500
  /** Address family tag of an IPv4 socket address. */
  const AfInet: uint16 := 2

  /** An IPv4 socket address: family tag, address, port. */
  datatype Endpoint = Endpoint(family: uint16, addr: uint32, port: uint16)

  /** The zero-initialised socket address, used as "no client recorded". */
  const NoEndpoint: Endpoint := Endpoint(0, 0, 0)

  /** The multicast destination the loop starts with. */
  const MulticastEndpoint: Endpoint := Endpoint(AfInet, MdnsAddr, MdnsPort)

  /** What the loop carries from one datagram to the next. */
  datatype RelayState = RelayState(dst: Endpoint, client: Endpoint)

  const InitialState: RelayState := RelayState(MulticastEndpoint, NoEndpoint)

  /** The scan over the local address table from index `i`: the index of the
      first entry equal to `addr`, or `|table|` when there is none. */
  function LocalIndex(table: seq<uint32>, addr: uint32, i: nat): (k: nat)
    requires i <= |table|
    ensures i <= k <= |table|
    ensures k < |table| ==> table[k] == addr
    ensures forall j :: i <= j < k ==> table[j] != addr
    ensures k == |table| <==> addr !in table[i..]
    decreases |table| - i
  {
    if i == |table| then |table|
    else if table[i] == addr then i
    else LocalIndex(table, addr, i + 1)
  }

  /** The decision and state update for one datagram received from `src`. */
  function Step(table: seq<uint32>, s: RelayState, src: Endpoint): (r: RelayState)
    ensures src.addr in table ==> r == RelayState(s.client, s.client)
    ensures src.addr !in table ==> r.dst == s.dst.(addr := MdnsAddr, port := MdnsPort)
    ensures src.addr !in table && src.addr != s.client.addr ==> r.client == src
    ensures src.addr !in table && src.addr == s.client.addr ==> r.client == s.client
  {
    if LocalIndex(table, src.addr, 0) < |table| then
      s.(dst := s.client)
    else
      var dst := s.dst.(addr := MdnsAddr, port := MdnsPort);
      if s.client.addr != src.addr then RelayState(dst, src)
      else RelayState(dst, s.client)
  }

  /** The outcome of one receive call: a failure, or a datagram and its sender.
      A datagram of no bytes is what a zero `byte_count` stands for. */
  datatype Receive = RecvFailed | Received(src: Endpoint, payload: seq<uint8>)

  /** One pass of the loop as the platform plays it: what the receive call
      returned and whether the following send succeeded. */
  datatype Iteration = Iteration(recv: Receive, sendOk: bool)

  /** A datagram handed to the socket layer. */
  datatype Send = Send(dst: Endpoint, payload: seq<uint8>)

  /** Where a run stands: the value returned if the loop ended, the state,
      and the sends attempted so far. */
  datatype Run = Run(exit: Option<int>, state: RelayState, sends: seq<Send>)

  /** A receive result the buffer can hold. */
  predicate FitsBuffer(it: Iteration)
  {
    it.recv.Received? ==> |it.recv.payload| <= MdnsMtu
  }

  /** Every one of the first `n` iterations received a datagram. */
  predicate ReceivedUpTo(its: seq<Iteration>, n: nat)
  {
    n <= |its| && forall k :: 0 <= k < n ==> its[k].recv.Received?
  }

  /** The state after applying `Step` to the senders of the first `n`
      iterations, in order, starting from `s`. */
  function StateAfter(table: seq<uint32>, s: RelayState, its: seq<Iteration>, n: nat): RelayState
    requires ReceivedUpTo(its, n)
    decreases n
  {
    if n == 0 then s
    else Step(table, StateAfter(table, s, its, n - 1), its[n - 1].recv.src)
  }

  /** The iteration ends the loop: a failed receive, an empty datagram, or a
      failed send. */
  predicate Stops(it: Iteration)
  {
    it.recv.RecvFailed? || |it.recv.payload| == 0 || !it.sendOk
  }

  /**
    The loop from iteration `i` on, in state `s`, after the sends `sends` of
    the iterations before it (one each, since every one of them went
    through). A failed receive, an empty datagram or a failed send ends the
    loop with -1; otherwise the bytes received are sent, unchanged, to the
    destination the step chose.
  */
  function RunFrom(table: seq<uint32>, its: seq<Iteration>, i: nat, s: RelayState, sends: seq<Send>): (r: Run)
    requires i <= |its| && |sends| == i
    requires forall k :: 0 <= k < |its| ==> FitsBuffer(its[k])
    requires forall k :: 0 <= k < i ==> !Stops(its[k])
    ensures r.exit.Some? ==> r.exit.value == -1
    ensures i <= |r.sends| <= |its| && r.sends[..i] == sends
    ensures r.exit.None? ==> |r.sends| == |its|
    ensures forall k :: i <= k < |r.sends| ==>
      its[k].recv.Received? && r.sends[k].payload == its[k].recv.payload
      && 0 < |r.sends[k].payload| <= MdnsMtu
    decreases |its| - i
  {
    if i == |its| then Run(None, s, sends)
    else
      match its[i].recv
      case RecvFailed => Run(Some(-1), s, sends)
      case Received(src, payload) =>
        if |payload| == 0 then Run(Some(-1), s, sends)
        else
          assert FitsBuffer(its[i]);
          var s1 := Step(table, s, src);
          var sends1 := sends + [Send(s1.dst, payload)];
          if !its[i].sendOk then Run(Some(-1), s1, sends1)
          else RunFrom(table, its, i + 1, s1, sends1)
  }

  /** The loop runs through every iteration exactly when none of them stops it. */
  lemma {:induction false} RunFromRunsThrough(table: seq<uint32>, its: seq<Iteration>, i: nat, s: RelayState, sends: seq<Send>)
    requires i <= |its| && |sends| == i
    requires forall k :: 0 <= k < |its| ==> FitsBuffer(its[k])
    requires forall k :: 0 <= k < i ==> !Stops(its[k])
    ensures var r := RunFrom(table, its, i, s, sends);
      r.exit.None? <==> forall k :: 0 <= k < |its| ==> !Stops(its[k])
    decreases |its| - i
  {
    var r := RunFrom(table, its, i, s, sends);
    if i == |its| {
      assert r == Run(None, s, sends);
    } else if its[i].recv.RecvFailed? || |its[i].recv.payload| == 0 {
      assert r == Run(Some(-1), s, sends);
    } else {
      var s1 := Step(table, s, its[i].recv.src);
      var sends1 := sends + [Send(s1.dst, its[i].recv.payload)];
      if !its[i].sendOk {
        assert r == Run(Some(-1), s1, sends1);
      } else {
        assert r == RunFrom(table, its, i + 1, s1, sends1);
        RunFromRunsThrough(table, its, i + 1, s1, sends1);
      }
    }
  }

  /** Every iteration before the one of the last send went through. */
  lemma {:induction false} RunFromEarlierItersPass(table: seq<uint32>, its: seq<Iteration>, i: nat, s: RelayState, sends: seq<Send>)
    requires i <= |its| && |sends| == i
    requires forall k :: 0 <= k < |its| ==> FitsBuffer(its[k])
    requires forall k :: 0 <= k < i ==> !Stops(its[k])
    ensures var r := RunFrom(table, its, i, s, sends);
      forall k :: 0 <= k < |r.sends| - 1 ==> !Stops(its[k])
    decreases |its| - i
  {
    var r := RunFrom(table, its, i, s, sends);
    if i == |its| {
      assert r == Run(None, s, sends);
    } else if its[i].recv.RecvFailed? || |its[i].recv.payload| == 0 {
      assert r == Run(Some(-1), s, sends);
    } else {
      var s1 := Step(table, s, its[i].recv.src);
      var sends1 := sends + [Send(s1.dst, its[i].recv.payload)];
      if !its[i].sendOk {
        assert r == Run(Some(-1), s1, sends1);
      } else {
        assert r == RunFrom(table, its, i + 1, s1, sends1);
        RunFromEarlierItersPass(table, its, i + 1, s1, sends1);
      }
    }
  }

  /** A failed last send ends the loop with -1. */
  lemma {:induction false} RunFromLastSendFails(table: seq<uint32>, its: seq<Iteration>, i: nat, s: RelayState, sends: seq<Send>)
    requires i <= |its| && |sends| == i
    requires forall k :: 0 <= k < |its| ==> FitsBuffer(its[k])
    requires forall k :: 0 <= k < i ==> !Stops(its[k])
    ensures var r := RunFrom(table, its, i, s, sends);
      LastSendFailed(its, |r.sends|) ==> r.exit == Some(-1)
    decreases |its| - i
  {
    var r := RunFrom(table, its, i, s, sends);
    if i == |its| {
      assert r == Run(None, s, sends);
    } else if its[i].recv.RecvFailed? || |its[i].recv.payload| == 0 {
      assert r == Run(Some(-1), s, sends);
    } else {
      var s1 := Step(table, s, its[i].recv.src);
      var sends1 := sends + [Send(s1.dst, its[i].recv.payload)];
      if !its[i].sendOk {
        assert r == Run(Some(-1), s1, sends1);
      } else {
        assert r == RunFrom(table, its, i + 1, s1, sends1);
        RunFromLastSendFails(table, its, i + 1, s1, sends1);
      }
    }
  }

  /** The loop, having made `n` sends, has a reason to stop: the last send
      failed, or the next receive failed or brought an empty datagram. */
  predicate EndsAfter(its: seq<Iteration>, n: nat)
    requires n <= |its|
  {
    || LastSendFailed(its, n)
    || (n < |its| && (its[n].recv.RecvFailed? || |its[n].recv.payload| == 0))
  }

  /** The last of `n` sends failed. */
  predicate LastSendFailed(its: seq<Iteration>, n: nat)
    requires n <= |its|
  {
    n > 0 && !its[n - 1].sendOk
  }

  /** Any early end is a failed last send, or a failed receive or an empty
      datagram right after the last send. */
  lemma {:induction false} RunFromEarlyExit(table: seq<uint32>, its: seq<Iteration>, i: nat, s: RelayState, sends: seq<Send>)
    requires i <= |its| && |sends| == i
    requires forall k :: 0 <= k < |its| ==> FitsBuffer(its[k])
    requires forall k :: 0 <= k < i ==> !Stops(its[k])
    ensures var r := RunFrom(table, its, i, s, sends);
      r.exit.Some? ==> EndsAfter(its, |r.sends|)
    decreases |its| - i
  {
    var r := RunFrom(table, its, i, s, sends);
    if i == |its| {
      assert r == Run(None, s, sends);
    } else if its[i].recv.RecvFailed? || |its[i].recv.payload| == 0 {
      assert r == Run(Some(-1), s, sends);
      assert EndsAfter(its, i);
    } else {
      var s1 := Step(table, s, its[i].recv.src);
      var sends1 := sends + [Send(s1.dst, its[i].recv.payload)];
      if !its[i].sendOk {
        assert r == Run(Some(-1), s1, sends1);
        assert EndsAfter(its, i + 1);
      } else {
        assert r == RunFrom(table, its, i + 1, s1, sends1);
        RunFromEarlyExit(table, its, i + 1, s1, sends1);
      }
    }
  }

  /**
    The loop body, repeated over the given iterations from state `s`. The
    loop ends with -1 and only with -1; it runs through every iteration
    exactly when none of them stops it; each send carries exactly the bytes
    received; every iteration before the last send went through; a failed
    last send ends the loop; and any other early end is a failed receive or
    an empty datagram right after the last send.
  */
  function RunLoop(table: seq<uint32>, s: RelayState, its: seq<Iteration>): (r: Run)
    requires forall k :: 0 <= k < |its| ==> FitsBuffer(its[k])
    ensures r.exit.Some? ==> r.exit.value == -1
    ensures r.exit.None? <==> forall k :: 0 <= k < |its| ==> !Stops(its[k])
    ensures r.exit.None? ==> |r.sends| == |its|
    ensures |r.sends| <= |its|
    ensures forall k :: 0 <= k < |r.sends| ==>
      its[k].recv.Received? && r.sends[k].payload == its[k].recv.payload
      && 0 < |r.sends[k].payload| <= MdnsMtu
    ensures forall k :: 0 <= k < |r.sends| - 1 ==> !Stops(its[k])
    ensures LastSendFailed(its, |r.sends|) ==> r.exit == Some(-1)
    ensures r.exit.Some? ==> EndsAfter(its, |r.sends|)
  {
    RunFromRunsThrough(table, its, 0, s, []);
    RunFromEarlierItersPass(table, its, 0, s, []);
    RunFromLastSendFails(table, its, 0, s, []);
    RunFromEarlyExit(table, its, 0, s, []);
    RunFrom(table, its, 0, s, [])
  }

  /** The sends so far follow the fold of `Step` from `s0`: iteration k went
      through and was sent to the destination the k-th step chose, and the
      current state is the fold's state. */
  ghost predicate FollowsStep(table: seq<uint32>, s0: RelayState, its: seq<Iteration>, s: RelayState, sends: seq<Send>)
  {
    && ReceivedUpTo(its, |sends|)
    && (forall k :: 0 <= k < |sends| ==> sends[k].dst == StateAfter(table, s0, its, k + 1).dst)
    && s == StateAfter(table, s0, its, |sends|)
  }

  /** Sending datagram `|sends|` to the destination of the next step keeps
      the sends and the state in step with the fold. */
  lemma FollowsStepExtends(table: seq<uint32>, s0: RelayState, its: seq<Iteration>, s: RelayState, sends: seq<Send>)
    requires FollowsStep(table, s0, its, s, sends)
    requires |sends| < |its| && its[|sends|].recv.Received?
    ensures var s1 := Step(table, s, its[|sends|].recv.src);
      FollowsStep(table, s0, its, s1, sends + [Send(s1.dst, its[|sends|].recv.payload)])
  {
    var i := |sends|;
    var s1 := Step(table, s, its[i].recv.src);
    var sends1 := sends + [Send(s1.dst, its[i].recv.payload)];
    assert ReceivedUpTo(its, i + 1);
    assert s1 == StateAfter(table, s0, its, i + 1);
    forall k | 0 <= k < i + 1
      ensures sends1[k].dst == StateAfter(table, s0, its, k + 1).dst
    {
      if k < i {
        assert sends1[k] == sends[k];
      }
    }
  }

  /** Each pass of the loop keeps its sends and state in step with the fold. */
  lemma {:induction false} RunFromFollowsStep(table: seq<uint32>, s0: RelayState, its: seq<Iteration>,
                                              i: nat, s: RelayState, sends: seq<Send>)
    requires i <= |its| && |sends| == i
    requires forall k :: 0 <= k < |its| ==> FitsBuffer(its[k])
    requires forall k :: 0 <= k < i ==> !Stops(its[k])
    requires FollowsStep(table, s0, its, s, sends)
    ensures var r := RunFrom(table, its, i, s, sends);
      FollowsStep(table, s0, its, r.state, r.sends)
    decreases |its| - i
  {
    var r := RunFrom(table, its, i, s, sends);
    if i == |its| {
      assert r == Run(None, s, sends);
    } else if its[i].recv.RecvFailed? || |its[i].recv.payload| == 0 {
      assert r == Run(Some(-1), s, sends);
    } else {
      var s1 := Step(table, s, its[i].recv.src);
      var sends1 := sends + [Send(s1.dst, its[i].recv.payload)];
      FollowsStepExtends(table, s0, its, s, sends);
      if !its[i].sendOk {
        assert r == Run(Some(-1), s1, sends1);
      } else {
        assert r == RunFrom(table, its, i + 1, s1, sends1);
        RunFromFollowsStep(table, s0, its, i + 1, s1, sends1);
      }
    }
  }

  /** The loop is the fold of `Step` over the senders: the k-th send goes to
      the destination the k-th step chose, and the state the loop ends in is
      the state after the steps of the datagrams it sent. */
  lemma RunLoopFollowsStep(table: seq<uint32>, s: RelayState, its: seq<Iteration>)
    requires forall k :: 0 <= k < |its| ==> FitsBuffer(its[k])
    ensures var r := RunLoop(table, s, its);
      && ReceivedUpTo(its, |r.sends|)
      && (forall k :: 0 <= k < |r.sends| ==> r.sends[k].dst == StateAfter(table, s, its, k + 1).dst)
      && r.state == StateAfter(table, s, its, |r.sends|)
  {
    RunFromFollowsStep(table, s, its, 0, s, []);
  }

  /**
    `relay_loop`: the local address table is fetched once (None when the
    platform call fails, which ends the loop at once with -1), then the loop
    runs from the initial state with that same table for every datagram.
  */
  function RelayLoop(table: Option<seq<uint32>>, its: seq<Iteration>): (r: Run)
    requires forall k :: 0 <= k < |its| ==> FitsBuffer(its[k])
    ensures r.exit.Some? ==> r.exit.value == -1
    ensures table.None? ==> r == Run(Some(-1), InitialState, [])
  {
    match table
    case None => Run(Some(-1), InitialState, [])
    case Some(t) => RunLoop(t, InitialState, its)
  }

  // ---------------------------------------------------------------------------
  // Properties
  // ---------------------------------------------------------------------------

  /** The table scan finds the address exactly when it is in the table. */
  lemma LocalIndexFindsMembers(table: seq<uint32>, addr: uint32)
    ensures LocalIndex(table, addr, 0) < |table| <==> addr in table
  {
    assert table[0..] == table;
  }

  /** Local traffic goes to the recorded client, which is the all-zero
      endpoint while none is recorded; nothing is dropped. */
  lemma LocalTrafficGoesToClient(table: seq<uint32>, s: RelayState, src: Endpoint)
    requires src.addr in table
    ensures Step(table, s, src).dst == s.client
    ensures Step(table, s, src).client == s.client
    ensures s.client == NoEndpoint ==> Step(table, s, src).dst == NoEndpoint
  {
  }

  /** Remote traffic goes to 224.0.0.251:5353, whatever its source port. */
  lemma RemoteTrafficGoesToGroup(table: seq<uint32>, s: RelayState, src: Endpoint)
    requires src.addr !in table
    ensures Step(table, s, src).dst.addr == MdnsAddr && Step(table, s, src).dst.port == MdnsPort
  {
  }

  /** The recorded client changes exactly when a remote sender's address
      differs from the recorded one; a new port alone changes nothing. */
  lemma ClientChangesOnlyOnNewAddress(table: seq<uint32>, s: RelayState, src: Endpoint)
    ensures Step(table, s, src).client != s.client <==>
      src.addr !in table && src.addr != s.client.addr && src != s.client
  {
  }

  /** The source port never matters: two senders with the same address and
      family lead to the same destination, and either both or neither
      replaces the recorded client. */
  lemma SourcePortIgnored(table: seq<uint32>, s: RelayState, src: Endpoint, port: uint16)
    ensures Step(table, s, src).dst == Step(table, s, src.(port := port)).dst
    ensures (Step(table, s, src).client == s.client) == (Step(table, s, src.(port := port)).client == s.client)
  {
  }

  /** Repeating the same remote sender changes nothing further. */
  lemma RepeatedSenderIsStable(table: seq<uint32>, s: RelayState, src: Endpoint)
    ensures var s1 := Step(table, s, src);
      Step(table, s1, src) == s1
  {
  }

  /** The local address table used by the scenario: 10.0.0.5 only. */
  const ScenarioTable: seq<uint32> := [0x0A000005]
  const ScenarioLocal: Endpoint := Endpoint(AfInet, 0x0A000005, 5353)
  /** 203.0.113.9:5353 */
  const ScenarioRemote: Endpoint := Endpoint(AfInet, 0xCB007109, 5353)

  /**
    A local datagram arrives before any client is known: it is sent to the
    all-zero endpoint. A remote datagram from 203.0.113.9 then records that
    sender and goes to the multicast group, through a destination whose family
    tag the local datagram had zeroed. A second local datagram goes to the
    recorded sender, port included.
  */
  lemma ThreeDatagramScenario(p1: seq<uint8>, p2: seq<uint8>, p3: seq<uint8>)
    requires 0 < |p1| <= MdnsMtu && 0 < |p2| <= MdnsMtu && 0 < |p3| <= MdnsMtu
    ensures
      var its := [Iteration(Received(ScenarioLocal, p1), true),
                  Iteration(Received(ScenarioRemote, p2), true),
                  Iteration(Received(ScenarioLocal, p3), true)];
      RelayLoop(Some(ScenarioTable), its) ==
        Run(None, RelayState(ScenarioRemote, ScenarioRemote),
            [Send(NoEndpoint, p1), Send(Endpoint(0, MdnsAddr, MdnsPort), p2), Send(ScenarioRemote, p3)])
  {
    var its := [Iteration(Received(ScenarioLocal, p1), true),
                Iteration(Received(ScenarioRemote, p2), true),
                Iteration(Received(ScenarioLocal, p3), true)];
    var s1 := RelayState(NoEndpoint, NoEndpoint);
    var s2 := RelayState(Endpoint(0, MdnsAddr, MdnsPort), ScenarioRemote);
    var s3 := RelayState(ScenarioRemote, ScenarioRemote);
    assert Step(ScenarioTable, InitialState, ScenarioLocal) == s1;
    assert Step(ScenarioTable, s1, ScenarioRemote) == s2;
    assert Step(ScenarioTable, s2, ScenarioLocal) == s3;
    var sends := [Send(NoEndpoint, p1), Send(Endpoint(0, MdnsAddr, MdnsPort), p2), Send(ScenarioRemote, p3)];
    assert sends[..2] + [sends[2]] == sends;
    assert sends[..1] + [sends[1]] == sends[..2];
    assert [] + [sends[0]] == sends[..1];
    assert RunFrom(ScenarioTable, its, 3, s3, sends) == Run(None, s3, sends);
    assert RunFrom(ScenarioTable, its, 2, s2, sends[..2]) == Run(None, s3, sends);
    assert RunFrom(ScenarioTable, its, 1, s1, sends[..1]) == Run(None, s3, sends);
    assert RunFrom(ScenarioTable, its, 0, InitialState, []) == Run(None, s3, sends);
  }

  /**
    The same first datagram when its send to the all-zero endpoint fails: the
    loop ends with -1 after that one send, and nothing that follows is relayed.
  */
  lemma FailedSendToNoEndpointStops(p1: seq<uint8>, rest: seq<Iteration>)
    requires 0 < |p1| <= MdnsMtu
    requires forall k :: 0 <= k < |rest| ==> FitsBuffer(rest[k])
    ensures
      var its := [Iteration(Received(ScenarioLocal, p1), false)] + rest;
      RelayLoop(Some(ScenarioTable), its) == Run(Some(-1), RelayState(NoEndpoint, NoEndpoint), [Send(NoEndpoint, p1)])
  {
    assert Step(ScenarioTable, InitialState, ScenarioLocal) == RelayState(NoEndpoint, NoEndpoint);
  }
}
