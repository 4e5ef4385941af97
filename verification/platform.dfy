/**
  The local address table the platform layer builds for the relay: from the
  operating system's list of adapters, the first unicast IPv4 address of every
  adapter that has one, supports multicast, is not the software loopback, and
  is administratively up with a working link, in adapter order, up to the
  caller's capacity.

  Fetching the adapter list and the per-adapter interface entry are calls into
  the operating system; their results are inputs here.
*/
module Platform {
  import opened Wire

  /** The interface type of the software loopback adapter. */
  const IfTypeSoftwareLoopback: nat := 24

  datatype AdminStatus = AdminUp | AdminDown | AdminTesting

  datatype OperStatus = NonOperational | Unreachable | Disconnected | Connecting | Connected | Operational

  /** The interface entry of an adapter: its administrative and operational status. */
  datatype IfEntry = IfEntry(admin: AdminStatus, oper: OperStatus)

  /** One adapter record: its first unicast IPv4 address (if any), whether it
      is flagged as not supporting multicast, its interface type, and its
      interface entry (None when the lookup fails). */
  datatype Adapter = Adapter(firstUnicast: Option<uint32>, noMulticast: bool, ifType: nat, entry: Option<IfEntry>)

  /** An adapter whose address belongs in the table. */
  predicate Eligible(a: Adapter)
  {
    && a.firstUnicast.Some?
    && !a.noMulticast
    && a.ifType != IfTypeSoftwareLoopback
    && a.entry.Some?
    && a.entry.value.admin == AdminUp
    && (a.entry.value.oper == Operational || a.entry.value.oper == Connected)
  }

  /** The addresses of all eligible adapters, in adapter order. */
  function EligibleAddresses(adapters: seq<Adapter>): seq<uint32>
  {
    if adapters == [] then []
    else
      var last := adapters[|adapters| - 1];
      EligibleAddresses(adapters[..|adapters| - 1]) + (if Eligible(last) then [last.firstUnicast.value] else [])
  }

  /** Filtering a prefix of the adapters gives a prefix of the addresses. */
  lemma {:induction false} EligibleAddressesPrefix(adapters: seq<Adapter>, k: nat)
    requires k <= |adapters|
    ensures EligibleAddresses(adapters[..k]) <= EligibleAddresses(adapters)
    decreases |adapters| - k
  {
    if k < |adapters| {
      var n := |adapters|;
      EligibleAddressesPrefix(adapters[..n - 1], k);
      assert adapters[..n - 1][..k] == adapters[..k];
    } else {
      assert adapters[..k] == adapters;
    }
  }

  /** Every address in the table comes from an eligible adapter, and every
      eligible adapter contributes its address. */
  lemma {:induction false} EligibleAddressesMembers(adapters: seq<Adapter>, addr: uint32)
    ensures addr in EligibleAddresses(adapters) <==>
      exists k :: 0 <= k < |adapters| && Eligible(adapters[k]) && adapters[k].firstUnicast.value == addr
    decreases |adapters|
  {
    if adapters != [] {
      var n := |adapters|;
      var p := adapters[..n - 1];
      EligibleAddressesMembers(p, addr);
      if exists k :: 0 <= k < |p| && Eligible(p[k]) && p[k].firstUnicast.value == addr {
        var k :| 0 <= k < |p| && Eligible(p[k]) && p[k].firstUnicast.value == addr;
        assert adapters[k] == p[k];
      }
      if exists k :: 0 <= k < n && Eligible(adapters[k]) && adapters[k].firstUnicast.value == addr {
        var k :| 0 <= k < n && Eligible(adapters[k]) && adapters[k].firstUnicast.value == addr;
        if k < n - 1 {
          assert p[k] == adapters[k];
        }
      }
    }
  }

  /**
    The selection loop of `platform_iface_ip_table`: walks the adapters,
    skipping ineligible ones, and stops at the end of the list or once
    `capacity` addresses are written. Returns the table and its length.
  */
  method IfaceIpTable(adapters: seq<Adapter>, capacity: nat) returns (table: seq<uint32>, tableLen: nat)
    ensures tableLen == |table| <= capacity
    ensures |EligibleAddresses(adapters)| <= capacity ==> table == EligibleAddresses(adapters)
    ensures |EligibleAddresses(adapters)| > capacity ==> table == EligibleAddresses(adapters)[..capacity]
  {
    table := [];
    var k := 0;
    while k < |adapters| && |table| < capacity
      invariant 0 <= k <= |adapters|
      invariant table == EligibleAddresses(adapters[..k])
      invariant |table| <= capacity
    {
      var a := adapters[k];
      assert adapters[..k + 1][..k] == adapters[..k];
      k := k + 1;
      if a.firstUnicast.None? {
        continue;
      }
      if a.noMulticast {
        continue;
      }
      if a.ifType == IfTypeSoftwareLoopback {
        continue;
      }
      if a.entry.None? {
        continue;
      }
      if a.entry.value.admin != AdminUp {
        continue;
      }
      if a.entry.value.oper != Operational && a.entry.value.oper != Connected {
        continue;
      }
      table := table + [a.firstUnicast.value];
    }
    EligibleAddressesPrefix(adapters, k);
    if k == |adapters| {
      assert adapters[..k] == adapters;
    }
    tableLen := |table|;
  }
}
