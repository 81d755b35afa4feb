/** The IP layer of ipv6.h between the interfaces and ICMPv6, for packets without hop-by-hop options. */
module Ipv6 {
  import opened Bytes
  import opened Ipv6Address
  import opened PrefixTable
  import opened InterfaceManager
  import opened Packet
  import opened NdNode
  import opened Icmpv6

  const HOP_BY_HOP: Byte := 0

  /** What happens to a packet that arrives: it is given back, handed to the transport layers, sent on to another node;
      or nothing happens to it at all. */
  datatype Verdict = Discarded | Delivered | Forwarded | Kept

  /** ff02::/16 */
  predicate IsMulticast(a: seq<Byte>)
    requires |a| == 16
  {
    a[0] == 0xFF && a[1] == 0x02
  }

  /** ff02::1:ff00:0/104 and the low bytes of the identifier. */
  function SolicitedMulticast(id: nat, w: nat): (a: seq<Byte>)
    ensures |a| == 16 && a[0] == 0xFF && a[1] == 0x02
  {
    [0xFF, 0x02] + Zeros(9) + [1, 0xFF, if w > 3 then id / 0x1_0000 % 256 else 0, id / 256 % 256, id % 256]
  }

  /** The packet is for this node. */
  predicate IsFor(n: Node, to: seq<Byte>)
    requires |to| == 16
  {
    IsMulticast(to) || HasAddress(n.radio, to) || HasAddress(n.uart, to)
  }

  /** The multicast addresses that are supported. */
  predicate Listened(c: Config, to: seq<Byte>) {
    to == ALL_NODES || to == ALL_ROUTERS || to == SolicitedMulticast(c.radioId, c.idSize)
  }

  /** For whom a packet is, when it is not discarded before. */
  function Destined(c: Config, n: Node, to: seq<Byte>, nextHeader: Byte): Verdict
    requires |to| == 16
  {
    if IsFor(n, to) then
      if IsMulticast(to) && !Listened(c, to) then Discarded
      else if nextHeader != UDP && nextHeader != ICMPV6 then Discarded
      else Delivered
    else if !c.routeOver then Kept
    else if IsLinkLocal(to) then Discarded
    else Forwarded
  }

  /** The receive filter, for a packet from the link-layer identifier `from`: a node does not hear itself; what goes to
      all routers is for routers only; extension headers are not supported. */
  function Judge(c: Config, n: Node, from: nat, iface: nat, stored: Byte, d: seq<Byte>): Verdict
    requires |d| >= 40
  {
    if from == c.radioId then Discarded
    else if iface == INTERFACE_RADIO && !n.storage.isRouter && d[24..40] == ALL_ROUTERS then Discarded
    else if NextHeaderOf(stored, d[6]) != d[6] then Discarded
    else Destined(c, n, d[24..40], d[6])
  }

  lemma JudgeMeans(c: Config, n: Node, from: nat, iface: nat, stored: Byte, d: seq<Byte>)
    requires |d| >= 40
    ensures Judge(c, n, from, iface, stored, d) ==
      if from == c.radioId then Discarded
      else if iface == 0 && !n.storage.isRouter && d[24..40] == ALL_ROUTERS then Discarded
      else if NextHeaderOf(stored, d[6]) != d[6] then Discarded
      else Destined(c, n, d[24..40], d[6])
  {
  }

  lemma DestinedMeans(c: Config, n: Node, to: seq<Byte>, nextHeader: Byte)
    requires |to| == 16
    ensures Destined(c, n, to, nextHeader) ==
      if IsMulticast(to) || HasAddress(n.radio, to) || HasAddress(n.uart, to) then
        if IsMulticast(to) && !Listened(c, to) then Discarded
        else if nextHeader != UDP && nextHeader != ICMPV6 then Discarded
        else Delivered
      else if !c.routeOver then Kept
      else if IsLinkLocal(to) then Discarded
      else Forwarded
  {
  }

  lemma NextHeaderStays(stored: Byte, later: Byte, inPacket: Byte, nextHeader: Byte)
    requires nextHeader == NextHeaderOf(stored, inPacket) && later == if nextHeader == 255 then stored else nextHeader
    ensures NextHeaderOf(later, inPacket) == nextHeader
  {
  }

  /** What a node does with a packet that arrives: by the verdict, it leaves the layer above alone or hands the packet
      to it. A packet that is sent on is given back, unless it waits for a route. */
  ghost predicate Passed(c: Config, n: Node, r: Node, from: nat, stored: Byte, d: seq<Byte>, iface: nat,
                         installation: bool, free: bool, routesMissing: bool, before: Log, after: Log, intact: bool,
                         released: bool)
    requires GoodNode(c, n) && |n.radio| >= 2 && |d| >= 1532 && LengthOf(d) <= 1460
  {
    match Judge(c, n, from, iface, stored, d)
    case Delivered => Treats(c, n, r, stored, d, iface, installation, free, before, after, intact, released)
    case Discarded => intact && released && r == n && after == before
    case Kept => intact && !released && r == n && after == before
    case Forwarded => intact && r == n && after == before && (released <==> !routesMissing)
  }

  lemma PassedIs(c: Config, n: Node, r: Node, from: nat, stored: Byte, later: Byte, d: seq<Byte>, iface: nat,
                 installation: bool, free: bool, routesMissing: bool, before: Log, after: Log, intact: bool,
                 released: bool)
    requires GoodNode(c, n) && |n.radio| >= 2 && |d| >= 1532 && LengthOf(d) <= 1460
    requires NextHeaderOf(later, d[6]) == NextHeaderOf(stored, d[6])
    requires var verdict := Judge(c, n, from, iface, stored, d);
      && (!verdict.Delivered? ==> intact && r == n && after == before)
      && (verdict.Discarded? ==> released) && (verdict.Kept? ==> !released)
      && (verdict.Forwarded? ==> (released <==> !routesMissing))
      && (verdict.Delivered? ==>
            Treats(c, n, r, later, d, iface, installation, free, before, after, intact, released))
    ensures Passed(c, n, r, from, stored, d, iface, installation, free, routesMissing, before, after, intact, released)
  {
    hide Judge, Harms, Reacted, EchoReply, Zeroed, GoodNode;
    IcmpMeans(stored, d);
    IcmpMeans(later, d);
  }

  /** The multicast addresses of a node: ff02::1, ff02::2, and ff02::1:ff00:0/104 with the three lowest bytes of its
      identifier, the third only if the identifier has more than three. */
  lemma MulticastAddresses(c: Config, to: seq<Byte>)
    ensures Listened(c, to) <==>
      || to == [0xFF, 2, 0, 0, 0, 0, 0, 0, 0, 0, 0, 0, 0, 0, 0, 1]
      || to == [0xFF, 2, 0, 0, 0, 0, 0, 0, 0, 0, 0, 0, 0, 0, 0, 2]
      || to == [0xFF, 2, 0, 0, 0, 0, 0, 0, 0, 0, 0, 1, 0xFF, if c.idSize > 3 then c.radioId / 0x1_0000 % 256 else 0,
           c.radioId / 256 % 256, c.radioId % 256]
    ensures ALL_NODES == [0xFF, 2, 0, 0, 0, 0, 0, 0, 0, 0, 0, 0, 0, 0, 0, 1]
    ensures ALL_ROUTERS == [0xFF, 2, 0, 0, 0, 0, 0, 0, 0, 0, 0, 0, 0, 0, 0, 2]
  {
    var id := c.radioId;
    assert SolicitedMulticast(id, c.idSize) == [0xFF, 2, 0, 0, 0, 0, 0, 0, 0, 0, 0, 1, 0xFF,
      if c.idSize > 3 then id / 0x1_0000 % 256 else 0, id / 256 % 256, id % 256];
    assert ALL_NODES == [0xFF, 2, 0, 0, 0, 0, 0, 0, 0, 0, 0, 0, 0, 0, 0, 1];
    assert ALL_ROUTERS == [0xFF, 2, 0, 0, 0, 0, 0, 0, 0, 0, 0, 0, 0, 0, 0, 2];
  }

  /** Exactly which packets a node hands to its transport layers, for packets as they come in, with no next header
      stored: UDP and ICMPv6 packets that do not come from its own identifier, to one of its addresses that is no
      link-local multicast one, to ff02::1, to its solicited multicast address, or, unless it is no router and hears
      it over the radio, to ff02::2. */
  lemma DeliveredExactly(c: Config, n: Node, from: nat, iface: nat, d: seq<Byte>)
    requires |d| >= 40
    ensures Judge(c, n, from, iface, 0, d) == Delivered <==>
      && from != c.radioId && (d[6] == 17 || d[6] == 58)
      && var to := d[24..40];
         || (!(to[0] == 0xFF && to[1] == 2) && (HasAddress(n.radio, to) || HasAddress(n.uart, to)))
         || to == [0xFF, 2, 0, 0, 0, 0, 0, 0, 0, 0, 0, 0, 0, 0, 0, 1]
         || (to == [0xFF, 2, 0, 0, 0, 0, 0, 0, 0, 0, 0, 0, 0, 0, 0, 2] && (iface == 0 ==> n.storage.isRouter))
         || to == [0xFF, 2, 0, 0, 0, 0, 0, 0, 0, 0, 0, 1, 0xFF, if c.idSize > 3 then c.radioId / 0x1_0000 % 256 else 0,
              c.radioId / 256 % 256, c.radioId % 256]
  {
    hide SolicitedMulticast, Zeros, Listened, ALL_NODES, ALL_ROUTERS, HasAddress;
    MulticastAddresses(c, d[24..40]);
  }

  /** Exactly what is sent on, in the route-over build: packets to none of the node's addresses, not to a multicast or
      link-local one, of UDP, ICMPv6 or without any next header. In the mesh-under build such packets, to whatever
      address, are kept. */
  lemma ForwardedExactly(c: Config, n: Node, from: nat, iface: nat, d: seq<Byte>)
    requires |d| >= 40
    ensures var to := d[24..40];
      var elsewhere := from != c.radioId && (d[6] == 17 || d[6] == 58 || d[6] == 255) && !(to[0] == 0xFF && to[1] == 2)
        && !HasAddress(n.radio, to) && !HasAddress(n.uart, to);
      && (Judge(c, n, from, iface, 0, d) == Kept <==> elsewhere && !c.routeOver)
      && (Judge(c, n, from, iface, 0, d) == Forwarded <==>
            && elsewhere && c.routeOver
            && !(to[0] == 0xFE && to[1] == 0x80 && to[2] == to[3] == to[4] == to[5] == to[6] == to[7] == 0))
  {
    hide SolicitedMulticast, Listened, HasAddress;
    MulticastAddresses(c, d[24..40]);
    LinkLocalMeans(d[24..40]);
  }

  /** A message to all routers reaches exactly the routers with another identifier than the sender's. */
  lemma RoutersHear(c: Config, n: Node, from: nat, d: seq<Byte>)
    requires |d| >= 40 && (d[6] == 17 || d[6] == 58) && d[24..40] == ALL_ROUTERS
    ensures Judge(c, n, from, INTERFACE_RADIO, 0, d)
      == if from != c.radioId && n.storage.isRouter then Delivered else Discarded
  {
  }

  /** A message to an address of a node reaches it, unless it comes from its own identifier. */
  lemma OwnersHear(c: Config, n: Node, from: nat, d: seq<Byte>)
    requires |d| >= 40 && (d[6] == 17 || d[6] == 58) && !IsMulticast(d[24..40])
    requires HasAddress(n.radio, d[24..40]) || HasAddress(n.uart, d[24..40])
    ensures Judge(c, n, from, INTERFACE_RADIO, 0, d) == if from != c.radioId then Delivered else Discarded
  {
    assert ALL_ROUTERS[0] == 0xFF && ALL_ROUTERS[1] == 2;
  }

  /** The filter looks at the addresses and the next header only. */
  lemma JudgeAlike(c: Config, n: Node, from: nat, iface: nat, stored: Byte, d: seq<Byte>, e: seq<Byte>)
    requires |d| >= 40 && |e| >= 40 && d[6] == e[6] && d[24..40] == e[24..40]
    ensures Judge(c, n, from, iface, stored, d) == Judge(c, n, from, iface, stored, e)
  {
  }

  // ---------------------------------------------------------------------------------------------
  // Sending
  // ---------------------------------------------------------------------------------------------

  /** The IP layer writes the next header into the packet. */
  function WithNextHeader(b: seq<Byte>): (r: seq<Byte>)
    requires |b| >= 1532
    ensures |r| == |b|
  {
    b[6 := ICMPV6]
  }

  /** A message on its way, but for the checksum: with next header and source. */
  function Underway(row: seq<Prefix>, b: seq<Byte>): (r: seq<Byte>)
    requires |b| >= 1532 && row != [] && IsRow(row)
    ensures |r| == |b|
  {
    WithSource(row, WithNextHeader(b))
  }

  /** What goes over the air. */
  function OnTheAir(row: seq<Prefix>, b: seq<Byte>): (r: seq<Byte>)
    requires |b| >= 1532 && LengthOf(b) <= 1460 && row != [] && IsRow(row)
    ensures |r| == |b|
  {
    UnderwayFits(row, b);
    Stamped(Underway(row, b), ICMPV6)
  }

  lemma UnderwayFits(row: seq<Prefix>, b: seq<Byte>)
    requires |b| >= 1532 && LengthOf(b) <= 1460 && row != [] && IsRow(row)
    ensures Fits(WithNextHeader(b)) && Fits(Underway(row, b)) && LengthOf(Underway(row, b)) == LengthOf(b)
    ensures Underway(row, b)[6] == ICMPV6 == 58
    ensures WithNextHeader(b) == b[6 := ICMPV6] && Underway(row, b) == WithSource(row, b[6 := ICMPV6])
  {
    hide FirstAddress;
    SourceLength(row, WithNextHeader(b)[SOURCE_BYTE..DESTINATION_BYTE]);
  }

  lemma OnTheAirMeans(row: seq<Prefix>, b: seq<Byte>)
    requires |b| >= 1532 && LengthOf(b) <= 1460 && row != [] && IsRow(row)
    ensures Fits(b[6 := ICMPV6]) && |b[6 := ICMPV6]| >= 40 && Fits(WithSource(row, b[6 := ICMPV6]))
    ensures OnTheAir(row, b) == Stamped(WithSource(row, b[6 := ICMPV6]), ICMPV6)
    ensures ICMPV6 != 0 && ICMPV6 != 255
  {
    UnderwayFits(row, b);
  }

  class IPv6 {
    const icmp: ICMPv6

    constructor (icmp: ICMPv6)
      ensures this.icmp == icmp
    {
      this.icmp := icmp;
    }

    /** ip_packet_for_this_node */
    method IpPacketForThisNode(destination: seq<Byte>, iface: nat) returns (mine: bool)
      requires icmp.manager.Valid() && iface < 2
      ensures mine <==> HasAddress(icmp.manager.Row(iface), destination)
    {
      var manager: InterfaceManager := icmp.manager;
      for i := 0 to manager.prefixList.Length1
        invariant forall j | 0 <= j < i :: AddrOf(manager.Row(iface)[j]) != destination
      {
        assert manager.Row(iface)[i] == manager.prefixList[iface, i];
        if manager.prefixList[iface, i].address.addr == destination {
          return true;
        }
      }
      mine := false;
    }

    /** `send`, for a message that goes out over the radio and needs no extension header: next header, source and
        checksum. */
    method Complete(message: IPv6Packet)
      requires icmp.manager.Valid() && message.transportNextHeader == ICMPV6 && Arrived(message.buffer)
      requires message.buffer[6] != HOP_BY_HOP
      modifies message`transportNextHeader, message`transportPos, message.buffer
      ensures icmp.manager.Row(0) == old(icmp.manager.Row(0)) && icmp.manager.Row(0) != []
      ensures IsRow(icmp.manager.Row(0)) && message.buffer.Length >= 1532 && LengthOf(old(message.buffer[..])) <= 1460
      ensures message.buffer[..] == OnTheAir(icmp.manager.Row(0), old(message.buffer[..]))
    {
      hide *;
      ArrivedMeans(message.buffer);
      Positions();
      icmp.manager.TwoRows();
      icmp.manager.RowOf(0);
      ghost var row, b := icmp.manager.Row(0), message.buffer[..];
      OnTheAirMeans(row, b);
      var nextHeader := message.TransportNextHeader();
      StoredCounts(ICMPV6, message.buffer[6]);
      message.buffer[6] := nextHeader;
      assert message.buffer[..] == b[6 := ICMPV6];
      StoredCounts(ICMPV6, message.buffer[6]);
      icmp.manager.SendToInterface(message, 0);
    }

    /** The checks in front of the transport layers. */
    method Filter(from: nat, message: IPv6Packet) returns (verdict: Verdict)
      requires icmp.Valid() && Arrived(message.buffer)
      modifies message`transportNextHeader, message`transportPos
      ensures icmp.Valid() && icmp.State() == old(icmp.State()) && message.buffer.Length >= 1532
      ensures verdict == Judge(icmp.config, icmp.State(), from, message.targetInterface,
        old(message.transportNextHeader), message.buffer[..])
      ensures NextHeaderOf(message.transportNextHeader, message.buffer[6])
        == NextHeaderOf(old(message.transportNextHeader), message.buffer[6])
    {
      hide *;
      icmp.ValidMeans();
      icmp.Shape();
      icmp.StateMeans();
      icmp.TablesMean();
      Positions();
      ArrivedMeans(message.buffer);
      ghost var n, d, stored := icmp.State(), message.buffer[..], message.transportNextHeader;
      var to := message.buffer[24..40];
      assert to == d[24..40];
      JudgeMeans(icmp.config, n, from, message.targetInterface, stored, d);
      if from == icmp.config.radioId {
        return Discarded;
      }
      if message.targetInterface == 0 && !icmp.storage.isRouter && to == ALL_ROUTERS {
        return Discarded;
      }
      var nextHeader := message.TransportNextHeader();
      NextHeaderStays(stored, message.transportNextHeader, message.buffer[6], nextHeader);
      icmp.ValidMeans();
      icmp.StateMeans();
      icmp.TablesMean();
      assert icmp.State() == n;
      if message.buffer[6] != nextHeader {
        return Discarded;
      }
      verdict := Deliverable(to, nextHeader);
    }

    /** Whom the packet is for. */
    method Deliverable(to: seq<Byte>, nextHeader: Byte) returns (verdict: Verdict)
      requires icmp.Valid() && |to| == 16
      ensures verdict == Destined(icmp.config, icmp.State(), to, nextHeader)
    {
      hide *;
      icmp.ValidMeans();
      icmp.Shape();
      icmp.StateMeans();
      icmp.TablesMean();
      DestinedMeans(icmp.config, icmp.State(), to, nextHeader);
      var mine := IsMulticast(to);
      if !mine {
        mine := IpPacketForThisNode(to, 0);
      }
      if !mine {
        mine := IpPacketForThisNode(to, 1);
      }
      if mine {
        if IsMulticast(to) && !Listened(icmp.config, to) {
          return Discarded;
        }
        return if nextHeader != UDP && nextHeader != ICMPV6 then Discarded else Delivered;
      }
      if !icmp.config.routeOver {
        return Kept;
      }
      return if IsLinkLocal(to) then Discarded else Forwarded;
    }

    /** What the verdict makes of packet k. A packet that is sent on is given back, unless the IP layer keeps it to poll
        for a route. */
    method Conclude(verdict: Verdict, k: nat) returns (intact: bool, ghost released: bool)
      requires icmp.Valid() && k < |icmp.pool.packets| && icmp.pool.packets[k].valid
      requires Arrived(icmp.pool.packets[k].buffer)
      modifies icmp`sent, icmp`echoes, icmp`solicitor, icmp`storage, icmp.sentRs, icmp.contexts
      modifies icmp.manager.prefixList, icmp.pool, icmp.pool.packets, icmp.pool.Buffers()
      ensures released ==> intact && icmp.Released(k)
      ensures intact && !released ==> icmp.pool.Used() == old(icmp.pool.Used())
      ensures intact ==> icmp.Valid()
      ensures GoodNode(icmp.config, old(icmp.State())) && |old(icmp.State()).radio| >= 2
      ensures icmp.pool.packets[k].buffer.Length >= 1532 && LengthOf(old(icmp.pool.packets[k].buffer[..])) <= 1460
      ensures !verdict.Delivered? ==>
        intact && icmp.State() == old(icmp.State()) && Log(icmp.sent, icmp.echoes) == old(Log(icmp.sent, icmp.echoes))
      ensures (verdict.Discarded? ==> released) && (verdict.Kept? ==> !released)
      ensures verdict.Forwarded? ==> (released <==> !icmp.routesMissing)
      ensures verdict.Delivered? ==>
        Treats(icmp.config, old(icmp.State()), icmp.State(), old(icmp.pool.packets[k].transportNextHeader),
          old(icmp.pool.packets[k].buffer[..]), old(icmp.pool.packets[k].targetInterface),
          old(icmp.pool.packets[k].ndInstallation), false in old(icmp.pool.Used()),
          old(Log(icmp.sent, icmp.echoes)), Log(icmp.sent, icmp.echoes), intact, released)
    {
      hide *;
      ArrivedMeans(icmp.pool.packets[k].buffer);
      if verdict == Delivered {
        intact, released := icmp.Receive(k);
        return;
      }
      icmp.ValidMeans();
      icmp.StateIsGood();
      icmp.Shape();
      icmp.StateMeans();
      icmp.TablesMean();
      GoodParts(icmp.config, icmp.State());
      RowsOf(icmp.config, icmp.Tables());
      icmp.pool.Sizes();
      ghost var n, used := icmp.State(), icmp.pool.Used();
      intact, released := true, verdict == Discarded || (verdict == Forwarded && !icmp.routesMissing);
      if verdict == Forwarded {
        icmp.pool.packets[k].remoteLlAddress := 0;
        icmp.pool.packets[k].targetInterface := 2;
        icmp.pool.Sizes();
        assert icmp.pool.Used() == used;
      }
      if verdict == Discarded || (verdict == Forwarded && !icmp.routesMissing) {
        icmp.pool.CleanPacket(k);
        icmp.ReleasedIs(k);
      }
      icmp.ValidMeans();
      icmp.StateMeans();
      icmp.TablesMean();
      assert icmp.State() == n;
    }

    /** `receive`: the filter, and what it makes of a packet. */
    method Receive(from: nat, k: nat) returns (intact: bool, ghost released: bool)
      requires icmp.Valid() && k < |icmp.pool.packets| && icmp.pool.packets[k].valid
      requires Arrived(icmp.pool.packets[k].buffer) && icmp.pool.packets[k].buffer[6] != HOP_BY_HOP
      modifies icmp`sent, icmp`echoes, icmp`solicitor, icmp`storage, icmp.sentRs, icmp.contexts
      modifies icmp.manager.prefixList, icmp.pool, icmp.pool.packets, icmp.pool.Buffers()
      ensures released ==> intact && icmp.Released(k)
      ensures intact && !released ==> icmp.pool.Used() == old(icmp.pool.Used())
      ensures intact ==> icmp.Valid()
      ensures GoodNode(icmp.config, old(icmp.State())) && |old(icmp.State()).radio| >= 2
      ensures icmp.pool.packets[k].buffer.Length >= 1532 && LengthOf(old(icmp.pool.packets[k].buffer[..])) <= 1460
      ensures Passed(icmp.config, old(icmp.State()), icmp.State(), from,
        old(icmp.pool.packets[k].transportNextHeader), old(icmp.pool.packets[k].buffer[..]),
        old(icmp.pool.packets[k].targetInterface), old(icmp.pool.packets[k].ndInstallation),
        false in old(icmp.pool.Used()), icmp.routesMissing, old(Log(icmp.sent, icmp.echoes)),
        Log(icmp.sent, icmp.echoes), intact, released)
    {
      hide *;
      icmp.ValidMeans();
      icmp.Shape();
      icmp.pool.Sizes();
      icmp.pool.Apart();
      var message: IPv6Packet := icmp.pool.packets[k];
      ghost var n, used, d, stored := icmp.State(), icmp.pool.Used(), message.buffer[..], message.transportNextHeader;
      ghost var iface, installation, before := message.targetInterface, message.ndInstallation,
        Log(icmp.sent, icmp.echoes);
      var verdict := Filter(from, message);
      icmp.pool.Sizes();
      assert icmp.pool.Used() == used;
      ghost var later := message.transportNextHeader;
      label judged:
      intact, released := Conclude(verdict, k);
      if released {
        icmp.ReleasedMeans@judged(k);
        icmp.ReleasedIs(k);
      }
      PassedIs(icmp.config, n, icmp.State(), from, stored, later, d, iface, installation,
        false in used, icmp.routesMissing, before, Log(icmp.sent, icmp.echoes), intact, released);
    }
  }
}
