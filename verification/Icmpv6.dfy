/** The Neighbor Discovery part of the ICMPv6 layer of icmpv6.h. */
module Icmpv6 {
  import opened Wrappers
  import opened Bytes
  import opened Checksum
  import opened Ipv6Address
  import opened PrefixTable
  import opened InterfaceManager
  import opened Packet
  import opened PacketPool
  import opened NdOptions
  import opened NdNode
  import opened NdMessages
  import opened NdReader
  import RouterSolicitation

  const ECHO_REQUEST: Byte := 128
  const ECHO_REPLY: Byte := 129
  const ROUTER_SOLICITATION: Byte := 133
  const ROUTER_ADVERTISEMENT: Byte := 134
  const NEIGHBOR_SOLICITATION: Byte := 135
  const NEIGHBOR_ADVERTISEMENT: Byte := 136
  const RPL_CONTROL_MESSAGE: Byte := 155

  lemma MessageTypes()
    ensures ECHO_REQUEST == 128 && ECHO_REPLY == 129 && ROUTER_SOLICITATION == 133 && ROUTER_ADVERTISEMENT == 134
    ensures NEIGHBOR_SOLICITATION == 135 && NEIGHBOR_ADVERTISEMENT == 136 && RPL_CONTROL_MESSAGE == 155
  {
  }

  const ADDRESS_REGISTRATION_LIFETIME: nat := 1500
  const MAX_PREFIXES: nat := 28

  /** ff02::1 and ff02::2 */
  const ALL_NODES: seq<Byte> := [0xFF, 2] + Zeros(13) + [1]
  const ALL_ROUTERS: seq<Byte> := [0xFF, 2] + Zeros(13) + [2]

  /** Solicitations and advertisements of routers and of neighbors. */
  datatype Kind = Rs | Ra | Ns | Na

  function Typecode(kind: Kind): Byte {
    match kind
    case Rs => ROUTER_SOLICITATION
    case Ra => ROUTER_ADVERTISEMENT
    case Ns => NEIGHBOR_SOLICITATION
    case Na => NEIGHBOR_ADVERTISEMENT
  }

  /** Where the options of a message start. */
  function OptionsAt(kind: Kind): nat {
    match kind case Rs => 48 case Ra => 56 case Ns => 64 case Na => 64
  }

  /** The options a node puts into a message; the lifetime and identifier are those of a confirmed registration. */
  function OptionsOf(kind: Kind, c: Config, n: Node, lifetime: nat, eui: nat): seq<NdOption> {
    match kind
    case Rs => [LinkLayer(c.radioId)]
    case Ra => Offered(c, n)
    case Ns => [LinkLayer(c.radioId), Registration(ADDRESS_REGISTRATION_LIFETIME, c.radioId)]
    case Na => [LinkLayer(c.radioId), Registration(lifetime, eui)]
  }

  /** Solicitations and advertisements of routers come from the link-local address, the others from a global one. */
  function SourceOf(kind: Kind, n: Node): seq<Byte>
    requires |n.radio| >= 2
  {
    AddrOf(n.radio[if kind.Rs? || kind.Ra? then 0 else 1])
  }

  function NaFlags(s: Storage): Byte {
    if s.isRouter then 0xE0 else 0x60
  }

  /** The fields of a body in front of the options. */
  predicate HasBody(b: seq<Byte>, kind: Kind, s: Storage, to: seq<Byte>)
    requires StorageFits(s)
  {
    && (kind.Ra? ==> HasParameters(b, s))
    && (kind.Ns? || kind.Na? ==> Has(b, 48, to))
    && (kind.Na? ==> Has(b, 44, [NaFlags(s)]))
  }

  /** A complete message from `source`: hop limit 255, code 0, no checksum yet. */
  predicate IsMessageFrom(b: seq<Byte>, kind: Kind, c: Config, n: Node, source: seq<Byte>, to: seq<Byte>, lifetime: nat,
                          eui: nat)
    requires StorageFits(n.storage)
  {
    var os := OptionsOf(kind, c, n, lifetime, eui);
    && |b| == BUFFER_SIZE + 32
    && AllWellFormed(os, c.idSize) && Laid(b, OptionsAt(kind), os, c.idSize)
    && OptionsAt(kind) + SizeOfAll(os, c.idSize) <= BUFFER_SIZE
    && Has(b, 4, BigEndian(OptionsAt(kind) + SizeOfAll(os, c.idSize) - 40, 2))
    && Has(b, 7, [255]) && Has(b, 8, source) && Has(b, 24, to)
    && Has(b, 40, [Typecode(kind)]) && Has(b, 41, [0, 0, 0])
    && HasBody(b, kind, n.storage, to)
  }

  /** A message as it is handed to the IP layer: from the node's address, without a next header. */
  predicate IsMessage(b: seq<Byte>, kind: Kind, c: Config, n: Node, to: seq<Byte>, lifetime: nat, eui: nat)
    requires |n.radio| >= 2 && StorageFits(n.storage)
  {
    IsMessageFrom(b, kind, c, n, SourceOf(kind, n), to, lifetime, eui) && Has(b, 6, [NEXT_HEADER_NOT_SET])
  }

  lemma {:induction false} PowersGrow(a: nat, b: nat)
    requires a <= b
    ensures Pow256(a) <= Pow256(b)
  {
    if a < b {
      PowersGrow(a, b - 1);
    }
  }

  /** A message handed to the IP layer: the packet it was in, and whether the IP layer keeps that packet's number to
      poll the routing algorithm with. */
  datatype Message = Message(kind: Kind, iface: nat, linkLayer: nat, bytes: seq<Byte>, packet: nat, polled: bool)

  /** An echo reply: its bytes, the packet, and whether the IP layer keeps that packet to poll for a route. */
  datatype Echo = Echo(bytes: seq<Byte>, packet: nat, polled: bool)

  /** The IP layer needs a route: nothing told it the link-layer address, and the message goes to one node. */
  predicate NeedsRoute(c: Config, to: seq<Byte>, linkLayer: nat) {
    c.routeOver && linkLayer == 0 && to != ALL_NODES && to != ALL_ROUTERS
  }

  /** Which messages need a route: in the route-over build those to one node whose link-layer identifier is not
      known. */
  lemma RouteNeeded(c: Config, to: seq<Byte>, linkLayer: nat)
    ensures NeedsRoute(c, to, linkLayer) <==>
      && c.routeOver && linkLayer == 0
      && to != [0xFF, 2, 0, 0, 0, 0, 0, 0, 0, 0, 0, 0, 0, 0, 0, 1]
      && to != [0xFF, 2, 0, 0, 0, 0, 0, 0, 0, 0, 0, 0, 0, 0, 0, 2]
  {
    assert ALL_NODES == [0xFF, 2, 0, 0, 0, 0, 0, 0, 0, 0, 0, 0, 0, 0, 0, 1];
    assert ALL_ROUTERS == [0xFF, 2, 0, 0, 0, 0, 0, 0, 0, 0, 0, 0, 0, 0, 0, 2];
  }

  /** A message that a timer turn asks for. */
  datatype Order = Order(kind: Kind, to: seq<Byte>)

  ghost predicate Carries(m: Message, c: Config, n: Node, o: Order)
    requires |n.radio| >= 2 && StorageFits(n.storage)
  {
    m.kind == o.kind && m.iface == INTERFACE_RADIO && m.linkLayer == 0 && IsMessage(m.bytes, o.kind, c, n, o.to, 0, 0)
  }

  /** Exactly the ordered messages are sent, in order, if a packet is free for them; else none. */
  ghost predicate Sends(c: Config, n: Node, orders: seq<Order>, free: bool, before: seq<Message>, after: seq<Message>)
    requires |n.radio| >= 2 && StorageFits(n.storage)
  {
    if free then
      && |after| == |before| + |orders| && after[..|before|] == before
      && forall i | 0 <= i < |orders| :: Carries(after[|before| + i], c, n, orders[i])
    else after == before
  }

  lemma SendsNothing(c: Config, n: Node, free: bool, before: seq<Message>)
    requires |n.radio| >= 2 && StorageFits(n.storage)
    ensures Sends(c, n, [], free, before, before)
  {
  }

  lemma SendsOne(c: Config, n: Node, o: Order, free: bool, before: seq<Message>, after: seq<Message>)
    requires |n.radio| >= 2 && StorageFits(n.storage) && (!free ==> after == before)
    requires free ==> |after| == |before| + 1 && after[..|before|] == before
    requires free ==> var m := after[|before|];
      m.kind == o.kind && m.iface == 0 && m.linkLayer == 0 && IsMessage(m.bytes, o.kind, c, n, o.to, 0, 0)
    ensures Sends(c, n, [o], free, before, after)
  {
    hide IsMessage;
  }

  lemma SendsMore(c: Config, n: Node, a: seq<Order>, b: seq<Order>, free: bool, before: seq<Message>,
                  between: seq<Message>, after: seq<Message>)
    requires |n.radio| >= 2 && StorageFits(n.storage)
    requires Sends(c, n, a, free, before, between) && Sends(c, n, b, free, between, after)
    ensures Sends(c, n, a + b, free, before, after)
  {
    hide Carries;
    if free {
      assert after[..|before|] == between[..|before|];
      forall i | 0 <= i < |a + b| ensures Carries(after[|before| + i], c, n, (a + b)[i]) {
        if i < |a| {
          assert after[..|between|][|before| + i] == between[|before| + i];
          assert (a + b)[i] == a[i];
        } else {
          assert (a + b)[i] == b[i - |a|];
        }
      }
    }
  }

  /** Solicitations do not depend on more of a node than its addresses. */
  lemma SendsAlike(c: Config, n: Node, t: Node, orders: seq<Order>, free: bool, before: seq<Message>,
                   after: seq<Message>)
    requires |n.radio| >= 2 && StorageFits(n.storage) && StorageFits(t.storage) && |t.radio| == |n.radio|
    requires AddrOf(t.radio[0]) == AddrOf(n.radio[0]) && AddrOf(t.radio[1]) == AddrOf(n.radio[1])
    requires forall o | o in orders :: o.kind.Rs? || o.kind.Ns?
    ensures Sends(c, t, orders, free, before, after) ==> Sends(c, n, orders, free, before, after)
  {
    hide HasParameters, Laid, Has, AllWellFormed, SizeOfAll, BigEndian;
    if Sends(c, t, orders, free, before, after) && free {
      forall i | 0 <= i < |orders| ensures Carries(after[|before| + i], c, n, orders[i]) {
        assert Carries(after[|before| + i], c, t, orders[i]) && orders[i] in orders;
      }
    }
  }

  class ICMPv6 {
    const config: Config
    const manager: InterfaceManager
    const pool: PacketPool
    const contexts: array<ContextEntry>
    const sentRs: array<Byte>
    var storage: Storage
    /** The counter of the radio together with its timers. */
    ghost var solicitor: RouterSolicitation.Solicitor
    /** The IP layer's route requests cannot be answered at once. */
    var routesMissing: bool
    /** What was handed to the IP layer. */
    var sent: seq<Message>
    /** The echo replies handed to the IP layer. */
    var echoes: seq<Echo>

    /** All but what ties the solicitation counter to its timers. */
    ghost predicate Consistent()
      reads this`storage, this`solicitor, manager, manager.prefixList, contexts, sentRs
    {
      && manager.Valid() && manager.radioId == config.radioId && manager.idSize == config.idSize
      && 2 <= manager.prefixList.Length1 <= MAX_PREFIXES
      && pool.Valid() && sentRs !in pool.Buffers() && sentRs.Length == 2
      && GoodNode(config, Tables()) && sentRs[0] == solicitor.sent && sentRs[1] == 0
    }

    ghost predicate Valid()
      reads this`storage, this`solicitor, manager, manager.prefixList, contexts, sentRs
    {
      Consistent() && RouterSolicitation.Good(solicitor)
    }

    /** The node without its solicitor. */
    ghost function Tables(): (n: Node)
      requires manager.prefixList.Length0 == 2
      reads this`storage, manager.prefixList, contexts
      ensures |n.radio| == manager.prefixList.Length1
    {
      Node(RouterSolicitation.IDLE, storage, manager.Row(0), manager.Row(1), contexts[..])
    }

    ghost function State(): (n: Node)
      requires manager.prefixList.Length0 == 2
      reads this`storage, this`solicitor, manager.prefixList, contexts
    {
      Tables().(solicitor := solicitor)
    }

    /** Construction and `init`: no solicitation in process, nothing learned yet. */
    constructor (config: Config, manager: InterfaceManager, pool: PacketPool)
      requires ValidConfig(config) && manager.Valid() && manager.radioId == config.radioId
      requires manager.idSize == config.idSize
      requires 2 <= manager.prefixList.Length1 <= MAX_PREFIXES && pool.Valid()
      requires Good(manager.Row(INTERFACE_RADIO), LinkLocal(IdOn(config, INTERFACE_RADIO), config.idSize))
      requires Good(manager.Row(INTERFACE_UART), LinkLocal(IdOn(config, INTERFACE_UART), config.idSize))
      ensures Valid() && this.config == config && this.manager == manager && this.pool == pool && sent == []
      ensures fresh(contexts) && fresh(sentRs)
      ensures State() == Node(RouterSolicitation.IDLE, FRESH_STORAGE, manager.Row(0), manager.Row(1), FreshContexts())
    {
      hide Good, LinkLocal;
      FourBytes();
      this.config, this.manager, this.pool := config, manager, pool;
      var es := new ContextEntry[CONTEXTS](_ => FRESH_CONTEXT);
      contexts := es;
      var counters := new Byte[2](_ => 0);
      sentRs := counters;
      storage := FRESH_STORAGE;
      solicitor := RouterSolicitation.IDLE;
      sent := [];
      routesMissing := false;
      echoes := [];
      new;
      assert contexts[..] == FreshContexts();
    }

    /** What the following methods need to know of a valid node. */
    lemma Facts()
      requires Consistent()
      ensures ValidConfig(config) && StorageFits(storage) && ContextsFit(contexts[..]) && contexts.Length == 16
      ensures WellFormed(Registration(ADDRESS_REGISTRATION_LIFETIME, config.radioId), config.idSize)
      ensures forall j | 0 <= j < manager.prefixList.Length1 ::
        |AddrOf(manager.prefixList[0, j])| == 16 && manager.prefixList[0, j] == Tables().radio[j]
    {
      hide Good, RouterSolicitation.Good;
      manager.RowOf(0);
      FourBytes();
      PowersGrow(config.idSize, 8);
    }

    lemma Shape()
      requires Consistent()
      ensures manager.prefixList.Length0 == 2 && manager.prefixList.Length1 >= 2 && sentRs.Length == 2
      ensures contexts.Length == 16 && sentRs[0] == solicitor.sent && sentRs[1] == 0
      ensures StorageFits(storage) && pool.Valid() && sentRs !in pool.Buffers() && GoodNode(config, Tables())
      ensures manager.Valid() && PrefixTable.NUMBER_OF_INTERFACES == 2
    {
    }

    /** The body of a message, by its kind. */
    method BuildBody(message: IPv6Packet, kind: Kind, to: seq<Byte>, status: Byte, lifetime: nat, eui: nat)
      returns (length: nat)
      requires Consistent() && message.buffer in pool.Buffers() && message.buffer.Length == BUFFER_SIZE + 32
      requires |to| == 16 && (kind.Na? ==> WellFormed(Registration(lifetime, eui), config.idSize))
      modifies message.buffer, contexts
      ensures contexts[..] == if kind.Ra? then Refreshed(old(contexts[..])) else old(contexts[..])
      ensures length <= 1460 && HasBody(message.buffer[..], kind, old(storage), to)
      ensures Filled(old(message.buffer[..]), message.buffer[..], OptionsAt(kind), length,
        OptionsOf(kind, config, old(Tables()), lifetime, eui), config.idSize)
    {
      hide Has, SameOutside, Laid, SizeOfAll, BigEndian, AllWellFormed, WellFormed, GoodNode, Pow256, Filled, Kept;
      hide PrefixOptions, ContextOptions;
      ghost var x := message.buffer[..];
      Facts();
      match kind {
        case Rs => length := WriteRouterSolicitation(message, config);
        case Ra => length := WriteRouterAdvertisement(message, config, storage, manager, contexts);
        case Ns => length := WriteNeighborMessage(message, config, to, 0, ADDRESS_REGISTRATION_LIFETIME,
          config.radioId);
        case Na =>
          Untouched(x, 44, 45);
          PutByte(message, if storage.isRouter then 0xE0 else 0x60, 4, x, 44, 45);
          ghost var m := message.buffer[..];
          length := WriteNeighborMessage(message, config, to, status, lifetime, eui);
          FilledFrom(x, m, message.buffer[..], 64, length, [LinkLayer(config.radioId), Registration(lifetime, eui)],
            config.idSize);
      }
    }

    /** The message around its body: what the branches of send_nd_message have in common. */
    method Build(message: IPv6Packet, kind: Kind, to: seq<Byte>, status: Byte, lifetime: nat, eui: nat)
      requires Consistent() && message.buffer in pool.Buffers() && message.buffer.Length == BUFFER_SIZE + 32
      requires |to| == 16 && (kind.Na? ==> WellFormed(Registration(lifetime, eui), config.idSize))
      requires Has(message.buffer[..], 41, [0, 0, 0]) && Has(message.buffer[..], 6, [NEXT_HEADER_NOT_SET])
      modifies message.buffer, contexts
      ensures contexts[..] == if kind.Ra? then Refreshed(old(contexts[..])) else old(contexts[..])
      ensures IsMessage(message.buffer[..], kind, config, old(Tables()), to, lifetime, eui)
    {
      hide Has, SameOutside, Laid, SizeOfAll, BigEndian, AllWellFormed, WellFormed, GoodNode, Pow256, OptionsOf;
      hide Refreshed, HasBody, Filled;
      ghost var os := OptionsOf(kind, config, Tables(), lifetime, eui);
      ghost var a := message.buffer[..];
      Facts();
      Untouched(a, 0, 41);
      PutHeader(message, 7, [255], a, 0, 41);
      PutHeader(message, 24, to, a, 0, 41);
      ghost var x := message.buffer[..];
      var source := manager.prefixList[0, if kind.Rs? || kind.Ra? then 0 else 1].address.addr;
      var length := BuildBody(message, kind, to, status, lifetime, eui);
      BodyBuilt(x, message.buffer[..], OptionsAt(kind), length, os, config.idSize, to);
      Close(message, kind, source, length, to, os, storage);
    }

    /** Length, source address and type are written last. */
    method Close(message: IPv6Packet, kind: Kind, source: seq<Byte>, length: nat, ghost to: seq<Byte>,
                 ghost os: seq<NdOption>, ghost s: Storage)
      requires message.buffer.Length >= BUFFER_SIZE + 32 && length <= 1460 && |source| == 16 && |to| == 16
      requires ValidIdSize(config.idSize)
      requires AllWellFormed(os, config.idSize) && Laid(message.buffer[..], OptionsAt(kind), os, config.idSize)
      requires StorageFits(s) && HasBody(message.buffer[..], kind, s, to)
      requires Has(message.buffer[..], 7, [255]) && Has(message.buffer[..], 24, to)
      requires Has(message.buffer[..], 41, [0, 0, 0]) && Has(message.buffer[..], 6, [NEXT_HEADER_NOT_SET])
      modifies message.buffer
      ensures AllWellFormed(os, config.idSize) && Laid(message.buffer[..], OptionsAt(kind), os, config.idSize)
      ensures HasBody(message.buffer[..], kind, s, to)
      ensures Has(message.buffer[..], 7, [255]) && Has(message.buffer[..], 24, to)
      ensures Has(message.buffer[..], 41, [0, 0, 0]) && Has(message.buffer[..], 6, [NEXT_HEADER_NOT_SET])
      ensures Has(message.buffer[..], 4, BigEndian(length, 2)) && Has(message.buffer[..], 8, source)
      ensures Has(message.buffer[..], 40, [Typecode(kind)])
    {
      hide Has, SameOutside, Laid, SizeOfAll, AllWellFormed, WellFormed, Pow256;
      ghost var y := message.buffer[..];
      Untouched(y, 0, 41);
      PutHeader(message, 4, BigEndian(length, 2), y, 0, 41);
      PutHeader(message, 8, source, y, 0, 41);
      PutByte(message, Typecode(kind), 0, y, 0, 41);
      LaidKept(y, message.buffer[..], 0, 41, OptionsAt(kind), os, config.idSize);
    }

    /** Nothing that was in use before is touched, and every packet taken is given back. */
    twostate predicate Conserved()
      reads pool, pool.packets, pool.Buffers()
    {
      && pool.Used() == old(pool.Used())
      && pool.acquired - old(pool.acquired) == pool.released - old(pool.released)
      && forall i | 0 <= i < |pool.packets| && old(pool.packets[i].valid) ::
           unchanged(pool.packets[i]) && unchanged(pool.packets[i].buffer)
    }

    twostate lemma ConservedIs()
      requires pool.Used() == old(pool.Used())
      requires pool.acquired - old(pool.acquired) == pool.released - old(pool.released)
      requires forall i | 0 <= i < |pool.packets| && old(pool.packets[i].valid) ::
        unchanged(pool.packets[i]) && unchanged(pool.packets[i].buffer)
      ensures Conserved()
    {
    }

    /** send_nd_message: a message goes out exactly if Neighbor Discovery is enabled on the interface and a packet
        is free. */
    method SendNdMessage(kind: Kind, to: seq<Byte>, iface: nat, linkLayer: nat, status: Byte, lifetime: nat)
      returns (ok: bool)
      requires Consistent() && |to| == 16
      requires kind.Na? ==> WellFormed(Registration(lifetime, linkLayer), config.idSize)
      modifies this`sent, contexts, pool, pool.packets, pool.Buffers()
      ensures Consistent() && Conserved()
      ensures ok <==> iface == INTERFACE_RADIO && false in old(pool.Used())
      ensures !ok ==> sent == old(sent) && Tables() == old(Tables())
      ensures ok ==>
        Tables() == if kind.Ra? then old(Tables()).(contexts := Refreshed(old(contexts[..]))) else old(Tables())
      ensures ok ==> |sent| == |old(sent)| + 1 && sent[..|old(sent)|] == old(sent)
      ensures ok ==> var m := sent[|old(sent)|];
        && m.kind == kind && m.iface == iface && m.linkLayer == linkLayer
        && IsMessage(m.bytes, kind, config, old(Tables()), to, lifetime, linkLayer)
      ensures ok ==> var m := sent[|old(sent)|];
        && m.packet == FirstFree(old(pool.Used())) && m.packet < |pool.Used()| && !pool.Used()[m.packet]
        && (m.polled <==> NeedsRoute(config, to, linkLayer) && routesMissing)
    {
      hide *;
      Shape();
      Constants();
      pool.Sizes();
      if iface != INTERFACE_RADIO {
        ConservedIs();
        return false;
      }
      ghost var used := pool.Used();
      FreeMeans(used);
      var k := Prepare(kind, to, iface, linkLayer, status, lifetime);
      if k == |pool.packets| {
        ConservedIs();
        return false;
      }
      var polled := NeedsRoute(config, to, linkLayer) && routesMissing;
      sent := sent + [Message(kind, iface, pool.packets[k].remoteLlAddress, pool.packets[k].buffer[..], k, polled)];
      pool.CleanPacket(k);
      assert pool.Used() == used;
      ConservedIs();
      ok := true;
    }

    /** Takes a packet, if one is free, and makes it the message. */
    method Prepare(kind: Kind, to: seq<Byte>, iface: nat, linkLayer: nat, status: Byte, lifetime: nat) returns (k: nat)
      requires Consistent() && |to| == 16 && iface < 2
      requires kind.Na? ==> WellFormed(Registration(lifetime, linkLayer), config.idSize)
      modifies contexts, pool, pool.packets, pool.Buffers()
      ensures Consistent() && k == FirstFree(old(pool.Used()))
      ensures k == |pool.packets| ==> Tables() == old(Tables()) && pool.Used() == old(pool.Used())
      ensures k == |pool.packets| ==> pool.acquired == old(pool.acquired) && pool.released == old(pool.released)
      ensures k < |pool.packets| ==>
        Tables() == if kind.Ra? then old(Tables()).(contexts := Refreshed(old(contexts[..]))) else old(Tables())
      ensures k < |pool.packets| ==>
        && pool.Used() == old(pool.Used())[k := true]
        && pool.acquired == old(pool.acquired) + 1 && pool.released == old(pool.released)
        && pool.packets[k].remoteLlAddress == linkLayer
        && IsMessage(pool.packets[k].buffer[..], kind, config, old(Tables()), to, lifetime, linkLayer)
      ensures forall i | 0 <= i < |pool.packets| && i != k ::
        unchanged(pool.packets[i]) && unchanged(pool.packets[i].buffer)
    {
      hide *;
      Shape();
      Constants();
      pool.Sizes();
      ghost var n, used := Tables(), pool.Used();
      k := pool.GetUnusedPacketWithNumber();
      assert Tables() == n;
      if k < |pool.packets| {
        pool.Sizes();
        Fill(k, kind, to, iface, linkLayer, status, lifetime);
        pool.Sizes();
        assert pool.Used() == used[k := true];
      }
    }

    /** The packet that was taken becomes the message. */
    method Fill(k: nat, kind: Kind, to: seq<Byte>, iface: nat, linkLayer: nat, status: Byte, lifetime: nat)
      requires Consistent() && |to| == 16 && iface < 2 && k < |pool.packets|
      requires kind.Na? ==> WellFormed(Registration(lifetime, linkLayer), config.idSize)
      requires forall i | 41 <= i < 44 :: pool.packets[k].buffer[i] == 0
      requires pool.packets[k].buffer[6] == NEXT_HEADER_NOT_SET
      requires pool.packets[k].remoteLlAddress == 0
      modifies contexts, pool.packets[k], pool.packets[k].buffer
      ensures Consistent() && pool.packets[k].valid == old(pool.packets[k].valid)
      ensures Tables() == if kind.Ra? then old(Tables()).(contexts := Refreshed(old(contexts[..]))) else old(Tables())
      ensures pool.packets[k].remoteLlAddress == linkLayer
      ensures IsMessage(pool.packets[k].buffer[..], kind, config, old(Tables()), to, lifetime, linkLayer)
    {
      hide Has, IsMessage, GoodNode, WellFormed, Refreshed;
      ghost var n := Tables();
      StepKeepsGoodNode(config, n, Advertises);
      var message := pool.packets[k];
      ZeroCode(message.buffer[..]);
      message.transportNextHeader := ICMPV6;
      Build(message, kind, to, status, lifetime, linkLayer);
      if linkLayer != 0 {
        message.remoteLlAddress := linkLayer;
      }
      message.targetInterface := iface;
      assert Tables() == if kind.Ra? then n.(contexts := Refreshed(n.contexts)) else n;
    }

    twostate lemma StillConsistent()
      requires old(Consistent()) && manager.prefixList.Length0 == 2 && sentRs.Length == 2
      requires GoodNode(config, Tables())
      requires sentRs[0] == solicitor.sent && sentRs[1] == 0
      ensures Consistent()
    {
      hide LinkLocal;
    }

    /** The wait between two solicitations. */
    static method Wait(counter: Byte) returns (wait: nat)
      ensures counter >= 1 ==> wait == RouterSolicitation.Backoff(counter)
      ensures wait == RouterSolicitation.WaitFor(counter)
    {
      if counter >= 1 {
        RouterSolicitation.WaitIsBackoff(counter);
      }
      if counter <= 3 {
        wait := 10;
      } else if 10 * RouterSolicitation.Pow2(counter - 3) > 60 {
        wait := 60;
      } else {
        wait := 10 * RouterSolicitation.Pow2(counter - 3);
      }
    }

    /** send_RS_to_all_routers: also what a solicitation timer calls. */
    method SendRsToAllRouters(iface: nat)
      requires Consistent() && iface < 2
      modifies this`sent, this`solicitor, sentRs, contexts, pool, pool.packets, pool.Buffers()
      ensures Consistent() && Conserved()
      ensures Tables() == old(Tables())
      ensures solicitor == if iface == 0 then RouterSolicitation.Send(old(solicitor)) else old(solicitor)
      ensures |old(Tables()).radio| >= 2 && StorageFits(old(storage))
      ensures Sends(config, old(Tables()), if old(sentRs[iface]) > 0 && iface == 0 then [ASK_ALL] else [],
        false in old(pool.Used()), old(sent), sent)
    {
      hide *;
      Shape();
      AllRouters();
      RouterSolicitation.SendMeans(solicitor);
      ConservedIs();
      TablesMean();
      ghost var n, free, before := Tables(), false in pool.Used(), sent;
      SendsNothing(config, n, free, before);
      if sentRs[iface] > 0 {
        var wait := Wait(sentRs[iface]);
        sentRs[iface] := (sentRs[iface] as int + 1) % 256;
        solicitor := solicitor.(sent := sentRs[0]);
        StillConsistent();
        label sending:
        var ok := SendNdMessage(Rs, ALL_ROUTERS, iface, 0, 0, 0);
        ConservedMeans@sending();
        SendsOne(config, n, ASK_ALL, free, before, sent);
        ConservedIs();
        solicitor := solicitor.(pending := solicitor.pending + 1, waits := solicitor.waits + [wait]);
        StillConsistent();
      }
    }

    /** The guard in front of all calls but the timer's: only when no solicitation is in process. */
    method Solicit()
      requires Valid()
      modifies this`sent, this`solicitor, sentRs, contexts, pool, pool.packets, pool.Buffers()
      ensures Valid() && Conserved()
      ensures Tables() == old(Tables()) && solicitor == RouterSolicitation.Begin(old(solicitor))
      ensures |old(Tables()).radio| >= 2 && StorageFits(old(storage))
      ensures Sends(config, old(Tables()), Starts(old(solicitor), true), false in old(pool.Used()), old(sent), sent)
    {
      hide *;
      ValidMeans();
      Shape();
      RouterSolicitation.BeginMeans(solicitor);
      RouterSolicitation.StepKeepsGood(solicitor, RouterSolicitation.Wanted);
      ConservedIs();
      StartsMean(solicitor);
      SendsNothing(config, Tables(), false in pool.Used(), sent);
      if sentRs[0] == 0 {
        sentRs[0] := 1;
        solicitor := RouterSolicitation.Solicitor(1, solicitor.pending, []);
        StillConsistent();
        label sending:
        SendRsToAllRouters(0);
        ConservedMeans@sending();
        ConservedIs();
      }
      ValidMeans();
    }

    /** A solicitation timer fires. */
    method OnSolicitTimer()
      requires Valid() && solicitor.pending > 0
      modifies this`sent, this`solicitor, sentRs, contexts, pool, pool.packets, pool.Buffers()
      ensures Valid() && Conserved()
      ensures Tables() == old(Tables())
      ensures solicitor == RouterSolicitation.Step(old(solicitor), RouterSolicitation.TimerFires)
      ensures old(solicitor.sent) == 0 ==> solicitor == old(solicitor).(pending := old(solicitor.pending) - 1)
      ensures |old(Tables()).radio| >= 2 && StorageFits(old(storage))
      ensures Sends(config, old(Tables()), if old(solicitor.sent) > 0 then [ASK_ALL] else [],
        false in old(pool.Used()), old(sent), sent)
    {
      hide *;
      ValidMeans();
      Shape();
      RouterSolicitation.StepKeepsGood(solicitor, RouterSolicitation.TimerFires);
      RouterSolicitation.TimerMeans(solicitor);
      solicitor := solicitor.(pending := solicitor.pending - 1);
      StillConsistent();
      label firing:
      SendRsToAllRouters(0);
      ConservedMeans@firing();
      ConservedIs();
      ValidMeans();
    }

    /** send_RA_to_all_routers: the argument holds the number of advertisements left and the interface; `rearm` is
        the argument of the timer that is armed for the next one, 0 if there is none. */
    method SendRaToAllRouters(numberTarget: nat) returns (rearm: nat)
      requires Consistent()
      modifies this`sent, contexts, pool, pool.packets, pool.Buffers()
      ensures Consistent() && Conserved()
      ensures |old(sent)| <= |sent| <= |old(sent)| + 1 && sent[..|old(sent)|] == old(sent)
      ensures |sent| > |old(sent)| <==>
        numberTarget / 16 % 16 > 0 && numberTarget % 16 == 0 && false in old(pool.Used())
      ensures |sent| > |old(sent)| ==>
        var m := sent[|old(sent)|]; m.kind.Ra? && IsMessage(m.bytes, Ra, config, old(Tables()), ALL_ROUTERS, 0, 0)
      ensures Tables() == if |sent| > |old(sent)|
        then old(Tables()).(contexts := Refreshed(old(contexts[..]))) else old(Tables())
      ensures rearm == if numberTarget / 16 % 16 > 1 then (numberTarget / 16 % 16 - 1) * 16 + numberTarget % 16 else 0
    {
      hide *;
      Shape();
      AllRouters();
      ConservedIs();
      var left, iface := numberTarget / 16 % 16, numberTarget % 16;
      rearm := 0;
      if left > 0 {
        label sending:
        var ok := SendNdMessage(Ra, ALL_ROUTERS, iface, 0, 0, 0);
        ConservedMeans@sending();
        ConservedIs();
        left := left - 1;
        if left > 0 {
          rearm := left * 16 + iface;
        }
      }
    }

    /** Ages the contexts; `soon` says that one of them made the timer ask for an update. */
    method AgeAllContexts() returns (soon: bool)
      requires contexts.Length == 16
      modifies contexts
      ensures contexts[..] == AgeContexts(old(contexts[..])) && (soon <==> ContextSoon(old(contexts[..]), 16))
    {
      ghost var es := contexts[..];
      soon := false;
      for i := 0 to CONTEXTS
        invariant forall j | 0 <= j < i :: contexts[j] == AgeContext(es[j])
        invariant forall j | i <= j < CONTEXTS :: contexts[j] == es[j]
        invariant soon <==> ContextSoon(es, i)
      {
        var e := contexts[i];
        if e.lifetime == 3 {
          soon := true;
        } else if e.lifetime == 1 {
          contexts[i] := e.(usable := false);
        }
        if e.lifetime > 0 {
          contexts[i] := contexts[i].(lifetime := e.lifetime - 1);
        }
      }
    }

    /** Sends the messages that the neighbor cache asks for, one to each address. */
    method SendToAll(kind: Kind, addresses: seq<seq<Byte>>)
      requires Valid() && (kind.Rs? || kind.Ns?) && forall i | 0 <= i < |addresses| :: |addresses[i]| == 16
      modifies this`sent, contexts, pool, pool.packets, pool.Buffers()
      ensures Valid() && Conserved() && Tables() == old(Tables())
      ensures |old(Tables()).radio| >= 2 && StorageFits(old(storage))
      ensures Sends(config, old(Tables()), To(kind, addresses), false in old(pool.Used()), old(sent), sent)
    {
      hide *;
      ValidMeans();
      Shape();
      AllRouters();
      ConservedIs();
      ghost var n, free, before := Tables(), false in pool.Used(), sent;
      SendsNothing(config, n, free, before);
      ToMeans(kind, addresses, 0);
      for i := 0 to |addresses|
        invariant Valid() && Conserved() && Tables() == n
        invariant Sends(config, n, To(kind, addresses[..i]), free, before, sent)
      {
        ValidMeans();
        ConservedMeans();
        ToMeans(kind, addresses, i);
        ghost var between := sent;
        label sending:
        var ok := SendNdMessage(kind, addresses[i], 0, 0, 0, 0);
        ValidMeans();
        ConservedMeans@sending();
        ConservedIs();
        SendsOne(config, n, Order(kind, addresses[i]), free, between, sent);
        SendsMore(config, n, To(kind, addresses[..i]), [Order(kind, addresses[i])], free, before, between, sent);
      }
      assert addresses[..|addresses|] == addresses;
    }

    /** Counts the lifetime of the border router's information down. */
    method CountDown()
      requires Valid() && config.routeOver
      modifies this`storage
      ensures Valid()
      ensures Tables() == old(Tables()).(storage := old(storage).(abroLifetime := LifetimeLeft(old(storage))))
    {
      hide Consistent, Good, RouterSolicitation.Good;
      Shape();
      ghost var n := Tables();
      if storage.abroLifetime > 0 {
        storage := storage.(abroLifetime := storage.abroLifetime - 1);
      }
      assert Tables() == n.(storage := storage);
      StillConsistent();
    }

    /** The border router's information has expired: everything is forgotten. */
    method ForgetAll()
      requires Valid()
      modifies this`storage, manager.prefixList, contexts
      ensures Valid()
      ensures Tables() == Node(RouterSolicitation.IDLE, FRESH_STORAGE, Emptied(old(Tables()).radio),
        old(Tables()).uart, FreshContexts())
    {
      hide *;
      ValidMeans();
      Shape();
      TablesMean();
      ghost var n := Tables();
      manager.EmptyGlobals(0);
      forall i | 0 <= i < contexts.Length {
        contexts[i] := FRESH_CONTEXT;
      }
      storage := FRESH_STORAGE;
      TablesMean();
      AllFresh(contexts[..]);
      ForgettingKeepsGood(config, n);
      StillConsistent();
      ValidMeans();
    }

    lemma TablesMean()
      requires manager.prefixList.Length0 == 2
      ensures Tables() == Node(RouterSolicitation.IDLE, storage, manager.Row(0), manager.Row(1), contexts[..])
    {
    }

    /** Ages contexts and prefixes; `asks` collects their reasons for a solicitation. */
    method AgeTables() returns (asks: bool)
      requires Valid()
      modifies manager.prefixList, contexts
      ensures Valid()
      ensures RowFits(old(Tables()).radio)
      ensures Tables() == old(Tables()).(radio := AgeRow(old(Tables()).radio),
        contexts := AgeContexts(old(Tables()).contexts))
      ensures asks <==> (ContextSoon(old(Tables()).contexts, |old(Tables()).contexts|)
        || SomeExpireSoon(old(Tables()).radio, |old(Tables()).radio|)
        || CountedUpTo(old(Tables()).radio, |old(Tables()).radio|) == 0)
    {
      hide *;
      ValidMeans();
      Shape();
      TablesMean();
      ghost var n := Tables();
      manager.RowOf(0);
      asks := AgeAllContexts();
      var count, expiring := manager.AgePrefixes(0);
      if expiring {
        asks := true;
      }
      if count == 0 {
        asks := true;
      }
      TablesMean();
      AgingKeepsGood(config, n);
      StillConsistent();
      ValidMeans();
    }

    /** A reason for soliciting, if there is one. */
    method SolicitIf(reason: bool)
      requires Valid()
      modifies this`sent, this`solicitor, sentRs, contexts, pool, pool.packets, pool.Buffers()
      ensures Valid() && Conserved() && Tables() == old(Tables())
      ensures solicitor == if reason then RouterSolicitation.Begin(old(solicitor)) else old(solicitor)
      ensures |old(Tables()).radio| >= 2 && StorageFits(old(storage))
      ensures Sends(config, old(Tables()), Starts(old(solicitor), reason), false in old(pool.Used()), old(sent), sent)
    {
      hide *;
      ValidMeans();
      Shape();
      ConservedIs();
      StartsMean(solicitor);
      SendsNothing(config, Tables(), false in pool.Used(), sent);
      if reason {
        Solicit();
      }
    }

    /** The lifetime of the border router's information: counted down, a reason to solicit at 3, the end at 0. */
    method TickLifetime() returns (expired: bool)
      requires Valid() && config.routeOver
      modifies this`sent, this`solicitor, this`storage, sentRs, contexts, manager.prefixList, pool, pool.packets
      modifies pool.Buffers()
      ensures Valid() && Conserved()
      ensures expired <==> LifetimeLeft(old(storage)) == 0
      ensures solicitor
        == if LifetimeLeft(old(storage)) == 3 then RouterSolicitation.Begin(old(solicitor)) else old(solicitor)
      ensures !expired ==>
        Tables() == old(Tables()).(storage := old(storage).(abroLifetime := LifetimeLeft(old(storage))))
      ensures expired ==>
        Tables() == Node(RouterSolicitation.IDLE, FRESH_STORAGE, Emptied(old(Tables()).radio), old(Tables()).uart,
          FreshContexts())
      ensures |old(Tables()).radio| >= 2 && StorageFits(old(storage))
      ensures Sends(config, old(Tables()), Starts(old(solicitor), LifetimeLeft(old(storage)) == 3),
        false in old(pool.Used()), old(sent), sent)
    {
      hide *;
      ValidMeans();
      Shape();
      StateMeans();
      RowsOf(config, Tables());
      ghost var n, s, free, before := Tables(), solicitor, false in pool.Used(), sent;
      CountDown();
      ValidMeans();
      Shape();
      StateMeans();
      StartsMean(s);
      ghost var t := Tables();
      label counted:
      SolicitIf(storage.abroLifetime == 3);
      StateMeans();
      ConservedMeans@counted();
      ConservedIs();
      SendsAlike(config, n, t, Starts(s, storage.abroLifetime == 3), free, before, sent);
      expired := false;
      if storage.abroLifetime == 0 {
        expired := true;
        ForgetAll();
        ConservedIs();
      }
    }

    /** The first half of a turn, up to the lifetime of the border router's information. */
    method TickBorderRouter(cache: Cache) returns (expired: bool)
      requires Valid()
      modifies this`sent, this`solicitor, this`storage, sentRs, contexts, manager.prefixList, pool, pool.packets
      modifies pool.Buffers()
      ensures Valid() && Conserved()
      ensures expired <==> config.routeOver && LifetimeLeft(old(storage)) == 0
      ensures solicitor == AfterBorderRouter(config, old(storage), cache, old(solicitor))
      ensures !expired ==> Tables() == old(Tables()).(storage :=
          if config.routeOver then old(storage).(abroLifetime := LifetimeLeft(old(storage))) else old(storage))
      ensures expired ==>
        Tables() == Node(RouterSolicitation.IDLE, FRESH_STORAGE, Emptied(old(Tables()).radio), old(Tables()).uart,
          FreshContexts())
      ensures |old(Tables()).radio| >= 2 && StorageFits(old(storage))
      ensures Sends(config, old(Tables()), BorderRouterOrders(config, old(storage), cache, old(solicitor)),
        false in old(pool.Used()), old(sent), sent)
    {
      hide *;
      ValidMeans();
      Shape();
      StateMeans();
      ghost var n, s, free, before := Tables(), solicitor, false in pool.Used(), sent;
      AfterBorderRouterMeans(config, storage, cache, s);
      SolicitIf(cache.routersEmpty && !storage.isBorderRouter);
      expired := false;
      StateMeans();
      assert Tables().(storage := storage) == Tables();
      ConservedMeans();
      if config.routeOver {
        ghost var first, between := solicitor, sent;
        label counting:
        expired := TickLifetime();
        ConservedMeans@counting();
        ConservedIs();
        SendsMore(config, n, Starts(s, cache.routersEmpty && !n.storage.isBorderRouter),
          Starts(first, LifetimeLeft(n.storage) == 3), free, before, between, sent);
      }
    }

    /** The second half: what the neighbor cache asks for, contexts and prefixes. Of the neighbors that want a
        message, the early ones come before a lost router's entry is found, the late ones after. */
    method TickTables(cache: Cache, due: Due)
      requires Valid() && GoodDue(due)
      modifies this`sent, this`solicitor, sentRs, contexts, manager.prefixList, pool, pool.packets, pool.Buffers()
      ensures Valid() && Conserved() && RowFits(old(Tables()).radio)
      ensures Tables() == old(Tables()).(radio := AgeRow(old(Tables()).radio),
        contexts := AgeContexts(old(Tables()).contexts))
      ensures solicitor == AfterTables(old(Tables()), cache, old(solicitor))
      ensures |old(Tables()).radio| >= 2 && StorageFits(old(storage))
      ensures Sends(config, old(Tables()), TablesOrders(old(Tables()), cache, due, old(solicitor)),
        false in old(pool.Used()), old(sent), sent)
    {
      hide *;
      ValidMeans();
      Shape();
      RowsOf(config, Tables());
      GoodDueMeans(due);
      ghost var n, s, free, s0 := Tables(), solicitor, false in pool.Used(), sent;
      AfterTablesMeans(n, cache, s);
      TablesOrdersMean(n, cache, due, s);
      AgingKeepsAddresses(n.radio);
      SendToAll(Rs, due.routers);
      ConservedMeans();
      ghost var s1 := sent;
      var soon := AgeTables();
      ValidMeans();
      Shape();
      ghost var t := Tables();
      label aged:
      SolicitIf(soon);
      ConservedMeans@aged();
      ghost var s2, first := sent, solicitor;
      label early:
      SendToAll(Ns, due.early);
      ConservedMeans@early();
      ghost var s3 := sent;
      label losing:
      SolicitIf(cache.routerLost);
      ConservedMeans@losing();
      ghost var s4 := sent;
      label late:
      SendToAll(Ns, due.late);
      ConservedMeans@late();
      ConservedIs();
      Turned(config, n, t, due, s, first, soon, cache.routerLost, free, s0, s1, s2, s3, s4, sent);
    }

    /** ND_timeout_manager_function. What the neighbor cache does in the same turn comes in from outside: what it
        answers, and the neighbors it wants messages to be sent to. */
    method NdTimeout(cache: Cache, due: Due)
      requires Valid() && GoodDue(due)
      modifies this`sent, this`solicitor, this`storage, sentRs, contexts, manager.prefixList, pool, pool.packets
      modifies pool.Buffers()
      ensures Valid() && Conserved()
      ensures RowFits(old(State()).radio) && old(State()).radio != []
      ensures State() == NdNode.Tick(config, old(State()), cache)
      ensures |old(Tables()).radio| >= 2 && StorageFits(old(storage))
      ensures Sends(config, old(Tables()), TimeoutOrders(config, old(Tables()), cache, due, old(solicitor)),
        false in old(pool.Used()), old(sent), sent)
    {
      hide *;
      ValidMeans();
      Shape();
      StateMeans();
      RowsOf(config, Tables());
      ghost var n, s, free, before := Tables(), solicitor, false in pool.Used(), sent;
      TickMeans(config, n, s, cache);
      TimeoutOrdersMean(config, n, cache, due, s);
      var expired := TickBorderRouter(cache);
      if !expired {
        ConservedMeans();
        ghost var between, t, first := sent, Tables(), solicitor;
        ValidMeans();
        Shape();
        label tables:
        TickTables(cache, due);
        ConservedMeans@tables();
        ConservedIs();
        TablesOrdersAlike(n, t, cache, due, first);
        SendsAlike(config, n, t, TablesOrders(n, cache, due, first), free, between, sent);
        SendsMore(config, n, BorderRouterOrders(config, n.storage, cache, s), TablesOrders(n, cache, due, first),
          free, before, between, sent);
      }
      StateMeans();
    }

    // -------------------------------------------------------------------------------------------
    // Receiving
    // -------------------------------------------------------------------------------------------

    /** process_authoritative_border_router_option for the first such option; without one, or with an old one, the
        advertisement does not count. */
    method AcceptBorderRouter(payload: array<Byte>, transportLength: nat, installation: bool) returns (processing: bool)
      requires Consistent() && 40 + transportLength + 32 <= payload.Length
      modifies this`storage
      ensures Consistent() && processing == IsFresh(old(Tables()), payload[..], 40 + transportLength, installation)
      ensures Tables() == old(Tables()).(storage := storage)
      ensures processing ==>
        var found := FindBorderRouter(payload[..], 56, 40 + transportLength);
        found.At? && storage
          == WithBorderRouter(old(storage), ReadBorderRouter(payload[..], found.position), installation)
      ensures !processing ==> storage == old(storage)
    {
      hide FindBorderRouter, Consistent, GoodNode, FieldVersion, Field16, Good, Pow256;
      Shape();
      ghost var n := Tables();
      var found, actPos := FindBorderRouterOption(payload, transportLength);
      if !found {
        return false;
      }
      var o := ReadBorderRouterOption(payload, actPos);
      BorderRouterReadFits(payload[..], 40 + actPos);
      if installation {
        storage := storage.(isBorderRouter := true, isRouter := true);
      } else if o.version < storage.brVersion {
        return false;
      }
      storage := storage.(brVersion := o.version, abroLifetime := o.lifetime, brAddress := o.router);
      assert Tables() == n.(storage := storage);
      StorageKeepsGood(config, n, storage);
      StillConsistent();
      processing := true;
    }

    /** What comes before the options of an advertisement: border router, solicitations, fixed fields. */
    method TakeAdvertisement(payload: array<Byte>, transportLength: nat, installation: bool) returns (processing: bool)
      requires Valid() && 16 <= transportLength && 40 + transportLength + 32 <= payload.Length && payload != sentRs
      modifies this`storage, this`solicitor, sentRs
      ensures Valid()
      ensures processing <==>
        (config.routeOver ==> IsFresh(old(State()), payload[..], 40 + transportLength, installation))
      ensures State() == if processing
        then TakenIn(config, old(State()), payload[..], 40 + transportLength, installation) else old(State())
    {
      hide *;
      ValidMeans();
      Shape();
      StateMeans();
      ghost var n, r, d := Tables(), solicitor, payload[..];
      RouterSolicitation.StepKeepsGood(r, RouterSolicitation.Advertised);
      RouterSolicitation.AdvertisedMeans(r);
      TakenInMeans(config, n, r, d, 40 + transportLength, installation);
      processing := true;
      if config.routeOver {
        processing := AcceptBorderRouter(payload, transportLength, installation);
        StateMeans();
      }
      if processing {
        Shape();
        sentRs[0] := 0;
        solicitor := solicitor.(sent := 0);
        var s := ReadParameters(payload, storage);
        TablesMean();
        ghost var before := Tables();
        storage := s;
        TablesMean();
        ParametersFit(before.storage, d);
        StorageKeepsGood(config, before, s);
        StateMeans();
        assert Tables() == before.(storage := s);
        StillConsistent();
      }
      StateMeans();
      ValidMeans();
    }

    /** The fixed fields of an advertisement. */
    static method ReadParameters(payload: array<Byte>, s: Storage) returns (r: Storage)
      requires payload.Length >= 56
      ensures r == WithParameters(s, payload[..])
    {
      hide AnyBit;
      r := s;
      if payload[44] != 0 {
        r := r.(curHopLimit := payload[44]);
      }
      r := r.(managed := AnyBit(payload[45], 0x80));
      r := r.(otherConfig := AnyBit(payload[45], 0x40));
      r := r.(reachableTime := Word(payload[48], payload[49]) * HALF + Word(payload[50], payload[51]));
      r := r.(retransTimer := Word(payload[52], payload[53]) * HALF + Word(payload[54], payload[55]));
    }

    /** The options of an advertisement; from an installation, the last prefix goes to the serial line as well. After a
        copy that left its memory nothing is said about the node. */
    method LearnAdvertisement(payload: array<Byte>, transportLength: nat, installation: bool)
      returns (ending: Ending, linkLayer: nat)
      requires Valid() && 16 <= transportLength && 40 + transportLength + 32 <= payload.Length
      modifies manager.prefixList, contexts
      ensures ValidConfig(config) && |old(State()).contexts| == 16
      ensures ending == LearnedEnding(config, payload[..], 40 + transportLength, installation)
      ensures ending != Spilled ==> Valid()
      ensures ending != Spilled ==>
        && linkLayer == LinkLayerIn(Walk(RouterAdvertisements, payload[..], 56, 40 + transportLength,
          config.idSize).options)
        && State() == Learned(config, old(State()), payload[..], 40 + transportLength, installation)
    {
      hide *;
      ValidMeans();
      Shape();
      StateMeans();
      StateIsGood();
      GoodParts(config, State());
      ghost var n, d := State(), payload[..];
      LearnedKeepsGood(config, n, d, 40 + transportLength, installation);
      ShowsIs(n);
      var lastPrefix: nat;
      ending, linkLayer, lastPrefix := LearnOptions(payload, transportLength, config, manager, contexts, n);
      if ending == Spilled {
        return;
      }
      ghost var m := LearnAll(config, n, Walk(RouterAdvertisements, d, 56, 40 + transportLength,
        config.idSize).options);
      if ending == Complete && installation {
        var inside, next := ProcessPrefixInformation(payload, lastPrefix, 1, config, manager, contexts, m);
        if !inside {
          return Spilled, linkLayer;
        }
      }
      ShownIs(Learned(config, n, d, 40 + transportLength, installation));
      StillConsistent();
      ValidMeans();
    }

    lemma StateIsGood()
      requires Valid()
      ensures GoodNode(config, State())
    {
      hide Good, StorageFits, ContextsFit, RouterSolicitation.Good;
    }

    lemma ShowsIs(n: Node)
      requires Consistent() && n == State()
      ensures Shows(manager, contexts, config, n)
    {
    }

    /** Tables that show a node are that node's. */
    lemma ShownIs(n: Node)
      requires Shows(manager, contexts, config, n) && n.storage == storage && n.solicitor == solicitor
      requires GoodNode(config, n)
      ensures manager.prefixList.Length0 == 2 && State() == n && GoodNode(config, Tables())
    {
      hide Good, StorageFits, ContextsFit, RouterSolicitation.Good;
      RouterSolicitation.IdleIsGood();
    }

    /** The validation and processing of an advertisement; what is to be done afterwards comes out. */
    method DigestAdvertisement(payload: array<Byte>, installation: bool) returns (reaction: Reaction)
      requires Valid() && payload != sentRs && Arrived(payload)
      modifies this`storage, this`solicitor, sentRs, manager.prefixList, contexts
      ensures ValidConfig(config) && |old(State()).contexts| == 16
      ensures reaction == Heard(config, old(State()), payload[..], installation).1
      ensures reaction != Spills ==> Valid() && State() == Heard(config, old(State()), payload[..], installation).0
    {
      hide *;
      ValidMeans();
      Shape();
      StateMeans();
      StateIsGood();
      GoodParts(config, State());
      ghost var n, d := State(), payload[..];
      ArrivedMeans(payload);
      HeardMeans(config, n, d, installation);
      var transportLength := Word(payload[4], payload[5]);
      if !IsLinkLocal(payload[8..24]) || transportLength < 16 {
        return Dropped;
      }
      HearMeans(config, n, d, 40 + transportLength, installation);
      var processing := TakeAdvertisement(payload, transportLength, installation);
      if !processing {
        return Dropped;
      }
      var ending, linkLayer := LearnAdvertisement(payload, transportLength, installation);
      if ending == Spilled {
        return Spills;
      }
      StateMeans();
      if ending == ZeroLength {
        return Dropped;
      }
      if installation {
        return if config.routeOver then Relayed else Configured;
      }
      if config.routeOver && storage.isRouter {
        return Relayed;
      }
      return Registers(linkLayer);
    }

    /** Packet k is given back, once; what else is in use stays untouched, and other packets taken are given back. */
    twostate predicate Released(k: nat)
      reads pool, pool.packets, pool.Buffers()
    {
      && k < |pool.packets| && pool.Used() == old(pool.Used())[k := false]
      && pool.released - old(pool.released) == pool.acquired - old(pool.acquired) + 1
      && forall i | 0 <= i < |pool.packets| && i != k && old(pool.packets[i].valid) ::
           unchanged(pool.packets[i]) && unchanged(pool.packets[i].buffer)
    }

    twostate lemma ReleasedIs(k: nat)
      requires k < |pool.packets| && pool.Used() == old(pool.Used())[k := false]
      requires pool.released - old(pool.released) == pool.acquired - old(pool.acquired) + 1
      requires forall i | 0 <= i < |pool.packets| && i != k && old(pool.packets[i].valid) ::
        unchanged(pool.packets[i]) && unchanged(pool.packets[i].buffer)
      ensures Released(k)
    {
    }

    twostate lemma ReleasedMeans(k: nat)
      requires Released(k)
      ensures k < |pool.packets| && pool.Used() == old(pool.Used())[k := false]
      ensures pool.released - old(pool.released) == pool.acquired - old(pool.acquired) + 1
      ensures forall i | 0 <= i < |pool.packets| && i != k && old(pool.packets[i].valid) ::
        unchanged(pool.packets[i]) && unchanged(pool.packets[i].buffer)
    {
    }

    /** A router advertisement: digested, then passed on to all routers or answered with a registration. If a copy
        left its memory, `intact` is false and nothing is said about the node. */
    method ReceiveRouterAdvertisement(k: nat) returns (intact: bool)
      requires Valid() && k < |pool.packets| && pool.packets[k].valid && Arrived(pool.packets[k].buffer)
      modifies this`sent, this`solicitor, this`storage, sentRs, contexts, manager.prefixList, pool, pool.packets
      modifies pool.Buffers()
      ensures ValidConfig(config) && |old(State()).contexts| == 16
      ensures intact <==>
        !Heard(config, old(State()), old(pool.packets[k].buffer[..]), old(pool.packets[k].ndInstallation)).1.Spills?
      ensures intact ==> Valid() && Released(k)
      ensures intact ==>
        var (n, reaction) := Heard(config, old(State()), old(pool.packets[k].buffer[..]),
          old(pool.packets[k].ndInstallation));
        && State() == (if reaction.Relayed? then n.(contexts := Refreshed(n.contexts)) else n)
        && |n.radio| >= 2 && StorageFits(n.storage)
        && AnswersAdvertisement(config, n, reaction, old(pool.packets[k].buffer[..]), false in old(pool.Used()),
          old(sent), sent)
    {
      hide *;
      ValidMeans();
      Shape();
      StateMeans();
      pool.Sizes();
      ArrivedMeans(pool.packets[k].buffer);
      var reaction := DigestAdvertisement(pool.packets[k].buffer, pool.packets[k].ndInstallation);
      if reaction == Spills {
        return false;
      }
      ArrivedMeans(pool.packets[k].buffer);
      label answering:
      Answer(k, reaction);
      ReleasedMeans@answering(k);
      ReleasedIs(k);
      intact := true;
    }

    /** What follows an advertisement, in its order: a packet that is passed on is given back first. */
    method Answer(k: nat, reaction: Reaction)
      requires Valid() && k < |pool.packets| && pool.packets[k].valid && pool.packets[k].buffer.Length >= 40
      modifies this`sent, contexts, pool, pool.packets, pool.Buffers()
      ensures Valid() && Released(k)
      ensures State()
        == (if reaction.Relayed? then old(State()).(contexts := Refreshed(old(State()).contexts)) else old(State()))
      ensures |old(State()).radio| >= 2 && StorageFits(old(State()).storage)
      ensures AnswersAdvertisement(config, old(State()), reaction, old(pool.packets[k].buffer[..]),
        false in old(pool.Used()), old(sent), sent)
    {
      hide *;
      ValidMeans();
      Shape();
      StateMeans();
      TablesMean();
      pool.Sizes();
      AllRouters();
      ghost var n, d, used, before := State(), pool.packets[k].buffer[..], pool.Used(), sent;
      var source := pool.packets[k].buffer[8..24];
      if reaction.Relayed? {
        Relay(k);
      } else if reaction.Registers? {
        SendAndRelease(k, Ns, source, reaction.linkLayer);
      } else {
        pool.CleanPacket(k);
        ReleasedIs(k);
      }
      StateMeans();
      ValidMeans();
      AnswersIs(config, n, reaction, d, false in used, before, sent);
    }

    method Relay(k: nat)
      requires Consistent() && k < |pool.packets| && pool.packets[k].valid
      modifies this`sent, contexts, pool, pool.packets, pool.Buffers()
      ensures Consistent() && Released(k)
      ensures Tables() == old(Tables()).(contexts := Refreshed(old(contexts[..])))
      ensures |sent| == |old(sent)| + 1 && sent[..|old(sent)|] == old(sent)
      ensures var m := sent[|old(sent)|]; m.kind.Ra? && IsMessage(m.bytes, Ra, config, old(Tables()), ALL_ROUTERS, 0, 0)
    {
      hide *;
      Shape();
      pool.Sizes();
      pool.CleanPacket(k);
      assert pool.Used()[k] == false;
      label relaying:
      var rearm := SendRaToAllRouters(16);
      ConservedMeans@relaying();
      ReleasedIs(k);
    }

    /** Sends a message while packet k is still in use, and gives k back. */
    method SendAndRelease(k: nat, kind: Kind, source: seq<Byte>, linkLayer: nat)
      requires Consistent() && k < |pool.packets| && pool.packets[k].valid && |source| == 16 && (kind.Ra? || kind.Ns?)
      modifies this`sent, contexts, pool, pool.packets, pool.Buffers()
      ensures Consistent() && Released(k)
      ensures |old(sent)| <= |sent| <= |old(sent)| + 1 && sent[..|old(sent)|] == old(sent)
      ensures |sent| > |old(sent)| <==> false in old(pool.Used())
      ensures |sent| > |old(sent)| ==> Answered(sent[|old(sent)|], kind, config, old(Tables()), source, linkLayer)
      ensures Tables() == if |sent| > |old(sent)| && kind.Ra?
        then old(Tables()).(contexts := Refreshed(old(contexts[..]))) else old(Tables())
    {
      hide *;
      Shape();
      AllRouters();
      pool.Sizes();
      ghost var n := Tables();
      var ok := SendNdMessage(kind, source, 0, linkLayer, 0, 0);
      ConservedMeans();
      pool.Sizes();
      pool.CleanPacket(k);
      ReleasedIs(k);
      if ok {
        AnsweredIs(sent[|sent| - 1], kind, config, n, source, linkLayer);
      }
    }

    /** The checks of a router solicitation, and the walk over its options. */
    method DigestSolicitation(payload: array<Byte>) returns (accepted: bool, linkLayer: nat)
      requires Valid() && Arrived(payload)
      ensures ValidConfig(config) && payload.Length >= 1532 && LengthOf(payload[..]) <= 1460
      ensures accepted == AcceptsRs(config, storage, payload[..])
      ensures accepted ==> linkLayer == SolicitedBy(config, payload[..])
    {
      hide *;
      StateIsGood();
      ValidMeans();
      Shape();
      GoodParts(config, State());
      ArrivedMeans(payload);
      AcceptsRsMeans(config, storage, payload[..]);
      if !storage.isRouter || (config.routeOver && !storage.isBorderRouter && storage.brAddress == NULL_ADDR) {
        return false, 0;
      }
      var transportLength := Word(payload[4], payload[5]);
      if transportLength < 8 {
        return false, 0;
      }
      accepted, linkLayer := WalkSolicitation(payload, 8, transportLength, config.idSize);
    }

    /** A router solicitation is answered with an advertisement, by a router that knows its border router. */
    method ReceiveRouterSolicitation(k: nat)
      requires Valid() && k < |pool.packets| && pool.packets[k].valid && Arrived(pool.packets[k].buffer)
      modifies this`sent, contexts, pool, pool.packets, pool.Buffers()
      ensures Valid() && Released(k) && ValidConfig(config)
      ensures |old(sent)| <= |sent| <= |old(sent)| + 1 && sent[..|old(sent)|] == old(sent)
      ensures |sent| > |old(sent)| <==>
        AcceptsRs(config, old(storage), old(pool.packets[k].buffer[..])) && false in old(pool.Used())
      ensures Tables() == if |sent| > |old(sent)|
        then old(Tables()).(contexts := Refreshed(old(contexts[..]))) else old(Tables())
      ensures |sent| > |old(sent)| ==> Answered(sent[|old(sent)|], Ra, config, old(Tables()),
          old(pool.packets[k].buffer[..])[8..24], SolicitedBy(config, old(pool.packets[k].buffer[..])))
    {
      hide *;
      ValidMeans();
      Shape();
      pool.Sizes();
      ArrivedMeans(pool.packets[k].buffer);
      var source := pool.packets[k].buffer[8..24];
      var accepted, linkLayer := DigestSolicitation(pool.packets[k].buffer);
      if accepted {
        label answering:
        SendAndRelease(k, Ra, source, linkLayer);
        ReleasedMeans@answering(k);
        ReleasedIs(k);
      } else {
        pool.CleanPacket(k);
        ReleasedIs(k);
      }
      ValidMeans();
    }

    /** One confirmation, if a packet is free for it. */
    method Confirm(source: seq<Byte>, lifetime: nat, eui: nat, ghost n: Node, ghost rs: seq<NdOption>,
                   ghost before: seq<Message>)
      requires Valid() && |source| == 16 && n == Tables() && lifetime < Pow256(2) && ValidConfig(config)
      requires |n.radio| >= 2 && StorageFits(n.storage) && Confirms(config, n, source, rs, before, sent)
      modifies this`sent, contexts, pool, pool.packets, pool.Buffers()
      ensures Valid() && Conserved() && Tables() == n
      ensures Confirms(config, n, source, if false in old(pool.Used()) then rs + [Registration(lifetime, eui)] else rs,
        before, sent)
    {
      hide *;
      StateIsGood();
      ValidMeans();
      Shape();
      GoodParts(config, State());
      AllRouters();
      ghost var between := sent;
      CutOff(eui, lifetime, config.idSize);
      var ok := SendNdMessage(Na, source, 0, eui % Pow256(config.idSize), 0, lifetime);
      if ok {
        ConfirmsMore(config, n, source, rs, before, between, sent, lifetime, eui);
      }
      ValidMeans();
    }

    /** The loop over the options of a message between neighbors; each registration in a solicitation is confirmed
        at once. What the neighbor cache makes of it is not modelled; nothing that is sent depends on it. */
    method WalkNeighborMessage(k: nat, fromNs: bool, source: seq<Byte>, transportLength: nat)
      requires Valid() && k < |pool.packets| && pool.packets[k].valid && ValidConfig(config) && |source| == 16
      requires 24 <= transportLength <= 1460 && pool.packets[k].buffer.Length >= 1532
      modifies this`sent, contexts, pool, pool.packets, pool.Buffers()
      ensures Valid() && Conserved() && Tables() == old(Tables())
      ensures |old(Tables()).radio| >= 2 && StorageFits(old(storage))
      ensures var os := Walk(NeighborMessages, old(pool.packets[k].buffer[..]), 64, 40 + transportLength,
        config.idSize).options;
        Confirms(config, old(Tables()), source, if fromNs && false in old(pool.Used()) then Registrations(os) else [],
          old(sent), sent)
    {
      hide *;
      OptionTypes();
      ValidMeans();
      Shape();
      StateMeans();
      GoodParts(config, Tables());
      pool.Sizes();
      var payload, w := pool.packets[k].buffer, config.idSize;
      ghost var d, n, before, answering := payload[..], Tables(), sent, fromNs && false in pool.Used();
      ghost var done: seq<NdOption> := [];
      ConfirmsNothing(config, n, source, before);
      ConservedIs();
      var actPos: nat := 24;
      WalkingStarts(NeighborMessages, d, 64, 40 + transportLength, w);
      while actPos < transportLength && payload[40 + actPos + 1] > 0
        invariant Valid() && Conserved() && Tables() == n && payload[..] == d
        invariant Walking(NeighborMessages, d, 64, 40 + actPos, 40 + transportLength, w, done)
        invariant Confirms(config, n, source, if answering then Registrations(done) else [], before, sent)
        decreases transportLength - actPos
      {
        ghost var at := 40 + actPos;
        ConservedMeans();
        NothingCopied(d, at);
        WalkingTurns(NeighborMessages, d, 64, at, 40 + transportLength, w, done);
        TurnMeans(NeighborMessages, d, at, w);
        RegistrationsMore(done, d, at, w);
        if payload[40 + actPos] == SOURCE_LL_ADDRESS {
          var linkLayer;
          linkLayer, actPos := ReadLinkLayerOption(payload, actPos, w);
        } else if payload[40 + actPos] == ADDRESS_REGISTRATION {
          var lifetime, eui := ReadRegistrationOption(payload, actPos);
          RegistrationFits(d, at);
          actPos := actPos + 16;
          if fromNs {
            label confirming:
            Confirm(source, lifetime, eui, n, if answering then Registrations(done) else [], before);
            ConservedMeans@confirming();
          }
        } else {
          actPos := actPos + InBytes(payload[40 + actPos + 1]);
        }
        ConservedIs();
        done := done + Turn(NeighborMessages, d, at, w).0;
      }
      WalkingStops(NeighborMessages, d, 64, 40 + actPos, 40 + transportLength, w, done);
    }

    /** A message between neighbors. */
    method ReceiveNeighborMessage(k: nat, fromNs: bool)
      requires Valid() && k < |pool.packets| && pool.packets[k].valid && Arrived(pool.packets[k].buffer)
      modifies this`sent, contexts, pool, pool.packets, pool.Buffers()
      ensures Valid() && Released(k) && ValidConfig(config) && Tables() == old(Tables())
      ensures |old(Tables()).radio| >= 2 && StorageFits(old(storage)) && pool.packets[k].buffer.Length >= 1532
      ensures Confirms(config, old(Tables()), old(pool.packets[k].buffer[..])[8..24],
        ToConfirm(config, old(pool.packets[k].buffer[..]), fromNs && false in old(pool.Used())), old(sent), sent)
    {
      hide *;
      StateIsGood();
      ValidMeans();
      Shape();
      StateMeans();
      GoodParts(config, State());
      pool.Sizes();
      var payload := pool.packets[k].buffer;
      ArrivedMeans(payload);
      ToConfirmMeans(config, payload[..], fromNs && false in pool.Used());
      var transportLength := Word(payload[4], payload[5]);
      var source := payload[8..24];
      ConfirmsNothing(config, Tables(), source, sent);
      if transportLength < 24 || (payload[48] == 0xFF && payload[49] == 0x02) {
        pool.CleanPacket(k);
        ReleasedIs(k);
        return;
      }
      WalkNeighborMessage(k, fromNs, source, transportLength);
      ConservedMeans();
      pool.CleanPacket(k);
      ReleasedIs(k);
    }

    /** The common checks of a message, and what its type asks for. */
    method Dispatch(k: nat) returns (intact: bool)
      requires Valid() && k < |pool.packets| && pool.packets[k].valid && Arrived(pool.packets[k].buffer)
      modifies this`sent, this`solicitor, this`storage, sentRs, contexts, manager.prefixList, pool, pool.packets
      modifies pool.Buffers()
      ensures GoodNode(config, old(State())) && |old(State()).radio| >= 2 && pool.packets[k].buffer.Length >= 1532
      ensures LengthOf(old(pool.packets[k].buffer[..])) <= 1460
      ensures intact <==> !Harms(config, old(State()), old(pool.packets[k].buffer[..]),
        old(pool.packets[k].targetInterface), old(pool.packets[k].ndInstallation))
      ensures intact ==> Valid() && Released(k)
      ensures intact ==> Reacted(config, old(State()), State(), old(pool.packets[k].buffer[..]),
        old(pool.packets[k].targetInterface), old(pool.packets[k].ndInstallation), false in old(pool.Used()),
        old(sent), sent)
    {
      hide *;
      MessageTypes();
      ValidMeans();
      StateIsGood();
      Shape();
      StateMeans();
      TablesMean();
      GoodParts(config, State());
      pool.Sizes();
      var message := pool.packets[k];
      ArrivedMeans(message.buffer);
      ghost var n, d, iface, installation, free, before :=
        State(), message.buffer[..], message.targetInterface, message.ndInstallation, false in pool.Used(), sent;
      intact := true;
      HarmsMeans(config, n, d, iface, installation);
      if message.targetInterface != 0 || message.buffer[7] != 255 || message.buffer[41] != 0 {
        pool.CleanPacket(k);
        ReleasedIs(k);
        ReactedFailing(config, n, d, iface, installation, free, before);
      } else if message.buffer[40] == ROUTER_SOLICITATION {
        ReceiveRouterSolicitation(k);
        StateMeans();
        ReactedRs(config, n, Tables(), State(), d, installation, free, before, sent);
      } else if message.buffer[40] == ROUTER_ADVERTISEMENT {
        intact := ReceiveRouterAdvertisement(k);
        if !intact {
          return;
        }
        ReactedRa(config, n, State(), d, installation, free, before, sent);
      } else if message.buffer[40] == NEIGHBOR_SOLICITATION || message.buffer[40] == NEIGHBOR_ADVERTISEMENT {
        ReceiveNeighborMessage(k, message.buffer[40] == NEIGHBOR_SOLICITATION);
        StateMeans();
        ReactedNeighbor(config, n, d, installation, free, before, sent);
      } else {
        pool.CleanPacket(k);
        ReleasedIs(k);
        ReactedFailing(config, n, d, iface, installation, free, before);
      }
      StateMeans();
    }

    /** An echo request goes back in its own packet, with the addresses exchanged and the type changed. The packet is
        given back unless the IP layer keeps it for polling. */
    method AnswerEcho(k: nat)
      requires Valid() && k < |pool.packets| && pool.packets[k].valid && Arrived(pool.packets[k].buffer)
      modifies this`echoes, pool, pool.packets[k], pool.packets[k].buffer
      ensures Valid() && State() == old(State()) && sent == old(sent) && pool.packets[k].buffer.Length >= 1532
      ensures |echoes| == |old(echoes)| + 1 && echoes[..|old(echoes)|] == old(echoes)
      ensures var e, d := echoes[|old(echoes)|], old(pool.packets[k].buffer[..]);
        && e.bytes == EchoReply(d) && e.packet == k
        && (e.polled <==> config.routeOver && d[8..24] != ALL_NODES && d[8..24] != ALL_ROUTERS && routesMissing)
      ensures !echoes[|old(echoes)|].polled ==> Released(k)
      ensures echoes[|old(echoes)|].polled ==> pool.Used() == old(pool.Used())
    {
      hide *;
      ValidMeans();
      Shape();
      StateMeans();
      pool.Sizes();
      ArrivedMeans(pool.packets[k].buffer);
      var polled := WriteEcho(k);
      if !polled {
        pool.CleanPacket(k);
        ReleasedIs(k);
      }
      ValidMeans();
      StateMeans();
    }

    /** The reply is written into the packet and handed to the IP layer. */
    method WriteEcho(k: nat) returns (polled: bool)
      requires Consistent() && pool.Valid() && k < |pool.packets| && Arrived(pool.packets[k].buffer)
      modifies this`echoes, pool.packets[k], pool.packets[k].buffer
      ensures Consistent() && Tables() == old(Tables()) && pool.Used() == old(pool.Used())
      ensures pool.packets[k].buffer.Length >= 1532
      ensures |echoes| == |old(echoes)| + 1 && echoes[..|old(echoes)|] == old(echoes)
      ensures var e, d := echoes[|old(echoes)|], old(pool.packets[k].buffer[..]);
        && e.bytes == EchoReply(d) && e.packet == k && e.polled == polled
        && (polled <==> config.routeOver && d[8..24] != ALL_NODES && d[8..24] != ALL_ROUTERS && routesMissing)
    {
      hide *;
      Shape();
      pool.Sizes();
      var message := pool.packets[k];
      ArrivedMeans(message.buffer);
      ghost var used, d := pool.Used(), message.buffer[..];
      var to := message.buffer[8..24];
      assert to == d[8..24];
      WriteEchoReply(message);
      message.targetInterface := 2;
      polled := config.routeOver && to != ALL_NODES && to != ALL_ROUTERS && routesMissing;
      echoes := echoes + [Echo(message.buffer[..], k, polled)];
      pool.Sizes();
      assert pool.Used() == used;
    }

    /** An ICMPv6 packet whose checksum field is zeroed, by its type. */
    method Handle(k: nat) returns (intact: bool, ghost released: bool)
      requires Valid() && k < |pool.packets| && pool.packets[k].valid && Arrived(pool.packets[k].buffer)
      modifies this`sent, this`echoes, this`solicitor, this`storage, sentRs, contexts, manager.prefixList
      modifies pool, pool.packets, pool.Buffers()
      ensures released ==> intact && Released(k)
      ensures intact && !released ==> pool.Used() == old(pool.Used())
      ensures intact ==> Valid()
      ensures GoodNode(config, old(State())) && |old(State()).radio| >= 2 && pool.packets[k].buffer.Length >= 1532
      ensures LengthOf(old(pool.packets[k].buffer[..])) <= 1460
      ensures var d := old(pool.packets[k].buffer[..]); d[40] == RPL_CONTROL_MESSAGE && config.rpl ==>
        intact && !released && State() == old(State()) && sent == old(sent)
      ensures var d := old(pool.packets[k].buffer[..]); d[40] == ECHO_REQUEST ==>
        intact && State() == old(State()) && sent == old(sent)
        && |echoes| == |old(echoes)| + 1 && echoes[|old(echoes)|].bytes == EchoReply(d)
        && (released <==> !echoes[|old(echoes)|].polled)
      ensures var d := old(pool.packets[k].buffer[..]); d[40] == ECHO_REPLY ==>
        intact && released && State() == old(State()) && sent == old(sent)
      ensures var d := old(pool.packets[k].buffer[..]); IsRest(config, d) ==>
        (intact <==> !Harms(config, old(State()), d, old(pool.packets[k].targetInterface),
          old(pool.packets[k].ndInstallation)))
      ensures var d := old(pool.packets[k].buffer[..]); IsRest(config, d) && intact ==>
        released && Reacted(config, old(State()), State(), d,
          old(pool.packets[k].targetInterface), old(pool.packets[k].ndInstallation), false in old(pool.Used()),
          old(sent), sent)
    {
      hide *;
      MessageTypes();
      ValidMeans();
      StateIsGood();
      Shape();
      StateMeans();
      TablesMean();
      pool.Sizes();
      var message := pool.packets[k];
      ArrivedMeans(message.buffer);
      RestMeans(config, message.buffer[..]);
      intact, released := true, true;
      if message.buffer[40] == ECHO_REQUEST {
        AnswerEcho(k);
        released := !echoes[|echoes| - 1].polled;
      } else if message.buffer[40] == ECHO_REPLY {
        pool.CleanPacket(k);
        ReleasedIs(k);
      } else if message.buffer[40] == RPL_CONTROL_MESSAGE && config.rpl {
        released := false;
      } else {
        intact := Dispatch(k);
        released := intact;
      }
    }

    /** `receive`. The checksum field is zeroed; a wrong checksum does not make a message be dropped. What is no ICMPv6
        packet, or goes to RPL, is left to others and not given back. If a copy left its memory, `intact` is false and
        nothing is said about the node. */
    method Receive(k: nat) returns (intact: bool, ghost released: bool)
      requires Valid() && k < |pool.packets| && pool.packets[k].valid && Arrived(pool.packets[k].buffer)
      modifies this`sent, this`echoes, this`solicitor, this`storage, sentRs, contexts, manager.prefixList
      modifies pool, pool.packets, pool.Buffers()
      ensures released ==> intact && Released(k)
      ensures intact && !released ==> pool.Used() == old(pool.Used())
      ensures intact ==> Valid()
      ensures GoodNode(config, old(State())) && |old(State()).radio| >= 2
      ensures Treats(config, old(State()), State(), old(pool.packets[k].transportNextHeader),
        old(pool.packets[k].buffer[..]), old(pool.packets[k].targetInterface), old(pool.packets[k].ndInstallation),
        false in old(pool.Used()), old(Log(sent, echoes)), Log(sent, echoes), intact, released)
    {
      hide *;
      ValidMeans();
      StateIsGood();
      Shape();
      StateMeans();
      TablesMean();
      GoodParts(config, State());
      pool.Sizes();
      var message := pool.packets[k];
      ArrivedMeans(message.buffer);
      ghost var n, used, d, stored := State(), pool.Used(), message.buffer[..], message.transportNextHeader;
      ghost var iface, installation, free := message.targetInterface, message.ndInstallation, false in pool.Used();
      ghost var before := Log(sent, echoes);
      IcmpMeans(stored, d);
      KindsOfPackets(config, stored, d);
      ZeroedMeans(d);
      var nextHeader := message.TransportNextHeader();
      pool.Sizes();
      assert pool.Used() == used;
      intact, released := true, false;
      if nextHeader != ICMPV6 {
        TreatsIs(config, n, n, stored, d, iface, installation, free, before, before, true, false);
        return;
      }
      var correct := message.CheckChecksum();
      ArrivedIs(message.buffer);
      label handling:
      intact, released := Handle(k);
      if released {
        ReleasedMeans@handling(k);
        ReleasedIs(k);
      }
      TreatsIs(config, n, State(), stored, d, iface, installation, free, before, Log(sent, echoes), intact, released);
    }

    lemma StateMeans()
      requires manager.prefixList.Length0 == 2
      ensures State() == Tables().(solicitor := solicitor)
      ensures Tables().storage == storage
    {
    }

    lemma ValidMeans()
      ensures Valid() <==> Consistent() && RouterSolicitation.Good(solicitor)
    {
    }

    twostate lemma ConservedMeans()
      requires Conserved()
      ensures pool.Used() == old(pool.Used())
      ensures pool.acquired - old(pool.acquired) == pool.released - old(pool.released)
      ensures forall i | 0 <= i < |pool.packets| && old(pool.packets[i].valid) ::
        unchanged(pool.packets[i]) && unchanged(pool.packets[i].buffer)
    {
    }
  }

  lemma AllFresh(es: seq<ContextEntry>)
    requires |es| == 16 && forall i | 0 <= i < |es| :: es[i] == FRESH_CONTEXT
    ensures es == FreshContexts()
  {
  }

  lemma ForgettingKeepsGood(c: Config, n: Node)
    requires GoodNode(c, n) && n.solicitor == RouterSolicitation.IDLE
    ensures n.radio != []
    ensures GoodNode(c, Node(RouterSolicitation.IDLE, FRESH_STORAGE, Emptied(n.radio), n.uart, FreshContexts()))
  {
    hide LinkLocal, Good;
    FourBytes();
    AgingKeepsRow(n.radio, LinkLocal(IdOn(c, INTERFACE_RADIO), c.idSize));
    RowsOf(c, n);
  }

  lemma AgingKeepsGood(c: Config, n: Node)
    requires GoodNode(c, n)
    ensures RowFits(n.radio) && |n.contexts| == 16
    ensures GoodNode(c, n.(radio := AgeRow(n.radio), contexts := AgeContexts(n.contexts)))
  {
    hide LinkLocal, Good, Pow256, StorageFits, IdOn, RouterSolicitation.Good;
    RowsOf(c, n);
    AgingKeepsRow(n.radio, LinkLocal(IdOn(c, INTERFACE_RADIO), c.idSize));
  }

  /** The solicitor after the first and after the second half of a turn. */
  ghost function AfterBorderRouter(c: Config, s: Storage, cache: Cache,
                                   r: RouterSolicitation.Solicitor): RouterSolicitation.Solicitor {
    var first := if cache.routersEmpty && !s.isBorderRouter then RouterSolicitation.Begin(r) else r;
    if c.routeOver && LifetimeLeft(s) == 3 then RouterSolicitation.Begin(first) else first
  }

  ghost predicate TablesWant(n: Node)
    requires RowFits(n.radio)
  {
    ContextSoon(n.contexts, |n.contexts|) || SomeExpireSoon(n.radio, |n.radio|) || CountedUpTo(n.radio, |n.radio|) == 0
  }

  ghost function AfterTables(n: Node, cache: Cache, r: RouterSolicitation.Solicitor): RouterSolicitation.Solicitor
    requires RowFits(n.radio)
  {
    var first := if TablesWant(n) then RouterSolicitation.Begin(r) else r;
    if cache.routerLost then RouterSolicitation.Begin(first) else first
  }

  lemma AfterBorderRouterMeans(c: Config, s: Storage, cache: Cache, r: RouterSolicitation.Solicitor)
    ensures var first := if cache.routersEmpty && !s.isBorderRouter then RouterSolicitation.Begin(r) else r;
      AfterBorderRouter(c, s, cache, r)
        == if c.routeOver && LifetimeLeft(s) == 3 then RouterSolicitation.Begin(first) else first
    ensures var noRouter := cache.routersEmpty && !s.isBorderRouter;
      var first := if noRouter then RouterSolicitation.Begin(r) else r;
      && (!c.routeOver ==> BorderRouterOrders(c, s, cache, r) == Starts(r, noRouter))
      && (c.routeOver ==>
            BorderRouterOrders(c, s, cache, r) == Starts(r, noRouter) + Starts(first, LifetimeLeft(s) == 3))
  {
  }

  lemma AfterTablesMeans(n: Node, cache: Cache, r: RouterSolicitation.Solicitor)
    requires RowFits(n.radio)
    ensures TablesWant(n) <==>
      (ContextSoon(n.contexts, |n.contexts|) || SomeExpireSoon(n.radio, |n.radio|)
        || CountedUpTo(n.radio, |n.radio|) == 0)
    ensures var first := if TablesWant(n) then RouterSolicitation.Begin(r) else r;
      AfterTables(n, cache, r) == if cache.routerLost then RouterSolicitation.Begin(first) else first
  {
  }

  /** One turn, as its two halves. */
  lemma TickMeans(c: Config, n: Node, r: RouterSolicitation.Solicitor, cache: Cache)
    requires RowFits(n.radio) && n.radio != []
    ensures var left := LifetimeLeft(n.storage); var first := AfterBorderRouter(c, n.storage, cache, r);
      var s := if c.routeOver then n.storage.(abroLifetime := left) else n.storage;
      NdNode.Tick(c, n.(solicitor := r), cache) == if c.routeOver && left == 0
        then Node(first, FRESH_STORAGE, Emptied(n.radio), n.uart, FreshContexts())
        else Node(AfterTables(n.(storage := s), cache, first), s, AgeRow(n.radio), n.uart, AgeContexts(n.contexts))
  {
    hide RouterSolicitation.Begin, SomeExpireSoon, CountedUpTo, ContextSoon, AgeRow, AgeContexts, LifetimeLeft;
    RouterSolicitation.BeginMeans(r);
  }

  lemma BorderRouterReadFits(d: seq<Byte>, at: nat)
    requires at + 32 <= |d|
    ensures var o := ReadBorderRouter(d, at);
      o.BorderRouter? && o.version < Pow256(4) && o.lifetime < Pow256(2) && |o.router| == 16
  {
    FieldsFit(d, at + 2);
    FieldsFit(d, at + 6);
  }

  lemma StorageKeepsGood(c: Config, n: Node, s: Storage)
    requires GoodNode(c, n) && StorageFits(s)
    ensures GoodNode(c, n.(storage := s))
  {
    hide Good, LinkLocal, RouterSolicitation.Good;
  }

  lemma ParametersFit(s: Storage, d: seq<Byte>)
    requires StorageFits(s) && |d| >= 56
    ensures StorageFits(WithParameters(s, d))
  {
    FieldsFit(d, RA_FIELDS + 4);
    FieldsFit(d, RA_FIELDS + 8);
  }

  /** The intake of an advertisement, on the parts of the state. */
  lemma TakenInMeans(c: Config, n: Node, r: RouterSolicitation.Solicitor, d: seq<Byte>, end: nat, installation: bool)
    requires 56 <= end && end + 32 <= |d|
    ensures IsFresh(n.(solicitor := r), d, end, installation) == IsFresh(n, d, end, installation)
    ensures !c.routeOver ==>
      TakenIn(c, n.(solicitor := r), d, end, installation)
        == n.(solicitor := r.(sent := 0), storage := WithParameters(n.storage, d))
    ensures c.routeOver && IsFresh(n, d, end, installation) ==>
      var s := WithBorderRouter(n.storage, ReadBorderRouter(d, FindBorderRouter(d, 56, end).position), installation);
      TakenIn(c, n.(solicitor := r), d, end, installation)
        == n.(solicitor := r.(sent := 0), storage := WithParameters(s, d))
  {
    hide FindBorderRouter, ReadBorderRouter, WithParameters, WithBorderRouter, Acceptable;
  }

  /** How the processing of the options ends; an installation copies its last prefix once more. */
  ghost function LearnedEnding(c: Config, d: seq<Byte>, end: nat, installation: bool): Ending
    requires ValidConfig(c) && 56 <= end && end + 32 <= |d|
  {
    var walked := Walk(RouterAdvertisements, d, 56, end, c.idSize);
    if walked.ending.Complete? && installation && d[LastPrefixAt(d, 56, end, 40, c.idSize) + 2] > 128 then Spilled
    else walked.ending
  }

  /** What the options of an advertisement change, unless a copy leaves its memory. */
  ghost function Learned(c: Config, n: Node, d: seq<Byte>, end: nat, installation: bool): (r: Node)
    requires ValidConfig(c) && |n.contexts| == 16 && 56 <= end && end + 32 <= |d|
    ensures r.storage == n.storage && r.solicitor == n.solicitor
  {
    var walked := Walk(RouterAdvertisements, d, 56, end, c.idSize);
    WalkedAreUsable(RouterAdvertisements, d, 56, end, c.idSize);
    var learned := LearnAll(c, n, walked.options);
    var at := LastPrefixAt(d, 56, end, 40, c.idSize);
    if walked.ending.Complete? && installation && d[at + 2] <= 128
      then learned.(uart := Set(learned.uart, BuiltFrom(c, ReadPrefix(d, at), 1)))
      else learned
  }

  lemma LearnedKeepsGood(c: Config, n: Node, d: seq<Byte>, end: nat, installation: bool)
    requires GoodNode(c, n) && 56 <= end && end + 32 <= |d|
    ensures ValidConfig(c) && |n.contexts| == 16 && GoodNode(c, Learned(c, n, d, end, installation))
    ensures AllUsable(Walk(RouterAdvertisements, d, 56, end, c.idSize).options)
    ensures var os := Walk(RouterAdvertisements, d, 56, end, c.idSize).options; var m := LearnAll(c, n, os);
      && m.storage == n.storage && m.solicitor == n.solicitor
      && Learned(c, n, d, end, installation).storage == n.storage
      && Learned(c, n, d, end, installation).solicitor == n.solicitor
    ensures var walked := Walk(RouterAdvertisements, d, 56, end, c.idSize); var m := LearnAll(c, n, walked.options);
      var at := LastPrefixAt(d, 56, end, 40, c.idSize);
      && at + 32 <= |d| && ReadPrefix(d, at).PrefixInformation? && |ReadPrefix(d, at).prefix| == 16
      && ReadPrefix(d, at).prefixLength == d[at + 2]
      && LearnedEnding(c, d, end, installation)
         == (if walked.ending.Complete? && installation && d[at + 2] > 128 then Spilled else walked.ending)
      && Learned(c, n, d, end, installation) == (if walked.ending.Complete? && installation && d[at + 2] <= 128
           then m.(uart := Set(m.uart, BuiltFrom(c, ReadPrefix(d, at), 1))) else m)
  {
    hide Walk, LearnAll, LastPrefixAt, Set, BuiltFrom, Good, LinkLocal, IdOn, RouterSolicitation.Good, StorageFits;
    hide Pow256, AnyBit, Field32;
    WalkedAreUsable(RouterAdvertisements, d, 56, end, c.idSize);
    var walked := Walk(RouterAdvertisements, d, 56, end, c.idSize);
    LearnAllKeepsGood(c, n, walked.options);
    var at := LastPrefixAt(d, 56, end, 40, c.idSize);
    FieldsFit(d, at + 4);
    FieldsFit(d, at + 8);
    if installation && d[at + 2] <= 128 {
      SetKeepsRow(c, LearnAll(c, n, walked.options).uart, ReadPrefix(d, at), INTERFACE_UART);
    }
  }

  lemma GoodParts(c: Config, n: Node)
    requires GoodNode(c, n)
    ensures ValidConfig(c) && |n.contexts| == 16 && ValidIdSize(c.idSize)
  {
  }

  function LengthOf(d: seq<Byte>): nat
    requires |d| >= 40
  {
    Word(d[4], d[5])
  }

  /** A buffer whose length field stays within it. */
  ghost predicate Arrived(payload: array<Byte>)
    reads payload
  {
    payload.Length >= BUFFER_SIZE + 32 && 40 + LengthOf(payload[..]) <= BUFFER_SIZE
  }

  predicate IsLinkLocal(a: seq<Byte>)
    requires |a| == 16
  {
    a[0] == 0xFE && a[1] == 0x80 && a[2..8] == Zeros(6)
  }

  /** fe80::/64 */
  lemma LinkLocalMeans(a: seq<Byte>)
    requires |a| == 16
    ensures IsLinkLocal(a) <==>
      a[0] == 0xFE && a[1] == 0x80 && a[2] == a[3] == a[4] == a[5] == a[6] == a[7] == 0
  {
    assert Zeros(6) == [0, 0, 0, 0, 0, 0];
    assert a[2..8] == [a[2], a[3], a[4], a[5], a[6], a[7]];
  }

  /** The message checks for an advertisement: it comes from a link-local address and is long enough. */
  predicate AcceptsRa(d: seq<Byte>)
    requires |d| >= 40
  {
    IsLinkLocal(d[8..24]) && LengthOf(d) >= 16
  }

  lemma ArrivedMeans(payload: array<Byte>)
    requires Arrived(payload)
    ensures payload.Length >= 1532 && LengthOf(payload[..]) == Word(payload[4], payload[5]) <= 1460
    ensures payload[..][8..24] == payload[8..24]
    ensures AcceptsRa(payload[..]) <==> IsLinkLocal(payload[8..24]) && Word(payload[4], payload[5]) >= 16
  {
  }

  /** Message checks and reaction together. */
  ghost function Heard(c: Config, n: Node, d: seq<Byte>, installation: bool): (r: (Node, Reaction))
    requires ValidConfig(c) && |n.contexts| == 16 && |d| >= 1532 && LengthOf(d) <= 1460
  {
    if AcceptsRa(d) then Hear(c, n, d, 40 + LengthOf(d), installation) else (n, Dropped)
  }

  lemma HeardMeans(c: Config, n: Node, d: seq<Byte>, installation: bool)
    requires ValidConfig(c) && |n.contexts| == 16 && |d| >= 1532 && LengthOf(d) <= 1460
    ensures AcceptsRa(d) ==>
      LengthOf(d) >= 16 && Heard(c, n, d, installation) == Hear(c, n, d, 40 + LengthOf(d), installation)
    ensures !AcceptsRa(d) ==> Heard(c, n, d, installation) == (n, Dropped)
  {
  }

  /** The messages that follow an advertisement: it goes on to all routers, or the node registers at the source
      if a packet is free for that. */
  ghost predicate AnswersAdvertisement(c: Config, n: Node, reaction: Reaction, d: seq<Byte>, free: bool,
                                       before: seq<Message>, after: seq<Message>)
    requires |d| >= 40 && |n.radio| >= 2 && StorageFits(n.storage)
  {
    match reaction
    case Relayed => exists m :: after == before + [m] && m.kind.Ra? && IsMessage(m.bytes, Ra, c, n, ALL_ROUTERS, 0, 0)
    case Registers(linkLayer) =>
      if free then exists m :: after == before + [m] && Answered(m, Ns, c, n, d[8..24], linkLayer)
      else after == before
    case _ => after == before
  }

  lemma AnswersIs(c: Config, n: Node, reaction: Reaction, d: seq<Byte>, free: bool, before: seq<Message>,
                  after: seq<Message>)
    requires |d| >= 40 && |n.radio| >= 2 && StorageFits(n.storage)
    requires |before| <= |after| <= |before| + 1 && after[..|before|] == before
    requires |after| > |before| <==> reaction.Relayed? || (reaction.Registers? && free)
    requires var quiet := n.(solicitor := RouterSolicitation.IDLE);
      && (reaction.Relayed? && |after| > |before| ==>
            after[|before|].kind.Ra? && IsMessage(after[|before|].bytes, Ra, c, quiet, ALL_ROUTERS, 0, 0))
      && (reaction.Registers? && |after| > |before| ==>
            Answered(after[|before|], Ns, c, quiet, d[8..24], reaction.linkLayer))
    ensures AnswersAdvertisement(c, n, reaction, d, free, before, after)
  {
    hide HasBody, Laid, Has, AllWellFormed, SizeOfAll, BigEndian;
    if |after| > |before| {
      assert after == before + [after[|before|]];
    } else {
      assert after == before;
    }
  }

  /** The reaction to an advertisement, as its two steps. */
  lemma HearMeans(c: Config, n: Node, d: seq<Byte>, end: nat, installation: bool)
    requires ValidConfig(c) && |n.contexts| == 16 && 56 <= end && end + 32 <= |d|
    ensures c.routeOver && !IsFresh(n, d, end, installation) ==> Hear(c, n, d, end, installation) == (n, Dropped)
    ensures (c.routeOver ==> IsFresh(n, d, end, installation)) ==>
      var taken := TakenIn(c, n, d, end, installation); var ending := LearnedEnding(c, d, end, installation);
      var r := Learned(c, taken, d, end, installation);
      Hear(c, n, d, end, installation) == (r,
        if ending == Spilled then Spills
        else if ending == ZeroLength then Dropped
        else if installation then (if c.routeOver then Relayed else Configured)
        else if c.routeOver && r.storage.isRouter then Relayed
        else Registers(LinkLayerIn(Walk(RouterAdvertisements, d, 56, end, c.idSize).options)))
  {
    hide Walk, LearnAll, LastPrefixAt, Set, BuiltFrom, IsFresh, ValidConfig, FindBorderRouter, ReadBorderRouter;
    hide WithBorderRouter, WithParameters;
  }

  /** A message to the source of another, with its link-layer identifier. */
  ghost predicate Answered(m: Message, kind: Kind, c: Config, n: Node, to: seq<Byte>, linkLayer: nat)
    requires |n.radio| >= 2 && StorageFits(n.storage)
  {
    m.kind == kind && m.linkLayer == linkLayer && IsMessage(m.bytes, kind, c, n, to, 0, linkLayer)
  }

  lemma AnsweredIs(m: Message, kind: Kind, c: Config, n: Node, to: seq<Byte>, linkLayer: nat)
    requires |n.radio| >= 2 && StorageFits(n.storage)
    requires m.kind == kind && m.linkLayer == linkLayer && IsMessage(m.bytes, kind, c, n, to, 0, linkLayer)
    ensures Answered(m, kind, c, n, to, linkLayer)
  {
  }

  lemma RegistrationFits(d: seq<Byte>, at: nat)
    requires at + 32 <= |d|
    ensures ReadRegistration(d, at).Registration? && ReadRegistration(d, at).lifetime < Pow256(2)
  {
    FieldsFit(d, at + 6);
  }

  /** The source's link-layer identifier in a solicitation. */
  function SolicitedBy(c: Config, d: seq<Byte>): nat
    requires ValidConfig(c) && |d| >= 1532 && LengthOf(d) <= 1460
  {
    LinkLayerIn(Walk(RouterSolicitations, d, 48, 40 + LengthOf(d), c.idSize).options)
  }

  /** The node is a router, in the route-over build one that has heard of a border router, and no option of the
      solicitation has length zero. */
  predicate AcceptsRs(c: Config, s: Storage, d: seq<Byte>)
    requires ValidConfig(c) && |d| >= 1532 && LengthOf(d) <= 1460
  {
    && s.isRouter && !(c.routeOver && !s.isBorderRouter && s.brAddress == NULL_ADDR) && LengthOf(d) >= 8
    && Walk(RouterSolicitations, d, 48, 40 + LengthOf(d), c.idSize).ending.Complete?
  }

  lemma AcceptsRsMeans(c: Config, s: Storage, d: seq<Byte>)
    requires ValidConfig(c) && |d| >= 1532 && LengthOf(d) <= 1460
    ensures AcceptsRs(c, s, d) <==>
      && s.isRouter && !(c.routeOver && !s.isBorderRouter && s.brAddress == NULL_ADDR) && LengthOf(d) >= 8
      && Walk(RouterSolicitations, d, 48, 40 + LengthOf(d), c.idSize).ending.Complete?
    ensures SolicitedBy(c, d) == LinkLayerIn(Walk(RouterSolicitations, d, 48, 40 + LengthOf(d), c.idSize).options)
  {
  }

  function Registrations(os: seq<NdOption>): seq<NdOption> {
    if os == [] then []
    else Registrations(os[..|os| - 1]) + (if os[|os| - 1].Registration? then [os[|os| - 1]] else [])
  }

  /** The registrations of a neighbor message that are confirmed: all that stand in front of an option of length
      zero. */
  function ToConfirm(c: Config, d: seq<Byte>, answering: bool): seq<NdOption>
    requires ValidConfig(c) && |d| >= 1532 && LengthOf(d) <= 1460
  {
    if answering && LengthOf(d) >= 24 && !(d[48] == 0xFF && d[49] == 0x02)
      then Registrations(Walk(NeighborMessages, d, 64, 40 + LengthOf(d), c.idSize).options)
      else []
  }

  lemma ToConfirmMeans(c: Config, d: seq<Byte>, answering: bool)
    requires ValidConfig(c) && |d| >= 1532 && LengthOf(d) <= 1460
    ensures LengthOf(d) < 24 || (d[48] == 0xFF && d[49] == 0x02) || !answering ==> ToConfirm(c, d, answering) == []
    ensures LengthOf(d) >= 24 && !(d[48] == 0xFF && d[49] == 0x02) && answering ==>
      ToConfirm(c, d, answering) == Registrations(Walk(NeighborMessages, d, 64, 40 + LengthOf(d), c.idSize).options)
    ensures Registrations([]) == []
  {
  }

  /** Loops over messages between neighbors copy nothing. */
  lemma NothingCopied(d: seq<Byte>, at: nat)
    requires at + 32 <= |d|
    ensures Contained(NeighborMessages, d, at)
  {
  }

  lemma RegistrationsMore(done: seq<NdOption>, d: seq<Byte>, at: nat, w: nat)
    requires ValidIdSize(w) && at + 32 <= |d| && d[at + 1] > 0
    ensures d[at] == ADDRESS_REGISTRATION ==>
      Registrations(done + Turn(NeighborMessages, d, at, w).0) == Registrations(done) + [ReadRegistration(d, at)]
    ensures d[at] != ADDRESS_REGISTRATION ==>
      Registrations(done + Turn(NeighborMessages, d, at, w).0) == Registrations(done)
  {
    hide ReadLinkLayer, ReadRegistration;
    var read := Turn(NeighborMessages, d, at, w).0;
    if read == [] {
      assert done + read == done;
    } else {
      assert (done + read)[..|done|] == done && read == [read[0]];
      IsRegistration(d, at, w);
    }
  }

  lemma IsRegistration(d: seq<Byte>, at: nat, w: nat)
    requires ValidIdSize(w) && at + 32 <= |d|
    ensures ReadRegistration(d, at).Registration? && ReadLinkLayer(d, at, w).LinkLayer?
  {
  }

  /** One confirmation for each registration, in order. An identifier that is longer than the link layer's comes
      back cut off. */
  ghost predicate Confirms(c: Config, n: Node, to: seq<Byte>, rs: seq<NdOption>, before: seq<Message>,
                           after: seq<Message>)
    requires ValidConfig(c) && |n.radio| >= 2 && StorageFits(n.storage)
  {
    && |after| == |before| + |rs| && after[..|before|] == before
    && (forall i | 0 <= i < |rs| :: rs[i].Registration?)
    && (forall i | 0 <= i < |rs| :: IsConfirmation(after[|before| + i], c, n, to, rs[i].lifetime, rs[i].eui))
  }

  ghost predicate IsConfirmation(m: Message, c: Config, n: Node, to: seq<Byte>, lifetime: nat, eui: nat)
    requires ValidConfig(c) && |n.radio| >= 2 && StorageFits(n.storage)
  {
    var id := eui % Pow256(c.idSize);
    m.kind.Na? && m.linkLayer == id && IsMessage(m.bytes, Na, c, n, to, lifetime, id)
  }

  lemma CutOff(eui: nat, lifetime: nat, w: nat)
    requires ValidIdSize(w) && lifetime < Pow256(2)
    ensures WellFormed(Registration(lifetime, eui % Pow256(w)), w)
  {
    PowersGrow(w, 8);
  }

  lemma ConfirmsNothing(c: Config, n: Node, to: seq<Byte>, before: seq<Message>)
    requires ValidConfig(c) && |n.radio| >= 2 && StorageFits(n.storage)
    ensures Confirms(c, n, to, [], before, before) && Registrations([]) == []
  {
  }

  lemma ConfirmsMore(c: Config, n: Node, to: seq<Byte>, rs: seq<NdOption>, before: seq<Message>, between: seq<Message>,
                     after: seq<Message>, lifetime: nat, eui: nat)
    requires ValidConfig(c) && |n.radio| >= 2 && StorageFits(n.storage) && Confirms(c, n, to, rs, before, between)
    requires |after| == |between| + 1 && after[..|between|] == between
    requires after[|between|].kind.Na? && after[|between|].linkLayer == eui % Pow256(c.idSize)
    requires IsMessage(after[|between|].bytes, Na, c, n, to, lifetime, eui % Pow256(c.idSize))
    ensures Confirms(c, n, to, rs + [Registration(lifetime, eui)], before, after)
  {
    hide IsMessage;
    assert after[..|before|] == between[..|before|];
    forall i | 0 <= i < |rs|
      ensures rs[i].Registration? && IsConfirmation(after[|before| + i], c, n, to, rs[i].lifetime, rs[i].eui)
    {
      assert after[..|between|][|before| + i] == between[|before| + i];
    }
  }

  /** The common checks: Neighbor Discovery is enabled on the interface, the hop limit is 255, the code is 0. */
  predicate Passes(d: seq<Byte>, iface: nat)
    requires |d| >= 1532
  {
    iface == INTERFACE_RADIO && d[7] == 255 && d[41] == 0
  }

  /** A message that makes the node copy data out of the memory it is meant for. */
  ghost predicate Harms(c: Config, n: Node, d: seq<Byte>, iface: nat, installation: bool)
    requires GoodNode(c, n) && |d| >= 1532 && LengthOf(d) <= 1460
  {
    Passes(d, iface) && d[40] == ROUTER_ADVERTISEMENT && Heard(c, n, d, installation).1.Spills?
  }

  lemma HarmsMeans(c: Config, n: Node, d: seq<Byte>, iface: nat, installation: bool)
    requires GoodNode(c, n) && |d| >= 1532 && LengthOf(d) <= 1460
    ensures ValidConfig(c) && |n.contexts| == 16
    ensures Harms(c, n, d, iface, installation) <==>
      iface == 0 && d[7] == 255 && d[41] == 0 && d[40] == ROUTER_ADVERTISEMENT && Heard(c, n, d, installation).1.Spills?
  {
    hide Heard;
  }

  /** Exactly which received messages do: advertisements that count and whose walk comes to stand at an option that is
      too long. The checksum field is zeroed by then, so an installation without a prefix takes 0 for its length. */
  lemma HarmsExactly(c: Config, n: Node, d: seq<Byte>, iface: nat, installation: bool)
    requires GoodNode(c, n) && |d| >= 1532 && LengthOf(d) <= 1460
    ensures var e := Zeroed(d); var end := 40 + LengthOf(d);
      && LengthOf(e) == LengthOf(d) && ValidConfig(c)
      && (Harms(c, n, e, iface, installation) <==>
          && Passes(e, iface) && e[40] == ROUTER_ADVERTISEMENT && AcceptsRa(e)
          && (c.routeOver ==> IsFresh(n, e, end, installation))
          && exists p :: Stuck(e, RA_OPTIONS, end, p, c.idSize) && TooLong(e, p))
  {
    hide Hear, IsFresh, Stuck, TooLong, HasPrefix, GoodNode, Zeroed, ValidConfig, LengthOf, IsLinkLocal;
    ZeroedMeans(d);
    ZeroedField(d);
    GoodParts(c, n);
    var e := Zeroed(d);
    if AcceptsRa(e) {
      SpillsExactly(c, n, e, 40 + LengthOf(e), installation);
    }
  }

  lemma ZeroedField(d: seq<Byte>)
    requires |d| >= 1532 && LengthOf(d) <= 1460
    ensures Zeroed(d)[42] == 0
  {
    ZeroField(d, 2);
  }

  /** What a message does to a node, and what the node sends on it. */
  ghost predicate Reacted(c: Config, n: Node, r: Node, d: seq<Byte>, iface: nat, installation: bool, free: bool,
                          before: seq<Message>, after: seq<Message>)
    requires GoodNode(c, n) && |n.radio| >= 2 && |d| >= 1532 && LengthOf(d) <= 1460
  {
    if !Passes(d, iface) then r == n && after == before
    else if d[40] == ROUTER_SOLICITATION then
      if AcceptsRs(c, n.storage, d) && free
        then
          && r == n.(contexts := Refreshed(n.contexts))
          && exists m :: after == before + [m] && Answered(m, Ra, c, n, d[8..24], SolicitedBy(c, d))
        else r == n && after == before
    else if d[40] == ROUTER_ADVERTISEMENT then
      var (m, reaction) := Heard(c, n, d, installation);
      && r == (if reaction.Relayed? then m.(contexts := Refreshed(m.contexts)) else m)
      && |m.radio| >= 2 && StorageFits(m.storage) && AnswersAdvertisement(c, m, reaction, d, free, before, after)
    else if d[40] == NEIGHBOR_SOLICITATION || d[40] == NEIGHBOR_ADVERTISEMENT then
      r == n && Confirms(c, n, d[8..24], ToConfirm(c, d, d[40] == NEIGHBOR_SOLICITATION && free), before, after)
    else r == n && after == before
  }

  lemma ReactedFailing(c: Config, n: Node, d: seq<Byte>, iface: nat, installation: bool, free: bool,
                       before: seq<Message>)
    requires GoodNode(c, n) && |n.radio| >= 2 && |d| >= 1532 && LengthOf(d) <= 1460
    requires iface != 0 || d[7] != 255 || d[41] != 0
      || d[40] !in {ROUTER_SOLICITATION, ROUTER_ADVERTISEMENT, NEIGHBOR_SOLICITATION, NEIGHBOR_ADVERTISEMENT}
    ensures Reacted(c, n, n, d, iface, installation, free, before, before)
  {
  }

  /** Messages do not depend on the solicitor. */
  lemma AnsweredAlike(m: Message, kind: Kind, c: Config, n: Node, to: seq<Byte>, linkLayer: nat)
    requires |n.radio| >= 2 && StorageFits(n.storage)
    requires Answered(m, kind, c, n.(solicitor := RouterSolicitation.IDLE), to, linkLayer)
    ensures Answered(m, kind, c, n, to, linkLayer)
  {
    hide HasBody, Laid, Has, AllWellFormed, SizeOfAll, BigEndian;
  }

  lemma ReactedRs(c: Config, n: Node, t: Node, r: Node, d: seq<Byte>, installation: bool, free: bool,
                  before: seq<Message>, after: seq<Message>)
    requires GoodNode(c, n) && |n.radio| >= 2 && |d| >= 1532 && LengthOf(d) <= 1460 && d[40] == ROUTER_SOLICITATION
    requires d[7] == 255 && d[41] == 0
    requires |before| <= |after| <= |before| + 1 && after[..|before|] == before
    requires |after| > |before| <==> AcceptsRs(c, n.storage, d) && free
    requires var quiet := n.(solicitor := RouterSolicitation.IDLE);
      && t == (if |after| > |before| then quiet.(contexts := Refreshed(n.contexts)) else quiet)
      && r == t.(solicitor := n.solicitor)
      && (|after| > |before| ==> Answered(after[|before|], Ra, c, quiet, d[8..24], SolicitedBy(c, d)))
    ensures Reacted(c, n, r, d, 0, installation, free, before, after)
  {
    hide Answered, AcceptsRs, SolicitedBy, Refreshed, GoodNode, StorageFits, ValidConfig, Heard, Confirms;
    hide AnswersAdvertisement, ToConfirm;
    GoodParts(c, n);
    GoodNodeHas(c, n);
    if |after| > |before| {
      AnsweredAlike(after[|before|], Ra, c, n, d[8..24], SolicitedBy(c, d));
      assert after == before + [after[|before|]];
    } else {
      assert after == before;
    }
  }

  lemma ReactedRa(c: Config, n: Node, r: Node, d: seq<Byte>, installation: bool, free: bool, before: seq<Message>,
                  after: seq<Message>)
    requires GoodNode(c, n) && |n.radio| >= 2 && |d| >= 1532 && LengthOf(d) <= 1460 && d[40] == ROUTER_ADVERTISEMENT
    requires d[7] == 255 && d[41] == 0
    requires var (m, reaction) := Heard(c, n, d, installation);
      && r == (if reaction.Relayed? then m.(contexts := Refreshed(m.contexts)) else m)
      && |m.radio| >= 2 && StorageFits(m.storage) && AnswersAdvertisement(c, m, reaction, d, free, before, after)
    ensures Reacted(c, n, r, d, 0, installation, free, before, after)
  {
    hide Heard, AnswersAdvertisement, GoodNode, StorageFits;
  }

  lemma ReactedNeighbor(c: Config, n: Node, d: seq<Byte>, installation: bool, free: bool, before: seq<Message>,
                        after: seq<Message>)
    requires GoodNode(c, n) && |n.radio| >= 2 && |d| >= 1532 && LengthOf(d) <= 1460
    requires d[40] in {NEIGHBOR_SOLICITATION, NEIGHBOR_ADVERTISEMENT} && d[7] == 255 && d[41] == 0
    requires Confirms(c, n.(solicitor := RouterSolicitation.IDLE), d[8..24],
      ToConfirm(c, d, d[40] == NEIGHBOR_SOLICITATION && free), before, after)
    ensures Reacted(c, n, n, d, 0, installation, free, before, after)
  {
    hide HasBody, Laid, Has, AllWellFormed, SizeOfAll, BigEndian, ToConfirm, GoodNode;
    GoodParts(c, n);
  }

  /** The packet is for this layer: by the stored next header, or the one in the packet. */
  predicate IsIcmp(stored: Byte, d: seq<Byte>)
    requires |d| >= 40
  {
    stored == ICMPV6 || (stored == 0 && d[NEXT_HEADER_BYTE] == ICMPV6)
  }

  /** A packet that this layer leaves to others: another protocol, or RPL. */
  predicate IsForeign(c: Config, stored: Byte, d: seq<Byte>)
    requires |d| >= 1532
  {
    !IsIcmp(stored, d) || (d[40] == RPL_CONTROL_MESSAGE && c.rpl)
  }

  /** A packet for the Neighbor Discovery part: neither foreign nor an echo. */
  predicate IsDiscovery(c: Config, stored: Byte, d: seq<Byte>)
    requires |d| >= 1532
  {
    !IsForeign(c, stored, d) && d[40] != ECHO_REQUEST && d[40] != ECHO_REPLY
  }

  /** What a layer has handed to the one below. */
  datatype Log = Log(sent: seq<Message>, echoes: seq<Echo>)

  /** What this layer does with a packet: nothing, if it is foreign; an echo request is answered, a reply taken; the
      rest is for Neighbor Discovery, which reacts to it, unless a copy leaves its memory. */
  ghost predicate Treats(c: Config, n: Node, r: Node, stored: Byte, d: seq<Byte>, iface: nat, installation: bool,
                         free: bool, before: Log, after: Log, intact: bool, released: bool)
    requires GoodNode(c, n) && |n.radio| >= 2 && |d| >= 1532 && LengthOf(d) <= 1460
  {
    ZeroedMeans(d);
    if IsForeign(c, stored, d) then intact && !released && r == n && after.sent == before.sent
    else if d[40] == ECHO_REQUEST then
      && intact && r == n && after.sent == before.sent && |after.echoes| == |before.echoes| + 1
      && after.echoes[|before.echoes|].bytes == EchoReply(Zeroed(d))
      && (released <==> !after.echoes[|before.echoes|].polled)
    else if d[40] == ECHO_REPLY then intact && released && r == n && after.sent == before.sent
    else
      && (intact <==> !Harms(c, n, Zeroed(d), iface, installation))
      && (intact ==> released && Reacted(c, n, r, Zeroed(d), iface, installation, free, before.sent, after.sent))
  }

  lemma TreatsIs(c: Config, n: Node, r: Node, stored: Byte, d: seq<Byte>, iface: nat, installation: bool, free: bool,
                 before: Log, after: Log, intact: bool, released: bool)
    requires GoodNode(c, n) && |n.radio| >= 2 && |d| >= 1532 && LengthOf(d) <= 1460 && LengthOf(Zeroed(d)) <= 1460
    requires IsForeign(c, stored, d) ==> intact && !released && r == n && after.sent == before.sent
    requires IsIcmp(stored, d) && d[40] == ECHO_REQUEST ==>
      && intact && r == n && after.sent == before.sent && |after.echoes| == |before.echoes| + 1
      && after.echoes[|before.echoes|].bytes == EchoReply(Zeroed(d))
      && (released <==> !after.echoes[|before.echoes|].polled)
    requires IsIcmp(stored, d) && d[40] == ECHO_REPLY ==>
      intact && released && r == n && after.sent == before.sent
    requires IsDiscovery(c, stored, d) ==> (intact <==> !Harms(c, n, Zeroed(d), iface, installation))
    requires IsDiscovery(c, stored, d) && intact ==>
      released && Reacted(c, n, r, Zeroed(d), iface, installation, free, before.sent, after.sent)
    ensures Treats(c, n, r, stored, d, iface, installation, free, before, after, intact, released)
  {
    hide Harms, Reacted, EchoReply, Zeroed, GoodNode;
  }

  /** Neither an echo nor for RPL. */
  predicate IsRest(c: Config, d: seq<Byte>)
    requires |d| >= 1532
  {
    d[40] != ECHO_REQUEST && d[40] != ECHO_REPLY && !(d[40] == RPL_CONTROL_MESSAGE && c.rpl)
  }

  lemma RestMeans(c: Config, d: seq<Byte>)
    requires |d| >= 1532
    ensures IsRest(c, d) <==> d[40] != ECHO_REQUEST && d[40] != ECHO_REPLY && !(d[40] == RPL_CONTROL_MESSAGE && c.rpl)
  {
  }

  lemma KindsOfPackets(c: Config, stored: Byte, d: seq<Byte>)
    requires |d| >= 1532
    ensures IsForeign(c, stored, d) <==> !IsIcmp(stored, d) || (d[40] == RPL_CONTROL_MESSAGE && c.rpl)
    ensures IsDiscovery(c, stored, d) <==> !IsForeign(c, stored, d) && d[40] != ECHO_REQUEST && d[40] != ECHO_REPLY
    ensures Zeroed(d)[40] == d[40]
    ensures IsDiscovery(c, stored, d) <==> IsIcmp(stored, d) && IsRest(c, Zeroed(d))
  {
  }

  /** The reply: source and destination exchanged, though a multicast address is no source; reply type, no checksum. */
  function EchoReply(d: seq<Byte>): (r: seq<Byte>)
    requires |d| >= 1532
  {
    d[..8] + (if d[24] == 0xFF then Zeros(16) else d[24..40]) + d[8..24] + [ECHO_REPLY, d[41], 0, 0] + d[44..]
  }

  lemma EchoReplyMeans(d: seq<Byte>)
    requires |d| >= 1532
    ensures var mine := if d[24] == 0xFF then Zeros(16) else d[24..40];
      |mine| == 16 && EchoReply(d) == Splice(Splice(d, 8, mine), 24, d[8..24])[40 := ECHO_REPLY][42 := 0][43 := 0]
    ensures PAYLOAD_POS == 40
  {
    var mine := if d[24] == 0xFF then Zeros(16) else d[24..40];
    SixteenZeros();
    hide Zeros;
    var a := Splice(d, 8, mine);
    assert a == d[..8] + mine + d[24..];
    var b := Splice(a, 24, d[8..24]);
    assert b == d[..8] + mine + d[8..24] + d[40..];
    assert b[40 := ECHO_REPLY][42 := 0][43 := 0] == d[..8] + mine + d[8..24] + [ECHO_REPLY, d[41], 0, 0] + d[44..];
  }

  method WriteEchoReply(message: IPv6Packet)
    requires message.buffer.Length >= 1532
    modifies message.buffer
    ensures message.buffer[..] == EchoReply(old(message.buffer[..]))
  {
    hide *;
    EchoReplyMeans(message.buffer[..]);
    SixteenZeros();
    ghost var d := message.buffer[..];
    var to := message.buffer[8..24];
    var mine := if message.buffer[24] == 0xFF then Zeros(16) else message.buffer[24..40];
    assert to == d[8..24] && mine == if d[24] == 0xFF then Zeros(16) else d[24..40];
    message.SetHeader(8, mine);
    message.SetHeader(24, to);
    message.buffer[40], message.buffer[42], message.buffer[43] := ECHO_REPLY, 0, 0;
  }

  lemma SixteenZeros()
    ensures |Zeros(16)| == 16
  {
  }

  lemma IcmpMeans(stored: Byte, d: seq<Byte>)
    requires |d| >= 40
    ensures NEXT_HEADER_BYTE == 6 && ICMPV6 != 0
    ensures IsIcmp(stored, d) <==> stored == ICMPV6 || (stored == 0 && d[6] == ICMPV6)
    ensures IsIcmp(stored, d) <==> NextHeaderOf(stored, d[6]) == ICMPV6
  {
  }

  /** The packet with its checksum field zeroed. */
  function Zeroed(d: seq<Byte>): (r: seq<Byte>)
    requires |d| >= 1532
    ensures |r| == |d|
  {
    WithField(d, 2, 0)
  }

  lemma ZeroedMeans(d: seq<Byte>)
    requires |d| >= 1532 && LengthOf(d) <= 1460
    ensures Fits(d) && Zeroed(d) == WithField(d, 2, 0) && |WithField(d, 2, 0)| == |d|
    ensures LengthOf(WithField(d, 2, 0)) == LengthOf(d)
    ensures PAYLOAD_POS == 40
  {
    ZeroField(d, 2);
  }

  lemma ArrivedIs(payload: array<Byte>)
    requires payload.Length >= 1532 && LengthOf(payload[..]) <= 1460
    ensures Arrived(payload)
  {
  }

  lemma AllRouters()
    ensures |ALL_ROUTERS| == 16 && INTERFACE_RADIO == 0 && ASK_ALL == Order(Rs, ALL_ROUTERS)
  {
  }

  /** A solicitation to all routers. */
  const ASK_ALL: Order := Order(Rs, ALL_ROUTERS)

  /** Soliciting starts, with one solicitation, when there is a reason and none is in process. */
  function Starts(s: RouterSolicitation.Solicitor, reason: bool): (r: seq<Order>)
    ensures forall o | o in r :: o.kind.Rs?
  {
    if reason && s.sent == 0 then [ASK_ALL] else []
  }

  lemma StartsMean(s: RouterSolicitation.Solicitor)
    ensures Starts(s, false) == [] && Starts(s, true) == if s.sent == 0 then [ASK_ALL] else []
    ensures forall reason :: forall o | o in Starts(s, reason) :: o.kind.Rs?
  {
  }

  function To(kind: Kind, addresses: seq<seq<Byte>>): (r: seq<Order>)
    ensures |r| == |addresses| && forall o | o in r :: o.kind == kind
  {
    seq(|addresses|, i requires 0 <= i < |addresses| => Order(kind, addresses[i]))
  }

  lemma ToMeans(kind: Kind, addresses: seq<seq<Byte>>, i: nat)
    requires i <= |addresses|
    ensures To(kind, addresses[..0]) == []
    ensures i < |addresses| ==> To(kind, addresses[..i + 1]) == To(kind, addresses[..i]) + [Order(kind, addresses[i])]
  {
  }

  /** The nodes that the neighbor cache wants messages to be sent to in a turn. */
  datatype Due = Due(routers: seq<seq<Byte>>, early: seq<seq<Byte>>, late: seq<seq<Byte>>)

  predicate GoodDue(due: Due) {
    && (forall i | 0 <= i < |due.routers| :: |due.routers[i]| == 16)
    && (forall i | 0 <= i < |due.early| :: |due.early[i]| == 16)
    && (forall i | 0 <= i < |due.late| :: |due.late[i]| == 16)
  }

  lemma GoodDueMeans(due: Due)
    requires GoodDue(due)
    ensures forall i | 0 <= i < |due.routers| :: |due.routers[i]| == 16
    ensures forall i | 0 <= i < |due.early| :: |due.early[i]| == 16
    ensures forall i | 0 <= i < |due.late| :: |due.late[i]| == 16
  {
  }

  /** What the halves of a turn send, and the whole turn. */
  ghost function BorderRouterOrders(c: Config, s: Storage, cache: Cache, r: RouterSolicitation.Solicitor): seq<Order> {
    var noRouter := cache.routersEmpty && !s.isBorderRouter;
    var first := if noRouter then RouterSolicitation.Begin(r) else r;
    Starts(r, noRouter) + Starts(first, c.routeOver && LifetimeLeft(s) == 3)
  }

  ghost function TablesOrders(n: Node, cache: Cache, due: Due, r: RouterSolicitation.Solicitor): seq<Order>
    requires RowFits(n.radio)
  {
    var first := if TablesWant(n) then RouterSolicitation.Begin(r) else r;
    To(Rs, due.routers) + Starts(r, TablesWant(n)) + To(Ns, due.early) + Starts(first, cache.routerLost)
      + To(Ns, due.late)
  }

  ghost function TimeoutOrders(c: Config, n: Node, cache: Cache, due: Due, r: RouterSolicitation.Solicitor): seq<Order>
    requires RowFits(n.radio)
  {
    BorderRouterOrders(c, n.storage, cache, r)
    + (if c.routeOver && LifetimeLeft(n.storage) == 0 then []
       else TablesOrders(n, cache, due, AfterBorderRouter(c, n.storage, cache, r)))
  }

  /** How many messages a turn sends, if a packet is free: one solicitation exactly if the turn starts soliciting, and
      one message to each neighbor that is due, unless the border router's information expires. */
  lemma TurnSends(c: Config, n: Node, r: RouterSolicitation.Solicitor, cache: Cache, due: Due, free: bool,
                  before: seq<Message>, after: seq<Message>)
    requires |n.radio| >= 2 && RowFits(n.radio) && StorageFits(n.storage)
    requires Sends(c, n, TimeoutOrders(c, n, cache, due, r), free, before, after)
    ensures !free ==> after == before
    ensures free ==> |after| >= |before| && after[..|before|] == before
    ensures free ==>
      |after| - |before|
        == (if r.sent == 0 && NdNode.Tick(c, n.(solicitor := r), cache).solicitor.sent > 0 then 1 else 0)
           + if c.routeOver && n.storage.abroLifetime <= 1 then 0 else |due.routers| + |due.early| + |due.late|
  {
    hide Carries, SomeExpireSoon, CountedUpTo, ContextSoon, AgeRow, AgeContexts, Emptied, StorageFits;
    TickMeans(c, n, r, cache);
    RouterSolicitation.BeginMeans(r);
  }

  lemma TimeoutOrdersMean(c: Config, n: Node, cache: Cache, due: Due, r: RouterSolicitation.Solicitor)
    requires RowFits(n.radio)
    ensures c.routeOver && LifetimeLeft(n.storage) == 0 ==>
      TimeoutOrders(c, n, cache, due, r) == BorderRouterOrders(c, n.storage, cache, r)
    ensures !(c.routeOver && LifetimeLeft(n.storage) == 0) ==>
      TimeoutOrders(c, n, cache, due, r)
      == BorderRouterOrders(c, n.storage, cache, r)
        + TablesOrders(n, cache, due, AfterBorderRouter(c, n.storage, cache, r))
  {
    hide TablesOrders, BorderRouterOrders, AfterBorderRouter;
  }

  lemma TablesOrdersMean(n: Node, cache: Cache, due: Due, r: RouterSolicitation.Solicitor)
    requires RowFits(n.radio)
    ensures var first := if TablesWant(n) then RouterSolicitation.Begin(r) else r;
      TablesOrders(n, cache, due, r)
      == To(Rs, due.routers) + Starts(r, TablesWant(n)) + To(Ns, due.early) + Starts(first, cache.routerLost)
        + To(Ns, due.late)
  {
  }

  lemma TablesOrdersAlike(n: Node, t: Node, cache: Cache, due: Due, r: RouterSolicitation.Solicitor)
    requires RowFits(n.radio) && t.radio == n.radio && t.contexts == n.contexts
    ensures TablesOrders(t, cache, due, r) == TablesOrders(n, cache, due, r)
    ensures forall o | o in TablesOrders(n, cache, due, r) :: o.kind.Rs? || o.kind.Ns?
  {
    hide ContextSoon, SomeExpireSoon, CountedUpTo, RouterSolicitation.Begin;
  }

  lemma AgingKeepsAddresses(row: seq<Prefix>)
    requires RowFits(row)
    ensures forall i | 0 <= i < |row| :: AddrOf(AgeRow(row)[i]) == AddrOf(row[i])
  {
  }

  /** The messages of the second half, put together. */
  lemma Turned(c: Config, n: Node, t: Node, due: Due, r: RouterSolicitation.Solicitor,
               first: RouterSolicitation.Solicitor, soon: bool, lost: bool, free: bool, s0: seq<Message>,
               s1: seq<Message>, s2: seq<Message>, s3: seq<Message>, s4: seq<Message>, s5: seq<Message>)
    requires |n.radio| >= 2 && StorageFits(n.storage) && StorageFits(t.storage) && |t.radio| == |n.radio|
    requires AddrOf(t.radio[0]) == AddrOf(n.radio[0]) && AddrOf(t.radio[1]) == AddrOf(n.radio[1])
    requires Sends(c, n, To(Rs, due.routers), free, s0, s1) && Sends(c, t, Starts(r, soon), free, s1, s2)
    requires Sends(c, t, To(Ns, due.early), free, s2, s3) && Sends(c, t, Starts(first, lost), free, s3, s4)
    requires Sends(c, t, To(Ns, due.late), free, s4, s5)
    ensures Sends(c, n,
      To(Rs, due.routers) + Starts(r, soon) + To(Ns, due.early) + Starts(first, lost) + To(Ns, due.late), free, s0, s5)
  {
    hide Sends;
    var a, b, d, e, f := To(Rs, due.routers), Starts(r, soon), To(Ns, due.early), Starts(first, lost), To(Ns, due.late);
    SendsAlike(c, n, t, b, free, s1, s2);
    SendsAlike(c, n, t, d, free, s2, s3);
    SendsAlike(c, n, t, e, free, s3, s4);
    SendsAlike(c, n, t, f, free, s4, s5);
    SendsMore(c, n, a, b, free, s0, s1, s2);
    SendsMore(c, n, a + b, d, free, s0, s2, s3);
    SendsMore(c, n, a + b + d, e, free, s0, s3, s4);
    SendsMore(c, n, a + b + d + e, f, free, s0, s4, s5);
  }

  lemma FreeMeans(used: seq<bool>)
    ensures FirstFree(used) < |used| <==> false in used
  {
  }

  lemma ZeroCode(b: seq<Byte>)
    requires |b| >= 44 && b[6] == NEXT_HEADER_NOT_SET && forall i | 41 <= i < 44 :: b[i] == 0
    ensures Has(b, 41, [0, 0, 0]) && Has(b, 6, [NEXT_HEADER_NOT_SET])
  {
  }

  lemma FilledFrom(x: seq<Byte>, m: seq<Byte>, y: seq<Byte>, at: nat, length: nat, os: seq<NdOption>, w: nat)
    requires SameOutside(x, m, 44, 45) && Filled(m, y, at, length, os, w) && at >= 45
    ensures Filled(x, y, at, length, os, w)
  {
    hide Laid, SizeOfAll, AllWellFormed;
    assert x[40 + length..] == x[45..][length - 5..] == m[45..][length - 5..] == m[40 + length..];
  }

  lemma BodyBuilt(x: seq<Byte>, y: seq<Byte>, at: nat, length: nat, os: seq<NdOption>, w: nat, to: seq<Byte>)
    requires Filled(x, y, at, length, os, w) && |to| == 16
    requires Has(x, 7, [255]) && Has(x, 24, to) && Has(x, 41, [0, 0, 0]) && Has(x, 6, [NEXT_HEADER_NOT_SET])
    ensures Has(y, 7, [255]) && Has(y, 24, to) && Has(y, 41, [0, 0, 0]) && Has(y, 6, [NEXT_HEADER_NOT_SET])
    ensures AllWellFormed(os, w) && Laid(y, at, os, w) && 40 + length == at + SizeOfAll(os, w)
  {
    hide Laid, SizeOfAll, AllWellFormed, Has, SameOutside;
    HasKept(x, y, 44, 40 + length, 6, [NEXT_HEADER_NOT_SET]);
    HasKept(x, y, 44, 40 + length, 7, [255]);
    HasKept(x, y, 44, 40 + length, 24, to);
    HasKept(x, y, 44, 40 + length, 41, [0, 0, 0]);
  }
}
