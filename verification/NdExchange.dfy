/** From one node to another: what a node sends, taken apart by the loops of the node that receives it. */
module NdExchange {
  import opened Bytes
  import opened Ipv6Address
  import opened PrefixTable
  import opened InterfaceManager
  import opened NdOptions
  import opened NdNode
  import opened NdFields
  import opened Packet
  import opened NdMessages
  import opened Icmpv6
  import opened Ipv6

  /** The length field says where the options end. */
  lemma SentLength(b: seq<Byte>, kind: Kind, c: Config, n: Node, source: seq<Byte>, to: seq<Byte>, lifetime: nat,
                   eui: nat)
    requires StorageFits(n.storage) && IsMessageFrom(b, kind, c, n, source, to, lifetime, eui)
    ensures |b| == 1532
    ensures 40 + LengthOf(b) == OptionsAt(kind) + SizeOfAll(OptionsOf(kind, c, n, lifetime, eui), c.idSize) <= 1500
  {
    hide HasBody, Laid, OptionsOf, SizeOfAll, AllWellFormed, BigEndian, Has, Field16, SourceOf;
    var size := OptionsAt(kind) + SizeOfAll(OptionsOf(kind, c, n, lifetime, eui), c.idSize);
    FourBytes();
    Read16(b, 4, size - 40);
    LengthIsField(b);
  }

  lemma LengthIsField(b: seq<Byte>)
    requires |b| >= 1532
    ensures LengthOf(b) == Field16(b, 4)
  {
  }

  /** A solicitation of routers tells the receiver the sender's identifier. */
  lemma SolicitationIsRead(b: seq<Byte>, from: Config, n: Node, source: seq<Byte>, to: seq<Byte>, c: Config)
    requires StorageFits(n.storage) && IsMessageFrom(b, Rs, from, n, source, to, 0, 0)
    requires ValidConfig(from) && ValidConfig(c) && from.idSize == c.idSize
    ensures |b| >= 1532 && LengthOf(b) <= 1460 && SolicitedBy(c, b) == from.radioId
    ensures Walk(RouterSolicitations, b, 48, 40 + LengthOf(b), c.idSize)
      == Walked([LinkLayer(from.radioId)], Complete, 40 + LengthOf(b))
  {
    hide HasBody, Laid, SizeOfAll, BigEndian, Has, SourceOf, Walk, Pow256;
    SentLength(b, Rs, from, n, source, to, 0, 0);
    var os := [LinkLayer(from.radioId)];
    WalkReads(RouterSolicitations, b, 48, os, c.idSize);
    OnlyAll(RouterSolicitations, os);
    assert os[..0] == [];
  }

  /** A message between neighbors holds the sender's identifier and one registration; all its fields arrive. */
  lemma NeighborMessageIsRead(b: seq<Byte>, kind: Kind, from: Config, n: Node, source: seq<Byte>, to: seq<Byte>,
                              lifetime: nat, eui: nat, c: Config)
    requires StorageFits(n.storage) && IsMessageFrom(b, kind, from, n, source, to, lifetime, eui)
    requires (kind.Ns? || kind.Na?) && ValidConfig(from) && ValidConfig(c) && from.idSize == c.idSize
    ensures |b| >= 1532 && LengthOf(b) <= 1460
    ensures Walk(NeighborMessages, b, 64, 40 + LengthOf(b), c.idSize)
      == Walked([LinkLayer(from.radioId),
          if kind.Ns? then Registration(1500, from.radioId) else Registration(lifetime, eui)],
        Complete, 40 + LengthOf(b))
  {
    hide HasBody, Laid, SizeOfAll, BigEndian, Has, SourceOf, Walk, Pow256, WellFormed;
    SentLength(b, kind, from, n, source, to, lifetime, eui);
    var os := OptionsOf(kind, from, n, lifetime, eui);
    WalkReads(NeighborMessages, b, 64, os, c.idSize);
    OnlyAll(NeighborMessages, os);
  }

  /** So a registration asked for by a neighbor is confirmed with the lifetime and the identifier it asked for. */
  lemma RegistrationIsConfirmed(b: seq<Byte>, from: Config, n: Node, source: seq<Byte>, to: seq<Byte>, linkLayer: nat,
                                c: Config)
    requires StorageFits(n.storage) && IsMessageFrom(b, Ns, from, n, source, to, 0, linkLayer)
    requires ValidConfig(from) && ValidConfig(c) && from.idSize == c.idSize && !(b[48] == 0xFF && b[49] == 0x02)
    ensures |b| >= 1532 && LengthOf(b) <= 1460 && ToConfirm(c, b, true) == [Registration(1500, from.radioId)]
    ensures from.radioId % Pow256(c.idSize) == from.radioId
  {
    hide HasBody, Laid, SizeOfAll, BigEndian, Has, SourceOf, Walk, WellFormed, AllWellFormed;
    NeighborMessageIsRead(b, Ns, from, n, source, to, 0, linkLayer, c);
    SentLength(b, Ns, from, n, source, to, 0, linkLayer);
    var os := [LinkLayer(from.radioId), Registration(1500, from.radioId)];
    assert os[..1] == [LinkLayer(from.radioId)] && os[..1][..0] == [];
    assert Registrations(os[..1]) == Registrations(os[..1][..0]) == [];
    assert Registrations(os) == Registrations(os[..1]) + [os[1]];
  }

  /** The link-local address of a node is one for the message checks. */
  lemma LinkLocalIsLinkLocal(iid: nat, w: nat)
    requires ValidIdSize(w)
    ensures |LinkLocal(iid, w)| == 16 && IsLinkLocal(LinkLocal(iid, w))
  {
    hide Formed;
    var prefix := [0xFE, 0x80] + Zeros(14);
    LinkLocalIsAddress(iid, w);
    var a := LinkLocal(iid, w);
    forall k | 0 <= k < 8 ensures a[k] == prefix[k] {
      FormedKeepsPrefix(prefix, 64, iid, w, k);
    }
    assert a[2..8] == Zeros(6);
  }

  /** An advertisement whose contexts are quiet, as one node sends it, is dropped by every other node that knows newer
      border router information, versions compared with halves exchanged, and accepted by all others: such a node
      takes over the parameters, sets the advertised prefixes in their order, stores the live contexts, stops
      soliciting, and passes the message on or registers at the sender. */
  lemma AdvertisementIsHeard(b: seq<Byte>, from: Config, sender: Node, to: seq<Byte>, linkLayer: nat, c: Config,
                             n: Node)
    requires GoodNode(from, sender) && GoodNode(c, n) && from.idSize == c.idSize && from.routeOver == c.routeOver
    requires |sender.radio| >= 2 && QuietContexts(sender.contexts)
    requires IsMessageFrom(b, Ra, from, sender, SourceOf(Ra, sender), to, 0, linkLayer)
    ensures |b| >= 1532 && LengthOf(b) <= 1460 && AllUsable(PrefixOptions(sender.radio, |sender.radio|))
    ensures Heard(c, n, b, false).1.Dropped? <==> !NewTo(c, sender.storage, n.storage)
    ensures !NewTo(c, sender.storage, n.storage) ==> Heard(c, n, b, false).0 == n
    ensures NewTo(c, sender.storage, n.storage) ==> Follows(from, sender, c, n, b, Heard(c, n, b, false).0)
    ensures NewTo(c, sender.storage, n.storage) ==>
      Heard(c, n, b, false).1 == if c.routeOver && n.storage.isRouter then Relayed else Registers(from.radioId)
  {
    hide *;
    MessageParts(b, from, sender, to, linkLayer);
    SentLength(b, Ra, from, sender, SourceOf(Ra, sender), to, 0, linkLayer);
    SizesOf(from, sender, linkLayer);
    NodeParts(from, sender);
    NodeParts(c, n);
    AdvertisementArrives(from, sender, c, n, b, 40 + LengthOf(b));
    HeardMeans(c, n, b, false);
    FollowsMeans(from, sender, c, n, b, Heard(c, n, b, false).0);
  }

  /** The state `r` is what a sender's advertisement `b` makes of a receiver. */
  ghost predicate Follows(from: Config, sender: Node, c: Config, n: Node, b: seq<Byte>, r: Node)
    requires ValidConfig(c) && AllUsable(PrefixOptions(sender.radio, |sender.radio|)) && StorageFits(sender.storage)
    requires |b| >= 1532 && ContextsFit(sender.contexts) && |n.contexts| == CONTEXTS
  {
    && r.radio == SetAll(c, n.radio, PrefixOptions(sender.radio, |sender.radio|))
    && r.uart == n.uart && r.solicitor == n.solicitor.(sent := 0)
    && r.contexts == Overlaid(n.contexts, sender.contexts, CONTEXTS)
    && r.storage == WithParameters(if c.routeOver then Received(sender.storage, n.storage) else n.storage, b)
  }

  lemma FollowsMeans(from: Config, sender: Node, c: Config, n: Node, b: seq<Byte>, r: Node)
    requires ValidConfig(c) && AllUsable(PrefixOptions(sender.radio, |sender.radio|)) && StorageFits(sender.storage)
    requires |b| >= 1532 && ContextsFit(sender.contexts) && |n.contexts| == CONTEXTS
    ensures Follows(from, sender, c, n, b, r) <==>
      && r.radio == SetAll(c, n.radio, PrefixOptions(sender.radio, |sender.radio|))
      && r.uart == n.uart && r.solicitor == n.solicitor.(sent := 0)
      && r.contexts == Overlaid(n.contexts, sender.contexts, CONTEXTS)
      && r.storage == WithParameters(if c.routeOver then Received(sender.storage, n.storage) else n.storage, b)
  {
  }

  lemma NodeParts(c: Config, n: Node)
    requires GoodNode(c, n)
    ensures StorageFits(n.storage) && ValidConfig(c) && |n.contexts| == CONTEXTS == 16 && ContextsFit(n.contexts)
    ensures IsRow(n.radio) && n.radio != []
  {
  }

  lemma SizesOf(from: Config, sender: Node, linkLayer: nat)
    ensures OptionsAt(Ra) == 56 && OptionsOf(Ra, from, sender, 0, linkLayer) == Offered(from, sender)
    ensures RA_OPTIONS == 56
  {
  }

  lemma MessageParts(b: seq<Byte>, from: Config, sender: Node, to: seq<Byte>, linkLayer: nat)
    requires GoodNode(from, sender) && |sender.radio| >= 2
    requires IsMessageFrom(b, Ra, from, sender, SourceOf(Ra, sender), to, 0, linkLayer)
    ensures |b| >= 1532 && AllWellFormed(Offered(from, sender), from.idSize)
    ensures Laid(b, 56, Offered(from, sender), from.idSize)
    ensures StorageFits(sender.storage) && HasParameters(b, sender.storage) && AcceptsRa(b)
  {
    hide HasParameters, Laid, Offered, SizeOfAll, AllWellFormed, BigEndian, LinkLocal, Good, StorageFits, ContextsFit;
    SentLength(b, Ra, from, sender, SourceOf(Ra, sender), to, 0, linkLayer);
    LinkLocalIsLinkLocal(IdOn(from, INTERFACE_RADIO), from.idSize);
    SourceIsLinkLocal(from, sender);
    assert b[8..24] == LinkLocal(IdOn(from, INTERFACE_RADIO), from.idSize);
  }

  lemma SourceIsLinkLocal(c: Config, n: Node)
    requires GoodNode(c, n) && |n.radio| >= 2
    ensures SourceOf(Ra, n) == LinkLocal(IdOn(c, INTERFACE_RADIO), c.idSize)
  {
  }

  // ---------------------------------------------------------------------------------------------
  // On the way
  // ---------------------------------------------------------------------------------------------

  /** Next header and source are filled in: the message is still complete, from an address of the sender that is not the
      unspecified one. */
  lemma UnderwayIsMessage(b: seq<Byte>, kind: Kind, c: Config, n: Node, to: seq<Byte>, lifetime: nat, linkLayer: nat)
    requires GoodNode(c, n) && |n.radio| >= 2 && StorageFits(n.storage) && |to| == 16
    requires IsMessage(b, kind, c, n, to, lifetime, linkLayer)
    ensures |b| == 1532 && LengthOf(b) <= 1460 && IsRow(n.radio)
    ensures var u := Underway(n.radio, b); var source := SourceOnAir(n.radio, SourceOf(kind, n));
      && IsMessageFrom(u, kind, c, n, source, to, lifetime, linkLayer)
      && LengthOf(u) == LengthOf(b) && u[6] == ICMPV6 == 58 && u[8..24] == source && u[24..40] == to
      && source != NULL_ADDR && HasAddress(n.radio, source)
  {
    hide *;
    RowsOf(c, n);
    var source := SourceOf(kind, n);
    SourceIsOwn(kind, n);
    NodeParts(c, n);
    HandedOver(b, kind, c, n, to, lifetime, linkLayer);
    HeaderOf(b, kind, c, n, source, to, lifetime, linkLayer);
    SentLength(b, kind, c, n, source, to, lifetime, linkLayer);
    SourceHolds(c, n, source);
    UnderwayFits(n.radio, b);
    WrittenInFront(b, n.radio, source);
    FrontReplaced(b, Underway(n.radio, b), kind, c, n, source, SourceOnAir(n.radio, source), to, lifetime, linkLayer);
    HeaderOf(Underway(n.radio, b), kind, c, n, SourceOnAir(n.radio, source), to, lifetime, linkLayer);
  }

  lemma HandedOver(b: seq<Byte>, kind: Kind, c: Config, n: Node, to: seq<Byte>, lifetime: nat, linkLayer: nat)
    requires |n.radio| >= 2 && StorageFits(n.storage) && IsMessage(b, kind, c, n, to, lifetime, linkLayer)
    ensures IsMessageFrom(b, kind, c, n, SourceOf(kind, n), to, lifetime, linkLayer) && |b| == 1532 && b[6] == 255
  {
    ByteAt(b, 6, NEXT_HEADER_NOT_SET);
  }

  lemma HeaderOf(b: seq<Byte>, kind: Kind, c: Config, n: Node, source: seq<Byte>, to: seq<Byte>, lifetime: nat,
                 linkLayer: nat)
    requires StorageFits(n.storage) && IsMessageFrom(b, kind, c, n, source, to, lifetime, linkLayer)
    requires |source| == 16 && |to| == 16
    ensures |b| == 1532 && b[7] == 255 && b[8..24] == source && b[24..40] == to
    ensures b[40] == Typecode(kind) && b[41] == 0 && b[42] == 0 && b[43] == 0
  {
    hide Laid, SizeOfAll, AllWellFormed, BigEndian, OptionsOf, HasBody, StorageFits, Typecode;
    ByteAt(b, 7, 255);
    ByteAt(b, 40, Typecode(kind));
    assert b[41] == b[41..44][0] && b[42] == b[41..44][1] && b[43] == b[41..44][2];
  }

  /** The source that the interface manager fills in is one of the node's addresses. */
  lemma SourceHolds(c: Config, n: Node, source: seq<Byte>)
    requires GoodNode(c, n) && HasAddress(n.radio, source) && n.radio != []
    ensures |SourceOnAir(n.radio, source)| == 16 && SourceOnAir(n.radio, source) != NULL_ADDR
    ensures HasAddress(n.radio, SourceOnAir(n.radio, source))
  {
    hide LinkLocal, RouterSolicitation.Good, StorageFits, ContextsFit, ValidConfig, FirstAddress;
    SourceLength(n.radio, source);
    SourceIsSpecified(n.radio, 1);
  }

  /** Messages come from an address of the sender, or from an empty slot. */
  lemma SourceIsOwn(kind: Kind, n: Node)
    requires |n.radio| >= 2 && IsRow(n.radio)
    ensures HasAddress(n.radio, SourceOf(kind, n)) && |SourceOf(kind, n)| == 16
  {
  }

  lemma WrittenInFront(b: seq<Byte>, row: seq<Prefix>, source: seq<Byte>)
    requires |b| == 1532 && row != [] && IsRow(row) && b[8..24] == source && |SourceOnAir(row, source)| == 16
    ensures SameOutside(b, Underway(row, b), 6, 24) && Underway(row, b)[7] == b[7]
    ensures Underway(row, b)[8..24] == SourceOnAir(row, source)
  {
    hide FirstAddress, SourceOnAir;
    assert WithNextHeader(b)[8..24] == source;
  }

  lemma FrontReplaced(b: seq<Byte>, u: seq<Byte>, kind: Kind, c: Config, n: Node, source: seq<Byte>, other: seq<Byte>,
                      to: seq<Byte>, lifetime: nat, linkLayer: nat)
    requires StorageFits(n.storage) && IsMessageFrom(b, kind, c, n, source, to, lifetime, linkLayer)
    requires ValidConfig(c) && SameOutside(b, u, 6, 24) && u[7] == 255 && u[8..24] == other && |other| == 16
    ensures IsMessageFrom(u, kind, c, n, other, to, lifetime, linkLayer)
  {
    hide Has, Laid, SizeOfAll, AllWellFormed, BigEndian, OptionsOf, Pow256, StorageFits;
    LaidKept(b, u, 6, 24, OptionsAt(kind), OptionsOf(kind, c, n, lifetime, linkLayer), c.idSize);
    forall i: nat, f | Has(b, i, f) && (i + |f| <= 6 || 24 <= i) ensures Has(u, i, f) {
      HasKept(b, u, 6, 24, i, f);
    }
    HasBoth(u, other);
  }

  lemma HasBoth(u: seq<Byte>, source: seq<Byte>)
    requires |u| >= 24 && u[7] == 255 && u[8..24] == source && |source| == 16
    ensures Has(u, 7, [255]) && Has(u, 8, source)
  {
  }

  /** A message on the air: next header, hop limit, type and code, and its source. Solicitations and advertisements
      of routers come from the link-local address. Those of neighbors come from the address in slot 1, or else from
      the first other slot that has one, and from the link-local address only if there is none; they name their
      target, and an advertisement says whether the sender is a router. */
  lemma MessageOnAir(b: seq<Byte>, kind: Kind, c: Config, n: Node, to: seq<Byte>, lifetime: nat, linkLayer: nat)
    requires GoodNode(c, n) && |n.radio| >= 2 && StorageFits(n.storage) && |to| == 16
    requires IsMessage(b, kind, c, n, to, lifetime, linkLayer)
    ensures |b| == 1532 && IsRow(n.radio) && ValidConfig(c)
    ensures var u := Underway(n.radio, b);
      && u[6] == 58 && u[7] == 255 && u[24..40] == to && u[41] == u[42] == u[43] == 0
      && u[40] == (match kind case Rs => 133 case Ra => 134 case Ns => 135 case Na => 136)
      && (kind.Rs? || kind.Ra? ==> u[8..24] == LinkLocal(c.radioId, c.idSize))
      && (kind.Ns? || kind.Na? ==>
            && (AddrOf(n.radio[1]) != Zeros(16) ==> u[8..24] == AddrOf(n.radio[1]))
            && (forall j | 1 <= j < |n.radio| && AddrOf(n.radio[j]) != Zeros(16)
                  && (forall l | 1 <= l < j :: AddrOf(n.radio[l]) == Zeros(16)) :: u[8..24] == AddrOf(n.radio[j]))
            && ((forall l | 1 <= l < |n.radio| :: AddrOf(n.radio[l]) == Zeros(16)) ==>
                  u[8..24] == LinkLocal(c.radioId, c.idSize)))
      && (kind.Ns? || kind.Na? ==> u[48..64] == to)
      && (kind.Na? ==> u[44] == if n.storage.isRouter then 0xE0 else 0x60)
  {
    hide *;
    NodeParts(c, n);
    SourceIsOwn(kind, n);
    UnderwayIsMessage(b, kind, c, n, to, lifetime, linkLayer);
    var u, source := Underway(n.radio, b), SourceOnAir(n.radio, SourceOf(kind, n));
    SourceLength(n.radio, SourceOf(kind, n));
    HeaderOf(u, kind, c, n, source, to, lifetime, linkLayer);
    BodyOf(u, kind, c, n, source, to, lifetime, linkLayer);
    SourceByKind(kind, c, n);
  }

  lemma BodyOf(u: seq<Byte>, kind: Kind, c: Config, n: Node, source: seq<Byte>, to: seq<Byte>, lifetime: nat,
               linkLayer: nat)
    requires StorageFits(n.storage) && IsMessageFrom(u, kind, c, n, source, to, lifetime, linkLayer) && |to| == 16
    ensures |u| == 1532 && ICMPV6 == 58
    ensures Typecode(kind) == (match kind case Rs => 133 case Ra => 134 case Ns => 135 case Na => 136)
    ensures kind.Ns? || kind.Na? ==> u[48..64] == to
    ensures kind.Na? ==> u[44] == if n.storage.isRouter then 0xE0 else 0x60
  {
    hide Laid, SizeOfAll, AllWellFormed, BigEndian, OptionsOf, StorageFits;
    if kind.Na? {
      ByteAt(u, 44, NaFlags(n.storage));
    }
  }

  lemma SourceByKind(kind: Kind, c: Config, n: Node)
    requires GoodNode(c, n) && |n.radio| >= 2 && ValidConfig(c)
    ensures var source := SourceOnAir(n.radio, SourceOf(kind, n));
      && (kind.Rs? || kind.Ra? ==> source == LinkLocal(c.radioId, c.idSize))
      && (kind.Ns? || kind.Na? ==>
            && source == FirstAddress(n.radio, 1)
            && (AddrOf(n.radio[1]) != Zeros(16) ==> source == AddrOf(n.radio[1]))
            && (forall j | 1 <= j < |n.radio| && AddrOf(n.radio[j]) != Zeros(16)
                  && (forall l | 1 <= l < j :: AddrOf(n.radio[l]) == Zeros(16)) :: source == AddrOf(n.radio[j]))
            && ((forall l | 1 <= l < |n.radio| :: AddrOf(n.radio[l]) == Zeros(16)) ==>
                  source == LinkLocal(c.radioId, c.idSize)))
  {
    hide LinkLocal, RouterSolicitation.Good, StorageFits, ContextsFit;
    SourceIsSpecified(n.radio, 1);
    forall j | 1 <= j < |n.radio| && AddrOf(n.radio[j]) != Zeros(16)
      && (forall l | 1 <= l < j :: AddrOf(n.radio[l]) == Zeros(16))
      ensures FirstAddress(n.radio, 1) == AddrOf(n.radio[j])
    {
      assert EmptyBetween(n.radio, 1, j);
    }
    if forall l | 1 <= l < |n.radio| :: AddrOf(n.radio[l]) == Zeros(16) {
      assert EmptyBetween(n.radio, 1, |n.radio|);
    }
  }

  /** The fixed fields of a router advertisement on the air. */
  lemma AdvertisementOnAir(b: seq<Byte>, c: Config, n: Node, to: seq<Byte>, linkLayer: nat)
    requires GoodNode(c, n) && |n.radio| >= 2 && StorageFits(n.storage) && |to| == 16
    requires IsMessage(b, Ra, c, n, to, 0, linkLayer)
    ensures |b| == 1532 && IsRow(n.radio)
    ensures var u, s := Underway(n.radio, b), n.storage;
      && u[44] == s.curHopLimit
      && u[45] == (if s.managed then 128 else 0) + (if s.otherConfig then 64 else 0)
      && u[46] as int * 256 + u[47] == s.defaultLifetime
      && Field32(u, 48) == s.reachableTime && Field32(u, 52) == s.retransTimer
  {
    hide *;
    NodeParts(c, n);
    UnderwayIsMessage(b, Ra, c, n, to, 0, linkLayer);
    FixedFields(Underway(n.radio, b), c, n, SourceOnAir(n.radio, SourceOf(Ra, n)), to, linkLayer);
  }

  lemma FixedFields(u: seq<Byte>, c: Config, n: Node, source: seq<Byte>, to: seq<Byte>, linkLayer: nat)
    requires StorageFits(n.storage) && IsMessageFrom(u, Ra, c, n, source, to, 0, linkLayer)
    ensures var s := n.storage;
      && |u| == 1532 && u[44] == s.curHopLimit
      && u[45] == (if s.managed then 128 else 0) + (if s.otherConfig then 64 else 0)
      && u[46] as int * 256 + u[47] == s.defaultLifetime
      && Field32(u, 48) == s.reachableTime && Field32(u, 52) == s.retransTimer
  {
    var s := n.storage;
    ByteAt(u, 44, s.curHopLimit);
    ByteAt(u, 45, RaFlags(s));
    Read16(u, 46, s.defaultLifetime);
    Read32(u, 48, s.reachableTime);
    Read32(u, 52, s.retransTimer);
    hide Has, Laid, SizeOfAll, AllWellFormed, BigEndian, OptionsOf, Pow256, Field32;
  }

  /** The receiver zeroes the checksum field: then the message is as it was before it was stamped, and the checksum is
      the right one. */
  lemma ReceivedAsSent(row: seq<Prefix>, b: seq<Byte>)
    requires |b| == 1532 && LengthOf(b) <= 1460 && row != [] && IsRow(row) && b[42] == 0 && b[43] == 0
    ensures var e, u := OnTheAir(row, b), Underway(row, b);
      && Fits(u) && |e| == 1532 && LengthOf(e) == LengthOf(b) && e[6] == u[6] == ICMPV6
      && e[24..40] == u[24..40] && e[40] == u[40] == b[40]
      && Zeroed(e) == u && Field(e, 2) == ChecksumOf(u)
  {
    hide *;
    UnderwayFits(row, b);
    FrontOnly(row, b);
    OnTheAirIs(row, b);
    StampRestores(Underway(row, b));
  }

  lemma FrontOnly(row: seq<Prefix>, b: seq<Byte>)
    requires |b| == 1532 && row != [] && IsRow(row)
    ensures var u := Underway(row, b); u[40] == b[40] && u[42] == b[42] && u[43] == b[43]
  {
    SourceLeavesPayload(row, WithNextHeader(b));
  }

  lemma OnTheAirIs(row: seq<Prefix>, b: seq<Byte>)
    requires |b| == 1532 && LengthOf(b) <= 1460 && row != [] && IsRow(row) && Fits(Underway(row, b))
    ensures OnTheAir(row, b) == Stamped(Underway(row, b), ICMPV6)
  {
  }

  lemma StampRestores(u: seq<Byte>)
    requires |u| == 1532 && Fits(u) && u[42] == 0 && u[43] == 0
    ensures var e := Stamped(u, ICMPV6);
      && |e| == 1532 && LengthOf(e) == LengthOf(u) && e[6] == u[6] && e[24..40] == u[24..40] && e[40] == u[40]
      && Zeroed(e) == u && Field(e, 2) == ChecksumOf(u)
  {
    hide *;
    ChecksumIsWord(u);
    StampFills(u);
    ZeroField(u, 2);
    FieldReplacedTwice(u, 2, ChecksumOf(u), 0);
    FieldOfWithField(u, 2, ChecksumOf(u));
    OnlyChecksum(u, ChecksumOf(u));
    LengthStands(u, WithField(u, 2, ChecksumOf(u)));
    assert u[42 := 0][43 := 0] == u;
  }

  lemma StampFills(u: seq<Byte>)
    requires |u| == 1532 && Fits(u) && u[42] == 0 && u[43] == 0
    ensures PAYLOAD_POS == 40 && Stamped(u, ICMPV6) == WithField(u, 2, ChecksumOf(u))
    ensures |WithField(u, 2, ChecksumOf(u))| == 1532
    ensures Zeroed(WithField(u, 2, ChecksumOf(u))) == WithField(WithField(u, 2, ChecksumOf(u)), 2, 0)
  {
    hide ChecksumOf, Splice;
  }

  lemma LengthStands(u: seq<Byte>, e: seq<Byte>)
    requires |u| == |e| == 1532 && u[4] == e[4] && u[5] == e[5]
    ensures LengthOf(e) == LengthOf(u)
  {
  }

  lemma SourceLeavesPayload(row: seq<Prefix>, b: seq<Byte>)
    requires row != [] && IsRow(row) && |b| >= 1532
    ensures WithSource(row, b)[40..] == b[40..]
    ensures WithSource(row, b)[40] == b[40] && WithSource(row, b)[42] == b[42] && WithSource(row, b)[43] == b[43]
  {
    hide FirstAddress;
    SourceLength(row, b[SOURCE_BYTE..DESTINATION_BYTE]);
  }

  lemma OnlyChecksum(b: seq<Byte>, v: nat)
    requires |b| >= 1532
    ensures |WithField(b, 2, v)| == |b| && WithField(b, 2, v)[24..40] == b[24..40]
    ensures forall i | 0 <= i < |b| && i != 42 && i != 43 :: WithField(b, 2, v)[i] == b[i]
  {
  }

  /** What a message `u`, on its way from the node with identifier `from`, does to the node that receives it over the
      radio: the receive filter decides whether Neighbor Discovery sees it. */
  ghost predicate Reaches(c: Config, n: Node, r: Node, from: nat, u: seq<Byte>, free: bool, before: seq<Message>,
                          after: seq<Message>, intact: bool)
    requires GoodNode(c, n) && |n.radio| >= 2 && |u| >= 1532 && LengthOf(u) <= 1460
  {
    if Judge(c, n, from, INTERFACE_RADIO, 0, u) == Delivered then
      && (intact <==> !Harms(c, n, u, INTERFACE_RADIO, false))
      && (intact ==> Reacted(c, n, r, u, INTERFACE_RADIO, false, free, before, after))
    else intact && r == n && after == before
  }

  /** What the receiving layers make of a message of Neighbor Discovery. */
  lemma ReachesIs(c: Config, n: Node, r: Node, from: nat, row: seq<Prefix>, b: seq<Byte>, kind: Kind, free: bool,
                  routesMissing: bool, before: Log, after: Log, intact: bool, released: bool)
    requires GoodNode(c, n) && |n.radio| >= 2 && row != [] && IsRow(row)
    requires |b| == 1532 && LengthOf(b) <= 1460 && b[40] == Typecode(kind) && b[42] == 0 && b[43] == 0
    requires |OnTheAir(row, b)| == 1532 && LengthOf(OnTheAir(row, b)) <= 1460
    requires Passed(c, n, r, from, 0, OnTheAir(row, b), INTERFACE_RADIO, false, free, routesMissing, before, after,
      intact, released)
    ensures LengthOf(Underway(row, b)) <= 1460
    ensures Reaches(c, n, r, from, Underway(row, b), free, before.sent, after.sent, intact)
  {
    hide Judge, Harms, Reacted, EchoReply, Zeroed, GoodNode, OnTheAir, Underway, IsForeign;
    ReceivedAsSent(row, b);
    UnderwayFits(row, b);
    var e := OnTheAir(row, b);
    JudgeAlike(c, n, from, INTERFACE_RADIO, 0, e, Underway(row, b));
    IcmpMeans(0, e);
    KindsOfPackets(c, 0, e);
  }

  /** Packet k of a node is the one a message is received into: from the radio, no installation. */
  ghost predicate Listens(b: ICMPv6, k: nat)
    requires b.pool.Valid()
    reads b.pool.packets
  {
    && k < |b.pool.packets| && b.pool.packets[k].valid
    && b.pool.packets[k].targetInterface == INTERFACE_RADIO && !b.pool.packets[k].ndInstallation
  }

  lemma ListensMeans(b: ICMPv6, k: nat)
    requires b.pool.Valid()
    ensures Listens(b, k) <==>
      && k < |b.pool.packets| && b.pool.packets[k].valid
      && b.pool.packets[k].targetInterface == 0 && !b.pool.packets[k].ndInstallation
    ensures INTERFACE_RADIO == 0 && ICMPV6 != 0 && ICMPV6 != HOP_BY_HOP && NEXT_HEADER_NOT_SET != HOP_BY_HOP
    ensures NEXT_HEADER_NOT_SET == 255
  {
  }

  /** A message goes over the air: the sender's IP layer and interface manager complete it, and the layers of another
      node receive it. */
  method Transmit(bytes: seq<Byte>, a: IPv6, b: IPv6, k: nat, ghost kind: Kind, ghost sender: Node, ghost to: seq<Byte>,
                  ghost lifetime: nat, ghost linkLayer: nat) returns (intact: bool)
    requires b.icmp.Valid() && b.icmp.pool.Valid() && Listens(b.icmp, k)
    requires a.icmp.manager.Valid() && a.icmp.manager.Row(0) == sender.radio && GoodNode(a.icmp.config, sender)
    requires |sender.radio| >= 2 && StorageFits(sender.storage) && |to| == 16
    requires IsMessage(bytes, kind, a.icmp.config, sender, to, lifetime, linkLayer)
    modifies b.icmp`sent, b.icmp`echoes, b.icmp`solicitor, b.icmp`storage, b.icmp.sentRs, b.icmp.contexts
    modifies b.icmp.manager.prefixList, b.icmp.pool, b.icmp.pool.packets, b.icmp.pool.Buffers()
    ensures |bytes| == 1532 && IsRow(sender.radio) && LengthOf(Underway(sender.radio, bytes)) <= 1460
    ensures GoodNode(b.icmp.config, old(b.icmp.State())) && |old(b.icmp.State()).radio| >= 2
    ensures intact ==> b.icmp.Valid()
    ensures Reaches(b.icmp.config, old(b.icmp.State()), b.icmp.State(), a.icmp.config.radioId,
      Underway(sender.radio, bytes), false in old(b.icmp.pool.Used()), old(b.icmp.sent), b.icmp.sent, intact)
  {
    hide *;
    b.icmp.ValidMeans();
    b.icmp.Shape();
    b.icmp.StateMeans();
    b.icmp.TablesMean();
    b.icmp.pool.Sizes();
    ListensMeans(b.icmp, k);
    NodeParts(a.icmp.config, sender);
    HandedOver(bytes, kind, a.icmp.config, sender, to, lifetime, linkLayer);
    SourceAndPayload(bytes, kind, a.icmp.config, sender, to, lifetime, linkLayer);
    UnderwayIsMessage(bytes, kind, a.icmp.config, sender, to, lifetime, linkLayer);
    ReceivedAsSent(sender.radio, bytes);
    ghost var n, used, before := b.icmp.State(), b.icmp.pool.Used(), Log(b.icmp.sent, b.icmp.echoes);
    var message: IPv6Packet := b.icmp.pool.packets[k];
    forall i | 0 <= i < |bytes| {
      message.buffer[i] := bytes[i];
    }
    assert message.buffer[..] == bytes;
    message.transportNextHeader := ICMPV6;
    ArrivedIs(message.buffer);
    a.Complete(message);
    message.transportNextHeader := 0;
    b.icmp.pool.Sizes();
    assert b.icmp.pool.Used() == used;
    ArrivedIs(message.buffer);
    b.icmp.ValidMeans();
    b.icmp.StateMeans();
    b.icmp.TablesMean();
    assert b.icmp.State() == n;
    ghost var released: bool;
    intact, released := b.Receive(a.icmp.config.radioId, k);
    ReachesIs(b.icmp.config, n, b.icmp.State(), a.icmp.config.radioId, sender.radio, bytes, kind, false in used,
      b.icmp.routesMissing, before, Log(b.icmp.sent, b.icmp.echoes), intact, released);
  }

  lemma SourceAndPayload(b: seq<Byte>, kind: Kind, c: Config, n: Node, to: seq<Byte>, lifetime: nat, linkLayer: nat)
    requires |n.radio| >= 2 && StorageFits(n.storage) && IsRow(n.radio) && |to| == 16
    requires IsMessage(b, kind, c, n, to, lifetime, linkLayer)
    ensures |b| == 1532 && b[40] == Typecode(kind) && b[42] == 0 && b[43] == 0
  {
    hide *;
    SourceIsOwn(kind, n);
    HandedOver(b, kind, c, n, to, lifetime, linkLayer);
    HeaderOf(b, kind, c, n, SourceOf(kind, n), to, lifetime, linkLayer);
  }

  // ---------------------------------------------------------------------------------------------
  // Advertisements
  // ---------------------------------------------------------------------------------------------

  /** The message `u` of the sender is followed: what it makes of the receiver, and what that one sends on it. */
  ghost predicate Arrives(from: Config, sender: Node, c: Config, n: Node, r: Node, u: seq<Byte>, free: bool,
                          before: seq<Message>, after: seq<Message>)
    requires ValidConfig(c) && StorageFits(sender.storage) && ContextsFit(sender.contexts)
    requires |n.contexts| == CONTEXTS && |u| >= 1532
  {
    && AllUsable(PrefixOptions(sender.radio, |sender.radio|))
    && var reaction := if c.routeOver && n.storage.isRouter then Relayed else Registers(from.radioId);
       exists h ::
         && Follows(from, sender, c, n, u, h) && |h.radio| >= 2 && StorageFits(h.storage)
         && r == (if reaction.Relayed? then h.(contexts := Refreshed(h.contexts)) else h)
         && AnswersAdvertisement(c, h, reaction, u, free, before, after)
  }

  /** An advertisement on its way is followed exactly if the receive filter lets it through and it is new; else it
      changes nothing. */
  ghost predicate Heeds(from: Config, sender: Node, c: Config, n: Node, r: Node, u: seq<Byte>, free: bool,
                        before: seq<Message>, after: seq<Message>)
    requires ValidConfig(c) && StorageFits(sender.storage) && ContextsFit(sender.contexts)
    requires |n.contexts| == CONTEXTS && |u| >= 1532
  {
    if Judge(c, n, from.radioId, INTERFACE_RADIO, 0, u) == Delivered && NewTo(c, sender.storage, n.storage)
      then Arrives(from, sender, c, n, r, u, free, before, after)
      else r == n && after == before
  }

  /** What following an advertisement means for a prefix of the sender that is advertised, and whose formed address no
      later one of it has: it arrives with lifetimes, flags and length in the slot of that address. */
  lemma PrefixFollowed(from: Config, sender: Node, c: Config, n: Node, u: seq<Byte>, r: Node, i: nat)
    requires GoodNode(from, sender) && GoodNode(c, n) && |u| >= 1532 && ValidConfig(c) && StorageFits(sender.storage)
    requires AllUsable(PrefixOptions(sender.radio, |sender.radio|)) && IsRow(sender.radio)
    requires ContextsFit(sender.contexts) && |n.contexts| == CONTEXTS && Follows(from, sender, c, n, u, r)
    requires 1 <= i < |sender.radio| && sender.radio[i].valid > 0
    requires forall j | i < j < |sender.radio| && sender.radio[j].valid > 0 ::
        FormedFrom(c, sender.radio[j]) != FormedFrom(c, sender.radio[i])
    ensures var p := sender.radio[i];
      var a := Formed(AddrOf(p), p.address.prefixLength, IdOn(c, INTERFACE_RADIO), c.idSize);
      forall k | 0 <= k < |r.radio| && AddrOf(r.radio[k]) == a ::
        && r.radio[k].valid == p.valid && r.radio[k].preferred == p.preferred && r.radio[k].onlink == p.onlink
        && r.radio[k].autonomous == p.autonomous && r.radio[k].address.prefixLength == p.address.prefixLength
  {
    hide SetAll, PrefixOptions, Overlaid, Formed, Good, LinkLocal, RouterSolicitation.Good, AllUsable, HasRoom;
    hide Distinct, StorageFits;
    RowsOf(from, sender);
    IsDistinct(c, n);
    PrefixArrives(c, n.radio, sender.radio, i, |sender.radio|);
  }

  /** And for the rest: a live context arrives in its entry, the parameters and the border router arrive, and soliciting
      stops while its timers stay. */
  lemma RestFollowed(from: Config, sender: Node, c: Config, n: Node, u: seq<Byte>, r: Node, i: nat)
    requires GoodNode(from, sender) && GoodNode(c, n) && |u| >= 1532 && ValidConfig(c) && StorageFits(sender.storage)
    requires AllUsable(PrefixOptions(sender.radio, |sender.radio|)) && HasParameters(u, sender.storage)
    requires ContextsFit(sender.contexts) && |n.contexts| == CONTEXTS && Follows(from, sender, c, n, u, r)
    requires i < CONTEXTS
    ensures |r.contexts| == CONTEXTS
    ensures var e, x := sender.contexts[i], r.contexts[i];
      && (e.lifetime == 0 ==> x == n.contexts[i])
      && (e.lifetime > 0 ==>
            && x.lifetime == 0xFFFF && x.prefixLength == e.prefixLength && |x.prefix| == 16
            && forall k | 0 <= k < 16 :: x.prefix[k] == if e.prefixLength > 64 || k < 8 then e.prefix[k] else 0)
    ensures r.storage.managed == sender.storage.managed && r.storage.otherConfig == sender.storage.otherConfig
    ensures r.storage.reachableTime == sender.storage.reachableTime
    ensures r.storage.retransTimer == sender.storage.retransTimer
    ensures r.storage.curHopLimit
      == if sender.storage.curHopLimit != 0 then sender.storage.curHopLimit else n.storage.curHopLimit
    ensures r.storage.isRouter == n.storage.isRouter && r.storage.isBorderRouter == n.storage.isBorderRouter
    ensures c.routeOver ==>
        && r.storage.brAddress == sender.storage.brAddress
        && r.storage.brVersion == sender.storage.brVersion % 0x1_0000 * 0x1_0000 + sender.storage.brVersion / 0x1_0000
        && r.storage.abroLifetime == if sender.storage.abroLifetime == 0 then 10000 else sender.storage.abroLifetime
    ensures r.solicitor.sent == 0 && r.solicitor.pending == n.solicitor.pending
  {
    hide SetAll, PrefixOptions, Overlaid, HasParameters, Good, LinkLocal, RouterSolicitation.Good, AllUsable;
    hide WithParameters, Received, ContextFits, StorageFits;
    StorageArrives(c, sender.storage, n.storage, u);
    ContextsArrive(n.contexts, sender.contexts, i);
  }

  lemma IsDistinct(c: Config, n: Node)
    requires GoodNode(c, n)
    ensures Distinct(n.radio)
  {
  }

  /** Every advertisement whose contexts are quiet, to whomever it is sent, does that; no copy leaves its memory. */
  lemma AdvertisementReaches(bytes: seq<Byte>, from: Config, sender: Node, to: seq<Byte>, linkLayer: nat, c: Config,
                             n: Node, r: Node, free: bool, before: seq<Message>, after: seq<Message>, intact: bool)
    requires GoodNode(from, sender) && GoodNode(c, n) && from.idSize == c.idSize && from.routeOver == c.routeOver
    requires |sender.radio| >= 2 && |n.radio| >= 2 && QuietContexts(sender.contexts) && |to| == 16
    requires StorageFits(sender.storage) && ContextsFit(sender.contexts) && ValidConfig(c) && |n.contexts| == CONTEXTS
    requires IsMessage(bytes, Ra, from, sender, to, 0, linkLayer)
    requires |bytes| == 1532 && IsRow(sender.radio) && LengthOf(Underway(sender.radio, bytes)) <= 1460
    requires Reaches(c, n, r, from.radioId, Underway(sender.radio, bytes), free, before, after, intact)
    ensures intact && Heeds(from, sender, c, n, r, Underway(sender.radio, bytes), free, before, after)
  {
    hide *;
    UnderwayIsMessage(bytes, Ra, from, sender, to, 0, linkLayer);
    SourceStays(from, sender);
    var u := Underway(sender.radio, bytes);
    HeaderOf(u, Ra, from, sender, SourceOf(Ra, sender), to, 0, linkLayer);
    AdvertisementIsHeard(u, from, sender, to, linkLayer, c, n);
    Concluded(from, sender, c, n, r, u, intact, free, before, after);
  }

  lemma SourceStays(c: Config, n: Node)
    requires GoodNode(c, n) && |n.radio| >= 2
    ensures SourceOnAir(n.radio, SourceOf(Ra, n)) == SourceOf(Ra, n) == SourceOf(Rs, n) && |SourceOf(Ra, n)| == 16
    ensures SourceOf(Ra, n) == LinkLocal(IdOn(c, INTERFACE_RADIO), c.idSize)
    ensures HasAddress(n.radio, LinkLocal(IdOn(c, INTERFACE_RADIO), c.idSize))
  {
    hide LinkLocal, RouterSolicitation.Good, StorageFits, ContextsFit, FirstAddress;
  }

  lemma Concluded(from: Config, sender: Node, c: Config, n: Node, r: Node, u: seq<Byte>, intact: bool, free: bool,
                  before: seq<Message>, after: seq<Message>)
    requires GoodNode(from, sender) && GoodNode(c, n) && |n.radio| >= 2 && |u| == 1532 && LengthOf(u) <= 1460
    requires AllUsable(PrefixOptions(sender.radio, |sender.radio|)) && u[7] == 255 && u[41] == 0
    requires u[40] == Typecode(Ra) && StorageFits(sender.storage) && ContextsFit(sender.contexts)
    requires ValidConfig(c) && |n.contexts| == CONTEXTS
    requires var isNew := NewTo(c, sender.storage, n.storage);
      && (Heard(c, n, u, false).1.Dropped? <==> !isNew) && (!isNew ==> Heard(c, n, u, false).0 == n)
      && (isNew ==> Follows(from, sender, c, n, u, Heard(c, n, u, false).0))
      && (isNew ==> Heard(c, n, u, false).1
                      == if c.routeOver && n.storage.isRouter then Relayed else Registers(from.radioId))
    requires Reaches(c, n, r, from.radioId, u, free, before, after, intact)
    ensures intact && Heeds(from, sender, c, n, r, u, free, before, after)
  {
    hide Heard, GoodNode, StorageFits, ContextsFit, ValidConfig, NewTo, Follows, Answered, AllUsable, PrefixOptions;
    hide Confirms, ToConfirm, AcceptsRs, Judge, IsMessage;
  }

  /** The message `bytes` was sent as an advertisement to `to` and heeded. To all routers, the receive filter lets it
      through exactly to routers with another identifier than the sender's. */
  ghost predicate Advertised(from: Config, sender: Node, c: Config, n: Node, r: Node, bytes: seq<Byte>, to: seq<Byte>,
                             free: bool, before: seq<Message>, after: seq<Message>)
  {
    && |bytes| == 1532 && IsRow(sender.radio) && sender.radio != []
    && ValidConfig(c) && StorageFits(sender.storage) && ContextsFit(sender.contexts) && |n.contexts| == CONTEXTS
    && var u := Underway(sender.radio, bytes);
       && Heeds(from, sender, c, n, r, u, free, before, after)
       && (to == ALL_ROUTERS ==>
             Judge(c, n, from.radioId, INTERFACE_RADIO, 0, u)
               == if n.storage.isRouter && from.radioId != c.radioId then Delivered else Discarded)
  }

  lemma AdvertisedIs(from: Config, sender: Node, c: Config, n: Node, r: Node, bytes: seq<Byte>, to: seq<Byte>,
                     linkLayer: nat, free: bool, before: seq<Message>, after: seq<Message>)
    requires GoodNode(from, sender) && GoodNode(c, n) && |sender.radio| >= 2 && StorageFits(sender.storage)
    requires ContextsFit(sender.contexts) && |n.contexts| == CONTEXTS && ValidConfig(c) && |to| == 16
    requires IsMessage(bytes, Ra, from, sender, to, 0, linkLayer) && |bytes| == 1532 && IsRow(sender.radio)
    requires Heeds(from, sender, c, n, r, Underway(sender.radio, bytes), free, before, after)
    ensures Advertised(from, sender, c, n, r, bytes, to, free, before, after)
  {
    hide GoodNode, StorageFits, ContextsFit, ValidConfig, IsMessage, Underway, Heeds, IsRow, Judge;
    UnderwayIsMessage(bytes, Ra, from, sender, to, 0, linkLayer);
    if to == ALL_ROUTERS {
      RoutersHear(c, n, from.radioId, Underway(sender.radio, bytes));
    }
  }

  /** What a node sends when it follows an advertisement: a router of the route-over build advertises to all routers;
      every other node solicits the sender, at its identifier, if a packet is free. Nothing else is sent. */
  lemma FollowerAnswers(from: Config, sender: Node, c: Config, n: Node, r: Node, u: seq<Byte>, free: bool,
                        before: seq<Message>, after: seq<Message>)
    requires ValidConfig(c) && StorageFits(sender.storage) && ContextsFit(sender.contexts)
    requires |n.contexts| == CONTEXTS && |u| >= 1532
    requires Arrives(from, sender, c, n, r, u, free, before, after)
    ensures |after| >= |before| && after[..|before|] == before
    ensures |after| == |before| + if (c.routeOver && n.storage.isRouter) || free then 1 else 0
    ensures |after| > |before| ==> |after[|before|].bytes| == 1532
    ensures c.routeOver && n.storage.isRouter ==>
      var m := after[|before|];
      m.kind.Ra? && m.bytes[24..40] == [0xFF, 2, 0, 0, 0, 0, 0, 0, 0, 0, 0, 0, 0, 0, 0, 2] && m.bytes[40] == 134
    ensures !(c.routeOver && n.storage.isRouter) && free ==>
      var m := after[|before|];
      m.kind.Ns? && m.linkLayer == from.radioId && m.bytes[24..40] == u[8..24] && m.bytes[40] == 135
  {
    hide Follows, IsMessage, PrefixOptions, AllUsable, StorageFits, ContextsFit, ValidConfig;
    AllRoutersAre();
    var reaction := if c.routeOver && n.storage.isRouter then Relayed else Registers(from.radioId);
    var h :|
      && Follows(from, sender, c, n, u, h) && |h.radio| >= 2 && StorageFits(h.storage)
      && r == (if reaction.Relayed? then h.(contexts := Refreshed(h.contexts)) else h)
      && AnswersAdvertisement(c, h, reaction, u, free, before, after);
    if c.routeOver && n.storage.isRouter {
      SentTo(after[|before|].bytes, Ra, c, h, ALL_ROUTERS, 0, 0);
    } else if free {
      SentTo(after[|before|].bytes, Ns, c, h, u[8..24], 0, from.radioId);
    }
  }

  lemma AllRoutersAre()
    ensures ALL_ROUTERS == [0xFF, 2, 0, 0, 0, 0, 0, 0, 0, 0, 0, 0, 0, 0, 0, 2]
  {
  }

  lemma SentTo(b: seq<Byte>, kind: Kind, c: Config, n: Node, to: seq<Byte>, lifetime: nat, linkLayer: nat)
    requires |n.radio| >= 2 && StorageFits(n.storage) && IsMessage(b, kind, c, n, to, lifetime, linkLayer)
    requires |to| == 16
    ensures |b| == 1532 && b[24..40] == to
    ensures b[40] == (match kind case Rs => 133 case Ra => 134 case Ns => 135 case Na => 136)
  {
    hide Laid, SizeOfAll, AllWellFormed, BigEndian, OptionsOf, HasBody, StorageFits, SourceOf;
    ByteAt(b, 40, Typecode(kind));
  }

  /** Two nodes that share no memory. */
  ghost predicate Apart(a: ICMPv6, b: ICMPv6) {
    && a != b && a.manager != b.manager && a.pool != b.pool && a.contexts != b.contexts && a.sentRs != b.sentRs
    && a.manager.prefixList != b.manager.prefixList
    && (forall p | p in a.pool.packets :: p !in b.pool.packets)
    && a.pool.Buffers() !! b.pool.Buffers() && b.sentRs !in a.pool.Buffers() && a.sentRs !in b.pool.Buffers()
  }

  lemma ApartMeans(a: ICMPv6, b: ICMPv6)
    requires Apart(a, b)
    ensures a != b && a.manager != b.manager && a.pool != b.pool && a.contexts != b.contexts && a.sentRs != b.sentRs
    ensures a.manager.prefixList != b.manager.prefixList
    ensures forall i | 0 <= i < |b.pool.packets| :: b.pool.packets[i] !in a.pool.packets
    ensures a.pool.Buffers() !! b.pool.Buffers() && b.sentRs !in a.pool.Buffers() && a.sentRs !in b.pool.Buffers()
  {
  }

  /** The whole way, from one node to another: an advertisement whose contexts are quiet is sent, if the sender has a
      packet for it, to all routers or to one node. The receiver follows it exactly if its IP layer hands it on and its
      version is new; else it stays as it is and sends nothing. To all routers, it is handed on exactly by routers with
      another identifier than the sender's. */
  method Advertise(a: IPv6, b: IPv6, k: nat, to: seq<Byte>, linkLayer: nat) returns (sent: bool)
    requires a.icmp.Valid() && b.icmp.Valid() && Apart(a.icmp, b.icmp) && b.icmp.pool.Valid() && Listens(b.icmp, k)
    requires a.icmp.config.idSize == b.icmp.config.idSize && a.icmp.config.routeOver == b.icmp.config.routeOver
    requires QuietContexts(a.icmp.contexts[..]) && |to| == 16 && !NeedsRoute(a.icmp.config, to, linkLayer)
    modifies a.icmp`sent, a.icmp.contexts, a.icmp.pool, a.icmp.pool.packets, a.icmp.pool.Buffers()
    modifies b.icmp`sent, b.icmp`echoes, b.icmp`solicitor, b.icmp`storage, b.icmp.sentRs, b.icmp.contexts
    modifies b.icmp.manager.prefixList, b.icmp.pool, b.icmp.pool.packets, b.icmp.pool.Buffers()
    ensures sent <==> false in old(a.icmp.pool.Used())
    ensures !sent ==> b.icmp.State() == old(b.icmp.State()) && b.icmp.sent == old(b.icmp.sent)
    ensures sent ==> b.icmp.Valid() && a.icmp.sent != []
    ensures sent ==> Advertised(a.icmp.config, old(a.icmp.Tables()), b.icmp.config, old(b.icmp.State()), b.icmp.State(),
        a.icmp.sent[|a.icmp.sent| - 1].bytes, to, false in old(b.icmp.pool.Used()), old(b.icmp.sent), b.icmp.sent)
  {
    hide *;
    a.icmp.ValidMeans();
    a.icmp.Shape();
    a.icmp.TablesMean();
    b.icmp.ValidMeans();
    b.icmp.Shape();
    b.icmp.StateMeans();
    b.icmp.StateIsGood();
    ghost var sender, n, before, free := a.icmp.Tables(), b.icmp.State(), b.icmp.sent, false in b.icmp.pool.Used();
    NodeParts(a.icmp.config, sender);
    NodeParts(b.icmp.config, n);
    ApartMeans(a.icmp, b.icmp);
    sent := SendBeside(a.icmp, b.icmp, k, to, linkLayer);
    if sent {
      a.icmp.ValidMeans();
      a.icmp.Shape();
      var bytes := a.icmp.sent[|a.icmp.sent| - 1].bytes;
      var intact := Transmit(bytes, a, b, k, Ra, sender, to, 0, linkLayer);
      AdvertisementReaches(bytes, a.icmp.config, sender, to, linkLayer, b.icmp.config, n, b.icmp.State(), free, before,
        b.icmp.sent, intact);
      AdvertisedIs(a.icmp.config, sender, b.icmp.config, n, b.icmp.State(), bytes, to, linkLayer, free, before,
        b.icmp.sent);
    }
  }

  /** The sending of one node leaves the other as it is. */
  method SendBeside(a: ICMPv6, b: ICMPv6, k: nat, to: seq<Byte>, linkLayer: nat) returns (sent: bool)
    requires a.Valid() && b.Valid() && Apart(a, b) && b.pool.Valid() && Listens(b, k) && |to| == 16
    modifies a`sent, a.contexts, a.pool, a.pool.packets, a.pool.Buffers()
    ensures a.Consistent() && a.manager.Row(0) == old(a.Tables()).radio
    ensures sent <==> false in old(a.pool.Used())
    ensures b.Valid() && b.State() == old(b.State()) && b.sent == old(b.sent)
    ensures b.pool.Used() == old(b.pool.Used()) && Listens(b, k)
    ensures |old(a.Tables()).radio| >= 2 && StorageFits(old(a.storage))
    ensures sent ==> a.sent != []
    ensures sent ==> IsMessage(a.sent[|a.sent| - 1].bytes, Ra, a.config, old(a.Tables()), to, 0, linkLayer)
  {
    hide *;
    a.ValidMeans();
    a.Shape();
    a.TablesMean();
    b.ValidMeans();
    b.Shape();
    b.StateMeans();
    AllRouters();
    ApartMeans(a, b);
    ListensMeans(b, k);
    b.pool.Sizes();
    ghost var n, used := b.State(), b.pool.Used();
    sent := a.SendNdMessage(Ra, to, 0, linkLayer, 0, 0);
    a.TablesMean();
    b.StateMeans();
    assert b.State() == n;
    b.pool.Sizes();
    assert b.pool.Used() == used;
    ListensMeans(b, k);
  }

  // ---------------------------------------------------------------------------------------------
  // Answers
  // ---------------------------------------------------------------------------------------------

  /** The node answers solicitations: a router that, in the route-over build, has heard of its border router. */
  predicate Answers(c: Config, s: Storage) {
    s.isRouter && !(c.routeOver && !s.isBorderRouter && s.brAddress == NULL_ADDR)
  }

  /** A solicitation that reaches a node that answers makes it advertise to the sender's link-local address, at the
      sender's identifier, if a packet is free; every other node does nothing. */
  lemma SolicitationIsAnswered(bytes: seq<Byte>, from: Config, sender: Node, to: seq<Byte>, c: Config, n: Node, r: Node,
                               free: bool, before: seq<Message>, after: seq<Message>, intact: bool)
    requires GoodNode(from, sender) && GoodNode(c, n) && from.idSize == c.idSize && |to| == 16
    requires |sender.radio| >= 2 && |n.radio| >= 2 && StorageFits(sender.storage) && StorageFits(n.storage)
    requires IsMessage(bytes, Rs, from, sender, to, 0, 0) && IsRow(sender.radio) && |bytes| == 1532
    requires ValidIdSize(from.idSize) && LengthOf(Underway(sender.radio, bytes)) <= 1460
    requires Reaches(c, n, r, from.radioId, Underway(sender.radio, bytes), free, before, after, intact)
    ensures intact
    ensures var u := Underway(sender.radio, bytes);
      if Judge(c, n, from.radioId, INTERFACE_RADIO, 0, u) == Delivered && Answers(c, n.storage) && free then
        && r == n.(contexts := Refreshed(n.contexts))
        && exists m :: after == before + [m]
             && Answered(m, Ra, c, n, LinkLocal(IdOn(from, INTERFACE_RADIO), from.idSize), from.radioId)
      else after == before && r == n
  {
    hide *;
    var u := Underway(sender.radio, bytes);
    UnderwayIsMessage(bytes, Rs, from, sender, to, 0, 0);
    SourceStays(from, sender);
    NodeParts(from, sender);
    NodeParts(c, n);
    HeaderOf(u, Rs, from, sender, SourceOf(Rs, sender), to, 0, 0);
    SolicitationIsRead(u, from, sender, SourceOf(Rs, sender), to, c);
    SentLength(u, Rs, from, sender, SourceOf(Rs, sender), to, 0, 0);
    LongEnough(from);
    ReactedToSolicitation(c, n, r, from, u, free, before, after, intact);
  }

  lemma LongEnough(c: Config)
    ensures SizeOfAll([LinkLayer(c.radioId)], c.idSize) >= 8 && OptionsAt(Rs) == 48
    ensures forall n, lifetime, eui :: OptionsOf(Rs, c, n, lifetime, eui) == [LinkLayer(c.radioId)]
  {
  }

  lemma ReactedToSolicitation(c: Config, n: Node, r: Node, from: Config, u: seq<Byte>, free: bool, before: seq<Message>,
                              after: seq<Message>, intact: bool)
    requires GoodNode(c, n) && |n.radio| >= 2 && StorageFits(n.storage) && ValidConfig(c)
    requires |u| == 1532 && 8 <= LengthOf(u) <= 1460 && u[7] == 255 && u[41] == 0 && u[40] == Typecode(Rs)
    requires Walk(RouterSolicitations, u, 48, 40 + LengthOf(u), c.idSize).ending == Complete
    requires SolicitedBy(c, u) == from.radioId
    requires Reaches(c, n, r, from.radioId, u, free, before, after, intact)
    ensures intact
    ensures
      if Judge(c, n, from.radioId, INTERFACE_RADIO, 0, u) == Delivered && Answers(c, n.storage) && free then
        && r == n.(contexts := Refreshed(n.contexts))
        && exists m :: after == before + [m] && Answered(m, Ra, c, n, u[8..24], from.radioId)
      else after == before && r == n
  {
    hide Judge, Answered, Walk, Heard, Confirms, ToConfirm, AnswersAdvertisement, GoodNode, StorageFits, Refreshed;
    hide SolicitedBy, ValidConfig;
  }

  /** A registration that reaches a node is confirmed once, with the lifetime and the identifier asked for, to the
      address that the interface manager of the sender gave it, if a packet is free and the target is no multicast
      address. */
  lemma RegistrationIsAnswered(bytes: seq<Byte>, from: Config, sender: Node, to: seq<Byte>, linkLayer: nat, c: Config,
                               n: Node, r: Node, free: bool, before: seq<Message>, after: seq<Message>, intact: bool)
    requires GoodNode(from, sender) && GoodNode(c, n) && from.idSize == c.idSize && |to| == 16
    requires |sender.radio| >= 2 && |n.radio| >= 2 && StorageFits(sender.storage) && StorageFits(n.storage)
    requires IsMessage(bytes, Ns, from, sender, to, 0, linkLayer) && IsRow(sender.radio) && |bytes| == 1532
    requires ValidConfig(c) && LengthOf(Underway(sender.radio, bytes)) <= 1460
    requires Reaches(c, n, r, from.radioId, Underway(sender.radio, bytes), free, before, after, intact)
    ensures intact && r == n
    ensures var u := Underway(sender.radio, bytes);
      if Judge(c, n, from.radioId, INTERFACE_RADIO, 0, u) == Delivered && free && !IsMulticast(to) then
        && |after| == |before| + 1 && after[..|before|] == before
        && IsConfirmation(after[|before|], c, n, FirstAddress(sender.radio, 1), 1500, from.radioId)
      else after == before
  {
    hide *;
    var u, source := Underway(sender.radio, bytes), SourceOnAir(sender.radio, SourceOf(Ns, sender));
    UnderwayIsMessage(bytes, Ns, from, sender, to, 0, linkLayer);
    NodeParts(from, sender);
    SourceIsOwn(Ns, sender);
    SourceLength(sender.radio, SourceOf(Ns, sender));
    HeaderOf(u, Ns, from, sender, source, to, 0, linkLayer);
    TargetOf(u, from, sender, source, to, linkLayer);
    SourceByKind(Ns, from, sender);
    SentLength(u, Ns, from, sender, source, to, 0, linkLayer);
    if !IsMulticast(to) {
      RegistrationIsConfirmed(u, from, sender, source, to, linkLayer, c);
    }
    ReactedToNeighbor(c, n, r, from.radioId, to, u, free, before, after, intact);
    ConfirmsFew(c, n, source, 1500, from.radioId, before, after);
  }

  lemma TargetOf(u: seq<Byte>, from: Config, sender: Node, source: seq<Byte>, to: seq<Byte>, linkLayer: nat)
    requires StorageFits(sender.storage) && IsMessageFrom(u, Ns, from, sender, source, to, 0, linkLayer) && |to| == 16
    ensures |u| == 1532 && u[48] == to[0] && u[49] == to[1]
    ensures IsMulticast(to) <==> u[48] == 0xFF && u[49] == 2
  {
    hide Laid, SizeOfAll, AllWellFormed, BigEndian, OptionsOf, StorageFits;
    assert u[48] == u[48..64][0] && u[49] == u[48..64][1];
  }

  lemma ReactedToNeighbor(c: Config, n: Node, r: Node, from: nat, to: seq<Byte>, u: seq<Byte>, free: bool,
                          before: seq<Message>, after: seq<Message>, intact: bool)
    requires GoodNode(c, n) && |n.radio| >= 2 && |u| >= 1532 && LengthOf(u) <= 1460 && StorageFits(n.storage)
    requires ValidConfig(c) && |to| == 16 && u[7] == 255 && u[41] == 0 && u[40] == Typecode(Ns)
    requires IsMulticast(to) <==> u[48] == 0xFF && u[49] == 2
    requires Reaches(c, n, r, from, u, free, before, after, intact)
    ensures intact && r == n
    ensures
      if Judge(c, n, from, INTERFACE_RADIO, 0, u) == Delivered
        then Confirms(c, n, u[8..24], if free && !IsMulticast(to) then ToConfirm(c, u, true) else [], before, after)
        else after == before
  {
    hide Judge, GoodNode, Confirms, Walk, Registrations, Heard, AnswersAdvertisement, Answered, StorageFits;
    hide ValidConfig, IsMulticast;
  }

  /** One confirmation, or none. */
  lemma ConfirmsFew(c: Config, n: Node, to: seq<Byte>, lifetime: nat, eui: nat, before: seq<Message>,
                    after: seq<Message>)
    requires ValidConfig(c) && |n.radio| >= 2 && StorageFits(n.storage)
    ensures Confirms(c, n, to, [], before, after) ==> after == before
    ensures Confirms(c, n, to, [Registration(lifetime, eui)], before, after) ==>
      && |after| == |before| + 1 && after[..|before|] == before
      && IsConfirmation(after[|before|], c, n, to, lifetime, eui)
  {
    hide IsConfirmation;
    var rs := [Registration(lifetime, eui)];
    if Confirms(c, n, to, rs, before, after) {
      assert rs[0] == Registration(lifetime, eui);
      assert IsConfirmation(after[|before| + 0], c, n, to, rs[0].lifetime, rs[0].eui);
    }
    if Confirms(c, n, to, [], before, after) {
      assert after == before;
    }
  }

  /** A confirmation finds its way back to the node that asked for it, as long as that node has the address. */
  lemma ConfirmationReturns(m: Message, c: Config, n: Node, to: seq<Byte>, lifetime: nat, eui: nat, from: Config,
                            sender: Node)
    requires GoodNode(c, n) && |n.radio| >= 2 && StorageFits(n.storage) && ValidConfig(c) && |to| == 16
    requires IsConfirmation(m, c, n, to, lifetime, eui)
    requires c.radioId != from.radioId && HasAddress(sender.radio, to) && !IsMulticast(to)
    ensures |m.bytes| == 1532 && IsRow(n.radio)
    ensures Judge(from, sender, c.radioId, INTERFACE_RADIO, 0, Underway(n.radio, m.bytes)) == Delivered
  {
    hide *;
    ConfirmationIs(m, c, n, to, lifetime, eui);
    UnderwayIsMessage(m.bytes, Na, c, n, to, lifetime, m.linkLayer);
    OwnersHear(from, sender, c.radioId, Underway(n.radio, m.bytes));
  }

  /** What a confirmation says: lifetime and identifier of the registration, the latter cut to the size of a link-layer
      identifier, as a receiver reads them. */
  lemma ConfirmationSays(m: Message, c: Config, n: Node, to: seq<Byte>, lifetime: nat, eui: nat)
    requires ValidConfig(c) && |n.radio| >= 2 && StorageFits(n.storage) && |to| == 16
    requires IsConfirmation(m, c, n, to, lifetime, eui)
    ensures m.kind.Na? && m.linkLayer == eui % Pow256(c.idSize) && |m.bytes| == 1532 && m.bytes[24..40] == to
    ensures LengthOf(m.bytes) <= 1460
    ensures Walk(NeighborMessages, m.bytes, 64, 40 + LengthOf(m.bytes), c.idSize)
      == Walked([LinkLayer(c.radioId), Registration(lifetime, eui % Pow256(c.idSize))], Complete,
           40 + LengthOf(m.bytes))
  {
    hide *;
    ConfirmationIs(m, c, n, to, lifetime, eui);
    HandedOver(m.bytes, Na, c, n, to, lifetime, m.linkLayer);
    SentTo(m.bytes, Na, c, n, to, lifetime, m.linkLayer);
    NeighborMessageIsRead(m.bytes, Na, c, n, SourceOf(Na, n), to, lifetime, m.linkLayer, c);
  }

  lemma ConfirmationIs(m: Message, c: Config, n: Node, to: seq<Byte>, lifetime: nat, eui: nat)
    requires ValidConfig(c) && |n.radio| >= 2 && StorageFits(n.storage)
    requires IsConfirmation(m, c, n, to, lifetime, eui)
    ensures m.kind.Na? && m.linkLayer == eui % Pow256(c.idSize)
    ensures IsMessage(m.bytes, Na, c, n, to, lifetime, m.linkLayer)
  {
    hide IsMessage;
  }

  /** From the solicitation to the configuration: a node that solicits all routers is answered by every router of
      another identifier that answers and has a packet free; and whenever that answer, with quiet contexts, arrives, the
      node follows it exactly if it is new. */
  lemma SoliciterFollows(bytes: seq<Byte>, c: Config, n: Node, rc: Config, rn: Node, rn': Node,
                         before: seq<Message>, after: seq<Message>, solicited: bool, m: Message, later: Node, r: Node,
                         free: bool, before': seq<Message>, after': seq<Message>, intact: bool)
    requires GoodNode(c, n) && GoodNode(rc, rn) && GoodNode(c, later)
    requires c.idSize == rc.idSize && c.routeOver == rc.routeOver && c.radioId != rc.radioId
    requires |n.radio| >= 2 && |rn.radio| >= 2 && |later.radio| >= 2 && IsRow(n.radio) && IsRow(rn.radio)
    requires StorageFits(n.storage) && StorageFits(rn.storage) && ValidConfig(c) && ContextsFit(rn.contexts)
    requires |later.contexts| == CONTEXTS && QuietContexts(rn.contexts) && Answers(rc, rn.storage)
    requires IsMessage(bytes, Rs, c, n, ALL_ROUTERS, 0, 0) && |bytes| == 1532
    requires LengthOf(Underway(n.radio, bytes)) <= 1460
    requires Reaches(rc, rn, rn', c.radioId, Underway(n.radio, bytes), true, before, after, solicited)
    requires |after| > |before| ==> m == after[|before|]
    requires |m.bytes| == 1532 && LengthOf(Underway(rn.radio, m.bytes)) <= 1460
    requires Reaches(c, later, r, rc.radioId, Underway(rn.radio, m.bytes), free, before', after', intact)
    ensures solicited && after == before + [m] && intact && m.linkLayer == c.radioId
    ensures if NewTo(c, rn.storage, later.storage)
      then Arrives(rc, rn, c, later, r, Underway(rn.radio, m.bytes), free, before', after')
      else r == later && after' == before'
  {
    hide *;
    AllRouters();
    NodeParts(rc, rn);
    NodeParts(c, later);
    var to, u := LinkLocal(IdOn(c, INTERFACE_RADIO), c.idSize), Underway(n.radio, bytes);
    ValidSize(c);
    LinkLocalIsLinkLocal(IdOn(c, INTERFACE_RADIO), c.idSize);
    UnderwayIsMessage(bytes, Rs, c, n, ALL_ROUTERS, 0, 0);
    RoutersHear(rc, rn, c.radioId, u);
    AnswersMeans(rc, rn.storage);
    SolicitationIsAnswered(bytes, c, n, ALL_ROUTERS, rc, rn, rn', true, before, after, solicited);
    assert after == before + [m];
    AnsweredMeans(m, Ra, rc, rn, to, c.radioId);
    UnderwayIsMessage(m.bytes, Ra, rc, rn, to, 0, c.radioId);
    SourceStays(c, later);
    NoMulticast(to);
    OwnersHear(c, later, rc.radioId, Underway(rn.radio, m.bytes));
    AdvertisementReaches(m.bytes, rc, rn, to, c.radioId, c, later, r, free, before', after', intact);
    HeedsMeans(rc, rn, c, later, r, Underway(rn.radio, m.bytes), free, before', after');
  }

  lemma ValidSize(c: Config)
    requires ValidConfig(c)
    ensures ValidIdSize(c.idSize)
  {
  }

  lemma AnswersMeans(c: Config, s: Storage)
    ensures Answers(c, s) <==> s.isRouter && (!c.routeOver || s.isBorderRouter || s.brAddress != Zeros(16))
  {
  }

  lemma AnsweredMeans(m: Message, kind: Kind, c: Config, n: Node, to: seq<Byte>, linkLayer: nat)
    requires |n.radio| >= 2 && StorageFits(n.storage) && Answered(m, kind, c, n, to, linkLayer)
    ensures m.kind == kind && m.linkLayer == linkLayer && IsMessage(m.bytes, kind, c, n, to, 0, linkLayer)
  {
  }

  lemma NoMulticast(a: seq<Byte>)
    requires |a| == 16 && IsLinkLocal(a)
    ensures !IsMulticast(a)
  {
  }

  lemma HeedsMeans(from: Config, sender: Node, c: Config, n: Node, r: Node, u: seq<Byte>, free: bool,
                   before: seq<Message>, after: seq<Message>)
    requires ValidConfig(c) && StorageFits(sender.storage) && ContextsFit(sender.contexts)
    requires |n.contexts| == CONTEXTS && |u| >= 1532
    requires Heeds(from, sender, c, n, r, u, free, before, after)
    requires Judge(c, n, from.radioId, INTERFACE_RADIO, 0, u) == Delivered
    ensures if NewTo(c, sender.storage, n.storage)
      then Arrives(from, sender, c, n, r, u, free, before, after)
      else r == n && after == before
  {
    hide Judge, Arrives, NewTo;
  }

  /** A solicitation without any option is answered without a link-layer identifier: in the route-over build such an
      advertisement needs a route, and while that is looked for, the IP layer keeps the number of a packet that has
      been given back. */
  lemma BareSolicitationNeedsRoute(c: Config, d: seq<Byte>)
    requires ValidConfig(c) && c.routeOver && |d| >= 1532 && LengthOf(d) == 8 && d[8] != 0xFF
    ensures SolicitedBy(c, d) == 0 && NeedsRoute(c, d[8..24], SolicitedBy(c, d))
  {
    WalkStops(RouterSolicitations, d, 48, 48, c.idSize);
    assert d[8..24][0] == d[8];
    assert ALL_NODES[0] == 0xFF && ALL_ROUTERS[0] == 0xFF;
  }
}
