/**
 * The Neighbor Discovery state of a node, and what icmpv6.h does to it when a router advertisement is heard,
 * when the 60 second timer fires, and when a solicitation timer fires. Neighbor Discovery is enabled on the
 * radio only; the neighbor cache is not part of the state, what it answers comes in from outside.
 */
module NdNode {
  import opened Wrappers
  import opened Bytes
  import opened Ipv6Address
  import opened PrefixTable
  import opened InterfaceManager
  import opened NdOptions
  import RouterSolicitation

  const CONTEXTS: nat := 16
  const ABRO_SOLICIT_AT: nat := 3
  /** Position of the fixed fields and of the options of a router advertisement. */
  const RA_FIELDS: nat := 44
  const RA_OPTIONS: nat := 56

  /** NDStorage, but for the neighbor cache. */
  datatype Storage = Storage(
    isRouter: bool, isBorderRouter: bool,
    curHopLimit: Byte, managed: bool, otherConfig: bool,
    defaultLifetime: nat, reachableTime: nat, retransTimer: nat,
    brAddress: seq<Byte>, brVersion: nat, abroLifetime: nat)

  const FRESH_STORAGE: Storage := Storage(false, false, 255, false, false, 1800, 0, 0, NULL_ADDR, 0, 10000)

  datatype ContextEntry = ContextEntry(lifetime: nat, usable: bool, prefixLength: Byte, prefix: seq<Byte>)

  /** What is fixed when a node is built: routing over IP hops or not, its identifier, and whether RPL is built in. */
  datatype Config = Config(routeOver: bool, idSize: nat, radioId: nat, rpl: bool)

  datatype Node = Node(
    solicitor: RouterSolicitation.Solicitor,
    storage: Storage,
    radio: seq<Prefix>,
    uart: seq<Prefix>,
    contexts: seq<ContextEntry>)

  predicate ValidConfig(c: Config) {
    ValidIdSize(c.idSize) && c.radioId < Pow256(c.idSize)
  }

  function IdOn(c: Config, iface: nat): nat {
    InterfaceId(c.radioId, c.idSize, iface)
  }

  predicate StorageFits(s: Storage) {
    && s.defaultLifetime < Pow256(2) && s.abroLifetime < Pow256(2)
    && s.reachableTime < Pow256(4) && s.retransTimer < Pow256(4) && s.brVersion < Pow256(4)
    && |s.brAddress| == 16
  }

  predicate ContextFits(e: ContextEntry) {
    e.lifetime < Pow256(2) && |e.prefix| == 16
  }

  predicate ContextsFit(es: seq<ContextEntry>) {
    |es| == CONTEXTS && forall i | 0 <= i < CONTEXTS :: ContextFits(es[i])
  }

  /** What every run keeps. */
  predicate GoodNode(c: Config, n: Node) {
    && ValidConfig(c) && StorageFits(n.storage) && ContextsFit(n.contexts)
    && RouterSolicitation.Good(n.solicitor)
    && Good(n.radio, LinkLocal(IdOn(c, INTERFACE_RADIO), c.idSize))
    && Good(n.uart, LinkLocal(IdOn(c, INTERFACE_UART), c.idSize))
  }

  // ---------------------------------------------------------------------------------------------
  // A router advertisement
  // ---------------------------------------------------------------------------------------------

  /** Old information is refused, unless it comes over the serial line from an installation. */
  predicate Acceptable(s: Storage, o: NdOption, installation: bool)
    requires o.BorderRouter?
  {
    installation || o.version >= s.brVersion
  }

  function WithBorderRouter(s: Storage, o: NdOption, installation: bool): Storage
    requires o.BorderRouter?
  {
    s.(isRouter := s.isRouter || installation, isBorderRouter := s.isBorderRouter || installation,
       brVersion := o.version, abroLifetime := o.lifetime, brAddress := o.router)
  }

  /** The fixed fields; a hop limit of 0 leaves the old one. */
  function WithParameters(s: Storage, d: seq<Byte>): Storage
    requires |d| >= RA_OPTIONS
  {
    s.(curHopLimit := if d[RA_FIELDS] != 0 then d[RA_FIELDS] else s.curHopLimit,
       managed := AnyBit(d[RA_FIELDS + 1], 0x80), otherConfig := AnyBit(d[RA_FIELDS + 1], 0x40),
       reachableTime := Field32(d, RA_FIELDS + 4), retransTimer := Field32(d, RA_FIELDS + 8))
  }

  function BuiltFrom(c: Config, o: NdOption, iface: nat): Prefix
    requires ValidConfig(c) && o.PrefixInformation? && |o.prefix| == 16 && o.prefixLength <= 128
  {
    Built(o.prefix, o.prefixLength, o.valid, o.onlink, o.preferred, o.autonomous, IdOn(c, iface), c.idSize)
  }

  predicate Usable(o: NdOption) {
    && (o.PrefixInformation? ==> |o.prefix| == 16 && o.prefixLength <= 128)
    && (o.PrefixInformation? ==> o.valid < Pow256(4) && o.preferred < Pow256(4))
    && (o.Context? ==> o.cid < CONTEXTS && |o.prefix| == 16 && o.lifetime < Pow256(2))
  }

  /** What one option of an advertisement does to the tables. */
  function Learn(c: Config, n: Node, o: NdOption): (r: Node)
    requires ValidConfig(c) && |n.contexts| == CONTEXTS && Usable(o)
    ensures r.storage == n.storage && r.solicitor == n.solicitor && r.uart == n.uart
    ensures |r.contexts| == CONTEXTS && |r.radio| == |n.radio|
  {
    match o
    case PrefixInformation(_, _, _, _, _, _) => n.(radio := Set(n.radio, BuiltFrom(c, o, INTERFACE_RADIO)))
    case Context(cid, prefixLength, usable, lifetime, prefix) =>
      n.(contexts := n.contexts[cid := ContextEntry(lifetime, usable, prefixLength, prefix)])
    case _ => n
  }

  predicate AllUsable(os: seq<NdOption>) {
    forall i | 0 <= i < |os| :: Usable(os[i])
  }

  function LearnAll(c: Config, n: Node, os: seq<NdOption>): (r: Node)
    requires ValidConfig(c) && |n.contexts| == CONTEXTS && AllUsable(os)
    ensures r.storage == n.storage && r.solicitor == n.solicitor && r.uart == n.uart
    ensures |r.contexts| == CONTEXTS && |r.radio| == |n.radio|
    decreases os
  {
    if os == [] then n else LearnAll(c, Learn(c, n, os[0]), os[1..])
  }

  lemma FieldsFit(d: seq<Byte>, at: nat)
    requires at + 4 <= |d|
    ensures Field16(d, at) < Pow256(2) && Field32(d, at) < Pow256(4) && FieldVersion(d, at) < Pow256(4)
    ensures Pow256(2) == 0x1_0000 && Pow256(4) == 0x1_0000_0000
  {
    FourBytes();
  }

  /** Whatever the bytes are, the options a walk reads can be learned. */
  lemma {:induction false} WalkedAreUsable(loop: Loop, d: seq<Byte>, at: nat, end: nat, w: nat)
    requires ValidIdSize(w) && end + 32 <= |d|
    ensures AllUsable(Walk(loop, d, at, end, w).options)
    decreases end - at
  {
    hide Walk, Turn, Contained, Field16, Field32, AnyBit, Value, Usable;
    if at < end && d[at + 1] > 0 && Contained(loop, d, at) {
      WalkTurns(loop, d, at, end, w);
      TurnAdvances(loop, d, at, w);
      WalkedAreUsable(loop, d, Turn(loop, d, at, w).1, end, w);
      TurnIsUsable(loop, d, at, w);
    } else {
      WalkStops(loop, d, at, end, w);
    }
  }

  lemma TurnIsUsable(loop: Loop, d: seq<Byte>, at: nat, w: nat)
    requires ValidIdSize(w) && at + 32 <= |d| && d[at + 1] > 0 && Contained(loop, d, at)
    ensures AllUsable(Turn(loop, d, at, w).0)
  {
    hide Field16, Field32, AnyBit, Value, Pow256;
    FieldsFit(d, at + 4);
    FieldsFit(d, at + 6);
    FieldsFit(d, at + 8);
  }

  /** The source's link-layer identifier: that of the last such option, or 0. */
  function LinkLayerIn(os: seq<NdOption>): nat {
    if os == [] then 0
    else if os[|os| - 1].LinkLayer? then os[|os| - 1].id
    else LinkLayerIn(os[..|os| - 1])
  }

  /** Where the walk over an advertisement read its last prefix; `last` when there is none. */
  function LastPrefixAt(d: seq<Byte>, at: nat, end: nat, last: nat, w: nat): (r: nat)
    requires ValidIdSize(w) && end + 32 <= |d| && last + 32 <= |d|
    ensures r + 32 <= |d|
    decreases end - at
  {
    if !Going(RouterAdvertisements, d, at, end) then last
    else
      var next := Turn(RouterAdvertisements, d, at, w).1;
      LastPrefixAt(d, next, end, if d[at] == PREFIX_INFORMATION then at else last, w)
  }

  /** What a node does after the state has taken in an advertisement: nothing, pass it on to all routers, or
      register at the source, whose link-layer identifier is known. `Spills`: a copy left the memory it was meant
      for, and nothing is known about the node any more. */
  datatype Reaction = Dropped | Configured | Relayed | Registers(linkLayer: nat) | Spills

  /** In the route-over build an advertisement counts only if it holds new border router information. */
  predicate IsFresh(n: Node, d: seq<Byte>, end: nat, installation: bool)
    requires end + 32 <= |d|
  {
    var found := FindBorderRouter(d, RA_OPTIONS, end);
    found.At? && Acceptable(n.storage, ReadBorderRouter(d, found.position), installation)
  }

  /** The solicitor is silenced and the fixed fields are taken over. */
  function TakenIn(c: Config, n: Node, d: seq<Byte>, end: nat, installation: bool): (r: Node)
    requires RA_OPTIONS <= end && end + 32 <= |d|
    requires c.routeOver ==> IsFresh(n, d, end, installation)
    ensures r.radio == n.radio && r.uart == n.uart && r.contexts == n.contexts
  {
    var s := if c.routeOver
      then WithBorderRouter(n.storage, ReadBorderRouter(d, FindBorderRouter(d, RA_OPTIONS, end).position), installation)
      else n.storage;
    n.(solicitor := n.solicitor.(sent := 0), storage := WithParameters(s, d))
  }

  /** The reaction to an advertisement whose message checks succeeded and that ends at `end`. */
  function Hear(c: Config, n: Node, d: seq<Byte>, end: nat, installation: bool): (r: (Node, Reaction))
    requires ValidConfig(c) && |n.contexts| == CONTEXTS && RA_OPTIONS <= end && end + 32 <= |d|
    ensures |r.0.radio| == |n.radio| && |r.0.uart| == |n.uart| && |r.0.contexts| == CONTEXTS
  {
    if c.routeOver && !IsFresh(n, d, end, installation) then (n, Dropped)
    else
      var walked := Walk(RouterAdvertisements, d, RA_OPTIONS, end, c.idSize);
      WalkedAreUsable(RouterAdvertisements, d, RA_OPTIONS, end, c.idSize);
      var learned := LearnAll(c, TakenIn(c, n, d, end, installation), walked.options);
      if walked.ending.Spilled? then (learned, Spills)
      else if walked.ending.ZeroLength? then (learned, Dropped)
      else if installation then
        var o := ReadPrefix(d, LastPrefixAt(d, RA_OPTIONS, end, 40, c.idSize));
        if o.prefixLength > 128 then (learned, Spills)
        else
          (learned.(uart := Set(learned.uart, BuiltFrom(c, o, INTERFACE_UART))),
            if c.routeOver then Relayed else Configured)
      else if c.routeOver && learned.storage.isRouter then (learned, Relayed)
      else (learned, Registers(LinkLayerIn(walked.options)))
  }

  lemma SpillsByWalk(c: Config, n: Node, d: seq<Byte>, end: nat, installation: bool)
    requires ValidConfig(c) && |n.contexts| == CONTEXTS && RA_OPTIONS <= end && end + 32 <= |d|
    ensures Hear(c, n, d, end, installation).1.Spills? <==>
      && (c.routeOver ==> IsFresh(n, d, end, installation))
      && var walked := Walk(RouterAdvertisements, d, RA_OPTIONS, end, c.idSize);
         || walked.ending.Spilled?
         || (walked.ending.Complete? && installation && d[LastPrefixAt(d, RA_OPTIONS, end, 40, c.idSize) + 2] > 128)
  {
    hide Walk, LearnAll, LastPrefixAt, Set, BuiltFrom, FindBorderRouter, ReadBorderRouter;
    hide TakenIn, LinkLayerIn, AllUsable, IsFresh, ValidConfig;
  }

  /** The walk stands at a prefix. */
  ghost predicate HasPrefix(d: seq<Byte>, at: nat, end: nat, w: nat)
    requires ValidIdSize(w) && end + 32 <= |d|
  {
    exists p: nat :: StandsAt(d, at, end, p, w) && d[p] == PREFIX_INFORMATION
  }

  /** In a walk that goes through, the last prefix is the place where nothing was found, or fits an address. */
  lemma {:induction false} LastPrefixFits(d: seq<Byte>, at: nat, end: nat, last: nat, w: nat)
    requires ValidIdSize(w) && end + 32 <= |d| && last + 32 <= |d| && forall p :: !Stuck(d, at, end, p, w)
    ensures !HasPrefix(d, at, end, w) ==> LastPrefixAt(d, at, end, last, w) == last
    ensures HasPrefix(d, at, end, w) || d[last + 2] <= 128 ==> d[LastPrefixAt(d, at, end, last, w) + 2] <= 128
    decreases end - at
  {
    hide Turn, Contained, Lands;
    if at >= end {
      NoPlaceBehind(d, at, end, w);
    } else {
      GoingMeans(d, at, end);
      PlacesTurn(d, at, end, at, w);
      assert !Stuck(d, at, end, at, w);
      var next := Turn(RouterAdvertisements, d, at, w).1;
      TurnAdvances(RouterAdvertisements, d, at, w);
      forall p: nat
        ensures StandsAt(d, at, end, p, w) <==> p == at || StandsAt(d, next, end, p, w)
      {
        PlacesTurn(d, at, end, p, w);
        TurnedPast(d, at, end, p, w);
      }
      forall p: nat ensures !Stuck(d, next, end, p, w) {
        assert !Stuck(d, at, end, p, w);
      }
      assert Going(RouterAdvertisements, d, at, end);
      assert HasPrefix(d, at, end, w) <==> d[at] == PREFIX_INFORMATION || HasPrefix(d, next, end, w) by {
        assert StandsAt(d, at, end, at, w);
      }
      assert d[at] == PREFIX_INFORMATION ==> d[at + 2] <= 128;
      LastPrefixFits(d, next, end, if d[at] == PREFIX_INFORMATION then at else last, w);
    }
  }

  /** What makes an advertisement spill: the walk comes to stand at a prefix longer than 128 bits or a context of more
      than three units; or it goes through without any prefix, and an installation takes the byte at 42 for the length
      of the last one. */
  ghost predicate Overlong(c: Config, d: seq<Byte>, end: nat, installation: bool)
    requires ValidConfig(c) && RA_OPTIONS <= end && end + 32 <= |d|
  {
    || (exists p :: Stuck(d, RA_OPTIONS, end, p, c.idSize) && TooLong(d, p))
    || (installation && (forall p :: !Stuck(d, RA_OPTIONS, end, p, c.idSize)) && !HasPrefix(d, RA_OPTIONS, end,
        c.idSize) && d[42] > 128)
  }

  /** Exactly which advertisements spill, in every state: those that count and are overlong. */
  lemma SpillsExactly(c: Config, n: Node, d: seq<Byte>, end: nat, installation: bool)
    requires ValidConfig(c) && |n.contexts| == CONTEXTS && RA_OPTIONS <= end && end + 32 <= |d|
    ensures Hear(c, n, d, end, installation).1.Spills? <==>
      (c.routeOver ==> IsFresh(n, d, end, installation)) && Overlong(c, d, end, installation)
  {
    hide Hear, IsFresh, Walk, LastPrefixAt, Stuck, TooLong, HasPrefix;
    SpillsByWalk(c, n, d, end, installation);
    EndsByPlaces(d, RA_OPTIONS, end, c.idSize);
    if forall p :: !Stuck(d, RA_OPTIONS, end, p, c.idSize) {
      LastPrefixFits(d, RA_OPTIONS, end, 40, c.idSize);
    }
  }

  /** In the route-over build, an advertisement without new border router information leaves the whole state
      as it is: solicitation counter, parameters, prefixes, contexts. */
  lemma StaleChangesNothing(c: Config, n: Node, d: seq<Byte>, end: nat, installation: bool)
    requires ValidConfig(c) && |n.contexts| == CONTEXTS && RA_OPTIONS <= end && end + 32 <= |d| && c.routeOver
    ensures !IsFresh(n, d, end, installation) ==> Hear(c, n, d, end, installation) == (n, Dropped)
    ensures IsFresh(n, d, end, installation) ==>
      var r := Hear(c, n, d, end, installation).0;
      && r.solicitor.sent == 0
      && r.storage.brVersion == ReadBorderRouter(d, FindBorderRouter(d, RA_OPTIONS, end).position).version
  {
    hide Walk, LearnAll, LastPrefixAt, Set, ReadPrefix;
  }

  /** Hearing never lowers the version that is stored, unless an installation does it. */
  lemma HearKeepsVersion(c: Config, n: Node, d: seq<Byte>, end: nat, installation: bool)
    requires ValidConfig(c) && |n.contexts| == CONTEXTS && RA_OPTIONS <= end && end + 32 <= |d|
    ensures !installation ==> Hear(c, n, d, end, installation).0.storage.brVersion >= n.storage.brVersion
  {
    hide Walk, LearnAll, LastPrefixAt, Set, ReadPrefix;
  }

  // ---------------------------------------------------------------------------------------------
  // The 60 second timer
  // ---------------------------------------------------------------------------------------------

  /** What the neighbor cache answers during one turn: whether no default router is left, and whether a
      registered router's entry runs out. */
  datatype Cache = Cache(routersEmpty: bool, routerLost: bool)

  function LifetimeLeft(s: Storage): nat {
    if s.abroLifetime > 0 then s.abroLifetime - 1 else 0
  }

  /** The border router's information runs out in this turn. */
  predicate Expires(c: Config, n: Node) {
    c.routeOver && LifetimeLeft(n.storage) == 0
  }

  function AgeContext(e: ContextEntry): ContextEntry {
    e.(usable := e.usable && e.lifetime != 1, lifetime := if e.lifetime > 0 then e.lifetime - 1 else 0)
  }

  function AgeContexts(es: seq<ContextEntry>): (r: seq<ContextEntry>)
    ensures |r| == |es|
  {
    seq(|es|, i requires 0 <= i < |es| => AgeContext(es[i]))
  }

  const FRESH_CONTEXT: ContextEntry := ContextEntry(0, false, 0, NULL_ADDR)

  function FreshContexts(): (r: seq<ContextEntry>)
    ensures |r| == CONTEXTS
  {
    seq(CONTEXTS, _ => FRESH_CONTEXT)
  }

  predicate ContextSoon(es: seq<ContextEntry>, n: nat)
    requires n <= |es|
  {
    exists i | 0 <= i < n :: es[i].lifetime == ABRO_SOLICIT_AT
  }

  /** The reasons for which a turn wants solicitations. */
  predicate Wants(c: Config, n: Node, cache: Cache)
    requires RowFits(n.radio)
  {
    || (cache.routersEmpty && !n.storage.isBorderRouter)
    || (c.routeOver && LifetimeLeft(n.storage) == ABRO_SOLICIT_AT)
    || (!Expires(c, n) && (
          || ContextSoon(n.contexts, |n.contexts|)
          || SomeExpireSoon(n.radio, |n.radio|)
          || CountedUpTo(n.radio, |n.radio|) == 0
          || cache.routerLost))
  }

  function Tick(c: Config, n: Node, cache: Cache): (r: Node)
    requires RowFits(n.radio) && n.radio != []
    ensures |r.radio| == |n.radio| && r.uart == n.uart
  {
    var solicitor := if Wants(c, n, cache) then RouterSolicitation.Begin(n.solicitor) else n.solicitor;
    if Expires(c, n) then Node(solicitor, FRESH_STORAGE, Emptied(n.radio), n.uart, FreshContexts())
    else
      var storage := if c.routeOver then n.storage.(abroLifetime := LifetimeLeft(n.storage)) else n.storage;
      Node(solicitor, storage, AgeRow(n.radio), n.uart, AgeContexts(n.contexts))
  }

  /** After a turn in which nothing expired, solicitation is active whenever no global prefix is valid. */
  lemma SolicitsWithoutPrefix(c: Config, n: Node, cache: Cache)
    requires GoodNode(c, n) && !Expires(c, n)
    ensures var r := Tick(c, n, cache); ValidGlobal(r.radio, |r.radio|) == {} ==>
      r.solicitor.sent > 0 && r.solicitor.pending > 0
  {
    CountIsValidGlobal(n.radio, |n.radio|);
    RouterSolicitation.StepKeepsGood(n.solicitor, RouterSolicitation.Wanted);
  }

  /** After the turn in which the border router's information expires that needs not be so, but the turn
      after it makes up for it. */
  lemma SolicitsAfterExpiry(c: Config, n: Node, cache: Cache, next: Cache)
    requires GoodNode(c, n) && Expires(c, n)
    ensures var r := Tick(c, n, cache); RowFits(r.radio) && ValidGlobal(r.radio, |r.radio|) == {}
    ensures var r := Tick(c, n, cache);
      n.solicitor.sent == 0 ==> (r.solicitor.sent > 0 <==> cache.routersEmpty && !n.storage.isBorderRouter)
    ensures Tick(c, Tick(c, n, cache), next).solicitor.sent > 0
  {
    var r := Tick(c, n, cache);
    RouterSolicitation.StepKeepsGood(n.solicitor, RouterSolicitation.Wanted);
    RouterSolicitation.StepKeepsGood(r.solicitor, RouterSolicitation.Wanted);
    assert ValidGlobal(r.radio, |r.radio|) == {};
    NothingCounted(r.radio, |r.radio|);
  }

  lemma {:induction false} NothingCounted(row: seq<Prefix>, n: nat)
    requires RowFits(row) && n <= |row| && forall i | 1 <= i < |row| :: row[i] == NO_PREFIX
    ensures CountedUpTo(row, n) == 0
  {
    if n > 1 {
      NothingCounted(row, n - 1);
    }
  }

  // ---------------------------------------------------------------------------------------------
  // Advertising
  // ---------------------------------------------------------------------------------------------

  /** Looking up a context for an advertisement makes it live on for the longest time. */
  function Refreshed(es: seq<ContextEntry>): (r: seq<ContextEntry>)
    ensures |r| == |es|
  {
    seq(|es|, i requires 0 <= i < |es| => if es[i].lifetime > 0 then es[i].(lifetime := 0xFFFF) else es[i])
  }

  function PrefixOption(p: Prefix): NdOption {
    PrefixInformation(p.address.prefixLength, p.onlink, p.autonomous, p.valid, p.preferred, AddrOf(p))
  }

  /** The options for the valid slots below `n`, without the link-local one. */
  function PrefixOptions(row: seq<Prefix>, n: nat): seq<NdOption>
    requires n <= |row|
  {
    if n <= 1 then []
    else PrefixOptions(row, n - 1) + (if row[n - 1].valid > 0 then [PrefixOption(row[n - 1])] else [])
  }

  /** Written after the lookup, so always with the longest lifetime. */
  function ContextOption(e: ContextEntry, cid: nat): NdOption {
    Context(cid, e.prefixLength, e.usable, 0xFFFF, e.prefix)
  }

  function ContextOptions(es: seq<ContextEntry>, n: nat): seq<NdOption>
    requires n <= |es|
  {
    if n == 0 then []
    else ContextOptions(es, n - 1) + (if es[n - 1].lifetime > 0 then [ContextOption(es[n - 1], n - 1)] else [])
  }

  function BorderRouterOption(s: Storage): NdOption {
    BorderRouter(s.brVersion, s.abroLifetime, s.brAddress)
  }

  /** The options of an advertisement, in order. */
  function OptionsFor(c: Config, s: Storage, row: seq<Prefix>, es: seq<ContextEntry>): seq<NdOption> {
    (if c.routeOver then [BorderRouterOption(s)] else []) + [LinkLayer(c.radioId)]
      + PrefixOptions(row, |row|) + ContextOptions(es, |es|)
  }

  function Offered(c: Config, n: Node): seq<NdOption> {
    OptionsFor(c, n.storage, n.radio, n.contexts)
  }

  // ---------------------------------------------------------------------------------------------
  // Runs
  // ---------------------------------------------------------------------------------------------

  datatype Event =
    | Hears(d: seq<Byte>, end: nat, installation: bool)
    | Ticks(cache: Cache)
    | SolicitTimer
    | Advertises

  predicate GoodEvent(e: Event) {
    e.Hears? ==> RA_OPTIONS <= e.end && e.end + 32 <= |e.d|
  }

  function Step(c: Config, n: Node, e: Event): (r: Outcome<Node>)
    requires GoodNode(c, n) && GoodEvent(e)
  {
    match e
    case Hears(d, end, installation) =>
      var (r, reaction) := Hear(c, n, d, end, installation);
      if reaction.Spills? then Overrun else Known(r)
    case Ticks(cache) => Known(Tick(c, n, cache))
    case SolicitTimer => Known(n.(solicitor := RouterSolicitation.Step(n.solicitor, RouterSolicitation.TimerFires)))
    case Advertises => Known(n.(contexts := Refreshed(n.contexts)))
  }

  lemma RowsOf(c: Config, n: Node)
    requires GoodNode(c, n)
    ensures IsRow(n.radio) && RowFits(n.radio) && IsRow(n.uart) && RowFits(n.uart) && |n.contexts| == CONTEXTS
  {
  }

  lemma SetKeepsRow(c: Config, row: seq<Prefix>, o: NdOption, iface: nat)
    requires ValidConfig(c) && o.PrefixInformation? && Usable(o) && Good(row, LinkLocal(IdOn(c, iface), c.idSize))
    ensures Good(Set(row, BuiltFrom(c, o, iface)), LinkLocal(IdOn(c, iface), c.idSize))
  {
    hide Formed, Good, Set, Pow256, IdOn, LinkLocal;
    FourBytes();
    FormedIsNotNull(o.prefix, o.prefixLength, IdOn(c, iface), c.idSize);
    FormedLength(o.prefix, o.prefixLength, IdOn(c, iface), c.idSize);
    SetKeepsGood(row, BuiltFrom(c, o, iface), LinkLocal(IdOn(c, iface), c.idSize));
  }

  lemma {:induction false} LearnAllKeepsGood(c: Config, n: Node, os: seq<NdOption>)
    requires GoodNode(c, n) && AllUsable(os)
    ensures GoodNode(c, LearnAll(c, n, os))
    decreases os
  {
    if os != [] {
      LearnKeepsGood(c, n, os[0]);
      hide GoodNode, Learn, Usable;
      LearnAllKeepsGood(c, Learn(c, n, os[0]), os[1..]);
    }
  }

  lemma LearnKeepsGood(c: Config, n: Node, o: NdOption)
    requires GoodNode(c, n) && Usable(o)
    ensures GoodNode(c, Learn(c, n, o))
  {
    if o.PrefixInformation? {
      SetKeepsRow(c, n.radio, o, INTERFACE_RADIO);
    }
    hide Good, Set, StorageFits, LinkLocal, IdOn, BuiltFrom, ValidConfig, RouterSolicitation.Good;
  }

  lemma HearKeepsGood(c: Config, n: Node, d: seq<Byte>, end: nat, installation: bool)
    requires GoodNode(c, n) && RA_OPTIONS <= end && end + 32 <= |d|
    ensures GoodNode(c, Hear(c, n, d, end, installation).0)
  {
    hide Good, Set, LearnAll, Walk, TakenIn, IsFresh, LastPrefixAt, StorageFits, LinkLocal, IdOn, BuiltFrom;
    hide Field16, Field32, AnyBit, Pow256, RouterSolicitation.Good;
    if !c.routeOver || IsFresh(n, d, end, installation) {
      var taken := TakenIn(c, n, d, end, installation);
      TakingKeepsGood(c, n, d, end, installation);
      var walked := Walk(RouterAdvertisements, d, RA_OPTIONS, end, c.idSize);
      WalkedAreUsable(RouterAdvertisements, d, RA_OPTIONS, end, c.idSize);
      LearnAllKeepsGood(c, taken, walked.options);
      var at := LastPrefixAt(d, RA_OPTIONS, end, 40, c.idSize);
      FieldsFit(d, at + 4);
      FieldsFit(d, at + 8);
      var learned := LearnAll(c, taken, walked.options);
      if installation && d[at + 2] <= 128 {
        SetKeepsRow(c, learned.uart, ReadPrefix(d, at), INTERFACE_UART);
      }
    }
  }

  lemma TakingKeepsGood(c: Config, n: Node, d: seq<Byte>, end: nat, installation: bool)
    requires GoodNode(c, n) && RA_OPTIONS <= end && end + 32 <= |d|
    requires c.routeOver ==> IsFresh(n, d, end, installation)
    ensures GoodNode(c, TakenIn(c, n, d, end, installation))
  {
    hide Good, FindBorderRouter, LinkLocal, IdOn, AnyBit, Field16, Field32, FieldVersion, Pow256, ContextsFit;
    FieldsFit(d, RA_FIELDS + 4);
    FieldsFit(d, RA_FIELDS + 8);
    var found := FindBorderRouter(d, RA_OPTIONS, end);
    if found.At? {
      FieldsFit(d, found.position + 2);
      FieldsFit(d, found.position + 6);
    }
    RouterSolicitation.StepKeepsGood(n.solicitor, RouterSolicitation.Advertised);
  }

  lemma TickKeepsGood(c: Config, n: Node, cache: Cache)
    requires GoodNode(c, n)
    ensures GoodNode(c, Tick(c, n, cache))
  {
    FourBytes();
    RouterSolicitation.StepKeepsGood(n.solicitor, RouterSolicitation.Wanted);
    AgingKeepsRow(n.radio, LinkLocal(IdOn(c, INTERFACE_RADIO), c.idSize));
    hide Good, Wants, Emptied, AgeRow, LinkLocal, IdOn, RouterSolicitation.Good, RouterSolicitation.Begin, Pow256;
  }

  lemma AgingKeepsRow(row: seq<Prefix>, linkLocal: seq<Byte>)
    requires Good(row, linkLocal)
    ensures Good(AgeRow(row), linkLocal) && Good(Emptied(row), linkLocal)
  {
    StepKeepsGood(row, PrefixTable.Tick, 0, 1, linkLocal);
    StepKeepsGood(row, PrefixTable.Expired, 0, 1, linkLocal);
    hide Good;
  }

  lemma StepKeepsGoodNode(c: Config, n: Node, e: Event)
    requires GoodNode(c, n) && GoodEvent(e)
    ensures Step(c, n, e).Known? ==> GoodNode(c, Step(c, n, e).value)
  {
    match e {
      case Hears(d, end, installation) =>
        hide GoodNode, Hear;
        HearKeepsGood(c, n, d, end, installation);
      case Ticks(cache) =>
        hide GoodNode, Tick;
        TickKeepsGood(c, n, cache);
      case SolicitTimer =>
        hide Good, RouterSolicitation.Good;
        RouterSolicitation.StepKeepsGood(n.solicitor, RouterSolicitation.TimerFires);
      case Advertises =>
        hide Good, RouterSolicitation.Good;
        FourBytes();
    }
  }

  function Run(c: Config, n: Node, events: seq<Event>): Outcome<Node>
    requires GoodNode(c, n) && forall e | e in events :: GoodEvent(e)
    decreases |events|
  {
    if events == [] then Known(n) else
      StepKeepsGoodNode(c, n, events[0]);
      match Step(c, n, events[0])
      case Overrun => Overrun
      case Known(next) => Run(c, next, events[1..])
  }

  /** In every run, whatever is heard, as long as no copy leaves its memory: solicitation counters have their timers,
      rows keep their link-local address and no address twice, and every stored field fits into the option that
      advertises it. */
  lemma {:induction false} RunKeepsGoodNode(c: Config, n: Node, events: seq<Event>)
    requires GoodNode(c, n) && forall e | e in events :: GoodEvent(e)
    ensures Run(c, n, events).Known? ==> GoodNode(c, Run(c, n, events).value)
    decreases |events|
  {
    hide GoodNode, Step;
    if events != [] {
      StepKeepsGoodNode(c, n, events[0]);
      if Step(c, n, events[0]).Known? {
        RunKeepsGoodNode(c, Step(c, n, events[0]).value, events[1..]);
      }
    }
  }

  /** An advertisement none of whose copies leaves its memory, in whatever state it is heard. */
  ghost predicate Harmless(c: Config, e: Event)
    requires ValidConfig(c) && GoodEvent(e)
  {
    e.Hears? ==> !Overlong(c, e.d, e.end, e.installation)
  }

  /** A run in which only harmless advertisements are heard goes through. */
  lemma {:induction false} HarmlessRunsGoThrough(c: Config, n: Node, events: seq<Event>)
    requires GoodNode(c, n) && forall e | e in events :: GoodEvent(e)
    requires forall i | 0 <= i < |events| :: Harmless(c, events[i])
    ensures Run(c, n, events).Known?
    decreases |events|
  {
    hide GoodNode, Hear, Overlong, Tick;
    GoodNodeHas(c, n);
    if events != [] {
      StepKeepsGoodNode(c, n, events[0]);
      if events[0].Hears? {
        SpillsExactly(c, n, events[0].d, events[0].end, events[0].installation);
      }
      assert Harmless(c, events[0]);
      assert forall i | 0 <= i < |events[1..]| :: events[1..][i] == events[i + 1];
      HarmlessRunsGoThrough(c, Step(c, n, events[0]).value, events[1..]);
    }
  }

  lemma GoodNodeHas(c: Config, n: Node)
    requires GoodNode(c, n)
    ensures ValidConfig(c) && |n.contexts| == CONTEXTS && StorageFits(n.storage)
  {
  }

  /** A run without an installation in which the border router's information never expires. */
  predicate Ordinary(c: Config, n: Node, events: seq<Event>)
    requires GoodNode(c, n) && forall e | e in events :: GoodEvent(e)
    decreases |events|
  {
    events == [] || (
      StepKeepsGoodNode(c, n, events[0]);
      && (events[0].Hears? ==> !events[0].installation)
      && (events[0].Ticks? ==> !Expires(c, n))
      && (Step(c, n, events[0]).Known? ==> Ordinary(c, Step(c, n, events[0]).value, events[1..])))
  }

  /** Between installations and expiries the stored version never decreases. */
  lemma {:induction false} VersionNeverDecreases(c: Config, n: Node, events: seq<Event>)
    requires GoodNode(c, n) && (forall e | e in events :: GoodEvent(e)) && Ordinary(c, n, events)
    ensures Run(c, n, events).Known? ==> Run(c, n, events).value.storage.brVersion >= n.storage.brVersion
    decreases |events|
  {
    hide GoodNode, Step, Expires;
    if events != [] && Step(c, n, events[0]).Known? {
      StepKeepsGoodNode(c, n, events[0]);
      StepKeepsVersion(c, n, events[0]);
      VersionNeverDecreases(c, Step(c, n, events[0]).value, events[1..]);
    }
  }

  /** The only steps that lower the stored version: an installation, and an expiry, which makes it 0. */
  lemma StepKeepsVersion(c: Config, n: Node, e: Event)
    requires GoodNode(c, n) && GoodEvent(e)
    ensures e.Ticks? && Expires(c, n) ==> Step(c, n, e).Known? && Step(c, n, e).value.storage.brVersion == 0
    ensures Step(c, n, e).Known? && Step(c, n, e).value.storage.brVersion < n.storage.brVersion ==>
      (e.Hears? && e.installation) || (e.Ticks? && Expires(c, n))
  {
    hide Hear, Wants;
    if e.Hears? {
      HearKeepsVersion(c, n, e.d, e.end, e.installation);
    }
  }

  /** A node as it starts. */
  function Initial(c: Config, slots: nat): Node
    requires ValidConfig(c) && slots > 0
  {
    Node(RouterSolicitation.IDLE, FRESH_STORAGE,
         EmptyRow(slots)[0 := LinkLocalEntry(LinkLocal(IdOn(c, INTERFACE_RADIO), c.idSize))],
         EmptyRow(slots)[0 := LinkLocalEntry(LinkLocal(IdOn(c, INTERFACE_UART), c.idSize))],
         FreshContexts())
  }

  lemma InitialIsGoodNode(c: Config, slots: nat)
    requires ValidConfig(c) && slots > 0
    ensures GoodNode(c, Initial(c, slots))
  {
    hide LinkLocal, Good, IdOn, Pow256;
    FourBytes();
    InitialRowIsGood(IdOn(c, INTERFACE_RADIO), c.idSize, slots);
    InitialRowIsGood(IdOn(c, INTERFACE_UART), c.idSize, slots);
  }

  // ---------------------------------------------------------------------------------------------
  // From one node to another
  // ---------------------------------------------------------------------------------------------

  /** The prefix of no live context looks like an option to the walk over an advertisement. */
  predicate QuietContexts(es: seq<ContextEntry>) {
    forall i | 0 <= i < |es| :: es[i].lifetime > 0 ==> |es[i].prefix| == 16 && Quiet(ContextOption(es[i], i))
  }

  /** A context as a receiver has it. */
  function Delivered(e: ContextEntry, cid: nat): ContextEntry
    requires |e.prefix| == 16
  {
    var n := 8 * (ContextUnits(e.prefixLength) - 1);
    ContextEntry(0xFFFF, cid / 2 % 2 == 1 || cid / 8 % 2 == 1, e.prefixLength, e.prefix[..n] + Zeros(16 - n))
  }

  /** A receiver's contexts when the sender's live ones below `n` have arrived. */
  function Overlaid(own: seq<ContextEntry>, es: seq<ContextEntry>, n: nat): (r: seq<ContextEntry>)
    requires n <= |es| == |own| && forall i | 0 <= i < n :: |es[i].prefix| == 16
    ensures |r| == |own|
  {
    seq(|own|, i requires 0 <= i < |own| => if i < n && es[i].lifetime > 0 then Delivered(es[i], i) else own[i])
  }

  lemma {:induction false} PrefixOptionsAre(row: seq<Prefix>, n: nat, w: nat)
    requires n <= |row| && IsRow(row) && RowFits(row)
    ensures forall i | 0 <= i < |PrefixOptions(row, n)| ::
        PrefixOptions(row, n)[i].PrefixInformation? && WellFormed(PrefixOptions(row, n)[i], w)
          && Usable(PrefixOptions(row, n)[i])
    ensures |PrefixOptions(row, n)| <= if n == 0 then 0 else n - 1
  {
    FourBytes();
    hide Pow256;
    if n > 1 {
      PrefixOptionsAre(row, n - 1, w);
    }
  }

  lemma {:induction false} ContextOptionsAre(es: seq<ContextEntry>, n: nat, w: nat)
    requires n <= |es| && ContextsFit(es)
    ensures forall i | 0 <= i < |ContextOptions(es, n)| ::
        ContextOptions(es, n)[i].Context? && WellFormed(ContextOptions(es, n)[i], w)
    ensures |ContextOptions(es, n)| <= n
  {
    FourBytes();
    hide Pow256;
    if n > 0 {
      ContextOptionsAre(es, n - 1, w);
    }
  }

  /** Every advertisement can be written: its fields fit into the options. */
  lemma OfferedIsWellFormed(c: Config, n: Node)
    requires GoodNode(c, n)
    ensures AllWellFormed(Offered(c, n), c.idSize)
  {
    hide Pow256, LinkLocal, RouterSolicitation.Good;
    hide Good, PrefixOptions, ContextOptions;
    RowsOf(c, n);
    PrefixOptionsAre(n.radio, |n.radio|, c.idSize);
    ContextOptionsAre(n.contexts, |n.contexts|, c.idSize);
  }

  lemma {:induction false} OnlyAll(loop: Loop, os: seq<NdOption>)
    requires forall i | 0 <= i < |os| :: Handled(loop, TypeOf(os[i]))
    ensures Only(loop, os) == os
    decreases os
  {
    if os != [] {
      OnlyAll(loop, os[1..]);
      assert os == [os[0]] + os[1..];
    }
  }

  lemma {:induction false} SeenTwo(a: seq<NdOption>, b: seq<NdOption>)
    requires FullPrefixes(a) && FullPrefixes(b)
    ensures FullPrefixes(a + b) && SeenAll(a + b) == SeenAll(a) + SeenAll(b)
    decreases |a|
  {
    hide SeenAll, SeenOf, FullPrefix;
    SeenOnce(a);
    SeenOnce(a + b);
    if a == [] {
      assert a + b == b;
    } else {
      assert (a + b)[1..] == a[1..] + b;
      SeenTwo(a[1..], b);
    }
  }

  lemma {:induction false} SeenAsWritten(os: seq<NdOption>)
    requires forall i | 0 <= i < |os| :: !os[i].Context? && Handled(RouterAdvertisements, TypeOf(os[i]))
    ensures FullPrefixes(os) && SeenAll(os) == os
    decreases |os|
  {
    hide Handled;
    if os != [] {
      SeenAsWritten(os[1..]);
      assert os == [os[0]] + os[1..];
    }
  }

  lemma {:induction false} ContextOptionsAreQuiet(es: seq<ContextEntry>, n: nat)
    requires n <= |es| && QuietContexts(es)
    ensures AllQuiet(ContextOptions(es, n))
    ensures forall i | 0 <= i < |ContextOptions(es, n)| :: ContextOptions(es, n)[i].Context?
    ensures FullPrefixes(ContextOptions(es, n))
  {
    hide Quiet;
    if n > 0 {
      ContextOptionsAreQuiet(es, n - 1);
    }
  }

  /** What the advertisement loop reads of an advertisement whose contexts are quiet: the identifier, the prefixes and
      the contexts, in this order. */
  lemma OfferedIsRead(c: Config, n: Node)
    requires GoodNode(c, n) && QuietContexts(n.contexts)
    ensures AllWellFormed(Offered(c, n), c.idSize) && AllQuiet(Offered(c, n))
    ensures AllHoldable(RouterAdvertisements, Offered(c, n))
    ensures FullPrefixes(Offered(c, n)) && FullPrefixes(ContextOptions(n.contexts, |n.contexts|))
    ensures SeenAll(Offered(c, n)) == [LinkLayer(c.radioId)] + PrefixOptions(n.radio, |n.radio|)
      + SeenAll(ContextOptions(n.contexts, |n.contexts|))
    ensures c.routeOver ==> FirstBorderRouter(RA_OPTIONS, Offered(c, n), c.idSize) == At(RA_OPTIONS)
  {
    hide PrefixOptions, ContextOptions, WellFormed, Good, ValidConfig, StorageFits, ContextsFit, Quiet, SeenAll;
    hide RouterSolicitation.Good, QuietContexts;
    RowsOf(c, n);
    OfferedIsWellFormed(c, n);
    WellFormedIsFull(Offered(c, n), c.idSize);
    ContextOptionsAreQuiet(n.contexts, |n.contexts|);
    PrefixOptionsAre(n.radio, |n.radio|, c.idSize);
    var cs := ContextOptions(n.contexts, |n.contexts|);
    var middle := [LinkLayer(c.radioId)] + PrefixOptions(n.radio, |n.radio|);
    SeenAsWritten(middle);
    SeenTwo(middle, cs);
    SeenOnce(Offered(c, n));
    if c.routeOver {
      assert Offered(c, n)[1..] == middle + cs;
    } else {
      assert Offered(c, n) == middle + cs;
    }
  }

  function RaFlags(s: Storage): Byte {
    (if s.managed then 0x80 else 0) + if s.otherConfig then 0x40 else 0
  }

  /** The fixed fields of an advertisement are written. */
  predicate HasParameters(d: seq<Byte>, s: Storage)
    requires StorageFits(s)
  {
    && Has(d, RA_FIELDS, [s.curHopLimit]) && Has(d, RA_FIELDS + 1, [RaFlags(s)])
    && Has(d, RA_FIELDS + 2, BigEndian(s.defaultLifetime, 2))
    && Has(d, RA_FIELDS + 4, BigEndian(s.reachableTime, 4)) && Has(d, RA_FIELDS + 8, BigEndian(s.retransTimer, 4))
  }

  lemma FlagBits(managed: bool, otherConfig: bool)
    ensures var flags: Byte := (if managed then 0x80 else 0) + if otherConfig then 0x40 else 0;
      (AnyBit(flags, 0x80) <==> managed) && (AnyBit(flags, 0x40) <==> otherConfig)
  {
  }

  /** The receiver takes over the sender's parameters; a hop limit of 0 leaves its own. */
  lemma ParametersArrive(d: seq<Byte>, sender: Storage, s: Storage)
    requires StorageFits(sender) && HasParameters(d, sender) && |d| >= RA_OPTIONS
    ensures WithParameters(s, d) == s.(
      curHopLimit := if sender.curHopLimit != 0 then sender.curHopLimit else s.curHopLimit,
      managed := sender.managed, otherConfig := sender.otherConfig,
      reachableTime := sender.reachableTime, retransTimer := sender.retransTimer)
  {
    ByteAt(d, RA_FIELDS, sender.curHopLimit);
    ByteAt(d, RA_FIELDS + 1, RaFlags(sender));
    FlagBits(sender.managed, sender.otherConfig);
    Read32(d, RA_FIELDS + 4, sender.reachableTime);
    Read32(d, RA_FIELDS + 8, sender.retransTimer);
    hide Has, BigEndian, Field32, AnyBit, Pow256;
  }

  /** Prefix options set in order on a row. */
  function SetAll(c: Config, row: seq<Prefix>, os: seq<NdOption>): (r: seq<Prefix>)
    requires ValidConfig(c) && AllUsable(os)
    ensures |r| == |row|
    decreases os
  {
    if os == [] then row
    else SetAll(c, if os[0].PrefixInformation? then Set(row, BuiltFrom(c, os[0], INTERFACE_RADIO)) else row, os[1..])
  }

  lemma {:induction false} LearnTwo(c: Config, n: Node, a: seq<NdOption>, b: seq<NdOption>)
    requires ValidConfig(c) && |n.contexts| == CONTEXTS && AllUsable(a) && AllUsable(b)
    ensures AllUsable(a + b) && LearnAll(c, n, a + b) == LearnAll(c, LearnAll(c, n, a), b)
    decreases |a|
  {
    hide Learn, Usable;
    if a == [] {
      assert a + b == b;
    } else {
      LearnTwo(c, Learn(c, n, a[0]), a[1..], b);
      assert (a + b)[1..] == a[1..] + b;
    }
  }

  lemma LearnOneMore(c: Config, n: Node, os: seq<NdOption>, o: NdOption)
    requires ValidConfig(c) && |n.contexts| == CONTEXTS && AllUsable(os) && Usable(o)
    ensures AllUsable(os + [o]) && LearnAll(c, n, os + [o]) == Learn(c, LearnAll(c, n, os), o)
  {
    hide Learn, Usable;
    LearnTwo(c, n, os, [o]);
    assert [o][1..] == [];
  }

  lemma {:induction false} LearningPrefixes(c: Config, n: Node, os: seq<NdOption>)
    requires ValidConfig(c) && |n.contexts| == CONTEXTS && AllUsable(os) && NoContexts(os)
    ensures LearnAll(c, n, os) == n.(radio := SetAll(c, n.radio, os))
    decreases os
  {
    if os != [] {
      LearningPrefixes(c, Learn(c, n, os[0]), os[1..]);
      hide Usable, Set, BuiltFrom, ValidConfig;
    }
  }

  /** Learning the contexts of an advertisement overlays the live ones. */
  lemma {:induction false} LearningContexts(c: Config, n: Node, es: seq<ContextEntry>, k: nat)
    requires ValidConfig(c) && |n.contexts| == CONTEXTS && ContextsFit(es) && k <= CONTEXTS
    ensures FullPrefixes(ContextOptions(es, k)) && AllUsable(SeenAll(ContextOptions(es, k)))
    ensures LearnAll(c, n, SeenAll(ContextOptions(es, k))) == n.(contexts := Overlaid(n.contexts, es, k))
    ensures forall i | 0 <= i < |SeenAll(ContextOptions(es, k))| :: SeenAll(ContextOptions(es, k))[i].Context?
  {
    hide *;
    ContextOptionsOnce(es, k);
    SeenOnce([]);
    OverlaidOnce(n.contexts, es, k);
    LearnsNothing(c, n);
    if k > 0 {
      LearningContexts(c, n, es, k - 1);
      if es[k - 1].lifetime > 0 {
        var o, before := ContextOption(es[k - 1], k - 1), ContextOptions(es, k - 1);
        ContextDelivered(c, LearnAll(c, n, SeenAll(before)), es[k - 1], k - 1);
        SeenTwo(before, [o]);
        SeenOnce([o]);
        var seen := SeenOf(o)[0];
        assert [o][1..] == [] && SeenAll([o]) == [seen];
        LearnOneMore(c, n, SeenAll(before), seen);
      }
    }
  }

  lemma ContextOptionsOnce(es: seq<ContextEntry>, k: nat)
    requires ContextsFit(es) && k <= CONTEXTS
    ensures CONTEXTS == 16 && |es| == 16 && forall i | 0 <= i < |es| :: ContextFits(es[i])
    ensures ContextOptions(es, 0) == [] && FullPrefixes([])
    ensures k > 0 && es[k - 1].lifetime == 0 ==> ContextOptions(es, k) == ContextOptions(es, k - 1)
    ensures k > 0 && es[k - 1].lifetime > 0 ==>
      ContextOptions(es, k) == ContextOptions(es, k - 1) + [ContextOption(es[k - 1], k - 1)]
  {
    hide ContextOption, ContextFits;
  }

  lemma LearnsNothing(c: Config, n: Node)
    requires ValidConfig(c) && |n.contexts| == CONTEXTS
    ensures AllUsable([]) && LearnAll(c, n, []) == n
  {
  }

  lemma OverlaidOnce(own: seq<ContextEntry>, es: seq<ContextEntry>, k: nat)
    requires k <= CONTEXTS == |own| && ContextsFit(es)
    ensures Overlaid(own, es, 0) == own
    ensures k > 0 && es[k - 1].lifetime == 0 ==> Overlaid(own, es, k) == Overlaid(own, es, k - 1)
    ensures k > 0 && es[k - 1].lifetime > 0 ==>
      Overlaid(own, es, k) == Overlaid(own, es, k - 1)[k - 1 := Delivered(es[k - 1], k - 1)]
  {
    hide Delivered;
  }

  /** One context, from the option to the receiver's table. */
  lemma ContextDelivered(c: Config, n: Node, e: ContextEntry, cid: nat)
    requires ValidConfig(c) && |n.contexts| == CONTEXTS && ContextFits(e) && cid < CONTEXTS
    ensures var o := ContextOption(e, cid);
      && FullPrefix(o) && FullPrefixes([o]) && |SeenOf(o)| == 1 && SeenOf(o)[0].Context? && Usable(SeenOf(o)[0])
      && Learn(c, n, SeenOf(o)[0]) == n.(contexts := n.contexts[cid := Delivered(e, cid)])
  {
    FourBytes();
    SeenMeans(ContextOption(e, cid));
  }

  lemma LastOfOffered(id: nat, os: seq<NdOption>)
    requires forall i | 0 <= i < |os| :: !os[i].LinkLayer?
    ensures LinkLayerIn([LinkLayer(id)] + os) == id
    decreases |os|
  {
    var all := [LinkLayer(id)] + os;
    if os == [] {
      assert all[|all| - 1] == LinkLayer(id);
    } else {
      assert all[..|all| - 1] == [LinkLayer(id)] + os[..|os| - 1];
      LastOfOffered(id, os[..|os| - 1]);
    }
  }

  /** The border router information of a sender is new to a receiver: the version is compared with halves exchanged. */
  predicate NewTo(c: Config, sender: Storage, n: Storage)
    requires StorageFits(sender)
  {
    c.routeOver ==> HalfSwap(sender.brVersion) >= n.brVersion
  }

  /** From one node to its neighbor: an advertisement whose contexts are quiet, as one node writes it, makes another
      one take over the parameters, set the advertised prefixes in their order, store the live contexts, and pass the
      message on or register at the identifier it came from, if and only if its version, with halves exchanged, is not
      older; else it is dropped. */
  lemma AdvertisementArrives(from: Config, sender: Node, c: Config, n: Node, d: seq<Byte>, end: nat)
    requires GoodNode(from, sender) && GoodNode(c, n) && from.idSize == c.idSize && from.routeOver == c.routeOver
    requires QuietContexts(sender.contexts) && AllWellFormed(Offered(from, sender), c.idSize)
    requires HasParameters(d, sender.storage) && Laid(d, RA_OPTIONS, Offered(from, sender), c.idSize)
    requires end == RA_OPTIONS + SizeOfAll(Offered(from, sender), c.idSize) && end + 32 <= |d|
    ensures AllUsable(PrefixOptions(sender.radio, |sender.radio|))
    ensures Hear(c, n, d, end, false).1.Dropped? <==> !NewTo(c, sender.storage, n.storage)
    ensures !NewTo(c, sender.storage, n.storage) ==> Hear(c, n, d, end, false).0 == n
    ensures NewTo(c, sender.storage, n.storage) ==>
      var (r, reaction) := Hear(c, n, d, end, false);
      && r.radio == SetAll(c, n.radio, PrefixOptions(sender.radio, |sender.radio|))
      && r.contexts == Overlaid(n.contexts, sender.contexts, CONTEXTS)
      && r.uart == n.uart && r.solicitor == n.solicitor.(sent := 0)
      && reaction == (if c.routeOver && n.storage.isRouter then Relayed else Registers(from.radioId))
    ensures NewTo(c, sender.storage, n.storage) ==>
      var r := Hear(c, n, d, end, false).0;
      r.storage == WithParameters(if c.routeOver then Received(sender.storage, n.storage) else n.storage, d)
  {
    hide Walk, FindBorderRouter, ReadBorderRouter, AnyBit, Field32, Pow256, LearnAll, LinkLayerIn, PrefixOptions;
    hide Offered, HasParameters, Laid, SizeOfAll, LastPrefixAt;
    hide Good, Set, BuiltFrom, ValidConfig, ContextsFit, HalfSwap, ReadPrefix, WellFormed, RouterSolicitation.Good;
    RowsOf(from, sender);
    RowsOf(c, n);
    var prefixes := PrefixOptions(sender.radio, |sender.radio|);
    OfferedArrives(from, sender, d, end);
    PrefixOptionsAre(sender.radio, |sender.radio|, c.idSize);
    if NewTo(c, sender.storage, n.storage) {
      LearningOffered(c, TakenIn(c, n, d, end, false), from, sender);
    }
  }

  /** What learning an advertisement changes. */
  lemma LearningOffered(c: Config, n: Node, from: Config, sender: Node)
    requires ValidConfig(c) && |n.contexts| == CONTEXTS && GoodNode(from, sender) && QuietContexts(sender.contexts)
    ensures var prefixes := PrefixOptions(sender.radio, |sender.radio|);
      var cs := ContextOptions(sender.contexts, |sender.contexts|);
      && FullPrefixes(cs)
      && var os := [LinkLayer(from.radioId)] + prefixes + SeenAll(cs);
         && AllUsable(prefixes) && AllUsable(os) && LinkLayerIn(os) == from.radioId
         && LearnAll(c, n, os) == n.(radio := SetAll(c, n.radio, prefixes),
              contexts := Overlaid(n.contexts, sender.contexts, CONTEXTS))
  {
    hide PrefixOptions, ContextOptions, LearnAll, SeenAll, Overlaid, WellFormed, Quiet, Set, BuiltFrom, ValidConfig;
    hide Good, StorageFits, RouterSolicitation.Good, LinkLayerIn, FullPrefix;
    RowsOf(from, sender);
    var prefixes := PrefixOptions(sender.radio, |sender.radio|);
    PrefixOptionsAre(sender.radio, |sender.radio|, from.idSize);
    LearningContexts(c, n.(radio := SetAll(c, n.radio, prefixes)), sender.contexts, CONTEXTS);
    var cs := SeenAll(ContextOptions(sender.contexts, CONTEXTS));
    var first := [LinkLayer(from.radioId)] + prefixes;
    assert first[1..] == prefixes;
    LearningPrefixes(c, n, first);
    LearnTwo(c, n, first, cs);
    LastOfOffered(from.radioId, prefixes + cs);
    assert first + cs == [LinkLayer(from.radioId)] + (prefixes + cs);
  }

  lemma OfferedHead(from: Config, sender: Node, d: seq<Byte>)
    requires from.routeOver && AllWellFormed(Offered(from, sender), from.idSize)
    requires Laid(d, RA_OPTIONS, Offered(from, sender), from.idSize)
    ensures WellFormed(BorderRouterOption(sender.storage), from.idSize)
    ensures Holds(d, RA_OPTIONS, BorderRouterOption(sender.storage), from.idSize)
    ensures RA_OPTIONS + SizeOfAll(Offered(from, sender), from.idSize) >= RA_OPTIONS + 24
  {
    hide Holds, WellFormed, PrefixOptions, ContextOptions;
    assert Offered(from, sender)[0] == BorderRouterOption(sender.storage);
    Lists(RouterAdvertisements, d, RA_OPTIONS, Offered(from, sender), from.idSize);
  }

  lemma OfferedArrives(from: Config, sender: Node, d: seq<Byte>, end: nat)
    requires GoodNode(from, sender) && QuietContexts(sender.contexts)
    requires AllWellFormed(Offered(from, sender), from.idSize)
    requires Laid(d, RA_OPTIONS, Offered(from, sender), from.idSize)
    requires end == RA_OPTIONS + SizeOfAll(Offered(from, sender), from.idSize) && end + 32 <= |d|
    ensures var cs := ContextOptions(sender.contexts, |sender.contexts|);
      && FullPrefixes(cs)
      && Walk(RouterAdvertisements, d, RA_OPTIONS, end, from.idSize)
         == Walked([LinkLayer(from.radioId)] + PrefixOptions(sender.radio, |sender.radio|) + SeenAll(cs), Complete,
              end)
    ensures from.routeOver ==> FindBorderRouter(d, RA_OPTIONS, end) == At(RA_OPTIONS)
    ensures from.routeOver ==> ReadBorderRouter(d, RA_OPTIONS) == BorderRouter(HalfSwap(sender.storage.brVersion),
      if sender.storage.abroLifetime == 0 then DEFAULT_ABRO_LIFETIME else sender.storage.abroLifetime,
      sender.storage.brAddress)
  {
    hide Walk, FindBorderRouter, ReadBorderRouter, Offered, Holds, SizeOfAll, FirstBorderRouter, AllInStep, Quiet;
    hide Good, ContextsFit, HalfSwap, RouterSolicitation.Good, PrefixOptions;
    var s := sender.storage;
    OfferedIsRead(from, sender);
    QuietIsInStep(Offered(from, sender));
    WalkReadsQuiet(d, RA_OPTIONS, Offered(from, sender), from.idSize);
    FindsBorderRouter(d, RA_OPTIONS, Offered(from, sender), from.idSize);
    if from.routeOver {
      OfferedHead(from, sender, d);
      BorderRouterReadsSwapped(d, RA_OPTIONS, s.brVersion, s.abroLifetime, s.brAddress, from.idSize);
    }
  }

  /** The border router's part of a storage as the next node has it. */
  function Received(sender: Storage, s: Storage): Storage
    requires StorageFits(sender)
  {
    s.(brVersion := HalfSwap(sender.brVersion),
       abroLifetime := if sender.abroLifetime == 0 then DEFAULT_ABRO_LIFETIME else sender.abroLifetime,
       brAddress := sender.brAddress)
  }

  /** A border router's newer version refused: a node that heard version 0xFFFF drops the advertisement that says
      0x10000, since it reads 0xFFFF0000 and 1. */
  lemma NewerIsRefused(from: Config, older: Node, newer: Node, c: Config, n: Node, d: seq<Byte>, end: nat, e: seq<Byte>,
                       last: nat)
    requires GoodNode(from, older) && GoodNode(from, newer) && GoodNode(c, n) && from.idSize == c.idSize
    requires from.routeOver && c.routeOver && n.storage.brVersion == 0
    requires older.storage.brVersion == 0xFFFF && newer.storage.brVersion == 0x1_0000
    requires QuietContexts(older.contexts) && AllWellFormed(Offered(from, older), c.idSize)
    requires HasParameters(d, older.storage) && Laid(d, RA_OPTIONS, Offered(from, older), c.idSize)
    requires end == RA_OPTIONS + SizeOfAll(Offered(from, older), c.idSize) && end + 32 <= |d|
    requires QuietContexts(newer.contexts) && AllWellFormed(Offered(from, newer), c.idSize)
    requires HasParameters(e, newer.storage) && Laid(e, RA_OPTIONS, Offered(from, newer), c.idSize)
    requires last == RA_OPTIONS + SizeOfAll(Offered(from, newer), c.idSize) && last + 32 <= |e|
    ensures var heard := Hear(c, n, d, end, false);
      && !heard.1.Dropped? && heard.0.storage.brVersion == 0xFFFF_0000
      && |heard.0.contexts| == CONTEXTS && Hear(c, heard.0, e, last, false) == (heard.0, Dropped)
  {
    hide Hear, WithParameters, LearnAll, Offered, Laid, SizeOfAll, HasParameters, SetAll, PrefixOptions, Good;
    hide AllWellFormed;
    FourBytes();
    AdvertisementArrives(from, older, c, n, d, end);
    HearKeepsGood(c, n, d, end, false);
    var heard := Hear(c, n, d, end, false).0;
    ParametersKeepVersion(Received(older.storage, n.storage), d);
    AdvertisementArrives(from, newer, c, heard, e, last);
  }

  lemma ParametersKeepVersion(s: Storage, d: seq<Byte>)
    requires |d| >= RA_OPTIONS
    ensures WithParameters(s, d).brVersion == s.brVersion
  {
  }

  // ---------------------------------------------------------------------------------------------
  // Advertisements with contexts
  // ---------------------------------------------------------------------------------------------

  /** Context `i` is the first live one. */
  predicate FirstLive(es: seq<ContextEntry>, i: nat) {
    i < |es| && es[i].lifetime > 0 && forall j | 0 <= j < i :: es[j].lifetime == 0
  }

  lemma {:induction false} FirstContextOption(es: seq<ContextEntry>, n: nat, i: nat)
    requires n <= |es| && FirstLive(es, i)
    ensures n <= i ==> ContextOptions(es, n) == []
    ensures i < n ==> ContextOptions(es, n) != [] && ContextOptions(es, n)[0] == ContextOption(es[i], i)
  {
    hide ContextOption;
    if n > 0 {
      FirstContextOption(es, n - 1, i);
    }
  }

  lemma {:induction false} LaidInTwo(d: seq<Byte>, at: nat, a: seq<NdOption>, b: seq<NdOption>, w: nat)
    requires AllWellFormed(a + b, w) && Laid(d, at, a + b, w)
    ensures AllWellFormed(a, w) && AllWellFormed(b, w)
    ensures Laid(d, at, a, w) && Laid(d, at + SizeOfAll(a, w), b, w)
    ensures SizeOfAll(a + b, w) == SizeOfAll(a, w) + SizeOfAll(b, w)
    decreases |a|
  {
    hide Holds, Size, WellFormed;
    if a == [] {
      assert a + b == b;
    } else {
      assert (a + b)[1..] == a[1..] + b;
      LaidInTwo(d, at + Size(a[0], w), a[1..], b, w);
      assert forall i | 0 <= i < |a| :: a[i] == (a + b)[i];
      assert forall i | 0 <= i < |b| :: b[i] == (a + b)[i + |a|];
    }
  }

  /** The options of an advertisement in front of its contexts. */
  function InFrontOfContexts(c: Config, n: Node): seq<NdOption> {
    (if c.routeOver then [BorderRouterOption(n.storage)] else []) + [LinkLayer(c.radioId)]
      + PrefixOptions(n.radio, |n.radio|)
  }

  lemma InFrontAre(c: Config, n: Node)
    requires GoodNode(c, n)
    ensures NoContexts(InFrontOfContexts(c, n)) && AllHoldable(RouterAdvertisements, InFrontOfContexts(c, n))
    ensures Offered(c, n) == InFrontOfContexts(c, n) + ContextOptions(n.contexts, |n.contexts|)
    ensures c.routeOver ==> FirstBorderRouter(RA_OPTIONS, Offered(c, n), c.idSize) == At(RA_OPTIONS)
  {
    hide PrefixOptions, ContextOptions, Good, ValidConfig, StorageFits, ContextsFit, RouterSolicitation.Good;
    RowsOf(c, n);
    PrefixOptionsAre(n.radio, |n.radio|, c.idSize);
  }

  /** An advertisement whose first live context has a prefix with 0 as its second byte, as fd00:: or fe00::, is
      misread by every receiver to which it is new: the walk ends in that prefix, as if an option had length zero,
      and the receiver neither passes the message on nor registers, which it does on the same advertisement without
      contexts. */
  lemma ContextAdvertisementIsMisread(from: Config, sender: Node, i: nat, c: Config, n: Node, d: seq<Byte>, end: nat)
    requires GoodNode(from, sender) && GoodNode(c, n) && from.idSize == c.idSize && from.routeOver == c.routeOver
    requires FirstLive(sender.contexts, i) && |sender.contexts[i].prefix| == 16 && sender.contexts[i].prefix[1] == 0
    requires AllWellFormed(Offered(from, sender), c.idSize) && Laid(d, RA_OPTIONS, Offered(from, sender), c.idSize)
    requires end == RA_OPTIONS + SizeOfAll(Offered(from, sender), c.idSize) && end + 32 <= |d|
    ensures Walk(RouterAdvertisements, d, RA_OPTIONS, end, c.idSize).ending.ZeroLength?
    ensures Hear(c, n, d, end, false).1 == Dropped
  {
    hide Laid, SizeOfAll, AllWellFormed, WellFormed, Offered, InFrontOfContexts, ContextOptions, Good, Only;
    hide ReadContext, LearnAll, Walk;
    var w, pre, cs := c.idSize, InFrontOfContexts(from, sender), ContextOptions(sender.contexts, |sender.contexts|);
    GoodNodeHas(c, n);
    InFrontAre(from, sender);
    FirstContextOption(sender.contexts, |sender.contexts|, i);
    LaidInTwo(d, RA_OPTIONS, pre, cs, w);
    Lists(RouterAdvertisements, d, RA_OPTIONS + SizeOfAll(pre, w), cs, w);
    WalkReachesBehind(d, RA_OPTIONS, pre, end, w);
    ContextEndsWalk(d, RA_OPTIONS + SizeOfAll(pre, w), cs[0], end, w);
  }

  /** A sender as in the lemma above. */
  function SenderWithContext(c: Config): Node
    requires ValidConfig(c)
  {
    Initial(c, 2).(contexts := FreshContexts()[0 := ContextEntry(100, true, 64, [0xFD] + Zeros(15))])
  }

  lemma SenderIsGood(c: Config)
    requires ValidConfig(c)
    ensures GoodNode(c, SenderWithContext(c)) && FirstLive(SenderWithContext(c).contexts, 0)
    ensures SenderWithContext(c).contexts[0].prefix[1] == 0
  {
    hide LinkLocal, Good, IdOn, Pow256;
    FourBytes();
    InitialIsGoodNode(c, 2);
  }

  // ---------------------------------------------------------------------------------------------
  // Concrete failures
  // ---------------------------------------------------------------------------------------------

  /** An advertisement with a border router of version 0 and, behind it, the given bytes. */
  function AdvertisementWith(bytes: seq<Byte>): (d: seq<Byte>)
    requires |bytes| == 40
    ensures |d| == 1532
  {
    Zeros(RA_OPTIONS) + [AUTHORITIVE_BORDER_ROUTER, 3] + Zeros(22) + bytes + Zeros(1412)
  }

  /** A context of five units, or a prefix of 136 bits. */
  const LONG_CONTEXT: seq<Byte> := [LOWPAN_CONTEXT, 5] + Zeros(38)
  const LONG_PREFIX: seq<Byte> := [PREFIX_INFORMATION, 4, 136] + Zeros(37)

  /** Every node that has heard of no border router loses its memory to such an advertisement, of 80 bytes. */
  lemma AdvertisementSpills(c: Config, n: Node, bytes: seq<Byte>)
    requires GoodNode(c, n) && n.storage.brVersion == 0 && bytes in {LONG_CONTEXT, LONG_PREFIX}
    ensures Hear(c, n, AdvertisementWith(bytes), 120, false).1 == Spills
    ensures Step(c, n, Hears(AdvertisementWith(bytes), 120, false)) == Wrappers.Overrun
  {
    hide Good, LearnAll, RouterSolicitation.Good;
    GoodNodeHas(c, n);
    var d := AdvertisementWith(bytes);
    assert d[56] == AUTHORITIVE_BORDER_ROUTER && d[57] == 3;
    assert d[80] == bytes[0] && d[81] == bytes[1] && d[82] == bytes[2];
    WalkStops(RouterAdvertisements, d, 80, 120, c.idSize);
    WalkTurns(RouterAdvertisements, d, 56, 120, c.idSize);
    FindOnce(d, 56, 120);
    SpillsByWalk(c, n, d, 120, false);
    hide Walk, FindBorderRouter, Hear;
  }

  /** A node left silent: its border router's information expires while the neighbor cache still holds a default
      router; it has no valid global prefix, and solicits only a turn later. */
  lemma SilentAfterExpiry(c: Config)
    requires ValidConfig(c) && c.routeOver
    ensures var n := Initial(c, 2).(storage := FRESH_STORAGE.(abroLifetime := 1));
      && GoodNode(c, n) && Expires(c, n)
      && var r := Tick(c, n, Cache(false, false));
         r.solicitor == RouterSolicitation.IDLE && ValidGlobal(r.radio, |r.radio|) == {}
  {
    hide LinkLocal, IdOn, Pow256;
    FourBytes();
    InitialIsGoodNode(c, 2);
    var n := Initial(c, 2).(storage := FRESH_STORAGE.(abroLifetime := 1));
    assert GoodNode(c, n);
    SolicitsAfterExpiry(c, n, Cache(false, false), Cache(false, false));
  }
}
