/** Reading the options of a message in place, as the `read_` and `process_` functions of icmpv6.h and its loops do. */
module NdReader {
  import opened Bytes
  import opened Checksum
  import opened Ipv6Address
  import opened PrefixTable
  import opened InterfaceManager
  import opened NdOptions
  import opened NdNode

  /** `at` is where a walk that started at `start` stands, with `done` read so far. */
  ghost predicate Walking(loop: Loop, d: seq<Byte>, start: nat, at: nat, end: nat, w: nat, done: seq<NdOption>)
    requires ValidIdSize(w) && end + 32 <= |d|
  {
    var rest := Walk(loop, d, at, end, w);
    Walk(loop, d, start, end, w) == Walked(done + rest.options, rest.ending, rest.end)
  }

  lemma WalkingStarts(loop: Loop, d: seq<Byte>, start: nat, end: nat, w: nat)
    requires ValidIdSize(w) && end + 32 <= |d|
    ensures Walking(loop, d, start, start, end, w, [])
  {
    assert [] + Walk(loop, d, start, end, w).options == Walk(loop, d, start, end, w).options;
  }

  lemma WalkingTurns(loop: Loop, d: seq<Byte>, start: nat, at: nat, end: nat, w: nat, done: seq<NdOption>)
    requires ValidIdSize(w) && end + 32 <= |d| && Walking(loop, d, start, at, end, w, done)
    requires at < end && d[at + 1] > 0 && Contained(loop, d, at)
    ensures var (read, next) := Turn(loop, d, at, w);
      at + 8 <= next && Walking(loop, d, start, next, end, w, done + read)
  {
    hide Walk, Turn, Contained;
    TurnAdvances(loop, d, at, w);
    WalkTurns(loop, d, at, end, w);
    var (read, next) := Turn(loop, d, at, w);
    var rest := Walk(loop, d, next, end, w).options;
    assert done + (read + rest) == done + read + rest;
  }

  lemma WalkingStops(loop: Loop, d: seq<Byte>, start: nat, at: nat, end: nat, w: nat, done: seq<NdOption>)
    requires ValidIdSize(w) && end + 32 <= |d| && Walking(loop, d, start, at, end, w, done)
    requires at >= end || d[at + 1] == 0 || !Contained(loop, d, at)
    ensures Walk(loop, d, start, end, w)
      == Walked(done, if at >= end then Complete else if d[at + 1] == 0 then ZeroLength else Spilled, at)
  {
    hide Walk, Turn, Contained;
    WalkStops(loop, d, at, end, w);
    assert done + [] == done;
  }

  lemma OneMoreLinkLayer(os: seq<NdOption>, o: NdOption)
    ensures LinkLayerIn(os + []) == LinkLayerIn(os)
    ensures LinkLayerIn(os + [o]) == if o.LinkLayer? then o.id else LinkLayerIn(os)
  {
    assert os + [] == os;
    assert (os + [o])[..|os|] == os;
  }

  /** read_link_layer_option */
  method ReadLinkLayerOption(payload: array<Byte>, actPos: nat, w: nat) returns (res: nat, next: nat)
    requires ValidIdSize(w) && 40 + actPos + 32 <= payload.Length
    ensures LinkLayer(res) == ReadLinkLayer(payload[..], 40 + actPos, w)
    ensures next == actPos + InBytes(payload[40 + actPos + 1])
  {
    next := actPos + InBytes(payload[40 + actPos + 1]);
    res := 0;
    ghost var bytes := payload[..][40 + actPos + 2..40 + actPos + 2 + w];
    for i := 0 to w
      invariant res == Value(bytes[..i])
    {
      assert bytes[..i + 1][..i] == bytes[..i] && bytes[..i + 1][i] == payload[40 + actPos + 2 + i];
      res := res * 256 + payload[40 + actPos + 2 + i];
    }
    assert bytes[..w] == bytes;
  }

  /** A loop that wants nothing but the source's link-layer identifier. */
  method WalkSolicitation(payload: array<Byte>, start: nat, transportLength: nat, w: nat)
    returns (complete: bool, linkLayer: nat)
    requires ValidIdSize(w) && 40 + transportLength + 32 <= payload.Length
    ensures var r := Walk(RouterSolicitations, payload[..], 40 + start, 40 + transportLength, w);
      complete == r.ending.Complete? && linkLayer == LinkLayerIn(r.options)
  {
    hide Walk, Turn, Walking, ReadLinkLayer, LinkLayerIn;
    ghost var d, end := payload[..], 40 + transportLength;
    ghost var done: seq<NdOption> := [];
    var actPos: nat := start;
    linkLayer := 0;
    WalkingStarts(RouterSolicitations, d, 40 + start, end, w);
    NoLinkLayer();
    while actPos < transportLength
      invariant Walking(RouterSolicitations, d, 40 + start, 40 + actPos, end, w, done) && linkLayer == LinkLayerIn(done)
      decreases transportLength - actPos
    {
      if payload[40 + actPos + 1] == 0 {
        WalkingStops(RouterSolicitations, d, 40 + start, 40 + actPos, end, w, done);
        return false, linkLayer;
      }
      WalkingTurns(RouterSolicitations, d, 40 + start, 40 + actPos, end, w, done);
      TurnMeans(RouterSolicitations, d, 40 + actPos, w);
      ghost var read := Turn(RouterSolicitations, d, 40 + actPos, w).0;
      OneMoreLinkLayer(done, ReadLinkLayer(d, 40 + actPos, w));
      if payload[40 + actPos] == SOURCE_LL_ADDRESS {
        linkLayer, actPos := ReadLinkLayerOption(payload, actPos, w);
      } else {
        actPos := actPos + InBytes(payload[40 + actPos + 1]);
      }
      done := done + read;
    }
    WalkingStops(RouterSolicitations, d, 40 + start, 40 + actPos, end, w, done);
    complete := true;
  }

  lemma NoLinkLayer()
    ensures LinkLayerIn([]) == 0
  {
  }

  /** A turn, by the type of the option. */
  lemma TurnMeans(loop: Loop, d: seq<Byte>, at: nat, w: nat)
    requires ValidIdSize(w) && at + 32 <= |d| && d[at + 1] > 0 && Contained(loop, d, at)
    ensures Turn(loop, d, at, w) ==
      (if d[at] == SOURCE_LL_ADDRESS then ([ReadLinkLayer(d, at, w)], at + InBytes(d[at + 1]))
       else if d[at] == PREFIX_INFORMATION && loop.RouterAdvertisements? then ([ReadPrefix(d, at)], at + 32)
       else if d[at] == LOWPAN_CONTEXT && loop.RouterAdvertisements? then ([ReadContext(d, at)], at + 8)
       else if d[at] == ADDRESS_REGISTRATION && loop.NeighborMessages? then ([ReadRegistration(d, at)], at + 16)
       else ([], at + InBytes(d[at + 1])))
  {
  }

  /** The first loop over an advertisement: where its border router option is, if it has one. */
  method FindBorderRouterOption(payload: array<Byte>, transportLength: nat) returns (found: bool, actPos: nat)
    requires 40 + transportLength + 32 <= payload.Length
    ensures FindBorderRouter(payload[..], RA_OPTIONS, 40 + transportLength)
      == if found then At(40 + actPos) else Nowhere
  {
    actPos := 16;
    while actPos < transportLength
      invariant FindBorderRouter(payload[..], RA_OPTIONS, 40 + transportLength)
        == FindBorderRouter(payload[..], 40 + actPos, 40 + transportLength)
      decreases transportLength - actPos
    {
      if payload[40 + actPos + 1] == 0 {
        return false, actPos;
      }
      if payload[40 + actPos] == AUTHORITIVE_BORDER_ROUTER {
        return true, actPos;
      }
      actPos := actPos + InBytes(payload[40 + actPos + 1]);
    }
    found := false;
  }

  // ---------------------------------------------------------------------------------------------
  // Learning from an advertisement
  // ---------------------------------------------------------------------------------------------

  /** The tables of a node are those that `n` has. */
  ghost predicate Shows(manager: InterfaceManager, contexts: array<ContextEntry>, c: Config, n: Node)
    reads manager, manager.prefixList, contexts
  {
    && ValidConfig(c) && manager.Valid() && manager.radioId == c.radioId && manager.idSize == c.idSize
    && contexts.Length == CONTEXTS
    && n.radio == manager.Row(0) && n.uart == manager.Row(1) && n.contexts == contexts[..]
  }

  /** process_prefix_information: the table of the interface takes the prefix. A length above 128 makes the copy leave
      the address; nothing is said about the memory then. */
  method ProcessPrefixInformation(payload: array<Byte>, actPos: nat, iface: nat, c: Config, manager: InterfaceManager,
                                  contexts: array<ContextEntry>, ghost n: Node)
    returns (inside: bool, next: nat)
    requires 40 + actPos + 32 <= payload.Length && iface < 2 && Shows(manager, contexts, c, n)
    modifies manager.prefixList
    ensures next == actPos + 32 && |n.contexts| == CONTEXTS
    ensures inside <==> payload[40 + actPos + 2] <= 128
    ensures inside ==> Usable(ReadPrefix(payload[..], 40 + actPos))
    ensures inside && iface == 0 ==> Shows(manager, contexts, c, Learn(c, n, ReadPrefix(payload[..], 40 + actPos)))
    ensures inside && iface == 1 ==>
      Shows(manager, contexts, c, n.(uart := Set(n.uart, BuiltFrom(c, ReadPrefix(payload[..], 40 + actPos), 1))))
  {
    hide Set, Formed, IsRow, RowFits, SlotFor, Built, AnyBit, Pow256;
    ghost var d := payload[..];
    FieldsFit(d, 40 + actPos + 4);
    FieldsFit(d, 40 + actPos + 8);
    var at := 40 + actPos;
    var prefixLen := payload[at + 2];
    var onlink, autonomous := AnyBit(payload[at + 3], 0x80), AnyBit(payload[at + 3], 0x40);
    var valid := Word(payload[at + 4], payload[at + 5]) * HALF + Word(payload[at + 6], payload[at + 7]);
    var preferred := Word(payload[at + 8], payload[at + 9]) * HALF + Word(payload[at + 10], payload[at + 11]);
    assert valid == Field32(d, at + 4) && preferred == Field32(d, at + 8);
    var code := manager.SetPrefixForInterface(payload[at + 16..at + 32], iface, prefixLen, valid, onlink, preferred,
      autonomous);
    inside, next := code != OutOfBounds, actPos + 32;
  }

  /** process_6lowpan_context_option: the entry is overwritten; the position stays in front of the prefix. An option of
      more than three units makes the copy leave the entry; nothing is said about the memory then. */
  method ProcessContextOption(payload: array<Byte>, actPos: nat, c: Config, manager: InterfaceManager,
                              contexts: array<ContextEntry>, ghost n: Node)
    returns (inside: bool, next: nat)
    requires 40 + actPos + 32 <= payload.Length && payload[40 + actPos + 1] > 0 && Shows(manager, contexts, c, n)
    modifies contexts
    ensures next == actPos + 8
    ensures inside <==> payload[40 + actPos + 1] <= 3
    ensures |n.contexts| == 16 && (inside ==> Usable(ReadContext(payload[..], 40 + actPos)))
    ensures inside ==> Shows(manager, contexts, c, Learn(c, n, ReadContext(payload[..], 40 + actPos)))
  {
    hide *;
    ShowsContext(manager, contexts, c, n);
    next := actPos + 8;
    if payload[40 + actPos + 1] > 3 {
      ShowsMeans(manager, contexts, c, n);
      return false, next;
    }
    var cid, e := ReadContextOption(payload, actPos);
    ContextIsUsable(payload[..], 40 + actPos);
    ghost var es := contexts[..];
    contexts[cid] := e;
    assert contexts[..] == es[cid := e];
    LearnsContext(c, n, ReadContext(payload[..], 40 + actPos));
    ShowsContext(manager, contexts, c, n.(contexts := contexts[..]));
    inside := true;
  }

  lemma ContextIsUsable(d: seq<Byte>, at: nat)
    requires at + 32 <= |d| && 0 < d[at + 1] <= 3
    ensures Usable(ReadContext(d, at)) && ReadContext(d, at).Context? && ReadContext(d, at).cid < 16
  {
    hide AnyBit;
    FieldsFit(d, at + 6);
  }

  lemma LearnsContext(c: Config, n: Node, o: NdOption)
    requires ValidConfig(c) && |n.contexts| == 16 && Usable(o) && o.Context? && o.cid < 16
    ensures Learn(c, n, o)
      == n.(contexts := n.contexts[o.cid := ContextEntry(o.lifetime, o.usable, o.prefixLength, o.prefix)])
  {
  }

  lemma ShowsContext(manager: InterfaceManager, contexts: array<ContextEntry>, c: Config, n: Node)
    ensures Shows(manager, contexts, c, n) <==> (
      && ValidConfig(c) && manager.Valid() && manager.radioId == c.radioId && manager.idSize == c.idSize
      && contexts.Length == 16 && manager.prefixList.Length0 == 2
      && n.radio == manager.Row(0) && n.uart == manager.Row(1) && n.contexts == contexts[..])
  {
  }

  method ReadContextOption(payload: array<Byte>, actPos: nat) returns (cid: nat, e: ContextEntry)
    requires 40 + actPos + 32 <= payload.Length && 0 < payload[40 + actPos + 1] <= 3
    ensures ReadContext(payload[..], 40 + actPos) == Context(cid, e.prefixLength, e.usable, e.lifetime, e.prefix)
  {
    hide AnyBit;
    var at := 40 + actPos;
    var copied := CopiedBytes(payload[at + 1]);
    cid := payload[at + 3] % 16;
    e := ContextEntry(Word(payload[at + 6], payload[at + 7]), AnyBit(payload[at + 3], 10), payload[at + 2],
                      payload[at + 8..at + 8 + copied] + Zeros(16 - copied));
  }

  /** The fields of a border router option. */
  method ReadBorderRouterOption(payload: array<Byte>, actPos: nat) returns (o: NdOption)
    requires 40 + actPos + 32 <= payload.Length
    ensures o == ReadBorderRouter(payload[..], 40 + actPos)
  {
    var at := 40 + actPos;
    var version := Word(payload[at + 4], payload[at + 5]) * HALF + Word(payload[at + 2], payload[at + 3]);
    var lifetime := Word(payload[at + 6], payload[at + 7]);
    if lifetime == 0 {
      lifetime := 10000;
    }
    o := BorderRouter(version, lifetime, payload[at + 8..at + 24]);
  }

  /** The fields of a registration. */
  method ReadRegistrationOption(payload: array<Byte>, actPos: nat) returns (lifetime: nat, eui: nat)
    requires 40 + actPos + 32 <= payload.Length
    ensures Registration(lifetime, eui) == ReadRegistration(payload[..], 40 + actPos)
  {
    var at := 40 + actPos;
    lifetime := Word(payload[at + 6], payload[at + 7]);
    ghost var bytes := payload[..][at + 8..at + 16];
    eui := 0;
    for i := 0 to 8
      invariant eui == Value(bytes[..i])
    {
      assert bytes[..i + 1][..i] == bytes[..i] && bytes[..i + 1][i] == payload[at + 8 + i];
      eui := eui * 256 + payload[at + 8 + i];
    }
    assert bytes[..8] == bytes;
  }

  /** The main loop over an advertisement. If it ends because a copy left its memory, nothing is said about the
      tables. */
  method LearnOptions(payload: array<Byte>, transportLength: nat, c: Config, manager: InterfaceManager,
                      contexts: array<ContextEntry>, ghost n: Node)
    returns (ending: Ending, linkLayer: nat, lastPrefix: nat)
    requires 16 <= transportLength && 40 + transportLength + 32 <= payload.Length && Shows(manager, contexts, c, n)
    modifies manager.prefixList, contexts
    ensures |n.contexts| == 16 && 40 + lastPrefix + 32 <= payload.Length
    ensures var r := Walk(RouterAdvertisements, payload[..], 56, 40 + transportLength, c.idSize);
      && ending == r.ending && AllUsable(r.options)
      && (ending != Spilled ==> linkLayer == LinkLayerIn(r.options))
      && (ending != Spilled ==> Shows(manager, contexts, c, LearnAll(c, n, r.options)))
    ensures ending != Spilled ==> 40 + lastPrefix == LastPrefixAt(payload[..], 56, 40 + transportLength, 40, c.idSize)
  {
    hide *;
    OptionTypes();
    ShowsMeans(manager, contexts, c, n);
    var w := c.idSize;
    ghost var d, end := payload[..], 40 + transportLength;
    ghost var done: seq<NdOption> := [];
    var actPos: nat := 16;
    linkLayer, lastPrefix := 0, 0;
    WalkingStarts(RouterAdvertisements, d, 56, end, w);
    NoLinkLayer();
    NothingLearned(c, n);
    while actPos < transportLength
      invariant 40 + lastPrefix + 32 <= payload.Length
      invariant Walking(RouterAdvertisements, d, 56, 40 + actPos, end, w, done) && linkLayer == LinkLayerIn(done)
      invariant AllUsable(done) && Shows(manager, contexts, c, LearnAll(c, n, done))
      invariant LastPrefixAt(d, 56, end, 40, w) == LastPrefixAt(d, 40 + actPos, end, 40 + lastPrefix, w)
      decreases transportLength - actPos
    {
      ghost var at := 40 + actPos;
      LastTurns(d, at, end, 40 + lastPrefix, w);
      ContainedMeans(d, at);
      if payload[40 + actPos + 1] == 0 {
        WalkingStops(RouterAdvertisements, d, 56, at, end, w, done);
        return ZeroLength, linkLayer, lastPrefix;
      }
      if Contained(RouterAdvertisements, d, at) {
        WalkingTurns(RouterAdvertisements, d, 56, at, end, w, done);
        TurnMeans(RouterAdvertisements, d, at, w);
        LearningTurns(c, n, done, d, at);
      } else {
        WalkingStops(RouterAdvertisements, d, 56, at, end, w, done);
      }
      var inside := true;
      if payload[40 + actPos] == SOURCE_LL_ADDRESS {
        linkLayer, actPos := ReadLinkLayerOption(payload, actPos, w);
      } else if payload[40 + actPos] == PREFIX_INFORMATION {
        lastPrefix := actPos;
        inside, actPos := ProcessPrefixInformation(payload, actPos, 0, c, manager, contexts, LearnAll(c, n, done));
      } else if payload[40 + actPos] == LOWPAN_CONTEXT {
        inside, actPos := ProcessContextOption(payload, actPos, c, manager, contexts, LearnAll(c, n, done));
      } else {
        actPos := actPos + InBytes(payload[40 + actPos + 1]);
      }
      if !inside {
        return Spilled, linkLayer, lastPrefix;
      }
      done := done + Turn(RouterAdvertisements, d, at, w).0;
    }
    WalkingStops(RouterAdvertisements, d, 56, 40 + actPos, end, w, done);
    LastTurns(d, 40 + actPos, end, 40 + lastPrefix, w);
    ending := Complete;
  }

  lemma ContainedMeans(d: seq<Byte>, at: nat)
    requires at + 32 <= |d|
    ensures Contained(RouterAdvertisements, d, at) <==>
      (d[at] == PREFIX_INFORMATION ==> d[at + 2] <= 128) && (d[at] == LOWPAN_CONTEXT ==> d[at + 1] <= 3)
  {
  }

  lemma ShowsMeans(manager: InterfaceManager, contexts: array<ContextEntry>, c: Config, n: Node)
    requires Shows(manager, contexts, c, n)
    ensures ValidConfig(c) && ValidIdSize(c.idSize) && |n.contexts| == 16
  {
  }

  lemma NothingLearned(c: Config, n: Node)
    requires ValidConfig(c) && |n.contexts| == 16
    ensures AllUsable([]) && LearnAll(c, n, []) == n
  {
  }

  lemma LastTurns(d: seq<Byte>, at: nat, end: nat, last: nat, w: nat)
    requires ValidIdSize(w) && end + 32 <= |d| && last + 32 <= |d|
    ensures at >= end || d[at + 1] == 0 ==> LastPrefixAt(d, at, end, last, w) == last
    ensures at < end && d[at + 1] > 0 && Contained(RouterAdvertisements, d, at) ==> (
        LastPrefixAt(d, at, end, last, w)
        == LastPrefixAt(d, Turn(RouterAdvertisements, d, at, w).1, end,
          if d[at] == PREFIX_INFORMATION then at else last, w))
  {
    hide Turn;
  }

  /** What one turn adds to what is learned. */
  lemma LearningTurns(c: Config, n: Node, done: seq<NdOption>, d: seq<Byte>, at: nat)
    requires ValidConfig(c) && |n.contexts| == 16 && AllUsable(done) && at + 32 <= |d| && d[at + 1] > 0
    requires Contained(RouterAdvertisements, d, at)
    ensures var read := Turn(RouterAdvertisements, d, at, c.idSize).0; AllUsable(done + read)
    ensures var read := Turn(RouterAdvertisements, d, at, c.idSize).0; var m := LearnAll(c, n, done); |m.contexts| == 16
    ensures var read := Turn(RouterAdvertisements, d, at, c.idSize).0; var m := LearnAll(c, n, done);
      d[at] != PREFIX_INFORMATION && d[at] != LOWPAN_CONTEXT ==> LearnAll(c, n, done + read) == m
    ensures var read := Turn(RouterAdvertisements, d, at, c.idSize).0; var m := LearnAll(c, n, done);
      d[at] == PREFIX_INFORMATION ==>
        Usable(ReadPrefix(d, at)) && LearnAll(c, n, done + read) == Learn(c, m, ReadPrefix(d, at))
    ensures var read := Turn(RouterAdvertisements, d, at, c.idSize).0; var m := LearnAll(c, n, done);
      d[at] == LOWPAN_CONTEXT ==>
        Usable(ReadContext(d, at)) && LearnAll(c, n, done + read) == Learn(c, m, ReadContext(d, at))
    ensures var read := Turn(RouterAdvertisements, d, at, c.idSize).0;
      d[at] != SOURCE_LL_ADDRESS ==> LinkLayerIn(done + read) == LinkLayerIn(done)
    ensures var read := Turn(RouterAdvertisements, d, at, c.idSize).0;
      forall id: nat | ReadLinkLayer(d, at, c.idSize) == LinkLayer(id) :: d[at] == SOURCE_LL_ADDRESS ==>
        LinkLayerIn(done + read) == id
  {
    hide Walk, LearnAll, Set, Usable, AnyBit, Field16, Field32, BuiltFrom, Value, Pow256;
    TurnIsUsable(RouterAdvertisements, d, at, c.idSize);
    var read := Turn(RouterAdvertisements, d, at, c.idSize).0;
    if read == [] {
      assert done + read == done;
    } else {
      assert read == [read[0]];
      LearnOneMore(c, n, done, read[0]);
      OneMoreLinkLayer(done, read[0]);
    }
  }
}
