/**
 * Field by field: what the bytes of an advertisement and the turns of the timer make of a node, in terms of bytes,
 * stored fields and numbers.
 */
module NdFields {
  import opened Bytes
  import opened Ipv6Address
  import opened PrefixTable
  import opened InterfaceManager
  import opened NdOptions
  import opened NdNode
  import RouterSolicitation

  // ---------------------------------------------------------------------------------------------
  // Prefixes
  // ---------------------------------------------------------------------------------------------

  /** The two highest bits of a byte. */
  lemma HighBits(b: Byte)
    ensures AnyBit(b, 0x80) <==> b / 128 % 2 == 1
    ensures AnyBit(b, 0x40) <==> b / 64 % 2 == 1
  {
  }

  /** A row after an entry was set: the slot that has its address holds it, the others stay; without such a slot and
      without room nothing changes. */
  lemma EntrySet(row: seq<Prefix>, p: Prefix)
    requires Distinct(row) && !IsNull(p)
    ensures HasAddress(row, AddrOf(p)) || HasRoom(row) ==> HasAddress(Set(row, p), AddrOf(p))
    ensures !HasAddress(row, AddrOf(p)) && !HasRoom(row) ==> Set(row, p) == row
    ensures forall k | 0 <= k < |row| && AddrOf(Set(row, p)[k]) == AddrOf(p) :: Set(row, p)[k] == p
    ensures forall k | 0 <= k < |row| && AddrOf(Set(row, p)[k]) != AddrOf(p) :: Set(row, p)[k] == row[k]
  {
    ScanMeans(row, AddrOf(p), 0, |row|);
    var k := SlotFor(row, AddrOf(p));
    if k < |row| {
      assert Set(row, p)[k] == p;
    }
  }

  /** A prefix option at `at` that is learned: the slot that has the formed address has the valid lifetime of bytes 4 to
      7, the preferred one of bytes 8 to 11, the flags of the two highest bits of byte 3, and the length of byte 2. All
      other slots stay. There is no such slot exactly if the address was not there and no slot was free. */
  lemma PrefixLearned(c: Config, n: Node, d: seq<Byte>, at: nat)
    requires GoodNode(c, n) && at + 32 <= |d| && d[at + 2] <= 128
    ensures ValidConfig(c) && |n.contexts| == CONTEXTS && Usable(ReadPrefix(d, at))
    ensures var a := Formed(d[at + 16..at + 32], d[at + 2], IdOn(c, INTERFACE_RADIO), c.idSize);
      var r := Learn(c, n, ReadPrefix(d, at)).radio;
      && |r| == |n.radio|
      && (HasAddress(r, a) <==> HasAddress(n.radio, a) || HasRoom(n.radio))
      && (!HasAddress(r, a) ==> r == n.radio)
      && (forall k | 0 <= k < |r| && AddrOf(r[k]) != a :: r[k] == n.radio[k])
      && (forall k | 0 <= k < |r| && AddrOf(r[k]) == a ::
            && r[k].valid == Field32(d, at + 4) && r[k].preferred == Field32(d, at + 8)
            && (r[k].onlink <==> d[at + 3] / 128 % 2 == 1) && (r[k].autonomous <==> d[at + 3] / 64 % 2 == 1)
            && r[k].address.prefixLength == d[at + 2])
  {
    hide Formed, AnyBit, Field32, Pow256, LinkLocal, RouterSolicitation.Good, StorageFits, Set, HasRoom, Distinct;
    FieldsFit(d, at + 4);
    FieldsFit(d, at + 8);
    HighBits(d[at + 3]);
    FormedIsNotNull(d[at + 16..at + 32], d[at + 2], IdOn(c, INTERFACE_RADIO), c.idSize);
    EntrySet(n.radio, BuiltFrom(c, ReadPrefix(d, at), INTERFACE_RADIO));
  }

  /** In a walk that goes through, the last prefix stands at the last place where the walk stands at a prefix. */
  lemma {:induction false} LastPrefixIsLast(d: seq<Byte>, at: nat, end: nat, last: nat, w: nat)
    requires ValidIdSize(w) && end + 32 <= |d| && last + 32 <= |d| && forall p :: !Stuck(d, at, end, p, w)
    ensures var r := LastPrefixAt(d, at, end, last, w);
      && (forall p: nat :: StandsAt(d, at, end, p, w) && d[p] == 3 ==> p <= r)
      && (r == last || (StandsAt(d, at, end, r, w) && d[r] == 3))
    decreases end - at
  {
    hide Turn, Contained, Lands;
    if at >= end {
      NoPlaceBehind(d, at, end, w);
    } else {
      GoingMeans(d, at, end);
      PlacesTurn(d, at, end, at, w);
      assert !Stuck(d, at, end, at, w);
      var next := Turn(RouterAdvertisements, d, at, w).1;
      TurnAdvances(RouterAdvertisements, d, at, w);
      forall p: nat
        ensures StandsAt(d, at, end, p, w) <==> p == at || StandsAt(d, next, end, p, w)
      {
        PlacesTurn(d, at, end, p, w);
        TurnedPast(d, at, end, p, w);
      }
      forall p: nat ensures !Stuck(d, next, end, p, w) {
        assert !Stuck(d, at, end, p, w);
      }
      assert StandsAt(d, at, end, at, w);
      forall p: nat ensures StandsAt(d, next, end, p, w) ==> p >= next {
        StandsBehind(d, next, end, p, w);
      }
      LastPrefixIsLast(d, next, end, if d[at] == PREFIX_INFORMATION then at else last, w);
    }
  }

  lemma StandsBehind(d: seq<Byte>, at: nat, end: nat, p: nat, w: nat)
    requires ValidIdSize(w) && end + 32 <= |d|
    ensures StandsAt(d, at, end, p, w) ==> p >= at
  {
  }

  lemma UartAfterInstallation(c: Config, n: Node, d: seq<Byte>, end: nat)
    requires GoodNode(c, n) && RA_OPTIONS <= end && end + 32 <= |d| && ValidConfig(c) && |n.contexts| == CONTEXTS
    ensures var (h, reaction) := Hear(c, n, d, end, true); var at := LastPrefixAt(d, RA_OPTIONS, end, 40, c.idSize);
      reaction == Relayed || reaction == Configured ==>
        && d[at + 2] <= 128 && Usable(ReadPrefix(d, at))
        && h.uart == Set(n.uart, BuiltFrom(c, ReadPrefix(d, at), INTERFACE_UART))
  {
    hide GoodNode, AnyBit, Field32, Pow256, Set, BuiltFrom, TakenIn, LinkLayerIn, Walk, LearnAll, LastPrefixAt, IsFresh;
    hide AllUsable, FindBorderRouter, ReadBorderRouter, WithParameters, WithBorderRouter;
    var at := LastPrefixAt(d, RA_OPTIONS, end, 40, c.idSize);
    FieldsFit(d, at + 4);
    FieldsFit(d, at + 8);
  }

  /** The prefix that an installation gives to the serial interface: likewise, with the interface's own identifier. */
  lemma PrefixInstalled(c: Config, n: Node, d: seq<Byte>, end: nat)
    requires GoodNode(c, n) && RA_OPTIONS <= end && end + 32 <= |d|
    ensures ValidConfig(c) && |n.contexts| == CONTEXTS
    ensures var (h, reaction) := Hear(c, n, d, end, true); var at := LastPrefixAt(d, RA_OPTIONS, end, 40, c.idSize);
      reaction == Relayed || reaction == Configured ==>
        && d[at + 2] <= 128
        && var a := Formed(d[at + 16..at + 32], d[at + 2], IdOn(c, INTERFACE_UART), c.idSize);
           && |h.uart| == |n.uart|
           && (HasAddress(h.uart, a) <==> HasAddress(n.uart, a) || HasRoom(n.uart))
           && (forall k | 0 <= k < |h.uart| && AddrOf(h.uart[k]) != a :: h.uart[k] == n.uart[k])
           && (forall k | 0 <= k < |h.uart| && AddrOf(h.uart[k]) == a ::
                 && h.uart[k].valid == Field32(d, at + 4) && h.uart[k].preferred == Field32(d, at + 8)
                 && (h.uart[k].onlink <==> d[at + 3] / 128 % 2 == 1)
                 && (h.uart[k].autonomous <==> d[at + 3] / 64 % 2 == 1)
                 && h.uart[k].address.prefixLength == d[at + 2])
  {
    hide Formed, AnyBit, Field32, Pow256, LinkLocal, RouterSolicitation.Good, StorageFits, Set, HasRoom, Distinct;
    hide Hear, LastPrefixAt;
    var at := LastPrefixAt(d, RA_OPTIONS, end, 40, c.idSize);
    UartAfterInstallation(c, n, d, end);
    HighBits(d[at + 3]);
    if d[at + 2] <= 128 {
      FormedIsNotNull(d[at + 16..at + 32], d[at + 2], IdOn(c, INTERFACE_UART), c.idSize);
      EntrySet(n.uart, BuiltFrom(c, ReadPrefix(d, at), INTERFACE_UART));
    }
  }

  lemma {:induction false} SetAllTwo(c: Config, row: seq<Prefix>, a: seq<NdOption>, b: seq<NdOption>)
    requires ValidConfig(c) && AllUsable(a) && AllUsable(b)
    ensures AllUsable(a + b) && SetAll(c, row, a + b) == SetAll(c, SetAll(c, row, a), b)
    decreases |a|
  {
    hide Set, BuiltFrom;
    if a == [] {
      assert a + b == b;
    } else {
      assert (a + b)[1..] == a[1..] + b;
      SetAllTwo(c, if a[0].PrefixInformation? then Set(row, BuiltFrom(c, a[0], INTERFACE_RADIO)) else row, a[1..], b);
    }
  }

  /** Setting a list keeps a row's addresses distinct. */
  lemma {:induction false} SetAllKeepsDistinct(c: Config, row: seq<Prefix>, os: seq<NdOption>)
    requires ValidConfig(c) && AllUsable(os) && Distinct(row)
    ensures Distinct(SetAll(c, row, os))
    decreases |os|
  {
    hide Set, Distinct, Formed;
    if os != [] {
      if os[0].PrefixInformation? {
        FormedIsNotNull(os[0].prefix, os[0].prefixLength, IdOn(c, INTERFACE_RADIO), c.idSize);
        SetRefines(row, BuiltFrom(c, os[0], INTERFACE_RADIO));
        SetAllKeepsDistinct(c, Set(row, BuiltFrom(c, os[0], INTERFACE_RADIO)), os[1..]);
      } else {
        SetAllKeepsDistinct(c, row, os[1..]);
      }
    }
  }

  /** The address that a receiver forms from the prefix of an entry of a sender's row. */
  function FormedFrom(c: Config, p: Prefix): seq<Byte>
    requires ValidConfig(c) && |AddrOf(p)| == 16 && p.address.prefixLength <= 128
  {
    Formed(AddrOf(p), p.address.prefixLength, IdOn(c, INTERFACE_RADIO), c.idSize)
  }

  lemma OtherSet(row: seq<Prefix>, p: Prefix, a: seq<Byte>)
    requires AddrOf(p) != a && a != NULL_ADDR
    ensures HasAddress(Set(row, p), a) <==> HasAddress(row, a)
    ensures forall k | 0 <= k < |row| && AddrOf(Set(row, p)[k]) == a :: Set(row, p)[k] == row[k]
  {
    var k := SlotFor(row, AddrOf(p));
    ScanMeansNull(row, AddrOf(p));
    if HasAddress(row, a) {
      var i :| 0 <= i < |row| && AddrOf(row[i]) == a;
      assert AddrOf(Set(row, p)[i]) == a;
    }
  }

  /** The slot that a set takes has the address, or none. */
  lemma ScanMeansNull(row: seq<Prefix>, addr: seq<Byte>)
    ensures var k := SlotFor(row, addr); k < |row| ==> AddrOf(row[k]) == addr || IsNull(row[k])
  {
    ScanMeans(row, addr, 0, |row|);
  }

  /** One more option of a row, set. */
  lemma SetNext(c: Config, row: seq<Prefix>, sender: seq<Prefix>, n: nat)
    requires ValidConfig(c) && IsRow(sender) && RowFits(sender) && 1 <= n < |sender|
    ensures AllUsable(PrefixOptions(sender, n)) && AllUsable(PrefixOptions(sender, n + 1))
    ensures sender[n].valid == 0 ==>
      SetAll(c, row, PrefixOptions(sender, n + 1)) == SetAll(c, row, PrefixOptions(sender, n))
    ensures sender[n].valid > 0 ==>
      Usable(PrefixOption(sender[n])) && SetAll(c, row, PrefixOptions(sender, n + 1))
        == Set(SetAll(c, row, PrefixOptions(sender, n)), BuiltFrom(c, PrefixOption(sender[n]), INTERFACE_RADIO))
  {
    hide Set, BuiltFrom, ValidConfig;
    PrefixOptionsAre(sender, n, c.idSize);
    PrefixOptionsAre(sender, n + 1, c.idSize);
    var os := PrefixOptions(sender, n);
    if sender[n].valid > 0 {
      var o := PrefixOption(sender[n]);
      assert PrefixOptions(sender, n + 1)[|os|] == o;
      SetAllTwo(c, row, os, [o]);
      assert [o][1..] == [];
    } else {
      assert PrefixOptions(sender, n + 1) == os;
    }
  }

  /** From row to row: the entry in slot `i` of a sender's row, if it is advertised and no later one makes the receiver
      form the same address, arrives with its lifetimes, its flags and its length in the slot that has the formed
      address. There is such a slot exactly if there was one, or room for one, when its turn came. */
  lemma {:induction false} PrefixArrives(c: Config, row: seq<Prefix>, sender: seq<Prefix>, i: nat, n: nat)
    requires ValidConfig(c) && Distinct(row) && IsRow(sender) && RowFits(sender)
    requires 1 <= i < n <= |sender| && sender[i].valid > 0
    requires forall j | i < j < n && sender[j].valid > 0 :: FormedFrom(c, sender[j]) != FormedFrom(c, sender[i])
    ensures AllUsable(PrefixOptions(sender, i)) && AllUsable(PrefixOptions(sender, n))
    ensures var a := Formed(AddrOf(sender[i]), sender[i].address.prefixLength, IdOn(c, INTERFACE_RADIO), c.idSize);
      var before, r := SetAll(c, row, PrefixOptions(sender, i)), SetAll(c, row, PrefixOptions(sender, n));
      && (HasAddress(r, a) <==> HasAddress(before, a) || HasRoom(before))
      && (forall k | 0 <= k < |r| && AddrOf(r[k]) == a ::
            && r[k].valid == sender[i].valid && r[k].preferred == sender[i].preferred
            && r[k].onlink == sender[i].onlink && r[k].autonomous == sender[i].autonomous
            && r[k].address.prefixLength == sender[i].address.prefixLength)
    decreases n
  {
    hide Formed, Set, HasRoom, Distinct, SetAll, PrefixOptions;
    var a, p := FormedFrom(c, sender[i]), sender[n - 1];
    FormedIsNotNull(AddrOf(sender[i]), sender[i].address.prefixLength, IdOn(c, INTERFACE_RADIO), c.idSize);
    SetNext(c, row, sender, n - 1);
    if n == i + 1 {
      SetAllKeepsDistinct(c, row, PrefixOptions(sender, i));
      EntrySet(SetAll(c, row, PrefixOptions(sender, i)), BuiltFrom(c, PrefixOption(p), INTERFACE_RADIO));
    } else {
      PrefixArrives(c, row, sender, i, n - 1);
      if p.valid > 0 {
        OtherSet(SetAll(c, row, PrefixOptions(sender, n - 1)), BuiltFrom(c, PrefixOption(p), INTERFACE_RADIO), a);
      }
    }
  }

  // ---------------------------------------------------------------------------------------------
  // Contexts
  // ---------------------------------------------------------------------------------------------

  /** A context option at `at` that is learned: entry `d[at + 3] % 16` takes the length of byte 2, the lifetime of
      bytes 6 and 7, the prefix bytes that follow, and as its flag whether bit 1 or bit 3 of byte 3 is set; the
      others stay. */
  lemma ContextLearned(c: Config, n: Node, d: seq<Byte>, at: nat)
    requires ValidConfig(c) && |n.contexts| == CONTEXTS && at + 32 <= |d| && 0 < d[at + 1] <= 3
    ensures Usable(ReadContext(d, at))
    ensures var r, cid := Learn(c, n, ReadContext(d, at)), d[at + 3] % 16; var e := r.contexts[cid];
      && e.prefixLength == d[at + 2] && e.lifetime == d[at + 6] as int * 256 + d[at + 7]
      && (e.usable <==> d[at + 3] / 2 % 2 == 1 || d[at + 3] / 8 % 2 == 1) && |e.prefix| == 16
      && (forall k | 0 <= k < 16 ::
            e.prefix[k] == if k < 8 * (d[at + 1] as int - 1) then d[at + 8 + k] else 0)
      && (forall i | 0 <= i < CONTEXTS && i != cid :: r.contexts[i] == n.contexts[i])
      && r.radio == n.radio && r.uart == n.uart && r.storage == n.storage && r.solicitor == n.solicitor
  {
    hide ValidConfig, ReadContext;
    ContextRead(d, at);
  }

  lemma ContextRead(d: seq<Byte>, at: nat)
    requires at + 32 <= |d| && 0 < d[at + 1] <= 3
    ensures var o := ReadContext(d, at);
      && o.Context? && Usable(o) && o.cid == d[at + 3] % 16 && o.prefixLength == d[at + 2] && |o.prefix| == 16
      && o.lifetime == d[at + 6] as int * 256 + d[at + 7]
      && (o.usable <==> d[at + 3] / 2 % 2 == 1 || d[at + 3] / 8 % 2 == 1)
      && (forall k | 0 <= k < 16 :: o.prefix[k] == if k < 8 * (d[at + 1] as int - 1) then d[at + 8 + k] else 0)
  {
    hide AnyBit, Pow256;
    FieldsFit(d, at + 6);
    FlagMask(d[at + 3]);
  }

  /** What the mask 10 sees. */
  lemma FlagMask(b: Byte)
    ensures AnyBit(b, 10) <==> b / 2 % 2 == 1 || b / 8 % 2 == 1
  {
  }

  /** From table to table: each live context arrives in the entry of the same number, with the longest lifetime, its
      length, eight or sixteen bytes of its prefix, and a flag that only its number decides; entries of contexts that
      are not live stay. */
  lemma ContextsArrive(own: seq<ContextEntry>, es: seq<ContextEntry>, i: nat)
    requires |own| == |es| == CONTEXTS && ContextsFit(es) && i < CONTEXTS
    ensures var e, r := es[i], Overlaid(own, es, CONTEXTS)[i];
      && (e.lifetime == 0 ==> r == own[i])
      && (e.lifetime > 0 ==>
            && r.lifetime == 0xFFFF && r.prefixLength == e.prefixLength && |r.prefix| == 16
            && (r.usable <==> i == 2 || i == 3 || i >= 6)
            && (forall k | 0 <= k < 16 ::
                  r.prefix[k] == if e.prefixLength > 64 || k < 8 then e.prefix[k] else 0))
  {
    assert ContextFits(es[i]);
  }

  /** The turns of the timer in a run. */
  function Turns(events: seq<NdNode.Event>): nat {
    if events == [] then 0 else (if events[0].Ticks? then 1 else 0) + Turns(events[1..])
  }

  /** A run of timers only, in which the border router's information does not expire. */
  ghost predicate Calm(c: Config, n: Node, events: seq<NdNode.Event>)
    requires GoodNode(c, n)
    decreases |events|
  {
    events == [] || (
      && (events[0].Ticks? || events[0].SolicitTimer?)
      && (events[0].Ticks? ==> !(c.routeOver && n.storage.abroLifetime <= 1))
      && (StepKeepsGoodNode(c, n, events[0]); Calm(c, NdNode.Step(c, n, events[0]).value, events[1..])))
  }

  /** Over every run of timers without an expiry: after k turns a context of lifetime L has lifetime max(0, L - k),
      and it is usable exactly if it was and did not run out on the way; its prefix stays. */
  lemma {:induction false} ContextsOverTurns(c: Config, n: Node, events: seq<NdNode.Event>, i: nat)
    requires GoodNode(c, n) && Calm(c, n, events) && i < CONTEXTS
    ensures (forall e | e in events :: NdNode.GoodEvent(e)) && NdNode.Run(c, n, events).Known?
    ensures |n.contexts| == CONTEXTS && |NdNode.Run(c, n, events).value.contexts| == CONTEXTS
    ensures var e, r, k := n.contexts[i], NdNode.Run(c, n, events).value.contexts[i], Turns(events);
      && r.lifetime == (if e.lifetime > k then e.lifetime - k else 0)
      && (r.usable <==> e.usable && !(1 <= e.lifetime <= k))
      && r.prefixLength == e.prefixLength && r.prefix == e.prefix
    decreases |events|
  {
    hide GoodNode, NdNode.Step;
    GoodNodeHas(c, n);
    if events != [] {
      StepKeepsGoodNode(c, n, events[0]);
      ContextsOneStep(c, n, events[0], i);
      ContextsOverTurns(c, NdNode.Step(c, n, events[0]).value, events[1..], i);
    }
  }

  lemma ContextsOneStep(c: Config, n: Node, e: NdNode.Event, i: nat)
    requires GoodNode(c, n) && i < CONTEXTS == |n.contexts|
    requires e.SolicitTimer? || (e.Ticks? && !(c.routeOver && n.storage.abroLifetime <= 1))
    ensures NdNode.Step(c, n, e).Known? && |NdNode.Step(c, n, e).value.contexts| == CONTEXTS
    ensures var x, y := n.contexts[i], NdNode.Step(c, n, e).value.contexts[i];
      && (e.SolicitTimer? ==> y == x)
      && (e.Ticks? ==>
            && y.lifetime == (if x.lifetime > 0 then x.lifetime - 1 else 0)
            && (y.usable <==> x.usable && x.lifetime != 1)
            && y.prefixLength == x.prefixLength && y.prefix == x.prefix)
  {
    hide Good, LinkLocal, RouterSolicitation.Good, RouterSolicitation.Step, RouterSolicitation.Begin, Wants, AgeRow;
  }

  /** And every prefix but the link-local one ages as often as the timer turns; slot 0 stays, and so does the serial
      interface. */
  lemma {:induction false} PrefixesOverTurns(c: Config, n: Node, events: seq<NdNode.Event>, i: nat)
    requires GoodNode(c, n) && Calm(c, n, events) && i < |n.radio|
    ensures (forall e | e in events :: NdNode.GoodEvent(e)) && NdNode.Run(c, n, events).Known? && RowFits(n.radio)
    ensures var r := NdNode.Run(c, n, events).value;
      && |r.radio| == |n.radio| && r.uart == n.uart
      && r.radio[i] == if i == 0 then n.radio[0] else AgeTimes(n.radio[i], Turns(events))
    decreases |events|
  {
    hide GoodNode, NdNode.Step, AgeTimes;
    RowsOf(c, n);
    NoTurns(n.radio[i]);
    if events != [] {
      StepKeepsGoodNode(c, n, events[0]);
      PrefixesOneStep(c, n, events[0], i);
      SplitAge(n.radio[i], Turns(events[1..]));
      PrefixesOverTurns(c, NdNode.Step(c, n, events[0]).value, events[1..], i);
    }
  }

  lemma NoTurns(p: Prefix)
    requires LifetimesFit(p)
    ensures AgeTimes(p, 0) == p
  {
  }

  lemma PrefixesOneStep(c: Config, n: Node, e: NdNode.Event, i: nat)
    requires GoodNode(c, n) && i < |n.radio| && RowFits(n.radio)
    requires e.SolicitTimer? || (e.Ticks? && !(c.routeOver && n.storage.abroLifetime <= 1))
    ensures NdNode.Step(c, n, e).Known?
    ensures var r := NdNode.Step(c, n, e).value;
      && |r.radio| == |n.radio| && r.uart == n.uart
      && r.radio[i] == if i == 0 || e.SolicitTimer? then n.radio[i] else Age(n.radio[i])
  {
    hide Good, LinkLocal, RouterSolicitation.Good, RouterSolicitation.Step, RouterSolicitation.Begin, Wants;
    hide AgeContexts, Age;
  }

  // ---------------------------------------------------------------------------------------------
  // The timer
  // ---------------------------------------------------------------------------------------------

  /** The border router's information expires, in the route-over build, when one unit of it or none is left: then all
      prefixes but the link-local one, all contexts and the storage are as at the start, while the serial interface
      keeps its prefixes. */
  lemma ExpiryForgets(c: Config, n: Node, cache: Cache)
    requires GoodNode(c, n) && c.routeOver && n.storage.abroLifetime <= 1
    ensures RowFits(n.radio) && n.radio != [] && |n.contexts| == CONTEXTS
    ensures var r := NdNode.Tick(c, n, cache);
      && |r.radio| == |n.radio| && r.radio[0] == n.radio[0] && r.uart == n.uart && |r.contexts| == CONTEXTS
      && (forall i | 1 <= i < |r.radio| ::
            && r.radio[i].valid == 0 && r.radio[i].preferred == 0 && r.radio[i].onlink && r.radio[i].autonomous
            && r.radio[i].address.prefixLength == 0 && AddrOf(r.radio[i]) == Zeros(16))
      && (forall i | 0 <= i < CONTEXTS :: r.contexts[i].lifetime == 0 && !r.contexts[i].usable)
      && !r.storage.isRouter && !r.storage.isBorderRouter && !r.storage.managed && !r.storage.otherConfig
      && r.storage.curHopLimit == 255 && r.storage.defaultLifetime == 1800 && r.storage.reachableTime == 0
      && r.storage.retransTimer == 0 && r.storage.brVersion == 0 && r.storage.abroLifetime == 10000
      && r.storage.brAddress == Zeros(16)
  {
    hide Good, LinkLocal, RouterSolicitation.Good, RouterSolicitation.Begin, Wants, AgeRow, AgeContexts;
    RowsOf(c, n);
  }

  /** In a turn without an expiry, in the route-over build, the border router's information loses one unit; nothing else
      of the storage changes, and in the mesh-under build nothing at all. */
  lemma TurnCountsDown(c: Config, n: Node, cache: Cache)
    requires GoodNode(c, n) && !(c.routeOver && n.storage.abroLifetime <= 1)
    ensures RowFits(n.radio) && n.radio != []
    ensures var s := NdNode.Tick(c, n, cache).storage;
      && s.abroLifetime == (if c.routeOver then n.storage.abroLifetime - 1 else n.storage.abroLifetime)
      && s.(abroLifetime := n.storage.abroLifetime) == n.storage
  {
    hide Good, LinkLocal, RouterSolicitation.Good, RouterSolicitation.Begin, Wants, AgeRow, AgeContexts;
    RowsOf(c, n);
  }

  lemma {:induction false} NoneCounted(row: seq<Prefix>, n: nat)
    requires RowFits(row) && n <= |row|
    ensures CountedUpTo(row, n) == 0 <==> forall i | 1 <= i < n :: row[i].valid == 0 || 60 <= row[i].valid < 120
  {
    if n > 1 {
      NoneCounted(row, n - 1);
    }
  }

  /** Exactly when a turn starts soliciting: no default router is left on a node that is no border router; the border
      router's information has three units left; and, unless it expires, a context stands at 3, a prefix comes within
      four minutes of its end, no prefix outlives the turn, or a registered router is lost. */
  lemma TurnAsks(c: Config, n: Node, cache: Cache)
    requires GoodNode(c, n)
    ensures RowFits(n.radio) && n.radio != [] && |n.contexts| == CONTEXTS
    ensures n.solicitor.sent > 0 ==> NdNode.Tick(c, n, cache).solicitor == n.solicitor
    ensures n.solicitor.sent == 0 ==>
      (NdNode.Tick(c, n, cache).solicitor.sent > 0 <==>
        || (cache.routersEmpty && !n.storage.isBorderRouter)
        || (c.routeOver && n.storage.abroLifetime == 4)
        || (!(c.routeOver && n.storage.abroLifetime <= 1) && (
              || (exists i | 0 <= i < CONTEXTS :: n.contexts[i].lifetime == 3)
              || (exists i | 1 <= i < |n.radio| :: 120 <= n.radio[i].valid < 300)
              || (forall i | 1 <= i < |n.radio| :: n.radio[i].valid == 0 || 60 <= n.radio[i].valid < 120)
              || cache.routerLost)))
    ensures n.solicitor.sent == 0 && NdNode.Tick(c, n, cache).solicitor.sent == 0 ==>
      NdNode.Tick(c, n, cache).solicitor == n.solicitor
  {
    hide Good, LinkLocal, RouterSolicitation.Good, AgeRow, AgeContexts, CountedUpTo, Emptied;
    RowsOf(c, n);
    NoneCounted(n.radio, |n.radio|);
    RouterSolicitation.BeginMeans(n.solicitor);
  }

  // ---------------------------------------------------------------------------------------------
  // The storage
  // ---------------------------------------------------------------------------------------------

  /** In the route-over build an advertisement counts exactly if it has a border router option, as the first loop
      finds it, whose version, second half first, is not older, or if it comes from an installation. */
  lemma FreshExactly(n: Node, d: seq<Byte>, end: nat, installation: bool)
    requires RA_OPTIONS <= end && end + 32 <= |d|
    ensures var found := FindBorderRouter(d, 56, end);
      && (found == Nowhere ==> !IsFresh(n, d, end, installation))
      && (found != Nowhere ==>
            (IsFresh(n, d, end, installation) <==>
              installation || Field16(d, found.position + 4) * 0x1_0000 + Field16(d, found.position + 2)
                >= n.storage.brVersion))
  {
    hide FindBorderRouter, Field16;
  }

  /** What the fields of an advertisement that counts make of the storage: hop limit and flags from bytes 44 and 45, the
      two timers from bytes 48 and 52, the border router from its option; soliciting stops, pending timers stay. */
  lemma AdvertisementTaken(c: Config, n: Node, d: seq<Byte>, end: nat, installation: bool)
    requires ValidConfig(c) && |n.contexts| == CONTEXTS && RA_OPTIONS <= end && end + 32 <= |d|
    requires c.routeOver ==> IsFresh(n, d, end, installation)
    ensures var s, r := Hear(c, n, d, end, installation).0.storage, Hear(c, n, d, end, installation).0.solicitor;
      && s.curHopLimit == (if d[44] != 0 then d[44] else n.storage.curHopLimit)
      && (s.managed <==> d[45] / 128 % 2 == 1) && (s.otherConfig <==> d[45] / 64 % 2 == 1)
      && s.reachableTime == Field32(d, 48) && s.retransTimer == Field32(d, 52)
      && s.defaultLifetime == n.storage.defaultLifetime
      && r.sent == 0 && r.pending == n.solicitor.pending && r.waits == n.solicitor.waits
    ensures var s := Hear(c, n, d, end, installation).0.storage; !c.routeOver ==>
        && s.isRouter == n.storage.isRouter && s.isBorderRouter == n.storage.isBorderRouter
        && s.brVersion == n.storage.brVersion && s.abroLifetime == n.storage.abroLifetime
        && s.brAddress == n.storage.brAddress
    ensures var s := Hear(c, n, d, end, installation).0.storage; c.routeOver ==>
        var at := FindBorderRouter(d, 56, end).position;
        && s.brVersion == Field16(d, at + 4) * 0x1_0000 + Field16(d, at + 2)
        && s.abroLifetime == (if Field16(d, at + 6) == 0 then 10000 else Field16(d, at + 6))
        && s.brAddress == d[at + 8..at + 24]
        && (s.isRouter <==> n.storage.isRouter || installation)
        && (s.isBorderRouter <==> n.storage.isBorderRouter || installation)
  {
    hide Walk, LearnAll, LastPrefixAt, Set, BuiltFrom, ReadPrefix, FindBorderRouter, AnyBit, Field16, Field32;
    HighBits(d[45]);
  }

  /** The storage of a node that follows an advertisement of another, field by field. */
  lemma StorageArrives(c: Config, sender: Storage, s: Storage, d: seq<Byte>)
    requires StorageFits(sender) && HasParameters(d, sender) && |d| >= RA_OPTIONS
    ensures var r := WithParameters(if c.routeOver then Received(sender, s) else s, d);
      && r.curHopLimit == (if sender.curHopLimit != 0 then sender.curHopLimit else s.curHopLimit)
      && r.managed == sender.managed && r.otherConfig == sender.otherConfig
      && r.reachableTime == sender.reachableTime && r.retransTimer == sender.retransTimer
      && r.defaultLifetime == s.defaultLifetime && r.isRouter == s.isRouter && r.isBorderRouter == s.isBorderRouter
      && (c.routeOver ==>
            && r.brVersion == sender.brVersion % 0x1_0000 * 0x1_0000 + sender.brVersion / 0x1_0000
            && r.abroLifetime == (if sender.abroLifetime == 0 then 10000 else sender.abroLifetime)
            && r.brAddress == sender.brAddress)
      && (!c.routeOver ==>
            r.brVersion == s.brVersion && r.abroLifetime == s.abroLifetime && r.brAddress == s.brAddress)
  {
    ParametersArrive(d, sender, if c.routeOver then Received(sender, s) else s);
    hide HasParameters, WithParameters;
  }

  /** What advertising does to the contexts: a live one gets the longest lifetime, and nothing else changes. */
  lemma AdvertisingRefreshes(c: Config, n: Node, i: nat)
    requires GoodNode(c, n) && i < CONTEXTS
    ensures |n.contexts| == CONTEXTS
    ensures var r := NdNode.Step(c, n, Advertises);
      && r.Known? && |r.value.contexts| == CONTEXTS
      && r.value.contexts[i].lifetime == (if n.contexts[i].lifetime == 0 then 0 else 0xFFFF)
      && r.value.contexts[i].usable == n.contexts[i].usable && r.value.contexts[i].prefix == n.contexts[i].prefix
      && r.value.contexts[i].prefixLength == n.contexts[i].prefixLength
      && r.value.(contexts := n.contexts) == n
  {
    hide Good, RouterSolicitation.Good;
  }

  // ---------------------------------------------------------------------------------------------
  // Identifiers and flags
  // ---------------------------------------------------------------------------------------------

  /** The identifier of the serial interface is that of the radio with bit 15 set, if the type has one. */
  lemma InterfaceIds(id: nat, w: nat)
    requires ValidIdSize(w)
    ensures InterfaceId(id, w, 0) == id
    ensures w == 1 ==> InterfaceId(id, w, 1) == id
    ensures w >= 2 ==>
      var r := InterfaceId(id, w, 1); r % 0x8000 == id % 0x8000 && r / 0x8000 % 2 == 1 && r / 0x1_0000 == id / 0x1_0000
  {
  }

  /** The bytes of flags and lengths that are written. */
  lemma FlagsWritten(onlink: bool, autonomous: bool, usable: bool, cid: nat, w: nat, length: Byte)
    requires cid < 16
    ensures PrefixFlags(true, true) == 0xC0 && PrefixFlags(true, false) == 0x80
    ensures PrefixFlags(false, true) == 0x44 && PrefixFlags(false, false) == 4
    ensures ContextFlags(usable, cid) / 16 == (if usable then 1 else 0) && ContextFlags(usable, cid) % 16 == cid
    ensures LinkLayerUnits(w) == (if w <= 5 then 1 else 2) && ContextUnits(length) == if length <= 64 then 2 else 3
  {
  }

  /** A node as it starts. */
  lemma Starts(c: Config, slots: nat)
    requires ValidConfig(c) && slots > 0
    ensures var n := Initial(c, slots);
      && n.solicitor.sent == 0 && n.solicitor.pending == 0 && n.solicitor.waits == []
      && |n.radio| == slots && AddrOf(n.radio[0]) == LinkLocal(c.radioId, c.idSize)
      && n.radio[0].valid == 0xFFFF_FFFF && n.radio[0].preferred == 0xFFFF_FFFF && n.radio[0].address.prefixLength == 64
      && (forall i | 1 <= i < slots :: AddrOf(n.radio[i]) == Zeros(16) && n.radio[i].valid == 0)
      && n.storage.abroLifetime == 10000 && n.storage.brVersion == 0 && !n.storage.isRouter
  {
    hide LinkLocal;
  }

  /** What an advertisement says about a prefix, a context and the border router: the fields of the sender's entries,
      the longest lifetime for every context. */
  lemma OptionsSay(p: Prefix, e: ContextEntry, cid: nat, s: Storage)
    ensures PrefixOption(p)
      == PrefixInformation(p.address.prefixLength, p.onlink, p.autonomous, p.valid, p.preferred, p.address.addr)
    ensures ContextOption(e, cid) == Context(cid, e.prefixLength, e.usable, 0xFFFF, e.prefix)
    ensures BorderRouterOption(s) == BorderRouter(s.brVersion, s.abroLifetime, s.brAddress)
  {
  }
}
