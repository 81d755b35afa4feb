/** Writing the options of Neighbor Discovery messages into a packet, as the `insert_` functions of icmpv6.h do. */
module NdMessages {
  import opened Bytes
  import opened Ipv6Address
  import opened PrefixTable
  import opened Packet
  import opened NdOptions
  import opened NdNode
  import opened InterfaceManager

  /** Two buffers differ at most between `from` and `to`. */
  predicate SameOutside(a: seq<Byte>, b: seq<Byte>, from: nat, to: nat) {
    from <= to <= |a| == |b| && a[..from] == b[..from] && a[to..] == b[to..]
  }

  /** What stood outside `n` bytes at `at` still stands. */
  ghost predicate Kept(s: seq<Byte>, t: seq<Byte>, at: nat, n: nat) {
    forall i: nat, f | Has(s, i, f) && (i + |f| <= at || at + n <= i) :: Has(t, i, f)
  }

  /** A write within a range: it stands, and what stands elsewhere stays. */
  lemma Wrote(base: seq<Byte>, s: seq<Byte>, at: nat, bs: seq<Byte>, from: nat, to: nat)
    requires SameOutside(base, s, from, to) && from <= at && at + |bs| <= to
    ensures at + |bs| <= |s| && SameOutside(base, Splice(s, at, bs), from, to)
    ensures Has(Splice(s, at, bs), at, bs)
    ensures Kept(s, Splice(s, at, bs), at, |bs|)
  {
    var t := Splice(s, at, bs);
    forall i: nat, f | Has(s, i, f) && (i + |f| <= at || at + |bs| <= i) ensures Has(t, i, f) {
      assert t[i..i + |f|] == s[i..i + |f|];
    }
  }

  lemma OneByte(b: Byte)
    ensures BigEndian(b, 1) == [b] && |BigEndian(b, 1)| == 1
  {
    assert BigEndian(b, 1) == BigEndian(b / 256, 0) + [b % 256];
  }

  /** set_payload, keeping track of what stands where: one byte, a number, some bytes. */
  method PutByte(message: IPv6Packet, b: Byte, length: nat, ghost base: seq<Byte>, ghost from: nat, ghost to: nat)
    requires SameOutside(base, message.buffer[..], from, to) && from <= 40 + length < to
    modifies message.buffer
    ensures SameOutside(base, message.buffer[..], from, to) && Has(message.buffer[..], 40 + length, [b])
    ensures Kept(old(message.buffer[..]), message.buffer[..], 40 + length, 1)
  {
    hide *;
    OneByte(b);
    PutNumber(message, b, 1, length, base, from, to);
  }

  method PutNumber(message: IPv6Packet, v: nat, size: nat, length: nat, ghost base: seq<Byte>, ghost from: nat,
                   ghost to: nat)
    requires SameOutside(base, message.buffer[..], from, to) && from <= 40 + length && 40 + length + size <= to
    modifies message.buffer
    ensures SameOutside(base, message.buffer[..], from, to) && Has(message.buffer[..], 40 + length, BigEndian(v, size))
    ensures Kept(old(message.buffer[..]), message.buffer[..], 40 + length, size)
  {
    hide *;
    Wrote(base, message.buffer[..], 40 + length, BigEndian(v, size), from, to);
    Constants();
    message.PutUint(v, size, length);
  }

  method PutData(message: IPv6Packet, bs: seq<Byte>, length: nat, ghost base: seq<Byte>, ghost from: nat, ghost to: nat)
    requires SameOutside(base, message.buffer[..], from, to) && from <= 40 + length && 40 + length + |bs| <= to
    modifies message.buffer
    ensures SameOutside(base, message.buffer[..], from, to) && Has(message.buffer[..], 40 + length, bs)
    ensures Kept(old(message.buffer[..]), message.buffer[..], 40 + length, |bs|)
  {
    hide *;
    Wrote(base, message.buffer[..], 40 + length, bs, from, to);
    Constants();
    message.PutBytes(bs, length);
  }

  /** A header field, in the same way; its position counts from the start of the packet. */
  method PutHeader(message: IPv6Packet, at: nat, bs: seq<Byte>, ghost base: seq<Byte>, ghost from: nat, ghost to: nat)
    requires SameOutside(base, message.buffer[..], from, to) && from <= at && at + |bs| <= to
    requires at + |bs| <= PAYLOAD_POS <= message.buffer.Length
    modifies message.buffer
    ensures SameOutside(base, message.buffer[..], from, to) && Has(message.buffer[..], at, bs)
    ensures Kept(old(message.buffer[..]), message.buffer[..], at, |bs|)
  {
    hide *;
    Wrote(base, message.buffer[..], at, bs, from, to);
    message.SetHeader(at, bs);
  }

  lemma Constants()
    ensures PAYLOAD_POS == 40 && BUFFER_SIZE == 1500 && INTERFACE_RADIO == 0 && PrefixTable.NUMBER_OF_INTERFACES == 2
    ensures NEXT_HEADER_BYTE == 6
  {
  }

  /** An option was inserted at `length`: it stands there, `end` is behind it, and nothing else was written. */
  predicate Inserted(a: seq<Byte>, b: seq<Byte>, length: nat, end: nat, o: NdOption, w: nat) {
    && end == length + Size(o, w) && SameOutside(a, b, 40 + length, 40 + end)
    && WellFormed(o, w) && Holds(b, 40 + length, o, w)
  }

  method InsertLinkLayerOption(message: IPv6Packet, length: nat, id: nat, w: nat) returns (end: nat)
    requires WellFormed(LinkLayer(id), w) && ValidIdSize(w)
    requires 40 + length + Size(LinkLayer(id), w) <= message.buffer.Length
    modifies message.buffer
    ensures Inserted(old(message.buffer[..]), message.buffer[..], length, end, LinkLayer(id), w)
  {
    hide BigEndian, SameOutside, Pow256, Has;
    ghost var base, from, to := message.buffer[..], 40 + length, 40 + length + Size(LinkLayer(id), w);
    Untouched(base, from, to);
    PutByte(message, SOURCE_LL_ADDRESS, length, base, from, to);
    PutNumber(message, id, w, length + 2, base, from, to);
    if w + 2 < 8 {
      PutByte(message, 1, length + 1, base, from, to);
      end := length + 8;
    } else {
      PutByte(message, 2, length + 1, base, from, to);
      end := length + 16;
    }
  }

  lemma Untouched(s: seq<Byte>, from: nat, to: nat)
    requires from <= to <= |s|
    ensures SameOutside(s, s, from, to)
  {
  }

  method InsertPrefixInformation(message: IPv6Packet, length: nat, p: Prefix, w: nat) returns (end: nat)
    requires WellFormed(PrefixOption(p), w) && 40 + length + 32 <= message.buffer.Length
    modifies message.buffer
    ensures Inserted(old(message.buffer[..]), message.buffer[..], length, end, PrefixOption(p), w)
  {
    hide BigEndian, SameOutside, Pow256, Has;
    ghost var base, from, to := message.buffer[..], 40 + length, 40 + length + 32;
    Untouched(base, from, to);
    PutByte(message, PREFIX_INFORMATION, length, base, from, to);
    var setter: Byte := 4;
    PutByte(message, setter, length + 1, base, from, to);
    PutByte(message, p.address.prefixLength, length + 2, base, from, to);
    if p.onlink {
      setter := 0x80;
    }
    if p.autonomous {
      setter := OrByte(setter, 0x40);
    }
    FlagsOr(p.onlink, p.autonomous);
    PutByte(message, setter, length + 3, base, from, to);
    PutNumber(message, p.valid, 4, length + 4, base, from, to);
    PutNumber(message, p.preferred, 4, length + 8, base, from, to);
    PutData(message, p.address.addr, length + 16, base, from, to);
    end := length + 32;
  }

  lemma FlagsOr(onlink: bool, autonomous: bool)
    ensures PrefixFlags(onlink, autonomous) ==
      if autonomous then OrByte(if onlink then 0x80 else 4, 0x40) else if onlink then 0x80 else 4
  {
  }

  /** The status that the caller gives is not written: the byte is the length byte's 2 again. */
  method InsertAddressRegistrationOption(message: IPv6Packet, length: nat, status: Byte, lifetime: nat, eui: nat,
    w: nat)
    returns (end: nat)
    requires WellFormed(Registration(lifetime, eui), w) && 40 + length + 16 <= message.buffer.Length
    modifies message.buffer
    ensures Inserted(old(message.buffer[..]), message.buffer[..], length, end, Registration(lifetime, eui), w)
    ensures Has(message.buffer[..], 40 + length + 2, [2])
  {
    hide BigEndian, SameOutside, Pow256, Has;
    ghost var base, from, to := message.buffer[..], 40 + length, 40 + length + 16;
    Untouched(base, from, to);
    PutByte(message, ADDRESS_REGISTRATION, length, base, from, to);
    var setter: Byte := 2;
    PutByte(message, setter, length + 1, base, from, to);
    PutByte(message, setter, length + 2, base, from, to);
    PutNumber(message, lifetime, 2, length + 6, base, from, to);
    PutNumber(message, eui, 8, length + 8, base, from, to);
    end := length + 16;
  }

  /** The looked-up context entry is written, with the longest lifetime. */
  method InsertContextOption(message: IPv6Packet, length: nat, e: ContextEntry, cid: nat, w: nat) returns (end: nat)
    requires WellFormed(ContextOption(e, cid), w) && e.lifetime == 0xFFFF
    requires 40 + length + Size(ContextOption(e, cid), w) <= message.buffer.Length
    modifies message.buffer
    ensures Inserted(old(message.buffer[..]), message.buffer[..], length, end, ContextOption(e, cid), w)
  {
    hide BigEndian, SameOutside, Pow256, Has;
    ghost var base, from, to := message.buffer[..], 40 + length, 40 + length + Size(ContextOption(e, cid), w);
    Untouched(base, from, to);
    PutByte(message, LOWPAN_CONTEXT, length, base, from, to);
    PutByte(message, if e.prefixLength > 64 then 3 else 2, length + 1, base, from, to);
    PutByte(message, e.prefixLength, length + 2, base, from, to);
    var setter: Byte := if e.usable then 0x10 else 0;
    ContextFlagsOr(e.usable, cid);
    PutByte(message, OrByte(setter, cid), length + 3, base, from, to);
    PutNumber(message, e.lifetime, 2, length + 6, base, from, to);
    if e.prefixLength > 64 {
      assert e.prefix[..16] == e.prefix;
      PutData(message, e.prefix, length + 8, base, from, to);
      end := length + 24;
    } else {
      PutData(message, e.prefix[..8], length + 8, base, from, to);
      end := length + 16;
    }
  }

  lemma ContextFlagsOr(usable: bool, cid: nat)
    requires cid < 16
    ensures OrByte(if usable then 0x10 else 0, cid) == ContextFlags(usable, cid)
  {
    OrWithZero(cid);
  }

  method InsertBorderRouterOption(message: IPv6Packet, length: nat, s: Storage, w: nat) returns (end: nat)
    requires WellFormed(BorderRouterOption(s), w) && 40 + length + 24 <= message.buffer.Length
    modifies message.buffer
    ensures Inserted(old(message.buffer[..]), message.buffer[..], length, end, BorderRouterOption(s), w)
  {
    hide BigEndian, SameOutside, Pow256, Has;
    ghost var base, from, to := message.buffer[..], 40 + length, 40 + length + 24;
    Untouched(base, from, to);
    PutByte(message, AUTHORITIVE_BORDER_ROUTER, length, base, from, to);
    PutByte(message, 3, length + 1, base, from, to);
    PutNumber(message, s.brVersion, 4, length + 2, base, from, to);
    PutNumber(message, s.abroLifetime, 2, length + 6, base, from, to);
    PutData(message, s.brAddress, length + 8, base, from, to);
    end := length + 24;
  }

  // ---------------------------------------------------------------------------------------------
  // Lists of options
  // ---------------------------------------------------------------------------------------------

  lemma HasKept(a: seq<Byte>, b: seq<Byte>, from: nat, to: nat, i: nat, f: seq<Byte>)
    requires SameOutside(a, b, from, to) && Has(a, i, f) && (i + |f| <= from || to <= i)
    ensures Has(b, i, f)
  {
    if i + |f| <= from {
      assert b[i..i + |f|] == b[..from][i..i + |f|] == a[..from][i..i + |f|];
    } else {
      assert b[i..i + |f|] == b[to..][i - to..i + |f| - to] == a[to..][i - to..i + |f| - to];
    }
  }

  lemma HoldsKept(a: seq<Byte>, b: seq<Byte>, from: nat, to: nat, at: nat, o: NdOption, w: nat)
    requires ValidIdSize(w) && SameOutside(a, b, from, to) && WellFormed(o, w) && Holds(a, at, o, w)
    requires at + Size(o, w) <= from || to <= at
    ensures Holds(b, at, o, w)
  {
    hide Has;
    forall i: nat, f | Has(a, i, f) && at <= i && i + |f| <= at + Size(o, w) ensures Has(b, i, f) {
      HasKept(a, b, from, to, i, f);
    }
  }

  lemma {:induction false} LaidKept(a: seq<Byte>, b: seq<Byte>, from: nat, to: nat, at: nat, os: seq<NdOption>, w: nat)
    requires ValidIdSize(w) && SameOutside(a, b, from, to) && AllWellFormed(os, w) && Laid(a, at, os, w)
    requires at + SizeOfAll(os, w) <= from || to <= at
    ensures Laid(b, at, os, w)
    decreases |os|
  {
    hide SameOutside, Holds, Size, WellFormed;
    if os != [] {
      HoldsKept(a, b, from, to, at, os[0], w);
      LaidKept(a, b, from, to, at + Size(os[0], w), os[1..], w);
    }
  }

  lemma {:induction false} LaidAppend(d: seq<Byte>, at: nat, os: seq<NdOption>, o: NdOption, w: nat)
    requires AllWellFormed(os, w) && WellFormed(o, w)
    requires Laid(d, at, os, w) && Holds(d, at + SizeOfAll(os, w), o, w)
    ensures AllWellFormed(os + [o], w) && Laid(d, at, os + [o], w)
    ensures SizeOfAll(os + [o], w) == SizeOfAll(os, w) + Size(o, w)
    decreases |os|
  {
    hide Holds, Size, WellFormed;
    if os == [] {
      assert [o][1..] == [];
    } else {
      LaidAppend(d, at + Size(os[0], w), os[1..], o, w);
      assert (os + [o])[1..] == os[1..] + [o];
    }
  }

  /** From the state `a` on, the options `os` were written at `at`, up to `length`, and nothing else. */
  predicate Written(a: seq<Byte>, b: seq<Byte>, at: nat, length: nat, os: seq<NdOption>, w: nat) {
    && AllWellFormed(os, w) && Laid(b, at, os, w) && 40 + length == at + SizeOfAll(os, w)
    && SameOutside(a, b, at, 40 + length) && |os| * 32 >= SizeOfAll(os, w)
  }

  lemma WrittenNone(a: seq<Byte>, at: nat, length: nat, w: nat)
    requires 40 + length == at <= |a|
    ensures Written(a, a, at, length, [], w)
  {
  }

  lemma WrittenMore(a: seq<Byte>, b: seq<Byte>, d: seq<Byte>, at: nat, length: nat, end: nat, os: seq<NdOption>,
                    o: NdOption, w: nat)
    requires ValidIdSize(w) && Written(a, b, at, length, os, w) && Inserted(b, d, length, end, o, w)
    ensures Written(a, d, at, end, os + [o], w)
  {
    hide Holds, Laid, SizeOfAll, WellFormed, AllWellFormed;
    LaidKept(b, d, 40 + length, 40 + end, at, os, w);
    LaidAppend(d, at, os, o, w);
    assert Size(o, w) <= 32;
    assert a[..at] == b[..40 + length][..at] == d[..at];
    assert a[40 + end..] == b[40 + length..][end - length..] == d[40 + end..];
  }

  // ---------------------------------------------------------------------------------------------
  // Message bodies
  // ---------------------------------------------------------------------------------------------

  lemma PrefixOptionsMore(row: seq<Prefix>, i: nat, os: seq<NdOption>, w: nat)
    requires 1 <= i < |row| && IsRow(row) && RowFits(row)
    ensures row[i].valid > 0 ==> os + PrefixOptions(row, i + 1) == os + PrefixOptions(row, i) + [PrefixOption(row[i])]
    ensures row[i].valid == 0 ==> PrefixOptions(row, i + 1) == PrefixOptions(row, i)
    ensures WellFormed(PrefixOption(row[i]), w) && Size(PrefixOption(row[i]), w) == 32
  {
    FourBytes();
    hide Pow256;
  }

  /** The loop over the prefix list, without the link-local slot. */
  method WritePrefixes(message: IPv6Packet, manager: InterfaceManager, length: nat, w: nat,
                       ghost a: seq<Byte>, ghost at: nat, ghost os: seq<NdOption>) returns (end: nat)
    requires manager.Valid() && ValidIdSize(w) && Written(a, message.buffer[..], at, length, os, w)
    requires 40 + length + 32 * manager.prefixList.Length1 <= message.buffer.Length
    modifies message.buffer
    ensures var row := manager.Row(INTERFACE_RADIO);
      Written(a, message.buffer[..], at, end, os + PrefixOptions(row, |row|), w)
    ensures length <= end <= length + 32 * (manager.prefixList.Length1 - 1)
  {
    hide *;
    Constants();
    manager.RowOf(0);
    ghost var row := manager.Row(0);
    end := length;
    NoPrefixes(row, os);
    for i := 1 to manager.prefixList.Length1
      invariant Written(a, message.buffer[..], at, end, os + PrefixOptions(row, i), w)
      invariant length <= end <= length + 32 * (i - 1)
    {
      PrefixOptionsMore(row, i, os, w);
      if manager.prefixList[0, i].valid > 0 {
        ghost var b, was := message.buffer[..], end;
        end := InsertPrefixInformation(message, end, manager.prefixList[0, i], w);
        WrittenMore(a, b, message.buffer[..], at, was, end, os + PrefixOptions(row, i), PrefixOption(row[i]), w);
        InsertedEnd(b, message.buffer[..], was, end, PrefixOption(row[i]), w);
      }
    }
  }

  lemma InsertedEnd(a: seq<Byte>, b: seq<Byte>, length: nat, end: nat, o: NdOption, w: nat)
    requires Inserted(a, b, length, end, o, w)
    ensures end == length + Size(o, w)
  {
  }

  lemma NoPrefixes(row: seq<Prefix>, os: seq<NdOption>)
    requires |row| >= 1
    ensures os + PrefixOptions(row, 1) == os
  {
  }

  lemma ContextOptionsMore(es: seq<ContextEntry>, i: nat, os: seq<NdOption>, w: nat)
    requires i < |es| && i < 16 && ContextsFit(es)
    ensures es[i].lifetime > 0 ==>
      os + ContextOptions(es, i + 1) == os + ContextOptions(es, i) + [ContextOption(es[i], i)]
    ensures es[i].lifetime == 0 ==> ContextOptions(es, i + 1) == ContextOptions(es, i)
    ensures WellFormed(ContextOption(es[i], i), w) && Size(ContextOption(es[i], i), w) <= 32
    ensures ContextOption(es[i].(lifetime := 0xFFFF), i) == ContextOption(es[i], i)
  {
    FourBytes();
    hide Pow256;
  }

  /** The entries below `n` were looked up. */
  ghost function LookedUp(es: seq<ContextEntry>, n: nat): (r: seq<ContextEntry>)
    requires n <= |es|
    ensures |r| == |es|
  {
    Refreshed(es[..n]) + es[n..]
  }

  lemma LookedUpMore(es: seq<ContextEntry>, n: nat)
    requires n < |es|
    ensures LookedUp(es, n)[n] == es[n]
    ensures es[n].lifetime > 0 ==> LookedUp(es, n + 1) == LookedUp(es, n)[n := es[n].(lifetime := 0xFFFF)]
    ensures es[n].lifetime == 0 ==> LookedUp(es, n + 1) == LookedUp(es, n)
  {
    var a, b := Refreshed(es[..n]), Refreshed(es[..n + 1]);
    assert b == a + [b[n]];
    assert es[..n + 1][n] == es[n];
    assert es[n..] == [es[n]] + es[n + 1..];
  }

  lemma LookedUpAll(es: seq<ContextEntry>, os: seq<NdOption>)
    ensures LookedUp(es, 0) == es && LookedUp(es, |es|) == Refreshed(es)
    ensures os + ContextOptions(es, 0) == os
  {
    assert es[..|es|] == es && es[|es|..] == [] && es[..0] == [] && es[0..] == es;
  }

  /** The loop over the contexts; each one that is live is looked up, which refreshes it. */
  method WriteContexts(message: IPv6Packet, contexts: array<ContextEntry>, length: nat, w: nat,
                       ghost a: seq<Byte>, ghost at: nat, ghost os: seq<NdOption>) returns (end: nat)
    requires ContextsFit(contexts[..]) && ValidIdSize(w) && Written(a, message.buffer[..], at, length, os, w)
    requires 40 + length + 32 * 16 <= message.buffer.Length
    modifies message.buffer, contexts
    ensures contexts[..] == Refreshed(old(contexts[..]))
    ensures Written(a, message.buffer[..], at, end, os + ContextOptions(old(contexts[..]), 16), w)
    ensures length <= end <= length + 32 * 16
  {
    hide *;
    ghost var es := contexts[..];
    Sixteen(es);
    LookedUpAll(es, os);
    end := length;
    for i := 0 to 16
      invariant contexts[..] == LookedUp(es, i)
      invariant Written(a, message.buffer[..], at, end, os + ContextOptions(es, i), w)
      invariant length <= end <= length + 32 * i
    {
      ContextOptionsMore(es, i, os, w);
      LookedUpMore(es, i);
      assert contexts[i] == es[i];
      if contexts[i].lifetime > 0 {
        contexts[i] := contexts[i].(lifetime := 0xFFFF);
        ghost var b, was := message.buffer[..], end;
        end := InsertContextOption(message, end, contexts[i], i, w);
        WrittenMore(a, b, message.buffer[..], at, was, end, os + ContextOptions(es, i), ContextOption(es[i], i), w);
        InsertedEnd(b, message.buffer[..], was, end, ContextOption(es[i], i), w);
      }
    }
  }

  lemma Sixteen(es: seq<ContextEntry>)
    requires ContextsFit(es)
    ensures |es| == 16
  {
  }

  /** The options `os` fill the message from `at` to `length`; in front of them only the body's own fields changed. */
  predicate Filled(a: seq<Byte>, b: seq<Byte>, at: nat, length: nat, os: seq<NdOption>, w: nat) {
    && AllWellFormed(os, w) && Laid(b, at, os, w) && 40 + length == at + SizeOfAll(os, w)
    && 44 <= at && SameOutside(a, b, 44, 40 + length)
  }

  lemma Join(a: seq<Byte>, m: seq<Byte>, b: seq<Byte>, at: nat, length: nat, os: seq<NdOption>, w: nat)
    requires 44 <= at && SameOutside(a, m, 44, at) && Written(m, b, at, length, os, w)
    ensures Filled(a, b, at, length, os, w)
    ensures forall i: nat, f | Has(m, i, f) && i + |f| <= at :: Has(b, i, f)
  {
    hide AllWellFormed, Laid, SizeOfAll, Has;
    assert a[..44] == m[..44] == m[..at][..44] == b[..at][..44] == b[..44];
    assert a[40 + length..] == a[at..][40 + length - at..] == b[40 + length..];
    forall i: nat, f | Has(m, i, f) && i + |f| <= at ensures Has(b, i, f) {
      HasKept(m, b, at, 40 + length, i, f);
    }
  }

  /** The body of a solicitation of routers: four reserved bytes and the link-layer option. */
  method WriteRouterSolicitation(message: IPv6Packet, c: Config) returns (length: nat)
    requires ValidConfig(c) && message.buffer.Length >= BUFFER_SIZE
    modifies message.buffer
    ensures length <= 1460
    ensures Filled(old(message.buffer[..]), message.buffer[..], 48, length, [LinkLayer(c.radioId)], c.idSize)
  {
    hide Holds, SameOutside, Laid, Pow256, Written, Inserted;
    ghost var a := message.buffer[..];
    Untouched(a, 44, 48);
    length := WriteLinkLayer(message, c, 8, a, 48, []);
    assert [] + [LinkLayer(c.radioId)] == [LinkLayer(c.radioId)];
    Join(a, a, message.buffer[..], 48, length, [LinkLayer(c.radioId)], c.idSize);
  }

  method WriteLinkLayer(message: IPv6Packet, c: Config, length: nat, ghost a: seq<Byte>, ghost at: nat,
                        ghost os: seq<NdOption>)
    returns (end: nat)
    requires ValidConfig(c) && 40 + length + 16 <= message.buffer.Length
    requires (a == message.buffer[..] && os == [] && at == 40 + length)
      || Written(a, message.buffer[..], at, length, os, c.idSize)
    modifies message.buffer
    ensures Written(a, message.buffer[..], at, end, os + [LinkLayer(c.radioId)], c.idSize)
    ensures length < end <= length + 16
  {
    hide Holds, SameOutside, Laid, Pow256, Written;
    ghost var b := message.buffer[..];
    if os == [] && at == 40 + length && a == b {
      WrittenNone(a, at, length, c.idSize);
    }
    end := InsertLinkLayerOption(message, length, c.radioId, c.idSize);
    WrittenMore(a, b, message.buffer[..], at, length, end, os, LinkLayer(c.radioId), c.idSize);
  }

  /** The body of a message between neighbors: the target address, the link-layer option and a registration. */
  method WriteNeighborMessage(message: IPv6Packet, c: Config, target: seq<Byte>, status: Byte, lifetime: nat, eui: nat)
    returns (length: nat)
    requires ValidConfig(c) && message.buffer.Length >= BUFFER_SIZE && |target| == 16
    requires WellFormed(Registration(lifetime, eui), c.idSize)
    modifies message.buffer
    ensures length <= 1460
    ensures Filled(old(message.buffer[..]), message.buffer[..], 64, length, [LinkLayer(c.radioId),
      Registration(lifetime, eui)], c.idSize)
    ensures Has(message.buffer[..], 48, target)
    ensures forall f | |f| == 1 && Has(old(message.buffer[..]), 44, f) :: Has(message.buffer[..], 44, f)
  {
    hide Holds, SameOutside, Laid, Pow256, Written, Inserted, Has, WellFormed, Filled;
    ghost var a := message.buffer[..];
    Untouched(a, 44, 64);
    PutData(message, target, 8, a, 44, 64);
    ghost var m := message.buffer[..];
    length := WriteLinkLayer(message, c, 24, m, 64, []);
    ghost var b, was := message.buffer[..], length;
    length := InsertAddressRegistrationOption(message, length, status, lifetime, eui, c.idSize);
    InsertedEnd(b, message.buffer[..], was, length, Registration(lifetime, eui), c.idSize);
    WrittenMore(m, b, message.buffer[..], 64, was, length, [] + [LinkLayer(c.radioId)], Registration(lifetime, eui),
      c.idSize);
    assert [] + [LinkLayer(c.radioId)] + [Registration(lifetime, eui)]
      == [LinkLayer(c.radioId), Registration(lifetime, eui)];
    Join(a, m, message.buffer[..], 64, length, [LinkLayer(c.radioId), Registration(lifetime, eui)], c.idSize);
  }

  /** The body of an advertisement of a router. */
  method WriteRouterAdvertisement(message: IPv6Packet, c: Config, s: Storage, manager: InterfaceManager,
                                  contexts: array<ContextEntry>)
    returns (length: nat)
    requires ValidConfig(c) && StorageFits(s) && manager.Valid() && ContextsFit(contexts[..])
    requires message.buffer.Length >= BUFFER_SIZE + 32 && manager.prefixList.Length1 <= 28
    modifies message.buffer, contexts
    ensures length <= 1460 && contexts[..] == Refreshed(old(contexts[..]))
    ensures Filled(old(message.buffer[..]), message.buffer[..], RA_OPTIONS, length,
      OptionsFor(c, s, manager.Row(INTERFACE_RADIO), old(contexts[..])), c.idSize)
    ensures HasParameters(message.buffer[..], s)
  {
    hide Holds, SameOutside, Laid, Pow256, Written, Inserted, Has, WellFormed, Filled, PrefixOptions, ContextOptions;
    hide BigEndian, AllWellFormed;
    ghost var a := message.buffer[..];
    Untouched(a, 44, 56);
    WriteParameters(message, s);
    ghost var m := message.buffer[..];
    ghost var os: seq<NdOption> := [];
    length := 16;
    WrittenNone(m, 56, 16, c.idSize);
    if c.routeOver {
      BorderRouterFits(s, c.idSize);
      length := InsertBorderRouterOption(message, length, s, c.idSize);
      InsertedEnd(m, message.buffer[..], 16, length, BorderRouterOption(s), c.idSize);
      WrittenMore(m, m, message.buffer[..], 56, 16, length, os, BorderRouterOption(s), c.idSize);
      os := os + [BorderRouterOption(s)];
    }
    length := WriteLinkLayer(message, c, length, m, 56, os);
    os := os + [LinkLayer(c.radioId)];
    length := WritePrefixes(message, manager, length, c.idSize, m, 56, os);
    os := os + PrefixOptions(manager.Row(INTERFACE_RADIO), |manager.Row(INTERFACE_RADIO)|);
    ghost var es := contexts[..];
    length := WriteContexts(message, contexts, length, c.idSize, m, 56, os);
    os := os + ContextOptions(es, 16);
    assert os == OptionsFor(c, s, manager.Row(INTERFACE_RADIO), es);
    Join(a, m, message.buffer[..], 56, length, os, c.idSize);
  }

  lemma BorderRouterFits(s: Storage, w: nat)
    requires StorageFits(s)
    ensures WellFormed(BorderRouterOption(s), w)
  {
  }

  method WriteParameters(message: IPv6Packet, s: Storage)
    requires StorageFits(s) && message.buffer.Length >= BUFFER_SIZE
    modifies message.buffer
    ensures SameOutside(old(message.buffer[..]), message.buffer[..], 44, 56) && HasParameters(message.buffer[..], s)
  {
    hide SameOutside, Pow256, Has, BigEndian;
    ghost var a := message.buffer[..];
    Untouched(a, 44, 56);
    PutByte(message, s.curHopLimit, 4, a, 44, 56);
    var setter: Byte := 0;
    if s.managed {
      setter := OrByte(setter, 0x80);
    }
    if s.otherConfig {
      setter := OrByte(setter, 0x40);
    }
    RaFlagsOr(s);
    PutByte(message, setter, 5, a, 44, 56);
    PutNumber(message, s.defaultLifetime, 2, 6, a, 44, 56);
    PutNumber(message, s.reachableTime, 4, 8, a, 44, 56);
    PutNumber(message, s.retransTimer, 4, 12, a, 44, 56);
  }

  lemma RaFlagsOr(s: Storage)
    ensures RaFlags(s) == (var managed := if s.managed then OrByte(0,
      0x80) else 0; if s.otherConfig then OrByte(managed, 0x40) else managed)
  {
  }
}
