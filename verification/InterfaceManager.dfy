/** The interface manager's prefix lists, updated in place. */
module InterfaceManager {
  import opened Bytes
  import opened Ipv6Address
  import opened PrefixTable
  import opened Packet

  const RESERVED_BIT: nat := 0x8000

  /** `OutOfBounds` stands for a copy that left the address: nothing is known about the memory then. */
  datatype Code = Success | ErrUnspec | ErrNotImpl | OutOfBounds

  /** The identifier of an interface: the radio's, with bit 15 set for the UART as far as the type has one. */
  function InterfaceId(radioId: nat, w: nat, iface: nat): nat {
    if iface == INTERFACE_UART && w >= 2 && radioId / RESERVED_BIT % 2 == 0 then radioId + RESERVED_BIT else radioId
  }

  /** fe80::/64 and the identifier, with the U bit set. */
  function LinkLocal(iid: nat, w: nat): seq<Byte>
    requires ValidIdSize(w)
  {
    Formed([0xFE, 0x80] + Zeros(14), 64, iid, w)
  }

  function LinkLocalEntry(addr: seq<Byte>): Prefix {
    Prefix(INFINITE, true, INFINITE, true, Address(addr, 64))
  }

  lemma LinkLocalIsAddress(iid: nat, w: nat)
    requires ValidIdSize(w)
    ensures |LinkLocal(iid, w)| == 16 && LinkLocal(iid, w) != NULL_ADDR
  {
    FormedIsNotNull([0xFE, 0x80] + Zeros(14), 64, iid, w);
  }

  function EmptyRow(n: nat): (r: seq<Prefix>)
    ensures |r| == n
  {
    seq(n, _ => NO_PREFIX)
  }

  /** What construction and initialisation leave in a row is a row as every run keeps it. */
  lemma InitialRowIsGood(iid: nat, w: nat, n: nat)
    requires ValidIdSize(w) && n > 0
    ensures Good(EmptyRow(n)[0 := LinkLocalEntry(LinkLocal(iid, w))], LinkLocal(iid, w))
  {
    hide Formed;
    LinkLocalIsAddress(iid, w);
  }

  /** The first address from slot `i` on; the one of slot 0 when there is none. */
  function FirstAddress(row: seq<Prefix>, i: nat): seq<Byte>
    requires row != []
    decreases |row| - i
  {
    if i >= |row| then AddrOf(row[0])
    else if AddrOf(row[i]) != NULL_ADDR then AddrOf(row[i])
    else FirstAddress(row, i + 1)
  }

  /** The source of a packet that goes out: an unspecified one is filled in, with a global address if there is one. */
  function SourceOnAir(row: seq<Prefix>, source: seq<Byte>): seq<Byte>
    requires row != []
  {
    if source == NULL_ADDR then FirstAddress(row, 1) else source
  }

  /** Every slot from `i` to `j` is empty. */
  predicate EmptyBetween(row: seq<Prefix>, i: nat, j: nat)
    requires j <= |row|
  {
    forall l | i <= l < j :: AddrOf(row[l]) == NULL_ADDR
  }

  /** No packet goes out from the unspecified address: its source is the address of the first slot in use, or of slot 0
      if there is none. */
  lemma {:induction false} SourceIsSpecified(row: seq<Prefix>, i: nat)
    requires row != [] && AddrOf(row[0]) != NULL_ADDR && i <= |row|
    ensures FirstAddress(row, i) != NULL_ADDR
    ensures EmptyBetween(row, i, |row|) ==> FirstAddress(row, i) == AddrOf(row[0])
    ensures forall j | i <= j < |row| && EmptyBetween(row, i, j) && AddrOf(row[j]) != NULL_ADDR ::
        FirstAddress(row, i) == AddrOf(row[j])
    ensures exists j | 0 <= j < |row| :: FirstAddress(row, i) == AddrOf(row[j])
    decreases |row| - i
  {
    if i < |row| && AddrOf(row[i]) == NULL_ADDR {
      SourceIsSpecified(row, i + 1);
    } else if i < |row| {
      assert FirstAddress(row, i) == AddrOf(row[i]);
    } else {
      assert FirstAddress(row, i) == AddrOf(row[0]);
    }
  }

  /** A packet with its source filled in. */
  function WithSource(row: seq<Prefix>, b: seq<Byte>): (r: seq<Byte>)
    requires row != [] && |b| >= PAYLOAD_POS && IsRow(row)
    ensures |r| == |b|
  {
    SourceLength(row, b[SOURCE_BYTE..DESTINATION_BYTE]);
    Splice(b, SOURCE_BYTE, SourceOnAir(row, b[SOURCE_BYTE..DESTINATION_BYTE]))
  }

  lemma SourceLength(row: seq<Prefix>, source: seq<Byte>)
    requires row != [] && IsRow(row) && |source| == 16
    ensures |SourceOnAir(row, source)| == 16
  {
    FirstLength(row, 1);
  }

  lemma {:induction false} FirstLength(row: seq<Prefix>, i: nat)
    requires row != [] && IsRow(row)
    ensures |FirstAddress(row, i)| == 16
    decreases |row| - i
  {
    if i < |row| {
      FirstLength(row, i + 1);
    }
  }

  lemma SourceKeepsFit(row: seq<Prefix>, b: seq<Byte>)
    requires row != [] && IsRow(row) && Fits(b)
    ensures Fits(WithSource(row, b)) && WithSource(row, b)[NEXT_HEADER_BYTE] == b[NEXT_HEADER_BYTE]
    ensures SourceOnAir(row, b[SOURCE_BYTE..DESTINATION_BYTE]) == b[SOURCE_BYTE..DESTINATION_BYTE] ==>
      WithSource(row, b) == b
  {
    SourceLength(row, b[SOURCE_BYTE..DESTINATION_BYTE]);
  }

  class InterfaceManager {
    const prefixList: array2<Prefix>
    const radioId: nat
    const idSize: nat

    ghost predicate Valid()
      reads this, prefixList
    {
      && ValidIdSize(idSize)
      && prefixList.Length0 == NUMBER_OF_INTERFACES && 1 <= prefixList.Length1 <= 256
      && (forall i | 0 <= i < NUMBER_OF_INTERFACES :: IsRow(Row(i)) && RowFits(Row(i)))
    }

    ghost function Row(i: nat): (r: seq<Prefix>)
      requires i < prefixList.Length0
      reads prefixList
      ensures |r| == prefixList.Length1
    {
      seq(prefixList.Length1, j requires 0 <= j < prefixList.Length1 reads prefixList => prefixList[i, j])
    }

    /** All slots empty. */
    constructor (radioId: nat, idSize: nat, maxPrefixes: nat)
      requires ValidIdSize(idSize) && 1 <= maxPrefixes <= 256
      ensures this.radioId == radioId && this.idSize == idSize && fresh(prefixList)
      ensures Valid() && prefixList.Length1 == maxPrefixes
      ensures forall i | 0 <= i < NUMBER_OF_INTERFACES :: Row(i) == EmptyRow(maxPrefixes)
    {
      this.radioId, this.idSize := radioId, idSize;
      var list := new Prefix[NUMBER_OF_INTERFACES, maxPrefixes]((i, j) => NO_PREFIX);
      prefixList := list;
      new;
      assert forall i | 0 <= i < NUMBER_OF_INTERFACES :: Row(i) == EmptyRow(maxPrefixes);
    }

    /** Slot 0 of each interface gets the link-local address. */
    method Init()
      requires Valid()
      modifies prefixList
      ensures Valid()
      ensures Row(INTERFACE_RADIO) == old(Row(INTERFACE_RADIO))[0 := LinkLocalEntry(MyLinkLocal(INTERFACE_RADIO))]
      ensures Row(INTERFACE_UART) == old(Row(INTERFACE_UART))[0 := LinkLocalEntry(MyLinkLocal(INTERFACE_UART))]
    {
      hide Formed;
      LinkLocalIsAddress(InterfaceId(radioId, idSize, INTERFACE_RADIO), idSize);
      LinkLocalIsAddress(InterfaceId(radioId, idSize, INTERFACE_UART), idSize);
      WriteSlot(INTERFACE_RADIO, 0, LinkLocalEntry(MyLinkLocal(INTERFACE_RADIO)));
      WriteSlot(INTERFACE_UART, 0, LinkLocalEntry(MyLinkLocal(INTERFACE_UART)));
    }

    function MyLinkLocal(iface: nat): seq<Byte>
      requires ValidIdSize(idSize)
    {
      LinkLocal(InterfaceId(radioId, idSize, iface), idSize)
    }

    method SetPrefixForInterface(prefix: seq<Byte>, iface: nat, length: Byte, valid: nat, onlink: bool,
                                 preferred: nat, autonomous: bool) returns (code: Code)
      requires Valid() && |prefix| >= 16 && valid <= INFINITE && preferred <= INFINITE
      modifies prefixList
      ensures code == OutOfBounds <==> iface < NUMBER_OF_INTERFACES && length > 128
      ensures code != OutOfBounds ==> Valid()
      ensures iface >= NUMBER_OF_INTERFACES ==>
        code == ErrNotImpl && forall i | 0 <= i < NUMBER_OF_INTERFACES :: Row(i) == old(Row(i))
      ensures iface < NUMBER_OF_INTERFACES && code != OutOfBounds ==>
        var p := Built(prefix, length, valid, onlink, preferred, autonomous, InterfaceId(radioId, idSize, iface),
          idSize);
        && Row(iface) == Set(old(Row(iface)), p) && Row(1 - iface) == old(Row(1 - iface))
        && (code == Success <==> SlotFor(old(Row(iface)), AddrOf(p)) < prefixList.Length1)
        && code != ErrNotImpl
    {
      hide *;
      if iface >= NUMBER_OF_INTERFACES {
        return ErrNotImpl;
      }
      TwoRows();
      var myId := InterfaceId(radioId, idSize, iface);
      var tmp := new IPv6Address();
      NullLength();
      var inside := tmp.SetPrefix(prefix, length);
      if !inside {
        return OutOfBounds;
      }
      tmp.SetLongIid(myId, idSize, true);
      IsFormed(prefix, length, myId, idSize);
      var p := Prefix(valid, onlink, preferred, autonomous, Address(tmp.addr[..], tmp.prefixLength));
      IsBuilt(p, prefix, myId, idSize);
      RowOf(iface);
      SetMeans(Row(iface), p);
      var k := FindSlot(iface, tmp.addr[..]);
      if k < prefixList.Length1 {
        WriteSlot(iface, k, p);
        return Success;
      }
      return ErrUnspec;
    }

    lemma TwoRows()
      requires Valid()
      ensures NUMBER_OF_INTERFACES == 2 == prefixList.Length0 && ValidIdSize(idSize)
    {
    }

    /** An assignment to one slot. */
    method WriteSlot(iface: nat, k: nat, p: Prefix)
      requires Valid() && iface < NUMBER_OF_INTERFACES && k < prefixList.Length1
      requires |AddrOf(p)| == 16 && LifetimesFit(p)
      modifies prefixList
      ensures Valid() && Row(iface) == old(Row(iface))[k := p] && Row(1 - iface) == old(Row(1 - iface))
    {
      prefixList[iface, k] := p;
      assert Row(iface) == old(Row(iface))[k := p];
      assert Row(1 - iface) == old(Row(1 - iface));
    }

    /** The search loop: stops at the address, remembers the last free slot. */
    method FindSlot(iface: nat, addr: seq<Byte>) returns (k: nat)
      requires Valid() && iface < NUMBER_OF_INTERFACES && |addr| == 16
      ensures k == SlotFor(Row(iface), addr) <= prefixList.Length1
    {
      k := prefixList.Length1;
      for i := 0 to prefixList.Length1
        invariant k <= prefixList.Length1
        invariant SlotFor(Row(iface), addr) == ScanFrom(Row(iface), addr, i, k)
      {
        assert Row(iface)[i] == prefixList[iface, i];
        SameAddressMeans(addr, prefixList[iface, i].address.addr);
        SameAddressMeans(prefixList[iface, i].address.addr, NULL_ADDR);
        if SameAddress(addr, prefixList[iface, i].address.addr) {
          return i;
        } else if SameAddress(prefixList[iface, i].address.addr, NULL_ADDR) {
          k := i;
        }
      }
    }

    /** send_to_interface: source and checksum are filled in, as far as they are missing. */
    method SendToInterface(message: IPv6Packet, iface: nat)
      requires Valid() && iface < NUMBER_OF_INTERFACES
      requires Fits(message.buffer[..]) && message.buffer.Length >= BUFFER_SIZE + 32
      modifies message`transportNextHeader, message`transportPos, message.buffer
      ensures Row(iface) == old(Row(iface)) && IsRow(Row(iface))
      ensures Fits(WithSource(Row(iface), old(message.buffer[..])))
      ensures message.buffer[..] == Stamped(WithSource(Row(iface), old(message.buffer[..])),
        NextHeaderOf(old(message.transportNextHeader), old(message.buffer[NEXT_HEADER_BYTE])))
    {
      hide *;
      RowOf(iface);
      Positions();
      ghost var row, b := Row(iface), message.buffer[..];
      SourceKeepsFit(row, b);
      var source := message.buffer[8..24];
      assert source == b[8..24];
      SourceLength(row, source);
      SourceMeans(row, b);
      if source == NULL_ADDR {
        var first := FirstAddressOf(iface);
        message.SetHeader(8, first);
      }
      assert message.buffer[..] == WithSource(row, b);
      message.StampChecksum();
    }

    /** The loop over the slots of an interface. */
    method FirstAddressOf(iface: nat) returns (a: seq<Byte>)
      requires Valid() && iface < NUMBER_OF_INTERFACES
      ensures a == FirstAddress(Row(iface), 1)
    {
      RowOf(iface);
      for i := 1 to prefixList.Length1
        invariant FirstAddress(Row(iface), 1) == FirstAddress(Row(iface), i)
      {
        assert Row(iface)[i] == prefixList[iface, i];
        if prefixList[iface, i].address.addr != NULL_ADDR {
          return prefixList[iface, i].address.addr;
        }
      }
      assert Row(iface)[0] == prefixList[iface, 0];
      return prefixList[iface, 0].address.addr;
    }

    /** The prefix part of the 60 second timer: `soon` says that some prefix made it ask for an update. */
    method AgePrefixes(iface: nat) returns (validGlobalPrefixes: nat, soon: bool)
      requires Valid() && iface < NUMBER_OF_INTERFACES
      modifies prefixList
      ensures Valid() && Row(iface) == AgeRow(old(Row(iface))) && Row(1 - iface) == old(Row(1 - iface))
      ensures validGlobalPrefixes == CountedUpTo(old(Row(iface)), prefixList.Length1) <= 255
      ensures soon <==> SomeExpireSoon(old(Row(iface)), prefixList.Length1)
    {
      hide *;
      RowOf(iface);
      ghost var before, n := Row(iface), prefixList.Length1;
      ghost var other := Row(1 - iface);
      validGlobalPrefixes, soon := 0, false;
      AgedNone(before);
      for i := 1 to prefixList.Length1
        invariant Valid() && Row(iface) == AgedUpTo(before, i) && Row(1 - iface) == other
        invariant validGlobalPrefixes == CountedUpTo(before, i)
        invariant soon <==> SomeExpireSoon(before, i)
      {
        RowOf(iface);
        AgedOne(before, i);
        var aged, counted, expires := AgeOne(prefixList[iface, i]);
        WriteSlot(iface, i, aged);
        if expires {
          soon := true;
        }
        if counted {
          validGlobalPrefixes := validGlobalPrefixes + 1;
        }
      }
      AgedAll(before);
      CountedUpToBound(before, n);
    }

    /** What validity says about one row. */
    lemma RowOf(iface: nat)
      requires Valid() && iface < NUMBER_OF_INTERFACES
      ensures prefixList.Length0 == 2 && 1 <= prefixList.Length1 <= 256 && iface < 2
      ensures IsRow(Row(iface)) && RowFits(Row(iface)) && |Row(iface)| == prefixList.Length1
      ensures forall j | 0 <= j < prefixList.Length1 ::
        Row(iface)[j] == prefixList[iface, j] && LifetimesFit(prefixList[iface, j]) && |AddrOf(prefixList[iface, j])|
          == 16
    {
    }

    /** One slot's turn, as the nested conditions take it. */
    static method AgeOne(p: Prefix) returns (r: Prefix, counted: bool, expires: bool)
      requires LifetimesFit(p)
      ensures r == Age(p) && counted == Counted(p) && expires == ExpiresSoon(p)
    {
      r, counted, expires := p, false, false;
      if p.valid < INFINITE {
        if p.valid > 0 {
          r := r.(valid := Sub32(p.valid, TIMEOUT_INTERVAL));
          if p.preferred < INFINITE {
            if p.preferred > TIMEOUT_INTERVAL {
              r := r.(preferred := p.preferred - TIMEOUT_INTERVAL);
            } else {
              r := r.(preferred := 0);
            }
          }
          if r.valid < TIMEOUT_INTERVAL {
            r := r.(valid := 0);
            r := r.(preferred := 0);
          } else if r.valid < 4 * TIMEOUT_INTERVAL {
            expires := true;
            counted := true;
          } else {
            counted := true;
          }
        }
      } else {
        counted := true;
      }
    }

    /** All slots but the first of an interface become empty. */
    method EmptyGlobals(iface: nat)
      requires Valid() && iface < NUMBER_OF_INTERFACES
      modifies prefixList
      ensures Valid() && Row(iface) == Emptied(old(Row(iface))) && Row(1 - iface) == old(Row(1 - iface))
    {
      for i := 1 to prefixList.Length1
        invariant Valid() && Row(1 - iface) == old(Row(1 - iface))
        invariant Row(iface)[0] == old(Row(iface))[0] && forall j | 1 <= j < i :: Row(iface)[j] == NO_PREFIX
      {
        WriteSlot(iface, i, NO_PREFIX);
      }
    }
  }

  // ---------------------------------------------------------------------------------------------
  // Steps of the loops
  // ---------------------------------------------------------------------------------------------

  /** The row when the slots below `n` have had their turn. */
  ghost function AgedUpTo(row: seq<Prefix>, n: nat): (r: seq<Prefix>)
    requires RowFits(row)
    ensures |r| == |row|
  {
    seq(|row|, i requires 0 <= i < |row| => if 1 <= i < n then Age(row[i]) else row[i])
  }

  lemma AgedNone(row: seq<Prefix>)
    requires RowFits(row) && row != []
    ensures AgedUpTo(row, 1) == row && CountedUpTo(row, 1) == 0 && !SomeExpireSoon(row, 1)
  {
  }

  lemma AgedOne(row: seq<Prefix>, i: nat)
    requires RowFits(row) && IsRow(row) && 1 <= i < |row|
    ensures AgedUpTo(row, i)[i] == row[i] && |AddrOf(Age(row[i]))| == 16 && LifetimesFit(Age(row[i]))
    ensures AgedUpTo(row, i + 1) == AgedUpTo(row, i)[i := Age(row[i])]
    ensures CountedUpTo(row, i + 1) == CountedUpTo(row, i) + if Counted(row[i]) then 1 else 0
    ensures SomeExpireSoon(row, i + 1) <==> SomeExpireSoon(row, i) || ExpiresSoon(row[i])
  {
  }

  lemma AgedAll(row: seq<Prefix>)
    requires RowFits(row) && row != []
    ensures AgedUpTo(row, |row|) == AgeRow(row)
  {
  }

  lemma CountedUpToBound(row: seq<Prefix>, n: nat)
    requires RowFits(row) && 1 <= n <= |row|
    ensures CountedUpTo(row, n) <= n - 1
  {
  }

  lemma Positions()
    ensures SOURCE_BYTE == 8 && DESTINATION_BYTE == 24 && NEXT_HEADER_BYTE == 6 && PAYLOAD_POS == 40
    ensures BUFFER_SIZE == 1500
  {
  }

  lemma SourceMeans(row: seq<Prefix>, b: seq<Byte>)
    requires row != [] && IsRow(row) && |b| >= 40
    ensures |b[8..24]| == 16 && |FirstAddress(row, 1)| == 16
    ensures b[8..24] == NULL_ADDR ==> WithSource(row, b) == Splice(b, 8, FirstAddress(row, 1))
    ensures b[8..24] != NULL_ADDR ==> WithSource(row, b) == b
  {
    hide FirstAddress;
    FirstLength(row, 1);
  }

  lemma NullLength()
    ensures |NULL_ADDR| == 16
  {
  }

  /** The entry that the code puts together field by field. */
  lemma IsBuilt(p: Prefix, prefix: seq<Byte>, iid: nat, w: nat)
    requires |prefix| >= 16 && ValidIdSize(w) && p.valid <= INFINITE && p.preferred <= INFINITE
    requires p.address.addr == Formed(prefix, p.address.prefixLength, iid, w)
    ensures p == Built(prefix, p.address.prefixLength, p.valid, p.onlink, p.preferred, p.autonomous, iid, w)
    ensures |AddrOf(p)| == 16 && LifetimesFit(p)
  {
    hide Formed;
    FormedLength(prefix, p.address.prefixLength, iid, w);
  }

  lemma SetMeans(row: seq<Prefix>, p: Prefix)
    ensures SlotFor(row, AddrOf(p)) <= |row|
    ensures Set(row, p) == if SlotFor(row, AddrOf(p)) < |row| then row[SlotFor(row, AddrOf(p)) := p] else row
    ensures AddrOf(p) == p.address.addr
  {
  }

  lemma IsFormed(prefix: seq<Byte>, length: PrefixLength, iid: nat, w: nat)
    requires |prefix| >= 16 && ValidIdSize(w)
    ensures WithIid(WithPrefix(NULL_ADDR, prefix, length), iid, w, true) == Formed(prefix, length, iid, w)
  {
  }
}
