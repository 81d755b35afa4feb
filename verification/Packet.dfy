/**
 * The IPv6 packet buffer of ipv6_packet.h: endianness-independent payload writing and the checksum.
 *
 * Packets carry no extension headers here, so the transport header always starts at PAYLOAD_POS. The
 * buffer array may be longer than BUFFER_SIZE: the tail stands for the memory behind the buffer, which
 * the option readers of icmpv6.h can look at.
 */
module Packet {
  import opened Wrappers
  import opened Bytes
  import opened Checksum
  import PrefixTable

  const BUFFER_SIZE: nat := 1500
  const LENGTH_BYTE: nat := 4
  const NEXT_HEADER_BYTE: nat := 6
  const HOP_LIMIT_BYTE: nat := 7
  const SOURCE_BYTE: nat := 8
  const DESTINATION_BYTE: nat := 24
  const PAYLOAD_POS: nat := 40
  /** The next header of a packet that has none yet; 0 would stand for hop-by-hop options. */
  const NEXT_HEADER_NOT_SET: Byte := 255
  const UDP: Byte := 17
  const ICMPV6: Byte := 58

  // ---------------------------------------------------------------------------------------------
  // Byte order
  // ---------------------------------------------------------------------------------------------

  /** A number as it lies in the memory of the node. */
  function NativeImage(v: nat, size: nat, little: bool): seq<Byte> {
    if little then Reverse(BigEndian(v, size)) else BigEndian(v, size)
  }

  /** What `set_payload` writes for an element that lies in memory as `image`. */
  function OnWire(image: seq<Byte>, little: bool): (r: seq<Byte>)
    ensures |r| == |image|
  {
    if little then Reverse(image) else image
  }

  function AllOnWire(images: seq<seq<Byte>>, little: bool): seq<Byte> {
    if images == [] then [] else OnWire(images[0], little) + AllOnWire(images[1..], little)
  }

  /** On either kind of node a number goes out in network byte order. */
  lemma NetworkOrder(v: nat, size: nat, little: bool)
    ensures AllOnWire([NativeImage(v, size, little)], little) == BigEndian(v, size)
  {
    var b := BigEndian(v, size);
    assert Reverse(Reverse(b)) == b;
    assert [NativeImage(v, size, little)][1..] == [];
  }

  function Singles(bs: seq<Byte>): (r: seq<seq<Byte>>)
    ensures |r| == |bs|
  {
    if bs == [] then [] else [[bs[0]]] + Singles(bs[1..])
  }

  lemma {:induction false} SinglesOnWire(bs: seq<Byte>, little: bool)
    ensures AllOnWire(Singles(bs), little) == bs
  {
    if bs != [] {
      SinglesOnWire(bs[1..], little);
      assert Singles(bs)[1..] == Singles(bs[1..]);
      assert OnWire([bs[0]], little) == [bs[0]];
    }
  }

  lemma SpliceTwice(s: seq<Byte>, at: nat, a: seq<Byte>, b: seq<Byte>)
    requires at + |a| + |b| <= |s|
    ensures Splice(Splice(s, at, a), at + |a|, b) == Splice(s, at, a + b)
  {
  }

  // ---------------------------------------------------------------------------------------------
  // What the checksum covers (section 8.1 of RFC 8200)
  // ---------------------------------------------------------------------------------------------

  function TransportLength(buf: seq<Byte>): nat
    requires |buf| >= PAYLOAD_POS
  {
    Word(buf[LENGTH_BYTE], buf[LENGTH_BYTE + 1])
  }

  predicate Fits(buf: seq<Byte>) {
    |buf| >= PAYLOAD_POS && PAYLOAD_POS + TransportLength(buf) <= |buf|
  }

  function PseudoHeader(buf: seq<Byte>): (r: seq<Byte>)
    requires |buf| >= PAYLOAD_POS
  {
    buf[SOURCE_BYTE..DESTINATION_BYTE] + buf[DESTINATION_BYTE..PAYLOAD_POS]
      + [0, 0, buf[LENGTH_BYTE], buf[LENGTH_BYTE + 1]] + [0, 0, 0, buf[NEXT_HEADER_BYTE]]
  }

  /** The pseudo-header: source, destination, length in four bytes, next header behind three zeros. */
  lemma PseudoHeaderBytes(buf: seq<Byte>)
    requires |buf| >= 40
    ensures var p := PseudoHeader(buf);
      && |p| == 40 && p[..16] == buf[8..24] && p[16..32] == buf[24..40]
      && p[32..] == [0, 0, buf[4], buf[5], 0, 0, 0, buf[6]]
  {
  }

  function Covered(buf: seq<Byte>): seq<Byte>
    requires Fits(buf)
  {
    PseudoHeader(buf) + buf[PAYLOAD_POS..PAYLOAD_POS + TransportLength(buf)]
  }

  function ChecksumOf(buf: seq<Byte>): nat
    requires Fits(buf)
  {
    CodeChecksum(Covered(buf))
  }

  /** No packet overflows the 32-bit accumulator. */
  lemma NoOverflow(buf: seq<Byte>)
    requires Fits(buf)
    ensures WordSum(Covered(buf)) < 0x1_0000_0000
  {
    WordSumBound(Covered(buf));
  }

  /** The checksum of every packet, measured against RFC 1071: right when one folding is enough,
      otherwise one too large. */
  lemma PacketAgainstRfc(buf: seq<Byte>)
    requires Fits(buf)
    ensures ChecksumOf(buf) == RfcChecksum(Covered(buf)) <==> Fold(WordSum(Covered(buf))) < WORD
    ensures Fold(WordSum(Covered(buf))) >= WORD ==> ChecksumOf(buf) == RfcChecksum(Covered(buf)) + 1
    ensures WordSum(Covered(buf)) % ALL_ONES == Value(Padded(Covered(buf))) % ALL_ONES
  {
    NoOverflow(buf);
    CodeAgainstRfc(Covered(buf));
    SumIsValueModulo(Covered(buf));
  }

  lemma {:induction false} ZerosSum(b: seq<Byte>)
    requires forall i | 0 <= i < |b| :: b[i] == 0
    ensures WordSum(b) == 0
    decreases |b|
  {
    if |b| > 1 {
      ZerosSum(b[2..]);
    }
  }

  /** An echo request of eight bytes between unspecified addresses, its checksum field zero: all words together sum
      to 1FFFF, which folds to 10000. */
  const UNLUCKY: seq<Byte> :=
    [0x60, 0, 0, 0, 0, 8, ICMPV6, 255] + seq(32, _ => 0) + [0x80, 0, 0, 0, 0xFF, 0xFF, 0x7F, 0xBE]

  /** Such a packet gets a checksum that is one too large. */
  lemma CarryIsLost()
    ensures Fits(UNLUCKY) && UNLUCKY[NEXT_HEADER_BYTE] == ICMPV6 && Field(UNLUCKY, 2) == 0
    ensures ChecksumOf(UNLUCKY) == 0xFFFF && RfcChecksum(Covered(UNLUCKY)) == 0xFFFE
  {
    hide WordSum, RfcChecksum, CodeChecksum;
    assert UNLUCKY[PAYLOAD_POS..PAYLOAD_POS + 8] == [0x80, 0, 0, 0, 0xFF, 0xFF, 0x7F, 0xBE];
    UnluckyPayload();
    ZerosSum(UNLUCKY[SOURCE_BYTE..DESTINATION_BYTE]);
    ZerosSum(UNLUCKY[DESTINATION_BYTE..PAYLOAD_POS]);
    TwoWords(8);
    TwoWords(ICMPV6);
    PartsOfSum(UNLUCKY);
    PacketAgainstRfc(UNLUCKY);
    SumDecides(UNLUCKY);
  }

  lemma UnluckyPayload()
    ensures WordSum([0x80, 0, 0, 0, 0xFF, 0xFF, 0x7F, 0xBE]) == 0x1_FFBD
  {
    var payload: seq<Byte> := [0x80, 0, 0, 0, 0xFF, 0xFF, 0x7F, 0xBE];
    assert payload[2..] == [0, 0, 0xFF, 0xFF, 0x7F, 0xBE] && payload[2..][2..] == [0xFF, 0xFF, 0x7F, 0xBE];
    assert payload[2..][2..][2..] == [0x7F, 0xBE] && payload[2..][2..][2..][2..] == [];
    assert WordSum(payload[2..][2..][2..]) == 0x7FBE;
    assert WordSum(payload[2..][2..]) == 0x1_7FBD;
    assert WordSum(payload[2..]) == 0x1_7FBD;
  }

  lemma TwoWords(n: Byte)
    ensures WordSum([0, 0, 0, n]) == n
  {
    var b: seq<Byte> := [0, 0, 0, n];
    assert b[2..] == [0, n] && b[2..][2..] == [];
    assert WordSum(b[2..]) == n;
  }

  lemma SumDecides(buf: seq<Byte>)
    requires Fits(buf) && WordSum(Covered(buf)) == 0x1_FFFF
    ensures ChecksumOf(buf) == 0xFFFF && Fold(WordSum(Covered(buf))) >= WORD
  {
    hide WordSum, Covered;
  }

  /** The sum of the covered bytes is the sum of the five parts that the code adds up. */
  lemma PartsOfSum(buf: seq<Byte>)
    requires Fits(buf)
    ensures WordSum(Covered(buf)) ==
      WordSum(buf[SOURCE_BYTE..DESTINATION_BYTE]) + WordSum(buf[DESTINATION_BYTE..PAYLOAD_POS])
      + WordSum([0, 0, buf[LENGTH_BYTE], buf[LENGTH_BYTE + 1]]) + WordSum([0, 0, 0, buf[NEXT_HEADER_BYTE]])
      + WordSum(buf[PAYLOAD_POS..PAYLOAD_POS + TransportLength(buf)])
  {
    hide WordSum;
    var s, d := buf[SOURCE_BYTE..DESTINATION_BYTE], buf[DESTINATION_BYTE..PAYLOAD_POS];
    var l, n := [0, 0, buf[LENGTH_BYTE], buf[LENGTH_BYTE + 1]], [0, 0, 0, buf[NEXT_HEADER_BYTE]];
    SumSplits(s, d);
    SumSplits(s + d, l);
    SumSplits(s + d + l, n);
    SumSplits(s + d + l + n, buf[PAYLOAD_POS..PAYLOAD_POS + TransportLength(buf)]);
  }

  function Swapped(buf: seq<Byte>): (r: seq<Byte>)
    requires Fits(buf)
  {
    buf[..SOURCE_BYTE] + buf[DESTINATION_BYTE..PAYLOAD_POS] + buf[SOURCE_BYTE..DESTINATION_BYTE] + buf[PAYLOAD_POS..]
  }

  /** An echo reply goes back with the addresses exchanged; that alone does not change the checksum. */
  lemma SwappingKeepsChecksum(buf: seq<Byte>)
    requires Fits(buf)
    ensures Fits(Swapped(buf)) && ChecksumOf(Swapped(buf)) == ChecksumOf(buf)
  {
    hide WordSum;
    var r := Swapped(buf);
    assert r[SOURCE_BYTE..DESTINATION_BYTE] == buf[DESTINATION_BYTE..PAYLOAD_POS];
    assert r[DESTINATION_BYTE..PAYLOAD_POS] == buf[SOURCE_BYTE..DESTINATION_BYTE];
    assert r[PAYLOAD_POS..] == buf[PAYLOAD_POS..];
    assert r[PAYLOAD_POS..PAYLOAD_POS + TransportLength(r)] == buf[PAYLOAD_POS..PAYLOAD_POS + TransportLength(buf)];
    PartsOfSum(buf);
    PartsOfSum(r);
  }

  // ---------------------------------------------------------------------------------------------
  // Sending and checking
  // ---------------------------------------------------------------------------------------------

  /** The 16-bit field at offset `at` of the transport header. */
  function Field(buf: seq<Byte>, at: nat): nat
    requires PAYLOAD_POS + at + 2 <= |buf|
  {
    Word(buf[PAYLOAD_POS + at], buf[PAYLOAD_POS + at + 1])
  }

  function WithField(buf: seq<Byte>, at: nat, v: nat): (r: seq<Byte>)
    requires PAYLOAD_POS + at + 2 <= |buf|
    ensures |r| == |buf|
  {
    Splice(buf, PAYLOAD_POS + at, BigEndian(v, 2))
  }

  /** The offset of the checksum field, by transport protocol. */
  function ChecksumOffset(nextHeader: Byte): nat {
    if nextHeader == UDP then 6 else 2
  }

  /** A field that still is zero gets the checksum; any other stays. */
  function Stamped(buf: seq<Byte>, nextHeader: Byte): (r: seq<Byte>)
    requires Fits(buf) && |buf| >= PAYLOAD_POS + 8
    ensures |r| == |buf|
  {
    var at := ChecksumOffset(nextHeader);
    if (nextHeader == UDP || nextHeader == ICMPV6) && Field(buf, at) == 0
      then WithField(buf, at, ChecksumOf(buf)) else buf
  }

  /** What stamping does: a zero field at byte 2 of an ICMPv6 message, or at byte 6 of a UDP datagram, takes the
      checksum, and no other byte changes; any other packet stays. */
  lemma StampedAt(buf: seq<Byte>, nextHeader: Byte, i: nat)
    requires Fits(buf) && |buf| >= PAYLOAD_POS + 8 && i < |buf|
    ensures nextHeader != 17 && nextHeader != 58 ==> Stamped(buf, nextHeader) == buf
    ensures buf[42] != 0 || buf[43] != 0 ==> Stamped(buf, 58) == buf
    ensures buf[46] != 0 || buf[47] != 0 ==> Stamped(buf, 17) == buf
    ensures buf[42] == 0 && buf[43] == 0 ==>
      && Stamped(buf, 58)[42] as int * 256 + Stamped(buf, 58)[43] == ChecksumOf(buf)
      && (i != 42 && i != 43 ==> Stamped(buf, 58)[i] == buf[i])
    ensures buf[46] == 0 && buf[47] == 0 ==>
      && Stamped(buf, 17)[46] as int * 256 + Stamped(buf, 17)[47] == ChecksumOf(buf)
      && (i != 46 && i != 47 ==> Stamped(buf, 17)[i] == buf[i])
  {
    hide ChecksumOf, WithField, Fits, Field;
    ChecksumIsWord(buf);
    FieldWritten(buf, 2, ChecksumOf(buf));
    FieldWritten(buf, 6, ChecksumOf(buf));
    FieldZero(buf, 2);
    FieldZero(buf, 6);
  }

  lemma FieldZero(buf: seq<Byte>, at: nat)
    requires PAYLOAD_POS + at + 2 <= |buf|
    ensures Field(buf, at) == 0 <==> buf[40 + at] == 0 && buf[41 + at] == 0
  {
  }

  lemma FieldWritten(buf: seq<Byte>, at: nat, v: nat)
    requires PAYLOAD_POS + at + 2 <= |buf| && v < WORD
    ensures var r := WithField(buf, at, v);
      && |r| == |buf| && r[40 + at] as int * 256 + r[41 + at] == v
      && forall i | 0 <= i < |buf| && i != 40 + at && i != 41 + at :: r[i] == buf[i]
  {
    hide BigEndian;
    FieldOfWithField(buf, at, v);
  }

  lemma FieldOfWithField(buf: seq<Byte>, at: nat, v: nat)
    requires PAYLOAD_POS + at + 2 <= |buf| && v < WORD
    ensures Field(WithField(buf, at, v), at) == v
  {
    assert BigEndian(v, 2) == BigEndian(v / 256, 1) + [v % 256];
    assert BigEndian(v / 256, 1) == BigEndian(v / 256 / 256, 0) + [v / 256 % 256];
  }

  lemma ZeroField(buf: seq<Byte>, at: nat)
    requires Fits(buf) && PAYLOAD_POS + at + 2 <= |buf|
    ensures Fits(WithField(buf, at, 0))
    ensures WithField(buf, at, 0) == buf[PAYLOAD_POS + at := 0][PAYLOAD_POS + at + 1 := 0]
  {
    assert BigEndian(0, 2) == BigEndian(0, 1) + [0] == BigEndian(0, 0) + [0] + [0];
  }

  lemma FieldReplacedTwice(buf: seq<Byte>, at: nat, v: nat, w: nat)
    requires PAYLOAD_POS + at + 2 <= |buf|
    ensures WithField(WithField(buf, at, v), at, w) == WithField(buf, at, w)
  {
  }

  /** What the sender stored is what the receiver computes after zeroing the field. */
  lemma ReceiverAgrees(buf: seq<Byte>)
    requires Fits(buf) && |buf| >= PAYLOAD_POS + 8 && Field(buf, 2) == 0
    ensures var sent := Stamped(buf, ICMPV6);
      && Fits(WithField(sent, 2, 0))
      && Field(sent, 2) == ChecksumOf(WithField(sent, 2, 0))
  {
    hide ChecksumOf, BigEndian, Splice;
    var c := ChecksumOf(buf);
    ChecksumIsWord(buf);
    FieldOfWithField(buf, 2, c);
    FieldReplacedTwice(buf, 2, c, 0);
    ZeroField(buf, 2);
    assert WithField(buf, 2, 0) == buf;
  }

  lemma ChecksumIsWord(buf: seq<Byte>)
    requires Fits(buf)
    ensures ChecksumOf(buf) < WORD
  {
  }

  /** A number in eight bits. */
  function Wrap8(x: int): Byte {
    x % 256
  }

  lemma Wrapped(start: Byte, units: nat, more: nat)
    ensures Wrap8(start as int + 8 * 0) == start
    ensures Wrap8(Wrap8(start as int + 8 * units) as int + 8 * more) == Wrap8(start as int + 8 * (units + more))
  {
    WrapsLater(start as int + 8 * units, 8 * more);
  }

  lemma WrapsLater(x: nat, y: nat)
    ensures Wrap8(Wrap8(x) as int + y) == Wrap8(x + y)
  {
  }

  /** A stored next header is what counts; without one UDP and ICMPv6 are known, and nothing else. */
  lemma StoredCounts(stored: Byte, inPacket: Byte)
    ensures stored != 0 ==> NextHeaderOf(stored, inPacket) == stored
    ensures stored == 0 && (inPacket == 17 || inPacket == 58) ==> NextHeaderOf(stored, inPacket) == inPacket
    ensures stored == 0 && inPacket != 17 && inPacket != 58 ==> NextHeaderOf(stored, inPacket) == 255
    ensures ICMPV6 == 58 && UDP == 17
  {
  }

  /** The next header of the transport layer, from the stored one and the one in the packet. */
  function NextHeaderOf(stored: Byte, inPacket: Byte): Byte {
    if stored != 0 then stored else if inPacket == UDP || inPacket == ICMPV6 then inPacket else 255
  }

  class IPv6Packet {
    const buffer: array<Byte>
    const littleEndian: bool
    /** The stored next-header value; 0 when none is stored. */
    var transportNextHeader: Byte
    /** Where the transport header starts; the walk over extension headers moves it, in eight bits. */
    var transportPos: Byte
    var valid: bool
    var ndInstallation: bool
    var targetInterface: Byte
    var remoteLlAddress: nat

    constructor (memory: array<Byte>, littleEndian: bool)
      ensures buffer == memory && this.littleEndian == littleEndian && !valid
    {
      buffer, this.littleEndian := memory, littleEndian;
      transportNextHeader, valid, ndInstallation, targetInterface, remoteLlAddress := 0, false, false, 0, 0;
      transportPos := PAYLOAD_POS;
    }

    /** Assignment of a new packet: an empty buffer of version 6, no next header yet, nothing marked. */
    method Reset()
      requires buffer.Length >= BUFFER_SIZE
      modifies this, buffer
      ensures buffer[0] == 0x60 && buffer[NEXT_HEADER_BYTE] == NEXT_HEADER_NOT_SET
      ensures forall i | 1 <= i < BUFFER_SIZE && i != NEXT_HEADER_BYTE :: buffer[i] == 0
      ensures transportNextHeader == 0 && !valid && !ndInstallation
      ensures targetInterface == PrefixTable.NUMBER_OF_INTERFACES
      ensures remoteLlAddress == 0 && transportPos == PAYLOAD_POS
    {
      forall i | 0 <= i < BUFFER_SIZE {
        buffer[i] := 0;
      }
      buffer[0], buffer[NEXT_HEADER_BYTE] := 0x60, NEXT_HEADER_NOT_SET;
      transportNextHeader, valid, ndInstallation, targetInterface, remoteLlAddress := 0, false, false,
        PrefixTable.NUMBER_OF_INTERFACES, 0;
      transportPos := PAYLOAD_POS;
    }

    /** The header fields of whole bytes: length, hop limit, addresses. */
    method SetHeader(at: nat, bs: seq<Byte>)
      requires at + |bs| <= PAYLOAD_POS <= buffer.Length
      modifies buffer
      ensures buffer[..] == Splice(old(buffer[..]), at, bs)
    {
      forall i | at <= i < at + |bs| {
        buffer[i] := bs[i - at];
      }
    }

    /** set_payload<T>: the elements, given as they lie in memory, go behind each other into the payload. */
    method SetPayload(images: seq<seq<Byte>>, shift: nat)
      requires PAYLOAD_POS + shift + |AllOnWire(images, littleEndian)| <= buffer.Length
      modifies buffer
      ensures buffer[..] == Splice(old(buffer[..]), PAYLOAD_POS + shift, AllOnWire(images, littleEndian))
    {
      hide Splice, OnWire, AllOnWire;
      ghost var before, all, start := buffer[..], AllOnWire(images, littleEndian), PAYLOAD_POS + shift;
      var at, rest := PAYLOAD_POS + shift, images;
      ghost var done: seq<Byte> := [];
      NothingWritten(before, start, images, littleEndian);
      while rest != []
        invariant at == start + |done|
        invariant all == done + AllOnWire(rest, littleEndian)
        invariant start + |done| <= |before| && buffer[..] == Splice(before, start, done)
        decreases |rest|
      {
        OneMoreWritten(before, start, done, rest, littleEndian);
        SetElement(rest[0], at);
        done := done + OnWire(rest[0], littleEndian);
        at := at + |rest[0]|;
        rest := rest[1..];
      }
      NothingWritten(before, start, [], littleEndian);
      assert done + [] == done;
    }

    method SetElement(image: seq<Byte>, at: nat)
      requires at + |image| <= buffer.Length
      modifies buffer
      ensures buffer[..] == Splice(old(buffer[..]), at, OnWire(image, littleEndian))
    {
      var n := |image|;
      for i := 0 to n
        invariant forall k | 0 <= k < buffer.Length :: (buffer[k] ==
            if at <= k < at + n && (if littleEndian then at + n - 1 - k < i else k - at < i)
            then OnWire(image, littleEndian)[k - at] else old(buffer[k]))
      {
        if littleEndian {
          buffer[at + n - 1 - i] := image[i];
        } else {
          buffer[at + i] := image[i];
        }
      }
    }

    /** set_payload for one unsigned number of `size` bytes. */
    method PutUint(v: nat, size: nat, shift: nat)
      requires PAYLOAD_POS + shift + size <= buffer.Length
      modifies buffer
      ensures buffer[..] == Splice(old(buffer[..]), PAYLOAD_POS + shift, BigEndian(v, size))
    {
      NetworkOrder(v, size, littleEndian);
      SetPayload([NativeImage(v, size, littleEndian)], shift);
    }

    /** set_payload<uint8_t>( bs, shift, |bs| ) */
    method PutBytes(bs: seq<Byte>, shift: nat)
      requires PAYLOAD_POS + shift + |bs| <= buffer.Length
      modifies buffer
      ensures buffer[..] == Splice(old(buffer[..]), PAYLOAD_POS + shift, bs)
    {
      SinglesOnWire(bs, littleEndian);
      SetPayload(Singles(bs), shift);
    }

    /** Adds bytes of `data` to a 32-bit sum; `startOdd`: the first byte completes a word. */
    static method ChecksumSerialize(data: array<Byte>, offset: nat, length: nat, sum0: nat, startOdd: bool)
      returns (sum: nat)
      requires offset + length <= data.Length && length < WORD && sum0 < 0x1_0000_0000
      ensures sum == Wrap32(sum0 + PartSum(data[offset..offset + length], startOdd))
    {
      hide *;
      var at, len := offset, length;
      ghost var all := data[offset..offset + length];
      ghost var added: nat := 0;
      sum := sum0;
      NoWrap(sum0);
      FirstByte(all, startOdd);
      if startOdd && len > 0 {
        WrapAdd(sum0, data[at]);
        sum := Wrap32(sum + data[at]);
        added := data[at];
        at, len := at + 1, len - 1;
        assert all[1..] == data[at..at + len];
      }
      while len > 1
        invariant at + len == offset + length
        invariant sum == Wrap32(sum0 + added)
        invariant PartSum(all, startOdd) == added + WordSum(data[at..at + len])
        decreases len
      {
        ghost var rest := data[at..at + len];
        FirstWord(rest);
        assert rest[2..] == data[at + 2..at + len];
        AddWord(sum0 + added, data[at], data[at + 1]);
        sum := Wrap32(sum + Word(data[at], 0));
        sum := Wrap32(sum + data[at + 1]);
        added := added + Word(data[at], data[at + 1]);
        at, len := at + 2, len - 2;
      }
      ghost var rest := data[at..at + len];
      FirstWordOrNone(rest);
      if len > 0 {
        AddWord(sum0 + added, data[at], 0);
        sum := Wrap32(sum + Word(data[at], 0));
      }
    }

    method GenerateChecksum() returns (checksum: nat)
      requires Fits(buffer[..])
      ensures checksum == ChecksumOf(buffer[..])
    {
      hide WordSum, Covered, PseudoHeader, Wrap32;
      ghost var buf := buffer[..];
      var length := Word(buffer[LENGTH_BYTE], buffer[LENGTH_BYTE + 1]);
      PartsOfSum(buf);
      NoOverflow(buf);
      var sum := ChecksumSerialize(buffer, SOURCE_BYTE, 16, 0, false);
      NoWrap(WordSum(buf[SOURCE_BYTE..DESTINATION_BYTE]));
      ghost var total := sum;
      sum := ChecksumSerialize(buffer, DESTINATION_BYTE, 16, sum, false);
      total := total + WordSum(buf[DESTINATION_BYTE..PAYLOAD_POS]);
      NoWrap(total);
      var tmp := new Byte[] [0, 0, buffer[LENGTH_BYTE], buffer[LENGTH_BYTE + 1]];
      assert tmp[0..0 + 4] == [0, 0, buf[LENGTH_BYTE], buf[LENGTH_BYTE + 1]];
      sum := ChecksumSerialize(tmp, 0, 4, sum, false);
      total := total + WordSum([0, 0, buf[LENGTH_BYTE], buf[LENGTH_BYTE + 1]]);
      NoWrap(total);
      tmp[2], tmp[3] := 0, buffer[NEXT_HEADER_BYTE];
      assert tmp[0..0 + 4] == [0, 0, 0, buf[NEXT_HEADER_BYTE]];
      sum := ChecksumSerialize(tmp, 0, 4, sum, false);
      total := total + WordSum([0, 0, 0, buf[NEXT_HEADER_BYTE]]);
      NoWrap(total);
      sum := ChecksumSerialize(buffer, PAYLOAD_POS, length, sum, false);
      total := total + WordSum(buf[PAYLOAD_POS..PAYLOAD_POS + length]);
      NoWrap(total);
      sum := sum % WORD + sum / WORD;
      checksum := ALL_ONES - sum % WORD;
    }

    /** The next header of the transport layer; 255 when the header names neither UDP nor ICMPv6. In that case the
        transport position has been moved, else it stays. */
    method TransportNextHeader() returns (nextHeader: Byte)
      requires buffer.Length >= BUFFER_SIZE + 32
      modifies `transportNextHeader, `transportPos
      ensures nextHeader == NextHeaderOf(old(transportNextHeader), buffer[NEXT_HEADER_BYTE])
      ensures transportNextHeader == if nextHeader == 255 then old(transportNextHeader) else nextHeader
      ensures old(transportNextHeader) != 0 || nextHeader != 255 ==> transportPos == old(transportPos)
    {
      if transportNextHeader == 0 {
        if buffer[NEXT_HEADER_BYTE] != UDP && buffer[NEXT_HEADER_BYTE] != ICMPV6 {
          nextHeader := WalkExtensionHeaders();
          return;
        }
        transportNextHeader := buffer[NEXT_HEADER_BYTE];
      }
      return transportNextHeader;
    }

    /** The walk over extension headers. Its loop condition, that a byte is not UDP or is not ICMPv6, holds for every
        byte: so it always goes on until it has left the buffer, and then gives up. */
    method WalkExtensionHeaders() returns (nextHeader: Byte)
      requires buffer.Length >= BUFFER_SIZE + 32
      modifies `transportPos
      ensures nextHeader == 255
      ensures exists units: nat ::
        8 * units > BUFFER_SIZE - PAYLOAD_POS && transportPos == Wrap8(old(transportPos) as int + 8 * units)
    {
      hide Wrap8;
      var place: nat := PAYLOAD_POS;
      ghost var units: nat := 0;
      Wrapped(transportPos, 0, 0);
      while place <= BUFFER_SIZE
        invariant place == PAYLOAD_POS + 8 * units && transportPos == Wrap8(old(transportPos) as int + 8 * units)
        decreases BUFFER_SIZE + 1 - place
      {
        var more: nat := buffer[place + 1] as int + 1;
        Wrapped(old(transportPos), units, more);
        transportPos := Wrap8(transportPos as int + 8 * more);
        place := place + 8 * more;
        units := units + more;
      }
      nextHeader := 255;
    }

    /** The interface manager's part in sending: a zero checksum field is filled in. */
    method StampChecksum()
      requires Fits(buffer[..]) && buffer.Length >= BUFFER_SIZE + 32
      modifies `transportNextHeader, `transportPos, buffer
      ensures buffer[..] == Stamped(old(buffer[..]), NextHeaderOf(old(transportNextHeader),
        old(buffer[NEXT_HEADER_BYTE])))
    {
      hide ChecksumOf, Splice, BigEndian;
      ghost var before := buffer[..];
      var nextHeader := TransportNextHeader();
      assert Field(before, 2) == Word(buffer[PAYLOAD_POS + 2], buffer[PAYLOAD_POS + 3]);
      if Word(buffer[PAYLOAD_POS + 2], buffer[PAYLOAD_POS + 3]) == 0 && nextHeader == ICMPV6 {
        var checksum := GenerateChecksum();
        PutUint(checksum, 2, 2);
      }
      assert nextHeader != ICMPV6 ==>
          Field(before, 6) == Word(buffer[PAYLOAD_POS + 6], buffer[PAYLOAD_POS + 7]);
      if Word(buffer[PAYLOAD_POS + 6], buffer[PAYLOAD_POS + 7]) == 0 && nextHeader == UDP {
        var checksum := GenerateChecksum();
        PutUint(checksum, 2, 6);
      }
    }

    /** The receiver's part: the field is zeroed, and the sum of what remains compared with it. */
    method CheckChecksum() returns (ok: bool)
      requires Fits(buffer[..]) && buffer.Length >= PAYLOAD_POS + 8
      modifies buffer
      ensures buffer[..] == WithField(old(buffer[..]), 2, 0)
      ensures Fits(buffer[..]) && ok == (Field(old(buffer[..]), 2) == ChecksumOf(buffer[..]))
    {
      hide ChecksumOf, WithField;
      var stored := Word(buffer[PAYLOAD_POS + 2], buffer[PAYLOAD_POS + 3]);
      ghost var before := buffer[..];
      ZeroField(before, 2);
      buffer[PAYLOAD_POS + 2] := 0;
      buffer[PAYLOAD_POS + 3] := 0;
      assert buffer[..] == before[PAYLOAD_POS + 2 := 0][PAYLOAD_POS + 2 + 1 := 0];
      var computed := GenerateChecksum();
      ok := stored == computed;
    }
  }

  lemma NothingWritten(s: seq<Byte>, at: nat, images: seq<seq<Byte>>, little: bool)
    requires at <= |s|
    ensures Splice(s, at, []) == s && AllOnWire([], little) == []
    ensures AllOnWire(images, little) == [] + AllOnWire(images, little)
  {
  }

  lemma FirstOnWire(images: seq<seq<Byte>>, little: bool)
    requires images != []
    ensures AllOnWire(images, little) == OnWire(images[0], little) + AllOnWire(images[1..], little)
  {
  }

  lemma OneMoreWritten(s: seq<Byte>, at: nat, done: seq<Byte>, rest: seq<seq<Byte>>, little: bool)
    requires rest != [] && at + |done| + |AllOnWire(rest, little)| <= |s|
    ensures at + |done| + |rest[0]| <= |s|
    ensures Splice(Splice(s, at, done), at + |done|, OnWire(rest[0], little))
         == Splice(s, at, done + OnWire(rest[0], little))
    ensures done + AllOnWire(rest, little) == done + OnWire(rest[0], little) + AllOnWire(rest[1..], little)
  {
    hide *;
    var w, tail := OnWire(rest[0], little), AllOnWire(rest[1..], little);
    FirstOnWire(rest, little);
    SpliceTwice(s, at, done, w);
    assert done + (w + tail) == done + w + tail;
  }

  lemma FirstWord(b: seq<Byte>)
    requires |b| > 1
    ensures WordSum(b) == Word(b[0], b[1]) + WordSum(b[2..])
  {
  }

  lemma FirstWordOrNone(b: seq<Byte>)
    requires |b| <= 1
    ensures WordSum(b) == if b == [] then 0 else Word(b[0], 0)
  {
  }

  lemma FirstByte(b: seq<Byte>, startOdd: bool)
    ensures PartSum(b, startOdd) ==
      if startOdd && b != [] then b[0] + WordSum(b[1..]) else 0 + WordSum(b)
  {
  }

  /** A number in 32 bits. */
  function Wrap32(x: nat): (r: nat)
    ensures r < 0x1_0000_0000
  {
    x % 0x1_0000_0000
  }

  lemma NoWrap(x: nat)
    requires x < 0x1_0000_0000
    ensures Wrap32(x) == x
  {
  }

  lemma WrapAdd(s: nat, a: nat)
    ensures Wrap32(Wrap32(s) + a) == Wrap32(s + a)
  {
  }

  lemma AddWord(s: nat, high: Byte, low: Byte)
    ensures Wrap32(Wrap32(Wrap32(s) + Word(high, 0)) + low) == Wrap32(s + Word(high, low))
    ensures Wrap32(Wrap32(s) + Word(high, 0)) == Wrap32(s + Word(high, 0))
  {
    hide Wrap32;
    WrapAdd(s, Word(high, 0));
    WrapAdd(s + Word(high, 0), low);
  }
}
