/** The address type of ipv6_address.h: a prefix, an interface identifier and the U bit between them. */
module Ipv6Address {
  import opened Bytes

  /** Lengths of prefixes, in bits, that an address can hold. */
  type PrefixLength = n: int | 0 <= n <= 128

  /** An address as a value: what the class below stores. */
  datatype Address = Address(addr: seq<Byte>, prefixLength: PrefixLength)

  const U_BYTE: nat := 8

  function Zeros(n: nat): (r: seq<Byte>)
    ensures |r| == n
  {
    seq(n, _ => 0)
  }

  const NULL_ADDR: seq<Byte> := Zeros(16)

  predicate ValidIdSize(w: nat) {
    1 <= w <= 8
  }

  // ---------------------------------------------------------------------------------------------
  // The operations, on values
  // ---------------------------------------------------------------------------------------------

  function OrByte(a: Byte, b: Byte): Byte {
    ((a as bv8) | (b as bv8)) as Byte
  }

  /** The U bit is bit 1 of byte 8. */
  function WithU(b: Byte, global: bool): Byte {
    if (b / 2) % 2 == (if global then 1 else 0) then b else if global then b + 2 else b - 2
  }

  /** The indices that setting a prefix writes. */
  function Touched(length: nat): (s: set<nat>)
    ensures forall k: nat :: k in s <==> 8 * k < length
  {
    set k: nat | k < length && 8 * k < length :: k
  }

  /** The copy stays inside the sixteen bytes of an address exactly for lengths up to 128. */
  lemma CopyStaysInside(length: nat)
    ensures (forall k | k in Touched(length) :: k < 16) <==> length <= 128
  {
    assert length > 128 ==> 16 in Touched(length);
  }

  /** Whole bytes are copied; the rest of a prefix is or-ed in. */
  function WithPrefix(addr: seq<Byte>, prefix: seq<Byte>, length: PrefixLength): (r: seq<Byte>)
    requires |addr| == 16 && |prefix| >= 16
    ensures |r| == 16
    ensures forall k | 0 <= k < 16 && k !in Touched(length) :: r[k] == addr[k]
  {
    var full := length / 8;
    var copied := prefix[..full] + addr[full..];
    if length % 8 != 0 then copied[full := OrByte(addr[full], prefix[full])] else copied
  }

  function WithIid(addr: seq<Byte>, iid: nat, w: nat, global: bool): (r: seq<Byte>)
    requires |addr| == 16 && ValidIdSize(w)
    ensures |r| == 16
  {
    var placed := addr[..16 - w] + BigEndian(iid, w);
    placed[U_BYTE := WithU(placed[U_BYTE], global)]
  }

  function IidOf(addr: seq<Byte>, w: nat): nat
    requires |addr| == 16 && ValidIdSize(w)
  {
    if w == 8 then Value([WithU(addr[8], false)] + addr[9..]) else Value(addr[16 - w..])
  }

  /** The number of equal leading bytes. */
  function CommonPrefixFrom(a: seq<Byte>, b: seq<Byte>, i: nat): (n: nat)
    requires |a| == |b| == 16 && i <= 16
    ensures i <= n <= 16
    decreases 16 - i
  {
    if i < 16 && a[i] == b[i] then CommonPrefixFrom(a, b, i + 1) else i
  }

  predicate SameAddress(a: seq<Byte>, b: seq<Byte>)
    requires |a| == |b| == 16
  {
    CommonPrefixFrom(a, b, 0) == 16
  }

  /** The address a node forms from an advertised prefix and its own identifier. */
  function Formed(prefix: seq<Byte>, length: PrefixLength, iid: nat, w: nat): (r: seq<Byte>)
    requires |prefix| >= 16 && ValidIdSize(w)
    ensures |r| == 16
  {
    WithIid(WithPrefix(NULL_ADDR, prefix, length), iid, w, true)
  }

  // ---------------------------------------------------------------------------------------------
  // What they mean
  // ---------------------------------------------------------------------------------------------

  lemma {:induction false} CommonPrefixMeans(a: seq<Byte>, b: seq<Byte>, i: nat)
    requires |a| == |b| == 16 && i <= 16
    ensures var n := CommonPrefixFrom(a, b, i);
      (forall k | i <= k < n :: a[k] == b[k]) && (n < 16 ==> a[n] != b[n])
    decreases 16 - i
  {
    if i < 16 && a[i] == b[i] {
      CommonPrefixMeans(a, b, i + 1);
    }
  }

  /** The comparison is equality of all sixteen bytes. */
  lemma SameAddressMeans(a: seq<Byte>, b: seq<Byte>)
    requires |a| == |b| == 16
    ensures SameAddress(a, b) <==> a == b
  {
    CommonPrefixMeans(a, b, 0);
  }

  lemma IidSetsU(addr: seq<Byte>, iid: nat, w: nat)
    requires |addr| == 16 && ValidIdSize(w)
    ensures var r := WithIid(addr, iid, w, true); r[U_BYTE] / 2 % 2 == 1 && r[U_BYTE] != 0
  {
    var placed := addr[..16 - w] + BigEndian(iid, w);
    UBitSet(placed[U_BYTE]);
    hide WithU, BigEndian;
  }

  /** No formed address is the unspecified one, and its U bit says so. */
  lemma FormedIsNotNull(prefix: seq<Byte>, length: PrefixLength, iid: nat, w: nat)
    requires |prefix| >= 16 && ValidIdSize(w)
    ensures Formed(prefix, length, iid, w) != NULL_ADDR
    ensures Formed(prefix, length, iid, w)[U_BYTE] / 2 % 2 == 1
  {
    IidSetsU(WithPrefix(NULL_ADDR, prefix, length), iid, w);
    assert NULL_ADDR[U_BYTE] == 0;
  }

  lemma UBitSet(b: Byte)
    ensures WithU(b, true) / 2 % 2 == 1 && WithU(b, true) != 0
    ensures WithU(WithU(b, true), false) == WithU(b, false)
    ensures WithU(WithU(b, false), false) == WithU(b, false)
  {
  }

  lemma OrWithZero(b: Byte)
    ensures OrByte(0, b) == b
  {
    assert (0 as bv8) | (b as bv8) == b as bv8;
  }

  /** A formed address carries the whole bytes of the prefix, and the last partial byte, as far as they lie
      in front of the identifier and off the U bit. */
  lemma FormedKeepsPrefix(prefix: seq<Byte>, length: PrefixLength, iid: nat, w: nat, k: nat)
    requires |prefix| >= 16 && ValidIdSize(w)
    requires k < 16 - w && k != U_BYTE && 8 * k < length
    ensures Formed(prefix, length, iid, w)[k] == prefix[k]
  {
    OrWithZero(prefix[k]);
    hide OrByte, BigEndian;
  }

  /** The identifier with its U bit cleared. */
  function WithoutU(iid: nat): nat {
    if iid / 0x200_0000_0000_0000 % 2 == 1 then iid - 0x200_0000_0000_0000 else iid
  }

  /** Reading back an identifier: exact for identifiers shorter than eight bytes; an eight-byte one comes
      back with its U bit cleared. */
  lemma IidRoundTrip(addr: seq<Byte>, iid: nat, w: nat, global: bool)
    requires |addr| == 16 && ValidIdSize(w) && iid < Pow256(w)
    ensures w < 8 ==> IidOf(WithIid(addr, iid, w, global), w) == iid
    ensures w == 8 ==> IidOf(WithIid(addr, iid, w, global), w) == WithoutU(iid)
  {
    ValueOfBigEndian(iid, w);
    hide WithU, WithoutU, BigEndian, Value;
    if w < 8 {
      assert WithIid(addr, iid, w, global)[16 - w..] == BigEndian(iid, w);
    } else {
      EightByteIid(addr, BigEndian(iid, 8), global);
    }
  }

  lemma EightByteIid(addr: seq<Byte>, b: seq<Byte>, global: bool)
    requires |addr| == 16 && |b| == 8
    ensures var r := (addr[..8] + b)[U_BYTE := WithU((addr[..8] + b)[U_BYTE], global)];
      Value([WithU(r[8], false)] + r[9..]) == WithoutU(Value(b))
  {
    var c := [WithU(b[0], false)] + b[1..];
    UBitSet(b[0]);
    TopByte(b);
    TopByte(c);
    TopByteOfNumber(Value(b), b[0], Value(b[1..]));
    hide WithU, WithoutU, Value;
    var r := (addr[..8] + b)[U_BYTE := WithU(b[0], global)];
    assert [WithU(r[8], false)] + r[9..] == c;
    assert c[1..] == b[1..];
  }

  lemma TopByte(b: seq<Byte>)
    requires |b| == 8
    ensures Value(b) == b[0] as int * 0x100_0000_0000_0000 + Value(b[1..])
    ensures Value(b[1..]) < 0x100_0000_0000_0000
  {
    ValueAppend(b[..1], b[1..]);
    assert b == b[..1] + b[1..];
    assert b[..1][..0] == [];
    BigEndianOfValue(b[1..]);
    assert Pow256(7) == 0x100_0000_0000_0000 by {
      assert Pow256(3) == 0x100_0000;
      assert Pow256(5) == 256 * 256 * Pow256(3);
      assert Pow256(7) == 256 * 256 * Pow256(5);
    }
  }

  lemma TopByteOfNumber(n: nat, top: Byte, low: nat)
    requires low < 0x100_0000_0000_0000 && n == top as int * 0x100_0000_0000_0000 + low
    ensures n / 0x200_0000_0000_0000 % 2 == top as int / 2 % 2
    ensures WithoutU(n) == WithU(top, false) as int * 0x100_0000_0000_0000 + low
  {
    var h, l := top as int / 2, top as int % 2;
    assert n == h * 0x200_0000_0000_0000 + (l * 0x100_0000_0000_0000 + low);
    assert n / 0x200_0000_0000_0000 == h;
  }

  /** So an eight-byte identifier survives exactly when its U bit was clear. */
  lemma IidSurvives(addr: seq<Byte>, iid: nat, w: nat, global: bool)
    requires |addr| == 16 && ValidIdSize(w) && iid < Pow256(w)
    ensures IidOf(WithIid(addr, iid, w, global), w) == iid
      <==> w < 8 || iid / 0x200_0000_0000_0000 % 2 == 0
  {
    IidRoundTrip(addr, iid, w, global);
  }

  // ---------------------------------------------------------------------------------------------
  // In place
  // ---------------------------------------------------------------------------------------------

  class IPv6Address {
    const addr: array<Byte>
    var prefixLength: PrefixLength

    constructor ()
      ensures fresh(addr) && addr.Length == 16 && addr[..] == NULL_ADDR && prefixLength == 0
    {
      var bytes := new Byte[16](_ => 0);
      addr := bytes;
      prefixLength := 0;
      assert bytes[..] == NULL_ADDR;
    }

    /** A length above 128 makes the copy leave the sixteen bytes; nothing is said about the memory then. */
    method SetPrefix(prefix: seq<Byte>, length: Byte) returns (inside: bool)
      requires addr.Length == 16 && |prefix| >= 16
      modifies this, addr
      ensures inside <==> length <= 128
      ensures inside ==> addr[..] == WithPrefix(old(addr[..]), prefix, length) && prefixLength == length
    {
      hide OrByte;
      if length > 128 {
        return false;
      }
      var full := length / 8;
      forall k | 0 <= k < full {
        addr[k] := prefix[k];
      }
      if length % 8 != 0 {
        addr[full] := OrByte(addr[full], prefix[full]);
      }
      prefixLength := length;
      inside := true;
    }

    method SetLongIid(iid0: nat, w: nat, global: bool)
      requires addr.Length == 16 && ValidIdSize(w)
      modifies addr
      ensures addr[..] == WithIid(old(addr[..]), iid0, w, global)
    {
      hide WithU, BigEndian;
      ghost var before := addr[..];
      ghost var low: seq<Byte> := [];
      var iid := iid0;
      assert before[..16] + [] == before;
      assert BigEndian(iid0, w) == BigEndian(iid, w) + [];
      for i := 0 to w
        invariant |low| == i && BigEndian(iid0, w) == BigEndian(iid, w - i) + low
        invariant addr[..] == before[..16 - i] + low
      {
        LastByte(iid, w - i, low);
        PlacedByte(before, 15 - i, low, iid % 256);
        addr[15 - i] := iid % 256;
        var b: Byte := iid % 256;
        low := [b] + low;
        iid := iid / 256;
      }
      NoBytes(iid);
      assert [] + low == low;
      addr[U_BYTE] := WithU(addr[U_BYTE], global);
    }

    method GetIid(w: nat) returns (iid: nat)
      requires addr.Length == 16 && ValidIdSize(w)
      ensures iid == IidOf(addr[..], w)
    {
      hide WithU;
      iid := 0;
      var i: nat := w;
      ghost var bytes: seq<Byte> := if w == 8 then [WithU(addr[8], false)] + addr[9..] else addr[16 - w..];
      while i > 0
        invariant i <= w == |bytes| && iid == Value(bytes[..w - i])
      {
        var b := if w == 8 && i == 8 then WithU(addr[8], false) else addr[16 - i];
        assert bytes[..w - i + 1][..w - i] == bytes[..w - i] && bytes[w - i] == b;
        iid := iid * 256 + b;
        i := i - 1;
      }
      assert bytes[..w] == bytes;
    }

    method CommonPrefixLength(b: seq<Byte>) returns (same: nat)
      requires addr.Length == 16 && |b| == 16
      ensures same == CommonPrefixFrom(addr[..], b, 0)
    {
      same := 0;
      while same < 16
        invariant same <= 16 && CommonPrefixFrom(addr[..], b, 0) == CommonPrefixFrom(addr[..], b, same)
      {
        if addr[same] != b[same] {
          return;
        }
        same := same + 1;
      }
    }
  }

  lemma LastByte(v: nat, n: nat, low: seq<Byte>)
    requires n > 0
    ensures BigEndian(v, n) + low == BigEndian(v / 256, n - 1) + ([v % 256] + low)
  {
  }

  lemma NoBytes(v: nat)
    ensures BigEndian(v, 0) == []
  {
  }

  lemma PlacedByte(before: seq<Byte>, at: nat, low: seq<Byte>, b: Byte)
    requires at < |before| == at + 1 + |low|
    ensures (before[..at + 1] + low)[at := b] == before[..at] + ([b] + low)
  {
  }
}
