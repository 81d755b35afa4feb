/**
 * The options of the Neighbor Discovery messages of icmpv6.h: what the bytes of each one say, and the
 * loop that walks over them, driven by the length bytes of the message.
 *
 * Positions count from the start of the packet buffer, so the payload starts at position 40. The
 * multi-byte fields are big-endian; `w` is the size of a link-layer identifier. The readers may look up to
 * 32 bytes behind the end of a message.
 */
module NdOptions {
  import opened Bytes
  import opened Checksum
  import opened Ipv6Address

  const SOURCE_LL_ADDRESS: Byte := 1
  const DESTINATION_LL_ADDRESS: Byte := 2
  const PREFIX_INFORMATION: Byte := 3
  const ADDRESS_REGISTRATION: Byte := 33
  const LOWPAN_CONTEXT: Byte := 34
  const AUTHORITIVE_BORDER_ROUTER: Byte := 35

  lemma OptionTypes()
    ensures SOURCE_LL_ADDRESS == 1 && PREFIX_INFORMATION == 3 && ADDRESS_REGISTRATION == 33 && LOWPAN_CONTEXT == 34
  {
  }

  const HALF: nat := 0x1_0000
  const DEFAULT_ABRO_LIFETIME: nat := 10000

  datatype NdOption =
    | LinkLayer(id: nat)
    | PrefixInformation(prefixLength: Byte, onlink: bool, autonomous: bool, valid: nat, preferred: nat,
      prefix: seq<Byte>)
    | Registration(lifetime: nat, eui: nat)
    | Context(cid: nat, prefixLength: Byte, usable: bool, lifetime: nat, prefix: seq<Byte>)
    | BorderRouter(version: nat, lifetime: nat, router: seq<Byte>)

  /** The fields fit into the bytes that carry them. */
  predicate WellFormed(o: NdOption, w: nat) {
    match o
    case LinkLayer(id) => id < Pow256(w)
    case PrefixInformation(_, _, _, valid, preferred, prefix) =>
      valid < Pow256(4) && preferred < Pow256(4) && |prefix| == 16
    case Registration(lifetime, eui) => lifetime < Pow256(2) && eui < Pow256(8)
    case Context(cid, _, _, lifetime, prefix) => cid < 16 && lifetime < Pow256(2) && |prefix| == 16
    case BorderRouter(version, lifetime, router) => version < Pow256(4) && lifetime < Pow256(2) && |router| == 16
  }

  // ---------------------------------------------------------------------------------------------
  // Written options
  // ---------------------------------------------------------------------------------------------

  /** The bytes `bs` stand at position `at`. */
  predicate Has(d: seq<Byte>, at: nat, bs: seq<Byte>) {
    at + |bs| <= |d| && d[at..at + |bs|] == bs
  }

  /** A link-layer identifier needs one or two units of eight bytes. */
  function LinkLayerUnits(w: nat): Byte {
    if w + 2 < 8 then 1 else 2
  }

  function ContextUnits(prefixLength: Byte): Byte {
    if prefixLength > 64 then 3 else 2
  }

  function Units(o: NdOption, w: nat): Byte {
    match o
    case LinkLayer(_) => LinkLayerUnits(w)
    case PrefixInformation(_, _, _, _, _, _) => 4
    case Registration(_, _) => 2
    case Context(_, prefixLength, _, _, _) => ContextUnits(prefixLength)
    case BorderRouter(_, _, _) => 3
  }

  /** Lengths count in units of eight bytes. */
  function InBytes(units: Byte): nat {
    8 * (units as int)
  }

  function Size(o: NdOption, w: nat): (n: nat)
    ensures n >= 8
  {
    InBytes(Units(o, w))
  }

  function TypeOf(o: NdOption): Byte {
    match o
    case LinkLayer(_) => SOURCE_LL_ADDRESS
    case PrefixInformation(_, _, _, _, _, _) => PREFIX_INFORMATION
    case Registration(_, _) => ADDRESS_REGISTRATION
    case Context(_, _, _, _, _) => LOWPAN_CONTEXT
    case BorderRouter(_, _, _) => AUTHORITIVE_BORDER_ROUTER
  }

  /** The on-link and autonomous flags; without the former the length byte 4 is what is left in the variable. */
  function PrefixFlags(onlink: bool, autonomous: bool): Byte {
    (if onlink then 0x80 else 4) + if autonomous then 0x40 else 0
  }

  function ContextFlags(usable: bool, cid: nat): Byte
    requires cid < 16
  {
    (if usable then 0x10 else 0) + cid
  }

  /** The option is written at `at`; reserved bytes may hold anything. */
  predicate Holds(d: seq<Byte>, at: nat, o: NdOption, w: nat)
    requires WellFormed(o, w)
  {
    && at + Size(o, w) <= |d|
    && Has(d, at, [TypeOf(o)]) && Has(d, at + 1, [Units(o, w)])
    && match o
       case LinkLayer(id) => Has(d, at + 2, BigEndian(id, w))
       case PrefixInformation(prefixLength, onlink, autonomous, valid, preferred, prefix) =>
         && Has(d, at + 2, [prefixLength]) && Has(d, at + 3, [PrefixFlags(onlink, autonomous)])
         && Has(d, at + 4, BigEndian(valid, 4)) && Has(d, at + 8, BigEndian(preferred, 4)) && Has(d, at + 16, prefix)
       case Registration(lifetime, eui) => Has(d, at + 6, BigEndian(lifetime, 2)) && Has(d, at + 8, BigEndian(eui, 8))
       case Context(cid, prefixLength, usable, lifetime, prefix) =>
         && Has(d, at + 2, [prefixLength]) && Has(d, at + 3, [ContextFlags(usable, cid)])
         && Has(d, at + 6, BigEndian(lifetime, 2)) && Has(d, at + 8, prefix[..8 * (ContextUnits(prefixLength) - 1)])
       case BorderRouter(version, lifetime, router) =>
         Has(d, at + 2, BigEndian(version, 4)) && Has(d, at + 6, BigEndian(lifetime, 2)) && Has(d, at + 8, router)
  }

  predicate AllWellFormed(os: seq<NdOption>, w: nat) {
    forall i | 0 <= i < |os| :: WellFormed(os[i], w)
  }

  function SizeOfAll(os: seq<NdOption>, w: nat): nat {
    if os == [] then 0 else Size(os[0], w) + SizeOfAll(os[1..], w)
  }

  /** The options are written behind each other. */
  predicate Laid(d: seq<Byte>, at: nat, os: seq<NdOption>, w: nat)
    requires AllWellFormed(os, w)
    decreases os
  {
    os == [] || (Holds(d, at, os[0], w) && Laid(d, at + Size(os[0], w), os[1..], w))
  }

  // ---------------------------------------------------------------------------------------------
  // Reading
  // ---------------------------------------------------------------------------------------------

  function Field16(d: seq<Byte>, at: nat): nat
    requires at + 2 <= |d|
  {
    Word(d[at], d[at + 1])
  }

  function Field32(d: seq<Byte>, at: nat): nat
    requires at + 4 <= |d|
  {
    Field16(d, at) * HALF + Field16(d, at + 2)
  }

  /** The version is put together from its second half and its first. */
  function FieldVersion(d: seq<Byte>, at: nat): nat
    requires at + 4 <= |d|
  {
    Field16(d, at + 2) * HALF + Field16(d, at)
  }

  /** Some bit of a mask is set in a byte. */
  predicate AnyBit(b: Byte, mask: Byte) {
    (b as bv8) & (mask as bv8) > 0
  }

  /** What the reader of a type of option makes of the bytes at `at`. */
  function ReadLinkLayer(d: seq<Byte>, at: nat, w: nat): NdOption
    requires at + 2 + w <= |d|
  {
    LinkLayer(Value(d[at + 2..at + 2 + w]))
  }

  function ReadPrefix(d: seq<Byte>, at: nat): NdOption
    requires at + 32 <= |d|
  {
    PrefixInformation(d[at + 2], AnyBit(d[at + 3], 0x80), AnyBit(d[at + 3], 0x40),
                      Field32(d, at + 4), Field32(d, at + 8), d[at + 16..at + 32])
  }

  function ReadRegistration(d: seq<Byte>, at: nat): NdOption
    requires at + 16 <= |d|
  {
    Registration(Field16(d, at + 6), Value(d[at + 8..at + 16]))
  }

  function ReadBorderRouter(d: seq<Byte>, at: nat): NdOption
    requires at + 24 <= |d|
  {
    var lifetime := Field16(d, at + 6);
    BorderRouter(FieldVersion(d, at + 2), if lifetime == 0 then DEFAULT_ABRO_LIFETIME else lifetime,
                 d[at + 8..at + 24])
  }

  /** The bytes of prefix that the reader of a context copies into the sixteen bytes of the stored address. */
  function CopiedBytes(units: Byte): int {
    8 * (units as int - 1)
  }

  /** The copy stays inside the sixteen bytes exactly for options of up to three units. */
  lemma ContextCopyStaysInside(units: Byte)
    ensures CopiedBytes(units) <= 16 <==> units <= 3
  {
  }

  /** The flag is tested with the mask 10, which takes bits of the identifier for the flag. */
  function ReadContext(d: seq<Byte>, at: nat): NdOption
    requires at + 24 <= |d| && 0 < d[at + 1] <= 3
  {
    var copied := CopiedBytes(d[at + 1]);
    Context(d[at + 3] % 16, d[at + 2], AnyBit(d[at + 3], 10), Field16(d, at + 6),
      d[at + 8..at + 8 + copied] + Zeros(16 - copied))
  }

  /** The option loops: of solicitations and advertisements of routers and of neighbors. */
  datatype Loop = RouterSolicitations | RouterAdvertisements | NeighborMessages

  predicate Handled(loop: Loop, kind: Byte) {
    || kind == SOURCE_LL_ADDRESS
    || (loop.RouterAdvertisements? && (kind == PREFIX_INFORMATION || kind == LOWPAN_CONTEXT))
    || (loop.NeighborMessages? && kind == ADDRESS_REGISTRATION)
  }

  /** What the reader of the option at `at` copies stays inside the address it copies to. */
  predicate Contained(loop: Loop, d: seq<Byte>, at: nat)
    requires at + 32 <= |d|
  {
    loop.RouterAdvertisements? ==>
      && (d[at] == PREFIX_INFORMATION ==> d[at + 2] <= 128)
      && (d[at] == LOWPAN_CONTEXT ==> d[at + 1] <= 3)
  }

  /** One turn of a loop: the options it reads, none or one, and where it goes on. */
  function Turn(loop: Loop, d: seq<Byte>, at: nat, w: nat): (r: (seq<NdOption>, nat))
    requires ValidIdSize(w) && at + 32 <= |d| && d[at + 1] > 0 && Contained(loop, d, at)
    ensures r.1 >= at + 8 && (r.1 - at) % 8 == 0 && |r.0| <= 1
    ensures r.0 == [] <==> !Handled(loop, d[at])
  {
    if !Handled(loop, d[at]) then ([], at + InBytes(d[at + 1]))
    else if d[at] == SOURCE_LL_ADDRESS then ([ReadLinkLayer(d, at, w)], at + InBytes(d[at + 1]))
    else if d[at] == PREFIX_INFORMATION then ([ReadPrefix(d, at)], at + 32)
    else if d[at] == LOWPAN_CONTEXT then ([ReadContext(d, at)], at + 8)
    else ([ReadRegistration(d, at)], at + 16)
  }

  /** How a walk ends: behind the message, at an option of length zero, or at one whose copy leaves the memory it
      is meant for. */
  datatype Ending = Complete | ZeroLength | Spilled

  /** A finished walk: what was read, how it ended, and the last position. */
  datatype Walked = Walked(options: seq<NdOption>, ending: Ending, end: nat)

  /** The walk from `at` over a message that ends at `end`. */
  function Walk(loop: Loop, d: seq<Byte>, at: nat, end: nat, w: nat): (r: Walked)
    requires ValidIdSize(w) && end + 32 <= |d|
    decreases end - at
  {
    if at >= end then Walked([], Complete, at)
    else if d[at + 1] == 0 then Walked([], ZeroLength, at)
    else if !Contained(loop, d, at) then Walked([], Spilled, at)
    else
      var (read, next) := Turn(loop, d, at, w);
      var rest := Walk(loop, d, next, end, w);
      Walked(read + rest.options, rest.ending, rest.end)
  }

  /** A walk can go on from `at`. */
  predicate Going(loop: Loop, d: seq<Byte>, at: nat, end: nat)
    requires end + 32 <= |d|
  {
    at < end && d[at + 1] > 0 && Contained(loop, d, at)
  }

  /** The position of the first border router option, as the first loop over an advertisement finds it. */
  datatype Found = Nowhere | At(position: nat)

  function FindBorderRouter(d: seq<Byte>, at: nat, end: nat): (r: Found)
    requires end + 32 <= |d|
    ensures r.At? ==> at <= r.position < end && d[r.position] == AUTHORITIVE_BORDER_ROUTER
    decreases end - at
  {
    if at >= end || d[at + 1] == 0 then Nowhere
    else if d[at] == AUTHORITIVE_BORDER_ROUTER then At(at)
    else FindBorderRouter(d, at + InBytes(d[at + 1]), end)
  }

  // ---------------------------------------------------------------------------------------------
  // Reading gives back what was written
  // ---------------------------------------------------------------------------------------------

  /** The 16-bit halves of a 32-bit number exchanged. */
  function HalfSwap(v: nat): (r: nat)
    requires v < Pow256(4)
    ensures r < Pow256(4)
  {
    FourBytes();
    v % HALF * HALF + v / HALF
  }

  lemma FourBytes()
    ensures Pow256(4) == HALF * HALF && Pow256(2) == HALF
  {
    assert Pow256(2) == 256 * Pow256(1) == 256 * 256 * Pow256(0);
    assert Pow256(4) == 256 * Pow256(3) == 256 * 256 * Pow256(2);
  }

  /** Exchanging the halves is its own inverse; it changes nothing exactly when they are equal. */
  lemma HalfSwapTwice(v: nat)
    requires v < Pow256(4)
    ensures HalfSwap(HalfSwap(v)) == v
    ensures HalfSwap(v) == v <==> v / HALF == v % HALF
  {
    FourBytes();
    Halves(v);
    Halves(HalfSwap(v));
  }

  lemma Halves(v: nat)
    requires v < HALF * HALF
    ensures v == v / HALF * HALF + v % HALF && v / HALF < HALF
    ensures (v % HALF * HALF + v / HALF) / HALF == v % HALF && (v % HALF * HALF + v / HALF) % HALF == v / HALF
  {
  }

  lemma TwoBytes(v: nat)
    requires v < HALF
    ensures BigEndian(v, 2) == [v / 256, v % 256]
  {
    assert BigEndian(v, 2) == BigEndian(v / 256, 1) + [v % 256];
    assert BigEndian(v / 256, 1) == BigEndian(v / 256 / 256, 0) + [v / 256 % 256];
  }

  lemma Read16(d: seq<Byte>, at: nat, v: nat)
    requires v < Pow256(2) && Has(d, at, BigEndian(v, 2))
    ensures Field16(d, at) == v
  {
    FourBytes();
    TwoBytes(v);
    assert d[at] == d[at..at + 2][0] && d[at + 1] == d[at..at + 2][1];
  }

  lemma Read32(d: seq<Byte>, at: nat, v: nat)
    requires v < Pow256(4) && Has(d, at, BigEndian(v, 4))
    ensures Field32(d, at) == v && FieldVersion(d, at) == HalfSwap(v)
  {
    hide *;
    FourBytesAsHalves(v);
    HasParts(d, at, BigEndian(v / 0x1_0000, 2), BigEndian(v % 0x1_0000, 2));
    FourBytes();
    Small(v);
    Read16(d, at, v / 0x1_0000);
    Read16(d, at + 2, v % 0x1_0000);
    AsHalves(d, at, v);
  }

  lemma AsHalves(d: seq<Byte>, at: nat, v: nat)
    requires at + 4 <= |d| && v < Pow256(4) && Field16(d, at) == v / 0x1_0000 && Field16(d, at + 2) == v % 0x1_0000
    ensures Field32(d, at) == v && FieldVersion(d, at) == HalfSwap(v)
  {
    hide Field16, Pow256;
  }

  lemma Small(v: nat)
    requires v < Pow256(4)
    ensures v / 0x1_0000 < Pow256(2) && v % 0x1_0000 < Pow256(2)
  {
    FourBytes();
  }

  lemma FourBytesAsHalves(v: nat)
    requires v < Pow256(4)
    ensures BigEndian(v, 4) == BigEndian(v / 0x1_0000, 2) + BigEndian(v % 0x1_0000, 2)
  {
    FourBytes();
    TwoBytes(v / 0x1_0000);
    TwoBytes(v % 0x1_0000);
    assert BigEndian(v, 4) == BigEndian(v / 256, 3) + [v % 256];
    assert BigEndian(v / 256, 3) == BigEndian(v / 256 / 256, 2) + [v / 256 % 256];
    assert v / 256 / 256 == v / 0x1_0000;
    assert v / 256 % 256 == v % 0x1_0000 / 256 && v % 256 == v % 0x1_0000 % 256;
  }

  lemma HasParts(d: seq<Byte>, at: nat, a: seq<Byte>, b: seq<Byte>)
    requires Has(d, at, a + b)
    ensures Has(d, at, a) && Has(d, at + |a|, b) && at + |a| + |b| <= |d|
  {
    var all := d[at..at + |a + b|];
    assert d[at..at + |a|] == all[..|a|] && d[at + |a|..at + |a| + |b|] == all[|a|..];
  }

  lemma PrefixBits(onlink: bool, autonomous: bool)
    ensures AnyBit(PrefixFlags(onlink, autonomous), 0x80) <==> onlink
    ensures AnyBit(PrefixFlags(onlink, autonomous), 0x40) <==> autonomous
  {
  }

  /** The reader's mask sees bits 1 and 3 of the identifier instead of the flag. */
  lemma ContextBits(usable: bool, cid: nat)
    requires cid < 16
    ensures AnyBit(ContextFlags(usable, cid), 10) <==> cid / 2 % 2 == 1 || cid / 8 % 2 == 1
    ensures ContextFlags(usable, cid) % 16 == cid
  {
  }

  /** Reading gives back every field that was written, but for contexts and border routers. */
  lemma ReadsBack(d: seq<Byte>, at: nat, o: NdOption, w: nat)
    requires ValidIdSize(w) && at + 32 <= |d| && WellFormed(o, w) && Holds(d, at, o, w)
    ensures o.LinkLayer? ==> ReadLinkLayer(d, at, w) == o
    ensures o.PrefixInformation? ==> ReadPrefix(d, at) == o
    ensures o.Registration? ==> ReadRegistration(d, at) == o
  {
    hide Value, BigEndian, Field16, Field32, PrefixFlags, AnyBit;
    match o {
      case LinkLayer(id) =>
        ValueOfBigEndian(id, w);
      case PrefixInformation(prefixLength, onlink, autonomous, valid, preferred, prefix) =>
        Read32(d, at + 4, valid);
        Read32(d, at + 8, preferred);
        PrefixBits(onlink, autonomous);
        ByteAt(d, at + 2, prefixLength);
        ByteAt(d, at + 3, PrefixFlags(onlink, autonomous));
      case Registration(lifetime, eui) =>
        Read16(d, at + 6, lifetime);
        ValueOfBigEndian(eui, 8);
      case _ =>
    }
  }

  lemma ByteAt(d: seq<Byte>, at: nat, b: Byte)
    requires Has(d, at, [b])
    ensures at < |d| && d[at] == b
  {
    assert d[at] == d[at..at + 1][0];
  }

  /** A border router option comes back with the halves of its version exchanged, and 0 as 10000. */
  lemma BorderRouterReadsSwapped(d: seq<Byte>, at: nat, version: nat, lifetime: nat, router: seq<Byte>, w: nat)
    requires WellFormed(BorderRouter(version, lifetime, router), w)
    requires Holds(d, at, BorderRouter(version, lifetime, router), w)
    ensures ReadBorderRouter(d, at)
      == BorderRouter(HalfSwap(version), if lifetime == 0 then DEFAULT_ABRO_LIFETIME else lifetime, router)
  {
    hide Field16, FieldVersion, BigEndian, HalfSwap;
    Read32(d, at + 2, version);
    Read16(d, at + 6, lifetime);
  }

  /** So a version survives one hop exactly when its halves are equal, and two hops always. */
  lemma VersionOverHops(version: nat)
    requires version < Pow256(4)
    ensures HalfSwap(version) == version <==> version / HALF == version % HALF
    ensures HalfSwap(HalfSwap(version)) == version
  {
    HalfSwapTwice(version);
  }

  /** The receivers' order of versions: that of the low halves first. */
  lemma OrderOverOneHop(a: nat, b: nat)
    requires a < Pow256(4) && b < Pow256(4)
    ensures HalfSwap(a) <= HalfSwap(b) <==> a % HALF < b % HALF || (a % HALF == b % HALF && a / HALF <= b / HALF)
  {
    FourBytes();
    Halves(a);
    Halves(b);
  }

  /** A context comes back with its identifier, length, lifetime and prefix bytes, but its flag says whether
      bit 1 or bit 3 of the identifier is set; bytes behind the written ones become zero. */
  lemma ContextReads(d: seq<Byte>, at: nat, o: NdOption, w: nat)
    requires at + 32 <= |d| && o.Context? && WellFormed(o, w) && Holds(d, at, o, w)
    ensures d[at + 1] > 0
    ensures var k := 8 * (ContextUnits(o.prefixLength) - 1); var flag := o.cid / 2 % 2 == 1 || o.cid / 8 % 2 == 1;
      ReadContext(d, at) == o.(usable := flag, prefix := o.prefix[..k] + Zeros(16 - k))
  {
    hide BigEndian, Field16, ContextFlags, AnyBit;
    Read16(d, at + 6, o.lifetime);
    ContextBits(o.usable, o.cid);
    ByteAt(d, at + 1, ContextUnits(o.prefixLength));
    ByteAt(d, at + 2, o.prefixLength);
    ByteAt(d, at + 3, ContextFlags(o.usable, o.cid));
  }

  /** An advertised prefix whose length an address can hold; other loops do not copy prefixes. */
  predicate Holdable(loop: Loop, o: NdOption) {
    loop.RouterAdvertisements? && o.PrefixInformation? ==> o.prefixLength <= 128
  }

  predicate AllHoldable(loop: Loop, os: seq<NdOption>) {
    forall i | 0 <= i < |os| :: Holdable(loop, os[i])
  }

  /** One turn over a written option of any kind but a context steps over exactly that option. */
  lemma TurnReads(loop: Loop, d: seq<Byte>, at: nat, o: NdOption, w: nat)
    requires ValidIdSize(w) && at + 32 <= |d| && WellFormed(o, w) && Holds(d, at, o, w) && !o.Context?
    ensures d[at + 1] > 0 && (Contained(loop, d, at) <==> Holdable(loop, o))
    ensures Holdable(loop, o) ==>
      Turn(loop, d, at, w) == (if Handled(loop, TypeOf(o)) then [o] else [], at + Size(o, w))
  {
    ReadsBack(d, at, o, w);
    ByteAt(d, at, TypeOf(o));
    ByteAt(d, at + 1, Units(o, w));
    if o.PrefixInformation? {
      ByteAt(d, at + 2, o.prefixLength);
    }
    hide Holds, ReadLinkLayer, ReadPrefix, ReadRegistration, WellFormed;
  }

  /** How many bytes of an option its reader looks at, whatever its length byte says. */
  function Extent(loop: Loop, d: seq<Byte>, at: nat, w: nat): (n: nat)
    requires ValidIdSize(w) && at + 32 <= |d| && d[at + 1] > 0 && Contained(loop, d, at)
    ensures n <= 32
  {
    if !Handled(loop, d[at]) then 2
    else if d[at] == SOURCE_LL_ADDRESS then 2 + w
    else if d[at] == PREFIX_INFORMATION then 32
    else if d[at] == LOWPAN_CONTEXT then 8 + CopiedBytes(d[at + 1])
    else 16
  }

  /** A turn depends on these bytes only. So a turn leaves the message, or the buffer, exactly if they do. */
  lemma TurnDependsOn(loop: Loop, d: seq<Byte>, e: seq<Byte>, at: nat, w: nat)
    requires ValidIdSize(w) && at + 32 <= |d| && at + 32 <= |e| && d[at + 1] > 0 && Contained(loop, d, at)
    requires d[at..at + Extent(loop, d, at, w)] == e[at..at + Extent(loop, d, at, w)]
    ensures e[at + 1] > 0 && Contained(loop, e, at) && Turn(loop, e, at, w) == Turn(loop, d, at, w)
  {
    var n := Extent(loop, d, at, w);
    var a, b := d[at..at + n], e[at..at + n];
    assert forall j | at <= j < at + n :: d[j] == a[j - at] && e[j] == b[j - at];
    hide AnyBit, Value;
    if d[at] == SOURCE_LL_ADDRESS {
      assert d[at + 2..at + 2 + w] == e[at + 2..at + 2 + w];
    } else if Handled(loop, d[at]) && d[at] == PREFIX_INFORMATION {
      assert d[at + 16..at + 32] == e[at + 16..at + 32];
    } else if Handled(loop, d[at]) && d[at] == LOWPAN_CONTEXT {
      assert d[at + 8..at + n] == e[at + 8..at + n];
    } else if Handled(loop, d[at]) {
      assert d[at + 8..at + 16] == e[at + 8..at + 16];
    }
  }

  /** Readers of written options stay within them, so walks over what nodes write stay within the message. */
  lemma WrittenStaysWithin(loop: Loop, d: seq<Byte>, at: nat, o: NdOption, w: nat)
    requires ValidIdSize(w) && at + 32 <= |d| && WellFormed(o, w) && Holds(d, at, o, w)
    requires d[at + 1] > 0 && Contained(loop, d, at)
    ensures Extent(loop, d, at, w) <= Size(o, w)
  {
    ByteAt(d, at, TypeOf(o));
    ByteAt(d, at + 1, Units(o, w));
    hide Holds, WellFormed;
  }

  predicate NoContexts(os: seq<NdOption>) {
    forall i | 0 <= i < |os| :: !os[i].Context?
  }

  /** The options a loop handles. */
  function Only(loop: Loop, os: seq<NdOption>): seq<NdOption> {
    if os == [] then []
    else (if Handled(loop, TypeOf(os[0])) then [os[0]] else []) + Only(loop, os[1..])
  }

  /** The codec's round trip: every loop walks a list of options (no contexts) in exactly the written order,
      reads exactly those it handles with all their fields, and ends where the list ends; unless it is the loop
      over advertisements and the list holds a prefix longer than an address: then it spills. */
  lemma {:induction false} WalkReads(loop: Loop, d: seq<Byte>, at: nat, os: seq<NdOption>, w: nat)
    requires ValidIdSize(w) && AllWellFormed(os, w) && NoContexts(os) && Laid(d, at, os, w)
    requires at + SizeOfAll(os, w) + 32 <= |d|
    ensures AllHoldable(loop, os) ==>
      Walk(loop, d, at, at + SizeOfAll(os, w), w) == Walked(Only(loop, os), Complete, at + SizeOfAll(os, w))
    ensures !AllHoldable(loop, os) ==> Walk(loop, d, at, at + SizeOfAll(os, w), w).ending == Spilled
    decreases |os|
  {
    hide *;
    Lists(loop, d, at, os, w);
    HoldableFirst(loop, os);
    if os == [] {
      WalkStops(loop, d, at, at, w);
    } else {
      TurnReads(loop, d, at, os[0], w);
      if Holdable(loop, os[0]) {
        WalkReads(loop, d, at + Size(os[0], w), os[1..], w);
        WalkTurns(loop, d, at, at + SizeOfAll(os, w), w);
      } else {
        WalkStops(loop, d, at, at + SizeOfAll(os, w), w);
      }
    }
  }

  lemma HoldableFirst(loop: Loop, os: seq<NdOption>)
    ensures os == [] ==> AllHoldable(loop, os)
    ensures os != [] ==> (AllHoldable(loop, os) <==> Holdable(loop, os[0]) && AllHoldable(loop, os[1..]))
  {
    hide Holdable;
    if os != [] {
      assert os == [os[0]] + os[1..];
    }
  }

  /** The definitions over lists, unfolded once. */
  lemma Lists(loop: Loop, d: seq<Byte>, at: nat, os: seq<NdOption>, w: nat)
    requires AllWellFormed(os, w) && Laid(d, at, os, w)
    ensures os == [] ==> SizeOfAll(os, w) == 0 && Only(loop, os) == []
    ensures os != [] ==> WellFormed(os[0], w) && Holds(d, at, os[0], w) && Size(os[0], w) >= 8
    ensures os != [] ==> AllWellFormed(os[1..], w)
    ensures os != [] ==> Laid(d, at + Size(os[0], w), os[1..], w)
    ensures os != [] ==> SizeOfAll(os, w) == Size(os[0], w) + SizeOfAll(os[1..], w)
    ensures os != [] ==> Only(loop, os) == (if Handled(loop, TypeOf(os[0])) then [os[0]] else []) + Only(loop, os[1..])
    ensures os != [] && NoContexts(os) ==> !os[0].Context? && NoContexts(os[1..])
  {
    hide Holds, WellFormed, Handled, Units, TypeOf;
  }

  /** The walk, unfolded once. */
  lemma WalkTurns(loop: Loop, d: seq<Byte>, at: nat, end: nat, w: nat)
    requires ValidIdSize(w) && at < end && end + 32 <= |d| && d[at + 1] > 0 && Contained(loop, d, at)
    ensures var (read, next) := Turn(loop, d, at, w); var rest := Walk(loop, d, next, end, w);
      Walk(loop, d, at, end, w) == Walked(read + rest.options, rest.ending, rest.end)
  {
    hide Turn;
  }

  lemma WalkStops(loop: Loop, d: seq<Byte>, at: nat, end: nat, w: nat)
    requires ValidIdSize(w) && end + 32 <= |d| && (at >= end || d[at + 1] == 0 || !Contained(loop, d, at))
    ensures Walk(loop, d, at, end, w)
      == Walked([], if at >= end then Complete else if d[at + 1] == 0 then ZeroLength else Spilled, at)
  {
    hide Turn;
  }

  /** The first loop finds the first border router option of a list of options. */
  lemma {:induction false} FindsBorderRouter(d: seq<Byte>, at: nat, os: seq<NdOption>, w: nat)
    requires ValidIdSize(w) && AllWellFormed(os, w) && Laid(d, at, os, w)
    requires at + SizeOfAll(os, w) + 32 <= |d|
    ensures FindBorderRouter(d, at, at + SizeOfAll(os, w)) == FirstBorderRouter(at, os, w)
    decreases |os|
  {
    hide *;
    Lists(RouterAdvertisements, d, at, os, w);
    if os == [] {
      FindOnce(d, at, at);
    } else {
      Head(d, at, os[0], w);
      FindOnce(d, at, at + SizeOfAll(os, w));
      FindsBorderRouter(d, at + Size(os[0], w), os[1..], w);
    }
    FirstOnce(at, os, w);
  }

  lemma Head(d: seq<Byte>, at: nat, o: NdOption, w: nat)
    requires WellFormed(o, w) && Holds(d, at, o, w)
    ensures at + 8 <= |d| && d[at + 1] > 0 && InBytes(d[at + 1]) == Size(o, w)
    ensures d[at] == AUTHORITIVE_BORDER_ROUTER <==> o.BorderRouter?
  {
    ByteAt(d, at, TypeOf(o));
    ByteAt(d, at + 1, Units(o, w));
    hide Holds, WellFormed;
  }

  lemma FindOnce(d: seq<Byte>, at: nat, end: nat)
    requires end + 32 <= |d|
    ensures at >= end || d[at + 1] == 0 ==> FindBorderRouter(d, at, end) == Nowhere
    ensures at < end && d[at + 1] > 0 ==>
      FindBorderRouter(d, at, end)
        == (if d[at] == AUTHORITIVE_BORDER_ROUTER then At(at) else FindBorderRouter(d, at + InBytes(d[at + 1]), end))
  {
  }

  lemma FirstOnce(at: nat, os: seq<NdOption>, w: nat)
    ensures FirstBorderRouter(at, os, w) == (if os == [] then Nowhere
      else if os[0].BorderRouter? then At(at) else FirstBorderRouter(at + Size(os[0], w), os[1..], w))
  {
  }

  function FirstBorderRouter(at: nat, os: seq<NdOption>, w: nat): Found
    decreases os
  {
    if os == [] then Nowhere
    else if os[0].BorderRouter? then At(at)
    else FirstBorderRouter(at + Size(os[0], w), os[1..], w)
  }

  /** Whatever the bytes are, a walk goes on in steps of eight bytes and stops at the end of the message, at an
      option whose length is zero, or at one whose copy would not stay inside its address. */
  lemma {:induction false} WalkEnds(loop: Loop, d: seq<Byte>, at: nat, end: nat, w: nat)
    requires ValidIdSize(w) && end + 32 <= |d|
    ensures var r := Walk(loop, d, at, end, w);
      && at <= r.end && (r.end - at) % 8 == 0 && 8 * |r.options| <= r.end - at
      && (r.ending == Complete <==> r.end >= end)
      && (r.ending == ZeroLength <==> r.end < end && d[r.end + 1] == 0)
      && (r.ending == Spilled <==> r.end < end && d[r.end + 1] > 0 && !Contained(loop, d, r.end))
    decreases end - at
  {
    hide Turn, Walk, Contained;
    if at < end && d[at + 1] > 0 && Contained(loop, d, at) {
      WalkTurns(loop, d, at, end, w);
      TurnAdvances(loop, d, at, w);
      WalkEnds(loop, d, Turn(loop, d, at, w).1, end, w);
    } else {
      WalkStops(loop, d, at, end, w);
    }
  }

  lemma TurnAdvances(loop: Loop, d: seq<Byte>, at: nat, w: nat)
    requires ValidIdSize(w) && at + 32 <= |d| && d[at + 1] > 0 && Contained(loop, d, at)
    ensures var (read, next) := Turn(loop, d, at, w); next >= at + 8 && (next - at) % 8 == 0 && |read| <= 1
  {
  }

  // ---------------------------------------------------------------------------------------------
  // Walking over contexts
  // ---------------------------------------------------------------------------------------------

  /** The walk over a context option goes on inside it, in front of the prefix. */
  lemma ContextDerails(d: seq<Byte>, at: nat, o: NdOption, w: nat)
    requires ValidIdSize(w) && at + 32 <= |d| && o.Context? && WellFormed(o, w) && Holds(d, at, o, w)
    ensures 0 < d[at + 1] <= 3 && Contained(RouterAdvertisements, d, at)
    ensures Turn(RouterAdvertisements, d, at, w) == ([ReadContext(d, at)], at + 8)
  {
    ByteAt(d, at, LOWPAN_CONTEXT);
    ByteAt(d, at + 1, ContextUnits(o.prefixLength));
    hide Holds, ReadContext, WellFormed;
  }

  /** Turns over an advertisement that start at `at` come to stand at `goal`. */
  predicate Lands(d: seq<Byte>, at: nat, goal: nat, w: nat)
    requires ValidIdSize(w) && goal + 32 <= |d|
    decreases goal - at
  {
    if at >= goal then at == goal
    else Going(RouterAdvertisements, d, at, goal) && Lands(d, Turn(RouterAdvertisements, d, at, w).1, goal, w)
  }

  /** What these turns read. */
  function ReadUpTo(d: seq<Byte>, at: nat, goal: nat, w: nat): seq<NdOption>
    requires ValidIdSize(w) && goal + 32 <= |d| && Lands(d, at, goal, w)
    decreases goal - at
  {
    if at >= goal then []
    else
      var (read, next) := Turn(RouterAdvertisements, d, at, w);
      read + ReadUpTo(d, next, goal, w)
  }

  /** A walk that comes to stand at a position goes on from there. */
  lemma {:induction false} WalkAcross(d: seq<Byte>, at: nat, goal: nat, end: nat, w: nat)
    requires ValidIdSize(w) && goal <= end && end + 32 <= |d| && Lands(d, at, goal, w)
    ensures var rest := Walk(RouterAdvertisements, d, goal, end, w);
      Walk(RouterAdvertisements, d, at, end, w)
        == Walked(ReadUpTo(d, at, goal, w) + rest.options, rest.ending, rest.end)
    decreases goal - at
  {
    hide Turn, Walk, Contained;
    var rest := Walk(RouterAdvertisements, d, goal, end, w);
    if at < goal {
      var (read, next) := Turn(RouterAdvertisements, d, at, w);
      WalkTurns(RouterAdvertisements, d, at, end, w);
      TurnAdvances(RouterAdvertisements, d, at, w);
      WalkAcross(d, next, goal, end, w);
      assert read + (ReadUpTo(d, next, goal, w) + rest.options) == read + ReadUpTo(d, next, goal, w) + rest.options;
    } else {
      assert [] + rest.options == rest.options;
    }
  }

  /** Two bytes that, as type and length of an option, make a turn of eight bytes. */
  predicate StepsEight(kind: Byte, length: Byte) {
    (kind == LOWPAN_CONTEXT && 0 < length <= 3) || (length == 1 && kind != PREFIX_INFORMATION)
  }

  /** The prefix of a context brings the walk back in step, at the end of its option. */
  predicate InStep(o: NdOption)
    requires o.Context? && |o.prefix| == 16
  {
    if o.prefixLength <= 64 then StepsEight(o.prefix[0], o.prefix[1])
    else
      || (o.prefix[1] == 2 && o.prefix[0] != PREFIX_INFORMATION && o.prefix[0] != LOWPAN_CONTEXT)
      || (StepsEight(o.prefix[0], o.prefix[1]) && StepsEight(o.prefix[8], o.prefix[9]))
  }

  /** For every context: the walk, which goes on inside the option, comes to stand at the end of the option exactly
      when the bytes of the prefix say so. */
  lemma ContextInStep(d: seq<Byte>, at: nat, o: NdOption, w: nat)
    requires ValidIdSize(w) && at + Size(o, w) + 32 <= |d| && o.Context? && WellFormed(o, w) && Holds(d, at, o, w)
    ensures Lands(d, at + 8, at + Size(o, w), w) <==> InStep(o)
  {
    hide Turn, ReadContext, ReadLinkLayer, ReadPrefix, BigEndian;
    var goal := at + Size(o, w);
    PrefixBytes(d, at, o, w);
    EightTurn(d, at + 8, w);
    if Going(RouterAdvertisements, d, at + 8, goal) {
      LandsOnce(d, at + 8, goal, w);
      LandsOnce(d, Turn(RouterAdvertisements, d, at + 8, w).1, goal, w);
    }
    if o.prefixLength > 64 {
      EightTurn(d, at + 16, w);
      if Going(RouterAdvertisements, d, at + 16, goal) {
        LandsOnce(d, at + 16, goal, w);
        LandsOnce(d, Turn(RouterAdvertisements, d, at + 16, w).1, goal, w);
      }
    }
  }

  lemma LandsOnce(d: seq<Byte>, at: nat, goal: nat, w: nat)
    requires ValidIdSize(w) && goal + 32 <= |d|
    ensures at >= goal ==> (Lands(d, at, goal, w) <==> at == goal)
    ensures Going(RouterAdvertisements, d, at, goal) ==>
      (Lands(d, at, goal, w) <==> Lands(d, Turn(RouterAdvertisements, d, at, w).1, goal, w))
    ensures at < goal && !Going(RouterAdvertisements, d, at, goal) ==> !Lands(d, at, goal, w)
  {
    hide Turn, Contained;
  }

  /** The bytes of the prefix, where the walk takes them for options. */
  lemma PrefixBytes(d: seq<Byte>, at: nat, o: NdOption, w: nat)
    requires at + Size(o, w) <= |d| && o.Context? && WellFormed(o, w) && Holds(d, at, o, w)
    ensures at + 16 <= |d| && d[at + 8] == o.prefix[0] && d[at + 9] == o.prefix[1]
    ensures o.prefixLength > 64 ==> at + 24 <= |d| && d[at + 16] == o.prefix[8] && d[at + 17] == o.prefix[9]
  {
    var n := 8 * (ContextUnits(o.prefixLength) - 1);
    assert d[at + 8..at + 8 + n] == o.prefix[..n];
    assert d[at + 8] == d[at + 8..at + 8 + n][0] && d[at + 9] == d[at + 8..at + 8 + n][1];
    if o.prefixLength > 64 {
      assert d[at + 16] == d[at + 8..at + 8 + n][8] && d[at + 17] == d[at + 8..at + 8 + n][9];
    }
  }

  /** Where one turn goes. */
  lemma EightTurn(d: seq<Byte>, at: nat, w: nat)
    requires ValidIdSize(w) && at + 32 <= |d|
    ensures d[at + 1] > 0 && Contained(RouterAdvertisements, d, at) ==>
      var next := Turn(RouterAdvertisements, d, at, w).1;
      && next >= at + 8
      && (next == at + 8 <==> StepsEight(d[at], d[at + 1]))
      && (next == at + 16 <==> d[at + 1] == 2 && d[at] != PREFIX_INFORMATION && d[at] != LOWPAN_CONTEXT)
    ensures StepsEight(d[at], d[at + 1]) ==> d[at + 1] > 0 && Contained(RouterAdvertisements, d, at)
    ensures d[at + 1] == 2 && d[at] != PREFIX_INFORMATION && d[at] != LOWPAN_CONTEXT ==>
      Contained(RouterAdvertisements, d, at)
  {
    hide ReadContext, ReadLinkLayer, ReadPrefix;
  }

  predicate AllInStep(os: seq<NdOption>) {
    forall i | 0 <= i < |os| :: os[i].Context? ==> |os[i].prefix| == 16 && InStep(os[i])
  }

  /** What the walk over an advertisement reads of a list whose contexts are in step: of a context also what its
      prefix looks like. */
  function Readings(d: seq<Byte>, at: nat, os: seq<NdOption>, w: nat): seq<NdOption>
    requires ValidIdSize(w) && AllWellFormed(os, w) && Laid(d, at, os, w) && at + SizeOfAll(os, w) + 32 <= |d|
    decreases |os|
  {
    if os == [] then []
    else
      var next := at + Size(os[0], w);
      var first :=
        if os[0].Context? then
          if Going(RouterAdvertisements, d, at, next) && Lands(d, at, next, w) then ReadUpTo(d, at, next, w) else []
        else if Handled(RouterAdvertisements, TypeOf(os[0])) then [os[0]] else [];
      first + Readings(d, next, os[1..], w)
  }

  lemma ReadingsOnce(d: seq<Byte>, at: nat, os: seq<NdOption>, next: nat, w: nat)
    requires ValidIdSize(w) && AllWellFormed(os, w) && Laid(d, at, os, w) && at + SizeOfAll(os, w) + 32 <= |d|
    requires os != [] && next == at + Size(os[0], w) && next + 32 <= |d|
    requires AllWellFormed(os[1..], w) && Laid(d, next, os[1..], w) && next + SizeOfAll(os[1..], w) + 32 <= |d|
    ensures os[0].Context? && Going(RouterAdvertisements, d, at, next) && Lands(d, at, next, w) ==>
      Readings(d, at, os, w) == ReadUpTo(d, at, next, w) + Readings(d, next, os[1..], w)
    ensures !os[0].Context? ==>
      Readings(d, at, os, w)
        == (if Handled(RouterAdvertisements, TypeOf(os[0])) then [os[0]] else []) + Readings(d, next, os[1..], w)
  {
    hide Holds, WellFormed, Handled, Going, Lands, ReadUpTo;
  }

  lemma ReadingsOfNone(d: seq<Byte>, at: nat, w: nat)
    requires ValidIdSize(w) && at + 32 <= |d|
    ensures Readings(d, at, [], w) == []
  {
  }

  /** The round trip with contexts: if all of them are in step, the walk over an advertisement reads the list in its
      order and ends where the list ends, though it also reads what the prefixes of contexts look like. */
  lemma {:induction false} WalkReadsInStep(d: seq<Byte>, at: nat, os: seq<NdOption>, w: nat)
    requires ValidIdSize(w) && AllWellFormed(os, w) && Laid(d, at, os, w) && at + SizeOfAll(os, w) + 32 <= |d|
    requires AllHoldable(RouterAdvertisements, os) && AllInStep(os)
    ensures Walk(RouterAdvertisements, d, at, at + SizeOfAll(os, w), w)
      == Walked(Readings(d, at, os, w), Complete, at + SizeOfAll(os, w))
    decreases |os|
  {
    hide *;
    Lists(RouterAdvertisements, d, at, os, w);
    HoldableFirst(RouterAdvertisements, os);
    InStepFirst(os);
    if os == [] {
      ReadingsOfNone(d, at, w);
      WalkStops(RouterAdvertisements, d, at, at, w);
    } else {
      var next, end := at + Size(os[0], w), at + SizeOfAll(os, w);
      WalkReadsInStep(d, next, os[1..], w);
      ReadingsOnce(d, at, os, next, w);
      if os[0].Context? {
        ContextDerails(d, at, os[0], w);
        ContextInStep(d, at, os[0], w);
        ContextLands(d, at, os[0], w);
        WalkAcross(d, at, next, end, w);
      } else {
        TurnReads(RouterAdvertisements, d, at, os[0], w);
        WalkTurns(RouterAdvertisements, d, at, end, w);
      }
    }
  }

  lemma InStepFirst(os: seq<NdOption>)
    ensures os != [] && AllInStep(os) ==> AllInStep(os[1..])
    ensures os != [] && AllInStep(os) && os[0].Context? ==> |os[0].prefix| == 16 && InStep(os[0])
  {
    hide InStep;
  }

  /** A context whose inside lands at its end lands there itself. */
  lemma ContextLands(d: seq<Byte>, at: nat, o: NdOption, w: nat)
    requires ValidIdSize(w) && at + Size(o, w) + 32 <= |d| && o.Context? && WellFormed(o, w) && Holds(d, at, o, w)
    ensures Going(RouterAdvertisements, d, at, at + Size(o, w))
    ensures Lands(d, at, at + Size(o, w), w) <==> InStep(o)
    ensures InStep(o) ==>
      Lands(d, at + 8, at + Size(o, w), w)
      && ReadUpTo(d, at, at + Size(o, w), w) == [ReadContext(d, at)] + ReadUpTo(d, at + 8, at + Size(o, w), w)
  {
    hide Turn, InStep, ReadContext, Holds, WellFormed, Contained;
    ContextDerails(d, at, o, w);
    ContextInStep(d, at, o, w);
    LandsOnce(d, at, at + Size(o, w), w);
  }

  /** A context in step whose prefix does not look like an option that the loop handles is read alone. */
  predicate Quiet(o: NdOption)
    requires o.Context? && |o.prefix| == 16
  {
    && InStep(o) && !Handled(RouterAdvertisements, o.prefix[0])
    && (o.prefixLength > 64 && o.prefix[1] == 1 ==> !Handled(RouterAdvertisements, o.prefix[8]))
  }

  /** A context in step is read alone exactly if it is quiet; else something is read besides. */
  lemma QuietIsReadAlone(d: seq<Byte>, at: nat, o: NdOption, w: nat)
    requires ValidIdSize(w) && at + Size(o, w) + 32 <= |d| && o.Context? && WellFormed(o, w) && Holds(d, at, o, w)
    requires InStep(o)
    ensures 0 < d[at + 1] <= 3 && Lands(d, at, at + Size(o, w), w)
    ensures Quiet(o) ==> ReadUpTo(d, at, at + Size(o, w), w) == [ReadContext(d, at)]
    ensures !Quiet(o) ==> |ReadUpTo(d, at, at + Size(o, w), w)| > 1
  {
    ContextDerails(d, at, o, w);
    ContextLands(d, at, o, w);
    PrefixBytes(d, at, o, w);
    EightTurn(d, at + 8, w);
    if o.prefixLength > 64 {
      EightTurn(d, at + 16, w);
    }
    hide ReadContext, ReadLinkLayer, ReadPrefix, Holds, WellFormed;
    var goal := at + Size(o, w);
    assert ReadUpTo(d, goal, goal, w) == [];
    var next := Turn(RouterAdvertisements, d, at + 8, w).1;
    assert ReadUpTo(d, at + 8, goal, w) == Turn(RouterAdvertisements, d, at + 8, w).0 + ReadUpTo(d, next, goal, w);
    if next < goal {
      assert ReadUpTo(d, next, goal, w) == Turn(RouterAdvertisements, d, next, w).0 + ReadUpTo(d, goal, goal, w);
    }
  }

  /** What the readers make of an option: of a context they take the flag from its identifier, and the bytes of the
      prefix that are not written are zero. */
  function Seen(o: NdOption): NdOption
    requires FullPrefix(o)
  {
    if o.Context? then
      var n := 8 * (ContextUnits(o.prefixLength) - 1);
      o.(usable := o.cid / 2 % 2 == 1 || o.cid / 8 % 2 == 1, prefix := o.prefix[..n] + Zeros(16 - n))
    else o
  }

  predicate FullPrefix(o: NdOption) {
    o.Context? ==> |o.prefix| == 16
  }

  predicate FullPrefixes(os: seq<NdOption>) {
    forall i | 0 <= i < |os| :: FullPrefix(os[i])
  }

  /** What the loop over an advertisement makes of an option, and of a list. */
  function SeenOf(o: NdOption): seq<NdOption>
    requires FullPrefix(o)
  {
    if Handled(RouterAdvertisements, TypeOf(o)) then [Seen(o)] else []
  }

  function SeenAll(os: seq<NdOption>): seq<NdOption>
    requires FullPrefixes(os)
  {
    if os == [] then [] else SeenOf(os[0]) + SeenAll(os[1..])
  }

  predicate AllQuiet(os: seq<NdOption>) {
    forall i | 0 <= i < |os| :: os[i].Context? ==> |os[i].prefix| == 16 && Quiet(os[i])
  }

  lemma WellFormedIsFull(os: seq<NdOption>, w: nat)
    requires AllWellFormed(os, w)
    ensures FullPrefixes(os)
  {
    assert forall i | 0 <= i < |os| :: WellFormed(os[i], w);
  }

  lemma SeenOnce(os: seq<NdOption>)
    requires FullPrefixes(os)
    ensures os == [] ==> SeenAll(os) == []
    ensures os != [] ==> FullPrefix(os[0]) && FullPrefixes(os[1..]) && SeenAll(os) == SeenOf(os[0]) + SeenAll(os[1..])
  {
    hide FullPrefix, SeenOf;
  }

  lemma QuietFirst(os: seq<NdOption>)
    ensures os == [] ==> AllQuiet(os)
    ensures os != [] && os[0].Context? ==>
      (AllQuiet(os) <==> |os[0].prefix| == 16 && Quiet(os[0]) && AllQuiet(os[1..]))
    ensures os != [] && !os[0].Context? ==> (AllQuiet(os) <==> AllQuiet(os[1..]))
  {
    hide Quiet;
    if os != [] {
      assert os == [os[0]] + os[1..];
    }
  }

  /** Of a list whose contexts are in step exactly its options are read, if and only if all contexts are quiet. */
  lemma {:induction false} ReadingsAre(d: seq<Byte>, at: nat, os: seq<NdOption>, w: nat)
    requires ValidIdSize(w) && AllWellFormed(os, w) && Laid(d, at, os, w) && at + SizeOfAll(os, w) + 32 <= |d|
    requires AllInStep(os)
    ensures FullPrefixes(os)
    ensures AllQuiet(os) ==> Readings(d, at, os, w) == SeenAll(os)
    ensures !AllQuiet(os) ==> |Readings(d, at, os, w)| > |SeenAll(os)|
    decreases |os|
  {
    hide *;
    Lists(RouterAdvertisements, d, at, os, w);
    InStepFirst(os);
    QuietFirst(os);
    WellFormedIsFull(os, w);
    SeenOnce(os);
    ReadingsOfNone(d, at, w);
    if os != [] {
      ReadingsOnce(d, at, os, at + Size(os[0], w), w);
      ReadingsAre(d, at + Size(os[0], w), os[1..], w);
      if os[0].Context? {
        ContextLands(d, at, os[0], w);
        ContextDerails(d, at, os[0], w);
        QuietIsReadAlone(d, at, os[0], w);
        ContextReads(d, at, os[0], w);
      }
      SeenMeans(os[0]);
    }
  }

  lemma SeenMeans(o: NdOption)
    requires FullPrefix(o)
    ensures !o.Context? ==> SeenOf(o) == if Handled(RouterAdvertisements, TypeOf(o)) then [o] else []
    ensures o.Context? ==>
      var k := 8 * (ContextUnits(o.prefixLength) - 1); var flag := o.cid / 2 % 2 == 1 || o.cid / 8 % 2 == 1;
      |o.prefix| == 16 && SeenOf(o) == [o.(usable := flag, prefix := o.prefix[..k] + Zeros(16 - k))]
  {
  }

  /** The round trip for contexts that are quiet: the walk over an advertisement reads the list and nothing else. */
  lemma WalkReadsQuiet(d: seq<Byte>, at: nat, os: seq<NdOption>, w: nat)
    requires ValidIdSize(w) && AllWellFormed(os, w) && Laid(d, at, os, w) && at + SizeOfAll(os, w) + 32 <= |d|
    requires AllHoldable(RouterAdvertisements, os) && AllInStep(os)
    ensures FullPrefixes(os)
    ensures AllQuiet(os) <==>
      Walk(RouterAdvertisements, d, at, at + SizeOfAll(os, w), w)
        == Walked(SeenAll(os), Complete, at + SizeOfAll(os, w))
  {
    hide *;
    WalkReadsInStep(d, at, os, w);
    ReadingsAre(d, at, os, w);
  }

  /** Quiet contexts are in step. */
  lemma QuietIsInStep(os: seq<NdOption>)
    requires AllQuiet(os)
    ensures AllInStep(os)
  {
    hide InStep;
  }

  /** The walk over an advertisement comes to stand at the end of every option, having read each that it handles, and
      nothing else. */
  predicate Aligned(d: seq<Byte>, at: nat, os: seq<NdOption>, w: nat)
    requires ValidIdSize(w) && AllWellFormed(os, w) && Laid(d, at, os, w) && at + SizeOfAll(os, w) + 32 <= |d|
    decreases |os|
  {
    os == [] ||
      var next := at + Size(os[0], w);
      && Lands(d, at, next, w)
      && |ReadUpTo(d, at, next, w)| == (if Handled(RouterAdvertisements, TypeOf(os[0])) then 1 else 0)
      && Aligned(d, next, os[1..], w)
  }

  lemma AlignedOnce(d: seq<Byte>, at: nat, os: seq<NdOption>, next: nat, w: nat)
    requires ValidIdSize(w) && AllWellFormed(os, w) && Laid(d, at, os, w) && at + SizeOfAll(os, w) + 32 <= |d|
    requires os != [] && next == at + Size(os[0], w) && next + 32 <= |d|
    requires AllWellFormed(os[1..], w) && Laid(d, next, os[1..], w) && next + SizeOfAll(os[1..], w) + 32 <= |d|
    ensures Aligned(d, at, os, w) <==>
      && Lands(d, at, next, w)
      && |ReadUpTo(d, at, next, w)| == (if Handled(RouterAdvertisements, TypeOf(os[0])) then 1 else 0)
      && Aligned(d, next, os[1..], w)
  {
    hide Holds, WellFormed, Handled, Lands, ReadUpTo;
  }

  lemma AlignedWithNone(d: seq<Byte>, at: nat, w: nat)
    requires ValidIdSize(w) && at + 32 <= |d|
    ensures Aligned(d, at, [], w)
  {
  }

  /** One option that is no context: the walk steps over it in one turn. */
  lemma StepsOver(d: seq<Byte>, at: nat, o: NdOption, w: nat)
    requires ValidIdSize(w) && at + Size(o, w) + 32 <= |d| && WellFormed(o, w) && Holds(d, at, o, w) && !o.Context?
    requires Holdable(RouterAdvertisements, o)
    ensures Lands(d, at, at + Size(o, w), w)
    ensures ReadUpTo(d, at, at + Size(o, w), w) == if Handled(RouterAdvertisements, TypeOf(o)) then [o] else []
  {
    hide Turn, Holds, WellFormed, Contained, Holdable;
    TurnReads(RouterAdvertisements, d, at, o, w);
    var goal := at + Size(o, w);
    LandsOnce(d, at, goal, w);
    LandsOnce(d, goal, goal, w);
    assert ReadUpTo(d, goal, goal, w) == [];
  }

  /** Exactly which lists are read as they are written, whatever contexts they hold: the walk keeps to the options if
      and only if all contexts are quiet, and then it reads the list and ends behind it. */
  lemma {:induction false} AlignedExactly(d: seq<Byte>, at: nat, os: seq<NdOption>, w: nat)
    requires ValidIdSize(w) && AllWellFormed(os, w) && Laid(d, at, os, w) && at + SizeOfAll(os, w) + 32 <= |d|
    requires AllHoldable(RouterAdvertisements, os)
    ensures FullPrefixes(os)
    ensures Aligned(d, at, os, w) <==> AllQuiet(os)
    ensures Aligned(d, at, os, w) ==>
      Walk(RouterAdvertisements, d, at, at + SizeOfAll(os, w), w)
        == Walked(SeenAll(os), Complete, at + SizeOfAll(os, w))
    decreases |os|
  {
    hide *;
    Lists(RouterAdvertisements, d, at, os, w);
    HoldableFirst(RouterAdvertisements, os);
    QuietFirst(os);
    WellFormedIsFull(os, w);
    AlignedWithNone(d, at, w);
    if os != [] {
      AlignedOnce(d, at, os, at + Size(os[0], w), w);
      AlignedExactly(d, at + Size(os[0], w), os[1..], w);
      if os[0].Context? {
        ContextLands(d, at, os[0], w);
        SeenMeans(os[0]);
        QuietInStep(os[0]);
        if InStep(os[0]) {
          QuietIsReadAlone(d, at, os[0], w);
        }
      } else {
        StepsOver(d, at, os[0], w);
      }
    }
    if AllQuiet(os) {
      QuietIsInStep(os);
      WalkReadsQuiet(d, at, os, w);
    }
  }

  lemma QuietInStep(o: NdOption)
    requires o.Context? && |o.prefix| == 16
    ensures Quiet(o) ==> InStep(o)
    ensures Handled(RouterAdvertisements, TypeOf(o))
  {
    hide InStep;
  }

  // ---------------------------------------------------------------------------------------------
  // Where a walk over an advertisement stands
  // ---------------------------------------------------------------------------------------------

  /** An option whose copy leaves its memory: a prefix of more than 128 bits, or a context of more than three units. */
  predicate TooLong(d: seq<Byte>, p: nat)
    requires p + 32 <= |d|
  {
    (d[p] == PREFIX_INFORMATION && d[p + 1] > 0 && d[p + 2] > 128) || (d[p] == LOWPAN_CONTEXT && d[p + 1] > 3)
  }

  /** The walk that starts at `at` comes to stand at `p`, in front of the end. */
  predicate StandsAt(d: seq<Byte>, at: nat, end: nat, p: nat, w: nat)
    requires ValidIdSize(w) && end + 32 <= |d|
  {
    p < end && Lands(d, at, p, w)
  }

  lemma GoingMeans(d: seq<Byte>, at: nat, end: nat)
    requires end + 32 <= |d| && at < end
    ensures Going(RouterAdvertisements, d, at, end) <==> d[at + 1] > 0 && !TooLong(d, at)
    ensures Going(RouterAdvertisements, d, at, end) <==> d[at + 1] > 0 && Contained(RouterAdvertisements, d, at)
    ensures TooLong(d, at) ==> d[at + 1] > 0
  {
  }

  /** A place lies where the walk starts, or where it goes on after a turn. */
  lemma PlacesTurn(d: seq<Byte>, at: nat, end: nat, p: nat, w: nat)
    requires ValidIdSize(w) && end + 32 <= |d| && at < end
    ensures p <= at ==> (StandsAt(d, at, end, p, w) <==> p == at)
    ensures p > at && Going(RouterAdvertisements, d, at, end) ==>
      (StandsAt(d, at, end, p, w) <==> StandsAt(d, Turn(RouterAdvertisements, d, at, w).1, end, p, w))
    ensures !Going(RouterAdvertisements, d, at, end) && p > at ==> !StandsAt(d, at, end, p, w)
  {
    hide Turn, Contained;
    if p < end {
      LandsOnce(d, at, p, w);
    }
  }

  /** A place where the walk cannot go on. */
  predicate Stuck(d: seq<Byte>, at: nat, end: nat, p: nat, w: nat)
    requires ValidIdSize(w) && end + 32 <= |d|
  {
    StandsAt(d, at, end, p, w) && (d[p + 1] == 0 || TooLong(d, p))
  }

  /** How the walk over any bytes ends: exactly by the place where it cannot go on, if it comes to stand at one. */
  lemma {:induction false} EndsByPlaces(d: seq<Byte>, at: nat, end: nat, w: nat)
    requires ValidIdSize(w) && end + 32 <= |d|
    ensures var ending := Walk(RouterAdvertisements, d, at, end, w).ending;
      && (ending == Complete <==> forall p :: !Stuck(d, at, end, p, w))
      && (forall p | Stuck(d, at, end, p, w) :: ending == if TooLong(d, p) then Spilled else ZeroLength)
    decreases end - at
  {
    hide Turn, Walk, Contained, Lands, TooLong;
    if at < end {
      GoingMeans(d, at, end);
      forall p: nat ensures Stuck(d, at, end, p, w) <==>
          if !Going(RouterAdvertisements, d, at, end) then p == at
          else Stuck(d, Turn(RouterAdvertisements, d, at, w).1, end, p, w)
      {
        PlacesTurn(d, at, end, p, w);
        if Going(RouterAdvertisements, d, at, end) {
          TurnedPast(d, at, end, p, w);
        }
      }
    }
    if Going(RouterAdvertisements, d, at, end) {
      TurnAdvances(RouterAdvertisements, d, at, w);
      WalkTurns(RouterAdvertisements, d, at, end, w);
      EndsByPlaces(d, Turn(RouterAdvertisements, d, at, w).1, end, w);
    } else {
      WalkStops(RouterAdvertisements, d, at, end, w);
      NoPlaceBehind(d, at, end, w);
      assert at < end ==> Stuck(d, at, end, at, w);
    }
  }

  lemma TurnedPast(d: seq<Byte>, at: nat, end: nat, p: nat, w: nat)
    requires ValidIdSize(w) && end + 32 <= |d| && Going(RouterAdvertisements, d, at, end)
    ensures p <= at ==> !StandsAt(d, Turn(RouterAdvertisements, d, at, w).1, end, p, w)
  {
  }

  lemma NoPlaceBehind(d: seq<Byte>, at: nat, end: nat, w: nat)
    requires ValidIdSize(w) && end + 32 <= |d|
    ensures at >= end ==> forall p :: !StandsAt(d, at, end, p, w)
  {
  }

  /** What a list holds behind its first options. */
  lemma {:induction false} WalkReachesBehind(d: seq<Byte>, at: nat, os: seq<NdOption>, end: nat, w: nat)
    requires ValidIdSize(w) && AllWellFormed(os, w) && NoContexts(os) && AllHoldable(RouterAdvertisements, os)
    requires Laid(d, at, os, w) && at + SizeOfAll(os, w) <= end && end + 32 <= |d|
    ensures var rest := Walk(RouterAdvertisements, d, at + SizeOfAll(os, w), end, w);
      Walk(RouterAdvertisements, d, at, end, w)
        == Walked(Only(RouterAdvertisements, os) + rest.options, rest.ending, rest.end)
    decreases |os|
  {
    hide *;
    Lists(RouterAdvertisements, d, at, os, w);
    HoldableFirst(RouterAdvertisements, os);
    var rest := Walk(RouterAdvertisements, d, at + SizeOfAll(os, w), end, w);
    if os == [] {
      assert [] + rest.options == rest.options;
    } else {
      TurnReads(RouterAdvertisements, d, at, os[0], w);
      WalkTurns(RouterAdvertisements, d, at, end, w);
      WalkReachesBehind(d, at + Size(os[0], w), os[1..], end, w);
      var first := if Handled(RouterAdvertisements, TypeOf(os[0])) then [os[0]] else [];
      assert first + (Only(RouterAdvertisements, os[1..]) + rest.options)
        == first + Only(RouterAdvertisements, os[1..]) + rest.options;
    }
  }

  /** A context whose prefix has 0 as its second byte ends the walk inside its option, as if a length were zero. */
  lemma ContextEndsWalk(d: seq<Byte>, at: nat, o: NdOption, end: nat, w: nat)
    requires ValidIdSize(w) && at + Size(o, w) <= end && end + 32 <= |d|
    requires o.Context? && WellFormed(o, w) && Holds(d, at, o, w) && o.prefix[1] == 0
    ensures d[at + 1] > 0 && Contained(RouterAdvertisements, d, at)
    ensures Walk(RouterAdvertisements, d, at, end, w) == Walked([ReadContext(d, at)], ZeroLength, at + 8)
  {
    hide Turn, Walk, ReadContext, BigEndian, Contained;
    ContextDerails(d, at, o, w);
    PrefixBytes(d, at, o, w);
    WalkTurns(RouterAdvertisements, d, at, end, w);
    WalkStops(RouterAdvertisements, d, at + 8, end, w);
  }
}
