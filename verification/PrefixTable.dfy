/**
 * The prefix lists of interface_manager.h (`prefix_list`, `init`, `set_prefix_for_interface`) and their
 * ageing by the 60 second timer of icmpv6.h. A row is the list of one interface; slot 0 holds its
 * link-local address.
 */
module PrefixTable {
  import opened Wrappers
  import opened Bytes
  import opened Ipv6Address

  const INFINITE: nat := 0xFFFF_FFFF
  const TIMEOUT_INTERVAL: nat := 60
  const NUMBER_OF_INTERFACES: nat := 2
  const INTERFACE_RADIO: nat := 0
  const INTERFACE_UART: nat := 1

  datatype Prefix = Prefix(valid: nat, onlink: bool, preferred: nat, autonomous: bool, address: Address)

  const NO_PREFIX: Prefix := Prefix(0, true, 0, true, Address(NULL_ADDR, 0))

  function AddrOf(p: Prefix): seq<Byte> {
    p.address.addr
  }

  predicate IsNull(p: Prefix) {
    AddrOf(p) == NULL_ADDR
  }

  predicate IsRow(row: seq<Prefix>) {
    row != [] && forall i | 0 <= i < |row| :: |AddrOf(row[i])| == 16
  }

  // ---------------------------------------------------------------------------------------------
  // Insert or update
  // ---------------------------------------------------------------------------------------------

  /** The scan from slot `i` on: the first equal address stops it, else the last free slot is taken. */
  function ScanFrom(row: seq<Prefix>, addr: seq<Byte>, i: nat, free: nat): (k: nat)
    requires i <= |row| && free <= |row|
    ensures k <= |row|
    decreases |row| - i
  {
    if i == |row| then free
    else if addr == AddrOf(row[i]) then i
    else ScanFrom(row, addr, i + 1, if IsNull(row[i]) then i else free)
  }

  function SlotFor(row: seq<Prefix>, addr: seq<Byte>): (k: nat)
    ensures k <= |row|
  {
    ScanFrom(row, addr, 0, |row|)
  }

  function Set(row: seq<Prefix>, p: Prefix): (r: seq<Prefix>)
    ensures |r| == |row|
  {
    var k := SlotFor(row, AddrOf(p));
    if k < |row| then row[k := p] else row
  }

  /** The table as a map: from an address to what is stored with it. */
  function ToMap(row: seq<Prefix>): map<seq<Byte>, Prefix> {
    if row == [] then map[]
    else if IsNull(row[0]) then ToMap(row[1..])
    else ToMap(row[1..])[AddrOf(row[0]) := row[0]]
  }

  predicate Distinct(row: seq<Prefix>) {
    forall i, j | 0 <= i < j < |row| && !IsNull(row[i]) :: AddrOf(row[i]) != AddrOf(row[j])
  }

  predicate HasAddress(row: seq<Prefix>, addr: seq<Byte>) {
    exists i | 0 <= i < |row| :: AddrOf(row[i]) == addr
  }

  predicate HasRoom(row: seq<Prefix>) {
    exists i | 0 <= i < |row| :: IsNull(row[i])
  }

  lemma {:induction false} ScanMeans(row: seq<Prefix>, addr: seq<Byte>, i: nat, free: nat)
    requires i <= |row| && free <= |row|
    requires forall j | 0 <= j < i :: AddrOf(row[j]) != addr
    requires free < |row| ==> IsNull(row[free])
    requires free == |row| ==> forall j | 0 <= j < i :: !IsNull(row[j])
    ensures var k := ScanFrom(row, addr, i, free);
      && (HasAddress(row, addr) ==> k < |row| && AddrOf(row[k]) == addr)
      && (!HasAddress(row, addr) ==> (k < |row| <==> HasRoom(row)))
      && (!HasAddress(row, addr) && k < |row| ==> IsNull(row[k]))
    decreases |row| - i
  {
    if i < |row| && addr != AddrOf(row[i]) {
      ScanMeans(row, addr, i + 1, if IsNull(row[i]) then i else free);
    }
  }

  /** The slot for an address: its own if it has one, else the last free one. */
  lemma {:induction false} ScanTakesLast(row: seq<Prefix>, addr: seq<Byte>, i: nat, free: nat)
    requires i <= |row| && free <= |row| && (free < i || free == |row|)
    requires forall j | i <= j < |row| :: AddrOf(row[j]) != addr
    requires forall j | free < j < i :: !IsNull(row[j])
    ensures var k := ScanFrom(row, addr, i, free);
      && (k < |row| ==> k == free || IsNull(row[k])) && (forall j | k < j < |row| :: !IsNull(row[j]))
      && (free < |row| ==> k < |row|)
    decreases |row| - i
  {
    if i < |row| {
      ScanTakesLast(row, addr, i + 1, if IsNull(row[i]) then i else free);
    }
  }

  lemma SlotTaken(row: seq<Prefix>, addr: seq<Byte>)
    ensures var k := SlotFor(row, addr);
      && (HasAddress(row, addr) ==> k < |row| && AddrOf(row[k]) == addr)
      && (!HasAddress(row, addr) && HasRoom(row) ==>
            k < |row| && IsNull(row[k]) && forall j | k < j < |row| :: !IsNull(row[j]))
      && (!HasAddress(row, addr) && !HasRoom(row) ==> k == |row|)
  {
    ScanMeans(row, addr, 0, |row|);
    if !HasAddress(row, addr) {
      ScanTakesLast(row, addr, 0, |row|);
    }
  }

  lemma {:induction false} MapHas(row: seq<Prefix>, addr: seq<Byte>)
    requires addr != NULL_ADDR
    ensures addr in ToMap(row) <==> HasAddress(row, addr)
  {
    if row != [] {
      MapHas(row[1..], addr);
      assert row == [row[0]] + row[1..];
      if HasAddress(row[1..], addr) {
        var i :| 0 <= i < |row[1..]| && AddrOf(row[1..][i]) == addr;
        assert AddrOf(row[i + 1]) == addr;
      }
      if HasAddress(row, addr) && AddrOf(row[0]) != addr {
        var i :| 0 <= i < |row| && AddrOf(row[i]) == addr;
        assert AddrOf(row[1..][i - 1]) == addr;
      }
    }
  }

  lemma {:induction false} NeverNull(row: seq<Prefix>)
    ensures NULL_ADDR !in ToMap(row)
  {
    if row != [] {
      NeverNull(row[1..]);
    }
  }

  /** Writing an entry into its own or a free slot is one update of the map. */
  lemma {:induction false} WriteIsUpdate(row: seq<Prefix>, k: nat, p: Prefix)
    requires Distinct(row) && k < |row| && !IsNull(p)
    requires AddrOf(row[k]) == AddrOf(p) || (IsNull(row[k]) && !HasAddress(row, AddrOf(p)))
    ensures Distinct(row[k := p])
    ensures ToMap(row[k := p]) == ToMap(row)[AddrOf(p) := p]
  {
    var t := row[k := p];
    if k == 0 {
      assert t[1..] == row[1..];
    } else {
      assert t[1..] == row[1..][k - 1 := p];
      assert row[1..][k - 1] == row[k];
      assert HasAddress(row[1..], AddrOf(p)) ==> HasAddress(row, AddrOf(p)) by {
        if HasAddress(row[1..], AddrOf(p)) {
          var i :| 0 <= i < |row[1..]| && AddrOf(row[1..][i]) == AddrOf(p);
          assert AddrOf(row[i + 1]) == AddrOf(p);
        }
      }
      WriteIsUpdate(row[1..], k - 1, p);
    }
  }

  /** Setting a prefix is insert-or-update on a bounded map: it fails, and changes nothing, exactly when
      the address is absent and every slot is taken. */
  lemma SetRefines(row: seq<Prefix>, p: Prefix)
    requires Distinct(row) && !IsNull(p)
    ensures SlotFor(row, AddrOf(p)) < |row| <==> AddrOf(p) in ToMap(row) || HasRoom(row)
    ensures SlotFor(row, AddrOf(p)) == |row| ==> Set(row, p) == row
    ensures SlotFor(row, AddrOf(p)) < |row| ==> ToMap(Set(row, p)) == ToMap(row)[AddrOf(p) := p]
    ensures Distinct(Set(row, p))
  {
    ScanMeans(row, AddrOf(p), 0, |row|);
    MapHas(row, AddrOf(p));
    if SlotFor(row, AddrOf(p)) < |row| {
      WriteIsUpdate(row, SlotFor(row, AddrOf(p)), p);
    }
  }

  // ---------------------------------------------------------------------------------------------
  // Ageing
  // ---------------------------------------------------------------------------------------------

  /** Subtraction as 32-bit unsigned numbers do it. */
  function Sub32(a: nat, b: nat): nat
    requires a <= INFINITE && b <= INFINITE
  {
    if a >= b then a - b else a - b + INFINITE + 1
  }

  predicate LifetimesFit(p: Prefix) {
    p.valid <= INFINITE && p.preferred <= INFINITE
  }

  /** One turn of the timer for one prefix. */
  function Age(p: Prefix): (r: Prefix)
    requires LifetimesFit(p)
    ensures LifetimesFit(r) && r.address == p.address
  {
    if p.valid < INFINITE && p.valid > 0 then
      var valid := Sub32(p.valid, TIMEOUT_INTERVAL);
      var preferred := if p.preferred < INFINITE then
                         if p.preferred > TIMEOUT_INTERVAL then p.preferred - TIMEOUT_INTERVAL else 0
                       else p.preferred;
      if valid < TIMEOUT_INTERVAL then p.(valid := 0, preferred := 0)
      else p.(valid := valid, preferred := preferred)
    else p
  }

  /** The timer counts this prefix as a valid one. */
  predicate Counted(p: Prefix)
    requires LifetimesFit(p)
  {
    p.valid == INFINITE || (p.valid > 0 && Sub32(p.valid, TIMEOUT_INTERVAL) >= TIMEOUT_INTERVAL)
  }

  /** The timer starts asking for an update. */
  predicate ExpiresSoon(p: Prefix)
    requires LifetimesFit(p)
  {
    p.valid < INFINITE && p.valid > 0
    && TIMEOUT_INTERVAL <= Sub32(p.valid, TIMEOUT_INTERVAL) < 4 * TIMEOUT_INTERVAL
  }

  predicate RowFits(row: seq<Prefix>) {
    forall i | 0 <= i < |row| :: LifetimesFit(row[i])
  }

  /** All slots but the link-local one age. */
  function AgeRow(row: seq<Prefix>): (r: seq<Prefix>)
    requires RowFits(row)
    ensures |r| == |row|
  {
    seq(|row|, i requires 0 <= i < |row| => if i == 0 then row[0] else Age(row[i]))
  }

  function CountedUpTo(row: seq<Prefix>, n: nat): (c: nat)
    requires RowFits(row) && n <= |row|
    ensures c <= n && (n >= 1 ==> c <= n - 1)
  {
    if n <= 1 then 0 else CountedUpTo(row, n - 1) + if Counted(row[n - 1]) then 1 else 0
  }

  /** The global slots below `n` that are valid. */
  function ValidGlobal(row: seq<Prefix>, n: nat): (s: set<nat>)
    requires n <= |row|
    ensures forall i :: i in s <==> 1 <= i < n && row[i].valid > 0
  {
    set i: nat | 1 <= i < n && row[i].valid > 0
  }

  predicate SomeExpireSoon(row: seq<Prefix>, n: nat)
    requires RowFits(row) && n <= |row|
  {
    exists i | 1 <= i < n :: ExpiresSoon(row[i])
  }

  lemma CountedMeans(p: Prefix)
    requires LifetimesFit(p)
    ensures Counted(p) <==> Age(p).valid > 0
    ensures ExpiresSoon(p) ==> Counted(p)
  {
  }

  /** The number the timer computes is the number of global slots that are valid afterwards. */
  lemma {:induction false} CountIsValidGlobal(row: seq<Prefix>, n: nat)
    requires RowFits(row) && n <= |row|
    ensures CountedUpTo(row, n) == |ValidGlobal(AgeRow(row), n)|
  {
    var aged := AgeRow(row);
    if n <= 1 {
      assert ValidGlobal(aged, n) == {};
    } else {
      CountIsValidGlobal(row, n - 1);
      CountedMeans(row[n - 1]);
      assert aged[n - 1] == Age(row[n - 1]);
      hide Age, Counted, AgeRow;
      var before, now := ValidGlobal(aged, n - 1), ValidGlobal(aged, n);
      if Counted(row[n - 1]) {
        assert now == before + {n - 1};
      } else {
        assert now == before;
      }
    }
  }

  function AgeTimes(p: Prefix, k: nat): (r: Prefix)
    requires LifetimesFit(p)
    ensures LifetimesFit(r) && r.address == p.address
  {
    if k == 0 then p else Age(AgeTimes(p, k - 1))
  }

  /** What is left of a lifetime after `k` turns, when nothing underflows. */
  function Left(lifetime: int, k: nat): int {
    lifetime - TIMEOUT_INTERVAL * k
  }

  function LeftOrNone(lifetime: nat, k: nat): int {
    if lifetime == INFINITE then INFINITE else if Left(lifetime, k) > 0 then Left(lifetime, k) else 0
  }

  /** Lifetimes that never underflow: none, infinite, or at least one interval. */
  predicate AgesWell(p: Prefix) {
    p.valid == 0 || p.valid >= TIMEOUT_INTERVAL
  }

  lemma {:induction false} AgeClosedForm(p: Prefix, k: nat)
    requires LifetimesFit(p) && AgesWell(p) && p.valid < INFINITE && k >= 1
    ensures var r := AgeTimes(p, k);
      && r.valid == (if Left(p.valid, k) >= TIMEOUT_INTERVAL then Left(p.valid, k) else 0)
      && (p.valid > 0 && r.valid == 0 ==> r.preferred == 0)
      && (r.valid > 0 ==> r.preferred == LeftOrNone(p.preferred, k))
  {
    if k > 1 {
      AgeClosedForm(p, k - 1);
    } else {
      assert AgeTimes(p, 1) == Age(AgeTimes(p, 0)) == Age(p);
    }
  }

  lemma {:induction false} InfiniteStays(p: Prefix, k: nat)
    requires LifetimesFit(p) && (p.valid == INFINITE || p.valid == 0)
    ensures AgeTimes(p, k) == p
  {
    if k > 0 {
      InfiniteStays(p, k - 1);
    }
  }

  /** The exact deviation: a lifetime of 1 to 59 seconds underflows to a huge one, so ageing follows its
      closed form if and only if the lifetime is none or at least one interval. */
  lemma AgesWellExactly(p: Prefix)
    requires LifetimesFit(p) && p.valid < INFINITE
    ensures AgesWell(p) <==>
      AgeTimes(p, 1).valid == if Left(p.valid, 1) >= TIMEOUT_INTERVAL then Left(p.valid, 1) else 0
    ensures !AgesWell(p) ==> Age(p).valid == p.valid + INFINITE - 59 > p.valid
  {
    assert AgeTimes(p, 1) == Age(AgeTimes(p, 0)) == Age(p);
  }

  /** 59 seconds become forever. */
  lemma FiftyNineIsForever(p: Prefix, k: nat)
    requires LifetimesFit(p) && p.valid == 59 && k >= 1
    ensures AgeTimes(p, k).valid == INFINITE
  {
    assert AgeTimes(p, 1) == Age(AgeTimes(p, 0)) == Age(p);
    if k > 1 {
      SplitAge(p, k - 1);
      InfiniteStays(Age(p), k - 1);
    }
  }

  lemma {:induction false} SplitAge(p: Prefix, k: nat)
    requires LifetimesFit(p)
    ensures AgeTimes(p, k + 1) == AgeTimes(Age(p), k)
  {
    if k > 0 {
      SplitAge(p, k - 1);
    }
  }

  /** A preferred lifetime never outlives the valid one, and lifetimes that age well keep doing so. */
  lemma {:induction false} AgeKeepsOrder(p: Prefix, k: nat)
    requires LifetimesFit(p) && AgesWell(p) && p.preferred <= p.valid
    ensures AgeTimes(p, k).preferred <= AgeTimes(p, k).valid <= p.valid && AgesWell(AgeTimes(p, k))
  {
    if k > 0 {
      AgeKeepsOrder(p, k - 1);
    }
  }

  // ---------------------------------------------------------------------------------------------
  // Runs
  // ---------------------------------------------------------------------------------------------

  /** When the border router's information expires, all slots but the first are emptied. */
  function Emptied(row: seq<Prefix>): (r: seq<Prefix>)
    requires row != []
    ensures |r| == |row|
  {
    seq(|row|, i => if i == 0 then row[0] else NO_PREFIX)
  }

  datatype Event =
    | SetPrefix(prefix: seq<Byte>, length: Byte, valid: nat, onlink: bool, preferred: nat, autonomous: bool)
    | Tick
    | Expired

  predicate GoodEvent(e: Event) {
    e.SetPrefix? ==> |e.prefix| >= 16 && e.valid <= INFINITE && e.preferred <= INFINITE
  }

  /** The entry a set builds, on a node with this identifier. */
  function Built(prefix: seq<Byte>, length: PrefixLength, valid: nat, onlink: bool, preferred: nat, autonomous: bool,
                 iid: nat, w: nat): Prefix
    requires |prefix| >= 16 && ValidIdSize(w)
  {
    Prefix(valid, onlink, preferred, autonomous, Address(Formed(prefix, length, iid, w), length))
  }

  /** What every row keeps: its link-local address in slot 0, and no address twice. */
  predicate Good(row: seq<Prefix>, linkLocal: seq<Byte>) {
    && IsRow(row) && RowFits(row) && Distinct(row)
    && linkLocal != NULL_ADDR && AddrOf(row[0]) == linkLocal
  }

  /** A set whose copy stays inside the address. */
  predicate LengthFits(e: Event) {
    e.SetPrefix? ==> e.length <= 128
  }

  function Step(row: seq<Prefix>, e: Event, iid: nat, w: nat): (r: Outcome<seq<Prefix>>)
    requires row != [] && RowFits(row) && GoodEvent(e) && ValidIdSize(w)
    ensures r.Known? <==> LengthFits(e)
    ensures r.Known? ==> |r.value| == |row|
  {
    match e
    case SetPrefix(prefix, length, valid, onlink, preferred, autonomous) =>
      if length > 128 then Overrun
      else Known(Set(row, Built(prefix, length, valid, onlink, preferred, autonomous, iid, w)))
    case Tick => Known(AgeRow(row))
    case Expired => Known(Emptied(row))
  }

  lemma StepKeepsGood(row: seq<Prefix>, e: Event, iid: nat, w: nat, linkLocal: seq<Byte>)
    requires Good(row, linkLocal) && GoodEvent(e) && ValidIdSize(w)
    ensures LengthFits(e) ==> Good(Step(row, e, iid, w).value, linkLocal)
  {
    hide Formed;
    match e {
      case SetPrefix(prefix, length, valid, onlink, preferred, autonomous) =>
        if length <= 128 {
          var p := Built(prefix, length, valid, onlink, preferred, autonomous, iid, w);
          FormedIsNotNull(prefix, length, iid, w);
          FormedLength(prefix, length, iid, w);
          SetKeepsGood(row, p, linkLocal);
        }
      case Tick =>
        var r := AgeRow(row);
        assert forall i | 0 <= i < |row| :: AddrOf(r[i]) == AddrOf(row[i]);
      case Expired =>
    }
  }

  lemma FormedLength(prefix: seq<Byte>, length: PrefixLength, iid: nat, w: nat)
    requires |prefix| >= 16 && ValidIdSize(w)
    ensures |Formed(prefix, length, iid, w)| == 16
  {
  }

  lemma SetKeepsGood(row: seq<Prefix>, p: Prefix, linkLocal: seq<Byte>)
    requires Good(row, linkLocal) && !IsNull(p) && |AddrOf(p)| == 16 && LifetimesFit(p)
    ensures Good(Set(row, p), linkLocal)
  {
    SetRefines(row, p);
    ScanMeans(row, AddrOf(p), 0, |row|);
  }

  function Run(row: seq<Prefix>, events: seq<Event>, iid: nat, w: nat, linkLocal: seq<Byte>): (r: Outcome<seq<Prefix>>)
    requires Good(row, linkLocal) && ValidIdSize(w) && forall e | e in events :: GoodEvent(e)
    ensures r.Known? ==> |r.value| == |row|
    decreases |events|
  {
    if events == [] then Known(row) else
      StepKeepsGood(row, events[0], iid, w, linkLocal);
      match Step(row, events[0], iid, w)
      case Overrun => Overrun
      case Known(next) => Run(next, events[1..], iid, w, linkLocal)
  }

  /** Under any interleaving of sets, timer turns and expiries the memory stays intact exactly as long as no set
      has a length above 128; then the non-null addresses stay pairwise distinct and slot 0 keeps the link-local
      address. */
  lemma {:induction false} RunKeepsGood(row: seq<Prefix>, events: seq<Event>, iid: nat, w: nat, linkLocal: seq<Byte>)
    requires Good(row, linkLocal) && ValidIdSize(w) && forall e | e in events :: GoodEvent(e)
    ensures Run(row, events, iid, w, linkLocal).Known? <==> forall i | 0 <= i < |events| :: LengthFits(events[i])
    ensures Run(row, events, iid, w, linkLocal).Known? ==> Good(Run(row, events, iid, w, linkLocal).value, linkLocal)
    decreases |events|
  {
    hide Distinct, ToMap, Set, AgeRow, Emptied, Built, Formed;
    if events != [] {
      StepKeepsGood(row, events[0], iid, w, linkLocal);
      if LengthFits(events[0]) {
        RunKeepsGood(Step(row, events[0], iid, w).value, events[1..], iid, w, linkLocal);
        assert forall i | 0 <= i < |events[1..]| :: events[1..][i] == events[i + 1];
        assert forall i | 1 <= i < |events| :: events[i] == events[1..][i - 1];
      }
    }
  }
}
