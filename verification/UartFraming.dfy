/**
 * The DLE/STX/ETX framing of transfer_templated_strings.py: the receiver's byte machine (iSense branch)
 * against the sender.
 */
module UartFraming {
  import opened Bytes

  const DLE: Byte := 0x10
  const STX: Byte := 0x02
  const ETX: Byte := 0x03

  datatype State = Idle | Receive | Escape

  /** The receiver's fields, and the packets it has handed on so far. */
  datatype Receiver = Receiver(state: State, receiving: seq<Byte>, delivered: seq<seq<Byte>>)

  // ---------------------------------------------------------------------------------------------
  // The machine, as a function
  // ---------------------------------------------------------------------------------------------

  /** receive_packet gets through without an exception: the indices and the assertion for each type of packet. */
  predicate Accepted(body: seq<Byte>) {
    && body != []
    && (body[0] in {104, 105, 106} ==> |body| >= 2)
    && (body[0] == 105 && body[1] == 60 ==> |body| >= 19)
  }

  /** The state after a packet was handed on; an exception comes before the state is reset. */
  function After(body: seq<Byte>): State {
    if Accepted(body) then Idle else Escape
  }

  function Step(r: Receiver, c: Byte): Receiver {
    match r.state
    case Escape =>
      if c == ETX then Receiver(After(r.receiving), r.receiving, r.delivered + [r.receiving])
      else if c == STX then Receiver(Receive, [], r.delivered)
      else r.(receiving := r.receiving + [c])
    case Receive => if c == DLE then r.(state := Escape) else r.(receiving := r.receiving + [c])
    case Idle => if c == DLE then r.(state := Escape) else r
  }

  function Run(r: Receiver, bytes: seq<Byte>): Receiver
    decreases |bytes|
  {
    if bytes == [] then r else Run(Step(r, bytes[0]), bytes[1..])
  }

  function Frame(body: seq<Byte>): seq<Byte> {
    [DLE, STX] + body + [DLE, ETX]
  }

  // ---------------------------------------------------------------------------------------------
  // Transfer replies
  // ---------------------------------------------------------------------------------------------

  /** Four bytes as a number, the lowest first. */
  function Little32(b: seq<Byte>, at: nat): nat
    requires at + 4 <= |b|
  {
    var first: nat, second: nat, third: nat, fourth: nat := b[at], b[at + 1], b[at + 2], b[at + 3];
    first + second * 0x100 + third * 0x1_0000 + fourth * 0x100_0000
  }

  function LittleBytes(v: nat): seq<Byte> {
    [v % 256, v / 0x100 % 256, v / 0x1_0000 % 256, v / 0x100_0000 % 256]
  }

  /** The checksums by chunk, after a packet: a transfer reply of at least ten bytes adds one. */
  function Recorded(crcs: map<nat, nat>, data: seq<Byte>): map<nat, nat> {
    if |data| >= 10 && data[0] == 106 && data[1] == 84 then crcs[Little32(data, 2) := Little32(data, 6)] else crcs
  }

  function AllRecorded(packets: seq<seq<Byte>>): map<nat, nat> {
    if packets == [] then map[] else Recorded(AllRecorded(packets[..|packets| - 1]), packets[|packets| - 1])
  }

  /** The reply for a chunk records exactly its checksum. */
  lemma ReplyRecorded(crcs: map<nat, nat>, chunk: nat, checksum: nat)
    requires chunk < 0x1_0000_0000 && checksum < 0x1_0000_0000
    ensures Recorded(crcs, [106, 84] + LittleBytes(chunk) + LittleBytes(checksum)) == crcs[chunk := checksum]
  {
    LittleRoundTrip(chunk);
    LittleRoundTrip(checksum);
  }

  lemma LittleRoundTrip(v: nat)
    requires v < 0x1_0000_0000
    ensures Little32(LittleBytes(v), 0) == v
  {
    var a, b, c := v / 0x100, v / 0x1_0000, v / 0x100_0000;
    assert v == a * 256 + v % 256 && a / 256 == b && b / 256 == c;
    assert a == b * 256 + a % 256 && b == c * 256 + b % 256 && c < 256;
  }

  lemma OneMoreRecorded(packets: seq<seq<Byte>>, data: seq<Byte>)
    ensures AllRecorded(packets + [data]) == Recorded(AllRecorded(packets), data)
  {
    assert (packets + [data])[..|packets|] == packets;
  }

  // ---------------------------------------------------------------------------------------------
  // The two ends
  // ---------------------------------------------------------------------------------------------

  class UartSlave {
    var receiveState: State
    var receiving: seq<Byte>
    var delivered: seq<seq<Byte>>
    var rcvdCrcs: map<nat, nat>

    constructor ()
      ensures View() == Receiver(Idle, [], []) && Valid()
    {
      receiveState, receiving, delivered, rcvdCrcs := Idle, [], [], map[];
    }

    /** The checksums are those of the packets handed on so far. */
    ghost predicate Valid()
      reads this
    {
      rcvdCrcs == AllRecorded(delivered)
    }

    function View(): Receiver
      reads this
    {
      Receiver(receiveState, receiving, delivered)
    }

    /** receive_packet: each index that is read may lie behind the end, and one length is asserted. */
    method ReceivePacket(data: seq<Byte>) returns (raised: bool)
      modifies this`rcvdCrcs
      ensures raised <==> !Accepted(data)
      ensures rcvdCrcs == Recorded(old(rcvdCrcs), data)
    {
      if |data| <= 0 {
        return true;
      }
      var isenseType := data[0];
      if isenseType == 105 {
        if |data| <= 1 {
          return true;
        }
        var cmdType := data[1];
        if cmdType == 60 && !(|data| >= 19) {
          return true;
        }
      } else if isenseType == 104 {
        if |data| <= 1 {
          return true;
        }
      } else if isenseType == 106 {
        if |data| <= 1 {
          return true;
        }
        var packetType := data[1];
        if packetType == 84 {
          ReceiveTransfer(data[2..]);
          assert |data| >= 10 ==>
              Little32(data[2..], 0) == Little32(data, 2) && Little32(data[2..], 4) == Little32(data, 6);
        }
      }
      raised := false;
    }

    /** receive_transfer */
    method ReceiveTransfer(packet: seq<Byte>)
      modifies this`rcvdCrcs
      ensures rcvdCrcs
        == if |packet| < 8 then old(rcvdCrcs) else old(rcvdCrcs)[Little32(packet, 0) := Little32(packet, 4)]
    {
      if |packet| >= 8 {
        var chunk, checksum := Little32(packet, 0), Little32(packet, 4);
        rcvdCrcs := rcvdCrcs[chunk := checksum];
      }
    }

    method ReceiveByte(c: Byte) returns (raised: bool)
      requires Valid()
      modifies this
      ensures Valid() && View() == Step(old(View()), c)
      ensures raised <==> old(receiveState) == Escape && c == ETX && !Accepted(old(receiving))
    {
      raised := false;
      if receiveState == Escape {
        if c == ETX {
          OneMoreRecorded(delivered, receiving);
          delivered := delivered + [receiving];
          raised := ReceivePacket(receiving);
          if raised {
            return;
          }
          receiveState := Idle;
        } else if c == STX {
          receiving := [];
          receiveState := Receive;
        } else {
          receiving := receiving + [c];
        }
      } else if c == DLE {
        receiveState := Escape;
      } else if receiveState == Receive {
        receiving := receiving + [c];
      }
    }

    /** A read loop: bytes are taken one at a time, also after an exception. */
    method ReceiveAll(bytes: seq<Byte>)
      requires Valid()
      modifies this
      ensures Valid() && View() == Run(old(View()), bytes)
    {
      ghost var before := View();
      var rest := bytes;
      while rest != []
        invariant Valid() && Run(View(), rest) == Run(before, bytes)
        decreases |rest|
      {
        var raised := ReceiveByte(rest[0]);
        rest := rest[1..];
      }
    }
  }

  class Line {
    var written: seq<Byte>

    method Write(c: Byte)
      modifies this
      ensures written == old(written) + [c]
    {
      written := written + [c];
    }

    /** The packet type byte goes out as the first byte of the body. */
    method SendString(s: seq<Byte>, packetType: Byte)
      modifies this
      ensures written == old(written) + Frame([packetType] + s)
    {
      Write(DLE);
      Write(STX);
      Write(packetType);
      written := written + s;
      Write(DLE);
      Write(ETX);
    }
  }

  // ---------------------------------------------------------------------------------------------
  // Runs
  // ---------------------------------------------------------------------------------------------

  lemma {:induction false} RunAppend(r: Receiver, a: seq<Byte>, b: seq<Byte>)
    ensures Run(r, a + b) == Run(Run(r, a), b)
    decreases |a|
  {
    if a == [] {
      assert a + b == b;
    } else {
      assert (a + b)[1..] == a[1..] + b;
      RunAppend(Step(r, a[0]), a[1..], b);
    }
  }

  lemma RunTwo(r: Receiver, c: Byte, d: Byte)
    ensures Run(r, [c, d]) == Step(Step(r, c), d)
  {
    assert [c, d][1..] == [d] && [d][1..] == [];
    assert Run(Step(r, c), [d]) == Run(Step(Step(r, c), d), []);
  }

  /** From every state, DLE STX opens a new packet. */
  lemma Opens(r: Receiver, rest: seq<Byte>)
    ensures Run(r, [DLE, STX] + rest) == Run(Receiver(Receive, [], r.delivered), rest)
  {
    RunAppend(r, [DLE, STX], rest);
    RunTwo(r, DLE, STX);
  }

  lemma {:induction false} PlainBody(r: Receiver, a: seq<Byte>)
    requires r.state == Receive && DLE !in a
    ensures Run(r, a) == r.(receiving := r.receiving + a)
    decreases |a|
  {
    if a == [] {
      assert r.receiving + a == r.receiving;
    } else {
      PlainBody(Step(r, a[0]), a[1..]);
      assert r.receiving + [a[0]] + a[1..] == r.receiving + a;
    }
  }

  lemma {:induction false} EscapedBody(r: Receiver, b: seq<Byte>)
    requires r.state == Escape && ETX !in b && STX !in b
    ensures Run(r, b) == r.(receiving := r.receiving + b)
    decreases |b|
  {
    if b == [] {
      assert r.receiving + b == r.receiving;
    } else {
      EscapedBody(Step(r, b[0]), b[1..]);
      assert r.receiving + [b[0]] + b[1..] == r.receiving + b;
    }
  }

  /** The first position of `c` in `b`, or its length. */
  function IndexOf(b: seq<Byte>, c: Byte): (i: nat)
    ensures i <= |b| && (forall k | 0 <= k < i :: b[k] != c)
    ensures i < |b| ==> b[i] == c
  {
    if b == [] || b[0] == c then 0 else 1 + IndexOf(b[1..], c)
  }

  predicate AllDle(b: seq<Byte>) {
    forall j | 0 <= j < |b| :: b[j] == DLE
  }

  /** No DLE at all, or only a run of them at the end. */
  predicate DlesTrail(body: seq<Byte>) {
    forall i, j | 0 <= i < j < |body| && body[i] == DLE :: body[j] == DLE
  }

  /** The bytes of a frame. */
  lemma FrameBytes(body: seq<Byte>)
    ensures Frame(body) == [0x10, 0x02] + body + [0x10, 0x03]
    ensures DlesTrail(body) <==> forall i, j | 0 <= i < j < |body| && body[i] == 0x10 :: body[j] == 0x10
  {
  }

  /** From every receiver state, a frame delivers exactly its body, whenever the body has no DLE in front of
      another byte; it ends in Idle exactly if the packet is accepted. */
  lemma FrameDelivers(r: Receiver, body: seq<Byte>)
    requires DlesTrail(body)
    ensures Run(r, Frame(body)) == Receiver(After(body), body, r.delivered + [body])
    ensures Run(r, Frame(body)).state == Idle <==> Accepted(body)
  {
    hide Run;
    var i := IndexOf(body, DLE);
    var a, b := body[..i], body[i..];
    var open := Receiver(Receive, [], r.delivered);
    assert Frame(body) == [DLE, STX] + (a + (b + [DLE, ETX]));
    Opens(r, a + (b + [DLE, ETX]));
    RunAppend(open, a, b + [DLE, ETX]);
    PlainBody(open, a);
    assert [] + a == a;
    AllDles(Receiver(Receive, a, r.delivered), b);
    assert a + b == body;
  }

  /** Which packets the receiver handles, and which leave it in Escape, from every state: those of types 104 and 106
      need two bytes, 105 two as well, but nineteen with command 60, and all others one. */
  lemma FrameEnds(r: Receiver, body: seq<Byte>)
    requires DlesTrail(body)
    ensures var state := Run(r, Frame(body)).state;
      && (body == [] ==> state == Escape)
      && (|body| >= 1 && body[0] != 104 && body[0] != 105 && body[0] != 106 ==> state == Idle)
      && (|body| >= 1 && (body[0] == 104 || body[0] == 106) ==> state == if |body| >= 2 then Idle else Escape)
      && (|body| == 1 && body[0] == 105 ==> state == Escape)
      && (|body| >= 2 && body[0] == 105 && body[1] != 60 ==> state == Idle)
      && (|body| >= 2 && body[0] == 105 && body[1] == 60 ==> state == if |body| >= 19 then Idle else Escape)
  {
    hide Run;
    FrameDelivers(r, body);
  }

  lemma AllDles(r: Receiver, b: seq<Byte>)
    requires r.state == Receive && AllDle(b)
    ensures Run(r, b + [DLE, ETX]) == Receiver(After(r.receiving + b), r.receiving + b, r.delivered + [r.receiving + b])
  {
    if b == [] {
      assert b + [DLE, ETX] == [DLE, ETX] && r.receiving + b == r.receiving;
      RunTwo(r, DLE, ETX);
    } else {
      var tail := b[1..] + [DLE];
      assert b + [DLE, ETX] == [DLE] + (tail + [ETX]);
      var esc := r.(state := Escape);
      assert ([DLE] + (tail + [ETX]))[1..] == tail + [ETX];
      RunAppend(esc, tail, [ETX]);
      EscapedBody(esc, tail);
      assert tail == b;
      assert [ETX][1..] == [];
    }
  }

  /** What a closing DLE ETX does after any bytes: what was delivered stays, at least one packet more
      comes, and the last one is no longer than all that was seen since the receiving buffer was reset. */
  lemma {:induction false} TailDelivers(r: Receiver, t: seq<Byte>)
    ensures var end := Run(r, t + [DLE, ETX]).delivered;
      && |r.delivered| < |end| && end[..|r.delivered|] == r.delivered
      && |end[|end| - 1]| <= |r.receiving| + |t| + 1
    decreases |t|
  {
    if t == [] {
      assert t + [DLE, ETX] == [DLE, ETX];
      RunTwo(r, DLE, ETX);
    } else {
      assert (t + [DLE, ETX])[1..] == t[1..] + [DLE, ETX];
      var s := Step(r, t[0]);
      TailDelivers(s, t[1..]);
      var end := Run(s, t[1..] + [DLE, ETX]).delivered;
      assert s.delivered[..|r.delivered|] == r.delivered;
      assert end[..|r.delivered|] == end[..|s.delivered|][..|r.delivered|];
    }
  }

  lemma ShiftedEqual(b: seq<Byte>)
    requires b + [DLE] == [DLE] + b
    ensures AllDle(b)
  {
    for j := 0 to |b|
      invariant forall i | 0 <= i < j :: b[i] == DLE
    {
      assert (b + [DLE])[j] == ([DLE] + b)[j];
    }
  }

  lemma NothingSpecial(a: seq<Byte>, b: seq<Byte>, delivered: seq<seq<Byte>>)
    requires ETX !in b && STX !in b && !AllDle(b)
    ensures Run(Receiver(Escape, a, delivered), b + [DLE, ETX]).delivered != delivered + [a + [DLE] + b]
  {
    hide Run;
    RunAppend(Receiver(Escape, a, delivered), b, [DLE, ETX]);
    EscapedBody(Receiver(Escape, a, delivered), b);
    RunTwo(Receiver(Escape, a + b, delivered), DLE, ETX);
    if a + b + [DLE] == a + [DLE] + b {
      assert b + [DLE] == (a + b + [DLE])[|a|..] == (a + [DLE] + b)[|a|..] == [DLE] + b;
      ShiftedEqual(b);
    }
    assert (delivered + [a + b + [DLE]])[|delivered|] == a + b + [DLE];
    assert (delivered + [a + [DLE] + b])[|delivered|] == a + [DLE] + b;
  }

  lemma SomethingSpecial(a: seq<Byte>, p: seq<Byte>, c: Byte, q: seq<Byte>, delivered: seq<seq<Byte>>)
    requires ETX !in p && STX !in p && (c == ETX || c == STX)
    ensures Run(Receiver(Escape, a, delivered), p + ([c] + (q + [DLE, ETX]))).delivered
         != delivered + [a + [DLE] + (p + [c] + q)]
  {
    var mid := Receiver(Escape, a + p, delivered);
    assert ([c] + (q + [DLE, ETX]))[1..] == q + [DLE, ETX];
    assert Run(mid, [c] + (q + [DLE, ETX])) == Run(Step(mid, c), q + [DLE, ETX]);
    hide Run;
    RunAppend(Receiver(Escape, a, delivered), p, [c] + (q + [DLE, ETX]));
    EscapedBody(Receiver(Escape, a, delivered), p);
    TailDelivers(Step(mid, c), q);
  }

  /** From Escape with `a` received: the rest of a body that does not end there comes out changed. */
  lemma EscapedTail(a: seq<Byte>, b: seq<Byte>, delivered: seq<seq<Byte>>)
    requires !AllDle(b)
    ensures Run(Receiver(Escape, a, delivered), b + [DLE, ETX]).delivered != delivered + [a + [DLE] + b]
  {
    hide Run, IndexOf, AllDle;
    var i := FirstSpecial(b);
    if i == |b| {
      assert b[..i] == b;
      NothingSpecial(a, b, delivered);
    } else {
      SplitAt(b, i, [DLE, ETX]);
      SomethingSpecial(a, b[..i], b[i], b[i + 1..], delivered);
    }
  }

  lemma FirstSpecial(b: seq<Byte>) returns (i: nat)
    ensures i <= |b| && ETX !in b[..i] && STX !in b[..i]
    ensures i < |b| ==> b[i] == ETX || b[i] == STX
  {
    i := if IndexOf(b, ETX) < IndexOf(b, STX) then IndexOf(b, ETX) else IndexOf(b, STX);
  }

  lemma SplitAt(b: seq<Byte>, i: nat, tail: seq<Byte>)
    requires i < |b|
    ensures b == b[..i] + [b[i]] + b[i + 1..]
    ensures b + tail == b[..i] + ([b[i]] + (b[i + 1..] + tail))
  {
  }

  /** The framing does not escape the body, and this is exactly what that costs: a frame delivers its
      body, and nothing else, if and only if no DLE of the body stands in front of another byte. */
  lemma FrameArrives(r: Receiver, body: seq<Byte>)
    ensures Run(r, Frame(body)).delivered == r.delivered + [body] <==> DlesTrail(body)
  {
    hide Run;
    if DlesTrail(body) {
      FrameDelivers(r, body);
    } else {
      var i := IndexOf(body, DLE);
      TrailAfterFirst(body, i);
      var a, b := body[..i], body[i + 1..];
      assert body == a + [DLE] + b;
      ReachesEscape(r, a, b);
      EscapedTail(a, b, r.delivered);
    }
  }

  /** The first DLE of a body is taken for an escape. */
  lemma ReachesEscape(r: Receiver, a: seq<Byte>, b: seq<Byte>)
    requires DLE !in a
    ensures Run(r, Frame(a + [DLE] + b)) == Run(Receiver(Escape, a, r.delivered), b + [DLE, ETX])
  {
    var open, rest := Receiver(Receive, [], r.delivered), b + [DLE, ETX];
    assert Frame(a + [DLE] + b) == [DLE, STX] + (a + ([DLE] + rest));
    Opens(r, a + ([DLE] + rest));
    RunAppend(open, a, [DLE] + rest);
    PlainBody(open, a);
    assert [] + a == a;
    OneEscape(Receiver(Receive, a, r.delivered), rest);
  }

  lemma OneEscape(r: Receiver, rest: seq<Byte>)
    requires r.state == Receive
    ensures Run(r, [DLE] + rest) == Run(r.(state := Escape), rest)
  {
    assert ([DLE] + rest)[1..] == rest;
  }

  lemma TrailAfterFirst(body: seq<Byte>, i: nat)
    requires i == IndexOf(body, DLE)
    ensures DlesTrail(body) <==> i == |body| || AllDle(body[i + 1..])
  {
    if i < |body| {
      assert forall j | i < j < |body| :: body[j] == body[i + 1..][j - i - 1];
    }
  }

  /** A rejected packet leaves the receiver open for noise: an ETX alone then delivers the packet again. */
  lemma RejectedComesAgain(r: Receiver)
    ensures Run(r, Frame([]) + [ETX]).delivered == r.delivered + [[], []]
    ensures !Accepted([])
  {
    hide Run;
    FrameDelivers(r, []);
    RunAppend(r, Frame([]), [ETX]);
    RunOne(Receiver(Escape, [], r.delivered + [[]]), ETX);
    assert r.delivered + [[]] + [[]] == r.delivered + [[], []];
  }

  lemma RunOne(r: Receiver, c: Byte)
    ensures Run(r, [c]) == Step(r, c)
  {
    assert [c][1..] == [];
  }

  // ---------------------------------------------------------------------------------------------
  // Streams
  // ---------------------------------------------------------------------------------------------

  /** A frame preceded by noise on the line. */
  datatype Sent = Sent(noise: seq<Byte>, body: seq<Byte>)

  function Stream(items: seq<Sent>): seq<Byte> {
    if items == [] then [] else items[0].noise + (Frame(items[0].body) + Stream(items[1..]))
  }

  function Bodies(items: seq<Sent>): seq<seq<Byte>> {
    if items == [] then [] else [items[0].body] + Bodies(items[1..])
  }

  lemma {:induction false} NoiseIgnored(r: Receiver, noise: seq<Byte>)
    requires r.state == Idle && DLE !in noise
    ensures Run(r, noise) == r
    decreases |noise|
  {
    if noise != [] {
      NoiseIgnored(r, noise[1..]);
    }
  }

  /** Noise with no ETX in front of its first STX. */
  predicate Harmless(noise: seq<Byte>) {
    IndexOf(noise, STX) <= IndexOf(noise, ETX)
  }

  lemma HarmlessOnce(noise: seq<Byte>)
    ensures noise != [] ==>
      (Harmless(noise) <==> noise[0] == STX || (noise[0] != ETX && Harmless(noise[1..])))
  {
  }

  /** Nothing that was delivered is taken back. */
  lemma {:induction false} RunGrows(r: Receiver, t: seq<Byte>)
    ensures |Run(r, t).delivered| >= |r.delivered|
    decreases |t|
  {
    if t != [] {
      RunGrows(Step(r, t[0]), t[1..]);
    }
  }

  lemma {:induction false} NoiseCollected(r: Receiver, noise: seq<Byte>)
    requires r.state == Receive && DLE !in noise
    ensures Run(r, noise).delivered == r.delivered
    decreases |noise|
  {
    if noise != [] {
      NoiseCollected(Step(r, noise[0]), noise[1..]);
    }
  }

  /** In Escape, as a rejected packet leaves the receiver, noise delivers nothing exactly if it is harmless. */
  lemma {:induction false} NoiseInEscape(r: Receiver, noise: seq<Byte>)
    requires r.state == Escape && DLE !in noise
    ensures Harmless(noise) ==> Run(r, noise).delivered == r.delivered
    ensures !Harmless(noise) ==> |Run(r, noise).delivered| > |r.delivered|
    decreases |noise|
  {
    HarmlessOnce(noise);
    if noise != [] {
      var s := Step(r, noise[0]);
      if noise[0] == STX {
        NoiseCollected(s, noise[1..]);
      } else if noise[0] == ETX {
        RunGrows(s, noise[1..]);
      } else {
        NoiseInEscape(s, noise[1..]);
      }
    }
  }

  predicate Wellformed(items: seq<Sent>) {
    forall i | 0 <= i < |items| :: DLE !in items[i].noise && DlesTrail(items[i].body)
  }

  /** Noise behind a rejected packet is harmless; `open` says whether the packet in front of the first was rejected. */
  predicate Undisturbed(items: seq<Sent>, open: bool) {
    && (items != [] && open ==> Harmless(items[0].noise))
    && (forall i | 1 <= i < |items| && !Accepted(items[i - 1].body) :: Harmless(items[i].noise))
  }

  lemma UndisturbedOnce(items: seq<Sent>, open: bool)
    ensures items == [] ==> Undisturbed(items, open)
    ensures items != [] && Wellformed(items) ==> Wellformed(items[1..])
    ensures items != [] ==>
      (Undisturbed(items, open) <==>
        (open ==> Harmless(items[0].noise)) && Undisturbed(items[1..], !Accepted(items[0].body)))
  {
    hide Harmless, Accepted, DlesTrail;
    if items != [] {
      var rest := items[1..];
      assert forall i | 0 <= i < |rest| :: rest[i] == items[i + 1];
      assert forall i | 1 <= i < |items| :: items[i] == rest[i - 1];
      assert items == [items[0]] + rest;
    }
  }

  /** From any state, each frame delivers at least its body. */
  lemma {:induction false} StreamGrows(r: Receiver, items: seq<Sent>)
    requires Wellformed(items)
    ensures |Run(r, Stream(items)).delivered| >= |r.delivered| + |items|
    decreases |items|
  {
    hide Run, Frame, Undisturbed, Accepted, DlesTrail;
    if items == [] {
      RunNothing(r);
    } else {
      UndisturbedOnce(items, false);
      StreamRuns(r, items);
      RunGrows(r, items[0].noise);
      StreamGrows(AfterFrame(Run(r, items[0].noise), items[0].body), items[1..]);
    }
  }

  /** The receiver behind a frame. */
  function AfterFrame(r: Receiver, body: seq<Byte>): Receiver {
    Receiver(After(body), body, r.delivered + [body])
  }

  lemma StreamRuns(r: Receiver, items: seq<Sent>)
    requires Wellformed(items) && items != []
    ensures Run(r, Stream(items)) == Run(AfterFrame(Run(r, items[0].noise), items[0].body), Stream(items[1..]))
  {
    hide Run, Frame, Accepted, DlesTrail;
    var noise, body, rest := items[0].noise, items[0].body, Stream(items[1..]);
    RunAppend(r, noise, Frame(body) + rest);
    RunAppend(Run(r, noise), Frame(body), rest);
    FrameDelivers(Run(r, noise), body);
  }

  /** Exactly which streams arrive: with DLE-free noise in between, the bodies are delivered in order and nothing else,
      if and only if no noise that follows a rejected packet has an ETX in front of its first STX. */
  lemma {:induction false} StreamExactly(r: Receiver, items: seq<Sent>)
    requires r.state != Receive && Wellformed(items)
    ensures Run(r, Stream(items)).delivered == r.delivered + Bodies(items) <==> Undisturbed(items, r.state == Escape)
    decreases |items|
  {
    hide *;
    UndisturbedOnce(items, r.state == Escape);
    OneMoreBody(r.delivered, items);
    if items == [] {
      RunNothing(r);
    } else {
      var noise, body := items[0].noise, items[0].body;
      StreamRuns(r, items);
      var after := AfterFrame(Run(r, noise), body);
      BodiesCount(items);
      if r.state == Idle {
        NoiseIgnored(r, noise);
      } else {
        NoiseInEscape(r, noise);
      }
      if r.state == Escape && !Harmless(noise) {
        StreamGrows(after, items[1..]);
      } else {
        StreamExactly(after, items[1..]);
      }
    }
  }

  lemma OneMoreBody(delivered: seq<seq<Byte>>, items: seq<Sent>)
    ensures items == [] ==> Stream(items) == [] && delivered + Bodies(items) == delivered
    ensures items != [] ==> delivered + Bodies(items) == delivered + [items[0].body] + Bodies(items[1..])
    ensures forall r: Receiver, body :: AfterFrame(r, body) == Receiver(After(body), body, r.delivered + [body])
    ensures forall body :: After(body) == if Accepted(body) then Idle else Escape
    ensures Wellformed(items) && items != [] ==> DLE !in items[0].noise
  {
    if items != [] {
      assert delivered + ([items[0].body] + Bodies(items[1..])) == delivered + [items[0].body] + Bodies(items[1..]);
    }
  }

  lemma {:induction false} BodiesCount(items: seq<Sent>)
    ensures |Bodies(items)| == |items|
    decreases |items|
  {
    if items != [] {
      BodiesCount(items[1..]);
    }
  }

  /** So streams of accepted packets arrive, whatever DLE-free noise there is, and leave the receiver idle. */
  lemma {:induction false} StreamDelivers(r: Receiver, items: seq<Sent>)
    requires r.state == Idle && Wellformed(items)
    requires forall i | 0 <= i < |items| :: Accepted(items[i].body)
    ensures Run(r, Stream(items)).delivered == r.delivered + Bodies(items)
    ensures Run(r, Stream(items)).state == Idle
    decreases |items|
  {
    hide Run, Frame, Accepted, DlesTrail, Harmless;
    StreamExactly(r, items);
    if items == [] {
      RunNothing(r);
    } else {
      UndisturbedOnce(items, false);
      StreamRuns(r, items);
      NoiseIgnored(r, items[0].noise);
      StreamDelivers(AfterFrame(r, items[0].body), items[1..]);
    }
  }

  lemma RunNothing(r: Receiver)
    ensures Run(r, []) == r
  {
  }
}
