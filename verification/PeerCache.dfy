/**
 * The peer cache of udp4radio.h: slots 1..49 handed out round robin, slot 0 never used.
 */
module PeerCache {

  const NUM_CORRESPONDENTS: nat := 50

  datatype Socket = Socket(addr: nat, port: nat)

  const DEFAULT_SOCKET := Socket(0, 0)

  /** The peers, and the slot the next new one gets. */
  datatype Cache = Cache(peers: seq<Socket>, next: nat)

  predicate Valid(c: Cache) {
    |c.peers| == NUM_CORRESPONDENTS && 1 <= c.next < NUM_CORRESPONDENTS
  }

  function Empty(): Cache {
    Cache(seq(NUM_CORRESPONDENTS, _ => DEFAULT_SOCKET), 1)
  }

  /** The first slot from `i` on that holds `peer`; one more than the capacity when there is none. */
  function FindFrom(peers: seq<Socket>, peer: Socket, i: nat): (r: nat)
    requires i <= |peers|
    ensures r == NUM_CORRESPONDENTS + 1 || i <= r < |peers|
    decreases |peers| - i
  {
    if i == |peers| then NUM_CORRESPONDENTS + 1
    else if peers[i] == peer then i
    else FindFrom(peers, peer, i + 1)
  }

  function Find(c: Cache, peer: Socket): nat
    requires Valid(c)
  {
    FindFrom(c.peers, peer, 1)
  }

  predicate IsNew(c: Cache, peer: Socket)
    requires Valid(c)
  {
    Find(c, peer) == NUM_CORRESPONDENTS + 1
  }

  function Advance(next: nat): nat {
    if next + 1 == NUM_CORRESPONDENTS then 1 else next + 1
  }

  function Add(c: Cache, peer: Socket): (r: Cache)
    requires Valid(c)
    ensures Valid(r)
  {
    if IsNew(c, peer) then Cache(c.peers[c.next := peer], Advance(c.next)) else c
  }

  /** The index `Add` hands out. */
  function IndexOf(c: Cache, peer: Socket): nat
    requires Valid(c)
  {
    if IsNew(c, peer) then c.next else Find(c, peer)
  }

  // ---------------------------------------------------------------------------------------------
  // The radio
  // ---------------------------------------------------------------------------------------------

  class Udp4Radio {
    const correspondents: array<Socket>
    var corrIndex: nat

    constructor ()
      ensures fresh(correspondents)
      ensures correspondents.Length == NUM_CORRESPONDENTS && View() == Empty()
    {
      corrIndex := 1;
      var peers := new Socket[NUM_CORRESPONDENTS](_ => DEFAULT_SOCKET);
      correspondents := peers;
      assert peers[..] == Empty().peers;
    }

    ghost function View(): Cache
      reads this, correspondents
    {
      Cache(correspondents[..], corrIndex)
    }

    method FindCorrespondent(peer: Socket) returns (index: nat)
      requires Valid(View())
      ensures index == Find(View(), peer)
    {
      for i := 1 to correspondents.Length
        invariant Find(View(), peer) == FindFrom(correspondents[..], peer, i)
      {
        if correspondents[i] == peer {
          return i;
        }
      }
      return NUM_CORRESPONDENTS + 1;
    }

    method AddCorrespondent(peer: Socket) returns (index: nat)
      requires Valid(View())
      modifies this, correspondents
      ensures View() == Add(old(View()), peer) && Valid(View())
      ensures index == IndexOf(old(View()), peer)
    {
      index := FindCorrespondent(peer);
      if index == NUM_CORRESPONDENTS + 1 {
        index := corrIndex;
        correspondents[index] := peer;
        corrIndex := corrIndex + 1;
        if corrIndex == NUM_CORRESPONDENTS {
          corrIndex := 1;
        }
      }
    }
  }

  // ---------------------------------------------------------------------------------------------
  // One addition
  // ---------------------------------------------------------------------------------------------

  lemma {:induction false} FindFromSound(peers: seq<Socket>, peer: Socket, i: nat)
    requires i <= |peers| == NUM_CORRESPONDENTS
    ensures var r := FindFrom(peers, peer, i);
      && (r < |peers| ==> peers[r] == peer)
      && (forall k | i <= k < |peers| && k < r :: peers[k] != peer)
    decreases |peers| - i
  {
    if i < |peers| && peers[i] != peer {
      FindFromSound(peers, peer, i + 1);
    }
  }

  lemma FindSound(c: Cache, peer: Socket)
    requires Valid(c)
    ensures IsNew(c, peer) <==> forall k | 1 <= k < NUM_CORRESPONDENTS :: c.peers[k] != peer
    ensures !IsNew(c, peer) ==> 1 <= Find(c, peer) < NUM_CORRESPONDENTS && c.peers[Find(c, peer)] == peer
  {
    FindFromSound(c.peers, peer, 1);
  }

  /** The index handed out holds the peer, is never 0, and asking again changes nothing. */
  lemma AddGivesPeer(c: Cache, peer: Socket)
    requires Valid(c)
    ensures 1 <= IndexOf(c, peer) < NUM_CORRESPONDENTS
    ensures Add(c, peer).peers[IndexOf(c, peer)] == peer
    ensures Add(Add(c, peer), peer) == Add(c, peer)
    ensures forall k | 0 <= k < NUM_CORRESPONDENTS && k != IndexOf(c, peer) :: Add(c, peer).peers[k] == c.peers[k]
  {
    FindSound(c, peer);
    FindSound(Add(c, peer), peer);
  }

  // ---------------------------------------------------------------------------------------------
  // Runs
  // ---------------------------------------------------------------------------------------------

  function Run(c: Cache, added: seq<Socket>): (r: Cache)
    requires Valid(c)
    ensures Valid(r)
    decreases |added|
  {
    if added == [] then c else Run(Add(c, added[0]), added[1..])
  }

  /** How many of the additions were of peers not in the cache at that moment. */
  function NewOnes(c: Cache, added: seq<Socket>): nat
    requires Valid(c)
    decreases |added|
  {
    if added == [] then 0
    else (if IsNew(c, added[0]) then 1 else 0) + NewOnes(Add(c, added[0]), added[1..])
  }

  /** How many new peers other slots take before slot `k` is next. */
  function Distance(k: nat, next: nat): int {
    if k >= next then k - next else k - next + NUM_CORRESPONDENTS - 1
  }

  /** A slot keeps its peer as long as it is not its turn. */
  lemma {:induction false} SlotKept(c: Cache, added: seq<Socket>, k: nat)
    requires Valid(c) && 1 <= k < NUM_CORRESPONDENTS
    requires NewOnes(c, added) <= Distance(k, c.next)
    ensures Run(c, added).peers[k] == c.peers[k]
    ensures Distance(k, Run(c, added).next) == Distance(k, c.next) - NewOnes(c, added)
    decreases |added|
  {
    if added != [] {
      SlotKept(Add(c, added[0]), added[1..], k);
    }
  }

  /** First in, first out: an index handed to a new peer keeps that peer through the next 48 additions
      of new peers, however many known ones come in between; the 49th takes exactly this slot. */
  lemma FifoGuarantee(c: Cache, peer: Socket, added: seq<Socket>, last: Socket)
    requires Valid(c) && IsNew(c, peer)
    requires NewOnes(Add(c, peer), added) <= 48
    ensures Run(Add(c, peer), added).peers[IndexOf(c, peer)] == peer
    ensures !IsNew(Run(Add(c, peer), added), peer)
    ensures NewOnes(Add(c, peer), added) == 48 && IsNew(Run(Add(c, peer), added), last) ==>
      && IndexOf(Run(Add(c, peer), added), last) == IndexOf(c, peer)
      && Run(Add(c, peer), added + [last]).peers[IndexOf(c, peer)] == last != peer
  {
    var k, d := IndexOf(c, peer), Add(c, peer);
    AddGivesPeer(c, peer);
    SlotKept(d, added, k);
    var e := Run(d, added);
    FindSound(e, peer);
    RunAppend(d, added, [last]);
    assert Run(e, [last]) == Run(Add(e, last), [last][1..]) == Add(e, last);
  }

  lemma {:induction false} RunAppend(c: Cache, a: seq<Socket>, b: seq<Socket>)
    requires Valid(c)
    ensures Run(c, a + b) == Run(Run(c, a), b)
    ensures NewOnes(c, a + b) == NewOnes(c, a) + NewOnes(Run(c, a), b)
    decreases |a|
  {
    if a == [] {
      assert a + b == b;
    } else {
      assert (a + b)[1..] == a[1..] + b;
      RunAppend(Add(c, a[0]), a[1..], b);
    }
  }

  // ---------------------------------------------------------------------------------------------
  // Every state that can be reached
  // ---------------------------------------------------------------------------------------------

  /** After `n` additions of new peers: the slots handed out are 1..n, all of them from 49 on; a peer in
      such a slot stands nowhere else; the slots not handed out are still the default. */
  ghost predicate Reached(c: Cache, n: nat) {
    && Valid(c)
    && c.next == n % 49 + 1
    && (forall i, j | 1 <= i < NUM_CORRESPONDENTS && i <= n && 1 <= j < NUM_CORRESPONDENTS && i != j ::
          c.peers[i] != c.peers[j])
    && (forall j | n < j < NUM_CORRESPONDENTS :: c.peers[j] == DEFAULT_SOCKET)
  }

  lemma ReachedStep(c: Cache, n: nat, peer: Socket)
    requires Reached(c, n)
    ensures Reached(Add(c, peer), if IsNew(c, peer) then n + 1 else n)
  {
    FindSound(c, peer);
    if IsNew(c, peer) {
      NextSlot(n);
    }
  }

  lemma NextSlot(n: nat)
    ensures (n + 1) % 49 + 1 == Advance(n % 49 + 1)
    ensures n < 49 ==> n % 49 == n
  {
  }

  lemma {:induction false} ReachedByRun(c: Cache, n: nat, added: seq<Socket>)
    requires Reached(c, n)
    ensures Reached(Run(c, added), n + NewOnes(c, added))
    decreases |added|
  {
    if added != [] {
      ReachedStep(c, n, added[0]);
      ReachedByRun(Add(c, added[0]), if IsNew(c, added[0]) then n + 1 else n, added[1..]);
    }
  }

  /** In every run from the start, assigned slots hold pairwise distinct peers. */
  lemma AlwaysDistinct(added: seq<Socket>, i: nat, j: nat)
    requires 1 <= i < NUM_CORRESPONDENTS && 1 <= j < NUM_CORRESPONDENTS && i != j
    requires i <= NewOnes(Empty(), added)
    ensures Run(Empty(), added).peers[i] != Run(Empty(), added).peers[j]
    ensures Run(Empty(), added).next == NewOnes(Empty(), added) % 49 + 1
  {
    ReachedByRun(Empty(), 0, added);
  }
}
