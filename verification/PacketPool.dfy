/** The pool of packets of ipv6_packet_pool_manager.h. */
module PacketPool {
  import opened Bytes
  import opened Packet

  /** The lowest packet that is not in use; the number of packets when all are. */
  function FirstFree(used: seq<bool>): (k: nat)
    ensures k <= |used| && (k < |used| ==> !used[k]) && forall i | 0 <= i < k :: used[i]
  {
    if used == [] || !used[0] then 0 else
      var k := FirstFree(used[1..]);
      assert forall i | 0 <= i < k :: used[i + 1] == used[1..][i];
      assert forall i | 1 <= i < k + 1 :: used[i] == used[1..][i - 1];
      k + 1
  }

  lemma FirstFreeIs(used: seq<bool>, k: nat)
    requires k <= |used| && (forall i | 0 <= i < k :: used[i]) && (k < |used| ==> !used[k])
    ensures FirstFree(used) == k
  {
  }

  class PacketPool {
    const packets: seq<IPv6Packet>
    /** How often a packet was handed out, and given back. */
    ghost var acquired: nat
    ghost var released: nat

    ghost predicate Valid() {
      && (forall i | 0 <= i < |packets| :: packets[i].buffer.Length == BUFFER_SIZE + 32)
      && (forall i, j | 0 <= i < j < |packets| :: packets[i] != packets[j] && packets[i].buffer != packets[j].buffer)
    }

    ghost function Used(): (r: seq<bool>)
      reads packets
      ensures |r| == |packets|
    {
      seq(|packets|, i requires 0 <= i < |packets| reads packets => packets[i].valid)
    }

    ghost function Buffers(): set<array<Byte>> {
      set p | p in packets :: p.buffer
    }

    lemma Sizes()
      ensures |Used()| == |packets| && FirstFree(Used()) <= |packets|
      ensures forall i | 0 <= i < |packets| :: Used()[i] == packets[i].valid && packets[i].buffer in Buffers()
      ensures Valid() ==> forall i | 0 <= i < |packets| :: packets[i].buffer.Length == 1532
    {
    }

    lemma Apart()
      requires Valid()
      ensures forall i, j | 0 <= i < j < |packets| :: packets[i] != packets[j] && packets[i].buffer != packets[j].buffer
    {
    }

    constructor (packets: seq<IPv6Packet>)
      requires forall i | 0 <= i < |packets| :: packets[i].buffer.Length == BUFFER_SIZE + 32
      requires forall i, j | 0 <= i < j < |packets| ::
        packets[i] != packets[j] && packets[i].buffer != packets[j].buffer
      ensures Valid() && this.packets == packets && acquired == released == 0
    {
      this.packets, acquired, released := packets, 0, 0;
    }

    method GetUnusedPacketWithNumber() returns (k: nat)
      requires Valid()
      modifies this, packets, Buffers()
      ensures Valid() && k == FirstFree(old(Used()))
      ensures k == |packets| ==> Used() == old(Used()) && acquired == old(acquired)
      ensures k < |packets| ==> Used() == old(Used())[k := true] && acquired == old(acquired) + 1
      ensures k < |packets| ==>
        && packets[k].buffer[0] == 0x60 && packets[k].buffer[NEXT_HEADER_BYTE] == NEXT_HEADER_NOT_SET
        && forall i | 1 <= i < BUFFER_SIZE && i != NEXT_HEADER_BYTE :: packets[k].buffer[i] == 0
      ensures k < |packets| ==>
        !packets[k].ndInstallation && packets[k].transportNextHeader == 0 && packets[k].remoteLlAddress == 0
      ensures forall i | 0 <= i < |packets| && i != k :: unchanged(packets[i]) && unchanged(packets[i].buffer)
      ensures released == old(released)
    {
      k := 0;
      ghost var used := Used();
      while k < |packets|
        invariant k <= |packets| && forall i | 0 <= i < k :: used[i]
      {
        if !packets[k].valid {
          FirstFreeIs(used, k);
          packets[k].Reset();
          packets[k].valid := true;
          acquired := acquired + 1;
          assert Used() == used[k := true];
          return;
        }
        k := k + 1;
      }
      FirstFreeIs(used, k);
    }

    method CleanPacket(k: nat)
      requires Valid() && k < |packets|
      modifies this, packets[k]
      ensures Valid() && Used() == old(Used())[k := false]
      ensures released == old(released) + 1 && acquired == old(acquired)
    {
      packets[k].valid := false;
      released := released + 1;
    }
  }
}
