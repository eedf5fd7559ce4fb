/** Receive buffers: allocation for the hardware and linking of the filled buffers of a frame. */
module EthReceive {
  import opened Wrappers
  import opened EthPacket

  /** A receive buffer the hardware has filled: its address and the bytes in it. */
  datatype Filled = Filled(buff: int, length: nat)

  class RxPath {
    /** sizeof(NX_PACKET); a packet's payload memory starts right behind its control block. */
    const packetSize: nat
    /** The packets by the address of their control block. */
    const memory: map<int, NxPacket>
    var first: NxPacket?
    var last: NxPacket?

    constructor (packetSize: nat, memory: map<int, NxPacket>)
      ensures this.packetSize == packetSize && this.memory == memory && first == null
    {
      this.packetSize, this.memory, first, last := packetSize, memory, null, null;
    }

    /** The address of a payload position of the packet at base. */
    function AddressOf(base: int, position: int): int {
      base + packetSize + position
    }

    /** The packet that a receive buffer belongs to. */
    function PacketOf(buff: int): NxPacket
      requires buff - 2 - packetSize in memory
    {
      memory[buff - 2 - packetSize]
    }

    /** Hands a fresh packet's payload to the hardware; pool is the address of the allocated packet, if there is one. */
    method RxAllocate(pool: Option<int>) returns (buff: Option<int>)
      requires pool.Some? ==> pool.value in memory && memory[pool.value].prepend == 0
      modifies (if pool.Some? then {memory[pool.value]} else {})`prepend
      ensures pool.None? ==> buff == None
      ensures pool.Some? ==>
                && buff.Some? && buff.value - 2 - packetSize in memory
                && PacketOf(buff.value) == memory[pool.value]
                && memory[pool.value].prepend == 2
    {
      if pool.None? {
        return None;
      }
      var p := memory[pool.value];
      p.prepend := p.prepend + 2;
      buff := Some(AddressOf(pool.value, p.prepend));
    }

    /** The packets linked so far, in order. */
    ghost predicate IsChain(chain: seq<NxPacket>)
      reads this, chain
    {
      && (chain == [] ==> first == null)
      && (chain != [] ==> first == chain[0] && last == chain[|chain| - 1] && chain[|chain| - 1].next == null)
      && (forall i :: 0 <= i < |chain| - 1 ==> chain[i].next == chain[i + 1])
      && (forall i, j :: 0 <= i < j < |chain| ==> chain[i] != chain[j])
    }

    /** Links one filled buffer behind the others. */
    method RxLink(f: Filled, ghost chain: seq<NxPacket>)
      requires f.buff - 2 - packetSize in memory
      requires IsChain(chain) && PacketOf(f.buff) !in chain && PacketOf(f.buff).next == null
      modifies this`first, this`last, PacketOf(f.buff)`append, PacketOf(f.buff)`length, chain`next
      ensures IsChain(chain + [PacketOf(f.buff)])
      ensures var p := PacketOf(f.buff); p.append == p.prepend + f.length && p.length == f.length
    {
      var p := memory[f.buff - 2 - packetSize];
      p.append := p.prepend + f.length;
      p.length := f.length;
      if first == null {
        first := p;
      } else {
        last.next := p;
      }
      last := p;
    }

    /** The packets of filled buffers, in the order of their callbacks. */
    ghost function PacketsOf(fs: seq<Filled>): (ps: seq<NxPacket>)
      requires forall f :: f in fs ==> f.buff - 2 - packetSize in memory
      ensures |ps| == |fs| && forall i :: 0 <= i < |fs| ==> ps[i] == PacketOf(fs[i].buff)
    {
      seq(|fs|, i requires 0 <= i < |fs| => PacketOf(fs[i].buff))
    }

    /** The first i packets are linked and hold what their buffers say; the others are fresh. */
    ghost predicate LinkedUpTo(fs: seq<Filled>, ps: seq<NxPacket>, i: nat)
      requires i <= |fs| == |ps|
      reads this, ps
    {
      && IsChain(ps[..i])
      && (forall k :: i <= k < |ps| ==> ps[k].next == null)
      && (forall k :: 0 <= k < i ==> ps[k].length == fs[k].length && ps[k].append == ps[k].prepend + fs[k].length)
    }

    /** One callback of the sequence. */
    method RxLinkOne(fs: seq<Filled>, ghost ps: seq<NxPacket>, i: nat)
      requires i < |fs| == |ps| && LinkedUpTo(fs, ps, i)
      requires fs[i].buff - 2 - packetSize in memory && PacketOf(fs[i].buff) == ps[i]
      requires forall k, l :: 0 <= k < l < |ps| ==> ps[k] != ps[l]
      modifies this`first, this`last, ps`append, ps`length, ps`next
      ensures LinkedUpTo(fs, ps, i + 1)
    {
      hide IsChain;
      ghost var chain := ps[..i];
      assert forall k :: 0 <= k < i ==> chain[k] == ps[k];
      RxLink(fs[i], chain);
      assert chain + [ps[i]] == ps[..i + 1];
    }

    /** Any sequence of link callbacks on distinct fresh packets, from the start of a frame. */
    method RxLinkAll(fs: seq<Filled>)
      requires first == null
      requires forall f :: f in fs ==> f.buff - 2 - packetSize in memory && PacketOf(f.buff).next == null
      requires forall i, j :: 0 <= i < j < |fs| ==> PacketOf(fs[i].buff) != PacketOf(fs[j].buff)
      modifies this`first, this`last, PacketsOf(fs)`append, PacketsOf(fs)`length, PacketsOf(fs)`next
      ensures IsChain(PacketsOf(fs))
      ensures forall i :: 0 <= i < |fs| ==>
                var p := PacketsOf(fs)[i]; p.length == fs[i].length && p.append == p.prepend + fs[i].length
    {
      ghost var ps := PacketsOf(fs);
      var i := 0;
      while i < |fs|
        invariant 0 <= i <= |fs| && LinkedUpTo(fs, ps, i)
      {
        assert fs[i] in fs;
        hide LinkedUpTo, PacketOf;
        RxLinkOne(fs, ps, i);
        i := i + 1;
      }
      assert ps[..i] == ps;
    }

    /** The packets at some addresses. */
    ghost function PacketsAt(bases: seq<int>): (ps: seq<NxPacket>)
      requires forall k :: 0 <= k < |bases| ==> bases[k] in memory
      ensures |ps| == |bases| && forall k :: 0 <= k < |bases| ==> ps[k] == memory[bases[k]]
    {
      seq(|bases|, k requires 0 <= k < |bases| => memory[bases[k]])
    }

    /** Buffers for the hardware, one for every allocated packet. */
    method RxAllocateAll(bases: seq<int>) returns (buffs: seq<int>)
      requires forall k :: 0 <= k < |bases| ==> bases[k] in memory && memory[bases[k]].prepend == 0
      requires forall k, l :: 0 <= k < l < |bases| ==> memory[bases[k]] != memory[bases[l]]
      modifies PacketsAt(bases)`prepend
      ensures |buffs| == |bases|
      ensures forall k :: 0 <= k < |bases| ==>
                && buffs[k] - 2 - packetSize in memory && PacketOf(buffs[k]) == memory[bases[k]]
                && memory[bases[k]].prepend == 2
    {
      buffs := [];
      ghost var ps := PacketsAt(bases);
      while |buffs| < |bases|
        invariant |buffs| <= |bases|
        invariant forall k :: |buffs| <= k < |bases| ==> ps[k].prepend == 0
        invariant forall k :: 0 <= k < |buffs| ==>
                    buffs[k] - 2 - packetSize in memory && PacketOf(buffs[k]) == ps[k] && ps[k].prepend == 2
      {
        assert ps[|buffs|] in ps;
        var buff := RxAllocate(Some(bases[|buffs|]));
        buffs := buffs + [buff.value];
      }
    }

    /** Following next from the first packet visits exactly these packets, in order, and ends at the recorded last. */
    ghost predicate IsWalked(ps: seq<NxPacket>)
      reads this, ps
    {
      var repr := set q | q in ps;
      && Closed(repr) && (first != null ==> first in repr)
      && Walk(first, |ps|, repr) == ps && Ends(first, |ps|, repr)
      && (ps != [] ==> last == ps[|ps| - 1])
    }

    lemma ChainIsWalkedFromFirst(chain: seq<NxPacket>)
      requires IsChain(chain)
      ensures IsWalked(chain)
    {
      ChainIsClosed(chain);
      if chain != [] {
        ChainIsWalked(chain, |chain|, set q | q in chain);
      }
    }

    /** The packets that the buffers in an order were made from. */
    ghost function Picked(bases: seq<int>, order: seq<nat>): (ps: seq<NxPacket>)
      requires forall k :: 0 <= k < |bases| ==> bases[k] in memory
      requires forall i :: 0 <= i < |order| ==> order[i] < |bases|
      ensures |ps| == |order|
      ensures forall i :: 0 <= i < |order| ==> ps[i] == memory[bases[order[i]]]
    {
      seq(|order|, i requires 0 <= i < |order| => memory[bases[order[i]]])
    }

    /** A frame received: the hardware fills some of the buffers it was given, in any order, and following
        next from the first packet visits exactly the packets they were made from, in the order of filling. */
    method ReceiveFrame(bases: seq<int>, order: seq<nat>, lengths: seq<nat>)
      requires first == null && |lengths| == |order|
      requires forall k :: 0 <= k < |bases| ==>
                 bases[k] in memory && memory[bases[k]].prepend == 0 && memory[bases[k]].next == null
      requires forall k, l :: 0 <= k < l < |bases| ==> memory[bases[k]] != memory[bases[l]]
      requires forall i :: 0 <= i < |order| ==> order[i] < |bases|
      requires forall i, j :: 0 <= i < j < |order| ==> order[i] != order[j]
      modifies this`first, this`last
      modifies PacketsAt(bases)`prepend, PacketsAt(bases)`append, PacketsAt(bases)`length, PacketsAt(bases)`next
      ensures IsWalked(Picked(bases, order))
      ensures forall i :: 0 <= i < |order| ==>
                var p := memory[bases[order[i]]];
                p.prepend == 2 && p.append == 2 + lengths[i] && p.length == lengths[i]
      // The length field of the first packet, which stands for the frame from here on.
      ensures order != [] ==>
                (memory[bases[order[0]]].length == Total(lengths)
                 <==> forall i :: 0 < i < |lengths| ==> lengths[i] == 0)
    {
      hide IsWalked, IsChain;
      if order != [] {
        FirstIsTotalIff(lengths);
      }
      ghost var ps := Picked(bases, order);
      var buffs := RxAllocateAll(bases);
      var fs := seq(|order|, i requires 0 <= i < |order| => Filled(buffs[order[i]], lengths[i]));
      FilledArePicked(bases, order, buffs, lengths, fs);
      RxLinkAll(fs);
      assert PacketsOf(fs) == ps;
      ChainIsWalkedFromFirst(ps);
      forall i | 0 <= i < |order|
        ensures var p := memory[bases[order[i]]]; p.prepend == 2 && p.append == 2 + lengths[i] && p.length == lengths[i]
      {
        assert ps[i] == memory[bases[order[i]]] && fs[i].length == lengths[i];
      }
    }

    /** What the filled buffers lead back to. */
    lemma FilledArePicked(bases: seq<int>, order: seq<nat>, buffs: seq<int>, lengths: seq<nat>, fs: seq<Filled>)
      requires |lengths| == |order| && |buffs| == |bases|
      requires forall k :: 0 <= k < |bases| ==>
                 && bases[k] in memory && memory[bases[k]].next == null
                 && buffs[k] - 2 - packetSize in memory && PacketOf(buffs[k]) == memory[bases[k]]
      requires forall k, l :: 0 <= k < l < |bases| ==> memory[bases[k]] != memory[bases[l]]
      requires forall i :: 0 <= i < |order| ==> order[i] < |bases|
      requires forall i, j :: 0 <= i < j < |order| ==> order[i] != order[j]
      requires |fs| == |order| && forall i :: 0 <= i < |order| ==> fs[i] == Filled(buffs[order[i]], lengths[i])
      ensures forall f :: f in fs ==> f.buff - 2 - packetSize in memory && PacketOf(f.buff).next == null
      ensures forall i, j :: 0 <= i < j < |fs| ==> PacketOf(fs[i].buff) != PacketOf(fs[j].buff)
      ensures PacketsOf(fs) == Picked(bases, order)
      ensures forall q :: q in PacketsOf(fs) ==> q in PacketsAt(bases)
    {
      forall q | q in PacketsOf(fs)
        ensures q in PacketsAt(bases)
      {
        var i :| 0 <= i < |fs| && PacketsOf(fs)[i] == q;
        assert PacketsAt(bases)[order[i]] == q;
      }
      forall i | 0 <= i < |fs|
        ensures fs[i].buff - 2 - packetSize in memory && PacketOf(fs[i].buff) == Picked(bases, order)[i]
      {
      }
      forall i, j | 0 <= i < j < |fs|
        ensures PacketOf(fs[i].buff) != PacketOf(fs[j].buff)
      {
        assert order[i] < order[j] || order[j] < order[i];
      }
    }

    lemma ChainIsClosed(chain: seq<NxPacket>)
      requires IsChain(chain)
      ensures Closed(set q | q in chain)
    {
      forall q | q in chain
        ensures q.next != null ==> q.next in chain
      {
        var i :| 0 <= i < |chain| && chain[i] == q;
        assert i < |chain| - 1 ==> q.next == chain[i + 1];
      }
    }
  }

  /** The bytes of a frame. */
  function Total(lengths: seq<nat>): nat {
    if lengths == [] then 0 else lengths[0] + Total(lengths[1..])
  }

  /** The first length is the total exactly when the others are zero. */
  lemma FirstIsTotalIff(lengths: seq<nat>)
    requires lengths != []
    ensures lengths[0] == Total(lengths) <==> forall i :: 0 < i < |lengths| ==> lengths[i] == 0
  {
    NothingIsTotalIff(lengths[1..]);
    assert forall i :: 0 <= i < |lengths| - 1 ==> lengths[1..][i] == lengths[i + 1];
    assert forall i :: 0 < i < |lengths| ==> lengths[i] == lengths[1..][i - 1];
  }

  lemma {:induction false} NothingIsTotalIff(lengths: seq<nat>)
    ensures Total(lengths) == 0 <==> forall i :: 0 <= i < |lengths| ==> lengths[i] == 0
  {
    if lengths != [] {
      NothingIsTotalIff(lengths[1..]);
      assert forall i :: 0 < i < |lengths| ==> lengths[i] == lengths[1..][i - 1];
      assert forall i :: 0 <= i < |lengths| - 1 ==> lengths[1..][i] == lengths[i + 1];
    }
  }

  /** Following next from the first packet visits exactly the linked packets, in order, and ends. */
  lemma {:induction false} ChainIsWalked(chain: seq<NxPacket>, fuel: nat, repr: set<NxPacket>)
    requires Closed(repr) && chain != [] && |chain| <= fuel
    requires forall q :: q in chain ==> q in repr
    requires forall i :: 0 <= i < |chain| - 1 ==> chain[i].next == chain[i + 1]
    requires chain[|chain| - 1].next == null
    ensures Walk(chain[0], fuel, repr) == chain && Ends(chain[0], fuel, repr)
    decreases |chain|
  {
    var tail := chain[1..];
    assert chain == [chain[0]] + tail;
    if tail != [] {
      assert forall i :: 0 <= i < |tail| - 1 ==> tail[i] == chain[i + 1];
      ChainIsWalked(tail, fuel - 1, repr);
    }
  }
}
