/** Packets in memory: header push and pop, chains, and the gather list handed to the hardware. */
module EthPacket {
  import opened Machine
  import opened Wrappers
  import opened EthFrame
  import opened EthModel

  class NxPacket {
    /** The packet's payload memory; prepend and append are positions in it. */
    const data: array<Byte>
    var prepend: int
    var append: int
    /** nx_packet_length, a 32-bit word. */
    var length: nat
    var next: NxPacket?
    const isV6: bool
    /** The capability flags: a TCP, UDP or ICMP checksum, and an IPv4 header checksum, is left to the hardware. */
    const payloadChecksum: bool
    const headerChecksum: bool

    constructor (data: array<Byte>, prepend: int, append: int, length: nat, isV6: bool,
                 payloadChecksum: bool, headerChecksum: bool)
      ensures this.data == data && this.prepend == prepend && this.append == append
      ensures this.length == length && this.isV6 == isV6 && next == null
      ensures this.payloadChecksum == payloadChecksum && this.headerChecksum == headerChecksum
    {
      this.data, this.prepend, this.append := data, prepend, append;
      this.length, this.isV6, this.next := length, isV6, null;
      this.payloadChecksum, this.headerChecksum := payloadChecksum, headerChecksum;
    }

    /** Makes room for the Ethernet header. */
    method PushHeader()
      modifies this`prepend, this`length
      ensures prepend == old(prepend) - FRAME_SIZE && length == PushLength(old(length))
    {
      prepend := prepend - FRAME_SIZE;
      length := (length + FRAME_SIZE) % ULONG_LIMIT;
    }

    /** NX_DRIVER_ETHERNET_HEADER_REMOVE. */
    method RemoveHeader()
      modifies this`prepend, this`length
      ensures prepend == old(prepend) + FRAME_SIZE && length == PopLength(old(length))
    {
      prepend := prepend + FRAME_SIZE;
      length := (length + ULONG_LIMIT - FRAME_SIZE) % ULONG_LIMIT;
    }
  }

  // ---- Chains ----

  /** A set of packets that no next pointer leaves. */
  ghost predicate Closed(repr: set<NxPacket>)
    reads repr`next
  {
    forall q :: q in repr ==> (q.next != null ==> q.next in repr)
  }

  /** The first packets of the chain from p, at most fuel of them. */
  ghost function Walk(p: NxPacket?, fuel: nat, repr: set<NxPacket>): (chain: seq<NxPacket>)
    requires Closed(repr) && (p != null ==> p in repr)
    reads repr`next
    ensures |chain| <= fuel && forall i :: 0 <= i < |chain| ==> chain[i] in repr
    decreases fuel
  {
    if p == null || fuel == 0 then [] else [p] + Walk(p.next, fuel - 1, repr)
  }

  /** Following next from p reaches null within fuel packets; no cyclic chain does. */
  ghost predicate Ends(p: NxPacket?, fuel: nat, repr: set<NxPacket>)
    requires Closed(repr) && (p != null ==> p in repr)
    reads repr`next
    decreases fuel
  {
    p == null || (fuel > 0 && Ends(p.next, fuel - 1, repr))
  }

  /** The bytes between a packet's prepend and append pointers, as a 32-bit word. */
  function Extent(q: NxPacket): (n: nat)
    reads q
    ensures n < ULONG_LIMIT
  {
    (q.append - q.prepend) % ULONG_LIMIT
  }

  ghost function TotalExtent(chain: seq<NxPacket>): int
    reads chain
  {
    if chain == [] then 0 else chain[0].append - chain[0].prepend + TotalExtent(chain[1..])
  }

  /** One element of the list that describes a frame to the hardware; next is the index of the following one. */
  datatype TxBuffer = TxBuffer(data: array?<Byte>, start: int, len: nat, next: Option<nat>)

  const ZEROED := TxBuffer(null, 0, 0, None)

  /** The element for packet k of a chain. */
  ghost function Element(chain: seq<NxPacket>, k: nat): TxBuffer
    requires k < |chain|
    reads chain
  {
    TxBuffer(chain[k].data, chain[k].prepend, Extent(chain[k]), if k + 1 < |chain| then Some(k + 1) else None)
  }

  /** The list describes the chain in order, is linked in order, and its last element links to nothing. */
  ghost predicate Describes(txBuffer: array<TxBuffer>, chain: seq<NxPacket>)
    reads txBuffer, chain
  {
    |chain| <= txBuffer.Length && forall k :: 0 <= k < |chain| ==> txBuffer[k] == Element(chain, k)
  }

  lemma {:induction false} WalkSnoc(p: NxPacket, n: nat, q: NxPacket, repr: set<NxPacket>)
    requires Closed(repr) && p in repr && q in repr
    requires |Walk(p, n, repr)| == n && Reaches(p, n, q, repr)
    ensures Walk(p, n + 1, repr) == Walk(p, n, repr) + [q]
    ensures forall fuel: nat {:trigger Ends(p, fuel, repr)} :: fuel > n ==>
              Ends(p, fuel, repr) == Ends(q.next, fuel - n - 1, repr)
    ensures !Ends(p, n, repr)
    ensures q.next != null ==> Reaches(p, n + 1, q.next, repr)
    decreases n
  {
    if n > 0 {
      WalkSnoc(p.next, n - 1, q, repr);
      assert [p] + (Walk(p.next, n - 1, repr) + [q]) == [p] + Walk(p.next, n - 1, repr) + [q];
    } else {
      assert [p] + Walk(p.next, 0, repr) == [p];
    }
  }

  /** q is n steps behind p. */
  ghost predicate Reaches(p: NxPacket, n: nat, q: NxPacket, repr: set<NxPacket>)
    requires Closed(repr) && p in repr
    reads repr`next
    decreases n
  {
    if n == 0 then p == q else p.next != null && Reaches(p.next, n - 1, q, repr)
  }

  /** A chain that ended is not walked further. */
  lemma {:induction false} WalkEnded(p: NxPacket?, n: nat, fuel: nat, repr: set<NxPacket>)
    requires Closed(repr) && (p != null ==> p in repr) && n <= fuel
    requires Ends(p, n, repr)
    ensures Walk(p, fuel, repr) == Walk(p, n, repr) && Ends(p, fuel, repr)
    decreases n
  {
    if p != null {
      WalkEnded(p.next, n - 1, fuel - 1, repr);
    }
  }

  lemma {:induction false} EndsBehind(p: NxPacket, n: nat, q: NxPacket, fuel: nat, repr: set<NxPacket>)
    requires Closed(repr) && p in repr && q in repr && Reaches(p, n, q, repr)
    ensures Ends(p, fuel, repr) <==> fuel > n && Ends(q, fuel - n, repr)
    decreases n
  {
    if n > 0 && fuel > 0 {
      EndsBehind(p.next, n - 1, q, fuel - 1, repr);
    }
  }

  /** A chain that runs into a cycle never ends, so that gathering it fails. */
  lemma {:induction false} CyclicNeverEnds(p: NxPacket, m: nat, q: NxPacket, n: nat, fuel: nat, repr: set<NxPacket>)
    requires Closed(repr) && p in repr && q in repr
    requires Reaches(p, m, q, repr) && n > 0 && Reaches(q, n, q, repr)
    ensures !Ends(p, fuel, repr)
    decreases fuel
  {
    EndsBehind(p, m, q, fuel, repr);
    if fuel > m {
      EndsBehind(q, n, q, fuel - m, repr);
      if fuel - m > n {
        CyclicNeverEnds(q, 0, q, n, fuel - m - n, repr);
      }
    }
  }

  lemma {:induction false} WalkReaches(p: NxPacket, fuel: nat, i: nat, repr: set<NxPacket>)
    requires Closed(repr) && p in repr && i < |Walk(p, fuel, repr)|
    ensures Reaches(p, i, Walk(p, fuel, repr)[i], repr)
    decreases i
  {
    if i > 0 {
      WalkReaches(p.next, fuel - 1, i - 1, repr);
    }
  }

  /** A chain that ends meets its first packet only once. */
  lemma FirstIsOnce(p: NxPacket, fuel: nat, repr: set<NxPacket>)
    requires Closed(repr) && p in repr && Ends(p, fuel, repr)
    ensures p !in Walk(p.next, fuel - 1, repr)
  {
    var tail := Walk(p.next, fuel - 1, repr);
    if p in tail {
      var i :| 0 <= i < |tail| && tail[i] == p;
      WalkReaches(p.next, fuel - 1, i, repr);
      assert Reaches(p, i + 1, p, repr);
      CyclicNeverEnds(p, 0, p, i + 1, fuel, repr);
    }
  }

  /** The extent of a chain, its first packet apart. */
  lemma TotalOfFirst(p: NxPacket, fuel: nat, repr: set<NxPacket>)
    requires Closed(repr) && p in repr && fuel > 0
    ensures TotalExtent(Walk(p, fuel, repr)) == p.append - p.prepend + TotalExtent(Walk(p.next, fuel - 1, repr))
  {
    var tail := Walk(p.next, fuel - 1, repr);
    assert ([p] + tail)[1..] == tail;
  }

  lemma {:induction false} TotalSnoc(chain: seq<NxPacket>, q: NxPacket)
    ensures TotalExtent(chain + [q]) == TotalExtent(chain) + q.append - q.prepend
  {
    if chain == [] {
      assert chain + [q] == [q] && [q][1..] == [];
    } else {
      TotalSnoc(chain[1..], q);
      assert (chain + [q])[1..] == chain[1..] + [q];
    }
  }

  lemma AddModulo(a: int, b: int)
    ensures (a % ULONG_LIMIT + b) % ULONG_LIMIT == (a + b) % ULONG_LIMIT
  {
    var q := a / ULONG_LIMIT;
    assert a == q * ULONG_LIMIT + a % ULONG_LIMIT;
    ModuloShift(a % ULONG_LIMIT + b, q);
  }

  lemma ModuloShift(x: int, q: int)
    ensures (x + q * ULONG_LIMIT) % ULONG_LIMIT == x % ULONG_LIMIT
  {
    var d, r := x / ULONG_LIMIT, x % ULONG_LIMIT;
    assert x + q * ULONG_LIMIT == (d + q) * ULONG_LIMIT + r;
  }

  /** One turn of the gather loop: lists packet i and links its predecessor to it. */
  method ListPacket(txBuffer: array<TxBuffer>, i: nat, q: NxPacket, ghost chain: seq<NxPacket>)
    requires i == |chain| < txBuffer.Length && Describes(txBuffer, chain) && txBuffer[i].next == None
    modifies txBuffer
    ensures Describes(txBuffer, chain + [q])
    ensures forall k :: i < k < txBuffer.Length ==> txBuffer[k] == old(txBuffer[k])
  {
    txBuffer[i] := TxBuffer(q.data, q.prepend, (q.append - q.prepend) % ULONG_LIMIT, txBuffer[i].next);
    if i > 0 {
      txBuffer[i - 1] := txBuffer[i - 1].(next := Some(i));
    }
    if q.next == null {
      txBuffer[i] := txBuffer[i].(next := None);
    }
  }

  /** The gather loop: fills the zeroed list from a chain, or fails when the chain is
      longer than the list. It ends for every chain, cyclic ones included. */
  method Gather(p: NxPacket, txBuffer: array<TxBuffer>, ghost repr: set<NxPacket>) returns (ok: bool, total: nat)
    requires Closed(repr) && p in repr
    requires forall k :: 0 <= k < txBuffer.Length ==> txBuffer[k] == ZEROED
    modifies txBuffer
    ensures ok <==> Ends(p, txBuffer.Length, repr)
    ensures ok ==> var chain := Walk(p, txBuffer.Length, repr);
                   Describes(txBuffer, chain) && total == TotalExtent(chain) % ULONG_LIMIT
  {
    ok, total := false, 0;
    var q: NxPacket? := p;
    var i := 0;
    ghost var chain: seq<NxPacket> := [];
    while q != null
      invariant 0 <= i <= txBuffer.Length && (q != null ==> q in repr)
      invariant chain == Walk(p, i, repr) && |chain| == i
      invariant q != null ==> Reaches(p, i, q, repr)
      invariant q == null ==> i > 0 && Ends(p, i, repr)
      invariant i > 0 || q == p
      invariant Describes(txBuffer, chain)
      invariant forall k :: i <= k < txBuffer.Length ==> txBuffer[k] == ZEROED
      invariant total == TotalExtent(chain) % ULONG_LIMIT
      decreases txBuffer.Length - i, q != null
    {
      WalkSnoc(p, i, q, repr);
      if i >= txBuffer.Length {
        return;
      }
      AddModulo(TotalExtent(chain), q.append - q.prepend);
      total := (total + (q.append - q.prepend)) % ULONG_LIMIT;
      ListPacket(txBuffer, i, q, chain);
      TotalSnoc(chain, q);
      chain := chain + [q];
      i := i + 1;
      q := q.next;
    }
    WalkEnded(p, i, txBuffer.Length, repr);
    ok := true;
  }
}
