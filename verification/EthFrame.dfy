/** Ethernet II headers: how the driver builds them with word stores and how it routes received frames. */
module EthFrame {
  import opened Machine
  import opened Text

  const ETHERNET_IP: Word := 0x0800
  const ETHERNET_ARP: Word := 0x0806
  const ETHERNET_RARP: Word := 0x8035
  const ETHERNET_IPV6: Word := 0x86DD

  const FRAME_SIZE := 14
  const ETHERNET_MTU := 1514

  /** The commands by which the IP layer has a packet sent. */
  datatype SendCommand = PacketSend | PacketBroadcast | ArpSend | ArpResponseSend | RarpSend

  /** Where the driver hands a received packet. */
  datatype Queue = IpReceive | ArpReceive | RarpReceive | Discard

  /** The frame type a command puts into the header. */
  function FrameType(command: SendCommand, isV6: bool): Word {
    match command
    case ArpSend => ETHERNET_ARP
    case ArpResponseSend => ETHERNET_ARP
    case RarpSend => ETHERNET_RARP
    case _ => if isV6 then ETHERNET_IPV6 else ETHERNET_IP
  }

  /** The receive queue that a send command corresponds to. */
  function QueueFor(command: SendCommand): Queue {
    match command
    case ArpSend => ArpReceive
    case ArpResponseSend => ArpReceive
    case RarpSend => RarpReceive
    case _ => IpReceive
  }

  function PacketType(high: Byte, low: Byte): Word {
    ((high as Word) << 8) | (low as Word)
  }

  /** The queue chosen from the two type bytes of a received frame. */
  function Route(high: Byte, low: Byte): Queue {
    var packetType := PacketType(high, low);
    if packetType == ETHERNET_IP || packetType == ETHERNET_IPV6 then IpReceive
    else if packetType == ETHERNET_ARP then ArpReceive
    else if packetType == ETHERNET_RARP then RarpReceive
    else Discard
  }

  /** NX_CHANGE_ULONG_ENDIAN on a little-endian machine. */
  function Swap(w: Word): Word {
    (w << 24) | ((w & 0xFF00) << 8) | ((w >> 8) & 0xFF00) | (w >> 24)
  }

  // The bytes of a word, least significant first.

  function Byte0(w: Word): Byte {
    (w & 0xFF) as Byte
  }

  function Byte1(w: Word): Byte {
    ((w >> 8) & 0xFF) as Byte
  }

  function Byte2(w: Word): Byte {
    ((w >> 16) & 0xFF) as Byte
  }

  function Byte3(w: Word): Byte {
    ((w >> 24) & 0xFF) as Byte
  }

  /** The bytes of a word in memory on a little-endian machine. */
  function InMemory(w: Word): (bytes: seq<Byte>)
    ensures |bytes| == 4
  {
    [Byte0(w), Byte1(w), Byte2(w), Byte3(w)]
  }

  /** The six octets of a physical address in network order. */
  function MacBytes(msw: Word, lsw: Word): (bytes: seq<Byte>)
    ensures |bytes| == 6
  {
    [Byte1(msw), Byte0(msw), Byte3(lsw), Byte2(lsw), Byte1(lsw), Byte0(lsw)]
  }

  /** Destination, source and type, clauses 3.2.4 to 3.2.6 of IEEE 802.3. */
  function Header(dstMsw: Word, dstLsw: Word, srcMsw: Word, srcLsw: Word, frameType: Word): (bytes: seq<Byte>)
    ensures |bytes| == FRAME_SIZE
  {
    MacBytes(dstMsw, dstLsw) + MacBytes(srcMsw, srcLsw) + [Byte1(frameType), Byte0(frameType)]
  }

  /** The four words the driver stores, before swapping. */
  function Word2(srcMsw: Word, srcLsw: Word): Word {
    (srcMsw << 16) | (srcLsw >> 16)
  }

  function Word3(srcLsw: Word, frameType: Word): Word {
    (srcLsw << 16) | frameType
  }

  lemma SwapByte0(w: Word)
    ensures Byte0(Swap(w)) == Byte3(w)
  {
  }

  lemma SwapByte1(w: Word)
    ensures Byte1(Swap(w)) == Byte2(w)
  {
  }

  lemma SwapByte2(w: Word)
    ensures Byte2(Swap(w)) == Byte1(w)
  {
  }

  lemma SwapByte3(w: Word)
    ensures Byte3(Swap(w)) == Byte0(w)
  {
  }

  /** A swapped word lies in memory most significant byte first. */
  lemma SwapIsNetworkOrder(w: Word)
    ensures InMemory(Swap(w)) == [Byte3(w), Byte2(w), Byte1(w), Byte0(w)]
  {
    hide Swap, Byte0, Byte1, Byte2, Byte3;
    SwapByte0(w);
    SwapByte1(w);
    SwapByte2(w);
    SwapByte3(w);
  }

  lemma SourceByte0(msw: Word, lsw: Word)
    ensures Byte0(Word2(msw, lsw)) == Byte2(lsw)
  {
  }

  lemma SourceByte1(msw: Word, lsw: Word)
    ensures Byte1(Word2(msw, lsw)) == Byte3(lsw)
  {
  }

  lemma SourceByte2(msw: Word, lsw: Word)
    ensures Byte2(Word2(msw, lsw)) == Byte0(msw)
  {
  }

  lemma SourceByte3(msw: Word, lsw: Word)
    ensures Byte3(Word2(msw, lsw)) == Byte1(msw)
  {
  }

  lemma TypeByte0(lsw: Word, t: Word)
    requires t < 0x1_0000
    ensures Byte0(Word3(lsw, t)) == Byte0(t)
  {
  }

  lemma TypeByte1(lsw: Word, t: Word)
    requires t < 0x1_0000
    ensures Byte1(Word3(lsw, t)) == Byte1(t)
  {
  }

  lemma TypeByte2(lsw: Word, t: Word)
    requires t < 0x1_0000
    ensures Byte2(Word3(lsw, t)) == Byte0(lsw)
  {
  }

  lemma TypeByte3(lsw: Word, t: Word)
    requires t < 0x1_0000
    ensures Byte3(Word3(lsw, t)) == Byte1(lsw)
  {
  }

  /** The sixteen bytes that the four word stores and swaps leave in memory. */
  function Stored(dstMsw: Word, dstLsw: Word, srcMsw: Word, srcLsw: Word, frameType: Word): (bytes: seq<Byte>)
    ensures |bytes| == 16
  {
    InMemory(Swap(dstMsw)) + InMemory(Swap(dstLsw))
    + InMemory(Swap(Word2(srcMsw, srcLsw))) + InMemory(Swap(Word3(srcLsw, frameType)))
  }

  lemma DestinationStored(msw: Word, lsw: Word)
    ensures InMemory(Swap(msw))[2..] + InMemory(Swap(lsw)) == MacBytes(msw, lsw)
  {
    hide Swap, InMemory, Byte0, Byte1, Byte2, Byte3;
    SwapIsNetworkOrder(msw);
    SwapIsNetworkOrder(lsw);
  }

  lemma SourceAndTypeStored(msw: Word, lsw: Word, frameType: Word)
    requires frameType < 0x1_0000
    ensures InMemory(Swap(Word2(msw, lsw))) + InMemory(Swap(Word3(lsw, frameType)))
            == MacBytes(msw, lsw) + [Byte1(frameType), Byte0(frameType)]
  {
    hide Swap, InMemory, Byte0, Byte1, Byte2, Byte3, Word2, Word3;
    SwapIsNetworkOrder(Word2(msw, lsw));
    SwapIsNetworkOrder(Word3(lsw, frameType));
    SourceByte0(msw, lsw);
    SourceByte1(msw, lsw);
    SourceByte2(msw, lsw);
    SourceByte3(msw, lsw);
    TypeByte0(lsw, frameType);
    TypeByte1(lsw, frameType);
    TypeByte2(lsw, frameType);
    TypeByte3(lsw, frameType);
  }

  lemma DropFromFirst(a: seq<Byte>, b: seq<Byte>, c: seq<Byte>, d: seq<Byte>)
    requires |a| == 4
    ensures (a + b + c + d)[2..] == (a[2..] + b) + (c + d)
  {
  }

  /** The word stores build exactly the header, behind two bytes that belong to no header. */
  lemma StoredIsHeader(dstMsw: Word, dstLsw: Word, srcMsw: Word, srcLsw: Word, frameType: Word)
    requires frameType < 0x1_0000
    ensures Stored(dstMsw, dstLsw, srcMsw, srcLsw, frameType)[2..] == Header(dstMsw, dstLsw, srcMsw, srcLsw, frameType)
  {
    hide Swap, InMemory, Byte0, Byte1, Byte2, Byte3, Word2, Word3, MacBytes;
    DestinationStored(dstMsw, dstLsw);
    SourceAndTypeStored(srcMsw, srcLsw, frameType);
    DropFromFirst(InMemory(Swap(dstMsw)), InMemory(Swap(dstLsw)),
                  InMemory(Swap(Word2(srcMsw, srcLsw))), InMemory(Swap(Word3(srcLsw, frameType))));
    Assoc(MacBytes(dstMsw, dstLsw), MacBytes(srcMsw, srcLsw), [Byte1(frameType), Byte0(frameType)]);
  }

  /** A frame with such a header is routed to the queue that matches the command. */
  lemma HeaderIsRouted(dstMsw: Word, dstLsw: Word, srcMsw: Word, srcLsw: Word, command: SendCommand, isV6: bool)
    ensures var h := Header(dstMsw, dstLsw, srcMsw, srcLsw, FrameType(command, isV6));
            Route(h[12], h[13]) == QueueFor(command)
  {
    RouteOfType(FrameType(command, isV6));
  }

  lemma RouteOfType(t: Word)
    requires t in {ETHERNET_IP, ETHERNET_ARP, ETHERNET_RARP, ETHERNET_IPV6}
    ensures PacketType(Byte1(t), Byte0(t)) == t
  {
  }

  // ---- The header and the routing in numbers ----

  /** The octets are the type field of a frame for the command: 0x0806 for the ARP commands, 0x8035 for RARP,
      0x86DD for any other with IPv6, 0x0800 without. */
  predicate IsTypeField(octets: seq<Byte>, command: SendCommand, isV6: bool) {
    var isArp := command.ArpSend? || command.ArpResponseSend?;
    && (octets == [0x08, 0x06] <==> isArp)
    && (octets == [0x80, 0x35] <==> command.RarpSend?)
    && (octets == [0x86, 0xDD] <==> !isArp && !command.RarpSend? && isV6)
    && (octets == [0x08, 0x00] <==> !isArp && !command.RarpSend? && !isV6)
  }

  lemma TypeFieldOfHeader(dstMsw: Word, dstLsw: Word, srcMsw: Word, srcLsw: Word, command: SendCommand, isV6: bool)
    ensures IsTypeField(Header(dstMsw, dstLsw, srcMsw, srcLsw, FrameType(command, isV6))[12..], command, isV6)
  {
    hide MacBytes, Byte0, Byte1, FrameType;
    var t := FrameType(command, isV6);
    var h := Header(dstMsw, dstLsw, srcMsw, srcLsw, t);
    assert h[12..] == [Byte1(t), Byte0(t)];
    TypeOctets(command, isV6);
  }

  lemma TypeOctets(command: SendCommand, isV6: bool)
    ensures var t := FrameType(command, isV6); IsTypeField([Byte1(t), Byte0(t)], command, isV6)
  {
    OctetsOf();
  }

  lemma OctetsOf()
    ensures Byte1(0x0800) == 0x08 && Byte0(0x0800) == 0x00
    ensures Byte1(0x0806) == 0x08 && Byte0(0x0806) == 0x06
    ensures Byte1(0x8035) == 0x80 && Byte0(0x8035) == 0x35
    ensures Byte1(0x86DD) == 0x86 && Byte0(0x86DD) == 0xDD
  {
  }

  function Pair(high: Byte, low: Byte): Word {
    ((high as Word) << 8) | (low as Word)
  }

  function Quad(a: Byte, b: Byte, c: Byte, d: Byte): Word {
    ((a as Word) << 24) | ((b as Word) << 16) | ((c as Word) << 8) | (d as Word)
  }

  lemma PairOfBytes(w: Word)
    ensures Pair(Byte1(w), Byte0(w)) == w & 0xFFFF
  {
  }

  lemma QuadOfBytes(w: Word)
    ensures Quad(Byte3(w), Byte2(w), Byte1(w), Byte0(w)) == w
  {
  }

  /** Read most significant octet first, the header is the low 16 bits of the first word of the destination
      and all of its second, likewise for the source, and the type. */
  lemma HeaderIsRead(dstMsw: Word, dstLsw: Word, srcMsw: Word, srcLsw: Word, frameType: Word)
    ensures var h := Header(dstMsw, dstLsw, srcMsw, srcLsw, frameType);
            && Pair(h[0], h[1]) == dstMsw & 0xFFFF && Quad(h[2], h[3], h[4], h[5]) == dstLsw
            && Pair(h[6], h[7]) == srcMsw & 0xFFFF && Quad(h[8], h[9], h[10], h[11]) == srcLsw
            && Pair(h[12], h[13]) == frameType & 0xFFFF
  {
    hide Byte0, Byte1, Byte2, Byte3, Pair, Quad;
    PairOfBytes(dstMsw);
    QuadOfBytes(dstLsw);
    PairOfBytes(srcMsw);
    QuadOfBytes(srcLsw);
    PairOfBytes(frameType);
  }

  /** A word lies in memory least significant byte first. */
  lemma MemoryIsLittleEndian(w: Word)
    ensures var m := InMemory(w); Quad(m[3], m[2], m[1], m[0]) == w
  {
    hide Byte0, Byte1, Byte2, Byte3, Quad;
    QuadOfBytes(w);
  }

  /** The routing by type octets, in numbers; every other type is discarded. */
  lemma RouteIs(high: Byte, low: Byte)
    ensures Route(high, low) == IpReceive <==> [high, low] == [0x08, 0x00] || [high, low] == [0x86, 0xDD]
    ensures Route(high, low) == ArpReceive <==> [high, low] == [0x08, 0x06]
    ensures Route(high, low) == RarpReceive <==> [high, low] == [0x80, 0x35]
    ensures Route(high, low) == Discard
            <==> [high, low] !in {[0x08, 0x00], [0x86, 0xDD], [0x08, 0x06], [0x80, 0x35]}
  {
    hide PacketType;
    PacketTypes();
    TypeIs(high, low, 0x08, 0x00, 0x0800);
    TypeIs(high, low, 0x86, 0xDD, 0x86DD);
    TypeIs(high, low, 0x08, 0x06, 0x0806);
    TypeIs(high, low, 0x80, 0x35, 0x8035);
  }

  lemma PacketTypes()
    ensures PacketType(0x08, 0x00) == 0x0800 && PacketType(0x86, 0xDD) == 0x86DD
    ensures PacketType(0x08, 0x06) == 0x0806 && PacketType(0x80, 0x35) == 0x8035
  {
  }

  lemma TypeIs(high: Byte, low: Byte, h: Byte, l: Byte, t: Word)
    requires PacketType(h, l) == t
    ensures PacketType(high, low) == t <==> high == h && low == l
  {
  }
}
