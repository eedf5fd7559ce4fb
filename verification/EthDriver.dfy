/** The driver: the commands of the IP layer, the completion callback and the receive path. */
module EthDriver {
  import opened Machine
  import opened Text
  import opened EthChecksum
  import opened EthFrame
  import opened EthModel
  import opened EthPacket

  /** The IP instance as far as the driver reads and marks it. */
  class NxIp {
    var linkUp: bool
    const arpMsw: Word
    const arpLsw: Word

    constructor (arpMsw: Word, arpLsw: Word)
      ensures !linkUp && this.arpMsw == arpMsw && this.arpLsw == arpLsw
    {
      this.linkUp, this.arpMsw, this.arpLsw := false, arpMsw, arpLsw;
    }
  }

  /** nx_eth_phy_get_link_state(); ETH_PHY_STATUS_LINK_DOWN and what is below it means no link. */
  const PHY_LINK_DOWN := 1

  /** MACConf.DuplexMode and MACConf.Speed. */
  datatype MacMode = MacMode(fullDuplex: bool, fast: bool)

  /** The MAC mode for a link state of the PHY: 2 and 3 are 100 Mbit/s, 4 and 5 are 10 Mbit/s, full duplex first. */
  function ModeFor(phyLinkState: int): MacMode {
    match phyLinkState
    case 2 => MacMode(true, true)
    case 3 => MacMode(false, true)
    case 4 => MacMode(true, false)
    case 5 => MacMode(false, false)
    case _ => MacMode(true, true)
  }

  /** A packet handed on, with its flags. */
  function TurnOf(p: NxPacket): Turn {
    HandedOn(p.payloadChecksum, p.headerChecksum)
  }

  /** The control a packet is sent with: one that asks for none gets what the packet before it left behind. */
  function ChecksumFor(p: NxPacket, before: ChecksumControl): ChecksumControl {
    Control(before, TurnOf(p))
  }

  /** The gather list of a frame and the length announced with it. */
  datatype Frame = Frame(buffers: seq<TxBuffer>, length: nat)

  /** The frame that a chain makes as its packets are now. */
  ghost function Gathered(chain: seq<NxPacket>): Frame
    reads chain
  {
    Frame(seq(|chain|, k requires 0 <= k < |chain| reads chain => Element(chain, k)), TotalExtent(chain) % ULONG_LIMIT)
  }

  /** The frame with an Ethernet header in front of its first buffer. */
  function WithHeader(f: Frame): Frame {
    if f.buffers == [] then f
    else
      var first := f.buffers[0];
      Frame(f.buffers[0 := first.(start := first.start - FRAME_SIZE, len := PushLength(first.len))],
            PushLength(f.length))
  }

  /** What HAL_ETH_Transmit_IT gets. */
  datatype Transmission = Transmission(frame: Frame, checksum: ChecksumControl)

  /** A received packet, the queue it goes to and the IP instance whose queue that is. */
  datatype Delivery = Delivery(queue: Queue, packet: NxPacket, ip: NxIp?)

  class EthDriver {
    const ip: NxIp
    /** ETH_TX_DESC_CNT. */
    const txDescriptors: nat
    var state: nat
    /** The IP instance the driver is attached to; null before and during an initialisation and after a failed one. */
    var ipPtr: NxIp?
    var macMode: MacMode
    /** TxPacketCfg.ChecksumCtrl, which one send leaves to the next. */
    var checksumCtrl: ChecksumControl

    /** What the IP layer gave, what the hardware has and what went back to the pool. */
    ghost var sends: seq<Send<NxPacket>>
    ghost var tickets: map<NxPacket, nat>
    ghost var releases: seq<Release<NxPacket>>
    ghost var handed: nat

    /** The frames handed to HAL_ETH_Transmit_IT and the packets handed on by the receive path. */
    ghost var frames: seq<Transmission>
    ghost var delivered: seq<Delivery>

    /** The initialisations and the packets handed on, as far as checksums go. */
    ghost var turns: seq<Turn>

    /** The control is what the turns so far make it. */
    ghost predicate ControlIsExplained()
      reads this`checksumCtrl, this`turns
    {
      checksumCtrl == ControlAfter(turns)
    }

    /** The packets in flight with their header fields as they are in memory. */
    ghost function Flights(): map<NxPacket, Flight>
      reads this, tickets.Keys
    {
      map p | p in tickets :: Flight(tickets[p], p.prepend, p.length)
    }

    ghost function View(): Driver<NxPacket>
      reads this, ip, tickets.Keys
    {
      Driver(state, ip.linkUp, sends, Flights(), releases, handed)
    }

    constructor (ip: NxIp, txDescriptors: nat)
      requires !ip.linkUp
      ensures this.ip == ip && this.txDescriptors == txDescriptors && View() == Initial<NxPacket>()
      ensures frames == [] && delivered == [] && turns == [] && ipPtr == null && ControlIsExplained()
    {
      this.ip, this.txDescriptors, state, checksumCtrl := ip, txDescriptors, 0, Disabled;
      ipPtr, macMode, turns := null, MacMode(true, true), [];
      sends, tickets, releases, handed := [], map[], [], 0;
      frames, delivered := [], [];
    }

    method Initialize(hasPool: bool) returns (status: Status)
      modifies this`state, this`ipPtr, this`checksumCtrl, this`turns
      ensures View() == Step(old(View()), Event.Initialize(hasPool))
      ensures status == StatusOf(old(View()), Event.Initialize(hasPool))
      ensures ipPtr == if hasPool then ip else null
      ensures turns == old(turns) + [Initialized(hasPool)]
      ensures checksumCtrl == if hasPool then Disabled else old(checksumCtrl)
      ensures old(ControlIsExplained()) ==> ControlIsExplained()
    {
      hide ControlAfter, Step, StatusOf;
      InitializeStep(View(), hasPool);
      ControlSnoc(turns, Initialized(hasPool));
      turns := turns + [Initialized(hasPool)];
      ipPtr := null;
      state := NOT_INITIALIZED;
      if hasPool {
        checksumCtrl := Disabled;
        ipPtr := ip;
        state := INITIALIZED;
        status := Success;
      } else {
        status := DriverError;
      }
    }

    method Enable(phyReady: bool, phyLinkState: int) returns (status: Status)
      modifies this`state, this`macMode, ip`linkUp
      ensures View() == Step(old(View()), Event.Enable(phyReady, phyLinkState > PHY_LINK_DOWN))
      ensures status == StatusOf(old(View()), Event.Enable(phyReady, phyLinkState > PHY_LINK_DOWN))
      ensures macMode == if status == Success then ModeFor(phyLinkState) else old(macMode)
      // Half duplex is reported as 3 or 5 and 10 Mbit/s as 4 or 5; whatever else is up runs at 100 Mbit/s, full duplex.
      ensures status == Success ==> (macMode.fullDuplex <==> phyLinkState !in {3, 5})
      ensures status == Success ==> (macMode.fast <==> phyLinkState !in {4, 5})
    {
      if state < INITIALIZED {
        return DriverError;
      }
      if state >= LINK_ENABLED {
        return AlreadyEnabled;
      }
      if !phyReady {
        return DriverError;
      }
      if phyLinkState <= PHY_LINK_DOWN {
        return DriverError;
      }
      macMode := ModeFor(phyLinkState);
      state := LINK_ENABLED;
      ip.linkUp := true;
      status := Success;
    }

    method Disable() returns (status: Status)
      modifies this`state, ip`linkUp
      ensures View() == Step(old(View()), Event.Disable)
      ensures status == StatusOf(old(View()), Event.Disable)
    {
      if state != LINK_ENABLED {
        return DriverError;
      }
      ip.linkUp := false;
      state := INITIALIZED;
      status := Success;
    }

    /** nx_packet_transmit_release: the packet goes back to the pool as it is now. */
    ghost function Returned(ticket: nat, p: NxPacket): Release<NxPacket>
      reads p
    {
      Release(ticket, p, p.prepend, p.length)
    }

    /** A frame with its header, under the checksum control as it is now. */
    ghost function SentAs(f: Frame): Transmission
      reads this`checksumCtrl
    {
      Transmission(WithHeader(f), checksumCtrl)
    }

    /** Gathers the chain and hands the frame to HAL_ETH_Transmit_IT, whose answer is accepted. */
    method HardwarePacketSend(p: NxPacket, accepted: bool, ghost repr: set<NxPacket>) returns (ok: bool)
      requires Closed(repr) && p in repr
      modifies this`frames, this`handed, this`checksumCtrl, this`turns
      ensures ok == (Ends(p, txDescriptors, repr) && accepted)
      ensures handed == old(handed) + if Ends(p, txDescriptors, repr) then 1 else 0
      ensures checksumCtrl ==
              if Ends(p, txDescriptors, repr) then ChecksumFor(p, old(checksumCtrl)) else old(checksumCtrl)
      ensures turns == old(turns) + if Ends(p, txDescriptors, repr) then [TurnOf(p)] else []
      ensures frames == old(frames) +
                        if Ends(p, txDescriptors, repr)
                        then [Transmission(Gathered(Walk(p, txDescriptors, repr)), checksumCtrl)] else []
    {
      hide Ends, Walk, Closed, TotalExtent;
      var txBuffer := new TxBuffer[txDescriptors](_ => ZEROED);
      var fits, total := Gather(p, txBuffer, repr);
      if !fits {
        return false;
      }
      ghost var chain := Walk(p, txDescriptors, repr);
      ghost var frame := Frame(txBuffer[..|chain|], total);
      assert frame == Gathered(chain);
      if p.payloadChecksum {
        checksumCtrl := IpHeaderAndPayload;
      } else if p.headerChecksum {
        checksumCtrl := IpHeader;
      }
      frames, handed := frames + [Transmission(frame, checksumCtrl)], handed + 1;
      turns := turns + [TurnOf(p)];
      ok := accepted;
    }

    /** Puts the header on, checks the size and hands the packet to the hardware; on a refusal the
        header comes off again. */
    method TransmitWithHeader(command: SendCommand, p: NxPacket, dstMsw: Word, dstLsw: Word, accepted: bool,
                              ghost repr: set<NxPacket>) returns (ok: bool)
      requires p.length < ULONG_LIMIT && 16 <= p.prepend <= p.data.Length
      requires Closed(repr) && p in repr
      modifies this`handed, this`frames, this`checksumCtrl, this`turns, p`prepend, p`length, p.data
      ensures var fits := PushLength(old(p.length)) <= ETHERNET_MTU && Ends(p, txDescriptors, repr);
              && ok == (fits && accepted)
              && handed == old(handed) + (if fits then 1 else 0)
              && checksumCtrl == (if fits then ChecksumFor(p, old(checksumCtrl)) else old(checksumCtrl))
              && turns == old(turns) + (if fits then [TurnOf(p)] else [])
              && frames == old(frames) + if fits then [SentAs(old(Gathered(Walk(p, txDescriptors, repr))))] else []
      ensures p.prepend == old(p.prepend) - if ok then FRAME_SIZE else 0
      ensures p.length == if ok then PushLength(old(p.length)) else old(p.length)
      ensures p.data[old(p.prepend) - FRAME_SIZE..old(p.prepend)]
              == Header(dstMsw, dstLsw, ip.arpMsw, ip.arpLsw, FrameType(command, p.isV6))
      ensures forall k :: 0 <= k < p.data.Length && !(old(p.prepend) - 16 <= k < old(p.prepend)) ==>
                p.data[k] == old(p.data[k])
    {
      hide Header, Ends, Walk, Gathered, WithHeader, Closed, PushLength, PopLength;
      ghost var start, long := p.prepend, p.length;
      PopOfPush(long);
      PushOntoChain(p, txDescriptors, repr);
      WriteHeader(p, dstMsw, dstLsw, FrameType(command, p.isV6));
      if p.length > ETHERNET_MTU {
        p.RemoveHeader();
        return false;
      }
      ok := HardwarePacketSend(p, accepted, repr);
      if !ok {
        p.RemoveHeader();
      }
    }

    /** The steps of a send command: the books afterwards, field by field. */
    method SendAndSettle(command: SendCommand, p: NxPacket, dstMsw: Word, dstLsw: Word, accepted: bool,
                         ghost repr: set<NxPacket>) returns (ok: bool)
      requires p.length < ULONG_LIMIT && 16 <= p.prepend <= p.data.Length
      requires Closed(repr) && p in repr
      modifies this`sends, this`tickets, this`releases, this`handed, this`frames, this`checksumCtrl, this`turns
      modifies p`prepend, p`length, p.data
      ensures var tried := state == LINK_ENABLED && PushLength(old(p.length)) <= ETHERNET_MTU
                           && Ends(p, txDescriptors, repr);
              && ok == (tried && accepted)
              && handed == old(handed) + (if tried then 1 else 0)
              && checksumCtrl == (if tried then ChecksumFor(p, old(checksumCtrl)) else old(checksumCtrl))
              && turns == old(turns) + (if tried then [TurnOf(p)] else [])
              && frames == old(frames) + if tried then [SentAs(old(Gathered(Walk(p, txDescriptors, repr))))] else []
      ensures sends == old(sends) + [Send(p, old(p.prepend), old(p.length))]
      ensures tickets == if ok then old(tickets)[p := |old(sends)|] else old(tickets)
      ensures releases == old(releases)
                          + if ok then [] else [Release(|old(sends)|, p, old(p.prepend), old(p.length))]
      ensures p.prepend == old(p.prepend) - if ok then FRAME_SIZE else 0
      ensures p.length == if ok then PushLength(old(p.length)) else old(p.length)
      ensures state == LINK_ENABLED ==>
                p.data[old(p.prepend) - FRAME_SIZE..old(p.prepend)]
                == Header(dstMsw, dstLsw, ip.arpMsw, ip.arpLsw, FrameType(command, p.isV6))
      ensures forall k :: 0 <= k < p.data.Length && !(old(p.prepend) - 16 <= k < old(p.prepend)) ==>
                p.data[k] == old(p.data[k])
    {
      hide Header, Ends, Walk, Gathered, WithHeader, Closed, PushLength, PopLength, FrameType;
      ghost var ticket := |sends|;
      sends := sends + [Send(p, p.prepend, p.length)];
      if state != LINK_ENABLED {
        releases := releases + [Returned(ticket, p)];
        return false;
      }
      ok := TransmitWithHeader(command, p, dstMsw, dstLsw, accepted, repr);
      if !ok {
        releases := releases + [Returned(ticket, p)];
      } else {
        tickets := tickets[p := ticket];
      }
    }

    /** A send command: every packet is either with the hardware afterwards or released. */
    method PacketSend(command: SendCommand, p: NxPacket, dstMsw: Word, dstLsw: Word, accepted: bool,
                      ghost repr: set<NxPacket>) returns (status: Status)
      requires p !in tickets && p.length < ULONG_LIMIT && 16 <= p.prepend <= p.data.Length
      requires Closed(repr) && p in repr
      modifies this`sends, this`tickets, this`releases, this`handed, this`frames, this`checksumCtrl, this`turns
      modifies p`prepend, p`length, p.data
      ensures var e := SendPacket(p, old(p.prepend), old(p.length), Ends(p, txDescriptors, repr), accepted);
              View() == Step(old(View()), e) && status == StatusOf(old(View()), e)
      ensures state == LINK_ENABLED ==>
                && p.data[old(p.prepend) - 14..old(p.prepend)]
                   == Header(dstMsw, dstLsw, ip.arpMsw, ip.arpLsw, FrameType(command, p.isV6))
                && IsTypeField(p.data[old(p.prepend) - 2..old(p.prepend)], command, p.isV6)
      ensures forall k :: 0 <= k < p.data.Length && !(old(p.prepend) - 16 <= k < old(p.prepend)) ==>
                p.data[k] == old(p.data[k])
      ensures frames == old(frames) + if handed == old(handed) then []
                                      else [SentAs(old(Gathered(Walk(p, txDescriptors, repr))))]
      ensures checksumCtrl == if handed == old(handed) then old(checksumCtrl) else ChecksumFor(p, old(checksumCtrl))
      ensures turns == old(turns) + if handed == old(handed) then [] else [TurnOf(p)]
      ensures old(ControlIsExplained()) ==> ControlIsExplained()
      ensures handed != old(handed) && old(IsSummed(Walk(p, txDescriptors, repr), p.length)) ==>
                (HasLength(frames[|frames| - 1].frame, old(p.length)) <==> old(p.length) < ULONG_LIMIT - FRAME_SIZE)
    {
      hide Header, Ends, Walk, Gathered, WithHeader, Closed, PushLength, PopLength, FrameType, SendStep;
      hide IsSummed, HasLength, Control, ControlAfter, IsTypeField;
      ghost var chain := Walk(p, txDescriptors, repr);
      FrameLengthIfSummed(chain, p.length);
      ControlSnoc(turns, TurnOf(p));
      assert turns + [] == turns;
      SendCases(View(), p, p.prepend, p.length, Ends(p, txDescriptors, repr), accepted);
      var ok := SendAndSettle(command, p, dstMsw, dstLsw, accepted, repr);
      assert Flights() == if ok then old(Flights())[p := Flight(|old(sends)|, p.prepend, p.length)] else old(Flights());
      status := if ok then Success else DriverError;
      if state == LINK_ENABLED {
        TypeFieldOfHeader(dstMsw, dstLsw, ip.arpMsw, ip.arpLsw, command, p.isV6);
        TailOfSlice(p.data, old(p.prepend));
      }
    }

    /** A send command seen from the wire: the bytes that the gather list describes to the hardware are the
        header followed by the payload of the chain as the IP layer gave it. */
    method SendOnWire(command: SendCommand, p: NxPacket, dstMsw: Word, dstLsw: Word, accepted: bool,
                      ghost repr: set<NxPacket>) returns (status: Status)
      requires p !in tickets && p.length < ULONG_LIMIT && 16 <= p.prepend
      requires Closed(repr) && p in repr && Ends(p, txDescriptors, repr)
      requires IsPlain(Walk(p, txDescriptors, repr))
      requires forall q :: q in Walk(p, txDescriptors, repr) && q != p ==> q.data != p.data
      modifies this`sends, this`tickets, this`releases, this`handed, this`frames, this`checksumCtrl, this`turns
      modifies p`prepend, p`length, p.data
      ensures handed != old(handed) ==>
                && |frames| == |old(frames)| + 1
                && IsReadable(frames[|frames| - 1].frame.buffers)
                && Wire(frames[|frames| - 1].frame.buffers)
                   == Header(dstMsw, dstLsw, ip.arpMsw, ip.arpLsw, FrameType(command, p.isV6))
                      + old(Payload(Walk(p, txDescriptors, repr)))
    {
      hide Header, FrameType, Gathered, Walk, Ends, Closed, Pieces, Joined, Wire, WithHeader, IsPlain,
           Step, StatusOf, IsTypeField, ControlAfter, Control, ControlIsExplained, HasLength, IsSummed,
           IsReadable, OtherMemory;
      ghost var chain := Walk(p, txDescriptors, repr);
      ghost var pieces, g := Pieces(chain), Gathered(chain);
      ghost var start, before := p.prepend, p.data[..];
      FirstIsOnce(p, txDescriptors, repr);
      WalkStarts(p, txDescriptors, repr);
      Prepared(chain, g, pieces);
      PayloadIs(chain);
      ghost var n, others := |pieces[0]|, OtherMemory(chain);
      OnlyWhenEnabled(View(), p, p.prepend, p.length, true, accepted);
      status := PacketSend(command, p, dstMsw, dstLsw, accepted, repr);
      if handed != old(handed) {
        KeptSlice(p.data, before, start, n);
        WireOfSent(p.data, g, start, Header(dstMsw, dstLsw, ip.arpMsw, ip.arpLsw, FrameType(command, p.isV6)), pieces,
                   others);
      }
    }

    /** The hardware is done with a packet that it accepted. */
    method TxFreeCallback(p: NxPacket)
      requires p in tickets
      modifies this`tickets, this`releases, p`prepend, p`length
      ensures View() == Step(old(View()), TxFree(p))
    {
      p.RemoveHeader();
      releases := releases + [Returned(tickets[p], p)];
      tickets := tickets - {p};
    }

    /** Routes a received packet by its type bytes; all but an unknown type lose their header. */
    method TransferToNetx(p: NxPacket)
      requires 0 <= p.prepend && p.prepend + FRAME_SIZE <= p.data.Length
      modifies this`delivered, p`prepend, p`length
      ensures var queue := Route(p.data[old(p.prepend) + 12], p.data[old(p.prepend) + 13]);
              && delivered == old(delivered) + [Delivery(queue, p, ipPtr)]
              && (if queue == Discard then p.prepend == old(p.prepend) && p.length == old(p.length)
                  else p.prepend == old(p.prepend) + FRAME_SIZE && p.length == PopLength(old(p.length)))
      ensures p !in tickets ==> View() == old(View())
    {
      hide PacketType, PopLength;
      var packetType := PacketType(p.data[p.prepend + 12], p.data[p.prepend + 13]);
      if packetType == ETHERNET_IP || packetType == ETHERNET_IPV6 {
        p.RemoveHeader();
        delivered := delivered + [Delivery(IpReceive, p, ipPtr)];
      } else if packetType == ETHERNET_ARP {
        p.RemoveHeader();
        delivered := delivered + [Delivery(ArpReceive, p, ipPtr)];
      } else if packetType == ETHERNET_RARP {
        p.RemoveHeader();
        delivered := delivered + [Delivery(RarpReceive, p, ipPtr)];
      } else {
        delivered := delivered + [Delivery(Discard, p, ipPtr)];
      }
    }

    /** A frame built for a command and received again goes to the queue that matches the
        command, with the prepend pointer and the length the packet came with. */
    method FrameComesBack(command: SendCommand, p: NxPacket, dstMsw: Word, dstLsw: Word)
      requires p.length < ULONG_LIMIT && 16 <= p.prepend <= p.data.Length
      modifies this`delivered, p`prepend, p`length, p.data
      ensures p.prepend == old(p.prepend) && p.length == old(p.length)
      ensures delivered == old(delivered) + [Delivery(QueueFor(command), p, ipPtr)]
    {
      hide PushLength, PopLength, Header, Route;
      PopOfPush(p.length);
      HeaderIsRouted(dstMsw, dstLsw, ip.arpMsw, ip.arpLsw, command, p.isV6);
      p.PushHeader();
      WriteHeader(p, dstMsw, dstLsw, FrameType(command, p.isV6));
      SliceAt(p.data, p.prepend, p.prepend + FRAME_SIZE, 12);
      SliceAt(p.data, p.prepend, p.prepend + FRAME_SIZE, 13);
      TransferToNetx(p);
    }

    /** Four word stores behind the packet's front, each swapped in place. */
    method WriteHeader(p: NxPacket, dstMsw: Word, dstLsw: Word, frameType: Word)
      requires 2 <= p.prepend && p.prepend + FRAME_SIZE <= p.data.Length
      requires frameType < 0x1_0000
      modifies p.data
      ensures p.data[p.prepend..p.prepend + FRAME_SIZE] == Header(dstMsw, dstLsw, ip.arpMsw, ip.arpLsw, frameType)
      ensures forall k :: 0 <= k < p.data.Length && !(p.prepend - 2 <= k < p.prepend + FRAME_SIZE) ==>
                p.data[k] == old(p.data[k])
    {
      hide Swap, InMemory, Header, Stored, Word2, Word3, Put;
      var at := p.prepend - 2;
      var w2, w3 := Word2(ip.arpMsw, ip.arpLsw), Word3(ip.arpLsw, frameType);
      ghost var s := p.data[..];
      StoreWord(p.data, at, Swap(dstMsw));
      StoreWord(p.data, at + 4, Swap(dstLsw));
      StoreWord(p.data, at + 8, Swap(w2));
      StoreWord(p.data, at + 12, Swap(w3));
      FourWords(s, at, InMemory(Swap(dstMsw)), InMemory(Swap(dstLsw)), InMemory(Swap(w2)), InMemory(Swap(w3)));
      StoredIsHeader(dstMsw, dstLsw, ip.arpMsw, ip.arpLsw, frameType);
      StoredIs(dstMsw, dstLsw, ip.arpMsw, ip.arpLsw, frameType);
      ghost var bytes := Stored(dstMsw, dstLsw, ip.arpMsw, ip.arpLsw, frameType);
      PutLeaves(p.data, s, at, bytes);
      PutHolds(p.data, s, at, bytes);
    }

    /** A word store on a little-endian machine. */
    method StoreWord(data: array<Byte>, at: nat, w: Word)
      requires at + 4 <= data.Length
      modifies data
      ensures data[..] == Put(old(data[..]), at, InMemory(w))
    {
      hide InMemory;
      var bytes := InMemory(w);
      data[at], data[at + 1], data[at + 2], data[at + 3] := bytes[0], bytes[1], bytes[2], bytes[3];
    }
  }

  // ---- The bytes on the wire ----

  /** Every packet's pointers lie in its payload memory and span less than four gigabytes. */
  ghost predicate IsPlain(chain: seq<NxPacket>)
    reads chain
  {
    forall q :: q in chain ==>
      0 <= q.prepend <= q.append <= q.data.Length && q.append - q.prepend + FRAME_SIZE < ULONG_LIMIT
  }

  /** The payloads of a chain's packets. */
  ghost function Pieces(chain: seq<NxPacket>): (ps: seq<seq<Byte>>)
    requires IsPlain(chain)
    reads chain, set q | q in chain :: q.data
    ensures |ps| == |chain|
    ensures forall k :: 0 <= k < |chain| ==> ps[k] == chain[k].data[chain[k].prepend..chain[k].append]
  {
    seq(|chain|, k requires 0 <= k < |chain| && IsPlain(chain) reads chain, set q | q in chain :: q.data =>
      chain[k].data[chain[k].prepend..chain[k].append])
  }

  ghost function Joined(pieces: seq<seq<Byte>>): seq<Byte> {
    if pieces == [] then [] else pieces[0] + Joined(pieces[1..])
  }

  /** The payload of a chain. */
  ghost function Payload(chain: seq<NxPacket>): seq<Byte>
    requires IsPlain(chain)
    reads chain, set q | q in chain :: q.data
  {
    Joined(Pieces(chain))
  }

  ghost predicate IsReadable(buffers: seq<TxBuffer>) {
    forall b :: b in buffers ==> b.data != null && 0 <= b.start && b.start + b.len <= b.data.Length
  }

  /** The bytes that a gather list describes, in order. */
  ghost function Wire(buffers: seq<TxBuffer>): seq<Byte>
    requires IsReadable(buffers)
    reads set b | b in buffers && b.data != null :: b.data
  {
    if buffers == [] then []
    else buffers[0].data[buffers[0].start..buffers[0].start + buffers[0].len] + Wire(buffers[1..])
  }

  /** The element describes these bytes. */
  ghost predicate DescribesBytes(b: TxBuffer, piece: seq<Byte>)
    reads if b.data != null then {b.data} else {}
  {
    && b.data != null && 0 <= b.start && b.start + b.len <= b.data.Length
    && b.data[b.start..b.start + b.len] == piece
  }

  lemma {:induction false} WireIs(buffers: seq<TxBuffer>, pieces: seq<seq<Byte>>)
    requires |buffers| == |pieces| && forall k :: 0 <= k < |buffers| ==> DescribesBytes(buffers[k], pieces[k])
    ensures IsReadable(buffers) && Wire(buffers) == Joined(pieces)
  {
    if buffers != [] {
      WireIs(buffers[1..], pieces[1..]);
    }
  }

  lemma GatheredPieces(chain: seq<NxPacket>, g: Frame)
    requires IsPlain(chain) && g == Gathered(chain)
    ensures |g.buffers| == |chain|
    ensures forall k :: 0 <= k < |chain| ==>
              && g.buffers[k].data == chain[k].data && g.buffers[k].start == chain[k].prepend
              && g.buffers[k].len == chain[k].append - chain[k].prepend
              && DescribesBytes(g.buffers[k], Pieces(chain)[k])
  {
    hide DescribesBytes, IsPlain, Extent, TotalExtent;
    forall k | 0 <= k < |chain|
      ensures && g.buffers[k].data == chain[k].data && g.buffers[k].start == chain[k].prepend
              && g.buffers[k].len == chain[k].append - chain[k].prepend
              && DescribesBytes(g.buffers[k], Pieces(chain)[k])
    {
      GatheredPiece(chain, g.buffers[k], k);
    }
  }

  lemma GatheredPiece(chain: seq<NxPacket>, b: TxBuffer, k: nat)
    requires k < |chain| && IsPlain(chain) && b == Element(chain, k)
    ensures b.data == chain[k].data && b.start == chain[k].prepend && b.len == chain[k].append - chain[k].prepend
    ensures DescribesBytes(b, Pieces(chain)[k])
  {
    assert chain[k] in chain;
  }

  lemma OnlyWhenEnabled(d: Driver<NxPacket>, p: NxPacket, prepend: int, length: nat, fits: bool, accepted: bool)
    requires Possible(d, SendPacket(p, prepend, length, fits, accepted))
    ensures var d' := Step(d, SendPacket(p, prepend, length, fits, accepted));
            d'.state == d.state && (d'.handed != d.handed ==> d.state == LINK_ENABLED)
  {
  }

  /** The elements behind the first lie in other memory and describe these bytes. */
  ghost predicate OthersHold(buffers: seq<TxBuffer>, pieces: seq<seq<Byte>>, others: set<array<Byte>>)
    requires |buffers| == |pieces| > 0
    reads others
  {
    forall k :: 1 <= k < |buffers| ==>
      buffers[k].data != null && buffers[k].data in others && DescribesBytes(buffers[k], pieces[k])
  }

  lemma WalkStarts(p: NxPacket, fuel: nat, repr: set<NxPacket>)
    requires Closed(repr) && p in repr && Ends(p, fuel, repr)
    ensures fuel > 0
    ensures var chain := Walk(p, fuel, repr); chain != [] && chain[0] == p && chain[1..] == Walk(p.next, fuel - 1, repr)
  {
  }

  /** What the gather list and the payloads of a chain are before the send. */
  lemma Prepared(chain: seq<NxPacket>, g: Frame, pieces: seq<seq<Byte>>)
    requires chain != [] && chain[0] !in chain[1..] && IsPlain(chain) && g == Gathered(chain) && pieces == Pieces(chain)
    requires forall q :: q in chain && q != chain[0] ==> q.data != chain[0].data
    ensures |g.buffers| == |pieces| > 0
    ensures var p := chain[0];
            && 0 <= p.prepend && p.prepend + |pieces[0]| <= p.data.Length && |pieces[0]| + FRAME_SIZE < ULONG_LIMIT
            && pieces[0] == p.data[..][p.prepend..p.prepend + |pieces[0]|]
            && g.buffers[0].data == p.data && g.buffers[0].start == p.prepend && g.buffers[0].len == |pieces[0]|
    ensures OthersHold(g.buffers, pieces, OtherMemory(chain)) && chain[0].data !in OtherMemory(chain)
    ensures forall a :: a in OtherMemory(chain) ==> allocated(a)
  {
    GatheredPieces(chain, g);
    assert chain[0] in chain;
    assert forall k :: 1 <= k < |chain| ==> chain[1..][k - 1] == chain[k];
  }

  /** The payload memory of the packets behind the first. */
  ghost function OtherMemory(chain: seq<NxPacket>): set<array<Byte>>
    requires chain != []
  {
    set q | q in chain[1..] :: q.data
  }

  lemma PayloadIs(chain: seq<NxPacket>)
    requires IsPlain(chain)
    ensures Payload(chain) == Joined(Pieces(chain))
  {
  }

  /** The wire behind the send. */
  lemma WireOfSent(data: array<Byte>, g: Frame, start: nat, header: seq<Byte>, pieces: seq<seq<Byte>>,
                   others: set<array<Byte>>)
    requires |g.buffers| == |pieces| > 0 && |header| == 14 && 14 <= start && start + |pieces[0]| <= data.Length
    requires |pieces[0]| + FRAME_SIZE < ULONG_LIMIT
    requires g.buffers[0].data == data && g.buffers[0].start == start && g.buffers[0].len == |pieces[0]|
    requires data[start - 14..start] == header && data[start..start + |pieces[0]|] == pieces[0]
    requires OthersHold(g.buffers, pieces, others)
    ensures var f := WithHeader(g); IsReadable(f.buffers) && Wire(f.buffers) == header + Joined(pieces)
  {
    hide Wire, Joined, WithHeader, IsReadable;
    HeaderInFront(data, start, |pieces[0]|, header, pieces[0]);
    WireWithHeader(g, header, pieces);
  }

  lemma WireWithHeader(g: Frame, header: seq<Byte>, pieces: seq<seq<Byte>>)
    requires |g.buffers| == |pieces| > 0 && |header| == 14
    requires var b := g.buffers[0];
             && b.len + FRAME_SIZE < ULONG_LIMIT
             && DescribesBytes(b.(start := b.start - 14, len := b.len + 14), header + pieces[0])
    requires forall k :: 1 <= k < |g.buffers| ==> DescribesBytes(g.buffers[k], pieces[k])
    ensures var f := WithHeader(g); IsReadable(f.buffers) && Wire(f.buffers) == header + Joined(pieces)
  {
    hide Wire, Joined, DescribesBytes;
    var f := WithHeader(g);
    var b := g.buffers[0];
    assert f.buffers[0] == b.(start := b.start - 14, len := b.len + 14);
    WireIs(f.buffers, [header + pieces[0]] + pieces[1..]);
    JoinedParts(header, pieces);
  }

  lemma JoinedParts(header: seq<Byte>, pieces: seq<seq<Byte>>)
    requires pieces != []
    ensures Joined([header + pieces[0]] + pieces[1..]) == header + Joined(pieces)
  {
    var all := [header + pieces[0]] + pieces[1..];
    assert all[1..] == pieces[1..];
    Assoc(header, pieces[0], Joined(pieces[1..]));
  }

  lemma KeptSlice(data: array<Byte>, before: seq<Byte>, start: nat, n: nat)
    requires start + n <= data.Length == |before|
    requires forall k :: start <= k < data.Length ==> data[k] == before[k]
    ensures data[start..start + n] == before[start..start + n]
  {
  }

  lemma HeaderInFront(data: array<Byte>, start: nat, n: nat, header: seq<Byte>, piece: seq<Byte>)
    requires 14 <= start && start + n <= data.Length
    requires data[start - 14..start] == header && data[start..start + n] == piece
    ensures data[start - 14..start + n] == header + piece
  {
    assert data[start - 14..start + n] == data[start - 14..start] + data[start..start + n];
  }

  /** s with bytes written at a position. */
  function Put(s: seq<Byte>, at: nat, bytes: seq<Byte>): (r: seq<Byte>)
    requires at + |bytes| <= |s|
    ensures |r| == |s|
  {
    s[..at] + bytes + s[at + |bytes|..]
  }

  /** Writing on behind what was written. */
  lemma PutOn(s: seq<Byte>, at: nat, x: seq<Byte>, y: seq<Byte>)
    requires at + |x| + |y| <= |s|
    ensures Put(Put(s, at, x), at + |x|, y) == Put(s, at, x + y)
  {
    var r := Put(s, at, x);
    assert r[..at + |x|] == s[..at] + x;
    assert r[at + |x| + |y|..] == s[at + |x| + |y|..];
    Assoc(s[..at], x, y);
  }

  /** Four words written side by side. */
  lemma FourWords(s: seq<Byte>, at: nat, a: seq<Byte>, b: seq<Byte>, c: seq<Byte>, d: seq<Byte>)
    requires at + 16 <= |s| && |a| == |b| == |c| == |d| == 4
    ensures Put(Put(Put(Put(s, at, a), at + 4, b), at + 8, c), at + 12, d) == Put(s, at, a + b + c + d)
  {
    hide Put;
    PutOn(s, at, a, b);
    PutOn(s, at, a + b, c);
    PutOn(s, at, a + b + c, d);
  }

  lemma PutHolds(data: array<Byte>, s: seq<Byte>, at: nat, bytes: seq<Byte>)
    requires |bytes| == 16 && at + 16 <= |s| && data[..] == Put(s, at, bytes)
    ensures data[at + 2..at + 16] == bytes[2..]
  {
    assert data[at + 2..at + 16] == data[..][at + 2..at + 16];
    assert Put(s, at, bytes) == s[..at] + (bytes + s[at + 16..]);
  }

  lemma PutLeaves(data: array<Byte>, s: seq<Byte>, at: nat, bytes: seq<Byte>)
    requires |bytes| == 16 && at + 16 <= |s| && data[..] == Put(s, at, bytes)
    ensures forall k :: 0 <= k < data.Length && !(at <= k < at + 16) ==> data[k] == s[k]
  {
    forall k | 0 <= k < data.Length && !(at <= k < at + 16)
      ensures data[k] == s[k]
    {
      assert data[k] == data[..][k];
    }
  }

  /** Pushing the header onto the first packet of a chain that ends puts it in front of the chain's frame. */
  method PushOntoChain(p: NxPacket, ghost fuel: nat, ghost repr: set<NxPacket>)
    requires Closed(repr) && p in repr
    modifies p`prepend, p`length
    ensures p.prepend == old(p.prepend) - FRAME_SIZE && p.length == PushLength(old(p.length))
    ensures Ends(p, fuel, repr) ==>
              Gathered(Walk(p, fuel, repr)) == WithHeader(old(Gathered(Walk(p, fuel, repr))))
  {
    if Ends(p, fuel, repr) {
      TotalOfFirst(p, fuel, repr);
      FirstIsOnce(p, fuel, repr);
    }
    ghost var start, append := p.prepend, p.append;
    p.PushHeader();
    if Ends(p, fuel, repr) {
      ghost var tail := Walk(p.next, fuel - 1, repr);
      ghost var chain := Walk(p, fuel, repr);
      TotalOfFirst(p, fuel, repr);
      AddModulo(append - start, FRAME_SIZE);
      AddModulo(append - start + TotalExtent(tail), FRAME_SIZE);
      forall k | 1 <= k < |chain|
        ensures Element(chain, k) == old(Element(chain, k))
      {
        assert chain[k] == tail[k - 1];
      }
      assert Gathered(chain).buffers == WithHeader(old(Gathered(Walk(p, fuel, repr)))).buffers;
    }
  }

  /** The bytes that the elements of a gather list describe. */
  function BytesOf(buffers: seq<TxBuffer>): nat {
    if buffers == [] then 0 else buffers[0].len + BytesOf(buffers[1..])
  }

  /** The length announced for a frame is, as a 32-bit word, what its list describes, without
      the header and with it. */
  lemma AnnouncedLengthIsExact(chain: seq<NxPacket>)
    requires chain != []
    ensures var f := Gathered(chain); BytesOf(f.buffers) % ULONG_LIMIT == f.length
    ensures var f := WithHeader(Gathered(chain)); BytesOf(f.buffers) % ULONG_LIMIT == f.length
  {
    var f := Gathered(chain);
    BytesOfChain(f.buffers, chain);
    var first, others := f.buffers[0].len, BytesOf(f.buffers[1..]);
    assert WithHeader(f).buffers[1..] == f.buffers[1..];
    AddModulo(first + FRAME_SIZE, others);
    AddModulo(first + others, FRAME_SIZE);
  }

  lemma {:induction false} BytesOfChain(buffers: seq<TxBuffer>, chain: seq<NxPacket>)
    requires |buffers| == |chain| && forall k :: 0 <= k < |chain| ==> buffers[k].len == Extent(chain[k])
    ensures BytesOf(buffers) % ULONG_LIMIT == TotalExtent(chain) % ULONG_LIMIT
  {
    if chain != [] {
      BytesOfChain(buffers[1..], chain[1..]);
      var a, b := BytesOf(buffers[1..]), TotalExtent(chain[1..]);
      var e := chain[0].append - chain[0].prepend;
      AddModulo(e, a);
      AddModulo(a, e);
      AddModulo(b, e);
    }
  }

  /** The announced length is the length field behind the push exactly when the IP layer's
      length was, as a 32-bit word, what its chain holds. */
  lemma LengthFieldIff(chain: seq<NxPacket>, length: nat)
    requires chain != [] && length < ULONG_LIMIT
    ensures WithHeader(Gathered(chain)).length == PushLength(length) <==> TotalExtent(chain) % ULONG_LIMIT == length
  {
    PopOfPush(length);
    PopOfPush(TotalExtent(chain) % ULONG_LIMIT);
  }

  /** The IP layer's length field is the sum of its chain, of which no packet ends before it starts. */
  ghost predicate IsSummed(chain: seq<NxPacket>, length: nat)
    reads chain
  {
    && chain != [] && (forall q :: q in chain ==> q.prepend <= q.append)
    && TotalExtent(chain) == length < ULONG_LIMIT
  }

  /** The bytes of the list, the announced length and the pushed length field are one number of at most 1514. */
  predicate HasLength(f: Frame, length: nat) {
    BytesOf(f.buffers) == f.length == length + FRAME_SIZE <= ETHERNET_MTU
  }

  lemma {:induction false} BytesAreExtents(buffers: seq<TxBuffer>, chain: seq<NxPacket>)
    requires |buffers| == |chain| && forall k :: 0 <= k < |chain| ==> buffers[k].len == Extent(chain[k])
    requires forall q :: q in chain ==> q.prepend <= q.append
    ensures TotalExtent(chain) >= 0
    ensures TotalExtent(chain) < ULONG_LIMIT ==> BytesOf(buffers) == TotalExtent(chain)
  {
    if chain != [] {
      assert chain[0] in chain;
      BytesAreExtents(buffers[1..], chain[1..]);
    }
  }

  /** What the header adds to a list whose first element has room for it in a word. */
  lemma BytesWithHeader(f: Frame)
    requires f.buffers != [] && f.buffers[0].len + FRAME_SIZE < ULONG_LIMIT
    ensures BytesOf(WithHeader(f).buffers) == BytesOf(f.buffers) + FRAME_SIZE
  {
    var first := f.buffers[0];
    var g := WithHeader(f).buffers;
    assert g[1..] == f.buffers[1..];
    assert g[0].len == first.len + FRAME_SIZE;
  }

  lemma GatheredBytes(chain: seq<NxPacket>, length: nat)
    requires IsSummed(chain, length)
    ensures var f := Gathered(chain);
            f.buffers != [] && f.buffers[0].len <= BytesOf(f.buffers) == f.length == length
  {
    BytesAreExtents(Gathered(chain).buffers, chain);
  }

  /** The bytes given to the hardware: for a packet that the MTU guard lets pass and whose length is
      the sum of its chain, the list, the announced length and the length field agree and stay
      within the MTU if and only if the guard's sum did not wrap around. */
  lemma FrameLengthIff(chain: seq<NxPacket>, length: nat)
    requires IsSummed(chain, length) && PushLength(length) <= ETHERNET_MTU
    ensures HasLength(WithHeader(Gathered(chain)), length) <==> length < ULONG_LIMIT - FRAME_SIZE
  {
    hide Gathered, TotalExtent, BytesOf;
    var f := Gathered(chain);
    MtuGuardIff(length);
    GatheredBytes(chain, length);
    if length < ULONG_LIMIT - FRAME_SIZE {
      BytesWithHeader(f);
    }
  }

  lemma FrameLengthIfSummed(chain: seq<NxPacket>, length: nat)
    ensures IsSummed(chain, length) && PushLength(length) <= ETHERNET_MTU ==>
              (HasLength(WithHeader(Gathered(chain)), length) <==> length < ULONG_LIMIT - FRAME_SIZE)
  {
    if IsSummed(chain, length) && PushLength(length) <= ETHERNET_MTU {
      FrameLengthIff(chain, length);
    }
  }

  lemma InitializeStep(d: Driver<NxPacket>, hasPool: bool)
    ensures Step(d, Event.Initialize(hasPool)) == d.(state := if hasPool then INITIALIZED else NOT_INITIALIZED)
    ensures StatusOf(d, Event.Initialize(hasPool)) == if hasPool then Success else DriverError
  {
  }

  /** The outcomes of a send. */
  lemma SendCases(d: Driver<NxPacket>, p: NxPacket, prepend: int, length: nat, fits: bool, accepted: bool)
    requires length < ULONG_LIMIT
    ensures var d' := SendStep(d, p, prepend, length, fits, accepted);
            var tried := d.state == LINK_ENABLED && PushLength(length) <= ETHERNET_MTU && fits;
            && d'.state == d.state && d'.linkUp == d.linkUp
            && d'.sends == d.sends + [Send(p, prepend, length)]
            && d'.handed == d.handed + (if tried then 1 else 0)
            && d'.inFlight == (if tried && accepted
                               then d.inFlight[p := Flight(|d.sends|, prepend - FRAME_SIZE, PushLength(length))]
                               else d.inFlight)
            && d'.releases == d.releases
                              + if tried && accepted then [] else [Release(|d.sends|, p, prepend, length)]
  {
    PopOfPush(length);
  }

  lemma StoredIs(dstMsw: Word, dstLsw: Word, srcMsw: Word, srcLsw: Word, frameType: Word)
    ensures Stored(dstMsw, dstLsw, srcMsw, srcLsw, frameType)
            == InMemory(Swap(dstMsw)) + InMemory(Swap(dstLsw))
               + InMemory(Swap(Word2(srcMsw, srcLsw))) + InMemory(Swap(Word3(srcLsw, frameType)))
  {
  }

  lemma TailOfSlice(data: array<Byte>, end: nat)
    requires 14 <= end <= data.Length
    ensures data[end - 14..end][12..] == data[end - 2..end]
  {
  }

  lemma SliceAt(data: array<Byte>, i: nat, j: nat, k: nat)
    requires i + k < j <= data.Length
    ensures data[i..j][k] == data[i + k]
  {
  }
}
