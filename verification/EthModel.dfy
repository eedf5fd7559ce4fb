/**
 The Ethernet driver as a state machine over the commands of the IP layer and
 the completions of the hardware, and what holds over every run of it.
 P is the type of packets.
 */
module EthModel {
  import opened Machine
  import opened EthFrame

  const NOT_INITIALIZED := 1
  const INITIALIZE_FAILED := 2
  const INITIALIZED := 3
  const LINK_ENABLED := 4

  /** Lengths are 32-bit words. */
  function PushLength(length: nat): nat {
    (length + FRAME_SIZE) % ULONG_LIMIT
  }

  function PopLength(length: nat): nat {
    (length + ULONG_LIMIT - FRAME_SIZE) % ULONG_LIMIT
  }

  lemma PopOfPush(length: nat)
    requires length < ULONG_LIMIT
    ensures PopLength(PushLength(length)) == length
  {
    if length + FRAME_SIZE < ULONG_LIMIT {
      assert PushLength(length) == length + FRAME_SIZE;
    } else {
      assert PushLength(length) == length + FRAME_SIZE - ULONG_LIMIT;
    }
  }

  /** What the MTU comparison lets pass. Its sum is a 32-bit word, so that the fourteen greatest lengths pass it too. */
  lemma MtuGuardIff(length: nat)
    requires length < ULONG_LIMIT
    ensures PushLength(length) <= ETHERNET_MTU
            <==> length <= 1500 || length >= 4294967282
  {
    if length >= ULONG_LIMIT - FRAME_SIZE {
      assert PushLength(length) == length + FRAME_SIZE - ULONG_LIMIT;
    } else {
      assert PushLength(length) == length + FRAME_SIZE;
    }
  }

  /** A packet as the IP layer supplied it; its index in the list of sends is the send's ticket. */
  datatype Send<P> = Send(packet: P, prepend: int, length: nat)

  /** A packet the hardware has, with its header fields as they are now. */
  datatype Flight = Flight(ticket: nat, prepend: int, length: nat)

  /** A packet given back to the pool, with its header fields at that moment. */
  datatype Release<P> = Release(ticket: nat, packet: P, prepend: int, length: nat)

  datatype Driver<P(==)> = Driver(
    state: nat,
    linkUp: bool,
    sends: seq<Send<P>>,
    inFlight: map<P, Flight>,
    releases: seq<Release<P>>,
    handed: nat)

  /** Static initialisation; nothing was sent and the IP instance is not marked up. */
  function Initial<P>(): Driver<P> {
    Driver(0, false, [], map[], [], 0)
  }

  /** What can happen, with the answers of pool, PHY and hardware that decide its outcome. */
  datatype Event<P> =
    | Initialize(hasPool: bool)
    | Enable(phyReady: bool, phyLink: bool)
    | Disable
    | SendPacket(packet: P, prepend: int, length: nat, fits: bool, accepted: bool)
    | TxFree(packet: P)

  datatype Status = Success | DriverError | AlreadyEnabled

  function SendStep<P>(d: Driver<P>, packet: P, prepend: int, length: nat, fits: bool, accepted: bool): Driver<P> {
    var ticket := |d.sends|;
    var given := d.(sends := d.sends + [Send(packet, prepend, length)]);
    if d.state != LINK_ENABLED then
      given.(releases := d.releases + [Release(ticket, packet, prepend, length)])
    else
      var front, long := prepend - FRAME_SIZE, PushLength(length);
      var refused := Release(ticket, packet, front + FRAME_SIZE, PopLength(long));
      if long > ETHERNET_MTU || !fits then
        given.(releases := d.releases + [refused])
      else if accepted then
        given.(inFlight := d.inFlight[packet := Flight(ticket, front, long)], handed := d.handed + 1)
      else
        given.(releases := d.releases + [refused], handed := d.handed + 1)
  }

  function FreeStep<P>(d: Driver<P>, packet: P): Driver<P>
    requires packet in d.inFlight
  {
    var f := d.inFlight[packet];
    d.(inFlight := d.inFlight - {packet},
       releases := d.releases + [Release(f.ticket, packet, f.prepend + FRAME_SIZE, PopLength(f.length))])
  }

  /** What the surroundings guarantee: the IP layer sends only packets that it owns, and
      the hardware frees only packets that it accepted and has not freed. */
  predicate Possible<P>(d: Driver<P>, e: Event<P>) {
    match e
    case SendPacket(packet, _, length, _, _) => packet !in d.inFlight && length < ULONG_LIMIT
    case TxFree(packet) => packet in d.inFlight
    case _ => true
  }

  function Step<P>(d: Driver<P>, e: Event<P>): Driver<P>
    requires Possible(d, e)
  {
    match e
    case Initialize(hasPool) => d.(state := if hasPool then INITIALIZED else NOT_INITIALIZED)
    case Enable(phyReady, phyLink) =>
      if d.state == INITIALIZED && phyReady && phyLink then d.(state := LINK_ENABLED, linkUp := true) else d
    case Disable => if d.state == LINK_ENABLED then d.(state := INITIALIZED, linkUp := false) else d
    case SendPacket(packet, prepend, length, fits, accepted) =>
      SendStep(d, packet, prepend, length, fits, accepted)
    case TxFree(packet) => FreeStep(d, packet)
  }

  /** The status a command returns. */
  function StatusOf<P>(d: Driver<P>, e: Event<P>): Status {
    match e
    case Initialize(hasPool) => if hasPool then Success else DriverError
    case Enable(phyReady, phyLink) =>
      if d.state < INITIALIZED then DriverError
      else if d.state >= LINK_ENABLED then AlreadyEnabled
      else if phyReady && phyLink then Success else DriverError
    case Disable => if d.state == LINK_ENABLED then Success else DriverError
    case SendPacket(_, _, length, fits, accepted) =>
      if d.state == LINK_ENABLED && PushLength(length) <= ETHERNET_MTU && fits && accepted then Success else DriverError
    case TxFree(_) => Success
  }

  /** Exactly which packets the hardware gets. */
  lemma HandedIff<P>(d: Driver<P>, packet: P, prepend: int, length: nat, fits: bool, accepted: bool)
    requires length < ULONG_LIMIT
    ensures SendStep(d, packet, prepend, length, fits, accepted).handed == d.handed + 1
            <==> d.state == LINK_ENABLED && fits
                 && (length <= 1500 || length >= 4294967282)
  {
    MtuGuardIff(length);
  }

  /** An enabled driver hands on a packet of nearly four gigabytes by its length field, announced with four bytes. */
  lemma GreatLengthIsHanded<P>(packet: P)
    ensures var d := Initial<P>().(state := LINK_ENABLED, linkUp := true);
            var d' := SendStep(d, packet, 16, ULONG_LIMIT - 10, true, true);
            d'.handed == 1 && packet in d'.inFlight && d'.inFlight[packet].length == 4
  {
    assert PushLength(ULONG_LIMIT - 10) == 4;
  }

  /** What a status tells: in which state the driver is behind the command, and that the packet of a send is
      in flight. */
  lemma StatusTells<P>(d: Driver<P>, e: Event<P>)
    requires Possible(d, e) && d.state in {0, 1, 3, 4}
    ensures var d' := Step(d, e);
            match e
            case Initialize(_) =>
              && (StatusOf(d, e) == Success <==> d'.state == 3)
              && (StatusOf(d, e) == DriverError <==> d'.state == 1)
            case Enable(_, _) =>
              && (StatusOf(d, e) == Success <==> d.state != 4 && d'.state == 4)
              && (StatusOf(d, e) == AlreadyEnabled <==> d.state == 4)
            case Disable => StatusOf(d, e) == (if d.state == 4 && d'.state == 3 then Success else DriverError)
            case SendPacket(packet, _, _, _, _) =>
              StatusOf(d, e) == if packet in d'.inFlight then Success else DriverError
            case TxFree(packet) => packet !in d'.inFlight
  {
  }

  // ---- Runs ----

  predicate IsRun<P>(d: Driver<P>, run: seq<Event<P>>)
    decreases |run|
  {
    run == [] || (Possible(d, run[0]) && IsRun(Step(d, run[0]), run[1..]))
  }

  function After<P>(d: Driver<P>, run: seq<Event<P>>): Driver<P>
    requires IsRun(d, run)
    decreases |run|
  {
    if run == [] then d else After(Step(d, run[0]), run[1..])
  }

  lemma {:induction false} RunSnoc<P>(d: Driver<P>, run: seq<Event<P>>, e: Event<P>)
    requires IsRun(d, run + [e])
    ensures IsRun(d, run) && Possible(After(d, run), e)
    ensures After(d, run + [e]) == Step(After(d, run), e)
    decreases |run|
  {
    var all := run + [e];
    if run == [] {
      assert all[1..] == [];
    } else {
      assert all[0] == run[0] && all[1..] == run[1..] + [e];
      RunSnoc(Step(d, run[0]), run[1..], e);
    }
  }

  lemma RunPrefix<P>(d: Driver<P>, run: seq<Event<P>>, k: nat)
    requires IsRun(d, run) && k <= |run|
    ensures IsRun(d, run[..k])
    decreases |run|
  {
    if k < |run| {
      var n := |run| - 1;
      assert run == run[..n] + [run[n]];
      RunSnoc(d, run[..n], run[n]);
      assert run[..n][..k] == run[..k];
      RunPrefix(d, run[..n], k);
    } else {
      assert run[..k] == run;
    }
  }

  // ---- Transmit ownership ----

  ghost predicate IsReleaseOf<P>(r: Release<P>, sends: seq<Send<P>>) {
    r.ticket < |sends| && sends[r.ticket] == Send(r.packet, r.prepend, r.length)
  }

  ghost predicate IsFlightOf<P>(p: P, f: Flight, sends: seq<Send<P>>) {
    && f.ticket < |sends|
    && sends[f.ticket].packet == p && sends[f.ticket].length < ULONG_LIMIT
    && f.prepend == sends[f.ticket].prepend - FRAME_SIZE
    && f.length == PushLength(sends[f.ticket].length)
  }

  /** The send with this ticket has been released. */
  ghost predicate Released<P>(d: Driver<P>, ticket: nat) {
    exists i :: 0 <= i < |d.releases| && d.releases[i].ticket == ticket
  }

  /** The send with this ticket is with the hardware. */
  ghost predicate Flying<P>(d: Driver<P>, ticket: nat) {
    exists p :: p in d.inFlight && d.inFlight[p].ticket == ticket
  }

  /** Ownership: every send is in flight or released and never both, is released at most
      once, and was released with exactly the prepend pointer and length it came with. */
  ghost predicate Conserved<P>(d: Driver<P>) {
    && (forall t: nat :: t < |d.sends| ==> Flying(d, t) != Released(d, t))
    && (forall i, j :: 0 <= i < j < |d.releases| ==> d.releases[i].ticket != d.releases[j].ticket)
    && (forall i :: 0 <= i < |d.releases| ==> IsReleaseOf(d.releases[i], d.sends))
    && (forall p :: p in d.inFlight ==> IsFlightOf(p, d.inFlight[p], d.sends))
    && (forall p, q :: p in d.inFlight && q in d.inFlight && p != q ==> d.inFlight[p].ticket != d.inFlight[q].ticket)
  }

  /** A send that is released at once. */
  lemma ReleaseNow<P>(d: Driver<P>, d': Driver<P>, s: Send<P>)
    requires Conserved(d)
    requires d'.sends == d.sends + [s] && d'.inFlight == d.inFlight
    requires d'.releases == d.releases + [Release(|d.sends|, s.packet, s.prepend, s.length)]
    ensures Conserved(d')
  {
    var n := |d.releases|;
    assert d'.releases[n].ticket == |d.sends|;
    forall t: nat | t < |d'.sends|
      ensures Flying(d', t) != Released(d', t)
    {
      SameFlights(d, d', t);
      if t < |d.sends| {
        if Released(d, t) {
          var i :| 0 <= i < n && d.releases[i].ticket == t;
          assert d'.releases[i].ticket == t;
        }
        if Released(d', t) {
          var i :| 0 <= i < |d'.releases| && d'.releases[i].ticket == t;
          assert i < n && d.releases[i].ticket == t;
        }
      }
    }
  }

  lemma SameFlights<P>(d: Driver<P>, d': Driver<P>, t: nat)
    requires Conserved(d) && d'.inFlight == d.inFlight
    ensures Flying(d', t) == Flying(d, t)
    ensures t >= |d.sends| ==> !Flying(d, t)
  {
  }

  /** A send that the hardware accepts. */
  lemma FlyNow<P>(d: Driver<P>, d': Driver<P>, s: Send<P>)
    requires Conserved(d) && s.packet !in d.inFlight && s.length < ULONG_LIMIT
    requires d'.sends == d.sends + [s] && d'.releases == d.releases
    requires d'.inFlight == d.inFlight[s.packet := Flight(|d.sends|, s.prepend - FRAME_SIZE, PushLength(s.length))]
    ensures Conserved(d')
  {
    forall t: nat | t < |d'.sends|
      ensures Flying(d', t) != Released(d', t)
    {
      if t == |d.sends| {
        assert s.packet in d'.inFlight && d'.inFlight[s.packet].ticket == t;
      } else {
        if Flying(d, t) {
          var p :| p in d.inFlight && d.inFlight[p].ticket == t;
          assert p in d'.inFlight && d'.inFlight[p].ticket == t;
        }
        if Flying(d', t) {
          var p :| p in d'.inFlight && d'.inFlight[p].ticket == t;
          assert p in d.inFlight && d.inFlight[p].ticket == t;
        }
      }
    }
  }

  /** A completion moves its packet from in flight to released. */
  lemma LandNow<P>(d: Driver<P>, packet: P)
    requires Conserved(d) && packet in d.inFlight
    ensures Conserved(FreeStep(d, packet))
  {
    var d' := FreeStep(d, packet);
    var f := d.inFlight[packet];
    var n := |d.releases|;
    PopOfPush(d.sends[f.ticket].length);
    assert d'.releases[n].ticket == f.ticket;
    assert Flying(d, f.ticket);
    forall t: nat | t < |d'.sends|
      ensures Flying(d', t) != Released(d', t)
    {
      LandOne(d, packet, t);
    }
    forall i, j | 0 <= i < j < |d'.releases|
      ensures d'.releases[i].ticket != d'.releases[j].ticket
    {
      if j == n {
        assert d.releases[i].ticket != f.ticket;
      }
    }
  }

  lemma LandOne<P>(d: Driver<P>, packet: P, t: nat)
    requires Conserved(d) && packet in d.inFlight && t < |d.sends|
    ensures Flying(FreeStep(d, packet), t) != Released(FreeStep(d, packet), t)
  {
    var d' := FreeStep(d, packet);
    var f := d.inFlight[packet];
    var n := |d.releases|;
    assert d'.releases[n].ticket == f.ticket;
    if t == f.ticket {
      assert Released(d', t);
    } else {
      if Flying(d, t) {
        var p :| p in d.inFlight && d.inFlight[p].ticket == t;
        assert p in d'.inFlight && d'.inFlight[p].ticket == t;
      }
      if Released(d, t) {
        var i :| 0 <= i < n && d.releases[i].ticket == t;
        assert d'.releases[i].ticket == t;
      }
      if Released(d', t) {
        var i :| 0 <= i < |d'.releases| && d'.releases[i].ticket == t;
        assert i < n && d.releases[i].ticket == t;
      }
    }
  }

  lemma StepConserves<P>(d: Driver<P>, e: Event<P>)
    requires Conserved(d) && Possible(d, e)
    ensures Conserved(Step(d, e))
  {
    match e
    case SendPacket(packet, prepend, length, fits, accepted) =>
      PopOfPush(length);
      var d' := Step(d, e);
      if d'.inFlight == d.inFlight {
        ReleaseNow(d, d', Send(packet, prepend, length));
      } else {
        FlyNow(d, d', Send(packet, prepend, length));
      }
    case TxFree(packet) => LandNow(d, packet);
    case _ => SameBooks(d, Step(d, e));
  }

  lemma SameBooks<P>(d: Driver<P>, d': Driver<P>)
    requires Conserved(d) && d'.sends == d.sends && d'.inFlight == d.inFlight && d'.releases == d.releases
    ensures Conserved(d')
  {
    forall t: nat
      ensures Released(d', t) == Released(d, t) && Flying(d', t) == Flying(d, t)
    {
    }
  }

  /** Transmit ownership is conserved over every run from static initialisation. */
  lemma {:induction false} RunConserves<P>(run: seq<Event<P>>)
    requires IsRun(Initial<P>(), run)
    ensures Conserved(After(Initial<P>(), run))
    decreases |run|
  {
    if run != [] {
      var n := |run| - 1;
      assert run == run[..n] + [run[n]];
      RunSnoc(Initial<P>(), run[..n], run[n]);
      RunConserves(run[..n]);
      StepConserves(After(Initial<P>(), run[..n]), run[n]);
    }
  }

  /** Counting over every run: sends are the packets in flight plus the releases. */
  lemma {:induction false} RunCounts<P>(run: seq<Event<P>>)
    requires IsRun(Initial<P>(), run)
    ensures var d := After(Initial<P>(), run); |d.sends| == |d.inFlight| + |d.releases|
    decreases |run|
  {
    if run != [] {
      var n := |run| - 1;
      assert run == run[..n] + [run[n]];
      RunSnoc(Initial<P>(), run[..n], run[n]);
      RunCounts(run[..n]);
      StepCounts(After(Initial<P>(), run[..n]), run[n]);
    }
  }

  lemma StepCounts<P>(d: Driver<P>, e: Event<P>)
    requires Possible(d, e) && |d.sends| == |d.inFlight| + |d.releases|
    ensures var d' := Step(d, e); |d'.sends| == |d'.inFlight| + |d'.releases|
  {
    if e.TxFree? {
      assert Step(d, e).inFlight.Keys == d.inFlight.Keys - {e.packet};
    }
  }

  // ---- Driver state ----

  /** Over every run the state is one of 0, 1, 3 and 4, and link-enabled implies that the IP instance is marked up. */
  lemma {:induction false} RunStates<P>(run: seq<Event<P>>)
    requires IsRun(Initial<P>(), run)
    ensures var d := After(Initial<P>(), run);
            d.state in {0, 1, 3, 4} && (d.state == 4 ==> d.linkUp)
    decreases |run|
  {
    if run != [] {
      var n := |run| - 1;
      assert run == run[..n] + [run[n]];
      RunSnoc(Initial<P>(), run[..n], run[n]);
      RunStates(run[..n]);
    }
  }

  /** An initialisation with a pool at i is the last one, and a successful enabling at j behind it is not undone. */
  ghost predicate EnabledBy<P>(run: seq<Event<P>>, i: nat, j: nat) {
    && i < j < |run| && run[i] == Initialize(true) && run[j] == Enable(true, true)
    && (forall k :: i < k < |run| ==> !run[k].Initialize?)
    && (forall k :: j < k < |run| ==> !run[k].Disable?)
  }

  ghost predicate IsEnabledBy<P>(run: seq<Event<P>>) {
    exists i, j :: EnabledBy(run, i, j)
  }

  /** The last initialisation had a pool. */
  ghost predicate InitializedBy<P>(run: seq<Event<P>>, i: nat) {
    && i < |run| && run[i] == Initialize(true)
    && (forall k :: i < k < |run| ==> !run[k].Initialize?)
  }

  lemma {:induction false} InitializedIff<P>(run: seq<Event<P>>)
    requires IsRun(Initial<P>(), run)
    ensures After(Initial<P>(), run).state >= INITIALIZED <==> exists i :: InitializedBy(run, i)
    decreases |run|
  {
    if run != [] {
      var n := |run| - 1;
      var front, e := run[..n], run[n];
      assert run == front + [e];
      RunSnoc(Initial<P>(), front, e);
      InitializedIff(front);
      RunStates(front);
      if e == Initialize(true) {
        assert InitializedBy(run, n);
      } else if !e.Initialize? {
        forall i: nat
          ensures InitializedBy(front, i) <==> InitializedBy(run, i)
        {
          assert forall k :: 0 <= k < n ==> front[k] == run[k];
        }
      }
    }
  }

  /** Exactly when the driver is link-enabled, told from the commands of the run alone. */
  lemma {:induction false} EnabledIff<P>(run: seq<Event<P>>)
    requires IsRun(Initial<P>(), run)
    ensures After(Initial<P>(), run).state == LINK_ENABLED <==> IsEnabledBy(run)
    decreases |run|
  {
    if run != [] {
      var n := |run| - 1;
      var front, e := run[..n], run[n];
      assert run == front + [e];
      RunSnoc(Initial<P>(), front, e);
      EnabledIff(front);
      RunStates(front);
      InitializedIff(front);
      assert forall k :: 0 <= k < n ==> front[k] == run[k];
      if e == Enable(true, true) && After(Initial<P>(), front).state >= INITIALIZED {
        var i :| InitializedBy(front, i);
        assert EnabledBy(run, i, n);
      } else if e == Enable(true, true) {
        EnabledNeedsInitialized(run, front);
      } else if !e.Initialize? && !e.Disable? {
        forall i: nat, j: nat
          ensures EnabledBy(front, i, j) <==> EnabledBy(run, i, j)
        {
        }
      }
    }
  }

  lemma EnabledNeedsInitialized<P>(run: seq<Event<P>>, front: seq<Event<P>>)
    requires run != [] && front == run[..|run| - 1] && run[|run| - 1].Enable?
    requires !exists i :: InitializedBy(front, i)
    ensures !exists i, j :: EnabledBy(run, i, j)
  {
    forall i: nat, j: nat
      ensures EnabledBy(run, i, j) ==> InitializedBy(front, i)
    {
    }
  }

  ghost predicate Agrees<P>(d: Driver<P>) {
    d.state == LINK_ENABLED <==> d.linkUp
  }

  ghost predicate AgreesThroughout<P>(run: seq<Event<P>>)
    requires IsRun(Initial<P>(), run)
  {
    forall k :: 0 <= k <= |run| ==> IsRun(Initial<P>(), run[..k]) && Agrees(After(Initial<P>(), run[..k]))
  }

  /** No initialisation follows commands that have enabled the link. */
  ghost predicate NoReinitWhileEnabled<P>(run: seq<Event<P>>) {
    forall k :: 0 <= k < |run| && run[k].Initialize? ==> !IsEnabledBy(run[..k])
  }

  /** One event, between agreeing and agreeing again. */
  lemma StepAgreesIff<P>(d: Driver<P>, e: Event<P>)
    requires Possible(d, e) && Agrees(d)
    ensures Agrees(Step(d, e)) <==> !(e.Initialize? && d.state == LINK_ENABLED)
  {
  }

  lemma {:induction false} PrefixOf<P>(run: seq<Event<P>>, k: nat)
    requires IsRun(Initial<P>(), run) && k < |run|
    ensures IsRun(Initial<P>(), run[..k]) && IsRun(Initial<P>(), run[..k + 1])
    ensures Possible(After(Initial<P>(), run[..k]), run[k])
    ensures After(Initial<P>(), run[..k + 1]) == Step(After(Initial<P>(), run[..k]), run[k])
  {
    RunPrefix(Initial<P>(), run, k + 1);
    assert run[..k + 1] == run[..k] + [run[k]];
    RunSnoc(Initial<P>(), run[..k], run[k]);
  }

  lemma {:induction false} AgreesUpTo<P>(run: seq<Event<P>>, k: nat)
    requires IsRun(Initial<P>(), run) && NoReinitWhileEnabled(run) && k <= |run|
    ensures IsRun(Initial<P>(), run[..k]) && Agrees(After(Initial<P>(), run[..k]))
  {
    if k > 0 {
      AgreesUpTo(run, k - 1);
      PrefixOf(run, k - 1);
      EnabledIff(run[..k - 1]);
      StepAgreesIff(After(Initial<P>(), run[..k - 1]), run[k - 1]);
    }
  }

  /** Link-enabled and marked up are equivalent throughout a run exactly when its commands
      never initialise while enabled: initialising leaves the mark of the IP instance. */
  lemma AgreesIff<P>(run: seq<Event<P>>)
    requires IsRun(Initial<P>(), run)
    ensures AgreesThroughout(run) <==> NoReinitWhileEnabled(run)
  {
    if NoReinitWhileEnabled(run) {
      forall k | 0 <= k <= |run|
        ensures IsRun(Initial<P>(), run[..k]) && Agrees(After(Initial<P>(), run[..k]))
      {
        AgreesUpTo(run, k);
      }
    }
    if AgreesThroughout(run) {
      forall k | 0 <= k < |run| && run[k].Initialize?
        ensures !IsEnabledBy(run[..k])
      {
        PrefixOf(run, k);
        EnabledIff(run[..k]);
        assert Agrees(After(Initial<P>(), run[..k])) && Agrees(After(Initial<P>(), run[..k + 1]));
      }
    }
  }

  /** Initialising an enabled driver again: it is not enabled, and the IP instance is still marked up. */
  lemma ReinitLeavesMark<P>()
    ensures var run: seq<Event<P>> := [Initialize(true), Enable(true, true), Initialize(true)];
            && IsRun(Initial<P>(), run)
            && After(Initial<P>(), run) == Initial<P>().(state := INITIALIZED, linkUp := true)
            && !Agrees(After(Initial<P>(), run))
  {
    var run: seq<Event<P>> := [Initialize(true), Enable(true, true), Initialize(true)];
    assert run[1..] == [Enable(true, true), Initialize(true)];
    assert run[1..][1..] == [Initialize(true)] && run[1..][1..][1..] == [];
    var third := Initial<P>().(state := LINK_ENABLED, linkUp := true);
    assert After(third, [Initialize(true)]) == Step(third, Initialize(true));
    var second := Initial<P>().(state := INITIALIZED);
    assert After(second, run[1..]) == After(third, [Initialize(true)]);
  }

  /** A packet reaches the hardware only when the commands so far have enabled the link. */
  lemma HandedOnlyWhenEnabled<P>(run: seq<Event<P>>, k: nat)
    requires IsRun(Initial<P>(), run) && k < |run|
    ensures IsRun(Initial<P>(), run[..k]) && IsRun(Initial<P>(), run[..k + 1])
    ensures After(Initial<P>(), run[..k + 1]).handed != After(Initial<P>(), run[..k]).handed ==>
              run[k].SendPacket? && IsEnabledBy(run[..k])
  {
    PrefixOf(run, k);
    EnabledIff(run[..k]);
  }
}
