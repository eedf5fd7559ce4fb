/**
 The handshake between the Ethernet interrupts and the IP helper thread through
 the deferred events word, with initialisations of the driver in between. Every
 read, write, wakeup and mask change, and every store of an initialisation that
 the handshake sees, is a step of its own; the steps interleave freely, except
 that an interrupt runs to its end before a thread goes on and does not start
 while interrupts are masked.
 */
module DeferredEvents {
  import opened Machine

  const PACKET_RECEIVED: Word := 1
  const PACKET_TRANSMITTED: Word := 4

  /** Where the interrupt callback is: not running, behind its read of the word, behind its write. */
  datatype Isr = Quiet | HasRead(bit: Word, seen: Word) | HasStored(bit: Word, seen: Word)

  /** Where the IP helper thread is with the deferred processing. */
  datatype Thread =
    | Waiting
    | Woken
    | Masked
    | HasLoaded(events: Word)
    | HasCleared(events: Word)
    | Processing(events: Word)

  /** Where an initialisation is: none runs, the IP pointer is cleared, the word is cleared as well. */
  datatype Init = Idle | Detached | Cleared

  /** What happened to the word: a bit was raised, the thread took a snapshot, an initialisation cleared it. */
  datatype Happening = Raised(bit: Word) | Snapshot(events: Word) | Reset

  datatype Work = ReleaseTxPackets | ReceivePackets

  datatype System = System(
    events: Word,
    wakeup: bool,
    masked: bool,
    ip: bool,
    init: Init,
    isr: Isr,
    thread: Thread,
    history: seq<Happening>,
    done: seq<Work>)

  /** Static initialisation: ip says that the driver's IP pointer is set. */
  const INITIAL := System(0, false, false, false, Idle, Quiet, Waiting, [], [])

  datatype Move =
    | IsrStart(bit: Word)
    | IsrStore
    | IsrFinish
    | ThreadWake
    | ThreadMask
    | ThreadLoad
    | ThreadClear
    | ThreadUnmask
    | ThreadProcess
    | InitDetach
    | InitClear
    | InitAttach
    | InitFail

  predicate CanMove(s: System, m: Move) {
    match m
    case IsrStart(bit) => s.isr.Quiet? && !s.masked && (bit == PACKET_RECEIVED || bit == PACKET_TRANSMITTED)
    case IsrStore => s.isr.HasRead?
    case IsrFinish => s.isr.HasStored?
    case ThreadWake => s.isr.Quiet? && s.thread.Waiting? && s.wakeup
    case ThreadMask => s.isr.Quiet? && s.thread.Woken?
    case ThreadLoad => s.isr.Quiet? && s.thread.Masked?
    case ThreadClear => s.isr.Quiet? && s.thread.HasLoaded?
    case ThreadUnmask => s.isr.Quiet? && s.thread.HasCleared?
    case ThreadProcess => s.isr.Quiet? && s.thread.Processing?
    case InitDetach => s.isr.Quiet? && !s.masked && s.init.Idle?
    case InitClear => s.isr.Quiet? && !s.masked && s.init.Detached?
    case InitAttach => s.isr.Quiet? && !s.masked && s.init.Cleared?
    case InitFail => s.isr.Quiet? && !s.masked && s.init.Cleared?
  }

  /** What a snapshot makes the thread do, in order. */
  function WorkOf(events: Word): seq<Work> {
    (if events & PACKET_TRANSMITTED != 0 then [ReleaseTxPackets] else [])
    + (if events & PACKET_RECEIVED != 0 then [ReceivePackets] else [])
  }

  /** events |= bit */
  function Raise(events: Word, bit: Word): Word {
    events | bit
  }

  function Next(s: System, m: Move): System
    requires CanMove(s, m)
  {
    match m
    case IsrStart(bit) => s.(isr := HasRead(bit, s.events))
    case IsrStore =>
      s.(events := Raise(s.events, s.isr.bit), isr := HasStored(s.isr.bit, s.isr.seen),
         history := s.history + [Raised(s.isr.bit)])
    // The wakeup is sent to the IP instance that the driver points to; a null pointer reaches none.
    case IsrFinish => s.(isr := Quiet, wakeup := s.wakeup || (s.isr.seen == 0 && s.ip))
    case ThreadWake => s.(wakeup := false, thread := Woken)
    case ThreadMask => s.(masked := true, thread := Masked)
    case ThreadLoad => s.(thread := HasLoaded(s.events))
    case ThreadClear =>
      s.(events := 0, thread := HasCleared(s.thread.events), history := s.history + [Snapshot(s.thread.events)])
    case ThreadUnmask => s.(masked := false, thread := Processing(s.thread.events))
    case ThreadProcess => s.(thread := Waiting, done := s.done + WorkOf(s.thread.events))
    case InitDetach => s.(ip := false, init := Detached)
    case InitClear => s.(events := 0, init := Cleared, history := s.history + [Reset])
    case InitAttach => s.(ip := true, init := Idle)
    case InitFail => s.(init := Idle)
  }

  /** The bits raised since the last snapshot or initialisation. */
  function Outstanding(history: seq<Happening>): Word {
    if history == [] || !history[|history| - 1].Raised? then 0
    else Raise(Outstanding(history[..|history| - 1]), history[|history| - 1].bit)
  }

  lemma OutstandingSnoc(history: seq<Happening>, h: Happening)
    ensures Outstanding(history + [h])
            == if h.Raised? then Raise(Outstanding(history), h.bit) else 0
  {
    assert (history + [h])[..|history|] == history;
  }

  /** The work that all snapshots call for, in order. */
  function Owed(history: seq<Happening>): seq<Work> {
    if history == [] then []
    else Owed(history[..|history| - 1])
         + match history[|history| - 1] case Snapshot(events) => WorkOf(events) case _ => []
  }

  lemma OwedSnoc(history: seq<Happening>, h: Happening)
    ensures Owed(history + [h]) == Owed(history) + match h case Snapshot(events) => WorkOf(events) case _ => []
  {
    assert (history + [h])[..|history|] == history;
  }

  /** The thread has been woken and has not taken its snapshot. */
  predicate IsBeforeSnapshot(t: Thread) {
    t.Woken? || t.Masked? || t.HasLoaded?
  }

  /** The work of the snapshot that the thread is busy with. */
  function InHand(t: Thread): seq<Work> {
    match t
    case HasCleared(events) => WorkOf(events)
    case Processing(events) => WorkOf(events)
    case _ => []
  }

  /** The word is non-zero only if someone will look at it: a wakeup is pending, the thread
      is on its way to its snapshot, or the interrupt is about to call for it. */
  ghost predicate NoLostWakeup(s: System) {
    s.events != 0 ==> s.wakeup || IsBeforeSnapshot(s.thread) || (s.isr.HasStored? && s.isr.seen == 0)
  }

  /** Every snapshot so far held exactly the bits raised since the one before it. */
  ghost predicate SnapshotsAreExact(history: seq<Happening>) {
    forall k :: 0 <= k < |history| && history[k].Snapshot? ==> history[k].events == Outstanding(history[..k])
  }

  /** What every move of every run keeps. */
  ghost predicate Discipline(s: System) {
    && s.masked == (s.thread.Masked? || s.thread.HasLoaded? || s.thread.HasCleared?)
    && (s.masked ==> s.isr.Quiet?)
    && (s.thread.HasLoaded? ==> s.thread.events == s.events)
    && (s.isr.HasRead? ==> s.isr.seen == s.events && s.isr.bit != 0)
    && (s.isr.HasStored? ==> s.events != 0)
  }

  /** What holds as long as no wakeup is missed. */
  ghost predicate Handshake(s: System) {
    && Discipline(s)
    && NoLostWakeup(s)
    && (s.isr.HasStored? && s.isr.seen != 0 ==> s.wakeup || IsBeforeSnapshot(s.thread))
  }

  /** The callback calls for a wakeup while the driver points to no IP instance, and nobody else will look. */
  predicate Misses(s: System, m: Move) {
    && m.IsrFinish? && s.isr.HasStored? && s.isr.seen == 0 && !s.ip
    && !s.wakeup && !IsBeforeSnapshot(s.thread)
  }

  ghost predicate Books(s: System) {
    && s.events == Outstanding(s.history)
    && SnapshotsAreExact(s.history)
    && s.done + InHand(s.thread) == Owed(s.history)
  }

  lemma ExactSnoc(history: seq<Happening>, h: Happening)
    requires SnapshotsAreExact(history) && (h.Snapshot? ==> h.events == Outstanding(history))
    ensures SnapshotsAreExact(history + [h])
  {
    var all := history + [h];
    forall k | 0 <= k < |all| && all[k].Snapshot?
      ensures all[k].events == Outstanding(all[..k])
    {
      assert k < |history| ==> all[..k] == history[..k];
      assert k == |history| ==> all[..k] == history;
    }
  }

  lemma RaiseIsNotZero(events: Word, bit: Word)
    requires events != 0 || bit != 0
    ensures Raise(events, bit) != 0
  {
  }

  lemma MoveKeepsDiscipline(s: System, m: Move)
    requires Discipline(s) && CanMove(s, m)
    ensures Discipline(Next(s, m))
  {
    hide WorkOf, Raise;
    if m.IsrStore? {
      RaiseIsNotZero(s.events, s.isr.bit);
    }
  }

  /** One move: the handshake goes on, and no wakeup is lost, exactly when the move does not miss one. */
  lemma MoveKeepsHandshakeIff(s: System, m: Move)
    requires Handshake(s) && CanMove(s, m)
    ensures Handshake(Next(s, m)) <==> !Misses(s, m)
    ensures NoLostWakeup(Next(s, m)) <==> !Misses(s, m)
  {
    hide WorkOf, Raise, Discipline;
    MoveKeepsDiscipline(s, m);
    DisciplineOfIsr(s);
    if m.IsrStore? {
      RaiseIsNotZero(s.events, s.isr.bit);
    }
  }

  lemma DisciplineOfIsr(s: System)
    requires Discipline(s)
    ensures s.isr.HasRead? ==> s.isr.seen == s.events && s.isr.bit != 0
    ensures s.isr.HasStored? ==> s.events != 0
    ensures s.thread.HasLoaded? ==> s.thread.events == s.events && s.isr.Quiet?
  {
  }

  lemma MoveKeepsHandshake(s: System, m: Move)
    requires Handshake(s) && CanMove(s, m) && !Misses(s, m)
    ensures Handshake(Next(s, m))
  {
    MoveKeepsHandshakeIff(s, m);
  }

  lemma HistoryGrows(history: seq<Happening>, h: Happening)
    requires SnapshotsAreExact(history) && (h.Snapshot? ==> h.events == Outstanding(history))
    ensures Outstanding(history + [h]) == if h.Raised? then Raise(Outstanding(history), h.bit) else 0
    ensures SnapshotsAreExact(history + [h])
    ensures Owed(history + [h]) == Owed(history) + if h.Snapshot? then WorkOf(h.events) else []
  {
    OutstandingSnoc(history, h);
    OwedSnoc(history, h);
    ExactSnoc(history, h);
  }

  lemma MoveKeepsBooks(s: System, m: Move)
    requires Discipline(s) && Books(s) && CanMove(s, m)
    ensures Books(Next(s, m))
  {
    hide Outstanding, Owed, WorkOf, SnapshotsAreExact, Raise;
    var owed := Owed(s.history);
    assert owed + [] == owed;
    match m
    case IsrStore => HistoryGrows(s.history, Raised(s.isr.bit));
    case ThreadClear =>
      HistoryGrows(s.history, Snapshot(s.thread.events));
      assert s.done + [] == s.done;
    case InitClear => HistoryGrows(s.history, Reset);
    case ThreadProcess =>
      var done := s.done + WorkOf(s.thread.events);
      assert done + [] == done;
    case _ =>
  }

  predicate IsRun(s: System, run: seq<Move>)
    decreases |run|
  {
    run == [] || (CanMove(s, run[0]) && IsRun(Next(s, run[0]), run[1..]))
  }

  function After(s: System, run: seq<Move>): System
    requires IsRun(s, run)
    decreases |run|
  {
    if run == [] then s else After(Next(s, run[0]), run[1..])
  }

  lemma {:induction false} RunKeeps(s: System, run: seq<Move>)
    requires Discipline(s) && Books(s) && IsRun(s, run)
    ensures Discipline(After(s, run)) && Books(After(s, run))
    decreases |run|
  {
    hide Discipline, Books;
    if run != [] {
      MoveKeepsDiscipline(s, run[0]);
      MoveKeepsBooks(s, run[0]);
      RunKeeps(Next(s, run[0]), run[1..]);
    }
  }

  /** In every interleaving, whatever initialisations do: the word holds exactly the bits raised since
      the last snapshot or initialisation, every snapshot held exactly those before it, and nothing
      but the work of the snapshots is done. */
  lemma BooksAreKept(run: seq<Move>)
    requires IsRun(INITIAL, run)
    ensures var s := After(INITIAL, run);
            && s.events == Outstanding(s.history) && SnapshotsAreExact(s.history)
            && s.done + InHand(s.thread) == Owed(s.history)
  {
    assert Books(INITIAL);
    RunKeeps(INITIAL, run);
  }

  // ---- Wakeups ----

  ghost predicate NeverLost(s: System, run: seq<Move>)
    requires IsRun(s, run)
    decreases |run|
  {
    NoLostWakeup(s) && (run != [] ==> NeverLost(Next(s, run[0]), run[1..]))
  }

  /** No callback of the run calls for a wakeup that nobody gets. */
  predicate NeverMisses(s: System, run: seq<Move>)
    requires IsRun(s, run)
    decreases |run|
  {
    run == [] || (!Misses(s, run[0]) && NeverMisses(Next(s, run[0]), run[1..]))
  }

  lemma {:induction false} NeverLostFrom(s: System, run: seq<Move>)
    requires Handshake(s) && IsRun(s, run)
    ensures NeverLost(s, run) <==> NeverMisses(s, run)
    ensures NeverMisses(s, run) ==> Handshake(After(s, run))
    decreases |run|
  {
    hide NoLostWakeup, Misses, Discipline;
    assert NoLostWakeup(s);
    if run != [] {
      MoveKeepsHandshakeIff(s, run[0]);
      if !Misses(s, run[0]) {
        NeverLostFrom(Next(s, run[0]), run[1..]);
      } else {
        assert !NeverLost(Next(s, run[0]), run[1..]);
      }
    }
  }

  /** Over every run: the word is never non-zero with nobody to look at it if and only if no callback
      calls for a wakeup while the driver points to no IP instance and nobody else is on the way. */
  lemma WakeupsArriveIff(run: seq<Move>)
    requires IsRun(INITIAL, run)
    ensures NeverLost(INITIAL, run) <==> NeverMisses(INITIAL, run)
  {
    NeverLostFrom(INITIAL, run);
  }

  /** In every interleaving without such a callback no wakeup is lost. */
  lemma NoWakeupIsLost(run: seq<Move>)
    requires IsRun(INITIAL, run) && NeverMisses(INITIAL, run)
    ensures var s := After(INITIAL, run);
            && NoLostWakeup(s) && s.events == Outstanding(s.history) && SnapshotsAreExact(s.history)
            && s.done + InHand(s.thread) == Owed(s.history)
  {
    NeverLostFrom(INITIAL, run);
    BooksAreKept(run);
  }

  /** When the interrupt is over and the thread waits with events outstanding, it can be woken. */
  lemma WaitingThreadIsWoken(run: seq<Move>)
    requires IsRun(INITIAL, run) && NeverMisses(INITIAL, run)
    ensures var s := After(INITIAL, run);
            s.isr.Quiet? && s.thread.Waiting? && Outstanding(s.history) != 0 ==> CanMove(s, ThreadWake)
  {
    NoWakeupIsLost(run);
  }

  /** Callbacks finish only while the driver points to an IP instance. */
  predicate FinishesAttached(s: System, run: seq<Move>)
    requires IsRun(s, run)
    decreases |run|
  {
    run == [] || ((run[0].IsrFinish? ==> s.ip) && FinishesAttached(Next(s, run[0]), run[1..]))
  }

  /** A condition that does not look at the thread: it suffices that no interrupt comes while no IP
      instance is attached. */
  lemma {:induction false} AttachedNeverMisses(s: System, run: seq<Move>)
    requires IsRun(s, run) && FinishesAttached(s, run)
    ensures NeverMisses(s, run)
    decreases |run|
  {
    if run != [] {
      AttachedNeverMisses(Next(s, run[0]), run[1..]);
    }
  }

  /** The word is not zero, nobody is called, and nobody will be: every callback sees a non-zero word. */
  ghost predicate Stuck(s: System) {
    && s.events != 0 && !s.wakeup && s.thread.Waiting?
    && (s.isr.HasRead? ==> s.isr.seen != 0) && (s.isr.HasStored? ==> s.isr.seen != 0)
  }

  /** A missed wakeup is not made up for: from then on no interrupt wakes the waiting thread, until an
      initialisation clears the word. */
  lemma {:induction false} StuckStays(s: System, run: seq<Move>)
    requires Stuck(s) && IsRun(s, run) && InitClear !in run
    ensures Stuck(After(s, run)) && !CanMove(After(s, run), ThreadWake)
    decreases |run|
  {
    hide Raise;
    if run != [] {
      if run[0].IsrStore? {
        RaiseIsNotZero(s.events, s.isr.bit);
      }
      assert forall m :: m in run[1..] ==> m in run;
      StuckStays(Next(s, run[0]), run[1..]);
    }
  }

  lemma MissedIsStuck(s: System)
    requires Discipline(s) && CanMove(s, IsrFinish) && Misses(s, IsrFinish) && s.thread.Waiting?
    ensures Stuck(Next(s, IsrFinish))
  {
  }

  // ---- Bits raised and bits seen ----

  /** The bits raised since the last snapshot. */
  function Since(history: seq<Happening>): Word {
    if history == [] || history[|history| - 1].Snapshot? then 0
    else if history[|history| - 1].Reset? then Since(history[..|history| - 1])
    else Raise(Since(history[..|history| - 1]), history[|history| - 1].bit)
  }

  lemma SinceSnoc(history: seq<Happening>, h: Happening)
    ensures Since(history + [h])
            == if h.Snapshot? then 0 else if h.Reset? then Since(history) else Raise(Since(history), h.bit)
  {
    assert (history + [h])[..|history|] == history;
  }

  /** The word holds every bit raised since the last snapshot, and no other. */
  ghost predicate HoldsAll(s: System) {
    s.events == Since(s.history)
  }

  /** The move discards what was raised: an initialisation clears the word while it is not zero. */
  predicate Discards(s: System, m: Move) {
    m.InitClear? && s.events != 0
  }

  lemma MoveHoldsAllIff(s: System, m: Move)
    requires CanMove(s, m) && HoldsAll(s)
    ensures HoldsAll(Next(s, m)) <==> !Discards(s, m)
  {
    hide Since, Raise;
    match m
    case IsrStore => SinceSnoc(s.history, Raised(s.isr.bit));
    case ThreadClear => SinceSnoc(s.history, Snapshot(s.thread.events));
    case InitClear => SinceSnoc(s.history, Reset);
    case _ =>
  }

  ghost predicate HoldsAllThroughout(s: System, run: seq<Move>)
    requires IsRun(s, run)
    decreases |run|
  {
    HoldsAll(s) && (run != [] ==> HoldsAllThroughout(Next(s, run[0]), run[1..]))
  }

  /** No initialisation happens while the word is not zero. */
  predicate NeverDiscards(s: System, run: seq<Move>)
    requires IsRun(s, run)
    decreases |run|
  {
    run == [] || (!Discards(s, run[0]) && NeverDiscards(Next(s, run[0]), run[1..]))
  }

  lemma {:induction false} HoldsAllFrom(s: System, run: seq<Move>)
    requires IsRun(s, run) && HoldsAll(s)
    ensures HoldsAllThroughout(s, run) <==> NeverDiscards(s, run)
    decreases |run|
  {
    hide HoldsAll, Discards;
    if run != [] {
      MoveHoldsAllIff(s, run[0]);
      if !Discards(s, run[0]) {
        HoldsAllFrom(Next(s, run[0]), run[1..]);
      } else {
        assert !HoldsAllThroughout(Next(s, run[0]), run[1..]);
      }
    }
  }

  /** Over every run: at every moment the word holds exactly the bits raised since the last
      snapshot if and only if no initialisation clears the word while it is not zero. */
  lemma WordHoldsAllIff(run: seq<Move>)
    requires IsRun(INITIAL, run)
    ensures HoldsAllThroughout(INITIAL, run) <==> NeverDiscards(INITIAL, run)
  {
    HoldsAllFrom(INITIAL, run);
  }

  /** Every snapshot held every bit raised since the snapshot before it. */
  ghost predicate SnapshotsHoldAll(history: seq<Happening>) {
    forall k :: 0 <= k < |history| && history[k].Snapshot? ==> history[k].events == Since(history[..k])
  }

  lemma HoldsAllSnoc(history: seq<Happening>, h: Happening)
    requires SnapshotsHoldAll(history) && (h.Snapshot? ==> h.events == Since(history))
    ensures SnapshotsHoldAll(history + [h])
  {
    hide Since;
    var all := history + [h];
    forall k | 0 <= k < |all| && all[k].Snapshot?
      ensures all[k].events == Since(all[..k])
    {
      assert k < |history| ==> all[..k] == history[..k];
      assert k == |history| ==> all[..k] == history;
    }
  }

  lemma MoveKeepsSnapshots(s: System, m: Move)
    requires Discipline(s) && CanMove(s, m) && HoldsAll(s) && SnapshotsHoldAll(s.history)
    ensures SnapshotsHoldAll(Next(s, m).history)
  {
    hide Since, Raise, SnapshotsHoldAll;
    match m
    case IsrStore => HoldsAllSnoc(s.history, Raised(s.isr.bit));
    case ThreadClear => HoldsAllSnoc(s.history, Snapshot(s.thread.events));
    case InitClear => HoldsAllSnoc(s.history, Reset);
    case _ =>
  }

  lemma {:induction false} SnapshotsFrom(s: System, run: seq<Move>)
    requires Discipline(s) && HoldsAll(s) && SnapshotsHoldAll(s.history)
    requires IsRun(s, run) && NeverDiscards(s, run)
    ensures SnapshotsHoldAll(After(s, run).history)
    decreases |run|
  {
    hide HoldsAll, SnapshotsHoldAll, Discards, Discipline;
    if run != [] {
      MoveKeepsDiscipline(s, run[0]);
      MoveHoldsAllIff(s, run[0]);
      MoveKeepsSnapshots(s, run[0]);
      SnapshotsFrom(Next(s, run[0]), run[1..]);
    }
  }

  /** On a run that never initialises over outstanding bits, every bit raised since one snapshot is in the next. */
  lemma EveryBitIsSeen(run: seq<Move>)
    requires IsRun(INITIAL, run) && NeverDiscards(INITIAL, run)
    ensures SnapshotsHoldAll(After(INITIAL, run).history)
  {
    SnapshotsFrom(INITIAL, run);
  }

  lemma RaiseKeepsPart(a: Word, b: Word, bit: Word)
    requires Raise(a, b) == b
    ensures Raise(Raise(a, bit), Raise(b, bit)) == Raise(b, bit)
  {
  }

  lemma NothingIsPart(b: Word)
    ensures Raise(0, b) == b
  {
  }

  lemma {:induction false} OutstandingIsPart(history: seq<Happening>)
    ensures Raise(Outstanding(history), Since(history)) == Since(history)
  {
    hide Raise;
    NothingIsPart(Since(history));
    if history != [] {
      var front := history[..|history| - 1];
      OutstandingIsPart(front);
      if history[|history| - 1].Raised? {
        RaiseKeepsPart(Outstanding(front), Since(front), history[|history| - 1].bit);
      }
    }
  }

  /** In every run, initialisations or not, no bit is in the word or in a snapshot that was not raised
      since the snapshot before. */
  lemma NoBitIsInvented(run: seq<Move>)
    requires IsRun(INITIAL, run)
    ensures var s := After(INITIAL, run);
            && Raise(s.events, Since(s.history)) == Since(s.history)
            && forall k :: 0 <= k < |s.history| && s.history[k].Snapshot? ==>
                 Raise(s.history[k].events, Since(s.history[..k])) == Since(s.history[..k])
  {
    hide Raise, Outstanding, Since;
    BooksAreKept(run);
    var h := After(INITIAL, run).history;
    OutstandingIsPart(h);
    forall k | 0 <= k < |h| && h[k].Snapshot?
      ensures Raise(h[k].events, Since(h[..k])) == Since(h[..k])
    {
      OutstandingIsPart(h[..k]);
    }
  }

  // ---- Runs that lose something ----

  lemma {:induction false} RunConcat(s: System, a: seq<Move>, b: seq<Move>)
    requires IsRun(s, a) && IsRun(After(s, a), b)
    ensures IsRun(s, a + b) && After(s, a + b) == After(After(s, a), b)
    ensures NeverDiscards(s, a + b) == (NeverDiscards(s, a) && NeverDiscards(After(s, a), b))
    ensures NeverMisses(s, a + b) == (NeverMisses(s, a) && NeverMisses(After(s, a), b))
    decreases |a|
  {
    hide Misses, Discards;
    if a == [] {
      assert a + b == b;
    } else {
      assert (a + b)[1..] == a[1..] + b && (a + b)[0] == a[0];
      RunConcat(Next(s, a[0]), a[1..], b);
    }
  }

  lemma RunOfOne(s: System, m: Move)
    requires CanMove(s, m)
    ensures IsRun(s, [m]) && After(s, [m]) == Next(s, m)
    ensures NeverDiscards(s, [m]) == !Discards(s, m) && NeverMisses(s, [m]) == !Misses(s, m)
  {
    hide Misses, Discards;
    assert [m][1..] == [];
    assert IsRun(Next(s, m), []) && NeverDiscards(Next(s, m), []) && NeverMisses(Next(s, m), []);
  }

  lemma RunOfTwo(s: System, m: Move, n: Move)
    requires CanMove(s, m) && CanMove(Next(s, m), n)
    ensures IsRun(s, [m, n]) && After(s, [m, n]) == Next(Next(s, m), n)
    ensures NeverDiscards(s, [m, n]) == (!Discards(s, m) && !Discards(Next(s, m), n))
    ensures NeverMisses(s, [m, n]) == (!Misses(s, m) && !Misses(Next(s, m), n))
  {
    hide IsRun, After, NeverDiscards, NeverMisses, Misses, Discards;
    RunOfOne(s, m);
    RunOfOne(Next(s, m), n);
    RunConcat(s, [m], [n]);
    assert [m] + [n] == [m, n];
  }

  lemma RunOfThree(s: System, m: Move, n: Move, o: Move)
    requires CanMove(s, m) && CanMove(Next(s, m), n) && CanMove(Next(Next(s, m), n), o)
    ensures IsRun(s, [m, n, o]) && After(s, [m, n, o]) == Next(Next(Next(s, m), n), o)
    ensures NeverDiscards(s, [m, n, o])
            == (!Discards(s, m) && !Discards(Next(s, m), n) && !Discards(Next(Next(s, m), n), o))
    ensures NeverMisses(s, [m, n, o]) == (!Misses(s, m) && !Misses(Next(s, m), n) && !Misses(Next(Next(s, m), n), o))
  {
    hide IsRun, After, NeverDiscards, NeverMisses, Misses, Discards;
    RunOfTwo(s, m, n);
    RunOfOne(Next(Next(s, m), n), o);
    RunConcat(s, [m, n], [o]);
    assert [m, n] + [o] == [m, n, o];
  }

  const INITIALIZATION: seq<Move> := [InitDetach, InitClear, InitAttach]

  /** A callback from start to end. */
  function Interrupt(bit: Word): seq<Move> {
    [IsrStart(bit), IsrStore, IsrFinish]
  }

  /** The thread from its wakeup to the end of its processing. */
  const PROCESSING: seq<Move> :=
    [ThreadWake, ThreadMask, ThreadLoad] + [ThreadClear, ThreadUnmask, ThreadProcess]

  lemma InitializationRuns(s: System)
    requires s.isr.Quiet? && !s.masked && s.init.Idle?
    ensures IsRun(s, INITIALIZATION)
    ensures After(s, INITIALIZATION) == s.(events := 0, ip := true, history := s.history + [Reset])
    ensures NeverDiscards(s, INITIALIZATION) <==> s.events == 0
    ensures NeverMisses(s, INITIALIZATION)
  {
    hide IsRun, After, NeverDiscards, NeverMisses;
    RunOfThree(s, InitDetach, InitClear, InitAttach);
  }

  lemma InterruptRuns(s: System, bit: Word)
    requires s.isr.Quiet? && !s.masked && (bit == PACKET_RECEIVED || bit == PACKET_TRANSMITTED)
    ensures IsRun(s, Interrupt(bit))
    ensures After(s, Interrupt(bit))
            == s.(events := Raise(s.events, bit), wakeup := s.wakeup || (s.events == 0 && s.ip),
                  history := s.history + [Raised(bit)])
    ensures NeverDiscards(s, Interrupt(bit))
    ensures NeverMisses(s, Interrupt(bit))
            <==> s.events != 0 || s.ip || s.wakeup || IsBeforeSnapshot(s.thread)
  {
    hide IsRun, After, NeverDiscards, NeverMisses, Raise;
    RunOfThree(s, IsrStart(bit), IsrStore, IsrFinish);
  }

  lemma ProcessingRuns(s: System)
    requires s.isr.Quiet? && !s.masked && s.thread.Waiting? && s.wakeup
    ensures IsRun(s, PROCESSING)
    ensures After(s, PROCESSING)
            == s.(events := 0, wakeup := false, history := s.history + [Snapshot(s.events)],
                  done := s.done + WorkOf(s.events))
  {
    hide IsRun, After, NeverDiscards, NeverMisses, WorkOf;
    RunOfThree(s, ThreadWake, ThreadMask, ThreadLoad);
    var loaded := s.(wakeup := false, masked := true, thread := HasLoaded(s.events));
    RunOfThree(loaded, ThreadClear, ThreadUnmask, ThreadProcess);
    RunConcat(s, [ThreadWake, ThreadMask, ThreadLoad], [ThreadClear, ThreadUnmask, ThreadProcess]);
  }

  /** The driver is initialised, a packet is received, the driver is initialised again, and the thread
      that was woken for the packet runs. */
  const DISCARDING_RUN: seq<Move> := INITIALIZATION + Interrupt(PACKET_RECEIVED) + INITIALIZATION + PROCESSING

  /** The second initialisation discards the event: the thread's snapshot is empty and no packet is received. */
  lemma InitializationLosesEvent()
    ensures IsRun(INITIAL, DISCARDING_RUN) && !NeverDiscards(INITIAL, DISCARDING_RUN)
    ensures var s := After(INITIAL, DISCARDING_RUN);
            && s.history == [Reset, Raised(PACKET_RECEIVED), Reset, Snapshot(0)]
            && !SnapshotsHoldAll(s.history) && s.done == []
  {
    hide IsRun, After, NeverDiscards, NeverMisses, SnapshotsHoldAll, Raise, WorkOf, Interrupt;
    RaiseFirst();
    InitializationRuns(INITIAL);
    var ready := INITIAL.(ip := true, history := [Reset]);
    assert [] + [Reset] == ready.history;
    InterruptRuns(ready, PACKET_RECEIVED);
    RunConcat(INITIAL, INITIALIZATION, Interrupt(PACKET_RECEIVED));
    var raised := ready.(events := PACKET_RECEIVED, wakeup := true, history := [Reset, Raised(PACKET_RECEIVED)]);
    assert ready.history + [Raised(PACKET_RECEIVED)] == raised.history;
    InitializationRuns(raised);
    RunConcat(INITIAL, INITIALIZATION + Interrupt(PACKET_RECEIVED), INITIALIZATION);
    var cleared := raised.(events := 0, history := [Reset, Raised(PACKET_RECEIVED), Reset]);
    assert raised.history + [Reset] == cleared.history;
    assert cleared.history + [Snapshot(0)] == [Reset, Raised(PACKET_RECEIVED), Reset, Snapshot(0)];
    ProcessingRuns(cleared);
    RunConcat(INITIAL, INITIALIZATION + Interrupt(PACKET_RECEIVED) + INITIALIZATION, PROCESSING);
    SnapshotOfNothing();
    LostBit();
  }

  lemma RaiseFirst()
    ensures Raise(0, PACKET_RECEIVED) == PACKET_RECEIVED != 0
  {
  }

  lemma SnapshotOfNothing()
    ensures [] + WorkOf(0) == []
  {
  }

  lemma LostBit()
    ensures !SnapshotsHoldAll([Reset, Raised(PACKET_RECEIVED), Reset, Snapshot(0)])
  {
    hide Raise;
    var history := [Reset, Raised(PACKET_RECEIVED), Reset, Snapshot(0)];
    RaiseFirst();
    SinceSnoc([], Reset);
    SinceSnoc([Reset], Raised(PACKET_RECEIVED));
    SinceSnoc([Reset, Raised(PACKET_RECEIVED)], Reset);
    assert [] + [Reset] == [Reset] && [Reset] + [Raised(PACKET_RECEIVED)] == [Reset, Raised(PACKET_RECEIVED)];
    assert history[..3] == [Reset, Raised(PACKET_RECEIVED)] + [Reset];
    assert history[3].Snapshot?;
  }

  /** The driver is initialised, and initialised again; a packet is received before the second
      initialisation has set the IP pointer again. */
  const INTERRUPTED: seq<Move> := INITIALIZATION + [InitDetach, InitClear] + Interrupt(PACKET_RECEIVED)

  /** The second initialisation ends, and a packet is transmitted. */
  const MISSING_RUN: seq<Move> := INTERRUPTED + ([InitAttach] + Interrupt(PACKET_TRANSMITTED))

  lemma WakeupIsMissed()
    ensures IsRun(INITIAL, INTERRUPTED) && !NeverMisses(INITIAL, INTERRUPTED)
    ensures After(INITIAL, INTERRUPTED)
            == INITIAL.(events := PACKET_RECEIVED, init := Cleared, history := [Reset, Reset, Raised(PACKET_RECEIVED)])
  {
    hide IsRun, After, NeverDiscards, NeverMisses, Raise, Interrupt;
    RaiseFirst();
    InitializationRuns(INITIAL);
    var ready := INITIAL.(ip := true, history := [Reset]);
    assert [] + [Reset] == ready.history && ready.history + [Reset] == [Reset, Reset];
    RunOfTwo(ready, InitDetach, InitClear);
    RunConcat(INITIAL, INITIALIZATION, [InitDetach, InitClear]);
    var detached := ready.(ip := false, init := Cleared, history := [Reset, Reset]);
    InterruptRuns(detached, PACKET_RECEIVED);
    assert detached.history + [Raised(PACKET_RECEIVED)] == [Reset, Reset, Raised(PACKET_RECEIVED)];
    RunConcat(INITIAL, INITIALIZATION + [InitDetach, InitClear], Interrupt(PACKET_RECEIVED));
  }

  /** The wakeup for the received packet is missed, and the next interrupt does not make up for it:
      the initialisation is over, two events are there, and the thread waits for good. */
  lemma InitializationMissesWakeup()
    ensures IsRun(INITIAL, MISSING_RUN) && !NeverMisses(INITIAL, MISSING_RUN)
    ensures var s := After(INITIAL, MISSING_RUN);
            !NoLostWakeup(s) && Stuck(s) && s.ip && s.init.Idle? && s.isr.Quiet?
  {
    hide IsRun, After, NeverDiscards, NeverMisses, Raise, Interrupt;
    WakeupIsMissed();
    RaiseIsNotZero(PACKET_RECEIVED, PACKET_TRANSMITTED);
    var s := After(INITIAL, INTERRUPTED);
    RunOfOne(s, InitAttach);
    InterruptRuns(Next(s, InitAttach), PACKET_TRANSMITTED);
    RunConcat(s, [InitAttach], Interrupt(PACKET_TRANSMITTED));
    RunConcat(INITIAL, INTERRUPTED, [InitAttach] + Interrupt(PACKET_TRANSMITTED));
  }

  // ---- The work that is done, against the interrupts that asked for it ----

  /** The bit was raised since the last snapshot. */
  ghost predicate RaisedSince(history: seq<Happening>, bit: Word) {
    exists k ::
      0 <= k < |history| && history[k] == Raised(bit) && forall j :: k < j < |history| ==> !history[j].Snapshot?
  }

  /** What the snapshots call for, told from the interrupts before each: packets are released if one was
      transmitted, and behind that received if one was received. */
  ghost function Due(history: seq<Happening>): seq<Work> {
    if history == [] then []
    else
      var front := history[..|history| - 1];
      Due(front)
      + if !history[|history| - 1].Snapshot? then []
        else (if RaisedSince(front, 4) then [ReleaseTxPackets] else [])
             + (if RaisedSince(front, 1) then [ReceivePackets] else [])
  }

  /** Only the two bits of the callbacks are ever raised. */
  ghost predicate BitsAreKnown(s: System) {
    && (s.isr.HasRead? ==> s.isr.bit == 1 || s.isr.bit == 4)
    && (s.isr.HasStored? ==> s.isr.bit == 1 || s.isr.bit == 4)
    && OnlyKnown(s.history)
  }

  ghost predicate OnlyKnown(history: seq<Happening>) {
    forall k :: 0 <= k < |history| && history[k].Raised? ==> history[k].bit == 1 || history[k].bit == 4
  }

  lemma {:induction false} RunKeepsBits(s: System, run: seq<Move>)
    requires IsRun(s, run) && BitsAreKnown(s)
    ensures BitsAreKnown(After(s, run))
    decreases |run|
  {
    hide BitsAreKnown;
    if run != [] {
      MoveKeepsBits(s, run[0]);
      RunKeepsBits(Next(s, run[0]), run[1..]);
    }
  }

  lemma MoveKeepsBits(s: System, m: Move)
    requires CanMove(s, m) && BitsAreKnown(s)
    ensures BitsAreKnown(Next(s, m))
  {
    hide Raise, OnlyKnown;
    match m
    case IsrStore => OnlyKnownSnoc(s.history, Raised(s.isr.bit));
    case ThreadClear => OnlyKnownSnoc(s.history, Snapshot(s.thread.events));
    case InitClear => OnlyKnownSnoc(s.history, Reset);
    case _ =>
  }

  lemma OnlyKnownSnoc(history: seq<Happening>, h: Happening)
    requires OnlyKnown(history) && (h.Raised? ==> h.bit == 1 || h.bit == 4)
    ensures OnlyKnown(history + [h])
  {
  }

  lemma RaisedSinceSnoc(history: seq<Happening>, h: Happening, bit: Word)
    ensures RaisedSince(history + [h], bit) <==> !h.Snapshot? && (h == Raised(bit) || RaisedSince(history, bit))
  {
    var all, n := history + [h], |history|;
    assert forall k :: 0 <= k < n ==> all[k] == history[k];
    assert all[n] == h;
    if RaisedSince(all, bit) {
      var k :| 0 <= k < |all| && all[k] == Raised(bit) && forall j :: k < j < |all| ==> !all[j].Snapshot?;
      if k < n {
        assert !all[n].Snapshot? && history[k] == Raised(bit);
        assert forall j :: k < j < n ==> !history[j].Snapshot?;
      }
    }
    if h == Raised(bit) {
      assert |all| == n + 1 && all[n] == Raised(bit);
    } else if RaisedSince(history, bit) && !h.Snapshot? {
      var k :| 0 <= k < n && history[k] == Raised(bit) && forall j :: k < j < n ==> !history[j].Snapshot?;
      assert all[k] == Raised(bit) && forall j :: k < j < |all| ==> !all[j].Snapshot?;
    }
  }

  lemma BitOfRaise(events: Word, raised: Word, bit: Word)
    requires (raised == 1 || raised == 4) && (bit == 1 || bit == 4)
    ensures Raise(events, raised) & bit != 0 <==> raised == bit || events & bit != 0
  {
  }

  lemma NoBitOfZero(bit: Word)
    ensures 0 & bit == 0
  {
  }

  /** A bit is in what was raised since the last snapshot exactly when it was raised since. */
  lemma {:induction false} SinceHasBitIff(history: seq<Happening>, bit: Word)
    requires OnlyKnown(history) && (bit == 1 || bit == 4)
    ensures Since(history) & bit != 0 <==> RaisedSince(history, bit)
  {
    hide Raise, RaisedSince, Since;
    if history == [] {
      NothingSince(bit);
    } else {
      var n := |history| - 1;
      var front, h := history[..n], history[n];
      assert history == front + [h];
      SinceHasBitIff(front, bit);
      SinceSnoc(front, h);
      RaisedSinceSnoc(front, h, bit);
      if h.Snapshot? {
        NoBitOfZero(bit);
      } else if h.Raised? {
        BitOfRaise(Since(front), h.bit, bit);
      }
    }
  }

  lemma NothingSince(bit: Word)
    ensures Since([]) & bit == 0 && !RaisedSince([], bit)
  {
    NoBitOfZero(bit);
  }

  lemma WorkIs(events: Word)
    ensures WorkOf(events) == (if events & 4 != 0 then [ReleaseTxPackets] else [])
                              + (if events & 1 != 0 then [ReceivePackets] else [])
  {
  }

  lemma {:induction false} OwedIsDue(history: seq<Happening>)
    requires OnlyKnown(history) && SnapshotsHoldAll(history)
    ensures Owed(history) == Due(history)
  {
    hide Since, RaisedSince, WorkOf;
    if history != [] {
      var n := |history| - 1;
      var front, h := history[..n], history[n];
      assert history == front + [h];
      assert forall k :: 0 <= k < n ==> front[k] == history[k] && front[..k] == history[..k];
      OwedIsDue(front);
      if h.Snapshot? {
        SinceHasBitIff(front, 4);
        SinceHasBitIff(front, 1);
        WorkIs(h.events);
      }
    }
  }

  /** On every run without an initialisation over outstanding bits, when the thread waits: the work done is
      exactly what the interrupts asked for before each snapshot, releases before receptions. */
  lemma WorkIsDone(run: seq<Move>)
    requires IsRun(INITIAL, run) && NeverDiscards(INITIAL, run)
    ensures var s := After(INITIAL, run); s.thread.Waiting? ==> s.done == Due(s.history)
  {
    hide Owed, Due, WorkOf, SnapshotsHoldAll, OnlyKnown;
    BooksAreKept(run);
    EveryBitIsSeen(run);
    NoBitsAtFirst();
    RunKeepsBits(INITIAL, run);
    var s := After(INITIAL, run);
    OwedIsDue(s.history);
    assert s.done + [] == s.done;
  }

  lemma NoBitsAtFirst()
    ensures BitsAreKnown(INITIAL)
  {
  }

  function CountOf(done: seq<Work>, w: Work): nat {
    if done == [] then 0 else (if done[0] == w then 1 else 0) + CountOf(done[1..], w)
  }

  /** The snapshots that the bit was raised for. */
  ghost function Served(history: seq<Happening>, bit: Word): nat {
    if history == [] then 0
    else
      var front := history[..|history| - 1];
      Served(front, bit) + if history[|history| - 1].Snapshot? && RaisedSince(front, bit) then 1 else 0
  }

  lemma {:induction false} CountConcat(a: seq<Work>, b: seq<Work>, w: Work)
    ensures CountOf(a + b, w) == CountOf(a, w) + CountOf(b, w)
  {
    if a == [] {
      assert a + b == b;
    } else {
      CountConcat(a[1..], b, w);
      assert (a + b)[1..] == a[1..] + b;
    }
  }

  lemma CountOne(w: Work, x: Work)
    ensures CountOf([x], w) == if x == w then 1 else 0
    ensures CountOf([], w) == 0
  {
    assert [x][1..] == [];
  }

  lemma {:induction false} DueIsCounted(history: seq<Happening>)
    ensures CountOf(Due(history), ReceivePackets) == Served(history, 1)
    ensures CountOf(Due(history), ReleaseTxPackets) == Served(history, 4)
  {
    hide RaisedSince, CountOf;
    CountOne(ReceivePackets, ReceivePackets);
    CountOne(ReceivePackets, ReleaseTxPackets);
    CountOne(ReleaseTxPackets, ReceivePackets);
    CountOne(ReleaseTxPackets, ReleaseTxPackets);
    if history != [] {
      var front := history[..|history| - 1];
      DueIsCounted(front);
      var release := if RaisedSince(front, 4) then [ReleaseTxPackets] else [];
      var receive := if RaisedSince(front, 1) then [ReceivePackets] else [];
      CountConcat(release, receive, ReceivePackets);
      CountConcat(release, receive, ReleaseTxPackets);
      var now := if history[|history| - 1].Snapshot? then release + receive else [];
      CountConcat(Due(front), now, ReceivePackets);
      CountConcat(Due(front), now, ReleaseTxPackets);
    }
  }

  /** Counted: packets were received as often as snapshots were taken with a receive interrupt since the
      snapshot before, and released as often as with a transmit interrupt. */
  lemma WorkIsCounted(run: seq<Move>)
    requires IsRun(INITIAL, run) && NeverDiscards(INITIAL, run)
    ensures var s := After(INITIAL, run);
            s.thread.Waiting? ==>
              && CountOf(s.done, ReceivePackets) == Served(s.history, 1)
              && CountOf(s.done, ReleaseTxPackets) == Served(s.history, 4)
  {
    hide Due, CountOf, Served;
    WorkIsDone(run);
    DueIsCounted(After(INITIAL, run).history);
  }

  /** A packet is received behind an initialisation, and the thread runs. */
  const RECEIVING_RUN: seq<Move> := INITIALIZATION + Interrupt(PACKET_RECEIVED) + PROCESSING

  lemma PacketIsReceived()
    ensures IsRun(INITIAL, RECEIVING_RUN) && After(INITIAL, RECEIVING_RUN).done == [ReceivePackets]
  {
    hide IsRun, After, NeverDiscards, NeverMisses, Raise, WorkOf, Interrupt;
    RaiseFirst();
    InitializationRuns(INITIAL);
    var ready := INITIAL.(ip := true, history := [Reset]);
    assert [] + [Reset] == ready.history;
    InterruptRuns(ready, PACKET_RECEIVED);
    RunConcat(INITIAL, INITIALIZATION, Interrupt(PACKET_RECEIVED));
    var raised := ready.(events := PACKET_RECEIVED, wakeup := true, history := [Reset, Raised(PACKET_RECEIVED)]);
    assert ready.history + [Raised(PACKET_RECEIVED)] == raised.history;
    ProcessingRuns(raised);
    RunConcat(INITIAL, INITIALIZATION + Interrupt(PACKET_RECEIVED), PROCESSING);
    WorkOfReceived();
  }

  lemma WorkOfReceived()
    ensures [] + WorkOf(PACKET_RECEIVED) == [ReceivePackets]
  {
    WorkIs(PACKET_RECEIVED);
    assert PACKET_RECEIVED & 4 == 0 && PACKET_RECEIVED & 1 == 1;
  }
}
