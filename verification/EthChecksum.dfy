/**
 The checksum control that frames are handed to the hardware with. The driver
 keeps it in a static variable that one packet leaves to the next.
 */
module EthChecksum {

  /** ChecksumCtrl of the packet configuration handed to the HAL. */
  datatype ChecksumControl = Disabled | IpHeader | IpHeaderAndPayload

  /** What a packet's capability flags ask for. */
  function Asked(payload: bool, header: bool): ChecksumControl {
    if payload then IpHeaderAndPayload else if header then IpHeader else Disabled
  }

  /** What touches the control: an initialisation, or a packet with its flags handed to the hardware. */
  datatype Turn = Initialized(hasPool: bool) | HandedOn(payload: bool, header: bool) {
    /** A packet that asks for a checksum. */
    predicate Asks() {
      HandedOn? && (payload || header)
    }
  }

  /** The control behind a turn. */
  function Control(before: ChecksumControl, t: Turn): ChecksumControl {
    match t
    case Initialized(hasPool) => if hasPool then Disabled else before
    case HandedOn(payload, header) => if payload then IpHeaderAndPayload else if header then IpHeader else before
  }

  /** The control behind a run from static initialisation. */
  function ControlAfter(run: seq<Turn>): ChecksumControl {
    if run == [] then Disabled else Control(ControlAfter(run[..|run| - 1]), run[|run| - 1])
  }

  lemma ControlSnoc(run: seq<Turn>, t: Turn)
    ensures ControlAfter(run + [t]) == Control(ControlAfter(run), t)
  {
    assert (run + [t])[..|run|] == run;
  }

  /** The k-th turn asks for c, no packet behind it asks for anything, and no initialisation with a
      pool is behind it. */
  ghost predicate AskedLast(run: seq<Turn>, k: nat, c: ChecksumControl) {
    && k < |run| && run[k].Asks() && Asked(run[k].payload, run[k].header) == c
    && forall j :: k < j < |run| ==> !run[j].Asks() && run[j] != Initialized(true)
  }

  /** Some packet handed on since the last initialisation with a pool asked for a checksum. */
  ghost predicate AskedSince(run: seq<Turn>) {
    exists k :: 0 <= k < |run| && run[k].Asks() && forall j :: k < j < |run| ==> run[j] != Initialized(true)
  }

  /** The control is what the last packet that asked for one asked for, and nothing if none did. */
  lemma {:induction false} ControlIff(run: seq<Turn>, c: ChecksumControl)
    requires c != Disabled
    ensures ControlAfter(run) == c <==> exists k :: AskedLast(run, k, c)
  {
    if run != [] {
      var n := |run| - 1;
      var front, t := run[..n], run[n];
      ControlIff(front, c);
      if t.Asks() {
        assert ControlAfter(run) == Asked(t.payload, t.header);
        if ControlAfter(run) == c {
          assert AskedLast(run, n, c);
        }
      } else if t != Initialized(true) {
        forall k: nat
          ensures AskedLast(front, k, c) <==> AskedLast(run, k, c)
        {
          assert forall j :: 0 <= j < n ==> front[j] == run[j];
        }
      }
    }
  }

  lemma {:induction false} DisabledIff(run: seq<Turn>)
    ensures ControlAfter(run) == Disabled <==> !AskedSince(run)
  {
    if run != [] {
      var n := |run| - 1;
      var front, t := run[..n], run[n];
      assert forall j :: 0 <= j < n ==> front[j] == run[j];
      DisabledIff(front);
      if t.Asks() {
        assert AskedSince(run);
      } else if t != Initialized(true) && AskedSince(front) {
        var k :| 0 <= k < n && front[k].Asks() && forall j :: k < j < n ==> front[j] != Initialized(true);
        assert run[k].Asks();
      }
    }
  }

  /** Over every run: a packet goes out with the control it asks for if and only if it asks for one, or no
      packet handed on since the last initialisation with a pool asked for one. */
  lemma SentAsAskedIff(run: seq<Turn>, payload: bool, header: bool)
    ensures Control(ControlAfter(run), HandedOn(payload, header)) == Asked(payload, header)
            <==> payload || header || !AskedSince(run)
  {
    DisabledIff(run);
  }

  /** The flags of one packet: a TCP, UDP or ICMP checksum includes that of the header, and is asked for
      whatever was set before. */
  lemma FlagsDecide(before: ChecksumControl, header: bool)
    ensures Control(before, HandedOn(true, header)) == IpHeaderAndPayload
    ensures Control(before, HandedOn(false, true)) == IpHeader
  {
  }

  /** An ARP packet, which asks for nothing, behind a TCP packet: it goes out with the control of the TCP packet. */
  lemma ArpBehindTcp()
    ensures var run := [Initialized(true), HandedOn(true, false)];
            Control(ControlAfter(run), HandedOn(false, false)) == IpHeaderAndPayload != Asked(false, false)
  {
    ControlSnoc([Initialized(true)], HandedOn(true, false));
    assert [Initialized(true)] + [HandedOn(true, false)] == [Initialized(true), HandedOn(true, false)];
  }
}
