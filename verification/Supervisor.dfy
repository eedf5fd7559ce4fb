/** The supervision loop of the network thread and the flags that other threads wait on. */
module Supervisor {
  import opened Machine

  /** The bits of the event flag group. */
  datatype Flag =
    | HAS_LINK | HAS_IP | HAS_IP_INSTANCE | HAS_PACKET_POOL | HAS_ARP_ENABLED | HAS_ICMP_ENABLED
    | HAS_UDP_ENABLED | HAS_TCP_ENABLED | HAS_DHCP_ENABLED | HAS_DNS_ENABLED

  type Flags = set<Flag>

  datatype LinkState = LinkUnknown | LinkDown | LinkUp
  datatype IpState = IpUnknown | IpUnset | IpSet

  /** The configuration that the application sets. */
  datatype Config = Config(dhcp: bool, address: Word, mask: Word, gateway: Word)

  /** What one iteration finds: the answers of the two interface status checks and the configuration. */
  datatype Observation = Observation(linked: bool, addressed: bool, config: Config)

  /** The calls of an iteration that change something outside. */
  datatype Action =
    | AddDnsServer
    | EnableLink
    | StopDhcp
    | ReinitializeDhcp
    | StartDhcp
    | SetAddress(address: Word, mask: Word)
    | ClearGateway
    | SetGateway(gateway: Word)

  datatype Loop = Loop(link: LinkState, ip: IpState, flags: Flags)

  /** One iteration: the state behind it, the flag words after its flag operations, and its actions. */
  datatype Iteration = Iteration(after: Loop, flagOps: seq<Flags>, actions: seq<Action>)

  /** The calls of an iteration that finds a link and no address. */
  function Reconfigure(c: Config): seq<Action> {
    [EnableLink, StopDhcp]
    + if c.dhcp then [ReinitializeDhcp, StartDhcp]
      else [SetAddress(c.address, c.mask), if c.gateway == 0 then ClearGateway else SetGateway(c.gateway)]
  }

  function Iterate(s: Loop, o: Observation): Iteration {
    if !o.linked then
      if HAS_LINK in s.flags || HAS_IP in s.flags then
        var f := s.flags - {HAS_LINK, HAS_IP};
        Iteration(Loop(LinkDown, IpUnknown, f), [f], [])
      else Iteration(Loop(LinkDown, IpUnknown, s.flags), [], [])
    else
      var f := s.flags + {HAS_LINK};
      var ops := if HAS_LINK in s.flags then [] else [f];
      if o.addressed then
        var g := f + {HAS_IP};
        Iteration(Loop(LinkUp, IpSet, g), ops + (if HAS_IP in f then [] else [g]),
                  if s.ip.IpSet? then [] else [AddDnsServer])
      else
        var g := f - {HAS_IP};
        Iteration(Loop(LinkUp, IpUnset, g), ops + (if HAS_IP in f then [g] else []),
                  Reconfigure(o.config))
  }

  /** A whole run of the loop over the observations of its iterations. */
  function Run(s: Loop, trace: seq<Observation>): Iteration
    decreases |trace|
  {
    if trace == [] then Iteration(s, [], [])
    else
      var first := Iterate(s, trace[0]);
      var others := Run(first.after, trace[1..]);
      Iteration(others.after, first.flagOps + others.flagOps, first.actions + others.actions)
  }

  /** At the end of an iteration the flags say what the states say. */
  ghost predicate FlagsMatch(s: Loop) {
    (HAS_LINK in s.flags <==> s.link.LinkUp?) && (HAS_IP in s.flags <==> s.ip.IpSet?)
  }

  ghost predicate LinkAndAddress(o: Observation) {
    o.linked && o.addressed
  }

  /** Entries into the link-up-with-address condition, given whether it held before. */
  function Entries(held: bool, trace: seq<Observation>): nat
    decreases |trace|
  {
    if trace == [] then 0
    else
      var holds := trace[0].linked && trace[0].addressed;
      (if holds && !held then 1 else 0) + Entries(holds, trace[1..])
  }

  function CountAdds(actions: seq<Action>): nat {
    if actions == [] then 0 else (if actions[0].AddDnsServer? then 1 else 0) + CountAdds(actions[1..])
  }

  lemma {:induction false} CountAddsConcat(a: seq<Action>, b: seq<Action>)
    ensures CountAdds(a + b) == CountAdds(a) + CountAdds(b)
  {
    if a == [] {
      assert a + b == b;
    } else {
      CountAddsConcat(a[1..], b);
      assert (a + b)[1..] == a[1..] + b;
    }
  }

  /** The address flag never stands without the link flag. */
  ghost predicate IpImpliesLink(f: Flags) {
    HAS_IP in f ==> HAS_LINK in f
  }

  /** The flags that the loop does not own. */
  function Others(f: Flags): Flags {
    f - {HAS_LINK, HAS_IP}
  }

  lemma NoAddsInReconfigure(c: Config)
    ensures CountAdds(Reconfigure(c)) == 0
  {
    var rest := Reconfigure(c)[2..];
    assert Reconfigure(c) == [EnableLink, StopDhcp] + rest;
    CountAddsConcat([EnableLink], [StopDhcp]);
    assert [EnableLink] + [StopDhcp] == [EnableLink, StopDhcp];
    CountAddsConcat([EnableLink, StopDhcp], rest);
    CountAddsConcat([rest[0]], [rest[1]]);
    assert [rest[0]] + [rest[1]] == rest;
  }

  lemma IterationKeeps(s: Loop, o: Observation)
    requires IpImpliesLink(s.flags)
    ensures var i := Iterate(s, o);
            && FlagsMatch(i.after) && IpImpliesLink(i.after.flags)
            && (i.after.link.LinkUp? <==> o.linked) && (i.after.ip.IpSet? <==> o.linked && o.addressed)
            && (forall f :: f in i.flagOps ==> IpImpliesLink(f))
            && Others(i.after.flags) == Others(s.flags)
            && CountAdds(i.actions) == if o.linked && o.addressed && !s.ip.IpSet? then 1 else 0
  {
    var i := Iterate(s, o);
    NoAddsInReconfigure(o.config);
  }

  /** Over every trace of observations, from any state whose address flag implies its link flag:
      the loop is an edge detector, its flags and states follow the last observation, no flag
      operation shows an address without a link, and the other flags are untouched. */
  lemma {:induction false} RunIsEdgeDetector(s: Loop, trace: seq<Observation>)
    requires IpImpliesLink(s.flags)
    ensures var r := Run(s, trace);
            && CountAdds(r.actions) == Entries(s.ip.IpSet?, trace)
            && (trace != [] ==>
                  && FlagsMatch(r.after)
                  && (r.after.link.LinkUp? <==> trace[|trace| - 1].linked)
                  && (r.after.ip.IpSet? <==> LinkAndAddress(trace[|trace| - 1])))
            && (forall f :: f in r.flagOps ==> IpImpliesLink(f))
            && Others(r.after.flags) == Others(s.flags)
    decreases |trace|
  {
    hide Iterate, IpImpliesLink, Others;
    if trace != [] {
      IterationKeeps(s, trace[0]);
      var first := Iterate(s, trace[0]);
      RunIsEdgeDetector(first.after, trace[1..]);
      var others := Run(first.after, trace[1..]);
      CountAddsConcat(first.actions, others.actions);
      assert |trace| > 1 ==> trace[1..][|trace| - 2] == trace[|trace| - 1];
    }
  }

  // ---- What is configured, told from the observations alone ----

  predicate Unaddressed(o: Observation) {
    o.linked && !o.addressed
  }

  /** The iterations that find a link, no address and this configuration. */
  function Unconfigured(trace: seq<Observation>, c: Config): nat {
    if trace == [] then 0
    else (if Unaddressed(trace[0]) && trace[0].config == c then 1 else 0) + Unconfigured(trace[1..], c)
  }

  /** The iterations that find a link, no address and DHCP chosen. */
  function WithDhcp(trace: seq<Observation>): nat {
    if trace == [] then 0
    else (if Unaddressed(trace[0]) && trace[0].config.dhcp then 1 else 0) + WithDhcp(trace[1..])
  }

  /** The iterations that find a link, no address and these static addresses chosen. */
  function WithStatic(trace: seq<Observation>, address: Word, mask: Word): nat {
    if trace == [] then 0
    else
      var c := trace[0].config;
      (if Unaddressed(trace[0]) && !c.dhcp && c.address == address && c.mask == mask then 1 else 0)
      + WithStatic(trace[1..], address, mask)
  }

  /** How often the calls occur, one directly behind the other. */
  function CountOf(actions: seq<Action>, calls: seq<Action>): nat
    requires calls != []
  {
    if |actions| < |calls| then 0
    else (if actions[..|calls|] == calls then 1 else 0) + CountOf(actions[1..], calls)
  }

  /** A call that starts DHCP or sets addresses stands behind the calls that must come before it, and addresses
      are followed by a gateway. */
  ghost predicate InOrder(actions: seq<Action>) {
    && (forall k :: 0 <= k < |actions| && actions[k] == StartDhcp ==>
          k >= 3 && actions[k - 3..k] == [EnableLink, StopDhcp, ReinitializeDhcp])
    && (forall k :: 0 <= k < |actions| && actions[k].SetAddress? ==>
          && k >= 2 && actions[k - 2..k] == [EnableLink, StopDhcp]
          && k + 1 < |actions| && (actions[k + 1].SetGateway? || actions[k + 1].ClearGateway?))
  }

  lemma InOrderConcat(a: seq<Action>, b: seq<Action>)
    requires InOrder(a) && InOrder(b)
    ensures InOrder(a + b)
  {
    var all := a + b;
    forall k | 0 <= k < |all| && all[k] == StartDhcp
      ensures k >= 3 && all[k - 3..k] == [EnableLink, StopDhcp, ReinitializeDhcp]
    {
      if k < |a| {
        assert a[k] == all[k] && all[k - 3..k] == a[k - 3..k];
      } else {
        assert b[k - |a|] == all[k] && all[k - 3..k] == b[k - |a| - 3..k - |a|];
      }
    }
    forall k | 0 <= k < |all| && all[k].SetAddress?
      ensures k >= 2 && all[k - 2..k] == [EnableLink, StopDhcp]
      ensures k + 1 < |all| && (all[k + 1].SetGateway? || all[k + 1].ClearGateway?)
    {
      if k < |a| {
        assert a[k] == all[k] && all[k - 2..k] == a[k - 2..k] && all[k + 1] == a[k + 1];
      } else {
        assert b[k - |a|] == all[k] && all[k - 2..k] == b[k - |a| - 2..k - |a|] && all[k + 1] == b[k - |a| + 1];
      }
    }
  }

  /** Counting single calls, or pairs of which the first ends no list, goes list by list. */
  lemma {:induction false} CountOfConcat(a: seq<Action>, b: seq<Action>, calls: seq<Action>)
    requires |calls| == 1 || (|calls| == 2 && (a == [] || a[|a| - 1] != calls[0]))
    ensures CountOf(a + b, calls) == CountOf(a, calls) + CountOf(b, calls)
  {
    var all := a + b;
    if a == [] {
      assert all == b;
    } else {
      assert all[1..] == a[1..] + b && all[0] == a[0];
      CountOfConcat(a[1..], b, calls);
      if |a| >= |calls| {
        assert all[..|calls|] == a[..|calls|];
      } else {
        assert a == [a[0]] && a[1..] == [];
        CountOfNone(calls);
        if |all| >= 2 {
          assert all[..2][0] == a[0];
        }
      }
    }
  }

  lemma CountOfNone(calls: seq<Action>)
    requires calls != []
    ensures CountOf([], calls) == 0
  {
  }

  lemma CountOfOne(x: Action, calls: seq<Action>)
    requires calls != []
    ensures CountOf([x], calls) == if calls == [x] then 1 else 0
  {
    assert [x][1..] == [];
    CountOfNone(calls);
    if |calls| == 1 {
      assert [x][..1] == [x];
    }
  }

  lemma CountOfTwo(x: Action, y: Action, calls: seq<Action>)
    requires |calls| == 1 || |calls| == 2
    ensures CountOf([x, y], calls)
            == if |calls| == 2 then (if calls == [x, y] then 1 else 0)
               else (if calls[0] == x then 1 else 0) + (if calls[0] == y then 1 else 0)
  {
    assert [x, y][1..] == [y];
    CountOfOne(y, calls);
    if |calls| == 1 {
      assert [x, y][..1] == [x] && calls == [calls[0]];
    } else {
      assert [x, y][..2] == [x, y];
    }
  }

  /** One list of calls: how often single calls and pairs other than those of its middle occur. */
  lemma CountOfFour(w: Action, x: Action, y: Action, z: Action, calls: seq<Action>)
    requires |calls| == 1 || (|calls| == 2 && calls[0] != x)
    ensures CountOf([w, x] + [y, z], calls) == CountOf([w, x], calls) + CountOf([y, z], calls)
  {
    CountOfConcat([w, x], [y, z], calls);
  }

  /** The calls of an iteration without an address, spelled out. */
  lemma CallsAre(c: Config)
    ensures c.dhcp ==> Reconfigure(c) == [EnableLink, StopDhcp] + [ReinitializeDhcp, StartDhcp]
    ensures !c.dhcp && c.gateway != 0 ==>
              Reconfigure(c) == [EnableLink, StopDhcp] + [SetAddress(c.address, c.mask), SetGateway(c.gateway)]
    ensures !c.dhcp && c.gateway == 0 ==>
              Reconfigure(c) == [EnableLink, StopDhcp] + [SetAddress(c.address, c.mask), ClearGateway]
    ensures InOrder(Reconfigure(c))
  {
    var calls := Reconfigure(c);
    assert calls[0] == EnableLink && calls[1] == StopDhcp;
    assert calls[..2] == [EnableLink, StopDhcp];
    if c.dhcp {
      assert calls[3 - 3..3] == [EnableLink, StopDhcp, ReinitializeDhcp];
    }
  }

  /** The gateway call that belongs to a gateway address. */
  function GatewayCall(gateway: Word): Action {
    if gateway != 0 then SetGateway(gateway) else ClearGateway
  }

  lemma ReconfigureCounts(c: Config, d: Config)
    ensures CountOf(Reconfigure(c), [StartDhcp]) == if c.dhcp then 1 else 0
    ensures CountOf(Reconfigure(c), [SetAddress(d.address, d.mask)])
            == if !c.dhcp && c.address == d.address && c.mask == d.mask then 1 else 0
    ensures CountOf(Reconfigure(c), [SetAddress(d.address, d.mask), GatewayCall(d.gateway)])
            == if c.(dhcp := true) == d.(dhcp := true) && !c.dhcp then 1 else 0
  {
    hide Reconfigure, CountOf, InOrder;
    CallsAre(c);
    var start, address := [StartDhcp], [SetAddress(d.address, d.mask)];
    var pair := [SetAddress(d.address, d.mask), GatewayCall(d.gateway)];
    var y := if c.dhcp then ReinitializeDhcp else SetAddress(c.address, c.mask);
    var z := if c.dhcp then StartDhcp else GatewayCall(c.gateway);
    assert Reconfigure(c) == [EnableLink, StopDhcp] + [y, z];
    CountOfFour(EnableLink, StopDhcp, y, z, start);
    CountOfFour(EnableLink, StopDhcp, y, z, address);
    CountOfFour(EnableLink, StopDhcp, y, z, pair);
    CountOfTwo(EnableLink, StopDhcp, start);
    CountOfTwo(EnableLink, StopDhcp, address);
    CountOfTwo(EnableLink, StopDhcp, pair);
    CountOfTwo(y, z, start);
    CountOfTwo(y, z, address);
    CountOfTwo(y, z, pair);
    assert pair == [y, z] <==> pair[0] == y && pair[1] == z;
  }

  /** The actions of one iteration: those of a configuration without an address, or at most the server. */
  lemma ActionsAre(s: Loop, o: Observation)
    ensures var actions := Iterate(s, o).actions;
            if Unaddressed(o) then actions == Reconfigure(o.config) else actions == [] || actions == [AddDnsServer]
  {
    hide Reconfigure;
  }

  lemma IterationCounts(s: Loop, o: Observation, d: Config)
    ensures var actions := Iterate(s, o).actions;
            && InOrder(actions)
            && (actions != [] ==> !actions[|actions| - 1].SetAddress?)
            && CountOf(actions, [StartDhcp]) == (if Unaddressed(o) && o.config.dhcp then 1 else 0)
            && CountOf(actions, [SetAddress(d.address, d.mask)])
               == (if Unaddressed(o) && !o.config.dhcp && o.config.address == d.address && o.config.mask == d.mask
                   then 1 else 0)
            && CountOf(actions, [SetAddress(d.address, d.mask), GatewayCall(d.gateway)])
               == (if Unaddressed(o) && o.config == d.(dhcp := false) then 1 else 0)
  {
    hide Iterate, Reconfigure, CountOf;
    ActionsAre(s, o);
    CallsAre(o.config);
    ReconfigureCounts(o.config, d);
    var address := SetAddress(d.address, d.mask);
    CountOfNone([StartDhcp]);
    CountOfNone([address]);
    CountOfNone([address, GatewayCall(d.gateway)]);
    CountOfOne(AddDnsServer, [StartDhcp]);
    CountOfOne(AddDnsServer, [address]);
    CountOfOne(AddDnsServer, [address, GatewayCall(d.gateway)]);
  }

  /** Over every trace: DHCP is started as often as an iteration finds a link, no address and DHCP chosen, each
      time behind its restart; addresses are set as often as one finds them chosen instead, and each with the
      gateway of that configuration behind them. */
  lemma {:induction false} RunConfigures(s: Loop, trace: seq<Observation>, d: Config)
    ensures var actions := Run(s, trace).actions;
            && InOrder(actions)
            && CountOf(actions, [StartDhcp]) == WithDhcp(trace)
            && CountOf(actions, [SetAddress(d.address, d.mask)]) == WithStatic(trace, d.address, d.mask)
            && CountOf(actions, [SetAddress(d.address, d.mask), GatewayCall(d.gateway)])
               == Unconfigured(trace, d.(dhcp := false))
    decreases |trace|
  {
    hide Iterate, InOrder, CountOf;
    var address := SetAddress(d.address, d.mask);
    if trace == [] {
      NothingInOrder();
      CountOfNone([StartDhcp]);
      CountOfNone([address]);
      CountOfNone([address, GatewayCall(d.gateway)]);
    } else {
      var first := Iterate(s, trace[0]);
      var others := Run(first.after, trace[1..]);
      RunConfigures(first.after, trace[1..], d);
      IterationCounts(s, trace[0], d);
      InOrderConcat(first.actions, others.actions);
      CountOfConcat(first.actions, others.actions, [StartDhcp]);
      CountOfConcat(first.actions, others.actions, [address]);
      CountOfConcat(first.actions, others.actions, [address, GatewayCall(d.gateway)]);
    }
  }

  lemma NothingInOrder()
    ensures InOrder([])
  {
  }

  class NetX {
    var linkState: LinkState
    var ipState: IpState
    var flags: Flags
    /** The flag word after every flag operation, and the calls made, in order. */
    ghost var flagOps: seq<Flags>
    ghost var actions: seq<Action>

    function State(): Loop
      reads this
    {
      Loop(linkState, ipState, flags)
    }

    /** The thread's states before its loop; the services' flags are already set. */
    constructor (flags: Flags)
      ensures State() == Loop(LinkUnknown, IpUnknown, flags) && flagOps == [] && actions == []
    {
      linkState, ipState, this.flags := LinkUnknown, IpUnknown, flags;
      flagOps, actions := [], [];
    }

    method Set(f: Flags)
      modifies this`flags, this`flagOps
      ensures flags == old(flags) + f && flagOps == old(flagOps) + [flags]
    {
      flags := flags + f;
      flagOps := flagOps + [flags];
    }

    method Clear(f: Flags)
      modifies this`flags, this`flagOps
      ensures flags == old(flags) - f && flagOps == old(flagOps) + [flags]
    {
      flags := flags - f;
      flagOps := flagOps + [flags];
    }

    /** Without an address: enables the link and starts DHCP afresh or sets the static addresses. */
    method Configure(c: Config)
      modifies this`actions
      ensures actions == old(actions) + Reconfigure(c)
    {
      actions := actions + [EnableLink];
      actions := actions + [StopDhcp];
      if c.dhcp {
        actions := actions + [ReinitializeDhcp];
        actions := actions + [StartDhcp];
      }
      if !c.dhcp {
        actions := actions + [SetAddress(c.address, c.mask)];
        if c.gateway == 0 {
          actions := actions + [ClearGateway];
        } else {
          actions := actions + [SetGateway(c.gateway)];
        }
      }
    }

    /** One iteration of the endless loop. */
    method Supervise(o: Observation)
      modifies this
      ensures var i := Iterate(old(State()), o);
              State() == i.after && flagOps == old(flagOps) + i.flagOps && actions == old(actions) + i.actions
    {
      hide Reconfigure;
      if !o.linked {
        linkState := LinkDown;
        ipState := IpUnknown;
        if HAS_LINK in flags || HAS_IP in flags {
          Clear({HAS_LINK, HAS_IP});
        }
        return;
      }
      linkState := LinkUp;
      if HAS_LINK !in flags {
        Set({HAS_LINK});
      }
      if o.addressed {
        if ipState != IpSet {
          actions := actions + [AddDnsServer];
        }
        ipState := IpSet;
        if HAS_IP !in flags {
          Set({HAS_IP});
        }
      } else {
        if HAS_IP in flags {
          Clear({HAS_IP});
        }
        ipState := IpUnset;
        Configure(o.config);
      }
    }

    /** Any number of iterations. */
    method NetworkThread(trace: seq<Observation>)
      modifies this
      ensures var r := Run(old(State()), trace);
              State() == r.after && flagOps == old(flagOps) + r.flagOps && actions == old(actions) + r.actions
    {
      hide Iterate;
      var i := 0;
      ghost var s0 := State();
      while i < |trace|
        invariant 0 <= i <= |trace|
        invariant var r := Run(s0, trace[..i]);
                  State() == r.after && flagOps == old(flagOps) + r.flagOps && actions == old(actions) + r.actions
      {
        RunSnoc(s0, trace[..i], trace[i]);
        assert trace[..i] + [trace[i]] == trace[..i + 1];
        Supervise(trace[i]);
        i := i + 1;
      }
      assert trace[..i] == trace;
    }
  }

  lemma {:induction false} RunSnoc(s: Loop, trace: seq<Observation>, o: Observation)
    ensures var r := Run(s, trace);
            var i := Iterate(r.after, o);
            Run(s, trace + [o]) == Iteration(i.after, r.flagOps + i.flagOps, r.actions + i.actions)
    decreases |trace|
  {
    hide Iterate;
    var all := trace + [o];
    if trace == [] {
      var i := Iterate(s, o);
      assert all[1..] == [] && all[0] == o;
      assert i.flagOps + [] == i.flagOps && [] + i.flagOps == i.flagOps;
      assert i.actions + [] == i.actions && [] + i.actions == i.actions;
    } else {
      assert all[1..] == trace[1..] + [o] && all[0] == trace[0];
      RunSnoc(Iterate(s, trace[0]).after, trace[1..], o);
    }
  }
}
