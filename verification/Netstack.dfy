/**
 The socket bookkeeping of the userspace netstack: `crates/net/src/netstack.rs`.

 Packet injection, the driver task and every relay task meet in `Stack`, one lock section at a
 time. Each lock section is an `Event`; TCP states change arbitrarily in between. `SocketSet`
 panics when asked for a handle that is free or holds the other kind of socket: `Step` returns
 `None` for such a run, and the theorems show it never does.
 */
module Netstack {
  import opened Wrappers
  import opened Sequences
  import opened Cidr

  type u16 = n: int | 0 <= n < 0x1_0000
  type Handle = int

  datatype SocketAddr = SocketAddr(ip: IpAddr, port: u16)
  datatype Key = Key(src: SocketAddr, dst: SocketAddr)
  datatype Proto = ProtoTcp | ProtoUdp
  datatype Flow = Flow(key: Key, proto: Proto, syn: bool)

  datatype TcpState =
    | Closed | Listen | SynSent | SynReceived | Established | FinWait1
    | FinWait2 | CloseWait | Closing | LastAck | TimeWait

  datatype Socket = Tcp(state: TcpState) | Udp

  /** A relay task between its spawn and the end of its last lock section. */
  datatype Relay = TcpRelay(handle: Handle, key: Key) | UdpRelay(handle: Handle, key: Key)

  datatype State = State(
    sockets: map<Handle, Socket>,
    tcpSeen: set<Key>,
    udpFlows: map<Key, Handle>,
    abandoned: seq<Handle>,
    relays: set<Relay>
  )

  const Empty := State(map[], {}, map[], [], {})

  /**
   One lock section. `slot` is the index `SocketSet::add` hands out, `bound` whether
   `listen`/`bind` succeeds, `polled` the TCP states `iface.poll` leaves behind, `after` the
   state a socket call leaves behind.
   */
  datatype Event =
    | Inject(flow: Option<Flow>, slot: Handle, bound: bool)
    | Drive(polled: map<Handle, TcpState>)
    | UseTcp(handle: Handle, after: TcpState)
    | UseUdp(handle: Handle)
    | EndTcp(handle: Handle, key: Key, connected: bool, after: TcpState)
    | EndUdp(handle: Handle, key: Key)

  /** What the runtime guarantees: free slots are handed out, and only live relays run. */
  ghost predicate Enabled(s: State, e: Event) {
    match e
    case Inject(_, slot, _) => slot !in s.sockets
    case Drive(_) => true
    case UseTcp(h, _) => exists k :: TcpRelay(h, k) in s.relays
    case UseUdp(h) => exists k :: UdpRelay(h, k) in s.relays
    case EndTcp(h, k, _, _) => TcpRelay(h, k) in s.relays
    case EndUdp(h, k) => UdpRelay(h, k) in s.relays
  }

  predicate HasTcp(sockets: map<Handle, Socket>, h: Handle) {
    h in sockets && sockets[h].Tcp?
  }

  predicate HasUdp(sockets: map<Handle, Socket>, h: Handle) {
    h in sockets && sockets[h].Udp?
  }

  /** `iface.poll`: any TCP socket may move to any state, nothing else changes. */
  function Poll(sockets: map<Handle, Socket>, polled: map<Handle, TcpState>): (r: map<Handle, Socket>)
    ensures r.Keys == sockets.Keys
  {
    map h | h in sockets :: if sockets[h].Tcp? && h in polled then Tcp(polled[h]) else sockets[h]
  }

  /** What `retain` ends with when it has already kept `kept`. */
  function Keep(kept: seq<Handle>, r: Option<(map<Handle, Socket>, seq<Handle>)>): Option<(map<Handle, Socket>,
      seq<Handle>)> {
    match r
    case None => None
    case Some((left, more)) => Some((left, kept + more))
  }

  /** `abandoned.retain(..)`: free the closed ones, keep the rest; `None` is a panic. */
  function Reap(sockets: map<Handle, Socket>, abandoned: seq<Handle>): Option<(map<Handle, Socket>, seq<Handle>)> {
    if abandoned == [] then Some((sockets, []))
    else if !HasTcp(sockets, abandoned[0]) then None
    else if sockets[abandoned[0]].state == Closed then Reap(sockets - {abandoned[0]}, abandoned[1..])
    else Keep([abandoned[0]], Reap(sockets, abandoned[1..]))
  }

  /** The state after one lock section; `None` is a panic inside `SocketSet`. */
  function Step(s: State, e: Event): Option<State> {
    match e
    case Inject(None, _, _) => Some(s)
    case Inject(Some(Flow(key, ProtoTcp, syn)), slot, bound) =>
      if syn && key !in s.tcpSeen && bound then
        Some(s.(sockets := s.sockets[slot := Tcp(Listen)],
                tcpSeen := s.tcpSeen + {key},
                relays := s.relays + {TcpRelay(slot, key)}))
      else Some(s)
    case Inject(Some(Flow(key, ProtoUdp, _)), slot, bound) =>
      if key !in s.udpFlows && bound then
        Some(s.(sockets := s.sockets[slot := Udp],
                udpFlows := s.udpFlows[key := slot],
                relays := s.relays + {UdpRelay(slot, key)}))
      else Some(s)
    case Drive(polled) =>
      (match Reap(Poll(s.sockets, polled), s.abandoned)
       case None => None
       case Some((left, kept)) => Some(s.(sockets := left, abandoned := kept)))
    case UseTcp(h, after) =>
      if HasTcp(s.sockets, h) then Some(s.(sockets := s.sockets[h := Tcp(after)])) else None
    case UseUdp(h) =>
      if HasUdp(s.sockets, h) then Some(s) else None
    case EndTcp(h, key, connected, after) =>
      if !HasTcp(s.sockets, h) then None
      else if s.sockets[h].state != Closed then
        Some(s.(sockets := s.sockets[h := Tcp(if connected then after else Closed)],
                tcpSeen := s.tcpSeen - {key},
                abandoned := s.abandoned + [h],
                relays := s.relays - {TcpRelay(h, key)}))
      else
        Some(s.(sockets := s.sockets - {h}, tcpSeen := s.tcpSeen - {key}, relays := s.relays - {TcpRelay(h, key)}))
    case EndUdp(h, key) =>
      if h !in s.sockets then None
      else Some(s.(sockets := s.sockets - {h}, udpFlows := s.udpFlows - {key}, relays := s.relays - {UdpRelay(h, key)}))
  }

  // ----- the invariant -----

  function Handles(relays: set<Relay>): set<Handle> {
    set r | r in relays :: r.handle
  }

  function TcpKeys(relays: set<Relay>): set<Key> {
    set r | r in relays && r.TcpRelay? :: r.key
  }

  predicate AllTcp(sockets: map<Handle, Socket>, hs: seq<Handle>) {
    forall i :: 0 <= i < |hs| ==> HasTcp(sockets, hs[i])
  }

  /** Each relay owns one live socket of its own kind, shared with nobody. */
  predicate RelaysOwnSockets(s: State) {
    && (forall r :: r in s.relays ==> r.handle in s.sockets && s.sockets[r.handle].Tcp? == r.TcpRelay?)
    && (forall r, q :: r in s.relays && q in s.relays && r.handle == q.handle ==> r == q)
  }

  /** Abandoned sockets are live TCP sockets without a relay, each listed once. */
  predicate AbandonedAreOrphans(s: State) {
    && Distinct(s.abandoned)
    && AllTcp(s.sockets, s.abandoned)
    && (forall h :: h in s.abandoned ==> h !in Handles(s.relays))
  }

  /** The two tables say exactly which relays are live, one relay per key and protocol. */
  predicate TablesMatchRelays(s: State) {
    && s.tcpSeen == TcpKeys(s.relays)
    && (forall r, q :: r in s.relays && q in s.relays && r.TcpRelay? == q.TcpRelay? && r.key == q.key ==> r == q)
    && (forall k :: k in s.udpFlows ==> UdpRelay(s.udpFlows[k], k) in s.relays)
    && (forall r :: r in s.relays && r.UdpRelay? ==> r.key in s.udpFlows && s.udpFlows[r.key] == r.handle)
  }

  predicate EverySocketOwned(s: State) {
    forall h :: h in s.sockets ==> h in Handles(s.relays) || h in s.abandoned
  }

  predicate Inv(s: State) {
    RelaysOwnSockets(s) && AbandonedAreOrphans(s) && TablesMatchRelays(s) && EverySocketOwned(s)
  }

  /** What `retain` computes when the list names distinct TCP sockets. */
  lemma {:induction false} ReapMeaning(sockets: map<Handle, Socket>, abandoned: seq<Handle>)
    requires Distinct(abandoned)
    requires AllTcp(sockets, abandoned)
    ensures Reap(sockets, abandoned).Some?
    ensures var (left, kept) := Reap(sockets, abandoned).value;
            && left == (map h | h in sockets && !(h in abandoned && sockets[h] == Tcp(Closed)) :: sockets[h])
            && (forall h :: h in kept <==> h in abandoned && sockets[h] != Tcp(Closed))
            && Distinct(kept) && AllTcp(left, kept)
  {
    if abandoned != [] {
      var h, rest := abandoned[0], abandoned[1..];
      assert abandoned == [h] + rest;
      assert h !in rest;
      if sockets[h] == Tcp(Closed) {
        ReapMeaning(sockets - {h}, rest);
      } else {
        ReapMeaning(sockets, rest);
      }
    }
  }

  lemma KeepNothing(r: Option<(map<Handle, Socket>, seq<Handle>)>)
    ensures Keep([], r) == r
  {
    if r.Some? { assert [] + r.value.1 == r.value.1; }
  }

  lemma KeepOneMore(kept: seq<Handle>, h: Handle, r: Option<(map<Handle, Socket>, seq<Handle>)>)
    ensures Keep(kept, Keep([h], r)) == Keep(kept + [h], r)
  {
    if r.Some? { assert kept + ([h] + r.value.1) == (kept + [h]) + r.value.1; }
  }

  lemma InjectTcpKeepsInv(s: State, key: Key, slot: Handle)
    requires Inv(s) && slot !in s.sockets && key !in s.tcpSeen
    ensures Inv(s.(sockets := s.sockets[slot := Tcp(Listen)], tcpSeen := s.tcpSeen + {key}, relays := s.relays +
                   {TcpRelay(slot, key)}))
  {
    var relays := s.relays + {TcpRelay(slot, key)};
    assert Handles(relays) == Handles(s.relays) + {slot};
    assert TcpKeys(relays) == TcpKeys(s.relays) + {key};
  }

  lemma InjectUdpKeepsInv(s: State, key: Key, slot: Handle)
    requires Inv(s) && slot !in s.sockets && key !in s.udpFlows
    ensures Inv(s.(sockets := s.sockets[slot := Udp], udpFlows := s.udpFlows[key := slot], relays := s.relays +
                   {UdpRelay(slot, key)}))
  {
    var relays := s.relays + {UdpRelay(slot, key)};
    assert Handles(relays) == Handles(s.relays) + {slot};
    assert TcpKeys(relays) == TcpKeys(s.relays);
  }

  lemma InjectKeepsInv(s: State, flow: Option<Flow>, slot: Handle, bound: bool)
    requires Inv(s) && slot !in s.sockets
    ensures Inv(Step(s, Inject(flow, slot, bound)).value)
  {
    if flow.Some? && bound {
      var key := flow.value.key;
      if flow.value.proto.ProtoTcp? && key !in s.tcpSeen {
        InjectTcpKeepsInv(s, key, slot);
      } else if flow.value.proto.ProtoUdp? && key !in s.udpFlows {
        InjectUdpKeepsInv(s, key, slot);
      }
    }
  }

  lemma DriveKeepsInv(s: State, polled: map<Handle, TcpState>)
    requires Inv(s)
    ensures Step(s, Drive(polled)).Some?
    ensures Inv(Step(s, Drive(polled)).value)
  {
    var sockets := Poll(s.sockets, polled);
    ReapMeaning(sockets, s.abandoned);
    var t := Step(s, Drive(polled)).value;
    assert t.relays == s.relays;
    forall r | r in s.relays ensures r.handle in t.sockets && t.sockets[r.handle].Tcp? == r.TcpRelay? {
      assert r.handle in Handles(s.relays);
    }
  }

  lemma TcpRelayLeaves(relays: set<Relay>, h: Handle, key: Key)
    requires TcpRelay(h, key) in relays
    requires forall r, q :: r in relays && q in relays && r.handle == q.handle ==> r == q
    requires forall r, q :: r in relays && q in relays && r.TcpRelay? == q.TcpRelay? && r.key == q.key ==> r == q
    ensures Handles(relays - {TcpRelay(h, key)}) == Handles(relays) - {h}
    ensures TcpKeys(relays - {TcpRelay(h, key)}) == TcpKeys(relays) - {key}
  {
  }

  lemma AbandonTcpKeepsInv(s: State, h: Handle, key: Key, after: TcpState)
    requires Inv(s) && TcpRelay(h, key) in s.relays
    ensures Inv(s.(sockets := s.sockets[h := Tcp(after)], tcpSeen := s.tcpSeen - {key},
                   abandoned := s.abandoned + [h], relays := s.relays - {TcpRelay(h, key)}))
  {
    TcpRelayLeaves(s.relays, h, key);
  }

  lemma RemoveTcpKeepsInv(s: State, h: Handle, key: Key)
    requires Inv(s) && TcpRelay(h, key) in s.relays
    ensures Inv(s.(sockets := s.sockets - {h}, tcpSeen := s.tcpSeen - {key}, relays := s.relays - {TcpRelay(h, key)}))
  {
    TcpRelayLeaves(s.relays, h, key);
  }

  lemma EndUdpKeepsInv(s: State, h: Handle, key: Key)
    requires Inv(s) && UdpRelay(h, key) in s.relays
    ensures Inv(s.(sockets := s.sockets - {h}, udpFlows := s.udpFlows - {key}, relays := s.relays - {UdpRelay(h, key)}))
  {
    var relays := s.relays - {UdpRelay(h, key)};
    assert Handles(relays) == Handles(s.relays) - {h};
    assert TcpKeys(relays) == TcpKeys(s.relays);
  }

  lemma EndKeepsInv(s: State, e: Event)
    requires Inv(s) && Enabled(s, e) && (e.EndTcp? || e.EndUdp?)
    ensures Step(s, e).Some?
    ensures Inv(Step(s, e).value)
  {
    if e.EndTcp? {
      AbandonTcpKeepsInv(s, e.handle, e.key, if e.connected then e.after else Closed);
      RemoveTcpKeepsInv(s, e.handle, e.key);
    } else {
      EndUdpKeepsInv(s, e.handle, e.key);
    }
  }

  /** No enabled lock section panics, and each one keeps the invariant. */
  lemma StepKeepsInv(s: State, e: Event)
    requires Inv(s) && Enabled(s, e)
    ensures Step(s, e).Some?
    ensures Inv(Step(s, e).value)
  {
    match e
    case Inject(flow, slot, bound) => InjectKeepsInv(s, flow, slot, bound);
    case Drive(polled) => DriveKeepsInv(s, polled);
    case UseTcp(h, after) =>
    case UseUdp(h) =>
    case EndTcp(_, _, _, _) => EndKeepsInv(s, e);
    case EndUdp(_, _) => EndKeepsInv(s, e);
  }

  lemma {:induction false} ReapPanicsIff(sockets: map<Handle, Socket>, abandoned: seq<Handle>)
    requires Distinct(abandoned)
    ensures Reap(sockets, abandoned).None? <==> !AllTcp(sockets, abandoned)
  {
    if abandoned != [] {
      var h, rest := abandoned[0], abandoned[1..];
      assert abandoned == [h] + rest && h !in rest;
      assert AllTcp(sockets, abandoned) <==> HasTcp(sockets, h) && AllTcp(sockets, rest);
      assert AllTcp(sockets - {h}, rest) <==> AllTcp(sockets, rest);
      ReapPanicsIff(sockets, rest);
      ReapPanicsIff(sockets - {h}, rest);
    }
  }

  /** A lock section panics exactly when it asks for a handle that is free or holds the other kind of socket. */
  lemma PanicsIff(s: State, e: Event)
    requires Distinct(s.abandoned)
    ensures Step(s, e).None? <==>
              match e
              case Inject(_, _, _) => false
              case Drive(_) => exists i :: 0 <= i < |s.abandoned| && !HasTcp(s.sockets, s.abandoned[i])
              case UseTcp(h, _) => h !in s.sockets || s.sockets[h].Udp?
              case UseUdp(h) => h !in s.sockets || s.sockets[h].Tcp?
              case EndTcp(h, _, _, _) => h !in s.sockets || s.sockets[h].Udp?
              case EndUdp(h, _) => h !in s.sockets
  {
    if e.Drive? {
      ReapPanicsIff(Poll(s.sockets, e.polled), s.abandoned);
      assert AllTcp(Poll(s.sockets, e.polled), s.abandoned) <==> AllTcp(s.sockets, s.abandoned);
    }
  }

  // ----- whole runs -----

  /** Any interleaving of lock sections from the empty stack. */
  ghost predicate Run(trace: seq<State>, events: seq<Event>) {
    && |trace| == |events| + 1
    && trace[0] == Empty
    && (forall i :: 0 <= i < |events| ==>
        Enabled(trace[i], events[i]) && Step(trace[i], events[i]) == Some(trace[i + 1]))
  }

  lemma {:induction false} RunKeepsInv(trace: seq<State>, events: seq<Event>, i: nat)
    requires Run(trace, events) && i < |trace|
    ensures Inv(trace[i])
  {
    if i > 0 {
      RunKeepsInv(trace, events, i - 1);
      StepKeepsInv(trace[i - 1], events[i - 1]);
    }
  }

  /** No interleaving reaches a lock section that panics on a freed or wrong-kind handle. */
  lemma RunsNeverPanic(trace: seq<State>, events: seq<Event>, next: Event)
    requires Run(trace, events) && Enabled(trace[|events|], next)
    ensures Step(trace[|events|], next).Some?
  {
    RunKeepsInv(trace, events, |events|);
    StepKeepsInv(trace[|events|], next);
  }

  function TcpHandles(relays: set<Relay>): set<Handle> {
    set r | r in relays && r.TcpRelay? :: r.handle
  }

  function Elements(hs: seq<Handle>): set<Handle> {
    set i | 0 <= i < |hs| :: hs[i]
  }

  /** In every reachable state the sockets are the disjoint union of three owners' handles. */
  lemma SocketsHaveOneOwner(trace: seq<State>, events: seq<Event>, i: nat)
    requires Run(trace, events) && i < |trace|
    ensures var s := trace[i];
            && s.sockets.Keys == TcpHandles(s.relays) + Elements(s.abandoned) + s.udpFlows.Values
            && TcpHandles(s.relays) !! Elements(s.abandoned) !! s.udpFlows.Values
            && s.tcpSeen == TcpKeys(s.relays)
  {
    RunKeepsInv(trace, events, i);
    var s := trace[i];
    forall h | h in s.sockets.Keys
      ensures h in TcpHandles(s.relays) + Elements(s.abandoned) + s.udpFlows.Values
    {
      if h in Handles(s.relays) {
        var r :| r in s.relays && r.handle == h;
        if r.UdpRelay? { assert s.udpFlows[r.key] == h; }
      }
    }
    forall h | h in s.udpFlows.Values
      ensures h in s.sockets && h !in TcpHandles(s.relays) && h !in Elements(s.abandoned)
    {
      var k :| k in s.udpFlows && s.udpFlows[k] == h;
      assert UdpRelay(h, k) in s.relays;
      assert h in Handles(s.relays);
    }
    forall h | h in TcpHandles(s.relays) ensures h in s.sockets && h !in Elements(s.abandoned) {
      assert h in Handles(s.relays);
    }
  }

  lemma {:induction false} HandleCount(relays: set<Relay>)
    requires forall r, q :: r in relays && q in relays && r.handle == q.handle ==> r == q
    ensures |Handles(relays)| == |relays|
    decreases |relays|
  {
    if relays != {} {
      var r :| r in relays;
      var rest := relays - {r};
      HandleCount(rest);
      assert Handles(relays) == Handles(rest) + {r.handle};
    }
  }

  lemma {:induction false} KeyCount(relays: set<Relay>)
    requires forall r, q :: r in relays && q in relays && r.key == q.key ==> r == q
    requires forall r :: r in relays ==> r.TcpRelay?
    ensures |TcpKeys(relays)| == |relays|
    decreases |relays|
  {
    if relays != {} {
      var r :| r in relays;
      var rest := relays - {r};
      KeyCount(rest);
      assert TcpKeys(relays) == TcpKeys(rest) + {r.key};
    }
  }

  lemma TcpRelayCount(s: State)
    requires RelaysOwnSockets(s) && TablesMatchRelays(s)
    ensures |TcpHandles(s.relays)| == |TcpKeys(s.relays)|
  {
    var tcp := set r | r in s.relays && r.TcpRelay?;
    HandleCount(tcp);
    KeyCount(tcp);
    assert Handles(tcp) == TcpHandles(s.relays);
    assert TcpKeys(tcp) == TcpKeys(s.relays);
  }

  lemma {:induction false} ElementCount(hs: seq<Handle>)
    requires Distinct(hs)
    ensures |Elements(hs)| == |hs|
  {
    if hs != [] {
      var n := |hs| - 1;
      ElementCount(hs[..n]);
      assert hs == hs[..n] + [hs[n]];
      assert Elements(hs) == Elements(hs[..n]) + {hs[n]};
    }
  }

  lemma {:induction false} FlowCount(flows: map<Key, Handle>)
    requires forall k, l :: k in flows && l in flows && flows[k] == flows[l] ==> k == l
    ensures |flows.Values| == |flows|
    decreases |flows|
  {
    if flows != map[] {
      var k :| k in flows;
      var rest := flows - {k};
      FlowCount(rest);
      forall h ensures h in flows.Values <==> h in rest.Values + {flows[k]} {
        if h in flows.Values && h != flows[k] {
          var l :| l in flows && flows[l] == h;
          assert l in rest;
        }
      }
      assert flows.Values == rest.Values + {flows[k]};
      assert flows[k] !in rest.Values;
      assert flows.Keys == rest.Keys + {k};
    }
  }

  /** Nothing leaks: the tables account for every socket there is. */
  lemma SocketsAreAccountedFor(trace: seq<State>, events: seq<Event>, i: nat)
    requires Run(trace, events) && i < |trace|
    ensures var s := trace[i]; |s.sockets| == |s.tcpSeen| + |s.abandoned| + |s.udpFlows|
  {
    var s := trace[i];
    SocketsHaveOneOwner(trace, events, i);
    RunKeepsInv(trace, events, i);
    TcpRelayCount(s);
    ElementCount(s.abandoned);
    FlowCount(s.udpFlows);
    assert |s.sockets| == |s.sockets.Keys|;
  }

  /** Nothing but a relay's own last section takes away its socket or its kind. */
  lemma RelayKeepsItsSocket(s: State, e: Event, r: Relay)
    requires Inv(s) && Enabled(s, e) && r in s.relays
    requires r.TcpRelay? ==> !(e.EndTcp? && e.handle == r.handle)
    requires r.UdpRelay? ==> !(e.EndUdp? && e.handle == r.handle)
    ensures Step(s, e).Some?
    ensures var t := Step(s, e).value;
            && r in t.relays && r.handle in t.sockets && t.sockets[r.handle].Tcp? == r.TcpRelay?
            && (r.TcpRelay? ==> r.key in t.tcpSeen)
            && (r.UdpRelay? ==> r.key in t.udpFlows && t.udpFlows[r.key] == r.handle)
  {
    StepKeepsInv(s, e);
    assert r in Step(s, e).value.relays;
  }

  /** The state `iface.poll` leaves a TCP socket in. */
  function AfterPoll(polled: map<Handle, TcpState>, h: Handle, state: TcpState): TcpState {
    if h in polled then polled[h] else state
  }

  /** An orphan that is closed after the poll. */
  predicate ClosedOrphan(s: State, polled: map<Handle, TcpState>, h: Handle) {
    h in s.abandoned && HasTcp(s.sockets, h) && AfterPoll(polled, h, s.sockets[h].state) == Closed
  }

  lemma ListedIsTcp(sockets: map<Handle, Socket>, hs: seq<Handle>, h: Handle)
    requires AllTcp(sockets, hs) && h in hs
    ensures HasTcp(sockets, h)
  {
    var i :| 0 <= i < |hs| && hs[i] == h;
    assert HasTcp(sockets, hs[i]);
  }

  /** One driver turn frees exactly the orphans it finds closed, and every other socket keeps its polled state. */
  lemma DriveMeaning(s: State, polled: map<Handle, TcpState>)
    requires Inv(s)
    ensures Step(s, Drive(polled)).Some?
    ensures var t := Step(s, Drive(polled)).value;
            && (forall h :: h in t.sockets <==> h in s.sockets && !ClosedOrphan(s, polled, h))
            && (forall h :: h in t.sockets && s.sockets[h].Tcp? ==>
                  t.sockets[h] == Tcp(AfterPoll(polled, h, s.sockets[h].state)))
            && (forall h :: h in t.sockets && s.sockets[h].Udp? ==> t.sockets[h] == Udp)
            && (forall h :: h in t.abandoned <==> h in s.abandoned && h in t.sockets)
            && t == s.(sockets := t.sockets, abandoned := t.abandoned)
  {
    var sockets := Poll(s.sockets, polled);
    ReapMeaning(sockets, s.abandoned);
    forall h | h in s.abandoned ensures HasTcp(s.sockets, h) {
      ListedIsTcp(s.sockets, s.abandoned, h);
    }
  }

  /**
   No connection is dropped: a TCP socket leaves the set only as an orphan that a driver turn finds
   closed, or as its relay ends and finds it closed.
   */
  lemma OnlyClosedLeaves(s: State, e: Event, h: Handle)
    requires Inv(s) && Enabled(s, e) && HasTcp(s.sockets, h)
    ensures Step(s, e).Some?
    ensures h !in Step(s, e).value.sockets <==>
              || (e.Drive? && ClosedOrphan(s, e.polled, h))
              || (e.EndTcp? && e.handle == h && s.sockets[h].state == Closed)
  {
    StepKeepsInv(s, e);
    if e.Drive? { DriveMeaning(s, e.polled); }
  }

  lemma EmptyOrInhabited(hs: seq<Handle>)
    ensures hs == [] || exists h :: h in hs
  {
    if hs != [] {
      var h := hs[0];
      assert h in hs;
    }
  }

  /** With no relay left, one driver section that finds every orphan closed empties the stack. */
  lemma DriverDrains(trace: seq<State>, events: seq<Event>, polled: map<Handle, TcpState>)
    requires Run(trace, events)
    requires trace[|events|].relays == {}
    requires forall h :: h in trace[|events|].abandoned ==> h in polled && polled[h] == Closed
    ensures Step(trace[|events|], Drive(polled)) == Some(Empty)
  {
    RunKeepsInv(trace, events, |events|);
    var s := trace[|events|];
    var sockets := Poll(s.sockets, polled);
    ReapMeaning(sockets, s.abandoned);
    var (left, kept) := Reap(sockets, s.abandoned).value;
    assert Handles(s.relays) == {} && TcpKeys(s.relays) == {};
    forall h | h in s.abandoned ensures sockets[h] == Tcp(Closed) {
      var i :| 0 <= i < |s.abandoned| && s.abandoned[i] == h;
      assert HasTcp(s.sockets, s.abandoned[i]);
    }
    assert forall h :: h in sockets ==> h in s.abandoned;
    assert left == map[];
    EmptyOrInhabited(kept);
    assert s.udpFlows == map[];
  }

  // ----- the mutable stack -----

  class Stack {
    var sockets: map<Handle, Socket>
    var tcpSeen: set<Key>
    var udpFlows: map<Key, Handle>
    var abandoned: seq<Handle>
    ghost var relays: set<Relay>

    ghost function View(): State
      reads this
    {
      State(sockets, tcpSeen, udpFlows, abandoned, relays)
    }

    ghost predicate Valid()
      reads this
    {
      Inv(View())
    }

    constructor ()
      ensures Valid() && View() == Empty
    {
      sockets, tcpSeen, udpFlows, abandoned, relays := map[], {}, map[], [], {};
    }

    /** `SocketSet::get::<tcp::Socket>`: its precondition is the absence of a panic. */
    method GetTcp(h: Handle) returns (state: TcpState)
      requires HasTcp(sockets, h)
      ensures sockets[h] == Tcp(state)
    {
      state := sockets[h].state;
    }

    /** `SocketSet::remove`, which panics on a free slot. */
    method Remove(h: Handle)
      requires h in sockets
      modifies `sockets
      ensures sockets == old(sockets) - {h}
    {
      sockets := sockets - {h};
    }

    /** `demux_and_enqueue` under the lock. */
    method DemuxAndEnqueue(flow: Option<Flow>, slot: Handle, bound: bool)
      requires Valid() && slot !in sockets
      modifies this
      ensures Valid() && Some(View()) == Step(old(View()), Inject(flow, slot, bound))
      ensures var before := old(View());
              if flow.Some? && bound && flow.value.proto.ProtoTcp? && flow.value.syn
                && flow.value.key !in before.tcpSeen then
                View() == before.(sockets := before.sockets[slot := Tcp(Listen)],
                                  tcpSeen := before.tcpSeen + {flow.value.key},
                                  relays := before.relays + {TcpRelay(slot, flow.value.key)})
              else if flow.Some? && bound && flow.value.proto.ProtoUdp? && flow.value.key !in before.udpFlows then
                View() == before.(sockets := before.sockets[slot := Udp],
                                  udpFlows := before.udpFlows[flow.value.key := slot],
                                  relays := before.relays + {UdpRelay(slot, flow.value.key)})
              else View() == before
    {
      InjectKeepsInv(View(), flow, slot, bound);
      match flow {
        case None =>
        case Some(Flow(key, proto, syn)) =>
          if proto.ProtoTcp? && syn && key !in tcpSeen {
            if bound {
              sockets := sockets[slot := Tcp(Listen)];
              tcpSeen := tcpSeen + {key};
              relays := relays + {TcpRelay(slot, key)};
            }
          } else if proto.ProtoUdp? && key !in udpFlows {
            if bound {
              sockets := sockets[slot := Udp];
              udpFlows := udpFlows[key := slot];
              relays := relays + {UdpRelay(slot, key)};
            }
          }
      }
    }

    /** `abandoned.retain(..)`: walk the orphans, freeing the closed ones. */
    method Retain()
      requires Distinct(abandoned) && AllTcp(sockets, abandoned)
      modifies `sockets, `abandoned
      ensures Some((sockets, abandoned)) == Reap(old(sockets), old(abandoned))
    {
      ReapMeaning(sockets, abandoned);
      ghost var all := Reap(sockets, abandoned);
      var kept := [];
      var i := 0;
      assert abandoned[0..] == abandoned;
      KeepNothing(all);
      while i < |abandoned|
        invariant 0 <= i <= |abandoned| && abandoned == old(abandoned)
        invariant all.Some? && Keep(kept, Reap(sockets, abandoned[i..])) == all
      {
        var h := abandoned[i];
        assert abandoned[i..][0] == h && abandoned[i..][1..] == abandoned[i + 1..];
        var state := GetTcp(h);
        if state == Closed {
          Remove(h);
        } else {
          KeepOneMore(kept, h, Reap(sockets, abandoned[i + 1..]));
          kept := kept + [h];
        }
        i := i + 1;
      }
      assert abandoned[i..] == [] && kept + [] == kept;
      abandoned := kept;
    }

    /** The locked part of `run_driver`: poll, then free every closed orphan. */
    method RunDriver(polled: map<Handle, TcpState>)
      requires Valid()
      modifies this
      ensures Valid() && Some(View()) == Step(old(View()), Drive(polled))
      ensures forall h :: h in sockets <==> h in old(sockets) && !ClosedOrphan(old(View()), polled, h)
      ensures forall h :: h in abandoned <==> h in old(abandoned) && h in sockets
      ensures tcpSeen == old(tcpSeen) && udpFlows == old(udpFlows) && relays == old(relays)
    {
      DriveKeepsInv(View(), polled);
      DriveMeaning(View(), polled);
      sockets := Poll(sockets, polled);
      Retain();
    }

    /** Any relay access to its TCP socket: waiting, reading, writing, shutting down. */
    method TouchTcp(h: Handle, ghost key: Key, after: TcpState)
      requires Valid() && TcpRelay(h, key) in relays
      modifies this
      ensures Valid() && Some(View()) == Step(old(View()), UseTcp(h, after))
      ensures View() == old(View()).(sockets := old(sockets)[h := Tcp(after)])
    {
      StepKeepsInv(View(), UseTcp(h, after));
      var _ := GetTcp(h);
      sockets := sockets[h := Tcp(after)];
    }

    /** The last lock section of `relay_tcp`. */
    method FinishTcp(h: Handle, key: Key, connected: bool, after: TcpState)
      requires Valid() && TcpRelay(h, key) in relays
      modifies this
      ensures Valid() && Some(View()) == Step(old(View()), EndTcp(h, key, connected, after))
      ensures tcpSeen == old(tcpSeen) - {key} && udpFlows == old(udpFlows)
      ensures relays == old(relays) - {TcpRelay(h, key)}
      ensures old(sockets)[h] == Tcp(Closed) ==> sockets == old(sockets) - {h} && abandoned == old(abandoned)
      ensures old(sockets)[h] != Tcp(Closed) ==>
                && abandoned == old(abandoned) + [h]
                && sockets == old(sockets)[h := Tcp(if connected then after else Closed)]
    {
      EndKeepsInv(View(), EndTcp(h, key, connected, after));
      tcpSeen := tcpSeen - {key};
      var state := GetTcp(h);
      if state != Closed {
        if connected {
          sockets := sockets[h := Tcp(after)];
        } else {
          sockets := sockets[h := Tcp(Closed)];
        }
        abandoned := abandoned + [h];
      } else {
        Remove(h);
      }
      relays := relays - {TcpRelay(h, key)};
    }

    /** The last lock section of `relay_udp`. */
    method FinishUdp(h: Handle, key: Key)
      requires Valid() && UdpRelay(h, key) in relays
      modifies this
      ensures Valid() && Some(View()) == Step(old(View()), EndUdp(h, key))
      ensures sockets == old(sockets) - {h} && udpFlows == old(udpFlows) - {key}
      ensures tcpSeen == old(tcpSeen) && abandoned == old(abandoned) && relays == old(relays) - {UdpRelay(h, key)}
    {
      EndKeepsInv(View(), EndUdp(h, key));
      udpFlows := udpFlows - {key};
      Remove(h);
      relays := relays - {UdpRelay(h, key)};
    }
  }
}
