/** A static network of these routers as a state machine: any router advertises at any time, and any
    datagram ever sent may be delivered late, out of order, more than once or never. */
module Network {
  import opened Wrappers
  import opened Words
  import opened Bits
  import opened Checksum
  import opened NetBytes
  import opened RipCodec
  import opened Lookup
  import opened RipTable
  import opened Advertise
  import opened RouterMain

  /** Routers, their interface addresses, and the link each interface is plugged into. */
  datatype Net = Net(routers: set<nat>, addrs: nat -> Addresses, link: (nat, nat) -> nat)

  predicate NetOk(net: Net) {
    forall r, i | r in net.routers && 0 <= i < N_IFACE :: net.addrs(r)[i] != 0
  }

  predicate SameLink(net: Net, r: nat, i: nat, s: nat, j: nat) {
    net.link(r, i) == net.link(s, j)
  }

  predicate Adjacent(net: Net, r: nat, s: nat) {
    r in net.routers && s in net.routers && r != s
    && exists i, j :: 0 <= i < N_IFACE && 0 <= j < N_IFACE && SameLink(net, r, i, s, j)
  }

  /** The prefix is one of the router's own networks. */
  predicate Attached(net: Net, r: nat, k: RouterKey) {
    exists i :: 0 <= i < N_IFACE && k == KeyOf(DirectRoute(net.addrs(r), i))
  }

  /** A walk over neighbouring routers that ends at one attached to the prefix. */
  predicate IsWalk(net: Net, p: seq<nat>, k: RouterKey) {
    && p != [] && (forall j | 0 <= j < |p| :: p[j] in net.routers)
    && (forall j | 0 <= j < |p| - 1 :: Adjacent(net, p[j], p[j + 1]))
    && Attached(net, p[|p| - 1], k)
  }

  /** A walk of m routers from r to the prefix: the distance the metric m claims. */
  ghost predicate HasWalk(net: Net, r: nat, k: RouterKey, m: nat) {
    exists p: seq<nat> :: |p| == m && IsWalk(net, p, k) && p[0] == r
  }

  // ----- states and steps -----

  datatype Flight = Flight(sender: nat, ifIndex: nat, bytes: seq<Byte>)
  datatype NetState = NetState(tables: map<nat, Table>, flying: set<Flight>)

  datatype Event =
    | Announce(router: nat, interface: Option<nat>)
    | Ask(router: nat)
    | Deliver(flight: Flight, router: nat, frame: Frame, arp: Arp)

  function Flights(r: nat, sent: seq<Sent>): set<Flight> {
    set x | x in sent :: Flight(r, x.ifIndex, x.bytes)
  }

  function Init(net: Net): NetState {
    NetState(map r | r in net.routers :: InitialTable(net.addrs(r)), {})
  }

  /** A datagram reaches the other routers on the link it was sent on, in a buffer with any leftovers. */
  predicate Enabled(net: Net, s: NetState, e: Event) {
    && e.router in net.routers && e.router in s.tables && TableOk(s.tables[e.router])
    && (e.Deliver? ==>
          && e.flight in s.flying && e.flight.sender != e.router
          && Holds(e.frame, e.flight.bytes) && FrameOk(e.frame, net.addrs(e.router))
          && SameLink(net, e.flight.sender, e.flight.ifIndex, e.router, e.frame.ifIndex))
  }

  function Step(net: Net, s: NetState, e: Event): NetState
    requires Enabled(net, s, e)
  {
    var r, t, addrs := e.router, s.tables[e.router], net.addrs(e.router);
    match e
    case Announce(_, interface) => s.(flying := s.flying + Flights(r, Advertisement(t, addrs, interface, N_IFACE)))
    case Ask(_) => s.(flying := s.flying + Flights(r, Requests(addrs, N_IFACE)))
    case Deliver(_, _, frame, arp) =>
      NetState(s.tables[r := Received(t, frame, addrs)], s.flying + Flights(r, Replies(t, frame, addrs, arp)))
  }

  /** Some run of n events from the start ends in s. */
  ghost predicate Reachable(net: Net, n: nat, s: NetState) {
    if n == 0 then s == Init(net)
    else exists prev, e :: Reachable(net, n - 1, prev) && Enabled(net, prev, e) && s == Step(net, prev, e)
  }

  // ----- the invariant -----

  /** The next hop is no one (a direct route) or an interface of a neighbour. */
  predicate NexthopOk(net: Net, r: nat, nexthop: Word) {
    nexthop == 0 || exists s, j :: s in net.routers && Adjacent(net, r, s) && 0 <= j < N_IFACE && nexthop == net.addrs(s)[j]
  }

  ghost predicate RouteTrue(net: Net, r: nat, k: RouterKey, route: Route) {
    HasWalk(net, r, k, route.metric) && NexthopOk(net, r, route.nexthop) && Canonical(k.addr, k.len)
  }

  ghost predicate TableTrue(net: Net, r: nat, t: Table) {
    TableOk(t) && DirectKept(t, net.addrs(r)) && forall k | k in t :: RouteTrue(net, r, k, t[k])
  }

  /** A network of the advertiser's own is advertised with metric 1, on its own interface with 16. */
  predicate OwnAdvertised(addrs: Addresses, i: nat, e: RipEntry) {
    forall d | 0 <= d < N_IFACE && OwnNetwork(addrs, d) && EntryKey(e) == KeyOf(DirectRoute(addrs, d)) ::
      Swap(e.metric) == if d == i then INFINITY else 1
  }

  /** An advertised metric below 16 is the length of a walk from the advertiser. */
  ghost predicate EntryTrue(net: Net, r: nat, i: nat, e: RipEntry) {
    && WellFormedEntry(e) && Canonical(EntryKey(e).addr, EntryKey(e).len) && OwnAdvertised(net.addrs(r), i, e)
    && (Swap(e.metric) < INFINITY ==> HasWalk(net, r, EntryKey(e), Swap(e.metric)))
  }

  ghost predicate Conveys(net: Net, f: Flight, rip: RipPacket) {
    && f.sender in net.routers && f.ifIndex < N_IFACE && |rip.entries| <= RIP_MAX_ENTRY && WellFormed(rip)
    && f.bytes == Packet(net.addrs(f.sender)[f.ifIndex], rip)
    && (rip.command == 2 ==> forall e | e in rip.entries :: EntryTrue(net, f.sender, f.ifIndex, e))
  }

  ghost predicate FlightTrue(net: Net, f: Flight) {
    exists rip :: Conveys(net, f, rip)
  }

  ghost predicate Inv(net: Net, s: NetState) {
    && s.tables.Keys == net.routers
    && (forall r | r in net.routers :: TableTrue(net, r, s.tables[r]))
    && forall f | f in s.flying :: FlightTrue(net, f)
  }

  // ----- walks -----

  lemma WalkFromAttached(net: Net, r: nat, k: RouterKey)
    requires r in net.routers && Attached(net, r, k)
    ensures HasWalk(net, r, k, 1)
  {
    hide Attached;
    var p := [r];
    assert |p| == 1 && IsWalk(net, p, k) && p[0] == r;
  }

  lemma WalkFromNeighbour(net: Net, r: nat, s: nat, k: RouterKey, m: nat)
    requires Adjacent(net, r, s) && HasWalk(net, s, k, m)
    ensures HasWalk(net, r, k, m + 1)
  {
    var p: seq<nat> :| |p| == m && IsWalk(net, p, k) && p[0] == s;
    WalkPrepend(net, r, p, k);
    assert |[r] + p| == m + 1 && ([r] + p)[0] == r;
  }

  lemma WalkPrepend(net: Net, r: nat, p: seq<nat>, k: RouterKey)
    requires IsWalk(net, p, k) && Adjacent(net, r, p[0])
    ensures IsWalk(net, [r] + p, k)
  {
    hide Adjacent, Attached;
    var q := [r] + p;
    RouterOfAdjacent(net, r, p[0]);
    forall j | 0 <= j < |q| - 1 ensures Adjacent(net, q[j], q[j + 1]) {
      if j > 0 { assert Adjacent(net, p[j - 1], p[j]); }
    }
    assert q[|q| - 1] == p[|p| - 1];
  }

  lemma RouterOfAdjacent(net: Net, r: nat, s: nat)
    requires Adjacent(net, r, s)
    ensures r in net.routers && s in net.routers
  {
  }

  // ----- receiving keeps tables true -----

  lemma EntryKeepsTrue(net: Net, r: nat, s: nat, j: nat, t: Table, e: RipEntry, ifIndex: nat)
    requires TableTrue(net, r, t) && EntryTrue(net, s, j, e) && Adjacent(net, r, s) && j < N_IFACE && ifIndex < N_IFACE
    requires net.addrs(s)[j] != 0
    ensures TableTrue(net, r, HandleEntry(t, e, net.addrs(s)[j], ifIndex))
  {
    hide WellFormedEntry, HasWalk, Adjacent, Swap, TableOk, DirectKept, EntryKey, Canonical, EntryMetric, OwnAdvertised;
    var src, k := net.addrs(s)[j], EntryKey(e);
    EntryKeepsTable(t, e, src, ifIndex);
    EntryKeepsDirect(t, e, src, ifIndex, net.addrs(r));
    MetricRange(e);
    if EntryMetric(e) != INFINITY { WalkFromNeighbour(net, r, s, k, Swap(e.metric)); }
    RouterOfAdjacent(net, r, s);
    assert NexthopOk(net, r, src);
  }

  lemma {:induction false} EntriesKeepTrue(net: Net, r: nat, s: nat, j: nat, t: Table, es: seq<RipEntry>, ifIndex: nat)
    requires TableTrue(net, r, t) && Adjacent(net, r, s) && j < N_IFACE && ifIndex < N_IFACE && net.addrs(s)[j] != 0
    requires forall e | e in es :: EntryTrue(net, s, j, e)
    ensures TableTrue(net, r, HandleEntries(t, es, net.addrs(s)[j], ifIndex))
    decreases |es|
  {
    hide TableTrue, EntryTrue, Adjacent, HandleEntry;
    if es != [] {
      var n := |es| - 1;
      EntriesKeepTrue(net, r, s, j, t, es[..n], ifIndex);
      EntryKeepsTrue(net, r, s, j, HandleEntries(t, es[..n], net.addrs(s)[j], ifIndex), es[n], ifIndex);
    }
  }

  /** The receiver reads what was sent, whatever else its buffer holds. */
  lemma FlightIsRead(net: Net, f: Flight, rip: RipPacket, frame: Frame, addrs: Addresses)
    requires Conveys(net, f, rip) && Holds(frame, f.bytes)
    ensures FrameOk(frame, addrs) && Message(frame, addrs) == Some(rip)
    ensures Source(frame.bytes) == net.addrs(f.sender)[f.ifIndex]
  {
    hide FrameOk, Message, WellFormed, Packet, Source, EntryTrue;
    PacketIsRead(frame, net.addrs(f.sender)[f.ifIndex], rip, addrs);
  }

  lemma DeliveryKeepsTable(net: Net, s: NetState, e: Event, rip: RipPacket)
    requires NetOk(net) && Inv(net, s) && Enabled(net, s, e) && e.Deliver? && Conveys(net, e.flight, rip)
    ensures TableTrue(net, e.router, Received(s.tables[e.router], e.frame, net.addrs(e.router)))
  {
    hide TableTrue, EntryTrue, FrameOk, Message, Holds, TableOk, Source, HandleEntries, FlightTrue;
    var t, f := s.tables[e.router], e.flight;
    FlightIsRead(net, f, rip, e.frame, net.addrs(e.router));
    FrameInterface(e.frame, net.addrs(e.router));
    assert Adjacent(net, e.router, f.sender) by { assert SameLink(net, e.router, e.frame.ifIndex, f.sender, f.ifIndex); }
    if rip.command != 1 {
      EntriesKeepTrue(net, e.router, f.sender, f.ifIndex, t, rip.entries, e.frame.ifIndex);
    }
  }

  lemma FrameInterface(f: Frame, addrs: Addresses)
    requires FrameOk(f, addrs)
    ensures f.ifIndex < N_IFACE
  {
  }

  // ----- everything sent is true -----

  lemma {:induction false} BatchMember(es: seq<RipEntry>, b: seq<RipEntry>, e: RipEntry)
    requires b in Batches(es) && e in b
    ensures e in es
    decreases |es|
  {
    if |es| > RIP_MAX_ENTRY && b != es[..RIP_MAX_ENTRY] { BatchMember(es[RIP_MAX_ENTRY..], b, e); }
  }

  /** A true table is advertised truthfully. */
  lemma AdvertIsTrue(net: Net, r: nat, t: Table, i: nat, e: RipEntry)
    requires TableTrue(net, r, t) && e in Advert(t, i) && i < N_IFACE
    ensures EntryTrue(net, r, i, e)
  {
    hide HasWalk, WellFormedEntry, Swap, Canonical, EntryKey, Advert, OwnAdvertised, DirectKept;
    AdvertIsTable(t, i);
    var j :| 0 <= j < |Advert(t, i)| && Advert(t, i)[j] == e;
    var k := Order(t.Keys)[j];
    assert k in t && RouteTrue(net, r, k, t[k]);
    OwnIsAdvertised(t, net.addrs(r), i, k, e);
  }

  lemma OwnIsAdvertised(t: Table, addrs: Addresses, i: nat, k: RouterKey, e: RipEntry)
    requires DirectKept(t, addrs) && k in t && EntryKey(e) == k
    requires Swap(e.metric) == if t[k].ifIndex == i then INFINITY else t[k].metric
    ensures OwnAdvertised(addrs, i, e)
  {
    hide BitsOf, DirectRoutes, OwnNetwork, EntryKey, Swap;
    forall d | 0 <= d < N_IFACE && OwnNetwork(addrs, d) && k == KeyOf(DirectRoute(addrs, d)) ensures t[k] == DirectRoute(addrs, d) {
      DirectStored(addrs, d, N_IFACE);
    }
  }

  lemma ResponseIsTrue(net: Net, r: nat, t: Table, i: nat, x: Sent)
    requires r in net.routers && TableTrue(net, r, t) && i < N_IFACE && x in Responses(t, net.addrs(r), i)
    ensures FlightTrue(net, Flight(r, x.ifIndex, x.bytes))
  {
    hide EntryTrue, Advert, Batches, WellFormedEntry, TableOk, DirectKept, RouteTrue, Packet;
    var es := Advert(t, i);
    var j :| 0 <= j < |Batches(es)| && x == Response(net.addrs(r)[i], i, Batches(es)[j]);
    var b := Batches(es)[j];
    forall e | e in b ensures EntryTrue(net, r, i, e) && WellFormedEntry(e) {
      BatchMember(es, b, e);
      AdvertIsTrue(net, r, t, i, e);
      TrueIsWellFormed(net, r, i, e);
    }
    assert Conveys(net, Flight(r, x.ifIndex, x.bytes), RipPacket(2, b));
  }

  lemma TrueIsWellFormed(net: Net, r: nat, i: nat, e: RipEntry)
    requires EntryTrue(net, r, i, e)
    ensures WellFormedEntry(e)
  {
  }

  lemma {:induction false} AdvertisementIsTrue(net: Net, r: nat, t: Table, interface: Option<nat>, n: nat)
    requires r in net.routers && TableTrue(net, r, t) && n <= N_IFACE
    ensures forall f | f in Flights(r, Advertisement(t, net.addrs(r), interface, n)) :: FlightTrue(net, f)
    decreases n
  {
    hide TableOk, DirectKept, RouteTrue, FlightTrue, Responses;
    if n > 0 {
      AdvertisementIsTrue(net, r, t, interface, n - 1);
      forall x | x in Responses(t, net.addrs(r), n - 1) ensures FlightTrue(net, Flight(r, x.ifIndex, x.bytes)) {
        ResponseIsTrue(net, r, t, n - 1, x);
      }
      var before := Advertisement(t, net.addrs(r), interface, n - 1);
      forall x | x in before ensures FlightTrue(net, Flight(r, x.ifIndex, x.bytes)) {
        assert Flight(r, x.ifIndex, x.bytes) in Flights(r, before);
      }
    }
  }

  lemma {:induction false} RequestsAreTrue(net: Net, r: nat, n: nat)
    requires r in net.routers && n <= N_IFACE
    ensures forall f | f in Flights(r, Requests(net.addrs(r), n)) :: FlightTrue(net, f)
    decreases n
  {
    hide WellFormed, Packet, WholeTableRequest, EntryTrue;
    if n > 0 {
      RequestsAreTrue(net, r, n - 1);
      RequestWellFormed();
      var f := Flight(r, n - 1, Packet(net.addrs(r)[n - 1], WholeTableRequest()));
      assert Conveys(net, f, WholeTableRequest());
      forall g | g in Flights(r, Requests(net.addrs(r), n)) ensures FlightTrue(net, g) {
        if g != f { assert g in Flights(r, Requests(net.addrs(r), n - 1)); }
      }
    }
  }

  lemma RepliesAreTrue(net: Net, s: NetState, e: Event, rip: RipPacket)
    requires Inv(net, s) && Enabled(net, s, e) && e.Deliver? && Conveys(net, e.flight, rip)
    ensures forall f | f in Flights(e.router, Replies(s.tables[e.router], e.frame, net.addrs(e.router), e.arp)) :: FlightTrue(net, f)
  {
    hide TableOk, FlightTrue, TableTrue, Conveys, Holds, FrameOk, Advertisement, Validate, DstIsMe, Parse, Swap, Query, SentOn;
    FlightIsRead(net, e.flight, rip, e.frame, net.addrs(e.router));
    AdvertisementIsTrue(net, e.router, s.tables[e.router], Some(e.frame.ifIndex), N_IFACE);
  }

  // ----- runs -----

  lemma InitInv(net: Net)
    requires NetOk(net)
    ensures Inv(net, Init(net))
  {
    hide HasWalk, NexthopOk, Canonical, TableOk, DirectKept, InitialTable, Attached;
    forall r | r in net.routers ensures TableTrue(net, r, InitialTable(net.addrs(r))) {
      InitialIsTrue(net, r);
    }
  }

  lemma InitialIsTrue(net: Net, r: nat)
    requires r in net.routers
    ensures TableTrue(net, r, InitialTable(net.addrs(r)))
  {
    hide HasWalk, Canonical, TableOk, DirectKept, DirectRoutes;
    var t := InitialTable(net.addrs(r));
    InitialOk(net.addrs(r));
    DirectRoutesAre(net.addrs(r), N_IFACE);
    forall k | k in t ensures RouteTrue(net, r, k, t[k]) {
      WalkFromAttached(net, r, k);
    }
  }

  lemma StepInv(net: Net, s: NetState, e: Event)
    requires NetOk(net) && Inv(net, s) && Enabled(net, s, e)
    ensures Inv(net, Step(net, s, e))
  {
    hide NetOk, TableTrue, FlightTrue, Received, Replies, Flights, Advertisement, Requests, FrameOk, Holds, TableOk, SameLink;
    match e
    case Announce(r, interface) => AdvertisementIsTrue(net, r, s.tables[r], interface, N_IFACE);
    case Ask(r) => RequestsAreTrue(net, r, N_IFACE);
    case Deliver(f, r, frame, arp) =>
      var rip := Conveyed(net, f);
      DeliveryKeepsTable(net, s, e, rip);
      RepliesAreTrue(net, s, e, rip);
  }

  lemma Conveyed(net: Net, f: Flight) returns (rip: RipPacket)
    requires FlightTrue(net, f)
    ensures Conveys(net, f, rip)
  {
    hide Conveys;
    rip :| Conveys(net, f, rip);
  }

  /** The invariant holds in every reachable state. */
  lemma {:induction false} ReachableInv(net: Net, n: nat, s: NetState)
    requires NetOk(net) && Reachable(net, n, s)
    ensures Inv(net, s)
    decreases n
  {
    hide Inv, Enabled, NetOk, Init, Step;
    if n == 0 {
      InitInv(net);
    } else {
      var prev, e :| Reachable(net, n - 1, prev) && Enabled(net, prev, e) && s == Step(net, prev, e);
      ReachableInv(net, n - 1, prev);
      StepInv(net, prev, e);
    }
  }

  /** In every reachable state of the network, every stored metric is the length of an actual walk to a
      router attached to the prefix, so none is below the distance and no prefix is invented; it is at
      most 15; the next hop is a neighbour; and the direct routes are as set up. */
  lemma MetricsHaveWitnesses(net: Net, n: nat, s: NetState, r: nat, k: RouterKey)
    requires NetOk(net) && Reachable(net, n, s) && r in net.routers
    ensures r in s.tables && TableOk(s.tables[r]) && DirectKept(s.tables[r], net.addrs(r))
    ensures k in s.tables[r] ==>
              var route := s.tables[r][k];
              && 1 <= route.metric <= 15 && HasWalk(net, r, k, route.metric)
              && NexthopOk(net, r, route.nexthop) && (route.nexthop == 0 ==> Attached(net, r, k) && route.metric == 1)
  {
    hide Enabled, Init, HasWalk, NexthopOk, Canonical, FlightTrue, Reachable, NetOk;
    ReachableInv(net, n, s);
    assert TableTrue(net, r, s.tables[r]);
    if k in s.tables[r] && s.tables[r][k].nexthop == 0 { DirectIsAttached(net, r, k); }
  }

  lemma DirectIsAttached(net: Net, r: nat, k: RouterKey)
    requires k in InitialTable(net.addrs(r))
    ensures Attached(net, r, k) && InitialTable(net.addrs(r))[k].metric == 1
  {
    hide DirectRoutes;
    DirectRoutesAre(net.addrs(r), N_IFACE);
  }

  /** Every datagram in flight, once it arrives anywhere, parses, and its finite metrics have walks from
      its sender; so the parser's room for 25 entries always suffices. */
  lemma FlightsHaveWitnesses(net: Net, n: nat, s: NetState, f: Flight, frame: Frame, addrs: Addresses)
    requires NetOk(net) && Reachable(net, n, s) && f in s.flying && Holds(frame, f.bytes)
    ensures FrameOk(frame, addrs) && Message(frame, addrs).Some?
    ensures var rip := Message(frame, addrs).value;
            rip.command == 2 ==>
              forall e | e in rip.entries && Swap(e.metric) < INFINITY :: HasWalk(net, f.sender, EntryKey(e), Swap(e.metric))
  {
    hide Enabled, Init, HasWalk, FrameOk, Message, Reachable, NetOk, Holds, TableTrue, Swap, EntryKey, WellFormed, Packet;
    ReachableInv(net, n, s);
    var rip := Conveyed(net, f);
    FlightIsRead(net, f, rip, frame, addrs);
  }

  /** So every datagram that is ever sent can be delivered to every other router on its link. */
  lemma DeliveryIsEnabled(net: Net, n: nat, s: NetState, e: Event)
    requires NetOk(net) && Reachable(net, n, s) && e.Deliver? && e.router in net.routers
    requires e.flight in s.flying && e.flight.sender != e.router && Holds(e.frame, e.flight.bytes)
    requires SameLink(net, e.flight.sender, e.flight.ifIndex, e.router, e.frame.ifIndex)
    ensures Enabled(net, s, e)
  {
    hide Init, FrameOk, Message, Reachable, NetOk, Holds, HasWalk, Swap, EntryKey, TableOk, DirectKept, FlightTrue, RouteTrue, SameLink;
    FlightsHaveWitnesses(net, n, s, e.flight, e.frame, net.addrs(e.router));
    ReachableInv(net, n, s);
    assert TableTrue(net, e.router, s.tables[e.router]);
  }

  /** In every reachable state a query answers with the longest of all routes that cover the address. */
  lemma QueriesAreRight(net: Net, n: nat, s: NetState, r: nat, rs: seq<Route>, addr: Word)
    requires NetOk(net) && Reachable(net, n, s) && r in net.routers
    requires r in s.tables && Lists(rs, s.tables[r])
    ensures Query(s.tables[r], addr) == Scan(rs, addr)
  {
    hide Enabled, Init, HasWalk, NexthopOk, Canonical, FlightTrue, Reachable, NetOk, Query, Scan, DirectKept, RouteOk;
    ReachableInv(net, n, s);
    assert TableTrue(net, r, s.tables[r]);
    CanonicalScan(s.tables[r], rs, addr);
  }

  // ----- settled routes -----

  /** No two interfaces share an address. */
  predicate UniqueAddresses(net: Net) {
    forall q, r, i, j | q in net.routers && r in net.routers && 0 <= i < N_IFACE && 0 <= j < N_IFACE
                        && net.addrs(q)[i] == net.addrs(r)[j] :: q == r && i == j
  }

  /** Router a is on no link with interface d of q. */
  predicate OffLink(net: Net, q: nat, d: nat, a: nat) {
    forall i | 0 <= i < N_IFACE :: !SameLink(net, q, d, a, i)
  }

  /** The route names q's interface j as next hop, at metric 2, for a network of q's own that a is not on. */
  predicate Settled(net: Net, a: nat, route: Route, q: nat, d: nat, j: nat) {
    && q in net.routers && d < N_IFACE && j < N_IFACE && OwnNetwork(net.addrs(q), d) && OffLink(net, q, d, a)
    && KeyOf(route) == KeyOf(DirectRoute(net.addrs(q), d))
    && route.metric == 2 && route.nexthop == net.addrs(q)[j]
  }

  lemma EntryKeepsSettled(net: Net, a: nat, t: Table, route: Route, q: nat, d: nat, j: nat, r: nat, i: nat, e: RipEntry, ifIndex: nat)
    requires UniqueAddresses(net) && Settled(net, a, route, q, d, j) && KeyOf(route) in t && t[KeyOf(route)] == route
    requires r in net.routers && i < N_IFACE && EntryTrue(net, r, i, e) && (r == q ==> i != d)
    ensures var t' := HandleEntry(t, e, net.addrs(r)[i], ifIndex); KeyOf(route) in t' && t'[KeyOf(route)] == route
  {
    hide WellFormedEntry, HasWalk, Swap, EntryKey, Canonical, EntryMetric, DirectRoute, OwnNetwork, OffLink;
    MetricRange(e);
  }

  lemma {:induction false} EntriesKeepSettled(net: Net, a: nat, t: Table, route: Route, q: nat, d: nat, j: nat, r: nat, i: nat,
                                              es: seq<RipEntry>, ifIndex: nat)
    requires UniqueAddresses(net) && Settled(net, a, route, q, d, j) && KeyOf(route) in t && t[KeyOf(route)] == route
    requires r in net.routers && i < N_IFACE && (r == q ==> i != d) && forall e | e in es :: EntryTrue(net, r, i, e)
    ensures var t' := HandleEntries(t, es, net.addrs(r)[i], ifIndex); KeyOf(route) in t' && t'[KeyOf(route)] == route
    decreases |es|
  {
    hide EntryTrue, HandleEntry, Settled, UniqueAddresses, KeyOf;
    if es != [] {
      var n := |es| - 1;
      EntriesKeepSettled(net, a, t, route, q, d, j, r, i, es[..n], ifIndex);
      EntryKeepsSettled(net, a, HandleEntries(t, es[..n], net.addrs(r)[i], ifIndex), route, q, d, j, r, i, es[n], ifIndex);
    }
  }

  /** A settled route survives every event. */
  lemma StepKeepsSettled(net: Net, s: NetState, e: Event, a: nat, route: Route, q: nat, d: nat, j: nat)
    requires Inv(net, s) && Enabled(net, s, e) && UniqueAddresses(net) && a in net.routers
    requires Settled(net, a, route, q, d, j) && KeyOf(route) in s.tables[a] && s.tables[a][KeyOf(route)] == route
    ensures var s' := Step(net, s, e); a in s'.tables && KeyOf(route) in s'.tables[a] && s'.tables[a][KeyOf(route)] == route
  {
    hide TableTrue, Replies, Flights, Advertisement, Requests, FrameOk, Holds, TableOk, UniqueAddresses, Settled, KeyOf, Message, Conveys, FlightTrue, HandleEntries, Source, SameLink;
    if e.Deliver? && e.router == a {
      var rip := Conveyed(net, e.flight);
      FlightIsRead(net, e.flight, rip, e.frame, net.addrs(a));
      FrameInterface(e.frame, net.addrs(a));
      if rip.command != 1 {
        NotOnOwnLink(net, a, route, q, d, j, e);
        ConveyedEntries(net, e.flight, rip);
        EntriesKeepSettled(net, a, s.tables[a], route, q, d, j, e.flight.sender, e.flight.ifIndex, rip.entries, e.frame.ifIndex);
      }
    }
  }

  lemma NotOnOwnLink(net: Net, a: nat, route: Route, q: nat, d: nat, j: nat, e: Event)
    requires Settled(net, a, route, q, d, j) && e.Deliver? && e.frame.ifIndex < N_IFACE
    requires SameLink(net, e.flight.sender, e.flight.ifIndex, a, e.frame.ifIndex)
    ensures e.flight.sender == q ==> e.flight.ifIndex != d
  {
    hide SameLink, OwnNetwork, DirectRoute;
  }

  lemma ConveyedEntries(net: Net, f: Flight, rip: RipPacket)
    requires Conveys(net, f, rip) && rip.command != 1
    ensures f.sender in net.routers && f.ifIndex < N_IFACE && forall e | e in rip.entries :: EntryTrue(net, f.sender, f.ifIndex, e)
  {
    hide EntryTrue, WellFormedEntry, Packet;
  }

  /** n further events lead from s to s'. */
  ghost predicate Later(net: Net, n: nat, s: NetState, s': NetState) {
    if n == 0 then s' == s
    else exists prev, e :: Later(net, n - 1, s, prev) && Enabled(net, prev, e) && s' == Step(net, prev, e)
  }

  /** Whatever the network does from a reachable state on, a settled route stays as it is, its interface
      included. */
  lemma {:induction false} SettledForever(net: Net, m: nat, s: NetState, n: nat, s': NetState, a: nat, route: Route, q: nat, d: nat, j: nat)
    requires NetOk(net) && UniqueAddresses(net) && Reachable(net, m, s) && Later(net, n, s, s') && a in net.routers
    requires Settled(net, a, route, q, d, j)
    requires a in s.tables && KeyOf(route) in s.tables[a] && s.tables[a][KeyOf(route)] == route
    ensures Reachable(net, m + n, s')
    ensures a in s'.tables && KeyOf(route) in s'.tables[a] && s'.tables[a][KeyOf(route)] == route
    decreases n
  {
    hide Inv, Enabled, NetOk, Init, Step, Settled, UniqueAddresses, KeyOf;
    if n > 0 {
      var prev, e :| Later(net, n - 1, s, prev) && Enabled(net, prev, e) && s' == Step(net, prev, e);
      SettledForever(net, m, s, n - 1, prev, a, route, q, d, j);
      ReachableInv(net, m + n - 1, prev);
      StepKeepsSettled(net, prev, e, a, route, q, d, j);
      assert Reachable(net, m + n, s');
    }
  }
}
