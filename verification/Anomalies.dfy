/** Inputs on which the router does not do what one might expect of it: a route with host bits that answers
    nothing, a direct route that a zero source address erases, and, in a network of three routers, a route
    whose next hop is not on the link of its interface. */
module Anomalies {
  import opened Wrappers
  import opened Words
  import opened Bits
  import opened Checksum
  import opened NetBytes
  import opened RipCodec
  import opened Lookup
  import opened RipTable
  import opened Advertise
  import opened Exchange
  import opened RouterMain
  import opened Network

  // ----- frames -----

  /** A receive buffer that holds the datagram and zeros. */
  function FrameOf(p: seq<Byte>, ifIndex: nat): Frame
    requires |p| <= BUFFER_SIZE
  {
    Frame(p + seq(BUFFER_SIZE - |p|, _ => 0), |p|, ifIndex)
  }

  lemma FrameHolds(p: seq<Byte>, ifIndex: nat)
    requires |p| <= BUFFER_SIZE && ifIndex < N_IFACE
    ensures Holds(FrameOf(p, ifIndex), p)
  {
  }

  /** An entry as another router would send it. */
  function EntryFor(addr: Word, len: nat, metric: Word): RipEntry
    requires len <= 32
  {
    RipEntry(addr, MASK_BE[len], 0, Swap(metric))
  }

  lemma EntryForIs(addr: Word, len: nat, metric: Word)
    requires len <= 32 && 1 <= metric <= 16
    ensures var e := EntryFor(addr, len, metric);
            WellFormedEntry(e) && EntryKey(e) == RouterKey(addr, len)
            && EntryMetric(e) == if metric >= 15 then INFINITY else metric + 1
  {
    hide Swap, Contiguous, Popcount;
    ContiguousIffTable(MASK_BE[len]);
    MaskPopcount(len);
    SwapTwice(metric);
    MetricRange(EntryFor(addr, len, metric));
  }

  /** The frame of a response with one entry, and the table after it. */
  lemma OneEntryRun(addrs: Addresses, src: Word, e: RipEntry, ifIndex: nat) returns (f: Frame)
    requires WellFormedEntry(e) && ifIndex < N_IFACE
    ensures FrameOk(f, addrs) && Source(f.bytes) == src && f.ifIndex == ifIndex && Message(f, addrs) == Some(RipPacket(2, [e]))
    ensures AfterFrames(addrs, [f]) == HandleEntry(InitialTable(addrs), e, src, ifIndex)
  {
    hide WellFormedEntry, HandleEntry, Packet, InitialTable, Message, FrameOk, FrameOf, Source;
    var rip := RipPacket(2, [e]);
    f := FrameOf(Packet(src, rip), ifIndex);
    FrameHolds(Packet(src, rip), ifIndex);
    FrameOfIs(Packet(src, rip), ifIndex);
    PacketIsRead(f, src, rip, addrs);
    assert [f][..0] == [] && [e][..0] == [];
    assert AfterFrames(addrs, []) == InitialTable(addrs);
    assert HandleEntries(InitialTable(addrs), [], src, ifIndex) == InitialTable(addrs);
    assert HandleEntries(InitialTable(addrs), [e], src, ifIndex) == HandleEntry(InitialTable(addrs), e, src, ifIndex);
  }

  lemma FrameOfIs(p: seq<Byte>, ifIndex: nat)
    requires |p| <= BUFFER_SIZE
    ensures FrameOf(p, ifIndex).ifIndex == ifIndex
  {
  }

  // ----- host bits -----

  /** 10.0.0.1, as the original holds it. */
  const HOST: Word := 0x0100_000a

  lemma NoHostByte(addr: Word)
    ensures Canonical(addr, 24) ==> Swap(addr) % 256 == 0
  {
    hide Masked, Pow2, Swap, Prefix;
    MaskedSwap(addr, 24);
    Pow2Eight();
  }

  lemma HostIsNoPrefix()
    ensures !Canonical(HOST, 24)
  {
    hide Canonical;
    NoHostByte(HOST);
    assert Swap(HOST) == 0x0a00_0001;
  }

  /** Whoever sends it, a response for 10.0.0.1/24 is accepted and stored, and the route never answers any
      query, not even for the address it was advertised for. */
  lemma HostBitsStored(addrs: Addresses, src: Word, ifIndex: nat) returns (f: Frame)
    requires ifIndex < N_IFACE
    ensures FrameOk(f, addrs) && Source(f.bytes) == src
    ensures var t, k := AfterFrames(addrs, [f]), RouterKey(HOST, 24);
            k in t && t[k] == Route(HOST, 24, ifIndex, src, 2) && Covers(t[k], HOST)
            && forall addr :: Query(t, addr) != Some(t[k])
  {
    hide WellFormedEntry, EntryKey, EntryMetric, Canonical, FrameOk, Source, Query, InitialTable, AfterFrames, Message, EntryFor, Prefix;
    var e, k := EntryFor(HOST, 24, 1), RouterKey(HOST, 24);
    EntryForIs(HOST, 24, 1);
    EntryForAddr(HOST, 24, 1);
    f := OneEntryRun(addrs, src, e, ifIndex);
    InitialOk(addrs);
    HostIsNoPrefix();
    var t := AfterFrames(addrs, [f]);
    EntryKeepsTable(InitialTable(addrs), e, src, ifIndex);
    forall addr ensures Query(t, addr) != Some(t[k]) {
      if Query(t, addr) == Some(t[k]) { HostBitsAreDead(t, addr, t[k]); }
    }
  }

  lemma EntryForAddr(addr: Word, len: nat, metric: Word)
    requires len <= 32
    ensures EntryFor(addr, len, metric).addr == addr
  {
  }

  // ----- a source of zero -----

  /** A response from address zero erases any direct route. */
  lemma ZeroSourceErases(addrs: Addresses, k: RouterKey, ifIndex: nat) returns (f: Frame)
    requires k in InitialTable(addrs) && ifIndex < N_IFACE
    ensures FrameOk(f, addrs) && Source(f.bytes) == 0
    ensures k !in AfterFrames(addrs, [f])
  {
    hide WellFormedEntry, EntryKey, EntryMetric, FrameOk, Source, InitialTable, AfterFrames, Message, EntryFor;
    InitialRoute(addrs, k);
    InitialOk(addrs);
    EntryForIs(k.addr, k.len, 16);
    f := OneEntryRun(addrs, 0, EntryFor(k.addr, k.len, 16), ifIndex);
  }

  // ----- a stale interface -----

  /** Three routers A, B and C: link 0 joins A and B, link 1 joins A and C, link 2 joins B and C; every other
      interface has a link to itself.  Link l is the network 10.0.l.0/24. */
  function Wiring(r: nat): (w: seq<nat>)
    ensures |w| == N_IFACE
  {
    if r == 0 then [0, 1, 3, 4] else if r == 1 then [0, 6, 2, 5] else [7, 1, 2, 8]
  }

  function Host(r: nat): Byte {
    if r == 0 then 1 else if r == 1 then 2 else 3
  }

  function HostAddress(r: nat, i: nat): Word
    requires i < N_IFACE
  {
    FromBytes(10, 0, Wiring(r)[i], Host(r))
  }

  function AddressesOf(r: nat): Addresses {
    [HostAddress(r, 0), HostAddress(r, 1), HostAddress(r, 2), HostAddress(r, 3)]
  }

  function LinkOf(r: nat, i: nat): nat {
    if i < N_IFACE then Wiring(r)[i] else 9 + i
  }

  const Triangle: Net := Net({0, 1, 2}, AddressesOf, LinkOf)

  lemma DirectOf(r: nat, i: nat)
    requires i < N_IFACE
    ensures DirectRoute(AddressesOf(r), i) == Route(FromBytes(10, 0, Wiring(r)[i], 0), 24, i, 0, 1)
  {
    hide FromBytes, BitsOf;
    NetworkAddress(10, 0, Wiring(r)[i], Host(r));
  }

  /** The network of link 5, where B alone is attached. */
  const P: RouterKey := RouterKey(0x0005_000a, 24)

  lemma DirectIsP(r: nat, i: nat)
    requires i < N_IFACE
    ensures KeyOf(DirectRoute(AddressesOf(r), i)) == P <==> Wiring(r)[i] == 5
  {
    hide BitsOf, AddressesOf, DirectRoute;
    DirectOf(r, i);
  }

  lemma NotAt(r: nat)
    requires r != 1
    ensures P !in InitialTable(AddressesOf(r))
  {
    hide BitsOf, AddressesOf, DirectRoutes, DirectRoute;
    forall i | 0 <= i < N_IFACE ensures KeyOf(DirectRoute(AddressesOf(r), i)) != P { DirectIsP(r, i); }
    DirectRoutesAre(AddressesOf(r), N_IFACE);
  }

  lemma AtB()
    ensures OwnNetwork(AddressesOf(1), 3) && DirectRoute(AddressesOf(1), 3) == Route(P.addr, 24, 3, 0, 1)
    ensures P in InitialTable(AddressesOf(1)) && InitialTable(AddressesOf(1))[P] == Route(P.addr, 24, 3, 0, 1)
  {
    hide BitsOf, AddressesOf, DirectRoutes, DirectRoute;
    forall i | 0 <= i < N_IFACE ensures DirectRoute(AddressesOf(1), i).addr == P.addr <==> i == 3 {
      DirectOf(1, i);
      DirectIsP(1, i);
    }
    DirectOf(1, 3);
    DirectStored(AddressesOf(1), 3, N_IFACE);
  }

  // ----- hearing a neighbour in a running network -----

  lemma StepReachable(net: Net, n: nat, s: NetState, e: Event)
    requires Reachable(net, n, s) && Enabled(net, s, e)
    ensures Reachable(net, n + 1, Step(net, s, e))
  {
    hide Enabled, Step;
  }

  /** A table of at most 25 routes goes out as one datagram. */
  lemma SmallTable(t: Table, saddrs: Addresses, i: nat)
    requires TableOk(t) && 1 <= |t| <= RIP_MAX_ENTRY && i < N_IFACE
    ensures 1 <= |Advert(t, i)| <= RIP_MAX_ENTRY
    ensures Advertisement(t, saddrs, Some(i), N_IFACE) == [Response(saddrs[i], i, Advert(t, i))]
  {
    hide TableOk, Response, Advert, Order;
    AdvertSize(t, i);
    OneInterface(t, saddrs, i, N_IFACE);
    assert Batches(Advert(t, i)) == [Advert(t, i)];
  }

  lemma AdvertSize(t: Table, i: nat)
    requires TableOk(t)
    ensures |Advert(t, i)| == |t|
  {
    hide TableOk;
  }

  lemma AdvertWellFormed(t: Table, i: nat)
    requires TableOk(t)
    ensures WellFormed(RipPacket(2, Advert(t, i)))
  {
    hide WellFormedEntry, TableOk, Advert, EntryKey, Swap, Order;
    AdvertIsTable(t, i);
  }

  /** r announces its table on interface i and q hears it on interface j of the same link. */
  lemma Hear(net: Net, n: nat, s: NetState, r: nat, i: nat, q: nat, j: nat) returns (s': NetState)
    requires NetOk(net) && Reachable(net, n, s) && r in net.routers && q in net.routers && r != q
    requires i < N_IFACE && j < N_IFACE && SameLink(net, r, i, q, j)
    requires s.tables.Keys == net.routers && 1 <= |s.tables[r]| <= RIP_MAX_ENTRY
    ensures Reachable(net, n + 2, s') && TableOk(s.tables[r])
    ensures s'.tables == s.tables[q := HandleEntries(s.tables[q], Advert(s.tables[r], i), net.addrs(r)[i], j)]
  {
    hide NetOk, TableOk, Reachable, Inv, SameLink, Advert, HandleEntries, Response, Advertisement;
    TablesOk(net, n, s);
    var t, saddr := s.tables[r], net.addrs(r)[i];
    SmallTable(t, net.addrs(r), i);
    var rip := RipPacket(2, Advert(t, i));
    var e := Announce(r, Some(i));
    assert Enabled(net, s, e);
    StepReachable(net, n, s, e);
    var s1 := Step(net, s, e);
    var f := Flight(r, i, Packet(saddr, rip));
    InFlight(s1, s, net, r, i, Advert(t, i));
    var frame := FrameOf(f.bytes, j);
    FrameHolds(f.bytes, j);
    FrameOfIs(f.bytes, j);
    AdvertWellFormed(t, i);
    hide FrameOf, Packet, Holds, FrameOk, Message, Source, WellFormed;
    PacketIsRead(frame, saddr, rip, net.addrs(q));
    var d := Deliver(f, q, frame, (x, y) => true);
    assert Enabled(net, s1, d);
    StepReachable(net, n + 1, s1, d);
    s' := Step(net, s1, d);
  }

  lemma TablesOk(net: Net, n: nat, s: NetState)
    requires NetOk(net) && Reachable(net, n, s)
    ensures s.tables.Keys == net.routers && forall r | r in net.routers :: TableOk(s.tables[r])
  {
    hide NetOk, Reachable, TableOk, DirectKept, RouteTrue, FlightTrue;
    ReachableInv(net, n, s);
    forall r | r in net.routers ensures TableOk(s.tables[r]) { assert TableTrue(net, r, s.tables[r]); }
  }

  lemma InFlight(s1: NetState, s: NetState, net: Net, r: nat, i: nat, es: seq<RipEntry>)
    requires Enabled(net, s, Announce(r, Some(i))) && s1 == Step(net, s, Announce(r, Some(i))) && i < N_IFACE
    requires |es| <= RIP_MAX_ENTRY && Advertisement(s.tables[r], net.addrs(r), Some(i), N_IFACE) == [Response(net.addrs(r)[i], i, es)]
    ensures s1.tables == s.tables && Flight(r, i, Packet(net.addrs(r)[i], RipPacket(2, es))) in s1.flying
  {
    hide Advertisement, Packet, TableOk;
    var sent := Advertisement(s.tables[r], net.addrs(r), Some(i), N_IFACE);
    assert sent[0] in sent;
  }

  // ----- the run -----

  lemma {:induction false} DirectCount(addrs: Addresses, n: nat)
    requires n <= N_IFACE
    ensures |DirectRoutes(addrs, n)| <= n && (n > 0 ==> DirectRoutes(addrs, n) != map[])
    decreases n
  {
    hide DirectRoute;
    if n > 0 {
      DirectCount(addrs, n - 1);
      var t, r := DirectRoutes(addrs, n - 1), DirectRoute(addrs, n - 1);
      assert t[KeyOf(r) := r].Keys == t.Keys + {KeyOf(r)};
    }
  }

  /** A prefix without a route takes the first finite offer, on the interface where it arrives. */
  lemma LearnsNew(t: Table, sender: Table, i: nat, src: Word, arrival: nat, k: RouterKey)
    requires TableOk(sender) && k in sender && i < N_IFACE && k !in t && Offered(sender, k, i) < INFINITY
    ensures var t' := HandleEntries(t, Advert(sender, i), src, arrival);
            k in t' && t'[k] == Route(k.addr, k.len, arrival, src, Offered(sender, k, i))
  {
    hide HandleEntries, Swap, WellFormedEntry, EntryMetric, EntryKey, Offered;
    HeardRoute(t, sender, i, src, arrival, k);
    AdvertOffers(sender, k, i);
  }

  lemma AdvertOffers(t: Table, k: RouterKey, i: nat)
    requires TableOk(t) && k in t
    ensures t[k].len <= 32 && EntryKey(AdvertEntry(t[k], i)) == k && EntryMetric(AdvertEntry(t[k], i)) == Offered(t, k, i)
    ensures AdvertEntry(t[k], i).addr == k.addr
  {
    hide Swap, WellFormedEntry, EntryMetric, EntryKey, Offered, INFINITY;
    assert RouteOk(t[k]);
    AdvertEntryIs(t[k], i);
    OfferedMetric(t, k, i, AdvertEntry(t[k], i));
  }

  /** A nearer offer replaces next hop and metric, and leaves the interface as it was. */
  lemma LearnsNearer(t: Table, sender: Table, i: nat, src: Word, arrival: nat, k: RouterKey)
    requires TableOk(sender) && k in sender && i < N_IFACE && k in t && Offered(sender, k, i) < t[k].metric <= 15
    ensures var t' := HandleEntries(t, Advert(sender, i), src, arrival);
            k in t' && t'[k] == t[k].(nexthop := src, metric := Offered(sender, k, i))
  {
    hide HandleEntries, Swap, WellFormedEntry, EntryMetric, EntryKey, Offered;
    HeardRoute(t, sender, i, src, arrival, k);
    AdvertOffers(sender, k, i);
  }

  lemma TriangleOk()
    ensures NetOk(Triangle)
  {
    hide FromBytes;
    forall r, i | r in Triangle.routers && 0 <= i < N_IFACE ensures Triangle.addrs(r)[i] != 0 {
      NotZero(Wiring(r)[i], Host(r));
    }
  }

  lemma NotZero(l: Byte, h: Byte)
    ensures FromBytes(10, 0, l, h) != 0
  {
  }

  lemma Start() returns (s: NetState)
    ensures NetOk(Triangle) && Reachable(Triangle, 0, s) && s.tables.Keys == Triangle.routers
    ensures forall r | r in Triangle.routers :: s.tables[r] == InitialTable(AddressesOf(r)) && TableOk(s.tables[r]) && 1 <= |s.tables[r]| <= 4
  {
    hide InitialTable, TableOk, NetOk, AddressesOf;
    TriangleOk();
    s := Init(Triangle);
    forall r | r in Triangle.routers ensures TableOk(s.tables[r]) && 1 <= |s.tables[r]| <= 4 {
      InitialOk(AddressesOf(r));
      InitialCount(AddressesOf(r));
    }
  }

  lemma InitialCount(addrs: Addresses)
    ensures 1 <= |InitialTable(addrs)| <= 4
  {
    hide DirectRoutes;
    DirectCount(addrs, N_IFACE);
  }

  lemma Links()
    ensures SameLink(Triangle, 1, 2, 2, 2) && SameLink(Triangle, 2, 1, 0, 1) && SameLink(Triangle, 1, 0, 0, 0)
    ensures Triangle.addrs(1)[2] == HostAddress(1, 2) && Triangle.addrs(2)[1] == HostAddress(2, 1)
    ensures Triangle.addrs(1)[0] == HostAddress(1, 0)
    ensures Triangle.routers == {0, 1, 2}
  {
    hide FromBytes;
  }

  /** B's table reaches C. */
  lemma TwoSteps() returns (s: NetState)
    ensures NetOk(Triangle) && Reachable(Triangle, 2, s) && s.tables.Keys == Triangle.routers
    ensures s.tables[0] == InitialTable(AddressesOf(0)) && s.tables[1] == InitialTable(AddressesOf(1))
    ensures P in s.tables[2] && s.tables[2][P] == Route(P.addr, P.len, 2, HostAddress(1, 2), 2)
    ensures 1 <= |s.tables[1]| <= 4 && 1 <= |s.tables[2]| <= 8 && TableOk(s.tables[1])
  {
    hide Reachable, HandleEntries, Advert, InitialTable, TableOk, NetOk, HostAddress, AddressesOf, SameLink, Triangle, P;
    Links();
    AtB();
    NotAt(2);
    var s0 := Start();
    var b, c := s0.tables[1], s0.tables[2];
    s := Hear(Triangle, 0, s0, 1, 2, 2, 2);
    LearnsNew(c, b, 2, HostAddress(1, 2), 2, P);
    SizeAfter(c, b, 2, HostAddress(1, 2), 2);
  }

  /** C's table reaches A. */
  lemma FourSteps() returns (s: NetState)
    ensures NetOk(Triangle) && Reachable(Triangle, 4, s) && s.tables.Keys == Triangle.routers
    ensures s.tables[1] == InitialTable(AddressesOf(1)) && TableOk(s.tables[1]) && 1 <= |s.tables[1]| <= 4
    ensures P in s.tables[0] && s.tables[0][P] == Route(P.addr, P.len, 1, HostAddress(2, 1), 3)
  {
    hide Reachable, HandleEntries, Advert, InitialTable, TableOk, NetOk, HostAddress, AddressesOf, SameLink, Triangle, P;
    Links();
    NotAt(0);
    var s1 := TwoSteps();
    TablesOk(Triangle, 2, s1);
    s := Hear(Triangle, 2, s1, 2, 1, 0, 1);
    LearnsNew(s1.tables[0], s1.tables[2], 1, HostAddress(2, 1), 1, P);
  }

  /** B's table reaches A directly. */
  lemma SixSteps() returns (s: NetState)
    ensures NetOk(Triangle) && Reachable(Triangle, 6, s) && 0 in s.tables
    ensures P in s.tables[0] && s.tables[0][P] == Route(P.addr, P.len, 1, HostAddress(1, 0), 2)
  {
    hide Reachable, HandleEntries, Advert, InitialTable, TableOk, NetOk, HostAddress, AddressesOf, SameLink, Triangle, P;
    Links();
    AtB();
    var s2 := FourSteps();
    s := Hear(Triangle, 4, s2, 1, 0, 0, 0);
    LearnsNearer(s2.tables[0], s2.tables[1], 0, HostAddress(1, 0), 0, P);
  }

  lemma SizeAfter(t: Table, sender: Table, i: nat, src: Word, arrival: nat)
    requires TableOk(sender) && |t| <= 4 && |sender| <= 4 && i < N_IFACE
    ensures |HandleEntries(t, Advert(sender, i), src, arrival)| <= 8
  {
    hide HandleEntries, Advert, TableOk;
    AdvertSize(sender, i);
    TableGrows(t, Advert(sender, i), src, arrival);
  }

  /** The address belongs to a router's interface on the link that r's interface is plugged into. */
  predicate OnLink(net: Net, r: nat, ifIndex: nat, addr: Word) {
    exists q, j :: q in net.routers && 0 <= j < N_IFACE && SameLink(net, r, ifIndex, q, j) && net.addrs(q)[j] == addr
  }

  /** A reachable state in which A reaches P over the next hop B at metric 2, which is right, but through
      interface 1, whose link B is not on; B is on the link of interface 0. */
  lemma StaleInterface() returns (s: NetState)
    ensures NetOk(Triangle) && Reachable(Triangle, 6, s) && 0 in s.tables && P in s.tables[0]
    ensures var r := s.tables[0][P];
            && r == Route(P.addr, P.len, 1, HostAddress(1, 0), 2) && r.nexthop == Triangle.addrs(1)[0] && r.metric == 2 && r.ifIndex == 1
            && !OnLink(Triangle, 0, r.ifIndex, r.nexthop) && OnLink(Triangle, 0, 0, r.nexthop)
  {
    hide Reachable, FromBytes, NetOk;
    s := SixSteps();
    forall q, j | q in Triangle.routers && 0 <= j < N_IFACE && SameLink(Triangle, 0, 1, q, j)
      ensures Triangle.addrs(q)[j] != HostAddress(1, 0)
    {
      OtherLink(Wiring(q)[j], Host(q));
    }
    assert SameLink(Triangle, 0, 0, 1, 0);
  }

  lemma OtherLink(l: Byte, h: Byte)
    requires l == 1
    ensures FromBytes(10, 0, l, h) != FromBytes(10, 0, 0, 2)
  {
  }

  lemma AddressBytes(l: Byte, h: Byte, l': Byte, h': Byte)
    ensures FromBytes(10, 0, l, h) == FromBytes(10, 0, l', h') ==> l == l' && h == h'
  {
    hide FromBytes;
    WordOfBytes(10, 0, l, h);
    WordOfBytes(10, 0, l', h');
  }

  lemma TriangleUnique()
    ensures UniqueAddresses(Triangle)
  {
    hide FromBytes, Wiring, Host;
    forall q, r, i, j | q in Triangle.routers && r in Triangle.routers && 0 <= i < N_IFACE && 0 <= j < N_IFACE
                        && Triangle.addrs(q)[i] == Triangle.addrs(r)[j]
      ensures q == r && i == j
    {
      AddressAt(q, i);
      AddressAt(r, j);
      SmallWiring(q, i);
      SmallWiring(r, j);
      AddressBytes(Wiring(q)[i], Host(q), Wiring(r)[j], Host(r));
      HostIsRouter(q, r);
      WiringInjective(q, i, j);
    }
  }

  lemma AddressAt(r: nat, i: nat)
    requires i < N_IFACE
    ensures AddressesOf(r)[i] == HostAddress(r, i)
  {
    hide HostAddress;
  }

  lemma SmallWiring(r: nat, i: nat)
    requires i < N_IFACE
    ensures Wiring(r)[i] < 256
  {
  }

  lemma HostIsRouter(q: nat, r: nat)
    requires q <= 2 && r <= 2
    ensures Host(q) == Host(r) <==> q == r
  {
  }

  lemma WiringInjective(r: nat, i: nat, j: nat)
    requires i < N_IFACE && j < N_IFACE
    ensures Wiring(r)[i] == Wiring(r)[j] <==> i == j
  {
  }

  lemma StaleIsSettled()
    ensures Settled(Triangle, 0, Route(P.addr, P.len, 1, HostAddress(1, 0), 2), 1, 3, 0)
  {
    hide FromBytes, OwnNetwork, DirectRoute;
    AtB();
  }

  /** From that state on nothing the network does ever corrects the interface: the route is the nearest there
      is, so no offer replaces it, and A hands packets for P to a link where its next hop is not. */
  lemma StaleForever() returns (s: NetState)
    ensures NetOk(Triangle) && Reachable(Triangle, 6, s)
    ensures forall n, s' | Later(Triangle, n, s, s') ::
              0 in s'.tables && P in s'.tables[0]
              && s'.tables[0][P].ifIndex == 1 && !OnLink(Triangle, 0, s'.tables[0][P].ifIndex, s'.tables[0][P].nexthop)
  {
    hide Reachable, Later, NetOk, OnLink, UniqueAddresses, Settled, P, HostAddress;
    s := StaleInterface();
    var route := s.tables[0][P];
    StaleIsSettled();
    TriangleUnique();
    assert KeyOf(route) == P;
    forall n, s' | Later(Triangle, n, s, s')
      ensures 0 in s'.tables && P in s'.tables[0] && s'.tables[0][P] == route
    {
      SettledForever(Triangle, 6, s, n, s', 0, route, 1, 3, 0);
    }
  }
}
