/** RIP response processing (section 3.9.2 of RFC 2453): one entry, one response, one received frame,
    and what every run of received frames keeps of the routing table. */
module RipTable {
  import opened Wrappers
  import opened Words
  import opened Bits
  import opened Checksum
  import opened NetBytes
  import opened RipCodec
  import opened Lookup

  const N_IFACE: nat := 4
  const BUFFER_SIZE: nat := 2048
  const RIP_MULTICAST_ADDR: Word := 0x0900_00e0
  const INFINITY: Word := 16

  /** One address per interface. */
  type Addresses = s: seq<Word> | |s| == N_IFACE witness [0, 0, 0, 0]

  // ----- direct routes -----

  function DirectRoute(addrs: Addresses, i: nat): Route
    requires i < N_IFACE
  {
    Route(BitsOf(AndBit, addrs[i], 0x00FF_FFFF), 24, i, 0, 1)
  }

  function DirectRoutes(addrs: Addresses, n: nat): Table
    requires n <= N_IFACE
  {
    if n == 0 then map[] else Updated(DirectRoutes(addrs, n - 1), true, DirectRoute(addrs, n - 1))
  }

  function InitialTable(addrs: Addresses): Table {
    DirectRoutes(addrs, N_IFACE)
  }

  // ----- one entry -----

  function EntryKey(e: RipEntry): RouterKey {
    RouterKey(e.addr, Popcount(e.mask))
  }

  /** The advertised metric plus one hop, at most 16; the addition is on 32-bit unsigned numbers. */
  function EntryMetric(e: RipEntry): (m: Word)
    ensures m <= INFINITY
  {
    var m := Wrap(Swap(e.metric) + 1);
    if m < INFINITY then m else INFINITY
  }

  /** An entry from the neighbour src that arrived on an interface. */
  function HandleEntry(t: Table, e: RipEntry, src: Word, ifIndex: nat): Table {
    var key, metric := EntryKey(e), EntryMetric(e);
    if key in t then
      var entry := t[key];
      if (src == entry.nexthop && metric != entry.metric) || metric < entry.metric then
        if metric == INFINITY then t - {key} else t[key := entry.(nexthop := src, metric := metric)]
      else t
    else if metric != INFINITY then t[key := Route(e.addr, key.len, ifIndex, src, metric)]
    else t
  }

  function HandleEntries(t: Table, es: seq<RipEntry>, src: Word, ifIndex: nat): Table {
    if es == [] then t
    else HandleEntry(HandleEntries(t, es[..|es| - 1], src, ifIndex), es[|es| - 1], src, ifIndex)
  }

  // ----- one received frame -----

  /** The receive buffer, the length received and the interface. */
  datatype Frame = Frame(bytes: seq<Byte>, len: nat, ifIndex: nat)

  function Source(b: seq<Byte>): Word
    requires |b| >= 20
  {
    WordAt(b, 12)
  }

  function Destination(b: seq<Byte>): Word
    requires |b| >= 20
  {
    WordAt(b, 16)
  }

  predicate DstIsMe(b: seq<Byte>, addrs: Addresses)
    requires |b| >= 20
  {
    Destination(b) == RIP_MULTICAST_ADDR || Destination(b) in addrs
  }

  /** A whole IP header was received, and a message for this router fits the parser's output. */
  predicate FrameOk(f: Frame, addrs: Addresses) {
    && |f.bytes| == BUFFER_SIZE && 20 <= f.len <= BUFFER_SIZE && f.ifIndex < N_IFACE && HeaderLength(f.bytes) <= f.len
    && (Validate(f.bytes) && DstIsMe(f.bytes, addrs) ==> FitsBuffer(f.bytes, f.len))
  }

  /** The RIP message of a frame for this router, if it is valid and holds one. */
  function Message(f: Frame, addrs: Addresses): Option<RipPacket>
    requires FrameOk(f, addrs)
  {
    if Validate(f.bytes) && DstIsMe(f.bytes, addrs) then Parse(f.bytes, f.len) else None
  }

  /** The table after a frame: only responses change it. */
  function Received(t: Table, f: Frame, addrs: Addresses): Table
    requires FrameOk(f, addrs)
  {
    match Message(f, addrs)
    case Some(rip) => if rip.command == 1 then t else HandleEntries(t, rip.entries, Source(f.bytes), f.ifIndex)
    case None => t
  }

  // ----- the table invariant -----

  predicate RouteOk(r: Route) {
    r.len <= 32 && 1 <= r.metric <= 15 && r.ifIndex < N_IFACE
  }

  predicate TableOk(t: Table) {
    Keyed(t) && forall k | k in t :: RouteOk(t[k])
  }

  /** The initial routes are there unchanged, and no other route has a zero next hop. */
  predicate DirectKept(t: Table, addrs: Addresses) {
    && (forall k | k in InitialTable(addrs) :: k in t && t[k] == InitialTable(addrs)[k])
    && (forall k | k in t && t[k].nexthop == 0 :: k in InitialTable(addrs))
  }

  lemma {:induction false} DirectRoutesAre(addrs: Addresses, n: nat)
    requires n <= N_IFACE
    ensures TableOk(DirectRoutes(addrs, n)) && CanonicalTable(DirectRoutes(addrs, n))
    ensures forall k | k in DirectRoutes(addrs, n) ::
              DirectRoutes(addrs, n)[k].nexthop == 0 && DirectRoutes(addrs, n)[k].metric == 1
              && exists i :: 0 <= i < n && k == KeyOf(DirectRoute(addrs, i))
    ensures forall i | 0 <= i < n :: KeyOf(DirectRoute(addrs, i)) in DirectRoutes(addrs, n)
  {
    hide Canonical, BitsOf;
    if n > 0 {
      DirectRoutesAre(addrs, n - 1);
      DirectIsCanonical(addrs, n - 1);
    }
  }

  lemma DirectIsCanonical(addrs: Addresses, i: nat)
    requires i < N_IFACE
    ensures Canonical(DirectRoute(addrs, i).addr, 24)
  {
    hide BitsOf;
    assert MASK_BE[24] == 0x00FF_FFFF;
    MaskedTwice(addrs[i], 24);
  }

  lemma MaskLength(e: RipEntry)
    requires WellFormedEntry(e)
    ensures EntryKey(e).len <= 32 && MASK_BE[EntryKey(e).len] == e.mask
  {
    hide Contiguous, Popcount;
    ContiguousIffTable(e.mask);
    var len :| 0 <= len <= 32 && e.mask == MASK_BE[len];
    MaskPopcount(len);
  }

  lemma MetricRange(e: RipEntry)
    requires WellFormedEntry(e)
    ensures EntryMetric(e) == (if Swap(e.metric) >= 15 then INFINITY else Swap(e.metric) + 1) >= 2
  {
    hide Swap;
    WrapRange(Swap(e.metric) + 1);
  }

  /** A route at infinity is never stored, and the table stays keyed and within range. */
  lemma EntryKeepsTable(t: Table, e: RipEntry, src: Word, ifIndex: nat)
    requires TableOk(t) && WellFormedEntry(e) && ifIndex < N_IFACE
    ensures TableOk(HandleEntry(t, e, src, ifIndex))
  {
    hide WellFormedEntry, Swap, Popcount;
    MaskLength(e);
    MetricRange(e);
  }

  /** A direct route survives an entry exactly when the entry is not for its prefix from address zero. */
  lemma DirectSurvives(t: Table, k: RouterKey, e: RipEntry, src: Word, ifIndex: nat)
    requires WellFormedEntry(e) && k in t && t[k].nexthop == 0 && t[k].metric == 1
    ensures k in HandleEntry(t, e, src, ifIndex) && HandleEntry(t, e, src, ifIndex)[k] == t[k]
            <==> !(src == 0 && EntryKey(e) == k)
  {
    hide WellFormedEntry, EntryMetric, EntryKey;
    MetricRange(e);
  }

  /** An accepted entry leaves the route on the arrival interface exactly when the prefix was unknown or
      was already there: a better next hop on another interface does not move the route. */
  lemma InterfaceFollowsOnlyIfNew(t: Table, e: RipEntry, src: Word, ifIndex: nat)
    requires Keyed(t) && HandleEntry(t, e, src, ifIndex) != t && EntryKey(e) in HandleEntry(t, e, src, ifIndex)
    ensures var k := EntryKey(e);
            var r := HandleEntry(t, e, src, ifIndex)[k];
            r.nexthop == src && r.metric == EntryMetric(e)
            && (r.ifIndex == ifIndex <==> k !in t || t[k].ifIndex == ifIndex)
  {
    hide EntryMetric, EntryKey;
  }

  /** A metric only grows, and a route is only erased, on the word of its own next hop; any other
      neighbour must offer strictly less. */
  lemma OnlyNexthopWorsens(t: Table, e: RipEntry, src: Word, ifIndex: nat, k: RouterKey)
    requires k in t && TableOk(t) && t[k].nexthop != src
    ensures k in HandleEntry(t, e, src, ifIndex)
    ensures HandleEntry(t, e, src, ifIndex)[k] != t[k]
            <==> k == EntryKey(e) && EntryMetric(e) < t[k].metric
  {
    hide EntryKey, EntryMetric;
  }

  // ----- relaxation -----

  /** The metric of a prefix, infinity when there is no route. */
  function Distance(t: Table, k: RouterKey): Word {
    if k in t then t[k].metric else INFINITY
  }

  /** What hearing of a distance m through src makes of a prefix's distance: the next hop is always
      believed, others only when they are nearer. */
  function Relax(t: Table, k: RouterKey, src: Word, m: Word): Word {
    if (k in t && t[k].nexthop == src) || m < Distance(t, k) then m else Distance(t, k)
  }

  /** An entry is one relaxation step with 16 as infinity, for its own prefix only; a route exists exactly
      below infinity, and it names src as its next hop whenever its distance changed. */
  lemma EntryRelaxes(t: Table, e: RipEntry, src: Word, ifIndex: nat, k: RouterKey)
    requires TableOk(t) && WellFormedEntry(e)
    ensures var t' := HandleEntry(t, e, src, ifIndex);
            && Distance(t', k) == (if k == EntryKey(e) then Relax(t, k, src, EntryMetric(e)) else Distance(t, k))
            && (k in t' <==> Distance(t', k) < INFINITY)
            && (Distance(t', k) != Distance(t, k) && k in t' ==> t'[k].nexthop == src)
            && (Distance(t', k) == Distance(t, k) && k in t ==> k in t' && t'[k] == t[k])
  {
    hide WellFormedEntry, EntryKey, EntryMetric;
    MetricRange(e);
  }

  lemma {:induction false} EntriesKeep(t: Table, es: seq<RipEntry>, src: Word, ifIndex: nat, addrs: Addresses)
    requires TableOk(t) && ifIndex < N_IFACE && forall e | e in es :: WellFormedEntry(e)
    ensures TableOk(HandleEntries(t, es, src, ifIndex))
    ensures src != 0 && DirectKept(t, addrs) ==> DirectKept(HandleEntries(t, es, src, ifIndex), addrs)
    decreases |es|
  {
    hide WellFormedEntry, HandleEntry, InitialTable, RouteOk;
    if es != [] {
      var n := |es| - 1;
      var t1 := HandleEntries(t, es[..n], src, ifIndex);
      EntriesKeep(t, es[..n], src, ifIndex, addrs);
      EntryKeepsTable(t1, es[n], src, ifIndex);
      if src != 0 && DirectKept(t, addrs) { EntryKeepsDirect(t1, es[n], src, ifIndex, addrs); }
    }
  }

  lemma EntryKeepsDirect(t: Table, e: RipEntry, src: Word, ifIndex: nat, addrs: Addresses)
    requires WellFormedEntry(e) && src != 0 && DirectKept(t, addrs)
    ensures DirectKept(HandleEntry(t, e, src, ifIndex), addrs)
  {
    hide WellFormedEntry, DirectRoutes, EntryKey, EntryMetric, Updated;
    DirectRoutesAre(addrs, N_IFACE);
    forall k | k in InitialTable(addrs)
      ensures k in HandleEntry(t, e, src, ifIndex) && HandleEntry(t, e, src, ifIndex)[k] == t[k]
    {
      DirectSurvives(t, k, e, src, ifIndex);
    }
  }

  lemma ParsedIsWellFormed(b: seq<Byte>, len: nat)
    requires Readable(b, len) && Parse(b, len).Some?
    ensures WellFormed(Parse(b, len).value)
  {
    hide Parse, WellFormed, Carries;
    ParseInvertsEncode(b, len, Parse(b, len).value);
  }

  // ----- runs -----

  function AfterFrames(addrs: Addresses, fs: seq<Frame>): Table
    requires forall f | f in fs :: FrameOk(f, addrs)
  {
    if fs == [] then InitialTable(addrs)
    else Received(AfterFrames(addrs, fs[..|fs| - 1]), fs[|fs| - 1], addrs)
  }

  lemma ReceivedKeeps(t: Table, f: Frame, addrs: Addresses)
    requires FrameOk(f, addrs) && TableOk(t)
    ensures TableOk(Received(t, f, addrs))
    ensures Source(f.bytes) != 0 && DirectKept(t, addrs) ==> DirectKept(Received(t, f, addrs), addrs)
  {
    hide TableOk, DirectKept, WellFormedEntry, Validate, Parse, HandleEntries, FitsBuffer;
    if Message(f, addrs).Some? {
      ParsedIsWellFormed(f.bytes, f.len);
      EntriesKeep(t, Message(f, addrs).value.entries, Source(f.bytes), f.ifIndex, addrs);
    }
  }

  /** Whatever frames arrive, in any number and order, every route is stored under its own prefix with a
      length of at most 32 and a metric of 1 to 15; and if no source address is zero, the direct
      routes stay exactly as they were set up. */
  lemma {:induction false} RunsKeepTable(addrs: Addresses, fs: seq<Frame>)
    requires forall f | f in fs :: FrameOk(f, addrs)
    ensures TableOk(AfterFrames(addrs, fs))
    ensures (forall f | f in fs :: Source(f.bytes) != 0) ==> DirectKept(AfterFrames(addrs, fs), addrs)
    decreases |fs|
  {
    hide TableOk, DirectKept, Received, FrameOk, InitialTable;
    if fs == [] {
      InitialOk(addrs);
    } else {
      RunsKeepTable(addrs, fs[..|fs| - 1]);
      ReceivedKeeps(AfterFrames(addrs, fs[..|fs| - 1]), fs[|fs| - 1], addrs);
    }
  }

  /** The frame is a response from address zero with an entry for the prefix. */
  predicate ZeroSourceHits(f: Frame, addrs: Addresses, k: RouterKey)
    requires FrameOk(f, addrs)
  {
    match Message(f, addrs)
    case Some(rip) => rip.command != 1 && Source(f.bytes) == 0 && exists e | e in rip.entries :: EntryKey(e) == k
    case None => false
  }

  /** The initial route of a prefix is there, or gone for good: no later entry has a metric of 1. */
  predicate Pristine(t: Table, r: Route) {
    KeyOf(r) in t && t[KeyOf(r)] == r
  }

  predicate Spoilt(t: Table, r: Route) {
    KeyOf(r) in t ==> t[KeyOf(r)].metric >= 2
  }

  lemma EntryOnDirect(t: Table, r: Route, e: RipEntry, src: Word, ifIndex: nat)
    requires WellFormedEntry(e) && r.nexthop == 0 && r.metric == 1
    ensures Pristine(t, r) && !(src == 0 && EntryKey(e) == KeyOf(r)) ==> Pristine(HandleEntry(t, e, src, ifIndex), r)
    ensures Pristine(t, r) && src == 0 && EntryKey(e) == KeyOf(r) ==> Spoilt(HandleEntry(t, e, src, ifIndex), r)
    ensures Spoilt(t, r) ==> Spoilt(HandleEntry(t, e, src, ifIndex), r)
  {
    hide WellFormedEntry, EntryMetric, EntryKey;
    MetricRange(e);
  }

  lemma {:induction false} EntriesOnDirect(t: Table, r: Route, es: seq<RipEntry>, src: Word, ifIndex: nat)
    requires (forall e | e in es :: WellFormedEntry(e)) && r.nexthop == 0 && r.metric == 1
    ensures var hit := src == 0 && exists e | e in es :: EntryKey(e) == KeyOf(r);
            var t' := HandleEntries(t, es, src, ifIndex);
            && (Pristine(t, r) ==> if hit then Spoilt(t', r) else Pristine(t', r))
            && (Spoilt(t, r) ==> Spoilt(t', r))
    decreases |es|
  {
    hide WellFormedEntry, HandleEntry, EntryKey, Pristine, Spoilt;
    if es != [] {
      var n := |es| - 1;
      EntriesOnDirect(t, r, es[..n], src, ifIndex);
      EntryOnDirect(HandleEntries(t, es[..n], src, ifIndex), r, es[n], src, ifIndex);
      assert es == es[..n] + [es[n]];
    }
  }

  lemma FrameOnDirect(t: Table, r: Route, f: Frame, addrs: Addresses)
    requires FrameOk(f, addrs) && r.nexthop == 0 && r.metric == 1
    ensures Pristine(t, r) ==> if ZeroSourceHits(f, addrs, KeyOf(r)) then Spoilt(Received(t, f, addrs), r) else Pristine(Received(t, f, addrs), r)
    ensures Spoilt(t, r) ==> Spoilt(Received(t, f, addrs), r)
  {
    hide WellFormedEntry, Validate, Parse, HandleEntries, FitsBuffer, Pristine, Spoilt, DstIsMe, Source;
    if Message(f, addrs).Some? {
      ParsedIsWellFormed(f.bytes, f.len);
      EntriesOnDirect(t, r, Message(f, addrs).value.entries, Source(f.bytes), f.ifIndex);
    }
  }

  lemma {:induction false} RunOnDirect(addrs: Addresses, fs: seq<Frame>, k: RouterKey)
    requires (forall f | f in fs :: FrameOk(f, addrs)) && k in InitialTable(addrs)
    ensures var r, t := InitialTable(addrs)[k], AfterFrames(addrs, fs);
            if exists f | f in fs :: ZeroSourceHits(f, addrs, k) then Spoilt(t, r) else Pristine(t, r)
    decreases |fs|
  {
    hide Received, FrameOk, DirectRoutes, ZeroSourceHits, Pristine, Spoilt;
    InitialRoute(addrs, k);
    var r := InitialTable(addrs)[k];
    if fs != [] {
      var n := |fs| - 1;
      RunOnDirect(addrs, fs[..n], k);
      FrameOnDirect(AfterFrames(addrs, fs[..n]), r, fs[n], addrs);
      assert fs == fs[..n] + [fs[n]];
    }
  }

  lemma InitialRoute(addrs: Addresses, k: RouterKey)
    requires k in InitialTable(addrs)
    ensures var r := InitialTable(addrs)[k]; KeyOf(r) == k && r.nexthop == 0 && r.metric == 1 && Pristine(InitialTable(addrs), r)
  {
    hide DirectRoutes;
    DirectRoutesAre(addrs, N_IFACE);
  }

  /** Over any run of frames, an initial route is unchanged at the end if and only if no response from address
      zero carried an entry for its prefix. */
  lemma DirectKeptIff(addrs: Addresses, fs: seq<Frame>, k: RouterKey)
    requires (forall f | f in fs :: FrameOk(f, addrs)) && k in InitialTable(addrs)
    ensures k in AfterFrames(addrs, fs) && AfterFrames(addrs, fs)[k] == InitialTable(addrs)[k]
            <==> forall f | f in fs :: !ZeroSourceHits(f, addrs, k)
  {
    hide AfterFrames, FrameOk, DirectRoutes, ZeroSourceHits;
    RunOnDirect(addrs, fs, k);
    InitialRoute(addrs, k);
  }

  lemma InitialOk(addrs: Addresses)
    ensures TableOk(InitialTable(addrs)) && DirectKept(InitialTable(addrs), addrs) && CanonicalTable(InitialTable(addrs))
  {
    hide DirectRoutes;
    DirectRoutesAre(addrs, N_IFACE);
  }

  // ----- the router's own networks -----

  /** Interfaces in different networks. */
  predicate OwnNetwork(addrs: Addresses, i: nat)
    requires i < N_IFACE
  {
    forall j | 0 <= j < N_IFACE && j != i :: DirectRoute(addrs, j).addr != DirectRoute(addrs, i).addr
  }

  lemma {:induction false} DirectStored(addrs: Addresses, i: nat, n: nat)
    requires i < n <= N_IFACE && OwnNetwork(addrs, i)
    ensures var r := DirectRoute(addrs, i); KeyOf(r) in DirectRoutes(addrs, n) && DirectRoutes(addrs, n)[KeyOf(r)] == r
    decreases n
  {
    hide BitsOf;
    if i < n - 1 { DirectStored(addrs, i, n - 1); }
  }

  /** A destination in the network of interface i is delivered there directly, whatever was received, exactly
      as long as no longer prefix that covers it has been learned. */
  lemma DirectAnswer(t: Table, addrs: Addresses, i: nat, dst: Word)
    requires TableOk(t) && DirectKept(t, addrs) && i < N_IFACE && OwnNetwork(addrs, i)
    requires Masked(dst, 24) == DirectRoute(addrs, i).addr
    ensures Query(t, dst) == Some(DirectRoute(addrs, i)) <==> Longest(t, dst, DirectRoute(addrs, i))
  {
    hide Masked, BitsOf, OwnNetwork, DirectRoutes, Canonical, Covers, Longest, RouteOk, Query;
    var r := DirectRoute(addrs, i);
    DirectStored(addrs, i, N_IFACE);
    DirectRoutesAre(addrs, N_IFACE);
    CoversIsMasked(r, dst);
    QueryIsBest(t, dst, r);
  }

  /** The network of an interface: its address with the last byte cleared. */
  lemma DirectNetwork(addrs: Addresses, i: nat)
    requires i < N_IFACE
    ensures WordBytes(DirectRoute(addrs, i).addr) == WordBytes(addrs[i])[..3] + [0]
  {
    hide B0, B1, B2, B3, FromBytes, BitsOf;
    var x := addrs[i];
    BytesOfWord(x);
    NetworkAddress(B0(x), B1(x), B2(x), B3(x));
    WordOfBytes(B0(x), B1(x), B2(x), 0);
  }

  lemma MaskedNetwork(x: Word)
    ensures WordBytes(Masked(x, 24)) == WordBytes(x)[..3] + [0]
  {
    hide BitsOf;
    assert MASK_BE[24] == 0x00FF_FFFF;
    DirectNetwork([x, 0, 0, 0], 0);
  }

  lemma SameBytes(x: Word, y: Word)
    ensures WordBytes(x) == WordBytes(y) <==> x == y
  {
    hide B0, B1, B2, B3, FromBytes;
    BytesOfWord(x);
    BytesOfWord(y);
  }

  /** A destination that shares its first three bytes with the address of interface i, and with no other, leaves there
      for itself, whatever was received, exactly as long as no longer prefix that covers it has been learned. */
  lemma DirectDelivery(t: Table, addrs: Addresses, i: nat, dst: Word, net: Word)
    requires TableOk(t) && DirectKept(t, addrs) && i < N_IFACE
    requires WordBytes(dst)[..3] == WordBytes(addrs[i])[..3] && WordBytes(net) == WordBytes(addrs[i])[..3] + [0]
    requires forall j | 0 <= j < N_IFACE && j != i :: WordBytes(addrs[j])[..3] != WordBytes(addrs[i])[..3]
    ensures Query(t, dst) == Some(Route(net, 24, i, 0, 1))
            <==> forall k | k in t && Canonical(k.addr, k.len) && Covers(t[k], dst) :: k.len <= 24
  {
    hide WordBytes, BitsOf, DirectRoutes, Canonical, Covers, RouteOk, Query, Masked;
    DirectNetwork(addrs, i);
    MaskedNetwork(dst);
    SameBytes(net, DirectRoute(addrs, i).addr);
    SameBytes(Masked(dst, 24), net);
    forall j | 0 <= j < N_IFACE && j != i ensures DirectRoute(addrs, j).addr != DirectRoute(addrs, i).addr {
      DirectNetwork(addrs, j);
      assert WordBytes(DirectRoute(addrs, j).addr)[..3] == WordBytes(addrs[j])[..3];
      assert WordBytes(DirectRoute(addrs, i).addr)[..3] == WordBytes(addrs[i])[..3];
    }
    DirectAnswer(t, addrs, i, dst);
    assert KeyOf(DirectRoute(addrs, i)) in t by { DirectStored(addrs, i, N_IFACE); }
  }
}
