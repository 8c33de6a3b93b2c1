/** What a router advertises (section 3.9 of RFC 2453 with split horizon and poisoned reverse): the
    packets for one interface, and that a receiver reads the whole table back from them. */
module Advertise {
  import opened Wrappers
  import opened Words
  import opened Checksum
  import opened NetBytes
  import opened RipCodec
  import opened Lookup
  import opened RipTable
  import opened Forwarding

  // ----- iteration order -----

  /** Pairs compare lexicographically. */
  predicate Leq(a: RouterKey, b: RouterKey) {
    a.addr < b.addr || (a.addr == b.addr && a.len <= b.len)
  }

  lemma {:induction false} LeastExists(s: set<RouterKey>)
    requires s != {}
    ensures exists k :: k in s && forall j | j in s :: Leq(k, j)
  {
    var k :| k in s;
    if s == {k} {
      assert forall j | j in s :: Leq(k, j);
    } else {
      assert s - {k} != {};
      LeastExists(s - {k});
      var j :| j in s - {k} && forall i | i in s - {k} :: Leq(j, i);
      var least := if Leq(j, k) then j else k;
      assert forall i | i in s :: i == k || i in s - {k};
      assert least in s && forall i | i in s :: Leq(least, i);
    }
  }

  function Least(s: set<RouterKey>): (k: RouterKey)
    requires s != {}
    ensures k in s && forall j | j in s :: Leq(k, j)
  {
    LeastExists(s);
    var k :| k in s && forall j | j in s :: Leq(k, j);
    k
  }

  /** The keys in the order a std::map is walked. */
  function Order(s: set<RouterKey>): (r: seq<RouterKey>)
    ensures |r| == |s|
    ensures forall k :: k in r <==> k in s
    ensures forall i, j | 0 <= i < j < |r| :: r[i] != r[j] && Leq(r[i], r[j])
  {
    if s == {} then [] else [Least(s)] + Order(s - {Least(s)})
  }

  // ----- entries and batches -----

  /** A route as advertised on interface i. */
  function AdvertEntry(r: Route, i: nat): RipEntry
    requires r.len <= 32
  {
    RipEntry(r.addr, MASK_BE[r.len], r.nexthop, Swap(if r.ifIndex == i then INFINITY else r.metric))
  }

  function AdvertOf(t: Table, keys: seq<RouterKey>, i: nat): (es: seq<RipEntry>)
    requires TableOk(t) && forall k | k in keys :: k in t
    ensures |es| == |keys|
  {
    seq(|keys|, j requires 0 <= j < |keys| => AdvertEntry(t[keys[j]], i))
  }

  /** The whole table in order. */
  function Advert(t: Table, i: nat): seq<RipEntry>
    requires TableOk(t)
  {
    AdvertOf(t, Order(t.Keys), i)
  }

  /** Runs of 25 entries and what is left over. */
  function Batches(es: seq<RipEntry>): (bs: seq<seq<RipEntry>>)
    ensures forall b | b in bs :: 1 <= |b| <= RIP_MAX_ENTRY
  {
    if es == [] then []
    else if |es| <= RIP_MAX_ENTRY then [es]
    else [es[..RIP_MAX_ENTRY]] + Batches(es[RIP_MAX_ENTRY..])
  }

  function Concat(bs: seq<seq<RipEntry>>): seq<RipEntry> {
    if bs == [] then [] else bs[0] + Concat(bs[1..])
  }

  /** Nothing is lost or repeated, and there are as few batches as their room allows. */
  lemma {:induction false} ConcatBatches(es: seq<RipEntry>)
    ensures Concat(Batches(es)) == es
    ensures |Batches(es)| == (|es| + RIP_MAX_ENTRY - 1) / RIP_MAX_ENTRY
    decreases |es|
  {
    if |es| > RIP_MAX_ENTRY {
      ConcatBatches(es[RIP_MAX_ENTRY..]);
    } else if es != [] {
      assert [es][1..] == [];
    }
  }

  // ----- packets -----

  /** IP and UDP header: no options, TTL 1, UDP, to 224.0.0.9, ports 520; the IP checksum is still zero. */
  function Head(saddr: Word, total: nat): (s: seq<Byte>)
    requires 28 <= total < 0x1_0000
    ensures |s| == 28
  {
    [0x45, 0, total / 256, total % 256, 0, 0, 0, 0, 1, 17, 0, 0] + WordBytes(saddr) + WordBytes(RIP_MULTICAST_ADDR)
    + [2, 8, 2, 8, (total - 20) / 256, (total - 20) % 256, 0, 0]
  }

  function Unsummed(saddr: Word, rip: RipPacket): (p: seq<Byte>)
    requires |rip.entries| <= RIP_MAX_ENTRY
    ensures |p| == 32 + 20 * |rip.entries|
  {
    Head(saddr, 32 + 20 * |rip.entries|) + Encode(rip)
  }

  /** The datagram that carries a RIP message. */
  function Packet(saddr: Word, rip: RipPacket): (p: seq<Byte>)
    requires |rip.entries| <= RIP_MAX_ENTRY
    ensures |p| == 32 + 20 * |rip.entries|
  {
    Recomputed(Unsummed(saddr, rip), 0, 20)
  }

  /** A datagram handed to an interface. */
  datatype Sent = Sent(ifIndex: nat, bytes: seq<Byte>)

  function Response(saddr: Word, i: nat, es: seq<RipEntry>): Sent
    requires |es| <= RIP_MAX_ENTRY
  {
    Sent(i, Packet(saddr, RipPacket(2, es)))
  }

  function ResponsesOf(saddr: Word, i: nat, bs: seq<seq<RipEntry>>): (s: seq<Sent>)
    requires forall b | b in bs :: |b| <= RIP_MAX_ENTRY
    ensures |s| == |bs|
  {
    seq(|bs|, j requires 0 <= j < |bs| => Response(saddr, i, bs[j]))
  }

  /** Everything sent on interface i. */
  function Responses(t: Table, addrs: Addresses, i: nat): seq<Sent>
    requires TableOk(t) && i < N_IFACE
  {
    ResponsesOf(addrs[i], i, Batches(Advert(t, i)))
  }

  /** The first n interfaces, or only the given one of them. */
  function Advertisement(t: Table, addrs: Addresses, interface: Option<nat>, n: nat): seq<Sent>
    requires TableOk(t) && n <= N_IFACE
  {
    if n == 0 then []
    else Advertisement(t, addrs, interface, n - 1)
         + if interface.Some? && interface.value != n - 1 then [] else Responses(t, addrs, n - 1)
  }

  // ----- a receiver reads a packet back -----

  lemma RecomputedHeader(b: seq<Byte>)
    requires |b| >= 20
    ensures var p := Recomputed(b, 0, 20);
            |p| == |b| && p[0] == b[0] && Field(p[..20], 10) == ChecksumOf(p[..20][10 := 0][11 := 0])
  {
    hide ChecksumOf;
    var h := Recomputed(b, 0, 20)[..20];
    assert h[10 := 0][11 := 0] == Cleared(b, 0)[0..20];
  }

  lemma RecomputedIsValid(b: seq<Byte>)
    requires |b| >= 20 && b[0] == 0x45
    ensures var p := Recomputed(b, 0, 20); RfcValid(p[..20]) && Validate(p)
  {
    hide RfcValid, Validate, Recomputed, ChecksumOf;
    var p := Recomputed(b, 0, 20);
    RecomputedHeader(b);
    ValidIffRecomputed(p[..20]);
    ValidateAndRfc(p);
  }

  /** The checksum touches nothing but its own field. */
  lemma PacketBytes(saddr: Word, rip: RipPacket)
    requires |rip.entries| <= RIP_MAX_ENTRY
    ensures var p, total := Packet(saddr, rip), 32 + 20 * |rip.entries|;
            p[0] == 0x45 && TotalLength(p) == total && p[28..] == Encode(rip)
            && WordAt(p, 12) == saddr && WordAt(p, 16) == RIP_MULTICAST_ADDR
  {
    hide Encode, ChecksumOf, WordAt, WordBytes;
    var p, q := Packet(saddr, rip), Unsummed(saddr, rip);
    assert p[28..] == q[28..];
    assert p[12..16] == q[12..16] == WordBytes(saddr);
    assert p[16..20] == q[16..20] == WordBytes(RIP_MULTICAST_ADDR);
    WordAtOf(p, 12, saddr);
    WordAtOf(p, 16, RIP_MULTICAST_ADDR);
  }

  /** The fields of a sent datagram: no options, TTL 1, UDP from and to port 520, to 224.0.0.9, both lengths
      as the standards count them, no type of service, identification, fragments or UDP checksum, then the
      message. */
  lemma DatagramFields(saddr: Word, rip: RipPacket)
    requires |rip.entries| <= RIP_MAX_ENTRY
    ensures var p := Packet(saddr, rip);
            && p[0] / 16 == 4 && HeaderLength(p) == 20 && p[8] == 1 && p[9] == 17
            && p[12..16] == WordBytes(saddr) && p[16..20] == [224, 0, 0, 9]
            && p[20..24] == [520 / 256, 520 % 256, 520 / 256, 520 % 256]
            && p[2] == |p| / 256 && p[3] == |p| % 256 && TotalLength(p) == |p|
            && p[24] == (|p| - 20) / 256 && p[25] == (|p| - 20) % 256
            && p[1] == 0 && p[4..8] == [0, 0, 0, 0] && p[26..28] == [0, 0] && p[28..] == Encode(rip)
  {
    hide Encode, Head, Packet;
    var p, h := Packet(saddr, rip), Head(saddr, 32 + 20 * |rip.entries|);
    PacketIsHead(saddr, rip);
    HeadFields(saddr, 32 + 20 * |rip.entries|);
    assert p[4..8] == h[4..8] && p[12..16] == h[12..16] && p[16..20] == h[16..20] && p[20..24] == h[20..24] && p[26..28] == h[26..28];
  }

  /** A datagram is its headers but for the checksum, then its message. */
  lemma PacketIsHead(saddr: Word, rip: RipPacket)
    requires |rip.entries| <= RIP_MAX_ENTRY
    ensures var p, h := Packet(saddr, rip), Head(saddr, 32 + 20 * |rip.entries|);
            p[28..] == Encode(rip) && forall i | 0 <= i < 28 && i != 10 && i != 11 :: p[i] == h[i]
  {
    hide Encode, ChecksumOf, Head;
    var p, q := Packet(saddr, rip), Unsummed(saddr, rip);
    assert p[28..] == q[28..] == Encode(rip);
  }

  lemma HeadFields(saddr: Word, total: nat)
    requires 28 <= total < 0x1_0000
    ensures var h := Head(saddr, total);
            && h[0] == 0x45 && h[1] == 0 && h[2] == total / 256 && h[3] == total % 256 && h[4..8] == [0, 0, 0, 0]
            && h[8] == 1 && h[9] == 17 && h[12..16] == WordBytes(saddr) && h[16..20] == [224, 0, 0, 9]
            && h[20..24] == [2, 8, 2, 8] && h[24] == (total - 20) / 256 && h[25] == (total - 20) % 256 && h[26..28] == [0, 0]
  {
    hide WordBytes;
    MulticastBytes();
  }

  lemma MulticastBytes()
    ensures WordBytes(RIP_MULTICAST_ADDR) == [224, 0, 0, 9]
  {
  }

  /** The buffer holds the datagram; what follows it is left over from earlier packets. */
  predicate Holds(f: Frame, p: seq<Byte>) {
    |f.bytes| == BUFFER_SIZE && f.len == |p| <= BUFFER_SIZE && f.bytes[..|p|] == p && f.ifIndex < N_IFACE
  }

  /** Any router that receives the datagram accepts its checksum, takes it for its own, and parses the
      message that went in. */
  lemma PacketIsRead(f: Frame, saddr: Word, rip: RipPacket, addrs: Addresses)
    requires |rip.entries| <= RIP_MAX_ENTRY && WellFormed(rip) && Holds(f, Packet(saddr, rip))
    ensures FrameOk(f, addrs) && Message(f, addrs) == Some(rip) && Source(f.bytes) == saddr
    ensures RfcValid(Packet(saddr, rip)[..20])
  {
    hide Packet, Unsummed, Encode, WellFormed, RfcValid, WordAt, Parse, Validate;
    var p, b := Packet(saddr, rip), f.bytes;
    PacketBytes(saddr, rip);
    PacketIsValid(saddr, rip);
    assert forall i | 0 <= i < |p| :: b[i] == b[..|p|][i] == p[i];
    SameWord(b, p, 12);
    SameWord(b, p, 16);
    SameValidity(b, p);
    assert b[28..|p|] == p[28..];
    ParseInvertsEncode(b, f.len, rip);
  }

  lemma PacketIsValid(saddr: Word, rip: RipPacket)
    requires |rip.entries| <= RIP_MAX_ENTRY
    ensures Packet(saddr, rip)[0] == 0x45
    ensures Validate(Packet(saddr, rip)) && RfcValid(Packet(saddr, rip)[..20])
  {
    hide Unsummed, Encode, RfcValid, Validate, Recomputed;
    PacketBytes(saddr, rip);
    UnsummedFirst(saddr, rip);
    RecomputedIsValid(Unsummed(saddr, rip));
  }

  lemma UnsummedFirst(saddr: Word, rip: RipPacket)
    requires |rip.entries| <= RIP_MAX_ENTRY
    ensures Unsummed(saddr, rip)[0] == 0x45
  {
    hide Encode;
  }

  lemma SameWord(b: seq<Byte>, p: seq<Byte>, o: nat)
    requires o + 4 <= |p| <= |b| && forall i | 0 <= i < |p| :: b[i] == p[i]
    ensures WordAt(b, o) == WordAt(p, o)
  {
    hide FromBytes;
  }

  lemma SameValidity(b: seq<Byte>, p: seq<Byte>)
    requires 20 <= |p| <= |b| && p[0] == 0x45 && forall i | 0 <= i < |p| :: b[i] == p[i]
    ensures Validate(b) <==> Validate(p)
  {
    hide ByteSum;
    assert b[..20] == p[..20];
  }

  // ----- advertising is complete -----

  lemma AdvertEntryIs(r: Route, i: nat)
    requires RouteOk(r)
    ensures var e := AdvertEntry(r, i);
            WellFormedEntry(e) && EntryKey(e) == KeyOf(r)
            && Swap(e.metric) == (if r.ifIndex == i then INFINITY else r.metric)
  {
    hide Swap, Contiguous, Popcount;
    ContiguousIffTable(MASK_BE[r.len]);
    MaskPopcount(r.len);
    SwapTwice(if r.ifIndex == i then INFINITY else r.metric);
  }

  /** The advertisement lists every route of the table exactly once, its prefix length can be counted
      from the mask, and its metric is 16 exactly for routes on the interface itself. */
  lemma AdvertIsTable(t: Table, i: nat)
    requires TableOk(t)
    ensures var keys, es := Order(t.Keys), Advert(t, i);
            |es| == |keys| == |t|
            && (forall k :: k in keys <==> k in t)
            && (forall a, b | 0 <= a < b < |keys| :: keys[a] != keys[b])
            && forall j | 0 <= j < |keys| ::
                 && EntryKey(es[j]) == keys[j] && es[j].nexthop == t[keys[j]].nexthop && WellFormedEntry(es[j])
                 && Swap(es[j].metric) == (if t[keys[j]].ifIndex == i then INFINITY else t[keys[j]].metric)
                 && (Swap(es[j].metric) == INFINITY <==> t[keys[j]].ifIndex == i)
  {
    hide WellFormedEntry, EntryKey, Swap;
    var keys, es := Order(t.Keys), Advert(t, i);
    forall j | 0 <= j < |keys|
      ensures es[j] == AdvertEntry(t[keys[j]], i) && EntryKey(es[j]) == keys[j] && WellFormedEntry(es[j])
      ensures Swap(es[j].metric) == (if t[keys[j]].ifIndex == i then INFINITY else t[keys[j]].metric)
    {
      assert keys[j] in t;
      AdvertEntryIs(t[keys[j]], i);
    }
  }

  /** Frames that hold the datagrams sent, one each. */
  predicate Carried(fs: seq<Frame>, sent: seq<Sent>) {
    |fs| == |sent| && forall j | 0 <= j < |fs| :: Holds(fs[j], sent[j].bytes)
  }

  /** The entries that a receiver parses from a run of frames. */
  function ReadAll(fs: seq<Frame>, addrs: Addresses): seq<RipEntry>
    requires forall f | f in fs :: FrameOk(f, addrs)
  {
    if fs == [] then []
    else (match Message(fs[0], addrs) case Some(rip) => rip.entries case None => []) + ReadAll(fs[1..], addrs)
  }

  predicate AllWellFormed(es: seq<RipEntry>) {
    forall e | e in es :: WellFormedEntry(e)
  }

  /** The first datagram holds the first batch, the others the rest. */
  lemma FirstBatch(saddr: Word, i: nat, es: seq<RipEntry>)
    requires es != []
    ensures var b := if |es| <= RIP_MAX_ENTRY then es else es[..RIP_MAX_ENTRY];
            ResponsesOf(saddr, i, Batches(es)) == [Response(saddr, i, b)] + ResponsesOf(saddr, i, Batches(es[|b|..]))
            && es == b + es[|b|..] && 1 <= |b| <= RIP_MAX_ENTRY
  {
    hide Response, Batches;
    BatchesUnfold(es);
    var b := if |es| <= RIP_MAX_ENTRY then es else es[..RIP_MAX_ENTRY];
    assert Batches(es) == [b] + Batches(es[|b|..]);
  }

  lemma BatchesUnfold(es: seq<RipEntry>)
    requires es != []
    ensures var b := if |es| <= RIP_MAX_ENTRY then es else es[..RIP_MAX_ENTRY]; Batches(es) == [b] + Batches(es[|b|..])
  {
  }

  lemma {:induction false} BatchesAreRead(fs: seq<Frame>, saddr: Word, i: nat, es: seq<RipEntry>, addrs: Addresses)
    requires AllWellFormed(es) && Carried(fs, ResponsesOf(saddr, i, Batches(es)))
    ensures forall f | f in fs :: FrameOk(f, addrs) && Source(f.bytes) == saddr
    ensures ReadAll(fs, addrs) == es
    decreases |es|
  {
    hide WellFormedEntry, Message, FrameOk, Holds, Packet, Source, Batches, ResponsesOf, Carried;
    if es != [] {
      FirstBatch(saddr, i, es);
      var b := if |es| <= RIP_MAX_ENTRY then es else es[..RIP_MAX_ENTRY];
      CarriedFirst(fs, Response(saddr, i, b), ResponsesOf(saddr, i, Batches(es[|b|..])));
      PacketIsRead(fs[0], saddr, RipPacket(2, b), addrs);
      BatchesAreRead(fs[1..], saddr, i, es[|b|..], addrs);
    } else {
      NoBatches(saddr, i);
      NoFrames(fs);
    }
  }

  lemma NoFrames(fs: seq<Frame>)
    requires Carried(fs, [])
    ensures fs == []
  {
  }

  lemma CarriedFirst(fs: seq<Frame>, x: Sent, rest: seq<Sent>)
    requires Carried(fs, [x] + rest)
    ensures fs != [] && Holds(fs[0], x.bytes) && Carried(fs[1..], rest) && fs == [fs[0]] + fs[1..]
  {
    hide Holds;
    assert ([x] + rest)[0] == x;
    forall j | 0 <= j < |rest| ensures Holds(fs[1..][j], rest[j].bytes) { assert ([x] + rest)[j + 1] == rest[j]; }
  }

  lemma NoBatches(saddr: Word, i: nat)
    ensures ResponsesOf(saddr, i, Batches([])) == []
  {
  }

  /** For a table of any size, the datagrams sent on an interface hold at most 25 entries each, pass both
      checksum tests at any receiver, and parse there to the whole advertisement, in order. */
  lemma AdvertisingIsComplete(t: Table, addrs: Addresses, i: nat, fs: seq<Frame>, receiver: Addresses)
    requires TableOk(t) && i < N_IFACE && Carried(fs, Responses(t, addrs, i))
    ensures forall s | s in Responses(t, addrs, i) :: s.ifIndex == i && |s.bytes| <= 32 + 20 * RIP_MAX_ENTRY
    ensures forall f | f in fs :: FrameOk(f, receiver) && Source(f.bytes) == addrs[i]
    ensures ReadAll(fs, receiver) == Advert(t, i)
  {
    hide FrameOk, Message, TableOk, Batches, Packet, Holds, WellFormedEntry, Source, AdvertOf;
    AdvertIsTable(t, i);
    BatchesAreRead(fs, addrs[i], i, Advert(t, i), receiver);
  }

  // ----- which interface gets what -----

  /** The datagrams on one interface, in the order sent. */
  function OnInterface(sent: seq<Sent>, i: nat): seq<Sent> {
    if sent == [] then []
    else OnInterface(sent[..|sent| - 1], i) + if sent[|sent| - 1].ifIndex == i then [sent[|sent| - 1]] else []
  }

  lemma {:induction false} OnInterfaceAppend(a: seq<Sent>, b: seq<Sent>, i: nat)
    ensures OnInterface(a + b, i) == OnInterface(a, i) + OnInterface(b, i)
    decreases |b|
  {
    if b == [] {
      assert a + b == a;
    } else {
      assert (a + b)[..|a + b| - 1] == a + b[..|b| - 1];
      OnInterfaceAppend(a, b[..|b| - 1], i);
    }
  }

  lemma {:induction false} OnOneInterface(sent: seq<Sent>, j: nat, i: nat)
    requires forall s | s in sent :: s.ifIndex == j
    ensures OnInterface(sent, i) == if i == j then sent else []
    decreases |sent|
  {
    if sent != [] {
      OnOneInterface(sent[..|sent| - 1], j, i);
      assert sent == sent[..|sent| - 1] + [sent[|sent| - 1]];
    }
  }

  lemma ResponsesOn(t: Table, addrs: Addresses, i: nat)
    requires TableOk(t) && i < N_IFACE
    ensures forall s | s in Responses(t, addrs, i) :: s.ifIndex == i
  {
    hide TableOk, Advert, Batches, Packet;
  }

  /** Of the first n interfaces each that is meant, all of them or the given one, gets exactly its responses in
      order, and no other gets anything. */
  lemma {:induction false} EachInterface(t: Table, addrs: Addresses, interface: Option<nat>, n: nat, i: nat)
    requires TableOk(t) && n <= N_IFACE && i < N_IFACE
    ensures OnInterface(Advertisement(t, addrs, interface, n), i)
            == if i < n && (interface == None || interface == Some(i)) then Responses(t, addrs, i) else []
    ensures forall s | s in Advertisement(t, addrs, interface, n) :: s.ifIndex < n
    decreases n
  {
    hide TableOk, Responses, Advertisement, OnInterface;
    AdvertisementNext(t, addrs, interface, n);
    if n > 0 {
      var before := Advertisement(t, addrs, interface, n - 1);
      EachInterface(t, addrs, interface, n - 1, i);
      var more := if interface.Some? && interface.value != n - 1 then [] else Responses(t, addrs, n - 1);
      ResponsesOn(t, addrs, n - 1);
      OnOneInterface(more, n - 1, i);
      OnInterfaceAppend(before, more, i);
    } else {
      NothingOn(i);
    }
  }

  lemma NothingOn(i: nat)
    ensures OnInterface([], i) == []
  {
  }

  lemma AdvertisementNext(t: Table, addrs: Addresses, interface: Option<nat>, n: nat)
    requires TableOk(t) && n <= N_IFACE
    ensures Advertisement(t, addrs, interface, n)
            == if n == 0 then []
               else Advertisement(t, addrs, interface, n - 1)
                    + if interface.Some? && interface.value != n - 1 then [] else Responses(t, addrs, n - 1)
  {
    hide TableOk, Responses;
  }

  /** One periodic round puts on every interface exactly the responses for it, in order, and nothing else. */
  lemma PeriodicRound(t: Table, addrs: Addresses)
    requires TableOk(t)
    ensures forall i | 0 <= i < N_IFACE :: OnInterface(Advertisement(t, addrs, None, N_IFACE), i) == Responses(t, addrs, i)
    ensures forall s | s in Advertisement(t, addrs, None, N_IFACE) :: s.ifIndex < N_IFACE
  {
    hide TableOk, Responses, Advertisement, OnInterface;
    EachInterface(t, addrs, None, N_IFACE, 0);
    forall i | 0 <= i < N_IFACE ensures OnInterface(Advertisement(t, addrs, None, N_IFACE), i) == Responses(t, addrs, i) {
      EachInterface(t, addrs, None, N_IFACE, i);
    }
  }

  /** So in one periodic round a receiver on any interface reads the whole table. */
  lemma PeriodicRoundIsComplete(t: Table, addrs: Addresses, i: nat, fs: seq<Frame>, receiver: Addresses)
    requires TableOk(t) && i < N_IFACE && Carried(fs, OnInterface(Advertisement(t, addrs, None, N_IFACE), i))
    ensures forall f | f in fs :: FrameOk(f, receiver) && Source(f.bytes) == addrs[i]
    ensures ReadAll(fs, receiver) == Advert(t, i)
  {
    hide TableOk, Responses, Advertisement, OnInterface, FrameOk, Source, Carried, Advert;
    PeriodicRound(t, addrs);
    AdvertisingIsComplete(t, addrs, i, fs, receiver);
  }
}
