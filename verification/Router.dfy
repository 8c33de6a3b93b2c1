/** The router's main program: set-up, the receive loop's body, and sending the table. */
module RouterMain {
  import opened Wrappers
  import opened Words
  import opened Bits
  import opened Checksum
  import opened NetBytes
  import opened RipCodec
  import opened Lookup
  import opened RipTable
  import opened Forwarding
  import opened Advertise

  /** The request for the whole table, sent once at start. */
  function WholeTableRequest(): (rip: RipPacket)
    ensures |rip.entries| == 1
  {
    RipPacket(1, [RipEntry(0, 0, 0, Swap(INFINITY))])
  }

  function Requests(addrs: Addresses, n: nat): seq<Sent>
    requires n <= N_IFACE
  {
    if n == 0 then [] else Requests(addrs, n - 1) + [Sent(n - 1, Packet(addrs[n - 1], WholeTableRequest()))]
  }

  /** Address resolution: whether a next hop on an interface is known. */
  type Arp = (nat, Word) -> bool

  /** What a router with table t sends when a frame arrives: the table for a request, the forwarded packet
      for a packet to elsewhere. */
  function Replies(t: Table, f: Frame, addrs: Addresses, arp: Arp): seq<Sent>
    requires TableOk(t) && FrameOk(f, addrs)
  {
    if !Validate(f.bytes) then []
    else if DstIsMe(f.bytes, addrs) then
      match Parse(f.bytes, f.len)
      case Some(rip) =>
        if rip.command == 1 && |rip.entries| == 1 && rip.entries[0].metric == Swap(INFINITY)
        then Advertisement(t, addrs, Some(f.ifIndex), N_IFACE) else []
      case None => []
    else if f.bytes[8] <= 1 then []
    else SentOn(Query(t, Destination(f.bytes)), Destination(f.bytes), f.bytes, f.len, arp)
  }

  /** The packet sent on along a route; a direct route leads to the destination itself. */
  function SentOn(route: Option<Route>, dst: Word, b: seq<Byte>, len: nat, arp: Arp): seq<Sent>
    requires 12 <= len <= |b|
  {
    match route
    case Some(r) =>
      if arp(r.ifIndex, if r.nexthop == 0 then dst else r.nexthop) then [Sent(r.ifIndex, Forwarded(b)[..len])] else []
    case None => []
  }

  // ----- the bytes of a datagram -----

  /** The positions of the header that change from one datagram to the next. */
  predicate Varies(i: int) {
    i == 2 || i == 3 || i == 10 || i == 11 || i == 24 || i == 25
  }

  /** The buffer starts with the headers for a source address, lengths and checksum aside. */
  predicate HeaderIn(b: seq<Byte>, saddr: Word) {
    |b| >= 28 && forall i | 0 <= i < 28 && !Varies(i) :: b[i] == Head(saddr, 28)[i]
  }

  lemma HeadVaries(saddr: Word, total: nat, i: nat)
    requires 28 <= total < 0x1_0000 && i < 28 && !Varies(i)
    ensures Head(saddr, total)[i] == Head(saddr, 28)[i]
  {
    hide WordBytes;
  }

  lemma HeadLengths(saddr: Word, total: nat)
    requires 28 <= total < 0x1_0000
    ensures var h := Head(saddr, total);
            h[2] == total / 256 && h[3] == total % 256 && h[24] == (total - 20) / 256 && h[25] == (total - 20) % 256
            && h[0] == 0x45
  {
    hide WordBytes;
  }

  /** Checksum over the first 20 bytes, then the UDP length: the buffer then starts with the datagram. */
  lemma BufferIsPacket(b: seq<Byte>, saddr: Word, rip: RipPacket)
    requires |rip.entries| <= RIP_MAX_ENTRY
    requires var q := Unsummed(saddr, rip);
             |q| <= |b| && forall i | 0 <= i < |q| && i != 10 && i != 11 && i != 24 && i != 25 :: b[i] == q[i]
    ensures var q := Unsummed(saddr, rip);
            Recomputed(b, 0, 20)[24 := q[24]][25 := q[25]][..|q|] == Packet(saddr, rip)
  {
    hide Unsummed, ChecksumOf;
    var q := Unsummed(saddr, rip);
    assert Cleared(b, 0)[0..20] == Cleared(q, 0)[0..20];
  }

  /** The buffer before the checksum is computed. */
  lemma BufferBeforeSum(b: seq<Byte>, saddr: Word, rip: RipPacket)
    requires |rip.entries| <= RIP_MAX_ENTRY && 32 + 20 * |rip.entries| <= |b| && HeaderIn(b, saddr)
    requires b[28..32 + 20 * |rip.entries|] == Encode(rip)
    requires b[2] == (32 + 20 * |rip.entries|) / 256 && b[3] == (32 + 20 * |rip.entries|) % 256
    ensures var q := Unsummed(saddr, rip);
            && (forall i | 0 <= i < |q| && i != 10 && i != 11 && i != 24 && i != 25 :: b[i] == q[i])
            && q[24] == (12 + 20 * |rip.entries|) / 256 && q[25] == (12 + 20 * |rip.entries|) % 256
            && b[0] == 0x45
  {
    hide Head, Encode, Varies;
    var total := 32 + 20 * |rip.entries|;
    var q := Unsummed(saddr, rip);
    assert q == Head(saddr, total) + Encode(rip);
    HeadLengths(saddr, total);
    HeadLengths(saddr, 28);
    forall i | 0 <= i < |q| && i != 10 && i != 11 && i != 24 && i != 25
      ensures b[i] == q[i]
    {
      if i >= 28 {
        assert b[28..total][i - 28] == Encode(rip)[i - 28];
      } else {
        FixedByte(b, saddr, total, i);
      }
    }
    FixedByte(b, saddr, total, 0);
  }

  lemma FixedByte(b: seq<Byte>, saddr: Word, total: nat, i: nat)
    requires 28 <= total < 0x1_0000 && i < 28 && HeaderIn(b, saddr) && i != 10 && i != 11 && i != 24 && i != 25
    requires b[2] == total / 256 && b[3] == total % 256
    ensures b[i] == Head(saddr, total)[i]
  {
    hide Head;
    HeadLengths(saddr, total);
    if !Varies(i) { HeadVaries(saddr, total, i); }
  }

  // ----- batches -----

  lemma {:induction false} BatchAppend(done: seq<RipEntry>, b: seq<RipEntry>)
    requires |done| % RIP_MAX_ENTRY == 0 && 1 <= |b| <= RIP_MAX_ENTRY
    ensures Batches(done + b) == Batches(done) + [b]
    decreases |done|
  {
    if done == [] {
      assert done + b == b;
    } else {
      var rest := done[RIP_MAX_ENTRY..];
      BatchAppend(rest, b);
      assert (done + b)[..RIP_MAX_ENTRY] == done[..RIP_MAX_ENTRY] && (done + b)[RIP_MAX_ENTRY..] == rest + b;
      if rest == [] { assert done[..RIP_MAX_ENTRY] == done; }
    }
  }

  /** One more full or final batch is one more datagram. */
  lemma ResponsesAppend(saddr: Word, i: nat, done: seq<RipEntry>, b: seq<RipEntry>)
    requires |done| % RIP_MAX_ENTRY == 0 && 1 <= |b| <= RIP_MAX_ENTRY
    ensures ResponsesOf(saddr, i, Batches(done + b)) == ResponsesOf(saddr, i, Batches(done)) + [Response(saddr, i, b)]
  {
    hide Response, Batches;
    BatchAppend(done, b);
  }

  lemma AdvertNext(t: Table, todo: set<RouterKey>, i: nat)
    requires TableOk(t) && todo <= t.Keys && todo != {}
    ensures var k := Least(todo);
            AdvertOf(t, Order(todo), i) == [AdvertEntry(t[k], i)] + AdvertOf(t, Order(todo - {k}), i)
  {
    hide AdvertEntry, Order, Least;
    OrderStep(todo);
    var k, rest := Least(todo), Order(todo - {Least(todo)});
    assert forall j | 0 <= j < |rest| :: rest[j] in rest;
  }

  lemma OrderStep(s: set<RouterKey>)
    requires s != {}
    ensures Order(s) == [Least(s)] + Order(s - {Least(s)})
  {
    hide Least, Leq;
  }

  /** Part-way through the table: done has been sent, pending is collected, todo is still to come. */
  predicate Progress(t: Table, saddr: Word, i: nat, done: seq<RipEntry>, pending: seq<RipEntry>, todo: set<RouterKey>, out: seq<Sent>) {
    && TableOk(t) && todo <= t.Keys && |done| % RIP_MAX_ENTRY == 0
    && Advert(t, i) == done + pending + AdvertOf(t, Order(todo), i)
    && out == ResponsesOf(saddr, i, Batches(done))
  }

  lemma NoProgress(t: Table, saddr: Word, i: nat)
    requires TableOk(t)
    ensures Progress(t, saddr, i, [], [], t.Keys, [])
  {
    hide TableOk, Order, AdvertOf;
  }

  lemma TakeRoute(t: Table, saddr: Word, i: nat, done: seq<RipEntry>, pending: seq<RipEntry>, todo: set<RouterKey>, out: seq<Sent>)
    requires Progress(t, saddr, i, done, pending, todo, out) && todo != {} && t[Least(todo)].len <= 32
    ensures Progress(t, saddr, i, done, pending + [AdvertEntry(t[Least(todo)], i)], todo - {Least(todo)}, out)
  {
    hide TableOk, Order, AdvertOf, Advert, Batches, ResponsesOf, AdvertEntry, Leq;
    AdvertNext(t, todo, i);
  }

  lemma FlushBatch(t: Table, saddr: Word, i: nat, done: seq<RipEntry>, b: seq<RipEntry>, todo: set<RouterKey>, out: seq<Sent>)
    requires Progress(t, saddr, i, done, b, todo, out) && |b| == RIP_MAX_ENTRY
    ensures Progress(t, saddr, i, done + b, [], todo, out + [Response(saddr, i, b)])
  {
    hide TableOk, Order, AdvertOf, Advert, Batches, ResponsesOf, Response;
    ResponsesAppend(saddr, i, done, b);
    assert done + b + [] == done + b;
  }

  lemma FinalBatch(t: Table, saddr: Word, i: nat, done: seq<RipEntry>, b: seq<RipEntry>, out: seq<Sent>)
    requires Progress(t, saddr, i, done, b, {}, out) && |b| < RIP_MAX_ENTRY && i < N_IFACE
    ensures ResponsesOf(saddr, i, Batches(Advert(t, i))) == if b == [] then out else out + [Response(saddr, i, b)]
  {
    hide TableOk, Order, Advert, Batches, ResponsesOf, Response;
    assert AdvertOf(t, [], i) == [];
    assert Advert(t, i) == done + b;
    if b == [] {
      assert done + b == done;
    } else {
      ResponsesAppend(saddr, i, done, b);
    }
  }

  // ----- the program -----

  method CountBits(mask: Word) returns (cntr: nat)
    ensures cntr == Popcount(mask)
  {
    var m: nat := mask;
    cntr := 0;
    while m != 0
      invariant cntr + Popcount(m) == Popcount(mask)
    {
      cntr := cntr + m % 2;
      m := m / 2;
    }
  }

  class Router {
    const addrs: Addresses
    const table: RoutingTable
    const packet: array<Byte>
    const output: array<Byte>
    /** What was handed to the network, oldest first. */
    var sent: seq<Sent>

    predicate Valid()
      reads this, table
    {
      packet.Length == BUFFER_SIZE && output.Length == BUFFER_SIZE && packet != output && TableOk(table.routes)
    }

    /** Direct routes, then a request on every interface. */
    constructor (addrs: Addresses)
      ensures Valid() && fresh(table) && fresh(packet) && fresh(output) && this.addrs == addrs
      ensures table.routes == InitialTable(addrs) && sent == Requests(addrs, N_IFACE)
    {
      hide TableOk, BitsOf, Updated;
      this.addrs := addrs;
      table := new RoutingTable();
      packet := new Byte[BUFFER_SIZE](_ => 0);
      output := new Byte[BUFFER_SIZE](_ => 0);
      sent := [];
      new;
      for i := 0 to N_IFACE
        invariant table.routes == DirectRoutes(addrs, i) && sent == [] && fresh(table)
      {
        table.Update(true, Route(BitsOf(AndBit, addrs[i], 0x00FF_FFFF), 24, i, 0, 1));
      }
      InitialOk(addrs);
      SendRequests();
    }

    /** A request for the whole table on every interface. */
    method SendRequests()
      requires Valid()
      modifies this`sent, packet
      ensures sent == old(sent) + Requests(addrs, N_IFACE)
    {
      hide TableOk, HeaderIn, Packet, Swap;
      var rip := new RipBuffer();
      rip.command := 1;
      rip.entries[0] := RipEntry(0, 0, 0, Swap(INFINITY));
      rip.numEntries := 1;
      assert rip.View() == WholeTableRequest();
      WriteHeader(packet);
      for i := 0 to N_IFACE
        invariant sent == old(sent) + Requests(addrs, i)
        invariant exists s: Word :: HeaderIn(packet[..], s)
        invariant rip.numEntries == 1 && rip.View() == WholeTableRequest()
      {
        SetSource(packet, addrs[i]);
        Send(i, addrs[i], rip, packet);
      }
    }

    /** Both headers with constant fields; lengths, source and checksum come later. */
    static method WriteHeader(buf: array<Byte>)
      requires buf.Length == BUFFER_SIZE
      modifies buf
      ensures HeaderIn(buf[..], 0)
    {
      var head := Head(0, 28);
      for i := 0 to 28
        invariant forall j | 0 <= j < i :: buf[j] == head[j]
      {
        buf[i] := head[i];
      }
    }

    static method SetSource(buf: array<Byte>, saddr: Word)
      requires buf.Length == BUFFER_SIZE && exists s: Word :: HeaderIn(buf[..], s)
      modifies buf
      ensures HeaderIn(buf[..], saddr)
    {
      hide WordBytes;
      ghost var s: Word :| HeaderIn(buf[..], s);
      var w := WordBytes(saddr);
      buf[12], buf[13], buf[14], buf[15] := w[0], w[1], w[2], w[3];
    }

    /** Builds the datagram in the buffer and sends it. */
    method Send(i: nat, saddr: Word, rip: RipBuffer, buf: array<Byte>)
      requires buf.Length == BUFFER_SIZE && rip.numEntries <= RIP_MAX_ENTRY == rip.entries.Length && HeaderIn(buf[..], saddr)
      modifies this`sent, buf
      ensures sent == old(sent) + [Sent(i, Packet(saddr, rip.View()))]
      ensures HeaderIn(buf[..], saddr)
    {
      hide Head, Encode, Packet, Unsummed, Recomputed;
      ghost var b, v := buf[..], rip.View();
      var n := Assemble(rip, buf, 28);
      var totLen := n + 28;
      buf[2] := totLen / 256;
      buf[3] := totLen % 256;
      ghost var b2 := buf[..];
      assert b2[28..totLen] == Encode(v);
      BufferBeforeSum(b2, saddr, v);
      assert buf[0..] == b2;
      CalIpChksum(buf, 0);
      RecomputedFixed(b2);
      buf[24] := (totLen - 20) / 256;
      buf[25] := (totLen - 20) % 256;
      BufferIsPacket(b2, saddr, v);
      assert buf[..] == Recomputed(b2, 0, 20)[24 := (totLen - 20) / 256][25 := (totLen - 20) % 256];
      assert buf[..totLen] == buf[..][..totLen];
      sent := sent + [Sent(i, buf[..totLen])];
    }

    /** Sends the table on every interface, or on the given one only. */
    method SendRipResp(interface: Option<nat>, buf: array<Byte>)
      requires Valid() && (buf == packet || buf == output)
      modifies this`sent, buf
      ensures Valid() && sent == old(sent) + Advertisement(table.routes, addrs, interface, N_IFACE)
    {
      hide TableOk, HeaderIn, Responses;
      WriteHeader(buf);
      var rip := new RipBuffer();
      rip.command := 2;
      assert HeaderIn(buf[..], 0);
      for i := 0 to N_IFACE
        invariant sent == old(sent) + Advertisement(table.routes, addrs, interface, i)
        invariant exists s: Word :: HeaderIn(buf[..], s)
        invariant rip.command == 2
      {
        if interface.Some? && interface.value != i {
          continue;
        }
        SetSource(buf, addrs[i]);
        SendOn(i, rip, buf);
      }
    }

    /** Sends the first cntr entries as a response. */
    method SendBatch(i: nat, saddr: Word, cntr: nat, rip: RipBuffer, buf: array<Byte>)
      requires buf.Length == BUFFER_SIZE && cntr <= RIP_MAX_ENTRY == rip.entries.Length && HeaderIn(buf[..], saddr)
      requires rip.command == 2
      modifies this`sent, buf, rip`numEntries
      ensures sent == old(sent) + [Response(saddr, i, rip.entries[..cntr])]
      ensures HeaderIn(buf[..], saddr)
    {
      hide HeaderIn, Packet;
      rip.numEntries := cntr;
      Send(i, saddr, rip, buf);
    }

    /** Walks the table in key order, sending whenever the message is full and what is left at the end. */
    method SendOn(i: nat, rip: RipBuffer, buf: array<Byte>)
      requires Valid() && (buf == packet || buf == output) && i < N_IFACE
      requires rip.entries.Length == RIP_MAX_ENTRY && rip.command == 2 && HeaderIn(buf[..], addrs[i])
      modifies this`sent, buf, rip`numEntries, rip.entries
      ensures sent == old(sent) + Responses(table.routes, addrs, i)
      ensures HeaderIn(buf[..], addrs[i])
    {
      hide TableOk, HeaderIn, AdvertEntry, Response, Progress, Advert, Leq;
      var t, saddr := table.routes, addrs[i];
      var cntr := 0;
      var todo := t.Keys;
      ghost var done: seq<RipEntry>, out: seq<Sent> := [], [];
      NoProgress(t, saddr, i);
      while todo != {}
        invariant todo <= t.Keys && cntr < RIP_MAX_ENTRY
        invariant Progress(t, saddr, i, done, rip.entries[..cntr], todo, out)
        invariant sent == old(sent) + out
        invariant HeaderIn(buf[..], saddr) && rip.command == 2
        decreases |todo|
      {
        var k := Least(todo);
        RouteLength(t, k);
        TakeRoute(t, saddr, i, done, rip.entries[..cntr], todo, out);
        ghost var before := rip.entries[..cntr];
        rip.entries[cntr] := AdvertEntry(t[k], i);
        assert rip.entries[..cntr + 1] == before + [AdvertEntry(t[k], i)];
        todo := todo - {k};
        cntr := cntr + 1;
        if cntr >= RIP_MAX_ENTRY {
          FlushBatch(t, saddr, i, done, rip.entries[..cntr], todo, out);
          done, out := done + rip.entries[..cntr], out + [Response(saddr, i, rip.entries[..cntr])];
          SendBatch(i, saddr, cntr, rip, buf);
          cntr := 0;
        }
      }
      FinalBatch(t, saddr, i, done, rip.entries[..cntr], out);
      if cntr > 0 {
        SendBatch(i, saddr, cntr, rip, buf);
      }
    }

    /** One entry of a response. */
    method HandleOne(e: RipEntry, src: Word, ifIndex: nat)
      modifies table
      ensures table.routes == HandleEntry(old(table.routes), e, src, ifIndex)
    {
      hide Popcount, Swap;
      var metric := Wrap(Swap(e.metric) + 1);
      if metric > INFINITY { metric := INFINITY; }
      var len := CountBits(e.mask);
      var nexthop := src;
      var key := RouterKey(e.addr, len);
      if key in table.routes {
        var entry := table.routes[key];
        if (nexthop == entry.nexthop && metric != entry.metric) || metric < entry.metric {
          if metric == INFINITY {
            table.routes := table.routes - {key};
          } else {
            table.routes := table.routes[key := entry.(nexthop := nexthop, metric := metric)];
          }
        }
      } else if metric != INFINITY {
        table.routes := table.routes[key := Route(e.addr, len, ifIndex, nexthop, metric)];
      }
    }

    method HandleResponse(rip: RipBuffer, src: Word, ifIndex: nat)
      requires rip.numEntries <= rip.entries.Length
      modifies table
      ensures table.routes == HandleEntries(old(table.routes), rip.entries[..rip.numEntries], src, ifIndex)
    {
      hide HandleEntry;
      ghost var es := rip.entries[..rip.numEntries];
      for i := 0 to rip.numEntries
        invariant table.routes == HandleEntries(old(table.routes), es[..i], src, ifIndex)
        invariant rip.entries[..rip.numEntries] == es
      {
        assert es[..i + 1][..i] == es[..i] && es[i] == rip.entries[i];
        HandleOne(rip.entries[i], src, ifIndex);
      }
      assert es[..rip.numEntries] == es;
    }

    /** The body of the receive loop, for the len bytes now in the receive buffer. */
    method Receive(len: nat, ifIndex: nat, arp: Arp)
      requires Valid() && FrameOk(Frame(packet[..], len, ifIndex), addrs)
      modifies this`sent, table, output
      ensures Valid()
      ensures table.routes == Received(old(table.routes), Frame(packet[..], len, ifIndex), addrs)
      ensures sent == old(sent) + Replies(old(table.routes), Frame(packet[..], len, ifIndex), addrs, arp)
    {
      hide TableOk, Validate, FitsBuffer, HandleEntries, WordAt, Forwarded, Parse, Query, Swap;
      ghost var f := Frame(packet[..], len, ifIndex);
      ReceivedKeeps(table.routes, f, addrs);
      var ok := ValidateIpChecksum(packet);
      if !ok {
        return;
      }
      var src := WordAt(packet[..], 12);
      var dst := WordAt(packet[..], 16);
      if dst == RIP_MULTICAST_ADDR || dst in addrs {
        var rip := new RipBuffer();
        var isRip := Disassemble(packet, len, rip);
        if isRip {
          if rip.command == 1 {
            if rip.numEntries == 1 && rip.entries[0].metric == Swap(INFINITY) {
              SendRipResp(Some(ifIndex), output);
            }
          } else {
            HandleResponse(rip, src, ifIndex);
          }
        }
      } else if packet[8] > 1 {
        ForwardTo(dst, len, arp);
      }
    }

    /** The forwarding branch: look up, resolve, copy, update, send. */
    method ForwardTo(dst: Word, len: nat, arp: Arp)
      requires Valid() && 20 <= len <= BUFFER_SIZE && HeaderLength(packet[..]) <= len && Validate(packet[..])
      modifies this`sent, output
      ensures Valid()
      ensures sent == old(sent) + SentOn(Query(table.routes, dst), dst, packet[..], len, arp)
    {
      hide TableOk, Validate, Query;
      var found, nexthop, destIf := table.PrefixQuery(dst);
      if found {
        if nexthop == 0 {
          nexthop := dst;
        }
        if arp(destIf, nexthop) {
          Copy(packet, output, len);
          SameHeader(packet[..], output[..], len);
          var _ := Forward(output);
          assert output[..len] == output[..][..len];
          sent := sent + [Sent(destIf, output[..len])];
        }
      }
    }

    static method Copy(from: array<Byte>, to: array<Byte>, len: nat)
      requires len <= from.Length && len <= to.Length && from != to
      modifies to
      ensures to[..len] == from[..len]
    {
      for i := 0 to len
        invariant to[..i] == from[..i]
      {
        to[i] := from[i];
      }
    }
  }

  lemma RecomputedFixed(b: seq<Byte>)
    requires |b| >= 28
    ensures |Recomputed(b, 0, 20)| == |b|
    ensures forall i | 0 <= i < |b| && i != 10 && i != 11 :: Recomputed(b, 0, 20)[i] == b[i]
  {
    hide ChecksumOf;
  }

  lemma RouteLength(t: Table, k: RouterKey)
    requires TableOk(t) && k in t
    ensures t[k].len <= 32
  {
  }

  /** What lies beyond the received bytes does not matter. */
  lemma SameHeader(b: seq<Byte>, c: seq<Byte>, len: nat)
    requires 20 <= len <= |b| == |c| && c[..len] == b[..len] && HeaderLength(b) <= len
    ensures HeaderLength(c) == HeaderLength(b) && (Validate(c) <==> Validate(b))
    ensures Forwarded(c)[..len] == Forwarded(b)[..len]
  {
    hide ByteSum, Fold;
    assert forall i | 0 <= i < len :: c[i] == c[..len][i] == b[..len][i] == b[i];
    assert c[..HeaderLength(b)] == b[..HeaderLength(b)];
    assert Increment(c) == Increment(b);
  }

  // ----- what the loop body does, end to end -----

  lemma {:induction false} OneInterface(t: Table, addrs: Addresses, i: nat, n: nat)
    requires TableOk(t) && i < N_IFACE && n <= N_IFACE
    ensures Advertisement(t, addrs, Some(i), n) == if i < n then Responses(t, addrs, i) else []
    decreases n
  {
    hide TableOk, Responses;
    if n > 0 { OneInterface(t, addrs, i, n - 1); }
  }

  lemma RequestWellFormed()
    ensures WellFormed(WholeTableRequest()) && WholeTableRequest().command == 1
    ensures WholeTableRequest().entries[0].metric == Swap(INFINITY)
  {
    hide Swap, Contiguous;
    SwapTwice(INFINITY);
    ZeroMask();
  }

  lemma ZeroMask()
    ensures Contiguous(0)
  {
    hide Ones, Swap;
    NoOnes();
    SwapZero();
    assert Swap(0) == Ones(0);
  }

  lemma SwapZero()
    ensures Swap(0) == 0
  {
  }

  /** The request that a router sends at start is answered by any other with its whole table, on the
      interface where the request arrived, and changes nothing there. */
  lemma RequestIsAnswered(t: Table, f: Frame, saddr: Word, addrs: Addresses, arp: Arp)
    requires TableOk(t) && Holds(f, Packet(saddr, WholeTableRequest()))
    ensures FrameOk(f, addrs) && Received(t, f, addrs) == t
    ensures Replies(t, f, addrs, arp) == Responses(t, addrs, f.ifIndex)
  {
    hide TableOk, Packet, Swap, WellFormed, WholeTableRequest, Validate, Parse, FitsBuffer, Source, DstIsMe, Responses, Advertisement;
    RequestWellFormed();
    PacketIsRead(f, saddr, WholeTableRequest(), addrs);
    OneInterface(t, addrs, f.ifIndex, N_IFACE);
  }

  lemma {:induction false} RequestsAre(addrs: Addresses, n: nat)
    requires n <= N_IFACE
    ensures |Requests(addrs, n)| == n
    ensures forall i | 0 <= i < n :: Requests(addrs, n)[i] == Sent(i, Packet(addrs[i], WholeTableRequest()))
    decreases n
  {
    hide Packet, WholeTableRequest;
    if n > 0 { RequestsAre(addrs, n - 1); }
  }

  /** At start one request leaves on every interface, from its address, and whichever router receives it, on whatever
      interface, answers there with its whole table. */
  lemma StartIsAnswered(addrs: Addresses, i: nat, t: Table, f: Frame, receiver: Addresses, arp: Arp)
    requires TableOk(t) && i < |Requests(addrs, N_IFACE)| && Holds(f, Requests(addrs, N_IFACE)[i].bytes)
    ensures |Requests(addrs, N_IFACE)| == N_IFACE && Requests(addrs, N_IFACE)[i].ifIndex == i
    ensures FrameOk(f, receiver) && Source(f.bytes) == addrs[i] && Received(t, f, receiver) == t
    ensures Replies(t, f, receiver, arp) == Responses(t, receiver, f.ifIndex)
  {
    hide TableOk, Packet, WholeTableRequest, FrameOk, Replies, Received, Responses, Requests, Holds, Source, WellFormed, Validate, Message;
    RequestsAre(addrs, N_IFACE);
    RequestIsAnswered(t, f, addrs[i], receiver, arp);
    RequestWellFormed();
    PacketIsRead(f, addrs[i], WholeTableRequest(), receiver);
  }

  lemma RfcIsAccepted(b: seq<Byte>)
    requires HasChecksum(b) && RfcValid(Header(b))
    ensures Validate(b)
  {
    hide Validate, RfcValid;
    ValidateAndRfc(b);
  }

  /** The packet sent along a route when its TTL allows and the next hop resolves, with the checksum computed
      from scratch. */
  function SentAfresh(r: Route, f: Frame, addrs: Addresses, arp: Arp): seq<Sent>
    requires FrameOk(f, addrs) && HasChecksum(f.bytes)
  {
    var dst := Destination(f.bytes);
    if f.bytes[8] > 1 && arp(r.ifIndex, if r.nexthop == 0 then dst else r.nexthop)
    then [Sent(r.ifIndex, Resent(f.bytes, f.bytes[8] - 1)[..f.len])] else []
  }

  /** The destination field holds 224.0.0.9 or the address of an interface. */
  predicate AddressedHere(b: seq<Byte>, addrs: Addresses)
    requires |b| >= 20
  {
    b[16..20] == [224, 0, 0, 9] || exists i | 0 <= i < N_IFACE :: b[16..20] == WordBytes(addrs[i])
  }

  lemma DestinationIs(b: seq<Byte>, x: Word)
    requires |b| >= 20
    ensures Destination(b) == x <==> b[16..20] == WordBytes(x)
  {
    WordInverse(b, 16, x);
  }

  lemma AddressedIsMe(b: seq<Byte>, addrs: Addresses)
    requires |b| >= 20
    ensures DstIsMe(b, addrs) <==> AddressedHere(b, addrs)
  {
    hide Destination, WordBytes;
    MulticastBytes();
    DestinationIs(b, RIP_MULTICAST_ADDR);
    forall i | 0 <= i < N_IFACE ensures Destination(b) == addrs[i] <==> b[16..20] == WordBytes(addrs[i]) {
      DestinationIs(b, addrs[i]);
    }
  }

  /** A valid packet to 224.0.0.9 or to the address of any interface, wherever it arrived, is handled by the message
      in it alone: a response relaxes the table, entry after entry; the request for the whole table is answered on
      the arrival interface with all of it; nothing else is answered or changes anything, and the packet itself is
      never sent on, whatever its TTL. */
  lemma HeardHere(t: Table, f: Frame, addrs: Addresses, arp: Arp)
    requires TableOk(t) && FrameOk(f, addrs) && Validate(f.bytes) && AddressedHere(f.bytes, addrs)
    ensures FitsBuffer(f.bytes, f.len)
    ensures match Parse(f.bytes, f.len)
            case Some(rip) =>
              && Received(t, f, addrs) == (if rip.command == 2 then HandleEntries(t, rip.entries, WordAt(f.bytes, 12), f.ifIndex) else t)
              && Replies(t, f, addrs, arp)
                 == (if rip.command == 1 && |rip.entries| == 1 && Swap(rip.entries[0].metric) == 16 then Responses(t, addrs, f.ifIndex) else [])
            case None => Received(t, f, addrs) == t && Replies(t, f, addrs, arp) == []
  {
    hide TableOk, Validate, DstIsMe, AddressedHere, FitsBuffer, Parse, Swap, Responses, HandleEntries, WellFormedEntry, Advertisement;
    AddressedIsMe(f.bytes, addrs);
    OneInterface(t, addrs, f.ifIndex, N_IFACE);
    if Parse(f.bytes, f.len).Some? {
      var rip := Parse(f.bytes, f.len).value;
      ParsedIsWellFormed(f.bytes, f.len);
      if |rip.entries| == 1 {
        SwapTwice(rip.entries[0].metric);
        SwapTwice(INFINITY);
      }
    }
  }

  /** So a packet to any own address does what the same message from the same source does by multicast. */
  lemma OwnAddressAsMulticast(t: Table, f: Frame, g: Frame, addrs: Addresses, arp: Arp, i: nat)
    requires TableOk(t) && FrameOk(f, addrs) && FrameOk(g, addrs) && Validate(f.bytes) && Validate(g.bytes)
    requires i < N_IFACE && f.bytes[16..20] == WordBytes(addrs[i]) && g.bytes[16..20] == [224, 0, 0, 9]
    requires f.ifIndex == g.ifIndex && WordAt(f.bytes, 12) == WordAt(g.bytes, 12)
    requires FitsBuffer(f.bytes, f.len) && FitsBuffer(g.bytes, g.len) && Parse(f.bytes, f.len) == Parse(g.bytes, g.len)
    ensures Received(t, f, addrs) == Received(t, g, addrs)
    ensures Replies(t, f, addrs, arp) == Replies(t, g, addrs, arp)
  {
    hide TableOk, Validate, DstIsMe, FitsBuffer, Parse, Swap, Responses, HandleEntries, Received, Replies, WordAt, WordBytes, FrameOk;
    HeardHere(t, f, addrs, arp);
    HeardHere(t, g, addrs, arp);
  }

  /** A packet that fails the checksum is dropped. */
  lemma InvalidIsDropped(t: Table, f: Frame, addrs: Addresses, arp: Arp)
    requires TableOk(t) && FrameOk(f, addrs) && !Validate(f.bytes)
    ensures Received(t, f, addrs) == t && Replies(t, f, addrs, arp) == []
  {
    hide TableOk, Validate, DstIsMe, FitsBuffer, Parse;
  }

  /** A valid packet for elsewhere leaves along the longest matching prefix exactly when its TTL allows,
      such a route exists and its next hop resolves; it leaves with TTL one less and the checksum that
      computing from scratch would give.  The table is not touched. */
  lemma ForwardedByLongestPrefix(t: Table, f: Frame, addrs: Addresses, arp: Arp, r: Route)
    requires TableOk(t) && FrameOk(f, addrs) && HasChecksum(f.bytes) && RfcValid(Header(f.bytes)) && !AddressedHere(f.bytes, addrs)
    ensures Received(t, f, addrs) == t
    ensures Best(t, Destination(f.bytes), r) ==> Replies(t, f, addrs, arp) == SentAfresh(r, f, addrs, arp)
    ensures (forall k | k in t :: !(Canonical(k.addr, k.len) && Covers(t[k], Destination(f.bytes)))) ==> Replies(t, f, addrs, arp) == []
  {
    hide RouteOk, Validate, DstIsMe, AddressedHere, RfcValid, Destination, Query, Best, Covers, Canonical, Forwarded, Resent, FitsBuffer, Longest;
    AddressedIsMe(f.bytes, addrs);
    RfcIsAccepted(f.bytes);
    ForwardIsRecomputation(f.bytes);
    QueryIsBest(t, Destination(f.bytes), r);
  }
}
