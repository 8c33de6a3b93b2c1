/** One router hearing another's whole table: advertising, the wire format, receiving and the routing
    table together amount to one round of distance-vector relaxation. */
module Exchange {
  import opened Wrappers
  import opened Words
  import opened Checksum
  import opened NetBytes
  import opened RipCodec
  import opened Lookup
  import opened RipTable
  import opened Advertise

  /** The table after a run of frames. */
  function ReceivedAll(t: Table, fs: seq<Frame>, addrs: Addresses): Table
    requires forall f | f in fs :: FrameOk(f, addrs)
    decreases |fs|
  {
    if fs == [] then t else ReceivedAll(Received(t, fs[0], addrs), fs[1..], addrs)
  }

  /** The frames arrive on one interface. */
  predicate ArriveOn(fs: seq<Frame>, arrival: nat) {
    forall f | f in fs :: f.ifIndex == arrival
  }

  lemma {:induction false} HandleAppend(t: Table, es: seq<RipEntry>, ds: seq<RipEntry>, src: Word, arrival: nat)
    ensures HandleEntries(t, es + ds, src, arrival) == HandleEntries(HandleEntries(t, es, src, arrival), ds, src, arrival)
    decreases |ds|
  {
    hide HandleEntry;
    if ds == [] {
      assert es + ds == es;
    } else {
      var n := |ds| - 1;
      assert (es + ds)[..|es + ds| - 1] == es + ds[..n];
      HandleAppend(t, es, ds[..n], src, arrival);
    }
  }

  /** Splitting the advertisement into datagrams changes nothing at the receiver. */
  lemma {:induction false} BatchesAreHandled(t: Table, fs: seq<Frame>, saddr: Word, i: nat, es: seq<RipEntry>, addrs: Addresses, arrival: nat)
    requires AllWellFormed(es) && Carried(fs, ResponsesOf(saddr, i, Batches(es))) && ArriveOn(fs, arrival)
    ensures forall f | f in fs :: FrameOk(f, addrs)
    ensures ReceivedAll(t, fs, addrs) == HandleEntries(t, es, saddr, arrival)
    decreases |es|
  {
    hide WellFormedEntry, Message, FrameOk, Holds, Packet, Source, Batches, ResponsesOf, HandleEntries;
    BatchesAreRead(fs, saddr, i, es, addrs);
    if es != [] {
      FirstBatch(saddr, i, es);
      var b := if |es| <= RIP_MAX_ENTRY then es else es[..RIP_MAX_ENTRY];
      assert Holds(fs[0], Packet(saddr, RipPacket(2, b)));
      PacketIsRead(fs[0], saddr, RipPacket(2, b), addrs);
      BatchesAreHandled(Received(t, fs[0], addrs), fs[1..], saddr, i, es[|b|..], addrs, arrival);
      HandleAppend(t, b, es[|b|..], saddr, arrival);
    } else {
      NoBatches(saddr, i);
      NoEntries(t, saddr, arrival);
    }
  }

  lemma NoEntries(t: Table, saddr: Word, arrival: nat)
    ensures HandleEntries(t, [], saddr, arrival) == t
  {
  }

  predicate DistinctKeys(es: seq<RipEntry>) {
    forall a, b | 0 <= a < b < |es| :: EntryKey(es[a]) != EntryKey(es[b])
  }

  /** Two tables agree on a prefix. */
  predicate SameAt(t: Table, u: Table, k: RouterKey) {
    (k in t <==> k in u) && (k in t ==> t[k] == u[k])
  }

  lemma EntryIsLocal(t: Table, u: Table, e: RipEntry, src: Word, arrival: nat, k: RouterKey)
    requires EntryKey(e).addr == e.addr
    ensures k != EntryKey(e) ==> SameAt(HandleEntry(t, e, src, arrival), t, k)
    ensures SameAt(t, u, k) ==> SameAt(HandleEntry(t, e, src, arrival), HandleEntry(u, e, src, arrival), k)
  {
    hide EntryKey, EntryMetric;
  }

  /** Entries for different prefixes are independent: each prefix fares as if its own entry were the only one. */
  lemma {:induction false} EntriesAt(t: Table, es: seq<RipEntry>, src: Word, arrival: nat, k: RouterKey)
    requires DistinctKeys(es)
    ensures forall j | 0 <= j < |es| && EntryKey(es[j]) == k ::
              SameAt(HandleEntries(t, es, src, arrival), HandleEntry(t, es[j], src, arrival), k)
    ensures (forall j | 0 <= j < |es| :: EntryKey(es[j]) != k) ==> SameAt(HandleEntries(t, es, src, arrival), t, k)
    decreases |es|
  {
    hide HandleEntry, SameAt;
    SameHere(t, k);
    if es != [] {
      var n := |es| - 1;
      var t1 := HandleEntries(t, es[..n], src, arrival);
      EntriesAt(t, es[..n], src, arrival, k);
      KeyAddr(es[n]);
      hide EntryKey;
      EntryIsLocal(t1, t, es[n], src, arrival, k);
      SameTrans(HandleEntry(t1, es[n], src, arrival), t1, t, k);
      forall j | 0 <= j < n && EntryKey(es[j]) == k
        ensures SameAt(HandleEntries(t, es, src, arrival), HandleEntry(t, es[j], src, arrival), k)
      {
        assert es[..n][j] == es[j];
        SameTrans(HandleEntry(t1, es[n], src, arrival), t1, HandleEntry(t, es[j], src, arrival), k);
      }
    }
  }

  lemma KeyAddr(e: RipEntry)
    ensures EntryKey(e).addr == e.addr
  {
  }

  lemma SameHere(t: Table, k: RouterKey)
    ensures SameAt(t, t, k)
  {
  }

  lemma SameTrans(t: Table, u: Table, w: Table, k: RouterKey)
    ensures SameAt(t, u, k) && SameAt(u, w, k) ==> SameAt(t, w, k)
  {
  }

  /** The distance a neighbour offers on interface i: one hop more than its own, or infinity when it has
      no route or reaches the prefix through that interface itself. */
  function Offered(t: Table, k: RouterKey, i: nat): Word {
    if k !in t || t[k].ifIndex == i || t[k].metric >= 15 then INFINITY else t[k].metric + 1
  }

  /** After hearing a neighbour's whole table, of any size and over any number of datagrams, the distance
      of every prefix is relaxed once with what the neighbour offers; prefixes the neighbour does not
      know keep their distance. */
  lemma FullExchange(sender: Table, saddrs: Addresses, i: nat, t: Table, fs: seq<Frame>, addrs: Addresses, arrival: nat, k: RouterKey)
    requires TableOk(sender) && TableOk(t) && i < N_IFACE && arrival < N_IFACE
    requires Carried(fs, Responses(sender, saddrs, i)) && ArriveOn(fs, arrival)
    ensures forall f | f in fs :: FrameOk(f, addrs)
    ensures var t' := ReceivedAll(t, fs, addrs);
            TableOk(t') && Distance(t', k) == if k in sender then Relax(t, k, saddrs[i], Offered(sender, k, i)) else Distance(t, k)
  {
    hide TableOk, Carried, Batches, ResponsesOf, FrameOk, Received, HandleEntries, HandleEntry, Relax, EntryKey, EntryMetric, Swap, WellFormedEntry, AdvertOf, Order;
    var es, keys := Advert(sender, i), Order(sender.Keys);
    AdvertIsTable(sender, i);
    BatchesAreHandled(t, fs, saddrs[i], i, es, addrs, arrival);
    EntriesAt(t, es, saddrs[i], arrival, k);
    EntriesKeep(t, es, saddrs[i], arrival, addrs);
    if k in sender {
      var j :| 0 <= j < |keys| && keys[j] == k;
      OfferedMetric(sender, k, i, es[j]);
      EntryRelaxes(t, es[j], saddrs[i], arrival, k);
    }
  }

  lemma OfferedMetric(t: Table, k: RouterKey, i: nat, e: RipEntry)
    requires TableOk(t) && k in t && WellFormedEntry(e)
    requires Swap(e.metric) == if t[k].ifIndex == i then INFINITY else t[k].metric
    ensures EntryMetric(e) == Offered(t, k, i)
  {
    hide WellFormedEntry, Swap;
    MetricRange(e);
  }

  /** For a prefix the sender knows, the receiver's table fares as with the one entry for it. */
  lemma HeardRoute(t: Table, sender: Table, i: nat, src: Word, arrival: nat, k: RouterKey)
    requires TableOk(sender) && k in sender && i < N_IFACE
    ensures SameAt(HandleEntries(t, Advert(sender, i), src, arrival), HandleEntry(t, AdvertEntry(sender[k], i), src, arrival), k)
  {
    hide HandleEntries, HandleEntry, EntryKey, Swap, WellFormedEntry, Order, SameAt, AdvertEntry;
    assert RouteOk(sender[k]);
    var es, keys := Advert(sender, i), Order(sender.Keys);
    AdvertIsTable(sender, i);
    EntriesAt(t, es, src, arrival, k);
    var j :| 0 <= j < |keys| && keys[j] == k;
    assert es[j] == AdvertEntry(sender[k], i);
  }

  lemma {:induction false} TableGrows(t: Table, es: seq<RipEntry>, src: Word, arrival: nat)
    ensures |HandleEntries(t, es, src, arrival)| <= |t| + |es|
    decreases |es|
  {
    hide HandleEntry;
    if es != [] {
      var n := |es| - 1;
      TableGrows(t, es[..n], src, arrival);
      EntryGrows(HandleEntries(t, es[..n], src, arrival), es[n], src, arrival);
    }
  }

  lemma EntryGrows(t: Table, e: RipEntry, src: Word, arrival: nat)
    ensures |HandleEntry(t, e, src, arrival)| <= |t| + 1
  {
    hide EntryKey, EntryMetric;
    var t', k := HandleEntry(t, e, src, arrival), EntryKey(e);
    assert t'.Keys <= t.Keys + {k};
    SubsetSize(t'.Keys, t.Keys + {k});
  }

  lemma {:induction false} SubsetSize(a: set<RouterKey>, b: set<RouterKey>)
    requires a <= b
    ensures |a| <= |b|
    decreases |a|
  {
    if a != {} {
      var x :| x in a;
      SubsetSize(a - {x}, b - {x});
    }
  }
}
