/** The routing table: exact-match updates and longest-prefix queries on network-order addresses. */
module Lookup {
  import opened Wrappers
  import opened Words
  import opened NetBytes

  datatype RouterKey = RouterKey(addr: Word, len: nat)
  datatype Route = Route(addr: Word, len: nat, ifIndex: nat, nexthop: Word, metric: Word)
  type Table = map<RouterKey, Route>

  function KeyOf(r: Route): RouterKey {
    RouterKey(r.addr, r.len)
  }

  /** Every route is stored under its own prefix. */
  predicate Keyed(t: Table) {
    forall k | k in t :: KeyOf(t[k]) == k
  }

  /** A legal network prefix: no bit set after the first len. */
  predicate Canonical(addr: Word, len: nat) {
    len <= 32 && Masked(addr, len) == addr
  }

  predicate CanonicalTable(t: Table) {
    forall k | k in t :: Canonical(k.addr, k.len)
  }

  /** The route's first len network bits are those of the address. */
  predicate Covers(r: Route, addr: Word) {
    r.len <= 32 && Prefix(r.addr, r.len) == Prefix(addr, r.len)
  }

  function Updated(t: Table, insert: bool, entry: Route): Table {
    if insert then t[KeyOf(entry) := entry] else t - {KeyOf(entry)}
  }

  /** The first hit among the lengths n - 1 down to 0. */
  function QueryBelow(t: Table, addr: Word, n: nat): Option<Route>
    requires n <= 33
  {
    if n == 0 then None
    else
      var key := RouterKey(Masked(addr, n - 1), n - 1);
      if key in t then Some(t[key]) else QueryBelow(t, addr, n - 1)
  }

  function Query(t: Table, addr: Word): Option<Route> {
    QueryBelow(t, addr, 33)
  }

  class RoutingTable {
    var routes: Table

    constructor ()
      ensures routes == map[]
    {
      routes := map[];
    }

    method Update(insert: bool, entry: Route)
      modifies this
      ensures routes == Updated(old(routes), insert, entry)
      ensures KeyOf(entry) in routes <==> insert
      ensures insert ==> routes[KeyOf(entry)] == entry
      ensures forall k | k != KeyOf(entry) :: (k in routes <==> k in old(routes)) && (k in routes ==> routes[k] == old(routes)[k])
    {
      var key := RouterKey(entry.addr, entry.len);
      if insert {
        routes := routes[key := entry];
      } else if key in routes {
        routes := routes - {key};
      }
    }

    method PrefixQuery(addr: Word) returns (found: bool, nexthop: Word, ifIndex: nat)
      ensures match Query(routes, addr)
              case Some(r) => found && nexthop == r.nexthop && ifIndex == r.ifIndex
              case None => !found && nexthop == 0 && ifIndex == 0
    {
      hide Masked;
      var len: int := 32;
      while len >= 0
        invariant -1 <= len <= 32 && Query(routes, addr) == QueryBelow(routes, addr, len + 1)
      {
        var key := RouterKey(Masked(addr, len), len);
        if key in routes {
          return true, routes[key].nexthop, routes[key].ifIndex;
        }
        len := len - 1;
      }
      return false, 0, 0;
    }
  }

  // ----- the answer is the longest matching prefix -----

  /** No covering route with a legal prefix is longer. */
  predicate Longest(t: Table, addr: Word, r: Route) {
    forall k | k in t :: Canonical(k.addr, k.len) && Covers(t[k], addr) ==> k.len <= r.len
  }

  /** The route is stored, has a legal prefix, covers the address and is the longest such. */
  predicate Best(t: Table, addr: Word, r: Route) {
    KeyOf(r) in t && t[KeyOf(r)] == r && Canonical(r.addr, r.len) && Covers(r, addr) && Longest(t, addr, r)
  }

  /** A legal prefix covers an address exactly when masking the address gives the prefix. */
  lemma CoversIsMasked(r: Route, addr: Word)
    requires r.len <= 32
    ensures Canonical(r.addr, r.len) && Covers(r, addr) <==> Masked(addr, r.len) == r.addr
  {
    hide Masked, Prefix;
    MaskedIffPrefix(r.addr, addr, r.len);
    MaskedTwice(addr, r.len);
  }

  lemma {:induction false} HitBelow(t: Table, addr: Word, n: nat)
    requires n <= 33
    ensures match QueryBelow(t, addr, n)
            case Some(r) =>
              (exists len :: 0 <= len < n && len <= 32 && RouterKey(Masked(addr, len), len) in t && t[RouterKey(Masked(addr, len), len)] == r
                 && forall l | len < l < n :: l <= 32 && RouterKey(Masked(addr, l), l) !in t)
            case None => forall len | 0 <= len < n :: len <= 32 && RouterKey(Masked(addr, len), len) !in t
    decreases n
  {
    hide Masked;
    if n > 0 { HitBelow(t, addr, n - 1); }
  }

  /** For every table and address, the answer is the longest of the routes with a legal prefix that
      cover the address, and there is no answer exactly when no such route exists. */
  lemma QueryIsBest(t: Table, addr: Word, r: Route)
    requires Keyed(t)
    ensures Query(t, addr) == Some(r) <==> Best(t, addr, r)
    ensures Query(t, addr) == None <==> forall k | k in t :: !(Canonical(k.addr, k.len) && Covers(t[k], addr))
  {
    hide Masked, Canonical, Covers, QueryBelow;
    HitBelow(t, addr, 33);
    forall k | k in t && k.len <= 32
      ensures Canonical(k.addr, k.len) && Covers(t[k], addr) <==> Masked(addr, k.len) == k.addr
    {
      CoversIsMasked(t[k], addr);
    }
    CanonicalLength(t, addr);
  }

  lemma CanonicalLength(t: Table, addr: Word)
    ensures forall k | k in t && Canonical(k.addr, k.len) :: k.len <= 32
  {
  }

  /** A route with host bits set in its address is never the answer to any query. */
  lemma HostBitsAreDead(t: Table, addr: Word, r: Route)
    requires Keyed(t) && Query(t, addr) == Some(r)
    ensures Canonical(r.addr, r.len)
  {
    hide Masked, QueryBelow;
    QueryIsBest(t, addr, r);
  }

  // ----- runs of updates -----

  datatype UpdateOp = UpdateOp(insert: bool, entry: Route)

  function AfterUpdates(ops: seq<UpdateOp>): Table {
    if ops == [] then map[]
    else Updated(AfterUpdates(ops[..|ops| - 1]), ops[|ops| - 1].insert, ops[|ops| - 1].entry)
  }

  /** An update touches the key of its entry only: absent after a delete, holding the entry after an insert. */
  lemma UpdateIs(t: Table, insert: bool, entry: Route)
    ensures var t' := Updated(t, insert, entry);
            && (KeyOf(entry) in t' <==> insert) && (insert ==> t'[KeyOf(entry)] == entry)
            && forall k | k != KeyOf(entry) :: (k in t' <==> k in t) && (k in t ==> t'[k] == t[k])
  {
  }

  /** Operation i is the last one on the key. */
  predicate IsLast(ops: seq<UpdateOp>, k: RouterKey, i: int) {
    0 <= i < |ops| && KeyOf(ops[i].entry) == k && forall j | i < j < |ops| :: KeyOf(ops[j].entry) != k
  }

  /** The route that the last operation on its key inserted. */
  predicate Live(ops: seq<UpdateOp>, r: Route) {
    exists i :: 0 <= i < |ops| && IsLast(ops, KeyOf(r), i) && ops[i] == UpdateOp(true, r)
  }

  /** The table holds the live routes, each under its own key, and nothing else. */
  ghost predicate Reflects(t: Table, ops: seq<UpdateOp>) {
    && (forall k | k in t :: KeyOf(t[k]) == k && Live(ops, t[k]))
    && forall r: Route | Live(ops, r) :: KeyOf(r) in t && t[KeyOf(r)] == r
  }

  /** After any run of operations a key is present if and only if the last operation on it was an insert, and
      then it holds the entry of that operation. */
  lemma {:induction false} UpdatesReflect(ops: seq<UpdateOp>)
    ensures Reflects(AfterUpdates(ops), ops)
    decreases |ops|
  {
    hide Updated, Reflects;
    if ops == [] {
      NothingLive();
    } else {
      var n := |ops| - 1;
      UpdatesReflect(ops[..n]);
      UpdateIs(AfterUpdates(ops[..n]), ops[n].insert, ops[n].entry);
      OneMoreReflects(AfterUpdates(ops[..n]), AfterUpdates(ops), ops);
    }
  }

  lemma NothingLive()
    ensures Reflects(map[], [])
  {
  }

  lemma LastNext(ops: seq<UpdateOp>, k: RouterKey, i: int)
    requires ops != []
    ensures var n := |ops| - 1;
            IsLast(ops, k, i) <==> if k == KeyOf(ops[n].entry) then i == n else IsLast(ops[..n], k, i)
  {
    hide KeyOf;
    var n := |ops| - 1;
    if 0 <= i < n && IsLast(ops[..n], k, i) && k != KeyOf(ops[n].entry) {
      forall j | i < j < |ops| ensures KeyOf(ops[j].entry) != k { assert j < n ==> ops[..n][j] == ops[j]; }
    }
  }

  lemma LiveNext(ops: seq<UpdateOp>, r: Route)
    requires ops != []
    ensures var n := |ops| - 1;
            Live(ops, r) <==> if KeyOf(r) == KeyOf(ops[n].entry) then ops[n] == UpdateOp(true, r) else Live(ops[..n], r)
  {
    hide KeyOf, IsLast;
    var n := |ops| - 1;
    LastNext(ops, KeyOf(r), n);
    if Live(ops, r) {
      var i :| 0 <= i < |ops| && IsLast(ops, KeyOf(r), i) && ops[i] == UpdateOp(true, r);
      LastNext(ops, KeyOf(r), i);
    }
    if Live(ops[..n], r) {
      var i :| 0 <= i < n && IsLast(ops[..n], KeyOf(r), i) && ops[..n][i] == UpdateOp(true, r);
      LastNext(ops, KeyOf(r), i);
    }
  }

  lemma OneMoreReflects(t: Table, t': Table, ops: seq<UpdateOp>)
    requires ops != [] && Reflects(t, ops[..|ops| - 1])
    requires var op := ops[|ops| - 1];
             && (KeyOf(op.entry) in t' <==> op.insert) && (op.insert ==> t'[KeyOf(op.entry)] == op.entry)
             && forall k | k != KeyOf(op.entry) :: (k in t' <==> k in t) && (k in t ==> t'[k] == t[k])
    ensures Reflects(t', ops)
  {
    hide Live;
    forall r: Route
      ensures var n := |ops| - 1;
              Live(ops, r) <==> if KeyOf(r) == KeyOf(ops[n].entry) then ops[n] == UpdateOp(true, r) else Live(ops[..n], r)
    {
      LiveNext(ops, r);
    }
  }

  /** Callers insert legal prefixes only. */
  predicate LegalOps(ops: seq<UpdateOp>) {
    forall op | op in ops :: op.insert ==> Canonical(op.entry.addr, op.entry.len)
  }

  lemma {:induction false} UpdatesKeep(ops: seq<UpdateOp>)
    ensures Keyed(AfterUpdates(ops))
    ensures LegalOps(ops) ==> CanonicalTable(AfterUpdates(ops))
    decreases |ops|
  {
    hide Canonical;
    if ops != [] { UpdatesKeep(ops[..|ops| - 1]); }
  }

  /** The reference: look at every route, keep a longer match than the best so far. */
  function Scan(rs: seq<Route>, addr: Word): Option<Route> {
    if rs == [] then None
    else
      var best, r := Scan(rs[..|rs| - 1], addr), rs[|rs| - 1];
      if Covers(r, addr) && (best == None || best.value.len < r.len) then Some(r) else best
  }

  /** The routes of a table, in any order. */
  ghost predicate Lists(rs: seq<Route>, t: Table) {
    forall r: Route :: r in rs <==> KeyOf(r) in t && t[KeyOf(r)] == r
  }

  lemma {:induction false} ScanIs(rs: seq<Route>, addr: Word)
    ensures match Scan(rs, addr)
            case Some(r) => r in rs && Covers(r, addr) && forall s | s in rs && Covers(s, addr) :: s.len <= r.len
            case None => forall s | s in rs :: !Covers(s, addr)
    decreases |rs|
  {
    hide Covers;
    if rs != [] {
      ScanIs(rs[..|rs| - 1], addr);
      assert rs == rs[..|rs| - 1] + [rs[|rs| - 1]];
    }
  }

  /** On a table of legal prefixes, a query answers what a scan of the whole table answers, in whatever
      order the table is scanned. */
  lemma CanonicalScan(t: Table, rs: seq<Route>, addr: Word)
    requires Keyed(t) && CanonicalTable(t) && Lists(rs, t)
    ensures Query(t, addr) == Scan(rs, addr)
  {
    hide Covers, Canonical, QueryBelow, Scan;
    ScanIs(rs, addr);
    assert forall k | k in t :: t[k] in rs;
    if Scan(rs, addr).Some? {
      QueryIsBest(t, addr, Scan(rs, addr).value);
    } else {
      QueryIsBest(t, addr, Route(0, 0, 0, 0, 0));
    }
  }

  /** So after any updates with legal prefixes a query answers what a scan of the routes answers that were
      inserted and not since replaced or deleted. */
  lemma QueryRefinesScan(ops: seq<UpdateOp>, rs: seq<Route>, addr: Word)
    requires LegalOps(ops) && forall r: Route :: r in rs <==> Live(ops, r)
    ensures Query(AfterUpdates(ops), addr) == Scan(rs, addr)
  {
    hide Query, Scan, AfterUpdates, Live;
    UpdatesKeep(ops);
    UpdatesReflect(ops);
    CanonicalScan(AfterUpdates(ops), rs, addr);
  }
}
