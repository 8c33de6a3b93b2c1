/** Forwarding a packet: TTL decrement with the incremental checksum update of RFC 1624, Eqn. 3. */
module Forwarding {
  import opened Wrappers
  import opened Words
  import opened Checksum

  /** The packet after forward(): TTL, checksum high and low byte change. */
  function Forwarded(b: seq<Byte>): seq<Byte>
    requires |b| >= 12
  {
    var c := NewChecksum(b);
    b[8 := OneLess(b[8])][10 := c / 256][11 := c % 256]
  }

  /** uint8_t decrement. */
  function OneLess(ttl: int): Byte {
    (ttl - 1) % 256
  }

  function NewChecksum(b: seq<Byte>): (c: int)
    requires |b| >= 12
    ensures 0 <= c <= 0xFFFF
  {
    FoldIsResidue(Increment(b));
    0xFFFF - Fold(Increment(b))
  }

  /** ~HC + ~m + m' before folding. */
  function Increment(b: seq<Byte>): (x: nat)
    requires |b| >= 12
  {
    (0xFFFF - Join(b[10], b[11])) + (0xFFFF - Join(b[8], b[9])) + Join(OneLess(b[8]), b[9])
  }

  /** forward: an invalid header is left alone. */
  method Forward(packet: array<Byte>) returns (ok: bool)
    requires packet.Length >= 12 && HeaderLength(packet[..]) <= packet.Length
    modifies packet
    ensures ok == Validate(old(packet[..]))
    ensures packet[..] == if ok then Forwarded(old(packet[..])) else old(packet[..])
  {
    ok := ValidateIpChecksum(packet);
    if !ok {
      return;
    }
    ghost var b := packet[..];
    var oldTtlProto := Join(packet[8], packet[9]);
    var oldChecksum := Join(packet[10], packet[11]);
    packet[8] := OneLess(packet[8]);
    var newTtlProto := Join(packet[8], packet[9]);
    var newChecksum: int := (0xFFFF - oldChecksum) + (0xFFFF - oldTtlProto) + newTtlProto;
    while newChecksum > 0xFFFF
      invariant 0 <= newChecksum && Fold(newChecksum) == Fold(Increment(b))
      decreases newChecksum
    {
      newChecksum := newChecksum / 0x1_0000 + newChecksum % 0x1_0000;
    }
    newChecksum := 0xFFFF - newChecksum;
    packet[11] := newChecksum % 256;
    packet[10] := newChecksum / 256;
  }

  // ----- the header's sum -----

  /** The word sum of the header after three bytes change. */
  lemma SumAfter(h: seq<Byte>, t: Byte, high: Byte, low: Byte)
    requires |h| % 2 == 0 && |h| >= 12
    ensures SumBe(h[8 := t][10 := high][11 := low])
            == SumBe(h) - Join(h[8], h[9]) + Join(t, h[9]) - Field(h, 10) + Join(high, low)
  {
    SumUpdate(h, 8, t);
    SumUpdate(h[8 := t], 10, high);
    SumUpdate(h[8 := t][10 := high], 11, low);
  }

  function Header(b: seq<Byte>): seq<Byte>
    requires b != [] && HeaderLength(b) <= |b|
  {
    b[..HeaderLength(b)]
  }

  predicate HasChecksum(b: seq<Byte>) {
    b != [] && 12 <= HeaderLength(b) <= |b|
  }

  lemma HeaderUpdate(b: seq<Byte>, t: Byte, high: Byte, low: Byte)
    requires HasChecksum(b)
    ensures var b' := b[8 := t][10 := high][11 := low];
            HasChecksum(b') && Header(b') == Header(b)[8 := t][10 := high][11 := low]
  {
  }

  /** Forwarding keeps the header's sum modulo 65535, whatever the header. */
  lemma ForwardKeepsSum(b: seq<Byte>)
    requires HasChecksum(b)
    ensures HasChecksum(Forwarded(b))
    ensures SumBe(Header(b)) > 0 && SumBe(Header(Forwarded(b))) > 0
    ensures (SumBe(Header(Forwarded(b))) - SumBe(Header(b))) % 0xFFFF == 0
  {
    var c, x := NewChecksum(b), Increment(b);
    HeaderUpdate(b, OneLess(b[8]), c / 256, c % 256);
    SumAfter(Header(b), OneLess(b[8]), c / 256, c % 256);
    SumBePositive(Header(b));
    SumBePositive(Header(Forwarded(b)));
    FoldIsResidue(x);
    var q := (x - 1) / 0xFFFF;
    assert x == 0xFFFF * q + Fold(x);
    assert Join(c / 256, c % 256) == c;
    assert SumBe(Header(Forwarded(b))) - SumBe(Header(b)) == (q - 1) * 0xFFFF;
    AddModulus(0, q - 1, 0xFFFF);
  }

  lemma RfcValidIs(h: seq<Byte>)
    requires SumBe(h) > 0
    ensures RfcValid(h) <==> SumBe(h) % 0xFFFF == 0
  {
    FoldIsResidue(SumBe(h));
    ResidueEqual(SumBe(h), 0xFFFF);
    AddModulus(SumBe(h), -1, 0xFFFF);
  }

  lemma Congruent(x: int, y: int, m: int)
    requires m > 0 && (x - y) % m == 0
    ensures x % m == y % m
  {
    AddModulus(y, (x - y) / m, m);
  }

  lemma ValidateIs(b: seq<Byte>)
    requires HasChecksum(b)
    ensures Validate(b) <==> SumBe(Header(b)) % 255 == 0
  {
    var k := BytesAndWords(Header(b));
    AddModulus(ByteSum(Header(b)), k, 255);
  }

  /** Forwarding neither repairs nor breaks a header: both tests give the same answer afterwards. */
  lemma ForwardKeepsValidity(b: seq<Byte>)
    requires HasChecksum(b)
    ensures HasChecksum(Forwarded(b))
    ensures RfcValid(Header(Forwarded(b))) <==> RfcValid(Header(b))
    ensures Validate(Forwarded(b)) <==> Validate(b)
  {
    ForwardKeepsSum(b);
    var s: int := SumBe(Header(b));
    var s': int := SumBe(Header(Forwarded(b)));
    RfcValidIs(Header(b));
    RfcValidIs(Header(Forwarded(b)));
    ValidateIs(b);
    ValidateIs(Forwarded(b));
    Congruent(s', s, 0xFFFF);
    SplitModulus(s' - s);
    Congruent(s', s, 255);
  }

  // ----- recomputation -----

  /** The packet with the TTL set and the checksum computed from scratch. */
  function Resent(b: seq<Byte>, ttl: Byte): (r: seq<Byte>)
    requires HasChecksum(b)
    ensures |r| == |b|
  {
    Recomputed(b[8 := ttl], 0, HeaderLength(b))
  }

  /** The incremental update stores what recomputation would exactly when the header was RFC-valid;
      old checksums 0x0000 and 0xFFFF and a TTL of 0 are no exception. */
  lemma ForwardIsRecomputation(b: seq<Byte>)
    requires HasChecksum(b)
    ensures Forwarded(b) == Resent(b, OneLess(b[8])) <==> RfcValid(Header(b))
  {
    hide SumBe, Fold;
    var t := OneLess(b[8]);
    var h := Header(b);
    var x, rest := Increment(b), SumBe(h[8 := t][10 := 0][11 := 0]);
    var c, d := NewChecksum(b), ChecksumOf(h[8 := t][10 := 0][11 := 0]);
    assert Forwarded(b) == Resent(b, t) <==> c == d by {
      assert Forwarded(b)[10] == c / 256 && Forwarded(b)[11] == c % 256;
      assert Resent(b, t)[10] == d / 256 && Resent(b, t)[11] == d % 256;
    }
    SumAfter(h, t, 0, 0);
    SumBePositive(h);
    SumBePositive(h[8 := t][10 := 0][11 := 0]);
    FoldIsResidue(x);
    FoldIsResidue(rest);
    ResidueEqual(x, rest);
    var difference: int := x as int - rest as int;
    assert difference == 2 * 0xFFFF - SumBe(h) as int;
    NegateModulus(SumBe(h));
    RfcValidIs(h);
  }

  lemma NegateModulus(s: int)
    ensures (2 * 0xFFFF - s) % 0xFFFF == 0 <==> s % 0xFFFF == 0
  {
  }

  // ----- along a chain of routers -----

  /** The packet reaches past the fields that change and past its header, of any length. */
  predicate Whole(b: seq<Byte>) {
    |b| >= 12 && HeaderLength(b) <= |b|
  }

  lemma ForwardKeepsWhole(b: seq<Byte>)
    requires Whole(b)
    ensures Whole(Forwarded(b)) && Forwarded(b)[8] == OneLess(b[8])
  {
    hide Fold;
  }

  /** What one router sends on: nothing for an invalid header or an expired TTL. */
  function Hop(b: seq<Byte>): Option<seq<Byte>>
    requires Whole(b)
  {
    if !Validate(b) || b[8] <= 1 then None else Some(Forwarded(b))
  }

  function Hops(b: seq<Byte>, n: nat): Option<seq<Byte>>
    requires Whole(b)
    decreases n
  {
    if n == 0 then Some(b)
    else
      var b1 := Hop(b);
      if b1.None? then None
      else
        ForwardKeepsWhole(b);
        Hops(b1.value, n - 1)
  }

  /** A packet is sent on at most TTL - 1 times, and as long as it travels its header is valid, its TTL
      has dropped by one per hop, and it is byte for byte the original with that TTL and the checksum
      computed from scratch. */
  lemma {:induction false} ChainOfRouters(b: seq<Byte>, n: nat)
    requires HasChecksum(b) && RfcValid(Header(b)) && n >= 1 && Hops(b, n).Some?
    ensures n <= b[8] - 1
    ensures var b' := Hops(b, n).value;
            HasChecksum(b') && RfcValid(Header(b')) && b' == Resent(b, b[8] - n)
    decreases n
  {
    hide RfcValid, Validate, NewChecksum, Resent, Header;
    var b1 := Forwarded(b);
    ForwardKeepsSum(b);
    ForwardKeepsValidity(b);
    ForwardIsRecomputation(b);
    if n == 1 {
      assert Hops(b1, 0) == Some(b1);
    } else {
      ChainOfRouters(b1, n - 1);
      ResentAgain(b, b[8] - 1, b[8] - n);
    }
  }

  lemma ResentAgain(b: seq<Byte>, t: Byte, u: Byte)
    requires HasChecksum(b)
    ensures HasChecksum(Resent(b, t)) && Resent(Resent(b, t), u) == Resent(b, u)
  {
    var c := ChecksumOf(Header(b)[8 := t][10 := 0][11 := 0]);
    HeaderUpdate(b, t, c / 256, c % 256);
    assert Header(Resent(b, t))[8 := u][10 := 0][11 := 0] == Header(b)[8 := u][10 := 0][11 := 0];
  }

  /** The bound on hops needs only the router's own test, whatever the header's length and checksum. */
  lemma {:induction false} HopsBounded(b: seq<Byte>, n: nat)
    requires Whole(b) && n >= 1 && Hops(b, n).Some?
    ensures n <= b[8] - 1
    decreases n
  {
    hide Validate, NewChecksum;
    if n > 1 {
      ForwardKeepsWhole(b);
      HopsBounded(Forwarded(b), n - 1);
    }
  }
}
