/** IP header checksums: validation, generation in two byte orders, and the incremental update. */
module Checksum {
  import opened Words

  type Byte = x: int | 0 <= x < 256

  // ----- sums and folding -----

  function ByteSum(h: seq<Byte>): nat {
    if h == [] then 0 else ByteSum(h[..|h| - 1]) + h[|h| - 1]
  }

  /** Sum of big-endian 16-bit words; an odd last byte is ignored. */
  function SumBe(h: seq<Byte>): nat
    decreases |h|
  {
    if |h| < 2 then 0 else 256 * h[0] + h[1] + SumBe(h[2..])
  }

  function SumLe(h: seq<Byte>): nat
    decreases |h|
  {
    if |h| < 2 then 0 else h[0] + 256 * h[1] + SumLe(h[2..])
  }

  /** End-around carry until the value fits 16 bits. */
  function Fold(x: nat): nat {
    if x > 0xFFFF then Fold(x / 0x1_0000 + x % 0x1_0000) else x
  }

  /** The representative of x modulo m in 1..m, or 0 for 0. */
  function Residue(x: nat, m: nat): nat
    requires m > 0
  {
    if x == 0 then 0 else 1 + (x - 1) % m
  }

  lemma AddModulus(x: int, k: int, m: int)
    requires m > 0
    ensures (x + k * m) % m == x % m
  {
    ModUnique(x + k * m, x / m + k, x % m, m) by {
      assert (x / m + k) * m + x % m == x + k * m by {
        assert (x / m) * m + x % m == x;
        assert (x / m + k) * m == (x / m) * m + k * m;
      }
    }
  }

  lemma ModUnique(x: int, q: int, r: int, m: int)
    requires m > 0 && x == q * m + r && 0 <= r < m
    ensures x % m == r
  {
    var q', r' := x / m, x % m;
    assert x == q' * m + r';
    MulGap(q - q', m);
    assert (q - q') * m == q * m - q' * m;
  }

  lemma MulGap(k: int, m: int)
    requires m > 0
    ensures k >= 1 ==> k * m >= m
    ensures k <= -1 ==> k * m <= -m
  {
  }

  /** Folding is reduction modulo 65535 that keeps 65535 apart from 0. */
  lemma {:induction false} FoldIsResidue(x: nat)
    ensures Fold(x) == Residue(x, 0xFFFF) <= 0xFFFF
    decreases x
  {
    if x > 0xFFFF {
      var y := x / 0x1_0000 + x % 0x1_0000;
      FoldIsResidue(y);
      AddModulus(y - 1, x / 0x1_0000, 0xFFFF);
    }
  }

  /** Equal residues are congruence, for positive numbers. */
  lemma ResidueEqual(x: nat, y: nat)
    requires x > 0 && y > 0
    ensures Residue(x, 0xFFFF) == Residue(y, 0xFFFF) <==> (x - y) % 0xFFFF == 0
  {
    var m := 0xFFFF;
    assert (x - 1) == ((x - 1) / m) * m + (x - 1) % m;
    assert (y - 1) == ((y - 1) / m) * m + (y - 1) % m;
    var r := (x - 1) % m - (y - 1) % m;
    AddModulus(r, (x - 1) / m - (y - 1) / m, m);
    assert x - y == r + ((x - 1) / m - (y - 1) / m) * m;
  }

  // ----- validation -----

  function HeaderLength(b: seq<Byte>): nat
    requires b != []
  {
    4 * (b[0] % 16)
  }

  /** What validateIPChecksum computes. */
  predicate Validate(b: seq<Byte>)
    requires b != [] && HeaderLength(b) <= |b|
  {
    HeaderLength(b) > 0 && ByteSum(b[..HeaderLength(b)]) % 255 == 0
  }

  /** The one's complement sum of RFC 1071 over the header is 0xFFFF. */
  predicate RfcValid(h: seq<Byte>) {
    Fold(SumBe(h)) == 0xFFFF
  }

  lemma {:induction false} ByteSumFirst(h: seq<Byte>)
    requires h != []
    ensures ByteSum(h) >= h[0]
    decreases |h|
  {
    if |h| > 1 { ByteSumFirst(h[..|h| - 1]); }
  }

  method ValidateIpChecksum(packet: array<Byte>) returns (ok: bool)
    requires packet.Length > 0 && HeaderLength(packet[..]) <= packet.Length
    ensures ok == Validate(packet[..])
  {
    var headLen := packet[0] % 16 * 4;
    var sum: int := 0;
    ghost var q := 0;
    for i := 0 to headLen
      invariant 0 <= sum <= 255
      invariant ByteSum(packet[..i]) == sum + 255 * q && q >= 0
      invariant sum == 0 ==> ByteSum(packet[..i]) == 0
    {
      assert packet[..i + 1][..i] == packet[..i];
      sum := sum + packet[i];
      while sum > 0xFF
        invariant 0 <= sum <= 510
        invariant ByteSum(packet[..i + 1]) == sum + 255 * q && q >= 0
        invariant sum == 0 ==> ByteSum(packet[..i + 1]) == 0
        decreases sum
      {
        q := q + sum / 256;
        sum := sum / 256 + sum % 256;
      }
    }
    ok := sum == 0xFF;
    assert packet[..][..headLen] == packet[..headLen];
    if headLen > 0 { ByteSumFirst(packet[..headLen]); }
  }

  /** 256 is 1 modulo 255, so the byte sum and the word sum are congruent. */
  lemma {:induction false} BytesAndWords(h: seq<Byte>) returns (k: int)
    requires |h| % 2 == 0
    ensures SumBe(h) == ByteSum(h) + 255 * k
    decreases |h|
  {
    if h == [] {
      k := 0;
    } else {
      k := BytesAndWords(h[2..]);
      ByteSumSplit(h, 2);
      assert h[..2] == [h[0], h[1]];
      ByteSumTwo(h[0], h[1]);
      k := k + h[0];
    }
  }

  lemma ByteSumTwo(a: Byte, b: Byte)
    ensures ByteSum([a, b]) == a + b
  {
    assert [a, b][..1] == [a] && [a][..0] == [];
    assert ByteSum([a]) == a;
  }

  lemma {:induction false} ByteSumSplit(h: seq<Byte>, i: nat)
    requires i <= |h|
    ensures ByteSum(h) == ByteSum(h[..i]) + ByteSum(h[i..])
    decreases |h|
  {
    if i < |h| {
      var n := |h| - 1;
      ByteSumSplit(h[..n], i);
      assert h[..n][..i] == h[..i] && h[..n][i..] == h[i..][..|h[i..]| - 1];
    } else {
      assert h[..i] == h && h[i..] == [];
    }
  }

  lemma {:induction false} SumBePositive(h: seq<Byte>)
    requires |h| >= 2 && h[0] > 0
    ensures SumBe(h) > 0
  {
  }

  /** A multiple of 255 times a multiple of 257. */
  lemma SplitModulus(x: int)
    ensures x % 0xFFFF == 0 <==> x % 255 == 0 && x % 257 == 0
  {
    if x % 255 == 0 && x % 257 == 0 {
      var a, b := x / 255, x / 257;
      assert x == 255 * a && x == 257 * b;
      assert a % 257 == 0 by {
        assert 255 * a == 257 * b;
        assert a == 257 * (128 * b - 127 * a) by { assert 255 * (128 * b - 127 * a) == 255 * 128 * b - 255 * 127 * a; }
      }
    }
  }

  /** The byte-wise test is the RFC 1071 test without its factor 257: every header that passes the RFC
      test passes, and one that passes is RFC-valid exactly when its word sum is a multiple of 257. */
  lemma ValidateAndRfc(b: seq<Byte>)
    requires b != [] && 0 < HeaderLength(b) <= |b|
    ensures var h := b[..HeaderLength(b)];
            RfcValid(h) <==> Validate(b) && SumBe(h) % 257 == 0
  {
    var h := b[..HeaderLength(b)];
    var k := BytesAndWords(h);
    SumBePositive(h);
    FoldIsResidue(SumBe(h));
    ResidueEqual(SumBe(h), 0xFFFF);
    AddModulus(SumBe(h), -1, 0xFFFF);
    SplitModulus(SumBe(h));
    AddModulus(ByteSum(h), k, 255);
  }

  /** Not every accepted header is RFC-valid. */
  lemma AcceptedButInvalid() returns (b: seq<Byte>)
    ensures |b| == 20 && HeaderLength(b) == 20 && Validate(b) && !RfcValid(b)
  {
    var z: seq<Byte> := seq(16, i => 0);
    var tail: seq<Byte> := [186, 0] + z;
    b := [0x45, 0] + tail;
    ZeroSums(z);
    ByteSumTwo(0x45, 0);
    ByteSumTwo(186, 0);
    ByteSumSplit(b, 2);
    ByteSumSplit(tail, 2);
    assert b[..2] == [0x45, 0] && b[2..] == tail && tail[..2] == [186, 0] && tail[2..] == z;
    assert SumBe(tail) == 256 * 186;
    assert SumBe(b) == 65280;
    assert b[..20] == b;
  }

  lemma {:induction false} ZeroSums(z: seq<Byte>)
    requires forall i | 0 <= i < |z| :: z[i] == 0
    ensures ByteSum(z) == 0 && SumBe(z) == 0
    decreases |z|
  {
    if z != [] {
      ZeroSums(z[..|z| - 1]);
      if |z| >= 2 { ZeroSums(z[2..]); }
    }
  }

  // ----- generation -----

  function Join(high: int, low: int): int {
    256 * high + low
  }

  /** calChecksum over little-endian words: 32-bit accumulation, then folding and complement. */
  method CalChecksum(packet: array<Byte>, at: nat, numBytes: nat) returns (r: int)
    requires at + numBytes <= packet.Length && numBytes <= 0x2_0000
    ensures r == 0xFFFF - Fold(SumLe(packet[at..at + numBytes]))
    ensures 0 <= r <= 0xFFFF
  {
    var n := numBytes / 2;
    var sum: int := 0;
    ghost var h := packet[at..at + numBytes];
    assert h[0..] == h;
    for i := 0 to n
      invariant 0 <= sum <= i * 0xFFFF
      invariant sum + SumLe(h[2 * i..]) == SumLe(h)
    {
      assert h[2 * i..][2..] == h[2 * (i + 1)..];
      sum := Wrap(sum + Join(packet[at + 2 * i + 1], packet[at + 2 * i]));
    }
    assert SumLe(h[2 * n..]) == 0;
    while sum > 0xFFFF
      invariant 0 <= sum && Fold(sum) == Fold(SumLe(h))
      decreases sum
    {
      sum := sum % 0x1_0000 + sum / 0x1_0000;
    }
    r := 0xFFFF - sum;
  }

  /** The header with its checksum field cleared. */
  function Cleared(b: seq<Byte>, at: nat): seq<Byte>
    requires at + 12 <= |b|
  {
    b[at + 10 := 0][at + 11 := 0]
  }

  function WithChecksum(b: seq<Byte>, at: nat, high: int, low: int): seq<Byte>
    requires at + 12 <= |b| && 0 <= high < 256 && 0 <= low < 256
  {
    b[at + 10 := high][at + 11 := low]
  }

  /** The one's complement of the folded sum, stored in network order. */
  function ChecksumOf(h: seq<Byte>): (c: int)
    ensures 0 <= c <= 0xFFFF
  {
    FoldIsResidue(SumBe(h));
    0xFFFF - Fold(SumBe(h))
  }

  /** Recomputing the checksum of the n-byte header at a position. */
  function Recomputed(b: seq<Byte>, at: nat, n: nat): seq<Byte>
    requires at + 12 <= |b| && at + n <= |b|
  {
    var c := ChecksumOf(Cleared(b, at)[at..at + n]);
    WithChecksum(b, at, c / 256, c % 256)
  }

  /** Swapping the bytes of a 16-bit word is multiplication by 256 modulo 65535. */
  function SwapBytes(x: int): int {
    x % 256 * 256 + x / 256
  }

  lemma {:induction false} SumsSwap(h: seq<Byte>) returns (k: int)
    ensures 256 * SumBe(h) == SumLe(h) + 0xFFFF * k
    decreases |h|
  {
    if |h| < 2 {
      k := 0;
    } else {
      k := SumsSwap(h[2..]);
      k := k + h[0];
    }
  }

  lemma {:induction false} ZeroTogether(h: seq<Byte>)
    ensures SumBe(h) == 0 <==> SumLe(h) == 0
    decreases |h|
  {
    if |h| >= 2 { ZeroTogether(h[2..]); }
  }

  /** The folded little-endian sum is the byte swap of the folded big-endian sum. */
  lemma FoldsSwap(h: seq<Byte>)
    ensures Fold(SumLe(h)) == SwapBytes(Fold(SumBe(h)))
  {
    FoldIsResidue(SumBe(h));
    FoldIsResidue(SumLe(h));
    ZeroTogether(h);
    if SumBe(h) > 0 {
      var k := SumsSwap(h);
      SwapArithmetic(SumBe(h), SumLe(h), k);
    }
  }

  lemma SwapArithmetic(x: nat, y: nat, k: int)
    requires x > 0 && y > 0 && 256 * x == y + 0xFFFF * k
    ensures Residue(y, 0xFFFF) == SwapBytes(Residue(x, 0xFFFF))
  {
    var f := Residue(x, 0xFFFF);
    var q := (x - 1) / 0xFFFF;
    assert x == 0xFFFF * q + f && 1 <= f <= 0xFFFF;
    AddModulus(y - 1, k - 256 * q - f / 256, 0xFFFF);
    assert SwapBytes(f) - 1 == y - 1 + (k - 256 * q - f / 256) * 0xFFFF;
  }

  /** calIpChksum on little-endian words stores the recomputed network-order checksum. */
  method CalIpChksum(packet: array<Byte>, at: nat)
    requires at + 12 <= packet.Length && at + HeaderLength(packet[at..]) <= packet.Length
    modifies packet
    ensures packet[..] == Recomputed(old(packet[..]), at, HeaderLength(old(packet[at..])))
  {
    hide SumBe, SumLe, Fold;
    ghost var b := packet[..];
    var n := packet[at] % 16 * 4;
    packet[at + 10] := 0;
    packet[at + 11] := 0;
    assert packet[..] == Cleared(b, at);
    ghost var h := Cleared(b, at)[at..at + n];
    assert packet[at..at + n] == h;
    var c := CalChecksum(packet, at, n);
    FoldsSwap(h);
    FoldIsResidue(SumBe(h));
    ComplementSwap(Fold(SumBe(h)));
    packet[at + 10] := c % 256;
    packet[at + 11] := c / 256;
  }

  lemma ComplementSwap(f: int)
    requires 0 <= f <= 0xFFFF
    ensures var c := 0xFFFF - SwapBytes(f); c % 256 == (0xFFFF - f) / 256 && c / 256 == (0xFFFF - f) % 256
  {
    assert 0xFFFF - SwapBytes(f) == (255 - f / 256) + 256 * (255 - f % 256);
    assert 0xFFFF - f == (255 - f % 256) + 256 * (255 - f / 256);
  }

  /** The generator's fold: one carry at a time. */
  method FoldByOnes(sum: nat) returns (checksum: int)
    ensures checksum == Fold(sum)
    ensures 0 <= checksum <= 0xFFFF
  {
    checksum := sum;
    FoldIsResidue(sum);
    while checksum >= 0x1_0000
      invariant 0 <= checksum && Residue(checksum, 0xFFFF) == Fold(sum)
      decreases checksum
    {
      AddModulus(checksum - 1, -1, 0xFFFF);
      checksum := checksum - 0x1_0000;
      checksum := checksum + 1;
    }
  }

  /** update_ip_checksum of the data generator: the header follows 18 bytes of Ethernet framing, words
      are big-endian, and the carry is added one at a time.  It stores the same bytes as calIpChksum. */
  method UpdateIpChecksum(data: array<Byte>)
    requires data.Length >= 30 && 18 + HeaderLength(data[18..]) <= data.Length
    requires data[16] == 8 && data[17] == 0
    modifies data
    ensures data[..] == Recomputed(old(data[..]), 18, HeaderLength(old(data[18..])))
  {
    hide Fold;
    ghost var b := data[..];
    data[28] := 0;
    data[29] := 0;
    assert data[..] == Cleared(b, 18);
    var len := data[18] % 16 * 2;
    ghost var h := Cleared(b, 18)[18..18 + 2 * len];
    assert data[18..18 + 2 * len] == h && h[0..] == h;
    var checksum: int := 0;
    for i := 0 to len
      invariant 0 <= checksum && checksum + SumBe(h[2 * i..]) == SumBe(h)
    {
      assert h[2 * i..][2..] == h[2 * (i + 1)..];
      checksum := checksum + Join(data[18 + 2 * i], data[18 + 2 * i + 1]);
    }
    checksum := FoldByOnes(checksum);
    data[28] := 255 - checksum / 256;
    data[29] := 255 - checksum % 256;
  }

  // ----- the checksum makes the header valid -----

  /** How the word sum changes with one byte. */
  lemma {:induction false} SumUpdate(h: seq<Byte>, i: nat, v: Byte)
    requires |h| % 2 == 0 && i < |h|
    ensures SumBe(h[i := v]) == SumBe(h) + (v - h[i]) * (if i % 2 == 0 then 256 else 1)
    decreases |h|
  {
    if i >= 2 {
      assert h[i := v][2..] == h[2..][i - 2 := v];
      SumUpdate(h[2..], i - 2, v);
    } else {
      assert h[i := v][2..] == h[2..];
    }
  }

  /** The sum over everything but the checksum field, and the field itself. */
  function Field(h: seq<Byte>, i: nat): int
    requires i + 1 < |h|
  {
    Join(h[i], h[i + 1])
  }

  lemma SumWithout(h: seq<Byte>)
    requires |h| % 2 == 0 && |h| >= 12 && h[0] > 0
    ensures SumBe(h[10 := 0][11 := 0]) == SumBe(h) - Field(h, 10) > 0
  {
    SumUpdate(h, 10, 0);
    SumUpdate(h[10 := 0], 11, 0);
    SumBePositive(h[10 := 0][11 := 0]);
  }

  /** A header is RFC-valid exactly when its checksum field is what recomputation stores. */
  lemma ValidIffRecomputed(h: seq<Byte>)
    requires |h| % 2 == 0 && |h| >= 12 && h[0] > 0
    ensures RfcValid(h) <==> Field(h, 10) % 0xFFFF == ChecksumOf(h[10 := 0][11 := 0]) % 0xFFFF
    ensures Field(h, 10) == ChecksumOf(h[10 := 0][11 := 0]) ==> RfcValid(h)
  {
    hide SumBe, Fold;
    var rest, c := SumBe(h[10 := 0][11 := 0]), Field(h, 10);
    SumWithout(h);
    FoldIsResidue(rest);
    FoldIsResidue(rest + c);
    SumIsFull(rest, c);
  }

  lemma SumIsFull(rest: nat, c: nat)
    requires rest > 0
    ensures Residue(rest + c, 0xFFFF) == 0xFFFF <==> c % 0xFFFF == (0xFFFF - Residue(rest, 0xFFFF)) % 0xFFFF
  {
    var m := 0xFFFF;
    var f, q := Residue(rest, m), (rest - 1) / m;
    assert rest == m * q + f && 1 <= f <= m;
    var r, p := c % m, c / m;
    assert c == m * p + r && 0 <= r < m;
    AddModulus(f + r - 1, q + p, m);
    assert rest + c - 1 == f + r - 1 + (q + p) * m;
  }
}
