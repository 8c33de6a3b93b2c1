/** RIPv2 packets (section 4 of RFC 2453): the parser and the builder, and that they are inverse. */
module RipCodec {
  import opened Wrappers
  import opened Words
  import opened Checksum
  import opened NetBytes

  const RIP_MAX_ENTRY: nat := 25

  /** All fields in network order, as they lie in memory. */
  datatype RipEntry = RipEntry(addr: Word, mask: Word, nexthop: Word, metric: Word)
  datatype RipPacket = RipPacket(command: Byte, entries: seq<RipEntry>)

  /** The C struct: an entry count, a command and room for 25 entries. */
  class RipBuffer {
    var numEntries: nat
    var command: Byte
    const entries: array<RipEntry>

    constructor ()
      ensures fresh(entries) && entries.Length == RIP_MAX_ENTRY && numEntries == 0
    {
      entries := new RipEntry[RIP_MAX_ENTRY];
      numEntries := 0;
    }

    function View(): RipPacket
      requires numEntries <= entries.Length
      reads this, entries
    {
      RipPacket(command, entries[..numEntries])
    }
  }

  // ----- wire format -----

  function WordBytes(x: Word): (s: seq<Byte>)
    ensures |s| == 4
  {
    [B0(x), B1(x), B2(x), B3(x)]
  }

  function WordAt(b: seq<Byte>, o: nat): Word
    requires o + 4 <= |b|
  {
    FromBytes(b[o], b[o + 1], b[o + 2], b[o + 3])
  }

  function EntryHead(command: int): (s: seq<Byte>)
    ensures |s| == 4
  {
    [0, if command == 1 then 0 else 2, 0, 0]
  }

  function EncodeEntry(e: RipEntry, command: int): (s: seq<Byte>)
    ensures |s| == 20
  {
    EntryHead(command) + (WordBytes(e.addr) + (WordBytes(e.mask) + (WordBytes(e.nexthop) + WordBytes(e.metric))))
  }

  function EncodeEntries(es: seq<RipEntry>, command: int): (s: seq<Byte>)
    ensures |s| == 20 * |es|
  {
    if es == [] then [] else EncodeEntries(es[..|es| - 1], command) + EncodeEntry(es[|es| - 1], command)
  }

  function Encode(rip: RipPacket): (s: seq<Byte>)
    ensures |s| == 4 + 20 * |rip.entries|
  {
    [rip.command, 2, 0, 0] + EncodeEntries(rip.entries, rip.command)
  }

  /** What the parser demands of an entry: a metric of 1 to 16 and a contiguous mask. */
  predicate WellFormedEntry(e: RipEntry) {
    1 <= Swap(e.metric) <= 16 && Contiguous(e.mask)
  }

  predicate WellFormed(rip: RipPacket) {
    (rip.command == 1 || rip.command == 2) && forall e | e in rip.entries :: WellFormedEntry(e)
  }

  // ----- parsing -----

  function ParseEntry(b: seq<Byte>, o: nat): RipEntry
    requires o + 20 <= |b|
  {
    RipEntry(WordAt(b, o + 4), WordAt(b, o + 8), WordAt(b, o + 12), WordAt(b, o + 16))
  }

  predicate HeadOk(b: seq<Byte>, o: nat, command: int)
    requires o + 20 <= |b|
  {
    !(b[o] != 0 || (b[o + 1] != 0 && command == 1) || (b[o + 1] != 2 && command == 2) || b[o + 2] != 0 || b[o + 3] != 0)
  }

  /** The n entries from position o on, or None when one of them is bad. */
  function ParseEntries(b: seq<Byte>, o: nat, n: nat, command: int): Option<seq<RipEntry>>
    requires o + 20 * n <= |b|
    decreases n
  {
    if n == 0 then Some([])
    else
      var e := ParseEntry(b, o);
      if !HeadOk(b, o, command) || !WellFormedEntry(e) then None
      else
        var rest := ParseEntries(b, o + 20, n - 1, command);
        if rest.None? then None else Some([e] + rest.value)
  }

  /** Total length field of the IP header. */
  function TotalLength(b: seq<Byte>): nat
    requires |b| >= 4
  {
    Join(b[2], b[3])
  }

  /** Where the RIP message starts: after the IP and the UDP header. */
  function RipStart(b: seq<Byte>): nat
    requires b != []
  {
    HeaderLength(b) + 8
  }

  /** The buffer reaches past the RIP header that disassemble reads unconditionally. */
  predicate Readable(b: seq<Byte>, len: nat) {
    b != [] && RipStart(b) + 4 <= |b| && len <= |b|
  }

  /** The tests before the entry loop; the length test works on 32-bit unsigned numbers. */
  predicate HeaderAccepted(b: seq<Byte>, len: nat)
    requires Readable(b, len)
  {
    var o, total := RipStart(b), TotalLength(b);
    && total <= len && (b[o] == 1 || b[o] == 2) && b[o + 1] == 2 && b[o + 2] == 0 && b[o + 3] == 0
    && Wrap(total - (o + 4)) % 20 == 0
  }

  /** What disassemble makes of a packet. */
  function Parse(b: seq<Byte>, len: nat): Option<RipPacket>
    requires Readable(b, len)
  {
    var o, total := RipStart(b), TotalLength(b);
    if !HeaderAccepted(b, len) || total < o + 4 then None
    else
      WrapRange(total - (o + 4));
      var es := ParseEntries(b, o + 4, (total - (o + 4)) / 20, b[o]);
      if es.None? then None else Some(RipPacket(b[o], es.value))
  }

  /** The output has room for the entries: more than 25 would overrun its array. */
  predicate FitsBuffer(b: seq<Byte>, len: nat)
    requires Readable(b, len)
  {
    HeaderAccepted(b, len) ==> TotalLength(b) <= RipStart(b) + 4 + 20 * RIP_MAX_ENTRY
  }

  method MaskOk(mask: Word) returns (ok: bool)
    ensures ok == Contiguous(mask)
  {
    var m: int := Swap(mask);
    while m >= TWO_31
      invariant 0 <= m < TWO_32 && Strip(m) == Strip(Swap(mask))
      decreases m
    {
      m := 2 * m - TWO_32;
    }
    ok := m == 0;
    StripDecides(mask);
  }

  method Disassemble(packet: array<Byte>, len: nat, output: RipBuffer) returns (ok: bool)
    requires Readable(packet[..], len) && FitsBuffer(packet[..], len) && output.entries.Length == RIP_MAX_ENTRY
    modifies output, output.entries
    ensures ok == Parse(packet[..], len).Some?
    ensures ok ==> output.numEntries <= RIP_MAX_ENTRY && output.View() == Parse(packet[..], len).value
  {
    hide Swap, Contiguous;
    ghost var b := packet[..];
    var headerLen := packet[0] % 16 * 4;
    var packetLen := Join(packet[2], packet[3]);
    if packetLen > len {
      return false;
    }
    var offset := headerLen + 8;
    if packet[offset] != 1 && packet[offset] != 2 {
      return false;
    }
    output.command := packet[offset];
    if packet[offset + 1] != 2 || packet[offset + 2] != 0 || packet[offset + 3] != 0 {
      return false;
    }
    offset := offset + 4;
    if Wrap(packetLen - offset) % 20 != 0 {
      return false;
    }
    if packetLen < offset {
      output.numEntries := 0;
      return false;
    }
    assert Wrap(packetLen - offset) == packetLen - offset;
    ok := ReadEntries(packet, offset, packetLen, output);
  }

  /** One entry: its fields are stored even when the metric or the mask is then refused. */
  method TakeEntry(packet: array<Byte>, offset: nat, n: nat, output: RipBuffer) returns (ok: bool)
    requires offset + 20 <= packet.Length && n < output.entries.Length
    modifies output.entries
    ensures ok == (HeadOk(packet[..], offset, output.command) && WellFormedEntry(ParseEntry(packet[..], offset)))
    ensures output.entries[..n] == old(output.entries[..n])
    ensures ok ==> output.entries[n] == ParseEntry(packet[..], offset)
  {
    hide Swap, Contiguous, ParseEntry;
    if packet[offset] != 0 || (packet[offset + 1] != 0 && output.command == 1)
       || (packet[offset + 1] != 2 && output.command == 2) || packet[offset + 2] != 0 || packet[offset + 3] != 0 {
      return false;
    }
    var e := ReadEntry(packet, offset);
    output.entries[n] := e;
    var metric := Swap(e.metric);
    if metric < 1 || metric > 16 {
      return false;
    }
    ok := MaskOk(e.mask);
  }

  /** How one more accepted entry continues the entries read so far. */
  lemma NextEntry(b: seq<Byte>, o: nat, n: nat, command: int, before: seq<RipEntry>)
    requires o + 20 * n <= |b| && n > 0
    ensures var e, rest := ParseEntry(b, o), ParseEntries(b, o + 20, n - 1, command);
            var all := ParseEntries(b, o, n, command);
            if HeadOk(b, o, command) && WellFormedEntry(e)
            then (all.Some? <==> rest.Some?) && (rest.Some? ==> before + all.value == (before + [e]) + rest.value)
            else all == None
  {
    hide ParseEntry, HeadOk, WellFormedEntry;
  }

  /** The entry loop; it stops at the first entry that is not acceptable. */
  method ReadEntries(packet: array<Byte>, start: nat, packetLen: nat, output: RipBuffer) returns (ok: bool)
    requires start <= packetLen <= packet.Length && (packetLen - start) % 20 == 0
    requires packetLen <= start + 20 * RIP_MAX_ENTRY && output.entries.Length == RIP_MAX_ENTRY
    modifies output`numEntries, output.entries
    ensures var es := ParseEntries(packet[..], start, (packetLen - start) / 20, output.command);
            && ok == es.Some?
            && output.numEntries <= RIP_MAX_ENTRY
            && (ok ==> output.entries[..output.numEntries] == es.value)
  {
    hide ParseEntry, ParseEntries, HeadOk, WellFormedEntry;
    ghost var b, command, count := packet[..], output.command, (packetLen - start) / 20;
    ghost var all := ParseEntries(b, start, count, command);
    assert packetLen == start + 20 * count;
    var offset, n := start, 0;
    assert all.Some? ==> output.entries[..0] + all.value == all.value;
    while offset < packetLen
      invariant 0 <= n <= count && offset == start + 20 * n
      invariant var rest := ParseEntries(b, offset, count - n, command);
                all == if rest.None? then None else Some(output.entries[..n] + rest.value)
    {
      ghost var before := output.entries[..n];
      NextEntry(b, offset, count - n, command, before);
      var good := TakeEntry(packet, offset, n, output);
      if !good {
        break;
      }
      assert output.entries[..n + 1] == before + [output.entries[n]];
      offset := offset + 20;
      n := n + 1;
    }
    NoEntriesLeft(b, packetLen, command);
    output.numEntries := n;
    ok := offset == packetLen;
  }

  lemma NoEntriesLeft(b: seq<Byte>, o: nat, command: int)
    requires o <= |b|
    ensures ParseEntries(b, o, 0, command) == Some([])
  {
  }

  method ReadEntry(packet: array<Byte>, offset: nat) returns (e: RipEntry)
    requires offset + 20 <= packet.Length
    ensures e == ParseEntry(packet[..], offset)
  {
    e := RipEntry(FromBytes(packet[offset + 4], packet[offset + 5], packet[offset + 6], packet[offset + 7]),
                  FromBytes(packet[offset + 8], packet[offset + 9], packet[offset + 10], packet[offset + 11]),
                  FromBytes(packet[offset + 12], packet[offset + 13], packet[offset + 14], packet[offset + 15]),
                  FromBytes(packet[offset + 16], packet[offset + 17], packet[offset + 18], packet[offset + 19]));
  }

  // ----- building -----

  function ByteAt(x: Word, j: nat): Byte
    requires j < 4
  {
    WordBytes(x)[j]
  }

  /** The buffer b with the bytes s written at a position. */
  predicate Patched(b': seq<Byte>, b: seq<Byte>, at: nat, s: seq<Byte>) {
    at + |s| <= |b| && b' == b[..at] + s + b[at + |s|..]
  }

  lemma PatchMore(b: seq<Byte>, b': seq<Byte>, b'': seq<Byte>, at: nat, s: seq<Byte>, t: seq<Byte>)
    requires Patched(b', b, at, s) && Patched(b'', b', at + |s|, t)
    ensures Patched(b'', b, at, s + t)
  {
    assert b'[at + |s| + |t|..] == b[at + |s| + |t|..];
    assert b'[..at + |s|] == b[..at] + s;
  }

  lemma PatchIs(b: seq<Byte>, b': seq<Byte>, at: nat, s: seq<Byte>)
    requires |b'| == |b| && at + |s| <= |b|
    requires forall i | 0 <= i < at || at + |s| <= i < |b| :: b'[i] == b[i]
    requires forall i | 0 <= i < |s| :: b'[at + i] == s[i]
    ensures Patched(b', b, at, s)
  {
    assert b'[at..at + |s|] == s;
    assert b' == b'[..at] + b'[at..at + |s|] + b'[at + |s|..];
  }

  /** assemble, into the buffer from a position on. */
  method Assemble(rip: RipBuffer, buffer: array<Byte>, at: nat) returns (n: nat)
    requires rip.numEntries <= rip.entries.Length && at + 4 + 20 * rip.numEntries <= buffer.Length
    modifies buffer
    ensures n == 4 + 20 * rip.numEntries
    ensures Patched(buffer[..], old(buffer[..]), at, Encode(rip.View()))
  {
    hide Patched, EncodeEntry;
    ghost var b, command := buffer[..], rip.command;
    var num := rip.numEntries;
    ghost var es := rip.entries[..num];
    WriteHead(rip.command, buffer, at);
    var offset := 4;
    ghost var head: seq<Byte> := [command, 2, 0, 0];
    assert EncodeEntries(es[..0], command) == [];
    assert head + [] == head;
    for i := 0 to num
      invariant offset == 4 + 20 * i && rip.entries[..num] == es && rip.command == command && buffer.Length == |b|
      invariant Patched(buffer[..], b, at, head + EncodeEntries(es[..i], command))
    {
      ghost var done, current := head + EncodeEntries(es[..i], command), buffer[..];
      WriteEntry(rip.entries[i], rip.command, buffer, at + offset);
      assert es[..i + 1][..i] == es[..i] && es[i] == rip.entries[i];
      PatchMore(b, current, buffer[..], at, done, EncodeEntry(es[i], command));
      assert done + EncodeEntry(es[i], command) == head + EncodeEntries(es[..i + 1], command);
      offset := offset + 20;
    }
    assert es[..num] == es;
    n := offset;
  }

  method WriteHead(command: Byte, buffer: array<Byte>, at: nat)
    requires at + 4 <= buffer.Length
    modifies buffer
    ensures Patched(buffer[..], old(buffer[..]), at, [command, 2, 0, 0])
  {
    ghost var b := buffer[..];
    buffer[at] := command;
    buffer[at + 1] := 2;
    buffer[at + 2] := 0;
    buffer[at + 3] := 0;
    PatchIs(b, buffer[..], at, [command, 2, 0, 0]);
  }

  lemma EntryBytes(e: RipEntry, command: int, k: nat)
    requires k < 4
    ensures var t := EncodeEntry(e, command);
            t[k] == EntryHead(command)[k] && t[4 + k] == ByteAt(e.addr, k) && t[8 + k] == ByteAt(e.mask, k)
            && t[12 + k] == ByteAt(e.nexthop, k) && t[16 + k] == ByteAt(e.metric, k)
  {
    hide B0, B1, B2, B3;
  }

  /** Position i of an entry is written before round j of the loop: the head, and j bytes of each field. */
  predicate Written(i: int, j: int) {
    i < 4 || i % 4 < j
  }

  /** One entry: four fixed bytes, then byte j of each field in turn. */
  method WriteEntry(e: RipEntry, command: Byte, buffer: array<Byte>, at: nat)
    requires at + 20 <= buffer.Length
    modifies buffer
    ensures Patched(buffer[..], old(buffer[..]), at, EncodeEntry(e, command))
  {
    hide EncodeEntry, ByteAt, Patched, WordBytes;
    ghost var b, t := buffer[..], EncodeEntry(e, command);
    HeadBytes(e, command);
    buffer[at] := 0;
    buffer[at + 1] := if command == 1 then 0 else 2;
    buffer[at + 2] := 0;
    buffer[at + 3] := 0;
    var offset := at + 4;
    for j := 0 to 4
      invariant offset == at + 4 + j
      invariant forall i | 0 <= i < |b| :: buffer[i] == if at <= i < at + 20 && Written(i - at, j) then t[i - at] else b[i]
    {
      EntryBytes(e, command, j);
      WriteRound(e, j, buffer, offset);
      offset := offset + 1;
    }
    PatchIs(b, buffer[..], at, t);
  }

  lemma HeadBytes(e: RipEntry, command: Byte)
    ensures EncodeEntry(e, command)[..4] == [0, if command == 1 then 0 else 2, 0, 0]
  {
    hide WordBytes;
  }

  method WriteRound(e: RipEntry, j: nat, buffer: array<Byte>, offset: nat)
    requires j < 4 && offset + 13 <= buffer.Length
    modifies buffer
    ensures buffer[..] == old(buffer[..])[offset := ByteAt(e.addr, j)][offset + 4 := ByteAt(e.mask, j)][offset + 8 := ByteAt(e.nexthop, j)]
                                        [offset + 12 := ByteAt(e.metric, j)]
  {
    hide ByteAt;
    buffer[offset] := ByteAt(e.addr, j);
    buffer[offset + 4] := ByteAt(e.mask, j);
    buffer[offset + 8] := ByteAt(e.nexthop, j);
    buffer[offset + 12] := ByteAt(e.metric, j);
  }

  // ----- the two are inverse -----

  lemma WordAtBytes(b: seq<Byte>, o: nat)
    requires o + 4 <= |b|
    ensures WordBytes(WordAt(b, o)) == b[o..o + 4]
  {
    hide FromBytes, B0, B1, B2, B3;
    WordOfBytes(b[o], b[o + 1], b[o + 2], b[o + 3]);
  }

  lemma WordAtOf(b: seq<Byte>, o: nat, x: Word)
    requires o + 4 <= |b| && b[o..o + 4] == WordBytes(x)
    ensures WordAt(b, o) == x
  {
    hide FromBytes, B0, B1, B2, B3;
    assert b[o] == b[o..o + 4][0] && b[o + 1] == b[o..o + 4][1] && b[o + 2] == b[o..o + 4][2] && b[o + 3] == b[o..o + 4][3];
    BytesOfWord(x);
  }

  /** Twenty bytes as five words. */
  lemma FiveWords(b: seq<Byte>, o: nat, h: seq<Byte>, a: seq<Byte>, m: seq<Byte>, n: seq<Byte>, k: seq<Byte>)
    requires o + 20 <= |b| && |h| == |a| == |m| == |n| == |k| == 4
    ensures b[o..o + 20] == h + (a + (m + (n + k)))
            <==> b[o..o + 4] == h && b[o + 4..o + 8] == a && b[o + 8..o + 12] == m && b[o + 12..o + 16] == n && b[o + 16..o + 20] == k
  {
    var s := h + (a + (m + (n + k)));
    assert s[0..4] == h && s[4..8] == a && s[8..12] == m && s[12..16] == n && s[16..20] == k;
    var c := b[o..o + 20];
    SubSlice(b, o, 0);
    SubSlice(b, o, 4);
    SubSlice(b, o, 8);
    SubSlice(b, o, 12);
    SubSlice(b, o, 16);
    assert c == c[0..4] + (c[4..8] + (c[8..12] + (c[12..16] + c[16..20])));
  }

  lemma SubSlice(b: seq<Byte>, o: nat, i: nat)
    requires o + 20 <= |b| && i + 4 <= 20
    ensures b[o..o + 20][i..i + 4] == b[o + i..o + i + 4]
  {
    var x, y := b[o..o + 20][i..i + 4], b[o + i..o + i + 4];
    forall k | 0 <= k < 4 ensures x[k] == y[k] {
    }
  }

  lemma HeadIs(b: seq<Byte>, o: nat, command: int)
    requires o + 20 <= |b| && (command == 1 || command == 2)
    ensures HeadOk(b, o, command) <==> b[o..o + 4] == EntryHead(command)
  {
    assert b[o] == b[o..o + 4][0] && b[o + 1] == b[o..o + 4][1] && b[o + 2] == b[o..o + 4][2] && b[o + 3] == b[o..o + 4][3];
  }

  /** An entry's bytes determine it, and it determines them. */
  lemma EntryInverse(b: seq<Byte>, o: nat, command: int, e: RipEntry)
    requires o + 20 <= |b| && (command == 1 || command == 2)
    ensures HeadOk(b, o, command) && ParseEntry(b, o) == e <==> b[o..o + 20] == EncodeEntry(e, command)
  {
    hide WordAt, WordBytes, HeadOk, EntryHead;
    HeadIs(b, o, command);
    FiveWords(b, o, EntryHead(command), WordBytes(e.addr), WordBytes(e.mask), WordBytes(e.nexthop), WordBytes(e.metric));
    WordInverse(b, o + 4, e.addr);
    WordInverse(b, o + 8, e.mask);
    WordInverse(b, o + 12, e.nexthop);
    WordInverse(b, o + 16, e.metric);
  }

  lemma WordInverse(b: seq<Byte>, o: nat, x: Word)
    requires o + 4 <= |b|
    ensures WordAt(b, o) == x <==> b[o..o + 4] == WordBytes(x)
  {
    hide WordAt, WordBytes;
    WordAtBytes(b, o);
    if b[o..o + 4] == WordBytes(x) { WordAtOf(b, o, x); }
  }

  lemma {:induction false} EncodeFirst(es: seq<RipEntry>, command: int)
    requires es != []
    ensures EncodeEntries(es, command) == EncodeEntry(es[0], command) + EncodeEntries(es[1..], command)
    decreases |es|
  {
    hide EncodeEntry;
    var n := |es| - 1;
    if n == 0 {
      assert EncodeEntries(es[..0], command) == [] && EncodeEntries(es[1..], command) == [];
    } else {
      EncodeFirst(es[..n], command);
      assert es[..n][1..] == es[1..][..n - 1] && es[1..][n - 1] == es[n];
    }
  }

  lemma {:induction false} EntriesInverse(b: seq<Byte>, o: nat, command: int, es: seq<RipEntry>)
    requires o + 20 * |es| <= |b| && (command == 1 || command == 2)
    ensures ParseEntries(b, o, |es|, command) == Some(es)
            <==> b[o..o + 20 * |es|] == EncodeEntries(es, command) && forall e | e in es :: WellFormedEntry(e)
    decreases |es|
  {
    hide EncodeEntry, ParseEntry, HeadOk, WellFormedEntry;
    if es != [] {
      var n := |es| - 1;
      EntriesInverse(b, o + 20, command, es[1..]);
      EntryInverse(b, o, command, es[0]);
      EncodeFirst(es, command);
      var c := b[o..o + 20 * |es|];
      assert c[..20] == b[o..o + 20] && c[20..] == b[o + 20..o + 20 * |es|];
      assert c == c[..20] + c[20..];
      assert es == [es[0]] + es[1..];
    }
  }

  /** The message of a packet: from after the UDP header to its total length. */
  predicate Carries(b: seq<Byte>, len: nat, rip: RipPacket)
    requires Readable(b, len)
  {
    && TotalLength(b) <= len && TotalLength(b) == RipStart(b) + |Encode(rip)|
    && b[RipStart(b)..TotalLength(b)] == Encode(rip)
  }

  /** A message is its four leading bytes and its entries. */
  lemma EncodeParts(b: seq<Byte>, o: nat, rip: RipPacket)
    requires o + |Encode(rip)| <= |b|
    ensures b[o..o + |Encode(rip)|] == Encode(rip)
            <==> b[o] == rip.command && b[o + 1] == 2 && b[o + 2] == 0 && b[o + 3] == 0
                 && b[o + 4..o + |Encode(rip)|] == EncodeEntries(rip.entries, rip.command)
  {
    hide EncodeEntries;
    var e := Encode(rip);
    var c := b[o..o + |e|];
    assert c[..4] == [b[o], b[o + 1], b[o + 2], b[o + 3]] && c[4..] == b[o + 4..o + |e|] && c == c[..4] + c[4..];
    assert e[..4] == [rip.command, 2, 0, 0] && e[4..] == EncodeEntries(rip.entries, rip.command) && e == e[..4] + e[4..];
  }

  /** Parsing and building are exact inverses: a packet parses to rip if and only if rip is well-formed
      and the packet carries exactly the bytes that assemble makes of it. */
  lemma ParseInvertsEncode(b: seq<Byte>, len: nat, rip: RipPacket)
    requires Readable(b, len)
    ensures Parse(b, len) == Some(rip) <==> Carries(b, len, rip) && WellFormed(rip)
  {
    hide ParseEntries, EncodeEntries, WellFormedEntry, Encode;
    var o, total := RipStart(b), TotalLength(b);
    if total == o + 4 + 20 * |rip.entries| && total <= len {
      EncodeParts(b, o, rip);
      WrapRange(total - (o + 4));
      if rip.command == 1 || rip.command == 2 {
        EntriesInverse(b, o + 4, rip.command, rip.entries);
      }
    } else {
      ParsedLength(b, len, rip);
    }
  }

  // ----- the fields on the wire -----

  /** Four bytes as a number, the most significant first. */
  function NetNumber(b: seq<Byte>, o: nat): int
    requires o + 4 <= |b|
  {
    var (b0: int, b1: int, b2: int, b3: int) := (b[o], b[o + 1], b[o + 2], b[o + 3]);
    0x100_0000 * b0 + 0x1_0000 * b1 + 0x100 * b2 + b3
  }

  lemma NetNumberOf(b: seq<Byte>, o: nat, x: Word)
    requires o + 4 <= |b| && b[o..o + 4] == WordBytes(x)
    ensures NetNumber(b, o) == Swap(x)
  {
    hide B0, B1, B2, B3;
    assert b[o] == b[o..o + 4][0] && b[o + 1] == b[o..o + 4][1] && b[o + 2] == b[o..o + 4][2] && b[o + 3] == b[o..o + 4][3];
  }

  lemma {:induction false} EntrySlice(es: seq<RipEntry>, command: int, j: nat)
    requires j < |es|
    ensures EncodeEntries(es, command)[20 * j..20 * j + 20] == EncodeEntry(es[j], command)
    decreases |es|
  {
    hide EncodeEntry;
    var n := |es| - 1;
    var all, init := EncodeEntries(es, command), EncodeEntries(es[..n], command);
    assert all == init + EncodeEntry(es[n], command);
    if j < n {
      EntrySlice(es[..n], command, j);
      assert all[20 * j..20 * j + 20] == init[20 * j..20 * j + 20];
    }
  }

  /** The layout of section 4 of RFC 2453: command, version 2 and two zero bytes; then for each entry the address
      family, 0 in a request and 2 for IP in a response, a zero route tag, and address, mask, next hop and metric,
      each with its most significant byte first. */
  lemma WireFormat(rip: RipPacket, j: nat)
    requires j < |rip.entries|
    ensures var s, o, e := Encode(rip), 4 + 20 * j, rip.entries[j];
            && s[..4] == [rip.command, 2, 0, 0]
            && s[o..o + 4] == [0, if rip.command == 1 then 0 else 2, 0, 0]
            && NetNumber(s, o + 4) == Swap(e.addr) && NetNumber(s, o + 8) == Swap(e.mask)
            && NetNumber(s, o + 12) == Swap(e.nexthop) && NetNumber(s, o + 16) == Swap(e.metric)
  {
    hide EncodeEntries, WordBytes, NetNumber;
    var s, o, e := Encode(rip), 4 + 20 * j, rip.entries[j];
    EntrySlice(rip.entries, rip.command, j);
    assert s[o..o + 20] == EncodeEntries(rip.entries, rip.command)[20 * j..20 * j + 20] == EncodeEntry(e, rip.command);
    FiveWords(s, o, EntryHead(rip.command), WordBytes(e.addr), WordBytes(e.mask), WordBytes(e.nexthop), WordBytes(e.metric));
    NetNumberOf(s, o + 4, e.addr);
    NetNumberOf(s, o + 8, e.mask);
    NetNumberOf(s, o + 12, e.nexthop);
    NetNumberOf(s, o + 16, e.metric);
  }

  lemma {:induction false} ParsedCount(b: seq<Byte>, o: nat, n: nat, command: int)
    requires o + 20 * n <= |b|
    ensures ParseEntries(b, o, n, command).Some? ==> |ParseEntries(b, o, n, command).value| == n
    decreases n
  {
    hide ParseEntry, HeadOk, WellFormedEntry;
    if n > 0 { ParsedCount(b, o + 20, n - 1, command); }
  }

  lemma ParsedLength(b: seq<Byte>, len: nat, rip: RipPacket)
    requires Readable(b, len)
    ensures Parse(b, len) == Some(rip) ==> TotalLength(b) == RipStart(b) + 4 + 20 * |rip.entries| <= len
  {
    hide ParseEntries;
    var o, total := RipStart(b), TotalLength(b);
    if Parse(b, len) == Some(rip) {
      WrapRange(total - (o + 4));
      ParsedCount(b, o + 4, (total - (o + 4)) / 20, b[o]);
    }
  }
}
