/**
  The bytes on the wire, position by position: what a header looks like when it is written, and what any
  accepted bytes are read as. Nothing here refers to the functions that encode and decode, except to
  say that they agree with it.
 */
module WireFormat {
  import opened Arithmetic
  import opened Bits
  import Fragments
  import opened Packets

  /** A 16-bit word of which the low byte comes first. */
  function LowFirst(lo: int, hi: int): int {
    lo + 256 * hi
  }

  // ---- The packet header as it is written ----

  /** How far the acknowledged sequence is behind the packet's own. */
  function AckDistance(h: PacketHeader): int {
    (h.sequence - h.ack) % 65536
  }

  /** Bits 0, 6 and 7 are clear, bits 1 to 4 are set for the acknowledgement bytes that are not 0xFF, lowest
      byte first, and bit 5 for an acknowledged sequence at most 255 behind. */
  ghost predicate IsPrefix(prefix: u8, h: PacketHeader) {
    && prefix % 2 == 0 && prefix < 64
    && (prefix / 2 % 2 == 1 <==> h.ackBits % 256 != 0xFF)
    && (prefix / 4 % 2 == 1 <==> h.ackBits / 0x100 % 256 != 0xFF)
    && (prefix / 8 % 2 == 1 <==> h.ackBits / 0x1_0000 % 256 != 0xFF)
    && (prefix / 16 % 2 == 1 <==> h.ackBits / 0x100_0000 != 0xFF)
    && (prefix / 32 == 1 <==> AckDistance(h) <= 255)
  }

  /** The lowest `k` bytes of a word, lowest first, without those that are 0xFF. */
  function Significant(word: nat, k: nat): seq<u8> {
    if k == 0 then []
    else (if word % 256 != 0xFF then [word % 256] else []) + Significant(word / 256, k - 1)
  }

  /** One byte of distance, or the acknowledged sequence low byte first. */
  ghost predicate IsAck(bytes: seq<u8>, h: PacketHeader) {
    if AckDistance(h) <= 255 then |bytes| == 1 && bytes[0] == AckDistance(h)
    else |bytes| == 2 && LowFirst(bytes[0], bytes[1]) == h.ack
  }

  /** Prefix, sequence low byte first, and ack. */
  ghost predicate IsFront(bytes: seq<u8>, h: PacketHeader) {
    && |bytes| >= 3
    && IsPrefix(bytes[0], h)
    && LowFirst(bytes[1], bytes[2]) == h.sequence
    && IsAck(bytes[3..], h)
  }

  function FrontLength(h: PacketHeader): nat {
    if AckDistance(h) <= 255 then 4 else 5
  }

  /** The front, and behind it the significant acknowledgement bytes. */
  ghost predicate IsHeader(bytes: seq<u8>, h: PacketHeader) {
    && |bytes| >= FrontLength(h)
    && IsFront(bytes[..FrontLength(h)], h)
    && bytes[FrontLength(h)..] == Significant(h.ackBits, 4)
  }

  lemma QuotientOfQuotient(x: nat)
    ensures x / 256 / 256 == x / 0x1_0000 && x / 256 / 256 / 256 == x / 0x100_0000
  {
  }

  lemma AckBytes(bits: u32)
    ensures AckByte(bits, 0) == bits % 256 && AckByte(bits, 1) == bits / 0x100 % 256
    ensures AckByte(bits, 2) == bits / 0x1_0000 % 256 && AckByte(bits, 3) == bits / 0x100_0000
  {
    QuotientOfQuotient(bits);
  }

  lemma PrefixIsWritten(h: PacketHeader)
    ensures IsPrefix(PrefixByte(HeaderFlags(h)), h)
  {
    AckBytes(h.ackBits);
    PrefixRoundTrip(HeaderFlags(h));
  }

  lemma SignificantIsElided(bits: u32)
    ensures Significant(bits, 4) == BitsField(AckByte(bits, 0), AckByte(bits, 1), AckByte(bits, 2), AckByte(bits, 3))
  {
    var x1 := bits / 256;
    var x2 := x1 / 256;
    var x3 := x2 / 256;
    assert Significant(x3, 1) == Elided(x3) + Significant(x3 / 256, 0) == Elided(x3);
    assert Significant(x2, 2) == Elided(x2 % 256) + Significant(x3, 1);
    assert Significant(x1, 3) == Elided(x1 % 256) + Significant(x2, 2);
    assert Significant(bits, 4) == Elided(bits % 256) + Significant(x1, 3);
  }

  lemma LowByteFirst(x: u16)
    ensures |ToLeBytes(x)| == 2 && LowFirst(ToLeBytes(x)[0], ToLeBytes(x)[1]) == x
  {
  }

  lemma AckIsWritten(h: PacketHeader)
    ensures IsAck(AckField(h), h)
  {
    LowByteFirst(h.ack);
  }

  lemma FrontOfParts(prefix: u8, sequence: seq<u8>, ack: seq<u8>, h: PacketHeader)
    requires IsPrefix(prefix, h) && |sequence| == 2 && LowFirst(sequence[0], sequence[1]) == h.sequence && IsAck(ack, h)
    ensures IsFront([prefix] + sequence + ack, h)
  {
    assert ([prefix] + sequence + ack)[3..] == ack;
  }

  lemma FrontIsWritten(h: PacketHeader)
    ensures IsFront([PrefixByte(HeaderFlags(h))] + ToLeBytes(h.sequence) + AckField(h), h)
  {
    PrefixIsWritten(h);
    LowByteFirst(h.sequence);
    AckIsWritten(h);
    FrontOfParts(PrefixByte(HeaderFlags(h)), ToLeBytes(h.sequence), AckField(h), h);
  }

  lemma FrontAndBits(front: seq<u8>, field: seq<u8>, h: PacketHeader)
    requires IsFront(front, h) && field == Significant(h.ackBits, 4)
    ensures IsHeader(front + field, h)
  {
    assert (front + field)[..|front|] == front && (front + field)[|front|..] == field;
  }

  /** A header is written with these bytes. */
  lemma HeaderIsWritten(h: PacketHeader)
    ensures IsHeader(Encode(h), h)
  {
    FrontIsWritten(h);
    SignificantIsElided(h.ackBits);
    FrontAndBits([PrefixByte(HeaderFlags(h))] + ToLeBytes(h.sequence) + AckField(h),
                 BitsField(AckByte(h.ackBits, 0), AckByte(h.ackBits, 1), AckByte(h.ackBits, 2), AckByte(h.ackBits, 3)), h);
  }

  lemma PrefixBits(a: u8)
    requires a % 2 == 0 && a < 64
    ensures a == 2 * (a / 2 % 2) + 4 * (a / 4 % 2) + 8 * (a / 8 % 2) + 16 * (a / 16 % 2) + 32 * (a / 32)
  {
    assert a / 2 / 2 == a / 4 && a / 4 / 2 == a / 8 && a / 8 / 2 == a / 16 && a / 16 / 2 == a / 32;
  }

  lemma SamePrefix(a: u8, b: u8, h: PacketHeader)
    requires IsPrefix(a, h) && IsPrefix(b, h)
    ensures a == b
  {
    PrefixBits(a);
    PrefixBits(b);
  }

  lemma SameWord(a: u8, b: u8, c: u8, d: u8)
    requires LowFirst(a, b) == LowFirst(c, d)
    ensures a == c && b == d
  {
  }

  lemma SameAck(a: seq<u8>, b: seq<u8>, h: PacketHeader)
    requires IsAck(a, h) && IsAck(b, h)
    ensures a == b
  {
    if AckDistance(h) > 255 { SameWord(a[0], a[1], b[0], b[1]); }
  }

  lemma SameBytes(a: seq<u8>, b: seq<u8>)
    requires |a| >= 3 && |b| >= 3 && a[0] == b[0] && a[1] == b[1] && a[2] == b[2] && a[3..] == b[3..]
    ensures a == b
  {
    assert a == [a[0], a[1], a[2]] + a[3..] && b == [a[0], a[1], a[2]] + b[3..];
  }

  lemma SameFront(a: seq<u8>, b: seq<u8>, h: PacketHeader)
    requires IsFront(a, h) && IsFront(b, h)
    ensures a == b
  {
    SamePrefix(a[0], b[0], h);
    SameWord(a[1], a[2], b[1], b[2]);
    SameAck(a[3..], b[3..], h);
    SameBytes(a, b);
  }

  /** And with no others. */
  lemma HeaderIsUnique(bytes: seq<u8>, h: PacketHeader)
    ensures IsHeader(bytes, h) <==> bytes == Encode(h)
  {
    HeaderIsWritten(h);
    if IsHeader(bytes, h) {
      var n, other := FrontLength(h), Encode(h);
      SameFront(bytes[..n], other[..n], h);
      assert bytes == bytes[..n] + bytes[n..] && other == other[..n] + other[n..];
    }
  }

  // ---- What accepted bytes are read as ----

  /** The length of a header that starts with `prefix`. */
  function Length(prefix: u8): nat {
    AckBitsStart(prefix) + AnnouncedCount(prefix)
  }

  function AnnouncedCount(prefix: u8): nat {
    prefix / 2 % 2 + prefix / 4 % 2 + prefix / 8 % 2 + prefix / 16 % 2
  }

  function AckBitsStart(prefix: u8): nat {
    if prefix / 32 % 2 == 1 then 4 else 5
  }

  ghost predicate IsReadable(data: seq<u8>) {
    |data| >= 3 && data[0] % 2 == 0 && Length(data[0]) <= |data|
  }

  /** The byte at `pos`, if it was announced; else all ones. */
  function Announced(data: seq<u8>, pos: nat, announced: nat): u8
    requires announced == 1 ==> pos < |data|
  {
    if announced == 1 then data[pos] else 0xFF
  }

  /** The acknowledgement bytes from `p`, as far as the prefix announces them. */
  ghost predicate BitsReadAs(data: seq<u8>, p: nat, prefix: u8, bits: u32)
    requires p + AnnouncedCount(prefix) <= |data|
  {
    var (b0, b1, b2, b3) := (prefix / 2 % 2, prefix / 4 % 2, prefix / 8 % 2, prefix / 16 % 2);
    bits == Announced(data, p, b0) + 0x100 * Announced(data, p + b0, b1)
            + 0x1_0000 * Announced(data, p + b0 + b1, b2) + 0x100_0000 * Announced(data, p + b0 + b1 + b2, b3)
  }

  ghost predicate ReadsAs(data: seq<u8>, h: PacketHeader)
    requires IsReadable(data)
  {
    && h.sequence == LowFirst(data[1], data[2])
    && h.ack == (if data[0] / 32 % 2 == 1 then (h.sequence - data[3]) % 65536 else LowFirst(data[3], data[4]))
    && BitsReadAs(data, AckBitsStart(data[0]), data[0], h.ackBits)
  }

  lemma BitsAreRead(data: seq<u8>, p: nat, prefix: u8)
    requires p <= |data|
    ensures var read := ReadBits(data, p, FlagsOf(prefix));
      if p + AnnouncedCount(prefix) > |data| then read == None
      else read.Some? && read.value.1 == p + AnnouncedCount(prefix) && BitsReadAs(data, p, prefix, read.value.0)
  {
  }

  /** Exactly the readable bytes are accepted as a header, which takes as many of them as its prefix says. */
  lemma HeaderIsRead(data: seq<u8>)
    ensures Decode(data).Some? <==> IsReadable(data)
    ensures Decode(data).Some? ==> Decode(data).value.1 == Length(data[0]) && ReadsAs(data, Decode(data).value.0)
  {
    if |data| >= 3 && |data| >= AckBitsStart(data[0]) {
      BitsAreRead(data, AckBitsStart(data[0]), data[0]);
    }
  }

  // ---- The fragment header ----

  /** The fragment mark, the sequence low byte first, the fragment's id and the count. */
  function FragmentHeaderBytes(sequence: u16, id: u8, count: u8): seq<u8> {
    [1, sequence % 256, sequence / 256, id, count]
  }

  lemma FragmentHeaderIsWritten(h: Fragments.FragmentHeader)
    ensures Fragments.EncodeFragment(h) == FragmentHeaderBytes(h.sequence, h.id, h.count)
  {
  }

  lemma FragmentHeaderIsRead(data: seq<u8>)
    ensures IsFragmentPacket(data) <==> data != [] && data[0] % 2 == 1
    ensures Fragments.DecodeFragment(data) ==
      if |data| < 5 || data[0] % 2 == 0 then None
      else Some((Fragments.FragmentHeader(LowFirst(data[1], data[2]), data[3], data[4]), 5))
  {
  }
}
