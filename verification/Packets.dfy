/** The variable-length packet header of src/packet.rs. */
module Packets {
  import opened Arithmetic
  import opened Bits
  import opened Sequence

  const MAX_PACKET_HEADER_BYTES := 9

  datatype PacketHeader = PacketHeader(sequence: u16, ack: u16, ackBits: u32)

  /** What the prefix byte announces: which acknowledgement bytes follow, and a one-byte ack. */
  datatype Flags = Flags(byte0: bool, byte1: bool, byte2: bool, byte3: bool, shortAck: bool)

  // ---- Little-endian pieces ----

  function ToLeBytes(x: u16): seq<u8> {
    [x % 256, x / 256]
  }

  function FromLeBytes(lo: u8, hi: u8): u16 {
    lo + 256 * hi
  }

  /** Byte `k` of the acknowledgement word, least significant first: `(bits >> 8 * k) & 0xFF`. */
  function AckByte(bits: u32, k: nat): u8
    requires k < 4
  {
    match k
    case 0 => bits % 256
    case 1 => bits / 256 % 256
    case 2 => bits / 256 / 256 % 256
    case 3 => bits / 256 / 256 / 256
  }

  function AckWord(b0: u8, b1: u8, b2: u8, b3: u8): u32 {
    b0 + 256 * (b1 + 256 * (b2 + 256 * b3))
  }

  lemma AckWordOfBytes(bits: u32)
    ensures AckWord(AckByte(bits, 0), AckByte(bits, 1), AckByte(bits, 2), AckByte(bits, 3)) == bits
  {
    var x1 := bits / 256;
    var x2 := x1 / 256;
    var x3 := x2 / 256;
    assert bits == bits % 256 + 256 * x1 && x1 == x1 % 256 + 256 * x2 && x2 == x2 % 256 + 256 * x3;
  }

  lemma BytesOfAckWord(b0: u8, b1: u8, b2: u8, b3: u8)
    ensures var bits := AckWord(b0, b1, b2, b3);
      AckByte(bits, 0) == b0 && AckByte(bits, 1) == b1 && AckByte(bits, 2) == b2 && AckByte(bits, 3) == b3
  {
    var w2 := b2 + 256 * b3;
    var w1 := b1 + 256 * w2;
    var bits := b0 + 256 * w1;
    assert bits / 256 == w1 && w1 / 256 == w2 && w2 / 256 == b3;
  }

  lemma LeBytesRoundTrip(x: u16)
    ensures FromLeBytes(ToLeBytes(x)[0], ToLeBytes(x)[1]) == x
  {
  }

  lemma SubtractTwice(a: u16, b: u16)
    ensures WrappingSub(a, WrappingSub(a, b)) == b
  {
  }

  // ---- The prefix byte ----

  function Flag(on: bool, weight: u8): u8 {
    if on then weight else 0
  }

  /** Bit 0 stays clear: it marks fragments. */
  function PrefixByte(f: Flags): u8 {
    Flag(f.byte0, 2) + Flag(f.byte1, 4) + Flag(f.byte2, 8) + Flag(f.byte3, 16) + Flag(f.shortAck, 32)
  }

  function FlagsOf(prefix: u8): Flags {
    Flags(prefix / 2 % 2 == 1, prefix / 4 % 2 == 1, prefix / 8 % 2 == 1, prefix / 16 % 2 == 1, prefix / 32 % 2 == 1)
  }

  predicate MarksFragment(prefix: u8) {
    prefix % 2 != 0
  }

  lemma PrefixRoundTrip(f: Flags)
    ensures FlagsOf(PrefixByte(f)) == f && !MarksFragment(PrefixByte(f))
  {
  }

  // ---- Writing ----

  function SequenceDiff(h: PacketHeader): u16 {
    WrappingSub(h.sequence, h.ack)
  }

  /** Acknowledgement bytes equal to 0xFF are elided; the ack is one byte when the difference fits. */
  function HeaderFlags(h: PacketHeader): Flags {
    Flags(AckByte(h.ackBits, 0) != 0xFF, AckByte(h.ackBits, 1) != 0xFF,
          AckByte(h.ackBits, 2) != 0xFF, AckByte(h.ackBits, 3) != 0xFF, SequenceDiff(h) <= 255)
  }

  function AckField(h: PacketHeader): seq<u8> {
    if SequenceDiff(h) <= 255 then [SequenceDiff(h)] else ToLeBytes(h.ack)
  }

  function Elided(b: u8): seq<u8> {
    if b == 0xFF then [] else [b]
  }

  function BitsField(b0: u8, b1: u8, b2: u8, b3: u8): seq<u8> {
    Elided(b0) + Elided(b1) + Elided(b2) + Elided(b3)
  }

  /** The bytes `write` and `write_to_slice` emit. */
  function Encode(h: PacketHeader): (bytes: seq<u8>)
    ensures 4 <= |bytes| <= MAX_PACKET_HEADER_BYTES
  {
    [PrefixByte(HeaderFlags(h))] + ToLeBytes(h.sequence) + AckField(h)
    + BitsField(AckByte(h.ackBits, 0), AckByte(h.ackBits, 1), AckByte(h.ackBits, 2), AckByte(h.ackBits, 3))
  }

  // ---- Reading ----

  /** The ack and the position after it. */
  function ReadAck(data: seq<u8>, short: bool): Option<(u16, nat)>
    requires |data| >= 3
  {
    if short then
      if |data| < 4 then None
      else Some((WrappingSub(FromLeBytes(data[1], data[2]), data[3]), 4))
    else
      if |data| < 5 then None else Some((FromLeBytes(data[3], data[4]), 5))
  }

  /** One acknowledgement byte and the position after it: read if announced, else 0xFF. */
  function ReadElided(data: seq<u8>, pos: nat, present: bool): Option<(u8, nat)> {
    if !present then Some((0xFF, pos))
    else if |data| < pos + 1 then None
    else Some((data[pos], pos + 1))
  }

  function ReadBits(data: seq<u8>, p0: nat, f: Flags): Option<(u32, nat)> {
    match ReadElided(data, p0, f.byte0)
    case None => None
    case Some((b0, p1)) =>
      match ReadElided(data, p1, f.byte1)
      case None => None
      case Some((b1, p2)) =>
        match ReadElided(data, p2, f.byte2)
        case None => None
        case Some((b2, p3)) =>
          match ReadElided(data, p3, f.byte3)
          case None => None
          case Some((b3, p4)) => Some((AckWord(b0, b1, b2, b3), p4))
  }

  function DecodeWith(data: seq<u8>, f: Flags): Option<(PacketHeader, nat)>
    requires |data| >= 3
  {
    match ReadAck(data, f.shortAck)
    case None => None
    case Some((ack, p)) =>
      match ReadBits(data, p, f)
      case None => None
      case Some((bits, n)) => Some((PacketHeader(FromLeBytes(data[1], data[2]), ack, bits), n))
  }

  /** What `read` accepts: the header and the number of bytes it took. */
  function Decode(data: seq<u8>): Option<(PacketHeader, nat)> {
    if |data| < 3 || MarksFragment(data[0]) then None else DecodeWith(data, FlagsOf(data[0]))
  }

  predicate IsFragmentPacket(data: seq<u8>) {
    data != [] && MarksFragment(data[0])
  }

  // ---- Reading what was written ----

  lemma ReadAckAfterWrite(h: PacketHeader, prefix: u8, rest: seq<u8>)
    ensures var data := [prefix] + ToLeBytes(h.sequence) + AckField(h) + rest;
      && FromLeBytes(data[1], data[2]) == h.sequence
      && ReadAck(data, SequenceDiff(h) <= 255) == Some((h.ack, |data| - |rest|))
  {
    var data := [prefix] + ToLeBytes(h.sequence) + AckField(h) + rest;
    assert data[1] == ToLeBytes(h.sequence)[0] && data[2] == ToLeBytes(h.sequence)[1];
    LeBytesRoundTrip(h.sequence);
    SubtractTwice(h.sequence, h.ack);
    LeBytesRoundTrip(h.ack);
  }

  lemma ReadElidedAfterWrite(before: seq<u8>, b: u8, rest: seq<u8>)
    ensures ReadElided(before + Elided(b) + rest, |before|, b != 0xFF) == Some((b, |before + Elided(b)|))
  {
  }

  lemma ReadBitsAfterWrite(before: seq<u8>, b0: u8, b1: u8, b2: u8, b3: u8, rest: seq<u8>, short: bool)
    ensures ReadBits(before + BitsField(b0, b1, b2, b3) + rest, |before|,
                     Flags(b0 != 0xFF, b1 != 0xFF, b2 != 0xFF, b3 != 0xFF, short))
         == Some((AckWord(b0, b1, b2, b3), |before + BitsField(b0, b1, b2, b3)|))
  {
    var data := before + BitsField(b0, b1, b2, b3) + rest;
    var t1 := before + Elided(b0);
    var t2 := t1 + Elided(b1);
    var t3 := t2 + Elided(b2);
    assert ReadElided(data, |before|, b0 != 0xFF) == Some((b0, |t1|)) by {
      assert data == t1 + (Elided(b1) + Elided(b2) + Elided(b3) + rest);
      ReadElidedAfterWrite(before, b0, Elided(b1) + Elided(b2) + Elided(b3) + rest);
    }
    assert ReadElided(data, |t1|, b1 != 0xFF) == Some((b1, |t2|)) by {
      assert data == t2 + (Elided(b2) + Elided(b3) + rest);
      ReadElidedAfterWrite(t1, b1, Elided(b2) + Elided(b3) + rest);
    }
    assert ReadElided(data, |t2|, b2 != 0xFF) == Some((b2, |t3|)) by {
      assert data == t3 + (Elided(b3) + rest);
      ReadElidedAfterWrite(t2, b2, Elided(b3) + rest);
    }
    assert ReadElided(data, |t3|, b3 != 0xFF) == Some((b3, |t3 + Elided(b3)|)) by {
      assert data == t3 + Elided(b3) + rest;
      ReadElidedAfterWrite(t3, b3, rest);
    }
  }

  lemma DecodeWithAfterWrite(h: PacketHeader, rest: seq<u8>)
    ensures DecodeWith(Encode(h) + rest, HeaderFlags(h)) == Some((h, |Encode(h)|))
  {
    var b0, b1, b2, b3 := AckByte(h.ackBits, 0), AckByte(h.ackBits, 1), AckByte(h.ackBits, 2), AckByte(h.ackBits, 3);
    var prefix := PrefixByte(HeaderFlags(h));
    var front := [prefix] + ToLeBytes(h.sequence) + AckField(h);
    var field := BitsField(b0, b1, b2, b3);
    assert Encode(h) + rest == front + (field + rest) == front + field + rest;
    ReadAckAfterWrite(h, prefix, field + rest);
    ReadBitsAfterWrite(front, b0, b1, b2, b3, rest, SequenceDiff(h) <= 255);
    AckWordOfBytes(h.ackBits);
  }

  /** Reading what was written, whatever follows it, returns the header and its length. */
  lemma ReadAfterWrite(h: PacketHeader, rest: seq<u8>)
    ensures Decode(Encode(h) + rest) == Some((h, |Encode(h)|))
    ensures !IsFragmentPacket(Encode(h) + rest)
  {
    PrefixRoundTrip(HeaderFlags(h));
    DecodeWithAfterWrite(h, rest);
    assert (Encode(h) + rest)[0] == PrefixByte(HeaderFlags(h));
  }

  // ---- The written form is the shortest one accepted ----

  function Count(on: bool): nat { if on then 1 else 0 }

  lemma EncodedLength(h: PacketHeader)
    ensures var f := HeaderFlags(h);
      |Encode(h)| == 5 - Count(f.shortAck) + Count(f.byte0) + Count(f.byte1) + Count(f.byte2) + Count(f.byte3)
  {
  }

  lemma DecodedLength(data: seq<u8>, f: Flags)
    requires |data| >= 3 && DecodeWith(data, f).Some?
    ensures var (h, n) := DecodeWith(data, f).value;
      && n <= |data|
      && n == 5 - Count(f.shortAck) + Count(f.byte0) + Count(f.byte1) + Count(f.byte2) + Count(f.byte3)
  {
  }

  /** A byte that was not announced reads as 0xFF, and a one-byte ack is within 255 of the sequence. */
  lemma AnnouncedWhenNeeded(data: seq<u8>, f: Flags)
    requires |data| >= 3 && DecodeWith(data, f).Some?
    ensures var g := HeaderFlags(DecodeWith(data, f).value.0);
      && (g.byte0 ==> f.byte0) && (g.byte1 ==> f.byte1) && (g.byte2 ==> f.byte2) && (g.byte3 ==> f.byte3)
      && (f.shortAck ==> g.shortAck)
  {
    var (ack, p0) := ReadAck(data, f.shortAck).value;
    var (b0, p1) := ReadElided(data, p0, f.byte0).value;
    var (b1, p2) := ReadElided(data, p1, f.byte1).value;
    var (b2, p3) := ReadElided(data, p2, f.byte2).value;
    var (b3, p4) := ReadElided(data, p3, f.byte3).value;
    BytesOfAckWord(b0, b1, b2, b3);
    if f.shortAck { SubtractTwice(FromLeBytes(data[1], data[2]), data[3]); }
  }

  lemma DecodeWithPrefix(data: seq<u8>, f: Flags, other: seq<u8>)
    requires |data| >= 3 && DecodeWith(data, f).Some?
    requires DecodeWith(data, f).value.1 <= |data| && data[..DecodeWith(data, f).value.1] <= other
    ensures |other| >= 3 && other[0] == data[0] && DecodeWith(other, f) == DecodeWith(data, f)
  {
    DecodedLength(data, f);
    var n := DecodeWith(data, f).value.1;
    assert forall i | 0 <= i < n :: other[i] == data[..n][i] == data[i];
  }

  /** The bytes taken decide the result, and no accepted form of a header is shorter than the written one. */
  lemma WrittenFormIsShortest(data: seq<u8>)
    requires Decode(data).Some?
    ensures var (h, n) := Decode(data).value;
      && n <= |data|
      && |Encode(h)| <= n
      && (forall other: seq<u8> | data[..n] <= other :: Decode(other) == Some((h, n)))
  {
    var f := FlagsOf(data[0]);
    var (h, n) := DecodeWith(data, f).value;
    DecodedLength(data, f);
    EncodedLength(h);
    AnnouncedWhenNeeded(data, f);
    forall other: seq<u8> | data[..n] <= other
      ensures Decode(other) == Some((h, n))
    {
      DecodeWithPrefix(data, f, other);
    }
  }
}
