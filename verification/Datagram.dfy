/** The datagrams that a submission composes: their bytes, and how they are read back. */
module Datagram {
  import opened Arithmetic
  import opened Bits
  import opened EndpointModel
  import EndpointRuns
  import opened Fragments
  import opened Packets
  import WireFormat

  lemma {:induction false} FragmentPacketAt(header: PacketHeader, data: seq<u8>, size: nat, n: u8, m: nat, k: nat)
    requires size > 0 && data != [] && n == DivCeil(|data|, size) && k < m <= n
    ensures k * size <= |data|
    ensures FragmentPackets(header, data, size, n, m)[k]
         == Packet(header.sequence, FragmentDatagram(header, data, size, n, k))
    decreases m
  {
    ChunkStarts(|data|, size, k);
    if k < m - 1 {
      FragmentPacketAt(header, data, size, n, m - 1, k);
    }
  }

  lemma RestAfter(front: seq<u8>, back: seq<u8>)
    ensures Rest(front + back, |front|) == back
  {
  }

  lemma ReadRegularDatagram(h: PacketHeader, data: seq<u8>, capacity: nat)
    requires capacity >= MAX_PACKET_HEADER_BYTES
    ensures var bytes := RegularDatagram(h, data, capacity);
      && !IsFragmentPacket(bytes) && Decode(bytes) == Some((h, |Encode(h)|))
      && Rest(bytes, |Encode(h)|) == data[..Min(|data|, capacity - |Encode(h)|)]
      && |bytes| <= |Encode(h)| + |data|
  {
    var n := Min(|data|, capacity - |Encode(h)|);
    SplitRegular(h, data[..n]);
    assert RegularDatagram(h, data, capacity) == Encode(h) + data[..n];
  }

  lemma SplitRegular(h: PacketHeader, rest: seq<u8>)
    ensures var bytes := Encode(h) + rest;
      && !IsFragmentPacket(bytes)
      && Decode(bytes) == Some((h, |Encode(h)|))
      && Rest(bytes, |Encode(h)|) == rest
  {
    ReadAfterWrite(h, rest);
    RestAfter(Encode(h), rest);
  }

  lemma ReadFragmentDatagram(h: PacketHeader, data: seq<u8>, size: nat, n: u8, k: u8)
    requires k * size <= |data|
    ensures var bytes := FragmentDatagram(h, data, size, n, k);
      && IsFragmentPacket(bytes)
      && DecodeFragment(bytes) == Some((FragmentHeader(h.sequence, k, n), FRAGMENT_HEADER_BYTES))
      && (k != 0 ==> Rest(bytes, FRAGMENT_HEADER_BYTES) == Chunk(data, size, k))
      && (k == 0 ==>
            && Decode(Rest(bytes, FRAGMENT_HEADER_BYTES)) == Some((h, |Encode(h)|))
            && Rest(Rest(bytes, FRAGMENT_HEADER_BYTES), |Encode(h)|) == Chunk(data, size, k))
  {
    var fragment := FragmentHeader(h.sequence, k, n);
    var body := Chunk(data, size, k);
    if k == 0 {
      assert FragmentDatagram(h, data, size, n, k) == EncodeFragment(fragment) + (Encode(h) + body);
      SplitFragment(fragment, Encode(h) + body);
      SplitRegular(h, body);
    } else {
      assert FragmentDatagram(h, data, size, n, k) == EncodeFragment(fragment) + body;
      SplitFragment(fragment, body);
    }
  }

  lemma SplitFragment(fragment: FragmentHeader, rest: seq<u8>)
    ensures var bytes := EncodeFragment(fragment) + rest;
      && IsFragmentPacket(bytes)
      && DecodeFragment(bytes) == Some((fragment, FRAGMENT_HEADER_BYTES))
      && Rest(bytes, FRAGMENT_HEADER_BYTES) == rest
  {
    ReadFragmentAfterWrite(fragment, rest);
  }

  /** Datagram `k` of a payload, as a receiver takes it apart. */
  lemma ReadDatagram(e: EndpointState, c: Config, h: PacketHeader, data: seq<u8>, k: nat)
    requires e.Valid() && c.fragmentSize > 0 && k < |Datagrams(c, h, data)|
    ensures var bytes := Datagrams(c, h, data)[k].data;
      && (EndpointRuns.AckInput(e, bytes).Some? ==>
            EndpointRuns.AckInput(e, bytes).value.1 == h.ack && EndpointRuns.AckInput(e, bytes).value.2 == h.ackBits)
      && (EndpointRuns.Recording(e, bytes).Some? ==> EndpointRuns.Recording(e, bytes).value.0 == h.sequence)
      && match EndpointRuns.FragmentInput(e, bytes)
         case Some((fragment, body)) =>
           && |data| > c.fragmentAbove
           && fragment == FragmentHeader(h.sequence, k, DivCeil(|data|, c.fragmentSize)) && k < fragment.count
           && k * c.fragmentSize <= |data| && body == Chunk(data, c.fragmentSize, k)
         case None =>
           EndpointRuns.AcceptsRegular(e, bytes, h.sequence) ==>
             && |data| <= c.fragmentAbove
             && bytes == RegularDatagram(h, data, c.MaxDatagramSize())
             && Decode(bytes) == Some((h, |Encode(h)|))
  {
    if |data| > c.fragmentAbove {
      var n := DivCeil(|data|, c.fragmentSize);
      FragmentPacketAt(h, data, c.fragmentSize, n, n, k);
      ReadFragmentDatagram(h, data, c.fragmentSize, n, k);
    } else {
      ReadRegularDatagram(h, data, c.MaxDatagramSize());
    }
  }

  /** The acknowledgements of a datagram are processed exactly if it is not too large and is the first
      fragment of its packet, or unfragmented, in the receive window and new. */
  lemma AcksAreRead(e: EndpointState, c: Config, h: PacketHeader, data: seq<u8>, k: nat)
    requires e.Valid() && c.fragmentSize > 0 && k < |Datagrams(c, h, data)|
    ensures var bytes := Datagrams(c, h, data)[k].data;
      && bytes != []
      && (if |data| > c.fragmentAbove
          then IsFragmentPacket(bytes) && DecodeFragment(bytes).Some? && DecodeFragment(bytes).value.0.id == k
          else !IsFragmentPacket(bytes))
      && (EndpointRuns.AckInput(e, bytes).Some? <==>
            && |bytes| <= e.config.maxPacketSize + MAX_PACKET_HEADER_BYTES
            && if |data| > c.fragmentAbove then k == 0
               else e.received.CanInsert(h.sequence) && !e.received.Exists(h.sequence))
  {
    if |data| > c.fragmentAbove {
      var n := DivCeil(|data|, c.fragmentSize);
      FragmentPacketAt(h, data, c.fragmentSize, n, n, k);
      ReadFragmentDatagram(h, data, c.fragmentSize, n, k);
    } else {
      ReadRegularDatagram(h, data, c.MaxDatagramSize());
    }
  }

  lemma ChunkLength(payload: seq<u8>, size: nat, i: nat)
    requires i * size <= |payload|
    ensures |Chunk(payload, size, i)| == Min(size, |payload| - i * size)
  {
  }

  lemma FragmentDatagramLength(h: PacketHeader, data: seq<u8>, size: nat, n: u8, k: u8)
    requires k * size <= |data|
    ensures var len := |FragmentDatagram(h, data, size, n, k)|;
      if k == 0 then len == FRAGMENT_HEADER_BYTES + |Encode(h)| + Min(size, |data|)
      else len <= FRAGMENT_HEADER_BYTES + Min(size, |data|)
  {
    ChunkLength(data, size, k);
    assert |EncodeFragment(FragmentHeader(h.sequence, k, n))| == FRAGMENT_HEADER_BYTES;
  }

  /** A fragment that is not refused as too large reaches reassembly. */
  lemma FragmentReachesReassembly(e: EndpointState, c: Config, h: PacketHeader, data: seq<u8>, k: nat)
    requires e.Valid() && c.fragmentSize > 0 && k < |Datagrams(c, h, data)|
    requires |data| > c.fragmentAbove
    requires FRAGMENT_HEADER_BYTES + |Encode(h)| + c.fragmentSize <= e.config.maxPacketSize + MAX_PACKET_HEADER_BYTES
    ensures EndpointRuns.FragmentInput(e, Datagrams(c, h, data)[k].data).Some?
  {
    var n := DivCeil(|data|, c.fragmentSize);
    FragmentPacketAt(h, data, c.fragmentSize, n, n, k);
    FragmentDatagramLength(h, data, c.fragmentSize, n, k);
    ReadFragmentDatagram(h, data, c.fragmentSize, n, k);
    IsRead(e, Datagrams(c, h, data)[k].data);
  }

  lemma IsRead(e: EndpointState, bytes: seq<u8>)
    requires |bytes| <= e.config.maxPacketSize + MAX_PACKET_HEADER_BYTES && IsFragmentPacket(bytes) && DecodeFragment(bytes).Some?
    requires DecodeFragment(bytes).value.0.id == 0 ==> Decode(Rest(bytes, FRAGMENT_HEADER_BYTES)).Some?
    ensures EndpointRuns.FragmentInput(e, bytes).Some?
  {
  }

  // ---- The bytes of a datagram ----

  lemma SplitsAt(front: seq<u8>, back: seq<u8>)
    ensures (front + back)[..|front|] == front && (front + back)[|front|..] == back
  {
  }

  /** An unfragmented payload is sent as its header of `n` bytes and then itself, cut to the datagram slot. */
  lemma RegularOnWire(c: Config, h: PacketHeader, data: seq<u8>) returns (n: nat)
    requires c.fragmentSize > 0 && |data| <= c.fragmentAbove
    ensures |Datagrams(c, h, data)| == 1 && Datagrams(c, h, data)[0].sequence == h.sequence
    ensures var bytes := Datagrams(c, h, data)[0].data;
      n <= |bytes| && WireFormat.IsHeader(bytes[..n], h) && bytes[n..] == data[..Min(|data|, c.fragmentSize + 14 - n)]
  {
    n := |Encode(h)|;
    WireFormat.HeaderIsWritten(h);
    SplitsAt(Encode(h), data[..Min(|data|, c.fragmentSize + 14 - n)]);
  }

  /** The bytes of fragment `k` of `count`, its own header of five bytes first; the first fragment continues
      with the packet header, of `n` bytes; the rest is its chunk. */
  ghost predicate IsFragmentOnWire(bytes: seq<u8>, h: PacketHeader, count: u8, k: u8, n: nat, chunk: seq<u8>) {
    && |bytes| >= 5 && bytes[..5] == WireFormat.FragmentHeaderBytes(h.sequence, k, count)
    && n <= |bytes[5..]| && (if k == 0 then WireFormat.IsHeader(bytes[5..][..n], h) else n == 0)
    && bytes[5..][n..] == chunk
  }

  lemma FragmentIsOnWire(h: PacketHeader, data: seq<u8>, size: nat, count: u8, k: u8)
    requires k * size <= |data|
    ensures var n := if k == 0 then |Encode(h)| else 0;
      IsFragmentOnWire(FragmentDatagram(h, data, size, count, k), h, count, k, n, Chunk(data, size, k))
  {
    var fragment, body := FragmentHeader(h.sequence, k, count), Chunk(data, size, k);
    var middle := if k == 0 then Encode(h) else [];
    WireFormat.FragmentHeaderIsWritten(fragment);
    WireFormat.HeaderIsWritten(h);
    assert FragmentDatagram(h, data, size, count, k) == EncodeFragment(fragment) + (middle + body);
    SplitsAt(EncodeFragment(fragment), middle + body);
    SplitsAt(middle, body);
  }

  /** A fragmented payload is sent as the fewest fragments that cover it, if these are at most 255 and `maxFragments`. */
  lemma FewestFragments(c: Config, h: PacketHeader, data: seq<u8>)
    requires c.fragmentSize > 0 && |data| > c.fragmentAbove && Datagrams(c, h, data) != []
    ensures var count := |Datagrams(c, h, data)|;
      count <= 255 && count <= c.maxFragments && (count - 1) * c.fragmentSize < |data| <= count * c.fragmentSize
  {
    DivCeilBounds(|data|, c.fragmentSize);
  }

  /** They are sent in order, each with its own chunk. */
  lemma FragmentsOnWire(c: Config, h: PacketHeader, data: seq<u8>, k: nat) returns (n: nat, start: nat)
    requires c.fragmentSize > 0 && |data| > c.fragmentAbove && k < |Datagrams(c, h, data)| <= 255
    ensures start == k * c.fragmentSize <= |data| && Datagrams(c, h, data)[k].sequence == h.sequence
    ensures IsFragmentOnWire(Datagrams(c, h, data)[k].data, h, |Datagrams(c, h, data)|, k, n,
                             data[start .. Min(start + c.fragmentSize, |data|)])
  {
    var count := DivCeil(|data|, c.fragmentSize);
    FragmentPacketAt(h, data, c.fragmentSize, count, count, k);
    FragmentIsOnWire(h, data, c.fragmentSize, count, k);
    n := if k == 0 then |Encode(h)| else 0;
    start := k * c.fragmentSize;
  }
}
