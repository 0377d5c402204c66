/** The header routines that fill and scan buffers step by step, proved against the bytes on the wire. */
module HeaderIO {
  import opened Arithmetic
  import opened Bits
  import Fragments
  import opened Packets
  import opened Sequence
  import WireFormat

  /** `buffer[pos] = b; pos += 1` */
  method Append(buffer: array<u8>, start: nat, pos: nat, b: u8) returns (next: nat)
    requires start <= pos < buffer.Length
    modifies buffer
    ensures next == pos + 1 && buffer[start..next] == old(buffer[start..pos]) + [b]
    ensures forall i | 0 <= i < start || next <= i < buffer.Length :: buffer[i] == old(buffer[i])
  {
    buffer[pos] := b;
    next := pos + 1;
  }

  /** An acknowledgement byte is written unless it is 0xFF. */
  method AppendElided(buffer: array<u8>, start: nat, pos: nat, b: u8) returns (next: nat)
    requires start <= pos < buffer.Length
    modifies buffer
    ensures next == pos + |Elided(b)| && buffer[start..next] == old(buffer[start..pos]) + Elided(b)
    ensures forall i | 0 <= i < start || next <= i < buffer.Length :: buffer[i] == old(buffer[i])
  {
    next := pos;
    if b != 0xFF {
      next := Append(buffer, start, pos, b);
    } else {
      assert buffer[start..pos] + Elided(b) == buffer[start..pos];
    }
  }

  /** The prefix byte, one flag after the other. */
  method ComputePrefix(h: PacketHeader) returns (prefix: u8)
    ensures prefix == PrefixByte(HeaderFlags(h))
  {
    prefix := 0;
    if AckByte(h.ackBits, 0) != 0xFF { prefix := prefix + 2; }
    if AckByte(h.ackBits, 1) != 0xFF { prefix := prefix + 4; }
    if AckByte(h.ackBits, 2) != 0xFF { prefix := prefix + 8; }
    if AckByte(h.ackBits, 3) != 0xFF { prefix := prefix + 16; }
    if SequenceDiff(h) <= 255 { prefix := prefix + 32; }
  }

  method AppendAckBits(bits: u32, buffer: array<u8>, start: nat, pos: nat) returns (next: nat)
    requires start <= pos && pos + 4 <= buffer.Length
    modifies buffer
    ensures var field := BitsField(AckByte(bits, 0), AckByte(bits, 1), AckByte(bits, 2), AckByte(bits, 3));
      next == pos + |field| && buffer[start..next] == old(buffer[start..pos]) + field
    ensures forall i | 0 <= i < start || next <= i < buffer.Length :: buffer[i] == old(buffer[i])
  {
    next := AppendElided(buffer, start, pos, AckByte(bits, 0));
    next := AppendElided(buffer, start, next, AckByte(bits, 1));
    next := AppendElided(buffer, start, next, AckByte(bits, 2));
    next := AppendElided(buffer, start, next, AckByte(bits, 3));
  }

  /** Prefix, sequence and ack. */
  method AppendFront(h: PacketHeader, buffer: array<u8>, start: nat) returns (pos: nat)
    requires start + 5 <= buffer.Length
    modifies buffer
    ensures var front := [PrefixByte(HeaderFlags(h))] + ToLeBytes(h.sequence) + AckField(h);
      pos == start + |front| && buffer[start..pos] == front
    ensures forall i | 0 <= i < start || pos <= i < buffer.Length :: buffer[i] == old(buffer[i])
  {
    var prefix := ComputePrefix(h);
    pos := Append(buffer, start, start, prefix);
    pos := Append(buffer, start, pos, ToLeBytes(h.sequence)[0]);
    pos := Append(buffer, start, pos, ToLeBytes(h.sequence)[1]);
    assert buffer[start..pos] == [prefix] + ToLeBytes(h.sequence);
    if SequenceDiff(h) <= 255 {
      pos := Append(buffer, start, pos, SequenceDiff(h));
    } else {
      pos := Append(buffer, start, pos, ToLeBytes(h.ack)[0]);
      pos := Append(buffer, start, pos, ToLeBytes(h.ack)[1]);
    }
    assert buffer[start..pos] == [prefix] + ToLeBytes(h.sequence) + AckField(h);
  }

  /** `write_to_slice` on `buffer[start..]`: refused when fewer than 9 bytes are left. */
  method WriteToSlice(h: PacketHeader, buffer: array<u8>, start: nat) returns (written: Option<nat>)
    requires start <= buffer.Length
    modifies buffer
    ensures written == if buffer.Length - start < MAX_PACKET_HEADER_BYTES then None else Some(|Encode(h)|)
    ensures written == None ==> buffer[..] == old(buffer[..])
    ensures written.Some? ==>
      && buffer[start..start + |Encode(h)|] == Encode(h) && WireFormat.IsHeader(buffer[start..start + |Encode(h)|], h)
      && (forall i | 0 <= i < start || start + |Encode(h)| <= i < buffer.Length :: buffer[i] == old(buffer[i]))
  {
    if buffer.Length - start < MAX_PACKET_HEADER_BYTES {
      return None;
    }
    var pos := AppendFront(h, buffer, start);
    pos := AppendAckBits(h.ackBits, buffer, start, pos);
    WireFormat.HeaderIsWritten(h);
    written := Some(pos - start);
  }

  method PushElided(buffer: seq<u8>, b: u8) returns (grown: seq<u8>)
    ensures grown == buffer + Elided(b)
  {
    grown := if b != 0xFF then buffer + [b] else buffer;
  }

  /** `write`: appends the same bytes to a growing buffer. */
  method Write(h: PacketHeader, buffer: seq<u8>) returns (grown: seq<u8>, written: nat)
    ensures grown == buffer + Encode(h) && written == |Encode(h)| && WireFormat.IsHeader(grown[|buffer|..], h)
  {
    var prefix := ComputePrefix(h);
    grown := buffer + [prefix] + ToLeBytes(h.sequence);
    if SequenceDiff(h) <= 255 {
      grown := grown + [SequenceDiff(h)];
    } else {
      grown := grown + ToLeBytes(h.ack);
    }
    ghost var front := [prefix] + ToLeBytes(h.sequence) + AckField(h);
    assert grown == buffer + front;
    grown := PushElided(grown, AckByte(h.ackBits, 0));
    grown := PushElided(grown, AckByte(h.ackBits, 1));
    grown := PushElided(grown, AckByte(h.ackBits, 2));
    grown := PushElided(grown, AckByte(h.ackBits, 3));
    JoinFields(buffer, front, AckByte(h.ackBits, 0), AckByte(h.ackBits, 1), AckByte(h.ackBits, 2), AckByte(h.ackBits, 3));
    WireFormat.HeaderIsWritten(h);
    written := |grown| - |buffer|;
  }

  lemma JoinFields(buffer: seq<u8>, front: seq<u8>, b0: u8, b1: u8, b2: u8, b3: u8)
    ensures buffer + front + Elided(b0) + Elided(b1) + Elided(b2) + Elided(b3) == buffer + (front + BitsField(b0, b1, b2, b3))
  {
  }

  /** The ack: one byte of distance or the whole sequence. */
  method ReadAckField(data: seq<u8>, short: bool) returns (result: Option<(u16, nat)>)
    requires |data| >= 3
    ensures result == ReadAck(data, short)
  {
    var pos: nat := 3;
    if short {
      if |data| < pos + 1 { return None; }
      return Some((WrappingSub(FromLeBytes(data[1], data[2]), data[pos]), pos + 1));
    }
    if |data| < pos + 2 { return None; }
    result := Some((FromLeBytes(data[pos], data[pos + 1]), pos + 2));
  }

  /** The acknowledgement word starts as all ones and is patched byte by byte. */
  method ReadAckBits(data: seq<u8>, start: nat, flags: Flags) returns (result: Option<(u32, nat)>)
    ensures result == ReadBits(data, start, flags)
  {
    var pos := start;
    var b0: u8, b1: u8, b2: u8, b3: u8 := 0xFF, 0xFF, 0xFF, 0xFF;
    if flags.byte0 {
      if |data| < pos + 1 { return None; }
      b0 := data[pos];
      pos := pos + 1;
    }
    if flags.byte1 {
      if |data| < pos + 1 { return None; }
      b1 := data[pos];
      pos := pos + 1;
    }
    if flags.byte2 {
      if |data| < pos + 1 { return None; }
      b2 := data[pos];
      pos := pos + 1;
    }
    if flags.byte3 {
      if |data| < pos + 1 { return None; }
      b3 := data[pos];
      pos := pos + 1;
    }
    result := Some((AckWord(b0, b1, b2, b3), pos));
  }

  /** `read`: refuses bytes that end too early, and fragments. */
  method Read(data: seq<u8>) returns (result: Option<(PacketHeader, nat)>)
    ensures result == Decode(data)
    ensures result.Some? <==> WireFormat.IsReadable(data)
    ensures result.Some? ==> result.value.1 == WireFormat.Length(data[0]) && WireFormat.ReadsAs(data, result.value.0)
  {
    WireFormat.HeaderIsRead(data);
    if |data| < 3 { return None; }
    if MarksFragment(data[0]) { return None; }
    var flags := FlagsOf(data[0]);
    var ack := ReadAckField(data, flags.shortAck);
    if ack.None? { return None; }
    var bits := ReadAckBits(data, ack.value.1, flags);
    if bits.None? { return None; }
    result := Some((PacketHeader(FromLeBytes(data[1], data[2]), ack.value.0, bits.value.0), bits.value.1));
  }

  method WriteFragmentToSlice(h: Fragments.FragmentHeader, buffer: array<u8>) returns (written: Option<nat>)
    modifies buffer
    ensures written == if buffer.Length < Fragments.FRAGMENT_HEADER_BYTES then None else Some(Fragments.FRAGMENT_HEADER_BYTES)
    ensures written == None ==> buffer[..] == old(buffer[..])
    ensures written.Some? ==>
      && buffer[..Fragments.FRAGMENT_HEADER_BYTES] == Fragments.EncodeFragment(h)
           == WireFormat.FragmentHeaderBytes(h.sequence, h.id, h.count)
      && buffer[Fragments.FRAGMENT_HEADER_BYTES..] == old(buffer[Fragments.FRAGMENT_HEADER_BYTES..])
  {
    WireFormat.FragmentHeaderIsWritten(h);
    if buffer.Length < Fragments.FRAGMENT_HEADER_BYTES {
      return None;
    }
    buffer[0] := 1;
    buffer[1] := ToLeBytes(h.sequence)[0];
    buffer[2] := ToLeBytes(h.sequence)[1];
    buffer[3] := h.id;
    buffer[4] := h.count;
    written := Some(Fragments.FRAGMENT_HEADER_BYTES);
  }
}
