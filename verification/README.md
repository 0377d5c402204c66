# Reliable UDP endpoint: verified model

A Dafny model of the packet tracking, acknowledgement and reassembly core of the endpoint, with proofs
of what it guarantees on a network that loses, duplicates and reorders datagrams.

`dafny verify dfyconfig.toml` checks the whole project.

## How it is built

The code is modelled twice, in the two forms its properties need.

*The classes* have the source's own shape: `SequenceBuffer` (a ring of optional entries under 16-bit
sequence numbers), `ReassemblyData` (flat slab, length array, eight-word bitmask, counter),
`FragmentReassemblyBuffer` (tracker ring beside a slab of slots), `PacketQueue` (a ring of preallocated
slots behind wrapping machine-word cursors) and `Endpoint`, which owns all of them. Their methods keep the
source's branches and loops and change state in place. The header routines of `HeaderIO` fill and scan
buffers step by step in the same way.

*The specification* says what these structures mean. A `Window` is a finite map from unbounded packet
numbers to data; a `Reassembly` is a tracker window with one map of parts a slot; an `EndpointState` is the
value of a whole endpoint, and `EndpointModel` gives the effect of every operation on it. Each class method
is proved to have exactly the effect its specification function has, so that every theorem about the
functions is one about the classes. So that the specification means what it says, its basic operations are in turn
characterised without reference to their definitions: the bytes of every header and datagram, position by position
(`WireFormat`, `Datagram`), what an operation changes and which counter it raises, told from the datagram's bytes
alone (`Counting`), the loss estimate and the byte sums (`Statistics`), and the size of every tracked packet
(`Accounting`).

On top of that stand the results about runs: of one endpoint (`EndpointRuns`, `ReassemblyRuns`), of two
endpoints joined by a network (`Network`, `Acknowledgements`, `Integrity`, `Deliveries`), of one payload from
sender to receiver (`RoundTrip`), the exact conditions under which the guarantees hold (`Limits`, `Mixing`), and
the sessions in which they fail although every datagram arrives at once (`Sessions`, `Mixing`).

Packet numbers in the specification are unbounded; the 16-bit sequence number on the wire is the remainder
modulo 65536. A pair of nodes keeps, as history, the payloads sent, the datagrams emitted, the peer packets
recorded, which packet opened each reassembly slot, and what reached the incoming queue. The network may
deliver any emitted datagram any number of times, in any order, or never. What a theorem needs of it
beyond that is a promise, and each theorem names the one it needs:

- none at all for the endpoints' own invariants, for the completeness of acknowledgements, for deliveries
  fitting their slots and for what a completed slot is put together from;
- `timely` for at-most-once delivery of unfragmented packets: the receive window does not mistake the packet
  for a later one with the same sequence. `Network.BoundedStalenessIsTimely` gives the exact condition on
  the window, and bounded staleness is enough;
- `timely` and `recent` for acknowledgement soundness: the acknowledgements are about packets of the last cycle.
  `Network.AckAttribution` shows that this is exact;
- `unmixed` for payload integrity, and for fragmented packets being delivered no more often than their
  fragments: a fragment that is stored in an open slot finds one that a fragment of its own packet opened. It
  bounds no staleness and asks nothing of regular datagrams.

## What to know about the code

- `Config.Valid` adds to `validate` that the sent, received and reassembly rings have 2 to 16384 entries.
  `Limits.WindowSizes` shows that the half-range comparison needs exactly this of a power of two: at 32768
  entries `can_insert(0)` fails on a fresh buffer, and one entry does not keep what was inserted.
- The comment on `remove_range` (src/sequence_buffer.rs:234) calls the range exclusive of its end; the code
  clears the slot of `end` as well, and the window depends on that. The model follows the code.
- An acknowledgement means that the peer *recorded* the packet, not that its application read it: a regular
  packet is recorded before its payload is offered to the incoming queue, which may be full.
- Not every datagram that arrives brings its acknowledgements: a regular datagram is refused as stale or as
  a duplicate before they are read, and only first fragments carry any. `Acknowledgements.AcksAreComplete` gives
  the exact condition. What a late datagram behind the receive window says is lost even on a timely network
  (`Acknowledgements.StaleAcksAreLost`); what a duplicate says is not news
  (`Acknowledgements.DuplicatesCarryNothingNew`).
- The repository's README promises that duplicates are dropped silently. The fragment path does not look at
  the received packets, and the tracker forgets a sequence when it completes. So every payload sent in
  fragments, of however many, is delivered again when all its datagrams arrive again
  (`Limits.FragmentsAreDeliveredTwice`). `Limits.DuplicateIsDropped` gives the exact condition for one
  datagram, and `ReassemblyRuns.CompletionsUseArrivals` and `Deliveries.DeliveredNoMoreThanFragments` the bounds
  that do hold.
- Reassembly slots are known by 16-bit sequences and only fragments move their window. A slot left half full
  is therefore completed by a packet exactly a cycle later, on a network that loses one fragment and delivers
  everything else at once: `Mixing.PacketsACycleApartMix` is such a session, for any two payloads.
  `Deliveries.CompletionIsExact` says, for every run, when a completed slot yields a given payload.
- For the same reason unfragmented traffic alone shuts fragmented payloads out: with 64 reassembly slots,
  one sent after 40000 unfragmented packets is refused as too old, whether or not anything was lost or late.
  `Sessions.FragmentedAfterUnfragmented` gives the exact sequences, for every run in which all that was sent
  before is unfragmented; `Sessions.FragmentsShutOut` is a run of empty packets without any loss or delay.
- `copy_to` panics when the stored fragments exceed the incoming slot. The model has this as the
  precondition `Fits` of receiving. `Integrity.DeliveriesFit` discharges it for honest peers,
  whatever the network does; `Limits.AlwaysFits` says which configurations need no honesty: those whose packet
  size is that of all fragments together, and those with a single fragment.
- A payload of more than 255 fragments is counted and tracked as sent although nothing is queued;
  `Limits.EveryAcceptedPayloadIsQueued` says which configurations exclude this.
- An unfragmented payload can be cut to its datagram slot; `Limits.NeverCut` says when that cannot happen.

## Model

| member | source | states |
|---|---|---|
| Sequence.HalfRangeIsStrictChoice | src/utils.rs:48-65 | of two distinct sequence numbers exactly one is the greater, also at the tie distance 32768; none is greater than itself |
| Sequence.HalfRangeOrdersUnwrapped | src/utils.rs:48-65 | on unwrapped numbers less than a cycle apart the comparison is integer order up to distance 32767, is decided by the raw values at 32768 and is reversed beyond |
| Windows.Window.CanInsertRaw | src/sequence_buffer.rs:99-102 | the raw half-range test of `can_insert` accepts exactly the half cycle of numbers that starts at the window's oldest number, plus a tie decided by raw values |
| Windows.Window.AdvanceRaw | src/sequence_buffer.rs:114-117 | for an accepted number, the raw test for advancing holds exactly when the unbounded number is at or past the head, and the head then moves by less than 32768 |
| Windows.Window.ResolveExact | src/sequence_buffer.rs:141-147 | a sequence number stands for a given unbounded number exactly while that number is within one cycle of the window's base |
| Windows.Window.AckBitsExact | src/sequence_buffer.rs:188-200 | bit i of the acknowledgement word is set exactly when the number i below the newest is live, for all 32 bits |
| Windows.Window.ReinsertAfterRemove | src/sequence_buffer.rs:161-171 | what was inserted and removed can be inserted again: removal leaves no trace of the number |
| Windows.WindowIsLastOfLedger | src/sequence_buffer.rs:90-171 | after any sequence of inserts, removals and resets the live entries are exactly those of a map over all integers that never evicts, cut to the last N numbers |
| Bits.MaskIsMod | src/sequence_buffer.rs:230-232 | masking with a power of two minus one, bit by bit, is the remainder, so the ring index is the number's slot |
| Windows.Window.LiveSlotsDiffer | src/sequence_buffer.rs:230-232 | no live entry shares its slot with another number of the window |
| SequenceBuffers.ClearedExactly | src/sequence_buffer.rs:114-117 | a slot in use is cleared by an advance to u exactly when its number leaves the window |
| SequenceBuffers.SequenceBuffer.RemoveRange | src/sequence_buffer.rs:235-242 | for any start and end: terminates, and clears exactly the slots of the numbers from start to end inclusive, across the 65535 to 0 wrap, if start is before end + 1 in the half-range order, and none otherwise |
| SequenceBuffers.SequenceBuffer.CanInsert | src/sequence_buffer.rs:99-102 | decides acceptance by the window as the specification has it |
| SequenceBuffers.SequenceBuffer.Insert | src/sequence_buffer.rs:108-126 | refines the window's insert: every live entry stays in its own slot under its own remainder, and only numbers that leave the window are dropped |
| SequenceBuffers.SequenceBuffer.Remove | src/sequence_buffer.rs:161-171 | returns the data of that very number or nothing, and removes only it, putting back another number's entry in the same slot |
| SequenceBuffers.SequenceBuffer.Find | src/sequence_buffer.rs:141-147 | the slot lookup finds a sequence exactly when the number it stands for is live |
| SequenceBuffers.SequenceBuffer.Exists | src/sequence_buffer.rs:175-181 | true exactly when the number the sequence stands for is live |
| SequenceBuffers.SequenceBuffer.Write | src/sequence_buffer.rs:151-157 | writing through the found reference changes the data of that number and of no other |
| SequenceBuffers.SequenceBuffer.GenerateAckBits | src/sequence_buffer.rs:188-200 | the loop over wrapped sequences yields the newest number and the acknowledgement word of the window |
| SequenceBuffers.SequenceBuffer.Reset | src/sequence_buffer.rs:90-95 | forgets everything and starts again at sequence 0 |
| Packets.ReadAfterWrite | src/packet.rs:81-294 | whatever follows a written header, reading it returns the same header and the written length, and it is not taken for a fragment |
| Packets.Encode | src/packet.rs:81-151 | every header takes 4 to 9 bytes |
| Packets.WrittenFormIsShortest | src/packet.rs:219-294 | the bytes read accepts decide its result alone, and no accepted form of a header, redundant ones included, is shorter than the written one |
| WireFormat.HeaderIsUnique | src/packet.rs:81-151 | the written form of a header is exactly this one: bit 0, 6 and 7 of the first byte clear, bits 1 to 4 set for the acknowledgement bytes that are not 0xFF, bit 5 for an ack at most 255 behind; the sequence, low byte first; that distance in one byte or the ack, low byte first; the acknowledgement bytes that are not 0xFF, lowest first |
| WireFormat.HeaderIsRead | src/packet.rs:219-294 | bytes are accepted exactly if they do not start with a fragment mark and are as long as their first byte announces, and give the sequence, the ack and each acknowledgement byte by position, those not announced being 0xFF |
| WireFormat.FragmentHeaderIsWritten | src/fragment.rs:74-86 | the fragment header is the bytes 1, sequence low byte first, id, count |
| WireFormat.FragmentHeaderIsRead | src/fragment.rs:90-112 | of at least five bytes, the first odd, sequence, id and count are read by position; all others are refused |
| HeaderIO.WriteToSlice | src/packet.rs:81-151 | refuses exactly buffers with fewer than 9 bytes left; otherwise writes the bytes that `WireFormat.IsHeader` prescribes and touches no other |
| HeaderIO.Write | src/packet.rs:157-213 | appends exactly those bytes and returns their number |
| HeaderIO.Read | src/packet.rs:219-294 | accepts exactly what `WireFormat.IsReadable` says and returns the header that its bytes spell out, by position, and its length |
| HeaderIO.WriteFragmentToSlice | src/fragment.rs:74-86 | writes the bytes 1, sequence low byte first, id and count, or refuses a shorter buffer |
| Fragments.ReadFragmentAfterWrite | src/fragment.rs:74-112 | reading a written fragment header returns it and leaves the rest, and the datagram is recognised as a fragment |
| Fragments.ChunkStarts | src/endpoint.rs:236-236 | every fragment id below the count starts inside the payload, so no chunk is empty |
| Fragments.BoundedSet | src/fragment.rs:198-200 | a set of ids below n has at most n members, and n exactly when none is missing: the counting argument behind the completeness test |
| Fragments.ProcessKeepsValid | src/fragment.rs:271-375 | whatever fragment arrives, every tracked sequence keeps a slot of its own that holds some but not all of its fragments |
| Fragments.MismatchGuardUnreachable | src/fragment.rs:316-325 | the slot of a tracked sequence always holds that sequence, so the mismatch guard never fires |
| ReassemblyBuffers.ReassemblyData.MarkFragment | src/fragment.rs:190-194 | sets one bit of the eight-word mask and no other |
| ReassemblyBuffers.ReassemblyData.HasFragment | src/fragment.rs:182-186 | the mask says of every id whether it is stored |
| ReassemblyBuffers.ReassemblyData.StoreFragment | src/fragment.rs:206-211 | puts the bytes, cut to the slot and with a 16-bit length, at the fragment's place in the slab and moves no other chunk |
| ReassemblyBuffers.ReassemblyData.AddFragment | src/fragment.rs:339-353 | slab, mask and counter advance together; the u8 counter cannot overflow |
| ReassemblyBuffers.ReassemblyData.IsComplete | src/fragment.rs:198-200 | the counter comparison holds exactly when every id is present |
| ReassemblyBuffers.ReassemblyData.CopyTo | src/fragment.rs:218-227 | writes the stored chunks in id order without gaps and returns their total length |
| ReassemblyBuffers.ReassemblyData.Reset | src/fragment.rs:168-178 | empties a slot in any state for a new sequence, though the slab keeps its old bytes |
| ReassemblyBuffers.CounterCannotOverflow | src/fragment.rs:352-352 | a new id below a u8 count leaves the number of stored ids below 256 |
| ReassemblyBuffers.FragmentReassemblyBuffer.ProcessFragment | src/fragment.rs:271-375 | on the concrete tracker and slabs has the effect of the specification, and delivers a completed payload exactly when the incoming queue has room |
| ReassemblyRuns.SameSequence | src/fragment.rs:271-375 | a fragment is stored exactly if well formed, in the window, of the slot's count and new; the packet completes exactly if it was the last one missing, else nothing changes but that part |
| ReassemblyRuns.OtherSequence | src/fragment.rs:298-312 | an arrival leaves every other sequence's slot as it was or evicts it whole |
| ReassemblyRuns.LifetimeFillsSlot | src/fragment.rs:271-375 | over any run, while the arrivals of a slot's lifetime are from one payload, the slot holds exactly the chunks of that payload whose ids arrived |
| ReassemblyRuns.ReassemblyIsExact | src/fragment.rs:271-375 | for any arrival order, with duplicates and other packets in between, a packet completes exactly at the arrival of its last missing fragment, with exactly the split payload |
| ReassemblyRuns.CompletionsUseArrivals | src/fragment.rs:338-362 | over any run, completions of a sequence with a given count, plus what is still held, never exceed the arrivals of any one of its fragments |
| ReassemblyRuns.CompletesAtMostOnce | src/fragment.rs:338-362 | a packet with one fragment that is not duplicated completes at most once |
| ReassemblyRuns.DuplicateCompletesAgain | src/fragment.rs:355-362 | a one-fragment packet completes again on its duplicate: that condition cannot be dropped |
| Bits.WithBitExact | src/sequence_buffer.rs:195-195 | setting a bit with a shifted one changes the answer at that bit and nowhere else |
| PacketQueues.WrappedCursor | src/packet_queue.rs:93-110 | the wrap of a machine-word cursor changes neither slots nor distances, because the slot count divides the word |
| PacketQueues.PacketQueue.Commit | src/packet_queue.rs:93-110 | the bytes a closure wrote into the free slot join the queue at its end; no queued packet changes |
| PacketQueues.PacketQueue.Push | src/packet_queue.rs:119-125 | appends the packet cut to its slot, or drops it exactly when the queue is full |
| PacketQueues.PacketQueue.Drain | src/packet_queue.rs:132-140 | hands over all packets in the order they were written, across the wrap of the cursors, and empties the queue |
| PacketQueues.PacketQueue.Clear | src/packet_queue.rs:144-148 | empties the queue |
| EndpointRuns.AckingMarksExactly | src/endpoint.rs:420-451 | processing acknowledgements marks exactly the tracked packets some set bit stands for and changes nothing else of the sent window |
| EndpointRuns.AckingReports | src/endpoint.rs:420-451 | the list grows by the newly marked packets in order, cut at its capacity, the counter by their number, and none is reported that was marked before |
| EndpointRuns.NextIsInsertable | src/endpoint.rs:185-195 | the insert of the next sequence into the sent window never fails |
| EndpointRuns.SendKeepsInvariant | src/endpoint.rs:174-205 | sending keeps the endpoint's sequence equal to the sent window's and the last min(sent, N) packets all tracked, also past 65535 |
| EndpointRuns.ReceiveKeepsInvariant | src/endpoint.rs:273-403 | no datagram whatever disturbs the alignment, the window bounds, the reassembly invariant or the queue bounds |
| EndpointRuns.AfterKeepsInvariant | src/endpoint.rs:174-637 | the endpoint's invariant holds after every run of operations, whatever datagrams it receives |
| EndpointRuns.ResetIsInitial | src/endpoint.rs:640-654 | `reset` leads back to an initial state from any state, although reassembly slots keep old contents |
| EndpointRuns.SmoothStaysInRange | src/utils.rs:81-87 | with a factor in [0, 1] smoothing stays in any range that holds estimate and sample |
| Statistics.SmoothApproaches | src/utils.rs:81-87 | smoothing keeps `1 - factor` of the distance from the sample, or takes the sample over when it is within 0.00001 |
| EndpointRuns.UpdateKeepsInvariant | src/endpoint.rs:506-536 | the packet loss stays between 0 and 100 |
| EndpointRuns.AcceptedAtMostOncePerHalfCycle | src/endpoint.rs:301-319 | over any run and any datagrams, two acceptances of one 16-bit sequence on the regular path are an advance of the receive head of at least 32768 apart |
| EndpointRuns.ReportedAtMostOnce | src/endpoint.rs:420-451 | over any run each packet is reported at most once, the counter counts the reports, and `get_acks` is those since the last clear, in order, cut at the capacity |
| EndpointRuns.AckedAtMostSent | src/endpoint.rs:420-451 | over any run the counter of acknowledged packets never exceeds that of sent ones |
| Datagram.ReadDatagram | src/endpoint.rs:207-268 | a receiver sees in each datagram of a payload the sequence, acknowledgements and bytes the sender put there, on both paths |
| Datagram.RegularOnWire | src/endpoint.rs:207-218 | an unfragmented payload is one datagram under its sequence: the header's bytes and then the payload, cut at the fragment size plus 14 |
| Datagram.FewestFragments | src/endpoint.rs:220-231 | a fragmented payload is sent in the fewest fragments that cover it, at most 255 and `max_fragments` |
| Datagram.FragmentsOnWire | src/endpoint.rs:236-267 | fragment k is the five bytes of its own header, with id k and the count, in the first fragment the bytes of the packet header, and then the payload's bytes from k times the fragment size, queued under the sequence |
| Datagram.AcksAreRead | src/endpoint.rs:273-382 | the acknowledgements of a datagram are processed exactly if it is not too large and either the first fragment of its packet, or unfragmented, in the receive window and new |
| Acknowledgements.AcksAreComplete | src/endpoint.rs:273-451 | acknowledgement completeness: after every run, whatever the network did, receiving any datagram the peer ever emitted marks every tracked packet that its sender held among its last 32 numbers when composing it, exactly if the endpoint heeds the datagram (not too large, and a first fragment or unfragmented, in the receive window and new); else it marks nothing |
| Acknowledgements.HeedsExactly | src/endpoint.rs:301-382 | heeding a datagram, told from its bytes and number, is the same as its acknowledgements being processed |
| Acknowledgements.AcksMarkOnlyCovered | src/endpoint.rs:420-439 | after every timely run a datagram whose acknowledgements are of the last cycle marks no packet that its sender did not hold among its last 32 numbers |
| Acknowledgements.StaleAcksAreLost | src/endpoint.rs:301-305 | a timely unfragmented datagram less than half a cycle behind the receive window changes nothing of the sent packets: its acknowledgements are lost |
| Acknowledgements.DuplicatesCarryNothingNew | src/endpoint.rs:307-322 | after every timely run, all tracked packets acknowledged by an unfragmented datagram that is refused as a duplicate are marked already, from its first arrival |
| Network.AckAttribution | src/endpoint.rs:420-426 | an acknowledgement that finds a packet finds the right one exactly if it is at most 65536 sends old |
| Network.RunsStayOwn | src/endpoint.rs:174-451 | over every run, whatever the network delivers, both endpoints keep their invariants and emit only datagrams of payloads they accepted, with exact acknowledgements |
| Network.BoundedStalenessIsTimely | src/endpoint.rs:301-311 | a packet is not mistaken for a later one exactly if, when its sequence is accepted, it is within the cycle from the window's oldest number; less than half a cycle of staleness guarantees that |
| Network.RunsStayFaithful | src/endpoint.rs:174-403 | after every run on a timely network, each side's receive window and its datagrams' acknowledgements hold only packets it recorded, and it recorded only packets its peer sent |
| Network.RunsStaySound | src/endpoint.rs:174-451 | if acknowledgements are of the last cycle as well, every packet marked acknowledged on either side is one that the other recorded |
| Network.AcknowledgedMeansRecorded | src/endpoint.rs:174-451 | acknowledgement soundness: over every timely run of the pair with acknowledgements of the last cycle, a packet marked acknowledged was sent, and an earlier move delivered it to the peer, which recorded it |
| Integrity.FragmentKeepsIntact | src/fragment.rs:271-375 | a fragment that finds no open slot of another packet to be stored in keeps every slot to the chunks of the packet that opened it, and completes only with its own packet, however stale it is |
| Integrity.ReceivedPayloadsWereSent | src/endpoint.rs:273-403 | over every unmixed run, stale datagrams included, all that reaches the incoming queue is what the peer sent, byte for byte under its sequence |
| Integrity.UnfragmentedArriveAtMostOnce | src/endpoint.rs:301-329 | over every timely run an unfragmented packet reaches the peer's incoming queue at most once |
| Integrity.FragmentKeepsFit | src/fragment.rs:206-227 | an honest fragment keeps every slot within its sender's packet size, even when it is stored among the chunks of another packet |
| Integrity.DeliveriesFit | src/fragment.rs:218-227 | over every run with no promise of the network at all, no datagram of a peer with packets no larger than the receiver's overruns an incoming slot |
| Mixing.AssemblesToIff | src/fragment.rs:218-227 | parts of chunk sizes assemble to a payload exactly if it has as many chunks and each part is its chunk |
| Mixing.StaysConsistentIff | src/fragment.rs:298-353 | a fragment of another packet stored in an open slot leaves it consistent exactly if its chunk is that of the slot's own packet |
| Mixing.MixedCompletion | src/fragment.rs:298-375 | a slot of one packet completed by a fragment of another yields that other packet exactly if all the other chunks are its own too, and the slot's packet exactly if the last chunk is |
| Deliveries.FragmentKeepsSourced | src/fragment.rs:271-375 | a fragment of a sent packet keeps every slot, already mixed or not, filled with chunks of packets sent under the slot's sequence in as many fragments |
| Deliveries.CompletionIsExact | src/fragment.rs:271-375 | where the receiver stores the sender's chunks whole: after every run, whatever the network did, a datagram of the peer that completes a slot completes it with one chunk for each id, each of some packet sent under this sequence in this many fragments; what comes out is a given payload exactly if all of them are its chunks |
| Deliveries.DeliveredNoMoreThanFragments | src/fragment.rs:338-375 | over every unmixed run, of any length and staleness, a fragmented packet reaches the incoming queue no more often than the network delivered any one of its fragments, packets with equal sequence told apart |
| Mixing.PacketsACycleApartMix | src/fragment.rs:298-375 | for any two payloads of two fragments a run of the pair, in which the first payload loses one fragment and everything else arrives at once, delivers the front of the first with the back of the second |
| RoundTrip.FragmentsArrive | src/endpoint.rs:353-403 | after any distinct fragments of a payload in any order, at a receiver whose tracker accepts the sequence, the payload is in the queue and recorded exactly if all have come, nothing is before, and then the tracker accepts the sequence again |
| RoundTrip.FragmentsRefused | src/fragment.rs:300-308 | at a receiver whose tracker refuses the sequence no fragments of it, in whatever order, deliver or change anything of reassembly |
| RoundTrip.RegularArrives | src/endpoint.rs:292-329 | an unfragmented payload is delivered, whole, exactly if the receive window accepts its sequence as new |
| RoundTrip.PayloadRoundTrip | src/endpoint.rs:174-403 | for every sendable payload, its datagrams in any permutation give a receiver with room, and no slot open under the sequence of a fragmented one, exactly one incoming packet, that payload under that sequence, if the window of the path it takes accepts it, and none otherwise |
| Sessions.UnfragmentedNeverMoveReassembly | src/endpoint.rs:284-329 | over every run, whatever the network delivers and the receiver sends: as long as a side sent only unfragmented packets, the reassembly of its peer is what it was at the start |
| Sessions.FragmentedAfterUnfragmented | src/fragment.rs:300-308 | after every run in which one side sent only unfragmented packets, a fragmented payload, all of whose datagrams are queued and arrive, in any order, at a peer with room, is delivered exactly if the number of packets sent before, modulo 65536, is below 32768 - N or at least 65536 - N, for N reassembly slots |
| Sessions.FragmentsShutOut | src/fragment.rs:300-308 | for every number of packets in the remaining range below 65536 there is a run of that many empty packets, none late or lost, after which the payload is not delivered |
| Limits.WindowSizes | src/sequence_buffer.rs:67-126 | of the powers of two, exactly 2 to 16384 let the half-range comparison keep a window of the last N |
| Limits.NeverCut | src/endpoint.rs:214-214 | no unfragmented payload is cut exactly if the threshold is at most the fragment size plus 5 |
| Limits.ChunksKeptWhole | src/fragment.rs:206-211 | no chunk loses bytes exactly if the fragment size fits 16 bits |
| Limits.EveryAcceptedPayloadIsQueued | src/endpoint.rs:224-231 | a validated configuration queues every payload it accepts exactly if 255 fragments cover the largest, or nothing is fragmented |
| Limits.NeverRefused | src/endpoint.rs:278-282 | the receiver refuses no fragment as too large exactly if a full chunk and its header fit its packet size |
| Limits.EverythingFits | src/fragment.rs:218-227 | if the packet size is that of all fragments together, or there is one fragment, no datagram whatever overruns an incoming slot |
| Limits.AlwaysFits | src/fragment.rs:218-227 | for fragment sizes and counts the headers can express, no run of operations from a fresh endpoint overruns an incoming slot exactly if the packet size is that of all fragments together or there is a single fragment |
| Limits.FragmentsOverrun | src/fragment.rs:218-227 | in all other cases, receiving the chunks of one packet in order overruns the slot with the last of them |
| Limits.DuplicateIsDropped | src/endpoint.rs:301-311 | a datagram of a recorded packet delivers nothing, except exactly when it is the fragment that completes its slot |
| Limits.FragmentsAreDeliveredTwice | src/endpoint.rs:382-403 | at a receiver with room, no slot open and a tracker that accepts the sequence: every payload sent in fragments, of however many, is delivered and recorded when all its datagrams have arrived, in any order, and delivered again when all arrive again, in any order |
| Limits.OneFragmentIsDeliveredTwice | src/endpoint.rs:382-403 | so a payload that its sender puts into one fragment is delivered again by one duplicate |
| Statistics.ScanIsTotal | src/endpoint.rs:546-558 | a scan of the window by wrapped sequences adds every live entry exactly once |
| Statistics.ScansAddBytes | src/endpoint.rs:551-613 | the three scans yield the sum of the bytes of all sent packets, of all received ones, and of exactly the acknowledged ones |
| Statistics.AckedAtMostSentBytes | src/endpoint.rs:600-612 | acknowledged bytes never exceed sent bytes |
| Statistics.DroppedCountsLost | src/endpoint.rs:521-528 | the loss scan counts exactly the unacknowledged packets of the sampled part of the window |
| Statistics.UpdateMovesLoss | src/endpoint.rs:506-536 | an update changes only the loss estimate: it stays while the next sequence is below half the sent buffer, and else keeps `1 - factor` of its distance from the percentage of unacknowledged packets in the sampled half, or takes that over when within 0.00001 |
| Accounting.SendingAddsBytes | src/endpoint.rs:190-195 | sending raises the sent bytes by payload and lower headers modulo 2^32, and the packet that leaves the window takes its bytes out of the sent and, if acknowledged, the acknowledged bytes |
| Accounting.MarkingOneAddsBytes | src/endpoint.rs:425-428 | marking a tracked packet raises the acknowledged bytes by its own and leaves the sent bytes |
| Accounting.ReceivingMarksBytes | src/endpoint.rs:419-451 | any reception raises the acknowledged bytes by those of the packets it newly acknowledges, and leaves the sent bytes |
| Accounting.RecordingAddsBytes | src/endpoint.rs:315-319 | recording a packet adds its bytes to those of the packets that stay in the receive window |
| Accounting.TrackedSizes | src/endpoint.rs:190-195 | over every run, whatever the network does, every tracked packet is accounted with the length of the payload sent under its number plus lower headers, modulo 2^32 |
| Accounting.ReceivingRecordsLength | src/endpoint.rs:315-319 | an accepted unfragmented datagram is recorded with its own length plus lower headers, a packet completed and delivered with that of its payload, under its sequence; nothing else is recorded |
| Accounting.RecordedSizes | src/endpoint.rs:388-402 | over every run every recorded packet is accounted with the length of a datagram of its unfragmented packet, or of the delivered payload of its fragmented one, plus lower headers: a packet of the same sequence, and on a timely network the very packet |
| Counting.RefusalsOnlyCount | src/endpoint.rs:273-417 | an empty datagram changes nothing; one that is too large, undecodable, stale or duplicate, a truncated fragment or a first fragment without readable packet header raises the counter of that kind and changes nothing else (the last is counted as received, too) |
| Counting.ReceptionCounts | src/endpoint.rs:273-417 | every counter after any reception, from the bytes of the datagram and whether it was delivered |
| Counting.SendChanges | src/endpoint.rs:174-268 | a too large payload is only counted; any other takes the next sequence, is tracked with its size, queued as far as there is room, and counted with its fragments; nothing else changes |
| Counting.CountersAreTallies | src/endpoint.rs:174-451 | over every run each of the ten counters is the number of the sends, receptions, refusals, fragments or newly acknowledged packets of its kind |
| Endpoints.Endpoint.New | src/endpoint.rs:128-158 | constructs separate buffers and queues of the configured sizes, in an initial state |
| Endpoints.Endpoint.SendFragmentedPacket | src/endpoint.rs:220-268 | queues header and chunk of every fragment in order as far as the queue has room, and counts all of them |
| Endpoints.Endpoint.SendPacket | src/endpoint.rs:174-205 | on the concrete buffers has the effect that `Counting.SendChanges` spells out, and keeps the invariant |
| Endpoints.Endpoint.ProcessAcks | src/endpoint.rs:420-451 | the loop over the bits marks, lists and counts as the specification does |
| Endpoints.Endpoint.GetAcks | src/endpoint.rs:630-632 | returns exactly the state's acknowledgement list, which `EndpointRuns.ReportedAtMostOnce` shows to be the reports since the last clear |
| Endpoints.Endpoint.IsNew | src/endpoint.rs:301-311 | accepts exactly a sequence that can be inserted and is not recorded |
| Endpoints.Endpoint.ReceiveRegularPacket | src/endpoint.rs:292-329 | records, acknowledges and delivers, in this order, or counts the datagram as invalid or stale, as `Counting.RefusalsOnlyCount` and `Counting.ReceptionCounts` spell out |
| Endpoints.Endpoint.ReceiveFragment | src/endpoint.rs:353-403 | dispatches to reassembly, with the acknowledgements of the first fragment processed at once |
| Endpoints.Endpoint.ReceivePacket | src/endpoint.rs:273-289 | on the concrete buffers has the effect of the specification, whose refusals and counters `Counting` spells out, and keeps the invariant |
| Endpoints.Endpoint.DrainIncoming | src/endpoint.rs:471-473 | hands over the delivered packets in order and empties the queue, and changes nothing else |
| Endpoints.Endpoint.UpdatePacketLoss | src/endpoint.rs:506-536 | moves the estimate as `Statistics.LossUpdated` says and changes nothing else; it stays within 0 to 100 |
| Endpoints.Endpoint.BandwidthBytes | src/endpoint.rs:538-611 | returns the sum of the bytes of all sent packets, of all received ones and of the acknowledged ones, the last at most the first |
| Endpoints.Endpoint.Reset | src/endpoint.rs:640-654 | every part is reset in place: the endpoint is valid and initial again, with its configuration |

## Left out

- Time: clocks, round-trip times and the division of byte sums by durations, so the smoothed bandwidths.
- Floating point: packet loss is computed over the reals.
- u64 counters are natural numbers; their wrap-around is not modelled.
- Logging, the endpoint's name and the deprecated `take_*` wrappers: they add no state.
- The optional accessors `iter`, `iter_range`, `insert_with`, `bits_required`: the endpoint does not use them.
- The `ack` and `ack_bits` stored in a reassembly slot: written and never read.
- Allocation behaviour and latency: not functional properties.
- Sockets and threads: the network is the set of emitted datagrams, and moves choose among them.
- `validate` itself: it is the source of the predicate `Config.Validated`.
- Closures: `write_slot` is split into choosing the slot, filling its buffer and committing it; `drain` returns
  what it would pass to its closure.
- The references that `insert` and `find_mut` return: the caller's write through them is part of the method.
- `|=` on the header's prefix byte and shifts of the acknowledgement word are arithmetic on disjoint bits;
  the masks and shifts of ring indices, acknowledgement bits and the fragment mask are bitwise.
- ReassemblyBuffers.FragmentReassemblyBuffer.ProcessFragment: requires that a completed payload fits the
  incoming slot, where the source panics.
- Endpoints.Endpoint.ReceiveFragment: requires `Fits`, for the same reason.
- Endpoints.Endpoint.ReceivePacket: requires `Fits`, for the same reason.
- Network.RunsStayFaithful: runs of the pair do not contain `reset`, which forgets the numbers the two sides share.
- Network.RunsStaySound: the same.
- Integrity.ReceivedPayloadsWereSent: says nothing of how often a packet arrives; fragmented ones can arrive twice.
