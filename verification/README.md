# Verification of the DTLS transport, the TLS handshake and the protobuf codec

The application in this repository ships two libraries as source, BoringSSL and nanopb. This project models the parts
of them that carry state from one step to the next, and proves what they are for. It checks with
`dafny verify dfyconfig.toml`. Nothing was executed.

**DTLS handshake transport** (RFC 6347, sections 4.1.2.6, 4.2.2, 4.2.3, 4.2.4 and 4.2.6).
`DtlsWire` has the formats, `DtlsReassembly` the bitmask of a message under reassembly, `DtlsReplay` the sliding
window, `DtlsRecord`, `DtlsWriter` and `DtlsNonces` the record layer and its numbers, `DtlsReceiver` the specification
of the seven-slot ring and `DtlsReader` the object that implements it, `DtlsSender` the specification of the flight
and its cursor and `DtlsFlight` the object. `DtlsEndToEnd`, `DtlsDelivery` and `DtlsConversation` join the two ends
over a channel that loses, repeats, reorders and overlaps, `DtlsKeys` over changes of key, `DtlsAlerts` has the records
that are not of the handshake, and `DtlsMtu` says which packet sizes they bear. The cipher is an abstract function with
an inverse and a bounded overhead.

**nanopb** (Protocol Buffers Encoding, sections "Base 128 Varints" and "Message Structure"). `PbVarint` and
`PbVarintLong` have the number formats, `PbModel` the descriptors, messages and the field iterator, `PbEncode` and
`PbDecode` the specification of the two directions, and `PbEncoder` and `PbDecoder` the stream code. The laws are in
`PbRoundTrip`, `PbLoss` and `PbDefaults` (what comes back), `PbUnknown` and `PbEvolution` (descriptors that have grown
apart), `PbPieces` and `PbMerge` (fields that come in parts or more than once), `PbRequired`, `PbRefusal` and `PbBounds`
(what is checked) and `PbGuide` (the examples of the encoding guide). A message is a sequence of typed slots, one per
field, the members of a oneof sharing one.

**TLS 1.0 to 1.2** (RFC 5246, sections 7.1, 7.3 and 7.4.9). `TlsCipherChoice` has the grouped cipher selection,
`TlsBuffer` and `TlsWrite` the retried write of application data, `Refcount` the compare-exchange counter beside the
locked one. `TlsHandshake`, `TlsClient` and `TlsServer` have the two state machines as functions, one per state, over
abstract messages; `TlsClientMachine` and `TlsServerMachine` the objects with the loop over the states and the driver
that hands over and takes in; `TlsClientChecks` and `TlsServerChecks` what an arbitrary peer can make of them;
`TlsScript`, `TlsClientFollows`, `TlsServerFollows` and `TlsComposed` the proof that the
two machines, joined, always can finish.

Results about the code that a caller should know:

- A fragment numbered `read_seq + 7` passes the window filter and is then refused with a fatal alert, where every
  other number outside the window is ignored (`DtlsReceiver.FragmentIsFatalExactly`). The comment at
  `assassinGame/Pods/BoringSSL-GRPC/ssl/d1_both.cc:378-384` speaks of ignoring such fragments.
- A seal that wraps the sequence counter fails but leaves the counter at zero, so a caller that goes on uses number
  zero of that epoch again (`DtlsNonces.WrapRepeatsZero`). `DtlsNonces.ConnectionIsUniqueExactly` and
  `DtlsNonces.UniqueIffStopsAtWrap` say exactly which runs use no number twice, and `DtlsNonces.NullCipherRepeats`
  that there are runs that do.
- A seal that fails in mid-packet leaves the cursor of the flight behind records that were never sent, unlike a failed
  write (`DtlsSender.SealFailureSkips`, `DtlsMtu.LastNumberLosesRecord`).
- `SSL_set_mtu` takes any size from the minimum up (`assassinGame/Pods/BoringSSL-GRPC/ssl/ssl_lib.cc:1676-1682`) and
  handshake messages are cut by it alone, so that above 2^14 bytes of room a long message goes out in a record that the
  receiver answers with a fatal alert (`DtlsMtu.BigMessageBreaks`, `DtlsMtu.BigPacketBreaksConnection`), or, when it
  needs 2^16 bytes, cannot be sealed (`DtlsMtu.OneMessageGoesOutExactly`). `DtlsMtu.SafeMtuExactly` says which packet
  sizes are safe.
- `pb_check_proto3_default_value` takes the first four bytes of an array without a stored count for the count
  (`assassinGame/Pods/nanopb/pb_encode.c:228-232`). A proto3 singular submessage that starts with such an array and
  whose leading bytes are zero is left out whatever follows: of the pair 0, 5 nothing comes back
  (`PbLoss.FirstNumberDecides`). `PbLoss.RoundTrip` says exactly which messages come back.
- The 32-bit varint decoder drops the bits 0x70 of a fifth byte that continues (`PbVarint.LongVarintLosesBits`), lets
  sign extensions through, and refuses a tenth byte of which the 64-bit decoder keeps nothing.
  `PbVarintLong.DecodersAgreeExactly` says exactly when it reads what the 64-bit decoder reads.
- A record that does not open under the key is dropped alone, and what follows it in its packet is read
  (`DtlsDelivery.ForeignIsIgnored`), where the comment at
  `assassinGame/Pods/BoringSSL-GRPC/ssl/dtls_record.cc:241-242` speaks of dropping the entire packet.
- A string that fills its field does not come back, because decoding needs room for the terminator
  (`PbRoundTrip.StringRoundTripsIfTerminated`).
- `pb_field_iter_find` finds tag 0 in a descriptor without fields (`PbModel.FieldIter.Find`).

## Model

| member | source | states |
|---|---|---|
| `DtlsWire.ParseSerialized` | assassinGame/Pods/BoringSSL-GRPC/ssl/d1_both.cc:459-473 | parsing a serialized fragment, whatever follows it, gives back the header and the body and leaves what follows |
| `DtlsWire.SerializeParsed` | assassinGame/Pods/BoringSSL-GRPC/ssl/d1_both.cc:459-473 | whatever parses is the serialization of what was parsed, followed by the rest: the format has one spelling |
| `DtlsWire.FragmentLayout` | assassinGame/Pods/BoringSSL-GRPC/ssl/d1_both.cc:459-473 | type, message length, number, offset and length of a fragment lie in this order, each most significant byte first, in 1, 3, 2, 3 and 3 bytes before the body |
| `DtlsWire.WholeMessageIsRaw` | assassinGame/Pods/BoringSSL-GRPC/ssl/d1_both.cc:679-692 | bytes read as one whole message exactly when they are the unfragmented serialization of it |
| `DtlsWire.FinishMessage` | assassinGame/Pods/BoringSSL-GRPC/ssl/d1_both.cc:525-537 | in place, the fragment length becomes the message length and nothing else changes; too short a message is refused untouched |
| `DtlsWire.FinishedIsRaw` | assassinGame/Pods/BoringSSL-GRPC/ssl/d1_both.cc:511-537 | what finishing makes of a started message is its unfragmented serialization |
| `DtlsReassembly.BitRangeBit` | assassinGame/Pods/BoringSSL-GRPC/ssl/d1_both.cc:201-205 | bit `k` of a range mask is set iff `start <= k < end` |
| `DtlsReassembly.MarkBits` | assassinGame/Pods/BoringSSL-GRPC/ssl/d1_both.cc:213-236 | after or-ing the edge bytes and filling the middle, bit `i` is set iff it was or lies in the range; no index leaves the array |
| `DtlsReassembly.AllMarked` | assassinGame/Pods/BoringSSL-GRPC/ssl/d1_both.cc:238-248 | the scan of whole bytes and the last partial byte says yes iff the first `msg_len` bits are all set |
| `DtlsReassembly.HmFragment.constructor` | assassinGame/Pods/BoringSSL-GRPC/ssl/d1_both.cc:152-199 | a new fragment holds no byte and carries the header of the whole message |
| `DtlsReassembly.HmFragment.Mark` | assassinGame/Pods/BoringSSL-GRPC/ssl/d1_both.cc:207-251 | a byte is marked iff it was or lies in the range; bad ranges and a released mask change nothing; the mask keeps its spare bits clear |
| `DtlsReassembly.HmFragment.Receive` | assassinGame/Pods/BoringSSL-GRPC/ssl/d1_both.cc:393-401 | copying and marking a body is writing it into the abstract message |
| `DtlsReassembly.HmFragment.CompleteIffReleased` | assassinGame/Pods/BoringSSL-GRPC/ssl/d1_both.cc:207-251 | the mask is released exactly when no byte is missing |
| `DtlsReassembly.HmFragment.RawIfComplete` | assassinGame/Pods/BoringSSL-GRPC/ssl/d1_both.cc:408-424 | the bytes of a complete fragment are the unfragmented serialization of its message |
| `DtlsReassembly.AssembledIsCovered` | assassinGame/Pods/BoringSSL-GRPC/ssl/d1_both.cc:207-251 | after any pieces, a byte is there iff it was or some piece covers it; the message is complete iff all are covered |
| `DtlsReassembly.HonestPiecesRebuild` | assassinGame/Pods/BoringSSL-GRPC/ssl/d1_both.cc:378-401 | pieces of one body, overlapping or repeated, in any order, never build anything else, and build all of it once they cover it |
| `DtlsReplay.Bitmap.ShouldDiscard` | assassinGame/Pods/BoringSSL-GRPC/ssl/dtls_record.cc:138-150 | the 64-bit window decides as its specification |
| `DtlsReplay.Bitmap.Record` | assassinGame/Pods/BoringSSL-GRPC/ssl/dtls_record.cc:152-175 | shifting and setting bits is the specified update of the window |
| `DtlsReplay.DiscardsExactlySeenOrStale` | assassinGame/Pods/BoringSSL-GRPC/ssl/dtls_record.cc:138-150 | a number is discarded iff it was seen or lies 64 or more behind the largest |
| `DtlsReplay.RecordAdds` | assassinGame/Pods/BoringSSL-GRPC/ssl/dtls_record.cc:152-175 | recording a number adds it, and it alone, to the set the window stands for |
| `DtlsReplay.WindowOfRun` | assassinGame/Pods/BoringSSL-GRPC/ssl/dtls_record.cc:225-259 | after any run of arrivals, authentic or not, the window stands for exactly the accepted numbers |
| `DtlsReplay.NoReplayAccepted` | assassinGame/Pods/BoringSSL-GRPC/ssl/dtls_record.cc:225-259 | in no run are two records with one number accepted |
| `DtlsReplay.OnlyReplaysAndStaleDropped` | assassinGame/Pods/BoringSSL-GRPC/ssl/dtls_record.cc:225-259 | an authentic record that is dropped repeats an accepted number or lies 64 or more behind one |
| `DtlsRecord.SequenceInjective` | assassinGame/Pods/BoringSSL-GRPC/ssl/dtls_record.cc:177-272 | the eight bytes of epoch and number determine both |
| `DtlsRecord.ParseWire` | assassinGame/Pods/BoringSSL-GRPC/ssl/dtls_record.cc:177-222 | a sealed record, whatever follows it in the packet, parses into its parts |
| `DtlsRecord.RecordLayout` | assassinGame/Pods/BoringSSL-GRPC/ssl/dtls_record.cc:320-348 | type, version, epoch, 48-bit number and length of a record lie in this order, most significant byte first, before the ciphertext |
| `DtlsRecord.RecordReader.Open` | assassinGame/Pods/BoringSSL-GRPC/ssl/dtls_record.cc:177-272 | opening a record does what its specification says: result, bytes consumed, window, warnings and shutdown |
| `DtlsRecord.IncrementAddsOne` | assassinGame/Pods/BoringSSL-GRPC/ssl/tls_record.cc:154-163 | counting up big-endian bytes with carry adds one, modulo the width |
| `DtlsRecord.SequenceUpdate` | assassinGame/Pods/BoringSSL-GRPC/ssl/tls_record.cc:154-163 | the in-place update counts the last six bytes up, leaves the epoch alone, and fails exactly on all ones |
| `DtlsRecord.OnesIsLast` | assassinGame/Pods/BoringSSL-GRPC/ssl/tls_record.cc:154-163 | all ones is the last number of the width |
| `DtlsWriter.RecordWriter.Seal` | assassinGame/Pods/BoringSSL-GRPC/ssl/dtls_record.cc:294-351 | sealing on the byte counters does what the specification says, for the current and the previous epoch |
| `DtlsWriter.RecordWriter.SetWriteState` | assassinGame/Pods/BoringSSL-GRPC/ssl/dtls_method.cc:97-107 | a new write epoch starts from zero under the new key, and the counter and the key of the old epoch become those of the previous one |
| `DtlsNonces.StepStaysAhead` | assassinGame/Pods/BoringSSL-GRPC/ssl/dtls_record.cc:294-351 | every operation seals under a pair not used before and stays ahead of all used pairs, up to a wrap |
| `DtlsNonces.NumbersAreUnique` | assassinGame/Pods/BoringSSL-GRPC/ssl/dtls_record.cc:304-336 | no pair of epoch and number is used by two successful seals of a run that mixes current and previous epochs and epoch changes, before the first wrap |
| `DtlsNonces.FreshConnectionIsUnique` | assassinGame/Pods/BoringSSL-GRPC/ssl/dtls_record.cc:304-336 | so for every run from a new connection |
| `DtlsNonces.WrapRepeatsZero` | assassinGame/Pods/BoringSSL-GRPC/ssl/dtls_record.cc:318-336 | the seal that wraps fails, but leaves the counter at zero, which the next seal of that epoch then uses |
| `DtlsNonces.SealSpendsExactly` | assassinGame/Pods/BoringSSL-GRPC/ssl/dtls_record.cc:330-351 | a seal uses up its number iff the cipher gives a text that fits the output; it gives a record iff that text is also shorter than 2^16 bytes and the number was not the last |
| `DtlsNonces.ConnectionIsUniqueExactly` | assassinGame/Pods/BoringSSL-GRPC/ssl/dtls_record.cc:304-336 | over all runs of a new connection, with wraps, failures and epoch changes: no pair is used twice iff, in an epoch whose counter has wrapped, seals succeed only under numbers that were used up without a record before |
| `DtlsNonces.UniqueIffStopsAtWrap` | assassinGame/Pods/BoringSSL-GRPC/ssl/dtls_record.cc:304-336 | where the output buffers leave no room for a record of 2^16 bytes or more: no pair is used twice iff no seal succeeds in an epoch after its counter wrapped |
| `DtlsNonces.WrappingRunRepeats` | assassinGame/Pods/BoringSSL-GRPC/ssl/dtls_record.cc:304-336 | under any cipher that always seals, a new connection can be run through all its numbers, past the wrap and on: number zero is used twice |
| `DtlsNonces.NullCipherRepeats` | assassinGame/Pods/BoringSSL-GRPC/ssl/dtls_record.cc:304-336 | such a run exists: with the cipher of a new connection, which leaves the text as it is |
| `DtlsKeys.EveryRecordIsUnderItsKey` | assassinGame/Pods/BoringSSL-GRPC/ssl/dtls_method.cc:97-107 | over every run from a new connection, with records of the current and the previous epoch and changes of key in any order: each record is sealed under the key installed for the epoch in its header, and the keys kept are the last two |
| `DtlsKeys.EveryRecordOpens` | assassinGame/Pods/BoringSSL-GRPC/ssl/dtls_record.cc:304-313 | so the reader that has the key of its epoch opens whatever record of that epoch a run seals, if the record is new and not too long |
| `DtlsKeys.BothEpochsReceive` | assassinGame/Pods/BoringSSL-GRPC/ssl/dtls_record.cc:304-313 | of a flight queued partly before and partly after a change of key, and sent again after it in whatever pieces, every record can be received in the epoch of its header, by a receiver still in the old epoch or already in the new one, and is noise in the other |
| `DtlsKeys.FlightCrossesKeys` | assassinGame/Pods/BoringSSL-GRPC/ssl/d1_both.cc:641-845 | such a flight gets through: what was queued before the change is read under the old key, the ChangeCipherSpec and the new key are taken, and the rest is read under the new key, in order, whatever the pieces and the channel |
| `DtlsReader.HandshakeReader.GetIncoming` | assassinGame/Pods/BoringSSL-GRPC/ssl/d1_both.cc:265-295 | finds or creates the fragment in its slot and touches no other slot; outside the window or on a mismatch it changes nothing |
| `DtlsReader.HandshakeReader.ProcessFragment` | assassinGame/Pods/BoringSSL-GRPC/ssl/d1_both.cc:363-402 | one fragment does what the specification says, with its alert if it fails |
| `DtlsReader.HandshakeReader.ProcessFragments` | assassinGame/Pods/BoringSSL-GRPC/ssl/d1_both.cc:351-406 | so do all fragments of a record, up to the first failure |
| `DtlsReader.HandshakeReader.OpenHandshake` | assassinGame/Pods/BoringSSL-GRPC/ssl/d1_both.cc:297-406 | so does opening a handshake record |
| `DtlsReader.HandshakeReader.OpenChangeCipherSpec` | assassinGame/Pods/BoringSSL-GRPC/ssl/d1_both.cc:475-490 | a ChangeCipherSpec that came early is used; otherwise one record is read |
| `DtlsReader.HandshakeReader.GetMessage` | assassinGame/Pods/BoringSSL-GRPC/ssl/d1_both.cc:408-424 | hands out the front message iff it is complete, with the unfragmented bytes |
| `DtlsReader.HandshakeReader.NextMessage` | assassinGame/Pods/BoringSSL-GRPC/ssl/d1_both.cc:426-438 | frees the slot of the current message and moves the window by one |
| `DtlsReader.HandshakeReader.SetReadState` | assassinGame/Pods/BoringSSL-GRPC/ssl/dtls_method.cc:81-95 | switches epoch, key and replay window, or refuses and changes nothing |
| `DtlsReceiver.OpenKeepsValid` | assassinGame/Pods/BoringSSL-GRPC/ssl/d1_both.cc:297-406 | every record, hostile or not, keeps the ring: an occupied slot holds a message of the window whose number selects that slot, and a message being handed out stays complete |
| `DtlsReceiver.FragmentKeepsCurrent` | assassinGame/Pods/BoringSSL-GRPC/ssl/d1_both.cc:363-402 | no fragment changes a complete front message |
| `DtlsReceiver.EpochChangeNeedsEmptyBuffer` | assassinGame/Pods/BoringSSL-GRPC/ssl/dtls_method.cc:81-95 | the read epoch changes iff no other message of the window is buffered and no ChangeCipherSpec is pending |
| `DtlsReceiver.FragmentIsFatalExactly` | assassinGame/Pods/BoringSSL-GRPC/ssl/d1_both.cc:265-284 | a fragment ends the connection iff it does not fit its message or the largest message, contradicts the type or length of what is there of it, or has a number that may not come: in read epoch 1 any but the next, otherwise `read_seq + 7`, which the filter admits and the lookup refuses; with the alert of each; other numbers outside the window change nothing |
| `DtlsReceiver.RecordIsTakenExactly` | assassinGame/Pods/BoringSSL-GRPC/ssl/d1_both.cc:349-406 | a handshake record, whatever is in it, is taken iff it consists of whole fragments, each of which could be taken alone, and those of one message agree on type and length |
| `DtlsFlight.FlightSender.AddOutgoing` | assassinGame/Pods/BoringSSL-GRPC/ssl/d1_both.cc:553-594 | refuses exactly when the flight under way has seven messages or the message is 2^32 bytes or longer; otherwise the message is last, with the write epoch, those before it and the cursor are as they were, or gone if that flight was finished, and the numbers of the flight stay consecutive |
| `DtlsFlight.FlightSender.SealNextMessage` | assassinGame/Pods/BoringSSL-GRPC/ssl/d1_both.cc:641-734 | seals the next fragment as specified, moving the cursor and the counters |
| `DtlsFlight.FlightSender.SealNextPacket` | assassinGame/Pods/BoringSSL-GRPC/ssl/d1_both.cc:736-780 | fills one packet as specified |
| `DtlsFlight.FlightSender.SendFlight` | assassinGame/Pods/BoringSSL-GRPC/ssl/d1_both.cc:782-827 | the sending loop ends, and in the state and with the packets that the recursive specification gives, whatever the transport answers |
| `DtlsFlight.FlightSender.FlushFlight` | assassinGame/Pods/BoringSSL-GRPC/ssl/d1_both.cc:829-834 | the flight is closed to additions; the packets are within the MTU, are those the transport took, and tile the flight from the cursor, to its end on success; the cursor is then behind them and behind the records of a packet in which a seal failed, whatever is returned; a ready sender on a working transport succeeds |
| `DtlsFlight.FlightSender.Retransmit` | assassinGame/Pods/BoringSSL-GRPC/ssl/d1_both.cc:836-845 | the same from the start of the flight, wherever the cursor was and however the flight was cut before |
| `DtlsSender.SealNextSteps` | assassinGame/Pods/BoringSSL-GRPC/ssl/d1_both.cc:641-734 | a sealed record is exactly the next piece of the flight at the cursor: its offset, length and body |
| `DtlsSender.PackSteps` | assassinGame/Pods/BoringSSL-GRPC/ssl/d1_both.cc:736-780 | the records of a packet follow one another in the flight and the packet is at most as long as allowed |
| `DtlsSender.SealPacketAdvances` | assassinGame/Pods/BoringSSL-GRPC/ssl/d1_both.cc:736-780 | every successful packet strictly advances the cursor |
| `DtlsSender.SealPacketLeavesLess` | assassinGame/Pods/BoringSSL-GRPC/ssl/d1_both.cc:782-827 | so what is left shrinks, and sending ends |
| `DtlsSender.SendPacketsTile` | assassinGame/Pods/BoringSSL-GRPC/ssl/d1_both.cc:782-827 | the packets sent tile the flight from the cursor without gap or overlap, each within the MTU; after a failed write the cursor is where it was before that packet |
| `DtlsSender.FragmentsTileBody` | assassinGame/Pods/BoringSSL-GRPC/ssl/d1_both.cc:693-733 | the bodies of one message's fragments, joined, are its body |
| `DtlsSender.InterruptedFlightTiles` | assassinGame/Pods/BoringSSL-GRPC/ssl/d1_both.cc:782-845 | the same over any number of interrupted attempts with changing MTUs |
| `DtlsSender.StepsSplit` | assassinGame/Pods/BoringSSL-GRPC/ssl/d1_both.cc:782-827 | a run of records can be cut at every message boundary |
| `DtlsSender.PacketsWereTaken` | assassinGame/Pods/BoringSSL-GRPC/ssl/d1_both.cc:782-827 | the packets given back are those the transport took, and a failed write returns its answer to the next one |
| `DtlsSender.SealFailureSkips` | assassinGame/Pods/BoringSSL-GRPC/ssl/d1_both.cc:736-827 | after a failed seal the cursor is behind the records of the packet that was being filled, which the transport never gets; it is behind what the transport got iff that packet was empty; after any other result nothing is lost |
| `DtlsMtu.LastNumberLosesRecord` | assassinGame/Pods/BoringSSL-GRPC/ssl/d1_both.cc:736-780 | such a loss: with one number of the epoch left, the first of two ChangeCipherSpecs is sealed and skipped without being sent |
| `DtlsSender.FlightGoesOut` | assassinGame/Pods/BoringSSL-GRPC/ssl/d1_both.cc:782-827 | with a working cipher and transport and an MTU that holds one byte of body, the whole flight is sent, if none of its records can need 2^16 bytes |
| `DtlsMtu.OneMessageGoesOutExactly` | assassinGame/Pods/BoringSSL-GRPC/ssl/dtls_record.cc:336-341 | that condition is exact: under a cipher that adds all it may, a flight of one message is sent iff the MTU does not make its first record 2^16 bytes long |
| `DtlsEndToEnd.ArrivalExplained` | assassinGame/Pods/BoringSSL-GRPC/ssl/d1_both.cc:297-406 | every arrival keeps the buffers equal to what the fragments so far build of the sender's messages |
| `DtlsEndToEnd.GetIsNextMessage` | assassinGame/Pods/BoringSSL-GRPC/ssl/d1_both.cc:408-424 | the front message is handed out iff its fragments have all arrived, and it is the sender's |
| `DtlsEndToEnd.RunInvariant` | assassinGame/Pods/BoringSSL-GRPC/ssl/d1_both.cc:255-457 | the invariant holds over every run of arrivals, reads, epoch changes and ChangeCipherSpecs |
| `DtlsEndToEnd.HandsOutPrefix` | assassinGame/Pods/BoringSSL-GRPC/ssl/d1_both.cc:378-438 | safety: under any loss, repetition, overlap and reordering of the sender's fragments the messages handed out are a prefix of the sender's list, each once and in order |
| `DtlsEndToEnd.ArrivedMessagesAreDelivered` | assassinGame/Pods/BoringSSL-GRPC/ssl/d1_both.cc:408-438 | liveness: messages of the window whose bytes have all arrived are handed out by reading on |
| `DtlsDelivery.SealedRecordOpens` | assassinGame/Pods/BoringSSL-GRPC/ssl/dtls_record.cc:177-272 | what becomes of any record sealed under the shared key: too long a ciphertext drops the packet, a replay or stale number the record, more than 2^14 bytes of plaintext ends the connection, and any other opens to its content |
| `DtlsDelivery.ForeignIsIgnored` | assassinGame/Pods/BoringSSL-GRPC/ssl/dtls_record.cc:225-249 | a record of another epoch, or one that does not open under the key, is dropped and changes nothing; what follows it in the packet is still read |
| `DtlsDelivery.MisfitIsIgnored` | assassinGame/Pods/BoringSSL-GRPC/ssl/dtls_record.cc:193-220 | a record with too long a ciphertext, or of a version that is not that of the key (before the first key, not of DTLS), is dropped with all of its packet and changes nothing |
| `DtlsDelivery.FragmentIsTaken` | assassinGame/Pods/BoringSSL-GRPC/ssl/d1_both.cc:363-402 | a fragment of a message in the window is accepted and logged, and one of an older message is ignored |
| `DtlsDelivery.AsideIsPassedOver` | assassinGame/Pods/BoringSSL-GRPC/ssl/d1_both.cc:306-345 | an authentic, new record that is no handshake record and no alert leaves all messages as they are and has its number recorded; application data under a key is discarded, a ChangeCipherSpec with its one content before the first key is noted; application data without a key, an encrypted ChangeCipherSpec and any other type end the connection as unexpected, another content as illegal |
| `DtlsDelivery.DeliverNext` | assassinGame/Pods/BoringSSL-GRPC/ssl/dtls_record.cc:225-272 | one record of a flight or of another type out of the channel, if nothing seen is 64 ahead of it: the connection goes on iff it survives the record or its number was seen; then it has been taken, now or before, the window remembers it, and a ChangeCipherSpec is pending iff one was or this is a new one |
| `DtlsDelivery.ScheduleIsTaken` | assassinGame/Pods/BoringSSL-GRPC/ssl/d1_both.cc:297-406 | for records of any transmissions, mixed with application data, ChangeCipherSpecs and other records of the same key, repeated, reordered and mixed with noise, with none too late for the replay window: the connection lasts iff no new record is delivered that it does not survive, and then every record delivered is taken, and a ChangeCipherSpec is pending iff one was or a new one came |
| `DtlsDelivery.FlightSurvivesChannel` | assassinGame/Pods/BoringSSL-GRPC/ssl/d1_both.cc:297-438 | sender to receiver: under any loss, repetition, reordering, noise, other records of the key and change of MTU between transmissions the connection lasts iff no new record is delivered that it does not survive; and then, as soon as each byte of the next messages has come in some record of some transmission, exactly these messages can be read, in order |
| `DtlsMtu.SendAllCut` | assassinGame/Pods/BoringSSL-GRPC/ssl/d1_both.cc:693-733 | every record of a flight sent in any number of attempts is sealed under a key in use, with plaintext and overhead within the largest packet size |
| `DtlsMtu.SentIsReceivable` | assassinGame/Pods/BoringSSL-GRPC/ssl/d1_both.cc:641-845 | so every record that a sender hands out, whatever the packet sizes and interruptions, is one that the channel theorem speaks of, or, if of another epoch or too long to be parsed, noise |
| `DtlsMtu.SafeMtuNeverOverflows` | assassinGame/Pods/BoringSSL-GRPC/ssl/d1_both.cc:693-733 | no flight has a record that overflows under packet sizes that leave at most 2^14 bytes of plaintext, changing from attempt to attempt |
| `DtlsMtu.SafeMtuExactly` | assassinGame/Pods/BoringSSL-GRPC/ssl/d1_both.cc:693-733 | these are exactly the packet sizes under which no flight has such a record, for ciphers that work |
| `DtlsMtu.ShortMessagesNeverOverflow` | assassinGame/Pods/BoringSSL-GRPC/ssl/d1_both.cc:693-733 | messages that with their header fit 2^14 bytes have no such record under any packet size |
| `DtlsMtu.OneMessageOverflowsExactly` | assassinGame/Pods/BoringSSL-GRPC/ssl/d1_both.cc:693-733 | a flight of one message has such a record iff the message with its header and the room of a packet both exceed 2^14 bytes |
| `DtlsMtu.OverflowEnds` | assassinGame/Pods/BoringSSL-GRPC/ssl/dtls_record.cc:252-257 | such a record, if it is not discarded, ends the connection of every receiver that has its key |
| `DtlsMtu.BigMessageBreaks` | assassinGame/Pods/BoringSSL-GRPC/ssl/ssl_lib.cc:1676-1682 | under the cipher of a new connection, every message of more than 2^14 bytes with its header breaks a new connection under every packet size from 2^14 + 14 bytes up to what the receiver can parse |
| `DtlsMtu.BigPacketBreaksConnection` | assassinGame/Pods/BoringSSL-GRPC/ssl/ssl_lib.cc:1676-1682 | so a message of 16373 bytes, below the usual limit, at a packet size of 16398 |
| `DtlsMtu.SafeFlightSurvivesChannel` | assassinGame/Pods/BoringSSL-GRPC/ssl/d1_both.cc:297-438 | sender to receiver, from the packet sizes: transmissions under safe ones, or of short messages, mixed with application data under a key in use, never end the connection, and what has come in any of them is handed out |
| `DtlsDelivery.TransmissionCompletes` | assassinGame/Pods/BoringSSL-GRPC/ssl/d1_both.cc:641-845 | a transmission all of whose records are delivered completes each of its messages |
| `DtlsConversation.RoundSurvives` | assassinGame/Pods/BoringSSL-GRPC/ssl/d1_both.cc:297-438 | one round of deliveries and reads: the connection lasts iff the deliveries are harmless, and then the log, the replay window and what has been taken are as the next round needs them |
| `DtlsConversation.ConversationSurvives` | assassinGame/Pods/BoringSSL-GRPC/ssl/d1_both.cc:297-438 | deliveries and reads in turn, any number of times, so for flights longer than the window too: the connection lasts iff all deliveries are harmless, and then exactly the messages read are handed out, in order, each once its bytes have come in any of the rounds so far |
| `DtlsConversation.NewConversationSurvives` | assassinGame/Pods/BoringSSL-GRPC/ssl/d1_both.cc:297-438 | so from a new connection |
| `DtlsConversation.SwitchSurvives` | assassinGame/Pods/BoringSSL-GRPC/ssl/dtls_method.cc:81-95 | using the ChangeCipherSpec and changing the key, where nothing is left over, starts the replay window afresh and keeps what has been taken |
| `DtlsConversation.ConversationCrossesEpochs` | assassinGame/Pods/BoringSSL-GRPC/ssl/dtls_method.cc:81-95 | what is read under one key, the change of key and what is read under the next make one run that hands out all these messages in order, if a ChangeCipherSpec came in the first part and no message is left over |
| `DtlsAlerts.WarningsAreBounded` | assassinGame/Pods/BoringSSL-GRPC/ssl/tls_record.cc:574-588 | of warning alerts mixed with other authentic records, the fifth in a row ends the connection and every other warning is ignored; any other record is opened |
| `DtlsAlerts.CloseNotifyIsFinal` | assassinGame/Pods/BoringSSL-GRPC/ssl/tls_record.cc:568-572 | a close_notify closes the connection for reading: from then on every input is answered so and none of it is used |
| `DtlsAlerts.OtherAlertsAreFatal` | assassinGame/Pods/BoringSSL-GRPC/ssl/tls_record.cc:551-600 | every alert that is neither a warning nor a close_notify ends the connection, with the answer the source has for it |
| `DtlsAlerts.CcsIsAwaited` | assassinGame/Pods/BoringSSL-GRPC/ssl/d1_both.cc:475-490 | waiting for a ChangeCipherSpec ends at once if one is pending, which is then used and nothing read; otherwise the next record is handled as during the handshake, and the wait ends iff it is a new ChangeCipherSpec that is accepted; none is pending afterwards |
| `PbVarint.VarintBytes` | assassinGame/Pods/nanopb/pb_encode.c:574-594 | the loop over a local buffer writes the varint of the value |
| `PbVarint.VarintLength` | assassinGame/Pods/nanopb/pb_encode.c:574-594 | a varint takes one byte per seven bits, and one for zero |
| `PbVarint.VarintGroups` | assassinGame/Pods/nanopb/pb_encode.c:574-594 | the seven-bit groups of a varint, least significant first, make up the value, and exactly its last byte has the top bit clear |
| `PbVarint.VarintFitsTen` | assassinGame/Pods/nanopb/pb_encode.c:574-594 | a 64-bit value takes at most ten bytes |
| `PbVarint.VarintRoundTrip` | assassinGame/Pods/nanopb/pb_decode.c:250-270 | decoding the varint of any 64-bit value gives the value and consumes exactly its bytes |
| `PbVarint.Varint32RoundTrip` | assassinGame/Pods/nanopb/pb_decode.c:182-247 | so does the 32-bit decoder for 32-bit values |
| `PbVarint.ShortVarintsAgree` | assassinGame/Pods/nanopb/pb_decode.c:182-270 | for encodings of at most five bytes the 32-bit decoder succeeds iff the 64-bit value is below 2^32, with the same value and the same rest |
| `PbVarint.LongVarintsAgree` | assassinGame/Pods/nanopb/pb_decode.c:182-270 | for encodings of up to ten bytes, the tenth at most one, both decoders read every number below 2^32 alike, whatever its padding, and what the 32-bit decoder reads is the number modulo 2^32 |
| `PbVarint.LongVarintLosesBits` | assassinGame/Pods/nanopb/pb_decode.c:205-232 | the two decoders can read different numbers: one six-byte encoding reads as 0 and as 0x700000000 |
| `PbVarintLong.NarrowReadsExactly` | assassinGame/Pods/nanopb/pb_decode.c:201-236 | behind five bytes with the top bit set, the 32-bit decoder succeeds iff every further byte has payload zero or, if bit 31 is set, extends the sign, up to where its 8-bit position wraps and payloads are or-ed in again |
| `PbVarintLong.WideIsSmallExactly` | assassinGame/Pods/nanopb/pb_decode.c:250-270 | behind five such bytes, the 64-bit decoder reads a number below 2^32 iff the fifth payload is below 16 and every further payload is zero, of a tenth byte its lowest bit |
| `PbVarintLong.DecodersAgreeExactly` | assassinGame/Pods/nanopb/pb_decode.c:182-270 | the 32-bit decoder is the 64-bit one cut down to the numbers below 2^32 iff, on encodings of more than five bytes, these two conditions are both met or both not; it gives the 64-bit result iff both are met |
| `PbVarintLong.BoundedDecodersAgreeExactly` | assassinGame/Pods/nanopb/pb_decode.c:182-270 | for encodings of up to ten bytes, the tenth at most one: iff what is let through is zero padding of a number below 2^32 |
| `PbVarint.ZigZagRoundTrip` | assassinGame/Pods/nanopb/pb_encode.c:596-605 | zig-zag and back is the identity on every 64-bit integer, the least included |
| `PbVarint.ZigZagValue` | assassinGame/Pods/nanopb/pb_encode.c:596-605 | zig-zag maps the non-negative integers to the even numbers and the negative ones to the odd |
| `PbVarint.LittleEndianRoundTrip` | assassinGame/Pods/nanopb/pb_decode.c:1254-1286 | fixed-width little-endian bytes read back as the number |
| `PbModel.FieldIter.Next` | assassinGame/Pods/nanopb/pb_common.c:20-76 | moves to the next field and wraps to the first, keeping the required-field index, the place of the field in the struct and the place of its size at what the descriptor says |
| `PbModel.FieldsDoNotOverlap` | assassinGame/Pods/nanopb/pb_common.c:20-76 | a field ends before any later field starts, unless both are members of one union |
| `PbModel.SlotHasOnePlace` | assassinGame/Pods/nanopb/pb_common.c:43-50 | the members of a union lie at one place and have one selector |
| `PbModel.FieldIter.Find` | assassinGame/Pods/nanopb/pb_common.c:78-95 | from any position, ends within one lap where the specification says, or back where it started |
| `PbModel.FindIffPresent` | assassinGame/Pods/nanopb/pb_common.c:78-95 | the search succeeds iff some field has the tag |
| `PbModel.FindIgnoresStart` | assassinGame/Pods/nanopb/pb_common.c:78-95 | with distinct tags the start does not matter |
| `PbEncoder.OStream.Write` | assassinGame/Pods/nanopb/pb_encode.c:101-119 | a sizing stream counts; a writing stream succeeds iff all bytes fit the limit, and has then appended them |
| `PbEncoder.CheckDefault` | assassinGame/Pods/nanopb/pb_encode.c:215-303 | decides whether a proto3 singular field is left out; an array without a stored count is judged by its first four bytes |
| `PbEncoder.EncodeSubmessage` | assassinGame/Pods/nanopb/pb_encode.c:682-730 | the dry run, the length and the bounded sub-stream write the length-prefixed message; the branch for a changed size is never taken |
| `PbEncoder.EncodeArray` | assassinGame/Pods/nanopb/pb_encode.c:126-211 | packed arrays as one field sized beforehand, others tag by tag |
| `PbEncoder.EncodeField` | assassinGame/Pods/nanopb/pb_encode.c:307-392 | required, optional, repeated and oneof fields are written as specified |
| `PbEncoder.Encode` | assassinGame/Pods/nanopb/pb_encode.c:494-516 | a message is written field by field as specified, or fails |
| `PbEncoder.GetEncodedSize` | assassinGame/Pods/nanopb/pb_encode.c:533-542 | the counted size is the length of the encoding |
| `PbEncoder.SizeThenEncode` | assassinGame/Pods/nanopb/pb_encode.c:533-542 | writing into a bounded part of a buffer after sizing succeeds iff sizing did and the size fits; then the bytes counted are written, and nothing before them changes |
| `PbDecoder.IStream.Read` | assassinGame/Pods/nanopb/pb_decode.c:100-132 | reads exactly the bytes asked for or fails |
| `PbDecoder.DecodeVarint` | assassinGame/Pods/nanopb/pb_decode.c:250-270 | the 64-bit loop on the stream decodes as specified |
| `PbDecoder.DecodeVarint32` | assassinGame/Pods/nanopb/pb_decode.c:182-247 | the 32-bit loop decodes as specified, over-long encodings included |
| `PbDecoder.MakeSubstream` | assassinGame/Pods/nanopb/pb_decode.c:367-380 | splits off the length-prefixed part, whatever is left in it later |
| `PbDecoder.CloseSubstream` | assassinGame/Pods/nanopb/pb_decode.c:382-395 | resumes the parent stream right behind the part |
| `PbDecoder.SkipValue` | assassinGame/Pods/nanopb/pb_decode.c:316-326 | skips a value of any wire type as specified |
| `PbDecoder.DecodeMessage` | assassinGame/Pods/nanopb/pb_decode.c:901-1049 | the decode loop, with its bit words for required fields and its fixed-count bookkeeping, computes the specified result |
| `PbDecoder.Decode` | assassinGame/Pods/nanopb/pb_decode.c:1051-1063 | defaults first, then the loop |
| `PbRoundTrip.ScalarRoundTrip` | assassinGame/Pods/nanopb/pb_decode.c:1289-1508 | every in-range scalar, string and byte value decodes to itself |
| `PbRoundTrip.PackedArrayDecodes` | assassinGame/Pods/nanopb/pb_decode.c:413-446 | a packed array decodes to its items |
| `PbRoundTrip.SingleDecodes` | assassinGame/Pods/nanopb/pb_decode.c:401-475 | a written singular, optional or oneof field decodes into its slot |
| `PbRoundTrip.FieldsEncode` | assassinGame/Pods/nanopb/pb_encode.c:494-516 | every in-range message can be encoded |
| `PbRoundTrip.SurvivesRoundTrip` | assassinGame/Pods/nanopb/pb_decode.c:1051-1063 | for every well-formed tree of descriptors, a message of which no non-zero field passes for zero is encoded and decoded to itself |
| `PbRoundTrip.StringRoundTripsIfTerminated` | assassinGame/Pods/nanopb/pb_decode.c:1428-1461 | a string without zeros comes back iff its terminator fits too |
| `PbDefaults.CountedLosesNothing` | assassinGame/Pods/nanopb/pb_encode.c:215-303 | in a tree of descriptors whose arrays all have stored counts, what is left out is at its start, so every message that can be stored comes back whole |
| `PbDefaults.InitialIsEmpty` | assassinGame/Pods/nanopb/pb_encode.c:215-303 | there, an initial message is written as nothing iff no field has to be written: none is required, and no proto3 singular one is a byte string of fixed length or a message with such fields |
| `PbRefusal.EncodesExactly` | assassinGame/Pods/nanopb/pb_encode.c:307-392 | for every descriptor and any storage, encoding succeeds iff every value that is written has the kind and size of its field and no array exceeds its bound |
| `PbLoss.StartPassesForZero` | assassinGame/Pods/nanopb/pb_encode.c:215-303 | if any contents of a proto3 singular field are left out, then those that decoding starts from are |
| `PbLoss.MessageKept` | assassinGame/Pods/nanopb/pb_encode.c:215-303 | replacing every field that is left out by its start changes neither the encoding nor what passes for zero |
| `PbLoss.RoundTrip` | assassinGame/Pods/nanopb/pb_encode.c:494-516 | for every well-formed tree of descriptors and every message that can be stored, encoding succeeds and decoding gives the message with what was left out at its start; it is the message itself iff nothing that passes for zero differs from its start |
| `PbLoss.FirstNumberDecides` | assassinGame/Pods/nanopb/pb_encode.c:228-232 | for every pair of 32-bit numbers in an array without a count, in a proto3 singular submessage: it is written iff its first number is not zero, and comes back then; a pair with a zero first number leaves nothing behind, so that one other than 0, 0 is lost, and 0, 0 is what is found only where the struct held zeros before |
| `PbUnknown.SkipConsumesExactly` | assassinGame/Pods/nanopb/pb_decode.c:316-326 | skipping a well-formed value consumes exactly it |
| `PbUnknown.UnknownFieldsAreTransparent` | assassinGame/Pods/nanopb/pb_decode.c:919-997 | a well-formed field with an unknown tag, inserted at any field boundary, changes nothing about the result |
| `PbUnknown.PositionIsIrrelevant` | assassinGame/Pods/nanopb/pb_decode.c:919-997 | the position of the iterator never changes the result |
| `PbEvolution.OneIsUnknown` | assassinGame/Pods/nanopb/pb_encode.c:641-672 | a value written with its tag, of whatever type, is a well-formed field to every descriptor without the tag: its wire type says what its bytes are |
| `PbEvolution.PackedIsUnknown` | assassinGame/Pods/nanopb/pb_encode.c:126-180 | so is a packed array |
| `PbEvolution.FieldIsSkipped` | assassinGame/Pods/nanopb/pb_decode.c:958-962 | whatever the encoder writes for a field, one or many entries or none, a decoder without the field skips exactly |
| `PbEvolution.RemainsDecodes` | assassinGame/Pods/nanopb/pb_decode.c:919-997 | decoding an encoded message with a descriptor that lacks some of the fields, at any depth, gives the remaining ones |
| `PbEvolution.OlderVersionReads` | assassinGame/Pods/nanopb/pb_decode.c:919-997 | so a descriptor from before fields were added reads the part of a message that it has |
| `PbEvolution.NewerVersionReads` | assassinGame/Pods/nanopb/pb_decode.c:884-899 | and a descriptor to which fields were added, none of which has to be written, reads an older message, with those at their defaults |
| `PbPieces.PieceDecodes` | assassinGame/Pods/nanopb/pb_decode.c:419-459 | a packed piece or a single item of an array of numbers is joined to what the array holds, iff there is room; otherwise decoding fails |
| `PbPieces.PiecesJoin` | assassinGame/Pods/nanopb/pb_decode.c:419-459 | however an array of numbers is cut into packed pieces and single tagged items, and whatever was read of it before: all items are joined in order, iff there is room for all; otherwise decoding fails |
| `PbPieces.UnpackedReadsLikePacked` | assassinGame/Pods/nanopb/pb_decode.c:419-459 | so an array written with a tag on each item is read like the packed array |
| `PbMerge.ConcatenationMerges` | assassinGame/Pods/nanopb/pb_decode.c:901-1049 | decoding one encoded message and then another into the same storage is decoding the two one behind the other |
| `PbMerge.SubmessagesMerge` | assassinGame/Pods/nanopb/pb_decode.c:1463-1485 | a required or optional submessage that comes in two pieces, each with its tag, is read like one with all of the bytes |
| `PbMerge.LastScalarWins` | assassinGame/Pods/nanopb/pb_decode.c:401-417 | of a number or a string that comes twice the last one counts, as if the first had not come |
| `PbMerge.LastMemberWins` | assassinGame/Pods/nanopb/pb_decode.c:461-470 | of two members of a oneof the last one counts, as if the first had not come, submessages included |
| `PbBounds.DecodedInBounds` | assassinGame/Pods/nanopb/pb_decode.c:401-475 | whatever the input, what is decoded into storage within the bounds of its descriptor stays within them at every depth: counts, lengths and numbers |
| `PbBounds.DecodeStaysInBounds` | assassinGame/Pods/nanopb/pb_decode.c:1051-1063 | so does what is decoded into fresh storage |
| `PbRefusal.CutShortFails` | assassinGame/Pods/nanopb/pb_decode.c:919-997 | a field that is cut short after any of its bytes is refused |
| `PbRefusal.ZeroTagEnds` | assassinGame/Pods/nanopb/pb_decode.c:305-309 | a zero tag ends the message with success, whatever follows it |
| `PbRefusal.UnknownWireTypeFails` | assassinGame/Pods/nanopb/pb_decode.c:316-326 | a field that is not known is refused if its wire type does not exist |
| `PbRefusal.LowWordDecides` | assassinGame/Pods/nanopb/pb_decode.c:1297-1323 | a signed number of at most 32 bits is read from the low 32 bits of the varint alone, iff it fits the field |
| `PbRefusal.UnfinishedArrayFails` | assassinGame/Pods/nanopb/pb_decode.c:967-983 | an array without a stored count cannot be begun before the one being filled is full |
| `PbRefusal.EmptyFixedIsZeros` | assassinGame/Pods/nanopb/pb_decode.c:1487-1508 | a byte string of fixed length may come empty, and is then all zeros |
| `PbGuide.SimpleMessage` | assassinGame/Pods/nanopb/pb_encode.c:641-672 | the example of the encoding guide: an integer field numbered 1 holding 150 is 08 96 01 |
| `PbGuide.Embedded` | assassinGame/Pods/nanopb/pb_encode.c:682-730 | its example of an embedded message: 1a 03 08 96 01 |
| `PbGuide.PackedArray` | assassinGame/Pods/nanopb/pb_encode.c:126-180 | its example of a packed array: 22 06 03 8e 02 9e a7 05 |
| `PbGuide.FixedWidth` | assassinGame/Pods/nanopb/pb_encode.c:652-657 | a 32-bit number numbered 1 holding 7 is 0d 07 00 00 00 |
| `PbRequired.SeenAreOccurring` | assassinGame/Pods/nanopb/pb_decode.c:988-993 | a required field is marked iff it occurs in the input |
| `PbRequired.RequiredCheckIsExact` | assassinGame/Pods/nanopb/pb_decode.c:1006-1046 | decoding succeeds iff the loop does, the last fixed-count array is full, and each of the first 64 required fields occurs |
| `TlsCipherChoice.Choose` | assassinGame/Pods/BoringSSL-GRPC/ssl/handshake_server.cc:377-423 | from the first closed group with an acceptable cipher, the one earliest in the other list; none iff no group has one |
| `TlsCipherChoice.ChooseCipher` | assassinGame/Pods/BoringSSL-GRPC/ssl/handshake_server.cc:357-424 | under either preference the choice meets that specification; nothing is chosen iff no common cipher is usable |
| `TlsCipherChoice.LastFlagCloses` | assassinGame/Pods/BoringSSL-GRPC/ssl/handshake_server.cc:377-423 | a last flag of zero closes every group |
| `TlsCipherChoice.UngroupedBestIsFirst` | assassinGame/Pods/BoringSSL-GRPC/ssl/handshake_server.cc:377-423 | without groups the choice is the first acceptable cipher |
| `Refcount.LockedCounter.Increment` | assassinGame/Pods/BoringSSL-GRPC/crypto/refcount_lock.c:29-35 | the locked increment, saturating |
| `Refcount.LockedCounter.DecAndTestZero` | assassinGame/Pods/BoringSSL-GRPC/crypto/refcount_lock.c:37-51 | the locked decrement and its answer |
| `Refcount.EveryRunIsLocked` | assassinGame/Pods/BoringSSL-GRPC/crypto/refcount_c11.c:37-65 | in every interleaving of any threads, spurious failures included, the compare-exchange loops take effect like the locked operations, one at a time |
| `Refcount.ThreadsAreToldEffects` | assassinGame/Pods/BoringSSL-GRPC/crypto/refcount_c11.c:37-65 | every thread is told the answers of its own operations, in its order |
| `Refcount.CountIsBalance` | assassinGame/Pods/BoringSSL-GRPC/crypto/refcount_c11.c:37-65 | below saturation the count is the start plus increments minus decrements |
| `Refcount.SaturatedStays` | assassinGame/Pods/BoringSSL-GRPC/crypto/refcount_c11.c:37-65 | a saturated count never changes and never answers zero |
| `Refcount.OneOwnerSeesZero` | assassinGame/Pods/BoringSSL-GRPC/crypto/refcount_lock.c:37-51 | of legitimate owners exactly the last is told zero, if the count reaches it |
| `Refcount.InterleavedOwners` | assassinGame/Pods/BoringSSL-GRPC/crypto/refcount_c11.c:37-65 | and so in every interleaving |
| `TlsBuffer.SslBuffer.EnsureCap` | assassinGame/Pods/BoringSSL-GRPC/ssl/ssl_buffer.cc:47-81 | makes room and keeps the contents, or refuses beyond 16 bits |
| `TlsBuffer.SslBuffer.Append` | assassinGame/Pods/BoringSSL-GRPC/ssl/ssl_buffer.cc:83-88 | appends |
| `TlsBuffer.SslBuffer.Consume` | assassinGame/Pods/BoringSSL-GRPC/ssl/ssl_buffer.cc:90-97 | drops from the front |
| `TlsBuffer.SslBuffer.DiscardConsumed` | assassinGame/Pods/BoringSSL-GRPC/ssl/ssl_buffer.cc:99-103 | frees an empty buffer, leaves any other as it is |
| `TlsWrite.Writer.Flush` | assassinGame/Pods/BoringSSL-GRPC/ssl/ssl_buffer.cc:239-252 | hands the buffer to the transport in order; done iff all of it has been taken |
| `TlsWrite.Writer.WritePending` | assassinGame/Pods/BoringSSL-GRPC/ssl/s3_pkt.cc:201-218 | a pending write goes on only for the same type, the same buffer unless buffers may move, and at least the pending length; it is done iff the buffer has been flushed |
| `TlsWrite.Writer.DoWrite` | assassinGame/Pods/BoringSSL-GRPC/ssl/s3_pkt.cc:220-289 | a new write queues the pending flight and then one sealed record of the text; a pending one seals nothing; what was queued before stays in front; on a transport that takes something each time it succeeds iff it is a proper retry, or the text is not empty, at most 2^14 bytes, fits the buffer and can be sealed |
| `TlsWrite.Writer.WriteAppData` | assassinGame/Pods/BoringSSL-GRPC/ssl/s3_pkt.cc:129-199 | over retries with the same input the records sealed are numbered one by one and their texts, joined, are a prefix of it, every byte once, cut anyhow; a positive return counts bytes that are sealed, and then the transport has got the pending flight and the sealed records, in order and nothing else; if records can be sealed and the transport takes something each time, the call succeeds |
| `TlsWrite.WriteUntilDone` | assassinGame/Pods/BoringSSL-GRPC/ssl/s3_pkt.cc:129-199 | the same over any number of retries |
| `TlsServerMachine.Handshake.Loop` | assassinGame/Pods/BoringSSL-GRPC/ssl/handshake_server.cc:1539-1621 | the loop over the states ends, and in the state the recursive loop says; what is to be sent has only been added to |
| `TlsServerMachine.Handshake.Resolve` | assassinGame/Pods/BoringSSL-GRPC/ssl/handshake.cc:496-611 | does what the machine waits for: hands over as much of the flight as there is room for, takes in one record, or lets a callback be asked again; nothing is sent twice or lost |
| `TlsServerMachine.Handshake.Run` | assassinGame/Pods/BoringSSL-GRPC/ssl/handshake.cc:491-628 | the driver's call is a run of the machine that takes in the records in order and hands over in order exactly what is emitted; it blocks only on a full transport, on missing input or on a callback; when it completes, exactly one Finished has been sent and one verified; when it does not fail, no check of it was rejected and no message was out of turn |
| `TlsClientMachine.Handshake.Loop` | assassinGame/Pods/BoringSSL-GRPC/ssl/handshake_client.cc:1707-1789 | as for the server |
| `TlsClientMachine.Handshake.Resolve` | assassinGame/Pods/BoringSSL-GRPC/ssl/handshake.cc:496-611 | as for the server |
| `TlsClientMachine.Handshake.Run` | assassinGame/Pods/BoringSSL-GRPC/ssl/handshake.cc:491-628 | as for the server; when it does not fail, no check of it was rejected and no message was out of turn |
| `TlsServer.StepClimbs` | assassinGame/Pods/BoringSSL-GRPC/ssl/handshake_server.cc:1539-1621 | a round fails, moves on in the order of states, or stops for a missing message or a callback that asks for time; so the loop ends |
| `TlsServer.LoopIsRun` | assassinGame/Pods/BoringSSL-GRPC/ssl/handshake_server.cc:1539-1621 | the loop is a run of rounds |
| `TlsServer.DoneMeansFinished` | assassinGame/Pods/BoringSSL-GRPC/ssl/handshake_server.cc:1365-1537 | in every run that reaches the end, whatever messages arrive and whatever callbacks and key operations do, one Finished has been sent and one verified, each after its direction's only key change and in the order of a full or a resumed handshake |
| `TlsServerChecks.RoundAnswers` | assassinGame/Pods/BoringSSL-GRPC/ssl/handshake_server.cc:426-1537 | when a round fails, waits for a message or is put off, by a table of what each state looks at: with its message there it fails iff a check is rejected, the message is not the one due or, where the key changes, one is left over; it is put off iff a callback or private key asks for time; otherwise it goes on and is done with the message it was to read |
| `TlsServerChecks.VerifiesOnlyFinished` | assassinGame/Pods/BoringSSL-GRPC/ssl/handshake.cc:380-408 | a verification is noted only by a round that has a Finished in the buffer and does not reject it |
| `TlsServerChecks.UnfailedPasses` | assassinGame/Pods/BoringSSL-GRPC/ssl/handshake_server.cc:1539-1621 | a run that has not failed had no round that was to fail: a failed server can do nothing more |
| `TlsServerChecks.DoneMeansAllReceived` | assassinGame/Pods/BoringSSL-GRPC/ssl/handshake_server.cc:426-1537 | against any peer, in every run that has reached the end: no check was rejected, and the records taken in are the messages that the options and the ClientHello call for, each once and in order, and nothing else; resumption and the request for a certificate are what they say |
| `TlsClient.StepClimbs` | assassinGame/Pods/BoringSSL-GRPC/ssl/handshake_client.cc:1707-1789 | as for the server |
| `TlsClient.LoopIsRun` | assassinGame/Pods/BoringSSL-GRPC/ssl/handshake_client.cc:1707-1789 | as for the server |
| `TlsClient.DoneMeansFinished` | assassinGame/Pods/BoringSSL-GRPC/ssl/handshake_client.cc:1457-1705 | as for the server |
| `TlsClientChecks.RoundAnswers` | assassinGame/Pods/BoringSSL-GRPC/ssl/handshake_client.cc:385-1705 | as for the server; a message that may be left out is passed over if a later one is there, and refused where it must come |
| `TlsClientChecks.VerifiesOnlyFinished` | assassinGame/Pods/BoringSSL-GRPC/ssl/handshake.cc:380-408 | as for the server |
| `TlsClientChecks.ReturnsEarlyExactly` | assassinGame/Pods/BoringSSL-GRPC/ssl/handshake_client.cc:1538-1564 | the client lets the application write early iff it may, in a full handshake, after its Finished and before it reads on |
| `TlsClientChecks.UnfailedPasses` | assassinGame/Pods/BoringSSL-GRPC/ssl/handshake_client.cc:1707-1789 | as for the server |
| `TlsClientChecks.DoneMeansAllReceived` | assassinGame/Pods/BoringSSL-GRPC/ssl/handshake_client.cc:385-1705 | against any peer, in every run that has reached the end: no check was rejected, and the records taken in are the messages that the ServerHello calls for, each once and in order, and nothing else, with a CertificateStatus or ServerKeyExchange only where it may come; a session is resumed only if offered |
| `TlsHandshake.ReceivesWhatIsDue` | assassinGame/Pods/BoringSSL-GRPC/ssl/handshake.cc:496-545 | where a ChangeCipherSpec is due any message fails, and the reverse; a record of the kind due is taken |
| `TlsScript.ResumedSkips` | assassinGame/Pods/BoringSSL-GRPC/ssl/handshake_server.cc:746-750 | a resumed handshake leaves out everything between the hellos and the tickets |
| `TlsScript.OptionalMessages` | assassinGame/Pods/BoringSSL-GRPC/ssl/handshake_client.cc:821-1143 | what can come next where the client must look at a message to know which optional ones were left out |
| `TlsServerFollows.StepFollows` | assassinGame/Pods/BoringSSL-GRPC/ssl/handshake_server.cc:426-1537 | a server whose peer keeps to the script keeps to it: each round accepts what the buffer holds and what it emits is what the script has next |
| `TlsServerFollows.BlockedIsOwed` | assassinGame/Pods/BoringSSL-GRPC/ssl/handshake_server.cc:426-1537 | a server that waits has sent all it had and is owed a message |
| `TlsClientFollows.StepFollows` | assassinGame/Pods/BoringSSL-GRPC/ssl/handshake_client.cc:385-1705 | the same for the client, with its three optional messages |
| `TlsClientFollows.BlockedIsOwed` | assassinGame/Pods/BoringSSL-GRPC/ssl/handshake_client.cc:385-1705 | a client that waits has sent all it had and is owed a message |
| `TlsComposed.RunKeeps` | assassinGame/Pods/BoringSSL-GRPC/ssl/handshake.cc:491-628 | over every interleaving of rounds, partial flushes, arrivals and retried callbacks both sides stay on the script, with nothing lost in between |
| `TlsComposed.NoRunFails` | assassinGame/Pods/BoringSSL-GRPC/ssl/handshake.cc:491-628 | with agreed options no run fails on either side, unless the server insists on a client certificate that is not there; then no run reaches its end |
| `TlsComposed.NotBothBlocked` | assassinGame/Pods/BoringSSL-GRPC/ssl/handshake.cc:491-628 | the two sides never wait for each other with nothing under way |
| `TlsComposed.NoRunIsStuck` | assassinGame/Pods/BoringSSL-GRPC/ssl/handshake.cc:491-628 | in every reachable state that is not the end of both, a side can move, and the end of both stays within reach |
| `TlsComposed.CompletesExactly` | assassinGame/Pods/BoringSSL-GRPC/ssl/handshake_server.cc:1022-1027 | a handshake can be completed iff the server does not insist on a certificate that is not there |
| `TlsComposed.EndsInAgreement` | assassinGame/Pods/BoringSSL-GRPC/ssl/handshake.cc:380-476 | at the end nothing is under way, both agree on resumption and on the negotiated options, and each has sent its Finished and verified the other's |

## Left out

- Cryptography, certificates, random numbers, clocks, timers and the error queue; the checks that use them are the
  answers a step is given (`TlsHandshake.Verdict`) or the abstract cipher.
- Allocation failure, and the overlap checks between input and output buffers.
- Wrapping of `handshake_read_seq` and of the epochs, which 16-bit numbers would allow.
- DTLS timers, MTU queries and the HelloVerifyRequest.
- Records of TLS itself: coalescing of handshake messages into records and their splitting on arrival. The two TLS
  machines exchange whole messages.
- TLS 1.3, SSL 3.0, early data, renegotiation, handoff and V2ClientHello. Parsing of extensions is not shown in these
  files; negotiated options are inputs, the same for both sides.
- DtlsMtu.SafeFlightSurvivesChannel: alerts and records of types that do not exist are no part of its schedules;
  DtlsAlerts.WarningsAreBounded and DtlsAlerts.OtherAlertsAreFatal say what alerts do.
- TlsServerChecks.RoundAnswers: in a state that has no callback the answer to wait is taken as acceptance.
- ASN.1 sessions, which rest on code that is not part of this model.
- DtlsDelivery.FlightSurvivesChannel: needs each record to arrive before the replay window has moved 64 numbers past
  it, and its message to lie in the reassembly window or before it, because the code drops or refuses all others.
- DtlsReader.HandshakeReader.NextMessage: does not set the flag that the flight sent before has a reply, which only the
  timer after the handshake reads.
- TlsServerMachine.Handshake.Loop: the functions of the states are written over values; the objects are the loop over
  them and the driver, so the update of the fields one by one inside a state is not shown.
- TlsWrite.Writer.WriteAppData: alerts in between the retries and early data are not modelled.
- PbLoss.RoundTrip: speaks of messages whose encoding is shorter than 2^32 bytes, the range of the length prefix.
- nanopb: pointer fields, callbacks, extensions, custom streams, null-terminated and delimited messages, builds without
  64-bit integers; `pb_decode_noinit` into memory that has not been set to defaults.
- PbEncoder.CheckDefault: where the four bytes taken for a count reach beyond what the stored value determines (behind
  the terminator of a string, behind a shorter array, into the later fields of a struct), they count as zero; memory is
  little-endian and `pb_size_t` has 32 bits, as `PB_FIELD_32BIT` in the build settings says.
- nanopb: the array behind a field that was left out is empty in the model, where the decoder zeroes the first word
  and leaves what was there; the varint decoder's `uint_fast8_t` position is taken as 8 bits wide; conversions of
  `size_t` are exact.
- The application's own Swift code, which is database and user-interface calls.
