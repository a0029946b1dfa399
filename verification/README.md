# Honeytrap protocol engines: a Dafny model

Honeytrap is a honeypot framework. It brings its own user-space TCP/IP stack and several
protocol engines written by hand. This project models the ones with real state, arithmetic
and wire formats, as the code is written, and proves what they promise over all inputs,
all sequences of events and all interleavings.

`dafny verify dfyconfig.toml` checks everything.

| module | models |
|---|---|
| `Words`, `Text` | fixed-width integers, octets, bitwise or, byte buffers; splitting strings |
| `Checksum` | the two TCP checksums and the IP header checksum of the canary |
| `TcpHeader`, `Ipv4`, `Ethernet` | the three header codecs of the canary |
| `Connection`, `ConnectionRuns` | one TCP connection: segment handling, writes, closes, the receive buffer, and all its runs |
| `Frames` | building a frame, and what a receiver recovers from it |
| `TransmitQueue` | the length-prefixed queue between `send` and `transmit` |
| `StateTable` | the connection table |
| `Ipp`, `IppRoundTrip`, `IppWire`, `IppCode` | the IPP message format, its round trips, its numbers and layout, and the decoder and encoder |
| `Vnc` | the generic and the fast pixel path |
| `Agent` | the agent listener: many connections over one stream |
| `Sandbox` | client paths confined to a root directory |
| `Smtp` | SMTP sessions |

Code that changes things step by step is modelled by methods and classes, each proved
against a specification on plain values (`OnSegment`, `Marshalled`, `ReadMessage`, `Drained`,
`Step`, ...). The promises are then lemmas about the specification: over all byte strings
for the codecs, over all event sequences for the state machines.

## Results that differ from what one might expect

The model follows the code where it and its comments, or the standard, disagree.

- The SYN|ACK leaves with sequence number ISS+1, and SND.NXT is ISS+2 after it. Numbers are
  compared as plain uint32 values, so a handshake can complete if and only if ISS is below
  2^32-2 (`ConnectionRuns.HandshakeCompletes`).
- A segment with SYN is always dropped or answered before the place where a port knock is
  reported, so that report is never made (`ConnectionRuns.HandshakeSafety`).
- The receiver's checksum comparison is stricter than the test of section 3.1 of RFC 793 by
  exactly the segments whose field is 0xffff (`TcpHeader.RejectedExactly`,
  `TcpHeader.SecondZeroIsRejected`). A segment that it
  rejects is handled all the same (`Connection.State.HandleBytes`).
- The IPv4 payload starts at byte 20 whatever the header length, so it is right exactly for
  headers without options (`Ipv4.PayloadExactlyWithoutOptions`).
- A FIN sets RCV.NXT from its own number, so in sequence it is accounted for if and only if it
  carries no text and the connection is in SynReceived, Established or FinWait1
  (`ConnectionRuns.FirstFin`).
- A frame that the network refuses is lost, as `transmit` has taken it out of the ring already
  (`TransmitQueue.NetworkTook`).
- Frames come out of the transmit queue whole if and only if none ever overfilled it, and a
  reader gets what was accepted if and only if no segment found the buffer too full
  (`TransmitQueue.NothingLostExactlyWithoutOverfill`, `ConnectionRuns.ReaderGetsWhatWasAccepted`).
- A table lookup compares ports and addresses separately and also finds the connection with
  the two ports exchanged (`StateTable.MatchesUpToExchange`), and with equal ports any connection
  of the two hosts that has the port at either end (`StateTable.MatchesWithEqualPorts`).
- The fast pixel path is taken for every RGBA image in its pixel format. On one at the origin it
  emits what the generic path does if and only if there are no bytes but those of its points, so
  never on a proper sub-image there (`Vnc.AgreementExactly`, `Vnc.SubImagesAgreeExactly`).
- An IPP integer attribute comes back as it was written if and only if it has at most two
  values; longer ones come back in pieces that encode to the same bytes. A boolean attribute
  never comes back (`IppRoundTrip.RoundTrip`, `IppRoundTrip.BytesStable`,
  `IppRoundTrip.BooleansNeverComeBack`).

## Model

| member | source | states |
|---|---|---|
| Checksum.OcSumIsFoldedTotal | listener/canary/canary_linux.go:975-979 | adding everything up and folding the carries in at the end gives the one's-complement sum of section 1 of RFC 1071, for every list of words |
| Checksum.FoldCarries | listener/canary/canary_linux.go:975-977 | the folding loop ends with the 16-bit value congruent to the sum modulo 65535 that is zero only for zero |
| Checksum.Csum | listener/canary/tcp/tcp.go:363-394 | the receiver's sum is the checksum of section 3.1 of RFC 793, without uint32 overflow, for every segment of 20 to 65535 bytes |
| Checksum.UpdateTcpChecksum | listener/canary/canary_linux.go:945-983 | the sender stores its sum, which wraps around for long segments, in bytes 16 and 17 and changes nothing else; up to 65535 bytes that is the checksum of section 3.1 of RFC 793 |
| Checksum.SenderChecksumIsTcpChecksum | listener/canary/canary_linux.go:945-983 | for every segment of 20 to 65535 bytes the sender and the receiver compute the same sum |
| Checksum.UpdateIpChecksum | listener/canary/canary_linux.go:744-771 | bytes 10 and 11 get the complement of the header sum, nothing else changes |
| Checksum.TcpChecksumSound | listener/canary/tcp/tcp.go:363-394 | a field value is the one the receiver computes if and only if all words then sum to all ones and the value is not 0xffff |
| Checksum.SecondZero | listener/canary/tcp/tcp.go:363-394 | a field of 0xffff makes all words sum to all ones if and only if the computed checksum is zero |
| Checksum.ChangedWordDetected | listener/canary/tcp/tcp.go:376-387 | two contents of one word give the same checksum exactly when they are equal or the two zeros 0x0000 and 0xffff |
| Checksum.TcpChecksumSymmetric | listener/canary/canary_linux.go:315 | the checksum does not depend on the order of the two addresses |
| Checksum.TcpChecksumIgnoresField | listener/canary/tcp/tcp.go:376-383 | the stored checksum takes no part in the sum |
| Checksum.IpChecksumSound | listener/canary/canary_linux.go:744-771 | with the stored sum, all words of a 20-byte header add up to all ones; its first byte, which holds the version, is not zero |
| TcpHeader.Header.Marshal | listener/canary/tcp/tcp.go:292-360 | the bytes for every header, length octets that wrap around included, and the padding and data offset left in the header |
| TcpHeader.Header.PutOptions | listener/canary/tcp/tcp.go:329-344 | the options one over the other as the uint8 length octets advance, and the padding behind them |
| TcpHeader.MarshalledIsEncoded | listener/canary/tcp/tcp.go:316-344 | as long as no length octet wraps, header, options, padding and payload follow one another |
| TcpHeader.Header.Unmarshal | listener/canary/tcp/tcp.go:202-260 | all fields, options, padding, payload and the error, for every input of at least 20 bytes |
| TcpHeader.Header.UnmarshalOptions | listener/canary/tcp/tcp.go:231-257 | the option walk with its two errors and its index panic |
| TcpHeader.WalkExactly | listener/canary/tcp/tcp.go:231-257 | every option area starts with well-formed options, which are reported in order, and the walk ends at the end, at an EndList, or with the error or panic of the first option whose length is missing, below two or too large |
| TcpHeader.DataOffsetExactly | listener/canary/tcp/tcp.go:218-226 | the data offset is too small exactly below five words and too large exactly beyond the data; otherwise the options decide |
| TcpHeader.PortsParse | listener/canary/tcp/tcp.go:202-214 | ports, window, a zero checksum and the urgent pointer are at bytes 0, 2, 14, 16 and 18 |
| TcpHeader.SequenceParses | listener/canary/tcp/tcp.go:205-206 | sequence and acknowledgement numbers are at bytes 4 and 8 |
| TcpHeader.UnmarshalWithChecksum | listener/canary/tcp/tcp.go:180-189 | the parsed header, and the checksum complaint in place of any other |
| TcpHeader.RejectedExactly | listener/canary/tcp/tcp.go:180-189 | for every segment of 20 to 65535 bytes that does not panic, the checksum is called invalid if and only if the segment fails the test of section 3.1 of RFC 793 or its field is 0xffff |
| TcpHeader.SecondZeroIsRejected | listener/canary/tcp/tcp.go:180-189 | a segment of 20 bytes that passes the test of section 3.1 of RFC 793 and is called invalid |
| TcpHeader.SealedIsAccepted | listener/canary/tcp/tcp.go:180-189 | for every segment of 20 to 65535 bytes, options and errors included, what updateTCPChecksum has sealed is reported as the bare parser would report it, and never as an invalid checksum |
| TcpHeader.RoundTrip | listener/canary/tcp/tcp.go:202-360 | what Marshal returns for a representable header comes back with all written fields and its payload, its options followed by one EndList when padding was needed |
| TcpHeader.Stable | listener/canary/tcp/tcp.go:292-360 | Marshal returns the same bytes for the header that was read back |
| TcpHeader.OptionsRoundTrip | listener/canary/tcp/tcp.go:232-257 | every option list with its padding is read back in order |
| TcpHeader.FlagByteParses | listener/canary/tcp/tcp.go:209-210 | ECN and control bits are read back exactly when they fit two and six bits |
| TcpHeader.ChecksumFieldParses | listener/canary/tcp/tcp.go:213 | storing a checksum changes the checksum that is read and nothing else |
| Ipv4.Marshal | listener/canary/ipv4/ipv4.go:81-126 | the header bytes, and the two errors |
| Ipv4.RoundTrip | listener/canary/ipv4/ipv4.go:81-187 | every field that fits is read back; the payload reported is the options and the body |
| Ipv4.Layout | listener/canary/ipv4/ipv4.go:81-126 | each field is where section 3.1 of RFC 791 has it |
| Ipv4.PayloadExactlyWithoutOptions | listener/canary/ipv4/ipv4.go:184 | the body itself is reported exactly for headers without options |
| Ethernet.Marshal | listener/canary/ethernet/ethernet.go:65-76 | destination, source and type |
| Ethernet.Layout | listener/canary/ethernet/ethernet.go:65-76 | destination, source and type are at bytes 0, 6 and 12 |
| Ethernet.RoundTrip | listener/canary/ethernet/ethernet.go:56-76 | every frame is read back |
| Frames.Send | listener/canary/canary_linux.go:695-804 | the whole frame for a payload of any length, with both checksums filled in |
| Frames.FrameParses | listener/canary/canary_linux.go:695-804 | the three parsers recover from every frame that fits the endpoints, numbers, flags and payload, the window 65535 and the time to live 128, and accept both checksums |
| Frames.EmissionArrives | listener/canary/canary_linux.go:695-711 | the peer sees the numbers and the payload of a segment, and of SYN, FIN, RST and ACK just those it was sent with |
| Frames.FlagsSent | listener/canary/tcp/tcp.go:46-53 | byte 13 is 0x12, 0x10, 0x11 or 0x18 for SYN|ACK, ACK, FIN|ACK and PSH|ACK |
| Connection.FlagBits | listener/canary/tcp/tcp.go:46-53 | FIN, SYN, RST and ACK are read from the bits 1, 2, 4 and 16 of byte 13 |
| Connection.State.HandleTcp | listener/canary/canary_linux.go:359-693 | the new state and all effects of every segment, as the table of cases OnSegment |
| Connection.State.HandleAck | listener/canary/canary_linux.go:451-592 | which segments are dropped, the phase and SND.UNA afterwards, removal and start of the handler |
| Connection.State.HandleText | listener/canary/canary_linux.go:594-620 | delivery, RCV.NXT and the acknowledgement of a segment's text |
| Connection.State.HandleFin | listener/canary/canary_linux.go:632-676 | the answer to a FIN in every phase |
| Connection.State.HandleKnock | listener/canary/canary_linux.go:622-630 | a knock is reported for a SYN |
| Connection.State.Send | listener/canary/canary_linux.go:695-711 | a segment carries SND.NXT and RCV.NXT of the moment |
| Connection.State.Write | listener/canary/state.go:100-108 | one PSH segment, and SND.NXT past it |
| Connection.State.Close | listener/canary/state.go:110-123 | one FIN segment, SND.NXT past it, FIN-WAIT-1 |
| Connection.State.Deliver | listener/canary/socket.go:152-155 | the buffer keeps what fits of a payload |
| Connection.State.Read | listener/canary/socket.go:135-149 | one attempt of a read takes a prefix of what is buffered, as long as was asked for or all of it |
| Connection.State.constructor | listener/canary/state.go:203-224 | a new State in Listen with nothing sent |
| Connection.State.HandleBytes | listener/canary/canary_linux.go:314-693 | the bytes of a segment have the effect of their parsed header, wrong checksums included, and none exactly when the header does not parse |
| ConnectionRuns.SequenceConservation | listener/canary/canary_linux.go:367-378 | in every run each segment follows on from its predecessor, SND.NXT is ISS + 2 + bytes written + FINs sent modulo 2^32, and the payloads sent are the bytes written, in order |
| ConnectionRuns.HandshakeSafety | listener/canary/canary_linux.go:459-598 | in every run the handler is started once at most, the phase is Listen or SynReceived exactly until then, nothing is delivered before, no knock is reported, and SynSent, Closing and LastAck are never entered |
| ConnectionRuns.HandlerStartsExactly | listener/canary/canary_linux.go:432-473 | the handler is started by exactly the acceptable acknowledgements in SynReceived |
| ConnectionRuns.TextTakenExactly | listener/canary/canary_linux.go:594-620 | for every state and segment: the text is delivered, once and whole, exactly in Established and FinWait1 and with the acknowledgement that establishes, and RCV.NXT and the buffer move by it |
| ConnectionRuns.SentExactly | listener/canary/canary_linux.go:367-667 | for every state and segment, what is sent: the answer to a SYN, an acknowledgement exactly of nonempty text taken, and an answer to a FIN |
| ConnectionRuns.AcknowledgedExactly | listener/canary/canary_linux.go:547-550 | SND.UNA after every segment |
| ConnectionRuns.RemovedExactly | listener/canary/canary_linux.go:384-457 | exactly which segments take the State out of the table |
| ConnectionRuns.PhaseExactly | listener/canary/canary_linux.go:367-667 | the phase after every segment, phase by phase |
| ConnectionRuns.BufferHolds | listener/canary/socket.go:187-203 | an empty receive buffer keeps exactly the payloads of up to 4096 bytes whole |
| ConnectionRuns.PhaseDiagram | listener/canary/canary_linux.go:367-667 | in every run a segment changes the phase only along the edges of the state diagram, and only close leads to FIN-WAIT-1 |
| ConnectionRuns.PhaseDiagramIsTight | listener/canary/canary_linux.go:367-667 | every edge of the diagram is taken by some segment, from every state with SND.UNA <= SND.NXT |
| ConnectionRuns.SynDeliversNothing | listener/canary/canary_linux.go:432-443 | no segment with SYN delivers a payload |
| ConnectionRuns.AcknowledgementWindow | listener/canary/canary_linux.go:547-550 | in every run ISS <= SND.UNA <= SND.NXT as long as the numbers have not wrapped, and, within one sequence space, only so long |
| ConnectionRuns.UnacknowledgedNeverDecreases | listener/canary/canary_linux.go:547-550 | once the handler is started no step lowers SND.UNA |
| ConnectionRuns.HandshakeCompletes | listener/canary/canary_linux.go:459-469 | some run starts the handler if and only if ISS is below 2^32-2 |
| ConnectionRuns.ReceiveAccounting | listener/canary/canary_linux.go:373-375 | in every run, until a FIN arrives, RCV.NXT is the sequence number of the SYN answered last plus one plus the text of all segments that arrived when it was to be taken, and every segment sent acknowledges what was accepted before it |
| ConnectionRuns.AcceptedIsTextArrived | listener/canary/canary_linux.go:594-620 | in every run what was delivered is that text, read off the events |
| ConnectionRuns.OriginIsPeerStart | listener/canary/canary_linux.go:367-378 | in every run the latest SYN|ACK acknowledges one past the number of the SYN that arrived in Listen |
| ConnectionRuns.AcknowledgesTheAccepted | listener/canary/canary_linux.go:594-620 | until a FIN arrives, whatever a step of a run sends acknowledges that number plus all bytes accepted by then |
| ConnectionRuns.FinAccounting | listener/canary/canary_linux.go:632-667 | in every state a FIN that is processed, also one with RST, sets RCV.NXT to its number, plus one in SynReceived, Established and FinWait1; one in sequence is accounted for if and only if it is counted there and carries no text |
| ConnectionRuns.FinDropped | listener/canary/canary_linux.go:384-449 | any other FIN leaves RCV.NXT and the buffer alone, unless it comes with the SYN that opens |
| ConnectionRuns.FirstFin | listener/canary/canary_linux.go:594-667 | in every run the first FIN, when in sequence, leaves RCV.NXT at the peer's number past its SYN, all accepted bytes and itself under exactly that condition |
| ConnectionRuns.TextWithFinIsNotAcknowledged | listener/canary/canary_linux.go:594-650 | an in-sequence FIN with one byte of text where it fails: the byte is delivered and not acknowledged |
| ConnectionRuns.ReaderGetsWhatWasAccepted | listener/canary/socket.go:129-155 | in every run the bytes read and unread are the text that arrived, in order, if and only if none overflowed the buffer |
| ConnectionRuns.ReadTakes | listener/canary/socket.go:135-149 | a read takes as much as there is and as was asked for |
| ConnectionRuns.ReadingAllGetsAll | listener/canary/socket.go:129-155 | in every run without overflow, a read that asks for enough leaves the application with all text that arrived |
| TransmitQueue.Queue.Enqueue | listener/canary/canary_linux.go:806-807 | length and frame are appended, cut off at the capacity |
| TransmitQueue.Queue.Transmit | listener/canary/canary_linux.go:986-1020 | the frames handed out, whether the last of them was refused, and what is left in the ring, for every content of the ring and wherever Sendto fails; without a failure the ring is empty |
| TransmitQueue.DrainedWire | listener/canary/canary_linux.go:986-1020 | a ring of whole frames gives them back one by one |
| TransmitQueue.DrainedCut | listener/canary/canary_linux.go:1000-1012 | a ring that was cut off gives back frames that take up less room than those queued, so not the same ones |
| TransmitQueue.LargestFrame | listener/canary/canary_linux.go:895 | an empty ring yields a frame whole if and only if it has at most 65533 bytes |
| TransmitQueue.FramesComeOutWhole | listener/canary/canary_linux.go:806-1020 | in every interleaving of nonempty frames and of transmits, failing ones included, that never overfills the ring the frames handed out and those pending are the frames queued, in order |
| TransmitQueue.NothingLostExactlyWithoutOverfill | listener/canary/canary_linux.go:806-1020 | at every point of every such interleaving, what has been handed out and what the ring will yield are the frames queued if and only if none overfilled the ring |
| TransmitQueue.AllOutAfterTransmit | listener/canary/canary_linux.go:806-1020 | whenever the ring is empty, all frames queued have been handed out under exactly that condition |
| TransmitQueue.NetworkTook | listener/canary/canary_linux.go:986-1020 | in every interleaving that never overfills the ring, what the network took and what is pending are the frames queued, in order, but for the one refused in each transmit that failed |
| TransmitQueue.HandedRoom | listener/canary/canary_linux.go:986-1020 | whatever the ring holds, each nonempty frame taken out frees its own length and two bytes |
| StateTable.AddIndex | listener/canary/state.go:129-159 | the slot is the lowest free one, or, when none is free, the lowest idle one; none only when all are taken and busy |
| StateTable.AddIndexExactly | listener/canary/state.go:129-159 | the slot written is the lowest that is empty or in TimeWait, and if there is none, the lowest last seen more than 30 seconds ago, and no other |
| StateTable.LiveSlotIsNotWritten | listener/canary/state.go:129-159 | a connection that is not in TimeWait and was seen in the last 30 seconds keeps its slot |
| StateTable.Table.Add | listener/canary/state.go:129-159 | exactly that slot is written, or none on the panic; the table as a scan sees it is updated there alone |
| StateTable.Table.Get | listener/canary/state.go:162-189 | the lowest matching slot, nil exactly when none matches |
| StateTable.Table.Remove | listener/canary/state.go:191-200 | the first slot that holds the State is cleared, as RemoveFirst does in the runs |
| StateTable.MatchesIsSymmetric | listener/canary/state.go:168-183 | the lookup is the same with the endpoints swapped |
| StateTable.MatchesUpToExchange | listener/canary/state.go:168-183 | with two addresses and two ports it finds exactly the connection in either direction and the one with the ports exchanged |
| StateTable.MatchesWithEqualPorts | listener/canary/state.go:168-183 | with one port at both ends it finds exactly the connections of the two hosts that have the port at either end |
| StateTable.MatchesAmong | listener/canary/state.go:168-183 | for any lookup: exactly the connections whose addresses and ports include those looked up |
| StateTable.NoStateTwice | listener/canary/state.go:126-200 | in every run there are 65535 slots and no State is in two of them |
| StateTable.RemovedForGood | listener/canary/state.go:191-200 | in every run a State that was removed is in no slot, then and ever after |
| StateTable.LiveStatesStay | listener/canary/state.go:129-159 | in every run adding leaves a connection alone that is not in TimeWait and was seen in the last 30 seconds |
| IppCode.Decode.HasBytes | services/decoder/decoder.go:60-74 | whether a move stays inside the data |
| IppCode.Decode.Byte | services/decoder/decoder.go:76-87 | one byte, or the sticky error |
| IppCode.Decode.Int16 | services/decoder/decoder.go:89-100 | two bytes as a signed number, or the sticky error |
| IppCode.Decode.Int32 | services/decoder/decoder.go:115-126 | four bytes as a signed number, or the sticky error |
| IppCode.Decode.Copy | services/decoder/decoder.go:151-161 | a copy of the next bytes; an error when there are too few, a panic on a negative size |
| IppCode.Decode.Data | services/decoder/decoder.go:128-131 | a length and that many bytes |
| IppCode.Decode.Seek | services/decoder/decoder.go:164-175 | a move inside the data, or the sticky error |
| IppCode.NextValue | services/ipp/values.go:103-115 | one look ahead, put back unless another value follows |
| IppCode.DecodeInts | services/ipp/values.go:95-121 | reads a name and one or two integers and stops where ReadInts stops, and has the error exactly where ReadInts fails |
| IppCode.DecodeStrs | services/ipp/values.go:134-154 | reads a name and all its strings |
| IppCode.MoreStrs | services/ipp/values.go:140-151 | the loop over additional strings |
| IppCode.DecodeBools | services/ipp/values.go:172-201 | reads booleans as the code does, with a one-byte length |
| IppCode.DecodeAttribute | services/ipp/group.go:49-74 | the kind of value for every tag; an unknown tag panics |
| IppCode.DecodeGroup | services/ipp/group.go:40-82 | attributes up to a delimiter tag, which is put back |
| IppCode.DecodeGroups | services/ipp/message.go:106-118 | groups up to the end tag |
| IppCode.DecodeMessage | services/ipp/message.go:98-124 | succeeds on exactly the inputs ReadMessage reads, with its message and print data |
| IppCode.EncodeInts | services/ipp/values.go:82-93 | the items of an integer attribute, the first one named |
| IppCode.EncodeStrs | services/ipp/values.go:123-132 | the items of a string attribute |
| IppCode.EncodeBools | services/ipp/values.go:156-170 | the items of a boolean attribute |
| IppCode.Encoder.WriteData | services/decoder/encoder.go:42-50 | length and bytes, or a zero length |
| IppCode.Encoder.WriteUint16 | services/decoder/encoder.go:29-33 | two bytes of a signed number |
| IppCode.Encoder.WriteUint32 | services/decoder/encoder.go:35-39 | four bytes of a signed number |
| IppCode.EncodeGroup | services/ipp/group.go:84-93 | a group tag and its attributes |
| IppCode.EncodeMessage | services/ipp/message.go:127-142 | header and groups of every message |
| IppRoundTrip.MessageBack | services/ipp/message.go:98-142 | every carried message, with any print data behind it, comes back with its integer attributes split into pieces of two |
| IppRoundTrip.RoundTrip | services/ipp/message.go:98-142 | it comes back unchanged if and only if no integer attribute has more than two values |
| IppRoundTrip.BytesStable | services/ipp/message.go:98-142 | encoding what was decoded gives the same bytes, for any number of values |
| IppRoundTrip.IntsBack | services/ipp/values.go:82-121 | an integer attribute of any length is read back in pieces of two |
| IppRoundTrip.StrsBack | services/ipp/values.go:123-154 | a string attribute is read back whole |
| IppRoundTrip.AttributesBack | services/ipp/group.go:40-93 | the attributes of a group are read back up to the delimiter |
| IppRoundTrip.BooleansNeverComeBack | services/ipp/values.go:156-201 | no boolean attribute is read back as it was written |
| IppWire.EndTagEnds | services/ipp/message.go:107-118 | byte 3 ends the groups, and the rest is print data |
| IppWire.OtherTagsOpen | services/ipp/message.go:107-118 | any other byte opens a group with that tag, and the only end group is the last |
| IppWire.DelimiterStops | services/ipp/group.go:42-82 | a group ends at a byte of at most 5, and any other is the tag of an attribute |
| IppWire.KindsExactly | services/ipp/group.go:49-72 | for every tag byte the kind of value it is decoded as, by the numbers of section 3.5.2 of RFC 8010 |
| IppWire.KindsPossible | services/ipp/group.go:49-74 | some input is decoded for exactly eleven tags |
| IppWire.BoolsRead | services/ipp/values.go:172-201 | what is read as booleans: a one-byte length, values that are true just for 1, and more of them behind other tags |
| IppWire.HeaderLayout | services/ipp/message.go:127-135 | version, status and request number are at bytes 0, 1, 2 and 4 |
| IppWire.EndsWithEndTag | services/ipp/message.go:127-142 | the encoding of a carried message ends with byte 3 |
| IppWire.AttributeIsItems | services/ipp/values.go:82-170 | every attribute is written as tag, name and value with their lengths, the first value named and the others not, as sections 3.1.4 and 3.1.5 of RFC 8010 have it |
| IppWire.IntValue | services/decoder/encoder.go:35-39 | an integer is four bytes in two's complement, most significant first |
| Vnc.FastPathRefinesGenericPath | services/vnc/rfb.go:354-419 | for every contiguous image and either byte order the fast path emits what the generic path emits, two bytes a pixel |
| Vnc.SamePixel | services/vnc/rfb.go:362-369 | masking and shifting the components gives the scaled, ranged and shifted pixel value |
| Vnc.PixelValueIsSum | services/vnc/rfb.go:394-400 | for every format with components apart, the pixel value is the five high bits of each colour in their places, and zero for a component of another size |
| Vnc.OutsideIsBlack | services/vnc/rfb.go:391-393 | a point outside the rectangle is pushed as zero |
| Vnc.PixelBytesRead | services/vnc/rfb.go:401-416 | for 8, 16 and 32 bits the bytes of a pixel, in the order asked for, are its value cut to that size |
| Vnc.PixelAt | services/vnc/rfb.go:388-419 | pixel (x, y) is found after y rows and x pixels, and the output is width times height pixels long |
| Vnc.AgreementNeedsOneQuadPerPoint | services/vnc/rfb.go:356-382 | on any image, moved or overlapping ones included, the two paths agree only if it has four bytes for every point |
| Vnc.AgreementExactly | services/vnc/rfb.go:354-419 | for every image at the origin, whatever its stride, its contents and its byte order, the two paths agree if and only if it has four bytes for every point and not four more |
| Vnc.SubImagesAgreeExactly | services/vnc/rfb.go:354-419 | a sub-image at the origin of a contiguous image is pushed right if and only if it is the whole image |
| Vnc.LeftHalfDisagrees | services/vnc/rfb.go:356-382 | the left half of a black two by two image, on which they differ |
| Vnc.Conn.PushThousands | services/vnc/rfb.go:354-383 | the bytes emitted do not depend on what the reused buffer held |
| Vnc.Conn.FillThousands | services/vnc/rfb.go:362-381 | the component loop fills the buffer with two bytes a pixel |
| Vnc.Conn.PushGeneric | services/vnc/rfb.go:388-419 | every pixel row by row in the requested format; it fails exactly when the image has a pixel and the pixel size is unknown |
| Vnc.Conn.Push | services/vnc/rfb.go:344-351 | for contiguous images both paths emit the generic path's bytes and fail on the same inputs, so which one is taken cannot be seen |
| Agent.Connection.Feed | listener/agent/connection.go:61-75 | a payload is buffered unless the connection is closed |
| Agent.Connection.ReadBuffered | listener/agent/connection.go:77-109 | one attempt of a read takes a prefix of the buffer, as long as was asked for or all of it |
| Agent.Connection.Shut | listener/agent/connection.go:139-158 | the first close sends an EOF and closes the channel, later ones do nothing |
| Agent.Connections.Add | listener/agent/connections.go:43-48 | a connection is added at the end |
| Agent.Connections.Delete | listener/agent/connections.go:59-71 | its first occurrence is taken out |
| Agent.Connections.Get | listener/agent/connections.go:73-90 | the first connection with both addresses, nil exactly when there is none |
| Agent.Listener.OnHello | listener/agent/agent.go:177-187 | a new connection is registered and handed out |
| Agent.Listener.OnReadWrite | listener/agent/agent.go:188-194 | the payload goes to the connection found, and to no other |
| Agent.Listener.OnEof | listener/agent/agent.go:214-222 | the connection found is taken off the list and closed, and no other changes |
| Agent.Listener.OnDisconnect | listener/agent/agent.go:132-148 | every connection on the list is closed, and no other changes |
| Agent.RunQueues | listener/agent/connections.go:43-90 | in every interleaving the list is, for each address pair, a queue of its connections |
| Agent.Conservation | listener/agent/agent.go:131-222 | in every interleaving bytes read and buffered are, in order, the payloads that arrived while the connection was open and at the head of its pair's queue; one EOF and one channel close at most |
| Agent.ReadingAllGetsAll | listener/agent/connection.go:77-109 | in every interleaving a read that asks for enough has got all payloads that arrived |
| Agent.OnePayloadOneConnection | listener/agent/agent.go:188-194 | a payload changes the head of its pair's queue at most |
| Agent.RegisteredOrClosed | listener/agent/agent.go:167-222 | in every interleaving each connection is on the list or closed |
| Agent.SilentAfterDisconnect | listener/agent/agent.go:131-149 | when the stream ends in any interleaving every connection is closed, and no later read or close sends an EOF on the closed channel |
| Sandbox.Htfs.ChangeDir | services/filesystem/htfs.go:76-95 | succeeds exactly on directories, and then cwd is the clean string of where the path led, without "..", and "." is that place; otherwise nothing changes |
| Sandbox.Htfs.constructor | services/filesystem/htfs.go:127-130 | a session starts at the top |
| Sandbox.Confined | services/filesystem/htfs.go:57-69 | for every path the real path is the root followed by where the path leads inside it, without a step up |
| Sandbox.RealPathStartsWithRoot | services/filesystem/htfs.go:56-69 | for a root with at least one name in it, the string is the clean root, or the clean root, a slash and the names below it |
| Sandbox.ChangeKeeps | services/filesystem/htfs.go:86-91 | the relative path always exists, and joined to the top it is the clean string of the new working directory |
| Sandbox.SessionConfined | services/filesystem/htfs.go:57-95 | after every sequence of requests the cwd string is rooted, clean and without a ".." part, and names the directory of a session that cannot leave its root |
| Smtp.Connection.Hello | services/smtp/conn.go:259-294 | the greeting state: domain and next state |
| Smtp.Connection.Loop | services/smtp/conn.go:194-246 | the command state, its counter and its limit |
| Smtp.Connection.MailFrom | services/smtp/conn.go:122-192 | the message state: recipients, chunks, data, reset |
| Smtp.Connection.Bdat | services/smtp/conn.go:145-173 | one chunk, and delivery with LAST |
| Smtp.Connection.Renew | services/smtp/conn.go:58-67 | a new message carries the current domain and nothing else |
| Smtp.Deliverable | services/smtp/conn.go:122-306 | in every session a delivery has the domain of the latest greeting, the sender of a MAIL FROM accepted after that greeting, after the last RSET and after the delivery before, exactly the recipients since its message object was made, and, for BDAT LAST, all chunks since then; at most 100 deliveries |
| Smtp.DataMail | services/smtp/conn.go:122-246 | at any point of any session where a command is awaited, MAIL FROM, any RCPT TO lines and DATA deliver once: the sender, recipients, domain and text that the client sent |
| Smtp.BdatMail | services/smtp/conn.go:145-173 | the same with BDAT chunks: the text is made of the bytes that each line announces |
| Smtp.FirstDataMail | services/smtp/conn.go:122-306 | the whole record of a session that greets and sends one mail with DATA |
| Smtp.FirstBdatMail | services/smtp/conn.go:122-306 | the whole record of a session that greets and sends one mail in chunks |
| Smtp.EnvelopeMarks | services/smtp/conn.go:139-291 | exactly which line is taken as a greeting, a sender or a recipient, and which part of it |
| Smtp.TextMarks | services/smtp/conn.go:134-192 | exactly which input leaves a chunk, a delivery or a new message object |
| Smtp.NextState | services/smtp/conn.go:122-294 | exactly which input leads to which state function |
| Smtp.CommandInEitherCase | services/smtp/conn.go:118-120 | a command is recognized at the start of a line, each letter in either case |
| Smtp.ServeConnection | services/smtp/conn.go:296-306 | the loop over state functions has those properties for every client |

## Left out

- epoll, raw sockets, the ARP cache, the route table and `isMe`: input and output. A segment is taken to be for us, and the peer's hardware address to be known.
- `handleTCP` before its State is found: the port 22 exception, and the creation of a State for every SYN without ACK, which is where a run begins.
- Fields of State that nothing reads (the send window, the urgent pointers, WL1, WL2), and the time stamp outside the table. The receive window is the constant 65535.
- Printing an address and parsing it again in `to4byte`: addresses are four octets.
- The ring buffer library: a bounded byte queue whose writes keep what fits and whose operations do not overlap.
- TcpHeader.Header.Unmarshal: inputs shorter than the fixed header are a precondition, as the code slices them without a check; likewise `Ethernet.Parsed`.
- The byte orders of operating systems other than Linux in the IPv4 codec.
- The knock detector, ARP, ICMP and UDP handling, and the services behind the handler.
- IPP range values: the group decoder never uses their decoder and reads a range tag as integers, which is modelled; their encoder is not.
- What the IPP decoder does after an error: it may return it, panic or not return; the model only says that it does not succeed.
- Vnc.AgreementNeedsOneQuadPerPoint: one direction only for images that are not at the origin or whose rows overlap, because whether those agree depends on their contents; `Vnc.AgreementExactly` is the exact condition for all others.
- Other images than RGBA in the VNC paths, and the frame header written before the pixels.
- Connection.State.Read: one attempt on the buffer. A call makes a second one when it is woken, or fails after 60 seconds; in a run the two attempts are two reads, with anything in between.
- Agent.Connection.ReadBuffered: one attempt on the buffer. Waiting, the deadline and the end of file that `Read` reports are left out.
- An agent connection's `Write`, the agent's wire codec, and UDP messages.
- Symbolic links and the real contents of the file system: confinement is lexical, and what the host has at a path is a parameter.
- SMTP reply texts, address and header parsing, TLS, hashing: an input says whether they succeed. Upper-casing is that of ASCII letters. `From` and `To` are the text that is handed to the address parser.
- FTP, Redis, memcached, TFTP, Telnet, SSH, HTTP, DNS, pushers, directors, storage, web and configuration: they would add easy members or are plumbing over libraries.
