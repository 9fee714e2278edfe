# A verified model of the selective-repeat file transfer

The repository moves a file over UDP. The sender numbers its packets modulo 256, keeps up to 31 of them in a ring
until they are acknowledged, and sends again what a NACK asks for or what has grown old. The receiver writes the
packet it awaits and every packet that follows on, keeps early packets in a window indexed by their distance from the
awaited one, and answers with cumulative ACKs. Between the two, a link simulator drops, cuts, corrupts and delays
datagrams.

This project models the four parts in Dafny and proves them correct, each by itself and joined together.

- **Codec** (`Octets`, `Crc32`, `Packets`, `Layout`, `PacketStruct`). The wire format is a function `Encoding` on
  packet values and a function `Decode` on octets; the class `Packet` and the method `Encode` do the same work in
  place and are proved equal to them. `Layout` says in numbers where each field lies, for both directions, and proves
  the test packet of the repository. CRC-32 is computed bit by bit, as section 8 of RFC 1952 defines it. The proofs go
  from the injectivity of one shift up to round trips and to what every effect of the link does to an encoded packet.
- **Windows** (`SeqNum`, `SenderQueue`, `ReceiverWindow`). Two classes over arrays. The sender's ring refines a
  sequence of packets, the receiver's buffer a map from offsets to packets that is moved down in place.
- **The two loops** (`SenderSpec` with `SenderLoop`, `ReceiverSpec` with `ReceiverLoop`). The specification modules
  say on values what each block of a loop does; the classes `Sender` and `Receiver` are the loops themselves, block by
  block, and each method is proved equal to its specification function. `SenderLaws` and `ReceiverLaws` say what these
  functions amount to without using them: which packets are sent, with which fields and which clock reading, and what
  is left.
- **The system** (`Protocol`, `Runs`, `Timestamps`, `Limits`, `Fifo`, `Continuations`). Both ends joined by a channel
  in which whatever was once sent can arrive at any time, any number of times, whole, cut or with an octet inverted. A
  packet carries, as a ghost, the absolute number it stands for. The one assumption is that no old packet arrives
  whole at a time when its number is taken for that of a new one; DATA at most 223 behind the awaited packet, and ACKs
  that acknowledge nothing more than 100 behind the head of the window, meet it. `Limits` shows by runs what happens
  otherwise. `Timestamps` follows the clock readings through a run. `Fifo` proves that a channel which keeps the order
  and loses anything it likes meets the assumption, and `Continuations` that over such a channel the transfer can
  always be completed.
- **The link** (`MinQueue`, `LinkTime`, `Link`). The heap with its root at index 0 and children at 2x and 2x + 1, the
  delays, the time-out, and the queue of delayed packets over whole runs.
- **The whole** (`Network`). Sender, link and receiver, joined by sockets that keep the order and may drop anything;
  every run of that is a run over a FIFO channel when there is no jitter, and otherwise a run of the protocol as long
  as arrivals are timely.

## Main results

1. `Runs.Safety`, `Runs.Completeness`, `Runs.RunsGoForward`: in every run the receiver has written a prefix of what
   the sender has read, each buffer once and in order, and never takes anything back; when the sender leaves, or the
   closing packet stops the receiver, it has written all of it. `Fifo.FifoRefines` and `Fifo.FifoSafety` carry this
   over to every FIFO channel, on which, by `Fifo.ArrivalsAreUnambiguous`, no test and no search ever confuses two
   generations of a number.
2. `Protocol.StepKeepsInvariant`, from `Protocol.AckedCountIsDistance`, `Protocol.NackFinds`, `Protocol.AwaitedPacket`
   and their companions: the tests modulo 256 always find the absolute truth.
3. `Packets.RoundTrip` and `Packets.Reencoding`; `Packets.DamageDetected` for every octet but the first, and
   `Packets.CutIsRecognised` for the cut after the header. For the first octet no guarantee is possible
   (`Packets.InvertedFirstOctetCanPass` is an example), `Packets.InvertedDataPasses` and `Packets.InvertedAckPasses`
   say exactly when it goes undetected, and `Packets.InvertedTypeNeverReturns` is why that does no harm: the packet
   never passes for its own type, so the end-to-end theorem does not need to exclude it.
4. `SenderLoop.Sender.Rescan` with `SenderLaws.ScanLaw` and `SenderSpec.ScanCoverage`: the retransmission scan ends,
   whichever packets its mixture of moduli lets it visit, and sends exactly those of them that are more than 60 ms
   old, each once and in order. `Timestamps.ScanResendsOld` and `Timestamps.StampIsLastSending` carry this over to
   runs: a packet's stamp is the time of its last sending, so until the clock wraps the scan never sends a packet
   again within 60 ms of that, and always does later if it goes over it. `Timestamps.EchoIsSendingTime`: what the
   receiver echoes is a time at which a packet was sent.
5. `ReceiverLoop.Receiver.Deliver` and `ReceiverSpec.RebasedWindow`: the maximal run is written, and nothing that is
   kept is lost or misplaced when the window is re-based.
6. `Link.LinkSim.DeliverDelayed` and `Link.LinkSim.QueueTimeout` over `MinQueues.MinQueue`: every packet is sent once
   or is still queued, in the order of the comparison. That is not the order of time: `LinkTime.ExpiresEarly` and
   `LinkTime.OrderAgainstTime` say exactly when the two differ, always by less than a second, and
   `LinkTime.TimeoutOutlasts` exactly when the time-out is too long for it. Without jitter the order is that of time
   (`LinkTime.EqualDelaysExpireInTime`) and the link is FIFO (`Link.LinkSim.DelayedLinkIsFifo`).
7. `Network.NetRefines`, `Network.NetIsRun` and `Network.NetSafety`: the first result holds of the whole, sender, link
   and receiver, without jitter unconditionally and with jitter as long as arrivals are timely.
8. `Continuations.NeverStuck`, `Continuations.CanFinish` and `Continuations.RunCanFinish`: whatever has been lost, the
   transfer can still come to its end, with all that was read as the output.
9. `Limits.StaleDataBreaksInvariant` and `Limits.StaleAckLosesData`: what is asked of the channel cannot be given up.
   `Runs.CountIsZero` and `Runs.LeavesAtEndOrUnread`: exactly when the exit test holds.

## What the code does that its documentation does not say

- `pkt_decode` is documented to check the type, the TR field and the length. It does not: a zero type passes
  (`Packets.ZeroTypePasses`), and the errors of `pkt_set_tr` and `pkt_set_length` are ignored
  (`src/lib/segment/packet_implem.c:68,87`). So an announced length above 512 leaves the structure's former length in
  force, and TR on a packet that is not DATA is dropped. `Packets.Reencoding` says exactly which accepted strings
  these are.
- `pkt_encode` reports two octets more than it wrote for a packet that is not DATA but has a payload.
- The timestamp is copied in the host's own order; the model takes a little-endian host.
- Every sequence number is lowered by one before it is used, for NACKs as for ACKs. So a NACK sends again the packet
  before the awaited one, or nothing, and never the packet that was cut (`Runs.NackResendsPredecessor`).
- The scan steps its target modulo 31 while numbers count modulo 256, so it comes to the whole window exactly when the
  window has one packet or none of its numbers passes 30 (`SenderSpec.ScanCoverage`).
- `in_window` admits the offsets 0 to 32 but the window has 31 slots. In every run in which arrivals are timely the
  offset stays below 31 (`Protocol.NumberIsNear`); a packet 224 or 225 behind, modulo 256, makes it leave the array,
  and there are runs that lead there (`Limits.StaleDataBreaksInvariant`).
- The borrow in `timeval_diff` is paid out only when seconds remain, so a packet due less than a second ahead, but in
  the next second, is waited for 1 ms at a time (`LinkTime.TimeoutBounds`).
- `ts` of a queued packet is not normalised, and the comparison is lexicographic. A packet delayed by 999 ms at 10.5 s
  is sent at 11 s, 499 ms early (`LinkTime.EarlyExample`); with jitter a packet can overtake one due 399 ms sooner,
  and `select` wait beyond the time of that one (`LinkTime.OvertakingExample`). The exact conditions are in
  `LinkTime.ExpiresEarly`, `LinkTime.OrderAgainstTime` and `LinkTime.TimeoutOutlasts`.
- The delay is said to be capped to 10 s but is taken modulo 10 s: a delay of 10 s is none
  (`LinkTime.DelayIsAsAsked`).
- `timeval_diff` is documented as the difference. It is a second short when the borrow takes the only second
  (`LinkTime.TimevalDiff`).
- `nb` starts at 0, is set by reads from either side, and is tested whether or not anything has been read. So the
  sender leaves at once if the first `poll` times out (`Runs.MayLeaveUnread`), and otherwise only after reading the
  end of its input, which an ACK read later makes it do once more (`Runs.CountIsZero`, `Runs.LeavesAtEndOrUnread`).
  The results on completeness speak of what has been read.
- The age of a packet is computed in 32 bits: a packet stamped 2^32 - 61 never grows too old (`SenderSpec.CanExpire`),
  and one stamped in the 60 ms after that is too old at once (`SenderLaws.AgeLaw`).
- An ACK more than 100 behind the head can be taken for one ahead, and can then drop packets that have not been
  delivered (`Runs.StaleAckDropsUndelivered`), after which the sender can leave with the output incomplete
  (`Limits.StaleAckLosesData`).
- The heap's comment says a node is less than its children; it is not greater.
- The receiver's `new_list` does not clear the window. The model takes it to be all null.

## Model

| member | source | states |
|---|---|---|
| Crc32.DetectsOneOctet | src/lib/segment/packet_implem.c:84-86 | replacing any one octet of any string by another changes its CRC-32 |
| Crc32.StepInjective | src/lib/segment/packet_implem.c:97-99 | one octet's step is injective in the register for a fixed octet, and in the octet for a fixed register |
| Crc32.RunInjectiveInState | src/lib/segment/packet_implem.c:97-99 | registers that differ never meet again on the same octets |
| Crc32.CheckValue | src/lib/segment/packet_implem.c:84-86 | the published check value of CRC-32, which pins polynomial, bit order, preset and complement |
| Packets.RoundTrip | src/lib/segment/packet_implem.c:33-157 | decoding the encoding of any well-formed packet, whatever follows it in the buffer and whatever length the structure held, gives the packet back, all fields |
| Packets.Reencoding | src/lib/segment/packet_implem.c:33-157 | an accepted string begins with the encoding of what it decodes to exactly when its announced length is taken, or is the one that the structure held, and it has no TR bit unless it is DATA; what is accepted is well formed unless both lengths are above 512 |
| Packets.ZeroTypePasses | src/lib/segment/packet_implem.c:33-103 | a packet of type zero that is encoded is accepted again, against what the header promises |
| Packets.OverflowNeedsLongInput | src/lib/segment/packet_implem.c:88-90 | the payload is copied beyond its array only from an input of more than 528 octets, into a structure whose uninitialised length was above 512 |
| Packets.DamageDetected | link_sim_repo/link_sim.c:196-200 | replacing any one octet of an encoded packet except the first makes the decoder refuse it, whichever field is hit |
| Packets.CutIsRecognised | link_sim_repo/link_sim.c:190-194 | a DATA packet cut to 12 octets with TR set still decodes, to the same header with TR set, because CRC1 leaves that bit out |
| Packets.InvertedTypeNeverReturns | link_sim_repo/link_sim.c:196-200 | with its first octet inverted, a packet is never accepted under its own type, and a NACK is never accepted at all |
| Packets.InvertedDataPasses | link_sim_repo/link_sim.c:196-200 | a DATA packet with its first octet inverted is accepted exactly when the CRC of its altered first six octets happens to be the four octets after them; for an ACK see the next row, and a NACK is never accepted |
| Packets.InvertedAckPasses | link_sim_repo/link_sim.c:196-200 | an ACK with its first octet inverted is accepted exactly when two octets at least follow it in the buffer and the CRC of its altered first eight octets happens to be the four octets after them |
| Packets.InvertedFirstOctetCanPass | link_sim_repo/link_sim.c:196-200 | a concrete DATA packet whose inverted first octet goes undetected |
| Layout.HeaderLayout | src/lib/segment/packet_implem.c:120-129 | octet by octet, in numbers: two bits of type, one of TR, five of window; for DATA the length, high octet first; the sequence number; the timestamp, low octet first |
| Layout.EncodingLayout | src/lib/segment/packet_implem.c:105-157 | after the header four octets of CRC1, which is the CRC of the same header with TR clear, then the payload and its CRC2 unless the packet is cut or empty; both CRCs high octet first; nothing else |
| Layout.SizeTest | src/lib/segment/packet_implem.c:35-54 | an input is refused for its size exactly when it has fewer than 12 octets for DATA, 10 for others, plus the announced length and 4 when that is not zero and TR is clear |
| Layout.DecodingLayout | src/lib/segment/packet_implem.c:56-103 | on an input of sufficient size, exactly when it is accepted, in terms of the two CRCs and the length in force, exactly when the copy overflows, and at which octets each field of the packet is read |
| Layout.TestPacket | tests/packet_test.c:18-45 | the 27 octets of the test packet are the encoding of its fields, and decode to them |
| PacketStruct.Packet.SetPayload | src/lib/segment/packet_implem.c:263-271 | a payload above 512 octets is refused and changes nothing; any other is the packet's payload and length afterwards |
| PacketStruct.Packet.MinimumSize | src/lib/segment/packet_implem.c:35-54 | the size test refuses exactly the inputs shorter than their type, TR bit and announced length require, an empty one included |
| PacketStruct.Packet.DecodeHeader | src/lib/segment/packet_implem.c:56-80 | field by field, the structure becomes the decoded header, with TR still clear; a refused length leaves the former one |
| PacketStruct.Packet.HeaderChecks | src/lib/segment/packet_implem.c:81-86 | CRC1 is computed with the TR bit cleared, as the encoder does |
| PacketStruct.Packet.DecodePayload | src/lib/segment/packet_implem.c:88-101 | a payload that fits is taken and is accepted exactly when CRC2 matches |
| PacketStruct.Packet.DecodeChecked | src/lib/segment/packet_implem.c:56-103 | past the size test, the status and the structure are those of the decoding function |
| PacketStruct.Packet.Decode | src/lib/segment/packet_implem.c:33-103 | whatever the structure held, unless the copy would overflow it, the in-place decoder returns the verdict, and fills the structure with the packet, that `Layout.SizeTest` and `Layout.DecodingLayout` describe; when the input is too short the structure is untouched |
| PacketStruct.EncodeFields | src/lib/segment/packet_implem.c:120-129 | the buffer begins with the header, every field of it in its place and its byte order, and nothing behind it changes |
| PacketStruct.EncodeHeader | src/lib/segment/packet_implem.c:120-138 | the buffer begins with the header and its CRC1 in network order, and nothing behind them changes |
| PacketStruct.Encode | src/lib/segment/packet_implem.c:105-157 | the buffer is refused exactly when the encoding, laid out as `Layout.EncodingLayout` says, does not fit, and is then untouched; otherwise it begins with the encoding, the rest is untouched, and the size is right except for packets that are not DATA but have a payload |
| SeqNum.HigherOrEqualIsAbsolute | src/lib/queue/queue.c:52-64 | the comparison agrees with that of the absolute packet numbers at any distance from -100 to 100 |
| SeqNum.HigherOrEqualRange | src/lib/queue/queue.c:52-64 | at a given distance it agrees for every window exactly when the distance is within 100 |
| SeqNum.BehindTakenForAhead | src/lib/queue/queue.c:52-64 | exactly which numbers up to 255 behind the head are taken for one ahead of it |
| SeqNum.IndIsOffset | src/lib/sorted_list/sorted_list.c:8-12 | the index of a packet is its absolute offset from the awaited one, and 256 more for a packet already passed |
| SeqNum.PassedPacketsAreOutside | src/lib/send_data/read_write_loop_server.c:13-19 | a packet already passed, however long ago, is kept out of the window exactly when it is 1 to 223 behind modulo 256 |
| SenderQueue.Queue.constructor | src/lib/queue/queue.c:9-19 | the new ring holds no packet |
| SenderQueue.Queue.Add | src/lib/queue/queue.c:25-31 | on any ring the packet goes to the next slot; on one that is not full it goes behind all others of the sequence, and no occupied slot is overwritten |
| SenderQueue.Queue.Peek | src/lib/queue/queue.c:33-38 | the oldest packet, or none exactly when there is none |
| SenderQueue.Queue.Dequeue | src/lib/queue/queue.c:40-46 | on any ring the slot at the front is cleared; on one that is not empty the oldest packet goes and the others keep their order |
| SenderQueue.Queue.IsHigherOrEqual | src/lib/queue/queue.c:52-64 | says whether the number covers the oldest packet, and is false on an empty ring |
| SenderQueue.Queue.Seek | src/lib/queue/queue.c:68-78 | the walk ends, also round a full ring, at the first packet with the number or where no packet is left to look at |
| SenderQueue.Queue.Get | src/lib/queue/queue.c:66-84 | gives the slot of the first packet with the number at or after the support, and the slot after it as the next support; fails, leaving the support alone, when there is none |
| SenderQueue.LocateFromOldest | src/lib/queue/queue.c:66-84 | asked from the oldest packet, the search succeeds exactly when the number is in the window |
| SenderSpec.WindowIsConsecutive | src/lib/send_data/read_write_loop_sender.c:113-137 | the packets of the sender's window are numbered consecutively modulo 256 |
| SenderSpec.InputKeepsWindow | src/lib/send_data/read_write_loop_sender.c:110-140 | reading keeps the window's length equal to its counter, at most 31, and its numbers consecutive up to the next one |
| SenderSpec.ScanCoverage | src/lib/send_data/read_write_loop_sender.c:213-237 | the scan visits the whole window exactly when the window has one packet or none of its numbers passes 30 |
| SenderSpec.CanExpire | src/lib/send_data/read_write_loop_sender.c:224 | a packet can grow too old for the scan exactly when its timestamp is not 2^32 - 61 |
| SenderSpec.NextVisit | src/lib/send_data/read_write_loop_sender.c:220-236 | after each packet the search gives the next offset to visit, further on and none left out, or none, or the head that ends the scan |
| SenderSpec.ScanSendsWhatItRestamps | src/lib/send_data/read_write_loop_sender.c:224-233 | what the scan sends is in the window as sent; every visited packet that is too old is sent |
| SenderSpec.HeadIsSentFirst | src/lib/send_data/read_write_loop_sender.c:214-233 | when the head is too old, it is what the scan sends first |
| SenderLaws.InputLaw | src/lib/send_data/read_write_loop_sender.c:110-140 | what is read while there is room is sent as one DATA packet with the next number, stamped with the clock, its window field and the packets counted making up the sending window; it joins the window and is counted; otherwise nothing is sent, and only `nb` changes |
| SenderLaws.ClosingLaw | src/lib/send_data/read_write_loop_sender.c:239-246 | the closing packet is empty, has the next number and the clock, and announces the sending window |
| SenderLaws.NackLaw | src/lib/send_data/read_write_loop_sender.c:180-195 | a NACK whose number less one, modulo 256, is in the window restamps that packet alone with the clock and sends it; the sending window goes from 1 to 1 and else to its half; nothing else changes |
| SenderLaws.UnknownNackLaw | src/lib/send_data/read_write_loop_sender.c:196-199 | a NACK for a number that is not in the window changes nothing |
| SenderLaws.AckLaw | src/lib/send_data/read_write_loop_sender.c:158-179 | an ACK drops exactly the longest prefix of the window that its number less one covers, counts it off, and sets the sending window to the one announced; nothing else changes and nothing is sent |
| SenderLaws.IgnoredLaw | src/lib/send_data/read_write_loop_sender.c:149-211 | a datagram that is refused, cut, DATA or of type zero changes nothing but the count read |
| SenderLaws.AgeLaw | src/lib/send_data/read_write_loop_sender.c:224 | a packet is too old exactly when the clock is more than 60 ms later than its stamp; for a stamp in the last 60 ms before the clock wraps the clock is taken to have wrapped, so the packet is too old at once |
| SenderLaws.ScanLaw | src/lib/send_data/read_write_loop_sender.c:213-237 | the scan sends exactly the packets that it goes over (the head, and those numbered from the successor of the head modulo 31 up to 30) whose stamp is more than 60 ms old, each once, in the order of the window, with the stamp of the sending, which they keep in the window; nothing else changes |
| SenderLaws.JustSentIsNotResent | src/lib/send_data/read_write_loop_sender.c:107-237 | what an iteration reads and sends, its own scan does not send again within 60 ms |
| SenderLoop.Sender.BuildPkt | src/lib/send_data/read_write_loop_sender.c:43-51 | whatever was in memory, the packet built is the DATA packet of these values |
| SenderLoop.Sender.HandleInput | src/lib/send_data/read_write_loop_sender.c:110-140 | the state and the datagram sent are those of `SenderLaws.InputLaw`: reads only while the window has room; what is read is sent as the next packet, stamped with the clock, announcing the room left, and kept in the ring |
| SenderLoop.Sender.DequeueAcked | src/lib/send_data/read_write_loop_sender.c:163-170 | drops as many packets from the front as the number covers one after the other, counts them off without underflow, and says whether any went |
| SenderLoop.Sender.HandleAck | src/lib/send_data/read_write_loop_sender.c:158-179 | the packets the ACK covers are dropped and counted off, and the sending window becomes the one it announces |
| SenderLoop.Sender.HandleNack | src/lib/send_data/read_write_loop_sender.c:180-199 | if the number is in the ring, one packet with that number is restamped with the clock there and sent as it then is, and the sending window is 1 if it was 1 and else half; otherwise ring, sending window and socket are left alone; the counters never change |
| SenderLoop.Sender.HandlePacket | src/lib/send_data/read_write_loop_sender.c:149-205 | the effect of an accepted packet by its TR bit and type |
| SenderLoop.Sender.HandleSocket | src/lib/send_data/read_write_loop_sender.c:142-211 | 12 octets are decoded however few were read, over what the buffer held before; a refused packet changes nothing but the count read |
| SenderLoop.Sender.RetransmitIfOld | src/lib/send_data/read_write_loop_sender.c:224-233 | the packet is restamped and sent, as restamped, exactly when more than 60 ms have passed since its stamp, in unsigned 32-bit arithmetic; otherwise nothing changes |
| SenderLoop.Sender.ScanOne | src/lib/send_data/read_write_loop_sender.c:220-236 | one step of the scan handles one more packet and leaves all others as they are |
| SenderLoop.Sender.Rescan | src/lib/send_data/read_write_loop_sender.c:213-237 | the scan ends, whatever the numbers in the ring, and ring and datagrams are those of `SenderLaws.ScanLaw`: exactly the packets gone over that are more than 60 ms old, each once, in the order of the window |
| SenderLoop.Sender.Leave | src/lib/send_data/read_write_loop_sender.c:239-263 | leaves exactly when `nb` is zero and nothing is in flight, sending one empty packet with the next number and changing nothing else |
| SenderLoop.Sender.TakeEvents | src/lib/send_data/read_write_loop_sender.c:110-211 | input and then datagram, each with its own clock reading, take the sender to the state, and send the datagrams, that the specification gives |
| SenderLoop.Sender.Iterate | src/lib/send_data/read_write_loop_sender.c:107-264 | one iteration, with a clock reading of its own in each block, sends the datagrams, in order, and reaches the state that the specification of the loop body gives |
| ReceiverWindow.WindowList.constructor | src/lib/sorted_list/sorted_list.c:21-26 | the new window holds what was in its memory, and is in order exactly if that was all null |
| ReceiverWindow.WindowList.Add | src/lib/sorted_list/sorted_list.c:41-59 | the packet goes to the slot of its offset, anywhere in the array; a packet that is there already is kept instead |
| ReceiverWindow.WindowList.Peek | src/lib/sorted_list/sorted_list.c:67-76 | none on an empty window, otherwise the first packet from `ptr` on, found within the array |
| ReceiverWindow.WindowList.Pop | src/lib/sorted_list/sorted_list.c:78-83 | the slot at `ptr` is freed and no other changes; the count stays right exactly if there was a packet |
| ReceiverWindow.WindowList.Reset | src/lib/sorted_list/sorted_list.c:85-96 | on any window and for any two numbers, what the in-place loop, which stops early, leaves in each slot; with different numbers and no packet below the offset it has moved every packet down and left no copy |
| ReceiverWindow.RebasedIsShifted | src/lib/sorted_list/sorted_list.c:85-96 | under that condition what the loop leaves is the shifted window, with as many packets |
| ReceiverWindow.CountOfShifted | src/lib/sorted_list/sorted_list.c:85-96 | moving the window down over empty slots keeps the number of packets, which is why the loop may stop early |
| ReceiverSpec.RebasedWindow | src/lib/send_data/read_write_loop_server.c:86-129 | after the awaited packet, slot j again holds the packet j after the awaited one, every packet beyond the run has moved by its length and none is lost |
| ReceiverLaws.AwaitedLaw | src/lib/send_data/read_write_loop_server.c:86-141 | the awaited packet is written, then those behind it up to the first gap or empty packet; without an empty packet there the window moves down by as many, and one ACK for the next number, window 31, echoes the timestamp of the last packet written; with one the receiver closes without an ACK |
| ReceiverLaws.UnawaitedLaw | src/lib/send_data/read_write_loop_server.c:142-176 | for every distance modulo 256: below 31 the packet is kept with its payload, length, number and timestamp unless its slot is taken, at 31 and 32 the index leaves the array, above it is not kept; the last ACK is repeated, echoing this packet, exactly when something has been delivered |
| ReceiverLaws.OtherwiseLaw | src/lib/send_data/read_write_loop_server.c:60-98 | a cut packet is answered by a NACK for the awaited number that echoes it; an empty awaited packet closes and an empty datagram stops the receiver; what is refused or not DATA changes nothing |
| ReceiverLoop.Receiver.Reply | src/lib/send_data/read_write_loop_server.c:21-30 | the datagram is the encoding of an ACK or NACK for the awaited number, with window 31 and no payload, whatever was in memory |
| ReceiverLoop.Receiver.Take | src/lib/send_data/read_write_loop_server.c:119-127 | one more packet of the run is written, its slot freed, and the awaited number moves on |
| ReceiverLoop.Receiver.FollowsOn | src/lib/send_data/read_write_loop_server.c:109 | the guard holds exactly when the packet after the run so far is kept, although it compares numbers modulo 256 |
| ReceiverLoop.Receiver.Drain | src/lib/send_data/read_write_loop_server.c:105-128 | writes exactly the maximal run behind the awaited packet; says whether an empty packet ended it |
| ReceiverLoop.Receiver.Rebase | src/lib/send_data/read_write_loop_server.c:129 | after the run every packet left is again at its offset from the awaited number |
| ReceiverLoop.Receiver.WriteRun | src/lib/send_data/read_write_loop_server.c:98-129 | writes the awaited packet and the maximal run, moves the number by as many, takes the timestamp of the last, re-bases the window |
| ReceiverLoop.Receiver.Deliver | src/lib/send_data/read_write_loop_server.c:98-131 | the state after the awaited packet is that of the specification, and so is the ACK to send; no ACK when it closes |
| ReceiverLoop.Receiver.KeepUnawaited | src/lib/send_data/read_write_loop_server.c:142-176 | an early packet is kept once, a late one changes nothing, and the last ACK is repeated exactly when there was one |
| ReceiverLoop.Receiver.HandleData | src/lib/send_data/read_write_loop_server.c:67-178 | a cut packet is answered with a NACK and writes nothing; whole packets are delivered, kept, or close the receiver |
| ReceiverLoop.Receiver.HandleDatagram | src/lib/send_data/read_write_loop_server.c:60-192 | the effect of any datagram, accepted, refused or empty, on the output, the window and the replies |
| ReceiverLoop.Receiver.TimeOut | src/lib/send_data/read_write_loop_server.c:53-59 | the receiver stops and what it has written stays |
| Protocol.DataArrival | link_sim_repo/link_sim.c:182-200 | a DATA packet arrives whole, or cut and marked so, or as nothing the receiver takes for DATA |
| Protocol.AckArrival | link_sim_repo/link_sim.c:182-200 | an ACK or NACK arrives whole or as nothing the sender takes for one, whatever the buffer held after its 10 octets |
| Protocol.RecentIsTimely | src/lib/send_data/read_write_loop_server.c:13-19 | DATA at most 223 behind and ACKs that acknowledge nothing more than 100 behind do no harm, so a channel of bounded staleness does all that is asked |
| Protocol.NumberIsNear | src/lib/sorted_list/sorted_list.c:41-43 | no packet in flight is more than 30 ahead of the awaited one, so the index stays inside the 31 slots; the closing packet is in flight only when all has been written |
| Protocol.PassedPacket | src/lib/send_data/read_write_loop_server.c:142-176 | a packet already passed, at any age at which its number is not taken for a new one, changes nothing and is answered by the last ACK |
| Protocol.EarlyPacket | src/lib/send_data/read_write_loop_server.c:142-176 | an early packet ends up in the slot of its absolute offset, no other slot changes, nothing is written |
| Protocol.AwaitedPacket | src/lib/send_data/read_write_loop_server.c:86-141 | the awaited packet makes the output the sender's input up to the end of the run, and the ACK says so |
| Protocol.AckedCountIsDistance | src/lib/send_data/read_write_loop_sender.c:165-170 | the loop drops exactly the packets that the ACK acknowledges, by absolute number, for any ACK at most 100 behind or ahead |
| Protocol.AckStep | src/lib/send_data/read_write_loop_sender.c:158-179 | after an ACK, however old if it is not taken to cover the head, the head is the larger of the old head and the ACK number |
| Protocol.NackFinds | src/lib/send_data/read_write_loop_sender.c:180-184 | a NACK finds the packet before the one it is for exactly when that packet is in the window |
| Protocol.ReceiverStepIsGood | src/lib/send_data/read_write_loop_server.c:60-192 | whatever arrives in time, and in whatever shape, the output stays a prefix of the input, only grows, and every reply says how much has been written |
| Protocol.TakeAckStep | src/lib/send_data/read_write_loop_sender.c:142-211 | whatever reply arrives in time, and in whatever shape, the head never passes what has been delivered, and moves only to the number of the reply |
| Protocol.StepKeepsInvariant | src/lib/send_data/read_write_loop_sender.c:107-264 | every step of either end and of a channel that does no harm keeps the invariant that ties the windows, the packets in flight and the output to absolute numbers; NACKs and damaged packets may be of any age |
| Runs.ReachableIsGood | src/lib/send_data/read_write_loop_sender.c:107-264 | the invariant holds in every state of every run |
| Runs.RunsGoForward | src/lib/send_data/read_write_loop_server.c:86-129 | nothing is taken back during a run: of two states the later has read, written and acknowledged at least what the earlier had |
| Runs.Safety | src/lib/send_data/read_write_loop_server.c:86-177 | in every state of every run the output is a prefix of the input, each buffer written once and in order, and the window array is never overrun |
| Runs.Completeness | src/lib/send_data/read_write_loop_sender.c:239-263 | when the sender has left, or the closing packet has stopped the receiver, the output is all that was read |
| Runs.WindowBounds | src/lib/send_data/read_write_loop_sender.c:113-137 | in every run the counter is the number of packets in flight, at most 31, consecutively numbered; what has left the window has been delivered |
| Runs.Progress | src/lib/send_data/read_write_loop_sender.c:158-179 | if the head packet arrives whole and then the ACK for it, the head moves on to what the receiver awaits, whether it awaited that packet or had passed it, and both ends go on |
| Runs.WindowStaysOpen | src/lib/send_data/read_write_loop_sender.c:165-195 | in every run the sending window stays between 1 and 31 |
| Runs.OneUntilAcked | src/lib/send_data/read_write_loop_sender.c:87-195 | in every run, until an ACK has arrived whole, the sender has read one buffer at most and its sending window is 1, whatever NACKs and damaged packets arrive |
| Runs.NewPacketAnnouncesRoom | src/lib/send_data/read_write_loop_sender.c:113-118 | the window field of a new packet is the room there was, at least 1 |
| Runs.NackResendsPredecessor | src/lib/send_data/read_write_loop_sender.c:150-199 | in every state that the invariant allows a NACK makes the sender send the packet before the awaited one if that is in flight, which has been delivered already, and otherwise nothing |
| Runs.StaleDataIsMisfiled | src/lib/send_data/read_write_loop_server.c:144-147 | one packet further behind than 223 and the index leaves the array; from 226 on the old packet takes the place of a new one |
| Runs.StaleAckDropsUndelivered | src/lib/send_data/read_write_loop_sender.c:158-170 | an ACK behind the head, by up to 255, drops packets exactly under the condition on the head's number; when the receiver still awaits the head it has not got them |
| Runs.CountIsZero | src/lib/send_data/read_write_loop_sender.c:79-239 | `nb` is zero exactly if nothing has been read from either side, or the last read was of the end of the input |
| Runs.LeavesAtEndOrUnread | src/lib/send_data/read_write_loop_sender.c:239 | in every run the sender leaves only with everything read acknowledged, and after reading the end of its input, or else before reading anything from either side |
| Runs.MayLeaveUnread | src/lib/send_data/read_write_loop_sender.c:79-239 | the second case happens: the sender may leave as its first step, having read nothing |
| Runs.IterationIsSteps | src/lib/send_data/read_write_loop_sender.c:107-264 | an iteration of the sending loop, whatever its clock readings, reaches the state, sends the packets, in order, and leaves under the condition that the steps of the system for its input, datagram, scan and exit do |
| Timestamps.StampIsLastSending | src/lib/send_data/read_write_loop_sender.c:113-233 | in every run each packet in flight carries the clock reading of the last step that sent it, as new, on a NACK or by the scan |
| Timestamps.ScanResendsOld | src/lib/send_data/read_write_loop_sender.c:213-233 | in every run the scan sends a packet in flight again exactly when it goes over it and, by the arithmetic of `SenderLaws.AgeLaw`, more than 60 ms have passed since the packet was last sent, whatever sent it |
| Timestamps.DataCarriesReading | src/lib/send_data/read_write_loop_sender.c:113-246 | in every run every DATA packet under way was sent, under its number, by a step that took its timestamp from the clock |
| Timestamps.EchoIsSendingTime | src/lib/send_data/read_write_loop_server.c:71-176 | in every run the timestamp of every ACK and NACK is a clock reading taken by a step of the sender that sent a DATA packet, so the sender measures from a real sending |
| Limits.AnyNumberDelivered | src/lib/send_data/read_write_loop_sender.c:107-264 | for every n there is a run that delivers and acknowledges n packets while the first packet and the first ACK are still under way |
| Limits.StaleDataBreaksInvariant | src/lib/send_data/read_write_loop_server.c:144-147 | for every distance at which old DATA does harm there is a run that ends with such a packet on offer, whose arrival breaks the invariant: at 224 or 225 behind, modulo 256, it overruns the window, at a multiple of 256 it is written again |
| Limits.StaleAckLosesData | src/lib/send_data/read_write_loop_sender.c:158-263 | for every head at which an ACK for the first packet does harm there is a run that ends with that ACK on offer, after which the sender can leave although the output is incomplete |
| Fifo.FifoIsTimely | src/lib/send_data/read_write_loop_server.c:13-19 | over a FIFO channel DATA arrives between 31 behind and 30 ahead of the awaited packet, and an ACK or NACK between the head and the next number |
| Fifo.ArrivalsAreUnambiguous | src/lib/send_data/read_write_loop_server.c:13-19 | at every arrival in every run over a FIFO channel the numbers are within these bounds, each test modulo 256 and the search that serves a NACK say what the absolute numbers say, and the index stays below 31 |
| Fifo.NothingFromNowhere | src/lib/send_data/read_write_loop_server.c:86-177 | what a step delivers or keeps had been kept before or has just arrived |
| Fifo.FifoStepKeepsInvariant | src/lib/send_data/read_write_loop_sender.c:107-264 | every step over the FIFO channel, losses included, keeps what is under way in order |
| Fifo.FifoRefines | src/lib/send_data/read_write_loop_sender.c:107-264 | every run over a FIFO channel that loses anything is a run over a channel of bounded staleness |
| Fifo.FifoSafety | src/lib/send_data/read_write_loop_server.c:86-177 | over a FIFO channel the output is always a prefix of the input, and all of it at a normal end |
| Continuations.AllMayBeLost | link_sim_repo/link_sim.c:184-188 | everything under way may be lost, step by step |
| Continuations.NeverStuck | src/lib/send_data/read_write_loop_sender.c:213-237 | from every state with packets in flight and a running receiver, after everything under way is lost, a scan that finds the head too old starts a continuation in which the head moves on and both ends go on |
| Continuations.CanFinish | src/lib/send_data/read_write_loop_sender.c:107-264 | from every state in which both ends go on and every packet in flight can grow too old, the transfer can come to its end: the sender has left and the receiver has closed with all that was read as its output |
| Continuations.RunCanFinish | src/lib/send_data/read_write_loop_sender.c:107-264 | every run over a FIFO channel, until an end stops, can be continued to such an end |
| Network.StepRefines | link_sim_repo/link_sim.c:349-374 | without jitter, when each round of the link reads a later time, every step of the ends, of the link and of the sockets is one step over a FIFO channel or none, and keeps the queue in the order of arrival |
| Network.FirstIsDelivered | link_sim_repo/link_sim.c:153-168 | without jitter no packet but the first of those queued can come first in the comparison |
| Network.NetRefines | link_sim_repo/link_sim.c:349-374 | without jitter, when each round of the link reads a later time, every run of sender, link and receiver, up to any of its states, is a run over a FIFO channel |
| Network.NetIsRun | link_sim_repo/link_sim.c:182-244 | with any jitter, every run of sender, link and receiver in which arrivals are timely is a run of the protocol |
| Network.NetSafety | link_sim_repo/link_sim.c:182-244 | through the link, with any rates and delay and either direction altered or relayed, without jitter or with any jitter and timely arrivals, the output is always a prefix of the input, and all of it at a normal end |
| Network.NetCarries | link_sim_repo/link_sim.c:182-200 | in every run all that is under way was sent, and has been altered only as the link can alter it |
| Network.WhatComesCanBeTaken | link_sim_repo/link_sim.c:182-200 | in every run an end that still listens can take what the link has written first, as the link has altered it |
| Network.DrainIsSteps | link_sim_repo/link_sim.c:150-171 | what the contract of the delivery loop allows on the queue of the net is so many deliveries of its first packet |
| Network.TakeIsSimulate | link_sim_repo/link_sim.c:182-244 | the step that takes a packet drops, writes out or queues it, altered and under the expiry date, under the same conditions on throws and rates as `Link.LinkSim.Simulate`; a direction that is not altered is relayed; nothing else changes |
| MinQueues.RootIsLeast | link_sim_repo/min_queue.c:33-49 | under this geometry no element is less than the root, for any strict weak order |
| MinQueues.HoleRises | link_sim_repo/min_queue.c:101-110 | moving a parent down keeps a heap except at the hole |
| MinQueues.BreakSinks | link_sim_repo/min_queue.c:139-152 | swapping with the smaller child keeps a heap except below it, also at slot 0, which is its own left child |
| MinQueues.MinQueue.constructor | link_sim_repo/min_queue.c:59-73 | the new queue is empty |
| MinQueues.MinQueue.Grow | link_sim_repo/min_queue.c:85-97 | there is room for one more element, and no element is lost |
| MinQueues.MinQueue.Push | link_sim_repo/min_queue.c:82-114 | keeps the heap; the elements are those there were and the new one |
| MinQueues.MinQueue.HasChild | link_sim_repo/min_queue.c:116-130 | the proper child with the smaller element, or 0 when there is nothing below that could be less, also for slot 0 |
| MinQueues.MinQueue.Pop | link_sim_repo/min_queue.c:132-153 | keeps the heap; exactly the root goes, and nothing from an empty queue |
| MinQueues.MinQueue.Peek | link_sim_repo/min_queue.c:155-160 | an element that no other is less than, or nothing exactly when the queue is empty |
| LinkTime.LaterIsStrictWeakOrder | link_sim_repo/link_sim.c:105-112 | the comparison is a strict order, total on pairs, whatever the microseconds; it is not the order of time |
| LinkTime.EqualDelaysKeepOrder | link_sim_repo/link_sim.c:227-230 | packets delayed equally expire in the order of their clock readings although microseconds are not carried |
| LinkTime.ExpiryIsTotalDelay | link_sim_repo/link_sim.c:227-230 | the pair adds up to the clock plus the delay, with microseconds below two million |
| LinkTime.DelayIsAsAsked | link_sim_repo/link_sim.c:203-214 | for all options and random numbers the delay is the one asked for exactly when that is below 10 s, and otherwise that modulo 10 s as long as it fits 32 bits |
| LinkTime.DelaysAskedFor | link_sim_repo/link_sim.c:203-213 | what is asked for: the delay; with jitter above it anything below the sum; with jitter up to it anything from the difference to below the sum; a small throw is taken as is |
| LinkTime.ExpiresEarly | link_sim_repo/link_sim.c:155 | a packet is taken for expired before its time exactly when its microseconds exceed a second and the clock is in the next second, then by less than a second; none whose time has come is held back |
| LinkTime.EarlyExample | link_sim_repo/link_sim.c:155 | a packet taken for expired 499 ms before its time |
| LinkTime.OrderAgainstTime | link_sim_repo/link_sim.c:105-112 | exactly when the packet that the comparison puts first is due later than the other, then by less than a second |
| LinkTime.OvertakingExample | link_sim_repo/link_sim.c:205-230 | with jitter, a packet that comes first although it is due 399 ms later, and a time-out longer than the time left of the other |
| LinkTime.EqualDelaysExpireInTime | link_sim_repo/link_sim.c:227-230 | of packets delayed equally the comparison is that of time |
| LinkTime.TimevalDiff | link_sim_repo/link_sim.c:114-126 | the difference is a minus b in time, except that it is a second short exactly when the microseconds borrow the only second |
| LinkTime.TimeoutBounds | link_sim_repo/link_sim.c:334-346 | the time-out is positive and at most the time left or 1 ms, and is the time left exactly when that is 1 ms or there is no clamping, which is characterised |
| LinkTime.TimeoutOutlasts | link_sim_repo/link_sim.c:334-346 | exactly when the time-out for the packet that comes first outlasts 1 ms and the time left of another one |
| Link.SlotCmpIsStrictWeakOrder | link_sim_repo/link_sim.c:440-447 | the comparison of slots is one that the heap is correct for |
| Link.LinkSim.constructor | link_sim_repo/link_sim.c:75-87 | nothing is queued or has been sent |
| Link.LinkSim.Alter | link_sim_repo/link_sim.c:184-200 | dropped exactly when the first throw is below the loss rate; otherwise, octet by octet, cut to 12 octets with TR set exactly when the second is below the cut rate and there is more, or else with just the octet at the fourth modulo the size inverted exactly when the third is below the error rate, or else unchanged |
| Link.FateLaw | link_sim_repo/link_sim.c:184-200 | which of the four happens to a packet, as a condition on throws, rates and size alone |
| Link.LinkSim.Enqueue | link_sim_repo/link_sim.c:216-235 | the packet is queued under the clock plus its delay, and every packet so far is still accounted for |
| Link.LinkSim.Simulate | link_sim_repo/link_sim.c:181-244 | nothing is left of the packet exactly when the first throw is below the loss rate; otherwise what `Link.LinkSim.Alter` makes of it is written out at once when there is no delay, and else queued under the clock plus the delay applied; no other packet is touched |
| Link.LinkSim.SendFirst | link_sim_repo/link_sim.c:156-168 | the first packet leaves the queue for the output and everything is still accounted for |
| Link.LinkSim.DeliverDelayed | link_sim_repo/link_sim.c:150-171 | sends packets that the comparison takes for expired, in its order, each before everything left, and says exactly which are early or before one due sooner, by less than a second; without jitter in order of time; stops on a write failure or when nothing is left whose time has come; loses nothing |
| Link.LinkSim.DelayedLinkIsFifo | link_sim_repo/link_sim.c:202-230 | without jitter and with a clock that moves on, what was sent is the first of what was queued, and the rest is queued still |
| Link.LinkSim.QueueTimeout | link_sim_repo/link_sim.c:328-347 | none exactly when nothing is queued; otherwise positive and at most 1 ms or the time left of the packet that comes first, which is due first but for the missing carry, and without jitter is due first; and for every packet queued, exactly when the time-out outlasts its time left |
| Link.LinkSim.Round | link_sim_repo/link_sim.c:349-374 | one round reads the clock; sends what has expired, in order, and leaves nothing expired unless the socket accepts no more; then deals with the packet that has come as `Link.LinkSim.Simulate` does, unless sending failed for good; when each round reads a later time, the times at which packets are queued strictly increase |

## Left out

- Sockets, `poll`, `select`, addresses, options, `wait_for_client` and the two `main` functions: they only decide
  which step comes next, which the model leaves open. The link's handling of addresses and its dropping of datagrams
  under 10 octets (`process_incoming_pkt`) are not modelled.
- Short reads and writes, failures of `read`, `recv`, `send` and `write` at the two ends, failures of `malloc`, frees
  and leaks.
- The statistics logger, `log.c` and `print_seqnums`: counters and printing.
- Every clock reading and every result of `rand()` is a parameter of its own. Round-trip figures are not computed.
- Liveness beyond `Runs.Progress` and `Continuations`: they say what can happen next, not that it will, and the
  receiver's time-out is a step that may happen at any time.
- Network.NetSafety: with jitter the link does not keep the order, and how old an arrival can get is not bounded; that
  arrivals are timely is then an assumption.
- Link.LinkSim.DelayedLinkIsFifo: needs clock readings that strictly increase between packets; equal readings may swap
  two packets in the heap.
- Link.LinkSim.Simulate: option values for which a random number would be taken modulo zero are excluded.
- LinkTime.TimevalDiff: times are unbounded integers, without the host's width.
- SenderQueue.Queue.Get: hands out the slot of the packet instead of its address, since the ring holds packets as
  values; a write of the scan through that address is a write to the slot. When nothing is found the address that the
  caller passed in stays as it was, which no caller looks at.
- SenderQueue.Queue.Dequeue: the sequence of packets is said to follow only on a ring that is not empty, and for Add
  on one that is not full, as the callers ensure; otherwise only the slots and counters are stated.
- ReceiverWindow.WindowList.Add: asks for a slot inside the array, and Peek for a packet from `ptr` on unless the
  window is empty. The source checks neither and would leave the array; the callers are proved to keep to it.
- ReceiverWindow.WindowList.constructor: the receiver is given a window whose memory is all null.
- ReceiverLoop.Receiver.HandleDatagram: asks that the datagram does not lead the index out of the window array, where
  the source's behaviour is undefined; `Runs.Safety` proves that this holds in every run.
- PacketStruct.Packet.Decode: asks that the copy of the payload does not overflow its array, which neither end can
  bring about (`Packets.OverflowNeedsLongInput`). The fixed payload array is a field holding a sequence of 512 octets.
  Reading the length field of an input shorter than three octets reads beyond it, so the buffer is asked to have three
  octets.
- PacketStruct.Encode: the packet is passed as a value, since the source does not change it.
- The theorems on runs split an iteration of the sending loop into steps, which allows more than the loop does; that
  every iteration is such steps is `Runs.IterationIsSteps`. DATA sent to the sender is not part of the system, though
  `SenderLoop.Sender.HandlePacket` handles it.
