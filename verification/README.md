# RTP retransmission (RFC 4588) in SSRC-multiplexing mode

This project models the two GStreamer elements that implement RFC 4588
retransmission when the retransmission (RTX) stream shares the RTP session
with its original ("master") stream and is told apart by its own SSRC:

- **rtprtxsend** (`gst/rtpmanager/gstrtprtxsend.c`). For each master SSRC
  it keeps an RTX SSRC, a private RTX sequence-number counter and a bounded
  history of sent packets. The history is limited by packet count and by
  time span. A retransmission request queues the stored packet. On the next
  packet, each queued packet is sent again as an RTX packet: the original
  sequence number (OSN) is written in front of the payload, and the SSRC,
  seqnum and payload type are rewritten. An SSRC collision replaces an RTX
  SSRC or forgets a master.
- **rtprtxreceive** (`gst/rtpmanager/gstrtprtxreceive.c`). It records
  upstream retransmission requests as pending (seqnum -> master SSRC). RFC
  4588 forbids two pending requests for one seqnum from different masters,
  so a conflicting request is refused. An RTX stream is associated with its
  master through the first RTX packet whose OSN answers a pending request.
  RTX packets are then turned back into the original packets.

Each element is a `class` whose fields are the element's state. Each
handler (chain function, event handler, property setter, reset) is a method
that runs as one atomic step, as the element's mutex makes it, and returns
what it pushes downstream. The pure parts are functions:

- the packet rewriting;
- the circular seqnum order;
- the history trimming;
- the payload-type table walks.

Files:

| file | module | contents |
|---|---|---|
| rtp_packet.dfy | RtpPacket | integer widths, the packet record, the OSN codec, the library's seqnum comparison, unsigned counters |
| pt_map.dfy | PtMap | the payload-type-map structure and the sender's and receiver's table walks |
| rtx_history.dfy | RtxHistory | history items, their order, the time span, the trimming loops |
| rtx_send.dfy | RtxSend | the sender's SSRC tables, RTX packet construction, `class RtxSender` |
| rtx_receive.dfy | RtxReceive | OSN reading, packet reconstruction, `class RtxReceiver` |
| rtx_roundtrip.dfy | RtxRoundTrip | decode-of-encode, and receiver scenarios |

The sender's two hash tables (master -> data and RTX SSRC -> master) are
one field `tables` of type `SsrcTables`. The helper methods that work on
them (`GetSsrcData`, `Encode`, `StorePacket`, ...) take and return table
values, and the handler assigns the result back.

## Model

| member | source | states |
|---|---|---|
| RtpPacket.SetPayloadType | gst/rtpmanager/gstrtprtxsend.c:584 | the payload type is set when it fits 7 bits and the packet is left as it was otherwise |
| RtpPacket.AddU32 | gst/rtpmanager/gstrtprtxsend.c:659 | a `guint` statistic grows by `n` modulo 2^32, exactly when no overflow happens |
| RtpPacket.WriteUint16BE | gst/rtpmanager/gstrtprtxsend.c:571 | the OSN is written as two bytes, high byte first, whose value is the seqnum |
| RtpPacket.ReadUint16BE | gst/rtpmanager/gstrtprtxreceive.c:512 | the OSN read from two bytes is the value whose encoding is those bytes |
| RtpPacket.ReadOfWriteUint16BE | gst/rtpmanager/gstrtprtxreceive.c:512 | reading a written OSN gives the seqnum back |
| RtpPacket.CompareSeqnum | gst/rtpmanager/gstrtprtxsend.c:312-320 | the library comparison is the 16-bit difference read as a signed 16-bit number |
| RtpPacket.CompareSeqnumZero | gst/rtpmanager/gstrtprtxsend.c:312-320 | two seqnums compare as 0 exactly when they are equal |
| RtpPacket.CircularOrder | gst/rtpmanager/gstrtprtxsend.c:312-320 | "later" means 1 to 32767 steps ahead modulo 2^16, and "earlier" means the other half |
| RtpPacket.CompareSeqnumAntisymmetric | gst/rtpmanager/gstrtprtxsend.c:312-320 | swapping the arguments negates the result, except at the half-way distance |
| RtpPacket.WrapAroundPair | gst/rtpmanager/gstrtprtxsend.c:312-320 | 0 comes right after 65535 |
| PtMap.ToMapSpec | gst/rtpmanager/gstrtprtxsend.c:471-486 | the sender's table has one key per field name; each entry holds a value of a field with that name, and with distinct names the value of that one field |
| PtMap.ToInvMapSpec | gst/rtpmanager/gstrtprtxreceive.c:393-408 | the receiver's table has one key per field value; each entry holds a field name, and the last field with a given value decides its entry |
| PtMap.InvMapInvertsMap | gst/rtpmanager/gstrtprtxreceive.c:393-408 | with distinct names and values, the receiver's table sends each RTX payload type of the sender's table back to its original payload type |
| RtxHistory.ItemsCmp | gst/rtpmanager/gstrtprtxsend.c:312-320 | the item order is 0 on equal seqnums, and negative exactly when the first item is 1 to 32768 steps behind the second |
| RtxHistory.Lookup | gst/rtpmanager/gstrtprtxsend.c:361-370 | the search of a history finds an item with the seqnum exactly when one is stored |
| RtxHistory.TsSpan | gst/rtpmanager/gstrtprtxsend.c:506-511 | the span from the oldest to the newest timestamp is their difference modulo 2^32 |
| RtxHistory.TsDiff | gst/rtpmanager/gstrtprtxsend.c:488-515 | the span is 0 below two items, and the library's 64-bit maximum cut to 32 bits when the clock rate is not positive |
| RtxHistory.TsDiffValue | gst/rtpmanager/gstrtprtxsend.c:488-515 | with a known clock rate, the span is the wrap-aware tick distance times 1000 over the clock rate, rounded down and cut to 32 bits |
| RtxHistory.TrimToCountKeepsNewest | gst/rtpmanager/gstrtprtxsend.c:643-646 | the count loop keeps exactly the newest `max-size-packets` items |
| RtxHistory.TrimToTimeSpec | gst/rtpmanager/gstrtprtxsend.c:647-650 | the time loop: (1) leaves a span within `max-size-time`; (2) removes only from the front; (3) never empties the history; (4) removes an item only while the span starting at it is too long |
| RtxHistory.StoredSpec | gst/rtpmanager/gstrtprtxsend.c:632-651 | a store leaves the new packet newest, behind a front-trimmed history, within every limit that is not 0; with no limits nothing is removed |
| RtxHistory.CountLimitScenario | gst/rtpmanager/gstrtprtxsend.c:643-646 | with a limit of 3, storing seqnums 1 to 4 keeps 2, 3 and 4; seqnum 1 can no longer be found |
| RtxSend.NewMasterKeepsTables | gst/rtpmanager/gstrtprtxsend.c:301-305 | entering a new master with a free RTX SSRC keeps the two tables inverse to each other and every history its master's |
| RtxSend.UpdateKeepsTables | gst/rtpmanager/gstrtprtxsend.c:636-650 | changing a master's counter, history or clock rate (but not its RTX SSRC) keeps the table invariant |
| RtxSend.NewRtxKeepsTables | gst/rtpmanager/gstrtprtxsend.c:388-402 | replacing an RTX SSRC by a free value, in both tables, keeps the invariant |
| RtxSend.RemoveMasterKeepsTables | gst/rtpmanager/gstrtprtxsend.c:413-419 | removing a master and its RTX SSRC keeps the invariant |
| RtxSend.InverseMapsInjective | gst/rtpmanager/gstrtprtxsend.c:301-305 | two masters never share an RTX SSRC |
| RtxSend.FreeSsrcExists | gst/rtpmanager/gstrtprtxsend.c:277-280 | while fewer than 2^32 values are in use, the retry loop has a value to end on |
| RtxSend.MasterAlsoRtxAsWritten | gst/rtpmanager/gstrtprtxsend.c:285-310 | a new master whose SSRC is already an RTX SSRC is entered anyway, and that SSRC is then a key of both tables, with the table invariant still holding |
| RtxSend.OwnSsrcPassesCheckAsWritten | gst/rtpmanager/gstrtprtxsend.c:270-305 | for any valid tables and any new master `m` in neither table, the retry test as written accepts `m` itself as its RTX SSRC, and entering `m` with itself as RTX SSRC (as the lookup then does) breaks the table invariant |
| RtxSend.Fmtp | gst/rtpmanager/gstrtprtxsend.c:541-554 | the RTX payload type is the configured one cut to 8 bits (0 when none is configured), or the original plus 1 when that is below 96 |
| RtxSend.BuildRtx | gst/rtpmanager/gstrtprtxsend.c:520-592 | the RTX packet's payload is the big-endian OSN followed by the original payload; its SSRC and seqnum are the given ones; padding is off; header and extension are copied; the payload type follows `Fmtp` unless it does not fit 7 bits |
| RtxSend.AdvancedStep | gst/rtpmanager/gstrtprtxsend.c:540 | moving a counter on by n and then by 1 is moving it on by n+1, modulo 2^16 |
| RtxSend.Retransmittable | gst/rtpmanager/gstrtprtxsend.c:356-371 | a request queues at most one packet, exactly when one with the seqnum is stored, and it is the stored packet |
| RtxSend.StoredKeepsHistoryOf | gst/rtpmanager/gstrtprtxsend.c:636-651 | after a store and trim, a history still holds only its master's packets, each with the seqnum and timestamp read from it |
| RtxSend.ChainData | gst/rtpmanager/gstrtprtxsend.c:632-671 | after the store and the RTX sends, the stored stream's history is the trimmed one with the packet newest; every other history is unchanged |
| RtxSend.NewSsrcRtxData | gst/rtpmanager/gstrtprtxsend.c:122-132 | new stream data has the given RTX SSRC, an empty history, clock rate 0 and a counter in [0, 65535) |
| RtxSend.StoreItem | gst/rtpmanager/gstrtprtxsend.c:636-651 | the store loop leaves exactly the appended history trimmed by count, then by time, each only when its limit is not 0 |
| RtxSend.ChooseSsrc | gst/rtpmanager/gstrtprtxsend.c:270-283 | the chosen SSRC is neither a master nor an RTX SSRC nor the master being served, and it is the proposal whenever the proposal is free |
| RtxSend.GetSsrcData | gst/rtpmanager/gstrtprtxsend.c:285-310 | a known master's data is returned unchanged; a new master gets fresh data with a free RTX SSRC (the ssrc-map's proposal when free), entered in both tables |
| RtxSend.Encode | gst/rtpmanager/gstrtprtxsend.c:520-592 | the RTX packet carries its master's RTX SSRC and current counter, and that counter moves on by one |
| RtxSend.EncodeAll | gst/rtpmanager/gstrtprtxsend.c:653-669 | the queued packets become RTX packets in order; each master's RTX seqnums are consecutive from its counter, which ends moved on by its packet count; the table invariant is kept |
| RtxSend.StorePacket | gst/rtpmanager/gstrtprtxsend.c:632-651 | the packet's stream, created if new, holds the stored and trimmed history; nothing else in the master table changes |
| RtxSend.ChainTables | gst/rtpmanager/gstrtprtxsend.c:632-677 | the output is the RTX packets of the queued packets, then the packet itself; the store outcome holds; every existing master keeps its RTX SSRC and clock rate, and its RTX counter moves on by the number of its packets sent; new stream data appears only for the stored packet's SSRC (when its payload type is mapped) or for the master of a sent packet; the table invariant is kept |
| RtxSend.ChainKeepsStreams | gst/rtpmanager/gstrtprtxsend.c:632-671 | a store followed by the RTX sends keeps every master with its RTX SSRC and clock rate, moves its counter on by its packets sent, and adds data only for the stored packet's SSRC or a sent packet's master |
| RtxSend.UnmappedStoresNothing | gst/rtpmanager/gstrtprtxsend.c:632-651 | a packet whose payload type is not mapped is not stored and creates no stream data: the masters, their histories and their RTX SSRCs stay as they were |
| RtxSend.RtxSender.constructor | gst/rtpmanager/gstrtprtxsend.c:258-267 | empty tables and queue, no staged map, the default limits (0 ms, 100 packets), counters at 0 |
| RtxSend.RtxSender.SetPayloadTypeMap | gst/rtpmanager/gstrtprtxsend.c:733-740 | the structure is staged and marked changed |
| RtxSend.RtxSender.SetSsrcMap | gst/rtpmanager/gstrtprtxsend.c:726-732 | the ssrc-map is replaced |
| RtxSend.RtxSender.SetMaxSizeTime | gst/rtpmanager/gstrtprtxsend.c:741-745 | the time limit is replaced |
| RtxSend.RtxSender.SetMaxSizePackets | gst/rtpmanager/gstrtprtxsend.c:746-750 | the packet limit is replaced, within the property's range 0 to 32767 |
| RtxSend.RtxSender.SinkCaps | gst/rtpmanager/gstrtprtxsend.c:439-469 | the caps' clock rate (when present) is recorded for the SSRC, whose data is created if needed; nothing else changes; the event is forwarded |
| RtxSend.RtxSender.HandleRetransmissionRequest | gst/rtpmanager/gstrtprtxsend.c:334-375 | a request for a known master is counted and queues the stored packet with the seqnum cut to 16 bits; a request for any other SSRC changes nothing; the event is consumed |
| RtxSend.RtxSender.HandleCollision | gst/rtpmanager/gstrtprtxsend.c:377-426 | an RTX SSRC gets a fresh value in both tables and the event is consumed; a master is removed with its RTX SSRC and the event is forwarded; any other SSRC only forwards |
| RtxSend.RtxSender.Chain | gst/rtpmanager/gstrtprtxsend.c:600-679 | a staged map is applied; the packet is stored when its payload type is mapped; the queue is emptied and counted; the RTX packets of the queued packets go out, then the packet itself; existing masters keep their RTX SSRC and clock rate and their counters move on by their packets sent; new stream data appears only for the stored packet's SSRC or a sent packet's master; the table invariant is kept |
| RtxSend.RtxSender.Reset | gst/rtpmanager/gstrtprtxsend.c:200-211 | queue, both tables and both counters are cleared |
| RtxReceive.Associate | gst/rtpmanager/gstrtprtxreceive.c:548-566 | the table gains the RTX SSRC and the master as keys, each mapped to the other; no other entry changes |
| RtxReceive.AssociationOverwritten | gst/rtpmanager/gstrtprtxreceive.c:548-566 | associating a second RTX SSRC with a master re-points the master to the second one, while the first RTX SSRC still maps to the master |
| RtxReceive.AssociateKeepsClosed | gst/rtpmanager/gstrtprtxreceive.c:548-566 | after an association every value in the table is still a key |
| RtxReceive.ReadOsn | gst/rtpmanager/gstrtprtxreceive.c:510-516 | a payload of 2 or more bytes yields the OSN whose encoding is its first two bytes; a shorter one yields none |
| RtxReceive.ReadOsnOfWrite | gst/rtpmanager/gstrtprtxreceive.c:512 | the OSN read from a payload that starts with a written seqnum is that seqnum |
| RtxReceive.PayloadLenAsWritten | gst/rtpmanager/gstrtprtxreceive.c:435 | the payload length after the OSN, as computed: size minus 2, wrapping below 2 bytes |
| RtxReceive.ShortPayloadWrapsAsWritten | gst/rtpmanager/gstrtprtxreceive.c:435-440 | a 1-byte payload gives a length of 2^32-1, and an empty one 2^32-2 |
| RtxReceive.NewFromRtx | gst/rtpmanager/gstrtprtxreceive.c:414-468 | the rebuilt packet has the master's SSRC, the OSN as seqnum, the payload without the OSN, and the original payload type (kept when it does not fit 7 bits); header, extension and padding are copied |
| RtxReceive.Receive | gst/rtpmanager/gstrtprtxreceive.c:504-608 | the packet is handled as `Received` describes (classify, count, associate, rebuild or drop); association keys are never removed; the association table stays closed |
| RtxReceive.RtxReceiver.constructor | gst/rtpmanager/gstrtprtxreceive.c:277-281 | empty tables, an empty staged map not marked changed, counters at 0 |
| RtxReceive.RtxReceiver.SetPayloadTypeMap | gst/rtpmanager/gstrtprtxreceive.c:653-660 | the structure is staged and marked changed |
| RtxReceive.RtxReceiver.HandleRetransmissionRequest | gst/rtpmanager/gstrtprtxreceive.c:299-385 | every request is counted; the other outcomes are: (1) a master already associated leaves the pending requests alone; (2) a repeated request is left as it is; (3) a request for a seqnum another master awaits is refused, removes that pending request, and is not forwarded; (4) otherwise the request becomes pending |
| RtxReceive.RtxReceiver.Chain | gst/rtpmanager/gstrtprtxreceive.c:470-612 | a staged map is applied as its inversion; the packet is handled as `Received` describes; association keys are never removed; the association table stays closed |
| RtxReceive.RtxReceiver.Reset | gst/rtpmanager/gstrtprtxreceive.c:216-226 | both tables and the three counters are cleared |
| RtxRoundTrip.ConfiguredPtRoundTrips | gst/rtpmanager/gstrtprtxreceive.c:393-408 | with distinct names and values and a dynamic RTX payload type, the receiver's table undoes the sender's for the packet's payload type |
| RtxRoundTrip.DecodeOfEncodeWith | gst/rtpmanager/gstrtprtxreceive.c:414-468 | rebuilding an RTX packet with its OSN and the inverted payload type gives back the original packet, with its padding flag and padding length cleared |
| RtxRoundTrip.DecodeOfEncode | gst/rtpmanager/gstrtprtxsend.c:520-592 | the same, for the tables both elements build from one payload-type map: the original packet comes back without its padding |
| RtxRoundTrip.RequestThenRetransmissions | gst/rtpmanager/gstrtprtxreceive.c:368-376 | a fresh receiver forwards a request; the answering RTX packet comes out as the original less its padding; a later RTX packet on the same RTX SSRC is decoded the same way through the association, without a request |
| RtxRoundTrip.TwoRtxStreamsOneMaster | gst/rtpmanager/gstrtprtxreceive.c:520-566 | with two requests of one master pending, RTX packets on two RTX SSRCs answering them both come out as the originals; the master then maps to the second RTX SSRC and both RTX SSRCs map to the master |
| RtxRoundTrip.RequestOfAssociatedMaster | gst/rtpmanager/gstrtprtxreceive.c:328-332 | a request of a master already associated is forwarded, and an RTX packet answering it on an unknown RTX SSRC is dropped |
| RtxRoundTrip.NewRtxSsrcNotFollowed | gst/rtpmanager/gstrtprtxreceive.c:520-572 | after a request, its RTX answer on one RTX SSRC, and a second request of the same master, both requests are forwarded, the first answer comes out as the original less its padding and the answer to the second on a new RTX SSRC is dropped |
| RtxRoundTrip.ConflictingRequests | gst/rtpmanager/gstrtprtxreceive.c:348-367 | a second master's request for the same seqnum is refused and withdraws the first, so the answering RTX packet is dropped |

## Left out

- GObject and pad plumbing is not part of this model:
  - element registration, property getters, pad templates;
  - caps and allocation proxying, and events other than those modelled, which only pass through;
  - the state change other than its call of reset.
- Locking is not modelled; each handler is one atomic step. In the sender, RTX packets are built after the lock is released (gstrtprtxsend.c:662-668), and the model builds them within the same step.
- The return value of a push downstream is not modelled: what is pushed is returned as a sequence.
- Parsing event structures is not modelled: request and collision fields arrive as numbers. The source's default of -1 (0xFFFFFFFF) for a missing field is not modelled, and neither is an uninitialised `ssrc` in a caps event without one.
- Field names of the payload-type map arrive as numbers already. `atoi` on the field name, and the ssrc-map lookup through a printed SSRC string, are not modelled.
- Buffer memory (copying, allocation, reference counts) is not modelled; packets are values.
- Padding bytes are represented by their count only. The sender builds RTX packets without padding (gstrtprtxsend.c:585-586), so the receiver rebuilds the original with its padding cleared.
- The RTP library (libgstrtp) is not part of this model. Its seqnum comparison and payload-type setter are modelled from their documented behaviour.
- `g_random_int` and `g_random_int_range` are modelled as nondeterministic choices within the same ranges.
- RtxHistory.Lookup, RtxSend.Retransmittable: GLib's binary search of the history (`g_sequence_lookup`) is modelled as an exact search, so "exactly when one is stored" is stated for the exact search. The binary search finds the same item when the history is sorted in circular order, which the model does not prove.
- RtxSend.ChooseSsrc: the source retries forever when every 32-bit value is in use; callers must leave a value free (`|Used()| + ... < 2^32`), and this bound is also required by RtxSend.RtxSender.Chain, SinkCaps and HandleCollision.
- RtxSend.RtxSender.Chain: does not state the RTX seqnums of the output packets one by one; the value-level member RtxSend.EncodeAll states them.
- RtxReceive.Associate: a master, once associated, is not re-associated with a new RTX SSRC. A later request of that master is forwarded but not recorded as pending (gstrtprtxreceive.c:328-332), so an RTX packet on another RTX SSRC answering it is dropped (RtxRoundTrip.NewRtxSsrcNotFollowed, RtxRoundTrip.RequestOfAssociatedMaster). A master is re-pointed only when a request it made before its first association is still pending and is answered on another RTX SSRC: the master then maps to the new RTX SSRC and the old RTX SSRC's entry stays (RtxReceive.AssociationOverwritten, RtxRoundTrip.TwoRtxStreamsOneMaster). The model follows the code in both cases; the source does not say whether that corner is intended, so it is not recorded as a finding.
- RtxSend.GetSsrcData: a new master's SSRC is not checked against the RTX SSRCs, so one SSRC can be a key of both tables (RtxSend.MasterAlsoRtxAsWritten). A collision event for that SSRC is then handled as an RTX SSRC collision. The model follows the code; the table invariant still holds.
- An end-to-end scenario (a sender object feeding a receiver object) is not stated. The packet-level round trip is RtxRoundTrip.DecodeOfEncode.

## Findings

| source | as written | input that shows it | evidently intended | confidence | as-written member | corrected member |
|---|---|---|---|---|---|---|
| gst/rtpmanager/gstrtprtxreceive.c:435-440 | An RTX packet's OSN is read, and its payload length computed as `size - 2` in unsigned arithmetic, without checking that the payload holds 2 bytes | an RTX packet with a 1-byte payload: the length wraps to 2^32-1 and that many bytes are copied; with 0 bytes the OSN read overruns and 2^32-2 bytes are allocated | an RTX packet too short to carry an OSN is counted as RTX and dropped, with no table change | not executed | RtxReceive.ShortPayloadWrapsAsWritten | RtxReceive.Receive |
| gst/rtpmanager/gstrtprtxsend.c:270-283 | the retry loop of the SSRC choice accepts any value that is in neither table; the master being created is not yet in them | first packet of master 1234 with an ssrc-map proposing 1234 (or a random draw of 1234): the master becomes its own RTX SSRC | the RTX SSRC differs from its master's SSRC | not executed | RtxSend.OwnSsrcPassesCheckAsWritten | RtxSend.ChooseSsrc |
