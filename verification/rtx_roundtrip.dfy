/** The two elements together: an RTX packet built by the sender from a
    stored packet is turned back into that packet by the receiver, when both
    are configured with the same payload-type map. */
module RtxRoundTrip {
  import opened RtpPacket
  import opened PtMap
  import opened RtxSend
  import opened RtxReceive

  /** What the sender's RTX payload type has to be for the round trip: a
      dynamic payload type (96 to 127) configured for the original one, in
      a structure with distinct names and distinct values. */
  ghost predicate RtxConfigured(s: PtStructure, p: Packet)
  {
    DistinctNames(s) && DistinctValues(s) && p.pt in ToMap(s) && 96 <= ToMap(s)[p.pt] < 0x80
  }

  /** The sender's table sends `pt` to a dynamic RTX payload type that the
      receiver's table sends back to `pt`. */
  ghost predicate PtRoundTrips(m: map<uint32, uint32>, inv: map<uint32, uint32>, pt: uint7)
  {
    pt in m && 96 <= m[pt] < 0x80 && m[pt] in inv && inv[m[pt]] == pt
  }

  lemma ConfiguredPtRoundTrips(s: PtStructure, p: Packet)
    requires RtxConfigured(s, p)
    ensures PtRoundTrips(ToMap(s), ToInvMap(s), p.pt)
  {
    InvMapInvertsMap(s, p.pt);
  }

  /** Decoding inverts encoding, for any pair of tables that send the
      packet's payload type to a dynamic RTX payload type and back. The
      sender does not carry padding over into the RTX packet, so a padded
      packet comes back without its padding. */
  lemma DecodeOfEncodeWith(m: map<uint32, uint32>, inv: map<uint32, uint32>, p: Packet,
                           rtxSsrc: uint32, rtxSeqnum: uint16)
    requires PtRoundTrips(m, inv, p.pt)
    ensures var r := BuildRtx(p, rtxSsrc, rtxSeqnum, m);
      && r.pt in inv
      && |r.payload| >= 2
      && ReadOsn(r.payload) == Some(p.seqnum)
      && NewFromRtx(r, p.ssrc, p.seqnum, inv[r.pt] % 0x100) == p.(padding := false, padLen := 0)
  {
    var r := BuildRtx(p, rtxSsrc, rtxSeqnum, m);
    assert r.pt == m[p.pt];
    ReadOsnOfWrite(p.seqnum, p.payload);
    var n := NewFromRtx(r, p.ssrc, p.seqnum, inv[r.pt] % 0x100);
    assert n.pt == p.pt && n.payload == p.payload;
  }

  /** Decoding inverts encoding: the receiver's inverted map classifies the
      RTX packet as RTX, its OSN is the original seqnum, and the rebuild for
      the original master gives back the original packet, without the
      padding the sender drops. */
  lemma DecodeOfEncode(s: PtStructure, p: Packet, rtxSsrc: uint32, rtxSeqnum: uint16)
    requires RtxConfigured(s, p)
    ensures var r := BuildRtx(p, rtxSsrc, rtxSeqnum, ToMap(s));
      && r.pt in ToInvMap(s)
      && |r.payload| >= 2
      && ReadOsn(r.payload) == Some(p.seqnum)
      && NewFromRtx(r, p.ssrc, p.seqnum, ToInvMap(s)[r.pt] % 0x100) == p.(padding := false, padLen := 0)
  {
    ConfiguredPtRoundTrips(s, p);
    DecodeOfEncodeWith(ToMap(s), ToInvMap(s), p, rtxSsrc, rtxSeqnum);
  }

  /** A receiver set up with the payload-type map sees a request for a
      packet of master `p.ssrc`, then the RTX packet that answers it: the
      request is forwarded, the RTX packet associates the two streams and
      comes out as the original packet (less its padding); a later RTX packet of the same RTX
      stream, for another packet of that master, is decoded through the
      association without any request. */
  method RequestThenRetransmissions(s: PtStructure, p: Packet, q: Packet, rtxSsrc: uint32, rtxSeqnum: uint16)
    returns (forwarded: bool, first: seq<Packet>, second: seq<Packet>)
    requires PtRoundTrips(ToMap(s), ToInvMap(s), p.pt)
    requires q.ssrc == p.ssrc && q.pt == p.pt
    ensures forwarded
    ensures first == [p.(padding := false, padLen := 0)]
    ensures second == [q.(padding := false, padLen := 0)]
  {
    var rx := new RtxReceiver();
    rx.SetPayloadTypeMap(s);
    forwarded := rx.HandleRetransmissionRequest(p.seqnum, p.ssrc);
    assert rx.seqnumSsrc1Map == map[p.seqnum := p.ssrc] && rx.ssrc2Ssrc1Map == map[];
    var r1 := BuildRtx(p, rtxSsrc, rtxSeqnum, ToMap(s));
    DecodeOfEncodeWith(ToMap(s), ToInvMap(s), p, rtxSsrc, rtxSeqnum);
    first := rx.Chain(r1);
    assert rx.rtxPtMap == ToInvMap(s);
    assert rx.ssrc2Ssrc1Map == Associate(map[], rtxSsrc, p.ssrc);
    assert rtxSsrc in rx.ssrc2Ssrc1Map && rx.ssrc2Ssrc1Map[rtxSsrc] == p.ssrc;
    var r2 := BuildRtx(q, rtxSsrc, (rtxSeqnum + 1) % TWO_16, ToMap(s));
    DecodeOfEncodeWith(ToMap(s), ToInvMap(s), q, rtxSsrc, (rtxSeqnum + 1) % TWO_16);
    second := rx.Chain(r2);
  }

  /** A request of master `q.ssrc`, already associated with an RTX stream,
      is forwarded but not recorded as pending; an RTX packet that answers
      it on an RTX SSRC the receiver does not know finds neither an
      association nor a pending request and is dropped. */
  method RequestOfAssociatedMaster(rx: RtxReceiver, s: PtStructure, q: Packet, rtx2: uint32, rtxSeqnum: uint16)
    returns (forwarded: bool, out: seq<Packet>)
    requires rx.Valid() && !rx.rtxPtMapChanged && rx.rtxPtMap == ToInvMap(s)
    requires PtRoundTrips(ToMap(s), ToInvMap(s), q.pt)
    requires q.ssrc in rx.ssrc2Ssrc1Map && rx.ssrc2Ssrc1Map[q.ssrc] != q.ssrc
    requires rtx2 !in rx.ssrc2Ssrc1Map && q.seqnum !in rx.seqnumSsrc1Map
    modifies rx
    ensures forwarded
    ensures out == []
  {
    forwarded := rx.HandleRetransmissionRequest(q.seqnum, q.ssrc);
    var r := BuildRtx(q, rtx2, rtxSeqnum, ToMap(s));
    DecodeOfEncodeWith(ToMap(s), ToInvMap(s), q, rtx2, rtxSeqnum);
    out := rx.Chain(r);
  }

  /** Once a master is associated with an RTX stream, it is not
      re-associated with another one: after the RTX packet on `rtx1` that
      answers the request for `p`, a request for `q` of the same master is
      forwarded, and the RTX packet that answers it on `rtx2` is dropped. */
  method NewRtxSsrcNotFollowed(s: PtStructure, p: Packet, q: Packet, rtx1: uint32, rtx2: uint32)
    returns (forwarded1: bool, forwarded2: bool, first: seq<Packet>, second: seq<Packet>)
    requires PtRoundTrips(ToMap(s), ToInvMap(s), p.pt)
    requires q.ssrc == p.ssrc && q.pt == p.pt
    requires rtx1 != p.ssrc && rtx2 != p.ssrc && rtx2 != rtx1
    ensures forwarded1 && forwarded2
    ensures first == [p.(padding := false, padLen := 0)]
    ensures second == []
  {
    var rx := new RtxReceiver();
    rx.SetPayloadTypeMap(s);
    forwarded1 := rx.HandleRetransmissionRequest(p.seqnum, p.ssrc);
    assert rx.seqnumSsrc1Map == map[p.seqnum := p.ssrc] && rx.ssrc2Ssrc1Map == map[];
    var r1 := BuildRtx(p, rtx1, 0, ToMap(s));
    DecodeOfEncodeWith(ToMap(s), ToInvMap(s), p, rtx1, 0);
    first := rx.Chain(r1);
    assert rx.rtxPtMap == ToInvMap(s);
    assert rx.ssrc2Ssrc1Map == Associate(map[], rtx1, p.ssrc);
    assert rx.seqnumSsrc1Map == map[];
    forwarded2, second := RequestOfAssociatedMaster(rx, s, q, rtx2, 1);
  }

  /** Two masters ask for the same seqnum before any RTX packet arrives:
      the first request is forwarded, the second is refused and withdraws
      the first, so the RTX packet that answers the first request finds no
      pending request and is dropped. */
  method ConflictingRequests(s: PtStructure, p: Packet, other: uint32, rtxSsrc: uint32, rtxSeqnum: uint16)
    returns (forwarded1: bool, forwarded2: bool, out: seq<Packet>)
    requires PtRoundTrips(ToMap(s), ToInvMap(s), p.pt) && other != p.ssrc
    ensures forwarded1 && !forwarded2
    ensures out == []
  {
    var rx := new RtxReceiver();
    rx.SetPayloadTypeMap(s);
    forwarded1 := rx.HandleRetransmissionRequest(p.seqnum, p.ssrc);
    forwarded2 := rx.HandleRetransmissionRequest(p.seqnum, other);
    assert rx.seqnumSsrc1Map == map[] && rx.ssrc2Ssrc1Map == map[];
    var r := BuildRtx(p, rtxSsrc, rtxSeqnum, ToMap(s));
    ReadOsnOfWrite(p.seqnum, p.payload);
    out := rx.Chain(r);
  }

  /** Two requests of one master, for `p` and then `q`, are pending when
      two RTX packets on different RTX SSRCs answer them: both are rebuilt
      for the master, and in the association table `assoc` left behind the
      second has re-pointed the master to its own RTX SSRC while the first
      RTX SSRC still points to the master. */
  method TwoRtxStreamsOneMaster(m: map<uint32, uint32>, inv: map<uint32, uint32>, p: Packet, q: Packet,
                                rtx1: uint32, rtx2: uint32)
    returns (first: seq<Packet>, second: seq<Packet>, assoc: map<uint32, uint32>)
    requires PtRoundTrips(m, inv, p.pt)
    requires q.ssrc == p.ssrc && q.pt == p.pt && q.seqnum != p.seqnum
    requires rtx1 != rtx2 && rtx1 != p.ssrc && rtx2 != p.ssrc
    ensures first == [p.(padding := false, padLen := 0)]
    ensures second == [q.(padding := false, padLen := 0)]
    ensures p.ssrc in assoc && rtx1 in assoc && rtx2 in assoc
    ensures assoc[p.ssrc] == rtx2 && assoc[rtx1] == p.ssrc && assoc[rtx2] == p.ssrc
  {
    var pending := ReceiverState(map[], map[p.seqnum := p.ssrc, q.seqnum := p.ssrc], 0, 0);
    var r1 := BuildRtx(p, rtx1, 0, m);
    DecodeOfEncodeWith(m, inv, p, rtx1, 0);
    var afterFirst;
    first, afterFirst := Receive(inv, r1, pending);
    assert afterFirst.assoc == Associate(map[], rtx1, p.ssrc);
    assert q.seqnum in afterFirst.requests && afterFirst.requests[q.seqnum] == p.ssrc;
    var r2 := BuildRtx(q, rtx2, 1, m);
    DecodeOfEncodeWith(m, inv, q, rtx2, 1);
    var afterSecond;
    second, afterSecond := Receive(inv, r2, afterFirst);
    assoc := afterSecond.assoc;
    AssociationOverwritten(map[], rtx1, rtx2, p.ssrc);
  }
}
