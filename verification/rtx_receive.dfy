/** The RFC 4588 receiver in SSRC-multiplexing mode
    (gst/rtpmanager/gstrtprtxreceive.c): it watches the retransmission
    requests that go upstream, associates each RTX stream with its master
    stream from the first RTX packet that answers a pending request, and
    turns RTX packets back into the original packets. */
module RtxReceive {
  import opened RtpPacket
  import opened PtMap

  /** The association table maps each RTX SSRC to its master SSRC and each
      master SSRC back to its RTX SSRC, so every value is itself a key. */
  ghost predicate AssociationsClosed(m: map<uint32, uint32>)
  {
    forall k :: k in m ==> m[k] in m
  }

  /** The association made by the chain function for RTX SSRC `ssrc2`
      and master SSRC `ssrc1`: one entry each way; when the two are equal
      (the state the source warns about) the second entry overwrites the
      first. */
  function Associate(m: map<uint32, uint32>, ssrc2: uint32, ssrc1: uint32): (r: map<uint32, uint32>)
    ensures r.Keys == m.Keys + {ssrc1, ssrc2}
    ensures r[ssrc1] == ssrc2
    ensures ssrc1 != ssrc2 ==> r[ssrc2] == ssrc1
    ensures forall k :: k in m && k != ssrc1 && k != ssrc2 ==> r[k] == m[k]
  {
    m[ssrc2 := ssrc1][ssrc1 := ssrc2]
  }

  /** A second association of the same master with another RTX SSRC
      re-points the master to the later RTX SSRC, while the earlier RTX
      SSRC keeps pointing to the master: an association is not permanent. */
  lemma AssociationOverwritten(m: map<uint32, uint32>, rtx1: uint32, rtx2: uint32, master: uint32)
    requires rtx1 != rtx2 && rtx1 != master && rtx2 != master
    ensures var a := Associate(Associate(m, rtx1, master), rtx2, master);
      a[master] == rtx2 && a[rtx1] == master && a[rtx2] == master
  {
  }

  /** An association keeps the table closed. */
  lemma AssociateKeepsClosed(m: map<uint32, uint32>, ssrc2: uint32, ssrc1: uint32)
    requires AssociationsClosed(m)
    ensures AssociationsClosed(Associate(m, ssrc2, ssrc1))
  {
    var r := Associate(m, ssrc2, ssrc1);
    forall k | k in r
      ensures r[k] in r
    {
      if k != ssrc1 && k != ssrc2 {
        assert r[k] == m[k] && m[k] in m;
      }
    }
  }

  /** The original sequence number at the front of an RTX payload, read
      big-endian; a payload shorter than two bytes carries none. */
  function ReadOsn(payload: seq<byte>): (r: Option<uint16>)
    ensures r.None? <==> |payload| < 2
    ensures r.Some? ==> WriteUint16BE(r.value) == payload[..2]
  {
    if |payload| < 2 then None else Some(ReadUint16BE(payload[0], payload[1]))
  }

  /** Reading the OSN back from a payload that starts with a written one. */
  lemma ReadOsnOfWrite(v: uint16, rest: seq<byte>)
    ensures ReadOsn(WriteUint16BE(v) + rest) == Some(v)
  {
    var b := WriteUint16BE(v) + rest;
    assert b[..2] == WriteUint16BE(v);
    var w := ReadUint16BE(b[0], b[1]);
    assert WriteUint16BE(w) == WriteUint16BE(v);
  }

  /** `rtp->size[2] - 2` in unsigned 32-bit arithmetic: the length of the
      payload that follows the OSN, as the rebuild computes it. */
  function PayloadLenAsWritten(size: nat): (n: uint32)
    requires size < TWO_32
    ensures size >= 2 ==> n == size - 2
    ensures size < 2 ==> n == size + TWO_32 - 2
  {
    (size - 2) % TWO_32
  }

  /** With a payload of 1 or 0 bytes the length wraps around: the rebuild
      asks for a 4 GiB payload and, with 1 byte, copies that many bytes
      from behind the payload. */
  lemma ShortPayloadWrapsAsWritten()
    ensures PayloadLenAsWritten(1) == 0xFFFF_FFFF
    ensures PayloadLenAsWritten(0) == 0xFFFF_FFFE
  {
  }

  /** _gst_rtp_buffer_new_from_rtx for an RTX packet that carries an OSN:
      the fixed header, extension and padding are copied, the OSN is
      removed from the payload, and the SSRC, seqnum and payload type become
      the master's. The RTP library refuses a payload type that does not
      fit 7 bits and then keeps the RTX one. */
  function NewFromRtx(p: Packet, ssrc1: uint32, osn: uint16, originPt: byte): (r: Packet)
    requires |p.payload| >= 2
    ensures r.ssrc == ssrc1 && r.seqnum == osn
    ensures r.payload == p.payload[2..]
    ensures originPt < 0x80 ==> r.pt == originPt
    ensures originPt >= 0x80 ==> r.pt == p.pt
    ensures SameCopiedHeader(r, p) && r.padding == p.padding && r.padLen == p.padLen
  {
    SetPayloadType(p.(ssrc := ssrc1, seqnum := osn, payload := p.payload[2..]), originPt)
  }

  /** The receiver's tables and counters as the chain function reads and
      updates them: the association table, the pending requests, and the
      counts of RTX packets and of associated RTX packets. */
  datatype ReceiverState = ReceiverState(assoc: map<uint32, uint32>, requests: map<uint32, uint32>,
                                  rtxPackets: uint32, assocPackets: uint32)

  /** What the chain function does with packet `p`, given the table of RTX
      payload types in use. A packet whose payload type is not an RTX one
      goes out unchanged and nothing else changes. An RTX packet is
      counted, then:
      - without an OSN (fewer than 2 payload bytes) it is dropped;
      - from an RTX stream already associated it is rebuilt for that
        stream's master;
      - otherwise, when a request for its OSN is pending, that request is
        consumed, the RTX stream and the requesting master are associated
        both ways, and the packet is rebuilt for that master;
      - otherwise it is dropped.
      A rebuilt packet is counted as associated; the original payload type
      is the table's entry cut to 8 bits. */
  ghost predicate Received(ptMap: map<uint32, uint32>, p: Packet, before: ReceiverState, after: ReceiverState, out: seq<Packet>)
  {
    if p.pt !in ptMap then
      out == [p] && after == before
    else
      && after.rtxPackets == AddU32(before.rtxPackets, 1)
      && var osn := ReadOsn(p.payload);
      var originPt := ptMap[p.pt] % 0x100;
      if osn.None? then
        out == [] && after == before.(rtxPackets := after.rtxPackets)
      else if p.ssrc in before.assoc then
        && out == [NewFromRtx(p, before.assoc[p.ssrc], osn.value, originPt)]
        && after == before.(rtxPackets := after.rtxPackets, assocPackets := AddU32(before.assocPackets, 1))
      else if osn.value in before.requests then
        var ssrc1 := before.requests[osn.value];
        && out == [NewFromRtx(p, ssrc1, osn.value, originPt)]
        && after == ReceiverState(Associate(before.assoc, p.ssrc, ssrc1), before.requests - {osn.value},
                                  after.rtxPackets, AddU32(before.assocPackets, 1))
      else
        out == [] && after == before.(rtxPackets := after.rtxPackets)
  }

  /** The chain function's work on the tables and counters. */
  method Receive(ptMap: map<uint32, uint32>, p: Packet, before: ReceiverState) returns (out: seq<Packet>, after: ReceiverState)
    requires AssociationsClosed(before.assoc)
    ensures AssociationsClosed(after.assoc)
    ensures before.assoc.Keys <= after.assoc.Keys
    ensures Received(ptMap, p, before, after, out)
  {
    after := before;
    if p.pt !in ptMap {
      out := [p];
      return;
    }
    var originPt := ptMap[p.pt] % 0x100;
    after := after.(rtxPackets := AddU32(before.rtxPackets, 1));
    var osn := ReadOsn(p.payload);
    if osn.None? {
      out := [];
    } else if p.ssrc in before.assoc {
      after := after.(assocPackets := AddU32(before.assocPackets, 1));
      out := [NewFromRtx(p, before.assoc[p.ssrc], osn.value, originPt)];
    } else if osn.value in before.requests {
      var ssrc1 := before.requests[osn.value];
      AssociateKeepsClosed(before.assoc, p.ssrc, ssrc1);
      after := ReceiverState(Associate(before.assoc, p.ssrc, ssrc1), before.requests - {osn.value},
                             after.rtxPackets, AddU32(before.assocPackets, 1));
      out := [NewFromRtx(p, ssrc1, osn.value, originPt)];
    } else {
      out := [];
    }
  }

  class RtxReceiver {
    /** RTX SSRC -> master SSRC and master SSRC -> RTX SSRC, in one table. */
    var ssrc2Ssrc1Map: map<uint32, uint32>
    /** Pending requests: requested seqnum -> master SSRC. */
    var seqnumSsrc1Map: map<uint32, uint32>
    /** RTX payload type -> original payload type, in use. */
    var rtxPtMap: map<uint32, uint32>
    /** The payload-type map last configured, applied on the next packet. */
    var pendingRtxPtMap: PtStructure
    var rtxPtMapChanged: bool
    var numRtxRequests: uint32
    var numRtxPackets: uint32
    var numRtxAssocPackets: uint32

    ghost predicate Valid()
      reads this`ssrc2Ssrc1Map
    {
      AssociationsClosed(ssrc2Ssrc1Map)
    }

    /** Element creation: empty tables, no map staged, counters at 0. */
    constructor ()
      ensures Valid()
      ensures ssrc2Ssrc1Map == map[] && seqnumSsrc1Map == map[]
      ensures rtxPtMap == map[] && pendingRtxPtMap == [] && !rtxPtMapChanged
      ensures numRtxRequests == 0 && numRtxPackets == 0 && numRtxAssocPackets == 0
    {
      ssrc2Ssrc1Map, seqnumSsrc1Map := map[], map[];
      rtxPtMap, pendingRtxPtMap, rtxPtMapChanged := map[], [], false;
      numRtxRequests, numRtxPackets, numRtxAssocPackets := 0, 0, 0;
    }

    /** The payload-type-map property: staged, applied by the next chain call. */
    method SetPayloadTypeMap(s: PtStructure)
      modifies this`pendingRtxPtMap, this`rtxPtMapChanged
      ensures pendingRtxPtMap == s && rtxPtMapChanged
    {
      pendingRtxPtMap, rtxPtMapChanged := s, true;
    }

    /** The retransmission-request event on its way upstream. It is always
        counted. A master that already has its RTX stream needs no pending
        request; a request the same master already made is left as it is;
        a request for a seqnum another master is waiting for is refused and
        frees that seqnum instead (RFC 4588 forbids two pending
        requests for one seqnum in different streams); otherwise the request
        becomes pending. Only a refused request is not forwarded. */
    method HandleRetransmissionRequest(seqnum: uint32, ssrc: uint32) returns (forwarded: bool)
      modifies this`numRtxRequests, this`seqnumSsrc1Map
      ensures numRtxRequests == AddU32(old(numRtxRequests), 1)
      ensures ssrc in ssrc2Ssrc1Map && ssrc2Ssrc1Map[ssrc] != ssrc ==>
        forwarded && seqnumSsrc1Map == old(seqnumSsrc1Map)
      ensures !(ssrc in ssrc2Ssrc1Map && ssrc2Ssrc1Map[ssrc] != ssrc) ==>
        && (seqnum in old(seqnumSsrc1Map) && old(seqnumSsrc1Map[seqnum]) == ssrc ==>
              forwarded && seqnumSsrc1Map == old(seqnumSsrc1Map))
        && (seqnum in old(seqnumSsrc1Map) && old(seqnumSsrc1Map[seqnum]) != ssrc ==>
              !forwarded && seqnumSsrc1Map == old(seqnumSsrc1Map) - {seqnum})
        && (seqnum !in old(seqnumSsrc1Map) ==>
              forwarded && seqnumSsrc1Map == old(seqnumSsrc1Map)[seqnum := ssrc])
    {
      numRtxRequests := AddU32(numRtxRequests, 1);
      forwarded := true;
      if !(ssrc in ssrc2Ssrc1Map && ssrc2Ssrc1Map[ssrc] != ssrc) {
        if seqnum in seqnumSsrc1Map {
          if seqnumSsrc1Map[seqnum] != ssrc {
            seqnumSsrc1Map := seqnumSsrc1Map - {seqnum};
            forwarded := false;
          }
        } else {
          seqnumSsrc1Map := seqnumSsrc1Map[seqnum := ssrc];
        }
      }
    }

    /** gst_rtp_rtx_receive_chain: apply a staged payload-type map, then
        handle the packet as Received describes. */
    method Chain(p: Packet) returns (out: seq<Packet>)
      requires Valid()
      modifies this`ssrc2Ssrc1Map, this`seqnumSsrc1Map, this`rtxPtMap, this`rtxPtMapChanged
      modifies this`numRtxPackets, this`numRtxAssocPackets
      ensures Valid()
      ensures rtxPtMap == (if old(rtxPtMapChanged) then ToInvMap(old(pendingRtxPtMap)) else old(rtxPtMap))
      ensures !rtxPtMapChanged
      ensures old(ssrc2Ssrc1Map).Keys <= ssrc2Ssrc1Map.Keys
      ensures Received(rtxPtMap, p,
                       ReceiverState(old(ssrc2Ssrc1Map), old(seqnumSsrc1Map), old(numRtxPackets), old(numRtxAssocPackets)),
                       ReceiverState(ssrc2Ssrc1Map, seqnumSsrc1Map, numRtxPackets, numRtxAssocPackets), out)
    {
      var ptMap := if rtxPtMapChanged then ToInvMap(pendingRtxPtMap) else rtxPtMap;
      var before := ReceiverState(ssrc2Ssrc1Map, seqnumSsrc1Map, numRtxPackets, numRtxAssocPackets);
      var after;
      out, after := Receive(ptMap, p, before);
      ssrc2Ssrc1Map, seqnumSsrc1Map := after.assoc, after.requests;
      rtxPtMap, rtxPtMapChanged := ptMap, false;
      numRtxPackets, numRtxAssocPackets := after.rtxPackets, after.assocPackets;
    }

    /** gst_rtp_rtx_receive_reset: both SSRC tables and the three counters
        are cleared; the payload-type maps stay. */
    method Reset()
      modifies this`ssrc2Ssrc1Map, this`seqnumSsrc1Map
      modifies this`numRtxRequests, this`numRtxPackets, this`numRtxAssocPackets
      ensures Valid()
      ensures ssrc2Ssrc1Map == map[] && seqnumSsrc1Map == map[]
      ensures numRtxRequests == 0 && numRtxPackets == 0 && numRtxAssocPackets == 0
    {
      ssrc2Ssrc1Map, seqnumSsrc1Map := map[], map[];
      numRtxRequests, numRtxPackets, numRtxAssocPackets := 0, 0, 0;
    }
  }
}
