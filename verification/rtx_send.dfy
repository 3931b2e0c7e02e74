/** The RTX sender (gst/rtpmanager/gstrtprtxsend.c). It keeps, for every
    master SSRC, the RTX SSRC assigned to it, a private RTX seqnum counter
    and a bounded history of the packets sent on it; it answers
    retransmission requests by queueing stored packets, and on the next
    packet it sends those again as RTX packets (RFC 4588, section 4) before
    the packet itself. Each handler runs as one atomic step; what it pushes
    downstream is returned. */
module RtxSend {
  import opened RtpPacket
  import opened PtMap
  import opened RtxHistory

  const DEFAULT_MAX_SIZE_TIME: uint32 := 0
  const DEFAULT_MAX_SIZE_PACKETS: uint32 := 100
  /** Largest value the max-size-packets property accepts. */
  const MAX_SIZE_PACKETS_LIMIT: uint32 := 0x7FFF

  /** SSRCRtxData: what the sender keeps per master SSRC. */
  datatype SsrcRtxData = SsrcRtxData(rtxSsrc: uint32, nextSeqnum: uint16, clockRate: int32, queue: seq<Item>)

  /** The history of master `ssrc` holds packets of that stream only, each
      with the seqnum and timestamp that were read from it. */
  ghost predicate HistoryOf(ssrc: uint32, q: seq<Item>)
  {
    forall i :: 0 <= i < |q| ==>
      q[i].buffer.ssrc == ssrc && q[i].seqnum == q[i].buffer.seqnum && q[i].timestamp == q[i].buffer.timestamp
  }

  /** rtx_ssrcs is exactly the inverse of master -> RTX SSRC. */
  ghost predicate SsrcMapsInverse(ssrcData: map<uint32, SsrcRtxData>, rtxSsrcs: map<uint32, uint32>)
  {
    && (forall m {:trigger ssrcData[m]} :: m in ssrcData ==> ssrcData[m].rtxSsrc in rtxSsrcs && rtxSsrcs[ssrcData[m].rtxSsrc] == m)
    && (forall r {:trigger rtxSsrcs[r]} :: r in rtxSsrcs ==> rtxSsrcs[r] in ssrcData && ssrcData[rtxSsrcs[r]].rtxSsrc == r)
  }

  /** The invariant of the sender's tables: rtx_ssrcs inverts the master
      table, no master uses its own SSRC as RTX SSRC, and every history
      holds its master's packets. */
  ghost predicate TablesValid(ssrcData: map<uint32, SsrcRtxData>, rtxSsrcs: map<uint32, uint32>)
  {
    && SsrcMapsInverse(ssrcData, rtxSsrcs)
    && (forall m :: m in ssrcData ==> ssrcData[m].rtxSsrc != m)
    && (forall m :: m in ssrcData ==> HistoryOf(m, ssrcData[m].queue))
  }

  /** Entering a new master with an RTX SSRC that is in neither table and
      differs from the master keeps the invariant and uses two more values
      at most. */
  lemma NewMasterKeepsTables(ssrcData: map<uint32, SsrcRtxData>, rtxSsrcs: map<uint32, uint32>, ssrc: uint32, data: SsrcRtxData)
    requires TablesValid(ssrcData, rtxSsrcs)
    requires ssrc !in ssrcData && data.queue == []
    requires data.rtxSsrc !in ssrcData && data.rtxSsrc !in rtxSsrcs && data.rtxSsrc != ssrc
    ensures TablesValid(ssrcData[ssrc := data], rtxSsrcs[data.rtxSsrc := ssrc])
    ensures ssrcData[ssrc := data].Keys + rtxSsrcs[data.rtxSsrc := ssrc].Keys == ssrcData.Keys + rtxSsrcs.Keys + {ssrc, data.rtxSsrc}
  {
  }

  /** Changing a master's data without changing its RTX SSRC keeps the
      invariant when the new history is one of that master. */
  lemma UpdateKeepsTables(ssrcData: map<uint32, SsrcRtxData>, rtxSsrcs: map<uint32, uint32>, m: uint32, d: SsrcRtxData)
    requires TablesValid(ssrcData, rtxSsrcs)
    requires m in ssrcData && d.rtxSsrc == ssrcData[m].rtxSsrc && HistoryOf(m, d.queue)
    ensures TablesValid(ssrcData[m := d], rtxSsrcs)
  {
  }

  /** Giving the master of RTX SSRC `r` an unused RTX SSRC instead keeps the
      invariant. */
  lemma NewRtxKeepsTables(ssrcData: map<uint32, SsrcRtxData>, rtxSsrcs: map<uint32, uint32>, r: uint32, newRtx: uint32)
    requires TablesValid(ssrcData, rtxSsrcs)
    requires r in rtxSsrcs && newRtx !in ssrcData && newRtx !in rtxSsrcs
    ensures rtxSsrcs[r] in ssrcData
    ensures var m := rtxSsrcs[r];
      TablesValid(ssrcData[m := ssrcData[m].(rtxSsrc := newRtx)], (rtxSsrcs - {r})[newRtx := m])
  {
  }

  /** Forgetting a master together with its RTX SSRC keeps the invariant. */
  lemma RemoveMasterKeepsTables(ssrcData: map<uint32, SsrcRtxData>, rtxSsrcs: map<uint32, uint32>, m: uint32)
    requires TablesValid(ssrcData, rtxSsrcs) && m in ssrcData
    ensures TablesValid(ssrcData - {m}, rtxSsrcs - {ssrcData[m].rtxSsrc})
  {
  }

  /** Replacing the value of a present key leaves the keys as they were. */
  lemma UpdateKeepsKeys(m: map<uint32, SsrcRtxData>, k: uint32, v: SsrcRtxData)
    requires k in m
    ensures m[k := v].Keys == m.Keys
  {
  }

  /** Writing back the value a key already has changes nothing. */
  lemma MapUpdateSame(m: map<uint32, SsrcRtxData>, k: uint32)
    requires k in m
    ensures m[k := m[k]] == m
  {
  }

  /** Of two writes to the same key, the second one wins. */
  lemma MapUpdateTwice(m: map<uint32, SsrcRtxData>, k: uint32, v1: SsrcRtxData, v2: SsrcRtxData)
    ensures m[k := v1][k := v2] == m[k := v2]
  {
  }

  /** Two more members grow a set by two at most. */
  lemma UnionTwoSize(a: set<uint32>, x: uint32, y: uint32)
    ensures |a + {x, y}| <= |a| + 2
  {
    assert a + {x, y} == (a + {x}) + {y};
  }

  /** Two masters never share an RTX SSRC. */
  lemma InverseMapsInjective(ssrcData: map<uint32, SsrcRtxData>, rtxSsrcs: map<uint32, uint32>, m1: uint32, m2: uint32)
    requires SsrcMapsInverse(ssrcData, rtxSsrcs)
    requires m1 in ssrcData && m2 in ssrcData && m1 != m2
    ensures ssrcData[m1].rtxSsrc != ssrcData[m2].rtxSsrc
  {
  }

  /** The integers below `n`. */
  ghost function Below(n: nat): (r: set<int>)
    ensures forall x :: x in r <==> 0 <= x < n
    ensures |r| == n
  {
    if n == 0 then {} else Below(n - 1) + {n - 1}
  }

  lemma SubsetCard(a: set<int>, b: set<int>)
    requires a <= b
    ensures |a| <= |b|
  {
    assert b == a + (b - a);
  }

  /** A set of fewer than 2^32 SSRCs leaves some 32-bit value free, so the
      random retry of the SSRC choice has a value to end on. */
  lemma FreeSsrcExists(used: set<uint32>)
    requires |used| < TWO_32
    ensures exists r: uint32 :: r !in used
  {
    if forall r: uint32 :: r in used {
      SubsetCard(Below(TWO_32), used);
      assert false;
    }
  }

  /** The exit test of the retry loop of the SSRC choice, as written: a
      candidate passes when it is neither a master SSRC nor an RTX SSRC in
      the tables. The master being created is not yet in them. */
  predicate PassesSsrcCheckAsWritten(ssrcData: map<uint32, SsrcRtxData>, rtxSsrcs: map<uint32, uint32>, candidate: uint32)
  {
    candidate !in ssrcData && candidate !in rtxSsrcs
  }

  /** A master SSRC is checked against neither table when it is entered:
      a new master whose SSRC is already the RTX SSRC of another master is
      entered all the same, and the SSRC is then a key of both tables. */
  lemma MasterAlsoRtxAsWritten(ssrcData: map<uint32, SsrcRtxData>, rtxSsrcs: map<uint32, uint32>, ssrc: uint32, data: SsrcRtxData)
    requires TablesValid(ssrcData, rtxSsrcs)
    requires ssrc in rtxSsrcs && ssrc !in ssrcData && data.queue == []
    requires data.rtxSsrc !in ssrcData && data.rtxSsrc !in rtxSsrcs && data.rtxSsrc != ssrc
    ensures TablesValid(ssrcData[ssrc := data], rtxSsrcs[data.rtxSsrc := ssrc])
    ensures ssrc in ssrcData[ssrc := data] && ssrc in rtxSsrcs[data.rtxSsrc := ssrc]
    ensures rtxSsrcs[data.rtxSsrc := ssrc][ssrc] == rtxSsrcs[ssrc] != ssrc
  {
    NewMasterKeepsTables(ssrcData, rtxSsrcs, ssrc, data);
  }

  /** The first packet of a new master `m`, with an SSRC map that proposes
      `m` (or a random draw of `m`): the check as written accepts the
      master's own SSRC, because the master is entered only after the
      choice, and entering it with itself as RTX SSRC breaks the table
      invariant. */
  lemma OwnSsrcPassesCheckAsWritten(ssrcData: map<uint32, SsrcRtxData>, rtxSsrcs: map<uint32, uint32>,
                                    m: uint32, seqnum: uint16)
    requires TablesValid(ssrcData, rtxSsrcs)
    requires m !in ssrcData && m !in rtxSsrcs
    ensures PassesSsrcCheckAsWritten(ssrcData, rtxSsrcs, m)
    ensures !TablesValid(ssrcData[m := SsrcRtxData(m, seqnum, 0, [])], rtxSsrcs[m := m])
  {
    assert ssrcData[m := SsrcRtxData(m, seqnum, 0, [])][m].rtxSsrc == m;
  }

  /** The payload type written into an RTX packet before the RTP library
      sees it: the configured one (0 when there is none), cut to 8 bits,
      or the original one plus 1 when that is below 96. */
  function Fmtp(pt: uint7, rtxPtMap: map<uint32, uint32>): (r: byte)
    ensures pt in rtxPtMap && rtxPtMap[pt] % 0x100 >= 96 ==> r == rtxPtMap[pt] % 0x100
    ensures !(pt in rtxPtMap && rtxPtMap[pt] % 0x100 >= 96) ==> r == pt + 1
  {
    var fmtp := (if pt in rtxPtMap then rtxPtMap[pt] else 0) % 0x100;
    if fmtp < 96 then (pt + 1) % 0x100 else fmtp
  }

  /** _gst_rtp_rtx_buffer_new once the stream's RTX SSRC and RTX seqnum are
      known: the header and extension are copied, the payload becomes the
      big-endian OSN followed by the original payload, the SSRC, seqnum and
      payload type are rewritten and padding is dropped. */
  function BuildRtx(p: Packet, rtxSsrc: uint32, seqnum: uint16, rtxPtMap: map<uint32, uint32>): (r: Packet)
    ensures r.payload == WriteUint16BE(p.seqnum) + p.payload
    ensures r.payload[2..] == p.payload && ReadUint16BE(r.payload[0], r.payload[1]) == p.seqnum
    ensures r.ssrc == rtxSsrc && r.seqnum == seqnum
    ensures !r.padding && r.padLen == 0
    ensures SameCopiedHeader(r, p)
    ensures p.pt in rtxPtMap && 96 <= rtxPtMap[p.pt] % 0x100 < 0x80 ==> r.pt == rtxPtMap[p.pt] % 0x100
    ensures (p.pt !in rtxPtMap || rtxPtMap[p.pt] % 0x100 < 96) && p.pt < 0x7F ==> r.pt == p.pt + 1
    ensures (p.pt in rtxPtMap && rtxPtMap[p.pt] % 0x100 >= 0x80) || (!(p.pt in rtxPtMap && rtxPtMap[p.pt] % 0x100 >= 96) && p.pt == 0x7F) ==> r.pt == p.pt
  {
    var osn := WriteUint16BE(p.seqnum);
    var copy := p.(payload := osn + p.payload, padLen := 0, ssrc := rtxSsrc, seqnum := seqnum);
    var r := SetPayloadType(copy, Fmtp(p.pt, rtxPtMap)).(padding := false);
    assert r.payload[2..] == p.payload && r.payload[..2] == osn;
    r
  }

  /** A stream's data after `n` more RTX packets. */
  function Advanced(d: SsrcRtxData, n: nat): SsrcRtxData
  {
    d.(nextSeqnum := (d.nextSeqnum + n) % TWO_16)
  }

  lemma AdvancedStep(d: SsrcRtxData, n: nat)
    ensures Advanced(Advanced(d, n), 1) == Advanced(d, n + 1)
  {
    var a := d.nextSeqnum + n;
    assert (a % TWO_16 + 1) % TWO_16 == (a + 1) % TWO_16;
  }

  /** How many packets of `s` belong to master `ssrc`. */
  function CountFor(s: seq<Packet>, ssrc: uint32): (n: nat)
    ensures n <= |s|
  {
    if s == [] then 0
    else CountFor(s[..|s| - 1], ssrc) + (if s[|s| - 1].ssrc == ssrc then 1 else 0)
  }

  /** The SSRCs of the packets in `s`. */
  function SsrcsOf(s: seq<Packet>): (r: set<uint32>)
    ensures forall i :: 0 <= i < |s| ==> s[i].ssrc in r
    ensures forall x :: x in r ==> exists i :: 0 <= i < |s| && s[i].ssrc == x
  {
    if s == [] then {}
    else
      var r := SsrcsOf(s[..|s| - 1]) + {s[|s| - 1].ssrc};
      assert forall i :: 0 <= i < |s| - 1 ==> s[..|s| - 1][i] == s[i];
      r
  }

  /** What a retransmission request queues: the stored packet whose seqnum
      compares equal to the requested one, or nothing. */
  function Retransmittable(q: seq<Item>, seqnum: uint16): (r: seq<Packet>)
    ensures |r| <= 1
    ensures |r| == 1 <==> exists i :: 0 <= i < |q| && q[i].seqnum == seqnum
    ensures |r| == 1 ==> exists i :: 0 <= i < |q| && q[i].seqnum == seqnum && r[0] == q[i].buffer
  {
    match Lookup(q, seqnum)
    case Some(item) => [item.buffer]
    case None => []
  }

  /** Every history is a front-trimmed copy of the packets sent: what is
      left after a store is still a history of its master. */
  lemma StoredKeepsHistoryOf(ssrc: uint32, q: seq<Item>, p: Packet, maxPackets: nat, maxTime: nat, clockRate: int32)
    requires HistoryOf(ssrc, q) && p.ssrc == ssrc
    ensures HistoryOf(ssrc, Stored(q, Item(p.seqnum, p.timestamp, p), maxPackets, maxTime, clockRate))
  {
    var item := Item(p.seqnum, p.timestamp, p);
    StoredSpec(q, item, maxPackets, maxTime, clockRate);
    var r := Stored(q, item, maxPackets, maxTime, clockRate);
    var a := q + [item];
    forall i | 0 <= i < |r|
      ensures r[i].buffer.ssrc == ssrc && r[i].seqnum == r[i].buffer.seqnum && r[i].timestamp == r[i].buffer.timestamp
    {
      assert r[i] == a[|a| - |r| + i];
    }
  }

  /** `r` is an RTX packet built from `p` on RTX SSRC `rtxSsrc`. */
  ghost predicate RtxOf(r: Packet, p: Packet, rtxSsrc: uint32, rtxPtMap: map<uint32, uint32>)
  {
    r == BuildRtx(p, rtxSsrc, r.seqnum, rtxPtMap)
  }

  /** Each RTX packet built so far is the one of the drained packet at the
      same position, carrying the RTX SSRC of that packet's master. */
  ghost predicate BuiltFrom(rtx: seq<Packet>, drained: seq<Packet>, ssrcData: map<uint32, SsrcRtxData>, rtxPtMap: map<uint32, uint32>)
  {
    && |rtx| <= |drained|
    && forall k :: 0 <= k < |rtx| ==>
         && drained[k].ssrc in ssrcData
         && RtxOf(rtx[k], drained[k], ssrcData[drained[k].ssrc].rtxSsrc, rtxPtMap)
  }

  /** RTX seqnums of a known master are consecutive, modulo 2^16, from the
      counter it had when draining started. */
  ghost predicate SeqnumsFrom(rtx: seq<Packet>, drained: seq<Packet>, start: map<uint32, SsrcRtxData>)
    requires |rtx| <= |drained|
  {
    forall k :: 0 <= k < |rtx| && drained[k].ssrc in start ==>
      rtx[k].seqnum == Advanced(start[drained[k].ssrc], CountFor(drained[..k], drained[k].ssrc)).nextSeqnum
  }

  /** Every master known at the start is still known, and only its counter
      has moved on: by one per packet of `sent` it owns. */
  ghost predicate AdvancedBy(now: map<uint32, SsrcRtxData>, start: map<uint32, SsrcRtxData>, sent: seq<Packet>)
  {
    forall m :: m in start ==> m in now && now[m] == Advanced(start[m], CountFor(sent, m))
  }

  /** Moving counters on leaves every other part of a known master's data
      as it was. */
  lemma AdvancedByKeepsData(now: map<uint32, SsrcRtxData>, start: map<uint32, SsrcRtxData>, sent: seq<Packet>, m: uint32)
    requires AdvancedBy(now, start, sent) && m in start
    ensures m in now
    ensures now[m].queue == start[m].queue && now[m].clockRate == start[m].clockRate
    ensures now[m].rtxSsrc == start[m].rtxSsrc
  {
  }

  /** What the store of a chain call did to the master table,
      `before` -> `after`: when there was a store, the packet's stream holds
      the stored and trimmed history, with the packet as its newest item and
      within both limits that are not 0; every other history is unchanged. */
  ghost predicate StoreOutcome(before: map<uint32, SsrcRtxData>, after: map<uint32, SsrcRtxData>,
                               p: Packet, didStore: bool, maxPackets: nat, maxTime: nat)
  {
    && (didStore ==>
         && p.ssrc in after
         && after[p.ssrc].queue ==
              Stored(if p.ssrc in before then before[p.ssrc].queue else [],
                     Item(p.seqnum, p.timestamp, p), maxPackets, maxTime, after[p.ssrc].clockRate)
         && var q := after[p.ssrc].queue;
         && |q| >= 1 && q[|q| - 1].buffer == p
         && (maxPackets != 0 ==> |q| <= maxPackets)
         && (maxTime != 0 ==> TsDiff(q, after[p.ssrc].clockRate) <= maxTime))
    && forall m :: m in before && (m != p.ssrc || !didStore) ==>
         m in after && after[m].queue == before[m].queue
  }

  /** The history of the packet's stream after a chain call that stored
      it: sending the queued requests afterwards left it as the store did. */
  lemma StoredHistoryKept(before: map<uint32, SsrcRtxData>, stored: map<uint32, SsrcRtxData>,
                          after: map<uint32, SsrcRtxData>, p: Packet, sent: seq<Packet>,
                          maxPackets: nat, maxTime: nat)
    requires p.ssrc in stored
    requires stored[p.ssrc].queue ==
      Stored(if p.ssrc in before then before[p.ssrc].queue else [],
             Item(p.seqnum, p.timestamp, p), maxPackets, maxTime, stored[p.ssrc].clockRate)
    requires AdvancedBy(after, stored, sent)
    ensures p.ssrc in after
    ensures after[p.ssrc].queue ==
      Stored(if p.ssrc in before then before[p.ssrc].queue else [],
             Item(p.seqnum, p.timestamp, p), maxPackets, maxTime, after[p.ssrc].clockRate)
    ensures var q := after[p.ssrc].queue;
      && |q| >= 1 && q[|q| - 1].buffer == p
      && (maxPackets != 0 ==> |q| <= maxPackets)
      && (maxTime != 0 ==> TsDiff(q, after[p.ssrc].clockRate) <= maxTime)
  {
    AdvancedByKeepsData(after, stored, sent, p.ssrc);
    var clockRate := after[p.ssrc].clockRate;
    var item := Item(p.seqnum, p.timestamp, p);
    var r := Stored(if p.ssrc in before then before[p.ssrc].queue else [], item, maxPackets, maxTime, clockRate);
    assert after[p.ssrc].queue == r;
    StoredSpec(if p.ssrc in before then before[p.ssrc].queue else [], item, maxPackets, maxTime, clockRate);
    assert r[|r| - 1] == item;
  }

  /** The tables after a chain call: the store (when there was one) fixed
      the history of the packet's stream, and sending the queued requests
      afterwards moved only counters on. */
  lemma ChainData(before: map<uint32, SsrcRtxData>, stored: map<uint32, SsrcRtxData>,
                  after: map<uint32, SsrcRtxData>, p: Packet, didStore: bool, sent: seq<Packet>,
                  maxPackets: nat, maxTime: nat)
    requires didStore ==>
      && p.ssrc in stored && stored == before[p.ssrc := stored[p.ssrc]]
      && stored[p.ssrc].queue ==
           Stored(if p.ssrc in before then before[p.ssrc].queue else [],
                  Item(p.seqnum, p.timestamp, p), maxPackets, maxTime, stored[p.ssrc].clockRate)
    requires !didStore ==> stored == before
    requires AdvancedBy(after, stored, sent)
    ensures StoreOutcome(before, after, p, didStore, maxPackets, maxTime)
  {
    if didStore {
      StoredHistoryKept(before, stored, after, p, sent, maxPackets, maxTime);
    }
    forall m | m in before && (m != p.ssrc || !didStore)
      ensures m in after && after[m].queue == before[m].queue
    {
      AdvancedByKeepsData(after, stored, sent, m);
      assert stored[m] == before[m];
    }
  }

  /** A master that was not known at the start is one of the packets of
      `sent` and has an empty history. */
  ghost predicate NewOnlyFrom(now: map<uint32, SsrcRtxData>, start: map<uint32, SsrcRtxData>, sent: seq<Packet>)
  {
    forall m :: m in now && m !in start ==> m in SsrcsOf(sent) && now[m].queue == []
  }

  /** What a chain call leaves of the master table, `before` -> `after`:
      every known master stays, with its RTX SSRC and clock rate, and its
      counter moved on by its share of the RTX packets sent; a master
      appears only for the packet stored or for a request sent. */
  ghost predicate StreamsKept(before: map<uint32, SsrcRtxData>, after: map<uint32, SsrcRtxData>,
                              p: Packet, didStore: bool, drained: seq<Packet>)
  {
    && (forall m :: m in before ==>
          && m in after
          && after[m].rtxSsrc == before[m].rtxSsrc && after[m].clockRate == before[m].clockRate
          && after[m].nextSeqnum == (before[m].nextSeqnum + CountFor(drained, m)) % TWO_16)
    && (forall m :: m in after && m !in before ==> (m == p.ssrc && didStore) || m in SsrcsOf(drained))
  }

  /** The store changes only the history of a known master, and sending the
      queued requests only moves counters on and creates the masters of
      those requests: together they keep the streams as `StreamsKept`
      says. */
  lemma ChainKeepsStreams(before: map<uint32, SsrcRtxData>, stored: map<uint32, SsrcRtxData>,
                          after: map<uint32, SsrcRtxData>, p: Packet, didStore: bool, drained: seq<Packet>)
    requires didStore ==>
      && p.ssrc in stored && stored == before[p.ssrc := stored[p.ssrc]]
      && (p.ssrc in before ==> stored[p.ssrc] == before[p.ssrc].(queue := stored[p.ssrc].queue))
    requires !didStore ==> stored == before
    requires AdvancedBy(after, stored, drained) && NewOnlyFrom(after, stored, drained)
    ensures StreamsKept(before, after, p, didStore, drained)
  {
    forall m | m in before
      ensures m in after
      ensures after[m].rtxSsrc == before[m].rtxSsrc && after[m].clockRate == before[m].clockRate
      ensures after[m].nextSeqnum == (before[m].nextSeqnum + CountFor(drained, m)) % TWO_16
    {
      assert m in stored;
      assert stored[m].rtxSsrc == before[m].rtxSsrc && stored[m].clockRate == before[m].clockRate;
      assert stored[m].nextSeqnum == before[m].nextSeqnum;
      assert after[m] == Advanced(stored[m], CountFor(drained, m));
    }
    forall m | m in after && m !in before
      ensures (m == p.ssrc && didStore) || m in SsrcsOf(drained)
    {
      if m in stored {
        assert m == p.ssrc && didStore;
      }
    }
  }

  /** A chain call for a packet whose payload type has no RTX payload type,
      with no request queued, stores nothing and creates no stream data:
      the master table keeps its keys and every history. */
  lemma UnmappedStoresNothing(before: map<uint32, SsrcRtxData>, after: map<uint32, SsrcRtxData>,
                              p: Packet, maxPackets: nat, maxTime: nat)
    requires StoreOutcome(before, after, p, false, maxPackets, maxTime)
    requires StreamsKept(before, after, p, false, [])
    ensures after.Keys == before.Keys
    ensures forall m :: m in before ==> after[m].queue == before[m].queue && after[m].rtxSsrc == before[m].rtxSsrc
  {
    assert SsrcsOf([]) == {};
  }

  /** What building the RTX packet `r` for `p` does to the master table,
      `before` -> `after`: only the entry of the packet's master changes;
      the counter value it held is the RTX seqnum of `r` and moves on by
      one; a master that was not known gets an entry with an empty history
      and clock rate 0. */
  ghost predicate EncodedStep(before: map<uint32, SsrcRtxData>, after: map<uint32, SsrcRtxData>,
                              p: Packet, r: Packet, rtxPtMap: map<uint32, uint32>)
  {
    && p.ssrc in after
    && RtxOf(r, p, after[p.ssrc].rtxSsrc, rtxPtMap)
    && after == before[p.ssrc := after[p.ssrc]]
    && after[p.ssrc] == Advanced(after[p.ssrc].(nextSeqnum := r.seqnum), 1)
    && (p.ssrc in before ==> r.seqnum == before[p.ssrc].nextSeqnum && after[p.ssrc] == Advanced(before[p.ssrc], 1))
    && (p.ssrc !in before ==> after[p.ssrc].queue == [] && after[p.ssrc].clockRate == 0)
  }

  /** Before the first step nothing has moved on. */
  lemma DrainStart(start: map<uint32, SsrcRtxData>)
    ensures AdvancedBy(start, start, [])
  {
    forall m | m in start
      ensures Advanced(start[m], CountFor([], m)) == start[m]
    {
      assert (start[m].nextSeqnum + 0) % TWO_16 == start[m].nextSeqnum;
    }
  }

  /** The RTX packets built earlier keep their RTX SSRCs across one step. */
  lemma BuiltFromStep(before: map<uint32, SsrcRtxData>, after: map<uint32, SsrcRtxData>,
                      drained: seq<Packet>, rtx: seq<Packet>, r: Packet, rtxPtMap: map<uint32, uint32>)
    requires |rtx| < |drained|
    requires BuiltFrom(rtx, drained, before, rtxPtMap)
    requires EncodedStep(before, after, drained[|rtx|], r, rtxPtMap)
    ensures BuiltFrom(rtx + [r], drained, after, rtxPtMap)
  {
    var out := rtx + [r];
    forall k | 0 <= k < |out|
      ensures drained[k].ssrc in after
      ensures RtxOf(out[k], drained[k], after[drained[k].ssrc].rtxSsrc, rtxPtMap)
    {
      if k < |rtx| {
        assert out[k] == rtx[k];
        assert after[drained[k].ssrc].rtxSsrc == before[drained[k].ssrc].rtxSsrc;
      }
    }
  }

  /** Every known counter moves on by exactly the packets of its master. */
  lemma AdvancedByStep(start: map<uint32, SsrcRtxData>, before: map<uint32, SsrcRtxData>, after: map<uint32, SsrcRtxData>,
                       drained: seq<Packet>, i: nat, r: Packet, rtxPtMap: map<uint32, uint32>)
    requires i < |drained|
    requires AdvancedBy(before, start, drained[..i]) && EncodedStep(before, after, drained[i], r, rtxPtMap)
    ensures AdvancedBy(after, start, drained[..i + 1])
  {
    var p := drained[i];
    assert drained[..i + 1][..i] == drained[..i];
    forall m | m in start
      ensures m in after && after[m] == Advanced(start[m], CountFor(drained[..i + 1], m))
    {
      if m == p.ssrc {
        AdvancedStep(start[m], CountFor(drained[..i], m));
      }
    }
  }

  /** The new RTX packet of a known master carries its next counter value. */
  lemma SeqnumsFromStep(start: map<uint32, SsrcRtxData>, before: map<uint32, SsrcRtxData>, after: map<uint32, SsrcRtxData>,
                        drained: seq<Packet>, rtx: seq<Packet>, r: Packet, rtxPtMap: map<uint32, uint32>)
    requires |rtx| < |drained|
    requires SeqnumsFrom(rtx, drained, start) && AdvancedBy(before, start, drained[..|rtx|])
    requires EncodedStep(before, after, drained[|rtx|], r, rtxPtMap)
    ensures SeqnumsFrom(rtx + [r], drained, start)
  {
    var out := rtx + [r];
    forall k | 0 <= k < |out| && drained[k].ssrc in start
      ensures out[k].seqnum == Advanced(start[drained[k].ssrc], CountFor(drained[..k], drained[k].ssrc)).nextSeqnum
    {
      if k < |rtx| {
        assert out[k] == rtx[k];
      }
    }
  }

  /** A master created by the step is the one of the packet just drained. */
  lemma NewOnlyFromStep(start: map<uint32, SsrcRtxData>, before: map<uint32, SsrcRtxData>, after: map<uint32, SsrcRtxData>,
                        drained: seq<Packet>, i: nat, r: Packet, rtxPtMap: map<uint32, uint32>)
    requires i < |drained|
    requires NewOnlyFrom(before, start, drained[..i]) && EncodedStep(before, after, drained[i], r, rtxPtMap)
    ensures NewOnlyFrom(after, start, drained[..i + 1])
  {
    assert drained[..i + 1][..i] == drained[..i];
    assert SsrcsOf(drained[..i + 1]) == SsrcsOf(drained[..i]) + {drained[i].ssrc};
  }

  /** ssrc_rtx_data_new: a fresh stream with an empty history, clock rate 0
      and an RTX seqnum counter that starts at a random value in
      [0, 65535). */
  method NewSsrcRtxData(rtxSsrc: uint32) returns (data: SsrcRtxData)
    ensures data.rtxSsrc == rtxSsrc && data.nextSeqnum < 0xFFFF
    ensures data.clockRate == 0 && data.queue == []
  {
    var start: uint16 :| start < 0xFFFF;
    data := SsrcRtxData(rtxSsrc, start, 0, []);
  }

  /** StoreItem is the store of the chain function: append, then the two
      trimming loops, each only when its limit is not 0. */
  method StoreItem(queue: seq<Item>, item: Item, maxPackets: nat, maxTime: nat, clockRate: int32)
    returns (q: seq<Item>)
    ensures q == Stored(queue, item, maxPackets, maxTime, clockRate)
  {
    q := queue + [item];
    if maxPackets != 0 {
      while |q| > maxPackets
        invariant TrimToCount(q, maxPackets) == TrimToCount(queue + [item], maxPackets)
        decreases |q|
      {
        q := q[1..];
      }
    }
    ghost var byCount := q;
    if maxTime != 0 {
      while TsDiff(q, clockRate) > maxTime
        invariant TrimToTime(q, maxTime, clockRate) == TrimToTime(byCount, maxTime, clockRate)
        decreases |q|
      {
        q := q[1..];
      }
    }
  }

  /** The sender's two SSRC tables, as the helpers of the handlers read
      and update them. */
  datatype SsrcTables = SsrcTables(ssrcData: map<uint32, SsrcRtxData>, rtxSsrcs: map<uint32, uint32>)

  /** Every SSRC value the tables use, as master or as RTX SSRC. */
  ghost function UsedSsrcs(t: SsrcTables): set<uint32>
  {
    t.ssrcData.Keys + t.rtxSsrcs.Keys
  }

  /** gst_rtp_rtx_send_choose_ssrc: the proposed value when there is one
      and it is free, otherwise the value the random retry ends on. Here a
      value is free when it is neither in the tables nor the SSRC of the
      master it is chosen for. */
  method ChooseSsrc(t: SsrcTables, master: uint32, choice: uint32, considerChoice: bool) returns (ssrc: uint32)
    requires |UsedSsrcs(t)| + 1 < TWO_32
    ensures ssrc !in t.ssrcData && ssrc !in t.rtxSsrcs && ssrc != master
    ensures considerChoice && choice !in t.ssrcData && choice !in t.rtxSsrcs && choice != master ==> ssrc == choice
  {
    if considerChoice {
      ssrc := choice;
    } else {
      ssrc :| true;
    }
    if ssrc in t.ssrcData || ssrc in t.rtxSsrcs || ssrc == master {
      FreeSsrcExists(UsedSsrcs(t) + {master});
      ssrc :| ssrc !in t.ssrcData && ssrc !in t.rtxSsrcs && ssrc != master;
    }
  }

  /** gst_rtp_rtx_send_get_ssrc_data: the data of a known master, or new
      data for a new one, entered in both tables at once; `ssrcMap` is the
      configured ssrc-map. */
  method GetSsrcData(t: SsrcTables, ssrc: uint32, ssrcMap: map<uint32, uint32>) returns (data: SsrcRtxData, after: SsrcTables)
    requires TablesValid(t.ssrcData, t.rtxSsrcs)
    requires ssrc !in t.ssrcData ==> |UsedSsrcs(t)| + 1 < TWO_32
    ensures TablesValid(after.ssrcData, after.rtxSsrcs)
    ensures ssrc in after.ssrcData && data == after.ssrcData[ssrc]
    ensures after.ssrcData == t.ssrcData[ssrc := data]
    ensures ssrc in t.ssrcData ==> data == t.ssrcData[ssrc] && after.rtxSsrcs == t.rtxSsrcs
    ensures ssrc !in t.ssrcData ==>
      && data.rtxSsrc !in t.ssrcData && data.rtxSsrc !in t.rtxSsrcs && data.rtxSsrc != ssrc
      && ((ssrc in ssrcMap && PassesSsrcCheckAsWritten(t.ssrcData, t.rtxSsrcs, ssrcMap[ssrc])
             && ssrcMap[ssrc] != ssrc) ==> data.rtxSsrc == ssrcMap[ssrc])
      && data.nextSeqnum < 0xFFFF && data.clockRate == 0 && data.queue == []
      && after.rtxSsrcs == t.rtxSsrcs[data.rtxSsrc := ssrc]
    ensures |UsedSsrcs(after)| <= |UsedSsrcs(t)| + 2
  {
    if ssrc !in t.ssrcData {
      var consider := ssrc in ssrcMap;
      var choice := if consider then ssrcMap[ssrc] else 0;
      var rtxSsrc := ChooseSsrc(t, ssrc, choice, consider);
      data := NewSsrcRtxData(rtxSsrc);
      NewMasterKeepsTables(t.ssrcData, t.rtxSsrcs, ssrc, data);
      UnionTwoSize(UsedSsrcs(t), ssrc, rtxSsrc);
      after := SsrcTables(t.ssrcData[ssrc := data], t.rtxSsrcs[rtxSsrc := ssrc]);
    } else {
      data := t.ssrcData[ssrc];
      MapUpdateSame(t.ssrcData, ssrc);
      after := t;
    }
  }

  /** _gst_rtp_rtx_buffer_new: the stream's data is looked up (or created
      when its master has gone in the meantime), its RTX seqnum is taken for
      the RTX packet and the counter moves on by one, modulo 2^16. */
  method Encode(t: SsrcTables, p: Packet, rtxPtMap: map<uint32, uint32>, ssrcMap: map<uint32, uint32>)
    returns (r: Packet, after: SsrcTables)
    requires TablesValid(t.ssrcData, t.rtxSsrcs)
    requires p.ssrc !in t.ssrcData ==> |UsedSsrcs(t)| + 1 < TWO_32
    ensures TablesValid(after.ssrcData, after.rtxSsrcs)
    ensures EncodedStep(t.ssrcData, after.ssrcData, p, r, rtxPtMap)
    ensures p.ssrc in t.ssrcData ==> after.rtxSsrcs == t.rtxSsrcs
    ensures p.ssrc !in t.ssrcData ==>
      && after.ssrcData[p.ssrc].rtxSsrc !in t.rtxSsrcs && after.ssrcData[p.ssrc].rtxSsrc !in t.ssrcData
      && after.rtxSsrcs == t.rtxSsrcs[after.ssrcData[p.ssrc].rtxSsrc := p.ssrc]
    ensures |UsedSsrcs(after)| <= |UsedSsrcs(t)| + 2
  {
    var data, t1 := GetSsrcData(t, p.ssrc, ssrcMap);
    var next := Advanced(data, 1);
    UpdateKeepsTables(t1.ssrcData, t1.rtxSsrcs, p.ssrc, next);
    UpdateKeepsKeys(t1.ssrcData, p.ssrc, next);
    MapUpdateTwice(t.ssrcData, p.ssrc, data, next);
    after := t1.(ssrcData := t1.ssrcData[p.ssrc := next]);
    r := BuildRtx(p, data.rtxSsrc, data.nextSeqnum, rtxPtMap);
  }

  /** The push of the requests taken by the chain function: the RTX packets
      of `drained`, built one after the other. */
  method EncodeAll(t: SsrcTables, drained: seq<Packet>, rtxPtMap: map<uint32, uint32>, ssrcMap: map<uint32, uint32>)
    returns (rtx: seq<Packet>, after: SsrcTables)
    requires TablesValid(t.ssrcData, t.rtxSsrcs)
    requires |UsedSsrcs(t)| + 2 * |drained| < TWO_32
    ensures TablesValid(after.ssrcData, after.rtxSsrcs)
    ensures |rtx| == |drained|
    ensures BuiltFrom(rtx, drained, after.ssrcData, rtxPtMap)
    ensures SeqnumsFrom(rtx, drained, t.ssrcData)
    ensures AdvancedBy(after.ssrcData, t.ssrcData, drained)
    ensures NewOnlyFrom(after.ssrcData, t.ssrcData, drained)
  {
    rtx, after := [], t;
    var i := 0;
    assert drained[..0] == [];
    DrainStart(t.ssrcData);
    while i < |drained|
      invariant 0 <= i <= |drained| && |rtx| == i
      invariant TablesValid(after.ssrcData, after.rtxSsrcs)
      invariant |UsedSsrcs(after)| + 2 * (|drained| - i) < TWO_32
      invariant BuiltFrom(rtx, drained, after.ssrcData, rtxPtMap)
      invariant SeqnumsFrom(rtx, drained, t.ssrcData)
      invariant AdvancedBy(after.ssrcData, t.ssrcData, drained[..i])
      invariant NewOnlyFrom(after.ssrcData, t.ssrcData, drained[..i])
    {
      var r, next := Encode(after, drained[i], rtxPtMap, ssrcMap);
      BuiltFromStep(after.ssrcData, next.ssrcData, drained, rtx, r, rtxPtMap);
      SeqnumsFromStep(t.ssrcData, after.ssrcData, next.ssrcData, drained, rtx, r, rtxPtMap);
      AdvancedByStep(t.ssrcData, after.ssrcData, next.ssrcData, drained, i, r, rtxPtMap);
      NewOnlyFromStep(t.ssrcData, after.ssrcData, next.ssrcData, drained, i, r, rtxPtMap);
      rtx, after := rtx + [r], next;
      i := i + 1;
    }
    assert drained[..|drained|] == drained;
  }

  /** The store step of the chain function, for a packet whose payload
      type has an RTX payload type: its stream's data is looked up or
      created, and the packet goes into that history, which is trimmed. */
  method StorePacket(t: SsrcTables, p: Packet, maxPackets: nat, maxTime: nat, ssrcMap: map<uint32, uint32>)
    returns (after: SsrcTables)
    requires TablesValid(t.ssrcData, t.rtxSsrcs)
    requires p.ssrc !in t.ssrcData ==> |UsedSsrcs(t)| + 1 < TWO_32
    ensures TablesValid(after.ssrcData, after.rtxSsrcs)
    ensures p.ssrc in after.ssrcData
    ensures after.ssrcData[p.ssrc].queue ==
      Stored(if p.ssrc in t.ssrcData then t.ssrcData[p.ssrc].queue else [],
             Item(p.seqnum, p.timestamp, p), maxPackets, maxTime, after.ssrcData[p.ssrc].clockRate)
    ensures after.ssrcData == t.ssrcData[p.ssrc := after.ssrcData[p.ssrc]]
    ensures p.ssrc in t.ssrcData ==>
      && after.rtxSsrcs == t.rtxSsrcs
      && after.ssrcData[p.ssrc] == t.ssrcData[p.ssrc].(queue := after.ssrcData[p.ssrc].queue)
    ensures p.ssrc !in t.ssrcData ==>
      && after.ssrcData[p.ssrc].rtxSsrc !in t.rtxSsrcs && after.ssrcData[p.ssrc].rtxSsrc !in t.ssrcData
      && after.ssrcData[p.ssrc].clockRate == 0
      && after.rtxSsrcs == t.rtxSsrcs[after.ssrcData[p.ssrc].rtxSsrc := p.ssrc]
    ensures |UsedSsrcs(after)| <= |UsedSsrcs(t)| + 2
  {
    var data, t1 := GetSsrcData(t, p.ssrc, ssrcMap);
    var item := Item(p.seqnum, p.timestamp, p);
    var q := StoreItem(data.queue, item, maxPackets, maxTime, data.clockRate);
    StoredKeepsHistoryOf(p.ssrc, data.queue, p, maxPackets, maxTime, data.clockRate);
    UpdateKeepsTables(t1.ssrcData, t1.rtxSsrcs, p.ssrc, data.(queue := q));
    UpdateKeepsKeys(t1.ssrcData, p.ssrc, data.(queue := q));
    MapUpdateTwice(t.ssrcData, p.ssrc, data, data.(queue := q));
    after := t1.(ssrcData := t1.ssrcData[p.ssrc := data.(queue := q)]);
  }

  /** What the table work of a chain call promises, tables `t` -> `after`
      for packet `p` and the queued requests `drained`: the invariant holds;
      the output is the RTX packets of the requests, in order, then the
      packet itself; the store and the streams are as `StoreOutcome` and
      `StreamsKept` say. */
  ghost predicate ChainOutcome(t: SsrcTables, after: SsrcTables, p: Packet, drained: seq<Packet>, out: seq<Packet>,
                               rtxPtMap: map<uint32, uint32>, maxPackets: nat, maxTime: nat)
  {
    && TablesValid(after.ssrcData, after.rtxSsrcs)
    && |out| == |drained| + 1 && out[|out| - 1] == p
    && BuiltFrom(out[..|out| - 1], drained, after.ssrcData, rtxPtMap)
    && StoreOutcome(t.ssrcData, after.ssrcData, p, p.pt in rtxPtMap, maxPackets, maxTime)
    && StreamsKept(t.ssrcData, after.ssrcData, p, p.pt in rtxPtMap, drained)
  }

  /** The table work of the chain function: the store (for a packet whose
      payload type has an RTX payload type), then the RTX packets of the
      requests taken over, built one after the other. */
  method ChainTables(t: SsrcTables, p: Packet, drained: seq<Packet>, rtxPtMap: map<uint32, uint32>,
                     maxPackets: nat, maxTime: nat, ssrcMap: map<uint32, uint32>)
    returns (out: seq<Packet>, after: SsrcTables)
    requires TablesValid(t.ssrcData, t.rtxSsrcs)
    requires |UsedSsrcs(t)| + 2 * |drained| + 2 < TWO_32
    ensures ChainOutcome(t, after, p, drained, out, rtxPtMap, maxPackets, maxTime)
  {
    var stored := t;
    if p.pt in rtxPtMap {
      stored := StorePacket(t, p, maxPackets, maxTime, ssrcMap);
    }
    var rtx;
    rtx, after := EncodeAll(stored, drained, rtxPtMap, ssrcMap);
    out := rtx + [p];
    assert out[..|out| - 1] == rtx;
    ChainData(t.ssrcData, stored.ssrcData, after.ssrcData, p, p.pt in rtxPtMap, drained, maxPackets, maxTime);
    ChainKeepsStreams(t.ssrcData, stored.ssrcData, after.ssrcData, p, p.pt in rtxPtMap, drained);
  }

  class RtxSender {
    /** Master SSRC -> its stream data, and RTX SSRC -> master SSRC. */
    var tables: SsrcTables
    /** Stored packets requested since the last chain call. */
    var pending: seq<Packet>
    /** Original payload type -> RTX payload type, in use. */
    var rtxPtMap: map<uint32, uint32>
    /** The payload-type map last configured, applied on the next packet. */
    var pendingRtxPtMap: PtStructure
    var rtxPtMapChanged: bool
    /** The configured master -> RTX SSRC proposals (empty when not set). */
    var externalSsrcMap: map<uint32, uint32>
    var maxSizeTime: uint32
    var maxSizePackets: uint32
    var numRtxRequests: uint32
    var numRtxPackets: uint32

    /** The two SSRC tables are inverse to each other, no master uses its
        own SSRC as RTX SSRC, and every history holds its master's packets. */
    ghost predicate Valid()
      reads this`tables
    {
      TablesValid(tables.ssrcData, tables.rtxSsrcs)
    }

    /** Every SSRC value the tables use. */
    ghost function Used(): set<uint32>
      reads this`tables
    {
      UsedSsrcs(tables)
    }

    constructor ()
      ensures Valid()
      ensures tables.ssrcData == map[] && tables.rtxSsrcs == map[] && pending == []
      ensures rtxPtMap == map[] && pendingRtxPtMap == [] && !rtxPtMapChanged && externalSsrcMap == map[]
      ensures maxSizeTime == DEFAULT_MAX_SIZE_TIME && maxSizePackets == DEFAULT_MAX_SIZE_PACKETS
      ensures numRtxRequests == 0 && numRtxPackets == 0
    {
      tables, pending := SsrcTables(map[], map[]), [];
      rtxPtMap, pendingRtxPtMap, rtxPtMapChanged := map[], [], false;
      externalSsrcMap := map[];
      maxSizeTime, maxSizePackets := DEFAULT_MAX_SIZE_TIME, DEFAULT_MAX_SIZE_PACKETS;
      numRtxRequests, numRtxPackets := 0, 0;
    }

    /** The payload-type-map property: staged, applied by the next chain call. */
    method SetPayloadTypeMap(s: PtStructure)
      modifies this`pendingRtxPtMap, this`rtxPtMapChanged
      ensures pendingRtxPtMap == s && rtxPtMapChanged
    {
      pendingRtxPtMap, rtxPtMapChanged := s, true;
    }

    /** The ssrc-map property. */
    method SetSsrcMap(m: map<uint32, uint32>)
      modifies this`externalSsrcMap
      ensures externalSsrcMap == m
    {
      externalSsrcMap := m;
    }

    /** The max-size-time property, in milliseconds (0 = unlimited). */
    method SetMaxSizeTime(ms: uint32)
      modifies this`maxSizeTime
      ensures maxSizeTime == ms
    {
      maxSizeTime := ms;
    }

    /** The max-size-packets property (0 = unlimited). */
    method SetMaxSizePackets(n: uint32)
      requires n <= MAX_SIZE_PACKETS_LIMIT
      modifies this`maxSizePackets
      ensures maxSizePackets == n
    {
      maxSizePackets := n;
    }

    /** The caps event: the clock rate it carries is kept for its SSRC,
        whose data is created when needed; the event is forwarded. */
    method SinkCaps(ssrc: uint32, clockRate: Option<int32>) returns (forwarded: bool)
      requires Valid()
      requires ssrc !in tables.ssrcData ==> |Used()| + 1 < TWO_32
      modifies this`tables
      ensures Valid() && forwarded
      ensures ssrc in tables.ssrcData && tables.ssrcData == old(tables.ssrcData)[ssrc := tables.ssrcData[ssrc]]
      ensures tables.ssrcData[ssrc].clockRate ==
        if clockRate.Some? then clockRate.value else if ssrc in old(tables.ssrcData) then old(tables.ssrcData[ssrc].clockRate) else 0
      ensures ssrc in old(tables.ssrcData) ==>
        tables.rtxSsrcs == old(tables.rtxSsrcs) && tables.ssrcData[ssrc] == old(tables.ssrcData[ssrc]).(clockRate := tables.ssrcData[ssrc].clockRate)
      ensures ssrc !in old(tables.ssrcData) ==> tables.ssrcData[ssrc].queue == []
    {
      var t := tables;
      var data, t1 := GetSsrcData(t, ssrc, externalSsrcMap);
      if clockRate.Some? {
        data := data.(clockRate := clockRate.value);
      }
      UpdateKeepsTables(t1.ssrcData, t1.rtxSsrcs, ssrc, data);
      MapUpdateTwice(t.ssrcData, ssrc, t1.ssrcData[ssrc], data);
      tables := t1.(ssrcData := t1.ssrcData[ssrc := data]);
      forwarded := true;
    }

    /** The retransmission-request event: for a known master it is counted
        and the stored packet with the requested seqnum (cut to 16 bits),
        if any, is queued. The event is consumed either way. */
    method HandleRetransmissionRequest(seqnum: uint32, ssrc: uint32) returns (forwarded: bool)
      requires Valid()
      modifies this`pending, this`numRtxRequests
      ensures Valid() && !forwarded
      ensures ssrc !in tables.ssrcData ==> pending == old(pending) && numRtxRequests == old(numRtxRequests)
      ensures ssrc in tables.ssrcData ==>
        && numRtxRequests == AddU32(old(numRtxRequests), 1)
        && pending == old(pending) + Retransmittable(tables.ssrcData[ssrc].queue, seqnum % TWO_16)
      ensures |pending| == |old(pending)| + 1 ==>
        && pending[|pending| - 1].seqnum == seqnum % TWO_16
        && pending[|pending| - 1].ssrc == ssrc
    {
      forwarded := false;
      if ssrc in tables.ssrcData {
        numRtxRequests := AddU32(numRtxRequests, 1);
        var data := tables.ssrcData[ssrc];
        var found := Lookup(data.queue, seqnum % TWO_16);
        if found.Some? {
          pending := pending + [found.value.buffer];
        }
      }
    }

    /** The collision event. An RTX SSRC in collision is replaced by a
        fresh one for its master and the event is consumed; a master SSRC
        in collision loses its data and both table entries, and the event
        goes on upstream; any other SSRC only goes on upstream. */
    method HandleCollision(ssrc: uint32) returns (forwarded: bool)
      requires Valid()
      requires ssrc in tables.rtxSsrcs ==> |Used()| + 1 < TWO_32
      modifies this`tables
      ensures Valid()
      ensures ssrc in old(tables.rtxSsrcs) ==>
        && !forwarded
        && old(tables.rtxSsrcs[ssrc]) in old(tables.ssrcData) && old(tables.rtxSsrcs[ssrc]) in tables.ssrcData
        && (var master := old(tables.rtxSsrcs[ssrc]);
            var newRtx := tables.ssrcData[master].rtxSsrc;
            && newRtx !in old(tables.ssrcData) && newRtx !in old(tables.rtxSsrcs)
            && tables.ssrcData == old(tables.ssrcData)[master := old(tables.ssrcData[master]).(rtxSsrc := newRtx)]
            && tables.rtxSsrcs == (old(tables.rtxSsrcs) - {ssrc})[newRtx := master])
      ensures ssrc !in old(tables.rtxSsrcs) && ssrc in old(tables.ssrcData) ==>
        && forwarded
        && tables.ssrcData == old(tables.ssrcData) - {ssrc}
        && tables.rtxSsrcs == old(tables.rtxSsrcs) - {old(tables.ssrcData[ssrc].rtxSsrc)}
      ensures ssrc !in old(tables.rtxSsrcs) && ssrc !in old(tables.ssrcData) ==>
        forwarded && tables.ssrcData == old(tables.ssrcData) && tables.rtxSsrcs == old(tables.rtxSsrcs)
    {
      if ssrc in tables.rtxSsrcs {
        var master := tables.rtxSsrcs[ssrc];
        var data := tables.ssrcData[master];
        var newRtx := ChooseSsrc(tables, master, 0, false);
        NewRtxKeepsTables(tables.ssrcData, tables.rtxSsrcs, ssrc, newRtx);
        tables := SsrcTables(tables.ssrcData[master := data.(rtxSsrc := newRtx)],
                             (tables.rtxSsrcs - {ssrc})[newRtx := master]);
        forwarded := false;
      } else {
        if ssrc in tables.ssrcData {
          var data := tables.ssrcData[ssrc];
          RemoveMasterKeepsTables(tables.ssrcData, tables.rtxSsrcs, ssrc);
          tables := SsrcTables(tables.ssrcData - {ssrc}, tables.rtxSsrcs - {data.rtxSsrc});
        }
        forwarded := true;
      }
    }

    /** gst_rtp_rtx_send_chain: apply a staged payload-type map, store the
        packet when its payload type has an RTX payload type (creating its
        stream's data on first sight) and trim that history, take over the
        queued requests and count them as sent, then send their RTX packets
        and finally the packet itself, unchanged. */
    method Chain(p: Packet) returns (out: seq<Packet>)
      requires Valid()
      requires |Used()| + 2 * |pending| + 2 < TWO_32
      modifies this`tables, this`pending, this`numRtxPackets, this`rtxPtMap, this`rtxPtMapChanged
      ensures Valid()
      ensures rtxPtMap == (if old(rtxPtMapChanged) then ToMap(old(pendingRtxPtMap)) else old(rtxPtMap))
      ensures !rtxPtMapChanged
      ensures pending == [] && numRtxPackets == AddU32(old(numRtxPackets), |old(pending)|)
      ensures ChainOutcome(old(tables), tables, p, old(pending), out, rtxPtMap, old(maxSizePackets), old(maxSizeTime))
    {
      var ptMap := if rtxPtMapChanged then ToMap(pendingRtxPtMap) else rtxPtMap;
      var t := tables;
      var ssrcMap, maxPackets, maxTime := externalSsrcMap, maxSizePackets, maxSizeTime;
      var drained := pending;
      var sent := AddU32(numRtxPackets, |drained|);
      var after;
      out, after := ChainTables(t, p, drained, ptMap, maxPackets, maxTime, ssrcMap);
      pending, numRtxPackets, rtxPtMap, rtxPtMapChanged, tables := [], sent, ptMap, false, after;
    }

    /** gst_rtp_rtx_send_reset: queued requests, both tables and both
        counters are cleared; the configuration stays. */
    method Reset()
      modifies this`pending, this`tables, this`numRtxRequests, this`numRtxPackets
      ensures Valid()
      ensures pending == [] && tables.ssrcData == map[] && tables.rtxSsrcs == map[]
      ensures numRtxRequests == 0 && numRtxPackets == 0
    {
      pending, tables := [], SsrcTables(map[], map[]);
      numRtxRequests, numRtxPackets := 0, 0;
    }
  }
}
