/** The sender's per-SSRC packet history (gst/rtpmanager/gstrtprtxsend.c):
    the items it keeps, the circular order it searches them by, the
    timestamp span in milliseconds, and the front trimming by packet count
    and by time that runs after every store. */
module RtxHistory {
  import opened RtpPacket

  /** BufferQueueItem: a stored packet with the seqnum and RTP timestamp
      read from it when it was stored. */
  datatype Item = Item(seqnum: uint16, timestamp: uint32, buffer: Packet)

  /** buffer_queue_items_cmp on the seqnums of two items: the library
      comparison with its arguments swapped, so that it is negative when
      `a` sorts before `b`. */
  function ItemsCmp(a: uint16, b: uint16): (c: int)
    ensures c == 0 <==> a == b
    ensures c < 0 <==> 1 <= (b - a) % TWO_16 <= 0x8000
  {
    CircularOrder(b, a);
    CompareSeqnum(b, a)
  }

  /** The search of a history for a seqnum: an item that compares equal to
      the search key, if there is one. */
  function Lookup(q: seq<Item>, seqnum: uint16): (r: Option<Item>)
    ensures r.Some? <==> exists i :: 0 <= i < |q| && q[i].seqnum == seqnum
    ensures r.Some? ==> r.value in q && r.value.seqnum == seqnum
  {
    if q == [] then None
    else if ItemsCmp(q[0].seqnum, seqnum) == 0 then Some(q[0])
    else
      var r := Lookup(q[1..], seqnum);
      assert forall i :: 1 <= i < |q| ==> q[1..][i - 1] == q[i];
      r
  }

  /** Ticks from the oldest to the newest timestamp; a newest timestamp that
      is numerically smaller has wrapped past 2^32. */
  function TsSpan(low: uint32, high: uint32): (d: uint32)
    ensures d == (high - low) % TWO_32
  {
    if high >= low then high - low else high + 0xFFFF_FFFF + 1 - low
  }

  const G_MAXUINT64: int := 0xFFFF_FFFF_FFFF_FFFF

  /** `ticks * 1000 / clockRate` rounded down and cast to 32 bits. The
      core library's 64-bit scaling helper refuses a denominator that is not
      positive and answers its largest value instead. */
  function TicksToMs(ticks: uint32, clockRate: int32): uint32
  {
    if clockRate <= 0 then G_MAXUINT64 % TWO_32
    else (ticks * 1000 / clockRate) % TWO_32
  }

  /** gst_rtp_rtx_send_get_ts_diff: the span of the history in
      milliseconds, 0 when it holds fewer than two items. */
  function TsDiff(q: seq<Item>, clockRate: int32): (d: uint32)
    ensures |q| <= 1 ==> d == 0
    ensures |q| >= 2 && clockRate <= 0 ==> d == 0xFFFF_FFFF
  {
    if |q| <= 1 then 0
    else TicksToMs(TsSpan(q[0].timestamp, q[|q| - 1].timestamp), clockRate)
  }

  /** With a known clock rate the span is the wrap-aware distance from the
      oldest to the newest timestamp, in whole milliseconds, cut to 32 bits. */
  lemma TsDiffValue(q: seq<Item>, clockRate: int32)
    requires |q| >= 2 && clockRate > 0
    ensures TsDiff(q, clockRate) ==
      ((q[|q| - 1].timestamp - q[0].timestamp) % TWO_32 * 1000 / clockRate) % TWO_32
  {
  }

  /** `r` is what is left of `q` after removing items from its front. */
  predicate IsSuffix(r: seq<Item>, q: seq<Item>)
  {
    |r| <= |q| && r == q[|q| - |r|..]
  }

  /** Trimming a trimmed history is trimming the original one, and keeps
      its newest item. */
  lemma SuffixOfSuffix(r: seq<Item>, b: seq<Item>, a: seq<Item>)
    requires IsSuffix(r, b) && IsSuffix(b, a)
    ensures IsSuffix(r, a)
    ensures |r| >= 1 ==> r[|r| - 1] == a[|a| - 1]
  {
    assert a[|a| - |b|..][|b| - |r|..] == a[|a| - |r|..];
  }

  /** The count loop of the store: remove the front item while the history
      holds more than `maxPackets` items. */
  function TrimToCount(q: seq<Item>, maxPackets: nat): seq<Item>
    decreases |q|
  {
    if |q| > maxPackets then TrimToCount(q[1..], maxPackets) else q
  }

  /** The time loop of the store: remove the front item while the span
      exceeds `maxTime`. It stops at the latest with one item left, whose
      span is 0. */
  function TrimToTime(q: seq<Item>, maxTime: nat, clockRate: int32): seq<Item>
    decreases |q|
  {
    if TsDiff(q, clockRate) > maxTime then TrimToTime(q[1..], maxTime, clockRate) else q
  }

  /** The history after appending `item` and running both loops, each only
      when its limit is not 0. */
  function Stored(q: seq<Item>, item: Item, maxPackets: nat, maxTime: nat, clockRate: int32): seq<Item>
  {
    var appended := q + [item];
    var byCount := if maxPackets != 0 then TrimToCount(appended, maxPackets) else appended;
    if maxTime != 0 then TrimToTime(byCount, maxTime, clockRate) else byCount
  }

  /** The count loop keeps exactly the newest `maxPackets` items. */
  lemma {:induction false} TrimToCountKeepsNewest(q: seq<Item>, maxPackets: nat)
    ensures TrimToCount(q, maxPackets) == if |q| > maxPackets then q[|q| - maxPackets..] else q
  {
    if |q| > maxPackets {
      TrimToCountKeepsNewest(q[1..], maxPackets);
      assert q[1..][|q| - 1 - maxPackets..] == q[|q| - maxPackets..];
    }
  }

  /** The time loop leaves a span within the limit, removes only from the
      front, never empties a history, and removes an item only while the
      span starting at that item exceeds the limit. */
  lemma {:induction false} TrimToTimeSpec(q: seq<Item>, maxTime: nat, clockRate: int32)
    ensures var r := TrimToTime(q, maxTime, clockRate);
      && TsDiff(r, clockRate) <= maxTime
      && IsSuffix(r, q)
      && (|q| >= 1 ==> |r| >= 1)
      && forall k :: 0 <= k < |q| - |r| ==> TsDiff(q[k..], clockRate) > maxTime
    decreases |q|
  {
    if TsDiff(q, clockRate) > maxTime {
      TrimToTimeSpec(q[1..], maxTime, clockRate);
      var r := TrimToTime(q, maxTime, clockRate);
      assert q[1..][|q| - 1 - |r|..] == q[|q| - |r|..];
      forall k | 1 <= k < |q| - |r|
        ensures TsDiff(q[k..], clockRate) > maxTime
      {
        assert q[1..][k - 1..] == q[k..];
      }
      assert q[0..] == q;
    }
  }

  /** The count loop of a store (when its limit is not 0) leaves the new
      item, as the newest one, behind a front-trimmed history of at most
      `maxPackets` items; with the limit 0 it leaves the appended history. */
  lemma ByCountSpec(q: seq<Item>, item: Item, maxPackets: nat)
    ensures var a := q + [item];
      var b := if maxPackets != 0 then TrimToCount(a, maxPackets) else a;
      && |b| >= 1 && b[|b| - 1] == item && IsSuffix(b, a)
      && (maxPackets != 0 ==> |b| == if |a| > maxPackets then maxPackets else |a|)
  {
    var a := q + [item];
    if maxPackets != 0 {
      TrimToCountKeepsNewest(a, maxPackets);
    }
  }

  /** What a store leaves: the new item, as the newest one, behind a front
      trimmed history, within both limits that are not 0; with no limits
      nothing is removed, and with only a count limit exactly the newest
      `maxPackets` items stay. */
  lemma StoredSpec(q: seq<Item>, item: Item, maxPackets: nat, maxTime: nat, clockRate: int32)
    ensures var r := Stored(q, item, maxPackets, maxTime, clockRate);
      && |r| >= 1 && r[|r| - 1] == item
      && IsSuffix(r, q + [item])
      && (maxPackets != 0 ==> |r| <= maxPackets)
      && (maxTime != 0 ==> TsDiff(r, clockRate) <= maxTime)
      && (maxPackets == 0 && maxTime == 0 ==> r == q + [item])
      && (maxPackets != 0 && maxTime == 0 ==>
            |r| == if |q| + 1 > maxPackets then maxPackets else |q| + 1)
  {
    var appended := q + [item];
    var byCount := if maxPackets != 0 then TrimToCount(appended, maxPackets) else appended;
    ByCountSpec(q, item, maxPackets);
    if maxTime != 0 {
      TrimToTimeSpec(byCount, maxTime, clockRate);
      var r := TrimToTime(byCount, maxTime, clockRate);
      assert r == Stored(q, item, maxPackets, maxTime, clockRate);
      SuffixOfSuffix(r, byCount, appended);
    } else {
      assert byCount == Stored(q, item, maxPackets, maxTime, clockRate);
    }
  }

  /** The store of the history scenario: with a limit of 3 packets, storing
      seqnums 1, 2, 3 and 4 keeps 2, 3 and 4; 1 can no longer be found and 3
      still can. */
  lemma CountLimitScenario(p1: Packet, p2: Packet, p3: Packet, p4: Packet)
    ensures var h := Stored(Stored(Stored(Stored([], Item(1, 0, p1), 3, 0, 0),
                       Item(2, 0, p2), 3, 0, 0), Item(3, 0, p3), 3, 0, 0), Item(4, 0, p4), 3, 0, 0);
      && h == [Item(2, 0, p2), Item(3, 0, p3), Item(4, 0, p4)]
      && Lookup(h, 1).None?
      && Lookup(h, 3) == Some(Item(3, 0, p3))
  {
    var i1, i2, i3, i4 := Item(1, 0, p1), Item(2, 0, p2), Item(3, 0, p3), Item(4, 0, p4);
    assert Stored([], i1, 3, 0, 0) == [i1];
    assert Stored([i1], i2, 3, 0, 0) == [i1, i2];
    assert Stored([i1, i2], i3, 3, 0, 0) == [i1, i2, i3];
    assert [i1, i2, i3] + [i4] == [i1, i2, i3, i4];
    TrimToCountKeepsNewest([i1, i2, i3, i4], 3);
    assert [i1, i2, i3, i4][1..] == [i2, i3, i4];
  }
}
