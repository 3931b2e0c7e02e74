/** RTP packets as the two RFC 4588 retransmission elements see them: the
    header fields they read and rewrite, the 2-byte original sequence number
    (OSN) that prefixes an RTX payload, the circular comparison of sequence
    numbers and the unsigned counters. The byte layout of the RTP header
    belongs to the RTP library and is represented here field by field. */
module RtpPacket {

  const TWO_16: int := 0x1_0000
  const TWO_32: int := 0x1_0000_0000

  type byte = x: int | 0 <= x < 0x100
  /** The 7-bit payload-type field of the RTP header. */
  type uint7 = x: int | 0 <= x < 0x80
  type uint16 = x: int | 0 <= x < 0x1_0000
  type uint32 = x: int | 0 <= x < 0x1_0000_0000
  type int32 = x: int | -0x8000_0000 <= x < 0x8000_0000

  datatype Option<T> = None | Some(value: T)

  /** An RTP packet. `padLen` is the number of trailing padding bytes (the
      last of which carries that number on the wire). */
  datatype Packet = Packet(
    ssrc: uint32,
    seqnum: uint16,
    pt: uint7,
    timestamp: uint32,
    marker: bool,
    csrcs: seq<uint32>,
    padding: bool,
    extension: seq<byte>,
    payload: seq<byte>,
    padLen: byte)

  /** The parts of a packet that both elements copy unchanged from the
      packet they rebuild: the rest of the fixed header and the header
      extension. */
  predicate SameCopiedHeader(a: Packet, b: Packet)
  {
    a.timestamp == b.timestamp && a.marker == b.marker &&
    a.csrcs == b.csrcs && a.extension == b.extension
  }

  /** Setting the payload type: the RTP library refuses a value that does
      not fit the 7-bit field and leaves the header as it was. */
  function SetPayloadType(p: Packet, value: int): (r: Packet)
    ensures 0 <= value < 0x80 ==> r == p.(pt := value)
    ensures !(0 <= value < 0x80) ==> r == p
  {
    if 0 <= value < 0x80 then p.(pt := value) else p
  }

  /** Unsigned 32-bit counter arithmetic (statistics are `guint`). */
  function AddU32(x: uint32, n: nat): (r: uint32)
    ensures x + n < TWO_32 ==> r == x + n
    ensures n == 0 ==> r == x
    ensures (r - x - n) % TWO_32 == 0
  {
    (x + n) % TWO_32
  }

  /** Big-endian encoding of a 16-bit value, as the OSN is written. */
  function WriteUint16BE(v: uint16): (b: seq<byte>)
    ensures |b| == 2
    ensures (b[0] as int) * 0x100 + (b[1] as int) == v
  {
    [v / 0x100, v % 0x100]
  }

  /** Big-endian decoding of two bytes, as the OSN is read. */
  function ReadUint16BE(hi: byte, lo: byte): (v: uint16)
    ensures WriteUint16BE(v) == [hi, lo]
  {
    var v: int := (hi as int) * 0x100 + (lo as int);
    assert v / 0x100 == hi && v % 0x100 == lo;
    v
  }

  lemma ReadOfWriteUint16BE(v: uint16)
    ensures ReadUint16BE(WriteUint16BE(v)[0], WriteUint16BE(v)[1]) == v
  {
  }

  /** The RTP library's sequence-number comparison: the 16-bit difference
      `seqnum2 - seqnum1` read as a signed 16-bit number, so that it is
      positive when `seqnum2` comes after `seqnum1` in circular order. */
  function CompareSeqnum(seqnum1: uint16, seqnum2: uint16): (d: int)
    ensures -0x8000 <= d < 0x8000
    ensures (d - (seqnum2 - seqnum1)) % TWO_16 == 0
  {
    var u := (seqnum2 - seqnum1) % TWO_16;
    if u < 0x8000 then u else u - TWO_16
  }

  /** Equal sequence numbers, and only those, compare as 0. */
  lemma CompareSeqnumZero(a: uint16, b: uint16)
    ensures CompareSeqnum(a, b) == 0 <==> a == b
  {
  }

  /** Circular order: `b` is later than `a` exactly when it is 1 to 32767
      steps ahead of it, modulo 2^16; the complementary distances make it
      earlier (32768 steps apart reads as earlier both ways). */
  lemma CircularOrder(a: uint16, b: uint16)
    ensures 1 <= (b - a) % TWO_16 <= 0x7FFF <==> CompareSeqnum(a, b) > 0
    ensures 0x8000 <= (b - a) % TWO_16 <==> CompareSeqnum(a, b) < 0
  {
  }

  /** Away from the half-way distance the comparison is antisymmetric. */
  lemma CompareSeqnumAntisymmetric(a: uint16, b: uint16)
    requires (b - a) % TWO_16 != 0x8000
    ensures CompareSeqnum(a, b) == -CompareSeqnum(b, a)
  {
  }

  /** The wrap-around pair: 0 comes right after 65535. */
  lemma WrapAroundPair()
    ensures CompareSeqnum(0xFFFF, 0) == 1
    ensures CompareSeqnum(0, 0xFFFF) == -1
  {
  }
}
