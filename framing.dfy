/**
 * The 12-byte frame header of src/framing.rs: a big-endian u32 sequence
 * number followed by a big-endian u64 timestamp (microseconds since the Unix
 * epoch). Data headers and acknowledgments share this layout byte for byte.
 */
module Framing {
  import opened Bytes
  import opened Wrappers

  const HEADER_SIZE: nat := 12
  const ACK_SIZE: nat := 12

  datatype PacketHeader = PacketHeader(seqId: u32, timestamp: u64)

  datatype AckPacket = AckPacket(seqId: u32, timestamp: u64)

  /** The bytes `PacketHeader::to_bytes` produces. */
  function HeaderImage(h: PacketHeader): (r: seq<byte>)
    ensures |r| == HEADER_SIZE
  {
    ToBe(h.seqId, 4) + ToBe(h.timestamp, 8)
  }

  /** The bytes `AckPacket::to_bytes` produces. */
  function AckImage(a: AckPacket): (r: seq<byte>)
    ensures |r| == ACK_SIZE
  {
    ToBe(a.seqId, 4) + ToBe(a.timestamp, 8)
  }

  /** `copy_from_slice` into `dst[at..at + |src|]`. */
  method CopyFromSlice(dst: array<byte>, at: nat, src: seq<byte>)
    requires at + |src| <= dst.Length
    modifies dst
    ensures dst[..] == old(dst[..at]) + src + old(dst[at + |src|..])
  {
    var i := 0;
    while i < |src|
      invariant 0 <= i <= |src|
      invariant dst[..] == old(dst[..at]) + src[..i] + old(dst[at + i..])
    {
      dst[at + i] := src[i];
      i := i + 1;
      assert src[..i] == src[..i - 1] + [src[i - 1]];
    }
  }

  /** Fills a zeroed 12-byte array: sequence number in bytes 0..4, timestamp in 4..12. */
  method HeaderToBytes(h: PacketHeader) returns (bytes: array<byte>)
    ensures fresh(bytes) && bytes.Length == HEADER_SIZE
    ensures bytes[..] == HeaderImage(h)
  {
    bytes := new byte[HEADER_SIZE](_ => 0);
    CopyFromSlice(bytes, 0, ToBe(h.seqId, 4));
    CopyFromSlice(bytes, 4, ToBe(h.timestamp, 8));
  }

  /** `AckPacket::to_bytes`: the same two copies into a zeroed array. */
  method AckToBytes(a: AckPacket) returns (bytes: array<byte>)
    ensures fresh(bytes) && bytes.Length == ACK_SIZE
    ensures bytes[..] == AckImage(a)
  {
    bytes := new byte[ACK_SIZE](_ => 0);
    CopyFromSlice(bytes, 0, ToBe(a.seqId, 4));
    CopyFromSlice(bytes, 4, ToBe(a.timestamp, 8));
  }

  /**
   * `PacketHeader::from_bytes`: None below 12 bytes; otherwise the header whose
   * image is the first 12 bytes (anything after them is ignored).
   */
  function HeaderFromBytes(b: seq<byte>): (r: Option<PacketHeader>)
    ensures r.None? <==> |b| < HEADER_SIZE
    ensures r.Some? ==> HeaderImage(r.value) == b[..HEADER_SIZE]
  {
    if |b| < HEADER_SIZE then None
    else
      ToBeFromBe(b[0..4]);
      ToBeFromBe(b[4..12]);
      Pow256Widths();
      assert b[..HEADER_SIZE] == b[0..4] + b[4..12];
      Some(PacketHeader(FromBe(b[0..4]), FromBe(b[4..12])))
  }

  /** `AckPacket::from_bytes`, with the same guard and the same reading. */
  function AckFromBytes(b: seq<byte>): (r: Option<AckPacket>)
    ensures r.None? <==> |b| < ACK_SIZE
    ensures r.Some? ==> AckImage(r.value) == b[..ACK_SIZE]
  {
    if |b| < ACK_SIZE then None
    else
      ToBeFromBe(b[0..4]);
      ToBeFromBe(b[4..12]);
      Pow256Widths();
      assert b[..ACK_SIZE] == b[0..4] + b[4..12];
      Some(AckPacket(FromBe(b[0..4]), FromBe(b[4..12])))
  }

  /** `AckPacket::new`. */
  function NewAck(seqId: u32, timestamp: u64): (a: AckPacket)
    ensures a.seqId == seqId && a.timestamp == timestamp
  {
    AckPacket(seqId, timestamp)
  }

  /**
   * Byte i of the header image: the big-endian digits of the sequence number
   * in 0..4 and of the timestamp in 4..12.
   */
  lemma HeaderLayout(h: PacketHeader)
    ensures FromBe(HeaderImage(h)[0..4]) == h.seqId
    ensures FromBe(HeaderImage(h)[4..12]) == h.timestamp
  {
    var r := HeaderImage(h);
    assert r[0..4] == ToBe(h.seqId, 4);
    assert r[4..12] == ToBe(h.timestamp, 8);
    FromBeToBe(h.seqId, 4);
    FromBeToBe(h.timestamp, 8);
  }

  /** Parsing a serialised header, with anything after it, gives the header back. */
  lemma HeaderRoundTrip(h: PacketHeader, rest: seq<byte>)
    ensures HeaderFromBytes(HeaderImage(h) + rest) == Some(h)
  {
    var b := HeaderImage(h) + rest;
    assert b[0..4] == HeaderImage(h)[0..4];
    assert b[4..12] == HeaderImage(h)[4..12];
    HeaderLayout(h);
  }

  /** Acknowledgments round-trip the same way. */
  lemma AckRoundTrip(a: AckPacket, rest: seq<byte>)
    ensures AckFromBytes(AckImage(a) + rest) == Some(a)
  {
    var b := AckImage(a) + rest;
    assert b[0..4] == ToBe(a.seqId, 4);
    assert b[4..12] == ToBe(a.timestamp, 8);
    FromBeToBe(a.seqId, 4);
    FromBeToBe(a.timestamp, 8);
  }

  /**
   * On the wire an acknowledgment is indistinguishable from the data header
   * it echoes, and only the first 12 bytes of a frame decide either reading.
   */
  lemma AckIsHeaderOnWire(b: seq<byte>)
    requires |b| >= HEADER_SIZE
    ensures var h := HeaderFromBytes(b).value;
            AckImage(NewAck(h.seqId, h.timestamp)) == b[..HEADER_SIZE]
    ensures var h := HeaderFromBytes(b).value;
            AckFromBytes(b) == Some(AckPacket(h.seqId, h.timestamp))
  {
  }
}
