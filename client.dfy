/**
 * `start_sender` of src/client.rs: seal one message, frame it with a length
 * prefix, and send the same fountain-code symbol again and again, each time
 * behind a fresh 12-byte header and inside a search line, pausing for the
 * oracle's pacing interval in between. The socket is write-only here (send
 * errors are discarded), so the model records the lines sent and the pauses.
 */
module Client {
  import opened Bytes
  import opened Wrappers
  import opened Codec
  import opened Framing
  import opened Envelope
  import opened Disguise
  import opened Decimal
  import opened Oracle

  /** The unit carried by one line: the 12-byte header, then the serialised symbol. */
  function WireUnit(header: PacketHeader, symbol: seq<byte>): (w: seq<byte>)
    ensures |w| == HEADER_SIZE + |symbol|
    ensures HeaderFromBytes(w) == Some(header) && w[HEADER_SIZE..] == symbol
  {
    HeaderRoundTrip(header, symbol);
    HeaderImage(header) + symbol
  }

  /** The line sent for sequence number `seqNo`, newline-terminated. */
  function SenderLine(seqNo: u32, timestamp: u64, symbol: seq<byte>): (line: string)
    ensures |line| > |SEARCH_PREFIX| && line[..|SEARCH_PREFIX|] == SEARCH_PREFIX
    ensures line[|line| - 1] == '\n'
  {
    SearchLine(WireUnit(PacketHeader(seqNo, timestamp), symbol), Dec(seqNo), "\n")
  }

  /**
   * Assemble one line: the 12-byte header written into a fresh array, the
   * symbol appended, the result Base64-encoded into the search line.
   */
  method MakeLine(seqNo: u32, timestamp: u64, symbol: seq<byte>) returns (httpPacket: string)
    ensures httpPacket == SenderLine(seqNo, timestamp, symbol)
  {
    var headerBytes := HeaderToBytes(PacketHeader(seqNo, timestamp));
    var packetData := headerBytes[..];
    packetData := packetData + symbol;
    httpPacket := SearchLine(packetData, Dec(seqNo), "\n");
  }

  /** The first packet the encoder yields for the unpadded envelope of the sealed message. */
  function SenderSymbol(nonce: seq<byte>, message: seq<byte>, encrypt: Encrypt, encode: Encoder): (r: seq<byte>)
    requires |nonce| == NONCE_SIZE
    requires YieldsPacket(encode, Frame(Seal(nonce, encrypt(nonce, message))))
    ensures r in encode(Frame(Seal(nonce, encrypt(nonce, message))), SYMBOL_SIZE, 1)
  {
    encode(Frame(Seal(nonce, encrypt(nonce, message))), SYMBOL_SIZE, 1)[0]
  }

  /**
   * The first `rounds` iterations of the send loop. `clock(i)` is the
   * timestamp read when the i-th header is made, `start` the instant the
   * oracle is created.
   */
  method StartSender(message: seq<byte>, nonce: seq<byte>, encrypt: Encrypt, encode: Encoder,
                     clock: nat -> u64, start: real, rounds: nat)
    returns (lines: seq<string>, pauses: seq<Seconds>)
    requires |nonce| == NONCE_SIZE
    requires YieldsPacket(encode, Frame(Seal(nonce, encrypt(nonce, message))))
    ensures |lines| == rounds && |pauses| == rounds
    ensures forall i :: 0 <= i < rounds ==>
      lines[i] == SenderLine(WrapU32(i), clock(i), SenderSymbol(nonce, message, encrypt, encode))
    ensures forall p :: p in pauses ==> p == INITIAL_SRTT / 10.0
  {
    var oracle := new NetworkOracle(start);
    var blob := nonce;
    blob := blob + encrypt(nonce, message);
    var finalPayload := LengthPrefix(|blob|);
    finalPayload := finalPayload + blob;
    assert finalPayload == Frame(Seal(nonce, encrypt(nonce, message)));
    ghost var symbol := SenderSymbol(nonce, message, encrypt, encode);
    var seqNo: u32 := 0;
    lines, pauses := [], [];
    var i := 0;
    while i < rounds
      modifies {}
      invariant 0 <= i <= rounds
      invariant seqNo == WrapU32(i)
      invariant |lines| == i && |pauses| == i
      invariant lines == seq(i, j requires 0 <= j => SenderLine(WrapU32(j), clock(j), symbol))
      invariant forall p :: p in pauses ==> p == INITIAL_SRTT / 10.0
    {
      var packets := encode(finalPayload, SYMBOL_SIZE, 1);
      var httpPacket := MakeLine(seqNo, clock(i), packets[0]);
      lines := lines + [httpPacket];
      var pacing := FirstPacing(oracle);
      pauses := pauses + [pacing];
      WrapU32Succ(i);
      seqNo := WrapU32(seqNo + 1);
      i := i + 1;
    }
  }

  /** The oracle is never fed here, so every pause is a tenth of the initial estimate. */
  method FirstPacing(oracle: NetworkOracle) returns (pacing: Seconds)
    requires oracle.Valid() && oracle.smoothedRtt == INITIAL_SRTT
    ensures pacing == INITIAL_SRTT / 10.0
  {
    pacing := oracle.PacingInterval();
  }

  /** The stealth receiver reads back, from every line the sender emits, the header and the symbol. */
  lemma SenderLineParses(seqNo: u32, timestamp: u64, symbol: seq<byte>)
    ensures ParseSearchLine(SenderLine(seqNo, timestamp, symbol)) == Accept(WireUnit(PacketHeader(seqNo, timestamp), symbol))
  {
    ParseSearchLineRoundTrip(WireUnit(PacketHeader(seqNo, timestamp), symbol), Dec(seqNo), "\n");
  }
}
