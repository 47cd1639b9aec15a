/**
 * The single-line beacon of src/bin/stealth_sender.rs: the serialised symbol
 * itself, with no 12-byte header and no length prefix, Base64-encoded into a
 * search line that has no line terminator.
 */
module StealthSender {
  import opened Bytes
  import opened Wrappers
  import opened Codec
  import opened Envelope
  import opened Decimal
  import opened Base64
  import opened Disguise
  import opened Framing
  import opened StealthReceiver
  import opened Beacon

  /** The beacon line for counter value `seqNo`. */
  function BeaconLine(symbol: seq<byte>, seqNo: i32): (line: string)
    ensures line == SEARCH_PREFIX + Encode(symbol) + SEQ_KEY + DecInt(seqNo) + VERSION
  {
    SearchLine(symbol, DecInt(seqNo), "")
  }

  /**
   * The beacon's lifetime over `|sendOk|` turns: seal the message, take the
   * first packet the encoder yields, and send its line every turn.
   */
  method RunBeacon(nonce: seq<byte>, ciphertext: seq<byte>, encode: Encoder, sendOk: seq<bool>)
    returns (attempts: seq<string>, delivered: seq<string>)
    requires |nonce| == NONCE_SIZE
    requires YieldsPacket(encode, Seal(nonce, ciphertext))
    ensures |attempts| == |sendOk| && |delivered| == Successes(sendOk)
    ensures forall i :: 0 <= i < |sendOk| ==>
      attempts[i] == BeaconLine(encode(Seal(nonce, ciphertext), SYMBOL_SIZE, 1)[0], WrapI32(Successes(sendOk[..i])))
    ensures forall k :: 0 <= k < |delivered| ==>
      delivered[k] == BeaconLine(encode(Seal(nonce, ciphertext), SYMBOL_SIZE, 1)[0], WrapI32(k))
  {
    var blob := nonce;
    blob := blob + ciphertext;
    var packets := encode(blob, SYMBOL_SIZE, 1);
    var data := packets[0];
    var seqNo;
    attempts, delivered, seqNo := SendLoop((n: i32) => BeaconLine(data, n), sendOk);
  }

  /** The search-line receivers cut exactly the Base64 of the symbol out of a beacon line. */
  lemma BeaconLineExtracts(symbol: seq<byte>, seqNo: i32)
    ensures ExtractQuery(BeaconLine(symbol, seqNo)) == Field(Encode(symbol))
  {
    ExtractSearchLine(symbol, DecInt(seqNo), "");
  }

  /**
   * Without a header the stealth receiver misreads a beacon: the first 12
   * bytes of the serialised symbol are taken for a header and echoed as an
   * acknowledgement, and only the rest is fed to its decoder.
   */
  lemma ReceiverMisreadsBeacon(fed: seq<seq<byte>>, symbol: seq<byte>, seqNo: i32, decode: Decoder, open: Open)
    requires |symbol| >= HEADER_SIZE && |BeaconLine(symbol, seqNo)| <= RECV_BUFFER_SIZE
    ensures var ev := RxDatagram(fed, BeaconLine(symbol, seqNo), decode, open);
      ev.Fed? && ev.ack == symbol[..HEADER_SIZE] && ev.symbol == symbol[HEADER_SIZE..]
  {
    var line := BeaconLine(symbol, seqNo);
    ParseSearchLineRoundTrip(symbol, DecInt(seqNo), "");
    assert Truncate(line) == line;
    RxDatagramAck(fed, line, decode, open);
  }
}
