/**
 * The multi-line beacon of src/bin/wifi_server.rs: a fake sync request whose
 * `X-Goog-Payload` header carries the Base64 of the raw serialised symbol.
 */
module WifiServer {
  import opened Bytes
  import opened Wrappers
  import opened Codec
  import opened Envelope
  import opened Decimal
  import opened Base64
  import opened Search
  import opened Disguise
  import opened StealthReceiver
  import opened Beacon

  /**
   * The request for counter value `seqNo`: its request line carries the
   * counter in decimal, and its payload header exactly the Base64 of the symbol.
   */
  function WifiRequest(symbol: seq<byte>, seqNo: i32): (r: string)
    ensures |r| > |WIFI_REQUEST_PREFIX| + |DecInt(seqNo)| + 11
    ensures r[..|WIFI_REQUEST_PREFIX| + |DecInt(seqNo)| + 11] == WIFI_REQUEST_PREFIX + DecInt(seqNo) + " HTTP/1.1" + CRLF
    ensures PayloadHeaderValue(r) == Some(Encode(symbol))
  {
    WifiPayloadRoundTrip(symbol, DecInt(seqNo));
    WifiMessage(symbol, DecInt(seqNo))
  }

  /** The beacon's lifetime over `|sendOk|` turns, one request per turn. */
  method RunWifiBeacon(nonce: seq<byte>, ciphertext: seq<byte>, encode: Encoder, sendOk: seq<bool>)
    returns (attempts: seq<string>, delivered: seq<string>)
    requires |nonce| == NONCE_SIZE
    requires YieldsPacket(encode, Seal(nonce, ciphertext))
    ensures |attempts| == |sendOk| && |delivered| == Successes(sendOk)
    ensures forall i :: 0 <= i < |sendOk| ==>
      attempts[i] == WifiRequest(encode(Seal(nonce, ciphertext), SYMBOL_SIZE, 1)[0], WrapI32(Successes(sendOk[..i])))
    ensures forall k :: 0 <= k < |delivered| ==>
      delivered[k] == WifiRequest(encode(Seal(nonce, ciphertext), SYMBOL_SIZE, 1)[0], WrapI32(k))
  {
    var blob := nonce;
    blob := blob + ciphertext;
    var packets := encode(blob, SYMBOL_SIZE, 1);
    var data := packets[0];
    var seqNo;
    attempts, delivered, seqNo := SendLoop((n: i32) => WifiRequest(data, n), sendOk);
  }

  /**
   * Neither search-line receiver reads anything from a request, even one
   * cut to the stealth receiver's buffer: there is no `&seq` in it.
   */
  lemma ReceiversIgnoreWifiRequest(fed: seq<seq<byte>>, symbol: seq<byte>, seqNo: i32, decode: Decoder, open: Open)
    ensures ParseSearchLine(WifiRequest(symbol, seqNo)) == Skip
    ensures RxDatagram(fed, WifiRequest(symbol, seqNo), decode, open) == Ignored
  {
    var msg := WifiRequest(symbol, seqNo);
    WifiMessageIsSkipped(symbol, DecInt(seqNo));
    WifiMessageHasNoAmpersand(symbol, DecInt(seqNo));
    var cut := Truncate(msg);
    assert '&' !in cut by {
      forall i | 0 <= i < |cut|
        ensures cut[i] != '&'
      {
        assert cut[i] == msg[i];
      }
    }
    FindAbsent(cut, "&seq");
    RxDatagramAck(fed, msg, decode, open);
  }
}
