/**
 * The cover traffic: wire bytes hidden in the query string of a fake search
 * request, `GET /search?q=<base64>&seq=<n> HTTP/1.1`, and the receivers'
 * extraction of the Base64 field between the first `q=` and the first `&seq`;
 * plus the multi-line variant of src/bin/wifi_server.rs that carries the
 * Base64 in an `X-Goog-Payload` header.
 */
module Disguise {
  import opened Bytes
  import opened Wrappers
  import opened Search
  import opened Base64
  import opened Framing

  const SEARCH_PREFIX: string := "GET /search?q="
  const SEQ_KEY: string := "&seq="
  const VERSION: string := " HTTP/1.1"

  /** The search line around `payload`; `eol` is "\n" for the stream senders and empty for the datagram beacon. */
  function SearchLine(payload: seq<byte>, seqText: string, eol: string): (line: string)
    ensures |line| == |SEARCH_PREFIX| + |Encode(payload)| + |SEQ_KEY| + |seqText| + |VERSION| + |eol|
    ensures line[..|SEARCH_PREFIX|] == SEARCH_PREFIX
    ensures line[|SEARCH_PREFIX|..|SEARCH_PREFIX| + |Encode(payload)|] == Encode(payload)
  {
    SEARCH_PREFIX + Encode(payload) + SEQ_KEY + seqText + VERSION + eol
  }

  /** The outcome of slicing a line between its markers. */
  datatype Query = NoMarkers | Field(text: string) | SlicePanic

  /**
   * `line[find("q=") + 2 .. find("&seq")]`: NoMarkers when either marker is
   * missing, and a panic when the first `&seq` starts before the field does.
   */
  function ExtractQuery(line: string): (r: Query)
    ensures r.NoMarkers? <==> Find(line, "q=").None? || Find(line, "&seq").None?
    ensures r.Field? ==> exists start: nat, end: nat ::
      Find(line, "q=") == Some(start) && Find(line, "&seq") == Some(end) &&
      start + 2 <= end && r.text == line[start + 2..end]
  {
    match Find(line, "q=")
    case None => NoMarkers
    case Some(start) =>
      match Find(line, "&seq")
      case None => NoMarkers
      case Some(end) =>
        if end < start + 2 then SlicePanic
        else
          assert OccursAt(line, "&seq", end);
          Field(line[start + 2..end])
  }

  /**
   * A received line as the relay and the stealth receiver handle it: skipped
   * without both markers, without valid Base64 or with fewer than 12 decoded
   * bytes; otherwise the decoded wire unit.
   */
  function ParseSearchLine(line: string): (r: Handled<seq<byte>>)
    ensures r.Crash? <==> ExtractQuery(line).SlicePanic?
    ensures r.Accept? <==> ExtractQuery(line).Field? && Decode(ExtractQuery(line).text).Some?
                           && |Decode(ExtractQuery(line).text).value| >= HEADER_SIZE
    ensures r.Accept? ==> Some(r.value) == Decode(ExtractQuery(line).text)
  {
    match ExtractQuery(line)
    case NoMarkers => Skip
    case SlicePanic => Crash
    case Field(text) =>
      match Decode(text)
      case None => Skip
      case Some(wire) => if |wire| < HEADER_SIZE then Skip else Accept(wire)
  }

  /** The first `q=` of a search line is the one at the end of its prefix. */
  lemma QueryMarkerOfSearchLine(b64: string, after: string)
    ensures Find(SEARCH_PREFIX + b64 + after, "q=") == Some(|SEARCH_PREFIX| - 2)
  {
    assert SEARCH_PREFIX + b64 + after == "GET /search?" + "q=" + (b64 + after);
    assert 'q' !in "GET /search?";
    FindAfter("GET /search?", "q=", b64 + after);
  }

  /** The first `&seq` of a search line is the one right after the Base64 field. */
  lemma SeqMarkerOfSearchLine(b64: string, rest: string)
    requires '&' !in b64
    ensures Find(SEARCH_PREFIX + b64 + SEQ_KEY + rest, "&seq") == Some(|SEARCH_PREFIX| + |b64|)
  {
    assert '&' !in SEARCH_PREFIX;
    assert SEARCH_PREFIX + b64 + SEQ_KEY + rest == (SEARCH_PREFIX + b64) + "&seq" + ("=" + rest);
    FindAfter(SEARCH_PREFIX + b64, "&seq", "=" + rest);
  }

  /** The field extracted from a search line is exactly the Base64 that was put there, whatever follows it. */
  lemma ExtractSearchLine(payload: seq<byte>, seqText: string, eol: string)
    ensures ExtractQuery(SearchLine(payload, seqText, eol)) == Field(Encode(payload))
  {
    var b64 := Encode(payload);
    var line := SearchLine(payload, seqText, eol);
    var rest := seqText + VERSION + eol;
    assert line == SEARCH_PREFIX + b64 + SEQ_KEY + rest;
    assert line == SEARCH_PREFIX + b64 + (SEQ_KEY + rest);
    QueryMarkerOfSearchLine(b64, SEQ_KEY + rest);
    EncodeHasNoAmpersand(payload);
    SeqMarkerOfSearchLine(b64, rest);
  }

  /** The receiving ends recover every wire unit of at least 12 bytes from its search line. */
  lemma ParseSearchLineRoundTrip(wire: seq<byte>, seqText: string, eol: string)
    ensures ParseSearchLine(SearchLine(wire, seqText, eol)) == if |wire| < HEADER_SIZE then Skip else Accept(wire)
  {
    ExtractSearchLine(wire, seqText, eol);
    DecodeEncode(wire);
  }

  /** A line whose first `&seq` precedes its first `q=` makes the slice panic. */
  lemma MarkersOutOfOrderPanic()
    ensures ExtractQuery("&seq q=") == SlicePanic
    ensures ParseSearchLine("&seq q=") == Crash
  {
    var line := "&seq q=";
    assert line[5..7] == "q=";
    forall j: nat | j < 5
      ensures !OccursAt(line, "q=", j)
    {
      assert line[j..j + 2][1] == line[j + 1];
      if j == 0 {} else if j == 1 {} else if j == 2 {} else if j == 3 {} else {}
    }
    FindFirst(line, "q=", 5);
    assert line == [] + "&seq" + " q=";
    FindAfter([], "&seq", " q=");
  }

  const WIFI_REQUEST_PREFIX: string := "GET /api/v1/sync?seq="
  const HTTP_VERSION_LINE: string := " HTTP/1.1\r\n"
  const HOST_LINE: string := "Host: www.google.com\r\n"
  const AGENT_LINE_START: string := "User-Agent: Mozilla/5.0 "
  const AGENT_LINE_END: string := "(Windows NT 10.0; Win64; x64)\r\n"
  const WIFI_HEADERS: string := HTTP_VERSION_LINE + HOST_LINE + AGENT_LINE_START + AGENT_LINE_END
  const PAYLOAD_HEADER: string := "X-Goog-Payload: "
  const CRLF: string := "\r\n"

  /** The multi-line request of the HTTP-mode beacon: request line, two fixed headers, the payload header, an empty line. */
  function WifiMessage(symbol: seq<byte>, seqText: string): (msg: string)
    ensures |msg| == |WIFI_REQUEST_PREFIX| + |seqText| + |WIFI_HEADERS| + |PAYLOAD_HEADER| + |Encode(symbol)| + 4
    ensures msg[..|WIFI_REQUEST_PREFIX| + |seqText| + 11] == WIFI_REQUEST_PREFIX + seqText + " HTTP/1.1" + CRLF
    ensures msg[|msg| - 4..] == CRLF + CRLF
  {
    WIFI_REQUEST_PREFIX + seqText + WIFI_HEADERS + PAYLOAD_HEADER + Encode(symbol) + CRLF + CRLF
  }

  /** A header parser for that request: the text after the first `X-Goog-Payload: ` up to the next line end. */
  function PayloadHeaderValue(msg: string): (r: Option<string>)
    ensures r.Some? ==> exists p: nat ::
      Find(msg, PAYLOAD_HEADER) == Some(p) && p + |PAYLOAD_HEADER| + |r.value| + 2 <= |msg| &&
      msg[p + |PAYLOAD_HEADER|..p + |PAYLOAD_HEADER| + |r.value| + 2] == r.value + CRLF
  {
    match Find(msg, PAYLOAD_HEADER)
    case None => None
    case Some(p) =>
      assert OccursAt(msg, PAYLOAD_HEADER, p);
      var rest := msg[p + |PAYLOAD_HEADER|..];
      match Find(rest, CRLF)
      case None => None
      case Some(e) =>
        assert OccursAt(rest, CRLF, e);
        assert rest[..e + 2] == rest[..e] + CRLF;
        Some(rest[..e])
  }

  /** The fixed text of the beacon request holds no `X` before its payload header. */
  lemma WifiHeadHasNoX()
    ensures 'X' !in WIFI_REQUEST_PREFIX && 'X' !in WIFI_HEADERS
  {
    WifiPiecesClean();
    WifiHeadersJoin('X');
  }

  /** The fixed text of the beacon request holds no `&`. */
  lemma WifiTextHasNoAmpersand()
    ensures '&' !in WIFI_REQUEST_PREFIX && '&' !in WIFI_HEADERS && '&' !in PAYLOAD_HEADER && '&' !in CRLF
  {
    WifiPiecesClean();
    WifiHeadersJoin('&');
  }

  lemma WifiPiecesClean()
    ensures 'X' !in WIFI_REQUEST_PREFIX && '&' !in WIFI_REQUEST_PREFIX
    ensures 'X' !in HTTP_VERSION_LINE && '&' !in HTTP_VERSION_LINE
    ensures 'X' !in HOST_LINE && '&' !in HOST_LINE
    ensures 'X' !in AGENT_LINE_START && '&' !in AGENT_LINE_START
    ensures 'X' !in AGENT_LINE_END && '&' !in AGENT_LINE_END
    ensures '&' !in PAYLOAD_HEADER && '&' !in CRLF
  {
    RequestPrefixClean();
    VersionAndHostClean();
    AgentStartClean();
    AgentEndClean();
    PayloadHeaderClean();
  }

  lemma RequestPrefixClean()
    ensures 'X' !in WIFI_REQUEST_PREFIX && '&' !in WIFI_REQUEST_PREFIX
  {
    LiteralClean(WIFI_REQUEST_PREFIX);
  }

  lemma VersionAndHostClean()
    ensures 'X' !in HTTP_VERSION_LINE && '&' !in HTTP_VERSION_LINE
    ensures 'X' !in HOST_LINE && '&' !in HOST_LINE
  {
    LiteralClean(HTTP_VERSION_LINE);
    LiteralClean(HOST_LINE);
  }

  lemma AgentStartClean()
    ensures 'X' !in AGENT_LINE_START && '&' !in AGENT_LINE_START
  {
    LiteralClean(AGENT_LINE_START);
  }

  lemma AgentEndClean()
    ensures 'X' !in AGENT_LINE_END && '&' !in AGENT_LINE_END
  {
    LiteralClean(AGENT_LINE_END);
  }

  lemma PayloadHeaderClean()
    ensures '&' !in PAYLOAD_HEADER && '&' !in CRLF
  {
    LiteralClean(PAYLOAD_HEADER[1..]);
    assert PAYLOAD_HEADER == "X" + PAYLOAD_HEADER[1..];
    LiteralClean(CRLF);
  }

  /** A character absent from the four header lines is absent from their concatenation. */
  lemma WifiHeadersJoin(c: char)
    requires c !in HTTP_VERSION_LINE && c !in HOST_LINE && c !in AGENT_LINE_START && c !in AGENT_LINE_END
    ensures c !in WIFI_HEADERS
  {
    NotInJoin(c, HTTP_VERSION_LINE, HOST_LINE);
    NotInJoin(c, HTTP_VERSION_LINE + HOST_LINE, AGENT_LINE_START);
    NotInJoin(c, HTTP_VERSION_LINE + HOST_LINE + AGENT_LINE_START, AGENT_LINE_END);
  }

  lemma NotInJoin(c: char, a: string, b: string)
    requires c !in a && c !in b
    ensures c !in a + b
  {
  }

  /** Checks one literal character by character, so that no literal is unfolded twice. */
  lemma LiteralClean(s: string)
    requires forall i :: 0 <= i < |s| ==> 'a' <= s[i] <= 'z' || 'A' <= s[i] <= 'W' || '\'' <= s[i] <= ';' || s[i] in " \r\n?="
    ensures 'X' !in s && '&' !in s
  {
  }

  /** The header parser reads back a value that holds no line break, placed after text without an `X`. */
  lemma PayloadHeaderValueOf(head: string, value: string, tail: string)
    requires 'X' !in head && '\r' !in value
    ensures PayloadHeaderValue(head + PAYLOAD_HEADER + value + CRLF + tail) == Some(value)
  {
    var msg := head + PAYLOAD_HEADER + value + CRLF + tail;
    assert msg == head + PAYLOAD_HEADER + (value + CRLF + tail);
    FindAfter(head, PAYLOAD_HEADER, value + CRLF + tail);
    var rest := msg[|head| + |PAYLOAD_HEADER|..];
    assert rest == value + CRLF + tail;
    FindAfter(value, CRLF, tail);
    assert rest[..|value|] == value;
  }

  /** A decimal sequence number: digits and perhaps a minus sign. */
  predicate IsNumeral(s: string) {
    forall i :: 0 <= i < |s| ==> '0' <= s[i] <= '9' || s[i] == '-'
  }

  /** The payload header of a beacon request carries exactly the Base64 of the symbol. */
  lemma WifiPayloadRoundTrip(symbol: seq<byte>, seqText: string)
    requires IsNumeral(seqText)
    ensures PayloadHeaderValue(WifiMessage(symbol, seqText)) == Some(Encode(symbol))
  {
    var head := WIFI_REQUEST_PREFIX + seqText + WIFI_HEADERS;
    assert 'X' !in seqText;
    WifiHeadHasNoX();
    EncodeHasNoLineBreak(symbol);
    assert WifiMessage(symbol, seqText) == head + PAYLOAD_HEADER + Encode(symbol) + CRLF + CRLF;
    PayloadHeaderValueOf(head, Encode(symbol), CRLF);
  }

  /** The search-line receivers skip every beacon request: it has no `&`, hence no `&seq` marker. */
  lemma WifiMessageIsSkipped(symbol: seq<byte>, seqText: string)
    requires IsNumeral(seqText)
    ensures ExtractQuery(WifiMessage(symbol, seqText)) == NoMarkers
    ensures ParseSearchLine(WifiMessage(symbol, seqText)) == Skip
  {
    var msg := WifiMessage(symbol, seqText);
    WifiMessageHasNoAmpersand(symbol, seqText);
    FindAbsent(msg, "&seq");
  }

  /** A beacon request holds no `&` anywhere. */
  lemma WifiMessageHasNoAmpersand(symbol: seq<byte>, seqText: string)
    requires IsNumeral(seqText)
    ensures '&' !in WifiMessage(symbol, seqText)
  {
    var msg := WifiMessage(symbol, seqText);
    EncodeHasNoAmpersand(symbol);
    assert '&' !in seqText;
    WifiTextHasNoAmpersand();
    assert msg == WIFI_REQUEST_PREFIX + seqText + WIFI_HEADERS + PAYLOAD_HEADER + Encode(symbol) + (CRLF + CRLF);
  }
}
