/**
 * The receive loop of src/bin/stealth_receiver.rs: each datagram is read into
 * a 2048-byte buffer, its search-line field decoded, the 12-byte header
 * acknowledged by echoing it, and the symbol behind it fed to one decoder
 * that lives for the whole run. The loop ends when a recovered envelope opens,
 * or when a panic ends the process.
 */
module StealthReceiver {
  import opened Bytes
  import opened Wrappers
  import opened Codec
  import opened Framing
  import opened Envelope
  import opened Disguise
  import opened Client

  /** Size of the receive buffer; a longer datagram is cut to this length. */
  const RECV_BUFFER_SIZE: nat := 2048
  /** The transfer length the decoder is configured with. */
  const APPROX_PAYLOAD_SIZE: nat := 512

  function Truncate(datagram: string): (r: string)
    ensures |r| <= RECV_BUFFER_SIZE && |r| <= |datagram| && r == datagram[..|r|]
    ensures |datagram| <= RECV_BUFFER_SIZE ==> r == datagram
    ensures |datagram| > RECV_BUFFER_SIZE ==> r == datagram[..RECV_BUFFER_SIZE]
  {
    if |datagram| > RECV_BUFFER_SIZE then datagram[..RECV_BUFFER_SIZE] else datagram
  }

  /** What one datagram does: nothing, a panic, or an acknowledgement and a symbol fed to the decoder. */
  datatype RxEvent = Ignored | Panic | Fed(ack: seq<byte>, symbol: seq<byte>, status: Handled<seq<byte>>)

  /**
   * One datagram, given the symbols fed so far. `status` is Skip while the
   * decoder needs more symbols or the recovered envelope does not open, Crash
   * when the nonce split panics, Accept with the message otherwise.
   */
  function RxDatagram(fed: seq<seq<byte>>, datagram: string, decode: Decoder, open: Open): (r: RxEvent)
    ensures r.Fed? ==> |r.ack| == ACK_SIZE
    ensures r.Fed? && !r.status.Skip? ==> decode(APPROX_PAYLOAD_SIZE, fed + [r.symbol]).Some?
  {
    match ParseSearchLine(Truncate(datagram))
    case Skip => Ignored
    case Crash => Panic
    case Accept(wire) =>
      var header := HeaderFromBytes(wire[..HEADER_SIZE]).value;
      var ack := AckImage(NewAck(header.seqId, header.timestamp));
      var symbol := wire[HEADER_SIZE..];
      var status := match decode(APPROX_PAYLOAD_SIZE, fed + [symbol])
        case None => Skip
        case Some(decoded) => ReceiverUnseal(decoded, open);
      Fed(ack, symbol, status)
  }

  /**
   * A datagram is ignored or panics exactly as its line does; otherwise its
   * acknowledgement is the first 12 bytes of the frame, which read back as
   * an acknowledgement of the frame's own sequence number and timestamp, and
   * the symbol fed is the rest of the frame.
   */
  lemma RxDatagramAck(fed: seq<seq<byte>>, datagram: string, decode: Decoder, open: Open)
    ensures var ev := RxDatagram(fed, datagram, decode, open);
      (ev.Ignored? <==> ParseSearchLine(Truncate(datagram)).Skip?) &&
      (ev.Panic? <==> ParseSearchLine(Truncate(datagram)).Crash?)
    ensures var ev := RxDatagram(fed, datagram, decode, open);
      ev.Fed? ==>
        var wire := ParseSearchLine(Truncate(datagram)).value;
        var header := HeaderFromBytes(wire).value;
        ev.ack == wire[..HEADER_SIZE] && ev.symbol == wire[HEADER_SIZE..] &&
        AckFromBytes(ev.ack) == Some(AckPacket(header.seqId, header.timestamp))
  {
    var parsed := ParseSearchLine(Truncate(datagram));
    if parsed.Accept? {
      var wire := parsed.value;
      var head := wire[..HEADER_SIZE];
      assert head[0..4] == wire[0..4] && head[4..12] == wire[4..12];
      var header := HeaderFromBytes(wire).value;
      assert HeaderFromBytes(head).value == header;
      AckIsHeaderOnWire(wire);
      AckRoundTrip(AckPacket(header.seqId, header.timestamp), []);
      assert AckImage(AckPacket(header.seqId, header.timestamp)) + [] == wire[..HEADER_SIZE];
    }
  }

  /** A datagram delivers a message only when the AEAD opened something. */
  lemma DeliveryNeedsAuthentication(fed: seq<seq<byte>>, datagram: string, decode: Decoder, open: Open)
    requires forall nonce, ciphertext :: open(nonce, ciphertext) == None
    ensures var ev := RxDatagram(fed, datagram, decode, open);
      ev.Fed? ==> !ev.status.Accept?
  {
  }

  datatype RxStatus = Listening | Delivered(message: seq<byte>) | Panicked

  /** The receiver's state after a run: symbols fed, acknowledgements sent, and how the run stands. */
  datatype RxOutcome = RxOutcome(fed: seq<seq<byte>>, acks: seq<seq<byte>>, status: RxStatus)

  /** The datagrams handled in order from the given state, until a delivery or a panic. */
  function RxRun(fed: seq<seq<byte>>, acks: seq<seq<byte>>, datagrams: seq<string>, decode: Decoder, open: Open): (r: RxOutcome)
    ensures |r.fed| <= |fed| + |datagrams|
    decreases |datagrams|
  {
    if datagrams == [] then RxOutcome(fed, acks, Listening)
    else
      match RxDatagram(fed, datagrams[0], decode, open)
      case Ignored => RxRun(fed, acks, datagrams[1..], decode, open)
      case Panic => RxOutcome(fed, acks, Panicked)
      case Fed(ack, symbol, status) =>
        match status
        case Skip => RxRun(fed + [symbol], acks + [ack], datagrams[1..], decode, open)
        case Crash => RxOutcome(fed + [symbol], acks + [ack], Panicked)
        case Accept(message) => RxOutcome(fed + [symbol], acks + [ack], Delivered(message))
  }

  /** The receive loop over the datagrams that arrive, from a fresh decoder. */
  method ReceiveLoop(datagrams: seq<string>, decode: Decoder, open: Open)
    returns (fed: seq<seq<byte>>, acks: seq<seq<byte>>, status: RxStatus)
    ensures RxOutcome(fed, acks, status) == RxRun([], [], datagrams, decode, open)
  {
    fed, acks, status := [], [], Listening;
    var i := 0;
    while i < |datagrams|
      invariant 0 <= i <= |datagrams|
      invariant RxRun([], [], datagrams, decode, open) == RxRun(fed, acks, datagrams[i..], decode, open)
    {
      assert datagrams[i..][1..] == datagrams[i + 1..];
      var ev := RxDatagram(fed, datagrams[i], decode, open);
      if ev.Panic? {
        status := Panicked;
        return;
      }
      if ev.Fed? {
        acks := acks + [ev.ack];
        fed := fed + [ev.symbol];
        if ev.status.Crash? {
          status := Panicked;
          return;
        } else if ev.status.Accept? {
          status := Delivered(ev.status.value);
          return;
        }
      }
      i := i + 1;
    }
  }

  /** One acknowledgement per symbol fed: both grow exactly on frames of at least 12 bytes, and only grow. */
  lemma {:induction false} AcksMatchFed(fed: seq<seq<byte>>, acks: seq<seq<byte>>, datagrams: seq<string>, decode: Decoder, open: Open)
    requires |fed| == |acks|
    ensures var r := RxRun(fed, acks, datagrams, decode, open);
      |r.fed| == |r.acks| && |fed| <= |r.fed| && r.fed[..|fed|] == fed && r.acks[..|acks|] == acks
    decreases |datagrams|
  {
    if datagrams != [] {
      var ev := RxDatagram(fed, datagrams[0], decode, open);
      if ev.Ignored? {
        AcksMatchFed(fed, acks, datagrams[1..], decode, open);
      } else if ev.Fed? && ev.status.Skip? {
        var fed', acks' := fed + [ev.symbol], acks + [ev.ack];
        AcksMatchFed(fed', acks', datagrams[1..], decode, open);
        var r := RxRun(fed', acks', datagrams[1..], decode, open);
        assert r.fed[..|fed|] == r.fed[..|fed'|][..|fed|];
        assert r.acks[..|acks|] == r.acks[..|acks'|][..|acks|];
      }
    }
  }

  /** Without a ciphertext that authenticates, the loop never delivers: it keeps listening or panics. */
  lemma {:induction false} NothingOpensNothingDelivered(fed: seq<seq<byte>>, acks: seq<seq<byte>>, datagrams: seq<string>, decode: Decoder, open: Open)
    requires forall nonce, ciphertext :: open(nonce, ciphertext) == None
    ensures !RxRun(fed, acks, datagrams, decode, open).status.Delivered?
    decreases |datagrams|
  {
    if datagrams != [] {
      var ev := RxDatagram(fed, datagrams[0], decode, open);
      DeliveryNeedsAuthentication(fed, datagrams[0], decode, open);
      if ev.Ignored? {
        NothingOpensNothingDelivered(fed, acks, datagrams[1..], decode, open);
      } else if ev.Fed? && ev.status.Skip? {
        NothingOpensNothingDelivered(fed + [ev.symbol], acks + [ev.ack], datagrams[1..], decode, open);
      }
    }
  }

  /**
   * End to end with src/client.rs: a datagram carrying a sender line whose
   * symbol completes the decoding of the framed, sealed message is
   * acknowledged with the line's own header and delivers the message.
   */
  lemma ReceiverDeliversSenderLine(fed: seq<seq<byte>>, seqNo: u32, timestamp: u64, symbol: seq<byte>,
                                   nonce: seq<byte>, message: seq<byte>, tail: seq<byte>,
                                   encrypt: Encrypt, decode: Decoder, open: Open)
    requires OpensWhatItSeals(encrypt, open)
    requires |nonce| == NONCE_SIZE && NONCE_SIZE + |encrypt(nonce, message)| < 0x1_0000
    requires |SenderLine(seqNo, timestamp, symbol)| <= RECV_BUFFER_SIZE
    requires decode(APPROX_PAYLOAD_SIZE, fed + [symbol]) == Some(Frame(Seal(nonce, encrypt(nonce, message))) + tail)
    ensures RxDatagram(fed, SenderLine(seqNo, timestamp, symbol), decode, open) ==
      Fed(AckImage(AckPacket(seqNo, timestamp)), symbol, Accept(message))
  {
    var line := SenderLine(seqNo, timestamp, symbol);
    SenderLineParses(seqNo, timestamp, symbol);
    ReceiverOpensFrame(nonce, message, tail, encrypt, open);
    var wire := WireUnit(PacketHeader(seqNo, timestamp), symbol);
    assert wire[..HEADER_SIZE] == HeaderImage(PacketHeader(seqNo, timestamp));
    RxDatagramAck(fed, line, decode, open);
  }
}
