/**
 * The `proteus` binary of src/bin/proteus.rs: the tank client, which wraps
 * every packet read from the tunnel device into a padded envelope and sends
 * one search line per fountain-code packet, with redundancy chosen from the
 * oracle's loss estimate; and the relay, which decodes each line it reads on
 * its own and writes the opened packet to its tunnel device.
 */
module Proteus {
  import opened Bytes
  import opened Wrappers
  import opened Codec
  import opened Framing
  import opened Envelope
  import opened Disguise
  import opened Oracle
  import opened Client

  /** The repair count passed to the encoder: two once the loss estimate exceeds 10%, else one. */
  function Redundancy(loss: real): (r: nat)
    ensures r == 1 || r == 2
    ensures r == 2 <==> loss > 0.1
  {
    if loss > 0.1 then 2 else 1
  }

  /** A higher loss estimate never passes a smaller repair count. */
  lemma RedundancyMonotone(loss: real, higher: real)
    requires loss <= higher
    ensures Redundancy(loss) <= Redundancy(higher)
  {
  }

  /** The envelope of one tunnel packet: sealed, length-prefixed and padded to 400 bytes. */
  function TankPayload(nonce: seq<byte>, ciphertext: seq<byte>): (r: seq<byte>)
    requires |nonce| == NONCE_SIZE
    ensures |r| >= PACKET_TARGET_SIZE
    ensures NONCE_SIZE + |ciphertext| < 0x1_0000 ==>
      Unwrap(r) == Some(Seal(nonce, ciphertext)) && RelayUnwrap(r) == Accept(Seal(nonce, ciphertext))
  {
    if NONCE_SIZE + |ciphertext| < 0x1_0000 then
      UnwrapPadded(Seal(nonce, ciphertext));
      PadToTarget(Frame(Seal(nonce, ciphertext)))
    else
      PadToTarget(Frame(Seal(nonce, ciphertext)))
  }

  /**
   * The lines for the encoder's packets of one tunnel packet, one per symbol:
   * a receiver extracts from line k exactly symbol k behind a header carrying
   * the shared sequence number and the clock reading of that send.
   */
  function TankLines(seqNo: u32, symbols: seq<seq<byte>>, clock: nat -> u64): (lines: seq<string>)
    ensures |lines| == |symbols|
    ensures forall k {:trigger ParseSearchLine(lines[k])} :: 0 <= k < |symbols| ==>
      ParseSearchLine(lines[k]) == Accept(WireUnit(PacketHeader(seqNo, clock(k)), symbols[k]))
  {
    forall k | 0 <= k < |symbols| {
      SenderLineParses(seqNo, clock(k), symbols[k]);
    }
    seq(|symbols|, k requires 0 <= k < |symbols| => SenderLine(seqNo, clock(k), symbols[k]))
  }

  /** Line `k` of a tank packet is the sender's line for symbol `k`. */
  lemma TankLineAt(seqNo: u32, symbols: seq<seq<byte>>, clock: nat -> u64, k: nat)
    requires k < |symbols|
    ensures TankLines(seqNo, symbols, clock)[k] == SenderLine(seqNo, clock(k), symbols[k])
  {
  }

  /** The index of the first refused send from `k` on, or `n` when none of them is refused. */
  function FirstRefused(n: nat, accepts: nat -> bool, k: nat): (r: nat)
    requires k <= n
    ensures k <= r <= n
    ensures forall j :: k <= j < r ==> accepts(j)
    ensures r < n ==> !accepts(r)
    decreases n - k
  {
    if k == n then n else if !accepts(k) then k else FirstRefused(n, accepts, k + 1)
  }

  /** The first index that is either refused or `n` is where the sends stop. */
  lemma FirstRefusedIs(n: nat, accepts: nat -> bool, i: nat)
    requires i <= n
    requires forall j :: 0 <= j < i ==> accepts(j)
    requires i == n || !accepts(i)
    ensures FirstRefused(n, accepts, 0) == i
  {
    var r := FirstRefused(n, accepts, 0);
    assert !(r < i) && !(i < r);
  }

  /** The envelope of a tunnel packet, grown in place: nonce, ciphertext, length prefix, zero padding. */
  method BuildTankPayload(nonce: seq<byte>, ciphertext: seq<byte>) returns (finalPayload: seq<byte>)
    requires |nonce| == NONCE_SIZE
    ensures finalPayload == TankPayload(nonce, ciphertext)
  {
    var blob := nonce;
    blob := blob + ciphertext;
    finalPayload := LengthPrefix(|blob|);
    finalPayload := finalPayload + blob;
    if |finalPayload| < PACKET_TARGET_SIZE {
      var padding := PACKET_TARGET_SIZE - |finalPayload|;
      finalPayload := finalPayload + Zeros(padding);
    }
  }

  /**
   * Send one line per encoder packet, all under `seqNo`, and stop at the
   * first send the transport refuses: the lines that went out.
   */
  method SendAll(seqNo: u32, packets: seq<seq<byte>>, clock: nat -> u64, accepts: nat -> bool)
    returns (delivered: seq<string>)
    ensures delivered == TankLines(seqNo, packets, clock)[..FirstRefused(|packets|, accepts, 0)]
  {
    ghost var lines := TankLines(seqNo, packets, clock);
    delivered := [];
    var k := 0;
    while k < |packets|
      invariant 0 <= k <= |packets|
      invariant forall j :: 0 <= j < k ==> accepts(j)
      invariant delivered == lines[..k]
    {
      var httpPacket := MakeLine(seqNo, clock(k), packets[k]);
      if !accepts(k) {
        break;
      }
      TankLineAt(seqNo, packets, clock, k);
      assert lines[..k + 1] == lines[..k] + [httpPacket];
      delivered := delivered + [httpPacket];
      k := k + 1;
    }
    FirstRefusedIs(|packets|, accepts, k);
  }

  /** The tank client's loop state; `sent` and `tunWrites` record what went to the socket and the tunnel. */
  class TankClient {
    const brain: NetworkOracle
    var seqNo: u32
    var lastFeedback: real
    var sent: seq<string>
    var tunWrites: seq<seq<byte>>

    ghost predicate Valid()
      reads this, brain
    {
      brain.Valid()
    }

    /** Start-up: a fresh oracle, sequence number 0, feedback clock started at `now`. */
    constructor (now: real)
      ensures Valid() && fresh(brain)
      ensures brain.smoothedRtt == INITIAL_SRTT && brain.lossRate == 0.0
      ensures seqNo == 0 && lastFeedback == now && sent == [] && tunWrites == []
    {
      brain := new NetworkOracle(now);
      seqNo := 0;
      lastFeedback := now;
      sent := [];
      tunWrites := [];
    }

    /**
     * One read from the server: an exact "OK" is an acknowledgement whose gap
     * since the previous one becomes an RTT sample; anything else non-empty
     * goes to the tunnel device; an empty read does nothing.
     */
    method OnServerData(data: seq<byte>, now: real)
      requires Valid()
      modifies this, brain`smoothedRtt, brain`lossRate
      ensures Valid()
      ensures data == [79, 75] ==>
        var sample := if now >= old(lastFeedback) then now - old(lastFeedback) else 0.0;
        brain.smoothedRtt == NextSrtt(old(brain.smoothedRtt), sample) &&
        brain.lossRate == NextLoss(old(brain.lossRate), IsSpike(brain.smoothedRtt, sample)) &&
        lastFeedback == now && tunWrites == old(tunWrites)
      ensures data != [79, 75] ==>
        brain.smoothedRtt == old(brain.smoothedRtt) && brain.lossRate == old(brain.lossRate) &&
        lastFeedback == old(lastFeedback) &&
        tunWrites == old(tunWrites) + (if data == [] then [] else [data])
      ensures seqNo == old(seqNo) && sent == old(sent)
    {
      if data == [] {
        return;
      }
      if data == [79, 75] {
        var sample: Seconds := if now >= lastFeedback then now - lastFeedback else 0.0;
        brain.UpdateRtt(sample);
        lastFeedback := now;
      } else {
        tunWrites := tunWrites + [data];
      }
    }

    /**
     * One packet read from the tunnel device: seal, frame and pad it, ask the
     * encoder for `Redundancy` packets, and send one line per packet under the
     * current sequence number, stopping at the first refused send; then the
     * sequence number advances by one, whatever happened to the sends.
     */
    method OnTunPacket(packet: seq<byte>, nonce: seq<byte>, encrypt: Encrypt, encode: Encoder,
                       clock: nat -> u64, accepts: nat -> bool)
      requires Valid() && |nonce| == NONCE_SIZE
      modifies this
      ensures Valid()
      ensures var symbols := encode(TankPayload(nonce, encrypt(nonce, packet)), SYMBOL_SIZE, Redundancy(brain.lossRate));
        sent == old(sent) + TankLines(old(seqNo), symbols, clock)[..FirstRefused(|symbols|, accepts, 0)]
      ensures seqNo == WrapU32(old(seqNo) + 1)
      ensures lastFeedback == old(lastFeedback) && tunWrites == old(tunWrites)
    {
      var redundantPackets := Redundancy(brain.lossRate);
      var finalPayload := BuildTankPayload(nonce, encrypt(nonce, packet));
      var packets := encode(finalPayload, SYMBOL_SIZE, redundantPackets);
      var delivered := SendAll(seqNo, packets, clock, accepts);
      sent := sent + delivered;
      seqNo := WrapU32(seqNo + 1);
    }

    /** The tunnel device has nothing to read: pause for the pacing interval. */
    method OnTunIdle() returns (pause: Seconds)
      requires Valid()
      ensures pause * 10.0 == brain.smoothedRtt && 0.0 < pause
    {
      pause := brain.PacingInterval();
    }
  }

  /** Every line sent for one tunnel packet reaches a receiver with the same sequence number in its header. */
  lemma TankLinesShareSeq(seqNo: u32, symbols: seq<seq<byte>>, clock: nat -> u64, k: nat)
    requires k < |symbols|
    ensures ParseSearchLine(TankLines(seqNo, symbols, clock)[k]).Accept?
    ensures HeaderFromBytes(ParseSearchLine(TankLines(seqNo, symbols, clock)[k]).value).value.seqId == seqNo
  {
    SenderLineParses(seqNo, clock(k), symbols[k]);
  }

  /**
   * One line at the relay: extract and decode the wire unit, feed its symbol
   * to a decoder created for this line alone, unwrap and open what it
   * recovers. A panic ends `run_relay_server` itself: the downlink loop runs
   * on the server's own thread, so no later connection is served either.
   */
  function RelayLine(line: string, decode: Decoder, open: Open): (r: Handled<seq<byte>>)
    ensures ParseSearchLine(line).Crash? ==> r.Crash?
    ensures ParseSearchLine(line).Skip? ==> r.Skip?
    ensures r.Accept? ==>
      ParseSearchLine(line).Accept? && decode(PACKET_TARGET_SIZE, [ParseSearchLine(line).value[HEADER_SIZE..]]).Some?
  {
    match ParseSearchLine(line)
    case Skip => Skip
    case Crash => Crash
    case Accept(wire) =>
      var symbol := wire[HEADER_SIZE..];
      match decode(PACKET_TARGET_SIZE, [symbol])
      case None => Skip
      case Some(decoded) => RelayUnseal(decoded, open)
  }

  /** What one connection yields: the packets written to the tunnel, and whether the relay panicked on it. */
  datatype RelayOutcome = RelayOutcome(tunWrites: seq<seq<byte>>, crashed: bool)

  /** The per-line outcomes, taken in order until the end of the stream or the first panic. */
  function Collect(outcomes: seq<Handled<seq<byte>>>): (r: RelayOutcome)
    ensures r.crashed <==> Crash in outcomes
    ensures |r.tunWrites| <= |outcomes|
    decreases |outcomes|
  {
    if outcomes == [] then RelayOutcome([], false)
    else
      var rest := Collect(outcomes[1..]);
      assert outcomes == [outcomes[0]] + outcomes[1..];
      match outcomes[0]
      case Crash => RelayOutcome([], true)
      case Skip => rest
      case Accept(packet) => RelayOutcome([packet] + rest.tunWrites, rest.crashed)
  }

  /** Each line handled on its own: with a fresh decoder, nothing from the lines before it. */
  function LineOutcomes(lines: seq<string>, decode: Decoder, open: Open): (r: seq<Handled<seq<byte>>>)
    ensures |r| == |lines|
  {
    seq(|lines|, i requires 0 <= i < |lines| => RelayLine(lines[i], decode, open))
  }

  /** The outcome of a line does not depend on the lines before it or after it. */
  lemma LineOutcomesAppend(a: seq<string>, b: seq<string>, decode: Decoder, open: Open)
    ensures LineOutcomes(a + b, decode, open) == LineOutcomes(a, decode, open) + LineOutcomes(b, decode, open)
  {
  }

  /** What one connection of the relay yields. */
  function RelayRun(lines: seq<string>, decode: Decoder, open: Open): (r: RelayOutcome)
    ensures r.crashed <==> exists i :: 0 <= i < |lines| && RelayLine(lines[i], decode, open).Crash?
    ensures |r.tunWrites| <= |lines|
  {
    var outcomes := LineOutcomes(lines, decode, open);
    assert forall i :: 0 <= i < |lines| ==> outcomes[i] == RelayLine(lines[i], decode, open);
    Collect(outcomes)
  }

  /** The relay's read loop over the lines of one connection. */
  method RelayConnection(lines: seq<string>, decode: Decoder, open: Open) returns (tunWrites: seq<seq<byte>>, crashed: bool)
    ensures RelayOutcome(tunWrites, crashed) == RelayRun(lines, decode, open)
  {
    ghost var outcomes := LineOutcomes(lines, decode, open);
    tunWrites, crashed := [], false;
    var i := 0;
    while i < |lines|
      invariant 0 <= i <= |lines|
      invariant Collect(outcomes) == RelayOutcome(tunWrites + Collect(outcomes[i..]).tunWrites, Collect(outcomes[i..]).crashed)
    {
      var handled := RelayLine(lines[i], decode, open);
      assert outcomes[i..][0] == handled;
      assert outcomes[i..][1..] == outcomes[i + 1..];
      if handled.Crash? {
        crashed := true;
        return;
      }
      if handled.Accept? {
        assert tunWrites + ([handled.value] + Collect(outcomes[i + 1..]).tunWrites)
            == (tunWrites + [handled.value]) + Collect(outcomes[i + 1..]).tunWrites;
        tunWrites := tunWrites + [handled.value];
      }
      i := i + 1;
    }
    assert outcomes[i..] == [];
    assert Collect(outcomes) == RelayRun(lines, decode, open);
  }

  lemma {:induction false} CollectAppend(a: seq<Handled<seq<byte>>>, b: seq<Handled<seq<byte>>>)
    requires !Collect(a).crashed
    ensures Collect(a + b) == RelayOutcome(Collect(a).tunWrites + Collect(b).tunWrites, Collect(b).crashed)
    decreases |a|
  {
    if a == [] {
      assert a + b == b;
    } else {
      var c := a + b;
      assert c[0] == a[0] && c[1..] == a[1..] + b;
      var rb := Collect(b);
      match a[0]
      case Skip =>
        CollectAppend(a[1..], b);
      case Accept(packet) =>
        CollectAppend(a[1..], b);
        var ra := Collect(a[1..]);
        assert [packet] + (ra.tunWrites + rb.tunWrites) == ([packet] + ra.tunWrites) + rb.tunWrites;
    }
  }

  /**
   * No decoder state carries from one line to the next: the lines after a
   * prefix that did not panic are handled as if the connection started there.
   */
  lemma RelayRunAppend(a: seq<string>, b: seq<string>, decode: Decoder, open: Open)
    requires !RelayRun(a, decode, open).crashed
    ensures RelayRun(a + b, decode, open) ==
      RelayOutcome(RelayRun(a, decode, open).tunWrites + RelayRun(b, decode, open).tunWrites, RelayRun(b, decode, open).crashed)
  {
    LineOutcomesAppend(a, b, decode, open);
    CollectAppend(LineOutcomes(a, decode, open), LineOutcomes(b, decode, open));
  }

  /**
   * End to end: when the relay's decoder recovers the padded envelope from
   * the symbol of a tank line, the relay writes exactly the tunnel packet.
   */
  lemma RelayDeliversTankLine(packet: seq<byte>, nonce: seq<byte>, encrypt: Encrypt, open: Open,
                              decode: Decoder, seqNo: u32, timestamp: u64, symbol: seq<byte>)
    requires OpensWhatItSeals(encrypt, open)
    requires |nonce| == NONCE_SIZE && NONCE_SIZE + |encrypt(nonce, packet)| < 0x1_0000
    requires decode(PACKET_TARGET_SIZE, [symbol]) == Some(TankPayload(nonce, encrypt(nonce, packet)))
    ensures RelayLine(SenderLine(seqNo, timestamp, symbol), decode, open) == Accept(packet)
  {
    SenderLineParses(seqNo, timestamp, symbol);
    RelayOpensPaddedFrame(nonce, packet, encrypt, open);
  }
}
