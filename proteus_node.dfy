/**
 * The streaming node of src/bin/proteus_node.rs: on every poll of its TCP
 * socket it re-listens after a close, sends the 8-byte transfer length once
 * per connection, and from then on streams `PROT:` followed by the same
 * serialised symbol. Whether a socket is open, whether it may send and
 * whether each `send_slice` succeeds are the inputs of each poll.
 */
module ProteusNode {
  import opened Bytes
  import opened Codec
  import opened Envelope
  import opened ClientShadow

  /** What one turn of the event loop observes of the socket. */
  datatype PollEvent = PollEvent(isOpen: bool, maySend: bool, firstSendOk: bool, secondSendOk: bool)

  /** The loop's variables, and the bytes the socket accepted on the current connection. */
  datatype NodeState = NodeState(handshakeSent: bool, packetCounter: i32, stream: seq<byte>)

  const INITIAL: NodeState := NodeState(false, 0, [])

  /** `total_blob_size.to_be_bytes()`. */
  function HandshakeBytes(size: u64): (r: seq<byte>)
    ensures |r| == 8
  {
    Pow256Widths();
    ToBe(size, 8)
  }

  /** The transfer length the shadow client reads from the handshake is the one the node sent. */
  lemma HandshakeRoundTrip(size: u64)
    ensures HandshakeValue(HandshakeBytes(size)) == size
  {
    Pow256Widths();
    var v := HandshakeValue(HandshakeBytes(size));
    ToBeInjective(v, size, 8);
  }

  /**
   * One turn of the loop. A closed socket resets both flags (the new
   * connection starts an empty stream); then, if the socket may send, either
   * the handshake is tried, or the marker and, only when it was accepted, the
   * symbol. The counter moves only when both were accepted.
   */
  function Step(s: NodeState, size: u64, unit: seq<byte>, e: PollEvent): (r: NodeState)
    ensures e.isOpen ==> s.stream <= r.stream
    ensures e.isOpen && r.packetCounter != s.packetCounter ==> e.maySend && e.firstSendOk && e.secondSendOk
  {
    var s1 := if !e.isOpen then INITIAL else s;
    if !e.maySend then s1
    else if !s1.handshakeSent then
      if e.firstSendOk then NodeState(true, s1.packetCounter, s1.stream + HandshakeBytes(size)) else s1
    else if !e.firstSendOk then s1
    else if !e.secondSendOk then s1.(stream := s1.stream + MARKER)
    else NodeState(true, WrapI32(s1.packetCounter + 1), s1.stream + MARKER + unit)
  }

  /** The state after the given turns, in order. */
  function Run(s: NodeState, size: u64, unit: seq<byte>, events: seq<PollEvent>): (r: NodeState)
    ensures (forall i :: 0 <= i < |events| ==> events[i].isOpen) ==> s.stream <= r.stream
    decreases |events|
  {
    if events == [] then s
    else Step(Run(s, size, unit, events[..|events| - 1]), size, unit, events[|events| - 1])
  }

  /** The node: its constant payload and its two loop variables. */
  class Node {
    const blob: seq<byte>
    const encode: Encoder
    const totalBlobSize: u64
    var handshakeSent: bool
    var packetCounter: i32
    var stream: seq<byte>

    ghost predicate Valid() {
      totalBlobSize == |blob| && YieldsPacket(encode, blob)
    }

    function State(): NodeState
      reads this
    {
      NodeState(handshakeSent, packetCounter, stream)
    }

    /** The serialised symbol every streamed unit carries. */
    function Unit(): seq<byte>
      requires Valid()
    {
      encode(blob, SYMBOL_SIZE, 1)[0]
    }

    /** The sealed blob, its length for the handshake, and fresh loop variables. */
    constructor (nonce: seq<byte>, ciphertext: seq<byte>, encode: Encoder)
      requires |nonce| == NONCE_SIZE
      requires |Seal(nonce, ciphertext)| < 0x1_0000_0000_0000_0000
      requires YieldsPacket(encode, Seal(nonce, ciphertext))
      ensures Valid() && blob == Seal(nonce, ciphertext) && this.encode == encode
      ensures State() == INITIAL
    {
      var b := nonce;
      b := b + ciphertext;
      blob := b;
      this.encode := encode;
      totalBlobSize := |b|;
      handshakeSent := false;
      packetCounter := 0;
      stream := [];
    }

    /** One turn of the event loop. */
    method Poll(e: PollEvent)
      requires Valid()
      modifies this
      ensures State() == Step(old(State()), totalBlobSize, Unit(), e)
    {
      if !e.isOpen {
        handshakeSent := false;
        packetCounter := 0;
        stream := [];
      }
      if e.maySend {
        if !handshakeSent {
          var sizeBytes := HandshakeBytes(totalBlobSize);
          if e.firstSendOk {
            stream := stream + sizeBytes;
            handshakeSent := true;
          }
        } else {
          var packets := encode(blob, SYMBOL_SIZE, 1);
          var data := packets[0];
          if e.firstSendOk {
            stream := stream + MARKER;
            if e.secondSendOk {
              stream := stream + data;
              packetCounter := WrapI32(packetCounter + 1);
            }
          }
        }
      }
    }

    /** The event loop over finitely many turns. */
    method EventLoop(events: seq<PollEvent>)
      requires Valid()
      modifies this
      ensures State() == Run(old(State()), totalBlobSize, Unit(), events)
    {
      var i := 0;
      while i < |events|
        invariant 0 <= i <= |events|
        invariant State() == Run(old(State()), totalBlobSize, Unit(), events[..i])
      {
        Poll(events[i]);
        assert events[..i + 1][..i] == events[..i];
        i := i + 1;
      }
      assert events[..|events|] == events;
    }
  }

  /** A poll on a closed socket forgets the whole past connection. */
  lemma ResetOnClose(s: NodeState, size: u64, unit: seq<byte>, e: PollEvent)
    requires !e.isOpen
    ensures Step(s, size, unit, e) == Step(INITIAL, size, unit, e)
    ensures !e.maySend ==> Step(s, size, unit, e) == INITIAL
  {
  }

  /**
   * The flags and the stream agree: before the handshake nothing was sent and
   * nothing counted; after it, the stream opens with the handshake.
   */
  ghost predicate Consistent(s: NodeState, size: u64) {
    if s.handshakeSent then |s.stream| >= 8 && s.stream[..8] == HandshakeBytes(size)
    else s.stream == [] && s.packetCounter == 0
  }

  lemma StepConsistent(s: NodeState, size: u64, unit: seq<byte>, e: PollEvent)
    requires Consistent(s, size)
    ensures Consistent(Step(s, size, unit, e), size)
  {
    var s1 := if !e.isOpen then INITIAL else s;
    var t := Step(s, size, unit, e);
    if s1.handshakeSent && e.maySend && e.firstSendOk {
      assert t.stream[..8] == s1.stream[..8];
    }
  }

  /** No marker or symbol byte precedes the handshake on any connection, whatever the socket does. */
  lemma {:induction false} RunConsistent(size: u64, unit: seq<byte>, events: seq<PollEvent>)
    ensures Consistent(Run(INITIAL, size, unit, events), size)
    decreases |events|
  {
    if events != [] {
      RunConsistent(size, unit, events[..|events| - 1]);
      StepConsistent(Run(INITIAL, size, unit, events[..|events| - 1]), size, unit, events[|events| - 1]);
    }
  }

  /**
   * The handshake flag is raised only by a poll whose handshake send
   * succeeded, and then the connection holds the handshake alone.
   */
  lemma HandshakeOnlyOnSuccess(s: NodeState, size: u64, unit: seq<byte>, e: PollEvent)
    requires Consistent(s, size) && (!s.handshakeSent || !e.isOpen)
    requires Step(s, size, unit, e).handshakeSent
    ensures e.maySend && e.firstSendOk
    ensures Step(s, size, unit, e) == NodeState(true, 0, HandshakeBytes(size))
  {
  }

  /** `n` copies of the same packet. */
  function Repeat(unit: seq<byte>, n: nat): (r: seq<seq<byte>>)
    ensures |r| == n && forall i :: 0 <= i < n ==> r[i] == unit
  {
    if n == 0 then [] else Repeat(unit, n - 1) + [unit]
  }

  lemma {:induction false} UnitsSnoc(packets: seq<seq<byte>>, p: seq<byte>)
    ensures Units(packets + [p]) == Units(packets) + MARKER + p
    decreases |packets|
  {
    if packets == [] {
      assert Units([p]) == MARKER + p + Units([]);
    } else {
      assert (packets + [p])[1..] == packets[1..] + [p];
      UnitsSnoc(packets[1..], p);
    }
  }

  /**
   * A connection where every accepted marker was followed by its symbol: the
   * stream is the handshake and `k` whole units, and the counter is `k`
   * modulo the i32 wrap.
   */
  ghost predicate Clean(s: NodeState, size: u64, unit: seq<byte>, k: nat) {
    if s.handshakeSent then s.stream == HandshakeBytes(size) + Units(Repeat(unit, k)) && s.packetCounter == WrapI32(k)
    else s.stream == [] && s.packetCounter == 0 && k == 0
  }

  /** The number of units a clean run has streamed on its current connection. */
  function CleanCount(s: NodeState, e: PollEvent, k: nat): nat {
    var k1 := if !e.isOpen then 0 else k;
    if s.handshakeSent && e.isOpen && e.maySend && e.firstSendOk && e.secondSendOk then k1 + 1 else k1
  }

  lemma StepClean(s: NodeState, size: u64, unit: seq<byte>, e: PollEvent, k: nat)
    requires Clean(s, size, unit, k)
    requires e.firstSendOk ==> e.secondSendOk
    ensures Clean(Step(s, size, unit, e), size, unit, CleanCount(s, e, k))
  {
    var s1 := if !e.isOpen then INITIAL else s;
    var k1 := if !e.isOpen then 0 else k;
    assert Clean(s1, size, unit, k1) by {
      if !e.isOpen {
        assert Repeat(unit, 0) == [];
      }
    }
    if e.maySend && s1.handshakeSent && e.firstSendOk {
      UnitsSnoc(Repeat(unit, k1), unit);
      WrapI32Succ(k1);
      assert Repeat(unit, k1 + 1) == Repeat(unit, k1) + [unit];
      assert s1.stream + MARKER + unit == HandshakeBytes(size) + Units(Repeat(unit, k1 + 1));
    } else if e.maySend && !s1.handshakeSent && e.firstSendOk {
      assert Units(Repeat(unit, 0)) == [];
      assert s1.stream + HandshakeBytes(size) == HandshakeBytes(size) + Units(Repeat(unit, 0));
    }
  }

  /** Every accepted marker was followed by its symbol. */
  predicate NoLoneMarker(events: seq<PollEvent>) {
    forall i :: 0 <= i < |events| ==> events[i].firstSendOk ==> events[i].secondSendOk
  }

  /** The units streamed on the current connection of a run without lone markers. */
  function UnitsStreamed(size: u64, unit: seq<byte>, events: seq<PollEvent>): nat
    decreases |events|
  {
    if events == [] then 0
    else
      var before := events[..|events| - 1];
      CleanCount(Run(INITIAL, size, unit, before), events[|events| - 1], UnitsStreamed(size, unit, before))
  }

  /** Without lone markers, every connection carries the handshake and whole units only. */
  lemma {:induction false} RunClean(size: u64, unit: seq<byte>, events: seq<PollEvent>)
    requires NoLoneMarker(events)
    ensures Clean(Run(INITIAL, size, unit, events), size, unit, UnitsStreamed(size, unit, events))
    decreases |events|
  {
    if events == [] {
    } else {
      var before := events[..|events| - 1];
      assert NoLoneMarker(before) by {
        forall i | 0 <= i < |before|
          ensures before[i].firstSendOk ==> before[i].secondSendOk
        {
          assert before[i] == events[i];
        }
      }
      RunClean(size, unit, before);
      StepClean(Run(INITIAL, size, unit, before), size, unit, events[|events| - 1], UnitsStreamed(size, unit, before));
    }
  }

  /**
   * The shadow client reads a clean stream back: the handshake gives the
   * transfer length, and the reframing gives every unit's packet, in order,
   * with nothing left over.
   */
  lemma CleanStreamReadsBack(s: NodeState, size: u64, unit: seq<byte>, k: nat)
    requires Clean(s, size, unit, k) && s.handshakeSent
    requires |unit| == RAPTOR_PACKET_LEN
    ensures HandshakeValue(s.stream[..8]) == size
    ensures Reframe(s.stream[8..]) == Split(Repeat(unit, k), [])
  {
    assert s.stream[..8] == HandshakeBytes(size);
    assert s.stream[8..] == Units(Repeat(unit, k));
    HandshakeRoundTrip(size);
    ReframeUnits(Repeat(unit, k));
  }

  /**
   * A marker accepted without its symbol shifts the framing: when the next
   * unit goes through whole, the frame the client cuts after the lone marker
   * begins with the next marker and loses the last five bytes of the packet.
   */
  lemma LoneMarkerMisframes(s: NodeState, size: u64, unit: seq<byte>)
    requires s.handshakeSent && |unit| == RAPTOR_PACKET_LEN
    ensures var t := Step(Step(s, size, unit, PollEvent(true, true, true, false)), size, unit, PollEvent(true, true, true, true));
      t.packetCounter == WrapI32(s.packetCounter + 1) &&
      t.stream == s.stream + (MARKER + (MARKER + unit)) &&
      Reframe(t.stream[|s.stream|..]).frames[0] == MARKER + unit[..RAPTOR_PACKET_LEN - 5]
  {
    var t := Step(Step(s, size, unit, PollEvent(true, true, true, false)), size, unit, PollEvent(true, true, true, true));
    assert t.stream == s.stream + (MARKER + (MARKER + unit));
    assert t.stream[|s.stream|..] == MARKER + (MARKER + unit);
    LoneMarkerShiftsFrame(unit);
  }
}
