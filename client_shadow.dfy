/**
 * The client of src/bin/client_shadow.rs: after an 8-byte handshake that
 * announces the transfer length, it appends every read to an accumulator,
 * cuts out fixed-length frames that start with the `PROT:` marker, feeds the
 * packets to one decoder, and prints the opened message up to its first zero
 * byte.
 */
module ClientShadow {
  import opened Bytes
  import opened Wrappers
  import opened Search
  import opened Codec
  import opened Envelope

  /** The marker `PROT:` in ASCII. */
  const MARKER: seq<byte> := [80, 82, 79, 84, 58]
  /** A serialised packet: a 4-byte payload id, then a 512-byte symbol. */
  const RAPTOR_PACKET_LEN: nat := 4 + SYMBOL_SIZE
  /** The marker and the packet it announces. */
  const TOTAL_FRAME_LEN: nat := 5 + RAPTOR_PACKET_LEN

  lemma FrameLength()
    ensures |MARKER| == 5 && TOTAL_FRAME_LEN == 521
  {
  }

  /** The transfer length announced by the handshake: the big-endian u64 of its 8 bytes. */
  function HandshakeValue(sizeBuffer: seq<byte>): (size: u64)
    requires |sizeBuffer| == 8
    ensures ToBe(size, 8) == sizeBuffer
  {
    Pow256Widths();
    ToBeFromBe(sizeBuffer);
    FromBe(sizeBuffer)
  }

  /** The frames the reframing loop cuts from an accumulator, and what it leaves there. */
  datatype Split = Split(frames: seq<seq<byte>>, rest: seq<byte>)

  /**
   * Repeatedly: find the first marker; stop, keeping everything, when there
   * is none or the frame behind it is incomplete; otherwise take the packet
   * after the marker and drop everything up to the end of the frame.
   */
  function Reframe(acc: seq<byte>): (r: Split)
    ensures |r.frames| * 521 + |r.rest| <= |acc|
    decreases |acc|
  {
    var found := Find(acc, MARKER);
    if found.None? || |acc| < found.value + TOTAL_FRAME_LEN then Split([], acc)
    else
      var tail := Reframe(acc[found.value + TOTAL_FRAME_LEN..]);
      Split([acc[found.value + 5..found.value + TOTAL_FRAME_LEN]] + tail.frames, tail.rest)
  }

  /**
   * How reading the bytes read so far ends: still streaming, the printed
   * message, or a panic of the nonce split.
   */
  datatype ShadowStatus = Streaming | Shown(message: seq<byte>) | Panicked

  datatype ScanResult = ScanResult(accumulator: seq<byte>, fed: seq<seq<byte>>, status: ShadowStatus)

  /**
   * The reframing loop with the decoder in it: each packet cut out is fed;
   * a recovered object shorter than 24 bytes panics, one that opens is shown
   * and ends the program, one that does not open is dropped like a packet
   * that did not complete the decoding.
   */
  function ScanFrom(acc: seq<byte>, fed: seq<seq<byte>>, transferLength: u64, decode: Decoder, open: Open): (r: ScanResult)
    ensures fed <= r.fed && (|r.fed| - |fed|) * 521 <= |acc|
    decreases |acc|
  {
    var found := Find(acc, MARKER);
    if found.None? || |acc| < found.value + TOTAL_FRAME_LEN then ScanResult(acc, fed, Streaming)
    else
      var fed' := fed + [acc[found.value + 5..found.value + TOTAL_FRAME_LEN]];
      var drained := acc[found.value + TOTAL_FRAME_LEN..];
      var decoded := decode(transferLength, fed');
      if decoded.None? then ScanFrom(drained, fed', transferLength, decode, open)
      else
        var split := SplitNonce(decoded.value);
        if split.None? then ScanResult(acc, fed', Panicked)
        else
          var message := open(split.value.0, split.value.1);
          if message.Some? then ScanResult(acc, fed', Shown(TrimAtNul(message.value)))
          else ScanFrom(drained, fed', transferLength, decode, open)
  }

  /** `take_while(x != 0)`: the longest prefix without a zero byte. */
  function TrimAtNul(m: seq<byte>): (r: seq<byte>)
    ensures |r| <= |m| && r == m[..|r|]
    ensures 0 !in r
    ensures |r| < |m| ==> m[|r|] == 0
  {
    if m == [] || m[0] == 0 then []
    else
      var t := TrimAtNul(m[1..]);
      assert [m[0]] + t == m[..|t| + 1];
      [m[0]] + t
  }

  /** The client's state between reads. */
  class ShadowClient {
    const transferLength: u64
    var accumulator: seq<byte>
    var fed: seq<seq<byte>>
    var status: ShadowStatus

    /** After the handshake: a decoder for the announced length, an empty accumulator. */
    constructor (sizeBuffer: seq<byte>)
      requires |sizeBuffer| == 8
      ensures transferLength == HandshakeValue(sizeBuffer)
      ensures accumulator == [] && fed == [] && status == Streaming
    {
      transferLength := HandshakeValue(sizeBuffer);
      accumulator := [];
      fed := [];
      status := Streaming;
    }

    /** One successful read of `chunk`, followed by the reframing loop. */
    method OnRead(chunk: seq<byte>, decode: Decoder, open: Open)
      requires status == Streaming
      modifies this
      ensures ScanResult(accumulator, fed, status) == ScanFrom(old(accumulator) + chunk, old(fed), transferLength, decode, open)
    {
      accumulator := accumulator + chunk;
      ghost var start := accumulator;
      while true
        invariant status == Streaming
        invariant ScanFrom(start, old(fed), transferLength, decode, open) == ScanFrom(accumulator, fed, transferLength, decode, open)
        decreases |accumulator|
      {
        var found := Find(accumulator, MARKER);
        if found.None? {
          return;
        }
        var pos := found.value;
        if |accumulator| < pos + TOTAL_FRAME_LEN {
          return;
        }
        var packetBytes := accumulator[pos + 5..pos + TOTAL_FRAME_LEN];
        fed := fed + [packetBytes];
        var decoded := decode(transferLength, fed);
        if decoded.Some? {
          var split := SplitNonce(decoded.value);
          if split.None? {
            status := Panicked;
            return;
          }
          var plaintext := open(split.value.0, split.value.1);
          if plaintext.Some? {
            status := Shown(TrimAtNul(plaintext.value));
            return;
          }
        }
        accumulator := accumulator[pos + TOTAL_FRAME_LEN..];
      }
    }
  }

  /** Whether the accumulator holds a marker followed by a complete frame. */
  predicate HasFrame(acc: seq<byte>) {
    var found := Find(acc, MARKER);
    found.Some? && |acc| >= found.value + TOTAL_FRAME_LEN
  }

  /** Without a complete frame the loop stops at once and keeps everything. */
  lemma NoFrame(acc: seq<byte>, fed: seq<seq<byte>>, transferLength: u64, decode: Decoder, open: Open)
    requires !HasFrame(acc)
    ensures Reframe(acc) == Split([], acc)
    ensures ScanFrom(acc, fed, transferLength, decode, open) == ScanResult(acc, fed, Streaming)
  {
  }

  /** One turn of the reframing loop over a complete frame at `pos`. */
  lemma ReframeStep(acc: seq<byte>, pos: nat)
    requires Find(acc, MARKER) == Some(pos) && |acc| >= pos + TOTAL_FRAME_LEN
    ensures Reframe(acc) == Split([acc[pos + 5..pos + TOTAL_FRAME_LEN]] + Reframe(acc[pos + TOTAL_FRAME_LEN..]).frames, Reframe(acc[pos + TOTAL_FRAME_LEN..]).rest)
  {
    var found := Find(acc, MARKER);
    assert !(found.None? || |acc| < found.value + TOTAL_FRAME_LEN);
    var tail := Reframe(acc[found.value + TOTAL_FRAME_LEN..]);
    assert Reframe(acc) == Split([acc[found.value + 5..found.value + TOTAL_FRAME_LEN]] + tail.frames, tail.rest);
  }

  /** One turn of the decoding loop that goes on streaming moves on to the bytes after the frame. */
  lemma ScanStep(acc: seq<byte>, pos: nat, fed: seq<seq<byte>>, transferLength: u64, decode: Decoder, open: Open)
    requires Find(acc, MARKER) == Some(pos) && |acc| >= pos + TOTAL_FRAME_LEN
    requires ScanFrom(acc, fed, transferLength, decode, open).status == Streaming
    ensures ScanFrom(acc, fed, transferLength, decode, open)
         == ScanFrom(acc[pos + TOTAL_FRAME_LEN..], fed + [acc[pos + 5..pos + TOTAL_FRAME_LEN]], transferLength, decode, open)
  {
    var fed' := fed + [acc[pos + 5..pos + TOTAL_FRAME_LEN]];
    var decoded := decode(transferLength, fed');
    if decoded.Some? {
      var split := SplitNonce(decoded.value);
      assert split.Some?;
      assert open(split.value.0, split.value.1).None?;
    }
  }

  /**
   * While nothing has been shown and nothing has panicked, the loop has fed
   * exactly the frames of the accumulator and left exactly its rest.
   */
  lemma {:induction false} ScanStreaming(acc: seq<byte>, fed: seq<seq<byte>>, transferLength: u64, decode: Decoder, open: Open)
    requires ScanFrom(acc, fed, transferLength, decode, open).status == Streaming
    ensures ScanFrom(acc, fed, transferLength, decode, open) == ScanResult(Reframe(acc).rest, fed + Reframe(acc).frames, Streaming)
    decreases |acc|
  {
    if HasFrame(acc) {
      var pos := Find(acc, MARKER).value;
      var frame := acc[pos + 5..pos + TOTAL_FRAME_LEN];
      var drained := acc[pos + TOTAL_FRAME_LEN..];
      ScanStep(acc, pos, fed, transferLength, decode, open);
      ReframeStep(acc, pos);
      ScanStreaming(drained, fed + [frame], transferLength, decode, open);
      assert fed + [frame] + Reframe(drained).frames == fed + ([frame] + Reframe(drained).frames);
    } else {
      NoFrame(acc, fed, transferLength, decode, open);
    }
  }

  /**
   * The reframing does not depend on how the stream is cut into reads: the
   * frames of `a + b` are the frames of `a`, then those of what `a` left
   * followed by `b`.
   */
  lemma {:induction false} ReframeAppend(a: seq<byte>, b: seq<byte>)
    ensures Reframe(a + b) == Split(Reframe(a).frames + Reframe(Reframe(a).rest + b).frames, Reframe(Reframe(a).rest + b).rest)
    decreases |a|
  {
    if HasFrame(a) {
      var pos := Find(a, MARKER).value;
      FindExtend(a, b, MARKER);
      var frame := a[pos + 5..pos + TOTAL_FRAME_LEN];
      var drained := a[pos + TOTAL_FRAME_LEN..];
      assert (a + b)[pos + 5..pos + TOTAL_FRAME_LEN] == frame;
      assert (a + b)[pos + TOTAL_FRAME_LEN..] == drained + b;
      ReframeStep(a, pos);
      ReframeStep(a + b, pos);
      ReframeAppend(drained, b);
      ConsAppend(frame, Reframe(drained).frames, Reframe(Reframe(drained).rest + b).frames);
    } else {
      NoFrame(a, [], 0, (n, f) => None, (n, c) => None);
      assert [] + Reframe(a + b).frames == Reframe(a + b).frames;
    }
  }

  lemma ConsAppend<T>(x: T, u: seq<T>, v: seq<T>)
    ensures [x] + (u + v) == ([x] + u) + v
  {
  }

  /**
   * What the loop leaves in the accumulator is a suffix of it: the junk before
   * a marker goes only together with a frame, and a partial frame stays.
   */
  lemma {:induction false} ReframeRest(acc: seq<byte>)
    ensures |Reframe(acc).rest| <= |acc| && Reframe(acc).rest == acc[|acc| - |Reframe(acc).rest|..]
    decreases |acc|
  {
    if HasFrame(acc) {
      var pos := Find(acc, MARKER).value;
      var drained := acc[pos + TOTAL_FRAME_LEN..];
      ReframeStep(acc, pos);
      ReframeRest(drained);
      var rest := Reframe(drained).rest;
      assert Reframe(acc).rest == rest;
      SuffixOfDrop(acc, pos + TOTAL_FRAME_LEN, |rest|);
    } else {
      NoFrame(acc, [], 0, (n, f) => None, (n, c) => None);
    }
  }

  lemma SuffixOfDrop<T>(s: seq<T>, k: nat, n: nat)
    requires k <= |s| && n <= |s| - k
    ensures s[k..][|s| - k - n..] == s[|s| - n..]
  {
  }

  /** Every frame cut out holds exactly one serialised packet. */
  lemma {:induction false} ReframeFrameSize(acc: seq<byte>)
    ensures forall i :: 0 <= i < |Reframe(acc).frames| ==> |Reframe(acc).frames[i]| == RAPTOR_PACKET_LEN
    decreases |acc|
  {
    if HasFrame(acc) {
      var pos := Find(acc, MARKER).value;
      var drained := acc[pos + TOTAL_FRAME_LEN..];
      ReframeStep(acc, pos);
      ReframeFrameSize(drained);
    } else {
      NoFrame(acc, [], 0, (n, f) => None, (n, c) => None);
    }
  }

  /** A stream that starts with the marker has its first marker at 0. */
  lemma MarkerFirst(post: seq<byte>)
    ensures Find(MARKER + post, MARKER) == Some(0)
  {
    assert MARKER + post == [] + MARKER + post;
    FindAfter([], MARKER, post);
  }

  /** The stream of a sender that wrote every marker together with its packet. */
  function Units(packets: seq<seq<byte>>): seq<byte>
    decreases |packets|
  {
    if packets == [] then [] else MARKER + packets[0] + Units(packets[1..])
  }

  /** Such a stream is cut back into exactly the packets that were sent, whatever bytes they hold. */
  lemma {:induction false} ReframeUnits(packets: seq<seq<byte>>)
    requires forall i :: 0 <= i < |packets| ==> |packets[i]| == RAPTOR_PACKET_LEN
    ensures Reframe(Units(packets)) == Split(packets, [])
    decreases |packets|
  {
    if packets == [] {
      assert Find([], MARKER) == None by { FindShort([], MARKER); }
    } else {
      var s := Units(packets);
      assert s == MARKER + (packets[0] + Units(packets[1..]));
      MarkerFirst(packets[0] + Units(packets[1..]));
      assert s[5..TOTAL_FRAME_LEN] == packets[0];
      assert s[TOTAL_FRAME_LEN..] == Units(packets[1..]);
      ReframeUnits(packets[1..]);
      assert [packets[0]] + packets[1..] == packets;
    }
  }

  /**
   * A marker sent without its packet shifts the framing: the next frame is
   * taken right after the lone marker and swallows the following marker.
   */
  lemma LoneMarkerShiftsFrame(packet: seq<byte>)
    requires |packet| == RAPTOR_PACKET_LEN
    ensures Reframe(MARKER + (MARKER + packet)).frames[0] == MARKER + packet[..RAPTOR_PACKET_LEN - 5]
  {
    var s := MARKER + (MARKER + packet);
    MarkerFirst(MARKER + packet);
    FirstFrame(s);
    FrameAfterMarker(MARKER, packet);
  }

  /** A stream whose first marker opens a complete frame yields that frame first. */
  lemma FirstFrame(s: seq<byte>)
    requires Find(s, MARKER) == Some(0) && |s| >= TOTAL_FRAME_LEN
    ensures |Reframe(s).frames| > 0 && Reframe(s).frames[0] == s[5..TOTAL_FRAME_LEN]
  {
    ReframeStep(s, 0);
  }

  lemma FrameAfterMarker(m: seq<byte>, packet: seq<byte>)
    requires |m| == 5 && |packet| == RAPTOR_PACKET_LEN
    ensures (MARKER + (m + packet))[5..TOTAL_FRAME_LEN] == m + packet[..RAPTOR_PACKET_LEN - 5]
  {
  }

  /** Zero padding after a message without zero bytes is exactly what the trim removes. */
  lemma {:induction false} TrimAtNulRemovesPadding(m: seq<byte>, k: nat)
    requires 0 !in m
    ensures TrimAtNul(m + Zeros(k)) == m
    decreases |m|
  {
    if m == [] {
      assert m + Zeros(k) == Zeros(k);
      if k > 0 {
        assert Zeros(k)[0] == 0;
      }
    } else {
      assert (m + Zeros(k))[1..] == m[1..] + Zeros(k);
      TrimAtNulRemovesPadding(m[1..], k);
    }
  }
}
