/**
 * The envelope that carries one encrypted message through the fountain code:
 * the sealed blob (24-byte nonce, then ciphertext) behind a two-byte
 * big-endian length, optionally padded with zeros to 400 bytes; and the two
 * receiving ends that unwrap it again (the stealth receiver, which skips bad
 * input, and the relay, which panics on a decoded object shorter than two bytes).
 */
module Envelope {
  import opened Bytes
  import opened Wrappers
  import opened Codec

  /** Length of an XChaCha20-Poly1305 nonce. */
  const NONCE_SIZE: nat := 24
  /** `PACKET_TARGET_SIZE` of src/bin/proteus.rs. */
  const PACKET_TARGET_SIZE: nat := 400

  /** `nonce.to_vec()` extended with the ciphertext. */
  function Seal(nonce: seq<byte>, ciphertext: seq<byte>): (blob: seq<byte>)
    requires |nonce| == NONCE_SIZE
    ensures |blob| == NONCE_SIZE + |ciphertext|
    ensures blob[..NONCE_SIZE] == nonce && blob[NONCE_SIZE..] == ciphertext
  {
    nonce + ciphertext
  }

  /** `split_at(24)`: None stands for the panic on a shorter slice. */
  function SplitNonce(payload: seq<byte>): (r: Option<(seq<byte>, seq<byte>)>)
    ensures r.None? <==> |payload| < NONCE_SIZE
    ensures r.Some? ==> |r.value.0| == NONCE_SIZE && r.value.0 + r.value.1 == payload
  {
    if |payload| < NONCE_SIZE then None else Some((payload[..NONCE_SIZE], payload[NONCE_SIZE..]))
  }

  /** `(n as u16).to_be_bytes()`: the length is taken modulo 2^16. */
  function LengthPrefix(n: nat): (r: seq<byte>)
    ensures |r| == 2 && FromBe(r) == n % 0x1_0000
  {
    Pow256Widths();
    FromBeToBe(WrapU16(n), 2);
    ToBe(WrapU16(n), 2)
  }

  /** The unpadded envelope: length prefix, then the blob. */
  function Frame(blob: seq<byte>): (r: seq<byte>)
    ensures |r| == 2 + |blob|
    ensures FromBe(r[..2]) == |blob| % 0x1_0000 && r[2..] == blob
  {
    LengthPrefix(|blob|) + blob
  }

  function Zeros(n: nat): (r: seq<byte>)
    ensures |r| == n && forall i :: 0 <= i < n ==> r[i] == 0
  {
    seq(n, _ => 0)
  }

  /** Zero padding up to `PACKET_TARGET_SIZE`; a longer payload is left as it is. */
  function PadToTarget(payload: seq<byte>): (r: seq<byte>)
    ensures |r| == if |payload| < PACKET_TARGET_SIZE then PACKET_TARGET_SIZE else |payload|
    ensures r[..|payload|] == payload
    ensures forall i :: |payload| <= i < |r| ==> r[i] == 0
  {
    if |payload| < PACKET_TARGET_SIZE then payload + Zeros(PACKET_TARGET_SIZE - |payload|) else payload
  }

  /**
   * The stealth receiver's unwrap: None (the loop continues) when fewer than
   * two bytes arrived or fewer than the declared length follow them;
   * otherwise exactly the declared number of bytes after the prefix.
   */
  function Unwrap(decoded: seq<byte>): (r: Option<seq<byte>>)
    ensures r.None? <==> |decoded| < 2 || |decoded| < 2 + FromBe(decoded[..2])
    ensures r.Some? ==> 2 + |r.value| <= |decoded| && FromBe(decoded[..2]) == |r.value|
    ensures r.Some? ==> r.value == decoded[2..2 + |r.value|]
  {
    if |decoded| < 2 then None
    else
      var len := FromBe(decoded[..2]);
      if |decoded| < 2 + len then None else Some(decoded[2..2 + len])
  }

  /** The relay's unwrap: the same, except that reading the prefix of a shorter object panics. */
  function RelayUnwrap(decoded: seq<byte>): (r: Handled<seq<byte>>)
    ensures r.Crash? <==> |decoded| < 2
    ensures |decoded| >= 2 ==> (r.Accept? <==> Unwrap(decoded).Some?)
    ensures r.Accept? ==> Unwrap(decoded) == Some(r.value)
  {
    if |decoded| < 2 then Crash
    else
      var len := FromBe(decoded[..2]);
      if |decoded| >= 2 + len then Accept(decoded[2..2 + len]) else Skip
  }

  /** Split off the nonce and open the rest: a panic below 24 bytes, a skip when authentication fails. */
  function OpenPayload(payload: seq<byte>, open: Open): (r: Handled<seq<byte>>)
    ensures r.Crash? <==> |payload| < NONCE_SIZE
    ensures r.Accept? ==> open(payload[..NONCE_SIZE], payload[NONCE_SIZE..]) == Some(r.value)
    ensures r.Skip? ==> open(payload[..NONCE_SIZE], payload[NONCE_SIZE..]).None?
  {
    match SplitNonce(payload)
    case None => Crash
    case Some((nonce, ciphertext)) =>
      match open(nonce, ciphertext)
      case Some(message) => Accept(message)
      case None => Skip
  }

  /** What the stealth receiver does with a decoded object. */
  function ReceiverUnseal(decoded: seq<byte>, open: Open): (r: Handled<seq<byte>>)
    ensures r.Crash? <==> Unwrap(decoded).Some? && |Unwrap(decoded).value| < NONCE_SIZE
    ensures r.Accept? ==>
      && Unwrap(decoded).Some?
      && open(Unwrap(decoded).value[..NONCE_SIZE], Unwrap(decoded).value[NONCE_SIZE..]) == Some(r.value)
  {
    match Unwrap(decoded)
    case None => Skip
    case Some(payload) => OpenPayload(payload, open)
  }

  /** What the relay does with a decoded object. */
  function RelayUnseal(decoded: seq<byte>, open: Open): (r: Handled<seq<byte>>)
    ensures |decoded| < 2 ==> r.Crash?
    ensures |decoded| >= 2 ==> r == ReceiverUnseal(decoded, open)
  {
    match RelayUnwrap(decoded)
    case Accept(payload) => OpenPayload(payload, open)
    case Skip => Skip
    case Crash => Crash
  }

  /** The nonce split undoes the sealing. */
  lemma SplitSeal(nonce: seq<byte>, ciphertext: seq<byte>)
    requires |nonce| == NONCE_SIZE
    ensures SplitNonce(Seal(nonce, ciphertext)) == Some((nonce, ciphertext))
  {
    var blob := Seal(nonce, ciphertext);
    assert blob[..NONCE_SIZE] == nonce;
  }

  /** Unwrap inverts the envelope, whatever follows it, as long as the length fits in 16 bits. */
  lemma UnwrapFrame(blob: seq<byte>, tail: seq<byte>)
    requires |blob| < 0x1_0000
    ensures Unwrap(Frame(blob) + tail) == Some(blob)
  {
    var d := Frame(blob) + tail;
    assert d[..2] == Frame(blob)[..2];
    assert d[2..2 + |blob|] == blob;
  }

  /** With a longer blob the prefix wraps and unwrap returns only its first |blob| mod 2^16 bytes. */
  lemma UnwrapFrameWraps(blob: seq<byte>)
    ensures Unwrap(Frame(blob)) == Some(blob[..|blob| % 0x1_0000])
  {
    var d := Frame(blob);
    var len := |blob| % 0x1_0000;
    assert d[2..2 + len] == blob[..len];
  }

  lemma PadToTargetAppends(payload: seq<byte>)
    ensures PadToTarget(payload) == payload + Zeros(|PadToTarget(payload)| - |payload|)
  {
    var r := PadToTarget(payload);
    assert r == r[..|payload|] + r[|payload|..];
  }

  /** The padding does not disturb the unwrap. */
  lemma UnwrapPadded(blob: seq<byte>)
    requires |blob| < 0x1_0000
    ensures Unwrap(PadToTarget(Frame(blob))) == Some(blob)
    ensures RelayUnwrap(PadToTarget(Frame(blob))) == Accept(blob)
  {
    PadToTargetAppends(Frame(blob));
    UnwrapFrame(blob, Zeros(|PadToTarget(Frame(blob))| - |Frame(blob)|));
  }

  /** The padded envelope is exactly 400 bytes when the blob has at most 398 bytes, and unpadded otherwise. */
  lemma PaddedSize(blob: seq<byte>)
    ensures |PadToTarget(Frame(blob))| == PACKET_TARGET_SIZE <==> |blob| <= PACKET_TARGET_SIZE - 2
    ensures |blob| > PACKET_TARGET_SIZE - 2 ==> PadToTarget(Frame(blob)) == Frame(blob)
  {
  }

  /** On objects of at least two bytes the two receiving ends accept the same payloads. */
  lemma UnwrapsAgree(decoded: seq<byte>, open: Open)
    requires |decoded| >= 2
    ensures RelayUnwrap(decoded).Accept? <==> Unwrap(decoded).Some?
    ensures Unwrap(decoded).Some? ==> RelayUnwrap(decoded).value == Unwrap(decoded).value
    ensures RelayUnseal(decoded, open) == ReceiverUnseal(decoded, open)
  {
  }

  /** A declared length below 24 makes the nonce split panic instead of being skipped. */
  lemma ShortPayloadPanics(decoded: seq<byte>, open: Open)
    requires Unwrap(decoded).Some? && |Unwrap(decoded).value| < NONCE_SIZE
    ensures ReceiverUnseal(decoded, open) == Crash
    ensures RelayUnseal(decoded, open) == Crash
  {
  }

  /** An example: a two-byte object declaring length 0 passes the unwrap and then panics. */
  lemma EmptyDeclaredLengthPanics(open: Open)
    ensures Unwrap([0, 0]) == Some([])
    ensures ReceiverUnseal([0, 0], open) == Crash
  {
    assert FromBe([0, 0]) == 0 by {
      assert [0, 0][..1] == [0];
      assert [0][..0] == [];
    }
  }

  /** End to end: the stealth receiver recovers the message sealed and framed by the sender. */
  lemma ReceiverOpensFrame(nonce: seq<byte>, message: seq<byte>, tail: seq<byte>, encrypt: Encrypt, open: Open)
    requires OpensWhatItSeals(encrypt, open)
    requires |nonce| == NONCE_SIZE && NONCE_SIZE + |encrypt(nonce, message)| < 0x1_0000
    ensures ReceiverUnseal(Frame(Seal(nonce, encrypt(nonce, message))) + tail, open) == Accept(message)
  {
    var blob := Seal(nonce, encrypt(nonce, message));
    UnwrapFrame(blob, tail);
    SplitSeal(nonce, encrypt(nonce, message));
  }

  /** End to end: the relay recovers the message sealed, framed and padded by the tank client. */
  lemma RelayOpensPaddedFrame(nonce: seq<byte>, message: seq<byte>, encrypt: Encrypt, open: Open)
    requires OpensWhatItSeals(encrypt, open)
    requires |nonce| == NONCE_SIZE && NONCE_SIZE + |encrypt(nonce, message)| < 0x1_0000
    ensures RelayUnseal(PadToTarget(Frame(Seal(nonce, encrypt(nonce, message)))), open) == Accept(message)
  {
    var blob := Seal(nonce, encrypt(nonce, message));
    UnwrapPadded(blob);
    SplitSeal(nonce, encrypt(nonce, message));
  }
}
