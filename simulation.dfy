/**
 * The end-to-end demonstration of src/bin/simulation.rs: seal a message,
 * fountain-code the blob into 4-byte symbols with 50% repair overhead, drop
 * each packet on a coin flip, feed the survivors to a decoder until it
 * recovers the object, and open it again. The coin flips, the codec and the
 * AEAD are parameters.
 */
module Simulation {
  import opened Bytes
  import opened Wrappers
  import opened Codec
  import opened Envelope

  /** The symbol size the demonstration forces, to get many packets. */
  const PACKET_SIZE: nat := 4

  /** ceil(|blob| / 4): the least number of 4-byte symbols that cover the blob. */
  function SourceCount(blobLen: nat): (r: nat)
    ensures r * PACKET_SIZE >= blobLen
    ensures r == 0 || (r - 1) * PACKET_SIZE < blobLen
  {
    (blobLen + PACKET_SIZE - 1) / PACKET_SIZE
  }

  /** Half the source count, rounded down by the cast back to an integer. */
  function RepairCount(sourceCount: nat): (r: nat)
    ensures 2 * r <= sourceCount < 2 * r + 2
  {
    sourceCount / 2
  }

  /** The repair count passed to the encoder: the source count plus half of it, rounded down. */
  function TotalPackets(blobLen: nat): (r: nat)
    ensures 2 * r <= 3 * SourceCount(blobLen) < 2 * r + 2
  {
    SourceCount(blobLen) + RepairCount(SourceCount(blobLen))
  }

  /** The packets that survive the coin flips, `coin(i)` meaning packet `i` is dropped. */
  function Kept(packets: seq<seq<byte>>, coin: nat -> bool): (r: seq<seq<byte>>)
    ensures |r| + Dropped(|packets|, coin) == |packets|
    decreases |packets|
  {
    if packets == [] then []
    else
      var n := |packets| - 1;
      Kept(packets[..n], coin) + (if coin(n) then [] else [packets[n]])
  }

  /** How many of the first `n` coin flips drop their packet. */
  function Dropped(n: nat, coin: nat -> bool): (r: nat)
    ensures r <= n
  {
    if n == 0 then 0 else Dropped(n - 1, coin) + (if coin(n - 1) then 1 else 0)
  }

  /** The positions of the surviving packets among the first `n`. */
  function KeptIndices(n: nat, coin: nat -> bool): seq<nat> {
    if n == 0 then [] else KeptIndices(n - 1, coin) + (if coin(n - 1) then [] else [n - 1])
  }

  /**
   * The survivors form an order-preserving subsequence: survivor `k` is the
   * packet at position `KeptIndices(..)[k]`, and those positions strictly
   * increase (KeptIndicesOrdered).
   */
  lemma {:induction false} KeptIsSubsequence(packets: seq<seq<byte>>, coin: nat -> bool)
    ensures var idx := KeptIndices(|packets|, coin);
      && |idx| == |Kept(packets, coin)|
      && forall k :: 0 <= k < |idx| ==> idx[k] < |packets| && Kept(packets, coin)[k] == packets[idx[k]]
    decreases |packets|
  {
    if packets != [] {
      var n := |packets| - 1;
      var front := packets[..n];
      KeptIsSubsequence(front, coin);
      assert |front| == n;
      var prev := KeptIndices(n, coin);
      forall k | 0 <= k < |prev|
        ensures Kept(packets, coin)[k] == packets[prev[k]]
      {
        assert front[prev[k]] == packets[prev[k]];
      }
    }
  }

  /** The survivors' positions strictly increase, and a position is among them exactly when its coin kept it. */
  lemma {:induction false} KeptIndicesOrdered(n: nat, coin: nat -> bool)
    ensures var idx := KeptIndices(n, coin);
      && (forall k :: 0 <= k < |idx| ==> idx[k] < n)
      && (forall k, l :: 0 <= k < l < |idx| ==> idx[k] < idx[l])
      && (forall i :: 0 <= i < n ==> (i in idx <==> !coin(i)))
  {
    if n > 0 {
      KeptIndicesOrdered(n - 1, coin);
    }
  }

  /** The loss loop: every packet is either counted as lost or kept, in order. */
  method SimulateLoss(packets: seq<seq<byte>>, coin: nat -> bool) returns (received: seq<seq<byte>>, lostCount: nat)
    ensures received == Kept(packets, coin) && lostCount == Dropped(|packets|, coin)
    ensures lostCount + |received| == |packets|
  {
    received, lostCount := [], 0;
    for i := 0 to |packets|
      invariant received == Kept(packets[..i], coin)
      invariant lostCount == Dropped(i, coin)
    {
      assert packets[..i + 1][..i] == packets[..i];
      if coin(i) {
        lostCount := lostCount + 1;
      } else {
        received := received + [packets[i]];
      }
    }
    assert packets[..|packets|] == packets;
  }

  /** The decoder's first answer when it is fed `received[i..]` after `received[..i]`. */
  function FirstDecodeFrom(decode: Decoder, blobLen: nat, received: seq<seq<byte>>, i: nat): Option<seq<byte>>
    decreases |received| - i
  {
    if i >= |received| then None
    else if decode(blobLen, received[..i + 1]).Some? then decode(blobLen, received[..i + 1])
    else FirstDecodeFrom(decode, blobLen, received, i + 1)
  }

  /** The decoder's first answer over the whole sequence of survivors. */
  function FirstDecode(decode: Decoder, blobLen: nat, received: seq<seq<byte>>): (r: Option<seq<byte>>)
    ensures r.None? <==> forall k :: 0 < k <= |received| ==> decode(blobLen, received[..k]).None?
  {
    FirstDecodeFromSpec(decode, blobLen, received, 0);
    FirstDecodeFrom(decode, blobLen, received, 0)
  }

  lemma {:induction false} FirstDecodeFromSpec(decode: Decoder, blobLen: nat, received: seq<seq<byte>>, i: nat)
    requires i <= |received|
    ensures var r := FirstDecodeFrom(decode, blobLen, received, i);
      && (r.None? <==> forall k :: i < k <= |received| ==> decode(blobLen, received[..k]).None?)
      && (r.Some? ==>
            exists k :: i < k <= |received| && decode(blobLen, received[..k]) == r
              && forall j :: i < j < k ==> decode(blobLen, received[..j]).None?)
    decreases |received| - i
  {
    if i < |received| && decode(blobLen, received[..i + 1]).None? {
      FirstDecodeFromSpec(decode, blobLen, received, i + 1);
      var r := FirstDecodeFrom(decode, blobLen, received, i);
      if r.Some? {
        var k :| i + 1 < k <= |received| && decode(blobLen, received[..k]) == r
          && forall j :: i + 1 < j < k ==> decode(blobLen, received[..j]).None?;
        assert forall j :: i < j < k ==> decode(blobLen, received[..j]).None?;
      }
    }
  }

  /**
   * The decode loop's result is None exactly when no prefix of the
   * survivors decodes; otherwise it is the answer to the shortest prefix
   * that does.
   */
  lemma FirstDecodeSpec(decode: Decoder, blobLen: nat, received: seq<seq<byte>>)
    ensures var r := FirstDecode(decode, blobLen, received);
      && (r.None? <==> forall k :: 0 < k <= |received| ==> decode(blobLen, received[..k]).None?)
      && (r.Some? ==>
            exists k :: 0 < k <= |received| && decode(blobLen, received[..k]) == r
              && forall j :: 0 < j < k ==> decode(blobLen, received[..j]).None?)
  {
    FirstDecodeFromSpec(decode, blobLen, received, 0);
  }

  /** The decode loop: feed the survivors in order and stop at the first recovered object. */
  method DecodeFirst(decode: Decoder, blobLen: nat, received: seq<seq<byte>>) returns (result: Option<seq<byte>>)
    ensures result == FirstDecode(decode, blobLen, received)
  {
    result := None;
    var i := 0;
    while i < |received|
      invariant 0 <= i <= |received|
      invariant FirstDecode(decode, blobLen, received) == FirstDecodeFrom(decode, blobLen, received, i)
      decreases |received| - i
    {
      var fed := received[..i + 1];
      var data := decode(blobLen, fed);
      if data.Some? {
        result := data;
        return;
      }
      i := i + 1;
    }
  }

  /** How the demonstration ends. */
  datatype Verdict = Resurrected(plaintext: seq<byte>) | NotEnoughPackets | Panicked

  /**
   * After decoding: split the nonce off and open the rest. A short object
   * (`split_at`) and a failed authentication (`expect`) both panic.
   */
  function Finish(result: Option<seq<byte>>, open: Open): (v: Verdict)
    ensures v.NotEnoughPackets? <==> result.None?
    ensures v.Panicked? <==> result.Some? && !OpenPayload(result.value, open).Accept?
    ensures v.Resurrected? ==> OpenPayload(result.value, open) == Accept(v.plaintext)
  {
    if result.None? then NotEnoughPackets
    else
      var unsealed := OpenPayload(result.value, open);
      if unsealed.Accept? then Resurrected(unsealed.value) else Panicked
  }

  /** The decoded blob gives back the nonce and the ciphertext that were bundled, so opening it recovers the message. */
  lemma FinishOpensSealedBlob(nonce: seq<byte>, plaintext: seq<byte>, encrypt: Encrypt, open: Open)
    requires |nonce| == NONCE_SIZE && OpensWhatItSeals(encrypt, open)
    ensures Finish(Some(Seal(nonce, encrypt(nonce, plaintext))), open) == Resurrected(plaintext)
  {
    SplitSeal(nonce, encrypt(nonce, plaintext));
  }

  /** A decoder that, for this object length, never recovers anything but the blob. */
  ghost predicate RecoversOnly(decode: Decoder, blobLen: nat, blob: seq<byte>) {
    forall fed :: decode(blobLen, fed).Some? ==> decode(blobLen, fed) == Some(blob)
  }

  /** The whole demonstration, from the plaintext to the verdict. */
  method Simulate(plaintext: seq<byte>, nonce: seq<byte>, encrypt: Encrypt, open: Open,
                  encode: Encoder, decode: Decoder, coin: nat -> bool)
    returns (verdict: Verdict)
    requires |nonce| == NONCE_SIZE
    ensures var blob := Seal(nonce, encrypt(nonce, plaintext));
      var survivors := Kept(encode(blob, PACKET_SIZE, TotalPackets(|blob|)), coin);
      verdict == Finish(FirstDecode(decode, |blob|, survivors), open)
  {
    var encrypted := encrypt(nonce, plaintext);
    var blob := nonce;
    blob := blob + encrypted;
    var sourceCount := SourceCount(|blob|);
    var repairCount := RepairCount(sourceCount);
    var packets := encode(blob, PACKET_SIZE, sourceCount + repairCount);
    var received, lostCount := SimulateLoss(packets, coin);
    var result := DecodeFirst(decode, |blob|, received);
    verdict := Finish(result, open);
  }

  /**
   * With a decoder that only ever recovers the blob, the demonstration ends
   * either with the original message or, when no prefix of the survivors
   * decodes, with too few packets; it never panics.
   */
  lemma SimulationOutcome(plaintext: seq<byte>, nonce: seq<byte>, encrypt: Encrypt, open: Open,
                          encode: Encoder, decode: Decoder, coin: nat -> bool)
    requires |nonce| == NONCE_SIZE && OpensWhatItSeals(encrypt, open)
    requires RecoversOnly(decode, NONCE_SIZE + |encrypt(nonce, plaintext)|, Seal(nonce, encrypt(nonce, plaintext)))
    ensures var blob := Seal(nonce, encrypt(nonce, plaintext));
      var survivors := Kept(encode(blob, PACKET_SIZE, TotalPackets(|blob|)), coin);
      var v := Finish(FirstDecode(decode, |blob|, survivors), open);
      && (v == NotEnoughPackets <==> forall k :: 0 < k <= |survivors| ==> decode(|blob|, survivors[..k]).None?)
      && (v != NotEnoughPackets ==> v == Resurrected(plaintext))
  {
    var blob := Seal(nonce, encrypt(nonce, plaintext));
    var survivors := Kept(encode(blob, PACKET_SIZE, TotalPackets(|blob|)), coin);
    FirstDecodeSpec(decode, |blob|, survivors);
    var r := FirstDecode(decode, |blob|, survivors);
    if r.Some? {
      var k :| 0 < k <= |survivors| && decode(|blob|, survivors[..k]) == r;
      assert r == Some(blob);
      FinishOpensSealedBlob(nonce, plaintext, encrypt, open);
    }
  }
}
