/**
 * The send loop shared by the two beacons, src/bin/stealth_sender.rs and
 * src/bin/wifi_server.rs: every turn formats the current `seq` into a
 * request and sends it; `seq` moves on only when the send succeeded. The
 * outcome of each `send_to` is an input.
 */
module Beacon {
  import opened Bytes

  /** How many of the sends succeeded. */
  function Successes(sendOk: seq<bool>): (r: nat)
    ensures r <= |sendOk|
    decreases |sendOk|
  {
    if sendOk == [] then 0
    else Successes(sendOk[..|sendOk| - 1]) + (if sendOk[|sendOk| - 1] then 1 else 0)
  }

  /** A failed send leaves the counter where it was; a successful one moves it by one. */
  lemma SuccessesStep(sendOk: seq<bool>, i: nat)
    requires i < |sendOk|
    ensures Successes(sendOk[..i + 1]) == Successes(sendOk[..i]) + (if sendOk[i] then 1 else 0)
  {
    assert sendOk[..i + 1][..i] == sendOk[..i];
  }

  /**
   * The first `|sendOk|` turns. `attempts` are the requests handed to the
   * socket, `delivered` those it accepted, `seqNo` the final counter (an i32
   * that wraps).
   */
  method SendLoop(format: i32 -> string, sendOk: seq<bool>) returns (attempts: seq<string>, delivered: seq<string>, seqNo: i32)
    ensures |attempts| == |sendOk|
    ensures forall i :: 0 <= i < |sendOk| ==> attempts[i] == format(WrapI32(Successes(sendOk[..i])))
    ensures |delivered| == Successes(sendOk)
    ensures forall k :: 0 <= k < |delivered| ==> delivered[k] == format(WrapI32(k))
    ensures seqNo == WrapI32(Successes(sendOk))
  {
    attempts, delivered := [], [];
    seqNo := 0;
    var i := 0;
    while i < |sendOk|
      invariant 0 <= i <= |sendOk|
      invariant |attempts| == i
      invariant forall j :: 0 <= j < i ==> attempts[j] == format(WrapI32(Successes(sendOk[..j])))
      invariant |delivered| == Successes(sendOk[..i])
      invariant forall k :: 0 <= k < |delivered| ==> delivered[k] == format(WrapI32(k))
      invariant seqNo == WrapI32(|delivered|)
    {
      var httpPacket := format(seqNo);
      attempts := attempts + [httpPacket];
      SuccessesStep(sendOk, i);
      if sendOk[i] {
        delivered := delivered + [httpPacket];
        WrapI32Succ(|delivered| - 1);
        seqNo := WrapI32(seqNo + 1);
      }
      i := i + 1;
    }
    assert sendOk[..i] == sendOk;
  }
}
