/**
 * The network oracle of src/oracle.rs: a smoothed round-trip time updated as
 * an exponentially weighted moving average with gain 1/8 (the SRTT rule of
 * section 2.3 of RFC 6298, without its RTTVAR update), a loss-rate heuristic
 * driven by RTT spikes, and the pacing interval derived from the smoothed RTT.
 * Durations are exact non-negative reals in seconds.
 */
module Oracle {

  type Seconds = r: real | r >= 0.0

  const ALPHA: real := 0.125
  const INITIAL_SRTT: Seconds := 0.1
  const SPIKE_PENALTY: real := 0.1
  const CALM_DECAY: real := 0.01

  function Min(a: real, b: real): real { if a <= b then a else b }
  function Max(a: real, b: real): real { if a >= b then a else b }

  /** The new smoothed RTT: (1 - ALPHA) * srtt + ALPHA * rtt. It lies between the old value and the sample. */
  function NextSrtt(srtt: Seconds, rtt: Seconds): (r: Seconds)
    ensures Min(srtt, rtt) <= r <= Max(srtt, rtt)
    ensures srtt > 0.0 ==> r > 0.0
  {
    (1.0 - ALPHA) * srtt + ALPHA * rtt
  }

  /** The spike test, made against the smoothed RTT *after* it absorbed the sample. */
  predicate IsSpike(updatedSrtt: Seconds, rtt: Seconds)
    ensures IsSpike(updatedSrtt, rtt) ==> rtt > updatedSrtt
  {
    rtt > updatedSrtt * 2.0
  }

  /** The loss estimate after one sample: +0.1 capped at 1 on a spike, -0.01 floored at 0 otherwise. */
  function NextLoss(loss: real, spike: bool): (r: real)
    ensures 0.0 <= loss <= 1.0 ==> 0.0 <= r <= 1.0
  {
    if spike then Min(loss + SPIKE_PENALTY, 1.0) else Max(loss - CALM_DECAY, 0.0)
  }

  class NetworkOracle {
    var smoothedRtt: Seconds
    var rttVar: Seconds
    var lossRate: real
    var lastSent: real

    ghost predicate Valid()
      reads this
    {
      smoothedRtt > 0.0 && 0.0 <= lossRate <= 1.0
    }

    /** `NetworkOracle::new`; `now` is the instant read into `last_sent`. */
    constructor (now: real)
      ensures Valid()
      ensures smoothedRtt == INITIAL_SRTT && rttVar == 0.0 && lossRate == 0.0 && lastSent == now
    {
      smoothedRtt := INITIAL_SRTT;
      rttVar := 0.0;
      lossRate := 0.0;
      lastSent := now;
    }

    /** `update_rtt`: absorb one RTT sample; `rtt_var` and `last_sent` are left alone. */
    method UpdateRtt(rtt: Seconds)
      requires Valid()
      modifies this`smoothedRtt, this`lossRate
      ensures Valid()
      ensures smoothedRtt == NextSrtt(old(smoothedRtt), rtt)
      ensures lossRate == NextLoss(old(lossRate), IsSpike(smoothedRtt, rtt))
      ensures rttVar == old(rttVar) && lastSent == old(lastSent)
      ensures Estimate(smoothedRtt, lossRate) == Step(Estimate(old(smoothedRtt), old(lossRate)), rtt)
    {
      var newSrtt := (1.0 - ALPHA) * smoothedRtt + ALPHA * rtt;
      smoothedRtt := newSrtt;
      if rtt > smoothedRtt * 2.0 {
        lossRate := Min(lossRate + SPIKE_PENALTY, 1.0);
      } else {
        lossRate := Max(lossRate - CALM_DECAY, 0.0);
      }
    }

    /** `get_pacing_interval`: a tenth of the smoothed RTT, never zero while the oracle is valid. */
    function PacingInterval(): (r: Seconds)
      reads this
      ensures r * 10.0 == smoothedRtt
      ensures smoothedRtt > 0.0 ==> 0.0 < r < smoothedRtt
    {
      smoothedRtt / 10.0
    }
  }

  /**
   * Because the test uses the updated average, a sample counts as a spike
   * exactly when it exceeds 7/3 of the smoothed RTT it arrived to.
   */
  lemma SpikeThreshold(srtt: Seconds, rtt: Seconds)
    ensures IsSpike(NextSrtt(srtt, rtt), rtt) <==> rtt > srtt * 7.0 / 3.0
  {
  }

  /**
   * The rule "sample above twice the previous average" would flag a sample
   * that the code lets pass: with srtt = 100 ms, a 210 ms sample is not a spike.
   */
  lemma UpdatedAverageDampsSpikes()
    ensures 0.21 > INITIAL_SRTT * 2.0
    ensures !IsSpike(NextSrtt(INITIAL_SRTT, 0.21), 0.21)
  {
  }

  /** The (smoothed RTT, loss rate) pair after a run of samples, one `update_rtt` each. */
  datatype Estimate = Estimate(srtt: Seconds, loss: real)

  /**
   * One `update_rtt` on the pair: the average moves between its old value
   * and the sample, and the loss estimate takes the spike step exactly when
   * the sample exceeds 7/3 of the old average, staying within [0, 1].
   */
  function Step(e: Estimate, rtt: Seconds): (r: Estimate)
    ensures Min(e.srtt, rtt) <= r.srtt <= Max(e.srtt, rtt)
    ensures r.loss == NextLoss(e.loss, rtt > e.srtt * 7.0 / 3.0)
    ensures 0.0 <= e.loss <= 1.0 ==> 0.0 <= r.loss <= 1.0
  {
    SpikeThreshold(e.srtt, rtt);
    var s := NextSrtt(e.srtt, rtt);
    Estimate(s, NextLoss(e.loss, IsSpike(s, rtt)))
  }

  function Run(e: Estimate, samples: seq<Seconds>): Estimate
    decreases |samples|
  {
    if samples == [] then e else Run(Step(e, samples[0]), samples[1..])
  }

  /** Every sample of the run stays at or below twice the average it produces. */
  predicate AllCalm(e: Estimate, samples: seq<Seconds>)
    decreases |samples|
  {
    samples == [] || (!IsSpike(NextSrtt(e.srtt, samples[0]), samples[0]) && AllCalm(Step(e, samples[0]), samples[1..]))
  }

  /** Every sample of the run exceeds twice the average it produces. */
  predicate AllSpikes(e: Estimate, samples: seq<Seconds>)
    decreases |samples|
  {
    samples == [] || (IsSpike(NextSrtt(e.srtt, samples[0]), samples[0]) && AllSpikes(Step(e, samples[0]), samples[1..]))
  }

  /** Calm feedback lowers the loss estimate by 0.01 per sample until it reaches 0, and keeps it there. */
  lemma {:induction false} CalmDrivesLossToZero(e: Estimate, samples: seq<Seconds>)
    requires 0.0 <= e.loss <= 1.0 && AllCalm(e, samples)
    ensures Run(e, samples).loss == Max(e.loss - CALM_DECAY * |samples| as real, 0.0)
    decreases |samples|
  {
    if samples != [] {
      CalmDrivesLossToZero(Step(e, samples[0]), samples[1..]);
    }
  }

  /** Spiking feedback raises the loss estimate by 0.1 per sample until it reaches 1, and keeps it there. */
  lemma {:induction false} SpikesDriveLossToOne(e: Estimate, samples: seq<Seconds>)
    requires 0.0 <= e.loss <= 1.0 && AllSpikes(e, samples)
    ensures Run(e, samples).loss == Min(e.loss + SPIKE_PENALTY * |samples| as real, 1.0)
    decreases |samples|
  {
    if samples != [] {
      SpikesDriveLossToOne(Step(e, samples[0]), samples[1..]);
    }
  }

  /** The smoothed RTT of a run stays within the range spanned by its start and its samples. */
  lemma {:induction false} RunSrttBounds(e: Estimate, samples: seq<Seconds>, lo: real, hi: real)
    requires lo <= e.srtt <= hi
    requires forall i :: 0 <= i < |samples| ==> lo <= samples[i] <= hi
    ensures lo <= Run(e, samples).srtt <= hi
    decreases |samples|
  {
    if samples != [] {
      RunSrttBounds(Step(e, samples[0]), samples[1..], lo, hi);
    }
  }
}
