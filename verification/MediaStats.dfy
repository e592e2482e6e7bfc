/**
 RTCP statistics and the media experience score of pbx.go. Durations are in nanoseconds;
 the score is over the reals.
 */
module MediaStats {
  import opened Numbers
  import opened Text

  const MILLISECOND := 1_000_000
  const SECOND := 1000 * MILLISECOND

  /** The first report block of a sender report. */
  datatype Block = Block(jitter: nat, totalLost: nat)

  /** One callback: the library's running statistics and the report block, if the packet carries one. */
  datatype Report = Report(rtt: int, packetsCount: nat, sampleRate: nat, block: Option<Block>)

  datatype Stats = Stats(rttMax: int, rttMin: int, maxJitter: int, packetsReadCount: nat, packetsReadLost: nat)

  const NO_STATS := Stats(0, 0, 0, 0, 0)

  /** Jitter in nanoseconds; a missing sample rate counts as 8000 Hz. */
  function JitterOf(r: Report): nat
    requires r.block.Some?
  {
    r.block.value.jitter * SECOND / (if r.sampleRate == 0 then 8000 else r.sampleRate)
  }

  /** Timestamp units at the sample rate, in whole nanoseconds. */
  lemma JitterMeaning(r: Report)
    requires r.block.Some?
    ensures var rate, units := if r.sampleRate == 0 then 8000 else r.sampleRate, r.block.value.jitter;
            JitterOf(r) * rate <= units * 1_000_000_000 < JitterOf(r) * rate + rate
  {
  }

  function Update(s: Stats, r: Report): Stats {
    Stats(
      if r.rtt > 0 then Max(s.rttMax, r.rtt) else s.rttMax,
      if r.rtt > 0 then (if s.rttMin == 0 then r.rtt else Min(s.rttMin, r.rtt)) else s.rttMin,
      if r.block.Some? then Max(s.maxJitter, JitterOf(r)) else s.maxJitter,
      r.packetsCount,
      if r.block.Some? then r.block.value.totalLost else s.packetsReadLost)
  }

  function After(reports: seq<Report>): Stats {
    if reports == [] then NO_STATS else Update(After(reports[..|reports| - 1]), reports[|reports| - 1])
  }

  ghost predicate Sampled(reports: seq<Report>, rtt: int) {
    rtt > 0 && exists i :: 0 <= i < |reports| && reports[i].rtt == rtt
  }

  ghost predicate Jittered(reports: seq<Report>, jitter: int) {
    exists i :: 0 <= i < |reports| && reports[i].block.Some? && JitterOf(reports[i]) == jitter
  }

  lemma SnocSamples(reports: seq<Report>, x: int)
    requires reports != []
    ensures var n := |reports| - 1;
            && (Sampled(reports, x) <==> Sampled(reports[..n], x) || (x > 0 && reports[n].rtt == x))
            && (Jittered(reports, x) <==>
                  Jittered(reports[..n], x) || (reports[n].block.Some? && JitterOf(reports[n]) == x))
  {
    var n := |reports| - 1;
    assert forall i :: 0 <= i < n ==> reports[..n][i] == reports[i];
    assert Sampled(reports[..n], x) ==> Sampled(reports, x) by {
      if Sampled(reports[..n], x) {
        var i :| 0 <= i < n && reports[..n][i].rtt == x;
        assert reports[i].rtt == x;
      }
    }
    assert Jittered(reports[..n], x) ==> Jittered(reports, x) by {
      if Jittered(reports[..n], x) {
        var i :| 0 <= i < n && reports[..n][i].block.Some? && JitterOf(reports[..n][i]) == x;
        assert reports[i] == reports[..n][i];
      }
    }
  }

  ghost predicate RttSummary(reports: seq<Report>, s: Stats) {
    && ((s.rttMin == s.rttMax == 0 && forall x :: !Sampled(reports, x))
        || (Sampled(reports, s.rttMin) && Sampled(reports, s.rttMax)))
    && (forall x :: Sampled(reports, x) ==> s.rttMin <= x <= s.rttMax)
  }

  ghost predicate JitterSummary(reports: seq<Report>, s: Stats) {
    && (s.maxJitter == 0 || Jittered(reports, s.maxJitter))
    && s.maxJitter >= 0
    && (forall x :: Jittered(reports, x) ==> x <= s.maxJitter)
  }

  /** RTT extremes are those of the positive samples, zero if there are none; jitter is the running maximum. */
  lemma {:induction false} StatsSummarize(reports: seq<Report>)
    ensures RttSummary(reports, After(reports)) && JitterSummary(reports, After(reports))
  {
    if reports != [] {
      var n := |reports| - 1;
      StatsSummarize(reports[..n]);
      forall x
        ensures
            && (Sampled(reports, x) <==> Sampled(reports[..n], x) || (x > 0 && reports[n].rtt == x))
            && (Jittered(reports, x) <==>
                  Jittered(reports[..n], x) || (reports[n].block.Some? && JitterOf(reports[n]) == x))
      {
        SnocSamples(reports, x);
      }
      assert reports[n].rtt > 0 ==> Sampled(reports, reports[n].rtt);
    }
  }

  // ---- The score ----

  const RTT_LIMIT := 20 * MILLISECOND
  const JITTER_LIMIT := 10 * MILLISECOND

  function Penalty(limit: int, value: int): real
    requires limit > 0
  {
    if value > limit then limit as real / value as real else 0.0
  }

  function CalcMES(answered: bool, rttMax: int, maxJitter: int): real {
    (if answered then 0.9 else 0.0) - Penalty(RTT_LIMIT, rttMax) - Penalty(JITTER_LIMIT, maxJitter)
  }

  lemma PenaltyRange(limit: int, value: int)
    requires limit > 0
    ensures value <= limit ==> Penalty(limit, value) == 0.0
    ensures value > limit ==> 0.0 < Penalty(limit, value) < 1.0
  {
    if value > limit {
      QuotientRange(limit as real, value as real);
    }
  }

  lemma QuotientRange(x: real, y: real)
    requires 0.0 < x < y
    ensures 0.0 < x / y < 1.0
  {
    var q := x / y;
    assert q * y == x;
    assert q <= 0.0 ==> q * y <= 0.0;
    assert q >= 1.0 ==> q * y >= y;
  }

  /** An answered call scores above -1.1 and at most 0.9, and 0.9 exactly when both figures are within limits. */
  lemma ScoreRange(rttMax: int, maxJitter: int)
    ensures -1.1 < CalcMES(true, rttMax, maxJitter) <= 0.9
    ensures CalcMES(true, rttMax, maxJitter) == 0.9 <==> rttMax <= 20_000_000 && maxJitter <= 10_000_000
  {
    PenaltyRange(RTT_LIMIT, rttMax);
    PenaltyRange(JITTER_LIMIT, maxJitter);
  }

  /** Beyond its limit, a figure costs the limit divided by it; the two costs add up; an unanswered call loses 0.9. */
  lemma ScoreParts(rttMax: int, maxJitter: int)
    ensures CalcMES(false, rttMax, maxJitter) == CalcMES(true, rttMax, maxJitter) - 0.9
    ensures 0.9 - CalcMES(true, rttMax, maxJitter)
         == (0.9 - CalcMES(true, rttMax, 0)) + (0.9 - CalcMES(true, 0, maxJitter))
    ensures rttMax > 20_000_000 ==> (0.9 - CalcMES(true, rttMax, 0)) * rttMax as real == 20_000_000.0
    ensures maxJitter > 10_000_000 ==> (0.9 - CalcMES(true, 0, maxJitter)) * maxJitter as real == 10_000_000.0
  {
  }

  /** A longer round trip never scores higher if and only if the shorter one was within the limit. */
  lemma LongerTripScoresNoHigherIff(answered: bool, shorter: int, longer: int, maxJitter: int)
    requires shorter < longer
    ensures CalcMES(answered, longer, maxJitter) <= CalcMES(answered, shorter, maxJitter) <==> shorter <= RTT_LIMIT
  {
    PenaltyRange(RTT_LIMIT, shorter);
    PenaltyRange(RTT_LIMIT, longer);
    if shorter > RTT_LIMIT {
      QuotientFalls(RTT_LIMIT as real, shorter as real, longer as real);
    }
  }

  lemma QuotientFalls(x: real, y: real, z: real)
    requires 0.0 < x && 0.0 < y < z
    ensures x / z < x / y
  {
    var p, q := x / y, x / z;
    assert p * y == x && q * z == x;
    QuotientPositive(x, z);
    assert q * z > q * y;
    assert (p - q) * y > 0.0 by { assert (p - q) * y == p * y - q * y; }
    assert p <= q ==> (p - q) * y <= 0.0;
  }

  lemma QuotientPositive(x: real, y: real)
    requires 0.0 < x && 0.0 < y
    ensures 0.0 < x / y
  {
    var q := x / y;
    assert q * y == x;
    assert q <= 0.0 ==> q * y <= 0.0;
  }

  /** Over any reports, the score of an answered call is 0.9 exactly when no sample and no jitter exceeded its limit. */
  lemma PerfectScoreIff(reports: seq<Report>)
    ensures CalcMES(true, After(reports).rttMax, After(reports).maxJitter) == 0.9
       <==> && (forall x :: Sampled(reports, x) ==> x <= RTT_LIMIT)
            && (forall x :: Jittered(reports, x) ==> x <= JITTER_LIMIT)
  {
    StatsSummarize(reports);
    ScoreRange(After(reports).rttMax, After(reports).maxJitter);
  }

  class DialogMediaStats {
    var rttMax: int
    var rttMin: int
    var maxJitter: int
    var packetsReadCount: nat
    var packetsReadLost: nat
    ghost var reports: seq<Report>

    ghost function View(): Stats
      reads this
    {
      Stats(rttMax, rttMin, maxJitter, packetsReadCount, packetsReadLost)
    }

    ghost predicate Valid()
      reads this
    {
      View() == After(reports)
    }

    constructor ()
      ensures Valid() && reports == []
    {
      rttMax, rttMin, maxJitter, packetsReadCount, packetsReadLost := 0, 0, 0, 0, 0;
      reports := [];
    }

    method OnReadRTCP(r: Report)
      requires Valid()
      modifies this
      ensures Valid() && reports == old(reports) + [r]
      ensures packetsReadCount == r.packetsCount
      ensures packetsReadLost == if r.block.Some? then r.block.value.totalLost else old(packetsReadLost)
    {
      if r.rtt > 0 {
        rttMax := Max(rttMax, r.rtt);
        if rttMin == 0 {
          rttMin := r.rtt;
        }
        rttMin := Min(rttMin, r.rtt);
      }
      packetsReadCount := r.packetsCount;
      if r.block.Some? {
        packetsReadLost := r.block.value.totalLost;
        maxJitter := Max(maxJitter, JitterOf(r));
      }
      assert (reports + [r])[..|reports|] == reports;
      reports := reports + [r];
    }

    /** The score written into the call record of an answered or unanswered call. */
    method Score(answered: bool) returns (mes: real)
      requires Valid()
      ensures mes == CalcMES(answered, rttMax, maxJitter)
      ensures answered ==> -1.1 < mes <= 0.9
      ensures answered ==> (mes == 0.9 <==> (forall x :: Sampled(reports, x) ==> x <= RTT_LIMIT)
                                            && (forall x :: Jittered(reports, x) ==> x <= JITTER_LIMIT))
    {
      mes := if answered then 0.9 else 0.0;
      if rttMax > RTT_LIMIT {
        mes := mes - RTT_LIMIT as real / rttMax as real;
      }
      if maxJitter > JITTER_LIMIT {
        mes := mes - JITTER_LIMIT as real / maxJitter as real;
      }
      ScoreRange(rttMax, maxJitter);
      PerfectScoreIff(reports);
    }
  }
}
