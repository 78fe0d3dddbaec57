/**
 The round-trip estimator and the retransmission timer (sections 2 and 5 of RFC 6298), in 64-bit
 nanoseconds.
 */
module TcpTimer {
  import opened Wrappers

  const INITIAL_RTO: nat := 1_000_000_000
  const MAX_RTO: nat := 64_000_000_000
  const GRANULARITY: nat := 100_000_000
  const MAX_RETRANSMITS: nat := 5

  /** Above this a sum of eight estimates would not fit a 64-bit word. */
  const SAMPLE_LIMIT: nat := 0x2000_0000_0000_0000

  /**
   The timing fields of a connection; zero means "none yet". `resent` is the mark that something was
   sent twice since SND.UNA last moved.
   */
  datatype Timer = Timer(
    oldestSent: nat, retransmits: nat, srtt: nat, rttvar: nat, rto: nat, resent: bool, released: bool)

  const FRESH := Timer(0, 0, 0, 0, 0, false, false)

  function CurrentRto(t: Timer): nat {
    if t.srtt == 0 then INITIAL_RTO
    else
      var spread := if t.rttvar * 4 % WORD > GRANULARITY then t.rttvar * 4 % WORD else GRANULARITY;
      Min((t.srtt + spread) % WORD, MAX_RTO)
  }

  /** Feeds one measured round trip to the estimator. */
  function Estimate(t: Timer, sample: nat): Timer {
    var diff := if t.srtt > sample then t.srtt - sample else sample - t.srtt;
    var t' :=
      if t.srtt == 0 then t.(srtt := sample, rttvar := sample / 2)
      else t.(rttvar := (3 * t.rttvar + diff) % WORD / 4, srtt := (7 * t.srtt + sample) % WORD / 8);
    t'.(rto := CurrentRto(t'))
  }

  /** A sample is taken only from a running clock that has moved on, and not while the mark stands. */
  function TakeRttSample(t: Timer, now: nat): Timer {
    if t.resent || t.oldestSent == 0 || now <= t.oldestSent then t else Estimate(t, now - t.oldestSent)
  }

  /**
   What an acknowledgement does: nothing unless SND.UNA moved; then the mark is lifted, and a full
   catch-up measures and stops the clock.
   */
  function AfterAckMovement(t: Timer, moved: bool, caughtUp: bool, now: nat): Timer {
    if !moved then t
    else
      var t' := t.(resent := false, retransmits := 0);
      if caughtUp then TakeRttSample(t', now).(oldestSent := 0) else t'
  }

  /** The timer ran out: the connection is given up after five tries, else the wait doubles up to the ceiling. */
  function RetransmitDue(t: Timer): Timer {
    if t.released then t
    else if t.retransmits >= MAX_RETRANSMITS then t.(released := true)
    else
      var wait := if t.rto != 0 then t.rto else INITIAL_RTO;
      t.(retransmits := t.retransmits + 1, resent := true, rto := Min(wait * 2 % WORD, MAX_RTO))
  }

  // ------------------------------------------------------------------ histories

  /** `Again` is the resend on a third duplicate acknowledgement. */
  datatype Event = Acked(moved: bool, caughtUp: bool, now: nat) | Due | Again | Sent(now: nat)

  function After(t: Timer, e: Event): Timer {
    match e
    case Acked(moved, caughtUp, now) => AfterAckMovement(t, moved, caughtUp, now)
    case Due => RetransmitDue(t)
    case Again => t.(resent := true)
    case Sent(now) => if t.oldestSent == 0 then t.(oldestSent := now) else t
  }

  function Run(t: Timer, es: seq<Event>): Timer {
    if es == [] then t else After(Run(t, es[..|es| - 1]), es[|es| - 1])
  }

  /** Every sample the history takes lies in [lo, hi]. */
  ghost predicate SamplesWithin(t: Timer, es: seq<Event>, lo: nat, hi: nat) {
    es == [] ||
    (var t' := Run(t, es[..|es| - 1]);
     var e := es[|es| - 1];
     && SamplesWithin(t, es[..|es| - 1], lo, hi)
     && (e.Acked? && e.moved && e.caughtUp && t'.oldestSent != 0 && e.now > t'.oldestSent ==>
           lo <= e.now - t'.oldestSent <= hi))
  }

  /** Before the first sample the estimator is untouched; after it, it stays within the samples. */
  ghost predicate Bounded(t: Timer, lo: nat, hi: nat) {
    && t.rto <= MAX_RTO
    && (t.srtt == 0 ==> t.rttvar == 0 && (t.rto == 0 || t.rto >= INITIAL_RTO))
    && (t.srtt != 0 ==> lo <= t.srtt <= hi && t.rttvar <= hi && Min(lo + GRANULARITY, MAX_RTO) <= t.rto)
  }

  lemma EstimateBounded(t: Timer, sample: nat, lo: nat, hi: nat)
    requires Bounded(t, lo, hi) && 1 <= lo <= sample <= hi < SAMPLE_LIMIT
    ensures Bounded(Estimate(t, sample), lo, hi) && Estimate(t, sample).srtt != 0
  {
    hide CurrentRto;
    var t' := Estimate(t, sample);
    if t.srtt != 0 {
      var diff := if t.srtt > sample then t.srtt - sample else sample - t.srtt;
      MeanWithin(t.srtt, sample, lo, hi);
      SpreadWithin(t.rttvar, diff, hi);
    }
    RtoWithin(t'.(rto := t.rto), lo, hi);
  }

  lemma MeanWithin(srtt: nat, sample: nat, lo: nat, hi: nat)
    requires lo <= srtt <= hi && lo <= sample <= hi < SAMPLE_LIMIT
    ensures lo <= (7 * srtt + sample) % WORD / 8 <= hi
  {
    assert 7 * srtt + sample < WORD;
  }

  lemma SpreadWithin(rttvar: nat, diff: nat, hi: nat)
    requires rttvar <= hi && diff <= hi < SAMPLE_LIMIT
    ensures (3 * rttvar + diff) % WORD / 4 <= hi
  {
    assert 3 * rttvar + diff < WORD;
  }

  lemma RtoWithin(t: Timer, lo: nat, hi: nat)
    requires 1 <= lo <= t.srtt <= hi < SAMPLE_LIMIT && t.rttvar <= hi
    ensures Min(lo + GRANULARITY, MAX_RTO) <= CurrentRto(t) <= MAX_RTO
  {
    assert t.rttvar * 4 < WORD && t.srtt + t.rttvar * 4 < WORD;
  }

  lemma DueBounded(t: Timer, lo: nat, hi: nat)
    requires Bounded(t, lo, hi)
    ensures Bounded(RetransmitDue(t), lo, hi)
  {
  }

  /**
   Over every history whose samples lie in [lo, hi], the smoothed estimate stays in [lo, hi] and never
   falls back to "none", the variation stays at most hi, and the wait stays between
   min(lo + 100 ms, 64 s) and 64 s through every doubling. The limit on the samples is exact: see
   EstimatorBoundsIff.
   */
  lemma {:induction false} EstimatorBounds(es: seq<Event>, lo: nat, hi: nat)
    requires 1 <= lo <= hi < SAMPLE_LIMIT && SamplesWithin(FRESH, es, lo, hi)
    ensures Bounded(Run(FRESH, es), lo, hi)
    ensures forall k :: 0 <= k <= |es| && Run(FRESH, es[..k]).srtt != 0 ==> Run(FRESH, es).srtt != 0
  {
    if es == [] {
      assert forall k :: 0 <= k <= |es| ==> es[..k] == [];
    } else {
      var front := es[..|es| - 1];
      EstimatorBounds(front, lo, hi);
      var t := Run(FRESH, front);
      AfterBounded(t, es[|es| - 1], lo, hi);
      forall k | 0 <= k <= |es| && Run(FRESH, es[..k]).srtt != 0
        ensures Run(FRESH, es).srtt != 0
      {
        if k < |es| {
          assert front[..k] == es[..k];
        } else {
          assert es[..k] == es;
        }
      }
    }
  }

  /** Two equal round trips, measured one after the other. */
  function TwiceMeasured(sample: nat): seq<Event> {
    [Sent(1), Acked(true, true, 1 + sample), Sent(1), Acked(true, true, 1 + sample)]
  }

  lemma RunOneMore(es: seq<Event>, k: nat)
    requires 1 <= k <= |es|
    ensures Run(FRESH, es[..k]) == After(Run(FRESH, es[..k - 1]), es[k - 1])
  {
    assert es[..k][..k - 1] == es[..k - 1];
  }

  lemma EmptyRun()
    ensures Run(FRESH, []) == FRESH
  {
  }

  lemma FirstSample(t: Timer, sample: nat)
    requires t.srtt == 0
    ensures Estimate(t, sample) == t.(srtt := sample, rttvar := sample / 2, rto := Estimate(t, sample).rto)
  {
    hide CurrentRto;
  }

  lemma SameSample(t: Timer, sample: nat)
    requires t.srtt == sample > 0
    ensures Estimate(t, sample).srtt == 8 * sample % WORD / 8 && Estimate(t, sample).rttvar == 3 * t.rttvar % WORD / 4
  {
    hide CurrentRto;
  }

  lemma TwiceMeasuredRun(sample: nat)
    requires sample > 0
    ensures var es := TwiceMeasured(sample);
            && Run(FRESH, es[..1]) == FRESH.(oldestSent := 1)
            && Run(FRESH, es[..2]).oldestSent == 0 && Run(FRESH, es[..3]).oldestSent == 1
            && Run(FRESH, es).srtt == 8 * sample % WORD / 8 && Run(FRESH, es).rttvar == 3 * (sample / 2) % WORD / 4
  {
    hide Estimate, Run;
    var es := TwiceMeasured(sample);
    RunOneMore(es, 1);
    RunOneMore(es, 2);
    RunOneMore(es, 3);
    RunOneMore(es, 4);
    EmptyRun();
    assert es[..0] == [] && es[..4] == es;
    FirstSample(Run(FRESH, es[..1]), sample);
    SameSample(Run(FRESH, es[..3]).(resent := false, retransmits := 0), sample);
  }

  /**
   The estimator stays within its samples over every history exactly when no sample reaches 2^61 ns:
   from there on the weighted sum wraps around, and two equal samples leave an estimate below both.
   */
  lemma EstimatorBoundsIff(lo: nat, hi: nat)
    requires 1 <= lo <= hi < WORD - 1
    ensures hi < SAMPLE_LIMIT <==>
            forall es :: SamplesWithin(FRESH, es, lo, hi) ==> Bounded(Run(FRESH, es), lo, hi)
  {
    hide Bounded;
    if hi < SAMPLE_LIMIT {
      forall es | SamplesWithin(FRESH, es, lo, hi)
        ensures Bounded(Run(FRESH, es), lo, hi)
      {
        EstimatorBounds(es, lo, hi);
      }
    } else {
      var sample := if lo < SAMPLE_LIMIT then SAMPLE_LIMIT else lo;
      EstimatorWraps(lo, hi, sample);
    }
  }

  lemma EightfoldWraps(sample: nat)
    ensures 8 * sample % WORD / 8 == sample % SAMPLE_LIMIT
  {
    var k, r := sample / SAMPLE_LIMIT, sample % SAMPLE_LIMIT;
    assert 8 * sample == k * WORD + 8 * r;
  }

  lemma EstimatorWraps(lo: nat, hi: nat, sample: nat)
    requires 1 <= lo <= sample <= hi < WORD - 1 && sample == if lo < SAMPLE_LIMIT then SAMPLE_LIMIT else lo
    ensures SamplesWithin(FRESH, TwiceMeasured(sample), lo, hi)
    ensures Run(FRESH, TwiceMeasured(sample)).srtt < lo && !Bounded(Run(FRESH, TwiceMeasured(sample)), lo, hi)
  {
    hide Run, Estimate;
    var es := TwiceMeasured(sample);
    TwiceMeasuredRun(sample);
    assert es[..4] == es && es[..3][..2] == es[..2] && es[..2][..1] == es[..1] && es[..1][..0] == [] == es[..0];
    EmptyRun();
    assert SamplesWithin(FRESH, es[..1], lo, hi);
    assert SamplesWithin(FRESH, es[..2], lo, hi);
    assert SamplesWithin(FRESH, es[..3], lo, hi);
    EightfoldWraps(sample);
    if sample % SAMPLE_LIMIT == 0 {
      TwiceMeasuredSpread(sample / SAMPLE_LIMIT);
    }
  }

  /** An estimate that wrapped to zero keeps a variation, so it is no fresh one. */
  lemma TwiceMeasuredSpread(k: nat)
    requires 1 <= k < 8
    ensures Run(FRESH, TwiceMeasured(k * SAMPLE_LIMIT)).rttvar > 0
  {
    hide Run;
    TwiceMeasuredRun(k * SAMPLE_LIMIT);
    assert k == 1 || k == 2 || k == 3 || k == 4 || k == 5 || k == 6 || k == 7;
  }

  /**
   The mark never withholds a sample, because it is lifted before it is looked at: a history that
   resent measures the same as one that did not (section 3 of RFC 6298 forbids such samples).
   */
  lemma MarkNeverWithholds(t: Timer, caughtUp: bool, now: nat)
    ensures var heard := AfterAckMovement(t, true, caughtUp, now);
            && heard == AfterAckMovement(t.(resent := !t.resent), true, caughtUp, now)
            && if caughtUp && t.oldestSent != 0 && now > t.oldestSent
               then heard == Estimate(t.(resent := false, retransmits := 0), now - t.oldestSent).(oldestSent := 0)
               else heard.srtt == t.srtt && heard.rttvar == t.rttvar && heard.rto == t.rto
  {
    hide Estimate;
  }

  /** One segment, sent at 1, sent again, and acknowledged at 9: its round trip is taken for 8. */
  lemma ResentIsMeasured()
    ensures Run(FRESH, [Sent(1), Due]).resent
    ensures Run(FRESH, [Sent(1), Due, Acked(true, true, 9)]).srtt == 8
  {
    var es := [Sent(1), Due, Acked(true, true, 9)];
    assert es[..2] == [Sent(1), Due] && es[..2][..1] == [Sent(1)] && [Sent(1)][..0] == [];
    assert Run(FRESH, [Sent(1)]) == FRESH.(oldestSent := 1);
  }

  lemma AfterBounded(t: Timer, e: Event, lo: nat, hi: nat)
    requires Bounded(t, lo, hi) && 1 <= lo <= hi < SAMPLE_LIMIT
    requires e.Acked? && e.moved && e.caughtUp && t.oldestSent != 0 && e.now > t.oldestSent ==>
               lo <= e.now - t.oldestSent <= hi
    ensures Bounded(After(t, e), lo, hi) && (t.srtt != 0 ==> After(t, e).srtt != 0)
  {
    hide Estimate;
    match e
    case Acked(moved, caughtUp, now) =>
      if moved && caughtUp && t.oldestSent != 0 && now > t.oldestSent {
        EstimateBounded(t.(resent := false, retransmits := 0), now - t.oldestSent, lo, hi);
      }
    case Due =>
      DueBounded(t, lo, hi);
    case Again =>
    case Sent(now) =>
  }

  /** How many times the timer sent something again over a history. */
  function Resends(t: Timer, es: seq<Event>): nat {
    if es == [] then 0
    else
      var t' := Run(t, es[..|es| - 1]);
      Resends(t, es[..|es| - 1])
        + (if es[|es| - 1].Due? && !t'.released && t'.retransmits < MAX_RETRANSMITS then 1 else 0)
  }

  /** Between two forward moves of SND.UNA the timer resends at most five times (rule 5.5 of RFC 6298). */
  lemma {:induction false} AtMostFiveResends(t: Timer, es: seq<Event>)
    requires t.retransmits <= MAX_RETRANSMITS
    requires forall e :: e in es ==> !(e.Acked? && e.moved)
    ensures Resends(t, es) + t.retransmits == Run(t, es).retransmits <= 5
  {
    if es == [] {
    } else {
      AtMostFiveResends(t, es[..|es| - 1]);
      assert es[|es| - 1] in es;
    }
  }

  // ------------------------------------------------------------------ the rules of RFC 6298

  /** A mean that gives the newest sample the weight `w`. */
  function Weighted(before: nat, sample: nat, w: real): real {
    (1.0 - w) * before as real + w * sample as real
  }

  /** `n` is `x` rounded down. */
  ghost predicate RoundedDown(n: nat, x: real) {
    n as real <= x < n as real + 1.0
  }

  /**
   A second or later sample follows rule 2.3 of RFC 6298: weight one quarter for the deviation from the old
   mean, one eighth for the mean, each rounded down; the wait is the mean plus four deviations or the
   granularity, at most the ceiling (rules 2.3 to 2.5). The first follows rule 2.2.
   */
  lemma EstimateFollowsTheRules(t: Timer, sample: nat)
    requires 0 < sample < SAMPLE_LIMIT && t.srtt < SAMPLE_LIMIT && t.rttvar < SAMPLE_LIMIT
    ensures var t' := Estimate(t, sample);
            var deviation := if t.srtt < sample then sample - t.srtt else t.srtt - sample;
            && (if t.srtt == 0 then t'.srtt == sample && RoundedDown(t'.rttvar, sample as real / 2.0)
                else RoundedDown(t'.srtt, Weighted(t.srtt, sample, 0.125))
                     && RoundedDown(t'.rttvar, Weighted(t.rttvar, deviation, 0.25)))
            && (t'.srtt != 0 ==> t'.rto == Min(t'.srtt + Max(GRANULARITY, 4 * t'.rttvar), MAX_RTO))
  {
    hide CurrentRto, Weighted, RoundedDown;
    var t' := Estimate(t, sample);
    var deviation := if t.srtt < sample then sample - t.srtt else t.srtt - sample;
    if t.srtt == 0 {
      Half(sample);
    } else {
      NoWrap(t.srtt, sample, t.rttvar, deviation);
      Eighth(t.srtt, sample);
      Quarter(t.rttvar, deviation);
    }
    RtoExact(t'.(rto := t.rto));
  }

  lemma NoWrap(srtt: nat, sample: nat, rttvar: nat, deviation: nat)
    requires srtt < SAMPLE_LIMIT && sample < SAMPLE_LIMIT && rttvar < SAMPLE_LIMIT && deviation < SAMPLE_LIMIT
    ensures (7 * srtt + sample) % WORD == 7 * srtt + sample && (7 * srtt + sample) / 8 < SAMPLE_LIMIT
    ensures (3 * rttvar + deviation) % WORD == 3 * rttvar + deviation && (3 * rttvar + deviation) / 4 < SAMPLE_LIMIT
  {
  }

  lemma Half(a: nat)
    ensures RoundedDown(a / 2, a as real / 2.0)
  {
    assert 2 * (a / 2) <= a < 2 * (a / 2) + 2;
  }

  lemma Eighth(a: nat, b: nat)
    ensures RoundedDown((7 * a + b) / 8, Weighted(a, b, 0.125))
  {
    var n := (7 * a + b) / 8;
    assert 8 * n <= 7 * a + b < 8 * n + 8;
    assert 8.0 * Weighted(a, b, 0.125) == (7 * a + b) as real;
  }

  lemma Quarter(a: nat, b: nat)
    ensures RoundedDown((3 * a + b) / 4, Weighted(a, b, 0.25))
  {
    var n := (3 * a + b) / 4;
    assert 4 * n <= 3 * a + b < 4 * n + 4;
    assert 4.0 * Weighted(a, b, 0.25) == (3 * a + b) as real;
  }

  lemma RtoExact(t: Timer)
    requires t.srtt < SAMPLE_LIMIT && t.rttvar < SAMPLE_LIMIT
    ensures t.srtt != 0 ==> CurrentRto(t) == Min(t.srtt + Max(GRANULARITY, 4 * t.rttvar), MAX_RTO)
  {
    if t.srtt != 0 {
      assert t.rttvar * 4 < WORD && t.srtt + t.rttvar * 4 < WORD;
    }
  }

  function Pow2(k: nat): (r: nat)
    ensures r >= 1
  {
    if k == 0 then 1 else 2 * Pow2(k - 1)
  }

  /** The wait in force. */
  function Wait(t: Timer): nat {
    if t.rto != 0 then t.rto else INITIAL_RTO
  }

  /** How often the timer ran out over a history. */
  function Dues(es: seq<Event>): nat {
    if es == [] then 0 else Dues(es[..|es| - 1]) + (if es[|es| - 1].Due? then 1 else 0)
  }

  /**
   Between two forward moves of SND.UNA the wait is the first one doubled once for every resend, up to 64 s
   (rule 5.5 of RFC 6298), and the connection is given up exactly when the timer runs out once more than
   the resends left to it.
   */
  lemma {:induction false} BackOffDoubles(t: Timer, es: seq<Event>)
    requires t.retransmits <= MAX_RETRANSMITS && !t.released && t.rto <= MAX_RTO
    requires forall e :: e in es ==> !(e.Acked? && e.moved)
    ensures var t' := Run(t, es);
            && Wait(t') == Min(Wait(t) * Pow2(Resends(t, es)), MAX_RTO) && t'.rto <= MAX_RTO
            && (t'.released <==> t.retransmits + Dues(es) > MAX_RETRANSMITS)
            && t'.retransmits == Min(t.retransmits + Dues(es), MAX_RETRANSMITS)
            && Resends(t, es) == t'.retransmits - t.retransmits
  {
    hide RetransmitDue, AfterAckMovement, Wait;
    if es == [] {
      WaitBounded(t);
    } else {
      var front := es[..|es| - 1];
      BackOffDoubles(t, front);
      var t1, e, k := Run(t, front), es[|es| - 1], Resends(t, front);
      assert e in es;
      if e.Due? {
        DueDoubles(t1, Wait(t), Pow2(k));
        assert Pow2(k + 1) == 2 * Pow2(k);
      } else {
        QuietStep(t1, e);
      }
    }
  }

  lemma WaitBounded(t: Timer)
    requires t.rto <= MAX_RTO
    ensures Wait(t) * Pow2(0) == Wait(t) <= MAX_RTO
  {
  }

  /** One more time-out: given up after the last resend, else resent with twice the wait. */
  lemma DueDoubles(t: Timer, w: nat, p: nat)
    requires t.rto <= MAX_RTO && Wait(t) == Min(w * p, MAX_RTO)
    ensures var t' := RetransmitDue(t);
            if t.released || t.retransmits >= MAX_RETRANSMITS
            then t' == t.(released := true) && Wait(t') == Wait(t)
            else !t'.released && t'.retransmits == t.retransmits + 1 && t'.rto <= MAX_RTO
                 && Wait(t') == Min(w * (2 * p), MAX_RTO)
  {
    Doubling(w, p);
  }

  /** No other event without a forward move touches the wait or the count. */
  lemma QuietStep(t: Timer, e: Event)
    requires !e.Due? && !(e.Acked? && e.moved)
    ensures var t' := After(t, e); t' == t.(oldestSent := t'.oldestSent, resent := t'.resent) && Wait(t') == Wait(t)
  {
  }

  lemma Doubling(w: nat, p: nat)
    ensures w * (2 * p) == 2 * (w * p)
    ensures Min(2 * Min(w * p, MAX_RTO), MAX_RTO) == Min(w * (2 * p), MAX_RTO)
  {
  }
}
