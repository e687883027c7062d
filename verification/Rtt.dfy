/** The mean-deviation RTT estimator, with doubles as reals and the multiplier as a 16-bit number. */
module Rtt {
  const INITIAL_RTT: real := 1000000.0
  const UINT16: nat := 0x1_0000

  function Abs(x: real): real { if x < 0.0 then -x else x }

  function MaxReal(x: real, y: real): real { if x < y then y else x }

  function MinNat(x: nat, y: nat): nat { if x < y then x else y }

  datatype Estimate = Estimate(rtt: real, variance: real, multiplier: nat, nSamples: nat)

  datatype Config = Config(maxMultiplier: nat, minRto: real, gain: real)

  datatype Event = Measured(m: real) | Incremented | Doubled

  const Initial: Estimate := Estimate(INITIAL_RTT, 0.0, 1, 0)

  /** Each estimate moves towards its sample by the fraction `gain`; the first sample replaces both. */
  function After(c: Config, e: Estimate, ev: Event): Estimate {
    match ev
    case Measured(m) =>
      if e.nSamples == 0 then Estimate(m, m, 1, 1)
      else Estimate((1.0 - c.gain) * e.rtt + c.gain * m,
                    (1.0 - c.gain) * e.variance + c.gain * Abs(m - e.rtt), 1, e.nSamples + 1)
    case Incremented => e.(multiplier := MinNat((e.multiplier + 1) % UINT16, c.maxMultiplier))
    case Doubled => e.(multiplier := MinNat(2 * e.multiplier % UINT16, c.maxMultiplier))
  }

  function AfterAll(c: Config, evs: seq<Event>): Estimate {
    if evs == [] then Initial else After(c, AfterAll(c, evs[..|evs| - 1]), evs[|evs| - 1])
  }

  function Scaled(x: real, k: nat): real { x * (k as real) }

  function Rto(c: Config, e: Estimate): real { Scaled(MaxReal(c.minRto, e.rtt + 4.0 * e.variance), e.multiplier) }

  ghost predicate SamplesIn(evs: seq<Event>, lo: real, hi: real) {
    forall i | 0 <= i < |evs| :: evs[i].Measured? ==> lo <= evs[i].m <= hi
  }

  ghost predicate HasSample(evs: seq<Event>) { exists i | 0 <= i < |evs| :: evs[i].Measured? }

  lemma {:induction false} SamplesCounted(c: Config, evs: seq<Event>)
    requires HasSample(evs)
    ensures AfterAll(c, evs).nSamples > 0
  {
    var before, last := evs[..|evs| - 1], evs[|evs| - 1];
    if !last.Measured? {
      var i :| 0 <= i < |evs| && evs[i].Measured?;
      assert before[i].Measured?;
      SamplesCounted(c, before);
    }
  }

  lemma {:induction false} ProductIsNonNegative(x: real, y: real)
    requires x >= 0.0 && y >= 0.0
    ensures x * y >= 0.0
  {
  }

  /** A weighted mean lies between its arguments. */
  lemma {:induction false} MeanInside(x: real, m: real, g: real, lo: real, hi: real)
    requires 0.0 <= g <= 1.0 && lo <= x <= hi && lo <= m <= hi
    ensures lo <= (1.0 - g) * x + g * m <= hi
  {
    var y := (1.0 - g) * x + g * m;
    assert y - lo == (x - lo) * (1.0 - g) + (m - lo) * g;
    assert hi - y == (hi - x) * (1.0 - g) + (hi - m) * g;
    ProductIsNonNegative(x - lo, 1.0 - g);
    ProductIsNonNegative(m - lo, g);
    ProductIsNonNegative(hi - x, 1.0 - g);
    ProductIsNonNegative(hi - m, g);
  }

  ghost predicate Bounded(e: Estimate, lo: real, hi: real) {
    e.nSamples > 0 ==> lo <= e.rtt <= hi && 0.0 <= e.variance <= hi
  }

  lemma {:induction false} StepBounds(c: Config, e: Estimate, ev: Event, lo: real, hi: real)
    requires 0.0 <= c.gain <= 1.0 && 0.0 <= lo <= hi && Bounded(e, lo, hi)
    requires ev.Measured? ==> lo <= ev.m <= hi
    ensures Bounded(After(c, e, ev), lo, hi)
  {
    if ev.Measured? && e.nSamples > 0 {
      MeanInside(e.rtt, ev.m, c.gain, lo, hi);
      MeanInside(e.variance, Abs(ev.m - e.rtt), c.gain, 0.0, hi);
    }
  }

  /** Whatever the run, samples in [lo, hi] keep the estimate in [lo, hi] and the variance in [0, hi]. */
  lemma {:induction false} RunBounds(c: Config, evs: seq<Event>, lo: real, hi: real)
    requires 0.0 <= c.gain <= 1.0 && 0.0 <= lo <= hi && SamplesIn(evs, lo, hi)
    ensures Bounded(AfterAll(c, evs), lo, hi)
  {
    if evs != [] {
      RunBounds(c, evs[..|evs| - 1], lo, hi);
      StepBounds(c, AfterAll(c, evs[..|evs| - 1]), evs[|evs| - 1], lo, hi);
    }
  }

  lemma {:induction false} MultiplierBounds(c: Config, evs: seq<Event>)
    requires 1 <= c.maxMultiplier <= 32767
    ensures 1 <= AfterAll(c, evs).multiplier <= c.maxMultiplier
  {
    if evs != [] {
      MultiplierBounds(c, evs[..|evs| - 1]);
    }
  }

  function Power2(n: nat): (r: nat)
    ensures r >= 1
  {
    if n == 0 then 1 else 2 * Power2(n - 1)
  }

  function Doublings(n: nat): seq<Event> { seq(n, _ => Doubled) }

  lemma {:induction false} DoublingsDouble(c: Config, n: nat)
    requires c.maxMultiplier >= 32768 && Power2(n) <= 32768
    ensures AfterAll(c, Doublings(n)).multiplier == Power2(n)
  {
    if n > 0 {
      DoublingsDouble(c, n - 1);
      assert Doublings(n)[..n - 1] == Doublings(n - 1);
    }
  }

  /** The multiplier stays in [1, maxMultiplier] on every run exactly when doubling cannot overflow 16 bits. */
  lemma {:induction false} MultiplierStays(c: Config)
    requires 1 <= c.maxMultiplier < UINT16
    ensures (forall evs :: 1 <= AfterAll(c, evs).multiplier <= c.maxMultiplier) <==> c.maxMultiplier <= 32767
  {
    if c.maxMultiplier <= 32767 {
      forall evs ensures 1 <= AfterAll(c, evs).multiplier <= c.maxMultiplier { MultiplierBounds(c, evs); }
    } else {
      assert Power2(15) == 32768;
      DoublingsDouble(c, 15);
      assert Doublings(16)[..15] == Doublings(15);
      assert AfterAll(c, Doublings(16)).multiplier == 0;
    }
  }

  /** Exact values after one sample and after two, from any state: the first sample replaces the estimate
      and its variance, the second moves both towards it by the gain; the timeout is at least the floor,
      else the estimate plus four times the variance. */
  lemma {:induction false} SamplePair(c: Config, m1: real, m2: real)
    ensures var e := AfterAll(c, [Measured(m1)]);
      e.rtt == m1 && e.variance == m1 && Rto(c, e) == if c.minRto < 5.0 * m1 then 5.0 * m1 else c.minRto
    ensures var e := AfterAll(c, [Measured(m1), Measured(m2)]);
      var d := if m2 < m1 then m1 - m2 else m2 - m1;
      && e.rtt == m1 + c.gain * (m2 - m1) && e.variance == m1 + c.gain * (d - m1)
      && Rto(c, e) == if c.minRto < e.rtt + 4.0 * e.variance then e.rtt + 4.0 * e.variance else c.minRto
  {
    var es := [Measured(m1), Measured(m2)];
    assert es[..1] == [Measured(m1)] && [Measured(m1)][..0] == [];
    var e1 := AfterAll(c, [Measured(m1)]);
    assert AfterAll(c, []) == Initial && e1 == After(c, Initial, Measured(m1));
    assert AfterAll(c, es) == After(c, e1, Measured(m2));
    Linear(c.gain, m1, m2);
    Linear(c.gain, m1, Abs(m2 - m1));
  }

  /** A sample resets the multiplier; a timeout raises it by one or doubles it, up to the maximum. */
  lemma {:induction false} BackOff(c: Config, e: Estimate, m: real)
    requires 1 <= c.maxMultiplier <= 32767 && 1 <= e.multiplier <= c.maxMultiplier
    ensures After(c, e, Measured(m)).multiplier == 1
    ensures After(c, e, Incremented) == e.(multiplier := MinNat(e.multiplier + 1, c.maxMultiplier))
    ensures After(c, e, Doubled) == e.(multiplier := MinNat(2 * e.multiplier, c.maxMultiplier))
  {
  }

  /** The timeout value is proportional to the multiplier. */
  lemma {:induction false} TimeoutScales(c: Config, e: Estimate)
    ensures Rto(c, e) == (e.multiplier as real) * Rto(c, e.(multiplier := 1))
  {
    Times(MaxReal(c.minRto, e.rtt + 4.0 * e.variance), e.multiplier);
  }

  lemma {:induction false} Times(x: real, k: nat)
    ensures Scaled(x, 1) == x && Scaled(x, k) == (k as real) * x
  {
  }

  /** Before any sample the timeout is one second, or the floor if that is more. */
  lemma {:induction false} InitialTimeout(c: Config)
    ensures Rto(c, AfterAll(c, [])) == if c.minRto < 1000000.0 then 1000000.0 else c.minRto
  {
    Times(1000000.0, 1);
  }

  lemma {:induction false} Linear(g: real, x: real, y: real)
    ensures (1.0 - g) * x + g * y == x + g * (y - x)
  {
  }

  lemma {:induction false} ScaleUp(k: nat, x: real, y: real)
    requires x <= y
    ensures Scaled(x, k) <= Scaled(y, k)
  {
  }

  lemma {:induction false} RtoBounds(c: Config, e: Estimate, lo: real, hi: real)
    requires 0.0 <= lo <= hi && Bounded(e, lo, hi) && e.nSamples > 0
    ensures Scaled(MaxReal(c.minRto, lo), e.multiplier) <= Rto(c, e)
    ensures Rto(c, e) <= Scaled(MaxReal(c.minRto, 5.0 * hi), e.multiplier)
  {
    var base := MaxReal(c.minRto, e.rtt + 4.0 * e.variance);
    ScaleUp(e.multiplier, MaxReal(c.minRto, lo), base);
    ScaleUp(e.multiplier, base, MaxReal(c.minRto, 5.0 * hi));
  }

  /** After any run with a sample, the timeout before truncation is at least the larger of the floor and
      the least sample, and at most the larger of the floor and five times the largest, scaled alike. */
  lemma {:induction false} RunRto(c: Config, evs: seq<Event>, lo: real, hi: real)
    requires 0.0 <= c.gain <= 1.0 && 0.0 <= lo <= hi && SamplesIn(evs, lo, hi)
    requires HasSample(evs)
    ensures Scaled(MaxReal(c.minRto, lo), AfterAll(c, evs).multiplier) <= Rto(c, AfterAll(c, evs))
    ensures Rto(c, AfterAll(c, evs)) <= Scaled(MaxReal(c.minRto, 5.0 * hi), AfterAll(c, evs).multiplier)
  {
    SamplesCounted(c, evs);
    RunBounds(c, evs, lo, hi);
    RtoBounds(c, AfterAll(c, evs), lo, hi);
  }

  class RttEstimator {
    const config: Config
    var rtt: real
    var variance: real
    var multiplier: nat
    var nSamples: nat

    constructor (maxMultiplier: nat, minRto: real, gain: real)
      ensures config == Config(maxMultiplier, minRto, gain) && View() == Initial
    {
      config := Config(maxMultiplier, minRto, gain);
      rtt, variance, multiplier, nSamples := INITIAL_RTT, 0.0, 1, 0;
    }

    ghost function View(): Estimate
      reads this
    {
      Estimate(rtt, variance, multiplier, nSamples)
    }

    method AddMeasurement(m: real)
      modifies this
      ensures View() == After(config, old(View()), Measured(m))
    {
      if nSamples > 0 {
        var err := m - rtt;
        var gErr := err * config.gain;
        var difference := Abs(err) - variance;
        assert rtt + gErr == (1.0 - config.gain) * rtt + config.gain * m;
        assert variance + difference * config.gain == (1.0 - config.gain) * variance + config.gain * Abs(err);
        rtt := rtt + gErr;
        variance := variance + difference * config.gain;
      } else {
        rtt := m;
        variance := m;
      }
      nSamples := nSamples + 1;
      multiplier := 1;
    }

    method IncrementMultiplier()
      modifies `multiplier
      ensures View() == After(config, old(View()), Incremented)
    {
      multiplier := MinNat((multiplier + 1) % UINT16, config.maxMultiplier);
    }

    method DoubleMultiplier()
      modifies `multiplier
      ensures View() == After(config, old(View()), Doubled)
    {
      multiplier := MinNat(multiplier * 2 % UINT16, config.maxMultiplier);
    }

    method ComputeRto() returns (rto: real)
      ensures rto == Rto(config, View())
    {
      rto := MaxReal(config.minRto, rtt + 4.0 * variance);
      rto := rto * (multiplier as real);
    }
  }
}
