/**
 * The annealing schedule: the Metropolis acceptance rule with its random
 * test abstracted, the iterations per temperature, the cooling factor and
 * why the temperature loop ends, and the temperature calibration (an
 * acceptance-rate measurement inside a bisection).
 */
module Annealing {
  import opened SurgeryNodes
  import opened Schedules
  import opened Evaluation
  import opened Perturbation

  const InitialAcceptanceRate: real := 0.95
  const Alpha: real := 1.2
  const CalibrationTrials: nat := 100
  /** The initial temperature calculateAcceptanceRate hands to perturbSchedule. */
  const CalibrationCeiling: real := 10000.0
  const BisectLow: real := 0.01
  const BisectHigh: real := 10000.0
  const BisectTolerance: real := 0.1
  /** The bisection always halves 9999.99 this many times before the bracket is at most 0.1 wide. */
  const BisectSteps: nat := 17

  /**
   * The random draws of one perturbation and its acceptance test: the moves
   * of the up to 50 tries, and whether `random.nextDouble()` falls below
   * `exp(-deltaE / T)`.
   */
  datatype Sample = Sample(moves: nat -> Move, lucky: bool)

  /**
   * The Metropolis rule: a better neighbour is always taken; an equally good
   * one too, since `exp(0) = 1` exceeds every `nextDouble()`; a worse one when
   * the random test says so.
   */
  predicate Accept(delta: real, lucky: bool) {
    delta < 0.0 || delta == 0.0 || lucky
  }

  /** `(int) Math.round(1.5 * n)`: 1.5 n rounded half up. */
  function Iterations(n: nat): (k: nat)
    ensures k as real <= 1.5 * n as real + 0.5 < k as real + 1.0
  {
    (3 * n + 1) / 2
  }

  /**
   * `calculateCoolingRate`: `(1.2 sqrt(n) - 1) / (1.2 sqrt(n))`. For
   * `n >= 1` the square root is at least 1, and the factor lies in
   * [1/6, 1): every round strictly cools.
   */
  function CoolingRate(sqrtN: real): (r: real)
    requires sqrtN >= 1.0
    ensures 1.0 / 6.0 <= r < 1.0
  {
    var a := Alpha * sqrtN;
    assert a - 1.0 >= a / 6.0;
    (a - 1.0) / a
  }

  /** `1 / (1.2 sqrt(n) - 1)`, the per-round progress of the cooling bound. */
  function CoolingGain(sqrtN: real): (d: real)
    requires sqrtN >= 1.0
    ensures d > 0.0
  {
    1.0 / (Alpha * sqrtN - 1.0)
  }

  /**
   * After `k` rounds at factor r, `temp * (1 + k d) <= T0` still holds one
   * round later (`r d = 1 - r <= d`), so the temperature falls at least as
   * fast as `T0 / (1 + k d)`.
   */
  lemma CoolingStep(temp: real, t0: real, k: nat, sqrtN: real)
    requires sqrtN >= 1.0 && temp > 0.0
    requires temp * (1.0 + k as real * CoolingGain(sqrtN)) <= t0
    ensures temp * CoolingRate(sqrtN) > 0.0
    ensures temp * CoolingRate(sqrtN) * (1.0 + (k + 1) as real * CoolingGain(sqrtN)) <= t0
  {
    var a := Alpha * sqrtN;
    var r := CoolingRate(sqrtN);
    var d := CoolingGain(sqrtN);
    assert r * a == a - 1.0;
    assert d * (a - 1.0) == 1.0;
    assert r * d == 1.0 - r by {
      assert r * d * a * (a - 1.0) == (r * a) * (d * (a - 1.0));
      assert (1.0 - r) * a * (a - 1.0) == (a - r * a) * (a - 1.0);
    }
    assert 1.0 - r <= d by {
      assert (1.0 - r) * a == 1.0;
      assert a - 1.0 > 0.0 && 1.0 - r > 0.0;
      assert (1.0 - r) * (a - 1.0) < (1.0 - r) * a;
      var e := d - (1.0 - r);
      assert e * (a - 1.0) == d * (a - 1.0) - (1.0 - r) * (a - 1.0);
      assert e * (a - 1.0) > 0.0;
    }
    var kr := k as real;
    calc {
      temp * r * (1.0 + (kr + 1.0) * d);
      == temp * (r + (kr + 1.0) * (r * d));
      == temp * (r + (kr + 1.0) * (1.0 - r));
      == temp * (1.0 + kr * (1.0 - r));
      <= { assert kr * (1.0 - r) <= kr * d; }
         temp * (1.0 + kr * d);
    }
  }

  /** While the temperature is above 0.01, the round count is bounded: the loop cannot run forever. */
  lemma CoolingBound(temp: real, t0: real, k: nat, sqrtN: real)
    requires sqrtN >= 1.0 && temp > FinalTemperature
    requires temp * (1.0 + k as real * CoolingGain(sqrtN)) <= t0
    ensures k <= ((100.0 * t0 - 1.0) * (Alpha * sqrtN - 1.0)).Floor
  {
    var d := CoolingGain(sqrtN);
    var kr := k as real;
    assert 1.0 + kr * d >= 1.0;
    assert FinalTemperature * (1.0 + kr * d) <= temp * (1.0 + kr * d);
    assert kr * d <= 100.0 * t0 - 1.0;
    assert d * (Alpha * sqrtN - 1.0) == 1.0;
    assert kr == kr * d * (Alpha * sqrtN - 1.0);
    assert kr <= (100.0 * t0 - 1.0) * (Alpha * sqrtN - 1.0);
  }

  /** The bracket after `k` halvings: 9999.99 / 2^k. */
  function BracketWidth(k: nat): (w: real)
    ensures w > 0.0
  {
    if k == 0 then BisectHigh - BisectLow else BracketWidth(k - 1) / 2.0
  }

  lemma {:induction false} BracketShrinks(j: nat, k: nat)
    requires j <= k
    ensures BracketWidth(k) <= BracketWidth(j)
    decreases k
  {
    if j < k {
      BracketShrinks(j, k - 1);
    }
  }

  /** Sixteen halvings leave the bracket wider than 0.1, seventeen do not. */
  lemma BracketAtSeventeen()
    ensures BracketWidth(BisectSteps - 1) > BisectTolerance
    ensures BracketWidth(BisectSteps) <= BisectTolerance
  {
    assert BracketWidth(4) == 9999.99 / 16.0;
    assert BracketWidth(8) == 9999.99 / 256.0;
    assert BracketWidth(12) == 9999.99 / 4096.0;
    assert BracketWidth(16) == 9999.99 / 65536.0;
    assert BracketWidth(17) == 9999.99 / 131072.0;
  }

  /** A bracket wider than 0.1 has been halved fewer than 17 times. */
  lemma WideBracketIsEarly(k: nat)
    requires BracketWidth(k) > BisectTolerance
    ensures k < BisectSteps
  {
    if k >= BisectSteps {
      BracketShrinks(BisectSteps, k);
      BracketAtSeventeen();
    }
  }

  /** A bracket of at most 0.1 after at most 17 halvings has been halved exactly 17 times. */
  lemma NarrowBracketIsLast(k: nat)
    requires BracketWidth(k) <= BisectTolerance && k <= BisectSteps
    ensures k == BisectSteps
  {
    if k < BisectSteps {
      BracketShrinks(k, BisectSteps - 1);
      BracketAtSeventeen();
    }
  }

  /** The random draws of every try of a sample pick two different rooms when there are two rooms to pick. */
  predicate Drawable(rooms: Rooms, s: Sample) {
    |rooms| >= 2 ==> WellDrawn(rooms, s.moves, 0)
  }

  /** The neighbour one sample makes of `rooms` at temperature `temp`, initial temperature `initialTemp`. */
  function SampledNeighbour(rooms: Rooms, special: seq<string>, temp: real, initialTemp: real, s: Sample): (r: Rooms)
    requires Drawable(rooms, s)
    ensures r.Keys == rooms.Keys
  {
    PerturbedRooms(rooms, special, HighPhase(temp, initialTemp), s.moves)
  }

  /** One calibration trial at temperature `temp` is accepted. */
  predicate TrialAccepted(rooms: Rooms, special: seq<string>, allRooms: seq<string>, p: Params, temp: real, s: Sample)
    requires Drawable(rooms, s)
  {
    var nb := SampledNeighbour(rooms, special, temp, CalibrationCeiling, s);
    Accept(Cost(nb, allRooms, p) - Cost(rooms, allRooms, p), s.lucky)
  }

  /** How many of the first `n` calibration trials are accepted. */
  function AcceptedCount(rooms: Rooms, special: seq<string>, allRooms: seq<string>, p: Params, temp: real,
                         samples: nat -> Sample, n: nat): (c: nat)
    requires forall i: nat :: Drawable(rooms, samples(i))
    ensures c <= n
    decreases n
  {
    if n == 0 then 0
    else
      AcceptedCount(rooms, special, allRooms, p, temp, samples, n - 1)
      + (if TrialAccepted(rooms, special, allRooms, p, temp, samples(n - 1)) then 1 else 0)
  }

  /** One more trial adds one to the count exactly when it is accepted. */
  lemma AcceptedCountStep(rooms: Rooms, special: seq<string>, allRooms: seq<string>, p: Params, temp: real,
                          samples: nat -> Sample, n: nat)
    requires forall i: nat :: Drawable(rooms, samples(i))
    ensures AcceptedCount(rooms, special, allRooms, p, temp, samples, n + 1)
         == AcceptedCount(rooms, special, allRooms, p, temp, samples, n)
            + (if TrialAccepted(rooms, special, allRooms, p, temp, samples(n)) then 1 else 0)
  {
  }

  /** `calculateAcceptanceRate`: the accepted share of 100 trials, a value in [0, 1]. */
  function AcceptanceRate(rooms: Rooms, special: seq<string>, allRooms: seq<string>, p: Params, temp: real,
                          samples: nat -> Sample): (rate: real)
    requires forall i: nat :: Drawable(rooms, samples(i))
    ensures 0.0 <= rate <= 1.0
  {
    AcceptedCount(rooms, special, allRooms, p, temp, samples, CalibrationTrials) as real / CalibrationTrials as real
  }

  /** With fewer than two rooms a trial's neighbour is the schedule itself, so every trial is accepted. */
  lemma {:induction false} AllAcceptedWithoutMoves(rooms: Rooms, special: seq<string>, allRooms: seq<string>, p: Params,
                                                  temp: real, samples: nat -> Sample, n: nat)
    requires |rooms| < 2
    requires forall i: nat :: Drawable(rooms, samples(i))
    ensures AcceptedCount(rooms, special, allRooms, p, temp, samples, n) == n
    decreases n
  {
    if n > 0 {
      AllAcceptedWithoutMoves(rooms, special, allRooms, p, temp, samples, n - 1);
    }
  }

  /**
   * The rates `findInitialTemperature` can measure: `rate(j, t)` is what
   * `calculateAcceptanceRate(t)` returns on the random draws of the j-th
   * bisection step.
   */
  function MeasuredRates(rooms: Rooms, special: seq<string>, allRooms: seq<string>, p: Params,
                         probes: nat -> nat -> Sample): (rate: (nat, real) -> real)
    requires forall j: nat, i: nat :: Drawable(rooms, probes(j)(i))
    ensures forall j: nat, t: real :: rate(j, t) == AcceptanceRate(rooms, special, allRooms, p, t, probes(j))
  {
    (j: nat, t: real) => AcceptanceRate(rooms, special, allRooms, p, t, probes(j))
  }

  /** `rate(j, t)` is the acceptance rate at temperature `t` with the draws of step `j`. */
  ghost predicate RatesAre(rate: (nat, real) -> real, rooms: Rooms, special: seq<string>, allRooms: seq<string>,
                           p: Params, probes: nat -> nat -> Sample)
    requires forall j: nat, i: nat :: Drawable(rooms, probes(j)(i))
  {
    forall j: nat, t: real {:trigger AcceptanceRate(rooms, special, allRooms, p, t, probes(j))} ::
      rate(j, t) == AcceptanceRate(rooms, special, allRooms, p, t, probes(j))
  }

  /** The measured rates, as a value of which only `RatesAre` is known. */
  lemma RatesMeasured(rooms: Rooms, special: seq<string>, allRooms: seq<string>, p: Params,
                      probes: nat -> nat -> Sample) returns (rate: (nat, real) -> real)
    requires forall j: nat, i: nat :: Drawable(rooms, probes(j)(i))
    ensures RatesAre(rate, rooms, special, allRooms, p, probes)
  {
    rate := MeasuredRates(rooms, special, allRooms, p, probes);
  }

  /**
   * `findInitialTemperature` from a bracket `[low, high]` halved `k` times:
   * bisect while the bracket is wider than 0.1, going up when the rate
   * measured at the midpoint is below 0.95, and return the upper end.
   */
  function Bisect(rate: (nat, real) -> real, low: real, high: real, k: nat): (t: real)
    requires high - low == BracketWidth(k)
    ensures low < t <= high
    decreases BisectSteps - k, 1
  {
    if high - low <= BisectTolerance then high
    else BisectStep(rate, low, high, k)
  }

  /** One step of the bisection on a bracket wider than 0.1: measure at the midpoint and go on in one half. */
  function BisectStep(rate: (nat, real) -> real, low: real, high: real, k: nat): (t: real)
    requires high - low == BracketWidth(k) && high - low > BisectTolerance
    ensures low < t <= high
    decreases BisectSteps - k, 0
  {
    WideBracketIsEarly(k);
    var mid := low + (high - low) / 2.0;
    if rate(k, mid) < InitialAcceptanceRate
    then Bisect(rate, mid, high, k + 1)
    else Bisect(rate, low, mid, k + 1)
  }

  /** Bisection only looks at the rates, so rates that agree everywhere bisect alike. */
  lemma {:induction false} BisectAgrees(r1: (nat, real) -> real, r2: (nat, real) -> real, low: real, high: real, k: nat)
    requires high - low == BracketWidth(k)
    requires forall j: nat, t: real :: r1(j, t) == r2(j, t)
    ensures Bisect(r1, low, high, k) == Bisect(r2, low, high, k)
    decreases BisectSteps - k
  {
    if high - low > BisectTolerance {
      WideBracketIsEarly(k);
      var mid := low + (high - low) / 2.0;
      BisectAgrees(r1, r2, mid, high, k + 1);
      BisectAgrees(r1, r2, low, mid, k + 1);
    }
  }

  /** Bisecting rates that are the measured ones from the full bracket gives the initial temperature. */
  lemma RatesFindTemperature(rate: (nat, real) -> real, rooms: Rooms, special: seq<string>, allRooms: seq<string>,
                             p: Params, probes: nat -> nat -> Sample)
    requires forall j: nat, i: nat :: Drawable(rooms, probes(j)(i))
    requires RatesAre(rate, rooms, special, allRooms, p, probes)
    ensures Bisect(rate, BisectLow, BisectHigh, 0) == InitialTemperature(rooms, special, allRooms, p, probes)
  {
    var measured := MeasuredRates(rooms, special, allRooms, p, probes);
    forall j: nat, t: real
      ensures rate(j, t) == measured(j, t)
    {
      assert rate(j, t) == AcceptanceRate(rooms, special, allRooms, p, t, probes(j));
    }
    BisectAgrees(rate, measured, BisectLow, BisectHigh, 0);
  }

  /** A halving that moves up: the upper half has the next width, and the search goes on in it. */
  lemma BisectUp(rate: (nat, real) -> real, low: real, high: real, k: nat)
    requires high - low == BracketWidth(k) && high - low > BisectTolerance
    requires rate(k, low + (high - low) / 2.0) < InitialAcceptanceRate
    ensures high - (low + (high - low) / 2.0) == BracketWidth(k + 1)
    ensures Bisect(rate, low + (high - low) / 2.0, high, k + 1) == Bisect(rate, low, high, k)
  {
  }

  /** A halving that moves down: the lower half has the next width, and the search goes on in it. */
  lemma BisectDown(rate: (nat, real) -> real, low: real, high: real, k: nat)
    requires high - low == BracketWidth(k) && high - low > BisectTolerance
    requires rate(k, low + (high - low) / 2.0) >= InitialAcceptanceRate
    ensures (low + (high - low) / 2.0) - low == BracketWidth(k + 1)
    ensures Bisect(rate, low, low + (high - low) / 2.0, k + 1) == Bisect(rate, low, high, k)
  {
  }

  /**
   * The returned temperature is the upper end it started from, or one at
   * which a later step measured a rate of at least 0.95.
   */
  lemma {:induction false} BisectBrackets(rate: (nat, real) -> real, low: real, high: real, k: nat)
    requires high - low == BracketWidth(k)
    ensures var t := Bisect(rate, low, high, k);
      t == high || exists j: nat :: k <= j < BisectSteps && rate(j, t) >= InitialAcceptanceRate
    decreases BisectSteps - k
  {
    if high - low > BisectTolerance {
      WideBracketIsEarly(k);
      var mid := low + (high - low) / 2.0;
      if rate(k, mid) < InitialAcceptanceRate {
        BisectBrackets(rate, mid, high, k + 1);
      } else {
        BisectBrackets(rate, low, mid, k + 1);
      }
    }
  }
  /** The low end of the last bracket the bisection reaches; its result is the high end. */
  ghost function FinalLow(rate: (nat, real) -> real, low: real, high: real, k: nat): (l: real)
    requires high - low == BracketWidth(k)
    ensures low <= l < high
    decreases BisectSteps - k
  {
    if high - low <= BisectTolerance then low
    else
      WideBracketIsEarly(k);
      var mid := low + (high - low) / 2.0;
      if rate(k, mid) < InitialAcceptanceRate
      then FinalLow(rate, mid, high, k + 1)
      else FinalLow(rate, low, mid, k + 1)
  }

  /** The last bracket is the one 17 halvings wide: the result minus FinalLow is BracketWidth(17). */
  lemma {:induction false} FinalBracketWidth(rate: (nat, real) -> real, low: real, high: real, k: nat)
    requires high - low == BracketWidth(k) && k <= BisectSteps
    ensures Bisect(rate, low, high, k) - FinalLow(rate, low, high, k) == BracketWidth(BisectSteps)
    decreases BisectSteps - k
  {
    if high - low <= BisectTolerance {
      NarrowBracketIsLast(k);
    } else {
      WideBracketIsEarly(k);
      var mid := low + (high - low) / 2.0;
      assert Bisect(rate, low, high, k) == BisectStep(rate, low, high, k);
      if rate(k, mid) < InitialAcceptanceRate {
        FinalBracketWidth(rate, mid, high, k + 1);
      } else {
        FinalBracketWidth(rate, low, mid, k + 1);
      }
    }
  }

  /**
   * The lower side of BisectBrackets: the low end of the last bracket is the
   * initial low end or a midpoint whose measured acceptance rate was below 0.95.
   */
  lemma {:induction false} BisectFloor(rate: (nat, real) -> real, low: real, high: real, k: nat)
    requires high - low == BracketWidth(k)
    ensures var l := FinalLow(rate, low, high, k);
      l == low || exists j: nat :: k <= j < BisectSteps && rate(j, l) < InitialAcceptanceRate
    decreases BisectSteps - k
  {
    if high - low > BisectTolerance {
      WideBracketIsEarly(k);
      var mid := low + (high - low) / 2.0;
      if rate(k, mid) < InitialAcceptanceRate {
        BisectFloor(rate, mid, high, k + 1);
      } else {
        BisectFloor(rate, low, mid, k + 1);
      }
    }
  }


  /** When every measurement is below 0.95 the bisection climbs to the top of the bracket. */
  lemma {:induction false} BisectAllRejected(rate: (nat, real) -> real, low: real, high: real, k: nat)
    requires high - low == BracketWidth(k)
    requires forall j: nat, t: real :: rate(j, t) < InitialAcceptanceRate
    ensures Bisect(rate, low, high, k) == high
    decreases BisectSteps - k
  {
    if high - low > BisectTolerance {
      WideBracketIsEarly(k);
      var mid := low + (high - low) / 2.0;
      BisectAllRejected(rate, mid, high, k + 1);
    }
  }

  /**
   * When every measurement reaches 0.95 the bisection only lowers the upper
   * end, which ends 9999.99 / 2^17 above the lower end.
   */
  lemma {:induction false} BisectAllAccepted(rate: (nat, real) -> real, low: real, high: real, k: nat)
    requires high - low == BracketWidth(k)
    requires k <= BisectSteps
    requires forall j: nat, t: real :: rate(j, t) >= InitialAcceptanceRate
    ensures Bisect(rate, low, high, k) == low + BracketWidth(BisectSteps)
    decreases BisectSteps - k
  {
    BracketAtSeventeen();
    if high - low > BisectTolerance {
      WideBracketIsEarly(k);
      var mid := low + (high - low) / 2.0;
      BisectAllAccepted(rate, low, mid, k + 1);
    } else if k < BisectSteps {
      BracketShrinks(k, BisectSteps - 1);
    }
  }

  /** `findInitialTemperature`: the calibrated initial temperature, in (0.01, 10000]. */
  function InitialTemperature(rooms: Rooms, special: seq<string>, allRooms: seq<string>, p: Params,
                              probes: nat -> nat -> Sample): (t: real)
    requires forall j: nat, i: nat :: Drawable(rooms, probes(j)(i))
    ensures BisectLow < t <= BisectHigh
  {
    Bisect(MeasuredRates(rooms, special, allRooms, p, probes), BisectLow, BisectHigh, 0)
  }

  /** With fewer than two rooms every calibration measures a rate of 1.0. */
  lemma RateWithoutMoves(rooms: Rooms, special: seq<string>, allRooms: seq<string>, p: Params, temp: real,
                         samples: nat -> Sample)
    requires |rooms| < 2
    requires forall i: nat :: Drawable(rooms, samples(i))
    ensures AcceptanceRate(rooms, special, allRooms, p, temp, samples) == 1.0
  {
    AllAcceptedWithoutMoves(rooms, special, allRooms, p, temp, samples, CalibrationTrials);
  }

  /** With fewer than two rooms the calibration returns 0.01 + 9999.99 / 2^17. */
  lemma InitialTemperatureWithoutMoves(rooms: Rooms, special: seq<string>, allRooms: seq<string>, p: Params,
                                       probes: nat -> nat -> Sample)
    requires |rooms| < 2
    requires forall j: nat, i: nat :: Drawable(rooms, probes(j)(i))
    ensures InitialTemperature(rooms, special, allRooms, p, probes) == BisectLow + BracketWidth(BisectSteps)
  {
    var rate := MeasuredRates(rooms, special, allRooms, p, probes);
    forall j: nat, t: real
      ensures rate(j, t) >= InitialAcceptanceRate
    {
      RateWithoutMoves(rooms, special, allRooms, p, t, probes(j));
    }
    BisectAllAccepted(rate, BisectLow, BisectHigh, 0);
  }
}
