/**
 * The annealing loop of `schedule()` as values: the current schedule and the
 * best one so far, one Metropolis step, one temperature's sweep of steps,
 * and the rounds of cooling until the temperature is at most 0.01. The
 * properties the loop keeps are proved here: the best schedule never gets
 * worse, is never worse than the current one, and holds exactly the
 * requests and rooms of the initial schedule.
 */
module AnnealingRun {
  import opened SurgeryNodes
  import opened Schedules
  import opened Evaluation
  import opened Perturbation
  import opened Annealing

  /** What the loop holds between steps: the current schedule and the best so far, each with its cached cost. */
  datatype Walk = Walk(current: Rooms, currentCost: real, best: Rooms, bestCost: real)

  /** Before the first step the initial schedule is both the current and the best one. */
  function Start(rooms: Rooms, cost: Rooms -> real): (w: Walk)
    ensures w.current == w.best == rooms
    ensures w.currentCost == w.bestCost == cost(rooms)
  {
    var c := cost(rooms);
    Walk(rooms, c, rooms, c)
  }

  /** Every try of a sample picks two different rooms among `keys`, when there are two to pick. */
  predicate DrawableOn(keys: set<string>, s: Sample) {
    |keys| >= 2 ==> forall t: nat :: t < MaxTries ==> DistinctKeys(keys, s.moves(t))
  }

  predicate DistinctKeys(keys: set<string>, m: Move) {
    m.source in keys && m.target in keys && m.source != m.target
  }

  /** Which draws are usable depends only on the rooms' names, so the rooms may change meanwhile. */
  lemma DrawableByKeys(rooms: Rooms, s: Sample)
    requires DrawableOn(rooms.Keys, s)
    ensures Drawable(rooms, s)
  {
    if |rooms| >= 2 {
      assert |rooms.Keys| >= 2;
      forall k: nat | k < MaxTries ensures DistinctRooms(rooms, s.moves(k)) {
        assert DistinctKeys(rooms.Keys, s.moves(k));
      }
    }
  }

  /**
   * One iteration of the inner loop at temperature `temp`: perturb the
   * current schedule, cost the neighbour, and take it by the Metropolis
   * rule; a taken neighbour strictly cheaper than the best becomes the new
   * best.
   */
  function Step(w: Walk, special: seq<string>, cost: Rooms -> real, temp: real, t0: real, s: Sample)
    : (r: Walk)
    requires DrawableOn(w.current.Keys, s)
    ensures r.current.Keys == w.current.Keys
    ensures w.best.Keys == w.current.Keys ==> r.best.Keys == w.current.Keys
  {
    DrawableByKeys(w.current, s);
    var nb := SampledNeighbour(w.current, special, temp, t0, s);
    var c := cost(nb);
    if Accept(c - w.currentCost, s.lucky) then
      if c < w.bestCost then Walk(nb, c, nb, c) else Walk(nb, c, w.best, w.bestCost)
    else w
  }

  /** The first `n` iterations at one temperature, with the draws `samples(0)`, `samples(1)`, ... */
  function Sweep(w: Walk, special: seq<string>, cost: Rooms -> real, temp: real, t0: real,
                 samples: nat -> Sample, n: nat): (r: Walk)
    requires forall i: nat :: DrawableOn(w.current.Keys, samples(i))
    ensures r.current.Keys == w.current.Keys
    ensures w.best.Keys == w.current.Keys ==> r.best.Keys == w.current.Keys
    decreases n
  {
    if n == 0 then w
    else Step(Sweep(w, special, cost, temp, t0, samples, n - 1), special, cost, temp, t0, samples(n - 1))
  }

  /** One more iteration of a sweep is one more step. */
  lemma SweepStep(w: Walk, special: seq<string>, cost: Rooms -> real, temp: real, t0: real,
                  samples: nat -> Sample, n: nat)
    requires forall i: nat :: DrawableOn(w.current.Keys, samples(i))
    ensures Sweep(w, special, cost, temp, t0, samples, n + 1)
         == Step(Sweep(w, special, cost, temp, t0, samples, n), special, cost, temp, t0, samples(n))
  {
  }

  /** The bound on the number of cooling rounds that `CoolingBound` gives. */
  function RoundBound(t0: real, sqrtN: real): int {
    ((100.0 * t0 - 1.0) * (Alpha * sqrtN - 1.0)).Floor
  }

  /**
   * The temperature loop from round `k` at temperature `temp`: while the
   * temperature is above 0.01, a sweep of `iterations` steps with the draws
   * `draws(k)`, then cooling by the factor of calculateCoolingRate. The
   * requires on `temp` is what the cooling keeps, and bounds the rounds.
   */
  function Anneal(w: Walk, special: seq<string>, cost: Rooms -> real, temp: real, t0: real,
                  sqrtN: real, iterations: nat, draws: nat -> nat -> Sample, k: nat): (r: Walk)
    requires sqrtN >= 1.0
    requires temp * (1.0 + k as real * CoolingGain(sqrtN)) <= t0
    requires forall j: nat, i: nat :: DrawableOn(w.current.Keys, draws(j)(i))
    ensures r.current.Keys == w.current.Keys
    ensures w.best.Keys == w.current.Keys ==> r.best.Keys == w.current.Keys
    decreases RoundBound(t0, sqrtN) - k
  {
    if temp <= FinalTemperature then w
    else
      CoolingStep(temp, t0, k, sqrtN);
      CoolingBound(temp, t0, k, sqrtN);
      var w' := Sweep(w, special, cost, temp, t0, draws(k), iterations);
      Anneal(w', special, cost, temp * CoolingRate(sqrtN), t0, sqrtN, iterations, draws, k + 1)
  }

  /** A round at a temperature above 0.01 hands the loop on to the next round, one sweep later. */
  lemma AnnealRound(w: Walk, special: seq<string>, cost: Rooms -> real, temp: real, t0: real,
                    sqrtN: real, iterations: nat, draws: nat -> nat -> Sample, k: nat)
    requires sqrtN >= 1.0 && temp > FinalTemperature
    requires temp * (1.0 + k as real * CoolingGain(sqrtN)) <= t0
    requires forall j: nat, i: nat :: DrawableOn(w.current.Keys, draws(j)(i))
    ensures temp * CoolingRate(sqrtN) * (1.0 + (k + 1) as real * CoolingGain(sqrtN)) <= t0
    ensures var w' := Sweep(w, special, cost, temp, t0, draws(k), iterations);
      Anneal(w, special, cost, temp, t0, sqrtN, iterations, draws, k)
      == Anneal(w', special, cost, temp * CoolingRate(sqrtN), t0, sqrtN, iterations, draws, k + 1)
  {
    CoolingStep(temp, t0, k, sqrtN);
  }

  // ---------------------------------------------------------------------
  // What the loop keeps

  /**
   * The loop's invariant: both cached costs are the schedules' true costs,
   * the best is no worse than the current one, and both hold exactly the
   * requests `requests` in the rooms `keys`.
   */
  ghost predicate Sound(w: Walk, cost: Rooms -> real, requests: multiset<SurgeryNode>, keys: set<string>) {
    && w.currentCost == cost(w.current)
    && w.bestCost == cost(w.best)
    && w.bestCost <= w.currentCost
    && w.current.Keys == keys && w.best.Keys == keys
    && Census(w.current) == requests && Census(w.best) == requests
  }

  /** No request that needs a special room sits outside one, in the current or the best schedule. */
  predicate BothValid(w: Walk, special: seq<string>) {
    Valid(w.current, special) && Valid(w.best, special)
  }

  /**
   * A step keeps the invariant and validity; the best cost never rises, and
   * a best that changes becomes the current schedule.
   */
  lemma StepSound(w: Walk, special: seq<string>, cost: Rooms -> real, temp: real, t0: real, s: Sample,
                  requests: multiset<SurgeryNode>, keys: set<string>)
    requires DrawableOn(w.current.Keys, s)
    requires Sound(w, cost, requests, keys)
    ensures var r := Step(w, special, cost, temp, t0, s);
      && Sound(r, cost, requests, keys)
      && r.bestCost <= w.bestCost
      && (r.best == w.best || r.best == r.current)
      && (BothValid(w, special) ==> BothValid(r, special))
  {
    DrawableByKeys(w.current, s);
    var longest := HighPhase(temp, t0);
    var nb := SampledNeighbour(w.current, special, temp, t0, s);
    var c := cost(nb);
    var r := Step(w, special, cost, temp, t0, s);
    PerturbedRoomsConserve(w.current, special, longest, s.moves);
    if Valid(w.current, special) {
      PerturbedRoomsValid(w.current, special, longest, s.moves);
    }
    if !Accept(c - w.currentCost, s.lucky) {
      assert r == w;
    } else if c < w.bestCost {
      assert r == Walk(nb, c, nb, c);
    } else {
      assert r == Walk(nb, c, w.best, w.bestCost);
    }
  }

  /** A sweep keeps the invariant and validity, and the best cost never rises. */
  lemma {:induction false} SweepSound(w: Walk, special: seq<string>, cost: Rooms -> real, temp: real,
                                      t0: real, samples: nat -> Sample, n: nat,
                                      requests: multiset<SurgeryNode>, keys: set<string>)
    requires forall i: nat :: DrawableOn(w.current.Keys, samples(i))
    requires Sound(w, cost, requests, keys)
    ensures var r := Sweep(w, special, cost, temp, t0, samples, n);
      && Sound(r, cost, requests, keys)
      && r.bestCost <= w.bestCost
      && (BothValid(w, special) ==> BothValid(r, special))
    decreases n
  {
    if n > 0 {
      var v := Sweep(w, special, cost, temp, t0, samples, n - 1);
      SweepSound(w, special, cost, temp, t0, samples, n - 1, requests, keys);
      StepSound(v, special, cost, temp, t0, samples(n - 1), requests, keys);
    }
  }

  /** The whole temperature loop keeps the invariant and validity, and the best cost never rises. */
  lemma {:induction false} AnnealSound(w: Walk, special: seq<string>, cost: Rooms -> real, temp: real,
                                       t0: real, sqrtN: real, iterations: nat, draws: nat -> nat -> Sample, k: nat,
                                       requests: multiset<SurgeryNode>, keys: set<string>)
    requires sqrtN >= 1.0
    requires temp * (1.0 + k as real * CoolingGain(sqrtN)) <= t0
    requires forall j: nat, i: nat :: DrawableOn(w.current.Keys, draws(j)(i))
    requires Sound(w, cost, requests, keys)
    ensures var r := Anneal(w, special, cost, temp, t0, sqrtN, iterations, draws, k);
      && Sound(r, cost, requests, keys)
      && r.bestCost <= w.bestCost
      && (BothValid(w, special) ==> BothValid(r, special))
    decreases RoundBound(t0, sqrtN) - k
  {
    if temp > FinalTemperature {
      AnnealRound(w, special, cost, temp, t0, sqrtN, iterations, draws, k);
      CoolingBound(temp, t0, k, sqrtN);
      var w' := Sweep(w, special, cost, temp, t0, draws(k), iterations);
      SweepSound(w, special, cost, temp, t0, draws(k), iterations, requests, keys);
      var temp' := temp * CoolingRate(sqrtN);
      assert A1: temp' * (1.0 + (k + 1) as real * CoolingGain(sqrtN)) <= t0;
      assert A2: forall j: nat, i: nat :: DrawableOn(w'.current.Keys, draws(j)(i));
      assert A3: Sound(w', cost, requests, keys);
      assert A4: 0 <= RoundBound(t0, sqrtN) - k;
      AnnealSound(w', special, cost, temp * CoolingRate(sqrtN), t0, sqrtN, iterations, draws, k + 1,
                  requests, keys);
    }
  }

  // ---------------------------------------------------------------------
  // The whole run

  /** Draws usable on the rooms' names are usable on the rooms, for every step. */
  lemma DrawableAllByKeys(rooms: Rooms, probes: nat -> nat -> Sample)
    requires forall j: nat, i: nat :: DrawableOn(rooms.Keys, probes(j)(i))
    ensures forall j: nat, i: nat :: Drawable(rooms, probes(j)(i))
  {
    forall j: nat, i: nat ensures Drawable(rooms, probes(j)(i)) {
      DrawableByKeys(rooms, probes(j)(i));
    }
  }

  /** `calculateCost` over the rooms `allRooms` with the parameters `p`, as a function of the room map. */
  function CostOf(allRooms: seq<string>, p: Params): (cost: Rooms -> real)
    ensures forall rooms :: cost(rooms) == Cost(rooms, allRooms, p)
  {
    rooms => Cost(rooms, allRooms, p)
  }

  /**
   * `cost` is calculateCost over `allRooms` with the parameters `p`; only
   * a cost that is already in hand is related to `cost`.
   */
  ghost predicate CostsAre(cost: Rooms -> real, allRooms: seq<string>, p: Params) {
    forall rooms {:trigger Cost(rooms, allRooms, p)} :: cost(rooms) == Cost(rooms, allRooms, p)
  }

  /** A square root of a positive whole number is at least 1. */
  lemma SqrtAtLeastOne(sqrtN: real, n: nat)
    requires sqrtN >= 0.0 && sqrtN * sqrtN == n as real && n > 0
    ensures sqrtN >= 1.0
  {
    var d := sqrtN + 1.0;
    assert (sqrtN - 1.0) * d == sqrtN * sqrtN - 1.0;
    PositiveFactor(sqrtN - 1.0, d);
  }

  /** A product that is not negative, with a positive factor, has its other factor not negative. */
  lemma PositiveFactor(a: real, b: real)
    requires b > 0.0 && a * b >= 0.0
    ensures a >= 0.0
  {
  }

  /**
   * The annealing of `schedule()` from the initial rooms at the initial
   * temperature `t0`: cool from it with round(1.5 n) iterations per
   * temperature. With n = 0 the one round runs no iteration and its
   * cooling factor, -1 / 0.0, is -Infinity, which ends the loop.
   */
  function Cool(rooms: Rooms, special: seq<string>, cost: Rooms -> real, t0: real, draws: nat -> nat -> Sample,
                sqrtN: real, n: nat): (w: Walk)
    requires sqrtN >= 0.0 && sqrtN * sqrtN == n as real
    requires forall j: nat, i: nat :: DrawableOn(rooms.Keys, draws(j)(i))
    ensures w.best.Keys == rooms.Keys
  {
    if n == 0 then Start(rooms, cost)
    else
      SqrtAtLeastOne(sqrtN, n);
      Anneal(Start(rooms, cost), special, cost, t0, t0, sqrtN, Iterations(n), draws, 0)
  }

  /** The annealing of `schedule()`: calibrate the initial temperature, then cool from it. */
  function Run(rooms: Rooms, special: seq<string>, allRooms: seq<string>, p: Params, probes: nat -> nat -> Sample,
               draws: nat -> nat -> Sample, sqrtN: real, n: nat): (w: Walk)
    requires sqrtN >= 0.0 && sqrtN * sqrtN == n as real
    requires forall j: nat, i: nat :: DrawableOn(rooms.Keys, probes(j)(i))
    requires forall j: nat, i: nat :: DrawableOn(rooms.Keys, draws(j)(i))
    ensures w.best.Keys == rooms.Keys
  {
    DrawableAllByKeys(rooms, probes);
    Cool(rooms, special, CostOf(allRooms, p), InitialTemperature(rooms, special, allRooms, p, probes), draws, sqrtN, n)
  }

  /**
   * What `schedule()` promises of its best schedule: it has the initial
   * schedule's rooms and exactly its requests, its cached cost is its true
   * cost, it is no worse than the initial schedule nor than the schedule
   * the walk ends on, and it is valid when the initial schedule is.
   */
  lemma RunSound(rooms: Rooms, special: seq<string>, allRooms: seq<string>, p: Params, probes: nat -> nat -> Sample,
                 draws: nat -> nat -> Sample, sqrtN: real, n: nat)
    requires sqrtN >= 0.0 && sqrtN * sqrtN == n as real
    requires forall j: nat, i: nat :: DrawableOn(rooms.Keys, probes(j)(i))
    requires forall j: nat, i: nat :: DrawableOn(rooms.Keys, draws(j)(i))
    ensures var w := Run(rooms, special, allRooms, p, probes, draws, sqrtN, n);
      && w.best.Keys == rooms.Keys && Census(w.best) == Census(rooms)
      && w.bestCost == Cost(w.best, allRooms, p)
      && w.bestCost <= Cost(rooms, allRooms, p)
      && w.bestCost <= w.currentCost
      && (Valid(rooms, special) ==> Valid(w.best, special))
  {
    var cost := CostOf(allRooms, p);
    var w0 := Start(rooms, cost);
    assert Sound(w0, cost, Census(rooms), rooms.Keys);
    if n > 0 {
      SqrtAtLeastOne(sqrtN, n);
      DrawableAllByKeys(rooms, probes);
      var t0 := InitialTemperature(rooms, special, allRooms, p, probes);
      AnnealSound(w0, special, cost, t0, t0, sqrtN, Iterations(n), draws, 0, Census(rooms), rooms.Keys);
    }
  }
}
