/**
 * The neighbourhood move of the annealing search (perturbSchedule): pick two
 * different rooms, take the longest (high temperature) or shortest (low
 * temperature) request out of the first, and either swap it with a request
 * of the second room or insert it there; retry up to 50 times until the
 * result keeps every special request in a special room.
 *
 * The random choices of one try are a `Move` supplied by the caller; the
 * random integer bounds of the source are applied to its `position`.
 */
module Perturbation {
  import opened Wrappers
  import opened SurgeryNodes
  import opened Schedules
  import opened Evaluation

  const MaxTries: nat := 50
  const FinalTemperature: real := 0.01
  const HighThreshold: real := 0.6

  /**
   * The random draws of one try: the two rooms, the coin that chooses swap
   * over insert, and the raw position, reduced modulo `list2.size()` for a
   * swap and modulo `list2.size() + 1` for an insert.
   */
  datatype Move = Move(source: string, target: string, swap: bool, position: nat)

  /**
   * `tNorm > TH` with `tNorm = (temp - FINAL) / (initialTemp - FINAL)`,
   * including the IEEE cases of a zero denominator (a positive numerator
   * gives +Infinity, zero gives NaN, a negative one -Infinity).
   */
  predicate HighPhase(temp: real, initialTemp: real) {
    var span := initialTemp - FinalTemperature;
    if span == 0.0 then temp - FinalTemperature > 0.0
    else (temp - FinalTemperature) / span > HighThreshold
  }

  /** Above the threshold the normalised temperature is more than 0.6 of the way from the final to the initial one. */
  lemma HighPhaseMeaning(temp: real, initialTemp: real)
    requires initialTemp > FinalTemperature
    ensures HighPhase(temp, initialTemp)
        <==> temp > FinalTemperature + HighThreshold * (initialTemp - FinalTemperature)
  {
    var span := initialTemp - FinalTemperature;
    var q := (temp - FinalTemperature) / span;
    assert q * span == temp - FinalTemperature;
    if q > HighThreshold {
      assert q * span > HighThreshold * span;
    } else {
      assert q * span <= HighThreshold * span;
    }
  }

  /** Index `Collections.max` returns by duration: a longest request, the first of equals. */
  function FirstLongest(list: seq<SurgeryNode>): (i: nat)
    requires |list| > 0
    ensures i < |list|
    ensures forall j :: 0 <= j < |list| ==> list[j].surgeryTime <= list[i].surgeryTime
    ensures forall j :: 0 <= j < i ==> list[j].surgeryTime < list[i].surgeryTime
    decreases |list|
  {
    if |list| == 1 then 0
    else
      var k := FirstLongest(list[..|list| - 1]);
      if list[|list| - 1].surgeryTime > list[k].surgeryTime then |list| - 1 else k
  }

  /** Index `Collections.min` returns by duration: a shortest request, the first of equals. */
  function FirstShortest(list: seq<SurgeryNode>): (i: nat)
    requires |list| > 0
    ensures i < |list|
    ensures forall j :: 0 <= j < |list| ==> list[i].surgeryTime <= list[j].surgeryTime
    ensures forall j :: 0 <= j < i ==> list[i].surgeryTime < list[j].surgeryTime
    decreases |list|
  {
    if |list| == 1 then 0
    else
      var k := FirstShortest(list[..|list| - 1]);
      if list[|list| - 1].surgeryTime < list[k].surgeryTime then |list| - 1 else k
  }

  /** The list without its `i`-th element (`list1.remove(targetNode)` on the object at index `i`). */
  function RemoveAt(list: seq<SurgeryNode>, i: nat): (r: seq<SurgeryNode>)
    requires i < |list|
    ensures |r| == |list| - 1
    ensures r[..i] == list[..i] && r[i..] == list[i + 1..]
  {
    list[..i] + list[i + 1..]
  }

  /** Removing an element takes exactly one occurrence of it out of the list's multiset. */
  lemma RemoveAtMultiset(list: seq<SurgeryNode>, i: nat)
    requires i < |list|
    ensures multiset(RemoveAt(list, i)) + multiset{list[i]} == multiset(list)
  {
    assert list == list[..i] + [list[i]] + list[i + 1..];
  }

  /** The list with `x` inserted before position `j` (`list2.add(j, x)`). */
  function InsertAt(list: seq<SurgeryNode>, j: nat, x: SurgeryNode): (r: seq<SurgeryNode>)
    requires j <= |list|
    ensures |r| == |list| + 1 && r[j] == x
    ensures r[..j] == list[..j] && r[j + 1..] == list[j..]
  {
    list[..j] + [x] + list[j..]
  }

  /** Inserting an element adds exactly one occurrence of it to the list's multiset. */
  lemma InsertAtMultiset(list: seq<SurgeryNode>, j: nat, x: SurgeryNode)
    requires j <= |list|
    ensures multiset(InsertAt(list, j, x)) == multiset(list) + multiset{x}
  {
    assert list == list[..j] + list[j..];
  }

  /** The two rooms of a move are different rooms of the map, as the redraw loop guarantees. */
  predicate DistinctRooms(rooms: Rooms, m: Move) {
    m.source in rooms && m.target in rooms && m.source != m.target
  }

  /** The request a try takes out of the non-empty source room. */
  function Picked(list: seq<SurgeryNode>, longest: bool): (i: nat)
    requires |list| > 0
    ensures i < |list|
  {
    if longest then FirstLongest(list) else FirstShortest(list)
  }

  /**
   * The two room lists after request `i` of the source list moved: either
   * swapped with a request of the target list, which goes to the end of the
   * source list, or inserted into the target list.
   */
  function Relocate(list1: seq<SurgeryNode>, list2: seq<SurgeryNode>, i: nat, swap: bool, position: nat)
    : (p: (seq<SurgeryNode>, seq<SurgeryNode>))
    requires i < |list1|
    ensures |p.0| + |p.1| == |list1| + |list2|
    ensures list1[i] in p.1
  {
    var node := list1[i];
    var rest := RemoveAt(list1, i);
    if swap && |list2| > 0 then
      var j := position % |list2|;
      assert list2[j := node][j] == node;
      (rest + [list2[j]], list2[j := node])
    else
      var j := position % (|list2| + 1);
      (rest, InsertAt(list2, j, node))
  }

  /** A relocation keeps the requests of the two lists together: nothing created, nothing lost. */
  lemma RelocateConserves(list1: seq<SurgeryNode>, list2: seq<SurgeryNode>, i: nat, swap: bool, position: nat)
    requires i < |list1|
    ensures var p := Relocate(list1, list2, i, swap, position);
      multiset(p.0) + multiset(p.1) == multiset(list1) + multiset(list2)
  {
    var node := list1[i];
    RemoveAtMultiset(list1, i);
    if swap && |list2| > 0 {
      var j := position % |list2|;
      assert list2 == list2[..j] + [list2[j]] + list2[j + 1..];
      assert list2[j := node] == list2[..j] + [node] + list2[j + 1..];
    } else {
      InsertAtMultiset(list2, position % (|list2| + 1), node);
    }
  }

  /**
   * One try of perturbSchedule: `None` when the source room is empty (the
   * try is skipped), otherwise the rooms after the swap or the insert.
   */
  function Attempt(rooms: Rooms, m: Move, longest: bool): (r: Option<Rooms>)
    requires DistinctRooms(rooms, m)
    ensures r.None? <==> rooms[m.source] == []
    ensures r.Some? ==> r.value.Keys == rooms.Keys
    ensures r.Some? ==> forall k :: k in rooms && k != m.source && k != m.target ==> r.value[k] == rooms[k]
    ensures r.Some? ==> |r.value[m.source]| + |r.value[m.target]| == |rooms[m.source]| + |rooms[m.target]|
    ensures r.Some? ==> rooms[m.source][Picked(rooms[m.source], longest)] in r.value[m.target]
  {
    var list1 := rooms[m.source];
    if |list1| == 0 then None
    else
      var p := Relocate(list1, rooms[m.target], Picked(list1, longest), m.swap, m.position);
      Some(rooms[m.source := p.0][m.target := p.1])
  }

  /** A try moves requests between two rooms and never creates or loses one. */
  lemma AttemptConserves(rooms: Rooms, m: Move, longest: bool)
    requires DistinctRooms(rooms, m)
    requires Attempt(rooms, m, longest).Some?
    ensures Census(Attempt(rooms, m, longest).value) == Census(rooms)
  {
    var list1 := rooms[m.source];
    var list2 := rooms[m.target];
    var p := Relocate(list1, list2, Picked(list1, longest), m.swap, m.position);
    RelocateConserves(list1, list2, Picked(list1, longest), m.swap, m.position);
    var r1 := rooms[m.source := p.0];
    var r2 := r1[m.target := p.1];
    assert Attempt(rooms, m, longest).value == r2;
    CensusUpdate(rooms, m.source, p.0);
    assert r1[m.target] == list2;
    CensusUpdate(r1, m.target, p.1);
    CensusBalance(Census(rooms), Census(r1), Census(r2), multiset(p.0), multiset(p.1), multiset(list1),
                  multiset(list2));
  }

  /**
   * Two room updates in a row: taking `l1` out and `s0` in, then `l2` out and
   * `s1` in, changes nothing when the two lists put back what they took.
   */
  lemma CensusBalance(a: multiset<SurgeryNode>, b: multiset<SurgeryNode>, c: multiset<SurgeryNode>,
                      s0: multiset<SurgeryNode>, s1: multiset<SurgeryNode>, l1: multiset<SurgeryNode>,
                      l2: multiset<SurgeryNode>)
    requires b + l1 == a + s0 && c + l2 == b + s1 && s0 + s1 == l1 + l2
    ensures c == a
  {
    forall e ensures c[e] == a[e] {
      assert (b + l1)[e] == (a + s0)[e] && (c + l2)[e] == (b + s1)[e] && (s0 + s1)[e] == (l1 + l2)[e];
    }
  }

  /** A try that takes place keeps the total number of requests placed. */
  lemma AttemptKeepsCount(rooms: Rooms, m: Move, longest: bool)
    requires DistinctRooms(rooms, m)
    requires Attempt(rooms, m, longest).Some?
    ensures |Census(Attempt(rooms, m, longest).value)| == |Census(rooms)|
  {
    AttemptConserves(rooms, m, longest);
  }

  /** A try takes place and its result passes isValid. */
  predicate Succeeds(rooms: Rooms, special: seq<string>, m: Move, longest: bool)
    requires DistinctRooms(rooms, m)
  {
    var r := Attempt(rooms, m, longest);
    r.Some? && Valid(r.value, special)
  }

  /** The random draws of tries `from` up to the try limit pick two different rooms. */
  predicate WellDrawn(rooms: Rooms, moves: nat -> Move, from: nat) {
    forall k: nat :: from <= k < MaxTries ==> DistinctRooms(rooms, moves(k))
  }

  /**
   * The retry loop of perturbSchedule: the first try from `tries` on whose
   * result passes isValid, or `MaxTries` when none does.
   */
  function FirstSuccess(rooms: Rooms, special: seq<string>, longest: bool, moves: nat -> Move, tries: nat): (t: nat)
    requires tries <= MaxTries
    requires WellDrawn(rooms, moves, tries)
    ensures tries <= t <= MaxTries
    ensures t < MaxTries ==> Succeeds(rooms, special, moves(t), longest)
    ensures forall u :: tries <= u < t ==> !Succeeds(rooms, special, moves(u), longest)
    decreases MaxTries - tries
  {
    if tries == MaxTries || Succeeds(rooms, special, moves(tries), longest) then tries
    else FirstSuccess(rooms, special, longest, moves, tries + 1)
  }

  /** What the retry loop yields: the rooms of the first successful try, or `None` when all 50 fail. */
  function Neighbour(rooms: Rooms, special: seq<string>, longest: bool, moves: nat -> Move): (r: Option<Rooms>)
    requires WellDrawn(rooms, moves, 0)
    ensures r.Some? ==> Valid(r.value, special) && r.value.Keys == rooms.Keys
  {
    var t := FirstSuccess(rooms, special, longest, moves, 0);
    if t < MaxTries then Attempt(rooms, moves(t), longest) else None
  }

  /** Whether each of the first `n` tries succeeds, try by try. */
  ghost function Outcomes(rooms: Rooms, special: seq<string>, longest: bool, moves: nat -> Move, n: nat): (o: seq<bool>)
    requires n <= MaxTries && WellDrawn(rooms, moves, 0)
    ensures |o| == n
    ensures forall t :: 0 <= t < n ==> o[t] == Succeeds(rooms, special, moves(t), longest)
  {
    seq(n, t requires 0 <= t < n => Succeeds(rooms, special, moves(t), longest))
  }

  /** The first index from `t` on that holds `true`, or `|o|` when none does. */
  function FirstTrue(o: seq<bool>, t: nat): (i: nat)
    requires t <= |o|
    ensures t <= i <= |o|
    ensures i < |o| ==> o[i]
    ensures forall u :: t <= u < i ==> !o[u]
    decreases |o| - t
  {
    if t == |o| || o[t] then t else FirstTrue(o, t + 1)
  }

  /** The search for the first successful try reads the tries' outcomes in order. */
  lemma {:induction false} FirstSuccessIsFirstTrue(rooms: Rooms, special: seq<string>, longest: bool, moves: nat -> Move, t: nat)
    requires t <= MaxTries && WellDrawn(rooms, moves, 0)
    ensures FirstSuccess(rooms, special, longest, moves, t) == FirstTrue(Outcomes(rooms, special, longest, moves, MaxTries), t)
    decreases MaxTries - t
  {
    if t < MaxTries {
      FirstSuccessIsFirstTrue(rooms, special, longest, moves, t + 1);
    }
  }

  /** Any try that would succeed makes the search succeed. */
  lemma NeighbourFindsSuccess(rooms: Rooms, special: seq<string>, longest: bool, moves: nat -> Move, t: nat)
    requires t < MaxTries
    requires WellDrawn(rooms, moves, 0)
    requires Succeeds(rooms, special, moves(t), longest)
    ensures Neighbour(rooms, special, longest, moves).Some?
  {
  }

  /** A neighbour holds exactly the requests of the schedule it was made from, in the same rooms' set. */
  lemma NeighbourConserves(rooms: Rooms, special: seq<string>, longest: bool, moves: nat -> Move)
    requires WellDrawn(rooms, moves, 0)
    requires Neighbour(rooms, special, longest, moves).Some?
    ensures Census(Neighbour(rooms, special, longest, moves).value) == Census(rooms)
  {
    AttemptConserves(rooms, moves(FirstSuccess(rooms, special, longest, moves, 0)), longest);
  }

  /** When every room is empty, no try takes place. */
  lemma {:induction false} NoSuccessInEmptyRooms(rooms: Rooms, special: seq<string>, longest: bool, moves: nat -> Move, tries: nat)
    requires tries <= MaxTries
    requires WellDrawn(rooms, moves, tries)
    requires forall k :: k in rooms ==> rooms[k] == []
    ensures FirstSuccess(rooms, special, longest, moves, tries) == MaxTries
    decreases MaxTries - tries
  {
    if tries < MaxTries {
      NoSuccessInEmptyRooms(rooms, special, longest, moves, tries + 1);
    }
  }

  lemma NoNeighbourOfEmptyRooms(rooms: Rooms, special: seq<string>, longest: bool, moves: nat -> Move)
    requires WellDrawn(rooms, moves, 0)
    requires forall k :: k in rooms ==> rooms[k] == []
    ensures Neighbour(rooms, special, longest, moves) == None
  {
    NoSuccessInEmptyRooms(rooms, special, longest, moves, 0);
  }

  /**
   * The rooms of the schedule perturbSchedule returns: a plain copy when
   * there are fewer than two rooms, the first successful try, or the
   * current rooms when all 50 tries fail.
   */
  function PerturbedRooms(rooms: Rooms, special: seq<string>, longest: bool, moves: nat -> Move): (r: Rooms)
    requires |rooms| >= 2 ==> WellDrawn(rooms, moves, 0)
    ensures r.Keys == rooms.Keys
    ensures r != rooms ==> Valid(r, special)
  {
    if |rooms| < 2 then rooms
    else match Neighbour(rooms, special, longest, moves)
      case Some(m) => m
      case None => rooms
  }

  /** Perturbation neither loses nor duplicates a request. */
  lemma PerturbedRoomsConserve(rooms: Rooms, special: seq<string>, longest: bool, moves: nat -> Move)
    requires |rooms| >= 2 ==> WellDrawn(rooms, moves, 0)
    ensures Census(PerturbedRooms(rooms, special, longest, moves)) == Census(rooms)
  {
    if |rooms| >= 2 && Neighbour(rooms, special, longest, moves).Some? {
      NeighbourConserves(rooms, special, longest, moves);
    }
  }

  /** A valid schedule stays valid under perturbation. */
  lemma PerturbedRoomsValid(rooms: Rooms, special: seq<string>, longest: bool, moves: nat -> Move)
    requires |rooms| >= 2 ==> WellDrawn(rooms, moves, 0)
    requires Valid(rooms, special)
    ensures Valid(PerturbedRooms(rooms, special, longest, moves), special)
  {
  }
}
