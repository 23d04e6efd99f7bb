/**
 * The scheduling engine (class Scheduler): the initial schedule, the cost
 * evaluator, the validity check, the neighbourhood move, the temperature
 * calibration, the annealing loop with best tracking, and the write-back
 * of the best schedule into the timetable.
 *
 * Every random draw is an argument: the moves and acceptance bits of each
 * perturbation (`Sample`), the draws of each calibration step, and the
 * iteration order of the best schedule's HashMap.
 */
module Scheduling {
  import opened Wrappers
  import opened SurgeryNodes
  import opened Schedules
  import opened Evaluation
  import opened Perturbation
  import opened Construction
  import opened Annealing
  import opened DataManagement
  import opened AnnealingRun

  // ---------------------------------------------------------------------
  // updateDataManagerWithSchedule, as functions

  /**
   * `originalDataMap` after rows 1 to n-1 were put: each row of at least two
   * fields under its field 1, a later row replacing an earlier one.
   */
  function RowsById(rows: seq<seq<string>>, n: nat): (m: map<string, seq<string>>)
    requires n <= |rows|
    ensures forall id :: id in m ==> |m[id]| > 1 && m[id][1] == id
    decreases n
  {
    if n <= 1 then map[]
    else
      var row := rows[n - 1];
      var m := RowsById(rows, n - 1);
      if |row| > 1 then m[row[1] := row] else m
  }

  /** An id is in the map exactly when some data row of at least two fields has it in field 1. */
  lemma {:induction false} RowsByIdHas(rows: seq<seq<string>>, n: nat, id: string)
    requires n <= |rows|
    ensures id in RowsById(rows, n) <==> exists i :: 1 <= i < n && |rows[i]| > 1 && rows[i][1] == id
    decreases n
  {
    if n > 1 {
      RowsByIdHas(rows, n - 1, id);
    }
  }

  /** The row stored under an id is the last data row with that id: the HashMap keeps the last put. */
  lemma {:induction false} RowsByIdLast(rows: seq<seq<string>>, n: nat, id: string)
    requires n <= |rows|
    requires id in RowsById(rows, n)
    ensures exists i :: 1 <= i < n && |rows[i]| > 1 && rows[i][1] == id && RowsById(rows, n)[id] == rows[i]
                        && forall j :: i < j < n && |rows[j]| > 1 ==> rows[j][1] != id
    decreases n
  {
    var row := rows[n - 1];
    if |row| > 1 && row[1] == id {
      assert RowsById(rows, n)[id] == rows[n - 1];
    } else {
      RowsByIdLast(rows, n - 1, id);
    }
  }

  /**
   * The rows written for one room: for each of its requests whose id has a
   * row, a copy of that row with field 5 set to the room. A row of fewer
   * than six fields makes `newRow[5] = roomName` throw; the error carries
   * the request's id.
   */
  function RoomRows(byId: map<string, seq<string>>, room: string, list: seq<SurgeryNode>)
    : (r: Result<seq<seq<string>>, string>)
    ensures r.Success? ==> |r.value| <= |list|
    ensures r.Success? ==> forall k :: 0 <= k < |r.value| ==> |r.value[k]| > 5 && r.value[k][5] == room
    decreases |list|
  {
    if |list| == 0 then Success([])
    else
      var id := list[0].applicationId;
      var here: Result<seq<seq<string>>, string> :=
        if id !in byId then Success([])
        else if |byId[id]| <= 5 then Failure(id)
        else Success([byId[id][5 := room]]);
      match here
      case Failure(e) => Failure(e)
      case Success(h) =>
        match RoomRows(byId, room, list[1..])
        case Failure(e) => Failure(e)
        case Success(t) => Success(h + t)
  }

  /** The rows for the rooms `order[i..]`, visited in that order (the HashMap's iteration order). */
  function RoomsRows(byId: map<string, seq<string>>, rooms: Rooms, order: seq<string>)
    : (r: Result<seq<seq<string>>, string>)
    requires forall k :: k in order ==> k in rooms
    ensures r.Success? ==> forall k :: 0 <= k < |r.value| ==> |r.value[k]| > 5 && r.value[k][5] in order
    decreases |order|
  {
    if |order| == 0 then Success([])
    else
      match RoomRows(byId, order[0], rooms[order[0]])
      case Failure(e) => Failure(e)
      case Success(h) =>
        match RoomsRows(byId, rooms, order[1..])
        case Failure(e) => Failure(e)
        case Success(t) => Success(h + t)
  }

  /** `acc` followed by the rows of `r`, or the failure of `r`. */
  function Then(acc: seq<seq<string>>, r: Result<seq<seq<string>>, string>): (r': Result<seq<seq<string>>, string>)
    ensures r'.Failure? <==> r.Failure?
  {
    match r
    case Failure(e) => Failure(e)
    case Success(t) => Success(acc + t)
  }

  /** Rows written one room after another: first the room's rows after `before`, then the rest after those. */
  lemma ThenAppends(before: seq<seq<string>>, here: Result<seq<seq<string>>, string>,
                    rest: Result<seq<seq<string>>, string>)
    requires here.Success?
    ensures Then(Then(before, here).value, rest) == Then(before, Then(here.value, rest))
  {
    match rest
    case Failure(e) =>
    case Success(t) => assert before + here.value + t == before + (here.value + t);
  }

  /** RoomRows on a non-empty list: its first request's row, then the rest's rows. */
  lemma RoomRowsHead(byId: map<string, seq<string>>, room: string, list: seq<SurgeryNode>)
    requires |list| > 0
    ensures var id := list[0].applicationId;
      RoomRows(byId, room, list)
      == if id !in byId then RoomRows(byId, room, list[1..])
         else if |byId[id]| <= 5 then Failure(id)
         else Then([byId[id][5 := room]], RoomRows(byId, room, list[1..]))
  {
    match RoomRows(byId, room, list[1..])
    case Failure(e) =>
    case Success(t) => assert [] + t == t;
  }

  /** RoomsRows on a non-empty order: the first room's rows, then the other rooms'. */
  lemma RoomsRowsHead(byId: map<string, seq<string>>, rooms: Rooms, order: seq<string>)
    requires |order| > 0 && forall k :: k in order ==> k in rooms
    ensures match RoomRows(byId, order[0], rooms[order[0]])
      case Failure(e) => RoomsRows(byId, rooms, order) == Failure(e)
      case Success(h) => RoomsRows(byId, rooms, order) == Then(h, RoomsRows(byId, rooms, order[1..]))
  {
  }

  /** The new timetable: the original header, then the rows of every room in iteration order. */
  function WriteBack(rows: seq<seq<string>>, rooms: Rooms, order: seq<string>): (r: Result<seq<seq<string>>, string>)
    requires forall k :: k in order ==> k in rooms
    ensures r.Success? && |rows| > 0 ==> |r.value| > 0 && r.value[0] == rows[0]
    ensures r.Success? ==> forall k :: (if |rows| == 0 then 0 else 1) <= k < |r.value|
                                       ==> |r.value[k]| > 5 && r.value[k][5] in order
  {
    var header := if |rows| == 0 then [] else [rows[0]];
    match RoomsRows(RowsById(rows, |rows|), rooms, order)
    case Failure(e) => Failure(e)
    case Success(body) => Success(header + body)
  }

  /** A request of the best schedule together with the room it sits in. */
  datatype Placement = Placement(room: string, node: SurgeryNode)

  /** The requests of one room, each with the room. */
  function Tagged(room: string, list: seq<SurgeryNode>): (ps: seq<Placement>)
    ensures |ps| == |list| && forall i :: 0 <= i < |list| ==> ps[i] == Placement(room, list[i])
  {
    seq(|list|, i requires 0 <= i < |list| => Placement(room, list[i]))
  }

  /** Every request of the rooms `order`, room after room, each room's requests in list order. */
  function Placed(rooms: Rooms, order: seq<string>): (ps: seq<Placement>)
    requires forall k :: k in order ==> k in rooms
    decreases |order|
  {
    if |order| == 0 then [] else Tagged(order[0], rooms[order[0]]) + Placed(rooms, order[1..])
  }

  /** The placements whose request has a row in `byId`, in order: the others write nothing. */
  function WithRow(byId: map<string, seq<string>>, ps: seq<Placement>): (r: seq<Placement>)
    decreases |ps|
  {
    if |ps| == 0 then []
    else (if ps[0].node.applicationId in byId then [ps[0]] else []) + WithRow(byId, ps[1..])
  }

  /** The placement's request has a row, and the row has a field 5 to overwrite. */
  predicate LongRow(byId: map<string, seq<string>>, p: Placement) {
    p.node.applicationId in byId && |byId[p.node.applicationId]| > 5
  }

  /** `out` is the row of `p`'s request with field 5 set to `p`'s room; every other field is kept. */
  predicate Written(byId: map<string, seq<string>>, p: Placement, out: seq<string>) {
    && LongRow(byId, p)
    && var row := byId[p.node.applicationId];
    |out| == |row| && out[5] == p.room && forall f :: 0 <= f < |row| && f != 5 ==> out[f] == row[f]
  }

  /** `ps[k]` is the first placement whose row is too short to set field 5. */
  predicate FirstShort(byId: map<string, seq<string>>, ps: seq<Placement>, k: int) {
    && 0 <= k < |ps| && ps[k].node.applicationId in byId && !LongRow(byId, ps[k])
    && forall j :: 0 <= j < k ==> LongRow(byId, ps[j])
  }

  /**
   * What writing the rows of the placements `ps` yields: one written row per
   * placement, in order, or the id of the first placement whose row is too short.
   */
  ghost predicate RowsFor(byId: map<string, seq<string>>, ps: seq<Placement>, r: Result<seq<seq<string>>, string>) {
    match r
    case Success(body) => |body| == |ps| && forall k :: 0 <= k < |ps| ==> Written(byId, ps[k], body[k])
    case Failure(e) => exists k :: FirstShort(byId, ps, k) && e == ps[k].node.applicationId
  }

  /** The rows of one part of the placements followed by those of the next, stopping at the first failure. */
  function Chain(r1: Result<seq<seq<string>>, string>, r2: Result<seq<seq<string>>, string>)
    : Result<seq<seq<string>>, string>
  {
    match r1
    case Failure(e) => Failure(e)
    case Success(h) => Then(h, r2)
  }

  lemma RowsForChain(byId: map<string, seq<string>>, p1: seq<Placement>, r1: Result<seq<seq<string>>, string>,
                     p2: seq<Placement>, r2: Result<seq<seq<string>>, string>)
    requires RowsFor(byId, p1, r1) && RowsFor(byId, p2, r2)
    ensures RowsFor(byId, p1 + p2, Chain(r1, r2))
  {
    var ps := p1 + p2;
    match r1
    case Failure(e) =>
      var k :| FirstShort(byId, p1, k) && e == p1[k].node.applicationId;
      assert FirstShort(byId, ps, k);
    case Success(h) =>
      forall j | 0 <= j < |p1| ensures LongRow(byId, ps[j]) {
        assert Written(byId, p1[j], h[j]);
      }
      match r2
      case Failure(e) =>
        var k :| FirstShort(byId, p2, k) && e == p2[k].node.applicationId;
        assert FirstShort(byId, ps, |p1| + k);
      case Success(t) =>
        forall k | 0 <= k < |ps| ensures Written(byId, ps[k], (h + t)[k]) {
          if k >= |p1| {
            assert Written(byId, p2[k - |p1|], t[k - |p1|]);
          }
        }
  }

  lemma WithRowAppend(byId: map<string, seq<string>>, p1: seq<Placement>, p2: seq<Placement>)
    ensures WithRow(byId, p1 + p2) == WithRow(byId, p1) + WithRow(byId, p2)
    decreases |p1|
  {
    if |p1| > 0 {
      assert (p1 + p2)[0] == p1[0] && (p1 + p2)[1..] == p1[1..] + p2;
      WithRowAppend(byId, p1[1..], p2);
      var h := if p1[0].node.applicationId in byId then [p1[0]] else [];
      assert WithRow(byId, p1 + p2) == h + (WithRow(byId, p1[1..]) + WithRow(byId, p2));
    } else {
      assert p1 + p2 == p2;
    }
  }

  /**
   * The rows of one room: one row per request that has a row, in list
   * order, that row with field 5 set to the room; or the id of the first
   * such request whose row has fewer than six fields. Requests without a
   * row write nothing.
   */
  lemma {:induction false} RoomRowsContents(byId: map<string, seq<string>>, room: string, list: seq<SurgeryNode>)
    ensures RowsFor(byId, WithRow(byId, Tagged(room, list)), RoomRows(byId, room, list))
    decreases |list|
  {
    if |list| > 0 {
      var p := Placement(room, list[0]);
      var id := list[0].applicationId;
      assert Tagged(room, list) == [p] + Tagged(room, list[1..]);
      WithRowAppend(byId, [p], Tagged(room, list[1..]));
      assert WithRow(byId, [p]) == if id in byId then [p] else [];
      var here: Result<seq<seq<string>>, string> :=
        if id !in byId then Success([])
        else if |byId[id]| <= 5 then Failure(id)
        else Success([byId[id][5 := room]]);
      if id in byId && |byId[id]| <= 5 {
        assert FirstShort(byId, [p], 0);
      }
      assert RowsFor(byId, WithRow(byId, [p]), here);
      RoomRowsContents(byId, room, list[1..]);
      RowsForChain(byId, WithRow(byId, [p]), here, WithRow(byId, Tagged(room, list[1..])), RoomRows(byId, room, list[1..]));
      assert RoomRows(byId, room, list) == Chain(here, RoomRows(byId, room, list[1..]));
    }
  }

  /** The rows of the rooms `order`, room after room, as one rows-of-placements. */
  lemma {:induction false} RoomsRowsContents(byId: map<string, seq<string>>, rooms: Rooms, order: seq<string>)
    requires forall k :: k in order ==> k in rooms
    ensures RowsFor(byId, WithRow(byId, Placed(rooms, order)), RoomsRows(byId, rooms, order))
    decreases |order|
  {
    if |order| > 0 {
      var here := Tagged(order[0], rooms[order[0]]);
      WithRowAppend(byId, here, Placed(rooms, order[1..]));
      RoomRowsContents(byId, order[0], rooms[order[0]]);
      RoomsRowsContents(byId, rooms, order[1..]);
      RowsForChain(byId, WithRow(byId, here), RoomRows(byId, order[0], rooms[order[0]]),
                   WithRow(byId, Placed(rooms, order[1..])), RoomsRows(byId, rooms, order[1..]));
      assert RoomsRows(byId, rooms, order)
          == Chain(RoomRows(byId, order[0], rooms[order[0]]), RoomsRows(byId, rooms, order[1..]));
    }
  }

  /**
   * The new timetable of updateDataManagerWithSchedule: the original header
   * (when there is one), then one row per request of the rooms in iteration
   * order that has a data row, that row with field 5 set to the room and its
   * other fields kept. It fails, with the request's id, exactly when some
   * such row has fewer than six fields, at the first one met in that order.
   */
  lemma WriteBackContents(rows: seq<seq<string>>, rooms: Rooms, order: seq<string>)
    requires forall k :: k in order ==> k in rooms
    ensures var byId := RowsById(rows, |rows|);
      var ps := WithRow(byId, Placed(rooms, order));
      var h := if |rows| == 0 then 0 else 1;
      && (WriteBack(rows, rooms, order).Success? <==> forall k :: 0 <= k < |ps| ==> LongRow(byId, ps[k]))
      && match WriteBack(rows, rooms, order)
         case Success(t) => |t| >= h && t[..h] == rows[..h] && RowsFor(byId, ps, Success(t[h..]))
         case Failure(e) => RowsFor(byId, ps, Failure(e))
  {
    var byId := RowsById(rows, |rows|);
    var ps := WithRow(byId, Placed(rooms, order));
    RoomsRowsContents(byId, rooms, order);
    match RoomsRows(byId, rooms, order)
    case Success(body) =>
      var header := if |rows| == 0 then [] else [rows[0]];
      assert (header + body)[|header|..] == body;
      forall k | 0 <= k < |ps| ensures LongRow(byId, ps[k]) {
        assert Written(byId, ps[k], body[k]);
      }
    case Failure(e) =>
      assert WriteBack(rows, rooms, order) == Failure(e);
      var k :| FirstShort(byId, ps, k) && e == ps[k].node.applicationId;
      assert !LongRow(byId, ps[k]);
  }

  // ---------------------------------------------------------------------
  // The scheduler

  /** n, the size of the problem: requests times rooms. */
  function StepCount(requests: nat, rooms: nat): nat {
    requests * rooms
  }

  /** A HashMap's iteration order visits each key once. */
  predicate EachOnce(order: seq<string>) {
    forall i, j :: 0 <= i < j < |order| ==> order[i] != order[j]
  }

  /** How `schedule()` can fail: in createInitialSchedule, or on a short row in the write-back. */
  datatype SchedulingError = InitFailed(init: InitError) | RowTooShort(applicationId: string)

  /**
   * What `schedule()` returns once the initial rooms `m` exist. With `w` the
   * annealing run over n steps, either the write-back of `w.best` fails on a
   * short row and the timetable stays `before`, or the map holds the initial
   * schedule (rooms `m` and their cost) and the best one (`w.best` and
   * `w.bestCost`) and the timetable becomes the written one.
   */
  ghost predicate Annealed(r: Result<map<string, Schedule>, SchedulingError>, before: seq<seq<string>>,
                           after: seq<seq<string>>, m: Rooms, special: seq<string>, allRooms: seq<string>,
                           p: Params, probes: nat -> nat -> Sample, draws: nat -> nat -> Sample, sqrtN: real,
                           n: nat, order: seq<string>)
    requires sqrtN >= 0.0 && sqrtN * sqrtN == n as real
    requires m.Keys == set x | x in allRooms
    requires forall j: nat, i: nat :: DrawableOn((set x | x in allRooms), probes(j)(i))
    requires forall j: nat, i: nat :: DrawableOn((set x | x in allRooms), draws(j)(i))
    requires forall k :: k in order <==> k in allRooms
    reads if r.Success? then r.value.Values else {}
  {
    var w := Run(m, special, allRooms, p, probes, draws, sqrtN, n);
    match WriteBack(before, w.best, order)
    case Failure(id) => r == Failure(RowTooShort(id)) && after == before
    case Success(t) =>
      && r.Success? && r.value.Keys == {"initial", "best"}
      && r.value["initial"].roomSchedules == m && r.value["initial"].cost == Cost(m, allRooms, p)
      && r.value["best"].roomSchedules == w.best && r.value["best"].cost == w.bestCost
      && after == t
  }

  /**
   * What `schedule()` returns for the requests `nodes`: an empty map and the
   * timetable kept when there is none; the construction's error and the
   * timetable kept when createInitialSchedule fails; otherwise `Annealed`
   * for the rooms it built, over n = requests x rooms steps.
   */
  ghost predicate Scheduled(r: Result<map<string, Schedule>, SchedulingError>, before: seq<seq<string>>,
                            after: seq<seq<string>>, nodes: seq<SurgeryNode>, special: seq<string>,
                            allRooms: seq<string>, p: Params, probes: nat -> nat -> Sample,
                            draws: nat -> nat -> Sample, sqrtN: real, order: seq<string>)
    requires sqrtN >= 0.0 && sqrtN * sqrtN == (|nodes| * |allRooms|) as real
    requires forall j: nat, i: nat :: DrawableOn((set x | x in allRooms), probes(j)(i))
    requires forall j: nat, i: nat :: DrawableOn((set x | x in allRooms), draws(j)(i))
    requires forall k :: k in order <==> k in allRooms
    reads if r.Success? then r.value.Values else {}
  {
    if |nodes| == 0 then r == Success(map[]) && after == before
    else
      match InitialRooms(allRooms, special, nodes)
      case Failure(e) => r == Failure(InitFailed(e)) && after == before
      case Success(m) => Annealed(r, before, after, m, special, allRooms, p, probes, draws, sqrtN, |nodes| * |allRooms|, order)
  }

  class Scheduler {
    const dataManager: DataManager
    const startTime: int
    const maxRegularTime: int
    const maxOvertime: int
    const transitionTime: int

    /** The scheduler's parameters, as one value. */
    function Parameters(): Params {
      Params(startTime, maxRegularTime, maxOvertime, transitionTime)
    }

    /** `new Scheduler(dataManager)`: the four parameters from the arguments map, with their defaults. */
    constructor (dataManager: DataManager)
      ensures this.dataManager == dataManager
      ensures Parameters() == ParamsFrom(dataManager.arguments)
    {
      this.dataManager := dataManager;
      var args := dataManager.arguments;
      startTime := GetOrDefault(args, "startTime", 510);
      maxRegularTime := GetOrDefault(args, "maxRegularTime", 540);
      maxOvertime := GetOrDefault(args, "maxOvertime", 120);
      transitionTime := GetOrDefault(args, "transitionTime", 45);
    }

    /**
     * `createInitialSchedule`: an empty list for every room, the special
     * requests dealt round robin over the special rooms (when there are
     * any), then the others over the general rooms.
     */
    method CreateInitialSchedule(nodes: seq<SurgeryNode>) returns (r: Result<Schedule, InitError>)
      ensures var expected := InitialRooms(old(dataManager.allRooms), old(dataManager.specialRooms), nodes);
        match expected
        case Failure(e) => r == Failure(e)
        case Success(m) => r.Success? && fresh(r.value) && r.value.roomSchedules == m && r.value.cost == 0.0
    {
      var allRooms := dataManager.allRooms;
      var specialRooms := dataManager.specialRooms;
      var roomSchedules: Rooms := map[];
      var i := 0;
      while i < |allRooms|
        invariant 0 <= i <= |allRooms|
        invariant roomSchedules == map r | r in allRooms[..i] :: []
      {
        assert allRooms[..i + 1] == allRooms[..i] + [allRooms[i]];
        roomSchedules := roomSchedules[allRooms[i] := []];
        i := i + 1;
      }
      assert allRooms[..i] == allRooms;
      var generalRooms := GeneralRooms(allRooms, specialRooms);

      ghost var m0 := roomSchedules;
      var specialRoomIndex := 0;
      i := 0;
      while i < |nodes|
        invariant 0 <= i <= |nodes|
        invariant Deal(roomSchedules, nodes[i..], true, specialRooms, specialRoomIndex)
               == Deal(m0, nodes, true, specialRooms, 0)
      {
        var node := nodes[i];
        assert nodes[i..][1..] == nodes[i + 1..];
        if NeedsSpecialRoom(node) && |specialRooms| > 0 {
          var room := specialRooms[specialRoomIndex % |specialRooms|];
          if room !in roomSchedules {
            return Failure(MissingRoom(room));
          }
          roomSchedules := roomSchedules[room := roomSchedules[room] + [node]];
          specialRoomIndex := specialRoomIndex + 1;
        }
        i := i + 1;
      }
      assert nodes[i..] == [];

      ghost var m1 := roomSchedules;
      var generalRoomIndex := 0;
      i := 0;
      while i < |nodes|
        invariant 0 <= i <= |nodes|
        invariant Deal(roomSchedules, nodes[i..], false, generalRooms, generalRoomIndex)
               == Deal(m1, nodes, false, generalRooms, 0)
      {
        var node := nodes[i];
        assert nodes[i..][1..] == nodes[i + 1..];
        if !NeedsSpecialRoom(node) {
          if |generalRooms| == 0 {
            return Failure(DivisionByZero);
          }
          var room := generalRooms[generalRoomIndex % |generalRooms|];
          if room !in roomSchedules {
            return Failure(MissingRoom(room));
          }
          roomSchedules := roomSchedules[room := roomSchedules[room] + [node]];
          generalRoomIndex := generalRoomIndex + 1;
        }
        i := i + 1;
      }
      assert nodes[i..] == [];
      var s := new Schedule(roomSchedules);
      r := Success(s);
    }

    /**
     * `calculateCost`: the cost of the schedule's rooms over every room of
     * `allRooms`, which is also written into the schedule.
     */
    method CalculateCost(schedule: Schedule) returns (c: real)
      modifies schedule`cost
      ensures c == Cost(schedule.roomSchedules, dataManager.allRooms, Parameters())
      ensures schedule.cost == c
    {
      var roomSchedules := schedule.roomSchedules;
      var allRooms := dataManager.allRooms;
      ghost var us := Usages(roomSchedules, allRooms, transitionTime);
      var roomUsage: seq<int> := [];
      var totalOvertimeCost := 0.0;
      var totalRegularOvertimeCost := 0.0;
      var i := 0;
      while i < |allRooms|
        invariant 0 <= i <= |allRooms|
        invariant roomUsage == us[..i]
        invariant totalRegularOvertimeCost == TotalRegularOvertime(us[..i], Parameters()) as real
        invariant totalOvertimeCost == 2.0 * TotalOvertime(us[..i], Parameters()) as real
      {
        var currentTime := MeasureRoom(roomSchedules, allRooms[i]);
        assert us[..i + 1][..i] == us[..i];
        roomUsage := roomUsage + [currentTime];
        var regularOvertime := Max0(currentTime - maxRegularTime);
        totalRegularOvertimeCost := totalRegularOvertimeCost + regularOvertime as real;
        var overtime := Max0(currentTime - (maxRegularTime + maxOvertime));
        totalOvertimeCost := totalOvertimeCost + overtime as real * 2.0;
        i := i + 1;
      }
      assert us[..i] == us;
      var totalUsage := SumInts(roomUsage) as real;
      var avgUsage := if |allRooms| == 0 then 0.0 else totalUsage / |allRooms| as real;
      assert avgUsage == Average(us);
      var balanceCost := Deviate(roomUsage, avgUsage);
      c := totalRegularOvertimeCost + totalOvertimeCost + balanceCost;
      schedule.SetCost(c);
    }

    /**
     * The usage loop of `calculateCost` for one room: the durations plus a
     * transition after each, less the last transition; 0 for a room with
     * no list or an empty one.
     */
    method MeasureRoom(roomSchedules: Rooms, room: string) returns (currentTime: int)
      ensures currentTime == RoomUsage(roomSchedules, room, transitionTime)
    {
      currentTime := 0;
      if room in roomSchedules {
        var surgeries := roomSchedules[room];
        var j := 0;
        while j < |surgeries|
          invariant 0 <= j <= |surgeries|
          invariant currentTime == AccumulatedTime(surgeries[..j], transitionTime)
        {
          assert surgeries[..j + 1][..j] == surgeries[..j];
          currentTime := currentTime + surgeries[j].surgeryTime + transitionTime;
          j := j + 1;
        }
        assert surgeries[..j] == surgeries;
        if |surgeries| > 0 {
          currentTime := currentTime - transitionTime;
        }
        AccumulatedMinusLastIsUsage(surgeries, transitionTime);
      }
    }

    /** The balance loop of `calculateCost`: the sum of the distances of the usages from `avgUsage`. */
    static method Deviate(roomUsage: seq<int>, avgUsage: real) returns (balanceCost: real)
      ensures balanceCost == Deviation(roomUsage, avgUsage)
    {
      balanceCost := 0.0;
      var i := 0;
      while i < |roomUsage|
        invariant 0 <= i <= |roomUsage|
        invariant balanceCost == Deviation(roomUsage[..i], avgUsage)
      {
        assert roomUsage[..i + 1][..i] == roomUsage[..i];
        balanceCost := balanceCost + Abs(roomUsage[i] as real - avgUsage);
        i := i + 1;
      }
      assert roomUsage[..i] == roomUsage;
    }

    /** `isValid`: whether no request that needs a special room sits in a room that is not special. */
    method IsValid(schedule: Schedule) returns (b: bool)
      ensures b == Valid(schedule.roomSchedules, dataManager.specialRooms)
    {
      var specialRooms := dataManager.specialRooms;
      var roomSchedules := schedule.roomSchedules;
      var pending := roomSchedules.Keys;
      while pending != {}
        invariant pending <= roomSchedules.Keys
        invariant forall r, i ::
          r in roomSchedules && r !in pending && 0 <= i < |roomSchedules[r]| && NeedsSpecialRoom(roomSchedules[r][i])
          ==> r in specialRooms
        decreases pending
      {
        var room :| room in pending;
        var surgeries := roomSchedules[room];
        var j := 0;
        while j < |surgeries|
          invariant 0 <= j <= |surgeries|
          invariant forall i :: 0 <= i < j && NeedsSpecialRoom(surgeries[i]) ==> room in specialRooms
        {
          if NeedsSpecialRoom(surgeries[j]) && room !in specialRooms {
            return false;
          }
          j := j + 1;
        }
        pending := pending - {room};
      }
      b := true;
    }

    /**
     * `perturbSchedule`: up to 50 tries, each on a fresh copy of `current`;
     * the first try whose result passes isValid is returned. With fewer
     * than two rooms the first copy itself is returned; when every try
     * fails, `current` itself. `current` is never changed.
     */
    method PerturbSchedule(current: Schedule, temp: real, initialTemp: real, moves: nat -> Move) returns (s: Schedule)
      requires |current.roomSchedules| >= 2 ==> WellDrawn(current.roomSchedules, moves, 0)
      ensures s.roomSchedules
           == PerturbedRooms(current.roomSchedules, dataManager.specialRooms, HighPhase(temp, initialTemp), moves)
      ensures s == current <==>
                |current.roomSchedules| >= 2
                && Neighbour(current.roomSchedules, dataManager.specialRooms, HighPhase(temp, initialTemp), moves).None?
      ensures s != current ==> fresh(s) && s.cost == current.cost
    {
      var longest := HighPhase(temp, initialTemp);
      if |current.roomSchedules| < 2 {
        s := current.Copy();
        return;
      }
      var found, neighbor := RetryMoves(current, longest, moves);
      s := if found then neighbor else current;
    }

    /**
     * The retry loop of perturbSchedule over a schedule with at least two
     * rooms: `found` with the first copy whose try succeeds, if any of the
     * 50 does.
     */
    method RetryMoves(current: Schedule, longest: bool, moves: nat -> Move) returns (found: bool, neighbor: Schedule)
      requires |current.roomSchedules| >= 2 && WellDrawn(current.roomSchedules, moves, 0)
      ensures found == Neighbour(current.roomSchedules, dataManager.specialRooms, longest, moves).Some?
      ensures found ==> fresh(neighbor) && neighbor.cost == current.cost
      ensures found ==> neighbor.roomSchedules == Neighbour(current.roomSchedules, dataManager.specialRooms, longest, moves).value
    {
      ghost var rooms := current.roomSchedules;
      ghost var special := dataManager.specialRooms;
      ghost var outcomes := Outcomes(rooms, special, longest, moves, MaxTries);
      FirstSuccessIsFirstTrue(rooms, special, longest, moves, 0);
      var tries: nat := 0;
      while tries < MaxTries
        invariant tries <= MaxTries
        invariant FirstTrue(outcomes, tries) == FirstTrue(outcomes, 0)
      {
        var done;
        neighbor, done := TryCopy(current, moves(tries), longest);
        assert done == outcomes[tries];
        if done {
          return true, neighbor;
        }
        tries := tries + 1;
      }
      found, neighbor := false, current;
    }

    /** The body of the retry loop: a fresh copy of `current`, tried with the move `m`. */
    method TryCopy(current: Schedule, m: Move, longest: bool) returns (neighbor: Schedule, done: bool)
      requires DistinctRooms(current.roomSchedules, m)
      ensures fresh(neighbor) && neighbor.cost == current.cost
      ensures done == Succeeds(current.roomSchedules, dataManager.specialRooms, m, longest)
      ensures done ==> neighbor.roomSchedules == Attempt(current.roomSchedules, m, longest).value
    {
      neighbor := current.Copy();
      done := TryMove(neighbor, m, longest);
    }

    /**
     * One try of the retry loop on a fresh copy: a try whose source room is
     * empty fails at once; otherwise the request is moved and the copy is
     * checked with isValid.
     */
    method TryMove(neighbor: Schedule, m: Move, longest: bool) returns (valid: bool)
      requires DistinctRooms(neighbor.roomSchedules, m)
      modifies neighbor`roomSchedules
      ensures valid == Succeeds(old(neighbor.roomSchedules), dataManager.specialRooms, m, longest)
      ensures valid ==> neighbor.roomSchedules == Attempt(old(neighbor.roomSchedules), m, longest).value
    {
      if |neighbor.roomSchedules[m.source]| == 0 {
        assert Attempt(neighbor.roomSchedules, m, longest).None?;
        return false;
      }
      MoveRequest(neighbor, m, longest);
      valid := IsValid(neighbor);
    }

    /**
     * One try's move, in place on the copy: the longest (or shortest)
     * request of the source room is removed from it, then swapped with the
     * request at `position % |target|` of the target room (which goes to the
     * end of the source room) or inserted into the target room at
     * `position % (|target| + 1)`.
     */
    method MoveRequest(neighbor: Schedule, m: Move, longest: bool)
      requires DistinctRooms(neighbor.roomSchedules, m) && |neighbor.roomSchedules[m.source]| > 0
      modifies neighbor`roomSchedules
      ensures neighbor.roomSchedules == Attempt(old(neighbor.roomSchedules), m, longest).value
    {
      ghost var rooms := neighbor.roomSchedules;
      var list1 := neighbor.roomSchedules[m.source];
      var list2 := neighbor.roomSchedules[m.target];
      ghost var list2Before := list2;
      var index := if longest then FirstLongest(list1) else FirstShortest(list1);
      assert index == Picked(list1, longest);
      var targetNode := list1[index];
      list1 := list1[..index] + list1[index + 1..];
      assert list1 == RemoveAt(rooms[m.source], index);
      if m.swap && |list2| > 0 {
        var indexToSwap := m.position % |list2|;
        var nodeToSwap := list2[indexToSwap];
        list2 := list2[indexToSwap := targetNode];
        list1 := list1 + [nodeToSwap];
      } else {
        var insertIndex := if |list2| == 0 then 0 else m.position % (|list2| + 1);
        assert insertIndex == m.position % (|list2| + 1) by {
          if |list2| == 0 {
            assert m.position % 1 == 0;
          }
        }
        list2 := list2[..insertIndex] + [targetNode] + list2[insertIndex..];
        assert list2 == InsertAt(list2Before, insertIndex, targetNode);
      }
      assert (list1, list2) == Relocate(rooms[m.source], rooms[m.target], index, m.swap, m.position);
      neighbor.roomSchedules := neighbor.roomSchedules[m.source := list1][m.target := list2];
    }

    /**
     * `calculateAcceptanceRate`: 100 trials, each a perturbation of
     * `schedule` at `temperature` (initial temperature 10000) checked by
     * the Metropolis rule; the accepted share. `schedule`'s cost is
     * recomputed when a trial hands back the schedule itself, which leaves
     * it as it was.
     */
    method CalculateAcceptanceRate(schedule: Schedule, temperature: real, samples: nat -> Sample) returns (rate: real)
      requires schedule.cost == Cost(schedule.roomSchedules, dataManager.allRooms, Parameters())
      requires forall i: nat :: Drawable(schedule.roomSchedules, samples(i))
      modifies schedule`cost
      ensures schedule.cost == old(schedule.cost)
      ensures rate == AcceptanceRate(schedule.roomSchedules, dataManager.specialRooms, dataManager.allRooms,
                                     Parameters(), temperature, samples)
    {
      var rooms := schedule.roomSchedules;
      ghost var special, allRooms, p := dataManager.specialRooms, dataManager.allRooms, Parameters();
      var accepted := 0;
      var total := CalibrationTrials;
      var i := 0;
      while i < total
        invariant 0 <= i <= total
        invariant schedule.cost == old(schedule.cost) && schedule.roomSchedules == rooms
        invariant accepted == AcceptedCount(rooms, special, allRooms, p, temperature, samples, i)
      {
        var ok := Trial(schedule, temperature, samples(i), rooms, special, allRooms, p);
        AcceptedCountStep(rooms, special, allRooms, p, temperature, samples, i);
        if ok {
          accepted := accepted + 1;
        }
        i := i + 1;
      }
      rate := accepted as real / total as real;
    }

    /**
     * One trial of `calculateAcceptanceRate`: perturb `schedule`, cost the
     * neighbour, and accept when the cost does not rise or the Metropolis
     * draw is lucky.
     */
    method Trial(schedule: Schedule, temperature: real, sample: Sample, ghost rooms: Rooms,
                 ghost special: seq<string>, ghost allRooms: seq<string>, ghost p: Params) returns (ok: bool)
      requires rooms == schedule.roomSchedules && special == dataManager.specialRooms
      requires allRooms == dataManager.allRooms && p == Parameters()
      requires schedule.cost == Cost(rooms, allRooms, p)
      requires Drawable(rooms, sample)
      modifies schedule`cost
      ensures schedule.cost == old(schedule.cost)
      ensures ok == TrialAccepted(rooms, special, allRooms, p, temperature, sample)
    {
      var neighbor := PerturbSchedule(schedule, temperature, CalibrationCeiling, sample.moves);
      ghost var nb := SampledNeighbour(rooms, special, temperature, CalibrationCeiling, sample);
      assert neighbor.roomSchedules == nb;
      var neighborCost := CalculateCost(neighbor);
      var delta := neighbor.cost - schedule.cost;
      assert delta == Cost(nb, allRooms, p) - Cost(rooms, allRooms, p);
      ok := delta < 0.0 || delta == 0.0 || sample.lucky;
    }

    /** One measurement of the bisection: the acceptance rate at `temperature` with the draws of step `j`. */
    method MeasureRate(schedule: Schedule, probes: nat -> nat -> Sample, j: nat, temperature: real,
                       ghost rate: (nat, real) -> real) returns (measured: real)
      requires schedule.cost == Cost(schedule.roomSchedules, dataManager.allRooms, Parameters())
      requires forall j: nat, i: nat :: Drawable(schedule.roomSchedules, probes(j)(i))
      requires RatesAre(rate, schedule.roomSchedules, dataManager.specialRooms, dataManager.allRooms, Parameters(), probes)
      modifies schedule`cost
      ensures schedule.cost == old(schedule.cost)
      ensures measured == rate(j, temperature)
    {
      measured := CalculateAcceptanceRate(schedule, temperature, probes(j));
    }

    /**
     * One round of the bisection: measure the acceptance rate at the
     * midpoint with the draws of step `k`, and keep the upper half when it
     * is below 0.95, the lower half otherwise.
     */
    method Halve(schedule: Schedule, probes: nat -> nat -> Sample, ghost rate: (nat, real) -> real,
                 low: real, high: real, k: nat) returns (low': real, high': real)
      requires schedule.cost == Cost(schedule.roomSchedules, dataManager.allRooms, Parameters())
      requires forall j: nat, i: nat :: Drawable(schedule.roomSchedules, probes(j)(i))
      requires RatesAre(rate, schedule.roomSchedules, dataManager.specialRooms, dataManager.allRooms, Parameters(), probes)
      requires high - low == BracketWidth(k) && high - low > BisectTolerance
      modifies schedule`cost
      ensures schedule.cost == old(schedule.cost)
      ensures high' - low' == BracketWidth(k + 1)
      ensures Bisect(rate, low', high', k + 1) == Bisect(rate, low, high, k)
    {
      var mid := low + (high - low) / 2.0;
      var measured := MeasureRate(schedule, probes, k, mid, rate);
      if measured < InitialAcceptanceRate {
        BisectUp(rate, low, high, k);
        low', high' := mid, high;
      } else {
        BisectDown(rate, low, high, k);
        low', high' := low, mid;
      }
    }

    /**
     * `findInitialTemperature`: bisection of [0.01, 10000] while the bracket
     * is wider than 0.1, moving up when the rate measured at the midpoint is
     * below 0.95; the upper end. Step `k` measures with the draws `probes(k)`.
     */
    method FindInitialTemperature(schedule: Schedule, probes: nat -> nat -> Sample) returns (t: real)
      requires schedule.cost == Cost(schedule.roomSchedules, dataManager.allRooms, Parameters())
      requires forall j: nat, i: nat :: Drawable(schedule.roomSchedules, probes(j)(i))
      modifies schedule`cost
      ensures schedule.cost == old(schedule.cost)
      ensures t == InitialTemperature(schedule.roomSchedules, dataManager.specialRooms, dataManager.allRooms,
                                      Parameters(), probes)
    {
      ghost var rooms, special, allRooms, p := schedule.roomSchedules, dataManager.specialRooms, dataManager.allRooms, Parameters();
      ghost var rate := RatesMeasured(rooms, special, allRooms, p, probes);
      ghost var cost := schedule.cost;
      ghost var answer := Bisect(rate, BisectLow, BisectHigh, 0);
      var low, high := BisectLow, BisectHigh;
      var k: nat := 0;
      while high - low > BisectTolerance
        invariant k <= BisectSteps
        invariant high - low == BracketWidth(k)
        invariant schedule.roomSchedules == rooms && schedule.cost == cost
        invariant Bisect(rate, low, high, k) == answer
        decreases BisectSteps - k
      {
        WideBracketIsEarly(k);
        low, high := Halve(schedule, probes, rate, low, high, k);
        k := k + 1;
      }
      RatesFindTemperature(rate, rooms, special, allRooms, p, probes);
      t := high;
    }

    // -------------------------------------------------------------------
    // The annealing loop

    /**
     * One iteration of the inner loop of `schedule()`: perturb `current`,
     * cost the neighbour, take it by the Metropolis rule, and copy it into
     * a new best schedule when it is strictly cheaper than `best`.
     * `current` keeps its rooms and its cost, which is recomputed when the
     * neighbour is `current` itself.
     */
    method AnnealStep(current: Schedule, best: Schedule, temp: real, t0: real, s: Sample, ghost cost: Rooms -> real)
      returns (current': Schedule, best': Schedule)
      requires CostsAre(cost, dataManager.allRooms, Parameters())
      requires current != best && current.cost == cost(current.roomSchedules)
      requires DrawableOn(current.roomSchedules.Keys, s)
      modifies current`cost
      ensures current.cost == old(current.cost)
      ensures current' != best' && (current' == current || fresh(current')) && (best' == best || fresh(best'))
      ensures current'.cost == cost(current'.roomSchedules)
      ensures Walk(current'.roomSchedules, current'.cost, best'.roomSchedules, best'.cost)
           == Step(Walk(current.roomSchedules, current.cost, best.roomSchedules, best.cost), dataManager.specialRooms,
                   cost, temp, t0, s)
    {
      DrawableByKeys(current.roomSchedules, s);
      var neighbor := PerturbSchedule(current, temp, t0, s.moves);
      var neighborCost := CalculateCost(neighbor);
      var delta := neighbor.cost - current.cost;
      current', best' := current, best;
      if delta < 0.0 || delta == 0.0 || s.lucky {
        current' := neighbor;
        if current'.cost < best.cost {
          best' := current'.Copy();
        }
      }
    }

    /**
     * The inner loop of `schedule()` at one temperature: `iterations`
     * steps, the i-th with the draws `samples(i)`.
     */
    method RunSweep(current: Schedule, best: Schedule, temp: real, t0: real, samples: nat -> Sample, iterations: nat,
                    ghost cost: Rooms -> real)
      returns (current': Schedule, best': Schedule)
      requires CostsAre(cost, dataManager.allRooms, Parameters())
      requires current != best && current.cost == cost(current.roomSchedules)
      requires forall i: nat :: DrawableOn(current.roomSchedules.Keys, samples(i))
      modifies current`cost
      ensures current.cost == old(current.cost)
      ensures current' != best' && (current' == current || fresh(current')) && (best' == best || fresh(best'))
      ensures current'.cost == cost(current'.roomSchedules)
      ensures Walk(current'.roomSchedules, current'.cost, best'.roomSchedules, best'.cost)
           == Sweep(Walk(current.roomSchedules, current.cost, best.roomSchedules, best.cost), dataManager.specialRooms,
                    cost, temp, t0, samples, iterations)
    {
      ghost var w0 := Walk(current.roomSchedules, current.cost, best.roomSchedules, best.cost);
      ghost var special := dataManager.specialRooms;
      current', best' := current, best;
      var i: nat := 0;
      while i < iterations
        invariant i <= iterations
        invariant current.cost == old(current.cost)
        invariant current' != best' && (current' == current || fresh(current')) && (best' == best || fresh(best'))
        invariant current'.cost == cost(current'.roomSchedules)
        invariant Walk(current'.roomSchedules, current'.cost, best'.roomSchedules, best'.cost)
               == Sweep(w0, special, cost, temp, t0, samples, i)
      {
        SweepStep(w0, special, cost, temp, t0, samples, i);
        current', best' := AnnealStep(current', best', temp, t0, samples(i), cost);
        i := i + 1;
      }
    }

    /**
     * The temperature loop of `schedule()`: from the initial temperature
     * `t0`, a sweep per temperature while it is above 0.01, the k-th with
     * the draws `draws(k)`, cooling by calculateCoolingRate after each.
     */
    method RunAnnealing(current: Schedule, best: Schedule, t0: real, sqrtN: real, iterations: nat,
                        draws: nat -> nat -> Sample, ghost cost: Rooms -> real) returns (best': Schedule)
      requires CostsAre(cost, dataManager.allRooms, Parameters())
      requires current != best && sqrtN >= 1.0
      requires current.cost == cost(current.roomSchedules)
      requires forall j: nat, i: nat :: DrawableOn(current.roomSchedules.Keys, draws(j)(i))
      modifies current`cost
      ensures best' == best || fresh(best')
      ensures var w := Anneal(Walk(current.roomSchedules, old(current.cost), best.roomSchedules, best.cost),
                              dataManager.specialRooms, cost, t0, t0, sqrtN, iterations, draws, 0);
        best'.roomSchedules == w.best && best'.cost == w.bestCost
    {
      ghost var w0 := Walk(current.roomSchedules, current.cost, best.roomSchedules, best.cost);
      ghost var special := dataManager.specialRooms;
      ghost var keys := current.roomSchedules.Keys;
      ghost var answer := Anneal(w0, special, cost, t0, t0, sqrtN, iterations, draws, 0);
      var cur := current;
      best' := best;
      var temp := t0;
      var k: nat := 0;
      while temp > FinalTemperature
        invariant temp * (1.0 + k as real * CoolingGain(sqrtN)) <= t0
        invariant cur != best' && (cur == current || fresh(cur)) && (best' == best || fresh(best'))
        invariant cur.cost == cost(cur.roomSchedules)
        invariant cur.roomSchedules.Keys == keys
        invariant Anneal(Walk(cur.roomSchedules, cur.cost, best'.roomSchedules, best'.cost), special, cost,
                         temp, t0, sqrtN, iterations, draws, k) == answer
        decreases RoundBound(t0, sqrtN) - k
      {
        ghost var w := Walk(cur.roomSchedules, cur.cost, best'.roomSchedules, best'.cost);
        AnnealRound(w, special, cost, temp, t0, sqrtN, iterations, draws, k);
        CoolingBound(temp, t0, k, sqrtN);
        cur, best' := RunSweep(cur, best', temp, t0, draws(k), iterations, cost);
        temp := temp * CoolingRate(sqrtN);
        k := k + 1;
      }
    }

    // -------------------------------------------------------------------
    // updateDataManagerWithSchedule and schedule()

    /**
     * `schedule()`: no requests give an empty map. Otherwise the initial
     * schedule and its cost, two copies of it as the best and the current
     * schedule, the calibrated initial temperature, the annealing with
     * n = |requests| * |rooms|, the write-back of the best schedule, and the
     * map holding "initial" and "best". A failure of createInitialSchedule
     * or of the write-back is the exception the source throws; the
     * timetable then stays as it was.
     *
     * `probes` are the random draws of the calibration, `draws` those of the
     * annealing, `sqrtN` is `Math.sqrt(n)` and `order` the HashMap's
     * iteration order over the rooms.
     */
    method Schedule(probes: nat -> nat -> Sample, draws: nat -> nat -> Sample, sqrtN: real, order: seq<string>)
      returns (r: Result<map<string, Schedule>, SchedulingError>)
      requires sqrtN >= 0.0 && sqrtN * sqrtN == (|dataManager.surgeryNodes| * |dataManager.allRooms|) as real
      requires forall j: nat, i: nat :: DrawableOn((set x | x in dataManager.allRooms), probes(j)(i))
      requires forall j: nat, i: nat :: DrawableOn((set x | x in dataManager.allRooms), draws(j)(i))
      requires dataManager.Valid() && EachOnce(order)
      requires forall k :: k in order <==> k in dataManager.allRooms
      modifies dataManager`timetableData
      ensures Scheduled(r, old(dataManager.timetableData), dataManager.timetableData, old(dataManager.surgeryNodes),
                        old(dataManager.specialRooms), old(dataManager.allRooms), Parameters(), probes, draws, sqrtN,
                        order)
    {
      var surgeryNodes := dataManager.surgeryNodes;
      ghost var allRooms, special := dataManager.allRooms, dataManager.specialRooms;
      if |surgeryNodes| == 0 {
        return Success(map[]);
      }
      var created := CreateInitialSchedule(surgeryNodes);
      if created.Failure? {
        return Failure(InitFailed(created.error));
      }
      assert dataManager.Valid();
      r := ScheduleCreated(created.value, probes, draws, sqrtN, StepCount(|surgeryNodes|, |dataManager.allRooms|), order,
                           created.value.roomSchedules, special, allRooms);
    }

    /** `schedule()` once createInitialSchedule has succeeded. */
    method ScheduleCreated(initialSchedule: Schedule, probes: nat -> nat -> Sample, draws: nat -> nat -> Sample,
                           sqrtN: real, n: nat, order: seq<string>, ghost m: Rooms, ghost special: seq<string>,
                           ghost allRooms: seq<string>)
      returns (r: Result<map<string, Schedule>, SchedulingError>)
      requires m == initialSchedule.roomSchedules && special == dataManager.specialRooms
      requires allRooms == dataManager.allRooms
      requires sqrtN >= 0.0 && sqrtN * sqrtN == n as real
      requires m.Keys == set x | x in allRooms
      requires forall j: nat, i: nat :: DrawableOn((set x | x in allRooms), probes(j)(i))
      requires forall j: nat, i: nat :: DrawableOn((set x | x in allRooms), draws(j)(i))
      requires forall k :: k in order <==> k in allRooms
      requires EachOnce(order) && dataManager.Valid()
      modifies initialSchedule`cost, dataManager`timetableData
      ensures Annealed(r, old(dataManager.timetableData), dataManager.timetableData, m, special, allRooms,
                       Parameters(), probes, draws, sqrtN, n, order)
    {
      var currentSchedule, bestSchedule, initialTemperature := Prepare(initialSchedule, probes, m, special, allRooms);
      assert Run(m, special, allRooms, Parameters(), probes, draws, sqrtN, n)
          == Cool(m, special, CostOf(allRooms, Parameters()), initialTemperature, draws, sqrtN, n);
      r := ScheduleFrom(initialSchedule, currentSchedule, bestSchedule, initialTemperature, draws, sqrtN, n, order);
    }

    /**
     * The start of `schedule()` after createInitialSchedule: the initial
     * cost, a best and a current copy, and the calibrated initial
     * temperature.
     */
    method Prepare(initialSchedule: Schedule, probes: nat -> nat -> Sample, ghost m: Rooms, ghost special: seq<string>,
                   ghost allRooms: seq<string>)
      returns (currentSchedule: Schedule, bestSchedule: Schedule, t0: real)
      requires m == initialSchedule.roomSchedules && special == dataManager.specialRooms
      requires allRooms == dataManager.allRooms
      requires m.Keys == set x | x in allRooms
      requires forall j: nat, i: nat :: DrawableOn((set x | x in allRooms), probes(j)(i))
      modifies initialSchedule`cost
      ensures initialSchedule.cost == Cost(m, allRooms, Parameters())
      ensures fresh(currentSchedule) && fresh(bestSchedule) && currentSchedule != bestSchedule
      ensures currentSchedule.roomSchedules == m == bestSchedule.roomSchedules
      ensures initialSchedule.cost == currentSchedule.cost == bestSchedule.cost
      ensures forall j: nat, i: nat :: Drawable(m, probes(j)(i))
      ensures t0 == InitialTemperature(m, special, allRooms, Parameters(), probes)
    {
      var initialCost := CalculateCost(initialSchedule);
      bestSchedule := initialSchedule.Copy();
      currentSchedule := initialSchedule.Copy();
      DrawableAllByKeys(m, probes);
      t0 := FindInitialTemperature(currentSchedule, probes);
    }

    /**
     * `schedule()` from the calibrated initial temperature `t0` on: the
     * annealing of the current and the best copy, the write-back of the
     * best schedule, and the result map.
     */
    method ScheduleFrom(initialSchedule: Schedule, currentSchedule: Schedule, bestSchedule: Schedule, t0: real,
                        draws: nat -> nat -> Sample, sqrtN: real, n: nat, order: seq<string>)
      returns (r: Result<map<string, Schedule>, SchedulingError>)
      requires currentSchedule != bestSchedule && currentSchedule != initialSchedule
      requires currentSchedule.roomSchedules == initialSchedule.roomSchedules == bestSchedule.roomSchedules
      requires initialSchedule.cost == currentSchedule.cost == bestSchedule.cost
      requires initialSchedule.cost == Cost(initialSchedule.roomSchedules, dataManager.allRooms, Parameters())
      requires sqrtN >= 0.0 && sqrtN * sqrtN == n as real
      requires initialSchedule.roomSchedules.Keys == set x | x in dataManager.allRooms
      requires forall j: nat, i: nat :: DrawableOn((set x | x in dataManager.allRooms), draws(j)(i))
      requires forall k :: k in order <==> k in dataManager.allRooms
      requires EachOnce(order) && dataManager.Valid()
      modifies currentSchedule`cost, dataManager`timetableData
      ensures var m := initialSchedule.roomSchedules;
        var w := Cool(m, old(dataManager.specialRooms), CostOf(old(dataManager.allRooms), Parameters()), t0, draws,
                      sqrtN, n);
        match WriteBack(old(dataManager.timetableData), w.best, order)
        case Failure(id) => r == Failure(RowTooShort(id)) && dataManager.timetableData == old(dataManager.timetableData)
        case Success(t) =>
          && r.Success? && r.value.Keys == {"initial", "best"}
          && r.value["initial"] == initialSchedule && r.value["best"].roomSchedules == w.best
          && r.value["best"].cost == w.bestCost && dataManager.timetableData == t
    {
      var best := bestSchedule;
      // With n = 0 the temperature loop runs one round of no iterations, whose
      // cooling factor -1 / 0.0 is -Infinity: the best schedule stays the copy.
      if n > 0 {
        SqrtAtLeastOne(sqrtN, n);
        best := RunAnnealing(currentSchedule, bestSchedule, t0, sqrtN, Iterations(n), draws,
                             CostOf(dataManager.allRooms, Parameters()));
      }
      r := Finish(initialSchedule, best, order);
    }

    /** The end of `schedule()`: the write-back of the best schedule, then the map of both schedules. */
    method Finish(initialSchedule: Schedule, bestSchedule: Schedule, order: seq<string>)
      returns (r: Result<map<string, Schedule>, SchedulingError>)
      requires forall k :: k in order ==> k in bestSchedule.roomSchedules
      requires EachOnce(order) && dataManager.Valid()
      modifies dataManager`timetableData
      ensures match WriteBack(old(dataManager.timetableData), bestSchedule.roomSchedules, order)
        case Failure(id) => r == Failure(RowTooShort(id)) && dataManager.timetableData == old(dataManager.timetableData)
        case Success(t) =>
          r == Success(map["initial" := initialSchedule, "best" := bestSchedule]) && dataManager.timetableData == t
    {
      var written := UpdateDataManagerWithSchedule(bestSchedule, order);
      match written
      case Fail(id) => r := Failure(RowTooShort(id));
      case Pass => r := Success(map["initial" := initialSchedule, "best" := bestSchedule]);
    }

    /**
     * The first loop of updateDataManagerWithSchedule: every row after the
     * header with more than one field, keyed by its id, a later row of the
     * same id replacing an earlier one.
     */
    static method IndexRows(originalTimetable: seq<seq<string>>) returns (originalDataMap: map<string, seq<string>>)
      ensures originalDataMap == RowsById(originalTimetable, |originalTimetable|)
    {
      originalDataMap := map[];
      var i := 1;
      while i < |originalTimetable|
        invariant 1 <= i <= |originalTimetable| || (i == 1 && |originalTimetable| == 0)
        invariant originalDataMap == RowsById(originalTimetable, if |originalTimetable| == 0 then 0 else i)
      {
        var row := originalTimetable[i];
        if |row| > 1 {
          originalDataMap := originalDataMap[row[1] := row];
        }
        i := i + 1;
      }
    }

    /**
     * The second loop of updateDataManagerWithSchedule: `acc` followed by
     * the rows of every room of `order` in turn, or the id of the first
     * request whose row is too short to set field 5.
     */
    static method AppendRoomsRows(byId: map<string, seq<string>>, roomSchedules: Rooms, order: seq<string>,
                                  acc: seq<seq<string>>) returns (r: Result<seq<seq<string>>, string>)
      requires forall k :: k in order ==> k in roomSchedules
      ensures r == Then(acc, RoomsRows(byId, roomSchedules, order))
    {
      var newTimetableData := acc;
      ghost var all := RoomsRows(byId, roomSchedules, order);
      var e := 0;
      while e < |order|
        invariant 0 <= e <= |order|
        invariant Then(newTimetableData, RoomsRows(byId, roomSchedules, order[e..])) == Then(acc, all)
      {
        var roomName := order[e];
        assert order[e..][1..] == order[e + 1..];
        RoomsRowsHead(byId, roomSchedules, order[e..]);
        var appended := AppendRoomRows(byId, roomName, roomSchedules[roomName], newTimetableData);
        if appended.Failure? {
          return appended;
        }
        ThenAppends(newTimetableData, RoomRows(byId, roomName, roomSchedules[roomName]),
                    RoomsRows(byId, roomSchedules, order[e + 1..]));
        newTimetableData := appended.value;
        e := e + 1;
      }
      assert order[e..] == [] && newTimetableData + [] == newTimetableData;
      r := Success(newTimetableData);
    }

    /**
     * The inner loop of updateDataManagerWithSchedule for one room: `acc`
     * followed by the copied rows of the room's requests, or the id of the
     * first request whose row is too short to set field 5.
     */
    static method AppendRoomRows(byId: map<string, seq<string>>, roomName: string, surgeries: seq<SurgeryNode>,
                                 acc: seq<seq<string>>) returns (r: Result<seq<seq<string>>, string>)
      ensures r == Then(acc, RoomRows(byId, roomName, surgeries))
    {
      var rows := acc;
      var j := 0;
      while j < |surgeries|
        invariant 0 <= j <= |surgeries|
        invariant Then(rows, RoomRows(byId, roomName, surgeries[j..])) == Then(acc, RoomRows(byId, roomName, surgeries))
      {
        var surgery := surgeries[j];
        assert surgeries[j..][1..] == surgeries[j + 1..];
        RoomRowsHead(byId, roomName, surgeries[j..]);
        if surgery.applicationId in byId {
          var originalRow := byId[surgery.applicationId];
          if |originalRow| <= 5 {
            return Failure(surgery.applicationId);
          }
          var newRow := originalRow[5 := roomName];
          ThenAppends(rows, Success([newRow]), RoomRows(byId, roomName, surgeries[j + 1..]));
          rows := rows + [newRow];
        }
        j := j + 1;
      }
      assert surgeries[j..] == [] && rows + [] == rows;
      r := Success(rows);
    }

    /**
     * `updateDataManagerWithSchedule`: the header of the timetable, then for
     * every room in the HashMap's iteration order `order` and every request
     * in it with a row, a copy of that row with field 5 set to the room. A
     * row of fewer than six fields throws, and the timetable is kept.
     */
    method UpdateDataManagerWithSchedule(finalSchedule: Schedule, order: seq<string>) returns (o: Outcome<string>)
      requires forall k :: k in order ==> k in finalSchedule.roomSchedules
      requires EachOnce(order) && dataManager.Valid()
      modifies dataManager`timetableData
      ensures match WriteBack(old(dataManager.timetableData), finalSchedule.roomSchedules, order)
        case Failure(id) => o == Fail(id) && dataManager.timetableData == old(dataManager.timetableData)
        case Success(t) => o == Pass && dataManager.timetableData == t
    {
      var originalTimetable := dataManager.timetableData;
      var newTimetableData: seq<seq<string>> := [];
      if |originalTimetable| > 0 {
        newTimetableData := newTimetableData + [originalTimetable[0]];
      }
      var roomSchedules := finalSchedule.roomSchedules;
      var originalDataMap := IndexRows(originalTimetable);
      assert newTimetableData == if |originalTimetable| == 0 then [] else [originalTimetable[0]];
      var appended := AppendRoomsRows(originalDataMap, roomSchedules, order, newTimetableData);
      if appended.Failure? {
        return Fail(appended.error);
      }
      newTimetableData := appended.value;
      dataManager.UpdateTimetableData(newTimetableData);
      o := Pass;
    }
  }
}
