/**
 * `ScheduleMetrics`: the per-room usage, regular overtime and overtime of a
 * schedule over the rooms of the DataManager, their totals, whether every
 * request that needs a special room sits in one, and the schedule's cached
 * cost. The figures are the same ones the cost evaluator adds up.
 */
module Metrics {
  import opened SurgeryNodes
  import opened Schedules
  import opened Evaluation
  import opened DataManagement

  /** `RoomMetrics`: one room's usage, regular overtime and overtime, in minutes. */
  datatype RoomMetrics = RoomMetrics(usageTime: int, regularOvertime: int, overtime: int)

  /** A room's list as the metrics read it: a room with no list has no requests. */
  function ListOf(rooms: Rooms, room: string): (list: seq<SurgeryNode>)
    ensures room in rooms ==> list == rooms[room]
    ensures room !in rooms ==> list == []
  {
    if room in rooms then rooms[room] else []
  }

  /** The transition time of one room: one transition between each two consecutive requests. */
  function RoomTransitionTime(rooms: Rooms, room: string, transition: int): int {
    var list := ListOf(rooms, room);
    if |list| == 0 then 0 else (|list| - 1) * transition
  }

  /**
   * The metrics of one room: the durations plus the transitions, and the
   * minutes past maxRegularTime and past maxRegularTime + maxOvertime.
   */
  function MetricsOf(rooms: Rooms, room: string, p: Params): (m: RoomMetrics)
    ensures m.usageTime == RoomUsage(rooms, room, p.transitionTime)
    ensures m.regularOvertime == RegularOvertime(m.usageTime, p) && m.overtime == Overtime(m.usageTime, p)
    ensures m.regularOvertime >= 0 && m.overtime >= 0
    ensures p.maxOvertime >= 0 ==> m.overtime <= m.regularOvertime
  {
    var usage := SurgeryTime(ListOf(rooms, room)) + RoomTransitionTime(rooms, room, p.transitionTime);
    RoomMetrics(usage, Max0(usage - p.maxRegularTime), Max0(usage - (p.maxRegularTime + p.maxOvertime)))
  }

  /** No request of `room` that needs a special room sits there unless the room is special. */
  predicate RoomMet(rooms: Rooms, room: string, special: seq<string>) {
    var list := ListOf(rooms, room);
    forall k :: 0 <= k < |list| && NeedsSpecialRoom(list[k]) ==> room in special
  }

  /**
   * The running totals of the constructor's room loop: durations,
   * transitions, regular overtime, overtime, the special-room flag and the
   * `roomMetrics` map.
   */
  datatype Totals = Totals(surgery: int, transition: int, regularOvertime: int, overtime: int, specialMet: bool,
                           metrics: map<string, RoomMetrics>)

  /** The totals after the rooms of `allRooms` were visited in order. */
  function Tally(rooms: Rooms, allRooms: seq<string>, special: seq<string>, p: Params): (t: Totals)
    ensures t.regularOvertime >= 0 && t.overtime >= 0
    decreases |allRooms|
  {
    if |allRooms| == 0 then Totals(0, 0, 0, 0, true, map[])
    else
      var t := Tally(rooms, allRooms[..|allRooms| - 1], special, p);
      var room := allRooms[|allRooms| - 1];
      var m := MetricsOf(rooms, room, p);
      Totals(t.surgery + SurgeryTime(ListOf(rooms, room)),
             t.transition + RoomTransitionTime(rooms, room, p.transitionTime),
             t.regularOvertime + m.regularOvertime,
             t.overtime + m.overtime,
             t.specialMet && RoomMet(rooms, room, special),
             t.metrics[room := m])
  }

  /** Visiting one more room of `allRooms` adds its figures to the totals. */
  lemma TallyStep(rooms: Rooms, allRooms: seq<string>, special: seq<string>, p: Params, i: nat)
    requires i < |allRooms|
    ensures var t, room := Tally(rooms, allRooms[..i], special, p), allRooms[i];
      var m := MetricsOf(rooms, room, p);
      Tally(rooms, allRooms[..i + 1], special, p)
      == Totals(t.surgery + SurgeryTime(ListOf(rooms, room)),
                t.transition + RoomTransitionTime(rooms, room, p.transitionTime),
                t.regularOvertime + m.regularOvertime, t.overtime + m.overtime,
                t.specialMet && RoomMet(rooms, room, special), t.metrics[room := m])
  {
    assert allRooms[..i + 1][..i] == allRooms[..i];
  }

  // ---------------------------------------------------------------------
  // What the totals mean

  /** `roomMetrics` has exactly the rooms of `allRooms`, each with its own metrics. */
  lemma {:induction false} TallyMetrics(rooms: Rooms, allRooms: seq<string>, special: seq<string>, p: Params)
    ensures var m := Tally(rooms, allRooms, special, p).metrics;
      && (forall r :: r in m <==> r in allRooms)
      && (forall r :: r in m ==> m[r] == MetricsOf(rooms, r, p))
    decreases |allRooms|
  {
    if |allRooms| > 0 {
      var init := allRooms[..|allRooms| - 1];
      TallyMetrics(rooms, init, special, p);
      assert allRooms == init + [allRooms[|allRooms| - 1]];
    }
  }

  /**
   * The totals are the cost evaluator's figures: durations plus transitions
   * is the sum of the room usages, and the two overtime totals are the
   * cost's two overtime terms.
   */
  lemma {:induction false} TallyAgreesWithCost(rooms: Rooms, allRooms: seq<string>, special: seq<string>, p: Params)
    ensures var t, us := Tally(rooms, allRooms, special, p), Usages(rooms, allRooms, p.transitionTime);
      && t.surgery + t.transition == SumInts(us)
      && t.regularOvertime == TotalRegularOvertime(us, p)
      && t.overtime == TotalOvertime(us, p)
    decreases |allRooms|
  {
    if |allRooms| > 0 {
      var n := |allRooms| - 1;
      var us := Usages(rooms, allRooms, p.transitionTime);
      TallyAgreesWithCost(rooms, allRooms[..n], special, p);
      assert us[..n] == Usages(rooms, allRooms[..n], p.transitionTime);
      assert us[n] == MetricsOf(rooms, allRooms[n], p).usageTime;
    }
  }

  /** The flag holds exactly when every room of `allRooms` is met. */
  lemma {:induction false} TallySpecialIff(rooms: Rooms, allRooms: seq<string>, special: seq<string>, p: Params)
    ensures Tally(rooms, allRooms, special, p).specialMet
            <==> forall i :: 0 <= i < |allRooms| ==> RoomMet(rooms, allRooms[i], special)
    decreases |allRooms|
  {
    if |allRooms| > 0 {
      var init := allRooms[..|allRooms| - 1];
      TallySpecialIff(rooms, init, special, p);
      assert forall i :: 0 <= i < |init| ==> init[i] == allRooms[i];
    }
  }

  /**
   * The metrics' flag and the scheduler's `isValid`: a valid schedule meets
   * the requirement, and when every room of the schedule is one of
   * `allRooms` the two agree.
   */
  lemma ValidMeetsSpecial(rooms: Rooms, allRooms: seq<string>, special: seq<string>, p: Params)
    requires Valid(rooms, special)
    ensures Tally(rooms, allRooms, special, p).specialMet
  {
    TallySpecialIff(rooms, allRooms, special, p);
  }

  lemma SpecialMetIsValid(rooms: Rooms, allRooms: seq<string>, special: seq<string>, p: Params)
    requires forall r :: r in rooms ==> r in allRooms
    requires Tally(rooms, allRooms, special, p).specialMet
    ensures Valid(rooms, special)
  {
    TallySpecialIff(rooms, allRooms, special, p);
    forall r, i | r in rooms && 0 <= i < |rooms[r]| && NeedsSpecialRoom(rooms[r][i])
      ensures r in special
    {
      var j :| 0 <= j < |allRooms| && allRooms[j] == r;
      assert RoomMet(rooms, allRooms[j], special);
    }
  }

  /** With a non-negative overtime allowance, total overtime never exceeds total regular overtime. */
  lemma {:induction false} TallyOvertimeAtMostRegular(rooms: Rooms, allRooms: seq<string>, special: seq<string>,
                                                     p: Params)
    requires p.maxOvertime >= 0
    ensures Tally(rooms, allRooms, special, p).overtime <= Tally(rooms, allRooms, special, p).regularOvertime
    decreases |allRooms|
  {
    if |allRooms| > 0 {
      TallyOvertimeAtMostRegular(rooms, allRooms[..|allRooms| - 1], special, p);
    }
  }

  // ---------------------------------------------------------------------
  // The constructor's loops

  /**
   * The inner loop for one room: the sum of the durations and whether every
   * request needing a special room is in a special room.
   */
  method RoomFigures(surgeries: seq<SurgeryNode>, room: string, special: seq<string>)
    returns (roomSurgeryTime: int, met: bool)
    ensures roomSurgeryTime == SurgeryTime(surgeries)
    ensures met <==> forall k :: 0 <= k < |surgeries| && NeedsSpecialRoom(surgeries[k]) ==> room in special
  {
    roomSurgeryTime := 0;
    met := true;
    var j := 0;
    while j < |surgeries|
      invariant 0 <= j <= |surgeries|
      invariant roomSurgeryTime == SurgeryTime(surgeries[..j])
      invariant met <==> forall k :: 0 <= k < j && NeedsSpecialRoom(surgeries[k]) ==> room in special
    {
      assert surgeries[..j + 1][..j] == surgeries[..j];
      roomSurgeryTime := roomSurgeryTime + surgeries[j].surgeryTime;
      if NeedsSpecialRoom(surgeries[j]) && room !in special {
        met := false;
      }
      j := j + 1;
    }
    assert surgeries[..j] == surgeries;
  }

  /**
   * One pass of the constructor's room loop: the room's durations (and the
   * special-room check) when it has a non-empty list, its transitions, and
   * its `RoomMetrics`.
   */
  method RoomEntry(roomSchedules: Rooms, room: string, specialRooms: seq<string>, maxRegularTime: int,
                   maxOvertime: int, transitionTime: int, ghost p: Params)
    returns (m: RoomMetrics, roomSurgeryTime: int, roomTransitionTime: int, met: bool)
    requires p.maxRegularTime == maxRegularTime && p.maxOvertime == maxOvertime && p.transitionTime == transitionTime
    ensures m == MetricsOf(roomSchedules, room, p)
    ensures roomSurgeryTime == SurgeryTime(ListOf(roomSchedules, room))
    ensures roomTransitionTime == RoomTransitionTime(roomSchedules, room, transitionTime)
    ensures m.usageTime == roomSurgeryTime + roomTransitionTime
    ensures met == RoomMet(roomSchedules, room, specialRooms)
  {
    roomSurgeryTime, roomTransitionTime, met := 0, 0, true;
    if room in roomSchedules && |roomSchedules[room]| > 0 {
      var surgeries := roomSchedules[room];
      roomSurgeryTime, met := RoomFigures(surgeries, room, specialRooms);
      roomTransitionTime := (|surgeries| - 1) * transitionTime;
    }
    var roomUsageTime := roomSurgeryTime + roomTransitionTime;
    var regularOvertime := Max0(roomUsageTime - maxRegularTime);
    var overtime := Max0(roomUsageTime - (maxRegularTime + maxOvertime));
    m := RoomMetrics(roomUsageTime, regularOvertime, overtime);
  }

  /** The constructor's loop over `allRooms`, with the running totals it keeps. */
  method RoomLoop(roomSchedules: Rooms, allRooms: seq<string>, specialRooms: seq<string>, maxRegularTime: int,
                  maxOvertime: int, transitionTime: int, ghost p: Params)
    returns (tempTotalSurgeryTime: int, tempTotalTransitionTime: int, tempTotalRegularOvertime: int,
             tempTotalOvertime: int, specialMet: bool, metrics: map<string, RoomMetrics>)
    requires p.maxRegularTime == maxRegularTime && p.maxOvertime == maxOvertime && p.transitionTime == transitionTime
    ensures Totals(tempTotalSurgeryTime, tempTotalTransitionTime, tempTotalRegularOvertime, tempTotalOvertime,
                   specialMet, metrics) == Tally(roomSchedules, allRooms, specialRooms, p)
  {
    tempTotalSurgeryTime, tempTotalTransitionTime, tempTotalRegularOvertime, tempTotalOvertime := 0, 0, 0, 0;
    specialMet := true;
    metrics := map[];
    var i := 0;
    while i < |allRooms|
      invariant 0 <= i <= |allRooms|
      invariant Totals(tempTotalSurgeryTime, tempTotalTransitionTime, tempTotalRegularOvertime, tempTotalOvertime,
                       specialMet, metrics) == Tally(roomSchedules, allRooms[..i], specialRooms, p)
    {
      var room := allRooms[i];
      var m, roomSurgeryTime, roomTransitionTime, met :=
        RoomEntry(roomSchedules, room, specialRooms, maxRegularTime, maxOvertime, transitionTime, p);
      TallyStep(roomSchedules, allRooms, specialRooms, p, i);
      tempTotalSurgeryTime := tempTotalSurgeryTime + roomSurgeryTime;
      tempTotalTransitionTime := tempTotalTransitionTime + roomTransitionTime;
      tempTotalRegularOvertime := tempTotalRegularOvertime + m.regularOvertime;
      tempTotalOvertime := tempTotalOvertime + m.overtime;
      specialMet := specialMet && met;
      metrics := metrics[room := m];
      i := i + 1;
    }
    assert allRooms[..i] == allRooms;
  }

  class ScheduleMetrics {
    const cost: real
    const totalSurgeryTime: int
    const totalUsageTime: int
    const totalTransitionTime: int
    const totalRegularOvertime: int
    const totalOvertime: int
    const isSpecialRoomRequirementMet: bool
    /** A TreeMap in the source; as a map its order does not matter. */
    const roomMetrics: map<string, RoomMetrics>

    /**
     * `new ScheduleMetrics(schedule, dataManager)`: the metrics of every room
     * of `allRooms` under the parameters of the arguments map (defaults for
     * missing keys), their totals, whether the special-room requirement is
     * met, and the schedule's cost as it was cached.
     */
    constructor (schedule: Schedule, dataManager: DataManager)
      ensures var t := Tally(schedule.roomSchedules, dataManager.allRooms, dataManager.specialRooms,
                             ParamsFrom(dataManager.arguments));
        && roomMetrics == t.metrics
        && totalSurgeryTime == t.surgery && totalTransitionTime == t.transition
        && totalUsageTime == totalSurgeryTime + totalTransitionTime
        && totalRegularOvertime == t.regularOvertime && totalOvertime == t.overtime
        && isSpecialRoomRequirementMet == t.specialMet
        && cost == schedule.cost
    {
      var roomSchedules := schedule.roomSchedules;
      var specialRooms := dataManager.specialRooms;
      var args := dataManager.arguments;
      var allRooms := dataManager.allRooms;
      var maxRegularTime := GetOrDefault(args, "maxRegularTime", 540);
      var maxOvertime := GetOrDefault(args, "maxOvertime", 120);
      var transitionTime := GetOrDefault(args, "transitionTime", 45);
      ghost var p := ParamsFrom(args);
      var tempTotalSurgeryTime, tempTotalTransitionTime, tempTotalRegularOvertime, tempTotalOvertime, specialMet,
          metrics := RoomLoop(roomSchedules, allRooms, specialRooms, maxRegularTime, maxOvertime, transitionTime, p);
      roomMetrics := metrics;
      totalSurgeryTime := tempTotalSurgeryTime;
      totalTransitionTime := tempTotalTransitionTime;
      totalUsageTime := tempTotalSurgeryTime + tempTotalTransitionTime;
      totalRegularOvertime := tempTotalRegularOvertime;
      totalOvertime := tempTotalOvertime;
      isSpecialRoomRequirementMet := specialMet;
      cost := schedule.cost;
    }

  }
}
