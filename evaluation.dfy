/**
 * The cost and validity model of the scheduler: tuning parameters with
 * their defaults, room usage, regular overtime and overtime, the balance
 * term, the total cost, and the special-room feasibility condition.
 */
module Evaluation {
  import opened SurgeryNodes
  import opened Schedules

  /** The four tuning parameters, in minutes. */
  datatype Params = Params(startTime: int, maxRegularTime: int, maxOvertime: int, transitionTime: int)

  const DefaultStartTime: int := 510
  const DefaultMaxRegularTime: int := 540
  const DefaultMaxOvertime: int := 120
  const DefaultTransitionTime: int := 45

  /** `args.getOrDefault(key, d)`. */
  function GetOrDefault(args: map<string, int>, key: string, d: int): int {
    if key in args then args[key] else d
  }

  /** The parameters the Scheduler and ScheduleMetrics constructors read, defaults for missing keys. */
  function ParamsFrom(args: map<string, int>): (p: Params)
    ensures "startTime" in args ==> p.startTime == args["startTime"]
    ensures "startTime" !in args ==> p.startTime == 510
    ensures "maxRegularTime" in args ==> p.maxRegularTime == args["maxRegularTime"]
    ensures "maxRegularTime" !in args ==> p.maxRegularTime == 540
    ensures "maxOvertime" in args ==> p.maxOvertime == args["maxOvertime"]
    ensures "maxOvertime" !in args ==> p.maxOvertime == 120
    ensures "transitionTime" in args ==> p.transitionTime == args["transitionTime"]
    ensures "transitionTime" !in args ==> p.transitionTime == 45
  {
    Params(
      GetOrDefault(args, "startTime", DefaultStartTime),
      GetOrDefault(args, "maxRegularTime", DefaultMaxRegularTime),
      GetOrDefault(args, "maxOvertime", DefaultMaxOvertime),
      GetOrDefault(args, "transitionTime", DefaultTransitionTime))
  }

  function Max0(x: int): int {
    if x < 0 then 0 else x
  }

  /** Sum of the durations of a room's requests. */
  function SurgeryTime(list: seq<SurgeryNode>): int
    decreases |list|
  {
    if |list| == 0 then 0 else SurgeryTime(list[..|list| - 1]) + list[|list| - 1].surgeryTime
  }

  /**
   * Usage of one room as ScheduleMetrics writes it: the durations plus one
   * transition between each two consecutive requests, nothing for an empty room.
   */
  function UsageTime(list: seq<SurgeryNode>, transition: int): int {
    if |list| == 0 then 0 else SurgeryTime(list) + (|list| - 1) * transition
  }

  /** What calculateCost's inner loop adds up before it takes the last transition off. */
  function AccumulatedTime(list: seq<SurgeryNode>, transition: int): int
    decreases |list|
  {
    if |list| == 0 then 0
    else AccumulatedTime(list[..|list| - 1], transition) + list[|list| - 1].surgeryTime + transition
  }

  /** One transition per request, on top of the durations. */
  lemma {:induction false} AccumulatedTimeCounts(list: seq<SurgeryNode>, transition: int)
    ensures AccumulatedTime(list, transition) == SurgeryTime(list) + |list| * transition
    decreases |list|
  {
    if |list| > 0 {
      AccumulatedTimeCounts(list[..|list| - 1], transition);
    }
  }

  /**
   * The two ways the source computes a room's usage agree: calculateCost's
   * "add duration and transition per request, then subtract one transition
   * if the room is not empty" is ScheduleMetrics' closed form.
   */
  lemma AccumulatedMinusLastIsUsage(list: seq<SurgeryNode>, transition: int)
    ensures UsageTime(list, transition)
         == if |list| == 0 then 0 else AccumulatedTime(list, transition) - transition
  {
    AccumulatedTimeCounts(list, transition);
  }

  /** With non-negative durations and transition, usage is non-negative and at least the durations. */
  lemma {:induction false} UsageBounds(list: seq<SurgeryNode>, transition: int)
    requires transition >= 0
    requires forall i :: 0 <= i < |list| ==> list[i].surgeryTime >= 0
    ensures 0 <= SurgeryTime(list) <= UsageTime(list, transition)
    decreases |list|
  {
    if |list| > 0 {
      UsageBounds(list[..|list| - 1], transition);
    }
  }

  /** A room absent from the map is used 0 minutes (`roomSchedules.get(room) == null`). */
  function RoomUsage(rooms: Rooms, room: string, transition: int): (u: int)
    ensures room !in rooms ==> u == 0
    ensures room in rooms ==>
      u == if |rooms[room]| == 0 then 0 else AccumulatedTime(rooms[room], transition) - transition
  {
    if room in rooms then
      AccumulatedMinusLastIsUsage(rooms[room], transition);
      UsageTime(rooms[room], transition)
    else 0
  }

  /** The usage of each room of `allRooms`, in the order of `allRooms`. */
  function Usages(rooms: Rooms, allRooms: seq<string>, transition: int): (us: seq<int>)
    ensures |us| == |allRooms|
    ensures forall i :: 0 <= i < |allRooms| ==> us[i] == RoomUsage(rooms, allRooms[i], transition)
  {
    seq(|allRooms|, i requires 0 <= i < |allRooms| => RoomUsage(rooms, allRooms[i], transition))
  }

  /** `max(0, usage - maxRegularTime)`. */
  function RegularOvertime(usage: int, p: Params): int {
    Max0(usage - p.maxRegularTime)
  }

  /** `max(0, usage - (maxRegularTime + maxOvertime))`. */
  function Overtime(usage: int, p: Params): int {
    Max0(usage - (p.maxRegularTime + p.maxOvertime))
  }

  function SumInts(xs: seq<int>): int
    decreases |xs|
  {
    if |xs| == 0 then 0 else SumInts(xs[..|xs| - 1]) + xs[|xs| - 1]
  }

  function TotalRegularOvertime(us: seq<int>, p: Params): (t: int)
    ensures t >= 0
    decreases |us|
  {
    if |us| == 0 then 0 else TotalRegularOvertime(us[..|us| - 1], p) + RegularOvertime(us[|us| - 1], p)
  }

  function TotalOvertime(us: seq<int>, p: Params): (t: int)
    ensures t >= 0
    decreases |us|
  {
    if |us| == 0 then 0 else TotalOvertime(us[..|us| - 1], p) + Overtime(us[|us| - 1], p)
  }

  function Abs(x: real): real {
    if x < 0.0 then -x else x
  }

  /** Sum of the distances of the usages from `avg`. */
  function Deviation(us: seq<int>, avg: real): (d: real)
    ensures d >= 0.0
    decreases |us|
  {
    if |us| == 0 then 0.0 else Deviation(us[..|us| - 1], avg) + Abs(us[|us| - 1] as real - avg)
  }

  /** Mean usage over the rooms; the source divides by the room count, which has no rooms only with `0/0`. */
  function Average(us: seq<int>): real {
    if |us| == 0 then 0.0 else SumInts(us) as real / |us| as real
  }

  /** The balance term: Σ |usage − average usage|. */
  function Balance(us: seq<int>): real {
    Deviation(us, Average(us))
  }

  /**
   * The schedule's cost: total regular overtime, plus twice the total
   * overtime, plus the balance term, over every room of `allRooms`.
   * Never negative, whatever the durations and parameters.
   */
  function Cost(rooms: Rooms, allRooms: seq<string>, p: Params): (c: real)
    ensures c >= 0.0
  {
    var us := Usages(rooms, allRooms, p.transitionTime);
    TotalRegularOvertime(us, p) as real + 2.0 * TotalOvertime(us, p) as real + Balance(us)
  }

  /** The balance term is zero exactly when every room has the same usage as `avg`. */
  lemma {:induction false} DeviationZeroIff(us: seq<int>, avg: real)
    ensures Deviation(us, avg) == 0.0 <==> forall i :: 0 <= i < |us| ==> us[i] as real == avg
    decreases |us|
  {
    if |us| > 0 {
      var init := us[..|us| - 1];
      DeviationZeroIff(init, avg);
      assert forall i :: 0 <= i < |init| ==> init[i] == us[i];
    }
  }

  /** No regular overtime in total exactly when no room goes past maxRegularTime. */
  lemma {:induction false} RegularOvertimeZeroIff(us: seq<int>, p: Params)
    ensures TotalRegularOvertime(us, p) == 0 <==> forall i :: 0 <= i < |us| ==> us[i] <= p.maxRegularTime
    decreases |us|
  {
    if |us| > 0 {
      var init := us[..|us| - 1];
      RegularOvertimeZeroIff(init, p);
      assert forall i :: 0 <= i < |init| ==> init[i] == us[i];
    }
  }

  lemma {:induction false} OvertimeZeroIff(us: seq<int>, p: Params)
    ensures TotalOvertime(us, p) == 0 <==> forall i :: 0 <= i < |us| ==> us[i] <= p.maxRegularTime + p.maxOvertime
    decreases |us|
  {
    if |us| > 0 {
      var init := us[..|us| - 1];
      OvertimeZeroIff(init, p);
      assert forall i :: 0 <= i < |init| ==> init[i] == us[i];
    }
  }

  /**
   * A schedule costs nothing exactly when every room is within its regular
   * time (and within regular time plus overtime) and all rooms are used
   * equally long.
   */
  lemma CostZeroIff(rooms: Rooms, allRooms: seq<string>, p: Params)
    ensures var us := Usages(rooms, allRooms, p.transitionTime);
      Cost(rooms, allRooms, p) == 0.0 <==>
        forall i :: 0 <= i < |us| ==>
          us[i] <= p.maxRegularTime && us[i] <= p.maxRegularTime + p.maxOvertime && us[i] as real == Average(us)
  {
    var us := Usages(rooms, allRooms, p.transitionTime);
    RegularOvertimeZeroIff(us, p);
    OvertimeZeroIff(us, p);
    DeviationZeroIff(us, Average(us));
  }

  /** With a non-negative overtime allowance, overtime never exceeds regular overtime, room by room and in total. */
  lemma {:induction false} OvertimeAtMostRegular(us: seq<int>, p: Params)
    requires p.maxOvertime >= 0
    ensures TotalOvertime(us, p) <= TotalRegularOvertime(us, p)
    decreases |us|
  {
    if |us| > 0 {
      OvertimeAtMostRegular(us[..|us| - 1], p);
    }
  }

  /**
   * `isValid`'s condition: no request that needs a special room sits, in
   * any room of the map, in a room outside `specialRooms`.
   */
  predicate Valid(rooms: Rooms, specialRooms: seq<string>) {
    forall r, i :: r in rooms && 0 <= i < |rooms[r]| && NeedsSpecialRoom(rooms[r][i]) ==> r in specialRooms
  }

  /** A worked example: two rooms of two requests each, with the default parameters. */
  lemma UsageExample()
    ensures var a := [SurgeryNode("0", "A", 480, "N"), SurgeryNode("2", "A", 90, "N")];
      var b := [SurgeryNode("1", "B", 60, "N"), SurgeryNode("3", "B", 30, "N")];
      var p := Params(510, 540, 120, 45);
      UsageTime(a, 45) == 615 && UsageTime(b, 45) == 135
      && RegularOvertime(615, p) == 75 && Overtime(615, p) == 0
  {
    var a := [SurgeryNode("0", "A", 480, "N"), SurgeryNode("2", "A", 90, "N")];
    var b := [SurgeryNode("1", "B", 60, "N"), SurgeryNode("3", "B", 30, "N")];
    assert a[..1][..0] == [] && b[..1][..0] == [];
    assert SurgeryTime(a[..1]) == 480;
    assert SurgeryTime(b[..1]) == 60;
  }
}
