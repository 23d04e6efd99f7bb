/**
 * The overtime accounting of the Gantt-chart script: how many minutes of
 * the surgeries fall in the overtime ("yellow") block and in the
 * past-overtime ("red") block, when each room runs its surgeries back to
 * back from the start of the day, in timetable order.
 */
module Gantt {
  import opened Wrappers
  import opened Text
  import Preparation

  /** The end of the day in minutes: the red block stops there. */
  const DayEnd: int := 1440

  /** The four arguments the script looks up, under the keys of the arguments file. */
  datatype Settings = Settings(start: int, maxRegular: int, maxOvertime: int, transition: int)

  /** The Python exceptions the accounting can raise. */
  datatype GanttError =
    | MissingKey(key: string)          // KeyError on the arguments
    | RowShape(row: seq<string>)       // ValueError: a row that is not ten fields
    | NotAnInt(field: string)          // ValueError from int(duration)
    | UnknownRoom(room: string)        // KeyError on room_current_time

  /** `arguments[key]` for the four keys in turn; the first missing one raises. */
  function SettingsOf(arguments: map<string, int>): (r: Result<Settings, GanttError>)
    ensures r.Success? <==> forall j :: 0 <= j < 4 ==> Preparation.ArgumentNames[j] in arguments
  {
    var keys := Preparation.ArgumentNames;
    if keys[0] !in arguments then Failure(MissingKey(keys[0]))
    else if keys[1] !in arguments then Failure(MissingKey(keys[1]))
    else if keys[2] !in arguments then Failure(MissingKey(keys[2]))
    else if keys[3] !in arguments then Failure(MissingKey(keys[3]))
    else Success(Settings(arguments[keys[0]], arguments[keys[1]], arguments[keys[2]], arguments[keys[3]]))
  }

  /** The yellow block is [start + maxRegular, start + maxRegular + maxOvertime); the red block follows it up to `DayEnd`. */
  function YellowStart(s: Settings): int {
    s.start + s.maxRegular
  }

  function RedStart(s: Settings): int {
    YellowStart(s) + s.maxOvertime
  }

  function Max(a: int, b: int): int {
    if a < b then b else a
  }

  function Min(a: int, b: int): int {
    if a < b then a else b
  }

  /**
   * The minutes of a surgery running over [begin, end) that fall in the block
   * [lo, hi), as the script computes them: only when the two intervals meet,
   * and never negative.
   */
  function Overlap(begin: int, end: int, lo: int, hi: int): int {
    if begin < hi && end > lo then Max(0, Min(end, hi) - Max(begin, lo)) else 0
  }

  /** The white space `int` skips around a number (the ASCII part of Python's set). */
  predicate IsSpace(c: char) {
    c == ' ' || c == '\t' || c == '\n' || c == '\r' || c as int == 11 || c as int == 12
  }

  /** Where `int` is in a field: before the number, after its sign, in its digits, after them. */
  datatype IntPhase = Leading | Signed | InDigits | Trailing

  /**
   * `int(s)` read from offset `i` on, in phase `phase`, the sign so far
   * `negative` and the digits so far worth `acc`.
   */
  function IntScan(s: string, i: nat, phase: IntPhase, negative: bool, acc: nat): Option<int>
    requires i <= |s|
    decreases |s| - i
  {
    if i == |s| then
      var value: int := acc;
      if phase == InDigits || phase == Trailing then Some(if negative then -value else value) else None
    else
      var c := s[i];
      match phase
      case Leading =>
        if IsSpace(c) then IntScan(s, i + 1, Leading, false, 0)
        else if c == '-' || c == '+' then IntScan(s, i + 1, Signed, c == '-', 0)
        else if IsDigit(c) then IntScan(s, i + 1, InDigits, false, DigitValue(c))
        else None
      case Signed =>
        if IsDigit(c) then IntScan(s, i + 1, InDigits, negative, DigitValue(c)) else None
      case InDigits =>
        if IsDigit(c) then IntScan(s, i + 1, InDigits, negative, acc * 10 + DigitValue(c))
        else if IsSpace(c) then IntScan(s, i + 1, Trailing, negative, acc)
        else None
      case Trailing =>
        if IsSpace(c) then IntScan(s, i + 1, Trailing, negative, acc) else None
  }

  /**
   * `int(s)` on a field: white space around it, an optional sign, at least
   * one decimal digit, no bound on the value; anything else is the
   * ValueError case, `None`.
   */
  function PyInt(s: string): Option<int> {
    IntScan(s, 0, Leading, false, 0)
  }

  /** Once in the digits, `int` reads the rest of an all-digit field as the number the digits so far begin. */
  lemma {:induction false} IntScanDigits(s: string, j: nat, i: nat, negative: bool)
    requires j < i <= |s| && AllDigits(s[j..])
    ensures AllDigits(s[j..i])
    ensures IntScan(s, i, InDigits, negative, DigitsValue(s[j..i]))
         == var v: int := DigitsValue(s[j..]); Some(if negative then -v else v)
    decreases |s| - i
  {
    assert forall k :: 0 <= k < i - j ==> s[j..i][k] == s[j..][k];
    if i < |s| {
      assert s[i] == s[j..][i - j];
      assert s[j..i + 1][..i - j] == s[j..i];
      IntScanDigits(s, j, i + 1, negative);
    } else {
      assert s[j..i] == s[j..];
    }
  }

  /** `int` reads back every integer as Java's `toString` or Python's `str` writes it. */
  lemma PyIntOfIntToString(i: int)
    ensures PyInt(IntToString(i)) == Some(i)
  {
    var s := IntToString(i);
    var j := if i < 0 then 1 else 0;
    assert s[j..] == if i < 0 then s[1..] else s;
    assert |s[j..]| >= 1 by {
      if i < 0 {
        assert s == "-" + NatToString(-i);
      }
    }
    assert IsDigit(s[j]) by {
      assert s[j] == s[j..][0];
    }
    assert s[j..j + 1] == [s[j]];
    assert DigitsValue(s[j..j + 1]) == DigitValue(s[j]) by {
      assert s[j..j + 1][..0] == [];
    }
    IntScanDigits(s, j, j + 1, i < 0);
    if i < 0 {
      assert IntScan(s, 0, Leading, false, 0) == IntScan(s, 1, Signed, true, 0);
    }
    assert IntScan(s, j, if i < 0 then Signed else Leading, i < 0, 0)
        == IntScan(s, j + 1, InDigits, i < 0, DigitValue(s[j]));
  }

  lemma PyIntExamples()
    ensures PyInt(" 90 ") == Some(90)
    ensures PyInt("-15") == Some(-15)
    ensures PyInt("+") == None
    ensures PyInt("9 0") == None
    ensures PyInt("") == None
  {
  }

  /** A timetable row the script can unpack and whose duration it can read. */
  predicate Parsed(row: seq<string>) {
    |row| == 10 && PyInt(row[7]).Some?
  }

  /** A row the script gets through: it unpacks, its duration is an int and its room is known. */
  predicate Fits(row: seq<string>, allRooms: seq<string>) {
    Parsed(row) && row[5] in allRooms
  }

  /** The exception a row that does not fit raises, in the order the script evaluates it. */
  function RowError(row: seq<string>): GanttError {
    if |row| != 10 then RowShape(row)
    else if PyInt(row[7]).None? then NotAnInt(row[7])
    else UnknownRoom(row[5])
  }

  /** One surgery as the script reads it from its row: the room and the duration in minutes. */
  datatype Surgery = Surgery(room: string, duration: int)

  function SurgeryOf(row: seq<string>): Surgery
    requires Parsed(row)
  {
    Surgery(row[5], PyInt(row[7]).value)
  }

  /** The script's state between two rows: `room_current_time`, `time_in_yellow`, `time_in_red`. */
  datatype Tracking = Tracking(roomTime: map<string, int>, yellow: int, red: int)

  /** A surgery in a known room starts when its room is free, adds its overlaps, and frees the room a transition after it ends. */
  function Advance(st: Tracking, x: Surgery, s: Settings): Tracking
    requires x.room in st.roomTime
  {
    var begin := st.roomTime[x.room];
    var end := begin + x.duration;
    Tracking(st.roomTime[x.room := end + s.transition],
             st.yellow + Overlap(begin, end, YellowStart(s), RedStart(s)),
             st.red + Overlap(begin, end, RedStart(s), DayEnd))
  }

  /** One row: unpack it, read its duration, look its room up, then advance. */
  function SurgeryStep(st: Tracking, row: seq<string>, s: Settings): Result<Tracking, GanttError> {
    if |row| != 10 then Failure(RowShape(row))
    else match PyInt(row[7])
      case None => Failure(NotAnInt(row[7]))
      case Some(duration) =>
        if row[5] !in st.roomTime then Failure(UnknownRoom(row[5]))
        else Success(Advance(st, Surgery(row[5], duration), s))
  }

  /** Every room of `allRooms` free at the start of the day, nothing counted yet. */
  function Initial(s: Settings, allRooms: seq<string>): Tracking {
    Tracking(map room | room in allRooms :: s.start, 0, 0)
  }

  /** The state after the first `n` surgery rows. */
  function Track(rows: seq<seq<string>>, n: nat, s: Settings, allRooms: seq<string>): Result<Tracking, GanttError>
    requires n <= |rows|
    decreases n
  {
    if n == 0 then Success(Initial(s, allRooms))
    else Continue(Track(rows, n - 1, s, allRooms), rows[n - 1], s)
  }

  /** The next row is read only while nothing has been raised. */
  function Continue(previous: Result<Tracking, GanttError>, row: seq<string>, s: Settings): Result<Tracking, GanttError> {
    match previous
    case Failure(e) => Failure(e)
    case Success(st) => SurgeryStep(st, row, s)
  }

  lemma ContinueAfterFailure(previous: Result<Tracking, GanttError>, row: seq<string>, s: Settings)
    requires previous.Failure?
    ensures Continue(previous, row, s) == previous
  {
  }

  lemma TrackUnfolds(rows: seq<seq<string>>, i: nat, s: Settings, allRooms: seq<string>, st: Tracking)
    requires i < |rows| && Track(rows, i, s, allRooms) == Success(st)
    ensures Track(rows, i + 1, s, allRooms) == SurgeryStep(st, rows[i], s)
  {
    assert Track(rows, i + 1, s, allRooms) == Continue(Success(st), rows[i], s);
  }

  /** A row that does not fit raises the exception `RowError` names. */
  lemma RowRaises(st: Tracking, row: seq<string>, s: Settings)
    requires !(|row| == 10 && PyInt(row[7]).Some? && row[5] in st.roomTime)
    ensures SurgeryStep(st, row, s) == Failure(RowError(row))
  {
  }

  /** A row that fits advances its room. */
  lemma RowAdvances(st: Tracking, row: seq<string>, s: Settings, duration: int)
    requires |row| == 10 && PyInt(row[7]) == Some(duration) && row[5] in st.roomTime
    ensures SurgeryStep(st, row, s) == Success(Advance(st, Surgery(row[5], duration), s))
  {
  }

  /** `timetable[1:]`: the rows after the header. */
  function Rows(timetable: seq<seq<string>>): seq<seq<string>> {
    if |timetable| == 0 then [] else timetable[1..]
  }

  /** calculate_time_in_blocks: the minutes in the yellow block and in the red block. */
  function TimeInBlocks(timetable: seq<seq<string>>, arguments: map<string, int>, allRooms: seq<string>)
    : (r: Result<(int, int), GanttError>)
    ensures r.Success? ==> 0 <= r.value.0 && 0 <= r.value.1
  {
    match SettingsOf(arguments)
    case Failure(e) => Failure(e)
    case Success(s) =>
      var rows := Rows(timetable);
      match Track(rows, |rows|, s, allRooms)
      case Failure(e) => Failure(e)
      case Success(st) =>
        TrackMeaning(rows, |rows|, s, allRooms);
        YellowBounded(SurgeriesOf(rows, |rows|), s);
        RedBounded(SurgeriesOf(rows, |rows|), s);
        Success((st.yellow, st.red))
  }

  /** calculate_time_in_blocks: look the arguments up, then run the rows after the header. */
  method CalculateTimeInBlocks(timetable: seq<seq<string>>, arguments: map<string, int>, allRooms: seq<string>)
    returns (r: Result<(int, int), GanttError>)
    ensures r == TimeInBlocks(timetable, arguments, allRooms)
  {
    var settings := SettingsOf(arguments);
    if settings.Failure? {
      return Failure(settings.error);
    }
    var tracked := RunRows(Rows(timetable), settings.value, allRooms);
    if tracked.Failure? {
      return Failure(tracked.error);
    }
    r := Success((tracked.value.yellow, tracked.value.red));
  }

  /** The row loop of calculate_time_in_blocks, with its dictionary of room times and its two counters. */
  method RunRows(rows: seq<seq<string>>, s: Settings, allRooms: seq<string>) returns (r: Result<Tracking, GanttError>)
    ensures r == Track(rows, |rows|, s, allRooms)
  {
    var yellowStart := s.start + s.maxRegular;
    var redStart := yellowStart + s.maxOvertime;
    var timeInYellow, timeInRed := 0, 0;
    var roomCurrentTime := map room | room in allRooms :: s.start;
    var i := 0;
    while i < |rows|
      invariant 0 <= i <= |rows|
      invariant Track(rows, i, s, allRooms) == Success(Tracking(roomCurrentTime, timeInYellow, timeInRed))
    {
      var surgery := rows[i];
      ghost var before := Tracking(roomCurrentTime, timeInYellow, timeInRed);
      TrackUnfolds(rows, i, s, allRooms, before);
      var duration := if |surgery| == 10 then PyInt(surgery[7]) else None;
      if |surgery| != 10 || duration.None? || surgery[5] !in roomCurrentTime {
        r := Failure(RowError(surgery));
        RowRaises(before, surgery, s);
        TrackFailureStays(rows, i + 1, |rows|, s, allRooms);
        return;
      }
      var room := surgery[5];
      var surgeryStart := roomCurrentTime[room];
      var surgeryEnd := surgeryStart + duration.value;
      ghost var x := Surgery(room, duration.value);
      assert x.room in before.roomTime;
      RowAdvances(before, surgery, s, x.duration);
      ghost var after := Advance(before, x, s);
      if surgeryStart < redStart && surgeryEnd > yellowStart {
        var overlapYellowStart := Max(surgeryStart, yellowStart);
        var overlapYellowEnd := Min(surgeryEnd, redStart);
        timeInYellow := timeInYellow + Max(0, overlapYellowEnd - overlapYellowStart);
      }
      if surgeryStart < DayEnd && surgeryEnd > redStart {
        var overlapRedStart := Max(surgeryStart, redStart);
        var overlapRedEnd := Min(surgeryEnd, DayEnd);
        timeInRed := timeInRed + Max(0, overlapRedEnd - overlapRedStart);
      }
      assert timeInYellow == after.yellow;
      assert timeInRed == after.red;
      roomCurrentTime := roomCurrentTime[room := surgeryEnd + s.transition];
      assert roomCurrentTime == after.roomTime;
      i := i + 1;
    }
    r := Success(Tracking(roomCurrentTime, timeInYellow, timeInRed));
  }

  lemma {:induction false} TrackFailureStays(rows: seq<seq<string>>, n: nat, m: nat, s: Settings, allRooms: seq<string>)
    requires n <= m <= |rows|
    requires Track(rows, n, s, allRooms).Failure?
    ensures Track(rows, m, s, allRooms) == Track(rows, n, s, allRooms)
    decreases m
  {
    if n < m {
      TrackFailureStays(rows, n, m - 1, s, allRooms);
      ContinueAfterFailure(Track(rows, m - 1, s, allRooms), rows[m - 1], s);
    }
  }

  // ---------------------------------------------------------------------
  // The schedule the script assumes, stated without the dictionary

  predicate AllParsed(rows: seq<seq<string>>, n: nat)
    requires n <= |rows|
  {
    forall k :: 0 <= k < n ==> Parsed(rows[k])
  }

  /** Every one of the first `n` rows fits. */
  predicate AllFit(rows: seq<seq<string>>, n: nat, allRooms: seq<string>)
    requires n <= |rows|
  {
    AllParsed(rows, n) && forall k :: 0 <= k < n ==> rows[k][5] in allRooms
  }

  /** The surgeries of the first `n` rows, in timetable order. */
  function SurgeriesOf(rows: seq<seq<string>>, n: nat): (ss: seq<Surgery>)
    requires n <= |rows| && AllParsed(rows, n)
    ensures |ss| == n
    decreases n
  {
    if n == 0 then [] else SurgeriesOf(rows, n - 1) + [SurgeryOf(rows[n - 1])]
  }

  // ---------------------------------------------------------------------
  // The back-to-back schedule the script assumes, stated without the dictionary

  /** The time `room` is kept busy by the surgeries `ss`: each of its surgeries and the transition after it. */
  function Busy(ss: seq<Surgery>, room: string, transition: int): int
    decreases |ss|
  {
    if |ss| == 0 then 0
    else
      var k := |ss| - 1;
      Busy(ss[..k], room, transition) + (if ss[k].room == room then ss[k].duration + transition else 0)
  }

  /** Surgery `k` begins when its room has done all its earlier surgeries and their transitions. */
  function Begin(ss: seq<Surgery>, k: nat, s: Settings): int
    requires k < |ss|
  {
    s.start + Busy(ss[..k], ss[k].room, s.transition)
  }

  /** The minutes of the surgeries `ss` in the yellow block. */
  function YellowTotal(ss: seq<Surgery>, s: Settings): int
    decreases |ss|
  {
    if |ss| == 0 then 0
    else
      var k := |ss| - 1;
      var b := Begin(ss, k, s);
      YellowTotal(ss[..k], s) + Overlap(b, b + ss[k].duration, YellowStart(s), RedStart(s))
  }

  /** The minutes of the surgeries `ss` in the red block. */
  function RedTotal(ss: seq<Surgery>, s: Settings): int
    decreases |ss|
  {
    if |ss| == 0 then 0
    else
      var k := |ss| - 1;
      var b := Begin(ss, k, s);
      RedTotal(ss[..k], s) + Overlap(b, b + ss[k].duration, RedStart(s), DayEnd)
  }

  /** The minutes the surgeries `ss` last, a negative duration counting as none. */
  function Worked(ss: seq<Surgery>): int
    decreases |ss|
  {
    if |ss| == 0 then 0 else Worked(ss[..|ss| - 1]) + Max(0, ss[|ss| - 1].duration)
  }

  /** The state the surgeries `ss` should leave: each known room free after its busy time, and the two totals. */
  predicate TrackedAs(st: Tracking, ss: seq<Surgery>, s: Settings, allRooms: seq<string>) {
    && st.roomTime.Keys == (set room | room in allRooms)
    && (forall room :: room in allRooms ==> st.roomTime[room] == s.start + Busy(ss, room, s.transition))
    && st.yellow == YellowTotal(ss, s)
    && st.red == RedTotal(ss, s)
  }

  /** The first row that does not fit raises its exception. */
  predicate FailsAt(e: GanttError, rows: seq<seq<string>>, n: nat, allRooms: seq<string>)
    requires n <= |rows|
  {
    exists k :: 0 <= k < n && AllFit(rows, k, allRooms) && !Fits(rows[k], allRooms) && e == RowError(rows[k])
  }

  /**
   * What the first `n` rows do: they get through exactly when every one
   * fits; then the room times and the totals are those of the back-to-back
   * schedule, and otherwise the first row that does not fit raises.
   */
  predicate TrackExplained(rows: seq<seq<string>>, n: nat, s: Settings, allRooms: seq<string>)
    requires n <= |rows|
  {
    var t := Track(rows, n, s, allRooms);
    && (t.Success? <==> AllFit(rows, n, allRooms))
    && (t.Success? ==> TrackedAs(t.value, SurgeriesOf(rows, n), s, allRooms))
    && (t.Failure? ==> FailsAt(t.error, rows, n, allRooms))
  }

  /**
   * The loop over the rows: it gets through exactly when every row fits;
   * then the room times and the totals are those of the back-to-back
   * schedule, and otherwise the first row that does not fit raises.
   */
  lemma {:induction false} TrackMeaning(rows: seq<seq<string>>, n: nat, s: Settings, allRooms: seq<string>)
    requires n <= |rows|
    ensures TrackExplained(rows, n, s, allRooms)
    decreases n
  {
    if n == 0 {
      InitialTracks(s, allRooms);
    } else {
      TrackMeaning(rows, n - 1, s, allRooms);
      if Track(rows, n - 1, s, allRooms).Failure? {
        TrackFailedStep(rows, n, s, allRooms);
      } else {
        TrackStep(rows, n, s, allRooms);
      }
    }
  }

  lemma InitialTracks(s: Settings, allRooms: seq<string>)
    ensures TrackedAs(Initial(s, allRooms), [], s, allRooms)
  {
    var m := map room | room in allRooms :: s.start;
    assert m.Keys == (set room | room in allRooms);
  }

  lemma TrackFailedStep(rows: seq<seq<string>>, n: nat, s: Settings, allRooms: seq<string>)
    requires 1 <= n <= |rows|
    requires TrackExplained(rows, n - 1, s, allRooms) && Track(rows, n - 1, s, allRooms).Failure?
    ensures TrackExplained(rows, n, s, allRooms)
  {
    ContinueAfterFailure(Track(rows, n - 1, s, allRooms), rows[n - 1], s);
    assert !AllFit(rows, n, allRooms);
    var k :| 0 <= k < n - 1 && AllFit(rows, k, allRooms) && !Fits(rows[k], allRooms)
          && Track(rows, n - 1, s, allRooms).error == RowError(rows[k]);
  }

  lemma TrackStep(rows: seq<seq<string>>, n: nat, s: Settings, allRooms: seq<string>)
    requires 1 <= n <= |rows|
    requires TrackExplained(rows, n - 1, s, allRooms) && Track(rows, n - 1, s, allRooms).Success?
    ensures TrackExplained(rows, n, s, allRooms)
  {
    var st := Track(rows, n - 1, s, allRooms).value;
    var row := rows[n - 1];
    assert Track(rows, n, s, allRooms) == SurgeryStep(st, row, s);
    if Fits(row, allRooms) {
      assert AllFit(rows, n, allRooms);
      var x := SurgeryOf(row);
      assert x.room in st.roomTime;
      assert SurgeryStep(st, row, s) == Success(Advance(st, x, s));
      assert SurgeriesOf(rows, n) == SurgeriesOf(rows, n - 1) + [x];
      AdvanceTracks(st, SurgeriesOf(rows, n - 1), x, s, allRooms);
    } else {
      assert !AllFit(rows, n, allRooms);
      assert SurgeryStep(st, row, s) == Failure(RowError(row));
      assert AllFit(rows, n - 1, allRooms) && !Fits(rows[n - 1], allRooms);
      assert FailsAt(RowError(row), rows, n, allRooms);
    }
  }

  lemma BusyAppend(ss: seq<Surgery>, x: Surgery, room: string, transition: int)
    ensures Busy(ss + [x], room, transition)
         == Busy(ss, room, transition) + (if x.room == room then x.duration + transition else 0)
  {
    assert (ss + [x])[..|ss|] == ss;
  }

  /** A surgery of a known room moves that room on by its duration and a transition, and adds its own overlaps. */
  lemma AdvanceTracks(st: Tracking, ss: seq<Surgery>, x: Surgery, s: Settings, allRooms: seq<string>)
    requires TrackedAs(st, ss, s, allRooms) && x.room in allRooms
    ensures x.room in st.roomTime
    ensures TrackedAs(Advance(st, x, s), ss + [x], s, allRooms)
  {
    var next := ss + [x];
    assert next[..|ss|] == ss;
    assert next[|ss|] == x;
    var after := Advance(st, x, s);
    var begin := st.roomTime[x.room];
    assert begin == Begin(next, |ss|, s);
    assert after.yellow == YellowTotal(next, s);
    assert after.red == RedTotal(next, s);
    forall room | room in allRooms
      ensures after.roomTime[room] == s.start + Busy(next, room, s.transition)
    {
      BusyAppend(ss, x, room, s.transition);
    }
  }

  /**
   * calculate_time_in_blocks as a whole: a missing argument raises first;
   * otherwise the header row is never read, the call fails exactly when a
   * later row does not fit (raising for the first such row), and else
   * returns the two totals of the back-to-back schedule.
   */
  lemma TimeInBlocksMeaning(timetable: seq<seq<string>>, arguments: map<string, int>, allRooms: seq<string>)
    ensures var r := TimeInBlocks(timetable, arguments, allRooms);
      match SettingsOf(arguments)
      case Failure(e) => r == Failure(e)
      case Success(s) =>
        var rows := Rows(timetable);
        && (r.Success? <==> AllFit(rows, |rows|, allRooms))
        && (r.Failure? ==> FailsAt(r.error, rows, |rows|, allRooms))
        && (r.Success? ==>
              var ss := SurgeriesOf(rows, |rows|);
              r.value == (YellowTotal(ss, s), RedTotal(ss, s)))
  {
    if SettingsOf(arguments).Success? {
      var rows := Rows(timetable);
      TrackMeaning(rows, |rows|, SettingsOf(arguments).value, allRooms);
    }
  }

  // ---------------------------------------------------------------------
  // Properties of the accounting

  /** One surgery's overlap with a block is never negative, at most its duration, and at most the block's length. */
  lemma OverlapBounds(begin: int, end: int, lo: int, hi: int)
    ensures 0 <= Overlap(begin, end, lo, hi)
    ensures Overlap(begin, end, lo, hi) <= Max(0, end - begin)
    ensures Overlap(begin, end, lo, hi) <= Max(0, hi - lo)
  {
  }

  /** Two adjacent blocks never count more minutes of one surgery than the surgery lasts. */
  lemma AdjacentBlocks(begin: int, end: int, lo: int, mid: int, hi: int)
    ensures Overlap(begin, end, lo, mid) + Overlap(begin, end, mid, hi) <= Max(0, end - begin)
  {
  }

  /** Minute `t` falls in [a, b). */
  predicate Within(t: int, a: int, b: int) {
    a <= t < b
  }

  /** The minutes from `a` up to (not including) `b`. */
  lemma {:induction false} MinutesBetween(a: int, b: int)
    ensures |set t: int | a <= t < b && Within(t, a, b)| == Max(0, b - a)
    decreases b - a
  {
    if a < b {
      var c := b - 1;
      MinutesBetween(a, c);
      assert (set t: int | a <= t < b && Within(t, a, b))
          == (set t: int | a <= t < c && Within(t, a, c)) + {c};
    } else {
      assert (set t: int | a <= t < b && Within(t, a, b)) == {};
    }
  }

  /** The overlap the script computes is the number of minutes the surgery spends inside the block. */
  lemma OverlapIsMinutes(begin: int, end: int, lo: int, hi: int)
    ensures Overlap(begin, end, lo, hi) == |set t: int | begin <= t < end && Within(t, begin, end) && Within(t, lo, hi)|
  {
    var a, b := Max(begin, lo), Min(end, hi);
    assert (set t: int | begin <= t < end && Within(t, begin, end) && Within(t, lo, hi))
        == (set t: int | a <= t < b && Within(t, a, b));
    MinutesBetween(a, b);
  }

  /** `k + 1` surgeries of at most `m` minutes each. */
  lemma MoreTimes(k: nat, m: int)
    ensures (k + 1) * m == k * m + m
  {
  }

  /** No surgery counts more yellow minutes than the overtime allowance. */
  lemma {:induction false} YellowBounded(ss: seq<Surgery>, s: Settings)
    ensures 0 <= YellowTotal(ss, s) <= |ss| * Max(0, s.maxOvertime)
    decreases |ss|
  {
    if |ss| > 0 {
      var k := |ss| - 1;
      YellowBounded(ss[..k], s);
      var b := Begin(ss, k, s);
      OverlapBounds(b, b + ss[k].duration, YellowStart(s), RedStart(s));
      assert RedStart(s) - YellowStart(s) == s.maxOvertime;
      MoreTimes(k, Max(0, s.maxOvertime));
    }
  }

  /** No surgery counts more red minutes than remain of the day after the overtime block. */
  lemma {:induction false} RedBounded(ss: seq<Surgery>, s: Settings)
    ensures 0 <= RedTotal(ss, s) <= |ss| * Max(0, DayEnd - RedStart(s))
    decreases |ss|
  {
    if |ss| > 0 {
      var k := |ss| - 1;
      RedBounded(ss[..k], s);
      var b := Begin(ss, k, s);
      OverlapBounds(b, b + ss[k].duration, RedStart(s), DayEnd);
      MoreTimes(k, Max(0, DayEnd - RedStart(s)));
    }
  }

  /** The two blocks together count no more minutes than the surgeries last. */
  lemma {:induction false} BlocksWithinWorked(ss: seq<Surgery>, s: Settings)
    ensures YellowTotal(ss, s) + RedTotal(ss, s) <= Worked(ss)
    decreases |ss|
  {
    if |ss| > 0 {
      var k := |ss| - 1;
      BlocksWithinWorked(ss[..k], s);
      var b := Begin(ss, k, s);
      AdjacentBlocks(b, b + ss[k].duration, YellowStart(s), RedStart(s), DayEnd);
    }
  }

  /** Surgeries of other rooms leave a room's busy time alone. */
  lemma {:induction false} BusyUnchanged(ss: seq<Surgery>, a: nat, b: nat, room: string, transition: int)
    requires a <= b <= |ss|
    requires forall k :: a <= k < b ==> ss[k].room != room
    ensures Busy(ss[..b], room, transition) == Busy(ss[..a], room, transition)
    decreases b
  {
    if a < b {
      BusyUnchanged(ss, a, b - 1, room, transition);
      assert ss[..b] == ss[..b - 1] + [ss[b - 1]];
      BusyAppend(ss[..b - 1], ss[b - 1], room, transition);
    }
  }

  /** The first surgery of a room begins at the start of the day. */
  lemma FirstInRoom(ss: seq<Surgery>, k: nat, s: Settings)
    requires k < |ss|
    requires forall j :: 0 <= j < k ==> ss[j].room != ss[k].room
    ensures Begin(ss, k, s) == s.start
  {
    BusyUnchanged(ss, 0, k, ss[k].room, s.transition);
    assert ss[..0] == [];
  }

  /** The next surgery of a room begins one transition after the previous one ends. */
  lemma NextInRoom(ss: seq<Surgery>, j: nat, k: nat, s: Settings)
    requires j < k < |ss|
    requires ss[j].room == ss[k].room
    requires forall i :: j < i < k ==> ss[i].room != ss[k].room
    ensures Begin(ss, k, s) == Begin(ss, j, s) + ss[j].duration + s.transition
  {
    BusyUnchanged(ss, j + 1, k, ss[k].room, s.transition);
    assert ss[..j + 1] == ss[..j] + [ss[j]];
    BusyAppend(ss[..j], ss[j], ss[k].room, s.transition);
  }
}
