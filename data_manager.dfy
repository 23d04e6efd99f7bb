/**
 * `DataManager`: the room sets, the raw timetable rows, the requests and the
 * tuning arguments read from the three input files, each reader a loop over
 * the lines `BufferedReader.readLine` returns. The readers' line-by-line
 * state machines are stated as folds (`RoomScan`, `TimetableScan`) that the
 * loops are proved to compute.
 */
module DataManagement {
  import opened Wrappers
  import opened Text
  import opened TreeSets
  import opened SurgeryNodes

  // ---------------------------------------------------------------------
  // readRoomData

  /** The header tokens of the room file. */
  const AllRoomsTag: string := "roomNamesOfAll"
  const SpecialRoomsTag: string := "roomNames4Orth"

  /** The state of readRoomData between two lines: its two flags and the two TreeSets. */
  datatype RoomFile = RoomFile(isAllRoomsLine: bool, isSpecialRoomsLine: bool,
                               allRooms: seq<string>, specialRooms: seq<string>)

  predicate SortedRoomFile(st: RoomFile) {
    StrictlySorted(st.allRooms) && StrictlySorted(st.specialRooms)
  }

  /** The names of a data line: quotes removed, split on commas. */
  function RoomNames(line: string): seq<string> {
    JavaSplit(RemoveChar(line, '"'), ',')
  }

  /**
   * One line of the room file. After the BOM is stripped a blank line changes
   * nothing; a "#" line sets each flag to whether it names that set; a data
   * line is added to the set whose flag is up (the all-rooms flag first) and
   * lowers that flag; any other data line is ignored.
   */
  function RoomStep(st: RoomFile, raw: string): (r: RoomFile)
    requires SortedRoomFile(st)
    ensures SortedRoomFile(r)
  {
    var line := StripBom(raw);
    if IsBlank(line) then st
    else if StartsWith(line, "#") then
      st.(isAllRoomsLine := Contains(line, AllRoomsTag), isSpecialRoomsLine := Contains(line, SpecialRoomsTag))
    else if st.isAllRoomsLine then
      st.(allRooms := AddAll(st.allRooms, RoomNames(line)), isAllRoomsLine := false)
    else if st.isSpecialRoomsLine then
      st.(specialRooms := AddAll(st.specialRooms, RoomNames(line)), isSpecialRoomsLine := false)
    else st
  }

  /** The whole room file, line by line from `st`. */
  function RoomScan(st: RoomFile, lines: seq<string>): (r: RoomFile)
    requires SortedRoomFile(st)
    ensures SortedRoomFile(r)
    decreases |lines|
  {
    if |lines| == 0 then st else RoomScan(RoomStep(st, lines[0]), lines[1..])
  }

  // ---------------------------------------------------------------------
  // readTimeTableData

  /** The request a data row gives: fields 1, 5, 7 and 8 of a row of at least nine fields whose field 7 is an int. */
  function NodeOfRow(data: seq<string>): (r: Option<SurgeryNode>)
    ensures r.Some? <==> |data| >= 9 && ParseInt(data[7]).Some?
    ensures r.Some? ==> r.value == SurgeryNode(data[1], data[5], ParseInt(data[7]).value, data[8])
  {
    if |data| < 9 then None
    else match ParseInt(data[7])
      case None => None
      case Some(t) => Some(SurgeryNode(data[1], data[5], t, data[8]))
  }

  /** The request of a row, as a list of zero or one. */
  function RowNodes(data: seq<string>): seq<SurgeryNode> {
    match NodeOfRow(data)
    case Some(n) => [n]
    case None => []
  }

  /** The state of readTimeTableData between two lines. */
  datatype TimetableRead = TimetableRead(isHeader: bool, rows: seq<seq<string>>, nodes: seq<SurgeryNode>)

  /** A line of the timetable: blank (after the BOM), or a row with the request it would make past the header. */
  datatype Line = Blank | Row(fields: seq<string>, request: Option<SurgeryNode>)

  /** What one line of the timetable is: its comma-separated fields and the request they make. */
  function LineOf(raw: string): (r: Line)
    ensures r.Blank? <==> IsBlank(StripBom(raw))
    ensures r.Row? ==> r.fields == JavaSplit(StripBom(raw), ',') && r.request == NodeOfRow(r.fields)
  {
    var line := StripBom(raw);
    if IsBlank(line) then Blank
    else
      var data := JavaSplit(line, ',');
      Row(data, NodeOfRow(data))
  }

  /** Each line of a timetable, parsed. */
  function LinesOf(lines: seq<string>): (r: seq<Line>)
    ensures |r| == |lines| && forall i :: 0 <= i < |lines| ==> r[i] == LineOf(lines[i])
  {
    seq(|lines|, i requires 0 <= i < |lines| => LineOf(lines[i]))
  }

  /** The request of a row, as a list of zero or one. */
  function Requested(q: Option<SurgeryNode>): seq<SurgeryNode> {
    match q
    case Some(n) => [n]
    case None => []
  }

  /**
   * One line of the timetable: blank lines are skipped; every other line is
   * kept as a row; the first one is the header, every later one may also
   * give a request.
   */
  function TimetableStep(st: TimetableRead, line: Line): TimetableRead {
    match line
    case Blank => st
    case Row(data, q) =>
      if st.isHeader then st.(isHeader := false, rows := st.rows + [data])
      else st.(rows := st.rows + [data], nodes := st.nodes + Requested(q))
  }

  /** The reader over `lines`: rows and requests are only ever appended. */
  function TimetableScan(st: TimetableRead, lines: seq<Line>): (r: TimetableRead)
    ensures st.rows <= r.rows && st.nodes <= r.nodes
    decreases |lines|
  {
    if |lines| == 0 then st else TimetableScan(TimetableStep(st, lines[0]), lines[1..])
  }

  /** The fields of every row, in order; blank lines give none. */
  function FieldsOf(lines: seq<Line>): seq<seq<string>>
    decreases |lines|
  {
    if |lines| == 0 then []
    else (if lines[0].Row? then [lines[0].fields] else []) + FieldsOf(lines[1..])
  }

  /** The requests the rows make, in order. */
  function Requests(lines: seq<Line>): seq<SurgeryNode>
    decreases |lines|
  {
    if |lines| == 0 then []
    else (if lines[0].Row? then Requested(lines[0].request) else []) + Requests(lines[1..])
  }

  /** The requests of the rows after the first row (the header). */
  function RequestsAfterHeader(lines: seq<Line>): seq<SurgeryNode>
    decreases |lines|
  {
    if |lines| == 0 then []
    else if lines[0].Row? then Requests(lines[1..])
    else RequestsAfterHeader(lines[1..])
  }

  /** The rows of a timetable: each non-blank line (BOM stripped) split on commas. */
  function DataRows(lines: seq<string>): seq<seq<string>> {
    FieldsOf(LinesOf(lines))
  }

  /** The requests of the rows after the header. */
  function NodesOfRows(rows: seq<seq<string>>): seq<SurgeryNode>
    decreases |rows|
  {
    if |rows| == 0 then []
    else
      Requested(NodeOfRow(rows[0])) + NodesOfRows(rows[1..])
  }

  /** Past the header, the scan adds one row per non-blank line and the requests those rows make. */
  lemma {:induction false} ScanAfterHeader(st: TimetableRead, lines: seq<Line>)
    requires !st.isHeader
    ensures var r := TimetableScan(st, lines);
      r.rows == st.rows + FieldsOf(lines) && r.nodes == st.nodes + Requests(lines) && !r.isHeader
    decreases |lines|
  {
    if |lines| > 0 {
      var st1 := TimetableStep(st, lines[0]);
      ScanAfterHeader(st1, lines[1..]);
      if lines[0].Row? {
        var here := lines[0];
        assert st.rows + [here.fields] + FieldsOf(lines[1..]) == st.rows + ([here.fields] + FieldsOf(lines[1..]));
        assert st.nodes + Requested(here.request) + Requests(lines[1..])
            == st.nodes + (Requested(here.request) + Requests(lines[1..]));
      }
    }
  }

  /**
   * From the header state the scan adds one row per non-blank line, and one
   * request for each row after the first whose fields make one: the header
   * never yields a request.
   */
  lemma {:induction false} ScanFromHeader(st: TimetableRead, lines: seq<Line>)
    requires st.isHeader
    ensures TimetableScan(st, lines).rows == st.rows + FieldsOf(lines)
    ensures TimetableScan(st, lines).nodes == st.nodes + RequestsAfterHeader(lines)
    decreases |lines|
  {
    if |lines| > 0 {
      var st1 := TimetableStep(st, lines[0]);
      if lines[0].Row? {
        ScanAfterHeader(st1, lines[1..]);
        assert st.rows + [lines[0].fields] + FieldsOf(lines[1..]) == st.rows + ([lines[0].fields] + FieldsOf(lines[1..]));
      } else {
        ScanFromHeader(st1, lines[1..]);
      }
    }
  }

  /** The requests carried by parsed lines are the ones their fields make. */
  lemma {:induction false} RequestsOfParsedLines(lines: seq<string>)
    ensures Requests(LinesOf(lines)) == NodesOfRows(DataRows(lines))
    decreases |lines|
  {
    if |lines| > 0 {
      var ls := LinesOf(lines);
      assert ls[1..] == LinesOf(lines[1..]);
      RequestsOfParsedLines(lines[1..]);
      assert ls[0] == LineOf(lines[0]);
      if ls[0].Row? {
        var rows := [ls[0].fields] + DataRows(lines[1..]);
        assert DataRows(lines) == rows;
        assert rows[0] == ls[0].fields && rows[1..] == DataRows(lines[1..]);
        assert NodesOfRows(rows) == Requested(ls[0].request) + NodesOfRows(DataRows(lines[1..]));
      } else {
        assert DataRows(lines) == DataRows(lines[1..]);
      }
    }
  }

  /** The requests after the header are those of the data rows after the first. */
  lemma {:induction false} RequestsAfterHeaderOfParsedLines(lines: seq<string>)
    ensures var rows := DataRows(lines);
      RequestsAfterHeader(LinesOf(lines)) == NodesOfRows(if |rows| == 0 then [] else rows[1..])
    decreases |lines|
  {
    if |lines| > 0 {
      var ls := LinesOf(lines);
      assert ls[1..] == LinesOf(lines[1..]);
      if ls[0].Row? {
        RequestsOfParsedLines(lines[1..]);
        assert DataRows(lines) == [ls[0].fields] + DataRows(lines[1..]);
        assert ([ls[0].fields] + DataRows(lines[1..]))[1..] == DataRows(lines[1..]);
      } else {
        RequestsAfterHeaderOfParsedLines(lines[1..]);
        assert DataRows(lines) == DataRows(lines[1..]);
      }
    }
  }

  // ---------------------------------------------------------------------
  // readArgumentsData

  /** The argument lines: BOM stripped, "#" comments and blank lines left out. */
  function ArgumentLines(lines: seq<string>): (r: seq<string>)
    ensures |r| <= |lines|
    decreases |lines|
  {
    if |lines| == 0 then [] else ArgumentLine(lines[0]) + ArgumentLines(lines[1..])
  }

  /** One line as an argument line: none for a "#" comment or a blank line, else the line without its BOM. */
  function ArgumentLine(raw: string): (r: seq<string>)
    ensures |r| <= 1
  {
    var line := StripBom(raw);
    if !StartsWith(line, "#") && !IsBlank(line) then [line] else []
  }

  lemma AppendAssociative<T>(a: seq<T>, b: seq<T>, c: seq<T>)
    ensures a + (b + c) == a + b + c
  {
  }

  /** The keys the first four argument lines are stored under, in order. */
  const ArgumentKeys: seq<string> := ["startTime", "maxRegularTime", "maxOvertime", "transitionTime"]

  /** `Integer.parseInt(line.trim())`: the value of an argument line, or `None` where it throws. */
  function ArgumentValue(line: string): Option<int> {
    ParseInt(Trim(line))
  }

  /**
   * The puts of readArgumentsData from key `k` on, each line read by
   * `parse`; the first line that `parse` rejects stops the reader with a
   * NumberFormatException (`Fail` with that line), after the earlier keys
   * were stored.
   */
  function Puts(args: map<string, int>, values: seq<string>, parse: string -> Option<int>, k: nat)
    : (r: (map<string, int>, Outcome<string>))
    requires k <= 4 && |values| >= 4
    ensures forall key :: key in args ==> key in r.0
    decreases 4 - k
  {
    if k == 4 then (args, Pass)
    else match parse(values[k])
      case None => (args, Fail(values[k]))
      case Some(v) => Puts(args[ArgumentKeys[k] := v], values, parse, k + 1)
  }

  /** The puts of readArgumentsData from key `k` on, each line trimmed and parsed. */
  function PutArguments(args: map<string, int>, values: seq<string>, k: nat): (r: (map<string, int>, Outcome<string>))
    requires k <= 4 && |values| >= 4
    ensures forall key :: key in args ==> key in r.0
  {
    Puts(args, values, ArgumentValue, k)
  }

  /** The lines `values[k..4]` are all read by `parse`. */
  predicate AllRead(values: seq<string>, parse: string -> Option<int>, k: nat)
    requires |values| >= 4
  {
    forall j :: k <= j < 4 ==> parse(values[j]).Some?
  }

  /** The keys `ArgumentKeys[k..4]` are all in `m`. */
  predicate KeysStored(m: map<string, int>, k: nat) {
    forall j :: k <= j < 4 ==> ArgumentKeys[j] in m
  }

  /**
   * The puts pass exactly when every remaining line is read, and then each
   * remaining key is stored; a failure carries the first remaining line that
   * is not read.
   */
  lemma {:induction false} PutsOutcome(args: map<string, int>, values: seq<string>, parse: string -> Option<int>, k: nat)
    requires k <= 4 && |values| >= 4
    ensures var r := Puts(args, values, parse, k);
      && (r.1.Pass? <==> AllRead(values, parse, k))
      && (r.1.Pass? ==> KeysStored(r.0, k))
      && (r.1.Fail? ==> exists j :: k <= j < 4 && r.1.error == values[j] && parse(values[j]).None?
                                    && forall i :: k <= i < j ==> parse(values[i]).Some?)
    decreases 4 - k
  {
    if k < 4 {
      var r := Puts(args, values, parse, k);
      match parse(values[k])
      case None =>
        assert r == (args, Fail(values[k]));
      case Some(v) =>
        var args' := args[ArgumentKeys[k] := v];
        assert r == Puts(args', values, parse, k + 1);
        PutsOutcome(args', values, parse, k + 1);
        assert ArgumentKeys[k] in r.0;
        if r.1.Fail? {
          var j :| k + 1 <= j < 4 && r.1.error == values[j] && parse(values[j]).None?
                   && forall i :: k + 1 <= i < j ==> parse(values[i]).Some?;
          assert forall i :: k <= i < j ==> parse(values[i]).Some?;
        }
    }
  }

  /**
   * readArgumentsData's four puts pass exactly when each of the four lines,
   * trimmed, is an int, and then all four keys are stored; a failure carries
   * the first line that is not.
   */
  lemma PutArgumentsOutcome(args: map<string, int>, values: seq<string>)
    requires |values| >= 4
    ensures var r := PutArguments(args, values, 0);
      && (r.1.Pass? <==> forall j :: 0 <= j < 4 ==> ArgumentValue(values[j]).Some?)
      && (r.1.Pass? ==> forall j :: 0 <= j < 4 ==> ArgumentKeys[j] in r.0)
      && (r.1.Fail? ==> exists j :: 0 <= j < 4 && r.1.error == values[j] && ArgumentValue(values[j]).None?
                                    && forall i :: 0 <= i < j ==> ArgumentValue(values[i]).Some?)
  {
    PutsOutcome(args, values, ArgumentValue, 0);
  }

  /** Four integers written one per line are the four arguments, the others untouched. */
  lemma PutArgumentsOfInts(args: map<string, int>, xs: seq<int>, vs: seq<string>)
    requires |xs| == 4 && |vs| == 4
    requires forall i :: 0 <= i < 4 ==> MinInt <= xs[i] <= MaxInt && vs[i] == IntToString(xs[i])
    ensures PutArguments(args, vs, 0).1 == Pass
    ensures PutArguments(args, vs, 0).0
         == args["startTime" := xs[0]]["maxRegularTime" := xs[1]]["maxOvertime" := xs[2]]["transitionTime" := xs[3]]
  {
    forall i | 0 <= i < 4 ensures ParseInt(Trim(vs[i])) == Some(xs[i]) {
      ParseIntOfIntToString(xs[i]);
      TrimOfIntToString(xs[i]);
    }
    var a1 := args["startTime" := xs[0]];
    var a2 := a1["maxRegularTime" := xs[1]];
    var a3 := a2["maxOvertime" := xs[2]];
    var a4 := a3["transitionTime" := xs[3]];
    assert PutArguments(a4, vs, 4) == (a4, Pass);
    assert PutArguments(a3, vs, 3) == PutArguments(a4, vs, 4);
    assert PutArguments(a2, vs, 2) == PutArguments(a3, vs, 3);
    assert PutArguments(a1, vs, 1) == PutArguments(a2, vs, 2);
    assert PutArguments(args, vs, 0) == PutArguments(a1, vs, 1);
  }

  /** `Integer.toString` writes no character `trim` removes at either end. */
  lemma TrimOfIntToString(i: int)
    ensures Trim(IntToString(i)) == IntToString(i)
  {
    var s := IntToString(i);
    if i < 0 {
      assert s == "-" + NatToString(-i);
      assert s[|s| - 1] == NatToString(-i)[|NatToString(-i)| - 1];
    }
    assert !IsTrimmed(s[0]) && !IsTrimmed(s[|s| - 1]);
  }

  // ---------------------------------------------------------------------
  // The class

  class DataManager {
    /** `allRooms` and `specialRooms` are TreeSets: strictly sorted sequences. */
    var allRooms: seq<string>
    var specialRooms: seq<string>
    /** The raw timetable, header first, one field list per row. */
    var timetableData: seq<seq<string>>
    var surgeryNodes: seq<SurgeryNode>
    var arguments: map<string, int>

    ghost predicate Valid()
      reads this
    {
      StrictlySorted(allRooms) && StrictlySorted(specialRooms)
    }

    /** A new DataManager holds empty collections. */
    constructor ()
      ensures Valid()
      ensures allRooms == [] && specialRooms == [] && timetableData == [] && surgeryNodes == [] && arguments == map[]
    {
      allRooms := [];
      specialRooms := [];
      timetableData := [];
      surgeryNodes := [];
      arguments := map[];
    }

    /**
     * `readRoomData` on a file with text `content`: both sets grow by the
     * names of the data lines their headers announce; nothing else changes.
     */
    method ReadRoomData(content: string)
      requires Valid()
      modifies this`allRooms, this`specialRooms
      ensures Valid()
      ensures var r := RoomScan(RoomFile(false, false, old(allRooms), old(specialRooms)), ReadLines(content));
        allRooms == r.allRooms && specialRooms == r.specialRooms
    {
      var lines := ReadLines(content);
      var isAllRoomsLine := false;
      var isSpecialRoomsLine := false;
      ghost var start := RoomFile(false, false, allRooms, specialRooms);
      var i := 0;
      while i < |lines|
        invariant 0 <= i <= |lines|
        invariant Valid()
        invariant RoomScan(RoomFile(isAllRoomsLine, isSpecialRoomsLine, allRooms, specialRooms), lines[i..])
               == RoomScan(start, lines)
      {
        var line := StripBom(lines[i]);
        assert lines[i..][1..] == lines[i + 1..];
        if IsBlank(line) {
        } else if StartsWith(line, "#") {
          isAllRoomsLine := Contains(line, AllRoomsTag);
          isSpecialRoomsLine := Contains(line, SpecialRoomsTag);
        } else {
          var rooms := RoomNames(line);
          if isAllRoomsLine {
            allRooms := AddAll(allRooms, rooms);
            isAllRoomsLine := false;
          } else if isSpecialRoomsLine {
            specialRooms := AddAll(specialRooms, rooms);
            isSpecialRoomsLine := false;
          }
        }
        i := i + 1;
      }
    }

    /**
     * `readTimeTableData` on a file with text `content`: every non-blank
     * line is appended as a row, the first as the header; each later row
     * with at least nine fields and an int in field 7 appends its request.
     */
    method ReadTimeTableData(content: string)
      modifies this`timetableData, this`surgeryNodes
      ensures var rows := DataRows(ReadLines(content));
        timetableData == old(timetableData) + rows
        && surgeryNodes == old(surgeryNodes) + NodesOfRows(if |rows| == 0 then [] else rows[1..])
    {
      var lines := ReadLines(content);
      var isHeader := true;
      ghost var start := TimetableRead(true, timetableData, surgeryNodes);
      ghost var rows := LinesOf(lines);
      var i := 0;
      while i < |lines|
        invariant 0 <= i <= |lines|
        invariant TimetableScan(TimetableRead(isHeader, timetableData, surgeryNodes), rows[i..])
               == TimetableScan(start, rows)
      {
        var line := StripBom(lines[i]);
        assert rows[i..][1..] == rows[i + 1..];
        ghost var before := TimetableRead(isHeader, timetableData, surgeryNodes);
        if !IsBlank(line) {
          var data := JavaSplit(line, ',');
          if isHeader {
            timetableData := timetableData + [data];
            isHeader := false;
          } else {
            timetableData := timetableData + [data];
            var node := NodeOfRow(data);
            if node.Some? {
              surgeryNodes := surgeryNodes + [node.value];
            }
          }
        }
        assert TimetableRead(isHeader, timetableData, surgeryNodes) == TimetableStep(before, rows[i]);
        i := i + 1;
      }
      assert rows[i..] == [];
      ScanFromHeader(start, rows);
      RequestsAfterHeaderOfParsedLines(lines);
    }

    /**
     * `readArgumentsData` on a file with text `content`: with at least four
     * argument lines the first four are stored under the four keys, in order,
     * until one fails to parse; with fewer the map is untouched.
     */
    method ReadArgumentsData(content: string) returns (r: Outcome<string>)
      modifies this`arguments
      ensures |ArgumentLines(ReadLines(content))| >= 4
              ==> (arguments, r) == PutArguments(old(arguments), ArgumentLines(ReadLines(content)), 0)
      ensures |ArgumentLines(ReadLines(content))| < 4 ==> arguments == old(arguments) && r == Pass
    {
      var all := ReadLines(content);
      var lines: seq<string> := [];
      var i := 0;
      while i < |all|
        invariant 0 <= i <= |all|
        invariant lines + ArgumentLines(all[i..]) == ArgumentLines(all)
        invariant arguments == old(arguments)
      {
        var line := StripBom(all[i]);
        assert all[i..][1..] == all[i + 1..];
        ghost var before := lines;
        if !StartsWith(line, "#") && !IsBlank(line) {
          lines := lines + [line];
        }
        assert lines == before + ArgumentLine(all[i]);
        assert ArgumentLines(all[i..]) == ArgumentLine(all[i]) + ArgumentLines(all[i + 1..]);
        AppendAssociative(before, ArgumentLine(all[i]), ArgumentLines(all[i + 1..]));
        i := i + 1;
      }
      assert all[i..] == [];
      assert lines == ArgumentLines(all);
      r := Pass;
      if |lines| >= 4 {
        r := StoreArguments(lines);
      }
    }

    /** The puts of readArgumentsData: the first four lines (trimmed) under the four keys, until one is not an int. */
    method StoreArguments(lines: seq<string>) returns (r: Outcome<string>)
      requires |lines| >= 4
      modifies this`arguments
      ensures (arguments, r) == PutArguments(old(arguments), lines, 0)
    {
      var k := 0;
      while k < 4
        invariant 0 <= k <= 4
        invariant PutArguments(arguments, lines, k) == PutArguments(old(arguments), lines, 0)
      {
        var v := ParseInt(Trim(lines[k]));
        if v.None? {
          assert PutArguments(arguments, lines, k) == (arguments, Fail(lines[k]));
          return Fail(lines[k]);
        }
        arguments := arguments[ArgumentKeys[k] := v.value];
        k := k + 1;
      }
      assert PutArguments(arguments, lines, 4) == (arguments, Pass);
      r := Pass;
    }

    /** `updateTimetableData`: the rows become exactly the new list. */
    method UpdateTimetableData(newTimetable: seq<seq<string>>)
      modifies this`timetableData
      ensures timetableData == newTimetable
    {
      timetableData := [];
      timetableData := timetableData + newTimetable;
    }
  }

  // ---------------------------------------------------------------------
  // Properties of the readers

  /** A data line under a header that names neither set is ignored. */
  lemma UnannouncedLineIgnored(st: RoomFile, raw: string)
    requires SortedRoomFile(st)
    requires !st.isAllRoomsLine && !st.isSpecialRoomsLine
    requires !StartsWith(StripBom(raw), "#")
    ensures RoomStep(st, raw) == st
  {
  }

  /** Only the first data line after a header is consumed: a second one is ignored. */
  lemma OnlyNextLineConsumed(st: RoomFile, header: string, first: string, second: string)
    requires SortedRoomFile(st)
    requires StartsWith(header, "#") && header[0] != Bom
    requires Contains(header, AllRoomsTag) && !Contains(header, SpecialRoomsTag)
    requires !IsBlank(first) && first[0] != Bom && !StartsWith(first, "#")
    requires !IsBlank(second) && second[0] != Bom && !StartsWith(second, "#")
    ensures var r := RoomScan(st, [header, first, second]);
      r.allRooms == AddAll(st.allRooms, RoomNames(first)) && r.specialRooms == st.specialRooms
      && !r.isAllRoomsLine && !r.isSpecialRoomsLine
  {
    assert StripBom(header) == header && StripBom(first) == first && StripBom(second) == second;
    assert !IsBlank(header) by {
      assert !IsTrimmed(header[0]);
    }
    var s1 := RoomStep(st, header);
    assert s1 == st.(isAllRoomsLine := true, isSpecialRoomsLine := false);
    var s2 := RoomStep(s1, first);
    assert s2 == st.(allRooms := AddAll(st.allRooms, RoomNames(first)), isAllRoomsLine := false, isSpecialRoomsLine := false);
    assert RoomStep(s2, second) == s2;
    var lines := [header, first, second];
    assert lines[1..] == [first, second] && lines[1..][1..] == [second] && lines[1..][1..][1..] == [];
    assert RoomScan(st, lines) == RoomScan(s1, [first, second]);
    assert RoomScan(s1, [first, second]) == RoomScan(s2, [second]);
    assert RoomScan(s2, [second]) == RoomScan(s2, []);
  }
}
