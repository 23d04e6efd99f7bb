/**
 * `ReadAndPrepareData`: the stand-alone preparation step that derives the
 * room sets from the timetable, writes them as the room file `DataManager`
 * reads, and reads the arguments file by physical line number.
 */
module Preparation {
  import opened Wrappers
  import opened Text
  import opened TreeSets
  import opened SurgeryNodes
  import opened DataManagement

  // ---------------------------------------------------------------------
  // readTimeTable

  /** What readTimeTable fills in: the requests, in file order, and the two TreeSets. */
  datatype Prepared = Prepared(nodes: seq<SurgeryNode>, allRooms: seq<string>, specialRooms: seq<string>)

  predicate SortedPrepared(st: Prepared) {
    StrictlySorted(st.allRooms) && StrictlySorted(st.specialRooms)
  }

  /** A request taken in: appended, its room added to `allRooms`, and to `specialRooms` for a "Y" request. */
  function Add(st: Prepared, n: SurgeryNode): (r: Prepared)
    requires SortedPrepared(st)
    ensures SortedPrepared(r)
  {
    Prepared(st.nodes + [n], Insert(st.allRooms, n.initialRoom),
             if NeedsSpecialRoom(n) then Insert(st.specialRooms, n.initialRoom) else st.specialRooms)
  }

  /**
   * A line readTimeTable cannot get past: at least nine fields and a field 7
   * that `Integer.parseInt` refuses. The NumberFormatException is not caught
   * (the caller only catches IOException).
   */
  predicate Aborts(line: string) {
    var data := JavaSplit(line, ',');
    |data| >= 9 && ParseInt(data[7]).None?
  }

  /** One line, as the source reads it: a failure carries the line that stopped the reader. */
  function TakeLineAsWritten(st: Prepared, line: string): (r: Result<Prepared, string>)
    requires SortedPrepared(st)
    ensures r.Success? ==> SortedPrepared(r.value)
  {
    var data := JavaSplit(line, ',');
    if |data| < 9 then Success(st)
    else match ParseInt(data[7])
      case None => Failure(line)
      case Some(t) => Success(Add(st, SurgeryNode(data[1], data[5], t, data[8])))
  }

  function ScanAsWritten(st: Prepared, lines: seq<string>): (r: Result<Prepared, string>)
    requires SortedPrepared(st)
    ensures r.Success? ==> SortedPrepared(r.value)
    decreases |lines|
  {
    if |lines| == 0 then Success(st)
    else match TakeLineAsWritten(st, lines[0])
      case Failure(e) => Failure(e)
      case Success(next) => ScanAsWritten(next, lines[1..])
  }

  /**
   * One line, as intended: a line with fewer than nine fields or with no
   * int in field 7 (the header among them) adds nothing, as in
   * `DataManager.readTimeTableData`.
   */
  function TakeLine(st: Prepared, line: string): (r: Prepared)
    requires SortedPrepared(st)
    ensures SortedPrepared(r)
  {
    match NodeOfRow(JavaSplit(line, ','))
    case None => st
    case Some(n) => Add(st, n)
  }

  function Scan(st: Prepared, lines: seq<string>): (r: Prepared)
    requires SortedPrepared(st)
    ensures SortedPrepared(r)
    decreases |lines|
  {
    if |lines| == 0 then st else Scan(TakeLine(st, lines[0]), lines[1..])
  }

  /** The requests the lines make, in order: one per line of at least nine fields with an int in field 7. */
  function LineRequests(lines: seq<string>): seq<SurgeryNode>
    decreases |lines|
  {
    if |lines| == 0 then [] else RowNodes(JavaSplit(lines[0], ',')) + LineRequests(lines[1..])
  }

  /** Some request of `ns` is booked in `room` (and, when `special` is set, asks for a special room). */
  predicate Books(ns: seq<SurgeryNode>, room: string, special: bool) {
    exists k :: 0 <= k < |ns| && ns[k].initialRoom == room && (special ==> NeedsSpecialRoom(ns[k]))
  }

  /**
   * One method run from the given collections, with the intended line
   * handling: the requests are appended in file order, and the TreeSets
   * grow by the rooms of the new requests, resp. of the new "Y" requests.
   */
  method ReadTimeTable(content: string, surgeryNodes: seq<SurgeryNode>, allRooms: seq<string>,
                       specialRooms: seq<string>) returns (r: Prepared)
    requires StrictlySorted(allRooms) && StrictlySorted(specialRooms)
    ensures r == Scan(Prepared(surgeryNodes, allRooms, specialRooms), ReadLines(content))
  {
    var lines := ReadLines(content);
    ghost var start := Prepared(surgeryNodes, allRooms, specialRooms);
    var nodes, all, special := surgeryNodes, allRooms, specialRooms;
    var i := 0;
    while i < |lines|
      invariant 0 <= i <= |lines|
      invariant StrictlySorted(all) && StrictlySorted(special)
      invariant Scan(Prepared(nodes, all, special), lines[i..]) == Scan(start, lines)
    {
      assert lines[i..][1..] == lines[i + 1..];
      var data := JavaSplit(lines[i], ',');
      if |data| >= 9 {
        var time := ParseInt(data[7]);
        if time.Some? {
          var node := SurgeryNode(data[1], data[5], time.value, data[8]);
          nodes := nodes + [node];
          all := Insert(all, data[5]);
          if NeedsSpecialRoom(node) {
            special := Insert(special, data[5]);
          }
        }
      }
      i := i + 1;
    }
    assert lines[i..] == [];
    r := Prepared(nodes, all, special);
  }

  /**
   * The scan appends exactly the requests of the lines, and a room is in
   * either set exactly when it was before or a new request (a new "Y"
   * request, for `specialRooms`) is booked in it.
   */
  lemma {:induction false} ScanContents(st: Prepared, lines: seq<string>)
    requires SortedPrepared(st)
    ensures var r := Scan(st, lines);
      && r.nodes == st.nodes + LineRequests(lines)
      && (forall y :: y in r.allRooms <==> y in st.allRooms || Books(LineRequests(lines), y, false))
      && (forall y :: y in r.specialRooms <==> y in st.specialRooms || Books(LineRequests(lines), y, true))
    decreases |lines|
  {
    if |lines| > 0 {
      var next := TakeLine(st, lines[0]);
      TakeLineContents(st, lines[0]);
      ScanContents(next, lines[1..]);
      ContentsChain(st, next, Scan(next, lines[1..]), RowNodes(JavaSplit(lines[0], ',')), LineRequests(lines[1..]));
    }
  }

  /** The contents relation of ScanContents composes: `head` taken from `p0` to `p1`, then `tail` to `p2`. */
  lemma ContentsChain(p0: Prepared, p1: Prepared, p2: Prepared, head: seq<SurgeryNode>, tail: seq<SurgeryNode>)
    requires && p1.nodes == p0.nodes + head
             && (forall y :: y in p1.allRooms <==> y in p0.allRooms || Books(head, y, false))
             && (forall y :: y in p1.specialRooms <==> y in p0.specialRooms || Books(head, y, true))
    requires && p2.nodes == p1.nodes + tail
             && (forall y :: y in p2.allRooms <==> y in p1.allRooms || Books(tail, y, false))
             && (forall y :: y in p2.specialRooms <==> y in p1.specialRooms || Books(tail, y, true))
    ensures && p2.nodes == p0.nodes + (head + tail)
            && (forall y :: y in p2.allRooms <==> y in p0.allRooms || Books(head + tail, y, false))
            && (forall y :: y in p2.specialRooms <==> y in p0.specialRooms || Books(head + tail, y, true))
  {
    BooksChain(p0.allRooms, p1.allRooms, p2.allRooms, head, tail, false);
    BooksChain(p0.specialRooms, p1.specialRooms, p2.specialRooms, head, tail, true);
  }

  /** One line appends its request, if any, and adds its room to the sets it belongs to. */
  lemma TakeLineContents(st: Prepared, line: string)
    requires SortedPrepared(st)
    ensures var r := TakeLine(st, line); var head := RowNodes(JavaSplit(line, ','));
      && r.nodes == st.nodes + head
      && (forall y :: y in r.allRooms <==> y in st.allRooms || Books(head, y, false))
      && (forall y :: y in r.specialRooms <==> y in st.specialRooms || Books(head, y, true))
  {
    var head := RowNodes(JavaSplit(line, ','));
    if NodeOfRow(JavaSplit(line, ',')).Some? {
      assert head[0] == NodeOfRow(JavaSplit(line, ',')).value;
    }
  }

  /** Rooms added for `head` and then for `tail` are the rooms added for `head + tail`. */
  lemma BooksChain(s0: seq<string>, s1: seq<string>, s2: seq<string>,
                   head: seq<SurgeryNode>, tail: seq<SurgeryNode>, special: bool)
    requires forall y :: y in s1 <==> y in s0 || Books(head, y, special)
    requires forall y :: y in s2 <==> y in s1 || Books(tail, y, special)
    ensures forall y :: y in s2 <==> y in s0 || Books(head + tail, y, special)
  {
    forall y ensures y in s2 <==> y in s0 || Books(head + tail, y, special) {
      BooksAppend(head, tail, y, special);
    }
  }

  lemma BooksAppend(head: seq<SurgeryNode>, tail: seq<SurgeryNode>, y: string, special: bool)
    ensures Books(head + tail, y, special) <==> Books(head, y, special) || Books(tail, y, special)
  {
    var all := head + tail;
    if Books(tail, y, special) {
      var k :| 0 <= k < |tail| && tail[k].initialRoom == y && (special ==> NeedsSpecialRoom(tail[k]));
      assert all[|head| + k] == tail[k];
    }
    if Books(head, y, special) {
      var k :| 0 <= k < |head| && head[k].initialRoom == y && (special ==> NeedsSpecialRoom(head[k]));
      assert all[k] == head[k];
    }
    if Books(all, y, special) {
      var k :| 0 <= k < |all| && all[k].initialRoom == y && (special ==> NeedsSpecialRoom(all[k]));
      if k >= |head| {
        assert tail[k - |head|] == all[k];
      } else {
        assert head[k] == all[k];
      }
    }
  }

  /** Every special room is one of all the rooms, once it holds for the sets the reader started from. */
  lemma SpecialRoomsAmongAll(st: Prepared, lines: seq<string>)
    requires SortedPrepared(st)
    requires forall y :: y in st.specialRooms ==> y in st.allRooms
    ensures var r := Scan(st, lines); forall y :: y in r.specialRooms ==> y in r.allRooms
  {
    ScanContents(st, lines);
  }

  /** A line of fewer than nine fields changes nothing, whatever else it holds. */
  lemma ShortLineIgnored(st: Prepared, line: string)
    requires SortedPrepared(st)
    requires |JavaSplit(line, ',')| < 9
    ensures TakeLine(st, line) == st && TakeLineAsWritten(st, line) == Success(st)
  {
  }

  /**
   * The reader as written stops exactly when some line aborts it; when none
   * does it computes the intended scan.
   */
  lemma {:induction false} AsWrittenAgrees(st: Prepared, lines: seq<string>)
    requires SortedPrepared(st)
    ensures ScanAsWritten(st, lines).Failure? <==> exists k :: 0 <= k < |lines| && Aborts(lines[k])
    ensures ScanAsWritten(st, lines).Success? ==> ScanAsWritten(st, lines).value == Scan(st, lines)
    decreases |lines|
  {
    if |lines| > 0 {
      if Aborts(lines[0]) {
        assert TakeLineAsWritten(st, lines[0]).Failure?;
      } else {
        assert TakeLineAsWritten(st, lines[0]) == Success(TakeLine(st, lines[0]));
        AsWrittenAgrees(TakeLine(st, lines[0]), lines[1..]);
        if exists k :: 0 <= k < |lines| && Aborts(lines[k]) {
          var k :| 0 <= k < |lines| && Aborts(lines[k]);
          assert lines[1..][k - 1] == lines[k];
        }
        forall k | 0 <= k < |lines| - 1 && Aborts(lines[1..][k])
          ensures exists j :: 0 <= j < |lines| && Aborts(lines[j])
        {
          assert lines[k + 1] == lines[1..][k];
        }
      }
    }
  }

  /** A header row of nine or more comma-free column names, written out as one line. */
  predicate HeaderRow(names: seq<string>) {
    && |names| >= 9
    && (forall i :: 0 <= i < |names| ==> ',' !in names[i])
    && names[|names| - 1] != ""
    && ParseInt(names[7]).None?
  }

  /** The reader as written dies on a header row: its field 7 is a column name, not an int. */
  lemma HeaderRowAborts(st: Prepared, names: seq<string>, rest: seq<string>)
    requires SortedPrepared(st)
    requires HeaderRow(names)
    ensures ScanAsWritten(st, [Join(names, ',')] + rest) == Failure(Join(names, ','))
    ensures Scan(st, [Join(names, ',')] + rest) == Scan(st, rest)
  {
    SplitOfJoin(names, ',');
    assert ([Join(names, ',')] + rest)[1..] == rest;
  }

  /** The column names of the timetable export. */
  const TimetableColumns: seq<string> :=
    ["date", "applicationId", "patientId", "department", "surgeon", "room", "anesthesia", "duration", "special", "priority"]

  /** A timetable file as exported, header first, whatever rows follow: the source reads no request from it. */
  lemma TimetableHeaderAborts(rows: seq<string>)
    ensures ScanAsWritten(Prepared([], [], []), [Join(TimetableColumns, ',')] + rows)
         == Failure(Join(TimetableColumns, ','))
  {
    var c := TimetableColumns;
    assert forall i :: 0 <= i < |c| ==> ',' !in c[i];
    assert !IsDecimal(c[7][0]);
    assert ParseInt(c[7]).None?;
    HeaderRowAborts(Prepared([], [], []), c, rows);
  }

  // ---------------------------------------------------------------------
  // createRoomCsv

  const AllRoomsHeader: string := "# " + AllRoomsTag
  const SpecialRoomsHeader: string := "# " + SpecialRoomsTag

  /** A data line of the room file: the names joined with commas, in double quotes. */
  function Quoted(names: seq<string>): string {
    "\"" + Join(names, ',') + "\""
  }

  /** A room name the room file can carry: no comma, no double quote, no line break. */
  predicate PlainName(name: string) {
    ',' !in name && '"' !in name && NoLineBreak(name)
  }

  predicate PlainNames(names: seq<string>) {
    forall i :: 0 <= i < |names| ==> PlainName(names[i])
  }

  /**
   * The text createRoomCsv writes: it reads back as exactly four lines,
   * the all-rooms header, the quoted join of `allRooms`, the special-rooms
   * header and the quoted join of `specialRooms`.
   */
  function RoomCsv(allRooms: seq<string>, specialRooms: seq<string>): (content: string)
    ensures PlainNames(allRooms) && PlainNames(specialRooms) ==>
      ReadLines(content) == [AllRoomsHeader, Quoted(allRooms), SpecialRoomsHeader, Quoted(specialRooms)]
  {
    var content := AllRoomsHeader + "\n" + (Quoted(allRooms) + "\n" + (SpecialRoomsHeader + "\n" + (Quoted(specialRooms) + "\n")));
    if PlainNames(allRooms) && PlainNames(specialRooms) then
      WrittenLines(allRooms, specialRooms, content);
      content
    else content
  }

  lemma WrittenLines(allRooms: seq<string>, specialRooms: seq<string>, content: string)
    requires PlainNames(allRooms) && PlainNames(specialRooms)
    requires content == AllRoomsHeader + "\n" + (Quoted(allRooms) + "\n" + (SpecialRoomsHeader + "\n" + (Quoted(specialRooms) + "\n")))
    ensures ReadLines(content) == [AllRoomsHeader, Quoted(allRooms), SpecialRoomsHeader, Quoted(specialRooms)]
  {
    JoinOfPlainNames(allRooms);
    JoinOfPlainNames(specialRooms);
    HeaderHasNoLineBreak(AllRoomsTag);
    HeaderHasNoLineBreak(SpecialRoomsTag);
    ReadFourLines(AllRoomsHeader, Quoted(allRooms), SpecialRoomsHeader, Quoted(specialRooms));
  }

  /** A header line: "# " and a tag of letters and digits, so no line break. */
  lemma HeaderHasNoLineBreak(tag: string)
    requires tag == AllRoomsTag || tag == SpecialRoomsTag
    ensures NoLineBreak("# " + tag)
  {
    assert forall i :: 0 <= i < |tag| ==> tag[i] >= '0';
    var h := "# " + tag;
    forall i | 0 <= i < |h| ensures !IsLineBreak(h[i]) {
      if i >= 2 {
        assert h[i] == tag[i - 2];
      }
    }
  }

  /** Four lines written each with a "\n" terminator are read back as those four lines. */
  lemma ReadFourLines(a: string, b: string, c: string, d: string)
    requires NoLineBreak(a) && NoLineBreak(b) && NoLineBreak(c) && NoLineBreak(d)
    ensures ReadLines(a + "\n" + (b + "\n" + (c + "\n" + (d + "\n")))) == [a, b, c, d]
  {
    ReadThreeLines(b, c, d);
    ReadLinesCons(a, b + "\n" + (c + "\n" + (d + "\n")));
  }

  /** Three lines written each with a "\n" terminator are read back as those three lines. */
  lemma ReadThreeLines(b: string, c: string, d: string)
    requires NoLineBreak(b) && NoLineBreak(c) && NoLineBreak(d)
    ensures ReadLines(b + "\n" + (c + "\n" + (d + "\n"))) == [b, c, d]
  {
    ReadTwoLines(c, d);
    ReadLinesCons(b, c + "\n" + (d + "\n"));
  }

  /** Two lines written each with a "\n" terminator are read back as those two lines. */
  lemma ReadTwoLines(c: string, d: string)
    requires NoLineBreak(c) && NoLineBreak(d)
    ensures ReadLines(c + "\n" + (d + "\n")) == [c, d]
  {
    ReadLinesCons(d, "");
    assert d + "\n" + "" == d + "\n";
    ReadLinesCons(c, d + "\n");
  }

  /** The quoted join of plain names has no line break, and no quote between its quotes. */
  lemma JoinOfPlainNames(names: seq<string>)
    requires PlainNames(names)
    ensures NoLineBreak(Quoted(names))
    ensures RemoveChar(Quoted(names), '"') == Join(names, ',')
  {
    JoinAvoids(names, ',');
    var j := Join(names, ',');
    RemoveCharAppend("\"", j + "\"", '"');
    RemoveCharAppend(j, "\"", '"');
    assert Quoted(names) == "\"" + (j + "\"");
  }

  /** A joined list holds no line break and no double quote its parts and the separator do not. */
  lemma {:induction false} JoinAvoids(parts: seq<string>, sep: char)
    requires PlainNames(parts)
    requires sep == ','
    ensures NoLineBreak(Join(parts, sep)) && '"' !in Join(parts, sep)
    decreases |parts|
  {
    if |parts| >= 2 {
      JoinAvoids(parts[1..], sep);
      var rest := Join(parts[1..], sep);
      var j := parts[0] + [sep] + rest;
      assert PlainName(parts[0]);
      forall i | 0 <= i < |j| ensures !IsLineBreak(j[i]) && j[i] != '"' {
        if i < |parts[0]| {
          assert j[i] == parts[0][i];
        } else if i > |parts[0]| {
          assert j[i] == rest[i - |parts[0]| - 1];
        }
      }
    } else if |parts| == 1 {
      assert PlainName(parts[0]);
    }
  }

  lemma {:induction false} RemoveCharAppend(a: string, b: string, c: char)
    ensures RemoveChar(a + b, c) == RemoveChar(a, c) + RemoveChar(b, c)
    decreases |a|
  {
    if |a| > 0 {
      assert (a + b)[1..] == a[1..] + b;
      RemoveCharAppend(a[1..], b, c);
    } else {
      assert a + b == b;
    }
  }

  /** Nothing sorts before the empty string, so a strictly sorted list has it first if at all. */
  lemma SortedLastNotEmpty(names: seq<string>)
    requires StrictlySorted(names) && |names| >= 2
    ensures names[|names| - 1] != ""
  {
    assert StrLess(names[0], names[|names| - 1]);
  }

  /** The room file's header lines: each is a comment naming one of the two sets and not the other. */
  lemma HeaderTokens()
    ensures StartsWith(AllRoomsHeader, "#") && StartsWith(SpecialRoomsHeader, "#")
    ensures Contains(AllRoomsHeader, AllRoomsTag) && !Contains(AllRoomsHeader, SpecialRoomsTag)
    ensures Contains(SpecialRoomsHeader, SpecialRoomsTag) && !Contains(SpecialRoomsHeader, AllRoomsTag)
  {
    var h1, h2 := AllRoomsHeader, SpecialRoomsHeader;
    ContainsAt(h1, AllRoomsTag, 2);
    ContainsAt(h2, SpecialRoomsTag, 2);
    forall i | 0 <= i <= |h1| ensures !StartsWith(h1[i..], SpecialRoomsTag) {
      if i <= 2 {
        assert h1[i..][[0, 0, 9][i]] != SpecialRoomsTag[[0, 0, 9][i]];
      }
    }
    NotContains(h1, SpecialRoomsTag);
    forall i | 0 <= i <= |h2| ensures !StartsWith(h2[i..], AllRoomsTag) {
      if i <= 2 {
        assert h2[i..][[0, 0, 9][i]] != AllRoomsTag[[0, 0, 9][i]];
      }
    }
    NotContains(h2, AllRoomsTag);
  }

  /** A quoted data line is read by readRoomData as the names it joins, added to the announced set. */
  lemma DataLineRead(st: RoomFile, names: seq<string>)
    requires SortedRoomFile(st) && (st.isAllRoomsLine || st.isSpecialRoomsLine)
    requires StrictlySorted(names) && |names| >= 1 && PlainNames(names)
    ensures RoomStep(st, Quoted(names)) ==
      if st.isAllRoomsLine then st.(allRooms := AddAll(st.allRooms, names), isAllRoomsLine := false)
      else st.(specialRooms := AddAll(st.specialRooms, names), isSpecialRoomsLine := false)
  {
    var q := Quoted(names);
    JoinOfPlainNames(names);
    if |names| >= 2 {
      SortedLastNotEmpty(names);
    }
    SplitOfJoin(names, ',');
    assert RoomNames(q) == names;
    QuotedIsDataLine(names);
  }

  /** A quoted line has no BOM, is not blank and is not a comment: it starts with a double quote. */
  lemma QuotedIsDataLine(names: seq<string>)
    ensures StripBom(Quoted(names)) == Quoted(names)
    ensures !IsBlank(Quoted(names)) && !StartsWith(Quoted(names), "#")
  {
    var q := Quoted(names);
    assert q[0] == '"' && !IsTrimmed(q[0]);
    assert q[..1] != "#";
  }

  /** The all-rooms header raises the all-rooms flag and lowers the other. */
  lemma AllRoomsHeaderRead(st: RoomFile)
    requires SortedRoomFile(st)
    ensures RoomStep(st, AllRoomsHeader) == st.(isAllRoomsLine := true, isSpecialRoomsLine := false)
  {
    HeaderTokens();
    var h := AllRoomsHeader;
    assert StripBom(h) == h && !IsBlank(h) by { assert h[0] == '#'; }
  }

  /** The special-rooms header raises the special-rooms flag and lowers the other. */
  lemma SpecialRoomsHeaderRead(st: RoomFile)
    requires SortedRoomFile(st)
    ensures RoomStep(st, SpecialRoomsHeader) == st.(isAllRoomsLine := false, isSpecialRoomsLine := true)
  {
    HeaderTokens();
    var h := SpecialRoomsHeader;
    assert StripBom(h) == h && !IsBlank(h) by { assert h[0] == '#'; }
  }

  /** A file of four lines is read line by line. */
  lemma RoomScanFour(st: RoomFile, a: string, b: string, c: string, d: string)
    requires SortedRoomFile(st)
    ensures RoomScan(st, [a, b, c, d]) == RoomStep(RoomStep(RoomStep(RoomStep(st, a), b), c), d)
  {
    var l0, l1, l2, l3 := [a, b, c, d], [b, c, d], [c, d], [d];
    assert l0[1..] == l1 && l1[1..] == l2 && l2[1..] == l3 && l3[1..] == [];
    var s1 := RoomStep(st, a);
    var s2 := RoomStep(s1, b);
    var s3 := RoomStep(s2, c);
    var s4 := RoomStep(s3, d);
    assert RoomScan(s4, []) == s4;
    assert RoomScan(s3, l3) == s4;
    assert RoomScan(s2, l2) == s4;
    assert RoomScan(s1, l1) == s4;
    assert RoomScan(st, l0) == s4;
  }

  /**
   * Round trip with `DataManager.readRoomData`: a fresh DataManager reading
   * what createRoomCsv writes gets back both sets, for non-empty sets of
   * plain names.
   */
  lemma RoomCsvRoundTrip(allRooms: seq<string>, specialRooms: seq<string>)
    requires StrictlySorted(allRooms) && StrictlySorted(specialRooms)
    requires |allRooms| >= 1 && |specialRooms| >= 1
    requires PlainNames(allRooms) && PlainNames(specialRooms)
    ensures RoomScan(RoomFile(false, false, [], []), ReadLines(RoomCsv(allRooms, specialRooms)))
         == RoomFile(false, false, allRooms, specialRooms)
  {
    var s0 := RoomFile(false, false, [], []);
    RoomScanFour(s0, AllRoomsHeader, Quoted(allRooms), SpecialRoomsHeader, Quoted(specialRooms));
    AllRoomsHeaderRead(s0);
    var s1 := RoomFile(true, false, [], []);
    DataLineRead(s1, allRooms);
    AddAllSorted(allRooms);
    var s2 := RoomFile(false, false, allRooms, []);
    SpecialRoomsHeaderRead(s2);
    var s3 := RoomFile(false, true, allRooms, []);
    DataLineRead(s3, specialRooms);
    AddAllSorted(specialRooms);
  }

  /**
   * With no "Y" request the special-rooms line is `""`, which readRoomData
   * reads as one room with the empty name.
   */
  lemma EmptySpecialRoomsReadBack(allRooms: seq<string>)
    requires StrictlySorted(allRooms) && |allRooms| >= 1 && PlainNames(allRooms)
    ensures RoomScan(RoomFile(false, false, [], []), ReadLines(RoomCsv(allRooms, [])))
         == RoomFile(false, false, allRooms, [""])
  {
    var s0 := RoomFile(false, false, [], []);
    RoomScanFour(s0, AllRoomsHeader, Quoted(allRooms), SpecialRoomsHeader, Quoted([]));
    AllRoomsHeaderRead(s0);
    var s1 := RoomFile(true, false, [], []);
    DataLineRead(s1, allRooms);
    AddAllSorted(allRooms);
    var s2 := RoomFile(false, false, allRooms, []);
    SpecialRoomsHeaderRead(s2);
    var s3 := RoomFile(false, true, allRooms, []);
    EmptyQuotedRead(s3);
  }

  /** The line `""` gives the one name "", added to the announced set. */
  lemma EmptyQuotedRead(st: RoomFile)
    requires SortedRoomFile(st) && !st.isAllRoomsLine && st.isSpecialRoomsLine && st.specialRooms == []
    ensures RoomStep(st, Quoted([])) == st.(specialRooms := [""], isSpecialRoomsLine := false)
  {
    var q := Quoted([]);
    assert q == "\"\"";
    assert RemoveChar(q, '"') == "";
    assert RoomNames(q) == [""];
    QuotedIsDataLine([]);
    assert AddAll([], [""]) == [""];
  }

  // ---------------------------------------------------------------------
  // readArguments

  /** The keys of the LinkedHashMap, for physical lines 2, 4, 6 and 8. */
  const ArgumentNames: seq<string> := ["每日開始排程時間", "每日允許可用的最大常規期間", "每日允許可用的最大超時期間", "兩檯手術之間的銜接期間"]

  /** The key physical line `lineCount` (counted from 1) is stored under, if any, for the keys `names`. */
  function KeyOfLine(lineCount: nat, names: seq<string>): Option<string>
    requires |names| == 4
  {
    if lineCount == 2 then Some(names[0])
    else if lineCount == 4 then Some(names[1])
    else if lineCount == 6 then Some(names[2])
    else if lineCount == 8 then Some(names[3])
    else None
  }

  /**
   * The map after the first `n` physical lines: a "#" line is skipped, but
   * counted; line 2, 4, 6 or 8 is trimmed and parsed into its key; a parse
   * failure stops the reader with the NumberFormatException (the line).
   */
  function ArgumentsAfter(lines: seq<string>, n: nat, names: seq<string>): Result<map<string, int>, string>
    requires n <= |lines| && |names| == 4
    decreases n
  {
    if n == 0 then Success(map[])
    else match ArgumentsAfter(lines, n - 1, names)
      case Failure(e) => Failure(e)
      case Success(m) => ArgumentLineRead(m, lines[n - 1], n, names)
  }

  /** Physical line number `lineCount` with text `line`, read into the map `m`. */
  function ArgumentLineRead(m: map<string, int>, line: string, lineCount: nat, names: seq<string>): Result<map<string, int>, string>
    requires |names| == 4
  {
    if StartsWith(line, "#") then Success(m)
    else match KeyOfLine(lineCount, names)
      case None => Success(m)
      case Some(k) =>
        match ParseInt(Trim(line))
        case None => Failure(line)
        case Some(v) => Success(m[k := v])
  }

  /** The line of the `j`-th argument, physical line 2j + 2, is among the first `n` and is not a comment. */
  predicate Announced(lines: seq<string>, n: nat, j: nat)
    requires n <= |lines| && j < 4
  {
    2 * j + 2 <= n && !StartsWith(lines[2 * j + 1], "#")
  }

  /** The value of the `j`-th argument line, if it is an int. */
  function ArgumentValue(lines: seq<string>, j: nat): Option<int>
    requires 2 * j + 2 <= |lines|
  {
    ParseInt(Trim(lines[2 * j + 1]))
  }

  predicate Distinct(names: seq<string>) {
    forall i, j :: 0 <= i < j < |names| ==> names[i] != names[j]
  }

  lemma ArgumentNamesDistinct()
    ensures |ArgumentNames| == 4 && Distinct(ArgumentNames)
  {
    assert ArgumentNames[1][9] != ArgumentNames[2][9];
  }

  /** The `j`-th argument line, if it is among the first `n` lines and not a comment, is an int. */
  predicate Parses(lines: seq<string>, n: nat, j: nat)
    requires n <= |lines| && j < 4
  {
    Announced(lines, n, j) ==> ArgumentValue(lines, j).Some?
  }

  predicate AllAnnouncedParse(lines: seq<string>, n: nat)
    requires n <= |lines|
  {
    Parses(lines, n, 0) && Parses(lines, n, 1) && Parses(lines, n, 2) && Parses(lines, n, 3)
  }

  /** Key `names[j]` is in `m` just when the `j`-th argument line is among the first `n` lines, with that line's value. */
  predicate Slot(m: map<string, int>, lines: seq<string>, n: nat, names: seq<string>, j: nat)
    requires n <= |lines| && |names| == 4 && j < 4
  {
    && (names[j] in m <==> Announced(lines, n, j))
    && (Announced(lines, n, j) ==> ArgumentValue(lines, j) == Some(m[names[j]]))
  }

  /** `m` holds just the keys of the argument lines among the first `n`, each with its line's value. */
  predicate HoldsAnnounced(m: map<string, int>, lines: seq<string>, n: nat, names: seq<string>)
    requires n <= |lines| && |names| == 4
  {
    && m.Keys <= {names[0], names[1], names[2], names[3]}
    && Slot(m, lines, n, names, 0) && Slot(m, lines, n, names, 1)
    && Slot(m, lines, n, names, 2) && Slot(m, lines, n, names, 3)
  }

  /**
   * Only the physical lines 2, 4, 6 and 8 that are not comments are read,
   * each into its own key: the reader fails exactly when one of them is not
   * an int, and otherwise holds just those keys with those values.
   */
  lemma {:induction false} ArgumentsSelected(lines: seq<string>, n: nat, names: seq<string>)
    requires n <= |lines| && |names| == 4 && Distinct(names)
    ensures ArgumentsAfter(lines, n, names).Success? <==> AllAnnouncedParse(lines, n)
    ensures ArgumentsAfter(lines, n, names).Success? ==> HoldsAnnounced(ArgumentsAfter(lines, n, names).value, lines, n, names)
    decreases n
  {
    if n > 0 {
      ArgumentsSelected(lines, n - 1, names);
      var before := ArgumentsAfter(lines, n - 1, names);
      if before.Failure? {
        FailedStep(lines, n, names);
      } else {
        ReadStep(lines, n, names);
      }
    }
  }

  /** After a failure, the reader stays failed, and the argument line that failed it is still among those read. */
  lemma FailedStep(lines: seq<string>, n: nat, names: seq<string>)
    requires 1 <= n <= |lines| && |names| == 4
    requires ArgumentsAfter(lines, n - 1, names).Failure? && !AllAnnouncedParse(lines, n - 1)
    ensures ArgumentsAfter(lines, n, names).Failure? && !AllAnnouncedParse(lines, n)
  {
    ParsesGrows(lines, n, 0);
    ParsesGrows(lines, n, 1);
    ParsesGrows(lines, n, 2);
    ParsesGrows(lines, n, 3);
  }

  /** From a map that holds the argument lines so far, one more physical line. */
  lemma ReadStep(lines: seq<string>, n: nat, names: seq<string>)
    requires 1 <= n <= |lines| && |names| == 4 && Distinct(names)
    requires ArgumentsAfter(lines, n - 1, names).Success? && AllAnnouncedParse(lines, n - 1)
    requires HoldsAnnounced(ArgumentsAfter(lines, n - 1, names).value, lines, n - 1, names)
    ensures ArgumentsAfter(lines, n, names).Success? <==> AllAnnouncedParse(lines, n)
    ensures ArgumentsAfter(lines, n, names).Success? ==> HoldsAnnounced(ArgumentsAfter(lines, n, names).value, lines, n, names)
  {
    var m := ArgumentsAfter(lines, n - 1, names).value;
    assert ArgumentsAfter(lines, n, names) == ArgumentLineRead(m, lines[n - 1], n, names);
    ArgumentLineStep(m, lines, n, names);
  }

  /** An argument line that is not an int stays one as more lines are read. */
  lemma ParsesGrows(lines: seq<string>, n: nat, j: nat)
    requires 1 <= n <= |lines| && j < 4
    ensures Parses(lines, n, j) ==> Parses(lines, n - 1, j)
  {
  }

  /** One more physical line keeps `HoldsAnnounced`, or fails on an argument line that is not an int. */
  lemma ArgumentLineStep(m: map<string, int>, lines: seq<string>, n: nat, names: seq<string>)
    requires 1 <= n <= |lines| && |names| == 4 && Distinct(names)
    requires HoldsAnnounced(m, lines, n - 1, names) && AllAnnouncedParse(lines, n - 1)
    ensures match ArgumentLineRead(m, lines[n - 1], n, names)
      case Failure(_) => !AllAnnouncedParse(lines, n)
      case Success(next) => HoldsAnnounced(next, lines, n, names) && AllAnnouncedParse(lines, n)
  {
    var line := lines[n - 1];
    if StartsWith(line, "#") || KeyOfLine(n, names).None? {
      QuietLine(m, lines, n, names);
    } else {
      KeyLine(m, lines, n, names, n / 2 - 1);
    }
  }

  /** A comment, or a line whose number has no key, is passed over. */
  lemma QuietLine(m: map<string, int>, lines: seq<string>, n: nat, names: seq<string>)
    requires 1 <= n <= |lines| && |names| == 4
    requires StartsWith(lines[n - 1], "#") || KeyOfLine(n, names).None?
    requires HoldsAnnounced(m, lines, n - 1, names) && AllAnnouncedParse(lines, n - 1)
    ensures ArgumentLineRead(m, lines[n - 1], n, names) == Success(m)
    ensures HoldsAnnounced(m, lines, n, names) && AllAnnouncedParse(lines, n)
  {
    forall j: nat | j < 4 ensures Slot(m, lines, n, names, j) && Parses(lines, n, j) {
      if 2 * j + 2 == n {
        assert KeyOfLine(n, names).Some?;
      }
      assert Announced(lines, n, j) == Announced(lines, n - 1, j);
      assert Slot(m, lines, n - 1, names, j) && Parses(lines, n - 1, j);
    }
  }

  /** The argument line of key `j0` is parsed into that key, or stops the reader. */
  lemma KeyLine(m: map<string, int>, lines: seq<string>, n: nat, names: seq<string>, j0: int)
    requires 1 <= n <= |lines| && |names| == 4 && Distinct(names)
    requires !StartsWith(lines[n - 1], "#") && KeyOfLine(n, names).Some? && j0 == n / 2 - 1
    requires HoldsAnnounced(m, lines, n - 1, names) && AllAnnouncedParse(lines, n - 1)
    ensures match ArgumentLineRead(m, lines[n - 1], n, names)
      case Failure(_) => !AllAnnouncedParse(lines, n)
      case Success(next) => HoldsAnnounced(next, lines, n, names) && AllAnnouncedParse(lines, n)
  {
    assert 0 <= j0 < 4 && n == 2 * j0 + 2;
    assert KeyOfLine(n, names) == Some(names[j0]);
    assert Announced(lines, n, j0);
    var value := ArgumentValue(lines, j0);
    assert value == ParseInt(Trim(lines[n - 1]));
    if value.None? {
      assert !Parses(lines, n, j0);
    } else {
      var next := m[names[j0] := value.value];
      assert ArgumentLineRead(m, lines[n - 1], n, names) == Success(next);
      forall j: nat | j < 4 ensures Slot(next, lines, n, names, j) && Parses(lines, n, j) {
        if j != j0 {
          assert names[j] != names[j0] by {
            if j < j0 {} else {}
          }
          assert Announced(lines, n, j) == Announced(lines, n - 1, j);
          assert Slot(m, lines, n - 1, names, j) && Parses(lines, n - 1, j);
        }
      }
    }
  }

  /** The reader with the source's four keys: it selects the argument lines as `ArgumentsSelected` states. */
  lemma ArgumentsFileSelected(lines: seq<string>)
    ensures |ArgumentNames| == 4
    ensures ArgumentsAfter(lines, |lines|, ArgumentNames).Success? <==> AllAnnouncedParse(lines, |lines|)
    ensures ArgumentsAfter(lines, |lines|, ArgumentNames).Success? ==>
      HoldsAnnounced(ArgumentsAfter(lines, |lines|, ArgumentNames).value, lines, |lines|, ArgumentNames)
  {
    ArgumentNamesDistinct();
    ArgumentsSelected(lines, |lines|, ArgumentNames);
  }

  /** Once a line has stopped the reader, later lines change nothing. */
  lemma {:induction false} FailureStays(lines: seq<string>, n: nat, m: nat, names: seq<string>)
    requires n <= m <= |lines|
    requires |names| == 4
    requires ArgumentsAfter(lines, n, names).Failure?
    ensures ArgumentsAfter(lines, m, names) == ArgumentsAfter(lines, n, names)
    decreases m
  {
    if n < m {
      FailureStays(lines, n, m - 1, names);
      var before := ArgumentsAfter(lines, m - 1, names);
      assert before.Failure?;
      assert ArgumentsAfter(lines, m, names) == Failure(before.error);
    }
  }

  /**
   * readArguments on a file with text `content`: the line loop with its
   * `lineCount` computes the map the selected lines give, or stops with the
   * NumberFormatException of the first selected line that is not an int.
   */
  method ReadArguments(content: string) returns (r: Result<map<string, int>, string>)
    ensures r == ArgumentsAfter(ReadLines(content), |ReadLines(content)|, ArgumentNames)
  {
    var lines := ReadLines(content);
    var arguments: map<string, int> := map[];
    var lineCount := 0;
    while lineCount < |lines|
      invariant 0 <= lineCount <= |lines|
      invariant ArgumentsAfter(lines, lineCount, ArgumentNames) == Success(arguments)
    {
      var line := lines[lineCount];
      lineCount := lineCount + 1;
      assert ArgumentsAfter(lines, lineCount, ArgumentNames) == ArgumentLineRead(arguments, line, lineCount, ArgumentNames);
      if !StartsWith(line, "#") {
        var key := KeyOfLine(lineCount, ArgumentNames);
        if key.Some? {
          var v := ParseInt(Trim(line));
          if v.None? {
            FailureStays(lines, lineCount, |lines|, ArgumentNames);
            return Failure(line);
          }
          arguments := arguments[key.value := v.value];
        }
      }
    }
    r := Success(arguments);
  }
}
