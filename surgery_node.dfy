/** The immutable surgery request record and its two textual forms. */
module SurgeryNodes {
  import opened Wrappers
  import opened Text

  /**
   * A surgery request as read from one timetable row: application id,
   * the room it was booked in, its duration in minutes and its special-room
   * flag. All four fields are final in the source, so a datatype value; the
   * four getters are the datatype's destructors.
   */
  datatype SurgeryNode = SurgeryNode(
    applicationId: string,
    initialRoom: string,
    surgeryTime: int,
    specialRoomRequirement: string)

  /** The ASCII upper-case letter of `c`; every other character is its own upper case. */
  function UpperAscii(c: char): (u: char)
    ensures 'a' <= c <= 'z' ==> 'A' <= u <= 'Z'
  {
    if 'a' <= c <= 'z' then (c as int - 32) as char else c
  }

  /**
   * `"Y".equalsIgnoreCase(node.getSpecialRoomRequirement())`: the flag is a
   * single character whose upper case is `Y` (`y` is the only other
   * character whose upper case is `Y`).
   */
  predicate NeedsSpecialRoom(n: SurgeryNode): (b: bool)
    ensures b <==> |n.specialRoomRequirement| == 1 && UpperAscii(n.specialRoomRequirement[0]) == 'Y'
  {
    n.specialRoomRequirement == "Y" || n.specialRoomRequirement == "y"
  }

  /** `toCsvString`: the four fields joined with commas. */
  function ToCsvString(n: SurgeryNode): (r: string)
    ensures r == Join([n.applicationId, n.initialRoom, IntToString(n.surgeryTime), n.specialRoomRequirement], ',')
  {
    var p := [n.applicationId, n.initialRoom, IntToString(n.surgeryTime), n.specialRoomRequirement];
    assert Join(p[2..], ',') == p[2] + "," + p[3] by {
      assert p[2..][1..] == [p[3]];
    }
    assert Join(p[1..], ',') == p[1] + "," + Join(p[2..], ',') by {
      assert p[1..][1..] == p[2..];
    }
    n.applicationId + "," + n.initialRoom + "," + IntToString(n.surgeryTime) + "," + n.specialRoomRequirement
  }

  /** The inverse of `ToCsvString` on a well-formed line: four fields, the third an int. */
  function FromCsvString(line: string): Option<SurgeryNode> {
    var f := JavaSplit(line, ',');
    if |f| != 4 then None
    else match ParseInt(f[2])
      case None => None
      case Some(t) => Some(SurgeryNode(f[0], f[1], t, f[3]))
  }

  lemma IntToStringHasNoComma(i: int)
    ensures ',' !in IntToString(i)
  {
    var s := IntToString(i);
    if i < 0 {
      assert s == "-" + NatToString(-i);
      assert forall k :: 1 <= k < |s| ==> s[k] == NatToString(-i)[k - 1];
    }
  }

  /**
   * `toCsvString` loses nothing when the three text fields contain no comma
   * and the special-room flag is not empty (Java's split would drop an
   * empty last field): reading the line back gives the same node.
   */
  lemma CsvRoundTrip(n: SurgeryNode)
    requires ',' !in n.applicationId && ',' !in n.initialRoom && ',' !in n.specialRoomRequirement
    requires n.specialRoomRequirement != ""
    requires MinInt <= n.surgeryTime <= MaxInt
    ensures FromCsvString(ToCsvString(n)) == Some(n)
  {
    var p := [n.applicationId, n.initialRoom, IntToString(n.surgeryTime), n.specialRoomRequirement];
    IntToStringHasNoComma(n.surgeryTime);
    SplitOfJoin(p, ',');
    ParseIntOfIntToString(n.surgeryTime);
  }

  /** The fixed pieces of the `toString` template, each quote kept with the text after it. */
  const ToStringHead: string := "SurgeryNode{申請序號='"
  const RoomTag: string := "', 初始手術房='"
  const TimeTag: string := "', 手術時間="
  const FlagTag: string := ", 特殊手術房需求='"
  const ToStringTail: string := "'}"

  /** `toString`: the four fields in the fixed template, text fields quoted. */
  function ToString(n: SurgeryNode): (r: string)
    ensures |r| == |ToStringHead| + |n.applicationId| + |n.initialRoom| + |IntToString(n.surgeryTime)|
                   + |n.specialRoomRequirement| + 31
    ensures StartsWith(r, ToStringHead)
    ensures r[|ToStringHead|..|ToStringHead| + |n.applicationId|] == n.applicationId
    ensures r[|r| - 2..] == "'}"
  {
    ToStringHead + n.applicationId + RoomTag + n.initialRoom + TimeTag + IntToString(n.surgeryTime)
    + FlagTag + n.specialRoomRequirement + ToStringTail
  }

  /** The longest prefix of `s` without `c`: the text up to the first `c`. */
  function UpTo(s: string, c: char): (p: string)
    ensures p <= s && c !in p && (|p| < |s| ==> s[|p|] == c)
    decreases |s|
  {
    if |s| == 0 || s[0] == c then "" else [s[0]] + UpTo(s[1..], c)
  }

  lemma {:induction false} UpToPrefix(p: string, c: char, rest: string)
    requires c !in p && |rest| > 0 && rest[0] == c
    ensures UpTo(p + rest, c) == p
    decreases |p|
  {
    if |p| > 0 {
      assert (p + rest)[1..] == p[1..] + rest;
      UpToPrefix(p[1..], c, rest);
      assert [p[0]] + p[1..] == p;
    }
  }

  /** A field cut out of a text, and the text after it. */
  datatype Cut = Cut(field: string, rest: string)

  /** After the fixed piece `tag`, the field up to `stop`, and what follows it. */
  function CutAfter(s: string, tag: string, stop: char): (r: Option<Cut>)
    ensures r.Some? ==> s == tag + r.value.field + r.value.rest && stop !in r.value.field
  {
    if !StartsWith(s, tag) then None
    else
      var t := s[|tag|..];
      var f := UpTo(t, stop);
      assert t == f + t[|f|..];
      Some(Cut(f, t[|f|..]))
  }

  lemma CutAfterPieces(tag: string, f: string, stop: char, rest: string)
    requires stop !in f && |rest| > 0 && rest[0] == stop
    ensures CutAfter(tag + f + rest, tag, stop) == Some(Cut(f, rest))
  {
    var s := tag + f + rest;
    assert s[..|tag|] == tag;
    assert s[|tag|..] == f + rest;
    UpToPrefix(f, stop, rest);
    assert (f + rest)[|f|..] == rest;
  }

  /**
   * Reads a text of the template with fixed pieces `head`, `roomTag`,
   * `timeTag`, `flagTag` and `tail` back, one field at a time: the id and
   * the room up to the next quote, the duration up to the next comma, the
   * flag up to the closing quote, each after the fixed piece before it.
   */
  function FromTemplate(s: string, head: string, roomTag: string, timeTag: string, flagTag: string, tail: string)
    : Option<SurgeryNode>
  {
    match CutAfter(s, head, '\'')
    case None => None
    case Some(id) => AfterId(id.field, id.rest, roomTag, timeTag, flagTag, tail)
  }

  function AfterId(id: string, s: string, roomTag: string, timeTag: string, flagTag: string, tail: string)
    : Option<SurgeryNode>
  {
    match CutAfter(s, roomTag, '\'')
    case None => None
    case Some(room) => AfterRoom(id, room.field, room.rest, timeTag, flagTag, tail)
  }

  function AfterRoom(id: string, room: string, s: string, timeTag: string, flagTag: string, tail: string)
    : Option<SurgeryNode>
  {
    match CutAfter(s, timeTag, ',')
    case None => None
    case Some(time) => AfterTime(id, room, time.field, time.rest, flagTag, tail)
  }

  function AfterTime(id: string, room: string, time: string, s: string, flagTag: string, tail: string)
    : Option<SurgeryNode>
  {
    match CutAfter(s, flagTag, '\'')
    case None => None
    case Some(flag) =>
      if flag.rest != tail then None
      else match ParseInt(time)
        case None => None
        case Some(t) => Some(SurgeryNode(id, room, t, flag.field))
  }

  /** Reads a `toString` text back. */
  function FromToString(s: string): Option<SurgeryNode> {
    FromTemplate(s, ToStringHead, RoomTag, TimeTag, FlagTag, ToStringTail)
  }

  lemma Regroup(a: string, b: string, c: string, d: string, e: string, f: string, g: string, h: string, i: string)
    ensures a + b + c + d + e + f + g + h + i == a + b + (c + d + (e + f + (g + h + i)))
  {
  }

  /** Any such template whose pieces after the fields start with the field's stop character reads back its node. */
  lemma TemplateRoundTrip(n: SurgeryNode, head: string, roomTag: string, timeTag: string, flagTag: string, tail: string)
    requires '\'' !in n.applicationId && '\'' !in n.initialRoom && '\'' !in n.specialRoomRequirement
    requires MinInt <= n.surgeryTime <= MaxInt
    requires |roomTag| > 0 && roomTag[0] == '\'' && |timeTag| > 0 && timeTag[0] == '\''
    requires |flagTag| > 0 && flagTag[0] == ',' && |tail| > 0 && tail[0] == '\''
    ensures var d := IntToString(n.surgeryTime);
      FromTemplate(head + n.applicationId + roomTag + n.initialRoom + timeTag + d + flagTag
                   + n.specialRoomRequirement + tail, head, roomTag, timeTag, flagTag, tail) == Some(n)
  {
    var d := IntToString(n.surgeryTime);
    var w4 := flagTag + n.specialRoomRequirement + tail;
    var w3 := timeTag + d + w4;
    var w2 := roomTag + n.initialRoom + w3;
    Regroup(head, n.applicationId, roomTag, n.initialRoom, timeTag, d, flagTag, n.specialRoomRequirement, tail);
    ParseIntOfIntToString(n.surgeryTime);
    CutAfterPieces(flagTag, n.specialRoomRequirement, '\'', tail);
    assert AfterTime(n.applicationId, n.initialRoom, d, w4, flagTag, tail) == Some(n);
    IntToStringHasNoComma(n.surgeryTime);
    CutAfterPieces(timeTag, d, ',', w4);
    assert AfterRoom(n.applicationId, n.initialRoom, w3, timeTag, flagTag, tail) == Some(n);
    CutAfterPieces(roomTag, n.initialRoom, '\'', w3);
    assert AfterId(n.applicationId, w2, roomTag, timeTag, flagTag, tail) == Some(n);
    CutAfterPieces(head, n.applicationId, '\'', w2);
  }

  /**
   * `toString` places every field in the template: when the three text
   * fields contain no quote and the duration is a 32-bit value, the id, the
   * room, the duration and the flag are read back from their places.
   */
  lemma ToStringRoundTrip(n: SurgeryNode)
    requires '\'' !in n.applicationId && '\'' !in n.initialRoom && '\'' !in n.specialRoomRequirement
    requires MinInt <= n.surgeryTime <= MaxInt
    ensures FromToString(ToString(n)) == Some(n)
  {
    TemplateRoundTrip(n, ToStringHead, RoomTag, TimeTag, FlagTag, ToStringTail);
  }
}
