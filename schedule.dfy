/**
 * `Schedule`: a map from room name to the ordered list of requests in that
 * room, with a cached cost. `Census` is the multiset of every request placed
 * anywhere in a room map; conservation of requests is stated with it.
 */
module Schedules {
  import opened SurgeryNodes

  /** The `roomSchedules` map; each room's LinkedList is its sequence of requests. */
  type Rooms = map<string, seq<SurgeryNode>>

  /** Every request in every room of `rooms`, with multiplicity. */
  ghost function Census(rooms: Rooms): multiset<SurgeryNode>
    decreases |rooms|
  {
    if |rooms| == 0 then multiset{}
    else
      var r := PickRoom(rooms);
      multiset(rooms[r]) + Census(rooms - {r})
  }

  ghost function PickRoom(rooms: Rooms): (r: string)
    requires |rooms| > 0
    ensures r in rooms
  {
    var r :| r in rooms.Keys; r
  }

  /** The census counts the requests of any one room plus those of all the others. */
  lemma {:induction false} CensusSplit(rooms: Rooms, k: string)
    requires k in rooms
    ensures Census(rooms) == multiset(rooms[k]) + Census(rooms - {k})
    decreases |rooms|
  {
    var r := PickRoom(rooms);
    if r != k {
      var rest, restK := rooms - {r}, rooms - {k};
      assert |rest| < |rooms| by { assert rest.Keys == rooms.Keys - {r}; }
      assert |restK| < |rooms| by { assert restK.Keys == rooms.Keys - {k}; }
      CensusSplit(rest, k);
      CensusSplit(restK, r);
      var others := rest - {k};
      assert others == restK - {r};
      var mr, mk := multiset(rooms[r]), multiset(rooms[k]);
      assert Census(rooms) == mr + Census(rest);
      assert Census(rest) == mk + Census(others);
      assert Census(restK) == mr + Census(others);
      assert mr + (mk + Census(others)) == mk + (mr + Census(others));
    }
  }

  /** Replacing one room's list changes the census by exactly that list's difference. */
  lemma CensusUpdate(rooms: Rooms, k: string, v: seq<SurgeryNode>)
    requires k in rooms
    ensures Census(rooms[k := v]) + multiset(rooms[k]) == Census(rooms) + multiset(v)
  {
    var after := rooms[k := v];
    CensusSplit(after, k);
    CensusSplit(rooms, k);
    assert after - {k} == rooms - {k};
  }

  /** A map whose every room is empty holds no request. */
  lemma {:induction false} CensusOfEmptyRooms(rooms: Rooms)
    requires forall r :: r in rooms ==> rooms[r] == []
    ensures Census(rooms) == multiset{}
    decreases |rooms|
  {
    if |rooms| > 0 {
      var r := PickRoom(rooms);
      CensusOfEmptyRooms(rooms - {r});
    }
  }

  /** Every request of a room's list is in the census. */
  lemma CensusHas(rooms: Rooms, k: string, i: nat)
    requires k in rooms && i < |rooms[k]|
    ensures rooms[k][i] in Census(rooms)
  {
    CensusSplit(rooms, k);
  }

  class Schedule {
    var roomSchedules: Rooms
    var cost: real

    /** `new Schedule(roomSchedules)`: stores the map, cost starts at 0.0. */
    constructor (roomSchedules: Rooms)
      ensures this.roomSchedules == roomSchedules && cost == 0.0
    {
      this.roomSchedules := roomSchedules;
      cost := 0.0;
    }

    function GetRoomSchedules(): Rooms
      reads this
    {
      roomSchedules
    }

    function GetCost(): real
      reads this
    {
      cost
    }

    /** `setCost`: afterwards `getCost` returns `c`; the rooms are untouched. */
    method SetCost(c: real)
      modifies this`cost
      ensures GetCost() == c
      ensures roomSchedules == old(roomSchedules)
    {
      cost := c;
    }

    /**
     * `copy`: a new schedule with the same rooms (each list copied
     * element by element, the copy is built room by room) and the same cost.
     */
    method Copy() returns (s: Schedule)
      ensures fresh(s)
      ensures s.roomSchedules.Keys == roomSchedules.Keys
      ensures forall r :: r in roomSchedules ==> s.roomSchedules[r] == roomSchedules[r]
      ensures s.roomSchedules == roomSchedules
      ensures s.cost == cost
    {
      var newSchedules: Rooms := map[];
      var pending := roomSchedules.Keys;
      while pending != {}
        invariant pending <= roomSchedules.Keys
        invariant newSchedules.Keys == roomSchedules.Keys - pending
        invariant forall r :: r in newSchedules ==> newSchedules[r] == roomSchedules[r]
        decreases pending
      {
        var room :| room in pending;
        newSchedules := newSchedules[room := roomSchedules[room]];
        pending := pending - {room};
      }
      s := new Schedule(newSchedules);
      s.SetCost(cost);
    }
  }
}
