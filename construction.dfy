/**
 * The initial schedule (createInitialSchedule): an empty list for every room,
 * then the special requests dealt round robin over the special rooms, then
 * the other requests dealt round robin over the general rooms.
 */
module Construction {
  import opened Wrappers
  import opened SurgeryNodes
  import opened Schedules
  import opened Evaluation

  /**
   * How createInitialSchedule can fail: a special room that has no list in
   * the map (`roomSchedules.get(room)` is null), or general requests with no
   * general room (`% 0`).
   */
  datatype InitError = MissingRoom(room: string) | DivisionByZero

  /** `generalRooms`: the rooms of `allRooms` that are not special, in the order of `allRooms`. */
  function GeneralRooms(allRooms: seq<string>, special: seq<string>): (g: seq<string>)
    ensures forall r :: r in g <==> r in allRooms && r !in special
    ensures |g| <= |allRooms|
    decreases |allRooms|
  {
    if |allRooms| == 0 then []
    else
      var init := GeneralRooms(allRooms[..|allRooms| - 1], special);
      var last := allRooms[|allRooms| - 1];
      assert allRooms == allRooms[..|allRooms| - 1] + [last];
      if last in special then init else init + [last]
  }

  /** One empty list per room of `allRooms`. */
  function EmptyRooms(allRooms: seq<string>): (m: Rooms)
    ensures m.Keys == set r | r in allRooms
    ensures forall r :: r in m ==> m[r] == []
  {
    map r | r in allRooms :: []
  }

  /** Whether a phase deals `n`: special requests when special rooms exist, or the other requests. */
  predicate Dealt(n: SurgeryNode, wantSpecial: bool, targets: seq<string>) {
    if wantSpecial then NeedsSpecialRoom(n) && |targets| > 0 else !NeedsSpecialRoom(n)
  }

  /** The requests a phase deals, in order. */
  function Selection(nodes: seq<SurgeryNode>, wantSpecial: bool, targets: seq<string>): seq<SurgeryNode>
    decreases |nodes|
  {
    if |nodes| == 0 then []
    else
      (if Dealt(nodes[0], wantSpecial, targets) then [nodes[0]] else [])
      + Selection(nodes[1..], wantSpecial, targets)
  }

  /**
   * One phase of createInitialSchedule from the `k`-th dealt request on:
   * each dealt request is appended to `targets[k % |targets|]`, and `k`
   * advances.
   */
  function Deal(m: Rooms, nodes: seq<SurgeryNode>, wantSpecial: bool, targets: seq<string>, k: nat)
    : (r: Result<Rooms, InitError>)
    ensures r.Success? ==> r.value.Keys == m.Keys
    decreases |nodes|
  {
    if |nodes| == 0 then Success(m)
    else
      var n := nodes[0];
      if !Dealt(n, wantSpecial, targets) then Deal(m, nodes[1..], wantSpecial, targets, k)
      else if |targets| == 0 then Failure(DivisionByZero)
      else
        var room := targets[k % |targets|];
        if room !in m then Failure(MissingRoom(room))
        else Deal(m[room := m[room] + [n]], nodes[1..], wantSpecial, targets, k + 1)
  }

  /** The schedule createInitialSchedule builds, or the error it stops with. */
  function InitialRooms(allRooms: seq<string>, special: seq<string>, nodes: seq<SurgeryNode>)
    : (r: Result<Rooms, InitError>)
    ensures r.Success? ==> r.value.Keys == set x | x in allRooms
  {
    match Deal(EmptyRooms(allRooms), nodes, true, special, 0)
    case Failure(e) => Failure(e)
    case Success(m) => Deal(m, nodes, false, GeneralRooms(allRooms, special), 0)
  }

  /**
   * Round robin as a reference definition: of the requests `xs`, dealt from
   * counter `k` on, the ones that land in room `r`.
   */
  function Share(xs: seq<SurgeryNode>, targets: seq<string>, k: nat, r: string): seq<SurgeryNode>
    requires |targets| > 0
    decreases |xs|
  {
    if |xs| == 0 then []
    else (if targets[k % |targets|] == r then [xs[0]] else []) + Share(xs[1..], targets, k + 1, r)
  }

  /** The share of a list that starts with `n`: `n` when the counter points at `r`, then the rest's share. */
  lemma ShareHead(n: SurgeryNode, rest: seq<SurgeryNode>, targets: seq<string>, k: nat, r: string)
    requires |targets| > 0
    ensures Share([n] + rest, targets, k, r)
         == (if targets[k % |targets|] == r then [n] else []) + Share(rest, targets, k + 1, r)
  {
    assert ([n] + rest)[1..] == rest;
  }

  /** The step of DealShares for a dealt request `n`: its room gets `n`, then the rest's shares. */
  lemma ShareOfDealt(m: Rooms, n: SurgeryNode, rest: seq<SurgeryNode>, targets: seq<string>, k: nat, m': Rooms)
    requires |targets| > 0 && targets[k % |targets|] in m
    requires var m1 := m[targets[k % |targets|] := m[targets[k % |targets|]] + [n]];
      forall r :: r in m1 ==> r in m' && m'[r] == m1[r] + Share(rest, targets, k + 1, r)
    ensures forall r :: r in m ==> r in m' && m'[r] == m[r] + Share([n] + rest, targets, k, r)
  {
    var room := targets[k % |targets|];
    var m1 := m[room := m[room] + [n]];
    forall r | r in m ensures r in m' && m'[r] == m[r] + Share([n] + rest, targets, k, r) {
      ShareHead(n, rest, targets, k, r);
      assert r in m1;
      if r == room {
        AppendRegroup(m[r], [n], Share(rest, targets, k + 1, r));
      }
    }
  }

  lemma AppendRegroup(a: seq<SurgeryNode>, b: seq<SurgeryNode>, c: seq<SurgeryNode>)
    ensures a + b + c == a + (b + c)
  {
  }

  /** A phase adds to each room exactly its round-robin share of the dealt requests. */
  lemma {:induction false} DealShares(m: Rooms, nodes: seq<SurgeryNode>, wantSpecial: bool, targets: seq<string>, k: nat)
    requires |targets| > 0
    requires Deal(m, nodes, wantSpecial, targets, k).Success?
    ensures var m' := Deal(m, nodes, wantSpecial, targets, k).value;
      forall r :: r in m ==> m'[r] == m[r] + Share(Selection(nodes, wantSpecial, targets), targets, k, r)
    decreases |nodes|
  {
    if |nodes| > 0 {
      var n := nodes[0];
      var sel := Selection(nodes, wantSpecial, targets);
      if !Dealt(n, wantSpecial, targets) {
        assert sel == Selection(nodes[1..], wantSpecial, targets);
        DealShares(m, nodes[1..], wantSpecial, targets, k);
      } else {
        var room := targets[k % |targets|];
        var m1 := m[room := m[room] + [n]];
        DealShares(m1, nodes[1..], wantSpecial, targets, k + 1);
        var rest := Selection(nodes[1..], wantSpecial, targets);
        assert sel == [n] + rest;
        assert Deal(m, nodes, wantSpecial, targets, k) == Deal(m1, nodes[1..], wantSpecial, targets, k + 1);
        ShareOfDealt(m, n, rest, targets, k, Deal(m1, nodes[1..], wantSpecial, targets, k + 1).value);
      }
    }
  }

  /** If `b` is `a` with `l` grown by `x`, adding `r` to `b` adds `x` and `r` to `a`. */
  lemma MultisetShift<T>(a: multiset<T>, b: multiset<T>, c: multiset<T>, l: multiset<T>, x: multiset<T>, r: multiset<T>)
    requires b + l == a + (l + x)
    requires c == b + r
    ensures c == a + (x + r)
  {
    assert b == a + x by {
      forall e ensures b[e] == (a + x)[e] {
        assert (b + l)[e] == (a + (l + x))[e];
      }
    }
  }

  /** A phase places every request it deals exactly once and touches nothing else. */
  lemma {:induction false} DealConserves(m: Rooms, nodes: seq<SurgeryNode>, wantSpecial: bool, targets: seq<string>, k: nat)
    requires Deal(m, nodes, wantSpecial, targets, k).Success?
    ensures Census(Deal(m, nodes, wantSpecial, targets, k).value)
         == Census(m) + multiset(Selection(nodes, wantSpecial, targets))
    decreases |nodes|
  {
    if |nodes| > 0 {
      var n := nodes[0];
      var rest := Selection(nodes[1..], wantSpecial, targets);
      if !Dealt(n, wantSpecial, targets) {
        DealConserves(m, nodes[1..], wantSpecial, targets, k);
      } else {
        var room := targets[k % |targets|];
        var m1 := m[room := m[room] + [n]];
        DealConserves(m1, nodes[1..], wantSpecial, targets, k + 1);
        CensusUpdate(m, room, m[room] + [n]);
        assert Selection(nodes, wantSpecial, targets) == [n] + rest;
        assert multiset([n] + rest) == multiset{n} + multiset(rest);
        assert multiset(m[room] + [n]) == multiset(m[room]) + multiset{n};
        MultisetShift(Census(m), Census(m1), Census(Deal(m, nodes, wantSpecial, targets, k).value),
                      multiset(m[room]), multiset{n}, multiset(rest));
      }
    }
  }

  /** The general phase keeps every special request where the special phase put it. */
  lemma {:induction false} GeneralPhaseKeepsValid(m: Rooms, nodes: seq<SurgeryNode>, targets: seq<string>, special: seq<string>, k: nat)
    requires Deal(m, nodes, false, targets, k).Success?
    requires Valid(m, special)
    ensures Valid(Deal(m, nodes, false, targets, k).value, special)
    decreases |nodes|
  {
    if |nodes| > 0 {
      var n := nodes[0];
      if NeedsSpecialRoom(n) {
        GeneralPhaseKeepsValid(m, nodes[1..], targets, special, k);
      } else {
        var room := targets[k % |targets|];
        var m1 := m[room := m[room] + [n]];
        forall r, i | r in m1 && 0 <= i < |m1[r]| && NeedsSpecialRoom(m1[r][i]) ensures r in special {
          if r != room || i < |m[room]| {
            assert m1[r][i] == m[r][i];
          }
        }
        GeneralPhaseKeepsValid(m1, nodes[1..], targets, special, k + 1);
      }
    }
  }

  /** The special phase puts special requests into special rooms only. */
  lemma {:induction false} SpecialPhaseValid(m: Rooms, nodes: seq<SurgeryNode>, special: seq<string>, k: nat)
    requires Deal(m, nodes, true, special, k).Success?
    requires Valid(m, special)
    ensures Valid(Deal(m, nodes, true, special, k).value, special)
    decreases |nodes|
  {
    if |nodes| > 0 {
      var n := nodes[0];
      if !Dealt(n, true, special) {
        SpecialPhaseValid(m, nodes[1..], special, k);
      } else {
        var room := special[k % |special|];
        var m1 := m[room := m[room] + [n]];
        forall r, i | r in m1 && 0 <= i < |m1[r]| && NeedsSpecialRoom(m1[r][i]) ensures r in special {
          if r != room {
            assert m1[r][i] == m[r][i];
          }
        }
        SpecialPhaseValid(m1, nodes[1..], special, k + 1);
      }
    }
  }

  /**
   * The initial schedule always passes isValid. With no special rooms this
   * holds because the special requests are left out altogether.
   */
  lemma InitialRoomsValid(allRooms: seq<string>, special: seq<string>, nodes: seq<SurgeryNode>)
    requires InitialRooms(allRooms, special, nodes).Success?
    ensures Valid(InitialRooms(allRooms, special, nodes).value, special)
  {
    var m0 := EmptyRooms(allRooms);
    SpecialPhaseValid(m0, nodes, special, 0);
    var m1 := Deal(m0, nodes, true, special, 0).value;
    GeneralPhaseKeepsValid(m1, nodes, GeneralRooms(allRooms, special), special, 0);
  }

  /** The requests of `nodes` that need a special room, and the others. */
  function SpecialRequests(nodes: seq<SurgeryNode>): seq<SurgeryNode>
    decreases |nodes|
  {
    if |nodes| == 0 then []
    else
      (if NeedsSpecialRoom(nodes[0]) then [nodes[0]] else []) + SpecialRequests(nodes[1..])
  }

  function OtherRequests(nodes: seq<SurgeryNode>): seq<SurgeryNode>
    decreases |nodes|
  {
    if |nodes| == 0 then []
    else
      (if NeedsSpecialRoom(nodes[0]) then [] else [nodes[0]]) + OtherRequests(nodes[1..])
  }

  /** `OtherRequests` is empty exactly when every request needs a special room. */
  lemma {:induction false} OtherRequestsEmpty(nodes: seq<SurgeryNode>)
    ensures OtherRequests(nodes) == [] <==> forall n :: n in nodes ==> NeedsSpecialRoom(n)
    decreases |nodes|
  {
    if |nodes| > 0 {
      OtherRequestsEmpty(nodes[1..]);
      assert nodes == [nodes[0]] + nodes[1..];
    }
  }

  /** The special phase deals the special requests, or nothing when there are no special rooms. */
  lemma {:induction false} SpecialSelection(nodes: seq<SurgeryNode>, special: seq<string>)
    ensures Selection(nodes, true, special) == if |special| > 0 then SpecialRequests(nodes) else []
    decreases |nodes|
  {
    if |nodes| > 0 {
      SpecialSelection(nodes[1..], special);
    }
  }

  /** The general phase deals the other requests, whatever the general rooms. */
  lemma {:induction false} OtherSelection(nodes: seq<SurgeryNode>, general: seq<string>)
    ensures Selection(nodes, false, general) == OtherRequests(nodes)
    decreases |nodes|
  {
    if |nodes| > 0 {
      OtherSelection(nodes[1..], general);
    }
  }

  /** Every request is either special or not, exactly once. */
  lemma {:induction false} RequestsPartition(nodes: seq<SurgeryNode>)
    ensures multiset(SpecialRequests(nodes)) + multiset(OtherRequests(nodes)) == multiset(nodes)
    decreases |nodes|
  {
    if |nodes| > 0 {
      RequestsPartition(nodes[1..]);
      var x, rest := nodes[0], nodes[1..];
      assert nodes == [x] + rest;
      assert multiset(nodes) == multiset{x} + multiset(rest);
      if NeedsSpecialRoom(x) {
        assert SpecialRequests(nodes) == [x] + SpecialRequests(rest);
        assert OtherRequests(nodes) == OtherRequests(rest);
      } else {
        assert SpecialRequests(nodes) == SpecialRequests(rest);
        assert OtherRequests(nodes) == [x] + OtherRequests(rest);
      }
    }
  }

  lemma SelectionIsPartition(nodes: seq<SurgeryNode>, special: seq<string>, general: seq<string>)
    ensures Selection(nodes, true, special) == if |special| > 0 then SpecialRequests(nodes) else []
    ensures Selection(nodes, false, general) == OtherRequests(nodes)
    ensures multiset(SpecialRequests(nodes)) + multiset(OtherRequests(nodes)) == multiset(nodes)
  {
    SpecialSelection(nodes, special);
    OtherSelection(nodes, general);
    RequestsPartition(nodes);
  }

  /**
   * Every request is placed exactly once when special rooms exist; with no
   * special rooms only the requests that need none are placed.
   */
  lemma InitialRoomsConserve(allRooms: seq<string>, special: seq<string>, nodes: seq<SurgeryNode>)
    requires InitialRooms(allRooms, special, nodes).Success?
    ensures Census(InitialRooms(allRooms, special, nodes).value)
         == if |special| > 0 then multiset(nodes) else multiset(OtherRequests(nodes))
  {
    var g := GeneralRooms(allRooms, special);
    var m0 := EmptyRooms(allRooms);
    CensusOfEmptyRooms(m0);
    DealConserves(m0, nodes, true, special, 0);
    var m1 := Deal(m0, nodes, true, special, 0).value;
    DealConserves(m1, nodes, false, g, 0);
    SelectionIsPartition(nodes, special, g);
  }

  /**
   * Room by room: each room holds its round-robin share of the special
   * requests (when special rooms exist), followed by its share of the other
   * requests (when general rooms exist). No room is both special and
   * general, so at most one of the two shares is non-empty.
   */
  lemma InitialRoomsShares(allRooms: seq<string>, special: seq<string>, nodes: seq<SurgeryNode>, r: string)
    requires InitialRooms(allRooms, special, nodes).Success?
    requires r in allRooms
    ensures var m := InitialRooms(allRooms, special, nodes).value;
      var g := GeneralRooms(allRooms, special);
      m[r] == (if |special| > 0 then Share(SpecialRequests(nodes), special, 0, r) else [])
           + (if |g| > 0 then Share(OtherRequests(nodes), g, 0, r) else [])
  {
    var g := GeneralRooms(allRooms, special);
    var m0 := EmptyRooms(allRooms);
    SelectionIsPartition(nodes, special, g);
    var d1 := Deal(m0, nodes, true, special, 0);
    var m1 := d1.value;
    var first: seq<SurgeryNode> := if |special| > 0 then Share(SpecialRequests(nodes), special, 0, r) else [];
    var second: seq<SurgeryNode> := if |g| > 0 then Share(OtherRequests(nodes), g, 0, r) else [];
    assert m1[r] == first by {
      if |special| > 0 {
        DealShares(m0, nodes, true, special, 0);
        assert m1[r] == m0[r] + Share(Selection(nodes, true, special), special, 0, r);
      } else {
        NoDealWithoutTargets(m0, nodes, special, 0);
      }
    }
    var m2 := Deal(m1, nodes, false, g, 0).value;
    assert InitialRooms(allRooms, special, nodes).value == m2;
    if |g| > 0 {
      DealShares(m1, nodes, false, g, 0);
      assert m2[r] == m1[r] + Share(Selection(nodes, false, g), g, 0, r);
    } else {
      NoOtherRequests(m1, nodes, 0);
      assert m2 == m1;
      assert m1[r] + second == m1[r];
    }
  }

  /** With no special rooms the special phase changes nothing. */
  lemma {:induction false} NoDealWithoutTargets(m: Rooms, nodes: seq<SurgeryNode>, special: seq<string>, k: nat)
    requires |special| == 0
    ensures Deal(m, nodes, true, special, k) == Success(m)
    decreases |nodes|
  {
    if |nodes| > 0 {
      NoDealWithoutTargets(m, nodes[1..], special, k);
    }
  }

  /** With no general room the general phase succeeds only when there is nothing to deal, and then changes nothing. */
  lemma {:induction false} NoOtherRequests(m: Rooms, nodes: seq<SurgeryNode>, k: nat)
    requires Deal(m, nodes, false, [], k).Success?
    ensures Deal(m, nodes, false, [], k) == Success(m)
    ensures OtherRequests(nodes) == []
    decreases |nodes|
  {
    if |nodes| > 0 {
      NoOtherRequests(m, nodes[1..], k);
    }
  }

  /** createInitialSchedule stops with `% 0` when some request needs no special room and every room is special. */
  lemma {:induction false} GeneralPhaseFailsWithoutRooms(m: Rooms, nodes: seq<SurgeryNode>, k: nat)
    requires exists n :: n in nodes && !NeedsSpecialRoom(n)
    ensures Deal(m, nodes, false, [], k) == Failure(DivisionByZero)
    decreases |nodes|
  {
    if NeedsSpecialRoom(nodes[0]) {
      GeneralPhaseFailsWithoutRooms(m, nodes[1..], k);
    }
  }

  /** A phase whose every target is a room of the map cannot fail for a missing room. */
  lemma {:induction false} DealSucceeds(m: Rooms, nodes: seq<SurgeryNode>, wantSpecial: bool, targets: seq<string>, k: nat)
    requires forall t :: t in targets ==> t in m
    requires |targets| > 0 || wantSpecial || OtherRequests(nodes) == []
    ensures Deal(m, nodes, wantSpecial, targets, k).Success?
    decreases |nodes|
  {
    if |nodes| > 0 {
      var n := nodes[0];
      assert OtherRequests(nodes) == (if NeedsSpecialRoom(n) then [] else [n]) + OtherRequests(nodes[1..]);
      if !Dealt(n, wantSpecial, targets) {
        DealSucceeds(m, nodes[1..], wantSpecial, targets, k);
      } else {
        var room := targets[k % |targets|];
        DealSucceeds(m[room := m[room] + [n]], nodes[1..], wantSpecial, targets, k + 1);
      }
    }
  }

  /**
   * The error cases of createInitialSchedule: it succeeds when every
   * special room is a room and some general room exists or every request
   * is special; it fails with `% 0` when no general room exists and a
   * request is not special.
   */
  lemma InitialRoomsOutcome(allRooms: seq<string>, special: seq<string>, nodes: seq<SurgeryNode>)
    ensures (forall s :: s in special ==> s in allRooms)
         && (GeneralRooms(allRooms, special) != [] || forall n :: n in nodes ==> NeedsSpecialRoom(n))
        ==> InitialRooms(allRooms, special, nodes).Success?
    ensures (forall s :: s in special ==> s in allRooms)
         && GeneralRooms(allRooms, special) == [] && (exists n :: n in nodes && !NeedsSpecialRoom(n))
        ==> InitialRooms(allRooms, special, nodes) == Failure(DivisionByZero)
  {
    var g := GeneralRooms(allRooms, special);
    var m0 := EmptyRooms(allRooms);
    if forall s :: s in special ==> s in allRooms {
      DealSucceeds(m0, nodes, true, special, 0);
      var m1 := Deal(m0, nodes, true, special, 0).value;
      if g != [] || forall n :: n in nodes ==> NeedsSpecialRoom(n) {
        if g == [] {
          OtherRequestsEmpty(nodes);
        }
        DealSucceeds(m1, nodes, false, g, 0);
      }
      if g == [] && exists n :: n in nodes && !NeedsSpecialRoom(n) {
        GeneralPhaseFailsWithoutRooms(m1, nodes, 0);
      }
    }
  }

  /** The first special request goes to the first special room, which must have a list. */
  lemma FirstSpecialRoomMissing(allRooms: seq<string>, special: seq<string>, nodes: seq<SurgeryNode>)
    requires |nodes| > 0 && NeedsSpecialRoom(nodes[0])
    requires |special| > 0 && special[0] !in allRooms
    ensures InitialRooms(allRooms, special, nodes) == Failure(MissingRoom(special[0]))
  {
  }

  /**
   * A worked example: four requests, none special, two
   * general rooms, requests 0 and 2 in room A, 1 and 3 in room B.
   */
  lemma InitialRoomsExample()
    ensures var n0, n1, n2, n3 := SurgeryNode("0", "A", 480, "N"), SurgeryNode("1", "B", 60, "N"),
                                  SurgeryNode("2", "A", 90, "N"), SurgeryNode("3", "B", 30, "N");
      InitialRooms(["A", "B"], [], [n0, n1, n2, n3]) == Success(map["A" := [n0, n2], "B" := [n1, n3]])
  {
    var n0, n1, n2, n3 := SurgeryNode("0", "A", 480, "N"), SurgeryNode("1", "B", 60, "N"),
                          SurgeryNode("2", "A", 90, "N"), SurgeryNode("3", "B", 30, "N");
    var nodes := [n0, n1, n2, n3];
    var g := GeneralRooms(["A", "B"], []);
    assert ["A", "B"][..1] == ["A"];
    assert GeneralRooms(["A"], []) == ["A"];
    assert g == ["A", "B"];
    var m0 := EmptyRooms(["A", "B"]);
    assert m0 == map["A" := [], "B" := []];
    NoDealWithoutTargets(m0, nodes, [], 0);
    GeneralDealExample(n0, n1, n2, n3);
  }

  /** The general pass of the example: the four requests dealt alternately over rooms A and B. */
  lemma GeneralDealExample(n0: SurgeryNode, n1: SurgeryNode, n2: SurgeryNode, n3: SurgeryNode)
    requires !NeedsSpecialRoom(n0) && !NeedsSpecialRoom(n1) && !NeedsSpecialRoom(n2) && !NeedsSpecialRoom(n3)
    ensures Deal(map["A" := [], "B" := []], [n0, n1, n2, n3], false, ["A", "B"], 0)
            == Success(map["A" := [n0, n2], "B" := [n1, n3]])
  {
    var g := ["A", "B"];
    var nodes := [n0, n1, n2, n3];
    var m0: Rooms := map["A" := [], "B" := []];
    assert nodes[1..] == [n1, n2, n3] && nodes[1..][1..] == [n2, n3] && nodes[1..][1..][1..] == [n3];
    var m1 := m0["A" := [n0]];
    var m2 := m1["B" := [n1]];
    var m3 := m2["A" := [n0, n2]];
    var m4 := m3["B" := [n1, n3]];
    assert [n3][1..] == [];
    assert m3["B"] + [n3] == [n1, n3] && m2["A"] + [n2] == [n0, n2];
    assert m1["B"] + [n1] == [n1] && m0["A"] + [n0] == [n0];
    assert g[3 % 2] == "B" && g[2 % 2] == "A" && g[1 % 2] == "B" && g[0 % 2] == "A";
    assert Deal(m4, [], false, g, 4) == Success(m4);
    assert Deal(m3, [n3], false, g, 3) == Success(m4);
    assert Deal(m2, [n2, n3], false, g, 2) == Success(m4);
    assert Deal(m1, [n1, n2, n3], false, g, 1) == Success(m4);
    assert m4 == map["A" := [n0, n2], "B" := [n1, n3]];
  }
}
