/** Websocket connections and rooms as values. `C` stands for the connections. */
module Rooms {
  import opened Options

  datatype Entry<C> = Entry(key: string, conn: C)

  datatype State<C> = State(conns: seq<Entry<C>>, rooms: map<string, seq<string>>)

  // --------------------------------------------------------------- what the code does

  /** Where `key` is, or the number of connections. */
  function IndexOf<C>(conns: seq<Entry<C>>, key: string): (i: nat)
    ensures i <= |conns|
    ensures i < |conns| ==> conns[i].key == key
    ensures forall j :: 0 <= j < i ==> conns[j].key != key
  {
    if conns == [] || conns[0].key == key then 0
    else
      var i := IndexOf(conns[1..], key);
      assert forall j :: 0 < j < i + 1 ==> conns[j] == conns[1..][j - 1];
      i + 1
  }

  predicate Connected<C>(conns: seq<Entry<C>>, key: string) {
    IndexOf(conns, key) < |conns|
  }

  function Added<C>(conns: seq<Entry<C>>, key: string, conn: C): seq<Entry<C>> {
    var i := IndexOf(conns, key);
    if i < |conns| then conns[i := Entry(key, conn)] else conns + [Entry(key, conn)]
  }

  function Removed<C>(conns: seq<Entry<C>>, key: string): seq<Entry<C>> {
    var i := IndexOf(conns, key);
    if i < |conns| then conns[..i] + conns[i + 1..] else conns
  }

  function Members(rooms: map<string, seq<string>>, name: string): seq<string> {
    if name in rooms then rooms[name] else []
  }

  function Joined(rooms: map<string, seq<string>>, name: string, id: string): map<string, seq<string>> {
    rooms[name := Members(rooms, name) + [id]]
  }

  /** Where `id` is in a room, or the room's size. */
  function PlaceOf(room: seq<string>, id: string): (i: nat)
    ensures i <= |room|
    ensures i < |room| ==> room[i] == id
    ensures forall j :: 0 <= j < i ==> room[j] != id
  {
    if room == [] || room[0] == id then 0
    else
      var i := PlaceOf(room[1..], id);
      assert forall j :: 0 < j < i + 1 ==> room[j] == room[1..][j - 1];
      i + 1
  }

  function TakenOut(room: seq<string>, id: string): seq<string> {
    var i := PlaceOf(room, id);
    if i < |room| then room[..i] + room[i + 1..] else room
  }

  /** Leaving one room removes the first occurrence, and the room when it is empty. */
  function LeftOne(rooms: map<string, seq<string>>, name: string, id: string): map<string, seq<string>> {
    if name !in rooms then rooms
    else
      var room := TakenOut(rooms[name], id);
      if room == [] then rooms - {name} else rooms[name := room]
  }

  /** What the loop that deletes while it ranges over the old slice leaves of a room: the element after a deleted
      one moves under the index just done, and is never looked at. */
  function Survivors(room: seq<string>, id: string): seq<string> {
    if room == [] then []
    else if room[0] != id then [room[0]] + Survivors(room[1..], id)
    else if |room| == 1 then []
    else [room[1]] + Survivors(room[2..], id)
  }

  /** The same loop runs off the shortened room when the stale last element is `id` again. */
  predicate RunsOff(room: seq<string>, id: string) {
    room != [] && room[|room| - 1] == id && PlaceOf(room, id) < |room| - 1
  }

  /** Firing the leave callbacks of an unknown connection is a nil dereference. */
  predicate Crashes(room: seq<string>, id: string, connected: bool) {
    RunsOff(room, id) || (PlaceOf(room, id) < |room| && !connected)
  }

  predicate CrashesAnywhere(rooms: map<string, seq<string>>, id: string, connected: bool) {
    exists name :: name in rooms && Crashes(rooms[name], id, connected)
  }

  function LeftAll(rooms: map<string, seq<string>>, id: string): map<string, seq<string>> {
    map name | name in rooms :: Survivors(rooms[name], id)
  }

  datatype Call<C> =
    | Connect(id: string, conn: C)
    | Join(room: string, id: string)
    | Leave(room: string, id: string)
    | LeaveAll(id: string)
    | Disconnect(id: string)

  /** The state after a call, unless the program crashes. */
  function Made<C>(s: State<C>, call: Call<C>): Option<State<C>> {
    match call
    case Connect(id, conn) => Some(State(Added(s.conns, id, conn), Joined(s.rooms, id, id)))
    case Join(room, id) => Some(s.(rooms := Joined(s.rooms, room, id)))
    case Leave(room, id) =>
      if room in s.rooms && PlaceOf(s.rooms[room], id) < |s.rooms[room]| && !Connected(s.conns, id) then None
      else Some(s.(rooms := LeftOne(s.rooms, room, id)))
    case LeaveAll(id) =>
      if CrashesAnywhere(s.rooms, id, Connected(s.conns, id)) then None
      else Some(s.(rooms := LeftAll(s.rooms, id)))
    case Disconnect(id) =>
      if CrashesAnywhere(s.rooms, id, Connected(s.conns, id)) then None
      else Some(State(Removed(s.conns, id), LeftAll(s.rooms, id)))
  }

  // -------------------------------------------------------------------- what it means

  function Without(room: seq<string>, id: string): (r: seq<string>)
    ensures forall x :: x in r <==> x in room && x != id
  {
    if room == [] then []
    else if room[0] == id then Without(room[1..], id)
    else [room[0]] + Without(room[1..], id)
  }

  /** `id` is last and nowhere else, or not last and nowhere twice in a row. */
  ghost predicate LeavesCleanly(room: seq<string>, id: string) {
    if room != [] && room[|room| - 1] == id then PlaceOf(room, id) == |room| - 1
    else forall i :: 0 <= i < |room| - 1 ==> !(room[i] == id && room[i + 1] == id)
  }

  lemma {:induction false} SurvivorsNone(room: seq<string>, id: string)
    requires id !in room
    ensures Survivors(room, id) == Without(room, id) == room
    decreases |room|
  {
    if room != [] {
      SurvivorsNone(room[1..], id);
    }
  }

  ghost predicate NoTwins(room: seq<string>, id: string) {
    forall i :: 0 <= i < |room| - 1 ==> !(room[i] == id && room[i + 1] == id)
  }

  /** The loop removes every occurrence exactly when none follows another. */
  lemma {:induction false} SurvivorsExact(room: seq<string>, id: string)
    ensures Survivors(room, id) == Without(room, id) <==> NoTwins(room, id)
    decreases |room|
  {
    if |room| >= 2 {
      var tail := room[1..];
      assert forall i :: 0 <= i < |tail| ==> tail[i] == room[i + 1];
      assert forall i :: 0 < i < |room| ==> room[i] == tail[i - 1];
      if room[0] != id {
        SurvivorsExact(tail, id);
        assert Survivors(room, id)[1..] == Survivors(tail, id) && Without(room, id)[1..] == Without(tail, id);
      } else {
        var rest := room[2..];
        assert forall i :: 0 <= i < |rest| ==> rest[i] == tail[i + 1] && rest[i] == room[i + 2];
        assert forall i :: 0 < i < |tail| ==> tail[i] == rest[i - 1];
        assert tail[1..] == rest;
        if room[1] == id {
          assert Survivors(room, id)[0] == id && id in Survivors(room, id);
        } else {
          SurvivorsExact(rest, id);
          assert Survivors(room, id)[1..] == Survivors(rest, id) && Without(room, id)[1..] == Without(rest, id);
          assert NoTwins(room, id) <==> NoTwins(rest, id);
        }
      }
    }
  }

  /** Leaving all rooms takes `id` out of a room, and nothing else, exactly under this condition on the room. */
  lemma LeavesExactly(room: seq<string>, id: string)
    ensures !RunsOff(room, id) && Survivors(room, id) == Without(room, id) <==> LeavesCleanly(room, id)
  {
    SurvivorsExact(room, id);
    if room != [] && room[|room| - 1] == id && PlaceOf(room, id) == |room| - 1 {
      assert forall i :: 0 <= i < |room| - 1 ==> room[i] != id;
    }
  }

  ghost predicate Distinct(room: seq<string>) {
    forall i, j :: 0 <= i < j < |room| ==> room[i] != room[j]
  }

  lemma DistinctLeaves(room: seq<string>, id: string)
    requires Distinct(room)
    ensures LeavesCleanly(room, id)
  {
  }

  lemma {:induction false} WithoutDistinct(room: seq<string>, id: string)
    requires Distinct(room)
    ensures Distinct(Without(room, id))
    decreases |room|
  {
    if room != [] {
      WithoutDistinct(room[1..], id);
      var r := Without(room[1..], id);
      assert forall i :: 0 <= i < |r| ==> r[i] in r && r[i] in room[1..];
    }
  }

  /** Taking out the first occurrence takes out the only one. */
  lemma {:induction false} TakenOutWithout(room: seq<string>, id: string)
    requires Distinct(room)
    ensures TakenOut(room, id) == Without(room, id)
    decreases |room|
  {
    if room != [] {
      if room[0] == id {
        SurvivorsNone(room[1..], id);
        assert room[..0] + room[1..] == room[1..];
      } else {
        TakenOutWithout(room[1..], id);
        TakenOutBehind(room, id);
      }
    }
  }

  lemma TakenOutBehind(room: seq<string>, id: string)
    requires room != [] && room[0] != id
    ensures TakenOut(room, id) == [room[0]] + TakenOut(room[1..], id)
  {
    var tail := room[1..];
    var i := PlaceOf(tail, id);
    assert PlaceOf(room, id) == i + 1;
    assert room == [room[0]] + tail;
    if i < |tail| {
      CutBehind(room[0], tail, i);
    }
  }

  lemma CutBehind<T>(x: T, tail: seq<T>, i: nat)
    requires i < |tail|
    ensures ([x] + tail)[..i + 1] + ([x] + tail)[i + 2..] == [x] + (tail[..i] + tail[i + 1..])
  {
  }

  /** Ids are unique, and every room holds connected ids, none twice. */
  ghost predicate Consistent<C>(s: State<C>) {
    && (forall i, j :: 0 <= i < j < |s.conns| ==> s.conns[i].key != s.conns[j].key)
    && (forall name :: name in s.rooms ==> Distinct(s.rooms[name]))
    && (forall name, id :: name in s.rooms && id in s.rooms[name] ==> Connected(s.conns, id))
  }

  /** Ids are new when they connect; a join is by a connected id that is not in the room. */
  ghost predicate Orderly<C>(s: State<C>, call: Call<C>) {
    match call
    case Connect(id, conn) => !Connected(s.conns, id)
    case Join(room, id) => Connected(s.conns, id) && id !in Members(s.rooms, room)
    case _ => true
  }

  /** What a consistent state asks of a call: a connecting id is not in its own room yet, a joining one is connected and
      not in the room. */
  ghost predicate Welcome<C>(s: State<C>, call: Call<C>) {
    match call
    case Connect(id, conn) => id !in Members(s.rooms, id)
    case Join(room, id) => Connected(s.conns, id) && id !in Members(s.rooms, room)
    case _ => true
  }

  lemma ConnectKeeps<C>(conns: seq<Entry<C>>, id: string, conn: C, other: string)
    ensures Connected(Added(conns, id, conn), other) <==> other == id || Connected(conns, other)
  {
    var r, at := Added(conns, id, conn), IndexOf(conns, id);
    assert r[at].key == id && forall i :: 0 <= i < |conns| ==> r[i].key == conns[i].key;
    if Connected(conns, other) {
      assert r[IndexOf(conns, other)].key == other;
    }
  }

  lemma ConnectConsistent<C>(s: State<C>, id: string, conn: C)
    requires Consistent(s)
    ensures Consistent(s.(conns := Added(s.conns, id, conn))) && Connected(Added(s.conns, id, conn), id)
  {
    var s' := s.(conns := Added(s.conns, id, conn));
    forall other
      ensures Connected(s'.conns, other) <==> other == id || Connected(s.conns, other)
    {
      ConnectKeeps(s.conns, id, conn, other);
    }
    assert forall i :: 0 <= i < |s.conns| ==> s'.conns[i].key == s.conns[i].key;
  }

  /** After a join the state is consistent only if the id is connected and was not in the room. */
  lemma JoinedWelcome<C>(s: State<C>, name: string, id: string)
    requires Consistent(s.(rooms := Joined(s.rooms, name, id)))
    ensures Connected(s.conns, id) && id !in Members(s.rooms, name)
  {
    var rooms, room := Joined(s.rooms, name, id), Members(s.rooms, name);
    assert rooms[name] == room + [id] && rooms[name][|room|] == id;
    assert forall i :: 0 <= i < |room| ==> rooms[name][i] == room[i];
  }

  lemma JoinConsistent<C>(s: State<C>, name: string, id: string)
    requires Consistent(s) && Connected(s.conns, id) && id !in Members(s.rooms, name)
    ensures Consistent(s.(rooms := Joined(s.rooms, name, id)))
  {
    var room := Members(s.rooms, name);
    var room' := room + [id];
    assert Distinct(room') by {
      assert forall i :: 0 <= i < |room| ==> room'[i] == room[i] && room'[i] in room;
    }
    assert forall x :: x in room' ==> x == id || x in room;
  }

  lemma RoomsConsistent<C>(s: State<C>, rooms: map<string, seq<string>>)
    requires Consistent(s)
    requires forall name :: name in rooms ==> name in s.rooms && Distinct(rooms[name]) && forall x :: x in rooms[name] ==> x in s.rooms[name]
    ensures Consistent(s.(rooms := rooms))
  {
  }

  /** Leaving every room of a consistent state never crashes, and takes the id out of each, keeping the others in order. */
  lemma LeaveAllSpec<C>(s: State<C>, id: string)
    requires Consistent(s)
    ensures !CrashesAnywhere(s.rooms, id, Connected(s.conns, id))
    ensures LeftAll(s.rooms, id).Keys == s.rooms.Keys
    ensures forall name :: name in s.rooms ==> LeftAll(s.rooms, id)[name] == Without(s.rooms[name], id)
    ensures Consistent(s.(rooms := LeftAll(s.rooms, id)))
  {
    forall name | name in s.rooms
      ensures !Crashes(s.rooms[name], id, Connected(s.conns, id))
      ensures Survivors(s.rooms[name], id) == Without(s.rooms[name], id) && Distinct(Without(s.rooms[name], id))
    {
      var room := s.rooms[name];
      DistinctLeaves(room, id);
      LeavesExactly(room, id);
      WithoutDistinct(room, id);
      if PlaceOf(room, id) < |room| {
        assert room[PlaceOf(room, id)] in room;
      }
    }
    RoomsConsistent(s, LeftAll(s.rooms, id));
  }

  lemma LeaveConsistent<C>(s: State<C>, name: string, id: string)
    requires Consistent(s)
    ensures Consistent(s.(rooms := LeftOne(s.rooms, name, id)))
    ensures id !in Members(LeftOne(s.rooms, name, id), name)
  {
    if name in s.rooms {
      TakenOutWithout(s.rooms[name], id);
      WithoutDistinct(s.rooms[name], id);
    }
    RoomsConsistent(s, LeftOne(s.rooms, name, id));
  }

  lemma RemovedConns<C>(conns: seq<Entry<C>>, id: string, other: string)
    requires forall i, j :: 0 <= i < j < |conns| ==> conns[i].key != conns[j].key
    ensures forall i, j :: 0 <= i < j < |Removed(conns, id)| ==> Removed(conns, id)[i].key != Removed(conns, id)[j].key
    ensures Connected(Removed(conns, id), other) <==> other != id && Connected(conns, other)
  {
    var n, r := IndexOf(conns, id), Removed(conns, id);
    if n < |conns| {
      assert forall i :: 0 <= i < |r| ==> r[i] == if i < n then conns[i] else conns[i + 1];
      if other != id && Connected(conns, other) {
        var k := IndexOf(conns, other);
        assert r[if k < n then k else k - 1].key == other;
      }
    }
  }

  /** A disconnected id is nowhere; every other connection and member stays, in order. */
  lemma DisconnectSpec<C>(s: State<C>, id: string)
    requires Consistent(s)
    ensures Made(s, Disconnect(id)).Some?
    ensures var s' := Made(s, Disconnect(id)).value;
            && Consistent(s') && !Connected(s'.conns, id) && s'.rooms.Keys == s.rooms.Keys
            && (forall name :: name in s.rooms ==> s'.rooms[name] == Without(s.rooms[name], id))
            && s'.conns == Others(s.conns, id)
  {
    LeaveAllSpec(s, id);
    var s' := Made(s, Disconnect(id)).value;
    forall other
      ensures Connected(s'.conns, other) <==> other != id && Connected(s.conns, other)
    {
      RemovedConns(s.conns, id, other);
    }
    RemovedConns(s.conns, id, id);
    OthersSpec(s.conns, id);
  }

  // ------------------------------------------------------------- what each call changes

  /** All rooms but `room` are the same. */
  ghost predicate OnlyRoom(a: map<string, seq<string>>, b: map<string, seq<string>>, room: string) {
    forall name :: name != room ==> (name in a <==> name in b) && (name in a ==> a[name] == b[name])
  }

  /** Leaving a room takes the id out of its members, the others in order, and drops the room exactly when none is left. */
  lemma LeaveEffect<C>(s: State<C>, room: string, id: string)
    requires Consistent(s)
    ensures Made(s, Leave(room, id)).Some?
    ensures var s' := Made(s, Leave(room, id)).value;
            && s'.conns == s.conns && OnlyRoom(s.rooms, s'.rooms, room)
            && (room !in s.rooms ==> s' == s)
            && (room in s.rooms ==>
                  && (room in s'.rooms <==> Without(s.rooms[room], id) != [])
                  && (room in s'.rooms ==> s'.rooms[room] == Without(s.rooms[room], id)))
  {
    if room in s.rooms {
      TakenOutWithout(s.rooms[room], id);
      if PlaceOf(s.rooms[room], id) < |s.rooms[room]| {
        assert s.rooms[room][PlaceOf(s.rooms[room], id)] in s.rooms[room];
      }
    }
  }

  ghost predicate Listed<C>(conns: seq<Entry<C>>, id: string) {
    exists i :: 0 <= i < |conns| && conns[i].key == id
  }

  lemma ListedConnected<C>(conns: seq<Entry<C>>, id: string)
    ensures Listed(conns, id) <==> Connected(conns, id)
  {
    if Connected(conns, id) {
      assert conns[IndexOf(conns, id)].key == id;
    }
  }

  /** A call to leave crashes exactly when a member leaves that is not listed. */
  lemma LeaveCrashes<C>(s: State<C>, room: string, id: string)
    ensures Made(s, Leave(room, id)).None? <==> room in s.rooms && id in s.rooms[room] && !Listed(s.conns, id)
  {
    ListedConnected(s.conns, id);
    if room in s.rooms && PlaceOf(s.rooms[room], id) < |s.rooms[room]| {
      assert s.rooms[room][PlaceOf(s.rooms[room], id)] == id;
    }
  }

  /** A call to leave all rooms crashes exactly when some room has the id last and before, or has it unlisted. */
  lemma LeaveAllCrashes<C>(s: State<C>, id: string)
    ensures Made(s, LeaveAll(id)).None? <==>
              exists name :: name in s.rooms && RoomCrashes(s.rooms[name], id, Listed(s.conns, id))
  {
    ListedConnected(s.conns, id);
    forall name | name in s.rooms
      ensures RoomCrashes(s.rooms[name], id, Listed(s.conns, id)) == Crashes(s.rooms[name], id, Connected(s.conns, id))
    {
      RoomCrash(s.rooms[name], id, Connected(s.conns, id));
    }
  }

  ghost predicate RoomCrashes(room: seq<string>, id: string, listed: bool) {
    || (id in room && !listed)
    || (room != [] && room[|room| - 1] == id && id in room[..|room| - 1])
  }

  lemma RoomCrash(room: seq<string>, id: string, listed: bool)
    ensures RoomCrashes(room, id, listed) == Crashes(room, id, listed)
  {
    var p := PlaceOf(room, id);
    if p < |room| {
      assert room[p] in room;
    }
    if p < |room| - 1 {
      assert room[..|room| - 1][p] == id;
    }
  }

  /** Joining appends the id to the room's members. */
  lemma JoinEffect<C>(s: State<C>, room: string, id: string)
    ensures Made(s, Join(room, id)).Some?
    ensures var s' := Made(s, Join(room, id)).value;
            && s'.conns == s.conns && OnlyRoom(s.rooms, s'.rooms, room) && room in s'.rooms
            && s'.rooms[room] == (if room in s.rooms then s.rooms[room] else []) + [id]
  {
  }

  /** The first connection with an id. */
  function FirstWith<C>(conns: seq<Entry<C>>, id: string): Option<C> {
    if conns == [] then None
    else if conns[0].key == id then Some(conns[0].conn)
    else FirstWith(conns[1..], id)
  }

  lemma {:induction false} FirstIs<C>(conns: seq<Entry<C>>, id: string)
    ensures FirstWith(conns, id) == if IndexOf(conns, id) < |conns| then Some(conns[IndexOf(conns, id)].conn) else None
    decreases |conns|
  {
    if conns != [] && conns[0].key != id {
      FirstIs(conns[1..], id);
    }
  }

  lemma AddedFirst<C>(conns: seq<Entry<C>>, id: string, conn: C, other: string)
    ensures FirstWith(Added(conns, id, conn), other) == if other == id then Some(conn) else FirstWith(conns, other)
  {
    var n, i, r := IndexOf(conns, id), IndexOf(conns, other), Added(conns, id, conn);
    assert r[n] == Entry(id, conn) && forall j :: 0 <= j < |conns| && j != n ==> r[j] == conns[j];
    FirstIs(conns, other);
    FirstIs(r, other);
    assert IndexOf(r, other) == if other == id then n else if i < |conns| then i else |r|;
  }

  /** Connecting puts the new connection in the place of the one with the same id, or behind all, and joins the id to the
      room of its own name. */
  lemma ConnectEffect<C>(s: State<C>, id: string, conn: C)
    ensures Made(s, Connect(id, conn)).Some?
    ensures var s' := Made(s, Connect(id, conn)).value;
            && OnlyRoom(s.rooms, s'.rooms, id) && id in s'.rooms
            && s'.rooms[id] == (if id in s.rooms then s.rooms[id] else []) + [id]
            && (forall other :: FirstWith(s'.conns, other) == if other == id then Some(conn) else FirstWith(s.conns, other))
            && (if Listed(s.conns, id) then
                  |s'.conns| == |s.conns| && forall i :: 0 <= i < |s.conns| ==> s'.conns[i].key == s.conns[i].key
                else s'.conns == s.conns + [Entry(id, conn)])
  {
    ListedConnected(s.conns, id);
    forall other
      ensures FirstWith(Added(s.conns, id, conn), other) == if other == id then Some(conn) else FirstWith(s.conns, other)
    {
      AddedFirst(s.conns, id, conn, other);
    }
  }

  /** The connections with another id. */
  function Others<C>(conns: seq<Entry<C>>, id: string): seq<Entry<C>> {
    if conns == [] then []
    else if conns[0].key == id then Others(conns[1..], id)
    else [conns[0]] + Others(conns[1..], id)
  }

  lemma {:induction false} OthersNone<C>(conns: seq<Entry<C>>, id: string)
    requires forall i :: 0 <= i < |conns| ==> conns[i].key != id
    ensures Others(conns, id) == conns
    decreases |conns|
  {
    if conns != [] {
      OthersNone(conns[1..], id);
    }
  }

  lemma {:induction false} OthersSpec<C>(conns: seq<Entry<C>>, id: string)
    requires forall i, j :: 0 <= i < j < |conns| ==> conns[i].key != conns[j].key
    ensures Removed(conns, id) == Others(conns, id)
    decreases |conns|
  {
    if conns != [] {
      if conns[0].key == id {
        OthersNone(conns[1..], id);
        assert conns[..0] + conns[1..] == conns[1..];
      } else {
        OthersSpec(conns[1..], id);
        RemovedBehind(conns, id);
      }
    }
  }

  lemma RemovedBehind<C>(conns: seq<Entry<C>>, id: string)
    requires conns != [] && conns[0].key != id
    ensures Removed(conns, id) == [conns[0]] + Removed(conns[1..], id)
  {
    var tail := conns[1..];
    var i := IndexOf(tail, id);
    assert IndexOf(conns, id) == i + 1;
    assert conns == [conns[0]] + tail;
    if i < |tail| {
      CutBehind(conns[0], tail, i);
    }
  }

  /** A call on a consistent state does not crash and leaves a consistent state exactly when it is welcome. */
  lemma CallExactly<C>(s: State<C>, call: Call<C>)
    requires Consistent(s)
    ensures Made(s, call).Some? && Consistent(Made(s, call).value) <==> Welcome(s, call)
  {
    match call
    case Connect(id, conn) =>
      var s' := s.(conns := Added(s.conns, id, conn));
      ConnectConsistent(s, id, conn);
      assert Made(s, call).value == s'.(rooms := Joined(s'.rooms, id, id));
      if Welcome(s, call) {
        JoinConsistent(s', id, id);
      } else if Consistent(Made(s, call).value) {
        JoinedWelcome(s', id, id);
      }
    case Join(room, id) =>
      if Welcome(s, call) {
        JoinConsistent(s, room, id);
      } else if Consistent(Made(s, call).value) {
        JoinedWelcome(s, room, id);
      }
    case Leave(room, id) =>
      LeaveConsistent(s, room, id);
      if room in s.rooms && PlaceOf(s.rooms[room], id) < |s.rooms[room]| {
        assert s.rooms[room][PlaceOf(s.rooms[room], id)] in s.rooms[room];
      }
    case LeaveAll(id) => LeaveAllSpec(s, id);
    case Disconnect(id) => DisconnectSpec(s, id);
  }

  /** So an orderly call on a consistent state does not crash and leaves a consistent state. */
  lemma CallConsistent<C>(s: State<C>, call: Call<C>)
    requires Consistent(s) && Orderly(s, call)
    ensures Made(s, call).Some? && Consistent(Made(s, call).value)
  {
    CallExactly(s, call);
    if call.Connect? {
      assert forall x :: x in Members(s.rooms, call.id) ==> Connected(s.conns, x);
    }
  }

  function Run<C>(calls: seq<Call<C>>): Option<State<C>> {
    if calls == [] then Some(State([], map[]))
    else
      match Run(calls[..|calls| - 1])
      case None => None
      case Some(s) => Made(s, calls[|calls| - 1])
  }

  ghost predicate AllOrderly<C>(calls: seq<Call<C>>) {
    forall i :: 0 <= i < |calls| && Run(calls[..i]).Some? ==> Orderly(Run(calls[..i]).value, calls[i])
  }

  /** Over any orderly run: no crash, no room with an id twice, no room with an id that is not connected. */
  lemma {:induction false} RunConsistent<C>(calls: seq<Call<C>>)
    requires AllOrderly(calls)
    ensures Run(calls).Some? && Consistent(Run(calls).value)
    decreases |calls|
  {
    if calls != [] {
      var n := |calls| - 1;
      var front := calls[..n];
      assert forall i :: 0 <= i <= n ==> front[..i] == calls[..i];
      RunConsistent(front);
      CallConsistent(Run(front).value, calls[n]);
    }
  }

  ghost predicate AlwaysConsistent<C>(calls: seq<Call<C>>) {
    forall i :: 0 <= i <= |calls| ==> Run(calls[..i]).Some? && Consistent(Run(calls[..i]).value)
  }

  ghost predicate AlwaysWelcome<C>(calls: seq<Call<C>>) {
    forall i :: 0 <= i < |calls| && Run(calls[..i]).Some? ==> Welcome(Run(calls[..i]).value, calls[i])
  }

  lemma RunStep<C>(calls: seq<Call<C>>, i: nat)
    requires i < |calls| && Run(calls[..i]).Some?
    ensures Run(calls[..i + 1]) == Made(Run(calls[..i]).value, calls[i])
  {
    assert calls[..i + 1][..i] == calls[..i] && calls[..i + 1][i] == calls[i];
  }

  lemma {:induction false} WelcomeConsistent<C>(calls: seq<Call<C>>, i: nat)
    requires AlwaysWelcome(calls) && i <= |calls|
    ensures Run(calls[..i]).Some? && Consistent(Run(calls[..i]).value)
    decreases i
  {
    if i > 0 {
      WelcomeConsistent(calls, i - 1);
      RunStep(calls, i - 1);
      CallExactly(Run(calls[..i - 1]).value, calls[i - 1]);
    }
  }

  /** A run never crashes and keeps every state consistent exactly when each of its calls is welcome. */
  lemma RunExactly<C>(calls: seq<Call<C>>)
    ensures AlwaysConsistent(calls) <==> AlwaysWelcome(calls)
  {
    if AlwaysWelcome(calls) {
      forall i | 0 <= i <= |calls|
        ensures Run(calls[..i]).Some? && Consistent(Run(calls[..i]).value)
      {
        WelcomeConsistent(calls, i);
      }
    }
    if AlwaysConsistent(calls) {
      forall i | 0 <= i < |calls|
        ensures Welcome(Run(calls[..i]).value, calls[i])
      {
        RunStep(calls, i);
        CallExactly(Run(calls[..i]).value, calls[i]);
      }
    }
  }

  /** Joined twice, an id is left behind in its room or crashes the server. */
  lemma TwiceJoined(id: string, other: string)
    requires id != other
    ensures Survivors([id, id, other], id) == [id, other] && RunsOff([id, id], id)
  {
    assert [id, id, other][2..] == [other];
    assert [other][1..] == [];
    assert Survivors([other], id) == [other];
    assert PlaceOf([id, id], id) == 0 by {
      assert [id, id][0] == id;
    }
  }
}
