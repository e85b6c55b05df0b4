/** The websocket server, changing its slices of connections and rooms in place. Callbacks do nothing to it. */
module RoomServer {
  import opened Options
  import opened Rooms
  import Slices

  class Connection {
    const id: string
    var disconnected: bool
    /** How often the underlying connection was closed. */
    var closes: nat

    ghost predicate Valid()
      reads this
    {
      closes == if disconnected then 1 else 0
    }

    constructor (id: string)
      ensures this.id == id && !disconnected && Valid()
    {
      this.id, disconnected, closes := id, false, 0;
    }

    method Close()
      requires Valid()
      modifies this
      ensures Valid() && disconnected
    {
      if !disconnected {
        disconnected := true;
        closes := closes + 1;
      }
    }
  }

  class Connections {
    /** The backing array; its length is the capacity. */
    var buf: array<Entry<Connection>>
    var len: nat

    ghost predicate Valid()
      reads this
    {
      len <= buf.Length
    }

    ghost function Contents(): seq<Entry<Connection>>
      requires Valid()
      reads this, buf
    {
      buf[..len]
    }

    constructor ()
      ensures Valid() && Contents() == [] && fresh(buf)
    {
      buf := new Entry<Connection>[0];
      len := 0;
    }

    method Find(key: string) returns (i: nat)
      requires Valid()
      ensures i == IndexOf(Contents(), key)
    {
      i := 0;
      while i < len
        invariant 0 <= i <= len && forall j :: 0 <= j < i ==> buf[j].key != key
      {
        if buf[i].key == key {
          IndexIs(Contents(), key, i);
          return;
        }
        i := i + 1;
      }
      IndexIs(Contents(), key, i);
    }

    /** Replace the connection of the key, use spare capacity, or move to a larger array. */
    method Add(key: string, conn: Connection)
      requires Valid()
      modifies this, buf
      ensures Valid() && (buf == old(buf) || fresh(buf)) && Contents() == Added(old(Contents()), key, conn)
    {
      var i := Find(key);
      var kv := Entry(key, conn);
      if i < len {
        buf[i] := kv;
        assert Contents() == old(Contents())[i := kv];
        return;
      }
      if len < buf.Length {
        buf[len] := kv;
      } else {
        Grow(kv);
      }
      len := len + 1;
      assert Contents() == old(Contents()) + [kv];
    }

    method Grow(kv: Entry<Connection>)
      requires Valid() && len == buf.Length
      modifies this`buf
      ensures fresh(buf) && len < buf.Length && buf[..len] == old(buf[..len]) && buf[len] == kv
    {
      buf := Enlarged(buf, kv);
    }

    method Get(key: string) returns (conn: Option<Connection>)
      requires Valid()
      ensures var i := IndexOf(Contents(), key); conn == if i < len then Some(Contents()[i].conn) else None
    {
      var i := Find(key);
      conn := if i < len then Some(buf[i].conn) else None;
    }

    method Remove(key: string) returns (conn: Option<Connection>)
      requires Valid()
      modifies this`len, buf
      ensures Valid() && Contents() == Removed(old(Contents()), key)
      ensures var i := IndexOf(old(Contents()), key); conn == if i < old(len) then Some(old(Contents())[i].conn) else None
    {
      var i := Find(key);
      if i == len {
        return None;
      }
      conn := Some(buf[i].conn);
      Slices.ClosedFront(buf[..], i, len);
      Slices.CloseGap(buf, i, len);
      len := len - 1;
      assert Contents() == buf[..][..len] && old(buf[..])[..len + 1] == old(Contents());
    }
  }

  lemma IndexIs(conns: seq<Entry<Connection>>, key: string, i: nat)
    requires i <= |conns| && (i < |conns| ==> conns[i].key == key) && forall j :: 0 <= j < i ==> conns[j].key != key
    ensures IndexOf(conns, key) == i
  {
  }

  /** A copy of a full array in one of a larger capacity, however much larger, with one more element. */
  method Enlarged<T>(a: array<T>, x: T) returns (b: array<T>)
    ensures fresh(b) && b.Length > a.Length && b[..a.Length] == a[..] && b[a.Length] == x
  {
    var capacity: nat :| capacity > a.Length;
    b := new T[capacity](_ => x);
    for i := 0 to a.Length
      invariant b[..i] == a[..i] && forall j :: i <= j < capacity ==> b[j] == x
    {
      b[i] := a[i];
    }
  }

  // ---------------------------------------------------------------------- one room

  datatype Slice = Slice(buf: array<string>, len: nat)

  ghost predicate Fits(s: Slice) {
    s.len <= s.buf.Length
  }

  ghost function Ids(s: Slice): seq<string>
    requires Fits(s)
    reads s.buf
  {
    s.buf[..s.len]
  }

  method Append(s: Slice, id: string) returns (r: Slice)
    requires Fits(s)
    modifies s.buf
    ensures Fits(r) && (r.buf == s.buf || fresh(r.buf)) && Ids(r) == old(Ids(s)) + [id]
  {
    var buf := s.buf;
    if s.len < buf.Length {
      buf[s.len] := id;
    } else {
      buf := Enlarged(buf, id);
    }
    r := Slice(buf, s.len + 1);
    assert Ids(r)[..s.len] == old(Ids(s));
  }

  method TakeFirst(s: Slice, id: string) returns (left: bool, r: Slice)
    requires Fits(s)
    modifies s.buf
    ensures r.buf == s.buf && Fits(r) && Ids(r) == TakenOut(old(Ids(s)), id)
    ensures left <==> PlaceOf(old(Ids(s)), id) < s.len
  {
    for i := 0 to s.len
      invariant s.buf[..] == old(s.buf[..]) && forall j :: 0 <= j < i ==> s.buf[j] != id
    {
      if s.buf[i] == id {
        assert PlaceOf(Ids(s), id) == i;
        Slices.ClosedFront(s.buf[..], i, s.len);
        Slices.CloseGap(s.buf, i, s.len);
        r := Slice(s.buf, s.len - 1);
        assert Ids(r) == s.buf[..][..s.len - 1] && old(s.buf[..])[..s.len] == old(Ids(s));
        return true, r;
      }
    }
    assert Ids(s) == old(Ids(s)) && PlaceOf(Ids(s), id) == s.len;
    return false, s;
  }

  /** What the loop sees of `was` from index `i` on, after `d` deletions. */
  ghost predicate Sees(a: seq<string>, was: seq<string>, i: nat, d: nat)
    requires |was| <= |a|
  {
    forall k :: i <= k < |was| ==> a[k] == was[if k + d < |was| then k + d else |was| - 1]
  }

  /** What the loop has kept, with what it will still keep. */
  ghost predicate Keeps(a: seq<string>, was: seq<string>, i: nat, d: nat, id: string)
    requires |was| <= |a| && d <= i <= |was|
  {
    if i + d <= |was| then a[..i] + Survivors(was[i + d..], id) == Survivors(was, id)
    else a[..|was| - d] == Survivors(was, id)
  }

  lemma KeepOne(a: seq<string>, was: seq<string>, i: nat, d: nat, id: string)
    requires |was| <= |a| && d <= i < |was| && Sees(a, was, i, d) && Keeps(a, was, i, d, id) && a[i] != id
    ensures Keeps(a, was, i + 1, d, id)
  {
    if i + d < |was| {
      var rest := was[i + d..];
      assert rest[0] == a[i] && rest[1..] == was[i + d + 1..];
      assert a[..i + 1] == a[..i] + [a[i]];
      Shift(a[..i], a[i], Survivors(rest[1..], id));
    } else if i + d == |was| {
      assert was[i + d..] == [] && a[..i] + [] == a[..i];
    }
  }

  lemma Shift<T>(a: seq<T>, x: T, b: seq<T>)
    ensures a + [x] + b == a + ([x] + b)
  {
  }

  lemma CutSees(a: seq<string>, was: seq<string>, i: nat, d: nat)
    requires |was| <= |a| && d <= i && i + d < |was| && Sees(a, was, i, d)
    ensures Sees(Slices.Closed(a, i, |was| - d), was, i + 1, d + 1)
  {
  }

  lemma CutKeeps(a: seq<string>, was: seq<string>, i: nat, d: nat, id: string)
    requires |was| <= |a| && d <= i && i + d < |was| && Sees(a, was, i, d) && Keeps(a, was, i, d, id) && a[i] == id
    ensures Keeps(Slices.Closed(a, i, |was| - d), was, i + 1, d + 1, id)
  {
    var rest, a' := was[i + d..], Slices.Closed(a, i, |was| - d);
    assert rest[0] == a[i];
    assert a'[..i] == a[..i];
    if i + d + 1 < |was| {
      assert rest[1] == a[i + 1] && rest[2..] == was[(i + 1) + (d + 1)..];
      assert a'[..i + 1] == a[..i] + [rest[1]];
      Shift(a[..i], rest[1], Survivors(rest[2..], id));
    } else {
      assert Survivors(rest, id) == [] && a[..i] + [] == a[..i];
    }
  }

  /** The loop before index `i`, when `m` elements are left of the `|was|` it ranges over. */
  ghost predicate Midway(a: seq<string>, was: seq<string>, i: nat, m: nat, id: string, connected: bool)
    requires |was| <= |a|
  {
    && m <= |was| && |was| - m <= i <= |was|
    && Sees(a, was, i, |was| - m) && Keeps(a, was, i, |was| - m, id)
    && (if m == |was| then id !in was[..i] else connected && PlaceOf(was, id) < i)
    && (i == |was| ==> !RunsOff(was, id))
  }

  lemma MidwayKept(a: seq<string>, was: seq<string>, i: nat, m: nat, id: string, connected: bool)
    requires |was| <= |a| && i < |was| && Midway(a, was, i, m, id, connected) && a[i] != id
    ensures Midway(a, was, i + 1, m, id, connected)
  {
    KeepOne(a, was, i, |was| - m, id);
    assert was[..i + 1] == was[..i] + [was[i]];
  }

  lemma MidwayCut(a: seq<string>, was: seq<string>, i: nat, m: nat, id: string, connected: bool)
    requires |was| <= |a| && i < m && connected && Midway(a, was, i, m, id, connected) && a[i] == id
    ensures Midway(Slices.Closed(a, i, m), was, i + 1, m - 1, id, connected)
  {
    CutSees(a, was, i, |was| - m);
    CutKeeps(a, was, i, |was| - m, id);
    Occurs(was, id, i + (|was| - m));
  }

  lemma MidwayCrash(a: seq<string>, was: seq<string>, i: nat, m: nat, id: string, connected: bool)
    requires |was| <= |a| && i < |was| && Midway(a, was, i, m, id, connected) && a[i] == id && (!connected || m <= i)
    ensures Crashes(was, id, connected)
  {
    var d := |was| - m;
    Occurs(was, id, if i + d < |was| then i + d else |was| - 1);
  }

  lemma MidwayDone(a: seq<string>, was: seq<string>, m: nat, id: string, connected: bool)
    requires |was| <= |a| && Midway(a, was, |was|, m, id, connected)
    ensures !Crashes(was, id, connected) && a[..m] == Survivors(was, id)
  {
    assert was[..|was|] == was && was[|was|..] == [];
    assert a[..m] + [] == a[..m];
  }

  /** The loop at index `i`: a deletion in place, or none; it crashes where `ok` is false. */
  method LookAt(s: Slice, i: nat, m: nat, id: string, connected: bool, ghost was: seq<string>) returns (ok: bool, left: nat)
    requires Fits(s) && |was| == s.len && i < s.len && Midway(s.buf[..], was, i, m, id, connected)
    modifies s.buf
    ensures left <= s.len
    ensures if ok then Midway(s.buf[..], was, i + 1, left, id, connected) else Crashes(was, id, connected)
  {
    ghost var now := s.buf[..];
    assert now[i] == s.buf[i];
    if s.buf[i] != id {
      MidwayKept(now, was, i, m, id, connected);
      return true, m;
    }
    if !connected || i + 1 > m {
      MidwayCrash(now, was, i, m, id, connected);
      return false, m;
    }
    MidwayCut(now, was, i, m, id, connected);
    Slices.CloseGap(s.buf, i, m);
    return true, m - 1;
  }

  /** Delete `id` in place while ranging over the slice as it was. The program crashes where `ok` is false. */
  method LeaveRoom(s: Slice, id: string, connected: bool) returns (ok: bool, r: Slice)
    requires Fits(s)
    modifies s.buf
    ensures r.buf == s.buf && Fits(r)
    ensures ok <==> !Crashes(old(Ids(s)), id, connected)
    ensures ok ==> Ids(r) == Survivors(old(Ids(s)), id)
  {
    ghost var was := Ids(s);
    var m: nat := s.len;
    MidwayStart(s.buf[..], was, id, connected);
    for i := 0 to s.len
      invariant m <= s.len && Midway(s.buf[..], was, i, m, id, connected)
    {
      ok, m := LookAt(s, i, m, id, connected, was);
      if !ok {
        return false, Slice(s.buf, m);
      }
    }
    MidwayDone(s.buf[..], was, m, id, connected);
    assert s.buf[..][..m] == s.buf[..m];
    ok, r := true, Slice(s.buf, m);
  }

  lemma MidwayStart(a: seq<string>, was: seq<string>, id: string, connected: bool)
    requires |was| <= |a| && a[..|was|] == was
    ensures Midway(a, was, 0, |was|, id, connected)
  {
    assert forall k :: 0 <= k < |was| ==> a[k] == a[..|was|][k];
    assert was[0..] == was && a[..0] + Survivors(was, id) == Survivors(was, id);
  }

  lemma Occurs(room: seq<string>, id: string, i: nat)
    requires i < |room| && room[i] == id
    ensures PlaceOf(room, id) <= i
  {
  }

  // --------------------------------------------------------------------- the server

  /** Every room has an array of its own. */
  ghost predicate Separate(rooms: map<string, Slice>) {
    && (forall n :: n in rooms ==> Fits(rooms[n]))
    && (forall n, m :: n in rooms && m in rooms && n != m ==> rooms[n].buf != rooms[m].buf)
  }

  ghost function Bufs(rooms: map<string, Slice>): set<array<string>> {
    set n | n in rooms :: rooms[n].buf
  }

  ghost function AllIds(rooms: map<string, Slice>): map<string, seq<string>>
    requires Separate(rooms)
    reads Bufs(rooms)
  {
    map n | n in rooms :: Ids(rooms[n])
  }

  /** Storing one room's slice, when the other rooms still hold what they held. */
  lemma SetRoom(rooms: map<string, Slice>, name: string, room: Slice, was: map<string, seq<string>>)
    requires Separate(rooms) && Fits(room) && was.Keys == rooms.Keys
    requires forall n :: n in rooms && n != name ==> rooms[n].buf != room.buf && Ids(rooms[n]) == was[n]
    ensures Separate(rooms[name := room]) && AllIds(rooms[name := room]) == was[name := Ids(room)]
    ensures Bufs(rooms[name := room]) <= Bufs(rooms) + {room.buf}
  {
  }

  lemma DropRoom(rooms: map<string, Slice>, name: string, was: map<string, seq<string>>)
    requires Separate(rooms) && was.Keys == rooms.Keys
    requires forall n :: n in rooms && n != name ==> Ids(rooms[n]) == was[n]
    ensures Separate(rooms - {name}) && AllIds(rooms - {name}) == was - {name} && Bufs(rooms - {name}) <= Bufs(rooms)
  {
  }

  method JoinRoom(rooms: map<string, Slice>, name: string, id: string) returns (r: map<string, Slice>)
    requires Separate(rooms)
    modifies Bufs(rooms)
    ensures Separate(r) && AllIds(r) == Joined(old(AllIds(rooms)), name, id)
    ensures forall b :: b in Bufs(r) ==> b in Bufs(rooms) || fresh(b)
  {
    ghost var was := AllIds(rooms);
    var room;
    if name in rooms {
      room := rooms[name];
    } else {
      var buf := new string[0];
      room := Slice(buf, 0);
    }
    assert Ids(room) == Members(was, name);
    room := Append(room, id);
    SetRoom(rooms, name, room, was);
    r := rooms[name := room];
  }

  method LeaveOneRoom(rooms: map<string, Slice>, name: string, id: string) returns (left: bool, r: map<string, Slice>)
    requires Separate(rooms)
    modifies Bufs(rooms)
    ensures Separate(r) && AllIds(r) == LeftOne(old(AllIds(rooms)), name, id) && Bufs(r) <= Bufs(rooms)
    ensures left <==> PlaceOf(Members(old(AllIds(rooms)), name), id) < |Members(old(AllIds(rooms)), name)|
  {
    ghost var was := AllIds(rooms);
    if name !in rooms {
      return false, rooms;
    }
    var room;
    left, room := TakeFirst(rooms[name], id);
    assert Ids(room) == TakenOut(was[name], id);
    if room.len == 0 {
      DropRoom(rooms, name, was);
      r := rooms - {name};
    } else {
      SetRoom(rooms, name, room, was);
      r := rooms[name := room];
    }
  }

  /** What is left of the rooms when those in `names` are still to be left. */
  ghost predicate Leaving(now: map<string, seq<string>>, was: map<string, seq<string>>, names: set<string>, id: string, connected: bool) {
    && names <= was.Keys == now.Keys
    && (forall n :: n in was && n in names ==> now[n] == was[n])
    && (forall n :: n in was && n !in names ==> !Crashes(was[n], id, connected) && now[n] == Survivors(was[n], id))
  }

  lemma LeavingStep(now: map<string, seq<string>>, was: map<string, seq<string>>, names: set<string>, name: string, id: string, connected: bool)
    requires Leaving(now, was, names, id, connected) && name in names && !Crashes(was[name], id, connected)
    ensures Leaving(now[name := Survivors(was[name], id)], was, names - {name}, id, connected)
  {
  }

  lemma LeavingDone(now: map<string, seq<string>>, was: map<string, seq<string>>, id: string, connected: bool)
    requires Leaving(now, was, {}, id, connected)
    ensures now == LeftAll(was, id) && !CrashesAnywhere(was, id, connected)
  {
  }

  /** Leaving one of all the rooms, as LeaveAll does. */
  method LeaveNamed(rooms: map<string, Slice>, name: string, id: string, connected: bool) returns (ok: bool, r: map<string, Slice>)
    requires Separate(rooms) && name in rooms
    modifies Bufs(rooms)
    ensures Separate(r) && Bufs(r) <= Bufs(rooms)
    ensures ok <==> !Crashes(old(AllIds(rooms))[name], id, connected)
    ensures ok ==> AllIds(r) == old(AllIds(rooms))[name := Survivors(old(AllIds(rooms))[name], id)]
  {
    ghost var was := AllIds(rooms);
    assert Ids(rooms[name]) == was[name];
    var room;
    ok, room := LeaveRoom(rooms[name], id, connected);
    SetRoom(rooms, name, room, was);
    r := rooms[name := room];
  }

  /** Leaving every room, one after another; the order does not matter. */
  method LeaveRooms(rooms: map<string, Slice>, id: string, connected: bool) returns (ok: bool, r: map<string, Slice>)
    requires Separate(rooms)
    modifies Bufs(rooms)
    ensures Separate(r) && Bufs(r) <= Bufs(rooms)
    ensures ok <==> !CrashesAnywhere(old(AllIds(rooms)), id, connected)
    ensures ok ==> AllIds(r) == LeftAll(old(AllIds(rooms)), id)
  {
    ghost var was, now := AllIds(rooms), AllIds(rooms);
    var names := rooms.Keys;
    r := rooms;
    while names != {}
      invariant Separate(r) && Bufs(r) <= Bufs(rooms) && AllIds(r) == now && Leaving(now, was, names, id, connected)
      decreases |names|
    {
      var name :| name in names;
      ok, r := LeaveNamed(r, name, id, connected);
      if !ok {
        return;
      }
      LeavingStep(now, was, names, name, id, connected);
      now := now[name := Survivors(was[name], id)];
      names := names - {name};
    }
    LeavingDone(now, was, id, connected);
    ok := true;
  }

  lemma LeaveMade(s: State<Connection>, name: string, id: string)
    ensures Made(s, Rooms.Leave(name, id)) ==
              if PlaceOf(Members(s.rooms, name), id) < |Members(s.rooms, name)| && !Connected(s.conns, id) then None
              else Some(State(s.conns, LeftOne(s.rooms, name, id)))
  {
  }

  class Server {
    const connections: Connections
    var rooms: map<string, Slice>

    ghost predicate Valid()
      reads this, connections
    {
      && connections.Valid() && Separate(rooms)
      && forall b: object :: b in Bufs(rooms) ==> b != connections.buf
    }

    ghost function Snapshot(): State<Connection>
      requires Valid()
      reads this, connections, connections.buf, Bufs(rooms)
    {
      State(connections.Contents(), AllIds(rooms))
    }

    constructor ()
      ensures Valid() && fresh(connections) && fresh(connections.buf) && Snapshot() == State([], map[])
    {
      connections := new Connections();
      rooms := map[];
    }

    method IsConnected(id: string) returns (r: bool)
      requires Valid()
      ensures r <==> Connected(Snapshot().conns, id)
    {
      var conn := connections.Get(id);
      r := conn.Some?;
    }

    method Join(name: string, id: string)
      requires Valid()
      modifies this`rooms, Bufs(rooms)
      ensures Valid() && Made(old(Snapshot()), Rooms.Join(name, id)) == Some(Snapshot())
    {
      ghost var conns, was := connections.Contents(), AllIds(rooms);
      rooms := JoinRoom(rooms, name, id);
      assert connections.Contents() == conns;
    }

    method Leave(name: string, id: string) returns (ok: bool, left: bool)
      requires Valid()
      modifies this`rooms, Bufs(rooms)
      ensures Valid() && (left <==> PlaceOf(Members(old(Snapshot()).rooms, name), id) < |Members(old(Snapshot()).rooms, name)|)
      ensures Made(old(Snapshot()), Rooms.Leave(name, id)) == if ok then Some(Snapshot()) else None
    {
      ghost var conns, was := connections.Contents(), AllIds(rooms);
      LeaveMade(State(conns, was), name, id);
      left, rooms := LeaveOneRoom(rooms, name, id);
      assert connections.Contents() == conns;
      ok := true;
      if left {
        var conn := connections.Get(id);
        ok := conn.Some?;
      }
      assert ok <==> !left || Connected(conns, id);
    }

    method LeaveAll(id: string) returns (ok: bool)
      requires Valid()
      modifies this`rooms, Bufs(rooms)
      ensures Valid() && connections.Contents() == old(connections.Contents())
      ensures Made(old(Snapshot()), Rooms.LeaveAll(id)) == if ok then Some(Snapshot()) else None
    {
      ghost var conns, was := connections.Contents(), AllIds(rooms);
      var conn := connections.Get(id);
      ok, rooms := LeaveRooms(rooms, id, conn.Some?);
      assert connections.Contents() == conns;
    }
  
    /** The state part of taking a new connection. */
    method HandleConnection(cid: string) returns (conn: Connection)
      requires Valid()
      modifies this`rooms, Bufs(rooms), connections, connections.buf
      ensures Valid() && fresh(conn) && conn.id == cid && conn.Valid() && !conn.disconnected
      ensures Made(old(Snapshot()), Connect(cid, conn)) == Some(Snapshot())
    {
      ghost var was := AllIds(rooms);
      conn := new Connection(cid);
      connections.Add(cid, conn);
      ghost var conns := connections.Contents();
      assert AllIds(rooms) == was;
      rooms := JoinRoom(rooms, cid, cid);
      assert connections.Contents() == conns;
    }

    /** Leave all rooms, then leave the list. */
    method Withdraw(id: string) returns (ok: bool, conn: Option<Connection>)
      requires Valid()
      modifies this`rooms, Bufs(rooms), connections`len, connections.buf
      ensures Valid() && Made(old(Snapshot()), Rooms.Disconnect(id)) == if ok then Some(Snapshot()) else None
      ensures ok ==> var conns := old(Snapshot()).conns; conn == if Connected(conns, id) then Some(conns[IndexOf(conns, id)].conn) else None
    {
      conn := None;
      ok := LeaveAll(id);
      if ok {
        conn := Unlist(id);
      }
    }

    method Unlist(id: string) returns (conn: Option<Connection>)
      requires Valid()
      modifies connections`len, connections.buf
      ensures Valid() && AllIds(rooms) == old(AllIds(rooms)) && connections.Contents() == Removed(old(connections.Contents()), id)
      ensures var conns := old(connections.Contents()); conn == if Connected(conns, id) then Some(conns[IndexOf(conns, id)].conn) else None
    {
      ghost var left := AllIds(rooms);
      conn := connections.Remove(id);
      assert AllIds(rooms) == left;
    }

    /** Leave all rooms and the list, and close the connection unless it was closed before. */
    method Disconnect(id: string, ghost conns: set<Connection>) returns (ok: bool)
      requires Valid() && forall i :: 0 <= i < connections.len ==> connections.buf[i].conn in conns && connections.buf[i].conn.Valid()
      modifies this`rooms, Bufs(rooms), connections`len, connections.buf, conns
      ensures Valid() && Made(old(Snapshot()), Rooms.Disconnect(id)) == if ok then Some(Snapshot()) else None
      ensures ok && Connected(old(Snapshot()).conns, id) ==>
                var conn := old(Snapshot()).conns[IndexOf(old(Snapshot()).conns, id)].conn; conn.disconnected && conn.Valid()
    {
      var conn;
      ok, conn := Withdraw(id);
      if ok && conn.Some? {
        conn.value.Close();
      }
    }
  }
}
