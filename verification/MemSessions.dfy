/** The in-memory session provider, updating its map, its list and its sessions in place. A call runs alone, with the
    update it starts in the background done at once; `now` is the clock. */
module MemSessions {
  import opened Sessions

  class Session {
    var sid: string
    var timeAccessed: int
    var value: map<string, string>

    constructor (sid: string, now: int)
      ensures Contents() == Data(sid, now, map[])
    {
      this.sid, timeAccessed, value := sid, now, map[];
    }

    ghost function Contents(): Data
      reads this
    {
      Data(sid, timeAccessed, value)
    }
  }

  class MemProvider {
    var sessions: map<string, Session>
    var list: seq<Session>
    var maxlifetime: int
    ghost var made: set<Session>

    constructor (maxlifetime: int)
      ensures Valid() && Snapshot() == State(map[], [], map[]) && this.maxlifetime == maxlifetime && fresh(made)
    {
      sessions, list, made := map[], [], {};
      this.maxlifetime := maxlifetime;
    }

    ghost predicate Valid()
      reads this
    {
      && (forall sid :: sid in sessions ==> sessions[sid] in made)
      && (forall i :: 0 <= i < |list| ==> list[i] in made)
    }

    ghost function Snapshot(): State<Session>
      reads this, made
    {
      State(sessions, list, map e | e in made :: e.Contents())
    }

    method SessionExist(sid: string) returns (r: bool)
      ensures r <==> sid in sessions
    {
      r := sid in sessions;
    }

    method SessionUpdate(sid: string, now: int)
      requires Valid()
      modifies this`list, made
      ensures Valid() && Snapshot() == Update(old(Snapshot()), sid, now)
    {
      if sid in sessions {
        var element := sessions[sid];
        element.timeAccessed := now;
        if element in list {
          WithoutAll(list, element, made);
          list := [element] + Without(list, element);
        }
      }
    }

    /** A new session at the front of the list. */
    method PushNew(sid: string, now: int) returns (e: Session)
      requires Valid()
      modifies this`list, this`sessions, this`made
      ensures Valid() && fresh(e) && made == old(made) + {e} && Snapshot() == Insert(old(Snapshot()), e, sid, now)
    {
      e := new Session(sid, now);
      list := [e] + list;
      sessions := sessions[sid := e];
      made := made + {e};
    }

    method SessionRead(sid: string, now: int) returns (e: Session)
      requires Valid()
      modifies this`list, this`sessions, this`made, made
      ensures Valid() && made == old(made) + {e} && (sid !in old(sessions) ==> fresh(e))
      ensures Snapshot() == Read(old(Snapshot()), e, sid, now) && sid in sessions && sessions[sid] == e
    {
      if sid in sessions {
        e := sessions[sid];
        SessionUpdate(sid, now);
      } else {
        e := PushNew(sid, now);
      }
    }

    method SessionRegenerate(oldsid: string, sid: string, now: int) returns (e: Session)
      requires Valid()
      modifies this`list, this`sessions, this`made, made
      ensures Valid() && made == old(made) + {e} && (oldsid !in old(sessions) ==> fresh(e))
      ensures Snapshot() == Regenerate(old(Snapshot()), e, oldsid, sid, now)
    {
      if oldsid in sessions {
        e := sessions[oldsid];
        SessionUpdate(oldsid, now);
        e.sid := sid;
        sessions := sessions[sid := e];
        sessions := sessions - {oldsid};
      } else {
        e := PushNew(sid, now);
      }
    }

    method SessionDestroy(sid: string)
      requires Valid()
      modifies this`list, this`sessions
      ensures Valid() && Snapshot() == Destroy(old(Snapshot()), sid)
    {
      if sid in sessions {
        var element := sessions[sid];
        WithoutAll(list, element, made);
        sessions := sessions - {sid};
        list := Without(list, element);
      }
    }

    method SessionGC(now: int)
      requires Valid()
      modifies this`list, this`sessions
      ensures Valid() && Snapshot() == Sweep(old(Snapshot()), maxlifetime, now)
    {
      ghost var goal := Sweep(Snapshot(), maxlifetime, now);
      while true
        invariant Valid() && Sweep(Snapshot(), maxlifetime, now) == goal
        decreases |list|
      {
        if list == [] {
          break;
        }
        var element := list[|list| - 1];
        ghost var before := Snapshot();
        assert element in made && before.cells[element] == element.Contents();
        if Unix(element.timeAccessed) + maxlifetime >= Unix(now) {
          break;
        }
        WithoutAll(list, element, made);
        WithoutLess(list, element);
        list := Without(list, element);
        sessions := sessions - {element.sid};
        assert Snapshot() == Collect(before, element);
      }
    }

    method SessionAll() returns (n: nat)
      ensures n == |list|
    {
      n := |list|;
    }
  }

  lemma WithoutAll(list: seq<Session>, e: Session, made: set<Session>)
    requires forall i :: 0 <= i < |list| ==> list[i] in made
    ensures forall i :: 0 <= i < |Without(list, e)| ==> Without(list, e)[i] in made
  {
    WithoutHas(list, e);
    var r := Without(list, e);
    assert forall i :: 0 <= i < |r| ==> r[i] in r;
    assert forall x :: x in list ==> x in made;
  }
}
