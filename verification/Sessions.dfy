/** The in-memory session provider as values: a map from ids to list elements, and a list ordered by access time.
    `E` stands for the elements of the list; a removed element keeps its contents. */
module Sessions {

  datatype Data = Data(sid: string, at: int, values: map<string, string>)

  datatype State<E(==)> = State(index: map<string, E>, list: seq<E>, cells: map<E, Data>)

  const NANOS := 1_000_000_000

  /** Whole seconds of a time in nanoseconds. */
  function Unix(t: int): int {
    t / NANOS
  }

  predicate Stale(at: int, life: int, now: int) {
    Unix(at) + life < Unix(now)
  }

  predicate Expired<E>(s: State<E>, e: E, life: int, now: int) {
    e in s.cells && Stale(s.cells[e].at, life, now)
  }

  /** `list.Remove(e)`, which does nothing when `e` is not in the list. */
  function Without<E(==)>(list: seq<E>, e: E): (r: seq<E>)
    ensures |r| <= |list|
  {
    if list == [] then []
    else if list[0] == e then Without(list[1..], e)
    else [list[0]] + Without(list[1..], e)
  }

  lemma {:induction false} WithoutHas<E>(list: seq<E>, e: E)
    ensures forall x :: x in Without(list, e) <==> x in list && x != e
  {
    if list != [] {
      WithoutHas(list[1..], e);
      assert list == [list[0]] + list[1..];
    }
  }

  // ------------------------------------------------- the sections under the lock

  function Insert<E>(s: State<E>, e: E, sid: string, now: int): State<E> {
    State(s.index[sid := e], [e] + s.list, s.cells[e := Data(sid, now, map[])])
  }

  function Update<E>(s: State<E>, sid: string, now: int): State<E> {
    if sid !in s.index then s
    else
      var e := s.index[sid];
      if e !in s.cells then s
      else State(s.index, if e in s.list then [e] + Without(s.list, e) else s.list, s.cells[e := s.cells[e].(at := now)])
  }

  function Rename<E>(s: State<E>, e: E, oldsid: string, sid: string): State<E> {
    if e !in s.cells then s
    else State(s.index[sid := e] - {oldsid}, s.list, s.cells[e := s.cells[e].(sid := sid)])
  }

  function Destroy<E>(s: State<E>, sid: string): State<E> {
    if sid !in s.index then s else State(s.index - {sid}, Without(s.list, s.index[sid]), s.cells)
  }

  /** What the collector does to an element it found expired, possibly some time ago. */
  function Collect<E>(s: State<E>, e: E): State<E> {
    if e !in s.cells then s else State(s.index - {s.cells[e].sid}, Without(s.list, e), s.cells)
  }

  function Put<E>(s: State<E>, e: E, key: string, value: string): State<E> {
    if e !in s.cells then s
    else s.(cells := s.cells[e := s.cells[e].(values := s.cells[e].values[key := value])])
  }

  // ------------------------------------------------------------- every interleaving

  /** One section of some call. `Check` is the collector looking at the back of the list. */
  datatype Section<E> =
    | Inserts(e: E, sid: string)
    | Updates(sid: string)
    | Renames(e: E, oldsid: string, sid: string)
    | Destroys(sid: string)
    | Check
    | Collects(e: E)
    | Puts(e: E, key: string, value: string)

  datatype Timed<E> = Timed(at: int, section: Section<E>)

  datatype Verdict<E> = Doomed(e: E) | Stops

  function Verdicts<E>(s: State<E>, life: int, now: int): Verdict<E> {
    if s.list != [] && Expired(s, s.list[|s.list| - 1], life, now) then Doomed(s.list[|s.list| - 1]) else Stops
  }

  function Do<E>(s: State<E>, now: int, section: Section<E>): State<E> {
    match section
    case Inserts(e, sid) => Insert(s, e, sid, now)
    case Updates(sid) => Update(s, sid, now)
    case Renames(e, oldsid, sid) => Rename(s, e, oldsid, sid)
    case Destroys(sid) => Destroy(s, sid)
    case Check => s
    case Collects(e) => Collect(s, e)
    case Puts(e, key, value) => Put(s, e, key, value)
  }

  /** The state after the first sections of a schedule, the earliest first. */
  function Run<E>(schedule: seq<Timed<E>>): State<E> {
    if schedule == [] then State(map[], [], map[])
    else Do(Run(schedule[..|schedule| - 1]), schedule[|schedule| - 1].at, schedule[|schedule| - 1].section)
  }

  /** A schedule the program can produce: time never runs back, new elements are new, and the collector removes
      only what it found expired before. */
  ghost predicate Legal<E>(schedule: seq<Timed<E>>, life: int) {
    && (forall i, j :: 0 <= i < j < |schedule| ==> schedule[i].at <= schedule[j].at)
    && (forall i :: 0 <= i < |schedule| && schedule[i].section.Inserts? ==> schedule[i].section.e !in Run(schedule[..i]).cells)
    && (forall i :: 0 <= i < |schedule| && schedule[i].section.Collects? ==> exists j :: 0 <= j < i && FoundExpired(schedule, j, schedule[i].section.e, life))
  }

  ghost predicate FoundExpired<E>(schedule: seq<Timed<E>>, j: nat, e: E, life: int)
    requires j < |schedule|
  {
    schedule[j].section == Check && Verdicts(Run(schedule[..j]), life, schedule[j].at) == Doomed(e)
  }

  /** Newest first, no element twice, nothing accessed after `now`. */
  ghost predicate Ordered<E>(s: State<E>, now: int) {
    && (forall i :: 0 <= i < |s.list| ==> s.list[i] in s.cells && s.cells[s.list[i]].at <= now)
    && (forall i, j :: 0 <= i < j < |s.list| ==> s.list[i] != s.list[j] && s.cells[s.list[i]].at >= s.cells[s.list[j]].at)
  }

  lemma {:induction false} WithoutOrdered<E>(s: State<E>, list: seq<E>, e: E, now: int)
    requires Ordered(s.(list := list), now)
    ensures Ordered(s.(list := Without(list, e)), now)
    decreases |list|
  {
    if list != [] {
      var tail := list[1..];
      assert Ordered(s.(list := tail), now) by {
        assert forall i :: 0 <= i < |tail| ==> tail[i] == list[i + 1];
      }
      WithoutOrdered(s, tail, e, now);
      var r := Without(tail, e);
      WithoutHas(tail, e);
      if list[0] != e {
        PushOrdered(s, list[0], r, now);
      }
    }
  }

  lemma PushOrdered<E>(s: State<E>, e: E, list: seq<E>, now: int)
    requires Ordered(s.(list := list), now) && e in s.cells && e !in list && s.cells[e].at <= now
    requires forall x :: x in list ==> x in s.cells && s.cells[x].at <= s.cells[e].at
    ensures Ordered(s.(list := [e] + list), now)
  {
    var r := [e] + list;
    assert forall i :: 0 < i < |r| ==> r[i] == list[i - 1] && r[i] in list;
  }

  /** Each section keeps the list ordered. */
  lemma SectionOrdered<E>(s: State<E>, before: int, now: int, section: Section<E>)
    requires Ordered(s, before) && before <= now
    requires section.Inserts? ==> section.e !in s.cells
    ensures Ordered(Do(s, now, section), now)
  {
    match section
    case Inserts(e, sid) =>
      var s' := Insert(s, e, sid, now);
      assert Ordered(s'.(list := s.list), now);
      PushOrdered(s', e, s.list, now);
      assert s'.(list := [e] + s.list) == s';
    case Updates(sid) =>
      if sid in s.index && s.index[sid] in s.cells {
        UpdateOrdered(s, before, now, sid);
      }
    case Destroys(sid) =>
      if sid in s.index {
        WithoutOrdered(s, s.list, s.index[sid], now);
      }
    case Collects(e) =>
      WithoutOrdered(s, s.list, e, now);
    case _ =>
  }

  lemma UpdateOrdered<E>(s: State<E>, before: int, now: int, sid: string)
    requires Ordered(s, before) && before <= now && sid in s.index && s.index[sid] in s.cells
    ensures Ordered(Update(s, sid, now), now)
  {
    var e := s.index[sid];
    var s' := Update(s, sid, now);
    WithoutOrdered(s, s.list, e, now);
    var rest := Without(s.list, e);
    WithoutHas(s.list, e);
    assert Ordered(s'.(list := rest), now) by {
      assert forall i :: 0 <= i < |rest| ==> rest[i] in rest && rest[i] != e;
    }
    if e in s.list {
      PushOrdered(s', e, rest, now);
    }
  }

  /** Under every interleaving the list stays ordered by access time. */
  lemma {:induction false} RunOrdered<E>(schedule: seq<Timed<E>>, life: int, now: int)
    requires Legal(schedule, life) && (schedule != [] ==> schedule[|schedule| - 1].at <= now)
    ensures Ordered(Run(schedule), now)
    decreases |schedule|
  {
    if schedule != [] {
      var n := |schedule| - 1;
      var front := schedule[..n];
      LegalFront(schedule, life, n);
      RunOrdered(front, life, schedule[n].at);
      SectionOrdered(Run(front), schedule[n].at, schedule[n].at, schedule[n].section);
    }
  }

  lemma LegalFront<E>(schedule: seq<Timed<E>>, life: int, n: nat)
    requires Legal(schedule, life) && n <= |schedule|
    ensures Legal(schedule[..n], life)
  {
    var front := schedule[..n];
    assert forall i :: 0 <= i <= n ==> front[..i] == schedule[..i];
    forall i | 0 <= i < |front| && front[i].section.Collects?
      ensures exists j :: 0 <= j < i && FoundExpired(front, j, front[i].section.e, life)
    {
      var j :| 0 <= j < i && FoundExpired(schedule, j, schedule[i].section.e, life);
      assert FoundExpired(front, j, front[i].section.e, life);
    }
  }

  /** When the collector stops, at whatever point of whatever interleaving, nothing left in the list is expired. */
  lemma CollectorStops<E>(schedule: seq<Timed<E>>, life: int, now: int, e: E)
    requires Legal(schedule, life) && (schedule != [] ==> schedule[|schedule| - 1].at <= now)
    requires Verdicts(Run(schedule), life, now) == Stops && e in Run(schedule).list
    ensures !Expired(Run(schedule), e, life, now)
  {
    var s := Run(schedule);
    RunOrdered(schedule, life, now);
    var i :| 0 <= i < |s.list| && s.list[i] == e;
  }

  /** A session made at 0, found expired, used, and removed. */
  function Overtaken(life: nat): seq<Timed<int>> {
    var now := (life + 1) * NANOS;
    [Timed(0, Inserts(0, "a")), Timed(now, Check), Timed(now, Updates("a")), Timed(now, Collects(0))]
  }

  lemma RunStep<E>(schedule: seq<Timed<E>>, n: nat)
    requires n < |schedule|
    ensures Run(schedule[..n + 1]) == Do(Run(schedule[..n]), schedule[n].at, schedule[n].section)
  {
    assert schedule[..n + 1][..n] == schedule[..n];
  }

  /** A session used between the collector's look and its removal is lost all the same. */
  lemma UsedButCollected(life: nat)
    ensures Legal(Overtaken(life), life)
    ensures var now, s := Overtaken(life)[3].at, Run(Overtaken(life)[..3]);
            && "a" in s.index && s.index["a"] in s.cells && s.cells[s.index["a"]].at == now && !Expired(s, s.index["a"], life, now)
    ensures "a" !in Run(Overtaken(life)).index && Run(Overtaken(life)).list == []
  {
    var schedule, now := Overtaken(life), (life + 1) * NANOS;
    assert schedule[..0] == [] && schedule[..4] == schedule;
    RunStep(schedule, 0);
    RunStep(schedule, 1);
    RunStep(schedule, 2);
    RunStep(schedule, 3);
    assert Unix(now) == life + 1 && Unix(0) == 0;
    assert FoundExpired(schedule, 1, 0, life);
    assert Without([0], 0) == [];
    assert [0] + [] == [0];
  }

  // ---------------------------------------------------------------- one call at a time

  function Read<E>(s: State<E>, e: E, sid: string, now: int): State<E> {
    if sid in s.index then Update(s, sid, now) else Insert(s, e, sid, now)
  }

  function Regenerate<E>(s: State<E>, e: E, oldsid: string, sid: string, now: int): State<E> {
    if oldsid in s.index then Rename(Update(s, oldsid, now), s.index[oldsid], oldsid, sid) else Insert(s, e, sid, now)
  }

  function Sweep<E>(s: State<E>, life: int, now: int): State<E>
    decreases |s.list|
  {
    match Verdicts(s, life, now)
    case Stops => s
    case Doomed(e) =>
      WithoutLess(s.list, e);
      Sweep(Collect(s, e), life, now)
  }

  lemma {:induction false} WithoutLess<E>(list: seq<E>, e: E)
    requires e in list
    ensures |Without(list, e)| < |list|
  {
    if list[0] != e {
      assert list == [list[0]] + list[1..];
      WithoutLess(list[1..], e);
    }
  }

  /** Every id leads to the one list element that bears it, and every list element is led to. */
  ghost predicate Matched<E>(s: State<E>) {
    && (forall sid :: sid in s.index ==> s.index[sid] in s.list && s.index[sid] in s.cells && s.cells[s.index[sid]].sid == sid)
    && (forall i :: 0 <= i < |s.list| ==> s.list[i] in s.cells && s.cells[s.list[i]].sid in s.index && s.index[s.cells[s.list[i]].sid] == s.list[i])
    && (forall i, j :: 0 <= i < j < |s.list| ==> s.list[i] != s.list[j])
  }

  lemma {:induction false} WithoutApart<E>(list: seq<E>, e: E)
    requires forall i, j :: 0 <= i < j < |list| ==> list[i] != list[j]
    ensures forall i, j :: 0 <= i < j < |Without(list, e)| ==> Without(list, e)[i] != Without(list, e)[j]
    ensures forall i :: 0 <= i < |Without(list, e)| ==> Without(list, e)[i] in list && Without(list, e)[i] != e
    ensures forall x :: x in Without(list, e) <==> x in list && x != e
    decreases |list|
  {
    WithoutHas(list, e);
    if list != [] {
      WithoutApart(list[1..], e);
      WithoutHas(list[1..], e);
      var r := Without(list[1..], e);
      assert forall i :: 0 <= i < |r| ==> r[i] in r;
    }
  }

  lemma {:induction false} MatchedCount<E>(s: State<E>)
    requires Matched(s)
    ensures |s.index| == |s.list|
    decreases |s.list|
  {
    if s.list == [] {
      forall sid
        ensures sid !in s.index
      {
      }
      assert s.index == map[];
    } else {
      var e := s.list[0];
      var sid := s.cells[e].sid;
      var s' := State(s.index - {sid}, s.list[1..], s.cells);
      assert forall i :: 0 <= i < |s'.list| ==> s'.list[i] == s.list[i + 1];
      forall x | x in s'.index
        ensures s'.index[x] in s'.list
      {
        var k :| 0 <= k < |s.list| && s.list[k] == s.index[x];
        assert k > 0 && s'.list[k - 1] == s.index[x];
      }
      MatchedCount(s');
      assert s'.index.Keys == s.index.Keys - {sid};
    }
  }

  lemma InsertTaken<E>(s: State<E>, e: E, sid: string, now: int)
    requires Matched(s) && e !in s.cells && sid in s.index
    ensures !Matched(Insert(s, e, sid, now))
  {
    var s' := Insert(s, e, sid, now);
    var k :| 0 <= k < |s.list| && s.list[k] == s.index[sid];
    assert s'.list[k + 1] == s.index[sid] && s'.index[sid] == e;
  }

  lemma InsertMatched<E>(s: State<E>, e: E, sid: string, now: int)
    requires Matched(s) && e !in s.cells
    ensures Matched(Insert(s, e, sid, now)) <==> sid !in s.index
  {
    var s' := Insert(s, e, sid, now);
    assert forall i :: 0 < i < |s'.list| ==> s'.list[i] == s.list[i - 1];
    if sid in s.index {
      InsertTaken(s, e, sid, now);
    } else {
      forall x | x in s'.index
        ensures s'.index[x] in s'.list
      {
        assert s'.list == [e] + s.list;
      }
    }
  }

  lemma UpdateMatched<E>(s: State<E>, sid: string, now: int)
    requires Matched(s)
    ensures Matched(Update(s, sid, now))
  {
    if sid in s.index {
      var e, s' := s.index[sid], Update(s, sid, now);
      WithoutApart(s.list, e);
      assert s'.list == [e] + Without(s.list, e);
    }
  }

  lemma RemoveMatched<E>(s: State<E>, e: E)
    requires Matched(s) && e in s.list
    ensures Matched(Collect(s, e)) && Destroy(s, s.cells[e].sid) == Collect(s, e)
  {
    WithoutApart(s.list, e);
  }

  lemma RenameMatched<E>(s: State<E>, oldsid: string, sid: string)
    requires Matched(s) && oldsid in s.index
    ensures Matched(Rename(s, s.index[oldsid], oldsid, sid)) <==> sid !in s.index
  {
    var e := s.index[oldsid];
    var s' := Rename(s, e, oldsid, sid);
    if sid in s.index {
      var k :| 0 <= k < |s.list| && s.list[k] == s.index[sid];
      assert s'.list[k] == s.index[sid];
    }
  }

  /** A regenerated id must be new, or the ids and the list no longer match. */
  lemma RegenerateMatched<E>(s: State<E>, e: E, oldsid: string, sid: string, now: int)
    requires Matched(s) && e !in s.cells
    ensures Matched(Regenerate(s, e, oldsid, sid, now)) <==> sid !in s.index
  {
    if oldsid in s.index {
      UpdateMatched(s, oldsid, now);
      RenameMatched(Update(s, oldsid, now), oldsid, sid);
    } else {
      InsertMatched(s, e, sid, now);
    }
  }

  /** Regenerating moves a session's values to the new id; every other id keeps its session. */
  lemma RegenerateKeeps<E>(s: State<E>, e: E, oldsid: string, sid: string, now: int)
    requires Matched(s) && oldsid in s.index && sid !in s.index
    ensures var s' := Regenerate(s, e, oldsid, sid, now);
            && oldsid !in s'.index && s'.index.Keys == s.index.Keys - {oldsid} + {sid}
            && s'.index[sid] in s'.cells && s'.cells[s'.index[sid]] == Data(sid, now, s.cells[s.index[oldsid]].values)
            && forall x :: x in s.index && x != oldsid ==> s'.index[x] == s.index[x] && s'.cells[s.index[x]] == s.cells[s.index[x]]
  {
  }

  lemma {:induction false} SweepSpec<E>(s: State<E>, life: int, now: int)
    requires Matched(s) && Ordered(s, now)
    ensures var s' := Sweep(s, life, now);
            && Matched(s') && Ordered(s', now) && s'.cells == s.cells
            && forall e :: e in s'.list <==> e in s.list && !Expired(s, e, life, now)
    decreases |s.list|
  {
    match Verdicts(s, life, now)
    case Stops =>
      if s.list != [] {
        var last := s.list[|s.list| - 1];
        assert forall i :: 0 <= i < |s.list| ==> s.cells[s.list[i]].at >= s.cells[last].at;
      }
    case Doomed(e) =>
      WithoutLess(s.list, e);
      RemoveMatched(s, e);
      WithoutOrdered(s, s.list, e, now);
      WithoutHas(s.list, e);
      SweepSpec(Collect(s, e), life, now);
  }

  // ------------------------------------------------------------- what each call changes

  /** A session is stale exactly when more than `life` whole seconds, of 10^9 nanoseconds, have begun since its last use. */
  lemma StaleSeconds(second: int, x: nat, later: int, y: nat, life: int)
    requires x < 1_000_000_000 && y < 1_000_000_000
    ensures Stale(second * 1_000_000_000 + x, life, later * 1_000_000_000 + y) <==> later - second > life
  {
    WholeSeconds(second, x);
    WholeSeconds(later, y);
  }

  lemma WholeSeconds(second: int, x: nat)
    requires x < 1_000_000_000
    ensures Unix(second * 1_000_000_000 + x) == second
  {
  }

  /** All ids but those named lead where they led, to the same contents. */
  ghost predicate OtherIds<E>(s: State<E>, s': State<E>, named: set<string>) {
    forall x :: x !in named ==>
      && (x in s.index <==> x in s'.index)
      && (x in s.index && s.index[x] in s.cells ==>
            s'.index[x] == s.index[x] && s.index[x] in s'.cells && s'.cells[s.index[x]] == s.cells[s.index[x]])
  }

  /** `list'` is `list` with `e` taken out of its place and put in front. */
  ghost predicate ToFront<E>(list: seq<E>, list': seq<E>, e: E) {
    exists k :: 0 <= k < |list| && list[k] == e && list' == [e] + list[..k] + list[k + 1..]
  }

  ghost predicate TakenFrom<E>(list: seq<E>, list': seq<E>, e: E) {
    exists k :: 0 <= k < |list| && list[k] == e && list' == list[..k] + list[k + 1..]
  }

  /** In a list without repetition one element is taken out. */
  lemma {:induction false} WithoutTakes<E>(list: seq<E>, e: E) returns (k: nat)
    requires e in list && forall i, j :: 0 <= i < j < |list| ==> list[i] != list[j]
    ensures k < |list| && list[k] == e && Without(list, e) == list[..k] + list[k + 1..]
    decreases |list|
  {
    var tail := list[1..];
    if list[0] == e {
      k := 0;
      WithoutNone(tail, e);
    } else {
      assert list == [list[0]] + tail;
      var q := WithoutTakes(tail, e);
      k := q + 1;
      assert list[..k] == [list[0]] + tail[..q] && list[k + 1..] == tail[q + 1..];
    }
  }

  lemma {:induction false} WithoutNone<E>(list: seq<E>, e: E)
    requires e !in list
    ensures Without(list, e) == list
  {
    if list != [] {
      WithoutNone(list[1..], e);
    }
  }

  /** Touching a live session sets its access time and moves it to the front; it keeps its values, and all others stay. */
  lemma TouchEffect<E>(s: State<E>, sid: string, now: int)
    requires Matched(s)
    ensures sid !in s.index ==> Update(s, sid, now) == s
    ensures sid in s.index ==>
              var s', e := Update(s, sid, now), s.index[sid];
              && s'.index == s.index && e in s.cells && e in s'.cells
              && s'.cells[e] == Data(sid, now, s.cells[e].values)
              && OtherIds(s, s', {sid}) && ToFront(s.list, s'.list, e)
  {
    if sid in s.index {
      var e := s.index[sid];
      var k := WithoutTakes(s.list, e);
      assert Update(s, sid, now).list == [e] + s.list[..k] + s.list[k + 1..];
    }
  }

  /** A first read makes an empty session at the front; any other touches the one there is. */
  lemma ReadEffect<E>(s: State<E>, e: E, sid: string, now: int)
    requires Matched(s) && e !in s.cells
    ensures sid in s.index ==> Read(s, e, sid, now) == Update(s, sid, now)
    ensures sid !in s.index ==>
              var s' := Read(s, e, sid, now);
              && sid in s'.index && s'.index[sid] == e && e in s'.cells && s'.cells[e] == Data(sid, now, map[])
              && OtherIds(s, s', {sid}) && s'.list == [e] + s.list
  {
  }

  /** Destroying takes the session out, wherever it stands, and nothing else. */
  lemma DropEffect<E>(s: State<E>, sid: string)
    requires Matched(s)
    ensures sid !in s.index ==> Destroy(s, sid) == s
    ensures sid in s.index ==>
              var s' := Destroy(s, sid);
              sid !in s'.index && OtherIds(s, s', {sid}) && s'.cells == s.cells && TakenFrom(s.list, s'.list, s.index[sid])
  {
    if sid in s.index {
      var k := WithoutTakes(s.list, s.index[sid]);
    }
  }

  /** Regenerating moves the session to the front under its new id, or makes an empty one. */
  lemma RegenerateEffect<E>(s: State<E>, e: E, oldsid: string, sid: string, now: int)
    requires Matched(s) && e !in s.cells && sid !in s.index
    ensures oldsid in s.index ==> ToFront(s.list, Regenerate(s, e, oldsid, sid, now).list, s.index[oldsid])
    ensures oldsid !in s.index ==> Regenerate(s, e, oldsid, sid, now) == Read(s, e, sid, now)
  {
    if oldsid in s.index {
      TouchEffect(s, oldsid, now);
    }
  }

  /** Setting a value changes that value of that session only. */
  lemma SetEffect<E>(s: State<E>, sid: string, key: string, value: string)
    requires Matched(s) && sid in s.index
    ensures var s', e := Put(s, s.index[sid], key, value), s.index[sid];
            && s'.index == s.index && s'.list == s.list && OtherIds(s, s', {sid}) && e in s.cells && e in s'.cells
            && s'.cells[e] == Data(sid, s.cells[e].at, s.cells[e].values[key := value])
  {
  }

  /** Sweeping keeps exactly the ids whose sessions are not expired. */
  lemma SweepEffect<E>(s: State<E>, life: int, now: int)
    requires Matched(s) && Ordered(s, now)
    ensures var s' := Sweep(s, life, now);
            forall sid :: sid in s'.index <==> sid in s.index && !Expired(s, s.index[sid], life, now)
    ensures forall sid :: sid in Sweep(s, life, now).index ==> sid in s.index && Sweep(s, life, now).index[sid] == s.index[sid]
  {
    var s' := Sweep(s, life, now);
    SweepSpec(s, life, now);
    forall sid | sid in s'.index
      ensures sid in s.index && s'.index[sid] == s.index[sid] && !Expired(s, s.index[sid], life, now)
    {
      SweptId(s, s', sid, life, now);
    }
    forall sid | sid in s.index && !Expired(s, s.index[sid], life, now)
      ensures sid in s'.index
    {
      var e := s.index[sid];
      assert e in s'.list;
      var k :| 0 <= k < |s'.list| && s'.list[k] == e;
    }
  }

  lemma SweptId<E>(s: State<E>, s': State<E>, sid: string, life: int, now: int)
    requires Matched(s) && Matched(s') && s'.cells == s.cells && sid in s'.index
    requires forall e :: e in s'.list <==> e in s.list && !Expired(s, e, life, now)
    ensures sid in s.index && s'.index[sid] == s.index[sid] && !Expired(s, s.index[sid], life, now)
  {
    var e := s'.index[sid];
    assert e in s'.list && e in s.list;
    var k :| 0 <= k < |s.list| && s.list[k] == e;
  }

  // ------------------------------------------------------------- runs of whole calls

  datatype Call<E> =
    | Reads(e: E, sid: string)
    | Touches(sid: string)
    | Regenerates(e: E, oldsid: string, sid: string)
    | Drops(sid: string)
    | Sweeps(life: int)
    | Sets(e: E, key: string, value: string)

  function Made<E>(s: State<E>, now: int, call: Call<E>): State<E> {
    match call
    case Reads(e, sid) => Read(s, e, sid, now)
    case Touches(sid) => Update(s, sid, now)
    case Regenerates(e, oldsid, sid) => Regenerate(s, e, oldsid, sid, now)
    case Drops(sid) => Destroy(s, sid)
    case Sweeps(life) => Sweep(s, life, now)
    case Sets(e, key, value) => Put(s, e, key, value)
  }

  /** New elements are new, and so are regenerated ids. */
  ghost predicate Fresh<E>(s: State<E>, call: Call<E>) {
    match call
    case Reads(e, sid) => e !in s.cells
    case Regenerates(e, oldsid, sid) => e !in s.cells && sid !in s.index
    case _ => true
  }

  lemma RegenerateOrdered<E>(s: State<E>, e: E, oldsid: string, sid: string, before: int, now: int)
    requires Ordered(s, before) && before <= now && e !in s.cells
    ensures Ordered(Regenerate(s, e, oldsid, sid, now), now)
  {
    if oldsid in s.index {
      SectionOrdered(s, before, now, Updates(oldsid));
      SectionOrdered(Update(s, oldsid, now), now, now, Renames(s.index[oldsid], oldsid, sid));
    } else {
      SectionOrdered(s, before, now, Inserts(e, sid));
    }
  }

  lemma CallOrdered<E>(s: State<E>, before: int, now: int, call: Call<E>)
    requires Matched(s) && Ordered(s, before) && before <= now && Fresh(s, call)
    ensures Ordered(Made(s, now, call), now)
  {
    match call
    case Reads(e, sid) => SectionOrdered(s, before, now, if sid in s.index then Updates(sid) else Inserts(e, sid));
    case Touches(sid) => SectionOrdered(s, before, now, Updates(sid));
    case Regenerates(e, oldsid, sid) => RegenerateOrdered(s, e, oldsid, sid, before, now);
    case Drops(sid) => SectionOrdered(s, before, now, Destroys(sid));
    case Sweeps(life) => SweepSpec(s, life, now);
    case Sets(e, key, value) => SectionOrdered(s, before, now, Puts(e, key, value));
  }

  lemma PutMatched<E>(s: State<E>, e: E, key: string, value: string)
    requires Matched(s)
    ensures Matched(Put(s, e, key, value))
  {
  }

  /** Each call keeps the ids matched with the list. */
  lemma CallMatched<E>(s: State<E>, now: int, call: Call<E>)
    requires Matched(s) && Ordered(s, now) && Fresh(s, call)
    ensures Matched(Made(s, now, call))
  {
    match call
    case Reads(e, sid) =>
      if sid in s.index {
        UpdateMatched(s, sid, now);
      } else {
        InsertMatched(s, e, sid, now);
      }
    case Touches(sid) => UpdateMatched(s, sid, now);
    case Regenerates(e, oldsid, sid) => RegenerateMatched(s, e, oldsid, sid, now);
    case Drops(sid) =>
      if sid in s.index {
        RemoveMatched(s, s.index[sid]);
      }
    case Sweeps(life) => SweepSpec(s, life, now);
    case Sets(e, key, value) => PutMatched(s, e, key, value);
  }

  datatype Called<E> = Called(at: int, call: Call<E>)

  function Calls<E>(run: seq<Called<E>>): State<E> {
    if run == [] then State(map[], [], map[])
    else Made(Calls(run[..|run| - 1]), run[|run| - 1].at, run[|run| - 1].call)
  }

  ghost predicate Sensible<E>(run: seq<Called<E>>) {
    && (forall i, j :: 0 <= i < j < |run| ==> run[i].at <= run[j].at)
    && (forall i :: 0 <= i < |run| ==> Fresh(Calls(run[..i]), run[i].call))
  }

  /** Over any run of whole calls, ids and list elements stay in one-to-one correspondence, so the list counts the live ids. */
  lemma {:induction false} CallsMatched<E>(run: seq<Called<E>>, now: int)
    requires Sensible(run) && (run != [] ==> run[|run| - 1].at <= now)
    ensures Matched(Calls(run)) && Ordered(Calls(run), now) && |Calls(run).list| == |Calls(run).index|
    decreases |run|
  {
    if run != [] {
      var n := |run| - 1;
      var front := run[..n];
      assert forall i :: 0 <= i <= n ==> front[..i] == run[..i];
      CallsMatched(front, run[n].at);
      CallOrdered(Calls(front), run[n].at, run[n].at, run[n].call);
      CallMatched(Calls(front), run[n].at, run[n].call);
    }
    MatchedCount(Calls(run));
  }

  /** Two racing first reads of one id leave the list with an element no id leads to. */
  lemma RacingReads(now: int)
    ensures var s := Insert(Insert(State(map[], [], map[]), 0, "a", now), 1, "a", now);
            && |s.list| == 2 && |s.index| == 1 && !Matched(s)
  {
    var s0 := State(map[], [], map[]);
    var s1 := Insert(s0, 0, "a", now);
    InsertMatched(s0, 0, "a", now);
    InsertMatched(s1, 1, "a", now);
  }
}
