/** What interleaved sections do to sessions: when a collected session is expired, and when ids and list stay matched. */
module SessionRaces {
  import opened Sessions

  // ------------------------------------------------------- used, and collected all the same

  /** Section `k` is an update that reaches `e`. */
  ghost predicate Reaches<E>(schedule: seq<Timed<E>>, k: nat, e: E)
    requires k < |schedule|
  {
    var s := Run(schedule[..k]);
    && schedule[k].section.Updates? && schedule[k].section.sid in s.index && s.index[schedule[k].section.sid] == e
    && e in s.cells
  }

  /** Between `j` and `i` the session of `e` is used at a time that is not stale at `now`. */
  ghost predicate UsedBetween<E>(schedule: seq<Timed<E>>, j: nat, i: nat, e: E, life: int, now: int)
    requires i <= |schedule|
  {
    exists k :: j <= k < i && Reaches(schedule, k, e) && !Stale(schedule[k].at, life, now)
  }

  lemma StaleEarlier(a: int, b: int, life: int, now: int)
    requires a <= b && Stale(b, life, now)
    ensures Stale(a, life, now)
  {
  }

  lemma StaleLater(at: int, life: int, a: int, b: int)
    requires a <= b && Stale(at, life, a)
    ensures Stale(at, life, b)
  {
  }

  /** Time never runs back, and new elements are new. */
  ghost predicate Timely<E>(schedule: seq<Timed<E>>) {
    && (forall i, j :: 0 <= i < j < |schedule| ==> schedule[i].at <= schedule[j].at)
    && (forall i :: 0 <= i < |schedule| && schedule[i].section.Inserts? ==> schedule[i].section.e !in Run(schedule[..i]).cells)
  }

  /** The access time of `e` after one more section. */
  lemma AccessStep<E>(schedule: seq<Timed<E>>, k: nat, e: E)
    requires Timely(schedule) && k < |schedule| && e in Run(schedule[..k]).cells
    ensures e in Run(schedule[..k + 1]).cells
    ensures Run(schedule[..k + 1]).cells[e].at == if Reaches(schedule, k, e) then schedule[k].at else Run(schedule[..k]).cells[e].at
  {
    RunStep(schedule, k);
  }

  lemma InTime<E>(schedule: seq<Timed<E>>, a: nat, b: nat)
    requires Timely(schedule) && a <= b < |schedule|
    ensures schedule[a].at <= schedule[b].at
  {
  }

  lemma FoundStays<E>(schedule: seq<Timed<E>>, life: int, j: nat, e: E, now: int)
    requires j < |schedule| && FoundExpired(schedule, j, e, life) && schedule[j].at <= now
    ensures Expired(Run(schedule[..j + 1]), e, life, now) && !UsedBetween(schedule, j, j + 1, e, life, now)
  {
    RunStep(schedule, j);
    StaleLater(Run(schedule[..j]).cells[e].at, life, schedule[j].at, now);
  }

  /** `e` is expired before section `k` exactly when it was not used in time since `j`. */
  ghost predicate Tracked<E>(schedule: seq<Timed<E>>, j: nat, k: nat, e: E, life: int, now: int)
    requires k <= |schedule|
  {
    e in Run(schedule[..k]).cells && Expired(Run(schedule[..k]), e, life, now) == !UsedBetween(schedule, j, k, e, life, now)
  }

  lemma {:induction false} StaysTracked<E>(schedule: seq<Timed<E>>, life: int, j: nat, m: nat, i: nat, e: E, now: int)
    requires Timely(schedule) && j <= m <= i <= |schedule| && Tracked(schedule, j, m, e, life, now)
    ensures Tracked(schedule, j, i, e, life, now)
    decreases i
  {
    if m < i {
      StaysTracked(schedule, life, j, m, i - 1, e, now);
      StaysStep(schedule, life, j, i - 1, i, e, now);
    }
  }

  lemma StaysStep<E>(schedule: seq<Timed<E>>, life: int, j: nat, k: nat, i: nat, e: E, now: int)
    requires Timely(schedule) && j <= k < |schedule| && i == k + 1 && Tracked(schedule, j, k, e, life, now)
    ensures Tracked(schedule, j, i, e, life, now)
  {
    AccessStep(schedule, k, e);
    UsedLater(schedule, life, j, k, e, now);
  }

  lemma UsedLater<E>(schedule: seq<Timed<E>>, life: int, j: nat, k: nat, e: E, now: int)
    requires Timely(schedule) && j <= k < |schedule|
    ensures UsedBetween(schedule, j, k + 1, e, life, now) <==>
              UsedBetween(schedule, j, k, e, life, now) || (Reaches(schedule, k, e) && !Stale(schedule[k].at, life, now))
    ensures Stale(schedule[k].at, life, now) ==> !UsedBetween(schedule, j, k, e, life, now)
  {
    if Stale(schedule[k].at, life, now) {
      forall m | j <= m < k
        ensures Stale(schedule[m].at, life, now)
      {
        StaleEarlier(schedule[m].at, schedule[k].at, life, now);
      }
    }
  }

  /** The session the collector removes is expired at that moment exactly when no use in time came between its look
      and its removal. */
  lemma CollectedExpired<E>(schedule: seq<Timed<E>>, life: int, j: nat, i: nat, e: E)
    requires Legal(schedule, life) && j < i < |schedule| && FoundExpired(schedule, j, e, life)
    requires schedule[i].section == Collects(e)
    ensures Expired(Run(schedule[..i]), e, life, schedule[i].at) == !UsedBetween(schedule, j, i, e, life, schedule[i].at)
  {
    InTime(schedule, j, i);
    FoundStays(schedule, life, j, e, schedule[i].at);
    assert Tracked(schedule, j, j + 1, e, life, schedule[i].at);
    StaysTracked(schedule, life, j, j + 1, i, e, schedule[i].at);
  }

  // ------------------------------------------------------------- matched under every section

  /** When a section keeps ids and list elements matched. */
  predicate Guard<E>(s: State<E>, section: Section<E>) {
    match section
    case Inserts(e, sid) => sid !in s.index
    case Collects(e) => e in s.cells && e !in s.list ==> s.cells[e].sid !in s.index
    case Renames(e, oldsid, sid) =>
      if e !in s.cells then true
      else if e !in s.list then sid == oldsid && sid !in s.index
      else if oldsid == s.cells[e].sid then sid !in s.index
      else sid == s.cells[e].sid && oldsid !in s.index
    case _ => true
  }

  lemma {:induction false} WithoutAbsent<E>(list: seq<E>, e: E)
    requires e !in list
    ensures Without(list, e) == list
    decreases |list|
  {
    if list != [] {
      assert list == [list[0]] + list[1..];
      WithoutAbsent(list[1..], e);
    }
  }

  lemma CollectGuard<E>(s: State<E>, e: E)
    requires Matched(s) && e in s.cells && e !in s.list
    ensures Matched(Collect(s, e)) <==> s.cells[e].sid !in s.index
  {
    var sid, s' := s.cells[e].sid, Collect(s, e);
    WithoutAbsent(s.list, e);
    if sid in s.index {
      var k :| 0 <= k < |s.list| && s.list[k] == s.index[sid];
      assert s'.list[k] == s.index[sid] && s'.cells[s'.list[k]].sid !in s'.index;
    } else {
      assert s'.index == s.index;
    }
  }

  lemma RenameAbsent<E>(s: State<E>, e: E, oldsid: string, sid: string)
    requires Matched(s) && e in s.cells && e !in s.list
    ensures Matched(Rename(s, e, oldsid, sid)) <==> sid == oldsid && sid !in s.index
  {
    var s' := Rename(s, e, oldsid, sid);
    if sid != oldsid {
      assert sid in s'.index && s'.index[sid] == e;
    } else if sid in s.index {
      var k :| 0 <= k < |s.list| && s.list[k] == s.index[sid];
      assert s'.list[k] == s.index[sid];
    }
  }

  lemma RenameOther<E>(s: State<E>, e: E, oldsid: string, sid: string)
    requires Matched(s) && e in s.list && e in s.cells && oldsid != s.cells[e].sid
    ensures Matched(Rename(s, e, oldsid, sid)) <==> sid == s.cells[e].sid && oldsid !in s.index
  {
    var s' := Rename(s, e, oldsid, sid);
    var k :| 0 <= k < |s.list| && s.list[k] == e;
    if sid != s.cells[e].sid {
      assert s.cells[e].sid in s'.index && s'.index[s.cells[e].sid] == e && s'.cells[e].sid == sid;
    } else if oldsid in s.index {
      var m :| 0 <= m < |s.list| && s.list[m] == s.index[oldsid];
      assert s'.list[m] == s.index[oldsid];
    }
  }

  /** A section keeps ids and list matched exactly under its guard. */
  lemma SectionMatched<E>(s: State<E>, now: int, section: Section<E>)
    requires Matched(s) && (section.Inserts? ==> section.e !in s.cells)
    ensures Matched(Do(s, now, section)) <==> Guard(s, section)
  {
    match section
    case Inserts(e, sid) => InsertMatched(s, e, sid, now);
    case Updates(sid) => UpdateMatched(s, sid, now);
    case Renames(e, oldsid, sid) =>
      if e in s.cells {
        if e !in s.list {
          RenameAbsent(s, e, oldsid, sid);
        } else if oldsid == s.cells[e].sid {
          RenameMatched(s, oldsid, sid);
        } else {
          RenameOther(s, e, oldsid, sid);
        }
      }
    case Destroys(sid) =>
      if sid in s.index {
        RemoveMatched(s, s.index[sid]);
      }
    case Check =>
    case Collects(e) =>
      if e in s.list {
        RemoveMatched(s, e);
      } else if e in s.cells {
        CollectGuard(s, e);
      }
    case Puts(e, key, value) => PutMatched(s, e, key, value);
  }

  ghost predicate AlwaysMatched<E>(schedule: seq<Timed<E>>) {
    forall n :: 0 <= n <= |schedule| ==> Matched(Run(schedule[..n]))
  }

  ghost predicate AlwaysGuarded<E>(schedule: seq<Timed<E>>) {
    forall n :: 0 <= n < |schedule| ==> Guard(Run(schedule[..n]), schedule[n].section)
  }

  /** Under an interleaving ids and list stay matched throughout exactly when every section meets its guard. */
  lemma RunMatched<E>(schedule: seq<Timed<E>>, life: int)
    requires Legal(schedule, life)
    ensures AlwaysMatched(schedule) <==> AlwaysGuarded(schedule)
  {
    if AlwaysMatched(schedule) {
      forall n | 0 <= n < |schedule|
        ensures Guard(Run(schedule[..n]), schedule[n].section)
      {
        RunStep(schedule, n);
        assert Matched(Run(schedule[..n + 1]));
        SectionMatched(Run(schedule[..n]), schedule[n].at, schedule[n].section);
      }
    }
    if AlwaysGuarded(schedule) {
      forall n | 0 <= n <= |schedule|
        ensures Matched(Run(schedule[..n]))
      {
        GuardedMatched(schedule, life, n);
      }
    }
  }

  lemma {:induction false} GuardedMatched<E>(schedule: seq<Timed<E>>, life: int, n: nat)
    requires Legal(schedule, life) && AlwaysGuarded(schedule) && n <= |schedule|
    ensures Matched(Run(schedule[..n]))
    decreases n
  {
    if n > 0 {
      GuardedMatched(schedule, life, n - 1);
      RunStep(schedule, n - 1);
      SectionMatched(Run(schedule[..n - 1]), schedule[n - 1].at, schedule[n - 1].section);
    }
  }

  /** A session found expired, destroyed and made again under the same id, before the collector removes it. */
  function Replaced(life: nat): seq<Timed<int>> {
    var now := (life + 1) * NANOS;
    [Timed(0, Inserts(0, "a")), Timed(now, Check), Timed(now, Destroys("a")), Timed(now, Inserts(1, "a")), Timed(now, Collects(0))]
  }

  /** The collector then takes the new session's id away, though that never expired, and leaves it in the list. */
  lemma ReplacedOrphaned(life: nat)
    ensures Legal(Replaced(life), life)
    ensures var now, s, s' := Replaced(life)[4].at, Run(Replaced(life)[..4]), Run(Replaced(life));
            && "a" in s.index && s.index["a"] == 1 && Matched(s) && !Expired(s, 1, life, now)
            && "a" !in s'.index && s'.list == [1] && !Matched(s')
  {
    var schedule, now := Replaced(life), (life + 1) * NANOS;
    ReplacedRun(life);
    assert schedule[..5] == schedule;
    RunStep(schedule, 4);
    WithoutAbsent([1], 0);
    CollectGuard(Run(schedule[..4]), 0);
  }

  lemma ReplacedRun(life: nat)
    ensures var schedule, now := Replaced(life), (life + 1) * NANOS;
            && Run(schedule[..1]) == State(map["a" := 0], [0], map[0 := Data("a", 0, map[])])
            && Run(schedule[..2]) == Run(schedule[..1])
            && Run(schedule[..3]) == State(map[], [], map[0 := Data("a", 0, map[])])
            && Run(schedule[..4]) == State(map["a" := 1], [1], map[0 := Data("a", 0, map[]), 1 := Data("a", now, map[])])
            && FoundExpired(schedule, 1, 0, life)
  {
    var schedule, now := Replaced(life), (life + 1) * NANOS;
    assert schedule[..0] == [];
    RunStep(schedule, 0);
    RunStep(schedule, 1);
    RunStep(schedule, 2);
    RunStep(schedule, 3);
    assert Unix(now) == life + 1 && Unix(0) == 0;
    assert Without([0], 0) == [];
    assert [1] + [] == [1] && [0] + [] == [0];
  }
}
