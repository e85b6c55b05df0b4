/** The chain of handlers of one request. A handler is the script of what it asks of its context. */
module Chain {

  datatype Act = Next | Skip | Stop

  type Script = seq<Act>

  const STOPPED := -1

  // --------------------------------------------------------------- what the code does

  /** `HandlerIndex(n)`: the new index, or the old one when `n` is out of range. */
  function Moved(count: nat, index: int, n: int): int {
    if n < 0 || n > count - 1 then index else n
  }

  /** How a script ends: the index, the handlers entered, whether it was done before `fuel` nested calls were used up,
      and whether some Skip came while the chain was stopped. */
  datatype Ending = Ending(index: int, entered: seq<nat>, done: bool, revived: bool)

  function Then(a: Ending, b: Ending): Ending {
    Ending(b.index, a.entered + b.entered, b.done, a.revived || b.revived)
  }

  function Play(handlers: seq<Script>, index: int, script: Script, fuel: nat): Ending
    decreases fuel, |script|
  {
    if script == [] then Ending(index, [], true, false)
    else
      match script[0]
      case Stop => Play(handlers, STOPPED, script[1..], fuel)
      case Skip =>
        var rest := Play(handlers, Moved(|handlers|, index, index + 1), script[1..], fuel);
        Then(Ending(index, [], true, index == STOPPED), rest)
      case Next =>
        if index == STOPPED || index + 1 < 0 || index + 1 >= |handlers| then Play(handlers, index, script[1..], fuel)
        else if fuel == 0 then Ending(index, [], false, false)
        else
          var inner := Play(handlers, index + 1, handlers[index + 1], fuel - 1);
          var called := Then(Ending(index, [index + 1], true, false), inner);
          if !inner.done then called else Then(called, Play(handlers, inner.index, script[1..], fuel))
  }

  class Context {
    var handlers: seq<Script>
    var currentHandlerIndex: int
    ghost var entered: seq<nat>

    constructor ()
      ensures handlers == [] && currentHandlerIndex == 0 && entered == []
    {
      handlers, currentHandlerIndex, entered := [], 0, [];
    }

    method HandlerIndex(n: int) returns (current: int)
      modifies this`currentHandlerIndex
      ensures current == currentHandlerIndex == Moved(|handlers|, old(currentHandlerIndex), n)
    {
      if n < 0 || n > |handlers| - 1 {
        return currentHandlerIndex;
      }
      currentHandlerIndex := n;
      return n;
    }

    method SkipNext()
      modifies this`currentHandlerIndex
      ensures currentHandlerIndex == Moved(|handlers|, old(currentHandlerIndex), old(currentHandlerIndex) + 1)
    {
      var _ := HandlerIndex(currentHandlerIndex + 1);
    }

    method StopExecution()
      modifies this`currentHandlerIndex
      ensures currentHandlerIndex == STOPPED
    {
      currentHandlerIndex := STOPPED;
    }

    /** Run a script that ends. */
    method Call(script: Script, ghost fuel: nat)
      requires currentHandlerIndex >= STOPPED && Play(handlers, currentHandlerIndex, script, fuel).done
      modifies this`currentHandlerIndex, this`entered
      ensures var e := Play(handlers, old(currentHandlerIndex), script, fuel);
              currentHandlerIndex == e.index >= STOPPED && entered == old(entered) + e.entered
      decreases fuel, 1
    {
      ghost var e := Play(handlers, currentHandlerIndex, script, fuel);
      for i := 0 to |script|
        invariant currentHandlerIndex >= STOPPED
        invariant var rest := Play(handlers, currentHandlerIndex, script[i..], fuel);
                  rest.done && rest.index == e.index && entered + rest.entered == old(entered) + e.entered
      {
        ghost var rest := Play(handlers, currentHandlerIndex, script[i..], fuel);
        assert script[i..][0] == script[i] && script[i..][1..] == script[i + 1..];
        match script[i] {
          case Stop => StopExecution();
          case Skip => SkipNext();
          case Next => CallNext(fuel, script[i + 1..]);
        }
        assert Play(handlers, currentHandlerIndex, script[i + 1..], fuel).index == rest.index;
      }
    }

    /** Run the next handler, if there is one; `after` is what the caller still has to do. */
    method CallNext(ghost fuel: nat, ghost after: Script)
      requires currentHandlerIndex >= STOPPED && Play(handlers, currentHandlerIndex, [Next] + after, fuel).done
      modifies this`currentHandlerIndex, this`entered
      ensures currentHandlerIndex >= STOPPED
      ensures var whole, rest := Play(handlers, old(currentHandlerIndex), [Next] + after, fuel), Play(handlers, currentHandlerIndex, after, fuel);
              rest.done && rest.index == whole.index && entered + rest.entered == old(entered) + whole.entered
      decreases fuel, 0
    {
      assert ([Next] + after)[1..] == after;
      if currentHandlerIndex == STOPPED {
        return;
      }
      var current := HandlerIndex(-1);
      var n := current + 1;
      if n < |handlers| {
        current := HandlerIndex(n);
        entered := entered + [n];
        Call(handlers[n], fuel - 1);
      }
    }

    /** Run the handlers of a request from the first; the index is where the request began, at 0. */
    method Do(handlers: seq<Script>)
      requires handlers != [] && currentHandlerIndex >= STOPPED && Ends(handlers, currentHandlerIndex, handlers[0])
      modifies this
      ensures this.handlers == handlers
      ensures var e := Play(handlers, old(currentHandlerIndex), handlers[0], |handlers|);
              e.done && currentHandlerIndex == e.index && entered == old(entered) + [0] + e.entered
      ensures forall fuel :: var e := Play(handlers, old(currentHandlerIndex), handlers[0], fuel);
                e.done ==> currentHandlerIndex == e.index && entered == old(entered) + [0] + e.entered
    {
      ghost var index, fuel: nat := currentHandlerIndex, |handlers|;
      EndsExactly(handlers, index, handlers[0]);
      this.handlers := handlers;
      entered := entered + [0];
      Call(handlers[0], fuel);
      forall other | Play(handlers, index, handlers[0], other).done
        ensures Play(handlers, index, handlers[0], other) == Play(handlers, index, handlers[0], fuel)
      {
        SameEnding(handlers, index, handlers[0], other, fuel);
      }
    }
  }

  /** The script ends, however deep its calls nest. */
  ghost predicate Ends(handlers: seq<Script>, index: int, script: Script) {
    exists fuel :: Play(handlers, index, script, fuel).done
  }

  ghost function EnoughFor(handlers: seq<Script>, index: int, script: Script): (fuel: nat)
    requires Ends(handlers, index, script)
    ensures Play(handlers, index, script, fuel).done
  {
    var fuel :| Play(handlers, index, script, fuel).done;
    fuel
  }

  // -------------------------------------------------------------------- what it means

  ghost predicate Increasing(s: seq<nat>, low: int, high: int) {
    && (forall i :: 0 <= i < |s| ==> low < s[i] < high)
    && (forall i, j :: 0 <= i < j < |s| ==> s[i] < s[j])
  }

  /** The last handler entered, or `index`. */
  function Reached(entered: seq<nat>, index: int): int {
    if entered == [] then index else entered[|entered| - 1]
  }

  lemma IncreasingConcat(a: seq<nat>, b: seq<nat>, low: int, mid: int, high: int)
    requires Increasing(a, low, high) && Increasing(b, mid, high) && low <= mid && Reached(a, low) <= mid
    ensures Increasing(a + b, low, high)
  {
  }

  /** From a stopped chain nothing is entered, unless a Skip revives it. */
  lemma {:induction false} StoppedStays(handlers: seq<Script>, script: Script, fuel: nat)
    requires !Play(handlers, STOPPED, script, fuel).revived
    ensures Play(handlers, STOPPED, script, fuel) == Ending(STOPPED, [], true, false)
    decreases |script|
  {
    if script != [] {
      StoppedStays(handlers, script[1..], fuel);
    }
  }

  /** A chain that no Skip revives ends, enters its handlers in increasing order, and keeps its index in range. */
  lemma {:induction false} PlaySpec(handlers: seq<Script>, index: int, script: Script, fuel: nat)
    requires 0 <= index < |handlers| && fuel >= |handlers| - 1 - index && !Play(handlers, index, script, fuel).revived
    ensures var e := Play(handlers, index, script, fuel);
            && e.done && Increasing(e.entered, index, |handlers|)
            && (e.index == STOPPED || Reached(e.entered, index) <= e.index < |handlers|)
    decreases fuel, |script|, 1
  {
    if script != [] {
      var rest := script[1..];
      match script[0]
      case Stop => StoppedStays(handlers, rest, fuel);
      case Skip =>
        var index' := Moved(|handlers|, index, index + 1);
        PlaySpec(handlers, index', rest, fuel);
        IncreasingConcat([], Play(handlers, index', rest, fuel).entered, index, index', |handlers|);
      case Next =>
        if index + 1 < |handlers| {
          NextSpec(handlers, index, rest, fuel);
        } else {
          PlaySpec(handlers, index, rest, fuel);
        }
    }
  }

  lemma {:induction false} NextSpec(handlers: seq<Script>, index: int, rest: Script, fuel: nat)
    requires 0 <= index && index + 1 < |handlers| && fuel >= |handlers| - 1 - index && !Play(handlers, index, [Next] + rest, fuel).revived
    ensures var e := Play(handlers, index, [Next] + rest, fuel);
            && e.done && Increasing(e.entered, index, |handlers|)
            && (e.index == STOPPED || Reached(e.entered, index) <= e.index < |handlers|)
    decreases fuel, |rest| + 1, 0
  {
    var inner := Play(handlers, index + 1, handlers[index + 1], fuel - 1);
    assert ([Next] + rest)[1..] == rest;
    PlaySpec(handlers, index + 1, handlers[index + 1], fuel - 1);
    var first := [index + 1 as nat];
    IncreasingConcat(first, inner.entered, index, index + 1, |handlers|);
    if inner.index == STOPPED {
      StoppedStays(handlers, rest, fuel);
    } else {
      PlaySpec(handlers, inner.index, rest, fuel);
      IncreasingConcat(first + inner.entered, Play(handlers, inner.index, rest, fuel).entered, index, inner.index, |handlers|);
    }
  }

  /** Running one script after another. */
  lemma {:induction false} PlayConcat(handlers: seq<Script>, index: int, a: Script, b: Script, fuel: nat)
    requires Play(handlers, index, a, fuel).done
    ensures Play(handlers, index, a + b, fuel) == Then(Play(handlers, index, a, fuel), Play(handlers, Play(handlers, index, a, fuel).index, b, fuel))
    decreases |a|
  {
    if a == [] {
      assert a + b == b;
    } else {
      assert (a + b)[0] == a[0] && (a + b)[1..] == a[1..] + b;
      match a[0]
      case Stop => PlayConcat(handlers, STOPPED, a[1..], b, fuel);
      case Skip => PlayConcat(handlers, Moved(|handlers|, index, index + 1), a[1..], b, fuel);
      case Next =>
        if index == STOPPED || index + 1 < 0 || index + 1 >= |handlers| {
          PlayConcat(handlers, index, a[1..], b, fuel);
        } else {
          PlayConcat(handlers, Play(handlers, index + 1, handlers[index + 1], fuel - 1).index, a[1..], b, fuel);
        }
    }
  }

  // ---------------------------------------------------------------- after a stop

  /** How many Skips stand before position `j`, back to the last Stop, or to the start with `k` more. */
  function SkipsTo(script: Script, j: nat, k: nat): nat
    requires j <= |script|
  {
    if j == 0 then k
    else if script[j - 1] == Stop then 0
    else SkipsTo(script, j - 1, k) + if script[j - 1] == Skip then 1 else 0
  }

  /** No Next comes where the Skips since the last Stop have left `count` handlers behind some but not all. */
  ghost predicate QuietFrom(count: nat, script: Script, k: nat) {
    forall j :: 0 <= j < |script| && script[j] == Next ==> !(1 <= SkipsTo(script, j, k) <= count - 1)
  }

  ghost predicate Quiet(count: nat, script: Script) {
    QuietFrom(count, script, 0)
  }

  /** The index of a chain that was stopped, `k` Skips later. */
  function Revived(count: nat, k: nat): int {
    if k < count then k - 1 else count - 1
  }

  function AfterAct(act: Act, k: nat): nat {
    match act
    case Stop => 0
    case Skip => k + 1
    case Next => k
  }

  lemma {:induction false} SkipsTail(script: Script, j: nat, k: nat)
    requires script != [] && 1 <= j <= |script|
    ensures SkipsTo(script, j, k) == SkipsTo(script[1..], j - 1, AfterAct(script[0], k))
    decreases j
  {
    if j > 1 {
      SkipsTail(script, j - 1, k);
    }
  }

  lemma QuietTail(count: nat, script: Script, k: nat)
    requires script != []
    ensures QuietFrom(count, script, k) <==>
              (script[0] == Next ==> !(1 <= k <= count - 1)) && QuietFrom(count, script[1..], AfterAct(script[0], k))
  {
    var rest := script[1..];
    forall j | 1 <= j < |script|
      ensures script[j] == rest[j - 1] && SkipsTo(script, j, k) == SkipsTo(rest, j - 1, AfterAct(script[0], k))
    {
      SkipsTail(script, j, k);
    }
    if QuietFrom(count, script, k) {
      forall j | 0 <= j < |rest| && rest[j] == Next
        ensures !(1 <= SkipsTo(rest, j, AfterAct(script[0], k)) <= count - 1)
      {
        assert script[j + 1] == Next;
      }
    }
  }

  lemma {:induction false} QuietEnters(handlers: seq<Script>, script: Script, k: nat, fuel: nat)
    requires fuel > 0
    ensures Play(handlers, Revived(|handlers|, k), script, fuel).entered == [] <==> QuietFrom(|handlers|, script, k)
    decreases |script|
  {
    if script != [] {
      QuietTail(|handlers|, script, k);
      QuietEnters(handlers, script[1..], AfterAct(script[0], k), fuel);
    }
  }

  /** A stopped chain enters nothing exactly when the script is quiet: no Next after a Skip or more since the last Stop,
      but fewer than there are handlers. */
  lemma StoppedEnters(handlers: seq<Script>, script: Script, fuel: nat)
    requires fuel > 0
    ensures Play(handlers, STOPPED, script, fuel).entered == [] <==> Quiet(|handlers|, script)
  {
    QuietEnters(handlers, script, 0, fuel);
  }

  /** Once a script, or a handler it called, has stopped the chain, what the script still does enters no handler exactly
      when that is quiet. */
  lemma StopEnds(handlers: seq<Script>, index: int, before: Script, after: Script, fuel: nat)
    requires Play(handlers, index, before, fuel).done && Play(handlers, index, before, fuel).index == STOPPED && fuel > 0
    ensures Play(handlers, index, before + after, fuel).entered == Play(handlers, index, before, fuel).entered <==> Quiet(|handlers|, after)
    ensures !Play(handlers, index, before + after, fuel).revived ==> Play(handlers, index, before + after, fuel) == Play(handlers, index, before, fuel)
  {
    PlayConcat(handlers, index, before, after, fuel);
    StoppedEnters(handlers, after, fuel);
    if !Play(handlers, index, before + after, fuel).revived {
      StoppedStays(handlers, after, fuel);
    }
  }

  /** How deep calls may nest does not matter to a chain that ends. */
  lemma {:induction false} MoreFuel(handlers: seq<Script>, index: int, script: Script, fuel: nat)
    requires Play(handlers, index, script, fuel).done
    ensures Play(handlers, index, script, fuel + 1) == Play(handlers, index, script, fuel)
    decreases fuel, |script|
  {
    if script != [] {
      match script[0]
      case Stop => MoreFuel(handlers, STOPPED, script[1..], fuel);
      case Skip => MoreFuel(handlers, Moved(|handlers|, index, index + 1), script[1..], fuel);
      case Next =>
        if index == STOPPED || index + 1 < 0 || index + 1 >= |handlers| {
          MoreFuel(handlers, index, script[1..], fuel);
        } else {
          MoreFuel(handlers, index + 1, handlers[index + 1], fuel - 1);
          MoreFuel(handlers, Play(handlers, index + 1, handlers[index + 1], fuel - 1).index, script[1..], fuel);
        }
    }
  }

  /** All the depths at which a script ends give the same ending. */
  lemma {:induction false} SameEnding(handlers: seq<Script>, index: int, script: Script, a: nat, b: nat)
    requires Play(handlers, index, script, a).done && Play(handlers, index, script, b).done
    ensures Play(handlers, index, script, a) == Play(handlers, index, script, b)
    decreases if a < b then b - a else a - b, if a < b then 0 else 1
  {
    if a < b {
      MoreFuel(handlers, index, script, a);
      SameEnding(handlers, index, script, a + 1, b);
    } else if b < a {
      SameEnding(handlers, index, script, b, a);
    }
  }

  // ----------------------------------------------------------------- when a chain ends

  /** The handlers that can be called with `fuel` nested calls left: each starts at its own index. */
  ghost function Callable(handlers: seq<Script>, fuel: nat): set<nat> {
    set n: nat | 0 < fuel && n < |handlers| && Play(handlers, n, handlers[n], fuel - 1).done
  }

  /** One more nested call makes no more handlers callable. */
  ghost predicate Settled(handlers: seq<Script>, fuel: nat) {
    Callable(handlers, fuel + 1) <= Callable(handlers, fuel)
  }

  lemma CallableGrows(handlers: seq<Script>, fuel: nat)
    ensures Callable(handlers, fuel) <= Callable(handlers, fuel + 1)
  {
    forall n | n in Callable(handlers, fuel)
      ensures n in Callable(handlers, fuel + 1)
    {
      MoreFuel(handlers, n, handlers[n], fuel - 1);
    }
  }

  /** What ends with one more nested call ends without it. */
  lemma {:induction false} SettledScript(handlers: seq<Script>, index: int, script: Script, fuel: nat)
    requires Settled(handlers, fuel) && Play(handlers, index, script, fuel + 1).done
    ensures Play(handlers, index, script, fuel).done
    decreases |script|
  {
    if script != [] {
      match script[0]
      case Stop => SettledScript(handlers, STOPPED, script[1..], fuel);
      case Skip => SettledScript(handlers, Moved(|handlers|, index, index + 1), script[1..], fuel);
      case Next =>
        if index == STOPPED || index + 1 < 0 || index + 1 >= |handlers| {
          SettledScript(handlers, index, script[1..], fuel);
        } else {
          var n: nat := index + 1;
          assert n in Callable(handlers, fuel + 1);
          MoreFuel(handlers, n, handlers[n], fuel - 1);
          SettledScript(handlers, Play(handlers, n, handlers[n], fuel).index, script[1..], fuel);
        }
    }
  }

  lemma SettledNext(handlers: seq<Script>, fuel: nat)
    requires Settled(handlers, fuel)
    ensures Settled(handlers, fuel + 1)
  {
    forall n: nat | n < |handlers| && Play(handlers, n, handlers[n], fuel + 1).done
      ensures Play(handlers, n, handlers[n], fuel).done
    {
      SettledScript(handlers, n, handlers[n], fuel);
    }
  }

  lemma {:induction false} SettledEnds(handlers: seq<Script>, index: int, script: Script, fuel: nat, more: nat)
    requires Settled(handlers, fuel) && Play(handlers, index, script, fuel + more).done
    ensures Play(handlers, index, script, fuel).done
    decreases more
  {
    if more > 0 {
      SettledNext(handlers, fuel);
      SettledEnds(handlers, index, script, fuel + 1, more - 1);
      SettledScript(handlers, index, script, fuel);
    }
  }

  lemma {:induction false} AllBelow(n: nat) returns (all: set<nat>)
    ensures |all| == n && forall k: nat :: k in all <==> k < n
  {
    if n == 0 {
      all := {};
    } else {
      var below := AllBelow(n - 1);
      all := below + {n - 1};
    }
  }

  lemma Smaller(a: set<nat>, b: set<nat>)
    requires a <= b
    ensures |a| <= |b| && (|a| == |b| ==> a == b)
  {
    assert b == a + (b - a);
    assert |b| == |a| + |b - a|;
  }

  /** There are no more steps to make handlers callable in than there are handlers. */
  lemma SettlesWithin(handlers: seq<Script>) returns (fuel: nat)
    ensures fuel <= |handlers| && Settled(handlers, fuel)
  {
    var all := AllBelow(|handlers|);
    fuel := 0;
    Smaller(Callable(handlers, 0), all);
    while !Settled(handlers, fuel)
      invariant fuel <= |Callable(handlers, fuel)| <= |handlers|
      decreases |handlers| - |Callable(handlers, fuel)|
    {
      CallableGrows(handlers, fuel);
      Smaller(Callable(handlers, fuel), Callable(handlers, fuel + 1));
      Smaller(Callable(handlers, fuel + 1), all);
      fuel := fuel + 1;
    }
  }

  lemma {:induction false} MoreEnds(handlers: seq<Script>, index: int, script: Script, fuel: nat, more: nat)
    requires Play(handlers, index, script, fuel).done
    ensures Play(handlers, index, script, fuel + more).done
    decreases more
  {
    if more > 0 {
      MoreFuel(handlers, index, script, fuel);
      MoreEnds(handlers, index, script, fuel + 1, more - 1);
    }
  }

  /** A chain ends exactly when its calls never nest deeper than there are handlers. */
  lemma EndsExactly(handlers: seq<Script>, index: int, script: Script)
    ensures Ends(handlers, index, script) <==> Play(handlers, index, script, |handlers|).done
  {
    if Ends(handlers, index, script) {
      var enough := EnoughFor(handlers, index, script);
      var fuel := SettlesWithin(handlers);
      if enough > fuel {
        SettledEnds(handlers, index, script, fuel, enough - fuel);
        MoreEnds(handlers, index, script, fuel, |handlers| - fuel);
      } else {
        MoreEnds(handlers, index, script, enough, |handlers| - enough);
      }
    }
  }

  const REVIVING: Script := [Stop, Skip, Next]

  /** A handler that stops, skips and calls the next one calls itself for ever. */
  lemma {:induction false} RevivedForever(fuel: nat, index: int)
    requires index == 0 || index == 1
    ensures !Play([[Next], REVIVING], index, REVIVING, fuel).done && !Play([[Next], REVIVING], 0, [Next], fuel).done
    decreases fuel
  {
    var handlers := [[Next], REVIVING];
    assert REVIVING[1..] == [Skip, Next] && [Skip, Next][1..] == [Next];
    assert Moved(2, STOPPED, 0) == 0;
    if fuel > 0 {
      RevivedForever(fuel - 1, 1);
    }
    assert !Play(handlers, 0, [Next], fuel).done;
    assert Play(handlers, STOPPED, [Skip, Next], fuel).done == Play(handlers, 0, [Next], fuel).done;
  }

  /** No Skip comes after a Stop or a Next. */
  ghost predicate Prudent(script: Script) {
    forall i, j :: 0 <= i < j < |script| && script[j] == Skip ==> script[i] == Skip
  }

  /** Handlers that skip only before they stop or call the next one never revive the chain. */
  lemma {:induction false} PrudentNeverRevives(handlers: seq<Script>, index: int, script: Script, fuel: nat)
    requires index >= STOPPED && forall i :: 0 <= i < |handlers| ==> Prudent(handlers[i])
    requires Prudent(script) && (index == STOPPED ==> forall i :: 0 <= i < |script| ==> script[i] != Skip)
    ensures !Play(handlers, index, script, fuel).revived && Play(handlers, index, script, fuel).index >= STOPPED
    decreases fuel, |script|
  {
    if script != [] {
      var rest := script[1..];
      assert forall i :: 0 <= i < |rest| ==> rest[i] == script[i + 1];
      assert script[0] != Skip ==> forall i :: 0 <= i < |rest| ==> rest[i] != Skip;
      match script[0]
      case Stop => PrudentNeverRevives(handlers, STOPPED, rest, fuel);
      case Skip => PrudentNeverRevives(handlers, Moved(|handlers|, index, index + 1), rest, fuel);
      case Next =>
        if index == STOPPED || index + 1 >= |handlers| {
          PrudentNeverRevives(handlers, index, rest, fuel);
        } else if fuel > 0 {
          PrudentNeverRevives(handlers, index + 1, handlers[index + 1], fuel - 1);
          PrudentNeverRevives(handlers, Play(handlers, index + 1, handlers[index + 1], fuel - 1).index, rest, fuel);
        }
    }
  }

  /** A chain of such handlers ends, after at most one turn of each, in increasing order. */
  lemma PrudentEnds(handlers: seq<Script>)
    requires handlers != [] && forall i :: 0 <= i < |handlers| ==> Prudent(handlers[i])
    ensures Ends(handlers, 0, handlers[0])
    ensures forall fuel :: var e := Play(handlers, 0, handlers[0], fuel);
              e.done ==> Increasing(e.entered, 0, |handlers|) && STOPPED <= e.index < |handlers|
  {
    PrudentNeverRevives(handlers, 0, handlers[0], |handlers|);
    PlaySpec(handlers, 0, handlers[0], |handlers|);
    EndsExactly(handlers, 0, handlers[0]);
    forall fuel | Play(handlers, 0, handlers[0], fuel).done
      ensures Play(handlers, 0, handlers[0], fuel) == Play(handlers, 0, handlers[0], |handlers|)
    {
      SameEnding(handlers, 0, handlers[0], fuel, |handlers|);
    }
  }

  function Stops(n: nat): (r: seq<Script>)
    ensures |r| == n && forall i :: 0 <= i < n ==> r[i] == [Stop]
  {
    seq(n, _ => [Stop])
  }

  lemma {:induction false} LeadingSkips(handlers: seq<Script>, index: int, script: Script, i: nat, fuel: nat)
    requires 0 <= index && i <= |script| && index + i < |handlers| && forall j :: 0 <= j < i ==> script[j] == Skip
    ensures Play(handlers, index, script, fuel).revived == Play(handlers, index + i, script[i..], fuel).revived
    decreases i
  {
    if i == 0 {
      assert script[0..] == script;
    } else {
      LeadingSkips(handlers, index + 1, script[1..], i - 1, fuel);
      assert script[1..][i - 1..] == script[i..];
    }
  }

  /** A stopped chain that meets a Skip, at any distance, is revived. */
  lemma {:induction false} StoppedSkip(handlers: seq<Script>, script: Script, j: nat, fuel: nat)
    requires j < |script| && script[j] == Skip
    ensures Play(handlers, STOPPED, script, fuel).revived
    decreases j
  {
    if j > 0 && script[0] != Skip {
      StoppedSkip(handlers, script[1..], j - 1, fuel);
    }
  }

  lemma FirstOther(script: Script, i: nat) returns (k: nat)
    requires i < |script| && script[i] != Skip
    ensures k <= i && script[k] != Skip && forall j :: 0 <= j < k ==> script[j] == Skip
  {
    k := 0;
    while script[k] == Skip
      invariant k <= i && forall j :: 0 <= j < k ==> script[j] == Skip
      decreases i - k
    {
      k := k + 1;
    }
  }

  lemma OnlyStop(handlers: seq<Script>, index: int, fuel: nat)
    ensures Play(handlers, index, [Stop], fuel) == Ending(STOPPED, [], true, false)
  {
    assert [Stop][1..] == [];
  }

  /** A handler that is not prudent revives some chain: the one in which all others stop. */
  lemma NotPrudentRevives(script: Script, i: nat, j: nat, fuel: nat)
    requires i < j < |script| && script[i] != Skip && script[j] == Skip && fuel > 0
    ensures Play([script] + Stops(|script| + 1), 0, script, fuel).revived
  {
    var handlers := [script] + Stops(|script| + 1);
    var k := FirstOther(script, i);
    var rest := script[k + 1..];
    LeadingSkips(handlers, 0, script, k, fuel);
    assert script[k..][0] == script[k] && script[k..][1..] == rest && rest[j - k - 1] == Skip;
    StoppedSkip(handlers, rest, j - k - 1, fuel);
    if script[k] == Next {
      assert handlers[k + 1] == Stops(|script| + 1)[k] == [Stop];
      OnlyStop(handlers, k + 1, fuel - 1);
    }
  }

  ghost predicate AllPrudent(handlers: seq<Script>) {
    forall i :: 0 <= i < |handlers| ==> Prudent(handlers[i])
  }

  /** The handler `script` in front of `followers` has a Skip come while the chain is stopped. */
  ghost predicate Revives(script: Script, followers: seq<Script>, fuel: nat) {
    Play([script] + followers, 0, script, fuel).revived
  }

  /** A handler is prudent exactly when it revives no chain of prudent handlers behind it. */
  lemma PrudentExactly(script: Script)
    ensures Prudent(script) <==> forall followers, fuel :: AllPrudent(followers) ==> !Revives(script, followers, fuel)
  {
    if Prudent(script) {
      forall followers, fuel | AllPrudent(followers)
        ensures !Revives(script, followers, fuel)
      {
        PrudentNeverRevives([script] + followers, 0, script, fuel);
      }
    } else {
      var i, j :| 0 <= i < j < |script| && script[j] == Skip && script[i] != Skip;
      NotPrudentRevives(script, i, j, 1);
      assert AllPrudent(Stops(|script| + 1)) && Revives(script, Stops(|script| + 1), 1);
    }
  }

  // ------------------------------------------------------------ who is entered

  /** The numbers above `index`, up to `last`. */
  function Behind(index: int, last: int): (r: seq<nat>)
    requires -1 <= index <= last
    ensures |r| == last - index && forall i :: 0 <= i < |r| ==> r[i] == index + 1 + i
  {
    seq(last - index, i requires 0 <= i < last - index => (index + 1 + i) as nat)
  }

  /** The first handler from `index` on that does not call the next one, or the last of all. */
  function LastCalled(handlers: seq<Script>, index: nat): (k: nat)
    requires index < |handlers|
    ensures index <= k < |handlers| && (handlers[k] == [] || k == |handlers| - 1)
    ensures forall j :: index <= j < k ==> handlers[j] != []
    decreases |handlers| - index
  {
    if handlers[index] == [] || index == |handlers| - 1 then index else LastCalled(handlers, index + 1)
  }

  /** Where each handler calls the next one or does nothing, the ones behind are entered in turn, each once, up to the
      first that does nothing. */
  lemma {:induction false} NextEnters(handlers: seq<Script>, index: nat, fuel: nat)
    requires index < |handlers| && fuel >= |handlers| - index
    requires forall j :: 0 <= j < |handlers| ==> handlers[j] == [] || handlers[j] == [Next]
    ensures var k := LastCalled(handlers, index);
            Play(handlers, index, handlers[index], fuel) == Ending(k, Behind(index, k), true, false)
    decreases |handlers| - index
  {
    if handlers[index] == [Next] {
      assert [Next][1..] == [];
      if index + 1 < |handlers| {
        NextEnters(handlers, index + 1, fuel - 1);
        var k := LastCalled(handlers, index + 1);
        assert [(index + 1) as nat] + Behind(index + 1, k) + [] == Behind(index, k);
      }
    }
  }

  /** After `k` Skips the next call enters the handler `k` places further on, if there are that many. */
  lemma {:induction false} SkipsOver(handlers: seq<Script>, index: nat, skips: Script, k: nat)
    requires index < |handlers| && |skips| == k && forall i :: 0 <= i < k ==> skips[i] == Skip
    requires index + k + 1 < |handlers| && handlers[index + k + 1] == []
    ensures Play(handlers, index, skips + [Next], 1) == Ending(index + k + 1, [index + k + 1], true, false)
    decreases k
  {
    var script := skips + [Next];
    if k == 0 {
      assert script == [Next] && [Next][1..] == [];
    } else {
      assert script[0] == Skip && script[1..] == skips[1..] + [Next];
      SkipsOver(handlers, index + 1, skips[1..], k - 1);
    }
  }
}
