/** The handlers of the routes of the root builder. Handlers are ids; slices of them are values. */
module Builder {
  import opened Options

  type Handlers = seq<nat>

  // --------------------------------------------------------------- what the code does

  datatype RouteState = RouteState(handlers: Handlers, begin: Handlers, done: Handlers)

  datatype State = State(middleware: Handlers, begin: Handlers, done: Handlers, routes: seq<RouteState>)

  const EMPTY := State([], [], [], [])

  /** `check` is the handler that checks the macros of the route's path, if it needs one. */
  datatype Call =
    | Use(hs: Handlers)
    | UseGlobal(hs: Handlers)
    | Done(hs: Handlers)
    | Handle(check: Option<nat>, own: Handlers)

  function Checks(check: Option<nat>): Handlers {
    if check.Some? then [check.value] else []
  }

  function Made(s: State, call: Call): State {
    match call
    case Use(hs) => s.(middleware := s.middleware + hs)
    case UseGlobal(hs) =>
      s.(begin := s.begin + hs,
         routes := seq(|s.routes|, i requires 0 <= i < |s.routes| => s.routes[i].(begin := s.routes[i].begin + hs)))
    case Done(hs) =>
      s.(done := s.done + hs,
         routes := seq(|s.routes|, i requires 0 <= i < |s.routes| => s.routes[i].(done := s.routes[i].done + hs)))
    case Handle(check, own) =>
      s.(routes := s.routes + [RouteState(Checks(check) + (s.begin + s.middleware + own + s.done), [], [])])
  }

  function BuiltRoute(r: RouteState): RouteState {
    RouteState(r.begin + r.handlers + r.done, [], [])
  }

  function Built(s: State): State {
    s.(routes := seq(|s.routes|, i requires 0 <= i < |s.routes| => BuiltRoute(s.routes[i])))
  }

  function Run(calls: seq<Call>): State {
    if calls == [] then EMPTY else Made(Run(calls[..|calls| - 1]), calls[|calls| - 1])
  }

  class Route {
    var handlers: Handlers
    var beginHandlers: Handlers
    var doneHandlers: Handlers

    ghost function Contents(): RouteState
      reads this
    {
      RouteState(handlers, beginHandlers, doneHandlers)
    }

    constructor (handlers: Handlers)
      ensures Contents() == RouteState(handlers, [], [])
    {
      this.handlers, beginHandlers, doneHandlers := handlers, [], [];
    }

    method Use(hs: Handlers)
      modifies this
      ensures Contents() == old(Contents()).(begin := old(beginHandlers) + hs)
    {
      if |hs| == 0 {
        return;
      }
      beginHandlers := beginHandlers + hs;
    }

    method Done(hs: Handlers)
      modifies this
      ensures Contents() == old(Contents()).(done := old(doneHandlers) + hs)
    {
      if |hs| == 0 {
        return;
      }
      doneHandlers := doneHandlers + hs;
    }

    method BuildHandlers()
      modifies this
      ensures Contents() == BuiltRoute(old(Contents()))
    {
      if |beginHandlers| > 0 {
        handlers := beginHandlers + handlers;
        beginHandlers := [];
      }
      if |doneHandlers| > 0 {
        handlers := handlers + doneHandlers;
        doneHandlers := [];
      }
    }
  }

  ghost predicate Apart(routes: seq<Route>) {
    forall i, j :: 0 <= i < j < |routes| ==> routes[i] != routes[j]
  }

  ghost function All(routes: seq<Route>): (r: seq<RouteState>)
    reads routes
    ensures |r| == |routes| && forall i :: 0 <= i < |routes| ==> r[i] == routes[i].Contents()
  {
    seq(|routes|, i requires 0 <= i < |routes| reads routes => routes[i].Contents())
  }

  class APIBuilder {
    var middleware: Handlers
    var beginGlobalHandlers: Handlers
    var doneGlobalHandlers: Handlers
    var routes: seq<Route>

    ghost predicate Valid()
      reads this
    {
      Apart(routes)
    }

    ghost function Snapshot(): State
      reads this, routes
    {
      State(middleware, beginGlobalHandlers, doneGlobalHandlers, All(routes))
    }

    constructor ()
      ensures Valid() && Snapshot() == EMPTY
    {
      middleware, beginGlobalHandlers, doneGlobalHandlers, routes := [], [], [], [];
    }

    method Use(hs: Handlers)
      requires Valid()
      modifies this`middleware
      ensures Valid() && Snapshot() == Made(old(Snapshot()), Call.Use(hs))
    {
      middleware := middleware + hs;
    }

    method UseGlobal(hs: Handlers)
      requires Valid()
      modifies this`beginGlobalHandlers, routes
      ensures Valid() && Snapshot() == Made(old(Snapshot()), Call.UseGlobal(hs))
    {
      ghost var was := All(routes);
      for i := 0 to |routes|
        invariant routes == old(routes) && middleware == old(middleware)
        invariant beginGlobalHandlers == old(beginGlobalHandlers) && doneGlobalHandlers == old(doneGlobalHandlers)
        invariant forall j :: 0 <= j < |routes| ==> routes[j].Contents() == if j < i then was[j].(begin := was[j].begin + hs) else was[j]
      {
        routes[i].Use(hs);
      }
      beginGlobalHandlers := beginGlobalHandlers + hs;
      assert All(routes) == Made(old(Snapshot()), Call.UseGlobal(hs)).routes;
    }

    method Done(hs: Handlers)
      requires Valid()
      modifies this`doneGlobalHandlers, routes
      ensures Valid() && Snapshot() == Made(old(Snapshot()), Call.Done(hs))
    {
      ghost var was := All(routes);
      for i := 0 to |routes|
        invariant routes == old(routes) && middleware == old(middleware)
        invariant beginGlobalHandlers == old(beginGlobalHandlers) && doneGlobalHandlers == old(doneGlobalHandlers)
        invariant forall j :: 0 <= j < |routes| ==> routes[j].Contents() == if j < i then was[j].(done := was[j].done + hs) else was[j]
      {
        routes[i].Done(hs);
      }
      doneGlobalHandlers := doneGlobalHandlers + hs;
      assert All(routes) == Made(old(Snapshot()), Call.Done(hs)).routes;
    }

    method Handle(check: Option<nat>, hs: Handlers) returns (r: Route)
      requires Valid()
      modifies this`routes
      ensures Valid() && fresh(r) && routes == old(routes) + [r] && Snapshot() == Made(old(Snapshot()), Call.Handle(check, hs))
    {
      var routeHandlers := beginGlobalHandlers + middleware + hs;
      if |doneGlobalHandlers| > 0 {
        routeHandlers := routeHandlers + doneGlobalHandlers;
      }
      if check.Some? {
        routeHandlers := [check.value] + routeHandlers;
      }
      r := new Route(routeHandlers);
      routes := routes + [r];
      assert r.handlers == Checks(check) + (beginGlobalHandlers + middleware + hs + doneGlobalHandlers);
      assert All(routes) == Made(old(Snapshot()), Call.Handle(check, hs)).routes;
    }

    method Build()
      requires Valid()
      modifies routes
      ensures Valid() && Snapshot() == Built(old(Snapshot()))
    {
      ghost var was := All(routes);
      for i := 0 to |routes|
        invariant routes == old(routes) && middleware == old(middleware)
        invariant beginGlobalHandlers == old(beginGlobalHandlers) && doneGlobalHandlers == old(doneGlobalHandlers)
        invariant forall j :: 0 <= j < |routes| ==> routes[j].Contents() == if j < i then BuiltRoute(was[j]) else was[j]
      {
        routes[i].BuildHandlers();
      }
    }
  }

  // -------------------------------------------------------------------- what it means

  datatype Kind = OfUse | OfUseGlobal | OfDone

  function HandlersOf(call: Call, kind: Kind): Handlers {
    match call
    case Use(hs) => if kind == OfUse then hs else []
    case UseGlobal(hs) => if kind == OfUseGlobal then hs else []
    case Done(hs) => if kind == OfDone then hs else []
    case Handle(_, _) => []
  }

  /** The handlers given to the calls of one kind, in call order. */
  function Given(calls: seq<Call>, kind: Kind): Handlers {
    if calls == [] then [] else HandlersOf(calls[0], kind) + Given(calls[1..], kind)
  }

  /** The chain of the route made by call `i`: globals added after it, its check, globals added before it, the
      handlers used so far, its own, and what is done last, before and after it, each group in call order. */
  function Chain(calls: seq<Call>, i: nat): Handlers
    requires i < |calls| && calls[i].Handle?
  {
    var before, after := calls[..i], calls[i + 1..];
    var check := if calls[i].check.Some? then [calls[i].check.value] else [];
    Given(after, OfUseGlobal) + (check + (Given(before, OfUseGlobal) + Given(before, OfUse) + calls[i].own + Given(before, OfDone))) + Given(after, OfDone)
  }

  /** Which route call `i` makes. */
  function RouteOf(calls: seq<Call>, i: nat): nat
    requires i <= |calls|
  {
    if i == 0 then 0 else RouteOf(calls, i - 1) + if calls[i - 1].Handle? then 1 else 0
  }

  lemma {:induction false} Later(calls: seq<Call>, c: Call, kind: Kind)
    ensures Given(calls + [c], kind) == Given(calls, kind) + HandlersOf(c, kind)
    decreases |calls|
  {
    if calls != [] {
      assert (calls + [c])[0] == calls[0] && (calls + [c])[1..] == calls[1..] + [c];
      Later(calls[1..], c, kind);
    } else {
      assert [c][1..] == [] && HandlersOf(c, kind) + [] == HandlersOf(c, kind);
    }
  }

  lemma {:induction false} RouteOfFront(calls: seq<Call>, n: nat, i: nat)
    requires i <= n <= |calls|
    ensures RouteOf(calls[..n], i) == RouteOf(calls, i)
    decreases i
  {
    if i > 0 {
      RouteOfFront(calls, n, i - 1);
    }
  }

  /** What the route made by call `i` holds before the build. */
  ghost predicate Holds(calls: seq<Call>, i: nat, r: RouteState)
    requires i < |calls| && calls[i].Handle?
  {
    var before, after := calls[..i], calls[i + 1..];
    && r.begin == Given(after, OfUseGlobal) && r.done == Given(after, OfDone)
    && r.handlers == Checks(calls[i].check) + (Given(before, OfUseGlobal) + Given(before, OfUse) + calls[i].own + Given(before, OfDone))
  }

  lemma HoldsLater(calls: seq<Call>, i: nat, r: RouteState)
    requires i < |calls| - 1 && calls[i].Handle? && Holds(calls[..|calls| - 1], i, r)
    ensures Holds(calls, i, match calls[|calls| - 1]
                            case UseGlobal(hs) => r.(begin := r.begin + hs)
                            case Done(hs) => r.(done := r.done + hs)
                            case _ => r)
  {
    var n := |calls| - 1;
    var front := calls[..n];
    assert front[..i] == calls[..i] && calls[i + 1..] == front[i + 1..] + [calls[n]];
    Later(front[i + 1..], calls[n], OfUseGlobal);
    Later(front[i + 1..], calls[n], OfDone);
  }

  lemma {:induction false} RunSpec(calls: seq<Call>)
    ensures var s := Run(calls);
            && s.begin == Given(calls, OfUseGlobal) && s.middleware == Given(calls, OfUse) && s.done == Given(calls, OfDone)
            && |s.routes| == RouteOf(calls, |calls|)
    decreases |calls|
  {
    if calls != [] {
      var n := |calls| - 1;
      RunSpec(calls[..n]);
      RouteOfFront(calls, n, n);
      assert calls == calls[..n] + [calls[n]];
      Later(calls[..n], calls[n], OfUse);
      Later(calls[..n], calls[n], OfUseGlobal);
      Later(calls[..n], calls[n], OfDone);
    }
  }

  /** The route made by the last call. */
  lemma NewHolds(calls: seq<Call>, i: nat)
    requires i == |calls| - 1 && calls[i].Handle?
    ensures |Run(calls).routes| == RouteOf(calls, i) + 1 && Holds(calls, i, Run(calls).routes[RouteOf(calls, i)])
  {
    var s := Run(calls[..i]);
    RunSpec(calls[..i]);
    RouteOfFront(calls, i, i);
    assert Run(calls).routes[|s.routes|] == RouteState(Checks(calls[i].check) + (s.begin + s.middleware + calls[i].own + s.done), [], []);
    assert calls[i + 1..] == [];
  }

  lemma {:induction false} RunHolds(calls: seq<Call>, i: nat)
    requires i < |calls| && calls[i].Handle?
    ensures RouteOf(calls, i) < |Run(calls).routes| && Holds(calls, i, Run(calls).routes[RouteOf(calls, i)])
    decreases |calls|
  {
    var n := |calls| - 1;
    if i == n {
      NewHolds(calls, i);
    } else {
      RouteOfFront(calls, n, i);
      RunHolds(calls[..n], i);
      HoldsLater(calls, i, Run(calls[..n]).routes[RouteOf(calls, i)]);
    }
  }

  /** After any calls and a build, every route has its chain. */
  lemma BuiltChains(calls: seq<Call>, i: nat)
    requires i < |calls| && calls[i].Handle?
    ensures RouteOf(calls, i) < |Built(Run(calls)).routes|
    ensures Built(Run(calls)).routes[RouteOf(calls, i)] == RouteState(Chain(calls, i), [], [])
  {
    RunHolds(calls, i);
  }

  /** Every route was made by some call, so the chains above are all of them. */
  lemma {:induction false} EveryRoute(calls: seq<Call>, k: nat) returns (i: nat)
    requires k < |Built(Run(calls)).routes|
    ensures i < |calls| && calls[i].Handle? && RouteOf(calls, i) == k
    decreases |calls|
  {
    RunSpec(calls);
    var n := |calls| - 1;
    RunSpec(calls[..n]);
    RouteOfFront(calls, n, n);
    if k == RouteOf(calls, n) {
      i := n;
    } else {
      i := EveryRoute(calls[..n], k);
      RouteOfFront(calls, n, i);
    }
  }

  /** Building again, with no calls between, changes nothing. */
  lemma BuiltTwice(s: State)
    ensures Built(Built(s)) == Built(s)
  {
    forall i | 0 <= i < |s.routes|
      ensures BuiltRoute(BuiltRoute(s.routes[i])) == BuiltRoute(s.routes[i])
    {
      var r := BuiltRoute(s.routes[i]);
      assert [] + r.handlers + [] == r.handlers;
    }
  }
}
