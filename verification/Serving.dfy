/** From a template to the parameters of a request: compiling, registering, resolving and looking up, together. */
module Serving {
  import opened Options
  import opened Segments
  import opened Patterns
  import opened MacroParser
  import opened RouteTree
  import opened RouteFind
  import opened RouteTable
  import opened RouteLookup
  import opened Template
  import opened Reverse
  import Store = MemStore

  function NamesOf(params: seq<Param>): seq<string> {
    if params == [] then [] else [params[0].st.name] + NamesOf(params[1..])
  }

  /** A part the tree keeps as it is, or a parameter of one segment with a plain name. */
  ghost predicate Servable(part: string) {
    && GoodSeg(Compiled(part))
    && if IsMacro(part) then
         && ParseParam(part).Parsed? && ParseParam(part).st.typ != Path
         && ':' !in ParseParam(part).st.name && '/' !in ParseParam(part).st.name
       else ':' !in part
  }

  ghost predicate AllServable(parts: seq<string>) {
    forall i :: 0 <= i < |parts| ==> Servable(parts[i])
  }

  lemma ServableSome(part: string)
    requires Servable(part)
    ensures part != ""
  {
  }

  lemma CompiledParam(part: string)
    requires Servable(part) && IsMacro(part)
    ensures Compiled(part) == ":" + ParseParam(part).st.name
  {
    PlainPrefix(ParseParam(part).st.name);
  }

  lemma PlainPrefix(name: string)
    requires ':' !in name
    ensures Prefix(name, ":") == ":" + name
  {
    assert name != "" ==> name[0] in name;
  }

  lemma {:induction false} PathOfShape(segs: seq<string>)
    ensures PathOf(segs) == "" || PathOf(segs)[0] == '/'
  {
  }

  lemma StripStep(seg: string, rest: string)
    requires ':' !in seg
    ensures Strip("/" + (seg + rest)).1 == Strip(rest).1
  {
    StripLiteral("/" + seg, rest);
    Chunks("/", seg, rest);
  }

  lemma StripName(name: string, rest: string)
    requires '/' !in name && (rest == "" || rest[0] == '/')
    ensures Strip("/" + (":" + name + rest)).1 == [name] + Strip(rest).1
  {
    StripSegment(name, rest);
    Paired("/", ":", name, rest);
  }

  /** Normalising the compiled path removes the names of the template's parameters, in order. */
  lemma {:induction false} CompiledNames(parts: seq<string>)
    requires AllServable(parts)
    ensures Strip(PathOf(CompiledAll(parts))).1 == NamesOf(ParamsOf(parts))
    decreases |parts|
  {
    if parts == [] {
      StripNone("");
    } else {
      var rest := PathOf(CompiledAll(parts[1..]));
      assert Servable(parts[0]);
      CompiledNames(parts[1..]);
      CompiledTail(parts);
      PathOfShape(CompiledAll(parts[1..]));
      if IsMacro(parts[0]) {
        CompiledParam(parts[0]);
        StripName(ParseParam(parts[0]).st.name, rest);
      } else {
        StripStep(parts[0], rest);
      }
    }
  }

  lemma CompiledGood(parts: seq<string>)
    requires AllServable(parts)
    ensures GoodSegs(CompiledAll(parts))
  {
    forall i | 0 <= i < |parts|
      ensures GoodSeg(CompiledAll(parts)[i])
    {
      assert Servable(parts[i]);
    }
  }

  /** What a template compiles to. */
  lemma CompiledPath(path: string, parts: seq<string>)
    requires Split(path, '/') == [""] + parts && parts != []
    requires ReadParts(Split(path, '/')).Accepted? && AllServable(parts) && Unshadowed(Split(path, '/'))
    ensures var params := ReadParts(Split(path, '/')).params;
            && (params != [] ==> |path| >= 2) && Converted(path, params) == Some(PathOf(CompiledAll(parts)))
            && NamesOf(params) == Strip(PathOf(CompiledAll(parts))).1
  {
    NeverErrs(path);
    AcceptedParams(Split(path, '/'));
    ServableSome(parts[|parts| - 1]);
    NoTrailing(path, parts);
    CompiledExactly(path);
    CompiledNames(parts);
    EmptyFirst(parts);
  }

  /** The empty part before the first slash changes nothing. */
  lemma EmptyFirst(parts: seq<string>)
    requires parts != []
    ensures ParamsOf([""] + parts) == ParamsOf(parts)
    ensures Join(CompiledAll([""] + parts), '/') == PathOf(CompiledAll(parts))
  {
    var all := [""] + parts;
    assert all[1..] == parts;
    CompiledTail(all);
    assert CompiledAll(all) == [""] + CompiledAll(parts);
    JoinEmpty(CompiledAll(parts));
  }

  lemma JoinEmpty(segs: seq<string>)
    requires segs != []
    ensures Join([""] + segs, '/') == PathOf(segs)
  {
    assert ([""] + segs)[1..] == segs;
    JoinPath(segs);
    assert "" + "/" + Join(segs, '/') == "/" + Join(segs, '/');
  }

  lemma NoTrailing(path: string, parts: seq<string>)
    requires Split(path, '/') == [""] + parts && parts != [] && parts[|parts| - 1] != ""
    ensures path != "" && path[|path| - 1] != '/'
  {
    var n := |parts| - 1;
    SplitWhole(path);
    LastApart([""], parts);
    LastByte([""] + parts[..n], parts[n]);
  }

  lemma LastApart<T>(a: seq<T>, b: seq<T>)
    requires b != []
    ensures a + b == a + b[..|b| - 1] + [b[|b| - 1]] && (a + b)[|a + b| - 1] == b[|b| - 1]
  {
  }

  lemma LastByte(front: seq<string>, part: string)
    requires part != ""
    ensures var p := PathOf(front + [part]); |p| > |part| && p[|p| - 1] == part[|part| - 1]
  {
    PathOfConcat(front, [part]);
    PathOfOne(part);
  }

  /** A template's own reverse route is served by its handlers, with each argument stored under its parameter's name. */
  lemma TemplateServes(path: string, parts: seq<string>, ns: seq<Node>, table: Table, patterns: set<string>,
                       args: seq<string>, sprintf: (string, string) -> string, before: seq<Store.Entry>)
    requires Split(path, '/') == [""] + parts && parts != []
    requires ReadParts(Split(path, '/')).Accepted? && AllServable(parts) && Unshadowed(Split(path, '/'))
    requires Represents(ns, table, patterns) && Labelled(ns) && Store.Mutable(before)
    requires ParamCount(CompiledAll(parts)) == |args| && MarkOnlyLast(args) && NoSlash(args) && (args != [] ==> args[|args| - 1] != "")
    requires var key := Strip(PathOf(CompiledAll(parts))).0;
             key in table && table[key].names == NamesOf(ReadParts(Split(path, '/')).params)
    requires var route := PathOf(CompiledAll(parts));
             Unhidden(table, patterns, Resolved(route, Formatted(route), args, Join(args, '/'), sprintf), Strip(route).0, args)
    ensures var params := ReadParts(Split(path, '/')).params;
            (params != [] ==> |path| >= 2) && Converted(path, params).Some?
    ensures var params := ReadParts(Split(path, '/')).params;
            var route := Converted(path, params).value;
            var names := NamesOf(params);
            && AnswersHit(table, FindChild(ns, Resolved(route, Formatted(route), args, Join(args, '/'), sprintf), []), Strip(route).0, args)
            && |names| == |args|
            && ((forall i, j :: 0 <= i < j < |names| ==> names[i] != names[j]) ==>
                  forall k :: 0 <= k < |names| ==> Store.Looked(Store.SavedAll(before, names, args), names[k]) == [args[k]])
  {
    CompiledPath(path, parts);
    CompiledGood(parts);
    ReverseFinds(ns, table, patterns, CompiledAll(parts), args, sprintf, before);
  }
}
