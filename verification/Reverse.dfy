/** Reverse routing: a path from a route and arguments, and what looking it up gives back. */
module Reverse {
  import opened Text
  import opened Segments
  import opened Patterns
  import opened RouteTree
  import opened RouteFind
  import opened RouteTable
  import opened RouteLookup
  import Store = MemStore

  // --------------------------------------------------------------- what the code does

  predicate IsParamPart(part: string) {
    part != "" && (part[0] == ':' || part[0] == '*')
  }

  function FormatParts(parts: seq<string>): seq<string> {
    if parts == [] then []
    else if parts[0] == "" then FormatParts(parts[1..])
    else [if IsParamPart(parts[0]) then "%v" else parts[0]] + FormatParts(parts[1..])
  }

  function Formatted(path: string): string {
    if ':' in path || '*' in path then "/" + Join(FormatParts(Split(path, '/')), '/') else path
  }

  method FormatPath(path: string) returns (r: string)
    ensures r == Formatted(path)
  {
    if !(':' in path || '*' in path) {
      return path;
    }
    var parts := Split(path, '/');
    var formatted := [];
    for i := 0 to |parts|
      invariant FormatParts(parts) == formatted + FormatParts(parts[i..])
    {
      var part := parts[i];
      assert parts[i..][0] == part && parts[i..][1..] == parts[i + 1..];
      if part != "" {
        if part[0] == ':' || part[0] == '*' {
          part := "%v";
        }
        formatted := formatted + [part];
      }
    }
    assert parts[|parts|..] == [] && formatted + [] == formatted;
    r := "/" + Join(formatted, '/');
  }

  /** The first `%v` of each result taken by the next argument. */
  function FillMarks(format: string, args: seq<string>): string
    decreases |args|
  {
    if args == [] then format else FillMarks(ReplaceFirst(format, "%v", args[0]), args[1..])
  }

  /** `sprintf` stands for `fmt.Sprintf` of a format and one argument. */
  function Resolved(path: string, format: string, args: seq<string>, joined: string, sprintf: (string, string) -> string): string {
    if path == format then path
    else if path != "" && path[|path| - 1] == '*' then sprintf(format, joined)
    else FillMarks(format, args)
  }

  method ResolvePath(path: string, format: string, args: seq<string>, sprintf: (string, string) -> string) returns (r: string)
    requires path != ""
    ensures r == Resolved(path, format, args, Join(args, '/'), sprintf)
  {
    if path == format {
      return path;
    }
    if path[|path| - 1] == '*' {
      return sprintf(format, Join(args, '/'));
    }
    r := format;
    for i := 0 to |args|
      invariant FillMarks(format, args) == FillMarks(r, args[i..])
    {
      assert args[i..][0] == args[i] && args[i..][1..] == args[i + 1..];
      r := ReplaceFirst(r, "%v", args[i]);
    }
  }

  // -------------------------------------------------------------------- what it means

  /** A parameter takes a whole segment; a literal has neither `:` nor `*`, nor the mark for an argument. */
  ghost predicate GoodSeg(seg: string) {
    seg != "" && '/' !in seg && (seg[0] == ':' || (':' !in seg && !Contains(seg, "%v"))) && '*' !in seg
  }

  ghost predicate GoodSegs(segs: seq<string>) {
    forall i :: 0 <= i < |segs| ==> GoodSeg(segs[i])
  }

  function ParamCount(segs: seq<string>): nat {
    if segs == [] then 0 else (if IsParamPart(segs[0]) then 1 else 0) + ParamCount(segs[1..])
  }

  /** The segments with the parameters replaced by the arguments. */
  function FillSegs(segs: seq<string>, args: seq<string>): (r: seq<string>)
    requires ParamCount(segs) == |args|
    ensures |r| == |segs|
  {
    if segs == [] then []
    else if IsParamPart(segs[0]) then [args[0]] + FillSegs(segs[1..], args[1..])
    else [segs[0]] + FillSegs(segs[1..], args)
  }

  lemma {:induction false} FormatGood(segs: seq<string>)
    requires GoodSegs(segs)
    ensures |FormatParts(segs)| == |segs|
    ensures forall i :: 0 <= i < |segs| ==> FormatParts(segs)[i] == if IsParamPart(segs[i]) then "%v" else segs[i]
    decreases |segs|
  {
    if segs != [] {
      assert GoodSeg(segs[0]);
      FormatGood(segs[1..]);
    }
  }

  /** A formatted route is its segments with marks for the parameters. */
  lemma FormatSpec(segs: seq<string>)
    requires GoodSegs(segs) && segs != [] && ':' in PathOf(segs)
    ensures Formatted(PathOf(segs)) == PathOf(FormatParts(segs))
  {
    assert Segs(segs) by {
      assert forall i :: 0 <= i < |segs| ==> GoodSeg(segs[i]);
    }
    SplitPath("", segs);
    assert "" + PathOf(segs) == PathOf(segs);
    assert ([""] + segs)[1..] == segs;
    FormatGood(segs);
    JoinPath(FormatParts(segs));
  }

  ghost predicate NoMark(args: seq<string>) {
    forall i :: 0 <= i < |args| ==> !Contains(args[i], "%v")
  }

  /** No argument but the last has a mark, which would take the next argument. */
  ghost predicate MarkOnlyLast(args: seq<string>) {
    forall i :: 0 <= i < |args| - 1 ==> !Contains(args[i], "%v")
  }

  /** The next mark takes the next argument. */
  lemma FillOne(done: seq<string>, rest: seq<string>, args: seq<string>)
    requires NoMark(done) && args != []
    ensures FillMarks(PathOf(done + (["%v"] + rest)), args) == FillMarks(PathOf(done + [args[0]] + rest), args[1..])
  {
    var all, a := done + (["%v"] + rest), args[0];
    MarkItself(a);
    assert all[|done|] == "%v" && forall j :: 0 <= j < |done| ==> all[j] == done[j];
    ReplaceInPath(all, |done|, "%v", a);
    assert all[|done| := a] == done + [a] + rest;
  }

  lemma NoMarkMore(done: seq<string>, a: string)
    requires NoMark(done) && !Contains(a, "%v")
    ensures NoMark(done + [a])
  {
  }

  /** Filling the marks fills the segments, whatever came before. */
  lemma {:induction false} FillMarksSpec(done: seq<string>, segs: seq<string>, args: seq<string>)
    requires GoodSegs(segs) && (args != [] ==> NoMark(done)) && MarkOnlyLast(args) && ParamCount(segs) == |args|
    ensures FillMarks(PathOf(done + FormatParts(segs)), args) == PathOf(done + FillSegs(segs, args))
    decreases |segs|
  {
    if segs == [] {
      assert done + FormatParts(segs) == done == done + FillSegs(segs, args);
    } else {
      var seg, rest := segs[0], FormatParts(segs[1..]);
      assert GoodSeg(seg);
      if IsParamPart(seg) {
        FillOne(done, rest, args);
        if |args| > 1 {
          NoMarkMore(done, args[0]);
        }
        FillMarksSpec(done + [args[0]], segs[1..], args[1..]);
        Chunks(done, [args[0]], FillSegs(segs[1..], args[1..]));
      } else {
        if args != [] {
          NoMarkMore(done, seg);
        }
        FillMarksSpec(done + [seg], segs[1..], args);
        Chunks(done, [seg], rest);
        Chunks(done, [seg], FillSegs(segs[1..], args));
      }
    }
  }

  lemma MarkItself(a: string)
    ensures Contains("%v", "%v") && ReplaceFirst("%v", "%v", a) == a
  {
    assert IndexOf("%v", "%v") == 0;
    assert "" + a + "" == a;
  }

  /** Names and pattern of a segmented path: the filled pattern is the filled segments. */
  lemma {:induction false} FillPattern(segs: seq<string>, args: seq<string>)
    requires GoodSegs(segs) && ParamCount(segs) == |args|
    ensures Count(Strip(PathOf(segs)).0, ':') == |args|
    ensures Fill(Strip(PathOf(segs)).0, args) == PathOf(FillSegs(segs, args))
    decreases |segs|
  {
    if segs == [] {
      assert Strip("") == ("", []);
    } else {
      var seg := segs[0];
      assert GoodSeg(seg);
      if IsParamPart(seg) {
        FillPattern(segs[1..], args[1..]);
        ParamPattern(seg, PathOf(segs[1..]), args[0], args[1..], args);
      } else {
        FillPattern(segs[1..], args);
        LiteralPattern(seg, PathOf(segs[1..]), args);
      }
    }
  }

  lemma ParamPattern(seg: string, rest: string, a: string, args: seq<string>, all: seq<string>)
    requires all != [] && all[0] == a && all[1..] == args
    requires seg != "" && seg[0] == ':' && '/' !in seg && (rest == "" || rest[0] == '/')
    requires Count(Strip(rest).0, ':') == |args|
    ensures Count(Strip("/" + (seg + rest)).0, ':') == 1 + |args|
    ensures Fill(Strip("/" + (seg + rest)).0, all) == "/" + (a + Fill(Strip(rest).0, args))
  {
    var p := Strip(rest).0;
    StripParam(seg[1..], rest);
    assert ":" + seg[1..] == seg;
    assert [a] + args == all;
    FillParam("/", p, a, args);
    Chunks("/", a, Fill(p, args));
  }

  lemma StripParam(name: string, rest: string)
    requires '/' !in name && (rest == "" || rest[0] == '/')
    ensures Strip("/" + (":" + name + rest)).0 == "/" + ":" + Strip(rest).0
  {
    StripSegment(name, rest);
    Paired("/", ":", name, rest);
  }

  lemma Paired(a: string, b: string, c: string, d: string)
    ensures a + (b + c + d) == a + b + (c + d)
  {
  }

  lemma LiteralPattern(seg: string, rest: string, args: seq<string>)
    requires ':' !in seg && Count(Strip(rest).0, ':') == |args|
    ensures Count(Strip("/" + (seg + rest)).0, ':') == |args|
    ensures Fill(Strip("/" + (seg + rest)).0, args) == "/" + (seg + Fill(Strip(rest).0, args))
  {
    var head := "/" + seg;
    StripLiteral(head, rest);
    Chunks("/", seg, rest);
    FillPlain(head);
    FillConcat(head, Strip(rest).0, [], args);
    assert [] + args == args;
    Chunks("/", seg, Fill(Strip(rest).0, args));
  }

  /** A parameter segment strips to its `:` and its name. */
  lemma StripSegment(name: string, rest: string)
    requires '/' !in name && (rest == "" || rest[0] == '/')
    ensures Strip("/" + ":" + (name + rest)).0 == "/" + ":" + Strip(rest).0
    ensures Strip("/" + ":" + (name + rest)).1 == [name] + Strip(rest).1
  {
    var path := "/" + ":" + (name + rest);
    UptoIs("/", ":" + (name + rest), ':');
    assert path == "/" + (":" + (name + rest));
    assert path[..1] == "/" && path[2..] == name + rest;
    UptoIs(name, rest, '/');
    assert (name + rest)[..|name|] == name && (name + rest)[|name|..] == rest;
  }

  lemma StripLiteral(head: string, rest: string)
    requires ':' !in head
    ensures Strip(head + rest).0 == head + Strip(rest).0 && Strip(head + rest).1 == Strip(rest).1
  {
    var i := Upto(rest, ':');
    if i < |rest| {
      var pre, tail := rest[..i], rest[i + 1..];
      assert rest == pre + ":" + tail;
      StripAt(pre, tail);
      StripAt(head + pre, tail);
      Behind(head, pre, ":", tail);
      Behind(head, pre, ":", Strip(AfterName(tail)).0);
    } else {
      StripNone(rest);
      StripNone(head + rest);
    }
  }

  /** What follows the name at the start of `tail`. */
  function AfterName(tail: string): string {
    tail[Upto(tail, '/')..]
  }

  lemma StripAt(pre: string, tail: string)
    requires ':' !in pre
    ensures Strip(pre + ":" + tail).0 == pre + ":" + Strip(AfterName(tail)).0
    ensures Strip(pre + ":" + tail).1 == [tail[..Upto(tail, '/')]] + Strip(AfterName(tail)).1
  {
    var s := pre + ":" + tail;
    Assoc(pre, ":", tail);
    UptoIs(pre, ":" + tail, ':');
    assert s[..|pre|] == pre && s[|pre| + 1..] == tail;
  }

  lemma StripNone(s: string)
    requires ':' !in s
    ensures Strip(s).0 == s && Strip(s).1 == []
  {
  }

  /** The resolved path is the route's pattern filled with the arguments. */
  lemma ResolveSpells(segs: seq<string>, args: seq<string>, sprintf: (string, string) -> string)
    requires GoodSegs(segs) && segs != [] && ParamCount(segs) == |args| && MarkOnlyLast(args)
    ensures Count(Strip(PathOf(segs)).0, ':') == |args|
    ensures Resolved(PathOf(segs), Formatted(PathOf(segs)), args, Join(args, '/'), sprintf) == Fill(Strip(PathOf(segs)).0, args)
  {
    var path := PathOf(segs);
    NoStarPath(segs);
    if ':' in path {
      FillPattern(segs, args);
      ResolveMarks(segs, args);
      NoColonFormatted(segs);
    } else {
      NoParams(segs);
      assert Upto(path, ':') == |path| && Strip(path) == (path, []);
      FillPlain(path);
    }
  }

  lemma ResolveMarks(segs: seq<string>, args: seq<string>)
    requires GoodSegs(segs) && segs != [] && ParamCount(segs) == |args| && MarkOnlyLast(args) && ':' in PathOf(segs)
    ensures Formatted(PathOf(segs)) == PathOf(FormatParts(segs))
    ensures FillMarks(Formatted(PathOf(segs)), args) == PathOf(FillSegs(segs, args))
  {
    FormatSpec(segs);
    FillMarksSpec([], segs, args);
    assert [] + FormatParts(segs) == FormatParts(segs) && [] + FillSegs(segs, args) == FillSegs(segs, args);
  }

  lemma {:induction false} NoColonFormatted(segs: seq<string>)
    requires GoodSegs(segs)
    ensures ':' !in PathOf(FormatParts(segs))
    decreases |segs|
  {
    if segs != [] {
      assert GoodSeg(segs[0]);
      NoColonFormatted(segs[1..]);
      assert FormatParts(segs)[1..] == FormatParts(segs[1..]);
    }
  }

  lemma {:induction false} NoStarPath(segs: seq<string>)
    requires GoodSegs(segs)
    ensures '*' !in PathOf(segs)
    decreases |segs|
  {
    if segs != [] {
      assert GoodSeg(segs[0]);
      NoStarPath(segs[1..]);
    }
  }

  lemma {:induction false} NoParams(segs: seq<string>)
    requires GoodSegs(segs) && ':' !in PathOf(segs)
    ensures ParamCount(segs) == 0
    decreases |segs|
  {
    if segs != [] {
      var path := PathOf(segs);
      assert GoodSeg(segs[0]);
      assert segs[0][0] == path[1] && path[1 + |segs[0]|..] == PathOf(segs[1..]);
      assert forall c :: c in PathOf(segs[1..]) ==> c in path;
      NoParams(segs[1..]);
    }
  }

  /** Looking up the resolved path finds the route again, and each of its names is stored with its argument,
      whatever mutable parameters the store held before. */
  lemma ReverseFinds(ns: seq<Node>, table: Table, patterns: set<string>, segs: seq<string>, args: seq<string>,
                     sprintf: (string, string) -> string, before: seq<Store.Entry>)
    requires Represents(ns, table, patterns) && Labelled(ns)
    requires GoodSegs(segs) && segs != [] && ParamCount(segs) == |args| && MarkOnlyLast(args) && NoSlash(args)
    requires args != [] ==> args[|args| - 1] != ""
    requires var key := Strip(PathOf(segs)).0; key in table && table[key].names == Strip(PathOf(segs)).1
    requires var path := PathOf(segs);
             Unhidden(table, patterns, Resolved(path, Formatted(path), args, Join(args, '/'), sprintf), Strip(path).0, args)
    requires Store.Mutable(before)
    ensures var key, names := Strip(PathOf(segs)).0, Strip(PathOf(segs)).1;
            && AnswersHit(table, FindChild(ns, Resolved(PathOf(segs), Formatted(PathOf(segs)), args, Join(args, '/'), sprintf), []), key, args)
            && |names| == |args|
            && ((forall i, j :: 0 <= i < j < |names| ==> names[i] != names[j]) ==>
                  forall k :: 0 <= k < |names| ==> Store.Looked(Store.SavedAll(before, names, args), names[k]) == [args[k]])
  {
    var path := PathOf(segs);
    var key, names := Strip(path).0, Strip(path).1;
    ResolveSpells(segs, args, sprintf);
    StripSpec(path);
    var request := Resolved(path, Formatted(path), args, Join(args, '/'), sprintf);
    assert Hits(table, request, key, args);
    LookupUnhidden(ns, table, patterns, request, key, args);
    if forall i, j :: 0 <= i < j < |names| ==> names[i] != names[j] {
      forall k | 0 <= k < |names|
        ensures Store.Looked(Store.SavedAll(before, names, args), names[k]) == [args[k]]
      {
        Store.SavedAllGet(before, names, args, k);
      }
    }
  }
}
