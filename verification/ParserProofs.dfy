/** What parsing a printed statement gives, and when parsing ends. */
module MacroRoundTrip {
  import opened Options
  import opened Decimal
  import opened MacroLexer
  import opened MacroParser

  // ------------------------------------------------------------------- printing

  function TypeName(typ: ParamType): string {
    match typ
    case String => "string"
    case Int => "int"
    case Alphabetical => "alphabetical"
    case File => "file"
    case Path => "path"
    case Unexpected => ""
  }

  function PrintInts(args: seq<Arg>): string {
    if args == [] then ""
    else (if args[0].IntArg? then "," + Print(args[0].n) else "") + PrintInts(args[1..])
  }

  function PrintArgs(args: seq<Arg>): string {
    if args == [] then ""
    else if args[0].StrArg? then args[0].s
    else Print(args[0].n) + PrintInts(args[1..])
  }

  function PrintFuncs(funcs: seq<Func>): string {
    if funcs == [] then ""
    else " " + funcs[0].name + "(" + PrintArgs(funcs[0].args) + ")" + PrintFuncs(funcs[1..])
  }

  /** How a statement is written; the type and the code may be left out. */
  function PrintStatement(st: State, withType: bool, withCode: bool): string {
    "{" + st.name + (if withType then ":" + TypeName(st.typ) else "") + PrintFuncs(st.funcs)
    + (if withCode then " else " + Print(st.code) else "") + "}"
  }

  ghost predicate IsWord(w: string) {
    w != "" && forall i :: 0 <= i < |w| ==> IsLetter(w[i])
  }

  /** Any number of non-negative integers, or one string that starts like no number and closes no parenthesis. */
  ghost predicate GoodArgs(args: seq<Arg>) {
    || (forall i :: 0 <= i < |args| ==> args[i].IntArg? && 0 <= args[i].n <= MAX)
    || (|args| == 1 && args[0].StrArg? && args[0].s != "" && !IsDigit(args[0].s[0]) && ')' !in args[0].s)
  }

  ghost predicate GoodFunc(f: Func) {
    IsWord(f.name) && f.name != "else" && GoodArgs(f.args)
  }

  /** A statement that can be written down. */
  ghost predicate WellFormed(st: State) {
    && IsWord(st.name) && st.typ != Unexpected
    && (forall i :: 0 <= i < |st.funcs| ==> GoodFunc(st.funcs[i]))
    && 0 <= st.code <= MAX && st.last == Func("", []) && st.errors == []
  }

  // ---------------------------------------------------------------- single tokens

  lemma RunIs(head: string, tail: string, p: char -> bool)
    requires forall i :: 0 <= i < |head| ==> p(head[i])
    requires tail == "" || !p(tail[0])
    ensures Run(head + tail, p) == |head|
    ensures (head + tail)[..|head|] == head && (head + tail)[|head|..] == tail
  {
    var s := head + tail;
    var n := Run(s, p);
    assert forall i :: 0 <= i < |head| ==> s[i] == head[i];
    assert tail != "" ==> s[|head|] == tail[0];
  }

  lemma NoSpace(s: string, len: int)
    requires s != "" && !IsSpace(s[0])
    ensures Lex(s, len) == LexHere(s, len)
  {
    assert Run(s, IsSpace) == 0;
    assert s[0..] == s;
  }

  lemma LexSymbol(c: char, post: string, len: int)
    requires c in "{}:(),"
    ensures Lex([c] + post, len).0.typ == ResolveType(c) && Lex([c] + post, len).1 == post
  {
    var s := [c] + post;
    NoSpace(s, len);
    assert Current(s) == c && Advance(s) == post;
  }

  lemma SymbolAt(c: char, post: string, len: int)
    requires c in "{}:(),"
    ensures Lex([c] + post, len).0 == Token(ResolveType(c), [c], len - 1 - |post|, len - 1 - |post|)
  {
    var s := [c] + post;
    NoSpace(s, len);
    assert Current(s) == c;
  }

  lemma LexWord(w: string, post: string, len: int)
    requires IsWord(w) && (post == "" || !IsLetter(post[0]))
    ensures Lex(w + post, len).0.typ == LookupIdent(w)
    ensures Lex(w + post, len).0.literal == w && Lex(w + post, len).1 == post
  {
    var s := w + post;
    assert s[0] == w[0] && IsLetter(s[0]);
    NoSpace(s, len);
    RunIs(w, post, IsLetter);
    assert ResolveType(Current(s)) == IDENT;
  }

  lemma LexNumber(d: string, post: string, len: int)
    requires d != "" && AllDigits(d) && (post == "" || !IsDigit(post[0]))
    ensures Lex(d + post, len).0.typ == INT
    ensures Lex(d + post, len).0.literal == d && Lex(d + post, len).1 == post
  {
    var s := d + post;
    assert s[0] == d[0] && IsDigit(s[0]);
    NoSpace(s, len);
    RunIs(d, post, IsDigit);
    assert ResolveType(Current(s)) == IDENT;
  }

  lemma LexSpace(post: string, len: int)
    requires post != "" && !IsSpace(post[0])
    ensures Lex(" " + post, len) == Lex(post, len)
  {
    RunIs(" ", post, IsSpace);
    NoSpace(post, len);
  }

  /** One token that changes the state and leaves `r'`. */
  lemma Turned(rest: string, len: int, st: State, st': State, r': string)
    requires Lex(rest, len).0.typ != EOF
    requires Take(Lex(rest, len).0, Lex(rest, len).1, len, st) == Go(st', r')
    ensures ParseFrom(rest, len, st) == ParseFrom(r', len, st')
  {
  }

  // ------------------------------------------------------------------ arguments

  lemma PrintedNumber(n: int)
    requires 0 <= n <= MAX
    ensures Print(n) != "" && AllDigits(Print(n)) && Parse(Print(n)) == Some(n)
  {
    ParsePrint(n);
  }

  function WithArgs(st: State, args: seq<Arg>): State {
    st.(last := st.last.(args := st.last.args + args))
  }

  lemma WithArgsTwice(st: State, a: seq<Arg>, b: seq<Arg>)
    ensures WithArgs(WithArgs(st, a), b) == WithArgs(st, a + b)
    ensures WithArgs(st, []) == st
  {
    assert st.last.args + a + b == st.last.args + (a + b);
    assert st.last.args + [] == st.last.args;
  }

  lemma CommaTurn(t: Token, rest: string, len: int, st: State)
    requires t.typ == COMMA
    ensures Take(t, rest, len, st) == Go(WithArg(st, t, Lex(rest, len).0), Lex(rest, len).1)
  {
  }

  lemma NumberArg(st: State, t: Token, a: Token, n: int)
    requires a.typ == INT && Parse(a.literal) == Some(n)
    ensures WithArg(st, t, a) == WithArgs(st, [IntArg(n)])
  {
  }

  lemma CommaDigits(d: string, n: int, tail: string, len: int, st: State)
    requires d != "" && AllDigits(d) && Parse(d) == Some(n) && (tail == "" || !IsDigit(tail[0]))
    ensures ParseFrom("," + (d + tail), len, st) == ParseFrom(tail, len, WithArgs(st, [IntArg(n)]))
  {
    LexSymbol(',', d + tail, len);
    LexNumber(d, tail, len);
    CommaTakes("," + (d + tail), d + tail, tail, len, st, n);
  }

  lemma CommaTakes(rest: string, r: string, tail: string, len: int, st: State, n: int)
    requires Lex(rest, len).0.typ == COMMA && Lex(rest, len).1 == r
    requires Lex(r, len).0.typ == INT && Parse(Lex(r, len).0.literal) == Some(n) && Lex(r, len).1 == tail
    ensures ParseFrom(rest, len, st) == ParseFrom(tail, len, WithArgs(st, [IntArg(n)]))
  {
    var t := Lex(rest, len).0;
    CommaTurn(t, r, len, st);
    NumberArg(st, t, Lex(r, len).0, n);
    Turned(rest, len, st, WithArgs(st, [IntArg(n)]), tail);
  }

  lemma CommaNumber(n: int, tail: string, len: int, st: State)
    requires 0 <= n <= MAX && (tail == "" || !IsDigit(tail[0]))
    ensures ParseFrom("," + (Print(n) + tail), len, st) == ParseFrom(tail, len, WithArgs(st, [IntArg(n)]))
  {
    PrintedNumber(n);
    CommaDigits(Print(n), n, tail, len, st);
  }

  lemma ScanNumber(d: string, tail: string, len: int)
    requires d != "" && AllDigits(d) && (tail == "" || !IsDigit(tail[0]))
    ensures PeekType(d + tail) != RPAREN
    ensures var r := LexDynamic(d + tail, len); r.Scanned? && r.token.typ == INT && r.token.literal == d && r.rest == tail
  {
    assert (d + tail)[0] == d[0] && IsDigit(d[0]);
    RunIs(d, tail, IsDigit);
  }

  lemma OpenDigits(d: string, n: int, tail: string, len: int, st: State)
    requires d != "" && AllDigits(d) && Parse(d) == Some(n) && (tail == "" || !IsDigit(tail[0]))
    ensures ParseFrom("(" + (d + tail), len, st) == ParseFrom(tail, len, WithArgs(st, [IntArg(n)]))
  {
    LexSymbol('(', d + tail, len);
    ScanNumber(d, tail, len);
    var t := Lex("(" + (d + tail), len).0;
    OpenTurn(t, d + tail, len, st);
    NumberArg(st, t, LexDynamic(d + tail, len).token, n);
    Turned("(" + (d + tail), len, st, WithArgs(st, [IntArg(n)]), tail);
  }

  lemma OpenNumber(n: int, tail: string, len: int, st: State)
    requires 0 <= n <= MAX && tail != "" && !IsDigit(tail[0])
    ensures ParseFrom("(" + (Print(n) + tail), len, st) == ParseFrom(tail, len, WithArgs(st, [IntArg(n)]))
  {
    PrintedNumber(n);
    OpenDigits(Print(n), n, tail, len, st);
  }

  lemma ScanString(s: string, post: string, len: int)
    requires s != "" && !IsDigit(s[0]) && ')' !in s && post != "" && post[0] == ')'
    ensures PeekType(s + post) != RPAREN
    ensures var r := LexDynamic(s + post, len); r.Scanned? && r.token.typ == IDENT && r.token.literal == s && r.rest == post
  {
    RunIs("", s + post, IsDigit);
    assert "" + (s + post) == s + post;
    RunIs(s, post, NotClose);
  }

  lemma OpenTurn(t: Token, rest: string, len: int, st: State)
    requires t.typ == LPAREN && PeekType(rest) != RPAREN
    ensures Take(t, rest, len, st) ==
            match LexDynamic(rest, len) case Diverges => Hang case Scanned(a, r) => Go(WithArg(st, t, a), r)
  {
  }

  lemma OpenString(s: string, post: string, len: int, st: State)
    requires s != "" && !IsDigit(s[0]) && ')' !in s && post != "" && post[0] == ')'
    ensures ParseFrom("(" + (s + post), len, st) == ParseFrom(post, len, WithArgs(st, [StrArg(s)]))
  {
    LexSymbol('(', s + post, len);
    ScanString(s, post, len);
    OpenTurn(Lex("(" + (s + post), len).0, s + post, len, st);
    Turned("(" + (s + post), len, st, WithArgs(st, [StrArg(s)]), post);
  }

  lemma OpenEmpty(post: string, len: int, st: State)
    requires |post| > 1 && post[0] == ')'
    ensures ParseFrom("(" + post, len, st) == ParseFrom(post, len, st)
  {
    LexSymbol('(', post, len);
    Turned("(" + post, len, st, st, post);
  }

  lemma Assoc(a: string, b: string, c: string)
    ensures a + b + c == a + (b + c)
  {
  }

  lemma IntsText(args: seq<Arg>, post: string)
    requires args != [] && args[0].IntArg?
    ensures PrintInts(args) + post == "," + (Print(args[0].n) + (PrintInts(args[1..]) + post))
  {
    Assoc("," + Print(args[0].n), PrintInts(args[1..]), post);
    Assoc(",", Print(args[0].n), PrintInts(args[1..]) + post);
  }

  lemma IntsStart(args: seq<Arg>, post: string)
    requires forall i :: 0 <= i < |args| ==> args[i].IntArg?
    requires post != "" && post[0] == ')'
    ensures PrintInts(args) + post != "" && (PrintInts(args) + post)[0] in "),"
  {
    if args == [] {
      assert PrintInts(args) + post == post;
    } else {
      IntsText(args, post);
    }
  }

  lemma FirstInt(args: seq<Arg>, post: string, len: int, st: State)
    requires args != [] && forall i :: 0 <= i < |args| ==> args[i].IntArg? && 0 <= args[i].n <= MAX
    requires post != "" && post[0] == ')'
    ensures ParseFrom(PrintInts(args) + post, len, st) == ParseFrom(PrintInts(args[1..]) + post, len, WithArgs(st, [args[0]]))
  {
    IntsText(args, post);
    IntsStart(args[1..], post);
    CommaNumber(args[0].n, PrintInts(args[1..]) + post, len, st);
  }

  /** The arguments after the first. */
  lemma {:induction false} ParseInts(args: seq<Arg>, post: string, len: int, st: State)
    requires forall i :: 0 <= i < |args| ==> args[i].IntArg? && 0 <= args[i].n <= MAX
    requires post != "" && post[0] == ')'
    ensures ParseFrom(PrintInts(args) + post, len, st) == ParseFrom(post, len, WithArgs(st, args))
    decreases |args|
  {
    if args == [] {
      WithArgsTwice(st, [], []);
      assert PrintInts(args) + post == post;
    } else {
      FirstInt(args, post, len, st);
      ParseInts(args[1..], post, len, WithArgs(st, [args[0]]));
      WithFirst(st, args);
    }
  }

  lemma WithFirst(st: State, args: seq<Arg>)
    requires args != []
    ensures WithArgs(WithArgs(st, [args[0]]), args[1..]) == WithArgs(st, args)
  {
    WithArgsTwice(st, [args[0]], args[1..]);
    assert [args[0]] + args[1..] == args;
  }

  /** Everything between the parentheses, from the token `(` on. */
  lemma ParseArgs(args: seq<Arg>, post: string, len: int, st: State)
    requires GoodArgs(args) && |post| > 1 && post[0] == ')'
    ensures ParseFrom("(" + (PrintArgs(args) + post), len, st) == ParseFrom(post, len, WithArgs(st, args))
  {
    if args == [] {
      assert PrintArgs(args) + post == post;
      WithArgsTwice(st, [], []);
      OpenEmpty(post, len, st);
    } else if args[0].StrArg? {
      assert args == [args[0]];
      OpenString(args[0].s, post, len, st);
    } else {
      FirstOpen(args, post, len, st);
      ParseInts(args[1..], post, len, WithArgs(st, [args[0]]));
      WithFirst(st, args);
    }
  }

  lemma FirstOpen(args: seq<Arg>, post: string, len: int, st: State)
    requires args != [] && forall i :: 0 <= i < |args| ==> args[i].IntArg? && 0 <= args[i].n <= MAX
    requires post != "" && post[0] == ')'
    ensures ParseFrom("(" + (PrintArgs(args) + post), len, st) == ParseFrom(PrintInts(args[1..]) + post, len, WithArgs(st, [args[0]]))
  {
    IntsStart(args[1..], post);
    OpenNumber(args[0].n, PrintInts(args[1..]) + post, len, st);
    Assoc(Print(args[0].n), PrintInts(args[1..]), post);
  }

  // ------------------------------------------------------- functions and statement

  function WithFuncs(st: State, funcs: seq<Func>): State {
    st.(funcs := st.funcs + funcs)
  }

  lemma SpaceWord(w: string, post: string, len: int)
    requires IsWord(w) && post != "" && !IsLetter(post[0])
    ensures Lex(" " + (w + post), len).0.typ == LookupIdent(w)
    ensures Lex(" " + (w + post), len).0.literal == w && Lex(" " + (w + post), len).1 == post
  {
    LexSpace(w + post, len);
    LexWord(w, post, len);
  }

  lemma NameFunc(w: string, post: string, len: int, st: State)
    requires IsWord(w) && w != "else" && post != "" && !IsLetter(post[0])
    ensures ParseFrom(" " + (w + post), len, st) == ParseFrom(post, len, st.(last := st.last.(name := w)))
  {
    SpaceWord(w, post, len);
    NameTurn(" " + (w + post), post, len, st);
  }

  lemma NameTurn(rest: string, post: string, len: int, st: State)
    requires Lex(rest, len).0.typ == IDENT && Lex(rest, len).1 == post
    ensures ParseFrom(rest, len, st) == ParseFrom(post, len, st.(last := st.last.(name := Lex(rest, len).0.literal)))
  {
  }

  lemma CloseTurn(t: Token, post: string, len: int, st: State)
    requires t.typ == RPAREN
    ensures Take(t, post, len, st) == Go(WithFuncs(st, [st.last]).(last := NO_FUNC), post)
  {
  }

  lemma CloseFunc(post: string, len: int, st: State)
    ensures ParseFrom(")" + post, len, st) == ParseFrom(post, len, WithFuncs(st, [st.last]).(last := NO_FUNC))
  {
    LexSymbol(')', post, len);
    CloseTurn(Lex(")" + post, len).0, post, len, st);
    Turned(")" + post, len, st, WithFuncs(st, [st.last]).(last := NO_FUNC), post);
  }

  lemma OneFunc(f: Func, post: string, len: int, st: State)
    requires GoodFunc(f) && st.last == NO_FUNC && post != ""
    ensures ParseFrom(" " + (f.name + ("(" + (PrintArgs(f.args) + (")" + post)))), len, st) == ParseFrom(post, len, WithFuncs(st, [f]))
  {
    var close := ")" + post;
    var st1 := st.(last := st.last.(name := f.name));
    NameFunc(f.name, "(" + (PrintArgs(f.args) + close), len, st);
    ParseArgs(f.args, close, len, st1);
    CloseFunc(post, len, WithArgs(st1, f.args));
    ReadWhole(f, st);
  }

  lemma ReadWhole(f: Func, st: State)
    requires st.last == NO_FUNC
    ensures var st2 := WithArgs(st.(last := st.last.(name := f.name)), f.args);
            WithFuncs(st2, [st2.last]).(last := NO_FUNC) == WithFuncs(st, [f])
  {
    assert [] + f.args == f.args;
  }

  lemma {:induction false} ParseFuncs(funcs: seq<Func>, post: string, len: int, st: State)
    requires (forall i :: 0 <= i < |funcs| ==> GoodFunc(funcs[i])) && st.last == NO_FUNC && post != ""
    ensures ParseFrom(PrintFuncs(funcs) + post, len, st) == ParseFrom(post, len, WithFuncs(st, funcs))
    decreases |funcs|
  {
    if funcs == [] {
      assert PrintFuncs(funcs) + post == post && st.funcs + [] == st.funcs;
    } else {
      ParseFuncs(funcs[1..], post, len, WithFuncs(st, [funcs[0]]));
      FirstFunc(funcs, post, len, st);
      WithFuncsTwice(st, funcs);
    }
  }

  lemma WithFuncsTwice(st: State, funcs: seq<Func>)
    requires funcs != []
    ensures WithFuncs(WithFuncs(st, [funcs[0]]), funcs[1..]) == WithFuncs(st, funcs)
  {
    assert st.funcs + [funcs[0]] + funcs[1..] == st.funcs + funcs;
  }

  lemma FirstFunc(funcs: seq<Func>, post: string, len: int, st: State)
    requires funcs != [] && GoodFunc(funcs[0]) && st.last == NO_FUNC && post != ""
    ensures ParseFrom(PrintFuncs(funcs) + post, len, st) ==
            ParseFrom(PrintFuncs(funcs[1..]) + post, len, WithFuncs(st, [funcs[0]]))
  {
    var f, rest := funcs[0], PrintFuncs(funcs[1..]);
    FuncText(f.name, PrintArgs(f.args), rest, post);
    OneFunc(f, rest + post, len, st);
  }

  lemma FuncText(name: string, args: string, rest: string, post: string)
    ensures " " + name + "(" + args + ")" + rest + post == " " + (name + ("(" + (args + (")" + (rest + post)))))
  {
    Assoc(" " + name + "(" + args + ")", rest, post);
    Assoc(" " + name + "(" + args, ")", rest + post);
    Assoc(" " + name + "(", args, ")" + (rest + post));
    Assoc(" " + name, "(", args + (")" + (rest + post)));
    Assoc(" ", name, "(" + (args + (")" + (rest + post))));
  }

  lemma ParseEnd(len: int, st: State)
    requires st.name != ""
    ensures ParseFrom("}", len, st) == Parsed(st)
  {
    LexSymbol('}', "", len);
    assert ['}'] + "" == "}";
    Turned("}", len, st, st, "");
  }

  lemma CodeTurn(t: Token, rest: string, len: int, st: State, code: int)
    requires t.typ == ELSE && Lex(rest, len).0.typ == INT && Parse(Lex(rest, len).0.literal) == Some(code)
    ensures Take(t, rest, len, st) == Go(st.(code := code), Lex(rest, len).1)
  {
  }

  lemma TakeCode(code: int, post: string, len: int, st: State)
    requires 0 <= code <= MAX && post != "" && !IsDigit(post[0])
    ensures ParseFrom(" " + ("else" + (" " + (Print(code) + post))), len, st) == ParseFrom(post, len, st.(code := code))
  {
    var d, w: string := Print(code), "else";
    var spaced := " " + (d + post);
    var rest := " " + (w + spaced);
    PrintedNumber(code);
    assert IsWord(w) && LookupIdent(w) == ELSE;
    SpaceWord(w, spaced, len);
    LexSpace(d + post, len);
    LexNumber(d, post, len);
    CodeTurn(Lex(rest, len).0, spaced, len, st, code);
    Turned(rest, len, st, st.(code := code), post);
  }

  lemma ParseCode(code: int, len: int, st: State)
    requires st.name != "" && 0 <= code <= MAX
    ensures ParseFrom(" else " + Print(code) + "}", len, st) == Parsed(st.(code := code))
  {
    var d := Print(code);
    TakeCode(code, "}", len, st);
    ParseEnd(len, st.(code := code));
    CodeText(d);
  }

  lemma CodeText(d: string)
    ensures " else " + d + "}" == " " + ("else" + (" " + (d + "}")))
  {
    assert " else " == " " + ("else" + " ");
    Assoc(" else ", d, "}");
    Assoc(" ", "else" + " ", d + "}");
    Assoc("else", " ", d + "}");
  }

  lemma TakeName(name: string, post: string, len: int, st: State)
    requires IsWord(name) && post != "" && !IsLetter(post[0])
    ensures ParseFrom("{" + (name + post), len, st) == ParseFrom(post, len, st.(name := name))
  {
    LexSymbol('{', name + post, len);
    LexWord(name, post, len);
    Turned("{" + (name + post), len, st, st.(name := name), post);
  }

  lemma TypeWord(typ: ParamType)
    requires typ != Unexpected
    ensures IsWord(TypeName(typ)) && LookupParamType(TypeName(typ)) == typ
  {
  }

  lemma TypeTurn(t: Token, rest: string, len: int, st: State, typ: ParamType)
    requires t.typ == COLON && LookupParamType(Lex(rest, len).0.literal) == typ != Unexpected
    ensures Take(t, rest, len, st) == Go(st.(typ := typ), Lex(rest, len).1)
  {
  }

  lemma TakeType(typ: ParamType, post: string, len: int, st: State)
    requires typ != Unexpected && post != "" && !IsLetter(post[0])
    ensures ParseFrom(":" + (TypeName(typ) + post), len, st) == ParseFrom(post, len, st.(typ := typ))
  {
    var name := TypeName(typ);
    TypeWord(typ);
    LexSymbol(':', name + post, len);
    LexWord(name, post, len);
    TypeTurn(Lex(":" + (name + post), len).0, name + post, len, st, typ);
    Turned(":" + (name + post), len, st, st.(typ := typ), post);
  }

  /** A name with its type, or with none. */
  function HeadText(name: string, typ: ParamType, withType: bool): string {
    name + if withType then ":" + TypeName(typ) else ""
  }

  lemma ParseOwnHead(name: string, typ: ParamType, withType: bool, post: string, len: int)
    requires IsWord(name) && typ != Unexpected && (withType || typ == String) && post != "" && !IsLetter(post[0])
    ensures ParseFrom("{" + (HeadText(name, typ, withType) + post), len, INITIAL) ==
            ParseFrom(post, len, State(name, typ, [], 404, Func("", []), []))
  {
    if withType {
      ParseHead(name, typ, post, len);
      Assoc(":", TypeName(typ), post);
      Assoc(name, ":" + TypeName(typ), post);
    } else {
      TakeName(name, post, len, INITIAL);
      assert name + "" == name;
    }
  }

  lemma ParseHead(name: string, typ: ParamType, post: string, len: int)
    requires IsWord(name) && typ != Unexpected && post != "" && !IsLetter(post[0])
    ensures ParseFrom("{" + (name + (":" + (TypeName(typ) + post))), len, INITIAL) ==
            ParseFrom(post, len, INITIAL.(name := name, typ := typ))
  {
    TakeName(name, ":" + (TypeName(typ) + post), len, INITIAL);
    TakeType(typ, post, len, INITIAL.(name := name));
  }

  /** Parsing undoes printing: name, type, functions and code come back, without an error. A type left out is `string`,
      a code left out is 404. */
  lemma ParsePrinted(st: State, withType: bool, withCode: bool)
    requires WellFormed(st) && (withType || st.typ == String) && (withCode || st.code == 404)
    ensures ParseParam(PrintStatement(st, withType, withCode)) == Parsed(st)
  {
    var src := PrintStatement(st, withType, withCode);
    var end := (if withCode then " else " + Print(st.code) else "") + "}";
    var funcs := PrintFuncs(st.funcs);
    var st1 := State(st.name, st.typ, [], 404, Func("", []), []);
    StatementText(st.name, if withType then ":" + TypeName(st.typ) else "", funcs, if withCode then " else " + Print(st.code) else "");
    FirstNoLetter(st.funcs, end);
    ParseOwnHead(st.name, st.typ, withType, funcs + end, |src|);
    ParseFuncs(st.funcs, end, |src|, st1);
    assert [] + st.funcs == st.funcs;
    if withCode {
      ParseCode(st.code, |src|, WithFuncs(st1, st.funcs));
    } else {
      assert end == "}";
      ParseEnd(|src|, WithFuncs(st1, st.funcs));
    }
  }

  lemma FirstNoLetter(funcs: seq<Func>, end: string)
    requires end != "" && !IsLetter(end[0])
    ensures PrintFuncs(funcs) + end != "" && !IsLetter((PrintFuncs(funcs) + end)[0])
  {
    if funcs == [] {
      assert PrintFuncs(funcs) + end == end;
    }
  }

  lemma StatementText(name: string, typ: string, funcs: string, code: string)
    ensures "{" + name + typ + funcs + code + "}" == "{" + (name + typ + (funcs + (code + "}")))
  {
    Assoc("{" + name + typ + funcs, code, "}");
    Assoc("{" + name + typ, funcs, code + "}");
    Assoc("{", name, typ);
    Assoc("{", name + typ, funcs + (code + "}"));
  }

  // ---------------------------------------------------------------- what is an error

  /** Errors are only added. */
  lemma {:induction false} ErrorsStay(rest: string, len: int, st: State)
    requires ParseFrom(rest, len, st).Parsed?
    ensures st.errors <= ParseFrom(rest, len, st).st.errors
    decreases |rest|
  {
    var (t, r) := Lex(rest, len);
    if t.typ != EOF {
      var turn := Take(t, r, len, st);
      TakeErrors(t, r, len, st);
      ErrorsStay(turn.rest, len, turn.st);
    }
  }

  lemma TakeErrors(t: Token, r: string, len: int, st: State)
    requires Take(t, r, len, st).Go?
    ensures st.errors <= Take(t, r, len, st).st.errors
  {
    match t.typ
    case LPAREN =>
      if PeekType(r) != RPAREN {
        OpenTurn(t, r, len, st);
        WithErrors(st, t, LexDynamic(r, len).token);
      }
    case COLON => WithErrors(st, t, Lex(r, len).0);
    case COMMA => WithErrors(st, t, Lex(r, len).0);
    case ELSE => WithErrors(st, t, Lex(r, len).0);
    case _ =>
  }

  lemma WithErrors(st: State, t: Token, a: Token)
    ensures st.errors <= WithArg(st, t, a).errors && st.errors <= WithType(st, t, a).errors && st.errors <= WithCode(st, t, a).errors
    ensures a.typ != INT || Parse(a.literal).None? ==> |WithCode(st, t, a).errors| > |st.errors|
  {
  }

  /** The errors so far, the error `e` behind them, and then any others. */
  ghost predicate Reports(o: Outcome, before: seq<ParseError>, e: ParseError) {
    o.Parsed? && before <= o.st.errors && |before| < |o.st.errors| && o.st.errors[|before|] == e
  }

  /** An error is kept, whatever follows it. */
  lemma ErrorKept(rest: string, len: int, st: State, e: ParseError)
    requires ParseFrom(rest, len, Err(st, e)).Parsed?
    ensures Reports(ParseFrom(rest, len, Err(st, e)), st.errors, e)
  {
    ErrorsStay(rest, len, Err(st, e));
  }

  lemma TurnReports(rest: string, len: int, st: State, st': State, r': string, e: ParseError)
    requires Lex(rest, len).0.typ != EOF && Take(Lex(rest, len).0, Lex(rest, len).1, len, st) == Go(Err(st', e), r')
    requires st'.errors == st.errors && ParseFrom(rest, len, st).Parsed?
    ensures Reports(ParseFrom(rest, len, st), st.errors, e)
  {
    Turned(rest, len, st, Err(st', e), r');
    ErrorKept(r', len, st', e);
  }

  /** A word that is none of the five types is an error at its colon, whatever follows. */
  lemma UnknownType(name: string, word: string, post: string)
    requires IsWord(name) && IsWord(word) && post != "" && !IsLetter(post[0])
    requires word != "string" && word != "int" && word != "alphabetical" && word != "file" && word != "path"
    requires ParseParam("{" + (name + (":" + (word + post)))).Parsed?
    ensures Reports(ParseParam("{" + (name + (":" + (word + post)))), [], UnexpectedType(1 + |name|, 1 + |name|, word))
  {
    var src := "{" + (name + (":" + (word + post)));
    TakeName(name, ":" + (word + post), |src|, INITIAL);
    ColonAt(word + post, |src|, 1 + |name|);
    TypeColon(word, post, |src|, INITIAL.(name := name));
  }

  lemma ColonAt(tail: string, len: int, at: int)
    requires at == len - 1 - |tail|
    ensures Lex(":" + tail, len).0.start == at && Lex(":" + tail, len).0.end == at
  {
    SymbolAt(':', tail, len);
  }

  lemma TypeColon(word: string, post: string, len: int, st: State)
    requires IsWord(word) && post != "" && !IsLetter(post[0]) && LookupParamType(word) == Unexpected
    requires ParseFrom(":" + (word + post), len, st).Parsed?
    ensures var t := Lex(":" + (word + post), len).0;
            Reports(ParseFrom(":" + (word + post), len, st), st.errors, UnexpectedType(t.start, t.end, word))
  {
    LexSymbol(':', word + post, len);
    LexWord(word, post, len);
    TypeReports(":" + (word + post), word + post, len, st);
  }

  lemma TypeReports(rest: string, tail: string, len: int, st: State)
    requires Lex(rest, len).0.typ == COLON && Lex(rest, len).1 == tail && ParseFrom(rest, len, st).Parsed?
    requires LookupParamType(Lex(tail, len).0.literal) == Unexpected
    ensures var t := Lex(rest, len).0; Reports(ParseFrom(rest, len, st), st.errors, UnexpectedType(t.start, t.end, Lex(tail, len).0.literal))
  {
    var t, name := Lex(rest, len).0, Lex(tail, len).0;
    TypeIs(t, tail, len, st);
    TurnReports(rest, len, st, st.(typ := Unexpected), Lex(tail, len).1, UnexpectedType(t.start, t.end, name.literal));
  }

  lemma TypeIs(t: Token, rest: string, len: int, st: State)
    requires t.typ == COLON
    ensures Take(t, rest, len, st) == Go(WithType(st, t, Lex(rest, len).0), Lex(rest, len).1)
  {
  }

  /** A byte that is no letter, no digit, no white space, none of the signs and not 0 is an error where it stands. */
  lemma IllegalByte(c: char, post: string, len: int, st: State)
    requires !('a' <= c <= 'z') && !('A' <= c <= 'Z') && !('0' <= c <= '9') && c != '_' && c != '\0'
    requires c != ' ' && c != '\t' && c != '\n' && c != '\r'
    requires c != '{' && c != '}' && c != ':' && c != '(' && c != ')' && c != ','
    requires ParseFrom([c] + post, len, st).Parsed?
    ensures var at := len - 1 - |post|; c < 128 as char ==> Reports(ParseFrom([c] + post, len, st), st.errors, IllegalToken(at, at, [c]))
    ensures |ParseFrom([c] + post, len, st).st.errors| > |st.errors|
  {
    var t := IllegalLexed(c, post, len);
    var e := IllegalToken(t.start, t.end, t.literal);
    TurnReports([c] + post, len, st, st, post, e);
  }

  lemma IllegalLexed(c: char, post: string, len: int) returns (t: Token)
    requires ResolveType(c) == IDENT && !IsLetter(c) && !IsDigit(c) && !IsSpace(c)
    ensures t.typ == ILLEGAL && Lex([c] + post, len) == (t, post)
    ensures c < 128 as char ==> t.start == t.end == len - 1 - |post| && t.literal == [c]
  {
    var s := [c] + post;
    NoSpace(s, len);
    assert Current(s) == c && Advance(s) == post;
    t := Lex(s, len).0;
  }

  /** White space in front of a token changes nothing. */
  lemma {:induction false} SpaceSkipped(w: string, post: string, len: int, st: State)
    requires forall i :: 0 <= i < |w| ==> w[i] in " \t\n\r"
    ensures ParseFrom(w + post, len, st) == ParseFrom(post, len, st)
  {
    var n := Run(post, IsSpace);
    var head, tail := w + post[..n], post[n..];
    assert w + post == head + tail;
    assert forall i :: 0 <= i < |head| ==> IsSpace(head[i]);
    RunIs(head, tail, IsSpace);
  }

  /** A number that fits no 64 bits is an error as an argument, at its `(`, and so as a code, at its `else`. */
  lemma LargeArgument(d: string, tail: string, len: int, st: State)
    requires d != "" && AllDigits(d) && Parse(d).None? && (tail == "" || !IsDigit(tail[0]))
    requires ParseFrom("(" + (d + tail), len, st).Parsed?
    ensures var t := Lex("(" + (d + tail), len).0; Reports(ParseFrom("(" + (d + tail), len, st), st.errors, BadArgument(t.start, t.end, d))
  {
    ScanNumber(d, tail, len);
    LexSymbol('(', d + tail, len);
    OpenReports("(" + (d + tail), d + tail, len, st);
  }

  lemma OpenReports(rest: string, tail: string, len: int, st: State)
    requires Lex(rest, len).0.typ == LPAREN && Lex(rest, len).1 == tail && PeekType(tail) != RPAREN && LexDynamic(tail, len).Scanned?
    requires ParseFrom(rest, len, st).Parsed? && ArgOf(LexDynamic(tail, len).token) == None
    ensures var t := Lex(rest, len).0;
            Reports(ParseFrom(rest, len, st), st.errors, BadArgument(t.start, t.end, LexDynamic(tail, len).token.literal))
  {
    var t := Lex(rest, len).0;
    OpenTurn(t, tail, len, st);
    TurnReports(rest, len, st, st, LexDynamic(tail, len).rest, BadArgument(t.start, t.end, LexDynamic(tail, len).token.literal));
  }

  lemma ElseTurn(t: Token, rest: string, len: int, st: State)
    requires t.typ == ELSE
    ensures Take(t, rest, len, st) == Go(WithCode(st, t, Lex(rest, len).0), Lex(rest, len).1)
  {
  }

  lemma LargeCode(d: string, post: string, len: int, st: State)
    requires d != "" && AllDigits(d) && Parse(d).None? && post != "" && !IsDigit(post[0])
    requires ParseFrom(" else " + (d + post), len, st).Parsed?
    ensures var t := Lex(" else " + (d + post), len).0;
            Reports(ParseFrom(" else " + (d + post), len, st), st.errors, CodeOutOfRange(t.start, t.end, d))
  {
    SpaceNumber(d, post, len);
    CodeError(d + post, len, st);
  }

  lemma SpaceNumber(d: string, post: string, len: int)
    requires d != "" && AllDigits(d) && post != "" && !IsDigit(post[0])
    ensures var t := Lex(" " + (d + post), len).0; t.typ == INT && t.literal == d
  {
    LexSpace(d + post, len);
    LexNumber(d, post, len);
  }

  /** A word in the place of the code is an error, at its `else`. */
  lemma CodeWord(w: string, post: string, len: int, st: State)
    requires IsWord(w) && post != "" && !IsLetter(post[0])
    requires ParseFrom(" else " + (w + post), len, st).Parsed?
    ensures var t := Lex(" else " + (w + post), len).0;
            Reports(ParseFrom(" else " + (w + post), len, st), st.errors, CodeNotInteger(t.start, t.end, w))
  {
    SpaceWord(w, post, len);
    LookupWord(w);
    CodeError(w + post, len, st);
  }

  lemma LookupWord(w: string)
    ensures LookupIdent(w) != INT
  {
  }

  /** The error of the token `a`, which stands behind the `else` token `t` and gives no code. */
  function CodeErrorOf(a: Token, t: Token): ParseError {
    if a.typ != INT then CodeNotInteger(t.start, t.end, a.literal) else CodeOutOfRange(t.start, t.end, a.literal)
  }

  lemma CodeError(post: string, len: int, st: State)
    requires var a := Lex(" " + post, len).0; a.typ != INT || Parse(a.literal).None?
    requires ParseFrom(" else " + post, len, st).Parsed?
    ensures var rest := " else " + post;
            Reports(ParseFrom(rest, len, st), st.errors, CodeErrorOf(Lex(" " + post, len).0, Lex(rest, len).0))
  {
    var w: string := "else";
    ElseText(post);
    ElseWord(w);
    SpaceWord(w, " " + post, len);
    ElseReports(" else " + post, " " + post, len, st);
  }

  lemma ElseWord(w: string)
    requires w == "else"
    ensures IsWord(w) && LookupIdent(w) == ELSE
  {
  }

  lemma ElseReports(rest: string, tail: string, len: int, st: State)
    requires Lex(rest, len).0.typ == ELSE && Lex(rest, len).1 == tail && ParseFrom(rest, len, st).Parsed?
    requires var a := Lex(tail, len).0; a.typ != INT || Parse(a.literal).None?
    ensures Reports(ParseFrom(rest, len, st), st.errors, CodeErrorOf(Lex(tail, len).0, Lex(rest, len).0))
  {
    var t, a := Lex(rest, len).0, Lex(tail, len).0;
    ElseTurn(t, tail, len, st);
    WithCodeError(st, t, a);
    TurnReports(rest, len, st, st, Lex(tail, len).1, CodeErrorOf(a, t));
  }

  lemma WithCodeError(st: State, t: Token, a: Token)
    requires a.typ != INT || Parse(a.literal).None?
    ensures WithCode(st, t, a) == Err(st, CodeErrorOf(a, t))
  {
  }

  lemma ElseText(post: string)
    ensures " else " + post == " " + ("else" + (" " + post))
  {
    assert " else " == " " + ("else" + " ");
    Assoc(" ", "else" + " ", post);
    Assoc("else", " ", post);
  }

  /** Where a token says it stands: a word or a number of several bytes at its bytes, one of a single byte one behind it,
      a sign at its byte. `e` is where the token ends. */
  lemma TokenStands(input: string, k: nat) returns (e: nat)
    requires k <= |input|
    ensures var (t, r) := Lex(input[k..], |input|);
            && k <= e <= |input| && r == input[e..]
            && (t.typ == IDENT || t.typ == ELSE || t.typ == INT ==>
                  && 0 < |t.literal| <= e && input[e - |t.literal|..e] == t.literal
                  && if |t.literal| > 1 then t.start == e - |t.literal| && t.end == e - 1 else t.start == t.end == e)
            && (t.typ == LBRACE || t.typ == RBRACE || t.typ == COLON || t.typ == LPAREN || t.typ == RPAREN || t.typ == COMMA ==>
                  0 < e && t.start == t.end == e - 1 && t.literal == [input[e - 1]])
  {
    var rest := input[k..];
    var a := k + Run(rest, IsSpace);
    assert rest[Run(rest, IsSpace)..] == input[a..];
    e := TokenEnds(input, a);
  }

  lemma TokenEnds(input: string, a: nat) returns (e: nat)
    requires a <= |input|
    ensures var (t, r) := LexHere(input[a..], |input|);
            && a <= e <= |input| && r == input[e..]
            && (t.typ == IDENT || t.typ == ELSE || t.typ == INT ==>
                  && 0 < |t.literal| <= e && input[e - |t.literal|..e] == t.literal
                  && if |t.literal| > 1 then t.start == e - |t.literal| && t.end == e - 1 else t.start == t.end == e)
            && (t.typ == LBRACE || t.typ == RBRACE || t.typ == COLON || t.typ == LPAREN || t.typ == RPAREN || t.typ == COMMA ==>
                  0 < e && t.start == t.end == e - 1 && t.literal == [input[e - 1]])
  {
    var s := input[a..];
    var c := Current(s);
    var n := if ResolveType(c) == IDENT && IsLetter(c) then Run(s, IsLetter)
             else if ResolveType(c) == IDENT && IsDigit(c) then Run(s, IsDigit)
             else if s == "" then 0 else 1;
    e := a + n;
    assert s[..n] == input[a..e] && s[n..] == input[e..];
    assert s != "" ==> c == input[a];
  }

  /** A number where no argument and no code is read is an error. */
  lemma NumberAlone(d: string, post: string, len: int, st: State)
    requires d != "" && AllDigits(d) && (post == "" || !IsDigit(post[0])) && ParseFrom(d + post, len, st).Parsed?
    ensures exists e :: Reports(ParseFrom(d + post, len, st), st.errors, e) && e.UnexpectedToken? && e.literal == d
  {
    LexNumber(d, post, len);
    var t := Lex(d + post, len).0;
    var e := UnexpectedToken(t.start, t.end, t.literal);
    TurnReports(d + post, len, st, st, post, e);
  }

  /** A closing brace without a name before it is an error, and so is the end. */
  lemma NamelessBrace(len: int, st: State)
    requires st.name == ""
    ensures ParseFrom("}", len, st) == Parsed(Err(Err(st, ForgottenBrace(len - 1, len - 1)), NameMissing))
  {
    var close: string := "}";
    LexSymbol('}', "", len);
    assert close == ['}'] + "";
    var t := Lex(close, len).0;
    assert t.start == len - 1 && t.end == len - 1;
    Turned(close, len, st, Err(st, ForgottenBrace(len - 1, len - 1)), "");
    assert Run("", IsSpace) == 0;
  }

  /** A `(` right before the last byte is not seen to be closed: it takes an empty string as its argument. */
  lemma OpenLast(len: int, st: State)
    ensures ParseFrom("()", len, st) == ParseFrom(")", len, WithArgs(st, [StrArg("")]))
  {
    var open, close: string := "()", ")";
    LexSymbol('(', close, len);
    assert open == ['('] + close;
    var t := Lex(open, len).0;
    assert PeekType(close) == EOF && Run(close, IsDigit) == 0 && Run(close, NotClose) == 0;
    OpenTurn(t, close, len, st);
    var a := LexDynamic(close, len).token;
    assert a.literal == "" && a.typ == IDENT && close[0..] == close;
    Turned(open, len, st, WithArgs(st, [StrArg("")]), close);
  }

  /** Empty braces are no error: the closing one is taken for the name. */
  lemma EmptyBraces()
    ensures ParseParam("{}") == Parsed(State("}", String, [], 404, Func("", []), []))
  {
    var open, close: string := "{}", "}";
    assert open == ['{'] + close && close == ['}'] + "";
    LexSymbol('{', close, 2);
    LexSymbol('}', "", 2);
    SymbolAt('}', "", 2);
    Turned(open, 2, INITIAL, INITIAL.(name := close), "");
    assert Run("", IsSpace) == 0;
  }

  // ---------------------------------------------------------------- termination

  /** Each `(` has a `)` somewhere behind it. */
  ghost predicate Closes(s: string) {
    forall i :: 0 <= i < |s| && s[i] == '(' ==> ')' in s[i..]
  }

  lemma ClosesDrop(s: string, n: nat)
    requires Closes(s) && n <= |s|
    ensures Closes(s[n..])
  {
    var r := s[n..];
    forall i | 0 <= i < |r| && r[i] == '('
      ensures ')' in r[i..]
    {
      assert s[n + i] == '(' && s[n + i..] == r[i..];
    }
  }

  /** What a token leaves is an end of what there was, and a `(` token was a `(`. */
  lemma LexDrops(s: string, len: int) returns (n: nat)
    ensures n <= |s| && Lex(s, len).1 == s[n..]
    ensures Lex(s, len).0.typ == LPAREN ==> n > 0 && s[n - 1] == '('
  {
    var k := Run(s, IsSpace);
    var t := s[k..];
    n := |s| - |Lex(s, len).1|;
    var m := |t| - |Lex(s, len).1|;
    assert Lex(s, len).1 == t[m..];
    assert t[m..] == s[n..];
  }

  /** Parsing ends, whatever else the source holds, when each `(` has a later `)`. */
  lemma {:induction false} ParsingEnds(rest: string, len: int, st: State)
    requires Closes(rest)
    ensures ParseFrom(rest, len, st).Parsed?
    decreases |rest|
  {
    var (t, r) := Lex(rest, len);
    if t.typ != EOF {
      TurnCloses(rest, len, st);
      var turn := Take(t, r, len, st);
      ParsingEnds(turn.rest, len, turn.st);
    }
  }

  /** A turn does not hang, and leaves an end of the source. */
  lemma TurnCloses(rest: string, len: int, st: State)
    requires Closes(rest) && Lex(rest, len).0.typ != EOF
    ensures var (t, r) := Lex(rest, len);
            var turn := Take(t, r, len, st);
            turn.Go? && |turn.rest| < |rest| && Closes(turn.rest)
  {
    var (t, r) := Lex(rest, len);
    var n := LexDrops(rest, len);
    ClosesDrop(rest, n);
    if t.typ == LPAREN {
      OpenCloses(rest, n);
      Scans(r, len);
    }
    TakeGoes(t, r, len, st);
    var q := TakeDrops(t, r, len, st);
    ClosesDrop(r, q);
  }

  lemma TakeGoes(t: Token, r: string, len: int, st: State)
    requires t.typ == LPAREN ==> LexDynamic(r, len).Scanned?
    ensures Take(t, r, len, st).Go?
  {
  }

  lemma OpenCloses(rest: string, n: nat)
    requires Closes(rest) && 0 < n <= |rest| && rest[n - 1] == '('
    ensures ')' in rest[n..]
  {
    assert ')' in rest[n - 1..];
    assert rest[n - 1..] == ['('] + rest[n..];
  }

  lemma Scans(r: string, len: int)
    requires ')' in r
    ensures LexDynamic(r, len).Scanned?
  {
    var i :| 0 <= i < |r| && r[i] == ')';
    assert Run(r, NotClose) <= i;
  }

  lemma TakeDrops(t: Token, r: string, len: int, st: State) returns (q: nat)
    requires Take(t, r, len, st).Go?
    ensures q <= |r| && Take(t, r, len, st).rest == r[q..]
  {
    if t.typ == LBRACE || t.typ == COLON || t.typ == COMMA || t.typ == ELSE {
      q := LexDrops(r, len);
    } else if t.typ == LPAREN && PeekType(r) != RPAREN {
      q := DynamicDrops(r, len);
      OpenTurn(t, r, len, st);
    } else {
      q := 0;
      assert r[0..] == r;
    }
  }

  lemma DynamicDrops(r: string, len: int) returns (q: nat)
    requires LexDynamic(r, len).Scanned?
    ensures q <= |r| && LexDynamic(r, len).rest == r[q..]
  {
    q := if Run(r, IsDigit) > 0 then Run(r, IsDigit) else Run(r, NotClose);
  }

  /** A `(` whose argument starts like no number and has no `)` behind it is never left. */
  lemma NeverEnds(w: string)
    requires ')' !in w && (w == "" || !IsDigit(w[0]))
    ensures ParseParam("{a:int f(" + w) == Endless
  {
    var src, open: string := "{a:int f(" + w, "(" + w;
    var name, f: string := "a", "f";
    assert IsWord(name) && IsWord(f);
    assert src == "{" + (name + (":" + (TypeName(Int) + (" " + (f + open)))));
    ParseHead(name, Int, " " + (f + open), |src|);
    var st := INITIAL.(name := name, typ := Int);
    NameFunc(f, open, |src|, st);
    Hangs(w, |src|, st.(last := Func(f, [])));
  }

  lemma Hangs(w: string, len: int, st: State)
    requires ')' !in w && (w == "" || !IsDigit(w[0]))
    ensures ParseFrom("(" + w, len, st) == Endless
  {
    LexSymbol('(', w, len);
    NeverCloses(w, len);
    OpenTurn(Lex("(" + w, len).0, w, len, st);
    HangTurn("(" + w, len, st);
  }

  lemma NeverCloses(w: string, len: int)
    requires ')' !in w && (w == "" || !IsDigit(w[0]))
    ensures LexDynamic(w, len) == Diverges && PeekType(w) != RPAREN
  {
    RunIs("", w, IsDigit);
    assert "" + w == w && w + "" == w;
    RunIs(w, "", NotClose);
  }

  lemma HangTurn(rest: string, len: int, st: State)
    requires Lex(rest, len).0.typ != EOF && Take(Lex(rest, len).0, Lex(rest, len).1, len, st) == Hang
    ensures ParseFrom(rest, len, st) == Endless
  {
  }
}
