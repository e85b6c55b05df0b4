/** When reading a route parameter never ends: decided by the text behind the last `)`. */
module MacroEnds {
  import opened Decimal
  import opened MacroLexer
  import opened MacroParser
  import opened MacroRoundTrip

  /** Where the text behind the last `)` starts. */
  function LastClose(s: string): (n: nat)
    ensures n <= |s| && (n > 0 ==> s[n - 1] == ')')
    ensures forall i :: n <= i < |s| ==> s[i] != ')'
  {
    if s == "" || s[|s| - 1] == ')' then |s| else LastClose(s[..|s| - 1])
  }

  /** The text behind the last `)`; all of it when there is none. */
  function Behind(s: string): (r: string)
    ensures ')' !in r
  {
    s[LastClose(s)..]
  }

  /** Read token by token, a `(` comes that no digit follows. The token behind `{`, `:`, `,` or `else` is passed over:
      it is a name, a type, an argument or a code. */
  predicate Sticks(text: string)
    decreases |text|
  {
    var (t, r) := Lex(text, 0);
    if t.typ == EOF then false
    else if t.typ == LPAREN then Run(r, IsDigit) == 0 || Sticks(r[Run(r, IsDigit)..])
    else if TakesNext(t.typ) then Sticks(Lex(r, 0).1)
    else Sticks(r)
  }

  // ------------------------------------------------------------ behind the last `)`

  lemma LexAnywhere(s: string, len: int)
    ensures Lex(s, len).0.typ == Lex(s, 0).0.typ && Lex(s, len).1 == Lex(s, 0).1
  {
  }

  predicate TakesNext(typ: TokenType) {
    typ == LBRACE || typ == COLON || typ == COMMA || typ == ELSE
  }

  lemma NextTurn(t: Token, r: string, len: int, st: State)
    requires TakesNext(t.typ)
    ensures Take(t, r, len, st).Go? && Take(t, r, len, st).rest == Lex(r, len).1
  {
  }

  lemma OtherTurn(t: Token, r: string, len: int, st: State)
    requires !TakesNext(t.typ) && (t.typ == LPAREN ==> PeekType(r) == RPAREN)
    ensures Take(t, r, len, st).Go? && Take(t, r, len, st).rest == r
  {
  }

  /** What a turn leaves of a text without `)`. */
  lemma TurnBehind(t: Token, r: string, len: int, st: State)
    requires ')' !in r
    ensures t.typ == LPAREN ==> Take(t, r, len, st).Hang? == (Run(r, IsDigit) == 0)
    ensures t.typ == LPAREN && Run(r, IsDigit) > 0 ==> Take(t, r, len, st).rest == r[Run(r, IsDigit)..]
    ensures TakesNext(t.typ) ==> Take(t, r, len, st).Go? && Take(t, r, len, st).rest == Lex(r, len).1
    ensures t.typ != LPAREN && !TakesNext(t.typ) ==> Take(t, r, len, st).Go? && Take(t, r, len, st).rest == r
  {
    if t.typ == LPAREN {
      assert PeekType(r) != RPAREN;
      OpenTurn(t, r, len, st);
      assert Run(r, NotClose) == |r|;
    }
  }

  lemma {:induction false} SticksExactly(text: string, len: int, st: State)
    requires ')' !in text
    ensures ParseFrom(text, len, st) == Endless <==> Sticks(text)
    decreases |text|
  {
    var (t, r) := Lex(text, len);
    LexAnywhere(text, len);
    if t.typ != EOF {
      var n := LexDrops(text, len);
      assert ')' !in r;
      TurnBehind(t, r, len, st);
      LexAnywhere(r, len);
      if Take(t, r, len, st).Go? {
        var turn := Take(t, r, len, st);
        var q := TakeDrops(t, r, len, st);
        SticksExactly(turn.rest, len, turn.st);
      }
    }
  }

  // ----------------------------------------------------------- up to the last `)`

  lemma BehindDrop(s: string, n: nat)
    requires n <= |s|
    ensures ')' in s[n..] ==> Behind(s) == Behind(s[n..])
    ensures ')' !in s[n..] && n > 0 && s[n - 1] == ')' ==> Behind(s) == s[n..]
  {
    var r, c := s[n..], LastClose(s);
    assert forall i :: n <= i < |s| ==> s[i] == r[i - n];
    if ')' in r {
      assert c == n + LastClose(r);
      assert r[LastClose(r)..] == s[c..];
    }
  }

  /** A token holds no `)` but the token `)` itself, at its end. */
  lemma LexHereCloses(t: string, len: int) returns (m: nat)
    ensures m <= |t| && LexHere(t, len).1 == t[m..]
    ensures forall i :: 0 <= i < m && t[i] == ')' ==> i == m - 1 && LexHere(t, len).0.typ == RPAREN
    ensures LexHere(t, len).0.typ == EOF ==> t[m..] == "" || (m > 0 && t[0] == '\0')
  {
    var c := Current(t);
    m := if ResolveType(c) == IDENT && IsLetter(c) then Run(t, IsLetter)
         else if ResolveType(c) == IDENT && IsDigit(c) then Run(t, IsDigit)
         else if t == "" then 0 else 1;
  }

  lemma LexCloses(s: string, len: int) returns (n: nat)
    ensures n <= |s| && Lex(s, len).1 == s[n..]
    ensures forall i :: 0 <= i < n && s[i] == ')' ==> i == n - 1 && Lex(s, len).0.typ == RPAREN
    ensures Lex(s, len).0.typ == EOF ==> s[n..] == "" || exists i :: 0 <= i < n && s[i] == '\0'
  {
    var k := Run(s, IsSpace);
    var t := s[k..];
    var m := LexHereCloses(t, len);
    n := k + m;
    assert t[m..] == s[n..];
    assert forall i :: k <= i < |s| ==> s[i] == t[i - k];
    if m > 0 && t[0] == '\0' {
      assert s[k] == '\0';
    }
  }

  /** No byte 0 stands before the last `)`. */
  ghost predicate NoZero(s: string) {
    forall i :: 0 <= i < LastClose(s) ==> s[i] != '\0'
  }

  lemma NoZeroDrop(s: string, n: nat)
    requires NoZero(s) && n <= |s|
    ensures NoZero(s[n..])
  {
    var r := s[n..];
    assert forall i :: 0 <= i < |r| ==> r[i] == s[n + i];
    assert LastClose(r) > 0 ==> n + LastClose(r) <= LastClose(s);
  }

  lemma BehindSelf(s: string)
    requires ')' !in s
    ensures Behind(s) == s
  {
    assert LastClose(s) == 0 && s[0..] == s;
  }

  lemma LexLeaves(r: string, len: int) returns (q: nat)
    requires ')' in r
    ensures q <= |r| && Lex(r, len).1 == r[q..] && Behind(r[q..]) == Behind(r)
  {
    q := LexCloses(r, len);
    BehindDrop(r, q);
    var i :| 0 <= i < |r| && r[i] == ')';
    assert forall k :: q <= k < |r| ==> r[k] == r[q..][k - q];
    if ')' !in r[q..] {
      assert i < q;
      BehindSelf(r[q..]);
    }
  }

  lemma DynamicLeaves(r: string, len: int) returns (q: nat)
    requires ')' in r
    ensures LexDynamic(r, len).Scanned? && q <= |r| && LexDynamic(r, len).rest == r[q..] && Behind(r[q..]) == Behind(r)
  {
    Scans(r, len);
    q := if Run(r, IsDigit) > 0 then Run(r, IsDigit) else Run(r, NotClose);
    var i :| 0 <= i < |r| && r[i] == ')';
    assert r[q..][i - q] == ')';
    BehindDrop(r, q);
  }

  /** A turn with a `)` ahead does not hang, and stays before the last `)` or ends with it. */
  lemma TurnLeaves(t: Token, r: string, len: int, st: State) returns (q: nat)
    requires ')' in r
    ensures Take(t, r, len, st).Go? && q <= |r| && Take(t, r, len, st).rest == r[q..] && Behind(r[q..]) == Behind(r)
  {
    if TakesNext(t.typ) {
      q := LexLeaves(r, len);
      NextTurn(t, r, len, st);
    } else if t.typ == LPAREN && PeekType(r) != RPAREN {
      q := DynamicLeaves(r, len);
      OpenTurn(t, r, len, st);
    } else {
      q := 0;
      OtherTurn(t, r, len, st);
      assert r[0..] == r;
    }
  }

  /** The first token of a text with a `)`. */
  lemma FirstToken(rest: string, len: int) returns (n: nat)
    requires ')' in rest
    ensures n <= |rest| && Lex(rest, len).1 == rest[n..] && Behind(rest[n..]) == Behind(rest)
    ensures Lex(rest, len).0.typ == EOF ==> !NoZero(rest)
    ensures Lex(rest, len).0.typ != EOF && ')' !in rest[n..] ==> Lex(rest, len).0.typ == RPAREN
  {
    n := LexLeaves(rest, len);
    var m := LexCloses(rest, len);
    assert |rest[n..]| == |rest[m..]|;
    var i :| 0 <= i < |rest| && rest[i] == ')';
    assert i >= n ==> rest[n..][i - n] == ')';
    assert LastClose(rest) > i;
  }

  /** One turn of the parser in a text with a `)`. */
  lemma WholeTurn(rest: string, len: int, st: State)
    requires ')' in rest && Lex(rest, len).0.typ != EOF
    ensures var turn := Take(Lex(rest, len).0, Lex(rest, len).1, len, st);
            turn.Go? && |turn.rest| < |rest| && Behind(turn.rest) == Behind(rest) && (NoZero(rest) ==> NoZero(turn.rest))
  {
    var (t, r) := Lex(rest, len);
    var n := FirstToken(rest, len);
    var q := 0;
    if ')' in r {
      q := TurnLeaves(t, r, len, st);
    } else {
      assert r[0..] == r;
    }
    if NoZero(rest) {
      NoZeroDrop(rest, n);
      NoZeroDrop(r, q);
    }
  }

  /** What a turn with a `)` ahead leaves to read. */
  function Leaves(typ: TokenType, r: string): (rest: string)
    ensures |rest| <= |r|
  {
    if TakesNext(typ) then Lex(r, 0).1
    else if typ == LPAREN && PeekType(r) != RPAREN then r[if Run(r, IsDigit) > 0 then Run(r, IsDigit) else Run(r, NotClose)..]
    else r
  }

  /** Read token by token, a byte 0 comes as a token before the last `)`: the lexer takes it for the end. */
  predicate Halts(text: string)
    decreases |text|
  {
    ')' in text &&
    var (t, r) := Lex(text, 0);
    t.typ == EOF || Halts(Leaves(t.typ, r))
  }

  lemma TurnIs(t: Token, r: string, len: int, st: State)
    requires ')' in r || t.typ == RPAREN
    ensures Take(t, r, len, st).Go? && Take(t, r, len, st).rest == Leaves(t.typ, r)
  {
    if TakesNext(t.typ) {
      NextTurn(t, r, len, st);
      LexAnywhere(r, len);
    } else if t.typ == LPAREN && PeekType(r) != RPAREN {
      Scans(r, len);
      OpenTurn(t, r, len, st);
    } else {
      OtherTurn(t, r, len, st);
    }
  }

  lemma HaltsTurn(rest: string, len: int, st: State)
    requires ')' in rest && Lex(rest, len).0.typ != EOF
    ensures var turn := Take(Lex(rest, len).0, Lex(rest, len).1, len, st); turn.Go? && Halts(rest) == Halts(turn.rest)
  {
    LexAnywhere(rest, len);
    var n := FirstToken(rest, len);
    TurnIs(Lex(rest, len).0, Lex(rest, len).1, len, st);
  }

  /** Parsing never ends exactly when the text behind the last `)` sticks and no byte 0 ends it before. */
  lemma {:induction false} EndlessFrom(rest: string, len: int, st: State)
    ensures ParseFrom(rest, len, st) == Endless <==> Sticks(Behind(rest)) && !Halts(rest)
    decreases |rest|
  {
    if ')' !in rest {
      BehindSelf(rest);
      SticksExactly(rest, len, st);
    } else if Lex(rest, len).0.typ == EOF {
      LexAnywhere(rest, len);
    } else {
      WholeTurn(rest, len, st);
      HaltsTurn(rest, len, st);
      var turn := Take(Lex(rest, len).0, Lex(rest, len).1, len, st);
      EndlessFrom(turn.rest, len, turn.st);
    }
  }

  /** Without a byte 0 before the last `)` nothing ends the text before it. */
  lemma {:induction false} NoZeroNoHalt(text: string)
    requires NoZero(text)
    ensures !Halts(text)
    decreases |text|
  {
    if ')' in text {
      var _ := FirstToken(text, 0);
      WholeTurn(text, 0, INITIAL);
      HaltsTurn(text, 0, INITIAL);
      NoZeroNoHalt(Take(Lex(text, 0).0, Lex(text, 0).1, 0, INITIAL).rest);
    }
  }

  /** The parser never ends on a source exactly when the text behind the last `)` sticks and no byte 0 is taken for the
      end before. */
  lemma EndlessExactly(src: string)
    ensures ParseParam(src) == Endless <==> Sticks(Behind(src)) && !Halts(src)
  {
    EndlessFrom(src, |src|, INITIAL);
  }

  /** So without a byte 0 before the last `)` the text behind it decides. */
  lemma EndlessPlain(src: string)
    requires NoZero(src)
    ensures ParseParam(src) == Endless <==> Sticks(Behind(src))
  {
    NoZeroNoHalt(src);
    EndlessExactly(src);
  }

  // ---------------------------------------------------------------- one open function

  lemma NoOpenCloses(w: string)
    requires '(' !in w
    ensures Closes(w)
  {
  }

  /** Behind an open parenthesis: no `)`, and no digit that makes a number of the argument. */
  lemma OpenEndless(w: string, len: int, st: State)
    requires '(' !in w
    ensures ParseFrom("(" + w, len, st) == Endless <==> ')' !in w && (w == "" || !IsDigit(w[0]))
  {
    if ')' !in w && (w == "" || !IsDigit(w[0])) {
      Hangs(w, len, st);
    } else {
      OpenEnds(w, len, st);
    }
  }

  lemma OpenEnds(w: string, len: int, st: State)
    requires '(' !in w && (')' in w || (w != "" && IsDigit(w[0])))
    ensures ParseFrom("(" + w, len, st).Parsed?
  {
    LexSymbol('(', w, len);
    DynamicScans(w, len);
    ArgumentEnds("(" + w, w, len, st);
  }

  /** A turn that reads an argument and leaves no `(`. */
  lemma ArgumentEnds(rest: string, w: string, len: int, st: State)
    requires Lex(rest, len).0.typ == LPAREN && Lex(rest, len).1 == w && LexDynamic(w, len).Scanned? && '(' !in w
    ensures ParseFrom(rest, len, st).Parsed?
  {
    var t := Lex(rest, len).0;
    TakeGoes(t, w, len, st);
    var turn := Take(t, w, len, st);
    var q := TakeDrops(t, w, len, st);
    NoOpenCloses(w[q..]);
    ParsingEnds(turn.rest, len, turn.st);
  }

  lemma DynamicScans(w: string, len: int)
    requires ')' in w || (w != "" && IsDigit(w[0]))
    ensures LexDynamic(w, len).Scanned?
  {
    if ')' in w {
      Scans(w, len);
    } else {
      assert Run(w, IsDigit) > 0;
    }
  }

  /** A statement broken off in the arguments of a function, whatever stands before that. */
  lemma OpenExactly(name: string, typ: ParamType, funcs: seq<Func>, f: string, w: string)
    requires IsWord(name) && typ != Unexpected && (forall i :: 0 <= i < |funcs| ==> GoodFunc(funcs[i]))
    requires IsWord(f) && f != "else" && '(' !in w
    ensures ParseParam("{" + (name + (":" + (TypeName(typ) + (PrintFuncs(funcs) + (" " + (f + ("(" + w)))))))) == Endless <==>
              ')' !in w && (w == "" || !IsDigit(w[0]))
  {
    var open := " " + (f + ("(" + w));
    var src := "{" + (name + (":" + (TypeName(typ) + (PrintFuncs(funcs) + open))));
    var st := INITIAL.(name := name, typ := typ);
    FirstNoLetter(funcs, open);
    ParseHead(name, typ, PrintFuncs(funcs) + open, |src|);
    ParseFuncs(funcs, open, |src|, st);
    var st' := WithFuncs(st, funcs);
    NameFunc(f, "(" + w, |src|, st');
    OpenEndless(w, |src|, st'.(last := st'.last.(name := f)));
  }
}
