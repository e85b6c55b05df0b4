/** The parser of one route parameter, `{name:type f(1,2) g(x) else 404}`. */
module MacroParser {
  import opened Options
  import opened Decimal
  import opened MacroLexer

  datatype ParamType = Unexpected | String | Int | Alphabetical | File | Path

  function LookupParamType(ident: string): ParamType {
    if ident == "string" then String
    else if ident == "int" then Int
    else if ident == "alphabetical" then Alphabetical
    else if ident == "file" then File
    else if ident == "path" then Path
    else Unexpected
  }

  datatype Arg = IntArg(n: int) | StrArg(s: string)
  datatype Func = Func(name: string, args: seq<Arg>)

  const NO_FUNC := Func("", [])
  const DEFAULT_CODE := 404

  datatype ParseError =
    | NameMissing
    | UnexpectedType(start: int, end: int, literal: string)
    | BadArgument(start: int, end: int, literal: string)
    | CodeNotInteger(start: int, end: int, literal: string)
    | CodeOutOfRange(start: int, end: int, literal: string)
    | ForgottenBrace(start: int, end: int)
    | IllegalToken(start: int, end: int, literal: string)
    | UnexpectedToken(start: int, end: int, literal: string)

  /** A statement being read, with the function being read and the errors so far. */
  datatype State = State(name: string, typ: ParamType, funcs: seq<Func>, code: int, last: Func, errors: seq<ParseError>)

  const INITIAL := State("", String, [], DEFAULT_CODE, NO_FUNC, [])

  datatype Outcome = Endless | Parsed(st: State)

  function Err(st: State, e: ParseError): State {
    st.(errors := st.errors + [e])
  }

  function ArgOf(t: Token): Option<Arg> {
    if t.typ != INT then Some(StrArg(t.literal))
    else
      match Parse(t.literal)
      case None => None
      case Some(n) => Some(IntArg(n))
  }

  /** Take the argument token `a`, after the token `t`. */
  function WithArg(st: State, t: Token, a: Token): State {
    match ArgOf(a)
    case None => Err(st, BadArgument(t.start, t.end, a.literal))
    case Some(arg) => st.(last := st.last.(args := st.last.args + [arg]))
  }

  function WithType(st: State, t: Token, name: Token): State {
    var typ := LookupParamType(name.literal);
    var r := if typ == Unexpected then Err(st, UnexpectedType(t.start, t.end, name.literal)) else st;
    r.(typ := typ)
  }

  function WithCode(st: State, t: Token, code: Token): State {
    if code.typ != INT then Err(st, CodeNotInteger(t.start, t.end, code.literal))
    else
      match Parse(code.literal)
      case None => Err(st, CodeOutOfRange(t.start, t.end, code.literal))
      case Some(n) => st.(code := n)
  }

  datatype Turn = Hang | Go(st: State, rest: string)

  /** What the token `t` does, when `rest` is left behind it. */
  function Take(t: Token, rest: string, len: int, st: State): (r: Turn)
    ensures r.Go? ==> |r.rest| <= |rest|
  {
    match t.typ
    case LBRACE => var (n, r) := Lex(rest, len); Go(st.(name := n.literal), r)
    case COLON => var (n, r) := Lex(rest, len); Go(WithType(st, t, n), r)
    case IDENT => Go(st.(last := st.last.(name := t.literal)), rest)
    case LPAREN =>
      if PeekType(rest) == RPAREN then Go(st, rest)
      else (
        match LexDynamic(rest, len)
        case Diverges => Hang
        case Scanned(a, r) => Go(WithArg(st, t, a), r))
    case COMMA => var (a, r) := Lex(rest, len); Go(WithArg(st, t, a), r)
    case RPAREN => Go(st.(funcs := st.funcs + [st.last], last := NO_FUNC), rest)
    case ELSE => var (n, r) := Lex(rest, len); Go(WithCode(st, t, n), r)
    case RBRACE => Go(if st.name == "" then Err(st, ForgottenBrace(t.start, t.end)) else st, rest)
    case ILLEGAL => Go(Err(st, IllegalToken(t.start, t.end, t.literal)), rest)
    case _ => Go(Err(st, UnexpectedToken(t.start, t.end, t.literal)), rest)
  }

  function ParseFrom(rest: string, len: int, st: State): Outcome
    decreases |rest|
  {
    var (t, r) := Lex(rest, len);
    if t.typ == EOF then Parsed(if st.name == "" then Err(st, NameMissing) else st)
    else
      match Take(t, r, len, st)
      case Hang => Endless
      case Go(st', r') => ParseFrom(r', len, st')
  }

  function ParseParam(src: string): Outcome {
    ParseFrom(src, |src|, INITIAL)
  }

  class ParamParser {
    var src: string
    var errors: seq<ParseError>

    constructor (src: string)
      ensures this.src == src && errors == []
    {
      this.src, errors := src, [];
    }

    /** Forget the errors and take another source. */
    method Reset(src: string)
      modifies this
      ensures this.src == src && errors == []
    {
      this.src, errors := src, [];
    }

    /** Read the source. It must not be one on which the lexer never stops. */
    method ParseStatement() returns (st: State)
      requires ParseParam(src).Parsed?
      modifies this`errors
      ensures ParseParam(src) == Parsed(st) && errors == old(errors) + st.errors
    {
      var l := new Lexer(src);
      ghost var goal := ParseParam(src);
      st := INITIAL;
      while true
        invariant l.Valid() && fresh(l) && l.input == src && src == old(src) && errors == old(errors)
        invariant ParseFrom(l.Rest(), |src|, st) == goal
        decreases |l.Rest()|
      {
        ghost var rest := l.Rest();
        var t := l.NextToken();
        if t.typ == EOF {
          if st.name == "" {
            st := Err(st, NameMissing);
          }
          break;
        }
        match t.typ {
          case LBRACE =>
            var next := l.NextToken();
            st := st.(name := next.literal);
          case COLON =>
            var next := l.NextToken();
            st := WithType(st, t, next);
          case IDENT =>
            st := st.(last := st.last.(name := t.literal));
          case LPAREN =>
            var peek := l.PeekNextTokenType();
            if peek != RPAREN {
              var a := l.NextDynamicToken();
              st := WithArg(st, t, a);
            }
          case COMMA =>
            var a := l.NextToken();
            st := WithArg(st, t, a);
          case RPAREN =>
            st := st.(funcs := st.funcs + [st.last], last := NO_FUNC);
          case ELSE =>
            var code := l.NextToken();
            st := WithCode(st, t, code);
          case RBRACE =>
            if st.name == "" {
              st := Err(st, ForgottenBrace(t.start, t.end));
            }
          case ILLEGAL =>
            st := Err(st, IllegalToken(t.start, t.end, t.literal));
          case _ =>
            st := Err(st, UnexpectedToken(t.start, t.end, t.literal));
        }
      }
      errors := errors + st.errors;
    }
  }
}
