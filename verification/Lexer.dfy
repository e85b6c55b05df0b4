/** The lexer of route parameters: a cursor over `{id:int min(1) else 404}`. */
module MacroLexer {
  import opened Decimal

  datatype TokenType = EOF | ILLEGAL | LBRACE | RBRACE | COLON | LPAREN | RPAREN | COMMA | IDENT | ELSE | INT

  datatype Token = Token(typ: TokenType, literal: string, start: int, end: int)

  predicate IsLetter(c: char) {
    'a' <= c <= 'z' || 'A' <= c <= 'Z' || c == '_'
  }

  predicate IsSpace(c: char) {
    c == ' ' || c == '\t' || c == '\n' || c == '\r'
  }

  function ResolveType(c: char): TokenType {
    match c
    case '{' => LBRACE
    case '}' => RBRACE
    case ':' => COLON
    case '(' => LPAREN
    case ')' => RPAREN
    case ',' => COMMA
    case '\0' => EOF
    case _ => IDENT
  }

  function LookupIdent(ident: string): TokenType {
    if ident == "else" then ELSE else IDENT
  }

  /** The byte under the cursor when `rest` is left, 0 at the end. */
  function Current(rest: string): char {
    if rest == "" then '\0' else rest[0]
  }

  function Advance(rest: string): string {
    if rest == "" then "" else rest[1..]
  }

  /** How many bytes from the cursor on satisfy `p`. */
  function Run(rest: string, p: char -> bool): (n: nat)
    ensures n <= |rest|
    ensures forall i :: 0 <= i < n ==> p(rest[i])
    ensures n < |rest| ==> !p(rest[n])
  {
    if rest == "" || !p(rest[0]) then 0
    else
      var n := Run(rest[1..], p);
      assert forall i :: 0 < i < n + 1 ==> rest[i] == rest[1..][i - 1];
      n + 1
  }

  /** A token that ends before `pos`; tokens of one byte stand at `pos`. */
  function NewToken(typ: TokenType, lit: string, pos: int): Token {
    if pos > 1 && |lit| > 1 then Token(typ, lit, pos - |lit|, pos - 1) else Token(typ, lit, pos, pos)
  }

  /** A byte as a string: bytes above 127 become the two of its UTF-8 form. */
  function ByteString(c: char): (r: string)
    ensures c < 128 as char ==> r == [c]
    ensures 128 as char <= c < 256 as char ==>
              |r| == 2 && 192 as char <= r[0] < 224 as char && 128 as char <= r[1] < 192 as char
              && (r[0] as int - 192) * 64 + (r[1] as int - 128) == c as int
  {
    var b := c as int;
    if b < 128 || b > 255 then [c] else [(192 + b / 64) as char, (128 + b % 64) as char]
  }

  /** The next token when `rest` is left of an input of `len` bytes, and what is left then. */
  function Lex(rest: string, len: int): (r: (Token, string))
    ensures |r.1| <= |rest|
    ensures r.0.typ != EOF ==> |r.1| < |rest|
  {
    LexHere(rest[Run(rest, IsSpace)..], len)
  }

  function LexHere(s: string, len: int): (r: (Token, string))
    ensures |r.1| <= |s|
    ensures r.0.typ != EOF ==> |r.1| < |s|
  {
    var c := Current(s);
    var typ := ResolveType(c);
    if typ == EOF then (Token(EOF, "", 0, 0), Advance(s))
    else if typ == IDENT && IsLetter(c) then
      var n := Run(s, IsLetter);
      (NewToken(LookupIdent(s[..n]), s[..n], len - |s| + n), s[n..])
    else if typ == IDENT && IsDigit(c) then
      var n := Run(s, IsDigit);
      (NewToken(INT, s[..n], len - |s| + n), s[n..])
    else
      (NewToken(if typ == IDENT then ILLEGAL else typ, ByteString(c), len - |s|), Advance(s))
  }

  predicate NotClose(c: char) {
    c != ')'
  }

  datatype Scan = Diverges | Scanned(token: Token, rest: string)

  /** A number, or everything up to the next `)`; the scan for a `)` that is not there never ends. */
  function LexDynamic(rest: string, len: int): (r: Scan)
    ensures r.Scanned? ==> |r.rest| <= |rest|
  {
    var n := Run(rest, IsDigit);
    if n > 0 then Scanned(NewToken(INT, rest[..n], len - |rest| + n), rest[n..])
    else
      var e := Run(rest, NotClose);
      if e == |rest| then Diverges else Scanned(NewToken(IDENT, rest[..e], len - |rest| + e), rest[e..])
  }

  /** The type of the byte under the cursor, unless that is the last one. */
  function PeekType(rest: string): TokenType {
    if |rest| > 1 then ResolveType(rest[0]) else EOF
  }

  class Lexer {
    const input: string
    var pos: nat
    var readPos: nat
    var ch: char

    ghost predicate Valid()
      reads this
    {
      readPos == pos + 1 && ch == Current(Rest())
    }

    /** What is left from the cursor on. */
    ghost function Rest(): string
      reads this
    {
      if pos <= |input| then input[pos..] else ""
    }

    constructor (src: string)
      ensures Valid() && input == src && Rest() == src && pos == 0
    {
      input, pos, readPos := src, 0, 0;
      new;
      ReadChar();
    }

    /** Step to the byte at the reading position. */
    method ReadChar()
      modifies this
      ensures Valid() && pos == old(readPos)
    {
      if readPos >= |input| {
        ch := '\0';
      } else {
        ch := input[readPos];
      }
      pos := readPos;
      readPos := readPos + 1;
    }

    /** Step over the bytes that satisfy `p` and return them. */
    method ReadWhile(p: char -> bool) returns (lit: string)
      requires Valid() && !p('\0') && pos <= |input|
      modifies this
      ensures Valid() && pos <= |input|
      ensures var n := Run(old(Rest()), p); lit == old(Rest())[..n] && Rest() == old(Rest())[n..] && pos == old(pos) + n
    {
      ghost var n := Run(Rest(), p);
      var start := pos;
      while p(ch)
        invariant Valid() && start <= pos <= start + n && start + n <= |input|
        invariant n - (pos - start) == Run(Rest(), p)
        decreases start + n - pos
      {
        ReadChar();
      }
      lit := input[start..pos];
    }

    method NextToken() returns (t: Token)
      requires Valid()
      modifies this
      ensures Valid()
      ensures var r := Lex(old(Rest()), |input|); t == r.0 && Rest() == r.1
    {
      ghost var rest := Rest();
      if pos > |input| {
        ReadChar();
        return Token(EOF, "", 0, 0);
      }
      var _ := ReadWhile(IsSpace);
      t := TokenHere();
    }

    method TokenHere() returns (t: Token)
      requires Valid() && pos <= |input|
      modifies this
      ensures Valid()
      ensures var r := LexHere(old(Rest()), |input|); t == r.0 && Rest() == r.1
    {
      var typ := ResolveType(ch);
      if typ == EOF {
        ReadChar();
        return Token(EOF, "", 0, 0);
      }
      if typ == IDENT && IsLetter(ch) {
        var lit := ReadWhile(IsLetter);
        return NewToken(LookupIdent(lit), lit, pos);
      }
      if typ == IDENT && IsDigit(ch) {
        var lit := ReadWhile(IsDigit);
        return NewToken(INT, lit, pos);
      }
      t := NewToken(if typ == IDENT then ILLEGAL else typ, ByteString(ch), pos);
      ReadChar();
    }

    /** A number, or everything up to the next `)`; it must not be called where that scan never ends. */
    method NextDynamicToken() returns (t: Token)
      requires Valid() && pos <= |input| && LexDynamic(Rest(), |input|).Scanned?
      modifies this
      ensures Valid() && LexDynamic(old(Rest()), |input|) == Scanned(t, Rest())
    {
      var lit := ReadWhile(IsDigit);
      if lit != "" {
        return NewToken(INT, lit, pos);
      }
      lit := ReadArgument();
      t := NewToken(IDENT, lit, pos);
    }

    /** Everything up to the next `)`. */
    method ReadArgument() returns (lit: string)
      requires Valid() && pos <= |input| && Run(Rest(), NotClose) < |Rest()|
      modifies this
      ensures Valid() && pos <= |input|
      ensures var e := Run(old(Rest()), NotClose);
              lit == old(Rest())[..e] && Rest() == old(Rest())[e..] && pos == old(pos) + e
    {
      ghost var e := Run(Rest(), NotClose);
      var start := pos;
      while ResolveType(ch) != RPAREN
        invariant Valid() && start <= pos <= start + e && start + e < |input|
        invariant e - (pos - start) == Run(Rest(), NotClose)
        decreases start + e - pos
      {
        ReadChar();
      }
      lit := input[start..pos];
    }

    method PeekNextTokenType() returns (typ: TokenType)
      requires Valid()
      ensures typ == PeekType(Rest())
    {
      if |input| - 1 > pos {
        typ := ResolveType(input[pos]);
      } else {
        typ := ResolveType('\0');
      }
    }
  }
}
