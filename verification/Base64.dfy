/** Base64 with the URL and file name safe alphabet and padding, section 5 of RFC 4648. */
module Base64 {
  import opened Options

  ghost predicate IsBytes(s: string) {
    forall i :: 0 <= i < |s| ==> s[i] < 256 as char
  }

  function Symbol(n: nat): (c: char)
    requires n < 64
    ensures ValueOf(c) == n && c != '='
  {
    if n < 26 then ('A' as int + n) as char
    else if n < 52 then ('a' as int + n - 26) as char
    else if n < 62 then ('0' as int + n - 52) as char
    else if n == 62 then '-'
    else '_'
  }

  /** The six bits of a symbol, or -1. */
  function ValueOf(c: char): (n: int)
    ensures -1 <= n < 64
  {
    if 'A' <= c <= 'Z' then c as int - 'A' as int
    else if 'a' <= c <= 'z' then c as int - 'a' as int + 26
    else if '0' <= c <= '9' then c as int - '0' as int + 52
    else if c == '-' then 62
    else if c == '_' then 63
    else -1
  }

  function Low(c: char): (n: nat)
    ensures n < 256
  {
    c as int % 256
  }

  /** Three bytes as four symbols. */
  function Quad(x: nat, y: nat, z: nat): string
    requires x < 256 && y < 256 && z < 256
  {
    [Symbol(x / 4), Symbol(x % 4 * 16 + y / 16), Symbol(y % 16 * 4 + z / 64), Symbol(z % 64)]
  }

  function Encode(s: string): string {
    if s == "" then ""
    else if |s| == 1 then Quad(Low(s[0]), 0, 0)[..2] + "=="
    else if |s| == 2 then Quad(Low(s[0]), Low(s[1]), 0)[..3] + "="
    else Quad(Low(s[0]), Low(s[1]), Low(s[2])) + Encode(s[3..])
  }

  /** Line breaks are skipped anywhere. */
  function Unbroken(s: string): string {
    if s == "" then ""
    else if s[0] == '\r' || s[0] == '\n' then Unbroken(s[1..])
    else [s[0]] + Unbroken(s[1..])
  }

  function DecodeQuads(s: string): Option<string> {
    if s == "" then Some("")
    else if |s| < 4 then None
    else
      var a, b, c, d := ValueOf(s[0]), ValueOf(s[1]), ValueOf(s[2]), ValueOf(s[3]);
      if a < 0 || b < 0 then None
      else if s[2] == '=' then if s[3] == '=' && |s| == 4 then Some([(a * 4 + b / 16) as char]) else None
      else if c < 0 then None
      else if s[3] == '=' then if |s| == 4 then Some([(a * 4 + b / 16) as char, (b % 16 * 16 + c / 4) as char]) else None
      else if d < 0 then None
      else
        match DecodeQuads(s[4..])
        case None => None
        case Some(rest) => Some([(a * 4 + b / 16) as char, (b % 16 * 16 + c / 4) as char, (c % 4 * 64 + d) as char] + rest)
  }

  function Decode(s: string): Option<string> {
    DecodeQuads(Unbroken(s))
  }

  ghost predicate Symbols(s: string) {
    forall i :: 0 <= i < |s| ==> ValueOf(s[i]) >= 0 || s[i] == '='
  }

  lemma {:induction false} EncodeSymbols(s: string)
    ensures Symbols(Encode(s))
    decreases |s|
  {
    if |s| > 2 {
      EncodeSymbols(s[3..]);
    }
  }

  lemma {:induction false} SymbolsUnbroken(s: string)
    requires Symbols(s)
    ensures Unbroken(s) == s
    decreases |s|
  {
    if s != "" {
      assert ValueOf(s[0]) >= 0 || s[0] == '=';
      SymbolsUnbroken(s[1..]);
    }
  }

  /** Three bytes as four groups of six bits, and back. */
  lemma SixBits(x: nat, y: nat, z: nat)
    requires x < 256 && y < 256 && z < 256
    ensures var a, b, c, d := x / 4, x % 4 * 16 + y / 16, y % 16 * 4 + z / 64, z % 64;
            a < 64 && b < 64 && c < 64 && d < 64 && a * 4 + b / 16 == x && b % 16 * 16 + c / 4 == y && c % 4 * 64 + d == z
  {
  }

  lemma QuadDecoded(x: nat, y: nat, z: nat, rest: string)
    requires x < 256 && y < 256 && z < 256 && DecodeQuads(rest).Some?
    ensures DecodeQuads(Quad(x, y, z) + rest) == Some([x as char, y as char, z as char] + DecodeQuads(rest).value)
  {
    SixBits(x, y, z);
    assert (Quad(x, y, z) + rest)[4..] == rest;
  }

  lemma PairDecoded(x: nat, y: nat)
    requires x < 256 && y < 256
    ensures DecodeQuads(Quad(x, y, 0)[..3] + "=") == Some([x as char, y as char])
  {
    SixBits(x, y, 0);
  }

  lemma OneDecoded(x: nat)
    requires x < 256
    ensures DecodeQuads(Quad(x, 0, 0)[..2] + "==") == Some([x as char])
  {
    SixBits(x, 0, 0);
  }

  lemma FirstThree(s: string)
    requires IsBytes(s) && |s| > 2
    ensures Low(s[0]) as char == s[0] && Low(s[1]) as char == s[1] && Low(s[2]) as char == s[2]
    ensures [s[0], s[1], s[2]] + s[3..] == s && IsBytes(s[3..])
  {
  }

  lemma {:induction false} QuadsEncode(s: string)
    requires IsBytes(s)
    ensures DecodeQuads(Encode(s)) == Some(s)
    decreases |s|
  {
    if |s| > 2 {
      var rest := s[3..];
      FirstThree(s);
      QuadsEncode(rest);
      EncodeStep(s);
      QuadDecoded(Low(s[0]), Low(s[1]), Low(s[2]), Encode(rest));
    } else if |s| == 2 {
      PairDecoded(Low(s[0]), Low(s[1]));
      assert s == [s[0], s[1]];
    } else if |s| == 1 {
      OneDecoded(Low(s[0]));
      assert s == [s[0]];
    }
  }

  lemma EncodeStep(s: string)
    requires |s| > 2
    ensures Encode(s) == Quad(Low(s[0]), Low(s[1]), Low(s[2])) + Encode(s[3..])
  {
  }

  /** Decoding undoes encoding, and an encoded string has neither `|` nor a line break. */
  lemma DecodeEncode(s: string)
    requires IsBytes(s)
    ensures Decode(Encode(s)) == Some(s) && '|' !in Encode(s)
  {
    EncodeSymbols(s);
    SymbolsUnbroken(Encode(s));
    QuadsEncode(s);
  }

  // ------------------------------------------------------------ the form, spelled out

  /** The alphabet by its codes: `A` to `Z`, `a` to `z`, `0` to `9`, `-` and `_`. */
  function Letter(n: nat): (c: char)
    requires n < 64
  {
    (if n < 26 then 65 + n else if n < 52 then 71 + n else if n < 62 then n - 4 else if n == 62 then 45 else 95) as char
  }

  predicate IsLetter(c: char) {
    65 <= c as int <= 90 || 97 <= c as int <= 122 || 48 <= c as int <= 57 || c as int == 45 || c as int == 95
  }

  /** The symbols are those of the alphabet, in order. */
  lemma AlphabetOrder(n: nat)
    requires n < 64
    ensures Symbol(n) == Letter(n)
  {
  }

  /** The symbols of a number of 24 bits, the highest six first. */
  function SymbolsOf(n: nat): (r: string)
    ensures |r| == 4
  {
    [Letter(n / 64 / 64 / 64 % 64), Letter(n / 64 / 64 % 64), Letter(n / 64 % 64), Letter(n % 64)]
  }

  lemma QuadNumber(x: nat, y: nat, z: nat)
    requires x < 256 && y < 256 && z < 256
    ensures Quad(x, y, z) == SymbolsOf(x * 65536 + y * 256 + z)
  {
    var a, b, c, d := x / 4, x % 4 * 16 + y / 16, y % 16 * 4 + z / 64, z % 64;
    SixBits(x, y, z);
    Sixes(x * 65536 + y * 256 + z, a, b, c, d);
    QuadOf(x, y, z, a, b, c, d);
  }

  lemma QuadOf(x: nat, y: nat, z: nat, a: nat, b: nat, c: nat, d: nat)
    requires x < 256 && y < 256 && z < 256 && a < 64 && b < 64 && c < 64 && d < 64
    requires a == x / 4 && b == x % 4 * 16 + y / 16 && c == y % 16 * 4 + z / 64 && d == z % 64
    ensures Quad(x, y, z) == [Letter(a), Letter(b), Letter(c), Letter(d)]
  {
    AlphabetOrder(a);
    AlphabetOrder(b);
    AlphabetOrder(c);
    AlphabetOrder(d);
  }

  /** A number of four groups of six bits. */
  lemma Sixes(n: nat, a: nat, b: nat, c: nat, d: nat)
    requires a < 64 && b < 64 && c < 64 && d < 64 && n == 262144 * a + 4096 * b + 64 * c + d
    ensures SymbolsOf(n) == [Letter(a), Letter(b), Letter(c), Letter(d)]
  {
    Digit64(n, 4096 * a + 64 * b + c, d);
    Digit64(4096 * a + 64 * b + c, 64 * a + b, c);
    Digit64(64 * a + b, a, b);
    Digit64(a, 0, a);
  }

  lemma Digit64(n: nat, m: nat, r: nat)
    requires n == 64 * m + r && r < 64
    ensures n / 64 == m && n % 64 == r
  {
  }

  /** The text of bytes, three at a time by `group`; the last group is filled up with zero bytes, whose symbols are
      replaced by padding. */
  function Grouped(s: string, group: (nat, nat, nat) -> string): string
    requires forall x, y, z :: |group(x, y, z)| == 4
  {
    if s == "" then ""
    else if |s| == 1 then group(Low(s[0]), 0, 0)[..2] + "=="
    else if |s| == 2 then group(Low(s[0]), Low(s[1]), 0)[..3] + "="
    else group(Low(s[0]), Low(s[1]), Low(s[2])) + Grouped(s[3..], group)
  }

  lemma {:induction false} EncodeGrouped(s: string, group: (nat, nat, nat) -> string)
    requires forall x, y, z :: |group(x, y, z)| == 4
    requires forall x: nat, y: nat, z: nat :: x < 256 && y < 256 && z < 256 ==> group(x, y, z) == Quad(x, y, z)
    ensures Encode(s) == Grouped(s, group)
    decreases |s|
  {
    if |s| > 2 {
      EncodeStep(s);
      EncodeGrouped(s[3..], group);
    }
  }

  /** Three bytes as one number, the first byte highest, in symbols. */
  function InSymbols(x: nat, y: nat, z: nat): (r: string)
    ensures |r| == 4
  {
    SymbolsOf(x * 65536 + y * 256 + z)
  }

  /** The text of bytes is that of their numbers, three bytes at a time. */
  lemma EncodeNumbers(s: string)
    ensures Encode(s) == Grouped(s, InSymbols)
  {
    forall x: nat, y: nat, z: nat | x < 256 && y < 256 && z < 256
      ensures InSymbols(x, y, z) == Quad(x, y, z)
    {
      QuadNumber(x, y, z);
    }
    EncodeGrouped(s, InSymbols);
  }

  lemma ValueAlphabet(c: char)
    ensures ValueOf(c) >= 0 <==> IsLetter(c)
  {
  }

  /** Whole groups of symbols, with no padding, or one or two at the end. */
  ghost predicate Padded(u: string) {
    |u| % 4 == 0 && exists p :: 0 <= p <= 2 && PaddedBy(u, p)
  }

  ghost predicate PaddedBy(u: string, p: nat) {
    p <= |u| && (forall i :: 0 <= i < |u| - p ==> IsLetter(u[i])) && (forall i :: |u| - p <= i < |u| ==> u[i] == '=')
  }

  lemma PaddedTail(u: string, p: nat)
    requires |u| >= 4 && p <= |u| - 4
    ensures PaddedBy(u, p) <==> IsLetter(u[0]) && IsLetter(u[1]) && IsLetter(u[2]) && IsLetter(u[3]) && PaddedBy(u[4..], p)
  {
    var t := u[4..];
    assert forall i :: 4 <= i < |u| ==> u[i] == t[i - 4];
    assert forall i :: 0 <= i < |t| ==> t[i] == u[i + 4];
  }

  lemma QuadAccepted(u: string)
    requires |u| >= 4
    ensures DecodeQuads(u).Some? <==>
              if |u| == 4 then EndsWell(u)
              else IsLetter(u[0]) && IsLetter(u[1]) && IsLetter(u[2]) && IsLetter(u[3]) && DecodeQuads(u[4..]).Some?
  {
    ValueAlphabet(u[0]);
    ValueAlphabet(u[1]);
    ValueAlphabet(u[2]);
    ValueAlphabet(u[3]);
  }

  lemma {:induction false} QuadsExactly(u: string)
    ensures DecodeQuads(u).Some? <==> Padded(u)
    decreases |u|
  {
    if u == "" {
      assert PaddedBy(u, 0);
    } else if |u| >= 4 {
      QuadAccepted(u);
      if |u| == 4 {
        LastQuad(u);
      } else {
        QuadsExactly(u[4..]);
        FirstQuad(u);
      }
    }
  }

  ghost predicate EndsWell(u: string)
    requires |u| == 4
  {
    IsLetter(u[0]) && IsLetter(u[1]) && ((u[2] == '=' && u[3] == '=') || (IsLetter(u[2]) && (u[3] == '=' || IsLetter(u[3]))))
  }

  lemma LastQuad(u: string)
    requires |u| == 4
    ensures Padded(u) <==> EndsWell(u)
  {
    assert PaddedBy(u, 0) <==> IsLetter(u[0]) && IsLetter(u[1]) && IsLetter(u[2]) && IsLetter(u[3]);
    assert PaddedBy(u, 1) <==> IsLetter(u[0]) && IsLetter(u[1]) && IsLetter(u[2]) && u[3] == '=';
    assert PaddedBy(u, 2) <==> IsLetter(u[0]) && IsLetter(u[1]) && u[2] == '=' && u[3] == '=';
  }

  lemma FirstQuad(u: string)
    requires |u| > 4
    ensures Padded(u) <==> IsLetter(u[0]) && IsLetter(u[1]) && IsLetter(u[2]) && IsLetter(u[3]) && Padded(u[4..])
  {
    var t := u[4..];
    if Padded(u) {
      var p :| 0 <= p <= 2 && PaddedBy(u, p);
      PaddedTail(u, p);
    }
    if IsLetter(u[0]) && IsLetter(u[1]) && IsLetter(u[2]) && IsLetter(u[3]) && Padded(t) {
      var p :| 0 <= p <= 2 && PaddedBy(t, p);
      PaddedTail(u, p);
    }
  }

  /** A text is decoded exactly when, its line breaks aside, it is whole groups of symbols of the alphabet with padding at
      the end only. */
  lemma DecodeExactly(t: string)
    ensures Decode(t).Some? <==> Padded(Unbroken(t))
  {
    QuadsExactly(Unbroken(t));
  }

  lemma {:induction false} UnbrokenConcat(a: string, b: string)
    ensures Unbroken(a + b) == Unbroken(a) + Unbroken(b)
    decreases |a|
  {
    if a == "" {
      assert a + b == b;
    } else {
      assert (a + b)[0] == a[0] && (a + b)[1..] == a[1..] + b;
      UnbrokenConcat(a[1..], b);
    }
  }

  /** A line break anywhere changes nothing. */
  lemma BreakSkipped(a: string, c: char, b: string)
    requires c == '\n' || c == '\r'
    ensures Decode(a + [c] + b) == Decode(a + b)
  {
    UnbrokenConcat(a + [c], b);
    UnbrokenConcat(a, [c]);
    UnbrokenConcat(a, b);
    assert [c][1..] == "" && Unbroken([c]) == "" && Unbroken(a) + "" == Unbroken(a);
  }
}
