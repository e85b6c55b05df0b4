/** Decimal printing and parsing of 64-bit integers, as `strconv` does them. */
module Decimal {
  import opened Options

  const MAX := 0x7fff_ffff_ffff_ffff
  const MIN := -0x8000_0000_0000_0000

  /** The 64-bit value of an integer. */
  function Wrap(n: int): (r: int)
    ensures MIN <= r <= MAX && (MIN <= n <= MAX ==> r == n)
  {
    (n - MIN) % 0x1_0000_0000_0000_0000 + MIN
  }

  predicate IsDigit(c: char) {
    '0' <= c <= '9'
  }

  ghost predicate AllDigits(s: string) {
    forall i :: 0 <= i < |s| ==> IsDigit(s[i])
  }

  function Digit(d: nat): (c: char)
    requires d < 10
    ensures IsDigit(c) && c as int - '0' as int == d
  {
    ('0' as int + d) as char
  }

  /** The shortest decimal form of a natural number. */
  function PrintNat(n: nat): (s: string)
    ensures s != "" && AllDigits(s)
  {
    if n < 10 then [Digit(n)] else PrintNat(n / 10) + [Digit(n % 10)]
  }

  function Print(n: int): (s: string)
    ensures s != "" && (s[0] == '-' || IsDigit(s[0]))
  {
    if n < 0 then "-" + PrintNat(-n) else PrintNat(n)
  }

  /** The number a digit string stands for; nothing for an empty string or another byte. */
  function ParseNat(s: string): Option<nat> {
    if s == "" then None
    else
      var last := s[|s| - 1];
      if !IsDigit(last) then None
      else
        var d: nat := last as int - '0' as int;
        if |s| == 1 then Some(d)
        else
          match ParseNat(s[..|s| - 1])
          case None => None
          case Some(n) => Some(10 * n + d)
  }

  /** Base 10 with an optional sign; nothing when the form is wrong or the value does not fit 64 bits. */
  function Parse(s: string): (r: Option<int>)
    ensures r.Some? ==> MIN <= r.value <= MAX
  {
    if s == "" then None
    else
      var negative := s[0] == '-';
      match ParseNat(if s[0] == '-' || s[0] == '+' then s[1..] else s)
      case None => None
      case Some(n) =>
        var m: int := n;
        var v := if negative then -m else m;
        if MIN <= v <= MAX then Some(v) else None
  }

  lemma {:induction false} ParsePrintNat(n: nat)
    ensures ParseNat(PrintNat(n)) == Some(n)
    decreases n
  {
    if n >= 10 {
      ParsePrintNat(n / 10);
      var s := PrintNat(n);
      assert s[..|s| - 1] == PrintNat(n / 10);
    }
  }

  /** Parsing undoes printing on all 64-bit integers. */
  lemma ParsePrint(n: int)
    requires MIN <= n <= MAX
    ensures Parse(Print(n)) == Some(n)
  {
    if n < 0 {
      ParsePrintNegative(-n);
    } else {
      ParsePrintNat(n);
    }
  }

  lemma ParsePrintNegative(n: nat)
    requires 0 < n <= -MIN
    ensures Parse("-" + PrintNat(n)) == Some(0 - n as int)
  {
    ParsePrintNat(n);
    assert ("-" + PrintNat(n))[1..] == PrintNat(n);
  }

  // ------------------------------------------------------------ the form, spelled out

  /** A number and its 64-bit value differ by a multiple of 2^64. */
  lemma WrapIs(n: int)
    ensures -9223372036854775808 <= Wrap(n) <= 9223372036854775807 && (Wrap(n) - n) % 18446744073709551616 == 0
  {
    var q := (n - MIN) / 18446744073709551616;
    assert Wrap(n) - n == -q * 18446744073709551616;
    TimesMod(-q);
  }

  lemma TimesMod(q: int)
    ensures (q * 18446744073709551616) % 18446744073709551616 == 0
  {
  }

  function Ten(n: nat): nat {
    if n == 0 then 1 else 10 * Ten(n - 1)
  }

  /** The value of digits by their places. */
  function PlaceValue(s: string): int {
    if s == "" then 0 else (s[0] as int - 48) * Ten(|s| - 1) + PlaceValue(s[1..])
  }

  lemma {:induction false} PlaceLast(s: string, c: char)
    ensures PlaceValue(s + [c]) == 10 * PlaceValue(s) + (c as int - 48)
    decreases |s|
  {
    var t := s + [c];
    if s == "" {
      assert t[1..] == "" && Ten(0) == 1;
    } else {
      assert t[0] == s[0] && t[1..] == s[1..] + [c];
      PlaceLast(s[1..], c);
      var d, p := s[0] as int - 48, Ten(|s| - 1);
      assert Ten(|s|) == 10 * p;
      assert d * (10 * p) == 10 * (d * p);
    }
  }

  lemma {:induction false} ParseNatValue(s: string)
    ensures ParseNat(s).Some? <==> s != "" && AllDigits(s)
    ensures ParseNat(s).Some? ==> ParseNat(s).value == PlaceValue(s)
    decreases |s|
  {
    if s != "" {
      var front, last := s[..|s| - 1], s[|s| - 1];
      assert s == front + [last];
      PlaceLast(front, last);
      if |s| > 1 {
        ParseNatValue(front);
      } else {
        assert front == "" && PlaceValue(front) == 0;
      }
    }
  }

  /** The digits of a number, without its sign. */
  function Unsigned(s: string): string {
    if s != "" && (s[0] == '-' || s[0] == '+') then s[1..] else s
  }

  function SignedValue(s: string): int {
    if s != "" && s[0] == '-' then -PlaceValue(Unsigned(s)) else PlaceValue(Unsigned(s))
  }

  /** An optional sign, one digit or more, and a value of 64 bits. */
  ghost predicate Numeral(s: string) {
    && Unsigned(s) != "" && (forall i :: 0 <= i < |Unsigned(s)| ==> '0' <= Unsigned(s)[i] <= '9')
    && -9223372036854775808 <= SignedValue(s) <= 9223372036854775807
  }

  /** Parsing accepts exactly the numerals, and gives their values. */
  lemma ParseExactly(s: string)
    ensures Parse(s) == if Numeral(s) then Some(SignedValue(s)) else None
  {
    ParseNatValue(Unsigned(s));
  }

  /** Printing gives the shortest form: no zero in front of another digit, and a sign only for negative numbers. */
  lemma {:induction false} PrintShortest(n: nat)
    ensures PrintNat(n)[0] == '0' <==> n == 0
    ensures n == 0 ==> PrintNat(n) == "0"
    ensures Print(n) == PrintNat(n) && (n > 0 ==> Print(0 - n as int) == "-" + PrintNat(n))
    decreases n
  {
    if n >= 10 {
      PrintShortest(n / 10);
    }
  }
}
