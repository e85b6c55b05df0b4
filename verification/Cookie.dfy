/** The signed and encrypted session cookie. The payload stands for a session's values as encoded by gob. */
module Cookie {
  import opened Options
  import opened Text
  import opened Decimal
  import opened Base64

  // --------------------------------------------------------------- what the code does

  /** Bitwise exclusive or of the low `bits` bits. */
  function Xor(a: nat, b: nat, bits: nat): (r: nat)
    decreases bits
  {
    if bits == 0 then 0 else 2 * Xor(a / 2, b / 2, bits - 1) + (a + b) % 2
  }

  const BITS: nat := 8

  function XorLow(a: nat, k: nat): (r: nat)
    ensures r < 256
  {
    XorSmall(a, k % 256, BITS);
    PowerEight();
    Xor(a, k % 256, BITS)
  }

  function XorByte(c: char, k: nat): (r: char)
    ensures r < 256 as char
  {
    XorLow(Low(c), k) as char
  }

  lemma {:induction false} XorSmall(a: nat, b: nat, bits: nat)
    ensures Xor(a, b, bits) < Power(bits)
    decreases bits
  {
    if bits > 0 {
      XorSmall(a / 2, b / 2, bits - 1);
    }
  }

  lemma PowerEight()
    ensures Power(BITS) == 256
  {
    assert Power(4) == 2 * (2 * (2 * (2 * Power(0))));
  }

  function Power(bits: nat): nat {
    if bits == 0 then 1 else 2 * Power(bits - 1)
  }

  /** `stream` gives the keystream of an initialization vector, byte by byte; `mac` the signature of a text under a key. */
  type Stream = (string, nat) -> nat
  type Mac = (string, string) -> string

  function Xored(s: string, iv: string, stream: Stream): (r: string)
    ensures |r| == |s| && IsBytes(r)
  {
    assert forall i :: 0 <= i < |s| ==> XorByte(s[i], stream(iv, i)) < 256 as char;
    seq(|s|, i requires 0 <= i < |s| => XorByte(s[i], stream(iv, i)))
  }

  /** `XORKeyStream` of a buffer onto itself, from `lo` on. */
  method XorKeyStream(buf: array<char>, lo: nat, iv: string, stream: Stream)
    requires lo <= buf.Length
    modifies buf
    ensures buf[..lo] == old(buf[..lo]) && buf[lo..] == Xored(old(buf[lo..]), iv, stream)
  {
    for i := lo to buf.Length
      invariant buf[i..] == old(buf[i..]) && buf[..lo] == old(buf[..lo])
      invariant forall j :: lo <= j < i ==> buf[j] == XorByte(old(buf[j]), stream(iv, j - lo))
    {
      buf[i] := XorByte(buf[i], stream(iv, i - lo));
    }
  }

  /** The value is encrypted in place, then copied behind the vector. */
  method Encrypt(value: array<char>, iv: string, stream: Stream) returns (r: string)
    modifies value
    ensures r == iv + Xored(old(value[..]), iv, stream)
  {
    XorKeyStream(value, 0, iv, stream);
    assert value[0..] == value[..] && old(value[0..]) == old(value[..]);
    r := iv + value[..];
  }

  function Decrypted(size: nat, value: string, stream: Stream): Option<string> {
    if |value| > size then Some(Xored(value[size..], value[..size], stream)) else None
  }

  /** The vector is a part of the buffer; what follows it is decrypted in place. */
  method Decrypt(size: nat, value: array<char>, stream: Stream) returns (r: Option<string>)
    modifies value
    ensures r == Decrypted(size, old(value[..]), stream)
  {
    if value.Length <= size {
      return None;
    }
    var iv := value[..size];
    assert value[..][size..] == value[size..] && value[..][..size] == iv;
    XorKeyStream(value, size, iv, stream);
    r := Some(value[size..]);
  }

  /** What the signature covers. */
  function Signed(name: string, date: string, body: string): string {
    name + "|" + date + "|" + body + "|"
  }

  function EncodeCookie(name: string, key: string, payload: string, iv: string, now: int, stream: Stream, mac: Mac): string {
    var b := Signed(name, Print(now), Encode(iv + Xored(payload, iv, stream)));
    Encode((b + mac(key, b))[|name| + 1..])
  }

  datatype Outcome = Malformed | Forged | BadStamp | TooNew | Expired | Unreadable | Plain(payload: string)

  datatype Parts = Parts(date: string, body: string, sig: string)

  /** `bytes.SplitN(b, "|", 3)`, when that gives three parts. */
  function SplitThree(b: string): Option<Parts> {
    var i := Upto(b, '|');
    if i == |b| then None
    else
      var rest := b[i + 1..];
      var j := Upto(rest, '|');
      if j == |rest| then None else Some(Parts(b[..i], rest[..j], rest[j + 1..]))
  }

  /** What a signature of `n` bytes at the end of `b` should cover. */
  function Covered(name: string, b: string, n: nat): string
    requires n <= |b|
  {
    name + "|" + b[..|b| - n]
  }

  function DecodeCookie(size: nat, name: string, key: string, value: string, life: int, now: int, stream: Stream, mac: Mac): Outcome {
    match Decode(value)
    case None => Malformed
    case Some(b) =>
      match SplitThree(b)
      case None => Malformed
      case Some(p) =>
        if |p.sig| <= |b| && mac(key, Covered(name, b, |p.sig|)) == p.sig then Checked(size, p.date, p.body, life, now, stream)
        else Forged
  }

  /** The signature holds; look at the date, then at the body. */
  function Checked(size: nat, date: string, body: string, life: int, now: int, stream: Stream): Outcome {
    match Parse(date)
    case None => BadStamp
    case Some(t) =>
      if t > now then TooNew
      else if t < Wrap(now - life) then Expired
      else
        match Decode(body)
        case None => Unreadable
        case Some(c) =>
          match Decrypted(size, c, stream)
          case None => Unreadable
          case Some(payload) => Plain(payload)
  }

  // -------------------------------------------------------------------- what it means

  lemma {:induction false} XorTwice(a: nat, b: nat, bits: nat)
    requires a < Power(bits) && b < Power(bits)
    ensures Xor(Xor(a, b, bits), b, bits) == a
    decreases bits
  {
    if bits > 0 {
      var x := Xor(a / 2, b / 2, bits - 1);
      XorTwice(a / 2, b / 2, bits - 1);
      LowBit(x, a, b);
    }
  }

  lemma LowBit(x: nat, a: nat, b: nat)
    ensures var r := 2 * x + (a + b) % 2; r / 2 == x && (r + b) % 2 == a % 2
  {
  }

  /** Bit `i` of a number. */
  function Bit(n: nat, i: nat): (b: bool) {
    if i == 0 then n % 2 == 1 else Bit(n / 2, i - 1)
  }

  /** A bit of the result is set exactly where the two differ. */
  lemma {:induction false} XorBits(a: nat, b: nat, bits: nat, i: nat)
    requires i < bits
    ensures Bit(Xor(a, b, bits), i) <==> Bit(a, i) != Bit(b, i)
    decreases bits
  {
    var x := Xor(a / 2, b / 2, bits - 1);
    LowBit(x, a, b);
    if i > 0 {
      XorBits(a / 2, b / 2, bits - 1, i - 1);
    } else {
      OddSum(x, a, b);
    }
  }

  lemma OddSum(x: nat, a: nat, b: nat)
    ensures (2 * x + (a + b) % 2) % 2 == 1 <==> (a % 2 == 1) != (b % 2 == 1)
  {
  }

  /** Each byte of the result differs from the plain one in exactly the bits that the key byte sets. */
  lemma XoredBits(s: string, iv: string, stream: Stream, i: nat, j: nat)
    requires IsBytes(s) && i < |s| && j < 8
    ensures |Xored(s, iv, stream)| == |s| && Xored(s, iv, stream)[i] < 256 as char
    ensures Bit(Xored(s, iv, stream)[i] as nat, j) <==> Bit(s[i] as nat, j) != Bit(stream(iv, i) % 256, j)
  {
    var a, k := s[i] as nat, stream(iv, i);
    assert Low(s[i]) == a;
    XorBits(a, k % 256, 8, j);
    PowerEight();
    ByteBack(XorLow(a, k));
  }

  lemma ByteBack(b: nat)
    requires b < 256
    ensures (b as char) as nat == b
  {
  }

  /** Encrypting is its own inverse under one keystream. */
  lemma XoredTwice(s: string, iv: string, stream: Stream)
    requires IsBytes(s)
    ensures Xored(Xored(s, iv, stream), iv, stream) == s
  {
    forall i | 0 <= i < |s|
      ensures Xored(Xored(s, iv, stream), iv, stream)[i] == s[i]
    {
      XorByteTwice(s[i], stream(iv, i));
    }
  }

  lemma XorByteTwice(c: char, k: nat)
    requires c < 256 as char
    ensures XorByte(XorByte(c, k), k) == c
  {
    var a, b := Low(c), XorLow(Low(c), k);
    PowerEight();
    XorTwice(a, k % 256, BITS);
    assert XorLow(b, k) == a;
    LowChar(a);
    LowChar(b);
    CharLow(c);
  }

  lemma LowChar(b: nat)
    requires b < 256
    ensures Low(b as char) == b
  {
  }

  lemma CharLow(c: char)
    requires c < 256 as char
    ensures Low(c) as char == c
  {
  }

  function Three(date: string, body: string, sig: string): string {
    date + "|" + (body + "|" + sig)
  }

  /** A decoded value falls apart at its first two bars, whatever bytes follow them. */
  lemma ThreeParts(date: string, body: string, sig: string)
    requires '|' !in date && '|' !in body
    ensures SplitThree(Three(date, body, sig)) == Some(Parts(date, body, sig))
  {
    FirstBar(date, body + "|" + sig);
    FirstBar(body, sig);
  }

  lemma SplitWhole(b: string)
    requires SplitThree(b).Some?
    ensures var p := SplitThree(b).value; b == Three(p.date, p.body, p.sig) && '|' !in p.date && '|' !in p.body
  {
    var i := Upto(b, '|');
    CutAt(b, i);
    CutAt(b[i + 1..], Upto(b[i + 1..], '|'));
  }

  lemma CutAt(b: string, i: nat)
    requires i < |b| && b[i] == '|'
    ensures b == b[..i] + "|" + b[i + 1..]
  {
  }

  lemma DecodeThree(size: nat, name: string, key: string, value: string, p: Parts, life: int, now: int, stream: Stream, mac: Mac)
    requires Decode(value) == Some(Three(p.date, p.body, p.sig)) && '|' !in p.date && '|' !in p.body
    ensures DecodeCookie(size, name, key, value, life, now, stream, mac) ==
              if mac(key, Signed(name, p.date, p.body)) == p.sig then Checked(size, p.date, p.body, life, now, stream) else Forged
  {
    var b := Three(p.date, p.body, p.sig);
    ThreeParts(p.date, p.body, p.sig);
    SignedPart(name, p.date, p.body, p.sig);
    DecodedIs(size, name, key, value, b, p, life, now, stream, mac);
  }

  lemma DecodedIs(size: nat, name: string, key: string, value: string, b: string, p: Parts, life: int, now: int, stream: Stream, mac: Mac)
    requires Decode(value) == Some(b) && SplitThree(b) == Some(p) && |p.sig| <= |b|
    ensures DecodeCookie(size, name, key, value, life, now, stream, mac) ==
              if mac(key, Covered(name, b, |p.sig|)) == p.sig then Checked(size, p.date, p.body, life, now, stream) else Forged
  {
  }

  lemma FirstBar(a: string, b: string)
    requires '|' !in a
    ensures Upto(a + "|" + b, '|') == |a| && (a + "|" + b)[..|a|] == a && (a + "|" + b)[|a| + 1..] == b
  {
    assert a + "|" + b == a + ("|" + b);
    UptoIs(a, "|" + b, '|');
  }

  lemma SignedPart(name: string, date: string, body: string, sig: string)
    ensures Covered(name, Three(date, body, sig), |sig|) == Signed(name, date, body)
    ensures (Signed(name, date, body) + sig)[|name| + 1..] == Three(date, body, sig)
  {
    var b := Three(date, body, sig);
    assert b[..|b| - |sig|] == date + "|" + body + "|";
    assert Signed(name, date, body) == name + "|" + (date + "|" + body + "|");
  }

  lemma ThreeBytes(date: string, body: string, sig: string)
    requires IsBytes(date) && IsBytes(body) && IsBytes(sig)
    ensures IsBytes(Three(date, body, sig))
  {
  }

  lemma PrintBytes(n: int)
    ensures IsBytes(Print(n)) && '|' !in Print(n)
  {
    var digits := PrintNat(if n < 0 then -n else n);
    assert forall i :: 0 <= i < |digits| ==> IsDigit(digits[i]);
    assert Print(n) == digits || Print(n) == "-" + digits;
  }

  lemma EncodeBytes(s: string)
    ensures IsBytes(Encode(s))
  {
    EncodeSymbols(s);
    var e := Encode(s);
    forall i | 0 <= i < |e|
      ensures e[i] < 256 as char
    {
      assert ValueOf(e[i]) >= 0 || e[i] == '=';
    }
  }

  /** What a cookie is: date, encrypted payload behind its vector, and the signature of name, date and payload. */
  lemma EncodedIs(name: string, key: string, payload: string, iv: string, now: int, stream: Stream, mac: Mac)
    ensures var date, body := Print(now), Encode(iv + Xored(payload, iv, stream));
            EncodeCookie(name, key, payload, iv, now, stream, mac) ==
              Encode(date + "|" + (body + "|" + mac(key, name + "|" + date + "|" + body + "|")))
  {
    var date, body := Print(now), Encode(iv + Xored(payload, iv, stream));
    SignedPart(name, date, body, mac(key, Signed(name, date, body)));
  }

  /** A cookie gives its payload back while it is neither too new nor too old; only an empty payload never comes back. */
  lemma RoundTrip(name: string, key: string, payload: string, iv: string, stamp: int, life: int, now: int, stream: Stream, mac: Mac)
    requires IsBytes(payload) && IsBytes(iv) && 0 <= stamp <= MAX && 0 <= life <= MAX && 0 <= now <= MAX
    requires IsBytes(mac(key, Signed(name, Print(stamp), Encode(iv + Xored(payload, iv, stream)))))
    ensures DecodeCookie(|iv|, name, key, EncodeCookie(name, key, payload, iv, stamp, stream, mac), life, now, stream, mac) ==
              if stamp > now then TooNew
              else if now - stamp > life then Expired
              else if payload == "" then Unreadable
              else Plain(payload)
  {
    SignatureHolds(|iv|, name, key, payload, iv, stamp, life, now, stream, mac);
    CheckedOwn(payload, iv, stamp, life, now, stream);
  }

  lemma CheckedOwn(payload: string, iv: string, stamp: int, life: int, now: int, stream: Stream)
    requires IsBytes(payload) && IsBytes(iv) && 0 <= stamp <= MAX && 0 <= life <= MAX && 0 <= now <= MAX
    ensures Checked(|iv|, Print(stamp), Encode(iv + Xored(payload, iv, stream)), life, now, stream) ==
              if stamp > now then TooNew
              else if now - stamp > life then Expired
              else if payload == "" then Unreadable
              else Plain(payload)
  {
    var cipher := iv + Xored(payload, iv, stream);
    JoinedBytes(iv, Xored(payload, iv, stream));
    DecodeEncode(cipher);
    ParsePrint(stamp);
    Deciphered(payload, iv, stream);
    CheckedStamp(|iv|, Print(stamp), stamp, Encode(cipher), cipher, life, now, stream);
  }

  lemma JoinedBytes(a: string, b: string)
    requires IsBytes(a) && IsBytes(b)
    ensures IsBytes(a + b)
  {
  }

  lemma SignatureHolds(size: nat, name: string, key: string, payload: string, iv: string, stamp: int, life: int, now: int, stream: Stream, mac: Mac)
    requires IsBytes(mac(key, Signed(name, Print(stamp), Encode(iv + Xored(payload, iv, stream)))))
    ensures DecodeCookie(size, name, key, EncodeCookie(name, key, payload, iv, stamp, stream, mac), life, now, stream, mac) ==
              Checked(size, Print(stamp), Encode(iv + Xored(payload, iv, stream)), life, now, stream)
  {
    var cipher := iv + Xored(payload, iv, stream);
    var p := Parts(Print(stamp), Encode(cipher), mac(key, Signed(name, Print(stamp), Encode(cipher))));
    ThreeDecoded(stamp, cipher, p.sig);
    EncodedIs(name, key, payload, iv, stamp, stream, mac);
    DecodeThree(size, name, key, Encode(Three(p.date, p.body, p.sig)), p, life, now, stream, mac);
  }

  lemma NoBar(s: string)
    ensures '|' !in Encode(s)
  {
    EncodeSymbols(s);
  }

  lemma ThreeDecoded(stamp: int, cipher: string, sig: string)
    requires IsBytes(sig)
    ensures Decode(Encode(Three(Print(stamp), Encode(cipher), sig))) == Some(Three(Print(stamp), Encode(cipher), sig))
    ensures '|' !in Print(stamp) && '|' !in Encode(cipher)
  {
    NoBar(cipher);
    PrintBytes(stamp);
    EncodeBytes(cipher);
    ThreeBytes(Print(stamp), Encode(cipher), sig);
    DecodeEncode(Three(Print(stamp), Encode(cipher), sig));
  }

  lemma CheckedStamp(size: nat, date: string, stamp: int, body: string, cipher: string, life: int, now: int, stream: Stream)
    requires 0 <= stamp <= MAX && 0 <= life <= MAX && 0 <= now <= MAX
    requires Parse(date) == Some(stamp) && Decode(body) == Some(cipher)
    ensures Checked(size, date, body, life, now, stream) ==
              if stamp > now then TooNew
              else if now - stamp > life then Expired
              else if Decrypted(size, cipher, stream).None? then Unreadable
              else Plain(Decrypted(size, cipher, stream).value)
  {
  }

  lemma Deciphered(payload: string, iv: string, stream: Stream)
    requires IsBytes(payload)
    ensures Decrypted(|iv|, iv + Xored(payload, iv, stream), stream) == if payload == "" then None else Some(payload)
  {
    var r := Xored(payload, iv, stream);
    assert (iv + r)[..|iv|] == iv && (iv + r)[|iv|..] == r;
    XoredTwice(payload, iv, stream);
  }

  /** The parts of a cookie that is accepted: signed under the name and the key, dated within the lifetime, and long enough to decrypt. */
  ghost predicate Genuine(size: nat, name: string, key: string, value: string, life: int, now: int, stream: Stream, mac: Mac,
                          date: string, body: string, sig: string, payload: string)
  {
    && '|' !in date && '|' !in body && Decode(value) == Some(date + "|" + (body + "|" + sig))
    && sig == mac(key, name + "|" + date + "|" + body + "|")
    && Parse(date).Some? && Wrap(now - life) <= Parse(date).value <= now
    && Decode(body).Some? && Decrypted(size, Decode(body).value, stream) == Some(payload)
  }

  /** Two bars in it. */
  ghost predicate TwoBars(b: string) {
    exists i, j :: 0 <= i < j < |b| && b[i] == '|' && b[j] == '|'
  }

  lemma SplitExactly(b: string)
    ensures SplitThree(b).Some? <==> TwoBars(b)
  {
    var i := Upto(b, '|');
    if i < |b| {
      var rest := b[i + 1..];
      var j := Upto(rest, '|');
      assert forall k :: i < k < |b| ==> b[k] == rest[k - i - 1];
      if j < |rest| {
        assert b[i + 1 + j] == '|';
      }
    }
  }

  /** A value is malformed exactly when it is no text of an encoding or decodes to less than three parts. */
  lemma MalformedExactly(size: nat, name: string, key: string, value: string, life: int, now: int, stream: Stream, mac: Mac)
    ensures DecodeCookie(size, name, key, value, life, now, stream, mac) == Malformed <==>
              Decode(value).None? || !TwoBars(Decode(value).value)
  {
    if Decode(value).Some? {
      var b := Decode(value).value;
      SplitExactly(b);
      if TwoBars(b) {
        SplitWhole(b);
        var p := SplitThree(b).value;
        DecodeThree(size, name, key, value, p, life, now, stream, mac);
      }
    }
  }

  /** What a value of three parts decodes to: the first thing that is wrong with it, or its payload. */
  lemma DecodedWhole(size: nat, name: string, key: string, value: string, life: int, now: int, stream: Stream, mac: Mac,
                     date: string, body: string, sig: string)
    requires '|' !in date && '|' !in body && Decode(value) == Some(date + "|" + (body + "|" + sig))
    ensures DecodeCookie(size, name, key, value, life, now, stream, mac) ==
              if sig != mac(key, name + "|" + date + "|" + body + "|") then Forged
              else if Parse(date).None? then BadStamp
              else if Parse(date).value > now then TooNew
              else if Parse(date).value < Wrap(now - life) then Expired
              else if Decode(body).None? || |Decode(body).value| <= size then Unreadable
              else Plain(Xored(Decode(body).value[size..], Decode(body).value[..size], stream))
  {
    DecodeThree(size, name, key, value, Parts(date, body, sig), life, now, stream, mac);
  }

  /** A cookie is accepted exactly when it has such parts. */
  lemma AcceptedGenuine(size: nat, name: string, key: string, value: string, life: int, now: int, stream: Stream, mac: Mac, payload: string)
    ensures DecodeCookie(size, name, key, value, life, now, stream, mac) == Plain(payload) <==>
              exists date, body, sig :: Genuine(size, name, key, value, life, now, stream, mac, date, body, sig, payload)
  {
    if DecodeCookie(size, name, key, value, life, now, stream, mac) == Plain(payload) {
      var b := Decode(value).value;
      var p := SplitThree(b).value;
      SplitWhole(b);
      DecodeThree(size, name, key, value, p, life, now, stream, mac);
      assert Genuine(size, name, key, value, life, now, stream, mac, p.date, p.body, p.sig, payload);
    }
    forall date, body, sig | Genuine(size, name, key, value, life, now, stream, mac, date, body, sig, payload)
      ensures DecodeCookie(size, name, key, value, life, now, stream, mac) == Plain(payload)
    {
      DecodeThree(size, name, key, value, Parts(date, body, sig), life, now, stream, mac);
    }
  }
}
