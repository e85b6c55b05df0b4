/** Websocket messages: a prefix, an event, the type of the data and the data. */
module Message {
  import opened Options
  import opened Text
  import opened Decimal

  // --------------------------------------------------------------- what the code does

  /** Data of a message. JSON data is its text. */
  datatype Payload = Str(s: string) | Int(n: int) | Bool(b: bool) | Bytes(s: string) | Json(s: string)

  const PREFIX := "siris-websocket-message:"
  const PREFIX_LEN := 24

  function TypeOf(p: Payload): char {
    match p
    case Str(_) => '0'
    case Int(_) => '1'
    case Bool(_) => '2'
    case Bytes(_) => '3'
    case Json(_) => '4'
  }

  function TextOf(p: Payload): string {
    match p
    case Str(s) => s
    case Int(n) => Print(n)
    case Bool(b) => if b then "true" else "false"
    case Bytes(s) => s
    case Json(s) => s
  }

  function Serialized(event: string, p: Payload): string {
    PREFIX + (event + (";" + ([TypeOf(p)] + (";" + TextOf(p)))))
  }

  method Serialize(event: string, p: Payload) returns (b: string)
    ensures b == Serialized(event, p)
  {
    b := "";
    b := b + PREFIX;
    b := b + event;
    b := b + ";";
    b := b + [TypeOf(p)];
    b := b + ";";
    b := b + TextOf(p);
  }

  /** `strconv.ParseBool`. */
  function ParseBool(s: string): Option<bool> {
    if s == "1" || s == "t" || s == "T" || s == "TRUE" || s == "true" || s == "True" then Some(true)
    else if s == "0" || s == "f" || s == "F" || s == "FALSE" || s == "false" || s == "False" then Some(false)
    else None
  }

  /** `Crash` is a slice out of range. */
  datatype Reading = Crash | BadType | BadData | Read(p: Payload)

  function Deserialize(event: string, message: string): Reading {
    var i := PREFIX_LEN + |event| + 1;
    if |message| < i + 1 then Crash
    else
      match Parse(message[i..i + 1])
      case None => BadType
      case Some(t) => if |message| < i + 2 then Crash else Typed(t, message[i + 2..])
  }

  function Typed(t: int, text: string): Reading {
    if t == 0 then Read(Str(text))
    else if t == 1 then (match Parse(text) case None => BadData case Some(n) => Read(Int(n)))
    else if t == 2 then (match ParseBool(text) case None => BadData case Some(b) => Read(Bool(b)))
    else if t == 3 then Read(Bytes(text))
    else if t == 4 then Read(Json(text))
    else BadType
  }

  /** The event of a message, the empty one of a short message; a message without `;` behind the prefix crashes. */
  function CustomEvent(message: string): Option<string> {
    if |message| < PREFIX_LEN then Some("")
    else
      var s := message[PREFIX_LEN..];
      var e := IndexByte(s, ';');
      if e < 0 then None else Some(s[..e])
  }

  // -------------------------------------------------------------------- what it means

  lemma TypeParsed(p: Payload)
    ensures Parse([TypeOf(p)]) == Some(TypeOf(p) as int - '0' as int)
  {
    var s := [TypeOf(p)];
    assert s[0] == TypeOf(p);
    assert ParseNat(s) == Some(TypeOf(p) as int - '0' as int);
  }

  lemma TextTyped(p: Payload)
    requires p.Int? ==> MIN <= p.n <= MAX
    ensures Typed(TypeOf(p) as int - '0' as int, TextOf(p)) == Read(p)
  {
    if p.Int? {
      ParsePrint(p.n);
    }
  }

  lemma Cut(event: string, t: char, text: string)
    ensures var m, i := PREFIX + (event + (";" + ([t] + (";" + text)))), PREFIX_LEN + |event| + 1;
            |m| >= i + 2 && m[i..i + 1] == [t] && m[i + 2..] == text
  {
    var m, i := PREFIX + (event + (";" + ([t] + (";" + text)))), PREFIX_LEN + |event| + 1;
    assert m == PREFIX + event + ";" + [t] + ";" + text;
    assert m[i] == t;
  }

  /** Deserializing under its event gives a message's data back, whatever bytes the event and the data hold. */
  lemma DeserializeSerialized(event: string, p: Payload)
    requires p.Int? ==> MIN <= p.n <= MAX
    ensures Deserialize(event, Serialized(event, p)) == Read(p)
  {
    Cut(event, TypeOf(p), TextOf(p));
    TypeParsed(p);
    TextTyped(p);
  }

  /** The event read from a message is what stands before its first `;`: the whole event exactly when it has none. */
  lemma EventSerialized(event: string, p: Payload)
    ensures CustomEvent(Serialized(event, p)) == Some(event[..Upto(event, ';')])
    ensures CustomEvent(Serialized(event, p)) == Some(event) <==> ';' !in event
  {
    var tail := ";" + ([TypeOf(p)] + (";" + TextOf(p)));
    assert Serialized(event, p)[PREFIX_LEN..] == event + tail;
    EventBefore(event, tail);
    assert Upto(event, ';') == |event| ==> event[..|event|] == event;
  }

  lemma EventBefore(event: string, tail: string)
    requires tail != "" && tail[0] == ';'
    ensures Upto(event + tail, ';') == Upto(event, ';') && (event + tail)[..Upto(event, ';')] == event[..Upto(event, ';')]
  {
    var s, e := event + tail, Upto(event, ';');
    assert forall j :: 0 <= j < e ==> s[j] == event[j];
    assert s[e] == ';';
  }

  // ------------------------------------------------------------ the form, spelled out

  /** A message, with the code that clients know for the type of its data. */
  lemma WireForm(event: string, p: Payload)
    ensures Serialized(event, p) == "siris-websocket-message:" + (event + (";" +
              match p
              case Str(s) => "0;" + s
              case Int(n) => "1;" + Print(n)
              case Bool(b) => "2;" + (if b then "true" else "false")
              case Bytes(s) => "3;" + s
              case Json(s) => "4;" + s))
  {
    assert [TypeOf(p)] + (";" + TextOf(p)) == [TypeOf(p)] + ";" + TextOf(p);
  }

  /** What any message of the form is read as, by the code of its type. */
  lemma WireRead(event: string, t: char, text: string)
    ensures Deserialize(event, "siris-websocket-message:" + (event + (";" + ([t] + (";" + text))))) ==
              if t == '0' then Read(Str(text))
              else if t == '1' then (if Numeral(text) then Read(Int(SignedValue(text))) else BadData)
              else if t == '2' then (match ParseBool(text) case None => BadData case Some(b) => Read(Bool(b)))
              else if t == '3' then Read(Bytes(text))
              else if t == '4' then Read(Json(text))
              else BadType
  {
    Cut(event, t, text);
    ParseExactly(text);
    OneDigit(t);
  }

  lemma OneDigit(t: char)
    ensures Parse([t]) == if '0' <= t <= '9' then Some(t as int - 48) else None
  {
    var s := [t];
    assert s[0] == t && s[1..] == "" && s[..0] == "";
  }

  /** The texts that stand for truth values. */
  lemma BoolTexts(s: string)
    ensures ParseBool(s) == Some(true) <==> s in ["1", "t", "T", "TRUE", "true", "True"]
    ensures ParseBool(s) == Some(false) <==> s in ["0", "f", "F", "FALSE", "false", "False"]
  {
  }

  /** The event of any message: none in one that is too short for the prefix, and else what stands behind the prefix up to
      the first `;`; a crash where there is none. */
  lemma EventOf(message: string)
    ensures |message| < 24 ==> CustomEvent(message) == Some("")
    ensures |message| >= 24 && ';' !in message[24..] ==> CustomEvent(message) == None
    ensures forall event, rest :: |message| >= 24 && message[24..] == event + ";" + rest && ';' !in event ==> CustomEvent(message) == Some(event)
  {
    forall event, rest | |message| >= 24 && message[24..] == event + ";" + rest && ';' !in event
      ensures CustomEvent(message) == Some(event)
    {
      var tail := ";" + rest;
      assert event + ";" + rest == event + tail;
      EventBefore(event, tail);
      assert event[..|event|] == event;
    }
  }

  /** Reading a message under an event crashes exactly when it ends before the type, or right behind a type that is a digit. */
  lemma CrashExactly(event: string, message: string)
    ensures Deserialize(event, message) == Crash <==>
              |message| < 26 + |event| || (|message| == 26 + |event| && '0' <= message[|message| - 1] <= '9')
  {
    var i := 25 + |event|;
    if |message| > i {
      OneDigit(message[i]);
      assert message[i..i + 1] == [message[i]];
    }
  }
}
