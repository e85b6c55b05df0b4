/** Which templates are accepted, and what path each is compiled to, spelled out. */
module Compile {
  import opened Options
  import opened Segments
  import opened Decimal
  import opened MacroLexer
  import opened MacroParser
  import opened MacroRoundTrip
  import opened Template

  // --------------------------------------------------------------- which are accepted

  /** A part between braces is a statement without errors, and takes a whole path only as the last part. */
  ghost predicate Fine(part: string, last: bool) {
    part != "" && part[0] == '{' && part[|part| - 1] == '}' ==>
      match ParseParam(part)
      case Endless => false
      case Parsed(st) => st.errors == [] && (st.typ == Path ==> last)
  }

  ghost predicate AllFine(parts: seq<string>) {
    forall i :: 0 <= i < |parts| ==> Fine(parts[i], i == |parts| - 1)
  }

  /** Why a part is refused. */
  function Refusal(part: string): Reading {
    match ParseParam(part)
    case Endless => Forever
    case Parsed(st) => if st.errors != [] then BadParam(part, st.errors) else PathInside(part)
  }

  lemma ReadStep(parts: seq<string>)
    requires parts != []
    ensures !Fine(parts[0], |parts| == 1) ==> ReadParts(parts) == Refusal(parts[0])
    ensures Fine(parts[0], |parts| == 1) ==> ReadParts(parts).Accepted? == ReadParts(parts[1..]).Accepted?
    ensures Fine(parts[0], |parts| == 1) && !ReadParts(parts[1..]).Accepted? ==> ReadParts(parts) == ReadParts(parts[1..])
  {
  }

  /** The first part that is not fine, if any. */
  ghost function FirstUnfine(parts: seq<string>): (k: nat)
    ensures k <= |parts|
    ensures k < |parts| ==> !Fine(parts[k], k == |parts| - 1)
    ensures forall j :: 0 <= j < k ==> Fine(parts[j], j == |parts| - 1)
  {
    if parts == [] || !Fine(parts[0], |parts| == 1) then 0
    else
      var k := FirstUnfine(parts[1..]);
      assert forall j :: 0 < j < |parts| ==> parts[j] == parts[1..][j - 1];
      k + 1
  }

  /** A template is accepted when all its parts are fine, and else the first that is not is reported. */
  lemma {:induction false} ReadFirst(parts: seq<string>)
    ensures var k := FirstUnfine(parts); if k == |parts| then ReadParts(parts).Accepted? else ReadParts(parts) == Refusal(parts[k])
    decreases |parts|
  {
    if parts != [] {
      ReadStep(parts);
      ReadFirst(parts[1..]);
      RefusalRefuses(parts);
    }
  }

  lemma RefusalRefuses(parts: seq<string>)
    ensures FirstUnfine(parts) < |parts| ==> !Refusal(parts[FirstUnfine(parts)]).Accepted?
  {
  }

  /** So a template is accepted exactly when all its parts are fine. */
  lemma AcceptedExactly(parts: seq<string>)
    ensures ReadParts(parts).Accepted? <==> AllFine(parts)
  {
    ReadFirst(parts);
    RefusalRefuses(parts);
  }

  // ------------------------------------------------------------- what they compile to

  /** A part of a template: text kept as it is, or a statement. */
  datatype Piece = Literal(text: string) | Place(st: State, withType: bool, withCode: bool)

  function Written(p: Piece): string {
    match p
    case Literal(text) => text
    case Place(st, withType, withCode) => PrintStatement(st, withType, withCode)
  }

  /** What the tree gets for it. */
  function Kept(p: Piece): string {
    match p
    case Literal(text) => text
    case Place(st, _, _) => if st.typ == Path then "*" + st.name else ":" + st.name
  }

  function WrittenAll(ps: seq<Piece>): (r: seq<string>)
    ensures |r| == |ps| && forall i :: 0 <= i < |ps| ==> r[i] == Written(ps[i])
  {
    seq(|ps|, i requires 0 <= i < |ps| => Written(ps[i]))
  }

  function KeptAll(ps: seq<Piece>): (r: seq<string>)
    ensures |r| == |ps| && forall i :: 0 <= i < |ps| ==> r[i] == Kept(ps[i])
  {
    seq(|ps|, i requires 0 <= i < |ps| => Kept(ps[i]))
  }

  ghost predicate GoodPiece(p: Piece) {
    && Written(p) != "" && '/' !in Written(p)
    && match p
       case Literal(text) => text[0] == '{' ==> text[|text| - 1] != '}'
       case Place(st, withType, withCode) => WellFormed(st) && (withType || st.typ == String) && (withCode || st.code == 404)
  }

  /** Good pieces, a whole path only in the last, and no text with a later statement in it. */
  ghost predicate GoodPieces(ps: seq<Piece>) {
    && (forall i :: 0 <= i < |ps| ==> GoodPiece(ps[i]))
    && (forall i :: 0 <= i < |ps| - 1 ==> ps[i].Place? ==> ps[i].st.typ != Path)
    && (forall i, j :: 0 <= i < j < |ps| && ps[i].Literal? && ps[j].Place? ==> !Contains(ps[i].text, Written(ps[j])))
  }

  /** The parameters of a template, in order. */
  function Places(ps: seq<Piece>): seq<Param> {
    if ps == [] then []
    else (if ps[0].Place? then [Param(Written(ps[0]), ps[0].st)] else []) + Places(ps[1..])
  }

  lemma PrintedBraces(st: State, withType: bool, withCode: bool)
    ensures var s := PrintStatement(st, withType, withCode); s != "" && s[0] == '{' && s[|s| - 1] == '}' && |s| > 1
  {
  }

  /** A statement alone compiles to its name behind `*` when it takes a path, and behind `:` otherwise. */
  lemma PlaceCompiled(st: State, withType: bool, withCode: bool)
    requires WellFormed(st) && (withType || st.typ == String) && (withCode || st.code == 404)
    ensures Compiled(PrintStatement(st, withType, withCode)) == if st.typ == Path then "*" + st.name else ":" + st.name
  {
    PrintedBraces(st, withType, withCode);
    ParsePrinted(st, withType, withCode);
    assert IsLetter(st.name[0]);
  }

  /** A name that bears its mark already is not marked twice. */
  lemma MarkedOnce(st: State)
    ensures st.typ != Path && st.name != "" && st.name[0] == ':' ==> Slot(st) == st.name
    ensures st.typ == Path && st.name != "" && st.name[0] == '*' ==> Slot(st) == st.name
    ensures st.typ == Path && st.name == "" ==> Slot(st) == ""
  {
  }

  lemma PieceCompiled(p: Piece)
    requires GoodPiece(p)
    ensures Compiled(Written(p)) == Kept(p) && Readable(Written(p)) && IsMacro(Written(p)) == p.Place?
    ensures p.Place? ==> ParseParam(Written(p)) == Parsed(p.st)
  {
    match p
    case Literal(text) =>
    case Place(st, withType, withCode) =>
      PrintedBraces(st, withType, withCode);
      ParsePrinted(st, withType, withCode);
      PlaceCompiled(st, withType, withCode);
  }

  lemma {:induction false} PlacesRead(ps: seq<Piece>)
    requires forall i :: 0 <= i < |ps| ==> GoodPiece(ps[i])
    ensures ParamsOf(WrittenAll(ps)) == Places(ps)
    decreases |ps|
  {
    if ps != [] {
      PieceCompiled(ps[0]);
      assert WrittenAll(ps)[1..] == WrittenAll(ps[1..]);
      PlacesRead(ps[1..]);
    }
  }

  lemma PiecesFine(ps: seq<Piece>)
    requires GoodPieces(ps)
    ensures AllFine([""] + WrittenAll(ps))
  {
    var parts := [""] + WrittenAll(ps);
    forall i | 0 <= i < |parts|
      ensures Fine(parts[i], i == |parts| - 1)
    {
      if i > 0 {
        assert parts[i] == Written(ps[i - 1]);
        PieceFine(ps[i - 1], i == |parts| - 1);
      }
    }
  }

  lemma PieceFine(p: Piece, last: bool)
    requires GoodPiece(p) && (p.Place? && p.st.typ == Path ==> last)
    ensures Fine(Written(p), last)
  {
    PieceCompiled(p);
  }

  /** A compiled statement has no brace in it. */
  lemma KeptPlain(p: Piece, sub: string)
    requires GoodPiece(p) && p.Place? && sub != "" && sub[0] == '{'
    ensures !Contains(Kept(p), sub)
  {
    assert forall i :: 0 <= i < |p.st.name| ==> IsLetter(p.st.name[i]);
    assert '{' !in Kept(p);
    if Contains(Kept(p), sub) {
      FirstByteIn(Kept(p), sub);
    }
  }

  lemma EmptyHolds(sub: string)
    requires sub != ""
    ensures !Contains("", sub)
  {
  }

  lemma PiecesUnshadowed(ps: seq<Piece>)
    requires GoodPieces(ps)
    ensures Unshadowed([""] + WrittenAll(ps))
  {
    var texts := WrittenAll(ps);
    forall i, j | 0 <= i < j < |texts| && IsMacro(texts[j])
      ensures !Contains(Compiled(texts[i]), texts[j])
    {
      PairUnshadowed(ps, i, j);
    }
    EmptyShadowsNone(texts);
  }

  lemma EmptyShadowsNone(texts: seq<string>)
    requires Unshadowed(texts)
    ensures Unshadowed([""] + texts)
  {
    var parts := [""] + texts;
    forall i, j | 0 <= i < j < |parts| && IsMacro(parts[j])
      ensures !Contains(Compiled(parts[i]), parts[j])
    {
      assert parts[j] == texts[j - 1];
      if i == 0 {
        EmptyHolds(parts[j]);
      } else {
        assert parts[i] == texts[i - 1];
      }
    }
  }

  lemma PairUnshadowed(ps: seq<Piece>, i: nat, j: nat)
    requires GoodPieces(ps) && i < j < |ps| && IsMacro(Written(ps[j]))
    ensures !Contains(Compiled(Written(ps[i])), Written(ps[j]))
  {
    var p, later := ps[i], ps[j];
    PieceCompiled(p);
    PieceCompiled(later);
    if p.Place? {
      KeptPlain(p, Written(later));
    }
  }

  lemma CompiledKept(ps: seq<Piece>)
    requires forall i :: 0 <= i < |ps| ==> GoodPiece(ps[i])
    ensures CompiledAll([""] + WrittenAll(ps)) == [""] + KeptAll(ps)
  {
    var parts := [""] + WrittenAll(ps);
    forall i | 0 <= i < |parts|
      ensures CompiledAll(parts)[i] == ([""] + KeptAll(ps))[i]
    {
      if i > 0 {
        assert parts[i] == Written(ps[i - 1]);
        PieceCompiled(ps[i - 1]);
      }
    }
  }

  lemma WrittenPath(ps: seq<Piece>)
    requires GoodPieces(ps) && ps != []
    ensures Split(PathOf(WrittenAll(ps)), '/') == [""] + WrittenAll(ps)
    ensures PathOf(WrittenAll(ps)) != "" && PathOf(WrittenAll(ps))[|PathOf(WrittenAll(ps))| - 1] != '/'
  {
    var all := WrittenAll(ps);
    assert forall i :: 0 <= i < |ps| ==> GoodPiece(ps[i]);
    SplitPath("", all);
    assert "" + PathOf(all) == PathOf(all);
    PathEnd(all);
  }

  /** A template of texts and statements is accepted with its statements' parameters, and compiled to its texts with each
      parameter's name behind its mark. */
  lemma PiecesCompiled(ps: seq<Piece>)
    requires GoodPieces(ps) && ps != []
    ensures var path := PathOf(WrittenAll(ps));
            && ReadParts(Split(path, '/')) == Accepted(Places(ps))
            && (Places(ps) != [] ==> |path| >= 2)
            && Converted(path, Places(ps)) == Some(PathOf(KeptAll(ps)))
  {
    var path := PathOf(WrittenAll(ps));
    var parts := [""] + WrittenAll(ps);
    WrittenPath(ps);
    PiecesFine(ps);
    AcceptedExactly(parts);
    AcceptedParams(parts);
    assert parts[1..] == WrittenAll(ps);
    PlacesRead(ps);
    PiecesUnshadowed(ps);
    NeverErrs(path);
    CompiledExactly(path);
    CompiledKept(ps);
    KeptJoined(ps);
  }

  lemma KeptJoined(ps: seq<Piece>)
    requires ps != []
    ensures Join([""] + KeptAll(ps), '/') == PathOf(KeptAll(ps))
  {
    var segs := KeptAll(ps);
    assert ([""] + segs)[1..] == segs;
    JoinPath(segs);
    assert "" + "/" + Join(segs, '/') == "/" + Join(segs, '/');
  }
}
