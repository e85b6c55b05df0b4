/** Byte ranges of a request: what a `Range` header asks for, and whether it is answered in parts. */
module Ranges {
  import opened Options
  import opened Text
  import opened Decimal
  import opened Segments

  // --------------------------------------------------------------- what the code does

  datatype Range = Range(start: int, length: int)

  /** The white space `strings.TrimSpace` removes, of one byte. */
  predicate IsBlank(c: char) {
    c == ' ' || '\t' <= c <= '\r'
  }

  function TrimLeft(s: string): string {
    if s != "" && IsBlank(s[0]) then TrimLeft(s[1..]) else s
  }

  function TrimRight(s: string): string {
    if s != "" && IsBlank(s[|s| - 1]) then TrimRight(s[..|s| - 1]) else s
  }

  function Trim(s: string): string {
    TrimRight(TrimLeft(s))
  }

  datatype Part = Bad | Blank | Past | Kept(range: Range)

  /** One element of the header. */
  function ParsePart(element: string, size: int): Part {
    var ra := Trim(element);
    var i := Upto(ra, '-');
    if ra == "" then Blank
    else if i == |ra| then Bad
    else
      var start, end := Trim(ra[..i]), Trim(ra[i + 1..]);
      if start == "" then ParseSuffix(end, size) else ParseInterval(start, end, size)
  }

  function ParseSuffix(end: string, size: int): Part {
    match Parse(end)
    case None => Bad
    case Some(n) =>
      var start := Wrap(size - if n > size then size else n);
      Kept(Range(start, Wrap(size - start)))
  }

  function ParseInterval(start: string, end: string, size: int): Part {
    match Parse(start)
    case None => Bad
    case Some(first) =>
      if first < 0 then Bad
      else if first >= size then Past
      else if end == "" then Kept(Range(first, Wrap(size - first)))
      else
        match Parse(end)
        case None => Bad
        case Some(last) =>
          if first > last then Bad
          else Kept(Range(first, Wrap((if last >= size then size - 1 else last) - first + 1)))
  }

  datatype Outcome = Invalid | NoOverlap | Parts(ranges: seq<Range>)

  function Collect(elements: seq<string>, size: int, ranges: seq<Range>, past: bool): Outcome
    decreases |elements|
  {
    if elements == [] then if past && ranges == [] then NoOverlap else Parts(ranges)
    else
      match ParsePart(elements[0], size)
      case Bad => Invalid
      case Blank => Collect(elements[1..], size, ranges, past)
      case Past => Collect(elements[1..], size, ranges, true)
      case Kept(r) => Collect(elements[1..], size, ranges + [r], past)
  }

  function Parsed(header: string, size: int): Outcome {
    if header == "" then Parts([])
    else if !("bytes=" <= header) then Invalid
    else Collect(Split(header[6..], ','), size, [], false)
  }

  method ParseRange(header: string, size: int) returns (r: Outcome)
    ensures r == Parsed(header, size)
  {
    if header == "" {
      return Parts([]);
    }
    if !("bytes=" <= header) {
      return Invalid;
    }
    var elements, ranges, past := Split(header[6..], ','), [], false;
    for i := 0 to |elements|
      invariant Parsed(header, size) == Collect(elements[i..], size, ranges, past)
    {
      assert elements[i..][0] == elements[i] && elements[i..][1..] == elements[i + 1..];
      match ParsePart(elements[i], size) {
        case Bad => return Invalid;
        case Blank =>
        case Past => past := true;
        case Kept(range) => ranges := ranges + [range];
      }
    }
    r := if past && ranges == [] then NoOverlap else Parts(ranges);
  }

  function Summed(ranges: seq<Range>): int {
    if ranges == [] then 0 else Wrap(Summed(ranges[..|ranges| - 1]) + ranges[|ranges| - 1].length)
  }

  method SumRangesSize(ranges: seq<Range>) returns (size: int)
    ensures size == Summed(ranges)
  {
    size := 0;
    for i := 0 to |ranges|
      invariant size == Summed(ranges[..i])
    {
      size := Wrap(size + ranges[i].length);
      assert ranges[..i + 1][..i] == ranges[..i];
    }
    assert ranges[..|ranges|] == ranges;
  }

  /** The ranges content of a known size is served in; none means all of it. */
  function Served(header: string, size: int): Outcome {
    match Parsed(header, size)
    case Parts(ranges) => Parts(if Summed(ranges) > size then [] else ranges)
    case other => other
  }

  // -------------------------------------------------------------------- what it means

  /** A byte-range-spec or suffix-byte-range-spec, section 2.1 of RFC 7233. */
  datatype Spec = From(first: nat) | FromTo(first: nat, last: nat) | Suffix(count: nat)

  /** An element of a byte-range-set: optional white space around a spec, or around nothing. */
  datatype Element = Element(before: string, spec: Option<Spec>, after: string)

  function PrintSpec(spec: Spec): string {
    match spec
    case From(first) => Print(first) + "-"
    case FromTo(first, last) => Print(first) + "-" + Print(last)
    case Suffix(count) => "-" + Print(count)
  }

  function PrintElement(e: Element): string {
    e.before + (if e.spec.Some? then PrintSpec(e.spec.value) else "") + e.after
  }

  function PrintAll(es: seq<Element>): (r: seq<string>)
    ensures |r| == |es| && forall i :: 0 <= i < |es| ==> r[i] == PrintElement(es[i])
  {
    seq(|es|, i requires 0 <= i < |es| => PrintElement(es[i]))
  }

  function PrintHeader(es: seq<Element>): string {
    "bytes=" + Join(PrintAll(es), ',')
  }

  ghost predicate WellFormed(spec: Spec) {
    match spec
    case From(first) => first <= MAX
    case FromTo(first, last) => first <= last <= MAX
    case Suffix(count) => count <= MAX
  }

  ghost predicate AllBlank(s: string) {
    forall i :: 0 <= i < |s| ==> IsBlank(s[i])
  }

  ghost predicate GoodElement(e: Element) {
    AllBlank(e.before) && AllBlank(e.after) && (e.spec.Some? ==> WellFormed(e.spec.value))
  }

  /** The bytes a spec selects from content of `size` bytes; a spec that starts past the end selects nothing. */
  function Selected(spec: Spec, size: nat): Option<Range> {
    match spec
    case From(first) => if first < size then Some(Range(first, size - first)) else None
    case FromTo(first, last) =>
      if first < size then Some(Range(first, (if last < size then last else size - 1) + 1 - first)) else None
    case Suffix(count) => if count < size then Some(Range(size - count, count)) else Some(Range(0, size))
  }

  function AllSelected(es: seq<Element>, size: nat): seq<Range> {
    if es == [] then []
    else if es[0].spec.None? then AllSelected(es[1..], size)
    else
      match Selected(es[0].spec.value, size)
      case None => AllSelected(es[1..], size)
      case Some(r) => [r] + AllSelected(es[1..], size)
  }

  ghost predicate SomePast(es: seq<Element>, size: nat) {
    exists i :: 0 <= i < |es| && es[i].spec.Some? && Selected(es[i].spec.value, size).None?
  }

  ghost predicate InBounds(r: Range, size: int) {
    0 <= r.start && 0 <= r.length && r.start + r.length <= size
  }

  /** Between white space, something that neither starts nor ends with it. */
  ghost predicate Solid(s: string) {
    s != "" ==> !IsBlank(s[0]) && !IsBlank(s[|s| - 1])
  }

  lemma {:induction false} TrimLeftIs(before: string, s: string)
    requires AllBlank(before) && (s != "" ==> !IsBlank(s[0]))
    ensures TrimLeft(before + s) == s
    decreases |before|
  {
    if before == "" {
      assert before + s == s;
    } else {
      assert (before + s)[1..] == before[1..] + s;
      TrimLeftIs(before[1..], s);
    }
  }

  lemma {:induction false} TrimRightIs(s: string, after: string)
    requires AllBlank(after) && (s != "" ==> !IsBlank(s[|s| - 1]))
    ensures TrimRight(s + after) == s
    decreases |after|
  {
    if after == "" {
      assert s + after == s;
    } else {
      var n := |after| - 1;
      assert (s + after)[..|s| + n] == s + after[..n] && (s + after)[|s| + n] == after[n];
      TrimRightIs(s, after[..n]);
    }
  }

  lemma TrimIs(before: string, s: string, after: string)
    requires AllBlank(before) && AllBlank(after) && Solid(s)
    ensures Trim(before + s + after) == s
  {
    if s == "" {
      var all := before + after;
      assert before + s + after == all + "" && AllBlank(all);
      TrimLeftIs(all, "");
    } else {
      TrimLeftIs(before, s + after);
      assert before + s + after == before + (s + after);
      TrimRightIs(s, after);
    }
  }

  lemma TrimSolid(s: string)
    requires Solid(s)
    ensures Trim(s) == s
  {
    TrimIs("", s, "");
    assert "" + s + "" == s;
  }

  lemma PrintedSolid(n: nat)
    requires n <= MAX
    ensures Print(n) != "" && AllDigits(Print(n)) && Solid(Print(n)) && '-' !in Print(n) && ',' !in Print(n)
    ensures Parse(Print(n)) == Some(n)
  {
    ParsePrint(n);
    assert Print(n) == PrintNat(n);
    assert forall c :: c in Print(n) ==> IsDigit(c);
  }

  /** A dash between two trimmed sides. */
  lemma PartAt(left: string, right: string, size: int)
    requires '-' !in left && Solid(left) && Solid(right) && (left != "" || right != "")
    ensures ParsePart(left + "-" + right, size) == if left == "" then ParseSuffix(right, size) else ParseInterval(left, right, size)
  {
    var ra := left + "-" + right;
    assert ra == left + ("-" + right);
    UptoIs(left, "-" + right, '-');
    assert Solid(ra);
    TrimSolid(ra);
    assert ra[..|left|] == left && ra[|left| + 1..] == right;
    TrimSolid(left);
    TrimSolid(right);
  }

  function PartOf(r: Option<Range>): Part {
    if r.Some? then Kept(r.value) else Past
  }

  lemma SpecText(spec: Spec)
    requires WellFormed(spec)
    ensures PrintSpec(spec) != "" && Solid(PrintSpec(spec)) && ',' !in PrintSpec(spec)
  {
    match spec
    case From(first) => PrintedSolid(first);
    case FromTo(first, last) =>
      PrintedSolid(first);
      PrintedSolid(last);
    case Suffix(count) => PrintedSolid(count);
  }

  lemma FromParsed(first: nat, right: string, size: nat)
    requires first <= MAX && Solid(right)
    ensures ParsePart(Print(first) + "-" + right, size) ==
              if first >= size then Past
              else if right == "" then Kept(Range(first, Wrap(size - first)))
              else ParseInterval(Print(first), right, size)
  {
    PrintedSolid(first);
    PartAt(Print(first), right, size);
  }

  lemma SuffixParsed(count: nat, size: nat)
    requires count <= MAX && size <= MAX
    ensures ParsePart("-" + Print(count), size) == PartOf(Selected(Suffix(count), size))
  {
    PrintedSolid(count);
    PartAt("", Print(count), size);
    assert "" + "-" + Print(count) == "-" + Print(count);
  }

  lemma IntervalParsed(first: nat, last: nat, size: nat)
    requires first <= last <= MAX && first < size <= MAX
    ensures ParseInterval(Print(first), Print(last), size) == PartOf(Selected(FromTo(first, last), size))
  {
    PrintedSolid(first);
    PrintedSolid(last);
  }

  lemma SpecParsed(spec: Spec, size: nat)
    requires WellFormed(spec) && size <= MAX
    ensures ParsePart(PrintSpec(spec), size) == PartOf(Selected(spec, size))
  {
    match spec
    case From(first) =>
      FromParsed(first, "", size);
      assert Print(first) + "-" + "" == Print(first) + "-";
    case FromTo(first, last) =>
      PrintedSolid(last);
      FromParsed(first, Print(last), size);
      if first < size {
        IntervalParsed(first, last, size);
      }
    case Suffix(count) => SuffixParsed(count, size);
  }

  lemma ElementParsed(e: Element, size: nat)
    requires GoodElement(e) && size <= MAX
    ensures ParsePart(PrintElement(e), size) == if e.spec.None? then Blank else PartOf(Selected(e.spec.value, size))
    ensures ',' !in PrintElement(e)
  {
    if e.spec.Some? {
      var body := PrintSpec(e.spec.value);
      SpecText(e.spec.value);
      SpecParsed(e.spec.value, size);
      TrimIs(e.before, body, e.after);
      TrimSolid(body);
    } else {
      TrimIs(e.before, "", e.after);
    }
  }

  lemma {:induction false} CollectPrinted(es: seq<Element>, size: nat, ranges: seq<Range>, past: bool)
    requires size <= MAX && forall i :: 0 <= i < |es| ==> GoodElement(es[i])
    ensures Collect(PrintAll(es), size, ranges, past) ==
              if (past || SomePast(es, size)) && ranges + AllSelected(es, size) == [] then NoOverlap
              else Parts(ranges + AllSelected(es, size))
    decreases |es|
  {
    if es == [] {
      assert ranges + AllSelected(es, size) == ranges;
    } else {
      ElementParsed(es[0], size);
      assert PrintAll(es)[1..] == PrintAll(es[1..]);
      PastFirst(es, size);
      match ParsePart(PrintElement(es[0]), size)
      case Blank => CollectPrinted(es[1..], size, ranges, past);
      case Past => CollectPrinted(es[1..], size, ranges, true);
      case Kept(r) =>
        CollectPrinted(es[1..], size, ranges + [r], past);
        assert ranges + [r] + AllSelected(es[1..], size) == ranges + ([r] + AllSelected(es[1..], size));
    }
  }

  lemma PastFirst(es: seq<Element>, size: nat)
    requires es != []
    ensures SomePast(es, size) <==> (es[0].spec.Some? && Selected(es[0].spec.value, size).None?) || SomePast(es[1..], size)
  {
    var tail := es[1..];
    assert forall i :: 0 < i < |es| ==> es[i] == tail[i - 1];
    assert forall i :: 0 <= i < |tail| ==> tail[i] == es[i + 1];
  }

  /** A header with any list of well-formed specs gives, in order, the bytes each selects; it fails exactly when
      some spec starts past the end and none selects anything. */
  lemma HeaderParsed(es: seq<Element>, size: nat)
    requires size <= MAX && forall i :: 0 <= i < |es| ==> GoodElement(es[i])
    ensures Parsed(PrintHeader(es), size) ==
              if SomePast(es, size) && AllSelected(es, size) == [] then NoOverlap else Parts(AllSelected(es, size))
  {
    var header, parts := PrintHeader(es), PrintAll(es);
    assert header[..6] == "bytes=" && header[6..] == Join(parts, ',');
    forall i | 0 <= i < |parts|
      ensures ',' !in parts[i]
    {
      ElementParsed(es[i], size);
    }
    CollectPrinted(es, size, [], false);
    assert [] + AllSelected(es, size) == AllSelected(es, size);
    if es == [] {
      assert Split("", ',') == [""] && [""][1..] == [];
    } else {
      SplitJoin(parts, ',');
    }
  }

  /** What a spec selects lies within the content, and is the last or the named bytes of it. */
  lemma SelectedBytes(spec: Spec, size: nat, b: int)
    requires WellFormed(spec)
    ensures Selected(spec, size).Some? ==> InBounds(Selected(spec, size).value, size)
    ensures (match spec
             case From(first) => first <= b < size
             case FromTo(first, last) => first <= b < size && b <= last
             case Suffix(count) => 0 <= b < size && size - count <= b)
            <==> Selected(spec, size).Some? &&
                 Selected(spec, size).value.start <= b < Selected(spec, size).value.start + Selected(spec, size).value.length
  {
  }

  /** A suffix of negative length, as in `--5`. */
  ghost predicate Backwards(element: string) {
    var ra := Trim(element);
    var i := Upto(ra, '-');
    i < |ra| && Trim(ra[..i]) == "" && Parse(Trim(ra[i + 1..])).Some? && Parse(Trim(ra[i + 1..])).value < 0
  }

  /** The range of any element, well-formed or not, lies within the content exactly when it is no negative suffix. */
  lemma PartBounds(element: string, size: nat)
    requires size <= MAX && ParsePart(element, size).Kept?
    ensures InBounds(ParsePart(element, size).range, size) <==> !Backwards(element)
  {
  }

  ghost predicate AllInBounds(rs: seq<Range>, size: int) {
    forall i :: 0 <= i < |rs| ==> InBounds(rs[i], size)
  }

  ghost predicate NoneBackwards(elements: seq<string>) {
    forall i :: 0 <= i < |elements| ==> !Backwards(elements[i])
  }

  lemma NoneBackwardsFirst(elements: seq<string>)
    requires elements != []
    ensures NoneBackwards(elements) <==> !Backwards(elements[0]) && NoneBackwards(elements[1..])
  {
    var tail := elements[1..];
    assert forall i :: 0 < i < |elements| ==> elements[i] == tail[i - 1];
    assert forall i :: 0 <= i < |tail| ==> tail[i] == elements[i + 1];
  }

  lemma AllInBoundsMore(rs: seq<Range>, r: Range, size: int)
    ensures AllInBounds(rs + [r], size) <==> AllInBounds(rs, size) && InBounds(r, size)
  {
    var more := rs + [r];
    assert more[|rs|] == r && forall i :: 0 <= i < |rs| ==> more[i] == rs[i];
  }

  lemma {:induction false} CollectBounds(elements: seq<string>, size: nat, ranges: seq<Range>, past: bool)
    requires size <= MAX && Collect(elements, size, ranges, past).Parts?
    ensures AllInBounds(Collect(elements, size, ranges, past).ranges, size) <==> AllInBounds(ranges, size) && NoneBackwards(elements)
    decreases |elements|
  {
    if elements != [] {
      NoneBackwardsFirst(elements);
      match ParsePart(elements[0], size)
      case Blank => CollectBounds(elements[1..], size, ranges, past);
      case Past => CollectBounds(elements[1..], size, ranges, true);
      case Kept(r) =>
        PartBounds(elements[0], size);
        AllInBoundsMore(ranges, r, size);
        CollectBounds(elements[1..], size, ranges + [r], past);
    }
  }

  /** Whatever the header, all its ranges lie within the content exactly when none of its elements is a negative suffix. */
  lemma HeaderBounds(header: string, size: nat)
    requires size <= MAX && "bytes=" <= header && Parsed(header, size).Parts?
    ensures AllInBounds(Parsed(header, size).ranges, size) <==> NoneBackwards(Split(header[6..], ','))
  {
    CollectBounds(Split(header[6..], ','), size, [], false);
  }

  // ------------------------------------------------------ which headers are refused

  ghost predicate Space(c: char) {
    c == ' ' || 9 <= c as int <= 13
  }

  ghost predicate AllSpace(s: string) {
    forall i :: 0 <= i < |s| ==> Space(s[i])
  }

  ghost predicate Tight(s: string) {
    s != "" ==> !Space(s[0]) && !Space(s[|s| - 1])
  }

  /** An element of two sides around its first dash, each with any white space about it. */
  ghost predicate Sides(element: string, left: string, right: string) {
    && Tight(left) && Tight(right) && '-' !in left
    && exists a, b, c, d :: AllSpace(a) && AllSpace(b) && AllSpace(c) && AllSpace(d) && element == a + left + b + "-" + (c + right + d)
  }

  /** The sides of an element that is accepted: a suffix length alone, or a first position with nothing behind it or with
      a last position that is not before it; the last position is not looked at when the first is past the end. */
  ghost predicate Accepted(left: string, right: string, size: int) {
    if left == "" then Numeral(right)
    else
      && Numeral(left) && SignedValue(left) >= 0
      && (SignedValue(left) >= size || right == "" || (Numeral(right) && SignedValue(left) <= SignedValue(right)))
  }

  ghost predicate Refused(element: string, size: int) {
    !AllSpace(element) && !exists left, right :: Sides(element, left, right) && Accepted(left, right, size)
  }

  lemma {:induction false} TrimLeftParts(s: string) returns (a: string)
    ensures AllSpace(a) && s == a + TrimLeft(s) && (TrimLeft(s) != "" ==> !Space(TrimLeft(s)[0]))
    decreases |s|
  {
    if s != "" && IsBlank(s[0]) {
      var b := TrimLeftParts(s[1..]);
      a := [s[0]] + b;
    } else {
      a := "";
    }
  }

  lemma {:induction false} TrimRightParts(s: string) returns (a: string)
    ensures AllSpace(a) && s == TrimRight(s) + a && (TrimRight(s) != "" ==> !Space(TrimRight(s)[|TrimRight(s)| - 1]))
    decreases |s|
  {
    var n := |s| - 1;
    if s != "" && IsBlank(s[n]) {
      var b := TrimRightParts(s[..n]);
      a := b + [s[n]];
      assert s == s[..n] + [s[n]];
    } else {
      a := "";
      assert s + a == s;
    }
  }

  /** Trimming takes white space off both ends, all of it. */
  lemma TrimParts(s: string) returns (a: string, b: string)
    ensures AllSpace(a) && AllSpace(b) && s == a + Trim(s) + b && Tight(Trim(s))
  {
    a := TrimLeftParts(s);
    b := TrimRightParts(TrimLeft(s));
    assert TrimLeft(s) == Trim(s) + b;
    assert Trim(s) != "" ==> TrimLeft(s)[0] == Trim(s)[0];
  }

  lemma SpaceBlank(s: string)
    ensures AllSpace(s) <==> AllBlank(s)
    ensures Tight(s) <==> Solid(s)
  {
  }

  /** The sides an element falls into. */
  lemma SidesAre(element: string, left: string, right: string, size: int)
    requires Sides(element, left, right)
    ensures ParsePart(element, size) == if left == "" then ParseSuffix(right, size) else ParseInterval(left, right, size)
    ensures !AllSpace(element)
  {
    var a, b, c, d :| AllSpace(a) && AllSpace(b) && AllSpace(c) && AllSpace(d) && element == a + left + b + "-" + (c + right + d);
    SpaceBlank(a);
    SpaceBlank(b);
    SpaceBlank(c);
    SpaceBlank(d);
    SpaceBlank(left);
    SpaceBlank(right);
    SidesTrimmed(element, a, left, b, c, right, d);
    var l, r := if left == "" then "" else left + b, if right == "" then "" else c + right;
    TrimmedPart(element, l + "-" + r, l, r, left, right, size);
    assert element[|a + left + b|] == '-';
  }

  lemma SidesTrimmed(element: string, a: string, left: string, b: string, c: string, right: string, d: string)
    requires AllBlank(a) && AllBlank(b) && AllBlank(c) && AllBlank(d) && Solid(left) && Solid(right) && '-' !in left
    requires element == a + left + b + "-" + (c + right + d)
    ensures var l, r := if left == "" then "" else left + b, if right == "" then "" else c + right;
            && Trim(element) == l + "-" + r && '-' !in l && Trim(l) == left && Trim(r) == right
  {
    var l, before := LeftSide(a, left, b);
    var r, after := RightSide(c, right, d);
    SidesText(before, l, r, after);
    assert element == before + (l + "-" + r) + after;
    SolidDash(l, r);
    TrimIs(before, l + "-" + r, after);
  }

  lemma LeftSide(a: string, left: string, b: string) returns (l: string, before: string)
    requires AllBlank(a) && AllBlank(b) && Solid(left) && '-' !in left
    ensures l == (if left == "" then "" else left + b) && a + left + b == before + l && AllBlank(before)
    ensures '-' !in l && Trim(l) == left && (l != "" ==> !IsBlank(l[0]))
  {
    if left == "" {
      l, before := "", a + b;
      TrimSolid("");
    } else {
      l, before := left + b, a;
      TrimIs("", left, b);
      assert "" + left + b == l;
    }
  }

  lemma RightSide(c: string, right: string, d: string) returns (r: string, after: string)
    requires AllBlank(c) && AllBlank(d) && Solid(right)
    ensures r == (if right == "" then "" else c + right) && c + right + d == r + after && AllBlank(after)
    ensures Trim(r) == right && (r != "" ==> !IsBlank(r[|r| - 1]))
  {
    if right == "" {
      r, after := "", c + d;
      TrimSolid("");
    } else {
      r, after := c + right, d;
      TrimIs(c, right, "");
      assert c + right + "" == r;
    }
  }

  lemma SidesText(before: string, l: string, r: string, after: string)
    ensures before + l + "-" + (r + after) == before + (l + "-" + r) + after
  {
  }

  lemma SolidDash(l: string, r: string)
    requires (l != "" ==> !IsBlank(l[0])) && (r != "" ==> !IsBlank(r[|r| - 1]))
    ensures Solid(l + "-" + r)
  {
  }

  lemma TrimmedPart(element: string, ra: string, l: string, r: string, left: string, right: string, size: int)
    requires Trim(element) == ra == l + "-" + r && '-' !in l && Trim(l) == left && Trim(r) == right
    ensures ParsePart(element, size) == if left == "" then ParseSuffix(right, size) else ParseInterval(left, right, size)
  {
    assert ra == l + ("-" + r);
    UptoIs(l, "-" + r, '-');
    assert ra[..|l|] == l && ra[|l| + 1..] == r;
  }

  /** An element with a dash has sides. */
  lemma HasSides(element: string) returns (left: string, right: string)
    requires '-' in Trim(element)
    ensures Sides(element, left, right)
  {
    var ra := Trim(element);
    var i := Upto(ra, '-');
    var a, d := TrimParts(element);
    left, right := Trim(ra[..i]), Trim(ra[i + 1..]);
    var a', b := TrimParts(ra[..i]);
    var c, d' := TrimParts(ra[i + 1..]);
    SidesJoin(a, ra, d, i, a', left, b, c, right, d');
    TrimmedNoDash(ra[..i], a', left, b);
    SidesHold(element, a + a', left, b, c, right, d' + d);
  }

  lemma SidesHold(element: string, a: string, left: string, b: string, c: string, right: string, d: string)
    requires Tight(left) && Tight(right) && '-' !in left
    requires AllSpace(a) && AllSpace(b) && AllSpace(c) && AllSpace(d) && element == a + left + b + "-" + (c + right + d)
    ensures Sides(element, left, right)
  {
  }

  lemma SidesJoin(a: string, ra: string, d: string, i: nat, a': string, left: string, b: string, c: string, right: string, d': string)
    requires i < |ra| && ra[i] == '-' && ra[..i] == a' + left + b && ra[i + 1..] == c + right + d'
    ensures a + ra + d == (a + a') + left + b + "-" + (c + right + (d' + d))
  {
    assert ra == ra[..i] + "-" + ra[i + 1..];
  }

  lemma TrimmedNoDash(s: string, a: string, m: string, b: string)
    requires '-' !in s && s == a + m + b
    ensures '-' !in m
  {
    assert forall k :: 0 <= k < |m| ==> m[k] == s[|a| + k];
  }

  lemma SuffixRefused(right: string, size: int)
    ensures ParseSuffix(right, size) == Bad <==> !Numeral(right)
  {
    ParseExactly(right);
  }

  lemma IntervalRefused(left: string, right: string, size: int)
    requires left != ""
    ensures ParseInterval(left, right, size) == Bad <==> !Accepted(left, right, size)
  {
    ParseExactly(left);
    ParseExactly(right);
  }

  /** An element is bad exactly when it is neither white space nor of the accepted form. */
  lemma PartRefused(element: string, size: int)
    ensures ParsePart(element, size) == Bad <==> Refused(element, size)
  {
    forall left, right | Sides(element, left, right)
      ensures ParsePart(element, size) == Bad <==> !Accepted(left, right, size)
    {
      SidesAre(element, left, right, size);
      SuffixRefused(right, size);
      if left != "" {
        IntervalRefused(left, right, size);
      }
    }
    if '-' in Trim(element) {
      var left, right := HasSides(element);
      SidesAre(element, left, right, size);
    } else {
      NoDash(element, size);
    }
  }

  lemma NoDash(element: string, size: int)
    requires '-' !in Trim(element)
    ensures ParsePart(element, size) == (if AllSpace(element) then Blank else Bad)
    ensures forall left, right :: !Sides(element, left, right)
  {
    var a, b := TrimParts(element);
    SpaceBlank(element);
    if AllSpace(element) {
      TrimIs(element, "", "");
      assert element + "" + "" == element;
    }
    forall left, right
      ensures !Sides(element, left, right)
    {
      if Sides(element, left, right) {
        var p, q, r, s :| AllSpace(p) && AllSpace(q) && AllSpace(r) && AllSpace(s) && element == p + left + q + "-" + (r + right + s);
        DashKept(element, |p + left + q|, a, Trim(element), b);
      }
    }
  }

  lemma DashKept(element: string, k: nat, a: string, m: string, b: string)
    requires k < |element| && element[k] == '-' && element == a + m + b && AllSpace(a) && AllSpace(b)
    ensures '-' in m
  {
    assert forall i :: 0 <= i < |a| ==> element[i] == a[i];
    assert forall i :: |a| + |m| <= i < |element| ==> element[i] == b[i - |a| - |m|];
    assert m[k - |a|] == '-';
  }

  lemma {:induction false} CollectRefused(elements: seq<string>, size: int, ranges: seq<Range>, past: bool)
    ensures Collect(elements, size, ranges, past) == Invalid <==> exists i :: 0 <= i < |elements| && ParsePart(elements[i], size) == Bad
    decreases |elements|
  {
    if elements != [] {
      var tail := elements[1..];
      assert forall i :: 0 < i < |elements| ==> elements[i] == tail[i - 1];
      assert forall i :: 0 <= i < |tail| ==> tail[i] == elements[i + 1];
      match ParsePart(elements[0], size)
      case Bad =>
      case Blank => CollectRefused(tail, size, ranges, past);
      case Past => CollectRefused(tail, size, ranges, true);
      case Kept(r) => CollectRefused(tail, size, ranges + [r], past);
    }
  }

  /** A header is refused exactly when there is one that lacks its unit, or has an element that is neither white space nor
      of the accepted form. */
  lemma InvalidExactly(header: string, size: int)
    ensures Parsed(header, size) == Invalid <==>
              header != "" && (!("bytes=" <= header) || exists i :: 0 <= i < |Split(header[6..], ',')| && Refused(Split(header[6..], ',')[i], size))
  {
    if "bytes=" <= header {
      var elements := Split(header[6..], ',');
      CollectRefused(elements, size, [], false);
      forall i | 0 <= i < |elements|
        ensures ParsePart(elements[i], size) == Bad <==> Refused(elements[i], size)
      {
        PartRefused(elements[i], size);
      }
    }
  }

  /** Without a header all of the content is served. */
  lemma NoHeader(size: int)
    ensures Parsed("", size) == Parts([]) && Served("", size) == Parts([])
  {
  }

  /** Positions in the wrong order are refused, like `5-2`. */
  lemma WrongOrder(first: nat, last: nat, size: int)
    requires last < first < size && first <= MAX
    ensures Refused(Print(first) + "-" + Print(last), size)
  {
    PrintedSolid(first);
    PrintedSolid(last);
    PartAt(Print(first), Print(last), size);
    PartRefused(Print(first) + "-" + Print(last), size);
  }

  /** What has no dash is refused, like `abc`. */
  lemma DashMissing(element: string, size: int)
    requires !AllSpace(element) && '-' !in element
    ensures Refused(element, size)
  {
    var a, b := TrimParts(element);
    TrimmedNoDash(element, a, Trim(element), b);
    NoDash(element, size);
  }

  function Total(ranges: seq<Range>): int {
    if ranges == [] then 0 else Total(ranges[..|ranges| - 1]) + ranges[|ranges| - 1].length
  }

  lemma {:induction false} TotalBounds(ranges: seq<Range>, size: nat)
    requires AllInBounds(ranges, size)
    ensures 0 <= Total(ranges) <= |ranges| * size
    decreases |ranges|
  {
    if ranges != [] {
      var front := ranges[..|ranges| - 1];
      TotalBounds(front, size);
      assert |ranges| * size == |front| * size + size;
    }
  }

  lemma WrapAdd(a: int, b: int)
    ensures Wrap(Wrap(a) + b) == Wrap(a + b)
  {
  }

  /** The loop's sum is the total of the lengths, wrapped. */
  lemma {:induction false} SummedWraps(ranges: seq<Range>)
    ensures Summed(ranges) == Wrap(Total(ranges))
    decreases |ranges|
  {
    if ranges != [] {
      var front, last := ranges[..|ranges| - 1], ranges[|ranges| - 1];
      SummedWraps(front);
      WrapAdd(Total(front), last.length);
    }
  }

  lemma ServedIs(header: string, size: int, rs: seq<Range>)
    requires Parsed(header, size) == Parts(rs)
    ensures Served(header, size) == Parts(if Wrap(Total(rs)) > size then [] else rs)
  {
    SummedWraps(rs);
  }

  /** Ranges are served exactly when together they are no longer than the content, unless the 64-bit sum falls on the
      other side of the size than the sum itself. */
  lemma ServedExactly(header: string, size: int, rs: seq<Range>)
    requires Parsed(header, size) == Parts(rs)
    ensures Served(header, size) == Parts(if Total(rs) <= size then rs else []) <==>
              rs == [] || (Wrap(Total(rs)) <= size <==> Total(rs) <= size)
  {
    ServedIs(header, size, rs);
  }

  /** While the number of ranges times the size fits 64 bits, both sums are on the same side. */
  lemma ServedWithin(header: string, size: nat)
    requires size <= MAX && Parsed(header, size).Parts?
    requires var rs := Parsed(header, size).ranges; |rs| * size <= MAX && AllInBounds(rs, size)
    ensures var rs := Parsed(header, size).ranges;
            && Served(header, size) == Parts(if Total(rs) <= size then rs else [])
            && Total(Served(header, size).ranges) <= size
  {
    var rs := Parsed(header, size).ranges;
    TotalBounds(rs, size);
    ServedExactly(header, size, rs);
  }

  const QUARTER := 0x4000_0000_0000_0000

  function Copies<T>(x: T, n: nat): (r: seq<T>)
    ensures |r| == n && forall i :: 0 <= i < n ==> r[i] == x
  {
    seq(n, _ => x)
  }

  lemma {:induction false} CopiesSelected(e: Element, n: nat, size: nat, r: Range)
    requires e.spec.Some? && Selected(e.spec.value, size) == Some(r)
    ensures AllSelected(Copies(e, n), size) == Copies(r, n)
    decreases n
  {
    if n > 0 {
      CopiesSelected(e, n - 1, size, r);
      assert Copies(e, n)[1..] == Copies(e, n - 1);
      assert Copies(r, n) == [r] + Copies(r, n - 1);
    }
  }

  lemma {:induction false} CopiesTotal(r: Range, n: nat)
    ensures Total(Copies(r, n)) == n * r.length
    decreases n
  {
    if n > 0 {
      CopiesTotal(r, n - 1);
      assert Copies(r, n)[..n - 1] == Copies(r, n - 1);
      assert n * r.length == (n - 1) * r.length + r.length;
    }
  }

  const WHOLE := Element("", Some(From(0)), "")

  lemma WholeParsed(n: nat, size: nat)
    requires 0 < size <= MAX && n > 0
    ensures Parsed(PrintHeader(Copies(WHOLE, n)), size) == Parts(Copies(Range(0, size), n))
  {
    var es := Copies(WHOLE, n);
    CopiesSelected(WHOLE, n, size, Range(0, size));
    assert forall i :: 0 <= i < |es| ==> GoodElement(es[i]) && Selected(es[i].spec.value, size).Some?;
    HeaderParsed(es, size);
  }

  lemma QuartersWrap()
    ensures Wrap(4 * QUARTER) == 0
  {
    assert 4 * QUARTER == 0x1_0000_0000_0000_0000;
  }

  /** Four times the whole of a file of 2^62 bytes is served: the sum of the lengths wraps to 0. */
  lemma SumWraps()
    ensures Served(PrintHeader(Copies(WHOLE, 4)), QUARTER) == Parts(Copies(Range(0, QUARTER), 4))
    ensures Total(Copies(Range(0, QUARTER), 4)) == 4 * QUARTER
  {
    WholeParsed(4, QUARTER);
    CopiesTotal(Range(0, QUARTER), 4);
    QuartersWrap();
    ServedIs(PrintHeader(Copies(WHOLE, 4)), QUARTER, Copies(Range(0, QUARTER), 4));
  }
}
