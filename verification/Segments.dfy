/** Paths as segments between slashes, and the first occurrence of a string in them. */
module Segments {
  import opened Text

  /** `strings.Split(s, sep)`, for a separator of one byte. */
  function Split(s: string, sep: char): (parts: seq<string>)
    ensures parts != [] && forall i :: 0 <= i < |parts| ==> sep !in parts[i]
    decreases |s|
  {
    var e := Upto(s, sep);
    if e == |s| then [s]
    else [s[..e]] + Split(s[e + 1..], sep)
  }

  /** `strings.Join(parts, sep)`. */
  function Join(parts: seq<string>, sep: char): string {
    if parts == [] then ""
    else if |parts| == 1 then parts[0]
    else parts[0] + [sep] + Join(parts[1..], sep)
  }

  /** Splitting undoes joining. */
  lemma {:induction false} SplitJoin(parts: seq<string>, sep: char)
    requires parts != [] && forall i :: 0 <= i < |parts| ==> sep !in parts[i]
    ensures Split(Join(parts, sep), sep) == parts
    decreases |parts|
  {
    var first := parts[0];
    if |parts| == 1 {
      assert first + "" == first;
      UptoIs(first, "", sep);
    } else {
      var rest := Join(parts[1..], sep);
      SplitJoin(parts[1..], sep);
      Chunks(first, [sep], rest);
      UptoIs(first, [sep] + rest, sep);
      SplitFirst(first, rest, sep);
      assert [first] + parts[1..] == parts;
    }
  }

  lemma SplitFirst(first: string, rest: string, sep: char)
    requires Upto(first + [sep] + rest, sep) == |first|
    ensures Split(first + [sep] + rest, sep) == [first] + Split(rest, sep)
  {
    var s := first + [sep] + rest;
    assert s[..|first|] == first && s[|first| + 1..] == rest;
  }

  /** Every segment with its slash. */
  function PathOf(segs: seq<string>): string {
    if segs == [] then "" else "/" + (segs[0] + PathOf(segs[1..]))
  }

  ghost predicate Segs(segs: seq<string>) {
    forall i :: 0 <= i < |segs| ==> '/' !in segs[i]
  }

  lemma {:induction false} JoinPath(segs: seq<string>)
    requires segs != []
    ensures "/" + Join(segs, '/') == PathOf(segs)
    decreases |segs|
  {
    if |segs| == 1 {
      assert PathOf(segs[1..]) == "" && segs[0] + "" == segs[0];
    } else {
      JoinPath(segs[1..]);
      assert segs[0] + "/" + Join(segs[1..], '/') == segs[0] + ("/" + Join(segs[1..], '/'));
    }
  }

  /** Splitting a path at its slashes gives its segments back, behind an empty first part. */
  lemma {:induction false} SplitPath(first: string, segs: seq<string>)
    requires '/' !in first && Segs(segs)
    ensures Split(first + PathOf(segs), '/') == [first] + segs
    decreases |segs|
  {
    var s := first + PathOf(segs);
    if segs == [] {
      assert s == first;
      assert first + "" == first;
      UptoIs(first, "", '/');
    } else {
      var tail := segs[0] + PathOf(segs[1..]);
      assert PathOf(segs) == "/" + tail;
      UptoIs(first, PathOf(segs), '/');
      assert s[..|first|] == first && s[|first| + 1..] == tail;
      SplitPath(segs[0], segs[1..]);
      assert [segs[0]] + segs[1..] == segs;
    }
  }

  lemma {:induction false} PathOfConcat(a: seq<string>, b: seq<string>)
    ensures PathOf(a + b) == PathOf(a) + PathOf(b)
    decreases |a|
  {
    if a == [] {
      assert a + b == b;
    } else {
      assert (a + b)[0] == a[0] && (a + b)[1..] == a[1..] + b;
      PathOfConcat(a[1..], b);
      Chunks(a[0], PathOf(a[1..]), PathOf(b));
      Chunks("/", a[0] + PathOf(a[1..]), PathOf(b));
    }
  }

  // ------------------------------------------------------------ first occurrences

  /** `strings.Index(s, sub)`. */
  function IndexOf(s: string, sub: string): (r: int)
    ensures r >= 0 ==> r + |sub| <= |s| && sub <= s[r..]
    ensures forall j :: 0 <= j < (if r < 0 then |s| + 1 else r) ==> !(sub <= s[j..])
  {
    if sub <= s then
      assert s[0..] == s;
      0
    else if s == "" then -1
    else
      var r := IndexOf(s[1..], sub);
      assert s[0..] == s;
      assert forall j :: 0 < j <= |s| ==> s[1..][j - 1..] == s[j..];
      if r < 0 then -1 else r + 1
  }

  predicate Contains(s: string, sub: string) {
    IndexOf(s, sub) >= 0
  }

  /** `strings.Replace(s, old, new, 1)`. */
  function ReplaceFirst(s: string, old': string, new': string): string {
    var i := IndexOf(s, old');
    if i < 0 then s else s[..i] + new' + s[i + |old'|..]
  }

  /** Where there is no occurrence at the start, the first one is found behind it. */
  lemma IndexShift(s: string, sub: string)
    requires s != "" && !(sub <= s)
    ensures IndexOf(s, sub) == if IndexOf(s[1..], sub) < 0 then -1 else 1 + IndexOf(s[1..], sub)
  {
  }

  /** A string without a slash is no prefix across one. */
  lemma NotAcross(s: string, i: nat, sub: string)
    requires i < |s| && s[i] == '/' && '/' !in sub && |sub| > i
    ensures !(sub <= s)
  {
    assert sub[i] != '/';
  }

  lemma PrefixInSegment(seg: string, rest: string, sub: string)
    requires seg != "" && sub != "" && '/' !in sub && (rest == "" || rest[0] == '/')
    ensures sub <= seg + rest <==> sub <= seg
  {
    var s := seg + rest;
    if |sub| <= |seg| {
      assert s[..|sub|] == seg[..|sub|];
    } else if rest != "" {
      NotAcross(s, |seg|, sub);
    }
  }

  /** A segment and what follows share no occurrence of a string without a slash. */
  lemma {:induction false} IndexInSegment(seg: string, rest: string, sub: string)
    requires sub != "" && '/' !in sub && (rest == "" || rest[0] == '/')
    ensures IndexOf(seg + rest, sub) == if Contains(seg, sub) then IndexOf(seg, sub)
              else if IndexOf(rest, sub) < 0 then -1 else |seg| + IndexOf(rest, sub)
    decreases |seg|
  {
    var s := seg + rest;
    if seg == "" {
      assert s == rest;
      assert !Contains("", sub);
    } else {
      PrefixInSegment(seg, rest, sub);
      if !(sub <= seg) {
        assert s[1..] == seg[1..] + rest;
        IndexShift(s, sub);
        IndexShift(seg, sub);
        IndexInSegment(seg[1..], rest, sub);
      }
    }
  }

  /** Replacing the first occurrence in a path replaces it in the first segment that has one. */
  lemma {:induction false} ReplaceInPath(segs: seq<string>, i: nat, old': string, new': string)
    requires old' != "" && '/' !in old' && i < |segs|
    requires (forall j :: 0 <= j < i ==> !Contains(segs[j], old')) && Contains(segs[i], old')
    ensures ReplaceFirst(PathOf(segs), old', new') == PathOf(segs[i := ReplaceFirst(segs[i], old', new')])
    ensures Contains(PathOf(segs), old')
    decreases |segs|
  {
    var seg, rest := segs[0], PathOf(segs[1..]);
    var segs' := segs[i := ReplaceFirst(segs[i], old', new')];
    IndexInSegment(seg, rest, old');
    if i == 0 {
      assert segs'[1..] == segs[1..];
      ReplaceFront(seg, rest, old', new');
    } else {
      ReplaceInPath(segs[1..], i - 1, old', new');
      assert segs'[0] == seg && segs'[1..] == segs[1..][i - 1 := ReplaceFirst(segs[i], old', new')];
      ReplaceBehind(seg, rest, old', new');
    }
    SlashFirst(seg + rest, old');
    ReplaceBehind("/", seg + rest, old', new');
  }

  lemma ReplaceFront(seg: string, rest: string, old': string, new': string)
    requires Contains(seg, old') && IndexOf(seg + rest, old') == IndexOf(seg, old')
    ensures ReplaceFirst(seg + rest, old', new') == ReplaceFirst(seg, old', new') + rest
  {
    var k := IndexOf(seg, old');
    var a, b := seg[..k], seg[k + |old'|..];
    Cut(seg, k, old');
    ReplaceIs(a, b, old', new');
    Chunks(a + old', b, rest);
    ReplaceIs(a, b + rest, old', new');
    Chunks(a + new', b, rest);
  }

  lemma Chunks<T>(a: seq<T>, b: seq<T>, c: seq<T>)
    ensures a + (b + c) == a + b + c
  {
  }

  /** Four parts, the last three put together first. */
  lemma Behind<T>(head: seq<T>, a: seq<T>, b: seq<T>, c: seq<T>)
    ensures head + a + b + c == head + (a + b + c)
  {
  }

  lemma ReplaceBehind(head: string, rest: string, old': string, new': string)
    requires Contains(rest, old') && IndexOf(head + rest, old') == |head| + IndexOf(rest, old')
    ensures ReplaceFirst(head + rest, old', new') == head + ReplaceFirst(rest, old', new')
  {
    var k := IndexOf(rest, old');
    var a, b := rest[..k], rest[k + |old'|..];
    Cut(rest, k, old');
    ReplaceIs(a, b, old', new');
    Behind(head, a, old', b);
    ReplaceIs(head + a, b, old', new');
    Behind(head, a, new', b);
  }

  lemma Cut(s: string, k: nat, sub: string)
    requires k <= |s| && sub <= s[k..]
    ensures k + |sub| <= |s| && s == s[..k] + sub + s[k + |sub|..]
  {
    var tail := s[k..];
    assert tail == sub + tail[|sub|..];
    assert s == s[..k] + tail && tail[|sub|..] == s[k + |sub|..];
    Chunks(s[..k], sub, tail[|sub|..]);
  }

  lemma ReplaceIs(a: string, b: string, old': string, new': string)
    requires IndexOf(a + old' + b, old') == |a|
    ensures ReplaceFirst(a + old' + b, old', new') == a + new' + b
  {
    var s := a + old' + b;
    assert s[..|a|] == a && s[|a| + |old'|..] == b;
  }

  lemma SlashFirst(s: string, sub: string)
    requires sub != "" && '/' !in sub
    ensures IndexOf("/" + s, sub) == if IndexOf(s, sub) < 0 then -1 else 1 + IndexOf(s, sub)
  {
    assert ("/" + s)[1..] == s;
    NotAcross("/" + s, 0, sub);
    IndexShift("/" + s, sub);
  }

  /** Nothing is replaced in a path none of whose segments has an occurrence. */
  lemma {:induction false} NoneInPath(segs: seq<string>, sub: string)
    requires sub != "" && '/' !in sub && forall j :: 0 <= j < |segs| ==> !Contains(segs[j], sub)
    ensures IndexOf(PathOf(segs), sub) == -1
    decreases |segs|
  {
    if segs != [] {
      var seg, rest := segs[0], PathOf(segs[1..]);
      NoneInPath(segs[1..], sub);
      IndexInSegment(seg, rest, sub);
      SlashFirst(seg + rest, sub);
    }
  }
}
