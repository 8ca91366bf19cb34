/** Python string primitives the substitution engine is built from:
    `str.isspace`, `str.strip`, `str.split(sep)`, `str.split()`, `sep.join`
    and the regular-expression split `re.split(r"\s*C\s*", s)` used with
    C = ',' and C = ':'. */
module Text {

  /** Python's `str.isspace` for one character, which is also what `\s`
      matches in a `str` regular expression. */
  predicate IsSpace(c: char) {
    || ('\U{9}' <= c <= '\U{D}')
    || ('\U{1C}' <= c <= '\U{20}')
    || c == '\U{85}' || c == '\U{A0}' || c == '\U{1680}'
    || ('\U{2000}' <= c <= '\U{200A}')
    || c == '\U{2028}' || c == '\U{2029}' || c == '\U{202F}'
    || c == '\U{205F}' || c == '\U{3000}'
  }

  predicate AllSpace(s: string) {
    forall i :: 0 <= i < |s| ==> IsSpace(s[i])
  }

  predicate NoSpace(s: string) {
    forall i :: 0 <= i < |s| ==> !IsSpace(s[i])
  }

  predicate NoLeadingSpace(s: string) {
    s == [] || !IsSpace(s[0])
  }

  predicate NoTrailingSpace(s: string) {
    s == [] || !IsSpace(s[|s| - 1])
  }

  /** Number of occurrences of `c` in `s`. */
  function Count(s: string, c: char): nat {
    if s == [] then 0 else (if s[0] == c then 1 else 0) + Count(s[1..], c)
  }

  lemma {:induction false} CountAbsent(s: string, c: char)
    requires c !in s
    ensures Count(s, c) == 0
  {
    if s != [] {
      CountAbsent(s[1..], c);
    }
  }

  lemma {:induction false} CountConcat(a: string, b: string, c: char)
    ensures Count(a + b, c) == Count(a, c) + Count(b, c)
  {
    if a == [] {
      assert a + b == b;
    } else {
      assert (a + b)[1..] == a[1..] + b;
      CountConcat(a[1..], b, c);
    }
  }

  /** Position of the first `c` in `s`. */
  function IndexOf(s: string, c: char): (k: nat)
    requires c in s
    ensures k < |s| && s[k] == c && c !in s[..k]
  {
    if s[0] == c then 0
    else
      assert c in s[1..] by {
        var j :| 0 <= j < |s| && s[j] == c;
        assert s[1..][j - 1] == c;
      }
      var k := 1 + IndexOf(s[1..], c);
      assert s[..k] == [s[0]] + s[1..][..k - 1];
      k
  }

  /** `s.lstrip()`: drops the leading whitespace and nothing else. */
  function TrimLeft(s: string): (r: string)
    ensures |r| <= |s| && r == s[|s| - |r|..]
    ensures AllSpace(s[..|s| - |r|])
    ensures NoLeadingSpace(r)
  {
    if s != [] && IsSpace(s[0]) then
      var r := TrimLeft(s[1..]);
      TrimLeftStep(s, r);
      r
    else s
  }

  /** What `lstrip` keeps of `s[1..]` it keeps of `s` when `s[0]` is
      whitespace. */
  lemma TrimLeftStep(s: string, r: string)
    requires s != [] && IsSpace(s[0])
    requires |r| <= |s[1..]| && r == s[1..][|s[1..]| - |r|..] && AllSpace(s[1..][..|s[1..]| - |r|])
    ensures |r| <= |s| && r == s[|s| - |r|..] && AllSpace(s[..|s| - |r|])
  {
    var k := |s| - |r|;
    assert s[1..][k - 1..] == s[k..];
    forall j | 0 <= j < k ensures IsSpace(s[..k][j]) {
      if j > 0 {
        assert s[..k][j] == s[1..][..k - 1][j - 1];
      }
    }
  }

  /** `s.rstrip()`: drops the trailing whitespace and nothing else. */
  function TrimRight(s: string): (r: string)
    ensures |r| <= |s| && r == s[..|r|]
    ensures AllSpace(s[|r|..])
    ensures NoTrailingSpace(r)
  {
    if s != [] && IsSpace(s[|s| - 1]) then
      var r := TrimRight(s[..|s| - 1]);
      assert s[|r|..] == s[..|s| - 1][|r|..] + [s[|s| - 1]];
      r
    else s
  }

  /** `s.strip()`: the result neither starts nor ends with whitespace;
      `StripIsSlice` says what it keeps. */
  function Strip(s: string): (r: string)
    ensures NoLeadingSpace(r) && NoTrailingSpace(r)
  {
    var l := TrimLeft(s);
    var r := TrimRight(l);
    assert r != [] ==> r[0] == l[0];
    r
  }

  /** `r` sits in `s` at `i` with only whitespace before and after it. */
  predicate SpaceFramed(s: string, i: nat, r: string) {
    && i + |r| <= |s|
    && AllSpace(s[..i]) && AllSpace(s[i + |r|..])
    && forall k :: 0 <= k < |r| ==> r[k] == s[i + k]
  }

  /** `s.strip()` is the slice of `s` left after whitespace is removed at
      both ends: what lies before it and after it is all whitespace. */
  lemma StripIsSlice(s: string)
    ensures SpaceFramed(s, |s| - |TrimLeft(s)|, Strip(s))
  {
    var l := TrimLeft(s);
    var r := TrimRight(l);
    assert Strip(s) == r;
    StripSlices(s, l, r);
  }

  /** Where `s.strip()` sits in `s`: after the leading whitespace that
      `lstrip` drops, and before the trailing whitespace `rstrip` drops. */
  lemma StripSlices(s: string, l: string, r: string)
    requires |l| <= |s| && l == s[|s| - |l|..] && AllSpace(s[..|s| - |l|])
    requires |r| <= |l| && r == l[..|r|] && AllSpace(l[|r|..])
    ensures SpaceFramed(s, |s| - |l|, r)
  {
    var i := |s| - |l|;
    assert s[i + |r|..] == l[|r|..];
    forall j | 0 <= j < |r| ensures r[j] == s[i + j] {
      assert r[j] == l[j];
    }
  }

  /** `sep.join(parts)`. */
  function Join(parts: seq<string>, sep: string): string {
    if |parts| == 0 then ""
    else if |parts| == 1 then parts[0]
    else parts[0] + sep + Join(parts[1..], sep)
  }

  /** `s.split(c)` for a one-character separator: every piece, empty ones
      included; joining the pieces back with `c` gives `s` again. */
  function Split(s: string, c: char): (r: seq<string>)
    ensures |r| >= 1
    ensures forall i :: 0 <= i < |r| ==> c !in r[i]
    ensures Join(r, [c]) == s
  {
    if s == [] then [""]
    else
      var rest := Split(s[1..], c);
      if s[0] == c then
        assert Join([""] + rest, [c]) == [c] + Join(rest, [c]) by {
          assert ([""] + rest)[1..] == rest;
        }
        [""] + rest
      else
        var r := [[s[0]] + rest[0]] + rest[1..];
        assert r[1..] == rest[1..];
        r
  }

  lemma {:induction false} SplitNoSeparator(s: string, c: char)
    requires c !in s
    ensures Split(s, c) == [s]
  {
    if s != [] {
      SplitNoSeparator(s[1..], c);
      assert [s[0]] + s[1..] == s;
    }
  }

  lemma {:induction false} SplitFirstSeparator(p: string, c: char, tail: string)
    requires c !in p
    ensures Split(p + [c] + tail, c) == [p] + Split(tail, c)
  {
    var s := p + [c] + tail;
    if p == [] {
      assert s[1..] == tail;
    } else {
      assert s[1..] == p[1..] + [c] + tail;
      SplitFirstSeparator(p[1..], c, tail);
      assert [p[0]] + p[1..] == p;
    }
  }

  /** Splitting a join gives the parts back when no part holds the separator. */
  lemma {:induction false} SplitJoin(parts: seq<string>, c: char)
    requires |parts| >= 1
    requires forall i :: 0 <= i < |parts| ==> c !in parts[i]
    ensures Split(Join(parts, [c]), c) == parts
  {
    if |parts| == 1 {
      SplitNoSeparator(parts[0], c);
    } else {
      SplitJoin(parts[1..], c);
      SplitFirstSeparator(parts[0], c, Join(parts[1..], [c]));
      assert parts == [parts[0]] + parts[1..];
    }
  }

  lemma CountAtFirst(s: string, c: char, k: nat)
    requires k < |s| && s[k] == c && c !in s[..k]
    ensures Count(s, c) == Count(s[k + 1..], c) + 1
  {
    assert s == s[..k] + ([c] + s[k + 1..]);
    CountConcat(s[..k], [c] + s[k + 1..], c);
    CountConcat([c], s[k + 1..], c);
    CountAbsent(s[..k], c);
  }

  lemma CountTrimLeft(s: string, c: char)
    requires !IsSpace(c)
    ensures Count(TrimLeft(s), c) == Count(s, c)
  {
    var u := TrimLeft(s);
    var w := s[..|s| - |u|];
    assert s == w + u;
    assert c !in w by {
      assert forall j :: 0 <= j < |w| ==> w[j] != c;
    }
    CountConcat(w, u, c);
    CountAbsent(w, c);
  }

  /** `re.split(r"\s*C\s*", s)` for a non-space character C: the pieces
      between the occurrences of C, with the whitespace touching each C
      removed and the whitespace at the two ends of `s` kept. */
  function SplitAround(s: string, c: char): (r: seq<string>)
    requires !IsSpace(c)
    ensures |r| >= 1
    ensures forall i :: 0 <= i < |r| ==> c !in r[i]
    ensures |r[0]| <= |s| && r[0] == s[..|r[0]|]
    ensures forall i :: 0 < i < |r| ==> NoLeadingSpace(r[i])
    ensures forall i :: 0 <= i < |r| - 1 ==> NoTrailingSpace(r[i])
    decreases |s|
  {
    if c !in s then
      [s]
    else
      var k := IndexOf(s, c);
      var u := TrimLeft(s[k + 1..]);
      var rest := SplitAround(u, c);
      var first := TrimRight(s[..k]);
      SplitAroundStep(s, c, k, u, first, rest);
      [first] + rest
  }

  /** The first piece, trimmed on its right, in front of the pieces of the
      left-trimmed remainder keeps every promise of `SplitAround`. */
  lemma SplitAroundStep(s: string, c: char, k: nat, u: string, first: string, rest: seq<string>)
    requires k <= |s| && c !in s[..k]
    requires |first| <= k && first == s[..k][..|first|] && NoTrailingSpace(first)
    requires NoLeadingSpace(u)
    requires |rest| >= 1 && (forall i :: 0 <= i < |rest| ==> c !in rest[i])
    requires |rest[0]| <= |u| && rest[0] == u[..|rest[0]|]
    requires forall i :: 0 < i < |rest| ==> NoLeadingSpace(rest[i])
    requires forall i :: 0 <= i < |rest| - 1 ==> NoTrailingSpace(rest[i])
    ensures var r := [first] + rest;
            && (forall i :: 0 <= i < |r| ==> c !in r[i])
            && |r[0]| <= |s| && r[0] == s[..|r[0]|]
            && (forall i :: 0 < i < |r| ==> NoLeadingSpace(r[i]))
            && (forall i :: 0 <= i < |r| - 1 ==> NoTrailingSpace(r[i]))
  {
    var r := [first] + rest;
    PrefixOfPrefix(s, k, first, c);
    assert NoLeadingSpace(rest[0]) by {
      if rest[0] != [] { assert rest[0][0] == u[0]; }
    }
    assert forall i :: 0 < i < |r| ==> r[i] == rest[i - 1];
  }

  /** A prefix of the part of `s` before its first `c` is a prefix of `s`
      without `c`. */
  lemma PrefixOfPrefix(s: string, k: nat, first: string, c: char)
    requires k <= |s| && c !in s[..k]
    requires |first| <= k && first == s[..k][..|first|]
    ensures first == s[..|first|] && c !in first
  {
    assert s[..k][..|first|] == s[..|first|];
    forall j | 0 <= j < |first| ensures first[j] != c {
      assert first[j] == s[..k][j];
    }
  }

  /** One piece more than there are separators. */
  lemma {:induction false} SplitAroundCount(s: string, c: char)
    requires !IsSpace(c)
    ensures |SplitAround(s, c)| == Count(s, c) + 1
    decreases |s|
  {
    if c !in s {
      CountAbsent(s, c);
    } else {
      var k := IndexOf(s, c);
      CountAtFirst(s, c, k);
      CountTrimLeft(s[k + 1..], c);
      SplitAroundCount(TrimLeft(s[k + 1..]), c);
    }
  }

  lemma {:induction false} SplitAroundUnfold(s: string, c: char)
    requires !IsSpace(c) && c in s
    ensures SplitAround(s, c)
            == [TrimRight(s[..IndexOf(s, c)])] + SplitAround(TrimLeft(s[IndexOf(s, c) + 1..]), c)
  {
    var k := IndexOf(s, c);
    var u := TrimLeft(s[k + 1..]);
    assert SplitAround(s, c) == [TrimRight(s[..k])] + SplitAround(u, c);
  }

  lemma SplitAroundNoSeparator(s: string, c: char)
    requires !IsSpace(c) && c !in s
    ensures SplitAround(s, c) == [s]
  {
  }

  lemma {:induction false} IndexOfFirst(a: string, c: char, b: string)
    requires c !in a
    ensures IndexOf(a + [c] + b, c) == |a|
  {
    var s := a + [c] + b;
    if a != [] {
      assert s[1..] == a[1..] + [c] + b;
      IndexOfFirst(a[1..], c, b);
    }
  }

  lemma TrimLeftKeepsAbsent(s: string, c: char)
    requires c !in s
    ensures c !in TrimLeft(s)
  {
    var u := TrimLeft(s);
    var k := |s| - |u|;
    assert u == s[k..];
    forall j | 0 <= j < |u| ensures u[j] != c {
      assert u[j] == s[k + j];
    }
  }

  predicate IsSuffix(x: string, s: string) {
    |x| <= |s| && x == s[|s| - |x|..]
  }

  lemma SuffixTransitive(x: string, y: string, s: string)
    requires IsSuffix(x, y) && IsSuffix(y, s)
    ensures IsSuffix(x, s)
  {
    assert s[|s| - |y|..][|y| - |x|..] == s[|s| - |x|..];
  }

  function Last(r: seq<string>): string
    requires |r| >= 1
  {
    r[|r| - 1]
  }

  lemma LastOfCons(x: string, r: seq<string>)
    requires |r| >= 1
    ensures Last([x] + r) == Last(r)
  {
  }

  /** The last piece is a suffix of `s`. */
  lemma {:induction false} SplitAroundLastIsSuffix(s: string, c: char)
    requires !IsSpace(c)
    ensures IsSuffix(Last(SplitAround(s, c)), s)
    decreases |s|
  {
    if c in s {
      var k := IndexOf(s, c);
      var u := TrimLeft(s[k + 1..]);
      SplitAroundUnfold(s, c);
      SplitAroundLastIsSuffix(u, c);
      LastOfCons(TrimRight(s[..k]), SplitAround(u, c));
      assert IsSuffix(u, s[k + 1..]);
      assert IsSuffix(s[k + 1..], s);
      SuffixTransitive(u, s[k + 1..], s);
      SuffixTransitive(Last(SplitAround(u, c)), u, s);
    } else {
      SplitAroundNoSeparator(s, c);
    }
  }

  /** Whitespace in front of a text that does not start with whitespace is
      exactly what `lstrip` drops. */
  lemma {:induction false} TrimLeftGap(gap: string, b: string)
    requires AllSpace(gap) && NoLeadingSpace(b)
    ensures TrimLeft(gap + b) == b
  {
    if gap != [] {
      assert (gap + b)[1..] == gap[1..] + b;
      TrimLeftGap(gap[1..], b);
    }
  }

  /** Whitespace after a text that does not end with whitespace is exactly
      what `rstrip` drops. */
  lemma {:induction false} TrimRightGap(a: string, gap: string)
    requires NoTrailingSpace(a) && AllSpace(gap)
    ensures TrimRight(a + gap) == a
  {
    if gap == [] {
      assert a + gap == a;
      TrimRightWord(a);
    } else {
      var s := a + gap;
      var g := gap[..|gap| - 1];
      assert s[..|s| - 1] == a + g && IsSpace(s[|s| - 1]);
      TrimRightGap(a, g);
    }
  }

  /** The first piece of `re.split(r"\s*C\s*", s)`: the text up to the first
      C, the whitespace around that C dropped, then the pieces of the rest. */
  lemma SplitAroundCons(a: string, w1: string, c: char, w2: string, b: string)
    requires !IsSpace(c) && c !in a && NoTrailingSpace(a)
    requires AllSpace(w1) && AllSpace(w2) && NoLeadingSpace(b)
    ensures SplitAround(a + w1 + [c] + w2 + b, c) == [a] + SplitAround(b, c)
  {
    var x, y := a + w1, w2 + b;
    var s := x + [c] + y;
    assert a + w1 + [c] + w2 + b == s;
    SeparatorAfter(x, c, y, s);
    SpaceGapAbsent(a, w1, c);
    SplitAroundAt(s, c, |x|, x, y);
    TrimRightGap(a, w1);
    TrimLeftGap(w2, b);
  }

  /** A non-space character absent from `a` is absent after whitespace is
      appended to it. */
  lemma SpaceGapAbsent(a: string, w: string, c: char)
    requires !IsSpace(c) && c !in a && AllSpace(w)
    ensures c !in a + w
  {
    forall j | 0 <= j < |a + w| ensures (a + w)[j] != c {
      if j >= |a| { assert IsSpace(w[j - |a|]); }
    }
  }

  /** Pieces that `re.split(r"\s*C\s*", ...)` gives back unchanged once
      joined: none holds C, none has whitespace next to a separator and no
      inner piece is empty. */
  ghost predicate SplitPieces(parts: seq<string>, c: char) {
    && |parts| >= 1
    && (forall i :: 0 <= i < |parts| ==> c !in parts[i])
    && (forall i :: 0 < i < |parts| ==> NoLeadingSpace(parts[i]))
    && (forall i :: 0 <= i < |parts| - 1 ==> NoTrailingSpace(parts[i]))
    && (forall i :: 0 < i < |parts| - 1 ==> parts[i] != [])
  }

  /** `re.split(r"\s*C\s*", ...)` reads back the pieces of a join whose
      separator is C with whitespace around it. */
  lemma {:induction false} SplitAroundJoin(parts: seq<string>, w1: string, c: char, w2: string)
    requires !IsSpace(c) && AllSpace(w1) && AllSpace(w2) && SplitPieces(parts, c)
    ensures SplitAround(Join(parts, w1 + [c] + w2), c) == parts
  {
    var sep := w1 + [c] + w2;
    if |parts| == 1 {
      SplitAroundNoSeparator(parts[0], c);
    } else {
      var tail := parts[1..];
      var b := Join(tail, sep);
      SplitPiecesTail(parts, c);
      JoinCons(parts, w1, c, w2);
      JoinLeading(tail, sep);
      SplitAroundCons(parts[0], w1, c, w2, b);
      SplitAroundJoin(tail, w1, c, w2);
      ConsOf(SplitAround(Join(parts, sep), c), SplitAround(b, c), parts);
    }
  }

  lemma SplitPiecesTail(parts: seq<string>, c: char)
    requires SplitPieces(parts, c) && |parts| >= 2
    ensures SplitPieces(parts[1..], c)
    ensures c !in parts[0] && NoTrailingSpace(parts[0])
    ensures NoLeadingSpace(parts[1]) && (parts[1] != [] || |parts| == 2)
  {
    var t := parts[1..];
    forall i | 0 <= i < |t| ensures c !in t[i] { assert t[i] == parts[i + 1]; }
    forall i | 0 < i < |t| ensures NoLeadingSpace(t[i]) { assert t[i] == parts[i + 1]; }
    forall i | 0 <= i < |t| - 1 ensures NoTrailingSpace(t[i]) { assert t[i] == parts[i + 1]; }
    forall i | 0 < i < |t| - 1 ensures t[i] != [] { assert t[i] == parts[i + 1]; }
  }

  /** A join of two or more parts, its first separator written out. */
  lemma JoinCons(parts: seq<string>, w1: string, c: char, w2: string)
    requires |parts| >= 2
    ensures Join(parts, w1 + [c] + w2) == parts[0] + w1 + [c] + w2 + Join(parts[1..], w1 + [c] + w2)
  {
  }

  lemma ConsOf(r: seq<string>, rest: seq<string>, parts: seq<string>)
    requires |parts| >= 1 && r == [parts[0]] + rest && rest == parts[1..]
    ensures r == parts
  {
  }

  /** A join starts with its first part when that part is not empty. */
  lemma JoinLeading(parts: seq<string>, sep: string)
    requires |parts| >= 1 && NoLeadingSpace(parts[0]) && (parts[0] != [] || |parts| == 1)
    ensures NoLeadingSpace(Join(parts, sep))
  {
    if |parts| > 1 {
      assert Join(parts, sep)[0] == parts[0][0];
    }
  }

  /** One separator: the pieces are the two sides, trimmed next to it. */
  lemma SplitAroundOne(a: string, c: char, b: string)
    requires !IsSpace(c) && c !in a && c !in b
    ensures SplitAround(a + [c] + b, c) == [TrimRight(a), TrimLeft(b)]
  {
    var s := a + [c] + b;
    SeparatorAfter(a, c, b, s);
    TailNoSeparator(b, c);
    SplitAroundAt(s, c, |a|, a, b);
    PairOf(SplitAround(s, c), TrimRight(a), SplitAround(TrimLeft(b), c), TrimLeft(b));
  }

  lemma PairOf(r: seq<string>, x: string, rest: seq<string>, y: string)
    requires r == [x] + rest && rest == [y]
    ensures r == [x, y]
  {
  }

  /** Text after the only separator splits into itself, left-trimmed. */
  lemma TailNoSeparator(b: string, c: char)
    requires !IsSpace(c) && c !in b
    ensures SplitAround(TrimLeft(b), c) == [TrimLeft(b)]
  {
    TrimLeftKeepsAbsent(b, c);
    SplitAroundNoSeparator(TrimLeft(b), c);
  }

  lemma SeparatorAfter(a: string, c: char, b: string, s: string)
    requires s == a + [c] + b
    ensures |a| < |s| && s[|a|] == c && s[..|a|] == a && s[|a| + 1..] == b
  {
  }

  /** The split at a known first separator, between `a` and `b`. */
  lemma SplitAroundAt(s: string, c: char, k: nat, a: string, b: string)
    requires !IsSpace(c) && k < |s| && s[k] == c && c !in a
    requires s[..k] == a && s[k + 1..] == b
    ensures SplitAround(s, c) == [TrimRight(a)] + SplitAround(TrimLeft(b), c)
  {
    FirstIndex(s, c, k);
    SplitAroundUnfold(s, c);
  }

  /** The first occurrence is the one with none before it. */
  lemma FirstIndex(s: string, c: char, k: nat)
    requires k < |s| && s[k] == c && c !in s[..k]
    ensures IndexOf(s, c) == k
  {
    var j := IndexOf(s, c);
    forall i | 0 <= i < k ensures s[i] != c {
      assert s[..k][i] == s[i];
    }
    forall i | 0 <= i < j ensures s[i] != c {
      assert s[..j][i] == s[i];
    }
  }

  /** The length of the run of non-space characters at the start of `s`. */
  function WordLength(s: string): (k: nat)
    ensures k <= |s| && NoSpace(s[..k])
    ensures k < |s| ==> IsSpace(s[k])
  {
    if s == [] || IsSpace(s[0]) then 0
    else
      var k := 1 + WordLength(s[1..]);
      assert s[..k] == [s[0]] + s[1..][..k - 1];
      k
  }

  /** `s.split()`: the maximal runs of non-space characters, in order. */
  function SplitWs(s: string): (r: seq<string>)
    ensures forall i :: 0 <= i < |r| ==> r[i] != [] && NoSpace(r[i])
    decreases |s|
  {
    if s == [] then []
    else if IsSpace(s[0]) then SplitWs(s[1..])
    else
      var k := WordLength(s);
      [s[..k]] + SplitWs(s[k..])
  }

  lemma {:induction false} SplitWsLeadingSpace(w: string, tail: string)
    requires AllSpace(w)
    ensures SplitWs(w + tail) == SplitWs(tail)
  {
    if w == [] {
      assert w + tail == tail;
    } else {
      assert IsSpace((w + tail)[0]);
      assert (w + tail)[1..] == w[1..] + tail;
      SplitWsLeadingSpace(w[1..], tail);
    }
  }

  lemma {:induction false} WordLengthOfWord(w: string, tail: string)
    requires NoSpace(w)
    requires tail == [] || IsSpace(tail[0])
    ensures WordLength(w + tail) == |w|
  {
    if w != [] {
      assert (w + tail)[1..] == w[1..] + tail;
      WordLengthOfWord(w[1..], tail);
    }
  }

  /** `s.split()` reads the first word of any text: whitespace, then a
      maximal run of non-space characters, then the words of the rest. */
  lemma SplitWsCons(w: string, x: string, t: string)
    requires AllSpace(w) && x != [] && NoSpace(x) && (t == [] || IsSpace(t[0]))
    ensures SplitWs(w + x + t) == [x] + SplitWs(t)
  {
    SplitWsLeadingSpace(w, x + t);
    assert w + x + t == w + (x + t);
    WordLengthOfWord(x, t);
    var s := x + t;
    assert s[..|x|] == x && s[|x|..] == t;
    assert !IsSpace(s[0]);
  }

  /** Text made of whitespace only has no words. */
  lemma SplitWsAllSpace(w: string)
    requires AllSpace(w)
    ensures SplitWs(w) == []
  {
    SplitWsLeadingSpace(w, []);
    assert w + [] == w;
  }

  /** `" ".join(words).split() == words` for non-empty words without spaces. */
  lemma {:induction false} SplitWsJoin(words: seq<string>)
    requires forall i :: 0 <= i < |words| ==> words[i] != [] && NoSpace(words[i])
    ensures SplitWs(Join(words, " ")) == words
  {
    if |words| == 0 {
    } else {
      var w := words[0];
      var tail := if |words| == 1 then "" else " " + Join(words[1..], " ");
      var s := w + tail;
      assert Join(words, " ") == s;
      WordLengthOfWord(w, tail);
      assert s[..|w|] == w;
      assert s[|w|..] == tail;
      if |words| == 1 {
      } else {
        SplitWsLeadingSpace(" ", Join(words[1..], " "));
        SplitWsJoin(words[1..]);
        assert words == [w] + words[1..];
      }
    }
  }

  /** A string with no whitespace at either end is its own strip. */
  lemma StripClean(s: string)
    requires NoLeadingSpace(s) && NoTrailingSpace(s)
    ensures Strip(s) == s
  {
  }

  /** `s.split(c)` has one more piece than `s` has occurrences of `c`. */
  lemma {:induction false} SplitCount(s: string, c: char)
    ensures |Split(s, c)| == Count(s, c) + 1
  {
    if s != [] {
      SplitCount(s[1..], c);
    }
  }

  /** A string that does not end in whitespace is its own right strip. */
  lemma TrimRightWord(s: string)
    requires NoTrailingSpace(s)
    ensures TrimRight(s) == s
  {
  }

  /** A join draws its characters from the parts and the separator only. */
  lemma {:induction false} JoinMember(parts: seq<string>, sep: string)
    ensures forall x :: x in Join(parts, sep) ==> x in sep || exists i :: 0 <= i < |parts| && x in parts[i]
  {
    if |parts| > 1 {
      JoinMember(parts[1..], sep);
      forall x | x in Join(parts[1..], sep) && x !in sep
        ensures exists i :: 0 <= i < |parts| && x in parts[i]
      {
        var i :| 0 <= i < |parts[1..]| && x in parts[1..][i];
        assert x in parts[i + 1];
      }
    }
  }
}
