/** Brace expansion of tox environment lists: `expand_curlys`,
    `_replace_curly`, `_split_out_of_braces`, `bash_expand` and
    `parse_envlist` (ctox/subst.py).

    The regular expression `{[^{}]*}` is modelled by the scanner `GroupAt`
    (a match starting at one position) and `NextSpan` (the leftmost match at
    or after a position, as `re.finditer` finds it). */
module Braces {
  import opened Outcomes
  import opened Text

  /** A match of `{[^{}]*}`: `start` indexes the `{`, `end` is one past the `}`. */
  datatype Span = Span(start: nat, end: nat)

  predicate IsBrace(c: char) {
    c == '{' || c == '}'
  }

  /** `s[i..e]` is `{`, a brace-free run, `}`: the regex `{[^{}]*}` matches there. */
  predicate IsGroup(s: string, i: nat, e: nat) {
    i + 2 <= e <= |s| && s[i] == '{' && s[e - 1] == '}'
    && forall j :: i < j < e - 1 ==> !IsBrace(s[j])
  }

  /** No match of `{[^{}]*}` starts in `[a, b)`. */
  ghost predicate NoGroupBetween(s: string, a: nat, b: nat) {
    forall i, e :: a <= i < b ==> !IsGroup(s, i, e)
  }

  /** The first brace character at or after `i`, or `|s|`. */
  function NextBrace(s: string, i: nat): (k: nat)
    requires i <= |s|
    ensures i <= k <= |s|
    ensures k < |s| ==> IsBrace(s[k])
    ensures forall j :: i <= j < k ==> !IsBrace(s[j])
    decreases |s| - i
  {
    if i == |s| || IsBrace(s[i]) then i else NextBrace(s, i + 1)
  }

  /** The end of the match of `{[^{}]*}` that starts at `i`, if there is one. */
  function GroupAt(s: string, i: nat): (r: Option<nat>)
    requires i <= |s|
    ensures r.Some? ==> IsGroup(s, i, r.value)
    ensures r.None? ==> forall e :: !IsGroup(s, i, e)
  {
    if i < |s| && s[i] == '{' then
      var k := NextBrace(s, i + 1);
      GroupEndsAtNextBrace(s, i);
      if k < |s| && s[k] == '}' then Some(k + 1) else None
    else None
  }

  lemma GroupEndsAtNextBrace(s: string, i: nat)
    requires i < |s|
    ensures forall e: nat :: IsGroup(s, i, e) ==> NextBrace(s, i + 1) == e - 1
  {
  }

  /** The leftmost match of `{[^{}]*}` starting at or after `pos`. */
  function NextSpan(s: string, pos: nat): (r: Option<Span>)
    requires pos <= |s|
    ensures r.Some? ==> pos <= r.value.start && IsGroup(s, r.value.start, r.value.end)
    ensures r.Some? ==> NoGroupBetween(s, pos, r.value.start)
    ensures r.None? ==> NoGroupBetween(s, pos, |s|)
    decreases |s| - pos
  {
    if pos == |s| then None
    else
      match GroupAt(s, pos)
      case Some(e) => Some(Span(pos, e))
      case None => NextSpan(s, pos + 1)
  }

  /** `r` lists the matches of `{[^{}]*}` at or after `pos`, left to right
      and without overlap, and no match starts before the first of them,
      between two of them or after the last. */
  ghost predicate AllMatches(s: string, pos: nat, r: seq<Span>) {
    && (forall i :: 0 <= i < |r| ==> pos <= r[i].start && IsGroup(s, r[i].start, r[i].end))
    && (forall i :: 0 < i < |r| ==> r[i - 1].end <= r[i].start)
    && (forall i :: 0 < i < |r| ==> NoGroupBetween(s, r[i - 1].end, r[i].start))
    && (r == [] ==> NoGroupBetween(s, pos, |s|))
    && (r != [] ==> NoGroupBetween(s, pos, r[0].start) && NoGroupBetween(s, r[|r| - 1].end, |s|))
  }

  /** Every match of `{[^{}]*}` from `pos` on: `re.finditer(r"{[^{}]*}", s[pos:])`. */
  function Spans(s: string, pos: nat): (r: seq<Span>)
    requires pos <= |s|
    ensures AllMatches(s, pos, r)
    ensures r == [] <==> NoGroupBetween(s, pos, |s|)
    decreases |s| - pos
  {
    match NextSpan(s, pos)
    case None => []
    case Some(sp) =>
      var rest := Spans(s, sp.end);
      SpansStep(s, pos, sp, rest);
      [sp] + rest
  }

  /** The leftmost match in front of the matches after it misses none. */
  lemma SpansStep(s: string, pos: nat, sp: Span, rest: seq<Span>)
    requires pos <= sp.start && IsGroup(s, sp.start, sp.end) && NoGroupBetween(s, pos, sp.start)
    requires AllMatches(s, sp.end, rest)
    ensures AllMatches(s, pos, [sp] + rest) && !NoGroupBetween(s, pos, |s|)
  {
    var r := [sp] + rest;
    forall i | 0 <= i < |r| ensures pos <= r[i].start && IsGroup(s, r[i].start, r[i].end) {
      if i > 0 { assert r[i] == rest[i - 1]; }
    }
    forall i | 0 < i < |r|
      ensures r[i - 1].end <= r[i].start && NoGroupBetween(s, r[i - 1].end, r[i].start)
    {
      assert r[i] == rest[i - 1];
      if i > 1 { assert r[i - 1] == rest[i - 2]; }
    }
    assert r[|r| - 1].end == if rest == [] then sp.end else rest[|rest| - 1].end;
    assert IsGroup(s, sp.start, sp.end) && pos <= sp.start < |s|;
  }

  predicate AllGroups(s: string, spans: seq<Span>) {
    forall i :: 0 <= i < |spans| ==> IsGroup(s, spans[i].start, spans[i].end)
  }

  /** The text between the braces of a group: `match.group()[1:-1]`. */
  function Content(s: string, sp: Span): string
    requires IsGroup(s, sp.start, sp.end)
  {
    s[sp.start + 1..sp.end - 1]
  }

  /** The alternatives of a group: `re.split(r"\s*,\s*", content)`. */
  function Alternatives(content: string): (r: seq<string>)
    ensures |r| >= 1
    ensures forall i :: 0 <= i < |r| ==> ',' !in r[i]
  {
    SplitAround(content, ',')
  }

  /** The alternatives of a group written as `{a,b}`, `{a, b}` or with any
      whitespace around the commas are the pieces it was written from, when
      no piece holds a comma, none has whitespace next to a comma and no
      inner piece is empty. */
  lemma AlternativesJoin(alts: seq<string>, w1: string, w2: string)
    requires AllSpace(w1) && AllSpace(w2) && SplitPieces(alts, ',')
    ensures Alternatives(Join(alts, w1 + [','] + w2)) == alts
  {
    SplitAroundJoin(alts, w1, ',', w2);
  }

  /** Python's `t[:n]`, which is all of `t` when `n` is past its end. */
  function PyPrefix(t: string, n: nat): string {
    if n <= |t| then t[..n] else t
  }

  /** Python's `t[n:]`, which is empty when `n` is past its end. */
  function PySuffix(t: string, n: nat): string {
    if n <= |t| then t[n..] else ""
  }

  /** `[p + x for x in xs]`. */
  function Prepend(p: string, xs: seq<string>): (r: seq<string>)
    ensures |r| == |xs|
    ensures forall i :: 0 <= i < |xs| ==> r[i] == p + xs[i]
  {
    seq(|xs|, i requires 0 <= i < |xs| => p + xs[i])
  }

  // ---------------------------------------------------------------------
  // expand_curlys, as written: a right-to-left reduction over the matches.
  // ---------------------------------------------------------------------

  /** `[e[:sp.start] + alt + e[sp.end:] for e in envlist]`. */
  function Substitute(envlist: seq<string>, sp: Span, alt: string): (r: seq<string>)
    ensures |r| == |envlist|
    ensures forall i :: 0 <= i < |r| ==>
              r[i] == PyPrefix(envlist[i], sp.start) + alt + PySuffix(envlist[i], sp.end)
  {
    seq(|envlist|, i requires 0 <= i < |envlist| =>
      PyPrefix(envlist[i], sp.start) + alt + PySuffix(envlist[i], sp.end))
  }

  /** `_replace_curly(envlist, match)`: the alternatives are the outer loop,
      the current list the inner one. */
  function ReplaceCurly(envlist: seq<string>, sp: Span, alts: seq<string>): (r: seq<string>)
    ensures |r| == |alts| * |envlist|
  {
    if alts == [] then []
    else Substitute(envlist, sp, alts[0]) + ReplaceCurly(envlist, sp, alts[1..])
  }

  /** `reduce(_replace_curly, reversed(spans), [s])`: the last match is
      replaced first, the first match last. */
  function ReduceCurlys(s: string, spans: seq<Span>): seq<string>
    requires AllGroups(s, spans)
  {
    if spans == [] then [s]
    else
      ReplaceCurly(ReduceCurlys(s, spans[1..]), spans[0], Alternatives(Content(s, spans[0])))
  }

  /** `expand_curlys(s)`. */
  function ExpandCurlys(s: string): seq<string> {
    ReduceCurlys(s, Spans(s, 0))
  }

  // ---------------------------------------------------------------------
  // Reference: the Cartesian product in document order.
  // ---------------------------------------------------------------------

  /** `p + alt + rest` for every alternative (outer loop) and every rest (inner loop). */
  function Cross(p: string, alts: seq<string>, rests: seq<string>): (r: seq<string>)
    ensures |r| == |alts| * |rests|
  {
    if alts == [] then []
    else
      var r := Prepend(p + alts[0], rests) + Cross(p, alts[1..], rests);
      assert |alts| * |rests| == |rests| + (|alts| - 1) * |rests|;
      r
  }

  /** Entry `i * |rests| + j` of the product is alternative `i` followed by
      rest `j`: the alternatives vary slowest. */
  lemma {:induction false} CrossAt(p: string, alts: seq<string>, rests: seq<string>, i: nat, j: nat)
    requires i < |alts| && j < |rests|
    ensures i * |rests| + j < |Cross(p, alts, rests)|
    ensures Cross(p, alts, rests)[i * |rests| + j] == p + alts[i] + rests[j]
  {
    var n := |rests|;
    var head := Prepend(p + alts[0], rests);
    var tail := Cross(p, alts[1..], rests);
    assert Cross(p, alts, rests) == head + tail;
    if i == 0 {
      assert 0 * n + j == j;
    } else {
      CrossAt(p, alts[1..], rests, i - 1, j);
      ShiftRow(i, n, j);
      assert alts[1..][i - 1] == alts[i];
    }
  }

  lemma ShiftRow(i: nat, n: nat, j: nat)
    requires i > 0
    ensures i * n + j == n + ((i - 1) * n + j)
  {
  }

  /** The expansions of `s[pos..]`: the first group's alternatives vary
      slowest, the remaining groups are expanded the same way recursively. */
  function Expand(s: string, pos: nat): (r: seq<string>)
    requires pos <= |s|
    decreases |s| - pos
  {
    match NextSpan(s, pos)
    case None => [s[pos..]]
    case Some(sp) => Cross(s[pos..sp.start], Alternatives(Content(s, sp)), Expand(s, sp.end))
  }

  function Product(xs: seq<nat>): nat {
    if xs == [] then 1 else xs[0] * Product(xs[1..])
  }

  /** The number of alternatives of each group of `s`, in document order. */
  function AlternativeCounts(s: string, spans: seq<Span>): (r: seq<nat>)
    requires AllGroups(s, spans)
    ensures |r| == |spans|
  {
    if spans == [] then []
    else [|Alternatives(Content(s, spans[0]))|] + AlternativeCounts(s, spans[1..])
  }

  lemma {:induction false} ReplaceCurlyOnPrepended(s: string, pos: nat, a: nat, b: nat,
                                                   alts: seq<string>, rests: seq<string>)
    requires pos <= a < b <= |s|
    ensures ReplaceCurly(Prepend(s[..b], rests), Span(a, b), alts)
            == Prepend(s[..pos], Cross(s[pos..a], alts, rests))
  {
    if alts != [] {
      var x := alts[0];
      var l := Prepend(s[..b], rests);
      var sub := Substitute(l, Span(a, b), x);
      var want := Prepend(s[..pos], Prepend(s[pos..a] + x, rests));
      forall i | 0 <= i < |rests| ensures sub[i] == want[i] {
        var e := s[..b] + rests[i];
        assert PyPrefix(e, a) == s[..a];
        assert PySuffix(e, b) == rests[i];
        assert s[..pos] + (s[pos..a] + x + rests[i]) == s[..a] + x + rests[i] by {
          assert s[..pos] + s[pos..a] == s[..a];
        }
      }
      assert sub == want;
      ReplaceCurlyOnPrepended(s, pos, a, b, alts[1..], rests);
      var tail := Cross(s[pos..a], alts[1..], rests);
      assert Cross(s[pos..a], alts, rests) == Prepend(s[pos..a] + x, rests) + tail;
      assert Prepend(s[..pos], Prepend(s[pos..a] + x, rests) + tail)
             == want + Prepend(s[..pos], tail);
    }
  }

  lemma {:induction false} ReduceIsExpand(s: string, pos: nat)
    requires pos <= |s|
    ensures ReduceCurlys(s, Spans(s, pos)) == Prepend(s[..pos], Expand(s, pos))
    decreases |s| - pos
  {
    match NextSpan(s, pos)
    case None =>
      assert s[..pos] + s[pos..] == s;
    case Some(sp) =>
      var spans := Spans(s, pos);
      assert spans[0] == sp && spans[1..] == Spans(s, sp.end);
      ReduceIsExpand(s, sp.end);
      ReplaceCurlyOnPrepended(s, pos, sp.start, sp.end, Alternatives(Content(s, sp)), Expand(s, sp.end));
  }

  /** `expand_curlys` as written (matches replaced right to left) equals the
      Cartesian product in which the leftmost group varies slowest. */
  lemma ExpandCurlysIsProduct(s: string)
    ensures ExpandCurlys(s) == Expand(s, 0)
  {
    ReduceIsExpand(s, 0);
    assert s[..0] == "";
    assert forall t: string :: "" + t == t;
  }

  /** One factor per group: the number of expansions is the product of the
      groups' alternative counts. */
  lemma {:induction false} ReduceCurlysLength(s: string, spans: seq<Span>)
    requires AllGroups(s, spans)
    ensures |ReduceCurlys(s, spans)| == Product(AlternativeCounts(s, spans))
  {
    if spans != [] {
      ReduceCurlysLength(s, spans[1..]);
    }
  }

  /** `len(expand_curlys(s))` is the product of the alternative counts of
      the groups of `s`, and 1 when `s` has no group. */
  lemma ExpandCurlysLength(s: string)
    ensures |ExpandCurlys(s)| == Product(AlternativeCounts(s, Spans(s, 0)))
  {
    ReduceCurlysLength(s, Spans(s, 0));
  }

  /** A text with no match of `{[^{}]*}` expands to itself alone; this
      covers texts with an unclosed `{` such as `"x{y"`. */
  lemma ExpandCurlysNoBrace(s: string)
    requires NoGroupBetween(s, 0, |s|)
    ensures ExpandCurlys(s) == [s]
  {
  }

  /** Text without `{` from `pos` on holds no match there. */
  lemma NoOpenNoGroup(s: string, pos: nat)
    requires pos <= |s| && '{' !in s[pos..]
    ensures NoGroupBetween(s, pos, |s|)
  {
    forall i: nat, e: nat | pos <= i < |s| ensures !IsGroup(s, i, e) {
      assert s[i] == s[pos..][i - pos];
    }
  }

  // ---------------------------------------------------------------------
  // _split_out_of_braces and bash_expand
  // ---------------------------------------------------------------------

  /** The first non-space position at or after `i`. */
  function SkipSpace(s: string, i: nat): (j: nat)
    requires i <= |s|
    ensures i <= j <= |s| && AllSpace(s[i..j])
    ensures j < |s| ==> !IsSpace(s[j])
    decreases |s| - i
  {
    if i == |s| || !IsSpace(s[i]) then i
    else
      var j := SkipSpace(s, i + 1);
      assert s[i..j] == [s[i]] + s[i + 1..j];
      j
  }

  /** Where the match of `\s*,\s*` that starts at `i` ends, if one starts there. */
  function SeparatorAt(s: string, i: nat): (r: Option<nat>)
    requires i <= |s|
    ensures r.Some? ==> i < r.value <= |s|
  {
    var j := SkipSpace(s, i);
    if j < |s| && s[j] == ',' then Some(SkipSpace(s, j + 1)) else None
  }

  function NonEmpty(t: string): (r: seq<string>)
    ensures forall i :: 0 <= i < |r| ==> r[i] == t && t != ""
  {
    if t == "" then [] else [t]
  }

  /** The generator `_split_out_of_braces` resumed at `pos`, the current part
      having started at `prev`: `re.finditer(r"{[^{}]*}|\s*,\s*", s)` where
      a group is skipped whole and a separator ends the current part. */
  function SplitFrom(s: string, pos: nat, prev: nat): (r: seq<string>)
    requires prev <= pos <= |s|
    ensures forall i :: 0 <= i < |r| ==> r[i] != ""
    decreases |s| - pos
  {
    if pos == |s| then NonEmpty(s[prev..])
    else
      match GroupAt(s, pos)
      case Some(e) => SplitFrom(s, e, prev)
      case None =>
        match SeparatorAt(s, pos)
        case Some(e) => NonEmpty(s[prev..pos]) + SplitFrom(s, e, e)
        case None => SplitFrom(s, pos + 1, prev)
  }

  /** `list(_split_out_of_braces(s))`: the non-empty top-level parts. */
  function SplitOutOfBraces(s: string): (r: seq<string>)
    ensures forall i :: 0 <= i < |r| ==> r[i] != ""
  {
    SplitFrom(s, 0, 0)
  }

  /** Scanning `p` from `i` as `_split_out_of_braces` does meets no
      separator, and every `{` that opens no group has another brace after
      it, so that what follows `p` cannot close it. */
  predicate TopLevel(p: string, i: nat)
    requires i <= |p|
    decreases |p| - i
  {
    if i == |p| then true
    else
      match GroupAt(p, i)
      case Some(e) => TopLevel(p, e)
      case None =>
        && (p[i] == '{' ==> NextBrace(p, i + 1) < |p|)
        && SeparatorAt(p, i).None?
        && TopLevel(p, i + 1)
  }

  /** A part that `_split_out_of_braces` gives back whole from a join: not
      empty, no whitespace at either end and no top-level comma. */
  predicate Piece(p: string) {
    p != "" && NoLeadingSpace(p) && NoTrailingSpace(p) && TopLevel(p, 0)
  }

  /** `p` sits in `s` at offset `off`. */
  ghost predicate Embedded(s: string, off: nat, p: string) {
    off + |p| <= |s| && s[off..off + |p|] == p
  }

  lemma EmbeddedAt(s: string, off: nat, p: string, j: nat)
    requires Embedded(s, off, p) && j < |p|
    ensures s[off + j] == p[j]
  {
    assert p[j] == s[off..off + |p|][j];
  }

  /** Splitting a join of pieces, with a comma and any whitespace around it
      between them, gives the pieces back: commas inside `{...}` do not
      split, and the whitespace touching each top-level comma is dropped. */
  lemma SplitOutOfBracesJoin(parts: seq<string>, w1: string, w2: string)
    requires AllSpace(w1) && AllSpace(w2) && |parts| >= 1
    requires forall i :: 0 <= i < |parts| ==> Piece(parts[i])
    ensures SplitOutOfBraces(Join(parts, w1 + [','] + w2)) == parts
  {
    var s := Join(parts, w1 + [','] + w2);
    assert s[0..] == s;
    JoinScan(s, 0, parts, w1, w2);
  }

  /** The same for the two spellings tox users write: `a,b` and `a, b`. */
  lemma SplitOutOfBracesCommas(parts: seq<string>)
    requires |parts| >= 1 && forall i :: 0 <= i < |parts| ==> Piece(parts[i])
    ensures SplitOutOfBraces(Join(parts, ",")) == parts
    ensures SplitOutOfBraces(Join(parts, ", ")) == parts
  {
    assert "" + [','] + "" == ",";
    assert "" + [','] + " " == ", ";
    SplitOutOfBracesJoin(parts, "", "");
    SplitOutOfBracesJoin(parts, "", " ");
  }

  /** The scan resumed at a piece's offset, the current part starting there,
      reads the remaining pieces. */
  lemma {:induction false} JoinScan(s: string, off: nat, parts: seq<string>, w1: string, w2: string)
    requires AllSpace(w1) && AllSpace(w2) && |parts| >= 1
    requires forall i :: 0 <= i < |parts| ==> Piece(parts[i])
    requires off <= |s| && s[off..] == Join(parts, w1 + [','] + w2)
    ensures SplitFrom(s, off, off) == parts
    decreases |parts|
  {
    var p := parts[0];
    var q := off + |p|;
    JoinHead(s, off, parts, w1 + [','] + w2);
    assert Piece(p);
    ScanPiece(s, off, p, 0, off, q);
    if |parts| == 1 {
      LastPiece(s, off, p, q);
    } else {
      assert Piece(parts[1]);
      var next := JoinStep(s, off, parts, w1, w2, q);
      PiecesTail(parts);
      JoinScan(s, next, parts[1..], w1, w2);
      ConsOf(SplitFrom(s, off, off), SplitFrom(s, next, next), parts);
    }
  }

  lemma PiecesTail(parts: seq<string>)
    requires |parts| >= 1 && forall i :: 0 <= i < |parts| ==> Piece(parts[i])
    ensures forall i :: 0 <= i < |parts| - 1 ==> Piece(parts[1..][i])
  {
    forall i | 0 <= i < |parts| - 1 ensures Piece(parts[1..][i]) {
      assert parts[1..][i] == parts[i + 1];
    }
  }

  /** The scan at the end of the text closes the last piece. */
  lemma LastPiece(s: string, off: nat, p: string, q: nat)
    requires p != "" && q == off + |p| == |s| && s[off..q] == p
    ensures SplitFrom(s, q, off) == [p]
  {
    assert s[off..] == s[off..q];
  }

  /** The scan at the end of a piece that a separator follows closes the
      piece and starts the next one after the separator. */
  lemma JoinStep(s: string, off: nat, parts: seq<string>, w1: string, w2: string, q: nat) returns (next: nat)
    requires AllSpace(w1) && AllSpace(w2) && |parts| >= 2
    requires parts[0] != "" && parts[1] != "" && NoLeadingSpace(parts[1])
    requires off <= |s| && s[off..] == Join(parts, w1 + [','] + w2) && q == off + |parts[0]|
    ensures q < next <= |s| && s[next..] == Join(parts[1..], w1 + [','] + w2)
    ensures SplitFrom(s, q, off) == [parts[0]] + SplitFrom(s, next, next)
  {
    var sep := w1 + [','] + w2;
    next := q + |sep|;
    JoinTail(s, off, parts, sep);
    JoinHead(s, next, parts[1..], sep);
    JoinHead(s, off, parts, sep);
    SeparatorAfterPiece(s, q, w1, w2, next, parts[1]);
    SplitFromSeparator(s, q, off, next, parts[0]);
  }

  lemma SplitFromSeparator(s: string, pos: nat, prev: nat, e: nat, part: string)
    requires prev <= pos < |s| && GroupAt(s, pos).None? && SeparatorAt(s, pos) == Some(e)
    requires part != "" && s[prev..pos] == part
    ensures SplitFrom(s, pos, prev) == [part] + SplitFrom(s, e, e)
  {
    assert NonEmpty(s[prev..pos]) == [part];
  }

  /** The first part of a join sits at the join's offset. */
  lemma JoinHead(s: string, off: nat, parts: seq<string>, sep: string)
    requires |parts| >= 1 && off <= |s| && s[off..] == Join(parts, sep)
    ensures Embedded(s, off, parts[0]) && s[off..off + |parts[0]|] == parts[0]
    ensures |parts| == 1 ==> off + |parts[0]| == |s|
  {
    var p := parts[0];
    assert Join(parts, sep)[..|p|] == p;
    assert s[off..off + |p|] == s[off..][..|p|];
  }

  /** After the first part of a join come the separator and the join of the
      rest. */
  lemma JoinTail(s: string, off: nat, parts: seq<string>, sep: string)
    requires |parts| >= 2 && off <= |s| && s[off..] == Join(parts, sep)
    ensures off + |parts[0]| + |sep| <= |s|
    ensures Embedded(s, off + |parts[0]|, sep)
    ensures s[off + |parts[0]| + |sep|..] == Join(parts[1..], sep)
  {
    var p, rest := parts[0], Join(parts[1..], sep);
    var t := s[off..];
    assert t == p + sep + rest;
    assert t[|p|..|p| + |sep|] == sep;
    assert s[off + |p|..off + |p| + |sep|] == t[|p|..|p| + |sep|];
    assert t[|p| + |sep|..] == rest;
    assert s[off + (|p| + |sep|)..] == t[|p| + |sep|..];
  }

  /** At the end of a piece that a separator follows, the scan meets no
      group and a separator reaching the next piece's first character. */
  lemma SeparatorAfterPiece(s: string, q: nat, w1: string, w2: string, e: nat, next: string)
    requires AllSpace(w1) && AllSpace(w2) && next != "" && NoLeadingSpace(next)
    requires Embedded(s, q, w1 + [','] + w2) && e == q + |w1 + [','] + w2|
    requires Embedded(s, e, next)
    ensures q < |s| && GroupAt(s, q).None?
    ensures SeparatorAt(s, q) == Some(e)
  {
    var sep := w1 + [','] + w2;
    var c := q + |w1|;
    var t := c + 1;
    EmbeddedAt(s, q, sep, 0);
    EmbeddedAt(s, q, sep, |w1|);
    assert sep[|w1|] == ',';
    if w1 != [] { assert IsSpace(w1[0]); }
    forall j | 0 <= j < |w1| ensures s[q + j] == w1[j] {
      EmbeddedAt(s, q, sep, j);
    }
    SkipSpaceOver(s, q, w1);
    EmbeddedAt(s, e, next, 0);
    assert t + |w2| == e;
    forall j | 0 <= j < |w2| ensures s[t + j] == w2[j] {
      EmbeddedAt(s, q, sep, |w1| + 1 + j);
      assert sep[|w1| + 1 + j] == w2[j];
    }
    SkipSpaceOver(s, t, w2);
  }

  /** Skipping whitespace stops right after a run of it when a non-space
      character follows. */
  lemma {:induction false} SkipSpaceOver(s: string, i: nat, w: string)
    requires AllSpace(w) && i + |w| < |s| && !IsSpace(s[i + |w|])
    requires forall j :: 0 <= j < |w| ==> s[i + j] == w[j]
    ensures SkipSpace(s, i) == i + |w|
    decreases |w|
  {
    if w != [] {
      assert s[i] == w[0];
      forall j | 0 <= j < |w| - 1 ensures s[i + 1 + j] == w[1..][j] {
        assert s[i + (j + 1)] == w[j + 1];
      }
      SkipSpaceOver(s, i + 1, w[1..]);
    }
  }

  /** Scanning a piece inside a longer text neither splits it nor runs past
      its end. */
  lemma ScanPiece(s: string, off: nat, p: string, i: nat, pos: nat, q: nat)
    requires Embedded(s, off, p) && NoTrailingSpace(p) && i <= |p| && TopLevel(p, i)
    requires pos == off + i && q == off + |p|
    ensures SplitFrom(s, pos, off) == SplitFrom(s, q, off)
  {
    PieceThrough(s, off, p, i, pos, q);
    ThroughSplits(s, pos, q, off);
  }

  /** From `pos` to `q` the scan of `s` meets no separator, and every group
      it steps over ends by `q`. */
  ghost predicate Through(s: string, pos: nat, q: nat)
    requires pos <= q <= |s|
    decreases q - pos
  {
    if pos == q then true
    else
      match GroupAt(s, pos)
      case Some(e) => e <= q && Through(s, e, q)
      case None => SeparatorAt(s, pos).None? && Through(s, pos + 1, q)
  }

  /** A stretch the scan goes through adds nothing to the current part. */
  lemma {:induction false} ThroughSplits(s: string, pos: nat, q: nat, prev: nat)
    requires prev <= pos <= q <= |s| && Through(s, pos, q)
    ensures SplitFrom(s, pos, prev) == SplitFrom(s, q, prev)
    decreases q - pos
  {
    if pos < q {
      match GroupAt(s, pos)
      case Some(e) =>
        SplitFromGroup(s, pos, prev, e);
        ThroughSplits(s, e, q, prev);
      case None =>
        SplitFromPlain(s, pos, prev);
        ThroughSplits(s, pos + 1, q, prev);
    }
  }

  /** The scan goes through a top-level piece inside a longer text. */
  lemma {:induction false} PieceThrough(s: string, off: nat, p: string, i: nat, pos: nat, q: nat)
    requires Embedded(s, off, p) && NoTrailingSpace(p) && i <= |p| && TopLevel(p, i)
    requires pos == off + i && q == off + |p|
    ensures q <= |s| && Through(s, pos, q)
    decreases |p| - i
  {
    if i < |p| {
      GroupAtShift(s, off, p, i);
      match GroupAt(p, i)
      case Some(e) =>
        var npos := off + e;
        assert GroupAt(s, pos) == Some(npos);
        PieceThrough(s, off, p, e, npos, q);
      case None =>
        SeparatorAtShift(s, off, p, i);
        assert GroupAt(s, pos).None? && SeparatorAt(s, pos).None?;
        PieceThrough(s, off, p, i + 1, pos + 1, q);
    }
  }

  lemma SplitFromGroup(s: string, pos: nat, prev: nat, e: nat)
    requires prev <= pos < |s| && GroupAt(s, pos) == Some(e)
    ensures SplitFrom(s, pos, prev) == SplitFrom(s, e, prev)
  {
  }

  lemma SplitFromPlain(s: string, pos: nat, prev: nat)
    requires prev <= pos < |s| && GroupAt(s, pos).None? && SeparatorAt(s, pos).None?
    ensures SplitFrom(s, pos, prev) == SplitFrom(s, pos + 1, prev)
  {
  }

  /** A group that opens inside a piece and meets another brace there is
      found, or not found, alike in the piece and in the longer text. */
  lemma GroupAtShift(s: string, off: nat, p: string, i: nat)
    requires Embedded(s, off, p) && i < |p|
    requires p[i] == '{' ==> NextBrace(p, i + 1) < |p|
    ensures GroupAt(p, i).None? ==> GroupAt(s, off + i).None?
    ensures GroupAt(p, i).Some? ==> GroupAt(s, off + i) == Some(off + GroupAt(p, i).value)
  {
    EmbeddedAt(s, off, p, i);
    if p[i] == '{' {
      NextBraceShift(s, off, p, i + 1);
    }
  }

  lemma {:induction false} NextBraceShift(s: string, off: nat, p: string, i: nat)
    requires Embedded(s, off, p) && i <= |p| && NextBrace(p, i) < |p|
    ensures NextBrace(s, off + i) == off + NextBrace(p, i)
    decreases |p| - i
  {
    EmbeddedAt(s, off, p, i);
    if !IsBrace(p[i]) {
      NextBraceShift(s, off, p, i + 1);
    }
  }

  /** Inside a piece that does not end in whitespace, a separator is found
      in the longer text only where it is found in the piece. */
  lemma SeparatorAtShift(s: string, off: nat, p: string, i: nat)
    requires Embedded(s, off, p) && NoTrailingSpace(p) && i < |p|
    requires SeparatorAt(p, i).None?
    ensures SeparatorAt(s, off + i).None?
  {
    var j := SkipSpace(p, i);
    SkipSpaceInside(p, i);
    SkipSpaceShift(s, off, p, i);
    EmbeddedAt(s, off, p, j);
  }

  /** Skipping whitespace inside a text that does not end in whitespace
      stops before its end. */
  lemma {:induction false} SkipSpaceInside(p: string, i: nat)
    requires NoTrailingSpace(p) && i < |p|
    ensures SkipSpace(p, i) < |p|
    decreases |p| - i
  {
    if IsSpace(p[i]) && i + 1 < |p| {
      SkipSpaceInside(p, i + 1);
    }
  }

  lemma {:induction false} SkipSpaceShift(s: string, off: nat, p: string, i: nat)
    requires Embedded(s, off, p) && i <= |p| && SkipSpace(p, i) < |p|
    ensures SkipSpace(s, off + i) == off + SkipSpace(p, i)
    decreases |p| - i
  {
    EmbeddedAt(s, off, p, i);
    if IsSpace(p[i]) {
      SkipSpaceShift(s, off, p, i + 1);
    }
  }

  /** `sum([expand_curlys(t) for t in parts], [])`. */
  function ExpandAll(parts: seq<string>): seq<string> {
    if parts == [] then [] else ExpandCurlys(parts[0]) + ExpandAll(parts[1..])
  }

  /** `bash_expand(s)`. */
  function BashExpand(s: string): seq<string> {
    ExpandAll(SplitOutOfBraces(s))
  }

  /** `parse_envlist(s)`: the environment list is the bash expansion, with no
      deduplication. */
  function ParseEnvlist(s: string): seq<string> {
    BashExpand(s)
  }

  /** `ExpandAllMember` for every name at once. */
  lemma ExpandAllMembers(parts: seq<string>)
    ensures forall x :: x in ExpandAll(parts) <==> exists i :: 0 <= i < |parts| && x in ExpandCurlys(parts[i])
  {
    forall x {
      ExpandAllMember(parts, x);
    }
  }

  /** Parts without `{` expand to themselves. */
  lemma {:induction false} ExpandAllPlain(parts: seq<string>)
    requires forall i :: 0 <= i < |parts| ==> '{' !in parts[i]
    ensures ExpandAll(parts) == parts
  {
    if parts != [] {
      assert '{' !in parts[0][0..];
      NoOpenNoGroup(parts[0], 0);
      ExpandCurlysNoBrace(parts[0]);
      ExpandAllPlain(parts[1..]);
    }
  }

  /** A name is produced by `bash_expand` exactly when some top-level part
      expands to it. */
  lemma {:induction false} ExpandAllMember(parts: seq<string>, x: string)
    ensures x in ExpandAll(parts) <==> exists i :: 0 <= i < |parts| && x in ExpandCurlys(parts[i])
  {
    if parts != [] {
      ExpandAllMember(parts[1..], x);
      if x in ExpandAll(parts[1..]) {
        var i :| 0 <= i < |parts[1..]| && x in ExpandCurlys(parts[1..][i]);
        assert x in ExpandCurlys(parts[i + 1]);
      }
      if exists i :: 0 <= i < |parts| && x in ExpandCurlys(parts[i]) {
        var i :| 0 <= i < |parts| && x in ExpandCurlys(parts[i]);
        if i > 0 {
          assert parts[1..][i - 1] == parts[i];
        }
      }
    }
  }

  /** The length of `bash_expand(s)` is the sum of the parts' expansion counts. */
  lemma {:induction false} ExpandAllLength(parts: seq<string>)
    ensures |ExpandAll(parts)| == SumCounts(parts)
  {
    if parts != [] {
      ExpandAllLength(parts[1..]);
      ExpandCurlysLength(parts[0]);
    }
  }

  function SumCounts(parts: seq<string>): nat {
    if parts == [] then 0
    else Product(AlternativeCounts(parts[0], Spans(parts[0], 0))) + SumCounts(parts[1..])
  }
}
