/** The examples of tests/test_subst.py and of the `replace_braces`
    docstring, stated against the model. Each is
    proved from the definitions in small steps: the scanners are walked one
    group at a time. */
module Vectors {
  import opened Outcomes
  import opened Text
  import opened Braces
  import opened Environments
  import opened Factors
  import opened Subst

  // ---------------------------------------------------------------------
  // expand_curlys("py{26, 27}") and the two-group envlist entry
  // ---------------------------------------------------------------------

  /** `a,b` (with optional spaces after the comma) splits into `a` and `b`. */
  lemma Pair(a: string, b: string, gap: string)
    requires ',' !in a && ',' !in b && NoSpace(a) && AllSpace(gap) && ',' !in gap
    requires b != [] && !IsSpace(b[0])
    ensures Alternatives(a + "," + gap + b) == [a, b]
  {
    assert a + "," + gap + b == a + [','] + (gap + b);
    SplitAroundOne(a, ',', gap + b);
    TrimRightWord(a);
    TrimLeftGap(gap, b);
  }

  /** The leftmost group is found past any run without `{`. */
  lemma {:induction false} NextSpanAt(s: string, pos: nat, i: nat, e: nat)
    requires pos <= i && IsGroup(s, i, e)
    requires forall j :: pos <= j < i ==> s[j] != '{'
    ensures NextSpan(s, pos) == Some(Span(i, e))
    decreases i - pos
  {
    GroupEndsAtNextBrace(s, i);
    if pos < i {
      NextSpanAt(s, pos + 1, i, e);
    }
  }

  lemma {:induction false} NextSpanNone(s: string, pos: nat)
    requires pos <= |s|
    requires forall j :: pos <= j < |s| ==> s[j] != '{'
    ensures NextSpan(s, pos) == None
    decreases |s| - pos
  {
    if pos < |s| {
      NextSpanNone(s, pos + 1);
    }
  }

  /** `{x}` is a group when `x` holds no brace. */
  lemma GroupOf(s: string, p: string, x: string, q: string)
    requires s == p + "{" + x + "}" + q && forall j :: 0 <= j < |x| ==> !IsBrace(x[j])
    ensures IsGroup(s, |p|, |p| + |x| + 2)
    ensures Content(s, Span(|p|, |p| + |x| + 2)) == x
  {
    assert forall j :: |p| < j < |p| + |x| + 1 ==> s[j] == x[j - |p| - 1];
  }

  /** From `from`, the next group is the `{x}` that follows `pre`, provided
      no `{` lies between. */
  lemma SpanAt(s: string, pre: string, x: string, post: string, from: nat, i: nat, e: nat)
    requires s == pre + "{" + x + "}" + post && forall j :: 0 <= j < |x| ==> !IsBrace(x[j])
    requires from <= |pre| && forall j :: from <= j < |pre| ==> pre[j] != '{'
    requires i == |pre| && e == |pre| + |x| + 2
    ensures e <= |s| && NextSpan(s, from) == Some(Span(i, e))
    ensures Content(s, Span(i, e)) == x && s[from..i] == pre[from..] && s[e..] == post
  {
    GroupOf(s, pre, x, post);
    assert forall j :: from <= j < |pre| ==> s[j] == pre[j];
    NextSpanAt(s, from, i, e);
  }

  /** Past the last group there is none. */
  lemma SpanNone(s: string, post: string, e: nat)
    requires e <= |s| && s[e..] == post && '{' !in post
    ensures NextSpan(s, e) == None
  {
    assert forall j :: e <= j < |s| ==> s[j] == post[j - e];
    NextSpanNone(s, e);
  }

  /** A string with one group expands to each alternative between the
      unchanged text around it. */
  lemma OneGroup(p: string, x: string, q: string)
    requires '{' !in p && '{' !in q && forall j :: 0 <= j < |x| ==> !IsBrace(x[j])
    ensures ExpandCurlys(p + "{" + x + "}" + q) == Cross(p, Alternatives(x), [q])
  {
    var s := p + "{" + x + "}" + q;
    var e := |p| + |x| + 2;
    SpanAt(s, p, x, q, 0, |p|, e);
    SpanNone(s, q, e);
    assert p[0..] == p;
    ExpandStep(s, 0, |p|, e);
    ExpandEnd(s, e);
    ExpandCurlysIsProduct(s);
  }

  lemma ExpandStep(s: string, pos: nat, i: nat, e: nat)
    requires pos <= |s| && NextSpan(s, pos) == Some(Span(i, e))
    ensures Expand(s, pos) == Cross(s[pos..i], Alternatives(Content(s, Span(i, e))), Expand(s, e))
  {
  }

  lemma ExpandEnd(s: string, pos: nat)
    requires pos <= |s| && NextSpan(s, pos) == None
    ensures Expand(s, pos) == [s[pos..]]
  {
  }

  /** The second group of `pm{y}q`, scanned from `e`, and what follows it. */
  lemma SecondGroup(s: string, pm: string, y: string, q: string, e: nat)
    requires s == pm + "{" + y + "}" + q && e <= |pm|
    requires '{' !in q && forall j :: 0 <= j < |y| ==> !IsBrace(y[j])
    requires forall j :: e <= j < |pm| ==> pm[j] != '{'
    ensures Expand(s, e) == Cross(pm[e..], Alternatives(y), [q])
  {
    var f := |pm| + |y| + 2;
    SpanAt(s, pm, y, q, e, |pm|, f);
    SpanNone(s, q, f);
    ExpandStep(s, e, |pm|, f);
    ExpandEnd(s, f);
  }

  /** A string with two groups: the first group's alternatives vary slowest. */
  lemma TwoGroups(p: string, x: string, m: string, y: string, q: string)
    requires '{' !in p && '{' !in m && '{' !in q
    requires forall j :: 0 <= j < |x| ==> !IsBrace(x[j])
    requires forall j :: 0 <= j < |y| ==> !IsBrace(y[j])
    ensures ExpandCurlys(p + "{" + x + "}" + m + "{" + y + "}" + q)
            == Cross(p, Alternatives(x), Cross(m, Alternatives(y), [q]))
  {
    var tail := m + "{" + y + "}" + q;
    var pm := p + "{" + x + "}" + m;
    var s := p + "{" + x + "}" + tail;
    var e := |p| + |x| + 2;
    TwoGroupsShape(s, p, x, m, y, q, tail, pm, e);
    SpanAt(s, p, x, tail, 0, |p|, e);
    assert p[0..] == p;
    SecondGroup(s, pm, y, q, e);
    ExpandStep(s, 0, |p|, e);
    ExpandCurlysIsProduct(s);
  }

  lemma TwoGroupsShape(s: string, p: string, x: string, m: string, y: string, q: string,
                       tail: string, pm: string, e: nat)
    requires tail == m + "{" + y + "}" + q && pm == p + "{" + x + "}" + m
    requires s == p + "{" + x + "}" + tail && e == |p| + |x| + 2 && '{' !in m
    ensures s == p + "{" + x + "}" + m + "{" + y + "}" + q
    ensures s == pm + "{" + y + "}" + q && e <= |pm| && pm[e..] == m
    ensures forall j :: e <= j < |pm| ==> pm[j] != '{'
  {
    assert forall j :: e <= j < |pm| ==> pm[j] == m[j - e];
  }

  lemma CrossTwo(p: string, a: string, b: string, rests: seq<string>)
    ensures Cross(p, [a, b], rests) == Prepend(p + a, rests) + Prepend(p + b, rests)
  {
    assert [a, b][1..] == [b];
    assert [a, b][1..][1..] == [];
  }

  lemma PrependOne(p: string, q: string)
    ensures Prepend(p, [q]) == [p + q]
  {
  }

  lemma PrependTwo(p: string, a: string, b: string)
    ensures Prepend(p, [a, b]) == [p + a, p + b]
  {
  }

  lemma Alternatives2627(x: string)
    requires x == "26, 27"
    ensures Alternatives(x) == ["26", "27"]
  {
    assert x == "26" + "," + " " + "27";
    Pair("26", "27", " ");
  }

  lemma Alternatives1516(x: string)
    requires x == "15, 16"
    ensures Alternatives(x) == ["15", "16"]
  {
    assert x == "15" + "," + " " + "16";
    Pair("15", "16", " ");
  }

  /** Two alternatives between a fixed prefix and suffix. */
  lemma CrossPair(p: string, alts: seq<string>, q: string, a: string, b: string)
    requires alts == [a, b]
    ensures Cross(p, alts, [q]) == [p + a + q, p + b + q]
  {
    CrossTwo(p, a, b, [q]);
    PrependOne(p + a, q);
    PrependOne(p + b, q);
  }

  lemma PyPair(p: string, alts: seq<string>, q: string)
    requires p == "py" && alts == ["26", "27"] && q == ""
    ensures Cross(p, alts, [q]) == ["py26", "py27"]
  {
    CrossPair(p, alts, q, "26", "27");
    assert p + "26" + q == "py26" && p + "27" + q == "py27";
  }

  /** `test_expand_curlys`. */
  lemma ExpandCurlysExample(s: string)
    requires s == "py{26, 27}"
    ensures ExpandCurlys(s) == ["py26", "py27"]
  {
    var p, x, q := "py", "26, 27", "";
    assert s == p + "{" + x + "}" + q;
    OneGroup(p, x, q);
    Alternatives2627(x);
    PyPair(p, Alternatives(x), q);
  }

  lemma DjangoTail(m: string, alts: seq<string>, q: string)
    requires m == "-django" && alts == ["15", "16"] && q == ""
    ensures Cross(m, alts, [q]) == ["-django15", "-django16"]
  {
    CrossPair(m, alts, q, "15", "16");
    assert m + "15" + q == "-django15" && m + "16" + q == "-django16";
  }

  lemma PyDjango(p: string, alts: seq<string>, t: seq<string>)
    requires p == "py" && alts == ["26", "27"] && t == ["-django15", "-django16"]
    ensures Cross(p, alts, t)
            == ["py26-django15", "py26-django16", "py27-django15", "py27-django16"]
  {
    CrossTwoByTwo(p, "26", "27", t[0], t[1]);
    assert t == [t[0], t[1]];
    assert p + "26" + t[0] == "py26-django15" && p + "26" + t[1] == "py26-django16";
    assert p + "27" + t[0] == "py27-django15" && p + "27" + t[1] == "py27-django16";
  }

  /** `test_expand_curlys_two`. */
  lemma ExpandCurlysTwoExample(s: string)
    requires s == "py{26, 27}-django{15, 16}"
    ensures ExpandCurlys(s) == ["py26-django15", "py26-django16", "py27-django15", "py27-django16"]
  {
    var p, x, m, y, q := "py", "26, 27", "-django", "15, 16", "";
    TwoGroupsShapeOf(s, p, x, m, y, q);
    TwoGroups(p, x, m, y, q);
    Alternatives1516(y);
    DjangoTail(m, Alternatives(y), q);
    Alternatives2627(x);
    PyDjango(p, Alternatives(x), Cross(m, Alternatives(y), [q]));
  }

  lemma TwoGroupsShapeOf(s: string, p: string, x: string, m: string, y: string, q: string)
    requires s == "py{26, 27}-django{15, 16}"
    requires p == "py" && x == "26, 27" && m == "-django" && y == "15, 16" && q == ""
    ensures s == p + "{" + x + "}" + m + "{" + y + "}" + q
    ensures '{' !in p && '{' !in m && '{' !in q
    ensures forall j :: 0 <= j < |x| ==> !IsBrace(x[j])
    ensures forall j :: 0 <= j < |y| ==> !IsBrace(y[j])
  {
    // assembled left to right, one piece at a time
    assert p + "{" == "py{";
    assert "py{" + x == "py{26, 27";
    assert "py{26, 27" + "}" == "py{26, 27}";
    assert "py{26, 27}" + m == "py{26, 27}-django";
    assert "py{26, 27}-django" + "{" == "py{26, 27}-django{";
    assert "py{26, 27}-django{" + y == "py{26, 27}-django{15, 16";
    assert "py{26, 27}-django{15, 16" + "}" == "py{26, 27}-django{15, 16}";
  }

  // ---------------------------------------------------------------------
  // parse_envlist("{py26,py27}-django{15,16}, py32")
  // ---------------------------------------------------------------------

  lemma GroupAtOf(s: string, i: nat, e: nat)
    requires IsGroup(s, i, e)
    ensures GroupAt(s, i) == Some(e)
  {
    GroupEndsAtNextBrace(s, i);
  }

  /** A group is skipped whole while splitting. */
  lemma SplitFromGroup(s: string, pos: nat, prev: nat, e: nat)
    requires prev <= pos < |s| && IsGroup(s, pos, e)
    ensures SplitFrom(s, pos, prev) == SplitFrom(s, e, prev)
  {
    GroupAtOf(s, pos, e);
  }

  /** Characters that are neither `{`, `,` nor whitespace are passed over. */
  lemma {:induction false} SplitFromPlain(s: string, pos: nat, k: nat, prev: nat)
    requires prev <= pos <= k <= |s|
    requires forall j :: pos <= j < k ==> s[j] != '{' && s[j] != ',' && !IsSpace(s[j])
    ensures SplitFrom(s, pos, prev) == SplitFrom(s, k, prev)
    decreases k - pos
  {
    if pos < k {
      assert GroupAt(s, pos) == None;
      assert SkipSpace(s, pos) == pos;
      SplitFromPlain(s, pos + 1, k, prev);
    }
  }

  /** A separator ends the current part. */
  lemma SplitFromSeparator(s: string, pos: nat, prev: nat, e: nat)
    requires prev <= pos < |s| && s[pos] == ',' && SkipSpace(s, pos + 1) == e
    ensures SplitFrom(s, pos, prev) == NonEmpty(s[prev..pos]) + SplitFrom(s, e, e)
  {
    assert SkipSpace(s, pos) == pos;
  }

  /** `a,b` inside a group without spaces. */
  lemma AlternativesPy(x: string)
    requires x == "py26,py27"
    ensures Alternatives(x) == ["py26", "py27"]
  {
    assert x == "py26" + "," + "" + "py27";
    Pair("py26", "py27", "");
  }

  lemma Alternatives1516Tight(y: string)
    requires y == "15,16"
    ensures Alternatives(y) == ["15", "16"]
  {
    assert y == "15" + "," + "" + "16";
    Pair("15", "16", "");
  }

  /** Two alternatives over two rests, the alternatives varying slowest. */
  lemma CrossTwoByTwo(p: string, a: string, b: string, c: string, d: string)
    ensures Cross(p, [a, b], [c, d]) == [p + a + c, p + a + d, p + b + c, p + b + d]
  {
    CrossTwo(p, a, b, [c, d]);
    PrependTwo(p + a, c, d);
    PrependTwo(p + b, c, d);
  }

  lemma PyDjangoTight(p: string, alts: seq<string>, t: seq<string>)
    requires p == "" && alts == ["py26", "py27"] && t == ["-django15", "-django16"]
    ensures Cross(p, alts, t)
            == ["py26-django15", "py26-django16", "py27-django15", "py27-django16"]
  {
    CrossTwoByTwo(p, "py26", "py27", t[0], t[1]);
    assert t == [t[0], t[1]];
    assert p + "py26" + t[0] == "py26-django15";
    assert p + "py26" + t[1] == "py26-django16";
    assert p + "py27" + t[0] == "py27-django15";
    assert p + "py27" + t[1] == "py27-django16";
  }

  /** The first entry of the envlist expands to four environments. */
  lemma DjangoEntry(d: string)
    requires d == "{py26,py27}-django{15,16}"
    ensures ExpandCurlys(d) == ["py26-django15", "py26-django16", "py27-django15", "py27-django16"]
  {
    var p, x, m, y, q := "", "py26,py27", "-django", "15,16", "";
    DjangoShapeOf(d, p, x, m, y, q);
    TwoGroups(p, x, m, y, q);
    Alternatives1516Tight(y);
    DjangoTail(m, Alternatives(y), q);
    AlternativesPy(x);
    PyDjangoTight(p, Alternatives(x), Cross(m, Alternatives(y), [q]));
  }

  lemma DjangoShapeOf(d: string, p: string, x: string, m: string, y: string, q: string)
    requires d == "{py26,py27}-django{15,16}"
    requires p == "" && x == "py26,py27" && m == "-django" && y == "15,16" && q == ""
    ensures d == p + "{" + x + "}" + m + "{" + y + "}" + q
    ensures '{' !in p && '{' !in m && '{' !in q
    ensures forall j :: 0 <= j < |x| ==> !IsBrace(x[j])
    ensures forall j :: 0 <= j < |y| ==> !IsBrace(y[j])
  {
    // assembled left to right, one piece at a time
    assert p + "{" == "{";
    assert "{" + x == "{py26,py27";
    assert "{py26,py27" + "}" == "{py26,py27}";
    assert "{py26,py27}" + m == "{py26,py27}-django";
    assert "{py26,py27}-django" + "{" == "{py26,py27}-django{";
    assert "{py26,py27}-django{" + y == "{py26,py27}-django{15,16";
    assert "{py26,py27}-django{15,16" + "}" == "{py26,py27}-django{15,16}";
  }

  lemma SplitOverGroup(s: string, p: string, x: string, rest: string, i: nat, e: nat)
    requires s == p + "{" + x + "}" + rest
    requires forall j :: 0 <= j < |x| ==> !IsBrace(x[j])
    requires i == |p| && e == |p| + |x| + 2
    ensures e <= |s| && SplitFrom(s, i, 0) == SplitFrom(s, e, 0)
  {
    GroupOf(s, p, x, rest);
    SplitFromGroup(s, i, 0, e);
  }

  lemma SplitOverPlain(s: string, p: string, m: string, rest: string, i: nat, k: nat)
    requires s == p + m + rest
    requires forall j :: 0 <= j < |m| ==> m[j] != '{' && m[j] != ',' && !IsSpace(m[j])
    requires i == |p| && k == |p| + |m|
    ensures k <= |s| && SplitFrom(s, i, 0) == SplitFrom(s, k, 0)
  {
    assert forall j :: i <= j < k ==> s[j] == m[j - i];
    SplitFromPlain(s, i, k, 0);
  }

  /** The scan passes over the first entry: two groups and the text
      between them. */
  lemma EnvlistHead(s: string)
    requires s == "{py26,py27}-django{15,16}, py32"
    ensures SplitFrom(s, 0, 0) == SplitFrom(s, 25, 0)
  {
    EnvlistFirstGroup(s);
    EnvlistMiddle(s);
    EnvlistSecondGroup(s);
  }

  lemma EnvlistFirstGroup(s: string)
    requires s == "{py26,py27}-django{15,16}, py32"
    ensures SplitFrom(s, 0, 0) == SplitFrom(s, 11, 0)
  {
    var x, rest := "py26,py27", "-django{15,16}, py32";
    FirstGroupShape(s, x, rest);
    BraceFree(x);
    SplitOverGroup(s, "", x, rest, 0, 11);
  }

  lemma BraceFree(x: string)
    requires x == "py26,py27"
    ensures forall j :: 0 <= j < |x| ==> !IsBrace(x[j])
  {
  }

  lemma FirstGroupShape(s: string, x: string, rest: string)
    requires s == "{py26,py27}-django{15,16}, py32"
    requires x == "py26,py27" && rest == "-django{15,16}, py32"
    ensures s == "" + "{" + x + "}" + rest && |x| + 2 == 11
  {
    assert "" + "{" + x == "{py26,py27";
    assert "{py26,py27" + "}" == "{py26,py27}";
    assert "{py26,py27}" + rest == s;
  }

  lemma EnvlistMiddle(s: string)
    requires s == "{py26,py27}-django{15,16}, py32"
    ensures SplitFrom(s, 11, 0) == SplitFrom(s, 18, 0)
  {
    var p, m, rest := "{py26,py27}", "-django", "{15,16}, py32";
    assert s == p + m + rest;
    SplitOverPlain(s, p, m, rest, 11, 18);
  }

  lemma EnvlistSecondGroup(s: string)
    requires s == "{py26,py27}-django{15,16}, py32"
    ensures SplitFrom(s, 18, 0) == SplitFrom(s, 25, 0)
  {
    var p, y, rest := "{py26,py27}-django", "15,16", ", py32";
    assert s == p + "{" + y + "}" + rest;
    SplitOverGroup(s, p, y, rest, 18, 25);
  }

  /** A comma and a space end the first entry; a plain word runs to the end. */
  lemma LastEntry(s: string, head: string, w: string, i: nat)
    requires s == head + ", " + w && i == |head| && head != ""
    requires w != [] && forall j :: 0 <= j < |w| ==> w[j] != '{' && w[j] != ',' && !IsSpace(w[j])
    ensures SplitFrom(s, i, 0) == [head, w]
  {
    LastEntryShape(s, head, w, i);
    SkipOneSpace(s, i + 1);
    SplitFromSeparator(s, i, 0, i + 2);
    SplitFromPlain(s, i + 2, |s|, i + 2);
  }

  lemma LastEntryShape(s: string, head: string, w: string, i: nat)
    requires s == head + ", " + w && i == |head| && w != []
    ensures i + 2 < |s| && s[i] == ',' && s[i + 1] == ' ' && s[i + 2] == w[0]
    ensures s[0..i] == head && s[i + 2..] == w
    ensures forall j :: i + 2 <= j < |s| ==> s[j] == w[j - i - 2]
  {
  }

  /** One space before a non-space character is skipped. */
  lemma SkipOneSpace(s: string, k: nat)
    requires k + 1 < |s| && s[k] == ' ' && !IsSpace(s[k + 1])
    ensures SkipSpace(s, k) == k + 1
  {
    assert SkipSpace(s, k + 1) == k + 1;
  }

  /** The envlist splits into its two top-level entries. */
  lemma EnvlistParts(s: string)
    requires s == "{py26,py27}-django{15,16}, py32"
    ensures SplitOutOfBraces(s) == ["{py26,py27}-django{15,16}", "py32"]
  {
    var head, w := "{py26,py27}-django{15,16}", "py32";
    TailShape(s, head, w);
    EnvlistHead(s);
    LastEntry(s, head, w, 25);
  }

  lemma TailShape(s: string, head: string, w: string)
    requires s == "{py26,py27}-django{15,16}, py32"
    requires head == "{py26,py27}-django{15,16}" && w == "py32"
    ensures s == head + ", " + w && |head| == 25 && head != "" && w != []
    ensures forall j :: 0 <= j < |w| ==> w[j] != '{' && w[j] != ',' && !IsSpace(w[j])
  {
    assert head + ", " == "{py26,py27}-django{15,16}, ";
  }

  lemma ExpandAllTwo(a: string, b: string)
    ensures ExpandAll([a, b]) == ExpandCurlys(a) + ExpandCurlys(b)
  {
    assert [a, b][1..] == [b];
    assert [b][1..] == [];
    assert ExpandAll([b]) == ExpandCurlys(b) + ExpandAll([]);
  }

  lemma Py32(t: string)
    requires t == "py32"
    ensures ExpandCurlys(t) == ["py32"]
  {
    NoOpenNoGroup(t, 0);
    ExpandCurlysNoBrace(t);
  }

  /** `test_parse_envlist`: each entry is expanded in turn, the entries'
      expansions concatenated in order. */
  lemma ParseEnvlistExample(s: string)
    requires s == "{py26,py27}-django{15,16}, py32"
    ensures ParseEnvlist(s) == ["py26-django15", "py26-django16", "py27-django15", "py27-django16", "py32"]
  {
    var parts := SplitOutOfBraces(s);
    EnvlistParts(s);
    assert parts == [parts[0], parts[1]];
    ExpandAllTwo(parts[0], parts[1]);
    DjangoEntry(parts[0]);
    Py32(parts[1]);
  }

  // ---------------------------------------------------------------------
  // replace_braces
  // ---------------------------------------------------------------------

  /** A placeholder that resolves to brace-free text, or fails. */
  lemma ResolvesTo(x: string, r: Result<string>, env: Env, host: Host)
    requires '{' !in x && '}' !in x && ReplaceMatch(x, env, host) == r
    requires r.Ok? ==> '{' !in r.value
    ensures ReplaceBraces("{" + x + "}", env, host) == r
  {
    ReplaceBracesOnce(x, env, host);
  }

  /** `test_replace_braces_attr`: an attribute of the environment is
      returned as it is. */
  lemma AttrToxdir(x: string, env: Env, host: Host)
    requires x == "toxdir" && "toxdir" in env.attrs && env.attrs["toxdir"] == "foo"
    ensures ReplaceMatch(x, env, host) == Ok("foo")
  {
    StripClean(x);
  }

  /** `test_replace_braces_envvar_missing`: `{env:NOTAENVKEY}` with the
      variable unset raises `KeyError`. */
  lemma EnvvarMissing(x: string, env: Env, host: Host)
    requires x == "env:NOTAENVKEY" && "NOTAENVKEY" !in host.environ && x !in env.attrs
    ensures ReplaceMatch(x, env, host) == Err(KeyError("NOTAENVKEY"))
  {
    var key := "NOTAENVKEY";
    assert x == "env:" + key;
    ResolveEnvMissing(key, env, host);
  }

  /** `test_replace_braces_envvar_missing_default`: `{env:NOTAENVKEY:}` with
      the variable unset is the empty default. */
  lemma EnvvarMissingDefault(x: string, env: Env, host: Host)
    requires x == "env:NOTAENVKEY:" && "NOTAENVKEY" !in host.environ && x !in env.attrs
    ensures ReplaceMatch(x, env, host) == Ok("")
  {
    var key, default := "NOTAENVKEY", "";
    assert x == "env:" + key + ":" + default;
    ResolveEnvDefault(key, default, env, host);
  }

  /** `test_replace_braces_envvar`: `{env:USER:}` is `os.environ.get("USER", "")`. */
  lemma EnvvarUser(x: string, env: Env, host: Host)
    requires x == "env:USER:" && x !in env.attrs
    ensures ReplaceMatch(x, env, host) == Ok(if "USER" in host.environ then host.environ["USER"] else "")
  {
    var key, default := "USER", "";
    assert x == "env:" + key + ":" + default;
    ResolveEnvDefault(key, default, env, host);
  }

  /** `test_replace_braces_posargs`: given positional arguments replace the
      default. */
  lemma PosargsGivenArgs(default: string, env: Env, host: Host)
    requires default == "no posargs passed" && "posargs:" + default !in env.attrs
    requires host.positionalArgs(env.options) == ["arg1", "arg2"]
    ensures ReplaceMatch("posargs:" + default, env, host) == Ok("arg1 arg2")
  {
    assert default[|default| - 1] == 'd' && ':' !in default;
    ArgsReplaceDefault("posargs:" + default, default, "arg1", "arg2", env, host);
    ArgsText("arg1", "arg2");
  }

  lemma ArgsText(a: string, b: string)
    requires a == "arg1" && b == "arg2"
    ensures a + " " + b == "arg1 arg2"
  {
  }

  /** Two positional arguments replace any default. */
  lemma ArgsReplaceDefault(x: string, default: string, a: string, b: string, env: Env, host: Host)
    requires x == "posargs:" + default && x !in env.attrs && ':' !in default && NoTrailingSpace(default)
    requires host.positionalArgs(env.options) == [a, b]
    ensures ReplaceMatch(x, env, host) == Ok(a + " " + b)
  {
    JoinTwoWords(host.positionalArgs(env.options), a, b);
    ResolvePosargsGiven(default, env, host);
  }

  lemma JoinTwoWords(args: seq<string>, a: string, b: string)
    requires args == [a, b]
    ensures Join(args, " ") == a + " " + b
  {
    assert args[1..] == [b];
  }

  /** `test_replace_braces_no_posargs`: with no positional arguments the
      default is the value. */
  lemma PosargsNoArgs(default: string, env: Env, host: Host)
    requires default == "no posargs passed" && "posargs:" + default !in env.attrs
    requires host.positionalArgs(env.options) == []
    ensures ReplaceMatch("posargs:" + default, env, host) == Ok("no posargs passed")
  {
    assert default[0] == 'n' && default[|default| - 1] == 'd';
    assert ':' !in default;
    DefaultKept("posargs:" + default, default, env, host);
  }

  /** With no positional arguments, a default that starts and ends with a
      non-blank character is the resolved value as written. */
  lemma DefaultKept(x: string, default: string, env: Env, host: Host)
    requires x == "posargs:" + default && x !in env.attrs
    requires ':' !in default && default != [] && !IsSpace(default[0]) && !IsSpace(default[|default| - 1])
    requires host.positionalArgs(env.options) == []
    ensures ReplaceMatch(x, env, host) == Ok(default)
  {
    assert Join(host.positionalArgs(env.options), " ") == "";
    ResolvePosargsDefault(default, env, host);
    KeepsLeadingWord(default);
  }

  lemma KeepsLeadingWord(d: string)
    requires d != [] && !IsSpace(d[0])
    ensures TrimLeft(d) == d
  {
  }

  /** The `replace_braces` docstring: in `echo {posargs:{env:USER:} passed
      no posargs}` with no positional arguments the inner placeholder is
      resolved by the first pass, the outer one, now `{posargs:andy passed
      no posargs}`, by the second; the text is then stable. Stated for any
      leading text, variable, value and trailing text of the same shape. */
  lemma NestedPosargsDefault(pre: string, key: string, user: string, text: string, env: Env, host: Host)
    requires '{' !in pre && '}' !in pre && '{' !in text && '}' !in text && ':' !in text
    requires '{' !in key && '}' !in key && ':' !in key
    requires '{' !in user && '}' !in user && ':' !in user
    requires key in host.environ && host.environ[key] == user
    requires user != [] && !IsSpace(user[0]) && text != [] && !IsSpace(text[|text| - 1])
    requires "env:" + key + ":" !in env.attrs && "posargs:" + user + text !in env.attrs
    requires host.positionalArgs(env.options) == []
    ensures ReplaceBraces(pre + "{posargs:{env:" + key + ":}" + text + "}", env, host)
            == Ok(pre + user + text)
  {
    var s := pre + "{posargs:{env:" + key + ":}" + text + "}";
    var x := "env:" + key + ":";
    var p := pre + "{posargs:";
    var q := text + "}";
    InnerShape(s, pre, key, text, p, x, q);
    var d := user + text;
    var y := "posargs:" + d;
    var t := p + user + q;
    OuterShape(t, pre, user, text, p, q, y, d);
    var u := pre + user + text;
    UserValue(x, key, user, env, host);
    PostedDefault(y, d, env, host);
    NestedPasses(s, t, u, pre, p, x, q, y, user, d, env, host);
  }

  lemma InnerShape(s: string, pre: string, key: string, text: string, p: string, x: string, q: string)
    requires s == pre + "{posargs:{env:" + key + ":}" + text + "}"
    requires x == "env:" + key + ":" && p == pre + "{posargs:" && q == text + "}"
    requires '{' !in pre && '}' !in pre && '{' !in text && '{' !in key && '}' !in key
    ensures s == p + "{" + x + "}" + q
    ensures '}' !in p && '{' !in x && '}' !in x && '{' !in q
  {
  }

  lemma OuterShape(t: string, pre: string, user: string, text: string, p: string, q: string, y: string, d: string)
    requires p == pre + "{posargs:" && q == text + "}" && t == p + user + q
    requires d == user + text && y == "posargs:" + d
    requires '{' !in user && '}' !in user && '{' !in text && '}' !in text
    requires ':' !in user && ':' !in text
    requires user != [] && !IsSpace(user[0]) && text != [] && !IsSpace(text[|text| - 1])
    ensures t == pre + "{" + y + "}" + ""
    ensures y == "posargs:" + user + text && ':' !in d
    ensures d != [] && !IsSpace(d[0]) && !IsSpace(d[|d| - 1])
    ensures '{' !in y && '}' !in y && '{' !in d
    ensures pre + d + "" == pre + user + text
  {
  }

  /** `{env:KEY:}` for a set variable is its value. */
  lemma UserValue(x: string, key: string, user: string, env: Env, host: Host)
    requires x == "env:" + key + ":" && ':' !in key
    requires key in host.environ && host.environ[key] == user
    requires x !in env.attrs
    ensures ReplaceMatch(x, env, host) == Ok(user)
  {
    assert x == "env:" + key + ":" + "";
    ResolveEnvDefault(key, "", env, host);
  }

  lemma PostedDefault(y: string, d: string, env: Env, host: Host)
    requires y == "posargs:" + d && ':' !in d && y !in env.attrs
    requires d != [] && !IsSpace(d[0]) && !IsSpace(d[|d| - 1])
    requires host.positionalArgs(env.options) == []
    ensures ReplaceMatch(y, env, host) == Ok(d)
  {
    DefaultKept(y, d, env, host);
  }

  /** The three passes: inner span, outer span, nothing left. */
  lemma NestedPasses(s: string, t: string, u: string, pre: string, p: string, x: string, q: string,
                     y: string, user: string, d: string, env: Env, host: Host)
    requires s == p + "{" + x + "}" + q && t == p + user + q && t == pre + "{" + y + "}" + ""
    requires u == pre + d + ""
    requires '}' !in p && '{' !in x && '}' !in x && '{' !in q
    requires '}' !in pre && '{' !in y && '}' !in y && '{' !in pre && '{' !in d
    requires ReplaceMatch(x, env, host) == Ok(user) && ReplaceMatch(y, env, host) == Ok(d)
    ensures ReplaceBraces(s, env, host) == Ok(u)
  {
    assert p + user + q == t;
    PassOneGroup(s, p, x, q, env, host);
    PassOneGroup(t, pre, y, "", env, host);
    PassesStep(s, t, Depth, env, host);
    PassesStep(t, u, Depth - 1, env, host);
    assert u[0..] == u;
    NoOpenNoGroup(u, 0);
    PassNoGroup(u, env, host);
    PassesFixpoint(u, Depth - 2, env, host);
  }

  // ---------------------------------------------------------------------
  // Factor conditions
  // ---------------------------------------------------------------------

  /** A factor expression that is one brace group between plain words is a
      single top-level part. */
  lemma OneEntry(s: string, p: string, x: string, q: string)
    requires s == p + "{" + x + "}" + q
    requires forall j :: 0 <= j < |p| ==> p[j] != '{' && p[j] != ',' && !IsSpace(p[j])
    requires forall j :: 0 <= j < |q| ==> q[j] != '{' && q[j] != ',' && !IsSpace(q[j])
    requires forall j :: 0 <= j < |x| ==> !IsBrace(x[j])
    ensures SplitOutOfBraces(s) == [s]
  {
    var g := "{" + x + "}";
    var e := |p| + |x| + 2;
    OneEntryShape(s, p, x, q, g, e);
    SplitOverPlain(s, "", p, g + q, 0, |p|);
    SplitOverGroup(s, p, x, q, |p|, e);
    SplitOverPlain(s, p + g, q, "", e, |s|);
  }

  lemma OneEntryShape(s: string, p: string, x: string, q: string, g: string, e: nat)
    requires s == p + "{" + x + "}" + q && g == "{" + x + "}" && e == |p| + |x| + 2
    ensures s == "" + p + (g + q) && s == (p + g) + q + ""
    ensures e == |"" + p| + 0 + |x| + 2 - 0 && e == |p + g| && |s| == |p + g| + |q|
    ensures s[0..] == s
  {
  }

  lemma ExpandAllOne(s: string)
    ensures ExpandAll([s]) == ExpandCurlys(s)
  {
    var one: seq<string> := [s];
    var none: seq<string> := [];
    assert one[1..] == none;
    assert ExpandAll(one) == ExpandCurlys(s) + ExpandAll(none);
  }

  /** Such a factor expression expands like `expand_curlys`. */
  lemma BashExpandOneEntry(p: string, x: string, q: string)
    requires forall j :: 0 <= j < |p| ==> p[j] != '{' && p[j] != ',' && !IsSpace(p[j])
    requires forall j :: 0 <= j < |q| ==> q[j] != '{' && q[j] != ',' && !IsSpace(q[j])
    requires forall j :: 0 <= j < |x| ==> !IsBrace(x[j])
    ensures BashExpand(p + "{" + x + "}" + q) == Cross(p, Alternatives(x), [q])
  {
    var s := p + "{" + x + "}" + q;
    OneEntry(s, p, x, q);
    ExpandAllOne(s);
    OneGroup(p, x, q);
  }

  lemma Alternatives3334(x: string)
    requires x == "33, 34"
    ensures Alternatives(x) == ["33", "34"]
  {
    assert x == "33" + "," + " " + "34";
    Pair("33", "34", " ");
  }

  lemma Alternatives3334Tight(x: string)
    requires x == "33,34"
    ensures Alternatives(x) == ["33", "34"]
  {
    assert x == "33" + "," + "" + "34";
    Pair("33", "34", "");
  }

  lemma PyLabels(p: string, alts: seq<string>, q: string)
    requires p == "py" && alts == ["33", "34"] && q == ""
    ensures Cross(p, alts, [q]) == ["py33", "py34"]
  {
    CrossTwo(p, "33", "34", [q]);
    PrependOne(p + "33", q);
    PrependOne(p + "34", q);
    assert p + "33" + q == "py33" && p + "34" + q == "py34";
  }

  /** `py{33, 34}` expands to the labels `py33` and `py34`. */
  lemma FactorLabels(s: string)
    requires s == "py{33, 34}"
    ensures BashExpand(s) == ["py33", "py34"]
  {
    var p, x, q := "py", "33, 34", "";
    assert s == p + "{" + x + "}" + q;
    BashExpandOneEntry(p, x, q);
    Alternatives3334(x);
    PyLabels(p, Alternatives(x), q);
  }

  lemma FactorLabelsTight(s: string)
    requires s == "py{33,34}"
    ensures BashExpand(s) == ["py33", "py34"]
  {
    var p, x, q := "py", "33,34", "";
    assert s == p + "{" + x + "}" + q;
    BashExpandOneEntry(p, x, q);
    Alternatives3334Tight(x);
    PyLabels(p, Alternatives(x), q);
  }

  /** An environment name without a dash is its own single label. */
  lemma SingleLabel(name: string)
    requires '-' !in name
    ensures EnvLabels(name) == [name]
  {
    SplitNoSeparator(name, '-');
  }

  /** For a dash-free environment name, the condition holds exactly when the
      name is one of the expanded labels. */
  lemma MatchesSingleLabel(s: string, env: Env, labels: seq<string>)
    requires BashExpand(s) == labels && '-' !in env.name
    ensures MatchesFactorConditions(s, env) <==> env.name in labels
  {
    SingleLabel(env.name);
  }

  /** `py26` is not one of the labels; the test's other name is. */
  lemma PyName(name: string, labels: seq<string>, chosen: string)
    requires labels == ["py33", "py34"] && chosen in labels
    requires name == chosen || name == "py26"
    ensures '-' !in name && (name in labels <==> name == chosen)
  {
    assert "py26"[2] != "py33"[2] && "py26"[2] != "py34"[2];
    assert '-' !in chosen;
  }

  /** `test_matches_factor_conditions_match` and `_mismatch`: `py{33, 34}`
      holds for `py34` and not for `py26`. */
  lemma MatchesFactorExample(s: string, env: Env)
    requires s == "py{33, 34}" && (env.name == "py34" || env.name == "py26")
    ensures MatchesFactorConditions(s, env) <==> env.name == "py34"
  {
    var labels := ["py33", "py34"];
    FactorLabels(s);
    PyName(env.name, labels, "py34");
    MatchesSingleLabel(s, env, labels);
  }

  /** The line `FACTOR: VALUE` with a dash-free name: the value when the
      name is one of the factor's labels, else "". */
  lemma FactorLine(s: string, factor: string, value: string, env: Env, labels: seq<string>)
    requires s == factor + ": " + value && ':' !in factor && ':' !in value
    requires NoTrailingSpace(factor) && (value == [] || !IsSpace(value[0]))
    requires BashExpand(factor) == labels && '-' !in env.name
    ensures ExpandFactorConditions(s, env) == if env.name in labels then value else ""
  {
    FactorLineKept(s, factor, value, env);
    MatchesSingleLabel(factor, env, labels);
  }

  /** The line `FACTOR: VALUE` keeps VALUE exactly when FACTOR matches. */
  lemma FactorLineKept(s: string, factor: string, value: string, env: Env)
    requires s == factor + ": " + value && ':' !in factor && ':' !in value
    requires NoTrailingSpace(factor) && (value == [] || !IsSpace(value[0]))
    ensures ExpandFactorConditions(s, env) == if MatchesFactorConditions(factor, env) then value else ""
  {
    var t := " " + value;
    assert s == factor + ":" + t;
    assert ':' !in t;
    ExpandFactorConditionsLine(factor, t, env);
    TrimRightWord(factor);
    TrimLeftGap(" ", value);
  }

  lemma DocformatterLine(s: string, factor: string, value: string)
    requires s == "py{33,34}: docformatter" && factor == "py{33,34}" && value == "docformatter"
    ensures s == factor + ": " + value && ':' !in factor && ':' !in value
    ensures NoTrailingSpace(factor) && value != [] && !IsSpace(value[0])
  {
    assert factor[|factor| - 1] == '}' && value[0] == 'd';
  }

  /** `test_expand_factor_conditions_match` and `_mismatch`: the line
      `py{33,34}: docformatter` keeps `docformatter` for `py33` and is erased
      for `py26`. */
  lemma ExpandFactorExample(s: string, env: Env)
    requires s == "py{33,34}: docformatter" && (env.name == "py33" || env.name == "py26")
    ensures ExpandFactorConditions(s, env) == if env.name == "py33" then "docformatter" else ""
  {
    var factor, value := "py{33,34}", "docformatter";
    var labels := ["py33", "py34"];
    DocformatterLine(s, factor, value);
    FactorLabelsTight(factor);
    PyName(env.name, labels, "py33");
    FactorLine(s, factor, value, env, labels);
  }
}
