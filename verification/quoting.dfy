/** Quote-aware splitting: `split_on` and `_strip_speechmarks`
    (ctox/subst.py). A token is a maximal run of units of the regular
    expression `(?:[^SEP"']|"[^"]*"|'[^']*')+`; each token then loses one
    outer pair of quotes. */
module Quoting {
  import opened Outcomes
  import opened Text

  predicate IsQuote(c: char) {
    c == '"' || c == '\''
  }

  /** `[^SEP"']`: neither the separator nor a quote. */
  predicate Plain(c: char, sep: char) {
    c != sep && !IsQuote(c)
  }

  /** One unit of the token language: a plain character, or a quote, a run
      without that quote, and the same quote again. */
  predicate IsUnit(u: string, sep: char) {
    || (|u| == 1 && Plain(u[0], sep))
    || (|u| >= 2 && IsQuote(u[0]) && u[|u| - 1] == u[0] && u[0] !in u[1..|u| - 1])
  }

  function Concat(parts: seq<string>): string {
    if parts == [] then "" else parts[0] + Concat(parts[1..])
  }

  /** `t` is in the language `(?:[^SEP"']|"[^"]*"|'[^']*')+`: a non-empty
      concatenation of units, so every separator and quote in it sits inside
      a closed quoted span. */
  ghost predicate IsToken(t: string, sep: char) {
    exists units: seq<string> {:trigger Concat(units)} ::
      |units| >= 1 && Concat(units) == t && forall k :: 0 <= k < |units| ==> IsUnit(units[k], sep)
  }

  /** The first `q` at or after `i`. */
  function Find(s: string, i: nat, q: char): (r: Option<nat>)
    requires i <= |s|
    ensures r.Some? ==> i <= r.value < |s| && s[r.value] == q
                        && forall j :: i <= j < r.value ==> s[j] != q
    decreases |s| - i
  {
    if i == |s| then None
    else if s[i] == q then Some(i)
    else Find(s, i + 1, q)
  }

  lemma QuotedUnit(s: string, k: nat, sep: char)
    requires 0 < k < |s| && IsQuote(s[0]) && s[k] == s[0]
    requires forall j :: 1 <= j < k ==> s[j] != s[0]
    ensures IsUnit(s[..k + 1], sep)
  {
    var u := s[..k + 1];
    assert u[0] == s[0] && u[|u| - 1] == s[k];
    var inner := u[1..|u| - 1];
    assert forall j :: 0 <= j < |inner| ==> inner[j] == s[1 + j];
  }

  /** The unit the token pattern matches at the start of `s`, as its length. */
  function UnitAt(s: string, sep: char): (r: Option<nat>)
    ensures r.Some? ==> 0 < r.value <= |s| && IsUnit(s[..r.value], sep)
  {
    if s == [] then None
    else if Plain(s[0], sep) then Some(1)
    else if IsQuote(s[0]) then
      match Find(s, 1, s[0])
      case Some(k) =>
        QuotedUnit(s, k, sep);
        Some(k + 1)
      case None => None
    else None
  }

  /** The greedy `(...)+` at the start of `s`: units matched one after
      another until none matches. */
  function UnitsFrom(s: string, sep: char): (r: seq<string>)
    ensures forall k :: 0 <= k < |r| ==> IsUnit(r[k], sep)
    ensures |Concat(r)| <= |s| && Concat(r) == s[..|Concat(r)|]
    ensures r == [] <==> UnitAt(s, sep).None?
    decreases |s|
  {
    match UnitAt(s, sep)
    case None => []
    case Some(e) =>
      var rest := UnitsFrom(s[e..], sep);
      UnitsStep(s, e, rest, sep);
      [s[..e]] + rest
  }

  /** A unit in front of the units matched after it. */
  lemma UnitsStep(s: string, e: nat, rest: seq<string>, sep: char)
    requires 0 < e <= |s| && IsUnit(s[..e], sep)
    requires forall k :: 0 <= k < |rest| ==> IsUnit(rest[k], sep)
    requires |Concat(rest)| <= |s[e..]| && Concat(rest) == s[e..][..|Concat(rest)|]
    ensures var r := [s[..e]] + rest;
            && (forall k :: 0 <= k < |r| ==> IsUnit(r[k], sep))
            && |Concat(r)| <= |s| && Concat(r) == s[..|Concat(r)|]
  {
    var r := [s[..e]] + rest;
    assert r[1..] == rest;
    assert Concat(r) == s[..e] + Concat(rest);
    assert s[..e] + s[e..][..|Concat(rest)|] == s[..e + |Concat(rest)|];
  }

  /** `re.split(pattern, s)[1::2]`: the matches of the token pattern, left to
      right; a character no match can start at (the separator, or a quote
      that is never closed) is skipped. */
  function RawTokens(s: string, sep: char): (r: seq<string>)
    ensures forall k :: 0 <= k < |r| ==> r[k] != [] && IsToken(r[k], sep)
    decreases |s|
  {
    if s == [] then []
    else
      var units := UnitsFrom(s, sep);
      var n := |Concat(units)|;
      if n == 0 then RawTokens(s[1..], sep)
      else
        var t := s[..n];
        assert IsToken(t, sep);
        var r := [t] + RawTokens(s[n..], sep);
        assert forall k :: 0 < k < |r| ==> r[k] == RawTokens(s[n..], sep)[k - 1];
        r
  }

  lemma {:induction false} FindFirst(s: string, i: nat, k: nat, q: char)
    requires i <= k < |s| && s[k] == q
    requires forall j :: i <= j < k ==> s[j] != q
    ensures Find(s, i, q) == Some(k)
    decreases k - i
  {
    if i < k {
      FindFirst(s, i + 1, k, q);
    }
  }

  /** A unit at the front of `s` is the one the pattern matches there. */
  lemma UnitAtOfUnit(u: string, rest: string, sep: char)
    requires IsUnit(u, sep)
    ensures UnitAt(u + rest, sep) == Some(|u|)
  {
    var s := u + rest;
    assert s[0] == u[0];
    if !Plain(u[0], sep) {
      var inner := u[1..|u| - 1];
      assert forall j :: 1 <= j < |u| - 1 ==> s[j] == inner[j - 1];
      FindFirst(s, 1, |u| - 1, u[0]);
    }
  }

  lemma {:induction false} ConcatCons(us: seq<string>)
    requires |us| >= 1
    ensures Concat(us) == us[0] + Concat(us[1..])
  {
  }

  /** Matching units greedily recovers any tiling of the input by units that
      is followed by something no unit starts with. */
  lemma {:induction false} UnitsFromTiles(us: seq<string>, rest: string, sep: char)
    requires forall k :: 0 <= k < |us| ==> IsUnit(us[k], sep)
    requires UnitAt(rest, sep).None?
    ensures UnitsFrom(Concat(us) + rest, sep) == us
  {
    if us != [] {
      var u := us[0];
      var tail := Concat(us[1..]) + rest;
      ConcatCons(us);
      assert Concat(us) + rest == u + tail;
      UnitsFromCons(u, tail, sep);
      UnitsFromTiles(us[1..], rest, sep);
      assert us == [u] + us[1..];
    } else {
      assert Concat(us) + rest == rest;
    }
  }

  /** A unit in front of a text is the first unit matched in it. */
  lemma UnitsFromCons(u: string, tail: string, sep: char)
    requires IsUnit(u, sep)
    ensures UnitsFrom(u + tail, sep) == [u] + UnitsFrom(tail, sep)
  {
    UnitAtOfUnit(u, tail, sep);
    UnitsFromUnfold(u + tail, |u|, sep);
    assert (u + tail)[..|u|] == u && (u + tail)[|u|..] == tail;
  }

  lemma UnitsFromUnfold(s: string, e: nat, sep: char)
    requires UnitAt(s, sep) == Some(e)
    ensures UnitsFrom(s, sep) == [s[..e]] + UnitsFrom(s[e..], sep)
  {
  }

  /** A token followed by the separator is the first raw token. */
  lemma {:induction false} RawTokensCons(us: seq<string>, sep: char, tail: string)
    requires |us| >= 1 && !IsQuote(sep)
    requires forall k :: 0 <= k < |us| ==> IsUnit(us[k], sep)
    ensures RawTokens(Concat(us) + [sep] + tail, sep) == [Concat(us)] + RawTokens(tail, sep)
  {
    var t := Concat(us);
    var after := [sep] + tail;
    var s := t + after;
    assert s == Concat(us) + [sep] + tail;
    UnitsFromTiles(us, after, sep);
    assert |t| > 0 by {
      assert |us[0]| > 0;
    }
    assert s[..|t|] == t && s[|t|..] == after;
    assert UnitsFrom(after, sep) == [];
    assert after[1..] == tail;
  }

  /** A whole input that is one token is its only raw token. */
  lemma RawTokensOne(us: seq<string>, sep: char)
    requires |us| >= 1
    requires forall k :: 0 <= k < |us| ==> IsUnit(us[k], sep)
    ensures RawTokens(Concat(us), sep) == [Concat(us)]
  {
    var t := Concat(us);
    UnitsFromTiles(us, "", sep);
    assert t + "" == t;
    assert |t| > 0 by {
      assert |us[0]| > 0;
    }
    assert t[|t|..] == [];
  }

  /** Joining tokens with the separator and scanning again gives the same
      tokens: the separators inside quoted spans are not split at. */
  lemma {:induction false} RawTokensJoin(tokens: seq<string>, sep: char)
    requires !IsQuote(sep)
    requires forall k :: 0 <= k < |tokens| ==> IsToken(tokens[k], sep)
    ensures RawTokens(Join(tokens, [sep]), sep) == tokens
  {
    if |tokens| == 0 {
    } else {
      assert IsToken(tokens[0], sep);
      var us :| |us| >= 1 && Concat(us) == tokens[0] && forall k :: 0 <= k < |us| ==> IsUnit(us[k], sep);
      if |tokens| == 1 {
        RawTokensOne(us, sep);
      } else {
        RawTokensCons(us, sep, Join(tokens[1..], [sep]));
        RawTokensJoin(tokens[1..], sep);
        assert tokens == [tokens[0]] + tokens[1..];
      }
    }
  }

  predicate StartsWith(t: string, m: string) {
    |m| <= |t| && t[..|m|] == m
  }

  predicate EndsWith(t: string, m: string) {
    |m| <= |t| && t[|t| - |m|..] == m
  }

  /** Python's `t[n:-n]`, empty when the two ends overlap. */
  function Middle(t: string, n: nat): string {
    if 2 * n <= |t| then t[n..|t| - n] else ""
  }

  /** The quote pairs `_strip_speechmarks` tries, triple quotes first. */
  const Speechmarks: seq<string> := ["'''", "\"\"\"", "'", "\""]

  /** `t.startswith(m) and t.endswith(m)`. */
  predicate Encloses(t: string, m: string) {
    StartsWith(t, m) && EndsWith(t, m)
  }

  /** `_strip_speechmarks(t)`: the token without the outer pair of the first
      of `'''`, `"""`, `'`, `"` that both opens and closes it, or unchanged
      when none does. */
  function StripSpeechmarks(t: string): (r: string)
    ensures forall i :: 0 <= i < |Speechmarks| && Encloses(t, Speechmarks[i])
                        && (forall j :: 0 <= j < i ==> !Encloses(t, Speechmarks[j]))
                        ==> r == Middle(t, |Speechmarks[i]|)
    ensures (forall i :: 0 <= i < |Speechmarks| ==> !Encloses(t, Speechmarks[i])) ==> r == t
  {
    if Encloses(t, "'''") then
      assert Encloses(t, Speechmarks[0]);
      Middle(t, 3)
    else if Encloses(t, "\"\"\"") then
      assert Encloses(t, Speechmarks[1]);
      Middle(t, 3)
    else if Encloses(t, "'") then
      assert Encloses(t, Speechmarks[2]);
      Middle(t, 1)
    else if Encloses(t, "\"") then
      assert Encloses(t, Speechmarks[3]);
      Middle(t, 1)
    else
      t
  }

  /** `split_on(s, sep)`. */
  function SplitOn(s: string, sep: char): (r: seq<string>)
  {
    Map(RawTokens(s, sep))
  }

  function Map(ts: seq<string>): (r: seq<string>)
    ensures |r| == |ts|
    ensures forall k :: 0 <= k < |ts| ==> r[k] == StripSpeechmarks(ts[k])
  {
    seq(|ts|, k requires 0 <= k < |ts| => StripSpeechmarks(ts[k]))
  }

  /** A token that does not open with a quote is kept as it is. */
  lemma StripUnquoted(t: string)
    requires t == [] || !IsQuote(t[0])
    ensures StripSpeechmarks(t) == t
  {
    if t != [] {
      assert !StartsWith(t, "'''") && !StartsWith(t, "\"\"\"");
      assert !StartsWith(t, "'") && !StartsWith(t, "\"");
    }
  }

  /** Triple quotes are tried first: a token opening and closing with three
      single quotes loses all three on each side, whatever lies between. */
  lemma StripTriple(x: string)
    ensures StripSpeechmarks("'''" + x + "'''") == x
  {
    var t := "'''" + x + "'''";
    assert t[..3] == "'''" && t[|t| - 3..] == "'''";
    assert t[3..|t| - 3] == x;
  }

  /** A quoted unit loses exactly its outer pair. */
  lemma StripQuoted(q: char, x: string)
    requires IsQuote(q) && q !in x
    ensures StripSpeechmarks([q] + x + [q]) == x
  {
    var t := [q] + x + [q];
    assert t[0] == q && t[|t| - 1] == q;
    assert |t| >= 3 ==> t[1] == x[0];
    NoTripleOpen(t);
    assert Encloses(t, [q]) by {
      assert t[..1] == [q] && t[|t| - 1..] == [q];
    }
    assert t[1..|t| - 1] == x;
  }

  /** A token whose second character differs from its first opens with no
      triple quote. */
  lemma NoTripleOpen(t: string)
    requires |t| >= 1 && (|t| >= 3 ==> t[1] != t[0])
    ensures !StartsWith(t, "'''") && !StartsWith(t, "\"\"\"")
  {
    if |t| >= 3 {
      assert t[..3][0] == t[0] && t[..3][1] == t[1];
    }
  }

  lemma TokenOfUnit(u: string, sep: char)
    requires IsUnit(u, sep)
    ensures IsToken(u, sep)
  {
    assert Concat([u]) == u;
  }

  lemma JoinThree(a: string, b: string, c: string, sep: char)
    ensures Join([a, b, c], [sep]) == a + [sep] + b + [sep] + c
  {
    assert [a, b, c][1..] == [b, c];
    assert [b, c][1..] == [c];
    assert Join([b, c], [sep]) == b + [sep] + c;
    assert Join([a, b, c], [sep]) == a + [sep] + (b + [sep] + c);
  }

  /** `split_on("a,b,'c,d'", ',')`: the comma inside the quotes is kept. */
  lemma SplitOnQuoted()
    ensures SplitOn("a,b,'c,d'", ',') == ["a", "b", "c,d"]
  {
    QuotedRawTokens();
    SplitOnOfTokens("a,b,'c,d'", ',', ["a", "b", "'c,d'"]);
    QuotedStrips();
  }

  lemma QuotedRawTokens()
    ensures RawTokens("a,b,'c,d'", ',') == ["a", "b", "'c,d'"]
  {
    var quoted := "'c,d'";
    TokenOfUnit("a", ',');
    TokenOfUnit("b", ',');
    assert quoted == ['\''] + "c,d" + ['\''];
    TokenOfUnit(quoted, ',');
    JoinThree("a", "b", quoted, ',');
    assert "a" + [','] + "b" + [','] + quoted == "a,b,'c,d'";
    RawTokensJoin(["a", "b", quoted], ',');
  }

  lemma QuotedStrips()
    ensures Map(["a", "b", "'c,d'"]) == ["a", "b", "c,d"]
  {
    var q := "'c,d'";
    StripQuoted('\'', "c,d");
    assert ['\''] + "c,d" + ['\''] == q;
    StripUnquoted("a");
    StripUnquoted("b");
    MapThree("a", "b", q, "a", "b", "c,d");
  }

  lemma MapThree(a: string, b: string, c: string, ra: string, rb: string, rc: string)
    requires StripSpeechmarks(a) == ra && StripSpeechmarks(b) == rb && StripSpeechmarks(c) == rc
    ensures Map([a, b, c]) == [ra, rb, rc]
  {
    MapPointwise([a, b, c], [ra, rb, rc]);
  }

  lemma MapPointwise(ts: seq<string>, rs: seq<string>)
    requires |ts| == |rs|
    requires forall k :: 0 <= k < |ts| ==> StripSpeechmarks(ts[k]) == rs[k]
    ensures Map(ts) == rs
  {
  }

  /** The triple-quoted variant: the last token is three units (an empty
      quoted pair, the quoted `c,d`, another empty pair) and the triple
      quotes are stripped. */
  lemma SplitOnTriple()
    ensures SplitOn("a,b,'''c,d'''", ',') == ["a", "b", "c,d"]
  {
    TripleRawTokens();
    SplitOnOfTokens("a,b,'''c,d'''", ',', ["a", "b", "'''c,d'''"]);
    TripleStrips();
  }

  lemma SplitOnOfTokens(s: string, sep: char, tokens: seq<string>)
    requires RawTokens(s, sep) == tokens
    ensures SplitOn(s, sep) == Map(tokens)
  {
  }

  lemma TripleStrips()
    ensures Map(["a", "b", "'''c,d'''"]) == ["a", "b", "c,d"]
  {
    var t := "'''c,d'''";
    StripTriple("c,d");
    assert "'''" + "c,d" + "'''" == t;
    StripUnquoted("a");
    StripUnquoted("b");
    MapThree("a", "b", t, "a", "b", "c,d");
  }

  lemma TripleRawTokens()
    ensures RawTokens("a,b,'''c,d'''", ',') == ["a", "b", "'''c,d'''"]
  {
    var triple := "'''c,d'''";
    TripleIsToken();
    TokenOfUnit("a", ',');
    TokenOfUnit("b", ',');
    JoinThree("a", "b", triple, ',');
    assert "a" + [','] + "b" + [','] + triple == "a,b,'''c,d'''";
    RawTokensJoin(["a", "b", triple], ',');
  }

  lemma TripleIsToken()
    ensures IsToken("'''c,d'''", ',')
  {
    var us := ["''", "'c,d'", "''"];
    assert IsUnit(us[0], ',') && IsUnit(us[1], ',') && IsUnit(us[2], ',');
    assert us[1..] == ["'c,d'", "''"] && us[1..][1..] == ["''"];
    assert Concat(us) == "'''c,d'''";
  }

  /** A string as one-character units. */
  function Chars(t: string): (r: seq<string>)
    ensures |r| == |t| && forall k :: 0 <= k < |t| ==> r[k] == [t[k]]
  {
    seq(|t|, k requires 0 <= k < |t| => [t[k]])
  }

  lemma {:induction false} ConcatChars(t: string)
    ensures Concat(Chars(t)) == t
  {
    if t != [] {
      assert Chars(t)[1..] == Chars(t[1..]);
      ConcatChars(t[1..]);
    }
  }

  /** A non-empty run of plain characters is a token. */
  lemma PlainToken(t: string, sep: char)
    requires t != [] && forall k :: 0 <= k < |t| ==> Plain(t[k], sep)
    ensures IsToken(t, sep)
  {
    ConcatChars(t);
    var us := Chars(t);
    assert forall k :: 0 <= k < |us| ==> IsUnit(us[k], sep);
  }

  /** Splitting the join of non-empty, quote-free, separator-free words on
      the separator gives the words back. */
  lemma SplitOnPlain(words: seq<string>, sep: char)
    requires !IsQuote(sep)
    requires forall i :: 0 <= i < |words| ==> words[i] != []
    requires forall i, k :: 0 <= i < |words| && 0 <= k < |words[i]| ==> Plain(words[i][k], sep)
    ensures SplitOn(Join(words, [sep]), sep) == words
  {
    forall i | 0 <= i < |words| ensures IsToken(words[i], sep) && StripSpeechmarks(words[i]) == words[i] {
      PlainToken(words[i], sep);
      StripUnquoted(words[i]);
    }
    RawTokensJoin(words, sep);
  }
}
