/** Template substitution: `replace_braces`, `_replace_match` and the three
    providers `_replace_envvar`, `_replace_config` and `_replace_posargs`
    (ctox/subst.py).

    A provider either does not recognise the trimmed contents of a span
    (the source raises `ValueError` and the next provider is tried), or
    recognises them and fails (a `KeyError` or a ConfigParser error, which
    escapes `replace_braces`), or yields the replacement text. */
module Subst {
  import opened Outcomes
  import opened Text
  import opened Braces
  import opened Environments
  import opened Factors

  /** `DEPTH`: how many rewrite passes `replace_braces` makes. */
  const Depth: nat := 5

  datatype Provided = NotApplicable | Failed(error: Error) | Value(value: string)

  // ---------------------------------------------------------------------
  // _replace_envvar: env:KEY and env:KEY:DEFAULT
  // ---------------------------------------------------------------------

  /** `_replace_envvar(s, env)` with `os.environ` as `host.environ`. */
  function ReplaceEnvvar(s: string, host: Host): (r: Provided)
    ensures r != NotApplicable ==> |s| >= 4 && s[..4] == "env:"
                                   && (Count(s, ':') == 1 || Count(s, ':') == 2)
    ensures r.Failed? ==> Count(s, ':') == 1 && s[4..] !in host.environ
                          && r.error == KeyError(s[4..])
  {
    var e := Split(s, ':');
    SplitCount(s, ':');
    if |e| > 3 || |e| == 1 || e[0] != "env" then NotApplicable
    else
      assert s == "env:" + Join(e[1..], [':']);
      if |e| == 2 then
        assert Join(e[1..], [':']) == e[1];
        if e[1] in host.environ then Value(host.environ[e[1]]) else Failed(KeyError(e[1]))
      else
        Value(if e[1] in host.environ then host.environ[e[1]] else e[2])
  }

  lemma JoinPair(a: string, b: string, c: char)
    ensures Join([a, b], [c]) == a + [c] + b
  {
    assert [a, b][1..] == [b];
  }

  /** `{env:KEY}`: the variable's value, or `KeyError` when it is unset. */
  lemma EnvvarLookup(key: string, host: Host)
    requires ':' !in key
    ensures ReplaceEnvvar("env:" + key, host)
            == if key in host.environ then Value(host.environ[key]) else Failed(KeyError(key))
  {
    JoinPair("env", key, ':');
    assert "env" + [':'] + key == "env:" + key;
    SplitJoin(["env", key], ':');
  }

  /** `{env:KEY:DEFAULT}`: the variable's value, or DEFAULT when it is unset;
      never an error. */
  lemma EnvvarDefault(key: string, default: string, host: Host)
    requires ':' !in key && ':' !in default
    ensures ReplaceEnvvar("env:" + key + ":" + default, host)
            == Value(if key in host.environ then host.environ[key] else default)
  {
    var parts := ["env", key, default];
    assert parts[1..] == [key, default];
    JoinPair(key, default, ':');
    assert Join(parts, [':']) == "env:" + key + ":" + default;
    SplitJoin(parts, ':');
  }

  /** Conversely, every string of the form `env:...` with one or two colons
      is claimed by the provider. */
  lemma EnvvarApplies(s: string, host: Host)
    requires |s| >= 4 && s[..4] == "env:"
    requires Count(s, ':') == 1 || Count(s, ':') == 2
    ensures ReplaceEnvvar(s, host) != NotApplicable
  {
    assert s[..3] == s[..4][..3] == "env";
    assert s[3] == s[..4][3] == ':';
    SplitHead(s, 3);
    SplitCount(s, ':');
  }

  /** Contents opening with `env:` split on colons with `env` first. */
  /** The first piece of a split is everything before the first separator. */
  lemma SplitHead(s: string, n: nat)
    requires n < |s| && s[n] == ':' && ':' !in s[..n]
    ensures Split(s, ':')[0] == s[..n]
  {
    assert s == s[..n] + [':'] + s[n + 1..];
    SplitFirstSeparator(s[..n], ':', s[n + 1..]);
  }

  // ---------------------------------------------------------------------
  // _replace_config: [section]option
  // ---------------------------------------------------------------------

  datatype ConfigRef = ConfigRef(section: string, option: string)

  /** The first `]` or newline at or after `i`: where the lazy `(.*?)\]`
      stops, or fails when it reaches a newline. */
  function SectionEnd(s: string, i: nat): (k: nat)
    requires i <= |s|
    ensures i <= k <= |s|
    ensures k < |s| ==> s[k] == ']' || s[k] == '\n'
    ensures forall j :: i <= j < k ==> s[j] != ']' && s[j] != '\n'
    decreases |s| - i
  {
    if i == |s| || s[i] == ']' || s[i] == '\n' then i else SectionEnd(s, i + 1)
  }

  /** The first newline at or after `i`: where the greedy `(.*)` stops. */
  function LineEnd(s: string, i: nat): (k: nat)
    requires i <= |s|
    ensures i <= k <= |s|
    ensures k < |s| ==> s[k] == '\n'
    ensures forall j :: i <= j < k ==> s[j] != '\n'
    decreases |s| - i
  {
    if i == |s| || s[i] == '\n' then i else LineEnd(s, i + 1)
  }

  /** `re.match(r"\[(.*?)\](.*)", s).groups()`: a section name with no `]`
      and no newline in brackets at the very start, then the rest of that
      line as the option name. */
  function ParseConfigRef(s: string): (r: Option<ConfigRef>)
    ensures r.Some? ==>
              && ']' !in r.value.section && '\n' !in r.value.section && '\n' !in r.value.option
              && exists rest :: (rest == [] || rest[0] == '\n')
                                && s == "[" + r.value.section + "]" + r.value.option + rest
  {
    if |s| == 0 || s[0] != '[' then None
    else
      var k := SectionEnd(s, 1);
      if k == |s| || s[k] == '\n' then None
      else
        var e := LineEnd(s, k + 1);
        ConfigRefPieces(s, k, e);
        Some(ConfigRef(s[1..k], s[k + 1..e]))
  }

  /** The pieces the parser cuts out of a reference put it back together. */
  lemma ConfigRefPieces(s: string, k: nat, e: nat)
    requires 0 < k < e <= |s| && s[0] == '[' && s[k] == ']'
    requires forall j :: 1 <= j < k ==> s[j] != ']' && s[j] != '\n'
    requires forall j :: k + 1 <= j < e ==> s[j] != '\n'
    requires e < |s| ==> s[e] == '\n'
    ensures ']' !in s[1..k] && '\n' !in s[1..k] && '\n' !in s[k + 1..e]
    ensures var rest := s[e..];
            && (rest == [] || rest[0] == '\n')
            && s == "[" + s[1..k] + "]" + s[k + 1..e] + rest
  {
    var section := s[1..k];
    var option := s[k + 1..e];
    assert forall j :: 0 <= j < |section| ==> section[j] == s[1 + j];
    assert forall j :: 0 <= j < |option| ==> option[j] == s[k + 1 + j];
    assert s == "[" + section + "]" + option + s[e..];
  }

  /** The parser reads back any section and option it could have been given. */
  lemma ParseConfigRefOf(section: string, option: string, rest: string)
    requires ']' !in section && '\n' !in section && '\n' !in option
    requires rest == [] || rest[0] == '\n'
    ensures ParseConfigRef("[" + section + "]" + option + rest) == Some(ConfigRef(section, option))
  {
    var s := "[" + section + "]" + option + rest;
    var k := |section| + 1;
    assert s[k] == ']';
    assert forall j :: 1 <= j < k ==> s[j] == section[j - 1];
    SectionEndAt(s, 1, k);
    var e := k + 1 + |option|;
    assert forall j :: k + 1 <= j < e ==> s[j] == option[j - k - 1];
    LineEndAt(s, k + 1, e);
    assert s[1..k] == section;
    assert s[k + 1..e] == option;
  }

  lemma {:induction false} SectionEndAt(s: string, i: nat, k: nat)
    requires i <= k < |s| && s[k] == ']'
    requires forall j :: i <= j < k ==> s[j] != ']' && s[j] != '\n'
    ensures SectionEnd(s, i) == k
    decreases k - i
  {
    if i < k {
      SectionEndAt(s, i + 1, k);
    }
  }

  lemma {:induction false} LineEndAt(s: string, i: nat, k: nat)
    requires i <= k <= |s| && (k == |s| || s[k] == '\n')
    requires forall j :: i <= j < k ==> s[j] != '\n'
    ensures LineEnd(s, i) == k
    decreases k - i
  {
    if i < k {
      LineEndAt(s, i + 1, k);
    }
  }

  /** `config.get(section, option)` on the raw ConfigParser, which raises
      for a missing section or option. */
  function GetRaw(config: Config, section: string, option: string): (r: Result<string>)
    ensures r.Ok? <==> section in config && option in config[section]
    ensures r.Ok? ==> r.value == config[section][option]
    ensures section !in config ==> r == Err(NoSection(section))
    ensures section in config && option !in config[section] ==> r == Err(NoOption(section, option))
  {
    if section !in config then Err(NoSection(section))
    else if option !in config[section] then Err(NoOption(section, option))
    else Ok(config[section][option])
  }

  /** `[expand_factor_conditions(e, env) for e in lines]`. */
  function ExpandEach(lines: seq<string>, env: Env): (r: seq<string>)
    ensures |r| == |lines|
    ensures forall i :: 0 <= i < |lines| ==> r[i] == ExpandFactorConditions(lines[i], env)
  {
    seq(|lines|, i requires 0 <= i < |lines| => ExpandFactorConditions(lines[i], env))
  }

  /** The value of a referenced option, each line factor-expanded. */
  function ExpandLines(raw: string, env: Env): string {
    Join(ExpandEach(Split(raw, '\n'), env), "\n")
  }

  /** A value without colons has no factor conditions and comes back whole. */
  lemma ExpandLinesPlain(raw: string, env: Env)
    requires ':' !in raw
    ensures ExpandLines(raw, env) == raw
  {
    var lines := Split(raw, '\n');
    forall i | 0 <= i < |lines| ensures ExpandFactorConditions(lines[i], env) == lines[i] {
      assert ':' !in lines[i] by {
        JoinContains(lines, '\n', i);
      }
      CountAbsent(lines[i], ':');
    }
    assert ExpandEach(lines, env) == lines;
  }

  /** Every character of a part is a character of the join. */
  lemma {:induction false} JoinContains(parts: seq<string>, c: char, i: nat)
    requires i < |parts|
    ensures forall x :: x in parts[i] ==> x in Join(parts, [c])
  {
    if |parts| > 1 {
      if i > 0 {
        JoinContains(parts[1..], c, i - 1);
        assert parts[1..][i - 1] == parts[i];
      }
    }
  }

  /** `_replace_config(s, env)`. */
  function ReplaceConfig(s: string, env: Env): (r: Provided)
    ensures r != NotApplicable <==> ParseConfigRef(s).Some?
    ensures r.Failed? ==> r.error.NoSection? || r.error.NoOption?
  {
    match ParseConfigRef(s)
    case None => NotApplicable
    case Some(ref) =>
      match GetRaw(env.config, ref.section, ref.option)
      case Err(e) => Failed(e)
      case Ok(raw) => Value(ExpandLines(raw, env))
  }

  /** `{[section]option}` yields the option's lines, factor-expanded, or the
      ConfigParser error for a missing section or option. */
  lemma ConfigLookup(section: string, option: string, env: Env)
    requires ']' !in section && '\n' !in section && '\n' !in option
    ensures ReplaceConfig("[" + section + "]" + option, env)
            == match GetRaw(env.config, section, option)
               case Err(e) => Failed(e)
               case Ok(raw) => Value(ExpandLines(raw, env))
  {
    ParseConfigRefOf(section, option, "");
    assert "[" + section + "]" + option + "" == "[" + section + "]" + option;
  }

  /** A stored value that is one factor-conditioned line `FACTOR:VALUE`
      reads back as VALUE when the factor matches the environment and as ""
      when it does not. */
  lemma ConfigFactorRoundTrip(section: string, option: string, factor: string, value: string, env: Env)
    requires ']' !in section && '\n' !in section && '\n' !in option
    requires ':' !in factor && ':' !in value && '\n' !in factor && '\n' !in value
    requires section in env.config && option in env.config[section]
    requires env.config[section][option] == factor + ":" + value
    ensures ReplaceConfig("[" + section + "]" + option, env)
            == Value(if MatchesFactorConditions(TrimRight(factor), env) then TrimLeft(value) else "")
  {
    ConfigLookup(section, option, env);
    ExpandLinesFactorLine(factor, value, env);
  }

  /** One factor-conditioned line, expanded as a whole option value. */
  lemma ExpandLinesFactorLine(factor: string, value: string, env: Env)
    requires ':' !in factor && ':' !in value && '\n' !in factor && '\n' !in value
    ensures ExpandLines(factor + ":" + value, env)
            == if MatchesFactorConditions(TrimRight(factor), env) then TrimLeft(value) else ""
  {
    var raw := factor + ":" + value;
    assert '\n' !in raw;
    SplitNoSeparator(raw, '\n');
    assert ExpandEach([raw], env) == [ExpandFactorConditions(raw, env)];
    ExpandFactorConditionsLine(factor, value, env);
  }

  // ---------------------------------------------------------------------
  // _replace_posargs: posargs and posargs:DEFAULT
  // ---------------------------------------------------------------------

  /** `_replace_posargs(s, env)`: the positional arguments joined by spaces,
      or else the text after the first colon, or else "". */
  function ReplacePosargs(s: string, env: Env, host: Host): (r: Provided)
    ensures r != NotApplicable ==> r.Value? && |s| >= 7 && s[..7] == "posargs"
    ensures r.Value? && Join(host.positionalArgs(env.options), " ") != ""
            ==> r.value == Join(host.positionalArgs(env.options), " ")
  {
    var e := SplitAround(s, ':');
    if e[0] != "posargs" then NotApplicable
    else
      var joined := Join(host.positionalArgs(env.options), " ");
      Value(if joined != "" then joined else if |e| > 1 then e[1] else "")
  }

  /** With no positional arguments, `{posargs:DEFAULT}` is DEFAULT with the
      whitespace after the colon dropped. */
  lemma PosargsDefault(default: string, env: Env, host: Host)
    requires ':' !in default
    requires Join(host.positionalArgs(env.options), " ") == ""
    ensures ReplacePosargs("posargs:" + default, env, host) == Value(TrimLeft(default))
  {
    var s := "posargs:" + default;
    PosargsHead(default);
    PosargsWith(s, env, host);
  }

  lemma PosargsWith(s: string, env: Env, host: Host)
    requires |SplitAround(s, ':')| == 2 && SplitAround(s, ':')[0] == "posargs"
    requires Join(host.positionalArgs(env.options), " ") == ""
    ensures ReplacePosargs(s, env, host) == Value(SplitAround(s, ':')[1])
  {
  }

  lemma PosargsGiven(s: string, env: Env, host: Host)
    requires SplitAround(s, ':')[0] == "posargs"
    requires Join(host.positionalArgs(env.options), " ") != ""
    ensures ReplacePosargs(s, env, host) == Value(Join(host.positionalArgs(env.options), " "))
  {
  }

  lemma PosargsBare(env: Env, host: Host)
    requires Join(host.positionalArgs(env.options), " ") == ""
    ensures ReplacePosargs("posargs", env, host) == Value("")
  {
    var w := "posargs";
    SplitAroundNoSeparator(w, ':');
  }

  lemma PosargsHead(default: string)
    requires ':' !in default
    ensures SplitAround("posargs:" + default, ':') == ["posargs", TrimLeft(default)]
  {
    var w := "posargs";
    assert "posargs:" + default == w + [':'] + default;
    WordColon(w, default);
  }

  lemma WordColon(w: string, default: string)
    requires ':' !in w && ':' !in default && NoTrailingSpace(w)
    ensures SplitAround(w + [':'] + default, ':') == [w, TrimLeft(default)]
  {
    SplitAroundOne(w, ':', default);
    TrimRightWord(w);
  }

  // ---------------------------------------------------------------------
  // _replace_match: the resolution order
  // ---------------------------------------------------------------------

  /** A provider's answer, or `otherwise` when it does not apply. */
  function OrElse(p: Provided, otherwise: Result<string>): (r: Result<string>)
    ensures p.NotApplicable? ==> r == otherwise
    ensures p.Failed? ==> r == Err(p.error)
    ensures p.Value? ==> r == Ok(p.value)
  {
    match p
    case NotApplicable => otherwise
    case Failed(e) => Err(e)
    case Value(v) => Ok(v)
  }

  /** `_replace_match(m, env)` for a span whose contents are `content`. */
  function ReplaceMatch(content: string, env: Env, host: Host): (r: Result<string>)
    ensures Strip(content) in env.attrs ==> r == Ok(env.attrs[Strip(content)])
    ensures r.Err? ==> || r.error.KeyError? || r.error.NoSection? || r.error.NoOption?
                       || r.error == NotImplemented(Strip(content))
  {
    var s := Strip(content);
    if s in env.attrs then Ok(env.attrs[s]) else Providers(s, env, host)
  }

  /** The providers tried in turn once the attribute lookup has failed: the
      first that applies answers, and when none does the contents are not
      understood. */
  function Providers(s: string, env: Env, host: Host): (r: Result<string>)
    ensures r.Err? ==> || r.error.KeyError? || r.error.NoSection? || r.error.NoOption?
                       || r.error == NotImplemented(s)
  {
    OrElse(ReplaceEnvvar(s, host),
    OrElse(ReplaceConfig(s, env),
    OrElse(ReplacePosargs(s, env, host),
    Err(NotImplemented(s)))))
  }

  /** Contents that start with `[` are never an environment variable. */
  lemma BracketIsNotEnvvar(s: string, host: Host)
    requires |s| > 0 && s[0] == '['
    ensures ReplaceEnvvar(s, host) == NotApplicable
  {
  }

  /** `{env:KEY}` with KEY unset raises `KeyError(KEY)`, which escapes. */
  lemma ResolveEnvMissing(key: string, env: Env, host: Host)
    requires ':' !in key && key !in host.environ && NoTrailingSpace(key)
    requires "env:" + key !in env.attrs
    ensures ReplaceMatch("env:" + key, env, host) == Err(KeyError(key))
  {
    var s := "env:" + key;
    assert NoTrailingSpace(s) by {
      assert |s| > 0 && (key == [] || s[|s| - 1] == key[|key| - 1]);
    }
    StripClean(s);
    EnvvarLookup(key, host);
  }

  /** `{env:KEY:DEFAULT}` resolves to the variable or to DEFAULT. */
  lemma ResolveEnvDefault(key: string, default: string, env: Env, host: Host)
    requires ':' !in key && ':' !in default && NoTrailingSpace(default)
    requires "env:" + key + ":" + default !in env.attrs
    ensures ReplaceMatch("env:" + key + ":" + default, env, host)
            == Ok(if key in host.environ then host.environ[key] else default)
  {
    var s := "env:" + key + ":" + default;
    assert NoTrailingSpace(s) by {
      assert default == [] || s[|s| - 1] == default[|default| - 1];
    }
    StripClean(s);
    EnvvarDefault(key, default, host);
  }

  /** `{[section]option}` is looked up once the attribute map and the
      environment-variable provider have declined it. */
  lemma ResolveConfig(section: string, option: string, env: Env, host: Host)
    requires ']' !in section && '\n' !in section && '\n' !in option && NoTrailingSpace(option)
    requires "[" + section + "]" + option !in env.attrs
    ensures ReplaceMatch("[" + section + "]" + option, env, host)
            == match GetRaw(env.config, section, option)
               case Err(e) => Err(e)
               case Ok(raw) => Ok(ExpandLines(raw, env))
  {
    var s := "[" + section + "]" + option;
    assert NoTrailingSpace(s) by {
      assert option == [] || s[|s| - 1] == option[|option| - 1];
    }
    StripClean(s);
    BracketIsNotEnvvar(s, host);
    ConfigLookup(section, option, env);
  }

  /** `{posargs:DEFAULT}` with no positional arguments resolves to DEFAULT
      without its leading whitespace. */
  lemma ResolvePosargsDefault(default: string, env: Env, host: Host)
    requires ':' !in default && NoTrailingSpace(default)
    requires Join(host.positionalArgs(env.options), " ") == ""
    requires "posargs:" + default !in env.attrs
    ensures ReplaceMatch("posargs:" + default, env, host) == Ok(TrimLeft(default))
  {
    var s := "posargs:" + default;
    PosargsContent(s, default);
    PosargsDefault(default, env, host);
    ViaPosargs(s, TrimLeft(default), env, host);
  }

  /** The contents `posargs:DEFAULT` as `_replace_match` sees them. */
  lemma PosargsContent(s: string, default: string)
    requires s == "posargs:" + default && NoTrailingSpace(default)
    ensures NoLeadingSpace(s) && NoTrailingSpace(s) && |s| > 0 && s[0] != 'e' && s[0] != '['
  {
    assert default == [] || s[|s| - 1] == default[|default| - 1];
  }

  /** Contents the posargs provider answers resolve to its answer. */
  lemma ViaPosargs(s: string, v: string, env: Env, host: Host)
    requires NoLeadingSpace(s) && NoTrailingSpace(s) && s !in env.attrs
    requires |s| > 0 && s[0] != 'e' && s[0] != '['
    requires ReplacePosargs(s, env, host) == Value(v)
    ensures ReplaceMatch(s, env, host) == Ok(v)
  {
    ResolveToPosargs(s, env, host);
  }

  /** `{posargs:DEFAULT}` with positional arguments resolves to them,
      joined by spaces; DEFAULT is ignored. */
  lemma ResolvePosargsGiven(default: string, env: Env, host: Host)
    requires ':' !in default && NoTrailingSpace(default)
    requires Join(host.positionalArgs(env.options), " ") != ""
    requires "posargs:" + default !in env.attrs
    ensures ReplaceMatch("posargs:" + default, env, host) == Ok(Join(host.positionalArgs(env.options), " "))
  {
    var s := "posargs:" + default;
    PosargsContent(s, default);
    PosargsHead(default);
    PosargsGiven(s, env, host);
    ViaPosargs(s, Join(host.positionalArgs(env.options), " "), env, host);
  }

  /** Contents that are neither an attribute, an environment variable nor a
      config reference go to the posargs provider. */
  lemma ResolveToPosargs(s: string, env: Env, host: Host)
    requires NoLeadingSpace(s) && NoTrailingSpace(s) && s !in env.attrs
    requires |s| > 0 && s[0] != 'e' && s[0] != '['
    ensures ReplaceMatch(s, env, host) == OrElse(ReplacePosargs(s, env, host), Err(NotImplemented(s)))
  {
    ProvidersToPosargs(s, env, host);
    MatchIsProviders(s, env, host);
  }

  /** Contents already stripped and no attribute go to the providers. */
  lemma MatchIsProviders(s: string, env: Env, host: Host)
    requires NoLeadingSpace(s) && NoTrailingSpace(s) && s !in env.attrs
    ensures ReplaceMatch(s, env, host) == Providers(s, env, host)
  {
    StripClean(s);
  }

  lemma ProvidersToPosargs(s: string, env: Env, host: Host)
    requires |s| > 0 && s[0] != 'e' && s[0] != '['
    ensures Providers(s, env, host) == OrElse(ReplacePosargs(s, env, host), Err(NotImplemented(s)))
  {
    NotEnvvar(s, host);
    NotConfig(s, env);
  }

  /** Contents that do not start with `e` are no environment variable. */
  lemma NotEnvvar(s: string, host: Host)
    requires |s| > 0 && s[0] != 'e'
    ensures ReplaceEnvvar(s, host) == NotApplicable
  {
    assert !(|s| >= 4 && s[..4] == "env:") by {
      if |s| >= 4 {
        assert s[..4][0] == s[0];
      }
    }
  }

  /** Contents that do not start with `[` are no config reference. */
  lemma NotConfig(s: string, env: Env)
    requires |s| > 0 && s[0] != '['
    ensures ReplaceConfig(s, env) == NotApplicable
  {
    assert ParseConfigRef(s) == None;
  }

  /** Contents no provider recognises raise `NotImplementedError`. */
  lemma ResolveUnknown(s: string, env: Env, host: Host)
    requires NoLeadingSpace(s) && NoTrailingSpace(s) && s !in env.attrs
    requires !(|s| >= 4 && s[..4] == "env:")
    requires s == [] || s[0] != '['
    requires SplitAround(s, ':')[0] != "posargs"
    ensures ReplaceMatch(s, env, host) == Err(NotImplemented(s))
  {
    StripClean(s);
  }

  // ---------------------------------------------------------------------
  // replace_braces: DEPTH passes of re.sub
  // ---------------------------------------------------------------------

  /** One `re.sub(r"{[^{}]*}", replace, s[pos:])`: every match, left to
      right, is replaced by its resolution; the first failure escapes and
      the text produced is not scanned again in this pass. */
  function PassFrom(s: string, pos: nat, env: Env, host: Host): (r: Result<string>)
    requires pos <= |s|
    decreases |s| - pos
  {
    match NextSpan(s, pos)
    case None => Ok(s[pos..])
    case Some(sp) =>
      var v :- ReplaceMatch(Content(s, sp), env, host);
      var rest :- PassFrom(s, sp.end, env, host);
      Ok(s[pos..sp.start] + v + rest)
  }

  function Pass(s: string, env: Env, host: Host): Result<string> {
    PassFrom(s, 0, env, host)
  }

  /** `n` passes, stopping at the first failure. */
  function Passes(s: string, n: nat, env: Env, host: Host): Result<string>
    decreases n
  {
    if n == 0 then Ok(s)
    else
      match Pass(s, env, host)
      case Err(e) => Err(e)
      case Ok(t) => Passes(t, n - 1, env, host)
  }

  /** `replace_braces(s, env)`. */
  function ReplaceBraces(s: string, env: Env, host: Host): Result<string> {
    Passes(s, Depth, env, host)
  }

  lemma GroupUnique(s: string, i: nat, e1: nat, e2: nat)
    requires IsGroup(s, i, e1) && IsGroup(s, i, e2)
    ensures e1 == e2
  {
  }

  /** A pass over text without a span changes nothing. */
  lemma PassNoGroup(s: string, env: Env, host: Host)
    requires NoGroupBetween(s, 0, |s|)
    ensures Pass(s, env, host) == Ok(s)
  {
    assert s[0..] == s;
  }

  /** Once a pass leaves the text as it is, so do any number of passes. */
  lemma {:induction false} PassesFixpoint(s: string, n: nat, env: Env, host: Host)
    requires Pass(s, env, host) == Ok(s)
    ensures Passes(s, n, env, host) == Ok(s)
  {
    if n > 0 {
      PassesFixpoint(s, n - 1, env, host);
    }
  }

  /** `replace_braces` returns text without a span unchanged. */
  lemma ReplaceBracesNoGroup(s: string, env: Env, host: Host)
    requires NoGroupBetween(s, 0, |s|)
    ensures ReplaceBraces(s, env, host) == Ok(s)
  {
    PassNoGroup(s, env, host);
    PassesFixpoint(s, Depth, env, host);
  }

  /** A pass over `p{x}q`, where the braces around `x` make the only span:
      the span is replaced by the resolution of `x` and nothing else
      changes. The replacement is not scanned again in the same pass,
      whatever braces it holds. */
  lemma PassOneGroup(s: string, p: string, x: string, q: string, env: Env, host: Host)
    requires s == p + "{" + x + "}" + q
    requires '}' !in p && '{' !in x && '}' !in x && '{' !in q
    ensures Pass(s, env, host) == Then(ReplaceMatch(x, env, host), p, q)
  {
    var a := |p|;
    var b := a + |x| + 2;
    FirstGroupOf(s, p, x, q);
    NoOpenNoGroup(s, b);
    PassTail(s, b, env, host);
    PassFirstSpan(s, a, b, x, q, env, host);
  }

  /** A pass whose first span is `a..b`, with the rest of the text after it
      passing unchanged. */
  lemma PassFirstSpan(s: string, a: nat, b: nat, x: string, q: string, env: Env, host: Host)
    requires NextSpan(s, 0) == Some(Span(a, b)) && b <= |s|
    requires s[a + 1..b - 1] == x && PassFrom(s, b, env, host) == Ok(q)
    ensures PassFrom(s, 0, env, host) == Then(ReplaceMatch(x, env, host), s[0..a], q)
  {
    assert Content(s, Span(a, b)) == x;
    match ReplaceMatch(x, env, host)
    case Err(e) =>
      assert PassFrom(s, 0, env, host) == Err(e);
    case Ok(v) =>
      assert PassFrom(s, 0, env, host) == Ok(s[0..a] + v + q);
  }

  /** A pass over text without a span from `pos` on keeps that text. */
  lemma PassTail(s: string, pos: nat, env: Env, host: Host)
    requires pos <= |s| && NoGroupBetween(s, pos, |s|)
    ensures PassFrom(s, pos, env, host) == Ok(s[pos..])
  {
  }

  /** The scanner finds the group `{x}` right after `p`, and what it cuts
      out around it is `p`, `x` and `q`. */
  lemma FirstGroupOf(s: string, p: string, x: string, q: string)
    requires s == p + "{" + x + "}" + q
    requires '}' !in p && '{' !in x && '}' !in x
    ensures var a, b := |p|, |p| + |x| + 2;
            && NextSpan(s, 0) == Some(Span(a, b))
            && b <= |s| && Content(s, Span(a, b)) == x && s[b..] == q && s[0..a] == p
  {
    var a := |p|;
    var b := a + |x| + 2;
    GroupAfterPrefix(s, p, x, q);
    var sp := NextSpan(s, 0);
    assert sp == Some(Span(a, b)) by {
      assert sp.Some?;
      assert sp.value.start == a;
      GroupUnique(s, a, sp.value.end, b);
    }
    GroupPieces(s, p, x, q);
  }

  /** `{x}` right after a `p` without `}` is a group, and the first one. */
  lemma GroupAfterPrefix(s: string, p: string, x: string, q: string)
    requires s == p + "{" + x + "}" + q
    requires '}' !in p && '{' !in x && '}' !in x
    ensures IsGroup(s, |p|, |p| + |x| + 2) && NoGroupBetween(s, 0, |p|)
  {
    var a := |p|;
    var b := a + |x| + 2;
    assert forall j :: 0 <= j < a ==> s[j] == p[j];
    assert forall j :: a < j < b - 1 ==> s[j] == x[j - a - 1];
    assert s[a] == '{' && s[b - 1] == '}';
    assert IsGroup(s, a, b);
    forall i: nat, e: nat | 0 <= i < a ensures !IsGroup(s, i, e) {
      if IsGroup(s, i, e) {
        assert s[e - 1] == '}';
        assert e - 1 != a;
        assert e - 1 >= a;
        assert IsBrace(s[a]);
      }
    }
  }

  lemma GroupPieces(s: string, p: string, x: string, q: string)
    requires s == p + "{" + x + "}" + q
    ensures var a, b := |p|, |p| + |x| + 2;
            && b <= |s| && s[a + 1..b - 1] == x && s[b..] == q && s[0..a] == p
  {
  }

  /** `p + v + q` for a resolution `v`, or its error. */
  function Then(r: Result<string>, p: string, q: string): Result<string> {
    match r
    case Err(e) => Err(e)
    case Ok(v) => Ok(p + v + q)
  }

  /** Nested braces resolve inside out: in `{a{x}b}` the first pass
      replaces only `{x}`, and the outer span is met in the next pass. */
  lemma PassNested(a: string, x: string, b: string, env: Env, host: Host)
    requires '{' !in a && '}' !in a && '{' !in x && '}' !in x && '{' !in b && '}' !in b
    ensures Pass("{" + a + "{" + x + "}" + b + "}", env, host)
            == match ReplaceMatch(x, env, host)
               case Err(e) => Err(e)
               case Ok(v) => Ok("{" + a + v + b + "}")
  {
    var p := "{" + a;
    var q := b + "}";
    Regroup(a, x, b);
    assert '}' !in p && '{' !in q;
    PassOneGroup("{" + a + "{" + x + "}" + b + "}", p, x, q, env, host);
    var r := ReplaceMatch(x, env, host);
    if r.Ok? {
      Regroup2(a, r.value, b);
    }
  }

  lemma Regroup(a: string, x: string, b: string)
    ensures "{" + a + "{" + x + "}" + b + "}" == ("{" + a) + "{" + x + "}" + (b + "}")
  {
  }

  lemma Regroup2(a: string, v: string, b: string)
    ensures ("{" + a) + v + (b + "}") == "{" + a + v + b + "}"
  {
  }

  // ---------------------------------------------------------------------
  // Exactly DEPTH passes: a chain of config references
  // ---------------------------------------------------------------------

  /** A section or option name made of lower-case letters and digits. */
  predicate IsLabel(x: string) {
    |x| > 0 && forall i :: 0 <= i < |x| ==> ('a' <= x[i] <= 'z' || '0' <= x[i] <= '9')
  }

  /** The placeholder `{[section]option}`. */
  function Reference(section: string, option: string): string {
    "{[" + section + "]" + option + "}"
  }

  /** Each option of the chain in `section` holds a reference to the next;
      the environment has no attributes. */
  predicate Chained(env: Env, section: string, options: seq<string>) {
    && IsLabel(section)
    && (forall i :: 0 <= i < |options| ==> IsLabel(options[i]))
    && env.attrs == map[]
    && section in env.config
    && forall i :: 0 <= i < |options| - 1 ==>
         options[i] in env.config[section]
         && env.config[section][options[i]] == Reference(section, options[i + 1])
  }

  lemma LabelExcludes(x: string, c: char)
    requires IsLabel(x) && !('a' <= c <= 'z') && !('0' <= c <= '9')
    ensures c !in x && NoTrailingSpace(x)
  {
  }

  /** An option holding a reference to another. */
  predicate Link(env: Env, section: string, option: string, next: string) {
    && IsLabel(section) && IsLabel(option) && IsLabel(next)
    && env.attrs == map[]
    && section in env.config && option in env.config[section]
    && env.config[section][option] == Reference(section, next)
  }

  lemma LinkResolves(env: Env, host: Host, section: string, option: string, next: string)
    requires Link(env, section, option, next)
    ensures ReplaceMatch("[" + section + "]" + option, env, host) == Ok(Reference(section, next))
  {
    LinkLooksUp(env, host, section, option, next);
    ReferencePlain(env, section, next);
  }

  lemma LinkLooksUp(env: Env, host: Host, section: string, option: string, next: string)
    requires Link(env, section, option, next)
    ensures ReplaceMatch("[" + section + "]" + option, env, host)
            == Ok(ExpandLines(Reference(section, next), env))
  {
    LabelExcludes(section, ']');
    LabelExcludes(section, '\n');
    LabelExcludes(option, '\n');
    assert GetRaw(env.config, section, option) == Ok(Reference(section, next));
    assert "[" + section + "]" + option !in env.attrs;
    ResolveConfig(section, option, env, host);
  }

  /** A reference has no colon, so no factor condition. */
  lemma ReferencePlain(env: Env, section: string, next: string)
    requires IsLabel(section) && IsLabel(next)
    ensures ExpandLines(Reference(section, next), env) == Reference(section, next)
  {
    LabelExcludes(section, ':');
    LabelExcludes(next, ':');
    ExpandLinesPlain(Reference(section, next), env);
  }

  /** One pass follows one link, and only one. */
  lemma LinkStep(env: Env, host: Host, section: string, option: string, next: string)
    requires Link(env, section, option, next)
    ensures Pass(Reference(section, option), env, host) == Ok(Reference(section, next))
  {
    var x := "[" + section + "]" + option;
    LabelExcludes(section, '{');
    LabelExcludes(section, '}');
    LabelExcludes(option, '{');
    LabelExcludes(option, '}');
    assert '{' !in x && '}' !in x;
    assert Reference(section, option) == "{" + x + "}";
    PassWhole(x, env, host);
    LinkResolves(env, host, section, option, next);
  }

  /** A text that is one placeholder whose replacement holds no `{` is
      resolved by the first pass; the remaining passes find nothing. */
  lemma ReplaceBracesOnce(x: string, env: Env, host: Host)
    requires '{' !in x && '}' !in x
    requires ReplaceMatch(x, env, host).Ok? ==> '{' !in ReplaceMatch(x, env, host).value
    ensures ReplaceBraces("{" + x + "}", env, host) == ReplaceMatch(x, env, host)
  {
    PassWhole(x, env, host);
    var r := ReplaceMatch(x, env, host);
    if r.Ok? {
      var v := r.value;
      PassesStep("{" + x + "}", v, Depth, env, host);
      assert v[0..] == v;
      NoOpenNoGroup(v, 0);
      PassNoGroup(v, env, host);
      PassesFixpoint(v, Depth - 1, env, host);
    }
  }

  /** A pass over a single span is the resolution of its contents. */
  lemma PassWhole(x: string, env: Env, host: Host)
    requires '{' !in x && '}' !in x
    ensures Pass("{" + x + "}", env, host) == ReplaceMatch(x, env, host)
  {
    var s := "{" + x + "}";
    var e := "";
    assert s == e + "{" + x + "}" + e;
    PassOneGroup(s, e, x, e, env, host);
    ThenEmpty(ReplaceMatch(x, env, host));
  }

  lemma ThenEmpty(r: Result<string>)
    ensures Then(r, "", "") == r
  {
    if r.Ok? {
      assert "" + r.value + "" == r.value;
    }
  }

  lemma PassesStep(s: string, t: string, n: nat, env: Env, host: Host)
    requires n > 0 && Pass(s, env, host) == Ok(t)
    ensures Passes(s, n, env, host) == Passes(t, n - 1, env, host)
  {
  }

  lemma ChainStep(env: Env, host: Host, section: string, options: seq<string>, i: nat)
    requires Chained(env, section, options) && i + 1 < |options|
    ensures Pass(Reference(section, options[i]), env, host) == Ok(Reference(section, options[i + 1]))
  {
    assert Link(env, section, options[i], options[i + 1]);
    LinkStep(env, host, section, options[i], options[i + 1]);
  }

  /** `n` passes from `texts[i]` when each text passes to the next. */
  lemma {:induction false} PassesAlong(texts: seq<string>, i: nat, n: nat, env: Env, host: Host)
    requires forall k :: 0 <= k < |texts| - 1 ==> Pass(texts[k], env, host) == Ok(texts[k + 1])
    requires i + n < |texts|
    ensures Passes(texts[i], n, env, host) == Ok(texts[i + n])
    decreases n
  {
    if n > 0 {
      PassesStep(texts[i], texts[i + 1], n, env, host);
      PassesAlong(texts, i + 1, n - 1, env, host);
      assert i + 1 + (n - 1) == i + n;
    }
  }

  function References(section: string, options: seq<string>): (r: seq<string>)
    ensures |r| == |options|
    ensures forall k :: 0 <= k < |options| ==> r[k] == Reference(section, options[k])
  {
    seq(|options|, k requires 0 <= k < |options| => Reference(section, options[k]))
  }

  lemma ChainPasses(env: Env, host: Host, section: string, options: seq<string>, n: nat)
    requires Chained(env, section, options) && n < |options|
    ensures Passes(Reference(section, options[0]), n, env, host) == Ok(Reference(section, options[n]))
  {
    var texts := References(section, options);
    forall k | 0 <= k < |texts| - 1 ensures Pass(texts[k], env, host) == Ok(texts[k + 1]) {
      ChainStep(env, host, section, options, k);
    }
    PassesAlong(texts, 0, n, env, host);
  }

  /** `replace_braces` stops after `DEPTH` passes: following a chain of
      references it returns the placeholder reached after five links, which
      one more pass would still rewrite. */
  lemma ReplaceBracesStopsAtDepth(env: Env, host: Host, section: string, options: seq<string>)
    requires Chained(env, section, options) && |options| == Depth + 2
    ensures ReplaceBraces(Reference(section, options[0]), env, host)
            == Ok(Reference(section, options[Depth]))
    ensures Pass(Reference(section, options[Depth]), env, host)
            == Ok(Reference(section, options[Depth + 1]))
  {
    ChainPasses(env, host, section, options, Depth);
    ChainStep(env, host, section, options, Depth);
  }

  /** An option that refers to itself is left as its own placeholder. */
  lemma SelfReferenceStaysLiteral(env: Env, host: Host, section: string, option: string)
    requires Chained(env, section, [option, option])
    ensures ReplaceBraces(Reference(section, option), env, host) == Ok(Reference(section, option))
  {
    ChainStep(env, host, section, [option, option], 0);
    PassesFixpoint(Reference(section, option), Depth, env, host);
  }
}
