/** The settings ctox derives from tox.ini (ctox/config.py): the option
    lookup `_get` that treats a missing section or option as "", and
    `get_whitelist`, `get_envlist`, `get_deps` and `get_commands` built on
    it and on the substitution engine. */
module ToxConfig {
  import opened Outcomes
  import opened Text
  import opened Braces
  import opened Environments
  import opened Factors
  import opened Quoting
  import opened Subst

  // ---------------------------------------------------------------------
  // _get
  // ---------------------------------------------------------------------

  /** `_get(config, section, option, **kwargs)`, the keyword arguments given
      by name: any keyword argument is a `TypeError`, a missing section or
      option reads as "". */
  function Get(config: Config, section: string, option: string, kwargs: seq<string>): (r: Result<string>)
    ensures kwargs != [] ==> r == Err(UnknownKwarg)
    ensures kwargs == [] ==> r.Ok?
    ensures kwargs == [] && section in config && option in config[section]
            ==> r == Ok(config[section][option])
    ensures kwargs == [] && !(section in config && option in config[section]) ==> r == Ok("")
  {
    if kwargs != [] then Err(UnknownKwarg)
    else
      match GetRaw(config, section, option)
      case Ok(v) => Ok(v)
      case Err(_) => Ok("")
  }

  /** `_get` as every caller in ctox uses it, without keyword arguments. */
  function Lookup(config: Config, section: string, option: string): string {
    Get(config, section, option, []).value
  }

  /** `_get` differs from the raw lookup only where that raises: the error
      becomes "". */
  lemma GetAbsorbsLookupErrors(config: Config, section: string, option: string)
    ensures GetRaw(config, section, option).Ok? ==> Lookup(config, section, option) == GetRaw(config, section, option).value
    ensures GetRaw(config, section, option).Err? ==> Lookup(config, section, option) == ""
  {
  }

  // ---------------------------------------------------------------------
  // get_whitelist and get_envlist
  // ---------------------------------------------------------------------

  /** `get_whitelist(config)`: the `tox`/`whitelist_externals` value split on
      newlines. */
  function GetWhitelist(config: Config): (r: seq<string>)
    ensures |r| >= 1 && Join(r, "\n") == Lookup(config, "tox", "whitelist_externals")
    ensures forall i :: 0 <= i < |r| ==> '\n' !in r[i]
  {
    Split(Lookup(config, "tox", "whitelist_externals"), '\n')
  }

  /** Without the option the whitelist is `[""]`, not `[]`. */
  lemma WhitelistAbsent(config: Config)
    requires !("tox" in config && "whitelist_externals" in config["tox"])
    ensures GetWhitelist(config) == [""]
  {
  }

  /** The whitelist lists the value's lines, in order. */
  lemma WhitelistLines(config: Config, lines: seq<string>)
    requires |lines| >= 1 && forall i :: 0 <= i < |lines| ==> '\n' !in lines[i]
    requires "tox" in config && "whitelist_externals" in config["tox"]
    requires config["tox"]["whitelist_externals"] == Join(lines, "\n")
    ensures GetWhitelist(config) == lines
  {
    SplitJoin(lines, '\n');
  }

  /** `get_envlist(config)`: `parse_envlist` of the `tox`/`envlist` value.
      A name is listed exactly when some top-level part of the value
      brace-expands to it. */
  function GetEnvlist(config: Config): (r: seq<string>)
    ensures var parts := SplitOutOfBraces(Lookup(config, "tox", "envlist"));
            forall x :: x in r <==> exists i :: 0 <= i < |parts| && x in ExpandCurlys(parts[i])
  {
    var parts := SplitOutOfBraces(Lookup(config, "tox", "envlist"));
    ExpandAllMembers(parts);
    ParseEnvlist(Lookup(config, "tox", "envlist"))
  }

  /** An `envlist` written as plain names separated by `,` or `, ` lists
      those names, in order. */
  lemma EnvlistNames(config: Config, names: seq<string>)
    requires |names| >= 1
    requires forall i :: 0 <= i < |names| ==> Piece(names[i]) && '{' !in names[i]
    requires "tox" in config && "envlist" in config["tox"]
    requires config["tox"]["envlist"] == Join(names, ",") || config["tox"]["envlist"] == Join(names, ", ")
    ensures GetEnvlist(config) == names
  {
    SplitOutOfBracesCommas(names);
    ExpandAllPlain(names);
  }

  /** Without the option there are no environments. */
  lemma EnvlistAbsent(config: Config)
    requires !("tox" in config && "envlist" in config["tox"])
    ensures GetEnvlist(config) == []
  {
    assert SplitOutOfBraces("") == [];
  }

  // ---------------------------------------------------------------------
  // get_deps
  // ---------------------------------------------------------------------

  /** The option value a test environment uses: its own section's when that
      is non-empty, else the one of `[testenv]`. */
  function EnvOption(env: Env, option: string): (r: string)
    ensures Lookup(env.config, "testenv:" + env.name, option) != ""
            ==> r == Lookup(env.config, "testenv:" + env.name, option)
    ensures Lookup(env.config, "testenv:" + env.name, option) == ""
            ==> r == Lookup(env.config, "testenv", option)
  {
    var own := Lookup(env.config, "testenv:" + env.name, option);
    if own != "" then own else Lookup(env.config, "testenv", option)
  }

  /** The non-empty strings, in order: `[c for c in cs if c]`. */
  function DropEmpty(cs: seq<string>): (r: seq<string>)
    ensures forall i :: 0 <= i < |r| ==> r[i] != ""
    ensures forall x :: x in r <==> x in cs && x != ""
  {
    if cs == [] then [] else NonEmpty(cs[0]) + DropEmpty(cs[1..])
  }

  /** One deps line: `replace_braces(expand_factor_conditions(d, env), env)`. */
  function ResolveLine(d: string, env: Env, host: Host): Result<string> {
    ReplaceBraces(ExpandFactorConditions(d, env), env, host)
  }

  /** Each line resolved, in order; the first line whose replacement fails
      fails the whole list. */
  function ResolveLines(lines: seq<string>, env: Env, host: Host): (r: Result<seq<string>>)
    ensures r.Ok? ==> |r.value| == |lines|
                      && forall i :: 0 <= i < |lines| ==> ResolveLine(lines[i], env, host) == Ok(r.value[i])
    ensures r.Err? ==> exists i :: 0 <= i < |lines|
                         && (forall j :: 0 <= j < i ==> ResolveLine(lines[j], env, host).Ok?)
                         && ResolveLine(lines[i], env, host) == Err(r.error)
  {
    var rs := Resolved(lines, env, host);
    AllOk(rs)
  }

  function Resolved(lines: seq<string>, env: Env, host: Host): (rs: seq<Result<string>>)
    ensures |rs| == |lines| && forall i :: 0 <= i < |lines| ==> rs[i] == ResolveLine(lines[i], env, host)
  {
    seq(|lines|, i requires 0 <= i < |lines| => ResolveLine(lines[i], env, host))
  }

  /** `sum((s.split() for s in ds), [])`: every whitespace-separated word,
      line by line. */
  function Words(ds: seq<string>): (r: seq<string>)
    ensures forall i :: 0 <= i < |r| ==> r[i] != "" && NoSpace(r[i])
  {
    if ds == [] then [] else SplitWs(ds[0]) + Words(ds[1..])
  }

  /** `re.match("(pip|conda)([=<>!]|$)", d)`: `d` names pip or conda itself,
      alone or followed by a version operator. */
  predicate IsInstaller(d: string) {
    || (StartsWith(d, "pip") && (|d| == 3 || d[3] in "=<>!"))
    || (StartsWith(d, "conda") && (|d| == 5 || d[5] in "=<>!"))
  }

  /** The words that are not pip or conda, in order. */
  function DropInstallers(ws: seq<string>): (r: seq<string>)
    ensures forall i :: 0 <= i < |r| ==> !IsInstaller(r[i])
    ensures forall w :: w in r <==> w in ws && !IsInstaller(w)
    ensures |r| <= |ws|
  {
    if ws == [] then []
    else if IsInstaller(ws[0]) then DropInstallers(ws[1..])
    else [ws[0]] + DropInstallers(ws[1..])
  }

  /** The dependency list for a `deps` value. */
  function DepsOf(raw: string, env: Env, host: Host): (r: Result<seq<string>>)
    ensures r.Ok? ==> |r.value| >= 1 && r.value[0] == "pip"
    ensures r.Ok? ==> forall i :: 1 <= i < |r.value| ==>
                        r.value[i] != "" && NoSpace(r.value[i]) && !IsInstaller(r.value[i])
  {
    var ds :- ResolveLines(DropEmpty(Split(raw, '\n')), env, host);
    var deps := DropInstallers(Words(ds));
    assert forall i :: 0 <= i < |deps| ==> deps[i] in Words(ds);
    Ok(["pip"] + deps)
  }

  /** `get_deps(env)`: "pip" first, then the words of the resolved deps
      lines that are not pip or conda themselves. */
  function GetDeps(env: Env, host: Host): (r: Result<seq<string>>)
    ensures r.Ok? ==> |r.value| >= 1 && r.value[0] == "pip"
    ensures r.Ok? ==> forall i :: 1 <= i < |r.value| ==> !IsInstaller(r.value[i])
  {
    DepsOf(EnvOption(env, "deps"), env, host)
  }

  // ---------------------------------------------------------------------
  // get_commands
  // ---------------------------------------------------------------------

  /** `[split_on(cmd) for cmd in lines]`. */
  function SplitEach(lines: seq<string>): (r: seq<seq<string>>)
    ensures |r| == |lines|
    ensures forall i :: 0 <= i < |lines| ==> r[i] == SplitOn(lines[i], ' ')
  {
    seq(|lines|, i requires 0 <= i < |lines| => SplitOn(lines[i], ' '))
  }

  /** The commands for a brace-replaced `commands` value: its quote-aware
      lines, the empty ones dropped, each split quote-aware on spaces. */
  function CommandsOf(text: string): seq<seq<string>> {
    SplitEach(DropEmpty(SplitOn(text, '\n')))
  }

  /** `get_commands(env)`. */
  function GetCommands(env: Env, host: Host): (r: Result<seq<seq<string>>>)
    ensures r.Ok? <==> ReplaceBraces(EnvOption(env, "commands"), env, host).Ok?
    ensures r.Ok? ==> r.value == CommandsOf(ReplaceBraces(EnvOption(env, "commands"), env, host).value)
  {
    var text :- ReplaceBraces(EnvOption(env, "commands"), env, host);
    Ok(CommandsOf(text))
  }

  // ---------------------------------------------------------------------
  // Properties
  // ---------------------------------------------------------------------

  lemma {:induction false} DropEmptyKeeps(cs: seq<string>)
    requires forall i :: 0 <= i < |cs| ==> cs[i] != ""
    ensures DropEmpty(cs) == cs
  {
    if cs != [] {
      DropEmptyKeeps(cs[1..]);
      assert cs == [cs[0]] + cs[1..];
    }
  }

  /** `DropEmpty` works line by line, so the kept lines stay in their order
      and keep their repeats; `DropEmptyOne` says which lines it keeps. */
  lemma {:induction false} DropEmptyAppend(a: seq<string>, b: seq<string>)
    ensures DropEmpty(a + b) == DropEmpty(a) + DropEmpty(b)
  {
    if a == [] {
      assert a + b == b;
    } else {
      var ab := a + b;
      assert ab[0] == a[0] && ab[1..] == a[1..] + b;
      DropEmptyAppend(a[1..], b);
      assert DropEmpty(ab) == NonEmpty(a[0]) + DropEmpty(a[1..] + b);
    }
  }

  lemma DropEmptyOne(c: string)
    ensures DropEmpty([c]) == if c == "" then [] else [c]
  {
    assert [c][1..] == [];
  }

  /** `DropInstallers` works word by word, so the kept words stay in their
      order and keep their repeats; `DropInstallersOne` says which words it
      keeps. */
  lemma {:induction false} DropInstallersAppend(a: seq<string>, b: seq<string>)
    ensures DropInstallers(a + b) == DropInstallers(a) + DropInstallers(b)
  {
    if a == [] {
      assert a + b == b;
    } else {
      var ab := a + b;
      assert ab[0] == a[0] && ab[1..] == a[1..] + b;
      DropInstallersAppend(a[1..], b);
    }
  }

  lemma DropInstallersOne(w: string)
    ensures DropInstallers([w]) == if IsInstaller(w) then [] else [w]
  {
    assert [w][1..] == [];
  }

  /** The words of several lines are the words of each line, one line after
      the other. */
  lemma {:induction false} WordsAppend(a: seq<string>, b: seq<string>)
    ensures Words(a + b) == Words(a) + Words(b)
  {
    if a == [] {
      assert a + b == b;
    } else {
      var ab := a + b;
      assert ab[0] == a[0] && ab[1..] == a[1..] + b;
      WordsAppend(a[1..], b);
      assert Words(ab) == SplitWs(a[0]) + Words(a[1..] + b);
    }
  }

  lemma WordsOne(d: string)
    ensures Words([d]) == SplitWs(d)
  {
    assert [d][1..] == [];
  }

  /** A line with neither a colon nor an opening brace resolves to itself. */
  lemma ResolvePlainLine(d: string, env: Env, host: Host)
    requires ':' !in d && '{' !in d
    ensures ResolveLine(d, env, host) == Ok(d)
  {
    CountAbsent(d, ':');
    assert d[0..] == d;
    NoOpenNoGroup(d, 0);
    ReplaceBracesNoGroup(d, env, host);
  }

  /** Lines without colons or braces pass through unchanged. */
  lemma ResolvePlain(lines: seq<string>, env: Env, host: Host)
    requires forall i :: 0 <= i < |lines| ==> ':' !in lines[i] && '{' !in lines[i]
    ensures ResolveLines(lines, env, host) == Ok(lines)
  {
    forall i | 0 <= i < |lines| ensures ResolveLine(lines[i], env, host) == Ok(lines[i]) {
      ResolvePlainLine(lines[i], env, host);
    }
    var r := ResolveLines(lines, env, host);
    assert r.Ok?;
    assert r.value == lines;
  }

  /** Lines that are single words are their own words. */
  lemma {:induction false} WordsOfWords(ws: seq<string>)
    requires forall i :: 0 <= i < |ws| ==> ws[i] != "" && NoSpace(ws[i])
    ensures Words(ws) == ws
  {
    if ws != [] {
      SplitWsJoin([ws[0]]);
      WordsOfWords(ws[1..]);
      assert ws == [ws[0]] + ws[1..];
    }
  }

  /** A deps value listing one requirement per line gives "pip" and then the
      requirements in order, pip and conda themselves left out. */
  lemma DepsOfRequirements(reqs: seq<string>, env: Env, host: Host)
    requires |reqs| >= 1
    requires forall i :: 0 <= i < |reqs| ==> reqs[i] != "" && NoSpace(reqs[i]) && ':' !in reqs[i] && '{' !in reqs[i]
    ensures DepsOf(Join(reqs, "\n"), env, host) == Ok(["pip"] + DropInstallers(reqs))
  {
    forall i | 0 <= i < |reqs| ensures '\n' !in reqs[i] {
      NoSpaceNoNewline(reqs[i]);
    }
    SplitJoin(reqs, '\n');
    DropEmptyKeeps(reqs);
    ResolvePlain(reqs, env, host);
    DepsOfResolved(Join(reqs, "\n"), reqs, env, host);
    WordsOfWords(reqs);
  }

  lemma NoSpaceNoNewline(w: string)
    requires NoSpace(w)
    ensures '\n' !in w
  {
    forall k | 0 <= k < |w| ensures w[k] != '\n' {
      assert !IsSpace(w[k]);
    }
  }

  lemma DepsOfResolved(raw: string, ds: seq<string>, env: Env, host: Host)
    requires ResolveLines(DropEmpty(Split(raw, '\n')), env, host) == Ok(ds)
    ensures DepsOf(raw, env, host) == Ok(["pip"] + DropInstallers(Words(ds)))
  {
  }

  lemma InstallerExamples()
    ensures IsInstaller("pip") && IsInstaller("pip>=7.0") && IsInstaller("conda") && IsInstaller("conda==4")
    ensures !IsInstaller("pipenv") && !IsInstaller("conda-build") && !IsInstaller("nose")
  {
    assert "pip>=7.0"[..3] == "pip";
    assert "conda==4"[..5] == "conda";
    assert "pipenv"[..3] == "pip";
    assert "conda-build"[..5] == "conda";
  }

  /** The text of a list of commands: words joined by spaces, commands by
      newlines. */
  function CommandText(cmds: seq<seq<string>>): string {
    Join(seq(|cmds|, i requires 0 <= i < |cmds| => Join(cmds[i], " ")), "\n")
  }

  /** A word `get_commands` reads back as itself. */
  predicate PlainWord(w: string) {
    w != "" && forall k :: 0 <= k < |w| ==> w[k] !in "'\" \n{"
  }

  /** `get_commands` reads a commands value written from commands of plain
      words back as those commands. */
  lemma CommandsOfText(cmds: seq<seq<string>>)
    requires forall i :: 0 <= i < |cmds| ==> cmds[i] != []
    requires forall i, j :: 0 <= i < |cmds| && 0 <= j < |cmds[i]| ==> PlainWord(cmds[i][j])
    ensures CommandsOf(CommandText(cmds)) == cmds
  {
    var lines := seq(|cmds|, i requires 0 <= i < |cmds| => Join(cmds[i], " "));
    forall i | 0 <= i < |cmds|
      ensures lines[i] != [] && (forall k :: 0 <= k < |lines[i]| ==> Plain(lines[i][k], '\n'))
      ensures SplitOn(lines[i], ' ') == cmds[i]
    {
      CommandLine(cmds[i]);
    }
    SplitOnPlain(lines, '\n');
    DropEmptyKeeps(lines);
  }

  /** One command written out on its line: no newline, quote or brace, and
      read back as its words. */
  lemma CommandLine(cmd: seq<string>)
    requires cmd != []
    requires forall j :: 0 <= j < |cmd| ==> PlainWord(cmd[j])
    ensures Join(cmd, " ") != []
    ensures forall k :: 0 <= k < |Join(cmd, " ")| ==> Plain(Join(cmd, " ")[k], '\n') && Join(cmd, " ")[k] != '{'
    ensures SplitOn(Join(cmd, " "), ' ') == cmd
  {
    var line := Join(cmd, " ");
    JoinMember(cmd, " ");
    forall k | 0 <= k < |line| ensures Plain(line[k], '\n') && line[k] != '{' {
      var x := line[k];
      if x !in " " {
        var j :| 0 <= j < |cmd| && x in cmd[j];
        assert PlainWord(cmd[j]);
      }
    }
    SplitOnPlain(cmd, ' ');
  }

  /** Plain commands survive `get_commands` unchanged. */
  lemma CommandsRoundTrip(cmds: seq<seq<string>>, env: Env, host: Host)
    requires forall i :: 0 <= i < |cmds| ==> cmds[i] != []
    requires forall i, j :: 0 <= i < |cmds| && 0 <= j < |cmds[i]| ==> PlainWord(cmds[i][j])
    requires EnvOption(env, "commands") == CommandText(cmds)
    ensures GetCommands(env, host) == Ok(cmds)
  {
    var text := CommandText(cmds);
    var lines := seq(|cmds|, i requires 0 <= i < |cmds| => Join(cmds[i], " "));
    assert '{' !in text by {
      JoinMember(lines, "\n");
      forall i, k | 0 <= i < |cmds| && 0 <= k < |lines[i]| ensures lines[i][k] != '{' {
        CommandLine(cmds[i]);
      }
    }
    assert text[0..] == text;
    NoOpenNoGroup(text, 0);
    ReplaceBracesNoGroup(text, env, host);
    CommandsOfText(cmds);
  }
}
