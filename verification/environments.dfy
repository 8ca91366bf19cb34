/** What the substitution engine reads: one environment, its parsed
    tox.ini, and the two things it takes from the running process. */
module Environments {

  /** The parsed tox.ini: section name, then option name, then raw value. */
  type Config = map<string, map<string, string>>

  /** One concrete environment (`ctox.main.Env`) as the engine sees it: its
      dash-separated name, the command-line tokens left over after option
      parsing, the string attributes `{toxinidir}`, `{envdir}`, ... resolve
      to, and the configuration it was built from. */
  datatype Env = Env(name: string, options: seq<string>, attrs: map<string, string>, config: Config)

  /** The process environment (`os.environ`) and `positional_args`, the
      function `{posargs}` applies to `Env.options`. */
  datatype Host = Host(environ: map<string, string>, positionalArgs: seq<string> -> seq<string>)

  /** The two behaviours of `positional_args` its tests fix: tokens up to the
      first flag are positional, and a leading `--` makes every later token
      positional. */
  predicate AgreesWithTests(positionalArgs: seq<string> -> seq<string>) {
    && positionalArgs(["arg1", "arg2", "--kwarg"]) == ["arg1", "arg2"]
    && positionalArgs(["--", "arg1", "--kwarg"]) == ["arg1", "--kwarg"]
  }

  /** The tokens before the first one that starts with `-`. */
  function LeadingPositional(options: seq<string>): (r: seq<string>)
    ensures |r| <= |options| && r == options[..|r|]
    ensures forall i :: 0 <= i < |r| ==> !(|r[i]| > 0 && r[i][0] == '-')
    ensures |r| < |options| ==> |options[|r|]| > 0 && options[|r|][0] == '-'
  {
    if options == [] || (|options[0]| > 0 && options[0][0] == '-') then []
    else
      var rest := LeadingPositional(options[1..]);
      assert [options[0]] + rest == options[..|rest| + 1];
      [options[0]] + rest
  }

  /** One `positional_args` consistent with its tests: after a leading `--`
      everything is positional, otherwise the tokens before the first flag. */
  function PositionalArgsPolicy(options: seq<string>): seq<string> {
    if |options| > 0 && options[0] == "--" then options[1..]
    else LeadingPositional(options)
  }

  lemma PolicyAgreesWithTests()
    ensures AgreesWithTests(PositionalArgsPolicy)
  {
    var a := ["arg1", "arg2", "--kwarg"];
    assert a[0] != "--";
    assert LeadingPositional(a[2..]) == [];
    assert a[2..][1..] == [];
    assert LeadingPositional(a[1..]) == ["arg2"] by {
      assert a[1..][1..] == a[2..];
    }
    assert LeadingPositional(a) == ["arg1", "arg2"];
    var b := ["--", "arg1", "--kwarg"];
    assert b[1..] == ["arg1", "--kwarg"];
  }
}
