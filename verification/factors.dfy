/** Factor conditions: `matches_factor_conditions` and
    `expand_factor_conditions` (ctox/subst.py). A factor expression such as
    `py{33,34}` names a set of labels; an environment `py34-unify` has the
    labels `py34` and `unify`; the condition holds when the sets meet. */
module Factors {
  import opened Text
  import opened Braces
  import opened Environments

  /** `env.name.split('-')`. */
  function EnvLabels(name: string): (r: seq<string>)
    ensures |r| >= 1 && Join(r, "-") == name
    ensures forall i :: 0 <= i < |r| ==> '-' !in r[i]
  {
    Split(name, '-')
  }

  /** A name built from dash-free labels has exactly those labels. */
  lemma EnvLabelsOfJoin(labels: seq<string>)
    requires |labels| >= 1 && forall i :: 0 <= i < |labels| ==> '-' !in labels[i]
    ensures EnvLabels(Join(labels, "-")) == labels
  {
    SplitJoin(labels, '-');
  }

  /** Whether the two collections share an element: `bool(set(xs) & set(ys))`. */
  function Intersects(xs: seq<string>, ys: seq<string>): (r: bool)
    ensures r <==> exists x :: x in xs && x in ys
  {
    if xs == [] then false
    else if xs[0] in ys then true
    else
      assert forall x :: x in xs ==> x == xs[0] || x in xs[1..];
      Intersects(xs[1..], ys)
  }

  /** `matches_factor_conditions(s, env)`: some label the factor expression
      expands to is one of the dash-separated labels of the environment name. */
  function MatchesFactorConditions(s: string, env: Env): (r: bool)
    ensures r <==> exists l :: l in BashExpand(s) && l in EnvLabels(env.name)
  {
    Intersects(BashExpand(s), EnvLabels(env.name))
  }

  /** `expand_factor_conditions(s, env)`: a line `FACTOR: VALUE` becomes
      VALUE when the factor matches and "" otherwise; a line with no colon or
      with more than one is kept as it is. */
  function ExpandFactorConditions(s: string, env: Env): (r: string)
    ensures Count(s, ':') != 1 ==> r == s
    ensures Count(s, ':') == 1 ==> r == "" || (|r| <= |s| && r == s[|s| - |r|..])
  {
    var parts := SplitAround(s, ':');
    SplitAroundCount(s, ':');
    if |parts| != 2 then s
    else
      SplitAroundLastIsSuffix(s, ':');
      assert parts[1] == Last(parts);
      if MatchesFactorConditions(parts[0], env) then parts[1] else ""
  }

  /** A line with exactly one colon: the whitespace around the colon is
      dropped, the factor is matched and the value kept or erased. */
  lemma ExpandFactorConditionsLine(factor: string, value: string, env: Env)
    requires ':' !in factor && ':' !in value
    ensures ExpandFactorConditions(factor + ":" + value, env)
            == if MatchesFactorConditions(TrimRight(factor), env) then TrimLeft(value) else ""
  {
    SplitAroundOne(factor, ':', value);
  }
}
