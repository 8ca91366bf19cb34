# ctox substitution engine in Dafny

ctox runs tox environments by reading `tox.ini` itself rather than through
tox. This project models the part of ctox that turns the raw text of
`tox.ini` into the values it acts on. That part has two layers:

- **`ctox/subst.py`** holds the substitution engine:
  - `bash_expand` / `parse_envlist` expand an envlist such as
    `{py26,py27}-django{15,16}, py32` into environment names;
  - `expand_factor_conditions` keeps or erases a `FACTOR: VALUE` line for
    one environment;
  - `split_on` splits a command line on a separator outside quotes;
  - `replace_braces` resolves `{…}` placeholders: environment attributes,
    `{env:KEY[:DEFAULT]}`, `{[section]option}` and `{posargs[:DEFAULT]}`.
    It makes five passes of `re.sub` and stops at the first exception.
- **`ctox/config.py`** builds on the engine:
  - `_get` reads an option; a missing section or option reads as "";
  - `get_whitelist`, `get_envlist`, `get_deps` and `get_commands`.

Everything is pure functions over immutable data:

- Failures are values of `Result`. Each Python exception is a constructor
  of `Outcomes.Error`: `NotImplementedError`, `KeyError`,
  `NoSectionError`, `NoOptionError`, and the `TypeError` that `_get`
  raises for a keyword argument.
- Each substitution provider answers with `Provided`:
  - `NotApplicable` when it raises `ValueError` to pass the placeholder on;
  - `Failed` when its exception escapes;
  - `Value` when it returns a value.
- The regular expressions are written as explicit scanners over positions:
  - `{[^{}]*}` is `Braces.GroupAt` / `NextSpan` / `Spans`;
  - `\s*,\s*` is `Braces.SeparatorAt`;
  - `\s*:\s*` is `Text.SplitAround`;
  - the `split_on` token pattern is `Quoting.UnitAt` / `RawTokens`;
  - `\[(.*?)\](.*)` is `Subst.ParseConfigRef`.
- `os.environ` and the positional arguments are the fields of
  `Environments.Host`. `_replace_posargs` imports `positional_args` from
  `ctox.main` (ctox/subst.py:204), but ctox/main.py defines no such
  function, so as written that import raises `ImportError`. The model
  instead takes the list `positional_args(env.options)` would return as
  the parameter `Host.positionalArgs`. `Environments.PolicyAgreesWithTests`
  gives one function that agrees with tests/test_main.py.
- Python whitespace (`\s`, `str.strip`, `str.split()`) is the Unicode
  `isspace` set, `Text.IsSpace`.

Modules:

| file | module | models |
|---|---|---|
| outcomes.dfy | Outcomes | exceptions as `Error`, `Result`, `Option`, `AllOk` |
| text.dfy | Text | `str.strip`, `str.split(c)`, `str.split()`, `re.split(r"\s*C\s*")`, `join` |
| braces.dfy | Braces | `expand_curlys`, `_replace_curly`, `_split_out_of_braces`, `bash_expand`, `parse_envlist` |
| environments.dfy | Environments | the environment, the parsed config, the process |
| factors.dfy | Factors | `matches_factor_conditions`, `expand_factor_conditions` |
| quoting.dfy | Quoting | `split_on`, `_strip_speechmarks` |
| subst.dfy | Subst | `_replace_envvar`, `_replace_config`, `_replace_posargs`, `_replace_match`, `replace_braces` |
| toxconfig.dfy | ToxConfig | `_get`, `get_whitelist`, `get_envlist`, `get_deps`, `get_commands` |
| vectors.dfy | Vectors | the examples of `tests/test_subst.py` and of the docstrings |

`split_on` drops an unterminated quote character, because no token of its
pattern matches it.

The `_split_out_of_braces` docstring (`ctox/subst.py:73-74`) shows `py32`
still attached to the first part. The code splits it off, and the model
follows the code: `Vectors.EnvlistParts` shows that split.

The `tests/test_subst.py` examples for `replace_braces` are stated at the
level of `_replace_match` (`Vectors.AttrToxdir`, `Vectors.EnvvarUser`, …).
`Vectors.ResolvesTo` lifts each of them to `replace_braces`. It says that
a text made of one placeholder, whose value holds no `{`, has exactly that
value after all five passes.

## Model

| member | source | states |
|---|---|---|
| Outcomes.AllOk | ctox/config.py:54-57 | a list comprehension whose elements may raise: every value in order, or the first exception with all earlier elements successful |
| Text.Strip | ctox/subst.py:157 | the result of `strip()` neither starts nor ends with whitespace |
| Text.StripIsSlice | ctox/subst.py:157 | `strip()` removes a run of whitespace at each end and nothing else: the result is the characters of `s` between a whitespace prefix and a whitespace suffix |
| Text.Split | ctox/config.py:36 | `split("\n")` gives at least one piece, no piece holds the separator, and the pieces joined with it are the input |
| Text.SplitJoin | ctox/config.py:36 | splitting the join of separator-free pieces gives those pieces back |
| Text.SplitCount | ctox/config.py:36 | `split(c)` gives one more piece than there are separators |
| Text.SplitAround | ctox/subst.py:102 | `re.split(r'\s*:\s*')`: at least one piece, no piece holds the colon, the first piece is a prefix, the whitespace around each colon is dropped |
| Text.SplitAroundCount | ctox/subst.py:101-104 | the split has one piece more than the colons, so the two-name unpacking fails unless there is exactly one colon |
| Text.SplitAroundCons | ctox/subst.py:102 | `a W1 : W2 b`, with `a` colon-free and not ending in whitespace, W1 and W2 whitespace and `b` not starting with whitespace, splits into `a` followed by the pieces of `b` |
| Text.SplitAroundJoin | ctox/subst.py:102 | pieces joined by a colon with any whitespace around it split back into those pieces, when no piece holds the colon, none has whitespace next to a separator and no inner piece is empty |
| Text.SplitAroundOne | ctox/subst.py:102 | `a:b` splits into `a` right-trimmed and `b` left-trimmed |
| Text.SplitAroundLastIsSuffix | ctox/subst.py:102 | the last piece is a suffix of the input |
| Text.SplitWs | ctox/config.py:59 | `split()` yields only non-empty words without whitespace |
| Text.SplitWsCons | ctox/config.py:59 | whitespace, then a word, then text that is empty or starts with whitespace: `split()` gives the word followed by the words of the rest |
| Text.SplitWsJoin | ctox/config.py:59 | `split()` of words joined by spaces gives the words back |
| Braces.GroupAt | ctox/subst.py:43 | a match of `{[^{}]*}` starts at `i` exactly when a brace-free group opens there, and it ends at the first closing brace |
| Braces.NextSpan | ctox/subst.py:43 | the next match is the leftmost group at or after the position, with no group before it |
| Braces.Spans | ctox/subst.py:43 | `re.finditer` gives groups at or after the position, in order and without overlap, with no group skipped before the first, between two or after the last; none exactly when the text holds no group |
| Braces.Alternatives | ctox/subst.py:50 | `re.split(r"\s*,\s*", …)` of a group's contents gives at least one alternative and none holds a comma |
| Braces.AlternativesJoin | ctox/subst.py:50 | the contents of a group written as alternatives joined by a comma with any whitespace around it split back into those alternatives |
| Braces.ReplaceCurly | ctox/subst.py:47-51 | `_replace_curly` yields one entry per alternative per current expansion |
| Braces.CrossAt | ctox/subst.py:49-51 | in the product, with n rests, entry `i * n + j` is prefix + alternative `i` + rest `j`: the leftmost group varies slowest |
| Braces.ReduceIsExpand | ctox/subst.py:44 | folding `_replace_curly` over the groups from the right, from any position, equals the recursive Cartesian product of the alternatives |
| Braces.ExpandCurlysIsProduct | ctox/subst.py:33-44 | `expand_curlys` is the Cartesian product of the groups' alternatives, in left-to-right order |
| Braces.ExpandCurlysLength | ctox/subst.py:43-44 | `expand_curlys` yields the product of the groups' alternative counts |
| Braces.ExpandCurlysNoBrace | ctox/subst.py:43-44 | a text holding no group, such as one without `{` or with an unclosed `{`, expands to itself alone |
| Braces.SplitOutOfBraces | ctox/subst.py:69-86 | `_split_out_of_braces` never yields an empty part |
| Braces.SplitOutOfBracesJoin | ctox/subst.py:69-86 | parts joined by a comma with any whitespace around it are split back into those parts, commas inside `{…}` not splitting, when each part is non-empty, has no whitespace at either end and scans as one top-level piece |
| Braces.SplitOutOfBracesCommas | ctox/subst.py:69-86 | the same for parts joined by `,` and by `, ` |
| Braces.ExpandAllPlain | ctox/subst.py:54-66 | parts without `{` expand to themselves, in order |
| Braces.ExpandAllMember | ctox/subst.py:54-66 | `bash_expand` produces a name exactly when some top-level part expands to it |
| Braces.ExpandAllLength | ctox/subst.py:66 | `bash_expand` yields the sum of the parts' expansion counts |
| Environments.LeadingPositional | tests/test_main.py:12-16 | the tokens before the first one starting with `-`, and the token after them is such a flag |
| Environments.PolicyAgreesWithTests | tests/test_main.py:12-22 | a `positional_args` that meets both of its tests exists |
| Factors.EnvLabels | ctox/subst.py:114 | the labels of a name hold no dash and join back to the name with dashes |
| Factors.EnvLabelsOfJoin | ctox/subst.py:114 | dash-free labels joined with dashes are split back into those labels |
| Factors.Intersects | ctox/subst.py:116 | `bool(set(xs) & set(ys))` holds exactly when the collections share an element |
| Factors.MatchesFactorConditions | ctox/subst.py:112-116 | a factor matches exactly when one of its expanded labels is a label of the environment name |
| Factors.ExpandFactorConditions | ctox/subst.py:89-109 | a line without exactly one colon is kept; otherwise the result is "" or a suffix of the line |
| Factors.ExpandFactorConditionsLine | ctox/subst.py:101-109 | `FACTOR:VALUE` gives VALUE (left-trimmed) when the right-trimmed FACTOR matches, else "" |
| Quoting.Find | ctox/subst.py:121 | the first occurrence of the closing quote at or after a position |
| Quoting.UnitAt | ctox/subst.py:121 | the token pattern's next unit is a plain character or a whole quoted run, and never empty |
| Quoting.UnitsFrom | ctox/subst.py:121 | the units read greedily tile a prefix of the text, and there are none exactly when none starts it |
| Quoting.UnitsFromTiles | ctox/subst.py:121 | units followed by a non-unit are read back as exactly those units |
| Quoting.RawTokens | ctox/subst.py:123 | the odd elements of `re.split(pattern, s)` are non-empty tokens of whole units |
| Quoting.RawTokensJoin | ctox/subst.py:121-123 | tokens joined by the separator are split back into the same tokens |
| Quoting.StripSpeechmarks | ctox/subst.py:126-130 | the first of `'''`, `"""`, `'`, `"` that both starts and ends the token is removed from both ends; a token no mark encloses is kept |
| Quoting.StripTriple | ctox/subst.py:126-130 | `'''x'''` loses its triple quotes |
| Quoting.StripQuoted | ctox/subst.py:126-130 | a token quoted once, with no inner quote of the same kind, loses its quotes |
| Quoting.StripUnquoted | ctox/subst.py:126-130 | a token that does not start with a quote is kept |
| Quoting.SplitOnPlain | ctox/subst.py:119-123 | `split_on` of quote-free words joined by the separator gives the words back |
| Quoting.SplitOnQuoted | tests/test_subst.py:60-64 | `split_on("a,b,'c,d'", ',')` is `['a', 'b', 'c,d']` |
| Quoting.SplitOnTriple | tests/test_subst.py:66-70 | `split_on("a,b,'''c,d'''", ',')` is `['a', 'b', 'c,d']` |
| Subst.ReplaceEnvvar | ctox/subst.py:176-185 | only `env:` placeholders with one or two colons apply, and the only failure is `KeyError(KEY)` for `env:KEY` with KEY unset |
| Subst.EnvvarLookup | ctox/subst.py:181-183 | `env:KEY` is the variable's value, or `KeyError(KEY)` |
| Subst.EnvvarDefault | ctox/subst.py:184-185 | `env:KEY:DEFAULT` is the variable's value, or DEFAULT |
| Subst.EnvvarApplies | ctox/subst.py:179-180 | every `env:` placeholder with one or two colons is taken by the provider |
| Subst.ParseConfigRef | ctox/subst.py:190-192 | a match of `\[(.*?)\](.*)` splits the text into a bracketed section without `]` or newline, the option up to the line end, and the rest of the text |
| Subst.ParseConfigRefOf | ctox/subst.py:190-192 | `[section]option` is parsed back into that section and option |
| Subst.GetRaw | ctox/subst.py:193 | `config.get` returns the stored value, or `NoSectionError` / `NoOptionError` for what is missing |
| Subst.ExpandLinesPlain | ctox/subst.py:194-195 | a value without colons is returned unchanged |
| Subst.ExpandLinesFactorLine | ctox/subst.py:194-195 | a one-line value `FACTOR:VALUE` gives VALUE (left-trimmed) when the right-trimmed FACTOR matches the environment, else "" |
| Subst.ReplaceConfig | ctox/subst.py:188-197 | the provider applies exactly to `[section]option` placeholders and fails only with a missing section or option |
| Subst.ConfigLookup | ctox/subst.py:188-197 | `[section]option` is the stored value with factor conditions applied line by line, or the lookup's error |
| Subst.ConfigFactorRoundTrip | ctox/subst.py:188-197 | `[section]option` whose stored value is `FACTOR:VALUE` is VALUE (left-trimmed) when FACTOR matches the environment, else "" |
| Subst.ReplacePosargs | ctox/subst.py:200-208 | only `posargs…` placeholders apply, they never fail, and given positional arguments win |
| Subst.PosargsDefault | ctox/subst.py:205-206 | without positional arguments, `posargs:DEFAULT` is DEFAULT |
| Subst.PosargsGiven | ctox/subst.py:205 | with positional arguments, any `posargs` placeholder is the arguments joined by spaces |
| Subst.PosargsBare | ctox/subst.py:206 | bare `posargs` without arguments is "" |
| Subst.ReplaceMatch | ctox/subst.py:153-173 | an attribute name resolves to the attribute; the only errors are `KeyError`, the config lookup errors, and `NotImplementedError` for the stripped contents |
| Subst.Providers | ctox/subst.py:167-173 | the provider chain fails only with `KeyError`, a config lookup error, or `NotImplementedError` naming the contents |
| Subst.ResolveEnvMissing | ctox/subst.py:167-171 | the `KeyError` of `{env:KEY}` escapes `_replace_match` |
| Subst.ResolveEnvDefault | ctox/subst.py:184-185 | `{env:KEY:DEFAULT}` resolves to the variable or DEFAULT |
| Subst.ResolveConfig | ctox/subst.py:188-195 | `{[section]option}` resolves to the looked-up, factor-expanded value or its error |
| Subst.ResolvePosargsDefault | ctox/subst.py:200-206 | `{posargs:DEFAULT}` without arguments resolves to DEFAULT |
| Subst.ResolvePosargsGiven | ctox/subst.py:200-206 | `{posargs:DEFAULT}` with arguments resolves to the joined arguments |
| Subst.ResolveToPosargs | ctox/subst.py:167-169 | contents that are no attribute and not `env:`/`[` reach the posargs provider |
| Subst.ResolveUnknown | ctox/subst.py:173 | contents no provider takes raise `NotImplementedError` |
| Subst.PassNoGroup | ctox/subst.py:149 | a `re.sub` pass over text without a group leaves it unchanged |
| Subst.PassesFixpoint | ctox/subst.py:148-149 | once a pass changes nothing, all further passes change nothing |
| Subst.ReplaceBracesNoGroup | ctox/subst.py:133-150 | `replace_braces` returns text without a group unchanged |
| Subst.PassOneGroup | ctox/subst.py:149 | a pass replaces the only group with its resolution and does not rescan the replacement |
| Subst.PassNested | ctox/subst.py:141-143 | nested braces resolve inside out: a pass replaces only the inner group |
| Subst.ReplaceBracesOnce | ctox/subst.py:146-150 | one placeholder whose value holds no `{` resolves in the first pass and stays resolved |
| Subst.ChainPasses | ctox/subst.py:148-149 | `n` passes follow `n` links of a chain of config references |
| Subst.ReplaceBracesStopsAtDepth | ctox/subst.py:11 | after `DEPTH` = 5 passes a longer chain of references is left unresolved, though one more pass would still change it |
| Subst.SelfReferenceStaysLiteral | ctox/subst.py:148-150 | an option that refers to itself stays its own placeholder |
| ToxConfig.Get | ctox/config.py:23-32 | a keyword argument raises; otherwise the stored value, or "" for a missing section or option |
| ToxConfig.GetAbsorbsLookupErrors | ctox/config.py:26-32 | `_get` turns both lookup errors into "" and passes values through |
| ToxConfig.GetWhitelist | ctox/config.py:35-36 | the whitelist is the lines of the option: newline-free and joining back to it |
| ToxConfig.WhitelistAbsent | ctox/config.py:35-36 | without the option the whitelist is `[""]` |
| ToxConfig.WhitelistLines | ctox/config.py:36 | a value written as lines gives back exactly those lines |
| ToxConfig.GetEnvlist | ctox/config.py:44-46 | a name is listed exactly when some top-level part of the `envlist` value brace-expands to it |
| ToxConfig.EnvlistNames | ctox/config.py:44-46 | an `envlist` of plain names separated by `,` or `, ` lists those names, in order |
| ToxConfig.EnvlistAbsent | ctox/config.py:44-46 | without an `envlist` option the list of environments is empty |
| ToxConfig.EnvOption | ctox/config.py:51-52 | the `testenv:NAME` value when it is non-empty, else the `testenv` value |
| ToxConfig.DropEmpty | ctox/config.py:56-57 | the `if d` filter keeps exactly the non-empty lines |
| ToxConfig.DropEmptyAppend | ctox/config.py:56-57 | the `if d` filter works line by line: filtering two lists in a row is filtering each and concatenating |
| ToxConfig.DropEmptyOne | ctox/config.py:56-57 | one line is dropped exactly when it is empty |
| ToxConfig.DropEmptyKeeps | ctox/config.py:56-57 | lines that are all non-empty pass through unchanged |
| ToxConfig.ResolveLines | ctox/config.py:54-57 | all lines resolve in order, or the first failure escapes |
| ToxConfig.ResolvePlain | ctox/config.py:54-57 | lines without colons or braces resolve to themselves |
| ToxConfig.Words | ctox/config.py:59 | the words of all resolved lines are non-empty and contain no whitespace |
| ToxConfig.WordsAppend | ctox/config.py:59 | the words of two lists of lines are the words of the first followed by those of the second |
| ToxConfig.WordsOne | ctox/config.py:59 | the words of one line are its `split()` |
| ToxConfig.WordsOfWords | ctox/config.py:59 | lines that are single words are their own words |
| ToxConfig.DropInstallers | ctox/config.py:59-60 | a word survives exactly when it is not `pip`/`conda` alone or followed by `=<>!` |
| ToxConfig.DropInstallersAppend | ctox/config.py:59-60 | the installer filter works word by word and keeps the order |
| ToxConfig.DropInstallersOne | ctox/config.py:59-60 | one word is dropped exactly when it is an installer |
| ToxConfig.InstallerExamples | ctox/config.py:60 | `pip`, `pip>=7.0`, `conda`, `conda==4` are dropped; `pipenv`, `conda-build`, `nose` are kept |
| ToxConfig.DepsOf | ctox/config.py:54-62 | on success the list starts with `pip`, and every later entry is one non-installer word |
| ToxConfig.DepsOfResolved | ctox/config.py:54-62 | once the lines resolve, the result is `pip` followed by their non-installer words |
| ToxConfig.DepsOfRequirements | ctox/config.py:49-62 | plain one-word requirement lines give `pip` followed by those that are not installers, in order |
| ToxConfig.GetDeps | ctox/config.py:49-62 | `get_deps` starts with `pip` and keeps no installer |
| ToxConfig.GetCommands | ctox/config.py:65-73 | `get_commands` fails exactly when brace resolution of the commands fails, and otherwise splits the resolved text |
| ToxConfig.CommandsOfText | ctox/config.py:71-73 | commands written one per line, words separated by spaces, are read back exactly |
| ToxConfig.CommandLine | ctox/config.py:71 | one command of plain words, written with single spaces, has no newline, quote or brace and splits back into the same words |
| ToxConfig.CommandsRoundTrip | ctox/config.py:65-73 | an environment whose commands option is such text yields exactly those commands |
| Vectors.OneGroup | ctox/subst.py:43-51 | `p{x}q` expands to `p` + each alternative of `x` + `q` |
| Vectors.TwoGroups | ctox/subst.py:43-51 | two groups expand to their product, the first group varying slowest |
| Vectors.BashExpandOneEntry | ctox/subst.py:54-66 | a factor expression with one group between plain words expands like `expand_curlys` |
| Vectors.ExpandCurlysExample | tests/test_subst.py:23-26 | `expand_curlys("py{26, 27}")` is `["py26", "py27"]` |
| Vectors.ExpandCurlysTwoExample | tests/test_subst.py:28-32 | `expand_curlys("py{26, 27}-django{15, 16}")` is the four combinations, in order |
| Vectors.EnvlistParts | ctox/subst.py:69-86 | `{py26,py27}-django{15,16}, py32` splits into two top-level parts |
| Vectors.ParseEnvlistExample | tests/test_subst.py:8-14 | `parse_envlist("{py26,py27}-django{15,16}, py32")` is the five names, in order |
| Vectors.MatchesFactorExample | tests/test_subst.py:48-58 | `py{33, 34}` matches `py34` and not `py26` |
| Vectors.FactorLine | ctox/subst.py:101-109 | `FACTOR: VALUE` for a dash-free name gives VALUE when the name is a label of FACTOR, else "" |
| Vectors.ExpandFactorExample | tests/test_subst.py:34-46 | `py{33,34}: docformatter` gives `docformatter` for `py33` and "" for `py26` |
| Vectors.ResolvesTo | ctox/subst.py:146-150 | a text that is one placeholder has that placeholder's resolution as its `replace_braces` result |
| Vectors.AttrToxdir | tests/test_subst.py:75-79 | `{toxdir}` is the attribute `foo` |
| Vectors.EnvvarUser | tests/test_subst.py:81-86 | `{env:USER:}` is `os.environ.get("USER", "")` |
| Vectors.EnvvarMissingDefault | tests/test_subst.py:88-95 | `{env:NOTAENVKEY:}` with the variable unset is "" |
| Vectors.EnvvarMissing | tests/test_subst.py:97-103 | `{env:NOTAENVKEY}` with the variable unset raises `KeyError` |
| Vectors.PosargsGivenArgs | tests/test_subst.py:113-118 | `{posargs:no posargs passed}` with `arg1 arg2` is `arg1 arg2` |
| Vectors.PosargsNoArgs | tests/test_subst.py:120-125 | `{posargs:no posargs passed}` without arguments is `no posargs passed` |
| Vectors.DefaultKept | ctox/subst.py:205-206 | without arguments, a default with no surrounding blanks is the value as written |
| Vectors.NestedPosargsDefault | ctox/subst.py:138-143 | `echo {posargs:{env:USER:} passed no posargs}` is `echo andy passed no posargs` when USER is `andy` and nothing is passed; it is stated for every text of that shape |

## Left out

- `read_config` and the rest of file reading. The config is given already
  parsed as a map from section to option to raw value. ConfigParser's
  interpolation, its lower-casing of option names and its `DEFAULT`
  section are not modelled.
- `get_changedir` and `parse_commands`. The first calls `config.get` with
  one argument, which fails for any config. The second has an empty body.
- `ctox/main.py`, `ctox/pkg.py` and `ctox/shell.py`: command-line parsing,
  virtualenv creation, installing and running commands. They are I/O and
  process control. ctox/main.py defines no `positional_args`, so the
  `ImportError` that `_replace_posargs` would raise for `{posargs}` is not
  modelled; the arguments are the parameter `Host.positionalArgs`.
- `os.environ` is a parameter (`Host.environ`), read only.
- `getattr(env, s)` is modelled as a lookup in a finite map of string
  attributes. A name that would reach a method or a non-string attribute
  is not modelled.
- `test_replace_braces_config` (tests/test_subst.py:105-111) reads a
  `tox.ini` file that is not part of this model. `Subst.ResolveConfig`
  states the same lookup for any config.
- `split_on` with a separator that is a quote character or a regular
  expression metacharacter. The source builds its pattern by string
  formatting, so such a separator changes the pattern. The model treats
  the separator as one literal character, and the round-trip lemmas
  require that it is not a quote.
- `$` in `(pip|conda)([=<>!]|$)` is read as end of word. Words come from
  `split()`, so they never end in a newline.
- `ToxConfig.Get` takes the section and option as fixed parameters. The
  source forwards any positional arguments to `config.get`; ctox calls it
  only with a section and an option.
- Braces.SplitOutOfBracesJoin: the round trip is stated for parts that
  each scan as one top-level piece, where every `{` that opens no group has
  another brace after it. Parts where an unclosed `{` in one part is closed
  by a `}` in a later one are not covered: `a{b` and `c}` joined by a comma
  form the single group `a{b,c}`.
- ToxConfig.GetDeps: its contract states the shape of the list (`pip`
  first, no installer). Its exact contents are stated by
  `ToxConfig.DepsOfResolved` and `ToxConfig.DepsOfRequirements` for the
  value `DepsOf` receives.
- Vectors.NestedPosargsDefault: the docstring's literal text is proved as
  a general statement about every text of its shape, with `andy` as the
  value of the variable, rather than for the literal alone.
