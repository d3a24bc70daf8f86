# Hardware matcher and resource-spec parser, modelled in Dafny

The project models the core of a hardware-inventory matcher. An inventory is a
list of four-field lines such as `("system", "product", "name", "X1")`. A
*spec* is a four-field pattern:

- `$name` binds a variable to the line's field;
- `$$name` binds a variable that is also published to a second dictionary;
- `func(args)` calls one of the registered predicates (`range`, `gt`, `ge`,
  `lt`, `le`, `not`, `and`, `or`, `network`, `regexp`, `in`) on the line's field;
- `$name=func(args)` binds only when the predicate holds;
- any other text must equal the field.

The model covers:

- **Expression evaluation** (`Expr`): the call syntax `name(a1, a2, ...)`,
  including the regular expression's greedy and backtracking
  behaviour. It also covers `_call_func` and `_extract_result`, including the
  implicit first argument, which is itself re-evaluated, and the number reading of
  `float()`.
- **`match_spec`** (`Matcher`): the fast path for a line equal to the spec, and
  the four-field loop with its `for ... else`. It models the held-back bindings,
  the `_adder` and `_appender` stores, and deletion of the taken line. The pool
  and the variable dictionary are classes updated in place (`Pool`, `Env`).
- **`match_multiple`** (`Matcher`): rounds of `match_spec` with `_appender`.
- **`match_all`** (`Search`): the backtracking search over choice points, with
  its depth bound of 50, the retry whose dictionary is laid over the caller's
  (`arr[k] = new_arr[k]` for each of its keys), and the final rename of
  `$`-keys, modelled as a simultaneous rename (see "Left out").
- **`generate_filename_and_macs`** (`Client`): the DMI-based file name and the
  MAC address gathering.
- **`Repository._parse_spec`** (`Repository`): parsing a resource spec
  `repo/name:signversion` into its four-key dictionary.

Python exceptions are values of `Result` (`Outcomes`). None of the modelled
code catches an exception apart from `_appender`'s `KeyError`, so each one the
model raises propagates. Two exceptions of the code are not raised by the
model, and both are listed under "Left out": the `RuntimeError` of the rename
loop in `match_all`, and the `TypeError` of a field that names a `_`-prefixed
module global other than the eleven predicates (`HAS_IPADDR(1)` calls the
boolean `_HAS_IPADDR`), where the model rejects the line.

Apart from the rename loop and the other points under "Left out" (`float()`
reading integers only, `\s` and `\w` on ASCII only, other `_` globals,
levels above 50, aliased dictionaries), the model follows the code, including
where it behaves differently from what its documentation suggests:

- A `$v=pred` field whose predicate fails is compared literally with the whole
  spec text (`result/llama/success/107.py:150`), so in practice it rejects the
  line rather than being tolerated.
- An exception raised by a predicate propagates out of `match_spec`. It does
  not merely reject the candidate.
- A call of an unregistered name in a field without `$` rejects every line
  (`result/llama/success/107.py:143-144`). `_extract_result` reads the same
  text as a literal.
- Line 233 of `generate_filename_and_macs` assigns where the other steps
  append, so a product name replaces the vendor part of the file name.
- A spec line that is itself in the inventory is taken by the fast path and
  binds nothing, so reading `sysprodvendor` then raises `KeyError`.
- `_parse_spec` looks for a two-character sign anywhere in the version but
  cuts it from the version's start.

`_network` and `_regexp` call into Python libraries (`ipaddress`, `re`). They
are parameters of the model (`Expr.Foreign`). Debug output on stderr and the
warning log are not modelled.

## Model

| member | source | states |
|---|---|---|
| Text.Find | result/llama/success/107.py:113-116 | the first position holding the value, or none exactly when the value is absent |
| Text.Remove | result/llama/success/107.py:116 | `del lines[i]`: the elements before `i` stay, the later ones shift down one, and the multiset loses exactly `s[i]` |
| Text.StripQuotes | result/llama/success/107.py:93 | the result is the slice of the text left once the runs of quote characters at both ends are cut: everything cut is a quote and neither kept end is one |
| Text.SplitOn | result/llama/success/107.py:123 | `split("=")`: the pieces hold no separator and joining them gives the text back |
| Text.SplitJoin | result/llama/success/107.py:123 | splitting a join of separator-free pieces gives the pieces back |
| Text.WordChars | result/llama/success/107.py:231 | `re.sub("\W+", "", s)` leaves only word characters and never lengthens the text |
| Text.WordCharsConcat | result/llama/success/107.py:231 | dropping the non-word characters of a concatenation drops them from each part, so the kept characters stay in their order |
| Text.WordCharsCount | result/llama/success/107.py:231 | every word character of the text is kept as often as it occurs |
| Text.ReplaceChar | result/llama/success/107.py:237 | `replace(":", "-")` changes each `:` to `-` and nothing else, keeping the length |
| Expr.Lookup | result/llama/success/107.py:102-103 | a found predicate has exactly that name; none is found only when no predicate has it |
| Expr.Truthy | result/llama/success/107.py:136 | Python truthiness: a text is true exactly when it is not empty, a bool is itself; `NotNegates` and `PredicateField` use it as `not` and `if` do |
| Expr.Trimmed | result/llama/success/107.py:29-49 | `float()` ignores white space at both ends: the text kept is the slice between the leading and the trailing run of ASCII white space (`str.isspace`), and neither kept end is white space |
| Expr.ReadInteger | result/llama/success/107.py:29-49 | without white space around it, a text is read as a number exactly when it is a run of digits with single `_` separators between two digits, after at most one sign |
| Expr.ParseNumber | result/llama/success/107.py:29-49 | `float(s)` on an integer text: the stripped text read as an integer; its properties are those of `Trimmed`, `ReadInteger`, `ParsePadded`, `NumberChars` and the separator lemmas |
| Expr.ParsePadded | result/llama/success/107.py:29-49 | white space around a number text changes nothing: `float(" 5 ")` reads as `float("5")` |
| Expr.NumberChars | result/llama/success/107.py:29-49 | a text read as a number holds only white space, digits, `_` and signs |
| Expr.SeparatorSkipped | result/llama/success/107.py:29-49 | a `_` between two digit runs is skipped in the value: `float("1_000")` is `float("1000")` |
| Expr.SeparatorJoins | result/llama/success/107.py:29-49 | two digit runs joined by one `_` are again a number text |
| Expr.ParseShow | result/llama/success/107.py:29-49 | reading back a rendered integer gives the integer |
| Expr.ToNumber | result/llama/success/107.py:29-49 | `float()` of a text succeeds exactly when `ParseNumber` reads it (white space around it, an optional sign, digits with single `_` separators) and otherwise raises `ValueError` |
| Expr.SplitArgs | result/llama/success/107.py:92 | `re.split("\s*,\s*", ...)` yields at least one piece, none longer than the text |
| Expr.ParseCall | result/llama/success/107.py:85 | a recognised call has a non-empty name without `(` and at least one argument, each shorter than the text |
| Expr.FirstGroup | result/llama/success/107.py:85 | `\s*([^,]+)`: the first group and the comma after it lie inside the text |
| Expr.ParseRest | result/llama/success/107.py:85 | `(?:\s*,\s*(.+))?` then `re.split`: at least one piece, none longer than the text after the comma; a newline makes no match |
| Expr.ParseInner | result/llama/success/107.py:85 | the argument groups of `_FUNC_REGEXP`: at least one argument, none longer than the text; `ParseInnerJoin`, `ParseInnerComma` and `ParseInnerMany` give what is read for joined arguments |
| Expr.ParseRender | result/llama/success/107.py:85 | recognising a rendered call with simple arguments gives back its name and arguments |
| Expr.ParseInnerPadded | result/llama/success/107.py:85 | the `\s*` before the first group skips every leading white-space character, U+001C to U+001F included, so a single argument after it is read without it |
| Expr.ParseInnerJoin | result/llama/success/107.py:85 | simple arguments joined by commas are read back as written |
| Expr.SplitArgsJoin | result/llama/success/107.py:92 | simple arguments after the first come back from the split |
| Expr.Apply | result/llama/success/107.py:27-82 | a helper called with the wrong number of arguments raises `TypeError`; every helper but `and` and `or` returns a bool, and those two return one of their operands |
| Expr.ImplicitArg | result/llama/success/107.py:90-94 | the implicit value evaluates exactly when its stripped text is not a registered call, and then to that text; otherwise the recursion never ends |
| Expr.Extract | result/llama/success/107.py:98-108 | a text that is not a registered call is returned as it is; a call whose implicit value is itself a call raises `RecursionError`; only `and` and `or` can return a text |
| Expr.CallFunc | result/llama/success/107.py:88-95 | a self-referring implicit value raises `RecursionError`; every predicate except `and` and `or` returns a bool |
| Expr.EvalArgs | result/llama/success/107.py:94 | evaluating the arguments keeps one value per argument |
| Expr.EvalRendered | result/llama/success/107.py:98-104 | a rendered call of a registered predicate is parsed back and evaluated by `_call_func` on its own arguments |
| Expr.NoParenIsLiteral | result/llama/success/107.py:106-108 | a text without `(` is a literal |
| Expr.EvalArgsStripped | result/llama/success/107.py:93-94 | the argument values depend only on the quote-stripped texts |
| Expr.EvalCall | result/llama/success/107.py:88-104 | a rendered call with a plain implicit value applies the predicate to that value and the evaluated arguments |
| Expr.ApplyIn | result/llama/success/107.py:80-82 | `_in(elt, *lst)` is `True` exactly when the implicit value equals one of the other arguments |
| Expr.ApplyNetwork | result/llama/success/107.py:67-72 | `network` gives back the library's answer for the implicit value and the network, or its exception |
| Expr.ApplyRegexp | result/llama/success/107.py:75-77 | `regexp` gives back whether `re.search` finds the pattern in the implicit value, or its exception |
| Expr.NotNegates | result/llama/success/107.py:52-54 | `not(e)` is the negated truthiness of `e`, and `e`'s exception propagates |
| Expr.AndOperands | result/llama/success/107.py:57-59 | `and(a,b)` evaluates both operands, then gives `b` when `a` is truthy and `a` otherwise |
| Expr.OrOperands | result/llama/success/107.py:62-64 | `or(a,b)` evaluates both operands, then gives `a` when it is truthy and `b` otherwise |
| Expr.CompareImplicit | result/llama/success/107.py:32-49 | `gt`, `ge`, `lt`, `le` compare the numeric field value with their argument |
| Expr.RangeImplicit | result/llama/success/107.py:27-29 | `range(lo,hi)` holds exactly when the field value lies between the bounds, both included |
| Expr.CallFuncArgs | result/llama/success/107.py:88-95 | two calls whose written arguments evaluate alike give the same value |
| Expr.Quoted | result/llama/success/107.py:93 | each argument is wrapped in single quotes |
| Expr.QuotesAreTransparent | result/llama/success/107.py:93 | quoting the arguments of a call does not change its value |
| Matcher.Decompose | result/llama/success/107.py:122-130 | a `$`-field with exactly one `=` is cut there into a `$`-name and a function text, both free of `=`; every other field is both |
| Matcher.ProbeCall | result/llama/success/107.py:131-136 | a field text ending in `)` that `_FUNC_REGEXP` matches with a registered name is called on the field value; `ProbeIsExtract` states it agrees with `_extract_result` |
| Matcher.Conclude | result/llama/success/107.py:137-151 | once the probe is known: a binding is made only for a `$` name, under that name without its `$`, and with `_adder` never contradicts a bound value |
| Matcher.Settle | result/llama/success/107.py:145-151 | a binding is made only for a `$` name, under that name without its `$` |
| Matcher.FieldCheck | result/llama/success/107.py:122-151 | an empty spec field raises `IndexError`; a binding comes from a `$` field and, with `_adder`, never contradicts a value already bound |
| Matcher.Judge | result/llama/success/107.py:121-151 | the verdict of each of the four fields as a function of its index; `ScanAgree` states that the loop depends on nothing else |
| Matcher.CheckLine | result/llama/success/107.py:121-152 | the field loop for one candidate line; `FitsIffAllAccept`, `StopWitness`, `HeldSound` and `HeldComplete` state what its result means |
| Matcher.Scan | result/llama/success/107.py:121-152 | the bindings held back so far stay a prefix of those returned |
| Matcher.FitsIffAllAccept | result/llama/success/107.py:121-152 | the loop reaches its `else` exactly when every field passes |
| Matcher.StopWitness | result/llama/success/107.py:137-151 | a broken loop names the field that broke it, an exception names the field that raised it, and every earlier field passed |
| Matcher.HeldSound | result/llama/success/107.py:149 | every held-back binding is a name a field bound, with that field's value |
| Matcher.HeldComplete | result/llama/success/107.py:149 | every field that binds contributes its pair |
| Matcher.ProbeIsExtract | result/llama/success/107.py:131-136 | the field's call probe agrees with `_extract_result` on registered calls and evaluates nothing else |
| Matcher.LiteralField | result/llama/success/107.py:150-151 | a plain field passes exactly on its own text |
| Matcher.VariableField | result/llama/success/107.py:145-149 | `$name` binds `name` to the field, and with `_adder` an already bound name admits only its value |
| Matcher.PredicateField | result/llama/success/107.py:136-141 | a registered call without `$` passes exactly when the predicate is truthy on the field; its exceptions propagate |
| Matcher.UnknownCallField | result/llama/success/107.py:143-144 | an unregistered call without `$` rejects every line |
| Matcher.GuardedField | result/llama/success/107.py:124-150 | `$name=f(...)` binds when the predicate holds; otherwise the field is compared with the whole spec text |
| Matcher.RegisteredNotVariable | result/llama/success/107.py:137-143 | a registered call is never a variable name |
| Matcher.Store | result/llama/success/107.py:14-24 | `_adder` overwrites; `_appender` appends, starts a one-element list for a new key, raises `AttributeError` on a text; no other key changes |
| Matcher.Commit | result/llama/success/107.py:153-154 | storing with `_adder` never raises |
| Matcher.CommitOverwriteFrame | result/llama/success/107.py:153-154 | with `_adder`, exactly the bound keys are added and every other variable is kept |
| Matcher.CommitLastWins | result/llama/success/107.py:153-154 | with `_adder`, a variable bound several times ends with its last value |
| Matcher.CommitFrame | result/llama/success/107.py:153-154 | storing leaves every variable outside the bindings unchanged and adds no other key |
| Matcher.CommitAppendsOk | result/llama/success/107.py:19-24 | with `_appender`, storing succeeds when no bound variable holds a text |
| Matcher.CommitAppends | result/llama/success/107.py:19-24 | with `_appender`, each bound variable's list gains its values in line order |
| Matcher.CommitAppendOnText | result/llama/success/107.py:22 | with `_appender`, a bound variable holding a text stops storing with `AttributeError` |
| Matcher.SearchShape | result/llama/success/107.py:118-158 | a found line leaves the pool one shorter and the multiset loses exactly it; nothing found leaves pool and variables as they were |
| Matcher.SearchFrom | result/llama/success/107.py:118-158 | the candidate loop from `lidx` on; `SearchTakesFirst` and `SearchFoundIsFirst` state that it takes exactly the first passing line |
| Matcher.SpecMatch | result/llama/success/107.py:111-158 | the same for the whole `match_spec`, fast path included |
| Matcher.FastPath | result/llama/success/107.py:113-117 | the first line equal to the spec is returned and deleted, binding nothing |
| Matcher.NoMatchIff | result/llama/success/107.py:111-158 | `False` exactly when no line equals the spec and no line passes or raises, with pool and variables unchanged |
| Matcher.SearchTakesFirst | result/llama/success/107.py:118-157 | the first passing candidate is taken, with its bindings stored and the line deleted |
| Matcher.SearchFoundIsFirst | result/llama/success/107.py:118-157 | conversely, a found line is such a first passing candidate |
| Matcher.GeneralMatch | result/llama/success/107.py:118-158 | without an equal line, a line is returned exactly when it is the first that passes, and in that case the result is that line with its bindings stored |
| Matcher.FitAccepts | result/llama/success/107.py:150-151 | in a passing line every literal spec field equals the line's field |
| Matcher.FitVariable | result/llama/success/107.py:145-149 | in a passing line a `$name` field records `name` with the line's field, consistent under `_adder` |
| Matcher.FitBindingsSound | result/llama/success/107.py:145-149 | every recorded binding comes from a `$` field of the spec, with its name and the line's value |
| Matcher.SpecKeys | result/llama/success/107.py:122-149 | the names a spec can bind are the `$`-fields' names without `$` |
| Matcher.SearchFrame | result/llama/success/107.py:118-158 | the search changes no variable outside the names the candidates bind |
| Matcher.SpecMatchFrame | result/llama/success/107.py:111-158 | `match_spec` changes no variable its spec does not name |
| Matcher.FieldStable | result/llama/success/107.py:122-151 | with `_adder`, a field that passes gives the same verdict under any dictionary holding its value for the name it binds |
| Matcher.ConcludeStable | result/llama/success/107.py:137-151 | the same once the field's call probe is known |
| Matcher.ScanAgree | result/llama/success/107.py:121-152 | the field loop depends only on the verdicts of the four fields |
| Matcher.CheckStable | result/llama/success/107.py:121-152 | a line that passes with `_adder` passes with the same bindings under any dictionary in which each name it binds is unbound or holds its value |
| Matcher.FitsExtend | result/llama/success/107.py:111-158 | a line that fits a spec under a dictionary keeps fitting as the dictionary grows |
| Matcher.HeldConsistent | result/llama/success/107.py:145-149 | in a passing line of a spec that binds each name once, every held-back binding agrees with the dictionary and with every other binding of the same name |
| Matcher.CommitSameValue | result/llama/success/107.py:153-154 | with `_adder`, bindings that all give a name the same value leave it holding that value |
| Matcher.TakenFits | result/llama/success/107.py:118-157 | with `_adder`, a passing line of a spec that binds each name once fits under the dictionary its bindings leave, which keeps every old binding |
| Matcher.MatchFits | result/llama/success/107.py:111-158 | with `_adder` and a spec binding each name once, a line found fits the spec under the new dictionary, which keeps every old binding |
| Matcher.TaggedLine | result/llama/success/107.py:118-157 | a spec of three literals and one `$name` takes the first line carrying the literals, when the name is unbound or already holds its value, and binds it |
| Matcher.TaggedReject | result/llama/success/107.py:121-152 | such a spec rejects a line that differs in a literal, or whose last field disagrees with the bound name |
| Matcher.RepeatedVariableUnchecked | result/llama/success/107.py:146-149 | `($a, $a, x, y)` accepts `(1, 2, x, y)` under `_adder`: names are checked only against earlier calls, and the last value wins |
| Matcher.Pool.Delete | result/llama/success/107.py:116 | `del lines[i]` on the list in place |
| Matcher.Env.Add | result/llama/success/107.py:14-16 | `_adder` on the dictionary in place |
| Matcher.Env.Append | result/llama/success/107.py:19-24 | `_appender` in place; on `AttributeError` the dictionary is unchanged |
| Matcher.Env.StoreAll | result/llama/success/107.py:153-154 | the held-back bindings stored in place, in order, stopping at the first exception |
| Matcher.CheckFields | result/llama/success/107.py:121-152 | the loop over the four fields gives the held-back bindings when every field passes, none when one breaks the loop, and the first exception otherwise, as the field loop specification says |
| Matcher.SearchPool | result/llama/success/107.py:118-158 | the field-by-field search in place: the result, the new dictionary and the new list are those of the search specification on the state before the call |
| Matcher.MatchSpec | result/llama/success/107.py:111-158 | `match_spec` on the list and dictionary in place: the result, the new dictionary and the new list are those of the specification |
| Matcher.Multiple | result/llama/success/107.py:209-215 | `False` only when no round has matched |
| Matcher.MultipleFalseIff | result/llama/success/107.py:209-215 | `False` exactly when the first round finds nothing, and then the dictionary is unchanged |
| Matcher.MultipleKeepsTrue | result/llama/success/107.py:213-215 | once a round matched, the result stays `True` unless an exception is raised |
| Matcher.AppendFieldFree | result/llama/success/107.py:145-149 | with `_appender`, no field's verdict depends on the dictionary |
| Matcher.AppendCheckFree | result/llama/success/107.py:121-152 | with `_appender`, whether a line passes, and what it binds, does not depend on the dictionary |
| Matcher.GrownTwice | result/llama/success/107.py:19-24 | appending one list of values and then another appends their concatenation |
| Matcher.CommitGrows | result/llama/success/107.py:153-154 | with `_appender`, storing that raises nothing appends to each variable exactly the values the bindings give it, in order, and binds none that holds a text |
| Matcher.MatchGrows | result/llama/success/107.py:111-158 | with `_appender`, a line `match_spec` finds is one it can take, and each variable gains exactly that line's values |
| Matcher.GatherStep | result/llama/success/107.py:212-215 | a round that takes a line puts it before the lines the later rounds take |
| Matcher.TakenGrows | result/llama/success/107.py:118-157 | with `_appender`, a passing line whose bindings store is one `match_spec` can take, and each variable gains exactly its values |
| Matcher.GatherNone | result/llama/success/107.py:212-215 | a first round that finds nothing ends the run with no line taken and the dictionary unchanged |
| Matcher.MultipleGathers | result/llama/success/107.py:209-215 | a run that raises nothing splits the pool into the lines its rounds took, in order, and the lines left: the result is `True` exactly when a line was taken, each taken line could be taken, every variable's list gains exactly the taken lines' values in order, and no remaining line matches |
| Matcher.MatchMultiple | result/llama/success/107.py:209-215 | `match_multiple` on a copy of the caller's list, which is never shortened: the result and the dictionary are those of the specification, so a run that raises nothing gathers as `MultipleGathers` states |
| Search.Exported | result/llama/success/107.py:200-204 | each `$k` appears under `k`, and nothing else does |
| Search.Published | result/llama/success/107.py:200-205 | every `$k` is moved to `k`, taking the place of an unmarked `k`; every other key is kept |
| Search.Rename | result/llama/success/107.py:200-205 | the simultaneous rename raises exactly when the empty key is bound (`key[0]`), and then with `IndexError` |
| Search.RenameMoves | result/llama/success/107.py:200-205 | each `$k` ends under `k` in both dictionaries; `arr2` keeps its other entries; no unmarked key is lost unless a renamed key took its place |
| Search.SpecMatcherPoolSafe | result/llama/success/107.py:111-158 | a found line shortens the pool by one; nothing found keeps it |
| Search.Merge | result/llama/success/107.py:185-186 | as written, the retry's bindings are laid over `arr`, whose other keys all stay; the replacing hand-over keeps exactly the retry's keys |
| Search.Run | result/llama/success/107.py:171-172 | at level 50 the call returns `False` and changes nothing |
| Search.Loop | result/llama/success/107.py:173-206 | the `while len(specs) > 0` loop: a match remembers a choice point when the dictionary changed, a failed spec starts the retries, the last spec ends with the rename; `LoopSound`, `LoopPublishes` and `LoopNeedsLines` state its properties |
| Search.Retry | result/llama/success/107.py:180-192 | the `while len(points) > 0` loop: the newest point is retried one level deeper and a success is handed over with `Merge`; `RetrySound`, `RetryPublishes` and `RetryLast` state its properties |
| Search.RunPublishes | result/llama/success/107.py:161-206 | `arr2` is written only by the final rename: unchanged unless `True`, and when `True` it is the rename of some dictionary whose published bindings are all in `arr` (exactly them with the replacing hand-over) |
| Search.RunKeeps | result/llama/success/107.py:161-206 | a call that does not return `True` gives `arr2` back unchanged |
| Search.LoopPublishes | result/llama/success/107.py:173-199 | the same for the spec loop |
| Search.RetryPublishes | result/llama/success/107.py:180-192 | the same for the retry loop, whichever hand-over the retries use |
| Search.RunNeedsLines | result/llama/success/107.py:161-206 | `True` only when there are at least as many lines as specs |
| Search.LoopNeedsLines | result/llama/success/107.py:173-199 | the same for the spec loop and its choice points |
| Search.RetryNeedsLines | result/llama/success/107.py:180-192 | the same for the retry loop |
| Search.Advance | result/llama/success/107.py:173-178 | a match that takes a fitting line and keeps every binding moves the spec loop on by one spec and one line |
| Search.Complete | result/llama/success/107.py:179-192 | a successful call from a state of the spec loop completes the caller's solution |
| Search.SpecMatcherFits | result/llama/success/107.py:111-158 | `match_spec` with `_adder` takes, for a spec binding each name once, a line of the pool that fits under the new dictionary, which keeps every old binding |
| Search.RunSound | result/llama/success/107.py:161-206 | for specs that bind each name once, `True` means: some dictionary holding every binding the call started with was published into `arr2` and has all its published bindings in the caller's `arr` after the call, and each spec has a line of the pool of its own, no line used twice, fitting it under that one dictionary, so a variable bound by two specs holds the value both saw |
| Search.LoopSound | result/llama/success/107.py:173-199 | the same from any state of the spec loop, its choice points being such states |
| Search.RetrySound | result/llama/success/107.py:180-192 | the same for the retry loop |
| Search.RetryNewest | result/llama/success/107.py:180-189 | retrying the newest choice point either solves the call or goes on with the older points |
| Search.HitSound | result/llama/success/107.py:182-188 | a retry that returns `True` solves the choice point's state, and so the call, with the published bindings in the retry's `arr` |
| Search.SolvedWider | result/llama/success/107.py:185-186 | a solution's bindings stay in `arr` when the retry's dictionary is laid over it or replaces it |
| Search.RetryLast | result/llama/success/107.py:180-192 | one turn of the retry loop: an exception ends it, `True` hands the retry's dictionary over, `False` goes on with the older points |
| Search.PointAt | result/llama/success/107.py:176-178 | a choice point and the older ones are states of the spec loop |
| Search.Size | result/llama/success/107.py:200 | the live entries of the dictionary's table |
| Search.Slot | result/llama/success/107.py:203-205 | the slot found holds the key |
| Search.SetItem | result/llama/success/107.py:203-204 | a known key keeps its slot; a new key takes a new slot at the end |
| Search.NextLive | result/llama/success/107.py:200 | the first live slot from a position on |
| Search.RenameAsWritten | result/llama/success/107.py:200-205 | the `for key in arr` loop over the CPython table as it is changed, raising `RuntimeError` when its size changes or a key turns up past the remembered count; `RenameRaises` shows it raising for `{"$x": "1"}` |
| Search.RenameRaises | result/llama/success/107.py:200-205 | for `{"$x": "1"}` the loop as written writes `x` into both dictionaries and then raises `RuntimeError` |
| Search.RenameSucceeds | result/llama/success/107.py:200-205 | the simultaneous rename publishes `x` in both dictionaries and removes `$x` |
| Search.IdShape | result/llama/success/107.py:111-158 | the two example specs are three literals and the variable `$id` |
| Search.TakeFirst | result/llama/success/107.py:118-157 | an example spec takes the first line carrying its literals when `$id` is unbound or agrees |
| Search.LoopTakes | result/llama/success/107.py:173-178 | a spec that takes a line moves the loop on, remembering a choice point when the dictionary changed |
| Search.LoopFails | result/llama/success/107.py:179-180 | a spec that finds no line starts the retries |
| Search.RetryHit | result/llama/success/107.py:180-188 | a retry of the only choice point that returns `True` ends the call with the retry's dictionary handed over |
| Search.LoopLast | result/llama/success/107.py:173-205 | a last spec that takes a line without a new binding ends the loop with the rename |
| Search.RenameOne | result/llama/success/107.py:200-205 | publishing a dictionary holding only `$k` into an empty one gives `k` in both |
| Search.IdMatcher | result/llama/success/107.py:111-158 | the four calls of `match_spec` the example makes, with their results |
| Search.FirstTakes | result/llama/success/107.py:118-157 | the first spec takes the first line of each pool it is given |
| Search.SecondTakes | result/llama/success/107.py:118-157 | with `$id = 2` the second spec takes its line |
| Search.SecondFails | result/llama/success/107.py:111-158 | with `$id = 1` the second spec finds no line |
| Search.SecondRejects | result/llama/success/107.py:121-152 | with `$id = 1` the second spec rejects each remaining line |
| Search.FirstPath | result/llama/success/107.py:173-180 | at level 0 the first spec takes the first line, a choice point is remembered, and the second spec fails |
| Search.RetriedRun | result/llama/success/107.py:161-205 | the retry at level 1 matches both specs and publishes `id = 2` |
| Search.RetriedHead | result/llama/success/107.py:173-178 | its first spec takes the second line and binds `$id = 2` |
| Search.RetriedTail | result/llama/success/107.py:173-205 | its second spec takes the third line and `id = 2` is published |
| Search.BacktracksWith | result/llama/success/107.py:161-206 | the whole example for any matcher making those four calls |
| Search.Backtracks | result/llama/success/107.py:161-206 | `match_all` on the example backtracks once and returns `True`, `arr2` holding `id = 2` and `arr` being the hand-over of the retry's dictionary to the abandoned path's |
| Search.StaleKeyKept | result/llama/success/107.py:179-189 | with the hand-over as written, the call on the example returns `True` with `arr` keeping the abandoned path's `$id = 1` next to the published `id = 2` |
| Search.StaleKeyGone | result/llama/success/107.py:179-189 | with the replacing hand-over, `arr` is exactly `id = 2` and holds no `$` key |
| Search.PublishedUnmarked | result/llama/success/107.py:200-205 | after publishing no `$` key remains unless some key had two `$` |
| Search.MatchAllAt | result/llama/success/107.py:161-206 | `match_all` on the dictionaries in place: result and both new dictionaries are those of the backtracking specification with the hand-over as written |
| Search.RetryPoints | result/llama/success/107.py:180-192 | the retry loop in place: result and both dictionaries are those of the retry specification |
| Search.RetryPoint | result/llama/success/107.py:182-184 | one choice point retried one level deeper on fresh copies: the result, its dictionary and `arr2` are those of the specification |
| Search.CopyInto | result/llama/success/107.py:185-186 | `for k in new_arr: arr[k] = new_arr[k]` leaves `arr` overlaid with the retry's dictionary |
| Search.MatchAll | result/llama/success/107.py:161-206 | at level 0: the specification's outcome; `arr2` unchanged unless `True`; `True` needs a line per spec and, for specs binding each name once, means every spec has a line of its own fitting under one dictionary holding the caller's bindings, which was published into `arr2` and whose published bindings are all in `arr` after the call |
| Client.StringAt | result/llama/success/107.py:231-235 | reading `sysvars[key]` succeeds exactly on a bound text |
| Client.Tag | result/llama/success/107.py:231-235 | the word characters of the bound text followed by `-`, exactly when a text is bound |
| Client.FirstSerial | result/llama/success/107.py:237 | `sysvars["serial"][0]` exists only when `serial` is bound, and is the first address gathered |
| Client.Identify | result/llama/success/107.py:230-235 | a step leaves the hardware list as `match_spec` leaves it |
| Client.IdentifyStep | result/llama/success/107.py:230-235 | one step in place: the new list and dictionary, or the exception, of the specification |
| Client.MacStep | result/llama/success/107.py:236-237 | the MAC step in place: the dictionary or exception of the specification, with the hardware list untouched |
| Client.AddMac | result/llama/success/107.py:236-237 | the MAC step on values: when `match_multiple` gathers, the first address with `:` turned into `-` ends `sysname`; `AddMacClean` states that it keeps `sysname` free of `:` |
| Client.FilenameAndMacs | result/llama/success/107.py:218-240 | `generate_filename_and_macs` on values; `GenerateFilenameAndMacs` is proved equal to it, and `NoColon` and `VendorOverwritten` state its properties |
| Client.GenerateFilenameAndMacs | result/llama/success/107.py:218-240 | the whole procedure on a copy of the caller's list computes the specification's dictionary or exception |
| Client.VendorUnbound | result/llama/success/107.py:230 | the vendor spec does not bind `sysname` |
| Client.NameUnbound | result/llama/success/107.py:232 | the product name spec does not bind `sysname` |
| Client.SerialUnbound | result/llama/success/107.py:234 | the serial number spec does not bind `sysname` |
| Client.MacUnbound | result/llama/success/107.py:236 | the MAC address spec does not bind `sysname` |
| Client.MultipleFrame | result/llama/success/107.py:209-215 | `match_multiple` changes no variable its spec does not name |
| Client.IdentifyClean | result/llama/success/107.py:230-235 | a step keeps `sysname` a text without `:` |
| Client.AddMacClean | result/llama/success/107.py:236-237 | so does the MAC step |
| Client.DashedClean | result/llama/success/107.py:237 | a name free of `:` ended by an address with `replace(":", "-")` stays free of `:` |
| Client.NoColon | result/llama/success/107.py:218-240 | the generated name never holds `:` |
| Client.VendorOverwritten | result/llama/success/107.py:230-233 | with a vendor and a product name line, the name is the product name and `-` only, while the vendor stays bound |
| Client.LiteralSpecLine | result/llama/success/107.py:113-117 | an inventory holding the vendor spec itself raises `KeyError` |
| Repository.Cut | result/llama/success/265.py:230-236 | `split(c, 1)`: exactly when `c` occurs, the text before its first occurrence and the rest |
| Repository.ParseText | result/llama/success/265.py:230-249 | the spec text cut at the first `:` and the first `/`, with the sign rules; `ParseRender`, `NoColon`, `NoSlash` and `SignRules` state its properties |
| Repository.Repos | result/llama/success/265.py:235-239 | the repository before the first `/`, or `resources` with the whole text as the name |
| Repository.SignOf | result/llama/success/265.py:240-249 | no version gives `>=`; otherwise the sign and the version put together are the version text, or the sign is `==` with the version untouched |
| Repository.AsRecord | result/llama/success/265.py:250-255 | exactly the four keys, holding the parts, with `None` for a missing version |
| Repository.ParseSpec | result/llama/success/265.py:226-255 | a dictionary comes back as it is; a text gives exactly four keys |
| Repository.NoColon | result/llama/success/265.py:230-241 | without `:` there is no version and the sign is `>=` |
| Repository.NoSlash | result/llama/success/265.py:235-239 | without `/` the repository is `resources` and the name is the whole part |
| Repository.FirstSeparators | result/llama/success/265.py:230-239 | only the first `:` and the first `/` before it separate |
| Repository.SignRules | result/llama/success/265.py:242-249 | the three sign rules, each in the case that selects it |
| Repository.SignByContainment | result/llama/success/265.py:242-244 | `1>=` yields the sign `1>` and the version `=` |
| Repository.SignBack | result/llama/success/265.py:240-249 | a listed sign before a sign-free version is read back as it was |
| Repository.ParseRender | result/llama/success/265.py:226-255 | parsing the rendering of a well-formed spec gives its parts back |

## Left out

- Floating point: `float()` is modelled as integer reading; fractions, exponents, `inf` and `nan` are not read.
- Expr.ToNumber: digits and white space outside ASCII, which `float()` also accepts, are not read, so such a text raises `ValueError` in the model.
- Unicode: `\s` and `\w` match ASCII characters only. On ASCII, `\s` is what `str.isspace` accepts (space, U+0009 to U+000D and U+001C to U+001F) and `\w` is letters, digits and `_`; white space and word characters outside ASCII are not matched.
- `_network` and `_regexp`: they call into `ipaddress` and `re`, so they are parameters of the model; the `_HAS_IPADDR` switch is left out.
- Debug output on stderr and `LOG.warning`: output only.
- The registry holds the eleven predicate helpers. Other `_`-prefixed module globals would be found by `globals()` and called; they are treated as unregistered, so the model rejects the line. Python instead raises `TypeError` for the ones that are not functions (`_HAS_IPADDR`, `_FUNC_REGEXP`, module attributes such as `__name__`), and runs `_adder`, `_appender`, `_call_func` or `_extract_result` on arguments they were not written for.
- Search.RenameAsWritten: the CPython dictionary is assumed never to be resized during the rename.
- Search.Loop: ends a successful spec loop with the simultaneous rename `Rename`, not the loop of lines 200-205 (`RenameAsWritten`). On CPython 3.8 and later that loop raises `RuntimeError` when it meets the key it has just added for a renamed `$` key (`RenameRaises`), after writing `arr2`; in every version, when `arr` holds both `$k` and `k`, deleting `$k` shrinks the dictionary and the next step raises `RuntimeError`; and a bound empty key raises `IndexError` after the keys before it were written to `arr2`. Where the loop raises, the model returns `True` (or raises `IndexError` with `arr2` unchanged).
- Search.MatchAllAt: drives the same simultaneous rename, so it shares Search.Loop's difference from lines 200-205.
- Search.MatchAll: for the same reason, its `arr2 unchanged unless True` and its `True` clauses describe the simultaneous rename; the loop as written can raise after writing `arr2`.
- Search.RunPublishes: states `arr2` for the simultaneous rename, so it does not cover the loop as written raising after writing `arr2` (see Search.Loop).
- Search.LoopPublishes: the same as Search.RunPublishes, for the spec loop.
- Search.RetryPublishes: the same as Search.RunPublishes, for the retry loop.
- Search.RunKeeps: the same as Search.RunPublishes.
- Search.RunSound: requires specs that bind each name at most once (`AllNoRepeat`), because within one spec a repeated name is not checked against itself (`RepeatedVariableUnchecked`), so the line taken need not fit.
- Search.MatchAllAt: requires `level <= 50`. From a deeper level the source would recurse until `RecursionError`.
- Search.MatchAllAt: requires `arr` and `arr2` to be distinct dictionaries; aliasing them is not modelled.
- Repository.ParseSpec: dictionary values are strings or `None`; non-string, non-dictionary arguments are not modelled.
- The rest of the `Repository` class in `result/llama/success/265.py` is not part of this model.

## Findings

| source | as written | input that shows it | evidently intended | confidence | as-written member | corrected member |
|---|---|---|---|---|---|---|
| result/llama/success/107.py:200-205 | the rename loop adds and deletes keys of `arr` while iterating over it, which CPython 3.8 and later refuse with `RuntimeError` after `arr2` was already written | a spec field `$$x` binding `$x`, so `arr == {"$x": "1"}` at the end of `match_all` | every `$k` renamed to `k` in `arr` and copied to `arr2` | not executed | Search.RenameRaises | Search.RenameMoves |
| result/llama/success/107.py:185-186 | after a successful retry, `arr[k] = new_arr[k]` only overlays the retry's bindings, so `$`-keys from the abandoned path survive in `arr`; this shows only where the retry's rename succeeds, that is before CPython 3.8 (from 3.8 on the rename raises first, as in the row above) | specs `(n, s, t, $$id)`, `(m, x, y, $$id)`; lines `(n, s, t, 1)`, `(n, s, t, 2)`, `(m, x, y, 2)`, with `arr` and `arr2` empty | `arr` holds the retry's published bindings (`id = 2`) and no `$` key | not executed | Search.StaleKeyKept | Search.StaleKeyGone |
