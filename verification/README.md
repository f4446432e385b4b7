# ortho dispatch core, modelled in Dafny

This project models the multiple-dispatch engine of `ortho` and a few of
its small helpers.

- **Signature packing.** `introspect_function` (Python 3 branch) turns a
  parameter list into a packed signature. The signature holds the required
  names, a map of defaults and the `**` name. When asked, it also holds the
  `*` name.
- **The matcher.** `signature_match` decides whether a packed signature
  accepts a call: n positional values plus a set of keyword names. Only
  names are compared, never types. `function_accepts_args` introspects a
  function first and then matches.
- **The legacy `Handler`.** It infers a taxonomy from the public methods of
  a class. Each entry holds the required names `base`, the optional names
  `opts` and a `kwargs` flag. `_classify` uses an exact test first. In lax
  mode it falls back to the least spillover among `**`-taking methods, and
  the `**`-only default method breaks ties. `__init__` pops the intercepted
  keywords, classifies, and records the chosen method and the arguments it
  receives.
- **`DispatcherBase` / `Dispatcher`.** Every public method is matched, and
  exactly one may accept the call.
- **The `dispatcher` decorator and `DispatcherFunction`.** Same-named
  definitions accumulate in one multiplexer. At call time the first
  candidate, in registration order, that accepts the call runs.
- **Helpers.** The model also covers:
  - the nested-dictionary helpers `catalog`, `delve` and `delveset`;
  - the command-line parser `cli_args_to_kwargs`;
  - the stream line cleaner `bash_newliner`;
  - function composition `compose`.

Python exceptions become a `Result` whose failure names the exception, in
`DispatchErrors`, `NestedDict.DictError` and `Cli.CliError`. A frame lookup
becomes an explicit scope (`Dispatcher.Scope`). A callable becomes a
`Signature.Func`: its name, its declared parameters, an optional signature
attached in advance, and an opaque tag standing for its code.

Modules, one per source component:

- `Wrappers`, `Values`, `Seqs`, `DispatchErrors`: shared types and helpers.
- `Signature`: `introspect_function`.
- `Matcher`: `signature_match`, `function_accepts_args`.
- `Handler`: `Handler`.
- `Dispatcher`: `DispatcherBase`, `Dispatcher`, `DispatcherFunction`, `dispatcher`.
- `DispatchLaws`: facts relating the entry points to their steps.
- `MatcherExamples`, `DispatchExamples`, `DispatcherExamples`: the scenarios
  of the repository's dispatch tests.
- `NestedDict`: `catalog`, `delve`, `delveset`.
- `Cli`: `cli_args_to_kwargs`.
- `Bash`: `bash_newliner`.
- `Functional`: `compose`.

## Model

| member | source | states |
|---|---|---|
| Signature.ArgNames | ortho/dispatch.py:39-42 | a name is required exactly when some parameter without a default carries it and it is not `self` |
| Signature.ArgNamesAppend | ortho/dispatch.py:39-40 | the required names keep declaration order: extraction distributes over concatenation |
| Signature.DefaultsMap | ortho/dispatch.py:43-45 | the defaults map has one key per defaulted parameter; with distinct names each maps to its own default |
| Signature.DoubleStarNames | ortho/dispatch.py:47-48 | a name is listed exactly when a `**` parameter carries it |
| Signature.StarName | ortho/dispatch.py:53-55 | the `*` name is present exactly when a `*` parameter is declared, and it is that parameter's name |
| Signature.Introspect | ortho/dispatch.py:38-56 | fails exactly when more than one `**` parameter is declared, naming them; otherwise packs the required names, the defaults, the `**` name and (only when asked) the `*` name; a `**` name other than `self` is itself a required name |
| Signature.ArgsAndDefaultsDisjoint | ortho/dispatch.py:39-45 | with distinct parameter names no name is both required and defaulted |
| Signature.DefaultsSkipRequired | ortho/dispatch.py:43-45 | a parameter without a default adds nothing to the defaults |
| Signature.ArgNamesAreLeading | ortho/dispatch.py:39-42 | in a declaration of plain parameters the required names are exactly the leading parameters, in order, and every later parameter has a default |
| Signature.SelfIsInvisible | ortho/dispatch.py:15-42 | a leading `self` packs to the same signature as the remaining parameters |
| Matcher.Accepts | ortho/dispatch.py:302-336 | the reference acceptance condition: the positional values fit the required names, the remaining required names are keywords, and every other keyword is optional; `SignatureMatch` is proved equal to it |
| Matcher.Zip | ortho/dispatch.py:310 | `dict(zip(names, values))` has exactly the names as keys and, for distinct names, maps each to its value |
| Matcher.SignatureMatch | ortho/dispatch.py:302-336 | the matcher, with its leftover test corrected, returns true exactly when the positional values fit the required names, every remaining required name is a keyword, and every other keyword is an optional name |
| Matcher.PopRequired | ortho/dispatch.py:315-323 | the popping loop succeeds exactly when every required name past the positional ones is a keyword, and then leaves the keywords minus the required names |
| Matcher.PopStep | ortho/dispatch.py:320-321 | one round removes exactly the next required name |
| Matcher.LeftoverIsUnknownKeywords | ortho/dispatch.py:324-336 | after the loop, an empty leftover outside the optional names is equivalent to acceptance |
| Matcher.SignatureMatchAsWritten | ortho/dispatch.py:302-336 | the matcher with the source's `any(...)` leftover test: acceptance still implies the positional and required-name conditions |
| Matcher.AsWrittenAgreesWithoutEmptyKeyword | ortho/dispatch.py:334 | the as-written test and the intended one agree on every call without an unknown `''` keyword |
| Matcher.EmptyKeywordSlipsThrough | ortho/dispatch.py:334 | a call whose only keyword is `''` passes the as-written test against a signature with no parameters, though it is not accepted |
| Matcher.DoubleBindingNotRejected | ortho/dispatch.py:308-311 | supplying a positionally bound name again by keyword never turns acceptance into rejection |
| Matcher.Bindings | ortho/dispatch.py:308-311 | the merged dictionary of `signature_match`: the defaults, overridden by the keywords, overridden by the positional values zipped with the first required names |
| Matcher.BindingsFollowDeclaration | ortho/dispatch.py:308-311 | for a declaration of plain parameters only, the merged dictionary is Python's own binding: the `i`-th positional value reaches the `i`-th declared parameter, keywords reach their parameters, and unsupplied defaults stay |
| Matcher.FunctionAcceptsArgs | ortho/dispatch.py:338-342 | fails exactly when introspection fails; otherwise it is the acceptance test on the introspected signature, which agrees with the source's `any(...)` test whenever no unknown `''` keyword is supplied |
| Handler.ExactMatchIsInterval | ortho/dispatch.py:103-107 | the exact test holds exactly when the entry has no `kwargs` flag, `base` and `opts` are disjoint, and the supplied names lie between `base` and `base + opts` |
| Handler.Classify | ortho/dispatch.py:102-138 | one exact match resolves to it; several are redundant; with none, strict mode fails and lax mode picks the least-spillover `**` method, uses the default to break a tie, and fails on an unbroken tie or when no method takes `**` |
| Handler.Packing | ortho/dispatch.py:150-155 | a method's signature fails exactly when introspection does, even when a decorator attached one |
| Handler.PublicSignatures | ortho/dispatch.py:147-155 | fails exactly when some public method has several `**` parameters; otherwise maps exactly the public method names, each to the packing of a method of that name |
| Handler.InferTaxonomy | ortho/dispatch.py:139-210 | checks in the source's order: a malformed method fails with its error, then several `**`-only methods fail naming them, then a reserved-name collision fails naming the names; it succeeds exactly when none of these occurs, keeping the packed signatures and their taxonomy, which is well formed, with the unique `**`-only method, if any, as default |
| Handler.IntrospectedTaxonomyHasNoDefault | ortho/dispatch.py:181-188 | without attached signatures, an inferred taxonomy has no default unless the `**` parameter is called `self` |
| Handler.SpillImpliesRequired | ortho/dispatch.py:39-52 | an introspected `**` name other than `self` is a required name |
| Handler.Choose | ortho/dispatch.py:241-254 | resolves exactly when classification resolves, failing as unmatched or as redundant (naming the candidates) otherwise; the chosen method is the classification's; it receives every keyword with its supplied value and every unsupplied default with its default value |
| Handler.Instantiate | ortho/dispatch.py:215-254 | pops `_name`, `_meta`, `inspect` and `classify_fail`; the label is `_name` when truthy, else `UnNamed`; a blank instance arises exactly under a truthy `inspect` with nothing left; otherwise it resolves exactly when classification of the remaining names resolves, names the resolved method with the bindings `Choose` gives, and fails with `Choose`'s error |
| Handler.Construct | ortho/dispatch.py:211-256 | positional arguments are rejected first, then a failed inference fails with its error; otherwise a blank instance arises exactly under the early `inspect` stop, and any other call resolves exactly when classification of the non-intercepted keywords resolves, naming the resolved method and its arguments |
| Dispatcher.DispatchUnique | ortho/dispatch.py:348-371 | a malformed method fails as malformed; success means exactly one public method accepts, with the call bound to it; otherwise the call is unmatched (none accepts) or redundant (naming all that accept) |
| Dispatcher.CandidateSig | ortho/dispatch.py:475-477 | an attached `_sig` is used as is; otherwise the function is introspected |
| Dispatcher.Add | ortho/dispatch.py:468-477 | a name mismatch leaves the multiplexer unchanged; otherwise the candidate is appended, and its signature too unless introspection fails; signatures never outnumber candidates, and alignment is kept |
| Dispatcher.FirstAccepting | ortho/dispatch.py:479-480 | the index found accepts and no earlier one does; none is found exactly when no signature accepts |
| Dispatcher.Dispatch | ortho/dispatch.py:478-487 | fails exactly when no signature accepts; otherwise runs the first accepting candidate with the call bound to its signature |
| Dispatcher.Decorate | ortho/dispatch.py:489-514 | only the decorated name changes in scope; on success it holds a wrapper whose candidates are the previous wrapper's plus the new one, or the previous plain function and the new one, or just the new one |
| Dispatcher.DecorateAll | ortho/dispatch.py:489-514 | names no definition carries are left exactly as they were, and a scope of valid wrappers stays valid |
| Dispatcher.DecorateAllAccumulates | ortho/dispatch.py:489-514 | same-named, introspectable definitions accumulate in one wrapper whose candidates are all of them in order, each aligned with its signature |
| Dispatcher.DispatchAgreesOnUniqueMatch | ortho/dispatch.py:478-481 | when exactly one candidate accepts, first-match dispatch picks it |
| DispatchLaws.ConstructUniqueExactMatch | ortho/dispatch.py:211-254 | when exactly one method matches the non-intercepted keywords exactly, construction resolves to it under the popped label and meta, with its defaults overridden by the keywords |
| DispatchLaws.InterceptedDoNotSteer | ortho/dispatch.py:215-241 | outside the early `inspect` stop, two calls that differ only in intercepted keywords choose the same method with the same arguments, or both fail |
| DispatchLaws.InstantiateIsChoose | ortho/dispatch.py:224-254 | outside the early `inspect` stop, a successful choice on the non-intercepted keywords is run under the label and meta popped from the intercepted ones |
| DispatchLaws.NothingIntercepted | ortho/dispatch.py:215-229 | with no intercepted keyword nothing is popped, no blank instance arises, and the label is `UnNamed` with empty meta |
| DispatchLaws.ConstructIsChoose | ortho/dispatch.py:211-256 | without positional arguments or intercepted keywords, construction is inference followed by choice |
| DispatchLaws.DispatchUniqueIsSingle | ortho/dispatch.py:360-371 | a single accepting method is the target, with the call bound to its signature |
| DispatchLaws.DispatchUniqueIsUnmatched | ortho/dispatch.py:360-368 | with well-formed methods and none accepting, the call fails as unmatched |
| DispatchLaws.DispatchUniqueIsRedundant | ortho/dispatch.py:360-370 | with well-formed methods and several accepting, the call fails as redundant, naming exactly those that accept |
| DispatchLaws.DecorateFirst | ortho/dispatch.py:500-511 | the first definition of a name registers a wrapper holding it alone |
| DispatchLaws.DecorateNext | ortho/dispatch.py:494-511 | a later definition of the same name is appended with its signature |
| DispatchLaws.DecorateAllRegisters | ortho/dispatch.py:489-514 | successive same-named definitions leave one wrapper with all candidates and signatures in order |
| DispatchLaws.DispatchRunsFirst | ortho/dispatch.py:478-481 | the first accepting candidate is the one that runs |
| MatcherExamples.FunctionAcceptsScenario | ortho/test_dispatch.py:67-110 | `{a}` is accepted by v0, v1, v4; `{a, b}` by v1b, v3, v4; `{a, c}` by v4 alone |
| DispatchExamples.InferActionH | ortho/test_dispatch.py:16-18 | ActionH infers v1 with base `{a}` and v2 with base `{a, b}` and opts `{c}`, and no default |
| DispatchExamples.ClassifyActionH | ortho/test_dispatch.py:22-25 | the exact test picks v1 for `{a}`, and v2 for `{a, b}` and for `{a, b, c}` |
| DispatchExamples.HandlerRunsV1 | ortho/test_dispatch.py:23 | `ActionH(a=1)` runs v1 with `a=1` |
| DispatchExamples.HandlerRunsV2WithDefault | ortho/test_dispatch.py:24 | `ActionH(a=1, b=2)` runs v2 with `c` at `None` |
| DispatchExamples.HandlerRunsV2Overridden | ortho/test_dispatch.py:25 | `ActionH(a=1, b=2, c=3)` runs v2 with `c=3` |
| DispatchExamples.LaxSkipsRequired | ortho/dispatch.py:109-124 | the lax path does not check coverage of the required names: with `m(self, x, **kw)` the only public method, `Cls(a=1)` resolves to `m` although `x` is not supplied |
| DispatchExamples.HandlerRejectsPositional | ortho/test_dispatch.py:26-29 | `ActionH(1, 2)` is rejected for positional arguments |
| DispatcherExamples.DispatcherBaseByKeyword | ortho/test_dispatch.py:137 | `ActionD(a=1)` resolves to v1 |
| DispatcherExamples.DispatcherBaseKeywordsAB | ortho/test_dispatch.py:138 | `ActionD(a=1, b=2)` resolves to v2 with `c` at `None` |
| DispatcherExamples.DispatcherBaseKeywordsABC | ortho/test_dispatch.py:139 | `ActionD(a=1, b=2, c=3)` resolves to v2 with `c=3` |
| DispatcherExamples.DispatcherBaseByPosition | ortho/test_dispatch.py:140 | `ActionD(1, 2)` resolves to v2 with `a=1`, `b=2` and `c` at `None` |
| DispatcherExamples.DispatcherBaseUnmatched | ortho/test_dispatch.py:141-144 | `ActionD(1, 2, 3)` has no accepting method |
| DispatcherExamples.DispatcherBaseRedundant | ortho/test_dispatch.py:145-147 | `ActionD(1, 2, 3, 4)` is redundant between v3 and v4 |
| DispatcherExamples.DecorateFuncDispatch | ortho/test_dispatch.py:153-160 | the four definitions leave one wrapper holding them in order with their signatures |
| DispatcherExamples.FuncDispatchKeyword | ortho/test_dispatch.py:168 | `func_dispatch(a=1)` runs the first definition |
| DispatcherExamples.FuncDispatchKeywordsAB | ortho/test_dispatch.py:169 | `func_dispatch(a=1, b=2)` runs the second definition with `c` at `None` |
| DispatcherExamples.FuncDispatchKeywordsABC | ortho/test_dispatch.py:170 | `func_dispatch(a=1, b=2, c=3)` runs the second definition with `c=3` |
| DispatcherExamples.FuncDispatchTwo | ortho/test_dispatch.py:171 | `func_dispatch(1, 2)` runs the second definition |
| DispatcherExamples.FuncDispatchFour | ortho/test_dispatch.py:173 | `func_dispatch(1, 2, 3, 4)` runs the third definition, the first that accepts |
| DispatcherExamples.FuncDispatchFourWithKeyword | ortho/test_dispatch.py:174 | `func_dispatch(1, 2, 3, 4, e=5)` skips the third definition and runs the fourth |
| DispatcherExamples.FuncDispatchThree | ortho/test_dispatch.py:176-178 | `func_dispatch(1, 2, 3)` matches no definition |
| DispatcherExamples.FuncDispatchFive | ortho/test_dispatch.py:179-181 | `func_dispatch(1, 2, 3, 4, 5)` matches no definition |
| NestedDict.Lookup | ortho/utils.py:28 | a key is found exactly when some entry carries it, and the value found is that entry's |
| NestedDict.Put | ortho/utils.py:39 | after assignment the key maps to the new value, every other key is unchanged, and unique keys stay unique |
| NestedDict.Catalog | ortho/utils.py:12-22 | every catalogued path extends the starting path; a non-dict yields exactly the starting path and itself; a dict yields only longer paths |
| NestedDict.CatalogSound | ortho/utils.py:12-22 | every catalogued pair is a non-dict value reached by following its path |
| NestedDict.CatalogComplete | ortho/utils.py:12-22 | every non-dict value reachable by a path is catalogued with that path |
| NestedDict.CatalogIsLeaves | ortho/utils.py:12-22 | `(q, v)` is catalogued from the root exactly when following `q` reaches the non-dict `v` |
| NestedDict.Delve | ortho/utils.py:24-28 | an empty path fails; otherwise succeeds exactly when the path can be followed, returning what it reaches |
| NestedDict.DelveIsAt | ortho/utils.py:24-28 | a followable path is delved to the value it reaches |
| NestedDict.AtAppend | ortho/utils.py:28 | following `a + b` is following `a`, then `b` |
| NestedDict.DelveAppend | ortho/utils.py:28 | delving `a + b` fails when delving `a` does, and otherwise delves `b` from the result |
| NestedDict.DelveAgreesOnMissing | ortho/utils.py:28 | delving `a + b` from `o` is delving `b` from what `a` reaches |
| NestedDict.SetPath | ortho/utils.py:37-45 | assignment along a non-empty path succeeds exactly when no existing non-dict lies on it, and fails otherwise as "not a dict" |
| NestedDict.DelveSet | ortho/utils.py:30-45 | a missing or `None` value fails first, then leftover keywords, then an empty path; otherwise it is the assignment along the path |
| NestedDict.SetPathThenAt | ortho/utils.py:38-45 | after assignment, following the path and then any suffix reaches what the suffix reaches in the new value |
| NestedDict.DelveAfterDelveSet | ortho/utils.py:24-45 | `delve` after a successful `delveset` on the same path returns the value set |
| NestedDict.SetPathFrame | ortho/utils.py:38-45 | paths that diverge from the assigned one reach what they reached before |
| NestedDict.SetPathPrefixIsDict | ortho/utils.py:44-45 | every proper prefix of the assigned path reaches a dict afterwards |
| NestedDict.SetPathWellFormed | ortho/utils.py:38-45 | assignment keeps keys unique at every level |
| Cli.FlattenAppend | ortho/cli.py:29-34 | flattening nested tuples distributes over concatenation |
| Cli.Flatten | ortho/cli.py:29-34 | no contract of its own; `FlattenAppend` states how it distributes |
| Cli.FirstIndexSound | ortho/cli.py:36 | the lazy key stops at the first separator: the index found holds the separator and none comes before it |
| Cli.SplitArg | ortho/cli.py:36 | an argument containing the separator and no newline always splits; a split key holds no separator and neither part holds a newline |
| Cli.SplitArgSound | ortho/cli.py:36 | a successful split gives a key before the first separator and a value after it, neither containing a newline, with at most one trailing newline dropped |
| Cli.SplitArgComplete | ortho/cli.py:36 | every such decomposition of the argument is the one the split finds |
| Cli.ParseItems | ortho/cli.py:31-40 | a missing separator names an argument that has none; a collision names a key that was already parsed |
| Cli.ParseItemsSucceedsIff | ortho/cli.py:31-40 | parsing succeeds exactly when every argument splits and evaluates and the keys are pairwise distinct and new |
| Cli.ParseItemsContents | ortho/cli.py:37-40 | on success the keys are the old ones plus the parsed ones, each parsed key mapping to its evaluated value |
| Cli.CliArgsToKwargs | ortho/cli.py:16-41 | a missing separator names a flattened argument that does not split; a collision names the key of some flattened argument |
| Cli.CliArgsToKwargsSucceedsIff | ortho/cli.py:16-41 | succeeds exactly when every flattened argument splits and evaluates and no key repeats |
| Cli.CliArgsToKwargsContents | ortho/cli.py:16-41 | on success the keys are exactly the parsed keys, each mapping to its evaluated value |
| Cli.ParseArgs | ortho/cli.py:28-41 | the stack loop, popping from the end and pushing tuples back, computes the reference definition |
| Bash.Normalize | ortho/bash.py:39 | the result holds no carriage return and is no longer than the input |
| Bash.NormalizeIsTwoReplacements | ortho/bash.py:39 | it is replacing `\r\n` and then the remaining `\r` by `\n` |
| Bash.NormalizeKeepsPlainText | ortho/bash.py:39 | text without carriage returns is unchanged |
| Bash.Strip | ortho/bash.py:41-43 | the result neither starts nor ends with the stripped character and holds only characters of the input |
| Bash.StripTrims | ortho/bash.py:41-43 | the result is a contiguous slice of the input with only the stripped character outside it |
| Bash.StripUntouched | ortho/bash.py:41-43 | text that neither starts nor ends with the character is unchanged |
| Bash.StripIsLeftThenRight | ortho/bash.py:41-43 | stripping both ends is stripping the left end, then the right |
| Bash.FirstBreak | ortho/bash.py:42 | the index found is a line boundary with none before it; none is found exactly when the text has no boundary |
| Bash.SplitLines | ortho/bash.py:42 | no line holds a boundary, and the result is empty exactly when the text is |
| Bash.JoinThenNewline | ortho/bash.py:45 | joining with newlines and appending one terminates every line |
| Bash.SplitTerminated | ortho/bash.py:42-45 | splitting newline-terminated boundary-free lines gives them back |
| Bash.SplitJoin | ortho/bash.py:42-45 | splitting boundary-free lines joined by newlines gives them back when the last is not empty |
| Bash.InputLines | ortho/bash.py:39-42 | no contract of its own; `InputLinesOfJoin` states its inverse |
| Bash.InputLinesOfJoin | ortho/bash.py:39-42 | a chunk of clean lines joined by newlines, first and last non-empty, yields exactly those lines |
| Bash.BashNewliner | ortho/bash.py:33-46 | `None` exactly when every input line is empty; otherwise the output ends with a newline |
| Bash.Render | ortho/bash.py:40-43 | never more rendered lines than input lines; `RenderSound` and `RenderComplete` state its contents |
| Bash.RenderEmpty | ortho/bash.py:40-44 | nothing is rendered exactly when every line is empty |
| Bash.RenderSound | ortho/bash.py:40-43 | every rendered line is the prefix and a non-empty input line stripped of spaces |
| Bash.RenderComplete | ortho/bash.py:40-43 | every non-empty input line is rendered |
| Bash.RenderLineNoBreaks | ortho/bash.py:41 | a rendered line holds no boundary when neither the line nor the log name does |
| Bash.RenderNoBreaks | ortho/bash.py:41-43 | rendering keeps every line free of boundaries |
| Bash.BashNewlinerLines | ortho/bash.py:39-45 | the output splits back into exactly the rendered lines, in order |
| Bash.BashNewlinerNoCarriageReturn | ortho/bash.py:39-45 | the output holds no carriage return |
| Functional.ReduceApplies | ortho/functional.py:8-10 | the fold from `acc` applies the functions right to left, then `acc` |
| Functional.Compose | ortho/functional.py:6-10 | the composed function maps every `x` to `f1(f2(...fn(x)))` |
| Functional.ComposeApplies | ortho/functional.py:6-10 | `compose(f1, ..., fn)(x) == f1(f2(...fn(x)))` |
| Functional.ComposeEmpty | ortho/functional.py:10 | `compose()` is the identity |
| Functional.ComposeSingle | ortho/functional.py:6-10 | composing one function is that function |
| Functional.ComposePair | ortho/functional.py:8-9 | `compose(f, g)(x) == f(g(x))` |
| Functional.ComposeSnoc | ortho/functional.py:6-10 | composing with one more function on the right applies it first |
| Functional.ComposeAppend | ortho/functional.py:6-10 | composing a concatenation is composing the two compositions |

## Left out

- Reflection (`inspect.getmembers`, `inspect.signature`) is not modelled. A class is the sequence of its members in `getmembers` order, and a callable is its declared parameters.
- The Python 2 branch of `introspect_function` is not modelled, and neither is the rejection of extra keyword arguments to it.
- The frame walk of `check_local_frame` is not modelled: the defining scope is an explicit map.
- Scope values other than functions are not modelled, for example a falsy or non-callable value under the decorated name.
- A function object that already carries `_multiplex` when it is decorated is not modelled.
- Running the chosen implementation, and everything it returns or prints, is not modelled. A resolution names the chosen target and the arguments it receives.
- Handler.Choose: a successful choice names the method and its arguments; Python's own `TypeError` from the call `getattr(self, fname)(**kwargs)` is not modelled. It arises when a lax pick leaves a required name unsupplied (`LaxSkipsRequired`), and when an exact match supplies the name of a `*` parameter by keyword, which the Python 3 packing lists among the required names.
- Handler.Instantiate: the same call-binding `TypeError` is not modelled; a solved instance may name a call Python would reject.
- Handler.Construct: the same call-binding `TypeError` is not modelled, so "resolves exactly when classification resolves" is not "returns without raising".
- DispatchLaws.ConstructUniqueExactMatch: the exact match it resolves to may be a method with a `*` parameter whose name was supplied by keyword, a call Python rejects with `TypeError`; that rejection is not modelled.
- The same holds for `DispatcherBase.solve` and for the `_novel`/`_stock` attribute bookkeeping of `Handler.__init__`.
- Printing, `_report`, `verbose`, the `pdb` breakpoint on a failed pop, and the exception message texts are not modelled. `classify_fail` only changes a message, so it is popped and otherwise ignored.
- A hand-written class-level `_taxonomy` is not modelled, including its set-shaped entries (`keys == set(args)`). The taxonomy is always inferred.
- The `hasattr(self, fname)` development check in `Handler.__init__` is not modelled. The chosen name always comes from the methods themselves.
- `Handler._classify` lists matches in dictionary order, which only affects messages. The model works with sets.
- Matcher.FunctionAcceptsArgs: it uses the corrected leftover test, so on an unknown `''` keyword it rejects where the source's `any(...)` accepts (see Findings).
- Dispatcher.DispatchUnique: it uses the corrected leftover test and so differs from the source only on an unknown `''` keyword (see Findings).
- Dispatcher.Dispatch: it uses the corrected leftover test and so differs from the source only on an unknown `''` keyword (see Findings).
- The one `preset` field of a `Signature.Func` stands for both a decorator-attached `_introspected` and a `_sig` attribute, so a function carrying only one of them is modelled as carrying both.
- Matcher.Bindings: it is the merged dictionary of `signature_match`, not Python's binding of the forwarded `*args, **kwargs`. The two agree only when no `*` or `**` parameter is declared (`BindingsFollowDeclaration`). With a `*` or `**` parameter, whose name lands among the required names, positional values go to different parameters: for `def f(a, b=2, *rest)`, `f(1, 5)` binds `rest` here but `b` in Python. Keyword-only parameters are not distinguished from plain ones, so the `TypeError` Python raises for a missing keyword-only argument, or for surplus positional values against `**`, is not modelled. The resolutions of `Dispatcher.DispatchUnique` and `Dispatcher.Dispatch` carry these bindings.
- Matcher.Bindings: when a name arrives both positionally and by keyword, Python's own call raises `TypeError`. The model lets the positional value win, as the merged dictionary of `signature_match` does, and does not model that exception.
- `ast.literal_eval` is not modelled: `Cli.Evaluator` is an uninterpreted parameter, and a value it cannot read is a failure of that parameter.
- In `cli_args_to_kwargs` the separator is one character taken literally. A multi-character separator and regular-expression metacharacters are not modelled.
- Arguments that are neither strings nor tuples are not modelled.
- Only string keys are modelled for the nested dictionaries. Lists and every other non-dict value are leaves, because indexing them by a string key fails.
- The `print` before re-raising in `delveset` is not modelled.
- NestedDict.SetPathFrame: `delveset` mutates the dictionary in place, and a sub-dictionary may be shared by several parents; the model has value semantics, so a change seen through an aliased sub-dictionary elsewhere is not modelled.
- NestedDict.DelveSet: the same value-semantics reading applies; the result is the new tree, not a mutation visible through other references.
- The threads, pipes and process handling of `bash` around `bash_newliner` are not modelled. The input is the already decoded text.
- `compose` is modelled over functions of one type `T -> T`. Python also composes functions whose types change along the chain.

## Findings

| source | as written | input that shows it | evidently intended | confidence | as-written member | corrected member |
|---|---|---|---|---|---|---|
| ortho/dispatch.py:334 | `any(set(kwargs_popper.keys()) - set(sig['kwargs'].keys()))` rejects only when some leftover keyword name is truthy | the signature with no parameters and the call `f(**{'': 1})`: the leftover is `{''}`, and `any` of it is false, so the match passes | reject when any leftover keyword remains, i.e. the leftover set is non-empty, as the comment at lines 324-333 describes | not executed | Matcher.EmptyKeywordSlipsThrough | Matcher.SignatureMatch |
