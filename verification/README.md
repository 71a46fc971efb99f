# Verified models of the linter's type rules, the bug-report capture and the project's accounting

This project models the parts of the repository whose correctness is hardest to see by reading, and proves
what they keep. To check it, run `dafny verify dfyconfig.toml` with Dafny 4.11.

## What is modelled

**The type resolver of the lint rules** (`anti-slop/`). `type_syntax.dfy` holds the syntax, `type_environment.dfy` the
table of declarations, `substitution.dfy` the binding of alias parameters and `dictionary_types.dfy` the resolver
itself. The resolver can recurse forever, so its model takes a depth of calls and answers `Done` or `OutOfDepth`; more
depth never changes an answer. Independently of it, `type_meaning.dfy` says what a type means: every alias is expanded
by real substitution, in stages, and the limit of the stages is shown to be the least fixpoint of the rules for unions,
intersections, wrappers, interfaces and aliases. Four results compare the two:

* `plain_resolver.dfy`: without generic aliases the resolver always stops and its answer *is* the least fixpoint,
  cyclic aliases included.
* `generic_resolver.dfy` (with `parameter_scope.dfy`): with generic aliases whose parameter names are kept apart, it
  stops on every value type, and an unsafe value it reports is unsafe under full substitution.
* `dictionary_restart.dfy` (with `argument_chain.dfy`): the same for dictionaries, whose second phase starts with an
  empty set of visited aliases but keeps the first phase's bindings. Keeping parameter names apart is *not* enough
  there: `type Box<S, R = Record<string, Box<S | null, S>>> = R` sends the resolver into an endless recursion on
  `Box<number>` (`ResolverLimits.RestartDiverges`), and with a third parameter in the same place a safe dictionary is
  reported (`ResolverLimits.RestartMisreports`): open defaults cost termination and soundness. Closed defaults are enough for both.
* `stratified_resolver.dfy` (with `alias_levels.dfy`): when aliases and parameters can moreover be given levels, a body below
  its alias and an argument or default at most at its parameter's level, both classifiers stop and are exact, generic
  aliases, defaults and the second phase included.

`type_rules.dfy` says what both classifiers answer shape by shape, in terms of the syntax alone, and
`resolver_limits.dfy` has one concrete program for each boundary. `keyword_search.dfy` treats the three rules that chase
aliases to `unknown` or `object`, `lexical_scope.dfy` the upward walk that finds the type binders in scope, and
`assertion_chains.dfy` the rule against chained assertions.

**The screenshot protocol** (`screenshot_capture.dfy`) is a state machine of calls, late completions and failures,
clears and disables; the class `Hook` carries the program's refs and each of its methods is one step of the machine.
`bug_report_hook.dfy` has the bounded log buffers and the patching of global functions.

**Text formats.** `csv.dfy` and `base_time.dfy`: the printer and both parsers of comma-separated values (section 2 of
RFC 4180) and the row accounting above them. `unified_diff.dfy`, `compress_ranges.dfy` and `patch_coverage.dfy`: from
git's zero-context diff to the list of uncovered lines. `text.dfy` has the string operations they share.

**Accounting.** `issue_hours.dfy` and `team_report.dfy` follow hours from the lines of an issue to the totals of the
team; `catalog_sync.dfy` is the model table under syncs and admin edits, and `catalog_rows.dfy` each row after one, field by field; `rapl_energy.dfy`, `gpu_energy.dfy` and
`energy_session.dfy` are the energy meter; `session_table.dfy` its request threads; `round_robin.dfy` the enrollments of
a seeding script. Hours, joules and rates are reals. `sequences.dfy`, `division.dfy` and `options.dfy` hold what several
modules need.

## Where the program falls short of what it says

Each of these is a lemma about the code as it stands.

* `ResolverLimits.SharedNameDiverges`, `ResolverLimits.RestartDiverges`: the resolver recurses forever.
* `ResolverLimits.RestartMisreports`, `ResolverLimits.MisreportedIsSafe`: the resolver stops and reports a dictionary that
  stores numbers only.
* `ResolverLimits.NestedArgumentIsMissed`: `Id<Id<unknown>>` is unknown and is not reported.
* `ResolverLimits.OptionalNeverIsMissed`: `Gone<never>`, where `type Gone<S> = { gone?: S }`, is effectively empty and is not
  reported, because a literal is tested for emptiness without its parameters.
* `ResolverLimits.CapturedArgumentIsReported`: `Outer<number>` is a number and is reported as `unknown`.
* `UnifiedDiff.DiffRoundTripExact`: an added line whose text begins with `++` is read as a file name or skipped, where the
  comment above the reader says every `+` line is taken as an addition. And the table of files is a plain object, so a
  file in the root that is called `constructor`, `toString` or like any other inherited property is never entered in it;
  adding a line to such a file makes the script throw (`UnifiedDiff.DiffRead`, `UnifiedDiff.InheritedNameThrows`), though
  its header says it always exits with 0.
* `BaseTime.NumberedExactly`, `BaseTime.BlankLineMisnumbers`: the line number in a warning of the base-time reader is too
  small as soon as a blank line comes before.
* `CatalogSync.SyncIdempotentExactly`: the sync calls itself idempotent. It is for the catalog in the repository, but not
  for every catalog: a model is created without image support whatever the catalog says and refreshed with what it
  says, and a listed model that is also retired is enabled and disabled in turn unless a tier assignment names it.
* `SessionTable.OverlapExactly`, `SessionTable.LastResultExactly`: sessions are meant to measure one at a time, but a session
  is stopped after the lock is released, so a new one can begin before, and an older result can replace a newer one
  (`SessionTable.LateResultWins`). Both lemmas say exactly when.
* `GpuEnergy.StallsAreOvercounted`, `GpuEnergy.BoundedExactly`: two samples at the same time add energy that was not used;
  the energy can then exceed the greatest power over the elapsed time.

## Model

| member | source | states |
|---|---|---|
| TypeSyntax.UnwrapTransparentType | anti-slop/shared/dictionary-types.ts:117-126 | the loop reaches the first type under parentheses and `readonly`, which is no such wrapper itself |
| TypeEnvironment.CreateTypeEnvironment | anti-slop/shared/dictionary-types.ts:51-96 | for every name: its alias is the first one declared, its interfaces are all of them in order, and it is shadowed exactly when it is a built-in that anything declares or imports, or an alias declared twice |
| TypeEnvironment.BuiltEnvironmentIsCoherent | anti-slop/shared/dictionary-types.ts:102-104 | in a table so built no declared name counts as a built-in |
| TypeEnvironment.AliasIsFirst | anti-slop/shared/dictionary-types.ts:43-69 | a name's alias is that of its first alias declaration among the statements, bare, exported or exported by default |
| TypeEnvironment.InterfacesAreAll | anti-slop/shared/dictionary-types.ts:43-77 | a name's interfaces are those of all its interface declarations, in the order of the statements |
| TypeEnvironment.ShadowedExactly | anti-slop/shared/dictionary-types.ts:55-93 | which names no longer mean the built-in: one of the eight that an import, alias, interface, enum, class or function introduces, and a name with two aliases |
| Substitution.AliasSubstitution | anti-slop/shared/dictionary-types.ts:174-188 | the loop binds the parameters left to right, each argument resolved in the map extended so far, and gives nothing when an argument and its default are missing |
| Substitution.ResolvedArgumentIdempotent | anti-slop/shared/dictionary-types.ts:158-172 | on every map, cyclic ones included: resolving again changes nothing, and the result is no bound reference or else the entry point of a cycle, which is exhibited |
| Substitution.ResolvedFrom | anti-slop/shared/dictionary-types.ts:158-172 | from any path of look-ups on, resolving ends at a type that is not bound or closes a cycle of the map |
| Substitution.RoundTheCycle | anti-slop/shared/dictionary-types.ts:166-171 | entered anywhere on a cycle, resolving comes back to the point where the cycle was entered |
| DictionaryTypes.DirectValueDeeper | anti-slop/shared/dictionary-types.ts:190-244 | an answer of `unsafeDirectValue` does not depend on how many calls deep the model allows it to go |
| DictionaryTypes.ValueTypesDeeper | anti-slop/shared/dictionary-types.ts:246-305 | the same for `dictionaryValueTypes` |
| TypeMeaning.KindKept | anti-slop/shared/dictionary-types.ts:190-244 | in the reference meaning an answer, once given at a stage of expansion, stays |
| TypeMeaning.ValuesKept | anti-slop/shared/dictionary-types.ts:246-305 | so do the stored types of a dictionary |
| TypeMeaning.MeansOne | anti-slop/shared/dictionary-types.ts:22-25 | a type is unsafe for at most one reason |
| TypeMeaning.LimitIsFixpoint | anti-slop/shared/dictionary-types.ts:197-243 | the meaning satisfies the rules: some member of a union, `any` or all members of an intersection, the argument of a wrapper, the full expansion of an alias |
| TypeMeaning.StagesAreLeast | anti-slop/shared/dictionary-types.ts:197-243 | every assignment closed under the rules agrees with the meaning wherever the meaning answers, so it is the least fixpoint |
| ParameterScope.ResolvedMeans | anti-slop/shared/dictionary-types.ts:158-172 | when names are kept apart, resolving an argument in the map being extended gives a type with the argument's own closed meaning |
| ParameterScope.Enter | anti-slop/shared/dictionary-types.ts:174-188 | when names are kept apart, entering an alias binds exactly when full substitution does, and its body under the new bindings is the alias's full expansion |
| GenericResolver.DirectValueSound | anti-slop/shared/dictionary-types.ts:190-244 | on hygienic programs `unsafeDirectValue` stops at every reachable call, and a reason it gives is the one of the fully substituted type |
| GenericResolver.ValueTypesStops | anti-slop/shared/dictionary-types.ts:246-305 | on hygienic programs `dictionaryValueTypes` stops at every reachable call |
| GenericResolver.ClassifyValueSound | anti-slop/shared/dictionary-types.ts:307-313 | on hygienic programs `classifyUnsafeDictionaryValue` terminates on every type, and what it reports is unsafe for that very reason |
| PlainResolver.NothingLost | anti-slop/shared/dictionary-types.ts:237-243 | without generics the visited names lose nothing: at every call where no visited alias could still answer sooner, the answer is the meaning's |
| PlainResolver.ClassifyValueExact | anti-slop/shared/dictionary-types.ts:307-313 | without generics, cyclic aliases included, `classifyUnsafeDictionaryValue` terminates and reports a reason exactly when the least fixpoint gives that reason |
| PlainResolver.NoValuesLost | anti-slop/shared/dictionary-types.ts:298-304 | the visited names lose no stored type either |
| PlainResolver.ClassifyDictionaryExact | anti-slop/shared/dictionary-types.ts:315-329 | without generics `classifyUnsafeDictionary` terminates and reports exactly the first unsafe type that the dictionary stores under the least fixpoint |
| DictionaryRestart.Walk | anti-slop/shared/dictionary-types.ts:246-305 | every alias the first phase passes through, entered again under its leftover bindings, ends in the same dictionary and is never an unsafe value |
| DictionaryRestart.RestartSound | anti-slop/shared/dictionary-types.ts:319-327 | the second phase, with leftover bindings and no visited names, stops on every stored type and reports only what its closed form means |
| DictionaryRestart.ClassifyDictionarySound | anti-slop/shared/dictionary-types.ts:315-329 | on hygienic programs with closed defaults `classifyUnsafeDictionary` terminates, and a dictionary it reports does store a type unsafe for that reason |
| AliasLevels.BindLeveled | anti-slop/shared/dictionary-types.ts:174-188 | binding parameters, each argument resolved in the map being extended, keeps every binding within its parameter's level |
| AliasLevels.StagedInside | anti-slop/shared/dictionary-types.ts:237-243 | inside an alias, its body lies below everything passed through on the way to it |
| StratifiedResolver.NothingMissed | anti-slop/shared/dictionary-types.ts:190-244 | where levels fit, every reason that the fully substituted type has is the answer |
| StratifiedResolver.ForgettingIsHarmless | anti-slop/shared/dictionary-types.ts:319-325 | where levels fit, which of the passed aliases are remembered makes no difference, so the second phase may start with none |
| StratifiedResolver.ClassifyValueStratified | anti-slop/shared/dictionary-types.ts:307-313 | on hygienic generic programs with levels `classifyUnsafeDictionaryValue` terminates and answers exactly the meaning |
| StratifiedResolver.ValuesFound | anti-slop/shared/dictionary-types.ts:246-305 | the first phase finds exactly the stored types of the fully substituted dictionary, all under one map of bindings |
| StratifiedResolver.ClassifyDictionaryStratified | anti-slop/shared/dictionary-types.ts:315-329 | on those programs `classifyUnsafeDictionary` terminates and reports exactly the first unsafe type stored, whatever its defaults mention |
| TypeRules.MeansByShape | anti-slop/shared/dictionary-types.ts:197-243 | when a value is unsafe, shape by shape in terms of the syntax: keywords, parentheses, empty literals, unions, intersections, the four wrappers, interfaces, aliases |
| TypeRules.ValueByShape | anti-slop/shared/dictionary-types.ts:190-244 | without generics `classifyUnsafeDictionaryValue` reports exactly that |
| TypeRules.StoresByShape | anti-slop/shared/dictionary-types.ts:246-305 | what a dictionary stores first, shape by shape: index signatures, mapped types, `Record`, wrappers, `Pick`, `Omit`, aliases |
| TypeRules.LiteralReported | anti-slop/shared/dictionary-types.ts:254-260 | without generics a literal is reported for its first annotated index signature that is unsafe, wherever it stands among the members |
| TypeRules.SignaturesInOrder | anti-slop/shared/dictionary-types.ts:254-260 | a literal's value types are those of all its annotated index signatures, in the order of the members |
| TypeRules.DictionaryByShape | anti-slop/shared/dictionary-types.ts:246-329 | without generics `classifyUnsafeDictionary` reports exactly what the shape says |
| TypeRules.DictionaryByShapeStratified | anti-slop/shared/dictionary-types.ts:246-329 | and with generic aliases whose levels fit |
| TypeRules.PlainAliasByShape | anti-slop/shared/dictionary-types.ts:237-243 | an alias without parameters is reported exactly as its body is |
| ResolverLimits.LevelsFit | anti-slop/shared/dictionary-types.ts:183-185 | a program whose default mentions an earlier parameter, with a query, that meets every condition of the exact results: all names are kept apart and levels fit |
| ResolverLimits.OptionalNeverIsMissed | anti-slop/shared/dictionary-types.ts:132-144 | an effectively empty type is missed because emptiness is tested without the bindings |
| ResolverLimits.SharedNameDiverges | anti-slop/shared/dictionary-types.ts:227-232 | two aliases sharing a parameter name: no depth answers |
| ResolverLimits.OwnNameStops | anti-slop/shared/dictionary-types.ts:227-232 | a parameter bound to its own name, parentheses and `readonly` around it or not, is no unsafe value and no dictionary |
| ResolverLimits.FreeParameterIsSafe | anti-slop/shared/dictionary-types.ts:106-115 | so `Option<S>` where `S` is a type parameter in scope is found safe |
| ResolverLimits.DefaultReentersIsHygienic | anti-slop/shared/dictionary-types.ts:183-185 | the program of the next row keeps all parameter names apart; only a default mentions an earlier parameter |
| ResolverLimits.RestartDiverges | anti-slop/shared/dictionary-types.ts:319-325 | on that hygienic program `classifyUnsafeDictionary` recurses forever, because the second phase forgets the visited aliases and keeps the bindings |
| ResolverLimits.DefaultSwapsIsHygienic | anti-slop/shared/dictionary-types.ts:183-185 | the program of the next two rows keeps all parameter names apart; its one default mentions earlier parameters only |
| ResolverLimits.RestartMisreports | anti-slop/shared/dictionary-types.ts:319-325 | on that hygienic program the second phase, binding anew over leftover bindings, reports `unknown` |
| ResolverLimits.MisreportedIsSafe | anti-slop/shared/dictionary-types.ts:181-186 | though the dictionary stores no unsafe type under full substitution |
| ResolverLimits.NestedArgumentIsMissed | anti-slop/shared/dictionary-types.ts:238 | `Id<Id<unknown>>` means `unknown` and is found safe |
| ResolverLimits.CapturedArgumentIsReported | anti-slop/shared/dictionary-types.ts:181-186 | a captured argument makes a safe type be reported as `unknown` |
| KeywordSearch.CollectAliases | anti-slop/rules/no-object-parameters.ts:101-114 | the table has for each name the alias of the last statement that declares it, bare or exported, generic ones only where the rule keeps them |
| KeywordSearch.SearchExact | anti-slop/rules/no-unknown-returns.ts:42-76 | for every table, cyclic or not, `resolvesToUnknown` (and `resolvesToObject`) answers true exactly when some finite unfolding through parentheses, unions, unshadowed aliases and promises reaches the keyword |
| KeywordSearch.SearchByShape | anti-slop/rules/no-unknown-returns.ts:42-76 | the searches satisfy one equation per shape, although each step carries more visited names |
| KeywordSearch.ReturnsByShape | anti-slop/rules/no-unknown-returns.ts:42-76 | what counts as returning `unknown`, in the words of that rule: unions, `Promise` and `PromiseLike`, plain aliases |
| KeywordSearch.ParametersByShape | anti-slop/rules/no-object-parameters.ts:47-81 | what counts as taking `object`: unions and plain aliases |
| KeywordSearch.CheckReturnType | anti-slop/rules/no-unknown-returns.ts:78-90 | a function is reported exactly when it has a return annotation and that reaches `unknown` through unions and promises |
| KeywordSearch.CheckParameters | anti-slop/rules/no-object-parameters.ts:83-98 | the loop reports, in order and once each, exactly the parameters whose annotation reaches `object` |
| KeywordSearch.SearchFinds | anti-slop/rules/no-object-parameters.ts:52-81 | from any set of visited names, what the search finds is reachable |
| KeywordSearch.SearchMissesNothing | anti-slop/rules/no-object-parameters.ts:71-80 | what is reachable and not sooner reachable from a visited alias is found |
| KeywordSearch.SearchFromAliasExact | anti-slop/rules/no-unknown-type-aliases.ts:31-47 | started with its own name visited, the walk from an alias still answers exactly whether the alias reaches `unknown` |
| KeywordSearch.ReportUnknownAliases | anti-slop/rules/no-unknown-type-aliases.ts:59-66 | the reporting loop reports exactly the aliases that reach `unknown` |
| KeywordSearch.AliasReachesByChain | anti-slop/rules/no-unknown-type-aliases.ts:31-47 | an alias reaches `unknown` exactly when a chain of references, each the whole body of the one before, ends there |
| ScreenshotCapture.Hook.CaptureScreenshot | packages/ui/src/bug-report-capture.ts:191-224 | a call is the machine's step, and ref by ref: refused, joined, answered from the cache, or a new capture with the current generation |
| ScreenshotCapture.Hook.Settle | packages/ui/src/bug-report-capture.ts:201-220 | a late completion or failure is the machine's step, and ref by ref: it stores and answers only in its own generation and clears only its own promise |
| ScreenshotCapture.Hook.ClearScreenshot | packages/ui/src/bug-report-capture.ts:234-238 | clearing is the machine's step |
| ScreenshotCapture.Hook.SetEnabled | packages/ui/src/bug-report-capture.ts:87-103 | disabling and enabling are the machine's steps |
| ScreenshotCapture.StepKeepsValid | packages/ui/src/bug-report-capture.ts:74-78 | every step keeps: a stored screenshot comes from a capture of the current generation, and the promise names the only current capture in flight |
| ScreenshotCapture.RunKeepsValid | packages/ui/src/bug-report-capture.ts:191-238 | so in every interleaving from a fresh hook |
| ScreenshotCapture.CallersJoin | packages/ui/src/bug-report-capture.ts:193 | in every reachable state at most one current capture is in flight, and every enabled caller joins it |
| ScreenshotCapture.InvalidatedIsHarmless | packages/ui/src/bug-report-capture.ts:211-219 | an invalidated capture that settles changes neither screenshot nor promise, and answers null |
| ScreenshotCapture.NeverRepopulates | packages/ui/src/bug-report-capture.ts:76-78 | once a clear or disable came between, a capture begun before it can never supply the stored screenshot again |
| ScreenshotCapture.GenerationsGrow | packages/ui/src/bug-report-capture.ts:100-101 | the generation never falls, and rises in every run with a clear or disable |
| ScreenshotCapture.CachedUntilInvalidated | packages/ui/src/bug-report-capture.ts:196 | a stored screenshot answers every enabled call without a second pass until a clear or disable |
| ScreenshotCapture.SettledIsStored | packages/ui/src/bug-report-capture.ts:211-217 | a caller who is given data is given what is stored |
| ScreenshotCapture.CallBegins | packages/ui/src/bug-report-capture.ts:191-222 | in every reachable enabled state with nothing stored and nothing under way, a call begins a capture and promises it |
| ScreenshotCapture.CallRefused | packages/ui/src/bug-report-capture.ts:192 | a disabled hook answers null and changes nothing |
| ScreenshotCapture.CompletionIsStored | packages/ui/src/bug-report-capture.ts:211-220 | in every reachable state a current capture that completes answers with its picture, stores it and is over; the next call is given it |
| ScreenshotCapture.FailureKeeps | packages/ui/src/bug-report-capture.ts:216-220 | a current capture that fails is over and answers what is stored |
| ScreenshotCapture.CaptureSucceeds | packages/ui/src/bug-report-capture.ts:191-220 | from the call that begins it to its completion, whatever calls, failures and late completions come between, a capture not invalidated is stored and handed out |
| ScreenshotCapture.EnabledExactly | packages/ui/src/bug-report-capture.ts:87-103 | after any run the hook is enabled exactly when it was last switched on, or was on and never switched off |
| ScreenshotCapture.InvalidationForgets | packages/ui/src/bug-report-capture.ts:234-238 | clearing and disabling forget picture and promise and begin a generation |
| BugReportHook.RollingBuffer.Push | packages/ui/src/bug-report-capture.ts:129-132 | pushing appends and drops the oldest entry when over the limit |
| BugReportHook.BufferHoldsNewest | packages/ui/src/bug-report-capture.ts:15-16 | after any number of pushes the buffer holds exactly the newest entries, in order |
| BugReportHook.PatchingHook.Run | packages/ui/src/bug-report-capture.ts:87-187 | the effect and its cleanup patch and restore as the machine does |
| BugReportHook.PatchIsSymmetric | packages/ui/src/bug-report-capture.ts:11-14 | over every sequence of enabling, disabling and unmounting, each of the four globals is wrapped exactly once while enabled and exactly the original otherwise |
| Csv.ParseSeedLine | apps/core/prisma/seed.ts:1596-1618 | the loop yields the fields of the line |
| Csv.ParseBaseTimeLine | eduai-summer-2026/scripts/read-base-time.js:5-36 | on every line, malformed ones included, exactly the seed parser's fields, trimmed |
| Csv.RowRoundTrip | eduai-summer-2026/scripts/generate-team-time-report.js:101-107 | for every non-empty list of fields, with commas, quotes and line breaks, parsing the joined escaped fields returns them |
| Csv.RowInjective | eduai-summer-2026/scripts/generate-team-time-report.js:299-302 | different rows are printed differently |
| Csv.UnquotedIsSplit | apps/core/prisma/seed.ts:1596-1618 | a line without quotes is cut at its commas |
| Csv.UnclosedRuns | apps/core/prisma/seed.ts:1600-1606 | a quoted field that is never closed runs to the end of the line, doubled quotes read as one |
| Csv.QuotedExactly | eduai-summer-2026/scripts/generate-team-time-report.js:101-107 | a field is put between quotes exactly when it has a comma, a quote or a line break, and otherwise printed as it stands |
| BaseTime.ReadRows | eduai-summer-2026/scripts/read-base-time.js:67-113 | each row becomes an entry or leaves one warning, numbered among the lines that are not blank; none is lost |
| BaseTime.ReadBaseTime | eduai-summer-2026/scripts/read-base-time.js:46-113 | from the lines of the file, blank ones included: the file is refused exactly when the header lacks a required name; otherwise each key's entry has the user, hours and notes of the cells of the first row with that key, in the columns the header names first, and each warning has its row and reason |
| BaseTime.HeaderExactly | eduai-summer-2026/scripts/read-base-time.js:55-65 | the columns are the first header cells that read `github_username`, `base_hours` and `notes` |
| BaseTime.AccountsBySyntax | eduai-summer-2026/scripts/read-base-time.js:67-113 | entries and warnings, row by row in terms of the cells: an `@` before the user is dropped, hours are a number not below zero, the first row of a user wins |
| BaseTime.KeptExactly | eduai-summer-2026/scripts/read-base-time.js:46-49 | every line that is not blank is kept |
| Text.TrimExactly | eduai-summer-2026/scripts/read-base-time.js:49-74 | `trim` takes away white space at both ends, all of it and nothing else |
| BaseTime.NumberedExactly | eduai-summer-2026/scripts/read-base-time.js:46-68 | a warning's number is the line's number in the file if and only if no blank line comes before it |
| BaseTime.BlankLineMisnumbers | eduai-summer-2026/scripts/read-base-time.js:46-79 | a file of three lines whose third line is warned about as line 2 |
| BaseTime.EntryForIsFirst | eduai-summer-2026/scripts/read-base-time.js:96-106 | the entry kept for a user is that of the first usable row |
| UnifiedDiff.AddedLinesByFile | eduai-summer-2026/scripts/pr-patch-coverage.js:119-142 | the loop over the lines is the reader that the next rows speak of, the inherited properties of its table and the error they cause included |
| UnifiedDiff.ExpectedIsUnion | eduai-summer-2026/scripts/pr-patch-coverage.js:109-110 | what should be read: for a file, exactly the lines some hunk of it adds |
| UnifiedDiff.DiffRead | eduai-summer-2026/scripts/pr-patch-coverage.js:119-142 | for every printed zero-context patch without an added text that begins with `++`: the reader throws if and only if a line is added to a file of an inherited name, and otherwise returns exactly the lines added to the other files |
| UnifiedDiff.DiffRoundTrip | eduai-summer-2026/scripts/pr-patch-coverage.js:122-141 | reading back any printed zero-context patch gives exactly its lines, provided no added text begins with `++` and no file has an inherited name |
| UnifiedDiff.DiffRoundTripExact | eduai-summer-2026/scripts/pr-patch-coverage.js:119-142 | for patches that add no line twice the proviso is exact: it is read back right if and only if both conditions hold |
| UnifiedDiff.InheritedNameThrows | eduai-summer-2026/scripts/pr-patch-coverage.js:126-136 | for each of the twelve inherited names, the patch that adds one line to a root-level file of that name makes the reader throw |
| UnifiedDiff.NoFileAddsNothing | eduai-summer-2026/scripts/pr-patch-coverage.js:122-136 | after `/dev/null` for a name, added lines are passed over |
| CompressRanges.MergeRuns | eduai-summer-2026/scripts/pr-patch-coverage.js:432-443 | the loop's ranges expand to the sorted input, and no range continues the one before |
| CompressRanges.SortsExactly | eduai-summer-2026/scripts/pr-patch-coverage.js:431 | the sorted input has the input's numbers, in ascending order |
| CompressRanges.Compress | eduai-summer-2026/scripts/pr-patch-coverage.js:430-445 | reading the printed text back gives the sorted input; the text is the ranges in print, a number alone, or first and last with a hyphen, with a comma and a blank between two |
| CompressRanges.PrintsLikeThis | eduai-summer-2026/scripts/pr-patch-coverage.js:429 | the example beside the source: 3, 4, 5, 9, 10 print as `3-5, 9-10` |
| CompressRanges.BeforeStartIsMissing | eduai-summer-2026/scripts/pr-patch-coverage.js:436-442 | for distinct inputs the number before a range's start is not in the input, so ranges are at least two apart |
| CompressRanges.FewestRanges | eduai-summer-2026/scripts/pr-patch-coverage.js:429-445 | for distinct inputs no shorter list of ranges covers the same numbers |
| PatchCoverage.CountFile | eduai-summer-2026/scripts/pr-patch-coverage.js:275-300 | every added executable line is counted once, as covered or among the uncovered, in any order of the set |
| PatchCoverage.Totals | eduai-summer-2026/scripts/pr-patch-coverage.js:304-314 | over all assessable files, lines covered plus lines listed as uncovered are the executable lines |
| PatchCoverage.TotalsAdd | eduai-summer-2026/scripts/pr-patch-coverage.js:304-314 | the totals of two lists of files add up, and one file's are its own |
| PatchCoverage.ReportUncovered | eduai-summer-2026/scripts/pr-patch-coverage.js:249-378 | from git's text to the printed ranges: they list, ascending, exactly the lines that some hunk adds to the file and that are executable and never ran; when the script throws instead is said too |
| CatalogSync.Database.Sync | apps/core/prisma/sync-ai-providers.ts:173-301 | the ordered upserts and updates are the table transformer of the next rows |
| CatalogSync.Database.ApplyRoutingTierAssignments | apps/core/prisma/sync-ai-providers.ts:16-89 | so is the tier part of the script |
| CatalogSync.SyncsRowByRow | apps/core/prisma/sync-ai-providers.ts:16-89 | what the whole script makes of any row, said in terms of that row and the catalog alone |
| CatalogRows.SyncedModel | apps/core/prisma/sync-ai-providers.ts:251-275 | a listed vLLM row after a sync, field by field: the catalog's name, description, limit and tools; images as listed if the row was there and none if new; streaming and pricing kept; tier, activity and estimate from assignments, retired and directly addressed models |
| CatalogRows.SyncedHosted | apps/core/prisma/sync-ai-providers.ts:196-249 | a listed hosted row, field by field: created as listed, or switched on and otherwise kept |
| CatalogRows.SyncedOpenCode | apps/core/prisma/sync-ai-providers.ts:277-301 | the OpenCode row, field by field |
| CatalogRows.SyncedOther | apps/core/prisma/sync-ai-providers.ts:16-89 | no other row is created, and one that is there changes in tier, activity and estimate only, as the tier part says |
| CatalogSync.SyncIdempotentExactly | apps/core/prisma/sync-ai-providers.ts:1-4 | for a catalog that lists no id twice, syncing twice is syncing once, on every table, if and only if each listed vLLM model supports no images and is not also retired, unless a tier assignment names it |
| CatalogSync.InconsistentCatalog | apps/core/prisma/sync-ai-providers.ts:28-66 | for any other catalog a table on which the second sync differs |
| CatalogSync.SharedCatalogIsIdempotent | apps/core/prisma/ai-model-catalog.ts:91-108 | the catalog in the repository meets the condition, whatever models are addressed directly |
| CatalogSync.ReenabledStays | apps/core/prisma/seed.ts:1187-1204 | over any run of syncs and edits a retired row that was re-enabled without a tier stays enabled until an edit of that row |
| CatalogSync.TieredRetiredIsDisabled | apps/core/prisma/sync-ai-providers.ts:59-66 | a retired row that holds a tier is disabled and cleared by the next sync |
| CatalogSync.UnlistedIsLeftAlone | apps/core/prisma/seed.ts:1187-1190 | over any run a vLLM row in none of the lists changes by the edits alone |
| IssueHours.Classify | eduai-summer-2026/scripts/parse-issue-hours.js:27-65 | the loop keeps the valid lines and the numbers of the invalid ones outside code fences |
| IssueHours.GroupByKey | eduai-summer-2026/scripts/parse-issue-hours.js:92-98 | the map holds, for each person and scope, exactly the entries with that key in order |
| IssueHours.ParseIssueHours | eduai-summer-2026/scripts/parse-issue-hours.js:67-184 | counted entries, reviews and warnings are those settled from the valid entries |
| IssueHours.EachLineLandsOnce | eduai-summer-2026/scripts/parse-issue-hours.js:100-184 | each valid hours line lands in exactly one of counted and manual review |
| IssueHours.CountedOncePerScope | eduai-summer-2026/scripts/parse-issue-hours.js:90-98 | no person is counted twice for one scope of an issue |
| IssueHours.KeysTellApart | eduai-summer-2026/scripts/parse-issue-hours.js:92-94 | two keys are equal exactly when person and scope are, up to case, for persons without a bar, which the pattern for names never matches |
| IssueHours.CountedExactly | eduai-summer-2026/scripts/parse-issue-hours.js:90-152 | which lines are counted and for whom, in terms of the lines: one that names a person, when no other names that person and scope up to case; and the only line of an issue, when it names nobody, for the sole assignee |
| IssueHours.ReviewedExactly | eduai-summer-2026/scripts/parse-issue-hours.js:100-184 | exactly the other valid lines await review |
| IssueHours.AskedExactly | eduai-summer-2026/scripts/parse-issue-hours.js:100-184 | each warning that asks for a review, with its exact reason in the lines |
| IssueHours.WarnedExactly | eduai-summer-2026/scripts/parse-issue-hours.js:67-83 | the warnings for missing and malformed hours |
| IssueHours.ValidExactly | eduai-summer-2026/scripts/parse-issue-hours.js:27-58 | a line is valid exactly when it has the form and an even number of fences comes before it |
| IssueHours.InvalidExactly | eduai-summer-2026/scripts/parse-issue-hours.js:27-65 | and invalid exactly when it only mentions the phrase, with an even number of fences before it |
| IssueHours.InvalidAscend | eduai-summer-2026/scripts/parse-issue-hours.js:27-65 | their numbers are in the order of the lines |
| IssueHours.CountedAreLines | eduai-summer-2026/scripts/parse-issue-hours.js:90-168 | the counted entries are those lines, each once, in whatever order the groups yield them |
| TeamReport.Report.CreateTeammate | eduai-summer-2026/scripts/generate-team-time-report.js:543-549 | an unknown user is added with no hours, a known one is left as it is |
| TeamReport.AddedFacts | eduai-summer-2026/scripts/generate-team-time-report.js:543-549 | being added changes no amount and no sum |
| TeamReport.Report.AddBase | eduai-summer-2026/scripts/generate-team-time-report.js:548-552 | the loop over the base-time entries assigns the base hours of each in turn |
| TeamReport.Report.AddCounted | eduai-summer-2026/scripts/generate-team-time-report.js:613-644 | one counted entry: a row that names its issue and its normalized user is added, the user is listed, and every teammate's and every issue's figure is still the sum of the counted rows that name it |
| TeamReport.Report.AddIssue | eduai-summer-2026/scripts/generate-team-time-report.js:606-654 | one issue adds exactly its rows, lists the persons its counted rows name, and keeps every teammate's and every issue's figure the sum of the counted rows that name it |
| TeamReport.BuildReport | eduai-summer-2026/scripts/generate-team-time-report.js:543-750 | each teammate's total is the base hours of their entry plus the hours of the counted rows that name them, each issue's figure that of its own rows; who is listed; and the sums by teammate, by issue and by counted row are equal, so the totals are base hours plus counted hours |
| TeamReport.FinalBase | eduai-summer-2026/scripts/generate-team-time-report.js:543-692 | the base figure of each user in the finished report is that of their entry, whoever joins before or after |
| TeamReport.FiguresFromLines | eduai-summer-2026/scripts/generate-team-time-report.js:606-634 | for all issues and every person: the hours credited to them are those of exactly the lines that are counted for them, line by line |
| TeamReport.IssueFiguresFromLines | eduai-summer-2026/scripts/generate-team-time-report.js:630-633 | for every number, the issue's figure is the hours counted in the issues of that number |
| TeamReport.RowsExactly | eduai-summer-2026/scripts/generate-team-time-report.js:634-654 | the rows of an issue in full: the counted entries with their normalized users, then those in review as written |
| TeamReport.IssueHoursConserved | eduai-summer-2026/scripts/generate-team-time-report.js:606-654 | for one issue, hours on valid lines are the hours counted plus the hours in review |
| TeamReport.HoursConserved | eduai-summer-2026/scripts/generate-team-time-report.js:599-655 | for all issues: no hours appear or vanish between the lines and the report |
| RaplEnergy.RaplDeltaJoules | tools/energy-meter/meter.py:60-83 | the two loops total the wrap-aware deltas of the paired zones, or give nothing |
| RaplEnergy.OneZone | tools/energy-meter/meter.py:63-82 | one zone's part: nothing without a partner of that name, else the difference to the last such zone, with the known range added when it wrapped |
| RaplEnergy.DeltaExactly | tools/energy-meter/meter.py:75-80 | one counter's delta is never more than the energy used, and is that energy if and only if less than one range was used or, where neither reading could read the range, the counter did not wrap |
| RaplEnergy.ReadingExactly | tools/energy-meter/meter.py:60-83 | whatever the order of the zones and whichever ranges could be read, the result is the true energy of all zones if and only if every zone's delta can tell |
| RaplEnergy.DeltasTelescope | tools/energy-meter/meter.py:60-83 | deltas over consecutive readings, each in any order, add up to at most the energy of the whole run, and to just that if and only if every step can tell, however often the counters went round |
| RaplEnergy.NeverNegative | tools/energy-meter/meter.py:75-82 | with readings inside their range the total is never negative, whatever zones are missing or repeated |
| GpuEnergy.Sampler.Stop | tools/energy-meter/meter.py:211-231 | the loop is the trapezoid sum, with the special cases of no and one sample |
| GpuEnergy.FewSamples | tools/energy-meter/meter.py:219-223 | no sample gives nothing; one gives its power over one interval, as if the clock had stood still after it; more are integrated |
| GpuEnergy.EnergyIsBounded | tools/energy-meter/meter.py:224-230 | for increasing times the energy lies between least and greatest power times elapsed time |
| GpuEnergy.EnergySplits | tools/energy-meter/meter.py:224-230 | the energy splits at any sample, for any times |
| GpuEnergy.AffineIsExact | tools/energy-meter/meter.py:224-230 | for power affine in time the energy is the integral |
| GpuEnergy.StallsAreOvercounted | tools/energy-meter/meter.py:229 | for any samples the energy is the trapezoids over the time that passed plus, for each pair whose clock did not advance, their mean power over the interval counted instead |
| GpuEnergy.ConstantPower | tools/energy-meter/meter.py:224-230 | at constant power the energy is that power over the elapsed time and the time so added |
| GpuEnergy.BoundedExactly | tools/energy-meter/meter.py:224-230 | for given sample times the energy lies between least and greatest power times elapsed time whatever the power if and only if the clock advances at every sample |
| EnergySession.Stop | tools/energy-meter/meter.py:260-284 | the total is the sum of what was measured and absent exactly when nothing was; the label says which parts it has; carbon is in proportion |
| EnergySession.SessionIsExact | tools/energy-meter/meter.py:260-272 | a session's total is the energy really used by processor and card |
| SessionTable.Server.MeasureStart | tools/energy-meter/server.py:91-107 | a start under the lock is the machine's step |
| SessionTable.Server.TakeSession | tools/energy-meter/server.py:111-119 | so is taking a session out, by tag or as the only one |
| SessionTable.Server.PublishResult | tools/energy-meter/server.py:123-124 | so is publishing the result, after the lock |
| SessionTable.EveryRun | tools/energy-meter/server.py:91-124 | in every interleaving: at most one session in the table, grants alternate start and stop of the same session beginning with a start, and no session is stopped twice |
| SessionTable.SecondConflictUnreachable | tools/energy-meter/server.py:93-106 | a start is granted exactly when the table is empty; the second conflict never arises |
| SessionTable.ActiveCanBeEnded | tools/energy-meter/server.py:112-119 | the active session can be ended by its tag or by none, and by no other tag |
| SessionTable.GrantedIsFound | tools/energy-meter/server.py:82-117 | a granted session is found by its tag, by the identifier made up for it when it has none, or by giving none, and by nothing else |
| SessionTable.OverlapExactly | tools/energy-meter/server.py:92-123 | two sessions measure at once in a run if and only if a start is granted before the last session taken out has been stopped |
| SessionTable.PatientCallersAreSafe | tools/energy-meter/server.py:92-124 | when callers wait for the answer to a stop, sessions never overlap and `/measure` reports the one ended last |
| SessionTable.LastResultExactly | tools/energy-meter/server.py:108-130 | however the requests under way are answered, `/measure` then reports the session ended last if and only if, now, no earlier session is still to be published and, when none is, that session is already reported |
| SessionTable.LatestExactly | tools/energy-meter/server.py:111-119 | the session ended last is the one that the last granted stop took out |
| SessionTable.LateResultWins | tools/energy-meter/server.py:92-124 | a run in which two sessions measure at once, and after which `/measure` reports an older session than the last |
| RoundRobin.Enroll | apps/core/scripts/seed-perf-volume.ts:592-608 | the nested loops yield the rows of all courses and count them |
| RoundRobin.NeverTwice | apps/core/scripts/seed-perf-volume.ts:594-595 | no student is enrolled in a course twice, for all numbers of courses, sizes and students |
| RoundRobin.CountExactly | apps/core/scripts/seed-perf-volume.ts:594-595 | how often each student is enrolled in all, in closed form |
| RoundRobin.EnrollmentIsFair | apps/core/scripts/seed-perf-volume.ts:594-595 | any two students' counts differ by at most one |
| LexicalScope.CollectInferTypeParameterNames | anti-slop/shared/lexical-type-parameters.ts:14-31 | adds exactly the names of the `infer` types that visited fields lead to |
| LexicalScope.LexicalTypeParameterNames | anti-slop/shared/lexical-type-parameters.ts:34-61 | for every tree and node the walk up collects exactly the names that scoping from the root down puts in scope there |
| LexicalScope.ScopeExactly | anti-slop/shared/lexical-type-parameters.ts:41-58 | scoping from the root down, said as binders on the path with no program at or below them |
| LexicalScope.FieldScope | anti-slop/shared/lexical-type-parameters.ts:41-58 | what is in scope one field below a node, kind by kind: own parameters, a mapped type's key in its name and value, inferred names in the true branch |
| LexicalScope.ProgramScope | anti-slop/shared/lexical-type-parameters.ts:41-44 | a program hides all that is around it |
| AssertionChains.IsOutermostAssertionInChain | anti-slop/rules/no-chained-type-assertions.ts:27-37 | the climb answers exactly whether the assertion is in no other assertion's chain |
| AssertionChains.IsForbiddenAssertionChain | anti-slop/rules/no-chained-type-assertions.ts:39-51 | the descent counts the chain and asks for a non-const assertion |
| AssertionChains.CheckTypeAssertion | anti-slop/rules/no-chained-type-assertions.ts:66-69 | an assertion is reported exactly when it is outermost and its chain has another assertion and one that is not `as const` |
| AssertionChains.ReportedExactly | anti-slop/rules/no-chained-type-assertions.ts:27-51 | counting along parentheses agrees with that definition by paths |
| AssertionChains.OneOutermost | anti-slop/rules/no-chained-type-assertions.ts:27-37 | every assertion belongs to exactly one maximal chain, so a chain is reported once |

## Left out

- ClassifyDictionarySound: asks, beyond names kept apart, for defaults that mention no parameter, for aliases and interfaces
  with different names, and for a table as `createTypeEnvironment` builds it. The first cannot be dropped
  (`ResolverLimits.RestartDiverges`, `ResolverLimits.RestartMisreports`); that it is necessary for every program is not claimed.
- ClassifyValueSound: one way only. The other way is false for generic aliases in general (`ResolverLimits.NestedArgumentIsMissed`,
  `ResolverLimits.OptionalNeverIsMissed`); `StratifiedResolver.ClassifyValueStratified` has it where levels fit.
- ClassifyDictionaryStratified: levels are sufficient for exact answers, not necessary.
- The meaning of a type is that of the rules, fully expanded, and not TypeScript's own type system: a name that is both an
  interface and an alias is looked up in the code's order, and the key that a mapped type binds is not looked up at all.
- The widening targets of `anti-slop/shared/dictionary-types.ts` (lines 331-465): the same resolver with a second table of
  kinds; they would repeat the results above with more cases.
- Regular expressions: a line of an issue comes classified as fence, hours line or other; the number in a hunk header and
  the trimming of names are modelled character by character.
- `Number` and `toLowerCase`: parameters of the models that use them.
- File names that git prints in quotes, and a failing `git diff`: the printer only prints names git leaves as they are.
- The lcov reader and its path mapping: `PatchCoverage.CountFile` starts from the hits of one file.
- The providers' own rows in the catalog sync, the seeding of anything but models, and database errors: the table starts with every
  provider known, as it is after the first upserts.
- Other code that patches `console` or `fetch` while the hook has them patched.
- React: effects and callbacks run when the model says they do, and a callback sees the current `enabled`.
- Floating point: hours, joules and rates are reals, rounding for display is left out.
- Reading sensors, files and the clock, and the failures of those calls: their results are parameters.
- The pull-request columns, date filters and roster warnings of the team report: they move no hours. The users whom pull
  requests bring into the report are a parameter.
- Request parsing, GPU index checks and status codes of the energy server: a request arrives as its tag.
- Chats, materials and embeddings of the seeding script: plain counting loops.
