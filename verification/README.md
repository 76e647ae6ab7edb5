# request-validator, verified

A Dafny 4.11 model of request-validator: an Envoy companion that evaluates one YAML policy
with two engines, an HTTP allow/deny engine (extAuthz) and a gRPC engine that rewrites traffic
(extProc). `dafny verify dfyconfig.toml` checks everything.

CEL is a library the model does not look into. `Policy.Cel` is a record of arbitrary functions
(does this source compile in this scope and type; what does this program yield on these
variables), so every statement holds for every CEL implementation. A program that may be nil is an
`Option<Program>`, and running one has a precondition: it exists, has the expected type, and its
scope's variables are bound.

| file | what it models |
|---|---|
| `Prelude.dfy`, `Ordering.dfy`, `Sequences.dfy` | decimal notation, trimming, 64-bit wrap-around, string order, insertion sort, sorted map keys, lists an order determines |
| `Transitions.dfy` | schedules of atomic steps: runs, their prefixes, and invariants over them |
| `Policy.dfy` | the configuration, `validate`, `compile`, and what an accepted policy guarantees |
| `Authz.dfy`, `AuthzSpec.dfy`, `HttpServer.dfy` | the extAuthz evaluator, the decision its declarations call for, and the HTTP handler that enforces it |
| `ExtProc.dfy`, `ExtProcSpec.dfy`, `Mutations.dfy` | the extProc evaluator, its result from the declared expressions alone, and the translation of mutations to Envoy's wire form |
| `Stream.dfy`, `StreamRuns.dfy`, `DryRun.dfy` | the ext_proc stream as a state machine, its whole runs under policy swaps, and what dry-run rules leave in them |
| `JsonPathParser.dfy`, `JsonPathGrammar.dfy`, `JsonPathEval.dfy`, `JsonPathOrder.dfy` | the JSONPath-lite parser, the grammar it accepts, the evaluator, and the order of its results |
| `Glob.dfy` | the glob to RE2 translator, with the RE2 fragment it targets |
| `Reload.dfy`, `Facts.dfy`, `Metrics.dfy`, `Caches.dfy`, `Debounce.dfy` | the concurrent protocols, as atomic steps of interleaved threads |
| `Lifecycle.dfy` | reloads and facts registries together: the process |
| `Redaction.dfy`, `ByteSize.dfy` | query and header redaction, byte-size parsing |

Sequential loops of the source are methods with loops, proved against functions; the stream and the
configuration are classes whose methods update their fields. A concurrent protocol is a state and a
partial function `Next` with one case per atomic access or critical section; its lemmas are over
every schedule of possible steps, so every interleaving is covered.

## Where the code and its documentation differ

The model follows the code. For each point a lemma says exactly when the documented or intended
behaviour holds, and where it can fail unexpectedly another gives a concrete witness.

- Mutations are documented as applied in order, but writes and removals travel in two lists. The
  split keeps the meaning, whichever list the proxy applies first, if and only if no header name is
  both written and removed (`SplitPreservesMeaning`); for each single order the exact condition is
  weaker (`SetThenRemoveExact`, `RemoveThenSetExact`). `SplitCanChangeMeaning` is a list neither order honours.
- `**` is documented to match any sequence of characters and `?` exactly one character, but `**` stops
  at a newline and `?` does not take a `/` (`DocumentedButRejected`). The code never accepts more than
  documented. On a given subject every supported glob agrees with the documentation if and only if the
  subject has neither a newline nor a `/` (`SubjectAsDocumented`); a given glob agrees on every subject
  if and only if it has neither `**` nor `?` (`GlobAsDocumented`).
- JSONPath results are documented to follow document order. With a recursive step two runs on one tree
  can list the same values in opposite orders (`RecursiveOrderIsFree`). The order is fixed if and only
  if no two results part at an object, in a recursive step, into two different fields with both going
  on below (`OrderFixedIff`); for a single descent, if and only if no object in the tree has two
  fields with results below them (`CollectOrderFixedIff`). The multiset is always fixed
  (`EvalDeterministic`).
- Both servers are meant to hold the reloaded policy. Two overlapping reloads can leave the gRPC
  server with a stopped policy (`OverlapStrandsGrpc`); `GrpcLiveIffSameWriter` gives the exact condition
  and `SerialReloadsAgree` covers reloads that do not overlap.
- A returned `Stop` of a facts registry is final if and only if `Start` has nothing left that it could
  store (`StopFreezes`); `StopDuringStartIsNotFinal` is a run where it has. `cmd/main.go` never stops a
  policy whose `Start` is running, because `Start` returns before `SetPolicy`, so such a run needs the
  package's own interface; in the process every returned `Stop` is final (`StoppedStaysFrozen`).
- `Stop` waits for refreshers that `Start` launches after `Stop` took the cancel functions, and nobody
  but the parent context cancels those (`StopCanWait`); `StopReturnsIff` says exactly when it can return
  by itself.
- Values shorter than twice `redactReveal` are documented to be fully masked. The doubling is done in
  64 bits: from 2^62 on it wraps and every non-empty value makes `mask` panic (`MaskPanicsIff`,
  `MaskCanPanic`).
- A deny status that net/http treats as informational (100 to 199 except 101) lets every denied request
  through with 200; `OkIffGranted` states the exact range.
- With `maxBodyBytes` at 2^63-1 the increment wraps and the HTTP engine evaluates an empty body; with a
  negative limit the handler panics (`EvaluatedBodyCases`, `Handle`).

## Model

| member | source | states |
|---|---|---|
| `Mutations.BuildMutations` | internal/grpcserver/server.go:479-538 | the wire lists are exactly the header writes and the removals of the mutation list, in order, and the body is the last setBody's |
| `Mutations.ApplyAllByName` | README.md:318-325 | applying operations one by one acts on each header name as that name's own history of writes and removals says: last set wins, appends keep order, removal empties |
| `Mutations.HeaderLaws` | README.md:318-325 | what one more operation does to every header and to the body: set leaves its value alone, append adds it at the end, remove leaves none, setBody rewrites content-length, setStatus :status, and nothing else changes |
| `Mutations.BodyIsLastSetBody` | internal/grpcserver/server.go:504-510 | the body after the whole ordered list is the last body set, or the original one |
| `Mutations.SetThenRemoveExact` | internal/grpcserver/server.go:484-535 | a proxy that writes first reproduces the ordered meaning if and only if no header is written after its last removal |
| `Mutations.RemoveThenSetExact` | internal/grpcserver/server.go:484-535 | a proxy that removes first reproduces the ordered meaning if and only if every write before a header's last removal is absent or overwritten after it |
| `Mutations.SplitPreservesMeaning` | internal/grpcserver/server.go:479-538 | both orders reproduce the ordered meaning, headers and body, if and only if no name is both written and removed, counting content-length and :status |
| `Mutations.SplitCanChangeMeaning` | internal/grpcserver/server.go:494-503 | append, remove, append on one name: the ordered meaning keeps one value, one wire order none, the other two |
| `Mutations.ContentLengthMatchesBody` | internal/grpcserver/server.go:504-517 | if some setBody ran and nothing names content-length, the final content-length is the decimal length of the final body, in the ordered meaning and in both wire orders |
| `Prelude.DecimalIsUnique` | internal/grpcserver/server.go:504-517 | a number is written as the only digit string of its value without leading zeros |
| `Policy.ValidateMutation` | internal/policy/policy.go:333-408 | accepts a mutation if and only if its op is known, its fields are as the op demands and the op is legal in the phase |
| `Policy.MutationTable` | internal/policy/policy.go:333-408 | op by op, which fields an accepted mutation has, which are empty, and the phases it is legal in |
| `Policy.ValidateMutations` | internal/policy/policy.go:324-409 | additionally, a directResponse is the only mutation of its rule |
| `Policy.ValidateRule` | internal/policy/policy.go:293-410 | accepts a rule if and only if name and match are present and its validation or mutation block fits the engine and mode |
| `Policy.ValidateRules` | internal/policy/policy.go:291-411 | accepts the rules if and only if each is well formed and names are pairwise distinct |
| `Policy.ValidateParameters` | internal/policy/policy.go:262-285 | accepts exactly the legal engine, mode and phase combinations |
| `Policy.Config.Validate` | internal/policy/policy.go:239-414 | accepts a configuration if and only if it is well formed as a whole |
| `Policy.Config.Compile` | internal/policy/policy.go:417-480 | succeeds if and only if every group compiles, and then every group is the compiled form of what was parsed |
| `Policy.CompilesIffDeclared` | internal/policy/policy.go:417-480 | a validated group compiles if and only if its guard, its rules and each mutation's expressions do, with the response declared exactly for extProc groups in a response phase |
| `Policy.CompiledScopes` | internal/policy/policy.go:420-431 | after compilation a program of a group, guard, rule or mutation, sees the response if and only if the group is an extProc group in a response phase |
| `Policy.Config.Load` | internal/policy/policy.go:152-175 | loads if and only if the policy is well formed, the CEL environment can be created, the facts declarations are accepted and every declared expression compiles in its scope; a loaded policy is valid, has every program present, sees the response exactly in response phases, and its registry is the one declared |
| `Policy.CompiledIsAccepted` | internal/policy/policy.go:417-480 | compilation preserves every condition validate checked and makes every group ready to run |
| `Authz.EvalGroup` | internal/policy/policy.go:511-573 | the group's verdict is decided at the first rule that breaks the run of expected outcomes, an error being one way to break it |
| `Authz.Evaluate` | internal/policy/policy.go:483-500 | the verdict is that of the first extAuthz group that decides, else the default; accepted policies never meet a missing program or validation block |
| `Authz.GroupVerdicts` | internal/policy/policy.go:511-581 | with allowOnError off, a group is undecided exactly when skipped without error and allows exactly when it grants |
| `Authz.AllowedIffGranted` | internal/policy/policy.go:483-581 | default deny, allowOnError off: allowed if and only if some extAuthz group grants and every earlier one is skipped without error |
| `AuthzSpec.DecidesIff` | internal/policy/policy.go:511-581 | for every setting, a group's decision, with its rule name, reason and dry-run flag, is the only one its declared expressions call for |
| `AuthzSpec.VerdictIff` | internal/policy/policy.go:483-581 | for every setting of allowOnError, default action and dry-run, the verdict is the one decision the declared expressions call for: that of the first extAuthz group that decides, or the default |
| `Authz.AuthzIsolated` | internal/policy/policy.go:486-494 | two policies with the same extAuthz groups, whatever extProc groups lie between, give the same verdict |
| `HttpServer.Handle` | internal/httpserver/server.go:112-228 | the answer denies with the configured status and body unless allowed or shadowed, and its one metric sample agrees with the diagnostic headers; the handler's own code panics only for a negative limit |
| `HttpServer.EvaluatedBodyCases` | internal/httpserver/server.go:121-141 | which body reaches the policy, for every 64-bit limit |
| `HttpServer.OkIffGranted` | internal/httpserver/server.go:112-228 | end to end, for every deny status: the client gets 200 if and only if the whole body was read within the limit and some group grants access after error-free skips, or the deny status is 200 or an informational one other than 101; a code outside 100 to 999 aborts the response |
| `ExtProc.ResolveMutations` | internal/policy/extproc.go:93-160 | the mutations of a rule that resolve, in order |
| `ExtProcSpec.ResolveDeclared` | internal/policy/extproc.go:98-157 | one resolved mutation, field by field: declared op, header name and status, the rule's name and dry-run flag, and what the declared expressions evaluate to; it is dropped if and only if one of them fails |
| `ExtProc.EvalProcGroup` | internal/policy/extproc.go:47-84 | firstMatch contributes the first true rule, applyAll every true rule in order; failing rules and guards contribute nothing |
| `ExtProc.EvaluateProc` | internal/policy/extproc.go:32-89 | the concatenated contributions of the phase's groups; accepted policies never run a missing program nor a response-scope one without a response |
| `ExtProcSpec.PhaseExplained` | internal/policy/extproc.go:32-160 | from the declared expressions alone: the result lists, in declaration order and each exactly once, field by field, the mutations of extProc groups of the phase with a true guard, by a rule that is true and, under firstMatch, the first true one; exactly those with a failing expression are missing |
| `ExtProcSpec.GroupIsRules` | internal/policy/extproc.go:47-84 | what the early-exit loop collects from a group is what its applying rules contribute, each judged on its own |
| `ExtProc.AcceptedNeverGoesWrong` | internal/policy/policy.go:417-480 | in an accepted policy every program either engine can reach exists, has the right type and finds its variables bound, and every extAuthz rule has its validation block |
| `ExtProc.RuleLegal` | internal/policy/policy.go:324-408 | a rule's resolved mutations are legal in its phase and a directResponse stands alone |
| `ExtProc.PhaseLegal` | internal/policy/extproc.go:45-88 | everything a phase resolves is legal in it; directResponse only in response phases with status 1 to 599 |
| `ExtProc.PhaseConcat` | internal/policy/extproc.go:45-88 | evaluating two concatenated group lists concatenates their results |
| `ExtProc.PhaseIsolated` | internal/policy/extproc.go:47-51 | groups of the other engine or of another phase, anywhere in the list, do not influence a phase |
| `Stream.HeadersFromMap` | internal/grpcserver/server.go:454-476 | absent for an empty map; otherwise every entry once with its value, overwriting, in increasing key order whatever order the map yields |
| `Stream.HandleProcResult` | internal/grpcserver/server.go:321-451 | the first live directResponse as an immediate response, otherwise exactly the live mutations in the phase's reply |
| `Stream.DryMutationsAreInvisible` | internal/grpcserver/server.go:324-385 | deleting every dry mutation leaves the reply unchanged |
| `Stream.GlobalDryRunIsBare` | internal/grpcserver/server.go:322-407 | under global dry-run the reply is a bare CONTINUE |
| `Stream.ProcessStream.Receive` | internal/grpcserver/server.go:96-316 | one message updates request, response and their bodies as specified and yields the specified reply, tagged with the message's own phase |
| `Stream.ProcessStream.Process` | internal/grpcserver/server.go:81-318 | one reply per received message, in order, until a send fails |
| `StreamRuns.StateIsTrace` | internal/grpcserver/server.go:105-240 | after any run the stream holds, per direction, the last headers message and the concatenation of all chunks since it, counting messages handled under a loaded policy |
| `StreamRuns.RepliesFollowTrace` | internal/grpcserver/server.go:87-318 | every reply of every run, under any schedule of policy swaps, is the one its message history calls for |
| `StreamRuns.ReplySafety` | internal/grpcserver/server.go:87-451 | each of the four kinds of message is answered with its own tag; no policy or dry-run gives a bare CONTINUE; an immediate response occurs exactly for a non-dry failing overflow (500) or the first live directResponse, whose status, headers and body it carries, the latter only for response messages with status 1 to 599; otherwise exactly the live mutations are sent |
| `StreamRuns.EvaluatedPhase` | internal/grpcserver/server.go:105-309 | each kind of message that does not overflow evaluates its own phase of the policy in force, on the request its history shows, the response it shows in response phases only, and the facts in force |
| `DryRun.PhaseSilenced` | internal/policy/extproc.go:93-160 | the live mutations of a phase are what the policy resolves when the mutations of its dry-run rules are taken out |
| `DryRun.DryRulesDoNotShow` | internal/grpcserver/server.go:321-407 | no mutation of a dry-run rule reaches a reply: in every run under any policy swaps the replies are those of the policies with these mutations taken out |
| `StreamRuns.ReplyMeaning` | internal/grpcserver/server.go:402-407 | a proxy applying a phase reply in either order gets the live mutations' ordered meaning if and only if no name is both written and removed; replies without an evaluation change nothing |
| `StreamRuns.OverflowIsSticky` | internal/grpcserver/server.go:131-187 | once a direction overflows, every later body message of it overflows until its next headers message, as long as the limit does not rise |
| `StreamRuns.EvaluatedWithinLimit` | internal/grpcserver/server.go:133-202 | a body phase overflows exactly when the accumulated body exceeds the limit in force, and otherwise evaluates exactly that body |
| `JsonPathParser.ReadStep` | internal/jsonpath/jsonpath.go:63-95 | each accessor is consumed as the grammar says and the measure strictly decreases |
| `JsonPathParser.Compile` | internal/jsonpath/jsonpath.go:55-106 | terminates on every text, including the branch that lengthens it, and returns the steps the text denotes or its error |
| `JsonPathParser.PrintThenParse` | internal/jsonpath/jsonpath.go:48-106 | printing a list of expressible steps and parsing it gives the list back |
| `JsonPathParser.ParsedIsPrintable` | internal/jsonpath/jsonpath.go:48-106 | everything the parser accepts is expressible by the printer |
| `JsonPathParser.ParserInvertsPrinter` | internal/jsonpath/jsonpath.go:48-110 | the expressible step lists are exactly those some text denotes, and parsing inverts printing on them |
| `JsonPathParser.CanonicalForm` | internal/jsonpath/jsonpath.go:55-106 | every accepted text has a canonical form that denotes the same steps |
| `JsonPathGrammar.GrammarIff` | internal/jsonpath/jsonpath.go:48-106 | a text compiles to a step list if and only if, after an optional $, it is one spelling per step: dotted, bare, single- or double-quoted keys, integer indices, [*] and ..name, with names read to their end |
| `JsonPathGrammar.KeySpellings` | internal/jsonpath/jsonpath.go:63-106 | at the head of any path, valid or not, the dotted, the bare and the two quoted spellings of a key mean the same |
| `JsonPathEval.CollectRecursive` | internal/jsonpath/jsonpath.go:160-174 | in any map order, appends the value of each location that ends with the name, at any depth, exactly once, own field first and then child by child in some visiting order |
| `JsonPathEval.SelectValues` | internal/jsonpath/jsonpath.go:119-150 | the values a key, index or wildcard step selects, in order |
| `JsonPathEval.IndexReaches` | internal/jsonpath/jsonpath.go:126-135 | [i] reaches the element at position i and [-k] the k-th from the end, and nothing else |
| `JsonPathEval.ApplyStep` | internal/jsonpath/jsonpath.go:118-154 | one node under one step yields each selected location's value exactly once |
| `JsonPathEval.EvalStep` | internal/jsonpath/jsonpath.go:116-155 | one step turns an enumeration of all descents matching a prefix into one for the longer prefix |
| `JsonPathEval.Eval` | internal/jsonpath/jsonpath.go:114-158 | in any map order the result lists the value reached by each matching descent exactly once, in an order some choice of visiting orders gives; without recursive steps it is one fixed sequence |
| `JsonPathEval.EvalDeterministic` | internal/jsonpath/jsonpath.go:114-174 | any two runs on the same tree return the same multiset of values |
| `JsonPathOrder.RecursiveOrderIsFree` | internal/jsonpath/jsonpath.go:112-174 | two runs of collectRecursive on one tree list the same two values in opposite orders |
| `JsonPathOrder.CollectOrderFixedIff` | internal/jsonpath/jsonpath.go:160-174 | all runs of collectRecursive list the same locations in the same order if and only if no object in the tree has two fields with results below them |
| `JsonPathOrder.PairOrder` | internal/jsonpath/jsonpath.go:112-174 | for any two results of a path: some runs list them one way and some the other if and only if they part in a recursive step, at an object, into different fields, with both going on below |
| `JsonPathOrder.OrderFixedIff` | internal/jsonpath/jsonpath.go:112-174 | all runs of Eval follow the same descents in the same order if and only if no two results are such a pair |
| `JsonPathOrder.FixedOrderFixesResult` | internal/jsonpath/jsonpath.go:112-174 | without such a pair any two runs return the same sequence of values |
| `Ordering.SortStrings` | internal/jsonpath/jsonpath.go:178-184 | sorts in place: the array ends sorted and is a permutation of what it was |
| `Ordering.LeqByFirstDifference` | internal/jsonpath/jsonpath.go:178-184 | keys are ordered by their first differing character, a prefix coming first |
| `Ordering.ListSorted` | internal/jsonpath/jsonpath.go:142-146 | listing a map's keys in any order and sorting them gives one determined list |
| `Glob.GlobRE2` | internal/celenv/strings.go:79-111 | the anchored concatenation of the tokens' texts |
| `Glob.TranslationParses` | internal/celenv/strings.go:79-111 | RE2 reads the emitted text of a supported glob as exactly one item per token |
| `Glob.TranslationPreservesMeaning` | internal/celenv/strings.go:79-111 | on every subject the emitted pattern accepts exactly the strings of the pattern language read character by character: two stars in a row anywhere are any text within one line, one star text without '/', '?' one character but '/', a closed bracket one of its characters |
| `Glob.MatcherMeansShell` | internal/celenv/strings.go:83-108 | reading a glob token by token means the same as that language, for every glob and subject, as documented and as implemented |
| `Glob.SupportedIff` | internal/celenv/strings.go:83-108 | the globs covered, read off the pattern: no { before a digit, and closed brackets that list letters, digits and ranges |
| `Glob.SubjectAsDocumented` | internal/celenv/strings.go:22-31 | every supported glob treats a subject as documented if and only if the subject has neither a newline nor a '/' |
| `Glob.GlobAsDocumented` | internal/celenv/strings.go:22-31 | a supported glob means what is documented on every subject if and only if it has neither two stars in a row nor a '?' |
| `Glob.DocumentedButRejected` | internal/celenv/strings.go:26-28 | '**' rejects a lone newline and '?' a lone '/', although documented to match |
| `Caches.CompileIsTransparent` | internal/celenv/env.go:101-134 | under any interleaving each compile call succeeds exactly when a fresh one would, with a program of its own scope, type and source |
| `Caches.MatchGlobIsTransparent` | internal/celenv/strings.go:113-125 | for every pattern and every regexp library, with any reachable cache matchGlob answers as it would without one |
| `Caches.CachedGlobMeaning` | internal/celenv/strings.go:113-125 | with RE2, whatever the cache went through, a supported glob accepts exactly its language |
| `Reload.ReloadConserves` | cmd/main.go:68-87 | under every interleaving, before shutdown: each policy ever installed is exactly one of current, held by exactly one in-flight reload, or stopped exactly once; the current one is never stopped; when nothing is in flight all others are stopped once |
| `Reload.FailureChangesNothing` | cmd/main.go:69-79 | under every interleaving, erasing the steps of a reload whose load or start fails leaves a schedule that ends with the same servers, reloads in flight and stopped policies |
| `Reload.EraseUnswapped` | cmd/main.go:69-80 | the same for any reload that has not yet swapped its policy in, up to its own bookkeeping |
| `Reload.GrpcLiveIffSameWriter` | cmd/main.go:80-85 | with no reload in flight the gRPC server's policy is unstopped, and equal to the HTTP server's, if and only if both servers were last written by the same reload |
| `Reload.OverlapStrandsGrpc` | cmd/main.go:80-85 | a schedule of two overlapping reloads that leaves the gRPC server with a stopped policy |
| `Reload.SerialReloadsAgree` | cmd/main.go:68-101 | if reloads do not overlap the gRPC server never holds a stopped policy and both servers agree whenever none is in flight |
| `Facts.New` | internal/facts/facts.go:92-142 | accepts exactly the declarations with distinct non-empty names whose fields fit their method, and holds every inline value |
| `Facts.FreshHoldsDeclared` | internal/facts/facts.go:92-142 | the registry has exactly the declared names; inline entries hold their declared value, file and url entries nothing yet |
| `Facts.CellsAreTruthful` | internal/facts/facts.go:147-205 | at every moment of every run: inline values are the declared ones, other entries show their latest stored body, and nothing is empty once Start has returned |
| `Facts.SnapshotSafety` | internal/facts/facts.go:222-233 | a snapshot, loaded entry by entry, covers exactly the declared names, each entry is what its cell held at some moment of the call, and none is empty if Start had returned before |
| `Facts.StopFreezes` | internal/facts/facts.go:147-218 | after Stop returns no value ever changes again if and only if Start has nothing left that it could store: no first fetch or launch under a live context and no file or fetchable entry to visit |
| `Facts.StopDuringStartIsNotFinal` | internal/facts/facts.go:147-218 | a Stop that returns while Start is running does not prevent a later change |
| `Facts.StopReturnsIff` | internal/facts/facts.go:170-218 | in every run a Stop that has called its cancel functions can return by itself if and only if the parent context is cancelled or no refresher was launched since it took them, that is, every running refresher has been cancelled; cancelling the parent always lets it return |
| `Facts.StopCanWait` | internal/facts/facts.go:170-218 | a refresher launched after Stop took the cancel functions keeps Stop waiting until the parent context is cancelled |
| `Lifecycle.ServedFactsAreLive` | cmd/main.go:55-87 | at every moment of the process the policy either server holds has all its facts, before shutdown nobody has begun to stop the HTTP server's registry, and Stop is only called on registries whose Start has returned |
| `Lifecycle.StoppedStaysFrozen` | cmd/main.go:68-87 | in the process the values of a stopped registry never change again |
| `Lifecycle.ProcessRunsReloads` | cmd/main.go:68-114 | every run of the process contains a reload schedule with the same effect, so the reload theorems hold of it |
| `Metrics.RecordConserves` | internal/httpserver/metrics.go:39-61 | under any interleaving each total is the sum of its per-rule counters plus the calls between the two increments, each counter is the number of finished calls with its key, and at quiescence totals equal the number of calls |
| `Metrics.RunKeepsPublished` | internal/httpserver/metrics.go:49-60 | a published counter is never replaced and never decreases |
| `Debounce.Run` | internal/configwatch/watch.go:41-94 | exactly the relevant events with no later relevant event and no cancellation before their deadline lead to a callback, once each, in order, and exactly one interval after the event |
| `Debounce.RelevantIff` | internal/configwatch/watch.go:96-111 | relevant are exactly creations, writes, renames and mode changes of the watched name or of ..data; a removal alone is not |
| `Debounce.IrrelevantHasNoEffect` | internal/configwatch/watch.go:88-111 | inserting an irrelevant event anywhere changes no callback |
| `Debounce.ChangesAreReported` | internal/configwatch/watch.go:60-92 | every relevant event is followed by a callback for it or a later one, unless a cancellation comes before a deadline |
| `Redaction.LowerSet` | internal/accesslog/accesslog.go:115-124 | the set of trimmed lower-case non-empty names |
| `Redaction.RedactedQuery` | internal/accesslog/accesslog.go:145-165 | the query with each sensitive pair's value replaced, for any decoding of names |
| `Redaction.PairRedaction` | internal/accesslog/accesslog.go:153-163 | a name=value pair becomes name=*** exactly when its decoded lower-case name is configured; a pair without = is left alone |
| `Redaction.ConfiguredNames` | internal/accesslog/accesslog.go:115-164 | in the whole query a pair loses its value exactly when its name matches a configured one up to letter case and surrounding spaces |
| `Redaction.RedactionKeepsPairs` | internal/accesslog/accesslog.go:153-164 | number and order of pairs are kept and non-sensitive pairs are unchanged |
| `Redaction.RedactionIsIdempotent` | internal/accesslog/accesslog.go:145-165 | redacting twice is redacting once |
| `Redaction.SecretsDoNotShow` | internal/accesslog/accesslog.go:153-164 | queries that differ only in the values of sensitive parameters are logged identically |
| `Redaction.MaskHides` | internal/accesslog/accesslog.go:131-139 | for counts below 2^62 a mask keeps the length, reveals at most half, and depends only on the length and the revealed prefix |
| `Redaction.MaskPanicsIff` | internal/accesslog/accesslog.go:131-139 | a mask panics if and only if the value is not empty, the count is at least 2^62 so that its double wraps, and the value is shorter than the count |
| `Redaction.MaskCanPanic` | internal/accesslog/accesslog.go:135-138 | a count of 2^62 panics on a one-character value |
| `ByteSize.Unmarshal` | internal/policy/policy.go:736-772 | the value of a size text, or an error |
| `ByteSize.ParseInvertsPrint` | internal/policy/policy.go:736-772 | every 64-bit count in every unit, letter case and spacing reads back as count times multiplier, modulo 2^64 when that overflows |
| `ByteSize.UnitTable` | internal/policy/policy.go:747-765 | b is 1, kb 1000, mb 1000000, kib 1024, mib 1048576 and gib 1073741824 |
| `ByteSize.ParsesIff` | internal/policy/policy.go:736-772 | a text has a value if and only if it reads as a 64-bit number, signed or with leading zeros, and a unit in any letter case, with only spaces around them; the value is their product modulo 2^64 |

## Left out

- CEL compilation and evaluation, YAML and JSON decoding, regexp, net and url internals: libraries, represented by arbitrary functions; of RE2 only the fragment the glob translator emits has a meaning here.
- Listeners, real timers, fsnotify, file reads and URL fetches: only their outcomes appear, as inputs or steps.
- Logging and access-log attributes other than redaction: formatting.
- celenv's net, http, encoding, time and data helpers, `applyDefaults`, request and response variable building, header and client-IP parsing: single lookups and flat field copies that would only add easy members.
- Error and reason texts: `validate`, `compile` and the evaluators report which case occurred, not the wording; `validate` and `compile` report failure without saying which check failed first.
- The order in which Envoy applies the set and remove lists: not part of the repository, so both orders are treated.
- Release of fetchers started by a policy whose `Start` failed part-way, and anything after shutdown has stopped the current policy: outside the reload invariant.
- 64-bit wrap-around of the metrics counters: counters are unbounded.
- Facts.StopReturnsIff: one call of Stop per registry is modelled, as `cmd/main.go` makes; url fetches begun under a cancelled context fail, those already in flight may still succeed.
- HttpServer.Handle: the reason header and the access-log record repeat the decision's wording and are not modelled; a read error that arrives together with the last byte the limit admits counts as no error.
- Glob.TranslationParses: globs with a `{` before a digit, and bracket classes with anything but letters, digits and ranges of them, are not covered, because RE2's counted repetition, negated and named classes are not modelled.
- Glob.TranslationPreservesMeaning: the same globs are not covered; text is a sequence of runes, so invalid UTF-8 is not covered.
- Prelude.TrimSpacePadded: spaces are those of Latin-1, and letter case is ASCII, wherever the source uses Unicode tables.
