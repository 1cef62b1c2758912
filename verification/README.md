# Verified models of the JARVIS substrate

This project models the stateful and algorithmic core of the plugin SDK, the subagent policy, the node host and the
telemetry filter, and proves what that code promises. Code that changes objects step by step is modelled by classes and
methods with loops, and each method is proved equal to a specification function; the properties are then proved about
that function, for every input, every run or every document.

| Modules | Modelled code | Main results |
|---|---|---|
| `FiniteSets`, `Reachability`, `DeclarationGraph`, `ClosureSteps`, `ClosureReports`, `RenderedSections`, `DeclarationClosure`, `StarExports` | the memoised declaration closure of the API baseline, over an abstract declaration graph | every list rendered is exactly the reachable sections, on cyclic graphs and after any earlier calls, and those are each export's own statements and all that they bring along; exactly when a rendering throws instead; when a name counts as not found, and which provider it comes from |
| `ReplayProtocol`, `ReplayHistory`, `ReplayRuns`, `ReplayGuard` | multi-key replay claims over the claimable dedupe store, one step per stretch of code between awaits | in-flight keys are exactly the keys of unsettled claims and those are disjoint; handles settle only their own keys, once; exactly when a failing claim does; what a claim answers, what a commit comes to and what is recorded, told from the run |
| `FeatureWatch` | the watched query of a feature client | ordered, live, unrepeated deliveries; once nothing is left to run the last delivery replies to a request issued after every event that asked for one |
| `Base64Spec`, `Base64` | the three base64 scans, against an encoder and a decoder of RFC 4648, sections 3.2, 3.5 and 4 | canonical form exactly for encodings, exact sizes, whitespace does not matter |
| `IngressFanIn` | several durable claims behind one lifecycle | at most one release per source; what an adoption leaves in any interleaving, accepted or rejected |
| `TextOrder`, `ApiDiff` | the API diff and the text order it sorts by | the payload is a patch, does not depend on the order of the input lists, is mirrored in reverse, and conserves declarations |
| `ConfigTree`, `AllowlistEdit`, `AllowlistEditor`, `AllowlistEffects` | allowlist edits inside a nested configuration document | what is written, from the stored or the inherited entries, and where; repeated and undone edits, one canonical path, nothing else changes |
| `SecretMasking` | secret masking of log text | no secret left, idempotent, what is kept comes unchanged and in order from the input |
| `ApprovalControls`, `ApprovalHistory` | the native approval control registry | one resolver per token, one settlement, one callback, retry after failure; what is bound and claimed, told from the run |
| `SubagentLineage`, `SubagentEnvelope` | subagent depth, capabilities and stored envelopes | depth as a closed form over any parent relation, the depth limit over all spawns, envelope detection |
| `SystemRunPolicy`, `SystemRun` | the `system.run` pipeline as a trace of effects | exactly when a command is launched, which reason a denied one is given, and what every trace keeps |
| `Options`, `StringCoercion`, `JsonStrings`, `ChannelRoute` | channel routes and their keys | JSON string arrays are unambiguous; equal keys exactly for matching routes |

Where the code and what its documentation or comments say differ, the model follows the code:

- Unresolved dependencies are collected in one set that all renderings of a renderer share (lines 193, 310 and 327 of
  `api-baseline-declaration-closure.ts`), and a rendering that is not remembered throws while that set is not empty (line
  675). So whether an export renders or throws does depend on earlier calls: with one clean and one dirty export, the clean
  one renders before the dirty one, throws after it, and still comes back once it is remembered. `DeclarationClosure.ThrowsExactly` gives the exact condition over
  every sequence of calls, `DeclarationClosure.OrderMattersIff` says for which programs order matters, and
  `DeclarationClosure.TwoFilesMeet`, `RenderedBefore` and `RefusedAfter` show the runs. What is rendered never depends on it.
- An `export *` cycle makes a name that nothing provides render as nothing instead of as the whole owner file
  (`StarExports.UnprovidedName` says exactly when), and a cycle that the ordered search runs into before a provider hides
  the provider (`StarExports.SearchDecides` and `StarExports.HiddenIff` say exactly when, over all programs, and
  `StarExports.CycleHidesProvider` is an instance). The closure theorems need no hypothesis about such cycles: a name is
  missing when the ordered search fails within finitely many levels.
- `forget` is meant to remove only committed rows. A key that is being probed, or whose owner entry went when a sibling's
  commit was rejected, is in flight without an owner entry, so `forget` can drop it and the store can then grant it twice.
  `ReplayProtocol.ForgetKeepsIff` gives the exact condition, `ReplayRuns.RacingForgetGrantsTwice` a run, and
  `ReplayRuns.FailureReleasesForeignKey` shows that the failing path of a claim, unlike a handle, releases without asking
  who owns the key. It releases another's key exactly when a later event granted that key to another claim
  (`ReplayHistory.FailureOwnsIff`, on every run).
- The fan-in comment says its flag is set once every claim is terminal. A completed adoption does not set it, so a release
  callback after it reaches the adopted sources (`IngressFanIn.ReleaseAfterAdoption`, `IngressFanIn.ReleaseReachesIff`).
- The watch loses the answer for good when the host drops and restores the connection before telling its listeners
  (`FeatureWatch.UnannouncedFlipLosesAnswer`). Convergence is proved for hosts that announce each change before the next one.
- "No changes" also needs the same entrypoints, not only the same exports (`ApiDiff.NoChangesIff`, and
  `ApiDiff.EmptyEntrypointIsAChange` for an instance).
- An allowlist entry of white space alone is written but never read back, so adding it twice reports a change twice
  (`AllowlistEdit.ResultIff`, `AllowlistEdit.EditTwice`, `AllowlistEdit.BlankEntryChangesTwice`).
- A token registered again after its claim was dropped can have two resolvers in flight and settle twice
  (`ApprovalControls.SafeIff`, `ApprovalControls.RegisteringAgainSettlesTwice`).
- A session that is its own ancestor need not be one deeper than its parent (`SubagentLineage.ChildIsOneDeeperIff`,
  `SubagentLineage.OwnParentIsNotDeeper`).

Helpers outside the modelled files enter as parameters: lower case, account identifiers and account lookup, key parsing
for session depth and kind, the rule that asks for exec approval, and every answer of the host, its configuration, its
companion and its auto-review. `StableLookup` states the one fact needed about account lookup, and depth below the limit
is what allows a spawn.

## Model

| member | source | states |
|---|---|---|
| DeclarationGraph.MissingStar | substrate/plugin-sdk/api-baseline-declaration-closure.ts:630-646 | the star entries of a name that is not found are not found either, at a smaller search depth, so the ordered search is well founded |
| StarExports.MissingIsUnprovided | substrate/plugin-sdk/api-baseline-declaration-closure.ts:622-646 | a failed search met no provider and no star cycle |
| StarExports.MissingIff | substrate/plugin-sdk/api-baseline-declaration-closure.ts:622-646 | a name is not found exactly when no file along any star path provides it and none of them is on a star cycle |
| StarExports.UnprovidedName | substrate/plugin-sdk/api-baseline-declaration-closure.ts:630-667 | a name nothing provides renders as the owner's whole file set exactly when no star cycle is reachable, and as nothing otherwise |
| StarExports.SearchDecides | substrate/plugin-sdk/api-baseline-declaration-closure.ts:591-646 | whatever star cycles there are: a name whose search does not fail is rendered as exactly the closure of the provider the ordered search comes to first, which is unique, and as nothing when the search comes to none |
| StarExports.HiddenIff | substrate/plugin-sdk/api-baseline-declaration-closure.ts:591-646 | the search comes to no provider exactly when it runs into a cycle of its own steps; cycles off its way are harmless |
| StarExports.FirstEntryDecides | substrate/plugin-sdk/api-baseline-declaration-closure.ts:630-646 | the first entry of the search that is not external decides at once when it fails or declares the name |
| StarExports.ProvidedName | substrate/plugin-sdk/api-baseline-declaration-closure.ts:630-646 | in particular, where no star cycle is reachable a provided name has one first provider and is rendered as exactly its closure |
| StarExports.CycleHidesProvider | substrate/plugin-sdk/api-baseline-declaration-closure.ts:591-646 | a concrete program in which a star cycle hides the provider and nothing is rendered |
| Reachability.LastVisit | substrate/plugin-sdk/api-baseline-declaration-closure.ts:591-594 | a path that avoids the active keys can be shortened to one that never comes back to its start, the argument behind walking with an active set |
| Reachability.AvoidingUnfold | substrate/plugin-sdk/api-baseline-declaration-closure.ts:591-621 | what is reached off the active keys is a node's own or is reached from a successor off the active keys and the node |
| ClosureSteps.AnswerFromTargets | substrate/plugin-sdk/api-baseline-declaration-closure.ts:594-655 | if a walk holds its own sections and what each target must give, it keeps the walk's promise: everything off the active keys, and everything at all when untainted |
| ClosureSteps.AnswerBackEdge | substrate/plugin-sdk/api-baseline-declaration-closure.ts:591-593 | the tainted empty answer on a back edge keeps the promise |
| ClosureSteps.UntaintedIsExact | substrate/plugin-sdk/api-baseline-declaration-closure.ts:649-654 | an untainted result is the whole closure, so storing it is sound |
| ClosureSteps.AnswerIsExact | substrate/plugin-sdk/api-baseline-declaration-closure.ts:658-667 | at the root even a tainted result is exactly the closure |
| DeclarationClosure.Renderer.constructor | substrate/plugin-sdk/api-baseline-declaration-closure.ts:658-683 | a new renderer is idle and all its caches are true |
| DeclarationClosure.Renderer.Render | substrate/plugin-sdk/api-baseline-declaration-closure.ts:658-682 | after any earlier calls: declines exactly files it does not own; gives back a remembered list; otherwise adds exactly what its own rendering meets to the unresolved dependencies, throws exactly when there are any by then, and else returns and remembers the sorted sections of exactly what the export reaches. The list holds every statement of a declared name under its name, the globals of its file and the statements or whole files its references name, holds nothing but statements under their declared names, globals and file texts, and stands in the order of names and then texts; a file that cannot resolve what it imports, exports or re-exports makes every fresh rendering throw |
| DeclarationClosure.Renderer.RenderFresh | substrate/plugin-sdk/api-baseline-declaration-closure.ts:667-679 | the same for an export that is not remembered |
| DeclarationClosure.Renderer.WalkRoot | substrate/plugin-sdk/api-baseline-declaration-closure.ts:667 | the root walk falls back exactly for names not found, meets exactly the unresolved dependencies of its own rendering whatever the caches hold, and leaves the active sets as they were |
| DeclarationClosure.Renderer.FallbackFile | substrate/plugin-sdk/api-baseline-declaration-closure.ts:482-506 | collects the text of every file newly visited, every file reached from them is visited, and the unresolved dependencies of all of them are noted |
| DeclarationClosure.Renderer.RecallFallback | substrate/plugin-sdk/api-baseline-declaration-closure.ts:508-513 | an untainted walk with exactly the texts of the files reachable through module references |
| DeclarationClosure.Renderer.AmbientContribution | substrate/plugin-sdk/api-baseline-declaration-closure.ts:515-543 | keeps the walk's promise for ambient globals, restores the active set, stores only complete results |
| DeclarationClosure.Renderer.WalkSideEffects | substrate/plugin-sdk/api-baseline-declaration-closure.ts:526-538 | the same for the side effects of one file, complete when untainted |
| DeclarationClosure.Renderer.ResolveWalkDependency | substrate/plugin-sdk/api-baseline-declaration-closure.ts:545-557 | the walk of a dependency holds what its target gives, whichever of the four kinds it is |
| DeclarationClosure.Renderer.WalkStatementImports | substrate/plugin-sdk/api-baseline-declaration-closure.ts:559-579 | holds only sections of the statement's targets and covers every import type in it |
| DeclarationClosure.Renderer.WalkReferences | substrate/plugin-sdk/api-baseline-declaration-closure.ts:605-619 | holds only sections of the statement's targets and covers every referenced name |
| DeclarationClosure.Renderer.WalkDeclaration | substrate/plugin-sdk/api-baseline-declaration-closure.ts:581-656 | null exactly for names not found, otherwise keeps the walk's promise; terminates by the keys not yet active and restores the active sets |
| DeclarationClosure.Renderer.WalkStatements | substrate/plugin-sdk/api-baseline-declaration-closure.ts:598-621 | the promise for a declared name, from its statements and ambient globals |
| DeclarationClosure.Renderer.WalkReexport | substrate/plugin-sdk/api-baseline-declaration-closure.ts:625-629 | the promise for a re-exported name, local or from a module |
| DeclarationClosure.Renderer.WalkExportStars | substrate/plugin-sdk/api-baseline-declaration-closure.ts:630-646 | the ordered search: null exactly when every entry is passed over, otherwise the promise for the first entry that is not |
| DeclarationClosure.SectionLessStrictTotal | substrate/plugin-sdk/api-baseline-declaration-closure.ts:668-670 | the section order by name and then text is a strict total order |
| DeclarationClosure.RenderingIsUnique | substrate/plugin-sdk/api-baseline-declaration-closure.ts:658-682 | two lists rendered for one export are the same list, so what is rendered does not depend on call order |
| RenderedSections.DeclaredIs | substrate/plugin-sdk/api-baseline-declaration-closure.ts:595-621 | a declared export is rendered as exactly its statements under its name, the ambient sections of its file, and all that its import types and references bring along |
| RenderedSections.ReexportedIs | substrate/plugin-sdk/api-baseline-declaration-closure.ts:622-629 | a re-exported name is rendered as the declaration it stands for, or as what its module brings along |
| RenderedSections.SearchedIs | substrate/plugin-sdk/api-baseline-declaration-closure.ts:630-646 | a searched name is rendered as the first entry that is not passed over, or as the whole file if that entry fails |
| RenderedSections.FallbackIs | substrate/plugin-sdk/api-baseline-declaration-closure.ts:482-506 | a whole-file rendering is the file text and the whole files it refers to |
| RenderedSections.AmbientIs | substrate/plugin-sdk/api-baseline-declaration-closure.ts:515-543 | ambient sections are the globals of a file, its whole files if a side effect fails, and those of its side-effect imports |
| RenderedSections.RenderingHolds | substrate/plugin-sdk/api-baseline-declaration-closure.ts:598-606 | what every rendered list of a declared export holds, and that all it holds is real |
| RenderedSections.OwnIsMet | substrate/plugin-sdk/api-baseline-declaration-closure.ts:305-336 | whatever an export uses of its file, rendering it meets what the file cannot resolve |
| RenderedSections.DeclaredMeets | substrate/plugin-sdk/api-baseline-declaration-closure.ts:559-621 | a declared export meets exactly what its file cannot resolve, what the ambient files meet, and what each statement cannot resolve or brings along |
| RenderedSections.ReexportedMeets | substrate/plugin-sdk/api-baseline-declaration-closure.ts:622-629 | a re-exported name meets exactly what its file cannot resolve and what it is re-exported from |
| RenderedSections.SearchedMeets | substrate/plugin-sdk/api-baseline-declaration-closure.ts:630-646 | the ordered search meets what each entry it comes to meets, and the whole file where it fails |
| RenderedSections.FallbackMeets | substrate/plugin-sdk/api-baseline-declaration-closure.ts:482-506 | whole files meet what they cannot resolve and what the files they refer to meet |
| RenderedSections.AmbientMeets | substrate/plugin-sdk/api-baseline-declaration-closure.ts:515-543 | ambient files meet what they cannot resolve and what their side effects meet |
| DeclarationClosure.RememberedIs | substrate/plugin-sdk/api-baseline-declaration-closure.ts:672-682 | after any sequence of calls some unresolved dependency is known exactly when some call met one, and remembered are exactly the clean exports asked for before that |
| DeclarationClosure.SpoiledIff | substrate/plugin-sdk/api-baseline-declaration-closure.ts:658-682 | a clean export is not remembered although something was met exactly when an earlier call met something before the export was first asked for |
| DeclarationClosure.ThrowsExactly | substrate/plugin-sdk/api-baseline-declaration-closure.ts:658-682 | after any sequence of calls an export throws exactly when its own rendering meets an unresolved dependency, or an earlier call met one before the export was first asked for |
| DeclarationClosure.OrderMattersIff | substrate/plugin-sdk/api-baseline-declaration-closure.ts:675-677 | some export throws after some calls and not after others exactly when the program has an export whose rendering meets an unresolved dependency and one whose rendering does not |
| DeclarationClosure.TwoFilesMeet | substrate/plugin-sdk/api-baseline-declaration-closure.ts:305-327 | a concrete program with one export of each kind |
| DeclarationClosure.RenderedBefore | substrate/plugin-sdk/api-baseline-declaration-closure.ts:658-682 | a clean export renders, a dirty one throws, and the clean one then comes back from memory unchanged |
| DeclarationClosure.RefusedAfter | substrate/plugin-sdk/api-baseline-declaration-closure.ts:658-682 | after a dirty export has thrown, a clean one throws as well |
| DeclarationClosure.Renderer.GetIndex | substrate/plugin-sdk/api-baseline-declaration-closure.ts:343-467 | an indexed file is noted exactly when one of the dependencies its index resolves is unresolved |
| DeclarationClosure.Renderer.NoteDependency | substrate/plugin-sdk/api-baseline-declaration-closure.ts:305-336 | resolving notes the importing file exactly when the dependency is unresolved |
| DeclarationClosure.Renderer.WalkStar | substrate/plugin-sdk/api-baseline-declaration-closure.ts:631-644 | one entry of the ordered search: null exactly when it is passed over, otherwise the promise, with all it meets noted |
| ClosureReports.KeyMetMeets | substrate/plugin-sdk/api-baseline-declaration-closure.ts:581-656 | if all a walk can ask for is walked and all it can meet is noted, step by step as the walk goes, then every visit and every report of the declaration is covered |
| ClosureReports.KeyMeetsMet | substrate/plugin-sdk/api-baseline-declaration-closure.ts:581-656 | and conversely, so the two accounts of what a declaration's walk meets agree |
| ClosureReports.ClosedMet | substrate/plugin-sdk/api-baseline-declaration-closure.ts:581-656 | once everything walked has been walked through, every unresolved dependency anywhere behind a walked declaration is noted, cached or not |
| ClosureReports.ScopeMet | substrate/plugin-sdk/api-baseline-declaration-closure.ts:581-656 | and nothing is noted beyond what the root's own rendering reaches |
| ClosureReports.ClosedAmbient | substrate/plugin-sdk/api-baseline-declaration-closure.ts:515-543 | the same for ambient files through side-effect imports |
| ClosureReports.ClosedFallback | substrate/plugin-sdk/api-baseline-declaration-closure.ts:482-506 | the same for the files of a whole-file fallback |
| ClosureReports.DependencyMetIff | substrate/plugin-sdk/api-baseline-declaration-closure.ts:545-557 | what a dependency walks and meets, in each of its four cases |
| ClosureReports.MetIsReal | substrate/plugin-sdk/api-baseline-declaration-closure.ts:305-331 | only files that have an unresolved dependency are met |
| ReplayProtocol.QuietRunsKeepTheBooks | substrate/plugin-sdk/channel-replay-guard.ts:65-271 | over every run without a racing forget, and in which the store loses no key in flight, the keys in flight are exactly those unsettled claims hold, the claims' keys are disjoint, and owner entries match claims |
| ReplayProtocol.StepKeeps | substrate/plugin-sdk/channel-replay-guard.ts:100-271 | every single step keeps these books |
| ReplayProtocol.ForgetKeepsIff | substrate/plugin-sdk/channel-replay-guard.ts:260-271 | a forget keeps the books exactly when it names no key in flight without an owner entry, and then touches no key in flight |
| ReplayProtocol.UnguardedInFlight | substrate/plugin-sdk/channel-replay-guard.ts:127-145 | a key in flight without an owner entry is being probed or was stranded by a rejected commit, and conversely |
| ReplayProtocol.FailedClaimLeavesNothing | substrate/plugin-sdk/channel-replay-guard.ts:185-194 | a claim whose store call throws leaves none of its keys in flight or owned |
| ReplayProtocol.GrantIsExclusive | substrate/plugin-sdk/channel-replay-guard.ts:176-184 | when the store grants a claim a key it was in flight for that claim and not recorded, the claim becomes its owner, and no other claim holds it |
| ReplayHistory.FinishIs | substrate/plugin-sdk/channel-replay-guard.ts:195-209 | on every run, once the store has answered for all its keys a claim is claimed exactly when some key was granted, with those keys in order; otherwise in flight exactly when one was met in flight, and a duplicate exactly when every key was recorded |
| ReplayHistory.BeganWith | substrate/plugin-sdk/channel-replay-guard.ts:166-184 | a claim under way has the distinct keys it began with |
| ReplayHistory.RecordedUntilDropped | substrate/plugin-sdk/persistent-dedupe.ts:586-666 | on every run a key counts as recorded exactly when a commit of it succeeded and no forget or expiry has dropped it since |
| ReplayProtocol.HandlesAreCareful | substrate/plugin-sdk/channel-replay-guard.ts:100-164 | on every run, racing or not and whatever the store loses, handles settle only keys they own, and no claim settles a key twice or by two routes |
| ReplayRuns.RacingForgetGrantsTwice | substrate/plugin-sdk/channel-replay-guard.ts:260-271 | a run in which a forget of a probed key lets two claims hold it |
| ReplayRuns.FailureReleasesForeignKey | substrate/plugin-sdk/channel-replay-guard.ts:185-194 | after that race a failing claim releases a key another handle owns |
| ReplayRuns.QuietFailureOwnsItsKeys | substrate/plugin-sdk/channel-replay-guard.ts:185-194 | on quiet runs the failing path releases only its own keys |
| ReplayHistory.OwnsUntilTaken | substrate/plugin-sdk/channel-replay-guard.ts:177-184 | on every run a claim under way owns a key it was granted exactly until some event grants the key to another claim |
| ReplayHistory.FailureOwnsIff | substrate/plugin-sdk/channel-replay-guard.ts:185-194 | on every run, racing or not, the failing path releases as its own exactly those granted keys that no later event granted to another claim |
| ReplayProtocol.Unique | substrate/plugin-sdk/channel-replay-guard.ts:58-63 | the keys of an event without repetition, none lost |
| ReplayProtocol.UniqueKeepsOrder | substrate/plugin-sdk/channel-replay-guard.ts:58-63 | distinct keys stand in the order in which they were first seen |
| ReplayProtocol.NamedKeysAre | substrate/plugin-sdk/channel-replay-guard.ts:58-63 | the keys of a claim are its trimmed values under its namespace, blanks left out, and no others |
| ReplayProtocol.DropKeepsIff | substrate/plugin-sdk/channel-replay-guard.ts:65-68 | a store that loses keys by itself keeps the books exactly when none of them is in flight |
| ReplayProtocol.OutcomeIsFinal | substrate/plugin-sdk/channel-replay-guard.ts:113-145 | a commit has one outcome, shared by repeated calls, that no later event changes |
| ReplayHistory.RecordedIff | substrate/plugin-sdk/channel-replay-guard.ts:92-98 | on every run a commit rejects exactly when one of its store commits failed, resolves exactly when none failed and all its keys were taken, and then to true exactly when one of them was not recorded before |
| ReplayGuard.Guard.Open | substrate/plugin-sdk/channel-replay-guard.ts:166-175 | opens a claim for the distinct keys left after trimming; invalid exactly when every value is blank or absent |
| ReplayGuard.Guard.ProbeNext | substrate/plugin-sdk/persistent-dedupe.ts:606-628 | one store claim begins: in flight elsewhere, or put in flight |
| ReplayGuard.Guard.AnswerProbe | substrate/plugin-sdk/channel-replay-guard.ts:177-194 | the store's answer is recorded, or a throw gives up every granted key |
| ReplayGuard.Guard.FinishClaim | substrate/plugin-sdk/channel-replay-guard.ts:195-209 | claimed, in flight or duplicate, as `ReplayHistory.FinishIs` tells from the run |
| ReplayGuard.Guard.MarkCommitting | substrate/plugin-sdk/channel-replay-guard.ts:119-126 | collects and marks exactly the keys still owned in the claimed state |
| ReplayGuard.Guard.CommitHandle | substrate/plugin-sdk/channel-replay-guard.ts:112-146 | one commit settles the handle; later calls change nothing and share its outcome |
| ReplayGuard.Guard.CommitReturned | substrate/plugin-sdk/persistent-dedupe.ts:643-666 | one store commit ends: the key leaves flight, recorded only on success |
| ReplayGuard.Guard.FinalizeCommit | substrate/plugin-sdk/channel-replay-guard.ts:136-143 | drops the owner entries still its own |
| ReplayGuard.Guard.ReleaseHandle | substrate/plugin-sdk/channel-replay-guard.ts:147-162 | releases exactly the keys still owned, once |
| ReplayGuard.Guard.ForgetKeys | substrate/plugin-sdk/channel-replay-guard.ts:260-271 | forgets exactly the keys without an owner entry, and answers whether the store answered yes for any of them |
| ReplayGuard.Guard.SettleProcessed | substrate/plugin-sdk/channel-replay-guard.ts:233-249 | guarded processing settles its handle on every exit except a throwing error callback, by commit or release as asked |
| FeatureWatch.RunTracked | substrate/plugin-sdk/feature-contract.ts:125-174 | on every run requests carry increasing generations, deliveries are ordered and unrepeated, one microtask is queued at most, and an answer is owed exactly when nothing dropped it |
| FeatureWatch.DeliveryIsLive | substrate/plugin-sdk/feature-contract.ts:144-155 | something is delivered only by the newest request's reply to a live, connected watch; after disposal nothing is issued or delivered |
| FeatureWatch.Converges | substrate/plugin-sdk/feature-contract.ts:129-166 | with a host that announces each change before the next, once nothing is left to announce a live connected watch has its newest generation queued, asked for or answered |
| FeatureWatch.QuiescentIsAnswered | substrate/plugin-sdk/feature-contract.ts:129-166 | when nothing is left to announce or to run the last delivery answers the last trigger |
| FeatureWatch.LastDeliveryAnswers | substrate/plugin-sdk/feature-contract.ts:125-166 | when nothing is left to announce or to run, the last delivery is the reply to a request that a microtask issued after every watched event and every noticed change of the connection |
| FeatureWatch.TriggerQueuesOne | substrate/plugin-sdk/feature-contract.ts:129-158 | a watched event on a live, connected watch queues one microtask, unless one is queued |
| FeatureWatch.IssueIsLive | substrate/plugin-sdk/feature-contract.ts:135-143 | requests are issued only by a microtask of a live, connected watch, for the newest generation; every event that asks makes a newer one |
| FeatureWatch.AbortedNeverAsks | substrate/plugin-sdk/feature-contract.ts:174-180 | a watch whose host is aborted at the start never asks and never delivers |
| FeatureWatch.WorkShrinks | substrate/plugin-sdk/feature-contract.ts:135-156 | each microtask and reply leaves less work, so quiescence is reached |
| FeatureWatch.UnannouncedFlipLosesAnswer | substrate/plugin-sdk/feature-contract.ts:144-165 | a run in which an unannounced drop of the connection loses the answer for good |
| FeatureWatch.Watch.constructor | substrate/plugin-sdk/feature-contract.ts:125-180 | starts disposed on an aborted signal, otherwise with a first refresh |
| FeatureWatch.Watch.RefreshNow | substrate/plugin-sdk/feature-contract.ts:129-134 | a new generation, and a microtask only for a live, connected, idle watch |
| FeatureWatch.Watch.RunMicrotask | substrate/plugin-sdk/feature-contract.ts:135-143 | issues one request for the newest generation, unless disposed or disconnected |
| FeatureWatch.Watch.OnReply | substrate/plugin-sdk/feature-contract.ts:144-155 | delivers only a current reply of a live, connected watch |
| FeatureWatch.Watch.OnConnectionChange | substrate/plugin-sdk/feature-contract.ts:159-166 | refreshes exactly when the connection seen last has changed |
| FeatureWatch.Watch.DisposeWatch | substrate/plugin-sdk/feature-contract.ts:167-174 | disposal outdates every request |
| Base64Spec.DecodeBare | substrate/plugin-sdk/base64.ts:79-90 | decoding undoes encoding for all bytes |
| Base64Spec.BareDecode | substrate/plugin-sdk/base64.ts:144-147 | encoding undoes decoding for letters whose spare bits are zero |
| Base64Spec.AlphabetIs | substrate/plugin-sdk/base64.ts:79-90 | the alphabet of RFC 4648, table 1 |
| Base64Spec.TestVectors | substrate/plugin-sdk/base64.ts:92-98 | test vectors of RFC 4648, section 10 |
| Base64.CanonicalIff | substrate/plugin-sdk/base64.ts:96-152 | the answer is `t` exactly when the text without whitespace encodes some bytes, with all its padding or none, and `t` is their padded encoding |
| Base64.OnlyOneMeaning | substrate/plugin-sdk/base64.ts:92-98 | no text encodes two byte strings |
| Base64.CanonicalIsIdempotent | substrate/plugin-sdk/base64.ts:92-98 | canonical text is its own canonical form |
| Base64.UnchangedIff | substrate/plugin-sdk/base64.ts:51-77 | text comes back unchanged exactly when it is valid and its spare bits are zero |
| Base64.EstimateIsExact | substrate/plugin-sdk/base64.ts:1-39 | the estimate is the decoded length of everything that is accepted |
| Base64.WhitespaceIsIgnored | substrate/plugin-sdk/base64.ts:8-14 | inserting or removing whitespace anywhere changes neither the estimate nor the canonical form |
| Base64.BlanksAreIgnored | substrate/plugin-sdk/base64.ts:8-14 | code units up to the blank, wherever they stand, change neither result |
| Base64.ForeignIsRejected | substrate/plugin-sdk/base64.ts:100-134 | one code unit that is no letter, padding or blank rejects the text |
| Base64.IsValidBase64 | substrate/plugin-sdk/base64.ts:55-77 | the loop accepts exactly padded, whitespace-free text of whole groups |
| Base64.CanonicalizeBase64 | substrate/plugin-sdk/base64.ts:96-152 | the scan with its lazily allocated buffer stays in bounds and computes the canonical form |
| Base64.Finish | substrate/plugin-sdk/base64.ts:135-151 | length, padding and spare-bit checks after the scan decide exactly the canonical form |
| Base64.EstimateBase64DecodedBytes | substrate/plugin-sdk/base64.ts:2-39 | the backward scan computes the estimate of the text without whitespace |
| IngressFanIn.AtMostOneRelease | substrate/plugin-sdk/channel-ingress-runtime.ts:159-285 | under any calls in any order each source gets at most one release callback |
| IngressFanIn.RunReleasesOnce | substrate/plugin-sdk/channel-ingress-runtime.ts:164-171 | all releases are one batch, and after it nothing more is released |
| IngressFanIn.RejectedAdoption | substrate/plugin-sdk/channel-ingress-runtime.ts:185-200 | adoption as the first terminal call, with deferrals before it and helpers, deferrals and other replies between its own: rejected by source `i`, exactly the earlier ones are adopted, the rest released once, the rejection is the outcome, and nothing later reaches a source; otherwise every source is adopted and none released |
| IngressFanIn.RejectionIsFinal | substrate/plugin-sdk/channel-ingress-runtime.ts:159-285 | after a rejected adoption no helper, release or deferral changes anything |
| IngressFanIn.HelpersSettleEverySource | substrate/plugin-sdk/channel-ingress-runtime.ts:262-284 | with helpers only, every source ends either adopted or released, never both and never neither |
| IngressFanIn.ReleaseAfterAdoption | substrate/plugin-sdk/channel-ingress-runtime.ts:160-171 | a release callback after a completed adoption reaches every adopted source |
| IngressFanIn.ReleaseReachesIff | substrate/plugin-sdk/channel-ingress-runtime.ts:160-260 | after any calls a release callback gets through exactly when no source has been released yet, adopted or not, and then reaches every source |
| IngressFanIn.ReleaseIs | substrate/plugin-sdk/channel-ingress-runtime.ts:176-222 | what a release reaches: the sources from the rejecting one on or all of them, in order, each through the callback for what happened if it has it and `onAbandoned` if it has not; cancellation only if all sources support it |
| IngressFanIn.HandoffIs | substrate/plugin-sdk/channel-ingress-runtime.ts:222-284 | every callback and helper takes the sources over, and from then on the helpers do nothing |
| IngressFanIn.FanIn.ReleaseFrom | substrate/plugin-sdk/channel-ingress-runtime.ts:165-184 | releases each source from an index on through its strongest callback, once |
| IngressFanIn.FanIn.BeginAdoption | substrate/plugin-sdk/channel-ingress-runtime.ts:222-225 | hands off and asks the first source |
| IngressFanIn.FanIn.OnAdoptReply | substrate/plugin-sdk/channel-ingress-runtime.ts:189-200 | goes on to the next source, ends, or gives up the rest |
| IngressFanIn.FanIn.LifecycleRelease | substrate/plugin-sdk/channel-ingress-runtime.ts:245-260 | failure and abandonment release every source at most once |
| IngressFanIn.FanIn.LifecycleCancel | substrate/plugin-sdk/channel-ingress-runtime.ts:249-256 | cancellation through the combined lifecycle |
| IngressFanIn.FanIn.LifecycleDefer | substrate/plugin-sdk/channel-ingress-runtime.ts:226-231 | deferral hands off and releases nothing |
| IngressFanIn.FanIn.HelperSettle | substrate/plugin-sdk/channel-ingress-runtime.ts:263-270 | adopts only if nothing was handed off |
| IngressFanIn.FanIn.HelperAbandon | substrate/plugin-sdk/channel-ingress-runtime.ts:271-276 | abandons or fails only if nothing was handed off |
| IngressFanIn.FanIn.HelperCancel | substrate/plugin-sdk/channel-ingress-runtime.ts:279-284 | cancels only if nothing was handed off |
| TextOrder.OrderedUnique | substrate/plugin-sdk/api-diff.ts:72-74 | a list ordered by a strict total order is determined by its contents |
| TextOrder.SortedAscending | substrate/plugin-sdk/api-diff.ts:72-74 | sorting a list without repetition is strictly ascending with the same elements |
| TextOrder.TextLessIff | substrate/plugin-sdk/api-diff.ts:72-74 | a text comes first when it is a proper prefix or has the smaller code unit where they first differ |
| ApiDiff.DiffIsPatch | substrate/plugin-sdk/api-diff.ts:268-370 | applying the payload to what was offered before gives exactly what is offered after |
| ApiDiff.ChangeRowsAre | substrate/plugin-sdk/api-diff.ts:285-357 | the rows are strictly ascending and there is one for exactly each export that differs |
| ApiDiff.RecordIff | substrate/plugin-sdk/api-diff.ts:302-356 | an export has a record exactly when what is offered under its name differs |
| ApiDiff.RowsTell | substrate/plugin-sdk/api-diff.ts:299-356 | each row holds both sides as the surfaces offer them, a later entry replacing an earlier one, and is added, removed, a signature change or a reachable change exactly as those sides differ |
| ApiDiff.RowsCover | substrate/plugin-sdk/api-diff.ts:285-357 | exactly the exports that differ have a row, in code-unit order of entrypoints and names |
| ApiDiff.GainedIs | substrate/plugin-sdk/api-diff.ts:285-298 | the entrypoints listed are exactly those one surface has and the other has not, in order, with specifier and sorted export names |
| ApiDiff.PayloadIs | substrate/plugin-sdk/api-diff.ts:268-370 | which side is listed as added and as removed, and that all declaration changes are on the first row |
| ApiDiff.DeclarationsAscend | substrate/plugin-sdk/api-diff.ts:217-251 | declaration rows stand in the order of their names |
| ApiDiff.ReverseMirrors | substrate/plugin-sdk/api-diff.ts:268-370 | diffing in reverse exchanges the entrypoint lists and mirrors every row, its declaration changes included; a row keeps its import specifier exactly when both surfaces agree on it |
| ApiDiff.DeclarationsMirror | substrate/plugin-sdk/api-diff.ts:217-251 | declaration changes in reverse are the same rows with before and after exchanged |
| ApiDiff.NoChangesIff | substrate/plugin-sdk/api-diff.ts:372-378 | no changes are reported exactly when entrypoints and offered exports are the same |
| ApiDiff.EmptyEntrypointIsAChange | substrate/plugin-sdk/api-diff.ts:372-378 | a new entrypoint without exports is a change although nothing offered differs |
| ApiDiff.DiffIsCanonical | substrate/plugin-sdk/api-diff.ts:268-370 | surfaces that list the same things in any order give the same payload |
| ApiDiff.DiffIgnoresOrder | substrate/plugin-sdk/api-diff.ts:268-370 | rearranging modules, the exports of each module and the sections, on either side, leaves the payload as it is |
| ApiDiff.ModulesPermute | substrate/plugin-sdk/api-diff.ts:272-277 | the order of modules does not matter when each entrypoint is listed once |
| ApiDiff.ExportsPermute | substrate/plugin-sdk/api-diff.ts:253-265 | the order of exports does not matter when each name is listed once |
| ApiDiff.DeclarationsConserved | substrate/plugin-sdk/api-diff.ts:217-251 | per name the texts reported gone and new are exactly the two differences, in as many rows as the longer one has |
| ApiDiff.DiffPluginSdkApi | substrate/plugin-sdk/api-diff.ts:268-370 | the loops compute the specified payload |
| ApiDiff.DiffExports | substrate/plugin-sdk/api-diff.ts:299-356 | the loop over one entrypoint's exports computes its rows |
| ApiDiff.CollectDeclarationChanges | substrate/plugin-sdk/api-diff.ts:217-251 | the loops compute the specified declaration rows |
| ApiDiff.GroupMissing | substrate/plugin-sdk/api-diff.ts:221-234 | groups exactly the sections only one side has, by name |
| ApiDiff.PairUp | substrate/plugin-sdk/api-diff.ts:238-249 | pairs two lists row by row, the shorter one padded |
| ConfigTree.GetOfSet | substrate/plugin-sdk/allowlist-config-edit.ts:214-251 | what was written at a path is read there, and below it |
| ConfigTree.SetFrame | substrate/plugin-sdk/allowlist-config-edit.ts:225-251 | a write is seen only along its own path |
| ConfigTree.SetThrough | substrate/plugin-sdk/allowlist-config-edit.ts:225-238 | writing along a path is writing what its first part leads to |
| ConfigTree.DeleteIff | substrate/plugin-sdk/allowlist-config-edit.ts:253-267 | after a deletion the path is empty exactly unless it was a field of an array |
| ConfigTree.DeleteFrame | substrate/plugin-sdk/allowlist-config-edit.ts:253-267 | a deletion is seen only along its own path |
| AllowlistEdit.SourcePathsAreCanonical | substrate/plugin-sdk/allowlist-config-edit.ts:37-51 | the three path sets write one list, read or clean nothing else, and do not overlap |
| AllowlistEdit.UniqueIsClean | substrate/plugin-sdk/allowlist-config-edit.ts:296-298 | the list an edit starts from holds trimmed, non-empty, distinct entries |
| AllowlistEdit.OneCanonicalPath | substrate/plugin-sdk/allowlist-config-edit.ts:330-338 | after a changing edit the write path holds the one list and every other path that is read holds none |
| AllowlistEdit.EditReadsBack | substrate/plugin-sdk/allowlist-config-edit.ts:285-338 | what is read after an edit is the edited list, whether it was stored or inherited before; `AllowlistEffects.EditWrites` says which entries those are |
| AllowlistEdit.EditTwice | substrate/plugin-sdk/allowlist-config-edit.ts:308-328 | the same edit changes something again exactly when it adds white space alone that nothing matches |
| AllowlistEdit.BlankEntryChangesTwice | substrate/plugin-sdk/allowlist-config-edit.ts:285-338 | a blank entry added to an empty list is written, not read back, and a change again the second time |
| AllowlistEdit.ResultIff | substrate/plugin-sdk/allowlist-config-edit.ts:306-328 | adding makes the entry readable unless it is white space, removing makes it unreadable, and every other entry stays |
| AllowlistEdit.RemoveUndoesAdd | substrate/plugin-sdk/allowlist-config-edit.ts:308-328 | removing what was just added gives back the list there was |
| AllowlistEditor.ResolvesReady | substrate/plugin-sdk/allowlist-config-edit.ts:169-212 | once a write target is resolved there is nothing left to create for it |
| AllowlistEditor.ReadyStays | substrate/plugin-sdk/allowlist-config-edit.ts:183-212 | writing inside the target, away from its accounts, leaves the same target to be found |
| AllowlistEditor.EditLeavesTheRest | substrate/plugin-sdk/allowlist-config-edit.ts:269-347 | whatever the outcome, a path that neither leads to the target nor meets an edited path reads as before; where no target can be resolved, every path that does not lead to the accounts |
| AllowlistEditor.EditedTarget | substrate/plugin-sdk/allowlist-config-edit.ts:330-347 | a finished edit leaves a document in which the same target is found and holds the edited values |
| AllowlistEditor.DocumentReadsBack | substrate/plugin-sdk/allowlist-config-edit.ts:269-347 | the list read back from the whole document is the edited list, and the outcome says whether it changed |
| AllowlistEditor.SecondEditChangesNothing | substrate/plugin-sdk/allowlist-config-edit.ts:269-347 | making an edit again reports no change and leaves the document as it is |
| AllowlistEditor.RemoveRestoresTheList | substrate/plugin-sdk/allowlist-config-edit.ts:308-338 | adding a new entry and removing it gives back the list there was, on the whole document |
| AllowlistEffects.EditWrites | substrate/plugin-sdk/allowlist-config-edit.ts:269-347 | told from the document before: an edit reports a change exactly when the entry is new or is there to be removed, and then the write path holds the stored entries, or the inherited ones where no list was stored, trimmed, not blank, each once and in order, with the entry added or what is like it removed |
| AllowlistEffects.UniqueListsOnce | substrate/plugin-sdk/allowlist-config-edit.ts:296-298 | the unique entries are the trimmed ones that are not blank, each once, in the order first seen |
| AllowlistEffects.TargetIs | substrate/plugin-sdk/allowlist-config-edit.ts:169-212 | the channel is edited exactly for a blocked account, or the default account of a channel without accounts; otherwise the account under the key found for it |
| AllowlistEffects.FailsIff | substrate/plugin-sdk/allowlist-config-edit.ts:169-212 | an edit cannot be placed exactly when something that is no object stands in the way |
| AllowlistEditor.ConfigEditor.ResolveWriteTarget | substrate/plugin-sdk/allowlist-config-edit.ts:169-212 | resolves and creates the channel or account to edit in place, or fails where the document's shape stops the write |
| AllowlistEditor.ConfigEditor.EnsureNestedObject | substrate/plugin-sdk/allowlist-config-edit.ts:225-238 | the loop turns everything along the path into objects and keeps what was one |
| AllowlistEditor.ConfigEditor.SetNestedValue | substrate/plugin-sdk/allowlist-config-edit.ts:240-251 | an in-place write equals one write along the whole path |
| AllowlistEditor.ConfigEditor.DeleteNestedValue | substrate/plugin-sdk/allowlist-config-edit.ts:253-267 | an in-place deletion equals deletion inside the target |
| AllowlistEditor.ConfigEditor.CollectStored | substrate/plugin-sdk/allowlist-config-edit.ts:285-295 | the loops collect every entry of every list that is read |
| AllowlistEditor.ConfigEditor.KeepOthers | substrate/plugin-sdk/allowlist-config-edit.ts:317-327 | the loop keeps exactly the entries that do not match |
| AllowlistEditor.ConfigEditor.WriteList | substrate/plugin-sdk/allowlist-config-edit.ts:330-338 | writes the list and cleans the other paths in place, whatever the paths |
| AllowlistEditor.ConfigEditor.ApplyEdit | substrate/plugin-sdk/allowlist-config-edit.ts:269-347 | the whole edit in place equals the specified one, for every outcome and any paths |
| SecretMasking.MatchesIff | src/jarvis/telemetry.py:14-19 | a text matches exactly when a prefix of it is a word of the pattern, and the longest such prefix is taken |
| SecretMasking.MaskHidesEverySecret | src/jarvis/telemetry.py:22-29 | after all four substitutions no pattern matches anywhere |
| SecretMasking.NoSecretIsLeft | src/jarvis/telemetry.py:22-29 | no stretch of the masked text is a word of any pattern |
| SecretMasking.PatternsAre | src/jarvis/telemetry.py:14-19 | the four kinds of secret spelled out, in the order of substitution |
| SecretMasking.NoSecretSurvives | src/jarvis/telemetry.py:22-29 | masked text holds none of the four kinds, and text is left alone exactly when it holds none |
| SecretMasking.GoogleKeyIsRedacted | src/jarvis/telemetry.py:22-29 | a Google key alone becomes the redaction text |
| SecretMasking.NoMatchStays | src/jarvis/telemetry.py:27-28 | a later substitution creates no match for any pattern |
| SecretMasking.MaskKeepsTheRest | src/jarvis/telemetry.py:22-29 | the output is the input in contiguous pieces in order: kept characters unchanged, cut pieces whole secrets |
| SecretMasking.MaskIsIdempotent | src/jarvis/telemetry.py:22-29 | masking twice is masking once |
| SecretMasking.MaskChangesIff | src/jarvis/telemetry.py:22-29 | text is left alone exactly when it holds no secret |
| SecretMasking.SubstituteIsRedact | src/jarvis/telemetry.py:27-28 | substituting in text is redacting its tokens: no match starts in or crosses an earlier redaction |
| SecretMasking.MaskSecrets | src/jarvis/telemetry.py:22-29 | the loop over the patterns computes the mask, hides every secret and keeps the rest |
| ApprovalControls.RunsAreExclusive | substrate/plugin-sdk/approval-native-controls.ts:11-96 | over all interleavings with safe registrations no two resolvers of one token are in flight |
| ApprovalControls.SafeIff | substrate/plugin-sdk/approval-native-controls.ts:43-51 | a registration is safe exactly when the next settle cannot start a second resolver |
| ApprovalControls.RunsSettleOnce | substrate/plugin-sdk/approval-native-controls.ts:11-96 | with tokens registered once, a token settles at most once, its callback runs at most once, and its resolvers never overlap |
| ApprovalControls.FailureIsRetryable | substrate/plugin-sdk/approval-native-controls.ts:67-91 | a resolver in flight keeps everyone else out, and when it fails for another reason the binding it was given, left alone meanwhile, can be resolved again until it expires |
| ApprovalControls.FailureFreesTheToken | substrate/plugin-sdk/approval-native-controls.ts:84-91 | after any failing resolver, in any state, the token starts again exactly when it is still bound and unexpired, with its present binding, and nothing was settled or called back |
| ApprovalControls.RegisteringAgainSettlesTwice | substrate/plugin-sdk/approval-native-controls.ts:43-67 | a run in which a token registered again settles twice |
| ApprovalControls.StepIsExclusive | substrate/plugin-sdk/approval-native-controls.ts:17-96 | every single step keeps one resolver per token |
| ApprovalHistory.BoundIff | substrate/plugin-sdk/approval-native-controls.ts:17-66 | on every run a token is bound exactly to what was registered for it and has not been replaced, evicted, found expired, unregistered or settled since |
| ApprovalHistory.ClaimedIff | substrate/plugin-sdk/approval-native-controls.ts:17-96 | on every run a token is claimed exactly since a settle call started its resolver and nothing has freed it, a lookup of an expired binding only where the registry releases on it |
| ApprovalHistory.CallbacksAre | substrate/plugin-sdk/approval-native-controls.ts:31-38 | the bindings called back by an event are exactly those still bound that were settled, not found or unregistered by it |
| ApprovalHistory.StartIs | substrate/plugin-sdk/approval-native-controls.ts:67-83 | a settle call starts exactly for a bound, unexpired and unclaimed token |
| ApprovalControls.Registry.Get | substrate/plugin-sdk/approval-native-controls.ts:17-30 | gives the unexpired binding, and deletes an expired one with its claim if asked to |
| ApprovalControls.Registry.Complete | substrate/plugin-sdk/approval-native-controls.ts:31-38 | drops claim and binding and calls back once for a binding that was there |
| ApprovalControls.Registry.Register | substrate/plugin-sdk/approval-native-controls.ts:42-51 | replaces the binding unless it is expired; eviction leaves claims alone |
| ApprovalControls.Registry.PruneExpired | substrate/plugin-sdk/approval-native-controls.ts:54-61 | the loop drops exactly the expired bindings and their claims |
| ApprovalControls.Registry.Unregister | substrate/plugin-sdk/approval-native-controls.ts:62-66 | completes each token in turn |
| ApprovalControls.Registry.BeginSettle | substrate/plugin-sdk/approval-native-controls.ts:67-83 | missing, in flight, or claimed and started |
| ApprovalControls.Registry.EndSettle | substrate/plugin-sdk/approval-native-controls.ts:84-95 | completes on success and not-found, only drops the claim on another failure |
| SubagentLineage.DepthIs | substrate/agents/subagent-depth-policy.ts:37-80 | over any parents, cycles included, depth is the length of the lineage plus the depth where it ends |
| SubagentLineage.LineageExists | substrate/agents/subagent-depth-policy.ts:37-80 | every session has such a lineage |
| SubagentLineage.OwnDepthFirst | substrate/agents/subagent-depth-policy.ts:10-18 | a stored depth that is a whole number or reads as one, not below zero, is the depth; without one a session inherits if it names a parent, and otherwise has the depth its key says |
| SubagentLineage.ChildIsOneDeeperIff | substrate/agents/subagent-depth-policy.ts:65-76 | a session that inherits is one deeper than its parent exactly unless it is its own ancestor and its key says otherwise |
| SubagentLineage.OwnParentIsNotDeeper | substrate/agents/subagent-depth-policy.ts:65-76 | a session stored as its own parent has depth one |
| SubagentLineage.SpawnDepth | substrate/agents/subagent-depth-policy.ts:65-80 | a spawned session is one deeper than its spawner and no other depth changes |
| SubagentLineage.CanSpawnIff | substrate/agents/subagent-capabilities.ts:172-204 | a session may spawn exactly below the limit, and controls children exactly then |
| SubagentLineage.RoleIs | substrate/agents/subagent-capabilities.ts:172-204 | depth nothing is the main session, at the limit or beyond a leaf, between them an orchestrator |
| SubagentLineage.IntegerOptionIs | substrate/agents/subagent-capabilities.ts:172-204 | limits are rounded down and not below the least one |
| SubagentLineage.SpawningStaysWithinCap | substrate/agents/subagent-capabilities.ts:172-204 | however sessions spawn one another, none is ever deeper than the limit |
| SubagentLineage.DepthWalk.DepthFromStore | substrate/agents/subagent-depth-policy.ts:49-77 | the recursive walk with its visited set terminates and computes the specified depth of the trimmed key, none for a blank one |
| SubagentLineage.GetSubagentDepth | substrate/agents/subagent-depth-policy.ts:37-80 | the depth of a session key, with the lineage that explains it |
| SubagentLineage.FindEntryById | substrate/agents/subagent-depth-policy.ts:20-35 | the first stored session with the identifier, or none when there is none |
| SubagentEnvelope.EnvelopeIff | substrate/agents/subagent-capabilities.ts:206-269 | a session is a subagent envelope exactly when a chain of parents without repetition, over unmarked envelopes, leads to one that says so itself: by its key, as a spawned dashboard session, or by its marks; the caller's entry counts for the first one, and its store until the chain leaves the agent |
| SubagentEnvelope.EnvelopeWalk.IsStoredSubagentEnvelope | substrate/agents/subagent-capabilities.ts:206-269 | the recursive walk with its visited set terminates and decides that for the trimmed key; a blank key is no |
| SubagentEnvelope.EnvelopeWalk.JudgeSession | substrate/agents/subagent-capabilities.ts:221-254 | what one session decides by itself |
| SystemRunPolicy.AllowedIff | substrate/node-host/exec-policy.ts:84-155 | allowed exactly when not denied outright and approved, or when the rule that asks says no and nothing is missing; a wrapper under an allowlist counts as not analysed and not matched |
| SystemRunPolicy.DeniedBecause | substrate/node-host/exec-policy.ts:113-150 | a denial is for security, for the rule that asks, or for an allowlist miss, exactly as those conditions hold |
| SystemRunPolicy.LeastIs | substrate/node-host/invoke-system-run.ts:570-573 | the less trusting of two security levels |
| SystemRunPolicy.ApprovedIff | substrate/node-host/exec-policy.ts:97-155 | an approved command is allowed exactly when security does not deny |
| SystemRunPolicy.ApprovalOnlyHelps | substrate/node-host/exec-policy.ts:97-155 | an approval never turns an allowance into a denial |
| SystemRunPolicy.WrapperNeedsApproval | substrate/node-host/exec-policy.ts:84-96 | a Windows shell wrapper under an allowlist passes only when approved, and never counts as matched |
| SystemRun.ParseSystemRun | substrate/node-host/invoke-system-run.ts:355-535 | one invalid-request answer exactly for requests that break a rule, otherwise none |
| SystemRun.EvaluateSystemRunPolicy | substrate/node-host/invoke-system-run.ts:537-930 | passes exactly the commands that meet every policy condition, and denies each of the others once, with the reason its conditions call for |
| SystemRun.BindExecution | substrate/node-host/invoke-system-run.ts:832-931 | the last part of it: wrapper, working directory and planned arguments |
| SystemRun.ReasonsExclude | substrate/node-host/invoke-system-run.ts:537-931 | no command has two of the reasons security, review, allowlist and plan at once, and one that passes has none |
| SystemRun.ExecuteSystemRun | substrate/node-host/invoke-system-run.ts:976-1207 | the trace is sound, launches exactly when everything permits it, answers exactly when not cut short, and ends with the answer that is due |
| SystemRun.RunHere | substrate/node-host/invoke-system-run.ts:1085-1207 | the same from the choice of a local run on |
| SystemRun.HandleSystemRunInvoke | substrate/node-host/invoke-system-run.ts:1210-1223 | one invocation and every prefix of it: at most one answer, no success with a denial, at most one launch, after allowance, check, commit and second check in this order; launched and answered exactly under the stated conditions, with the answer that is due |
| SystemRun.PrefixIsSound | substrate/node-host/invoke-system-run.ts:355-1223 | what an exception leaves of a trace is sound as well |
| SystemRun.AllowlistLaunch | substrate/node-host/invoke-system-run.ts:632-648 | a launch under an allowlist without approval matched the list or a durable approval, the rule that asks said no, and there was no inline code or audit suppression |
| SystemRun.UnapprovedLaunch | substrate/node-host/invoke-system-run.ts:623-930 | under any security level, a command nobody approved runs only if the host's own rule that asks says no, or a review that may decide allows it at low or medium risk |
| SystemRun.LaunchNeeds | substrate/node-host/invoke-system-run.ts:355-1180 | what every launched command had, field by field |
| SystemRun.FullSecurityLaunches | substrate/node-host/invoke-system-run.ts:355-1180 | a plain command under full security that the rule does not ask about launches |
| SystemRun.MatchedLaunches | substrate/node-host/invoke-system-run.ts:355-1180 | so does one that matches its allowlist |
| SystemRun.ApprovalLaunches | substrate/node-host/invoke-system-run.ts:355-1180 | so does one approved for its plan, whatever rule, allowlist and inline check say |
| SystemRun.ReviewLaunches | substrate/node-host/invoke-system-run.ts:702-800 | so does one with a valid plan that the review allows |
| SystemRun.VerdictMeans | substrate/node-host/invoke-system-run.ts:355-1207 | what each answer says about the invocation: silence, a malformed request, success, and each reason for a denial |
| SystemRun.ApprovedLaunch | substrate/node-host/invoke-system-run.ts:537-930 | a launch on an approval had its plan, a current snapshot or an eligible review, and security that does not deny |
| SystemRun.UncutAnswers | substrate/node-host/invoke-system-run.ts:1085-1223 | never aborted and with a run that does not throw, an invocation answers |
| StringCoercion.TrimIff | substrate/packages/normalization-core/src/string-coerce.ts:6-18 | trimming leaves no outer white space, changes only texts that have some, and is idempotent |
| StringCoercion.TrimCuts | substrate/packages/normalization-core/src/string-coerce.ts:6-18 | what trimming removes is white space at the two ends and nothing else |
| StringCoercion.TrimIs | substrate/packages/normalization-core/src/string-coerce.ts:6-18 | a text is trimmed to its one stretch with only white space around it and none at its ends |
| StringCoercion.DecimalIs | substrate/plugin-sdk/channel-route.ts:76-80 | the decimal text of a whole number reads back, without leading zeros |
| JsonStrings.ArrayReadsBack | substrate/plugin-sdk/channel-route.ts:139-148 | every array of strings is read back from its JSON text (RFC 8259, section 7), whatever characters it holds |
| JsonStrings.ArrayTextIsUnambiguous | substrate/plugin-sdk/channel-route.ts:139-148 | equal JSON texts mean equal arrays |
| JsonStrings.EscapesAre | substrate/plugin-sdk/channel-route.ts:139-148 | parts are written plainly but for quotes, backslashes and control characters |
| ChannelRoute.ThreadKeepsItsText | substrate/plugin-sdk/channel-route.ts:71-80 | a normalised thread identifier is its own normal form and has a text that is not empty |
| ChannelRoute.NormalizedIsNormal | substrate/plugin-sdk/channel-route.ts:83-120 | a normalised route has a part, and no part that is empty |
| ChannelRoute.DedupeKeyIff | substrate/plugin-sdk/channel-route.ts:139-218 | two inputs share a dedupe key exactly when their routes match, or neither is a route |
| ChannelRoute.DedupeKeyTells | substrate/plugin-sdk/channel-route.ts:139-148 | two inputs share a dedupe key exactly when they give the same channel, destination, account and thread texts |
| ChannelRoute.NormalizeMeans | substrate/plugin-sdk/channel-route.ts:83-120 | an input is a route exactly when one of its texts is not empty, and the route holds those texts |
| ChannelRoute.SharesMeans | substrate/plugin-sdk/channel-route.ts:186-207 | routes share a conversation exactly when channel and destination agree, and account and thread as far as both have one |
| ChannelRoute.TruncateIs | substrate/plugin-sdk/channel-route.ts:71-73 | the fraction of a numeric thread is dropped, whichever the sign |
| ChannelRoute.KeyIgnores | substrate/plugin-sdk/channel-route.ts:83-148 | neither the original destination text, nor the chat type, nor outer white space of channel, destination or thread changes the key |
| ChannelRoute.ExactMatchIsCongruence | substrate/plugin-sdk/channel-route.ts:150-207 | exact match is an equivalence, implies sharing a conversation, and matching routes share with the same routes |
| ChannelRoute.SharingIsNotTransitive | substrate/plugin-sdk/channel-route.ts:186-207 | a parent route shares with two threads that do not share with each other |
| ChannelRoute.SharingThroughIff | substrate/plugin-sdk/channel-route.ts:186-207 | sharing carries over a middle route exactly when it names both account and thread |
| ChannelRoute.CompactKeyIsAmbiguous | substrate/plugin-sdk/channel-route.ts:235-263 | two different routes with one compact key |
| ChannelRoute.CompactKeyIff | substrate/plugin-sdk/channel-route.ts:235-263 | two compact keys stand for matching routes exactly when they are equal and hold, part by part, equally many separators |
| ChannelRoute.PlainCompactKeyIff | substrate/plugin-sdk/channel-route.ts:235-263 | so where no part holds the separator, keys are equal exactly for matching routes |
| ChannelRoute.CompactKeyOfRoute | substrate/plugin-sdk/channel-route.ts:235-263 | a normalised route has the compact key of the input it came from, where channels and accounts are stable under a second reading |

## Left out

- The TypeScript compiler, syntax trees, printing, module resolution and hashing: a program is a finite graph with section texts, and a rendering is its section list rather than a digest.
- Unresolved dependencies are kept by the file that imports them, without their specifiers, which only the error text names.
- Exceptions out of the compiler in the middle of a walk, which would leave keys in the active sets.
- Section and owner-map keys join their parts with a NUL character, and the dedupe store joins namespace and key with a colon: parts are kept as pairs, so collisions between joined texts are not modelled.
- Promises: each stretch of code between two awaits is one step; a joined promise is its outcome and when its cleanup runs.
- The dedupe store's expiry, size limit and `clearMemory` are one step that forgets any recorded keys; files and databases behind it are not modelled.
- Strings are Dafny strings, so lone surrogates and the code-unit order of text outside the basic plane are not modelled; base64 works on code units.
- Numbers above 10 to the 21st, whose decimal text in JavaScript has an exponent, in thread identifiers.
- ChannelRoute.CompactKeyOfRoute: supposes that lower-casing and account helpers, which are not part of this model, are idempotent.
- Configuration documents are trees without sharing, and the order of their keys, inherited properties, array indices and fields of primitive values are not modelled.
- AllowlistEditor.DocumentReadsBack: supposes that no array holds the cleaned legacy list as a named field, which no JSON text does, and that the normaliser works entry by entry and ignores outer white space.
- AllowlistEdit.EditReadsBack: the inherited list is the same before and after the edit.
- The path label of an edit's outcome, and the adapters around the editor.
- The regular expression engine: a pattern is a fixed prefix and a greedy run of one character class.
- The eviction order of approval bindings: any bindings may be evicted.
- Parsing of numbers from text in stored spawn depths: a parameter.
- SystemRun.EvaluateSystemRunPolicy: takes each analysis, check and review as one answer.
- Callbacks of `system.run` that throw are covered by prefixes of a trace; cleanup outside the pipeline is not modelled.
- Message texts, logging, report formatting, the front end, re-export barrels and type-only contracts.
- Approval routing gates, access groups, adapter factories and heartbeats: not modelled.
