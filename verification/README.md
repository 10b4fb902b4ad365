# Verified models of the APInteract backend

Dafny models of the algorithmic cores of the backend and of two of its plugins, with
proofs of what their code and documentation promise. Database tables are maps and
sequences, and every transaction is one atomic step; each imperative core is a method
with loops and fields, proved against a specification about which the main theorems are
stated.

Verify everything with `dafny verify dfyconfig.toml`.

## What is modelled

**Cookie jars** (`CookieAdmission`, `CookieAdmissionRuns`, `CookieSteps`,
`CookieExclusion`, `CookieFencing`, `CookieQueue`, `CookieHeartbeat`, `CookieJarClient`,
`CookieChanges`, `CookieRevision`, `CookieStore`). A queue of executions shares one jar:
optimistic executions are admitted together, a serialized one takes an expiring lease
with a fence. The rows are a class whose methods are the transactions; runs interleave
any number of executions under one clock, with heartbeats that may arrive late. Fencing
of writers, absence of deadlock and the order among waiting executions hold in every
run, and a holder that beats in time keeps its lease. Exclusion between a lease and
shared admissions depends on writers sorting behind live readers: inside one millisecond
the order falls back to execution ids, and a smaller id then breaks it. The project
proves exclusion under that condition, that the condition is exact, and a run that
violates it; likewise exactly which arrivals keep the head of the queue waiting.

**Environments** (`EnvironmentGraph`, `EnvironmentStore`, `EvidenceList`,
`EnvironmentProfile`, `EnvironmentComposition`, `EnvironmentPrecedence`,
`EnvironmentGuarantees`). The memoised depth-first composition with its evidence list is
equal, errors included, to expanding the include graph without a cache and applying the
environments one after another, so that later includes win over earlier ones; the cycle
search that guards every command is sound and complete, so the stored-cycle error of
composition cannot occur.

**Framed proxy stream** (`BigEndian`, `FrameProtocol`, `FrameDecoder`, `FrameStreams`,
`FrameFailures`). The decoder over arbitrary chunks has the outcome of a parser that
sees all bytes and the ends of the chunks. The chunk ends matter: bytes after a Complete
frame are refused only within a chunk. The project proves exactly what is accepted, and
for which streams the boundaries are irrelevant, and with which failure every other
stream ends.

**Imports** (`ImportPlans`, `ImportCollections`, `ImportLifting`, `ImportNormalize`,
`ImportMeaning`, `ImportDuplicates`, `ImportOutcome`, `ImportOrder`, `ImportSelection`,
`ImportSearch`, `ImportPruning`, `OpenApiHierarchy`, `OpenApiBuilder`, `OpenApiOrder`,
`TargetJoining`, `OpenApiMeaning`). Lifting variables to collections keeps what every
declared name means when scopes are first seen after their ancestors and a request does
not declare a name in two ways; the order condition is proved necessary for every shape
of plan, and names declared twice have their exact condition. Pruning keeps the bindings
of every mentioned name and nothing unused. The OpenAPI tree is always valid, and its
joined prefixes lead every operation to its server and target exactly when the targets
of one path collection lead alike.

**Redirects** (`RedirectRequest`, `RedirectNames`, `RedirectChains`, `RedirectLaws`,
`RedirectLoop`). The decision (section 15.4 of RFC 9110, section 7.6.1 for Connection)
and the loop around it, with safety over whole chains, the counters and the byte budget.

**Text** (`CodeUnits`, `Utf8Points`, `Utf8`, `Base64`, `Base64Codec`, `CodecValues`,
`JsonLayout`, `JsonFormat`, `JsonSpacing`, `AliasChains`, `Interpolation`,
`InterpolationSyntax`, `InterpolationLaws`, `InterpolationReferences`). The codecs of
the script SDK (RFC 3629, section 4 of RFC 4648) on strings of UTF-16 code units, the
JSON white-space formatter, and the interpolation of placeholders with alias chains.

**Audit** (`AuditOutbox`, `AuditRuns`, `AuditService`). Events are appended to a file
and then acknowledged; publishers run side by side and may stop between the two.

`Sequences`, `Alphabets` and `Wrappers` hold shared facts and result types.

## Assumptions

- Keeping readers and exclusive writers apart assumes that a serialized execution that
  queues up before its deadline sorts behind the live readers (`OrderlyRun`); that the
  head of the queue is never kept waiting assumes that arrivals sort behind the holder of
  a live lease (`OwnerFirstRun`). Both conditions are proved exact. Fencing, absence of
  deadlock and the order of waiting executions need neither.
- Each execution acquires once, and all processes read one clock that never goes back.
- Applying Set-Cookie fields is an arbitrary function on jar contents, and JSON validity
  and URL resolution are arbitrary functions too, so the theorems hold for all of them.
- Keys that the OpenAPI import derives with a hash are distinct for distinct inputs
  (`IsDigest`).
- Plans given to lifting are validated and have unique item ids, as the registry checks
  before it lifts (`apps/backend/src/imports/import-provider-registry.ts:103-114`).
- The declared tag order of an OpenAPI document lists no tag twice, as
  `plugins/openapi-import/src/openapi-json-provider.ts:784-792` builds it from a set.

## Model

| member | source | states |
|---|---|---|
| `CookieAdmission.CookieJarRows.CleanAdmission` | apps/backend/src/cookies/cookie-jar-service.ts:807-841 | deletes exactly the queue rows past their deadline and, when the stored lease time has passed, the owner together with its queue row; everything else stays |
| `CookieAdmission.CookieJarRows.Enqueue` | apps/backend/src/cookies/cookie-jar-service.ts:279-297 | after cleaning, queues the execution at the present time unless it already has a row |
| `CookieAdmission.CookieJarRows.TryAdmitOptimistic` | apps/backend/src/cookies/cookie-jar-service.ts:692-734 | admits exactly when the execution still has a row, no lease is live and no serialized row sorts before it; admission itself writes nothing but the cleaning |
| `CookieAdmission.CookieJarRows.TryAcquire` | apps/backend/src/cookies/cookie-jar-service.ts:737-783 | grants exactly to a serialized head of the queue while no lease is live: fence one higher, lease bounded by its duration and the deadline; otherwise only cleans |
| `CookieAdmission.CookieJarRows.Head` | apps/backend/src/cookies/cookie-jar-service.ts:745-751 | the first row by enqueue time and execution id is the unique minimum of the queue |
| `CookieAdmission.CookieJarRows.Renew` | apps/backend/src/cookies/cookie-jar-service.ts:786-804 | extends the lease exactly while owner and fence are still the caller's and its deadline is ahead; what that means for a holder is stated by the lemmas of CookieHeartbeat |
| `CookieAdmission.CookieJarRows.RemoveWaiter` | apps/backend/src/cookies/cookie-jar-service.ts:844-850 | removes the one queue row and nothing else |
| `CookieAdmission.CookieJarRows.ReleaseLease` | apps/backend/src/cookies/cookie-jar-service.ts:397-413 | removes the row, and frees the lease only if owner and fence still match |
| `CookieJarClient.Execution.JoinQueue` | apps/backend/src/cookies/cookie-jar-service.ts:279-297 | the execution's first transaction is one Enqueue step of the protocol, on the rows and on its handle |
| `CookieJarClient.Execution.PollOnce` | apps/backend/src/cookies/cookie-jar-service.ts:300-341 | one turn of either polling loop is one Poll step: the handle becomes a reader or a fenced writer exactly when the rows admit it |
| `CookieJarClient.Execution.TimeOut` | apps/backend/src/cookies/cookie-jar-service.ts:305-310 | a loop that ends without admission removes its row and gives up |
| `CookieJarClient.Execution.Beat` | apps/backend/src/cookies/cookie-jar-service.ts:348-357 | a heartbeat either renews the lease or marks the handle as lost |
| `CookieJarClient.Execution.Check` | apps/backend/src/cookies/cookie-jar-service.ts:363-392 | `assertValid` with `verify` passes exactly when the handle is unexpired and, for a writer, still valid, owner, with its fence and a live lease; a failure is remembered |
| `CookieJarClient.Execution.Finish` | apps/backend/src/cookies/cookie-jar-service.ts:393-414 | release takes effect once; a second call changes nothing |
| `CookieAdmissionRuns.StepKeepsRows` | apps/backend/src/cookies/cookie-jar-service.ts:273-415 | every step of every run keeps rows, handles and lease in agreement: a row belongs to a waiting or unreleased execution, the owner has a serialized row that its lease never outlives, a waiting execution before its deadline has its row |
| `CookieExclusion.StepKeepsInv` | apps/backend/src/cookies/cookie-jar-service.ts:273-415 | a step in which no writer queues before a live reader also keeps live readers before every writer in force, with no owner beside them |
| `CookieExclusion.GrantExcludesReaders` | apps/backend/src/cookies/cookie-jar-service.ts:745-766 | a writer at the head of the queue means that no shared admission is live |
| `CookieExclusion.ExclusionHolds` | apps/backend/src/cookies/cookie-jar-service.ts:692-841 | in every state of every run in which writers queue behind live readers, a live exclusive lease and a live shared admission never coexist |
| `CookieExclusion.EnqueueSafeIffBehindReaders` | apps/backend/src/cookies/cookie-jar-service.ts:285-295 | that condition on one arrival is exact: an arrival meets it if and only if every orderly continuation keeps exclusion |
| `CookieExclusion.OvertakingBreaksExclusion` | apps/backend/src/cookies/cookie-jar-service.ts:719-732 | a writer queued before a live reader can always be driven, by ordinary steps, to a lease beside that reader |
| `CookieExclusion.TieIsReached` | apps/backend/src/cookies/cookie-jar-service.ts:712-732 | three ordinary steps inside one millisecond put a smaller execution id before an admitted reader |
| `CookieExclusion.TieBreaksExclusion` | apps/backend/src/cookies/cookie-jar-service.ts:712-732 | one poll later the writer holds a live lease beside the live reader |
| `CookieFencing.WritersAreFenced` | apps/backend/src/cookies/cookie-jar-service.ts:369-392 | in every run fences strictly rise, and between the grant of a holder and each of its writes there is no other grant and no other exclusive write |
| `CookieFencing.ReadersStayOut` | apps/backend/src/cookies/cookie-jar-service.ts:299-347 | in every run in which writers queue behind live readers, no reader is admitted or writes between a grant and the writes under it |
| `CookieFencing.VerifiedHandleHasLatestGrant` | apps/backend/src/cookies/cookie-jar-service.ts:369-392 | in every run a serialized handle that still verifies owns the latest grant of the whole run |
| `CookieQueue.NoDeadlock` | apps/backend/src/cookies/cookie-jar-service.ts:692-783 | in every run, if rows remain after cleaning then a lease is live, or the head of the queue holds an admission, or its next poll succeeds |
| `CookieQueue.HeadAlwaysProgresses` | apps/backend/src/cookies/cookie-jar-service.ts:737-783 | if arrivals before their deadline sort behind the holder of a live lease, the head of the queue always holds an admission or gets one at its next poll |
| `CookieQueue.ArrivalSafeIffBehindOwner` | apps/backend/src/cookies/cookie-jar-service.ts:285-295 | that condition on one arrival is exact: an arrival meets it if and only if the head is never kept waiting in any continuation that meets it too |
| `CookieQueue.NeverOvertaken` | apps/backend/src/cookies/cookie-jar-service.ts:692-783 | in every run, while an execution keeps waiting, one whose row sorts behind it never gets the exclusive lease, and no admission at all if the first wants the exclusive lease |
| `CookieQueue.ArrivalNeverOvertakes` | apps/backend/src/cookies/cookie-jar-service.ts:285-295 | in every run, an execution that arrives with a key behind that of a waiting one never passes it |
| `CookieChanges.SameStateIsSameJar` | apps/backend/src/cookies/cookie-jar-service.ts:1051-1067 | the row-by-row comparison is equality of the two jars by identity, for lists with unique identities |
| `CookieChanges.ReportNamesExactlyTheChanges` | apps/backend/src/cookies/cookie-jar-service.ts:1070-1104 | the audit list names an identity exactly when it was added, removed or given other content |
| `CookieChanges.UnchangedIffNothingReported` | apps/backend/src/cookies/cookie-jar-service.ts:1051-1104 | a response is skipped as unchanged exactly when its audit list would be empty |
| `CookieChanges.IdentityIsUniqueIff` | apps/backend/src/cookies/cookie-jar-service.ts:1034-1036 | the joined identity tells a cookie from all others exactly when its name, domain and path hold no NUL |
| `CookieRevision.ComparisonIsEquality` | apps/backend/src/cookies/cookie-jar-service.ts:1051-1067 | the comparison decides equality of the jar contents that the revision protocol works on |
| `CookieRevision.NoLostUpdate` | apps/backend/src/cookies/cookie-jar-service.ts:443-559 | with reading and committing as separate steps, the jar is the replay of all committed changes in revision order, the revision counts them, each of them had an effect, and a response found unchanged had none at the revision it read |
| `CookieRevision.EqualRevisionEqualContents` | apps/backend/src/cookies/cookie-jar-service.ts:853-869 | between any two points of a run, equal revisions mean equal contents |
| `CookieStore.JarStore.AdvanceRevision` | apps/backend/src/cookies/cookie-jar-service.ts:853-869 | compare-and-set: the change enters the history exactly when the expected revision is the stored one |
| `CookieStore.JarStore.WriteResponse` | apps/backend/src/cookies/cookie-jar-service.ts:494-546 | one write is one step of the protocol: unchanged when the response has no effect on what was read, applied when nothing was committed since, else a conflict that changes nothing |
| `CookieStore.JarStore.RemoveCookies` | apps/backend/src/cookies/cookie-jar-service.ts:229-267 | deletes the named cookies at the expected revision; deleting nothing advances nothing |
| `CookieStore.JarStore.ApplyResponse` | apps/backend/src/cookies/cookie-jar-service.ts:432-465 | with any steps of others between reading and writing, all attempts together are a run of the protocol; the response enters the history at most once, exactly when the outcome says so and only with an effect; a conflict is reported only after one foreign commit per attempt |
| `EnvironmentGraph.FindEnvironmentCycle` | apps/backend/src/environments/environment-service.ts:1050-1073 | terminates; reports nothing exactly when no cycle is reachable from the start, and otherwise a real closed walk that is reachable |
| `EnvironmentGraph.CycleFinder.Visit` | apps/backend/src/environments/environment-service.ts:1058-1070 | one visit either completes the node with everything below it, or returns a closed walk reachable from the start of the search |
| `EnvironmentStore.ChangedNodeGuardsGraph` | apps/backend/src/environments/environment-service.ts:714-725 | in an acyclic graph the whole new graph is acyclic if and only if no cycle is reachable from the changed environment |
| `EnvironmentStore.EnvironmentRows.ReplaceIncludes` | apps/backend/src/environments/environment-service.ts:676-744 | succeeds exactly on lists without repetition, of existing environments, that keep the graph acyclic; each failure has its own cause and changes nothing |
| `EnvironmentStore.EnvironmentRows.CreateEnvironment` | apps/backend/src/environments/environment-service.ts:203-272 | adds the environment with its includes or, when refused, changes nothing; the graph stays acyclic |
| `EnvironmentStore.EnvironmentRows.UpdateEnvironment` | apps/backend/src/environments/environment-service.ts:289-372 | replaces the includes only when a list was submitted and is acceptable; the graph stays acyclic |
| `EnvironmentStore.EnvironmentRows.DeleteEnvironment` | apps/backend/src/environments/environment-service.ts:375-439 | refused exactly for a missing environment or one that others include; otherwise it and its include rows go |
| `EnvironmentStore.HistoryKeepsWellFormed` | apps/backend/src/environments/environment-service.ts:676-744 | every history of commands as specified leaves the whole graph acyclic and without dangling includes; that the code meets that specification is the contract of the methods of EnvironmentRows, by way of ChangedNodeGuardsGraph |
| `EvidenceList.MoveAllIsMinusThenAppend` | apps/backend/src/environments/environment-service.ts:1036-1047 | moving a list of distinct entries to the end, one by one, leaves the untouched entries in order and then the list |
| `EnvironmentComposition.ProfileBuilder.MergeEvidence` | apps/backend/src/environments/environment-service.ts:1036-1047 | the splicing loop moves each incoming entry to its last use and keeps the list free of repetitions |
| `EnvironmentComposition.ProfileBuilder.MergeComposedProfile` | apps/backend/src/environments/environment-service.ts:1021-1033 | updates variables, sources and evidence in place to the merge of the two profiles |
| `EnvironmentProfile.MergeIsConcatenation` | apps/backend/src/environments/environment-service.ts:1021-1047 | merging the profile of one list of environments into that of another is the profile of the joined list, whatever they share |
| `EnvironmentProfile.EvidenceKeepsLastUse` | apps/backend/src/environments/environment-service.ts:1036-1047 | the evidence is the full expansion with only the last occurrence of each environment kept |
| `EnvironmentProfile.LastWriterWins` | apps/backend/src/environments/environment-service.ts:1021-1033 | each name takes value and source from the last environment of the expansion that declares it, equally from the last one in the evidence |
| `EnvironmentProfile.NamesInFirstUseOrder` | apps/backend/src/environments/environment-service.ts:817-836 | variables are listed in the order in which the expansion first declares their names |
| `EnvironmentComposition.MemoAnswers` | apps/backend/src/environments/environment-service.ts:799-801 | a cached profile is what the unmemoised expansion gives from every path on which the node can be met |
| `EnvironmentComposition.Composer.Resolve` | apps/backend/src/environments/environment-service.ts:796-846 | the memoised search returns the profile, or the very error, of the plain expansion from the same path, and restores its stack |
| `EnvironmentComposition.ComposeEnvironment` | apps/backend/src/environments/environment-service.ts:747-845 | the effective profile is the plain post-order expansion applied environment by environment; a missing environment or a stored cycle is reported as the expansion meets it |
| `EnvironmentComposition.ComposeInherited` | apps/backend/src/environments/environment-service.ts:846-858 | the inherited profile composes the includes of an existing environment without its own variables |
| `EnvironmentGuarantees.ComposesIffNoCycle` | apps/backend/src/environments/environment-service.ts:802-810 | on a graph without dangling includes composition fails if and only if a cycle is reachable, and then the error shows one |
| `EnvironmentGuarantees.StoredGraphAlwaysComposes` | apps/backend/src/environments/environment-service.ts:802-815 | after any history of commands composition of any stored environment succeeds: the stored-cycle error is unreachable |
| `EnvironmentGuarantees.InheritedThenOwnIsComposed` | apps/backend/src/environments/environment-service.ts:828-858 | the inherited profile with the environment's own variables on top is its full profile |
| `FrameProtocol.ParseFrameType` | apps/backend/src/proxy/proxy-client.ts:304-316 | accepts a byte exactly when it is the number of a frame type, and as that type |
| `FrameProtocol.FirstFrame` | apps/backend/src/proxy/proxy-client.ts:237-266 | a buffer without a verdict is shorter than header plus largest payload; a frame that is taken lies inside the buffer |
| `FrameProtocol.EncodedFrameShows` | apps/backend/src/proxy/proxy-client.ts:237-300 | the encoding of a deliverable frame is decoded to that frame, whatever follows it |
| `FrameProtocol.TakenFrameIsEncoded` | apps/backend/src/proxy/proxy-client.ts:237-300 | a frame that is taken stands encoded, byte for byte, at the front of the buffer |
| `BigEndian.WriteRead` | apps/backend/src/proxy/proxy-client.ts:238-248 | big-endian fields read from bytes are written back as the same bytes |
| `FrameDecoder.Drain` | apps/backend/src/proxy/proxy-client.ts:236-265 | the inner loop takes every whole frame, reaches the outcome of the whole stream on an error, and otherwise stops at a buffer that shows no frame |
| `FrameDecoder.ConsumeFrames` | apps/backend/src/proxy/proxy-client.ts:216-267 | the incremental decoder has the outcome of a parser that sees all bytes and the chunk ends; after each chunk it keeps exactly the bytes of the unfinished frame, fewer than 16 + 1,048,576 |
| `FrameStreams.AcceptsExactlyStreams` | apps/backend/src/proxy/proxy-client.ts:216-300 | a normal return with these frames means exactly: the bytes are these deliverable frames, whole, numbered from 0, the last one Complete, and every Complete frame ends a chunk |
| `FrameStreams.EverySplitIsAccepted` | apps/backend/src/proxy/proxy-client.ts:216-267 | a stream whose only Complete frame is its last is delivered whole and in order under every split into chunks |
| `FrameStreams.OneChunkAccepts` | apps/backend/src/proxy/proxy-client.ts:257-262 | sent in one chunk, a stream that ends Complete is accepted exactly when no earlier frame is Complete |
| `FrameStreams.SplitMattersIffCompleteInside` | apps/backend/src/proxy/proxy-client.ts:257-262 | chunk boundaries are irrelevant for a stream exactly when it holds a single Complete frame |
| `ImportCollections.ClimbsToRoot` | apps/backend/src/imports/import-provider-registry.ts:293-304 | the ancestor walk terminates and finds exactly whether the collection leads to the root |
| `ImportCollections.ValidateCollections` | apps/backend/src/imports/import-provider-registry.ts:274-313 | accepts exactly distinct non-empty keys, known parents, no cycle, and requests in known collections |
| `ImportNormalize.InheritedScopeVariables` | apps/backend/src/imports/import-provider-registry.ts:417-444 | the overlay of the lists of root and ancestors, root first |
| `ImportLifting.AddCandidate` | apps/backend/src/imports/import-provider-registry.ts:353-369 | counting one more declaration keeps the tally of votes per signature with the first declaration of each |
| `ImportLifting.SelectCandidate` | apps/backend/src/imports/import-provider-registry.ts:372-374 | selects the declaration to whose content most declarations of the name agree, the earliest on a tie |
| `ImportNormalize.LiftVariables` | apps/backend/src/imports/import-provider-registry.ts:341-384 | appends to the scope, for each name it neither declares nor inherits with the same content, that most frequent declaration |
| `ImportNormalize.GroupByScope` | apps/backend/src/imports/import-provider-registry.ts:324-330 | groups all requests by scope, scopes in first-seen order and requests in plan order |
| `ImportNormalize.ProcessScope` | apps/backend/src/imports/import-provider-registry.ts:331-401 | lifts one scope and drops from its requests exactly the declarations whose content the scope now shows |
| `ImportNormalize.NormalizeImportVariables` | apps/backend/src/imports/import-provider-registry.ts:316-414 | the whole pass computes the normalized plan: every scope in first-seen order, every request against what its scope saw |
| `ImportMeaning.FilterKeepsMeaningIff` | apps/backend/src/imports/import-provider-registry.ts:386-401 | what a declared name means survives the filter exactly unless the last declaration is dropped while an earlier, different one stays |
| `ImportMeaning.NameKeptIff` | apps/backend/src/imports/import-provider-registry.ts:316-461 | with ancestors seen first: the exact condition under which one request binds one declared name as before |
| `ImportDuplicates.DeclaredNameKeptIff` | apps/backend/src/imports/import-provider-registry.ts:316-461 | with ancestors seen first, a request binds a declared name as before exactly if, when its last declaration is what the scope shows, all its declarations of the name are; what the scope shows is given from the plan alone |
| `ImportDuplicates.MeaningKeptIff` | apps/backend/src/imports/import-provider-registry.ts:316-461 | with ancestors seen first, lifting keeps every meaning of a plan if and only if every declared name of every request meets that condition |
| `ImportDuplicates.RepeatingLosesMeaning` | apps/backend/src/imports/import-provider-registry.ts:386-401 | a request that declares a name first otherwise and then like the root loses its meaning |
| `ImportMeaning.LiftingKeepsMeaning` | apps/backend/src/imports/import-provider-registry.ts:316-461 | with ancestors seen first and each name declared in one way per request, every request binds every name it declares to the same content as before |
| `ImportMeaning.MostFrequentIsSeen` | apps/backend/src/imports/import-provider-registry.ts:370-389 | once its scope is processed a request sees under every name the scope did not declare the most frequent declaration of the scope |
| `ImportOrder.ConflictLosesMeaning` | apps/backend/src/imports/import-provider-registry.ts:331-402 | for every shape in which a collection is seen after a scope below it there are contents that lose their meaning |
| `ImportOrder.OrderDecides` | apps/backend/src/imports/import-provider-registry.ts:316-461 | lifting keeps every meaning for all contents of a shape if and only if every collection is first seen before the scopes below it |
| `ImportSelection.RequestCollectionChain` | apps/backend/src/imports/import-service.ts:248-261 | the collections around a request, the one at the root first |
| `ImportSelection.BaselineVariableRequired` | apps/backend/src/imports/import-service.ts:216-245 | true exactly when some selected request mentions the name and no nearer scope nor the request declares it |
| `ImportSelection.SelectPlanContent` | apps/backend/src/imports/import-service.ts:169-213 | keeps the collections above selected requests in plan order, each with its required variables only |
| `ImportPruning.RetainsExactlyAncestors` | apps/backend/src/imports/import-service.ts:179-190 | a collection is kept exactly when it is above some selected request, under the same parent |
| `ImportPruning.SelectionKeepsBindings` | apps/backend/src/imports/import-service.ts:169-245 | every name that a selected request mentions is bound to the same declaration as in the full plan |
| `ImportPruning.RetainsExactlyUsed` | apps/backend/src/imports/import-service.ts:216-245 | a baseline is kept exactly when a selected request mentions it and is bound to it |
| `ImportPruning.SelectionKeepsText` | apps/backend/src/imports/import-service.ts:232-236 | a selected request is searched for the same placeholders in the pruned plan |
| `ImportPruning.PrunedIsValid` | apps/backend/src/imports/import-service.ts:169-213 | the pruned plan passes the validation of collections |
| `OpenApiHierarchy.RouteMappedRequest` | plugins/openapi-import/src/openapi-json-provider.ts:471-501 | adds the path collection once, with the target of its first operation, and routes the operation beneath it |
| `OpenApiBuilder.GroupServers` | plugins/openapi-import/src/openapi-json-provider.ts:357-362 | the distinct servers in first-seen order |
| `OpenApiBuilder.OrderedAre` | plugins/openapi-import/src/openapi-json-provider.ts:405-411 | declared tags first, then the others, then untagged: every used tag exactly once |
| `OpenApiBuilder.GroupedIsAll` | plugins/openapi-import/src/openapi-json-provider.ts:399-412 | grouping by tags neither loses nor repeats an operation |
| `OpenApiBuilder.BuildTagged` | plugins/openapi-import/src/openapi-json-provider.ts:399-467 | the tree of operations with tags, in tag order |
| `OpenApiBuilder.BuildOpenApiHierarchy` | plugins/openapi-import/src/openapi-json-provider.ts:351-468 | every operation is routed exactly once, to its own path collection; the collections are exactly those on the way to operations, each once |
| `OpenApiMeaning.TreeIsValid` | apps/backend/src/imports/import-provider-registry.ts:274-313 | every built tree passes the validation of imported collections |
| `OpenApiMeaning.PrefixesAround` | plugins/openapi-import/src/openapi-json-provider.ts:351-468 | in every case of servers and tags the non-empty prefixes around a path collection are the server URL |
| `TargetJoining.JoinTargetComponents` | apps/backend/src/requests/request-service.ts:3499-3505 | the loop puts the components together, empty ones left out, each boundary made a single slash |
| `TargetJoining.JoinedAlikeIff` | apps/backend/src/requests/request-service.ts:3499-3505 | two targets below a base join to the same target exactly when they differ in leading slashes at most, or one is empty, the other only slashes and the base ends in one slash |
| `OpenApiMeaning.ComposesIffSharedTargets` | plugins/openapi-import/src/openapi-json-provider.ts:351-501 | the joined prefixes lead every operation to its server URL joined with its own target exactly when operations of one path collection have targets that lead alike from their server |
| `RedirectRequest.RedirectMethod` | apps/backend/src/executions/redirect-request.ts:227-240 | HEAD, 307 and 308 keep method and body; a dropped body goes with GET, and only on 303 or on POST with 301 or 302 |
| `RedirectRequest.ConnectionHeaderNames` | apps/backend/src/executions/redirect-request.ts:243-255 | exactly the non-blank tokens of enabled Connection fields, lower-cased |
| `RedirectRequest.RedirectDecision` | apps/backend/src/executions/redirect-request.ts:69-224 | the decision with all its refusals in the order of the code |
| `RedirectChains.KeepsExactly` | apps/backend/src/executions/redirect-request.ts:154-182 | a followed redirect keeps, in order and each with its view, exactly the headers that are neither one of the nine hop-by-hop names, nominated, one of the seven about a dropped body, nor a credential or sensitive header that would cross origins; names are told by spelling, whatever their case |
| `RedirectChains.HeadersOnlyShrink` | apps/backend/src/executions/redirect-request.ts:158-182 | along a chain the headers with their views are a subsequence of those of any earlier hop |
| `RedirectChains.CredentialsStayGone` | apps/backend/src/executions/redirect-request.ts:172-173 | after a cross-origin hop no later hop carries credentials or a sensitive header, not even at the first origin |
| `RedirectChains.HopByHopHeadersGone` | apps/backend/src/executions/redirect-request.ts:169-170 | no redirected request carries a hop-by-hop field or one its predecessor's Connection field named |
| `RedirectChains.SecureStaysSecure` | apps/backend/src/executions/redirect-request.ts:124-131 | after an https hop every later hop is https |
| `RedirectChains.BodyKeptOrGone` | apps/backend/src/executions/redirect-request.ts:183-200 | a body is kept unchanged or gone for good; a method is kept, or is GET for good without a body |
| `RedirectChains.HeadIsNeverRewritten` | apps/backend/src/executions/redirect-request.ts:227-240 | a HEAD request keeps method and body along the whole chain |
| `RedirectChains.ScriptViewStaysAligned` | apps/backend/src/executions/redirect-request.ts:158-213 | the script view keeps one view per header, at its index and with its name, and the same method |
| `RedirectLoop.ExchangeOnce` | apps/backend/src/executions/execution-service.ts:549-752 | one turn ends the run for exactly one reason or makes the next hop from the response; the remaining-bytes check never fires |
| `RedirectLoop.FollowRedirects` | apps/backend/src/executions/execution-service.ts:536-767 | the loop ends within the redirect limit; rows are numbered from 0 to at most 50, each made from the response to the one before; stored bytes stay below the budget; the outcome is what the last exchange comes to |
| `Utf8Points.AcceptsRfcSyntax` | apps/backend/src/scripting/script-sdk-bootstrap.ts:75-115 | a code point is accepted exactly where the syntax of section 4 of RFC 3629 has a character: no overlong form, no surrogate, nothing above 10FFFF |
| `Utf8Points.DecodeEncoded` | apps/backend/src/scripting/script-sdk-bootstrap.ts:45-115 | the octets of a scalar value decode to it and its length whatever follows; those of a surrogate are refused |
| `Utf8Points.EncodeDecoded` | apps/backend/src/scripting/script-sdk-bootstrap.ts:45-115 | octets accepted as a point are exactly its encoding |
| `Utf8.AllScalarIff` | apps/backend/src/scripting/script-sdk-bootstrap.ts:48-49 | iterating a string gives only scalar values exactly when no surrogate stands alone |
| `Utf8.DecodeAfterEncode` | apps/backend/src/scripting/script-sdk-bootstrap.ts:45-117 | encoding then decoding gives back every string without a lone surrogate, and is refused for every other |
| `Utf8.EncodeAfterDecode` | apps/backend/src/scripting/script-sdk-bootstrap.ts:45-117 | decoding then encoding gives back all accepted octets |
| `Utf8.CodecIsOneToOne` | apps/backend/src/scripting/script-sdk-bootstrap.ts:45-117 | decoding gives a string exactly when that string has no lone surrogate and encodes to the octets |
| `Utf8.AcceptsExactlyRfcStrings` | apps/backend/src/scripting/script-sdk-bootstrap.ts:72-117 | accepts exactly the octet strings of section 4 of RFC 3629 |
| `Utf8.Utf8Encode` | apps/backend/src/scripting/script-sdk-bootstrap.ts:45-70 | the loop over code points produces the specified octets |
| `Utf8.Utf8Decode` | apps/backend/src/scripting/script-sdk-bootstrap.ts:72-117 | the index loop decodes or refuses exactly as specified |
| `Base64.DecodeEncodedGroup` | apps/backend/src/scripting/script-sdk-bootstrap.ts:122-159 | a group of one to three octets survives encoding and decoding |
| `Base64.EncodeDecodedGroup` | apps/backend/src/scripting/script-sdk-bootstrap.ts:122-159 | a group of four characters survives decoding and encoding exactly when its unused bits are zero |
| `Base64Codec.WellFormedDecodes` | apps/backend/src/scripting/script-sdk-bootstrap.ts:139-156 | after the format check the negative-index error is unreachable |
| `Base64Codec.DecodeAfterEncode` | apps/backend/src/scripting/script-sdk-bootstrap.ts:122-159 | decoding an encoding gives all octets back |
| `Base64Codec.EncodeAfterDecodeIff` | apps/backend/src/scripting/script-sdk-bootstrap.ts:122-159 | encoding a decoded text gives it back exactly when the unused bits before the padding are zero |
| `Base64Codec.Base64Encode` | apps/backend/src/scripting/script-sdk-bootstrap.ts:122-137 | the loop over groups produces the specified text (section 4 of RFC 4648) |
| `Base64Codec.Base64Decode` | apps/backend/src/scripting/script-sdk-bootstrap.ts:139-159 | the loop decodes as specified and refuses exactly the texts that fail the format check |
| `JsonFormat.NextNonWhitespace` | plugins/json-content/src/index.ts:208-213 | the first character from an index on that is no white space |
| `JsonFormat.PreviousNonWhitespace` | plugins/json-content/src/index.ts:216-224 | the last character up to an index that is no white space |
| `JsonFormat.FormatWhitespace` | plugins/json-content/src/index.ts:157-205 | one pass over any string writes the layout of the string stripped of white space outside literals |
| `JsonFormat.OnlyOuterSpaceChanges` | plugins/json-content/src/index.ts:157-205 | input and output agree once white space outside string literals is removed |
| `JsonFormat.FormattedAlikeIff` | plugins/json-content/src/index.ts:157-205 | two texts are formatted alike exactly when they differ only in that white space |
| `JsonFormat.FormattingIsIdempotent` | plugins/json-content/src/index.ts:157-205 | formatting twice is formatting once, for every string |
| `JsonLayout.StripLayout` | plugins/json-content/src/index.ts:157-205 | stripping takes away exactly what the layout adds |
| `JsonLayout.ClampActsIff` | plugins/json-content/src/index.ts:187-193 | the clamp at 0 acts exactly when some prefix closes more brackets than it opens |
| `JsonLayout.BalancedEndsAtMargin` | plugins/json-content/src/index.ts:157-205 | on balanced brackets the indentation ends at 0 and the clamp never acts |
| `AliasChains.ResolvesChain` | apps/backend/src/environments/variable-resolver.ts:98-145 | alias lookup terminates; it gives what the end of the chain gives, and the cycle error exactly when the chain comes back to itself |
| `AliasChains.ResolvesIff` | apps/backend/src/environments/variable-resolver.ts:98-145 | a name resolves exactly when its chain ends in a value, or in a secret with value and version |
| `AliasChains.SecretIffChainEndsInSecret` | apps/backend/src/environments/variable-resolver.ts:98-145 | a resolved name is secret exactly when its chain ends in a secret, and exactly when it has its one reference |
| `Interpolation.SegmentsSpellSource` | apps/backend/src/environments/variable-resolver.ts:50-89 | the pieces into which a source is cut spell it character by character |
| `Interpolation.RenderPiece` | apps/backend/src/environments/variable-resolver.ts:57-88 | one turn of the loop renders the piece at the cursor, or fails with its error |
| `Interpolation.Interpolate` | apps/backend/src/environments/variable-resolver.ts:50-95 | the loop is one pass over the pieces of the source: values that are put in are never read again |
| `InterpolationLaws.InterpolatesIff` | apps/backend/src/environments/variable-resolver.ts:50-95 | succeeds exactly when every placeholder has a valid name whose chain ends in a value; then the result is literals, escapes and values in order |
| `InterpolationLaws.SecretIffReferences` | apps/backend/src/environments/variable-resolver.ts:50-95 | the result is secret exactly when some placeholder's chain ends in a secret, and exactly when it carries secret references |
| `InterpolationLaws.EscapedLiteralIsItself` | apps/backend/src/environments/variable-resolver.ts:63-67 | doubling every opening of any literal makes it interpolate to itself under all variables |
| `AuditService.Service.RecordEvent` | apps/backend/src/audit/audit-service.ts:41-63 | adds one pending row and nothing else |
| `AuditService.Service.PublishOne` | apps/backend/src/audit/audit-service.ts:107-146 | appends the line of one event, then in one step publishes it, indexes it unless it is indexed, and counts its bytes |
| `AuditOutbox.SelectBatch` | apps/backend/src/audit/audit-service.ts:67-75 | the oldest pending events in order, as many as fit a batch |
| `AuditOutbox.BatchIsUnique` | apps/backend/src/audit/audit-service.ts:67-75 | an outbox has exactly one such batch |
| `AuditService.Service.PublishPending` | apps/backend/src/audit/audit-service.ts:65-149 | undisturbed, publishes exactly the batch of the oldest pending events, appends their lines in order to the file of the day and to no other, and indexes each in a segment of the day |
| `AuditService.PendingAfterBatch` | apps/backend/src/audit/audit-service.ts:67-75 | afterwards exactly the pending events outside the batch are pending, and none if the batch was not full |
| `AuditRuns.NoEventIsLost` | apps/backend/src/audit/audit-service.ts:65-149 | under any interleaving of publishers that may stop anywhere, a recorded event is pending or stands in the file its one, unchanging index row names |
| `AuditRuns.EveryByteIsAccounted` | apps/backend/src/audit/audit-service.ts:107-146 | the bytes of a file are the recorded length of its segment plus those of lines whose acknowledgement never committed |
| `AuditRuns.EveryLineIsAnEvent` | apps/backend/src/audit/audit-service.ts:107-112 | every line of every file is the line of a recorded event |
| `EnvironmentComposition.ProfileBuilder.AddOwn` | apps/backend/src/environments/environment-service.ts:828-832 | lets the own variables win over what was merged and records the environment as last evidence |
| `FrameDecoder.AcceptChunk` | apps/backend/src/proxy/proxy-client.ts:220-266 | taking in one chunk decodes every frame that it completes and leaves exactly the bytes of the unfinished one |
| `ImportNormalize.CountCandidates` | apps/backend/src/imports/import-provider-registry.ts:344-369 | over all requests of a scope, per name the votes of each signature and the declaration that came first |
| `ImportNormalize.KeepDifferent` | apps/backend/src/imports/import-provider-registry.ts:386-401 | rewrites exactly the requests of the scope, each to the declarations that differ from what the scope shows |
| `RedirectRequest.LocationValues` | apps/backend/src/executions/redirect-request.ts:78-80 | the values of the Location fields, in order |
| `RedirectRequest.RetainHeaders` | apps/backend/src/executions/redirect-request.ts:157-182 | one pass sorts the headers into those kept, with their views, and the names of the others, each once |
| `RedirectRequest.RemovedNamesAre` | apps/backend/src/executions/redirect-request.ts:174-178 | the removed names are those of the dropped headers, each once, in the order in which they were first dropped |
| `OpenApiBuilder.BuildUntagged` | plugins/openapi-import/src/openapi-json-provider.ts:373-396 | the tree of operations without tags: one collection per server if there are several, and the path collections |
| `OpenApiBuilder.BuildTag` | plugins/openapi-import/src/openapi-json-provider.ts:412-465 | adds the collection of one tag, its server collections if it has several of several, and routes its operations |
| `CookieHeartbeat.BeatExtends` | apps/backend/src/cookies/cookie-jar-service.ts:786-804 | a heartbeat of a holder that passes its checks extends its lease to 15 seconds from now or to its deadline, and changes nothing else |
| `CookieHeartbeat.BeatingKeepsLease` | apps/backend/src/cookies/cookie-jar-service.ts:348-392 | a holder that does not release, whose heartbeats do not fail, and for which the clock reaches neither its deadline nor 15 seconds since its last heartbeat still passes its checks, whatever others do |
| `CookieHeartbeat.GrantedWriterKeepsLease` | apps/backend/src/cookies/cookie-jar-service.ts:737-804 | the same in every run from the poll that granted the lease |
| `CookieHeartbeat.SilentHolderLapses` | apps/backend/src/cookies/cookie-jar-service.ts:737-841 | in every run a writer that stops beating no longer passes 15 seconds later |
| `CookieHeartbeat.RefusedBeatLoses` | apps/backend/src/cookies/cookie-jar-service.ts:348-357 | a heartbeat that fails, is late, or meets another owner or fence marks exactly this handle as lost |
| `CookieHeartbeat.LostStaysLost` | apps/backend/src/cookies/cookie-jar-service.ts:348-392 | a lost handle never passes again, whatever happens |
| `CookieHeartbeat.ReaderPassesUntilDeadline` | apps/backend/src/cookies/cookie-jar-service.ts:363-392 | an optimistic handle that is not released passes exactly until its deadline, whatever happens |
| `EnvironmentPrecedence.LaterIncludeWins` | apps/backend/src/environments/environment-service.ts:820-832 | a name of a composed profile is the environment's own declaration, else it has value and source from the composed profile of the include at the greatest position that has the name |
| `EnvironmentPrecedence.LaterIncludeWinsInherited` | apps/backend/src/environments/environment-service.ts:846-858 | the inherited profile takes each name from the include at the greatest position that has it |
| `EnvironmentPrecedence.EvidenceInPositionOrder` | apps/backend/src/environments/environment-service.ts:820-836 | the evidence is that of the includes in position order with last uses kept, and then the environment |
| `EnvironmentPrecedence.KeepLastIs` | apps/backend/src/environments/environment-service.ts:1036-1047 | keeping last uses keeps every entry once, in the order of last occurrences |
| `EnvironmentStore.CommandIs` | apps/backend/src/environments/environment-service.ts:203-439 | what an accepted command leaves: one environment more or fewer, and only the includes of the named one replaced |
| `ImportLifting.SignatureIsContent` | apps/backend/src/imports/import-provider-registry.ts:446-461 | two declarations have equal signatures if and only if they have the same kind and the same text, target, or supplied value and clear flag, an absent flag counting as false |
| `ImportLifting.VotesAreAlike` | apps/backend/src/imports/import-provider-registry.ts:353-369 | the votes of a declaration are the declarations of its name with the same content |
| `ImportOutcome.LastIsLatest` | apps/backend/src/imports/import-provider-registry.ts:386-389 | the declaration of a name that counts is the one at the greatest position |
| `ImportOutcome.NearestDeclarationWins` | apps/backend/src/imports/import-provider-registry.ts:417-444 | a name is bound to the last declaration of the nearest scope around that declares it, the root farthest |
| `ImportOutcome.UndeclaredIsUnbound` | apps/backend/src/imports/import-provider-registry.ts:417-444 | a name that no scope around declares is not bound |
| `ImportOutcome.ScopeReceives` | apps/backend/src/imports/import-provider-registry.ts:331-385 | in the normalized plan a scope with requests keeps its declarations and then has, in the order of first declarations, for exactly the names that its requests declare, that it does not, and that it does not inherit with the same content, the most frequent declaration |
| `ImportOutcome.IdleScopeKeeps` | apps/backend/src/imports/import-provider-registry.ts:321-385 | a scope without requests keeps its declarations |
| `ImportOutcome.RequestKeepsDiffering` | apps/backend/src/imports/import-provider-registry.ts:386-401 | a request keeps, in order, exactly the declarations whose content differs from what its scope shows, and is otherwise unchanged |
| `ImportOutcome.ScopesFirstSeen` | apps/backend/src/imports/import-provider-registry.ts:325-331 | the scopes are processed in the order of their first requests |
| `ImportOutcome.ScopeInOrder` | apps/backend/src/imports/import-provider-registry.ts:325-330 | the requests of a scope are those of the plan in that scope, in plan order |
| `ImportOutcome.DeclaredInOrder` | apps/backend/src/imports/import-provider-registry.ts:353-369 | declarations are counted request by request, in order |
| `OpenApiOrder.ServersFirstSeen` | plugins/openapi-import/src/openapi-json-provider.ts:357-362 | the servers stand in the order of their first operations |
| `OpenApiOrder.TagsFirstSeen` | plugins/openapi-import/src/openapi-json-provider.ts:399-404 | the tags stand in the order of their first operations |
| `OpenApiOrder.OrderedSorted` | plugins/openapi-import/src/openapi-json-provider.ts:405-411 | declared tags come in declared order, then the other tags by first use, then the operations without a tag |
| `TargetJoining.JoinedTwo` | apps/backend/src/requests/request-service.ts:3499-3505 | an empty part is left out; otherwise exactly one slash joins the first without its trailing and the second without its leading slashes |
| `RedirectNames.LowerIgnoresCase` | apps/backend/src/executions/redirect-request.ts:79-167 | lower-cased names are equal exactly when the names differ in ASCII case at most |
| `RedirectNames.SplitJoins` | apps/backend/src/executions/redirect-request.ts:249-250 | the tokens of a field hold no comma and joined by commas are the field |
| `RedirectNames.TrimIs` | apps/backend/src/executions/redirect-request.ts:250 | trimming takes the white space off both ends and nothing else |
| `RedirectLaws.TerminalIff` | apps/backend/src/executions/redirect-request.ts:77-81 | a response is terminal exactly unless its status is 301, 302, 303, 307 or 308 and it has a Location field |
| `RedirectLaws.InvalidLocationIff` | apps/backend/src/executions/redirect-request.ts:82-99 | a Location is invalid exactly if there are several or the only one does not resolve against the target |
| `RedirectLaws.TargetDecides` | apps/backend/src/executions/redirect-request.ts:105-150 | each refusal of a resolved target has its exact condition: credentials, other schemes, a downgrade to http, then the policy, then the limit; everything else is followed |
| `RedirectLaws.FollowedLands` | apps/backend/src/executions/redirect-request.ts:89-223 | a followed redirect requests the target to which the one Location resolves, without credentials, over http or https, shows it to scripts exactly when the URL is not sensitive, and has the method and body for its status |
| `RedirectLaws.TargetVisibility` | apps/backend/src/executions/redirect-request.ts:201-208 | along a chain a sensitive URL stays hidden from scripts, and otherwise every hop shows its own target |
| `RedirectLaws.RemovedAreNamed` | apps/backend/src/executions/redirect-request.ts:174-222 | the names reported with a followed redirect are those of the headers that did not go along, each once, by first place |
| `RedirectLoop.LeadsOnIff` | apps/backend/src/executions/execution-service.ts:596-752 | an exchange leads to the next exactly if its redirect is followed, the bytes stay below 1,073,741,824, and its body is stored intact |
| `RedirectLoop.EndsIff` | apps/backend/src/executions/execution-service.ts:549-752 | each way to end the loop has its exact condition |
| `FrameFailures.VerdictIs` | apps/backend/src/proxy/proxy-client.ts:236-316 | what the octets at the front of a buffer come to: waiting, each failure and taking have their exact conditions on octets 0 to 15 and the payload |
| `FrameFailures.TakenIs` | apps/backend/src/proxy/proxy-client.ts:238-316 | the type, payload, size and terminal flag of a taken frame, octet by octet |
| `FrameFailures.FailsWithFirstBadFrame` | apps/backend/src/proxy/proxy-client.ts:216-316 | after deliverable frames, a frame that fails ends the stream with its own failure and those frames delivered |
| `FrameFailures.EndsEarlyIff` | apps/backend/src/proxy/proxy-client.ts:264-266 | a stream that stops with no whole frame left returns exactly right behind a Complete frame, and otherwise ended early |
| `FrameFailures.BytesAfterComplete` | apps/backend/src/proxy/proxy-client.ts:260-263 | a Complete frame that does not end its chunk is delivered and then refused |
| `FrameFailures.StreamStops` | apps/backend/src/proxy/proxy-client.ts:216-267 | every stream begins with deliverable frames and then comes to one of these three ends |
| `CodecValues.AlphabetIs` | apps/backend/src/scripting/script-sdk-bootstrap.ts:119-137 | the base64 alphabet, position by position |
| `CodecValues.GroupIs` | apps/backend/src/scripting/script-sdk-bootstrap.ts:122-137 | a group has the letters of the six-bit values of its octets from the top, and an equals sign where there is no octet |
| `CodecValues.GroupsAre` | apps/backend/src/scripting/script-sdk-bootstrap.ts:122-137 | the text is the groups of every three octets in order |
| `CodecValues.PairValue` | apps/backend/src/scripting/script-sdk-bootstrap.ts:46-50 | the code point of a surrogate pair |
| `CodecValues.PointValue` | apps/backend/src/scripting/script-sdk-bootstrap.ts:75-115 | the code point of an accepted character of one to four octets |
| `JsonSpacing.GapsAre` | plugins/json-content/src/index.ts:157-205 | between neighbouring characters there is a line break after a comma or an opened block, one space after a colon, and a line break before the end of a block, and nothing else |
| `JsonSpacing.BreakIs` | plugins/json-content/src/index.ts:165-205 | a line break is one line feed and two spaces for every level |
| `JsonSpacing.StartIs` | plugins/json-content/src/index.ts:157-205 | nothing but what belongs there stands before the first character |
| `JsonSpacing.FinishIs` | plugins/json-content/src/index.ts:157-205 | nothing but what belongs there stands after the last character |
| `JsonSpacing.LevelsAreDepth` | plugins/json-content/src/index.ts:176-193 | the level is the number of open brackets, an empty pair not counted |
| `JsonSpacing.LiteralEnds` | plugins/json-content/src/index.ts:168-181 | a literal ends at the first quote with an even number of backslashes directly before it |
| `JsonSpacing.UnclosedLiteral` | plugins/json-content/src/index.ts:163-181 | a literal that is never closed takes all that follows |
| `JsonSpacing.OutsideUntilQuote` | plugins/json-content/src/index.ts:172-181 | text begins outside literals, and only a quote leads into one |
| `AliasChains.EndDecides` | apps/backend/src/environments/variable-resolver.ts:98-145 | a name resolves to what its aliases lead to: the stored text, empty if absent; a secret's text with the reference of its id and version; or the error of the last name |
| `AliasChains.CycleIsReported` | apps/backend/src/environments/variable-resolver.ts:99-103 | a chain that comes back is reported with all its names, the repeated one last |
| `AliasChains.ResolvesToText` | apps/backend/src/environments/variable-resolver.ts:98-145 | a name resolves exactly if its chain ends in a value or complete secret, and then to the text stored there |
| `InterpolationLaws.FirstErrorWins` | apps/backend/src/environments/variable-resolver.ts:74-79 | the first placeholder that cannot be rendered decides the error |
| `InterpolationSyntax.RestIsPlain` | apps/backend/src/environments/variable-resolver.ts:57-61 | without a further opening the rest is plain text |
| `InterpolationSyntax.DoubledOpeningIsEscape` | apps/backend/src/environments/variable-resolver.ts:62-67 | a doubled opening is an escape |
| `InterpolationSyntax.OpeningToClosingIsPlaceholder` | apps/backend/src/environments/variable-resolver.ts:68-86 | an opening and the first closing after it make a placeholder of what stands between |
| `InterpolationSyntax.UnclosedIsPlain` | apps/backend/src/environments/variable-resolver.ts:68-72 | an opening that is never closed is plain text with all that follows |
| `InterpolationReferences.ReferencesAreSecrets` | apps/backend/src/environments/variable-resolver.ts:83-93 | the references name exactly the secrets at the ends of the placeholders' chains, each variable once, in the order of first uses, with the version used last |
| `CookieSteps.ArrivalQueues` | apps/backend/src/cookies/cookie-jar-service.ts:279-297 | an arrival leaves its row with the present time and its deadline, the live rows as they were, and no dead ones |
| `CookieSteps.PollAdmitsIff` | apps/backend/src/cookies/cookie-jar-service.ts:692-734 | a poll of an optimistic execution admits it exactly if its row is live, no lease runs and no live serialized row stands before it; beyond that it only sweeps |
| `CookieSteps.PollGrantsIff` | apps/backend/src/cookies/cookie-jar-service.ts:737-766 | a poll of a serialized execution is granted exactly if its live row stands before all other live rows and no lease runs |
| `CookieSteps.GrantIs` | apps/backend/src/cookies/cookie-jar-service.ts:767-783 | a grant raises the fence by one and leases for 15 seconds or to the deadline; a refused poll only sweeps |
| `CookieSteps.GivingUpIs` | apps/backend/src/cookies/cookie-jar-service.ts:844-850 | an execution that gives up removes its row and nothing else |
| `CookieSteps.ReleaseIs` | apps/backend/src/cookies/cookie-jar-service.ts:393-414 | releasing removes the row, and the lease exactly if it is still the granted one |
| `CookieSteps.ReadersGoTogether` | apps/backend/src/cookies/cookie-jar-service.ts:692-734 | in every run, with no lease running and no live serialized row, every waiting optimistic execution before its deadline is admitted at its next poll |
| `CookieSteps.ReleaseEndsLease` | apps/backend/src/cookies/cookie-jar-service.ts:397-413 | in every run, no owner is left when the owner of the lease releases it |
| `CookieRevision.RemovalIs` | apps/backend/src/cookies/cookie-jar-service.ts:229-267 | a removal takes effect exactly at the expected revision and if it names a cookie of the jar, and then takes away exactly the named ones |
| `CookieRevision.WritingIs` | apps/backend/src/cookies/cookie-jar-service.ts:494-546 | a response takes effect exactly if it changes what was read and nothing was committed since |
| `ImportSearch.MentionedIff` | apps/backend/src/imports/import-service.ts:232-237 | a name without NUL counts as mentioned exactly if its placeholder stands in the prefix of the plan, in the prefix of a collection around the request, or in the request: no match runs across two of them |
| `InterpolationSyntax.NamesAre` | apps/backend/src/environments/variable-resolver.ts:74 | names are letters and underscores, then letters, digits, underscores, dots and hyphens, told by character |
| `RedirectNames.NominatedIs` | apps/backend/src/executions/redirect-request.ts:243-255 | a header is nominated exactly if an enabled Connection field lists its name between commas, in whatever case |
| `JsonSpacing.LevelIsRise` | plugins/json-content/src/index.ts:176-193 | on any text the level is how far the count of open blocks has risen above its lowest point so far |
| `JsonSpacing.SpacesAre` | plugins/json-content/src/index.ts:176 | white space is exactly these 25 code units |
| `TargetJoining.LeadingSlashesGo` | apps/backend/src/requests/request-service.ts:3499-3505 | only slashes are taken off a front, and all of them |
| `TargetJoining.TrailingSlashesGo` | apps/backend/src/requests/request-service.ts:3499-3505 | only slashes are taken off an end, and all of them |
| `TargetJoining.JoinedNext` | apps/backend/src/requests/request-service.ts:3499-3505 | one more component is left out when empty, stands alone when it is the first, and else follows exactly one slash |
| `AuditOutbox.BatchIsOldest` | apps/backend/src/audit/audit-service.ts:67-75 | a batch lists at most 100 pending events by time and id; an event that stays behind is no earlier, and the batch is full then |

## Left out

- AuditService.Service.PublishPending: states the run of one publisher that nothing interrupts; interleavings and stops are covered by the lemmas of AuditRuns over all runs.
- ImportMeaning.LiftingKeepsMeaning: speaks of names a request declares itself; effective bindings of other names may be added or changed by lifting.
- ImportPruning.SelectionKeepsBindings: speaks of names that stand in the request or the path prefixes above it; alias targets named only inside another variable may be dropped by pruning.
- ImportSelection.BaselineVariableRequired: the searched text of a request is one given string; how its JSON serialization escapes a name is not modelled.
- RedirectRequest.ConnectionHeaderNames: header names are lower-cased and tokens trimmed over ASCII only.
- RedirectLoop.FollowRedirects: the managed cookie header, which is added to each hop only when it is sent, and writes of the terminal rows are not modelled; a terminal row may be rewritten when creating the next hop fails.
- CookieRevision.NoLostUpdate: cookie ids, creation times and columns that are copied from the payload are not part of the contents.
- CookieChanges.IdentityIsUniqueIff: whether a column can hold a NUL is decided by the cookie library, which is not modelled.
- CookieExclusion.ExclusionHolds: one jar and its queue; jars do not share rows.
- AuditRuns.EveryByteIsAccounted: an append writes its whole line or nothing; torn lines are not modelled.
- InterpolationLaws.InterpolatesIff: error messages are reduced to their kind and name; the order of errors is that of `Interpolation.Interpolate`.
- FrameDecoder.ConsumeFrames: a sink that fails, and timeouts of the transport, are not modelled; payloads are delivered as bytes.
- Names, notes, descriptions, root variables and diagnostics of the OpenAPI tree: copied without decisions that affect routing.
- Ranking candidates by sorting and taking the first is modelled as a scan for the best one; the code's sort is stable and its orders are distinct.
- Workspace membership, revisions of environments, secret values and audit records of environment commands: plumbing around the graph.
- Expiry and management commands on cookies beyond their revision check: deletions by identity.
- Parsing of Set-Cookie, domain and path matching: library behaviour.
- SQL generation, migrations, blob files, hashing, certificates, passwords and script execution: foreign calls.
- Authentication attempts, OpenAPI schema sampling, XML and Markdown rendering, HAR mapping, configuration, plugin discovery and user interface: bounds and escapes of single values, and code without algorithms of its own.
