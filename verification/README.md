# Verified model of the code-graph server's core algorithms

The repository serves a code graph to coding agents: it searches the graph, talks to language
servers, measures how far their answers may be trusted, and writes summaries of the graph to disk.
Most of its files are plumbing; what this project models is the part where an exact guarantee is
at stake, and each guarantee is stated and proved here for every input or every run.

Every modelled operation comes in two forms. A function on values says what the operation computes
or how it changes the state; theorems are proved about that function. Where the source loops or
updates objects, a method or a class does the same, and its `ensures` ties its result or its new
state to the function. Whatever the process, the clock, the file system, the SQL engine, a JSON
parser or another library would answer is a parameter, so the theorems hold for every answer it
could give, unless a `requires` states what is assumed about it.

- `GraphPath`, `Impact` and `Reach`: the dashboard's bidirectional path search and its blast radius.
- `Framing`, `Requests`, `Readiness`, `Diagnostics` and `LspClient`: the LSP client, from the bytes
  of `Content-Length` frames (Language Server Protocol 3.17, "Base Protocol", "Header Part") and
  JSON-RPC 2.0 requests (sections 4 and 5) to the answers that license an exhaustive result.
- `LiveSessions`: the cache of running language servers.
- `Utf8`, `SelectionDigest` and `Selection`: the digest of a compile database.
- `SourceWalk` and `CompileDbCoverage`: the census of sources on disk and the verdict drawn from it.
- `Communities`: canonical community labels.
- `DocumentSnapshot` and `LocationCoherence`: one collection's view of its documents, and the
  admission of the locations a language server returned.
- `TsGlobs`: tsconfig globs as regular expressions.
- `DocumentRecency`: dates of documents from the git log.
- `DocRefs` and `DocLinks`: symbol and path references in documents.
- `BriefPublication`: publishing a brief only if it describes one graph.
- `Prelude`, `Strings` and `Sorting` hold what several models share.

## What the code does where its promise does not hold

- The path search treats an empty string as missing: as an endpoint it is refused, and as the meeting
  point of the two searches it is taken for not having met. The schema allows an empty id, and the
  database does not enforce that edges join nodes, so edges may carry one that is no node. That an
  answer is a chain of edges holds for every graph. Under a cap no smaller than the number of ids,
  answers are complete and shortest between all pairs of nodes, whichever ids are nodes and in every
  order of rows, exactly when neither a node nor an edge carries the empty id
  (`GraphPath.RightExactlyWithoutEmptyId`). Between the other nodes that holds exactly when no two
  neighbours of the empty id are unlinked while one of them has another neighbour
  (`GraphPath.NamedExactlyWhereHarmless`). Failing inputs are `GraphPath.EmptyEndpointExample` and, with
  an empty id that is no node, `GraphPath.EmptyIdLosesAPath`.
- A request made while the server is gone is rejected at once, but stays in `pending` with an armed
  timer until the timer rejects it again to no effect (`Requests.RefusedStaysPending`). No other
  request is ever settled and still pending (`Requests.SettledYetPending`).
- A server that becomes ready during the last sleep of a wait's settle window is reported as not heard
  from, and the index answer is unknown although readiness was observed
  (`Readiness.ReadyInTheLastSleepIsUnknown`).
- Unpaired surrogates all encode as U+FFFD, so two different argument vectors can have one row.
  The digest never depends on the order of the entries; the published rows do exactly when two
  entries differ only in unpaired surrogates (`Selection.OrderShowsExactlySurrogates`, with the
  inputs of `Selection.SurrogatesShowOrder` and `Selection.SurrogateExample`). Whether the call
  refuses does not depend on the order either; which cause a refusal names does, unless all entries
  without a row lack it for one cause (`Selection.CauseForgetsOrderExactlyWhenOne`, with the
  inputs of `Selection.RefusalCauseFollowsOrder` and `Selection.RefusalCauseExample`).
- A refusal carries no reason exactly when a walk of the same call ran to the end, found no source,
  and nothing else is wrong (`CompileDbCoverage.UnexplainedRefusal`, `CompileDbCoverage.UnexplainedExample`).
- A dot in a JavaScript expression matches no line terminator, so `**` does not cover a path with a
  newline in it (`TsGlobs.LineTerminatorsAreLost`). Exactly the paths without line terminators are
  matched as every glob means (`TsGlobs.RightForEveryGlobExactlyOnOneLine`).
- Without an exclude list, exactly the files below `node_modules`, `bower_components` and
  `jspm_packages` at the top of the config's directory are left out
  (`TsGlobs.DefaultExcludesReachOnlyTheTop`); a nested `node_modules` is covered
  (`TsGlobs.NestedExcludesAreNotImplied`).
- A file named like `@2026-01-01` is read as a date and re-dates the files listed after it
  (`DocumentRecency.DateNamedFileRedates`), as the source itself states. Of all logs git can print,
  exactly those without such a name are read right for every request
  (`DocumentRecency.ReadRightExactlyWhenPlain`).
- A token that stands only on a later line of a multi-line range is refused as a mismatch
  (`LocationCoherence.LaterLineIsRefused`, `LocationCoherence.AdmittedExactlyWhenShown`).
- A written path that does not normalise, because it climbs out of the repository or folds to its
  root, is looked up under the name `null`, and is linked to a file of that name when exactly one
  lies below some directory (`DocLinks.UnnormalisedPathFindsNull`, `DocLinks.NullExample`,
  `DocLinks.FoldingExample`).
- Facts a brief reads after the second capture are outside its guarantee
  (`BriefPublication.LateFactsMayBeNewer`). Whatever graphs there are, all facts of a published brief
  are those of the captured graph exactly when no rebuild commits until its last query
  (`BriefPublication.WholeBriefExactlyWhenQuietThroughout`). Graphs that carry no generation are not
  guarded at all (`BriefPublication.UnlabelledGraphsAreNotGuarded`).

## Model

| member | source | states |
|---|---|---|
| GraphPath.PathIsChain | mcp/stdio/dashboard/server.js:217-282 | whatever the ids, the cap and the row order: a non-empty answer starts at one endpoint, ends at the other, and joins each consecutive pair by an edge in either direction |
| GraphPath.PathIsShortest | mcp/stdio/dashboard/server.js:251-281 | where the empty id makes no detour, no chain between the endpoints is shorter than a non-empty answer, although the search stops at the first meeting node in mid-level |
| GraphPath.PathFindsEveryConnection | mcp/stdio/dashboard/server.js:236-281 | where the empty id makes no detour and the cap is no smaller than the number of ids, the answer is non-empty exactly when the endpoints are connected |
| GraphPath.PlainIdsAreAnswered | mcp/stdio/dashboard/server.js:172-282 | ids as they stand in the graph, without the dashboard's prefix, are answered with a chain between them exactly when they are connected, and no chain is shorter |
| GraphPath.SpellingIsIrrelevant | mcp/stdio/dashboard/server.js:172-220 | an id written as it is and the same id behind the prefix `code:` get one answer; a missing one gets no path |
| GraphPath.TrivialPaths | mcp/stdio/dashboard/server.js:220-223 | an id is its own path to itself, in the graph or not, and no path leads to or from another id that is no node |
| GraphPath.CapBoundsTheSearch | mcp/stdio/dashboard/server.js:251-279 | the search stops only when it has met, has nothing to expand or its maps have outgrown the cap, in one round from maps within it |
| GraphPath.RightExactlyWithoutEmptyId | mcp/stdio/dashboard/server.js:217-282 | under a cap no smaller than the number of ids: for every node table, all pairs of nodes and every row order answers are complete and shortest if and only if neither a node nor an edge carries the empty id; where all ids are nodes, the same of the one table |
| GraphPath.NamedExactlyWhereHarmless | mcp/stdio/dashboard/server.js:217-282 | under such a cap: for every node table, all pairs of nodes other than the empty id and every row order answers are complete and shortest if and only if no two neighbours of the empty id are unlinked while one of them has another neighbour; where all ids are nodes, the same of the one table |
| GraphPath.EmptyEndpointLosesAPath | mcp/stdio/dashboard/server.js:220 | the empty id as an endpoint is answered with no path, though it is connected to itself and to its neighbours |
| GraphPath.EmptyEndpointExample | mcp/stdio/dashboard/server.js:220 | one edge to the empty id: connected endpoints, harmless to all other pairs, and the empty answer |
| GraphPath.DetourLosesAPath | mcp/stdio/dashboard/server.js:251-281 | wherever two such neighbours exist and one row order puts the empty id first, they are connected and the answer is empty |
| GraphPath.EmptyIdLosesAPath | mcp/stdio/dashboard/server.js:251-281 | a concrete graph of three ids, with the empty one on edges but no node, in which connected endpoints get the empty answer |
| GraphPath.MeetingAtEmpty | mcp/stdio/dashboard/server.js:257-274 | where the empty id makes no detour, two searches can only meet at it when both endpoints are dead ends beside it |
| GraphPath.ForwardAvoidsEmpty | mcp/stdio/dashboard/server.js:253-264 | then no forward expansion meets at the empty id |
| GraphPath.BackwardAvoidsEmpty | mcp/stdio/dashboard/server.js:265-277 | nor does a backward one, because the smaller frontier is expanded first |
| GraphPath.RunTrees | mcp/stdio/dashboard/server.js:236-279 | over the whole search both parent maps stay trees rooted at their endpoints, with every parent link an edge |
| GraphPath.RunInv | mcp/stdio/dashboard/server.js:251-279 | over the whole search each side holds exactly the ball of its radius, its frontier is the ball's surface, and the two balls are disjoint until they meet |
| GraphPath.ExpandInv | mcp/stdio/dashboard/server.js:251-277 | one expansion of the smaller side grows its ball by one level or meets at the shortest distance |
| GraphPath.ReconstructJoins | mcp/stdio/dashboard/server.js:242-249 | the two parent chains from the meeting node make one chain of edges between the endpoints |
| GraphPath.FoundIsShortest | mcp/stdio/dashboard/server.js:251-281 | the chain through the meeting node is no longer than any chain between the endpoints |
| GraphPath.ExpandFrontier | mcp/stdio/dashboard/server.js:254-276 | the nested loops over a frontier and its neighbours compute the expansion, with the break in mid-level |
| GraphPath.Ancestors | mcp/stdio/dashboard/server.js:243-248 | the loop up a parent chain lists exactly its nodes and ends |
| GraphPath.ReconstructPath | mcp/stdio/dashboard/server.js:242-249 | the two loops and the reversal build the chain through the meeting node |
| GraphPath.BidirectionalSearch | mcp/stdio/dashboard/server.js:251-279 | the search loop terminates and ends in the state of the functional search |
| GraphPath.ComputePath | mcp/stdio/dashboard/server.js:217-282 | the whole call returns the chain the theorems above are about, for every pair of ids, existing or not |
| Impact.ImpactIsBoundedReachability | mcp/stdio/dashboard/server.js:183-211 | the blast radius of a node, written with or without the prefix, holds distinct nodes other than the start, at most the cap, each depending on it within the depth, and is complete whenever it is shorter than the cap |
| Impact.UnknownNodeHasNoImpact | mcp/stdio/dashboard/server.js:184-186 | a missing id or one that is no node has two empty lists |
| Impact.ComputeImpact | mcp/stdio/dashboard/server.js:183-211 | the hop loop computes that answer, including for a node that does not exist |
| Reach.ApartIsFar | mcp/stdio/dashboard/server.js:236-279 | two disjoint balls are further apart than the sum of their radii |
| Framing.ChunkingIsIrrelevant | mcp/stdio/code-intel/lsp-client.js:621-642 | feeding a stream chunk by chunk decodes the same bodies and leaves the same bytes as feeding it whole |
| Framing.HeaderEnd | mcp/stdio/code-intel/lsp-client.js:624-625 | the header of the next frame ends at the first blank line, or has not ended yet |
| Framing.DecodeOneExtends | mcp/stdio/code-intel/lsp-client.js:623-633 | a frame cut off, or a header skipped, is not changed by bytes that arrive later |
| Framing.DrainExtends | mcp/stdio/code-intel/lsp-client.js:621-642 | decoding a buffer and later more bytes equals decoding their concatenation |
| Framing.DrainLeavesResidue | mcp/stdio/code-intel/lsp-client.js:623-630 | what is left after decoding contains no complete frame and no complete header without a length |
| Framing.HeaderRoundTrip | mcp/stdio/code-intel/lsp-client.js:617-629 | the length read from a written header is the length written, in decimal, for every length |
| Framing.DrainEncoded | mcp/stdio/code-intel/lsp-client.js:606-642 | the bytes of a list of written frames decode to exactly those bodies, in order, with nothing left |
| Framing.FramesRoundTrip | mcp/stdio/code-intel/lsp-client.js:606-642 | the same for every way of cutting those bytes into chunks |
| Framing.EncodeIsSpelled | mcp/stdio/code-intel/lsp-client.js:616-618 | a frame is written as `Content-Length: `, the length in decimal without leading zeros, a blank line and the body |
| Framing.OtherFieldsDoNotMatter | mcp/stdio/code-intel/lsp-client.js:626-629 | fields before the length, the case of its name, blanks before the number and whatever follows it make no difference |
| Framing.DecodesByItsLength | mcp/stdio/code-intel/lsp-client.js:624-633 | a header that ends at its first blank line decodes to the frame of the length it gives, and is skipped when it gives none |
| Framing.WithoutFieldNoLength | mcp/stdio/code-intel/lsp-client.js:627-628 | a header that nowhere names the field gives no length |
| Framing.WithoutNumberNoLength | mcp/stdio/code-intel/lsp-client.js:627-628 | a field without a number gives no length |
| Requests.AlwaysBalanced | mcp/stdio/code-intel/lsp-client.js:280-677 | over every run each request is called exactly once when it leaves `pending`, `pending` is the set of armed timers, and after an exit only requests that could not be sent are left |
| Requests.SettledOnce | mcp/stdio/code-intel/lsp-client.js:589-600 | a request that was sent settles at most once; one that is unsettled is pending with its timer armed; after an exit none is unsettled |
| Requests.SettledForGood | mcp/stdio/code-intel/lsp-client.js:589-600 | a settled promise keeps its value whatever happens afterwards |
| Requests.OnlyItsResponseAnswers | mcp/stdio/code-intel/lsp-client.js:664-677 | only a message with the request's id and no method resolves or rejects it with the server's answer; a server request with a colliding id changes nothing |
| Requests.ResponseSettles | mcp/stdio/code-intel/lsp-client.js:670-677 | in any run the response to a request in flight settles its promise with the message's error, or else with its result, and leaves every other request as it was |
| Requests.TimerSettles | mcp/stdio/code-intel/lsp-client.js:592-595 | in any run the timer of a request in flight rejects it as timed out and no other |
| Requests.ExitSettles | mcp/stdio/code-intel/lsp-client.js:280-288 | in any run an exit rejects exactly the requests in flight |
| Requests.IssuedIsInFlight | mcp/stdio/code-intel/lsp-client.js:589-600 | a new request takes the next number and is in flight exactly when its message can be written and no exit came before |
| Requests.DeadSinceExit | mcp/stdio/code-intel/lsp-client.js:280-281 | the connection is dead exactly after an exit |
| Requests.RefusedStaysPending | mcp/stdio/code-intel/lsp-client.js:589-609 | a concrete run: a request on a dead connection is rejected at once and is still pending until its timer fires |
| Requests.SettledYetPending | mcp/stdio/code-intel/lsp-client.js:589-609 | over every run the requests that are settled and still pending are exactly the pending ones whose message could not be sent when they were issued |
| Readiness.AlwaysInv | mcp/stdio/code-intel/lsp-client.js:476-587 | over every run tokens mean indexing, no waiter is both parked and answered, and every recorded answer is the freshness of the state it was given in |
| Readiness.OutstandingTokensMeanIndexing | mcp/stdio/code-intel/lsp-client.js:558-578 | while a progress token is outstanding the client reports that its answers are stale |
| Readiness.IndexAnswerIsEarned | mcp/stdio/code-intel/index-readiness.js:51-92 | an index answer of true means that at the resolving step the server was ready, without outstanding token and with an opened file; an answer of false means indexing was observed and the wait ended while it was not fresh |
| Readiness.IndexAnswerExactly | mcp/stdio/code-intel/index-readiness.js:51-92 | the answer is true exactly when the wait resolved on a fresh client other than for having heard nothing, false exactly when a waiter was answered by a client not fresh, and unknown otherwise |
| Readiness.TokensAreOutstanding | mcp/stdio/code-intel/lsp-client.js:567-578 | a token is outstanding exactly when the last begin or end of it is a begin |
| Readiness.StateTellsTheRun | mcp/stdio/code-intel/lsp-client.js:558-578 | the indexing state is what the last signal of the run says, an end counting only when it leaves no token outstanding, and the warm count is the number of opened files |
| Readiness.FreshnessTellsTheRun | mcp/stdio/code-intel/lsp-client.js:476-485 | stale, cold, fresh and unknown, by what the run signalled and whether it opened a file |
| Readiness.DrainReleases | mcp/stdio/code-intel/lsp-client.js:562-587 | the end that leaves no token makes the client ready; with an opened file it answers every parked waiter fresh, and every index wait handed to one has seen the index drain |
| Readiness.ParkedUntilReleased | mcp/stdio/code-intel/lsp-client.js:487-502 | a parked waiter is released by such an end or by its own timer, which answers how the client stands then, and by nothing else |
| Readiness.ReadyWaitBegins | mcp/stdio/code-intel/lsp-client.js:487-502 | a readiness wait is answered at once when the client is fresh or there is no time, and else parked |
| Readiness.IndexWaitBegins | mcp/stdio/code-intel/lsp-client.js:517-550 | the first look of an index wait: ready at once, polling, decided for having heard nothing, or handed to a waiter |
| Readiness.IndexWaitPolls | mcp/stdio/code-intel/lsp-client.js:526-556 | every later look does the same, and a fresh client in the settle window needs no index |
| Readiness.ReadyInTheLastSleepIsUnknown | mcp/stdio/code-intel/lsp-client.js:529-546 | a fresh client is answered unknown by a poll if and only if the settle window is over |
| Readiness.SnapshotsOccurred | mcp/stdio/code-intel/lsp-client.js:487-556 | every state an answer was based on is a state the client was in during the run |
| Diagnostics.NoMissedPublication | mcp/stdio/code-intel/lsp-client.js:438-474 | over every run a wait is either parked or answered, a parked one still lacks the publication it waits for, and an answer says exactly whether the publish count had passed the caller's mark |
| Diagnostics.CountsPublications | mcp/stdio/code-intel/lsp-client.js:683-684 | the count of a document is the number of publications under any spelling of its URI in the run |
| Diagnostics.WaitBegins | mcp/stdio/code-intel/lsp-client.js:442-464 | a wait is answered yes at once when the run holds more publications than its mark, no at once when it may not wait, and else parked |
| Diagnostics.WaitEnds | mcp/stdio/code-intel/lsp-client.js:450-459 | a parked wait ends with the first publication past its mark, answered yes, or with its timer, answered no, and with nothing else |
| LspClient.ClientIgnoresChunking | mcp/stdio/code-intel/lsp-client.js:621-706 | two ways of cutting one byte stream leave the client in the same state with the same residual bytes |
| LspClient.ReceiveIsFeed | mcp/stdio/code-intel/lsp-client.js:621-642 | handling messages while bytes arrive equals decoding first and handling all bodies in order |
| LspClient.AlwaysSound | mcp/stdio/code-intel/lsp-client.js:589-706 | whatever bytes arrive in whatever chunks, and whatever callers, timers and the process do in between, the three invariants hold together |
| LspClient.BodiesKeepSound | mcp/stdio/code-intel/lsp-client.js:644-706 | no sequence of messages a server can send breaks the request table, the readiness state or the diagnostics waiters |
| LspClient.MessageDoes | mcp/stdio/code-intel/lsp-client.js:644-706 | every message reaches each part as its own event or not at all; exactly token requests are answered with null, exactly other requests of the server with method-not-found, and nothing else is written |
| LspClient.LifeIsThreeRuns | mcp/stdio/code-intel/lsp-client.js:589-706 | whatever happens to a client, its request table, readiness and diagnostics are where runs of their own lead, so every theorem about runs holds of the client |
| LspClient.ResponseSettlesPromise | mcp/stdio/code-intel/lsp-client.js:670-677 | in any life, handling the response to a request in flight settles its promise with the message's error or result |
| LspClient.RejectAll | mcp/stdio/code-intel/lsp-client.js:284-287 | the loop rejects exactly the pending requests once each and disarms exactly their timers |
| LspClient.AnswerAll | mcp/stdio/code-intel/lsp-client.js:580-587 | the loop answers exactly the parked waiters |
| LspClient.SettleDue | mcp/stdio/code-intel/lsp-client.js:685-698 | the loop resolves exactly the waiters a publication satisfies and leaves the others parked |
| LspClient.Client.Send | mcp/stdio/code-intel/lsp-client.js:606-619 | appends one frame to what the server was sent, unless the connection is gone |
| LspClient.Client.Request | mcp/stdio/code-intel/lsp-client.js:589-600 | takes the next id, registers it, arms its timer and sends, or rejects at once when it cannot |
| LspClient.Client.OnRequestTimer | mcp/stdio/code-intel/lsp-client.js:593-596 | a fired timer removes the request and rejects it |
| LspClient.Client.OnProcExit | mcp/stdio/code-intel/lsp-client.js:280-289 | marks the client dead and rejects everything pending |
| LspClient.Client.constructor | mcp/stdio/code-intel/lsp-client.js:98-139 | a new client satisfies the three invariants every method keeps |
| LspClient.Client.DidOpen | mcp/stdio/code-intel/lsp-client.js:306-311 | counts one more opened file and keeps the invariants |
| LspClient.Client.ResolveReadyWaiters | mcp/stdio/code-intel/lsp-client.js:580-587 | answers every parked waiter, and only when fresh |
| LspClient.Client.MarkIndexingEnded | mcp/stdio/code-intel/lsp-client.js:562-565 | the state becomes ready only when no token is left, and ready waiters are released only when fresh |
| LspClient.Client.HandleProgress | mcp/stdio/code-intel/lsp-client.js:567-578 | begin and end of a token make exactly the modelled step |
| LspClient.Client.WaitForReady | mcp/stdio/code-intel/lsp-client.js:487-503 | answers at once or parks under the next waiter number, and keeps the invariants |
| LspClient.Client.OnReadyTimer | mcp/stdio/code-intel/lsp-client.js:496-499 | a parked waiter's timer answers it with the freshness of that moment, and the invariants are kept |
| LspClient.Client.WaitForIndexReady | mcp/stdio/code-intel/lsp-client.js:518-556 | the stretch up to the first sleep makes exactly the modelled step |
| LspClient.Client.PollIndexReady | mcp/stdio/code-intel/lsp-client.js:530-549 | each later stretch between two sleeps makes exactly the modelled step |
| LspClient.Client.WaitForDiagnostics | mcp/stdio/code-intel/lsp-client.js:442-465 | answers at once or parks for the next publication of the canonical document, and no waiter misses its publication |
| LspClient.Client.OnDiagnosticsTimer | mcp/stdio/code-intel/lsp-client.js:456-459 | a parked waiter's timer removes it and answers that nothing newer came |
| LspClient.Client.OnPublish | mcp/stdio/code-intel/lsp-client.js:678-700 | counts the publication and resolves exactly the waiters it satisfies |
| LspClient.Client.OnResponse | mcp/stdio/code-intel/lsp-client.js:671-677 | settles the request with the error when there is one, else with the result |
| LspClient.Client.Handle | mcp/stdio/code-intel/lsp-client.js:644-706 | dispatches every message to exactly one of the modelled steps |
| LspClient.Client.OnData | mcp/stdio/code-intel/lsp-client.js:621-642 | one chunk leaves the state and the residual bytes that receiving it as a stream does |
| LiveSessions.AlwaysInv | mcp/stdio/code-intel/live.js:37-125 | over every interleaving of acquires, starts, failures, crashes, idle ticks and traffic, sessions were started, are not dead, watch their exit and have a timer, live clients are current, and every start under way is the registered one |
| LiveSessions.OneLiveClientPerKey | mcp/stdio/code-intel/live.js:53-125 | two started clients of one key that are neither dead nor asked to stop are one client, and it is the one in the session map |
| LiveSessions.OneStartPerKey | mcp/stdio/code-intel/live.js:61-122 | an acquire during a start shares that start, and no key has two starts under way |
| LiveSessions.AcquireGives | mcp/stdio/code-intel/live.js:55-79 | over every run: a session exactly when the map holds one, the start under way when there is one, and unsupported exactly when there is neither and no server for the language, which changes nothing |
| LiveSessions.AcquireSpawns | mcp/stdio/code-intel/live.js:64-118 | otherwise exactly one new client is spawned for the key, and its start is the registered one |
| LiveSessions.NoDeadSessionHandedOut | mcp/stdio/code-intel/live.js:57-60 | whatever session the map holds for the key is handed out, and it is current, started and not known to be dead: an exit has evicted it before anyone can ask |
| LiveSessions.AwaitedSession | mcp/stdio/code-intel/live.js:61-122 | when a joined start completes, a caller resumes with that start's client, of the caller's key, started, neither dead nor asked to stop, and the current session, whatever reactions run in between |
| LiveSessions.DeadStartNeverCompletes | mcp/stdio/code-intel/live.js:80-114 | a client that dies while it starts never becomes a session, whatever happens afterwards |
| LiveSessions.IdleSparesBusyAndReplaced | mcp/stdio/code-intel/live.js:37-46 | an idle tick asks no client to stop that has requests in flight or is not the current session, and no other client |
| LiveSessions.IdleEndsTheSession | mcp/stdio/code-intel/live.js:37-46 | the tick of a current session without requests removes it and asks its client to stop; a busy one is re-armed, a replaced one only loses its timer |
| LiveSessions.ExitEvicts | mcp/stdio/code-intel/live.js:110-113 | an exit marks its client dead and evicts its own session only, so that the next acquire spawns anew |
| LiveSessions.SettledStartIsForgotten | mcp/stdio/code-intel/live.js:118-123 | a start is registered until its call settles, and then no longer |
| LiveSessions.FailedStartIsNoSession | mcp/stdio/code-intel/live.js:93-107 | a failed start leaves its key without a session |
| LiveSessions.Manager.GetLiveSession | mcp/stdio/code-intel/live.js:53-118 | the stretch before the first await makes exactly the modelled step and gives its ticket |
| LiveSessions.Manager.OnStarted | mcp/stdio/code-intel/live.js:108-113 | a completed start becomes the session of its key, with its timer armed and its exit watched |
| LiveSessions.Manager.OnIdle | mcp/stdio/code-intel/live.js:37-46 | re-arms a busy session, leaves a replaced one alone, and otherwise removes the session before asking its client to stop |
| LiveSessions.Manager.OnExit | mcp/stdio/code-intel/live.js:110-113 | evicts the session only if it is still the current one |
| LiveSessions.Manager.OnStartSettled | mcp/stdio/code-intel/live.js:118-123 | the finally block clears the start of its key |
| Utf8.EncodeInjective | mcp/stdio/code-intel/selection-digest.js:34-37 | well-formed strings with one UTF-8 encoding are one string |
| Utf8.SurrogatesCollide | mcp/stdio/code-intel/selection-digest.js:34-37 | two different strings with unpaired surrogates have one encoding |
| Utf8.EncodingForgetsExactlySurrogates | mcp/stdio/code-intel/selection-digest.js:34-37 | two strings have one encoding exactly when they agree once unpaired surrogates are replaced by U+FFFD |
| Utf8.BoundariesAsSpecified | mcp/stdio/code-intel/selection-digest.js:34-37 | the first and last code point of each length are encoded as RFC 3629 (section 3) specifies |
| Utf8.SpaceIsRecognised | mcp/stdio/code-intel/lsp-client.js:626-627 | the white space a header may hold before its length is, by its encoding, exactly what JavaScript calls white space |
| SelectionDigest.FrameSplit | mcp/stdio/code-intel/selection-digest.js:33-37 | a length-framed field followed by anything determines the field and what follows |
| SelectionDigest.FramesSplit | mcp/stdio/code-intel/selection-digest.js:79-80 | the same for a list of framed fields of known length |
| SelectionDigest.RowDeterminesFields | mcp/stdio/code-intel/selection-digest.js:74-84 | equal rows have equal encoded path, directory, argument list, byte length and file hash |
| SelectionDigest.RowInjective | mcp/stdio/code-intel/selection-digest.js:74-84 | for normalised, well-formed members equal rows mean equal members |
| SelectionDigest.RowsForgetExactlySurrogates | mcp/stdio/code-intel/selection-digest.js:74-84 | two members share a row exactly when their normalised paths and arguments agree once unpaired surrogates are replaced, with files of one size and hash |
| SelectionDigest.SurrogateArgumentsCollide | mcp/stdio/code-intel/selection-digest.js:74-84 | two members that differ in an unpaired surrogate share a row |
| SelectionDigest.PreimageIsMultiset | mcp/stdio/code-intel/selection-digest.js:86-96 | two lists of rows have one preimage exactly when they are one multiset, duplicates counted |
| SelectionDigest.DigestIsMultiset | mcp/stdio/code-intel/selection-digest.js:89-96 | with an injective hash, two lists of rows have one digest exactly when they are one multiset |
| SelectionDigest.RowReadsBack | mcp/stdio/code-intel/selection-digest.js:74-84 | a reader of length-framed fields gets back the domain, the two paths, the arguments, the size and the hash, in this order and with nothing left |
| SelectionDigest.PreimageReadsBack | mcp/stdio/code-intel/selection-digest.js:89-96 | the preimage reads back as its domain, the number of rows and the rows |
| SelectionDigest.BigEndianWeighs | mcp/stdio/code-intel/selection-digest.js:27-31 | eight bytes written for a number denote it, most significant first |
| SelectionDigest.LessIsLexicographic | mcp/stdio/code-intel/selection-digest.js:90 | rows compare by their first differing byte, a proper prefix first |
| SelectionDigest.RowNameIsSpelled | mcp/stdio/code-intel/selection-digest.js:24 | the row domain is the text `apg.compile-entry.v1` |
| SelectionDigest.SetNameIsSpelled | mcp/stdio/code-intel/selection-digest.js:25 | the set domain is the text `apg.selected-tu-set.v1` |
| Selection.SelectedTuSetDigest | mcp/stdio/code-intel/selection-digest.js:124-246 | refuses with the first cause any entry has, and otherwise publishes the digest and the members in digest order |
| Selection.MemberSaysTheEntry | mcp/stdio/code-intel/selection-digest.js:141-221 | a member names the normalised relative paths of its entry's file and directory, in this order, and its arguments, and carries the size and the hash of the bytes read at the file |
| Selection.CauseNamesTheLack | mcp/stdio/code-intel/selection-digest.js:141-199 | each refusal cause, and the absence of one, by what the entry lacks |
| Selection.RowIsTheChoice | mcp/stdio/code-intel/selection-digest.js:201-221 | two rows, of one call or of two, are equal exactly when paths, arguments and file contents agree up to unpaired surrogates |
| Selection.DigestTellsTheChoices | mcp/stdio/code-intel/selection-digest.js:124-246 | where the hash does not collide, two calls publish one digest exactly when their multisets of paths, arguments and file contents agree up to unpaired surrogates |
| Selection.BodyDeterminesDigest | mcp/stdio/code-intel/selection-digest.js:224-246 | the published members are those of the entries, each as often, in the order of their rows, and the digest can be computed from them alone |
| Selection.PermutedEntriesAgreeOnAvailability | mcp/stdio/code-intel/selection-digest.js:124-246 | whether a digest is available does not depend on the order of the entries |
| Selection.DigestForgetsOrder | mcp/stdio/code-intel/selection-digest.js:124-246 | the digest depends only on the multiset of entries |
| Selection.RowOrderIndependence | mcp/stdio/code-intel/selection-digest.js:124-246 | the published rows are the same for every order of the entries if and only if entries with one row have one member |
| Selection.OrderShowsExactlySurrogates | mcp/stdio/code-intel/selection-digest.js:124-246 | the same in terms of the strings: if and only if no two entries differ only in unpaired surrogates of their normalised paths and arguments |
| Selection.SurrogatesShowOrder | mcp/stdio/code-intel/selection-digest.js:124-246 | two entries of one file that differ in one unpaired surrogate are published in an order that follows theirs |
| Selection.SurrogateExample | mcp/stdio/code-intel/selection-digest.js:124-246 | a concrete environment and two entries for which the published rows depend on order |
| Selection.PublishedInInputOrder | mcp/stdio/code-intel/selection-digest.js:224-246 | the members of one row are published in the order their entries came in |
| Selection.CollidingRowsKeepInputOrder | mcp/stdio/code-intel/selection-digest.js:224-246 | two members of one row are published first and second in either input order, ahead of the others of their row |
| Selection.CollectPairs | mcp/stdio/code-intel/selection-digest.js:141-222 | the loop over the entries gives their pairs, or the cause of the first entry that has none |
| Selection.NoCauseIsAllGood | mcp/stdio/code-intel/selection-digest.js:141-222 | a cause is found exactly when some entry has no row |
| Selection.RefusalCauseFollowsOrder | mcp/stdio/code-intel/selection-digest.js:141-222 | two entries with different causes: a refusal names the one that comes first |
| Selection.CauseForgetsOrderExactlyWhenOne | mcp/stdio/code-intel/selection-digest.js:141-222 | a refusal names the same cause in every order of the entries if and only if all entries without a row lack it for one cause |
| Selection.RefusalCauseExample | mcp/stdio/code-intel/selection-digest.js:141-222 | two entries whose two orders give two causes |
| Selection.CleanEntriesForgetOrder | mcp/stdio/code-intel/selection-digest.js:124-246 | entries without unpaired surrogates publish the same body in every order |
| Sorting.SortStable | mcp/stdio/code-intel/selection-digest.js:90 | the sort keeps tied elements in their original order |
| Sorting.SortForgetsOrder | mcp/stdio/code-intel/selection-digest.js:90 | where ties are equalities the sorted list depends only on the multiset |
| SourceWalk.EachDirectoryOnce | mcp/stdio/code-intel/compile-db.js:1007-1021 | no real directory is expanded twice, and no more than the cap are |
| SourceWalk.WalkCollectsExactly | mcp/stdio/code-intel/compile-db.js:1009-1039 | the sources collected are exactly those the expanded directories list; each expanded directory is the root or listed by one expanded before it; and an uncapped walk expanded the real directory of everything offered |
| SourceWalk.CyclesDoNotCap | mcp/stdio/code-intel/compile-db.js:1007-1020 | however links form cycles, a tree with fewer real directories than the cap is walked to the end unless the sources alone reach theirs |
| SourceWalk.CapsBoundTheWalk | mcp/stdio/code-intel/compile-db.js:1009-1012 | no directory is expanded once 200,000 sources are found or 50,000 directories expanded, and a walk is cut short only then |
| SourceWalk.LoopKeeps | mcp/stdio/code-intel/compile-db.js:1009-1037 | the loop terminates on every file system and keeps the invariant that nothing offered is forgotten |
| SourceWalk.ScanEntries | mcp/stdio/code-intel/compile-db.js:1023-1036 | listing a directory adds exactly its eligible subdirectories to the stack and its first-party sources to the set |
| SourceWalk.WalkFirstPartySourcesOnDisk | mcp/stdio/code-intel/compile-db.js:1002-1039 | the loop over stack, set and seen directories computes the walk the theorems are about |
| CompileDbCoverage.GrantIsMeasured | mcp/stdio/code-intel/compile-db.js:1108-1290 | whatever the caches hold, a call that grants walked the disk to the end in that call, found a source, and found every source in the database |
| CompileDbCoverage.CacheNeverDecides | mcp/stdio/code-intel/compile-db.js:1058-1066 | while the disk is as the cache saw it, the cached and the uncached call grant alike |
| CompileDbCoverage.UncachedGrantIsLicence | mcp/stdio/code-intel/compile-db.js:1108-1290 | walking every time, a call grants if and only if disk, database, toolchain and queried file license it |
| CompileDbCoverage.RunGrantsExactlyLicences | mcp/stdio/code-intel/compile-db.js:1058-1290 | over every sequence of calls on an unchanged disk each call grants if and only if its licence holds, with flags that belong to a database of the same hash |
| CompileDbCoverage.UnexplainedRefusal | mcp/stdio/code-intel/compile-db.js:1216-1290 | a grant carries no reason, and a refusal carries none if and only if a walk of this call ran to the end, found no source, and database, toolchain and queried file give no other cause |
| CompileDbCoverage.UnexplainedExample | mcp/stdio/code-intel/compile-db.js:1216-1290 | an empty disk and a database of one source: refused without a reason |
| CompileDbCoverage.ReasonIsTheFirstAgainst | mcp/stdio/code-intel/compile-db.js:1171-1290 | each reason, by what database, disk, flags and queried file say, is given exactly when it is the first that applies; the figures are the sources on disk and those of them in the database |
| CompileDbCoverage.RecalledExactlyWhenYoung | mcp/stdio/code-intel/compile-db.js:1051-1156 | a census is recalled exactly when it is of the same database, less than a minute old and would not license the grant; otherwise it is measured and remembered |
| CompileDbCoverage.PoorBelowNineTenths | mcp/stdio/code-intel/compile-db.js:1171-1174 | coverage is called poor exactly when the walk was cut short or the covered share is below 0.9 |
| CompileDbCoverage.CountCovered | mcp/stdio/code-intel/compile-db.js:1163-1168 | the loop counts the sources that are both on disk and in the database |
| CompileDbCoverage.Gate.FirstPartySourcesOnDisk | mcp/stdio/code-intel/compile-db.js:1058-1066 | recalls a young census of the same database, else walks and remembers |
| CompileDbCoverage.Gate.TakeCensus | mcp/stdio/code-intel/compile-db.js:1152-1156 | a recalled census that would license the grant is measured again |
| CompileDbCoverage.Gate.ComputeCompileDbCoverage | mcp/stdio/code-intel/compile-db.js:1108-1290 | the call returns the verdict and leaves the caches the theorems are about |
| Communities.CanonicalizeAssignments | mcp/stdio/analysis/communities.js:91-116 | every node gets the rank of its class: classes in order of non-increasing size, ties broken by smallest member, counted from one |
| Communities.RankOrdersNodes | mcp/stdio/analysis/communities.js:104-115 | two nodes get one id exactly when their raw labels agree, and otherwise ids ordered by size and smallest member |
| Communities.RanksAreContiguous | mcp/stdio/analysis/communities.js:104-115 | the ids are exactly 1 to the number of classes |
| Communities.RenamingIsInvisible | mcp/stdio/analysis/communities.js:91-116 | an injective renaming of the raw labels leaves the canonical map as it is |
| Communities.RenamingKeepsClasses | mcp/stdio/analysis/communities.js:91-100 | such a renaming changes neither the classes nor any node's class |
| Communities.InsertionOrderIsInvisible | mcp/stdio/analysis/communities.js:91-116 | the order of the assignments leaves the canonical map as it is |
| Communities.CollectGroups | mcp/stdio/analysis/communities.js:92-103 | the first loop groups the nodes by raw label with the size and smallest member of each group |
| Communities.Join | mcp/stdio/analysis/communities.js:94-99 | one turn of that loop counts one more member and keeps the smaller candidate for the minimum |
| Communities.Remap | mcp/stdio/analysis/communities.js:104-110 | the second loop numbers the sorted groups from one |
| Communities.Relabel | mcp/stdio/analysis/communities.js:111-115 | the third loop gives each node the number of its group |
| DocumentSnapshot.KeysKeepFilesApart | mcp/stdio/code-intel/document-snapshot.js:56-60 | two paths share a key exactly when they resolve to one file, up to slashes and the case of the drive letter |
| DocumentSnapshot.KeyIsSpelled | mcp/stdio/code-intel/document-snapshot.js:56-60 | a key is the resolved path with forward slashes and a capital drive letter, and nothing else of it is changed |
| DocumentSnapshot.AlwaysInv | mcp/stdio/code-intel/document-snapshot.js:75-186 | over every collection the bytes retained are those of the captured documents and within budget, the number of documents is within budget, and accesses are hits plus captures plus cached failures plus count refusals |
| DocumentSnapshot.AnswersAreStable | mcp/stdio/code-intel/document-snapshot.js:97-160 | once a file has been answered for, every later access gives the identical answer, whatever the disk does and whatever is read in between |
| DocumentSnapshot.ProbedOnce | mcp/stdio/code-intel/document-snapshot.js:117-147 | no file is looked at twice on disk in one collection |
| DocumentSnapshot.TextsWereRead | mcp/stdio/code-intel/document-snapshot.js:126-159 | every text handed out was read from disk by an access to that file no later than this one |
| DocumentSnapshot.FirstLookAnswers | mcp/stdio/code-intel/document-snapshot.js:97-160 | the first look at a file gives its text exactly when there is room and it is readable and fits, and otherwise the reason why not |
| DocumentSnapshot.KnownExactlyWhenProbed | mcp/stdio/code-intel/document-snapshot.js:97-160 | a file is in the snapshot exactly when some access went to disk for it |
| DocumentSnapshot.CountersTally | mcp/stdio/code-intel/document-snapshot.js:97-186 | accesses, hits, count refusals and reads attempted count the accesses of their kind |
| DocumentSnapshot.Snapshot.Read | mcp/stdio/code-intel/document-snapshot.js:97-160 | one access makes exactly the modelled step of documents, bytes and counters and gives its answer |
| LocationCoherence.EveryLocationInOneList | mcp/stdio/code-intel/location-coherence.js:189-227 | the four lists are together as long as the input, and each location is in the list of its own fate, in input order |
| LocationCoherence.RepeatedLocationSameFate | mcp/stdio/code-intel/location-coherence.js:142-183 | a location offered again for the same token, while its path resolves to the same file, gets the same fate, whatever happened to its document and the budgets in between |
| LocationCoherence.AdmittedIsVerified | mcp/stdio/code-intel/location-coherence.js:142-183 | an admitted location is in scope and its document, as the snapshot holds it, has the requested token inside the claimed range, by text offsets |
| LocationCoherence.AdmittedExactlyWhenShown | mcp/stdio/code-intel/location-coherence.js:142-183 | a location is admitted if and only if it decodes, is in scope, names a readable document, both ends of its range lie in the text, and the plain token stands in the part of the range on its first line, by text offsets |
| LocationCoherence.DecodesToItsFields | mcp/stdio/code-intel/location-coherence.js:51-72 | a location decodes exactly to the URI, lines and characters its own fields say, of one shape, or to the first defect |
| LocationCoherence.VerdictNamesTheDefect | mcp/stdio/code-intel/location-coherence.js:142-183 | every verdict on a document is given exactly when its cause, by text offsets, is the first that applies |
| LocationCoherence.ScopeComesFirst | mcp/stdio/code-intel/location-coherence.js:201-225 | a location out of scope is skipped without a read, and one whose URI names no file is refused only in scope |
| LocationCoherence.CoveredMeansOnFirstLine | mcp/stdio/code-intel/location-coherence.js:161-180 | the test by lines and slices is that statement about offsets |
| LocationCoherence.LaterLineIsRefused | mcp/stdio/code-intel/location-coherence.js:174-180 | a token that stands only on the second line of a range is refused as a mismatch |
| LocationCoherence.LinesRoundTrip | mcp/stdio/code-intel/location-coherence.js:161 | splitting gives back the lines that were written, whichever of the two line endings each of them has |
| LocationCoherence.LeafOfQualified | mcp/stdio/code-intel/location-coherence.js:96-99 | the token looked for is the name after the last double colon, without white space around it |
| LocationCoherence.IdentifierBoundaries | mcp/stdio/code-intel/location-coherence.js:94 | the first and last letters and digits and the underscore make a plain name, and their neighbours in ASCII do not |
| LocationCoherence.UnreadIsNeverAdmitted | mcp/stdio/code-intel/location-coherence.js:142-160 | a directory is refused as invalid, an unreadable file is only unverified |
| LocationCoherence.AdmitLocation | mcp/stdio/code-intel/location-coherence.js:201-225 | structure is checked first, scope second, and only then one document is read |
| LocationCoherence.AdmitLocations | mcp/stdio/code-intel/location-coherence.js:189-227 | the loop leaves the four lists and the snapshot state the theorems are about |
| TsGlobs.ReadsBack | mcp/stdio/code-intel/coverage.js:77-85 | the text built for a pattern reads back as the pattern's items: everything special is escaped |
| TsGlobs.TranslationKeepsMeaning | mcp/stdio/code-intel/coverage.js:73-87 | for every glob and path the expression accepts what a direct matcher of the glob does, with `**` confined to one line |
| TsGlobs.OneLinePathsMatchExactly | mcp/stdio/code-intel/coverage.js:73-87 | for paths without line terminators the expression accepts exactly what `*`, `?` and `**` with its absorbed slash mean |
| TsGlobs.RightForEveryGlobExactlyOnOneLine | mcp/stdio/code-intel/coverage.js:73-87 | a path is matched as every glob means if and only if it has no line terminator |
| TsGlobs.LineTerminatorsAreLost | mcp/stdio/code-intel/coverage.js:81 | a path with a newline that `**` means and the expression rejects |
| TsGlobs.DirectoryCoversItsSubtree | mcp/stdio/code-intel/coverage.js:74-76 | a pattern without wildcard and extension accepts exactly the paths that begin with it and a slash |
| TsGlobs.FileNamesItself | mcp/stdio/code-intel/coverage.js:73-87 | a pattern without wildcards that ends in an extension accepts exactly itself |
| TsGlobs.DirectoryNamesItsSubtree | mcp/stdio/code-intel/coverage.js:73-87 | one that ends in no extension accepts exactly the paths below it |
| TsGlobs.SlashesDoNotMatter | mcp/stdio/code-intel/coverage.js:74 | slashes at the end of a pattern, and which way its slashes lean, make no difference |
| TsGlobs.SpecialIsSyntax | mcp/stdio/code-intel/coverage.js:84 | exactly the syntax characters of a JavaScript pattern are escaped, the two wildcards aside |
| TsGlobs.CoverageIsWhatTheGlobsMean | mcp/stdio/code-intel/coverage.js:93-110 | a file is covered exactly when no exclude names it and it is listed, included, or neither list is given |
| TsGlobs.ExcludedDirectoriesStayOut | mcp/stdio/code-intel/coverage.js:98-101 | no include and no file list brings back what is below an excluded directory |
| TsGlobs.DefaultExcludesReachOnlyTheTop | mcp/stdio/code-intel/coverage.js:89-110 | with no lists at all, exactly the files below a default exclude at the top are left out |
| TsGlobs.NestedExcludesAreNotImplied | mcp/stdio/code-intel/coverage.js:89-110 | a file in a nested `node_modules` is covered |
| TsGlobs.TsGlobToRegExp | mcp/stdio/code-intel/coverage.js:73-87 | the index loop builds exactly that expression |
| TsGlobs.TranslateOne | mcp/stdio/code-intel/coverage.js:79-85 | one turn of the loop consumes one wildcard or character and emits its text |
| DocumentRecency.EachPathGetsItsFirstDate | mcp/stdio/brief/extract.js:154-218 | the map holds exactly the requested paths a successful batch lists, each with the date of the first commit listing it |
| DocumentRecency.ReadsPrintedLog | mcp/stdio/brief/extract.js:182-213 | reading a printed log dates each requested path it lists by its first commit, keeps earlier dates and adds no other key, also for names that begin with spaces or newlines |
| DocumentRecency.ReadCommit | mcp/stdio/brief/extract.js:202-213 | a date record is recognised and the one structural newline is taken off the first path only |
| DocumentRecency.NoNewlineBeforeADate | mcp/stdio/brief/extract.js:202-208 | a newline before any date is part of its record |
| DocumentRecency.NoNewlineAfterAnEmptyRecord | mcp/stdio/brief/extract.js:204-207 | behind an empty record a newline is part of the name |
| DocumentRecency.SplitTerminated | mcp/stdio/brief/extract.js:203 | splitting at NUL undoes terminating the records with it |
| DocumentRecency.ReadRightExactlyWhenPlain | mcp/stdio/brief/extract.js:182-213 | of all logs git can print, exactly those without a name shaped like a date record are read right for every request and path |
| DocumentRecency.DateNamedFileRedates | mcp/stdio/brief/extract.js:169-171 | a file named like a date record gives its date to what its commit lists after it |
| DocumentRecency.ReadBatch | mcp/stdio/brief/extract.js:182-213 | the record loop computes that reading |
| DocumentRecency.FindRecency | mcp/stdio/brief/extract.js:154-218 | the batch loop computes the map, skipping batches that fail |
| DocumentRecency.BatchesAskForAll | mcp/stdio/brief/extract.js:175-178 | every path is asked for once, in order, at most 150 in one call |
| DocumentRecency.DateIsSpelled | mcp/stdio/brief/extract.js:208 | a date is four, two and two digits with hyphens between them |
| DocRefs.LookupIsScan | mcp/stdio/analysis/doc-refs.js:215-257 | the index gives an id exactly when it is the only symbol whose name ends with a chain of two to four segments, ambiguity exactly when several ids match, and no such symbol exactly when none does |
| DocRefs.IndexHolds | mcp/stdio/analysis/doc-refs.js:215-238 | under every key the index files exactly the ids of the nodes whose names end with the key's segments |
| DocRefs.SegmentsOfName | mcp/stdio/analysis/doc-refs.js:217-221 | a symbol's segments are those its name was joined from, in their order; doubled dots count for nothing, and file-level nodes have none |
| DocRefs.JointsDoNotMatter | mcp/stdio/analysis/doc-refs.js:241 | however a chain's joints are written, it is looked up as its segments joined with dots |
| DocRefs.AddSuffixes | mcp/stdio/analysis/doc-refs.js:229-236 | the inner loop files one node under its suffixes of two to four segments |
| DocRefs.BuildSymbolIndex | mcp/stdio/analysis/doc-refs.js:215-238 | the outer loop builds that index, skipping file-level nodes and nodes without a name |
| DocRefs.ResolveSymbolChain | mcp/stdio/analysis/doc-refs.js:250-257 | looking up a written chain gives the resolution the scan theorem is about |
| DocLinks.NormalizeIdempotent | mcp/stdio/analysis/doc-links.js:139-148 | normalising twice is normalising once |
| DocLinks.NormalizedIsNamed | mcp/stdio/analysis/doc-links.js:139-148 | a normalised path has no segment that is empty, `.` or `..`, and no backslash |
| DocLinks.SkipLaw | mcp/stdio/analysis/doc-links.js:139-148 | an empty segment and a dot count for nothing |
| DocLinks.UpLaw | mcp/stdio/analysis/doc-links.js:139-148 | two dots take the named segment before them away |
| DocLinks.TopLaw | mcp/stdio/analysis/doc-links.js:139-148 | a path that begins with two dots has no normal form |
| DocLinks.NameLaw | mcp/stdio/analysis/doc-links.js:139-148 | a named segment stays as it is, and a backslash is a slash |
| DocLinks.FragmentAndQueryAreDropped | mcp/stdio/analysis/doc-links.js:219 | a fragment or a query is dropped with what follows it, wherever the other stands |
| DocLinks.SpaceIsDropped | mcp/stdio/analysis/doc-links.js:219 | white space around a path is dropped and nothing else of it |
| DocLinks.TakenFromTheDirectory | mcp/stdio/analysis/doc-links.js:150-153 | a path written in a document is taken from the document's own directory |
| DocLinks.IndexHoldsBest | mcp/stdio/analysis/doc-links.js:182-201 | for every path some node is at, the index holds a node of best rank there, and nothing else |
| DocLinks.RowOrderIsIrrelevant | mcp/stdio/analysis/doc-links.js:182-314 | where no path is contested by two best-ranked nodes, resolution does not depend on row order |
| DocLinks.ContestedPathFollowsRowOrder | mcp/stdio/analysis/doc-links.js:188-189 | a contested path has two row orders that file different nodes under it |
| DocLinks.ContestedPathIsAnsweredByRowOrder | mcp/stdio/analysis/doc-links.js:218-228 | a contested path that survives cleaning gets two answers from the resolver in two row orders |
| DocLinks.TierOneNamesOneNode | mcp/stdio/analysis/doc-links.js:222-228 | a first-tier id is given exactly when it is the only node either anchoring leads to; two nodes are refused without asking a weaker tier |
| DocLinks.SuffixIsWholeSegments | mcp/stdio/analysis/doc-links.js:305-309 | the string test for a suffix is the test that the last segments agree |
| DocLinks.TierThreeIsUniqueSuffix | mcp/stdio/analysis/doc-links.js:304-314 | a third-tier id is given exactly when no anchoring hits, the path has a slash, and one indexed path alone ends with it in whole segments |
| DocLinks.UnnormalisedPathFindsNull | mcp/stdio/analysis/doc-links.js:304-314 | a written path that does not normalise is answered exactly when it has a slash and one indexed file named `null` lies below a directory |
| DocLinks.NullExample | mcp/stdio/analysis/doc-links.js:304-314 | a path that climbs out of the repository is linked to a file named `null` in a concrete graph |
| DocLinks.FoldingExample | mcp/stdio/analysis/doc-links.js:304-314 | a path that folds to the repository's root is linked to a file named `null` as well |
| DocLinks.NoOtherTier | mcp/stdio/analysis/doc-links.js:218-314 | every answer is of the first or the third tier |
| DocLinks.ResolveBySuffix | mcp/stdio/analysis/doc-links.js:304-314 | the third tier computes the answer the theorem is about |
| DocLinks.NormalizePath | mcp/stdio/analysis/doc-links.js:139-148 | the push and pop loop computes the normal form or fails where the path climbs out |
| DocLinks.BuildIndex | mcp/stdio/analysis/doc-links.js:182-201 | the loop builds the index the theorems are about, keys in insertion order |
| DocLinks.FindSuffixHits | mcp/stdio/analysis/doc-links.js:306-310 | the loop that stops at the second hit finds the only hit, or that there are several |
| DocLinks.ResolveDocPath | mcp/stdio/analysis/doc-links.js:218-314 | the candidate set and the hit list give the resolution the theorems are about |
| Strings.SplitJoin | mcp/stdio/analysis/doc-refs.js:222-234 | splitting joined parts gives the parts back |
| Strings.JoinSplit | mcp/stdio/analysis/doc-refs.js:222-234 | joining split parts gives the string back |
| Strings.TrimTakesSpaceOff | mcp/stdio/code-intel/location-coherence.js:98 | trimming takes the white space off both ends and nothing else |
| BriefPublication.PublishedDescribesOneGraph | mcp/stdio/brief/generator.js:750-774 | whatever commits and whenever, a brief is published from the first uninterrupted attempt, every fact read between the captures is that of one graph, and the files are as that attempt rendered them |
| BriefPublication.RefusalTouchesNothing | mcp/stdio/brief/generator.js:776-789 | a refusal happens exactly when a rebuild interrupted both attempts, leaves every file as it was, and names two pairs of differing generations |
| BriefPublication.StraddledMeansRebuilt | mcp/stdio/brief/generator.js:588-589 | the two captures differ exactly when a rebuild committed between them |
| BriefPublication.DetectionNeedsFreshGenerations | mcp/stdio/brief/generator.js:588-589 | comparing the captures tells interrupted from uninterrupted attempts, for every attempt, if and only if no generation ever recurs |
| BriefPublication.OnlyChangesAreWritten | mcp/stdio/brief/generator.js:764-771 | a file is written exactly when its content changes |
| BriefPublication.PublishWrites | mcp/stdio/brief/generator.js:764-771 | publishing leaves each named file with its content and every other file alone |
| BriefPublication.LateFactsMayBeNewer | mcp/stdio/brief/generator.js:597-632 | a rebuild after the second capture reaches the published late facts unseen |
| BriefPublication.WholeBriefExactlyWhenQuietThroughout | mcp/stdio/brief/generator.js:512-632 | of an attempt that is published, all facts, read between the captures or after them, are those of the captured graph whatever graphs there are, if and only if no rebuild commits until the last query |
| BriefPublication.UnlabelledGraphsAreNotGuarded | mcp/stdio/brief/generator.js:520 | where graphs carry no generation the first attempt is published whatever commits |
| BriefPublication.AssembleBrief | mcp/stdio/brief/generator.js:500-727 | an attempt asks its queries one after the other between and after the captures, each possibly depending on the facts before it, and writes nothing |
| BriefPublication.BriefDirectory.WriteChanged | mcp/stdio/brief/generator.js:763-771 | the loop writes what differs and counts it |
| BriefPublication.BriefDirectory.GenerateBrief | mcp/stdio/brief/generator.js:750-789 | the attempt loop has the outcome and leaves the files the theorems are about |

## Left out

- SelectedTuSetDigest: NFC, SHA-256, path resolution and reading a file are functions of the environment; SHA-256 is assumed injective only where a lemma says so.
- CanonicalizeAssignments: `localeCompare` is a strict total order given as a parameter; the clustering that produced the labels is not modelled.
- NoMissedPublication: waiters of one document are kept by number rather than in one array per document, and canonicalising a URI is assumed idempotent.
- IndexAnswerIsEarned: the clock appears as the elapsed and remaining times of each stretch, which are arbitrary.
- ComputeCompileDbCoverage: how the queried file's path is made relative to the root, how the database was prepared, and the wording of the reasons are not modelled; the set of files in a database is taken to be determined by its hash. The ratio is compared as integers, which agrees with the source's floating-point comparison for counts below the walk's caps.
- WalkFirstPartySourcesOnDisk: joining paths, relative paths, dependency directories and source extensions are facts of a directory entry.
- ResolveDocPath: Node's `join` is modelled as concatenation with folding that an absolute result absorbs, on slashes and backslashes alike; the basename map the index also holds is not read by the resolver and is left out.
- FindRecency: git is a function from a batch of paths to its output.
- AdmitLocations: decoding a file URI is a function of the environment, and the method name copied into each row is left out.
- AdmitLocation: a character of a text stands for one UTF-16 code unit; Dafny's characters exclude surrogates, so texts with characters beyond the Basic Multilingual Plane, which the source counts as two units, are not modelled. `TsGlobs` and the path modules read their strings alike; `Utf8` and `Selection` have strings with surrogates.
- TsGlobToRegExp: the regular expression engine is modelled for the constructs the translation emits.
- AssembleBrief: the queries and the rendering are functions, their number is fixed (a query that is skipped answers alike on every graph), and reads of git, the manifest and overlays are not modelled.
- The SQL engine: edges and nodes are finite relations, and the order of result rows is arbitrary.
- Processes, pipes, HTTP, JSON, WSL path translation and the parent-process watch of the LSP client.
- Clients whose start failed, and starts in flight while all sessions are shut down.
- `expandUnityEntries` and the ranking of candidate databases in `prepareCompileDb`, `findNearestTsConfig`, and the edge tags in `offer`: each would add a small scan or a lexicographic comparison.
- Markdown and source scanning, brief rendering, and the small classifiers of query results.
