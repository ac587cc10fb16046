# Pin-op: verified models of the bridge and the browser core

Pin-op links a browser's DevTools panel with an editor: the browser sends a picked element through a loopback bridge, and the editor answers with the places in its sources that style it. Between the two sit small stateful registries and protocols that have to stay consistent while messages, tab moves, navigations, evictions and garbage collection arrive in any order. This project models them in Dafny and proves what they keep.

Verify everything with `dafny verify dfyconfig.toml`.

## The parts

- **Stable locators** (`DomTree`, `DomReads`, `IdScan`, `BoundedCanonical`, `PathSegments`, `StableLocator`, `LocatorContents`). A page is a fixed tree of nodes with runtime artifacts, excluded nodes, open shadow roots and authorized frame documents. Capture and resolution are defined as functions on the tree and proved inverse to each other; the budgeted loops (snapshots, the sibling walk, the explicit-stack id scan, the in-place list of smallest keys, the climb and the descent) are proved to compute those functions whenever the visit budget is not spent. `LocatorContents` says what a captured locator tells of the page, and which nodes have one, without the functions.
- **Reply routes** (`ReplyRouteSpec`, `ReplyRouteProtocol`, `ReplyRouteRecency`, `ReplyRoutes`). The registry's three mutually dependent indices are proved to be views of one table in order of use. Over that table stands the protocol of two-phase handles, with theorems about every run from the empty registry.
- **The bridge** (`Clients`, `PeerStates`, `BridgeLog`, `BridgeRouter`, `BridgeServer`). The router's branches and the server's connection, message, close, heartbeat and stop handlers run on the registries and keep a ghost log; every logged message is due because of events logged before it, down to the match ids, batches and generations it names.
- **The node registry** (`DomNodeTable`, `DomNodeLife`, `LastUses`, `DomNodeRecency`, `DomNodeIndices`, `DomNodeRegistry`). The weak forward map, the ordered reverse map and the strong retained map are views of one table, whose order is proved to be that of last use over every run. Garbage collection is a step that may take any node nothing retains and no snapshot holds.
- **Content refresh** (`RefreshLog`, `ContentRefresh`). Every `await` ends a method and leaves a suspension that any other method may overtake. A ghost log of grants, drops, invalidations, reloads and completions, and of tabs and windows that take part, carries the theorems about all interleavings.
- **Channel bindings** (`ChannelBindings`) and **selection order** (`SelectionOrder`): the two parts of the background router that keep tabs, sources and channels one to one, and that order, buffer and replay selections.
- **CSS text and budgets** (`CssScan`, `AuthoredDeclarations`, `AuthoredReading`, `NestedSelectors`, `CssTokens`, `DeclarationTokens`, `SelectorTokens`, `CssPage`, `CssPart`, `CssBeyond`, `CssCost`, `CssShown`, `CssWalk`). Scanners with quotes, escapes and nesting, and what they make of a text said in its tokens; printing and parsing of declaration lists; and the walk over a possibly cyclic graph of stylesheets with budgets shared between walks. `CssPage` says what a walk without budgets would report, `CssPart` what one that stops short may report of it, `CssBeyond` what there is when the deepest imports are followed too, `CssCost` what a page takes from the budgets, and `CssShown` how a rule is shown; `CssWalk` never reports anything else, reports all of the first whenever it gives no reason for stopping short, and gives none when the budgets exceed the cost.
- **Linking** (`LinkAuthenticator`, `LinkHistory`): the sliding window of wrong PINs, over every run of attempts, its answers said by the attempts before, and the bounded lists of tokens.

Classes of the source are classes here, with the fields they update; loops are loops with invariants. A class's `Valid()` is what holds between any two calls. An absent result (`None`) stands for a call that throws or answers `undefined`.

## Where the code does less than it promises

Each of these is proved, with the exact condition under which the promise is kept and an input at which it is not:

- Capture accepts an excluded shadow root or frame document as a target, and resolution refuses it (`ResolveCaptured`, `HiddenShadowRootDoesNotResolve`).
- A captured segment with an over-long approved attribute name is refused by the locator parser unless eight smaller names leave it out (`CapturedSegmentValid`, `LongNameIsRefused`).
- A node registry counts its changes, and when at most one of them is left a snapshot no longer restores (`SnapshotRestores`, `ExhaustedSnapshotFails`); exactly at the last one the restore replaces the maps and yet answers that it failed (`FailedRestoreLeaves`, `FailedRestoreReplaces`).
- A declaration whose name or plain value ends in an escape is parsed but not read back from its printed form (`ReparsesExactly`, `StrayText`), and a list that breaks off inside an escape loses what follows its last semicolon without being refused (`LastChunkDroppedExactly`, `TruncatedList`).
- A nested selector that ends in an escaped space resolves to one that is not well-formed (`ResolvedValidExactly`, `EscapedSpaceBreaks`), and a resolved selector may exceed the length limit by one unit (`OneUnitTooLongExactly`, `OneUnitTooLong`).
- Two selections of different nodes at one epoch and revision buffer differently in different orders (`OrderMattersExactly`, `TwoNodesAtOnce`).
- An import at the deepest level is passed over without a truncation reason, so that a walk may lose facts without saying so (`WholeExactly`, `LostWithoutAReason`); and a page with exactly as many rules as the limit gives a reason although nothing is left out: where only the rules can run short, a reason is given exactly when there is not room for one rule more than the page has, or for as many as a list claims (`WalkDocument`, `ReasonWithoutALoss`).
- In the last day of the representable clock a right PIN clears the failures although no token can be issued for it, and in the last minute no cooldown can be set: wrong PINs are not limited then, and are at any time before (`LimitedExactly`, `LimitedExactlyUnfaulted`, `FaultedRightPinForgets`, `ComparedAtTheEndOfTheClock`).

## Model

| member | source | states |
|---|---|---|
| StableLocator.ResolveCaptured | packages/browser-extension-core/src/domStableLocator.ts:167-470 | On a fixed tree a captured locator resolves to exactly the captured node; the one exception is a shadow root or frame document that is itself excluded, which capture accepts and resolution refuses |
| StableLocator.CaptureResolved | packages/browser-extension-core/src/domStableLocator.ts:185-373 | Conversely, a locator that resolves is the captured locator of what it resolves to, up to empty lists |
| StableLocator.LocatorsAreUnique | packages/browser-extension-core/src/domStableLocator.ts:167-320 | Two locators of one target kind resolve to one node exactly when they are the same up to empty lists: no two targets share a locator |
| LocatorContents.LocatorTells | packages/browser-extension-core/src/domStableLocator.ts:167-183 | Whatever the page, a captured locator tells its target and every host on the way: in each segment the tag name, the place among the author children, the smallest classes and approved attributes, and an id exactly if it is the element's own, short enough and no other element's |
| LocatorContents.CapturedIdExactly | packages/browser-extension-core/src/domStableLocator.ts:1117-1169 | The segment of an element on a path carries an id exactly when it is the element's own, not empty, within the limit, and the element is the only author element below its root that holds it |
| LocatorContents.CapturedExactly | packages/browser-extension-core/src/domStableLocator.ts:322-373 | There is a locator exactly for an element, or the element of a shadow root or frame document, that is reached through readable elements within the bounds, with no over-long name kept on the way |
| StableLocator.HiddenShadowRootDoesNotResolve | packages/browser-extension-core/src/domStableLocator.ts:171-182 | The exception at work: a page whose excluded shadow root is captured and whose locator does not resolve |
| StableLocator.DescendRetraces | packages/browser-extension-core/src/domStableLocator.ts:417-470 | Walking a printed path down from its root ends at the node it was printed for |
| StableLocator.SegmentsOfDescent | packages/browser-extension-core/src/domStableLocator.ts:573-614 | A path that can be walked is the printed path of its end, up to empty lists |
| StableLocator.CrossRetraces | packages/browser-extension-core/src/domStableLocator.ts:210-257 | The captured boundaries, crossed from the top document, lead to the root of the captured element with the segments they use |
| StableLocator.CaptureOfCrossing | packages/browser-extension-core/src/domStableLocator.ts:322-373 | An element found below crossed boundaries is captured with those boundaries, up to empty lists |
| StableLocator.DomStableLocatorService.CaptureLocator | packages/browser-extension-core/src/domStableLocator.ts:167-183 | Capture gives the locator that can be captured, or nothing when a visit was refused with the budget spent, and none is refused on a page whose counts of children, attributes, classes, depths and id scans add up to no more than the budget; remembered segments change nothing |
| StableLocator.DomStableLocatorService.ResolveLocator | packages/browser-extension-core/src/domStableLocator.ts:185-320 | Resolution finds what is there, or nothing when a visit was refused with the budget spent, and none is refused when the counts along the way add up to no more than the budget |
| StableLocator.DomStableLocatorService.CaptureElementAt | packages/browser-extension-core/src/domStableLocator.ts:322-373 | Capturing below the host of each root gives the whole element capture, unless the nesting or the budget runs out |
| StableLocator.DomStableLocatorService.ContainingRoot | packages/browser-extension-core/src/domStableLocator.ts:554-571 | The climb finds the document or open shadow root of an element within the depth bound |
| StableLocator.DomStableLocatorService.CapturePath | packages/browser-extension-core/src/domStableLocator.ts:573-614 | The loop up to the root gives the segments from the root down, fresh or remembered |
| StableLocator.DomStableLocatorService.ResolvePathFrom | packages/browser-extension-core/src/domStableLocator.ts:417-470 | The loop from parent to child finds the end of a path, and no node on it was seen before |
| PathSegments.CapturedSegmentValid | packages/browser-extension-core/src/domStableLocator.ts:1542-1634 | The locator parser accepts a captured segment exactly when every approved attribute of the element with an over-long name is left out for eight smaller ones |
| PathSegments.LongNameIsRefused | packages/browser-extension-core/src/domStableLocator.ts:1542-1634 | The exception at work: a page whose element has one approved attribute with a name of 129 units |
| PathSegments.CaptureSegment | packages/browser-extension-core/src/domStableLocator.ts:616-663 | A segment is the tag name, the sibling index, the unique id and the canonical classes and attributes of its element |
| PathSegments.MatchesSegment | packages/browser-extension-core/src/domStableLocator.ts:1067-1115 | A segment matches exactly the element it would be captured for, up to empty lists |
| PathSegments.StabilizeSegmentIdentity | packages/browser-extension-core/src/domStableLocator.ts:1117-1169 | The repeated scans commit an id exactly when it is unique below the root |
| PathSegments.ReadCanonicalClasses | packages/browser-extension-core/src/domStableLocator.ts:705-732 | The loop keeps the smallest class tokens in order |
| PathSegments.ReadCanonicalAttributes | packages/browser-extension-core/src/domStableLocator.ts:734-824 | The loop keeps the smallest approved attributes in order, counting author and runtime attributes apart |
| DomReads.ReadElementChildAt | packages/browser-extension-core/src/domStableLocator.ts:872-894 | Two snapshots and a double look give the element at a sibling index |
| DomReads.ElementSiblingIndex | packages/browser-extension-core/src/domStableLocator.ts:914-962 | The walk over previous siblings, confirmed against the child list, gives the number of author elements before an element |
| DomReads.ConfirmElementSiblingIndex | packages/browser-extension-core/src/domStableLocator.ts:964-991 | Two further snapshots confirm an index exactly for an author element |
| DomReads.SnapshotChildNodes | packages/browser-extension-core/src/domStableLocator.ts:993-1027 | A snapshot is the author children of a node, or nothing past a limit or without budget |
| DomReads.HasExactElementSiblingIndex | packages/browser-extension-core/src/domStableLocator.ts:1038-1056 | True exactly when the element is at the index and nowhere else |
| DomTree.ChildAtSiblingIndex | packages/browser-extension-core/src/domStableLocator.ts:872-962 | The child at the sibling index of an element is that element |
| DomTree.SiblingIndexOfChildAt | packages/browser-extension-core/src/domStableLocator.ts:872-962 | The sibling index of the child at an index is that index |
| IdScan.UniqueIdDecides | packages/browser-extension-core/src/domStableLocator.ts:1191-1269 | The scan says unique exactly when the page is within its limits and exactly one author element holds the id; a "not unique" is always true |
| IdScan.ScanUniqueId | packages/browser-extension-core/src/domStableLocator.ts:1191-1269 | The explicit stack with its counters answers what the recursive scan answers, unless the visit budget is spent |
| IdScan.NextIsNew | packages/browser-extension-core/src/domStableLocator.ts:1191-1269 | The node a scan visits next was not visited before, so its test for repeated nodes never ends it |
| BoundedCanonical.CanonicalKeepsSmallest | packages/browser-extension-core/src/domStableLocator.ts:852-866 | Inserting any sequence leaves the smallest distinct keys, sorted, each with its first value |
| BoundedCanonical.KeepsSmallestIsUnique | packages/browser-extension-core/src/domStableLocator.ts:852-866 | That describes the list completely: two lists of the smallest keys are equal |
| BoundedCanonical.EvidenceList.InsertBoundedCanonical | packages/browser-extension-core/src/domStableLocator.ts:852-866 | The loop, the splice and the pop do one step of it in place |
| JsText.LessExactly | packages/browser-extension-core/src/domStableLocator.ts:852-866 | One string is before another exactly if it is a proper prefix of it or has the smaller code unit at the first place where they differ |
| ReplyRouteProtocol.RunKeeps | packages/bridge/src/replyRouteRegistry.ts:71-539 | Every run of the registry and its handles keeps its invariant; routes only evolve, and a settled handle stays settled |
| ReplyRouteProtocol.CommitsExactly | packages/bridge/src/replyRouteRegistry.ts:270-354 | In every reachable state a handle commits exactly when it is unsettled, no collision, and nothing was mutated since it was prepared; all other checks are implied, and a handle that does not commit changes nothing |
| ReplyRouteProtocol.AtMostOneCommits | packages/bridge/src/replyRouteRegistry.ts:410-429 | Once a handle committed, no other handle prepared at the same revision ever commits |
| ReplyRouteProtocol.CommitEffect | packages/bridge/src/replyRouteRegistry.ts:316-349 | An up-to-date handle commits and raises the revision; any other leaves the registry as it is |
| ReplyRouteProtocol.RouteLife | packages/bridge/src/replyRouteRegistry.ts:152-268 | Along one route's life its owner never changes once set, its generations never fall, and its open ids change only with a newer batch |
| ReplyRouteProtocol.GoneRoutesStayGone | packages/bridge/src/replyRouteRegistry.ts:471-499 | A route that is gone never comes back as the same route |
| ReplyRouteProtocol.OpenExactlyTheLastBatch | packages/bridge/src/replyRouteRegistry.ts:335-380 | As long as a route lives without a newer batch, opening a rule is authorized exactly for its origin, at the batch's generation, on the batch's ids |
| ReplyRouteProtocol.PreparedBatchSize | packages/bridge/src/replyRouteRegistry.ts:297-312 | The ids of a prepared batch and the unresolved rules are together as many as the expected rules |
| ReplyRouteProtocol.RulesGenerationsRise | packages/bridge/src/replyRouteRegistry.ts:286-291 | Committed rules generations start at 1 and rise strictly |
| ReplyRouteProtocol.MatchIdsStandOnAClaim | packages/bridge/src/replyRouteRegistry.ts:195-268 | Over any run the standing match ids were set by the owner at its generation, under a claim the owner made before at that generation, and claim and ids stood ever since |
| ReplyRouteProtocol.CreateEvictsLeastRecent | packages/bridge/src/replyRouteRegistry.ts:98-128 | Creating a route at the cap removes exactly the least recently used route of that client, and below the cap none |
| ReplyRouteRecency.OrderOfLastUse | packages/bridge/src/replyRouteRegistry.ts:71-401 | Over every run, of two stored routes the one that was created, refreshed, resolved, claimed, given matches or a batch, or asked to open a rule by the later operation stands later; nothing else moves a route |
| ReplyRouteRecency.EvictsEarliestUsed | packages/bridge/src/replyRouteRegistry.ts:98-128 | Over every run, what a new route of a client at its cap evicts is exactly the client's route whose last use was the earliest; below the cap nothing goes |
| ReplyRouteRecency.RegistersExactly | packages/bridge/src/replyRouteRegistry.ts:71-129 | Registering an inspect collides exactly with a stored route of another client or with other rules, refreshes exactly the client's own with the same rules, and otherwise creates one that waits for them |
| ReplyRoutes.IndicesAgree | packages/bridge/src/replyRouteRegistry.ts:437-511 | A key is in a client's or an IDE's bucket exactly when the stored route names that origin or owner; no bucket is empty and no client exceeds its cap |
| ReplyRoutes.ClientRemovalKeys | packages/bridge/src/replyRouteRegistry.ts:392-401 | The keys a client's removal goes through are those of its own and its owned routes, all of them stored |
| ReplyRoutes.ReplyRouteRegistry.Register | packages/bridge/src/replyRouteRegistry.ts:71-129 | Registration prepares a refresh, a creation with its eviction, or a collision, and changes nothing |
| ReplyRoutes.ReplyRouteRegistry.PrepareRulesSources | packages/bridge/src/replyRouteRegistry.ts:270-313 | The loop over the sources accepts exactly the batches whose references and ids are proper and complete |
| ReplyRoutes.ReplyRouteRegistry.CheckSources | packages/bridge/src/replyRouteRegistry.ts:294-309 | The set-based loop accepts exactly known, unrepeated references with non-empty, unrepeated ids |
| ReplyRoutes.ReplyRouteRegistry.Apply | packages/bridge/src/replyRouteRegistry.ts:87-128 | Applying a handle does to the three indices what the commit does to the table |
| ReplyRoutes.PreparedHandle.Commit | packages/bridge/src/replyRouteRegistry.ts:317-349 | A handle that may be committed after anything else commits exactly when unsettled and nothing was mutated since |
| ReplyRoutes.PreparedHandle.Rollback | packages/bridge/src/replyRouteRegistry.ts:350-352 | A rolled back handle is settled and the registry untouched |
| ReplyRoutes.ReplyRouteRegistry.ClaimAuthority | packages/bridge/src/replyRouteRegistry.ts:195-242 | A claim by the owner at a generation that does not fall clears the match ids and records owner and claim |
| ReplyRoutes.ReplyRouteRegistry.ClaimSourceInvalidation | packages/bridge/src/replyRouteRegistry.ts:167-193 | Without an owner only the match ids go; otherwise it is a claim that is not a resolution |
| ReplyRoutes.ReplyRouteRegistry.ReplaceMatchIds | packages/bridge/src/replyRouteRegistry.ts:244-268 | Match ids are replaced exactly on the owner's standing claim at the same generation |
| ReplyRoutes.ReplyRouteRegistry.AuthorizeRulesOpen | packages/bridge/src/replyRouteRegistry.ts:356-380 | Authorization touches the route exactly for its origin, the committed generation and a committed id |
| ReplyRoutes.ReplyRouteRegistry.ResolveOrigin | packages/bridge/src/replyRouteRegistry.ts:131-143 | Resolving answers the origin and makes the route the most recently used |
| ReplyRoutes.ReplyRouteRegistry.Remove | packages/bridge/src/replyRouteRegistry.ts:382-390 | Removal answers whether there was a route |
| ReplyRoutes.ReplyRouteRegistry.RemoveClient | packages/bridge/src/replyRouteRegistry.ts:392-401 | A connection's own and owned routes go, in whatever order they are taken |
| ReplyRoutes.ReplyRouteRegistry.RemoveByKey | packages/bridge/src/replyRouteRegistry.ts:471-511 | Removing a stored key keeps the three indices in agreement; the inconsistency error is never reached |
| BridgeLog.RepliesReachTheirOrigin | packages/bridge/src/router.ts:27-208 | In every run a reply about an inspect goes only to the browser-side connection of that session whose own inspect committed the route |
| BridgeLog.CommandsReachTheOwner | packages/bridge/src/router.ts:209-358 | In every run an open, navigate or settings message goes only from that connection to the one IDE of the session that owns the route |
| BridgeLog.CommandsStandOnTheOwner | packages/bridge/src/router.ts:209-358 | In every run a forwarded open names an id of the last matches that the owner it goes to published for the route, at that generation, with no claim, invalidation or newer matches in between; the open of a rule stands in the same way on the last batch, and a navigation on the last claim |
| BridgeLog.AnswersStandOnTheOwner | packages/bridge/src/router.ts:64-208 | In every run a resolution, matches and an active navigation state come from the owner, at the generation of its last claim, which is a resolution; matches sent are the last ones, and an active id is one of them |
| BridgeRouter.BridgeRouter.RouteMessage | packages/bridge/src/router.ts:20-448 | Any message in any state keeps every logged event due, and changes the routes exactly as its kind says; one that is not genuine changes nothing and is answered with one failure |
| BridgeRouter.OtherRoutesStay | packages/bridge/src/router.ts:20-448 | A message other than an inspect changes no route but that of its own key |
| BridgeRouter.GatesAreGenuine | packages/bridge/src/router.ts:27-448 | The branches let through exactly the messages about the sender's own session, of its side of the bridge, under its own name, for which it announced what they need |
| BridgeRouter.CommandStands | packages/bridge/src/router.ts:209-358 | The test of a command on its route holds exactly for a genuine command of the route's origin that stands on the events in the log: the id among the last matches, the generation that of the last claim |
| BridgeRouter.StateStandsExactly | packages/bridge/src/router.ts:359-422 | The test of a navigation state holds exactly for its owner at the generation of its last claim, with an active id among the last matches |
| BridgeRouter.OpenGrantedExactly | packages/bridge/src/replyRouteRegistry.ts:356-380 | The open of a rule is granted exactly to the origin of a stored route, on an id of the last batch in the log, at its generation |
| BridgeRouter.ClaimSucceedsExactly | packages/bridge/src/replyRouteRegistry.ts:195-242 | A claim succeeds exactly on a stored route that nobody else owns, when no claim of it in the log had a greater generation |
| BridgeRouter.MatchesTakenExactly | packages/bridge/src/replyRouteRegistry.ts:244-268 | Match ids are taken exactly from the owner of a stored route, at the generation of its last claim in the log, a resolution |
| BridgeRouter.BatchTakenExactly | packages/bridge/src/replyRouteRegistry.ts:270-313 | A rules batch is taken exactly on a stored route that nobody else owns, at a generation later than every batch in the log, if it names expected rules and non-empty ids once each and leaves exactly the others unresolved |
| BridgeRouter.OnlyPartiesChangeRoutes | packages/bridge/src/router.ts:20-448 | A message changes a stored route only if it comes from the browser that asked or from the IDE that owns the route or is the first to claim it |
| BridgeRouter.BridgeRouter.RouteInspect | packages/bridge/src/router.ts:27-63 | An inspect is sent to the resolving IDEs and committed exactly when one of them took it; the commit cannot fail |
| BridgeRouter.BridgeRouter.RouteResolution | packages/bridge/src/router.ts:64-103 | A resolution claims the route and answers its origin; an answer that cannot be delivered removes the route |
| BridgeRouter.BridgeRouter.RouteRulesSources | packages/bridge/src/router.ts:104-151 | A rules batch is committed exactly when it was delivered |
| BridgeRouter.BridgeRouter.RouteSourceMatches | packages/bridge/src/router.ts:152-208 | Matches go to the origin on a standing claim; with none at all they are an invalidation |
| BridgeRouter.BridgeRouter.RouteCommand | packages/bridge/src/router.ts:209-358 | An open, settings or navigate message that is genuine and stands on the log goes to the owner if it is there, and touches the route; any other changes nothing and is answered with a failure |
| BridgeRouter.BridgeRouter.RouteRulesOpen | packages/bridge/src/router.ts:249-281 | A rule is opened exactly on an id of the last batch in the log, for the origin, when the owner takes it |
| BridgeRouter.BridgeRouter.RouteNavigationState | packages/bridge/src/router.ts:359-422 | A clearing state, or one that stands on the log, goes to the origin; one that cannot be delivered removes the route |
| BridgeRouter.BridgeRouter.RoutePageRefresh | packages/bridge/src/router.ts:423-441 | A refresh reaches exactly the browsers and simulators of the session that refresh automatically and take it |
| BridgeServer.BridgeServer.OnMessage | packages/bridge/src/server.ts:405-573 | What any message does to its connection, the clients and the routes; afterwards the flags, the browsers' knowledge and the ids in routes are right, and every flag that changed raised its generation by one |
| BridgeServer.BridgeServer.OnClose | packages/bridge/src/server.ts:575-579 | After a close no registry mentions the connection's client |
| BridgeServer.OneIdentity | packages/bridge/src/server.ts:405-573 | Over any messages a connection registers at most once, asks for a link at most once and never after it registered, and once closing or without its registration changes no more |
| BridgeServer.OpenExactly | packages/bridge/src/server.ts:405-573 | A new connection stays open exactly as long as every message is welcome: at most one request for a link, accepted and before the hello, at most one hello, and pongs and allowed messages only after it; it is registered as its hello says |
| BridgeServer.InboundIsGenuine | packages/bridge/src/server.ts:582-660 | What is let in is what the router then takes for genuine, but for the further capability some matches need |
| BridgeServer.ClientsExactly | packages/bridge/src/server.ts:405-573 | Who is a client after a message: the one an admitted hello of an open, unregistered connection names, and all others but the one that takes its leave |
| BridgeServer.BridgeServer.End | packages/bridge/src/server.ts:386-397 | Ending a registration removes the client, its routes and, for an IDE, the flag, even when the client was evicted before |
| BridgeServer.BridgeServer.UpdatePeerState | packages/bridge/src/server.ts:155-163 | The flag of a session follows its IDEs and every browser is told of a change |
| BridgeServer.BridgeServer.SendCurrentPeerState | packages/bridge/src/server.ts:165-178 | A new browser is told the current state in any case, the others only of a change |
| BridgeServer.BridgeServer.PublishPeerState | packages/bridge/src/server.ts:139-153 | A change is sent to exactly the browsers and simulators of the session but one |
| BridgeServer.BridgeServer.OnClientRemoved | packages/bridge/src/server.ts:180-186 | A removed client leaves no route, and an IDE's removal moves the flag |
| BridgeServer.BridgeServer.Stop | packages/bridge/src/server.ts:291-310 | Stopping empties every registry |
| BridgeServer.BridgeServer.HeartbeatTick | packages/bridge/src/heartbeat.ts:24-45 | A tick evicts exactly the clients that missed two pongs, with their routes, and counts a ping for all others |
| Clients.ClientRegistry.CountBySessionAndRole | packages/bridge/src/clientRegistry.ts:132-140 | The loop counts the clients of a session that play a role |
| PeerStates.PeerStateRegistry.UpdateIdeCount | packages/bridge/src/peerStateRegistry.ts:20-40 | The generation is odd exactly while the flag is set, and rises by one exactly when the flag changes |
| DomNodeLife.RunKeeps | packages/browser-extension-core/src/domNodeRegistry.ts:225-529 | Over any run with collections, snapshots and resets: one reference per node and scope, retained entries alive, the cap kept, reference numbers never taken back |
| DomNodeLife.RefsNameOneNode | packages/browser-extension-core/src/domNodeRegistry.ts:138-288 | A reference that is found again after anything stands for the same node in the same scope |
| DomNodeLife.NeverReissued | packages/browser-extension-core/src/domNodeRegistry.ts:212-214 | A reference that is gone is never issued and never resolves again |
| DomNodeLife.SnapshotRestores | packages/browser-extension-core/src/domNodeRegistry.ts:97-223 | A snapshot restores after anything that happens in its document while it is held, and brings back the same references, nodes, order and retention; it fails exactly when at most one change of the registry is left, and then changes the registry exactly at the last change with a reference left at the snapshot |
| DomNodeLife.FailedRestoreLeaves | packages/browser-extension-core/src/domNodeRegistry.ts:138-223 | A restore that fails changes no entry unless just the last change is left, nothing else refuses the snapshot, and its entries differ; then its entries are in place |
| DomNodeLife.FailedRestoreReplaces | packages/browser-extension-core/src/domNodeRegistry.ts:138-223 | The exception reached: one node referenced, snapshotted, retained and then resolved until the last change is left; the restore takes the retention away and answers that it failed |
| DomNodeLife.ExhaustedSnapshotFails | packages/browser-extension-core/src/domNodeRegistry.ts:97-223 | A registry large enough to give out every reference number without evicting anything is snapshotted after the last one, and the snapshot does not restore even at once |
| DomNodeLife.IssuedSinceAreGone | packages/browser-extension-core/src/domNodeRegistry.ts:212-214 | References issued between a snapshot and its restoring stop resolving for good, unless a later snapshot holds them; this needs one change left, whatever the restore answers |
| DomNodeLife.RoomTakesLeastRecent | packages/browser-extension-core/src/domNodeRegistry.ts:457-477 | Making room for a new reference removes the dead entries and then at most the least recently used unretained one; it fails exactly when all living entries of a full registry are retained or the changes left do not suffice for the removals and the new entry |
| DomNodeRecency.OrderOfLastUse | packages/browser-extension-core/src/domNodeRegistry.ts:225-353 | Over every run, of two stored references the one that was last issued, found again, resolved or retained by the later operation stands later in the table; releases, prunings, invalidations and collections keep the order |
| DomNodeRecency.EvictsEarliestUsed | packages/browser-extension-core/src/domNodeRegistry.ts:457-477 | Over every run, what a new reference evicts of the living is the unretained one whose last use was the earliest, and only when the living fill the registry |
| DomNodeRecency.ResolvesExactly | packages/browser-extension-core/src/domNodeRegistry.ts:290-310 | Resolving answers a stored living node of the asked scope, and takes away exactly a dead one it comes across |
| DomNodeRecency.RetainsExactly | packages/browser-extension-core/src/domNodeRegistry.ts:312-335 | Retaining adds the reason to a stored living node if two changes are left, and takes away a dead one |
| DomNodeRecency.ReleasesExactly | packages/browser-extension-core/src/domNodeRegistry.ts:337-353 | Releasing takes the reason away, and nothing else |
| DomNodeRecency.FindsAgainExactly | packages/browser-extension-core/src/domNodeRegistry.ts:225-252 | A node that has a reference in the scope gets it again, whatever else is stored, as long as a change is left |
| DomNodeIndices.InvalidatesExactly | packages/browser-extension-core/src/domNodeRegistry.ts:379-438 | An invalidation that cannot tell where some living node stands takes nothing; any other takes exactly the dead and the inside entries, or as many as changes are left for |
| DomNodeIndices.ResetsExactly | packages/browser-extension-core/src/domNodeRegistry.ts:441-451 | A document is reset exactly to a later safe epoch, and then nothing is stored and no number is given out again |
| DomNodeIndices.OutsideIsTheRest | packages/browser-extension-core/src/domNodeRegistry.ts:365-439 | Removing the dead and the inside references leaves exactly the living entries outside the subtree |
| DomNodeIndices.InvalidatedRise | packages/browser-extension-core/src/domNodeRegistry.ts:379-438 | Invalidated references come in the order in which they were issued |
| DomNodeIndices.InvalidationOnce | packages/browser-extension-core/src/domNodeRegistry.ts:371-438 | An invalidation goes through every dead and every inside reference once, all of them in the table |
| DomNodeRegistry.DomNodeRegistry.Reference | packages/browser-extension-core/src/domNodeRegistry.ts:225-288 | A node's reference in a scope is the one it has, or the next one, with room made for it; none when the changes run out on the way |
| DomNodeRegistry.DomNodeRegistry.Resolve | packages/browser-extension-core/src/domNodeRegistry.ts:290-310 | Resolving makes a living entry the most recently used and forgets a dead one, as long as a change is left |
| DomNodeRegistry.DomNodeRegistry.Retain | packages/browser-extension-core/src/domNodeRegistry.ts:312-335 | Retaining adds a reason, holds the node and touches the entry, with one change counted for each of the two |
| DomNodeRegistry.DomNodeRegistry.Release | packages/browser-extension-core/src/domNodeRegistry.ts:337-353 | Releasing takes a reason away and lets the node go with the last one, without touching the order |
| DomNodeRegistry.DomNodeRegistry.RetentionReasons | packages/browser-extension-core/src/domNodeRegistry.ts:355-363 | The reasons of a reference in their fixed order |
| DomNodeRegistry.DomNodeRegistry.InvalidateSubtree | packages/browser-extension-core/src/domNodeRegistry.ts:365-439 | Everything inside a root and everything dead goes, and the inside references are answered as issued; an unreadable relation calls it off, and it completes exactly if there are enough changes left for all it removes |
| DomNodeRegistry.DomNodeRegistry.ResetDocument | packages/browser-extension-core/src/domNodeRegistry.ts:441-451 | A greater epoch empties the maps; any other is refused |
| DomNodeRegistry.DomNodeRegistry.Prune | packages/browser-extension-core/src/domNodeRegistry.ts:453-491 | Exactly the dead entries go, while there are changes left to remove them |
| DomNodeRegistry.DomNodeRegistry.MakeRoomFor | packages/browser-extension-core/src/domNodeRegistry.ts:457-477 | The loop leaves a free place exactly when some living entry is unretained or the registry is not full, and the changes suffice for the removals |
| DomNodeRegistry.DomNodeRegistry.Snapshot | packages/browser-extension-core/src/domNodeRegistry.ts:97-135 | A snapshot holds every entry with its node, and there is none when a node is gone |
| DomNodeRegistry.DomNodeRegistry.Restore | packages/browser-extension-core/src/domNodeRegistry.ts:138-223 | A restore rebuilds the maps, and one that fails changes none of them except at the last change left |
| DomNodeRegistry.DomNodeRegistry.Collect | packages/browser-extension-core/src/domNodeRegistry.ts:63-72 | The collector takes only nodes that nothing here retains, and their weak keys go with them |
| ContentRefresh.BackgroundContentRefreshCoordinator.ReloadedAtMostOnce | packages/browser-extension-core/src/backgroundContentRefresh.ts:537-564 | In every reachable state a tab was reloaded at most once on the authority of a lease |
| ContentRefresh.BackgroundContentRefreshCoordinator.ReloadedWhileCurrent | packages/browser-extension-core/src/backgroundContentRefresh.ts:537-564 | In every reachable state each reload was on a reload lease granted to the tab before, with no navigation, revocation, removal or newer lease in between |
| ContentRefresh.BackgroundContentRefreshCoordinator.ReloadedWhileTakingPart | packages/browser-extension-core/src/backgroundContentRefresh.ts:537-564 | In every reachable state a tab was reloaded only while it took part in the window its lease was granted for, and that window was open, without a break from the grant to the reload |
| ContentRefresh.BackgroundContentRefreshCoordinator.SucceededAfterAccepted | packages/browser-extension-core/src/backgroundContentRefresh.ts:206-242 | In every reachable state a reload dispatch that succeeded had its lease completed as accepted, and that only after the tab was reloaded for it |
| ContentRefresh.BackgroundContentRefreshCoordinator.SettledOnce | packages/browser-extension-core/src/backgroundContentRefresh.ts:565-613 | In every reachable state a lease was completed at most once, and its completion is the one in the log |
| ContentRefresh.BackgroundContentRefreshCoordinator.Dispatch | packages/browser-extension-core/src/backgroundContentRefresh.ts:171-182 | A dispatch ends the tab's lease and waits exactly for an eligible tab |
| ContentRefresh.BackgroundContentRefreshCoordinator.DispatchReady | packages/browser-extension-core/src/backgroundContentRefresh.ts:182-186 | It goes on exactly with a binding that still stands |
| ContentRefresh.BackgroundContentRefreshCoordinator.DispatchPrepared | packages/browser-extension-core/src/backgroundContentRefresh.ts:187-210 | A binding that still stands becomes the tab's lease |
| ContentRefresh.BackgroundContentRefreshCoordinator.DispatchResponded | packages/browser-extension-core/src/backgroundContentRefresh.ts:207-242 | Success exactly on a matching accepted answer under a standing lease or a completed reload, and the end of the lease |
| ContentRefresh.BackgroundContentRefreshCoordinator.SetTabParticipation | packages/browser-extension-core/src/backgroundContentRefresh.ts:245-274 | Joining from another window, or leaving, starts a new lifecycle with nothing stored |
| ContentRefresh.BackgroundContentRefreshCoordinator.RevokeTab | packages/browser-extension-core/src/backgroundContentRefresh.ts:286-296 | A revoked tab starts a new lifecycle with nothing stored |
| ContentRefresh.BackgroundContentRefreshCoordinator.RevokeWindow | packages/browser-extension-core/src/backgroundContentRefresh.ts:298-310 | Exactly the tabs of the window start a new lifecycle |
| ContentRefresh.BackgroundContentRefreshCoordinator.SetWindowEligibility | packages/browser-extension-core/src/backgroundContentRefresh.ts:276-284 | An ineligible window has no tab with anything stored |
| ContentRefresh.BackgroundContentRefreshCoordinator.ObserveTabUpdate | packages/browser-extension-core/src/backgroundContentRefresh.ts:312-369 | A tab navigates exactly on another window, a loading or another address; only the expected loading of an issued reload keeps its transition |
| ContentRefresh.BackgroundContentRefreshCoordinator.RouteBootstrap | packages/browser-extension-core/src/backgroundContentRefresh.ts:376-406 | A trusted runtime on an eligible tab at its page, and not a blocked one, becomes the tab's provisional binding |
| ContentRefresh.BackgroundContentRefreshCoordinator.RouteReady | packages/browser-extension-core/src/backgroundContentRefresh.ts:408-413 | A ready message is queued exactly for the binding it names |
| ContentRefresh.BackgroundContentRefreshCoordinator.ReadyStarts | packages/browser-extension-core/src/backgroundContentRefresh.ts:487-499 | A binding is ready exactly if it still stands when its turn comes |
| ContentRefresh.BackgroundContentRefreshCoordinator.ReadyRead | packages/browser-extension-core/src/backgroundContentRefresh.ts:501-514 | A stored snapshot for the page is claimed by a binding that still stands |
| ContentRefresh.BackgroundContentRefreshCoordinator.ReadyClaimed | packages/browser-extension-core/src/backgroundContentRefresh.ts:515-535 | A claimed snapshot ends the reload it was taken for |
| ContentRefresh.BackgroundContentRefreshCoordinator.RouteReload | packages/browser-extension-core/src/backgroundContentRefresh.ts:415-420 | A reload request is queued exactly for the unconsumed lease it names |
| ContentRefresh.BackgroundContentRefreshCoordinator.ReloadStarts | packages/browser-extension-core/src/backgroundContentRefresh.ts:537-543 | The first request consumes the lease; every later one ends |
| ContentRefresh.BackgroundContentRefreshCoordinator.ReloadPersisted | packages/browser-extension-core/src/backgroundContentRefresh.ts:546-564 | The tab is reloaded exactly when the snapshot was stored and the lease still stands |
| ContentRefresh.BackgroundContentRefreshCoordinator.ReloadReturned | packages/browser-extension-core/src/backgroundContentRefresh.ts:564-613 | A reload is accepted when its transition is still there and the browser agreed or the page was seen to load |
| ContentRefresh.BackgroundContentRefreshCoordinator.InvalidateLifecycle | packages/browser-extension-core/src/backgroundContentRefresh.ts:782-798 | A new epoch, in which nothing stored belongs to the tab |
| ContentRefresh.BackgroundContentRefreshCoordinator.RemoveTab | packages/browser-extension-core/src/backgroundContentRefresh.ts:448-460 | A removed tab is detached, with nothing stored |
| ContentRefresh.BackgroundContentRefreshCoordinator.Dispose | packages/browser-extension-core/src/backgroundContentRefresh.ts:466-485 | Nothing is left bound |
| ContentRefresh.BackgroundContentRefreshCoordinator.ClearBinding | packages/browser-extension-core/src/backgroundContentRefresh.ts:734-753 | Exactly the bindings of the runtime go |
| ChannelBindings.BackgroundRouterBindings.BoundOnce | packages/browser-extension-core/src/backgroundRouter.ts:6560-6580 | In every reachable state no tab and no source is bound to two channels, and either index finds exactly the binding |
| ChannelBindings.BackgroundRouterBindings.RegisterDevtools | packages/browser-extension-core/src/backgroundRouter.ts:1260-1285 | A registration starts exactly when its channel is neither bound nor pending otherwise |
| ChannelBindings.BackgroundRouterBindings.RegistrationLookedUp | packages/browser-extension-core/src/backgroundRouter.ts:1287-1312 | After the lookup of its tab a registration ends, waits for a teardown or is resolved |
| ChannelBindings.BackgroundRouterBindings.RegistrationTornDown | packages/browser-extension-core/src/backgroundRouter.ts:1303-1312 | After the teardown a current registration is resolved and any other ends |
| ChannelBindings.BackgroundRouterBindings.Answer | packages/browser-extension-core/src/backgroundRouter.ts:1313-1365 | A bound channel answers with its binding, which follows the tab where it may |
| ChannelBindings.BackgroundRouterBindings.Claim | packages/browser-extension-core/src/backgroundRouter.ts:1366-1441 | A channel is bound exactly when its tab and source are free; it waits exactly when one older binding holds both |
| ChannelBindings.BackgroundRouterBindings.RegistrationSupersedes | packages/browser-extension-core/src/backgroundRouter.ts:1417-1446 | A binding is superseded exactly when nothing changed while its teardown ran, by a registration that is not older |
| ChannelBindings.BackgroundRouterBindings.SuspendDetachedTab | packages/browser-extension-core/src/backgroundRouter.ts:1055-1155 | A tab that leaves a window has its binding suspended under a new generation, and its registrations remember the window |
| ChannelBindings.BackgroundRouterBindings.AttachMovedTab | packages/browser-extension-core/src/backgroundRouter.ts:1157-1232 | A suspended binding moves on; without one the newest registration that saw the tab leave is bound, if its source is free |
| ChannelBindings.BackgroundRouterBindings.ReplaceBindingWindow | packages/browser-extension-core/src/backgroundRouter.ts:1234-1248 | A binding in another window, under a new generation |
| ChannelBindings.BackgroundRouterBindings.MovedTornDown | packages/browser-extension-core/src/backgroundRouter.ts:1475-1492 | A moving binding is looked up exactly when it is still there after its teardown |
| ChannelBindings.BackgroundRouterBindings.MovedLookedUp | packages/browser-extension-core/src/backgroundRouter.ts:1493-1520 | It moves to where the tab is, or was said to go, if that window still stands |
| ChannelBindings.BackgroundRouterBindings.PendingTornDown | packages/browser-extension-core/src/backgroundRouter.ts:1523-1566 | A registration is bound after a teardown exactly when its tab, source and channel still allow it |
| ChannelBindings.BackgroundRouterBindings.RefreshLookedUp | packages/browser-extension-core/src/backgroundRouter.ts:3547-3615 | A binding follows its tab to another window, unless its inspection must be retired first |
| ChannelBindings.BackgroundRouterBindings.QuietMoveLookedUp | packages/browser-extension-core/src/backgroundRouter.ts:3617-3652 | It then follows exactly if it is still bound and the window stands |
| ChannelBindings.BackgroundRouterBindings.RemoveBinding | packages/browser-extension-core/src/backgroundRouter.ts:6560-6580 | Removing a binding takes its tab and its source out of the indices; a stale binding removes nothing |
| ChannelBindings.BackgroundRouterBindings.TearDown | packages/browser-extension-core/src/backgroundRouter.ts:3787-3808 | An invalidating teardown removes whatever binding of its identity the channel has now |
| ChannelBindings.BackgroundRouterBindings.RemoveTab | packages/browser-extension-core/src/backgroundRouter.ts:1014-1053 | Exactly the tab's binding and its current registrations go |
| ChannelBindings.BackgroundRouterBindings.RemoveWindow | packages/browser-extension-core/src/backgroundRouter.ts:860-893 | Exactly the bindings of the window that are not on their way elsewhere go |
| ChannelBindings.BackgroundRouterBindings.FinishDisposal | packages/browser-extension-core/src/backgroundRouter.ts:934-950 | All maps are empty |
| SelectionOrder.ObservesStrictly | packages/browser-extension-core/src/backgroundRouter.ts:4396-4411 | Observing is a strict order whatever the events are |
| SelectionOrder.ObservesInOrder | packages/browser-extension-core/src/backgroundRouter.ts:4396-4411 | Between events whose equal epoch and revision mean the same node it is the total order of epoch, revision and selected before cleared |
| SelectionOrder.LatestIsGreatest | packages/browser-extension-core/src/backgroundRouter.ts:4458-4470 | The latest event of a buffer is its greatest |
| SelectionOrder.MergeEventJoins | packages/browser-extension-core/src/backgroundRouter.ts:4472-4489 | Buffering an event joins it with the latest one |
| SelectionOrder.MergeInspectJoins | packages/browser-extension-core/src/backgroundRouter.ts:4491-4538 | Buffering a payload moves the latest event exactly as its own event does |
| SelectionOrder.MergeHoldersJoins | packages/browser-extension-core/src/backgroundRouter.ts:4540-4551 | Merging two buffers keeps the greater of their latest events |
| SelectionOrder.MergedIsGreatest | packages/browser-extension-core/src/backgroundRouter.ts:4472-4489 | However events, payloads and buffers are merged, the buffer holds the greatest offered event the panel would take |
| SelectionOrder.HeldWins | packages/browser-extension-core/src/backgroundRouter.ts:4491-4538 | However payloads, events and buffers are merged, a payload is held exactly if one counted in its turn, and it is the one all others give way to: that of the greatest event, or without any event of the greatest revision, the first of equals unless a later one is preferred |
| SelectionOrder.LatestKeepsItsPayload | packages/browser-extension-core/src/backgroundRouter.ts:4491-4538 | While any payload that names the latest event was offered, the held one names it too and was offered |
| SelectionOrder.MergedIsReplayed | packages/browser-extension-core/src/backgroundRouter.ts:4593-4616 | What a commit replays of a merged buffer: only a payload of the latest event that belongs to it and was offered, and one whenever a payload of that event was offered and all of them belong to it |
| SelectionOrder.OrderIndependent | packages/browser-extension-core/src/backgroundRouter.ts:4472-4551 | For any mix of events, payloads and whole buffers the result depends only on which events they offer, not on their order |
| SelectionOrder.OrderMattersExactly | packages/browser-extension-core/src/backgroundRouter.ts:4396-4489 | Two events buffer alike in both orders exactly when they agree on the node of an equal epoch and revision |
| SelectionOrder.TwoNodesAtOnce | packages/browser-extension-core/src/backgroundRouter.ts:4396-4489 | One revision that selects two nodes: the buffer keeps the one that came first |
| SelectionOrder.BufferedSelectionHolder.MergeSelectionEvent | packages/browser-extension-core/src/backgroundRouter.ts:4472-4489 | The in-place merge of an event |
| SelectionOrder.BufferedSelectionHolder.MergeInspectSelection | packages/browser-extension-core/src/backgroundRouter.ts:4491-4538 | The in-place merge of a payload, with its tie rule |
| SelectionOrder.BufferedSelectionHolder.MergeFrom | packages/browser-extension-core/src/backgroundRouter.ts:4540-4551 | The in-place merge of another buffer |
| SelectionOrder.PanelSelection.PublishedInOrder | packages/browser-extension-core/src/backgroundRouter.ts:4252-4286 | Until the panel's authority is cleared, by a new content session or a panel closed or activated again, the published events rise strictly in epoch, revision and clearing |
| SelectionOrder.PanelSelection.ObserveAndPublish | packages/browser-extension-core/src/backgroundRouter.ts:4252-4286 | An event is published exactly when it comes after everything published, and only a matching selection keeps the publication under way |
| SelectionOrder.PanelSelection.CommitBuffered | packages/browser-extension-core/src/backgroundRouter.ts:4593-4617 | A commit empties the buffer, publishes its latest event, and replays a payload exactly with the event it belongs to; for a buffer filled by any merging it is replayed whenever one was offered and all offered for that event belong to it |
| AuthoredDeclarations.PrintThenParse | packages/browser-extension-core/src/authoredDeclarations.ts:101-151 | Printing any list of well-formed declarations and parsing it gives the same list back |
| AuthoredDeclarations.ReparsesExactly | packages/browser-extension-core/src/authoredDeclarations.ts:101-151 | What is parsed is read back from its printed form exactly when no name and no plain value ends in an escape |
| AuthoredDeclarations.StrayListBreaks | packages/browser-extension-core/src/authoredDeclarations.ts:101-151 | A printed list with such a declaration is not read back |
| AuthoredDeclarations.StrayText | packages/browser-extension-core/src/authoredDeclarations.ts:101-151 | A literal text whose one declaration ends in an escape and is printed as a text that reads otherwise |
| AuthoredDeclarations.UnfinishedEscapeIsDropped | packages/browser-extension-core/src/authoredDeclarations.ts:101-151 | A text that breaks off inside an escape, outside quotes and parentheses, is read like its part up to the last top-level semicolon |
| AuthoredDeclarations.EndOfList | packages/browser-extension-core/src/authoredDeclarations.ts:101-151 | Any list against its part up to the last top-level semicolon: an open quote or parenthesis refuses it, an unfinished escape leaves it at that part, and otherwise the rest is one more declaration |
| AuthoredDeclarations.LastChunkDroppedExactly | packages/browser-extension-core/src/authoredDeclarations.ts:101-151 | Of a list that is answered, what follows the last semicolon is dropped exactly when it breaks off inside an escape |
| AuthoredDeclarations.TruncatedList | packages/browser-extension-core/src/authoredDeclarations.ts:101-151 | A literal list that loses its second declaration this way |
| AuthoredDeclarations.ParseDeclarationList | packages/browser-extension-core/src/authoredDeclarations.ts:101-151 | The scanner loop computes the recursive parse |
| AuthoredDeclarations.ReadDeclaration | packages/browser-extension-core/src/authoredDeclarations.ts:252-265 | A declaration is its name, its value and whether it ends in an important mark |
| AuthoredDeclarations.TopLevelColon | packages/browser-extension-core/src/authoredDeclarations.ts:267-294 | The scanner loop finds the first colon that counts |
| CssTokens.ScanTells | packages/browser-extension-core/src/authoredDeclarations.ts:101-151 | Whatever tokens a text is read as (characters by themselves, characters behind a backslash, quoted texts), the scanner ends where they say: in the open quote, behind the backslash, as deep as the parentheses that stand by themselves |
| CssTokens.EveryTextIsTokens | packages/browser-extension-core/src/authoredDeclarations.ts:101-151 | Every text is such tokens, with an open quote or a backslash left at its end |
| DeclarationTokens.WrittenIsReadBack | packages/browser-extension-core/src/authoredDeclarations.ts:101-151 | Declarations written in any tokens whose names have no colon and whose names and values no semicolon outside quotes, escapes and parentheses are read back from their printed list |
| DeclarationTokens.ListByTokens | packages/browser-extension-core/src/authoredDeclarations.ts:101-151 | A list is refused if it closes what it did not open, ends in quotes or parentheses, or has a part that is no declaration or too many of them; otherwise what follows its last semicolon outside quotes, escapes and parentheses is blank, one more declaration, or dropped behind a backslash |
| DeclarationTokens.DividedByColon | packages/browser-extension-core/src/authoredDeclarations.ts:252-294 | A part is a declaration as its first colon outside quotes, escapes and parentheses divides it, with a name within the limit and a value that is not empty |
| DeclarationTokens.ImportantExactly | packages/browser-extension-core/src/authoredDeclarations.ts:252-265 | A trimmed text is important exactly if it ends in a bang and the word, in any case and with any space between, and then its value is what is before them |
| AuthoredReading.ReadAuthoredDeclarations | packages/browser-extension-core/src/authoredDeclarations.ts:54-98 | An answer exactly when text and longhands account for each other, and then its lists partition the rule's longhands with values and importance unchanged |
| AuthoredReading.Reconcile | packages/browser-extension-core/src/authoredDeclarations.ts:54-98 | The loops over tables and sets decide exactly whether declarations and longhands account for each other |
| AuthoredReading.NoMoreThanLonghands | packages/browser-extension-core/src/authoredDeclarations.ts:54-98 | A presentation has no more declarations than there are longhands |
| NestedSelectors.ResolvesExactly | packages/browser-extension-core/src/cssRuleWalker.ts:928-994 | A nested selector is resolved exactly when it is well-formed, no list without an ampersand, and short enough; then exactly the unquoted, unescaped ampersands are replaced by the parent in :is(), or the parent is put before a selector without any |
| NestedSelectors.ResolvedValidExactly | packages/browser-extension-core/src/cssRuleWalker.ts:928-1029 | Under a well-formed parent the result passes the scan exactly when an ampersand counts or the selector does not end in an escaped space |
| NestedSelectors.ChainValid | packages/browser-extension-core/src/cssRuleWalker.ts:911-1029 | A selector resolved through any chain of nested ones is well-formed exactly if every one but the outermost has an ampersand that counts or does not end in an escaped space |
| NestedSelectors.EscapedSpaceBreaks | packages/browser-extension-core/src/cssRuleWalker.ts:985-993 | The exception at work: a selector that ends in an escaped space resolves to a text that does not pass the scan |
| NestedSelectors.OneUnitTooLongExactly | packages/browser-extension-core/src/cssRuleWalker.ts:936-981 | A result exceeds the limit, by exactly one unit, exactly when an ampersand was replaced in a well-formed selector that ends in an escaped surrogate pair and comes out at that length |
| NestedSelectors.OneUnitTooLong | packages/browser-extension-core/src/cssRuleWalker.ts:936-981 | At every limit of at least eight units a selector that ends in an escaped surrogate pair comes out one unit longer than the limit |
| NestedSelectors.IsLexicallyValid | packages/browser-extension-core/src/cssRuleWalker.ts:996-1029 | The loop decides well-formedness |
| NestedSelectors.ResolveNestedSelector | packages/browser-extension-core/src/cssRuleWalker.ts:928-994 | The loop over characters resolves a nested selector |
| SelectorTokens.ResolvedByTokens | packages/browser-extension-core/src/cssRuleWalker.ts:928-994 | In the tokens of a selector every ampersand that stands by itself becomes the parent in :is(), and nothing else does; without any, and without a comma outside parentheses and brackets, the parent is put before the trimmed selector; the answer is there unless it is too long |
| SelectorTokens.ValidByTokens | packages/browser-extension-core/src/cssRuleWalker.ts:996-1029 | A text is well-formed exactly if it is tokens whose parentheses and brackets are each balanced |
| LinkAuthenticator.AtMostFivePerWindow | packages/bridge/src/linkAuthenticator.ts:83-130 | In times where any six in a row take a minute, any half-open minute has at most five |
| LinkAuthenticator.LimitedExactly | packages/bridge/src/linkAuthenticator.ts:83-130 | Every run up to an instant compares at most five wrong PINs in any half-open minute since the last accepted link exactly if a token issued at that instant would still expire by the last date |
| LinkAuthenticator.LimitedExactlyUnfaulted | packages/bridge/src/linkAuthenticator.ts:83-130 | Among runs in which no right PIN went without its token the same holds exactly if a cooldown set at that instant would end by the last date |
| LinkAuthenticator.LimitHolds | packages/bridge/src/linkAuthenticator.ts:83-130 | One run keeps the limit if no right PIN in it went without its token and its clock stays before the last minute |
| LinkAuthenticator.FaultedRightPinForgets | packages/bridge/src/linkAuthenticator.ts:120-129 | In the last day of the clock a right PIN clears the failures and no token can be issued: any number of wrong PINs is compared at one instant |
| LinkAuthenticator.FailureSpaced | packages/bridge/src/linkAuthenticator.ts:91-116 | A wrong PIN that is compared outside a cooldown is at least a window after the fifth before it |
| LinkHistory.AnswersByHistory | packages/bridge/src/linkAuthenticator.ts:83-130 | Said by the attempts alone: one is turned away exactly within a minute of a wrong PIN that set a cooldown; a right PIN is accepted exactly if it is not turned away and its token can be dated; a wrong one is counted with exactly the wrong ones compared in the last minute since the last right PIN or cooldown, and the fifth sets a cooldown |
| LinkHistory.RefusedUntil | packages/bridge/src/linkAuthenticator.ts:83-95 | An attempt that is turned away is told the end of the cooldown set by the last attempt that was not |
| LinkHistory.WrongByHistory | packages/bridge/src/linkAuthenticator.ts:83-130 | The wrong PINs the limit is about are those that were compared since the last accepted link |
| LinkAuthenticator.LinkAuthenticator.AttemptLink | packages/bridge/src/linkAuthenticator.ts:83-130 | Each attempt is refused, counted, accepted or faulted exactly as the run of attempts so far says, and the limiter is the one that run leaves |
| LinkAuthenticator.ComparedAtTheEndOfTheClock | packages/bridge/src/linkAuthenticator.ts:99-107 | In the last minute of the clock no cooldown is set and any number of wrong PINs is compared at one instant |
| LinkAuthenticator.LinkAuthenticator.IssueToken | packages/bridge/src/linkAuthenticator.ts:176-196 | Expired tokens go and the oldest of the role makes room; no role ever has more than 64 |
| LinkAuthenticator.LinkAuthenticator.ValidateToken | packages/bridge/src/linkAuthenticator.ts:132-160 | A token is accepted exactly for its session, role and instance while it is live |
| LinkAuthenticator.LinkAuthenticator.RevokeToken | packages/bridge/src/linkAuthenticator.ts:162-166 | Exactly the tokens of that value go |
| LinkAuthenticator.RoomyCounts | packages/bridge/src/linkAuthenticator.ts:178-186 | Making room brings the role below its bound and no role above it |
| LinkAuthenticator.RoomyExactly | packages/bridge/src/linkAuthenticator.ts:178-186 | Room is made only where a role has 64 tokens, and only by its oldest one |
| LinkAuthenticator.KeepConcat | packages/bridge/src/linkAuthenticator.ts:162-174 | What is kept of a part is kept of the whole, in its order |
| LinkAuthenticator.RecentAreLast | packages/bridge/src/linkAuthenticator.ts:205-208 | Of rising failure times the ones kept are the last ones |
| CssWalk.CssRuleWalk.WalkDocument | packages/browser-extension-core/src/cssRuleWalker.ts:284-308 | The walk ends on any graph of rules and imports and keeps within every limit and budget. It reports only facts of the page, in order, each with some of its longhands, and all of them when it gives no reason, which are all there are exactly when no import is passed over at the deepest level. It gives no reason only if it visited exactly the page's rules and there was room for more; if the other budgets exceed what the page costs and no other walk spends, it gives a reason exactly when there is no such room. Every record shows the rule it was read from, as written exactly when its text accounts for its longhands and fit the bytes then left |
| CssBeyond.WholeExactly | packages/browser-extension-core/src/cssRuleWalker.ts:759-769 | What a walk without budgets reports is what a walk that follows the deepest imports reports exactly when no import that could be entered is reached at the deepest level; then no greater depth adds anything |
| CssPart.AllIsWhole | packages/browser-extension-core/src/cssRuleWalker.ts:284-411 | The facts that a walk may report some of are, for every page, all that a walk without budgets reports of it |
| CssWalk.LostWithoutAReason | packages/browser-extension-core/src/cssRuleWalker.ts:769 | A page whose only fact is behind an import at the deepest level: the walk reports nothing and gives no reason, and one level deeper the fact is there |
| CssWalk.ReasonWithoutALoss | packages/browser-extension-core/src/cssRuleWalker.ts:1315-1325 | A page with exactly as many rules as the limit and no fact: nothing is left out, and a reason is given |
| CssCost.CostsThen | packages/browser-extension-core/src/cssRuleWalker.ts:1315-1375 | Costs add up: a stretch of the walk that gives no reason visited exactly the rules its parts cost, and one that starts with more than its parts cost gives no reason while no other walk spends |
| CssWalk.CssRuleWalk.WalkRules | packages/browser-extension-core/src/cssRuleWalker.ts:413-582 | A list of rules is reported in full unless a reason is given or a limit is reached; every rule is charged |
| CssWalk.CssRuleWalk.WalkRule | packages/browser-extension-core/src/cssRuleWalker.ts:444-580 | One rule with everything inside it is reported in full, and the list goes on, unless a reason is given |
| CssWalk.CssRuleWalk.WalkImportedStylesheet | packages/browser-extension-core/src/cssRuleWalker.ts:759-892 | An active stylesheet is not entered again and any other is charged; at the deepest level an import is passed over without a reason |
| CssWalk.CssRuleWalk.WalkRootStylesheets | packages/browser-extension-core/src/cssRuleWalker.ts:310-411 | The stylesheets of a list are reported in full unless a reason is given |
| CssWalk.CssRuleWalk.WalkDeclarations | packages/browser-extension-core/src/cssRuleWalker.ts:584-712 | A rule emits no more records than declarations charged for it, and they present all its longhands unless a reason is given, as written exactly when that is possible |
| CssWalk.CssRuleWalk.ReadRule | packages/browser-extension-core/src/cssRuleWalker.ts:602-671 | The longhands of a rule, presented as its text spells them exactly when its text accounts for all of them and fits the bytes left, and longhand by longhand otherwise |
| CssWalk.CssRuleWalk.AuthoredForm | packages/browser-extension-core/src/cssRuleWalker.ts:722-750 | A rule is presented as written exactly when all its declared longhands were read, its text is not empty and fits the bytes left, and text and longhands account for each other; each record then shows the property and importance of its declaration and its value trimmed and cut |
| CssShown.FactSays | packages/browser-extension-core/src/cssRuleWalker.ts:602-660 | The longhands of a fact are, in order, exactly the names its block lists that can be read, each with the value the block gives for it, trimmed and cut, and important exactly if the block says so |
| CssShown.ShownText | packages/browser-extension-core/src/cssRuleWalker.ts:722-750 | The records of a rule presented as written show its declarations one by one, in order, each with the longhands it stands for |
| CssWalk.CssRuleWalk.CountRecords | packages/browser-extension-core/src/cssRuleWalker.ts:673-694 | There is always room to record what was charged for |
| CssWalk.CssRuleWalk.ReachedWalkLimit | packages/browser-extension-core/src/cssRuleWalker.ts:1315-1325 | A walk stops exactly at a limit, and says which |
| CssWalk.CssRuleWalk.ConsumeWalkByteCount | packages/browser-extension-core/src/cssRuleWalker.ts:1367-1375 | A charge that fits is taken; one that does not closes the walk and says so |
| CssWalk.CssRuleWalk.ProbeBoundary | packages/browser-extension-core/src/cssRuleWalker.ts:771-801 | At the stylesheet limit only the tool's own and active stylesheets are passed over without closing the boundary |
| CssWalk.CssRuleWalk.Yield | packages/browser-extension-core/src/cssRuleWalker.ts:711 | While a record is with the consumer other walks may spend the shared budget, and no budget becomes negative |
| CssPage.ShownListsTheSame | packages/browser-extension-core/src/cssRuleWalker.ts:742-750 | Cutting the shown values leaves the listed longhands as they are |

## Left out

- Wiring to browser and editor APIs, panels, icons, the WebSocket transport, timers, wire schemas and their parsing: messages arrive typed, a send is whether the connection takes it, the clock is an integer, and ids are given or fresh.
- Throwing getters and other hostile page objects: reads of the page succeed on a fixed tree; in the stylesheet walk a failed read is an absent answer. A rule whose declaration block itself cannot be read is not part of this model.
- Error codes and messages: `Failure` in the router's log stands for any of them.
- Object identity is a serial number (routes, bindings) or an index (leases); maps and sets of objects are compared by value otherwise.
- Attribute names arrive in lower case, as the source makes them before it uses them.
- The locator's frame authorization transaction, with its rollback, and the parser's refusal of malformed records: a frame document is a boundary of the tree, and a locator is a typed value that `ValidLocator` accepts or refuses.
- StableLocator.DomStableLocatorService.CaptureLocator: the visits a capture takes are bounded from above; on a page beyond the bound the answer may be absent only with the budget spent.
- StableLocator.DomStableLocatorService.ResolveLocator: the same holds for resolution.
- BridgeServer.BridgeServer.OnMessage: what the authenticator answers to a link request and to a token comes with the message; token revocation on unlink and client counts for listeners are not modelled.
- BridgeRouter.BridgeRouter.RouteMessage: the branch that reports a failed commit is proved unreachable and has no counterpart.
- BridgeServer.BridgeServer.HeartbeatTick: the closing of the evicted socket arrives as a later close.
- The node registry's structural revision, which detects callbacks that re-enter it and is never ahead of the authority revision while a change is left: no callback re-enters it here. The authority revision is modelled as the count of changes; an answer of `false` or `None` also stands for a call that throws because none is left. References are their numbers, and a node's relation to a root is given as a function that may fail to answer.
- Content refresh: waiters, timeouts and the injected script behind `ensureReady` (any binding of the awaited lifecycle may be delivered, or none), the per-tab queue (queued steps may run in any order), storage contents, and the reload of a page after its load completes.
- ContentRefresh.BackgroundContentRefreshCoordinator.DispatchReady: that the delivered binding became ready is not stated, only that it still stands.
- Background router: everything but the two parts above. Teardowns and panel ports appear as answers given at each step; a registration joined by a second one of the same identity is one registration.
- ChannelBindings.BackgroundRouterBindings.RemoveWindow: the transition that the source awaits first is a step of its own that may be overtaken by anything.
- SelectionOrder.PanelSelection.PublishedInOrder: nothing is stated about the order across a clearing of the panel's authority.
- Selection events are pairs of epoch and revision with a node and whether it is selected; the payload of an inspection is only its revision, session and event.
- Stylesheet walk: media and rule contexts appear only as the bytes they are charged for; callbacks for matched and candidate rules, scope-sensitive selectors, rule references and the text of record paths are not modelled. Lengths are integers or absent, not fractions.
- CssWalk.CssRuleWalk.WalkDocument: where a walk that gives a reason stops is not stated when several budgets run short at once or other walks spend; the cost of a rule's text counts whether or not the text is read.
- The browser's expansion of a shorthand is a function of name and value.
- Matching a selector against an element is the browser's and is not modelled.
- LinkAuthenticator.LinkAuthenticator.AttemptLink: the clock does not run back between calls, and an invalid date is not modelled; token values are given.
