# Desktop bridge and project-tools editor: a verified model

This project models four parts of the engine's desktop layer and its tooling, and proves what each is for.

* **Accessibility snapshots.** An application submits a list of nodes with parent and child ids. `Validate` decides by
  incoming counts, a breadth-first walk and an explicit-stack preorder whether the list is one rooted tree whose nodes keep
  all limits, and answers "is this a descendant" and "which table is this cell in" by integer tests. The model proves that
  it accepts exactly the snapshots that a direct definition (`Accepts`, on recursive ancestors) describes, and that the
  second implementation of the limits in the snapshot builder agrees with it.
  (`Tree`, `Snapshot`, `Budgets`, `NodeChecks`, `Validator`, `Builder`)
* **Publication and transport.** Threads publish snapshots, invalidate the host, announce, submit and pop actions, drain
  notifications and close the bridge, under three mutexes and one `live` gate. `Publication` is a step system in which every
  atomic access and every lock acquisition is a step; the theorems hold in every interleaving of any number of calls over
  any number of activations. The queues are classes over a real array ring, each proved against the pure function that the
  step system uses, and what that function does is stated once more on the queue alone. (`Ring`, `Actions`, `Diff`,
  `DiffRecords`, `Notifications`, `NotificationEffects`, `NotificationRuns`, `Publication`, `PublicationProofs`,
  `PublicationTheorems`, `PublicationOutcomes`, `ClosedRuntimes`, `PublicationProgress`, `PublishedSnapshots`; `GeometryLock`
  is the sequence lock for host geometry)
* **Event queues.** The coalescing queue of a child surface and of a window, as a class over the array ring refining a
  function on sequences, with theorems about whole runs: numbering, conservation, what survives, and what the consumer can
  still tell. (`Events`, `EventEffects`, `EventRuns`)
* **JSON editor.** A recursive-descent parser for the grammar of RFC 8259 (sections 2 to 7) that records source spans, and
  an editor that splices string tokens from right to left. The grammar is given separately as concrete syntax trees; the
  parser is proved sound and complete for it, and editing the text is proved to be editing the tree.
  (`JsonGrammar`, `JsonStrings`, `JsonScanner`, `JsonParser`, `JsonMeaning`, `JsonEdits`, `JsonMutator`,
  `JsonPaths`)

Texts are sequences of UTF-16 code units, byte strings are sequences of `bv8`, 64-bit counters wrap explicitly, and doubles
are opaque values compared for equality. What the code asks of the Unicode library and of floating-point arithmetic is a
parameter (`World`). Platform calls do nothing, except that snapshot preparation may fail.

Two promises turned out to hold only under a condition. The first is proved up to a sharp bound, the second exactly:

* A sequence-lock read is coherent if fewer than 2^64 increments happen during the successful attempt
  (`ReadsAreCoherent`); with exactly that many it can return a mixture (`WrapMixes`).
* After `closeAccessibility` returns its runtime is empty for ever, when the call is the one that shut the gate
  (`ClosedStaysEmpty`). A second call that finds the gate shut returns at once, and there are runs in which the runtime then
  still holds its snapshot (`LoserReturnsEarly`, `CloseCanReturnEarly`). What such a call can rely on is exact: the runtime
  is empty and stays so exactly when it is empty at that moment and no call stands armed behind the gate (`EmptyForGood`);
  that is the case as soon as no closer is still at work (`ShutMeansEmpty`).

Sequence numbers of events increase until the 64-bit counter first wraps (`StreamIncreases`); of two events fewer than 2^64
numbers apart, the later has the greater number exactly when no wrap lies between them (`NumbersIncrease`, `NumbersWrap`).

## Model

| member | source | states |
|---|---|---|
| Tree.BreadthFirst | engine/desktop/core/accessibility_validation.cpp:620-642 | The work list never exceeds the node count, no node is visited twice, and all nodes are visited exactly when the agreeing links form one rooted tree |
| Tree.Traverse | engine/desktop/core/accessibility_validation.cpp:645-668 | The explicit-stack loop yields the recursive preorder, each node's position in it, and each node's nearest marked strict ancestor |
| Tree.SubtreeSizes | engine/desktop/core/accessibility_validation.cpp:670-676 | The backward accumulation gives the length of every node's recursive preorder |
| Tree.IntervalTest | engine/desktop/core/accessibility_validation.cpp:684-691 | One node descends properly from another exactly when its preorder position lies strictly inside the other's interval |
| Tree.NearestIsFirst | engine/desktop/core/accessibility_validation.cpp:650-668 | The link handed down in preorder is a marked strict ancestor with none nearer, or the sentinel when there is no marked strict ancestor |
| Tree.NearestIsUnique | engine/desktop/core/accessibility_validation.cpp:650-668 | Nothing else is the nearest marked strict ancestor |
| Validator.BuildIndex | engine/desktop/core/accessibility_validation.cpp:162-185 | Succeeds exactly on unique nonzero ids, and then the sorted table finds every node |
| Validator.CountsDecideLinks | engine/desktop/core/accessibility_validation.cpp:608-619 | With children and parents checked, the incoming counts decide exactly whether parent and child links agree |
| Validator.OrdinalTest | engine/desktop/core/accessibility_validation.cpp:684-693 | The comparison of ordinals and subtree sizes holds exactly for proper descendants |
| Validator.GridTest | engine/desktop/core/accessibility_validation.cpp:695-706 | The table link decides exactly whether a cell lies inside its nearest enclosing table |
| Validator.CheckNode | engine/desktop/core/accessibility_validation.cpp:206-606 | Passes exactly when the node's own fields, references, limits and parent are right, and then the incoming counts and the budget have moved by exactly this node; any issue names a fault that the node has |
| NodeChecks.CheckCollection | engine/desktop/core/accessibility_validation.cpp:479-505 | Accepts exactly positive spans that fit inside their counts, without any unsigned subtraction falling below zero |
| NodeChecks.CheckRelations | engine/desktop/core/accessibility_validation.cpp:283-322 | Passes exactly on known, nonempty, repetition-free relations of distinct kinds to existing nodes within the target limit, and otherwise names a fault that is there |
| Tree.TreeMeansNoCycle | engine/desktop/core/accessibility_validation.cpp:608-642 | Where parent and child links agree, being one rooted tree is exactly having no node that is its own proper ancestor |
| Validator.CheckStructure | engine/desktop/core/accessibility_validation.cpp:608-706 | Passes exactly for one rooted tree whose selections descend and whose cells fit; gives ParentMismatch exactly when the links disagree and UnreachableNode exactly when they agree and hold a cycle, so every cycle ends as one of the two; the node it names has the fault |
| Validator.Validate | engine/desktop/core/accessibility_validation.cpp:138-714 | Accepts exactly the snapshots described by an independent definition, never one with a cycle and never with the answer Cycle; every issue is justified: it names the first node that fails its own checks and a fault that this node has, or else a structural fault |
| Budgets.Budget.String | engine/desktop/core/accessibility_validation.cpp:36-50 | Accepts a string exactly when it is valid and fits per node and in total, and then charges exactly its length, with no 64-bit sum wrapping around |
| Budgets.Budget.Extension | engine/desktop/core/accessibility_validation.cpp:52-90 | Accepts an extension value exactly when its depth, value count, list lengths and text fit, and charges exactly its size |
| Budgets.BoundedNode | engine/desktop/core/accessibility_snapshot.cpp:149-250 | The builder's measure accepts exactly the nodes within the same limits that the validator checks, and adds exactly the node's text, with no 64-bit sum wrapping around |
| Builder.SnapshotBuilder.AddNode | engine/desktop/core/accessibility_snapshot.cpp:319-373 | Adds a node exactly when its id is new and it fits, otherwise changes nothing; InvalidArgument exactly for bad limits, a zero id, or a known id while there is room |
| Builder.SnapshotBuilder.ValidateBuilt | engine/desktop/core/accessibility_snapshot.cpp:380-383 | Validation under the builder's own limits never reports LimitExceeded |
| Builder.CopySnapshot | engine/desktop/core/accessibility.cpp:1002-1037 | Copying an accepted snapshot succeeds exactly when it is within the destination's valid limits, and then gives the same snapshot |
| Builder.AcceptedCanBeCopied | engine/desktop/core/accessibility.cpp:1002-1037 | What validates under some limits is within all pointwise larger ones |
| Snapshot.Lookup | engine/desktop/core/accessibility_snapshot.cpp:123-140 | Binary search in the id table finds exactly the node with that id |
| Snapshot.CheckLimits | engine/desktop/core/accessibility_validation.cpp:101-131 | Accepts exactly limits that all lie between 1 and 2^31-1, with depth at most 32 and at least as many providers as nodes |
| GeometryLock.RunKeepsInv | engine/desktop/core/accessibility.cpp:23-56 | Every interleaving of one writer and any readers keeps the lock's invariant |
| GeometryLock.ReadsAreCoherent | engine/desktop/core/accessibility.cpp:37-56 | A successful read with fewer than 2^64 increments in its attempt returns one completed publication, the latest when the attempt began |
| GeometryLock.UndisturbedReadSucceeds | engine/desktop/core/accessibility.cpp:37-56 | A read that no publication disturbs succeeds with what was published last, from any attempt |
| GeometryLock.AttemptBegins | engine/desktop/core/accessibility.cpp:41-48 | An attempt loads the fields exactly when no publication is in progress, and is otherwise spent |
| GeometryLock.AttemptEnds | engine/desktop/core/accessibility.cpp:49-54 | A loaded attempt succeeds exactly when the counter moved by a multiple of 2^64 meanwhile, and is otherwise spent |
| GeometryLock.GivesUpAfterAll | engine/desktop/core/accessibility.cpp:39-56 | A read fails only when all eight attempts are spent |
| GeometryLock.WrapMixes | engine/desktop/core/accessibility.cpp:37-56 | With exactly 2^64 increments in the attempt some run succeeds on a mixture of two publications |
| Actions.ActionQueue.Submit | engine/desktop/core/accessibility.cpp:282-329 | The array ring does what the sequence function does, or nothing when the gate is shut |
| Actions.ActionQueue.PopAction | engine/desktop/core/accessibility.cpp:1042-1062 | Takes the oldest request, if the gate is open and there is one |
| Actions.ActionQueue.Close | engine/desktop/core/accessibility.cpp:176-185 | Leaves an empty queue that retains nothing |
| Actions.SubmitAnswers | engine/desktop/core/accessibility.cpp:282-329 | Rejected exactly when the ids are exhausted, Invalid exactly when the observed generation is newer than the snapshot, QueueFull exactly when the queue holds its capacity and the last request is not replaced, Accepted otherwise; with the queue, id, generation and counters after each |
| Actions.EveryRun | engine/desktop/core/accessibility.cpp:282-329 | In every run popped and pending requests are accepted ones in order, ids strictly increase and stop for good at 2^64, and any other accepted request was superseded by the very next one |
| Actions.PoppedInOrder | engine/desktop/core/accessibility.cpp:302-303 | Delivered ids strictly increase and so are never reused |
| Actions.DeliveredMeansAccepted | engine/desktop/core/accessibility.cpp:305-319 | Under last-writer-wins for the coalescible actions, executing the delivered and pending requests equals executing all accepted ones |
| Diff.SilentExactlyWhenSame | engine/desktop/core/accessibility.cpp:595-778 | A diff is empty exactly when both snapshots hold the same nodes in every field but extensions, in any storage order |
| DiffRecords.RecordsExactly | engine/desktop/core/accessibility.cpp:595-778 | A record is produced exactly when the two versions of its node differ in the fields that its kind and property stand for, or the tree changed its ids, links or roles |
| DiffRecords.RecordsOnce | engine/desktop/core/accessibility.cpp:608-778 | No record is produced twice |
| Diff.NoneRemoved | engine/desktop/core/accessibility.cpp:600-626 | With equal sizes and unique ids, finding every new node in the old snapshot leaves no old node unmatched |
| Diff.SameTreeSameIds | engine/desktop/core/accessibility.cpp:595-626 | Snapshots with the same nodes have the same id set |
| Notifications.NotificationQueue.InvalidateHost | engine/desktop/core/accessibility.cpp:111-157 | The array ring does what the sequence function does: refreshes the marker, or collapses a full queue and pushes one, then notes a gained focus |
| Notifications.NotificationQueue.QueueDiff | engine/desktop/core/accessibility.cpp:534-779 | The loop over the nodes pushes exactly the records of the diff, in order, with collapse, or refreshes a pending marker |
| Notifications.NotificationQueue.Announce | engine/desktop/core/accessibility.cpp:1128-1151 | Appends the announcement with its text and priority, or refuses when shut or full |
| Notifications.NotificationQueue.Drain | engine/desktop/core/accessibility.cpp:346-365 | Takes the oldest notification and clears the pending flag exactly when it takes the marker |
| Notifications.NotificationQueue.Close | engine/desktop/core/accessibility.cpp:186-196 | Leaves an empty queue with no invalidation pending |
| NotificationEffects.HostEffect | engine/desktop/core/accessibility.cpp:111-157 | Host invalidation refreshes the one pending marker or adds one, collapses only a full queue, and notes a gained focus behind it if there is room |
| NotificationEffects.DiffEffect | engine/desktop/core/accessibility.cpp:540-593 | A diff refreshes a pending marker, or invalidates the tree for a first snapshot, or queues every record exactly when all fit and otherwise leaves one marker alone |
| NotificationEffects.AnnounceEffect | engine/desktop/core/accessibility.cpp:1138-1151 | An announcement is refused exactly when the queue is full, and otherwise comes last |
| NotificationEffects.DrainEffect | engine/desktop/core/accessibility.cpp:346-365 | Delivery takes the oldest notification, and the flag stays set exactly while a marker is left |
| NotificationEffects.FocusIsLast | engine/desktop/core/accessibility.cpp:925-936 | The focus that a host invalidation names is the last node in the focused state |
| NotificationRuns.PushedShape | engine/desktop/core/accessibility.cpp:572-591 | Pushing in a row either appends every record or ends with one marker alone |
| NotificationRuns.MarkerCoversAll | engine/desktop/core/accessibility.cpp:555-569 | A marker at least as new as every commit stands for everything the commits owe |
| NotificationRuns.StepKeepsInv | engine/desktop/core/accessibility.cpp:111-159 | Every operation keeps one marker at most, in step with the flag and current, and loses no committed change |
| PublicationProofs.RelyKeepsThread | engine/desktop/core/accessibility.cpp:896-984 | What no step may do to other threads is enough to keep what holds of each of them |
| PublicationProofs.AdvanceLocal | engine/desktop/core/accessibility.cpp:91-199 | Each step of each call keeps its runtime's invariant and its own, and disturbs no other thread |
| PublicationProofs.EveryRun | engine/desktop/core/accessibility.cpp:896-984 | Every interleaving of every number of calls over every number of activations keeps the invariant |
| PublicationTheorems.ClosedStaysEmpty | engine/desktop/core/accessibility.cpp:161-199 | Once the close that shut the gate returns, snapshot and both queues are empty, then and after any further steps |
| PublicationTheorems.ShutMeansEmpty | engine/desktop/core/accessibility.cpp:161-199 | A shut runtime with no closer still at work is empty |
| ClosedRuntimes.LoserReturnsEarly | engine/desktop/core/accessibility.cpp:170-173 | For every valid snapshot there is a run in which a second close has returned while the runtime still holds that snapshot |
| ClosedRuntimes.EmptyForGood | engine/desktop/core/accessibility.cpp:161-199 | In every reachable state a runtime is empty now and after any further steps exactly when it is empty, shut, and no publisher, host, announcement or acceptable submission stands between its last look at the gate and its effect |
| PublicationProgress.OwnersHold | engine/desktop/core/accessibility.cpp:103-109 | In every reachable state the owner of each of the three kinds of mutex is a call at a place where it holds that mutex |
| PublicationProgress.NoDeadlock | engine/desktop/core/accessibility.cpp:161-199 | In every reachable state with an unfinished call some call can make a step |
| PublicationProgress.GoDescends | engine/desktop/core/accessibility.cpp:896-984 | Every step of a call that does not wait leaves less work, and no step of any call makes more |
| PublicationProgress.EveryCallCanFinish | engine/desktop/core/accessibility.cpp:161-199 | From every reachable state all calls under way can be brought to their end with no new call, and then every mutex is free |
| PublicationTheorems.ExactlyOneWinner | engine/desktop/core/accessibility.cpp:170-173 | A gate is shut exactly when some closer won the exchange on it, and at most one did |
| PublicationTheorems.CommitsAdvance | engine/desktop/core/accessibility.cpp:939-972 | Committed generations strictly increase over the window's life, across activations, and the root never changes within one |
| PublicationTheorems.FailedPublishChangesNothing | engine/desktop/core/accessibility.cpp:939-967 | No step of a publication that failed changed a snapshot, a queue, a gate or the last generation |
| PublicationOutcomes.FailsExactlyWhenRefused | engine/desktop/core/accessibility.cpp:939-972 | In every interleaving a call fails exactly when one of its steps meets what turns it away: the gate shut at one of its looks; for a publication a generation not above the last, another root, or a failed preparation; for others a missing snapshot or node |
| PublicationOutcomes.EntersExactly | engine/desktop/core/accessibility.cpp:892-909 | A call is let in exactly when the gate is open, and a publication only with a valid snapshot |
| PublicationOutcomes.EnablesExactly | engine/desktop/core/accessibility.cpp:790-860 | The bridge is enabled exactly with valid limits and no live runtime, and then has an open, empty runtime with queues of the given capacities and request ids from one |
| PublicationOutcomes.SuccessIsCommitted | engine/desktop/core/accessibility.cpp:969-973 | A publication that returned successfully is in its runtime's history |
| PublicationOutcomes.GateTakesEffect | engine/desktop/core/accessibility.cpp:969-973 | Behind its last look at the gate every call has its effect: snapshot stored and logged, diff queued, host invalidated, oldest notification or action delivered, request submitted, announcement queued |
| PublicationOutcomes.PossibleHistories | engine/desktop/core/accessibility.cpp:939-973 | The histories of snapshots that runs produce are exactly the sequences of valid snapshots with strictly increasing generations and one root |
| PublicationTheorems.MarkerIsExact | engine/desktop/core/accessibility.cpp:540-593 | The pending flag holds exactly when a marker is queued, there is never more than one, and with no publisher between store and diff its generation is the current snapshot's |
| PublicationTheorems.NoCommittedChangeLost | engine/desktop/core/accessibility.cpp:331-369 | Until the closer clears the queue, every record of every committed diff is queued or was delivered since, or a marker at least as new is or was |
| PublicationTheorems.LiveIsUncleared | engine/desktop/core/accessibility.cpp:161-199 | While the gate is open no closer has withdrawn or cleared anything |
| PublishedSnapshots.CommittedAreAccepted | engine/desktop/core/accessibility.cpp:904-909 | With the validator as the entry test, every committed snapshot of every run satisfies the whole acceptance definition under its runtime's limits |
| PublishedSnapshots.SilentCommit | engine/desktop/core/accessibility.cpp:969-971 | Consecutive commits of a runtime differ by no record exactly when they hold the same nodes, extensions aside |
| PublishedSnapshots.CurrentCanBeCopied | engine/desktop/core/accessibility.cpp:1002-1037 | In every reachable state the current snapshot fits any limits at least as large as the runtime's |
| PublishedSnapshots.LeafIsAccepted | engine/desktop/core/accessibility_validation.cpp:138-714 | Where the empty string is valid text, a lone node is accepted under all valid limits |
| PublishedSnapshots.CloseCanReturnEarly | engine/desktop/core/accessibility.cpp:170-173 | With the validator as the entry test there is a run in which a close has returned and its runtime is not empty |
| PublicationTheorems.ActionsInEveryRun | engine/desktop/core/accessibility.cpp:282-329 | In every interleaving actions come out as accepted and in order, and until cleared have the effect of all accepted ones |
| Ring.Ring.PushBack | engine/desktop/core/child_surface_events.cpp:124-127 | Appends to the sequence the ring stands for, at any head position |
| Ring.Ring.PopFront | engine/desktop/core/child_surface.cpp:268-272 | Removes the first element and retains nothing of it |
| Ring.Ring.RemoveAt | engine/desktop/core/child_surface_events.cpp:16-25 | Removes one element from the middle, keeping the order of the others |
| Ring.Ring.Clear | engine/desktop/core/child_surface.cpp:293-306 | Leaves the empty sequence and retains nothing |
| Events.TrailingMatch | engine/desktop/core/child_surface_events.cpp:70-99 | Finds the event of the same kind in the trailing coalescible run, or none exists there |
| EventEffects.EnqueueAnswers | engine/desktop/core/child_surface_events.cpp:57-129 | Coalesced exactly when suppressed or an event of its kind stands behind the last lasting one; Dropped exactly without storage, or when it merges with nothing, the queue is full of lasting events and it is not NativeDestroyed; Queued otherwise |
| EventEffects.EnqueueEffect | engine/desktop/core/child_surface_events.cpp:36-129 | The queue, numbers and drop count after each answer: the merged event in place or gone on a net-zero scale, or the new event last, with the first displaceable event or else the oldest evicted from a full queue |
| Events.EventQueue.Enqueue | engine/desktop/core/child_surface_events.cpp:57-129 | The ring with its counters does exactly what the sequence function does |
| Events.EventQueue.PopEvents | engine/desktop/core/child_surface.cpp:281-291 | Takes the longest prefix that fits the destination |
| Events.EventQueue.ClearEvents | engine/desktop/core/child_surface.cpp:293-306 | Empties the queue and changes nothing else |
| EventRuns.EveryRun | engine/desktop/core/child_surface_events.cpp:57-129 | In every run each maximal coalescible run holds at most one event of each kind, numbers follow the order of issue, issued numbers equal popped plus cleared plus pending plus evicted plus cancelled, and the drop counter equals rejected plus evicted since its reset |
| EventRuns.NumbersIncrease | engine/desktop/core/child_surface_events.cpp:124-126 | Of two delivered or queued events fewer than 2^64 issued numbers apart, the later has the greater number exactly when the counter did not wrap between them |
| EventRuns.StreamIncreases | engine/desktop/core/child_surface_events.cpp:124-126 | Until the counter first wraps, numbers strictly increase over everything delivered and then queued |
| EventRuns.NumbersWrap | engine/desktop/core/child_surface_events.cpp:124-126 | At the wrap they do not |
| EventRuns.DurableStays | engine/desktop/core/events.cpp:104-132 | A submission removes a queued durable event only when NativeDestroyed meets a full queue of durable events, and then the oldest |
| EventRuns.DestroyedIsQueued | engine/desktop/core/child_surface_events.cpp:113-127 | An unsuppressed NativeDestroyed on nonempty storage is always queued |
| EventRuns.DestroyedStays | engine/desktop/core/child_surface_events.cpp:100-129 | Once queued it stays represented until popped or cleared |
| EventRuns.ConsumerSeesTheSame | engine/desktop/core/events.cpp:66-139 | Without losses and with chained scale events, delivered plus queued events show the same durable events in the same order as those submitted while the queue is not suppressed, each with the same latest values, and the same values at the end |
| JsonGrammar.DecodeOfEscape | scripts/lib/project-tools-json-mutator.js:325-325 | Decoding a stringified text gives the text back, lone surrogates included |
| JsonStrings.DecodesExactly | scripts/lib/project-tools-json-mutator.js:78-90 | A string token stands for a value exactly when it is written piece by piece, plain or escaped as section 7 of RFC 8259 allows, with that meaning |
| JsonStrings.WrittenVerbatim | scripts/lib/project-tools-json-mutator.js:325-325 | A value without quotes, backslashes, control characters and lone surrogates is written as it is |
| JsonMeaning.ParsedTreeStandsFor | scripts/lib/project-tools-json-mutator.js:43-194 | The tree of an accepted source stands for a document of the grammar with exactly that text: the same kinds, literals, number texts, spelled strings and keys, and all children in order |
| JsonScanner.AcceptsExactlyTheGrammar | scripts/lib/project-tools-json-mutator.js:15-195 | A text parses exactly when it is the text of a valid syntax tree with distinct keys |
| JsonScanner.DocumentSound | scripts/lib/project-tools-json-mutator.js:21-31 | A parsed document is valid and its text is the source |
| JsonScanner.DocumentComplete | scripts/lib/project-tools-json-mutator.js:21-31 | Parsing the text of a valid document gives that document |
| JsonParser.JsonSourceParser.Parse | scripts/lib/project-tools-json-mutator.js:21-35 | The offset-driven parser returns the tree with spans that the grammar-level parser describes, or the same error at the same reported offset |
| JsonParser.JsonSourceParser.ParseValue | scripts/lib/project-tools-json-mutator.js:43-71 | Agrees with the grammar-level parser from the current offset, and strictly advances on success |
| JsonParser.JsonSourceParser.ParseString | scripts/lib/project-tools-json-mutator.js:73-102 | Finds the closing quote, decodes the body and records the token's span |
| JsonParser.JsonSourceParser.ParseObject | scripts/lib/project-tools-json-mutator.js:104-144 | Collects the properties in order with their spans and refuses a repeated key |
| JsonParser.JsonSourceParser.ParseArray | scripts/lib/project-tools-json-mutator.js:146-172 | Collects the items in order with their spans |
| JsonEdits.SpliceStep | scripts/lib/project-tools-json-mutator.js:324-326 | Splicing one more token in front of those already replaced is replacing all of them at once |
| JsonEdits.OutsideUnchanged | scripts/lib/project-tools-json-mutator.js:321-326 | Every character outside the replaced tokens is in the output at its moved offset |
| JsonEdits.SubstitutionTheorem | scripts/lib/project-tools-json-mutator.js:15-195 | Replacing string tokens in an accepted text gives an accepted text whose tree is the old one with exactly those values replaced and all spans moved |
| JsonPaths.LocatedExactlyWhenNamed | scripts/lib/project-tools-json-mutator.js:201-306 | A mutation is located at a node exactly when it names it: a string with the expected text at the end of the path from the only tool with its id, where a property step takes the value under that name and a match step the only item with all the listed scalars, no compared field being compound |
| JsonPaths.SucceedsExactlyWhenAsked | scripts/lib/project-tools-json-mutator.js:308-338 | The whole mutation succeeds exactly when every mutation names a target, no two at one place, and still names a node with the new value in the edited tree; the output then replaces exactly the named targets |
| JsonMutator.LocateInside | scripts/lib/project-tools-json-mutator.js:269-306 | A located target is a string value inside the tree that holds the expected text |
| JsonMutator.SliceReparses | scripts/lib/project-tools-json-mutator.js:43-194 | A node's slice of the source parses alone to the same node, shifted |
| JsonMutator.SpansNested | scripts/lib/project-tools-json-mutator.js:43-194 | Spans are well nested, siblings in order and disjoint |
| JsonMutator.CheckRanges | scripts/lib/project-tools-json-mutator.js:314-322 | Refuses exactly when two mutations have the same target |
| JsonMutator.SpliceAll | scripts/lib/project-tools-json-mutator.js:323-327 | Splicing from the last target to the first equals replacing all targets at once |
| JsonMutator.MutateProjectToolsSource | scripts/lib/project-tools-json-mutator.js:308-338 | The whole procedure returns the simultaneous replacement, or the first error, as described on the tree |
| JsonMutator.MutationTheorem | scripts/lib/project-tools-json-mutator.js:308-338 | A returned output parses to exactly the source's tree with the targeted values replaced and spans moved |
| JsonMutator.OrderIrrelevant | scripts/lib/project-tools-json-mutator.js:313-329 | Listing the same mutations in another order gives the same output |

## Left out

- Validator.Validate: every reported issue is justified at the node it names, but which of several faults of one node is reported is not specified.
- Validator.CheckNode: geometry, range and scroll arithmetic, UTF-8 validity and grapheme boundaries are taken from the `World` parameter.
- JsonParser.JsonSourceParser.Parse: errors carry their kind and offset and not the wording of the message.
- JsonMutator.MutateProjectToolsSource: numbers in selectors are compared through a parameter, and mutations are typed, so the checks for missing or mistyped fields are not modelled.
- Actions.ActionQueue.Submit: the checks made before the action mutex is taken (supported action, disabled node, ranges, text) are reduced to whether the node exists; the typed payload is one opaque value.
- Notifications.NotificationQueue.Announce: the checks made before the mutex is taken (feature, size, UTF-8, language) are not modelled, and the text is carried as UTF-8.
- EventRuns.ConsumerSeesTheSame: the pixel size inside a scale event is not part of the consumer's view, because a cancelled transition takes its pixel size with it.
- JsonScanner.DocumentSound: which error a malformed text gives, and at which offset, is stated only by the functional parser that the class agrees with.
- Owned copies of node strings and lists, native text caches and their indexing: nodes are values here.
- Allocation failure, test hooks, wake-ups and native detachment.
- The owner-thread checks of pop, drain and enable: the model allows these calls from any thread.
- `requestClose` and `setInteractiveMoveResizeActive`: one flag each in front of the modelled queue.
- Clipboard, displays, dialogs, tray, taskbar, file system, terminal, input and the command line of the JSON tool.
