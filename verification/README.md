# ComplyTime core: a model of its stateful parts

The gateway collects audit evidence, resolves policies into controls, certifies evidence in the background, and lets
people review and promote draft audit logs. This project models the parts of it where state changes step by step or
where several requests are at work at once, and proves what they keep.

| module | what it models |
|---|---|
| Text, TypePattern, DraftMerge, NoteReader | merging review edits into the text of a draft: split, edit blocks, join; the regular expression is modelled as the engine runs it, over line ends and all; and reading a note back from the result |
| DraftReview | the two audit-log tables, their statements, and requests whose reads and writes interleave |
| EffectivePolicy, ControlRows | resolving a policy's catalog imports, with slices as arrays, and the rows extracted from the result |
| Debouncer, Bursts, Lookback | the timer protocol in front of the certification handler, what it makes of bursts of events, and how far back the handler looks |
| EvidenceStore, Certification | the evidence and certification tables, the certifier pipeline and the handler's loop |
| Flatten, IngestTracker, IngestWorker | asynchronous ingest: from an uploaded log to rows, the job tracker, and the worker |
| DegradedCache | the cached health check under its two locks |
| Roles, RoleLog | users, roles, the first admin, and the log of role changes, whose inserts other requests can overtake |
| RequirementMatrix, Inventory | the two grouped queries |

Where the original changes things in place the model is a class or a method with loops, proved equal to a function of
its inputs or of the old state; what the original promises is proved about that function. Where several requests or
goroutines are at work, the state is a value, a step is what happens without interruption (one SQL statement or
transaction, one critical section), and the statements are about every sequence of steps. A step that is not possible
changes nothing. Failures of the database and of the message bus are arguments. Where something one might expect is
false of the code, the exact condition under which it does hold is proved for all inputs or runs (the members whose
names have an `Iff`), mostly beside an input or a run that shows the failure.

Some things that come out of the proofs and may surprise: a note put under a `type:` key without a value is
overwritten by the next merge (`DraftMerge.EmptyTypeKeyBreaks`); a note of several lines is not what a reader of the
merged text gets (`NoteReader.NoteReadsBackIff`); a Remove listed before an Add removes what is added
(`EffectivePolicy.RemoveThenAddKeepsTheTarget`); an edit can be accepted and yet miss the official log
(`DraftReview.EditBetweenReadAndCommitIsLost`, `DraftReview.LogHasLastEditsIff`); the last event of a policy can be
dropped with no handler after it (`Debouncer.LastEventCanBeDropped`, `Bursts.BurstHandledIff`); rows that share an
evidence id share one verdict, that of the last row (`Certification.LastRowDecides`); evidence sent again is not found
by the certification query once its first arrival is too old (`IngestWorker.RecentAfterIngestIff`); and one row of
evidence without a known control makes the requirement matrix fail to list (`RequirementMatrix.EveryPageListsIff`).

The comment on `mergeReviewerEdits` says it returns the original on an error; it returns the original and an error, and
the model follows the code. When a catalog extends anything, every other catalog of the pool is appended, not only
those that it extends; the model follows the code there too. The comment on `ListRequirementMatrix` says that without
requirements their columns are empty; the text of a group without a control is NULL, which cannot be read into a string.

`dafny verify dfyconfig.toml` checks the whole project.

## Model

| member | source | states |
|---|---|---|
| Text.JoinSplit | internal/store/draft_merge.go:34-72 | Joining the pieces of a split with the same separator gives the text back, for every text and non-empty separator. |
| Text.SplitJoin | internal/store/draft_merge.go:34-72 | Splitting a joined list gives the list back, when the separator does not overlap itself and no piece holds it. |
| Text.SplitPartsClean | internal/store/draft_merge.go:34-34 | No piece of a split holds the separator. |
| TypePattern.MatchShape | internal/store/draft_merge.go:17-17 | What the two groups of a match hold: white space, the key, white space, then text of one line up to its end. |
| TypePattern.MatchIsGreedy | internal/store/draft_merge.go:17-17 | At a line start the expression is found exactly if the text is one or more spaces, the key, spaces and some text up to a line end, and of several ways to read it so the one whose first group reaches furthest is taken. |
| TypePattern.CallbackFindsSameGroup | internal/store/draft_merge.go:49-55 | Matching the matched text again, as the callback does, succeeds and finds the same first group, so the callback's fallback is never taken. |
| TypePattern.ReplaceSetsAll | internal/store/draft_merge.go:48-56 | After replacing, every value that the pattern finds is the replacement, even where white space after the key runs over line ends. |
| TypePattern.ReplaceFixesExactly | internal/store/draft_merge.go:48-56 | Replacing changes nothing if and only if every value already is the replacement. |
| TypePattern.AppendFixes | internal/store/draft_merge.go:58-66 | Lines put behind a text with no key waiting are scanned on their own. |
| TypePattern.OpenForcesValue | internal/store/draft_merge.go:58-66 | Behind a key that still waits for its value, the values are all the replacement only if the first visible text of what follows is. |
| DraftMerge.ApplyEdit | internal/store/draft_merge.go:47-67 | One block's edit: types first, then the note, put before an item head left in the block or else at its end. |
| DraftMerge.MergeReviewerEdits | internal/store/draft_merge.go:21-73 | The array loop computes the merge of the text block by block; it reports an error exactly for edits that do not parse, and then returns the text itself. |
| DraftMerge.UnmatchedEditsChangeNothing | internal/store/draft_merge.go:34-72 | Edits whose ids name no block return the text unchanged, character for character. |
| DraftMerge.TypedWholeIff | internal/store/draft_merge.go:48-56 | Setting types keeps a block one block exactly if the override holds no separator, where there is a value to set, and completes no item where one stands. |
| DraftMerge.RetypedIdIff | internal/store/draft_merge.go:40-56 | And it keeps the id exactly if the first line has no value or the override leaves the trimmed line as it was. |
| DraftMerge.NotedWholeIff | internal/store/draft_merge.go:58-66 | Adding a note keeps a block one block exactly if the note holds no separator. |
| DraftMerge.EditKeepsBlockIff | internal/store/draft_merge.go:47-69 | Any edit of any block: exactly when the result is still one block, and exactly when it has the same id. |
| DraftMerge.MergedBlocksIff | internal/store/draft_merge.go:34-72 | For every text and all edits, splitting the merged text gives exactly the edited blocks if and only if each stays one block. |
| DraftMerge.MergeKeepsStructureIff | internal/store/draft_merge.go:34-72 | For every text and all edits, merging keeps the preamble, the number of blocks, their ids in order, and every block whose id has no edit, if and only if each edited block stays one and keeps its id. |
| DraftMerge.EditTwice | internal/store/draft_merge.go:47-67 | Editing an edited block again changes nothing if and only if the edit does not set a type and add a note that does not fit: one with other types of its own, or put under a `type:` key without a value, or ending in one above an item. |
| DraftMerge.OkEditsAreAdmissible | internal/store/draft_merge.go:34-72 | Edits whose overrides are one visible line and no item head, whose notes start no item and whose ids are no `type:` keys keep the structure of every text. |
| DraftMerge.MergeTwice | internal/store/draft_merge.go:34-72 | Merging is idempotent if and only if no block's edit is of that kind: for every text and all edits under which the merge keeps its structure and whose overrides are one line that starts visibly. |
| DraftMerge.MergedTypesAreSet | internal/store/draft_merge.go:47-67 | For edits that keep the structure, each block of the merged text whose edit sets a type is a text in which every value is the override, with the note, if it is new, put in. |
| DraftMerge.EmptyTypeKeyBreaks | internal/store/draft_merge.go:58-66 | A text for which the second merge writes over the note. |
| DraftMerge.ItemOverrideAddsBlock | internal/store/draft_merge.go:48-56 | An override that begins like an item adds a block. |
| DraftMerge.TypeKeyIdIsRewritten | internal/store/draft_merge.go:40-56 | An id that is itself a `type:` key is rewritten. |
| NoteReader.NoteReadsBackIff | internal/store/draft_merge.go:58-66 | Someone who reads the block as YAML does, taking the lines that are indented further than the first line with the note key, without their indentation, folded into one, gets exactly the note that was added if and only if it is one line and does not begin with a space; the key is four spaces in. |
| NoteReader.MergedNoteReadsBackIff | internal/store/draft_merge.go:34-72 | The same in the merged text, for every block to which a note is added by edits that keep the structure. |
| DraftReview.AuditStore.InsertDraft | internal/store/store.go:1367-1383 | A new draft without a status is pending; an id that is there is refused and changes nothing. |
| DraftReview.AuditStore.ExecEdit | internal/store/store.go:1438-1440 | The edit statement writes only to a pending draft. |
| DraftReview.AuditStore.ExecPromotion | internal/store/store.go:1473-1496 | The promoting transaction adds the log and marks the draft, whatever its status, or does neither. |
| DraftReview.AuditStore.UpdateDraftEdits | internal/store/store.go:1430-1442 | Run alone, edits are stored exactly if the draft is there and pending; otherwise nothing changes. |
| DraftReview.AuditStore.PromoteDraftAuditLog | internal/store/store.go:1445-1497 | Run alone, promotion adds one log with the merge of the draft as it stands, or the original if the edits do not parse, and marks the draft; every error leaves both tables alone. |
| DraftReview.RunIsValid | internal/store/store.go:1430-1497 | The invariant of both tables, of the requests under way and of their record, in every interleaving of statements. |
| DraftReview.OfficialLogsAreMerges | internal/store/store.go:1445-1497 | In every interleaving each official log is its draft's content merged with an edits value the draft really held, and a draft is promoted if and only if it has a log. |
| DraftReview.ReadOfPromotion | internal/store/store.go:1446-1470 | Every promotion under way was read at some step and is unfinished since. |
| DraftReview.PromotionInOneGo | internal/store/store.go:1445-1497 | A promotion whose read and commit nothing comes between adds the merge of the draft as it stands, by its reviewer, and marks the draft. |
| DraftReview.LogHasLastEditsIff | internal/store/store.go:1445-1489 | In every run a committed promotion is made with the draft's last edits, which the draft then keeps, if and only if no edits of that draft were stored between its read and its commit. |
| DraftReview.PromotedIsFrozen | internal/store/store.go:1438-1440 | Once promoted, a draft stays promoted, and its content and edits never change, whatever was under way. |
| DraftReview.PromotedHasOneLog | internal/store/store.go:1445-1497 | When promotions of a draft do not overlap it has exactly one official log if promoted and none otherwise. |
| DraftReview.OneLogIffNeverCommittedAgain | internal/store/store.go:1486-1489 | In every interleaving a draft has at most one official log if and only if no promotion of it commits when it is promoted already, which no guard on the status prevents. |
| DraftReview.OverlapMakesTwoLogs | internal/store/store.go:1446-1489 | Two overlapping promotions both commit: two official logs. |
| DraftReview.EditBetweenReadAndCommitIsLost | internal/store/store.go:1446-1489 | An edit accepted between a promotion's read and its commit is stored but is not in the log. |
| EffectivePolicy.GroupByTarget | internal/gemara/effective.go:195-198 | The map built from the list holds, for each target, exactly its modifiers in list order, and no other keys. |
| EffectivePolicy.ModifyTargeted | internal/gemara/effective.go:209-226 | The switch over a requirement's modifiers computes the fold of the plain specification. |
| EffectivePolicy.ModifyRequirements | internal/gemara/effective.go:201-226 | The pass over a control's requirements computes, one after another, what becomes of each. |
| EffectivePolicy.ApplyModifications | internal/gemara/effective.go:190-230 | The grouped pass, writing in place, equals folding, for each requirement, the modifiers that target it. |
| EffectivePolicy.ApplyExclusions | internal/gemara/effective.go:176-188 | The controls that are not excluded, in order, in the given slice or a new one. |
| EffectivePolicy.FlattenControls | internal/gemara/effective.go:160-174 | The primary's controls, then, if it extends anything, those of every other catalog in the pool; always a new slice. |
| EffectivePolicy.IndexCatalogs | internal/gemara/effective.go:28-31 | The map holds for each id the last catalog with it. |
| EffectivePolicy.ResolveImport | internal/gemara/effective.go:44-46 | One import's controls are a function of its catalog, the pool, its exclusions and its modifiers. |
| EffectivePolicy.ResolveEffectiveControls | internal/gemara/effective.go:26-58 | Resolution gives the plain specification's result, each import in a slice of its own, writes to nothing that the caller has, and fails exactly if there are imports and none resolves. |
| EffectivePolicy.ImportYields | internal/gemara/effective.go:33-52 | In terms of catalogs and imports alone: the result of an import stands behind those of the imports before it that resolve, and has the controls of the last catalog with the id that are not excluded, in order, and nothing else, unless that catalog extends something; then those of every catalog with another id follow. Each control is as it was but for its requirements. |
| EffectivePolicy.ImportHasId | internal/gemara/effective.go:160-188 | An id is among an import's controls if and only if a control of the catalog has it, or, where the catalog extends something, one of another catalog's, and it is not excluded. |
| EffectivePolicy.TargetingCounted | internal/gemara/effective.go:195-203 | A requirement has as many modifiers applied to it as name its id. |
| EffectivePolicy.TargetingAt | internal/gemara/effective.go:195-203 | And they are those, in the order of the list. |
| EffectivePolicy.AddAlone | internal/gemara/effective.go:220-222 | An Add alone keeps the requirement and puts an active one with the modifier's own id, text, applicability and recommendation behind it. |
| EffectivePolicy.SameTargetsSameControls | internal/gemara/effective.go:190-230 | The result depends only on each target's own modifiers in order. |
| EffectivePolicy.SwapDifferentTargets | internal/gemara/effective.go:190-230 | Neighbouring modifiers with different targets may change places. |
| EffectivePolicy.EntriesOfRequirement | internal/gemara/effective.go:209-226 | A requirement yields one entry, one more for each Add aimed at it, one less if any Remove is. |
| EffectivePolicy.RewrittenIsChain | internal/gemara/effective.go:209-226 | Which entries they are, in closed form: a chain of patched requirements broken at the Adds, less its last if there is a Remove anywhere. |
| EffectivePolicy.RemoveThenAddKeepsTheTarget | internal/gemara/effective.go:209-226 | So a Remove before an Add takes away what is added and keeps its target. |
| EffectivePolicy.UntargetedPassesThrough | internal/gemara/effective.go:202-207 | A requirement that nothing targets passes through unchanged, in its place. |
| EffectivePolicy.ExcludeModifyCommute | internal/gemara/effective.go:176-230 | Exclusions and modifications commute. |
| EffectivePolicy.AddFreeFold | internal/gemara/effective.go:209-226 | Without Adds each field ends as the last modifier that sets it leaves it. |
| EffectivePolicy.EntriesIds | internal/gemara/effective.go:209-226 | The ids of a requirement's entries: its own, then those of the Adds aimed at it, less the last if there is a Remove. |
| EffectivePolicy.RewriteTwiceIff | internal/gemara/effective.go:190-230 | For every list of modifiers, rewriting requirements twice is rewriting them once if and only if each entry that is added for them and stays has an id at which a Remove is aimed and no Add. |
| EffectivePolicy.ModifyTwiceIff | internal/gemara/effective.go:190-230 | And so for all the controls. |
| EffectivePolicy.ModifyTwice | internal/gemara/effective.go:190-230 | In particular if no Add is aimed at a requirement that is there. |
| EffectivePolicy.ImportsResolveAlone | internal/gemara/effective.go:33-52 | Each import resolves on its own, whatever the others are, also when two import one catalog. |
| EffectivePolicy.NothingResolved | internal/gemara/effective.go:33-56 | Nothing is resolved if and only if no import has a catalog. |
| EffectivePolicy.ResolutionFails | internal/gemara/effective.go:34-56 | And that is so if and only if for each import its reference is not mapped or no catalog has that id. |
| ControlRows.ExtractChildren | internal/gemara/effective.go:126-146 | The two inner loops give the rows of a control's requirements and of its threats' entries, in order. |
| ControlRows.ExtractControlRows | internal/gemara/effective.go:109-150 | The nested loops give exactly the rows of the resolved catalogs. |
| ControlRows.ParseControlCatalog | internal/gemara/controls.go:44-99 | The same of one catalog, or none if it does not load; a given id wins over the catalog's own. |
| ControlRows.ExtractionsAgree | internal/gemara/controls.go:65-98 | Both extractions, whose inner loops are the same code and one method here, agree on a single catalog. |
| ControlRows.RowsCounted | internal/gemara/effective.go:109-150 | One row for every control, every requirement and every threat entry of every catalog. |
| ControlRows.ControlRowAt | internal/gemara/effective.go:113-125 | The row of each control has its catalog, id, title, objective, group, state, active unless it says otherwise, and policy, and stands behind those of the controls before it. |
| ControlRows.RowsReadBack | internal/gemara/effective.go:109-150 | The rows determine the controls: those that name a control which is the only one of its ids give back exactly its requirements and its threats' entries, in order. |
| ControlRows.EveryChildHasItsControl | internal/gemara/effective.go:109-150 | The catalog and control of each requirement row and each threat row are those of a control row. |
| Debouncer.Debouncer.Push | internal/events/debounce.go:35-46 | Under the lock: stop the timer in the map, arm a new one, note it. |
| Debouncer.Debouncer.FireEnter | internal/events/debounce.go:48-57 | The first critical section of fire: forget the policy's entry, and run the handler exactly if none is in flight. |
| Debouncer.Debouncer.FireExit | internal/events/debounce.go:59-63 | The second: the policy is no longer in flight. |
| Debouncer.RunValid | internal/events/debounce.go:35-66 | The invariant of timers, map and flags, from any valid state through every interleaving of push, expiry, lock and exit. |
| Debouncer.InFlightIffRunning | internal/events/debounce.go:49-63 | Per policy at most one handler runs, and the flag is set if and only if it does. |
| Debouncer.LastEventNotStopped | internal/events/debounce.go:39-41 | Once a policy is quiet, its last event was handled or dropped for a handler in flight: never lost to a Stop. |
| Debouncer.LastEventCanBeDropped | internal/events/debounce.go:50-55 | A run in which the last event is dropped and no handler comes after it. |
| Debouncer.PushesAreAccountedFor | internal/events/debounce.go:35-66 | Conservation in every interleaving: pushes are handlers started, drops, stops, armed timers and waiting timers. |
| Debouncer.StartsAreReturnsAndTheOneInFlight | internal/events/debounce.go:56-65 | Handlers started are those returned and, if the policy is in flight, one. |
| Debouncer.OnlyStaleFiresUntrack | internal/events/debounce.go:48-50 | The map loses an armed timer if and only if an expired timer gets the lock while a newer one is armed. |
| Debouncer.TrackedIffOneArmed | internal/events/debounce.go:39-45 | While no armed timer is lost there is at most one per policy; one that is lost is joined by the next. |
| Debouncer.TrackedIffNeverStale | internal/events/debounce.go:39-50 | A run keeps track of its armed timers throughout if and only if no such fire happens in it. |
| Debouncer.NoPushWhileWaitingIsEnough | internal/events/debounce.go:39-50 | It does if nothing is pushed for a policy while an expired timer of it waits for the lock. |
| Debouncer.StaleFireArmsTwo | internal/events/debounce.go:39-50 | A run with two armed timers for one policy. |
| Bursts.DroppedIff | internal/events/debounce.go:50-55 | In every run an event is dropped if and only if its timer got the lock while its policy was in flight. |
| Bursts.BegunIff | internal/events/debounce.go:55-57 | And it has its handler if and only if its timer got the lock while the policy was not. |
| Bursts.BurstCoalesces | internal/events/debounce.go:35-46 | From any reachable state where a policy is quiet, its handler running or not, with pushes less than the window apart, each but the last is stopped by the next, whatever else goes on. |
| Bursts.BurstHandledIff | internal/events/debounce.go:35-66 | When the policy is quiet again all its events but the last were stopped, and the last has its handler, rather than having been dropped, if and only if each handler from before the burst had left when the last timer got the lock. |
| Bursts.BurstHandledOnce | internal/events/debounce.go:35-66 | So with no handler running when the burst begins exactly its last event has its handler. |
| Bursts.BurstSpaced | internal/events/debounce.go:43-45 | The events of a burst of k pushes lie at most k - 1 windows apart. |
| Lookback.BurstIsCovered | internal/events/certification_handler.go:49-50 | A burst whose windows, delivery delay and row age fit into five minutes, and whose last event finds no handler in flight: every row put in at most that age before any of its events is in the query of the one handler call. |
| Lookback.BurstIsCertified | internal/events/certification_handler.go:49-95 | And after that call, if the row's verdicts were stored and from there on none of its id without the flag, the flag of its id agrees with the stored verdicts. |
| Lookback.SteadyBurstCoveredIff | internal/events/certification_handler.go:49-50 | With events a fixed time apart, the first event's row is in that query if and only if the whole burst lasts no longer than five minutes. |
| EvidenceStore.Store.InsertEvidence | internal/store/store.go:849-912 | All rows or none; the count is that of the batch, or on an exec failure that of the rows before it. |
| EvidenceStore.Store.InsertCertifications | internal/store/store.go:1065-1094 | All verdicts or none, one per evidence id and certifier. |
| EvidenceStore.Store.UpdateEvidenceCertified | internal/store/store.go:1097-1104 | The same keys; every row with the id has the flag and its other columns as they were; every other row is as it was, and so are all if the statement fails. |
| EvidenceStore.BatchIsAFoldPerKey | internal/store/store.go:873-883 | After a batch the listed columns of a key are those of its last row, the others those that were there or else of its first row. |
| EvidenceStore.BatchRows | internal/store/store.go:873-883 | After a batch every record has its row and every new row is some record's, and a row has the live columns of the last record that it is of: two records share a row if and only if their evidence, control and requirement ids are the same. |
| EvidenceStore.GrowthIsNewKeys | internal/store/store.go:873-883 | The table grows by the number of new distinct keys, which is at most the number of rows. |
| EvidenceStore.GrowthIsNewTriples | internal/store/store.go:873-883 | The table grows by one row for each new triple of evidence, control and requirement id among the records. |
| EvidenceStore.BatchTwice | internal/store/store.go:873-883 | The same normalised batch again, at any time, changes nothing. |
| EvidenceStore.ReingestChangesNothing | internal/store/store.go:827-912 | Records with ids sent again change nothing. |
| EvidenceStore.ReingestChangesNothingIff | internal/store/store.go:827-912 | Any batch sent again changes nothing if and only if each of its records carries its id. |
| EvidenceStore.NewIdNewRow | internal/store/store.go:828-830 | A record without an id gets a new row each time. |
| Certification.QueryRecentEvidence | internal/store/store.go:1133-1163 | Every row of the policy ingested since, once, latest first. |
| Certification.ShownAfterBatch | internal/store/store.go:1133-1163 | What a certifier is shown of a row after a batch: result, status, engine and time of the last record for it; target, rule and provenance of the row that was there or else of its first record; what is NULL is empty text. |
| Certification.RunPipeline | internal/certifier/pipeline.go:20-26 | Every certifier judges the row, in order: result i is that of certifier i. |
| Certification.IsCertified | internal/certifier/pipeline.go:30-41 | The loop with its early return answers true if and only if some result is a pass and none is a fail. |
| Certification.CertifyRow | internal/events/certification_handler.go:62-95 | One row's turn: no change at all if the verdicts fail to be stored; else the verdicts, and the flag if that write succeeds. |
| Certification.Handle | internal/events/certification_handler.go:48-97 | The loop certifies the rows of the query one after another, each with its own outcome. |
| Certification.StoredAfterBatch | internal/store/store.go:1075-1081 | Whatever the certifiers' names, what is stored for an id afterwards is the last verdict of each name and those of certifiers no longer in the pipeline. |
| Certification.CertStored | internal/store/store.go:1075-1081 | The last result of each certifier is stored under its id and name, with its version, verdict and reason. |
| Certification.TurnAgreesIff | internal/events/certification_handler.go:62-95 | After a turn whose writes succeed, the flag agrees with the stored verdicts, that is every row of the id is certified exactly if some verdict stored for the id is a pass and none is a fail, if and only if neither verdicts overwritten under a shared name nor left-over ones tip the balance. |
| Certification.TurnAgrees | internal/events/certification_handler.go:62-95 | With distinct names and nothing left over it does, and what is stored is exactly the new verdicts. |
| Certification.SharedNamesAgreeIff | internal/store/store.go:1077-1081 | Certifiers of one name: flag and stored verdicts agree exactly if no overwritten fail hid behind a pass and no overwritten pass was the only one. |
| Certification.LostUpdateAgreesIff | internal/events/certification_handler.go:76-88 | If only the flag's write fails they agree if and only if the flag was right already. |
| Certification.TurnKeepsOthers | internal/events/certification_handler.go:62-95 | A turn leaves the flags and verdicts of other ids alone. |
| Certification.LastRowDecides | internal/events/certification_handler.go:62-95 | A whole run: for each id the last of its rows whose writes succeed decides, also when later ones fail to store their verdicts; what is stored are that row's verdicts, and the flag of all the id's rows agrees with them if no two certifiers share a name. |
| Certification.SafeRowAgrees | internal/events/certification_handler.go:62-95 | So for a row whose verdicts are stored, and none of its id from there on without the flag, when the run is over every row of its id is certified exactly if some verdict stored for the id is a pass and none is a fail. |
| Certification.WritesAgreeIff | internal/events/certification_handler.go:76-88 | The writes of any number of turns on one id in any order: flag and stored verdicts agree if and only if the last insert's verdicts add up to the same as the last flag's. |
| Certification.RacingTurnsAgreeIff | internal/events/certification_handler.go:76-88 | Two turns interleaved in any way: they agree if and only if the last insert and the last flag are one turn's, or both turns certify alike. |
| Flatten.FlattenEvaluationLog | internal/ingest/flatten.go:43-112 | One row for each non-nil assessment under a non-nil evaluation, in document order; an error exactly if there are no evaluations or one of those times is not a time. |
| Flatten.FlattenEnforcementLog | internal/ingest/flatten.go:131-208 | One row for each assessment under a non-nil action, in document order; an error exactly if there are no actions or an action's time is not a time. |
| Flatten.DerivePolicyID | internal/store/ingest_handler.go:123-133 | The id of the first reference with title Policy or id policy, else of the first of all, else empty. |
| Flatten.ToEvidenceRecords | internal/store/ingest_handler.go:18-61 | The slice filled in place holds the rows' records in order. |
| Flatten.AssessmentAt | internal/ingest/flatten.go:49-110 | Document order: an assessment's row stands behind those of the assessments before it, in its evaluation and in earlier ones. |
| Flatten.FindingAt | internal/ingest/flatten.go:137-206 | The same for the findings of actions. |
| Flatten.AssessmentsCounted | internal/ingest/flatten.go:49-110 | The rows of an evaluation log number its non-nil assessments under non-nil evaluations. |
| Flatten.FindingsCounted | internal/ingest/flatten.go:137-206 | Those of an enforcement log number the assessments under non-nil actions. |
| Flatten.LiveColumnsAreTheRow | internal/store/ingest_handler.go:18-61 | From row through record to table each overwritable column gets its own field; the owner is lost, and results get default names. |
| Flatten.FrozenColumnsAreTheRow | internal/store/ingest_handler.go:18-61 | And each other column its own. |
| Flatten.StepsSurviveIff | internal/ingest/flatten.go:69-94 | A step count reaches the table unharmed if and only if it fits 16 bits. |
| Flatten.AssessmentColumns | internal/ingest/flatten.go:69-107 | Every column of an assessment's row of the table in terms of the log: key, target, engine, result, compliance status, control, requirement, plan, steps and time. |
| Flatten.FindingColumns | internal/ingest/flatten.go:155-203 | And of a finding's: its control is what the finding's requirement refers to; remediation and exception come from the action. |
| Flatten.SameRequirementSameRow | internal/ingest/flatten.go:71-94 | Two assessments of one log end in one row of the table if and only if the log has an id and they are for the same control and the same requirement. |
| IngestTracker.Tracker.Create | internal/store/ingest_tracker.go:72-82 | A new pending job, in place of any with that id; no other job changes. |
| IngestTracker.Tracker.Complete | internal/store/ingest_tracker.go:85-94 | The job, if it is there, is completed with its count and policy; no other job changes. |
| IngestTracker.Tracker.CompleteArtifact | internal/store/ingest_tracker.go:96-105 | The same with its artifact. |
| IngestTracker.Tracker.Fail | internal/store/ingest_tracker.go:108-116 | The same with its error. |
| IngestTracker.Tracker.Get | internal/store/ingest_tracker.go:119-128 | A fresh copy of the job, which the tracker does not share. |
| IngestTracker.Tracker.Evict | internal/store/ingest_tracker.go:55-69 | Deleting while iterating leaves exactly the jobs that are pending or not yet stale, untouched. |
| IngestTracker.CopyOutlivesTheJob | internal/store/ingest_tracker.go:119-128 | A copy still shows what it showed when its job has ended and been evicted. |
| IngestTracker.DeliveredFindsItsJob | internal/store/handlers_ingest.go:45-55 | In every interleaving a delivered event finds its job, pending. |
| IngestTracker.EndsOnce | internal/store/handlers_ingest.go:45-55 | A job makes exactly one transition from pending to terminal, if its event was dealt with or could not be published, and none before. |
| IngestTracker.FinishEnds | internal/store/ingest_worker.go:22-144 | Each delivered event makes exactly one, the one recorded at the end of its handling; the job is completed if and only if its upload was stored. |
| IngestTracker.EndedIsFinal | internal/store/ingest_tracker.go:85-116 | A job that has ended does not change until it is evicted. |
| IngestTracker.EvictedStaysAway | internal/store/ingest_tracker.go:55-82 | An evicted job does not come back. |
| IngestTracker.EvictionIffStale | internal/store/ingest_tracker.go:55-69 | A job goes if and only if it ended longer ago than the time to live and eviction runs. |
| IngestTracker.LostStaysPending | internal/store/ingest_tracker.go:55-69 | A job whose event is lost stays pending for ever and is never evicted. |
| IngestWorker.FlattenDocument | internal/store/ingest_worker.go:93-103 | A log is flattened or refused, and its policy found, by its kind. |
| IngestWorker.StoreLog | internal/store/ingest_worker.go:93-111 | Either the whole batch is in the table or the table is as it was. |
| IngestWorker.HandleEvidenceIngest | internal/store/ingest_worker.go:81-124 | The job ends once, completed exactly if the whole batch is stored; one event, with the policy and the number of assessments, goes out exactly if that number is positive and there is a policy, when the table has the rows; the new rows and the event have the id that the log's references give. |
| IngestWorker.Work | internal/store/ingest_worker.go:22-79 | Whatever the text, its job gets exactly one end, completed exactly if something was stored, and evidence is written and announced for logs only. |
| IngestWorker.RequestIngest | internal/store/handlers_ingest.go:31-62 | An upload is accepted exactly if the bus takes its event, and when it did, the job was there and pending; if the bus does not, the job has failed. |
| IngestWorker.InsertedIsTheAssessments | internal/store/ingest_worker.go:93-117 | A completed job's count is the number of assessments and of rows inserted, and the table grows by at most that. |
| IngestWorker.BatchHasThePolicy | internal/store/ingest_worker.go:93-117 | Every row of the batch is stored under the policy that the event names. |
| IngestWorker.BatchIsTheAssessments | internal/store/ingest_worker.go:93-117 | Record i of an evaluation log's batch is that of its assessment i, under the log's policy and at the assessment's own time. |
| IngestWorker.BatchIsTheFindings | internal/store/ingest_worker.go:93-117 | And of an enforcement log's that of its finding i, at its action's time. |
| IngestWorker.NewRowsHaveThePolicy | internal/store/ingest_worker.go:93-117 | Every row that is new in the table has the policy id that the document's references give; if anything fails there is none. |
| IngestWorker.RecentAfterIngestIff | internal/store/ingest_worker.go:105-115 | Whether the certification query finds a row of the batch: a new row if it was put in since; one that was there only if its old policy and time still qualify. |
| DegradedCache.Cache.PingAll | internal/postgres/degraded.go:57-65 | The loop names, each once, exactly the subsystems that have a pinger and fail. |
| DegradedCache.Cache.FirstLook | internal/postgres/degraded.go:43-49 | Under the read lock: the protocol's read step; the list it returns, if it does, is the answer recorded. |
| DegradedCache.Cache.Enter | internal/postgres/degraded.go:51-55 | Taking the write lock and looking again: the protocol's lock step. |
| DegradedCache.Cache.PingOne | internal/postgres/degraded.go:57-64 | One turn of the loop: the protocol's ping step, after the time that the ping takes. |
| DegradedCache.Cache.Store | internal/postgres/degraded.go:66-67 | The new list replaces the cached one, stamped after the pings: the protocol's last step. |
| DegradedCache.Cache.SecondLook | internal/postgres/degraded.go:51-67 | Under the write lock: a run of the protocol from lock to finish, which answers with the cached list if it is fresh by now and else names exactly the subsystems that fail. |
| DegradedCache.RunValid | internal/postgres/degraded.go:42-68 | The invariant of cache, lock, requests and answers, in every interleaving. |
| DegradedCache.AnswersAreFresh | internal/postgres/degraded.go:42-68 | Each answer is some probe's list, stamped less than the time to live before or just then. |
| DegradedCache.ProbesNameFailures | internal/postgres/degraded.go:57-66 | Each probe pings every subsystem that has a pinger and names just those whose ping failed. |
| DegradedCache.ProbesAreSpaced | internal/postgres/degraded.go:51-66 | No probe starts less than the time to live after the stamp of the one before; over several probes these add up. |
| DegradedCache.OneProbeAtATime | internal/postgres/degraded.go:51-66 | At most one request pings at a time, and it holds the lock. |
| DegradedCache.NobodyIsAnsweredMeanwhile | internal/postgres/degraded.go:43-68 | While one request pings under the write lock no other is answered. |
| DegradedCache.AnswersAreAtMostSoOld | internal/postgres/degraded.go:42-68 | In every interleaving an answer is given less than the time to live and its probe's duration after that probe began, or as the probe ends. |
| DegradedCache.AnswersCanBeOlderThanTheTtl | internal/postgres/degraded.go:66-66 | That bound is met: what an answer says can be older than the time to live, by as long as its probe took. |
| Roles.UserStore.UpsertUser | internal/postgres/users.go:18-33 | A new user has the default role; one who is there keeps the role; a taken subject changes nothing. |
| Roles.UserStore.SetRole | internal/postgres/users.go:83-101 | The role is set and the old one returned, or there is no such user. |
| Roles.UserStore.BootstrapAdmin | internal/postgres/users.go:136-162 | The user is made admin exactly if there is none and the user exists; the error says which was missing. |
| Roles.ContainsAdmin | internal/auth/auth.go:238-245 | Whether admin or admins is among the groups. |
| Roles.HandleEnsureUser | internal/auth/auth.go:210-236 | Signing in registers the user unless another has the subject; the user is then admin if there was none and admin or admins is among the groups, and else keeps the role or gets the default; only the former is logged. |
| Roles.HandleSetRole | internal/auth/user_handlers.go:47-94 | The role is set exactly if the caller is an admin, the target a user and the name that of a role, and then it is the one of that name; the log gets an entry, with both roles, only for a change; nobody else's changes. |
| Roles.HandleBootstrap | internal/auth/user_handlers.go:125-147 | The caller becomes admin, with an entry, exactly if there is none and the caller is a user. |
| Roles.LogReplaysToRoles | internal/auth/user_handlers.go:73-91 | In every run of whole requests with no failed log insert, replaying the log gives each user's role, and each entry starts from the role replayed before it. |
| Roles.LogPartsIffRoleLost | internal/auth/user_handlers.go:86-88 | Where the log insert fails, table and log part if and only if the request's own guards, known beforehand, say that it gives someone another role. |
| Roles.BootstrapMakesTheOne | internal/postgres/users.go:136-162 | A bootstrap succeeds only from a state without admins and leaves exactly one. |
| Roles.SignInMakesTheOne | internal/auth/auth.go:210-236 | So does signing in with an admin group; otherwise the admins stay the same. |
| Roles.LastAdminLeavesAlone | internal/auth/user_handlers.go:47-94 | The admins come to an end only if the last one gives the role up. |
| Roles.SplitGroups | internal/auth/auth.go:254-266 | The non-empty trimmed pieces between commas. |
| Roles.GroupsCounted | internal/auth/auth.go:254-266 | There are as many groups as pieces that are not blank. |
| Roles.GroupAt | internal/auth/auth.go:254-266 | And they are those pieces, each trimmed, in order. |
| Roles.JoinedGroupsComeBack | internal/auth/auth.go:254-266 | Group names joined with commas come back as they were. |
| RoleLog.FlowIsValid | internal/auth/user_handlers.go:73-91 | With role statement and log insert as two steps, in every interleaving: the table is the replay of all role statements, and each entry is of one of them. |
| RoleLog.WholeRequest | internal/auth/user_handlers.go:73-91 | The statements of a request that nothing comes between do to both tables what the whole request does. |
| RoleLog.LogReplaysIff | internal/auth/user_handlers.go:73-91 | In every interleaving the last step that states or logs a role of a user decides, by what it finds: the log then replays to the user's role if and only if a last log insert gives the role in the table, or a last role statement the role that the log gives. |
| RoleLog.UntouchedReplays | internal/auth/user_handlers.go:73-91 | For a user with no such step it does. |
| RoleLog.EndsInLogInsert | internal/auth/user_handlers.go:73-91 | If a user's role was stated, no entry on the user is lost and all are logged, there is such a last step and it is a log insert. |
| RoleLog.SwappedEntriesDisagree | internal/auth/user_handlers.go:73-91 | It does not replay to the role of a user whose last entry is of the statement before the last. |
| RoleLog.InTurnIsEnough | internal/auth/user_handlers.go:73-91 | For a user whose role statements come only when the one before is logged, whatever happens to others: each entry starts from the role that the entries before it give, and once all is logged the log replays to the role. |
| RoleLog.EntriesCanSwap | internal/auth/user_handlers.go:73-91 | A run from the start in which two requests on one user log in the other order, and the log replays to the earlier role. |
| RoleLog.EntriesCanCoincide | internal/auth/user_handlers.go:73-91 | A run in which the last entry is not that of the last statement and yet gives its role. |
| RequirementMatrix.ClassificationIff | internal/store/store.go:1551-1558 | Exactly when a group is Mixed, Passing, Failing or without evidence, in terms of its rows' ids and results. |
| RequirementMatrix.ClassificationIgnoresFanOut | internal/store/store.go:1549-1558 | Classification and count depend only on the set of ids and results. |
| RequirementMatrix.NoRowSaysNoEvidence | internal/store/store.go:1549-1564 | No row of the matrix is classified as having no evidence. |
| RequirementMatrix.JoinedAre | internal/store/store.go:1559-1564 | A joined row is one of kept evidence in a group of a control of its own policy and id, with the title of that control and a requirement of that control in its catalog, or without one; or without a control. |
| RequirementMatrix.MatrixRowIs | internal/store/store.go:1549-1558 | A row of the matrix counts the distinct evidence ids of its group and has its latest time. |
| RequirementMatrix.MatrixIgnoresFanOut | internal/store/store.go:1549-1585 | The matrix depends only on the set of joined rows. |
| RequirementMatrix.MatrixIsOfTheSets | internal/store/store.go:1542-1585 | And so only on the sets of evidence, controls and requirements: their order and repeated rows leave no trace. |
| RequirementMatrix.EvidenceIsInSomeGroup | internal/store/store.go:1559-1564 | No evidence that passes the filter is lost in the joins. |
| RequirementMatrix.PagesMakeUp | internal/store/store.go:1587-1594 | Pages that begin where the one before ends make up the whole ordering, with nothing lost or repeated; without a limit they are of a hundred. |
| RequirementMatrix.ListRequirementMatrix | internal/store/store.go:1587-1615 | The loop over the returned page: all its rows in order, each with the columns of its group, or an error exactly if one of them has no text. |
| RequirementMatrix.TextMissingIff | internal/store/store.go:1548-1564 | A group has no text if and only if it is that of kept evidence whose control is not known. |
| RequirementMatrix.EveryPageListsIff | internal/store/store.go:1548-1615 | Every page of the matrix can be listed if and only if the control of every kept row of evidence is known. |
| Inventory.BuildWhere | internal/store/inventory.go:41-68 | The conditions and arguments, built side by side, have matching numbers and together are exactly the filter. |
| Inventory.RankingExists | internal/store/inventory.go:71-82 | For any rows there is a choice of one latest row for each target and policy. |
| Inventory.PassAndFailWithinPolicies | internal/store/inventory.go:83-92 | Passes and failures together are at most the policies. |
| Inventory.LatestOfAll | internal/store/inventory.go:83-92 | The latest time of an item is the latest of all filtered rows of its target. |
| Inventory.PoliciesAddUpToPairs | internal/store/inventory.go:71-92 | The policy counts of all items add up to the distinct filtered pairs of target and policy. |
| Inventory.InventoryExists | internal/store/inventory.go:83-92 | Whatever is ranked, there is an inventory of it. |
| Inventory.TiesDoNotMatter | internal/store/inventory.go:71-92 | Which of several tied rows is taken changes no policy count and no latest time, nor the passes and failures where a pair's tied latest rows agree on them. |
| Inventory.CountsAgreeIff | internal/store/inventory.go:71-92 | The count of a result is the same for every choice if and only if a pair's tied latest rows agree on whether they have it. |

## Left out

- DraftMerge.MergeTwice: for texts whose structure the merge keeps, which `DraftMerge.MergeKeepsStructureIff` says exactly, and overrides of one line that start with a visible character; what a second merge does otherwise is not stated.
- DraftMerge.EditTwice: for such overrides.
- NoteReader.NoteReadsBackIff: the reader is the part of YAML that a folded text needs: indentation by spaces, no blank lines inside the text.
- TypePattern.ReplaceSetsAll: on texts that are valid UTF-8; the engine's treatment of other bytes is not modelled.
- EffectivePolicy.ResolveEffectiveControls: slices have no spare capacity, so appending always makes a new array; the error text is not modelled.
- ControlRows.ParseControlCatalog: loading is a parameter; the error text is not modelled.
- Debouncer.Debouncer.Push: the mutex is modelled by taking each critical section as one step; a handler that panics is not modelled.
- Certification.Handle: one handler at a time, and the rows as they were at the query; a failed query or one without rows does nothing. What handlers at work on one id at the same time do is `Certification.WritesAgreeIff` and `Certification.RacingTurnsAgreeIff`.
- Lookback.BurstIsCovered: one clock for publisher, gateway and database.
- EvidenceStore.Store.InsertEvidence: the CHECK constraints are not modelled as such; a row that violates one is an exec failure. A nil slice and an empty one are the same.
- Flatten.FrozenColumnsAreTheRow: for step counts from 1 to 65535, as flattening yields them; `Flatten.StepsSurviveIff` has the others. The frameworks of a row are no column and are left out.
- IngestTracker.DeliveredFindsItsJob: a job id is new each time, an event is delivered at most once, and one whose publishing fails is not delivered.
- IngestWorker.StoreLog: of an error message only the leading words are modelled.
- IngestWorker.Work: the storing of policies, catalogs and mappings is an outcome; only the job's end is modelled.
- DegradedCache.Cache.SecondLook: run without interruption by other requests; the steps it takes are those of the protocol, where they interleave.
- DegradedCache.RunValid: the read section is one step, since nothing can change under the read lock.
- Roles.LogReplaysToRoles: requests one at a time; interleaved ones are in `RoleLog`. Under the database's default isolation two bootstraps of different users at the same moment could both find no admin; that is not modelled, a statement being atomic here.
- Roles.HandleSetRole: the request's path and body are taken as decoded; which error a refused caller gets is not modelled.
- RequirementMatrix.MatrixIsOfTheSets: the WHERE clause is any condition on an evidence row, so its building is not modelled. The order in which the database returns rows is any.
- Inventory.BuildWhere: the program condition looks up the policies of a program that is not deleted.
- Direct writes to the official audit logs, listing of drafts, and drafts stored with a status of their own (no request makes one): easy members beside the promotion protocol.
- Guidance references, startup backfills, single certifiers, enum validation, limits, blob checks, parse counters: each is one branch or one loop.
- HTTP routing, middleware, sessions, JSON and YAML parsing, NATS, PostgreSQL and object storage themselves.
- Schema migrations and grants, beyond the primary keys and unique constraints that the tables are maps by.
