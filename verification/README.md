# Proofs about the hard parts of SameOldChat

A Dafny model of the parts of the program whose promises are about every run, every interleaving or
every input, with proofs of those promises. Each component has a specification on values, the program's
own loops and in-place updates as methods proved to do exactly what the specification says, and the
promises proved as lemmas about the specification. `dafny verify dfyconfig.toml` verifies everything.

- **The collaborative text** (`internal/crdt`). Operations.dfy and Replica.dfy say what one replica does
  with an edit; Sequence.dfy is the same as a linked list updated in place. InsertionTree.dfy and
  TreeWalk.dfy are the invariant behind the one-comparison skip loop: the list is the depth-first walk of
  the tree of insertions, siblings in descending order of name. Documents.dfy defines the document a *set*
  of edits determines, with no reference to any order of arrival, and Convergence.dfy proves that every
  replica holds exactly that. Snapshots.dfy and Reloading.dfy treat storing and loading, LocalEdits.dfy the
  edits made locally, Changes.dfy what Apply reports. Collaboration.dfy puts any number of writers together
  and discharges, for every run of the whole system, the assumptions the other theorems make.
- **The canvas merge** (`canvas_diff.go`): CanvasMerge.dfy has the table filled in place, the walk and the
  two passes; CanvasIdentity.dfy what they preserve; CanvasExactly.dfy what becomes of each section: its kind, its
  name and what is counted, told by the pairs of a longest common subsequence.
- **The canvas as markdown** (`canvas_markdown.go`, `canvas_content.go`): CanvasMarkdown.dfy reads and
  writes, over TextLines.dfy and Whitespace.dfy; MarkdownRoundTrip.dfy says exactly when writing and reading
  give back the same blocks, MarkdownReading.dfy which lines are marks, which blocks they make and what a section
  is written as, CanvasResaving.dfy exactly when saving a canvas through markdown changes nothing.
- **The leased request queue** (`spool.go`): Spool.dfy and SpoolSafety.dfy.
- **Renegotiation in a huddle** (`room.go`): HuddleRoom.dfy is the room as interleaved steps of goroutines,
  Room.dfy the same critical sections on maps and flags updated in place, HuddleSafety.dfy the promises.
- **The orphan audit** (`reconcile.go`): BlobAudit.dfy is the pass itself, AuditRace.dfy the pass racing uploads.
  Sets.dfy has the facts about sizes of sets that this and the queue need.
- **Scale-down** (`activator.py`, `ecs-ws-activator`): ScaleDown.dfy is the protocol over one table under one
  clock, LeaseTable.dfy the writes and reads it consists of.
- **Arithmetic and order**: RateLimit.dfy, Calendar.dfy with Reminders.dfy, and StoredTime.dfy.

## Where the code does not do what its comments say

For each, a run or an input shows the promise failing, and a theorem says exactly when it holds.

- `canvas_content.go` says reading written markdown back yields the same sections. It does exactly when no
  heading ends in `#` (MarkdownRoundTrip.RoundTrip): `# a # #` is read as the heading `a #`, written as
  `# a #`, and read as `a` (HashHeadingShrinks). Saving a canvas changes nothing exactly when that holds and no
  app section's text stands as well in prose or under another app's kind (CanvasResaving.ResavingChangesNothing).
- `timestamps.go` says Ordered reports whether comparing bytes agrees with comparing times. Go's parser also
  reads a comma before the fraction and an hour of one digit, and texts with either can pass Ordered: both are
  shown out of order (StoredTime.CommaOutOfOrder, HourOutOfOrder). A text that passes Ordered and decodes has
  the one stored form exactly when it has a colon at byte 13 and a full stop at byte 19 (StoredFormExactlyWhen).
  The empty text passes too and stands for the zero time: it is less than every other text, rightly so exactly
  for those later than the zero time (OrderedCompares, EmptyOutOfOrder).
- `room.go` lets an answer clear the outstanding-offer flag whether or not there was an offer. A browser that
  answers before its offer is sent gets two offers on their way at once, and the older can arrive last
  (HuddleSafety.EarlyAnswerLeavesOldOffer). A participant's last offer is current in all runs exactly when no
  answer of its own may overtake an offer to it (CurrentExactlyWhen); other participants' answers, and answers
  that come with no offer under way, do no harm.
- `activator.py` says the work never outlives the scale-down lock. The deadline and the lock's expiry come from
  two clock readings; every stop is covered exactly when the second reading is at most the next whole second
  after the first (ScaleDown.StopsAloneExactlyWhen).
- `ecs-ws-activator` renews a lease that has lapsed, and checks no deadline before asking for hibernation.
  Hibernation never meets a live stream exactly when it is asked for within the lock and lapsed leases are not
  renewed, or leases are shorter than what is left of the second (HibernatesAloneExactlyWhen).
- `reconcile.go` takes the life of an upload's ticket for the longest time between writing an object and
  committing a row that refers to it, and accepts a minimum orphan age no longer than that. Two margins are
  missing: S3 dates objects in whole seconds, so up to a second early, and a commit follows its test of the
  ticket by some time. The audit is safe in every run exactly when the age covers all three, and no reference on
  which a test relied goes before the commit (AuditRace.HarmlessExactlyWhen). At the smallest age accepted, 15
  minutes for tickets of 15 minutes, only without either margin; the default hour leaves 45 minutes for them.
  Attaching an expired upload that another draft refers to tests that draft first and inserts its own row later;
  if the draft is deleted in between, no age is enough.
- `Replace` in `sequence.go` is not undone when its insert fails. Refused, it leaves the text as it was exactly
  when nothing lies between the kept ends (LocalEdits.RefusedReplaceKeeps, ReplaceLosesText). Its caller drops
  the replica then, so in a running system it is all or nothing (Collaboration.ReplaceMeansText).

## Model

| member | source | states |
|---|---|---|
| Identifiers.LessTotal | internal/crdt/sequence.go:45-50 | of two names exactly one is less, equal or greater: concurrent inserts always have an order |
| Identifiers.LessTransitive | internal/crdt/sequence.go:45-50 | the order of names is transitive |
| Identifiers.LessIs | internal/crdt/sequence.go:45-50 | the lesser name has the lesser clock, or the same clock and a writer that ends first or is less at the first difference |
| InsertionTree.SkippedBefore | internal/crdt/sequence.go:219-225 | everything the skip loop passes, descendants of greater siblings included, belongs before the new character |
| InsertionTree.StopAfter | internal/crdt/sequence.go:219-225 | what the loop stops at belongs after the new character |
| InsertionTree.SlotKeepsOrder | internal/crdt/sequence.go:219-227 | one comparison per character finds the place that keeps the list in document order |
| TreeWalk.WalkIsTheOrder | internal/crdt/sequence.go:195-235 | a list of the tree's names is in document order exactly when it is the depth-first walk, siblings descending |
| TreeWalk.SortedUnique | internal/crdt/sequence.go:195-235 | the order of a set of names is unique |
| TreeWalk.SubtreeContiguous | internal/crdt/sequence.go:219-225 | what stands between a character and its descendant descends from it |
| Convergence.IntegrateSound | internal/crdt/sequence.go:188-260 | integrating an unblocked op succeeds, keeps the list part of the document in order, loses nothing and leaves the op's whole effect |
| Convergence.ApplySettles | internal/crdt/sequence.go:154-186 | after Apply every op received is integrated or held, and every held op still names a missing character |
| Convergence.RunSettles | internal/crdt/sequence.go:154-186 | the same after any sequence of well-formed ops |
| Convergence.SettledIsWalk | internal/crdt/sequence.go:195-235 | the list is the depth-first walk of the characters that can be placed |
| Convergence.SettledIsDocument | internal/crdt/sequence.go:154-260 | names, values and tombstones are those of the document the set of ops determines |
| Convergence.RunIsDocument | internal/crdt/sequence.go:154-260 | whatever order and repetitions ops arrive in, the replica holds the document of their set |
| Convergence.Convergence | internal/crdt/sequence.go:154-260 | two replicas that received the same set of ops hold the same characters, values and tombstones, and hold back the same ops |
| Convergence.OneOrderForAll | internal/crdt/sequence.go:195-235 | there is one order of all the characters of the log, any two of them ordered one way, and every replica of any part of it lists what it holds in that order |
| Convergence.ReapplyKeepsDocument | internal/crdt/sequence.go:150-153 | applying an op twice changes nothing |
| Convergence.RunsDoNotInterleave | internal/crdt/sequence.go:219-225 | only descendants of a run's characters stand between them |
| Convergence.GreaterWriterFirst | internal/crdt/sequence.go:219-227 | of two inserts in one history after the same character, the text of the later clock, or at one clock of the writer greater at the first difference, stands first in the document |
| Changes.ApplyReports | internal/crdt/sequence.go:150-186 | Apply reports a change exactly when the characters differ afterwards |
| Snapshots.SnapshotExpands | internal/crdt/sequence.go:377-405 | reading the stored runs back gives every character's name, state and visible value, in order |
| Snapshots.SnapshotIsMaximal | internal/crdt/sequence.go:388-402 | no stored run could be joined to the one before |
| Snapshots.LoadableIs | internal/crdt/sequence.go:410-442 | what loads is runs, each of at least one character and all read or all deleted, of valid names, none twice |
| Reloading.ApplyAllStored | internal/crdt/sequence.go:379-442 | every replica reachable by any ops, ill-formed ones too, can be stored: valid names, each once |
| Reloading.AlikeApply | internal/crdt/sequence.go:154-260 | Apply cannot tell replicas apart that differ only in the text of tombstones |
| Reloading.LoadedGoesOnAlike | internal/crdt/sequence.go:379-442 | a snapshot of a replica with nothing held is accepted, reads the same with the same clock, and stays alike under all later ops |
| LocalEdits.InsertReads | internal/crdt/sequence.go:265-280 | Insert splices the text in at the position and holds nothing new |
| LocalEdits.InsertDecides | internal/crdt/sequence.go:265-280 | Insert succeeds exactly for a valid name with room on the clock, and otherwise leaves the document |
| LocalEdits.InsertMints | internal/crdt/sequence.go:265-280 | the op an insert makes takes the next clock after all there are and is tied to the visible character before the position, or to the start |
| LocalEdits.SpansHold | internal/crdt/sequence.go:288-303 | the spans of a removal name exactly the characters gathered |
| LocalEdits.SpansAreMaximal | internal/crdt/sequence.go:288-303 | no span of a removal could be joined to the one before |
| LocalEdits.DeleteIsValid | internal/crdt/sequence.go:72-98 | a delete is well formed exactly when it has spans and each names some character, and only characters that may exist |
| LocalEdits.RemoveMints | internal/crdt/sequence.go:284-309 | the op a removal makes deletes exactly the visible characters of the range |
| LocalEdits.RemoveReads | internal/crdt/sequence.go:284-309 | Remove cuts exactly the characters from the position on |
| LocalEdits.ReplaceKeepsMost | internal/crdt/sequence.go:338-347 | no longer common beginning and end could be kept, and no longer beginning |
| LocalEdits.ReplaceReads | internal/crdt/sequence.go:334-364 | Replace makes the document read the text by at most two ops, exactly when the insert is accepted; otherwise the middle stays removed |
| LocalEdits.RefusedReplaceKeeps | internal/crdt/sequence.go:334-364 | a refused Replace leaves the text as it was exactly when nothing lies between the kept ends |
| LocalEdits.ReplaceLosesText | internal/crdt/sequence.go:350-361 | a writer without a usable name replaces x by y, is refused, and the document is empty |
| Collaboration.StepKeeps | internal/crdt/sequence.go:154-442 | starting empty or from what another writer has stored, inserting, removing, replacing, delivering in any order and reloading keep the edits well formed and every member a copy of its document |
| Collaboration.EveryMemberReadsItsDocument | internal/crdt/sequence.go:154-442 | in every run each member reads the document of the edits it has received, reloads included |
| Collaboration.NothingHeldAtTheEnd | internal/crdt/sequence.go:154-186 | a member that received every edit holds nothing back and reads the whole document |
| Collaboration.InsertMeansSplice | internal/crdt/sequence.go:265-280 | in every run a member's insert is the splice it asked for: no held op ever waits for the names it mints |
| Collaboration.RemoveMeansCut | internal/crdt/sequence.go:284-309 | in every run a member's removal inside its text cuts out exactly the range it asked for |
| Collaboration.ReplaceMeansText | internal/service/canvas_text.go:156-161 | in every run a member's replacement makes it read the new text and logs its ops, exactly when nothing is to be inserted or the name is valid and the clocks have room; refused, it leaves everything |
| Sequences.Sequence.Link | internal/crdt/sequence.go:226-228 | linking a node in puts exactly one character at its place and keeps the chain and the index |
| Sequences.Sequence.Skip | internal/crdt/sequence.go:222-225 | the loop over next pointers stops at the slot |
| Sequences.Sequence.IntegrateInsert | internal/crdt/sequence.go:195-235 | the in-place insert does what the specification does, each error included |
| Sequences.Sequence.IntegrateDelete | internal/crdt/sequence.go:237-260 | the in-place delete is all or nothing and strikes exactly what it names |
| Sequences.Sequence.DrainOnce | internal/crdt/sequence.go:168-184 | one pass over the held ops |
| Sequences.Sequence.Apply | internal/crdt/sequence.go:154-186 | Apply in place is Apply on values, with what it reports |
| Sequences.Sequence.Text | internal/crdt/sequence.go:131-139 | reading the list gives the characters not deleted |
| Sequences.Sequence.VisibleBefore | internal/crdt/sequence.go:313-328 | the visible character before a position, or the start |
| Sequences.Sequence.Insert | internal/crdt/sequence.go:265-280 | local insert in place, refusals included |
| Sequences.Sequence.Remove | internal/crdt/sequence.go:284-309 | local removal in place, refusals included |
| Sequences.Sequence.Replace | internal/crdt/sequence.go:334-364 | replacement in place |
| Sequences.Sequence.Snapshot | internal/crdt/sequence.go:379-405 | the loop that gathers runs yields the stored form |
| Sequences.Load | internal/crdt/sequence.go:410-442 | a snapshot is accepted exactly when its runs are valid and no character occurs twice, and builds the replica it describes |
| CanvasMerge.TableIsLongest | internal/domain/canvas_diff.go:24-38 | a table cell is the length of a longest common subsequence of the suffixes: one that long exists and none is longer |
| CanvasMerge.WalkKeepsLongest | internal/domain/canvas_diff.go:52-69 | the forward walk keeps a common subsequence as long as the table says |
| CanvasMerge.FillTable | internal/domain/canvas_diff.go:26-38 | the table filled in place |
| CanvasMerge.SettleRun | internal/domain/canvas_diff.go:42-51 | ending a run counts it and lets prose take over app kinds, one for one |
| CanvasMerge.MergeSections | internal/domain/canvas_diff.go:22-89 | the whole merge as the program does it |
| CanvasIdentity.UnchangedIffSame | internal/domain/canvas_diff.go:22-70 | nothing counts as changed exactly when kinds and texts agree throughout |
| CanvasIdentity.ChangedWithinBounds | internal/domain/canvas_diff.go:42-70 | the count lies between the larger length and the sum of both, less what is kept |
| CanvasIdentity.LongestStaysInPlace | internal/domain/canvas_diff.go:52-87 | the sections of a longest common subsequence stand where the new text has them, names and all |
| CanvasIdentity.MergeKeepsIdentity | internal/domain/canvas_diff.go:39-89 | the result has the new texts in order, of kinds as asked or an app's; each name occurs once and names a current section of that kind and text; none is left unnamed while such a name is free |
| CanvasExactly.WalkMoves | internal/domain/canvas_diff.go:52-69 | at each move sections that agree are kept; otherwise the new one is added if some longest common subsequence does without it, and only else the current one is dropped |
| CanvasExactly.WalkEnds | internal/domain/canvas_diff.go:52-69 | the walk ends past both texts |
| CanvasExactly.MergedExactly | internal/domain/canvas_diff.go:22-89 | every section of the result by the pairs kept: prose standing in, place for place in its gap, for a section of an app's own kind takes that kind, every other added section has the kind asked for; the names are those unkept of its kind and text, in order; of each gap the longer side is counted |
| CanvasMarkdown.MarkdownHeading | internal/domain/canvas_markdown.go:84-97 | the counting loop recognises headings of levels one to three |
| CanvasMarkdown.MarkdownListLine | internal/domain/canvas_markdown.go:101-110 | the counting loop recognises list items |
| CanvasMarkdown.FindLastNonEmpty | internal/domain/canvas_markdown.go:73-80 | the backward loop finds the last line that is not blank |
| CanvasMarkdown.MarkdownBlocks | internal/domain/canvas_markdown.go:17-71 | the line loop with its paragraph and fence flag computes the blocks |
| CanvasMarkdown.SectionsMarkdown | internal/domain/canvas_content.go:83-99 | the printing loop computes the markdown |
| MarkdownRoundTrip.BlocksAreGood | internal/domain/canvas_markdown.go:17-71 | whatever the text, its blocks are headings, prose whose blank lines stand between list items, closed fences, and at most a last fence left open |
| MarkdownRoundTrip.HeadingLineReads | internal/domain/canvas_markdown.go:84-97 | what a written heading's line is read as |
| MarkdownRoundTrip.RoundTrip | internal/domain/canvas_content.go:60-99 | for every text, reading its printed blocks gives the same blocks exactly when no heading ends in a hash |
| MarkdownRoundTrip.HashHeadingShrinks | internal/domain/canvas_markdown.go:84-97 | the heading `# a # #` loses a hash each time it is read and written |
| MarkdownReading.ListLineIs | internal/domain/canvas_markdown.go:101-110 | a list item begins with one of three bullets and a space, or digits, a full stop or closing bracket, and a space |
| MarkdownReading.FenceIs | internal/domain/canvas_markdown.go:31-32 | a fence is three backticks after any space |
| MarkdownReading.HeadingIs | internal/domain/canvas_markdown.go:84-97 | one to three hashes, a space and some text make a heading of that level, and nothing else does |
| MarkdownReading.HeadingText | internal/domain/canvas_markdown.go:84-97 | a heading's text is what stands there, with or without closing hashes |
| MarkdownReading.TwoParagraphs | internal/domain/canvas_markdown.go:17-71 | a blank line between two lines of text parts them into two blocks, unless both are list items: then they are one |
| MarkdownReading.TwoLines | internal/domain/canvas_markdown.go:17-71 | lines that follow one another are one block |
| MarkdownReading.OneHeading | internal/domain/canvas_markdown.go:47-51 | a heading's line is a block of its level's kind |
| MarkdownReading.OneFence | internal/domain/canvas_markdown.go:32-46 | a closed fence and whatever lines are in it are one block |
| MarkdownReading.LineEndingsReadAlike | internal/domain/canvas_markdown.go:17-25 | lines read the same whichever of the three line endings they have |
| MarkdownReading.SectionIsWritten | internal/domain/canvas_content.go:83-99 | however its lines are broken and whatever breaks are about them, a section is written as its heading mark and its lines |
| MarkdownReading.BlankIsNotWritten | internal/domain/canvas_content.go:83-99 | nothing is written exactly of a section that is all space |
| CanvasResaving.RestoreKinds | internal/service/canvases.go:277-287 | the two loops give prose with an app section's text that section's kind |
| CanvasResaving.RestoredExactly | internal/service/canvases.go:277-287 | of several app sections with a prose section's text the last gives it its kind; every other section stays as it was |
| CanvasResaving.SpellableIs | internal/domain/models.go:2989-2998 | the kinds that are no app's are those some text is read as, and the empty one |
| CanvasResaving.RestoredIsSame | internal/service/canvases.go:277-287 | for a canvas whose app sections were prose when written, restoring kinds gives back every kind and text exactly when no app section's text stands as well in prose or under another app's kind |
| CanvasResaving.ResavingChangesNothing | internal/service/canvases.go:276-291 | writing out any such canvas, app sections included, reading it, restoring kinds and merging changes nothing, exactly when that is so and no heading ends in a hash |
| Spool.RequestSpool.Enqueue | internal/activator/spool.go:291-338 | one row more under a fresh ID, or a refusal, by the limits |
| Spool.RequestSpool.Claim | internal/activator/spool.go:208-249 | the lowest deliverable rows leased under a fresh token, the undecodable ones quarantined |
| Spool.RequestSpool.Renew | internal/activator/spool.go:258-289 | the owner's unexpired rows extended, and whether all asked for were |
| Spool.RequestSpool.Delete | internal/activator/spool.go:398-417 | the owner's row removed |
| Spool.RequestSpool.Pending | internal/activator/spool.go:343-352 | the loop counts the rows not quarantined |
| Spool.Decode | internal/activator/spool.go:421-439 | the rows that decode in order, and the rest apart |
| SpoolSafety.ClaimReturnsItsOwn | internal/activator/spool.go:208-249 | a claim returns, in order, exactly the lowest deliverable rows that decode; every other row keeps its lease |
| SpoolSafety.ClaimTakesTheOldest | internal/activator/spool.go:208-249 | a row is returned exactly when it is neither quarantined nor leased, fewer such rows than the limit are older, and it decodes |
| SpoolSafety.EnqueueTakes | internal/activator/spool.go:291-338 | in any run a request is queued exactly when it is within all three limits, last and under an ID never used; a refusal changes nothing |
| SpoolSafety.RenewExactly | internal/activator/spool.go:258-289 | a renewal succeeds exactly when the rows named are distinct and all the owner's and unexpired; just the ones that are get extended |
| SpoolSafety.OwnerDeletes | internal/activator/spool.go:393-417 | in any run the last claimant's delete of a row not quarantined succeeds, lapsed lease or not: the row is gone, every other is as it was |
| SpoolSafety.LapsedNotRenewed | internal/activator/spool.go:276-288 | a lapsed or foreign lease is not renewed, and the call says so |
| SpoolSafety.LeasesAreExclusive | internal/activator/spool.go:208-289 | over every run, a row's earlier lease with its renewals had expired before the next began |
| SpoolSafety.ReclaimedIsFenced | internal/activator/spool.go:398-417 | once another owner has a row, the former owner's delete and renewal fail |
| SpoolSafety.NothingIsLost | internal/activator/spool.go:291-417 | every ID ever issued is in the table or was deleted by its last claimant, never both |
| SpoolSafety.QueueStaysBounded | internal/activator/spool.go:315-322 | every reachable table is within the row and byte limits |
| SpoolSafety.QuarantineIsFinal | internal/activator/spool.go:226-245 | a quarantined row is never claimed again |
| SpoolSafety.PendingCanBeClaimed | internal/activator/spool.go:340-352 | in every reachable table that count is positive exactly when some later claim would return a request, and with the quarantined rows it makes the table's size |
| HuddleSafety.OffersNeverPileUp | internal/huddlesfu/room.go:443-477 | over every interleaving, offers sent to a peer exceed answers received by one at most |
| HuddleSafety.LastOfferIsCurrent | internal/huddlesfu/room.go:380-477 | with nothing left to do and no offer outstanding, a ready participant none of whose media calls failed and none of whose answers overtook an offer to it was last sent exactly the others' tracks, whatever the rest of the room did |
| HuddleSafety.EarlyAnswerLeavesOldOffer | internal/huddlesfu/room.go:194-207 | an answer that overtakes its offer can leave the older description as the last one sent |
| HuddleSafety.CurrentExactlyWhen | internal/huddlesfu/room.go:443-477 | the last offer is current in all runs exactly when no answer may overtake an offer still being built or sent |
| Rooms.Room.Join | internal/huddlesfu/room.go:137-145 | the critical section that registers a connection: refused in a closed room, and the later of two joins that both passed the test of the name takes it |
| Rooms.Room.SetScreenActive | internal/huddlesfu/room.go:236-257 | pausing and resuming a screen share |
| Rooms.Room.Leave | internal/huddlesfu/room.go:260-276 | leaving removes the participant and all its forwards |
| Rooms.Room.Reconcile | internal/huddlesfu/room.go:392-424 | one peer's senders become everyone else's tracks, but for calls that failed; changed exactly when they differ |
| Rooms.Room.Synchronize | internal/huddlesfu/room.go:380-434 | the loop over peers reconciles each of them and queues what follows |
| Rooms.Room.BeginOffer | internal/huddlesfu/room.go:443-451 | the offer is claimed exactly when the peer is ready, dirty and not negotiating |
| Rooms.Room.BuildOffer | internal/huddlesfu/room.go:453-475 | three attempts at most, the claim undone when all fail |
| BlobAudit.EveryKeyIsJudgedOnce | internal/blob/reconcile.go:119-155 | every listed key is exactly one of referenced, recent and orphaned |
| BlobAudit.ReportAddsUp | internal/blob/reconcile.go:91-164 | in what the pass returns, orphans, recent objects and listed references add up to the distinct keys walked, references and duplicates to the references read, and no more keys are missing than were referenced and not listed |
| BlobAudit.ReportsExactly | internal/blob/reconcile.go:105-164 | a key is reported orphaned exactly when it was listed, last with a known date at least the minimum age before the pass, and nothing refers to it; missing exactly when something does, it was not listed and opening it finds nothing |
| BlobAudit.Audit | internal/blob/reconcile.go:91-164 | the pass is refused exactly on its error conditions, and otherwise reports the orphans and missing keys, sorted, and all counts |
| BlobAudit.ConfirmMissing | internal/blob/reconcile.go:170-188 | exactly the candidates absent when opened again, refused when the provider cannot say |
| BlobAudit.EnqueueOrphans | internal/blob/reconcile.go:215-243 | nothing is enqueued while anything is missing or a key is empty; otherwise just the keys before the one at which the sink failed, and all of them on success |
| AuditRace.OrphansStayUnreferenced | internal/blob/reconcile.go:91-164 | with uploads, repeated uploads, tests, later commits and deletions interleaved, a key confirmed missing had been deleted, and, the margin being large enough, a key once judged an orphan is never referenced afterwards |
| AuditRace.UploadedIsRecent | internal/blob/reconcile.go:144-150 | an object written again is recent to every pass that begins within the minimum age, less the coarseness of dates |
| AuditRace.HarmlessExactlyWhen | internal/blob/reconcile.go:14-29 | no key judged an orphan is ever referenced afterwards, in any run, exactly when a ticket's life, the coarseness of object dates (internal/blob/s3.go:121) and the delay of commits after their test (internal/store/sqlstore/sqlstore.go:23191-23242) fit in the minimum age, and a reference a test relied on stays until the commit |
| ScaleDown.ActsAlone | deploy/ecs-scale-zero/activator.py:233-288 | a sweep that acts before its lock's expiry holds the lock, and no lease it looks for is live unless a lapsed one was renewed |
| ScaleDown.StopsAlone | deploy/ecs-scale-zero/activator.py:243-279 | a sweep whose deadline is within a second of its lock's expiry stops tasks only while alone |
| ScaleDown.StopsAloneExactlyWhen | deploy/ecs-scale-zero/activator.py:243-248 | for two clock readings every stop is alone exactly when the second is at most the next whole second after the first |
| ScaleDown.OneSweepActs | deploy/ecs-scale-zero/activator.py:250-258 | two sweeps never act at once within their locks |
| ScaleDown.ActsExactlyWhen | deploy/ecs-scale-zero/activator.py:243-279 | undisturbed, a new sweep gets to act exactly when no unexpired lock and no live lease of its sort is in the table, and its lock is then the only row changed |
| ScaleDown.ReleaseLetsIn | deploy/ecs-scale-zero/activator.py:280-287 | a sweep that deletes its lock lets leases in again; another's lock stays |
| ScaleDown.RevivedBesideSweep | cmd/ecs-ws-activator/main.go:652-664 | a lease that lived and lapsed is renewed behind a sweep's scan, and hibernation is asked for beside a live stream, within the lock |
| ScaleDown.HibernatesAloneExactlyWhen | cmd/ecs-ws-activator/main.go:568-610 | over all runs, hibernation asked for at a given time by a sweep with a given clock reading meets no live stream exactly when the time is within the lock and lapsed leases are not renewed, or no lease taken then outlasts the second |
| LeaseTables.LeaseTable.AcquireLease | cmd/ecs-ws-activator/main.go:612-624 | a lease is taken exactly when the lock is free and the row is not there |
| LeaseTables.LeaseTable.AcquireLock | deploy/ecs-scale-zero/activator.py:250-258 | the lock is taken exactly when there is none or it has expired |
| LeaseTables.LeaseTable.PageHasLease | cmd/ecs-ws-activator/main.go:707-722 | whether a page holds an unexpired lease of the prefix |
| LeaseTables.LeaseTable.ScanPage | deploy/ecs-scale-zero/activator.py:262-274 | one page of the scan under the deadline |
| RateLimit.AdmitsAsBucket | internal/domain/rate_limit.go:9-49 | over any call times in order, exactly the calls a full bucket of burst tokens refilled one an interval admits (Annex A of ITU-T I.371) |
| RateLimit.AnyWindow | internal/domain/rate_limit.go:40-49 | in any run, any window admits at most the burst and one call for each interval in it |
| RateLimit.WaitIsLeast | internal/domain/rate_limit.go:36-49 | a refusal's wait is the least after which a lone retry is admitted |
| Calendar.AddDaysCounts | internal/domain/reminder_recurrence.go:27-38 | n days on is n days on and later, across months and leap years |
| Calendar.WeekdayAfter | internal/domain/reminder_recurrence.go:33-37 | seven days running are the seven weekdays |
| Calendar.WhichDatesAre | internal/domain/reminder_recurrence.go:70-78 | the lengths of the twelve months, as literals, with the leap rule |
| Calendar.DayNumberIs | internal/domain/reminder_recurrence.go:27-38 | days are numbered as the closed form of the Gregorian calendar numbers them |
| Calendar.EpochIsThursday | internal/domain/reminder_recurrence.go:33-37 | the first of January 1970 is a Thursday |
| Reminders.AdvanceReminder | internal/domain/reminder_recurrence.go:22-54 | the search loop and the month arithmetic yield the occurrence that follows |
| Reminders.NextIsLater | internal/domain/reminder_recurrence.go:22-54 | every recurring reminder has a next occurrence, and it is strictly later |
| Reminders.DayOfNext | internal/domain/reminder_recurrence.go:22-38 | a daily reminder comes one day on, a weekly one seven, or on the first named weekday after, at the anchor's hour and minute |
| Reminders.FollowsOne | internal/domain/reminder_recurrence.go:22-54 | only one occurrence follows |
| Reminders.MonthsOn | internal/domain/reminder_recurrence.go:60-78 | truncated division with its correction is floor division: exactly that many months on, for negative counts too, on the day or the month's last |
| Reminders.ThereAndBack | internal/domain/reminder_recurrence.go:60-68 | months on and back returns exactly when the day was not clamped |
| Reminders.KthFollows | internal/domain/reminder_recurrence.go:41-68 | what follows the k-th monthly or yearly occurrence is the next one |
| Reminders.NoDrift | internal/domain/reminder_recurrence.go:41-68 | in any series in which each occurrence follows the one before, the k-th is one jump of k or 12 k months from the anchor, to the whole minute; equal to the plain jump exactly for whole-minute anchors |
| Reminders.SeriesAnchor | internal/domain/reminder_recurrence.go:87-95 | an anchor is stored exactly when the due instant is the anchor or the occurrence that follows it |
| StoredTime.StoredOrder | internal/domain/timestamps.go:80-91 | stored texts are 30 bytes, pass Ordered, and compare as bytes the way the clamped instants do (section 5.1 of RFC 3339) |
| StoredTime.DecodesBack | internal/domain/timestamps.go:80-106 | every instant of the years 1 to 9999 is decoded to the nanosecond |
| StoredTime.ClampKeepsOrder | internal/domain/timestamps.go:84-89 | clamping never puts a later instant before an earlier one, and moves just those outside the years 1 to 9999 |
| StoredTime.OlderFormDecodes | internal/domain/timestamps.go:93-106 | the older encoding, without the zeros a fraction ends in, decodes to the same instant |
| StoredTime.StoredFormExactlyWhen | internal/domain/timestamps.go:97-118 | a text that passes Ordered and decodes is the stored form of its instant exactly when it has a colon at byte 13 and a full stop at byte 19 |
| StoredTime.CommaOutOfOrder | internal/domain/timestamps.go:108-118 | two texts that pass Ordered and decode, one with a comma before its fraction, compare against their instants |
| StoredTime.HourOutOfOrder | internal/domain/timestamps.go:108-118 | so do two of which one has an hour of one digit |
| StoredTime.EmptyOutOfOrder | internal/domain/timestamps.go:93-118 | the empty text comes before one of the year 0, which is earlier than the zero time the empty text decodes to |
| StoredTime.OrderedCompares | internal/domain/timestamps.go:93-118 | any two texts that pass Ordered, decode and have those two bytes compare as their instants; against the empty text exactly those that are later than the zero time, or not earlier when the empty text is the second |

## Left out

- Clocks are natural numbers: the wrap-around of the 64-bit sum in `Op.Valid` is not modelled, so clocks are taken to be at most 2^53 - 1 before it.
- Text is a sequence of code points; UTF-8 validity and the replica-name regular expression as such are not modelled (the name predicate is).
- Collaboration.StepKeeps: members make only ops the API makes; an ill-formed insert from outside is refused by Apply in the model, but its effect on the ops held behind it is stated in no theorem.
- A loaded tombstone carries a null character where the original kept its text; Alike says that nothing later reads it.
- Spool rows decode by an arbitrary predicate per claim; encryption, JSON, SQL transactions, schema migration and backfill are not modelled, and neither are List and Quarantined.
- HuddleRoom lets any pending action run next, which includes every order the goroutines and mutexes allow; RTP copying, ICE candidates and session descriptions are reduced to the set of tracks described. Two participants' tracks with one ID are one track in it.
- The test that a name is not yet in the room (room.go:99-107) is a critical section of its own, which only reads. HuddleRoom's joins do not depend on it, so every promise holds of two joins that pass it together.
- Critical sections that only set a flag or one map entry are steps of HuddleRoom and ScaleDown and have no method of their own in Room and LeaseTable.
- HuddleSafety.LastOfferIsCurrent: says nothing of a participant on whose connection a media call failed; CurrentExactlyWhen leaves those out too.
- The audit's listings are inputs of the pass; the workspace prefix, contexts and SweepAbandonedUploads are left out.
- AuditRace keeps all replicas on one clock; a store whose clock is behind the program's dates objects early and counts as coarse.
- BlobAudit.SortKeys stands for the library's sort.
- ScaleDown takes each conditional write and each page read as one step, and each deadline check together with its stop as one; the idle window, the start marker and the idle-since row only make a sweep give up earlier and are left out. A sweep is not one sequential method because other writers act between its steps.
- Starting tasks, the wake lock, ECS, the proxies and the HTTP handlers are left out.
- RateLimit uses unbounded integers; overflow of durations is not modelled, nor is the test of the key.
- Reminders work on wall-clock fields in a zone of fixed offset; gaps of daylight saving and reminder phrases are left out.
- StoredTime.DecodesBack: Decode reads the forms that end in Z, with an hour of one or two digits and a fraction of any length, or none, after a full stop or a comma; numeric offsets in legacy rows are left out.
- CanvasMarkdown leaves out the HTML rendering, JSON and the validators.
