# Baerly measurement tooling: a verified model

This project models the measurement and build tooling of the Baerly repository in Dafny and proves what
that tooling claims. The parts are independent of each other, apart from the JSON ones.

- **Storage journal** (`StorageJournal.dfy`). A decorator around a storage backend whose calls overlap, settle in any
  order and may fail ambiguously. After any interleaving, the namespace snapshot is exact for every key it does not
  mark uncertain, and it marks exactly the keys it must. The decorator is a class over mutable rows, proved step by step
  against a journal value.
- **Least squares** (`LeastSquares.dfy`, `RankGate.dfy`). Householder QR over exact reals: what a returned fit is, what
  the scaled diagonal, the rank and the condition estimate mean, and how they depend on units and on column order.
- **Canonical JSON** (`UnicodeText.dfy`, `JsonText.dfy`, `CanonicalJson.dfy`, `CanonicalTheory.dfy`). The I-JSON string
  scan, the printer and a parser of the whole grammar, the serializer of a graph of JavaScript objects, and what cannot
  influence its outcome.
- **Codecs and streams on it** (`WireCodec.dfy`, `ParsedValues.dfy`, `ConcatenatedJson.dfy`). Codecs that accept only
  canonical bytes, the canonical serializer on what a parser built, and the brace-counting scanner of a stream of values.
- **Storage protocols** (`LogWriters.dfy`, `ArtifactFence.dfy`, `DeleteAuthority.dfy`). Any number of three-step log
  writers with crashes and a compactor; any number of publishers and collectors around an artifact fence; the check of
  a persisted delete authority.
- **The capture pipeline** (`Capture.dfy`, `CollectRetry.dfy`, `EvidenceGate.dfy`). The crash-resumable plan and its
  schedule, the bounded collection retry, and the gate that refuses incomplete evidence.
- **Order statistics and bootstraps** (`OrderStatistics.dfy`), **graph walks** (`ModuleClosure.dfy`, `ProfileFold.dfy`).

`Options.dfy` is the optional value that they share.

Where a claim in the source or its comments turned out not to hold, the model keeps the code's behaviour, gives an input
and proves when the claim does hold:

- `LeastSquaresTheory.ZeroColumnHidesTheNext`: the comment at `statistics.ts:1045-1049` says that a scaled diagonal entry
  is 0 exactly for a linear combination of the columns before it, and that the diagonal is the part of the column
  orthogonal to them; behind a zero column an independent column scores 0 too. `RankGate.ScoresZeroExactlyInSpan` and
  `RankGate.DiagonalIsDistance`: both hold, for every column that may stand there, exactly when the columns before are
  independent, that is, when none of them scores 0.
- `RankGate.OrderMatters`: `statistics.ts:977-979` and `1056-1063` say that the rank gate depends neither on units nor on
  the order of the columns. On units it never does (`RankGate.UnitsDoNotMatter`). On the order it does not with at most
  two columns, at any tolerance, and so not for the fit of CPU time over an intercept and mebibytes at
  `workload-ceiling-aggregate.ts:573-585`. With three or more columns it does not at tolerance 0 or from 1 on, and does
  at every tolerance between, so at the source's tolerance as well (`RankGate.OrderMattersExactly`).
- `ParsedValues.ForbiddenAuthorityIsRefused`: a sweep report may carry anything as cleanup authority, so a report that
  passes every check can still fail to decode. `WireRecords.SweepReportsAreSerializableExactly`: it is serialized exactly
  when every authority is nested at most 253 deep and has no member `__proto__` anywhere. The other kinds of record
  always are (`WireRecords.FlatRecordsAreSerializable`).
- `ParsedValues.HashedAndNeverEmitted`: `canonical-json.ts:389-391` says that `sha256Hex` accepts exactly the strings
  that `canonicalJson` can emit. It accepts all of them (`CanonicalTheory.CanonicalTextIsIjson`), and `abc` besides.
  `ParsedValues.EmittedExactly`: what can be emitted is exactly what a codec without further checks decodes.
- `ConcatenatedJson.ListIsTakenApart`: `analyze.ts:45` splits a stream of JSON values, yet of `1[{}]` it gives an empty
  object. `ConcatenatedJson.SplitsExactlyObjects`: the values come out exactly when all of them are objects.
- `LogRuns.HazardExactly`: a compaction that moves `tail_hint` while a writer stands between its log object and its fresh
  read lets that writer advance past a slot that was never written, exactly then.
- `LogRuns.BlockedExactly`: a writer killed between its log object and its compare-and-swap blocks every other writer
  until a compaction.
- `LogRuns.StaleRecordLeavesAHole`: `sigkill-child.ts:59-61` calls a stale `current.json` harmless; over the record of the
  trial before, the tail passes a slot that nobody wrote. `LogRuns.ChildNeedsTheFirstFreeSlot`: the log stays dense
  exactly when the child's slot is the first free one.
- `ConcatenatedJson.StrayBrace`: after one closing brace too many the next object is lost;
  `ConcatenatedJson.SafeExactlyBetweenObjects`: every object that may follow is recovered exactly when every string before
  it is closed and the braces outside strings balance.
- `EvidenceGate.DeploymentKeysCollide`: the deployment key joins two strings with a bar that the first may contain, so
  mixed deployments can pass for one. `EvidenceGate.DeploymentKeysTellApart`: two dates are told apart exactly when
  neither of them, with a bar, begins the other.
- `EvidenceGate.InheritedOutcomeIsLost`: the outcome histogram is a plain object, so an outcome named like an inherited
  member of it is not counted. `EvidenceGate.BuildCellSummary`: the histogram sums to the authoritative count less the
  events with such outcomes.
- `EvidenceGate.UnlistedWorkIsLost`: invocations of a scenario that is not among the listed cells, planned and never
  collected, let the capture pass. `EvidenceGate.OnlyListedWorkIsGated`: a report accounts for all work exactly when every
  scenario that has any is listed.
- `CollectRetry.FlagIsLost`: a run that resolves without its CPU row and is queried again is not reported as newly
  resolved. `CollectRetry.FlagSurvivesExactly`: the flag survives exactly when the answer that resolved the run finished
  it or was the last one allowed.
- `CaptureRun.LostRunIsRunAgain`: an invocation cut from its append is invoked again by the next process.
  `CaptureRun.RunsAreRecordedOrLost`: every invocation runs once exactly when no process was cut there.
- `CaptureSchedule.RestartSharesAWindow`: windows are disjoint within one process only.

Assumptions shared by the storage models: a call takes effect between its dispatch and its settlement or not at all,
except that in the journal an effect may repeat; a conflict means no effect; a compare-and-swap is a conditional PUT on
the ETag that was read, and ETags are never reused; create-if-absent succeeds at most once while a key exists.

## Model

| member | source | states |
|---|---|---|
| JournalRuns.SnapshotIsExact | bench/measurement/storage-journal.ts:641-660 | whenever no call is in flight, a key that is not uncertain is recorded exactly when the backend has it, with the backend's length, and an uncertain key is not recorded |
| JournalRuns.UncertainExactlyWhenTainted | bench/measurement/storage-journal.ts:438-471 | a key is uncertain exactly when, since its last isolated success or provisioning, one of its mutations overlapped another in time or failed with anything but a conflict |
| JournalRuns.EveryRunKeepsInvariant | bench/measurement/storage-journal.ts:426-564 | every interleaving of dispatches, backend effects, settlements and provisioning keeps the invariant that ties rows, flags, entries and uncertain keys to the history and the backend |
| JournalRuns.DispatchKeeps | bench/measurement/storage-journal.ts:413-436 | entering a call keeps that invariant |
| JournalRuns.EffectKeeps | bench/measurement/storage-journal.ts:494-564 | a mutation taking effect at the backend at any moment of its flight keeps it |
| JournalRuns.SettleKeeps | bench/measurement/storage-journal.ts:438-564 | settling a call with any result keeps it |
| JournalRuns.ProvisionKeeps | bench/measurement/storage-journal.ts:662-676 | truthful provisioning while nothing is in flight keeps it |
| JournalRuns.ProvisionWrites | bench/measurement/storage-journal.ts:662-676 | provisioning makes journal and backend agree on every key it names, and leaves every other key alone |
| JournalRuns.InFlightTogether | bench/measurement/storage-journal.ts:426-436 | two mutations in flight on one key are both flagged as overlapping |
| StorageJournal.Journaled.DispatchMutation | bench/measurement/storage-journal.ts:413-436 | the new journal value is the model's, with every row already active on the key marked in place and the new row registered |
| StorageJournal.Journaled.DispatchRead | bench/measurement/storage-journal.ts:413-422 | a GET or LIST opens a row that is never flagged and marks nothing |
| StorageJournal.Journaled.SettleRead | bench/measurement/storage-journal.ts:474-492 | its settlement closes the row and changes no claim about any key |
| StorageJournal.Journaled.BeginMutation | bench/measurement/storage-journal.ts:426-436 | marks exactly the rows registered on the key, and the new row exactly when there were any |
| StorageJournal.Journaled.FinishMutation | bench/measurement/storage-journal.ts:438-450 | unregisters the row and reports isolation; an overlapped row drops the entry and makes the key unknown |
| StorageJournal.Journaled.SettlePut | bench/measurement/storage-journal.ts:494-545 | a PUT's settlement, by success or any error, is the model's settlement |
| StorageJournal.Journaled.SettleDelete | bench/measurement/storage-journal.ts:547-564 | so is a DELETE's |
| StorageJournal.Journaled.RecordProvisioned | bench/measurement/storage-journal.ts:662-676 | refuses exactly while a call is in flight, else records every given length and clears the key's uncertainty |
| StorageJournal.Journaled.PendingOperations | bench/measurement/storage-journal.ts:612-616 | lists exactly the calls in flight, in dispatch order |
| StorageJournal.Journaled.SnapshotNamespace | bench/measurement/storage-journal.ts:641-660 | is given only while nothing is in flight, and holds exactly the entries and the union of both kinds of uncertain keys |
| StorageJournal.Journaled.BillingSummary | bench/measurement/storage-journal.ts:678-693 | every settled call is counted in exactly one billing class, pending ones in none |
| InnerProducts.ReflectionPreservesDot | bench/measurement/statistics.ts:1003-1043 | reflecting two vectors in one mirror keeps their inner product |
| InnerProducts.GramDecides | bench/measurement/statistics.ts:1003-1043 | matrices with equal inner products of columns give every combination of columns the same inner product with every other |
| LeastSquares.FactorKeepsGram | bench/measurement/statistics.ts:1003-1043 | the whole factorisation keeps all inner products of columns and of the response |
| LeastSquares.FactorIsTriangular | bench/measurement/statistics.ts:1003-1043 | its result is upper triangular |
| LeastSquaresTheory.SolvedIsOrthogonal | bench/measurement/statistics.ts:1079-1093 | solving the triangle makes the residuals orthogonal to every design column |
| LeastSquaresTheory.SolvedIsUniqueMinimum | bench/measurement/statistics.ts:1079-1093 | its coefficients minimise the residual sum of squares over all vectors, and no other vector does |
| LeastSquaresTheory.BackSubstitutionSolves | bench/measurement/statistics.ts:1079-1086 | rows solved one at a time from the last are all solved |
| LeastSquaresTheory.IndependentExactlyWhenNonsingular | bench/measurement/statistics.ts:1045-1077 | the design columns are independent exactly when no diagonal entry is zero |
| LeastSquaresTheory.ScaledRange | bench/measurement/statistics.ts:1045-1066 | every scaled diagonal entry lies in [0,1] and is zero exactly where the diagonal is |
| LeastSquaresTheory.SpanScoresZero | bench/measurement/statistics.ts:1045-1049 | a linear combination of the columns before it always scores zero |
| LeastSquaresTheory.ZeroColumnHidesTheNext | bench/measurement/statistics.ts:1045-1049 | a design with a zero column whose next column scores zero without being in its span |
| RankGate.ScoresZeroExactlyInSpan | bench/measurement/statistics.ts:1045-1049 | zero means a linear combination of the columns before, whatever column stands there, exactly when those are independent, which is when none of them scores zero |
| RankGate.DiagonalIsDistance | bench/measurement/statistics.ts:1045-1049 | the diagonal entry is the distance of the column from the span of those before, whatever column stands there, exactly when those are independent |
| RankGate.HiddenColumn | bench/measurement/statistics.ts:1003-1043 | behind dependent columns there is always a column that scores zero and is no combination of them, found by running the reflections backwards from an axis |
| RankGate.UnitsDoNotMatter | bench/measurement/statistics.ts:977-979 | measuring the columns in other units changes no score of any design, singular or not |
| RankGate.OrderDoesNotMatterAtZero | bench/measurement/statistics.ts:977-979 | at tolerance zero a design is singular in every order of its columns or in none |
| RankGate.OrderMatters | bench/measurement/statistics.ts:1056-1063 | at any tolerance between 0 and 1 and for any number of columns from three on, some design is singular in one order of its columns and of full rank in another |
| RankGate.TwoColumnsSwap | bench/measurement/statistics.ts:1056-1063 | listing two columns the other way round never changes the verdict |
| RankGate.OrderMattersExactly | bench/measurement/statistics.ts:1056-1063 | for designs of n columns no verdict depends on their order exactly when n is at most 2, or the tolerance is 0 or at least 1 |
| LeastSquaresTheory.InterceptBeatsConstant | bench/measurement/statistics.ts:890-895 | with a constant nonzero column the fit is no worse than any constant, so r squared is not negative |
| OlsQr.Ols | bench/measurement/statistics.ts:987-1124 | rejects exactly malformed input, naming the field; reports singular exactly when some score is within the tolerance, with the number of larger scores as rank; otherwise returns the unique minimiser with its residuals, sums of squares, r squared, error, condition estimate and intercept flag |
| OlsQr.Factorise | bench/measurement/statistics.ts:1003-1043 | the loops that overwrite matrix and response in place compute the factorisation |
| OlsQr.BackSubstitute | bench/measurement/statistics.ts:1079-1086 | the loop returns coefficients that solve the triangle |
| OlsQr.CheckInput | bench/measurement/statistics.ts:930-970 | names the field at fault, columns before rows, exactly when there is one |
| OlsQr.Rank | bench/measurement/statistics.ts:1061-1072 | counts the scores above the tolerance, short of all exactly when one is not above it |
| OlsQr.ConditionEstimate | bench/measurement/statistics.ts:1073-1077 | largest score over smallest, at least 1 |
| OlsQr.InterceptPresent | bench/measurement/statistics.ts:1099-1105 | true exactly when some column is constant and nonzero |
| OlsQr.DiagonalDecides | bench/measurement/statistics.ts:1045-1077 | nonzero scores, a nonsingular triangle and an independent design are one condition |
| UnicodeText.AssertIjsonString | bench/measurement/canonical-json.ts:156-177 | the scan accepts exactly the UTF-16 encodings of scalar sequences without noncharacters |
| UnicodeText.Utf8Injective | bench/measurement/canonical-json.ts:371-395 | UTF-8 gives different scalar sequences different bytes |
| UnicodeText.AcceptedBytesDecideString | bench/measurement/canonical-json.ts:397-403 | two accepted strings are hashed over the same bytes only when they are equal |
| UnicodeText.LoneSurrogateCollides | bench/measurement/canonical-json.ts:374-378 | without the check every unpaired surrogate would be hashed like U+FFFD |
| JsonText.ValueReadsBack | bench/measurement/canonical-json.ts:272-339 | whatever text follows, a parser reads a printed value back and stops at its end |
| JsonText.ParseUndoesPrint | bench/measurement/canonical-json.ts:250-340 | parsing a printed document gives the value |
| JsonText.PrintInjective | bench/measurement/canonical-json.ts:250-340 | equal texts come from equal values |
| JsHeap.ArrayIndexExactly | bench/measurement/canonical-json.ts:179-192 | a key is an array index exactly when it is the decimal numeral of a number below the length |
| JsHeap.OneOrder | bench/measurement/canonical-json.ts:146-154 | a set of properties has one order sorted by UTF-16 code units |
| CanonicalTheory.InspectAdmits | bench/measurement/canonical-json.ts:194-248 | the checks on one object pass exactly when it is plain or an array, has no symbol key, only enumerable data properties with I-JSON keys, no forbidden key, and as an array no hole and no extra property |
| CanonicalTheory.FirstHoleIsLeast | bench/measurement/canonical-json.ts:299-304 | the hole reported is the first |
| CanonicalTheory.AcceptsExactly | bench/measurement/canonical-json.ts:250-369 | a value is accepted exactly when it stands for a JSON tree nested at most 256 deep, and its text is that tree's |
| CanonicalTheory.CyclesAreRejected | bench/measurement/canonical-json.ts:295-297 | no value on a cycle is accepted, however long the cycle |
| CanonicalTheory.ChainsAreShort | bench/measurement/canonical-json.ts:70-83 | chains of references from an accepted value are no longer than the depth limit allows |
| CanonicalTheory.InsertionOrderInvisible | bench/measurement/canonical-json.ts:204-213 | the text, and on rejection the reason and the path, do not depend on property insertion order |
| CanonicalTheory.CopiesAcceptedAlike | bench/measurement/canonical-json.ts:342-359 | a shared or even cyclic graph and its copy are accepted alike, with the same text |
| CanonicalTheory.SharingInvisible | bench/measurement/canonical-json.ts:306-339 | without cycles a shared object gives the text, reason and path of separate copies |
| CanonicalTheory.ReadsBack | bench/measurement/canonical-json.ts:342-369 | a JSON parser reads the accepted text back as the tree the value stands for |
| CanonicalTheory.SameTextSameValue | bench/measurement/canonical-json.ts:342-369 | equal texts come from values that are equal up to key order |
| CanonicalTheory.MembersAreProperties | bench/measurement/canonical-json.ts:327-336 | the tree of a plain object has its properties as members, once each, in key order |
| CanonicalTheory.CanonicalTextIsIjson | bench/measurement/canonical-json.ts:389-403 | canonical text is in the string domain that the hash accepts, which is the half of the comment that holds |
| CanonicalTheory.SameBytesSameValue | bench/measurement/canonical-json.ts:397-406 | two accepted values are hashed over the same bytes only when they are equal up to key order |
| CanonicalJson.CheckProperties | bench/measurement/canonical-json.ts:194-248 | the loop reports the first fault in key order, with the first applicable reason, or all properties in key order |
| CanonicalJson.Serializer.Serialize | bench/measurement/canonical-json.ts:250-340 | computes the modelled outcome and restores the set of ancestors on every exit |
| CanonicalJson.CanonicalText | bench/measurement/canonical-json.ts:360-369 | starts with no ancestors at depth 0 |
| WireCodec.DecodesExactly | bench/measurement/workload-ceiling-harness.ts:363-371 | for any test of values, a text decodes to a value exactly when the value is normal, passes, can be serialized, and the text is its canonical one |
| WireCodec.DecodeUndoesEncode | bench/measurement/workload-ceiling-harness.ts:351-371 | decoding what was encoded gives the record back, its members in key order |
| WireCodec.OneTextPerRecord | bench/measurement/workload-ceiling-harness.ts:655-672 | encoding what was decoded gives the text back, so each record has one accepted text |
| WireCodec.OtherOrdersAreRefused | bench/measurement/workload-ceiling-harness.ts:357-371 | repeated or reordered members and other spellings of a number are refused |
| WireCodec.NormalIsNormal | bench/measurement/workload-ceiling-harness.ts:293-308 | what a parsed text stands for has its members in strict key order, the last of each key, and I-JSON strings |
| WireRecords.AssertExactFields | bench/measurement/workload-ceiling-harness.ts:260-285 | passes exactly equal sets of names, and otherwise reports the first unknown key, else the first missing field |
| WireRecords.RecordsHaveOneText | bench/measurement/workload-ceiling-harness.ts:318-371 | run requests, fixture descriptors, sweep reports, invocation records and raw events: what decodes passes its checks and can be serialized, and two accepted texts are equal exactly when their listed fields are |
| WireRecords.FlatRecordsAreSerializable | bench/measurement/workload-ceiling-harness.ts:293-299 | run requests, fixture descriptors, invocation records and raw events that pass their checks are never refused by the serializer |
| WireRecords.SweepReportsAreSerializableExactly | bench/measurement/workload-ceiling-harness.ts:842-860 | a sweep report that passes its checks is serialized exactly when every cleanup authority is nested at most 253 deep and has no forbidden key |
| ParsedValues.SerializesExactly | bench/measurement/canonical-json.ts:239-253 | the canonical serializer accepts the objects of a parsed text exactly when no member is called `__proto__` and nothing is nested more than 256 deep, and gives the text the codecs compare with |
| ParsedValues.ParsedSomewhere | bench/measurement/workload-ceiling-harness.ts:293-308 | every value that a text can stand for is held by some objects of the platform |
| ParsedValues.ReportDecodesExactly | bench/measurement/workload-ceiling-harness.ts:842-860 | a report with any cleanup authority passes every check; its text decodes exactly when the authority fits, and is otherwise refused as not representable |
| ParsedValues.ForbiddenAuthorityIsRefused | bench/measurement/workload-ceiling-harness.ts:293-299 | such a report is refused when its authority has a member `__proto__` |
| ParsedValues.EmittedExactly | bench/measurement/canonical-json.ts:342-369 | the serializer can emit exactly the texts that a codec without further checks decodes |
| ParsedValues.HashedAndNeverEmitted | bench/measurement/canonical-json.ts:389-403 | `abc` is accepted by the hash and emitted for no value |
| ConcatenatedJson.ParseStream | bench/cpu-factor-worker/analyze.ts:46-85 | the loop computes the scanner's output |
| ConcatenatedJson.RecoversTheObjects | bench/cpu-factor-worker/analyze.ts:46-85 | from objects in any JSON spelling, separated by white space or anything without quotes and braces, exactly those objects come out in order |
| ConcatenatedJson.EmitsTheObjects | bench/cpu-factor-worker/analyze.ts:45-85 | from a stream of any JSON values the objects come out in order, those inside top-level lists one by one, and nothing else |
| ConcatenatedJson.SplitsExactlyObjects | bench/cpu-factor-worker/analyze.ts:45-85 | the values of the stream come out, no more and no less, exactly when every one is an object |
| ConcatenatedJson.ListIsTakenApart | bench/cpu-factor-worker/analyze.ts:45-85 | of `1[{}]` an empty object comes out |
| ConcatenatedJson.PrintedObjectIsFound | bench/cpu-factor-worker/analyze.ts:46-85 | the printed text of any object is such an object |
| ConcatenatedJson.BracedPasses | bench/cpu-factor-worker/analyze.ts:53-82 | between an object's braces the scanner is undisturbed by quotes, backslashes and braces in strings and by nested objects |
| ConcatenatedJson.SplitsAtNeutralPoints | bench/cpu-factor-worker/analyze.ts:46-85 | at any point between objects the stream may be cut and scanned in parts |
| ConcatenatedJson.CollectsExactlyInside | bench/cpu-factor-worker/analyze.ts:67-81 | a text is being collected exactly while the depth is positive |
| ConcatenatedJson.BetweenExactlyBalanced | bench/cpu-factor-worker/analyze.ts:53-82 | the scanner is between objects exactly when every string is closed and the braces outside strings balance |
| ConcatenatedJson.SafeExactlyBetweenObjects | bench/cpu-factor-worker/analyze.ts:72-81 | every object that may follow a prefix is recovered exactly when the strings of the prefix are closed and its braces balance |
| ConcatenatedJson.StrayBrace | bench/cpu-factor-worker/analyze.ts:72-81 | one closing brace too many leaves that state |
| LogRuns.RunsAreSafe | bench/r2-contention.ts:563-628 | in every run without the hazard, with crashes anywhere, each visible slot has a log object, at most one lies at or above the tail and it is at the tail, the tail counts what advanced it, and no safety check misses |
| LogRuns.TailCountsCommits | bench/r2-contention.ts:607-612 | without compaction the tail is its seed plus the compare-and-swaps that took effect |
| LogRuns.LogKeeps | bench/r2-contention.ts:589-605 | creating a log object keeps the invariant, by which it lies at the tail and no other writer is about to advance it |
| LogRuns.SwapKeeps | bench/r2-contention.ts:607-612 | a compare-and-swap that takes effect keeps the invariant: the tail passes a slot that is filled |
| LogRuns.HazardExactly | packages/server/src/compactor.ts:562-588 | a compaction that moves the tail to a free slot can be followed by a hole exactly when a writer stands between its log object and its read |
| LogRuns.BlockedExactly | bench/r2-contention.ts:629-634 | short of a compaction no commit is possible any more exactly when the next slot is orphaned or all writers have stopped |
| LogRuns.CrashAfterLogOrphans | bench/sigkill-child.ts:103-114 | killed between its log object and its swap, a writer orphans the next slot |
| LogRuns.CompactionUnblocks | packages/server/src/compactor.ts:562-588 | a compaction past the orphan frees the writers and keeps the invariant |
| LogRuns.ChildNeedsTheFirstFreeSlot | bench/sigkill-child.ts:56-114 | over any log dense from some slot on, whatever else `current.json` says, the child leaves it dense and edged exactly when its slot is the first free one |
| LogRuns.StaleRecordLeavesAHole | bench/r2-contention.ts:394-481 | over the record of the trial before, its log objects deleted, the tail passes slot 10000 that nobody wrote; over the record of its own trial it does not |
| LogRuns.ChildKilledAfterLog | bench/sigkill-child.ts:89-107 | killed after its second step, over any log, the child leaves content and log object and changes nothing else; the next slot is then orphaned exactly when it is taken and no other writer is about to advance the tail |
| LogBench.Bench.Advance | bench/r2-contention.ts:563-644 | each storage call of the writer loop changes bucket, phase and counters as the model says |
| LogBench.Bench.Kill | bench/sigkill-child.ts:1-13 | a killed writer stops where it is and storage stays as it is |
| LogBench.Bench.Fold | packages/server/src/compactor.ts:313-334 | the forward probe stops at the first free slot from the stored tail on, and folds at most the given number of entries |
| FenceRuns.NothingReachableIsDeleted | docs/adr/007-chunked-snapshot-layout.md:366-372 | with any number of publishers and collectors, stopped anywhere, whatever the head reaches is stored |
| FenceRuns.DeletesAreSafe | docs/adr/007-chunked-snapshot-layout.md:366-372 | a key that a collector may delete is unreachable in every continuation of the run |
| FenceRuns.StepKeeps | bench/measurement/workload-ceiling-journals.ts:344-763 | every step of every publisher and collector keeps the protocol invariant |
| FenceRuns.FenceKeeps | docs/adr/007-chunked-snapshot-layout.md:366-372 | a won fence keeps the invariant, in which its candidates are dead: unreachable from the head and from every attempt that can still win |
| FenceRuns.SwapKeeps | bench/measurement/workload-ceiling-journals.ts:344-412 | a publisher that wins keeps the invariant: what it makes live is stored, and nothing condemned becomes live |
| FenceRuns.FenceDefeatsEarlierAttempts | docs/adr/007-chunked-snapshot-layout.md:368-370 | after a won fence every attempt that had captured the head before it, however far it had come, loses its compare-and-swap whenever it comes |
| FenceRuns.EtagsNeverReturn | bench/measurement/workload-ceiling-journals.ts:401-410 | a head ETag that has been left is never the head's again |
| FenceRuns.OnlyFencesCountEpochs | docs/adr/007-chunked-snapshot-layout.md:334-340 | only a fence changes the epoch, by exactly one, keeping the snapshot |
| FenceRuns.NoFenceNoDelete | bench/measurement/workload-ceiling-journals.ts:666-697 | a run in which no fence wins deletes nothing |
| FenceRuns.ExhaustionFailsClosed | bench/measurement/workload-ceiling-journals.ts:755-763 | at the largest safe integer there is no further fence and no delete |
| FenceRuns.BatchesOnlyShrink | docs/adr/007-chunked-snapshot-layout.md:361-364 | in every run, from any moment until its completion, a persisted batch only shrinks; no resume widens it |
| FenceRuns.EveryDeleteHasItsFence | docs/adr/007-chunked-snapshot-layout.md:342-360 | in every run a delete is preceded by a fence the same collector won and by its persisting of that authority, which names the key and nothing live; in between it does nothing else, and since then only deletes |
| FenceJournals.CasWinJournal | bench/measurement/workload-ceiling-journals.ts:344-412 | the model has a run whose publisher, from idle, makes the calls of the cas-win journal and wins, with as many chunks as it likes |
| FenceJournals.CasLossJournal | bench/measurement/workload-ceiling-journals.ts:414-523 | from any initial world, one with the calls of the cas-loss journal, lost to a publisher that opened the same head, whose second attempt wins with a fresh incarnation |
| FenceJournals.FenceWinJournal | bench/measurement/workload-ceiling-journals.ts:617-664 | from any initial world with two such keys, one whose collector lists and makes the calls of the fence-win journal, which removes exactly the two candidates |
| FenceJournals.FenceConflictJournal | bench/measurement/workload-ceiling-journals.ts:666-697 | from any initial world, one whose collector lists and makes the calls of the fence-conflict journal, after a publisher that wrote its attempt swaps first; it removes nothing |
| FenceJournals.FenceResumeJournal | bench/measurement/workload-ceiling-journals.ts:699-753 | from any initial world, one whose collector stops half way through its batch and then makes the calls of the fence-resume journal, fenced again before its delete |
| FenceJournals.FenceExhaustedJournal | bench/measurement/workload-ceiling-journals.ts:755-763 | from any initial world at the last epoch, one whose collector lists and makes the calls of the fence-exhausted journal, which changes nothing |
| FenceJournals.OrphanMarkJournal | bench/measurement/workload-ceiling-journals.ts:595-615 | and one with the calls of the orphan-mark journal, which deletes nothing |
| DeleteAuthority.ValidatesArtifactDeleteAuthority | bench/measurement/workload-ceiling-journals.ts:139-173 | accepts exactly: epoch and ETag of the fenced head, a clean prefix, a nonempty strictly ascending list of artifact keys of that collection, and the digest of the tuple |
| DeleteAuthority.OneCollection | bench/measurement/workload-ceiling-journals.ts:123-137 | no key is an artifact of two collections |
| DeleteAuthority.NamesOnlyItsOwnArtifacts | bench/measurement/workload-ceiling-journals.ts:160-171 | an accepted authority names each key once, none of another collection and never a head or a pending record |
| CapturePlan.SlotKeysNeverCollide | bench/measurement/workload-ceiling-capture.ts:97-107 | slot keys of different slots differ, whatever the scenario id contains |
| CapturePlan.PlanCaptureInvocations | bench/measurement/workload-ceiling-capture.ts:68-95 | the triple loop builds the plan that its positions determine |
| CapturePlan.PlanIsRoundRobin | bench/measurement/workload-ceiling-capture.ts:55-67 | every pass visits every arm and cell once, a round apart, the warm-ups first |
| CapturePlan.LargerPlanExtends | bench/measurement/workload-ceiling-capture.ts:68-95 | a larger measured count extends the plan |
| CapturePlan.RemainingCaptureInvocations | bench/measurement/workload-ceiling-capture.ts:123-141 | the counting filter leaves what the multiset of recorded slots does not take |
| CapturePlan.ResumeDropsTheFirst | bench/measurement/workload-ceiling-capture.ts:109-122 | for any journal, a resume drops the first n invocations of a slot with n records |
| CapturePlan.ResumeKeepsOrder | bench/measurement/workload-ceiling-capture.ts:109-122 | and keeps the planned order of the rest |
| CapturePlan.ResumeAfterPrefix | bench/measurement/workload-ceiling-capture.ts:109-122 | a journal of the first n planned invocations leaves exactly the others |
| CaptureSchedule.NextInvocationStart | bench/measurement/workload-ceiling-harness.ts:1055-1089 | returns the least instant not before now, 70 s after the previous start, and outside the last ten seconds of a minute |
| CaptureSchedule.WindowHoldsTheStart | bench/measurement/workload-ceiling-harness.ts:1091-1106 | a legal start and the ten seconds after it lie in its window |
| CaptureSchedule.RestartSharesAWindow | bench/measurement/workload-ceiling-capture.ts:459-473 | a restarted process begins in an earlier start's window exactly when the clock is still in that minute, before its last ten seconds |
| CaptureRun.RunCapture | bench/measurement/workload-ceiling-capture.ts:459-517 | one process appends the first remaining invocations, each at its least legal start, until done, refused or killed at any step; the worker ran what was appended and at most one invocation more, exactly when the process was cut before its append |
| CaptureRun.WindowsAreSound | bench/measurement/workload-ceiling-capture.ts:403-417 | within one process the windows are pairwise disjoint and each holds its start and ten seconds more |
| CaptureRun.SessionExtendsPrefix | bench/measurement/workload-ceiling-capture.ts:448-449 | a session on a journal that is a prefix of the plan leaves a longer prefix |
| CaptureRun.LostRunIsRunAgain | bench/measurement/workload-ceiling-capture.ts:459-517 | the invocation that a cut process did not append is the first that the next one runs |
| CaptureRun.RunsAreRecordedOrLost | bench/measurement/workload-ceiling-capture.ts:1-9 | over any number of processes the worker ran what is recorded and at most one lost invocation for each; nothing more exactly when none was cut before an append |
| CaptureRun.JournalIsAlwaysAPrefix | bench/measurement/workload-ceiling-capture.ts:448-517 | after any number of crashes and resumes, whatever the measured count of each, the journal is a prefix of the largest plan |
| CollectRetry.CollectWithRetry | bench/measurement/workload-ceiling-collect-batch.ts:274-387 | the queries are those the answers call for, with one sleep between passes; each run is reported with its last answer, or what was on disk, with as many attempts as queries, as a success exactly when there is an event, and as newly resolved exactly when its last answer resolved it; an unfinished one has all attempts used |
| CollectRetry.FinishedRunsAreLeftAlone | bench/measurement/workload-ceiling-collect-batch.ts:264-272 | a run finished on disk is never queried, any other at least once and at most retries + 1 times |
| CollectRetry.AskedAgainOnlyUnfinished | bench/measurement/workload-ceiling-collect-batch.ts:257-268 | a run is queried again only after an answer that did not finish it |
| CollectRetry.FlagSurvivesExactly | bench/measurement/workload-ceiling-collect-batch.ts:361-372 | a run that some query resolved is reported as newly resolved exactly when that answer finished it or was the last one allowed |
| CollectRetry.FlagIsLost | bench/measurement/workload-ceiling-collect-batch.ts:361-372 | a run on disk without evidence that resolves without its CPU row and then completely is not reported as newly resolved |
| CollectRetry.RetriesHaveWork | bench/measurement/workload-ceiling-collect-batch.ts:269-270 | no pass after the first, and so no sleep, is without something to query |
| EvidenceGate.AssessExecution | bench/measurement/workload-ceiling-compare.ts:142-212 | counts every event in its class, fails exactly on a resolved event without an outcome, and its histogram counts every outcome that is not an inherited name |
| EvidenceGate.CountsPartition | bench/measurement/workload-ceiling-compare.ts:113-132 | resolved, missing and ambiguous events are all the events; failures and successes are the resolved ones |
| EvidenceGate.BuildCellSummary | bench/measurement/workload-ceiling-aggregate.ts:288-381 | a cell is summarised exactly when one deployment served it, planned equals collected, all evidence resolved, and the floor was planned; then planned, collected and authoritative agree, failures are the rest of the successes, the CPU samples are the usable measurements, and the histogram misses exactly the outcomes with inherited names |
| EvidenceGate.InheritedOutcomeIsLost | bench/measurement/workload-ceiling-compare.ts:142-201 | a sound cell of any number of events with outcome `constructor` has a histogram that counts none |
| EvidenceGate.BuildAxisReport | bench/measurement/workload-ceiling-aggregate.ts:645-697 | a report is made exactly when every listed cell of every arm passes, and has one sound entry for each listing of a cell in which the arm planned or collected anything, and no other |
| EvidenceGate.UncollectedArmIsRefused | bench/measurement/workload-ceiling-aggregate.ts:660-670 | an arm planned for a listed cell and never collected cannot pass |
| EvidenceGate.OnlyListedWorkIsGated | bench/measurement/workload-ceiling-aggregate.ts:676-686 | a report has an entry for all the work of the capture exactly when every scenario that has any is listed |
| EvidenceGate.UnlistedWorkIsLost | bench/measurement/workload-ceiling-aggregate.ts:676-686 | a capture whose planned invocation of an unlisted scenario was never collected passes, with no entry for it |
| EvidenceGate.DeploymentKeysTellApart | bench/measurement/workload-ceiling-compare.ts:63-65 | the keys of two dates are told apart for all versions exactly when neither date, followed by the separator, begins the other |
| EvidenceGate.PlainDatesAreToldApart | bench/measurement/workload-ceiling-compare.ts:63-65 | so dates without the separator always are |
| EvidenceGate.DeploymentKeysCollide | bench/measurement/workload-ceiling-compare.ts:63-65 | with a separator in a date a cell of two deployments can pass for one |
| EvidenceGate.ReadEvents | bench/measurement/workload-ceiling-compare.ts:540-560 | gives the events of all the files in order, each with an outcome and a version exactly when its evidence resolved, or none when some file does not decode |
| OrderStatistics.NearestRankIsLeast | bench/measurement/statistics.ts:329-337 | the quantile is the least sample value that a share q of the sample does not exceed, with at least rank values not above it and n - rank + 1 not below it |
| OrderStatistics.R7WithinRange | bench/measurement/statistics.ts:339-353 | R-7 quantiles lie between the least and the greatest value |
| OrderStatistics.R7ReachesEnds | bench/measurement/statistics.ts:339-353 | and reach both at q = 0 and q = 1 |
| OrderStatistics.R7IsMonotone | bench/measurement/statistics.ts:339-353 | and do not decrease in q |
| OrderStatistics.IntervalIsOrdered | bench/measurement/statistics.ts:466-477 | a percentile interval is ordered and inside any bounds of its replicates |
| Bootstrap.DrawWithReplacement | bench/measurement/statistics.ts:479-490 | takes one draw per position, in order, each naming a member of the source |
| Bootstrap.BootstrapReplicates | bench/measurement/statistics.ts:573-588 | replicate r is the statistic of the r-th block of draws from one generator |
| Bootstrap.StatisticWithin | bench/measurement/statistics.ts:530-541 | mean and quantiles of a sample lie within its bounds |
| Bootstrap.BootstrapStaysInRange | bench/measurement/statistics.ts:590-600 | whatever is drawn, the interval is ordered and inside the range of the sample |
| Bootstrap.GroupStrata | bench/measurement/statistics.ts:683-700 | refuses the first pair with a blank stratum, else groups the differences by stratum in order of first appearance |
| Bootstrap.GroupingConserves | bench/measurement/statistics.ts:683-700 | grouping loses and invents no difference |
| Bootstrap.StratifiedSample | bench/measurement/statistics.ts:710-717 | each stratum is resampled within itself, in order |
| Bootstrap.StratifiedReplicateWithin | bench/measurement/statistics.ts:702-720 | every replicate keeps each stratum's count, and its mean lies between the count-weighted bounds of the strata |
| ModuleClosure.Walker.Collect | scripts/bundle-measure.ts:39-53 | adds only reachable files, leaves everything added closed under imports, and fails exactly by reaching a missing file |
| ModuleClosure.Closure | scripts/bundle-measure.ts:39-53 | from an empty set the walk ends with exactly the reachable files, or fails exactly when one is missing |
| ProfileFold.ChainIsTheAncestors | bench/measurement/fold-cpu-profile.ts:49-81 | the stack walked for a sample is the node and all its ancestors, also when the links run in a circle |
| ProfileFold.AddSample | bench/measurement/fold-cpu-profile.ts:45-83 | adds the weight to the sampled frame's self time and once to the inclusive time of every frame on the stack, or reports an unknown node |
| ProfileFold.StackIsWalkedExactly | bench/measurement/fold-cpu-profile.ts:49-81 | the stack of a sample can be walked exactly when some node has the sampled id, whatever the links |
| ProfileFold.SummarizeProfile | bench/measurement/fold-cpu-profile.ts:24-90 | fails exactly when some sampled id is no node's, naming the first; otherwise self and inclusive times are the sums over the samples, and the self times sum to the sampled time |
| ProfileFold.SelfSumsToSampled | bench/measurement/fold-cpu-profile.ts:72-74 | over any list of all the frames the self weights sum to the sampled time |
| ProfileFold.SelfWithinInclusive | bench/measurement/fold-cpu-profile.ts:72-80 | with no negative delta, self is at most inclusive and inclusive at most the sampled time |

## Left out

- Networks, files, processes, timers, command lines and report printing; SHA-256 is a function parameter where it appears.
- The storage journal's digests, request options, signal names, error details and frozen copies, and the sorted order of the lists in its snapshots.
- Floating point: `olsQr`, quantiles, means and bootstraps are over exact reals, with a square root as a parameter and a tolerance that is not negative in place of the machine epsilon. Number printing: a number is its numeral, so -0 and 0 coincide.
- Canonical JSON: the text of a path (a path is a sequence of steps), Proxies, and engine errors for outputs that are too long. Lone surrogates are never printed, since strings are checked first.
- Codecs: numbers that are not finite, and JSON.parse's evaluation of numerals, are a parameter; which check fails first.
- The compactor beyond its effect on `current.json`, garbage collection of log slots, and the `s1Writer` loop, which is the compare-and-swap alone.
- The expected journals' keys, digests and bodies; the bounded-list-page journal, which is two listings; the storage-retry journal, whose repeated PUT the model takes for the one that succeeds.
- The seven-day grace and listing order of artifact discovery: a collector may select any stored keys.
- CaptureRun.RunCapture: a run id, the HTTP status and the row count of a record; drift between the chosen start and the request.
- Collection retry: records with repeated run ids; the outcome's scenario and implementation, and error texts.
- The evidence gate: the order of the report's entries, quantiles, histograms of verbatim literals and thermal classes, hash cost and the admission record; whether collected events are those of the planned run ids, which the gate does not look at either.
- The generator mulberry32 (a parameter that yields numbers in [0, 1)), `madFromMedian`, `wilsonOneSidedUpper` and `clopperPearsonZeroFailureUpper`; the paired-ratio bootstrap, which is the percentile bootstrap of the ratios.
- ModuleClosure.Closure: the regular expression that finds imports, sorting, minification and its cache.
- ProfileFold.SummarizeProfile: the sorting of the printed frames and their printed names and positions.
- The matched comparison of two sides, the prefix scans of `analyze`, and presets.
