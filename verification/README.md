# Verified models of the data platform

This directory holds Dafny 4.11 models of the parts of the platform whose
correctness rests on an argument rather than on a test: the staged-to-built
protocol, the CSV source, the fixture corpus and its validator, the dated
backfill series, the decompression guard, the Vault bootstrap, the lineage repair
and the versioned customers table. `dafny verify dfyconfig.toml` checks all of it.

| module | models |
|---|---|
| `ClaimLedger`, `MaxWatermark` | the claim ledger over every interleaving of bronze commits and build transactions, and the filter it replaced |
| `RunStages`, `DbtBuildTracking` | the stage recorder's table, and DagRuns whose tasks fail, time out and overlap with builds of the ledger |
| `SchemaResolution` | schema versions, the resolution of a file's header, and the positional loader |
| `Utf8`, `CsvText`, `ReadBack`, `QuotedReading`, `RecordChunks` | UTF-8, physical lines, the NUL filter, the CSV reader, what reads back with and without quotes, chunking and resuming |
| `Tabular`, `Splices`, `RecordAddresses`, `Multipart`, `MultipartReading`, `CorpusManifest` | fixtures: tables, raw splices and where they land, part sets and reading them back, the ordered manifest |
| `DecimalDigits`, `DecimalRendering` | decimal columns: bounds, draws, rendering, reading back |
| `DatedSeries`, `DatedReading`, `DatedDraws` | the dated series: keyed streams, roster accounting, identifiers, what its files hold, which files are possible |
| `DecompressionGuard` | bounded reads with a cumulative ceiling |
| `VaultBootstrap` | a program that may stop before any external write and is run again |
| `DuplicateLineage` | content-duplicate pointers: discovery and repair |
| `VersionChain`, `CustomerVersions`, `CustomerLineage` | the recomputed version chain, its publication under the exclusion constraint, the lineage view over the ranges that builds leave |
| `Options`, `Sequences` | shared helpers |

Interleavings, crashes and retries are transitions: `ClaimLedger` and
`DbtBuildTracking` quantify over every sequence of enabled events, and
`VaultBootstrap` gives the process a number of external writes it survives.
Methods follow the loops and updates of the source and are proved against
functions; the results are lemmas about those functions.

## Where the code does not do what it is said to do

Each of these is proved: by an input that shows it, by the exact condition under
which the code does meet its purpose, and mostly by both.

- Publishing is not gated on a build: `mark_dbt_build_done` succeeds after writing
  FAILED, and `publish` follows (`DbtBuildTracking.PublishRunsAfterAFailedBuild`).
- Two builds of a dataset can select the same run unless both are incremental, and a
  model's first build is not (`ClaimLedger.NeverSharedExactlyWhen`).
- The claim statement takes its rows in no order, so two overlapping builds can deadlock
  on two runs (`ClaimLedger.TwoBuildsCanDeadlock`,
  `ClaimLedger.AscendingClaimsNeverDeadlock`).
- A SUCCEEDED stage row is final only because one DagRun is active at a time
  (`DbtBuildTracking.SucceededIsFinalExactlyWithOneActiveDagRun`).
- The recovery view names runs for DBT_BUILD that are still staging
  (`DbtBuildTracking.RecoveryViewNamesARunStillStaging`).
- The first file of a dataset is accepted whatever its header, and may load into the
  wrong columns; after a contract edit, files that match the new contract are refused
  with a storage error until a strictly narrower one arrives
  (`SchemaResolution.FirstFileLoadsCorrectlyExactlyWhenAligned`,
  `SchemaResolution.EditedContractAcceptsItsOwnFilesExactlyWhen`).
- Filtering NULs per line splits `"\r\0\n"` differently from filtering the text
  (`CsvText.LineFilterIsLinesOfTextFilterExactlyWhen`).
- A tabular fixture may load and not read back: the delimiter check looks at decimal
  separators only (`Tabular.EveryDrawReadsBackExactlyWhen`).
- A part set whose terminator is a lone CR can read back with an extra empty record
  (`MultipartReading.PartsReadAsTargetExactlyWhen`).
- The part-set check's own message recommends a wrapper over the part set; such a
  manifest loads and cannot be generated (`CorpusManifest.FullRunGeneratesExactlyWhen`).
- Decimals below zero are rendered wrong unless they are whole
  (`DecimalRendering.ColumnIsFaithfulExactlyWhen`).
- The guard is described as never consuming more than a chunk past its ceiling; that
  holds up to the first error, not for a caller that reads on
  (`DecompressionGuard.MoreThanAChunkExactlyWhen`).
- A Vault auth method enabled but not configured before a crash is never configured,
  and a role's namespaces and policies are never corrected on their own
  (`VaultBootstrap.Cluster.RunRepeatedly`, `VaultBootstrap.RoleIsRightExactlyWhen`).
- The repair takes the rows of datasets without the skip policy for orphans
  (`DuplicateLineage.UnskippedRegistrationIsAnOrphanExactlyWhen`).
- The lineage view shows a current row twice when another build has claimed runs on
  either side of its run (`CustomerLineage.ShownOnceExactlyWhen`).
- The order of a customer's bronze rows is said to be total, but a row and its replay
  tie; the chain is the same only because they agree (`VersionChain.RowsDecideExactlyWhen`).
- Joining tracked values by a pipe hides a change that only moves the pipe, or that is
  between absent and empty; the current version then shows an older name
  (`VersionChain.TrackedCollidesExactlyWhen`, `VersionChain.AlwaysShowsTheLatestExactlyWhen`).

## Conventions

- Bytes are integers below 256, text is a sequence of Unicode scalar values, the
  encoding is UTF-8 (section 3 of RFC 3629). The reader is the one of section 2 of
  RFC 4180 as `to_stdlib_dialect` configures it: doubled quotes, no escape character,
  not strict, with the field size limit.
- Hashes are taken to be injective: schema hashes are compared as column lists, content
  hashes as contents, tracked hashes as the joined text.
- A random stream is an unknown function of its name, the number of the draw and the
  count it is scaled to; every draw is clamped as the source clamps it. A decimal draw is
  any integer from zero to the span inclusive, since a float product may round up.
- A run's bronze rows commit at once, and before its STAGE_LOAD becomes SUCCEEDED.
- Timestamps and dates are integers; the text of a date is a parameter.
- Errors the source raises are results: `None`, `Rejected`, `Failed`, `Tripped`, or
  `false` where one statement stands for them all.

## Model

| member | source | states |
|---|---|---|
| `ClaimLedger.RunKeepsInv` | migrations/versions/0040_meta_dbt_processed_runs.py:62-83 | every interleaving of bronze commits, overlapping builds, commits and aborts keeps the ledger equal to the union of the committed builds' claims, and uncommitted claims disjoint from it and from each other |
| `ClaimLedger.SelectedExactlyOnce` | migrations/versions/0040_meta_dbt_processed_runs.py:16-29 | an incremental committed build selected exactly the runs the ledger records under its transaction, so no run is selected by two |
| `ClaimLedger.CommittedBuildSkipsNothing` | dbt/macros/claim_dbt_processed_runs.sql:36-45 | whatever interleaves, once a build commits, every run of its dataset that was in bronze at its claim statement is in the ledger |
| `ClaimLedger.SnapshotIsKept` | dbt/macros/claim_dbt_processed_runs.sql:36-45 | whatever interleaves, a build's snapshot stays what it was until it closes |
| `ClaimLedger.SoloBuildClaimsEveryUnclaimedRun` | dbt/macros/claim_dbt_processed_runs.sql:56-68 | a build running alone claims exactly the bronze runs not yet in the ledger; it selects them if it is incremental and all of bronze if it is not; nothing else changes |
| `ClaimLedger.NoRunIsEverSkippedForever` | migrations/versions/0040_meta_dbt_processed_runs.py:26-29 | from every reachable state, every committed bronze run is in the ledger or some continuation claims it |
| `ClaimLedger.EveryBegunBuildCanTakeItsSnapshot` | dbt/macros/claim_dbt_processed_runs.sql:36-45 | in every reachable state a build that has begun can run its claim statement beside any other |
| `ClaimLedger.OnlyAClaimWaits` | dbt/macros/claim_dbt_processed_runs.sql:36-45 | every step of a build but the insertion of a row depends on that build alone, whatever else is open |
| `ClaimLedger.EveryRunCanBeContested` | dbt/macros/claim_dbt_processed_runs.sql:36-45 | from every reachable state, any run not yet in the ledger can be seen by two open builds of its dataset, of any kinds; whichever claims first, the other waits; when the first commits the other's row is dropped and it commits without the run, and when the first aborts the other claims it |
| `ClaimLedger.TwoBuildsCanDeadlock` | dbt/macros/claim_dbt_processed_runs.sql:56-68 | the statement gives no order: from every reachable state any two runs not yet in the ledger can leave two builds each waiting for a run the other holds |
| `ClaimLedger.AscendingClaimsNeverDeadlock` | dbt/macros/claim_dbt_processed_runs.sql:56-68 | if every build took its runs in ascending order, some open build could always go on |
| `ClaimLedger.RollbackReturnsClaims` | dbt/macros/claim_dbt_processed_runs.sql:32-34 | aborting a build leaves the ledger as it was and every run it had claimed free for the next build |
| `ClaimLedger.SelectionMatchesClaimsExactlyWhen` | dbt/models/silver/silver_customers.sql:118-132 | a build selects its claim set if and only if it is incremental or its claims are already everything in bronze |
| `ClaimLedger.NeverSharedExactlyWhen` | dbt/models/silver/silver_customers.sql:118-132 | whatever the dataset and the run, no schedule lets two committed builds both select it if and only if both are incremental; the first build of a model is not |
| `MaxWatermark.SkippedForever` | migrations/versions/0040_meta_dbt_processed_runs.py:5-8 | a run skipped by the old filter is skipped in every continuation |
| `MaxWatermark.OutOfOrderSkips` | migrations/versions/0040_meta_dbt_processed_runs.py:9-14 | for any commit order with an inversion there is a schedule of builds that skips the later, lower run |
| `MaxWatermark.SafeExactlyWhenCommitsAscend` | migrations/versions/0040_meta_dbt_processed_runs.py:5-14 | no schedule of builds loses a run under the old filter if and only if runs commit in id order |
| `RunStages.StageTable.RecordDbtBuildStage` | airflow/dags/_common/run_stage_recorder.py:111-151 | the upsert loop leaves the table of marking the whole set of ids at once: repetition and order of ids do not matter, other rows stay |
| `DbtBuildTracking.StepKeepsInv` | airflow/dags/_common/run_stage_recorder.py:174-211 | with one active DagRun, every task outcome, partial write, bronze commit, ledger step and DagRun timeout also keeps what the stage rows of its runs look like |
| `DbtBuildTracking.StepKeepsCore` | airflow/dags/_common/run_stage_recorder.py:174-211 | however many DagRuns are active, every step keeps what ties task states, verdicts and stage rows to the ledger |
| `DbtBuildTracking.SucceededIsClaimed` | airflow/dags/_common/run_stage_recorder.py:75-151 | however many DagRuns are active, a SUCCEEDED row's run is in the ledger under a committed build, in every reachable state |
| `DbtBuildTracking.SucceededRowNeverChanges` | airflow/dags/_common/run_stage_recorder.py:83-85 | with one active DagRun, a SUCCEEDED row never changes again, in any continuation |
| `DbtBuildTracking.SucceededIsFinalExactlyWithOneActiveDagRun` | airflow/dags/csv_ingest_customers.py:98 | SUCCEEDED is final over all runs if and only if at most one DagRun is active |
| `DbtBuildTracking.SecondDagRunOverwritesSucceeded` | airflow/dags/_common/run_stage_recorder.py:190-211 | with two active DagRuns one marks SUCCEEDED and the other overwrites it with FAILED |
| `DbtBuildTracking.PendingIsStagedAndNotSucceeded` | airflow/dags/_common/run_stage_recorder.py:90-108 | in every reachable state, with any number of DagRuns, the eligibility query returns exactly the staged runs that are not SUCCEEDED |
| `DbtBuildTracking.NoStagedRunIsStuck` | airflow/dags/_common/run_stage_recorder.py:174-211 | from every reachable state, whatever has failed, timed out or is still open, some continuation marks any staged run SUCCEEDED |
| `DbtBuildTracking.AnythingMayFail` | airflow/dags/_common/run_stage_recorder.py:174-211 | any task that can end can fail, a marking task before or after its transaction commits, and its DagRun can end at any time |
| `DbtBuildTracking.TasksAreLocal` | airflow/dags/_common/run_stage_recorder.py:174-211 | whether a task can run depends on its own DagRun and, for a build, on what has committed |
| `DbtBuildTracking.OwnRunsAreRunningExactlyWhen` | airflow/dags/_common/run_stage_recorder.py:197-211 | a DagRun finds every run it staged itself RUNNING from before its build can start until its outcome is marked, in all reachable states, if and only if the edge is there and no other DagRun is active |
| `DbtBuildTracking.WithoutTheEdgeAnOwnRunIsUnmarked` | airflow/dags/_common/run_stage_recorder.py:197-210 | without the edge a DagRun reaches its build with its own run unmarked |
| `DbtBuildTracking.SecondDagRunUnmarksAnOwnRun` | airflow/dags/_common/run_stage_recorder.py:190-211 | with two active DagRuns, one marks FAILED the run the other is building |
| `DbtBuildTracking.PublishedRunsSucceededExactlyWhenBuilt` | airflow/dags/_common/run_stage_recorder.py:193-211 | after publishing, a listed run is SUCCEEDED if and only if the DagRun's build task succeeded |
| `DbtBuildTracking.PublishRunsAfterAFailedBuild` | airflow/dags/_common/run_stage_recorder.py:194-211 | publish runs and succeeds after a failed build, with the run FAILED and unclaimed |
| `DbtBuildTracking.RetryDbtBuildIsPendingExactlyWhenStaged` | migrations/versions/0033_meta_v_run_recovery.py:53-59 | a run the recovery view sends to DBT_BUILD is in the eligibility query if and only if it is staged |
| `DbtBuildTracking.RetryPublishIsStagedAndMarked` | migrations/versions/0033_meta_v_run_recovery.py:53-59 | a run the view sends to PUBLISH is staged and marked RUNNING or SUCCEEDED, and claimed if SUCCEEDED |
| `DbtBuildTracking.RecoveryViewNamesARunStillStaging` | migrations/versions/0033_meta_v_run_recovery.py:53-59 | the view also names a run whose staging is still running, which the query does not return |
| `SchemaResolution.SchemaRepository.Sync` | packages/dataplat/src/dataplat/schema/repository.py:111-225 | a no-op on the current columns; otherwise the current version is closed and the next number appended as current |
| `SchemaResolution.SchemaRepository.ResolveByHash` | packages/dataplat/src/dataplat/schema/repository.py:256-297 | finds a recorded version of the same columns if and only if there is one |
| `SchemaResolution.CsvSource.ResolveSchema` | packages/csv-processor/src/csv_processor/source.py:760-925 | the whole branching resolution: which outcome, and which history it leaves |
| `SchemaResolution.BreakIsAMissingRequiredColumn` | packages/dataplat/src/dataplat/schema/evolution.py:82-198 | with the header typed by the contract, a breaking change is exactly a missing required column; a type change can never be observed |
| `SchemaResolution.AcceptedExactlyWhenPrefix` | packages/csv-processor/src/csv_processor/source.py:788-925 | after the first file, a header is accepted if and only if the contract is a prefix of it, or it is a prefix of the contract with every omitted column optional |
| `SchemaResolution.LaterFile` | packages/csv-processor/src/csv_processor/source.py:788-925 | which version an accepted later file resolves to, which errors are possible, and that refused, contract-shaped and narrower files leave the history as it is |
| `SchemaResolution.AnyDeliveryKeepsHistory` | migrations/versions/0009_meta_schema_versions.py:65-78 | over any sequence of files, versions stay consecutive from 1 with exactly one current |
| `SchemaResolution.ContractIsRecordedOnce` | packages/csv-processor/src/csv_processor/source.py:774-786 | over any sequence of files the contract is recorded exactly once, as version 1 |
| `SchemaResolution.NarrowFilesLeaveHistoryAlone` | packages/csv-processor/src/csv_processor/source.py:871-925 | with a fixed contract, narrower files change nothing and resolve to version 1, and the storage error is unreachable |
| `SchemaResolution.AcceptedFileLoadsEveryValueInItsColumn` | packages/dataplat/src/dataplat/load/staging.py:735-744 | the positional loader puts every value of an accepted later file in the column of its own name |
| `SchemaResolution.FirstFileLoadsCorrectlyExactlyWhenAligned` | packages/csv-processor/src/csv_processor/source.py:776-786 | the first file is accepted whatever its header; its rows load correctly if and only if header and contract agree up to the shorter one |
| `SchemaResolution.ContractShapedFileAcceptedExactlyWhenRecorded` | packages/csv-processor/src/csv_processor/source.py:914-925 | a contract-shaped file is accepted if and only if the contract's columns are somewhere in the history; otherwise the error is a storage error; the history stays either way |
| `SchemaResolution.DeliveryRecordsTheContract` | packages/csv-processor/src/csv_processor/source.py:871-925 | over any delivery against one contract, its columns end up recorded if and only if they were before or some file is strictly narrower; wider, reordered and contract-shaped files record nothing of it |
| `SchemaResolution.EditedContractAcceptsItsOwnFilesExactlyWhen` | packages/csv-processor/src/csv_processor/source.py:871-925 | after a contract edit and any further delivery, a file that matches the new contract is accepted if and only if its columns had been recorded before the edit or a strictly narrower file came since; otherwise it is refused with a storage error |
| `Utf8.DecodeEncode` | tools/corpus/generators.py:359-364 | strict UTF-8 decoding (section 3 of RFC 3629) undoes encoding on every text |
| `Utf8.DecodesExactlyTheEncoding` | tools/corpus/generators.py:359-364 | bytes decode to a text if and only if they are its encoding: overlong forms, surrogates and truncated sequences are refused |
| `Utf8.CharacterBoundaries` | tools/corpus/manifest.py:745-769 | the ascending list of the byte offsets between characters, complete and exact |
| `Utf8.TerminatorOccursBetweenCharacters` | tools/corpus/manifest.py:789-801 | where a terminator's bytes occur in encoded text, the terminator itself occurs, on character boundaries |
| `CsvText.StripNul` | packages/csv-processor/src/csv_processor/source.py:101-145 | the per-line filter, and that the count it reports is the number of lines that held a NUL |
| `CsvText.LinesUndoConcatExactly` | packages/csv-processor/src/csv_processor/source.py:213-214 | splitting joined lines gives them back if and only if each is one line and none ends in a CR before an LF |
| `CsvText.LineFilterIsTextFilter` | packages/csv-processor/src/csv_processor/source.py:140-145 | joined again, filtering each line equals filtering the whole text |
| `CsvText.LineFilterIsLinesOfTextFilterExactlyWhen` | packages/csv-processor/src/csv_processor/source.py:140-145 | as lines, the two agree if and only if no lone CR stands before NULs and an LF and the text does not end in a line of NULs |
| `CsvText.CrNulLfSplitsDifferently` | packages/csv-processor/src/csv_processor/source.py:140-145 | the shortest text the two orders split differently |
| `CsvText.FeedRecord` | packages/csv-processor/src/csv_processor/detect/dialect.py:178-200 | the reader of section 2 of RFC 4180 turns a rendered clean record into its fields, in one line, for each terminator |
| `CsvText.ReadRenderedTable` | packages/csv-processor/src/csv_processor/detect/dialect.py:178-200 | reading the text of any table of clean records, written without quotes, gives the table, for any choice of terminators |
| `QuotedReading.WrittenTableReadsBackExactlyWhen` | packages/csv-processor/src/csv_processor/detect/dialect.py:178-200 | a table written with any of its fields, or the front of a field, in quotes, inner quotes doubled, over any line breaks and with any terminators, blank lines included, reads back as itself if and only if every field keeps the limit, and otherwise not at all; the last terminator, and with it the last quote, may be missing |
| `QuotedReading.ReadableExactlyWhen` | packages/csv-processor/src/csv_processor/detect/dialect.py:178-200 | a table can be read from some text if and only if no field holds a NUL or passes the limit |
| `QuotedReading.UnterminatedLinesReadBack` | packages/csv-processor/src/csv_processor/source.py:213-214 | given lines instead of a text, a line without a terminator ends its record all the same |
| `ReadBack.ReadsBackExactlyWhenClean` | packages/csv-processor/src/csv_processor/source.py:140-214 | a rendered table reads back as itself, for any choice of terminators, if and only if every record is clean: no field holds delimiter, break or NUL, starts with a quote or passes the field limit, and no record is a lone empty field |
| `ReadBack.NoQuoteLostMeansClean` | packages/csv-processor/src/csv_processor/source.py:140-214 | whatever the lines, when the reader keeps every quote they hold, each record it yields is blank or clean |
| `Tabular.WriteTabular` | tools/corpus/generators.py:206-248 | for every flush threshold the bytes are the encoding of the whole text, mark included |
| `Tabular.WriteRecord` | tools/corpus/generators.py:228-242 | one record's fields, delimiters and terminator reach the file or the buffer in order |
| `Tabular.FlushAfterRecord` | tools/corpus/generators.py:230-246 | flushing and placing the mark keep file and buffer the encoding of the text so far |
| `Tabular.GenerateThenReadIsIdentity` | tools/corpus/generators.py:206-248 | generated bytes decode and parse to exactly the header and the rendered rows, for any terminator cycle and mark position |
| `Tabular.LinesEndInTheirTerminators` | tools/corpus/manifest.py:308-321 | line i of a clean file holds record i and ends in entry i of the terminator cycle, the header being record 0 |
| `Tabular.EveryDrawReadsBackExactlyWhen` | tools/corpus/generators.py:451-531 | a fixture reads back on every draw of its columns if and only if its declaration is clean: the header and every value a column kind can render, where it stands, mark included |
| `Tabular.CanRenderExactlyTheValues` | tools/corpus/generators.py:451-531 | the listed values of a column are exactly those its renderer can return, clamped draws and empty decimal ranges included |
| `Tabular.CleanSpecPassesTheCheck` | tools/corpus/manifest.py:692-706 | the collision check refuses no clean declaration in which decimals have a fraction |
| `Tabular.ACollidingPickPassesAndReadsBackSplit` | tools/corpus/manifest.py:692-706 | but it accepts unclean ones: a picked value that holds the delimiter, whose row reads back as two fields |
| `RecordChunks.ChunkedRecords` | packages/csv-processor/src/csv_processor/source.py:148-236 | chunk k starts at k times the size, and only the last is short; chunks flatten to the records after preamble and header, without the batch that a reader's error interrupts; too-short input yields none; how the generator ends |
| `RecordChunks.CsvRecordStream.ChunksFrom` | packages/csv-processor/src/csv_processor/source.py:282-311 | all chunks of the filtered and parsed lines, or those that do not end by the resume ordinal, until the reader ends or raises |
| `RecordChunks.ReadUntilEnds` | packages/csv-processor/src/csv_processor/source.py:213-230 | reading to the end fails exactly when the iterator raises, and otherwise gives what it yields |
| `RecordChunks.ErrorTakesOnlyItsOwnBatch` | packages/csv-processor/src/csv_processor/source.py:225-236 | an error of the reader costs fewer records than a chunk: the chunks before it are those of any stream with the same records up to there |
| `RecordChunks.ResumeLosesNothing` | packages/csv-processor/src/csv_processor/source.py:298-311 | resuming at an ordinal yields every record from it on exactly once, in order, preceded by fewer than a chunk of earlier ones |
| `Splices.ResolveSpliceOffset` | tools/corpus/manifest.py:772-801 | the n-th terminator's end, by the loop over byte search |
| `Splices.ValidateSplices` | tools/corpus/manifest.py:851-894 | accepts exactly the fixtures whose splices resolve to ascending character boundaries of a literal without a mark |
| `Splices.RecordSpliceIsAlwaysLegal` | tools/corpus/manifest.py:785-801 | under UTF-8 a record-addressed splice always lands on a character boundary |
| `RecordAddresses.AfterRecordIsTheEndOfThatRecord` | tools/corpus/manifest.py:785-801 | in a content of terminated records a splice after record n resolves to the length in bytes of the first n records, and is refused if and only if there are fewer |
| `Splices.WriteLiteral` | tools/corpus/generators.py:251-275 | the written bytes are the content with every raw sequence inserted at its position |
| `Splices.DeletingRestoresContent` | tools/corpus/generators.py:258-270 | deleting the injected bytes restores the encoded content |
| `Splices.RawBytesSitAtTheirPosition` | tools/corpus/generators.py:258-270 | each raw sequence sits at its offset plus the lengths of the earlier splices |
| `Splices.EveryPieceOfAnAcceptedFixtureDecodes` | tools/corpus/manifest.py:878-894 | every piece of an accepted fixture between two splices decodes on its own |
| `Multipart.SplitRecords` | tools/corpus/generators.py:334-344 | the records concatenate to the payload, each complete one ends at its only terminator, and only the last may be incomplete |
| `Multipart.SplitIsUnique` | tools/corpus/generators.py:334-344 | if a payload is made of complete records, the split finds exactly those |
| `Multipart.Distribute` | tools/corpus/generators.py:347-356 | part i is the i-th run of consecutive records, of its share's size, and the parts flatten to the records |
| `Multipart.PartsAreBalanced` | tools/corpus/generators.py:349-355 | with at least as many records as parts, sizes differ by at most one, larger first, and none is empty |
| `Multipart.WriteMultipart` | tools/corpus/generators.py:302-331 | what the part files hold, and when writing fails because the target is missing or empty |
| `Multipart.PartsConcatenateToTarget` | tools/corpus/generators.py:324-331 | the parts concatenate to the target's records byte for byte |
| `MultipartReading.OpenMultipartStream` | packages/dataplat/src/dataplat/discovery.py:1099-1126 | the lines of every part, in order, none skipped |
| `MultipartReading.SplitFindsTheDeclaredRecords` | tools/corpus/generators.py:323-324 | when no record's text holds the terminator, splitting the encoded target gives back the declared records |
| `MultipartReading.PartsHoldTheirRecords` | tools/corpus/manifest.py:438-487 | each part of a target with enough records decodes to its own records; the header is in part 0 only; no part lacks a data record |
| `MultipartReading.PartLinesAreTargetLinesExactlyWhen` | packages/dataplat/src/dataplat/discovery.py:1099-1126 | the streamed lines are the target's lines if and only if no part boundary falls between a CR and an LF |
| `MultipartReading.ReadDivided` | packages/csv-processor/src/csv_processor/detect/dialect.py:178-200 | reading lines cut between a CR and an LF yields one record more per cut met outside quotes, and the same records when there is none |
| `MultipartReading.PartTextsAreTheTarget` | tools/corpus/generators.py:324-331 | the decoded parts concatenate to the target's text, each ending in a line break |
| `MultipartReading.PartsReadAsTargetExactlyWhen` | packages/csv-processor/src/csv_processor/source.py:521-546 | reading the parts gives the target's records if and only if the target is unreadable or no such boundary is met outside quotes; each one adds one empty record |
| `MultipartReading.PartsReadAsTarget` | packages/csv-processor/src/csv_processor/source.py:521-546 | so it always does for terminators ending in LF, and for a lone CR when no data record starts with an LF |
| `MultipartReading.PartsOfACleanTableReadBack` | packages/csv-processor/src/csv_processor/source.py:521-546 | a table of clean records, split and read back as one stream, is the declared table |
| `MultipartReading.ALoneCrCanSplitALineBreak` | packages/dataplat/src/dataplat/discovery.py:1099-1126 | an accepted three-record target whose parts are streamed with one line too many |
| `CorpusManifest.ParseManifest` | tools/corpus/manifest.py:399-435 | accepts exactly the manifests with distinct names and fitting earlier targets, and otherwise reports the first fixture that does not fit |
| `CorpusManifest.SplittableExactlyWhenNoPartIsEmpty` | tools/corpus/manifest.py:480-487 | for a target that is otherwise fit, a part set is accepted if and only if no part is dealt an empty share of the data records |
| `CorpusManifest.GenerateCorpus` | tools/corpus/generators.py:160-203 | succeeds exactly when every fixture can be written in turn; the resulting directory and the digest order |
| `CorpusManifest.AcceptedManifestGeneratesExactlyWhen` | tools/corpus/generators.py:392-404 | an accepted manifest generates if and only if its wrappers wrap regular files that this run or an earlier one wrote and no path is taken |
| `CorpusManifest.FullRunGeneratesExactlyWhen` | tools/corpus/manifest.py:424-435 | a full run into a new directory succeeds if and only if no wrapper wraps a part set |
| `CorpusManifest.RegeneratingAlwaysWorks` | tools/corpus/generators.py:183-188 | after a full run has succeeded, every further run over its directory does, fast or not |
| `CorpusManifest.AcceptedButNotGenerated` | tools/corpus/generators.py:398-404 | a wrapper over a part set loads and cannot be generated |
| `DecimalDigits.DigitsAreInjective` | tools/corpus/dated_series.py:808 | distinct numbers have distinct digit strings |
| `DecimalRendering.DrawIsInBoundsExactlyWhen` | tools/corpus/generators.py:511-527 | every draw, also one rounded up to the span, is in bounds if and only if a representable value exists, and every such value can be drawn |
| `DecimalRendering.FaithfulExactlyWhen` | tools/corpus/generators.py:526-529 | rendered units read back if and only if they are not negative, are whole, or there is no fraction |
| `DecimalRendering.ColumnIsFaithfulExactlyWhen` | tools/corpus/generators.py:511-531 | a column reads back on every draw if and only if it has no fraction, starts at zero or above, or is a single whole value |
| `DecimalRendering.MinusOneAndAHalf` | tools/corpus/generators.py:528-529 | minus 150 hundredths are read back as minus 250 |
| `DecimalRendering.RenderedDrawIsExact` | tools/corpus/dated_series.py:838-845 | for a non-negative minimum with a representable value: exactly `scale` fraction digits, reads back, within bounds, on every draw |
| `DatedSeries.CheckNoAnomalyCollisions` | tools/corpus/dated_series.py:594-643 | passes exactly when no two different anomalies target the same day and member |
| `DatedSeries.NoCollisionExactlyWhen` | tools/corpus/dated_series.py:594-643 | there is no collision if and only if no day and member is hit by two of the four anomalies |
| `DatedSeries.ExcludedIsNeverPickedExactlyWhen` | tools/corpus/dated_series.py:824-835 | the index wrap avoids the excluded value on every draw if and only if its occurrences are never followed by itself |
| `DatedSeries.OverrideIsAChange` | tools/corpus/dated_series.py:662-685 | with the real name and country pools, a change or correction always differs from the baseline in both |
| `DatedSeries.RenderCustomerDayLines` | tools/corpus/dated_series.py:688-787 | the file's rows: kept members ascending with their k-th draw, then the correction |
| `DatedSeries.RenderMember` | tools/corpus/dated_series.py:736-768 | one member's row: baseline, change, late stamp and the extra column |
| `DatedSeries.CorrectionRestatesAnEarlierDay` | tools/corpus/dated_series.py:770-785 | the extra row of a late correction repeats id, birth date, signup country and time stamp of the member's row of the day it is backdated to, with another name and another country |
| `DatedSeries.RenderOrderLines` | tools/corpus/dated_series.py:466-482 | the orders rows, each with its own draws of the file's stream |
| `DatedSeries.GenerateDatedSeries` | tools/corpus/dated_series.py:257-507 | which parameters are refused, one file a day except the gap, and each day's bytes |
| `DatedReading.SeriesReadsBack` | tools/corpus/dated_series.py:434-487 | the file of every day but the gap decodes to a text of one CRLF-terminated line a record, which reads back as the header and the day's rows if and only if no field passes the reader's limit |
| `DatedReading.DayHeader` | tools/corpus/dated_series.py:434-436 | the header has the extra column exactly from the schema-change day on |
| `DatedDraws.EveryOrdersFileIsPossible` | tools/corpus/dated_series.py:790-815 | every combination of customers, amounts and codes is the orders file of some seed: no two values share a draw |
| `DatedDraws.EveryRosterIsPossible` | tools/corpus/dated_series.py:646-685 | every combination of profiles, changes and corrections is the roster of some seed, as long as these differ from the baseline |
| `DatedSeries.SameTriggersSameBytes` | tools/corpus/dated_series.py:399-487 | two series that differ only in where gap and anomalies fall agree byte for byte on every day whose own triggers agree |
| `DatedSeries.GapMovesNothing` | tools/corpus/dated_series.py:429-430 | moving or filling the gap changes no other day |
| `DatedSeries.RosterAccounting` | tools/corpus/dated_series.py:728-787 | a customers file has roster size minus removed members, plus one row when a correction arrives |
| `DatedSeries.OccurrencesOfCustomer` | tools/corpus/dated_series.py:728-787 | how often each customer appears, whatever the anomalies |
| `DatedSeries.AcceptedOccurrences` | tools/corpus/dated_series.py:594-643 | with the collision check: removed members in no row, the corrected one twice, every other exactly once |
| `DatedSeries.UncheckedRemovalIsUndone` | tools/corpus/dated_series.py:728-787 | without the check a removed member comes back through its own correction |
| `DatedSeries.RowsAreRosterRows` | tools/corpus/dated_series.py:400 | every row belongs to a roster member |
| `DatedSeries.MemberIsStable` | tools/corpus/dated_series.py:646-659 | a member's rows agree in every column but the timestamp on the same side of its change, and differ in name and country across it |
| `DatedSeries.OnlyTheLateRowIsBackdated` | tools/corpus/dated_series.py:749-753 | exactly the late row of the late day is backdated |
| `DatedSeries.EveryOrderIsSound` | tools/corpus/dated_series.py:790-815 | an order row's id, customer, date and amount, the amount reading back within its bounds on every draw |
| `DatedSeries.OrderIdsAreDistinctExactlyWhen` | tools/corpus/dated_series.py:808 | order ids are injective in day and row if and only if a day has at most 10000 rows or there is one day |
| `DatedSeries.OrderRowsAreDistinct` | tools/corpus/dated_series.py:808 | so are the id texts in the files |
| `DatedSeries.OrderIdsFitExactlyWhen` | tools/corpus/dated_series.py:158-159 | order ids fit 32 bits up to a derived bound on days and rows |
| `DatedSeries.RosterIdsAreNotOrderIdsExactlyWhen` | tools/corpus/dated_series.py:157-159 | roster ids and order ids are disjoint if and only if the roster has at most 9.9 million members |
| `DatedSeries.OrdersResolveExactlyWhen` | tools/corpus/dated_series.py:161-177 | every order refers to a roster member if and only if the roster has at least 30 |
| `DecompressionGuard.Guard.ReadOneBoundedChunk` | packages/csv-processor/src/csv_processor/compression.py:147-183 | one bounded read: what is delivered, when it trips, and how much it consumes |
| `DecompressionGuard.Guard.ReadOne` | packages/csv-processor/src/csv_processor/compression.py:185-197 | one bounded read, short reads allowed |
| `DecompressionGuard.Guard.ReadAll` | packages/csv-processor/src/csv_processor/compression.py:199-234 | exactly min(size, remaining) bytes or everything, an error exactly when that passes the ceiling, for any short-reading decompressor |
| `DecompressionGuard.OutputIsAPrefix` | packages/csv-processor/src/csv_processor/compression.py:185-234 | over any sequence of calls the outputs concatenate to a prefix of the stream, and nothing is delivered after an error |
| `DecompressionGuard.EachTripCostsAChunk` | packages/csv-processor/src/csv_processor/compression.py:147-183 | consumption stays within one chunk per error past the ceiling |
| `DecompressionGuard.FirstTripIsWithinAChunk` | packages/csv-processor/src/csv_processor/compression.py:58-64 | up to and including the first error it stays within one chunk of the ceiling |
| `DecompressionGuard.ReadingOnConsumesOn` | packages/csv-processor/src/csv_processor/compression.py:168-183 | for every ceiling, content that passes it and number of errors, some run of calls meets the bound of one chunk per error, or consumes the whole content |
| `DecompressionGuard.MoreThanAChunkExactlyWhen` | packages/csv-processor/src/csv_processor/compression.py:58-64 | some run with n errors consumes more than a chunk past the ceiling if and only if n is at least 2 and the content is that long |
| `VaultBootstrap.Cluster.EnsureMounts` | scripts/vault-bootstrap.py:329-347 | mounts what is missing, and writes nothing when nothing is |
| `VaultBootstrap.Cluster.EnsureAuthMethod` | scripts/vault-bootstrap.py:350-358 | enables and configures, but only if not enabled; what a crash between the two leaves |
| `VaultBootstrap.Cluster.EnsurePolicy` | scripts/vault-bootstrap.py:361-397 | leaves the target text, up to surrounding white space, and writes only on drift |
| `VaultBootstrap.Cluster.EnsureRole` | scripts/vault-bootstrap.py:400-465 | leaves the target account names, and writes only when they differ |
| `VaultBootstrap.Cluster.EnsureDatabaseSecret` | scripts/vault-bootstrap.py:671-705 | sets a fresh password and stores it, only if none is stored |
| `VaultBootstrap.Cluster.EnsureAirflowConnection` | scripts/vault-bootstrap.py:790-810 | copies the ETL DSN, only if the connection is absent |
| `VaultBootstrap.Cluster.EnsureAuditDevice` | scripts/vault-bootstrap.py:468-475 | enables the audit device, only if it is absent |
| `VaultBootstrap.Cluster.EnsureCopiedSecret` | scripts/vault-bootstrap.py:710-722 | stores this value, only if none is stored; stops when there is no value; no other secret changes |
| `VaultBootstrap.Cluster.EnsureEtlSecrets` | scripts/vault-bootstrap.py:671-722 | the DSN and the MinIO key, each only if absent; no other secret changes |
| `VaultBootstrap.Cluster.EnsureAirflowSecrets` | scripts/vault-bootstrap.py:766-812 | the MinIO connection and the copied DSN, each only if absent; no other secret changes |
| `VaultBootstrap.Cluster.EnsureGrafanaSecrets` | scripts/vault-bootstrap.py:915-965 | the reader's password and the webhook, each only if absent; no other secret changes |
| `VaultBootstrap.Cluster.Bootstrap` | scripts/vault-bootstrap.py:1047-1160 | stopped anywhere, it keeps the invariants and every met goal; completed, every mount, policy and secret is there, each secret that was absent holds its own input or its own role's password, and a role is right if and only if it had not drifted; from a converged state it writes only the applied Secret |
| `VaultBootstrap.Cluster.RunRepeatedly` | scripts/vault-bootstrap.py:1047-1160 | any number of interrupted runs keep the invariant and every stored secret, store nothing but the matching input where one was absent, leave an auth method enabled but not configured as it is, and never correct a role whose account names are right |
| `VaultBootstrap.PasswordsNeverDiverge` | scripts/vault-bootstrap.py:638-946 | from an empty cluster or any whose secrets agree, over any interrupted runs: a stored password is the role's, never changes, and the Airflow copy is the ETL DSN |
| `VaultBootstrap.RoleIsRightExactlyWhen` | scripts/vault-bootstrap.py:438-464 | a completed run leaves a role right if and only if it was absent, had other account names, or was right |
| `VaultBootstrap.InterruptedBetweenEnableAndConfigure` | scripts/vault-bootstrap.py:356-357 | one interruption leaves an auth method enabled but not configured |
| `DuplicateLineage.RepairLeavesNoOrphan` | scripts/repair-duplicate-file-lineage.py:120-136 | one repair leaves no orphan |
| `DuplicateLineage.RepairChangesExactlyTheOrphans` | scripts/repair-duplicate-file-lineage.py:104-136 | exactly the diagnosed rows change, in the pointer only, to their group's smaller, smallest id |
| `DuplicateLineage.RepairIsIdempotent` | scripts/repair-duplicate-file-lineage.py:313-331 | a second repair changes nothing |
| `DuplicateLineage.RepairRestoresLineage` | scripts/repair-duplicate-file-lineage.py:82-136 | if prior pointers went to smaller ids of the group, following pointers from any row ends at the group's smallest id |
| `DuplicateLineage.FilesTable.FindOrphans` | scripts/repair-duplicate-file-lineage.py:298-311 | exactly the orphans, in id order, writing nothing |
| `DuplicateLineage.FilesTable.Repair` | scripts/repair-duplicate-file-lineage.py:390-452 | a dry run or a healthy table writes nothing; the exit code is 1 if and only if rows committed meanwhile left an orphan |
| `DuplicateLineage.FilesTable.CreateFile` | packages/dataplat/src/dataplat/metadata/postgres.py:121-167 | inserts, or overwrites file name and pointer of the same dataset, uri and content |
| `DuplicateLineage.FilesTable.Register` | packages/dataplat/src/dataplat/discovery.py:234-274 | the row one discovery leaves, after its self-correction |
| `DuplicateLineage.OrderedRegistrationKeepsLineage` | packages/dataplat/src/dataplat/metadata/postgres.py:169-204 | with the ordered lookup, discovery under the skip policy never makes an orphan |
| `DuplicateLineage.RegistrationKeepsLineageExactlyWhen` | packages/dataplat/src/dataplat/metadata/postgres.py:169-204 | whichever holder of the content the lookup returns, the lineage stays sound if and only if it is older than the registered row, or that row itself as the oldest, or there is none |
| `DuplicateLineage.RegisteredRowIsAnOrphanExactlyWhen` | scripts/repair-duplicate-file-lineage.py:4-22 | the registered row is an orphan if and only if the lookup returned that row itself and it is not the smallest holder |
| `DuplicateLineage.UnorderedLookupOrphansARow` | scripts/repair-duplicate-file-lineage.py:4-22 | without the ordering that is reached: a duplicate found again through itself |
| `DuplicateLineage.UnskippedRegistrationIsAnOrphanExactlyWhen` | packages/dataplat/src/dataplat/discovery.py:238-239 | under any other policy, a registered row is one the repair would rewrite exactly when its content is there under a smaller id |
| `DuplicateLineage.FilesTable.RepairOrphans` | scripts/repair-duplicate-file-lineage.py:313-331 | one transaction after which no orphan is left, and in which only the orphans change, to point at their group's smallest id |
| `DuplicateLineage.FollowReachesTheOriginal` | scripts/repair-duplicate-file-lineage.py:82-92 | without orphans, following pointers from any row ends at its content group's smallest id |
| `CustomerVersions.Customers.Upgrade` | migrations/versions/0035_normalized_customers_scd2.py:95-154 | succeeds if and only if every row is dated, by the sentinel at the latest; every row becomes one open current version |
| `CustomerVersions.Customers.Downgrade` | migrations/versions/0035_normalized_customers_scd2.py:170-191 | succeeds if and only if no customer has two versions |
| `CustomerVersions.Customers.InsertVersion` | migrations/versions/0035_normalized_customers_scd2.py:144-153 | one row is accepted if and only if its range exists and overlaps no other version of its customer; checking that row alone keeps the whole table free of overlaps |
| `CustomerVersions.Customers.Replace` | packages/dataplat/src/dataplat/load/publish/scd.py:407-446 | deleting a customer's versions and inserting the recomputed ones row by row succeeds if and only if there is a history and its last version starts by the sentinel; other customers' rows stay; a failure changes nothing |
| `CustomerVersions.ReplayIsIdempotent` | packages/dataplat/src/dataplat/load/publish/scd.py:47-52 | publishing again after a replay has staged the same rows once more, in any order, leaves the customer's versions and everybody else's rows as they were |
| `CustomerVersions.OneCurrentAfterReplace` | packages/dataplat/src/dataplat/load/publish/scd.py:415-442 | right after it, exactly one row of the customer is current, the open one |
| `CustomerVersions.PublishedTableAnswersAsOf` | packages/dataplat/src/dataplat/load/publish/scd.py:410-444 | as of every moment from the customer's first row on, exactly one published version is in force, and it shows the joined name and country of the history row that is last by then, by event time, file and row number |
| `CustomerVersions.PublishedTableIsUniform` | packages/dataplat/src/dataplat/load/publish/scd.py:410-444 | every published version has the birth date of a history row with the greatest key and the signup country of one with the least |
| `CustomerVersions.CurrentRowsCoexistExactlyWhen` | migrations/versions/0035_normalized_customers_scd2.py:136-153 | the constraint admits two open current rows of a customer if and only if one starts at the sentinel |
| `CustomerVersions.AtMostOneCurrent` | migrations/versions/0035_normalized_customers_scd2.py:112-153 | otherwise a customer has at most one current row in every admissible table |
| `CustomerVersions.ChainIsAdmissibleExactlyWhen` | packages/dataplat/src/dataplat/scd/recompute.py:141-172 | a recomputed chain satisfies the constraint if and only if its last version starts by the sentinel |
| `VersionChain.RecomputeVersionChain` | packages/dataplat/src/dataplat/scd/recompute.py:88-172 | the chain of the sorted history; an empty history is an error |
| `VersionChain.GroupStarts` | packages/dataplat/src/dataplat/scd/recompute.py:141-147 | the indices where the tracked values differ from the row before, and 0 |
| `VersionChain.SortedByKey` | packages/dataplat/src/dataplat/scd/recompute.py:131 | the sorted history is the history, ordered by event time, then file, then row number |
| `VersionChain.ChainShowsTheGreatestRow` | packages/dataplat/src/dataplat/scd/recompute.py:131-172 | the current version joins like a row with the greatest key, and has its name and country when no name holds a pipe; every birth date is that of a row with the greatest key, every signup country that of a row with the least |
| `VersionChain.AlwaysShowsTheLatestExactlyWhen` | packages/dataplat/src/dataplat/scd/recompute.py:131-172 | every history of a table's rows has the name and country of its latest row as the current ones if and only if tied rows join alike and untied rows that join alike have one name and one country |
| `VersionChain.ReplaysAndReadOrderDoNotMatter` | packages/dataplat/src/dataplat/load/publish/scd.py:124-133 | when rows tied on the whole key are equal, as a row and its replays are, the chain depends on the set of rows alone: not on their order, nor on how often each was staged |
| `VersionChain.RowsDecideExactlyWhen` | packages/dataplat/src/dataplat/scd/recompute.py:111-118 | the rows of a table decide every chain drawn from it if and only if its tied rows agree in every column a version takes |
| `VersionChain.CondensedChain` | packages/dataplat/src/dataplat/load/publish/scd.py:124-133 | a row repeated in place starts no version and changes none |
| `VersionChain.OneHistoryMaySurviveATie` | packages/dataplat/src/dataplat/scd/recompute.py:141-170 | a single history may have one chain although its tied rows differ |
| `VersionChain.ChainIsContiguous` | packages/dataplat/src/dataplat/scd/recompute.py:148-170 | versions follow each other without a gap, only the last is current and open-ended |
| `VersionChain.ChainAnswersAsOf` | packages/dataplat/src/dataplat/scd/recompute.py:141-170 | as of any moment in range exactly one version holds, with the tracked values of the last row by then |
| `VersionChain.UntrackedColumnsAreUniform` | packages/dataplat/src/dataplat/scd/recompute.py:131-138 | every version carries the signup country of the first row and the birth date of the first row tied with the last |
| `VersionChain.TrackedCollidesExactlyWhen` | packages/dataplat/src/dataplat/scd/hashing.py:54-55 | two pairs of values join alike if and only if they are equal as texts or one is the other with the pipe read elsewhere |
| `VersionChain.StartsExactlyAtChanges` | packages/dataplat/src/dataplat/scd/recompute.py:141-146 | without a pipe in a name, a version starts exactly where name or country changes |
| `VersionChain.AMovedPipeHidesAChange` | packages/dataplat/src/dataplat/scd/hashing.py:54-55 | a change that only moves a pipe starts no version |
| `VersionChain.AbsentAndEmptyAreOne` | packages/dataplat/src/dataplat/scd/hashing.py:54-55 | a change between an empty and an absent name starts no version |
| `CustomerLineage.RowsPerCurrentVersion` | migrations/versions/0036_v_customers_lineage_is_current.py:137-146 | a current row is shown max(1, covering audit rows) times |
| `CustomerLineage.RowsShowTheAudits` | migrations/versions/0036_v_customers_lineage_is_current.py:140-146 | each of those rows shows one covering audit row, in order, and the customer's one silver row |
| `CustomerLineage.ShownExactlyWhenCurrent` | migrations/versions/0036_v_customers_lineage_is_current.py:137-146 | a customer row is shown at all if and only if it is current and every row it refers to by inner join is there |
| `CustomerLineage.DisjointAuditsShowEachVersionOnce` | migrations/versions/0036_v_customers_lineage_is_current.py:144-146 | once, when audit ranges are disjoint |
| `CustomerLineage.ShownOnceExactlyWhen` | dbt/macros/dedup_audit_post_hook.sql:170-191 | in every state the claim ledger reaches, once if and only if no other build has claimed runs on either side of it |
| `CustomerLineage.LateRunIsStraddled` | dbt/macros/dedup_audit_post_hook.sql:180-181 | such a state is reached by one run that commits late |

## Left out

- RecordChunks.ChunkedRecords: the reader's records stand in a sequence with the end it comes to, so how far it has read when a chunk is yielded is not modelled; the reader's `line_num` and the per-chunk lineage fields are not modelled.
- CsvText.FeedRecord: a record that is a single bare empty field is excluded, because a blank line reads back as a record without fields; quoted, it is covered by `QuotedReading.WrittenTableReadsBackExactlyWhen`.
- Tabular.WriteTabular: the column renderers are one function of row and position, whatever it is; incremental encoding is modelled for UTF-8, where it equals encoding the text.
- Tabular.GenerateThenReadIsIdentity: the mark is read back as a character of the field it stands before, as strict UTF-8 decoding without a signature does.
- Multipart.WriteMultipart: file names, the part directory and the upper end of the part count are not modelled; a part set's target is given by its bytes.
- CorpusManifest.ParseManifest: the single-fixture validators other than splices and the delimiter check, and YAML typing, are taken as done; names are distinct paths without slashes.
- CorpusManifest.GenerateCorpus: the contents of written files, gzip and zip bytes and digests are not modelled here; only which paths are files or directories.
- DecimalRendering.DrawIsInBoundsExactlyWhen: bounds are exact reals, so the decimal context's precision is not modelled, and the scale is not negative.
- DatedSeries.GenerateDatedSeries: the returned manifest record, the rendering of dates and the date range of the calendar are not modelled; Python's negative indices are not.
- DecompressionGuard.Guard.ReadAll: closing, `flush` and decoding on top of the guard are not modelled; a failing decompressor is not.
- VaultBootstrap.Cluster.Bootstrap: policy texts are parameters; each KV secret is its credential field; role time-to-live values, the port forward and the token are not modelled; nobody else changes the cluster between runs.
- VaultBootstrap.Cluster.EnsureDatabaseSecret: the primary pod lookup can only stop the process; percent-encoding of a hexadecimal password is the identity.
- DuplicateLineage.FilesTable.Register: etag, size, hash version and timestamps of a file row are not modelled; concurrent registrations are one after another.
- SchemaResolution.CsvSource.ResolveSchema: database failures, timestamps of versions and the recorded change findings are not modelled.
- ClaimLedger.SelectedExactlyOnce: one model per dataset and transaction; the deduplication the model runs over the selected rows is not part of it.
- DbtBuildTracking.SucceededIsClaimed: one dataset, whose run ids the eligibility query joins to; pod heartbeats, leases and Airflow's retry counts are steps without numbers.
- CustomerLineage.RowsPerCurrentVersion: the view's plain columns are represented by the joined rows they come from.
- CustomerVersions.Customers.Upgrade: the extension, the index and the grants are not modelled.
- CustomerVersions.Customers.Replace: one customer at a time; which customers are touched or vanished, the quarantine filter and the lineage columns are not modelled.
- Not modelled at all: encoding and dialect detection, the quality stages, publishers, reconciliation, object storage, tracing, pod specifications, the retry budget and the audit scripts.
- The digest listing and its parser: true but easy.
