# A verified model of hardmoney

hardmoney downloads the FEC's data, loads it into PostgreSQL and parses electronic filings. This
project models the parts of it whose correctness depends on an order of steps, on a run of steps,
or on two pieces of code agreeing, and proves what they promise. `dafny verify dfyconfig.toml`
checks everything.

Each part has a module that follows the code (a class with the fields the code updates, methods
with its loops, or functions where the code is an expression) and modules that state and prove
what the code is for, over every input and every run.

* **Resumable download** (`Download`, `DownloadOutcomes`, `DownloadRuns`, `DownloadProgress`,
  `MetaFile`). A download
  works on three files (`.partial`, `.meta`, the finished file) against a server that may replace
  its file at any time, ignore `Range` or `If-Range` (sections 13.1.5 and 14.2 of RFC 9110), or
  drop the connection. An attempt is a list of file operations, so a crash can fall between any two
  of them or tear one. `NeverSplices` covers all runs of attempts, crashes, replacements and
  evictions; `UnguardedResumeSplices` shows that what it assumes of the server is needed.
* **Amendment chains** (`Chains`, `ChainOrder`, `Ingest`). The resolver's SQL, row for row: the
  scope and member filter of the one-chain statement, the window functions that rank a chain, and
  the ingest that stores a filing and recomputes the chain it joins and the chain it left.
* **Concurrent ingest** (`ConcurrentIngest`, `IngestCoherence`, `IngestRace`, `RowLocks`).
  Transactions interleaved statement by statement, with chain locks held to commit. No deadlock
  among chain locks; derived columns right in every reachable state exactly when no filing amends an
  amendment of an original; with row locks, exactly which sets of filings can deadlock.
* **Cover-page fill** (`CoverFill`, `FillConvergence`, `FillBalance`). Thirty-two simultaneous
  passes over a table of rules, whole cents, each field written as text and read back.
* **SHA-256** (`Sha256Standard`, `Sha256Constants`, `Sha256Functions`, `Sha256Padding`, `Sha256`).
  The in-place code computes the digest of FIPS 180-4 (sections 4 to 6.2), for every message under
  2^61 bytes; the constants are the roots of primes the standard takes, and the six functions do to
  each bit what it says.
* **Staging** (`Text`, `BulkDates`, `Csv`, `Limits`, `Staging`, `StagingRoundTrip`, `StagedInput`). The row loop that writes
  the file PostgreSQL copies, undone by a reader of RFC 4180 (section 2) in which an unquoted empty
  field is NULL. The round trip holds for every way of decoding a line.
* **Reload** (`Reload`, `ReloadRuns`). Replace, append, skip-if-unchanged, confirmation, rollback,
  and runs of them.
* **Encodings** (`Encoding`, `EncodingAgreement`). UTF-8 (section 4 of RFC 3629) and Windows-1252;
  the whole-file reader, the per-line reader, the check that says when they agree, and the writer.
* **Dump planning and listing** (`Cycles`, `Partitions`, `RestorePlans`, `ArchiveListing`).
* **Layout compiler** (`LayoutTables`, `LayoutLoader`, `Layouts`, `LayoutCompiler`).
* **URLs, the feed watcher, the rename engine** (`Urls`, `SeenList`, `Watch`, `WatchRuns`,
  `Rename`, `RenameRuns`).

## What turned out not to hold

Where a promise fails the model keeps the code as it is; a lemma shows the failure and another says
exactly when the promise is met.

* `src/bulk/ingest.rs:79-80` says the derived columns are never observably stale. A filing B that
  amends K, ingested while K's original X is, rewrites K's row from a snapshot without X, although
  K belongs to the chain X locks (`RaceLeavesStale`). Row locks delay that write, they do not redo
  it. `CoherentExactly` gives the condition on the filings.
* `src/bulk/ingest.rs:272-274` says two moves between the same pair of chains cannot deadlock. That is
  so for chain locks (`NoWaitCycle`). But each transaction also locks the row of its own filing, and
  the recompute writes the rows of the chain it joins, so the two moves can wait for each other
  (`TwoMovesCanClose`), and so can an amendment and its original (`RowLocksCanClose`). Ingests of a
  set of filings can deadlock if and only if two of them have one chain key, or amendments among them
  name each other in a circle (`DeadlockExactly`). PostgreSQL then ends one of them with an error.
* `fill_column` needs values that fit an amount, and thirty-two passes are enough for 31 lines in a
  chain, not 32 (`ConvergesExactly`, `ChainConvergesExactly`).
* `--if-changed` looks at the newest load without a row limit. A limited load after it, or a full
  append onto earlier rows, leaves other rows, and a skip keeps them (`SkipsRightlyExactly`).
* `decoders_agree` overlooks the byte-order mark the readers drop; it errs only on the safe side
  (`CheckIsSound`). The writer's output is misread for text that starts with a byte-order mark, and
  for Windows-1252 output that starts with its three bytes (`WriterIsReadBack`).
* An entity tag with spaces at an end is not recovered from the sidecar (`MetaReadsBackExactly`);
  the next attempt then only starts over.
* An archive entry whose schema is a word of capitals is read as part of its description
  (`EntryReadsBack`).
* An append to the seen list cut off inside an id spoils the next id appended (`CutIdSwallowsNext`);
  appends take effect exactly while the last line is ended (`AppendAddsExactly`). A run of the
  watcher keeps its list exactly when its cuts fall between lines (`SurvivesCutExactly`).
* A second run of the rename script finds nothing to do only when no new name is also an old one
  (`SecondRunExactly`); otherwise it is refused or renames again.
* `src/bulk/preflight.rs:388-389` says a URL with an empty password comes back unchanged; the code
  drops its colon (`AliceLosesHerColon`). A URL is unchanged exactly when no password, not even an
  empty one, is found in it (`UnchangedExactly`).
* A staging limit of 0 writes one row (`StageExactly`).

## Assumptions

* Download: a validator determines a version's content; the server honours `If-Range` or sends an
  ETag on every response; progress also needs a validator, `Range` and a byte in each attempt cut
  short. File operations are atomic except where a torn append or sidecar is modelled.
* Concurrent ingest: PostgreSQL's statement-level snapshots under READ COMMITTED, a row lock from
  the first statement for a filing already stored, and no two first inserts of one id in flight.
  Waits for row locks are in `RowLocks` only; there a recompute locks every row it writes, changed
  or not, and the same set of filings may be ingested again and again, in any version.
* Reload: loads of a table run one after the other, with log entries in that order; equal validators
  mean equal content; the file does not change between a HEAD request and its download.
* Layouts: a bucket's pattern is any predicate on versions.
* Rename: which buckets a row has a position in depends on its text after the first comma, as it
  does for every row whose first cell has no quotation mark.

## Model

| member | source | states |
|---|---|---|
| `MetaFile.MetaReadsBackExactly` | src/bulk/dump.rs:684-715 | The sidecar written after a response reads back as what was recorded if and only if the size fits sixty-four bits and the entity tag, when there is one, is on one line without spaces at its ends |
| `MetaFile.PaddedValueIsRead` | src/bulk/dump.rs:698-715 | White space around a value in the sidecar does not matter |
| `MetaFile.ReadMeta` | src/bulk/dump.rs:698-715 | The reading loop, against the line-by-line specification `ReadMetaLines` |
| `Download.Understand` | src/bulk/dump.rs:812-880 | A response is refused exactly for another status, or for a 206 whose range is missing or starts elsewhere, each with its error; one accepted starts at byte 0 or at the byte asked for |
| `Download.DumpCache.DownloadResumable` | src/bulk/dump.rs:912-1026 | One attempt on the three files: its outcome, and exactly the file operations it performs, in order |
| `Download.DumpCache.ReceiveBody` | src/bulk/dump.rs:954-1026 | Truncate or append, record the headers, copy the body, then rename, keep or discard by the declared length |
| `DownloadOutcomes.RefusedExactly` | src/bulk/dump.rs:920-973 | An attempt is refused exactly when there is no answer to use, and loses nothing but a partial the server named another version of |
| `DownloadOutcomes.AttemptLeaves` | src/bulk/dump.rs:935-1026 | For every disk and answers: the outcome, and the three files it leaves, from the answer used |
| `DownloadOutcomes.DiscardedExactly` | src/bulk/dump.rs:1004-1016 | A partial is discarded exactly when the answer ended and declared fewer bytes than there then are; partial and sidecar are gone and the next attempt asks from byte 0 |
| `DownloadOutcomes.CompletedExactly` | src/bulk/dump.rs:996-1026 | The finished file changes exactly when an answer ended and declared as many bytes as there then are, or no number; then it is the whole partial |
| `DownloadOutcomes.CutShortResumes` | src/bulk/dump.rs:920-1003 | An attempt cut short keeps all it received, and the next asks for what comes after it if there is a validator |
| `DownloadOutcomes.EvictedIsGone` | src/bulk/dump.rs:2129-2144 | Evicting a dump leaves nothing of it |
| `DownloadRuns.EvictionKeeps` | src/bulk/dump.rs:2133-2144 | Eviction, stopped anywhere, leaves no partial whose sidecar names another version |
| `DownloadRuns.RestartKeeps` | src/bulk/dump.rs:954-995 | Truncating, recording and appending in that order keeps the partial a beginning of the version named, at every crash point, a torn sidecar included |
| `DownloadRuns.ResumeKeeps` | src/bulk/dump.rs:920-953 | A resumed body continues the version the saved validator names |
| `DownloadRuns.AttemptKeeps` | src/bulk/dump.rs:912-1026 | A whole attempt, crashed anywhere, with the server's file replaced between its two requests, keeps that |
| `DownloadRuns.NeverSplices` | src/bulk/dump.rs:903-911 | In every run of attempts, crashes, replacements and evictions the partial begins the version its validator names, and the finished file is a beginning of one version, a whole one when totals are declared |
| `DownloadRuns.UnguardedResumeSplices` | src/bulk/dump.rs:930-952 | The assumption is needed: whatever was saved, a server that ignores `If-Range` and sends no comparable tag makes an attempt join two versions |
| `DownloadProgress.AttemptProgress` | src/bulk/dump.rs:920-1021 | With one version and a server that delivers a byte when it breaks off, an attempt finishes with the published bytes or strictly narrows the gap, and never discards the partial as too long |
| `DownloadProgress.ReachableIsSound` | src/bulk/dump.rs:920-930 | Every reachable cache meets what the progress argument starts from |
| `DownloadProgress.EnoughAttemptsFinish` | src/bulk/dump.rs:996-1021 | More attempts than the gap always end with the published file, from any such state |
| `Chains.UpdateIsExact` | src/db/mod.rs:366-418 | The one-chain statement writes into each row it touches the value ranking the whole table would give it |
| `Chains.WholeChainIsKept` | src/db/mod.rs:407-418 | The member filter keeps every chain it keeps a member of whole |
| `Chains.GroupIsResolved` | src/db/mod.rs:407-418 | Resolving a key writes at least the rows whose header puts them under it, and besides them only the key's own row, when that is an unattached amendment |
| `Chains.OnlyTwoGroupsChange` | src/bulk/ingest.rs:187-198 | Storing a filing changes the derived columns of no row outside the chain it joins and the chain it leaves |
| `ChainOrder.OneMostRecent` | src/db/mod.rs:384-402 | Every chain has exactly one filing marked most recent, and all its filings name that one as the latest |
| `ChainOrder.OrderedIsSorted` | src/db/mod.rs:391-392 | Chain order is the original first, then amendment number with a missing one first, then filing id |
| `ChainOrder.AmendmentsInOrder` | src/db/mod.rs:391-392 | In the columns, of two amendments of a chain the one without a number comes first, of two numbers the smaller, of equal or missing ones the smaller id |
| `ChainOrder.OriginalComesFirst` | src/db/mod.rs:391-392 | Every `amendment_chain` starts with the original, and only the original has version 0 |
| `ChainOrder.MostRecentExactly` | src/db/mod.rs:433-437 | The most recent filing is the original only if it is alone, else the amendment that outranks all others; one without a number only if none has a number |
| `ChainOrder.MostRecentIsLast` | src/db/mod.rs:389-398 | The most recent filing comes after every other of its chain |
| `ChainOrder.LoneAmendment` | src/db/mod.rs:455-460 | An amendment that cannot be attached is version 0 of a chain of itself, marked unresolved |
| `ChainOrder.ColumnsOf` | src/db/mod.rs:384-402 | `amendment_chain` lists in chain order exactly the filings up to and including this one; the version counts those before it; the previous filing is the last of them |
| `ChainOrder.LateOriginalAttaches` | src/db/mod.rs:455-463 | An amendment whose original is missing is marked unresolved, and ingesting that original attaches it: no longer marked, of version above 0, in a chain that starts with the original |
| `Ingest.FilingTables.IngestFiling` | src/bulk/ingest.rs:158-300 | One ingest: the row and the Schedule E lines stored, other filings' lines untouched; in Resolve mode the chains joined and left right whatever they were, and the whole table right if it was; in Defer mode no derived column touched |
| `Ingest.RecomputedChains` | src/bulk/ingest.rs:268-287 | The rows of the two chains recomputed get their right columns, and every other row keeps what it had, right or not |
| `Ingest.FilingTables.StoreLines` | src/bulk/ingest.rs:234-266 | Deleting and inserting leaves exactly the lines that read as Schedule E records, by their position in the body |
| `Chains.WholeTableIsExact` | src/db/mod.rs:420-421 | Ranking within the partitions of all rows, with no member filter, writes every row and gives it the columns of its chain |
| `Ingest.FilingTables.ResolveAll` | src/db/mod.rs:420-421 | The whole-table statement makes every derived column right, whatever it was |
| `Ingest.RecomputeKeepsCoherence` | src/bulk/ingest.rs:268-287 | Recomputing the chain joined and the chain left is recomputing the whole table |
| `Ingest.IngestAllIsStoreThenResolve` | src/bulk/ingest.rs:84-88 | A batch in Resolve mode leaves the tables of a batch in Defer mode resolved once at the end |
| `Ingest.StoredRow` | src/bulk/ingest.rs:200-233 | After a batch each filing has the row the batch gives it, or the one it had |
| `Ingest.OrderDoesNotMatter` | src/bulk/ingest.rs:15-21 | Filings that arrive in any order, or more than once, leave the same base and derived tables |
| `ConcurrentIngest.ReachableIsOrderly` | src/bulk/ingest.rs:187-281 | In every interleaving: one transaction for each filing, locks exclusive and in ascending order, all held before resolving |
| `ConcurrentIngest.WaitsClimb` | src/bulk/ingest.rs:272-279 | Along a wait the awaited chain lock strictly grows |
| `ConcurrentIngest.NoWaitCycle` | src/bulk/ingest.rs:272-279 | The wait-for graph of the chain locks has no cycle, in every reachable state |
| `ConcurrentIngest.SomeoneCanProceed` | src/db/mod.rs:488-492 | No set of waiting transactions waits only for itself |
| `ConcurrentIngest.NeverStuck` | src/bulk/ingest.rs:268-289 | While anything is in flight some transaction can take its next step |
| `IngestCoherence.ForeignIsLone` | src/db/mod.rs:407-418 | When headers name originals, a row written outside the locked chains is an amendment that stands alone |
| `IngestCoherence.CommitIsCoherent` | src/bulk/ingest.rs:268-289 | What a transaction commits makes the derived columns of the whole table right |
| `IngestCoherence.RightStep` | src/bulk/ingest.rs:187-289 | Every statement of every transaction keeps the committed columns right, and what each transaction is about to write right for the table it would commit |
| `IngestCoherence.ReachableIsCoherent` | src/bulk/ingest.rs:77-83 | After any interleaving every chain's committed derived columns are the resolver applied to the committed rows, when headers name originals |
| `IngestRace.RaceIsReachable` | src/db/mod.rs:407-418 | Ingesting K, then X and B together, where B amends K and K amends X, reaches a state where the later commit wrote K from a snapshot without X |
| `IngestRace.RaceLeavesStale` | src/bulk/ingest.rs:79-82 | In that state K stays marked unattached though its original is stored: the columns are stale |
| `IngestRace.CoherentExactly` | src/bulk/ingest.rs:79-82 | Over a set of filings, every reachable state has the right columns if and only if none amends an amendment of an original |
| `RowLocks.RowLocksCanClose` | src/bulk/ingest.rs:269-272 | With the locks on rows, re-ingesting an amendment while its original is ingested lets the two wait for each other |
| `RowLocks.TwoMovesCanClose` | src/bulk/ingest.rs:272-279 | So do two concurrent moves between the same pair of chains, although their chain locks are taken in order |
| `RowLocks.SharedKeyCloses` | src/bulk/ingest.rs:187-281 | Any two filings with one chain key can be ingested so that each waits for the other |
| `RowLocks.NameCircleCloses` | src/bulk/ingest.rs:187-281 | Amendments that name each other in a circle can be ingested so that each waits for the row of the next |
| `RowLocks.CircleNeedsNames` | src/db/mod.rs:366-418 | Nothing else can: a circle of waits for chain locks and rows, some of them locked by statements half done, comes from a shared key or such a circle |
| `RowLocks.DeadlockExactly` | src/bulk/ingest.rs:187-281 | Over a set of filings a circle of waits can be reached if and only if two of them have one chain key or some name each other in a circle |
| `CoverFill.Filing.FillColumn` | examples/golden_fixtures.rs:450-466 | It succeeds if and only if some number of simultaneous passes below thirty-two settles the column, and leaves the cover it settles on |
| `CoverFill.Filing.CopyColumnAIntoB` | examples/golden_fixtures.rs:471-500 | The two loops, against the copies they make of the cover as it was before |
| `FillBalance.CopyFailsExactly` | examples/golden_fixtures.rs:471-500 | Copying fails exactly when a Column B input that has a Column A rule is not in the layout |
| `FillBalance.InputsAreCopied` | examples/golden_fixtures.rs:471-500 | Each such input ends with the cell of its Column A rule, 6(a) with that of 6(b) |
| `FillBalance.SameLineIsCopied` | examples/golden_fixtures.rs:483-494 | Line 6(a) of Column B gets the cell of line 6(b) of Column A, every other input that of its own line |
| `FillBalance.OthersAreKept` | examples/golden_fixtures.rs:471-500 | Every other field keeps its cell |
| `CoverFill.Filing.ZeroBlankAmounts` | examples/golden_fixtures.rs:503-516 | Every blank amount field becomes 0.00 and nothing else changes |
| `CoverFill.Filing.Balance` | examples/golden_fixtures.rs:519-524 | It succeeds exactly when its stages can, and leaves what they leave |
| `CoverFill.OneFill` | examples/golden_fixtures.rs:446-449 | A cover fills to one result only, however many passes it takes |
| `FillConvergence.PassAt` | examples/golden_fixtures.rs:452-463 | A pass gives each field its rule's expected value, or leaves it when its check matches |
| `FillConvergence.RanksSettle` | examples/golden_fixtures.rs:446-449 | After k passes every line of rank below k has the value its inputs and schedules determine, and keeps it |
| `FillConvergence.FinalAfter` | examples/golden_fixtures.rs:450-466 | Once every rank is final the column is settled exactly when its final values can be read back as amounts |
| `FillConvergence.ConvergesExactly` | examples/golden_fixtures.rs:450-466 | With ranks up to 30, thirty-two passes settle the column if and only if its final values fit an amount |
| `FillConvergence.FillsToFinals` | examples/golden_fixtures.rs:450-466 | What is then left is the cover with each field's final value written in, and no other cover |
| `FillBalance.ZeroesKeepSettled` | examples/golden_fixtures.rs:502-516 | Writing 0.00 into blank fields changes no check |
| `FillBalance.BalanceSettlesBoth` | examples/golden_fixtures.rs:518-524 | After a successful `balance` every check of both columns is reported and matches |
| `FillBalance.SumIsDifference` | examples/golden_fixtures.rs:452-463 | A formula is the total of the lines it adds less that of the lines it subtracts |
| `FillBalance.BalancedIsRight` | examples/golden_fixtures.rs:518-524 | After it each checked cell is that difference, the total of its schedules, or at least that total, as its rule says |
| `FillBalance.SchedulesEndRight` | examples/golden_fixtures.rs:452-463 | Filling keeps a line of schedules that had its total, or more where more is allowed, and otherwise writes the total |
| `FillBalance.BalanceExactly` | examples/golden_fixtures.rs:519-524 | From any cover it succeeds if and only if the final values of Column A fit, the inputs copied are in the layout, and the final values of Column B worked out from those fit |
| `FillBalance.ChainConvergesExactly` | examples/golden_fixtures.rs:451-465 | The bound is exact: a table whose lines each repeat the one before converges if and only if it has at most 31 lines |
| `Sha256Padding.PaddingIsStandard` | examples/golden_fixtures.rs:1317-1323 | Under 2^61 bytes the padded bytes are the padding of section 5.1.1 of FIPS 180-4 |
| `Sha256Padding.PaddingIsShortest` | examples/golden_fixtures.rs:1319-1323 | No shorter multiple of 64 bytes has room for the message, the marker and the length |
| `Sha256Padding.UnpadRecovers` | examples/golden_fixtures.rs:1317-1323 | Dropping the length, the zeros and the marker gives the message back |
| `Sha256.PadMessage` | examples/golden_fixtures.rs:1317-1323 | The loop that pads in place builds those bytes |
| `Sha256.RotrRotatesBits` | examples/golden_fixtures.rs:1330-1333 | The rotation on numbers moves the low bits of a word to its top |
| `Sha256.BlocksAgree` | examples/golden_fixtures.rs:1325-1329 | Sixteen big-endian words from 64 bytes are the parsed block of section 5.2.1 |
| `Sha256.ExtendSchedule` | examples/golden_fixtures.rs:1330-1337 | The in-place extension computes the message schedule of section 6.2.2 |
| `Sha256.RunRounds` | examples/golden_fixtures.rs:1338-1358 | The rolling eight variables compute the sixty-four rounds of section 6.2.2, whose constants `CubeRoots` and whose functions the lemmas of `Sha256Functions` pin down |
| `Sha256.CompressChunk` | examples/golden_fixtures.rs:1325-1362 | One chunk updates the hash by the compression of its block |
| `Sha256Constants.PrimesAreFirst` | examples/golden_fixtures.rs:1237-1302 | The list of primes the constants are made from is the first sixty-four, none left out |
| `Sha256Constants.CubeRoots` | examples/golden_fixtures.rs:1237-1302 | Each round constant is the first thirty-two bits of the fractional part of the cube root of the prime of its place (section 4.2.2) |
| `Sha256Constants.SquareRoots` | examples/golden_fixtures.rs:1307-1316 | Each word of the initial hash value is that of the square root of the prime of its place (section 5.3.3) |
| `Sha256Functions.ChChooses` | examples/golden_fixtures.rs:1341 | Ch chooses each bit of one word or the other by the bit of the first |
| `Sha256Functions.MajIsMajority` | examples/golden_fixtures.rs:1348 | Maj takes the majority of each three bits |
| `Sha256Functions.UpperSigma0Is` | examples/golden_fixtures.rs:1347 | Each bit is the parity of the bits 2, 13 and 22 places above, round the word |
| `Sha256Functions.UpperSigma1Is` | examples/golden_fixtures.rs:1340 | Likewise with 6, 11 and 25 |
| `Sha256Functions.LowerSigma0Is` | examples/golden_fixtures.rs:1331 | Each bit is the parity of those 7 and 18 above round the word and 3 above in it |
| `Sha256Functions.LowerSigma1Is` | examples/golden_fixtures.rs:1332 | Likewise with 17, 19 and 10 |
| `Sha256.AdditionModulo2To32` | examples/golden_fixtures.rs:1332-1360 | The sums the code takes in another order than the standard come to the same |
| `Sha256.Sha256Hex` | examples/golden_fixtures.rs:1306-1364 | The method prints the hash of the padded message's blocks |
| `Sha256.MethodComputesTheStandard` | examples/golden_fixtures.rs:1306-1364 | For every message under 2^61 bytes those blocks hash to the digest of FIPS 180-4, constants and functions as in `Sha256Constants` and `Sha256Functions` |
| `Sha256.HexDecodes` | examples/golden_fixtures.rs:1363 | The output has eight lower-case hexadecimal digits for each word, which read back as the word |
| `BulkDates.BothFormsAreRead` | src/bulk/loader.rs:540-569 | Every date of years 1 to 9999 is recognised as MMDDYYYY and MM/DD/YYYY, with any white space around it |
| `BulkDates.OnlyTheTwoForms` | src/bulk/loader.rs:545-569 | Text that normalises is one of the two forms of the date it becomes, unless the slashed form carries a sign |
| `BulkDates.DateTwinDenotes` | src/bulk/loader.rs:540-569 | The ISO text reads back as the date the raw text denotes, and is missing for text that denotes none |
| `BulkDates.LeapYearsAre` | src/bulk/loader.rs:565-568 | The leap years up to a year are its fourths less its hundredths and its four-hundredths: the Gregorian calendar |
| `BulkDates.MonthsAre` | src/bulk/loader.rs:565-568 | From March on the months follow the pattern of 153 days in five, and the year has 365 days or 366 |
| `Csv.CellReadsBack` | src/bulk/loader.rs:574-580 | A field written bare or quoted reads back as itself, whatever follows it |
| `Csv.EmptyTextReadsAsNull` | src/bulk/loader.rs:591-595 | Empty text is the one cell not recovered: it reads back as NULL |
| `Csv.TextReadsBack` | src/bulk/loader.rs:571-580 | Any records without empty text, written one after the other, read back as those records |
| `Staging.StageToTempCsv` | src/bulk/loader.rs:455-519 | The reading loop, against the staging of the classified lines; `FileSaysItsInput` says what that is of the bytes |
| `Staging.WriteRow` | src/bulk/loader.rs:494-509 | One row's text and count: its fields, a date twin for each date column, the cycle |
| `Staging.ReadUntilNewline` | src/bulk/loader.rs:469-472 | A line ends after its newline or with the data |
| `StagingRoundTrip.LinesAreTheData` | src/bulk/loader.rs:469-472 | The lines read are the input, no byte lost or read twice |
| `StagingRoundTrip.LinesEndAtNewlines` | src/bulk/loader.rs:469-472 | Each line ends at its first newline, the last one perhaps with the data |
| `StagingRoundTrip.StageExactly` | src/bulk/loader.rs:468-517 | Staging fails exactly when a malformed line comes before the limit's last row, naming the first; otherwise it keeps the limit's first rows |
| `StagingRoundTrip.LimitKeepsFirst` | src/bulk/loader.rs:512-517 | The rows staged with a limit are the first rows of an unlimited staging |
| `StagingRoundTrip.NulledIsExact` | src/bulk/loader.rs:497-507 | `dates_nulled` is the number of cells of emitted rows that are not blank and not a date |
| `StagingRoundTrip.StagedFileReadsBack` | src/bulk/loader.rs:464-519 | However lines are decoded and classified, the staged file read as the database reads it is the rows of the staged lines, in order |
| `StagedInput.ClassifyExactly` | src/bulk/loader.rs:475-492 | A line of fields with bars between them is blank exactly when all white space, else data of its first fields exactly when it has as many as the source has columns, or more where those are allowed |
| `StagedInput.EveryTextHasFields` | src/bulk/loader.rs:475-479 | Every text is some fields with bars between them and perhaps a line ending |
| `StagedInput.FieldsAreBars` | src/bulk/loader.rs:479-481 | It has one field more than bars |
| `StagedInput.FileSaysItsInput` | src/bulk/loader.rs:455-519 | From the input's bytes: staging succeeds exactly when the lines wanted have a fitting number of bars, and the file reads back as one row for each, which says the line's fields, dates and the cycle; else the error names the first line that neither is blank nor fits |
| `StagedInput.PlainCellsAreJoined` | src/bulk/loader.rs:571-580 | Cells that need no quotes are written as they are with bars between them |
| `StagedInput.NulledIsNoDate` | src/bulk/loader.rs:497-507 | A cell counts as nulled exactly when it says something and is no date |
| `StagingRoundTrip.RowSaysItsLine` | src/bulk/loader.rs:494-509 | A stored row holds every field of its line, for each date column the date its text denotes, and the cycle |
| `StagingRoundTrip.RowFitsColumns` | src/bulk/loader.rs:582-592 | The copy names a column for each cell exactly when every date column is a column of the source |
| `Reload.BulkTable.Load` | src/bulk/loader.rs:144-261 | One load, against the specification `LoadStep`; when it skips, refuses and loads is said by `SkippedExactly` and `LoadBalances` |
| `Reload.BulkTable.FindLastFullLoad` | src/bulk/loader.rs:275-295 | The newest logged load of the cycle without a row limit, whatever its mode |
| `ReloadRuns.OnlyLoadsMatter` | src/bulk/loader.rs:220-229 | A run with its skipped, refused and failed calls left out ends in the same rows and log |
| `ReloadRuns.SkippedExactly` | src/bulk/loader.rs:303-315 | After any run a call is skipped exactly when the cycle's last full load gave the ETag the server gives now, or, when one gave none, its modification time |
| `ReloadRuns.LoadBalances` | src/bulk/loader.rs:182-261 | When a call loads, that its counts balance the rows, that appending keeps the rows before and the file's rows come last, and what the one new log entry says |
| `ReloadRuns.OtherCyclesAreUntouched` | src/bulk/loader.rs:205-215 | A load leaves the rows and the last full load of every other cycle as they were |
| `ReloadRuns.UnconfirmedRunsKeepRows` | src/bulk/loader.rs:182-192 | However many calls a run makes, without confirmation it never deletes a row of a cycle with more rows than each threshold |
| `ReloadRuns.RowsAreOfLoads` | src/bulk/loader.rs:144-295 | After any run a cycle's rows are what its committed loads leave in an empty table, and the skip test looks at the last full one of them |
| `ReloadRuns.SkipsRightlyExactly` | src/bulk/loader.rs:160-180 | The skip is right for all contents of the files loaded if and only if no load was full, or the newest one was full and replaced the rows or was the first |
| `ReloadRuns.LatestLoadWins` | src/bulk/loader.rs:205-226 | With only full replacing loads a cycle has the rows of its latest successful load |
| `ReloadRuns.SkippingIsAlwaysLoading` | src/bulk/loader.rs:155-180 | Over any such run, failures and refusals included, skipping unchanged files leaves the rows that always loading leaves, if equal ETags, or without two of them equal times, mean equal rows |
| `Encoding.Utf8ReadsBack` | src/parser/filing.rs:960-970 | Every text is the decoding of its UTF-8 bytes, as section 4 of RFC 3629 defines them |
| `Encoding.Utf8WritesBack` | src/parser/filing.rs:960-970 | Only the UTF-8 bytes of a text decode to it |
| `Encoding.ByteOfChar` | src/parser/filing.rs:955-958 | Every byte is one character of Windows-1252 and is that character's byte, so no input is rejected |
| `Encoding.Encode1252` | src/parser/writer.rs:127-132 | It has bytes exactly for text all of whose characters are in Windows-1252, and they decode to it |
| `EncodingAgreement.PlainLines` | fuzz/fuzz_targets/common.rs:47-61 | A line reads the same in its own encoding and in Windows-1252 exactly when it is ASCII or not UTF-8 |
| `EncodingAgreement.ReadersAgreeExactly` | src/parser/stream.rs:38-50 | The eager and the streaming reader give the same text if and only if the check holds of the file after its byte-order mark |
| `EncodingAgreement.CheckIsSound` | fuzz/fuzz_targets/common.rs:47-61 | The check never claims too much, and claims too little exactly when a byte-order mark precedes an ASCII first line of an otherwise plain file that is not UTF-8 |
| `EncodingAgreement.WriterIsReadBack` | src/parser/writer.rs:123-142 | The writer's bytes read back as its text if and only if the text does not start with a byte-order mark, nor with the three characters that spell one when the output is Windows-1252 |
| `Partitions.NamesAreExact` | src/bulk/dump.rs:521-543 | A table is taken for a cycle exactly when it has that cycle's partition name, for every parent and every string |
| `Partitions.PartitionsAreExact` | src/bulk/dump.rs:592-610 | An archive's partitions are in order of cycle, each once, and are those some table has the name of |
| `RestorePlans.PlanRestore` | src/bulk/dump.rs:1189-1235 | The planning loop, against the plan specified from the archive's table names |
| `RestorePlans.PlansAgreeExactly` | src/bulk/dump.rs:2174-2215 | For cycles of a cycle-split dump the two planners give the same plan if and only if the archive has every table named |
| `RestorePlans.MissingIsFirst` | src/bulk/dump.rs:1204-1222 | The cycle named as missing is the first requested one without a table, and the cycles offered are those with one, in order |
| `RestorePlans.PlanIsExact` | src/bulk/dump.rs:1223-1235 | A plan for cycles asks for rows only, for the parent table first exactly when it is not there yet, then for the table of each cycle in the order asked |
| `RestorePlans.RefusedExactly` | src/bulk/dump.rs:1201-1222 | It is refused as not partitioned exactly when the archive has no cycle's table, and for a missing cycle exactly when it has some but not all of those asked for |
| `ArchiveListing.ParseToc` | src/bulk/dump.rs:555-579 | The reading loop over a listing's lines |
| `ArchiveListing.EntryReadsBack` | src/bulk/dump.rs:449-497 | A printed entry reads back as itself if and only if its schema is neither `-` nor a word of upper-case letters and underscores |
| `ArchiveListing.ListingReadsBack` | src/bulk/dump.rs:555-579 | A listing with comments and blank lines between its entries reads back as the entries in order |
| `ArchiveListing.HeaderReadsBack` | src/bulk/dump.rs:557-567 | A header line of when the archive was made, or of which version, gives its text without outer spaces |
| `ArchiveListing.LargeNumbersAreNoEntry` | src/bulk/dump.rs:465-469 | A line with a dump id over thirty-two bits or a catalog id over sixty-four is no entry |
| `ArchiveListing.NamedKindsAreKinds` | src/bulk/dump.rs:400-428 | Every kind the code acts on is printed as it is read |
| `SeenList.AppendAdds` | src/fec/cache.rs:146-177 | After an append to a list whose last line is ended it holds the new ids besides those it had |
| `SeenList.LargeIdsAreIgnored` | src/fec/cache.rs:146-161 | A number over sixty-four bits on the list is no id |
| `SeenList.AppendAddsExactly` | src/fec/cache.rs:146-177 | After a tail of digits an append of new ids adds them if and only if the tail is empty, or reads as 0 with 0 on the list already |
| `SeenList.CutTextIsPrefix` | src/fec/cache.rs:163-177 | An append cut short anywhere leaves whole lines and a tail of one more |
| `SeenList.CutIdSwallowsNext` | src/fec/cache.rs:163-177 | An append cut off inside an id makes the next append's first id unreadable |
| `SeenList.CutIdIsListed` | src/fec/cache.rs:146-161 | Until then the digits written count as an id |
| `Watch.Watcher.Poll` | src/cli/efile.rs:184-237 | One poll: what it processes, remembers and appends to the list |
| `Watch.PollsAscend` | src/cli/efile.rs:184-190 | Each poll processes ids in ascending order |
| `WatchRuns.ListIsRecorded` | src/cli/efile.rs:234-237 | In every run whose cut appends were cut between lines, the list holds exactly the ids of polls and marking runs that ended and those whose lines were written, and the watcher remembers the same |
| `WatchRuns.SurvivesCutExactly` | src/fec/cache.rs:163-177 | After a cut the next append leaves all recorded ids listed if and only if the cut fell between lines; otherwise its first id is forgotten at the next start |
| `WatchRuns.OncePlusSlips` | src/cli/efile.rs:186-237 | In every run, appends cut anywhere included, an id is processed at most once more than it slips the watcher's memory |
| `WatchRuns.SlipsAreCrashes` | src/cli/efile.rs:186-237 | While appends are cut between lines only, an id slips exactly when the process dies after processing it and before writing its line |
| `WatchRuns.ExactlyOnce` | src/cli/efile.rs:234-237 | Without crashes an id is processed once if the first poll that had it wanted it, and never otherwise |
| `LayoutTables.PositionReadsBack` | build.rs:295-314 | A column number with or without a fraction of zeros, in any white space, is read as that column |
| `LayoutTables.PositionExactly` | build.rs:295-314 | A cell says a column exactly when it is a number so written, not 0, that fits sixty-four bits |
| `LayoutTables.AbsentExactly` | build.rs:295-314 | It says there is none exactly when it is white space or a 0 so written |
| `LayoutTables.FieldsInOrder` | build.rs:192-203 | A table lists its fields in the order its rows first name them |
| `LayoutLoader.LoadTable` | build.rs:153-284 | A field table loads if and only if its rows are readable and, in each bucket, fields and columns are one to one; an error says something true of the table |
| `LayoutLoader.ReadRows` | build.rs:192-238 | The row loop: each field's first column in each bucket, no later row disagreeing |
| `LayoutLoader.FindShared` | build.rs:240-252 | Two fields with one column are found if there are any |
| `LayoutLoader.VersionsAreDisjoint` | build.rs:254-272 | A version is listed by a bucket exactly when that bucket is the first whose pattern matches it |
| `LayoutLoader.LookupIsFirstMatch` | src/parser/schema.rs:279-285 | Looking a version up in the compiled lists is matching it against the patterns in order |
| `LayoutLoader.FieldsAreExact` | build.rs:274-277 | The fields kept are those some bucket has a column for, each once |
| `Layouts.CompiledIsLayout` | build.rs:682-708 | Columns are distinct and below the width, the width is the least, and the name index is a sorted list of all the fields |
| `Layouts.PresentInOrder` | build.rs:682-708 | A layout has its fields in the order of the table |
| `Layouts.IndexOf` | src/parser/schema.rs:238-251 | The binary search of the name index finds what a search of all fields finds |
| `Layouts.ToCells` | src/parser/filing.rs:228-239 | Values placed at their columns, the rest blank, read back as the values |
| `LayoutCompiler.CompiledFieldsAreExact` | build.rs:682-698 | A compiled layout has a field at a column exactly when some row of the table gives it that column |
| `LayoutCompiler.VersionFindsItsColumn` | src/parser/schema.rs:279-285 | For every version the field found by name has the column the table gives it in the first matching bucket |
| `Urls.PasswordIsExact` | src/bulk/preflight.rs:360-386 | A URL is taken apart exactly as it is put together, in one way only |
| `Urls.StrippedHasNone` | src/bulk/preflight.rs:386-422 | A stripped URL has no password, so stripping it again changes nothing |
| `Urls.UnchangedExactly` | src/bulk/preflight.rs:386-422 | A URL comes back unchanged exactly when no password is found in it; it changes and no password is handed on exactly when one is found that decodes to nothing |
| `Urls.EmptyDecodesExactly` | src/bulk/preflight.rs:424-448 | Only the empty password decodes to nothing, if bytes that are not UTF-8 never do |
| `Urls.EmptyPasswordIsDropped` | src/bulk/preflight.rs:386-422 | Every URL with an empty password loses the colon before it |
| `Urls.AliceLosesHerColon` | src/bulk/preflight.rs:388-389 | `postgres://alice:@host/db` is such a URL |
| `Urls.RedactThenStrip` | src/bulk/preflight.rs:360-425 | Redacting twice is redacting once, and stripping a redacted URL strips the original |
| `Urls.RedactedHidesPassword` | src/bulk/preflight.rs:360-386 | What is printed does not depend on the password |
| `Urls.ReadEscapes` | src/bulk/preflight.rs:424-448 | The decoding loop, against the escape-by-escape specification |
| `Urls.EncodedPasswordReadsBack` | src/bulk/preflight.rs:386-448 | A password of any text, percent-encoded in either case and however sparingly, is the password handed on |
| `Urls.EncodedUrlStrips` | src/bulk/preflight.rs:386-422 | Stripping a URL with such a password gives the URL without it and the text |
| `Urls.PassesThrough` | src/bulk/preflight.rs:424-448 | Bytes without an escape are decoded to themselves, stray percent signs included |
| `Urls.FirstEscapeDecodes` | src/bulk/preflight.rs:424-448 | What comes before the first escape stays, the escape is its byte, the rest is decoded on its own |
| `Rename.Engine.Apply` | scripts/rename_canonical.py:434-497 | The whole run, against the specification rule by rule |
| `RenameRuns.WritesExactly` | scripts/rename_canonical.py:445-489 | Files are written exactly when the run is not a dry one, no row without a comma stopped it, and every rule was acceptable in its turn: its table there, its new name in snake case, its old name or else the new one on a row, both only as a listed merge whose rows share no bucket |
| `Rename.Engine.RenameRows` | scripts/rename_canonical.py:413-416 | Exactly the rows of the old name get the new one; it stops when one of them has no comma |
| `Rename.Engine.CheckMerge` | scripts/rename_canonical.py:422-431 | A merge is refused exactly when some bucket positions a row of each name |
| `RenameRuns.RunChangesNamesOnly` | scripts/rename_canonical.py:413-416 | Every file keeps its header, its lines in order, and all of each line from the first comma on |
| `RenameRuns.RunKeepsUnclashed` | scripts/rename_canonical.py:422-431 | If no bucket positions two rows of one name before a run, none does after it |
| `RenameRuns.SecondRunExactly` | scripts/rename_canonical.py:37-38 | After a run that succeeds a second one finds nothing to do if and only if no new name is the old name of a rule for the same table |

## Left out

- HTTP, TLS, zip decoding, progress bars, `pg_restore` and `df` processes, environment and clocks:
  their results are parameters. Content-Range and date header parsing likewise.
- I/O errors inside an attempt other than a dropped connection: they are the crash points of
  `DownloadRuns`, not return values of `DownloadResumable`. Durability of file data after a power loss.
- DownloadRuns.NeverSplices: without a declared total the finished file may be a shorter beginning of
  its version, because nothing in the protocol tells where it ends.
- JSON header and summary columns, report codes and the other columns of `filings` that the resolver
  does not read: one opaque `record`. `skipped_lines` and the returned counts.
- ConcurrentIngest.NeverStuck: waits for row locks are not part of it, because with them it can fail; `RowLocks` says
  when. Waits for unique indexes are in neither. Defer-mode ingests and the whole-table resolve are
  modelled one after the other only.
- Schedule sums: their totals are numbers the cover does not influence, the rule tables of F3, F3P
  and F3X are arbitrary tables, and `Decimal`'s saturation at 2^96 is not modelled.
- CoverFill.Filing.FillColumn: amounts with fractions of a cent do not occur, because every value is written with two
  decimals before it is read.
- Sha256.MethodComputesTheStandard: messages of 2^61 bytes and more, which the standard does not define.
- `encoding_rs`'s byte-order-mark sniffing in the loader's `decode_line`: the staging theorems hold
  for every decoder instead. `WINDOWS_1252` in the parser is used without that sniffing, as modelled.
- The split of text into lines by the two readers: the streaming reader also drops a lone carriage
  return before the end of the file, which `str::lines` keeps.
- COPY's own errors, such as a duplicate key: an arbitrary failure of the load.
- RFC 3339 text of a modification time: any printer and reader that are inverse.
- `RemoteMeta::from_headers`, `count_rows`'s SQL, schema-version checks before a load.
- The SQL and shell text the planners' results are turned into.
- Regular expressions of `build.rs`, the generated Rust text, documentation labels and field
  specifications. The record values' trimming on the way in.
- In the rename engine a new name ending in a newline, which Python's `$` lets pass; the families
  of the rename map, which only label the report; decoding of bytes that are not ASCII.
- `estimate`, `mul_div`, `fmt_count`, `fmt_rough_count`, `backfill`, the `.fec` record parser, the
  API server, the bindings and the command-line text: easy members or other subjects.
