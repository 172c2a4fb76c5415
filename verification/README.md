# Migration runner and repository audits: a verified model

This project models, in Dafny, the parts of the repository that decide something a later step relies on, and proves
what those decisions guarantee. Each file is one module; `dafny verify dfyconfig.toml` checks all of them.

**The migration runner** (`Migration*.dfy`). A `Db` is what survives a process: the ledger rows and the bodies whose
transaction committed, in commit order. `MigrationLedger` gives one run as a function of that value and of what
happens to each attempted migration: it commits, it commits and the runner dies before it learns so, it fails and the
failure is recorded, it fails and the record is lost, or the runner dies first. `MigrationRunner` is the runner itself,
a database object that the methods update, proved equal to that function. `MigrationProtocol` puts any number of
runners and runs on top, step by step, with the advisory lock deciding who may start. The results: every body commits
at most once and the ledger's `applied` rows are exactly the committed bodies, over every interleaving (and not
without the lock); ledgers grow in prefix order and stay resumable; an admitted gap list is exactly the holes; the
exact set of ledgers from which no run recovers; what a run that returns normally leaves; and that the catalog
validator supplies the 1..n numbering those results rest on, unless the directory holds a `000_` file.
`MigrationVerdicts` and `CatalogVerdicts` say what each answer of the runner and of the validator means, in terms of
the arguments and the ledger alone.

**The criteria parser** (`Criteria*.dfy`) reads a document line by line with a mode, a target list and a buffer. The
loop is proved equal to a declarative reading that has neither. Positions of its entries are persistent keys: the exact
places where a clause can be inserted without moving them are proved, and what the insertion costs everywhere else.

**The comment scanner** (`CommentScanner.dfy`, `CommentPieces.dfy`) blanks comments in a character array in place; it
is proved equal to a reference that assigns one lexical state to each character, and that reference to a grammar of
literals, comments and single characters.

**The debt ratchet** (`Debt*.dfy`) works on the finding strings themselves. `KnownDebt` is the debt file that `--gate`
reads and `--baseline` rewrites. `DebtVerdicts` states the ratchet on sentences as they are written.

**The drift classifier** (`AnchorDrift.dfy`, `DriftVerdicts.dfy`) decides whether a recorded index still names the
bullet it judged.

**The model inliner** (`ModelInliner.dfy`) replaces references by model bodies. Meaning is any function of the words of
a query and of the relations it reads, so the result holds for every semantics of SQL of that kind.

**The legacy inventory** (`LegacyInventory.dfy`, `LegacySummary.dfy`, `ReplacementWalk.dfy`, `DecisionLedger.dfy`) is
checked as an exact cover of a census, a functional graph without cycles and a set of interleaved chains.

**The regression gate** (`EvalGate*.dfy`) compares a run with a baseline question by question and by score; scores are
exact rationals, and the verdict is stated in whole numbers.

**The division proof** (`DivisionProof.dfy`, `ModuleMoves.dfy`): the behaviour dump comparison is a keyed diff that has
to decide sequence equality, and the census of moved definitions has to read a division as the moves it consists of.

Where the code and its own documentation disagree the model follows the code, and a lemma marks the place:

- `scripts/apply_migrations.py:319-325` calls a recorded failure a retry. A recorded failure of a named gap is not: it
  makes the ledger final (`MigrationRecovery.OnlyGapFailuresAreFatal`). Before the run: an admitted run ends that way
  exactly when one of the gaps it names fails for the record after the smaller ones committed
  (`MigrationRecovery.EndsFinalIff`), so a run can end that way exactly when it names a gap
  (`MigrationRecovery.NamingAGapIsTheRisk`). `MigrationRecovery.GapFailureIsFatal` is the smallest case.
- `scripts/eval_gate.py:27-35` says a skip is never a regression and a missing question never a hard failure. Both fail
  the gate exactly under the condition of `EvalGateLaws.SkipsFailIff`; `EvalGateLaws.OneSkipCanFail` has the smallest
  run.
- `scripts/finished_work_audit.py:405-426` states the parser's guarantee without the blank line before the insertion or
  the open block around it. `CriteriaSafety.GuaranteedIff` is its exact boundary, `CriteriaBlocks.InsertionCosts` the
  bullets lost inside a block.
- `scripts/finished_work_audit.py:510-512` pops the entry a heading replaces; with none there, the block's own first
  bullet goes. `CriteriaBlocks.ReplacingBlock` says exactly when.
- `scripts/finished_work_audit.py:2072-2074` says a finding cannot be both accepted and pending. A plumbing finding can
  (`DebtFile.PendingBesideAccepted`).
- `scripts/check_migration_catalog.py:144-153` looks for missing identifiers from 1 only, so a `000_` file passes. Added
  once 1..h are applied, it is attempted after h, and its recorded failure makes the ledger final exactly when h is
  positive (`MigrationCatalog.ZeroFileBreaksTheOrder`).
- `scripts/dbt_bigquery_dry_run.py:144-147` names a budget that bounds one level and one body, not the result;
  `ModelInliner.ResultExceedsBudgetIff` says when the result exceeds it.
- `scripts/dbt_bigquery_dry_run.py:142` looks at the last part of a qualified name only;
  `ModelInliner.ReadsAreKeptIff` says when that changes what a query reads.
- `scripts/check_ledger_anchors.py:273-283` takes a long enough opening that names one bullet as proof of a rewrite;
  after a removal that is another criterion, exactly as `AnchorDrift.RemovedBulletIs` says.
- `scripts/division_proof.py:339-363` certifies a dump without looking at the uniqueness of tool names, which the
  comparison needs (`DivisionProof.SecondBindingIsSilent`).

## Model

| member | source | states |
|---|---|---|
| MigrationProtocol.ExactlyOnce | scripts/apply_migrations.py:342-420 | over every interleaving of runners, runs, failures, lost records and crashes from a fresh installation: no identifier commits twice, the committed identifiers are exactly the applied rows, each with filename and checksum of the committed body, and later steps keep history and applied rows |
| MigrationProtocol.Safety | scripts/apply_migrations.py:284-311 | from any state of the invariant, every schedule under the lock keeps ledger and schema consistent and only extends the database; a failure record never demotes an applied row |
| MigrationProtocol.StepKeepsInv | scripts/apply_migrations.py:369-420 | the inductive invariant: the lock holder alone is past the lock and its copy of the ledger is the ledger |
| MigrationProtocol.MutualExclusion | scripts/apply_migrations.py:512-528 | no two runners are past the advisory lock at any reachable point |
| MigrationProtocol.WithoutTheLockBodiesRepeat | scripts/apply_migrations.py:512-514 | without the lock there is a schedule in which one body commits twice |
| MigrationProtocol.WithoutTheLockRowsAreDemoted | scripts/apply_migrations.py:290-302 | without the lock there is a schedule in which a failure record turns a committed migration's row into failed |
| MigrationOrder.PrefixOrder | scripts/apply_migrations.py:156-195 | with catalogs numbered 1..n, after any schedule the bodies committed in the order 1, 2, ..., h, the applied rows are exactly 1..h, the only other row is h + 1, and no hole exists |
| MigrationOrder.PrefixKept | scripts/apply_migrations.py:372-420 | that shape, with a failed h + 1, is kept by every schedule from any state that has it |
| MigrationOrder.Resumable | scripts/apply_migrations.py:361-368 | however a schedule of runs of one catalog 1..n was interrupted, the next run without a gap list passes every check, for the whole catalog and every target at or past the head |
| MigrationOrder.FailedBelowHeadIsFinal | scripts/apply_migrations.py:191-195 | once a failed row lies below the head no step of any runner changes the database again, with or without the lock |
| MigrationAdmission.LedgerIff | scripts/apply_migrations.py:156-195 | the ledger validator accepts exactly when every row matches the catalog, every hole is authorised and a failed row can only be the head |
| MigrationAdmission.GapsIff | scripts/apply_migrations.py:314-339 | the gap validator accepts exactly the lists whose members are in the catalog, have no row and are not past the head |
| MigrationAdmission.AdmissionIff | scripts/apply_migrations.py:363-368 | the three checks before the first body, without their order |
| MigrationAdmission.AdmittedGapsAreTheHoles | scripts/apply_migrations.py:179-195 | the positive gap list of an admitted run is exactly the set of holes below the head |
| MigrationAttempts.AttemptsCountWhatHappened | scripts/apply_migrations.py:284-402 | over every interleaving the attempts column counts what happened: recorded failures, plus the one commit of an applied row, and nothing for an identifier without a row |
| MigrationRuns.RunIsASchedule | scripts/apply_migrations.py:504-528 | every call of the runner is a schedule of the protocol that starts and ends with the lock free, so what every schedule keeps every run keeps |
| MigrationRuns.RunIsSafe | scripts/apply_migrations.py:342-423 | one run from any consistent database, whatever the outcomes, leaves a consistent database that extends it |
| MigrationRuns.LoopFails | scripts/apply_migrations.py:403-414 | what a recorded failure leaves: everything below it applied, its own row failed, everything above it untouched |
| MigrationOutcomes.NormalReturn | scripts/apply_migrations.py:342-423 | a run that returns for target t leaves exactly 1..t, all applied with the catalog's filename and checksum; it committed exactly the bodies missing before, in order; applied and skipped are ascending, disjoint and cover 1..t |
| MigrationOutcomes.StartedFrom | scripts/apply_migrations.py:358-368 | a run that reached its first body was admitted and is the catalog loop from the prepared ledger |
| MigrationOutcomes.RerunIsNoop | scripts/apply_migrations.py:375-378 | running a successful request again without its gap list changes nothing, whatever would happen to its bodies, and reports everything skipped |
| MigrationOutcomes.RepeatedRequest | scripts/apply_migrations.py:363-378 | the identical request again, gap list included, leaves the database as it is and is refused exactly when it names a gap |
| MigrationOutcomes.StagedRun | scripts/apply_migrations.py:372-374 | a run to t1 and then to t2 leaves the same database and the same verdict as one run to t2 |
| MigrationOutcomes.SuccessVerifies | scripts/apply_migrations.py:421-441 | after an untargeted success the completeness check succeeds |
| MigrationRecovery.RecoverableIff | scripts/apply_migrations.py:128-195 | the exact set of databases from which some target, gap list and luck completes a catalog 1..n |
| MigrationRecovery.UnrecoverableIsFinal | scripts/apply_migrations.py:128-195 | from any other database no schedule of runs of that catalog completes it either, with or without the lock: the database never changes |
| MigrationRecovery.InterruptedRunsComplete | scripts/apply_migrations.py:342-423 | however runs of one catalog 1..n from a fresh installation were interrupted, one more run whose bodies commit completes the catalog without a gap list, if and only if there is a ledger or no application schema |
| MigrationRecovery.FailedBelowHeadRefusesEveryRun | scripts/apply_migrations.py:191-195 | a failed row below the head: every run is refused whatever its arguments and changes nothing |
| MigrationRecovery.OnlyGapFailuresAreFatal | scripts/apply_migrations.py:403-414 | a recorded failure of an admitted run makes the ledger final if and only if the failed migration was a named gap |
| MigrationRecovery.EndsFinalIff | scripts/apply_migrations.py:369-414 | the same boundary read off the request: an admitted run ends on a recorded failure with a final ledger if and only if one of the gaps it names fails for the record and every smaller one commits |
| MigrationRecovery.NamingAGapIsTheRisk | scripts/apply_migrations.py:314-339 | an admitted run whose attempts all fail ends final if and only if it names a gap, and one that names none never ends final, whatever the outcomes |
| MigrationRuns.StopsOn | scripts/apply_migrations.py:372-414 | the recorded failure a loop stops on is the first pending identifier that does not commit |
| MigrationRecovery.GapFailureIsFatal | scripts/apply_migrations.py:403-414 | the smallest case: 1 and 3 applied, 2 named as a gap, its body fails |
| MigrationRunner.Database.Prepare | scripts/apply_migrations.py:128-141 | creates the ledger unless it exists; refuses an application schema without one and then changes nothing |
| MigrationRunner.Database.CommitMigration | scripts/apply_migrations.py:379-402 | the whole new state after body and applied row commit together |
| MigrationRunner.Database.RecordFailure | scripts/apply_migrations.py:284-311 | the whole new state after the failure row commits alone |
| MigrationRunner.FindRowError | scripts/apply_migrations.py:162-177 | the loop over the rows returns the error of the first offending row |
| MigrationRunner.CheckGaps | scripts/apply_migrations.py:326-339 | the loop over the requested gaps returns the error of the first offending one |
| MigrationRunner.CheckLedger | scripts/apply_migrations.py:156-195 | the validator method computes the specified refusal |
| MigrationRunner.ApplyMigrations | scripts/apply_migrations.py:342-423 | the method, working on its own copy of the ledger, leaves exactly the database and result of the specified run |
| MigrationRunner.ApplyPending | scripts/apply_migrations.py:369-423 | the apply loop against the specified loop, for every outcome of every attempt |
| MigrationRunner.VerifyComplete | scripts/apply_migrations.py:426-441 | the completeness check computes the specified verdict and changes nothing |
| MigrationVerdicts.RunEnds | scripts/apply_migrations.py:369-423 | for every admitted run of a catalog 1..n all of whose attempts commit: with no target, or the last migration as target, it returns if and only if the schema contract holds of the history and fails on the contract otherwise; with an earlier target it returns whatever the contract says |
| MigrationVerdicts.RunStops | scripts/apply_migrations.py:372-414 | an admitted run stops at the first pending identifier that does not commit; by what happened to it, the report, its row and the history are given, with the rows passed before it applied as the catalog has them and the rows after it untouched |
| MigrationVerdicts.RunRefused | scripts/apply_migrations.py:342-368 | what a refused run says and leaves: a target the catalog lacks, then a schema without a ledger, both leaving the database alone; then, over a prepared ledger, the smallest named gap that is none, what is wrong with the rows, and a target below the head |
| MigrationVerdicts.LedgerRefusal | scripts/apply_migrations.py:156-195 | why a ledger is refused: the smallest recorded identifier with a wrong row, as unknown, renamed or applied with another checksum; with every row right, exactly the unnamed holes below a recorded identifier, ascending; with none, a failed row below another |
| MigrationVerdicts.GapRefusal | scripts/apply_migrations.py:326-339 | why a gap list is refused: its smallest member that is not in the catalog, is recorded, with its status, or has nothing recorded above it, with the head |
| MigrationVerdicts.VerifyIff | scripts/apply_migrations.py:426-441 | the completeness check succeeds if and only if there is a ledger whose rows are the catalog's without a hole, every migration has an applied row and the contract holds; it then lists the catalog |
| MigrationVerdicts.VerifyNamesPending | scripts/apply_migrations.py:432-439 | it reports pending migrations exactly when the ledger is sound and some migration has no applied row, and names exactly those, in catalog order |
| MigrationCatalog.ValidateCatalog | scripts/check_migration_catalog.py:115-164 | the catalog validator returns the ordered files or all errors in order |
| MigrationCatalog.GroupFiles | scripts/check_migration_catalog.py:120-129 | the first pass groups the files of each number in directory order and reports the other names |
| MigrationCatalog.FindDuplicates | scripts/check_migration_catalog.py:131-134 | every number with more than one file is reported, in order |
| MigrationCatalog.AcceptedIff | scripts/check_migration_catalog.py:115-164 | a directory is accepted exactly when its names are well formed, no number occurs twice, 1..highest is complete, the pinned file has its number and the manifest, if checked, lists the files |
| CatalogVerdicts.ReportIff | scripts/check_migration_catalog.py:115-164 | each error is reported exactly when the directory or the manifest has it: a malformed name, the group of each number used twice in directory order, the pinned number under another name, the missing numbers below a present one in ascending order, an empty directory, and the three manifest errors |
| MigrationCatalog.AcceptedIsContinuous | scripts/check_migration_catalog.py:144-157 | an accepted directory comes back whole, ascending without a hole, starting at 0 exactly when there is a `000_` file |
| MigrationCatalog.AcceptedIsNumbered | scripts/apply_migrations.py:108-119 | the loaded catalog is numbered 1..n exactly when there is no `000_` file |
| MigrationCatalog.ZeroFileBreaksTheOrder | scripts/check_migration_catalog.py:144-153 | for every accepted directory with a `000_` file and every database holding 1..h of the rest of it: a run that names no gap attempts 0 first, and if that failure is recorded the ledger is final exactly when h is positive, every later run being refused and changing nothing |
| MigrationBody.StripAndRestore | scripts/apply_migrations.py:75-105 | the stripped body holds no transaction boundary, and putting the two lines back gives the file |
| MigrationBody.BodyIff | scripts/apply_migrations.py:79-105 | a file is accepted exactly when it has no boundary line or one outer pair with only blank or comment lines outside it |
| CriteriaParser.CriteriaSplit | scripts/finished_work_audit.py:429-526 | the loop with mode, target and buffer computes the fold over the lines |
| CriteriaParser.ReadLine | scripts/finished_work_audit.py:459-525 | the loop body moves the six variables as one step of the fold |
| CriteriaReading.SplitIsTheReading | scripts/finished_work_audit.py:429-526 | the two lists are the declarative reading: openers in document order, each with the lines that continue it |
| CriteriaReading.WalkReads | scripts/finished_work_audit.py:454-525 | the loop invariant behind it, after every prefix of the document |
| CriteriaInsertion.EntriesAreDisjoint | scripts/finished_work_audit.py:454-525 | a line feeds at most one criterion, of one list |
| CriteriaInsertion.ListedComeFromBullets | scripts/finished_work_audit.py:405-407 | every listed entry comes from a bullet; an appended one from a clause or a bullet |
| CriteriaInsertion.InsertOutsideBlocks | scripts/finished_work_audit.py:405-426 | after a blank line outside every block and paragraph of the text, an inserted clause paragraph leaves `listed` unchanged and adds exactly one entry to `appended`, at a known place, whatever follows |
| CriteriaSafety.GuaranteedIff | scripts/finished_work_audit.py:405-426 | the exact boundary: the guarantee holds for every text that may follow if and only if the line before the place is blank and the place is outside every block and paragraph |
| CriteriaSafety.ListIsSafeIff | scripts/finished_work_audit.py:405-407 | where the inserted paragraph is read as a clause, `listed` stays the same for every text that may follow if and only if the place is in no collecting or replacing block |
| CriteriaBlocks.InsertionCosts | scripts/finished_work_audit.py:494-515 | what the insertion costs in each kind of block, whatever follows it: in a collecting block every later bullet of the block, in an armed replacing block its substitution as well, in an appended block its later bullets from the other list, elsewhere nothing |
| CriteriaBlocks.TextThenBlock | scripts/finished_work_audit.py:506-525 | what n bullets of a block add to the two lists, by the region the block stands in |
| CriteriaBlocks.ReplacingBlock | scripts/finished_work_audit.py:508-515 | for every text before a replacing heading, with k entries, and every block of n bullets under it: the length of the list after it, and that a bullet is lost exactly when k is 0 and n at least 2 |
| CommentScanner.CodeOnly | scripts/finished_work_audit.py:1059-1088 | the in-place scanner leaves exactly the reference masking of the text |
| CommentScanner.Blank | scripts/finished_work_audit.py:1029-1032 | blanks a range except its newlines and touches nothing else |
| CommentScanner.SkipComment | scripts/finished_work_audit.py:1075-1087 | the end of the comment that opens here: everything up to it is comment |
| CommentScanner.MaskedKeepsCode | scripts/finished_work_audit.py:1059-1088 | length and newlines are kept, every character outside comments and all of every literal is unchanged, every other comment character is blank |
| CommentPieces.PieceIsMasked | scripts/finished_work_audit.py:1064-1088 | a text that begins with a piece is masked as that piece and then the rest: a literal in any of the three quotes, escaped quotes inside it included, is kept; a line comment is blanked up to the newline, a block comment up to its first closing mark, either to the end when nothing closes it; any other character is kept |
| CommentPieces.MaskedIsShown | scripts/finished_work_audit.py:1059-1088 | a text read as pieces is masked as what is left to see of them, one after the other |
| CommentPieces.EveryTextReads | scripts/finished_work_audit.py:1059-1088 | every text is read as such pieces, so the scanner is that grammar |
| CommentScanner.MaskedStates | scripts/finished_work_audit.py:1059-1088 | the masked text is read as the original with its comments replaced by plain code |
| CommentScanner.MaskingIsIdempotent | scripts/finished_work_audit.py:1059-1088 | a masked text holds no comment, so masking it again changes nothing |
| DebtRatchet.CheckNewMember | scripts/finished_work_audit.py:1851-1866 | the fold over the recorded entries decides whether a member is new |
| DebtRatchet.RecordingMoreIsSafe | scripts/finished_work_audit.py:1869-1901 | recording more never makes a finding new |
| DebtRatchet.CountedIff | scripts/finished_work_audit.py:1883-1901 | a counted finding blocks exactly when its count is above every count recorded under its phrase |
| DebtRatchet.ListedIff | scripts/finished_work_audit.py:1851-1866 | any other unrecorded finding blocks exactly when it lists nothing or lists a member nobody recorded under its head |
| DebtRatchet.RenderedList | scripts/finished_work_audit.py:1836-1848 | round trip: a written list of at least two members is read back as its head and its members, a single member is not read as a list |
| DebtRatchet.ShrinkingList | scripts/finished_work_audit.py:1846-1866 | a recorded list that shrinks stays accepted exactly until one member is left |
| DebtVerdicts.CountedOnText | scripts/finished_work_audit.py:1828-1901 | on the sentences: against recorded counts, a count blocks exactly when it is above every count recorded under the same phrase, whatever the examples after the colon |
| DebtVerdicts.ListedOnText | scripts/finished_work_audit.py:1836-1866 | on the sentences: against recorded lists, a list of two or more blocks exactly when one of its members is in no list recorded under its head |
| DebtFile.KnownDebt.Gate | scripts/finished_work_audit.py:1926-2019 | what the gate blocks on and the code it returns |
| DebtFile.KnownDebt.Baseline | scripts/finished_work_audit.py:2022-2095 | the whole new debt file; an unreadable file is left alone |
| DebtFile.CleanIff | scripts/finished_work_audit.py:1942-1981 | the gate has nothing to block on exactly when every finding is recorded, pending or no worse than what is, and the CSS volume has not grown |
| DebtVerdicts.BlockingIs | scripts/finished_work_audit.py:1942-1981 | the gate reports exactly the orphans neither recorded nor pending, and the structural and plumbing findings that are worse than what is recorded or pending, the CSS measurement excepted; the CSS volume is compared without the sheets of pending entries |
| DebtVerdicts.BaselineRecords | scripts/finished_work_audit.py:2051-2071 | a baseline records the orphans sorted, the structural findings, the five plumbing lists in order and the count, and explains itself when the file did not |
| DebtVerdicts.KeptInOrder | scripts/finished_work_audit.py:2076-2079 | pending entries are kept entry by entry, so in their order and as often as before |
| DebtFile.GateAfterBaseline | scripts/finished_work_audit.py:1926-2081 | after recording any findings over any file the gate can block only on the CSS line count |
| DebtFile.NoWorseIsNoRegression | scripts/finished_work_audit.py:1869-1901 | a finding passes exactly when it is no worse than what was recorded |
| DebtFile.ImprovementPasses | scripts/finished_work_audit.py:1869-1880 | an audit no worse than the recorded one passes its baseline |
| DebtFile.BaselinePreserves | scripts/finished_work_audit.py:2022-2081 | keys not owned keep their values, and a pending entry goes exactly when its finding is an accepted orphan or structural finding |
| DebtFile.PendingBesideAccepted | scripts/finished_work_audit.py:2072-2081 | a pending entry stays beside its acceptance exactly when the finding is accepted as plumbing only |
| DebtFile.BaselineIsIdempotent | scripts/finished_work_audit.py:2051-2081 | recording the same audit twice changes nothing the second time |
| DebtFile.KeepUnanswered | scripts/finished_work_audit.py:2076-2079 | the loop keeps the pending entries not accepted, in order |
| DebtFile.SortAllIs | scripts/finished_work_audit.py:2053 | the recorded orphans are the audit's, repetitions included, in ascending order |
| Common.StringLeqIff | scripts/finished_work_audit.py:2053 | the order of every sorted list of texts: the first difference decides, and a text comes after its own beginnings |
| AnchorDrift.CountOpening | scripts/check_ledger_anchors.py:263-270 | the counting loop computes the common opening |
| AnchorDrift.CommonOpeningIs | scripts/check_ledger_anchors.py:263-270 | the opening is the longest common prefix |
| AnchorDrift.UnanchoredDrift | scripts/check_ledger_anchors.py:342-384 | the loop fills the four lists with exactly the verdicts of each class, in order |
| AnchorDrift.FindLanding | scripts/check_ledger_anchors.py:366-378 | the landing is the first verbatim index, else the first reworded one, else none |
| AnchorDrift.DriftPartition | scripts/check_ledger_anchors.py:342-384 | every verdict is in exactly one of the four classes, once |
| DriftVerdicts.DriftSays | scripts/check_ledger_anchors.py:273-384 | what each class says of a verdict and its two lists: unreadable, stable, rewritten exactly when the two bullets share an opening of twelve characters or more up to where they differ that opens one bullet of the list, else moved, to the first bullet held word for word, else the first reworded one, else none |
| DriftVerdicts.ReportSays | scripts/check_ledger_anchors.py:342-384 | which of the four lists a verdict is in, in those terms |
| DriftVerdicts.LandingsAlign | scripts/check_ledger_anchors.py:366-383 | each moved verdict is reported with its own landing |
| AnchorDrift.VerbatimIsNotRewritten | scripts/check_ledger_anchors.py:273-286 | a judged bullet still present word for word is never called rewritten, and a move lands on it |
| AnchorDrift.InsertionRepoints | scripts/check_ledger_anchors.py:342-383 | inserting a bullet at p into distinct bullets makes every verdict below p stable and moves every other to its index plus one |
| AnchorDrift.RemovalRepoints | scripts/check_ledger_anchors.py:342-383 | removing the bullet at p keeps the other verdicts below p, moves those above to their index minus one and leaves the last unreadable |
| AnchorDrift.RemovedBulletIs | scripts/check_ledger_anchors.py:273-286 | the verdict of the removed bullet itself: unreadable at the end, rewritten exactly when the bullet that takes its index shares an opening long enough that opens no third bullet, else moved and never to a verbatim landing |
| AnchorDrift.RemovalCanReadAsRewrite | scripts/check_ledger_anchors.py:273-286 | the smallest case of it: of two bullets that differ in their last character the first is removed |
| AnchorDrift.AuditSurface | scripts/check_ledger_anchors.py:178-214 | the loop over the entries of one surface fills the two reports in order and counts the unanchored |
| AnchorDrift.AuditIff | scripts/check_ledger_anchors.py:192-213 | each report lists exactly its entries, once, in the order of the entries; the count is the number of entries without an anchor |
| AnchorDrift.AnchorCatchesInsertion | scripts/check_ledger_anchors.py:200-213 | where an anchor opens one bullet, an insertion is reported for exactly the entries at or above it |
| ModelInliner.InliningPreservesMeaning | scripts/dbt_bigquery_dry_run.py:218-254 | for every semantics and every environment in which the model references that the query and the bodies make denote those models, the expanded query means what the query meant, cyclic references included |
| ModelInliner.ReadsAreKeptIff | scripts/dbt_bigquery_dry_run.py:142-252 | only the last part of a qualified name is looked at: where the bodies denote, what the query reads is kept exactly when every replaced reference of the query names a relation that is the model |
| ModelInliner.SameNameElsewhere | scripts/dbt_bigquery_dry_run.py:142 | a query of one replaced reference is kept exactly when that relation is the model, whichever dataset it names |
| ModelInliner.InliningIsTheUnfolding | scripts/dbt_bigquery_dry_run.py:234-252 | the result is the one unfolding: a reference survives exactly when it is unknown, on its own expansion path, masked or over the level's budget |
| ModelInliner.AcyclicModelsDisappear | scripts/dbt_bigquery_dry_run.py:218-254 | acyclic models whose bodies fit are inlined to the bottom at every depth |
| ModelInliner.ResultExceedsBudgetIff | scripts/dbt_bigquery_dry_run.py:234-252 | the size of the result is the size of the query plus what every replacement adds, nested ones included, so it exceeds the budget exactly when that sum does |
| ModelInliner.FlatResultExceedsBudgetIff | scripts/dbt_bigquery_dry_run.py:246 | for models that refer to no model the sum is read off the references of the query |
| ModelInliner.BudgetIsNotATotalBound | scripts/dbt_bigquery_dry_run.py:246 | the smallest case: three references to a body of half the budget are all replaced and the result exceeds it |
| DecisionLedger.CheckChains | scripts/check_legacy_analytics_migration.py:752-763 | the single pass computes the heads and the errors row by row |
| DecisionLedger.ErrorsIffChains | scripts/check_legacy_analytics_migration.py:752-763 | for every interleaving the pass raises no error exactly when each replacement's own rows are numbered 1, 2, 3, ... and each names the evidence of the one before, the first naming none |
| DecisionLedger.ErrorsAre | scripts/check_legacy_analytics_migration.py:752-763 | a row is reported for its ordinal exactly when it is not one more than that of the row before it of its replacement, or not 1 for a first row; for its predecessor exactly when it does not name the evidence of that row, or names any for a first row |
| DecisionLedger.HeadsAreLast | scripts/check_legacy_analytics_migration.py:763-765 | the head of a replacement is its last row |
| DecisionLedger.HeadCountsAttempts | scripts/check_legacy_analytics_migration.py:763-765 | after an error-free pass the head's ordinal is the number of attempts |
| DecisionLedger.InterleavingIsImmaterial | scripts/check_legacy_analytics_migration.py:752-763 | ledgers with the same rows per replacement get the same verdict and the same heads |
| ReplacementWalk.FindCycle | scripts/check_legacy_analytics_migration.py:972-980 | the walk terminates and reports a cycle exactly when the start reaches one; the report is a closed walk of distinct ids that the start meets |
| ReplacementWalk.FindCycles | scripts/check_legacy_analytics_migration.py:971-980 | one report for exactly the starts that reach a cycle, in alphabetical order of the starts; some report exactly when the graph has a cycle |
| LegacyInventory.ValidateEntries | scripts/check_legacy_analytics_migration.py:848-969 | the loop over the entries reports every broken rule and collects the ids, the replacement graph and the locators of each class |
| LegacyInventory.CompareCensus | scripts/check_legacy_analytics_migration.py:981-989 | the loop over the classes reports missing and stale locators |
| LegacyInventory.CensusReportIff | scripts/check_legacy_analytics_migration.py:981-989 | unclassified are exactly the discovered locators no entry of the class lists, stale exactly the listed ones that are not discovered |
| LegacyInventory.ClassReportIff | scripts/check_legacy_analytics_migration.py:882-967 | an entry with a class is reported for exactly the rules on locators, modes, authorities and evidence that it breaks |
| LegacyInventory.HeadReportIff | scripts/check_legacy_analytics_migration.py:858-880 | and for its id and replacement exactly when the id is malformed or one of an earlier entry, or the replacement is malformed |
| LegacyInventory.ValidateInventory | scripts/check_legacy_analytics_migration.py:796-990 | the validator computes the specified problems in order: the entries', the cycles of the replacement walks, the census |
| LegacyInventory.ValidIff | scripts/check_legacy_analytics_migration.py:848-989 | no problem exactly when the entries are well formed, no two share an id, no two of a class share a locator, per class they cover the census, and the replacement graph has no cycle |
| LegacyInventory.ReplacementsAre | scripts/check_legacy_analytics_migration.py:869-877 | with distinct ids the graph that is walked is the entries': an id leads to the replacement its own entry names and to no other |
| LegacyInventory.EntriesIff | scripts/check_legacy_analytics_migration.py:851-967 | the entry checks pass exactly for well formed entries with distinct ids and, within a class, disjoint locators |
| LegacyInventory.ExactlyOneEntry | scripts/check_legacy_analytics_migration.py:889-892 | in a valid inventory a discovered locator is listed by exactly one entry of its class, at one place |
| LegacySummary.InventorySummary | scripts/check_legacy_analytics_migration.py:993-1019 | the counting loop computes the summary, for invalid inventories too |
| LegacySummary.SummaryCounts | scripts/check_legacy_analytics_migration.py:1003-1019 | each count is the number of places where an entry of that disposition or mode lists a locator, for every inventory |
| LegacySummary.ReadyIff | scripts/check_legacy_analytics_migration.py:1013-1018 | any inventory is ready exactly when it lists something, everything listed is migrated or retained and the baseline is qualified |
| LegacySummary.ValidSummary | scripts/check_legacy_analytics_migration.py:960-1019 | for a valid inventory the total is the census size, dispositions and modes each sum to it, migrated is delegated plus removed, all three are zero without a qualified baseline, and ready means total positive, nothing blocked and qualified |
| LegacySummary.ValidReadyIff | scripts/check_legacy_analytics_migration.py:1013-1018 | a valid inventory is ready exactly when it has entries, none is blocked and the baseline is qualified |
| EvalGate.BuildBaseline | scripts/eval_gate.py:114-151 | the recorded verdict of a question is that of its last record |
| EvalGateScores.LastRecordCounts | scripts/eval_gate.py:114-151 | a question recorded more than once has the verdicts of its last record |
| EvalGateScores.OnlyRecordedIds | scripts/eval_gate.py:114-151 | the baseline knows exactly the ids of the run |
| EvalGate.CompareToBaseline | scripts/eval_gate.py:217-413 | findings, score warnings, new questions in the order of the run, score regression and verdict of the comparison |
| EvalGate.CompareDims | scripts/eval_gate.py:283-326 | the inner loop over the scored dimensions and its two flags |
| EvalGate.CompareScores | scripts/eval_gate.py:340-398 | the score loop over baseline-known records: its warnings in order and whether any score drops, where lost evidence suspends the check |
| EvalGateLaws.ReportIff | scripts/eval_gate.py:270-326 | a change is reported exactly when a question's verdict changed that way in that dimension, a missing question exactly when it is missing |
| EvalGateLaws.WarnedIff | scripts/eval_gate.py:362-398 | a dropped score is warned of exactly when it drops, a reduced denominator exactly when passes are skipped or unavailable, with the number of such records and the number scored |
| EvalGateLaws.NewIdsAre | scripts/eval_gate.py:328-331 | the new questions are exactly the ids of the run that the baseline does not know, each once |
| EvalGateLaws.VerdictIff | scripts/eval_gate.py:270-405 | FAIL exactly when a baseline PASS became FAIL or a score dropped; UNVERIFIABLE exactly when neither holds and a baseline PASS became unavailable; no other change decides |
| EvalGateScores.GateVerdictIs | scripts/eval_gate.py:270-405 | the whole verdict for distinct ids and matching scores, in whole numbers: FAIL exactly when a PASS turned FAIL or, in a dimension that lost no evidence, p passes of p + f became q of q + g with 10^9 (p (q + g) - q (p + f)) > (p + f)(q + g); else UNVERIFIABLE exactly when a PASS lost its evidence |
| EvalGateScores.AnyFallFails | scripts/eval_gate.py:362-398 | with at most ten thousand scored questions any fall of a score in a dimension that lost no evidence is FAIL |
| EvalGateScores.NoFallNoFail | scripts/eval_gate.py:362-405 | a run in which no score falls and no PASS turned FAIL never fails |
| EvalGateLaws.KeptOrImprovedPasses | scripts/eval_gate.py:270-405 | a run without missing questions in which every verdict is kept or becomes PASS passes, given matching stored scores and distinct ids |
| EvalGateLaws.RepeatedIdsCanFail | scripts/eval_gate.py:340-361 | without distinct ids that fails, because records are tallied and not questions |
| EvalGateLaws.BaselineThenCompare | scripts/eval_gate.py:114-405 | a run compared with the baseline built from it passes, repeated ids included |
| EvalGateLaws.NewQuestionNeverDecides | scripts/eval_gate.py:328-342 | a question unknown to the baseline, inserted anywhere, never changes the verdict |
| EvalGateLaws.OutageIsUnverifiable | scripts/eval_gate.py:287-302 | evidence lost on PASS questions alone gives UNVERIFIABLE, never FAIL |
| EvalGateLaws.SkipsFailIff | scripts/eval_gate.py:340-405 | skipped or missing questions alone give FAIL exactly when in some dimension something is still scored and (k f - p j) / ((p + f)(p - k + f - j)) exceeds 1e-9, with k of p passes and j of f fails gone; else PASS |
| EvalGateLaws.OneSkipCanFail | scripts/eval_gate.py:27-32 | one skipped PASS beside one recorded FAIL gives FAIL |
| EvalGateLaws.TalliesCountQuestions | scripts/eval_gate.py:341-361 | with distinct ids the tallies count the baseline's questions of the run |
| DivisionProof.Compare | scripts/division_proof.py:372-409 | the comparison returns the specified divergences in order |
| DivisionProof.CompareOrder | scripts/division_proof.py:397-408 | the zipped loop reports every position that differs up to the shorter list |
| DivisionProof.ReportIff | scripts/division_proof.py:383-408 | each kind of divergence is reported exactly when it is there |
| DivisionProof.SameKeyIff | scripts/division_proof.py:366-369 | two routes whose paths hold no blank and whose methods are non-empty and hold no comma share a key exactly when path and methods are equal; two tools exactly when their names are |
| DivisionProof.LastOfKey | scripts/division_proof.py:384-385 | the entry compared for a key is the last one that has it |
| DivisionProof.NothingReportedIff | scripts/division_proof.py:372-409 | for all dumps: nothing is reported exactly when the last entries per key are equal and one list of route keys continues the other |
| DivisionProof.CompareDecides | scripts/division_proof.py:372-409 | with distinct route and tool keys nothing is reported exactly when the routes are equal in content and order and the tool sets are equal |
| DivisionProof.DumpFailures | scripts/division_proof.py:339-363 | a dump is certified exactly when it holds enough routes and tools and no two routes share a key; otherwise each shortage is reported, and the number of merged routes |
| DivisionProof.DistinctKeysAreCounted | scripts/division_proof.py:355-362 | as many distinct keys as entries exactly when no key is shared |
| DivisionProof.SecondBindingIsSilent | scripts/division_proof.py:339-363 | two certified dumps with different tools can compare as equal: one more binding of a tool, anywhere before the last binding of its name, is not reported |
| ModuleMoves.Moves | scripts/division_proof.py:221-270 | the loops find exactly the names that left one module and arrived in one, with both modules and whether the bodies agree, and report as ties exactly the names that left some and arrived in some otherwise, each list once per name in alphabetical order |
| ModuleMoves.Tabulate | scripts/division_proof.py:233-243 | the tables list, for every name, each module that defines it on one side only, once |
| ModuleMoves.OneMove | scripts/division_proof.py:246-254 | a moved name has one move, between different modules, and is no tie |
| ModuleMoves.DivisionIsReadAsMoves | scripts/division_proof.py:221-230 | taking any definitions out of one module into another, a new one included, is read as exactly one identical move for each and no tie, whatever other modules define the same names |

## Left out

- SQL text, the driver, the ledger's DDL, grants and timestamps: a body is an opaque value with an outcome, a commit is
  atomic, and checksums are labels. A commit that the server made but the driver reported as failed on a connection
  that still works is not among the outcomes.
- The compatibility prelude of `scripts/apply_migrations.py` is part of the body it precedes.
- The schema contract is an abstract predicate on the committed bodies.
- Regular expressions and Markdown: a line arrives with the outcome of each pattern, a migration line as boundary, code
  or idle, a file name with its number. The printed text of a criterion and the text of error messages are not modelled.
- MigrationRunner.ApplyMigrations: the outcome of each attempt is an argument; a concurrent writer that ignores the
  lock appears in MigrationProtocol only.
- MigrationRuns.RunIsASchedule: a run stopped at the lock itself is not a run here; it changes nothing.
- MigrationCatalog.ValidateCatalog: the comparison of manifest entries is whole; the text that describes a drift is left
  out, as is a directory that does not exist.
- CriteriaParser.CriteriaSplit: a document that does not exist, which reads as two empty lists.
- CommentScanner.CodeOnly: the branches for Python and for SQL and CSS, which use other rules or the tokenizer.
- DebtRatchet.CountedIff: findings are single lines, and digits and white space are those of ASCII.
- DebtFile.KnownDebt.Gate: a debt file that cannot be read makes the original raise; the text of the report and the
  text of the readme entry beyond its opening sentence are left out.
- AnchorDrift.UnanchoredDrift: the git history that finds the commit a verdict was written in; it arrives as the list of
  that day, or none.
- AnchorDrift.AuditSurface: the loop over the surfaces, the sorted order of the entries and the text of the report.
- ModelInliner.InliningPreservesMeaning: a relation is read without its name, so a query that uses the last part of the
  replaced name as an implicit alias is outside the meanings considered. Queries are tokens, so reading a substituted
  body anew, which could join a comment or a quote across the seam, and the trailing white space cut from a body are
  not modelled.
- LegacyInventory.ValidateInventory: paths, proofs, attestations and the bounded texts other than the id and the
  replacement count as other problems of an entry, by where they are reported, or of the header; an entry that is not
  an object is not modelled.
- DecisionLedger.CheckChains: rows that are malformed by themselves, which never reach the pass, and the comparison of
  the head with the pinned decision.
- EvalGate.CompareToBaseline: scores are exact rationals instead of floats; trace links and the wording of warnings are
  left out.
- EvalGate.BuildBaseline: the tallies and the corpus metadata it copies, and the rejection of a malformed baseline.
- DivisionProof.Compare: the text of a divergence.
- ModuleMoves.Moves: reading the definitions of a module out of its text, line counts, and the search for seams and
  dangling patches; a tie is its name.
- The census and grep-style guards, fixture generators, exporters, command lines and calls to git, BigQuery,
  Playwright, pytest and Langfuse: input and output only.
