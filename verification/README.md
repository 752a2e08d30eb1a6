# AgentBox: verified models of its recovery, approval and release logic

AgentBox installs and operates an agent runtime on one host. This project models the
parts of it whose correctness depends on more than one step: two crash-safe file
protocols, four trigger-guarded SQLite tables, the release ordering and retention rules,
and the scanners and fingerprints that the release rehearsals rely on. Each model follows
the branches, constants and error cases of the code it cites; each main result is a
statement about every input, every interleaving or every reachable state.

Every `.dfy` file is one component; `dafny verify dfyconfig.toml` checks the whole project.

## How the models are built

- **File protocols** (`Enrollment`, `Activation`). File system calls are the steps of a
  transition system over an explicit disk (names, inodes, link counts, groups, modes). A log
  of calls replays to a disk, so a crash state is any prefix of a log. The classes
  `Publisher` and `Transaction` are the programs: each method is proved to extend the log
  legally, on success and on every failure, and the safety theorems quantify over all legal
  logs. Checks that the caller supplies (revalidation, quiescence) are inputs that may fail
  at each place where the code calls them.
- **Tables** (`Approval` and `ApprovalLaws`, `Ledger` and `LedgerLaws`, `Evidence`, `Sessions`). Triggers, checks, partial unique
  indexes and foreign keys are the guards of single-row statements; SQL comparisons with NULL
  follow three-valued logic. The clock is an input of every statement and may be malformed,
  jump or go back. The remaining constraints of a table only refuse more statements; they are
  one boolean input, so theorems about every run cover them.
- **Algorithms** (`Migrations`, `Ranges`, `Scan`, `Drain`, `Fingerprint`, `Versions`,
  `Retention`). Loops stay loops with invariants; their specifications are written
  independently of the loop (sets of points, occurrences in a whole stream, section 11 of
  Semantic Versioning 2.0.0, a selection with an exact size).
- `Common`, `Sorting` and `Text` hold shared definitions. Sorting in the source language is
  stable; `Sorting.Sort` is a stable insertion sort with the same result.

Assumptions: a crash stops the process but keeps completed calls; the process runs as the
owner the code demands; a temporary file name built from a digest of its content is modelled
as the content itself; the canonical JSON encoder is a parameter assumed injective; texts that
the code writes with a fixed shape are compared by code point, as SQLite and Python do.

## Where the code does less than its prose suggests

- Enrollment recovery does not always converge: a crash right after PENDING is created by a
  process of a foreign group, or between the last `fchown` and the `fchmod` with distinct
  groups, leaves a file that every later call refuses (`Enrollment.StrandedExactly`,
  `Enrollment.StrandedRefused`).
- Activation recovery is refused exactly in the states described by `Activation.RecoversExactly`;
  `Activation.WedgedExample` reaches one in every installation, and no later configuration
  leaves them (`Activation.Transaction.Configure`).
- The ledger's predecessor check is unknown, hence accepted, when the predecessor columns are
  NULL (`Ledger.NullPredecessorAccepted`); the chain property holds exactly for runs whose
  inserts supply them (`Ledger.ChainExactly`).
- Both migration graph readers accept a detached cycle (`Migrations.DetachedCycleAccepted`);
  the accepted graph is one line exactly when it is acyclic.
- The npm spelling keeps the precedence of a version exactly when it has no build metadata
  (`Versions.NpmPrecedenceExactly`).
- A write that fails while output is drained is swallowed: its bytes are counted and lost
  without a report, and when that write passes the cap the cap is not reported either
  (`Drain.LostWithoutReport`, `Drain.PassedWithoutReport`). The capture is lossless exactly
  when no write failed and the cap was not passed (`Drain.Drain`).
- The session preflight compares texts of two lengths, and so refuses some rows that are in
  order in time (`Sessions.PreflightOrderExactly`).

## Model

| member | source | states |
|---|---|---|
| Enrollment.AlwaysSound | installer/src/agentbox_installer/waw_enrollment.py:150-280 | over every sequence of publications by any callers, each cut off anywhere: RECORD is absent or holds one caller's complete bytes, link counts are the number of names, a staged PENDING holds a prefix of some caller's bytes |
| Enrollment.CrashLeavesSound | installer/src/agentbox_installer/waw_enrollment.py:150-280 | the same after any prefix of the calls of a run, that is after a crash at any point |
| Enrollment.RecordNeverRewritten | installer/src/agentbox_installer/waw_enrollment.py:238-268 | once RECORD is linked its inode and bytes never change again, although PENDING may share the inode |
| Enrollment.OneInode | installer/src/agentbox_installer/waw_enrollment.py:150-268 | in every sound state the directory holds at most one inode, whichever names exist |
| Enrollment.StrandedExactly | installer/src/agentbox_installer/waw_enrollment.py:165-181 | a crash strands a publication exactly right after the creation by a process of another group than root's, or between the second fchown and the fchmod with distinct groups |
| Enrollment.StrandedRefused | installer/src/agentbox_installer/waw_enrollment.py:113-133 | a stranded publication is refused to every caller, with any observation, recovering or not |
| Enrollment.RecoveryAcceptedExactly | installer/src/agentbox_installer/waw_enrollment.py:202-235 | recovery with the same observation is accepted in every crash state except the stranded ones |
| Enrollment.StrandedExample | installer/src/agentbox_installer/waw_enrollment.py:180-181 | a concrete interrupted publication that recovery refuses |
| Enrollment.Publisher.Read | installer/src/agentbox_installer/waw_enrollment.py:113-148 | a read in pieces returns the whole content, and is refused exactly for metadata outside the allowed set |
| Enrollment.Publisher.Stage | installer/src/agentbox_installer/waw_enrollment.py:150-185 | from nothing or from any acceptable interrupted stage, PENDING ends complete, owned by the runtime group and ready; otherwise nothing changes |
| Enrollment.Publisher.Admit | installer/src/agentbox_installer/waw_enrollment.py:202-235 | the admission checks pass exactly in the accepting states |
| Enrollment.Publisher.Install | installer/src/agentbox_installer/waw_enrollment.py:238-250 | RECORD and PENDING become two names of one complete inode, unless the revalidation before the link fails |
| Enrollment.Publisher.Retire | installer/src/agentbox_installer/waw_enrollment.py:251-268 | after the readback PENDING is dropped and RECORD is left alone with one link; a failure there changes nothing |
| Enrollment.Publisher.Publish | installer/src/agentbox_installer/waw_enrollment.py:187-280 | every step taken is legal whatever fails; a pending publication is completed only with recover and only for the bytes it was made of, a record of other bytes is never replaced, and such refusals and plans modify nothing; success leaves RECORD complete and alone, and the report says what was found |
| Enrollment.Publisher.RecoverTwice | installer/src/agentbox_installer/waw_enrollment.py:187-280 | from every crash state that is not stranded, one recovery completes the record, reporting what it found, and a second call reports "unchanged" and issues no call |
| Activation.AlwaysPaired | installer/src/agentbox_installer/waw_activation.py:200-268 | in every reachable state: API enabled implies Runtime enabled implies the drop-in is complete implies a journal exists; configured or started implies all of them |
| Activation.StepPaired | installer/src/agentbox_installer/waw_activation.py:188-268 | each file system call of the transaction keeps the pairing |
| Activation.RecoversExactly | installer/src/agentbox_installer/waw_activation.py:83-172 | a recovering configuration is possible from a reachable state exactly when no drop-in is empty or of odd mode, the drop-in directory has its mode, and no needed temporary is left with odd metadata |
| Activation.RefusedFields | installer/src/agentbox_installer/waw_activation.py:104-169 | the refusals, told by the bytes of the journal and the drop-in and by the metadata |
| Activation.SettledAllows | installer/src/agentbox_installer/waw_activation.py:83-172 | an installation in which nothing has begun, or everything was started, can be configured with and without recover |
| Activation.RepairCrash | installer/src/agentbox_installer/waw_manifest_install.py:636-658 | a crash inside a prefix repair leaves odd metadata exactly for files whose demanded mode is not 0600, and then blocks the drop-in |
| Activation.WedgedExample | installer/src/agentbox_installer/waw_activation.py:214-237 | in every installation, with the drop-in directory there or made, a crash right after the drop-in is created is a reachable state that recovery refuses |
| Activation.EnableChain | installer/src/agentbox_installer/waw_activation.py:238-257 | each publication after the drop-in clears the way for the next, up to the configured journal with both profiles enabled |
| Activation.Transaction.CreateFile | installer/src/agentbox_installer/waw_manifest_install.py:579-660 | the file ends complete with the demanded metadata exactly when it is new, equal, or a repairable prefix; otherwise nothing changes |
| Activation.Transaction.Replace | installer/src/agentbox_installer/waw_activation.py:188-198 | the target is replaced in one step and the temporary is gone, exactly when a leftover temporary is absent or usable |
| Activation.Transaction.Inspect | installer/src/agentbox_installer/waw_activation.py:83-172 | inspection passes exactly in the inspectable states and reports the word in the journal |
| Activation.Transaction.Prepare | installer/src/agentbox_installer/waw_activation.py:203-237 | the intent is journalled before the drop-in is completed; other temporaries are untouched |
| Activation.Transaction.Enable | installer/src/agentbox_installer/waw_activation.py:238-257 | Runtime, then API, then the configured journal; succeeds exactly without a failed quiescence check and with usable temporaries |
| Activation.Transaction.Configure | installer/src/agentbox_installer/waw_activation.py:200-257 | without recover, a journal that says preparing or configured, or a leftover temporary, is refused; an odd drop-in is refused with nothing changed; otherwise it runs to the configured pair, from a fresh or a started installation and, with recover, from every state that is not wedged; a wedged state stays wedged, whatever fails |
| Activation.Transaction.MarkStarted | installer/src/agentbox_installer/waw_activation.py:259-268 | a configured pair becomes started, or nothing changes |
| Approval.AlwaysBound | migrations/versions/0005_phase11_control_plane_ownership_approval.py:236-301 | in every reachable database every attempt has its challenge present, consumed by it before expiry, equal on all 26 copied columns and due for deletion thirty days later, and no two attempts share a challenge, for any clock |
| Approval.StepInv | migrations/versions/0005_phase11_control_plane_ownership_approval.py:236-326 | each permitted statement keeps that invariant |
| Approval.NoDirectConsume | migrations/versions/0005_phase11_control_plane_ownership_approval.py:245-266 | no UPDATE of a challenge can consume it, whatever the clock says |
| Approval.ChallengeServesOnce | migrations/versions/0005_phase11_control_plane_ownership_approval.py:261-293 | over the whole time a challenge is kept, at most one attempt ever belongs to it and the consumed row does not change |
| Approval.AttemptHistory | migrations/versions/0005_phase11_control_plane_ownership_approval.py:294-319 | along every run the rank of an attempt rises with each state change, updated_at never decreases, what was authorized stays, and once the runtime is consuming it is never cancelled or expired |
| Approval.AtMostSevenChanges | migrations/versions/0005_phase11_control_plane_ownership_approval.py:302-312 | every attempt makes at most seven state changes |
| Approval.ReconciledThroughVerified | migrations/versions/0005_phase11_control_plane_ownership_approval.py:302-319 | an attempt becomes reconciled only directly from runtime_verified, with the verification time and the attestation on record |
| Approval.AttentionBlocksForever | migrations/versions/0005_phase11_control_plane_ownership_approval.py:267-326 | an attempt that needs attention is never updated or deleted again, and no challenge for its credential is ever added afterwards |
| Approval.Tables.AddAttempt | migrations/versions/0005_phase11_control_plane_ownership_approval.py:283-293 | inserting an attempt and consuming its challenge happen together or not at all, exactly when the triggers allow both; no other attempt has the challenge, and all attempts stay bound |
| Approval.Tables.Reached | migrations/versions/0005_phase11_control_plane_ownership_approval.py:236-326 | the state of the tables after any statements is one in which every attempt is bound |
| Approval.Tables.Execute | migrations/versions/0005_phase11_control_plane_ownership_approval.py:236-326 | the states so far form a run from the empty database; a statement extends the run or changes nothing, every attempt stays bound, and only a new attempt consumes a challenge that was there |
| ApprovalLaws.AuthorizeExactly | migrations/versions/0005_phase11_control_plane_ownership_approval.py:283-293 | an attempt is admitted exactly at its own creation time, for an issued challenge of the same authority that is not cancelled, before the deadline, under a clock that has not gone back |
| ApprovalLaws.RollbackExactly | migrations/versions/0005_phase11_control_plane_ownership_approval.py:245-257 | under a clock behind the last observation the only change is a cancellation that keeps the observation |
| ApprovalLaws.UpdateExactly | migrations/versions/0005_phase11_control_plane_ownership_approval.py:237-266 | under any other clock: observed before the deadline, expired from it on, cancelled around it, never consumed |
| ApprovalLaws.DeletedChallenge | migrations/versions/0005_phase11_control_plane_ownership_approval.py:270-281 | a challenge that is deleted was closed thirty days ago and has no attempt |
| ApprovalLaws.DeletedCode | migrations/versions/0005_phase11_control_plane_ownership_approval.py:270-281 | its result code belongs to the way it was closed |
| ApprovalLaws.ClosedDeletable | migrations/versions/0005_phase11_control_plane_ownership_approval.py:270-281 | a regularly expired or cancelled challenge can be deleted exactly from thirty days after its last observation |
| ApprovalLaws.ConsumedPurgedExactly | migrations/versions/0005_phase11_control_plane_ownership_approval.py:270-293 | along a run, a consumed challenge can be deleted exactly when no attempt holds it any more and thirty days have passed since the authorization |
| ApprovalLaws.ChallengeHistory | migrations/versions/0005_phase11_control_plane_ownership_approval.py:237-257 | along a run a challenge keeps its binding, is never observed back in time, once closed never changes, and lies on the right side of its deadline |
| ApprovalLaws.ArrowsByTarget | migrations/versions/0005_phase11_control_plane_ownership_approval.py:302-302 | from which states each state of an attempt can be entered |
| ApprovalLaws.ChangeExactly | migrations/versions/0005_phase11_control_plane_ownership_approval.py:294-319 | a state change is admitted exactly along an arrow, now, on the right side of the deadline, and for reconciliation with the attestation on record |
| ApprovalLaws.RetryExactly | migrations/versions/0005_phase11_control_plane_ownership_approval.py:313-319 | an update keeps the state exactly as a resend, the third at most, or as a failed enquiry |
| ApprovalLaws.DeletedAttempt | migrations/versions/0005_phase11_control_plane_ownership_approval.py:320-326 | an attempt can be deleted exactly when it is resolved and thirty days have passed |
| ApprovalLaws.DeadlineStep | migrations/versions/0005_phase11_control_plane_ownership_approval.py:303-312 | an attempt that was only authorized is cancelled before and expired from the deadline on |
| ApprovalLaws.ResendsBounded | migrations/versions/0005_phase11_control_plane_ownership_approval.py:313-319 | while authorization is pending, resends never decrease and never pass three |
| ApprovalLaws.BlockedExactly | migrations/versions/0005_phase11_control_plane_ownership_approval.py:267-269 | a credential is blocked exactly by an attempt that is not resolved |
| ApprovalLaws.UnresolvedBlocks | migrations/versions/0005_phase11_control_plane_ownership_approval.py:267-269 | as long as an attempt is not resolved no challenge is added for its credential |
| ApprovalLaws.SevenChangesReached | migrations/versions/0005_phase11_control_plane_ownership_approval.py:302-319 | from every authorized attempt a run of exactly seven changes leads to reconciled |
| ApprovalLaws.SevenChangesFromEmpty | migrations/versions/0005_phase11_control_plane_ownership_approval.py:267-319 | such runs start at the empty database, for any challenge and any attempt that fits it |
| Ledger.AlwaysSound | migrations/versions/0009_waw_project_binding_ledger.py:113-255 | after every run the unique indexes, the checks and the predecessor key hold of all rows |
| Ledger.ChainExactly | migrations/versions/0009_waw_project_binding_ledger.py:149-190 | each row names the digest of the previous revision, for every project, exactly when every accepted insert beyond revision one supplied both predecessor columns |
| Ledger.GivenByInserts | migrations/versions/0009_waw_project_binding_ledger.py:226-240 | whether the predecessor columns are given is settled by the inserts alone, over the whole run |
| Ledger.NullPredecessorAccepted | migrations/versions/0009_waw_project_binding_ledger.py:149-156 | a first row with revision five and NULL predecessor columns is accepted and breaks the chain |
| Ledger.RevisionsContiguous | migrations/versions/0009_waw_project_binding_ledger.py:149-190 | in a chained ledger the revisions of a project are exactly 1 to n |
| Ledger.AttestedBelowHead | migrations/versions/0009_waw_project_binding_ledger.py:181-190 | every revision below the last is present and attested |
| Ledger.SupersededCount | migrations/versions/0009_waw_project_binding_ledger.py:208-225 | at least n-2 of the n rows of a project are SUPERSEDED |
| Ledger.HistoryKept | migrations/versions/0009_waw_project_binding_ledger.py:226-255 | a row once written is never removed, its identity and predecessor never change, and its digest and supersession are final |
| Ledger.Table.Write | migrations/versions/0009_waw_project_binding_ledger.py:113-255 | a statement takes effect exactly when the constraints permit it and is appended to the history |
| LedgerLaws.PredecessorExactly | migrations/versions/0009_waw_project_binding_ledger.py:149-156 | what the predecessor check admits, without the third truth value |
| LedgerLaws.RowsWellFormed | migrations/versions/0009_waw_project_binding_ledger.py:138-174 | every row of every reachable ledger: a current or superseded one is attested, digests are 64 lower-case hexadecimal digits, the first revision has no predecessor and later ones name the one before |
| LedgerLaws.OneOpenOneHead | migrations/versions/0009_waw_project_binding_ledger.py:208-225 | two rows of a project are never both open nor both at the head |
| LedgerLaws.ArrowsByTarget | migrations/versions/0009_waw_project_binding_ledger.py:241-250 | from which statuses each status can be entered |
| LedgerLaws.ProposeExactly | migrations/versions/0009_waw_project_binding_ledger.py:149-225 | a new revision can be proposed exactly when it fits its predecessor and none is open |
| LedgerLaws.AttestExactly | migrations/versions/0009_waw_project_binding_ledger.py:144-225 | an open row becomes current exactly with a well-formed digest and without another head |
| LedgerLaws.SupersedeAllowed | migrations/versions/0009_waw_project_binding_ledger.py:241-250 | the current row can always be superseded |
| LedgerLaws.ChainOfAnyLength | migrations/versions/0009_waw_project_binding_ledger.py:113-255 | for every n there is a run that leaves a project with revisions 1 to n, each of which went from pending through current to superseded, the last being current |
| LedgerLaws.TwoNotSuperseded | migrations/versions/0009_waw_project_binding_ledger.py:208-225 | and one in which two rows are not superseded, so that n-2 is the exact bound |
| Evidence.DigitsAreMask | migrations/versions/0004_phase11_provider_core.py:590-604 | the sum of the weights of a set of dimensions equals a mask exactly when the set is the set of its bits |
| Evidence.TotalIsDigits | migrations/versions/0004_phase11_provider_core.py:538-540 | with one observation per dimension, the SQL sum over the rows is that sum over the set |
| Evidence.AlwaysInv | migrations/versions/0004_phase11_provider_core.py:538-680 | in every reachable database observations are distinct and in scope, and sealed sets are complete |
| Evidence.SealedIsComplete | migrations/versions/0004_phase11_provider_core.py:590-665 | the observed dimensions of a sealed set are exactly the bits of its mask, and every observation has its scope |
| Evidence.ScopesByWeight | migrations/versions/0004_phase11_provider_core.py:605-626 | in every reachable database an observation of weight 64 or more has a profile, and a pass or fail of weight 4 has a credential |
| Evidence.SealedHasProfile | migrations/versions/0004_phase11_provider_core.py:590-665 | a sealed set whose mask is 64 or more has a profile |
| Evidence.SetsWellFormed | migrations/versions/0004_phase11_provider_core.py:425-451 | every set has a mask from 1 to 2047, expires after it was observed and has a sealing time exactly when sealed |
| Evidence.NothingLost | migrations/versions/0004_phase11_provider_core.py:627-680 | no set or observation is ever removed or rewritten and no scope changes |
| Evidence.Sealable | migrations/versions/0004_phase11_provider_core.py:645-665 | a set can be sealed exactly when its observed dimensions are the bits of its mask |
| Evidence.WeightOfBit | migrations/versions/0004_phase11_provider_core.py:596-602 | the dimensions and their powers of two, in order |
| Evidence.SealedForever | migrations/versions/0004_phase11_provider_core.py:627-680 | a sealed set and its observations never change again |
| Evidence.Tables.SumWeights | migrations/versions/0004_phase11_provider_core.py:655-663 | the loop over the rows computes the sum that the completeness trigger compares |
| Evidence.Tables.Seal | migrations/versions/0004_phase11_provider_core.py:627-665 | a set is sealed exactly when it is building, only its state and sealing time change, and its observed dimensions are the bits of its mask |
| Evidence.Tables.Observe | migrations/versions/0004_phase11_provider_core.py:590-626 | accepted exactly for a new identifier and a dimension that is expected, not yet observed, and in scope by its weight; the sum of its set grows by that weight and other sets are unaffected |
| Evidence.Tables.Open | migrations/versions/0004_phase11_provider_core.py:584-589 | accepted exactly for a new, building set with a valid mask and expiry; it starts with nothing observed and cannot be sealed at once |
| Evidence.Tables.Reached | migrations/versions/0004_phase11_provider_core.py:538-680 | the state of the tables after any statements has distinct observations in scope and complete sealed sets |
| Migrations.BuildHead | installer/src/agentbox_installer/build.py:1035-1077 | returns h exactly when every source reads, no revision is duplicated, no predecessor is missing and h is the only revision without a successor |
| Migrations.ArtifactHead | installer/src/agentbox_installer/artifact.py:448-482 | the same for the artifact reader, which admits duplicates and does not test predecessor spelling |
| Migrations.BothHeads | installer/src/agentbox_installer/artifact.py:448-482 | whenever the build reader accepts, the artifact reader accepts with the same head |
| Migrations.BuildReadsExactly | installer/src/agentbox_installer/build.py:1058-1071 | the sources the build reader accepts, by the codes of their characters |
| Migrations.ArtifactReadsExactly | installer/src/agentbox_installer/artifact.py:470-478 | the sources the artifact reader accepts |
| Migrations.AcceptedIsLinearExactly | installer/src/agentbox_installer/build.py:1072-1077 | an accepted graph is one line through every revision exactly when it is acyclic |
| Migrations.AcyclicIsLinear | installer/src/agentbox_installer/build.py:1072-1077 | an acyclic graph with one head is a line from the head to a root that visits every revision once |
| Migrations.LinearIsAcyclic | installer/src/agentbox_installer/build.py:1072-1077 | a graph that is such a line has no cycle |
| Migrations.UniqueRoot | installer/src/agentbox_installer/build.py:1065-1077 | that line ends in the only root |
| Migrations.DetachedCycleAccepted | installer/src/agentbox_installer/build.py:1072-1077 | a root beside a two-revision cycle is accepted |
| Ranges.MergeRanges | scripts/generate-terminal-unicode.py:122-129 | for all ranges the result is canonical (ascending, gaps of at least one point) and covers the same points |
| Ranges.MergeOrdered | scripts/generate-terminal-unicode.py:123-129 | the loop over ranges sorted by start gives a canonical list of the same points |
| Ranges.FromPoints | scripts/generate-terminal-unicode.py:136-148 | the result is the canonical list of ranges with exactly the given points |
| Ranges.CanonicalUnique | scripts/generate-terminal-unicode.py:122-148 | a set of points has only one canonical list of ranges |
| Ranges.MergeBothWays | scripts/generate-terminal-unicode.py:122-148 | merging directly and rebuilding from the points give the same list |
| Ranges.PointsMeaning | scripts/generate-terminal-unicode.py:132-133 | the points of a list are exactly those inside one of its ranges |
| Ranges.CountPoints | scripts/generate-terminal-unicode.py:215-221 | the summed lengths are the number of distinct points |
| Scan.Budget.Consume | scripts/scan-rc8-rehearsal-canaries.py:52-67 | fails exactly for an oversized piece or an exhausted total, and counts what it admits |
| Scan.ScanChunk | scripts/scan-rc8-rehearsal-canaries.py:208-215 | one turn stops exactly at a chunk the budget does not cover, finds a pattern exactly when this chunk completes it, and otherwise carries enough |
| Scan.ContainsStream | scripts/scan-rc8-rehearsal-canaries.py:202-219 | for every split into chunks: a verdict within the budget says exactly whether a pattern occurs in the whole stream; the budget stops the scan exactly at a chunk it does not cover before which nothing was found, and is charged exactly what was read |
| Scan.ScanMember | installer/src/agentbox_installer/artifact.py:549-562 | the same for the wheel scanner, without a budget |
| Scan.ScannersAgree | installer/src/agentbox_installer/artifact.py:549-562 | both scanners give the same answer on one stream, however each of them is fed |
| Scan.TailSuffices | scripts/scan-rc8-rehearsal-canaries.py:212-215 | while nothing was found, searching the tail and the new chunk finds a pattern exactly when the whole prefix contains one |
| Scan.BothTailsCarry | scripts/scan-rc8-rehearsal-canaries.py:215-215 | both ways of cutting the tail, including the slice that keeps everything for patterns of length one, keep enough |
| Drain.Capture.Store | scripts/rehearse-rc8-workflow.py:337-344 | a critical section that completes writes what still fits under the cap, counts everything and signals once, when the cap is passed |
| Drain.Capture.StoreFails | scripts/rehearse-rc8-workflow.py:337-346 | one that the write leaves by an exception counts everything, keeps a proper prefix of what the file was handed and reports nothing |
| Drain.Capture.LosslessExactly | scripts/rehearse-rc8-workflow.py:338-346 | the files hold everything committed exactly when the cap was not passed and no write failed |
| Drain.Drain | scripts/rehearse-rc8-workflow.py:314-348 | for every interleaving of the two threads with any writes failing: each file is a prefix of its stream, together they hold at most the minimum of bytes counted and the cap, and exactly that when no write failed; exceeded is set exactly when a commit passed the cap, and signalled once; the capture is lossless exactly when exceeded is clear and no write failed |
| Drain.LostWithoutReport | scripts/rehearse-rc8-workflow.py:339-346 | a schedule whose first byte is counted and lost while exceeded stays clear |
| Drain.PassedWithoutReport | scripts/rehearse-rc8-workflow.py:339-346 | whenever the write that passes the cap fails, the cap is passed and not reported |
| Fingerprint.Update | scripts/rehearse-release-operations.py:141-146 | the digest is fed the length-prefixed parts, in order |
| Fingerprint.StreamInjective | scripts/rehearse-release-operations.py:141-146 | two lists of parts with the same stream are equal |
| Fingerprint.FrameExample | scripts/rehearse-release-operations.py:144-145 | the length prefix is eight bytes, the most significant first |
| Fingerprint.TreeExactly | scripts/rehearse-release-operations.py:1147-1178 | two trees give the same stream exactly when they have the same members with the same kind, path, mode and digest |
| Fingerprint.TreeStreamSorted | scripts/rehearse-release-operations.py:1147-1178 | the stream is that of the members in ascending order of their paths |
| Fingerprint.MemberPartsSpelled | scripts/rehearse-release-operations.py:1158-1173 | the parts of a member: the word for its kind, its path, four octal digits of its mode and the digest of a file |
| Fingerprint.Walk | scripts/rehearse-release-operations.py:1148-1178 | the loop over an ordered listing refuses exactly links, special files and limits, and feeds the stream of the listing |
| Fingerprint.TreeFingerprint | scripts/rehearse-release-operations.py:1138-1179 | refused exactly for links, special files, too many members or too many bytes, whatever the order of the walk; otherwise the stream of the sorted listing |
| Fingerprint.EncodeValueInjective | scripts/rehearse-release-operations.py:1197-1211 | different stored values have different encodings |
| Fingerprint.EncodeValueExactly | scripts/rehearse-release-operations.py:1197-1211 | two values are encoded alike exactly when they are equal, booleans counting as 0 and 1 |
| Fingerprint.EncodeSpelled | scripts/rehearse-release-operations.py:1197-1209 | the tag of each kind of value |
| Fingerprint.HexSpelled | scripts/rehearse-release-operations.py:1208-1209 | a blob is two lower-case hexadecimal digits per byte, the high one first |
| Fingerprint.RowsExactly | scripts/rehearse-release-operations.py:1276-1284 | sorted encodings agree exactly for equal multisets of rows |
| Fingerprint.TablePartsSorted | scripts/rehearse-release-operations.py:1276-1284 | a table contributes its header and then its encoded rows in ascending order |
| Fingerprint.DatabaseExactly | scripts/rehearse-release-operations.py:1266-1292 | two databases give the same data stream exactly when they have the same tables with the same row multisets, whatever the row order |
| Fingerprint.DatabaseParts | scripts/rehearse-release-operations.py:1273-1284 | the loop builds those parts and fails exactly above the row limit |
| Versions.ParseShow | installer/src/agentbox_installer/versioning.py:8-14 | the pattern accepts the text of every well-formed version and reads it back |
| Versions.ShowParse | installer/src/agentbox_installer/versioning.py:8-14 | every accepted text is the text of the version read from it |
| Versions.CoreNumbersExactly | installer/src/agentbox_installer/versioning.py:8-8 | three numbers are accepted exactly when each is the numeral of a natural number |
| Versions.CandidateNumberExactly | installer/src/agentbox_installer/versioning.py:12-12 | a candidate number is accepted exactly when it is the numeral of a positive number |
| Versions.PrereleaseExactly | installer/src/agentbox_installer/versioning.py:9-12 | identifiers are accepted exactly when each is non-empty, begins with no hyphen and consists of digits, ASCII letters and hyphens |
| Versions.ReadIdentifiers | installer/src/agentbox_installer/versioning.py:38-46 | the loop yields an entry per identifier, numeric or not, and fails exactly on a leading zero |
| Versions.VersionPrecedence | installer/src/agentbox_installer/versioning.py:20-47 | the precedence of exactly the valid version texts |
| Versions.PrecedenceOfText | installer/src/agentbox_installer/versioning.py:27-47 | the precedence read off the text of a release, a candidate and a prerelease |
| Versions.BuildIgnored | installer/src/agentbox_installer/versioning.py:20-25 | build metadata does not change the precedence |
| Versions.LeadingZeroRefused | installer/src/agentbox_installer/versioning.py:40-42 | a numeric prerelease identifier with a leading zero makes a version invalid |
| Versions.PrecedenceKinded | installer/src/agentbox_installer/versioning.py:16-47 | comparing two precedences never compares a number with a text |
| Versions.KeyTrichotomy | installer/src/agentbox_installer/versioning.py:16-47 | of two different precedences exactly one is less |
| Versions.KeyTransitive | installer/src/agentbox_installer/versioning.py:16-47 | the comparison is transitive |
| Versions.PrecedenceIsSemVer | installer/src/agentbox_installer/versioning.py:20-47 | the tuples compare as section 11 of Semantic Versioning 2.0.0 orders the versions, with rcN read as rc.N |
| Versions.TieExactly | installer/src/agentbox_installer/versioning.py:20-47 | two valid versions tie exactly when they differ at most in build metadata or in rcN versus -rc.N |
| Versions.MatchRcExactly | installer/src/agentbox_installer/build.py:232-234 | the candidate pattern applies exactly to candidates without build metadata |
| Versions.NpmRc | installer/src/agentbox_installer/build.py:232-234 | a candidate N without build metadata is spelled -rc.N |
| Versions.NpmSame | installer/src/agentbox_installer/build.py:231-235 | any other version without build metadata is spelled as it is |
| Versions.NpmBuild | installer/src/agentbox_installer/build.py:231-235 | build metadata is appended with a hyphen |
| Versions.NpmPrecedenceExactly | installer/src/agentbox_installer/build.py:231-235 | the npm spelling of a valid version has the same precedence exactly when there is no build metadata |
| Versions.NpmReleaseBelow | installer/src/agentbox_installer/build.py:231-235 | the npm spelling of a final release with build metadata is a prerelease that sorts below it, or invalid exactly when the metadata has a leading zero |
| Versions.NpmExample | installer/src/agentbox_installer/build.py:231-235 | 1.0.0+5 is spelled 1.0.0-5, which sorts below it |
| Retention.Directory.Top | installer/src/agentbox_installer/retention.py:67-71 | the keep loop takes protected names and a prefix of the ranking, never above the larger of limit and protected count, and stops early only at the limit |
| Retention.Directory.Keep | installer/src/agentbox_installer/retention.py:83-90 | what is not kept is a selection: unprotected, outranked by everything kept for its rank, and of exactly the size needed |
| Retention.Directory.Remove | installer/src/agentbox_installer/retention.py:91-102 | deletes exactly the names not to be skipped, in order, up to the first deletion that fails |
| Retention.Prune | installer/src/agentbox_installer/retention.py:72-102 | whatever happens only selected entries are touched; a failure happens exactly when a selected deletion fails |
| Retention.PruneBackups | installer/src/agentbox_installer/retention.py:59-79 | times with and without a zone together stop the run before any deletion; otherwise the oldest backups beyond the limit go; protected and unverified entries stay, whatever happens |
| Retention.PruneReleases | installer/src/agentbox_installer/retention.py:81-102 | an unsafe link, or one to something that is no verified release, stops the run; the release the link names, protected, changed and unverified ones stay, whatever happens; the selection is made with the linked release among the protected |
| Retention.CandidatesExactly | installer/src/agentbox_installer/retention.py:112-160 | what counts as a verified backup or release |
| Retention.Enforce | installer/src/agentbox_installer/retention.py:39-104 | on every outcome protected objects, the current release and everything unverified stay as they are; it completes exactly when limits, roots, times, link and deletions are in order, and then deletes exactly a selection, no backup newer and no release above one that was kept for its rank |
| Retention.NewestOrders | installer/src/agentbox_installer/retention.py:64-66 | creation time and identifier rank all backups without ties |
| Retention.HigherOrders | installer/src/agentbox_installer/retention.py:184-185 | version precedence ranks all releases |
| Retention.HigherIsSemVer | installer/src/agentbox_installer/retention.py:82-82 | a release ranks at least as high as another exactly when section 11 of Semantic Versioning 2.0.0 does not order it lower |
| Retention.SelectedOldest | installer/src/agentbox_installer/retention.py:64-79 | no selected backup was created after one kept for its age, nor at the same time with a later name |
| Retention.SelectedLowest | installer/src/agentbox_installer/retention.py:82-102 | no selected release is above one kept for its version |
| Selections.NothingSelectedExactly | installer/src/agentbox_installer/retention.py:67-79 | nothing is selected exactly when verified plus protected objects fit the larger of limit and protected count; at most that many remain |
| Selections.SecondRunKeepsAll | installer/src/agentbox_installer/retention.py:39-104 | a second run over what is left selects nothing |
| Selections.SelectionUnique | installer/src/agentbox_installer/retention.py:64-79 | where no two names tie the selection is determined |
| Selections.TopIsSelection | installer/src/agentbox_installer/retention.py:67-75 | keeping the top of a ranking up to the limit selects the rest |
| Retention.BackupSelectionDetermined | installer/src/agentbox_installer/retention.py:59-79 | which backups go does not depend on the order of the directory |
| Retention.ReleasesTieExactly | installer/src/agentbox_installer/retention.py:184-185 | two releases rank alike exactly when they normalise to the same version |
| Retention.ReleaseSelectionDetermined | installer/src/agentbox_installer/retention.py:81-102 | without such ties, which releases go does not depend on the order of the directory |
| Timestamps.NormaliseUtc6 | migrations/versions/0005_phase11_control_plane_ownership_approval.py:143-168 | normalising an accepted source timestamp gives the demanded form of the same instant, and normalising again changes nothing |
| Timestamps.TextOrderIsTimeOrder | migrations/versions/0005_phase11_control_plane_ownership_approval.py:147-168 | text order on the demanded form is order in time on the Gregorian calendar, and equal instants are equal texts |
| Timestamps.YearStartClosed | migrations/versions/0005_phase11_control_plane_ownership_approval.py:152-161 | the days before a year are those of the Gregorian calendar, in closed form |
| Timestamps.MonthStartClosed | migrations/versions/0005_phase11_control_plane_ownership_approval.py:156-161 | the same for the days before a month |
| Timestamps.EveryInstantHasStamp | migrations/versions/0005_phase11_control_plane_ownership_approval.py:162-168 | the calendar check leaves out no day and no time of day from year 1 to 9999 |
| Timestamps.RenderRoundTrip | migrations/versions/0005_phase11_control_plane_ownership_approval.py:147-168 | every valid stamp has a text of the demanded form that reads back as the stamp |
| Timestamps.EveryInstantHasText | migrations/versions/0005_phase11_control_plane_ownership_approval.py:147-168 | every instant from year 1 to 9999 is named by exactly one text of the demanded form |
| Timestamps.MixedOrderExactly | migrations/versions/0005_phase11_control_plane_ownership_approval.py:46-46 | order of the normal forms is raw order of the 19- and 26-character texts, or the first spells out a zero fraction that the second omits |
| Sessions.UpgradeSatisfiesChecks | migrations/versions/0005_phase11_control_plane_ownership_approval.py:191-228 | every row that passes the preflight satisfies the recent-auth, epoch and timestamp constraints of the new table |
| Sessions.PreflightExactly | migrations/versions/0005_phase11_control_plane_ownership_approval.py:31-51 | the preflight, told by instants: valid names, valid timestamps, and creation not after any of the others, but for one spelling |
| Sessions.UpgradeCarries | migrations/versions/0005_phase11_control_plane_ownership_approval.py:214-228 | the new row has every column of the old one, each instant in its own column, and starts recently authenticated at its creation with epoch 1 |
| Sessions.DowngradeCarries | migrations/versions/0005_phase11_control_plane_ownership_approval.py:399-401 | the way back keeps every column of the old table as it is |
| Sessions.PreflightExample | migrations/versions/0005_phase11_control_plane_ownership_approval.py:31-51 | a row that the preflight accepts exists |
| Sessions.PreflightOrderExactly | migrations/versions/0005_phase11_control_plane_ownership_approval.py:31-51 | the preflight's text comparison is order in time except for one family of pairs |
| Sessions.PreflightOrderExample | migrations/versions/0005_phase11_control_plane_ownership_approval.py:46-46 | a pair of that family: one second written in both ways |
| Sessions.NormalisedUpgradesAlike | migrations/versions/0005_phase11_control_plane_ownership_approval.py:31-51 | a normalised row passes the preflight again and is upgraded to the same row |
| Sessions.RoundTrip | migrations/versions/0005_phase11_control_plane_ownership_approval.py:396-403 | upgrade then downgrade returns every session with only its timestamps normalised, and a second upgrade reproduces the same rows |
| Sessions.ReUpgradeExactly | migrations/versions/0005_phase11_control_plane_ownership_approval.py:370-403 | a row of the new table can be downgraded and upgraded again exactly when its names are valid and both expiries are not before its creation |
| Sessions.SessionsTable.Upgrade | migrations/versions/0005_phase11_control_plane_ownership_approval.py:342-367 | the upgrade happens exactly when all rows pass the preflight, carries every row column by column, and leaves a table that satisfies its constraints |
| Sessions.DowngradeReversible | migrations/versions/0005_phase11_control_plane_ownership_approval.py:370-403 | upgrading downgraded rows gives them back, and the preflight admits them exactly when their names are valid and both expiries are not before their creation |
| Sessions.SessionsTable.Downgrade | migrations/versions/0005_phase11_control_plane_ownership_approval.py:370-403 | happens exactly when no approval data exist and every row would survive being downgraded and upgraded; afterwards an upgrade gives the same rows, and its preflight passes exactly for readmitted rows |
| Sessions.SessionsTable.UpDownUp | migrations/versions/0005_phase11_control_plane_ownership_approval.py:342-403 | up, down and up again succeeds and ends in the table of the first upgrade |
| Epoch.CheckExactly | migrations/versions/0008_waw_runtime_epoch_fence.py:18-25 | the check accepts a text exactly when it is the decimal form of an integer from 1 to 2^64-1 |

## Left out

- Enrollment.Publisher.Publish: fsync and loss of completed calls after a power failure, owner, timestamps and replacement of the directory while a call runs; these are single refusals or properties of the file system.
- Activation.Transaction.Inspect: the enrollment record, the fixed policies and the policy digest are one external check that may fail.
- Activation.Transaction.CreateFile: the sharing of one inode by two names, which activation files never have.
- Approval.Tables.Execute: the per-state column consistency, the foreign keys and the remaining checks are one boolean input; instants are integers, which Timestamps.TextOrderIsTimeOrder justifies.
- Approval.ChallengeServesOnce: covers the time a challenge row is kept; a challenge deleted after its retention and inserted again under the same identifier is a new challenge.
- Ledger.Table.Write: REPLACE conflict resolution, and the formats of identifiers and keys, which only refuse more rows.
- Drain.Drain: a flush or close that fails at the end of a stream; the close raises in the caller, after the drained loops.
- Evidence.Tables.Open: the trigger that ties a new set to the current provider, profile and credential rows.
- Fingerprint.DatabaseExactly: the schema digest and the SQLite consistency checks; the JSON encoder and the hash are not modelled.
- Versions.VersionPrecedence: the digit limit of the source language's integer parser.
- Retention.PruneBackups: how a directory entry is verified; the verdict and the creation time are inputs.
- Sessions.SessionsTable.Upgrade: the other tables that the same revision rebuilds.
- Host provisioning, subprocesses, certificates, package and archive formats, the web interface and the probe scripts: input and output without an algorithm behind it.
- Fixed tables (release gates, pins, platform support) and the plain table migrations: finite data or one-line constraints.
