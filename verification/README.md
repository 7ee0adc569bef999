# backlogit: verified models of its hard core

Dafny 4.11 models of the parts of backlogit in which many steps, failures or threads have to fit
together, with proofs about all inputs, all failures and all interleavings. `dafny verify
dfyconfig.toml` checks the whole project.

A Go string or byte slice is a `Text`, any sequence of bytes (`Bytes.dfy`). A step that can fail
for reasons outside the model (files, git, the index, locks, hooks, clocks) fails
nondeterministically, or takes its outcome from a parameter where an exact condition is stated
about the outcomes.

| group | files | what is proved |
|---|---|---|
| Canonical JSON | `Utf8`, `Float64`, `CanonicalForm`, `CanonicalValue`, `Canonical`, `CanonicalDecode` | the canonical bytes of two accepted values are equal exactly when the values are equal after normalization; a decoder inverts the encoder |
| Duplicate members, DSSE | `MemberScan`, `Dsse`, `Attestation` | the explicit-stack scanners equal a predicate on the value tree, for every token stream; the pre-authentication encoding is injective, so a believed attestation was issued |
| Archive locks | `LockOrder`, `ArchiveTraces`, `ArchiveNeeds`, `ArchiveSteps`, `ArchiveLocks` | any number of archives with cascades, recoveries and stash effects cannot deadlock; every path gives back every lock once; a successful archive holds all the locks its scope and the shipments call for, and takes no other without a reason; exactly when the documented lock order is kept |
| Archive, unarchive, reconcile | `ArchiveStore`, `Archive` | conservation in every intermediate file state, what every failure leaves, exact round trip, compare-and-swap under interference |
| MCP daemon | `Daemon` | safety of every interleaving of acquire, release, status, stop and crash; what each report means; every terminated process was verified first |
| Adopt rename | `AdoptReferences`, `AdoptStash` | complete, idempotent, all or nothing |
| Cascade scope | `Descendants` | the search lists each descendant once, parents first, on every parent relation |
| Atomic write | `AtomicWrite` | old or new at every crash point; exactly when a power loss is survived |
| Governed writes, seams, cache, ID migration | `GovernedWrite`, `MetadataSeams`, `CanonicalCache`, `IdMigration` | invariants of whole runs, exact idempotence, collision freedom |

## What the proofs found

- Archiving an item that already lies in the archive directory rolls an index failure back with
  `os.WriteFile`, which truncates the only copy first (`internal/core/archive.go:356`).
  `InPlaceConserves` states exactly when that is harmless. Every other archive and every unarchive
  conserves under all failures.
- The order global, A, C, B of `docs/design-docs/artifact-mutation-lock-order.md:26` is kept on every
  path of an archive without a cascade, as long as no recovery it runs has to write an item log; a
  recovery locks that log (C) while it holds A and B (`internal/core/shipment_recovery.go:961-962`). In a
  cascade it is kept when in addition every item the second collection of descendants returns is in
  the scope or in no shipment but those of the scope, and recovered journals can be removed. A run
  in which no step fails breaks it otherwise (`TopLevelArchive`). `ViolatingTrace` is such a run: the
  first collection fails (`internal/core/archive.go:817-820`), and the nested call for a child takes its
  shipment's membership lock (A) while B and C are held, before it is refused its log. A journal that
  could not be removed is recovered again by every nested call, which breaks the order exactly if its
  shipment's membership lock is not held (`RecoveryOrder`).
- The same document puts the stash lock before all others (`:32-34`); a stash effect takes it under its
  item's mutation lock (`internal/core/archive.go:575-602`). Without a failing step the effects of an
  archive keep that rule exactly when no stash entry is linked to what it archived (`RunEffects`).
- Archives are deadlock-free all the same: out of order, locks are only taken under the lifecycle
  global, and nothing is waited for under the stash lock (`NoDeadlock`, `ArchiveConcurrently`).
- A failed archive or unarchive whose undo steps succeed leaves every file as it was, with four exact
  exceptions (`ArchiveUndone`, `UnarchiveUndone`): a git move that failed after the rename, a plain archive
  whose write is uncertain, a plain archive over a half-archived copy, which is gone afterwards, and an
  unarchive that could not remove the archive file, which leaves both.
- `mcp status` reports a running daemon, and acquire refuses, whenever another call holds the lock; that
  call can be another status probe while no daemon serves (`RunningWithoutDaemon`).
- Two objects of one document can have the same label in a duplicate-member error, across levels only
  (`LabelsCoincide`, `LabelMeaning`).
- A root on a parent cycle is listed among its own descendants, exactly when the cycle is no longer
  than the depth bound (`RootListsItself`).
- An item archived from outside the queue root comes back to the queue root after a second archive
  (`RoundTrip`). A record from before `archived_status` was kept comes back as `queued`; archived again in
  between, it comes back with status `archived` and without provenance, and can then not be unarchived
  (`LegacyRoundTrip`).
- A rename succeeds over a referencing file the scan cannot read, and leaves the old ID in it; the old ID
  is nowhere exactly when no such file was skipped (`RenameIsComplete`, `UnreadChildIsLeft`).
- A queued shipment cannot become active or abandoned in one ungoverned write. An ungoverned run can
  do it from any state that is not a queued shipment, and from no other (`OpenAfterDetour`); two writes
  that keep the type are enough (`QueuedToActiveAroundTheGuard`).
- A size mutation can leave a ruleset without a source in exactly one case (`SizePairing`).
- ID migration is idempotent exactly for suffixes without a dot (`MigrationIsIdempotent`).
- A failed create whose file could not be removed again makes the canonical cache and a fresh scan
  disagree (`LeftoverIsRefused`, `Batch.Create`).

## Model

| member | source | states |
|---|---|---|
| Utf8.NormalizeOneLine | internal/canonical/canonical.go:196-199 | CR-free text is copied, and CRLF, a lone CR and LF each become exactly one LF |
| Utf8.NormalizeIdempotent | internal/canonical/canonical.go:193-199 | no CR survives normalization, and normalizing twice is normalizing once |
| Utf8.NormalizeKeepsValid | internal/canonical/canonical.go:195-208 | normalization of valid UTF-8 is valid UTF-8, so a normalized key always re-encodes |
| Utf8.EncodeDecodedRune | internal/canonical/canonical.go:211-232 | ranging over a valid string and writing each rune back reproduces its bytes |
| Utf8.RuneMeaning | internal/canonical/canonical.go:205-211 | what a range loop reads is the encoding of one scalar value, never a surrogate or an overlong form, and every encoded scalar value is read back |
| Utf8.ValidMeaning | internal/canonical/canonical.go:205-207 | a string passes exactly if it is a sequence of encoded Unicode scalar values |
| Float64.RoundTripTest | internal/canonical/canonical.go:174-188 | converting a finite double in range to an integer and back is equal exactly when the double is integral |
| Float64.NonIntegralIsSmall | internal/canonical/canonical.go:160-188 | a non-integral double has magnitude below 2^52 |
| Float64.ValMeaning | internal/canonical/canonical.go:160-188 | the value of a double by sign, mantissa and exponent |
| Float64.RoundingMeaning | internal/canonical/canonical.go:175-184 | converting an integer to a double gives the nearest one with 53 significant bits, the even one of two |
| Bytes.FormatIntMeaning | internal/canonical/canonical.go:100-119 | an integer is written as the one numeral of its value: no leading zero, no plus sign, no negative zero |
| Bytes.LessMeaning | internal/canonical/canonical.go:275 | a proper prefix is less, and otherwise the first differing byte decides, the smaller one first |
| CanonicalForm.EscapeMeaning | internal/canonical/canonical.go:211-232 | quote, backslash and the four named control bytes get their two-byte escape, other control bytes four hexadecimal digits, all other bytes stand for themselves |
| CanonicalForm.RenderSpelledOut | internal/canonical/canonical.go:91-294 | the bytes of one document with an object, an array, all literals, a negative number and an escape, keys in ascending order |
| CanonicalValue.NumberMeaning | internal/canonical/canonical.go:147-156 | a literal is read exactly if it is digits behind at most one sign, from -2^63 to below 2^63, or to below 2^64 without a sign, as the number the digits denote |
| Canonical.Encoder.EncodeFloat | internal/canonical/canonical.go:163-191 | accepts exactly the finite integral doubles in [-2^63, 2^64) and appends that integer's shortest numeral |
| Canonical.Encoder.EncodeJsonNumber | internal/canonical/canonical.go:147-156 | accepts exactly the literals ParseInt or ParseUint read, and appends the shortest numeral of the integer, whatever the spelling |
| Canonical.Encoder.EncodeString | internal/canonical/canonical.go:204-236 | refuses invalid UTF-8, else appends the quoted minimal escaping of the normalized text, byte for byte as EscapeMeaning has it |
| Canonical.Encoder.EncodeArray | internal/canonical/canonical.go:239-251 | elements in order, first refused element's error, nothing lost between separators |
| Canonical.CollectEntries | internal/canonical/canonical.go:263-274 | for every map iteration order: one entry per key, refused exactly for an invalid or colliding key |
| Canonical.SortEntries | internal/canonical/canonical.go:275 | the entries, strictly ascending by the bytes of the normalized key |
| Canonical.Encoder.EncodeObject | internal/canonical/canonical.go:258-294 | for every map iteration order the members in ascending order of their normalized keys, or an error some order reports |
| Canonical.Encoder.Encode | internal/canonical/canonical.go:91-137 | succeeds exactly on accepted values and appends the rendering of their normalization |
| Canonical.Canonicalize | internal/canonical/canonical.go:57-64 | the canonical bytes exactly for accepted values, otherwise one of the value's errors |
| CanonicalValue.AcceptedIffNoErrors | internal/canonical/canonical.go:35-53 | a value is accepted exactly when no iteration order can report an error for it |
| CanonicalDecode.ValueRoundTrip | internal/canonical/canonical.go:91-294 | the rendering of any value followed by a delimiter is read back as that value and that rest |
| Canonical.DecodeInvertsCanonicalize | internal/canonical/canonical.go:57-64 | decoding the canonical bytes of an accepted value gives its normalization |
| Canonical.BytesDetermineValue | internal/canonical/canonical.go:1-20 | two accepted values have equal canonical bytes if and only if they are equal after normalization |
| Canonical.ObjectsEqual | internal/canonical/canonical.go:253-294 | two objects normalize alike if and only if they have the same normalized keys with equal members |
| Canonical.ExactlyOneLf | internal/canonical/canonical.go:55-64 | the output has exactly one LF, its last byte |
| MemberScan.ScanMembers | internal/core/attestation_parser.go:94-157 | the stack machine's verdict is recursive descent's, on every token stream and for every key function |
| MemberScan.Decoder.Token | internal/core/authorization_token_parser.go:75-92 | the decoder contract used: tokens nest, member names are strings, a refused token changes nothing |
| MemberScan.CheckTree | internal/core/attestation_parser.go:112-152 | on a value's tokens the scan names the value's first repeat, or reads exactly past it |
| MemberScan.RepeatsAreFound | internal/core/authorization_token_parser.go:68-72 | a first repeat exists exactly when some object at some depth has two members with equal collision keys |
| MemberScan.ItemsUnique | internal/core/attestation_parser.go:90-94 | a token stream is the tokens of at most one value followed by one rest |
| MemberScan.ScanOfDocument | internal/core/attestation_parser.go:90-157 | a value followed by anything: its first repeat in document order, else accepted only if nothing follows |
| MemberScan.AcceptedExactly | internal/core/authorization_token_parser.go:71-134 | accepted if and only if the stream is one complete value without a repeated member at any depth |
| MemberScan.DuplicateIsFirstRepeat | internal/core/attestation_parser.go:139-150 | a duplicate verdict, even on a truncated document, is the first repeat of a value that extends what was read |
| MemberScan.LabelMeaning | internal/core/attestation_parser.go:118-126 | a label is path.key or path[index], and the members and elements of one container have distinct ones |
| MemberScan.LabelsCoincide | internal/core/attestation_parser.go:118-126 | a member of a member has the label of a member with a dotted name |
| Dsse.PaeRoundTrip | internal/core/attestation_verify.go:246-250 | a decoder accepts exactly the encodings and returns what was encoded |
| Dsse.PaeInjective | internal/core/attestation_verify.go:248-250 | equal encodings have equal payload type and equal payload, for all byte strings |
| Dsse.PaeSpelledOut | internal/core/attestation_verify.go:246-250 | the encoding of one envelope, byte for byte |
| Attestation.VerifyAttestation | internal/core/attestation_verify.go:156-194 | verified exactly when every check holds, otherwise rejected with the first check in order that fails; the evidence check on the shipment can never be the one |
| Attestation.VerifySignature | internal/core/attestation_verify.go:254-272 | some entry of the resolved key verifies over the encoding of payload type and payload |
| Attestation.Bound | internal/core/attestation_verify.go:198-208 | the predicate and some subject name the shipment |
| Attestation.TrustedWasIssued | internal/core/attestation_verify.go:149-155 | if the key only ever signed issued envelopes, a trusted attestation is one of them and carries the expected evidence |
| LockOrder.ReleasedOnce | internal/core/archive.go:431-505 | in a disciplined trace a lock is released as often as acquired, up to one while held |
| LockOrder.StepKeepsExclusion | internal/core/shipment.go:1441-1494 | no interleaving lets two threads hold one lock |
| LockOrder.MembershipIsFree | internal/core/archive.go:424-455 | a membership lock is never contended, because who waits for it and who holds it hold the global |
| LockOrder.Below | internal/core/archive.go:575-602 | the holder of a lock that is taken out of order under the global can only wait for the stash |
| LockOrder.NoDeadlock | docs/design-docs/artifact-mutation-lock-order.md:26-30 | whenever a thread has work left, some thread can step |
| LockOrder.RunsNeverDeadlock | docs/design-docs/artifact-mutation-lock-order.md:26-55 | every run of any number of disciplined threads is finite and can go on until all have finished |
| LockOrder.StartedThreadsNeverDeadlock | docs/design-docs/artifact-mutation-lock-order.md:26-55 | from the start, every interleaving of disciplined threads keeps exclusion, makes progress and can go on, and some interleaving finishes all of them |
| LockOrder.StrictlyAbove | docs/design-docs/artifact-mutation-lock-order.md:26-28 | in a strictly ordered trace every lock, a membership lock too, is acquired above all locks held at that point |
| ArchiveTraces.TopLevelAscends | internal/core/archive.go:424-480 | what a top-level archive sets out to lock is strictly ascending in the documented order |
| ArchiveNeeds.CanonicalMeaning | internal/core/archive.go:652-706 | the locks of a top-level archive are the global and, in terms of the shipments: the membership lock of every shipment in the scope or listing a member of it, the item logs of the scope, and the mutation locks of the scope, of these shipments and of all their members |
| ArchiveNeeds.ChildTakesMemberships | internal/core/archive.go:455-475 | under the locks of its archive a child's call can take only membership locks, of shipments that govern the child and nothing in the scope |
| ArchiveNeeds.AcquiredIsNeeded | internal/core/archive.go:418-505 | every named lock acquired by an archive with its recoveries, children and effects is one the archive needs, one a journal names, or such a child's |
| ArchiveTraces.CallIsStrict | internal/core/archive.go:418-505 | a call that wants ascending locks above everything held keeps the strict order, however far it gets |
| ArchiveTraces.NestedOrder | internal/core/archive.go:437-475 | a nested call under mutation locks breaks the strict order with the first lock it takes, and all its outcomes keep it if and only if its item's log is held or all shipments related to the item are |
| ArchiveTraces.ViolatingTrace | internal/core/archive.go:784-829 | one shipment and one child it lists: the trace of a cascade whose first query failed, with membership taken under log and mutation locks |
| ArchiveTraces.RecoveryOrder | internal/core/shipment.go:2771-2819 | under mutation locks a recovery breaks the strict order with the first lock it takes, and it has one to take if and only if its shipment's membership lock is not held |
| ArchiveTraces.JournalTaken | internal/core/shipment.go:2771-2819 | without the locks of an enclosing archive a recovery has kept the order when it has all its locks |
| ArchiveSteps.LogTaken | internal/core/shipment_recovery.go:953-985 | locking an item log under mutation locks is possible under the global, gives everything back, and breaks the strict order |
| ArchiveLocks.SortIds | internal/core/shipment.go:2351-2369 | the distinct non-empty IDs in string order |
| ArchiveLocks.ArchiveThread.LockGlobal | internal/core/shipment.go:279-333 | reentrant through the context; a first acquisition runs the recovery barrier and gives the lock back when it fails; ordered exactly when no recovery writes an item log |
| ArchiveLocks.ArchiveThread.Recover | internal/core/shipment.go:2727-2862 | every journal once, its locks given back; takes nothing exactly when every shipment is held, keeps the order exactly when no item log is written; what is left is what failed or could not be removed |
| ArchiveLocks.ArchiveThread.RecoverOne | internal/core/shipment.go:2771-2861 | membership, then mutations, then item logs one at a time, all given back on every path; a membership lock held by the call tree is not had |
| ArchiveLocks.ArchiveThread.WriteLogs | internal/core/shipment_recovery.go:961-985 | each item log the call tree does not hold is locked and unlocked; a held one is reused |
| ArchiveLocks.ArchiveThread.LockEach | internal/core/archive.go:708-745 | takes exactly the missing locks in sorted order, or a prefix of them that it gives back in reverse; with B held no log is acquired, only reused or refused |
| ArchiveLocks.ArchiveThread.LockScope | internal/core/archive.go:437-490 | A, then C, then B for the scope, or a prefix of them that is given back; a covered scope takes no lock |
| ArchiveLocks.ArchiveThread.LockItems | internal/core/archive.go:464-490 | C, then B for the scope, or a prefix of them that is given back; nothing when a log is refused under mutation locks |
| ArchiveLocks.ArchiveThread.LockGovernance | internal/core/archive.go:418-505 | success acquires exactly the wanted locks, for a top-level call global, sorted A, sorted C, sorted B; a failure gives back the prefix it got; recoveries before them are ordered exactly when they write no item log |
| ArchiveLocks.ArchiveThread.LockRecovered | internal/core/archive.go:435-490 | the recovery of a call and the locks of its scope under the global, or all given back |
| ArchiveLocks.ArchiveThread.Unlock | internal/core/archive.go:494-504 | releases in reverse order, each lock once, down to what was held before |
| ArchiveLocks.ArchiveThread.ArchiveItem | internal/core/archive.go:116-177 | with no journal pending, a nested call takes no lock if its item fits the locks held and breaks the order exactly when the item does not fit and no step fails; it is refused if its log is not held; a top-level call is strict when its recoveries write no log and its children are in order; effects are queued once per archived item |
| ArchiveLocks.ArchiveThread.ArchiveLocked | internal/core/archive.go:135-177 | between its locks: without a cascade a prefix of the wanted locks taken and given back, with one the exact trace of a run without failing steps or pending journals, and its order on every run |
| ArchiveLocks.ArchiveThread.ArchiveDescendants | internal/core/archive.go:784-807 | the children run under the parent's locks and leave them as they were; their calls keep the strict order when every child fits, and without a failing step exactly then |
| ArchiveLocks.ArchiveThread.RunEffects | internal/core/archive.go:552-562 | each queued effect is tried once with no lock held, which leaves the order as it was; the stash lock stays first exactly when no entry is linked |
| ArchiveLocks.ArchiveThread.ArchiveLinked | internal/core/archive.go:575-602 | one effect: the item's mutation lock or nothing, and under it the stash lock once for each linked entry, all given back |
| ArchiveLocks.TopLevelArchive | internal/core/archive.go:113-162 | for every failure: a disciplined trace that ends holding nothing and tries each archived item's stash effect exactly once; success has held, all at one time, every lock the scope and the shipments call for, and no run acquires another named lock but for a journal or a child outside the scope; strictly ordered exactly when no recovery writes an item log and, in a cascade whose journals can be removed, every child is in order |
| ArchiveLocks.ArchiveConcurrently | docs/design-docs/artifact-mutation-lock-order.md:26-55 | any number of archives with any cascades, recoveries, stash effects and failures: no interleaving of their lock steps deadlocks |
| ArchiveStore.ArchiveConserves | internal/core/archive.go:312-366 | from outside the archive directory, under every fault and in every state, the item is held somewhere and other items are untouched |
| ArchiveStore.InPlaceConserves | internal/core/archive.go:347-366 | in place, conservation under every fault if and only if another file holds the item |
| ArchiveStore.UnarchiveConserves | internal/core/archive.go:1250-1330 | unarchiving conserves in every state and under every fault |
| ArchiveStore.FailedArchiveIsUndone | internal/core/archive.go:317-365 | what each failure leaves: every file as it was if the undo steps it reaches succeed, but for a move that failed after the rename, an uncertain plain write, and a half-archived copy, which is removed |
| ArchiveStore.FailedUnarchiveIsUndone | internal/core/archive.go:1269-1322 | what each failure leaves: every file as it was if the undo steps it reaches succeed, but for a move that failed after the rename and an archive file that could not be removed |
| ArchiveStore.RoundTrip | internal/core/archive.go:282-310 | archive, archive n more times, unarchive gives back every file if and only if the item was at the queue root or n is 0 |
| ArchiveStore.RoundTripOfItem | internal/core/archive.go:1233-1244 | the frontmatter always comes back, to its own place after one archive and to the queue root after more |
| ArchiveStore.LegacyRoundTrip | internal/core/archive.go:1233-1244 | a record without archived_status comes back as queued, after a re-archive as archived without provenance, and is then refused by unarchive |
| ArchiveStore.StatusesSpelledOut | internal/models/artifact.go:14-25 | a lookup finds exactly the artifacts with one of the ten statuses, in letters |
| ArchiveStore.ArchiveRunSucceeds | internal/core/archive.go:312-349 | without a failed step the run ends with the stamped file at the archive path and nothing at the source |
| ArchiveStore.UnarchiveRunSucceeds | internal/core/archive.go:1233-1300 | without a failed step the run ends with the restored file at the recorded path and nothing in the archive |
| Archive.Store.ArchiveItem | internal/core/archive.go:179-366 | finds only files that validate, and the one at the queue root first; writes only past the status, occupancy and hook checks; a conflict means a missing item or another status, and when no lookup, read or hook fails a refusal means one of these or a destination of another item; a refusal has no side effect, and a failure leaves the files as they were if its undo steps succeed, with the exact exceptions |
| Archive.Store.UnarchiveItem | internal/core/archive.go:1151-1330 | under the lock: expected status and archived status, never over an existing target; when no lookup, read or plan fails, refused only for a missing item, another state, or a record or target that does not allow it; a failure leaves the files as they were if its undo steps succeed, with the exact exceptions; an uncertain write is not undone |
| Archive.Store.SetStatus | internal/core/archive_reconcile.go:351-447 | writes only where the item is outside the archive with the expected status; a conflict means a missing item, an archived one or another status; a definite failure leaves the files as they were |
| Archive.SetConserves | internal/core/archive_reconcile.go:410-447 | the set step conserves in every state and under every fault |
| Archive.Store.ReconcileItem | internal/core/archive_reconcile.go:148-324 | with any interference between its steps: every write is guarded; completed exactly when unarchive, set and an archive stamped with the target committed; a no-op only for an item archived with the target or reconciled with the key, and for such an item nothing else but a lookup or read failure; unknown exactly when the last critical section ended indeterminate; not counted as failed only if nothing was to do or unarchive and set committed; undisturbed, for an item that can be restored, no step is refused and a failed set step is always followed by the rollback archive, and without a fault it is completed |
| Archive.Store.SetAndRearchive | internal/core/archive_reconcile.go:237-304 | a status write, then the final archive of the target status if it committed and the rollback archive of the old status if not; a refused status write is followed by the rollback alone or by nothing; undisturbed, the archive is attempted unless the status write is uncertain |
| Archive.RetryIsNoOp | internal/core/archive_reconcile.go:189-201 | an item that was corrected and archived again is a no-op for the same target and for the same key |
| Archive.Store.ReconcileAll | internal/core/archive_reconcile.go:121-141 | results in request order, every write of the batch guarded, an error exactly when every item failed |
| Archive.ComputeOutcome | internal/core/archive_reconcile.go:449-477 | indeterminate before partial before completed before no-op |
| Daemon.StepKeepsInv | internal/cli/mcp_daemon.go:347-603 | every step of every call, spawn or crash, a stop whose target has vanished too, keeps lock, sidecar and history consistent |
| Daemon.RunKeepsInv | internal/cli/mcp_daemon.go:347-603 | every state of every run satisfies the invariant |
| Daemon.EveryRunIsSafe | internal/cli/mcp_daemon.go:347-429 | at most one holder; a serving daemon's sidecar is its own record; terminated processes had recorded themselves |
| Daemon.StepsAreGuarded | internal/cli/mcp_daemon.go:297-337 | the sidecar changes only in the hands of the lock holder; only a stop that named a recorded, running process terminates one |
| Daemon.StoppedOnlyUnderLock | internal/cli/mcp_daemon.go:580-603 | `Stopped` is reported only while stop itself holds the lock, with the sidecar removed and the process gone |
| Daemon.ReportsAreRight | internal/cli/mcp_daemon.go:355-465 | running and already running are reported only while another call holds the lock; not running only in the step that gives back a lock the call took, with the sidecar gone; released only in the step that unlocks |
| Daemon.ReportsAreGiven | internal/cli/mcp_daemon.go:444-465 | the converse: status and acquire report a busy lock always and a free one never, and a probe that removed the sidecar reports what it found or lets a replacing call retry |
| Daemon.RunningWithoutDaemon | internal/cli/mcp_daemon.go:444-465 | one status probe makes another report a running daemon, and acquire refuse, while no daemon serves |
| Daemon.ReportsAreFinal | internal/cli/mcp_daemon.go:347-603 | no step changes what a call has reported |
| Daemon.RetriesOnce | internal/cli/mcp_daemon.go:362-368 | a replacing acquire stops one holder at most: its second attempt takes the lock, reports another holder, or fails |
| Daemon.SidecarSteps | internal/cli/mcp_daemon.go:297-337 | a removal leaves no sidecar or, when it fails, the one there was; a completed record names its writer; no other step touches the file |
| Daemon.StopAdvances | internal/cli/mcp_daemon.go:549-583 | stop names a process from its record and never its own pid, opens it only alive, goes on only with the record unchanged and then the lock still busy |
| Daemon.KilledWasVerified | internal/cli/mcp_daemon.go:549-583 | in every run, before stop terminates a process the same call had read its record, later found it unchanged, and then found the lock held by another call |
| Daemon.NoCallIsStuck | internal/cli/mcp_daemon.go:347-603 | until it has reported, every call has a step of its own besides giving up |
| Daemon.AcquireInOrder | internal/cli/mcp_daemon.go:389-413 | acquire takes a free lock, then removes the old sidecar, then creates a new one where there is none, then completes its record |
| Daemon.AcquireServes | internal/cli/mcp_daemon.go:347-426 | on a free lock and without a failing step, acquire ends serving under its own record |
| Daemon.StopStops | internal/cli/mcp_daemon.go:523-603 | a stop of a serving daemon without a failing step ends with the process gone, the lock free, no sidecar, and the report that it was stopped |
| AdoptReferences.RewriteManifest | internal/core/artifact_references.go:166-191 | the loop with its seen set computes the distinct renamed members |
| AdoptReferences.ManifestMeaning | internal/core/artifact_references.go:166-191 | no old ID, the same members otherwise, no duplicates, and a second rewrite changes nothing |
| AdoptReferences.DistinctMeaning | internal/core/artifact_references.go:166-185 | dropping later duplicates keeps the members and their first-seen order |
| AdoptReferences.RewrittenMeaning | internal/core/artifact_references.go:252-273 | every edge that named the old ID names the new one, with its kind and place; every other edge and every other modelled field are kept |
| AdoptReferences.RefersMeaning | internal/core/artifact_references.go:76-112 | an artifact is found if and only if the ID is its parent, in a dependency, in a link or, in a shipment, among its members |
| AdoptReferences.Workspace.FindReferences | internal/core/artifact_references.go:35-165 | exactly the other artifacts that name the old ID in files that could be read, each once; a failed walk is an error |
| AdoptReferences.Workspace.ApplyRewrites | internal/core/artifact_references.go:214-374 | all found files are rewritten from their state under the lock, and only if every write and every index update succeeded; if a step fails and restoring works, no file has changed |
| AdoptReferences.Workspace.RestoreWritten | internal/core/artifact_references.go:276-292 | every file ends as its snapshot, or as its rewrite where restoring failed |
| AdoptReferences.Workspace.RenameReferences | internal/core/artifact_references.go:20-34 | success renames every artifact that could be read, and leaves the old ID nowhere if and only if none that names it was skipped; failure restores |
| AdoptReferences.RenameIsComplete | internal/core/artifact_references.go:20-34 | no other artifact names the old ID if and only if no candidate was skipped, and a later rename that reads everything rewrites exactly the skipped ones |
| AdoptReferences.UnreadChildIsLeft | internal/core/artifact_references.go:60-64 | a child that cannot be read while its parent is renamed goes on naming the old ID |
| AdoptStash.RewriteHarvested | internal/core/adopt_stash_propagation.go:175-211 | line by line, refused exactly for an unreadable line that mentions the old ID, reporting whether a line changed |
| AdoptStash.ContainsMeaning | internal/core/adopt_stash_propagation.go:175-190 | a line is examined exactly if the old ID is a contiguous part of its bytes |
| AdoptStash.HarvestedIsRenamed | internal/core/adopt_stash_propagation.go:175-211 | no line harvests the old ID afterwards if and only if each such line spells it out; a changed line is the record with the new ID and its other members, other lines are identical; a second rewrite changes nothing |
| AdoptStash.SuccessorCorrections | internal/core/adopt_stash_propagation.go:213-254 | exactly one successor for each stash whose latest correction names the old ID |
| AdoptStash.CorrectionsAreRenamed | internal/core/adopt_stash_propagation.go:160-172 | after appending, no stash's latest correction names the old ID: where one did, the latest names the new ID; other stashes keep their latest |
| AdoptStash.NothingLeft | internal/core/adopt_stash_propagation.go:213-254 | a second run appends nothing |
| AdoptStash.StashArchive.Propagate | internal/core/adopt_stash_propagation.go:115-172 | both files renamed, or rolled back to their snapshots |
| Descendants.Collector.Collect | internal/core/archive.go:811-829 | the recursion with its shared visited set equals the search function, and ends on every relation |
| Descendants.CascadeListsDescendants | internal/core/archive.go:784-829 | cycles included: each item within the depth bound is listed exactly once, nothing else is, each after its parent |
| Descendants.RootListsItself | internal/core/archive.go:811-829 | the root is among its descendants if and only if it is on a cycle within the bound |
| Descendants.ReverseInPlace | internal/core/archive.go:786-789 | the in-place swap loop reverses the list |
| Descendants.ChildrenBeforeParents | internal/core/archive.go:784-791 | for a root on no cycle within the depth bound, the reversed list has every child before its parent and never the root |
| AtomicWrite.Directory.WriteFileAtomic | internal/atomicfile/atomicfile.go:70-133 | at every crash point old or complete new; not applied keeps content and mode, and no temporary file if it can be removed; otherwise new content with the old mode's group and world write bits cleared, or the default mode if there was no file to examine; success survives every power loss exactly when durable and either directories are synced or the saved name had the same synced content |
| AtomicWrite.Directory.Stage | internal/atomicfile/atomicfile.go:79-117 | nothing before the rename is visible at the destination; a failure leaves at most the temporary file, and nothing if that can be removed |
| AtomicWrite.RenamedIsVisible | internal/atomicfile/atomicfile_other.go:11-25 | the rename replaces the destination in one step and touches no other name |
| AtomicWrite.NewFileIsNotWritable | internal/atomicfile/atomicfile.go:71-76 | no file written this way is writable by group or world; every other permission bit of the old file is kept |
| AtomicWrite.PowerLoss | internal/atomicfile/doc.go:43-54 | a file survives every power loss if and only if its inode is synced and the saved name leads to the same synced content |
| IdMigration.TrailingOrdinal | scripts/migrate-ids.go:391-409 | the trailing digits as a padded ordinal, refused without digits or past the int range |
| IdMigration.PaddedValue | scripts/migrate-ids.go:408 | the padded ordinal has the value of the digits, at least three digits, and no leading zero beyond that |
| IdMigration.MigrateArtifactId | scripts/migrate-ids.go:350-372 | the loop computes the migration of the ID |
| IdMigration.MigratedMeaning | scripts/migrate-ids.go:374-389 | an ID counts as migrated exactly if it is dotted runs of digits followed by the suffix, and the suffix has no dot |
| IdMigration.MigrationIsIdempotent | scripts/migrate-ids.go:350-389 | migrating a migrated ID changes nothing if and only if the suffix has no dot |
| IdMigration.MigrationKeepsOrdinals | scripts/migrate-ids.go:361-371 | the number of segments and each segment's ordinal are kept |
| IdMigration.SplitOfJoin | scripts/migrate-ids.go:361-371 | splitting joined dot-free segments gives them back |
| IdMigration.BuildMapping | scripts/migrate-ids.go:98-149 | refused exactly when an ID cannot be migrated or two IDs would become one; an accepted plan is injective |
| IdMigration.PlanIsIdempotent | scripts/migrate-ids.go:98-149 | migrating an accepted plan's results again changes no ID |
| GovernedWrite.ArtifactFile.Write | internal/core/artifacts.go:958-1051 | the file changes only by an admitted rewrite and then carries provenance exactly if archived; a refusal names the first guard, of an existing or a new file, and changes nothing |
| GovernedWrite.AdmitsMeaning | internal/core/artifacts.go:958-1114 | what goes through, exactly: for an ungoverned write everything but a move into or out of blocked shipment, a change of a blocked shipment's envelope or of a shipment's blocked status, and taking a queued shipment to active or abandoned; for any write the members of a blocked shipment stay |
| GovernedWrite.BoundaryIsGoverned | internal/core/artifacts.go:1087-1114 | being a blocked shipment begins and ends only in a governed write, also across type changes |
| GovernedWrite.RunBoundary | internal/core/artifacts.go:953-957 | over any run, a change of blockedness goes back to a governed write in it |
| GovernedWrite.BlockedInterval | internal/core/artifacts.go:988-1011 | the members are constant through a blocked interval including the write that ends it; ungoverned writes keep the envelope |
| GovernedWrite.RunKeepsProvenance | internal/core/artifacts.go:970-979 | from a good start every state of every run carries archive provenance, and custody changes only in custody writes |
| GovernedWrite.WrittenIsExact | internal/models/artifact.go:135-142 | whatever provenance the caller carries, what an admitted write leaves in the file has it exactly if archived, and is otherwise what was asked for |
| GovernedWrite.RunIsExact | internal/core/artifacts.go:970-979 | over any run from any start, every state is the untouched first one or carries provenance exactly if archived, and once exact the file stays so |
| GovernedWrite.LeavingQueuedIsGoverned | internal/core/artifacts.go:1013-1023 | any single write from a queued shipment to an active or abandoned status is governed, whatever else it changes |
| GovernedWrite.QueuedUntilDetour | internal/core/artifacts.go:1108-1114 | an ungoverned run that activates or abandons a queued shipment passes through a state that is not a queued shipment |
| GovernedWrite.OpenAfterDetour | internal/core/artifacts.go:1108-1114 | the next ungoverned write of an ungoverned run can leave an active or abandoned shipment if and only if the run is now at something other than a queued shipment |
| GovernedWrite.QueuedToActiveAroundTheGuard | internal/core/artifacts.go:1108-1114 | no single ungoverned write activates or abandons a queued shipment, two that keep the type do |
| MetadataSeams.Task.SetComplexity | internal/core/artifact_complexity.go:47-146 | at every failure or crash: at most one event, the one of the mutation's value and provenance, only for a valid mutation; a valid one is done exactly if its append, its write or the one retry of it and the end go through; success leaves provenance paired |
| MetadataSeams.Task.SetSize | internal/core/artifact_size.go:110-216 | at every failure or crash: at most one event, the one of the mutation, and a change only as its logged effect; a valid one is done exactly if its append, its write or the one retry of it and the end go through |
| MetadataSeams.SizeRefusals | internal/core/artifact_size.go:232-264 | refused exactly: a size that is not the schema's, an unknown source, a source without a ruleset, provenance without any size |
| MetadataSeams.ComplexityRefusals | internal/core/artifact_complexity.go:150-215 | refused exactly: not a task, no or another value, half or valueless provenance, an unknown source, a blank ruleset or one with control characters |
| MetadataSeams.ComplexityReplaces | internal/core/artifact_complexity.go:98-128 | a valid complexity mutation replaces value, source and ruleset together and nothing else |
| MetadataSeams.SizeMerges | internal/core/artifact_size.go:183-195 | a size mutation sets what it brings and keeps every other field |
| MetadataSeams.Task.Commit | internal/core/artifact_size.go:61-73 | logged before written; the fields change exactly if the append was reported and the first write was applied or, not being applied, the second was; a retried write appends no second event |
| MetadataSeams.Task.GenericUpdate | internal/core/artifact_size.go:291-311 | the generic path neither sets nor drops a reserved field |
| MetadataSeams.MergePreserve | internal/core/artifact_size.go:300-311 | reserved keys from the stored fields, all others from the caller |
| MetadataSeams.ReplayedValuesAreLogged | internal/core/artifact_size.go:85-109 | every value after any run was there at first or is in an applied event |
| MetadataSeams.EffectPairs | internal/core/artifact_complexity.go:100-114 | a complexity change leaves source and ruleset both present or both absent and only with a value; a size change does not touch them |
| MetadataSeams.ReplayPairs | internal/core/artifact_complexity.go:40-47 | over any run, once one complexity change was written, provenance stays paired |
| MetadataSeams.SizePairing | internal/core/artifact_size.go:232-264 | a valid size change breaks size provenance only by a ruleset alone without a stored source |
| CanonicalCache.Scan | internal/core/canonical_scan.go:39-121 | the references are exactly the files that declare each ID |
| CanonicalCache.Batch.EnsureSeeded | internal/core/canonical_cache.go:49-62 | a zero-valued cache is seeded with what a scan finds, a seeded one is left alone |
| CanonicalCache.Batch.Create | internal/core/artifacts.go:224-242 | decides and writes as a create that scans afresh; the cache still agrees exactly when nothing was left behind |
| CanonicalCache.RunBatch | internal/core/canonical_cache.go:13-24 | a batch sharing a cache, seeded or zero-valued, equals a batch that scans before every create |
| CanonicalCache.WrittenIsDeclared | internal/core/artifacts.go:345-429 | a created file makes exactly its own ID taken |
| CanonicalCache.LeftoverIsRefused | internal/core/artifacts.go:376-381 | a file a failed create could not remove makes a fresh scan refuse its ID |

## Left out

- Hash and HashBytes: SHA-256 is not modelled and no collision freedom is claimed.
- Float64: a float32 is taken as the double it converts to, and a json.Number as its literal.
- json.Decoder: its lexing, separators and escapes are one contract (tokens nest, names are strings, an error can come anywhere); `canonicalJSONMemberName` is a parameter.
- ParseAttestation and ParseAuthorizationToken: the decode into structs and base64 after the scan are library calls.
- Attestation: signature algorithms, time parsing, anchor resolution and the rejection audit are parameters or not part of this model.
- ArchiveLocks: an item-log lock is one lock, not a process mutex and a file lock; a lock that times out simply fails; ShipShipment as a caller is not modelled; a single loop stands for the three lock loops.
- ArchiveLocks.ArchiveThread.Recover: what a recovery does to artifacts and journals besides locking and removing is not modelled; which artifacts and logs it names is data of the journal.
- ArchiveLocks.ArchiveThread.ArchiveItem: shipment membership is constant during one operation, because its writers take the lifecycle global.
- Archive: path containment, symlinks, the remapping of legacy storage roots, directory fsyncs, event logs and hooks beyond allow or refuse; the queue root is taken to differ from the archive directory, and serializing then parsing frontmatter is taken as the identity.
- Archive.Store.ReconcileItem: conflict and reconciliation events are not modelled, nor the validation of the request before the loop.
- ArchiveStore: of the validation of an artifact only its status is modelled.
- ArchiveStore: an uncertain write has replaced the file, which is what AtomicWrite shows for it; `os.Remove` that fails has removed nothing.
- Daemon: path, symlink and same-file checks are part of a call that may give up at any step; wait times and the content of the record besides pid and start time are not modelled; the operating system drops a dead process's lock.
- AdoptReferences.RewrittenMeaning: the rewrite goes through `ToFrontmatterMap`, which drops top-level keys the artifact type does not have, `level` and `hierarchy_path`.
- AdoptReferences: no other writer adds a reference between the scan and the rewrite, and the index rows are a step that may fail.
- AdoptStash: appending a line is one step, and re-marshalled bytes are a parameter.
- Descendants: a query that fails reports no children, as in the code; items with several parents do not exist in the index.
- AtomicWrite: Windows is the case without a directory fsync; its write-through flag is not modelled.
- IdMigration: the rewriting of paths, logs and stash files by the mapping is not part of this model.
- GovernedWrite: an artifact that does not validate can be written all the same and is then unreadable to every later write; only artifacts with one of the ten statuses are modelled.
- GovernedWrite: creation of a file through the writer, where no earlier state exists, is only checked for custody and provenance, as in the code; envelope timestamps are taken in canonical form.
- MetadataSeams: white space and control characters are the ASCII ones.
- CanonicalCache: ID allocation is a parameter, and directory walks succeed.
- Cobra commands, rendering, configuration loading, git, SQLite, fsync and flock as code, self-update, webhooks and telemetry: wiring or foreign calls.
