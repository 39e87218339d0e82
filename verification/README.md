# Verified cores of vHSM

A Dafny model of the parts of vHSM whose behaviour is hardest to see from the code: the anchoring
protocol, the object store, key wrap, the hash-chained audit log, Merkle proofs, the vault and token
files, the firmware throttles, the text codecs and the session state. Each part has a functional
description on which the properties are proved. Where the source updates state or runs a loop, a class
or method in the same shape is proved to carry out that description.

`dafny verify dfyconfig.toml` checks the project.

## Parts

| files | subject |
|---|---|
| `Ledger`, `LedgerRuns`, `LedgerOutcomes`, `LedgerWorker` | Asynchronous anchoring as a state machine over the atomic sections of `submit_record` and `process_record`, in every interleaving; how calls and tasks end, told by what they were answered and read; the worker class with interference between any two sections. |
| `HandleTable`, `ObjectIndex`, `IndexRuns`, `SearchRuns`, `ObjectStore` | Slot allocation with an intrusive free list and 32-bit versions; the three secondary indices under attribute writes that do not hold the store's lock; searches that take a snapshot, unlock and revalidate while others change the store. |
| `Words`, `WrapRounds`, `KeyWrap`, `Rfc3394` | AES key wrap as indexed rounds in place, against the shift-register description in section 2.2.1 of RFC 3394 and, octet by octet, against its index-based description. |
| `HashChain`, `AuditLog`, `AuditLines`, `AuditRuns`, `AuditVerdicts`, `AuditExamples`, `HashChainedAuditLog` | The log's text format, verification and recovery through bounded read buffers of lines of any length, and the verdict after every run of complete, failed and unsynced appends and restarts. |
| `Merkle` | Level-by-level build, proofs, sorted-pair verification. |
| `LittleEndian`, `FieldLists`, `VaultImage`, `VaultSave`, `Vault`, `TokenSnapshot` | The two binary formats and the temp-file-and-rename save protocol with crashes and power loss. |
| `Throttle`, `Lockout` | The request limiter and the authentication lockout over whole runs. |
| `Codecs`, `Decimals` | Base64 and hex in C++ and Go; decimal numbers. |
| `Machines`, `Session`, `SessionState` | Multi-part operations and searches of many sessions side by side. |
| `Wrappers`, `Bytes`, `Widths`, `Sums` | Shared definitions. |

## How the code is modelled

- Cryptographic primitives are function parameters. What a theorem needs of them is a named hypothesis:
  `Permutation` (block cipher), `CollisionFree` and `NeverZero` (MAC), `NoCollision` (pair hash),
  `Sealing` and `Authentic` (AES-GCM). The hypotheses about MAC and hash are about a finite set of inputs that
  each theorem names: the records of the logs compared, the records an append involves, the pairs hashed while
  building the tree and climbing the path. (A function into 32 bytes cannot be injective on more.)
- Concurrency: a step of a state machine is one atomic section of the source, a stretch under one lock or
  one atomic operation. Theorems hold for every sequence of steps of any number of threads. Writing the attributes
  of one object is one step, which does not hold the store's lock; the `v_reindex` that follows is another.
- What the operating system, the pool, the ledger client and the clock answer is a parameter or a
  nondeterministic choice. A process may be killed between any two of its system calls.
- Integers are unbounded where the source cannot overflow. Handle versions, sequence numbers, the length
  sum of a vault file, firmware seconds and cooldowns carry their width explicitly.
- Bytes are integers from 0 to 255, except in key wrap, which works on bit-vectors.

## Where the code does not do what one would expect

Where an expected property fails, a lemma gives an input or run on which it does, and another proves for all
inputs exactly when it holds.

- A slot's version is 32 bits wide, so after 2^32 reuses a destroyed handle designates another object
  (`VersionWrapRevivesHandle`; exact conditions: `HandlesDistinctExactly`, `HandlesNonZeroExactly`, `ResolvesExactly`).
- `C_CreateObject` applies its template after the object was indexed, so a search misses the object until it is
  reindexed (`CreatedObjectIsMissed`; exact condition: `NeverMissedExactly`).
- `C_SetAttributeValue` writes without the store's lock and reindexes afterwards. If the object is destroyed in
  between, entries under its former label or id stay behind until a later tenant of the slot is reindexed
  (`DestroyBetweenLeavesEntry`; exact condition: `WriteDestroyReindex`, and `DropExactly` for any state; what holds in
  every run: `UnchangedSlotsAreSynced`, `DisciplinedRunsAreSynced`).
- `C_SetAttributeValue` does not reindex at all if one entry of the template is refused, although the others were
  written (`RefusedEntryLeavesStale`; exact condition: `SetAttributesExactly`). It stores CKA_ID in a field that no
  match reads (`SettingIdChangesNoMatch`).
- Also with exact indices a search can miss a match: an object whose stored CKA_CLASS is not the type it is indexed
  under, as `C_CreateObject` makes it for every class outside 0 to 4 (`OtherClassIsMissed`), and an object with an empty
  label that the template asks for (`EmptyLabelIsMissed`). Exact condition for every template: `FindIsScanExactly`.
- A record that the pool refused stays claimed and cannot be submitted again (`RefusedStaysClaimed`; exact condition:
  `ResubmittableExactly`); the pending counter can be as negative as there are threads between enqueueing and counting
  (`PendingReaches`; exact condition: `PendingSignExactly`).
- `Verify` of a Merkle proof ignores the path's length, so an inner node passes for a leaf (`InnerNodeAccepted`), and
  so does a preimage of a leaf (`PreimageAccepted`, `NonLeafAccepted`). Exact conditions: `VerifyExactly` for
  full-length paths, `ShortProofsExactly` for shorter ones, `LongProofsExactly` for longer ones.
- Audit fields are neither escaped nor bounded: a record with a bar, newline or NUL in a field, or whose line reaches
  2048 characters, is written and then fails verification (`TroubleSpoils`; exact condition: `AppendKeepsExactly`).
- A partly failed audit append leaves a file that no longer verifies, and the object keeps chaining to the old hash
  (`PartlyWritten`; exact conditions: `FailedAppendVerdict`, `NextAppendVerdict`, `RestartedAppendVerdict`, and
  `RunsVerdict` for whole runs). A bad line that is terminated stays the verdict for ever (`DamageIsPermanent`).
- A restart reads the last audit line in pieces of 1023 characters. Past that length the sequence number can be lost and
  given out again (`NumberIsLost`), and the hash is lost if it is split between two pieces, which spoils the next append
  (`HashIsLost`; exact condition: `RestartTailExactly`).
- `C_FindObjects` with a null array still moves past the handles it counts (`CountedAndLost`; exact condition:
  `BatchesConcatenate`).
- Two vault saves that share a temporary name can publish an empty file (`SharedNameBreaks`; exact condition: `WholeExactly`).
- Reading a token snapshot forgets the top bit of the flags octet (`TopBitIsForgotten`; exact condition:
  `CanonicalExactly`).
- Lenient hex and base64 input does not re-encode to itself (`UpperCaseIsLost`, `UnusedBitsAreLost`; exact conditions:
  `HexCanonicalExactly`, `Base64CanonicalExactly`).
- The help text of `HSM_AUTH_LOCK_BASE_S` calls the value the initial cooldown; the code doubles it before the first
  lockout, and a success does not reset it. The model follows the code (`KthLockoutLasts`).

## Model

| member | source | states |
|---|---|---|
| LedgerRuns.RunKeepsInv | src/ledger/ledger_worker.cpp:207-315 | In every interleaving: an id is in flight exactly when one call holds it or one live task carries it; pending equals accepted unfinished tasks minus increments still owed; the outcome counters equal the outcomes decided; every thread publishes only its own outcome, once; attempts stay within the budget |
| LedgerRuns.OneTaskPerRecord | src/ledger/ledger_worker.cpp:213-231 | In every run, while a task for a record is queued or running, every other task for it has finished and no call is about to add one |
| LedgerRuns.ResubmittableExactly | src/ledger/ledger_worker.cpp:233-252 | An id can be claimed again if and only if no call holds or lost it and all its tasks have finished |
| LedgerRuns.RefusedStaysClaimed | src/ledger/ledger_worker.cpp:233-252 | A run ends at rest, without any task, with a refused record still in flight |
| LedgerRuns.OneOutcomePerTask | src/ledger/ledger_worker.cpp:255-315 | A finished task made between 1 and max_retries + 1 submissions and published exactly one outcome, the one it ended with |
| LedgerRuns.BalancedAtRest | src/ledger/ledger_worker.cpp:207-315 | With nothing under way pending is 0 and committed plus failed is the number of non-duplicate submissions made while running |
| LedgerRuns.TaskTerminates | src/ledger/ledger_worker.cpp:255-315 | In any interleaving, a task that was scheduled as often as its rank (at most 2 * max_retries + 7) has finished |
| LedgerRuns.DrainIsOneShot | src/ledger/ledger_worker.cpp:193-205 | Once the worker stops running, a task makes at most one more submission, whatever the others do |
| LedgerOutcomes.TaskEndsExactly | src/ledger/ledger_worker.cpp:255-315 | In every run a task submits again after a failed submission if and only if the worker is running when it looks and budget is left, and ends committed if and only if a submission was anchored |
| LedgerOutcomes.FailsAfterBudget | src/ledger/ledger_worker.cpp:278-315 | A task that fails although the worker was running at each of its decisions made exactly max_retries + 1 submissions, none anchored |
| LedgerOutcomes.AnchoredCommits | src/ledger/ledger_worker.cpp:255-276 | In every run an anchored submission is the last of its task, comes within the budget, and commits it |
| LedgerOutcomes.CallEndsExactly | src/ledger/ledger_worker.cpp:207-253 | In every run a call returns enqueued if and only if it found the worker running, a pool, its id free and the pool accepting; the first of these that fails names the other results |
| LedgerRuns.PendingSignExactly | src/ledger/ledger_worker.cpp:207-315 | The pending count is negative if and only if more calls owe their increment than tasks owe their decrement |
| LedgerRuns.PendingReaches | src/ledger/ledger_worker.cpp:233-252 | For every n some run reaches a pending count of -n |
| Ledger.CallStepKeepsInv | src/ledger/ledger_worker.cpp:207-253 | Every section of submit_record keeps all laws |
| Ledger.TaskStepKeepsInv | src/ledger/ledger_worker.cpp:255-315 | Every section of process_record keeps all laws |
| LedgerWorkers.OthersLeaveMe | src/ledger/ledger_worker.cpp:207-315 | Whatever steps other threads take, a thread's own position does not move |
| LedgerWorkers.LedgerWorker.SubmitRecord | src/ledger/ledger_worker.cpp:207-253 | Any execution, with interference before every section (the two reads of the first test are two), is a run of the state machine that ends with the call returned, with the result that what it found calls for |
| LedgerWorkers.LedgerWorker.ProcessRecord | src/ledger/ledger_worker.cpp:255-315 | The retry loop with its waits is a run of the state machine that ends with its task finished; it submits again after a no if and only if the worker is running and budget is left, and commits if and only if the client anchored a submission |
| LedgerWorkers.LedgerWorker.BackoffDelay | src/ledger/ledger_worker.cpp:255-315 | The wait before a retry is min(base * multiplier^(n-1), cap) |
| HandleTable.ComposeExtract | src/keystore/object_store.cpp:12-23 | Packing a slot and a version into a handle and taking them apart are inverse |
| HandleTable.RunKeepsInv | src/keystore/object_store.h:258-294 | Over every run: exact free list, versions count tenancies modulo 2^32, births distinct and complete, live slots hold their latest tenant |
| HandleTable.FreeListExact | src/keystore/object_store.cpp:140-165 | The free list visits each free slot once and no live slot |
| HandleTable.LiveCount | src/keystore/object_store.cpp:167-176 | Live objects number creates minus successful destroys |
| HandleTable.HandlesDistinctExactly | src/keystore/object_store.h:258-294 | No handle is issued twice if and only if no slot was used more than 2^32 times |
| HandleTable.HandlesNonZeroExactly | src/keystore/object_store.h:258-294 | Handle 0 is never issued if and only if slot 0 was used fewer than 2^32 times |
| HandleTable.ResolvesExactly | src/keystore/object_store.cpp:101-138 | An issued handle resolves if and only if its slot is live and was since reused a multiple of 2^32 times; with fewer reuses, to its own object |
| HandleTable.NewHandle | src/keystore/object_store.h:258-294 | A new object takes a free slot if there is one; otherwise the table grows by one slot, and the handle is the number of slots in the high half and 1 in the low half |
| HandleTable.ReusedHandle | src/keystore/object_store.cpp:140-165 | After a destroy the next object gets the same handle with its version counted up, in 32 bits |
| HandleTable.DestroyedStaysDead | src/keystore/object_store.cpp:140-165 | A destroyed handle never resolves again in any continuation with fewer than 2^32 reuses of its slot |
| HandleTable.VersionWrapRevivesHandle | src/keystore/object_store.h:258-294 | After 2^32 reuses a destroyed handle resolves to a different object |
| HandleTable.CreateKeepsFreeList | src/keystore/object_store.h:258-294 | Popping a slot or appending one leaves an exact free list |
| HandleTable.DestroyKeepsFreeList | src/keystore/object_store.cpp:140-165 | Pushing the destroyed slot leaves an exact free list |
| ObjectIndex.RunsAreSound | src/keystore/object_store.cpp:51-165 | Over every run, with or without reindexing, table and memory agree and the free list is exact |
| IndexRuns.UnchangedSlotsAreSynced | src/keystore/object_store.cpp:51-99 | After every run of creates, destroys, reindexings and unlocked writes, a slot whose keys were not changed since its last v_reindex has exactly its object's entries |
| IndexRuns.DisciplinedRunsAreSynced | src/pkcs11/p11_object.cpp:268-283 | If no object is destroyed between a change of its keys and the reindexing, wrong entries exist only for live slots waiting for it, and with none waiting the three indices are exact |
| IndexRuns.DropExactly | src/keystore/object_store.cpp:67-99 | Destroying an object leaves its slot without entries if and only if no entry was left over from former keys |
| IndexRuns.WriteDestroyReindex | src/pkcs11/p11_object.cpp:268-283 | Write, destroy by another thread, v_reindex: the slot is left clean if and only if no key that was indexed was changed |
| IndexRuns.DestroyBetweenLeavesEntry | src/pkcs11/p11_object.cpp:268-283 | A run in which every write is followed by v_reindex ends with an entry for a free slot |
| IndexRuns.SetAttributesExactly | src/pkcs11/p11_object.cpp:262-286 | After C_SetAttributeValue the slot's entries are exact if and only if no change was refused or both keys are as before |
| IndexRuns.FitsExactly | src/keystore/attribute_store.cpp:126-182 | A change is refused if and only if it has no value, is of CKA_CLASS, CKA_TOKEN or CKA_PRIVATE, or is of CKA_SENSITIVE or CKA_EXTRACTABLE against the rules |
| IndexRuns.LastChangeWins | src/keystore/attribute_store.cpp:126-182 | The last accepted change of an attribute decides its value; for CKA_ID that is the object's own id |
| IndexRuns.KeepsUnchanged | src/keystore/attribute_store.cpp:126-182 | Attributes without an accepted change keep their value, and so do the id and the type |
| IndexRuns.RelabelledIsFound | src/pkcs11/p11_object.cpp:262-286 | After C_SetAttributeValue without a refusal, a search for the label given last reports the object once |
| IndexRuns.RefusedEntryLeavesStale | src/pkcs11/p11_object.cpp:262-286 | A new label next to a refused entry leaves the old label in the index |
| IndexRuns.SettingIdChangesNoMatch | src/keystore/attribute_store.cpp:126-182 | Setting CKA_ID changes the match of no template |
| ObjectIndex.ReindexSyncs | src/keystore/object_store.cpp:432-455 | Reindexing a slot makes its entries exact whatever they were, and leaves other slots alone |
| ObjectIndex.FindSound | src/keystore/object_store.cpp:294-316 | Under arbitrary changes after the snapshot and arbitrarily stale indices, a returned handle is live at its revalidation and bound to the object that matched the whole template |
| SearchRuns.TenancyLasts | src/keystore/object_store.cpp:385-416 | In every run, a slot that holds the copied object holds it under the version it had at the snapshot |
| SearchRuns.FoundWasThere | src/keystore/object_store.cpp:319-417 | With memories and tables taken from any runs after the snapshot, a returned handle already designated the matching object when the snapshot was taken |
| SearchRuns.IntactIsFound | src/keystore/object_store.cpp:319-417 | An object whose entries are right and which at the snapshot matches, with no empty key and its own type named, is found, whatever else happens, unless it is itself destroyed or written to |
| ObjectIndex.FirstOfAll | src/keystore/object_store.cpp:189-317 | The single-result search returns the first result of the full search |
| ObjectIndex.FindReports | src/keystore/object_store.cpp:319-417 | With exact entries and for every template, a live slot is reported once if it matches, no key named is empty and the class named is its type, and never otherwise |
| ObjectIndex.FindIsScan | src/keystore/object_store.cpp:319-417 | If that holds of all matches, the search returns, without duplicates, exactly the handles of a linear scan |
| ObjectIndex.FindIsScanExactly | src/keystore/object_store.cpp:319-417 | With exact indices and for every template, the search agrees with a linear scan if and only if for every match the keys named are not empty and the class named is the object's type |
| ObjectIndex.ClassOfNumber | src/keystore/object_store.cpp:341-345 | The class looked up for the eight little-endian octets of n is n modulo 2^32 |
| ObjectIndex.EntriesExactly | src/keystore/object_store.cpp:51-65 | The exact entries of a slot, read off the object: its label, its CKA_ID or else its own id, its type; nothing under an empty key |
| ObjectIndex.ClassSearchFinds | src/keystore/object_store.cpp:338-417 | An object of type n < 2^32 that stores CKA_CLASS as the eight little-endian octets of n is reported, once, by every template with these octets whose other attributes it has, none of them an empty label or id |
| IndexRuns.OtherClassIsMissed | src/pkcs11/p11_internal.cpp:293-309 | An object created with class 5 is typed 7, matches a scan for its stored class after reindexing, and is not found |
| IndexRuns.EmptyLabelIsMissed | src/keystore/object_store.cpp:51-65 | An object with an empty label matches a template with an empty label and is not found |
| ObjectIndex.EmptyKeyFindsNothing | src/keystore/object_store.cpp:51-65 | A template with an empty label or id has no candidates |
| ObjectIndex.LiveHandlesExactly | src/keystore/object_store.cpp:319-333 | For the empty template every live slot is reported once |
| ObjectIndex.LiveHandlesAreHandles | src/keystore/object_store.cpp:319-333 | And nothing else is |
| ObjectIndex.NeverMissedExactly | src/keystore/object_store.cpp:319-417 | No search misses an object if and only if its present attributes are in the indices |
| ObjectIndex.CreatedObjectIsMissed | src/pkcs11/p11_object.cpp:140-147 | An object whose label is set after creation matches a scan and is no candidate of a search |
| ObjectStores.EqualRange | src/keystore/object_store.cpp:319-417 | The slots filed under a key, as often as they are filed |
| ObjectStores.EraseSlot | src/keystore/object_store.cpp:432-455 | All entries of a slot are gone and no others |
| ObjectStores.Intersect | src/keystore/object_store.cpp:319-417 | Keeps exactly the candidates that occur in both ranges |
| ObjectStores.MatchTemplate | src/keystore/object_store.cpp:399-404 | The loop answers whether every attribute of the template is stored with the same value |
| ObjectStores.ObjectStore.Create | src/keystore/object_store.h:258-294 | The new state, the invariant, that the handle resolves to the new object, and the number the handle is |
| ObjectStores.ObjectStore.Get | src/keystore/object_store.cpp:101-120 | The object of a current handle, and nothing for any other |
| ObjectStores.ObjectStore.Destroy | src/keystore/object_store.cpp:140-165 | Succeeds exactly for a current handle; the handle no longer resolves and the invariant holds |
| ObjectStores.ObjectStore.Count | src/keystore/object_store.cpp:167-176 | The number of live slots |
| ObjectStores.ObjectStore.IndexInsert | src/keystore/object_store.cpp:51-65 | Adds one entry per index under the object's keys, none for an empty label or id |
| ObjectStores.ObjectStore.IndexRemove | src/keystore/object_store.cpp:67-99 | Removes one entry per index under the object's present keys |
| ObjectStores.ObjectStore.Refresh | src/keystore/object_store.cpp:432-455 | Replaces all entries of the slot, for a current handle only |
| ObjectStores.ObjectStore.Candidates | src/keystore/object_store.cpp:319-417 | Each slot occurs as often as the narrowed index ranges yield it; the class is read from the template's octets by the loop of `LittleEndian` |
| ObjectStores.ObjectStore.AllHandles | src/keystore/object_store.cpp:419-430 | The handles of the live slots in slot order |
| ObjectStores.ObjectStore.Recheck | src/keystore/object_store.cpp:399-414 | With other threads running before the match and before the second look, reports the handle exactly if both pass |
| ObjectStores.ObjectStore.Revalidate | src/keystore/object_store.cpp:396-416 | Reports exactly the snapshot entries that pass, each looked at in some later state of the store |
| ObjectStores.ObjectStore.FindAllByAttributes | src/keystore/object_store.cpp:319-417 | With interference after the snapshot: every handle returned designated the matching object at the snapshot; undisturbed and with exact indices, the result of a linear scan if and only if all matches are findable; for the empty template, all live handles |
| ObjectStores.ObjectStore.SetAttributeValue | src/pkcs11/p11_object.cpp:262-286 | Undisturbed: the accepted changes are written, and the slot is reindexed exactly if none was refused |
| Words.SwappedXor | src/keystore/key_wrap.cpp:54-130 | XOR with the byte-swapped counter on the integer is XOR with its octets in reverse order |
| Words.SwapReverses | src/keystore/key_wrap.cpp:54-130 | The byte swap by shifts and masks reverses the octets of the word |
| Words.BigEndianValue | src/keystore/key_wrap.cpp:109-110 | The eight octets of the counter are its base-256 digits, most significant first |
| WrapRounds.PositionInRound | src/keystore/key_wrap.cpp:54-130 | The step t = n*j + i addresses register i, so t runs through 1..6n once |
| WrapRounds.StepInverse | src/keystore/key_wrap.cpp:132-215 | One unwrapping step undoes one wrapping step, and the other way round |
| WrapRounds.ShiftIsRotation | src/keystore/key_wrap.cpp:54-130 | After any number of steps the shift registers are the indexed registers, rotated |
| WrapRounds.WrapLoops | src/keystore/key_wrap.cpp:54-130 | The nested loops in place compute the 6n wrapping steps |
| WrapRounds.UnwrapLoops | src/keystore/key_wrap.cpp:132-215 | The descending nested loops in place compute the 6n unwrapping steps |
| KeyWraps.UnwrapWrap | src/keystore/key_wrap.cpp:54-215 | For any block permutation unwrap(wrap(p)) = p for every legal key |
| KeyWraps.WrapUnwrap | src/keystore/key_wrap.cpp:132-215 | An accepted ciphertext is the wrapping of the returned key |
| KeyWraps.AcceptsExactlyWrapped | src/keystore/key_wrap.cpp:132-215 | unwrap accepts c with p if and only if wrap(p) = c |
| KeyWraps.WrapIsShiftRegister | src/keystore/key_wrap.cpp:54-130 | The result equals the shift-register description in section 2.2.1 of RFC 3394 |
| Rfc3394.WrapIsRfc | src/keystore/key_wrap.cpp:54-130 | Succeeds if and only if the key has a multiple of 8 and at least 16 octets; the result is then that of the index-based description in section 2.2.1 of RFC 3394, written out on octets with A6 as initial value and six rounds |
| KeyWraps.RewrapIsDirectWrap | src/keystore/key_rotation.cpp:5-10 | Rewrapping along any list of keys is the direct wrap under the last one |
| KeyWraps.MixAgrees | src/keystore/key_wrap.cpp:54-130 | The counter arithmetic of the code on the integer is XOR with the counter's octets, most significant first |
| KeyWraps.CodeFollowsRfc | src/keystore/key_wrap.cpp:54-215 | The rounds with the code's arithmetic equal the rounds of RFC 3394, both ways |
| KeyWraps.WrapKey | src/keystore/key_wrap.cpp:54-130 | The loops return wrap of the key, or the size error, which comes exactly for fewer than 16 octets or no multiple of 8 |
| KeyWraps.UnwrapKey | src/keystore/key_wrap.cpp:132-215 | The loops return unwrap of the ciphertext, with both errors |
| HashChain.FirstBad | src/audit/audit_log.cpp:129-172 | On any lines: nothing if all are good, otherwise the first bad one |
| HashChain.PrefixIntact | src/audit/audit_log.cpp:129-172 | Every prefix of an accepted log is accepted |
| HashChain.TailDeterminesLines | src/audit/audit_log.cpp:129-172 | If a hash fixes its line among the lines of two intact chains with the same last hash, the chains are equal |
| HashChain.ExtendIntact | src/audit/audit_log.cpp:129-172 | One more line is accepted exactly if it checks against the last hash |
| HashChain.FirstBadStays | src/audit/audit_log.cpp:129-172 | A bad line stays the first bad one, whatever follows |
| AuditLog.TailDeterminesLog | src/audit/audit_log.cpp:129-172 | If no two records of the two logs collide and none has the zero MAC, two accepted logs with the same tail HMAC are identical |
| AuditLog.OkShape | src/audit/audit_log.cpp:145-168 | An accepted line is record, bar and the record's HMAC, and its link is the predecessor's hash |
| AuditLog.AppendedLineOk | src/audit/audit_log.cpp:88-98 | A line as append writes it, without bars in its fields, is accepted after the hash it was chained to and hands on its HMAC |
| AuditLog.AppendedLineExactly | src/audit/audit_log.cpp:83-98 | For every record and every hash, the line is accepted after that hash if and only if no field has a bar and it is the hash the line was chained to |
| AuditLog.OkBars | src/audit/audit_log.cpp:145-155 | An accepted line has exactly five bars |
| AuditLog.SpoiledRecord | src/audit/audit_log.cpp:83-98 | What is read of a record with a newline or NUL in a field, and no bar, is never accepted |
| AuditLog.LinesCons | src/audit/audit_log.cpp:137-143 | A line that fits the buffer is read whole, the rest as if it stood alone |
| AuditLog.LinesTidy | src/audit/audit_log.cpp:66-71 | Whatever the file, no line that is read contains a newline or NUL |
| AuditLog.RecoverLine | src/audit/audit_log.cpp:62-81 | Recovery reads back sequence number and hash of an appended line |
| AuditLog.CutLineFails | src/audit/audit_log.cpp:145-168 | No proper prefix of an accepted line is accepted, after any hash |
| AuditLines.LinesAppend | src/audit/audit_log.cpp:137-143 | What stands behind a newline is read as if it stood alone, on any file |
| AuditLines.WholeLineExactly | src/audit/audit_log.cpp:137-168 | Of a whole line of any length, one accepted line is read if the record is plain and shorter than the buffer; otherwise a bad line is read, the second if the line fills the buffer, else the first |
| AuditLines.TailRecoveredExactly | src/audit/audit_log.cpp:62-81 | Of a last line of any length, the hash is recovered if and only if it is not split between two pieces |
| AuditLog.MergedLineFails | src/audit/audit_log.cpp:145-168 | A line written behind the remains of another is not accepted, unless the two texts collide |
| AuditRuns.GoodFile | src/audit/audit_log.cpp:129-172 | A file of good records is read back line for line, is accepted, and ends with the hash after the records |
| AuditRuns.RestartTail | src/audit/audit_log.cpp:62-81 | On a file of whole lines a restart recovers the tail hash if it is not split, and the number if the last line fits the buffer |
| AuditRuns.AdvanceFollows | src/audit/audit_log.cpp:62-122 | Every step from every phase (settled, unsynced, torn, spoiled), under the conditions on it, leaves file and object as the trail says |
| AuditRuns.FollowsVerdict | src/audit/audit_log.cpp:129-172 | While they are so, verification returns what the phase says, to the line number |
| AuditRuns.DamageIsPermanent | src/audit/audit_log.cpp:129-172 | On any file, once a terminated line is bad, every later verification names it, whatever is appended, fails or restarts |
| AuditVerdicts.LogLaws | src/audit/audit_log.cpp:88-98 | The real line format meets the laws the run theorems need, for every MAC |
| AuditVerdicts.AppendWrites | src/audit/audit_log.cpp:83-122 | Every append takes the next number modulo 2^64; the file gets SEQ|TIME|ID|TYPE|PREVIOUS|HMAC and a newline, or the part that was written; the hash moves on if and only if the whole line was written and synced |
| AuditVerdicts.HashMoves | src/audit/audit_log.cpp:88-98 | Unless two records of the file collide or one has the zero MAC, the last hash differs from the one before |
| AuditVerdicts.RunsVerdict | src/audit/audit_log.cpp:62-172 | After any run of complete, partial and unsynced appends and restarts, verification returns exactly what the phases say: nothing, the unterminated rest if it does not check, or the first terminated bad line |
| AuditVerdicts.RunsVerify | src/audit/audit_log.cpp:62-122 | For every MAC, after any run of complete appends, appends that cannot open the file and restarts: the file verifies if and only if every record appended was plain and short enough; then its lines are the records' and the object stands at their end |
| AuditVerdicts.AppendKeepsExactly | src/audit/audit_log.cpp:83-122 | After any run that left whole lines, a complete append leaves an intact file if and only if the fields have no bar, newline or NUL and the line is shorter than 2048 |
| AuditVerdicts.FailedAppendVerdict | src/audit/audit_log.cpp:100-108 | After a failed append the file verifies if and only if nothing, or all but the newline at least, was written |
| AuditVerdicts.NextAppendVerdict | src/audit/audit_log.cpp:83-122 | Unless the records involved collide, the same object's next whole line leaves an intact file if and only if the failed append wrote nothing |
| AuditVerdicts.RestartedAppendVerdict | src/audit/audit_log.cpp:62-122 | After a restart, if and only if the failed append wrote nothing or its whole line |
| AuditVerdicts.RestartTailExactly | src/audit/audit_log.cpp:62-81 | A restart recovers the hash of a one-line last record if and only if it is not split between two pieces |
| AuditVerdicts.WrongTailSpoils | src/audit/audit_log.cpp:129-172 | A line chained to anything but the last hash is the verdict from then on |
| AuditVerdicts.NumbersIncrease | src/audit/audit_log.cpp:83-98 | In every run whose restarts find the last record whole, the numbers of the records strictly increase |
| AuditExamples.TroubleSpoils | src/audit/audit_log.cpp:83-122 | A bar, a newline and a line of 2048 characters or more each spoil a new file; one of 2047 does not |
| AuditExamples.PartlyWritten | src/audit/audit_log.cpp:100-108 | An append that stops after five characters leaves a file that does not verify |
| AuditExamples.NumberIsLost | src/audit/audit_log.cpp:62-81 | After a line of 1158 characters and a restart the file verifies and the next number is 1 again |
| AuditExamples.HashIsLost | src/audit/audit_log.cpp:62-81 | After a line of 1025 characters and a restart the next line is bad |
| AuditExamples.ClashlessExample | src/audit/audit_log.cpp:83-122 | A MAC that meets what the run theorem asks, wherever a first append stops |
| AuditLogs.Fgets | src/audit/audit_log.cpp:67-67 | Takes exactly the characters fgets takes |
| AuditLogs.Split | src/audit/audit_log.cpp:145-155 | Six fields exactly if there are five bars; rejoined they are the line |
| AuditLogs.CheckLine | src/audit/audit_log.cpp:145-168 | Decides shape, link and MAC of a line and returns its hash |
| AuditLogs.HashChainedAuditLog.constructor | src/audit/audit_log.cpp:51-56 | A new object stands at the end of its file; on an empty one at number 0 and 64 zeros |
| AuditLogs.HashChainedAuditLog.TakeTail | src/audit/audit_log.cpp:72-80 | A line with a bar gives the number before its first bar and the hash behind its last |
| AuditLogs.HashChainedAuditLog.RecoverTail | src/audit/audit_log.cpp:62-81 | The reading loop ends with the last number and hash |
| AuditLogs.HashChainedAuditLog.Append | src/audit/audit_log.cpp:83-122 | The whole new state for every outcome of the file system; success exactly for a complete, synced write, which adds the line written out in full |
| AuditLogs.HashChainedAuditLog.VerifyChain | src/audit/audit_log.cpp:129-172 | The loop returns nothing for an intact file, else the number of the first bad line |
| Merkle.HashPairCommutes | chain_adapter/merkle/merkle.go:51-56 | The order of a pair does not matter |
| Merkle.HashPairIs | chain_adapter/merkle/merkle.go:51-56 | What is hashed is the one with the smaller octet at the first difference, then the other; any two hashes are equal or differ so |
| Merkle.HashPairDetermines | chain_adapter/merkle/merkle.go:51-56 | Equal hashes of pairs that do not collide come from the same unordered pair |
| Merkle.ProofVerifies | chain_adapter/merkle/merkle.go:105-149 | For every leaf of every tree the proof leads to the root |
| Merkle.AcceptedIsLeaf | chain_adapter/merkle/merkle.go:143-149 | Unless a pair hashed in the climb collides with one in the tree, a path as long as the tree is high that leads to the root starts at a leaf and is that leaf's proof |
| Merkle.OwnPairs | chain_adapter/merkle/merkle.go:105-149 | The tree's own proofs hash no pair that building the tree did not |
| Merkle.VerifyExactly | chain_adapter/merkle/merkle.go:143-149 | The accepted full-length proofs are exactly the tree's own, under the same condition |
| Merkle.ShortProofsExactly | chain_adapter/merkle/merkle.go:143-149 | A shorter path is accepted if and only if it proves a node that many levels up |
| Merkle.LongProofsExactly | chain_adapter/merkle/merkle.go:143-149 | A longer path is accepted if and only if its first steps lead to a leaf and the others are that leaf's proof |
| Merkle.PreimageAccepted | chain_adapter/merkle/merkle.go:143-149 | A path one longer than the tree proves something that is hashed into a leaf; it is a leaf only if it equals one of two given hashes |
| Merkle.NonLeafAccepted | chain_adapter/merkle/merkle.go:143-149 | For every hash function there is a tree that accepts something that is no leaf of it |
| Merkle.InnerNodeAccepted | chain_adapter/merkle/merkle.go:143-149 | Something that is no leaf is accepted |
| Merkle.HeightIsLog | chain_adapter/merkle/merkle.go:62-94 | The path length is the logarithm of the number of leaves, rounded up |
| Merkle.SiblingSwap | chain_adapter/merkle/merkle.go:51-94 | Exchanging two sibling leaves leaves the root unchanged |
| Merkle.LevelCount | chain_adapter/merkle/merkle.go:62-100 | There are height + 1 levels and the last is the root alone |
| Merkle.PairUp | chain_adapter/merkle/merkle.go:62-94 | One pass computes the next level: each node hashes the two below it, the smaller first, the odd one with itself |
| Merkle.Build | chain_adapter/merkle/merkle.go:62-94 | Fails exactly for no leaves; otherwise the leaves, levels in which each node hashes the two below it, the smaller first, and at the end one node |
| Merkle.RootOf | chain_adapter/merkle/merkle.go:97-100 | The one node of the last level, which is the root of the leaves |
| Merkle.ProofFor | chain_adapter/merkle/merkle.go:105-136 | Fails exactly out of range, otherwise the proof of the leaf, which verifies |
| Merkle.Verify | chain_adapter/merkle/merkle.go:143-149 | True exactly if the path leads from the leaf to the root |
| LittleEndian.GetPut | src/persistence/le_bytes.h:15-41 | Reading what was written gives the number, if it fits |
| LittleEndian.PutGet | src/persistence/le_bytes.h:15-41 | Every byte string encodes the number it reads as |
| LittleEndian.PutAt | src/persistence/le_bytes.h:29-33 | The octet at position i has the weight 256^i |
| LittleEndian.PutLoop | src/persistence/le_bytes.h:29-33 | The shifts append the bytes of the number, lowest first |
| LittleEndian.GetLoop | src/persistence/le_bytes.h:35-41 | The descending loop reads the number and loses no bit in the word |
| FieldLists.DecodeEncode | src/persistence/token_serializer.cpp:62-98 | A run of numbers that fit is read back, whatever follows |
| FieldLists.EncodeDecode | src/persistence/token_serializer.cpp:131-159 | Numbers read from any bytes fit and write back to the same bytes |
| VaultImage.ParseBuild | src/persistence/vault.cpp:58-90 | Parsing a built image gives it back; only opening refuses zero iterations |
| VaultImage.BuildParse | src/persistence/vault.cpp:294-319 | An accepted file is exactly the image of what was read from it |
| VaultImage.LengthIsHonest | src/persistence/vault.cpp:84-88 | The 64-bit length sum cannot wrap around to the size of a real file |
| VaultImage.LoadSaved | src/persistence/vault.cpp:130-171 | What was saved is what is loaded, and a fresh object opens it |
| VaultImage.SavedLayout | src/persistence/vault_format.h:13-43 | The saved file octet by octet: VHSMVAUL, version 1, salt, 600000 iterations, nonce, tag, length and ciphertext at their offsets |
| VaultImage.LoadedWasSealed | src/persistence/vault.cpp:294-324 | With an authentic cipher a file that loads is the image of the loaded payload |
| VaultImage.BuildLoop | src/persistence/vault.cpp:161-171 | The appends build the image |
| VaultSave.RunKeepsInv | src/persistence/vault.cpp:236-287 | Every step of every interleaving keeps: temporary files hold what was written, names differ, every entry of the target is the first or a synced image |
| VaultSave.NeverPartial | src/persistence/vault.cpp:147-171 | At every point, with any failure, kill or power loss, the target is as at the start or one complete synced image |
| VaultSave.LastRenameWins | src/persistence/vault.cpp:273-278 | Without power loss the target is exactly the image of the last successful rename |
| VaultSave.LeavesNothing | src/persistence/vault.cpp:236-287 | In every run without power loss, a temporary file that was not there at the start belongs to a save that is under way or was killed |
| VaultSave.SyncedSurvives | src/persistence/vault.cpp:280-287 | After a directory sync a power loss does not undo the rename |
| VaultSave.SharedNameBreaks | src/persistence/vault.cpp:150-159 | With one temporary name two saves can publish a file that is no image |
| VaultSave.WholeExactly | src/persistence/vault.cpp:150-159 | Two saves leave a whole file in every run if and only if their names differ |
| Vaults.ParseFile | src/persistence/vault.cpp:58-90 | The checks in their order give the parse, with the same errors |
| Vaults.EveryRunLoads | src/persistence/vault.cpp:130-324 | After any run of concurrent saves the target is untouched or loads exactly one of the payloads |
| Vaults.WriteLoop | src/persistence/vault.cpp:245-257 | Gets through exactly if the counts add up before an error, with the bytes written so far in the file |
| Vaults.WriteTemp | src/persistence/vault.cpp:236-271 | Open, write, sync and close; the target is untouched |
| Vaults.Vault.Open | src/persistence/vault.cpp:58-105 | Becomes valid exactly if the file parses and authenticates |
| Vaults.Vault.LoadPayload | src/persistence/vault.cpp:294-324 | Succeeds exactly on a valid object with an authentic file, with its payload |
| Vaults.Vault.Replace | src/persistence/vault.cpp:236-287 | The file is the new image or as before, and the calls are a run of the protocol |
| Vaults.Vault.Save | src/persistence/vault.cpp:130-292 | Succeeds exactly if every call does; then the file is laid out as specified and the payload loads; otherwise file and validity are as before |
| TokenSnapshots.RoundTrip | src/persistence/token_serializer.cpp:53-166 | deserialize(serialize(s) followed by any bytes) = s, reading exactly the bytes of s |
| TokenSnapshots.PackedFlags | src/persistence/token_serializer.cpp:76-91 | The weights of the seven flags in their octet |
| TokenSnapshots.SnapshotLayout | src/persistence/token_serializer.cpp:53-101 | The serialization octet by octet: magic, version, the two strings with their lengths, the nine numbers at their widths, the key; refused if and only if a string has more than 255 octets |
| TokenSnapshots.Canonical | src/persistence/token_serializer.cpp:103-166 | serialize of an accepted input is the bytes it was read from with the top flag bit cleared |
| TokenSnapshots.CanonicalExactly | src/persistence/token_serializer.cpp:103-166 | It is the same bytes if and only if that bit was clear |
| TokenSnapshots.TopBitIsForgotten | src/persistence/token_serializer.cpp:142-149 | Every snapshot is also read from bytes that differ from its own in that bit |
| TokenSnapshots.PackUnpack | src/persistence/token_serializer.cpp:142-149 | Unpacking the flags forgets the top bit and nothing else |
| TokenSnapshots.UnpackPack | src/persistence/token_serializer.cpp:76-91 | Packed flags are read back |
| TokenSnapshots.SerializeToken | src/persistence/token_serializer.cpp:53-101 | The appends give the serialization, with both length errors |
| TokenSnapshots.ReadStringAt | src/persistence/token_serializer.cpp:116-125 | The string at the cursor, or an error when it does not fit |
| TokenSnapshots.DeserializeToken | src/persistence/token_serializer.cpp:103-166 | Within bounds on every input; fails exactly when the specified reading fails, otherwise the same snapshot |
| Throttle.AtMostMaxPerStart | firmware/main/hsm.cpp:219-230 | From any start window that is not over-full nor in the future, calls admitted under one window start number at most max |
| Throttle.AtMostTwiceMax | firmware/main/hsm.cpp:219-293 | From any such start window, any interval of window seconds in any run holds at most 2 * max admitted calls |
| Throttle.TwiceMaxIsReached | firmware/main/hsm.cpp:219-230 | That bound is reached for every positive max and every window of two seconds or more |
| Throttle.FirstMaxAdmitted | firmware/main/hsm.cpp:219-230 | After one window without calls, exactly the first max calls of the next window are admitted |
| Throttle.RateWindow.RateLimited | firmware/main/hsm.cpp:219-230 | The new window and whether the call is refused |
| Lockouts.CooldownAfter | firmware/main/hsm.cpp:311-335 | After k lockouts the cooldown is min(base * 2^k, cap), whatever successes came between |
| Lockouts.KthLockoutLasts | firmware/main/hsm.cpp:311-329 | The k-th lockout lasts min(base * 2^k, cap) seconds |
| Lockouts.LockedUntilOver | firmware/main/hsm.cpp:907-935 | For that time no credentials are checked, nothing changes, and a request is told the time that is left |
| Lockouts.UnlockedWhenOver | firmware/main/hsm.cpp:304-309 | The first request after that time has its credentials checked |
| Lockouts.EnoughFailuresLock | firmware/main/hsm.cpp:311-329 | A success-free stretch of at most the failure window with 2 * FAIL_MAX - 1 failed checks contains a lockout |
| Lockouts.SuccessForgives | firmware/main/hsm.cpp:331-335 | In every run, if a request passed before a lockout, at least FAIL_MAX failed checks lie between the two |
| Lockouts.LockoutHasCause | firmware/main/hsm.cpp:311-329 | In every run a lockout comes of exactly FAIL_MAX failed checks less than one window apart, with no success and no lockout in between |
| Lockouts.ResetStartsWindow | firmware/main/hsm.cpp:311-335 | Less than one window after a success or a lockout, FAIL_MAX failed checks without a success contain a lockout |
| Lockouts.FewerNeedNotLock | firmware/main/hsm.cpp:311-329 | One failure fewer can go without a lockout, for every configuration |
| Lockouts.AuthGate.RecordFailure | firmware/main/hsm.cpp:311-329 | The whole new lockout state |
| Lockouts.AuthGate.RecordSuccess | firmware/main/hsm.cpp:331-335 | The whole new lockout state: no failures, a window that starts now, no lock; the cooldown stays |
| Lockouts.AuthGate.Authenticate | firmware/main/hsm.cpp:907-935 | Passes exactly good credentials outside a lock; a refused request learns the remaining time |
| Codecs.HexRoundTrip | src/core/utils.cpp:164-203 | hex_decode(hex_encode(x)) = x |
| Codecs.HexAt | src/core/utils.cpp:162-176 | Octet k becomes two characters of 0123456789abcdef, the high half first |
| Codecs.HexReads | src/core/utils.cpp:178-186 | A character is read as n if and only if it is digit n of the lower-case or the upper-case alphabet |
| Codecs.HexCanonicalExactly | src/core/utils.cpp:188-203 | hex_encode(hex_decode(s)) = s if and only if s is lower case |
| Codecs.UpperCaseIsLost | src/core/utils.cpp:188-203 | "AB" is decoded and does not re-encode to itself |
| Codecs.HexEncodeLoop | src/core/utils.cpp:164-176 | The loop fills the buffer with the encoding |
| Codecs.HexDecodeLoop | src/core/utils.cpp:188-203 | The loop decodes or rejects as specified |
| Codecs.Base64RoundTrip | src/core/utils.cpp:89-159 | base64_decode(base64_encode(x)) = x |
| Codecs.Base64At | src/core/utils.cpp:86-111 | Octets 3k to 3k + 2 become the four six-bit digits of the number they form, highest first, as positions in A-Z, a-z, 0-9, +, /; one padding character for each missing octet |
| Codecs.Base64CanonicalExactly | src/core/utils.cpp:126-159 | base64_encode(base64_decode(s)) = s if and only if the unused bits of the last group are zero |
| Codecs.UnusedBitsAreLost | src/core/utils.cpp:126-159 | "AB==" is decoded and does not re-encode to itself |
| Codecs.Base64EncodeLoop | src/core/utils.cpp:89-111 | The loop computes the encoding |
| Codecs.Base64DecodeLoop | src/core/utils.cpp:126-159 | The loop decodes or rejects as specified |
| Codecs.GoBase64Encode | rest_api/internal/fabric_manager.go:919-946 | The Go encoder equals the C++ encoder on every input |
| Decimals.StrtoullOfDec | src/audit/audit_log.cpp:76-78 | Parsing the decimal form of a 64-bit number gives the number |
| Decimals.DecAt | src/audit/audit_log.cpp:88-98 | The decimal form digit by digit, without leading zeros |
| Decimals.StrtoullReads | src/audit/audit_log.cpp:76-78 | A numeral is read through white space and a sign up to the first other character, saturating, negated modulo 2^64 after a minus sign |
| Machines.Separate | src/session/session.cpp:165-298 | A session's state and replies are those of a run without the other sessions |
| Sessions.ChunkedIsOneShot | src/pkcs11/p11_crypto.cpp:1021-1246 | After any past and amid other sessions, Init, updates in any chunks and Final give the primitive the mechanism, key and data of a one-shot call |
| Sessions.ChunkedReply | src/pkcs11/p11_crypto.cpp:1076-1171 | What Final gives the primitive, from any state, with searches in between |
| Sessions.EveryReply | src/pkcs11/p11_crypto.cpp:1021-1246 | In every run of a new session, the answer to every call, told by whether an operation or a search was begun and not ended since; a primitive runs if and only if a Final or a one-shot call succeeds |
| Sessions.NoSessionNoService | src/pkcs11/p11_crypto.cpp:1021-1246 | On a handle without a session no call succeeds, runs a primitive or returns a handle |
| Sessions.SearchRuns | src/session/session.cpp:269-298 | During a search the handles handed out are the results before the cursor, unless some were counted into a null array, whatever other calls happen |
| Sessions.BatchesConcatenate | src/pkcs11/p11_object.cpp:288-360 | For any batch sizes the handles handed out are the results at Init up to the number counted, if and only if none was counted into a null array; a short batch means all are counted |
| Sessions.CountedAndLost | src/pkcs11/p11_object.cpp:335-350 | Results counted into a null array are returned by no later call |
| SessionStates.SessionState.OpBegin | src/session/session.cpp:165-176 | Drops an unfinished operation; refuses only on the legacy path |
| SessionStates.SessionState.OpUpdate | src/session/session.cpp:196-201 | Appends the data and nothing else |
| SessionStates.SessionState.OpTakeBuffer | src/session/session.cpp:216-221 | Hands out the buffer and empties it |
| SessionStates.SessionState.OpEnd | src/session/session.cpp:183-194 | Ends the operation and leaves the search alone |
| SessionStates.SessionState.FindNextBatch | src/session/session.cpp:281-290 | The loop copies the next handles to the front of the buffer if there is one, leaves the rest of it, and moves the cursor |
| SessionStates.SessionState.EnterFinal | src/pkcs11/p11_crypto.cpp:1144-1171 | Take the buffer, put it back, run, end: the specified step |
| SessionStates.SessionState.Enter | src/pkcs11/p11_crypto.cpp:1021-1246 | Every entry point performs the specified step of the session machine |

## Left out

- LedgerWorkers.LedgerWorker.BackoffDelay: does not model 32-bit overflow of the delay, because signed overflow has no defined meaning in the source.
- HandleTable.RunKeepsInv: a create on a table of 2^32 - 1 live slots is a no-op in the model, where the source would append a slot whose index is the end marker.
- ObjectStores.ObjectStore.Create: a table of 2^32 - 1 live slots is excluded, for the same reason.
- LedgerWorkers.LedgerWorker.SubmitRecord: a pool that is cleared between the test and the enqueue (a null dereference in the source) answers like any other.
- AuditVerdicts.RunsVerdict: a record written whole with a bar in a field and also a newline, a NUL or a line of more than 2048 characters is excluded, as its first piece can be a line that checks; so are partial writes with a newline or NUL, lines joined to a rest that together reach 2048 characters, and restarts that split the last hash (`RestartTailExactly` covers those).
- AuditVerdicts.NumbersIncrease: a restart on a last line longer than the recovery buffer is excluded, because the number is then lost (`NumberIsLost`).
- ObjectStores.ObjectStore.SetAttributeValue: stated undisturbed; interference is covered by the run theorems of `IndexRuns`, in which its write and its reindexing are separate steps.
- TokenSnapshots.RoundTrip: a CK_BBOOL field is true or false; the source writes any non-zero value as 1.
- Vaults.Vault.Save: assumes the laws of AES-GCM and sizes below 2^64; the Windows branch is not modelled.
- Exceptions thrown by notification callbacks, by `publish_committed` and `publish_failed` and by `ledger_client_.submit_record` in the ledger worker.
- An object constructor that throws in `v_create_object`, which leaves a slot that is neither free nor filled.
- The order of equal keys in the multimaps: results are compared as multisets, searches hold for every order of the snapshot.
- Torn reads and writes of attributes: reading or writing an object's attributes is one atomic step per object.
- Template entries other than by type and value, and the comparison rules of `match_object`.
- The rules for protection flags and length queries of `attribute_store.cpp`: they would add single-call facts only.
- The 32-byte check of the KEK, page locking and wiping of memory.
- HMAC, SHA-256, Keccak, AES, GCM, PBKDF2, RSA and EC: parameters with laws.
- What digest, sign and verify compute, the key-state and policy gates before them, and what a size query does to the operation.
- `C_DigestKey`, the encrypt and decrypt entry points, and closing sessions.
- The publisher and the metrics called after a successful audit append; the timestamp is a parameter.
- The per-user signing limiter, whose entries are evicted first in, first out, and the per-connection limiter's allocation; both use the modelled window.
- Firmware clocks that wrap around: runs end before the 32-bit second counter does.
- The firmware audit log, Wi-Fi, SD card and HTTP transport.
- gRPC, REST handlers, Fabric, Ethereum and Solana clients, LDAP, JWT, MinIO, notification adapters, mobile and web code.
- Token PIN core, session manager, slot manager, thread pool internals, signature store, outbox poller, composition root, logger, KVM enclave manager.
- `LoginThrottle`, `MigrationRegistry`, `BoundedNotificationBus` and the role tables.
