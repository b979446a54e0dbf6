# Sia SiaFile persistence, crash recovery and host connection bookkeeping, in Dafny

This project models three parts of Sia and proves properties of each.

1. **SiaFile persistence.** This is the contract the SiaFile tests pin down:
   - update records (`createUpdate` / `readUpdate`);
   - writing an update's payload into the SiaFile's backing file, which zero-extends the file and leaves every byte outside the write untouched;
   - the three apply entry points (`ApplyUpdates`, `sf.applyUpdates`, `sf.createAndApplyTransaction`) and the one contract they share;
   - the metadata header with its sixteen fields and the field-by-field `AssertEqual`;
   - the public-key table and its codec;
   - the stub erasure coder, whose piece counts bound piece indices.
2. **Crash recovery on a faulty disk.** This is the `TestSiaFileFaultyDisk` state machine:
   - a disk dependency that fails after 100 writes until it is reset;
   - a write-ahead log of transactions;
   - rounds of `AddPiece` operations, each followed by a restart;
   - the restart's `LOAD` loop: it reopens the log, replays the unfinished transactions in log order, signals each one only after it was applied, restarts the attempt on a disk fault, treats any other error as fatal, loads the file once the log is drained, and resets the disk before every tenth try.

   The specification of a restart is the *clean replay*: every pending transaction's writes applied once, in order, to the file as it was when the restart began. The central results are these:
   - Any number of partially failed attempts followed by a successful one gives exactly the clean replay's bytes. This is re-apply idempotence.
   - A restart that loads the file has signalled every pending transaction, in log order.
3. **The host's connection bookkeeping** (`modules/host/network.go`):
   - the legacy RPC-ID framing decoder and its in-place shift of the ID buffer;
   - which call counter each connection or stream RPC ID bumps;
   - the working-status rules driven by the settings-call counter;
   - the connectability check;
   - the user-address-over-automatic-address precedence.

## Layout

- `errors.dfy` (`Errors`): the error classes (`DiskFault` is the one retryable error), `Option` and `Result`.
- `bytes.dfy` (`Bytes`): the binary field encodings and their round trips. These are little-endian `uint64`/`uint32`, two's-complement `int64`, and `uint64`-length-prefixed byte strings. The `uint64`, `int64` and byte-string decoders accept only canonical input: whatever they decode is the encoding of what they return.
- `updates.dfy` (`Updates`): update records.
- `apply.dfy` (`Apply`): what applying writes to a file means, as functions on byte sequences, and the idempotence results.
- `metadata.dfy`, `pub_key_table.dfy`, `erasure_code.dfy`: the metadata header, the key table and the stub coder.
- `storage.dfy` (`Storage`): the stateful collaborators:
  - the backing file, as a class over a growable `array`, with in-place `WriteAt`;
  - the faulty disk, as a class with a write counter, an enabled flag and a reset;
  - the write-ahead log, as a class with the logged transactions and the set signalled as applied.
- `engine.dfy` (`Engine`): the `SiaFile` class, the three apply entry points and the apply contract.
- `recovery.dfy` (`Recovery`): the restart (`LOAD`) loop and its specification.
- `acid.dfy` (`Acid`): the faulty-disk test as a whole: blank file, host keys, operation rounds and restarts.
- `network.dfy` (`Network`): the host's `Host` class with its counters, statuses and addresses.

## Model

| member | source | states |
|---|---|---|
| ErasureCode.NewRSCode | modules/renter/siafile/persist_test.go:25-35 | NumPieces is nData + nParity and MinPieces is nData; with non-negative parity MinPieces does not exceed NumPieces |
| ErasureCode.PieceIndicesBounded | modules/renter/siafile/persist_test.go:25-35 | a piece index is valid for NewRSCode(nData, nParity) exactly when it lies in [0, nData + nParity); every index below MinPieces is valid |
| ErasureCode.ChunkIndexByOffset | modules/renter/siafile/acid_test.go:71-72 | the chunk index and in-chunk offset recompose the offset, and the in-chunk offset is below the chunk size |
| ErasureCode.NumChunks | modules/renter/siafile/acid_test.go:71-72 | a file has at least one chunk, its chunks cover all its bytes, and a non-empty file has no chunk that starts past its end |
| ErasureCode.ChunkIndexInRange | modules/renter/siafile/acid_test.go:71-72 | an offset below the file size lies in one of the file's chunks |
| Metadata.AssertEqual | modules/renter/siafile/persist_test.go:39-89 | no error exactly when the two metadata are equal; any error names one of the sixteen fields |
| Metadata.AssertEqualIffAllFieldsEqual | modules/renter/siafile/persist_test.go:39-89 | AssertEqual accepts exactly when all sixteen compared fields agree |
| Metadata.AssertEqualNamesFirstMismatch | modules/renter/siafile/persist_test.go:39-89 | when field k is the first (in check order) on which the two differ, the error names exactly field k |
| Metadata.UnmarshalMetadata | modules/renter/siafile/persist_test.go:184-188 | a successful decode returns metadata whose fields fit their encodings, and the undecoded remainder |
| Metadata.UnmarshalMarshalMetadata | modules/renter/siafile/persist_test.go:179-192 | unmarshalling marshalled metadata, followed by anything, succeeds with the same metadata and the following bytes, and AssertEqual against the original reports no difference |
| Metadata.UnmarshalRejectsOtherVersion | modules/renter/siafile/persist_test.go:184-188 | bytes tagged with another version are refused with a version mismatch |
| PubKeyTable.UnmarshalMarshalKey | modules/renter/siafile/persist_test.go:232-238 | one key entry round-trips: same algorithm, same key bytes, and the bytes after it are left |
| PubKeyTable.UnmarshalMarshalEntries | modules/renter/siafile/persist_test.go:217-239 | reading back as many entries as were written gives the same entries, in order |
| PubKeyTable.UnmarshalMarshalPubKeyTable | modules/renter/siafile/persist_test.go:217-239 | unmarshalPubKeyTable(marshalPubKeyTable(t)) succeeds with the length of t and, at every position, the same algorithm and key bytes |
| PubKeyTable.UnmarshalEntriesTooFew | modules/renter/siafile/persist_test.go:223-226 | asking for more entries than were written is an error, not a short table |
| PubKeyTable.AppendKeys | modules/renter/siafile/persist_test.go:202-215 | appending keys one at a time keeps every existing entry at its index and puts the new keys after them in order |
| Updates.CreateUpdate | modules/renter/siafile/persist_test.go:133 | the update's instructions are exactly as long as the path, the 8-byte offset and the payload with their length prefixes |
| Updates.ReadUpdate | modules/renter/siafile/persist_test.go:135-138 | any failure is MalformedUpdate, and a success returns a path, offset and payload that can be encoded |
| Updates.ReadCreateUpdate | modules/renter/siafile/persist_test.go:129-148 | readUpdate(createUpdate(path, i, d)) succeeds with the same path, the same offset i and the same bytes d |
| Updates.ReadUpdateOnlyAcceptsCreated | modules/renter/siafile/persist_test.go:135-138 | every update readUpdate accepts is the one createUpdate makes from what was read |
| Apply.WriteAt | modules/renter/siafile/persist_test.go:250-283 | an empty payload leaves the file as it was; otherwise the file afterwards is as long as the old file or the end of the write, whichever is larger, and holds the payload in the written range, the old bytes elsewhere, and zeros in any gap |
| Apply.ApplyWritesAt | modules/renter/siafile/acid_test.go:111-119 | after a sequence of writes, each byte is that of the last write covering it, or the original byte if none does, and the length is the larger of the file's length and the furthest write's end |
| Apply.Torn | modules/renter/siafile/acid_test.go:112-115 | what a faulted write leaves starts at the write's offset and lies within its range; junk no longer than the write is exactly what lands |
| Apply.MaxEndInside | modules/renter/siafile/acid_test.go:111-119 | writes that each lie within some write of S reach no further than S does |
| Apply.ReplayAbsorbs | modules/renter/siafile/acid_test.go:111-119 | applying writes that each lie within some write of S, and then applying S, gives the same bytes as applying S alone |
| Apply.ApplyWritesConcat | modules/renter/siafile/acid_test.go:111-119 | applying two batches of writes in turn is applying their concatenation |
| Apply.ReplayPrefixThenAll | modules/renter/siafile/acid_test.go:92-123 | replaying a prefix of the writes and then all of them gives the same bytes as one clean replay |
| Apply.ResumeAfterPartial | modules/renter/siafile/acid_test.go:92-123 | after finished transactions A and a partial attempt at B whose writes each lie within one of B's, applying B gives the clean replay of A then B |
| Apply.FreshFileApply | modules/renter/siafile/persist_test.go:254-283 | one write at offset i with a non-empty payload d on an empty file leaves exactly i + len(d) bytes: d at [i, i + len(d)) and zeros before i; an empty payload leaves the file empty |
| Engine.ToWrite | modules/renter/siafile/persist_test.go:247-250 | resolving an update against the file fails only as a malformed update or a negative offset |
| Engine.ToWriteCreated | modules/renter/siafile/persist_test.go:245-250 | an update created for this file resolves to exactly the write at its offset with its payload, and a negative offset is refused |
| Engine.ToWriteOnlyCreated | modules/renter/siafile/persist_test.go:245-250 | every update that resolves is the one createUpdate makes for this file from the resolved offset and payload |
| Engine.ToWriteOtherPath | modules/renter/siafile/persist_test.go:245-250 | an update created for another path is refused |
| Engine.Resolve | modules/renter/siafile/persist_test.go:157-168 | every update of a batch is resolved, one result per update |
| Engine.ResolveAt | modules/renter/siafile/persist_test.go:157-168 | position i of a batch's resolutions is the resolution of update i |
| Engine.Collect | modules/renter/siafile/persist_test.go:157-168 | a successful collection has one write per resolution |
| Engine.CollectAt | modules/renter/siafile/persist_test.go:157-168 | collection succeeds exactly when every update resolved, and then lists their writes in order |
| Engine.CollectFirstError | modules/renter/siafile/acid_test.go:112-118 | when the first j updates resolve and update j does not, the batch's error is update j's |
| Engine.CollectMembers | modules/renter/siafile/acid_test.go:111-119 | every collected write comes from a successful resolution of the batch |
| Engine.CollectSnoc | modules/renter/siafile/acid_test.go:111-119 | extending a resolvable prefix by one resolved update extends its writes by that write |
| Engine.WritesOfCreated | modules/renter/siafile/persist_test.go:245-250 | a batch of updates created for this file with non-negative offsets stands for exactly the writes they were created from |
| Engine.WritesOfSingle | modules/renter/siafile/persist_test.go:245-250 | a batch of one resolvable update stands for its one write |
| Engine.ApplyContractSuccess | modules/renter/siafile/persist_test.go:157-168 | an entry point that reports success has applied the batch's whole write sequence to the file, in order |
| Engine.StoppedWritesInside | modules/renter/siafile/acid_test.go:112-115 | whatever an apply that stopped early wrote, completed writes and junk alike, lies within one of the batch's own writes |
| Engine.WriteThrough | modules/renter/siafile/acid_test.go:112 | the disk is asked first; the write fails exactly when the enabled disk has failed or reached its limit; a failed write lays the junk, cut to the write's length, over the start of its range, and otherwise the payload is written in place |
| Engine.StoppedByError | modules/renter/siafile/acid_test.go:112-119 | an apply loop that ran out of updates or stopped at an update's error, with no fault, meets the apply contract with no torn write |
| Engine.StoppedByFault | modules/renter/siafile/acid_test.go:112-119 | an apply loop that faulted while writing an update meets the apply contract, with the torn write lying within that update's own |
| Engine.ApplyUpdatesWithDeps | modules/renter/siafile/acid_test.go:112-119 | the shared apply loop meets the apply contract: the file holds the writes before the stop plus, on a disk fault, what the faulted write left inside its own range; it counts one disk write per write attempted; it never faults on a disabled disk, nor on a healthy disk whose limit leaves room for the whole batch |
| Engine.SiaFile.constructor | modules/renter/siafile/persist_test.go:91-106 | a new SiaFile with an empty backing file at its path, its metadata, key table, coder, dependency and log |
| Engine.SiaFile.CreateUpdate | modules/renter/siafile/persist_test.go:133 | the update resolves back to exactly the write at index with data, and readUpdate returns this file's path, index and data |
| Engine.SiaFile.ApplyUpdates | modules/renter/siafile/persist_test.go:163 | sf.applyUpdates meets the apply contract through the file's dependency and leaves the log alone |
| Engine.SiaFile.CreateAndApplyTransaction | modules/renter/siafile/persist_test.go:167 | the updates are logged as a new transaction, the apply contract holds, and the transaction is signalled exactly when the apply succeeded |
| Engine.ApplyVia | modules/renter/siafile/persist_test.go:157-168 | whichever of the three entry points applies the batch, the result meets the one apply contract; the free ApplyUpdates, which runs on a fresh production dependency, never reports a disk fault, nor does any entry point on a SiaFile whose dependency is disabled |
| Engine.OneUpdateOnEmptyFile | modules/renter/siafile/persist_test.go:254-283 | under the apply contract, one created update on an empty file without a disk fault succeeds; with a non-empty payload d the file is i + len(d) bytes with d at i and zeros before it, with an empty one it stays empty |
| Engine.NewScratchFile | modules/renter/siafile/persist_test.go:92-106 | a new SiaFile at the path with an empty file, on a disk whose faults are switched off |
| Engine.ApplyOnFreshFile | modules/renter/siafile/persist_test.go:243-283 | through any entry point, one update on a fresh file succeeds; a non-empty payload leaves exactly index + len(data) bytes, data at index and zeros before it, and an empty one leaves the file empty |
| Engine.TestApply | modules/renter/siafile/persist_test.go:243-283 | for the test's non-empty payload, testApply's three checks hold for every entry point: the size is index + len(data), the bytes read back at index are data, and the bytes before index are zero |
| Storage.FileBuffer.constructor | modules/renter/siafile/persist_test.go:100-101 | a new file at the path is empty |
| Storage.FileBuffer.ReadAt | modules/renter/siafile/persist_test.go:268-283 | ReadAt returns exactly the n bytes of the file starting at the offset |
| Storage.FileBuffer.Reserve | modules/renter/siafile/persist_test.go:250-265 | growing the buffer keeps the file's size and contents |
| Storage.FileBuffer.WriteAt | modules/renter/siafile/persist_test.go:250-283 | writing in place leaves the file equal to Apply.WriteAt of its old contents |
| Storage.FaultyDisk.constructor | modules/renter/siafile/acid_test.go:28 | a new dependency with the given write limit: enabled, healthy, no writes counted |
| Storage.FaultyDisk.Disable | modules/renter/siafile/acid_test.go:29 | disabling keeps the write count and the failed flag |
| Storage.FaultyDisk.Enable | modules/renter/siafile/acid_test.go:46 | enabling keeps the write count and the failed flag |
| Storage.FaultyDisk.Reset | modules/renter/siafile/acid_test.go:86-98 | a reset repairs the drive and starts the write count over, enabled or not as before |
| Storage.FaultyDisk.TryFail | modules/renter/siafile/acid_test.go:28 | an enabled disk counts the write and fails exactly when it has failed before or its limit is reached, and a failure sticks; a disabled one never fails and counts nothing |
| Storage.Unapplied | modules/renter/siafile/acid_test.go:104-111 | the transactions a reopened log returns are in log order, and none of them was signalled |
| Storage.UnappliedComplete | modules/renter/siafile/acid_test.go:104-111 | every transaction not signalled is returned |
| Storage.ElemsMember | modules/renter/siafile/acid_test.go:111-123 | the set of signalled indices is exactly the indices listed |
| Storage.SignalNext | modules/renter/siafile/acid_test.go:120-122 | signalling the next returned transaction extends the signalled set and order by it |
| Storage.UnappliedIgnoresBelow | modules/renter/siafile/acid_test.go:104-123 | signalling transactions before a position does not change what is unsignalled after it |
| Storage.UnappliedAfterSignal | modules/renter/siafile/acid_test.go:99-123 | after the first k returned transactions were signalled, reopening the log returns the rest, in the same order |
| Storage.WAL.constructor | modules/renter/siafile/persist_test.go:109-121 | a new log holds no transactions and none signalled |
| Storage.WAL.NewTransaction | modules/renter/siafile/persist_test.go:167 | the transaction is appended to the log and nothing is signalled |
| Storage.WAL.SignalUpdatesApplied | modules/renter/siafile/acid_test.go:120 | the transaction is added to the signalled set and order; the log is unchanged |
| Storage.WAL.Reopen | modules/renter/siafile/acid_test.go:99-106 | closing and reopening returns exactly the unsignalled transactions, in log order |
| Recovery.LoadSpec | modules/renter/siafile/acid_test.go:125 | a loaded file has a well-formed key table; a load error is never a disk fault |
| Recovery.LoadMarshalled | modules/renter/siafile/acid_test.go:124-133 | loading a file laid out as marshalled metadata, then the marshalled key table, then chunk data gives back that metadata and that table |
| Recovery.TableRoundTrip | modules/renter/siafile/persist_test.go:217-239 | the key table round-trips as a whole value |
| Recovery.LoadSpecOf | modules/renter/siafile/acid_test.go:124-133 | with the metadata decoded and the table between the two offsets decoded, the load succeeds with both |
| Recovery.LoadSiaFile | modules/renter/siafile/acid_test.go:125-133 | loading goes through the disk once; it faults exactly when the enabled disk has failed or reached its limit, and otherwise decodes the file's bytes |
| Recovery.Batches | modules/renter/siafile/acid_test.go:111-112 | the updates of the returned transactions, one batch per transaction, in the order returned |
| Recovery.AllWritesSnoc | modules/renter/siafile/acid_test.go:111-119 | the writes of k + 1 batches are those of the first k followed by batch k's |
| Recovery.AllWritesFirstError | modules/renter/siafile/acid_test.go:116-117 | a resolution error in batch k, with the earlier batches resolvable, is the clean replay's error |
| Recovery.AllWritesOne | modules/renter/siafile/acid_test.go:111-112 | the writes of a single transaction are those of its updates |
| Recovery.AllWritesAppend | modules/renter/siafile/acid_test.go:111-119 | the writes of one more transaction extend the earlier writes, or carry the first resolution error |
| Recovery.AllWritesConcat | modules/renter/siafile/acid_test.go:111-119 | the writes of two runs of transactions are those of the first followed by those of the second, or the second's resolution error |
| Recovery.CleanReplayConcat | modules/renter/siafile/acid_test.go:111-123 | cleanly replaying A then B is replaying B on the clean replay of A |
| Recovery.ResumeBatch | modules/renter/siafile/acid_test.go:111-123 | replaying a transaction over writes that each lie within one of its own gives the same result as replaying it alone |
| Recovery.ReplayedStart | modules/renter/siafile/acid_test.go:92-111 | before any replay, the file is the starting file with no batch done |
| Recovery.ReplayedPartial | modules/renter/siafile/acid_test.go:112-115 | an attempt that stops part-way through batch k leaves the progress at batch k, with what it wrote added to the partial writes |
| Recovery.ReplayedComplete | modules/renter/siafile/acid_test.go:111-123 | completing batch k absorbs whatever earlier attempts wrote of it, and the file equals the clean replay of batches 0..k |
| Recovery.ReplayedFatal | modules/renter/siafile/acid_test.go:116-117 | a non-fault error in batch k is the clean replay's error |
| Recovery.ReplayedDone | modules/renter/siafile/acid_test.go:124 | with every batch applied, the file is the clean replay |
| Recovery.ReplayTransaction | modules/renter/siafile/acid_test.go:111-123 | one transaction is applied through the disk and signalled only if every update applied; the recovery progress is kept; a non-fault error is the clean replay's error |
| Recovery.ApplyUnfinished | modules/renter/siafile/acid_test.go:99-123 | the log is reopened and its transactions replayed in order, stopping at the first error; on success every pending transaction was replayed and signalled in order; a non-fault error is the clean replay's error; with the disk's budget sufficient there is no fault |
| Recovery.Prepare | modules/renter/siafile/acid_test.go:93-98 | the disk is reset when asked, and the log's unsignalled transactions are the pending ones not yet replayed; a first attempt on a reset disk whose limit exceeds the replay's writes gets a write budget |
| Recovery.ReplayAndLoad | modules/renter/siafile/acid_test.go:99-133 | replay, then load: a load is the clean replay's bytes decoded with every pending transaction signalled in order; a non-fault error is the clean replay's or the load's error; within budget there is no disk fault |
| Recovery.LoadReplayed | modules/renter/siafile/acid_test.go:124-133 | once the log is drained, the file is the clean replay, and loading it gives the clean replay's decoded contents or its decoding error |
| Recovery.Attempt | modules/renter/siafile/acid_test.go:93-135 | one try of the LOAD loop keeps the recovery progress; a success or a fatal error is judged against the clean replay; a first, resetting try on a disk with room for the replay cannot fault |
| Recovery.Retry | modules/renter/siafile/acid_test.go:92-136 | the LOAD loop with the reset every tenth try: a load is the clean replay with everything signalled in order; a fatal error is the clean replay's or the load's; giving up means every try faulted; a disk with room for the replay succeeds first time |
| Recovery.Reload | modules/renter/siafile/acid_test.go:91-136 | a restart that loads the file leaves exactly the clean replay of the pending transactions and has signalled them all, in log order; a fatal error is the clean replay's or the load's error and never a disk fault; on a disk with room it neither gives up nor records a recovery |
| Acid.FillRandom | modules/renter/siafile/acid_test.go:39 | fastrand.Read fills exactly as many bytes as the buffer holds |
| Acid.HostKeysAsWritten | modules/renter/siafile/acid_test.go:36-41 | the loop as written yields fifty keys, each the zero key |
| Acid.HostKeysCollide | modules/renter/siafile/acid_test.go:36-41 | the host keys as written are not distinct: the first two are equal and have no key bytes |
| Acid.HostKeys | modules/renter/siafile/acid_test.go:36-41 | fifty keys, each with the zero algorithm and its own random key bytes |
| Acid.HostKeysDistinct | modules/renter/siafile/acid_test.go:36-41 | two host keys built as meant are the same key exactly when they were read from the same random bytes |
| Acid.Draw | modules/renter/siafile/acid_test.go:69-73 | the drawn host key, chunk and piece are in range: a key among the fifty, a chunk of the file, a piece below NumPieces |
| Acid.AddPieceTo | modules/renter/siafile/acid_test.go:74 | AddPiece, called only with a chunk of the file and a piece the coder produces, logs its updates as one transaction, signalled exactly when it applied, and meets the apply contract |
| Acid.ApplyOperations | modules/renter/siafile/acid_test.go:57-84 | the inner loop never ends with a disk fault as its error; the operations that ran are all of them or stop at the AddPiece that failed; each AddPiece that ran logged one transaction, signalled exactly when it succeeded; the file holds the clean replay of the succeeded ones, plus writes within the faulted transaction's own after a fault |
| Acid.RunAddPiece | modules/renter/siafile/acid_test.go:69-82 | one AddPiece logs one transaction and never reports a disk fault as its error; on success the transaction is signalled and the file is the clean replay extended by it; on a fault or another error it stays unsignalled, a fault leaves writes within the transaction's own, and another error is the transaction's resolution error |
| Acid.AppliedOne | modules/renter/siafile/acid_test.go:74-82 | the apply contract of one AddPiece, on top of a clean replay, extends that replay on success and leaves writes within its own on a fault |
| Acid.LoggedStep | modules/renter/siafile/acid_test.go:58-84 | one more operation logs one more transaction exactly when it is an AddPiece |
| Acid.Indices | modules/renter/siafile/acid_test.go:120 | the indices from lo below hi, and nothing else |
| Acid.SignalledAll | modules/renter/siafile/acid_test.go:110-123 | signalling every transaction a reopened log returns leaves none unsignalled |
| Acid.Restart | modules/renter/siafile/acid_test.go:91-136 | a restart that loads the file leaves exactly the clean replay of the pending transactions, which decodes to what was loaded, and has signalled them all in log order, so every logged transaction is signalled; a fatal error is never a disk fault and is the clean replay's error or the load's; giving up means every try faulted; a disk with room for the replay needs a single try |
| Acid.UnappliedIndices | modules/renter/siafile/acid_test.go:104-111 | a reopened log whose first m transactions are signalled returns transaction m if it exists, and nothing else |
| Acid.PendingAfterRound | modules/renter/siafile/acid_test.go:99-123 | after a round, a restart has at most the one transaction a disk fault interrupted to replay, and signalling it drains the log |
| Acid.ReplayAfterCleanRound | modules/renter/siafile/acid_test.go:91-136 | after a round without a fault, the file already is the clean replay of the whole log |
| Acid.ReplayAfterFault | modules/renter/siafile/acid_test.go:91-136 | after a round whose last transaction faulted, replaying that transaction over what the fault left gives the clean replay of the whole log |
| Acid.RestartAfterRound | modules/renter/siafile/acid_test.go:43-137 | a round on a consistent file followed by a restart that loaded leaves the file consistent again: every logged transaction signalled, the file the clean replay of the whole log |
| Acid.ReplayAfterRound | modules/renter/siafile/acid_test.go:112-128 | replaying the one transaction a fault interrupted, if any, on the file a round left gives the clean replay of the whole log |
| Acid.AddPieceOutcome | modules/renter/siafile/acid_test.go:69-82 | what one AddPiece's apply contract leaves: success signals the transaction and extends the clean replay; a fault or another error leaves it unsignalled and is described by the round's stop state |
| Acid.StoppedRound | modules/renter/siafile/acid_test.go:69-82 | a round stopped by its last transaction, after a fault or with that transaction's resolution error, is described by the round's stop state |
| Acid.EmptySiaFile | modules/renter/siafile/acid_test.go:32-33 | a SiaFile on the given dependency with an empty file and an empty log |
| Acid.PersistHeader | modules/renter/siafile/acid_test.go:31-33 | with faults switched off, the header is written as one transaction that succeeds and is signalled, and the file is the clean replay of the log |
| Acid.NewBlankFile | modules/renter/siafile/acid_test.go:31-33 | the blank file holds its header, on the given dependency, and is consistent: its one transaction is signalled and the file is the clean replay of the log |
| Acid.PlayRound | modules/renter/siafile/acid_test.go:57-137 | one round on a consistent file never fails with a disk fault, and a round that neither fails nor gives up leaves the file consistent again |
| Acid.TestSiaFileFaultyDisk | modules/renter/siafile/acid_test.go:16-140 | with the host keys built as written, the test never fails with a disk fault; when every round is done, every logged transaction is signalled and the file is the clean replay of the whole log |
| Network.NewSpecifier | modules/host/network.go:41 | a specifier is the name's bytes, zero-padded to 16 |
| Network.DecodeLegacyID | modules/host/network.go:298-318 | a decoded ID is 16 bytes |
| Network.LegacyFrame | modules/host/network.go:304-317 | a legacy frame is the 8-byte prefix and the 16-byte ID |
| Network.DecodeLoopEnter | modules/host/network.go:298-304 | a connection starting with RPCLoopEnter asks for RPCLoopEnter |
| Network.DecodeLegacyFrame | modules/host/network.go:304-317 | a length prefix of 16 followed by an ID is read as that ID, whatever follows |
| Network.LoopEnterIsNotAFrame | modules/host/network.go:304-310 | RPCLoopEnter's first 8 bytes are not the length prefix 16 |
| Network.DecodeLegacyOnlyFrames | modules/host/network.go:304-317 | any other ID that is read came from a connection beginning with the length prefix 16 and that ID |
| Network.Host.ReadLegacyID | modules/host/network.go:298-318 | reading into a 16-byte buffer and shifting it in place yields exactly the decoded ID, or nothing for a short read or a bad prefix |
| Network.Bump | modules/host/network.go:326-344 | bumping a counter raises it by one and leaves every other counter alone |
| Network.LegacyIDsDistinct | modules/host/network.go:320-342 | the specifiers a connection can name are pairwise distinct |
| Network.LegacyCountersDistinct | modules/host/network.go:325-336 | download, form-contract, revise and settings calls each have their own counter |
| Network.ConnLegacyRPC | modules/host/network.go:325-347 | a recognised legacy ID bumps exactly its own counter, plus the error counter exactly when its handler fails |
| Network.ConnUnknownRPC | modules/host/network.go:339-342 | an unknown ID bumps only the unrecognised counter |
| Network.ConnDeprecatedSettings | modules/host/network.go:337-338 | the deprecated settings ID changes no counter |
| Network.ConnErrorsIffHandlerFailed | modules/host/network.go:343-347 | the error counter goes up by one exactly when a handler was invoked and failed |
| Network.StreamUnknownRPC | modules/host/network.go:442-453 | on a stream, an unknown ID bumps the unrecognised and the error counter and nothing else |
| Network.Host.NetworkMetrics | modules/host/network.go:495-507 | the snapshot holds the current value of each of the seven counters |
| Network.Host.Add | modules/host/network.go:326-344 | one counter field goes up by one; statuses and addresses are untouched |
| Network.Host.HandleConn | modules/host/network.go:298-347 | the counters after a connection are those of its decoded ID and handler outcome |
| Network.Host.HandleStream | modules/host/network.go:405-453 | the counters after a stream are those of its ID and handler outcome, and a failed read counts as unrecognised |
| Network.QuickCheckWrapsOnDecrement | modules/host/network.go:86-93 | as written, a counter that went down from 1 to 0 makes the quick check report Working |
| Network.QuickCheck | modules/host/network.go:86-96 | the quick check only upgrades to Working, exactly when the counter rose by at least the threshold, and never sets NotWorking |
| Network.QuickChecksAgree | modules/host/network.go:86-93 | where the counter did not go down, the as-written and guarded quick checks agree |
| Network.TrackLastValid | modules/host/network.go:98-120 | the last period whose counter did not go down decides the status: Working exactly when it rose by at least the threshold, else NotWorking |
| Network.TrackNoValid | modules/host/network.go:105-111 | periods whose counter went down leave the status unchanged |
| Network.Host.TrackWorkingStatus | modules/host/network.go:72-121 | the status after the quick check and the periodic checks is the guarded quick check followed by each period's rule, in order; counters and connectability are untouched |
| Network.ActiveAddress | modules/host/network.go:142-145 | a non-empty user address takes precedence over the automatic one |
| Network.Host.NetAddress | modules/host/network.go:483-491 | NetAddress is the active address: the user's if set, else the automatic one |
| Network.Host.CheckConnectability | modules/host/network.go:137-161 | one check dials NetAddress: Connectable when the dial succeeds, NotConnectable when it fails |
| Network.Host.TrackConnectabilityStatus | modules/host/network.go:125-170 | after the periodic checks, the status is that of the last check; with none it is unchanged |
| Network.Host.InitNetworking | modules/host/network.go:174-262 | a failed listen returns an error and leaves the statuses; otherwise both statuses are Checking before any check runs; an address without a port and a failed SiaMux subscription are errors after that, and the call succeeds exactly when all three steps do |

## Left out

- The bodies of `createUpdate`, `readUpdate`, `applyUpdates`, `marshalMetadata`, `marshalPubKeyTable`, `loadSiaFile` and `AddPiece` are not part of this model. Their byte encodings are this model's own. Fixed-width integers are little endian, `int64` is two's complement, strings and byte slices are `uint64`-length-prefixed, and fixed arrays are raw. The properties the tests assert (round trips, field equality, the apply contract) are proved for these encodings.
- The update record's `Name` field is not modelled. An update is its instruction bytes. One that names another file is refused as `MalformedUpdate`, and one with a negative offset as `NegativeOffset`.
- Real file and OS I/O (`os.Open`, `Stat`, temporary directories) is not modelled. The backing file is a growable byte array.
- The write-ahead log's on-disk format is not modelled. It is a sequence of transactions, the set signalled as applied, and (as ghost state) the order of signalling.
- `Recovery.LoadSiaFile`: `loadSiaFile` is modelled as one disk operation, which may fault, followed by decoding the metadata at offset 0 and the key table between its two offsets. The chunk data is not decoded.
- `Acid.Restart`: the reloaded metadata and key table are not written back into the in-memory `SiaFile`. The model keeps the same object, whose backing file holds the replayed bytes.
- `Recovery.Retry`: acid_test.go:125 assigns loadSiaFile's result to `sf` even when the load fails, and the next try reads `sf.siaFilePath` from that result. loadSiaFile's body is not part of this model, so whether that result is nil (which would make the next try a nil dereference) is not known here. The model reads the path from the unchanged backing file. `Recovery.Reload`'s last ensures shows that a disk with room for the replay never takes this path.
- `Engine.WriteThrough`: the faulty disk's file implementation is not part of this model. A write the disk fails lays down input junk, cut to the write's length, over the start of its own range; an empty write, torn or not, leaves the file unchanged, as `os.File.WriteAt` does. Writes to the write-ahead log do not fault.
- `Metadata`: timestamps are `int` Unix nanoseconds, and file mode, uid and gid are plain integers. Go's `time.Time` comparison with `!=` also compares the monotonic reading and the location, which this model does not carry, so two metadata that differ only there are equal here.
- `Recovery.Reload`: the `LOAD` loop has no bound in the source. The model takes a number of tries `maxTries` and reports `GaveUp` when all of them fault. It proves that a disk with room for the replay never needs a second try.
- `Acid.TestSiaFileFaultyDisk`: the wall-clock time limit (`testTimeout`, `time.After`) becomes a finite list of rounds.
- `Acid.TestSiaFileFaultyDisk`: every `fastrand` draw is an input. A `fastrand.Intn(n)` is a pick taken modulo n. The 5% break and the 80% add-piece chance become an operation list of `Skip` and `AddPiece` steps, and the 20% repair is a flag per round.
- `Acid.AddPieceTo`: AddPiece's own bookkeeping (piece records, key-table growth, chunk encoding) is not modelled. The updates it persists are an input, applied as one transaction. The chunk size is a parameter, because `SectorSize` and `TwofishOverhead` are defined outside these files.
- `Acid.NewBlankFile`: the header that `newBlankTestFileAndWAL` writes is an input.
- Erasure-coding maths (`Encode`, `EncodeShards`, `Recover`) is not modelled. The stub returns nothing and only the piece counts are used.
- `Network`: goroutines, the thread group, sleeps and timeouts, listeners, dialers, SiaMux streams, deadlines and logging are not modelled. What they deliver is a parameter:
  - the bytes a connection sends;
  - the ID a stream read yields;
  - whether an RPC handler fails;
  - the counter readings around each wait;
  - the set of addresses a dial reaches.
- `Network.Host.HandleStream`: `modules.RPCRead`'s framing is outside these files. The stream's ID read is an input, absent when the read fails.
- `Network`: the RPC handlers themselves (`managedRPCLoop`, `managedRPCDownload`, the stream RPCs) are not modelled; only whether each one fails is.
- `Network`: the specifier constants live in `modules`, which is not part of this model. They are `NewSpecifier` of their RPC names. The proofs use only that they are pairwise distinct and that `RPCLoopEnter`'s first byte is `L`.
- `Network.Host`: the atomic counters are plain unbounded fields, so their `uint64` wrap-around after 2^64 calls is not modelled. The `atomicRenewCalls` counter is reported but never bumped in this file.
- `Network.Host.TrackWorkingStatus` uses the guarded quick check (see Findings). `build.Severe` on a decreased counter is not modelled; in release builds it only logs.
- `Network.Host.InitNetworking`: listener set-up, the stop hook, the testing-build `autoAddress` and the start of the background threads are not modelled. The listen, port-parse and SiaMux-subscribe outcomes are inputs; the `DisableHostSiamux` disruption, which skips the subscription, is folded into a subscribe that succeeds.
- `modules/host/rpcaccountbalance.go` and `modules/host/mdm/program_test.go` are not part of this model. They are stream I/O and calls into the payment, account and program machinery, whose code is not among these files.

## Findings

| source | as written | input that shows it | evidently intended | confidence | as-written member | corrected member |
|---|---|---|---|---|---|---|
| modules/host/network.go:86-93 | the quick working-status check only logs when the settings counter decreased, then computes `settingsCalls-prevSettingsCalls` as a `uint64`, which wraps around | readings prev = 1, cur = 0: the difference is 2^64 - 1, which is at least 3, so the host is marked Working; latent, because this file only ever increments the counter (network.go:335), so a decrease needs a wrap after 2^64 calls | skip a decreased counter, as the periodic check does at :108-111, so only a rise of at least 3 marks the host Working | not executed | Network.QuickCheckWrapsOnDecrement | Network.QuickCheck |
| modules/renter/siafile/acid_test.go:36-41 | each random key is read into `spk.Key` of a key that is then dropped, and a fresh zero `types.SiaPublicKey{}` is appended; `spk.Key` is nil, so nothing is even read | any random bytes: all fifty host keys are the zero key with no key bytes, so every AddPiece uses the same host | append the key that was filled with random bytes, giving fifty (almost surely) distinct hosts | not executed | Acid.HostKeysCollide | Acid.HostKeysDistinct |

`Acid.TestSiaFileFaultyDisk` builds its host keys with `Acid.HostKeysAsWritten`, as the test does. The keys do not reach the model's AddPiece, whose bookkeeping is left out, so the collision does not change any property proved about the test.
