/** The faulty-disk test of a SiaFile: rounds of random AddPiece calls on a
    disk that fails after a fixed number of writes, each round followed by
    a simulated restart that replays the write-ahead log and reloads the
    file. The random draws are inputs, and the test's time limit becomes a
    finite list of rounds. */
module Acid {
  import opened Errors
  import opened Bytes
  import opened Updates
  import Apply
  import Storage
  import Engine
  import Recovery
  import Metadata
  import PubKeyTable
  import ErasureCode

  /** newFaultyDiskDependency(100): the disk fails after 100 writes. */
  const WriteLimit: nat := 100

  /** The number of host keys AddPiece draws from. */
  const NumHostKeys: nat := 50

  /** The size of a random host key. */
  const HostKeySize: nat := 32

  /** types.SiaPublicKey{}: a zero specifier and no key bytes. */
  const ZeroKey: PubKeyTable.SiaPublicKey := PubKeyTable.SiaPublicKey(Zeros(PubKeyTable.SpecifierSize), [])

  /** fastrand.Read(buf): fills buf with the next random bytes, as many as
      buf holds. */
  function FillRandom(buf: bytes, random: bytes): (r: bytes)
    requires |random| >= |buf|
    ensures |r| == |buf| && r <= random
  {
    random[..|buf|]
  }

  // ---- host keys ----

  /** The host keys as the test builds them: the random bytes are read into
      the empty Key of a key that is then dropped, and a zero key is
      appended instead, so every host key is the zero key. */
  method HostKeysAsWritten(random: seq<bytes>) returns (keys: seq<PubKeyTable.SiaPublicKey>)
    requires |random| == NumHostKeys && forall i | 0 <= i < |random| :: |random[i]| == HostKeySize
    ensures |keys| == NumHostKeys
    ensures forall i | 0 <= i < |keys| :: keys[i] == ZeroKey
  {
    keys := [];
    for i := 0 to NumHostKeys
      invariant |keys| == i
      invariant forall j | 0 <= j < i :: keys[j] == ZeroKey
    {
      var spk := ZeroKey;
      spk := spk.(key := FillRandom(spk.key, random[i]));
      keys := keys + [ZeroKey];
    }
  }

  /** The first two host keys of the test are the same key, whatever the
      random bytes. */
  lemma HostKeysCollide(keys: seq<PubKeyTable.SiaPublicKey>)
    requires |keys| == NumHostKeys && forall i | 0 <= i < |keys| :: keys[i] == ZeroKey
    ensures keys[0] == keys[1] && keys[0].key == []
  {
  }

  /** The host keys as the test means to build them: each one holds its own
      random key bytes and is the one appended. */
  method HostKeys(random: seq<bytes>) returns (keys: seq<PubKeyTable.SiaPublicKey>)
    requires |random| == NumHostKeys && forall i | 0 <= i < |random| :: |random[i]| == HostKeySize
    ensures |keys| == NumHostKeys
    ensures forall i | 0 <= i < |keys| ::
      keys[i].algorithm == ZeroKey.algorithm && keys[i].key == random[i]
  {
    keys := [];
    for i := 0 to NumHostKeys
      invariant |keys| == i
      invariant forall j | 0 <= j < i :: keys[j].algorithm == ZeroKey.algorithm && keys[j].key == random[j]
    {
      var spk := PubKeyTable.SiaPublicKey(Zeros(PubKeyTable.SpecifierSize), Zeros(HostKeySize));
      spk := spk.(key := FillRandom(spk.key, random[i]));
      keys := keys + [spk];
    }
  }

  /** Two host keys built as meant are the same key exactly when they were
      read from the same random bytes. */
  lemma HostKeysDistinct(random: seq<bytes>, keys: seq<PubKeyTable.SiaPublicKey>, i: nat, j: nat)
    requires |keys| == |random| && i < |keys| && j < |keys|
    requires forall n | 0 <= n < |keys| :: keys[n].algorithm == ZeroKey.algorithm && keys[n].key == random[n]
    ensures keys[i] == keys[j] <==> random[i] == random[j]
  {
    if random[i] != random[j] {
      assert keys[i].key != keys[j].key;
    }
  }

  // ---- operations ----

  /** One step of the inner loop: nothing, or AddPiece with the three random
      draws (host key, file offset, piece index), the updates that AddPiece
      persists, and the junk the disk leaves of a write it fails. */
  datatype Op = Skip | AddPiece(keyPick: nat, offsetPick: nat, piecePick: nat, updates: seq<Update>, junk: bytes)

  /** One round: the inner loop's operations, whether the drive is repaired
      before the restart, and the junk the disk leaves of a failed write in
      each attempt of the restart. */
  datatype Round = Round(ops: seq<Op>, repair: bool, noise: seq<bytes>)

  /** How the test ends: all rounds done, a fatal error, or a restart that
      was still failing after the allotted tries. */
  datatype RunResult = Finished | Failed(error: Error) | Stuck

  /** The draws of one AddPiece: fastrand.Intn(n) as a pick modulo n. The
      chunk is the one holding a random offset of the file. */
  function Draw(keyPick: nat, offsetPick: nat, piecePick: nat,
                fileSize: nat, chunkSize: nat, numPieces: nat): (r: (nat, nat, nat))
    requires fileSize > 0 && chunkSize > 0 && numPieces > 0
    ensures r.0 < NumHostKeys
    ensures r.1 < ErasureCode.NumChunks(fileSize, chunkSize)
    ensures r.2 < numPieces
  {
    var offset := offsetPick % fileSize;
    ErasureCode.ChunkIndexInRange(offset, fileSize, chunkSize);
    (keyPick % NumHostKeys, ErasureCode.ChunkIndexByOffset(offset, chunkSize).0, piecePick % numPieces)
  }

  /** AddPiece: records a piece of a chunk for a host and persists the
      change as one write-ahead-log transaction. Only chunks of the file and
      pieces the coder produces can be named. */
  method AddPieceTo(sf: Engine.SiaFile, spk: PubKeyTable.SiaPublicKey, chunkIndex: nat, pieceIndex: nat,
                    chunkSize: nat, us: seq<Update>, junk: bytes)
    returns (err: Option<Error>, ghost done: nat, ghost torn: seq<Apply.Write>)
    requires sf.Valid() && chunkSize > 0 && sf.metadata.staticFileSize >= 0
    requires chunkIndex < ErasureCode.NumChunks(sf.metadata.staticFileSize, chunkSize)
    requires pieceIndex < sf.erasureCode.NumPieces()
    modifies sf.Repr
    ensures sf.Valid() && fresh(sf.Repr - old(sf.Repr))
    ensures Engine.ApplyContract(old(sf.file.Contents()), sf.file.Contents(), Engine.Resolve(sf.siaFilePath, us),
                                 err, done, torn)
    ensures sf.wal.txns == old(sf.wal.txns) + [us]
    ensures sf.wal.applied == old(sf.wal.applied) + (if err.None? then {|old(sf.wal.txns)|} else {})
  {
    err, done, torn := sf.CreateAndApplyTransaction(us, junk);
  }

  /** The indices lo, ..., hi - 1. */
  function Indices(lo: nat, hi: nat): (r: set<nat>)
    ensures forall i :: i in r <==> lo <= i < hi
    decreases hi
  {
    if hi <= lo then {} else Indices(lo, hi - 1) + {hi - 1}
  }

  /** The transactions a list of operations logs: one per AddPiece, in order. */
  function Logged(ops: seq<Op>): seq<seq<Update>>
  {
    if ops == [] then []
    else Logged(ops[..|ops| - 1]) + (if ops[|ops| - 1].AddPiece? then [ops[|ops| - 1].updates] else [])
  }

  /** Of the operations, the first n ran: all of them, or, when the round
      stopped early, up to and including the AddPiece that stopped it. */
  predicate Ran(ops: seq<Op>, n: nat, stopped: bool)
  {
    n <= |ops| && (stopped ==> 0 < n && ops[n - 1].AddPiece?) && (!stopped ==> n == |ops|)
  }

  /** What a round that logged the transactions L leaves in the file c, on
      top of f0: the clean replay of the transactions that succeeded; after
      a disk fault, followed by writes P lying within the faulted
      transaction's own writes; after any other error, that transaction's
      resolution error. Only the last transaction can have failed. */
  ghost predicate RoundWrote(path: bytes, f0: bytes, L: seq<seq<Update>>, err: Option<Error>, faulted: bool,
                             c: bytes, P: seq<Apply.Write>)
  {
    var stopped := err.Some? || faulted;
    (stopped ==> L != []) &&
    var ok := if stopped then L[..|L| - 1] else L;
    Recovery.CleanReplay(path, f0, ok).Ok? &&
    (!stopped ==> c == Recovery.CleanReplay(path, f0, ok).value) &&
    (faulted ==> c == Apply.ApplyWrites(Recovery.CleanReplay(path, f0, ok).value, P) &&
                 forall w | w in P :: Engine.InsideResolved(w, Engine.Resolve(path, L[|L| - 1]))) &&
    (err.Some? ==> Engine.WritesOf(path, L[|L| - 1]) == Err(err.value))
  }

  /** The inner loop: the operations in turn; a disk fault ends the round
      early, and any other error ends the test. Each AddPiece that runs logs
      one transaction, which is signalled exactly when it succeeded; no
      operation runs after a fault or an error. */
  method ApplyOperations(sf: Engine.SiaFile, hostkeys: seq<PubKeyTable.SiaPublicKey>, ops: seq<Op>, chunkSize: nat)
    returns (err: Option<Error>, faulted: bool, ghost n: nat, ghost P: seq<Apply.Write>)
    requires sf.Valid() && |hostkeys| == NumHostKeys && chunkSize > 0
    requires sf.metadata.staticFileSize > 0 && sf.erasureCode.NumPieces() > 0
    modifies sf.Repr
    ensures sf.Valid() && fresh(sf.Repr - old(sf.Repr))
    ensures err != Some(DiskFault) && !(faulted && err.Some?)
    ensures Ran(ops, n, err.Some? || faulted)
    ensures sf.wal.txns == old(sf.wal.txns) + Logged(ops[..n])
    ensures sf.wal.applied ==
      old(sf.wal.applied) + Indices(|old(sf.wal.txns)|, |sf.wal.txns| - (if err.Some? || faulted then 1 else 0))
    ensures RoundWrote(sf.siaFilePath, old(sf.file.Contents()), Logged(ops[..n]), err, faulted, sf.file.Contents(), P)
  {
    ghost var path, f0, T0, A0 := sf.siaFilePath, sf.file.Contents(), sf.wal.txns, sf.wal.applied;
    err, faulted, P := None, false, [];
    var i := 0;
    assert ops[..0] == [] && T0 + [] == T0;
    while i < |ops|
      invariant i <= |ops| && fresh(sf.Repr - old(sf.Repr)) && err.None? && !faulted
      invariant InRound(sf, path, f0, T0, A0, Logged(ops[..i]))
    {
      LoggedStep(ops, i);
      if ops[i].AddPiece? {
        err, faulted, P := RunAddPiece(sf, hostkeys, ops[i], chunkSize, path, f0, T0, A0, Logged(ops[..i]));
        i := i + 1;
        if err.Some? || faulted {
          n := i;
          return;
        }
      } else {
        i := i + 1;
      }
    }
    n := i;
  }

  /** A round part-way: it logged the transactions L on top of the log T0,
      all of them signalled, and the file is their clean replay on f0. */
  ghost predicate InRound(sf: Engine.SiaFile, path: bytes, f0: bytes, T0: seq<seq<Update>>, A0: set<nat>,
                          L: seq<seq<Update>>)
    reads sf, sf.Repr
  {
    sf.Valid() && sf.siaFilePath == path && sf.wal.txns == T0 + L &&
    sf.wal.applied == A0 + Indices(|T0|, |T0 + L|) &&
    Recovery.CleanReplay(path, f0, L) == Ok(sf.file.Contents())
  }

  /** One AddPiece of a round that logged L so far: it logs one more
      transaction. On success the round goes on with that transaction
      signalled and replayed; on a disk fault or another error the round
      stops with that transaction unsignalled and the file as RoundWrote
      says: writes within the transaction's own after a fault, its
      resolution error otherwise. */
  method RunAddPiece(sf: Engine.SiaFile, hostkeys: seq<PubKeyTable.SiaPublicKey>, op: Op, chunkSize: nat,
                     ghost path: bytes, ghost f0: bytes, ghost T0: seq<seq<Update>>, ghost A0: set<nat>,
                     ghost L: seq<seq<Update>>)
    returns (err: Option<Error>, faulted: bool, ghost P: seq<Apply.Write>)
    requires InRound(sf, path, f0, T0, A0, L) && |hostkeys| == NumHostKeys && chunkSize > 0 && op.AddPiece?
    requires sf.metadata.staticFileSize > 0 && sf.erasureCode.NumPieces() > 0
    modifies sf.Repr
    ensures fresh(sf.Repr - old(sf.Repr))
    ensures err != Some(DiskFault) && !(faulted && err.Some?)
    ensures err.None? && !faulted ==> InRound(sf, path, f0, T0, A0, L + [op.updates])
    ensures (err.Some? || faulted) ==>
      sf.Valid() && sf.wal.txns == T0 + (L + [op.updates]) &&
      sf.wal.applied == A0 + Indices(|T0|, |T0 + L|) &&
      RoundWrote(path, f0, L + [op.updates], err, faulted, sf.file.Contents(), P)
  {
    var (key, chunk, piece) :=
      Draw(op.keyPick, op.offsetPick, op.piecePick, sf.metadata.staticFileSize, chunkSize, sf.erasureCode.NumPieces());
    ghost var c, done, torn := sf.file.Contents(), 0, [];
    var e;
    e, done, torn := AddPieceTo(sf, hostkeys[key], chunk, piece, chunkSize, op.updates, op.junk);
    err, faulted := if e == Some(DiskFault) then None else e, e == Some(DiskFault);
    P := if faulted then Engine.Collect(Engine.Resolve(path, op.updates)[..done]).value + torn else [];
    AddPieceOutcome(path, f0, T0, A0, L, op.updates, c, sf.file.Contents(), sf.wal.txns, sf.wal.applied,
                    e, done, torn);
  }

  /** What one AddPiece leaves, on values: the log, the signalled set and
      the file after it, given the apply contract it met on top of the
      clean replay of L. */
  lemma AddPieceOutcome(path: bytes, f0: bytes, T0: seq<seq<Update>>, A0: set<nat>, L: seq<seq<Update>>,
                        us: seq<Update>, c: bytes, c': bytes, txns: seq<seq<Update>>, applied: set<nat>,
                        e: Option<Error>, done: nat, torn: seq<Apply.Write>)
    requires Recovery.CleanReplay(path, f0, L) == Ok(c)
    requires Engine.ApplyContract(c, c', Engine.Resolve(path, us), e, done, torn)
    requires txns == (T0 + L) + [us]
    requires applied == A0 + Indices(|T0|, |T0 + L|) + (if e.None? then {|T0 + L|} else {})
    ensures txns == T0 + (L + [us])
    ensures e.None? ==>
      applied == A0 + Indices(|T0|, |T0 + (L + [us])|) && Recovery.CleanReplay(path, f0, L + [us]) == Ok(c')
    ensures e.Some? ==> applied == A0 + Indices(|T0|, |T0 + L|)
    ensures e == Some(DiskFault) ==>
      RoundWrote(path, f0, L + [us], None, true, c',
                 Engine.Collect(Engine.Resolve(path, us)[..done]).value + torn)
    ensures e.Some? && e != Some(DiskFault) ==> RoundWrote(path, f0, L + [us], e, false, c', [])
  {
    AppliedOne(path, f0, L, us, c, c', e, done, torn);
    Recovery.ConcatAssoc(T0, L, [us]);
    IndicesStep(|T0|, |T0 + L|);
    if e == Some(DiskFault) {
      StoppedRound(path, f0, L, us, None, true, c, c', Engine.Collect(Engine.Resolve(path, us)[..done]).value + torn);
    } else if e.Some? {
      StoppedRound(path, f0, L, us, e, false, c, c', []);
    }
  }

  /** The operations logged after one more operation. */
  lemma LoggedStep(ops: seq<Op>, i: nat)
    requires i < |ops|
    ensures ops[i].AddPiece? ==> Logged(ops[..i + 1]) == Logged(ops[..i]) + [ops[i].updates]
    ensures !ops[i].AddPiece? ==> Logged(ops[..i + 1]) == Logged(ops[..i])
  {
    TakeOne(ops, i);
    assert Logged(ops[..i]) + [] == Logged(ops[..i]);
  }

  /** A round that stopped at the AddPiece logging us, after the
      transactions L had replayed cleanly to c, wrote what RoundWrote says. */
  lemma StoppedRound(path: bytes, f0: bytes, L: seq<seq<Update>>, us: seq<Update>, err: Option<Error>,
                     faulted: bool, c: bytes, c': bytes, P: seq<Apply.Write>)
    requires Recovery.CleanReplay(path, f0, L) == Ok(c)
    requires err.Some? != faulted
    requires faulted ==> (c' == Apply.ApplyWrites(c, P) &&
      forall w | w in P :: Engine.InsideResolved(w, Engine.Resolve(path, us)))
    requires err.Some? ==> Engine.WritesOf(path, us) == Err(err.value)
    ensures RoundWrote(path, f0, L + [us], err, faulted, c', P)
  {
    SnocParts(L, us);
  }

  /** The indices below hi + 1 are those below hi, and hi. */
  lemma IndicesStep(lo: nat, hi: nat)
    requires lo <= hi
    ensures Indices(lo, hi) + {hi} == Indices(lo, hi + 1)
  {
  }

  lemma TakeOne<T>(s: seq<T>, i: nat)
    requires i < |s|
    ensures s[..i + 1][..i] == s[..i] && s[..i + 1][i] == s[i]
  {
  }

  lemma SnocParts<T>(L: seq<T>, x: T)
    ensures |L + [x]| == |L| + 1 && (L + [x])[..|L|] == L && (L + [x])[|L|] == x
  {
  }

  /** One AddPiece of a round, on top of the clean replay of the
      transactions L before it: success extends the clean replay by its
      transaction, a disk fault leaves writes within that transaction's
      own, and any other error is its resolution error. */
  lemma AppliedOne(path: bytes, f0: bytes, L: seq<seq<Update>>, us: seq<Update>, c: bytes, c': bytes,
                   err: Option<Error>, done: nat, torn: seq<Apply.Write>)
    requires Recovery.CleanReplay(path, f0, L) == Ok(c)
    requires Engine.ApplyContract(c, c', Engine.Resolve(path, us), err, done, torn)
    ensures err.None? ==> Recovery.CleanReplay(path, f0, L + [us]) == Ok(c')
    ensures err == Some(DiskFault) ==>
      c' == Apply.ApplyWrites(c, Engine.Collect(Engine.Resolve(path, us)[..done]).value + torn) &&
      forall w | w in Engine.Collect(Engine.Resolve(path, us)[..done]).value + torn ::
        Engine.InsideResolved(w, Engine.Resolve(path, us))
    ensures err.Some? && err != Some(DiskFault) ==> Engine.WritesOf(path, us) == Err(err.value)
  {
    var rs := Engine.Resolve(path, us);
    if err.None? {
      Engine.ApplyContractSuccess(c, c', path, us, done, torn);
      Recovery.CleanReplayConcat(path, f0, L, [us]);
      Recovery.AllWritesOne(path, us);
    } else if err == Some(DiskFault) {
      Engine.StoppedWritesInside(c, c', rs, err, done, torn);
    } else {
      Engine.CollectFirstError(rs, done);
    }
  }

  // ---- restarts ----

  /** Every transaction of a log of n transactions was signalled. */
  predicate AllSignalled(n: nat, applied: set<nat>) {
    forall i | 0 <= i < n :: i in applied
  }

  /** Signalling every transaction a reopened log returns leaves none
      unsignalled. */
  lemma {:induction false} SignalledAll(n: nat, applied: set<nat>)
    ensures AllSignalled(n, applied + Storage.Elems(Storage.Unapplied(0, n, applied)))
  {
    forall i | 0 <= i < n ensures i in applied + Storage.Elems(Storage.Unapplied(0, n, applied)) {
      if i !in applied {
        Storage.UnappliedComplete(0, n, applied, i);
        Storage.ElemsMember(Storage.Unapplied(0, n, applied));
      }
    }
  }

  /** A simulated restart of the SiaFile: the LOAD loop on its disk, log
      and file, judged against the clean replay of the transactions pending
      when it began. A restart that loads the file has replayed them
      cleanly and signalled them all, in log order; a fatal error is the
      clean replay's own or that of loading its bytes; a disk with room for
      the replay needs a single try. */
  method Restart(sf: Engine.SiaFile, maxTries: nat, noise: seq<bytes>) returns (outcome: Recovery.Outcome, recoveries: nat)
    requires sf.Valid()
    modifies sf.Repr
    ensures sf.Valid() && fresh(sf.Repr - old(sf.Repr)) && sf.wal.txns == old(sf.wal.txns)
    ensures outcome.Loaded? ==>
      Recovery.CleanReplay(sf.siaFilePath, old(sf.file.Contents()),
                           Recovery.PendingBatches(old(sf.wal.txns), old(sf.wal.applied))) == Ok(sf.file.Contents()) &&
      Recovery.LoadSpec(sf.file.Contents()) == Ok(outcome.file)
    ensures outcome.Loaded? ==>
      sf.wal.applied == old(sf.wal.applied) + Storage.Elems(Recovery.Pending(old(sf.wal.txns), old(sf.wal.applied))) &&
      sf.wal.signalled == old(sf.wal.signalled) + Recovery.Pending(old(sf.wal.txns), old(sf.wal.applied))
    ensures outcome.Loaded? ==> AllSignalled(|sf.wal.txns|, sf.wal.applied)
    ensures outcome.Fatal? ==> (
      outcome.error != DiskFault &&
      (Recovery.CleanReplay(sf.siaFilePath, old(sf.file.Contents()),
                            Recovery.PendingBatches(old(sf.wal.txns), old(sf.wal.applied))) == Err(outcome.error) ||
       (Recovery.CleanReplay(sf.siaFilePath, old(sf.file.Contents()),
                             Recovery.PendingBatches(old(sf.wal.txns), old(sf.wal.applied))) == Ok(sf.file.Contents()) &&
        Recovery.LoadSpec(sf.file.Contents()) == Err(outcome.error))))
    ensures outcome.GaveUp? ==> recoveries == maxTries
    ensures (maxTries >= 1 &&
             Recovery.Remaining(Recovery.PendingBatches(old(sf.wal.txns), old(sf.wal.applied)), 0) < sf.deps.writeLimit)
      ==> !outcome.GaveUp? && recoveries == 0
  {
    ghost var applied0 := sf.wal.applied;
    outcome, recoveries := Recovery.Reload(sf.deps, sf.wal, sf.file, maxTries, noise);
    sf.Repr := {sf, sf.deps, sf.wal} + sf.file.Repr;
    if outcome.Loaded? {
      SignalledAll(|sf.wal.txns|, applied0);
    }
  }

  /** The state every completed round leaves: the log's transactions are
      exactly those signalled, and the file holds the clean replay of the
      whole log on an empty file. */
  ghost predicate Consistent(path: bytes, txns: seq<seq<Update>>, applied: set<nat>, c: bytes)
  {
    applied == Indices(0, |txns|) && Recovery.CleanReplay(path, [], txns) == Ok(c)
  }

  /** Reopening a log whose first m transactions, and no others, are
      signalled, where m is its length or one less. */
  lemma {:induction false} UnappliedIndices(from: nat, n: nat, m: nat)
    requires from <= n && m <= n <= m + 1
    ensures Storage.Unapplied(from, n, Indices(0, m)) == if from <= m < n then [m] else []
    decreases n - from
  {
    if from < n {
      UnappliedIndices(from + 1, n, m);
    }
  }

  /** A round on a consistent state, followed by a restart that loaded the
      file, leaves a consistent state: the restart replays at most the one
      transaction a disk fault interrupted, and that replay absorbs
      whatever the fault wrote. */
  lemma RestartAfterRound(path: bytes, T0: seq<seq<Update>>, A0: set<nat>, L: seq<seq<Update>>, f0: bytes,
                          faulted: bool, c: bytes, P: seq<Apply.Write>, T: seq<seq<Update>>, applied: set<nat>,
                          c': bytes, applied': set<nat>)
    requires Consistent(path, T0, A0, f0)
    requires RoundWrote(path, f0, L, None, faulted, c, P)
    requires T == T0 + L
    requires applied == A0 + Indices(|T0|, |T| - (if faulted then 1 else 0))
    requires Recovery.CleanReplay(path, c, Recovery.PendingBatches(T, applied)) == Ok(c')
    requires applied' == applied + Storage.Elems(Recovery.Pending(T, applied))
    ensures Consistent(path, T, applied', c')
  {
    var m := |T| - (if faulted then 1 else 0);
    IndicesJoin(0, |T0|, m);
    PendingAfterRound(T, m);
    ReplayAfterRound(path, T0, L, f0, faulted, c, P, c');
  }

  /** The replay half of a restart after a round: replaying the faulted
      transaction, if any, on the round's file gives the clean replay of
      the whole log. */
  lemma ReplayAfterRound(path: bytes, T0: seq<seq<Update>>, L: seq<seq<Update>>, f0: bytes,
                         faulted: bool, c: bytes, P: seq<Apply.Write>, c': bytes)
    requires Recovery.CleanReplay(path, [], T0) == Ok(f0)
    requires RoundWrote(path, f0, L, None, faulted, c, P)
    requires Recovery.CleanReplay(path, c, if faulted then [L[|L| - 1]] else []) == Ok(c')
    ensures Recovery.CleanReplay(path, [], T0 + L) == Ok(c')
  {
    if faulted {
      ReplayAfterFault(path, T0, L, f0, c, P, c');
    } else {
      ReplayAfterCleanRound(path, T0, L, f0, c, c');
    }
  }

  /** Two adjacent index ranges make up the range they span. */
  lemma IndicesJoin(lo: nat, mid: nat, hi: nat)
    requires lo <= mid <= hi
    ensures Indices(lo, mid) + Indices(mid, hi) == Indices(lo, hi)
  {
  }

  /** After a round, the reopened log holds at most the one transaction a
      disk fault interrupted; signalling it drains the log. */
  lemma PendingAfterRound(T: seq<seq<Update>>, m: nat)
    requires m <= |T| <= m + 1
    ensures Recovery.Pending(T, Indices(0, m)) == if m < |T| then [m] else []
    ensures Recovery.PendingBatches(T, Indices(0, m)) == if m < |T| then [T[m]] else []
    ensures Indices(0, m) + Storage.Elems(Recovery.Pending(T, Indices(0, m))) == Indices(0, |T|)
  {
    UnappliedIndices(0, |T|, m);
    if m < |T| {
      assert Storage.Elems([m]) == {m} by {
        assert [m][..0] == [];
      }
    }
  }

  /** A round without a fault, then a restart with nothing to replay. */
  lemma ReplayAfterCleanRound(path: bytes, T0: seq<seq<Update>>, L: seq<seq<Update>>, f0: bytes, c: bytes, c': bytes)
    requires Recovery.CleanReplay(path, [], T0) == Ok(f0)
    requires Recovery.CleanReplay(path, f0, L) == Ok(c)
    requires Recovery.CleanReplay(path, c, []) == Ok(c')
    ensures Recovery.CleanReplay(path, [], T0 + L) == Ok(c')
  {
    Recovery.CleanReplayConcat(path, [], T0, L);
    assert Recovery.AllWrites(path, []) == Ok([]);
  }

  /** A round whose last transaction hit a disk fault, then a restart that
      replays that transaction over what the fault left. */
  lemma ReplayAfterFault(path: bytes, T0: seq<seq<Update>>, L: seq<seq<Update>>, f0: bytes, c: bytes,
                         P: seq<Apply.Write>, c': bytes)
    requires Recovery.CleanReplay(path, [], T0) == Ok(f0)
    requires L != [] && Recovery.CleanReplay(path, f0, L[..|L| - 1]).Ok?
    requires c == Apply.ApplyWrites(Recovery.CleanReplay(path, f0, L[..|L| - 1]).value, P)
    requires forall w | w in P :: Engine.InsideResolved(w, Engine.Resolve(path, L[|L| - 1]))
    requires Recovery.CleanReplay(path, c, [L[|L| - 1]]) == Ok(c')
    ensures Recovery.CleanReplay(path, [], T0 + L) == Ok(c')
  {
    var init, last := L[..|L| - 1], L[|L| - 1];
    var X := Recovery.CleanReplay(path, f0, init).value;
    Recovery.ResumeBatch(path, X, P, last);
    Recovery.CleanReplayConcat(path, f0, init, [last]);
    Recovery.SplitLast([], L);
    Recovery.CleanReplayConcat(path, [], T0, L);
  }

  /** A SiaFile with an empty file and an empty log. */
  method EmptySiaFile(path: bytes, deps: Storage.FaultyDisk, md: Metadata.Metadata, rc: ErasureCode.RSCode)
    returns (sf: Engine.SiaFile)
    ensures sf.Valid() && fresh(sf.Repr - {deps}) && sf.deps == deps
    ensures sf.siaFilePath == path && sf.metadata == md && sf.erasureCode == rc
    ensures sf.file.Contents() == [] && sf.wal.txns == [] && sf.wal.applied == {}
  {
    var wal := new Storage.WAL();
    sf := new Engine.SiaFile(path, deps, wal, md, [], rc);
  }

  /** Writes the header of an empty SiaFile as one transaction while the
      disk's faults are switched off: it succeeds and is signalled, and the
      file is the clean replay of the log. */
  method PersistHeader(sf: Engine.SiaFile, header: bytes)
    requires sf.Valid() && sf.deps.disabled && Encodable(sf.siaFilePath, 0, header)
    requires sf.file.Contents() == [] && sf.wal.txns == [] && sf.wal.applied == {}
    modifies sf.Repr
    ensures sf.Valid() && fresh(sf.Repr - old(sf.Repr))
    ensures sf.file.Contents() == header
    ensures Consistent(sf.siaFilePath, sf.wal.txns, sf.wal.applied, sf.file.Contents())
  {
    var u := sf.CreateUpdate(0, header);
    var err;
    ghost var done, torn;
    err, done, torn := sf.CreateAndApplyTransaction([u], []);
    Engine.OneUpdateOnEmptyFile(sf.file.Contents(), sf.siaFilePath, u, 0, header, err, done, torn);
    assert sf.file.Contents() == sf.file.Contents()[0..|header|];
    Engine.ApplyContractSuccess([], sf.file.Contents(), sf.siaFilePath, [u], done, torn);
    Recovery.AllWritesOne(sf.siaFilePath, [u]);
    assert sf.wal.txns == [[u]];
    assert sf.wal.applied == Indices(0, 1);
  }

  /** newBlankTestFileAndWAL: a SiaFile whose file holds only its header,
      written as one signalled transaction while the disk's faults are
      switched off. */
  method NewBlankFile(path: bytes, deps: Storage.FaultyDisk, md: Metadata.Metadata, rc: ErasureCode.RSCode,
                      header: bytes)
    returns (sf: Engine.SiaFile)
    requires deps.disabled && Encodable(path, 0, header)
    modifies deps
    ensures sf.Valid() && fresh(sf.Repr - {deps}) && sf.deps == deps
    ensures sf.siaFilePath == path && sf.metadata == md && sf.erasureCode == rc
    ensures sf.file.Contents() == header
    ensures Consistent(path, sf.wal.txns, sf.wal.applied, sf.file.Contents())
  {
    sf := EmptySiaFile(path, deps, md, rc);
    PersistHeader(sf, header);
  }

  /** One round of the test on a consistent SiaFile: its operations, the
      repair of the drive if drawn, and a restart. A disk fault is counted
      as a recovery and never fails the round; a round that neither fails
      nor gives up leaves the state consistent again. */
  method PlayRound(sf: Engine.SiaFile, hostkeys: seq<PubKeyTable.SiaPublicKey>, round: Round, chunkSize: nat,
                   maxTries: nat)
    returns (stop: Option<RunResult>, recoveries: nat)
    requires sf.Valid() && |hostkeys| == NumHostKeys && chunkSize > 0
    requires sf.metadata.staticFileSize > 0 && sf.erasureCode.NumPieces() > 0
    requires Consistent(sf.siaFilePath, sf.wal.txns, sf.wal.applied, sf.file.Contents())
    modifies sf.Repr
    ensures sf.Valid() && fresh(sf.Repr - old(sf.Repr))
    ensures stop.Some? ==> !stop.value.Finished? && (stop.value.Failed? ==> stop.value.error != DiskFault)
    ensures stop.None? ==> Consistent(sf.siaFilePath, sf.wal.txns, sf.wal.applied, sf.file.Contents())
  {
    ghost var path, T0, A0, f0 := sf.siaFilePath, sf.wal.txns, sf.wal.applied, sf.file.Contents();
    var err, faulted;
    ghost var n, P;
    err, faulted, n, P := ApplyOperations(sf, hostkeys, round.ops, chunkSize);
    if err.Some? {
      return Some(Failed(err.value)), 0;
    }
    ghost var L, T, c, applied := Logged(round.ops[..n]), sf.wal.txns, sf.file.Contents(), sf.wal.applied;
    if round.repair {
      sf.deps.Reset();
    }
    var outcome;
    outcome, recoveries := Restart(sf, maxTries, round.noise);
    if faulted {
      recoveries := recoveries + 1;
    }
    match outcome
    case Fatal(e) =>
      stop := Some(Failed(e));
    case GaveUp =>
      stop := Some(Stuck);
    case Loaded(_) =>
      stop := None;
      RestartAfterRound(path, T0, A0, L, f0, faulted, c, P, T, applied, sf.file.Contents(), sf.wal.applied);
  }

  /** TestSiaFileFaultyDisk: the disk is disabled while the blank file is
      created and enabled afterwards; each round applies its operations,
      repairs the drive if drawn, and restarts. Disk faults are counted as
      recoveries and never fail the test; every round that completes
      leaves every logged transaction signalled and the file holding the
      clean replay of the whole log, which is what the test's reloads
      check by loading the file. */
  method TestSiaFileFaultyDisk(path: bytes, md: Metadata.Metadata, rc: ErasureCode.RSCode, header: bytes,
                               random: seq<bytes>, rounds: seq<Round>, chunkSize: nat, maxTries: nat)
    returns (result: RunResult, numRecoveries: nat, sf: Engine.SiaFile)
    requires md.staticFileSize > 0 && rc.NumPieces() > 0 && chunkSize > 0
    requires Encodable(path, 0, header)
    requires |random| == NumHostKeys && forall i | 0 <= i < |random| :: |random[i]| == HostKeySize
    ensures result.Failed? ==> result.error != DiskFault
    ensures result.Finished? ==>
      sf.Valid() && Consistent(path, sf.wal.txns, sf.wal.applied, sf.file.Contents())
  {
    var fdd := new Storage.FaultyDisk(WriteLimit);
    fdd.Disable();
    sf := NewBlankFile(path, fdd, md, rc, header);
    var hostkeys := HostKeysAsWritten(random);
    fdd.Enable();
    numRecoveries := 0;
    for r := 0 to |rounds|
      invariant sf.Valid() && fresh(sf.Repr) && sf.deps == fdd && sf.siaFilePath == path
      invariant sf.metadata == md && sf.erasureCode == rc
      invariant Consistent(path, sf.wal.txns, sf.wal.applied, sf.file.Contents())
    {
      var stop, recoveries := PlayRound(sf, hostkeys, rounds[r], chunkSize, maxTries);
      numRecoveries := numRecoveries + recoveries;
      if stop.Some? {
        return stop.value, numRecoveries, sf;
      }
    }
    result := Finished;
  }
}
