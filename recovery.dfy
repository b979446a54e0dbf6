/** Crash recovery of a SiaFile on a faulty disk: replaying the transactions
    the write-ahead log still holds, in log order, signalling each one only
    after it was applied, restarting the whole attempt on a disk fault, and
    loading the file once the log is drained. The specification of a
    recovery is the clean replay: every pending transaction's writes applied
    once, in order, to the file as it was before recovery began. */
module Recovery {
  import opened Errors
  import opened Bytes
  import Apply
  import opened Updates
  import opened Storage
  import opened Engine
  import Metadata
  import PubKeyTable

  // ---- loading ----

  /** What loadSiaFile produces: the decoded metadata and public-key table. */
  datatype LoadedFile = LoadedFile(metadata: Metadata.Metadata, pubKeyTable: seq<PubKeyTable.SiaPublicKey>)

  /** Decoding a SiaFile's bytes: the metadata at offset 0, then the
      public-key table, which lies between pubKeyTableOffset and chunkOffset. */
  function LoadSpec(c: bytes): (r: Result<LoadedFile>)
    ensures r.Ok? ==> PubKeyTable.WellFormedTable(r.value.pubKeyTable)
    ensures r.Err? ==> r.error.IsFatal()
  {
    var md :- Metadata.UnmarshalMetadata(c);
    var m := md.value;
    if !(0 <= m.pubKeyTableOffset <= m.chunkOffset <= |c|) then Err(Truncated)
    else
      var t :- PubKeyTable.UnmarshalPubKeyTable(c[m.pubKeyTableOffset..m.chunkOffset]);
      Ok(LoadedFile(m, t))
  }

  /** The layout a SiaFile is written in: its metadata, then its public-key
      table, then the chunk data, with the two offsets pointing at the table
      and at the chunk data. */
  predicate Laid(md: Metadata.Metadata, t: seq<PubKeyTable.SiaPublicKey>) {
    Metadata.WellFormed(md) && md.staticVersion == Metadata.CurrentVersion &&
    PubKeyTable.WellFormedTable(t) &&
    md.pubKeyTableOffset == |Metadata.MarshalMetadata(md)| &&
    md.chunkOffset == md.pubKeyTableOffset + |PubKeyTable.MarshalPubKeyTable(t)|
  }

  /** Loading a file written in that layout gives back its metadata and its
      public-key table, whatever chunk data follows. */
  lemma LoadMarshalled(md: Metadata.Metadata, t: seq<PubKeyTable.SiaPublicKey>, chunks: bytes)
    requires Laid(md, t)
    ensures LoadSpec(Metadata.MarshalMetadata(md) + PubKeyTable.MarshalPubKeyTable(t) + chunks) ==
      Ok(LoadedFile(md, t))
  {
    var m := Metadata.MarshalMetadata(md);
    var p := PubKeyTable.MarshalPubKeyTable(t);
    var c := m + p + chunks;
    assert c == m + (p + chunks);
    Metadata.UnmarshalMarshalMetadata(md, p + chunks);
    assert c[md.pubKeyTableOffset..md.chunkOffset] == p;
    TableRoundTrip(t);
    LoadSpecOf(c, md, p + chunks, t);
  }

  lemma TableRoundTrip(t: seq<PubKeyTable.SiaPublicKey>)
    requires PubKeyTable.WellFormedTable(t)
    ensures PubKeyTable.UnmarshalPubKeyTable(PubKeyTable.MarshalPubKeyTable(t)) == Ok(t)
  {
    PubKeyTable.UnmarshalMarshalPubKeyTable(t);
    var u := PubKeyTable.UnmarshalPubKeyTable(PubKeyTable.MarshalPubKeyTable(t)).value;
    assert u == t by {
      forall i | 0 <= i < |t| ensures u[i] == t[i] {
      }
    }
  }

  lemma LoadSpecOf(c: bytes, md: Metadata.Metadata, rest: bytes, t: seq<PubKeyTable.SiaPublicKey>)
    requires Metadata.UnmarshalMetadata(c) == Ok(Parsed(md, rest))
    requires 0 <= md.pubKeyTableOffset <= md.chunkOffset <= |c|
    requires PubKeyTable.UnmarshalPubKeyTable(c[md.pubKeyTableOffset..md.chunkOffset]) == Ok(t)
    ensures LoadSpec(c) == Ok(LoadedFile(md, t))
  {
  }

  /** loadSiaFile through the disk dependency: one disk operation, which
      may fault, then decoding the file's bytes. */
  method LoadSiaFile(deps: FaultyDisk, file: FileBuffer) returns (r: Result<LoadedFile>)
    requires file.Valid()
    modifies deps
    ensures deps.disabled == old(deps.disabled) && deps.failed == (old(deps.failed) || r == Err(DiskFault))
    ensures deps.totalWrites == old(deps.totalWrites) + (if deps.disabled then 0 else 1)
    ensures r == Err(DiskFault) <==>
      !deps.disabled && (old(deps.failed) || old(deps.totalWrites) >= deps.writeLimit)
    ensures r != Err(DiskFault) ==> r == LoadSpec(file.Contents())
  {
    var fail := deps.TryFail();
    if fail {
      return Err(DiskFault);
    }
    var c := file.ReadAt(0, file.size);
    assert c == file.Contents();
    r := LoadSpec(c);
  }

  // ---- the clean replay ----

  /** The updates of the transactions with the given log indices, in order. */
  function Batches(txns: seq<seq<Update>>, ids: seq<nat>): (r: seq<seq<Update>>)
    requires forall i | 0 <= i < |ids| :: ids[i] < |txns|
    ensures |r| == |ids| && forall i | 0 <= i < |ids| :: r[i] == txns[ids[i]]
  {
    seq(|ids|, i requires 0 <= i < |ids| => txns[ids[i]])
  }

  /** The transactions a reopened log returns: those not signalled, in log order. */
  function Pending(txns: seq<seq<Update>>, applied: set<nat>): seq<nat>
  {
    Unapplied(0, |txns|, applied)
  }

  function PendingBatches(txns: seq<seq<Update>>, applied: set<nat>): seq<seq<Update>>
  {
    Batches(txns, Pending(txns, applied))
  }

  /** The number of updates in the batches from k on. */
  function Remaining(bs: seq<seq<Update>>, k: nat): nat
    decreases |bs| - k
  {
    if k >= |bs| then 0 else |bs[k]| + Remaining(bs, k + 1)
  }

  /** The writes of a sequence of batches, in order, or the first
      resolution error. */
  function AllWrites(path: bytes, bs: seq<seq<Update>>): Result<seq<Apply.Write>>
  {
    if bs == [] then Ok([])
    else
      var a :- AllWrites(path, bs[..|bs| - 1]);
      var w :- WritesOf(path, bs[|bs| - 1]);
      Ok(a + w)
  }

  /** The clean replay: every batch's writes applied once, in order. */
  function CleanReplay(path: bytes, f0: bytes, bs: seq<seq<Update>>): Result<bytes>
  {
    var ws :- AllWrites(path, bs);
    Ok(Apply.ApplyWrites(f0, ws))
  }

  lemma AllWritesSnoc(path: bytes, bs: seq<seq<Update>>, k: nat)
    requires k < |bs| && AllWrites(path, bs[..k]).Ok? && WritesOf(path, bs[k]).Ok?
    ensures AllWrites(path, bs[..k + 1]) ==
      Ok(AllWrites(path, bs[..k]).value + WritesOf(path, bs[k]).value)
  {
    assert bs[..k + 1][..k] == bs[..k];
  }

  /** When the first k batches resolve and batch k does not, the whole
      sequence fails with batch k's error. */
  lemma {:induction false} AllWritesFirstError(path: bytes, bs: seq<seq<Update>>, k: nat)
    requires k < |bs| && AllWrites(path, bs[..k]).Ok? && WritesOf(path, bs[k]).Err?
    ensures AllWrites(path, bs) == Err(WritesOf(path, bs[k]).error)
    decreases |bs|
  {
    if k == |bs| - 1 {
      assert bs[..|bs| - 1] == bs[..k];
    } else {
      var init := bs[..|bs| - 1];
      assert init[..k] == bs[..k];
      AllWritesFirstError(path, init, k);
    }
  }

  /** A single batch stands for its own writes. */
  lemma AllWritesOne(path: bytes, us: seq<Update>)
    ensures AllWrites(path, [us]) == WritesOf(path, us)
  {
    assert [us][..0] == [];
    if WritesOf(path, us).Ok? {
      assert [] + WritesOf(path, us).value == WritesOf(path, us).value;
    }
  }

  /** The writes of bs + [us]: those of bs, then those of us. */
  lemma AllWritesAppend(path: bytes, bs: seq<seq<Update>>, us: seq<Update>)
    ensures AllWrites(path, bs + [us]) ==
      if AllWrites(path, bs).Err? then AllWrites(path, bs)
      else if WritesOf(path, us).Err? then WritesOf(path, us)
      else Ok(AllWrites(path, bs).value + WritesOf(path, us).value)
  {
    assert (bs + [us])[..|bs|] == bs;
  }

  lemma SplitLast<T>(A: seq<T>, B: seq<T>)
    requires B != []
    ensures B == B[..|B| - 1] + [B[|B| - 1]]
    ensures A + B == (A + B[..|B| - 1]) + [B[|B| - 1]]
  {
  }

  /** The writes of A + B are those of A followed by those of B, and when B
      fails to resolve, A + B fails with B's error. */
  ghost predicate ConcatWrites(path: bytes, A: seq<seq<Update>>, B: seq<seq<Update>>)
    requires AllWrites(path, A).Ok?
  {
    (AllWrites(path, B).Ok? ==>
      AllWrites(path, A + B) == Ok(AllWrites(path, A).value + AllWrites(path, B).value)) &&
    (AllWrites(path, B).Err? ==> AllWrites(path, A + B) == AllWrites(path, B))
  }

  lemma {:induction false} AllWritesConcat(path: bytes, A: seq<seq<Update>>, B: seq<seq<Update>>)
    requires AllWrites(path, A).Ok?
    ensures ConcatWrites(path, A, B)
    decreases |B|
  {
    if B == [] {
      assert A + B == A;
      assert AllWrites(path, A).value + [] == AllWrites(path, A).value;
    } else {
      AllWritesConcat(path, A, B[..|B| - 1]);
      AllWritesConcatStep(path, A, B);
    }
  }

  lemma AllWritesConcatStep(path: bytes, A: seq<seq<Update>>, B: seq<seq<Update>>)
    requires B != [] && AllWrites(path, A).Ok? && ConcatWrites(path, A, B[..|B| - 1])
    ensures ConcatWrites(path, A, B)
  {
    var init, last := B[..|B| - 1], B[|B| - 1];
    SplitLast(A, B);
    AllWritesAppend(path, A + init, last);
    AllWritesAppend(path, init, last);
    if AllWrites(path, init).Ok? && WritesOf(path, last).Ok? {
      ConcatAssoc(AllWrites(path, A).value, AllWrites(path, init).value, WritesOf(path, last).value);
    }
  }

  lemma ConcatAssoc<T>(a: seq<T>, b: seq<T>, c: seq<T>)
    ensures (a + b) + c == a + (b + c)
  {
  }

  /** Replaying A + B from f is replaying B from the clean replay of A. */
  lemma CleanReplayConcat(path: bytes, f: bytes, A: seq<seq<Update>>, B: seq<seq<Update>>)
    requires CleanReplay(path, f, A).Ok?
    ensures CleanReplay(path, f, A + B) == CleanReplay(path, CleanReplay(path, f, A).value, B)
  {
    AllWritesConcat(path, A, B);
    assert ConcatWrites(path, A, B);
    if AllWrites(path, B).Ok? {
      Apply.ApplyWritesConcat(f, AllWrites(path, A).value, AllWrites(path, B).value);
    }
  }

  /** Writes from a failed application of a batch, each within one of its
      updates' writes, make no difference to replaying that batch. */
  lemma ResumeBatch(path: bytes, X: bytes, P: seq<Apply.Write>, us: seq<Update>)
    requires forall w | w in P :: InsideResolved(w, Resolve(path, us))
    ensures CleanReplay(path, Apply.ApplyWrites(X, P), [us]) == CleanReplay(path, X, [us])
  {
    AllWritesOne(path, us);
    if WritesOf(path, us).Ok? {
      InsideWritesOf(path, us, P);
      Apply.ReplayAbsorbs(X, P, WritesOf(path, us).value);
    }
  }

  /** Recovery progress: the first k batches have been applied cleanly on
      top of f0, and then some writes P from failed attempts, each lying
      within the write of one of batch k's updates. */
  ghost predicate Replayed(path: bytes, f0: bytes, bs: seq<seq<Update>>, c: bytes, k: nat, P: seq<Apply.Write>)
  {
    k <= |bs| && AllWrites(path, bs[..k]).Ok? &&
    c == Apply.ApplyWrites(Apply.ApplyWrites(f0, AllWrites(path, bs[..k]).value), P) &&
    (k == |bs| ==> P == []) &&
    (k < |bs| ==> forall w | w in P :: InsideResolved(w, Resolve(path, bs[k])))
  }

  lemma ReplayedStart(path: bytes, f0: bytes, bs: seq<seq<Update>>)
    ensures Replayed(path, f0, bs, f0, 0, [])
  {
    assert bs[..0] == [];
  }

  /** An attempt that stops part-way through batch k leaves the progress
      at batch k, with what it wrote added to P. */
  lemma ReplayedPartial(path: bytes, f0: bytes, bs: seq<seq<Update>>, c: bytes, k: nat,
                        P: seq<Apply.Write>, c': bytes, err: Option<Error>, done: nat, torn: seq<Apply.Write>)
    requires Replayed(path, f0, bs, c, k, P) && k < |bs|
    requires ApplyContract(c, c', Resolve(path, bs[k]), err, done, torn) && err.Some?
    ensures Replayed(path, f0, bs, c', k, P + (Collect(Resolve(path, bs[k])[..done]).value + torn))
  {
    var rs := Resolve(path, bs[k]);
    var Q := Collect(rs[..done]).value + torn;
    var X := Apply.ApplyWrites(f0, AllWrites(path, bs[..k]).value);
    Apply.ApplyWritesConcat(X, P, Q);
    StoppedWritesInside(c, c', rs, err, done, torn);
  }

  /** Completing batch k absorbs whatever earlier attempts wrote of it:
      the progress moves to batch k + 1 with nothing extra. */
  lemma ReplayedComplete(path: bytes, f0: bytes, bs: seq<seq<Update>>, c: bytes, k: nat,
                         P: seq<Apply.Write>, c': bytes, done: nat, torn: seq<Apply.Write>)
    requires Replayed(path, f0, bs, c, k, P) && k < |bs|
    requires ApplyContract(c, c', Resolve(path, bs[k]), None, done, torn)
    ensures Replayed(path, f0, bs, c', k + 1, [])
  {
    ApplyContractSuccess(c, c', path, bs[k], done, torn);
    var A := AllWrites(path, bs[..k]).value;
    var X := Apply.ApplyWrites(f0, A);
    var W := WritesOf(path, bs[k]).value;
    InsideWritesOf(path, bs[k], P);
    Apply.ReplayAbsorbs(X, P, W);
    Apply.ApplyWritesConcat(f0, A, W);
    AllWritesSnoc(path, bs, k);
    assert Apply.ApplyWrites(X, []) == X;
  }

  /** Writes lying within a resolved update's write lie within the batch's
      writes. */
  lemma InsideWritesOf(path: bytes, us: seq<Update>, P: seq<Apply.Write>)
    requires WritesOf(path, us).Ok?
    requires forall w | w in P :: InsideResolved(w, Resolve(path, us))
    ensures forall w | w in P :: Apply.InsideSome(w, WritesOf(path, us).value)
  {
    var rs := Resolve(path, us);
    var W := WritesOf(path, us).value;
    CollectAt(rs);
    forall w | w in P ensures Apply.InsideSome(w, W) {
      var j :| 0 <= j < |rs| && rs[j].Ok? && Apply.Within(w, rs[j].value);
      assert W[j] == rs[j].value;
    }
  }

  /** A resolution error in batch k is the clean replay's error. */
  lemma ReplayedFatal(path: bytes, f0: bytes, bs: seq<seq<Update>>, c: bytes, k: nat,
                      P: seq<Apply.Write>, c': bytes, e: Error, done: nat, torn: seq<Apply.Write>)
    requires Replayed(path, f0, bs, c, k, P) && k < |bs|
    requires ApplyContract(c, c', Resolve(path, bs[k]), Some(e), done, torn) && e != DiskFault
    ensures CleanReplay(path, f0, bs) == Err(e)
  {
    var rs := Resolve(path, bs[k]);
    CollectFirstError(rs, done);
    AllWritesFirstError(path, bs, k);
  }

  /** With every batch applied, the file is the clean replay. */
  lemma ReplayedDone(path: bytes, f0: bytes, bs: seq<seq<Update>>, c: bytes, P: seq<Apply.Write>)
    requires Replayed(path, f0, bs, c, |bs|, P)
    ensures CleanReplay(path, f0, bs) == Ok(c)
  {
    assert bs[..|bs|] == bs;
  }

  // ---- the recovery loop ----

  /** What reloading a SiaFile ends in. */
  datatype Outcome = Loaded(file: LoadedFile) | Fatal(error: Error) | GaveUp

  /** The log after the first k transactions of pending0 were signalled,
      in order, on top of applied0 and signalled0. */
  ghost predicate SignalledUpTo(applied: set<nat>, signalled: seq<nat>,
                                applied0: set<nat>, signalled0: seq<nat>, pending0: seq<nat>, k: nat)
  {
    k <= |pending0| && applied == applied0 + Elems(pending0[..k]) && signalled == signalled0 + pending0[..k]
  }

  /** Where a recovery started: the log's signalled set and order, the
      transactions pending then and their batches, and the file's bytes. */
  datatype Start = Start(applied0: set<nat>, signalled0: seq<nat>, pending0: seq<nat>,
                         batches: seq<seq<Update>>, f0: bytes)

  /** The recovery state after k pending transactions were replayed and
      signalled and P of batch k was written. A non-negative budget, at
      most the disk's write limit, bounds the disk writes done so far plus
      those still to come, and says the disk has not failed. */
  ghost predicate Progress(deps: FaultyDisk, wal: WAL, file: FileBuffer, st: Start, k: nat,
                           P: seq<Apply.Write>, budget: int)
    reads deps, wal, file, file.Repr
  {
    file.Valid() && wal !in file.Repr && deps !in file.Repr &&
    LogProgress(wal, st, k) && FileProgress(file, st, k, P) && DiskBudget(deps, st, k, budget)
  }

  /** The log's part of the progress: the pending transactions are the
      recovery's batches, and the first k of them are signalled, in order. */
  ghost predicate LogProgress(wal: WAL, st: Start, k: nat)
    reads wal
  {
    |st.batches| == |st.pending0| &&
    (forall i | 0 <= i < |st.batches| :: st.pending0[i] < |wal.txns| && st.batches[i] == wal.txns[st.pending0[i]]) &&
    SignalledUpTo(wal.applied, wal.signalled, st.applied0, st.signalled0, st.pending0, k)
  }

  /** The file's part of the progress: k batches replayed, then P. */
  ghost predicate FileProgress(file: FileBuffer, st: Start, k: nat, P: seq<Apply.Write>)
    reads file, file.Repr
    requires file.Valid()
  {
    Replayed(file.path, st.f0, st.batches, file.Contents(), k, P)
  }

  /** The disk's part of the progress: a non-negative budget bounds the
      writes done and still to come, and the disk has not failed. */
  ghost predicate DiskBudget(deps: FaultyDisk, st: Start, k: nat, budget: int)
    reads deps
  {
    budget >= 0 ==> !deps.failed && deps.totalWrites + Remaining(st.batches, k) <= budget <= deps.writeLimit
  }

  /** Replaying one unfinished transaction, batch k of the recovery: its
      updates are applied through the disk dependency and, only if all of
      them were, it is signalled as applied. */
  method ReplayTransaction(deps: FaultyDisk, wal: WAL, file: FileBuffer, id: nat, junk: bytes,
                           ghost st: Start, ghost k: nat, ghost P: seq<Apply.Write>, ghost budget: int)
    returns (err: Option<Error>, ghost k': nat, ghost P': seq<Apply.Write>, ghost budget': int)
    requires Progress(deps, wal, file, st, k, P, budget)
    requires k < |st.pending0| && st.pending0[k] == id
    modifies deps, wal, file.Repr
    ensures fresh(file.Repr - old(file.Repr)) && wal.txns == old(wal.txns)
    ensures Progress(deps, wal, file, st, k', P', budget')
    ensures k' == (if err.None? then k + 1 else k) && budget' == (if err.None? then budget else -1)
    ensures err.Some? && err.value != DiskFault ==> CleanReplay(file.path, st.f0, st.batches) == Err(err.value)
    ensures budget >= 0 ==> err != Some(DiskFault)
    ensures deps.disabled == old(deps.disabled)
  {
    ghost var B := st.batches;
    ghost var before := file.Contents();
    ghost var done, torn;
    assert B[k] == wal.txns[id];
    err, done, torn := ApplyUpdatesWithDeps(deps, file, wal.txns[id], junk);
    assert budget >= 0 ==> err != Some(DiskFault);
    if err.Some? {
      ReplayedPartial(file.path, st.f0, B, before, k, P, file.Contents(), err, done, torn);
      if err != Some(DiskFault) {
        ReplayedFatal(file.path, st.f0, B, before, k, P, file.Contents(), err.value, done, torn);
      }
      k', P', budget' := k, P + (Collect(Resolve(file.path, B[k])[..done]).value + torn), -1;
      return;
    }
    ReplayedComplete(file.path, st.f0, B, before, k, P, file.Contents(), done, torn);
    SignalNext(st.pending0, k, st.applied0, st.signalled0);
    wal.SignalUpdatesApplied(id);
    k', P', budget' := k + 1, [], budget;
  }

  /** One pass over the log ("apply unfinished txns"): the log is closed and
      reopened, and every transaction it returns is applied through the
      disk dependency and then signalled, in log order, stopping at the
      first error. The ghost k and P are the recovery progress before the
      pass and k', P' the progress after it. */
  method ApplyUnfinished(deps: FaultyDisk, wal: WAL, file: FileBuffer, junk: bytes,
                         ghost st: Start, ghost k: nat, ghost P: seq<Apply.Write>, ghost budget: int)
    returns (err: Option<Error>, ghost k': nat, ghost P': seq<Apply.Write>, ghost budget': int)
    requires Progress(deps, wal, file, st, k, P, budget)
    requires Unapplied(0, |wal.txns|, wal.applied) == st.pending0[k..]
    modifies deps, wal, file.Repr
    ensures fresh(file.Repr - old(file.Repr)) && wal.txns == old(wal.txns)
    ensures Progress(deps, wal, file, st, k', P', budget') && budget' == if err.None? then budget else -1
    ensures err.None? ==> k' == |st.batches|
    ensures err.Some? && err.value != DiskFault ==> CleanReplay(file.path, st.f0, st.batches) == Err(err.value)
    ensures budget >= 0 ==> err != Some(DiskFault)
    ensures deps.disabled == old(deps.disabled)
  {
    var pending := wal.Reopen();
    k', P', budget' := k, P, budget;
    err := None;
    assert k + |pending| == |st.pending0|;
    for j := 0 to |pending|
      invariant fresh(file.Repr - old(file.Repr)) && wal.txns == old(wal.txns)
      invariant k' == k + j && pending == st.pending0[k..] && k + |pending| == |st.pending0|
      invariant Progress(deps, wal, file, st, k', P', budget) && budget' == budget
      invariant deps.disabled == old(deps.disabled)
    {
      var e;
      assert pending[j] == st.pending0[k'];
      e, k', P', budget' := ReplayTransaction(deps, wal, file, pending[j], junk, st, k', P', budget);
      if e.Some? {
        err := e;
        break;
      }
    }
  }

  /** A restart that loaded lf: the file holds the clean replay of the
      batches pending at the start, lf is what loading it gives, and every
      pending transaction was signalled, in log order. */
  ghost predicate LoadedFrom(st: Start, path: bytes, c: bytes, applied: set<nat>, signalled: seq<nat>,
                             lf: LoadedFile)
  {
    CleanReplay(path, st.f0, st.batches) == Ok(c) && LoadSpec(c) == Ok(lf) &&
    applied == st.applied0 + Elems(st.pending0) && signalled == st.signalled0 + st.pending0
  }

  /** A restart that failed with e: not a disk fault, but the clean
      replay's own error or the error of loading the clean replay's bytes. */
  ghost predicate FatalFrom(st: Start, path: bytes, c: bytes, e: Error)
  {
    e != DiskFault &&
    (CleanReplay(path, st.f0, st.batches) == Err(e) ||
     (CleanReplay(path, st.f0, st.batches) == Ok(c) && LoadSpec(c) == Err(e)))
  }

  /** Before an attempt: the disk is repaired if repair is set, and the
      log's unapplied transactions are the pending ones not yet replayed.
      A budget is granted to a first attempt on a repaired disk whose write
      limit exceeds the writes the replay needs. */
  method Prepare(deps: FaultyDisk, wal: WAL, file: FileBuffer, repair: bool,
                 ghost st: Start, ghost k: nat, ghost P: seq<Apply.Write>)
    returns (ghost budget: int)
    requires Progress(deps, wal, file, st, k, P, -1)
    requires st.pending0 == Unapplied(0, |wal.txns|, st.applied0)
    modifies deps
    ensures Progress(deps, wal, file, st, k, P, budget)
    ensures Unapplied(0, |wal.txns|, wal.applied) == st.pending0[k..]
    ensures budget >= 0 ==> budget < deps.writeLimit
    ensures repair && k == 0 && Remaining(st.batches, 0) < deps.writeLimit ==> budget >= 0
  {
    if repair {
      deps.Reset();
    }
    budget := if repair && k == 0 && Remaining(st.batches, 0) < deps.writeLimit then Remaining(st.batches, 0) else -1;
    UnappliedAfterSignal(0, |wal.txns|, st.applied0, k);
  }

  /** Replaying the log's unfinished transactions, then loading the file.
      Anything but a disk fault is final. */
  method ReplayAndLoad(deps: FaultyDisk, wal: WAL, file: FileBuffer, junk: bytes,
                       ghost st: Start, ghost k: nat, ghost P: seq<Apply.Write>, ghost budget: int)
    returns (r: Result<LoadedFile>, ghost k': nat, ghost P': seq<Apply.Write>)
    requires Progress(deps, wal, file, st, k, P, budget)
    requires Unapplied(0, |wal.txns|, wal.applied) == st.pending0[k..]
    requires budget >= 0 ==> budget < deps.writeLimit
    modifies deps, wal, file.Repr
    ensures fresh(file.Repr - old(file.Repr)) && wal.txns == old(wal.txns)
    ensures Progress(deps, wal, file, st, k', P', -1)
    ensures budget >= 0 ==> r != Err(DiskFault)
    ensures r.Ok? ==> LoadedFrom(st, file.path, file.Contents(), wal.applied, wal.signalled, r.value)
    ensures r.Err? && r.error != DiskFault ==> FatalFrom(st, file.path, file.Contents(), r.error)
  {
    var err;
    ghost var budget';
    err, k', P', budget' := ApplyUnfinished(deps, wal, file, junk, st, k, P, budget);
    if err.Some? {
      return Err(err.value), k', P';
    }
    r := LoadReplayed(deps, wal, file, st, P', budget);
  }

  /** The load step, once every pending transaction has been replayed and
      signalled. */
  method LoadReplayed(deps: FaultyDisk, wal: WAL, file: FileBuffer,
                      ghost st: Start, ghost P: seq<Apply.Write>, ghost budget: int)
    returns (r: Result<LoadedFile>)
    requires Progress(deps, wal, file, st, |st.batches|, P, budget)
    requires budget >= 0 ==> budget < deps.writeLimit
    modifies deps
    ensures Progress(deps, wal, file, st, |st.batches|, P, -1)
    ensures budget >= 0 ==> r != Err(DiskFault)
    ensures r.Ok? ==> LoadedFrom(st, file.path, file.Contents(), wal.applied, wal.signalled, r.value)
    ensures r.Err? && r.error != DiskFault ==> FatalFrom(st, file.path, file.Contents(), r.error)
  {
    ReplayedDone(file.path, st.f0, st.batches, file.Contents(), P);
    assert st.pending0[..|st.batches|] == st.pending0;
    r := LoadSiaFile(deps, file);
  }

  /** One attempt of a restart: repair if asked, replay, load. */
  method Attempt(deps: FaultyDisk, wal: WAL, file: FileBuffer, repair: bool, junk: bytes,
                 ghost st: Start, ghost k: nat, ghost P: seq<Apply.Write>)
    returns (r: Result<LoadedFile>, ghost k': nat, ghost P': seq<Apply.Write>)
    requires Progress(deps, wal, file, st, k, P, -1)
    requires st.pending0 == Unapplied(0, |wal.txns|, st.applied0)
    modifies deps, wal, file.Repr
    ensures fresh(file.Repr - old(file.Repr)) && wal.txns == old(wal.txns)
    ensures Progress(deps, wal, file, st, k', P', -1)
    ensures repair && k == 0 && Remaining(st.batches, 0) < deps.writeLimit ==> r != Err(DiskFault)
    ensures r.Ok? ==> LoadedFrom(st, file.path, file.Contents(), wal.applied, wal.signalled, r.value)
    ensures r.Err? && r.error != DiskFault ==> FatalFrom(st, file.path, file.Contents(), r.error)
  {
    ghost var budget := Prepare(deps, wal, file, repair, st, k, P);
    r, k', P' := ReplayAndLoad(deps, wal, file, junk, st, k, P, budget);
  }

  /** The junk the disk leaves of a failed write during attempt i: at most
      one write fails per attempt, since an attempt stops at its first
      error. */
  function Noise(noise: seq<bytes>, i: nat): bytes
  {
    if i < |noise| then noise[i] else []
  }

  /** The retry loop of a restart: up to maxTries attempts, the disk being
      repaired before every tenth one (the first included). A disk fault
      ends the attempt and counts as a recovery; any other error is fatal. */
  method Retry(deps: FaultyDisk, wal: WAL, file: FileBuffer, maxTries: nat, noise: seq<bytes>, ghost st: Start)
    returns (outcome: Outcome, recoveries: nat)
    requires Progress(deps, wal, file, st, 0, [], -1)
    requires st.pending0 == Unapplied(0, |wal.txns|, st.applied0)
    modifies deps, wal, file.Repr
    ensures file.Valid() && fresh(file.Repr - old(file.Repr)) && wal.txns == old(wal.txns)
    ensures outcome.Loaded? ==> LoadedFrom(st, file.path, file.Contents(), wal.applied, wal.signalled, outcome.file)
    ensures outcome.Fatal? ==> FatalFrom(st, file.path, file.Contents(), outcome.error)
    ensures outcome.GaveUp? ==> recoveries == maxTries
    ensures maxTries >= 1 && Remaining(st.batches, 0) < deps.writeLimit ==> !outcome.GaveUp? && recoveries == 0
  {
    ghost var roomy := Remaining(st.batches, 0) < deps.writeLimit;
    ghost var k: nat, P := 0, [];
    recoveries := 0;
    for tries := 0 to maxTries
      invariant fresh(file.Repr - old(file.Repr)) && wal.txns == old(wal.txns)
      invariant Progress(deps, wal, file, st, k, P, -1)
      invariant recoveries == tries
      invariant roomy ==> tries == 0
      invariant tries == 0 ==> k == 0
    {
      var r;
      r, k, P := Attempt(deps, wal, file, tries % 10 == 0, Noise(noise, tries), st, k, P);
      if r == Err(DiskFault) {
        recoveries := recoveries + 1;
        continue;
      }
      if r.Err? {
        return Fatal(r.error), recoveries;
      }
      return Loaded(r.value), recoveries;
    }
    outcome := GaveUp;
  }

  /** Reloading a SiaFile after a crash, judged against the clean replay of
      the transactions pending when the restart began. */
  method Reload(deps: FaultyDisk, wal: WAL, file: FileBuffer, maxTries: nat, noise: seq<bytes>)
    returns (outcome: Outcome, recoveries: nat)
    requires file.Valid() && wal !in file.Repr && deps !in file.Repr
    modifies deps, wal, file.Repr
    ensures file.Valid() && fresh(file.Repr - old(file.Repr)) && wal.txns == old(wal.txns)
    ensures outcome.Loaded? ==>
      CleanReplay(file.path, old(file.Contents()), PendingBatches(old(wal.txns), old(wal.applied))) == Ok(file.Contents()) &&
      LoadSpec(file.Contents()) == Ok(outcome.file)
    ensures outcome.Loaded? ==>
      wal.applied == old(wal.applied) + Elems(Pending(old(wal.txns), old(wal.applied))) &&
      wal.signalled == old(wal.signalled) + Pending(old(wal.txns), old(wal.applied))
    ensures outcome.Fatal? ==> (
      outcome.error != DiskFault &&
      (CleanReplay(file.path, old(file.Contents()), PendingBatches(old(wal.txns), old(wal.applied))) == Err(outcome.error) ||
       (CleanReplay(file.path, old(file.Contents()), PendingBatches(old(wal.txns), old(wal.applied))) == Ok(file.Contents()) &&
        LoadSpec(file.Contents()) == Err(outcome.error))))
    ensures outcome.GaveUp? ==> recoveries == maxTries
    ensures maxTries >= 1 && Remaining(PendingBatches(old(wal.txns), old(wal.applied)), 0) < deps.writeLimit ==>
      !outcome.GaveUp? && recoveries == 0
  {
    ghost var pending0 := Pending(wal.txns, wal.applied);
    ghost var st := Start(wal.applied, wal.signalled, pending0, PendingBatches(wal.txns, wal.applied), file.Contents());
    ReplayedStart(file.path, st.f0, st.batches);
    assert pending0[..0] == [];
    outcome, recoveries := Retry(deps, wal, file, maxTries, noise, st);
  }
}
