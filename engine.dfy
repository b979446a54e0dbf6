/** The three apply entry points of a SiaFile: the free ApplyUpdates, the
    file's own applyUpdates, and createAndApplyTransaction, which logs the
    updates in the write-ahead log first. All three decode each update,
    consult the disk dependency and write the payload in place, stopping at
    the first error; all three meet the same contract. */
module Engine {
  import opened Errors
  import opened Bytes
  import Apply
  import opened Updates
  import Storage
  import Metadata
  import PubKeyTable
  import ErasureCode

  /** Resolves an update against the file at path: it must decode, name that
      file, and carry a non-negative offset. */
  function ToWrite(path: bytes, u: Update): (r: Result<Apply.Write>)
    ensures r.Err? ==> r.error == MalformedUpdate || r.error == NegativeOffset
  {
    var ins :- ReadUpdate(u);
    if ins.path != path then Err(MalformedUpdate)
    else if ins.index < 0 then Err(NegativeOffset)
    else Ok(Apply.Write(ins.index, ins.data))
  }

  /** Conversely, every update that resolves is the one createUpdate makes
      for this file from the resolved offset and payload. */
  lemma ToWriteOnlyCreated(path: bytes, u: Update)
    requires ToWrite(path, u).Ok?
    ensures var w := ToWrite(path, u).value;
      Encodable(path, w.offset, w.data) && u == CreateUpdate(path, w.offset, w.data)
  {
    ReadUpdateOnlyAcceptsCreated(u);
  }

  /** An update made by createUpdate for this file resolves to exactly the
      write it was made from; a negative offset is refused. */
  lemma ToWriteCreated(path: bytes, index: int, data: bytes)
    requires Encodable(path, index, data)
    ensures ToWrite(path, CreateUpdate(path, index, data)) ==
      if index >= 0 then Ok(Apply.Write(index, data)) else Err(NegativeOffset)
  {
    ReadCreateUpdate(path, index, data);
  }

  /** An update made for another file is refused. */
  lemma ToWriteOtherPath(path: bytes, other: bytes, index: int, data: bytes)
    requires Encodable(other, index, data) && other != path
    ensures ToWrite(path, CreateUpdate(other, index, data)) == Err(MalformedUpdate)
  {
    ReadCreateUpdate(other, index, data);
  }

  /** Every update of a batch resolved, in order. */
  function Resolve(path: bytes, us: seq<Update>): (rs: seq<Result<Apply.Write>>)
    ensures |rs| == |us|
  {
    if us == [] then [] else Resolve(path, us[..|us| - 1]) + [ToWrite(path, us[|us| - 1])]
  }

  /** Position i of a batch's resolutions is the resolution of update i. */
  lemma {:induction false} ResolveAt(path: bytes, us: seq<Update>, i: nat)
    requires i < |us|
    ensures Resolve(path, us)[i] == ToWrite(path, us[i])
    decreases |us|
  {
    if i < |us| - 1 {
      ResolveAt(path, us[..|us| - 1], i);
    }
  }

  /** The writes of a sequence of resolutions, or the first resolution
      error in order. */
  function Collect(rs: seq<Result<Apply.Write>>): (r: Result<seq<Apply.Write>>)
    ensures r.Ok? ==> |r.value| == |rs|
  {
    if rs == [] then Ok([])
    else
      var ws :- Collect(rs[..|rs| - 1]);
      var w :- rs[|rs| - 1];
      Ok(ws + [w])
  }

  /** Collect succeeds exactly when every resolution did, and then lists
      their writes in order. */
  lemma {:induction false} CollectAt(rs: seq<Result<Apply.Write>>)
    ensures Collect(rs).Ok? <==> forall i | 0 <= i < |rs| :: rs[i].Ok?
    ensures Collect(rs).Ok? ==> forall i | 0 <= i < |rs| :: Collect(rs).value[i] == rs[i].value
    decreases |rs|
  {
    if rs != [] {
      var init := rs[..|rs| - 1];
      CollectAt(init);
      if Collect(rs).Ok? {
        forall i | 0 <= i < |rs| ensures rs[i].Ok? {
          if i < |rs| - 1 { assert rs[i] == init[i]; }
        }
      }
      if forall i | 0 <= i < |rs| :: rs[i].Ok? {
        forall i | 0 <= i < |init| ensures init[i].Ok? { assert init[i] == rs[i]; }
      }
    }
  }

  /** When the first j resolutions succeed and resolution j fails, Collect
      reports exactly that failure. */
  lemma {:induction false} CollectFirstError(rs: seq<Result<Apply.Write>>, j: nat)
    requires j < |rs| && Collect(rs[..j]).Ok? && rs[j].Err?
    ensures Collect(rs) == Err(rs[j].error)
    decreases |rs|
  {
    if j == |rs| - 1 {
      assert rs[..|rs| - 1] == rs[..j];
    } else {
      var init := rs[..|rs| - 1];
      assert init[..j] == rs[..j];
      CollectFirstError(init, j);
    }
  }

  /** Every write Collect returns comes from a successful resolution. */
  lemma CollectMembers(rs: seq<Result<Apply.Write>>)
    requires Collect(rs).Ok?
    ensures forall w | w in Collect(rs).value :: Ok(w) in rs
  {
    CollectAt(rs);
    forall w | w in Collect(rs).value ensures Ok(w) in rs {
      var i :| 0 <= i < |Collect(rs).value| && Collect(rs).value[i] == w;
      assert rs[i] == Ok(w);
    }
  }

  /** The writes a batch of updates stands for, if every update resolves. */
  function WritesOf(path: bytes, us: seq<Update>): Result<seq<Apply.Write>>
  {
    Collect(Resolve(path, us))
  }

  /** Extending a collectable prefix by one successful resolution extends
      its writes by that write. */
  lemma CollectSnoc(rs: seq<Result<Apply.Write>>, i: nat)
    requires i < |rs| && Collect(rs[..i]).Ok? && rs[i].Ok?
    ensures Collect(rs[..i + 1]) == Ok(Collect(rs[..i]).value + [rs[i].value])
  {
    assert rs[..i + 1][..i] == rs[..i];
  }

  /** The batch made of createUpdate calls for this file with non-negative
      offsets stands for exactly the writes they were made from. */
  lemma {:induction false} WritesOfCreated(path: bytes, ws: seq<Apply.Write>, us: seq<Update>)
    requires |us| == |ws|
    requires forall i | 0 <= i < |ws| ::
      Encodable(path, ws[i].offset, ws[i].data) && us[i] == CreateUpdate(path, ws[i].offset, ws[i].data)
    ensures WritesOf(path, us) == Ok(ws)
  {
    var rs := Resolve(path, us);
    forall i | 0 <= i < |us| ensures rs[i] == Ok(ws[i]) {
      ResolveAt(path, us, i);
      ToWriteCreated(path, ws[i].offset, ws[i].data);
    }
    CollectAt(rs);
    assert Collect(rs).value == ws;
  }

  /** A batch of one resolvable update stands for its one write. */
  lemma WritesOfSingle(path: bytes, u: Update)
    requires ToWrite(path, u).Ok?
    ensures WritesOf(path, [u]) == Ok([ToWrite(path, u).value])
  {
    var rs := Resolve(path, [u]);
    ResolveAt(path, [u], 0);
    assert rs == [ToWrite(path, u)];
    assert rs[..0] == [];
    assert Collect(rs[..0]) == Ok([]);
    var w := ToWrite(path, u).value;
    assert Collect(rs) == Ok([] + [w]);
    assert [] + [w] == [w];
    assert WritesOf(path, [u]) == Collect(rs);
  }

  /** w lies within the write of one of the resolutions that succeeded. */
  predicate InsideResolved(w: Apply.Write, rs: seq<Result<Apply.Write>>) {
    exists j | 0 <= j < |rs| :: rs[j].Ok? && Apply.Within(w, rs[j].value)
  }

  /** The contract every apply entry point meets, given the file before and
      after, the batch's resolutions, the error returned, the number of
      updates written and what a disk fault left (torn): the file holds
      exactly the writes of the first `done` updates applied in order,
      followed by torn; no error means all of them; a disk fault strikes
      only an update that resolved, and leaves junk only within that
      update's own range; any other error is the resolution error of the
      first update that did not resolve, and leaves nothing extra. */
  ghost predicate ApplyContract(before: bytes, after: bytes, rs: seq<Result<Apply.Write>>,
                                err: Option<Error>, done: nat, torn: seq<Apply.Write>)
  {
    done <= |rs| && Collect(rs[..done]).Ok? &&
    after == Apply.ApplyWrites(before, Collect(rs[..done]).value + torn) &&
    (err.None? <==> done == |rs|) &&
    (err.Some? ==> (err.value == DiskFault <==> rs[done].Ok?)) &&
    (err.Some? && err.value != DiskFault ==> rs[done] == Err(err.value)) &&
    (err != Some(DiskFault) ==> torn == []) &&
    (err == Some(DiskFault) ==> forall t | t in torn :: Apply.Within(t, rs[done].value))
  }

  /** An entry point that reports success has applied the whole batch. */
  lemma ApplyContractSuccess(before: bytes, after: bytes, path: bytes, us: seq<Update>, done: nat,
                             torn: seq<Apply.Write>)
    requires ApplyContract(before, after, Resolve(path, us), None, done, torn)
    ensures WritesOf(path, us).Ok? && after == Apply.ApplyWrites(before, WritesOf(path, us).value)
  {
    var rs := Resolve(path, us);
    assert rs[..done] == rs;
    assert Collect(rs).value + torn == Collect(rs).value;
  }

  /** Whatever an application that stopped early wrote, completed writes
      and junk alike, lies within the batch's own writes. */
  lemma StoppedWritesInside(before: bytes, after: bytes, rs: seq<Result<Apply.Write>>, err: Option<Error>,
                            done: nat, torn: seq<Apply.Write>)
    requires ApplyContract(before, after, rs, err, done, torn) && err.Some?
    ensures forall w | w in Collect(rs[..done]).value + torn :: InsideResolved(w, rs)
  {
    var C := Collect(rs[..done]).value;
    CollectAt(rs[..done]);
    forall w | w in C + torn ensures InsideResolved(w, rs) {
      if w in torn {
        assert rs[done].Ok? && Apply.Within(w, rs[done].value);
      } else {
        var i :| 0 <= i < |C| && C[i] == w;
        assert rs[..done][i] == rs[i];
        assert rs[i].Ok? && Apply.Within(w, rs[i].value);
      }
    }
  }

  /** One write through the disk dependency: the dependency is consulted
      first; a write it fails leaves junk over the start of its own range
      (Apply.Torn), and any other write puts the payload in place. */
  method WriteThrough(deps: Storage.FaultyDisk, file: Storage.FileBuffer, w: Apply.Write, junk: bytes)
    returns (fail: bool)
    requires file.Valid()
    modifies deps, file.Repr
    ensures file.Valid() && fresh(file.Repr - old(file.Repr))
    ensures deps.disabled == old(deps.disabled)
    ensures fail == (!deps.disabled && (old(deps.failed) || old(deps.totalWrites) >= deps.writeLimit))
    ensures deps.totalWrites == if deps.disabled then old(deps.totalWrites) else old(deps.totalWrites) + 1
    ensures deps.failed == (old(deps.failed) || fail)
    ensures var t := if fail then Apply.Torn(w, junk) else w;
      file.Contents() == Apply.WriteAt(old(file.Contents()), t.offset, t.data)
  {
    fail := deps.TryFail();
    var t := if fail then Apply.Torn(w, junk) else w;
    assert deps !in file.Repr;
    file.WriteAt(t.offset, t.data);
  }

  /** applyUpdates(deps, ...), the apply loop shared by every entry point
      (the free ApplyUpdates is this loop through the production
      dependency, which never faults): each update is resolved, then the
      disk dependency is consulted, then the payload is written in place,
      stopping at the first error. junk is what the disk leaves of a write
      it fails. */
  method ApplyUpdatesWithDeps(deps: Storage.FaultyDisk, file: Storage.FileBuffer, us: seq<Update>, junk: bytes)
    returns (err: Option<Error>, ghost done: nat, ghost torn: seq<Apply.Write>)
    requires file.Valid()
    modifies deps, file.Repr
    ensures file.Valid() && fresh(file.Repr - old(file.Repr))
    ensures ApplyContract(old(file.Contents()), file.Contents(), Resolve(file.path, us), err, done, torn)
    ensures deps.disabled == old(deps.disabled)
    ensures deps.totalWrites == old(deps.totalWrites) +
      (if deps.disabled then 0 else done + (if err == Some(DiskFault) then 1 else 0))
    ensures old(deps.disabled) ==> err != Some(DiskFault)
    ensures !old(deps.failed) && old(deps.totalWrites) + |us| <= deps.writeLimit ==>
      err != Some(DiskFault) && !deps.failed
  {
    ghost var rs := Resolve(file.path, us);
    torn := [];
    var i := 0;
    while i < |us|
      invariant 0 <= i <= |us|
      invariant file.Valid() && fresh(file.Repr - old(file.Repr))
      invariant Collect(rs[..i]).Ok?
      invariant file.Contents() == Apply.ApplyWrites(old(file.Contents()), Collect(rs[..i]).value)
      invariant deps.disabled == old(deps.disabled)
      invariant deps.totalWrites == old(deps.totalWrites) + (if deps.disabled then 0 else i)
      invariant !old(deps.failed) && old(deps.totalWrites) + |us| <= deps.writeLimit ==> !deps.failed
    {
      var w := ToWrite(file.path, us[i]);
      ResolveAt(file.path, us, i);
      if w.Err? {
        StoppedByError(old(file.Contents()), file.Contents(), rs, i);
        return Some(w.error), i, [];
      }
      ghost var mid := file.Contents();
      var fail := WriteThrough(deps, file, w.value, junk);
      if fail {
        ghost var t := Apply.Torn(w.value, junk);
        StoppedByFault(old(file.Contents()), mid, file.Contents(), rs, i, t);
        return Some(DiskFault), i, [t];
      }
      CollectSnoc(rs, i);
      i := i + 1;
    }
    StoppedByError(old(file.Contents()), file.Contents(), rs, i);
    return None, i, [];
  }

  /** The apply contract of a loop that stopped before update i without
      writing it: a success when every update was written, else update i's
      resolution error. */
  lemma StoppedByError(before: bytes, after: bytes, rs: seq<Result<Apply.Write>>, i: nat)
    requires i <= |rs| && Collect(rs[..i]).Ok?
    requires after == Apply.ApplyWrites(before, Collect(rs[..i]).value)
    requires i < |rs| ==> rs[i].Err? && rs[i].error != DiskFault
    ensures i == |rs| ==> ApplyContract(before, after, rs, None, i, [])
    ensures i < |rs| ==> ApplyContract(before, after, rs, Some(rs[i].error), i, [])
  {
    assert Collect(rs[..i]).value + [] == Collect(rs[..i]).value;
  }

  /** The apply contract of a loop whose write of update i, which resolved,
      failed on the disk and left t within its range. */
  lemma StoppedByFault(before: bytes, mid: bytes, after: bytes, rs: seq<Result<Apply.Write>>, i: nat,
                       t: Apply.Write)
    requires i < |rs| && Collect(rs[..i]).Ok? && rs[i].Ok? && Apply.Within(t, rs[i].value)
    requires mid == Apply.ApplyWrites(before, Collect(rs[..i]).value)
    requires after == Apply.WriteAt(mid, t.offset, t.data)
    ensures ApplyContract(before, after, rs, Some(DiskFault), i, [t])
  {
    var C := Collect(rs[..i]).value;
    assert (C + [t])[..|C + [t]| - 1] == C;
  }

  /** A SiaFile: its path, the disk dependency it writes through, its
      write-ahead log, the backing file, and the decoded metadata,
      public-key table and erasure coder. */
  class SiaFile {
    const siaFilePath: bytes
    const deps: Storage.FaultyDisk
    const wal: Storage.WAL
    const file: Storage.FileBuffer
    const metadata: Metadata.Metadata
    const pubKeyTable: seq<PubKeyTable.SiaPublicKey>
    const erasureCode: ErasureCode.RSCode
    ghost var Repr: set<object>

    ghost predicate Valid()
      reads this, Repr
    {
      file in Repr && Repr == {this, deps, wal} + file.Repr &&
      file.Valid() && file.path == siaFilePath
    }

    /** A SiaFile whose backing file is new and empty. */
    constructor (path: bytes, deps: Storage.FaultyDisk, wal: Storage.WAL,
                 md: Metadata.Metadata, table: seq<PubKeyTable.SiaPublicKey>, ec: ErasureCode.RSCode)
      ensures Valid() && fresh(file) && fresh(file.Repr)
      ensures siaFilePath == path && this.deps == deps && this.wal == wal
      ensures file.Contents() == [] && metadata == md && pubKeyTable == table && erasureCode == ec
    {
      siaFilePath := path;
      this.deps := deps;
      this.wal := wal;
      file := new Storage.FileBuffer(path);
      metadata := md;
      pubKeyTable := table;
      erasureCode := ec;
      new;
      Repr := {this, deps, wal} + file.Repr;
    }

    /** createUpdate: an update that writes data at offset index of this
        file; it resolves back to exactly that write. */
    method CreateUpdate(index: int, data: bytes) returns (u: Update)
      requires Encodable(siaFilePath, index, data)
      ensures ToWrite(siaFilePath, u) ==
        if index >= 0 then Ok(Apply.Write(index, data)) else Err(NegativeOffset)
      ensures ReadUpdate(u) == Ok(Insert(siaFilePath, index, data))
    {
      u := Updates.CreateUpdate(siaFilePath, index, data);
      ReadCreateUpdate(siaFilePath, index, data);
      ToWriteCreated(siaFilePath, index, data);
    }

    /** applyUpdates: the shared apply loop through this file's dependency. */
    method ApplyUpdates(us: seq<Update>, junk: bytes) returns (err: Option<Error>, ghost done: nat, ghost torn: seq<Apply.Write>)
      requires Valid()
      modifies Repr
      ensures Valid() && fresh(Repr - old(Repr))
      ensures unchanged(wal)
      ensures ApplyContract(old(file.Contents()), file.Contents(), Resolve(siaFilePath, us), err, done, torn)
      ensures old(deps.disabled) ==> err != Some(DiskFault)
    {
      err, done, torn := ApplyUpdatesWithDeps(deps, file, us, junk);
      Repr := {this, deps, wal} + file.Repr;
    }

    /** createAndApplyTransaction: logs the updates as a new transaction,
        applies them, and signals the transaction applied only if applying
        succeeded. */
    method CreateAndApplyTransaction(us: seq<Update>, junk: bytes)
      returns (err: Option<Error>, ghost done: nat, ghost torn: seq<Apply.Write>)
      requires Valid()
      modifies Repr
      ensures Valid() && fresh(Repr - old(Repr))
      ensures ApplyContract(old(file.Contents()), file.Contents(), Resolve(siaFilePath, us), err, done, torn)
      ensures old(deps.disabled) ==> err != Some(DiskFault)
      ensures wal.txns == old(wal.txns) + [us]
      ensures wal.applied == old(wal.applied) + (if err.None? then {|old(wal.txns)|} else {})
    {
      assert wal !in file.Repr;
      var id := wal.NewTransaction(us);
      assert file.Contents() == old(file.Contents());
      err, done, torn := ApplyUpdatesWithDeps(deps, file, us, junk);
      assert wal !in file.Repr;
      if err.None? {
        wal.SignalUpdatesApplied(id);
      }
      Repr := {this, deps, wal} + file.Repr;
    }
  }

  /** The three entry points under one contract. */
  datatype Entry = FreeApplyUpdates | FileApplyUpdates | FileCreateAndApplyTransaction

  /** Applies a batch through the chosen entry point; whichever it is, the
      result meets ApplyContract. The free ApplyUpdates goes through the
      production dependency, a disk that never faults, so it never reports
      a disk fault. */
  method ApplyVia(entry: Entry, sf: SiaFile, us: seq<Update>, junk: bytes)
    returns (err: Option<Error>, ghost done: nat, ghost torn: seq<Apply.Write>)
    requires sf.Valid()
    modifies sf.Repr
    ensures sf.Valid() && fresh(sf.Repr - old(sf.Repr))
    ensures ApplyContract(old(sf.file.Contents()), sf.file.Contents(), Resolve(sf.siaFilePath, us), err, done, torn)
    ensures old(sf.deps.disabled) || entry == FreeApplyUpdates ==> err != Some(DiskFault)
  {
    match entry
    case FreeApplyUpdates =>
      var prod := new Storage.FaultyDisk(0);
      prod.Disable();
      err, done, torn := ApplyUpdatesWithDeps(prod, sf.file, us, junk);
      sf.Repr := {sf, sf.deps, sf.wal} + sf.file.Repr;
    case FileApplyUpdates =>
      err, done, torn := sf.ApplyUpdates(us, junk);
    case FileCreateAndApplyTransaction =>
      err, done, torn := sf.CreateAndApplyTransaction(us, junk);
  }

  /** What ApplyContract means for one createUpdate update applied to an
      empty file without a disk fault: a non-empty payload lands at index
      after zeros, and an empty one leaves the file empty. */
  lemma OneUpdateOnEmptyFile(after: bytes, path: bytes, u: Update, index: nat, data: bytes,
                             err: Option<Error>, done: nat, torn: seq<Apply.Write>)
    requires ToWrite(path, u) == Ok(Apply.Write(index, data))
    requires ApplyContract([], after, Resolve(path, [u]), err, done, torn) && err != Some(DiskFault)
    ensures err == None
    ensures data != [] ==>
      |after| == index + |data| && after[index..index + |data|] == data && after[..index] == Zeros(index)
    ensures data == [] ==> after == []
  {
    ResolveAt(path, [u], 0);
    ApplyContractSuccess([], after, path, [u], done, torn);
    WritesOfSingle(path, u);
    Apply.FreshFileApply(index, data);
  }

  /** A new, empty SiaFile at path on a disk whose faults are switched off. */
  method NewScratchFile(path: bytes, md: Metadata.Metadata) returns (sf: SiaFile)
    ensures sf.Valid() && sf.siaFilePath == path && sf.file.Contents() == [] && sf.deps.disabled
    ensures fresh(sf.Repr)
  {
    var deps := new Storage.FaultyDisk(0);
    deps.Disable();
    var wal := new Storage.WAL();
    sf := new SiaFile(path, deps, wal, md, [], ErasureCode.NewRSCode(10, 20));
  }

  /** A new SiaFile at path, on a disk whose faults are switched off,
      with one update at offset index with payload data applied through
      entry: a non-empty payload lands at index after zeros, and an empty
      one leaves the file empty. */
  method ApplyOnFreshFile(entry: Entry, path: bytes, index: nat, data: bytes, md: Metadata.Metadata)
    returns (err: Option<Error>, file: Storage.FileBuffer)
    requires Encodable(path, index, data)
    ensures file.Valid() && err == None
    ensures var c := file.Contents();
      data != [] ==> |c| == index + |data| && c[index..index + |data|] == data && c[..index] == Zeros(index)
    ensures data == [] ==> file.Contents() == []
  {
    var sf := NewScratchFile(path, md);
    var u := sf.CreateUpdate(index, data);
    ghost var done, torn;
    err, done, torn := ApplyVia(entry, sf, [u], []);
    OneUpdateOnEmptyFile(sf.file.Contents(), path, u, index, data, err, done, torn);
    file := sf.file;
  }

  /** The apply contract on a fresh file: one update at offset index with
      payload data succeeds and leaves a file of exactly index + |data|
      bytes holding data at [index, index + |data|) and zeros before index,
      whichever entry point applies it. The test's payload is always 100
      random bytes, never empty. */
  method TestApply(entry: Entry, path: bytes, index: nat, data: bytes, md: Metadata.Metadata)
    returns (err: Option<Error>, size: nat, written: bytes, before: bytes)
    requires Encodable(path, index, data) && data != []
    ensures err == None && size == index + |data|
    ensures written == data && before == Zeros(index)
  {
    var file;
    err, file := ApplyOnFreshFile(entry, path, index, data, md);
    size := file.size;
    written := file.ReadAt(index, |data|);
    assert written == file.Contents()[index..index + |data|];
    before := file.ReadAt(0, index);
    assert before == file.Contents()[..index];
  }
}
