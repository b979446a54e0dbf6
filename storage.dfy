/** The stateful collaborators of the apply engine: the backing file as a
    growable byte buffer, the fault-injecting disk dependency, and the
    write-ahead log seen as a list of logged transactions plus the set of
    those signalled as applied. */
module Storage {
  import opened Bytes
  import Apply
  import Updates

  /** The on-disk SiaFile: a byte buffer whose first `size` bytes are the
      file's contents. Writes past the end zero-extend it. */
  class FileBuffer {
    const path: bytes
    var buf: array<byte>
    var size: nat
    ghost var Repr: set<object>

    ghost predicate Valid()
      reads this, Repr
    {
      Repr == {this, buf} && size <= buf.Length
    }

    /** The bytes of the file. */
    ghost function Contents(): bytes
      reads this, Repr
      requires Valid()
    {
      buf[..size]
    }

    /** A new, empty file at path. */
    constructor (path: bytes)
      ensures Valid() && fresh(Repr)
      ensures this.path == path && Contents() == []
    {
      this.path := path;
      buf := new byte[0];
      size := 0;
      Repr := {this, buf};
    }

    /** ReadAt: the n bytes of the file starting at off. */
    method ReadAt(off: nat, n: nat) returns (r: bytes)
      requires Valid() && off + n <= size
      ensures |r| == n && forall i | 0 <= i < n :: r[i] == Contents()[off + i]
    {
      r := buf[off..off + n];
    }

    /** Grows the buffer so that it can hold n bytes, keeping the contents. */
    method Reserve(n: nat)
      requires Valid()
      modifies Repr
      ensures Valid() && fresh(Repr - old(Repr))
      ensures n <= buf.Length && size == old(size) && Contents() == old(Contents())
    {
      if n > buf.Length {
        var grown := new byte[n];
        var k := 0;
        while k < size
          modifies grown
          invariant 0 <= k <= size <= buf.Length < grown.Length
          invariant grown[..k] == buf[..k]
        {
          grown[k] := buf[k];
          k := k + 1;
        }
        buf := grown;
        Repr := {this, buf};
      }
    }

    /** WriteAt: writes data at offset off in place, growing the buffer when
        the write reaches past its capacity and zero-filling any gap between
        the old end of the file and off. Like os.File.WriteAt, an empty
        write touches nothing. */
    method WriteAt(off: nat, data: bytes)
      requires Valid()
      modifies Repr
      ensures Valid() && fresh(Repr - old(Repr))
      ensures Contents() == Apply.WriteAt(old(Contents()), off, data)
    {
      if data == [] {
        return;
      }
      ghost var before := Contents();
      var end := off + |data|;
      Reserve(end);
      // zero-fill the gap between the old end of the file and the offset
      var i := size;
      while i < off
        modifies buf
        invariant size <= i <= buf.Length && end <= buf.Length
        invariant forall p | 0 <= p < i :: buf[p] == Apply.Base(before, p)
      {
        buf[i] := 0;
        i := i + 1;
      }
      // write the payload
      var j := 0;
      while j < |data|
        modifies buf
        invariant 0 <= j <= |data| && i <= buf.Length && end <= buf.Length
        invariant forall p | 0 <= p < i && !(off <= p < off + j) :: buf[p] == Apply.Base(before, p)
        invariant forall p | off <= p < off + j :: buf[p] == data[p - off]
      {
        buf[off + j] := data[j];
        j := j + 1;
      }
      if end > size {
        size := end;
      }
      ghost var expected := Apply.WriteAt(before, off, data);
      assert |Contents()| == |expected|;
      forall p | 0 <= p < size ensures Contents()[p] == expected[p] {
      }
    }
  }

  /** The fault-injecting disk dependency: once enabled, it counts writes and
      fails every write after the first writeLimit until it is reset. */
  class FaultyDisk {
    const writeLimit: nat
    var totalWrites: nat
    var disabled: bool
    var failed: bool

    /** newFaultyDiskDependency(limit): enabled, healthy, no writes yet. */
    constructor (limit: nat)
      ensures writeLimit == limit && totalWrites == 0 && !disabled && !failed
    {
      writeLimit := limit;
      totalWrites := 0;
      disabled := false;
      failed := false;
    }

    /** disable: stop counting and never fail. */
    method Disable()
      modifies this
      ensures disabled && totalWrites == old(totalWrites) && failed == old(failed)
    {
      disabled := true;
    }

    /** enable: resume counting and failing. */
    method Enable()
      modifies this
      ensures !disabled && totalWrites == old(totalWrites) && failed == old(failed)
    {
      disabled := false;
    }

    /** reset: the drive is repaired; the write count starts over. */
    method Reset()
      modifies this
      ensures !failed && totalWrites == 0 && disabled == old(disabled)
    {
      failed := false;
      totalWrites := 0;
    }

    /** tryFail: called before every write; true means the write fails with
        a disk fault. */
    method TryFail() returns (fail: bool)
      modifies this
      ensures disabled == old(disabled)
      ensures fail == (!disabled && (old(failed) || old(totalWrites) >= writeLimit))
      ensures totalWrites == if disabled then old(totalWrites) else old(totalWrites) + 1
      ensures failed == (old(failed) || fail)
    {
      if disabled {
        return false;
      }
      totalWrites := totalWrites + 1;
      if totalWrites > writeLimit {
        failed := true;
      }
      fail := failed;
    }
  }

  /** The indices i in [from, n) not in applied, in increasing order. */
  function Unapplied(from: nat, n: nat, applied: set<nat>): (r: seq<nat>)
    requires from <= n
    ensures forall j | 0 <= j < |r| :: from <= r[j] < n && r[j] !in applied
    decreases n - from
  {
    if from == n then []
    else if from in applied then Unapplied(from + 1, n, applied)
    else [from] + Unapplied(from + 1, n, applied)
  }

  /** Nothing is lost: every index in [from, n) not in applied is listed. */
  lemma {:induction false} UnappliedComplete(from: nat, n: nat, applied: set<nat>, i: nat)
    requires from <= i < n && i !in applied
    ensures i in Unapplied(from, n, applied)
    decreases n - from
  {
    if from < i {
      UnappliedComplete(from + 1, n, applied, i);
    }
  }

  /** The indices listed in s. */
  function Elems(s: seq<nat>): set<nat>
  {
    if s == [] then {} else Elems(s[..|s| - 1]) + {s[|s| - 1]}
  }

  lemma {:induction false} ElemsMember(s: seq<nat>)
    ensures forall x :: x in Elems(s) <==> x in s
  {
    if s != [] {
      ElemsMember(s[..|s| - 1]);
      assert s == s[..|s| - 1] + [s[|s| - 1]];
    }
  }

  /** Signalling s[k] after s[..k] have been signalled, in order. */
  lemma SignalNext(s: seq<nat>, k: nat, applied: set<nat>, signalled: seq<nat>)
    requires k < |s|
    ensures (applied + Elems(s[..k])) + {s[k]} == applied + Elems(s[..k + 1])
    ensures (signalled + s[..k]) + [s[k]] == signalled + s[..k + 1]
  {
    assert s[..k + 1][..k] == s[..k];
    assert s[..k + 1] == s[..k] + [s[k]];
  }

  /** Marking indices below `from` as applied does not change what is
      unapplied from `from` on. */
  lemma {:induction false} UnappliedIgnoresBelow(from: nat, n: nat, applied: set<nat>, extra: set<nat>)
    requires from <= n && forall x | x in extra :: x < from
    ensures Unapplied(from, n, applied + extra) == Unapplied(from, n, applied)
    decreases n - from
  {
    if from < n {
      UnappliedIgnoresBelow(from + 1, n, applied, extra);
    }
  }

  /** Signalling the first k unapplied transactions, in order, leaves the
      rest of them unapplied, still in log order. */
  lemma {:induction false} UnappliedAfterSignal(from: nat, n: nat, applied: set<nat>, k: nat)
    requires from <= n && k <= |Unapplied(from, n, applied)|
    ensures var u := Unapplied(from, n, applied);
      Unapplied(from, n, applied + Elems(u[..k])) == u[k..]
    decreases n - from
  {
    var u := Unapplied(from, n, applied);
    if from < n {
      var rest := Unapplied(from + 1, n, applied);
      if from in applied {
        assert u == rest;
        UnappliedAfterSignal(from + 1, n, applied, k);
      } else if k == 0 {
        assert applied + Elems(u[..k]) == applied;
      } else {
        var signalled := applied + Elems(rest[..k - 1]);
        UnappliedAfterSignal(from + 1, n, applied, k - 1);
        assert applied + Elems(u[..k]) == signalled + {from} by {
          assert u[..k] == [from] + rest[..k - 1];
          ElemsMember(u[..k]);
          ElemsMember(rest[..k - 1]);
        }
        UnappliedIgnoresBelow(from + 1, n, signalled, {from});
      }
    }
  }


  /** The write-ahead log: every transaction logged, in order, and the
      indices of those whose updates were signalled as applied. */
  class WAL {
    var txns: seq<seq<Updates.Update>>
    var applied: set<nat>
    /** The order in which transactions were signalled. */
    ghost var signalled: seq<nat>

    constructor ()
      ensures txns == [] && applied == {} && signalled == []
    {
      txns := [];
      applied := {};
      signalled := [];
    }

    /** NewTransaction: durably appends a transaction before any of its
        updates touches the file. */
    method NewTransaction(us: seq<Updates.Update>) returns (id: nat)
      modifies this
      ensures txns == old(txns) + [us] && id == |old(txns)|
      ensures applied == old(applied) && signalled == old(signalled)
    {
      id := |txns|;
      txns := txns + [us];
    }

    /** SignalUpdatesApplied: marks transaction id complete. */
    method SignalUpdatesApplied(id: nat)
      requires id < |txns|
      modifies this
      ensures txns == old(txns)
      ensures applied == old(applied) + {id} && signalled == old(signalled) + [id]
    {
      applied := applied + {id};
      signalled := signalled + [id];
    }

    /** CloseIncomplete followed by writeaheadlog.New: the transactions
        logged but not signalled, in log order. */
    method Reopen() returns (pending: seq<nat>)
      ensures pending == Unapplied(0, |txns|, applied)
    {
      pending := [];
      var i := |txns|;
      while i > 0
        invariant 0 <= i <= |txns|
        invariant pending == Unapplied(i, |txns|, applied)
      {
        i := i - 1;
        if i !in applied {
          pending := [i] + pending;
        }
      }
    }
  }
}
