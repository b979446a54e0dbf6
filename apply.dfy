/** The meaning of applying update records to a file, as pure functions on
    byte sequences: a single write zero-extends the file and overwrites only
    its own range; a sequence of writes is applied in order. The central
    result is that replaying writes already contained in a sequence and then
    replaying the whole sequence gives the same bytes as replaying it once,
    which is what makes repeated, partially failed recoveries safe. */
module Apply {
  import opened Bytes

  /** A decoded update: payload bytes to be written at a non-negative offset. */
  datatype Write = Write(offset: nat, data: bytes)

  function End(w: Write): nat { w.offset + |w.data| }

  predicate Covers(w: Write, i: int) { w.offset <= i < End(w) }

  function Max(a: int, b: int): int { if a < b then b else a }

  /** The byte at position i of an unwritten file region: the file's own byte,
      or zero past its end. */
  function Base(f: bytes, i: nat): byte { if i < |f| then f[i] else 0 }

  /** How far a write extends the file: an empty write writes nothing and
      extends nothing, wherever its offset. */
  function Reach(w: Write): nat { if w.data == [] then 0 else End(w) }

  /** WriteAt: the file after writing data at offset off. A non-empty write
      zero-extends the file up to its end; an empty one leaves the file as
      it was. */
  function WriteAt(f: bytes, off: nat, data: bytes): (r: bytes)
    ensures |r| == Max(|f|, Reach(Write(off, data)))
    ensures forall i | 0 <= i < |r| ::
      r[i] == if off <= i < off + |data| then data[i - off] else Base(f, i)
  {
    if data == [] then f else
    var padded := if off > |f| then f + Zeros(off - |f|) else f;
    var tail := if off + |data| < |padded| then padded[off + |data|..] else [];
    padded[..off] + data + tail
  }

  /** The writes applied one after another, in order. */
  function ApplyWrites(f: bytes, ws: seq<Write>): bytes
  {
    if ws == [] then f
    else
      var w := ws[|ws| - 1];
      WriteAt(ApplyWrites(f, ws[..|ws| - 1]), w.offset, w.data)
  }

  /** The furthest reach of any write (0 for none). */
  function MaxEnd(ws: seq<Write>): nat
  {
    if ws == [] then 0 else Max(MaxEnd(ws[..|ws| - 1]), Reach(ws[|ws| - 1]))
  }

  /** The byte at position i after the writes: that of the last write
      covering i, or the base byte if none does. */
  function ValueAt(f: bytes, ws: seq<Write>, i: nat): byte
  {
    if ws == [] then Base(f, i)
    else
      var w := ws[|ws| - 1];
      if Covers(w, i) then w.data[i - w.offset] else ValueAt(f, ws[..|ws| - 1], i)
  }

  predicate CoveredBy(ws: seq<Write>, i: int) {
    exists w | w in ws :: Covers(w, i)
  }

  /** Characterisation: the result is exactly as long as the file or the
      furthest write, and each byte is the last write's byte covering it. */
  lemma {:induction false} ApplyWritesAt(f: bytes, ws: seq<Write>)
    ensures |ApplyWrites(f, ws)| == Max(|f|, MaxEnd(ws))
    ensures forall i | 0 <= i < |ApplyWrites(f, ws)| :: ApplyWrites(f, ws)[i] == ValueAt(f, ws, i)
    ensures forall i: nat | i >= |ApplyWrites(f, ws)| :: ValueAt(f, ws, i) == 0
    decreases |ws|
  {
    if ws != [] {
      var init := ws[..|ws| - 1];
      var w := ws[|ws| - 1];
      ApplyWritesAt(f, init);
      var prev := ApplyWrites(f, init);
      var r := ApplyWrites(f, ws);
      assert r == WriteAt(prev, w.offset, w.data);
      forall i | 0 <= i < |r| ensures r[i] == ValueAt(f, ws, i) {
        if !Covers(w, i) && i >= |prev| {
          assert ValueAt(f, init, i) == 0;
        }
      }
    }
  }

  lemma {:induction false} MaxEndBound(ws: seq<Write>, w: Write)
    requires w in ws
    ensures Reach(w) <= MaxEnd(ws)
    decreases |ws|
  {
    if ws[|ws| - 1] != w {
      assert w in ws[..|ws| - 1];
      MaxEndBound(ws[..|ws| - 1], w);
    }
  }

  /** v lies within w: it starts no earlier and ends no later. */
  predicate Within(v: Write, w: Write) { w.offset <= v.offset && End(v) <= End(w) }

  /** v lies within one of the writes of S. */
  predicate InsideSome(v: Write, S: seq<Write>) { exists s | s in S :: Within(v, s) }

  /** What a disk fault leaves of the write w: the bytes junk, cut to w's
      length, over the start of w's range. An empty junk is a write that
      never reached the disk, a short one a torn write, and any junk at all
      a garbled one. */
  function Torn(w: Write, junk: bytes): (t: Write)
    ensures Within(t, w) && t.offset == w.offset && |t.data| <= |w.data|
    ensures |junk| <= |w.data| ==> t.data == junk
  {
    Write(w.offset, if |junk| <= |w.data| then junk else junk[..|w.data|])
  }

  lemma {:induction false} MaxEndInside(P: seq<Write>, S: seq<Write>)
    requires forall w | w in P :: InsideSome(w, S)
    ensures MaxEnd(P) <= MaxEnd(S)
    decreases |P|
  {
    if P != [] {
      assert P[|P| - 1] in P;
      var s :| s in S && Within(P[|P| - 1], s);
      MaxEndBound(S, s);
      forall w | w in P[..|P| - 1] ensures InsideSome(w, S) { assert w in P; }
      MaxEndInside(P[..|P| - 1], S);
    }
  }

  /** Where no write lands, the base byte shows through. */
  lemma {:induction false} ValueAtUncovered(f: bytes, ws: seq<Write>, i: nat)
    requires !CoveredBy(ws, i)
    ensures ValueAt(f, ws, i) == Base(f, i)
    decreases |ws|
  {
    if ws != [] {
      assert ws[|ws| - 1] in ws;
      forall w | w in ws[..|ws| - 1] ensures !Covers(w, i) { assert w in ws; }
      ValueAtUncovered(f, ws[..|ws| - 1], i);
    }
  }

  /** Where some write lands, the starting contents do not matter. */
  lemma {:induction false} ValueAtCovered(f: bytes, g: bytes, ws: seq<Write>, i: nat)
    requires CoveredBy(ws, i)
    ensures ValueAt(f, ws, i) == ValueAt(g, ws, i)
    decreases |ws|
  {
    var w := ws[|ws| - 1];
    if !Covers(w, i) {
      var v :| v in ws && Covers(v, i);
      assert v in ws[..|ws| - 1] by {
        var k :| 0 <= k < |ws| && ws[k] == v;
        assert k < |ws| - 1;
      }
      ValueAtCovered(f, g, ws[..|ws| - 1], i);
    }
  }

  /** Re-apply idempotence: if every write of P lies within some write of
      S (a write S repeats, or one a disk fault tore or garbled), applying P
      and then S gives the same bytes as applying S alone. */
  lemma ReplayAbsorbs(f: bytes, P: seq<Write>, S: seq<Write>)
    requires forall w | w in P :: InsideSome(w, S)
    ensures ApplyWrites(ApplyWrites(f, P), S) == ApplyWrites(f, S)
  {
    var g := ApplyWrites(f, P);
    ApplyWritesAt(f, P);
    ApplyWritesAt(g, S);
    ApplyWritesAt(f, S);
    MaxEndInside(P, S);
    var lhs := ApplyWrites(g, S);
    var rhs := ApplyWrites(f, S);
    assert |lhs| == |rhs|;
    forall i | 0 <= i < |lhs| ensures lhs[i] == rhs[i] {
      if CoveredBy(S, i) {
        ValueAtCovered(g, f, S, i);
      } else {
        ValueAtUncovered(g, S, i);
        ValueAtUncovered(f, S, i);
        if i < |g| {
          forall w | w in P ensures !Covers(w, i) {
            var s :| s in S && Within(w, s);
          }
          ValueAtUncovered(f, P, i);
        }
      }
    }
  }

  /** Applying a concatenation is applying its parts in turn. */
  lemma {:induction false} ApplyWritesConcat(f: bytes, A: seq<Write>, B: seq<Write>)
    ensures ApplyWrites(f, A + B) == ApplyWrites(ApplyWrites(f, A), B)
    decreases |B|
  {
    if B == [] {
      assert A + B == A;
    } else {
      assert (A + B)[..|A + B| - 1] == A + B[..|B| - 1];
      ApplyWritesConcat(f, A, B[..|B| - 1]);
    }
  }

  /** Replaying a prefix of a write sequence and then the whole sequence
      gives the same bytes as one clean replay. */
  lemma ReplayPrefixThenAll(f: bytes, S: seq<Write>, k: nat)
    requires k <= |S|
    ensures ApplyWrites(ApplyWrites(f, S[..k]), S) == ApplyWrites(f, S)
  {
    forall w | w in S[..k] ensures InsideSome(w, S) {
      var j :| 0 <= j < k && S[..k][j] == w;
      assert S[j] == w && Within(w, S[j]);
    }
    ReplayAbsorbs(f, S[..k], S);
  }

  /** Resuming: after the writes A are done and writes P lying within the
      remaining writes B have been applied, applying B gives the clean
      result of A + B. */
  lemma ResumeAfterPartial(f: bytes, A: seq<Write>, P: seq<Write>, B: seq<Write>)
    requires forall w | w in P :: InsideSome(w, B)
    ensures ApplyWrites(ApplyWrites(ApplyWrites(f, A), P), B) == ApplyWrites(f, A + B)
  {
    ReplayAbsorbs(ApplyWrites(f, A), P, B);
    ApplyWritesConcat(f, A, B);
  }

  /** The contract testApply checks of every apply entry point: on a fresh
      (empty) file, one update at offset i with a non-empty payload d leaves
      a file of exactly i + |d| bytes, d at [i, i + |d|) and zeros before i;
      an empty payload leaves the file empty. */
  lemma FreshFileApply(i: nat, d: bytes)
    ensures var r := ApplyWrites([], [Write(i, d)]);
      d != [] ==> |r| == i + |d| && r[i..i + |d|] == d && r[..i] == Zeros(i)
    ensures d == [] ==> ApplyWrites([], [Write(i, d)]) == []
  {
    var ws := [Write(i, d)];
    assert ws[..|ws| - 1] == [];
    assert ApplyWrites([], ws[..|ws| - 1]) == [];
    var r := ApplyWrites([], ws);
    assert r == WriteAt([], i, d);
    if d != [] {
      assert r[i..i + |d|] == d;
      assert r[..i] == Zeros(i);
    }
  }
}
