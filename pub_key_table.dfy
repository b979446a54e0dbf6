/** The SiaFile public-key table: an append-only, index-addressed list of
    host keys, and its binary codec (entry count, then each entry's 16-byte
    algorithm specifier followed by its length-prefixed key). */
module PubKeyTable {
  import opened Errors
  import opened Bytes

  const SpecifierSize: nat := 16

  /** types.SiaPublicKey: an algorithm specifier and opaque key bytes. */
  datatype SiaPublicKey = SiaPublicKey(algorithm: bytes, key: bytes)

  predicate WellFormedKey(k: SiaPublicKey) {
    |k.algorithm| == SpecifierSize && IsU64(|k.key|)
  }

  predicate WellFormedTable(t: seq<SiaPublicKey>) {
    IsU64(|t|) && forall i | 0 <= i < |t| :: WellFormedKey(t[i])
  }

  function MarshalKey(k: SiaPublicKey): (r: bytes)
    requires WellFormedKey(k)
    ensures |r| == SpecifierSize + 8 + |k.key|
  {
    k.algorithm + EncodeBytes(k.key)
  }

  function UnmarshalKey(s: bytes): (r: Result<Parsed<SiaPublicKey>>)
    ensures r.Ok? ==> WellFormedKey(r.value.value) && |r.value.rest| < |s|
    ensures r.Err? ==> r.error == Truncated
  {
    var algorithm :- Take(s, SpecifierSize);
    var key :- DecodeBytes(algorithm.rest);
    Ok(Parsed(SiaPublicKey(algorithm.value, key.value), key.rest))
  }

  lemma UnmarshalMarshalKey(k: SiaPublicKey, rest: bytes)
    requires WellFormedKey(k)
    ensures UnmarshalKey(MarshalKey(k) + rest) == Ok(Parsed(k, rest))
  {
    assert MarshalKey(k) + rest == k.algorithm + (EncodeBytes(k.key) + rest);
    TakeAppend(k.algorithm, EncodeBytes(k.key) + rest);
    DecodeBytesEncode(k.key, rest);
  }

  function MarshalEntries(t: seq<SiaPublicKey>): (r: bytes)
    requires forall i | 0 <= i < |t| :: WellFormedKey(t[i])
  {
    if t == [] then [] else MarshalKey(t[0]) + MarshalEntries(t[1..])
  }

  /** marshalPubKeyTable: the entry count followed by the entries in order. */
  function MarshalPubKeyTable(t: seq<SiaPublicKey>): (r: bytes)
    requires WellFormedTable(t)
  {
    EncodeU64(|t|) + MarshalEntries(t)
  }

  /** Reads exactly `count` entries. */
  function UnmarshalEntries(s: bytes, count: nat): (r: Result<Parsed<seq<SiaPublicKey>>>)
    ensures r.Ok? ==> |r.value.value| == count
    ensures r.Ok? ==> forall i | 0 <= i < count :: WellFormedKey(r.value.value[i])
    ensures r.Err? ==> r.error == Truncated
    decreases count
  {
    if count == 0 then Ok(Parsed([], s)) else
    var first :- UnmarshalKey(s);
    var others :- UnmarshalEntries(first.rest, count - 1);
    Ok(Parsed([first.value] + others.value, others.rest))
  }

  /** unmarshalPubKeyTable: the declared number of entries and nothing else;
      fewer entries than declared, or bytes left over, is Truncated. */
  function UnmarshalPubKeyTable(s: bytes): (r: Result<seq<SiaPublicKey>>)
    ensures r.Ok? ==> WellFormedTable(r.value)
    ensures r.Err? ==> r.error == Truncated
  {
    var count :- DecodeU64(s);
    var entries :- UnmarshalEntries(count.rest, count.value);
    if entries.rest != [] then Err(Truncated) else Ok(entries.value)
  }

  /** One step of UnmarshalEntries: a key followed by count - 1 more. */
  lemma UnmarshalEntriesStep(s: bytes, count: nat, k: SiaPublicKey, r1: bytes, ks: seq<SiaPublicKey>, r2: bytes)
    requires count > 0
    requires UnmarshalKey(s) == Ok(Parsed(k, r1))
    requires UnmarshalEntries(r1, count - 1) == Ok(Parsed(ks, r2))
    ensures UnmarshalEntries(s, count) == Ok(Parsed([k] + ks, r2))
  {
  }

  lemma {:induction false} UnmarshalMarshalEntries(t: seq<SiaPublicKey>, rest: bytes)
    requires forall i | 0 <= i < |t| :: WellFormedKey(t[i])
    ensures UnmarshalEntries(MarshalEntries(t) + rest, |t|) == Ok(Parsed(t, rest))
    decreases |t|
  {
    if t != [] {
      var tail := MarshalEntries(t[1..]) + rest;
      assert MarshalEntries(t) + rest == MarshalKey(t[0]) + tail;
      UnmarshalMarshalKey(t[0], tail);
      UnmarshalMarshalEntries(t[1..], rest);
      UnmarshalEntriesStep(MarshalEntries(t) + rest, |t|, t[0], tail, t[1..], rest);
      assert [t[0]] + t[1..] == t;
    } else {
      assert MarshalEntries(t) + rest == rest;
    }
  }

  /** Round trip: same length, and the same algorithm and key bytes at every
      position, in the same order. */
  lemma UnmarshalMarshalPubKeyTable(t: seq<SiaPublicKey>)
    requires WellFormedTable(t)
    ensures UnmarshalPubKeyTable(MarshalPubKeyTable(t)).Ok?
    ensures var u := UnmarshalPubKeyTable(MarshalPubKeyTable(t)).value;
      |u| == |t| &&
      forall i | 0 <= i < |t| :: u[i].algorithm == t[i].algorithm && u[i].key == t[i].key
  {
    DecodeU64Encode(|t|, MarshalEntries(t));
    UnmarshalMarshalEntries(t, []);
    assert MarshalEntries(t) + [] == MarshalEntries(t);
  }

  /** A declared count larger than the entries present is refused. */
  lemma {:induction false} UnmarshalEntriesTooFew(t: seq<SiaPublicKey>, count: nat)
    requires forall i | 0 <= i < |t| :: WellFormedKey(t[i])
    requires count > |t|
    ensures UnmarshalEntries(MarshalEntries(t), count).Err?
    decreases |t|
  {
    if t == [] {
      NoEntriesInEmpty(count);
    } else {
      UnmarshalEntriesTooFew(t[1..], count - 1);
      TooFewStep(t, count);
    }
  }

  /** If the entries after the first run out, so do all of them. */
  lemma TooFewStep(t: seq<SiaPublicKey>, count: nat)
    requires forall i | 0 <= i < |t| :: WellFormedKey(t[i])
    requires t != [] && count > |t|
    requires UnmarshalEntries(MarshalEntries(t[1..]), count - 1).Err?
    ensures UnmarshalEntries(MarshalEntries(t), count).Err?
  {
    var s, tail := MarshalEntries(t), MarshalEntries(t[1..]);
    assert s == MarshalKey(t[0]) + tail;
    UnmarshalMarshalKey(t[0], tail);
    UnmarshalEntriesStepErr(s, count, t[0], tail);
  }

  /** No entry can be read from no bytes. */
  lemma NoEntriesInEmpty(count: nat)
    requires count > 0
    ensures UnmarshalEntries([], count).Err?
  {
    assert UnmarshalKey([]).Err?;
  }

  /** A key followed by too few further entries is refused. */
  lemma UnmarshalEntriesStepErr(s: bytes, count: nat, k: SiaPublicKey, r1: bytes)
    requires count > 0
    requires UnmarshalKey(s) == Ok(Parsed(k, r1))
    requires UnmarshalEntries(r1, count - 1).Err?
    ensures UnmarshalEntries(s, count).Err?
  {
  }

  /** Appends host keys one at a time, as the table grows when pieces are
      added: existing entries keep their index, new ones follow in order. */
  method AppendKeys(table: seq<SiaPublicKey>, keys: seq<SiaPublicKey>) returns (t: seq<SiaPublicKey>)
    ensures |t| == |table| + |keys|
    ensures t[..|table|] == table
    ensures forall i | 0 <= i < |keys| :: t[|table| + i] == keys[i]
  {
    t := table;
    for i := 0 to |keys|
      invariant |t| == |table| + i
      invariant t[..|table|] == table
      invariant forall j | 0 <= j < i :: t[|table| + j] == keys[j]
    {
      t := t + [keys[i]];
    }
  }
}
