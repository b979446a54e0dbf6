/** Byte strings and the binary field encodings used by the on-disk formats:
    fixed-width little-endian integers, two's-complement int64 and
    length-prefixed byte strings. Every decoder returns the value it read
    together with the bytes that follow it. */
module Bytes {
  import opened Errors

  type byte = x: int | 0 <= x < 256
  type bytes = seq<byte>

  const TWO_64: int := 0x1_0000_0000_0000_0000
  const TWO_63: int := 0x8000_0000_0000_0000
  const TWO_32: int := 0x1_0000_0000

  /** A decoded value and the unread remainder of the input. */
  datatype Parsed<+T> = Parsed(value: T, rest: bytes)

  predicate IsU64(x: int) { 0 <= x < TWO_64 }
  predicate IsI64(x: int) { -TWO_63 <= x < TWO_63 }
  predicate IsU32(x: int) { 0 <= x < TWO_32 }

  /** n zero bytes. */
  function Zeros(n: nat): (r: bytes)
    ensures |r| == n && forall i | 0 <= i < n :: r[i] == 0
  {
    seq(n, _ => 0)
  }

  function Pow256(n: nat): (r: nat)
    ensures r > 0
  {
    if n == 0 then 1 else 256 * Pow256(n - 1)
  }

  /** The n-byte little-endian representation of x (truncated if x does not fit). */
  function EncodeLE(x: nat, n: nat): (r: bytes)
    ensures |r| == n
  {
    if n == 0 then [] else [(x % 256) as byte] + EncodeLE(x / 256, n - 1)
  }

  /** The number whose little-endian representation is s. */
  function DecodeLE(s: bytes): (r: nat)
    ensures r < Pow256(|s|)
  {
    if s == [] then 0 else s[0] + 256 * DecodeLE(s[1..])
  }

  lemma {:induction false} DecodeEncodeLE(x: nat, n: nat)
    requires x < Pow256(n)
    ensures DecodeLE(EncodeLE(x, n)) == x
  {
    if n > 0 {
      DecodeEncodeLE(x / 256, n - 1);
      assert EncodeLE(x, n)[1..] == EncodeLE(x / 256, n - 1);
    }
  }

  lemma Pow256Values()
    ensures Pow256(4) == TWO_32 && Pow256(8) == TWO_64
  {
    assert Pow256(4) == 0x1_0000_0000;
    assert Pow256(8) == 0x1_0000_0000_0000_0000;
  }

  // ---- fixed-width fields ----

  function EncodeU64(x: int): (r: bytes)
    requires IsU64(x)
    ensures |r| == 8
  {
    EncodeLE(x, 8)
  }

  function EncodeU32(x: int): (r: bytes)
    requires IsU32(x)
    ensures |r| == 4
  {
    EncodeLE(x, 4)
  }

  /** Two's-complement encoding of a signed 64-bit integer. */
  function EncodeI64(x: int): (r: bytes)
    requires IsI64(x)
    ensures |r| == 8
  {
    EncodeLE(if x < 0 then x + TWO_64 else x, 8)
  }

  /** The first n bytes of s, raw. */
  function Take(s: bytes, n: nat): (r: Result<Parsed<bytes>>)
    ensures r.Ok? <==> n <= |s|
    ensures r.Ok? ==> r.value.value + r.value.rest == s && |r.value.value| == n
    ensures r.Err? ==> r.error == Truncated
  {
    if |s| < n then Err(Truncated) else Ok(Parsed(s[..n], s[n..]))
  }

  function DecodeU64(s: bytes): (r: Result<Parsed<int>>)
    ensures r.Ok? ==> IsU64(r.value.value) && |r.value.rest| == |s| - 8
    ensures r.Err? ==> r.error == Truncated
  {
    var p :- Take(s, 8);
    Pow256Values();
    Ok(Parsed(DecodeLE(p.value), p.rest))
  }

  function DecodeU32(s: bytes): (r: Result<Parsed<int>>)
    ensures r.Ok? ==> IsU32(r.value.value) && |r.value.rest| == |s| - 4
    ensures r.Err? ==> r.error == Truncated
  {
    var p :- Take(s, 4);
    Pow256Values();
    Ok(Parsed(DecodeLE(p.value), p.rest))
  }

  function DecodeI64(s: bytes): (r: Result<Parsed<int>>)
    ensures r.Ok? ==> IsI64(r.value.value) && |r.value.rest| == |s| - 8
    ensures r.Err? ==> r.error == Truncated
  {
    var p :- DecodeU64(s);
    var u := p.value;
    Ok(Parsed(if u >= TWO_63 then u - TWO_64 else u, p.rest))
  }

  lemma TakeAppend(a: bytes, rest: bytes)
    ensures Take(a + rest, |a|) == Ok(Parsed(a, rest))
  {
    assert (a + rest)[..|a|] == a;
    assert (a + rest)[|a|..] == rest;
  }

  lemma DecodeU64Encode(x: int, rest: bytes)
    requires IsU64(x)
    ensures DecodeU64(EncodeU64(x) + rest) == Ok(Parsed(x, rest))
  {
    TakeAppend(EncodeU64(x), rest);
    Pow256Values();
    DecodeEncodeLE(x, 8);
  }

  lemma DecodeU32Encode(x: int, rest: bytes)
    requires IsU32(x)
    ensures DecodeU32(EncodeU32(x) + rest) == Ok(Parsed(x, rest))
  {
    TakeAppend(EncodeU32(x), rest);
    Pow256Values();
    DecodeEncodeLE(x, 4);
  }

  lemma DecodeI64Encode(x: int, rest: bytes)
    requires IsI64(x)
    ensures DecodeI64(EncodeI64(x) + rest) == Ok(Parsed(x, rest))
  {
    DecodeU64Encode(if x < 0 then x + TWO_64 else x, rest);
  }

  // ---- length-prefixed byte strings ----

  /** A byte string preceded by its length as a uint64. */
  function EncodeBytes(b: bytes): (r: bytes)
    requires IsU64(|b|)
    ensures |r| == 8 + |b|
  {
    EncodeU64(|b|) + b
  }

  function DecodeBytes(s: bytes): (r: Result<Parsed<bytes>>)
    ensures r.Ok? ==> |r.value.rest| < |s| && IsU64(|r.value.value|)
    ensures r.Err? ==> r.error == Truncated
  {
    var n :- DecodeU64(s);
    var b :- Take(n.rest, n.value);
    Ok(b)
  }

  lemma DecodeBytesEncode(b: bytes, rest: bytes)
    requires IsU64(|b|)
    ensures DecodeBytes(EncodeBytes(b) + rest) == Ok(Parsed(b, rest))
  {
    assert EncodeBytes(b) + rest == EncodeU64(|b|) + (b + rest);
    DecodeU64Encode(|b|, b + rest);
    TakeAppend(b, rest);
  }

  // ---- decoders only accept canonical encodings ----

  lemma {:induction false} EncodeDecodeLE(s: bytes)
    ensures EncodeLE(DecodeLE(s), |s|) == s
  {
    if s != [] {
      EncodeDecodeLE(s[1..]);
      var x := DecodeLE(s);
      assert x % 256 == s[0] && x / 256 == DecodeLE(s[1..]);
      assert [s[0]] + s[1..] == s;
    }
  }

  lemma DecodeU64Canonical(s: bytes)
    requires DecodeU64(s).Ok?
    ensures s == EncodeU64(DecodeU64(s).value.value) + DecodeU64(s).value.rest
  {
    EncodeDecodeLE(s[..8]);
    assert s == s[..8] + s[8..];
  }

  lemma DecodeI64Canonical(s: bytes)
    requires DecodeI64(s).Ok?
    ensures s == EncodeI64(DecodeI64(s).value.value) + DecodeI64(s).value.rest
  {
    DecodeU64Canonical(s);
  }

  lemma DecodeBytesCanonical(s: bytes)
    requires DecodeBytes(s).Ok?
    ensures IsU64(|DecodeBytes(s).value.value|)
    ensures s == EncodeBytes(DecodeBytes(s).value.value) + DecodeBytes(s).value.rest
  {
    DecodeU64Canonical(s);
    var n := DecodeU64(s).value;
    var b := Take(n.rest, n.value).value;
    assert s == EncodeU64(n.value) + (b.value + b.rest);
  }
}
