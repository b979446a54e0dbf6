/** Update records: a replayable "write these bytes at this offset of this
    named file" instruction, as logged in the write-ahead log. */
module Updates {
  import opened Errors
  import opened Bytes

  /** A write-ahead-log update: an opaque instruction blob. */
  datatype Update = Update(instructions: bytes)

  /** A decoded update: target path, signed 64-bit offset, payload. */
  datatype Insert = Insert(path: bytes, index: int, data: bytes)

  predicate Encodable(path: bytes, index: int, data: bytes) {
    IsU64(|path|) && IsI64(index) && IsU64(|data|)
  }

  /** createUpdate: records the file's path, the offset and a copy of the
      payload (a value, so later changes by the caller cannot reach it). */
  function CreateUpdate(path: bytes, index: int, data: bytes): (u: Update)
    requires Encodable(path, index, data)
    ensures |u.instructions| == 24 + |path| + |data|
  {
    Update(EncodeBytes(path) + (EncodeI64(index) + EncodeBytes(data)))
  }

  /** readUpdate: the exact inverse of CreateUpdate; anything that is not a
      complete (path, offset, payload) triple with nothing after it is
      MalformedUpdate. */
  function ReadUpdate(u: Update): (r: Result<Insert>)
    ensures r.Err? ==> r.error == MalformedUpdate
    ensures r.Ok? ==> Encodable(r.value.path, r.value.index, r.value.data)
  {
    match DecodeBytes(u.instructions)
    case Err(_) => Err(MalformedUpdate)
    case Ok(path) =>
      match DecodeI64(path.rest)
      case Err(_) => Err(MalformedUpdate)
      case Ok(index) =>
        match DecodeBytes(index.rest)
        case Err(_) => Err(MalformedUpdate)
        case Ok(data) =>
          if data.rest != [] then Err(MalformedUpdate)
          else Ok(Insert(path.value, index.value, data.value))
  }

  /** Round trip: readUpdate(createUpdate(path, i, d)) succeeds with the same
      path, the same offset and the same bytes. */
  lemma ReadCreateUpdate(path: bytes, index: int, data: bytes)
    requires Encodable(path, index, data)
    ensures ReadUpdate(CreateUpdate(path, index, data)) == Ok(Insert(path, index, data))
  {
    var tail := EncodeI64(index) + EncodeBytes(data);
    DecodeBytesEncode(path, tail);
    DecodeI64Encode(index, EncodeBytes(data));
    DecodeBytesEncode(data, []);
    assert EncodeBytes(data) + [] == EncodeBytes(data);
  }

  /** Conversely, every update readUpdate accepts is the one createUpdate
      makes from what it read: no garbage is ever accepted. */
  lemma ReadUpdateOnlyAcceptsCreated(u: Update)
    requires ReadUpdate(u).Ok?
    ensures var i := ReadUpdate(u).value; u == CreateUpdate(i.path, i.index, i.data)
  {
    var s := u.instructions;
    DecodeBytesCanonical(s);
    var path := DecodeBytes(s).value;
    DecodeI64Canonical(path.rest);
    var index := DecodeI64(path.rest).value;
    DecodeBytesCanonical(index.rest);
    var data := DecodeBytes(index.rest).value;
    assert index.rest == EncodeBytes(data.value) + [];
    assert s == EncodeBytes(path.value) + (EncodeI64(index.value) + EncodeBytes(data.value));
  }
}
