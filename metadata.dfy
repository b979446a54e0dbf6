/** The SiaFile metadata header: its sixteen persisted fields, the
    field-by-field comparison AssertEqual, and the versioned binary codec. */
module Metadata {
  import opened Errors
  import opened Bytes

  const VersionSize: nat := 16
  const KeySize: nat := 32

  /** The version tag this codec writes and accepts. */
  const CurrentVersion: bytes := [1] + Zeros(15)

  /** The persisted metadata of a SiaFile. Timestamps are Unix nanoseconds. */
  datatype Metadata = Metadata(
    staticVersion: bytes,            // 16 bytes
    staticFileSize: int,             // int64
    localPath: bytes,                // string
    siaPath: bytes,                  // string
    staticMasterKey: bytes,          // 32 bytes
    staticSharingKey: bytes,         // 32 bytes
    modTime: int,                    // int64
    changeTime: int,                 // int64
    accessTime: int,                 // int64
    createTime: int,                 // int64
    mode: int,                       // uint32
    uid: int,                        // int64
    gid: int,                        // int64
    staticChunkMetadataSize: int,    // uint64
    chunkOffset: int,                // int64
    pubKeyTableOffset: int           // int64
  )

  /** The names AssertEqual reports, in the order it checks the fields. */
  const FieldNames: seq<string> := [
    "staticVersion", "staticFileSize", "localPath", "siaPath",
    "staticMasterKey", "staticSharingKey", "modTime", "changeTime",
    "accessTime", "createTime", "mode", "uid", "gid",
    "staticChunkMetadataSize", "chunkOffset", "pubKeyTableOffset"
  ]

  /** Whether field k (in check order) of md and md2 agree. */
  predicate FieldEqual(md: Metadata, md2: Metadata, k: nat)
    requires k < 16
  {
    match k
    case 0 => md.staticVersion == md2.staticVersion
    case 1 => md.staticFileSize == md2.staticFileSize
    case 2 => md.localPath == md2.localPath
    case 3 => md.siaPath == md2.siaPath
    case 4 => md.staticMasterKey == md2.staticMasterKey
    case 5 => md.staticSharingKey == md2.staticSharingKey
    case 6 => md.modTime == md2.modTime
    case 7 => md.changeTime == md2.changeTime
    case 8 => md.accessTime == md2.accessTime
    case 9 => md.createTime == md2.createTime
    case 10 => md.mode == md2.mode
    case 11 => md.uid == md2.uid
    case 12 => md.gid == md2.gid
    case 13 => md.staticChunkMetadataSize == md2.staticChunkMetadataSize
    case 14 => md.chunkOffset == md2.chunkOffset
    case _ => md.pubKeyTableOffset == md2.pubKeyTableOffset
  }

  /** AssertEqual: None when md and md2 agree on every field, otherwise the
      name of the first field (in check order) on which they differ. */
  function AssertEqual(md: Metadata, md2: Metadata): (r: Option<string>)
    ensures r.None? <==> md == md2
    ensures r.Some? ==> r.value in FieldNames
  {
    if md.staticVersion != md2.staticVersion then Some("staticVersion")
    else if md.staticFileSize != md2.staticFileSize then Some("staticFileSize")
    else if md.localPath != md2.localPath then Some("localPath")
    else if md.siaPath != md2.siaPath then Some("siaPath")
    else if md.staticMasterKey != md2.staticMasterKey then Some("staticMasterKey")
    else if md.staticSharingKey != md2.staticSharingKey then Some("staticSharingKey")
    else if md.modTime != md2.modTime then Some("modTime")
    else if md.changeTime != md2.changeTime then Some("changeTime")
    else if md.accessTime != md2.accessTime then Some("accessTime")
    else if md.createTime != md2.createTime then Some("createTime")
    else if md.mode != md2.mode then Some("mode")
    else if md.uid != md2.uid then Some("uid")
    else if md.gid != md2.gid then Some("gid")
    else if md.staticChunkMetadataSize != md2.staticChunkMetadataSize then Some("staticChunkMetadataSize")
    else if md.chunkOffset != md2.chunkOffset then Some("chunkOffset")
    else if md.pubKeyTableOffset != md2.pubKeyTableOffset then Some("pubKeyTableOffset")
    else None
  }

  /** AssertEqual accepts exactly when all sixteen listed fields agree. */
  lemma AssertEqualIffAllFieldsEqual(md: Metadata, md2: Metadata)
    ensures AssertEqual(md, md2).None? <==> forall k | 0 <= k < 16 :: FieldEqual(md, md2, k)
  {
    if forall k | 0 <= k < 16 :: FieldEqual(md, md2, k) {
      assert FieldEqual(md, md2, 0) && FieldEqual(md, md2, 1) && FieldEqual(md, md2, 2);
      assert FieldEqual(md, md2, 3) && FieldEqual(md, md2, 4) && FieldEqual(md, md2, 5);
      assert FieldEqual(md, md2, 6) && FieldEqual(md, md2, 7) && FieldEqual(md, md2, 8);
      assert FieldEqual(md, md2, 9) && FieldEqual(md, md2, 10) && FieldEqual(md, md2, 11);
      assert FieldEqual(md, md2, 12) && FieldEqual(md, md2, 13) && FieldEqual(md, md2, 14);
      assert FieldEqual(md, md2, 15);
    }
  }

  /** When field k is the first differing field, AssertEqual names exactly it. */
  lemma AssertEqualNamesFirstMismatch(md: Metadata, md2: Metadata, k: nat)
    requires k < 16 && !FieldEqual(md, md2, k)
    requires forall j | 0 <= j < k :: FieldEqual(md, md2, j)
    ensures AssertEqual(md, md2) == Some(FieldNames[k])
  {
    if k == 0 {
    } else if k == 1 { assert FieldEqual(md, md2, 0);
    } else if k == 2 { assert FieldEqual(md, md2, 0) && FieldEqual(md, md2, 1);
    } else {
      assert FieldEqual(md, md2, 0) && FieldEqual(md, md2, 1) && FieldEqual(md, md2, 2);
      if k > 3 { assert FieldEqual(md, md2, 3); }
      if k > 4 { assert FieldEqual(md, md2, 4); }
      if k > 5 { assert FieldEqual(md, md2, 5); }
      if k > 6 { assert FieldEqual(md, md2, 6); }
      if k > 7 { assert FieldEqual(md, md2, 7); }
      if k > 8 { assert FieldEqual(md, md2, 8); }
      if k > 9 { assert FieldEqual(md, md2, 9); }
      if k > 10 { assert FieldEqual(md, md2, 10); }
      if k > 11 { assert FieldEqual(md, md2, 11); }
      if k > 12 { assert FieldEqual(md, md2, 12); }
      if k > 13 { assert FieldEqual(md, md2, 13); }
      if k > 14 { assert FieldEqual(md, md2, 14); }
    }
  }

  // ---- binary codec ----

  /** Field widths the encoding can represent. */
  predicate WellFormed(md: Metadata) {
    && |md.staticVersion| == VersionSize
    && IsI64(md.staticFileSize)
    && IsU64(|md.localPath|) && IsU64(|md.siaPath|)
    && |md.staticMasterKey| == KeySize && |md.staticSharingKey| == KeySize
    && IsI64(md.modTime) && IsI64(md.changeTime) && IsI64(md.accessTime) && IsI64(md.createTime)
    && IsU32(md.mode) && IsI64(md.uid) && IsI64(md.gid)
    && IsU64(md.staticChunkMetadataSize)
    && IsI64(md.chunkOffset) && IsI64(md.pubKeyTableOffset)
  }

  /** marshalMetadata: fields in declaration order; strings length-prefixed,
      fixed-size arrays raw, integers little-endian. */
  function MarshalMetadata(md: Metadata): (r: bytes)
    requires WellFormed(md)
  {
    md.staticVersion
    + (EncodeI64(md.staticFileSize)
    + (EncodeBytes(md.localPath)
    + (EncodeBytes(md.siaPath)
    + (md.staticMasterKey
    + (md.staticSharingKey
    + (EncodeI64(md.modTime)
    + (EncodeI64(md.changeTime)
    + (EncodeI64(md.accessTime)
    + (EncodeI64(md.createTime)
    + (EncodeU32(md.mode)
    + (EncodeI64(md.uid)
    + (EncodeI64(md.gid)
    + (EncodeU64(md.staticChunkMetadataSize)
    + (EncodeI64(md.chunkOffset)
    + EncodeI64(md.pubKeyTableOffset)))))))))))))))
  }

  /** unmarshalMetadata: checks the version tag before reading any other
      field; returns the metadata and the bytes after it. */
  function UnmarshalMetadata(s: bytes): (r: Result<Parsed<Metadata>>)
    ensures r.Ok? ==> WellFormed(r.value.value) && r.value.value.staticVersion == CurrentVersion
    ensures r.Ok? ==> |r.value.rest| < |s|
    ensures r.Err? ==> r.error == Truncated || r.error == VersionMismatch
  {
    var version :- Take(s, VersionSize);
    if version.value != CurrentVersion then Err(VersionMismatch) else
    var fileSize :- DecodeI64(version.rest);
    var localPath :- DecodeBytes(fileSize.rest);
    var siaPath :- DecodeBytes(localPath.rest);
    var masterKey :- Take(siaPath.rest, KeySize);
    var sharingKey :- Take(masterKey.rest, KeySize);
    var modTime :- DecodeI64(sharingKey.rest);
    var changeTime :- DecodeI64(modTime.rest);
    var accessTime :- DecodeI64(changeTime.rest);
    var createTime :- DecodeI64(accessTime.rest);
    var mode :- DecodeU32(createTime.rest);
    var uid :- DecodeI64(mode.rest);
    var gid :- DecodeI64(uid.rest);
    var chunkMetadataSize :- DecodeU64(gid.rest);
    var chunkOffset :- DecodeI64(chunkMetadataSize.rest);
    var pubKeyTableOffset :- DecodeI64(chunkOffset.rest);
    Ok(Parsed(Metadata(
      version.value, fileSize.value, localPath.value, siaPath.value,
      masterKey.value, sharingKey.value,
      modTime.value, changeTime.value, accessTime.value, createTime.value,
      mode.value, uid.value, gid.value,
      chunkMetadataSize.value, chunkOffset.value, pubKeyTableOffset.value),
      pubKeyTableOffset.rest))
  }

  /** Round trip: unmarshalling the marshalled metadata (followed by anything)
      yields the same metadata, which AssertEqual accepts, and the bytes after it. */
  lemma UnmarshalMarshalMetadata(md: Metadata, rest: bytes)
    requires WellFormed(md) && md.staticVersion == CurrentVersion
    ensures UnmarshalMetadata(MarshalMetadata(md) + rest) == Ok(Parsed(md, rest))
    ensures AssertEqual(UnmarshalMetadata(MarshalMetadata(md) + rest).value.value, md).None?
  {
    var r15 := EncodeI64(md.pubKeyTableOffset) + rest;
    var r14 := EncodeI64(md.chunkOffset) + r15;
    var r13 := EncodeU64(md.staticChunkMetadataSize) + r14;
    var r12 := EncodeI64(md.gid) + r13;
    var r11 := EncodeI64(md.uid) + r12;
    var r10 := EncodeU32(md.mode) + r11;
    var r9 := EncodeI64(md.createTime) + r10;
    var r8 := EncodeI64(md.accessTime) + r9;
    var r7 := EncodeI64(md.changeTime) + r8;
    var r6 := EncodeI64(md.modTime) + r7;
    var r5 := md.staticSharingKey + r6;
    var r4 := md.staticMasterKey + r5;
    var r3 := EncodeBytes(md.siaPath) + r4;
    var r2 := EncodeBytes(md.localPath) + r3;
    var r1 := EncodeI64(md.staticFileSize) + r2;
    var r0 := md.staticVersion + r1;
    assert MarshalMetadata(md) + rest == r0;
    TakeAppend(md.staticVersion, r1);
    DecodeI64Encode(md.staticFileSize, r2);
    DecodeBytesEncode(md.localPath, r3);
    DecodeBytesEncode(md.siaPath, r4);
    TakeAppend(md.staticMasterKey, r5);
    TakeAppend(md.staticSharingKey, r6);
    DecodeI64Encode(md.modTime, r7);
    DecodeI64Encode(md.changeTime, r8);
    DecodeI64Encode(md.accessTime, r9);
    DecodeI64Encode(md.createTime, r10);
    DecodeU32Encode(md.mode, r11);
    DecodeI64Encode(md.uid, r12);
    DecodeI64Encode(md.gid, r13);
    DecodeU64Encode(md.staticChunkMetadataSize, r14);
    DecodeI64Encode(md.chunkOffset, r15);
    DecodeI64Encode(md.pubKeyTableOffset, rest);
  }

  /** Metadata tagged with any other version is refused before any other
      field is read. */
  lemma UnmarshalRejectsOtherVersion(s: bytes)
    requires |s| >= VersionSize && s[..VersionSize] != CurrentVersion
    ensures UnmarshalMetadata(s) == Err(VersionMismatch)
  {
  }
}
