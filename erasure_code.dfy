/** The dummy erasure coder used by the SiaFile tests and the chunk arithmetic
    that depends on it. Only the piece counts matter: the coder's Encode and
    Recover are stubs that return nothing. */
module ErasureCode {

  /** rsCode: a coder that only knows how many pieces it produces. */
  datatype RSCode = RSCode(numPieces: int, dataPieces: int) {
    /** Total number of pieces per chunk. */
    function NumPieces(): int { numPieces }
    /** Number of pieces needed to recover a chunk. */
    function MinPieces(): int { dataPieces }
  }

  /** NewRSCode: nData data pieces plus nParity parity pieces. */
  function NewRSCode(nData: int, nParity: int): (rc: RSCode)
    ensures rc.NumPieces() == nData + nParity
    ensures rc.MinPieces() == nData
    ensures nParity >= 0 ==> rc.MinPieces() <= rc.NumPieces()
  {
    RSCode(nData + nParity, nData)
  }

  /** A piece index a chunk of this coder can hold. */
  predicate ValidPieceIndex(rc: RSCode, pieceIndex: int) {
    0 <= pieceIndex < rc.NumPieces()
  }

  /** With a non-negative parity count, every index below MinPieces is a valid
      piece index, and the index range is exactly nData + nParity wide. */
  lemma PieceIndicesBounded(nData: int, nParity: int, pieceIndex: int)
    requires nParity >= 0
    ensures ValidPieceIndex(NewRSCode(nData, nParity), pieceIndex)
        <==> 0 <= pieceIndex < nData + nParity
    ensures 0 <= pieceIndex < NewRSCode(nData, nParity).MinPieces()
        ==> ValidPieceIndex(NewRSCode(nData, nParity), pieceIndex)
  {
  }

  /** ChunkIndexByOffset: the chunk holding byte `offset` of the logical file,
      and the offset within that chunk. */
  function ChunkIndexByOffset(offset: nat, chunkSize: nat): (r: (nat, nat))
    requires chunkSize > 0
    ensures r.0 * chunkSize + r.1 == offset && r.1 < chunkSize
  {
    (offset / chunkSize, offset % chunkSize)
  }

  /** Number of chunks of a file of fileSize bytes (at least one, as for an
      empty file). */
  function NumChunks(fileSize: nat, chunkSize: nat): (n: nat)
    requires chunkSize > 0
    ensures n >= 1
    ensures fileSize <= n * chunkSize
    ensures fileSize > 0 ==> (n - 1) * chunkSize < fileSize
  {
    if fileSize == 0 then 1
    else
      var n := (fileSize + chunkSize - 1) / chunkSize;
      assert (n - 1) * chunkSize < fileSize by {
        assert n * chunkSize <= fileSize + chunkSize - 1;
      }
      n
  }

  /** An offset inside the file lies in an existing chunk. */
  lemma ChunkIndexInRange(offset: nat, fileSize: nat, chunkSize: nat)
    requires chunkSize > 0 && offset < fileSize
    ensures ChunkIndexByOffset(offset, chunkSize).0 < NumChunks(fileSize, chunkSize)
  {
    var (c, o) := ChunkIndexByOffset(offset, chunkSize);
    var n := NumChunks(fileSize, chunkSize);
    if c >= n {
      assert c * chunkSize >= n * chunkSize by {
        MulMonotone(n, c, chunkSize);
      }
      assert false;
    }
  }

  lemma MulMonotone(a: nat, b: nat, k: nat)
    requires a <= b
    ensures a * k <= b * k
  {
  }
}
