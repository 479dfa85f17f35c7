/** Piece storage (FileManager.java): the shared file, held in memory as the
    byte sequence a `RandomAccessFile` would contain, addressed by piece
    index times piece size. */
module Storage {
  import opened Common

  /** The file after `seek(start)` and `write(data)`: `data` lands at `start`,
      a file shorter than `start` is first extended (with zeros here), and a
      negative `start` makes `seek` raise an IOException, which `savePiece`
      swallows, so nothing is written. */
  function Written(file: seq<byte>, start: int, data: seq<byte>): seq<byte>
  {
    if start < 0 then file
    else
      var padded := if start > |file| then file + Zeros(start - |file|) else file;
      padded[..start] + data + (if start + |data| < |padded| then padded[start + |data|..] else [])
  }

  /** A write puts `data` at `start` and keeps every other byte of the file;
      the file grows to cover the write, and any gap before `start` is
      zero. */
  lemma WrittenProperties(file: seq<byte>, start: int, data: seq<byte>)
    requires start >= 0
    ensures var w := Written(file, start, data);
      |w| == (if start + |data| > |file| then start + |data| else |file|)
      && (forall k :: start <= k < start + |data| ==> w[k] == data[k - start])
      && (forall k :: 0 <= k < |file| && !(start <= k < start + |data|) ==> w[k] == file[k])
      && (forall k :: |file| <= k < start ==> w[k] == 0)
  {
    var w := Written(file, start, data);
    var padded := if start > |file| then file + Zeros(start - |file|) else file;
    forall k | 0 <= k < |file| && !(start <= k < start + |data|)
      ensures w[k] == file[k]
    {
      if k < start {
        assert w[k] == padded[k];
      } else {
        assert w[k] == padded[k];
      }
    }
    forall k | |file| <= k < start
      ensures w[k] == 0
    {
      assert w[k] == padded[k];
    }
  }

  /** The length `readPiece(i)` asks for: `fileSize % pieceSize` for the
      last piece, whose index is `numPieces - 1` in `int` arithmetic, and
      `pieceSize` for every other index; the remainder by a zero piece size
      raises ArithmeticException. */
  function PieceLength(fileSize: int, pieceSize: int, numPieces: int, pieceIndex: int): Result<int>
    requires IsInt(numPieces)
  {
    if pieceIndex == Wrap32(numPieces - 1) then
      if pieceSize == 0 then Err(Arithmetic) else Ok(JavaRem(fileSize, pieceSize))
    else Ok(pieceSize)
  }

  /** For a file of `fileSize >= 0` bytes in pieces of `pieceSize > 0`, the
      last piece reads `fileSize % pieceSize` bytes, which is 0 when the file
      size is a multiple of the piece size; every other piece reads a whole
      piece. */
  lemma PieceLengths(fileSize: int, pieceSize: int, pieceIndex: int)
    requires 0 <= fileSize <= INT_MAX && 0 < pieceSize <= INT_MAX
    ensures var n := JavaCeilDiv(fileSize, pieceSize);
      (pieceIndex != n - 1 ==> PieceLength(fileSize, pieceSize, n, pieceIndex) == Ok(pieceSize))
      && (pieceIndex == n - 1 ==> PieceLength(fileSize, pieceSize, n, pieceIndex) == Ok(fileSize % pieceSize))
      && (pieceIndex == n - 1 ==> 0 <= PieceLength(fileSize, pieceSize, n, pieceIndex).value < pieceSize)
  {
    var n := JavaCeilDiv(fileSize, pieceSize);
    DivAtMost(fileSize, 1);
    assert n <= fileSize by {
      if fileSize > 0 {
        DivAtMost(fileSize - 1, pieceSize);
      }
    }
  }

  /** What `readPiece(pieceIndex)` returns for the file contents `file`:
      `seek` to `pieceIndex * pieceSize` (a `long` product, so it does not
      wrap) rejects a negative position, and the method answers `null`
      (`None`) for it; then the array allocation raises for a length the
      remainder cannot compute or that is negative; `readFully` of an empty
      array returns at once, wherever the position is; and a longer read
      that runs past the end of the file is `null` again. */
  function ReadPieceOf(file: seq<byte>, fileSize: int, pieceSize: int, numPieces: int, pieceIndex: int): Result<Option<seq<byte>>>
    requires IsInt(numPieces)
  {
    var start := pieceIndex * pieceSize;
    if start < 0 then Ok(None)
    else match PieceLength(fileSize, pieceSize, numPieces, pieceIndex)
      case Err(e) => Err(e)
      case Ok(length) =>
        if length < 0 then Err(NegativeArraySize)
        else if length == 0 then Ok(Some([]))
        else if start + length > |file| then Ok(None)
        else Ok(Some(file[start..start + length]))
  }

  class FileManager {
    const filePath: string
    const pieceSize: int
    const fileSize: int
    const numPieces: int
    /** The contents of the file `filePath` names. */
    var file: seq<byte>

    /** Opens the file, whose current contents are `contents`. */
    constructor (filePath: string, pieceSize: int, fileSize: int, contents: seq<byte>)
      requires IsInt(pieceSize) && IsInt(fileSize)
      ensures this.filePath == filePath && this.pieceSize == pieceSize && this.fileSize == fileSize
      ensures numPieces == JavaCeilDiv(fileSize, pieceSize) && file == contents && Valid()
    {
      this.filePath := filePath;
      this.pieceSize := pieceSize;
      this.fileSize := fileSize;
      numPieces := JavaCeilDiv(fileSize, pieceSize);
      file := contents;
    }

    /** The three sizes are `int`s. */
    ghost predicate Valid() {
      IsInt(pieceSize) && IsInt(fileSize) && IsInt(numPieces)
    }

    /** `savePiece(data, pieceIndex)`: seeks to `pieceIndex * pieceSize`, an
        `int` product that wraps, and writes `data` there. */
    method SavePiece(data: seq<byte>, pieceIndex: int)
      requires Valid() && IsInt(pieceIndex)
      modifies this`file
      ensures file == Written(old(file), Wrap32(pieceIndex * pieceSize), data)
    {
      var startPosition := Wrap32(pieceIndex * pieceSize);
      if startPosition < 0 {
        return;
      }
      file := Written(file, startPosition, data);
    }

    /** `readPiece(pieceIndex)`. */
    method ReadPiece(pieceIndex: int) returns (r: Result<Option<seq<byte>>>)
      requires Valid()
      ensures r == ReadPieceOf(file, fileSize, pieceSize, numPieces, pieceIndex)
    {
      var startPosition := pieceIndex * pieceSize;
      if startPosition < 0 {
        return Ok(None);
      }
      var length;
      if pieceIndex == Wrap32(numPieces - 1) {
        if pieceSize == 0 {
          return Err(Arithmetic);
        }
        length := JavaRem(fileSize, pieceSize);
      } else {
        length := pieceSize;
      }
      if length < 0 {
        return Err(NegativeArraySize);
      }
      if length == 0 {
        return Ok(Some([]));
      }
      if startPosition + length > |file| {
        return Ok(None);
      }
      r := Ok(Some(file[startPosition..startPosition + length]));
    }
  }

  /** Reading a piece back after saving data of that piece's length gives the
      data, whenever the piece's offset fits an `int`. */
  lemma ReadAfterWrite(file: seq<byte>, fileSize: int, pieceSize: int, numPieces: int, pieceIndex: int, data: seq<byte>)
    requires IsInt(numPieces) && 0 <= pieceIndex * pieceSize <= INT_MAX
    requires PieceLength(fileSize, pieceSize, numPieces, pieceIndex) == Ok(|data|)
    ensures ReadPieceOf(Written(file, Wrap32(pieceIndex * pieceSize), data), fileSize, pieceSize, numPieces, pieceIndex) == Ok(Some(data))
  {
    var start := pieceIndex * pieceSize;
    WrittenProperties(file, start, data);
    var w := Written(file, start, data);
    assert w[start..start + |data|] == data;
  }

  /** When the file size is a multiple of the piece size the last piece is
      empty, and it reads as an empty array even when the file is shorter
      than its offset, as an empty file is. */
  lemma EmptyLastPieceReadsEmpty(file: seq<byte>, fileSize: int, pieceSize: int)
    requires 0 < fileSize <= INT_MAX && 0 < pieceSize <= INT_MAX && fileSize % pieceSize == 0
    ensures var n := JavaCeilDiv(fileSize, pieceSize);
      n >= 1 && ReadPieceOf(file, fileSize, pieceSize, n, n - 1) == Ok(Some([]))
    ensures ReadPieceOf([], 20, 10, 2, 1) == Ok(Some([]))
  {
    var n := JavaCeilDiv(fileSize, pieceSize);
    PieceLengths(fileSize, pieceSize, n - 1);
    MulMonotone(0, n - 1, pieceSize);
  }

  /** The peer process opens its storage with the piece size in place of the
      file size (PeerProcess.java). For a non-zero piece size the storage then
      sees a single piece, index 0, which reads as empty; a positive piece
      size reads every other non-negative index as a whole piece. A piece
      size of 0 gives no pieces, so the last index is -1, whose length `0 %
      0` raises, while every other index reads as empty at offset 0. */
  lemma StorageSizedByPieceSize(pieceSize: int, file: seq<byte>, pieceIndex: int)
    requires IsInt(pieceSize) && IsInt(pieceIndex)
    ensures pieceSize != 0 ==> JavaCeilDiv(pieceSize, pieceSize) == 1
    ensures pieceSize != 0 ==> ReadPieceOf(file, pieceSize, pieceSize, 1, 0) == Ok(Some([]))
    ensures pieceSize > 0 && pieceIndex != 0 ==> PieceLength(pieceSize, pieceSize, 1, pieceIndex) == Ok(pieceSize)
    ensures pieceSize == 0 ==> JavaCeilDiv(0, 0) == 0 && ReadPieceOf(file, 0, 0, 0, -1) == Err(Arithmetic)
    ensures pieceSize == 0 && pieceIndex != -1 ==> ReadPieceOf(file, 0, 0, 0, pieceIndex) == Ok(Some([]))
  {
    if pieceSize != 0 {
      CeilDivSelf(pieceSize);
    }
  }

  /** A non-zero size divided by itself is one piece. */
  lemma CeilDivSelf(x: int)
    requires IsInt(x) && x != 0
    ensures JavaCeilDiv(x, x) == 1 && JavaRem(x, x) == 0
  {
    if x > 0 {
      assert (x - 1) / x == 0;
    } else {
      assert x / (-x) == -1;
    }
  }
}
