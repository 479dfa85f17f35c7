/** The piece bitset (BitfieldManager.java): one bit per piece of the shared
    file, packed eight to a byte with the first piece in the most significant
    bit, in a byte array that the manager updates in place. */
module Bitfield {
  import opened Common
  import opened Bits

  /** The mask the source writes `1 << (7 - j)`: bit `j` of a byte counted
      from the most significant end. */
  function Mask(j: nat): byte
    requires j < 8
  {
    Pow2(7 - j) as byte
  }

  /** Piece `i` is marked in `bits`: bit `7 - i % 8` of byte `i / 8`. */
  predicate Bit(bits: seq<byte>, i: nat)
    requires i < 8 * |bits|
  {
    HasBit(bits[i / 8], 7 - i % 8)
  }

  /** Piece `8 * k + j` is bit `j` (from the top) of byte `k`. */
  lemma PieceCoords(k: nat, j: nat)
    requires j < 8
    ensures (8 * k + j) / 8 == k && (8 * k + j) % 8 == j
  {
  }

  /** What `setPiece(i)` leaves in the array. */
  function WithPiece(bits: seq<byte>, i: nat): seq<byte>
    requires i < 8 * |bits|
  {
    bits[i / 8 := Or(bits[i / 8], Mask(i % 8))]
  }

  /** The test `(b & (1 << (7 - j))) != 0` of the source reads bit `j` from
      the top. */
  lemma MaskReads(b: byte, j: nat)
    requires j < 8
    ensures And(b, Mask(j)) != 0 <==> HasBit(b, 7 - j)
  {
    MaskTest(b, 7 - j);
  }

  /** Marking piece `i` sets bit `i` and keeps every other bit, padding bits
      included, and leaves the length alone. */
  lemma WithPieceBits(bits: seq<byte>, i: nat, j: nat)
    requires i < 8 * |bits| && j < 8 * |bits|
    ensures |WithPiece(bits, i)| == |bits|
    ensures Bit(WithPiece(bits, i), j) <==> j == i || Bit(bits, j)
  {
    if j / 8 == i / 8 {
      HasBitOr(bits[i / 8], Mask(i % 8), 7 - j % 8);
      HasBitPow2(7 - i % 8, 7 - j % 8);
      assert j % 8 == i % 8 ==> j == i;
    }
  }

  /** Marking a piece twice is the same as marking it once. */
  lemma WithPieceIdempotent(bits: seq<byte>, i: nat)
    requires i < 8 * |bits|
    ensures WithPiece(WithPiece(bits, i), i) == WithPiece(bits, i)
  {
    var b, m := bits[i / 8], Mask(i % 8);
    forall k | 0 <= k < 8
      ensures HasBit(Or(Or(b, m), m), k) <==> HasBit(Or(b, m), k)
    {
      HasBitOr(Or(b, m), m, k);
      HasBitOr(b, m, k);
    }
    BytesEqual(Or(Or(b, m), m), Or(b, m));
  }

  /** `hasPiece` on a Java `int`: `/` and `%` truncate toward zero, an index
      outside the array raises, and for the indices -7..-1 the shift distance
      `7 - bitIndex` is 8 to 14, so the test reads a copy of the sign bit of
      byte 0 (the byte is sign-extended to an `int` before the `&`). */
  function HasPieceAt(bits: seq<byte>, i: int): Result<bool>
  {
    var byteIndex := JavaDiv(i, 8);
    var bitIndex := JavaRem(i, 8);
    if byteIndex < 0 || byteIndex >= |bits| then Err(IndexOutOfBounds)
    else if bitIndex >= 0 then Ok(And(bits[byteIndex], Mask(bitIndex)) != 0)
    else Ok(HasBit(bits[byteIndex], 7))
  }

  /** On the indices the bitset covers, `hasPiece` reads exactly the piece
      bit; beyond them it raises. */
  lemma HasPieceAtInRange(bits: seq<byte>, i: int)
    ensures 0 <= i < 8 * |bits| ==> HasPieceAt(bits, i) == Ok(Bit(bits, i))
    ensures i >= 8 * |bits| || i < -7 ==> HasPieceAt(bits, i) == Err(IndexOutOfBounds)
  {
    if 0 <= i < 8 * |bits| {
      MaskReads(bits[i / 8], i % 8);
    }
  }

  /** A zeroed array marks no piece. */
  lemma NoBitsInZeros(bits: seq<byte>)
    requires forall k :: 0 <= k < |bits| ==> bits[k] == 0
    ensures forall i :: 0 <= i < 8 * |bits| ==> !Bit(bits, i)
  {
    forall i | 0 <= i < 8 * |bits|
      ensures !Bit(bits, i)
    {
      NatBitZero(7 - i % 8);
    }
  }

  /** The number of marked pieces among `0 .. n-1`. */
  function CountUpTo(bits: seq<byte>, n: nat): nat
    requires n <= 8 * |bits|
  {
    if n == 0 then 0 else CountUpTo(bits, n - 1) + (if Bit(bits, n - 1) then 1 else 0)
  }

  /** The count lies between 0 and `n`, and reaches `n` exactly when every
      piece below `n` is marked. */
  lemma {:induction false} CountUpToBounds(bits: seq<byte>, n: nat)
    requires n <= 8 * |bits|
    ensures CountUpTo(bits, n) <= n
    ensures CountUpTo(bits, n) == n <==> forall i :: 0 <= i < n ==> Bit(bits, i)
  {
    if n > 0 {
      CountUpToBounds(bits, n - 1);
    }
  }

  /** Bits at `n` and above (padding) never contribute to the count. */
  lemma {:induction false} CountIgnoresPadding(a: seq<byte>, b: seq<byte>, n: nat)
    requires n <= 8 * |a| && n <= 8 * |b|
    requires forall i :: 0 <= i < n ==> Bit(a, i) == Bit(b, i)
    ensures CountUpTo(a, n) == CountUpTo(b, n)
  {
    if n > 0 {
      CountIgnoresPadding(a, b, n - 1);
    }
  }

  /** `bitfield2[i] & ~bitfield1[i]`: the pieces of byte `i` that the owner of
      `b2` has and the owner of `b1` lacks. */
  function InterestingByte(b1: seq<byte>, b2: seq<byte>, i: nat): byte
    requires |b1| == |b2| && i < |b1|
  {
    And(b2[i], Not(b1[i]))
  }

  /** Piece `p` is held by the owner of `b2` and not by the owner of `b1`. */
  predicate MissingAt(b1: seq<byte>, b2: seq<byte>, p: nat)
    requires |b1| == |b2|
  {
    p < 8 * |b1| && Bit(b2, p) && !Bit(b1, p)
  }

  /** The pieces below `n` that `b2` has and `b1` lacks, in ascending
      order. */
  function MissingBelow(b1: seq<byte>, b2: seq<byte>, n: nat): seq<int>
    requires |b1| == |b2| && n <= 8 * |b1|
  {
    if n == 0 then []
    else MissingBelow(b1, b2, n - 1) + (if MissingAt(b1, b2, n - 1) then [n - 1] else [])
  }

  /** The pieces `b2` has and `b1` lacks. */
  function Missing(b1: seq<byte>, b2: seq<byte>): seq<int>
    requires |b1| == |b2|
  {
    MissingBelow(b1, b2, 8 * |b1|)
  }

  /** Some byte of `b2` has a bit that the same byte of `b1` lacks. */
  predicate Interesting(b1: seq<byte>, b2: seq<byte>)
    requires |b1| == |b2|
  {
    exists i :: 0 <= i < |b1| && InterestingByte(b1, b2, i) != 0
  }

  predicate StrictlyAscending(s: seq<int>) {
    forall i, j :: 0 <= i < j < |s| ==> s[i] < s[j]
  }

  /** Piece `j` of byte `i` is missing exactly when the source's test of bit
      `j` of `b2[i] & ~b1[i]` succeeds. */
  lemma MissingAtByte(b1: seq<byte>, b2: seq<byte>, i: nat, j: nat)
    requires |b1| == |b2| && i < |b1| && j < 8
    ensures MissingAt(b1, b2, 8 * i + j) <==> And(InterestingByte(b1, b2, i), Mask(j)) != 0
  {
    PieceCoords(i, j);
    MaskReads(InterestingByte(b1, b2, i), j);
    HasBitAnd(b2[i], Not(b1[i]), 7 - j);
    HasBitNot(b1[i], 7 - j);
  }

  /** One step of the source's inner loop over the bits of byte `i`. */
  lemma MissingStep(b1: seq<byte>, b2: seq<byte>, i: nat, j: nat)
    requires |b1| == |b2| && i < |b1| && j < 8
    ensures MissingBelow(b1, b2, 8 * i + j + 1) == MissingBelow(b1, b2, 8 * i + j)
      + (if And(InterestingByte(b1, b2, i), Mask(j)) != 0 then [8 * i + j] else [])
  {
    MissingAtByte(b1, b2, i, j);
  }

  /** A byte in which `b2` has nothing `b1` lacks adds no missing piece. */
  lemma {:induction false} NoMissingInByte(b1: seq<byte>, b2: seq<byte>, i: nat, j: nat)
    requires |b1| == |b2| && i < |b1| && j <= 8
    requires InterestingByte(b1, b2, i) == 0
    ensures MissingBelow(b1, b2, 8 * i + j) == MissingBelow(b1, b2, 8 * i)
  {
    if j > 0 {
      NoMissingInByte(b1, b2, i, j - 1);
      MissingAtByte(b1, b2, i, j - 1);
    }
  }

  lemma {:induction false} MissingBelowMembers(b1: seq<byte>, b2: seq<byte>, n: nat)
    requires |b1| == |b2| && n <= 8 * |b1|
    ensures forall p: int :: p in MissingBelow(b1, b2, n) <==> 0 <= p < n && MissingAt(b1, b2, p)
    ensures StrictlyAscending(MissingBelow(b1, b2, n))
  {
    if n > 0 {
      MissingBelowMembers(b1, b2, n - 1);
      var prev, now := MissingBelow(b1, b2, n - 1), MissingBelow(b1, b2, n);
      forall x, y | 0 <= x < y < |now|
        ensures now[x] < now[y]
      {
        if y >= |prev| {
          assert now[x] in prev;
        }
      }
    }
  }

  /** `missingPieces(b1, b2)` lists exactly the pieces `b2` has and `b1`
      lacks, each once, in ascending order. */
  lemma MissingMembers(b1: seq<byte>, b2: seq<byte>)
    requires |b1| == |b2|
    ensures forall p: int :: p in Missing(b1, b2) <==> 0 <= p && MissingAt(b1, b2, p)
    ensures StrictlyAscending(Missing(b1, b2))
  {
    MissingBelowMembers(b1, b2, 8 * |b1|);
  }

  /** `interested(b1, b2)` holds exactly when `missingPieces(b1, b2)` is
      non-empty. */
  lemma InterestingIffMissing(b1: seq<byte>, b2: seq<byte>)
    requires |b1| == |b2|
    ensures Interesting(b1, b2) <==> Missing(b1, b2) != []
  {
    MissingMembers(b1, b2);
    if Interesting(b1, b2) {
      var i :| 0 <= i < |b1| && InterestingByte(b1, b2, i) != 0;
      var d := InterestingByte(b1, b2, i);
      NonZeroHasBit(d);
      var k :| 0 <= k < 8 && HasBit(d, k);
      MaskReads(d, 7 - k);
      MissingAtByte(b1, b2, i, 7 - k);
      assert 8 * i + (7 - k) in Missing(b1, b2);
    }
    if Missing(b1, b2) != [] {
      var p := Missing(b1, b2)[0];
      assert p in Missing(b1, b2);
      var i: nat, j: nat := p / 8, p % 8;
      assert p == 8 * i + j;
      MissingAtByte(b1, b2, i, j);
      assert And(InterestingByte(b1, b2, i), Mask(j)) != 0;
    }
  }

  /** `numPieces` as the manager's constructor computes it from the file
      and piece sizes. */
  function PieceCount(fileSize: int, pieceSize: int): (r: int)
    requires IsInt(fileSize) && IsInt(pieceSize)
    ensures IsInt(r)
  {
    JavaCeilDiv(fileSize, pieceSize)
  }

  /** The length the constructor asks for the bitset array: `numPieces / 8`
      rounded up the same way. */
  function BitfieldBytes(fileSize: int, pieceSize: int): (r: int)
    requires IsInt(fileSize) && IsInt(pieceSize)
    ensures IsInt(r)
  {
    JavaCeilDiv(PieceCount(fileSize, pieceSize), 8)
  }

  /** The geometry the constructor computes. A file of `fileSize >= 0` in
      pieces of `pieceSize > 0` has the rounded-up quotient of pieces and one
      bit per piece, rounded up to whole bytes. The array size is negative,
      so the allocation raises, exactly when there are -8 pieces or fewer; a
      negative file size in positive pieces gets there from `-8 * pieceSize`
      down (smaller negative sizes give no pieces at all). A piece size of 0
      gives `INT_MAX` pieces and 2^28 bytes for a non-empty file, none for an
      empty one, and `INT_MIN` pieces, an array that cannot be allocated, for
      a negative size. */
  lemma BitfieldSizes(fileSize: int, pieceSize: int)
    requires IsInt(fileSize) && IsInt(pieceSize)
    ensures BitfieldBytes(fileSize, pieceSize) < 0 <==> PieceCount(fileSize, pieceSize) <= -8
    ensures 0 <= fileSize && 0 < pieceSize ==>
      PieceCount(fileSize, pieceSize) == CeilDiv(fileSize, pieceSize)
      && BitfieldBytes(fileSize, pieceSize) == CeilDiv(CeilDiv(fileSize, pieceSize), 8)
    ensures fileSize < 0 < pieceSize ==> (BitfieldBytes(fileSize, pieceSize) < 0 <==> fileSize <= -8 * pieceSize)
    ensures -pieceSize < fileSize < 0 ==> PieceCount(fileSize, pieceSize) == 0
    ensures pieceSize == 0 && fileSize > 0 ==> PieceCount(fileSize, pieceSize) == INT_MAX && BitfieldBytes(fileSize, pieceSize) == 0x1000_0000
    ensures pieceSize == 0 && fileSize == 0 ==> PieceCount(fileSize, pieceSize) == 0 && BitfieldBytes(fileSize, pieceSize) == 0
    ensures pieceSize == 0 && fileSize < 0 ==> PieceCount(fileSize, pieceSize) == INT_MIN && BitfieldBytes(fileSize, pieceSize) < 0
  {
    var n := PieceCount(fileSize, pieceSize);
    if fileSize < 0 < pieceSize {
      if n <= -8 {
        MulMonotone(n, -8, pieceSize);
      } else {
        MulMonotone(-7, n, pieceSize);
      }
      if n >= 1 {
        MulMonotone(1, n, pieceSize);
      } else if n <= -1 {
        MulMonotone(n, -1, pieceSize);
      }
    }
  }

  /** The bitset of one peer, as the source keeps it: the geometry fixed at
      construction and a byte array that `setPiece` updates in place and
      `setBitfield` replaces (`getBitfield` hands out that same array). */
  class BitfieldManager {
    const fileSize: int
    const pieceSize: int
    const numPieces: int
    var bitfield: array<byte>

    /** `numPieces` is an `int` and the array has the length the constructor
        gives it: one bit per piece, rounded up to whole bytes. */
    ghost predicate Valid()
      reads this
    {
      IsInt(numPieces) && bitfield.Length == JavaCeilDiv(numPieces, 8)
    }

    /** The array of a well-formed manager has a bit for every piece. */
    lemma ValidCovers()
      requires Valid()
      ensures NonNeg(numPieces) <= 8 * bitfield.Length <= INT_MAX + 1
    {
    }

    /** `new BitfieldManager(fileSize, pieceSize)` when the array size it
        computes is not negative; `NewBitfieldManager` covers the other
        case. */
    constructor (fileSize: int, pieceSize: int)
      requires IsInt(fileSize) && IsInt(pieceSize) && BitfieldBytes(fileSize, pieceSize) >= 0
      ensures this.fileSize == fileSize && this.pieceSize == pieceSize
      ensures numPieces == PieceCount(fileSize, pieceSize)
      ensures Valid() && fresh(bitfield) && bitfield.Length == BitfieldBytes(fileSize, pieceSize)
      ensures forall i :: 0 <= i < bitfield.Length ==> bitfield[i] == 0
    {
      this.fileSize := fileSize;
      this.pieceSize := pieceSize;
      numPieces := PieceCount(fileSize, pieceSize);
      bitfield := new byte[BitfieldBytes(fileSize, pieceSize)](_ => 0);
    }

    /** `setPiece`: marks one piece in place. */
    method SetPiece(pieceIndex: nat)
      requires pieceIndex < 8 * bitfield.Length
      modifies bitfield
      ensures bitfield[..] == WithPiece(old(bitfield[..]), pieceIndex)
    {
      var byteIndex := pieceIndex / 8;
      var bitIndex := pieceIndex % 8;
      bitfield[byteIndex] := Or(bitfield[byteIndex], Mask(bitIndex));
    }

    /** `hasPiece` on any `int` index. */
    method HasPiece(pieceIndex: int) returns (r: Result<bool>)
      ensures r == HasPieceAt(bitfield[..], pieceIndex)
    {
      var byteIndex := JavaDiv(pieceIndex, 8);
      var bitIndex := JavaRem(pieceIndex, 8);
      if byteIndex < 0 || byteIndex >= bitfield.Length {
        return Err(IndexOutOfBounds);
      }
      if bitIndex >= 0 {
        r := Ok(And(bitfield[byteIndex], Mask(bitIndex)) != 0);
      } else {
        r := Ok(HasBit(bitfield[byteIndex], 7));
      }
    }

    /** `fillBitfield`: marks every piece `0 .. numPieces-1`; the padding
        bits keep their values. */
    method FillBitfield()
      requires Valid()
      modifies bitfield
      ensures forall j :: 0 <= j < 8 * bitfield.Length ==>
        (Bit(bitfield[..], j) <==> j < numPieces || Bit(old(bitfield[..]), j))
    {
      ghost var before := bitfield[..];
      var i := 0;
      ValidCovers();
      while i < numPieces
        invariant 0 <= i <= NonNeg(numPieces) <= 8 * bitfield.Length
        invariant |bitfield[..]| == |before|
        invariant forall j :: 0 <= j < 8 * bitfield.Length ==>
          (Bit(bitfield[..], j) <==> j < i || Bit(before, j))
      {
        ghost var prev := bitfield[..];
        SetPiece(i);
        forall j | 0 <= j < 8 * bitfield.Length
          ensures Bit(bitfield[..], j) <==> j < i + 1 || Bit(before, j)
        {
          WithPieceBits(prev, i, j);
        }
        i := i + 1;
      }
    }

    /** `getBitField`: a fresh copy of the array; changing it later does not
        change the manager. */
    method GetBitField() returns (copy: array<byte>)
      ensures fresh(copy) && copy[..] == bitfield[..]
    {
      copy := new byte[bitfield.Length](i requires 0 <= i < bitfield.Length reads this, bitfield => bitfield[i]);
    }

    /** `setBitfield`: the manager adopts the given array itself, not a copy. */
    method SetBitfield(b: array<byte>)
      modifies this`bitfield
      ensures bitfield == b
    {
      bitfield := b;
    }

    /** `getNumContainedPieces`: the number of marked pieces below
        `numPieces`, asking `hasPiece` for each; when the array is too short
        for `numPieces` (a bitset replaced by `setBitfield`), `hasPiece`
        raises. */
    method GetNumContainedPieces() returns (r: Result<nat>)
      ensures r.Err? <==> numPieces > 8 * bitfield.Length
      ensures r.Err? ==> r.error == IndexOutOfBounds
      ensures r.Ok? ==> r.value == CountUpTo(bitfield[..], NonNeg(numPieces))
    {
      var totalContainedPieces := 0;
      var i := 0;
      while i < numPieces
        invariant 0 <= i <= NonNeg(numPieces) && i <= 8 * bitfield.Length
        invariant totalContainedPieces == CountUpTo(bitfield[..], i)
      {
        var has := HasPiece(i);
        HasPieceAtInRange(bitfield[..], i);
        if has.Err? {
          return Err(has.error);
        }
        if has.value {
          totalContainedPieces := totalContainedPieces + 1;
        }
        i := i + 1;
      }
      r := Ok(totalContainedPieces);
    }

    /** `hasCompelteFile`: every piece below `numPieces` is marked; a
        negative `numPieces` is never reached by the count, which is at
        least 0. */
    method HasCompleteFile() returns (r: Result<bool>)
      ensures r.Err? <==> numPieces > 8 * bitfield.Length
      ensures r.Err? ==> r.error == IndexOutOfBounds
      ensures r.Ok? ==> (r.value <==> 0 <= numPieces && forall i :: 0 <= i < numPieces ==> Bit(bitfield[..], i))
    {
      var n := GetNumContainedPieces();
      if n.Err? {
        return Err(n.error);
      }
      CountUpToBounds(bitfield[..], NonNeg(numPieces));
      r := Ok(n.value == numPieces);
    }

    /** `interested(b1, b2)`: fails on a length mismatch; otherwise scans the
        bytes and stops at the first one where `b2` has a bit `b1` lacks. */
    method Interested(b1: array<byte>, b2: array<byte>) returns (r: Result<bool>)
      ensures r.Err? <==> b1.Length != b2.Length
      ensures r.Err? ==> r.error == IllegalArgument
      ensures r.Ok? ==> r.value == Interesting(b1[..], b2[..])
    {
      if b1.Length != b2.Length {
        return Err(IllegalArgument);
      }
      var i := 0;
      while i < b1.Length
        invariant 0 <= i <= b1.Length
        invariant forall k :: 0 <= k < i ==> InterestingByte(b1[..], b2[..], k) == 0
      {
        var interestingPieces := And(b2[i], Not(b1[i]));
        assert interestingPieces == InterestingByte(b1[..], b2[..], i);
        if interestingPieces != 0 {
          return Ok(true);
        }
        i := i + 1;
      }
      r := Ok(false);
    }

    /** The inner loop of `missingPieces`: the bits of byte `i` of the
        interesting mask, from the top, each one set appending its piece. */
    static method ScanByte(ghost s1: seq<byte>, ghost s2: seq<byte>, i: nat, interestingPieces: byte, missing: seq<int>)
      returns (r: seq<int>)
      requires |s1| == |s2| && i < |s1| && interestingPieces == InterestingByte(s1, s2, i)
      requires missing == MissingBelow(s1, s2, 8 * i)
      ensures r == MissingBelow(s1, s2, 8 * i + 8)
    {
      r := missing;
      var j := 0;
      while j < 8
        invariant 0 <= j <= 8
        invariant r == MissingBelow(s1, s2, 8 * i + j)
      {
        MissingStep(s1, s2, i, j);
        if And(interestingPieces, Mask(j)) != 0 {
          var pieceIndex := i * 8 + j;
          r := r + [pieceIndex];
        }
        j := j + 1;
      }
    }

    /** `missingPieces(b1, b2)`: fails on a length mismatch; otherwise
        appends, byte by byte and bit by bit from the top, every piece `b2`
        has and `b1` lacks. */
    method MissingPieces(b1: array<byte>, b2: array<byte>) returns (r: Result<seq<int>>)
      ensures r.Err? <==> b1.Length != b2.Length
      ensures r.Err? ==> r.error == IllegalArgument
      ensures r.Ok? ==> r.value == Missing(b1[..], b2[..])
    {
      if b1.Length != b2.Length {
        return Err(IllegalArgument);
      }
      ghost var s1, s2 := b1[..], b2[..];
      var missing: seq<int> := [];
      var i := 0;
      while i < b1.Length
        invariant 0 <= i <= b1.Length
        invariant missing == MissingBelow(s1, s2, 8 * i)
      {
        var interestingPieces := And(b2[i], Not(b1[i]));
        assert interestingPieces == InterestingByte(s1, s2, i);
        if interestingPieces != 0 {
          missing := ScanByte(s1, s2, i, interestingPieces, missing);
        } else {
          NoMissingInByte(s1, s2, i, 8);
        }
        i := i + 1;
      }
      r := Ok(missing);
    }
  }


  /** `new BitfieldManager(fileSize, pieceSize)` on any two `int`s: the
      array allocation raises NegativeArraySizeException when the size the
      constructor computes is negative; otherwise a fresh manager with a
      zeroed array. */
  method NewBitfieldManager(fileSize: int, pieceSize: int) returns (r: Result<BitfieldManager>)
    requires IsInt(fileSize) && IsInt(pieceSize)
    ensures r.Err? <==> BitfieldBytes(fileSize, pieceSize) < 0
    ensures r.Err? ==> r.error == NegativeArraySize
    ensures r.Ok? ==> fresh(r.value) && fresh(r.value.bitfield) && r.value.Valid()
    ensures r.Ok? ==> r.value.fileSize == fileSize && r.value.pieceSize == pieceSize
    ensures r.Ok? ==> r.value.numPieces == PieceCount(fileSize, pieceSize) && r.value.bitfield.Length == BitfieldBytes(fileSize, pieceSize)
    ensures r.Ok? ==> forall i :: 0 <= i < r.value.bitfield.Length ==> r.value.bitfield[i] == 0
  {
    if BitfieldBytes(fileSize, pieceSize) < 0 {
      return Err(NegativeArraySize);
    }
    var m := new BitfieldManager(fileSize, pieceSize);
    r := Ok(m);
  }
}
