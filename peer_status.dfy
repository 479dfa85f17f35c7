/** The per-peer session record (PeerStatus.java): the peer's bitset, the
    choke and interest flags, the pieces requested from it, the pieces
    served to it since the last choking round, the choked list and its
    output stream. */
module Session {
  import opened Common
  import opened Bitfield

  /** An output stream, known by its identity; a write to it is recorded as a
      `Send` in a trace. */
  type Channel = nat

  /** One frame written to one stream. */
  datatype Send = Send(to: Channel, frame: seq<byte>)

  predicate NoDuplicates<T(==)>(s: seq<T>) {
    forall i, j :: 0 <= i < j < |s| ==> s[i] != s[j]
  }

  /** The list `addToChokedList(item)` leaves: `item` is appended only when it
      is absent. */
  function WithItem(l: seq<string>, item: string): seq<string>
  {
    if item in l then l else l + [item]
  }

  /** Adding keeps a duplicate-free list duplicate-free, adds exactly the item
      to its elements, and changes nothing when the item is already there. */
  lemma WithItemProperties(l: seq<string>, item: string)
    ensures NoDuplicates(l) ==> NoDuplicates(WithItem(l, item))
    ensures forall x :: x in WithItem(l, item) <==> x in l || x == item
    ensures item in l ==> WithItem(l, item) == l
    ensures l <= WithItem(l, item) && |WithItem(l, item)| <= |l| + 1
  {
  }

  class PeerStatus {
    const bitfieldManager: BitfieldManager
    var choked: bool
    var interested: bool
    var requestedPieces: set<int>
    var piecesDownloadSincePreviousChokingInterval: int
    var chokedList: seq<string>
    var out: Option<Channel>

    /** A fresh record: nothing requested, not choked, not interested, a zero
        counter, no stream, and an empty bitset sized from the file, when
        that size is not negative; `NewPeerStatus` covers the other case. */
    constructor (fileSize: int, pieceSize: int)
      requires IsInt(fileSize) && IsInt(pieceSize) && BitfieldBytes(fileSize, pieceSize) >= 0
      ensures !choked && !interested && requestedPieces == {} && chokedList == []
      ensures piecesDownloadSincePreviousChokingInterval == 0 && out == None
      ensures fresh(bitfieldManager) && fresh(bitfieldManager.bitfield)
      ensures bitfieldManager.fileSize == fileSize && bitfieldManager.pieceSize == pieceSize
      ensures bitfieldManager.numPieces == PieceCount(fileSize, pieceSize) && bitfieldManager.Valid()
      ensures bitfieldManager.bitfield.Length == BitfieldBytes(fileSize, pieceSize)
      ensures forall i :: 0 <= i < bitfieldManager.bitfield.Length ==> bitfieldManager.bitfield[i] == 0
    {
      bitfieldManager := new BitfieldManager(fileSize, pieceSize);
      interested := false;
      requestedPieces := {};
      choked := false;
      chokedList := [];
      piecesDownloadSincePreviousChokingInterval := 0;
      out := None;
    }

    /** `setChokedList(l)`: clears the list and copies `l` into it element by
        element; the record keeps its own list, not `l`. */
    method SetChokedList(l: seq<string>)
      modifies this`chokedList
      ensures chokedList == l
    {
      chokedList := [];
      var i := 0;
      while i < |l|
        invariant 0 <= i <= |l|
        invariant chokedList == l[..i]
      {
        chokedList := chokedList + [l[i]];
        assert l[..i + 1] == l[..i] + [l[i]];
        i := i + 1;
      }
      assert l[..i] == l;
    }

    /** `addToChokedList(item)`. */
    method AddToChokedList(item: string)
      modifies this`chokedList
      ensures chokedList == WithItem(old(chokedList), item)
    {
      if item !in chokedList {
        chokedList := chokedList + [item];
      }
    }

    /** `addRequestedPiece(piece)`: only that piece joins the set. */
    method AddRequestedPiece(piece: int)
      modifies this`requestedPieces
      ensures requestedPieces == old(requestedPieces) + {piece}
    {
      requestedPieces := requestedPieces + {piece};
    }

    method IsRequestedPiece(piece: int) returns (r: bool)
      ensures r <==> piece in requestedPieces
    {
      r := piece in requestedPieces;
    }

    /** `incrementPiecesDownloadSincePreviousChokingInterval`: `++` on a Java
        `int`, wrapping at the top of the range. */
    method IncrementPiecesDownloadSincePreviousChokingInterval()
      modifies this`piecesDownloadSincePreviousChokingInterval
      ensures piecesDownloadSincePreviousChokingInterval == Wrap32(old(piecesDownloadSincePreviousChokingInterval) + 1)
    {
      piecesDownloadSincePreviousChokingInterval := Wrap32(piecesDownloadSincePreviousChokingInterval + 1);
    }

    method SetPiecesDownloadSincePreviousChokingInterval(n: int)
      requires IsInt(n)
      modifies this`piecesDownloadSincePreviousChokingInterval
      ensures piecesDownloadSincePreviousChokingInterval == n
    {
      piecesDownloadSincePreviousChokingInterval := n;
    }

    method GetPiecesDownloadSincePreviousChokingInterval() returns (n: int)
      ensures n == piecesDownloadSincePreviousChokingInterval
    {
      n := piecesDownloadSincePreviousChokingInterval;
    }

    method SetInterested(b: bool)
      modifies this`interested
      ensures interested == b
    {
      interested := b;
    }

    method IsInterested() returns (b: bool)
      ensures b == interested
    {
      b := interested;
    }

    method SetChoked(b: bool)
      modifies this`choked
      ensures choked == b
    {
      choked := b;
    }

    method IsChoked() returns (b: bool)
      ensures b == choked
    {
      b := choked;
    }

    method SetOut(o: Option<Channel>)
      modifies this`out
      ensures out == o
    {
      out := o;
    }

    method GetOut() returns (o: Option<Channel>)
      ensures o == out
    {
      o := out;
    }

    /** `fillBitfield`: fills the record's bitset. */
    method FillBitfield()
      requires bitfieldManager.Valid()
      modifies bitfieldManager.bitfield
      ensures forall j :: 0 <= j < 8 * bitfieldManager.bitfield.Length ==>
        (Bit(bitfieldManager.bitfield[..], j) <==> j < bitfieldManager.numPieces || Bit(old(bitfieldManager.bitfield[..]), j))
    {
      bitfieldManager.FillBitfield();
    }
  }

  /** The incremented counter is one more than before unless it was at the
      top of the `int` range, where it wraps to the bottom. */
  lemma IncrementWraps(n: int)
    requires IsInt(n)
    ensures n < INT_MAX ==> Wrap32(n + 1) == n + 1
    ensures n == INT_MAX ==> Wrap32(n + 1) == INT_MIN
  {
  }

  /** `new PeerStatus(fileSize, pieceSize)` on any two `int`s: the bitset
      manager it builds first raises NegativeArraySizeException when its
      array size comes out negative; otherwise a fresh record. */
  method NewPeerStatus(fileSize: int, pieceSize: int) returns (r: Result<PeerStatus>)
    requires IsInt(fileSize) && IsInt(pieceSize)
    ensures r.Err? <==> BitfieldBytes(fileSize, pieceSize) < 0
    ensures r.Err? ==> r.error == NegativeArraySize
    ensures r.Ok? ==> fresh(r.value) && fresh(r.value.bitfieldManager) && fresh(r.value.bitfieldManager.bitfield)
    ensures r.Ok? ==> !r.value.choked && !r.value.interested && r.value.requestedPieces == {} && r.value.chokedList == []
    ensures r.Ok? ==> r.value.piecesDownloadSincePreviousChokingInterval == 0 && r.value.out == None
    ensures r.Ok? ==> r.value.bitfieldManager.fileSize == fileSize && r.value.bitfieldManager.pieceSize == pieceSize
    ensures r.Ok? ==> r.value.bitfieldManager.numPieces == PieceCount(fileSize, pieceSize) && r.value.bitfieldManager.Valid()
    ensures r.Ok? ==> r.value.bitfieldManager.bitfield.Length == BitfieldBytes(fileSize, pieceSize)
    ensures r.Ok? ==> forall i :: 0 <= i < r.value.bitfieldManager.bitfield.Length ==> r.value.bitfieldManager.bitfield[i] == 0
  {
    if BitfieldBytes(fileSize, pieceSize) < 0 {
      return Err(NegativeArraySize);
    }
    var status := new PeerStatus(fileSize, pieceSize);
    r := Ok(status);
  }
}
