/** One connection's message loop (SenderThread.java): the bitfield
    exchange, then, until every configured peer has the whole file, one
    message read off the stream and answered at a time. The input stream is
    the sequence of bytes the other peer has sent and this thread has not yet
    read; every frame written, to this connection or to another peer's
    stream, is appended to a trace. */
module Sender {
  import opened Common
  import opened Bitfield
  import opened Session
  import opened Storage
  import opened PeerInfoConfig
  import opened Wire
  import opened Buffers
  import opened Choking

  /** How a thread's run ends: every configured peer has the whole file; the
      stream is empty, where the source polls `available()` until more
      arrives; every missing piece is already requested, where the random
      pick never ends; or a runtime exception ended the thread. */
  datatype Halt = Finished | Idle | Spinning | Crashed(error: Failure)

  /** The frames without payload the thread writes. */
  const INTERESTED_FRAME: seq<byte> := [0, 0, 0, 1, 2]
  const NOT_INTERESTED_FRAME: seq<byte> := [0, 0, 0, 1, 3]

  /** `have` and `request` carry the piece index as a big-endian `int`. */
  function HaveFrame(piece: int): seq<byte>
    requires IsInt(piece)
  {
    BE32(5) + [HAVE] + BE32(piece)
  }

  function RequestFrame(piece: int): seq<byte>
    requires IsInt(piece)
  {
    BE32(5) + [REQUEST] + BE32(piece)
  }

  /** One message read off a stream holding `s`, and what is left: four
      length bytes, one type byte (a signed Java `byte`) and `length - 1`
      payload bytes, each read into a fresh array of that size; a length
      below 1 asks for an array of negative size. */
  function NextMessage(s: seq<byte>): (r: (Result<Message>, seq<byte>))
    ensures |r.1| <= |s| && (s != [] ==> |r.1| < |s|)
  {
    var length := BE32Signed(Padded(s, 4));
    var s1 := Rest(s, 4);
    var messageType := SignedByte(Padded(s1, 1)[0]);
    var s2 := Rest(s1, 1);
    var size := Wrap32(length - 1);
    if size < 0 then (Err(NegativeArraySize), s2)
    else (Ok(Message(messageType, Padded(s2, size))), Rest(s2, size))
  }

  /** A frame `generateActualMessage` built reads back, off the stream, as
      the message it was built from, and the bytes after it stay unread. */
  lemma NextMessageOfFrame(messageType: byte, payload: seq<byte>, rest: seq<byte>)
    requires |payload| + 5 <= INT_MAX
    ensures NextMessage(Frame(1 + |payload|, messageType, Some(payload)).value + rest)
      == (Ok(Message(SignedByte(messageType), payload)), rest)
  {
    FrameExact(messageType, payload);
    BE32RoundTrip(1 + |payload|);
    var s := BE32(1 + |payload|) + [messageType] + payload + rest;
    assert Frame(1 + |payload|, messageType, Some(payload)).value + rest == s;
    assert Padded(s, 4) == BE32(1 + |payload|);
    var s1 := Rest(s, 4);
    assert s1 == [messageType] + payload + rest;
    assert Padded(s1, 1) == [messageType];
    var s2 := Rest(s1, 1);
    assert s2 == payload + rest;
    assert Padded(s2, |payload|) == payload;
    assert Rest(s2, |payload|) == rest;
  }

  /** The answer to the peer's bitfield: interested when the peer has a piece
      self lacks, not interested otherwise; bitsets of different lengths
      raise IllegalArgumentException. */
  function BitfieldReply(selfBits: seq<byte>, clientBits: seq<byte>): Result<seq<byte>>
  {
    if |selfBits| != |clientBits| then Err(IllegalArgument)
    else if Interesting(selfBits, clientBits) then Ok(INTERESTED_FRAME)
    else Ok(NOT_INTERESTED_FRAME)
  }

  /** The bitfield answer says interested exactly when there is a piece the
      peer has and self lacks. */
  lemma BitfieldReplyInterested(selfBits: seq<byte>, clientBits: seq<byte>)
    requires |selfBits| == |clientBits|
    ensures BitfieldReply(selfBits, clientBits) == Ok(INTERESTED_FRAME) <==> exists p: int :: 0 <= p && MissingAt(selfBits, clientBits, p)
    ensures BitfieldReply(selfBits, clientBits) == Ok(NOT_INTERESTED_FRAME) <==> Missing(selfBits, clientBits) == []
  {
    InterestingIffMissing(selfBits, clientBits);
    MissingMembers(selfBits, clientBits);
    if Missing(selfBits, clientBits) != [] {
      assert Missing(selfBits, clientBits)[0] in Missing(selfBits, clientBits);
    }
  }

  /** The answer to `have`: the payload's first four bytes name the piece,
      and interested is sent when self lacks it; a payload shorter than four
      bytes underflows, and an index outside self's bitset raises. */
  function HaveReply(selfBits: seq<byte>, payload: seq<byte>): Result<Option<seq<byte>>>
  {
    if |payload| < 4 then Err(BufferUnderflow)
    else match HasPieceAt(selfBits, BE32Signed(payload[..4]))
      case Err(e) => Err(e)
      case Ok(has) => Ok(if has then None else Some(INTERESTED_FRAME))
  }

  /** The `have` another peer broadcasts for piece `p` reads back as a `have`
      for `p`, and is answered with interested exactly when self lacks `p`. */
  lemma HaveRoundTrip(selfBits: seq<byte>, p: nat, rest: seq<byte>)
    requires p < 8 * |selfBits| && IsInt(p)
    ensures NextMessage(HaveFrame(p) + rest) == (Ok(Message(HAVE as int, BE32(p))), rest)
    ensures HaveReply(selfBits, BE32(p)) == Ok(if Bit(selfBits, p) then None else Some(INTERESTED_FRAME))
  {
    FrameExact(HAVE, BE32(p));
    NextMessageOfFrame(HAVE, BE32(p), rest);
    BE32RoundTrip(p);
    assert BE32(p)[..4] == BE32(p);
    HasPieceAtInRange(selfBits, p);
  }

  /** The answer to `request`: the piece the payload's first four bytes
      name, read from the file and framed with length `|piece| + 1` (an
      `int` sum); a short payload underflows, a read that raises ends the
      thread with that exception, a piece that cannot be read is a null
      array, and the frame can fail. */
  function PieceReply(file: seq<byte>, fileSize: int, pieceSize: int, numPieces: int, payload: seq<byte>): Result<seq<byte>>
    requires IsInt(numPieces)
  {
    if |payload| < 4 then Err(BufferUnderflow)
    else match ReadPieceOf(file, fileSize, pieceSize, numPieces, BE32Signed(payload[..4]))
      case Err(e) => Err(e)
      case Ok(None) => Err(NullPointer)
      case Ok(Some(piece)) => Frame(Wrap32(|piece| + 1), PIECE, Some(piece))
  }

  /** A request for piece `p` that the file holds is answered with a `piece`
      frame that reads back, on the other side, as exactly that piece. */
  lemma RequestRoundTrip(file: seq<byte>, fileSize: int, pieceSize: int, numPieces: int, p: int, rest: seq<byte>)
    requires IsInt(numPieces) && IsInt(p)
    requires ReadPieceOf(file, fileSize, pieceSize, numPieces, p).Ok? && ReadPieceOf(file, fileSize, pieceSize, numPieces, p).value.Some?
    requires |ReadPieceOf(file, fileSize, pieceSize, numPieces, p).value.value| + 5 <= INT_MAX
    ensures NextMessage(RequestFrame(p) + rest) == (Ok(Message(REQUEST as int, BE32(p))), rest)
    ensures var piece := ReadPieceOf(file, fileSize, pieceSize, numPieces, p).value.value;
      PieceReply(file, fileSize, pieceSize, numPieces, BE32(p)).Ok?
      && NextMessage(PieceReply(file, fileSize, pieceSize, numPieces, BE32(p)).value + rest) == (Ok(Message(PIECE as int, piece)), rest)
  {
    var piece := ReadPieceOf(file, fileSize, pieceSize, numPieces, p).value.value;
    FrameExact(REQUEST, BE32(p));
    NextMessageOfFrame(REQUEST, BE32(p), rest);
    BE32RoundTrip(p);
    assert BE32(p)[..4] == BE32(p);
    assert Wrap32(|piece| + 1) == 1 + |piece|;
    NextMessageOfFrame(PIECE, piece, rest);
  }

  /** What the unchoke handler does with the two bitsets and self's
      requested set. */
  datatype Choice = Mismatch | NothingMissing | AllRequested | Pick(piece: int)

  /** A bitset that `hasCompelteFile` answers true for: a count of pieces
      that is not negative, an array long enough for that many bits, all of
      them set. */
  ghost predicate Complete(m: BitfieldManager)
    reads m, m.bitfield
  {
    AllSet(m.bitfield[..], m.numPieces)
  }

  /** `n` is not negative, `bits` has at least `n` bits, and bits `0` to
      `n - 1` are set. */
  ghost predicate AllSet(bits: seq<byte>, n: int) {
    0 <= n <= 8 * |bits| && forall i :: 0 <= i < n ==> Bit(bits, i)
  }

  /** `allPeersDownloadCompleted` from position `i` of the list on: the first
      peer whose bitset is incomplete gives false, and one whose array is too
      short for its pieces makes `hasPiece` raise. */
  ghost function CompleteFrom(peers: seq<Peer>, reg: map<string, PeerStatus>, i: nat): Result<bool>
    requires Covers(peers, reg)
    reads set r | r in reg.Values :: r.bitfieldManager
    reads set r | r in reg.Values :: r.bitfieldManager.bitfield
    decreases |peers| - i
  {
    if i >= |peers| then Ok(true)
    else
      var m := reg[peers[i].peerId].bitfieldManager;
      if m.numPieces > 8 * m.bitfield.Length then Err(IndexOutOfBounds)
      else if !Complete(m) then Ok(false)
      else CompleteFrom(peers, reg, i + 1)
  }

  /** The check says true exactly when every listed peer's bitset is
      complete, and it raises only for a peer whose array is too short. */
  lemma {:induction false} CompleteFromMeans(peers: seq<Peer>, reg: map<string, PeerStatus>, i: nat)
    requires Covers(peers, reg)
    ensures CompleteFrom(peers, reg, i) == Ok(true) <==>
      forall k :: i <= k < |peers| ==> Complete(reg[peers[k].peerId].bitfieldManager)
    ensures CompleteFrom(peers, reg, i).Err? ==>
      exists k :: i <= k < |peers| && reg[peers[k].peerId].bitfieldManager.numPieces > 8 * reg[peers[k].peerId].bitfieldManager.bitfield.Length
    decreases |peers| - i
  {
    if i < |peers| {
      CompleteFromMeans(peers, reg, i + 1);
    }
  }

  /** `CompleteFrom` with the contents of the array `selfArr` taken to be
      `bits`: the check as it would come out when self's bitset holds `bits`
      and every other listed bitset holds what it holds now. It reads no
      element of `selfArr`. */
  ghost function CompleteWith(peers: seq<Peer>, reg: map<string, PeerStatus>, selfArr: array<byte>, bits: seq<byte>, i: nat): Result<bool>
    requires Covers(peers, reg)
    reads set r | r in reg.Values :: r.bitfieldManager
    reads set r | r in reg.Values && r.bitfieldManager.bitfield != selfArr :: r.bitfieldManager.bitfield
    decreases |peers| - i
  {
    if i >= |peers| then Ok(true)
    else
      var m := reg[peers[i].peerId].bitfieldManager;
      var contents := if m.bitfield == selfArr then bits else m.bitfield[..];
      if m.numPieces > 8 * |contents| then Err(IndexOutOfBounds)
      else if !AllSet(contents, m.numPieces) then Ok(false)
      else CompleteWith(peers, reg, selfArr, bits, i + 1)
  }

  /** With `bits` the array's own contents, that is the check itself. */
  lemma {:induction false} CompleteWithCurrent(peers: seq<Peer>, reg: map<string, PeerStatus>, selfArr: array<byte>, i: nat)
    requires Covers(peers, reg)
    ensures CompleteWith(peers, reg, selfArr, selfArr[..], i) == CompleteFrom(peers, reg, i)
    decreases |peers| - i
  {
    if i < |peers| {
      var m := reg[peers[i].peerId].bitfieldManager;
      assert (if m.bitfield == selfArr then selfArr[..] else m.bitfield[..]) == m.bitfield[..];
      CompleteWithCurrent(peers, reg, selfArr, i + 1);
    }
  }

  /** What the have loop writes to one peer's stream `o`: nothing without a
      stream; otherwise `have` and, unless self is still interested in this
      connection's peer, not interested. */
  function Announce(o: Option<Channel>, have: seq<byte>, stillInterested: bool): seq<Send>
  {
    if o.None? then []
    else [Send(o.value, have)] + (if stillInterested then [] else [Send(o.value, NOT_INTERESTED_FRAME)])
  }

  /** The stream of each listed peer's record, in list order. */
  ghost function Outs(peers: seq<Peer>, reg: map<string, PeerStatus>): (r: seq<Option<Channel>>)
    requires Covers(peers, reg)
    reads reg.Values`out
    ensures |r| == |peers| && forall k :: 0 <= k < |peers| ==> r[k] == reg[peers[k].peerId].out
  {
    if peers == [] then []
    else
      assert Covers(peers[..|peers| - 1], reg);
      Outs(peers[..|peers| - 1], reg) + [reg[peers[|peers| - 1].peerId].out]
  }

  /** The frames the have loop writes for the first `n` listed peers, whose
      streams are `outs`, self skipped. */
  function HaveSends(outs: seq<Option<Channel>>, selfIdx: nat, have: seq<byte>, stillInterested: bool, n: nat): seq<Send>
    requires n <= |outs|
  {
    if n == 0 then []
    else
      HaveSends(outs, selfIdx, have, stillInterested, n - 1)
      + (if n - 1 == selfIdx then [] else Announce(outs[n - 1], have, stillInterested))
  }

  /** Some peer among the first `n` listed, self excepted, has stream `c`. */
  predicate Listed(outs: seq<Option<Channel>>, selfIdx: nat, c: Channel, n: nat)
    requires n <= |outs|
  {
    exists k :: 0 <= k < n && k != selfIdx && outs[k] == Some(c)
  }

  /** The frames announced to one stream. */
  lemma AnnounceMembers(o: Option<Channel>, have: seq<byte>, stillInterested: bool, c: Channel, f: seq<byte>)
    ensures Send(c, f) in Announce(o, have, stillInterested) <==>
      (f == have || (!stillInterested && f == NOT_INTERESTED_FRAME)) && o == Some(c)
  {
    if o == Some(c) && f == have {
      assert Announce(o, have, stillInterested)[0] == Send(c, f);
    }
    if o == Some(c) && !stillInterested && f == NOT_INTERESTED_FRAME {
      assert Announce(o, have, stillInterested)[1] == Send(c, f);
    }
  }

  /** One more listed peer. */
  lemma ListedNext(outs: seq<Option<Channel>>, selfIdx: nat, c: Channel, n: nat)
    requires 0 < n <= |outs|
    ensures Listed(outs, selfIdx, c, n) <==> Listed(outs, selfIdx, c, n - 1) || (n - 1 != selfIdx && outs[n - 1] == Some(c))
  {
    if Listed(outs, selfIdx, c, n) && !(n - 1 != selfIdx && outs[n - 1] == Some(c)) {
      var k :| 0 <= k < n && k != selfIdx && outs[k] == Some(c);
      assert Listed(outs, selfIdx, c, n - 1);
    }
    if n - 1 != selfIdx && outs[n - 1] == Some(c) {
      assert Listed(outs, selfIdx, c, n);
    }
  }

  /** A frame of the have loop goes to stream `c` exactly when some listed
      peer other than self has `c` as its stream; it is the `have`, or not
      interested when self has lost interest. */
  lemma {:induction false} HaveSendsMembers(outs: seq<Option<Channel>>, selfIdx: nat, have: seq<byte>, stillInterested: bool, n: nat)
    requires n <= |outs|
    ensures forall c: Channel, f: seq<byte> :: Send(c, f) in HaveSends(outs, selfIdx, have, stillInterested, n) <==>
      (f == have || (!stillInterested && f == NOT_INTERESTED_FRAME)) && Listed(outs, selfIdx, c, n)
  {
    if n > 0 {
      HaveSendsMembers(outs, selfIdx, have, stillInterested, n - 1);
      var prev := HaveSends(outs, selfIdx, have, stillInterested, n - 1);
      var last := if n - 1 == selfIdx then [] else Announce(outs[n - 1], have, stillInterested);
      assert HaveSends(outs, selfIdx, have, stillInterested, n) == prev + last;
      forall c: Channel, f: seq<byte>
        ensures Send(c, f) in prev + last <==> (f == have || (!stillInterested && f == NOT_INTERESTED_FRAME)) && Listed(outs, selfIdx, c, n)
      {
        var wanted := f == have || (!stillInterested && f == NOT_INTERESTED_FRAME);
        assert Send(c, f) in prev + last <==> Send(c, f) in prev || Send(c, f) in last;
        assert Send(c, f) in prev <==> wanted && Listed(outs, selfIdx, c, n - 1);
        AnnounceMembers(outs[n - 1], have, stillInterested, c, f);
        assert Send(c, f) in last <==> wanted && n - 1 != selfIdx && outs[n - 1] == Some(c);
        ListedNext(outs, selfIdx, c, n);
      }
    }
  }

  lemma AppendAssociative<T>(a: seq<T>, b: seq<T>, c: seq<T>)
    ensures a + b + c == a + (b + c)
  {
  }

  /** `ByteBuffer.allocate(4).putInt(x).array()`. */
  method IntBytes(x: int) returns (b: seq<byte>)
    requires IsInt(x)
    ensures b == BE32(x)
  {
    var buffer := new ByteBuffer.Allocate(4);
    var ok := buffer.PutInt(x);
    b := buffer.hb[..];
  }

  /** `ByteBuffer.wrap(payload).getInt()`. */
  method PayloadInt(payload: seq<byte>) returns (r: Result<int>)
    ensures r.Err? <==> |payload| < 4
    ensures r.Err? ==> r.error == BufferUnderflow
    ensures r.Ok? ==> r.value == BE32Signed(payload[..4])
  {
    var a := new byte[|payload|](k requires 0 <= k < |payload| => payload[k]);
    var buffer := new ByteBuffer.Wrap(a);
    assert buffer.Remaining() == payload;
    r := buffer.GetInt();
  }

  /** The frame a reply, if any, puts on stream `c`. */
  function Out(c: Channel, frame: Option<seq<byte>>): seq<Send> {
    if frame.Some? then [Send(c, frame.value)] else []
  }

  /** The frame that carries self's bitset `b`. */
  function BitfieldFrame(b: seq<byte>): seq<byte>
    requires IsInt(1 + |b|)
  {
    BE32(1 + |b|) + [BITFIELD] + b
  }

  /** What the unchoke handler may choose, given self's bitset `b1`, the
      peer's `b2` and the pieces self has requested: bitsets of different
      lengths make `missingPieces` raise, nothing may be missing, every
      missing piece may be requested already (the random pick then draws
      forever), or a missing piece not yet requested is picked. */
  predicate Chosen(b1: seq<byte>, b2: seq<byte>, requested: set<int>, c: Choice) {
    match c
    case Mismatch => |b1| != |b2|
    case NothingMissing => |b1| == |b2| && Missing(b1, b2) == []
    case AllRequested => |b1| == |b2| && Missing(b1, b2) != [] && forall p :: p in Missing(b1, b2) ==> p in requested
    case Pick(p) => |b1| == |b2| && p in Missing(b1, b2) && p !in requested && 0 <= p < 8 * |b1|
  }

  /** Only the pick is left to chance: the other three outcomes are each
      forced by the state, and a picked piece is one the peer has and self
      lacks, inside self's bitset. */
  lemma ChosenDetermined(b1: seq<byte>, b2: seq<byte>, requested: set<int>, c: Choice)
    requires Chosen(b1, b2, requested, c)
    ensures c == Mismatch <==> |b1| != |b2|
    ensures c == NothingMissing <==> |b1| == |b2| && Missing(b1, b2) == []
    ensures c == AllRequested <==> |b1| == |b2| && Missing(b1, b2) != [] && forall p :: p in Missing(b1, b2) ==> p in requested
    ensures c.Pick? ==> 0 <= c.piece < 8 * |b1| && MissingAt(b1, b2, c.piece) && c.piece !in requested
  {
    if c.Pick? {
      MissingMembers(b1, b2);
    }
  }

  /** Some outcome is always possible, and a piece is picked exactly when a
      missing piece is not yet requested. */
  lemma ChosenExists(b1: seq<byte>, b2: seq<byte>, requested: set<int>)
    ensures exists c :: Chosen(b1, b2, requested, c)
    ensures (exists c :: Chosen(b1, b2, requested, c) && c.Pick?) <==>
      |b1| == |b2| && exists p :: p in Missing(b1, b2) && p !in requested
  {
    if |b1| != |b2| {
      assert Chosen(b1, b2, requested, Mismatch);
    } else if Missing(b1, b2) == [] {
      assert Chosen(b1, b2, requested, NothingMissing);
    } else if forall p :: p in Missing(b1, b2) ==> p in requested {
      assert Chosen(b1, b2, requested, AllRequested);
    } else {
      var p :| p in Missing(b1, b2) && p !in requested;
      MissingMembers(b1, b2);
      assert Chosen(b1, b2, requested, Pick(p));
    }
  }

  /** What one message can change, and what the thread's answers depend
      on: the unread bytes, the trace, the file, self's and the peer's
      bitsets, self's requested set, the peer's interest flag and served
      counter, and the streams of the listed peers. */
  datatype View = View(inbound: seq<byte>, sent: seq<Send>, file: seq<byte>, selfBits: seq<byte>, clientBits: seq<byte>,
                       requested: set<int>, interested: bool, served: int, outs: seq<Option<Channel>>)

  class SenderThread {
    const peers: seq<Peer>
    const selfIdx: nat
    const self: Peer
    const clientPeerID: string
    const peerStatusMap: map<string, PeerStatus>
    const fileManager: FileManager
    /** This connection's output stream. */
    const out: Channel
    /** `peerStatusMap.get(self.getPeerId())` and
        `peerStatusMap.get(clientPeerID)`: the map is never changed, so every
        lookup finds these two records. */
    const selfRecord: PeerStatus
    const clientRecord: PeerStatus
    /** The bytes the other peer has sent that are not read yet. */
    var inbound: seq<byte>
    /** Every frame the thread has written, in order. */
    var sent: seq<Send>

    function SelfBits(): array<byte>
      reads selfRecord.bitfieldManager`bitfield
    {
      selfRecord.bitfieldManager.bitfield
    }

    function ClientBits(): array<byte>
      reads clientRecord.bitfieldManager`bitfield
    {
      clientRecord.bitfieldManager.bitfield
    }

    /** The thread's part of the state, read off the objects. */
    ghost function Now(): View
      requires Covers(peers, peerStatusMap)
      reads this`inbound, this`sent, fileManager`file, selfRecord`requestedPieces
      reads clientRecord`interested, clientRecord`piecesDownloadSincePreviousChokingInterval
      reads selfRecord.bitfieldManager`bitfield, clientRecord.bitfieldManager`bitfield, SelfBits(), ClientBits()
      reads peerStatusMap.Values`out
    {
      View(inbound, sent, fileManager.file, SelfBits()[..], ClientBits()[..], selfRecord.requestedPieces,
           clientRecord.interested, clientRecord.piecesDownloadSincePreviousChokingInterval, Outs(peers, peerStatusMap))
    }

    /** A picked piece `p` downloaded from state `v` to state `w`: `p` joins
        the requested set and its request is written; one message is read;
        when it is readable, its payload is written at the piece's offset, the
        piece is marked, and the have loop announces it to the other listed
        peers; when it is not, the thread ends with the exception and neither
        file nor bitset changes. The peer's bitset, flag and counter, and the
        streams, stay as they were. */
    ghost predicate Downloaded(p: int, v: View, w: View, h: Option<Halt>) {
      0 <= p < 8 * |v.selfBits| && IsInt(p) && |v.selfBits| == |v.clientBits|
      && var msg := NextMessage(v.inbound).0;
      var request := v.sent + [Send(out, RequestFrame(p))];
      w.requested == v.requested + {p} && w.inbound == NextMessage(v.inbound).1
      && w.clientBits == v.clientBits && w.interested == v.interested && w.served == v.served && w.outs == v.outs
      && if msg.Err? then
           h == Some(Crashed(msg.error)) && w.sent == request && w.file == v.file && w.selfBits == v.selfBits
         else
           h == None && w.file == Written(v.file, Wrap32(p * fileManager.pieceSize), msg.value.payload)
           && w.selfBits == WithPiece(v.selfBits, p)
           && w.sent == request + HaveSends(v.outs, selfIdx, HaveFrame(p), Interesting(w.selfBits, w.clientBits), |v.outs|)
    }

    /** The unchoke handler from state `v` to state `w`: the choice is one
        `Chosen` allows; a length mismatch ends the thread with
        IllegalArgumentException, nothing missing returns, every missing
        piece requested is the endless draw, each changing nothing, and a
        picked piece is downloaded. */
    ghost predicate Unchoked(v: View, w: View, c: Choice, h: Option<Halt>) {
      Chosen(v.selfBits, v.clientBits, v.requested, c)
      && match c
         case Mismatch => h == Some(Crashed(IllegalArgument)) && w == v
         case NothingMissing => h == None && w == v
         case AllRequested => h == Some(Spinning) && w == v
         case Pick(p) => Downloaded(p, v, w, h)
    }

    /** Message `m` handled from state `v` to state `w`, by type: unchoke as
        above, with the choice it made; interested and not interested set the
        peer's flag; `have` and `request` write their answer, a request also
        counting one more piece served, and an answer that raises ends the
        thread with nothing written or counted; choke and every other type
        change nothing. */
    ghost predicate Handled(m: Message, v: View, w: View, c: Option<Choice>, h: Option<Halt>)
      requires fileManager.Valid()
    {
      if m.msgType == UNCHOKE as int then c.Some? && Unchoked(v, w, c.value, h)
      else c == None && Answered(m, v, w, h)
    }

    /** Every type but unchoke, from state `v` to state `w`. */
    ghost predicate Answered(m: Message, v: View, w: View, h: Option<Halt>)
      requires fileManager.Valid()
    {
      if m.msgType == INTERESTED as int then h == None && w == v.(interested := true)
      else if m.msgType == NOT_INTERESTED as int then h == None && w == v.(interested := false)
      else if m.msgType == HAVE as int then
        match HaveReply(v.selfBits, m.payload)
        case Err(e) => h == Some(Crashed(e)) && w == v
        case Ok(reply) => h == None && w == v.(sent := v.sent + Out(out, reply))
      else if m.msgType == REQUEST as int then
        match PieceReply(v.file, fileManager.fileSize, fileManager.pieceSize, fileManager.numPieces, m.payload)
        case Err(e) => h == Some(Crashed(e)) && w == v
        case Ok(frame) => h == None && w == v.(sent := v.sent + [Send(out, frame)], served := Wrap32(v.served + 1))
      else h == None && w == v
    }

    /** The completion check `allPeersDownloadCompleted` in state `v`: self's
        bitset as `v` has it, every other listed bitset as it is now. The
        message loop changes no bitset but self's. */
    ghost function Done(v: View): Result<bool>
      requires Covers(peers, peerStatusMap)
      reads selfRecord.bitfieldManager`bitfield
      reads set r | r in peerStatusMap.Values :: r.bitfieldManager
      reads set r | r in peerStatusMap.Values && r.bitfieldManager.bitfield != selfRecord.bitfieldManager.bitfield :: r.bitfieldManager.bitfield
    {
      CompleteWith(peers, peerStatusMap, selfRecord.bitfieldManager.bitfield, v.selfBits, 0)
    }

    /** The opening exchange from state `v` to state `w`: self's bitset goes
        out first and one message is read; a bitfield becomes the peer's bitset
        and is answered, and any other type is ignored. An unreadable frame, or
        a bitfield whose answer raises, ends the thread. Nothing else in the
        state changes. */
    ghost predicate Opened(v: View, w: View, h: Option<Halt>)
      requires IsInt(1 + |v.selfBits|)
    {
      var msg := NextMessage(v.inbound).0;
      var opening := v.sent + [Send(out, BitfieldFrame(v.selfBits))];
      w.inbound == NextMessage(v.inbound).1 && w.file == v.file && w.selfBits == v.selfBits
      && w.requested == v.requested && w.interested == v.interested && w.served == v.served && w.outs == v.outs
      && if msg.Err? then
           h == Some(Crashed(msg.error)) && w.sent == opening && w.clientBits == v.clientBits
         else if msg.value.msgType != BITFIELD as int then
           h == None && w.sent == opening && w.clientBits == v.clientBits
         else
           w.clientBits == msg.value.payload
           && match BitfieldReply(v.selfBits, msg.value.payload)
              case Err(e) => h == Some(Crashed(e)) && w.sent == opening
              case Ok(reply) => h == None && w.sent == opening + [Send(out, reply)]
    }

    /** One turn of the message loop from state `v` to state `w`: a frame
        that cannot be read ends the thread with only the input consumed; a
        frame read is handled from the state after reading it. */
    ghost predicate Turn(v: View, w: View, c: Option<Choice>, h: Option<Halt>)
      requires fileManager.Valid()
    {
      var read := v.(inbound := NextMessage(v.inbound).1);
      match NextMessage(v.inbound).0
      case Err(e) => h == Some(Crashed(e)) && c == None && w == read
      case Ok(m) => Handled(m, read, w, c, h)
    }

    /** The completion check in state `v` ends the loop with `h`: true is
        `Finished`, an exception is `Crashed`, and false on an empty stream is
        `Idle`. */
    ghost predicate Stopped(v: View, h: Halt)
      requires Covers(peers, peerStatusMap)
      reads selfRecord.bitfieldManager`bitfield
      reads set r | r in peerStatusMap.Values :: r.bitfieldManager
      reads set r | r in peerStatusMap.Values && r.bitfieldManager.bitfield != selfRecord.bitfieldManager.bitfield :: r.bitfieldManager.bitfield
    {
      match Done(v)
      case Err(e) => h == Crashed(e)
      case Ok(true) => h == Finished
      case Ok(false) => v.inbound == [] && h == Idle
    }

    /** The message loop has gone through the states `views`, with the unchoke
        choices `choices` of its turns, and goes on: before every turn the
        completion check said false and input was left, and no turn ended the
        thread. */
    ghost predicate Continued(views: seq<View>, choices: seq<Option<Choice>>)
      requires Covers(peers, peerStatusMap) && fileManager.Valid()
      reads selfRecord.bitfieldManager`bitfield
      reads set r | r in peerStatusMap.Values :: r.bitfieldManager
      reads set r | r in peerStatusMap.Values && r.bitfieldManager.bitfield != selfRecord.bitfieldManager.bitfield :: r.bitfieldManager.bitfield
    {
      |views| == |choices| + 1
      && (forall i :: 0 <= i < |choices| ==> Done(views[i]) == Ok(false) && views[i].inbound != [])
      && (forall i :: 0 <= i < |choices| ==> Turn(views[i], views[i + 1], choices[i], None))
    }

    /** The whole message loop, through the states `views` with the choices
        `choices`, ending with `h`: the turns before the last go on, and
        either the last turn ends the thread with `h`, or the loop goes on to
        a completion check that stops it with `h`. */
    ghost predicate Served(views: seq<View>, choices: seq<Option<Choice>>, h: Halt)
      requires Covers(peers, peerStatusMap) && fileManager.Valid()
      reads selfRecord.bitfieldManager`bitfield
      reads set r | r in peerStatusMap.Values :: r.bitfieldManager
      reads set r | r in peerStatusMap.Values && r.bitfieldManager.bitfield != selfRecord.bitfieldManager.bitfield :: r.bitfieldManager.bitfield
    {
      var n := |choices|;
      |views| == n + 1
      && ((Continued(views, choices) && Stopped(views[n], h))
          || (n > 0 && Continued(views[..n], choices[..n - 1])
              && Done(views[n - 1]) == Ok(false) && views[n - 1].inbound != []
              && Turn(views[n - 1], views[n], choices[n - 1], Some(h))))
    }

    /** One more turn that goes on extends the loop. */
    lemma ContinuedAppend(views: seq<View>, choices: seq<Option<Choice>>, w: View, c: Option<Choice>)
      requires Covers(peers, peerStatusMap) && fileManager.Valid() && Continued(views, choices)
      requires Done(views[|choices|]) == Ok(false) && views[|choices|].inbound != []
      requires Turn(views[|choices|], w, c, None)
      ensures Continued(views + [w], choices + [c])
    {
      var vs, cs := views + [w], choices + [c];
      forall i | 0 <= i < |cs|
        ensures Done(vs[i]) == Ok(false) && vs[i].inbound != []
        ensures Turn(vs[i], vs[i + 1], cs[i], None)
      {
        if i < |choices| {
          assert vs[i] == views[i] && vs[i + 1] == views[i + 1] && cs[i] == choices[i];
        }
      }
    }

    /** A loop that went on and then reached a check that stops it. */
    lemma ServedAtCheck(views: seq<View>, choices: seq<Option<Choice>>, h: Halt)
      requires Covers(peers, peerStatusMap) && fileManager.Valid() && Continued(views, choices)
      requires Stopped(views[|choices|], h)
      ensures Served(views, choices, h)
    {
    }

    /** The completion check reads only the managers' array references and
        the bitsets other than self's, so it keeps its value while those are
        unchanged. */
    twostate lemma DoneKept(v: View)
      requires Covers(peers, peerStatusMap) && unchanged(selfRecord.bitfieldManager)
      requires unchanged(set r | r in peerStatusMap.Values :: r.bitfieldManager)
      requires unchanged(set r | r in peerStatusMap.Values && r.bitfieldManager.bitfield != selfRecord.bitfieldManager.bitfield :: r.bitfieldManager.bitfield)
      ensures Done(v) == old(Done(v))
    {
    }

    /** The same for every state of a record of the loop. */
    twostate lemma DoneAllKept(views: seq<View>)
      requires Covers(peers, peerStatusMap) && unchanged(selfRecord.bitfieldManager)
      requires unchanged(set r | r in peerStatusMap.Values :: r.bitfieldManager)
      requires unchanged(set r | r in peerStatusMap.Values && r.bitfieldManager.bitfield != selfRecord.bitfieldManager.bitfield :: r.bitfieldManager.bitfield)
      ensures forall i :: 0 <= i < |views| ==> Done(views[i]) == old(Done(views[i]))
    {
      forall i | 0 <= i < |views|
        ensures Done(views[i]) == old(Done(views[i]))
      {
        DoneKept(views[i]);
      }
    }

    /** A loop that went on and then took a turn that ended the thread. */
    lemma ServedAtHalt(views: seq<View>, choices: seq<Option<Choice>>, w: View, c: Option<Choice>, h: Halt)
      requires Covers(peers, peerStatusMap) && fileManager.Valid() && Continued(views, choices)
      requires Done(views[|choices|]) == Ok(false) && views[|choices|].inbound != []
      requires Turn(views[|choices|], w, c, Some(h))
      ensures Served(views + [w], choices + [c], h)
    {
      var vs, cs := views + [w], choices + [c];
      assert vs[..|cs|] == views && cs[..|cs| - 1] == choices;
    }

    /** Self is the listed peer at `selfIdx`, every listed peer has a record,
        the two records are distinct and have distinct bitset managers and
        arrays, self's bitset has the size its manager gives it (and piece
        indexes fit an `int`), and the file manager is well formed. */
    ghost predicate Valid()
      reads selfRecord.bitfieldManager, clientRecord.bitfieldManager`bitfield
    {
      selfIdx < |peers| && peers[selfIdx] == self && Covers(peers, peerStatusMap)
      && clientPeerID in peerStatusMap && clientPeerID != self.peerId
      && peerStatusMap[self.peerId] == selfRecord && peerStatusMap[clientPeerID] == clientRecord
      && selfRecord != clientRecord && selfRecord.bitfieldManager != clientRecord.bitfieldManager
      && SelfBits() != ClientBits() && selfRecord.bitfieldManager.Valid() && 8 * SelfBits().Length <= INT_MAX + 1
      && fileManager.Valid()
    }

    /** `new SenderThread(...)` for the connection to `clientPeerID`, with
        `inbound` what that peer will send. */
    constructor (peers: seq<Peer>, selfIdx: nat, clientPeerID: string, peerStatusMap: map<string, PeerStatus>,
                 fileManager: FileManager, out: Channel, inbound: seq<byte>)
      requires Registry(peers, selfIdx, peerStatusMap)
      requires clientPeerID in peerStatusMap && clientPeerID != peers[selfIdx].peerId
      requires peerStatusMap[peers[selfIdx].peerId].bitfieldManager != peerStatusMap[clientPeerID].bitfieldManager
      requires peerStatusMap[peers[selfIdx].peerId].bitfieldManager.bitfield != peerStatusMap[clientPeerID].bitfieldManager.bitfield
      requires peerStatusMap[peers[selfIdx].peerId].bitfieldManager.Valid()
      requires fileManager.Valid()
      ensures this.peers == peers && this.selfIdx == selfIdx && self == peers[selfIdx] && this.clientPeerID == clientPeerID
      ensures this.peerStatusMap == peerStatusMap && this.fileManager == fileManager && this.out == out
      ensures this.inbound == inbound && sent == [] && Valid()
    {
      this.peers := peers;
      this.selfIdx := selfIdx;
      self := peers[selfIdx];
      this.clientPeerID := clientPeerID;
      this.peerStatusMap := peerStatusMap;
      this.fileManager := fileManager;
      this.out := out;
      selfRecord := peerStatusMap[peers[selfIdx].peerId];
      clientRecord := peerStatusMap[clientPeerID];
      peerStatusMap[peers[selfIdx].peerId].bitfieldManager.ValidCovers();
      this.inbound := inbound;
      sent := [];
    }

    /** `read(in, bytes)` into a fresh array of `n` bytes. */
    method Read(n: nat) returns (b: seq<byte>)
      modifies this`inbound
      ensures b == Padded(old(inbound), n) && inbound == Rest(old(inbound), n)
    {
      b := Padded(inbound, n);
      inbound := Rest(inbound, n);
    }

    /** The three reads that take one message off the stream. */
    method ReadMessage() returns (r: Result<Message>)
      modifies this`inbound
      ensures (r, inbound) == NextMessage(old(inbound))
    {
      var lengthBytes := Read(4);
      var messageLength := BE32Signed(lengthBytes);
      var typeBytes := Read(1);
      var messageType := SignedByte(typeBytes[0]);
      var size := Wrap32(messageLength - 1);
      if size < 0 {
        return Err(NegativeArraySize);
      }
      var payload := Read(size);
      r := Ok(Message(messageType, payload));
    }

    /** `allPeersDownloadCompleted`. */
    method AllPeersDownloadCompleted() returns (r: Result<bool>)
      requires Covers(peers, peerStatusMap)
      ensures r == CompleteFrom(peers, peerStatusMap, 0) && r == Done(Now())
    {
      CompleteWithCurrent(peers, peerStatusMap, SelfBits(), 0);
      var i := 0;
      while i < |peers|
        invariant 0 <= i <= |peers|
        invariant CompleteFrom(peers, peerStatusMap, 0) == CompleteFrom(peers, peerStatusMap, i)
      {
        var complete := peerStatusMap[peers[i].peerId].bitfieldManager.HasCompleteFile();
        if complete.Err? {
          return Err(complete.error);
        }
        if !complete.value {
          return Ok(false);
        }
        assert Complete(peerStatusMap[peers[i].peerId].bitfieldManager);
        i := i + 1;
      }
      r := Ok(true);
    }

    /** The opening exchange: send self's bitset, read one message, and when
        it is a bitfield adopt it as the peer's bitset and answer with
        interested or not interested. */
    method ExchangeBitfields() returns (h: Option<Halt>)
      requires Valid()
      modifies this`sent, this`inbound, clientRecord.bitfieldManager`bitfield
      ensures Valid()
      ensures Opened(old(Now()), Now(), h)
      ensures NextMessage(old(inbound)).0.Ok? && NextMessage(old(inbound)).0.value.msgType == BITFIELD as int ==> fresh(ClientBits())
    {
      SendBitfield();
      var msg := ReadMessage();
      if msg.Err? {
        return Some(Crashed(msg.error));
      }
      if msg.value.msgType != BITFIELD as int {
        return None;
      }
      h := ReceiveBitfield(msg.value.payload);
    }

    /** Self's bitset, framed as a bitfield message. */
    method SendBitfield()
      requires 8 * SelfBits().Length <= INT_MAX + 1
      modifies this`sent
      ensures sent == old(sent) + [Send(out, BitfieldFrame(SelfBits()[..]))]
    {
      var bitfield := selfRecord.bitfieldManager.GetBitField();
      var actualMessage := GenerateActualMessage(bitfield.Length + 1, BITFIELD, Some(bitfield[..]));
      FrameExact(BITFIELD, bitfield[..]);
      sent := sent + [Send(out, actualMessage.value)];
    }

    /** A received bitfield becomes the peer's bitset, and is answered. */
    method ReceiveBitfield(payload: seq<byte>) returns (h: Option<Halt>)
      requires selfRecord.bitfieldManager != clientRecord.bitfieldManager
      modifies this`sent, clientRecord.bitfieldManager`bitfield
      ensures fresh(ClientBits()) && ClientBits()[..] == payload
      ensures match BitfieldReply(SelfBits()[..], payload)
        case Err(e) => h == Some(Crashed(e)) && sent == old(sent)
        case Ok(reply) => h == None && sent == old(sent) + [Send(out, reply)]
    {
      var received := new byte[|payload|](k requires 0 <= k < |payload| => payload[k]);
      clientRecord.bitfieldManager.SetBitfield(received);
      h := AnswerBitfield();
    }

    /** The answer to the peer's bitfield, from copies of both bitsets. */
    method AnswerBitfield() returns (h: Option<Halt>)
      modifies this`sent
      ensures match BitfieldReply(SelfBits()[..], ClientBits()[..])
        case Err(e) => h == Some(Crashed(e)) && sent == old(sent)
        case Ok(reply) => h == None && sent == old(sent) + [Send(out, reply)]
    {
      var bitfield1 := selfRecord.bitfieldManager.GetBitField();
      var bitfield2 := clientRecord.bitfieldManager.GetBitField();
      var interested := selfRecord.bitfieldManager.Interested(bitfield1, bitfield2);
      if interested.Err? {
        return Some(Crashed(interested.error));
      }
      var actualMessage;
      if interested.value {
        actualMessage := GenerateActualMessage(1, INTERESTED, None);
        FrameNoPayload(INTERESTED);
      } else {
        actualMessage := GenerateActualMessage(1, NOT_INTERESTED, None);
        FrameNoPayload(NOT_INTERESTED);
      }
      sent := sent + [Send(out, actualMessage.value)];
      h := None;
    }

    /** `have`: answer with interested when self lacks the announced piece. */
    method HandleHave(payload: seq<byte>) returns (h: Option<Halt>)
      modifies this`sent
      ensures match HaveReply(SelfBits()[..], payload)
        case Err(e) => h == Some(Crashed(e)) && sent == old(sent)
        case Ok(reply) => h == None && sent == old(sent) + Out(out, reply)
    {
      var havePiece := PayloadInt(payload);
      if havePiece.Err? {
        return Some(Crashed(havePiece.error));
      }
      var has := selfRecord.bitfieldManager.HasPiece(havePiece.value);
      if has.Err? {
        return Some(Crashed(has.error));
      }
      if !has.value {
        var actualMessage := GenerateActualMessage(1, INTERESTED, None);
        FrameNoPayload(INTERESTED);
        sent := sent + [Send(out, actualMessage.value)];
      }
      h := None;
    }

    /** `request`: read the named piece and send it, counting one more piece
        served to this peer in the current choking interval. */
    method HandleRequest(payload: seq<byte>) returns (h: Option<Halt>)
      requires fileManager.Valid()
      modifies this`sent, clientRecord`piecesDownloadSincePreviousChokingInterval
      ensures match PieceReply(fileManager.file, fileManager.fileSize, fileManager.pieceSize, fileManager.numPieces, payload)
        case Err(e) =>
          h == Some(Crashed(e)) && sent == old(sent)
          && clientRecord.piecesDownloadSincePreviousChokingInterval == old(clientRecord.piecesDownloadSincePreviousChokingInterval)
        case Ok(frame) =>
          h == None && sent == old(sent) + [Send(out, frame)]
          && clientRecord.piecesDownloadSincePreviousChokingInterval == Wrap32(old(clientRecord.piecesDownloadSincePreviousChokingInterval) + 1)
    {
      var requestedPiece := PayloadInt(payload);
      if requestedPiece.Err? {
        return Some(Crashed(requestedPiece.error));
      }
      var read := fileManager.ReadPiece(requestedPiece.value);
      if read.Err? {
        return Some(Crashed(read.error));
      }
      var piecePayload := read.value;
      if piecePayload.None? {
        return Some(Crashed(NullPointer));
      }
      var actualMessage := GenerateActualMessage(Wrap32(|piecePayload.value| + 1), PIECE, piecePayload);
      if actualMessage.Err? {
        return Some(Crashed(actualMessage.error));
      }
      clientRecord.IncrementPiecesDownloadSincePreviousChokingInterval();
      sent := sent + [Send(out, actualMessage.value)];
      h := None;
    }

    /** The first half of the unchoke handler: the missing pieces, then a
        random draw among them until one is not yet requested. */
    method ChoosePiece() returns (c: Choice)
      ensures Chosen(SelfBits()[..], ClientBits()[..], selfRecord.requestedPieces, c)
    {
      var bitfield1 := selfRecord.bitfieldManager.GetBitField();
      var bitfield2 := clientRecord.bitfieldManager.GetBitField();
      var missingPieces := selfRecord.bitfieldManager.MissingPieces(bitfield1, bitfield2);
      if missingPieces.Err? {
        return Mismatch;
      }
      var missing := missingPieces.value;
      if |missing| == 0 {
        return NothingMissing;
      }
      var open := exists k :: 0 <= k < |missing| && missing[k] !in selfRecord.requestedPieces;
      if !open {
        return AllRequested;
      }
      var randIndex :| 0 <= randIndex < |missing| && missing[randIndex] !in selfRecord.requestedPieces;
      MissingMembers(bitfield1[..], bitfield2[..]);
      c := Pick(missing[randIndex]);
    }

    /** The second half: mark the piece requested, request it, read the
        answer, write its payload into the file and set the piece's bit. */
    method FetchPiece(piece: int) returns (h: Option<Halt>)
      requires Valid() && 0 <= piece < 8 * SelfBits().Length
      modifies this`sent, this`inbound, selfRecord`requestedPieces, fileManager`file, selfRecord.bitfieldManager.bitfield
      ensures selfRecord.requestedPieces == old(selfRecord.requestedPieces) + {piece}
      ensures sent == old(sent) + [Send(out, RequestFrame(piece))]
      ensures inbound == NextMessage(old(inbound)).1
      ensures var msg := NextMessage(old(inbound)).0;
        if msg.Err? then
          h == Some(Crashed(msg.error)) && fileManager.file == old(fileManager.file) && SelfBits()[..] == old(SelfBits()[..])
        else
          h == None && fileManager.file == Written(old(fileManager.file), Wrap32(piece * fileManager.pieceSize), msg.value.payload)
          && SelfBits()[..] == WithPiece(old(SelfBits()[..]), piece)
    {
      selfRecord.AddRequestedPiece(piece);
      var index := IntBytes(piece);
      var actualMessage := GenerateActualMessage(5, REQUEST, Some(index));
      FrameExact(REQUEST, index);
      sent := sent + [Send(out, actualMessage.value)];
      var msg := ReadMessage();
      if msg.Err? {
        return Some(Crashed(msg.error));
      }
      fileManager.SavePiece(msg.value.payload, piece);
      selfRecord.bitfieldManager.SetPiece(piece);
      h := None;
    }

    /** The have loop: to every other configured peer with a stream, `have`
        for the piece, and not interested when self no longer wants anything
        from this connection's peer. The ghost parameters name the streams
        and the two bitsets, which the loop does not change. */
    method Broadcast(piece: int, ghost outs: seq<Option<Channel>>, ghost selfBits: seq<byte>, ghost clientBits: seq<byte>)
      requires Covers(peers, peerStatusMap) && IsInt(piece) && |selfBits| == |clientBits|
      requires |outs| == |peers| && forall k :: 0 <= k < |peers| ==> outs[k] == peerStatusMap[peers[k].peerId].out
      requires SelfBits()[..] == selfBits && ClientBits()[..] == clientBits
      modifies this`sent
      ensures sent == old(sent) + HaveSends(outs, selfIdx, HaveFrame(piece), Interesting(selfBits, clientBits), |peers|)
    {
      var i := 0;
      while i < |peers|
        invariant 0 <= i <= |peers|
        invariant sent == old(sent) + HaveSends(outs, selfIdx, HaveFrame(piece), Interesting(selfBits, clientBits), i)
      {
        HaveStep(i, piece, old(sent), outs, selfBits, clientBits);
        i := i + 1;
      }
    }

    /** The have loop's body for the `i`-th listed peer: skip self and a peer
        without a stream; announce to any other. */
    method HaveStep(i: nat, piece: int, ghost base: seq<Send>, ghost outs: seq<Option<Channel>>,
                    ghost selfBits: seq<byte>, ghost clientBits: seq<byte>)
      requires Covers(peers, peerStatusMap) && i < |peers| == |outs| && outs[i] == peerStatusMap[peers[i].peerId].out
      requires IsInt(piece) && |selfBits| == |clientBits|
      requires SelfBits()[..] == selfBits && ClientBits()[..] == clientBits
      requires sent == base + HaveSends(outs, selfIdx, HaveFrame(piece), Interesting(selfBits, clientBits), i)
      modifies this`sent
      ensures sent == base + HaveSends(outs, selfIdx, HaveFrame(piece), Interesting(selfBits, clientBits), i + 1)
    {
      ghost var prev := HaveSends(outs, selfIdx, HaveFrame(piece), Interesting(selfBits, clientBits), i);
      ghost var last := if i == selfIdx then [] else Announce(outs[i], HaveFrame(piece), Interesting(selfBits, clientBits));
      assert HaveSends(outs, selfIdx, HaveFrame(piece), Interesting(selfBits, clientBits), i + 1) == prev + last;
      var out2 := peerStatusMap[peers[i].peerId].GetOut();
      if i != selfIdx && out2.Some? {
        AnnounceTo(out2.value, piece, selfBits, clientBits);
      }
      AppendAssociative(base, prev, last);
    }

    /** One pass of the have loop, for a peer with stream `o`, given the two
        bitsets. */
    method AnnounceTo(o: Channel, piece: int, ghost selfBits: seq<byte>, ghost clientBits: seq<byte>)
      requires IsInt(piece) && |selfBits| == |clientBits|
      requires SelfBits()[..] == selfBits && ClientBits()[..] == clientBits
      modifies this`sent
      ensures sent == old(sent) + Announce(Some(o), HaveFrame(piece), Interesting(selfBits, clientBits))
    {
      var bitfield3 := selfRecord.bitfieldManager.GetBitField();
      var bitfield4 := clientRecord.bitfieldManager.GetBitField();
      var index := IntBytes(piece);
      var actualMessage := GenerateActualMessage(5, HAVE, Some(index));
      FrameExact(HAVE, index);
      sent := sent + [Send(o, actualMessage.value)];
      var interested := selfRecord.bitfieldManager.Interested(bitfield3, bitfield4);
      if !interested.value {
        actualMessage := GenerateActualMessage(1, NOT_INTERESTED, None);
        FrameNoPayload(NOT_INTERESTED);
        sent := sent + [Send(o, actualMessage.value)];
      }
    }

    /** A picked piece: fetch it, then announce it to the other peers. */
    method Download(piece: int) returns (h: Option<Halt>)
      requires Valid() && 0 <= piece < 8 * SelfBits().Length && SelfBits().Length == ClientBits().Length
      modifies this`sent, this`inbound, selfRecord`requestedPieces, fileManager`file, selfRecord.bitfieldManager.bitfield
      ensures Valid()
      ensures Downloaded(piece, old(Now()), Now(), h)
    {
      h := FetchPiece(piece);
      if h.None? {
        ghost var outs := Outs(peers, peerStatusMap);
        Broadcast(piece, outs, SelfBits()[..], ClientBits()[..]);
      }
    }

    /** `unchoke`: choose a piece and, when one is picked, download it. */
    method HandleUnchoke() returns (c: Choice, h: Option<Halt>)
      requires Valid()
      modifies this`sent, this`inbound, selfRecord`requestedPieces, fileManager`file, selfRecord.bitfieldManager.bitfield
      ensures Valid() && |inbound| <= |old(inbound)|
      ensures h.Some? ==> h.value.Crashed? || h.value.Spinning?
      ensures Unchoked(old(Now()), Now(), c, h)
    {
      c := ChoosePiece();
      ChosenDetermined(SelfBits()[..], ClientBits()[..], selfRecord.requestedPieces, c);
      match c
      case Mismatch =>
        h := Some(Crashed(IllegalArgument));
      case NothingMissing =>
        h := None;
      case AllRequested =>
        h := Some(Spinning);
      case Pick(piece) =>
        h := Download(piece);
    }

    /** One message of the main loop, by type; choke and unknown types only
        feed the log. The choice is the unchoke handler's. */
    method Dispatch(m: Message) returns (c: Option<Choice>, h: Option<Halt>)
      requires Valid()
      modifies this`sent, this`inbound, clientRecord`interested, clientRecord`piecesDownloadSincePreviousChokingInterval
      modifies selfRecord`requestedPieces, fileManager`file, selfRecord.bitfieldManager.bitfield
      ensures Valid() && |inbound| <= |old(inbound)|
      ensures h.Some? ==> h.value.Crashed? || h.value.Spinning?
      ensures Handled(m, old(Now()), Now(), c, h)
    {
      c, h := None, None;
      if m.msgType == CHOKE as int {
      } else if m.msgType == UNCHOKE as int {
        var choice;
        choice, h := HandleUnchoke();
        c := Some(choice);
      } else if m.msgType == INTERESTED as int {
        clientRecord.SetInterested(true);
      } else if m.msgType == NOT_INTERESTED as int {
        clientRecord.SetInterested(false);
      } else if m.msgType == HAVE as int {
        h := HandleHave(m.payload);
      } else if m.msgType == REQUEST as int {
        h := HandleRequest(m.payload);
      }
    }

    /** `run`: the bitfield exchange, then the message loop. IOException
        is caught by `run` but never arises here: reads past the end of the
        stream fill with zeros. */
    method Run() returns (h: Halt, ghost opening: Option<Halt>, ghost views: seq<View>, ghost choices: seq<Option<Choice>>)
      requires Valid()
      modifies this`sent, this`inbound, clientRecord`interested, clientRecord`piecesDownloadSincePreviousChokingInterval
      modifies selfRecord`requestedPieces, fileManager`file, selfRecord.bitfieldManager.bitfield, clientRecord.bitfieldManager`bitfield
      ensures Valid()
      ensures |views| >= 1 && views[|views| - 1] == Now() && Opened(old(Now()), views[0], opening)
      ensures opening.Some? ==> h == opening.value && views == [Now()] && choices == []
      ensures opening.None? ==> Served(views, choices, h)
      ensures h == Finished ==> forall k :: 0 <= k < |peers| ==> Complete(peerStatusMap[peers[k].peerId].bitfieldManager)
      ensures h == Idle ==> inbound == [] && CompleteFrom(peers, peerStatusMap, 0) == Ok(false)
    {
      var start := ExchangeBitfields();
      opening := start;
      if start.Some? {
        return start.value, opening, [Now()], [];
      }
      h, views, choices := Serve();
    }

    /** The message loop: until every configured peer has the whole file,
        read one message and answer it; an empty stream is where the source
        polls `available()`. */
    method Serve() returns (h: Halt, ghost views: seq<View>, ghost choices: seq<Option<Choice>>)
      requires Valid()
      modifies this`sent, this`inbound, clientRecord`interested, clientRecord`piecesDownloadSincePreviousChokingInterval
      modifies selfRecord`requestedPieces, fileManager`file, selfRecord.bitfieldManager.bitfield
      ensures Valid()
      ensures Served(views, choices, h) && views[0] == old(Now()) && views[|views| - 1] == Now()
      ensures h == Finished ==> forall k :: 0 <= k < |peers| ==> Complete(peerStatusMap[peers[k].peerId].bitfieldManager)
      ensures h == Idle ==> inbound == [] && CompleteFrom(peers, peerStatusMap, 0) == Ok(false)
    {
      views, choices := [Now()], [];
      while true
        invariant Valid() && SelfBits() == old(SelfBits())
        invariant Continued(views, choices)
        invariant views[0] == old(Now()) && views[|views| - 1] == Now()
        decreases |inbound|
      {
        var stop := LoopCheck(views, choices);
        if stop.Some? {
          h := stop.value;
          break;
        }
        var step;
        step, views, choices := RecordedStep(views, choices);
        if step.Some? {
          h := step.value;
          break;
        }
      }
    }

    /** The head of the loop: check whether every listed peer has the whole
        file, and wait while nothing has arrived. The loop stops with a raised
        check, with a check that says true, or on input that has run out;
        otherwise one more turn follows. */
    method LoopCheck(ghost views: seq<View>, ghost choices: seq<Option<Choice>>) returns (stop: Option<Halt>)
      requires Valid() && Continued(views, choices) && views[|choices|] == Now()
      ensures stop.Some? ==> Served(views, choices, stop.value)
      ensures stop == Some(Finished) ==> forall k :: 0 <= k < |peers| ==> Complete(peerStatusMap[peers[k].peerId].bitfieldManager)
      ensures stop == Some(Idle) ==> inbound == [] && CompleteFrom(peers, peerStatusMap, 0) == Ok(false)
      ensures stop.None? ==> Done(Now()) == Ok(false) && inbound != []
    {
      var done := AllPeersDownloadCompleted();
      CompleteWithCurrent(peers, peerStatusMap, SelfBits(), 0);
      assert Done(Now()) == done;
      if done.Err? {
        stop := Some(Crashed(done.error));
      } else if done.value {
        CompleteFromMeans(peers, peerStatusMap, 0);
        stop := Some(Finished);
      } else if |inbound| == 0 {
        stop := Some(Idle);
      } else {
        return None;
      }
      ServedAtCheck(views, choices, stop.value);
    }

    /** One turn of the loop, after a check that said false, added to the
        record of the loop so far: a turn that ends the thread completes the
        loop, and any other turn continues it. */
    method RecordedStep(ghost views: seq<View>, ghost choices: seq<Option<Choice>>)
      returns (step: Option<Halt>, ghost views': seq<View>, ghost choices': seq<Option<Choice>>)
      requires Valid() && inbound != [] && Continued(views, choices)
      requires views[|choices|] == Now() && Done(Now()) == Ok(false)
      modifies this`sent, this`inbound, clientRecord`interested, clientRecord`piecesDownloadSincePreviousChokingInterval
      modifies selfRecord`requestedPieces, fileManager`file, selfRecord.bitfieldManager.bitfield
      ensures Valid() && |inbound| < |old(inbound)| && SelfBits() == old(SelfBits())
      ensures |views'| == |views| + 1 && views'[..|views|] == views && views'[|views|] == Now()
      ensures step.Some? ==> (step.value.Crashed? || step.value.Spinning?) && Served(views', choices', step.value)
      ensures step.None? ==> Continued(views', choices')
    {
      var choice;
      choice, step := Step();
      DoneAllKept(views);
      views', choices' := views + [Now()], choices + [choice];
      if step.Some? {
        ServedAtHalt(views, choices, Now(), choice, step.value);
      } else {
        ContinuedAppend(views, choices, Now(), choice);
      }
    }

    /** One turn of the loop on a non-empty stream: read a message and
        dispatch it; a frame that cannot be read ends the thread after the
        read. */
    method Step() returns (c: Option<Choice>, h: Option<Halt>)
      requires Valid() && inbound != []
      modifies this`sent, this`inbound, clientRecord`interested, clientRecord`piecesDownloadSincePreviousChokingInterval
      modifies selfRecord`requestedPieces, fileManager`file, selfRecord.bitfieldManager.bitfield
      ensures Valid() && |inbound| < |old(inbound)|
      ensures h.Some? ==> h.value.Crashed? || h.value.Spinning?
      ensures Turn(old(Now()), Now(), c, h)
    {
      c := None;
      var m := ReadMessage();
      if m.Err? {
        return c, Some(Crashed(m.error));
      }
      c, h := Dispatch(m.value);
    }
  }
}
