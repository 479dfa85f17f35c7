/** The peer's start-up (the `PeerProcess` class of PeerProcess.java): the
    registry of session records built from the two configuration files, and
    the dialling of the peers listed before this one. The files are given as
    their lines, and what each connection attempt gave is an input. */
module Process {
  import opened Common
  import opened Text
  import opened Bitfield
  import opened Session
  import opened Storage
  import opened PeerInfoConfig
  import opened CommonConfig
  import opened Handshake
  import opened Buffers
  import opened Choking

  /** The path the constructor gives the file manager; string concatenation
      prints a missing file name as "null". */
  function FilePath(peerID: string, fileName: Option<string>): string {
    "./" + peerID + "/" + (if fileName.Some? then fileName.value else "null")
  }

  /** Distinct ids have distinct records, and distinct records distinct
      bitset managers and arrays. */
  ghost predicate Separate(reg: map<string, PeerStatus>)
    reads set id | id in reg :: reg[id].bitfieldManager
  {
    forall a, b :: a in reg && b in reg && a != b ==>
      reg[a] != reg[b] && reg[a].bitfieldManager != reg[b].bitfieldManager
      && reg[a].bitfieldManager.bitfield != reg[b].bitfieldManager.bitfield
  }

  /** A record sharing nothing with those of the registry keeps it separate
      when it is put under any key. */
  lemma SeparateAdd(reg: map<string, PeerStatus>, id: string, rec: PeerStatus)
    requires Separate(reg)
    requires forall k | k in reg ::
      (reg[k] != rec && reg[k].bitfieldManager != rec.bitfieldManager
       && reg[k].bitfieldManager.bitfield != rec.bitfieldManager.bitfield)
    ensures Separate(reg[id := rec])
  {
  }

  /** A record as `new PeerStatus(fileSize, pieceSize)` leaves it. */
  ghost predicate Initial(rec: PeerStatus, fileSize: int, pieceSize: int)
    reads rec, rec.bitfieldManager
  {
    !rec.choked && !rec.interested && rec.requestedPieces == {} && rec.chokedList == []
    && rec.piecesDownloadSincePreviousChokingInterval == 0 && rec.out == None
    && rec.bitfieldManager.fileSize == fileSize && rec.bitfieldManager.pieceSize == pieceSize
    && rec.bitfieldManager.Valid()
  }

  /** The registry as the constructor leaves it: one record per configured
      id, records kept apart, each as `new PeerStatus` left it, and no bit set
      anywhere except the first `numPieces` bits of self's bitset when self
      has the file. */
  ghost predicate Seeded(m: map<string, PeerStatus>, peers: seq<Peer>, selfId: string, hasFile: bool, fileSize: int, pieceSize: int)
    reads set id | id in m :: m[id]
    reads set id | id in m :: m[id].bitfieldManager
    reads set id | id in m :: m[id].bitfieldManager.bitfield
  {
    m.Keys == (set k | 0 <= k < |peers| :: peers[k].peerId) && Separate(m)
    && (forall id | id in m :: Initial(m[id], fileSize, pieceSize))
    && forall id, j | id in m && 0 <= j < 8 * m[id].bitfieldManager.bitfield.Length ::
      Bit(m[id].bitfieldManager.bitfield[..], j) <==> id == selfId && hasFile && j < m[id].bitfieldManager.numPieces
  }

  /** What one connection attempt of the dial loop gave: the socket could not
      be opened, or it was, with its output stream and the bytes the peer
      answered. */
  datatype Dial = Refused | Connected(channel: Channel, response: seq<byte>)

  /** A started `SenderThread`: the id of the peer at the other end and the
      stream the thread writes to. */
  datatype Link = Link(clientPeerID: string, channel: Channel)

  /** The effects of the dial loop so far: how it ends, the handshakes
      written, the threads started and self's `out`. */
  datatype DialState = DialState(outcome: Outcome, sends: seq<Send>, links: seq<Link>, selfOut: Option<Channel>)

  /** The dial side's check of the answer: header, zero block and the id of
      the peer dialled. */
  predicate Accepted(fields: HandshakeFields, peerId: string) {
    fields.handshakeHeader == HANDSHAKE_HEADER && fields.zeroBits == TEN_NULS && fields.peerId == peerId
  }

  /** The answer to a dial, read back from the 32-byte array one `read`
      fills (zeros where the answer ran short); 32 bytes never underflow. */
  function Answer(response: seq<byte>): HandshakeFields {
    ParseHandshake(Padded(response, 32)).value
  }

  /** The dial loop from position `i` on: it stops at self; a refused socket
      moves on to the next peer; otherwise self's `out` is set, the handshake
      is generated (a non-numeric self id raises) and written, and the
      answer either starts a thread or ends the loop. */
  function DialFrom(peers: seq<Peer>, selfIdx: nat, selfId: string, net: seq<Dial>, i: nat, st: DialState): DialState
    requires |net| == |peers|
    decreases |peers| - i
  {
    if i >= |peers| || i == selfIdx then st
    else match net[i]
      case Refused => DialFrom(peers, selfIdx, selfId, net, i + 1, st)
      case Connected(ch, response) =>
        match HandshakeBytes(selfId)
        case Err(e) => st.(outcome := Aborted(e), selfOut := Some(ch))
        case Ok(hs) =>
          var written := st.(sends := st.sends + [Send(ch, hs)], selfOut := Some(ch));
          if !Accepted(Answer(response), peers[i].peerId) then written
          else DialFrom(peers, selfIdx, selfId, net, i + 1, written.(links := written.links + [Link(peers[i].peerId, ch)]))
  }

  /** Where the dial loop stops from position `i` on: at self, at the end of
      the list, or at the first connected peer whose answer fails the
      check. */
  function StopFrom(peers: seq<Peer>, selfIdx: nat, net: seq<Dial>, i: nat): (s: nat)
    requires |net| == |peers|
    ensures i <= s || i > |peers|
    ensures i <= |peers| ==> s <= |peers|
    decreases |peers| - i
  {
    if i >= |peers| || i == selfIdx then i
    else if net[i].Connected? && !Accepted(Answer(net[i].response), peers[i].peerId) then i
    else StopFrom(peers, selfIdx, net, i + 1)
  }

  /** The threads for the connected peers at positions `i` to `k - 1`, in
      list order. */
  function LinksBetween(peers: seq<Peer>, net: seq<Dial>, i: nat, k: nat): seq<Link>
    requires |net| == |peers| && i <= k <= |peers|
    decreases k - i
  {
    if i == k then []
    else (if net[i].Connected? then [Link(peers[i].peerId, net[i].channel)] else []) + LinksBetween(peers, net, i + 1, k)
  }

  /** The handshake `hs` written to each connected peer at positions `i` to
      `k - 1`, in list order. */
  function SendsBetween(net: seq<Dial>, hs: seq<byte>, i: nat, k: nat): seq<Send>
    requires i <= k <= |net|
    decreases k - i
  {
    if i == k then []
    else (if net[i].Connected? then [Send(net[i].channel, hs)] else []) + SendsBetween(net, hs, i + 1, k)
  }

  lemma {:induction false} LinksBetweenMembers(peers: seq<Peer>, net: seq<Dial>, i: nat, k: nat)
    requires |net| == |peers| && i <= k <= |peers|
    ensures forall l :: l in LinksBetween(peers, net, i, k) <==>
      exists j :: i <= j < k && net[j].Connected? && l == Link(peers[j].peerId, net[j].channel)
    decreases k - i
  {
    if i < k {
      LinksBetweenMembers(peers, net, i + 1, k);
    }
  }

  lemma {:induction false} SendsBetweenMembers(net: seq<Dial>, hs: seq<byte>, i: nat, k: nat)
    requires i <= k <= |net|
    ensures forall x :: x in SendsBetween(net, hs, i, k) <==> exists j :: i <= j < k && net[j].Connected? && x == Send(net[j].channel, hs)
    decreases k - i
  {
    if i < k {
      SendsBetweenMembers(net, hs, i + 1, k);
    }
  }

  /** Where the handshakes stop: after the peer whose answer failed the
      check, if the loop stopped at one. */
  function SendEnd(peers: seq<Peer>, selfIdx: nat, net: seq<Dial>, i: nat): (e: nat)
    requires |net| == |peers| && i <= |peers|
    ensures i <= e <= |peers|
  {
    var stop := StopFrom(peers, selfIdx, net, i);
    if stop < |peers| && stop != selfIdx then stop + 1 else stop
  }

  /** What the stop point and the end of the handshakes mean: every peer
      from `i` to the stop point is not self and was refused or answered
      correctly; the loop stops at the end of the list, at self, or at a
      connected peer whose answer failed, and only in that last case do the
      handshakes go one past the stop point, to that peer. */
  lemma {:induction false} StopPoint(peers: seq<Peer>, selfIdx: nat, net: seq<Dial>, i: nat)
    requires |net| == |peers| && i <= |peers|
    ensures var s := StopFrom(peers, selfIdx, net, i);
      (forall k :: i <= k < s ==> k != selfIdx && !(net[k].Connected? && !Accepted(Answer(net[k].response), peers[k].peerId)))
      && (s == |peers| || s == selfIdx || (net[s].Connected? && !Accepted(Answer(net[s].response), peers[s].peerId)))
      && (SendEnd(peers, selfIdx, net, i) == s + 1 <==> s < |peers| && s != selfIdx)
      && (SendEnd(peers, selfIdx, net, i) != s + 1 ==> SendEnd(peers, selfIdx, net, i) == s)
    decreases |peers| - i
  {
    if i < |peers| && i != selfIdx && !(net[i].Connected? && !Accepted(Answer(net[i].response), peers[i].peerId)) {
      StopPoint(peers, selfIdx, net, i + 1);
    }
  }

  /** The dial loop from position `i` on, when self's id is numeric: the
      outcome stays what it was, and a thread starts for every connected peer
      before the stop point, in list order. */
  lemma {:induction false} DialNumericLinks(peers: seq<Peer>, selfIdx: nat, selfId: string, net: seq<Dial>, i: nat, st: DialState)
    requires |net| == |peers| && i <= |peers| && HandshakeBytes(selfId).Ok?
    ensures DialFrom(peers, selfIdx, selfId, net, i, st).outcome == st.outcome
    ensures DialFrom(peers, selfIdx, selfId, net, i, st).links == st.links + LinksBetween(peers, net, i, StopFrom(peers, selfIdx, net, i))
    decreases |peers| - i
  {
    if i == |peers| || i == selfIdx {
    } else if net[i].Refused? {
      DialNumericLinks(peers, selfIdx, selfId, net, i + 1, st);
    } else if Accepted(Answer(net[i].response), peers[i].peerId) {
      var hs := HandshakeBytes(selfId).value;
      var l := Link(peers[i].peerId, net[i].channel);
      var next := st.(sends := st.sends + [Send(net[i].channel, hs)], selfOut := Some(net[i].channel), links := st.links + [l]);
      assert DialFrom(peers, selfIdx, selfId, net, i, st) == DialFrom(peers, selfIdx, selfId, net, i + 1, next);
      DialNumericLinks(peers, selfIdx, selfId, net, i + 1, next);
      var stop := StopFrom(peers, selfIdx, net, i + 1);
      assert StopFrom(peers, selfIdx, net, i) == stop;
      assert LinksBetween(peers, net, i, stop) == [l] + LinksBetween(peers, net, i + 1, stop);
    }
  }

  /** The handshakes the dial loop writes from position `i` on, when self's
      id is numeric: one to each connected peer before the stop point and one
      to the peer whose answer failed the check, in list order. */
  lemma {:induction false} DialNumericSends(peers: seq<Peer>, selfIdx: nat, selfId: string, net: seq<Dial>, i: nat, st: DialState)
    requires |net| == |peers| && i <= |peers| && HandshakeBytes(selfId).Ok?
    ensures DialFrom(peers, selfIdx, selfId, net, i, st).sends
      == st.sends + SendsBetween(net, HandshakeBytes(selfId).value, i, SendEnd(peers, selfIdx, net, i))
    decreases |peers| - i
  {
    var hs := HandshakeBytes(selfId).value;
    if i == |peers| || i == selfIdx {
    } else if net[i].Refused? {
      DialNumericSends(peers, selfIdx, selfId, net, i + 1, st);
    } else {
      var x := Send(net[i].channel, hs);
      var written := st.(sends := st.sends + [x], selfOut := Some(net[i].channel));
      if Accepted(Answer(net[i].response), peers[i].peerId) {
        var next := written.(links := written.links + [Link(peers[i].peerId, net[i].channel)]);
        assert DialFrom(peers, selfIdx, selfId, net, i, st) == DialFrom(peers, selfIdx, selfId, net, i + 1, next);
        DialNumericSends(peers, selfIdx, selfId, net, i + 1, next);
        var e := SendEnd(peers, selfIdx, net, i + 1);
        assert StopFrom(peers, selfIdx, net, i) == StopFrom(peers, selfIdx, net, i + 1);
        assert SendEnd(peers, selfIdx, net, i) == e;
        assert SendsBetween(net, hs, i, e) == [x] + SendsBetween(net, hs, i + 1, e);
      } else {
        assert DialFrom(peers, selfIdx, selfId, net, i, st) == written;
        assert StopFrom(peers, selfIdx, net, i) == i;
        assert SendEnd(peers, selfIdx, net, i) == i + 1;
        assert SendsBetween(net, hs, i, i + 1) == [x];
      }
    }
  }

  /** The whole loop with a numeric self id: a thread is started for a peer
      exactly when it is listed before the stop point, which is never past
      self, and the connection to it was opened. */
  lemma DialThreads(peers: seq<Peer>, selfIdx: nat, selfId: string, net: seq<Dial>, selfOut: Option<Channel>)
    requires |net| == |peers| && selfIdx < |peers| && HandshakeBytes(selfId).Ok?
    ensures StopFrom(peers, selfIdx, net, 0) <= selfIdx
    ensures DialFrom(peers, selfIdx, selfId, net, 0, DialState(Completed, [], [], selfOut)).outcome == Completed
    ensures forall l :: l in DialFrom(peers, selfIdx, selfId, net, 0, DialState(Completed, [], [], selfOut)).links <==>
      exists j :: 0 <= j < StopFrom(peers, selfIdx, net, 0) && net[j].Connected? && l == Link(peers[j].peerId, net[j].channel)
  {
    var st := DialState(Completed, [], [], selfOut);
    StopBeforeSelf(peers, selfIdx, net, 0);
    DialNumericLinks(peers, selfIdx, selfId, net, 0, st);
    LinksBetweenMembers(peers, net, 0, StopFrom(peers, selfIdx, net, 0));
  }

  /** A non-numeric self id: nothing is written and no thread starts, and the
      loop raises NumberFormatException exactly when some peer before self
      accepts the connection. */
  lemma {:induction false} DialNonNumeric(peers: seq<Peer>, selfIdx: nat, selfId: string, net: seq<Dial>, i: nat, st: DialState)
    requires |net| == |peers| && HandshakeBytes(selfId).Err? && st.outcome == Completed
    ensures DialFrom(peers, selfIdx, selfId, net, i, st).sends == st.sends
    ensures DialFrom(peers, selfIdx, selfId, net, i, st).links == st.links
    ensures DialFrom(peers, selfIdx, selfId, net, i, st).outcome == Aborted(NumberFormat) <==>
      exists j :: i <= j < |peers| && (j < selfIdx || i > selfIdx) && net[j].Connected?
    ensures DialFrom(peers, selfIdx, selfId, net, i, st).outcome in {Completed, Aborted(NumberFormat)}
    decreases |peers| - i
  {
    if i >= |peers| || i == selfIdx {
    } else if net[i].Refused? {
      DialNonNumeric(peers, selfIdx, selfId, net, i + 1, st);
    }
  }

  /** A peer list that names self's id twice: self is the later entry, and
      when the loop reaches the earlier one and the connection opens, the
      thread it starts talks to a peer whose id is self's own. */
  lemma SelfListedTwiceLinksSelf(peers: seq<Peer>, selfIdx: nat, selfId: string, net: seq<Dial>, selfOut: Option<Channel>, j: nat)
    requires |net| == |peers| && selfIdx < |peers| && HandshakeBytes(selfId).Ok?
    requires j < StopFrom(peers, selfIdx, net, 0) && j < |peers| && peers[j].peerId == selfId && net[j].Connected?
    ensures Link(selfId, net[j].channel) in DialFrom(peers, selfIdx, selfId, net, 0, DialState(Completed, [], [], selfOut)).links
  {
    DialThreads(peers, selfIdx, selfId, net, selfOut);
  }

  /** The loop never goes past self: a thread is only ever started for a
      peer listed before this one. */
  lemma {:induction false} StopBeforeSelf(peers: seq<Peer>, selfIdx: nat, net: seq<Dial>, i: nat)
    requires |net| == |peers| && selfIdx < |peers| && i <= selfIdx
    ensures i <= StopFrom(peers, selfIdx, net, i) <= selfIdx
    decreases |peers| - i
  {
    if i != selfIdx && !(net[i].Connected? && !Accepted(Answer(net[i].response), peers[i].peerId)) {
      StopBeforeSelf(peers, selfIdx, net, i + 1);
    }
  }

  /** The check passes exactly when the peer answered with the handshake it
      would itself send: for a peer whose id is in canonical decimal form,
      the answer is accepted when its first 32 bytes are that peer's
      handshake. */
  lemma AcceptedIsHandshake(response: seq<byte>, peerId: string)
    requires |response| >= 32 && CanonicalDecimal(peerId) && ParseInt(peerId).Some?
    ensures Accepted(Answer(response), peerId) <==> response[..32] == HandshakeBytes(peerId).value
  {
    var buf := Padded(response, 32);
    assert buf == response[..32];
    HandshakeMatches(buf, peerId);
  }

  class PeerProcess {
    const settings: Settings
    const peers: seq<Peer>
    const self: Peer
    const selfIdx: nat
    const handshakeMessageManager: HandshakeMessageManager
    const fileManager: FileManager
    const peerStatusMap: map<string, PeerStatus>

    /** The record of self. */
    function SelfRecord(): PeerStatus
      requires Registry(peers, selfIdx, peerStatusMap)
    {
      peerStatusMap[peers[selfIdx].peerId]
    }

    /** The constructor, once the configuration is parsed, when it
        completes: self is known and the bitsets can be allocated
        (`NewPeerProcess` below covers the two exceptions). It builds the
        file manager, sized by the piece size twice as the source passes it,
        and one fresh record per configured id (`InitRegistry` states the
        records' initial state and self's filled bitset). */
    constructor (peerID: string, common: CommonConfigParser, peerInfo: PeerInfoConfigParser, contents: seq<byte>)
      requires peerID in peerInfo.peerMap && peerInfo.peerMap == PeerMapOf(peerInfo.peers)
      requires IsInt(common.fileSize) && IsInt(common.pieceSize) && BitfieldBytes(common.fileSize, common.pieceSize) >= 0
      ensures settings == common.Current() && peers == peerInfo.peers
      ensures self == peerInfo.peerMap[peerID] && LastWithId(peers, selfIdx, peerID)
      ensures handshakeMessageManager.Valid()
      ensures fileManager.filePath == FilePath(peerID, common.fileName)
      ensures fileManager.pieceSize == common.pieceSize && fileManager.fileSize == common.pieceSize
      ensures fileManager.file == contents && fileManager.Valid()
      ensures Registry(peers, selfIdx, peerStatusMap)
      ensures peerStatusMap.Keys == set k | 0 <= k < |peers| :: peers[k].peerId
      ensures forall id | id in peerStatusMap :: fresh(peerStatusMap[id]) && fresh(peerStatusMap[id].bitfieldManager)
    {
      settings := common.Current();
      peers := peerInfo.peers;
      var hm := new HandshakeMessageManager();
      handshakeMessageManager := hm;
      fileManager := new FileManager(FilePath(peerID, common.fileName), common.pieceSize, common.pieceSize, contents);
      self := peerInfo.peerMap[peerID];
      var s := PeerProcess.SelfIndex(peerInfo.peers, peerID);
      selfIdx := s;
      var m := PeerProcess.InitRegistry(peerInfo.peers, peerID, peerInfo.peerMap[peerID].hasFile, common.fileSize, common.pieceSize, hm);
      peerStatusMap := m.value;
    }

    /** The registry part of the constructor: a fresh record for every
        configured peer, then self's bitset filled when self has the file;
        the first record raises when the bitset size is negative. Only
        objects allocated here change. */
    static method InitRegistry(peers: seq<Peer>, selfId: string, hasFile: bool, fileSize: int, pieceSize: int, hm: HandshakeMessageManager)
      returns (r: Result<map<string, PeerStatus>>)
      requires IsInt(fileSize) && IsInt(pieceSize) && hm.Valid()
      requires exists k :: 0 <= k < |peers| && peers[k].peerId == selfId
      ensures hm.Valid()
      ensures r.Err? <==> BitfieldBytes(fileSize, pieceSize) < 0
      ensures r.Err? ==> r.error == NegativeArraySize
      ensures r.Ok? ==> Seeded(r.value, peers, selfId, hasFile, fileSize, pieceSize)
      ensures r.Ok? ==> forall id | id in r.value :: fresh(r.value[id]) && fresh(r.value[id].bitfieldManager)
      ensures r.Ok? ==> r.value.Keys == set k | 0 <= k < |peers| :: peers[k].peerId
      ensures r.Ok? ==> Covers(peers, r.value) && forall a, b :: a in r.value && b in r.value && a != b ==> r.value[a] != r.value[b]
    {
      r := PeerProcess.BuildRegistry(peers, fileSize, pieceSize, hm);
      if r.Err? {
        return;
      }
      var m := r.value;
      PeerProcess.FillSelfBitfield(m, selfId, hasFile, fileSize, pieceSize);
      forall k | 0 <= k < |peers|
        ensures peers[k].peerId in m
      {
      }
    }

    /** The position of `peerMap.get(peerID)` in the list: the last peer with
        that id. */
    static method SelfIndex(peers: seq<Peer>, peerID: string) returns (s: nat)
      requires peerID in PeerMapOf(peers)
      ensures LastWithId(peers, s, peerID) && peers[s] == PeerMapOf(peers)[peerID]
    {
      PeerMapOfLast(peers);
      s :| LastWithId(peers, s, peerID) && peers[s] == PeerMapOf(peers)[peerID];
    }

    /** The end of the constructor: `fillBitfield` on self's record when self
        has the file; every other bitset stays empty. */
    static method FillSelfBitfield(m: map<string, PeerStatus>, selfId: string, hasFile: bool, fileSize: int, pieceSize: int)
      requires selfId in m && Separate(m)
      requires forall id | id in m :: Initial(m[id], fileSize, pieceSize)
      requires forall id, x | id in m && 0 <= x < m[id].bitfieldManager.bitfield.Length :: m[id].bitfieldManager.bitfield[x] == 0
      modifies m[selfId].bitfieldManager.bitfield
      ensures Separate(m) && forall id | id in m :: Initial(m[id], fileSize, pieceSize)
      ensures forall id, j | id in m && 0 <= j < 8 * m[id].bitfieldManager.bitfield.Length ::
        Bit(m[id].bitfieldManager.bitfield[..], j) <==> id == selfId && hasFile && j < m[id].bitfieldManager.numPieces
    {
      forall id | id in m
        ensures forall j :: 0 <= j < 8 * m[id].bitfieldManager.bitfield.Length ==> !Bit(m[id].bitfieldManager.bitfield[..], j)
      {
        NoBitsInZeros(m[id].bitfieldManager.bitfield[..]);
      }
      if hasFile {
        m[selfId].FillBitfield();
      }
    }

    /** The registry loop of the constructor: `put` of a fresh record for
        every configured peer, in order; when the bitset size is negative the
        first `new PeerStatus` raises, so a non-empty list fails. The
        handshake manager's arrays are not touched. */
    static method BuildRegistry(peers: seq<Peer>, fileSize: int, pieceSize: int, hm: HandshakeMessageManager)
      returns (r: Result<map<string, PeerStatus>>)
      requires IsInt(fileSize) && IsInt(pieceSize) && hm.Valid()
      ensures hm.Valid()
      ensures r.Err? <==> |peers| > 0 && BitfieldBytes(fileSize, pieceSize) < 0
      ensures r.Err? ==> r.error == NegativeArraySize
      ensures r.Ok? ==> r.value.Keys == set k | 0 <= k < |peers| :: peers[k].peerId
      ensures r.Ok? ==> forall id | id in r.value :: fresh(r.value[id]) && fresh(r.value[id].bitfieldManager) && fresh(r.value[id].bitfieldManager.bitfield)
      ensures r.Ok? ==> forall id | id in r.value :: Initial(r.value[id], fileSize, pieceSize)
      ensures r.Ok? ==> forall id, x | id in r.value && 0 <= x < r.value[id].bitfieldManager.bitfield.Length :: r.value[id].bitfieldManager.bitfield[x] == 0
      ensures r.Ok? ==> Separate(r.value)
    {
      var m: map<string, PeerStatus> := map[];
      var i := 0;
      while i < |peers|
        invariant 0 <= i <= |peers|
        invariant m.Keys == set k | 0 <= k < i :: peers[k].peerId
        invariant forall id | id in m :: fresh(m[id]) && fresh(m[id].bitfieldManager) && fresh(m[id].bitfieldManager.bitfield)
        invariant forall id | id in m :: Initial(m[id], fileSize, pieceSize)
        invariant forall id, x | id in m && 0 <= x < m[id].bitfieldManager.bitfield.Length :: m[id].bitfieldManager.bitfield[x] == 0
        invariant Separate(m)
        invariant i > 0 ==> BitfieldBytes(fileSize, pieceSize) >= 0
      {
        var status := NewPeerStatus(fileSize, pieceSize);
        if status.Err? {
          return Err(status.error);
        }
        var rec := status.value;
        SeparateAdd(m, peers[i].peerId, rec);
        m := m[peers[i].peerId := rec];
        i := i + 1;
      }
      r := Ok(m);
    }

    /** The answer of a dialled peer read back: the 32-byte array `read`
        fills, wrapped in a buffer for `readHandshakeMessage`. */
    method ReadResponse(response: seq<byte>) returns (fields: Result<HandshakeFields>)
      requires handshakeMessageManager.Valid()
      ensures fields == Ok(Answer(response))
    {
      var buf := Padded(response, 32);
      var bytes := new byte[32](k requires 0 <= k < 32 => buf[k]);
      assert bytes[..] == buf;
      var buffer := new ByteBuffer.Wrap(bytes);
      assert buffer.Remaining() == buf;
      fields := handshakeMessageManager.ReadHandshakeMessage(buffer);
    }

    /** `startConnectionWithOtherPeers`, with `net[i]` what dialling peer `i`
        gave. */
    method StartConnectionWithOtherPeers(net: seq<Dial>) returns (outcome: Outcome, sends: seq<Send>, links: seq<Link>)
      requires |net| == |peers| && Registry(peers, selfIdx, peerStatusMap)
      requires handshakeMessageManager.Valid() && self == peers[selfIdx]
      modifies SelfRecord()`out
      ensures DialState(outcome, sends, links, SelfRecord().out)
        == DialFrom(peers, selfIdx, self.peerId, net, 0, DialState(Completed, [], [], old(SelfRecord().out)))
    {
      var selfRec := SelfRecord();
      ghost var init := DialState(Completed, [], [], selfRec.out);
      outcome, sends, links := Completed, [], [];
      var i := 0;
      while i < |peers|
        invariant 0 <= i <= |peers| && i <= selfIdx
        invariant handshakeMessageManager.Valid()
        invariant DialFrom(peers, selfIdx, self.peerId, net, 0, init)
          == DialFrom(peers, selfIdx, self.peerId, net, i, DialState(Completed, sends, links, selfRec.out))
        invariant outcome == Completed
      {
        if i == selfIdx {
          break;
        }
        if net[i].Refused? {
          i := i + 1;
          continue;
        }
        var ch := net[i].channel;
        selfRec.SetOut(Some(ch));
        var handshake := handshakeMessageManager.GenerateHandshakeMessage(self.peerId);
        if handshake.Err? {
          return Aborted(handshake.error), sends, links;
        }
        sends := sends + [Send(ch, handshake.value)];
        var responseToHandshake := ReadResponse(net[i].response);
        if !Accepted(responseToHandshake.value, peers[i].peerId) {
          return;
        }
        links := links + [Link(peers[i].peerId, ch)];
        i := i + 1;
      }
    }
  }

  /** `new PeerProcess(peerID)`: parses the two configuration files, then
      builds the peer. The registry loop raises NegativeArraySizeException
      at the first peer when the bitset size is negative; after it,
      `self.hasFile()` raises NullPointerException when no configured peer
      has the id. */
  method NewPeerProcess(peerID: string, commonLines: seq<string>, peerLines: seq<string>, contents: seq<byte>)
    returns (r: Result<PeerProcess>)
    ensures var c := ApplyLines(DEFAULTS, commonLines, 0);
      IsInt(c.fileSize) && IsInt(c.pieceSize)
      && (r == Err(NegativeArraySize) <==> ParsePeers(peerLines) != [] && BitfieldBytes(c.fileSize, c.pieceSize) < 0)
    ensures r.Err? ==> r.error == NegativeArraySize || r.error == NullPointer
    ensures r == Err(NullPointer) <==> r != Err(NegativeArraySize) && peerID !in PeerMapOf(ParsePeers(peerLines))
    ensures r.Ok? ==> fresh(r.value)
    ensures r.Ok? ==> r.value.settings == ApplyLines(DEFAULTS, commonLines, 0) && r.value.peers == ParsePeers(peerLines)
    ensures r.Ok? ==> r.value.self == PeerMapOf(ParsePeers(peerLines))[peerID]
  {
    var common := new CommonConfigParser(commonLines);
    ApplyLinesInts(DEFAULTS, commonLines, 0);
    var peerInfo := new PeerInfoConfigParser(peerLines);
    if peerInfo.peers != [] && BitfieldBytes(common.fileSize, common.pieceSize) < 0 {
      return Err(NegativeArraySize);
    }
    if peerID !in peerInfo.peerMap {
      return Err(NullPointer);
    }
    var p := new PeerProcess(peerID, common, peerInfo, contents);
    r := Ok(p);
  }
}
