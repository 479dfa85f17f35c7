/** The peer list (PeerInfoConfigParser.java, Peer.java): one peer per line,
    `id host port hasFile`, and a map from id to peer. */
module PeerInfoConfig {
  import opened Common
  import opened Text

  /** A configured peer (Peer.java). */
  datatype Peer = Peer(peerId: string, hostName: string, listeningPort: int, hasFile: bool)

  /** What one line yields: `Some(Some(peer))` for a line of four tokens whose
      port and flag parse, `Some(None)` for a line that is skipped (not four
      tokens), and `None` when `Integer.parseInt` raises. */
  function PeerOfLine(line: string): Option<Option<Peer>>
  {
    var parts := Split(line);
    if |parts| != 4 then Some(None)
    else match (ParseInt(parts[2]), ParseInt(parts[3]))
      case (Some(port), Some(flag)) => Some(Some(Peer(parts[0], parts[1], port, flag == 1)))
      case _ => None
  }

  /** The peers `parseInput` returns for the lines of the file: the loop sits
      inside the `try`, so the first exception ends it and keeps the peers
      read so far. */
  function ParsePeers(lines: seq<string>): seq<Peer>
  {
    if lines == [] then []
    else match PeerOfLine(lines[0])
      case None => []
      case Some(None) => ParsePeers(lines[1..])
      case Some(Some(p)) => [p] + ParsePeers(lines[1..])
  }

  /** The map `createPeerMap` builds: each peer put under its id in list
      order, so a later peer replaces an earlier one with the same id. */
  function PeerMapOf(peers: seq<Peer>): map<string, Peer>
  {
    if peers == [] then map[]
    else PeerMapOf(peers[..|peers| - 1])[peers[|peers| - 1].peerId := peers[|peers| - 1]]
  }

  class PeerInfoConfigParser {
    var peers: seq<Peer>
    var peerMap: map<string, Peer>

    /** Reads the configuration whose lines are `lines`. */
    constructor (lines: seq<string>)
      ensures peers == ParsePeers(lines) && peerMap == PeerMapOf(peers)
    {
      var ps := PeerInfoConfigParser.ParseInput(lines);
      var m := PeerInfoConfigParser.CreatePeerMap(ps);
      peers := ps;
      peerMap := m;
    }

    /** `parseInput`: the line loop. */
    static method ParseInput(lines: seq<string>) returns (peers: seq<Peer>)
      ensures peers == ParsePeers(lines)
    {
      peers := [];
      var i := 0;
      while i < |lines|
        invariant 0 <= i <= |lines|
        invariant peers + ParsePeers(lines[i..]) == ParsePeers(lines)
      {
        var parts := Split(lines[i]);
        assert lines[i..][0] == lines[i] && lines[i..][1..] == lines[i + 1..];
        if |parts| == 4 {
          var listeningPort := ParseInt(parts[2]);
          if listeningPort.None? {
            break;
          }
          var flag := ParseInt(parts[3]);
          if flag.None? {
            break;
          }
          peers := peers + [Peer(parts[0], parts[1], listeningPort.value, flag.value == 1)];
        }
        i := i + 1;
      }
      if i == |lines| {
        assert lines[i..] == [];
      }
    }

    /** `createPeerMap`: puts every peer under its id. */
    static method CreatePeerMap(peers: seq<Peer>) returns (peerMap: map<string, Peer>)
      ensures peerMap == PeerMapOf(peers)
    {
      peerMap := map[];
      var i := 0;
      while i < |peers|
        invariant 0 <= i <= |peers|
        invariant peerMap == PeerMapOf(peers[..i])
      {
        assert peers[..i + 1][..i] == peers[..i];
        peerMap := peerMap[peers[i].peerId := peers[i]];
        i := i + 1;
      }
      assert peers[..i] == peers;
    }
  }

  /** Lines that all parse contribute their peers in order. */
  lemma {:induction false} ParsePeersAppend(a: seq<string>, b: seq<string>)
    requires forall i :: 0 <= i < |a| ==> PeerOfLine(a[i]).Some?
    ensures ParsePeers(a + b) == ParsePeers(a) + ParsePeers(b)
  {
    if a == [] {
      assert a + b == b;
    } else {
      assert (a + b)[0] == a[0] && (a + b)[1..] == a[1..] + b;
      ParsePeersAppend(a[1..], b);
    }
  }

  /** A line of four tokens whose port or flag is not a number ends the
      parse: nothing after it is read. */
  lemma ParsePeersStops(a: seq<string>, line: string, b: seq<string>)
    requires forall i :: 0 <= i < |a| ==> PeerOfLine(a[i]).Some?
    requires PeerOfLine(line).None?
    ensures ParsePeers(a + [line] + b) == ParsePeers(a)
  {
    ParsePeersAppend(a, [line] + b);
    assert a + [line] + b == a + ([line] + b);
    assert ParsePeers([line] + b) == [];
  }

  /** `p` is what the line `line` of four tokens yields. */
  predicate FromLine(p: Peer, line: string) {
    var parts := Split(line);
    |parts| == 4 && p.peerId == parts[0] && p.hostName == parts[1]
    && ParseInt(parts[2]) == Some(p.listeningPort)
    && ParseInt(parts[3]).Some? && (p.hasFile <==> ParseInt(parts[3]) == Some(1))
  }

  /** Every parsed peer comes from a line of exactly four tokens: id and host
      are its first two tokens, and `hasFile` holds exactly when the fourth
      parses to 1. */
  lemma {:induction false} ParsedPeersFromLines(lines: seq<string>)
    ensures |ParsePeers(lines)| <= |lines|
    ensures forall p :: p in ParsePeers(lines) ==> exists i :: 0 <= i < |lines| && FromLine(p, lines[i])
  {
    if lines != [] {
      ParsedPeersFromLines(lines[1..]);
      forall p | p in ParsePeers(lines)
        ensures exists i :: 0 <= i < |lines| && FromLine(p, lines[i])
      {
        if p in ParsePeers(lines[1..]) {
          var i :| 0 <= i < |lines[1..]| && FromLine(p, lines[1..][i]);
          assert lines[1..][i] == lines[i + 1];
        } else {
          assert FromLine(p, lines[0]);
        }
      }
    }
  }

  /** `peers[i]` is the last listed peer with id `id`. */
  predicate LastWithId(peers: seq<Peer>, i: int, id: string) {
    0 <= i < |peers| && peers[i].peerId == id && forall j :: i < j < |peers| ==> peers[j].peerId != id
  }

  /** The map has exactly the listed ids as keys. */
  lemma {:induction false} PeerMapOfKeys(peers: seq<Peer>)
    ensures PeerMapOf(peers).Keys == set i | 0 <= i < |peers| :: peers[i].peerId
  {
    if peers != [] {
      var init := peers[..|peers| - 1];
      PeerMapOfKeys(init);
      assert forall i :: 0 <= i < |init| ==> init[i] == peers[i];
      assert (set i | 0 <= i < |peers| :: peers[i].peerId)
        == (set i | 0 <= i < |init| :: init[i].peerId) + {peers[|peers| - 1].peerId};
    }
  }

  /** The map sends each id to the last listed peer with that id. */
  lemma {:induction false} PeerMapOfLast(peers: seq<Peer>)
    ensures forall id :: id in PeerMapOf(peers) ==> exists i :: LastWithId(peers, i, id) && peers[i] == PeerMapOf(peers)[id]
  {
    if peers != [] {
      var init := peers[..|peers| - 1];
      PeerMapOfLast(init);
      var m := PeerMapOf(peers);
      forall id | id in m
        ensures exists i :: LastWithId(peers, i, id) && peers[i] == m[id]
      {
        if id == peers[|peers| - 1].peerId {
          assert LastWithId(peers, |peers| - 1, id);
        } else {
          assert id in PeerMapOf(init) && m[id] == PeerMapOf(init)[id];
          var i :| LastWithId(init, i, id) && init[i] == PeerMapOf(init)[id];
          assert LastWithId(peers, i, id);
        }
      }
    }
  }
}
