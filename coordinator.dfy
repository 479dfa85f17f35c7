/** The two scheduled choking tasks of a peer (PeerProcess.java):
    `CalculatePreferredNeighboursTask`, which unchokes up to
    `numberOfPreferredNeighbors` interested peers and chokes the others, and
    `CalculateOptimisticallyUnchokedNeighbour`, which unchokes one interested
    peer.  A frame written to a peer's stream is recorded as a `Send`. */
module Choking {
  import opened Common
  import opened Wire
  import opened Session
  import opened PeerInfoConfig

  /** How a task run ends: normally, or with an exception that leaves `run`
      (a write to a record whose stream is `null`). */
  datatype Outcome = Completed | Aborted(error: Failure)

  /** One notice a round decides: the record of `id` gets `choked := !unchoke`
      and the peer a choke or unchoke message. */
  datatype Target = Target(id: string, unchoke: bool)

  /** The frame of a notice: `generateActualMessage(1, type, null)`. */
  function NoticeFrame(unchoke: bool): seq<byte> {
    [0, 0, 0, 1, if unchoke then UNCHOKE else CHOKE]
  }

  lemma NoticeFrameGenerated(unchoke: bool)
    ensures Frame(1, if unchoke then UNCHOKE else CHOKE, None) == Ok(NoticeFrame(unchoke))
  {
    FrameNoPayload(if unchoke then UNCHOKE else CHOKE);
  }

  /** Every configured peer has an entry in `m`. */
  predicate Covers<V>(peers: seq<Peer>, m: map<string, V>) {
    forall i :: 0 <= i < |peers| ==> peers[i].peerId in m
  }

  /** The registry the tasks work on, as `PeerProcess` builds it: self is one
      of the configured peers, every configured peer has a record, and
      distinct ids have distinct records. */
  predicate Registry(peers: seq<Peer>, selfIdx: nat, reg: map<string, PeerStatus>) {
    selfIdx < |peers| && Covers(peers, reg)
    && forall a, b :: a in reg && b in reg && a != b ==> reg[a] != reg[b]
  }

  function InterestedOf(reg: map<string, PeerStatus>): map<string, bool>
    reads reg.Values`interested
  {
    map id | id in reg :: reg[id].interested
  }

  function OutOf(reg: map<string, PeerStatus>): map<string, Option<Channel>>
    reads reg.Values`out
  {
    map id | id in reg :: reg[id].out
  }

  /** The ids of the non-self interested peers among the first `n`
      configured peers, in configuration order (`chokedAndInterested`). */
  function Candidates(peers: seq<Peer>, selfIdx: nat, interestedOf: map<string, bool>, n: nat): seq<string>
    requires n <= |peers| && Covers(peers, interestedOf)
  {
    if n == 0 then []
    else
      var prefix := Candidates(peers, selfIdx, interestedOf, n - 1);
      if n - 1 != selfIdx && interestedOf[peers[n - 1].peerId] then prefix + [peers[n - 1].peerId] else prefix
  }

  /** The notices when there are fewer candidates than preferred neighbours:
      every candidate is unchoked. */
  function UnchokeTargets(cand: seq<string>): (ts: seq<Target>)
    ensures |ts| == |cand|
  {
    seq(|cand|, i requires 0 <= i < |cand| => Target(cand[i], true))
  }

  /** The notices of the other branch for the first `n` configured peers:
      every non-self peer is unchoked when chosen and choked otherwise. */
  function ElseTargets(peers: seq<Peer>, selfIdx: nat, chosen: seq<string>, n: nat): seq<Target>
    requires n <= |peers|
  {
    if n == 0 then []
    else
      var prefix := ElseTargets(peers, selfIdx, chosen, n - 1);
      if n - 1 == selfIdx then prefix else prefix + [Target(peers[n - 1].peerId, peers[n - 1].peerId in chosen)]
  }

  /** The notices of a preferred-neighbour round. */
  function RoundTargets(peers: seq<Peer>, selfIdx: nat, k: int, cand: seq<string>, chosen: seq<string>): seq<Target>
  {
    if |cand| < k then UnchokeTargets(cand) else ElseTargets(peers, selfIdx, chosen, |peers|)
  }

  /** The stream of `id` is known and not `null`. */
  predicate Open(outOf: map<string, Option<Channel>>, id: string) {
    id in outOf && outOf[id].Some?
  }

  predicate Reachable(ts: seq<Target>, outOf: map<string, Option<Channel>>) {
    forall j :: 0 <= j < |ts| ==> Open(outOf, ts[j].id)
  }

  /** The frames written for notices whose streams are all non-null. */
  function Sends(ts: seq<Target>, outOf: map<string, Option<Channel>>): (s: seq<Send>)
    requires Reachable(ts, outOf)
    ensures |s| == |ts|
  {
    seq(|ts|, j requires 0 <= j < |ts| && Reachable(ts, outOf) =>
      Send(outOf[ts[j].id].value, NoticeFrame(ts[j].unchoke)))
  }

  /** The position of the first notice whose stream is `null`, or `|ts|`. */
  function FirstNull(ts: seq<Target>, outOf: map<string, Option<Channel>>): (n: nat)
    ensures n <= |ts| && Reachable(ts[..n], outOf)
    ensures n < |ts| ==> !Open(outOf, ts[n].id)
  {
    if ts == [] || !Open(outOf, ts[0].id) then 0
    else
      var m := FirstNull(ts[1..], outOf);
      assert ts[..m + 1] == [ts[0]] + ts[1..][..m];
      m + 1
  }

  /** The notices a run carries out: up to and including the one whose write
      raises. */
  function Reached(ts: seq<Target>, outOf: map<string, Option<Channel>>): nat
  {
    var n := FirstNull(ts, outOf);
    if n < |ts| then n + 1 else n
  }

  /** The `choked` flag of `id` after the notices `ts`, from `before`: the
      last notice for `id` decides. */
  function ChokedAfter(ts: seq<Target>, id: string, before: bool): bool {
    if ts == [] then before
    else if ts[|ts| - 1].id == id then !ts[|ts| - 1].unchoke
    else ChokedAfter(ts[..|ts| - 1], id, before)
  }

  /** `unchokedList`: the ids unchoked, in order. */
  function UnchokedIds(ts: seq<Target>): seq<string> {
    if ts == [] then []
    else UnchokedIds(ts[..|ts| - 1]) + (if ts[|ts| - 1].unchoke then [ts[|ts| - 1].id] else [])
  }

  /** Both lists grow by the one target appended. */
  lemma IdsStep(ts: seq<Target>, t: Target)
    ensures UnchokedIds(ts + [t]) == UnchokedIds(ts) + (if t.unchoke then [t.id] else [])
    ensures ChokedIds(ts + [t]) == ChokedIds(ts) + (if t.unchoke then [] else [t.id])
  {
    assert (ts + [t])[..|ts|] == ts;
  }

  /** `chokedList`: the ids choked, in order. */
  function ChokedIds(ts: seq<Target>): seq<string> {
    if ts == [] then []
    else ChokedIds(ts[..|ts| - 1]) + (if ts[|ts| - 1].unchoke then [] else [ts[|ts| - 1].id])
  }

  /** `pickRandomElements(list, k)`: IllegalArgumentException when `k`
      exceeds the list; otherwise `k` (none for a negative `k`) elements
      removed one at a time from random positions of the list, which keeps
      the others. */
  method PickRandomElements<T(==)>(list: seq<T>, k: int) returns (r: Result<seq<T>>, rest: seq<T>)
    ensures r.Err? <==> k > |list|
    ensures r.Err? ==> r.error == IllegalArgument && rest == list
    ensures r.Ok? ==> |r.value| == (if k < 0 then 0 else k) && |rest| == |list| - |r.value|
    ensures r.Ok? ==> multiset(r.value) + multiset(rest) == multiset(list)
  {
    if k > |list| {
      return Err(IllegalArgument), list;
    }
    var result := [];
    rest := list;
    var i := 0;
    while i < k
      invariant 0 <= i && (k >= 0 ==> i <= k) && (k < 0 ==> i == 0)
      invariant |result| == i && |rest| == |list| - i
      invariant multiset(result) + multiset(rest) == multiset(list)
    {
      var randomIndex :| 0 <= randomIndex < |rest|;
      assert rest == rest[..randomIndex] + [rest[randomIndex]] + rest[randomIndex + 1..];
      result := result + [rest[randomIndex]];
      rest := rest[..randomIndex] + rest[randomIndex + 1..];
      i := i + 1;
    }
    r := Ok(result);
  }

  /** The notice step both branches of a round share: set the flag, then
      write the frame to the record's stream. */
  method Notify(rec: PeerStatus, unchoke: bool) returns (s: Option<Send>)
    modifies rec`choked
    ensures rec.choked == !unchoke
    ensures s == if rec.out.None? then None else Some(Send(rec.out.value, NoticeFrame(unchoke)))
  {
    rec.SetChoked(!unchoke);
    var out := rec.GetOut();
    var frame := GenerateActualMessage(1, if unchoke then UNCHOKE else CHOKE, None);
    NoticeFrameGenerated(unchoke);
    if out.None? {
      return None;
    }
    s := Some(Send(out.value, frame.value));
  }

  class PreferredNeighboursTask {
    const numberOfPreferredNeighbors: int
    const peers: seq<Peer>
    const selfIdx: nat
    const peerStatusMap: map<string, PeerStatus>

    constructor (numberOfPreferredNeighbors: int, peers: seq<Peer>, selfIdx: nat, peerStatusMap: map<string, PeerStatus>)
      ensures this.numberOfPreferredNeighbors == numberOfPreferredNeighbors && this.peers == peers
      ensures this.selfIdx == selfIdx && this.peerStatusMap == peerStatusMap
    {
      this.numberOfPreferredNeighbors := numberOfPreferredNeighbors;
      this.peers := peers;
      this.selfIdx := selfIdx;
      this.peerStatusMap := peerStatusMap;
    }

    /** The first loop of `run`: the interested peers other than self. */
    method CollectCandidates() returns (cand: seq<string>)
      requires Registry(peers, selfIdx, peerStatusMap)
      ensures cand == Candidates(peers, selfIdx, InterestedOf(peerStatusMap), |peers|)
    {
      cand := [];
      var i := 0;
      while i < |peers|
        invariant 0 <= i <= |peers|
        invariant cand == Candidates(peers, selfIdx, InterestedOf(peerStatusMap), i)
      {
        if i != selfIdx {
          var interested := peerStatusMap[peers[i].peerId].IsInterested();
          if interested {
            cand := cand + [peers[i].peerId];
          }
        }
        i := i + 1;
      }
    }

    /** The second loop of the branch for at least as many candidates as
        preferred neighbours: every non-self peer, in configuration order, is
        to be unchoked when chosen and choked otherwise; the two lists record
        which. */
    method SplitPeers(chosen: seq<string>) returns (ts: seq<Target>, unchokedList: seq<string>, chokedList: seq<string>)
      ensures ts == ElseTargets(peers, selfIdx, chosen, |peers|)
      ensures unchokedList == UnchokedIds(ts) && chokedList == ChokedIds(ts)
    {
      ts, unchokedList, chokedList := [], [], [];
      var i := 0;
      while i < |peers|
        invariant 0 <= i <= |peers|
        invariant ts == ElseTargets(peers, selfIdx, chosen, i)
        invariant unchokedList == UnchokedIds(ts) && chokedList == ChokedIds(ts)
      {
        if i != selfIdx {
          var id := peers[i].peerId;
          var unchoke := id in chosen;
          IdsStep(ts, Target(id, unchoke));
          ts := ts + [Target(id, unchoke)];
          if unchoke {
            unchokedList := unchokedList + [id];
          } else {
            chokedList := chokedList + [id];
          }
        }
        i := i + 1;
      }
    }

    /** The notices of a round carried out in order: each sets the flag of
        its record and writes a frame to its stream; the first `null` stream
        raises and ends the run. */
    method ApplyNotices(ts: seq<Target>) returns (outcome: Outcome, sends: seq<Send>)
      requires Registry(peers, selfIdx, peerStatusMap)
      requires forall j :: 0 <= j < |ts| ==> ts[j].id in peerStatusMap
      modifies peerStatusMap.Values`choked
      ensures var n := FirstNull(ts, OutOf(peerStatusMap));
        && (outcome == Completed <==> n == |ts|)
        && (outcome.Aborted? ==> outcome.error == NullPointer)
        && sends == Sends(ts[..n], OutOf(peerStatusMap))
      ensures forall id | id in peerStatusMap ::
        peerStatusMap[id].choked == ChokedAfter(ts[..Reached(ts, OutOf(peerStatusMap))], id, old(peerStatusMap[id].choked))
    {
      ghost var outs := OutOf(peerStatusMap);
      sends := [];
      var i := 0;
      while i < |ts|
        invariant 0 <= i <= |ts|
        invariant Reachable(ts[..i], outs) && sends == Sends(ts[..i], outs)
        invariant forall id | id in peerStatusMap ::
          peerStatusMap[id].choked == ChokedAfter(ts[..i], id, old(peerStatusMap[id].choked))
      {
        var rec := peerStatusMap[ts[i].id];
        var s := Notify(rec, ts[i].unchoke);
        forall id | id in peerStatusMap
          ensures peerStatusMap[id].choked == ChokedAfter(ts[..i + 1], id, old(peerStatusMap[id].choked))
        {
          ChokedAfterStep(ts, i, id, old(peerStatusMap[id].choked));
        }
        if s.None? {
          FirstNullIs(ts, outs, i);
          return Aborted(NullPointer), sends;
        }
        SendsStep(ts, outs, i);
        sends := sends + [s.value];
        i := i + 1;
      }
      assert ts[..i] == ts;
      FirstNullIs(ts, outs, i);
      outcome := Completed;
    }

    /** `run`: the candidates, then one of the two branches, then self's
        `chokedList` becomes the round's choked list. Returns the logged
        `unchokedList` and, as a ghost, the peers chosen. */
    method Run() returns (outcome: Outcome, sends: seq<Send>, unchokedList: seq<string>, ghost chosen: seq<string>, ghost ts: seq<Target>)
      requires Registry(peers, selfIdx, peerStatusMap)
      modifies peerStatusMap.Values`choked, SelfRecord()`chokedList
      ensures var cand := Candidates(peers, selfIdx, old(InterestedOf(peerStatusMap)), |peers|);
        && (|cand| < numberOfPreferredNeighbors ==> chosen == cand)
        && (|cand| >= numberOfPreferredNeighbors ==>
              |chosen| == (if numberOfPreferredNeighbors < 0 then 0 else numberOfPreferredNeighbors)
              && multiset(chosen) <= multiset(cand))
        && ts == RoundTargets(peers, selfIdx, numberOfPreferredNeighbors, cand, chosen)
      ensures outcome == Completed <==> FirstNull(ts, OutOf(peerStatusMap)) == |ts|
      ensures outcome.Aborted? ==> outcome.error == NullPointer
      ensures sends == Sends(ts[..FirstNull(ts, OutOf(peerStatusMap))], OutOf(peerStatusMap))
      ensures outcome == Completed ==> unchokedList == UnchokedIds(ts)
      ensures SelfRecord().chokedList == if outcome == Completed then ChokedIds(ts) else old(SelfRecord().chokedList)
      ensures forall id | id in peerStatusMap ::
        peerStatusMap[id].choked == ChokedAfter(ts[..Reached(ts, OutOf(peerStatusMap))], id, old(peerStatusMap[id].choked))
    {
      var cand := CollectCandidates();
      CandidatesRegistered(peers, selfIdx, InterestedOf(peerStatusMap), |peers|, peerStatusMap);
      var targets, chokedList;
      if |cand| < numberOfPreferredNeighbors {
        chosen := cand;
        targets := UnchokeTargets(cand);
        UnchokeBranchLists(cand);
        unchokedList, chokedList := cand, [];
      } else {
        var picked, _ := PickRandomElements(cand, numberOfPreferredNeighbors);
        assert picked.Ok?;
        chosen := picked.value;
        targets, unchokedList, chokedList := SplitPeers(picked.value);
        ElseTargetsRegistered(peers, selfIdx, chosen, |peers|, peerStatusMap);
      }
      ts := targets;
      outcome, sends := ApplyNotices(targets);
      if outcome.Aborted? {
        return;
      }
      SelfRecord().SetChokedList(chokedList);
    }

    function SelfRecord(): PeerStatus
      requires Registry(peers, selfIdx, peerStatusMap)
    {
      peerStatusMap[peers[selfIdx].peerId]
    }
  }

  class OptimisticUnchokeTask {
    const peers: seq<Peer>
    const selfIdx: nat
    const peerStatusMap: map<string, PeerStatus>

    constructor (peers: seq<Peer>, selfIdx: nat, peerStatusMap: map<string, PeerStatus>)
      ensures this.peers == peers && this.selfIdx == selfIdx && this.peerStatusMap == peerStatusMap
    {
      this.peers := peers;
      this.selfIdx := selfIdx;
      this.peerStatusMap := peerStatusMap;
    }

    function SelfRecord(): PeerStatus
      requires Registry(peers, selfIdx, peerStatusMap)
    {
      peerStatusMap[peers[selfIdx].peerId]
    }

    /** `run`: the first interested peer other than self gets an unchoke
        message and joins self's `chokedList`; a `null` stream raises before
        the list changes. No `choked` flag changes. */
    method Run() returns (outcome: Outcome, sends: seq<Send>)
      requires Registry(peers, selfIdx, peerStatusMap)
      modifies SelfRecord()`chokedList
      ensures var selfRec := SelfRecord();
        match FirstInterested(peers, selfIdx, InterestedOf(peerStatusMap), 0)
        case None => outcome == Completed && sends == [] && selfRec.chokedList == old(selfRec.chokedList)
        case Some(i) =>
          var rec := peerStatusMap[peers[i].peerId];
          if rec.out.None? then
            outcome == Aborted(NullPointer) && sends == [] && selfRec.chokedList == old(selfRec.chokedList)
          else
            outcome == Completed && sends == [Send(rec.out.value, NoticeFrame(true))]
            && selfRec.chokedList == WithItem(old(selfRec.chokedList), peers[i].peerId)
    {
      var selfRec := SelfRecord();
      outcome, sends := Completed, [];
      var i := 0;
      while i < |peers|
        invariant 0 <= i <= |peers|
        invariant FirstInterested(peers, selfIdx, InterestedOf(peerStatusMap), 0)
          == FirstInterested(peers, selfIdx, InterestedOf(peerStatusMap), i)
        invariant selfRec.chokedList == old(selfRec.chokedList)
      {
        if i == selfIdx {
          i := i + 1;
          continue;
        }
        var rec := peerStatusMap[peers[i].peerId];
        var interested := rec.IsInterested();
        if !interested {
          i := i + 1;
          continue;
        }
        var out := rec.GetOut();
        var frame := GenerateActualMessage(1, UNCHOKE, None);
        FrameNoPayload(UNCHOKE);
        if out.None? {
          return Aborted(NullPointer), [];
        }
        sends := [Send(out.value, frame.value)];
        selfRec.AddToChokedList(peers[i].peerId);
        return;
      }
    }
  }

  /** The index of the first non-self interested peer from position `i`
      on. */
  function FirstInterested(peers: seq<Peer>, selfIdx: nat, interestedOf: map<string, bool>, i: nat): (r: Option<nat>)
    requires Covers(peers, interestedOf)
    ensures r.Some? ==> i <= r.value < |peers| && r.value != selfIdx && interestedOf[peers[r.value].peerId]
    ensures forall j :: i <= j < (if r.Some? then r.value else |peers|) && j != selfIdx ==> !interestedOf[peers[j].peerId]
    decreases |peers| - i
  {
    if i >= |peers| then None
    else if i != selfIdx && interestedOf[peers[i].peerId] then Some(i)
    else FirstInterested(peers, selfIdx, interestedOf, i + 1)
  }

  // Proof steps of the loops above.

  /** A notice changes the flag of its own id only. */
  lemma ChokedAfterStep(ts: seq<Target>, i: nat, id: string, b: bool)
    requires i < |ts|
    ensures ChokedAfter(ts[..i + 1], id, b) == if ts[i].id == id then !ts[i].unchoke else ChokedAfter(ts[..i], id, b)
  {
    assert ts[..i + 1][..i] == ts[..i];
  }

  /** Every candidate is a configured peer, so it has a record. */
  lemma {:induction false} CandidatesRegistered<V>(peers: seq<Peer>, selfIdx: nat, interestedOf: map<string, bool>, n: nat, reg: map<string, V>)
    requires n <= |peers| && Covers(peers, interestedOf) && Covers(peers, reg)
    ensures forall j :: 0 <= j < |Candidates(peers, selfIdx, interestedOf, n)| ==> Candidates(peers, selfIdx, interestedOf, n)[j] in reg
  {
    if n > 0 {
      CandidatesRegistered(peers, selfIdx, interestedOf, n - 1, reg);
    }
  }

  /** Every notice of the second branch is for a configured peer. */
  lemma {:induction false} ElseTargetsRegistered<V>(peers: seq<Peer>, selfIdx: nat, chosen: seq<string>, n: nat, reg: map<string, V>)
    requires n <= |peers| && Covers(peers, reg)
    ensures forall j :: 0 <= j < |ElseTargets(peers, selfIdx, chosen, n)| ==> ElseTargets(peers, selfIdx, chosen, n)[j].id in reg
  {
    if n > 0 {
      ElseTargetsRegistered(peers, selfIdx, chosen, n - 1, reg);
    }
  }

  lemma SendsStep(ts: seq<Target>, outOf: map<string, Option<Channel>>, i: nat)
    requires i < |ts| && Reachable(ts[..i], outOf) && Open(outOf, ts[i].id)
    ensures Reachable(ts[..i + 1], outOf)
    ensures Sends(ts[..i + 1], outOf) == Sends(ts[..i], outOf) + [Send(outOf[ts[i].id].value, NoticeFrame(ts[i].unchoke))]
  {
    assert forall j :: 0 <= j < i ==> ts[..i + 1][j] == ts[..i][j];
  }

  lemma {:induction false} FirstNullIs(ts: seq<Target>, outOf: map<string, Option<Channel>>, k: nat)
    requires k <= |ts| && Reachable(ts[..k], outOf) && (k < |ts| ==> !Open(outOf, ts[k].id))
    ensures FirstNull(ts, outOf) == k
  {
    if k > 0 {
      assert ts[..k] == [ts[0]] + ts[1..][..k - 1];
      FirstNullIs(ts[1..], outOf, k - 1);
    }
  }

  /** When every candidate is unchoked, the logged list is the candidate
      list and the round's choked list is empty. */
  lemma {:induction false} UnchokeBranchLists(cand: seq<string>)
    ensures UnchokedIds(UnchokeTargets(cand)) == cand
    ensures ChokedIds(UnchokeTargets(cand)) == []
  {
    if cand != [] {
      var init := cand[..|cand| - 1];
      UnchokeBranchLists(init);
      assert UnchokeTargets(cand)[..|cand| - 1] == UnchokeTargets(init);
      assert cand == init + [cand[|cand| - 1]];
    }
  }
  // What a round decides.

  /** A peer is a candidate exactly when it is a non-self configured peer
      whose record is interested. */
  lemma {:induction false} CandidatesMembers(peers: seq<Peer>, selfIdx: nat, interestedOf: map<string, bool>, n: nat, id: string)
    requires n <= |peers| && Covers(peers, interestedOf)
    ensures id in Candidates(peers, selfIdx, interestedOf, n) <==>
      exists i :: 0 <= i < n && i != selfIdx && peers[i].peerId == id && interestedOf[id]
  {
    if n > 0 {
      CandidatesMembers(peers, selfIdx, interestedOf, n - 1, id);
      if id in Candidates(peers, selfIdx, interestedOf, n) && id !in Candidates(peers, selfIdx, interestedOf, n - 1) {
        assert peers[n - 1].peerId == id;
      }
    }
  }

  /** The optimistic task picks the first candidate of the preferred-neighbour
      task, and finds none exactly when there are no candidates. */
  lemma {:induction false} FirstInterestedIsFirstCandidate(peers: seq<Peer>, selfIdx: nat, interestedOf: map<string, bool>, n: nat)
    requires n <= |peers| && Covers(peers, interestedOf)
    ensures var f := FirstInterested(peers, selfIdx, interestedOf, 0);
      && (Candidates(peers, selfIdx, interestedOf, n) == [] <==> f.None? || f.value >= n)
      && (f.Some? && f.value < n ==> Candidates(peers, selfIdx, interestedOf, n)[0] == peers[f.value].peerId)
  {
    if n > 0 {
      FirstInterestedIsFirstCandidate(peers, selfIdx, interestedOf, n - 1);
      var f := FirstInterested(peers, selfIdx, interestedOf, 0);
      if Candidates(peers, selfIdx, interestedOf, n - 1) == [] && n - 1 != selfIdx && interestedOf[peers[n - 1].peerId] {
        assert f.Some? && f.value <= n - 1;
      }
    }
  }

  /** The notices of the second branch: one for every non-self configured
      peer, unchoking it exactly when it was chosen. */
  lemma {:induction false} ElseTargetsMembers(peers: seq<Peer>, selfIdx: nat, chosen: seq<string>, n: nat, t: Target)
    requires n <= |peers|
    ensures t in ElseTargets(peers, selfIdx, chosen, n) <==>
      exists i :: 0 <= i < n && i != selfIdx && t == Target(peers[i].peerId, peers[i].peerId in chosen)
  {
    if n > 0 {
      ElseTargetsMembers(peers, selfIdx, chosen, n - 1, t);
    }
  }

  /** `unchokedList` holds the ids of the unchoke notices. */
  lemma {:induction false} UnchokedIdsMembers(ts: seq<Target>, id: string)
    ensures id in UnchokedIds(ts) <==> Target(id, true) in ts
  {
    if ts != [] {
      var init := ts[..|ts| - 1];
      UnchokedIdsMembers(init, id);
      assert ts == init + [ts[|ts| - 1]];
    }
  }

  /** The round's choked list holds the ids of the choke notices. */
  lemma {:induction false} ChokedIdsMembers(ts: seq<Target>, id: string)
    ensures id in ChokedIds(ts) <==> Target(id, false) in ts
  {
    if ts != [] {
      var init := ts[..|ts| - 1];
      ChokedIdsMembers(init, id);
      assert ts == init + [ts[|ts| - 1]];
    }
  }

  /** In the second branch the two lists split the non-self peers: the chosen
      ones are logged as unchoked, the others become self's choked list. */
  lemma ElseBranchLists(peers: seq<Peer>, selfIdx: nat, chosen: seq<string>, id: string)
    ensures var ts := ElseTargets(peers, selfIdx, chosen, |peers|);
      var peer := exists i :: 0 <= i < |peers| && i != selfIdx && peers[i].peerId == id;
      && (id in UnchokedIds(ts) <==> peer && id in chosen)
      && (id in ChokedIds(ts) <==> peer && id !in chosen)
  {
    var ts := ElseTargets(peers, selfIdx, chosen, |peers|);
    UnchokedIdsMembers(ts, id);
    ChokedIdsMembers(ts, id);
    ElseTargetsMembers(peers, selfIdx, chosen, |peers|, Target(id, true));
    ElseTargetsMembers(peers, selfIdx, chosen, |peers|, Target(id, false));
  }

  /** After a full round of the second branch, a non-self peer is choked
      exactly when it was not chosen; any other record keeps its flag. */
  lemma {:induction false} ElseTargetsFlags(peers: seq<Peer>, selfIdx: nat, chosen: seq<string>, n: nat, id: string, before: bool)
    requires n <= |peers|
    ensures ChokedAfter(ElseTargets(peers, selfIdx, chosen, n), id, before) ==
      if exists i :: 0 <= i < n && i != selfIdx && peers[i].peerId == id then id !in chosen else before
  {
    if n > 0 {
      ElseTargetsFlags(peers, selfIdx, chosen, n - 1, id, before);
      var prefix := ElseTargets(peers, selfIdx, chosen, n - 1);
      if n - 1 != selfIdx {
        assert (prefix + [Target(peers[n - 1].peerId, peers[n - 1].peerId in chosen)])[..|prefix|] == prefix;
      }
    }
  }

  /** After a full round of the first branch every candidate is unchoked and
      every other record keeps its flag. */
  lemma {:induction false} UnchokeTargetsFlags(cand: seq<string>, id: string, before: bool)
    ensures ChokedAfter(UnchokeTargets(cand), id, before) == if id in cand then false else before
  {
    if cand != [] {
      var init := cand[..|cand| - 1];
      UnchokeTargetsFlags(init, id, before);
      assert UnchokeTargets(cand)[..|cand| - 1] == UnchokeTargets(init);
      assert cand == init + [cand[|cand| - 1]];
    }
  }
}
