/**
Membership of the links to other Peers (`PeerLinkManager`): present, suspected missing, and
retired after a grace period without any usable path.
*/
module LinkManager {
  import opened Basics
  import opened LinkPlan

  const ABSENCE_GRACE: nat := 120_000_000_000  // 120 s in nanoseconds
  const RETRY_LIMIT: nat := 0xFFFF_FFFF

  datatype Connectivity = Connectivity(healthyDirect: bool, usableExactRelay: bool)

  /** Current path availability by Peer. */
  type Paths = string -> Connectivity

  predicate Unreachable(paths: Paths, id: string)
  {
    !paths(id).healthyDirect && !paths(id).usableExactRelay
  }

  datatype ManagerState = ManagerState(
    links: map<string, LinkView>, firstAbsentAt: map<string, nat>, retired: seq<string>)

  const EMPTY := ManagerState(map[], map[], [])

  // ---- Transitions on values ----

  /** The lanes of `desired` that are not already planned, each a command to ensure it. */
  function Changed(current: seq<Lane>, desired: seq<Lane>): (r: seq<Lane>)
    ensures forall lane :: lane in r <==> lane in desired && !(lane.index < |current| && current[lane.index] == lane)
  {
    if desired == [] then [] else
      var before, last := Changed(current, desired[..|desired| - 1]), desired[|desired| - 1];
      assert desired == desired[..|desired| - 1] + [last];
      if last.index < |current| && current[last.index] == last then before else before + [last]
  }

  function Announce(
    local: PeerDescriptor, laneCount: nat, s: ManagerState, peer: PeerDescriptor): (r: (ManagerState, seq<Lane>))
  {
    var id := peer.peerId;
    if id == local.peerId then (s, [])
    else
      var desired := BuildLink(local, peer, laneCount);
      var present := s.(firstAbsentAt := s.firstAbsentAt - {id});
      if id in s.links then
        var link := s.links[id];
        (present.(links := s.links[id := link.(lanes := desired.lanes, membership := Present)]),
         Changed(link.lanes, desired.lanes))
      else
        (present.(links := s.links[id := desired]), desired.lanes)
  }

  function AnnounceAll(
    local: PeerDescriptor, laneCount: nat, s: ManagerState, peers: seq<PeerDescriptor>): (r: (ManagerState,
    seq<Lane>))
  {
    if peers == [] then (s, []) else
      var (before, commands) := AnnounceAll(local, laneCount, s, peers[..|peers| - 1]);
      var (next, more) := Announce(local, laneCount, before, peers[|peers| - 1]);
      (next, commands + more)
  }

  function PresentIds(local: PeerDescriptor, peers: seq<PeerDescriptor>): (r: set<string>)
  {
    set peer | peer in peers && peer.peerId != local.peerId :: peer.peerId
  }

  function AbsentSince(s: ManagerState, id: string, now: nat): (t: nat)
  {
    if id in s.firstAbsentAt then s.firstAbsentAt[id] else now
  }

  /** `now.saturating_duration_since(first) >= grace`, and no path left. */
  predicate Expired(s: ManagerState, id: string, now: nat, paths: Paths)
  {
    now >= AbsentSince(s, id, now) + ABSENCE_GRACE && Unreachable(paths, id)
  }

  /** The absent links of `visited` judged, the rest as before. */
  function SweptLinks(
    s: ManagerState, visited: set<string>, present: set<string>, now: nat, paths: Paths): (r: map<string, LinkView>)
  {
    map id | id in s.links ::
      if id in visited && id !in present
      then s.links[id].(membership := if Expired(s, id, now, paths) then Retired else SuspectMissing)
      else s.links[id]
  }

  function SweptAbsences(s: ManagerState, visited: set<string>, present: set<string>, now: nat): (r: map<string, nat>)
  {
    map id | id in s.firstAbsentAt.Keys + (visited - present) :: AbsentSince(s, id, now)
  }

  function NewlyRetired(
    s: ManagerState, ids: seq<string>, present: set<string>, now: nat, paths: Paths): (r: seq<string>)
    ensures forall id :: id in r <==> id in ids && id !in present && Expired(s, id, now, paths) && id !in s.retired
  {
    if ids == [] then [] else
      var before, last := NewlyRetired(s, ids[..|ids| - 1], present, now, paths), ids[|ids| - 1];
      assert ids == ids[..|ids| - 1] + [last];
      if last !in present && Expired(s, last, now, paths) && last !in s.retired then before + [last] else before
  }

  function Sweep(s: ManagerState, present: set<string>, now: nat, paths: Paths): (r: ManagerState)
  {
    ManagerState(SweptLinks(s, s.links.Keys, present, now, paths), SweptAbsences(s, s.links.Keys, present, now),
                 s.retired + NewlyRetired(s, SortedIds(s.links.Keys), present, now, paths))
  }

  function ApplySnapshot(
    local: PeerDescriptor, laneCount: nat, s: ManagerState, peers: seq<PeerDescriptor>, now: nat, paths: Paths)
    : (r: (ManagerState, seq<Lane>))
  {
    var (announced, commands) := AnnounceAll(local, laneCount, s, peers);
    (Sweep(announced, PresentIds(local, peers), now, paths), commands)
  }

  function Confirm(s: ManagerState, id: string): (r: ManagerState)
  {
    if id in s.links && s.links[id].membership == Retired then
      ManagerState(s.links - {id}, s.firstAbsentAt - {id}, Without(s.retired, id))
    else s
  }

  function RetryFailed(s: ManagerState, id: string): (r: ManagerState)
  {
    if id in s.links then
      var failures := s.links[id].retryFailures;
      s.(links := s.links[id := s.links[id].(
                            retryFailures := if failures < RETRY_LIMIT then failures + 1 else failures)])
    else s
  }

  // ---- The manager's invariant ----

  predicate LinkOk(local: PeerDescriptor, laneCount: nat, id: string, link: LinkView)
  {
    && id != local.peerId && link.key == CanonicalKey(local.peerId, id)
    && link.localIsInitiator == (link.key.first == local.peerId)
    && |link.lanes| == laneCount
    && (forall i :: 0 <= i < laneCount ==> link.lanes[i].index == i && link.lanes[i].link == link.key)
    && link.retryFailures <= RETRY_LIMIT
  }

  ghost predicate ManagerOk(local: PeerDescriptor, laneCount: nat, s: ManagerState)
  {
    && (forall id :: id in s.links ==> LinkOk(local, laneCount, id, s.links[id]))
    && (forall id :: id in s.firstAbsentAt <==> id in s.links && s.links[id].membership != Present)
    && Distinct(s.retired)
    && (forall id :: id in s.retired ==> id in s.links)
  }

  // A planned link is in order, and so is an old one that takes over its lanes.
  lemma PlannedOk(local: PeerDescriptor, laneCount: nat, peer: PeerDescriptor, link: LinkView)
    requires peer.peerId != local.peerId
    ensures var desired := BuildLink(local, peer, laneCount);
            && LinkOk(local, laneCount, peer.peerId, desired) && desired.membership == Present
            && (LinkOk(local, laneCount, peer.peerId, link) ==>
                  LinkOk(local, laneCount, peer.peerId, link.(lanes := desired.lanes, membership := Present)))
  {
    hide WellFormed, LexLe;
  }

  lemma AnnounceOk(local: PeerDescriptor, laneCount: nat, s: ManagerState, peer: PeerDescriptor)
    requires ManagerOk(local, laneCount, s)
    ensures ManagerOk(local, laneCount, Announce(local, laneCount, s, peer).0)
  {
    hide LinkOk, BuildLink, WellFormed, Distinct, Changed;
    var id := peer.peerId;
    if id != local.peerId {
      var desired := BuildLink(local, peer, laneCount);
      PlannedOk(local, laneCount, peer, if id in s.links then s.links[id] else desired);
    }
  }

  lemma {:induction false} AnnounceAllOk(
    local: PeerDescriptor, laneCount: nat, s: ManagerState, peers: seq<PeerDescriptor>)
    requires ManagerOk(local, laneCount, s)
    ensures ManagerOk(local, laneCount, AnnounceAll(local, laneCount, s, peers).0)
  {
    if peers != [] {
      var before := peers[..|peers| - 1];
      AnnounceAllOk(local, laneCount, s, before);
      AnnounceOk(local, laneCount, AnnounceAll(local, laneCount, s, before).0, peers[|peers| - 1]);
    }
  }

  // Every listed Peer is present once all have been announced, and nobody else changes.
  lemma {:induction false} AnnounceAllPresent(
    local: PeerDescriptor, laneCount: nat, s: ManagerState, peers: seq<PeerDescriptor>, id: string)
    ensures var t := AnnounceAll(local, laneCount, s, peers).0;
            if id in PresentIds(local, peers) then
              id in t.links && t.links[id].membership == Present && id !in t.firstAbsentAt
            else
              && (id in t.links <==> id in s.links) && (id in s.links ==> t.links[id] == s.links[id])
              && (id in t.firstAbsentAt <==> id in s.firstAbsentAt)
              && (id in s.firstAbsentAt ==> t.firstAbsentAt[id] == s.firstAbsentAt[id])
    ensures AnnounceAll(local, laneCount, s, peers).0.retired == s.retired
  {
    hide WellFormed, Changed, BuildLane, LexLe;
    if peers != [] {
      var before, last := peers[..|peers| - 1], peers[|peers| - 1];
      AnnounceAllPresent(local, laneCount, s, before, id);
      assert peers == before + [last];
      assert PresentIds(local, peers) ==
             PresentIds(local, before) + if last.peerId == local.peerId then {} else {last.peerId};
    }
  }

  // Announcing starts the retry counter of a new link at zero and keeps that of an old one.
  lemma {:induction false} AnnounceAllKeepsRetries(
    local: PeerDescriptor, laneCount: nat, s: ManagerState, peers: seq<PeerDescriptor>, id: string)
    ensures var t := AnnounceAll(local, laneCount, s, peers).0;
            && (id in s.links ==> id in t.links)
            && (id in t.links ==>
                  t.links[id].retryFailures == if id in s.links then s.links[id].retryFailures else 0)
  {
    hide WellFormed, Changed, BuildLane, LexLe;
    if peers != [] { AnnounceAllKeepsRetries(local, laneCount, s, peers[..|peers| - 1], id); }
  }

  lemma {:induction false} NewlyRetiredDistinct(
    s: ManagerState, ids: seq<string>, present: set<string>, now: nat, paths: Paths)
    requires Distinct(ids)
    ensures Distinct(NewlyRetired(s, ids, present, now, paths))
  {
    hide Expired;
    if ids != [] {
      var before, last := ids[..|ids| - 1], ids[|ids| - 1];
      NewlyRetiredDistinct(s, before, present, now, paths);
      assert last !in before;
      assert last !in NewlyRetired(s, before, present, now, paths);
    }
  }

  /** Every retired link is waiting to be offered to the upper authority. */
  ghost predicate RetiredQueued(s: ManagerState)
  {
    forall id :: id in s.links && s.links[id].membership == Retired ==> id in s.retired
  }

  lemma SweepQueue(s: ManagerState, present: set<string>, now: nat, paths: Paths)
    requires Distinct(s.retired) && forall id :: id in s.retired ==> id in s.links
    ensures var t := Sweep(s, present, now, paths);
            && Distinct(t.retired) && (forall id :: id in t.retired ==> id in t.links)
            && forall id :: id in s.links && id !in present && Expired(s, id, now, paths) ==> id in t.retired
  {
    hide Expired, SortedIds, SweptAbsences;
    var ids := SortedIds(s.links.Keys);
    var added := NewlyRetired(s, ids, present, now, paths);
    NewlyRetiredDistinct(s, ids, present, now, paths);
    var all := s.retired + added;
    forall i, j | 0 <= i < j < |all| ensures all[i] != all[j] {
      if i < |s.retired| <= j { assert all[j] in added && all[i] in s.retired; }
    }
  }

  // What one sweep makes of one Peer.
  lemma SweepAt(s: ManagerState, present: set<string>, now: nat, paths: Paths, id: string)
    ensures var t := Sweep(s, present, now, paths);
            && (id in t.links <==> id in s.links)
            && (id in s.links && id in present ==> t.links[id] == s.links[id])
            && (id in s.links && id !in present ==>
                  t.links[id] ==
                    s.links[id].(membership := if Expired(s, id, now, paths) then Retired else SuspectMissing))
            && (id in t.firstAbsentAt <==> id in s.firstAbsentAt || (id in s.links && id !in present))
            && (id in t.firstAbsentAt ==> t.firstAbsentAt[id] == AbsentSince(s, id, now))
  {
    hide Expired, SortedIds, NewlyRetired;
  }

  lemma SweepOk(local: PeerDescriptor, laneCount: nat, s: ManagerState, present: set<string>, now: nat, paths: Paths)
    requires ManagerOk(local, laneCount, s)
    requires forall id :: id in s.links && id in present ==> s.links[id].membership == Present
    ensures ManagerOk(local, laneCount, Sweep(s, present, now, paths))
    ensures RetiredQueued(Sweep(s, present, now, paths))
  {
    hide Expired, LinkOk, WellFormed, Distinct, Sweep;
    SweepQueue(s, present, now, paths);
    var t := Sweep(s, present, now, paths);
    forall id
      ensures id in t.links ==> LinkOk(local, laneCount, id, t.links[id])
      ensures id in t.firstAbsentAt <==> id in t.links && t.links[id].membership != Present
      ensures id in t.links && t.links[id].membership == Retired ==> id in t.retired
    {
      SweepAt(s, present, now, paths, id);
      if id in t.links {
        KeepsLinkOk(local, laneCount, id, s.links[id], t.links[id].membership);
      }
    }
  }

  lemma KeepsLinkOk(local: PeerDescriptor, laneCount: nat, id: string, link: LinkView, membership: Membership)
    requires LinkOk(local, laneCount, id, link)
    ensures LinkOk(local, laneCount, id, link.(membership := membership))
  {
  }

  // After every snapshot the invariant holds and each retired link is in the queue, also one whose
  // earlier retirement was taken and rejected.
  lemma SnapshotOk(
    local: PeerDescriptor, laneCount: nat, s: ManagerState, peers: seq<PeerDescriptor>, now: nat, paths: Paths)
    requires ManagerOk(local, laneCount, s)
    ensures var t := ApplySnapshot(local, laneCount, s, peers, now, paths).0;
            ManagerOk(local, laneCount, t) && RetiredQueued(t)
  {
    hide LinkOk, WellFormed;
    AnnounceAllOk(local, laneCount, s, peers);
    var announced := AnnounceAll(local, laneCount, s, peers).0;
    forall id | id in announced.links && id in PresentIds(local, peers)
      ensures announced.links[id].membership == Present {
      AnnounceAllPresent(local, laneCount, s, peers, id);
    }
    SweepOk(local, laneCount, announced, PresentIds(local, peers), now, paths);
  }

  // What a snapshot leaves in the queue: whoever was there before and every link that is now Retired.
  lemma OfferedExactly(
    local: PeerDescriptor, laneCount: nat, s: ManagerState, peers: seq<PeerDescriptor>, now: nat, paths: Paths)
    requires ManagerOk(local, laneCount, s)
    ensures var t := ApplySnapshot(local, laneCount, s, peers, now, paths).0;
            forall id :: id in t.retired <==> id in s.retired || (id in t.links && t.links[id].membership == Retired)
  {
    hide LinkOk, WellFormed, Expired, AnnounceAll, PresentIds, SortedIds, LexLe, Distinct;
    SnapshotOk(local, laneCount, s, peers, now, paths);
    var announced, present := AnnounceAll(local, laneCount, s, peers).0, PresentIds(local, peers);
    var t := Sweep(announced, present, now, paths);
    forall id ensures id in t.retired <==> id in s.retired || (id in t.links && t.links[id].membership == Retired) {
      AnnounceAllPresent(local, laneCount, s, peers, id);
      SweepAt(announced, present, now, paths, id);
    }
  }

  // A caller that empties the queue after each snapshot is therefore offered exactly the Retired links.
  lemma TakenAreRetired(
    local: PeerDescriptor, laneCount: nat, s: ManagerState, peers: seq<PeerDescriptor>, now: nat, paths: Paths)
    requires ManagerOk(local, laneCount, s)
    ensures var t := ApplySnapshot(local, laneCount, s, peers, now, paths).0;
            (forall id :: id in t.retired <==> id in t.links && t.links[id].membership == Retired) <==>
            forall id :: id in s.retired ==>
              && (forall peer :: peer in peers ==> peer.peerId != id)
              && id in s.firstAbsentAt && now >= s.firstAbsentAt[id] + 120_000_000_000
              && !paths(id).healthyDirect && !paths(id).usableExactRelay
  {
    hide LinkOk, WellFormed, Expired, AnnounceAll, PresentIds, Sweep, Distinct;
    OfferedExactly(local, laneCount, s, peers, now, paths);
    var announced, present := AnnounceAll(local, laneCount, s, peers).0, PresentIds(local, peers);
    var t := Sweep(announced, present, now, paths);
    forall id | id in s.retired
      ensures (id in t.links && t.links[id].membership == Retired) <==> id !in present && Expired(s, id, now, paths)
    {
      AnnounceAllPresent(local, laneCount, s, peers, id);
      SweepAt(announced, present, now, paths, id);
      if id !in present {
        SameExpiry(s, announced, id, now, paths);
      }
    }
    assert forall id :: id in s.retired ==> id in t.retired;
    forall id | id in s.retired
      ensures id !in present && Expired(s, id, now, paths) <==>
              && (forall peer :: peer in peers ==> peer.peerId != id)
              && id in s.firstAbsentAt && now >= s.firstAbsentAt[id] + 120_000_000_000
              && !paths(id).healthyDirect && !paths(id).usableExactRelay
    {
      ExpiredExactly(s, id, now, paths);
      PresentExactly(local, peers, id);
      assert LinkOk(local, laneCount, id, s.links[id]);
      assert id != local.peerId by { LinkedIsOther(local, laneCount, id, s.links[id]); }
    }
  }

  lemma LinkedIsOther(local: PeerDescriptor, laneCount: nat, id: string, link: LinkView)
    requires LinkOk(local, laneCount, id, link)
    ensures id != local.peerId
  {
  }

  // The grace period is 120 s, and either kind of path stops it from running out.
  lemma ExpiredExactly(s: ManagerState, id: string, now: nat, paths: Paths)
    ensures Expired(s, id, now, paths) <==>
            && id in s.firstAbsentAt && now >= s.firstAbsentAt[id] + 120_000_000_000
            && !paths(id).healthyDirect && !paths(id).usableExactRelay
  {
  }

  lemma PresentExactly(local: PeerDescriptor, peers: seq<PeerDescriptor>, id: string)
    ensures id in PresentIds(local, peers) <==>
            id != local.peerId && exists peer :: peer in peers && peer.peerId == id
  {
  }

  lemma SameExpiry(s: ManagerState, t: ManagerState, id: string, now: nat, paths: Paths)
    requires id in s.firstAbsentAt <==> id in t.firstAbsentAt
    requires id in s.firstAbsentAt ==> s.firstAbsentAt[id] == t.firstAbsentAt[id]
    ensures Expired(s, id, now, paths) == Expired(t, id, now, paths)
  {
  }

  lemma ConfirmOk(local: PeerDescriptor, laneCount: nat, s: ManagerState, id: string)
    requires ManagerOk(local, laneCount, s)
    ensures ManagerOk(local, laneCount, Confirm(s, id))
  {
    hide LinkOk;
    WithoutKeepsDistinct(s.retired, id);
  }

  lemma RetryFailedOk(local: PeerDescriptor, laneCount: nat, s: ManagerState, id: string)
    requires ManagerOk(local, laneCount, s)
    ensures ManagerOk(local, laneCount, RetryFailed(s, id))
  {
  }

  // ---- The manager ----

  function SetOf(ids: seq<string>): (r: set<string>)
  {
    set id | id in ids
  }

  lemma AllVisited(ids: seq<string>, all: set<string>)
    requires forall id :: id in ids <==> id in all
    ensures SetOf(ids[..0]) == {} && SetOf(ids) == all
  {
  }

  lemma OneMoreVisited(ids: seq<string>, i: nat)
    requires i < |ids| && Distinct(ids)
    ensures SetOf(ids[..i + 1]) == SetOf(ids[..i]) + {ids[i]} && ids[i] !in SetOf(ids[..i])
    ensures ids[..i + 1][..i] == ids[..i]
  {
  }

  lemma OneMoreRetired(s: ManagerState, ids: seq<string>, i: nat, present: set<string>, now: nat, paths: Paths)
    requires i < |ids|
    ensures var before := NewlyRetired(s, ids[..i], present, now, paths);
            NewlyRetired(s, ids[..i + 1], present, now, paths) ==
            if ids[i] !in present && Expired(s, ids[i], now, paths) && ids[i] !in s.retired then
            before + [ids[i]] else before
  {
    hide Expired;
    assert ids[..i + 1][..i] == ids[..i];
  }

  lemma NoneRetired(s: ManagerState, ids: seq<string>, present: set<string>, now: nat, paths: Paths)
    ensures NewlyRetired(s, ids[..0], present, now, paths) == []
  {
  }

  lemma SweepStart(s: ManagerState, present: set<string>, now: nat, paths: Paths)
    ensures SweptLinks(s, {}, present, now, paths) == s.links && SweptAbsences(s, {}, present, now) == s.firstAbsentAt
  {
  }

  // Visiting one more absent link changes that link alone.
  lemma SweepStep(s: ManagerState, visited: set<string>, id: string, present: set<string>, now: nat, paths: Paths)
    requires id in s.links
    ensures SweptLinks(s, visited + {id}, present, now, paths) ==
            if id in present then SweptLinks(s, visited, present, now, paths)
            else SweptLinks(s, visited, present, now, paths)
                   [id := s.links[id].(membership := if Expired(s, id, now, paths) then Retired else SuspectMissing)]
    ensures SweptAbsences(s, visited + {id}, present, now) ==
            if id in present then SweptAbsences(s, visited, present, now)
            else SweptAbsences(s, visited, present, now)[id := AbsentSince(s, id, now)]
  {
    hide Expired;
  }

  // A link not visited yet is as it was.
  lemma SweepUnvisited(s: ManagerState, visited: set<string>, id: string, present: set<string>, now: nat, paths: Paths)
    requires id in s.links && id !in visited
    ensures var links := SweptLinks(s, visited, present, now, paths); id in links && links[id] == s.links[id]
    ensures var absences := SweptAbsences(s, visited, present, now);
            && (id in absences <==> id in s.firstAbsentAt)
            && (id in absences ==> absences[id] == s.firstAbsentAt[id])
  {
  }

  datatype ManagerError = ZeroReplicaCount

  class PeerLinkManager {
    const localPeer: PeerDescriptor
    const laneCount: nat
    var links: map<string, LinkView>
    var firstAbsentAt: map<string, nat>
    var retiredPeers: seq<string>

    ghost function State(): (s: ManagerState)
      reads this
    {
      ManagerState(links, firstAbsentAt, retiredPeers)
    }

    ghost predicate Valid()
      reads this
    {
      ManagerOk(localPeer, laneCount, State())
    }

    constructor (localPeer: PeerDescriptor, laneCount: nat)
      ensures this.localPeer == localPeer && this.laneCount == laneCount
      ensures Valid() && State() == EMPTY
    {
      this.localPeer, this.laneCount := localPeer, laneCount;
      links, firstAbsentAt, retiredPeers := map[], map[], [];
    }

    static method New(localPeer: PeerDescriptor, laneCount: nat) returns (r: Result<PeerLinkManager, ManagerError>)
      ensures r.Ok? <==> laneCount > 0
      ensures r.Ok? ==> fresh(r.value) && r.value.Valid() && r.value.State() == EMPTY &&
                        r.value.localPeer == localPeer && r.value.laneCount == laneCount
    {
      if laneCount == 0 {
        return Err(ZeroReplicaCount);
      }
      var manager := new PeerLinkManager(localPeer, laneCount);
      r := Ok(manager);
    }

    method ApplySnapshotAt(peers: seq<PeerDescriptor>, now: nat, paths: Paths) returns (commands: seq<Lane>)
      requires Valid()
      modifies this
      ensures (State(), commands) == ApplySnapshot(localPeer, laneCount, old(State()), peers, now, paths)
      ensures Valid() && RetiredQueued(State())
    {
      hide WellFormed, BuildLink, Changed, Sweep, ManagerOk, RetiredQueued, PresentIds;
      commands := [];
      for i := 0 to |peers|
        invariant (State(), commands) == AnnounceAll(localPeer, laneCount, old(State()), peers[..i])
      {
        var peer := peers[i];
        assert peers[..i + 1][..i] == peers[..i];
        var more := AnnouncePeer(peer);
        commands := commands + more;
      }
      assert peers[..|peers|] == peers;
      RetireAbsent(PresentIds(localPeer, peers), now, paths);
      SnapshotOk(localPeer, laneCount, old(State()), peers, now, paths);
    }

    method AnnouncePeer(peer: PeerDescriptor) returns (commands: seq<Lane>)
      modifies this
      ensures (State(), commands) == Announce(localPeer, laneCount, old(State()), peer)
    {
      hide WellFormed;
      commands := [];
      if peer.peerId == localPeer.peerId {
        return;
      }
      var desired := BuildLink(localPeer, peer, laneCount);
      if peer.peerId in links {
        var link := links[peer.peerId];
        for i := 0 to |desired.lanes|
          invariant commands == Changed(link.lanes, desired.lanes[..i])
        {
          var lane := desired.lanes[i];
          assert desired.lanes[..i + 1][..i] == desired.lanes[..i];
          if !(lane.index < |link.lanes| && link.lanes[lane.index] == lane) {
            commands := commands + [lane];
          }
        }
        assert desired.lanes[..|desired.lanes|] == desired.lanes;
        links := links[peer.peerId := link.(lanes := desired.lanes, membership := Present)];
      } else {
        commands := desired.lanes;
        links := links[peer.peerId := desired];
      }
      firstAbsentAt := firstAbsentAt - {peer.peerId};
    }

    method RetireAbsent(present: set<string>, now: nat, paths: Paths)
      modifies this
      ensures State() == Sweep(old(State()), present, now, paths)
    {
      hide SweptLinks, SweptAbsences, SortedIds, LexLe, Expired, AbsentSince, SetOf, NewlyRetired, Distinct;
      ghost var start := State();
      var ids := SortedIds(links.Keys);
      var retired: seq<string> := [];
      SweepStart(start, present, now, paths);
      AllVisited(ids, start.links.Keys);
      assert NewlyRetired(start, ids[..0], present, now, paths) == [] by
      { NoneRetired(start, ids, present, now, paths); }
      for i := 0 to |ids|
        invariant links == SweptLinks(start, SetOf(ids[..i]), present, now, paths)
        invariant firstAbsentAt == SweptAbsences(start, SetOf(ids[..i]), present, now)
        invariant retired == NewlyRetired(start, ids[..i], present, now, paths)
        invariant retiredPeers == start.retired
      {
        var id := ids[i];
        OneMoreVisited(ids, i);
        OneMoreRetired(start, ids, i, present, now, paths);
        SweepStep(start, SetOf(ids[..i]), id, present, now, paths);
        SweepUnvisited(start, SetOf(ids[..i]), id, present, now, paths);
        if id !in present {
          var expired := MissLink(start, id, now, paths);
          if expired && id !in retiredPeers {
            retired := retired + [id];
          }
        }
      }
      assert ids[..|ids|] == ids;
      retiredPeers := retiredPeers + retired;
    }

    method MissLink(ghost start: ManagerState, id: string, now: nat, paths: Paths) returns (expired: bool)
      requires id in links && (id in firstAbsentAt <==> id in start.firstAbsentAt)
      requires id in firstAbsentAt ==> firstAbsentAt[id] == start.firstAbsentAt[id]
      modifies `links, `firstAbsentAt
      ensures expired == Expired(start, id, now, paths)
      ensures links == old(links)[id := old(links)[id].(membership := if expired then Retired else SuspectMissing)]
      ensures firstAbsentAt == old(firstAbsentAt)[id := AbsentSince(start, id, now)]
    {
      if id !in firstAbsentAt {
        firstAbsentAt := firstAbsentAt[id := now];
      }
      expired := now >= firstAbsentAt[id] + ABSENCE_GRACE && Unreachable(paths, id);
      links := links[id := links[id].(membership := if expired then Retired else SuspectMissing)];
    }

    method TakeRetiredPeers() returns (taken: seq<string>)
      requires Valid()
      modifies this
      ensures taken == old(retiredPeers) && State() == old(State()).(retired := [])
      ensures Valid()
    {
      taken := retiredPeers;
      retiredPeers := [];
    }

    method ConfirmRetiredPeer(id: string) returns (removed: bool)
      requires Valid()
      modifies this
      ensures State() == Confirm(old(State()), id)
      ensures removed == (id in old(links) && old(links)[id].membership == Retired)
      ensures Valid()
    {
      hide LinkOk;
      ConfirmOk(localPeer, laneCount, State(), id);
      if id !in links || links[id].membership != Retired {
        return false;
      }
      links, firstAbsentAt, retiredPeers := links - {id}, firstAbsentAt - {id}, Without(retiredPeers, id);
      removed := true;
    }

    method RecordRetryFailure(id: string) returns (known: bool)
      requires Valid()
      modifies this
      ensures State() == RetryFailed(old(State()), id)
      ensures known == (id in old(links))
      ensures Valid()
    {
      hide LinkOk;
      RetryFailedOk(localPeer, laneCount, State(), id);
      if id !in links {
        return false;
      }
      var failures := links[id].retryFailures;
      links := links[id := links[id].(retryFailures := if failures < RETRY_LIMIT then failures + 1 else failures)];
      known := true;
    }
  }

  // ---- Commands ----

  function Plan(local: PeerDescriptor, laneCount: nat, peer: PeerDescriptor): (lanes: seq<Lane>)
    ensures |lanes| == laneCount
    ensures forall i :: 0 <= i < laneCount ==>
              lanes[i].index == i && lanes[i].link == CanonicalKey(local.peerId, peer.peerId)
  {
    BuildLink(local, peer, laneCount).lanes
  }

  /** The lane is wanted for this Peer and is not what `s` already plans at its position. */
  predicate NewOrChanged(local: PeerDescriptor, laneCount: nat, s: ManagerState, peer: PeerDescriptor, lane: Lane)
  {
    var id := peer.peerId;
    && id != local.peerId && lane in Plan(local, laneCount, peer)
    && !(id in s.links && lane.index < |s.links[id].lanes| && s.links[id].lanes[lane.index] == lane)
  }

  ghost predicate DistinctPeers(peers: seq<PeerDescriptor>)
  {
    forall i, j :: 0 <= i < j < |peers| ==> peers[i].peerId != peers[j].peerId
  }

  lemma AnnounceCommands(local: PeerDescriptor, laneCount: nat, s: ManagerState, peer: PeerDescriptor)
    ensures var commands := Announce(local, laneCount, s, peer).1;
            && Distinct(commands)
            && forall lane :: lane in commands <==> NewOrChanged(local, laneCount, s, peer, lane)
  {
    hide WellFormed, BuildLane;
    var id, plan := peer.peerId, Plan(local, laneCount, peer);
    if id != local.peerId && id in s.links {
      ChangedDistinct(s.links[id].lanes, plan);
    }
  }

  lemma {:induction false} ChangedDistinct(current: seq<Lane>, desired: seq<Lane>)
    requires Distinct(desired)
    ensures Distinct(Changed(current, desired))
  {
    if desired != [] {
      var before, last := desired[..|desired| - 1], desired[|desired| - 1];
      ChangedDistinct(current, before);
      assert last !in before;
      assert last !in Changed(current, before);
    }
  }

  // The commands of a snapshot are exactly the new or changed lanes, each once.
  lemma {:induction false} CommandsExactly(
    local: PeerDescriptor, laneCount: nat, s: ManagerState, peers: seq<PeerDescriptor>)
    requires DistinctPeers(peers)
    ensures var commands := AnnounceAll(local, laneCount, s, peers).1;
            && Distinct(commands)
            && forall lane :: lane in commands <==>
                 exists peer :: peer in peers && NewOrChanged(local, laneCount, s, peer, lane)
  {
    hide WellFormed, Changed, Announce, NewOrChanged;
    if peers != [] {
      var before, last := peers[..|peers| - 1], peers[|peers| - 1];
      assert peers == before + [last];
      CommandsExactly(local, laneCount, s, before);
      var (t, commands) := AnnounceAll(local, laneCount, s, before);
      AnnounceCommands(local, laneCount, t, last);
      var more := Announce(local, laneCount, t, last).1;
      forall lane
        ensures NewOrChanged(local, laneCount, t, last, lane) <==> NewOrChanged(local, laneCount, s, last, lane) {
        SameLanesSameCommands(local, laneCount, s, before, last, lane);
      }
      forall lane | lane in commands && lane in more ensures false {
        var peer :| peer in before && NewOrChanged(local, laneCount, s, peer, lane);
        PlansDisjoint(local, laneCount, s, peer, last, lane);
      }
      assert Distinct(commands + more) by {
        forall i, j | 0 <= i < j < |commands + more| ensures (commands + more)[i] != (commands + more)[j] {
          if i < |commands| <= j { assert (commands + more)[j] in more; }
        }
      }
    }
  }

  lemma SameLanesSameCommands(
    local: PeerDescriptor, laneCount: nat, s: ManagerState, before: seq<PeerDescriptor>,
    peer: PeerDescriptor, lane: Lane)
    requires forall other :: other in before ==> other.peerId != peer.peerId
    ensures var t := AnnounceAll(local, laneCount, s, before).0;
            NewOrChanged(local, laneCount, t, peer, lane) <==> NewOrChanged(local, laneCount, s, peer, lane)
  {
    hide WellFormed, Plan, AnnounceAll;
    AnnounceAllPresent(local, laneCount, s, before, peer.peerId);
    assert peer.peerId !in PresentIds(local, before);
  }

  lemma PlansDisjoint(
    local: PeerDescriptor, laneCount: nat, s: ManagerState, a: PeerDescriptor, b: PeerDescriptor, lane: Lane)
    requires a.peerId != b.peerId && NewOrChanged(local, laneCount, s, a, lane)
    ensures !NewOrChanged(local, laneCount, s, b, lane)
  {
    hide WellFormed, Plan, LexLe;
  }

  // ---- Applying a snapshot again ----

  predicate Planned(local: PeerDescriptor, laneCount: nat, s: ManagerState, peer: PeerDescriptor)
  {
    peer.peerId == local.peerId ||
    (peer.peerId in s.links && s.links[peer.peerId].lanes == Plan(local, laneCount, peer))
  }

  lemma ChangedNothing(current: seq<Lane>, desired: seq<Lane>)
    requires |current| == |desired| && forall i :: 0 <= i < |desired| ==> desired[i].index == i
    ensures Changed(current, desired) == [] <==> current == desired
  {
    if Changed(current, desired) == [] {
      forall i | 0 <= i < |desired| ensures current[i] == desired[i] {
        assert desired[i] in desired && desired[i] !in Changed(current, desired);
      }
    } else {
      var lane := Changed(current, desired)[0];
      assert lane in Changed(current, desired);
    }
  }

  // Once every listed Peer is linked, no commands means that all plans already stand.
  lemma {:induction false} NoCommandsExactly(
    local: PeerDescriptor, laneCount: nat, s: ManagerState, peers: seq<PeerDescriptor>)
    requires forall id :: id in s.links ==> |s.links[id].lanes| == laneCount
    requires forall id :: id in PresentIds(local, peers) ==> id in s.links
    ensures AnnounceAll(local, laneCount, s, peers).1 == [] <==>
            forall peer :: peer in peers ==> Planned(local, laneCount, s, peer)
    ensures AnnounceAll(local, laneCount, s, peers).1 == [] ==>
              forall id :: id in s.links ==>
                id in AnnounceAll(local, laneCount, s, peers).0.links &&
                AnnounceAll(local, laneCount, s, peers).0.links[id].lanes == s.links[id].lanes
  {
    hide WellFormed, Changed, BuildLink;
    if peers != [] {
      var before, last := peers[..|peers| - 1], peers[|peers| - 1];
      assert peers == before + [last];
      assert last in peers && forall peer :: peer in before ==> peer in peers;
      assert PresentIds(local, before) <= PresentIds(local, peers);
      NoCommandsExactly(local, laneCount, s, before);
      var (t, commands) := AnnounceAll(local, laneCount, s, before);
      if commands == [] && last.peerId != local.peerId {
        assert last.peerId in PresentIds(local, peers);
        ChangedNothing(t.links[last.peerId].lanes, Plan(local, laneCount, last));
      }
    }
  }

  /** The link runs the lanes that some descriptor listed for this Peer plans. */
  ghost predicate Follows(
    local: PeerDescriptor, laneCount: nat, t: ManagerState, peers: seq<PeerDescriptor>, id: string)
  {
    && id in t.links
    && exists peer :: peer in peers && peer.peerId == id && t.links[id].lanes == Plan(local, laneCount, peer)
  }

  // Of the descriptors a snapshot lists for one Peer, the last one decides.
  lemma {:induction false} LastDescriptorWins(
    local: PeerDescriptor, laneCount: nat, s: ManagerState, peers: seq<PeerDescriptor>, k: nat)
    requires k < |peers| && peers[k].peerId != local.peerId
    requires forall j :: k < j < |peers| ==> peers[j].peerId != peers[k].peerId
    ensures var t := AnnounceAll(local, laneCount, s, peers).0;
            peers[k].peerId in t.links && t.links[peers[k].peerId].lanes == Plan(local, laneCount, peers[k])
  {
    hide WellFormed, Changed, BuildLane;
    if k < |peers| - 1 {
      LastDescriptorWins(local, laneCount, s, peers[..|peers| - 1], k);
    }
  }

  lemma {:induction false} LastListing(peers: seq<PeerDescriptor>, id: string) returns (k: nat)
    requires exists peer :: peer in peers && peer.peerId == id
    ensures k < |peers| && peers[k].peerId == id && forall j :: k < j < |peers| ==> peers[j].peerId != id
  {
    k := |peers| - 1;
    if peers[k].peerId != id {
      assert peers == peers[..k] + [peers[k]];
      k := LastListing(peers[..k], id);
    }
  }

  lemma FollowsADescriptor(
    local: PeerDescriptor, laneCount: nat, s: ManagerState, peers: seq<PeerDescriptor>, id: string)
    requires id in PresentIds(local, peers)
    ensures var t := AnnounceAll(local, laneCount, s, peers).0;
            Follows(local, laneCount, t, peers, id)
  {
    hide WellFormed, AnnounceAll;
    var k := LastListing(peers, id);
    LastDescriptorWins(local, laneCount, s, peers, k);
  }

  /** All descriptors that the snapshot lists for one Peer plan the same lanes. */
  ghost predicate PlansAgree(local: PeerDescriptor, laneCount: nat, peers: seq<PeerDescriptor>)
  {
    forall a, b :: a in peers && b in peers && a.peerId == b.peerId != local.peerId ==>
                     Plan(local, laneCount, a) == Plan(local, laneCount, b)
  }

  // Applying a snapshot a second time, at any later moment, issues no command exactly when the
  // snapshot does not contradict itself.
  lemma SecondSnapshotQuiet(
    local: PeerDescriptor, laneCount: nat, s: ManagerState, peers: seq<PeerDescriptor>, now: nat, paths: Paths,
    later: nat, laterPaths: Paths)
    requires ManagerOk(local, laneCount, s)
    ensures var t := ApplySnapshot(local, laneCount, s, peers, now, paths).0;
            ApplySnapshot(local, laneCount, t, peers, later, laterPaths).1 == [] <==>
            PlansAgree(local, laneCount, peers)
  {
    hide WellFormed, AnnounceAll, Sweep, LinkOk, Plan, Expired, PresentIds;
    var announced := AnnounceAll(local, laneCount, s, peers).0;
    var present := PresentIds(local, peers);
    var t := Sweep(announced, present, now, paths);
    SnapshotOk(local, laneCount, s, peers, now, paths);
    assert LanesComplete(laneCount, t) by { LanesAreComplete(local, laneCount, t); }
    forall id | id in present
      ensures Follows(local, laneCount, t, peers, id)
    {
      FollowsADescriptor(local, laneCount, s, peers, id);
      SweepAt(announced, present, now, paths, id);
    }
    NoCommandsExactly(local, laneCount, t, peers);
    PlannedMeansAgree(local, laneCount, t, peers);
  }

  ghost predicate LanesComplete(laneCount: nat, s: ManagerState)
  {
    forall id :: id in s.links ==> |s.links[id].lanes| == laneCount
  }

  lemma LanesAreComplete(local: PeerDescriptor, laneCount: nat, s: ManagerState)
    requires ManagerOk(local, laneCount, s)
    ensures LanesComplete(laneCount, s)
  {
  }

  lemma PlannedMeansAgree(local: PeerDescriptor, laneCount: nat, t: ManagerState, peers: seq<PeerDescriptor>)
    requires forall id :: id in PresentIds(local, peers) ==>
                            Follows(local, laneCount, t, peers, id)
    ensures (forall peer :: peer in peers ==> Planned(local, laneCount, t, peer)) <==>
            PlansAgree(local, laneCount, peers)
  {
    hide WellFormed, Plan;
    if PlansAgree(local, laneCount, peers) {
      forall peer | peer in peers ensures Planned(local, laneCount, t, peer) {
        if peer.peerId != local.peerId {
          assert peer.peerId in PresentIds(local, peers);
        }
      }
    }
  }
}
