/**
Whole runs of the PeerLink manager: what the sequence of snapshots says about each link, and that
the manager's state says the same.
*/
module LinkHistory {
  import opened LinkPlan
  import opened LinkManager

  datatype Event =
    | Snapshot(peers: seq<PeerDescriptor>, now: nat, paths: Paths)
    | Take
    | ConfirmRetired(id: string)
    | RetryFailure(id: string)

  function Step(local: PeerDescriptor, laneCount: nat, s: ManagerState, e: Event): (r: ManagerState)
  {
    match e
    case Snapshot(peers, now, paths) => ApplySnapshot(local, laneCount, s, peers, now, paths).0
    case Take => s.(retired := [])
    case ConfirmRetired(id) => Confirm(s, id)
    case RetryFailure(id) => RetryFailed(s, id)
  }

  function After(local: PeerDescriptor, laneCount: nat, log: seq<Event>): (r: ManagerState)
  {
    if log == [] then EMPTY else Step(local, laneCount, After(local, laneCount, log[..|log| - 1]), log[|log| - 1])
  }

  lemma {:induction false} AlwaysOk(local: PeerDescriptor, laneCount: nat, log: seq<Event>)
    ensures ManagerOk(local, laneCount, After(local, laneCount, log))
    ensures log != [] && log[|log| - 1].Snapshot? ==> RetiredQueued(After(local, laneCount, log))
  {
    hide ManagerOk, ApplySnapshot, Confirm, RetryFailed, RetiredQueued;
    if log == [] {
      EmptyOk(local, laneCount);
    } else {
      var before := After(local, laneCount, log[..|log| - 1]);
      AlwaysOk(local, laneCount, log[..|log| - 1]);
      match log[|log| - 1]
      case Snapshot(peers, now, paths) => SnapshotOk(local, laneCount, before, peers, now, paths);
      case Take => TakeOk(local, laneCount, before);
      case ConfirmRetired(id) => ConfirmOk(local, laneCount, before, id);
      case RetryFailure(id) => RetryFailedOk(local, laneCount, before, id);
    }
  }

  lemma EmptyOk(local: PeerDescriptor, laneCount: nat)
    ensures ManagerOk(local, laneCount, EMPTY)
  {
  }

  lemma TakeOk(local: PeerDescriptor, laneCount: nat, s: ManagerState)
    requires ManagerOk(local, laneCount, s)
    ensures ManagerOk(local, laneCount, s.(retired := []))
  {
    hide LinkOk;
  }

  // ---- What a run says about one Peer ----

  predicate Lists(local: PeerDescriptor, e: Event, id: string)
  {
    e.Snapshot? && id != local.peerId && exists peer :: peer in e.peers && peer.peerId == id
  }

  /**
  `seen` is the last snapshot that lists the Peer and `last` the last snapshot of all. When they
  differ, `miss` is the first snapshot after `seen`.
  */
  ghost predicate Timeline(local: PeerDescriptor, log: seq<Event>, id: string, seen: nat, miss: nat, last: nat)
  {
    && seen <= last < |log|
    && Lists(local, log[seen], id) && (forall k :: seen < k < |log| ==> !Lists(local, log[k], id))
    && log[last].Snapshot? && (forall k :: last < k < |log| ==> !log[k].Snapshot?)
    && (seen < last ==>
          seen < miss <= last && log[miss].Snapshot? && forall k :: seen < k < miss ==> !log[k].Snapshot?)
  }

  /** The Peer has been absent for 120 s, measured by snapshot times, and had no path of either kind at the last one. */
  predicate GraceOver(log: seq<Event>, id: string, miss: nat, last: nat)
    requires miss < |log| && last < |log| && log[miss].Snapshot? && log[last].Snapshot?
  {
    && log[last].now >= log[miss].now + 120_000_000_000
    && !log[last].paths(id).healthyDirect && !log[last].paths(id).usableExactRelay
  }

  ghost predicate FollowsTimeline(s: ManagerState, log: seq<Event>, id: string, seen: nat, miss: nat, last: nat)
    requires id in s.links
    requires seen <= last &&
             (seen < last ==> miss < |log| && last < |log| && log[miss].Snapshot? && log[last].Snapshot?)
  {
    if seen == last then
      s.links[id].membership == Present && id !in s.firstAbsentAt
    else
      && s.links[id].membership == (if GraceOver(log, id, miss, last) then Retired else SuspectMissing)
      && id in s.firstAbsentAt && s.firstAbsentAt[id] == log[miss].now
  }

  // Retirement over every run: a link is Retired exactly when every snapshot since its first absence
  // missed it, that absence is at least the grace period older than the last snapshot, and no path was usable then.
  lemma {:induction false} MembershipIsHistory(local: PeerDescriptor, laneCount: nat, log: seq<Event>, id: string)
    returns (seen: nat, miss: nat, last: nat)
    requires id in After(local, laneCount, log).links
    ensures Timeline(local, log, id, seen, miss, last)
    ensures FollowsTimeline(After(local, laneCount, log), log, id, seen, miss, last)
  {
    hide ManagerOk, ApplySnapshot, PresentIds, WellFormed;
    var n := |log| - 1;
    var before, e := log[..n], log[n];
    var s := After(local, laneCount, before);
    if Lists(local, e, id) {
      SnapshotLists(local, laneCount, s, e, id);
      seen, miss, last := n, n, n;
    } else if e.Snapshot? {
      SnapshotMisses(local, laneCount, s, e, id);
      seen, miss, last := MembershipIsHistory(local, laneCount, before, id);
      AlwaysOk(local, laneCount, before);
      if seen == last {
        miss := n;
      }
      last := n;
    } else {
      StepKeeps(local, laneCount, s, e, id);
      seen, miss, last := MembershipIsHistory(local, laneCount, before, id);
    }
  }

  lemma SnapshotLists(local: PeerDescriptor, laneCount: nat, s: ManagerState, e: Event, id: string)
    requires Lists(local, e, id)
    ensures var t := Step(local, laneCount, s, e);
            id in t.links && t.links[id].membership == Present && id !in t.firstAbsentAt
  {
    hide AnnounceAll, Sweep, PresentIds, WellFormed;
    PresentExactly(local, e.peers, id);
    AnnounceAllPresent(local, laneCount, s, e.peers, id);
    SweepAt(AnnounceAll(local, laneCount, s, e.peers).0, PresentIds(local, e.peers), e.now, e.paths, id);
  }

  lemma SnapshotMisses(local: PeerDescriptor, laneCount: nat, s: ManagerState, e: Event, id: string)
    requires e.Snapshot? && !Lists(local, e, id)
    ensures var t := Step(local, laneCount, s, e);
            && (id in t.links <==> id in s.links)
            && (id in s.links ==>
                  && t.links[id] == s.links[id].(
                       membership := if Expired(s, id, e.now, e.paths) then Retired else SuspectMissing)
                  && id in t.firstAbsentAt && t.firstAbsentAt[id] == AbsentSince(s, id, e.now))
  {
    hide AnnounceAll, Sweep, PresentIds, WellFormed;
    PresentExactly(local, e.peers, id);
    AnnounceAllPresent(local, laneCount, s, e.peers, id);
    SweepAt(AnnounceAll(local, laneCount, s, e.peers).0, PresentIds(local, e.peers), e.now, e.paths, id);
  }

  // The other events leave membership and absence times alone.
  lemma StepKeeps(local: PeerDescriptor, laneCount: nat, s: ManagerState, e: Event, id: string)
    requires !e.Snapshot? && id in Step(local, laneCount, s, e).links
    ensures var t := Step(local, laneCount, s, e);
            && id in s.links && t.links[id].membership == s.links[id].membership
            && (id in t.firstAbsentAt <==> id in s.firstAbsentAt)
            && (id in s.firstAbsentAt ==> t.firstAbsentAt[id] == s.firstAbsentAt[id])
  {
  }

  // ---- Lanes and retries ----

  // Over every run a link runs the plan of the last descriptor that the last listing gave for the Peer.
  lemma {:induction false} LanesAreHistory(
    local: PeerDescriptor, laneCount: nat, log: seq<Event>, id: string, seen: nat, k: nat)
    requires id in After(local, laneCount, log).links
    requires seen < |log| && Lists(local, log[seen], id)
    requires forall j :: seen < j < |log| ==> !Lists(local, log[j], id)
    requires k < |log[seen].peers| && log[seen].peers[k].peerId == id
    requires forall j :: k < j < |log[seen].peers| ==> log[seen].peers[j].peerId != id
    ensures After(local, laneCount, log).links[id].lanes == Plan(local, laneCount, log[seen].peers[k])
  {
    hide ApplySnapshot, PresentIds, WellFormed, Plan;
    var n := |log| - 1;
    var s := After(local, laneCount, log[..n]);
    if seen == n {
      SnapshotPlans(local, laneCount, s, log[n], k);
    } else {
      if log[n].Snapshot? { SnapshotMisses(local, laneCount, s, log[n], id); }
      LanesAreHistory(local, laneCount, log[..n], id, seen, k);
    }
  }

  lemma SnapshotPlans(local: PeerDescriptor, laneCount: nat, s: ManagerState, e: Event, k: nat)
    requires e.Snapshot? && k < |e.peers| && e.peers[k].peerId != local.peerId
    requires forall j :: k < j < |e.peers| ==> e.peers[j].peerId != e.peers[k].peerId
    ensures var t := Step(local, laneCount, s, e);
            e.peers[k].peerId in t.links && t.links[e.peers[k].peerId].lanes == Plan(local, laneCount, e.peers[k])
  {
    hide AnnounceAll, Sweep, PresentIds, WellFormed, Plan;
    LastDescriptorWins(local, laneCount, s, e.peers, k);
    SweepAt(AnnounceAll(local, laneCount, s, e.peers).0, PresentIds(local, e.peers), e.now, e.paths,
            e.peers[k].peerId);
  }

  /** The failures reported for a Peer since it was last linked anew. */
  function FailuresSinceLinked(local: PeerDescriptor, laneCount: nat, log: seq<Event>, id: string): (n: nat)
  {
    if log == [] || id !in After(local, laneCount, log[..|log| - 1]).links then 0 else
      FailuresSinceLinked(local, laneCount, log[..|log| - 1], id) +
      if log[|log| - 1] == RetryFailure(id) then 1 else 0
  }

  // The retry counter counts those failures and stops at the largest 32-bit number; being listed
  // again, suspected or retired does not reset it.
  lemma {:induction false} RetriesAreCounted(local: PeerDescriptor, laneCount: nat, log: seq<Event>, id: string)
    requires id in After(local, laneCount, log).links
    ensures var n := FailuresSinceLinked(local, laneCount, log, id);
            After(local, laneCount, log).links[id].retryFailures == if n <= 0xFFFF_FFFF then n else 0xFFFF_FFFF
  {
    hide ApplySnapshot, PresentIds, WellFormed;
    var before, e := log[..|log| - 1], log[|log| - 1];
    var s := After(local, laneCount, before);
    if id in s.links {
      RetriesAreCounted(local, laneCount, before, id);
    }
    if e.Snapshot? {
      SnapshotKeepsRetries(local, laneCount, s, e, id);
    }
  }

  lemma SnapshotKeepsRetries(local: PeerDescriptor, laneCount: nat, s: ManagerState, e: Event, id: string)
    requires e.Snapshot? && id in Step(local, laneCount, s, e).links
    ensures Step(local, laneCount, s, e).links[id].retryFailures ==
            if id in s.links then s.links[id].retryFailures else 0
  {
    hide AnnounceAll, Sweep, PresentIds, WellFormed;
    var announced := AnnounceAll(local, laneCount, s, e.peers).0;
    SweepAt(announced, PresentIds(local, e.peers), e.now, e.paths, id);
    AnnounceAllKeepsRetries(local, laneCount, s, e.peers, id);
  }

  // ---- Removal ----

  // A link disappears only when its retirement is confirmed while it is Retired.
  lemma OnlyConfirmRemoves(local: PeerDescriptor, laneCount: nat, log: seq<Event>, e: Event, id: string)
    ensures var s := After(local, laneCount, log);
            id in s.links && id !in After(local, laneCount, log + [e]).links <==>
            id in s.links && s.links[id].membership == Retired && e == ConfirmRetired(id)
  {
    hide ApplySnapshot, WellFormed;
    assert (log + [e])[..|log|] == log;
    var s := After(local, laneCount, log);
    if e.Snapshot? {
      if Lists(local, e, id) {
        SnapshotLists(local, laneCount, s, e, id);
      } else {
        SnapshotMisses(local, laneCount, s, e, id);
      }
    }
  }

  // A Peer that the most recent snapshot lists again cannot be removed.
  lemma ReappearedIsKept(local: PeerDescriptor, laneCount: nat, log: seq<Event>, id: string, last: nat)
    requires last < |log| && Lists(local, log[last], id) && forall k :: last < k < |log| ==> !log[k].Snapshot?
    ensures id in After(local, laneCount, log).links
    ensures After(local, laneCount, log + [ConfirmRetired(id)]) == After(local, laneCount, log)
  {
    hide ManagerOk, ApplySnapshot, PresentIds, WellFormed;
    assert (log + [ConfirmRetired(id)])[..|log|] == log;
    ListedStays(local, laneCount, log, id, last);
    var seen, miss, end := MembershipIsHistory(local, laneCount, log, id);
    assert seen == last == end;
  }

  lemma {:induction false} ListedStays(local: PeerDescriptor, laneCount: nat, log: seq<Event>, id: string, last: nat)
    requires last < |log| && Lists(local, log[last], id) && forall k :: last < k < |log| ==> !log[k].Snapshot?
    ensures var s := After(local, laneCount, log); id in s.links && s.links[id].membership == Present
  {
    hide ApplySnapshot, PresentIds, WellFormed;
    var n := |log| - 1;
    var s := After(local, laneCount, log[..n]);
    if last == n {
      SnapshotLists(local, laneCount, s, log[n], id);
    } else {
      ListedStays(local, laneCount, log[..n], id, last);
    }
  }

  // A retirement that was offered and not committed is offered again by the next snapshot.
  lemma RejectedIsOfferedAgain(local: PeerDescriptor, laneCount: nat, log: seq<Event>, e: Event, id: string, last: nat)
    requires id in After(local, laneCount, log).links && After(local, laneCount, log).links[id].membership == Retired
    requires last < |log| && log[last].Snapshot? && forall k :: last < k < |log| ==> !log[k].Snapshot?
    requires e.Snapshot? && !Lists(local, e, id) && e.now >= log[last].now
    requires !e.paths(id).healthyDirect && !e.paths(id).usableExactRelay
    ensures var s := After(local, laneCount, log + [e]);
            id in s.links && s.links[id].membership == Retired && id in s.retired
  {
    hide ManagerOk, ApplySnapshot, PresentIds, WellFormed;
    assert (log + [e])[..|log|] == log;
    var seen, miss, end := MembershipIsHistory(local, laneCount, log, id);
    assert end == last;
    SnapshotMisses(local, laneCount, After(local, laneCount, log), e, id);
    AlwaysOk(local, laneCount, log + [e]);
  }
}
