/**
Which lanes two Peers run between them (`peer_link_manager.rs`): descriptors, canonical link
keys, and the lane plan that each end computes on its own.
*/
module LinkPlan {
  import opened Basics
  import Replica

  datatype ReplicaDescriptor = ReplicaDescriptor(id: string, index: nat)

  datatype RawDescriptor = RawDescriptor(peerId: string, replicas: seq<ReplicaDescriptor>)

  function IndexOf(r: ReplicaDescriptor): int
  {
    r.index
  }

  predicate WellFormed(d: RawDescriptor)
  {
    d.replicas != [] && StrictlySortedBy(IndexOf, d.replicas)
  }

  /** What the `PeerDescriptor` constructors return: at least one Replica, sorted by a unique index. */
  type PeerDescriptor = d: RawDescriptor | WellFormed(d) witness RawDescriptor("", [ReplicaDescriptor("", 0)])

  datatype DescriptorError =
    EmptyReplicaSet | MixedPeerFamilies | InvalidReplicaId(id: string) | DuplicateReplicaIndex

  predicate Described(id: string, family: string)
  {
    Replica.FamilyId(id) == family && Replica.ReplicaIndex(id).Some?
  }

  /** `i` is the first identifier that does not fit the family of the first. */
  predicate FirstMisfit(ids: seq<string>, i: nat)
    requires i < |ids|
  {
    !Described(ids[i], Replica.FamilyId(ids[0])) &&
    forall k :: 0 <= k < i ==> Described(ids[k], Replica.FamilyId(ids[0]))
  }

  /** Which error is reported: the first misfit decides, a foreign family before a bad index, and
      duplicates come last. */
  ghost predicate FailsWith(ids: seq<string>, e: DescriptorError)
  {
    match e
    case EmptyReplicaSet => ids == []
    case MixedPeerFamilies =>
      exists i :: 0 <= i < |ids| && FirstMisfit(ids, i) && Replica.FamilyId(ids[i]) != Replica.FamilyId(ids[0])
    case InvalidReplicaId(id) =>
      exists i :: 0 <= i < |ids| && FirstMisfit(ids, i) && ids[i] == id &&
                  Replica.FamilyId(id) == Replica.FamilyId(ids[0])
    case DuplicateReplicaIndex =>
      && ids != [] && (forall id :: id in ids ==> Described(id, Replica.FamilyId(ids[0])))
      && exists i, j :: 0 <= i < j < |ids| && Descriptor(ids[i]).index == Descriptor(ids[j]).index
  }

  // A descriptor exists exactly for a non-empty set of Replicas of one family with distinct
  // indexes, and lists each of them once.
  method FromReplicaIds(ids: seq<string>) returns (r: Result<PeerDescriptor, DescriptorError>)
    ensures r.Ok? ==>
              && ids != [] && r.value.peerId == Replica.FamilyId(ids[0])
              && (forall id :: id in ids ==> Described(id, r.value.peerId))
              && multiset(r.value.replicas) == multiset(seq(|ids|, i requires 0 <= i < |ids| => Descriptor(ids[i])))
    ensures r.Ok? <== ids != [] && (forall id :: id in ids ==> Described(id, Replica.FamilyId(ids[0]))) &&
                      (forall i, j :: 0 <= i < j < |ids| ==> Descriptor(ids[i]).index != Descriptor(ids[j]).index)
    ensures r.Err? ==> FailsWith(ids, r.error)
  {
    hide Replica.FamilyId, Replica.ReplicaIndex, FirstMisfit, Descriptor, SortBy, SortedBy, StrictlySortedBy;
    if ids == [] {
      return Err(EmptyReplicaSet);
    }
    var read := ReadReplicas(ids);
    if read.Err? {
      return Err(read.error);
    }
    var replicas := read.value;
    var sorted := SortBy(IndexOf, replicas);
    SharedIndex(ids, replicas, sorted);
    if exists i :: 0 <= i < |sorted| - 1 && sorted[i].index == sorted[i + 1].index {
      return Err(DuplicateReplicaIndex);
    }
    r := Ok(RawDescriptor(Replica.FamilyId(ids[0]), sorted));
  }

  /** The descriptors of Replicas of one family, in the order given. */
  ghost predicate Reads(ids: seq<string>, replicas: seq<ReplicaDescriptor>)
  {
    && ids != [] && (forall id :: id in ids ==> Described(id, Replica.FamilyId(ids[0])))
    && replicas == seq(|ids|, i requires 0 <= i < |ids| => Descriptor(ids[i]))
  }

  method ReadReplicas(ids: seq<string>) returns (r: Result<seq<ReplicaDescriptor>, DescriptorError>)
    requires ids != []
    ensures r.Ok? ==> Reads(ids, r.value)
    ensures r.Err? ==> FailsWith(ids, r.error) && exists id :: id in ids && !Described(id, Replica.FamilyId(ids[0]))
  {
    hide Replica.FamilyId, Replica.ReplicaIndex;
    var family := Replica.FamilyId(ids[0]);
    var replicas: seq<ReplicaDescriptor> := [];
    for i := 0 to |ids|
      invariant |replicas| == i
      invariant forall k :: 0 <= k < i ==> Described(ids[k], family) && replicas[k] == Descriptor(ids[k])
    {
      if Replica.FamilyId(ids[i]) != family {
        assert ids[i] in ids && FirstMisfit(ids, i);
        return Err(MixedPeerFamilies);
      }
      var index := Replica.ReplicaIndex(ids[i]);
      if index.None? {
        assert ids[i] in ids && FirstMisfit(ids, i);
        return Err(InvalidReplicaId(ids[i]));
      }
      replicas := replicas + [ReplicaDescriptor(ids[i], index.value)];
    }
    r := Ok(replicas);
  }

  // Neighbours of the sorted list share an index exactly when two of the identifiers do.
  lemma SharedIndex(ids: seq<string>, replicas: seq<ReplicaDescriptor>, sorted: seq<ReplicaDescriptor>)
    requires replicas == seq(|ids|, i requires 0 <= i < |ids| => Descriptor(ids[i]))
    requires multiset(replicas) == multiset(sorted) && SortedBy(IndexOf, sorted)
    ensures StrictlySortedBy(IndexOf, sorted) <==>
            forall i :: 0 <= i < |sorted| - 1 ==> sorted[i].index != sorted[i + 1].index
    ensures StrictlySortedBy(IndexOf, sorted) <==>
            forall i, j :: 0 <= i < j < |ids| ==> Descriptor(ids[i]).index != Descriptor(ids[j]).index
  {
    hide Descriptor, SortedBy, StrictlySortedBy;
    NeighboursSuffice(IndexOf, sorted);
    if DistinctBy(IndexOf, replicas) { PermutationKeepsDistinct(IndexOf, replicas, sorted); }
    if DistinctBy(IndexOf, sorted) { PermutationKeepsDistinct(IndexOf, sorted, replicas); }
    assert DistinctBy(IndexOf, replicas) <==>
           forall i, j :: 0 <= i < j < |ids| ==> Descriptor(ids[i]).index != Descriptor(ids[j]).index by
    {
      forall i | 0 <= i < |ids| ensures IndexOf(replicas[i]) == Descriptor(ids[i]).index {}
    }
  }

  function Descriptor(id: string): (d: ReplicaDescriptor)
  {
    ReplicaDescriptor(id, match Replica.ReplicaIndex(id) case Some(index) => index case None => 0)
  }

  // ---- Links ----

  datatype LinkKey = LinkKey(first: string, second: string)

  datatype Role = Initiator | Acceptor

  datatype Membership = Present | SuspectMissing | Retired

  datatype Lane = Lane(link: LinkKey, index: nat, localReplica: string, remoteReplica: string, role: Role)

  datatype LinkView = LinkView(
    key: LinkKey, lanes: seq<Lane>, localIsInitiator: bool, membership: Membership, retryFailures: nat)

  function CanonicalKey(a: string, b: string): (k: LinkKey)
  {
    if LexLe(a, b) then LinkKey(a, b) else LinkKey(b, a)
  }

  /** The first Replica with the lane's own index, else one by position. */
  function ReplicaForLane(d: PeerDescriptor, lane: nat): (r: ReplicaDescriptor)
    ensures r in d.replicas
  {
    match FindIndex(d.replicas, lane)
    case Some(r) => r
    case None => d.replicas[Turn(lane, |d.replicas|)]
  }

  // A Replica that has the lane's own index serves it; a lane that no Replica has goes round by position.
  lemma LaneReplica(d: PeerDescriptor, lane: nat, i: nat)
    requires i < |d.replicas|
    ensures d.replicas[i].index == lane ==> ReplicaForLane(d, lane) == d.replicas[i]
    ensures (forall r :: r in d.replicas ==> r.index != lane) ==>
              ReplicaForLane(d, lane) == d.replicas[lane % |d.replicas|]
  {
    if d.replicas[i].index == lane {
      var found := FindIndex(d.replicas, lane);
      assert d.replicas[i] in d.replicas;
      var k :| 0 <= k < |d.replicas| && d.replicas[k] == found.value;
      assert IndexOf(d.replicas[k]) == IndexOf(d.replicas[i]);
    }
  }

  function Turn(n: nat, k: nat): (t: nat)
    requires k > 0
    ensures t < k
  {
    n % k
  }

  function FindIndex(replicas: seq<ReplicaDescriptor>, lane: nat): (r: Option<ReplicaDescriptor>)
    ensures r.Some? ==> r.value in replicas && r.value.index == lane
    ensures r.None? ==> forall x :: x in replicas ==> x.index != lane
  {
    if replicas == [] then None
    else if replicas[0].index == lane then Some(replicas[0])
    else FindIndex(replicas[1..], lane)
  }

  function BuildLane(local: PeerDescriptor, remote: PeerDescriptor, lane: nat): (r: Lane)
  {
    var key := CanonicalKey(local.peerId, remote.peerId);
    var localIsInitiator := key.first == local.peerId;
    var initiator := if localIsInitiator then local else remote;
    var acceptor := if localIsInitiator then remote else local;
    var i, a := ReplicaForLane(initiator, lane).id, ReplicaForLane(acceptor, lane).id;
    if localIsInitiator then Lane(key, lane, i, a, Initiator) else Lane(key, lane, a, i, Acceptor)
  }

  function BuildLink(local: PeerDescriptor, remote: PeerDescriptor, laneCount: nat): (v: LinkView)
    ensures |v.lanes| == laneCount
    ensures forall i :: 0 <= i < laneCount ==> v.lanes[i].index == i
  {
    var key := CanonicalKey(local.peerId, remote.peerId);
    LinkView(key, seq(laneCount, i requires 0 <= i < laneCount => BuildLane(local, remote, i)),
             key.first == local.peerId, Present, 0)
  }

  // The two ends, planning on their own, agree on everything but whose side is whose.
  lemma EndsMirror(x: PeerDescriptor, y: PeerDescriptor, laneCount: nat)
    requires x.peerId != y.peerId
    ensures var v, w := BuildLink(x, y, laneCount), BuildLink(y, x, laneCount);
            && v.key == w.key && {v.key.first, v.key.second} == {x.peerId, y.peerId}
            && v.localIsInitiator != w.localIsInitiator
            && forall i :: 0 <= i < laneCount ==>
                 && v.lanes[i].link == w.lanes[i].link == v.key && v.lanes[i].index == w.lanes[i].index == i
                 && v.lanes[i].role == (if v.localIsInitiator then Initiator else Acceptor)
                 && w.lanes[i].role == (if w.localIsInitiator then Initiator else Acceptor)
                 && v.lanes[i].localReplica == w.lanes[i].remoteReplica == ReplicaForLane(x, i).id
                 && w.lanes[i].localReplica == v.lanes[i].remoteReplica == ReplicaForLane(y, i).id
  {
    LexTotal(x.peerId, y.peerId);
    if LexLe(x.peerId, y.peerId) && LexLe(y.peerId, x.peerId) { LexAntisymmetric(x.peerId, y.peerId); }
  }

  // The Peer whose identifier comes first initiates: the shorter of a prefix and its extension, or
  // the one with the smaller character where they first differ.
  lemma LesserInitiates(x: PeerDescriptor, y: PeerDescriptor, laneCount: nat)
    ensures BuildLink(x, y, laneCount).localIsInitiator <==>
            x.peerId <= y.peerId || exists i :: FirstSmaller(x.peerId, y.peerId, i)
  {
    hide WellFormed, LexLe, BuildLane;
    LexLeExactly(x.peerId, y.peerId);
    LexTotal(x.peerId, y.peerId);
  }

  // ---- Relation keys ----

  datatype RelationKey = RelationKey(firstFamily: string, secondFamily: string, lane: nat)

  datatype RelationError = EmptyIdentity | SameIdentity

  function RelationOf(lane: Lane): (k: RelationKey)
  {
    RelationKey(lane.link.first, lane.link.second, lane.index)
  }

  function FromStablePeers(first: string, second: string, lane: nat): (r: Result<RelationKey, RelationError>)
  {
    if Trim(first) == "" || Trim(second) == "" then Err(EmptyIdentity)
    else if first == second then Err(SameIdentity)
    else if LexLe(first, second) then Ok(RelationKey(first, second, lane))
    else Ok(RelationKey(second, first, lane))
  }

  // Which identities have a relation key: two different ones, neither of them blank.
  lemma StableKeyExactly(first: string, second: string, lane: nat)
    ensures var r := FromStablePeers(first, second, lane);
            var blank := AllBlank(IsWhiteSpace, first) || AllBlank(IsWhiteSpace, second);
            && (r == Err(EmptyIdentity) <==> blank)
            && (r == Err(SameIdentity) <==> !blank && first == second)
            && (r.Ok? ==>
                  && {r.value.firstFamily, r.value.secondFamily} == {first, second} && r.value.lane == lane
                  && LexLe(r.value.firstFamily, r.value.secondFamily))
  {
    hide LexLe, TrimBy, AllBlank;
    BlankExactly(IsWhiteSpace, first);
    BlankExactly(IsWhiteSpace, second);
    LexTotal(first, second);
  }

  // A lane's relation key is the one either end derives from the two identities, in either order.
  lemma RelationKeysAgree(x: PeerDescriptor, y: PeerDescriptor, laneCount: nat, i: nat)
    requires x.peerId != y.peerId && Trim(x.peerId) != "" && Trim(y.peerId) != "" && i < laneCount
    ensures var k := Ok(RelationOf(BuildLink(x, y, laneCount).lanes[i]));
            && FromStablePeers(x.peerId, y.peerId, i) == k && FromStablePeers(y.peerId, x.peerId, i) == k
            && k == Ok(RelationOf(BuildLink(y, x, laneCount).lanes[i]))
  {
    LexTotal(x.peerId, y.peerId);
    if LexLe(x.peerId, y.peerId) && LexLe(y.peerId, x.peerId) { LexAntisymmetric(x.peerId, y.peerId); }
  }

  // Different lanes, and lanes of different pairs of Peers, have different relation keys.
  lemma RelationKeysDistinct(a: string, b: string, i: nat, c: string, d: string, j: nat)
    requires FromStablePeers(a, b, i).Ok? && FromStablePeers(a, b, i) == FromStablePeers(c, d, j)
    ensures {a, b} == {c, d} && i == j
  {
    hide LexLe, Trim;
  }

  // ---- Balance ----

  /** Replicas numbered 0, 1, 2, and so on. */
  predicate Contiguous(d: PeerDescriptor)
  {
    forall i :: 0 <= i < |d.replicas| ==> d.replicas[i].index == i
  }

  /** How many of the first `n` lanes land on the Replica at position `r`. */
  function Load(d: PeerDescriptor, n: nat, r: nat): (k: nat)
    requires r < |d.replicas|
  {
    if n == 0 then 0 else Load(d, n - 1, r) + if ReplicaForLane(d, n - 1) == d.replicas[r] then 1 else 0
  }

  lemma LaneTakesTurns(d: PeerDescriptor, lane: nat)
    requires Contiguous(d)
    ensures ReplicaForLane(d, lane) == d.replicas[Turn(lane, |d.replicas|)]
  {
    var k := |d.replicas|;
    var found := FindIndex(d.replicas, lane);
    if lane < k {
      assert d.replicas[lane] in d.replicas;
      var at :| 0 <= at < k && d.replicas[at] == found.value;
      TurnOf(0, lane, k);
    }
  }

  lemma NextTurn(n: nat, k: nat)
    requires k > 0
    ensures Turn(n + 1, k) == if Turn(n, k) + 1 == k then 0 else Turn(n, k) + 1
  {
    var q, t := n / k, n % k;
    assert n == q * k + t;
    if t + 1 == k {
      assert n + 1 == (q + 1) * k;
      TurnOf(q + 1, 0, k);
    } else {
      TurnOf(q, t + 1, k);
    }
  }

  lemma TurnOf(q: nat, t: nat, k: nat)
    requires t < k
    ensures Turn(q * k + t, k) == t
  {
    var n := q * k + t;
    var d := q - n / k;
    assert n == (n / k) * k + n % k;
    assert d * k == n % k - t;
    if d != 0 { Apart(d, k); }
  }

  lemma Apart(d: int, k: nat)
    requires d != 0
    ensures d * k >= k || d * k <= 0 - k
  {
  }

  lemma {:induction false} LoadExactly(d: PeerDescriptor, n: nat) returns (share: nat)
    requires Contiguous(d)
    ensures forall r :: 0 <= r < |d.replicas| ==>
              Load(d, n, r) == share + if r < Turn(n, |d.replicas|) then 1 else 0
  {
    hide ReplicaForLane, Turn;
    var k := |d.replicas|;
    if n == 0 {
      share := 0;
      TurnOf(0, 0, k);
    } else {
      var before := LoadExactly(d, n - 1);
      LaneTakesTurns(d, n - 1);
      NextTurn(n - 1, k);
      var t := Turn(n - 1, k);
      share := if t + 1 == k then before + 1 else before;
      forall r | 0 <= r < k ensures d.replicas[t] == d.replicas[r] <==> r == t {
        assert d.replicas[t].index == t && d.replicas[r].index == r;
      }
    }
  }

  // Lanes are shared out evenly: over any number of lanes no Replica carries two more than another.
  lemma LanesBalanced(d: PeerDescriptor, n: nat, r: nat, s: nat)
    requires Contiguous(d) && r < |d.replicas| && s < |d.replicas|
    ensures Load(d, n, r) <= Load(d, n, s) + 1
  {
    var share := LoadExactly(d, n);
  }
}
