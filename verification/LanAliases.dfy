/**
Private LAN host aliases (`route_matcher.rs`): replacing one Peer's aliases, replacing all of them
from a snapshot, and why the two agree.
*/
module LanAliases {
  import opened Basics
  import opened Ipv4
  import opened OwnerTable
  import Replica

  const MAX_ALIASES_PER_PEER: nat := 255
  const MAX_DESTINATIONS: nat := 4096

  datatype AliasError =
    | NotPrivateHost(address: Address)
    | PeerAliasLimitExceeded(count: nat)
    | UniqueDestinationLimitExceeded(count: nat)

  function AddressKey(a: Address): int
  {
    a
  }

  function SortedAddresses(s: set<Address>): (r: seq<Address>)
    ensures forall a :: a in r <==> a in s
    ensures forall i, j :: 0 <= i < j < |r| ==> r[i] < r[j]
  {
    var r := SortedSeq(AddressKey, s);
    assert forall i, j :: 0 <= i < j < |r| ==> AddressKey(r[i]) < AddressKey(r[j]);
    r
  }

  function FirstNotPrivate(addresses: seq<Address>): (r: Option<Address>)
    ensures match r
            case None => forall a :: a in addresses ==> IsRfc1918(a)
            case Some(a) => a in addresses && !IsRfc1918(a)
  {
    if addresses == [] then None
    else if !IsRfc1918(addresses[0]) then Some(addresses[0])
    else FirstNotPrivate(addresses[1..])
  }

  /** What is wrong with one Peer's aliases. The limit is tested first, and the least public address is named. */
  function Rejects(aliases: set<Address>): (r: Option<AliasError>)
  {
    if |aliases| > MAX_ALIASES_PER_PEER then Some(PeerAliasLimitExceeded(|aliases|))
    else
      match FirstNotPrivate(SortedAddresses(aliases))
      case Some(a) => Some(NotPrivateHost(a))
      case None => None
  }

  predicate Acceptable(aliases: set<Address>)
  {
    |aliases| <= 255 && forall a :: a in aliases ==> IsRfc1918(a)
  }

  lemma RejectsExactly(aliases: set<Address>)
    ensures Rejects(aliases).None? <==> Acceptable(aliases)
    ensures match Rejects(aliases)
            case Some(NotPrivateHost(a)) =>
              && |aliases| <= 255 && a in aliases && !IsRfc1918(a)
              && forall b :: b in aliases && b < a ==> IsRfc1918(b)
            case Some(PeerAliasLimitExceeded(count)) => count == |aliases| > MAX_ALIASES_PER_PEER
            case _ => true
  {
    var sorted := SortedAddresses(aliases);
    LeastNotPrivate(sorted);
  }

  lemma {:induction false} LeastNotPrivate(addresses: seq<Address>)
    requires forall i, j :: 0 <= i < j < |addresses| ==> addresses[i] < addresses[j]
    ensures match FirstNotPrivate(addresses)
            case Some(a) => forall b :: b in addresses && b < a ==> IsRfc1918(b)
            case None => true
  {
    if addresses != [] && IsRfc1918(addresses[0]) {
      LeastNotPrivate(addresses[1..]);
      assert addresses == [addresses[0]] + addresses[1..];
    }
  }

  /** The bounds a forward table keeps. */
  predicate WithinLimits(f: Forward)
  {
    (forall peer :: peer in f ==> Acceptable(f[peer])) && |Destinations(f)| <= 4096
  }

  function Replace(f: Forward, peer: string, aliases: set<Address>): (r: Result<Forward, AliasError>)
  {
    match Rejects(aliases)
    case Some(e) => Err(e)
    case None =>
      var next := f[Replica.FamilyId(peer) := aliases];
      if |Destinations(next)| > MAX_DESTINATIONS then Err(UniqueDestinationLimitExceeded(|Destinations(next)|))
      else Ok(next)
  }

  lemma ReplaceKeepsLimits(f: Forward, peer: string, aliases: set<Address>)
    requires WithinLimits(f) && Replace(f, peer, aliases).Ok?
    ensures WithinLimits(Replace(f, peer, aliases).value)
  {
    hide Replica.FamilyId, Rejects, Destinations;
    RejectsExactly(aliases);
  }

  /** The addresses that the other families hold. */
  function HeldByOthers(f: Forward, family: string): (r: set<Address>)
  {
    set other, a | other in f && other != family && a in f[other] :: a
  }

  // A replacement is accepted exactly for at most 255 private aliases that leave at most 4096 addresses in
  // all, and then the family holds exactly these, whatever it held before, and every other family what it held.
  lemma ReplaceExactly(f: Forward, peer: string, aliases: set<Address>)
    ensures var family, r := Replica.FamilyId(peer), Replace(f, peer, aliases);
            && (r.Ok? <==> Acceptable(aliases) && |HeldByOthers(f, family) + aliases| <= 4096)
            && (r.Ok? ==>
                  && r.value.Keys == f.Keys + {family} && r.value[family] == aliases
                  && forall other :: other in f && other != family ==> r.value[other] == f[other])
            && (r.Err? && Acceptable(aliases) ==>
                  r.error == UniqueDestinationLimitExceeded(|HeldByOthers(f, family) + aliases|))
  {
    hide Replica.FamilyId, Rejects, Acceptable;
    RejectsExactly(aliases);
    var family := Replica.FamilyId(peer);
    var next := f[family := aliases];
    forall a ensures a in Destinations(next) <==> a in HeldByOthers(f, family) + aliases {
      if a in aliases {
        assert family in next && a in next[family];
      } else if a in HeldByOthers(f, family) {
        var other :| other in f && other != family && a in f[other];
        assert other in next && a in next[other];
      }
    }
    assert Destinations(next) == HeldByOthers(f, family) + aliases;
  }

  // Of two accepted replacements for one family the second decides alone.
  lemma SecondReplacementDecides(f: Forward, peer: string, again: string, first: set<Address>, second: set<Address>)
    requires Replica.FamilyId(peer) == Replica.FamilyId(again) && Replace(f, peer, first).Ok?
    ensures Replace(Replace(f, peer, first).value, again, second) == Replace(f, again, second)
  {
    hide Replica.FamilyId, Rejects, Destinations;
    var family := Replica.FamilyId(peer);
    assert f[family := first][family := second] == f[family := second];
  }

  // Aliases are kept under the family and removed under the exact identifier: removal undoes a
  // Peer's first replacement exactly for identifiers that name their own family.
  lemma RemovalUndoesExactly(f: Forward, peer: string, aliases: set<Address>)
    requires Replica.FamilyId(peer) !in f && Replace(f, peer, aliases).Ok?
    ensures Replace(f, peer, aliases).value - {peer} == f <==> Replica.FamilyId(peer) == peer
  {
    hide Replica.FamilyId, Rejects, Destinations;
    var family, next := Replica.FamilyId(peer), Replace(f, peer, aliases).value;
    if family == peer {
      assert next - {peer} == f;
    } else {
      assert family in next - {peer};
    }
  }

  // So it does not for a Replica other than the first of its family.
  lemma ReplicaAliasesRemain(aliases: set<Address>)
    requires Replace(map[], "mesh-AbC12345-1", aliases).Ok?
    ensures Replace(map[], "mesh-AbC12345-1", aliases).value - {"mesh-AbC12345-1"} == map["mesh-AbC12345-0" := aliases]
  {
    hide Rejects, Destinations, Replica.FamilyId;
    Replica.SecondReplica();
    assert "mesh-AbC12345-1"[14] != "mesh-AbC12345-0"[14];
  }

  // ---- The whole snapshot at once ----

  type Snapshot = seq<(string, seq<Address>)>

  function SetOf(addresses: seq<Address>): (r: set<Address>)
  {
    set a | a in addresses
  }

  function Merged(snapshot: Snapshot): (f: Forward)
  {
    if snapshot == [] then map[] else
      var before, last := Merged(snapshot[..|snapshot| - 1]), snapshot[|snapshot| - 1];
      var family := Replica.FamilyId(last.0);
      before[family := AddressesOf(before, family) + SetOf(last.1)]
  }

  function FirstRejected(f: Forward, families: seq<string>): (r: Option<AliasError>)
    requires forall family :: family in families ==> family in f
    ensures r.None? <==> forall family :: family in families ==> Rejects(f[family]).None?
  {
    if families == [] then None
    else match Rejects(f[families[0]])
         case Some(e) => Some(e)
         case None => FirstRejected(f, families[1..])
  }

  function ReplaceAll(snapshot: Snapshot): (r: Result<Forward, AliasError>)
  {
    var merged := Merged(snapshot);
    match FirstRejected(merged, SortedIds(merged.Keys))
    case Some(e) => Err(e)
    case None =>
      if |Destinations(merged)| > MAX_DESTINATIONS then Err(UniqueDestinationLimitExceeded(|Destinations(merged)|))
      else Ok(merged)
  }

  /** What the snapshot assigns to a family, whatever the order of its entries. */
  function Assigned(snapshot: Snapshot, family: string): (r: set<Address>)
  {
    set entry, a | entry in snapshot && Replica.FamilyId(entry.0) == family && a in entry.1 :: a
  }

  lemma {:induction false} MergedExactly(snapshot: Snapshot, family: string)
    ensures family in Merged(snapshot) <==> exists entry :: entry in snapshot && Replica.FamilyId(entry.0) == family
    ensures family in Merged(snapshot) ==> Merged(snapshot)[family] == Assigned(snapshot, family)
  {
    hide Replica.FamilyId;
    if snapshot != [] {
      var before, last := snapshot[..|snapshot| - 1], snapshot[|snapshot| - 1];
      assert snapshot == before + [last];
      MergedExactly(before, family);
      assert family !in Merged(before) ==> Assigned(before, family) == {};
      assert Assigned(snapshot, family) ==
             Assigned(before, family) + if Replica.FamilyId(last.0) == family then SetOf(last.1) else {};
    }
  }

  lemma MergedIgnoresOrder(snapshot: Snapshot, other: Snapshot)
    requires forall entry :: entry in snapshot <==> entry in other
    ensures Merged(snapshot) == Merged(other)
  {
    hide Replica.FamilyId, Merged;
    forall family
      ensures family in Merged(snapshot) <==> family in Merged(other)
      ensures family in Merged(snapshot) ==> Merged(snapshot)[family] == Merged(other)[family]
    {
      MergedExactly(snapshot, family);
      MergedExactly(other, family);
      assert Assigned(snapshot, family) == Assigned(other, family);
    }
  }

  // A snapshot is installed exactly when the merged table is within the limits.
  lemma ReplaceAllExactly(snapshot: Snapshot)
    ensures ReplaceAll(snapshot).Ok? <==> WithinLimits(Merged(snapshot))
    ensures ReplaceAll(snapshot).Ok? ==> ReplaceAll(snapshot).value == Merged(snapshot)
  {
    hide Merged, Destinations, Rejects, Acceptable, SortedIds, LexLe;
    var merged := Merged(snapshot);
    forall family | family in merged ensures Rejects(merged[family]).None? <==> Acceptable(merged[family]) {
      RejectsExactly(merged[family]);
    }
    var families := SortedIds(merged.Keys);
    assert forall family :: family in families <==> family in merged;
  }

  // A snapshot that is refused for one family is refused for the first such family in order, with that
  // family's error.
  lemma FirstFamilyRefused(snapshot: Snapshot, family: string)
    requires var merged := Merged(snapshot);
             && family in merged && Rejects(merged[family]).Some?
             && forall other :: other in merged && Rejects(merged[other]).Some? ==> LexLe(family, other)
    ensures ReplaceAll(snapshot) == Err(Rejects(Merged(snapshot)[family]).value)
  {
    hide Merged, Rejects, SortedIds, LexLe;
    var merged := Merged(snapshot);
    var ids := SortedIds(merged.Keys);
    var i :| 0 <= i < |ids| && ids[i] == family;
    forall j | 0 <= j < i ensures Rejects(merged[ids[j]]).None? {
      assert ids[j] in ids && LexLe(ids[j], family);
      if LexLe(family, ids[j]) { LexAntisymmetric(family, ids[j]); }
    }
    RejectedAt(merged, ids, i);
  }

  lemma {:induction false} RejectedAt(f: Forward, families: seq<string>, i: nat)
    requires i < |families| && forall family :: family in families ==> family in f
    requires Rejects(f[families[i]]).Some? && forall j :: 0 <= j < i ==> Rejects(f[families[j]]).None?
    ensures FirstRejected(f, families) == Rejects(f[families[i]])
  {
    hide Rejects;
    if i > 0 {
      assert families[0] in families && forall family :: family in families[1..] ==> family in families;
      RejectedAt(f, families[1..], i - 1);
    }
  }

  // ---- Entry by entry ----

  function ReplaceEach(snapshot: Snapshot): (r: Result<Forward, AliasError>)
  {
    if snapshot == [] then Ok(map[]) else
      match ReplaceEach(snapshot[..|snapshot| - 1])
      case Err(e) => Err(e)
      case Ok(f) => Replace(f, snapshot[|snapshot| - 1].0, SetOf(snapshot[|snapshot| - 1].1))
  }

  ghost predicate DistinctFamilies(snapshot: Snapshot)
  {
    forall i, j :: 0 <= i < j < |snapshot| ==> Replica.FamilyId(snapshot[i].0) != Replica.FamilyId(snapshot[j].0)
  }

  lemma {:induction false} ReplaceEachExactly(snapshot: Snapshot)
    requires DistinctFamilies(snapshot)
    ensures ReplaceEach(snapshot).Ok? <==> WithinLimits(Merged(snapshot))
    ensures ReplaceEach(snapshot).Ok? ==> ReplaceEach(snapshot).value == Merged(snapshot)
  {
    hide Replica.FamilyId, Rejects, Acceptable, Destinations;
    if snapshot == [] {
      assert Destinations(map[]) == {} by { EmptyDestinations(); }
    } else {
      var before, last := snapshot[..|snapshot| - 1], snapshot[|snapshot| - 1];
      var family, aliases := Replica.FamilyId(last.0), SetOf(last.1);
      ReplaceEachExactly(before);
      assert family !in Merged(before) by { MergedExactly(before, family); }
      assert AddressesOf(Merged(before), family) + aliases == aliases;
      assert Merged(snapshot) == Merged(before)[family := aliases];
      RejectsExactly(aliases);
      Growing(Merged(before), family, aliases);
    }
  }

  lemma EmptyDestinations()
    ensures Destinations(map[]) == {}
  {
  }

  lemma Growing(f: Forward, family: string, aliases: set<Address>)
    requires family !in f
    ensures WithinLimits(f[family := aliases]) <==>
            WithinLimits(f) && Acceptable(aliases) && |Destinations(f[family := aliases])| <= MAX_DESTINATIONS
  {
    hide Acceptable, Destinations;
    var g := f[family := aliases];
    MoreDestinations(f, family, aliases);
    Subset(Destinations(f), Destinations(g));
    if WithinLimits(g) {
      forall peer | peer in f ensures Acceptable(f[peer]) {
        assert peer in g && g[peer] == f[peer];
      }
      assert family in g;
    }
  }

  lemma MoreDestinations(f: Forward, family: string, aliases: set<Address>)
    requires family !in f
    ensures Destinations(f) <= Destinations(f[family := aliases])
  {
    forall a | a in Destinations(f) ensures a in Destinations(f[family := aliases]) {
      var peer :| peer in f && a in f[peer];
      assert peer in f[family := aliases] && a in f[family := aliases][peer];
    }
  }

  lemma {:induction false} Subset<T>(s: set<T>, t: set<T>)
    requires s <= t
    ensures |s| <= |t|
    decreases s
  {
    if s != {} {
      var x :| x in s;
      Subset(s - {x}, t - {x});
    }
  }

  // Installing a snapshot at once succeeds exactly when installing its entries one by one into
  // empty tables does, in any order, and gives the same table.
  lemma BulkRefinesEach(snapshot: Snapshot, order: Snapshot)
    requires DistinctFamilies(order) && multiset(order) == multiset(snapshot)
    ensures ReplaceAll(snapshot).Ok? <==> ReplaceEach(order).Ok?
    ensures ReplaceAll(snapshot).Ok? ==> ReplaceAll(snapshot).value == ReplaceEach(order).value
  {
    hide ReplaceAll, ReplaceEach, Merged, WithinLimits;
    ReplaceAllExactly(snapshot);
    ReplaceEachExactly(order);
    forall entry ensures entry in snapshot <==> entry in order {
      assert entry in multiset(snapshot) <==> entry in multiset(order);
    }
    MergedIgnoresOrder(snapshot, order);
  }
}
