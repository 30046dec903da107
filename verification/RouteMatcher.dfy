/**
Exact ownership of Overlay and LAN host addresses, and V2 lookup over the export directory
(`OverlayRouteMatcher`, `overlay.rs`).
*/
module RouteMatcher {
  import opened Basics
  import opened Ipv4
  import opened RuntimeRecord
  import opened Directory
  import opened OwnerTable
  import opened LanAliases
  import opened Gossip
  import opened Text
  import opened Unicode
  import Replica

  // ---- Derived Overlay addresses ----

  const OVERLAY_HOST_COUNT: nat := 65534

  /** The text hashed for a Peer: the domain, the Tunnel, a zero byte and the family's seed. */
  function DerivationInput(tunnel: string, seed: string): (r: seq<Byte>)
  {
    Utf8("lantunnel-overlay-v1") + [0] + Utf8(tunnel) + [0] + Utf8(seed)
  }

  // Peers of different Tunnels or with different seeds never hash the same text.
  lemma DerivationInputInjective(tunnel: string, seed: string, otherTunnel: string, otherSeed: string)
    requires '\0' !in tunnel && '\0' !in otherTunnel
    requires DerivationInput(tunnel, seed) == DerivationInput(otherTunnel, otherSeed)
    ensures tunnel == otherTunnel && seed == otherSeed
  {
    hide Utf8;
    var domain := Utf8("lantunnel-overlay-v1") + [0];
    var x, y := Utf8(tunnel), Utf8(otherTunnel);
    assert DerivationInput(tunnel, seed) == domain + (x + [0] + Utf8(seed));
    assert DerivationInput(otherTunnel, otherSeed) == domain + (y + [0] + Utf8(otherSeed));
    AfterPrefix(domain, x + [0] + Utf8(seed), y + [0] + Utf8(otherSeed));
    Utf8Zero(tunnel);
    Utf8Zero(otherTunnel);
    FirstZero(x, Utf8(seed), y, Utf8(otherSeed));
    Utf8Injective(tunnel, otherTunnel);
    Utf8Injective(seed, otherSeed);
  }

  lemma AfterPrefix(p: seq<Byte>, x: seq<Byte>, y: seq<Byte>)
    requires p + x == p + y
    ensures x == y
  {
    assert (p + x)[|p|..] == x && (p + y)[|p|..] == y;
  }

  lemma FirstZero(x: seq<Byte>, s: seq<Byte>, y: seq<Byte>, t: seq<Byte>)
    requires 0 !in x && 0 !in y && x + [0] + s == y + [0] + t
    ensures x == y && s == t
  {
    hide SplitOnce;
    SplitAt(x, 0, s);
    SplitAt(y, 0, t);
  }

  // It is the UTF-8 of one text: the domain, the Tunnel and the seed, apart by zero characters.
  lemma DerivationText(tunnel: string, seed: string)
    ensures DerivationInput(tunnel, seed) == Utf8("lantunnel-overlay-v1\0" + tunnel + "\0" + seed)
  {
    hide Utf8;
    var domain := "lantunnel-overlay-v1";
    assert domain + "\0" == "lantunnel-overlay-v1\0";
    Utf8Concat(domain, "\0");
    Utf8Concat(domain + "\0", tunnel);
    Utf8Concat(domain + "\0" + tunnel, "\0");
    Utf8Concat(domain + "\0" + tunnel + "\0", seed);
    assert Utf8("\0") == [0] by { ZeroByte(); }
  }

  lemma ZeroByte()
    ensures Utf8("\0") == [0]
  {
    assert "\0"[1..] == "";
  }

  function HostNumber(high: Byte, low: Byte): (host: nat)
    ensures 1 <= host <= OVERLAY_HOST_COUNT
  {
    (high * 256 + low) % OVERLAY_HOST_COUNT + 1
  }

  function HostAddress(host: nat): (a: Address)
    requires 1 <= host <= OVERLAY_HOST_COUNT
    ensures a == 0xC612_0000 + host
  {
    FromOctets([198, 18, host / 256, host % 256])
  }

  function DeriveOverlay(hash: Hasher, tunnel: string, seed: string): (a: Address)
    requires |hash(DerivationInput(tunnel, seed))| == 32
    ensures DerivedOverlay(a)
  {
    var digest := hash(DerivationInput(tunnel, seed));
    HostAddress(HostNumber(digest[0], digest[1]))
  }

  // The address: 198.18.0.1 plus the first two hash bytes, most significant first, modulo 65534.
  lemma DeriveOverlayExactly(hash: Hasher, tunnel: string, seed: string)
    requires |hash(DerivationInput(tunnel, seed))| == 32
    ensures var digest := hash(DerivationInput(tunnel, seed));
            var high, low := digest[0] as int, digest[1] as int;
            DeriveOverlay(hash, tunnel, seed) as int == 0xC612_0001 + (high * 256 + low) % 65534
  {
  }

  /** 198.18.0.1 to 198.18.255.254. */
  predicate DerivedOverlay(a: Address)
  {
    0xC612_0001 <= a <= 0xC612_FFFE
  }

  // Every address of that range belongs to some hash prefix, so none is wasted.
  lemma EveryHostIsDerived(a: Address) returns (high: Byte, low: Byte)
    requires DerivedOverlay(a)
    ensures HostAddress(HostNumber(high, low)) == a
  {
    var n := a - 0xC612_0001;
    high, low := n / 256, n % 256;
  }

  // No export and no LAN alias can hold a derived Overlay address.
  lemma DerivedIsNotPrivate(a: Address, p: Prefix)
    requires DerivedOverlay(a) && Admissible(p)
    ensures !Contains(p, a) && !IsRfc1918(a)
  {
    if Contains(p, a) {
      ExportStaysPrivate(p, a);
    }
  }

  // ---- Who claims an address ----

  datatype RouteMatch = Peer(peerId: string) | Unmatched | Ambiguous

  function Lifted(overlays: map<string, Address>): (f: Forward)
  {
    map peer | peer in overlays :: {overlays[peer]}
  }

  function Claimants(f: Forward, a: Address): (r: set<string>)
  {
    set peer | peer in f && a in f[peer]
  }

  /** One claimant is matched, none is unmatched, and several are refused. */
  ghost predicate Decides(claimants: set<string>, r: RouteMatch)
  {
    match r
    case Peer(id) => claimants == {id}
    case Unmatched => claimants == {}
    case Ambiguous => exists x, y :: x in claimants && y in claimants && x != y
  }

  function Decision(claimants: set<string>): (r: RouteMatch)
    ensures Decides(claimants, r)
  {
    if claimants == {} then Unmatched
    else
      var ids := SortedIds(claimants);
      assert ids[0] in claimants;
      OneElement(claimants, ids[0]);
      if |claimants| != 1 then assert ids[1] in claimants; Ambiguous else Peer(ids[0])
  }

  lemma OwnersAreClaimants(f: Forward, o: Owners, a: Address)
    requires Inverse(f, o)
    ensures OwnersOf(o, a) == Claimants(f, a)
  {
    forall peer ensures peer in OwnersOf(o, a) <==> peer in Claimants(f, a) {
      assert peer in OwnersOf(o, a) <==> a in AddressesOf(f, peer);
    }
  }

  function ExportMatch(order: map<Prefix, seq<string>>, a: Address): (r: RouteMatch)
    requires NoEmptyQueue(order)
  {
    match NaiveLongest(ActiveSnapshot(order), a)
    case None => Unmatched
    case Some((_, id)) => Peer(id)
  }

  // While all Overlay addresses are derived ones, exact ownership and exports never compete: an
  // owned address has no exporter.
  lemma OverlayHidesNoExport(overlays: map<string, Address>, d: DirState, a: Address)
    requires forall peer :: peer in overlays ==> DerivedOverlay(overlays[peer])
    requires Consistent(d)
    ensures Claimants(Lifted(overlays), a) != {} ==> ExportMatch(d.order, a) == Unmatched
  {
    hide Canonical, Contains, ActiveSnapshot, NaiveLongest;
    if Claimants(Lifted(overlays), a) != {} {
      assert DerivedOverlay(a);
      NaiveFindsLongest(d.order, a);
      forall p | p in d.order ensures !Contains(p, a) {
        QueuedIsAdmissible(d, p);
        DerivedIsNotPrivate(a, p);
      }
    }
  }

  lemma QueuedIsAdmissible(d: DirState, p: Prefix)
    requires Consistent(d) && p in d.order
    ensures Admissible(p)
  {
    var origin := d.order[p][0];
    assert origin in Queue(d.order, p);
    assert p in ReadyOf(d, origin);
  }

  // ---- Sparse routes ----

  function RoutesAmong(o: Owners, addresses: seq<Address>): (r: seq<(Address, string)>)
    requires NoEmptyOwners(o) && forall a :: a in addresses ==> a in o
  {
    if addresses == [] then [] else
      var owners := SortedIds(o[addresses[0]]);
      var rest := RoutesAmong(o, addresses[1..]);
      if |owners| == 1 then [(addresses[0], owners[0])] + rest else rest
  }

  function RouteSnapshot(o: Owners): (r: seq<(Address, string)>)
    requires NoEmptyOwners(o)
  {
    RoutesAmong(o, SortedAddresses(o.Keys))
  }

  predicate InAddressOrder(routes: seq<(Address, string)>)
  {
    forall i, j :: 0 <= i < j < |routes| ==> routes[i].0 < routes[j].0
  }

  lemma {:induction false} RoutesAmongExactly(o: Owners, addresses: seq<Address>)
    requires NoEmptyOwners(o) && (forall a :: a in addresses ==> a in o)
    requires forall i, j :: 0 <= i < j < |addresses| ==> addresses[i] < addresses[j]
    ensures forall a: Address, id :: (a, id) in RoutesAmong(o, addresses) <==> a in addresses && o[a] == {id}
    ensures InAddressOrder(RoutesAmong(o, addresses))
  {
    hide SortedIds, LexLe;
    if addresses != [] {
      var a, rest := addresses[0], addresses[1..];
      RoutesAmongExactly(o, rest);
      assert addresses == [a] + rest;
      var owners, later := SortedIds(o[a]), RoutesAmong(o, rest);
      assert owners[0] in o[a];
      OneElement(o[a], owners[0]);
      forall i | 0 <= i < |later| ensures a < later[i].0 {
        assert (later[i].0, later[i].1) in later;
        assert later[i].0 in rest;
      }
      assert InAddressOrder([(a, owners[0])] + later);
    }
  }

  // The installed routes are, in address order, the addresses that exactly one Peer claims.
  lemma RouteSnapshotExactly(f: Forward, o: Owners)
    requires Inverse(f, o)
    ensures forall a: Address, id :: (a, id) in RouteSnapshot(o) <==> Claimants(f, a) == {id}
    ensures InAddressOrder(RouteSnapshot(o))
  {
    hide RoutesAmong, Inverse, Claimants;
    assert NoEmptyOwners(o) by { InverseIsTotal(f, o); }
    RoutesAmongExactly(o, SortedAddresses(o.Keys));
    forall a: Address, id ensures (a, id) in RouteSnapshot(o) <==> Claimants(f, a) == {id} {
      OwnersAreClaimants(f, o, a);
    }
  }

  lemma InverseIsTotal(f: Forward, o: Owners)
    requires Inverse(f, o)
    ensures NoEmptyOwners(o)
  {
  }

  // With derived Overlays, every installed route is matched: no LAN alias makes it ambiguous.
  lemma InstalledRoutesMatch(overlays: map<string, Address>, aliases: Forward, a: Address, id: string)
    requires forall peer :: peer in overlays ==> DerivedOverlay(overlays[peer])
    requires WithinLimits(aliases) && Claimants(Lifted(overlays), a) == {id}
    ensures Claimants(Lifted(overlays), a) + Claimants(aliases, a) == {id}
  {
    hide Destinations;
    assert id in Claimants(Lifted(overlays), a);
    assert DerivedOverlay(a);
    forall peer | peer in aliases ensures a !in aliases[peer] {
      assert Acceptable(aliases[peer]);
    }
  }

  // ---- Building owner tables ----

  lemma NoChange(f: Forward, o: Owners, peer: string)
    requires Inverse(f, o)
    ensures Inverse(f[peer := AddressesOf(f, peer)], o)
  {
    SameInverse(f, f[peer := AddressesOf(f, peer)], o);
  }

  lemma FewerWithinLimits(f: Forward, peer: string)
    requires WithinLimits(f)
    ensures WithinLimits(f - {peer})
  {
    hide Acceptable;
    assert Destinations(f - {peer}) <= Destinations(f);
    Subset(Destinations(f - {peer}), Destinations(f));
  }

  lemma KeysCount(f: Forward, o: Owners)
    requires o.Keys == Destinations(f)
    ensures |o| == |Destinations(f)|
  {
  }

  method InvertAll(f: Forward) returns (o: Owners)
    ensures Inverse(f, o)
  {
    hide Inverse, AddOwner;
    o := map[];
    var rest := f.Keys;
    ghost var done: Forward := map[];
    EmptyInverse();
    while rest != {}
      invariant rest <= f.Keys && done == f - rest
      invariant Inverse(done, o)
      decreases rest
    {
      var peer :| peer in rest;
      SameInverse(done, done[peer := {}], o);
      o := OwnAll(done, o, peer, f[peer]);
      rest, done := rest - {peer}, done[peer := f[peer]];
      assert done == f - rest;
    }
    assert f - {} == f;
  }

  method OwnAll(ghost done: Forward, owners: Owners, peer: string, aliases: set<Address>) returns (o: Owners)
    requires Inverse(done[peer := {}], owners)
    ensures Inverse(done[peer := aliases], o)
  {
    hide Inverse, AddOwner;
    o := owners;
    var rest := aliases;
    ghost var added: set<Address> := {};
    while rest != {}
      invariant rest !! added && rest + added == aliases
      invariant Inverse(done[peer := added], o)
      decreases rest
    {
      var a :| a in rest;
      AddStep(done[peer := added], o, peer, a);
      assert done[peer := added][peer := added + {a}] == done[peer := added + {a}];
      o := AddOwner(o, peer, a);
      rest, added := rest - {a}, added + {a};
    }
    assert added == aliases;
  }

  lemma EmptyInverse()
    ensures Inverse(map[], map[])
  {
  }

  // ---- The matcher ----

  datatype OverlayError = ReplicaOutsideTunnel

  class OverlayRouteMatcher {
    var peerOverlays: map<string, Address>
    var overlayOwners: Owners
    var peerLanAliases: Forward
    var lanAliasOwners: Owners
    const v2LanExports: PeerGossipDirectory

    ghost predicate Valid()
      reads this, v2LanExports
    {
      && Inverse(Lifted(peerOverlays), overlayOwners)
      && Inverse(peerLanAliases, lanAliasOwners)
      && WithinLimits(peerLanAliases)
      && v2LanExports.Valid()
    }

    constructor ()
      ensures Valid() && fresh(v2LanExports)
      ensures peerOverlays == map[] && peerLanAliases == map[] && v2LanExports.State() == Directory.EMPTY
    {
      peerOverlays, overlayOwners, peerLanAliases, lanAliasOwners := map[], map[], map[], map[];
      v2LanExports := new PeerGossipDirectory();
      new;
      EmptyDestinations();
    }

    method UpsertReplica(hash: Hasher, tunnel: string, id: string) returns (r: Result<Address, OverlayError>)
      requires Valid() && forall m :: |hash(m)| == 32
      modifies `peerOverlays, `overlayOwners
      ensures Valid()
      ensures r.Ok? <==> Replica.SeedForTunnel(tunnel, id).Some?
      ensures r.Ok? ==> DerivedOverlay(r.value) && peerOverlays == old(peerOverlays)[Replica.FamilyId(id) := r.value]
      ensures r.Ok? ==> r.value == DeriveOverlay(hash, tunnel, Replica.SeedForTunnel(tunnel, id).value)
      ensures r.Err? ==> peerOverlays == old(peerOverlays) && overlayOwners == old(overlayOwners)
    {
      hide Inverse, DeriveOverlay, Replica.SeedForTunnel, Replica.FamilyId, WithinLimits;
      match Replica.SeedForTunnel(tunnel, id)
      case None => r := Err(ReplicaOutsideTunnel);
      case Some(seed) =>
        var overlay := DeriveOverlay(hash, tunnel, seed);
        UpsertPeerOverlay(Replica.FamilyId(id), overlay);
        r := Ok(overlay);
    }

    method UpsertPeerOverlay(peer: string, overlay: Address)
      requires Valid()
      modifies `peerOverlays, `overlayOwners
      ensures Valid() && peerOverlays == old(peerOverlays)[peer := overlay]
    {
      hide Inverse, RemoveOwner, AddOwner, WithinLimits;
      ghost var before := Lifted(peerOverlays);
      if peer in peerOverlays && peerOverlays[peer] != overlay {
        RemoveStep(before, overlayOwners, peer, peerOverlays[peer]);
        overlayOwners := RemoveOwner(overlayOwners, peer, peerOverlays[peer]);
        before := before[peer := AddressesOf(before, peer) - {peerOverlays[peer]}];
      }
      peerOverlays := peerOverlays[peer := overlay];
      AddStep(before, overlayOwners, peer, overlay);
      assert AddressesOf(before, peer) + {overlay} == {overlay};
      overlayOwners := AddOwner(overlayOwners, peer, overlay);
      assert before[peer := AddressesOf(before, peer) + {overlay}] == Lifted(peerOverlays);
    }

    // Owner sets change one address at a time; a rejected call changes nothing.
    method ReplacePeerLanAliases(peer: string, list: seq<Address>) returns (r: Result<(), AliasError>)
      requires Valid()
      modifies `peerLanAliases, `lanAliasOwners
      ensures Valid()
      ensures match Replace(old(peerLanAliases), peer, LanAliases.SetOf(list))
              case Ok(next) => r == Ok(()) && peerLanAliases == next
              case Err(e) =>
                r == Err(e) && peerLanAliases == old(peerLanAliases) && lanAliasOwners == old(lanAliasOwners)
    {
      hide Inverse, Rejects, Replica.FamilyId, Destinations, Acceptable, RemoveOwner, AddOwner, Lifted;
      var aliases := LanAliases.SetOf(list);
      var rejection := Rejects(aliases);
      if rejection.Some? {
        return Err(rejection.value);
      }
      var family := Replica.FamilyId(peer);
      var previous := AddressesOf(peerLanAliases, family);
      var count := ProjectedCount(family, previous, aliases);
      if count > MAX_DESTINATIONS {
        return Err(UniqueDestinationLimitExceeded(count));
      }
      ReplaceKeepsLimits(peerLanAliases, peer, aliases);
      InstallAliases(family, previous, aliases);
      r := Ok(());
    }

    method ProjectedCount(family: string, previous: set<Address>, aliases: set<Address>) returns (count: nat)
      requires Inverse(peerLanAliases, lanAliasOwners) && previous == AddressesOf(peerLanAliases, family)
      ensures count == |Destinations(peerLanAliases[family := aliases])|
    {
      hide *;
      var remaining := WithoutOwnedAlone(family, previous);
      ProjectedIsInstalled(peerLanAliases, lanAliasOwners, family, aliases);
      count := |remaining + aliases|;
    }

    method WithoutOwnedAlone(family: string, previous: set<Address>) returns (remaining: set<Address>)
      ensures remaining == lanAliasOwners.Keys - OwnedAlone(lanAliasOwners, family, previous)
    {
      hide OwnedAlone;
      remaining := lanAliasOwners.Keys;
      var rest := previous;
      ghost var done: set<Address> := {};
      NoneOwned(lanAliasOwners, family);
      while rest != {}
        invariant rest !! done && rest + done == previous
        invariant remaining == lanAliasOwners.Keys - OwnedAlone(lanAliasOwners, family, done)
        decreases rest
      {
        var a :| a in rest;
        OwnedAloneStep(lanAliasOwners, family, done, a);
        if a in lanAliasOwners && |lanAliasOwners[a]| == 1 && family in lanAliasOwners[a] {
          remaining := remaining - {a};
        }
        rest, done := rest - {a}, done + {a};
      }
      assert done == previous;
    }

    method InstallAliases(family: string, previous: set<Address>, aliases: set<Address>)
      requires Inverse(peerLanAliases, lanAliasOwners) && previous == AddressesOf(peerLanAliases, family)
      modifies `peerLanAliases, `lanAliasOwners
      ensures peerLanAliases == old(peerLanAliases)[family := aliases]
      ensures Inverse(peerLanAliases, lanAliasOwners)
    {
      hide Inverse, RemoveOwner, AddOwner;
      ghost var start := peerLanAliases;
      peerLanAliases := peerLanAliases[family := aliases];
      NoChange(start, lanAliasOwners, family);
      Disown(start, family, previous);
      lanAliasOwners := OwnAll(start, lanAliasOwners, family, aliases);
    }

    method Disown(ghost start: Forward, peer: string, previous: set<Address>)
      requires Inverse(start[peer := previous], lanAliasOwners)
      modifies `lanAliasOwners
      ensures Inverse(start[peer := {}], lanAliasOwners)
    {
      hide Inverse, RemoveOwner;
      var rest := previous;
      while rest != {}
        invariant Inverse(start[peer := rest], lanAliasOwners)
        decreases rest
      {
        var a :| a in rest;
        RemoveStep(start[peer := rest], lanAliasOwners, peer, a);
        assert start[peer := rest][peer := rest - {a}] == start[peer := rest - {a}];
        lanAliasOwners := RemoveOwner(lanAliasOwners, peer, a);
        rest := rest - {a};
      }
    }

    // The candidate tables are built and judged apart from the live ones.
    method ReplaceLanAliasSnapshot(snapshot: Snapshot) returns (r: Result<(), AliasError>)
      requires Valid()
      modifies `peerLanAliases, `lanAliasOwners
      ensures Valid()
      ensures match ReplaceAll(snapshot)
              case Ok(next) => r == Ok(()) && peerLanAliases == next
              case Err(e) =>
                r == Err(e) && peerLanAliases == old(peerLanAliases) && lanAliasOwners == old(lanAliasOwners)
    {
      hide Inverse, Rejects, Replica.FamilyId, Destinations, Acceptable, SortedIds, LexLe, Lifted;
      var merged: Forward := map[];
      for i := 0 to |snapshot|
        invariant merged == Merged(snapshot[..i])
      {
        assert snapshot[..i + 1][..i] == snapshot[..i];
        var family := Replica.FamilyId(snapshot[i].0);
        merged := merged[family := AddressesOf(merged, family) + LanAliases.SetOf(snapshot[i].1)];
      }
      assert snapshot[..|snapshot|] == snapshot;
      var rejection := FirstRejected(merged, SortedIds(merged.Keys));
      if rejection.Some? {
        return Err(rejection.value);
      }
      var owners := InvertAll(merged);
      InverseKeys(merged, owners);
      KeysCount(merged, owners);
      if |owners| > MAX_DESTINATIONS {
        return Err(UniqueDestinationLimitExceeded(|owners|));
      }
      ReplaceAllExactly(snapshot);
      peerLanAliases, lanAliasOwners := merged, owners;
      r := Ok(());
    }

    // Explicit retirement, by the exact identifier.
    method RemovePeer(peer: string) returns (removed: bool)
      requires Valid()
      modifies `peerOverlays, `overlayOwners, `peerLanAliases, `lanAliasOwners
      ensures Valid()
      ensures removed == (peer in old(peerOverlays) || peer in old(peerLanAliases))
      ensures peerOverlays == old(peerOverlays) - {peer} && peerLanAliases == old(peerLanAliases) - {peer}
    {
      hide Inverse, RemoveOwner, WithinLimits;
      removed := false;
      if peer in peerOverlays {
        ghost var before := Lifted(peerOverlays);
        var overlay := peerOverlays[peer];
        RemoveStep(before, overlayOwners, peer, overlay);
        overlayOwners := RemoveOwner(overlayOwners, peer, overlay);
        peerOverlays := peerOverlays - {peer};
        SameInverse(before[peer := AddressesOf(before, peer) - {overlay}], Lifted(peerOverlays), overlayOwners);
        removed := true;
      } else {
        assert peerOverlays - {peer} == peerOverlays;
      }
      if peer in peerLanAliases {
        ghost var before := peerLanAliases;
        var aliases := peerLanAliases[peer];
        peerLanAliases := peerLanAliases - {peer};
        NoChange(before, lanAliasOwners, peer);
        Disown(before, peer, aliases);
        SameInverse(before[peer := {}], peerLanAliases, lanAliasOwners);
        FewerWithinLimits(before, peer);
        removed := true;
      } else {
        assert peerLanAliases - {peer} == peerLanAliases;
      }
    }

    method MatchDestination(destination: IpAddr) returns (r: RouteMatch)
      requires Valid()
      ensures destination.V6? ==> r == Unmatched
      ensures destination.V4? ==>
                Decides(Claimants(Lifted(peerOverlays), destination.v4) + Claimants(peerLanAliases, destination.v4), r)
    {
      hide Inverse, Claimants, Lifted, Decides, WithinLimits, SortedIds, Decision;
      if destination.V6? {
        return Unmatched;
      }
      OwnersAreClaimants(Lifted(peerOverlays), overlayOwners, destination.v4);
      OwnersAreClaimants(peerLanAliases, lanAliasOwners, destination.v4);
      r := Decision(OwnersOf(overlayOwners, destination.v4) + OwnersOf(lanAliasOwners, destination.v4));
    }

    // Exact Overlay ownership first, then the longest matching export.
    method MatchV2Destination(destination: IpAddr) returns (r: RouteMatch)
      requires Valid()
      ensures destination.V6? ==> r == Unmatched
      ensures destination.V4? ==>
                var claimants := Claimants(Lifted(peerOverlays), destination.v4);
                if claimants != {} then Decides(claimants, r)
                else r == ExportMatch(v2LanExports.order, destination.v4)
    {
      hide Inverse, Claimants, Lifted, Decides, WithinLimits, SortedIds, Decision, ActiveSnapshot, NaiveLongest;
      if destination.V6? {
        return Unmatched;
      }
      var a := destination.v4;
      OwnersAreClaimants(Lifted(peerOverlays), overlayOwners, a);
      assert NoEmptyOwners(overlayOwners) by { InverseIsTotal(Lifted(peerOverlays), overlayOwners); }
      if a in overlayOwners {
        return Decision(overlayOwners[a]);
      }
      var best := v2LanExports.LongestPrefixExporter(a);
      r := match best case None => Unmatched case Some((_, id)) => Peer(id);
    }
  }
}
