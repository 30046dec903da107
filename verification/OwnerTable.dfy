/** A forward table from Peers to addresses kept beside its inverse, from addresses to their owners. */
module OwnerTable {
  import opened Ipv4

  type Forward = map<string, set<Address>>
  type Owners = map<Address, set<string>>

  function AddressesOf(f: Forward, peer: string): (r: set<Address>)
  {
    if peer in f then f[peer] else {}
  }

  function OwnersOf(o: Owners, a: Address): (r: set<string>)
  {
    if a in o then o[a] else {}
  }

  function Destinations(f: Forward): (r: set<Address>)
  {
    set peer, a | peer in f && a in f[peer] :: a
  }

  predicate NoEmptyOwners(o: Owners)
  {
    forall a :: a in o ==> o[a] != {}
  }

  ghost predicate Inverse(f: Forward, o: Owners)
  {
    && NoEmptyOwners(o)
    && forall peer, a :: peer in OwnersOf(o, a) <==> a in AddressesOf(f, peer)
  }

  // ---- Changing one entry ----

  function RemoveOwner(o: Owners, peer: string, a: Address): (r: Owners)
  {
    if a !in o then o
    else if o[a] - {peer} == {} then o - {a}
    else o[a := o[a] - {peer}]
  }

  function AddOwner(o: Owners, peer: string, a: Address): (r: Owners)
  {
    o[a := OwnersOf(o, a) + {peer}]
  }

  lemma RemoveStep(f: Forward, o: Owners, peer: string, a: Address)
    requires Inverse(f, o)
    ensures Inverse(f[peer := AddressesOf(f, peer) - {a}], RemoveOwner(o, peer, a))
  {
    var g, q := f[peer := AddressesOf(f, peer) - {a}], RemoveOwner(o, peer, a);
    forall p, b ensures p in OwnersOf(q, b) <==> b in AddressesOf(g, p) {
      assert p in OwnersOf(o, b) <==> b in AddressesOf(f, p);
    }
  }

  lemma AddStep(f: Forward, o: Owners, peer: string, a: Address)
    requires Inverse(f, o)
    ensures Inverse(f[peer := AddressesOf(f, peer) + {a}], AddOwner(o, peer, a))
  {
    var g, q := f[peer := AddressesOf(f, peer) + {a}], AddOwner(o, peer, a);
    forall p, b ensures p in OwnersOf(q, b) <==> b in AddressesOf(g, p) {
      assert p in OwnersOf(o, b) <==> b in AddressesOf(f, p);
    }
  }

  // ---- Facts about inverses ----

  // A Peer without addresses and an absent Peer have the same inverse.
  lemma SameInverse(f: Forward, g: Forward, o: Owners)
    requires Inverse(f, o) && forall peer :: AddressesOf(f, peer) == AddressesOf(g, peer)
    ensures Inverse(g, o)
  {
    forall p, b ensures p in OwnersOf(o, b) <==> b in AddressesOf(g, p) {
      assert p in OwnersOf(o, b) <==> b in AddressesOf(f, p);
    }
  }

  lemma InverseUnique(f: Forward, o: Owners, q: Owners)
    requires Inverse(f, o) && Inverse(f, q)
    ensures o == q
  {
    forall a ensures OwnersOf(o, a) == OwnersOf(q, a) {
      forall p ensures p in OwnersOf(o, a) <==> p in OwnersOf(q, a) {
        assert p in OwnersOf(o, a) <==> a in AddressesOf(f, p);
      }
    }
    forall a ensures a in o <==> a in q {
      assert OwnersOf(o, a) == OwnersOf(q, a);
    }
    forall a | a in o ensures o[a] == q[a] {
      assert OwnersOf(o, a) == OwnersOf(q, a);
    }
  }

  lemma InverseKeys(f: Forward, o: Owners)
    requires Inverse(f, o)
    ensures o.Keys == Destinations(f)
  {
    forall a ensures a in o.Keys <==> a in Destinations(f) {
      if a in o {
        var p :| p in o[a];
        assert p in OwnersOf(o, a) && a in AddressesOf(f, p);
      }
      if a in Destinations(f) {
        var p :| p in f && a in f[p];
        assert a in AddressesOf(f, p) && p in OwnersOf(o, a);
      }
    }
  }

  lemma OneElement<T>(s: set<T>, x: T)
    requires x in s
    ensures |s| == 1 <==> s == {x}
  {
    if |s| == 1 {
      assert |s - {x}| == 0;
      assert s == {x};
    }
  }

  /** Addresses of `previous` that no other Peer owns. */
  function OwnedAlone(o: Owners, peer: string, previous: set<Address>): (r: set<Address>)
  {
    set a | a in previous && a in o && |o[a]| == 1 && peer in o[a]
  }

  lemma NoneOwned(o: Owners, peer: string)
    ensures OwnedAlone(o, peer, {}) == {}
  {
  }

  lemma OwnedAloneStep(o: Owners, peer: string, done: set<Address>, a: Address)
    ensures OwnedAlone(o, peer, done + {a}) ==
            OwnedAlone(o, peer, done) + if a in o && |o[a]| == 1 && peer in o[a] then {a} else {}
  {
  }

  // The destinations projected before the change are the ones installed by it.
  lemma ProjectedIsInstalled(f: Forward, o: Owners, peer: string, aliases: set<Address>)
    requires Inverse(f, o)
    ensures o.Keys - OwnedAlone(o, peer, AddressesOf(f, peer)) + aliases == Destinations(f[peer := aliases])
  {
    var alone, g := OwnedAlone(o, peer, AddressesOf(f, peer)), f[peer := aliases];
    forall a ensures a in o.Keys - alone + aliases <==> a in Destinations(g) {
      if a in aliases {
        assert peer in g && a in g[peer];
      } else if a in o.Keys - alone {
        var p :| p in o[a] && p != peer by { OtherOwner(f, o, peer, a); }
        assert p in OwnersOf(o, a) && a in AddressesOf(f, p);
        assert p in g && a in g[p];
      } else if a in Destinations(g) {
        var p :| p in g && a in g[p];
        assert a in AddressesOf(f, p) && p in OwnersOf(o, a);
        OneElement(o[a], p);
      }
    }
  }

  lemma OtherOwner(f: Forward, o: Owners, peer: string, a: Address)
    requires Inverse(f, o) && a in o && a !in OwnedAlone(o, peer, AddressesOf(f, peer))
    ensures exists p :: p in o[a] && p != peer
  {
    if peer in o[a] {
      assert peer in OwnersOf(o, a) && a in AddressesOf(f, peer);
      OneElement(o[a], peer);
      assert o[a] != {peer};
    }
  }
}
