/** Replica identifiers (`p2p/replica.rs`): `<tunnel>-<8 characters>-<index>`. */
module Replica {
  import opened Basics
  import opened Decimal

  const USIZE_LIMIT: nat := 0x1_0000_0000_0000_0000

  datatype ReplicaParts = ReplicaParts(family: string, random: string, index: nat)

  /** The parts around the last dash (`rsplit_once('-')`). */
  function SplitLastDash(s: string): (r: Option<(string, string)>)
    ensures r.Some? ==> s == r.value.0 + "-" + r.value.1 && '-' !in r.value.1
    ensures r.None? <==> '-' !in s
  {
    if s == "" then None
    else if s[|s| - 1] == '-' then Some((s[..|s| - 1], ""))
    else
      assert s == s[..|s| - 1] + [s[|s| - 1]];
      match SplitLastDash(s[..|s| - 1])
      case None => None
      case Some((head, tail)) => Some((head, tail + [s[|s| - 1]]))
  }

  predicate IsAlphanumeric(c: char)
  {
    IsDigit(c) || 'a' <= c <= 'z' || 'A' <= c <= 'Z'
  }

  predicate IsReplicaIndex(s: string)
  {
    s == "0" || (s != "" && s[0] != '0' && AllDigits(s))
  }

  function Parse(id: string): (r: Option<ReplicaParts>)
  {
    match SplitLastDash(id)
    case None => None
    case Some((family, index)) =>
      match SplitLastDash(family)
      case None => None
      case Some((_, random)) =>
        if |random| == 8 && (forall i :: 0 <= i < |random| ==> IsAlphanumeric(random[i])) && IsReplicaIndex(index)
           && Value(index) < USIZE_LIMIT
        then Some(ReplicaParts(family, random, Value(index)))
        else None
  }

  function ReplicaIndex(id: string): (r: Option<nat>)
  {
    match Parse(id)
    case None => None
    case Some(parts) => Some(parts.index)
  }

  /** The family's random part, when the identifier belongs to the Tunnel (`replica_seed_for_tunnel`). */
  function SeedForTunnel(tunnel: string, id: string): (r: Option<string>)
  {
    match Parse(id)
    case None => None
    case Some(parts) => if parts.family == tunnel + "-" + parts.random then Some(parts.random) else None
  }

  /** The stable identity of a family: its first Replica. An identifier of another form stands for itself. */
  function FamilyId(id: string): (r: string)
  {
    match Parse(id)
    case None => id
    case Some(parts) => parts.family + "-0"
  }

  lemma {:induction false} SplitUnique(s: string, head: string, tail: string)
    requires s == head + "-" + tail && '-' !in tail
    ensures SplitLastDash(s) == Some((head, tail))
  {
    if tail == "" {
      assert s[..|s| - 1] == head;
    } else {
      var shorter := tail[..|tail| - 1];
      assert s[..|s| - 1] == head + "-" + shorter;
      assert tail == shorter + [tail[|tail| - 1]];
      SplitUnique(s[..|s| - 1], head, shorter);
    }
  }

  // ---- The form of an identifier ----

  /** `<prefix>-<8 letters or digits>-<number without leading zeros>`, the number below 2^64. */
  predicate Spells(id: string, prefix: string, random: string, index: nat)
  {
    && id == prefix + "-" + random + "-" + Print(index) && index < 0x1_0000_0000_0000_0000
    && |random| == 8 && forall i :: 0 <= i < 8 ==> IsAlphanumeric(random[i])
  }

  lemma PrintIsIndex(n: nat)
    ensures IsReplicaIndex(Print(n)) && Value(Print(n)) == n && '-' !in Print(n)
  {
    PrintValue(n);
    PrintHasNoLeadingZero(n);
  }

  lemma IndexIsPrinted(s: string)
    requires IsReplicaIndex(s)
    ensures s == Print(Value(s))
  {
    var zeros := DigitsSpelled(s);
  }

  // Parsing accepts exactly the identifiers of that form, and gives back their parts.
  lemma ParseExactly(id: string, prefix: string, random: string, index: nat)
    ensures Spells(id, prefix, random, index) <==>
            Parse(id) == Some(ReplicaParts(prefix + "-" + random, random, index)) && |random| == 8
  {
    hide SplitLastDash, Value, Print, IsReplicaIndex, IsAlphanumeric;
    var family := prefix + "-" + random;
    if Spells(id, prefix, random, index) {
      PrintIsIndex(index);
      SplitUnique(id, family, Print(index));
      NoDashInside(random);
      SplitUnique(family, prefix, random);
    }
    if Parse(id) == Some(ReplicaParts(family, random, index)) {
      var (_, tail) := SplitLastDash(id).value;
      IndexIsPrinted(tail);
      assert id == family + "-" + Print(index);
    }
  }

  lemma NoDashInside(random: string)
    requires forall i :: 0 <= i < |random| ==> IsAlphanumeric(random[i])
    ensures '-' !in random
  {
  }

  lemma ParsedIsSpelled(id: string) returns (prefix: string)
    requires Parse(id).Some?
    ensures var parts := Parse(id).value;
            parts.family == prefix + "-" + parts.random && Spells(id, prefix, parts.random, parts.index)
  {
    hide SplitLastDash, Value, Print, IsReplicaIndex, IsAlphanumeric;
    var parts := Parse(id).value;
    prefix := SplitLastDash(parts.family).value.0;
    ParseExactly(id, prefix, parts.random, parts.index);
  }

  // Every Replica stands for the first of its family, and text of another form for itself.
  lemma FamilyIdExactly(id: string, prefix: string, random: string, index: nat)
    ensures Spells(id, prefix, random, index) ==> FamilyId(id) == prefix + "-" + random + "-0"
    ensures (forall p, r, n :: !Spells(id, p, r, n)) ==> FamilyId(id) == id
  {
    hide Parse, Spells;
    ParseExactly(id, prefix, random, index);
    if Parse(id).Some? {
      var p := ParsedIsSpelled(id);
    }
  }

  // A seed exists exactly for identifiers that begin with the Tunnel, and is their random part.
  lemma SeedExactly(tunnel: string, id: string, seed: string)
    ensures SeedForTunnel(tunnel, id) == Some(seed) <==> exists index :: Spells(id, tunnel, seed, index)
  {
    hide Parse, Spells;
    if SeedForTunnel(tunnel, id) == Some(seed) {
      var index := Parse(id).value.index;
      var prefix := ParsedIsSpelled(id);
      SamePrefix(prefix, tunnel, seed);
      assert Spells(id, tunnel, seed, index);
    }
    forall index | Spells(id, tunnel, seed, index) ensures SeedForTunnel(tunnel, id) == Some(seed) {
      ParseExactly(id, tunnel, seed, index);
    }
  }

  lemma SamePrefix(x: string, y: string, random: string)
    requires x + "-" + random == y + "-" + random
    ensures x == y
  {
    assert |x| == |y|;
    assert x == (x + "-" + random)[..|x|] && y == (y + "-" + random)[..|y|];
  }

  lemma SecondReplica()
    ensures FamilyId("mesh-AbC12345-1") == "mesh-AbC12345-0"
  {
    hide FamilyId;
    assert Print(1) == "1";
    assert "mesh-AbC12345-1" == "mesh" + "-" + "AbC12345" + "-" + "1";
    FamilyIdExactly("mesh-AbC12345-1", "mesh", "AbC12345", 1);
    assert "mesh" + "-" + "AbC12345" + "-0" == "mesh-AbC12345-0";
  }

  // Every Replica of one family in a Tunnel has the same seed, which with the Tunnel gives back the family.
  lemma SeedIsOfTheFamily(tunnel: string, id: string)
    ensures SeedForTunnel(tunnel, id).Some? ==>
              FamilyId(id) == tunnel + "-" + SeedForTunnel(tunnel, id).value + "-0" &&
              SeedForTunnel(tunnel, FamilyId(id)) == SeedForTunnel(tunnel, id)
  {
    if SeedForTunnel(tunnel, id).Some? {
      var parts := Parse(id).value;
      SplitUnique(parts.family + "-0", parts.family, "0");
      assert Value("0") == 0 by { assert "0"[..0] == ""; }
    }
  }

  // Every Replica of a family names the same Peer, and that name is its own family.
  lemma FamilyIdStable(id: string)
    ensures FamilyId(FamilyId(id)) == FamilyId(id)
  {
    if Parse(id).Some? {
      var family := Parse(id).value.family;
      SplitUnique(family + "-0", family, "0");
      assert Value("0") == 0 by { assert "0"[..0] == ""; }
    }
  }
}
