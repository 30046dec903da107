/**
Which Tunnels a Gateway admits (`scope.rs`): a partition read from files and one managed by the
Platform, with every Tunnel's issuer pinned at first sight.
*/
module Scopes {
  import opened Basics

  datatype Scope = Scope(version: nat, tunnel: string, issuer: string)

  /** `verify` on one Scope: its version, its identifier and its public key. */
  type Verifier = Scope -> bool

  type Partition = map<string, Scope>

  datatype StoreError =
    | InvalidScope
    | DuplicateTunnel(tunnel: string)
    | SourceConflict(tunnel: string)
    | IssuerReplacement(tunnel: string)

  /** `fixed` holds the Scopes read from files. */
  datatype Store = Store(fixed: Partition, managed: Partition, seen: map<string, string>)

  const EMPTY := Store(map[], map[], map[])

  // ---- Transitions on values ----

  /** The Scopes by Tunnel, if each verifies and none repeats. */
  function Collected(verify: Verifier, scopes: seq<Scope>): (r: Result<Partition, StoreError>)
  {
    if scopes == [] then Ok(map[]) else
      match Collected(verify, scopes[..|scopes| - 1])
      case Err(e) => Err(e)
      case Ok(before) =>
        var last := scopes[|scopes| - 1];
        if !verify(last) then Err(InvalidScope)
        else if last.tunnel in before then Err(DuplicateTunnel(last.tunnel))
        else Ok(before[last.tunnel := last])
  }

  /** No Tunnel of the candidate belongs to the other partition or changes its issuer. */
  predicate Admits(other: Partition, seen: map<string, string>, candidate: Partition)
  {
    forall t :: t in candidate ==> t !in other && (t in seen ==> seen[t] == candidate[t].issuer)
  }

  function Pinned(seen: map<string, string>, tunnels: set<string>, candidate: Partition): (r: map<string, string>)
    requires tunnels <= candidate.Keys
  {
    map t | t in seen.Keys + tunnels :: if t in seen then seen[t] else candidate[t].issuer
  }

  predicate Installable(verify: Verifier, other: Partition, seen: map<string, string>, scopes: seq<Scope>)
  {
    Collected(verify, scopes).Ok? && Admits(other, seen, Collected(verify, scopes).value)
  }

  function ReplaceManaged(verify: Verifier, s: Store, scopes: seq<Scope>): (r: Store)
  {
    if !Installable(verify, s.fixed, s.seen, scopes) then s else
      var candidate := Collected(verify, scopes).value;
      s.(managed := candidate, seen := Pinned(s.seen, candidate.Keys, candidate))
  }

  function ReloadFixed(verify: Verifier, s: Store, scopes: seq<Scope>): (r: Store)
  {
    if !Installable(verify, s.managed, s.seen, scopes) then s else
      var candidate := Collected(verify, scopes).value;
      s.(fixed := candidate, seen := Pinned(s.seen, candidate.Keys, candidate))
  }

  /** A candidate is refused for a Tunnel of the other partition, or for one that changes its issuer. */
  predicate Refuses(other: Partition, seen: map<string, string>, candidate: Partition, e: StoreError)
  {
    match e
    case SourceConflict(t) => t in candidate && t in other
    case IssuerReplacement(t) => t in candidate && t !in other && t in seen && seen[t] != candidate[t].issuer
    case _ => false
  }

  /** The error of a replacement that fails: that of the first bad Scope, or else a refusal. */
  predicate FailsWith(verify: Verifier, other: Partition, seen: map<string, string>, scopes: seq<Scope>, e: StoreError)
  {
    match Collected(verify, scopes)
    case Err(first) => e == first
    case Ok(candidate) => Refuses(other, seen, candidate, e)
  }

  // ---- What every run keeps ----

  predicate PartitionOk(p: Partition, seen: map<string, string>)
  {
    forall t :: t in p ==> p[t].tunnel == t && t in seen && seen[t] == p[t].issuer
  }

  predicate StoreOk(s: Store)
  {
    s.fixed.Keys !! s.managed.Keys && PartitionOk(s.fixed, s.seen) && PartitionOk(s.managed, s.seen)
  }

  lemma {:induction false} CollectedByTunnel(verify: Verifier, scopes: seq<Scope>)
    requires Collected(verify, scopes).Ok?
    ensures var p := Collected(verify, scopes).value;
            && (forall t :: t in p ==> p[t].tunnel == t)
            && (forall scope :: scope in scopes <==> scope.tunnel in p && p[scope.tunnel] == scope)
  {
    if scopes != [] {
      var before, last := scopes[..|scopes| - 1], scopes[|scopes| - 1];
      CollectedByTunnel(verify, before);
      assert scopes == before + [last];
    }
  }

  /** Scope `i` does not verify, or repeats an earlier Tunnel. */
  predicate Bad(verify: Verifier, scopes: seq<Scope>, i: nat)
    requires i < |scopes|
  {
    !verify(scopes[i]) || exists k :: 0 <= k < i && scopes[k].tunnel == scopes[i].tunnel
  }

  // A list is taken exactly when no Scope of it is bad, and otherwise the first bad one is reported.
  lemma {:induction false} CollectedExactly(verify: Verifier, scopes: seq<Scope>) returns (i: nat)
    ensures i <= |scopes| && forall j :: 0 <= j < i ==> !Bad(verify, scopes, j)
    ensures i == |scopes| ==> Collected(verify, scopes).Ok?
    ensures i < |scopes| ==>
              Bad(verify, scopes, i) &&
              Collected(verify, scopes) ==
              Err(if verify(scopes[i]) then DuplicateTunnel(scopes[i].tunnel) else InvalidScope)
  {
    hide Bad;
    i := 0;
    if scopes != [] {
      var n := |scopes| - 1;
      i := CollectedExactly(verify, scopes[..n]);
      forall j | 0 <= j < n ensures Bad(verify, scopes, j) <==> Bad(verify, scopes[..n], j) {
        SameBad(verify, scopes, n, j);
      }
      if i == n {
        LastBad(verify, scopes);
        if !Bad(verify, scopes, n) {
          i := n + 1;
        }
      }
    }
  }

  lemma SameBad(verify: Verifier, scopes: seq<Scope>, n: nat, j: nat)
    requires j < n <= |scopes|
    ensures Bad(verify, scopes, j) <==> Bad(verify, scopes[..n], j)
  {
    forall k | 0 <= k <= j ensures scopes[..n][k] == scopes[k] {}
  }

  lemma LastBad(verify: Verifier, scopes: seq<Scope>)
    requires scopes != [] && Collected(verify, scopes[..|scopes| - 1]).Ok?
    ensures var n := |scopes| - 1;
            Bad(verify, scopes, n) <==>
            !verify(scopes[n]) || scopes[n].tunnel in Collected(verify, scopes[..n]).value
  {
    hide Collected;
    var n := |scopes| - 1;
    LastRepeats(verify, scopes[..n], scopes[n]);
    forall k | 0 <= k < n ensures scopes[..n][k] == scopes[k] {}
  }

  lemma LastRepeats(verify: Verifier, before: seq<Scope>, last: Scope)
    requires Collected(verify, before).Ok?
    ensures last.tunnel in Collected(verify, before).value <==>
            exists k :: 0 <= k < |before| && before[k].tunnel == last.tunnel
  {
    hide Collected;
    CollectedByTunnel(verify, before);
    var p := Collected(verify, before).value;
    if last.tunnel in p {
      var k :| 0 <= k < |before| && before[k] == p[last.tunnel];
      assert before[k].tunnel == last.tunnel;
    }
    if k :| 0 <= k < |before| && before[k].tunnel == last.tunnel {
      assert before[k] in before;
    }
  }

  /** The candidate list verifies, names no Tunnel twice, and conflicts with neither the other partition nor a pin. */
  ghost predicate Acceptable(verify: Verifier, other: Partition, seen: map<string, string>, scopes: seq<Scope>)
  {
    && (forall j, k :: 0 <= j < k < |scopes| ==> scopes[j].tunnel != scopes[k].tunnel)
    && forall scope :: scope in scopes ==>
         && verify(scope) && scope.tunnel !in other
         && (scope.tunnel in seen ==> seen[scope.tunnel] == scope.issuer)
  }

  lemma InstallableExactly(verify: Verifier, other: Partition, seen: map<string, string>, scopes: seq<Scope>)
    ensures Installable(verify, other, seen, scopes) <==> Acceptable(verify, other, seen, scopes)
  {
    hide Collected;
    var i := CollectedExactly(verify, scopes);
    if i < |scopes| {
      assert scopes[i] in scopes;
    } else {
      forall j, k | 0 <= j < k < |scopes| ensures verify(scopes[j]) && scopes[j].tunnel != scopes[k].tunnel {
        assert !Bad(verify, scopes, j) && !Bad(verify, scopes, k);
      }
      assert forall j :: 0 <= j < |scopes| ==> !Bad(verify, scopes, j) && verify(scopes[j]);
      CollectedByTunnel(verify, scopes);
      var p := Collected(verify, scopes).value;
      if Acceptable(verify, other, seen, scopes) {
        forall t | t in p ensures t !in other && (t in seen ==> seen[t] == p[t].issuer) {
          assert p[t] in scopes;
        }
      }
    }
  }

  /** The partition holds exactly these Scopes, each under its Tunnel. */
  ghost predicate Holds(p: Partition, scopes: seq<Scope>)
  {
    && (forall t :: t in p ==> p[t] in scopes && p[t].tunnel == t)
    && forall scope :: scope in scopes ==> scope.tunnel in p && p[scope.tunnel] == scope
  }

  /** Old pins stay, and exactly the Tunnels of the list are pinned besides. */
  ghost predicate Pins(before: map<string, string>, now: map<string, string>, scopes: seq<Scope>)
  {
    && (forall t :: t in before ==> t in now && now[t] == before[t])
    && (forall scope :: scope in scopes ==> scope.tunnel in now && now[scope.tunnel] == scope.issuer)
    && forall t :: t in now && t !in before ==> exists scope :: scope in scopes && scope.tunnel == t
  }

  datatype Op = Managed(scopes: seq<Scope>) | Reload(scopes: seq<Scope>)

  function Step(verify: Verifier, s: Store, op: Op): (r: Store)
  {
    match op
    case Managed(scopes) => ReplaceManaged(verify, s, scopes)
    case Reload(scopes) => ReloadFixed(verify, s, scopes)
  }

  function After(verify: Verifier, log: seq<Op>): (r: Store)
  {
    if log == [] then EMPTY else Step(verify, After(verify, log[..|log| - 1]), log[|log| - 1])
  }

  lemma StepOk(verify: Verifier, s: Store, op: Op)
    requires StoreOk(s)
    ensures StoreOk(Step(verify, s, op))
    ensures forall t :: t in s.seen ==> t in Step(verify, s, op).seen && Step(verify, s, op).seen[t] == s.seen[t]
  {
    hide Collected;
    if Collected(verify, op.scopes).Ok? {
      CollectedByTunnel(verify, op.scopes);
    }
  }

  // A replacement that is accepted installs exactly the list in its own partition; one that is not changes nothing.
  lemma StepExactly(verify: Verifier, s: Store, op: Op)
    ensures var t := Step(verify, s, op);
            if Acceptable(verify, if op.Managed? then s.fixed else s.managed, s.seen, op.scopes) then
              && Holds(if op.Managed? then t.managed else t.fixed, op.scopes) && Pins(s.seen, t.seen, op.scopes)
              && (if op.Managed? then t.fixed == s.fixed else t.managed == s.managed)
            else t == s
  {
    hide Collected, Acceptable;
    InstallableExactly(verify, if op.Managed? then s.fixed else s.managed, s.seen, op.scopes);
    if Collected(verify, op.scopes).Ok? {
      CollectedByTunnel(verify, op.scopes);
    }
  }

  lemma {:induction false} AlwaysOk(verify: Verifier, log: seq<Op>)
    ensures StoreOk(After(verify, log))
  {
    if log != [] {
      AlwaysOk(verify, log[..|log| - 1]);
      StepOk(verify, After(verify, log[..|log| - 1]), log[|log| - 1]);
    }
  }

  /** The Scope a lookup finds. */
  function Get(s: Store, tunnel: string): (r: Option<Scope>)
  {
    if tunnel in s.fixed then Some(s.fixed[tunnel])
    else if tunnel in s.managed then Some(s.managed[tunnel]) else None
  }

  /** Operation `i` replaced the given partition. */
  ghost predicate Replaces(verify: Verifier, log: seq<Op>, i: nat, managed: bool)
  {
    i < |log| && log[i].Managed? == managed &&
    var s := After(verify, log[..i]);
    Acceptable(verify, if managed then s.fixed else s.managed, s.seen, log[i].scopes)
  }

  // Over every run: each partition holds exactly the list last accepted for it, and nothing before the first.
  lemma {:induction false} PartitionIsLastList(verify: Verifier, log: seq<Op>, managed: bool) returns (i: int)
    ensures var s := After(verify, log);
            var p := if managed then s.managed else s.fixed;
            if i < 0 then p == map[] && forall k :: 0 <= k < |log| ==> !Replaces(verify, log, k, managed)
            else
              && i < |log| && Replaces(verify, log, i, managed) && Holds(p, log[i].scopes)
              && forall k :: i < k < |log| ==> !Replaces(verify, log, k, managed)
  {
    hide Step, Acceptable, Holds;
    i := -1;
    if log != [] {
      var n := |log| - 1;
      i := PartitionIsLastList(verify, log[..n], managed);
      StepExactly(verify, After(verify, log[..n]), log[n]);
      forall k | 0 <= k < n ensures Replaces(verify, log, k, managed) <==> Replaces(verify, log[..n], k, managed) {
        assert log[..n][..k] == log[..k];
      }
      if Replaces(verify, log, n, managed) {
        i := n;
      }
    }
  }

  // A lookup finds exactly what one of the partitions holds.
  lemma GetExactly(s: Store, tunnel: string, scope: Scope)
    requires StoreOk(s)
    ensures Get(s, tunnel) == Some(scope) <==>
            (tunnel in s.fixed && s.fixed[tunnel] == scope) || (tunnel in s.managed && s.managed[tunnel] == scope)
  {
    if tunnel in s.fixed { assert tunnel in s.fixed.Keys && tunnel !in s.managed.Keys; }
  }

  // Once a Tunnel has been admitted, no later state of any run admits it under another issuer,
  // whatever was removed or moved between the partitions meanwhile.
  lemma IssuerNeverReplaced(verify: Verifier, log: seq<Op>, i: nat, j: nat, tunnel: string)
    requires i <= j <= |log|
    requires Get(After(verify, log[..i]), tunnel).Some? && Get(After(verify, log[..j]), tunnel).Some?
    ensures Get(After(verify, log[..i]), tunnel).value.issuer == Get(After(verify, log[..j]), tunnel).value.issuer
  {
    hide After;
    AlwaysOk(verify, log[..i]);
    AlwaysOk(verify, log[..j]);
    StaysPinned(verify, log, i, j, tunnel);
  }

  lemma {:induction false} StaysPinned(verify: Verifier, log: seq<Op>, i: nat, j: nat, tunnel: string)
    requires i <= j <= |log| && tunnel in After(verify, log[..i]).seen
    ensures tunnel in After(verify, log[..j]).seen &&
            After(verify, log[..j]).seen[tunnel] == After(verify, log[..i]).seen[tunnel]
    decreases j
  {
    hide Step;
    if i < j {
      StaysPinned(verify, log, i, j - 1, tunnel);
      assert log[..j][..j - 1] == log[..j - 1];
      AlwaysOk(verify, log[..j - 1]);
      StepOk(verify, After(verify, log[..j - 1]), log[j - 1]);
    }
  }

  // ---- The store object ----

  class ScopeStore {
    var fixed: Partition
    var managed: Partition
    var seenIssuers: map<string, string>

    ghost function State(): (s: Store)
      reads this
    {
      Store(fixed, managed, seenIssuers)
    }

    ghost predicate Valid()
      reads this
    {
      StoreOk(State())
    }

    constructor ()
      ensures Valid() && State() == EMPTY
    {
      fixed, managed, seenIssuers := map[], map[], map[];
    }

    method ReplaceManagedSnapshot(verify: Verifier, scopes: seq<Scope>) returns (r: Result<seq<string>, StoreError>)
      requires Valid()
      modifies this
      ensures Valid() && State() == ReplaceManaged(verify, old(State()), scopes)
      ensures r.Ok? <==> Installable(verify, old(fixed), old(seenIssuers), scopes)
      ensures r.Ok? ==> r.value == SortedIds(old(managed).Keys - managed.Keys)
      ensures r.Err? ==> FailsWith(verify, old(fixed), old(seenIssuers), scopes, r.error)
    {
      hide SortedIds, LexLe, Collected, Pinned, StoreOk;
      StepOk(verify, State(), Managed(scopes));
      var collected := CollectScopes(verify, scopes);
      if collected.Err? {
        return Err(collected.error);
      }
      var candidate := collected.value;
      var refusal := Refusal(fixed, candidate);
      if refusal.Some? {
        return Err(refusal.value);
      }
      var removed := SortedIds(managed.Keys - candidate.Keys);
      PinIssuers(candidate);
      managed := candidate;
      r := Ok(removed);
    }

    method ReloadStatic(verify: Verifier, files: seq<Scope>) returns (r: Result<seq<string>, StoreError>)
      requires Valid()
      modifies this
      ensures Valid() && State() == ReloadFixed(verify, old(State()), files)
      ensures r.Ok? <==> Installable(verify, old(managed), old(seenIssuers), files)
      ensures r.Ok? ==> r.value == SortedIds(old(fixed).Keys - fixed.Keys)
      ensures r.Err? ==> FailsWith(verify, old(managed), old(seenIssuers), files, r.error)
    {
      hide SortedIds, LexLe, Collected, Pinned, StoreOk;
      StepOk(verify, State(), Reload(files));
      var collected := CollectScopes(verify, files);
      if collected.Err? {
        return Err(collected.error);
      }
      var candidate := collected.value;
      var refusal := Refusal(managed, candidate);
      if refusal.Some? {
        return Err(refusal.value);
      }
      var removed := SortedIds(fixed.Keys - candidate.Keys);
      PinIssuers(candidate);
      fixed := candidate;
      r := Ok(removed);
    }

    // The candidates are visited in whatever order the map yields them.
    method Refusal(other: Partition, candidate: Partition) returns (r: Option<StoreError>)
      ensures r.None? <==> Admits(other, seenIssuers, candidate)
      ensures r.Some? ==> Refuses(other, seenIssuers, candidate, r.value)
    {
      var rest := candidate.Keys;
      r := None;
      while rest != {}
        invariant rest <= candidate.Keys
        invariant forall t :: t in candidate && t !in rest ==>
                    t !in other && (t in seenIssuers ==> seenIssuers[t] == candidate[t].issuer)
        decreases rest
      {
        var t :| t in rest;
        if t in other {
          return Some(SourceConflict(t));
        }
        if t in seenIssuers && seenIssuers[t] != candidate[t].issuer {
          return Some(IssuerReplacement(t));
        }
        rest := rest - {t};
      }
    }

    method PinIssuers(candidate: Partition)
      modifies `seenIssuers
      ensures seenIssuers == Pinned(old(seenIssuers), candidate.Keys, candidate)
    {
      ghost var start := seenIssuers;
      var rest := candidate.Keys;
      ghost var done: set<string> := {};
      while rest != {}
        invariant rest !! done && rest + done == candidate.Keys
        invariant seenIssuers == Pinned(start, done, candidate)
        decreases rest
      {
        var t :| t in rest;
        if t !in seenIssuers {
          seenIssuers := seenIssuers[t := candidate[t].issuer];
        }
        rest, done := rest - {t}, done + {t};
      }
      assert done == candidate.Keys;
    }
  }

  method CollectScopes(verify: Verifier, scopes: seq<Scope>) returns (r: Result<Partition, StoreError>)
    ensures r == Collected(verify, scopes)
  {
    var candidate: Partition := map[];
    for i := 0 to |scopes|
      invariant Collected(verify, scopes[..i]) == Ok(candidate)
    {
      assert scopes[..i + 1][..i] == scopes[..i];
      var scope := scopes[i];
      if !verify(scope) {
        CollectedStops(verify, scopes, i + 1);
        return Err(InvalidScope);
      }
      if scope.tunnel in candidate {
        CollectedStops(verify, scopes, i + 1);
        return Err(DuplicateTunnel(scope.tunnel));
      }
      candidate := candidate[scope.tunnel := scope];
    }
    assert scopes[..|scopes|] == scopes;
    r := Ok(candidate);
  }

  // The first error stays.
  lemma {:induction false} CollectedStops(verify: Verifier, scopes: seq<Scope>, i: nat)
    requires i <= |scopes| && Collected(verify, scopes[..i]).Err?
    ensures Collected(verify, scopes) == Collected(verify, scopes[..i])
    decreases |scopes| - i
  {
    if i < |scopes| {
      assert scopes[..i + 1][..i] == scopes[..i];
      CollectedStops(verify, scopes, i + 1);
    } else {
      assert scopes[..i] == scopes;
    }
  }
}
