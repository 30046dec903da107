/**
The Gateway's control session with the Platform (`gateway_control.rs`): its phases, and the rule
that a Scope digest is shown only after everything it stands for has been done.
*/
module GatewayControl {
  import opened Basics
  import opened Scopes

  const CONTROL_VERSION: nat := 2
  const PROVISIONING_VERSION: nat := 2

  datatype Quota = Quota(period: string, quotaBytes: nat, remainingBytes: nat)

  datatype Item = Item(tunnel: string, issuer: string, quota: Option<Quota>)

  /** A frame from the Platform. Text that is too long or does not parse is `Unreadable`. */
  datatype Frame =
    | Unreadable
    | Challenge(version: nat, nonce: string)
    | ScopeSnapshot(version: nat, digest: string, items: seq<Item>)
    | UsageAck(version: nat, throughSeq: nat)

  /** What the session is given: its own reference, and the library functions it calls. */
  datatype Identity = Identity(
    gatewayRef: string,
    verify: Verifier,
    canonicalId: string -> bool,                  // a lowercase hyphenated UUID
    digestOf: (string, seq<Scope>) -> string,     // SHA-256 over the canonical Scopes
    sign: string -> Option<string>)               // the answer to a challenge, if its nonce is well formed

  datatype Phase = AwaitingChallenge | AwaitingSnapshot | Active

  datatype Session = Session(phase: Phase, digest: Option<string>)

  const FRESH := Session(AwaitingChallenge, None)

  datatype Action =
    | Authenticate(signature: string)
    | Applied(digest: string, removed: seq<string>, quotas: seq<(string, Quota)>)
    | Acknowledge(throughSeq: nat)

  // ---- Snapshots ----

  predicate IsSha256(digest: string)
  {
    |digest| == 64 && forall i :: 0 <= i < |digest| ==> '0' <= digest[i] <= '9' || 'a' <= digest[i] <= 'f'
  }

  predicate Before(a: string, b: string)
  {
    LexLe(a, b) && a != b
  }

  predicate NeighboursSorted(items: seq<Item>)
  {
    forall i :: 0 <= i < |items| - 1 ==> Before(items[i].tunnel, items[i + 1].tunnel)
  }

  function ScopeOf(item: Item): (scope: Scope)
  {
    Scope(PROVISIONING_VERSION, item.tunnel, item.issuer)
  }

  function ScopesOf(items: seq<Item>): (scopes: seq<Scope>)
  {
    seq(|items|, i requires 0 <= i < |items| => ScopeOf(items[i]))
  }

  function QuotasOf(items: seq<Item>): (r: seq<(string, Quota)>)
  {
    if items == [] then [] else
      var before, last := QuotasOf(items[..|items| - 1]), items[|items| - 1];
      if last.quota.Some? then before + [(last.tunnel, last.quota.value)] else before
  }

  predicate ValidSnapshot(env: Identity, digest: string, items: seq<Item>)
  {
    && NeighboursSorted(items)
    && (forall i :: 0 <= i < |items| ==> env.canonicalId(items[i].tunnel) && env.verify(ScopeOf(items[i])))
    && env.digestOf(env.gatewayRef, ScopesOf(items)) == digest
  }

  method ValidateScopeSnapshot(env: Identity, digest: string, items: seq<Item>)
    returns (r: Option<(seq<Scope>, seq<(string, Quota)>)>)
    ensures r.Some? <==> ValidSnapshot(env, digest, items)
    ensures r.Some? ==> r.value == (ScopesOf(items), QuotasOf(items))
  {
    hide LexLe;
    if exists i :: 0 <= i < |items| - 1 && !Before(items[i].tunnel, items[i + 1].tunnel) {
      return None;
    }
    var candidate: seq<Scope> := [];
    var quotas: seq<(string, Quota)> := [];
    for i := 0 to |items|
      invariant candidate == ScopesOf(items[..i]) && quotas == QuotasOf(items[..i])
      invariant forall k :: 0 <= k < i ==> env.canonicalId(items[k].tunnel) && env.verify(ScopeOf(items[k]))
    {
      var item := items[i];
      assert items[..i + 1][..i] == items[..i];
      if !env.canonicalId(item.tunnel) {
        return None;
      }
      if item.quota.Some? {
        quotas := quotas + [(item.tunnel, item.quota.value)];
      }
      if !env.verify(ScopeOf(item)) {
        return None;
      }
      candidate := candidate + [ScopeOf(item)];
      assert candidate == ScopesOf(items[..i + 1]);
    }
    assert items[..|items|] == items;
    if env.digestOf(env.gatewayRef, candidate) != digest {
      return None;
    }
    r := Some((candidate, quotas));
  }

  // ---- One frame ----

  /** The session, the store and the action after a frame, or nothing when the frame is rejected. */
  function Handled(env: Identity, s: Session, store: Store, frame: Frame): (r: Option<(Session, Store, Action)>)
  {
    match frame
    case Unreadable => None
    case Challenge(version, nonce) =>
      if version != CONTROL_VERSION || s.phase != AwaitingChallenge || env.sign(nonce).None? then None
      else Some((s.(phase := AwaitingSnapshot), store, Authenticate(env.sign(nonce).value)))
    case ScopeSnapshot(version, digest, items) =>
      if version != CONTROL_VERSION || s.phase == AwaitingChallenge || !IsSha256(digest)
         || !ValidSnapshot(env, digest, items) || !Installable(env.verify, store.fixed, store.seen, ScopesOf(items))
      then None
      else
        var next := ReplaceManaged(env.verify, store, ScopesOf(items));
        Some((Session(Active, Some(digest)), next,
              Applied(digest, SortedIds(store.managed.Keys - next.managed.Keys), QuotasOf(items))))
    case UsageAck(version, throughSeq) =>
      if version != CONTROL_VERSION || s.phase == AwaitingChallenge then None
      else Some((s, store, Acknowledge(throughSeq)))
  }

  datatype ControlError = Rejected

  class GatewayControlSession {
    const env: Identity
    const scopes: ScopeStore
    var phase: Phase
    var appliedScopeDigest: Option<string>

    ghost function State(): (s: Session)
      reads this
    {
      Session(phase, appliedScopeDigest)
    }

    constructor (env: Identity, scopes: ScopeStore)
      ensures this.env == env && this.scopes == scopes && State() == FRESH
    {
      this.env, this.scopes := env, scopes;
      phase, appliedScopeDigest := AwaitingChallenge, None;
    }

    // A rejected frame changes neither the session nor the store.
    method HandleFrame(frame: Frame) returns (r: Result<Action, ControlError>)
      requires scopes.Valid()
      modifies this, scopes
      ensures scopes.Valid()
      ensures match Handled(env, old(State()), old(scopes.State()), frame)
              case Some((session, store, action)) => r == Ok(action) && State() == session && scopes.State() == store
              case None => r.Err? && State() == old(State()) && scopes.State() == old(scopes.State())
    {
      hide SortedIds, LexLe, Collected, Admits, Pinned, StoreOk, ValidSnapshot, ScopesOf, QuotasOf;
      match frame {
        case Unreadable =>
          return Err(Rejected);
        case Challenge(version, nonce) =>
          if version != CONTROL_VERSION || phase != AwaitingChallenge {
            return Err(Rejected);
          }
          var signature := env.sign(nonce);
          if signature.None? {
            return Err(Rejected);
          }
          phase := AwaitingSnapshot;
          return Ok(Authenticate(signature.value));
        case ScopeSnapshot(version, digest, items) =>
          if version != CONTROL_VERSION || phase == AwaitingChallenge || !IsSha256(digest) {
            return Err(Rejected);
          }
          var validated := ValidateScopeSnapshot(env, digest, items);
          if validated.None? {
            return Err(Rejected);
          }
          var replaced := scopes.ReplaceManagedSnapshot(env.verify, validated.value.0);
          if replaced.Err? {
            return Err(Rejected);
          }
          appliedScopeDigest := Some(digest);
          phase := Active;
          return Ok(Applied(digest, replaced.value, validated.value.1));
        case UsageAck(version, throughSeq) =>
          if version != CONTROL_VERSION || phase == AwaitingChallenge {
            return Err(Rejected);
          }
          return Ok(Acknowledge(throughSeq));
      }
    }
  }

  // ---- Whole connections ----

  /** What the rest of the world can see, in order. */
  datatype Effect =
    | Connected
    | Authenticated
    | SnapshotApplied(digest: string, removed: seq<string>, quotas: seq<(string, Quota)>)
    | Disconnected(tunnel: string)
    | QuotaApplied(tunnel: string, quota: Quota)
    | UsageFlushed
    | UsageAcknowledged
    | StateShown(digest: string)

  datatype World = World(open: bool, session: Session, store: Store, trace: seq<Effect>)

  /**
  `flushed` says whether flushing the usage log succeeds, `ok` whether the acknowledgement or the
  frame sent does. If one does not, the connection ends. It can also be lost at any other moment.
  */
  datatype Event =
    | Connect
    | Lost
    | Receive(frame: Frame, flushed: bool, ok: bool)
    | Tick(flushed: bool, ok: bool)
    | ReloadFiles(files: seq<Scope>)

  function Disconnects(removed: seq<string>): (r: seq<Effect>)
  {
    if removed == [] then [] else Disconnects(removed[..|removed| - 1]) + [Disconnected(removed[|removed| - 1])]
  }

  function Budgets(quotas: seq<(string, Quota)>): (r: seq<Effect>)
  {
    if quotas == [] then [] else
      Budgets(quotas[..|quotas| - 1]) + [QuotaApplied(quotas[|quotas| - 1].0, quotas[|quotas| - 1].1)]
  }

  function Elements<T>(s: seq<T>): (r: set<T>)
  {
    set x | x in s
  }

  /** The local side effects that an applied snapshot calls for, in order. */
  function Prepared(removed: seq<string>, quotas: seq<(string, Quota)>, flushed: bool): (r: seq<Effect>)
  {
    Disconnects(removed) + Budgets(quotas) + if flushed then [UsageFlushed] else []
  }

  // The loops of `prepare_applied_snapshot` perform exactly those; without the flush there is no state to show.
  method PrepareAppliedSnapshot(start: seq<Effect>, removed: seq<string>, quotas: seq<(string, Quota)>, flushed: bool)
    returns (trace: seq<Effect>, ready: bool)
    ensures trace == start + Prepared(removed, quotas, flushed) && ready == flushed
  {
    trace := start;
    for i := 0 to |removed|
      invariant trace == start + Disconnects(removed[..i])
    {
      assert removed[..i + 1][..i] == removed[..i];
      trace := trace + [Disconnected(removed[i])];
    }
    assert removed[..|removed|] == removed;
    ghost var disconnected := trace;
    for i := 0 to |quotas|
      invariant trace == disconnected + Budgets(quotas[..i])
    {
      assert quotas[..i + 1][..i] == quotas[..i];
      trace := trace + [QuotaApplied(quotas[i].0, quotas[i].1)];
    }
    assert quotas[..|quotas|] == quotas;
    ready := flushed;
    if flushed {
      trace := trace + [UsageFlushed];
    }
  }

  /** The effects of an accepted frame, in the order in which the connection performs them. */
  function EffectsOf(action: Action, flushed: bool, ok: bool): (r: seq<Effect>)
  {
    match action
    case Authenticate(_) => if ok then [Authenticated] else []
    case Applied(digest, removed, quotas) =>
      [SnapshotApplied(digest, removed, quotas)] + Prepared(removed, quotas, flushed) +
      if flushed && ok then [StateShown(digest)] else []
    case Acknowledge(_) => if ok then [UsageAcknowledged] else []
  }

  predicate Survives(action: Action, flushed: bool, ok: bool)
  {
    ok && (action.Applied? ==> flushed)
  }

  function Next(env: Identity, w: World, e: Event): (r: World)
  {
    match e
    case Connect => World(true, FRESH, w.store, w.trace + [Connected])
    case Lost => w.(open := false)
    case ReloadFiles(files) => w.(store := ReloadFixed(env.verify, w.store, files))
    case Receive(frame, flushed, ok) =>
      if !w.open then w else
        (match Handled(env, w.session, w.store, frame)
         case None => w.(open := false)
         case Some((session, store, action)) =>
           World(Survives(action, flushed, ok), session, store, w.trace + EffectsOf(action, flushed, ok)))
    case Tick(flushed, ok) =>
      if !w.open || w.session.digest.None? then w
      else if !ok then w.(open := false)
      else
        var shown := w.trace + [StateShown(w.session.digest.value)];
        w.(open := flushed, trace := if flushed then shown + [UsageFlushed] else shown)
  }

  function After(env: Identity, log: seq<Event>): (r: World)
  {
    if log == [] then World(false, FRESH, Scopes.EMPTY, [])
    else Next(env, After(env, log[..|log| - 1]), log[|log| - 1])
  }

  // ---- The order of effects ----

  /** What a bystander remembers: what is still owed for the snapshot last applied. */
  datatype Monitor = Monitor(
    authenticated: bool, digest: Option<string>, disconnects: set<string>, quotas: set<(string, Quota)>, flushed: bool)

  /** The rules of the protocol, for a bystander. */
  predicate Allowed(m: Monitor, e: Effect)
  {
    match e
    case Connected => m.disconnects == {} && m.quotas == {}
    case Authenticated => !m.authenticated
    case SnapshotApplied(_, _, _) => m.authenticated && m.disconnects == {} && m.quotas == {}
    case Disconnected(_) => m.authenticated
    case QuotaApplied(_, _) => m.authenticated
    case UsageFlushed => m.authenticated && m.disconnects == {} && m.quotas == {}
    case UsageAcknowledged => m.authenticated
    case StateShown(digest) => m == Monitor(true, Some(digest), {}, {}, true)
  }

  function Observe(m: Monitor, e: Effect): (r: Monitor)
  {
    match e
    case Connected => m.(authenticated := false, digest := None)
    case Authenticated => m.(authenticated := true)
    case SnapshotApplied(digest, removed, quotas) =>
      m.(digest := Some(digest), disconnects := Elements(removed), quotas := Elements(quotas), flushed := false)
    case Disconnected(tunnel) => m.(disconnects := m.disconnects - {tunnel})
    case QuotaApplied(tunnel, quota) => m.(quotas := m.quotas - {(tunnel, quota)})
    case UsageFlushed => m.(flushed := true)
    case UsageAcknowledged => m
    case StateShown(_) => m
  }

  function Watched(trace: seq<Effect>): (m: Monitor)
  {
    if trace == [] then Monitor(false, None, {}, {}, false)
    else Observe(Watched(trace[..|trace| - 1]), trace[|trace| - 1])
  }

  predicate Orderly(trace: seq<Effect>)
  {
    trace == [] || (Orderly(trace[..|trace| - 1]) && Allowed(Watched(trace[..|trace| - 1]), trace[|trace| - 1]))
  }

  lemma OneMore(trace: seq<Effect>, e: Effect)
    ensures Watched(trace + [e]) == Observe(Watched(trace), e)
    ensures Orderly(trace + [e]) <==> Orderly(trace) && Allowed(Watched(trace), e)
  {
    assert (trace + [e])[..|trace|] == trace;
  }

  lemma {:induction false} DisconnectsDone(trace: seq<Effect>, removed: seq<string>)
    requires Orderly(trace) && Watched(trace).authenticated
    ensures var t := trace + Disconnects(removed);
            Orderly(t) && Watched(t) == Watched(trace).(disconnects := Watched(trace).disconnects - Elements(removed))
  {
    hide Orderly, Watched;
    var owed := Watched(trace).disconnects;
    if removed == [] {
      assert trace + Disconnects(removed) == trace && owed - Elements(removed) == owed;
    } else {
      var before, last := removed[..|removed| - 1], removed[|removed| - 1];
      assert removed == before + [last];
      DisconnectsDone(trace, before);
      OneMore(trace + Disconnects(before), Disconnected(last));
      assert trace + Disconnects(removed) == trace + Disconnects(before) + [Disconnected(last)];
      assert owed - Elements(removed) == owed - Elements(before) - {last};
    }
  }

  lemma {:induction false} BudgetsDone(trace: seq<Effect>, quotas: seq<(string, Quota)>)
    requires Orderly(trace) && Watched(trace).authenticated
    ensures var t := trace + Budgets(quotas);
            Orderly(t) && Watched(t) == Watched(trace).(quotas := Watched(trace).quotas - Elements(quotas))
  {
    hide Orderly, Watched;
    var owed := Watched(trace).quotas;
    if quotas == [] {
      assert trace + Budgets(quotas) == trace && owed - Elements(quotas) == owed;
    } else {
      var before, last := quotas[..|quotas| - 1], quotas[|quotas| - 1];
      assert quotas == before + [last];
      BudgetsDone(trace, before);
      OneMore(trace + Budgets(before), QuotaApplied(last.0, last.1));
      assert trace + Budgets(quotas) == trace + Budgets(before) + [QuotaApplied(last.0, last.1)];
      assert owed - Elements(quotas) == owed - Elements(before) - {last};
    }
  }

  // Applying a snapshot settles everything it owes before anything is shown.
  lemma AppliedSettles(trace: seq<Effect>, digest: string, removed: seq<string>, quotas: seq<(string, Quota)>)
    requires Orderly(trace) && Watched(trace).authenticated &&
             Watched(trace).disconnects == {} && Watched(trace).quotas == {}
    ensures var t := trace + [SnapshotApplied(digest, removed, quotas)] + Disconnects(removed) + Budgets(quotas);
            Orderly(t) && Watched(t) == Monitor(true, Some(digest), {}, {}, false)
  {
    hide Orderly, Watched;
    OneMore(trace, SnapshotApplied(digest, removed, quotas));
    var applied := trace + [SnapshotApplied(digest, removed, quotas)];
    DisconnectsDone(applied, removed);
    assert Elements(removed) - Elements(removed) == {};
    BudgetsDone(applied + Disconnects(removed), quotas);
    assert Elements(quotas) - Elements(quotas) == {};
  }

  /** What holds between events. */
  ghost predicate WorldOk(env: Identity, w: World)
  {
    && Orderly(w.trace) && Watched(w.trace).disconnects == {} && Watched(w.trace).quotas == {}
    && (w.open ==> Watched(w.trace).authenticated == (w.session.phase != AwaitingChallenge))
    && (w.open ==> Watched(w.trace).digest == w.session.digest)
    && (w.open && w.session.digest.Some? ==> Watched(w.trace).flushed)
    && (w.session.digest.Some? <==> w.session.phase == Active)
    && StoreOk(w.store)
    && (w.session.digest.Some? ==> env.digestOf(env.gatewayRef, Installed(w.store.managed)) == w.session.digest.value)
  }

  /** The managed Scopes in the order of their Tunnels. */
  function Installed(managed: Partition): (r: seq<Scope>)
  {
    var ids := SortedIds(managed.Keys);
    seq(|ids|, i requires 0 <= i < |ids| => assert ids[i] in ids; managed[ids[i]])
  }

  lemma {:induction false} Transitive(items: seq<Item>, i: nat, j: nat)
    requires NeighboursSorted(items) && i < j < |items|
    ensures Before(items[i].tunnel, items[j].tunnel)
    decreases j
  {
    hide LexLe;
    assert Before(items[j - 1].tunnel, items[j].tunnel);
    if i < j - 1 {
      Transitive(items, i, j - 1);
      LexTransitive(items[i].tunnel, items[j - 1].tunnel, items[j].tunnel);
      if items[i].tunnel == items[j].tunnel {
        LexAntisymmetric(items[j - 1].tunnel, items[j].tunnel);
      }
    }
  }

  lemma {:induction false} SortedOnce(ids: seq<string>, other: seq<string>)
    requires forall i, j :: 0 <= i < j < |ids| ==> Before(ids[i], ids[j])
    requires forall i, j :: 0 <= i < j < |other| ==> Before(other[i], other[j])
    requires forall x :: x in ids <==> x in other
    ensures ids == other
  {
    hide LexLe;
    BothEmpty(ids, other);
    if ids != [] {
      FirstIsLeast(ids, other[0]);
      FirstIsLeast(other, ids[0]);
      LexAntisymmetric(ids[0], other[0]);
      forall x ensures x in ids[1..] <==> x in other[1..] {
        assert x in ids <==> x == ids[0] || x in ids[1..];
        assert x in other <==> x == other[0] || x in other[1..];
        assert ids[0] !in ids[1..] && other[0] !in other[1..];
      }
      SortedOnce(ids[1..], other[1..]);
      assert ids == [ids[0]] + ids[1..] && other == [other[0]] + other[1..];
    }
  }

  lemma BothEmpty(ids: seq<string>, other: seq<string>)
    requires forall x :: x in ids <==> x in other
    ensures ids == [] <==> other == []
  {
    if ids != [] { assert ids[0] in ids; }
    if other != [] { assert other[0] in other; }
  }

  lemma FirstIsLeast(ids: seq<string>, x: string)
    requires x in ids && forall i, j :: 0 <= i < j < |ids| ==> Before(ids[i], ids[j])
    ensures LexLe(ids[0], x)
  {
    hide LexLe;
    var i :| 0 <= i < |ids| && ids[i] == x;
    LexTotal(x, x);
  }

  // The installed Scopes are the snapshot's own list, so the digest that was checked is theirs.
  lemma InstalledIsSnapshot(verify: Verifier, items: seq<Item>)
    requires NeighboursSorted(items) && Collected(verify, ScopesOf(items)).Ok?
    ensures Installed(Collected(verify, ScopesOf(items)).value) == ScopesOf(items)
  {
    hide LexLe, SortedIds, Collected, NeighboursSorted;
    var scopes := ScopesOf(items);
    var p := Collected(verify, scopes).value;
    CollectedByTunnel(verify, scopes);
    var names := seq(|items|, i requires 0 <= i < |items| => items[i].tunnel);
    forall i, j | 0 <= i < j < |names| ensures Before(names[i], names[j]) {
      Transitive(items, i, j);
    }
    var ids := SortedIds(p.Keys);
    forall x ensures x in names <==> x in ids {
      if x in names {
        var i :| 0 <= i < |items| && items[i].tunnel == x;
        assert scopes[i] in scopes;
      }
      if x in ids {
        assert p[x] in scopes;
        var i :| 0 <= i < |scopes| && scopes[i] == p[x];
        assert names[i] == x;
      }
    }
    SortedOnce(names, ids);
    forall i | 0 <= i < |scopes| ensures Installed(p)[i] == scopes[i] {
      assert scopes[i] in scopes && ids[i] == names[i];
    }
  }

  // What a snapshot leaves behind when it has been applied, flushed and shown, or as far as it got.
  lemma AppliedEffects(trace: seq<Effect>, action: Action, flushed: bool, ok: bool)
    requires action.Applied? && Orderly(trace) && Watched(trace).authenticated
    requires Watched(trace).disconnects == {} && Watched(trace).quotas == {}
    ensures var t := trace + EffectsOf(action, flushed, ok);
            Orderly(t) && Watched(t) == Monitor(true, Some(action.digest), {}, {}, flushed)
  {
    hide Orderly, Watched, Disconnects, Budgets;
    AppliedSettles(trace, action.digest, action.removed, action.quotas);
    var applied, disconnects, budgets := [SnapshotApplied(action.digest, action.removed, action.quotas)],
                                         Disconnects(action.removed), Budgets(action.quotas);
    var flush, shown := if flushed then [UsageFlushed] else [],
                      if flushed && ok then [StateShown(action.digest)] else [];
    Regrouped(trace, applied, disconnects, budgets, flush, shown);
    var settled := trace + applied + disconnects + budgets;
    OneMore(settled, UsageFlushed);
    OneMore(settled + [UsageFlushed], StateShown(action.digest));
  }

  lemma Regrouped(t: seq<Effect>, x: seq<Effect>, d: seq<Effect>, b: seq<Effect>, u: seq<Effect>, s: seq<Effect>)
    ensures t + (x + (d + b + u) + s) == t + x + d + b + u + s
    ensures u == [] ==> t + x + d + b + u == t + x + d + b
    ensures s == [] ==> t + x + d + b + u + s == t + x + d + b + u
  {
  }

  // The digest of the snapshot is that of the Scopes it installs.
  lemma DigestInstalled(env: Identity, store: Store, digest: string, items: seq<Item>)
    requires ValidSnapshot(env, digest, items) && Installable(env.verify, store.fixed, store.seen, ScopesOf(items))
    ensures env.digestOf(env.gatewayRef,
                         Installed(ReplaceManaged(env.verify, store, ScopesOf(items)).managed)) == digest
  {
    hide Installed, Collected, Pinned, LexLe, NeighboursSorted;
    InstalledIsSnapshot(env.verify, items);
  }

  lemma SnapshotStep(env: Identity, w: World, e: Event)
    requires WorldOk(env, w) && w.open && e.Receive? && e.frame.ScopeSnapshot?
    ensures WorldOk(env, Next(env, w, e))
  {
    hide Orderly, Watched, StoreOk, Installed, SortedIds, LexLe, EffectsOf, ReplaceManaged, ValidSnapshot,
         Installable, ScopesOf, QuotasOf;
    var h := Handled(env, w.session, w.store, e.frame);
    if h.Some? {
      var (session, store, action) := h.value;
      StepOk(env.verify, w.store, Managed(ScopesOf(e.frame.items)));
      AppliedEffects(w.trace, action, e.flushed, e.ok);
      DigestInstalled(env, w.store, e.frame.digest, e.frame.items);
    }
  }

  lemma OtherStep(env: Identity, w: World, e: Event)
    requires WorldOk(env, w) && !(e.Receive? && e.frame.ScopeSnapshot?)
    ensures WorldOk(env, Next(env, w, e))
  {
    hide Orderly, Watched, StoreOk, Installed, Collected, SortedIds, LexLe, Pinned;
    match e
    case Connect => OneMore(w.trace, Connected);
    case Lost =>
    case ReloadFiles(files) =>
      StepOk(env.verify, w.store, Reload(files));
    case Receive(frame, flushed, ok) =>
      OneMore(w.trace, Authenticated);
      OneMore(w.trace, UsageAcknowledged);
      assert w.trace + [] == w.trace;
    case Tick(flushed, ok) =>
      if w.session.digest.Some? {
        var shown := StateShown(w.session.digest.value);
        OneMore(w.trace, shown);
        OneMore(w.trace + [shown], UsageFlushed);
      }
  }

  // Every run keeps the protocol: one authentication a connection, nothing before it, and a digest
  // shown only when every disconnect and budget of its snapshot is done and it is the digest of
  // the Scopes installed.
  lemma {:induction false} AlwaysOrderly(env: Identity, log: seq<Event>)
    ensures WorldOk(env, After(env, log))
    ensures Orderly(After(env, log).trace)
  {
    hide Next, Orderly, Watched, Installed;
    if log == [] {
      NothingYet();
    } else {
      var w, e := After(env, log[..|log| - 1]), log[|log| - 1];
      AlwaysOrderly(env, log[..|log| - 1]);
      if e.Receive? && e.frame.ScopeSnapshot? {
        if w.open {
          SnapshotStep(env, w, e);
        } else {
          assert Next(env, w, e) == w by { ClosedIgnores(env, w, e); }
        }
      } else {
        OtherStep(env, w, e);
      }
    }
  }

  lemma NothingYet()
    ensures Orderly([]) && Watched([]) == Monitor(false, None, {}, {}, false)
  {
  }

  lemma ClosedIgnores(env: Identity, w: World, e: Event)
    requires !w.open && e.Receive?
    ensures Next(env, w, e) == w
  {
  }

  lemma {:induction false} OrderlyUpTo(trace: seq<Effect>, k: nat)
    requires Orderly(trace) && k < |trace|
    ensures Allowed(Watched(trace[..k]), trace[k])
  {
    if k < |trace| - 1 {
      OrderlyUpTo(trace[..|trace| - 1], k);
      assert trace[..|trace| - 1][..k] == trace[..k];
    }
  }

  // Whenever a digest is shown, in any run, it is that of the last snapshot applied in this
  // connection, none of that snapshot's disconnects and budgets is outstanding, and usage was flushed since.
  lemma ShownIsSettled(env: Identity, log: seq<Event>, k: nat)
    requires k < |After(env, log).trace| && After(env, log).trace[k].StateShown?
    ensures var trace := After(env, log).trace;
            Watched(trace[..k]) == Monitor(true, Some(trace[k].digest), {}, {}, true)
  {
    hide After, Watched, Orderly, WorldOk;
    AlwaysOrderly(env, log);
    OrderlyUpTo(After(env, log).trace, k);
  }
}
