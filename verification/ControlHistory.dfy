/**
Whole connections of the Gateway's control session, event by event: what each frame does to the
Scopes and to the rest of the world, and what has been done by the time a digest is shown.
*/
module ControlHistory {
  import opened Basics
  import opened GatewayControl
  import Scopes

  // ---- What each frame does ----

  /** What a snapshot frame needs in order to be accepted, read off the protocol. */
  ghost predicate Acceptable(env: Identity, w: World, frame: Frame)
    requires frame.ScopeSnapshot?
  {
    var items := frame.items;
    && frame.version == 2 && w.session.phase != AwaitingChallenge
    && |frame.digest| == 64 && (forall i :: 0 <= i < 64 ==> frame.digest[i] in "0123456789abcdef")
    && (forall i, j :: 0 <= i < j < |items| ==> Before(items[i].tunnel, items[j].tunnel))
    && (forall item :: item in items ==>
          && env.canonicalId(item.tunnel) && env.verify(Scopes.Scope(2, item.tunnel, item.issuer))
          && item.tunnel !in w.store.fixed
          && (item.tunnel in w.store.seen ==> w.store.seen[item.tunnel] == item.issuer))
    && env.digestOf(env.gatewayRef, ScopesOf(items)) == frame.digest
  }

  lemma IsSha256Exactly(digest: string)
    ensures IsSha256(digest) <==> |digest| == 64 && forall i :: 0 <= i < 64 ==> digest[i] in "0123456789abcdef"
  {
    if |digest| == 64 {
      forall i | 0 <= i < 64
        ensures digest[i] in "0123456789abcdef" <==> '0' <= digest[i] <= '9' || 'a' <= digest[i] <= 'f'
      {
        HexDigit(digest[i]);
      }
    }
  }

  lemma HexDigit(c: char)
    ensures c in "0123456789abcdef" <==> '0' <= c <= '9' || 'a' <= c <= 'f'
  {
    var hex := "0123456789abcdef";
    if '0' <= c <= '9' { assert hex[c as int - '0' as int] == c; }
    if 'a' <= c <= 'f' { assert hex[10 + c as int - 'a' as int] == c; }
  }

  lemma ScopesAcceptable(env: Identity, w: World, items: seq<Item>)
    requires forall i, j :: 0 <= i < j < |items| ==> Before(items[i].tunnel, items[j].tunnel)
    ensures (forall item :: item in items ==> env.verify(ScopeOf(item))) &&
            Scopes.Installable(env.verify, w.store.fixed, w.store.seen, ScopesOf(items)) <==>
            forall item :: item in items ==>
              && env.verify(Scopes.Scope(2, item.tunnel, item.issuer)) && item.tunnel !in w.store.fixed
              && (item.tunnel in w.store.seen ==> w.store.seen[item.tunnel] == item.issuer)
  {
    hide LexLe, Scopes.Installable;
    var scopes := ScopesOf(items);
    Scopes.InstallableExactly(env.verify, w.store.fixed, w.store.seen, scopes);
    forall i | 0 <= i < |items| ensures scopes[i] in scopes && items[i] in items {}
  }

  lemma ValidByItem(env: Identity, digest: string, items: seq<Item>)
    ensures ValidSnapshot(env, digest, items) <==>
            && NeighboursSorted(items) && env.digestOf(env.gatewayRef, ScopesOf(items)) == digest
            && forall item :: item in items ==> env.canonicalId(item.tunnel) && env.verify(ScopeOf(item))
  {
    hide NeighboursSorted, ScopesOf, ScopeOf;
    forall i | 0 <= i < |items| ensures items[i] in items {}
  }

  lemma AcceptedExactly(env: Identity, w: World, frame: Frame)
    requires frame.ScopeSnapshot?
    ensures Handled(env, w.session, w.store, frame).Some? <==> Acceptable(env, w, frame)
  {
    hide LexLe, Scopes.Installable, ScopesOf, ScopeOf, IsSha256, SortedIds, Scopes.ReplaceManaged, QuotasOf,
         ValidSnapshot;
    var items := frame.items;
    IsSha256Exactly(frame.digest);
    ValidByItem(env, frame.digest, items);
    if NeighboursSorted(items) {
      forall i, j | 0 <= i < j < |items| ensures Before(items[i].tunnel, items[j].tunnel) {
        Transitive(items, i, j);
      }
      ScopesAcceptable(env, w, items);
    }
  }

  lemma {:induction false} DisconnectsExactly(removed: seq<string>, x: Effect)
    ensures x in Disconnects(removed) <==> x.Disconnected? && x.tunnel in removed
  {
    if removed != [] {
      DisconnectsExactly(removed[..|removed| - 1], x);
      assert removed == removed[..|removed| - 1] + [removed[|removed| - 1]];
    }
  }

  lemma {:induction false} BudgetsExactly(quotas: seq<(string, Quota)>, x: Effect)
    ensures x in Budgets(quotas) <==> x.QuotaApplied? && (x.tunnel, x.quota) in quotas
  {
    if quotas != [] {
      BudgetsExactly(quotas[..|quotas| - 1], x);
      assert quotas == quotas[..|quotas| - 1] + [quotas[|quotas| - 1]];
    }
  }

  /** Some item gives the Tunnel this budget. */
  ghost predicate Budgeted(items: seq<Item>, tunnel: string, quota: Quota)
  {
    exists item :: item in items && item.tunnel == tunnel && item.quota == Some(quota)
  }

  lemma {:induction false} QuotasExactly(items: seq<Item>, tunnel: string, quota: Quota)
    ensures (tunnel, quota) in QuotasOf(items) <==> Budgeted(items, tunnel, quota)
  {
    if items != [] {
      QuotasExactly(items[..|items| - 1], tunnel, quota);
      assert items == items[..|items| - 1] + [items[|items| - 1]];
    }
  }

  /** The items are the managed partition now, and nothing else of the store has changed hands. */
  ghost predicate Replaced(w: World, next: World, e: Event)
    requires e.Receive? && e.frame.ScopeSnapshot?
  {
    && next.open == (e.flushed && e.ok) && next.session == Session(Active, Some(e.frame.digest))
    && next.store.fixed == w.store.fixed && Scopes.Holds(next.store.managed, ScopesOf(e.frame.items))
  }

  /** What an accepted snapshot makes the Gateway do. */
  ghost predicate CallsFor(w: World, next: World, e: Event, x: Effect)
    requires e.Receive? && e.frame.ScopeSnapshot?
  {
    match x
    case Disconnected(t) => t in w.store.managed && t !in next.store.managed
    case QuotaApplied(t, quota) => Budgeted(e.frame.items, t, quota)
    case UsageFlushed => e.flushed
    case StateShown(digest) => e.flushed && e.ok && digest == e.frame.digest
    case _ => false
  }

  // A snapshot frame over a whole step: when it is accepted its items become the managed partition,
  // and otherwise the connection ends and nothing else happens.
  lemma SnapshotExactly(env: Identity, w: World, e: Event)
    requires w.open && e.Receive? && e.frame.ScopeSnapshot?
    ensures var next := Next(env, w, e);
            if Acceptable(env, w, e.frame) then Replaced(w, next, e) else next == w.(open := false)
  {
    hide LexLe, Scopes.Installable, ScopesOf, SortedIds, Scopes.ReplaceManaged, QuotasOf, Acceptable, ValidSnapshot,
         IsSha256, Scopes.Holds, EffectsOf, Scopes.Acceptable;
    AcceptedExactly(env, w, e.frame);
    var scopes := ScopesOf(e.frame.items);
    Scopes.InstallableExactly(env.verify, w.store.fixed, w.store.seen, scopes);
    Scopes.StepExactly(env.verify, w.store, Scopes.Managed(scopes));
  }

  lemma EffectsOfApplied(action: Action, flushed: bool, ok: bool, x: Effect)
    requires action.Applied? && !x.SnapshotApplied?
    ensures x in EffectsOf(action, flushed, ok) <==>
            || (x.Disconnected? && x.tunnel in action.removed)
            || (x.QuotaApplied? && (x.tunnel, x.quota) in action.quotas)
            || (x.UsageFlushed? && flushed) || (x == StateShown(action.digest) && flushed && ok)
  {
    hide Disconnects, Budgets;
    DisconnectsExactly(action.removed, x);
    BudgetsExactly(action.quotas, x);
  }

  // Accepted, it disconnects exactly the Tunnels that leave the managed partition and applies exactly the
  // budgets its items carry; the digest is shown only if flushing and sending both succeed.
  lemma EffectsExactly(env: Identity, w: World, e: Event, x: Effect)
    requires w.open && e.Receive? && e.frame.ScopeSnapshot? && Acceptable(env, w, e.frame)
    requires !x.SnapshotApplied?
    ensures var next := Next(env, w, e);
            w.trace <= next.trace && (x in next.trace[|w.trace|..] <==> CallsFor(w, next, e, x))
  {
    hide LexLe, Scopes.Installable, ScopesOf, SortedIds, Scopes.ReplaceManaged, QuotasOf, Acceptable, ValidSnapshot,
         IsSha256, EffectsOf, Budgeted;
    AcceptedExactly(env, w, e.frame);
    var action := Handled(env, w.session, w.store, e.frame).value.2;
    EffectsOfApplied(action, e.flushed, e.ok, x);
    if x.QuotaApplied? {
      QuotasExactly(e.frame.items, x.tunnel, x.quota);
    }
    assert Next(env, w, e).trace[|w.trace|..] == EffectsOf(action, e.flushed, e.ok);
  }

  // The other frames: a challenge is answered once a connection, an acknowledgement is taken after
  // that, both only in version 2, and neither touches the Scopes.
  lemma OtherFrameExactly(env: Identity, w: World, e: Event)
    requires w.open && e.Receive? && !e.frame.ScopeSnapshot?
    ensures var next := Next(env, w, e);
            next ==
            if e.frame.Challenge? && e.frame.version == 2 && w.session.phase == AwaitingChallenge &&
               env.sign(e.frame.nonce).Some?
            then World(e.ok, Session(AwaitingSnapshot, w.session.digest), w.store,
                       w.trace + if e.ok then [Authenticated] else [])
            else if e.frame.UsageAck? && e.frame.version == 2 && w.session.phase != AwaitingChallenge
            then w.(open := e.ok, trace := w.trace + if e.ok then [UsageAcknowledged] else [])
            else w.(open := false)
  {
  }

  // ---- Effects over whole runs ----

  lemma StepTrace(env: Identity, w: World, e: Event)
    ensures w.trace <= Next(env, w, e).trace
  {
    hide Handled, EffectsOf;
  }

  lemma {:induction false} TraceGrows(env: Identity, log: seq<Event>, i: nat)
    requires i <= |log|
    ensures After(env, log[..i]).trace <= After(env, log).trace
  {
    hide Next;
    if i == |log| {
      assert log[..i] == log;
    } else {
      var before := log[..|log| - 1];
      TraceGrows(env, before, i);
      assert before[..i] == log[..i];
      StepTrace(env, After(env, before), log[|log| - 1]);
    }
  }

  // Only a snapshot that is applied changes the managed partition or disconnects anybody.
  lemma ManagedChanges(env: Identity, w: World, e: Event, x: Effect)
    requires !(w.open && e.Receive? && e.frame.ScopeSnapshot?)
    ensures Next(env, w, e).store.managed == w.store.managed
    ensures x in Next(env, w, e).trace[|w.trace|..] ==> !x.Disconnected? && !x.QuotaApplied?
  {
    hide LexLe, Scopes.Collected, Scopes.Pinned, Scopes.Installable, Handled, EffectsOf;
    if w.open && e.Receive? {
      OtherFrameExactly(env, w, e);
    }
  }

  // Within the effects of a snapshot the digest comes last.
  lemma ShownLast(env: Identity, w: World, e: Event, k: nat)
    requires w.open && e.Receive? && e.frame.ScopeSnapshot?
    requires |w.trace| <= k < |Next(env, w, e).trace| && Next(env, w, e).trace[k].StateShown?
    ensures k == |Next(env, w, e).trace| - 1
  {
    hide LexLe, Scopes.Installable, ScopesOf, SortedIds, Scopes.ReplaceManaged, QuotasOf, ValidSnapshot, IsSha256,
         Prepared;
    var h := Handled(env, w.session, w.store, e.frame);
    if h.Some? {
      var action := h.value.2;
      var at := k - |w.trace|;
      assert EffectsOf(action, e.flushed, e.ok)[at] == Next(env, w, e).trace[k];
      LastEffect(action, e.flushed, e.ok, at);
    }
  }

  lemma LastEffect(action: Action, flushed: bool, ok: bool, at: nat)
    requires action.Applied? && at < |EffectsOf(action, flushed, ok)| && EffectsOf(action, flushed, ok)[at].StateShown?
    ensures at == |EffectsOf(action, flushed, ok)| - 1
  {
    hide Disconnects, Budgets;
    var prepared := Prepared(action.removed, action.quotas, flushed);
    forall i | 0 <= i < |prepared| ensures !prepared[i].StateShown? {
      DisconnectsExactly(action.removed, prepared[i]);
      BudgetsExactly(action.quotas, prepared[i]);
    }
  }

  // Everything that an accepted snapshot calls for is done before any digest is shown from then on.
  lemma DoneBeforeShown(env: Identity, log: seq<Event>, i: nat, k: nat, x: Effect)
    requires i < |log| && log[i].Receive? && log[i].frame.ScopeSnapshot? && After(env, log[..i]).open
    requires Acceptable(env, After(env, log[..i]), log[i].frame)
    requires CallsFor(After(env, log[..i]), After(env, log[..i + 1]), log[i], x) && !x.StateShown?
    requires |After(env, log[..i]).trace| <= k < |After(env, log).trace| && After(env, log).trace[k].StateShown?
    ensures x in After(env, log).trace[|After(env, log[..i]).trace|..k]
  {
    hide Next, After, Acceptable, Budgeted;
    var w, next, all := After(env, log[..i]), After(env, log[..i + 1]), After(env, log).trace;
    assert next == Next(env, w, log[i]) by { AfterNext(env, log, i); }
    EffectsExactly(env, w, log[i], x);
    TraceGrows(env, log, i + 1);
    var from := |w.trace|;
    var j :| 0 <= j < |next.trace[from..]| && next.trace[from..][j] == x;
    assert all[from + j] == x;
    if k < |next.trace| {
      assert next.trace[k] == all[k];
      ShownLast(env, w, log[i], k);
    }
    assert all[from..k][j] == x;
  }

  lemma AfterNext(env: Identity, log: seq<Event>, i: nat)
    requires i < |log|
    ensures After(env, log[..i + 1]) == Next(env, After(env, log[..i]), log[i])
  {
    hide Next;
    assert log[..i + 1][..i] == log[..i];
  }

  // Over every run: when a digest is shown, every Tunnel that left the managed partition has been
  // disconnected since it left.
  lemma LeftIsDisconnected(env: Identity, log: seq<Event>, i: nat, k: nat, tunnel: string)
    requires i < |log|
    requires tunnel in After(env, log[..i]).store.managed && tunnel !in After(env, log[..i + 1]).store.managed
    requires |After(env, log[..i]).trace| <= k < |After(env, log).trace| && After(env, log).trace[k].StateShown?
    ensures Disconnected(tunnel) in After(env, log).trace[|After(env, log[..i]).trace|..k]
  {
    hide Next, After, Acceptable;
    var w := After(env, log[..i]);
    AfterNext(env, log, i);
    if !(w.open && log[i].Receive? && log[i].frame.ScopeSnapshot?) {
      ManagedChanges(env, w, log[i], Connected);
    }
    SnapshotExactly(env, w, log[i]);
    DoneBeforeShown(env, log, i, k, Disconnected(tunnel));
  }

  // Nobody else is disconnected: each disconnect belongs to the event at which its Tunnel left.
  lemma {:induction false} DisconnectedLeft(env: Identity, log: seq<Event>, k: nat) returns (i: nat)
    requires k < |After(env, log).trace| && After(env, log).trace[k].Disconnected?
    ensures i < |log| && |After(env, log[..i]).trace| <= k < |After(env, log[..i + 1]).trace|
    ensures var tunnel := After(env, log).trace[k].tunnel;
            tunnel in After(env, log[..i]).store.managed && tunnel !in After(env, log[..i + 1]).store.managed
  {
    hide Next, Acceptable;
    var n := |log| - 1;
    var w, e := After(env, log[..n]), log[n];
    assert log[..n + 1] == log;
    StepTrace(env, w, e);
    if k < |w.trace| {
      i := DisconnectedLeft(env, log[..n], k);
      assert log[..n][..i] == log[..i] && log[..n][..i + 1] == log[..i + 1];
    } else {
      i := n;
      var x := After(env, log).trace[k];
      assert After(env, log).trace[|w.trace|..][k - |w.trace|] == x;
      if !(w.open && e.Receive? && e.frame.ScopeSnapshot?) {
        ManagedChanges(env, w, e, x);
      }
      SnapshotExactly(env, w, e);
      EffectsExactly(env, w, e, x);
    }
  }

  // ---- The digest that is shown ----

  lemma ShownIsCurrent(env: Identity, w: World, e: Event, k: nat)
    requires |w.trace| <= k < |Next(env, w, e).trace| && Next(env, w, e).trace[k].StateShown?
    ensures Next(env, w, e).session.digest == Some(Next(env, w, e).trace[k].digest)
  {
    hide LexLe, Handled, EffectsOf, Acceptable, CallsFor;
    var next := Next(env, w, e);
    var x := next.trace[k];
    assert next.trace[|w.trace|..][k - |w.trace|] == x;
    if w.open && e.Receive? {
      if e.frame.ScopeSnapshot? {
        SnapshotExactly(env, w, e);
        EffectsExactly(env, w, e, x);
        assert CallsFor(w, next, e, x) ==> x == StateShown(e.frame.digest) by { ShownCalls(w, next, e, x); }
      } else {
        OtherFrameExactly(env, w, e);
      }
    }
  }

  lemma ShownCalls(w: World, next: World, e: Event, x: Effect)
    requires e.Receive? && e.frame.ScopeSnapshot? && x.StateShown?
    ensures CallsFor(w, next, e, x) ==> x == StateShown(e.frame.digest)
  {
  }

  // Over every run: a digest is shown only by an event after which it is the digest of the managed Scopes.
  lemma {:induction false} ShownIsInstalled(env: Identity, log: seq<Event>, k: nat) returns (i: nat)
    requires k < |After(env, log).trace| && After(env, log).trace[k].StateShown?
    ensures i < |log| && |After(env, log[..i]).trace| <= k < |After(env, log[..i + 1]).trace|
    ensures env.digestOf(env.gatewayRef, Installed(After(env, log[..i + 1]).store.managed)) ==
            After(env, log).trace[k].digest
  {
    hide Next, WorldOk, Installed;
    var n := |log| - 1;
    var w := After(env, log[..n]);
    assert log[..n + 1] == log;
    StepTrace(env, w, log[n]);
    if k < |w.trace| {
      i := ShownIsInstalled(env, log[..n], k);
      assert log[..n][..i] == log[..i] && log[..n][..i + 1] == log[..i + 1];
    } else {
      i := n;
      ShownIsCurrent(env, w, log[n], k);
      AlwaysOrderly(env, log);
      DigestIsInstalled(env, After(env, log));
    }
  }

  lemma DigestIsInstalled(env: Identity, w: World)
    requires WorldOk(env, w) && w.session.digest.Some?
    ensures env.digestOf(env.gatewayRef, Installed(w.store.managed)) == w.session.digest.value
  {
    hide Orderly, Watched, Scopes.StoreOk, Installed;
  }

  // The periodic state of a connection that has applied a snapshot: the digest of the Scopes installed, then a flush.
  lemma TickShows(env: Identity, log: seq<Event>, flushed: bool)
    requires After(env, log).open && After(env, log).session.phase == Active
    ensures var w := After(env, log);
            After(env, log + [Tick(flushed, true)]).trace ==
            w.trace + [StateShown(env.digestOf(env.gatewayRef, Installed(w.store.managed)))] +
            if flushed then [UsageFlushed] else []
  {
    hide WorldOk, Installed;
    assert (log + [Tick(flushed, true)])[..|log|] == log;
    AlwaysOrderly(env, log);
    ActiveHasDigest(env, After(env, log));
    DigestIsInstalled(env, After(env, log));
  }

  lemma ActiveHasDigest(env: Identity, w: World)
    requires WorldOk(env, w) && w.session.phase == Active
    ensures w.session.digest.Some?
  {
    hide Orderly, Watched, Installed;
  }
}
