/**
Links that one end closes and turns ready again on its own: exactly when the other's record comes
back without a Digest, and runs in which it does not.
*/
module Restart {
  import opened Basics
  import opened RuntimeRecord
  import opened Directory
  import opened Gossip
  import opened Unicode
  import opened Mesh
  import opened Convergence
  import opened Drain

  // ---- Turning ready ----

  // Judged at the moment `b` turns ready, from any state in which `a`'s link is up and whatever happened
  // since `b` closed: `b` will hold `a`'s current record exactly when `a` still owes its reply, or has
  // been asked, or what is on the wire will ask or bring it.
  lemma ReadyExactly(hash: Hasher, m: Mesh, a: string, b: string, now: nat, more: seq<Action>)
    requires Members(m, a, b) && FlowOf(m, a, b).ready && Deliveries(more)
    requires Drained(After(hash, Next(hash, m, Ready(b, a, now)), more), a, b)
    ensures Knows(After(hash, Next(hash, m, Ready(b, a, now)), more), b, a) <==>
            var f := FlowOf(m, a, b);
            f.pending || Need in f.back || Asks(hash, f.known, f.out) || Arrives(f.known, f.out) == Some(f.local)
  {
    hide After, ValidPeerId, Encoding, Decoding, Canonical, Post, DigestInterval, Asks, Arrives;
    var f, n := FlowOf(m, a, b), Next(hash, m, Ready(b, a, now));
    ReadyFlow(hash, m, b, a, now, a, b);
    ReadyFlow(hash, m, b, a, now, b, a);
    RecordRoundTrip(m.nodes[b].local);
    var push := FullRecord(Encoding(m.nodes[b].local));
    var g := FlowOf(n, a, b);
    assert push in g.back && Readable(push);
    assert forall p :: p in g.back <==> p in f.back || p == push;
    DrainsExactly(hash, n, more, a, b);
  }

  predicate Carries(w: seq<Payload>)
  {
    exists p :: p in w && (p.FullRecord? || p.Digest?)
  }

  // What a sound wire brings is its last record.
  lemma {:induction false} ArrivesLast(known: Option<Record>, w: seq<Payload>)
    requires AllSound(w)
    ensures Arrives(known, w) ==
            if LastRecord(w).Some? && Decoding(LastRecord(w).value).Ok? then Some(Decoding(LastRecord(w).value).value)
            else known
  {
    hide Encoding, Decoding, Canonical;
    if w != [] {
      var before, last := w[..|w| - 1], w[|w| - 1];
      assert w == before + [last] && last in w;
      ArrivesLast(known, before);
      ArrivesPush(known, before, last);
      if LastRecord(before).Some? {
        LastRecordSound(before);
      }
    }
  }

  // To a receiver that holds nothing, every Digest before the first record is a question.
  lemma {:induction false} AsksNothing(hash: Hasher, w: seq<Payload>)
    ensures Asks(hash, None, w) ==> Carries(w)
    ensures Carries(w) && LastRecord(w).None? ==> Asks(hash, None, w)
    ensures Carries(w) <== LastRecord(w).Some?
    decreases |w|
  {
    hide Encoding, Decoding, Canonical;
    if w != [] {
      var rest := w[1..];
      assert w == [w[0]] + rest && w[0] in w;
      AsksNothing(hash, rest);
      LastRecordPop(w);
      assert Carries(rest) ==> Carries(w);
    }
  }

  // Over every run in which nothing was cut off: when `b` turns ready, it will hold `a`'s current record
  // exactly when `a` still owes its reply, a record or Digest is on its way, or `a` has been asked.
  lemma RunReadyExactly(
    hash: Hasher, records: map<string, Record>, log: seq<Action>, a: string, b: string, now: nat, more: seq<Action>)
    requires Members(Start(records), a, b) && Deliveries(more) && !Cut(hash, Start(records), log, a, b)
    requires var m := After(hash, Start(records), log);
             a in m.nodes && b in m.nodes && b in m.nodes[a].links && a !in m.nodes[b].links
    requires Drained(After(hash, Next(hash, After(hash, Start(records), log), Ready(b, a, now)), more), a, b)
    ensures var m := After(hash, Start(records), log);
            && Members(m, a, b)
            && (Knows(After(hash, Next(hash, m, Ready(b, a, now)), more), b, a) <==>
                var f := FlowOf(m, a, b); f.pending || Carries(f.out) || Need in f.back)
  {
    hide After, Next, PastOf, ValidPeerId, Encoding, Decoding, Canonical, Asks, Arrives, Carries, LastRecord;
    FlowAlways(hash, records, log, a, b);
    var m := After(hash, Start(records), log);
    var f := FlowOf(m, a, b);
    ReadyExactly(hash, m, a, b, now, more);
    ArrivesLast(f.known, f.out);
    AsksNothing(hash, f.out);
    RecordRoundTrip(f.local);
  }

  // ---- A restart without a gap ----

  /** `b` alone closes its link and turns it ready again before anything is delivered. */
  function Restarted(
    hash: Hasher, m: Mesh, a: string, b: string, keptOut: set<nat>, keptIn: set<nat>, now: nat): (r: Mesh)
  {
    Next(hash, Next(hash, m, Shut(b, a, keptOut, keptIn)), Ready(b, a, now))
  }

  // From any state, judged before the close: such a restart heals by itself exactly when `a` still owes
  // its reply, or a question of `b`'s or something of `a`'s that will ask or bring the record survives.
  lemma RestartExactly(
    hash: Hasher, m: Mesh, a: string, b: string, keptOut: set<nat>, keptIn: set<nat>, now: nat, more: seq<Action>)
    requires Members(m, a, b) && FlowOf(m, a, b).ready && Deliveries(more)
    requires Drained(After(hash, Restarted(hash, m, a, b, keptOut, keptIn, now), more), a, b)
    ensures Knows(After(hash, Restarted(hash, m, a, b, keptOut, keptIn, now), more), b, a) <==>
            var f := FlowOf(m, a, b);
            var out, back := Kept(f.out, keptIn), Kept(f.back, keptOut);
            f.pending || Need in back || Asks(hash, None, out) || Arrives(None, out) == Some(f.local)
  {
    hide After, ValidPeerId, Asks, Arrives, Kept, Next;
    RemoteCloses(hash, m, a, b, keptOut, keptIn);
    ReadyExactly(hash, Next(hash, m, Shut(b, a, keptOut, keptIn)), a, b, now, more);
  }

  // When nothing survives, the owed reply alone decides.
  lemma CleanRestartExactly(hash: Hasher, m: Mesh, a: string, b: string, now: nat, more: seq<Action>)
    requires Members(m, a, b) && FlowOf(m, a, b).ready && Deliveries(more)
    requires Drained(After(hash, Restarted(hash, m, a, b, {}, {}, now), more), a, b)
    ensures Knows(After(hash, Restarted(hash, m, a, b, {}, {}, now), more), b, a) <==> FlowOf(m, a, b).pending
  {
    hide After, Restarted, ValidPeerId;
    RestartExactly(hash, m, a, b, {}, {}, now, more);
    KeptNothing(FlowOf(m, a, b).out);
    KeptNothing(FlowOf(m, a, b).back);
  }

  lemma {:induction false} KeptNothing(w: seq<Payload>)
    ensures Kept(w, {}) == []
  {
    if w != [] { KeptNothing(w[..|w| - 1]); }
  }

  // ---- Runs step by step ----

  lemma AfterNext(hash: Hasher, m: Mesh, log: seq<Action>, k: nat)
    requires k < |log|
    ensures After(hash, m, log[..k + 1]) == Next(hash, After(hash, m, log[..k]), log[k])
  {
    assert log[..k + 1][..k] == log[..k];
  }

  lemma StartAfter(hash: Hasher, m: Mesh, log: seq<Action>)
    ensures After(hash, m, log[..0]) == m && log[..|log|] == log
  {
  }

  lemma {:induction false} AfterBoth(hash: Hasher, m: Mesh, first: seq<Action>, second: seq<Action>)
    ensures After(hash, m, first + second) == After(hash, After(hash, m, first), second)
  {
    if second == [] {
      assert first + second == first;
    } else {
      var log := first + second;
      assert log[..|log| - 1] == first + second[..|second| - 1];
      AfterBoth(hash, m, first, second[..|second| - 1]);
    }
  }

  lemma TurnsReady(hash: Hasher, m: Mesh, a: string, b: string, now: nat)
    requires Members(m, a, b)
    ensures var f, n := FlowOf(m, a, b), Next(hash, m, Ready(a, b, now));
            && Members(n, a, b)
            && FlowOf(n, a, b) == f.(ready := true, pending := true, out := f.out + [FullRecord(Encoding(f.local))])
  {
    hide Encoding, Decoding, Canonical, Trim, Utf8, Post, DigestInterval;
    ReadyFlow(hash, m, a, b, now, a, b);
  }

  lemma RemoteTurnsReady(hash: Hasher, m: Mesh, a: string, b: string, now: nat) returns (push: Payload)
    requires Members(m, a, b)
    ensures var f, n := FlowOf(m, a, b), Next(hash, m, Ready(b, a, now));
            && Members(n, a, b) && Readable(push)
            && FlowOf(n, a, b) == f.(remoteReady := true, back := f.back + [push])
  {
    hide Encoding, Decoding, Canonical, Trim, Utf8, Post, DigestInterval;
    ReadyFlow(hash, m, b, a, now, a, b);
    push := FullRecord(Encoding(m.nodes[b].local));
    RecordRoundTrip(m.nodes[b].local);
  }

  lemma Changes(hash: Hasher, m: Mesh, a: string, b: string, record: Record)
    requires Members(m, a, b) && FlowOf(m, a, b).ready && record != FlowOf(m, a, b).local
    ensures var f, n := FlowOf(m, a, b), Next(hash, m, SetRecord(a, record));
            && Members(n, a, b)
            && FlowOf(n, a, b) == f.(local := record, out := f.out + [FullRecord(Encoding(record))])
  {
    hide Encoding, Decoding, Canonical, Trim, Utf8, Post, SetLocal;
    SetRecordFlow(hash, m, a, record, a, b);
  }

  lemma RemoteCloses(hash: Hasher, m: Mesh, a: string, b: string, keptOut: set<nat>, keptIn: set<nat>)
    requires Members(m, a, b)
    ensures var f, n := FlowOf(m, a, b), Next(hash, m, Shut(b, a, keptOut, keptIn));
            && Members(n, a, b)
            && FlowOf(n, a, b) ==
               f.(remoteReady := false, known := None, out := Kept(f.out, keptIn), back := Kept(f.back, keptOut))
  {
    hide Encoding, Decoding, Canonical, Requeue, Trim, Utf8, Kept;
    ShutFlow(hash, m, b, a, keptOut, keptIn, a, b);
  }

  lemma TakesRecord(hash: Hasher, m: Mesh, a: string, b: string)
    requires Members(m, a, b)
    requires var f := FlowOf(m, a, b); f.ready && f.back != [] && Readable(f.back[0])
    ensures var f, n := FlowOf(m, a, b), Next(hash, m, Deliver(b, a));
            && Members(n, a, b)
            && FlowOf(n, a, b) == f.(pending := false, back := f.back[1..],
                                     out := if f.pending then f.out + [FullRecord(Encoding(f.local))] else f.out)
  {
    hide Encoding, Decoding, Canonical, Trim, Utf8, Post, Receive;
    ReplyFlow(hash, m, a, b);
    var out := FlowOf(m, a, b).out;
    assert out + [] == out;
  }

  lemma RemoteTakesRecord(hash: Hasher, m: Mesh, a: string, b: string) returns (back: seq<Payload>)
    requires Members(m, a, b)
    requires var f := FlowOf(m, a, b); f.remoteReady && f.out != [] && Readable(f.out[0])
    ensures var f, n := FlowOf(m, a, b), Next(hash, m, Deliver(a, b));
            && Members(n, a, b)
            && FlowOf(n, a, b) ==
               f.(known := Some(Decoding(f.out[0].encoded).value), out := f.out[1..], back := f.back + back)
  {
    hide Encoding, Decoding, Canonical, Trim, Utf8, Post, Receive;
    ArriveFlow(hash, m, a, b);
    back := Answers(hash, m.nodes[b], a, FlowOf(m, a, b).out[0]);
  }

  // A payload that arrives before the link is ready is lost.
  lemma RemoteRejects(hash: Hasher, m: Mesh, a: string, b: string)
    requires Members(m, a, b)
    requires var f := FlowOf(m, a, b); !f.remoteReady && f.out != []
    ensures var f, n := FlowOf(m, a, b), Next(hash, m, Deliver(a, b));
            Members(n, a, b) && FlowOf(n, a, b) == f.(out := f.out[1..])
  {
    hide Encoding, Decoding, Canonical, Trim, Utf8, Post, Receive;
    ArriveFlow(hash, m, a, b);
    var back := FlowOf(m, a, b).back;
    assert back + [] == back;
  }

  // ---- Runs that stall ----

  /** Both links are up, nothing is in flight, and `b` holds nothing for `a`. */
  predicate Stalled(m: Mesh, a: string, b: string)
  {
    BothUp(m, a, b) && Drained(m, a, b) && a !in m.nodes[b].dir.records
  }

  // `a` has replied and nothing is on its way while `b` is down: `b` turns ready in vain.
  lemma ReadyInVain(hash: Hasher, m: Mesh, a: string, b: string)
    requires Members(m, a, b)
    requires var f := FlowOf(m, a, b);
             f.ready && !f.pending && !f.remoteReady && f.known.None? && f.out == [] && f.back == []
    ensures Stalled(After(hash, m, [Ready(b, a, 0), Deliver(b, a)]), a, b)
  {
    hide Encoding, Decoding, Canonical, ValidPeerId, Next, After;
    var log := [Ready(b, a, 0), Deliver(b, a)];
    StartAfter(hash, m, log);
    var push := RemoteTurnsReady(hash, m, a, b, 0);
    TakesRecord(hash, Next(hash, m, log[0]), a, b);
    AfterNext(hash, m, log, 0);
    AfterNext(hash, m, log, 1);
  }

  // Once `a` has replied, `b` alone restarts its link.
  lemma RestartStalls(hash: Hasher, records: map<string, Record>, a: string, b: string)
    requires Members(Start(records), a, b)
    ensures Stalled(After(hash, Start(records), [Ready(a, b, 0), Ready(b, a, 0), Deliver(b, a), Shut(b, a, {}, {})] +
                                                [Ready(b, a, 0), Deliver(b, a)]), a, b)
  {
    hide Encoding, Decoding, Canonical, ValidPeerId, Next, After;
    var log := [Ready(a, b, 0), Ready(b, a, 0), Deliver(b, a), Shut(b, a, {}, {})];
    var m0 := Start(records);
    StartAfter(hash, m0, log);
    TurnsReady(hash, m0, a, b, 0);
    var m1 := Next(hash, m0, log[0]);
    var push := RemoteTurnsReady(hash, m1, a, b, 0);
    var m2 := Next(hash, m1, log[1]);
    TakesRecord(hash, m2, a, b);
    var m3 := Next(hash, m2, log[2]);
    RemoteCloses(hash, m3, a, b, {}, {});
    KeptNothing(FlowOf(m3, a, b).out);
    KeptNothing(FlowOf(m3, a, b).back);
    AfterNext(hash, m0, log, 0);
    AfterNext(hash, m0, log, 1);
    AfterNext(hash, m0, log, 2);
    AfterNext(hash, m0, log, 3);
    ReadyInVain(hash, Next(hash, m3, log[3]), a, b);
    AfterBoth(hash, m0, log, [Ready(b, a, 0), Deliver(b, a)]);
  }

  // Both ends have turned ready since the other last closed, but a record of `b` that outlived its close
  // has used up `a`'s reply while `b` was down.
  lemma LateRecordStalls(hash: Hasher, records: map<string, Record>, a: string, b: string)
    requires Members(Start(records), a, b)
    ensures Stalled(After(hash, Start(records),
                          [Ready(b, a, 0), Shut(b, a, {0}, {}), Ready(a, b, 0)] +
                          [Deliver(b, a), Deliver(a, b), Deliver(a, b)] + [Ready(b, a, 0), Deliver(b, a)]), a, b)
  {
    hide Encoding, Decoding, Canonical, ValidPeerId, Next, After;
    var log := [Ready(b, a, 0), Shut(b, a, {0}, {}), Ready(a, b, 0)];
    var m0 := Start(records);
    StartAfter(hash, m0, log);
    var push := RemoteTurnsReady(hash, m0, a, b, 0);
    var m1 := Next(hash, m0, log[0]);
    RemoteCloses(hash, m1, a, b, {0}, {});
    KeptOne(push);
    var m2 := Next(hash, m1, log[1]);
    TurnsReady(hash, m2, a, b, 0);
    AfterNext(hash, m0, log, 0);
    AfterNext(hash, m0, log, 1);
    AfterNext(hash, m0, log, 2);
    var m3 := Next(hash, m2, log[2]);
    UsedUpWhileDown(hash, m3, a, b);
    AfterBoth(hash, m0, log, [Deliver(b, a), Deliver(a, b), Deliver(a, b)]);
    ReadyInVain(hash, After(hash, m3, [Deliver(b, a), Deliver(a, b), Deliver(a, b)]), a, b);
    AfterBoth(hash, m0, log + [Deliver(b, a), Deliver(a, b), Deliver(a, b)], [Ready(b, a, 0), Deliver(b, a)]);
  }

  lemma KeptOne(p: Payload)
    ensures Kept([p], {0}) == [p] && Kept([], {}) == [] && Kept([p], {}) == []
  {
    assert [p][..0] == [];
  }

  // A late record arrives at `a` while `b` is down, and the reply and the first push are lost.
  lemma UsedUpWhileDown(hash: Hasher, m: Mesh, a: string, b: string)
    requires Members(m, a, b)
    requires var f := FlowOf(m, a, b);
             && f.ready && f.pending && !f.remoteReady && f.known.None?
             && |f.out| == 1 && |f.back| == 1 && Readable(f.back[0])
    ensures var n := After(hash, m, [Deliver(b, a), Deliver(a, b), Deliver(a, b)]);
            && Members(n, a, b)
            && var f := FlowOf(n, a, b);
               f.ready && !f.pending && !f.remoteReady && f.known.None? && f.out == [] && f.back == []
  {
    hide Encoding, Decoding, Canonical, ValidPeerId, Next, After;
    var log := [Deliver(b, a), Deliver(a, b), Deliver(a, b)];
    StartAfter(hash, m, log);
    TakesRecord(hash, m, a, b);
    var m1 := Next(hash, m, log[0]);
    RemoteRejects(hash, m1, a, b);
    var m2 := Next(hash, m1, log[1]);
    RemoteRejects(hash, m2, a, b);
    AfterNext(hash, m, log, 0);
    AfterNext(hash, m, log, 1);
    AfterNext(hash, m, log, 2);
  }

  // A restart with a gap: `a` owes its reply before `b` closes, and a record that arrives during the gap uses it up.
  lemma GapStalls(hash: Hasher, records: map<string, Record>, a: string, b: string)
    requires Members(Start(records), a, b)
    ensures var m := After(hash, Start(records), [Ready(b, a, 0), Ready(a, b, 0)]);
            && Members(m, a, b) && FlowOf(m, a, b).ready && FlowOf(m, a, b).pending
            && Stalled(After(hash, m, [Shut(b, a, {0}, {}), Deliver(b, a), Deliver(a, b)] +
                                      [Ready(b, a, 0), Deliver(b, a)]), a, b)
  {
    hide Encoding, Decoding, Canonical, ValidPeerId, Next, After;
    var first, second := [Ready(b, a, 0), Ready(a, b, 0)], [Shut(b, a, {0}, {}), Deliver(b, a), Deliver(a, b)];
    var m0 := Start(records);
    StartAfter(hash, m0, first);
    var push := RemoteTurnsReady(hash, m0, a, b, 0);
    var m1 := Next(hash, m0, first[0]);
    TurnsReady(hash, m1, a, b, 0);
    AfterNext(hash, m0, first, 0);
    AfterNext(hash, m0, first, 1);
    var m2 := Next(hash, m1, first[1]);
    StartAfter(hash, m2, second);
    RemoteCloses(hash, m2, a, b, {0}, {});
    KeptOne(push);
    KeptNothing(FlowOf(m2, a, b).out);
    var m3 := Next(hash, m2, second[0]);
    TakesRecord(hash, m3, a, b);
    var m4 := Next(hash, m3, second[1]);
    RemoteRejects(hash, m4, a, b);
    AfterNext(hash, m2, second, 0);
    AfterNext(hash, m2, second, 1);
    AfterNext(hash, m2, second, 2);
    ReadyInVain(hash, Next(hash, m4, second[2]), a, b);
    AfterBoth(hash, m2, second, [Ready(b, a, 0), Deliver(b, a)]);
  }

  // ---- A run that goes stale ----

  // `b`'s close loses the newer of two records on the wire and keeps the older: with both links up and
  // nothing left on its way from `a`, `b` holds a record that `a` has replaced.
  lemma CutGoesStale(hash: Hasher, records: map<string, Record>, a: string, b: string, next: Record)
    requires Members(Start(records), a, b) && next != records[a]
    ensures var m := After(hash, Start(records), [Ready(b, a, 0), Ready(a, b, 0), Deliver(b, a), SetRecord(a, next)] +
                                                 [Shut(b, a, {}, {0}), Ready(b, a, 0), Deliver(b, a), Deliver(a, b)]);
            && Members(m, a, b) && BothUp(m, a, b) && Wire(m.wires, a, b) == [] && m.nodes[a].local == next
            && a in m.nodes[b].dir.records && m.nodes[b].dir.records[a] == records[a]
  {
    hide Encoding, Decoding, Canonical, ValidPeerId, Next, After;
    var first := [Ready(b, a, 0), Ready(a, b, 0), Deliver(b, a), SetRecord(a, next)];
    var m0 := Start(records);
    StartAfter(hash, m0, first);
    var push := RemoteTurnsReady(hash, m0, a, b, 0);
    var m1 := Next(hash, m0, first[0]);
    TurnsReady(hash, m1, a, b, 0);
    var m2 := Next(hash, m1, first[1]);
    TakesRecord(hash, m2, a, b);
    var m3 := Next(hash, m2, first[2]);
    Changes(hash, m3, a, b, next);
    AfterNext(hash, m0, first, 0);
    AfterNext(hash, m0, first, 1);
    AfterNext(hash, m0, first, 2);
    AfterNext(hash, m0, first, 3);
    var m4 := Next(hash, m3, first[3]);
    KeepsTheOldest(hash, m4, a, b, records[a]);
    AfterBoth(hash, m0, first, [Shut(b, a, {}, {0}), Ready(b, a, 0), Deliver(b, a), Deliver(a, b)]);
  }

  lemma KeepsTheOldest(hash: Hasher, m: Mesh, a: string, b: string, older: Record)
    requires Members(m, a, b)
    requires var f := FlowOf(m, a, b);
             f.ready && !f.pending && |f.out| == 3 && f.out[0] == FullRecord(Encoding(older)) && f.back == []
    ensures var n := After(hash, m, [Shut(b, a, {}, {0}), Ready(b, a, 0), Deliver(b, a), Deliver(a, b)]);
            && Members(n, a, b)
            && var g := FlowOf(n, a, b);
               g.ready && g.remoteReady && g.out == [] && g.local == FlowOf(m, a, b).local && g.known == Some(older)
  {
    hide Encoding, Decoding, Canonical, ValidPeerId, Next, After;
    var log := [Shut(b, a, {}, {0}), Ready(b, a, 0), Deliver(b, a), Deliver(a, b)];
    StartAfter(hash, m, log);
    RemoteCloses(hash, m, a, b, {}, {0});
    KeptNothing(FlowOf(m, a, b).back);
    KeptFirst(FlowOf(m, a, b).out);
    var m1 := Next(hash, m, log[0]);
    var push := RemoteTurnsReady(hash, m1, a, b, 0);
    var m2 := Next(hash, m1, log[1]);
    TakesRecord(hash, m2, a, b);
    var m3 := Next(hash, m2, log[2]);
    RecordRoundTrip(older);
    var reply := RemoteTakesRecord(hash, m3, a, b);
    AfterNext(hash, m, log, 0);
    AfterNext(hash, m, log, 1);
    AfterNext(hash, m, log, 2);
    AfterNext(hash, m, log, 3);
  }

  lemma {:induction false} KeptFirst(w: seq<Payload>)
    requires w != []
    ensures Kept(w, {0}) == [w[0]]
  {
    if |w| == 1 {
      assert w[..0] == [];
    } else {
      KeptFirst(w[..|w| - 1]);
    }
  }
}
