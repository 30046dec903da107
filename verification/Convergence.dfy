/**
What gossip achieves over every run of the mesh, whatever a close loses: exactly when a Peer holds
another's record once the wire is quiet, and exactly when what it holds is current.
*/
module Convergence {
  import opened Basics
  import opened RuntimeRecord
  import opened Directory
  import opened Gossip
  import opened Unicode
  import opened Mesh

  predicate Members(m: Mesh, a: string, b: string)
  {
    a in m.nodes && b in m.nodes && a != b && ValidPeerId(a) && ValidPeerId(b)
  }

  predicate IsReady(act: Action, at: string, peer: string)
  {
    act.Ready? && (act.at, act.peer) == (at, peer)
  }

  predicate Closes(act: Action, at: string, peer: string)
  {
    act.Shut? && (act.at, act.peer) == (at, peer)
  }

  /** What a run from `m` has done to the direction from `a` to `b`. */
  function PastOf(hash: Hasher, m: Mesh, log: seq<Action>, a: string, b: string): (past: Past)
  {
    if log == [] then Past(false, false) else
      var before, now := After(hash, m, log[..|log| - 1]), After(hash, m, log);
      var past := PastOf(hash, m, log[..|log| - 1], a, b);
      if !Members(before, a, b) || !Members(now, a, b) then past
      else PastBy(FlowOf(before, a, b), log[|log| - 1], FlowOf(now, a, b), a, b, past)
  }

  function PastBy(f: Flow, act: Action, g: Flow, a: string, b: string, past: Past): (r: Past)
  {
    Past(IntroducedBy(f, act, g, a, b, past.introduced), CutBy(act, g, a, b, past.cut))
  }

  predicate IntroducedBy(f: Flow, act: Action, g: Flow, a: string, b: string, before: bool)
  {
    && !Closes(act, a, b) && !Closes(act, b, a)
    && (before || (g.ready && g.remoteReady && (LastRecord(g.out).Some? || (IsReady(act, b, a) && f.pending))))
  }

  predicate CutBy(act: Action, g: Flow, a: string, b: string, before: bool)
  {
    if Closes(act, b, a) then LastRecord(g.out).Some? && LastRecord(g.out).value != Encoding(g.local)
    else !Closes(act, a, b) && before && LastRecord(g.out) != Some(Encoding(g.local))
  }

  /** With no close since, a record of `a` was on its way between live links, or
      `b` turned ready while a reply was owed. */
  predicate Introduced(hash: Hasher, m: Mesh, log: seq<Action>, a: string, b: string)
  {
    PastOf(hash, m, log, a, b).introduced
  }

  /** `b`'s last close lost `a`'s current record and let another one through, and `a` has sent none since. */
  predicate Cut(hash: Hasher, m: Mesh, log: seq<Action>, a: string, b: string)
  {
    PastOf(hash, m, log, a, b).cut
  }

  // ---- One step keeps each direction in order ----

  lemma SoundPush(w: seq<Payload>, p: Payload)
    requires AllSound(w) && Sound(p)
    ensures AllSound(w + [p])
  {
  }

  lemma SoundPop(w: seq<Payload>)
    requires w != []
    ensures AllSound(w) ==> Sound(w[0]) && AllSound(w[1..])
  {
    assert w[0] in w;
  }

  lemma ReadyKeeps(hash: Hasher, m: Mesh, act: Action, a: string, b: string, past: Past)
    requires Members(m, a, b) && act.Ready? && Enabled(m, act) && FlowOk(FlowOf(m, a, b), past)
    ensures Members(Perform(hash, m, act), a, b)
    ensures var f, g := FlowOf(m, a, b), FlowOf(Perform(hash, m, act), a, b);
            FlowOk(g, PastBy(f, act, g, a, b, past))
  {
    hide Encoding, Decoding, Canonical, Enabled, LastRecord, Trim, Utf8, Post, DigestInterval;
    ReadyFlow(hash, m, act.at, act.peer, act.now, a, b);
    var f := FlowOf(m, a, b);
    var local := if (act.at, act.peer) == (a, b) then f.local else m.nodes[b].local;
    RecordRoundTrip(local);
    var push := FullRecord(Encoding(local));
    LastRecordPush(f.out, push);
    LastRecordPush(f.back, push);
    SoundPush(f.out, push);
    SoundPush(f.back, push);
  }

  lemma SetRecordKeeps(hash: Hasher, m: Mesh, act: Action, a: string, b: string, past: Past)
    requires Members(m, a, b) && act.SetRecord? && Enabled(m, act) && FlowOk(FlowOf(m, a, b), past)
    ensures Members(Perform(hash, m, act), a, b)
    ensures var f, g := FlowOf(m, a, b), FlowOf(Perform(hash, m, act), a, b);
            FlowOk(g, PastBy(f, act, g, a, b, past))
  {
    hide Encoding, Decoding, Canonical, LastRecord, Trim, Utf8, Post, SetLocal;
    SetRecordFlow(hash, m, act.at, act.record, a, b);
    var f := FlowOf(m, a, b);
    RecordRoundTrip(act.record);
    var push := FullRecord(Encoding(act.record));
    LastRecordPush(f.out, push);
    LastRecordPush(f.back, push);
    SoundPush(f.out, push);
    SoundPush(f.back, push);
  }

  lemma PollKeeps(hash: Hasher, m: Mesh, act: Action, a: string, b: string, past: Past)
    requires Members(m, a, b) && act.Poll? && Enabled(m, act) && FlowOk(FlowOf(m, a, b), past)
    ensures Members(Perform(hash, m, act), a, b)
    ensures var f, g := FlowOf(m, a, b), FlowOf(Perform(hash, m, act), a, b);
            FlowOk(g, PastBy(f, act, g, a, b, past))
  {
    hide Encoding, Decoding, Canonical, LastRecord, Trim, Utf8, Post, PollDigests;
    PollFlow(hash, m, act.at, act.now, a, b);
    var f := FlowOf(m, a, b);
    var digest := Digest(hash(Encoding(m.nodes[act.at].local)));
    LastRecordPush(f.out, digest);
    LastRecordPush(f.back, digest);
    SoundPush(f.out, digest);
    SoundPush(f.back, digest);
  }

  lemma ShutKeeps(hash: Hasher, m: Mesh, act: Action, a: string, b: string, past: Past)
    requires Members(m, a, b) && act.Shut? && Enabled(m, act) && FlowOk(FlowOf(m, a, b), past)
    ensures Members(Perform(hash, m, act), a, b)
    ensures var f, g := FlowOf(m, a, b), FlowOf(Perform(hash, m, act), a, b);
            FlowOk(g, PastBy(f, act, g, a, b, past))
  {
    hide Encoding, Decoding, Canonical, LastRecord, Trim, Utf8, Close, Kept;
    ShutFlow(hash, m, act.at, act.peer, act.keptOut, act.keptIn, a, b);
  }

  // b takes delivery from a.
  lemma ArriveKeeps(hash: Hasher, m: Mesh, a: string, b: string, past: Past)
    requires Members(m, a, b) && Enabled(m, Deliver(a, b)) && FlowOk(FlowOf(m, a, b), past)
    ensures Members(Perform(hash, m, Deliver(a, b)), a, b)
    ensures var f, g := FlowOf(m, a, b), FlowOf(Perform(hash, m, Deliver(a, b)), a, b);
            FlowOk(g, PastBy(f, Deliver(a, b), g, a, b, past))
  {
    hide Encoding, Decoding, Canonical, LastRecord, Receive, Post, Answers, Trim, Utf8;
    ArriveFlow(hash, m, a, b);
    var f := FlowOf(m, a, b);
    assert f.out != [];
    LastRecordPop(f.out);
    SoundPop(f.out);
    RecordRoundTrip(f.local);
    var reply := Answers(hash, m.nodes[b], a, f.out[0]);
    AnswersSound(hash, m.nodes[b], a, f.out[0]);
    AnswerPush(f.back, reply);
  }

  // An answer adds at most one payload, which decodes.
  lemma AnswerPush(w: seq<Payload>, reply: seq<Payload>)
    requires |reply| <= 1 && forall x :: x in reply ==> Sound(x)
    ensures AllSound(w) ==> AllSound(w + reply)
    ensures LastRecord(w + reply) ==
            if reply != [] && reply[0].FullRecord? then Some(reply[0].encoded) else LastRecord(w)
  {
    hide Decoding;
    if reply == [] {
      assert w + reply == w;
    } else {
      assert reply == [reply[0]] && reply[0] in reply;
      LastRecordPush(w, reply[0]);
    }
  }

  // a takes delivery from b, and may answer.
  lemma AnswerKeeps(hash: Hasher, m: Mesh, a: string, b: string, past: Past)
    requires Members(m, a, b) && Enabled(m, Deliver(b, a)) && FlowOk(FlowOf(m, a, b), past)
    ensures Members(Perform(hash, m, Deliver(b, a)), a, b)
    ensures var f, g := FlowOf(m, a, b), FlowOf(Perform(hash, m, Deliver(b, a)), a, b);
            FlowOk(g, PastBy(f, Deliver(b, a), g, a, b, past))
  {
    hide Encoding, Decoding, Canonical, LastRecord, Receive, Post, Trim, Utf8;
    ReplyFlow(hash, m, a, b);
    var f := FlowOf(m, a, b);
    assert f.back != [];
    LastRecordPop(f.back);
    SoundPop(f.back);
    RecordRoundTrip(f.local);
    var reply := Answers(hash, m.nodes[a], b, f.back[0]);
    AnswersSound(hash, m.nodes[a], b, f.back[0]);
    AnswerPush(f.out, reply);
  }

  lemma ElsewhereKeeps(hash: Hasher, m: Mesh, act: Action, a: string, b: string, past: Past)
    requires Members(m, a, b) && act.Deliver? && Enabled(m, act) && FlowOk(FlowOf(m, a, b), past)
    requires (act.from, act.at) != (a, b) && (act.from, act.at) != (b, a)
    ensures Members(Perform(hash, m, act), a, b)
    ensures var f, g := FlowOf(m, a, b), FlowOf(Perform(hash, m, act), a, b);
            FlowOk(g, PastBy(f, act, g, a, b, past))
  {
    hide Encoding, Decoding, Canonical, LastRecord, Receive, Post, Trim, Utf8;
    ElsewhereFlow(hash, m, act.from, act.at, a, b);
  }

  lemma StepKeeps(hash: Hasher, m: Mesh, act: Action, a: string, b: string, past: Past)
    requires Members(m, a, b) && FlowOk(FlowOf(m, a, b), past)
    ensures Members(Next(hash, m, act), a, b)
    ensures var f, g := FlowOf(m, a, b), FlowOf(Next(hash, m, act), a, b);
            FlowOk(g, PastBy(f, act, g, a, b, past))
  {
    hide FlowOf, Perform, ValidPeerId, LastRecord, AllSound;
    if Enabled(m, act) {
      match act
      case Ready(_, _, _) => ReadyKeeps(hash, m, act, a, b, past);
      case SetRecord(_, _) => SetRecordKeeps(hash, m, act, a, b, past);
      case Poll(_, _) => PollKeeps(hash, m, act, a, b, past);
      case Shut(_, _, _, _) => ShutKeeps(hash, m, act, a, b, past);
      case Deliver(from, at) =>
        if (from, at) == (a, b) {
          ArriveKeeps(hash, m, a, b, past);
        } else if (from, at) == (b, a) {
          AnswerKeeps(hash, m, a, b, past);
        } else {
          ElsewhereKeeps(hash, m, act, a, b, past);
        }
    }
  }

  lemma {:induction false} FlowAlways(
    hash: Hasher, records: map<string, Record>, log: seq<Action>, a: string, b: string)
    requires Members(Start(records), a, b)
    ensures var m := After(hash, Start(records), log);
            Members(m, a, b) && FlowOk(FlowOf(m, a, b), PastOf(hash, Start(records), log, a, b))
  {
    hide FlowOk, Next, PastBy, ValidPeerId;
    if log == [] {
      StartOk(records, a, b);
    } else {
      var before := log[..|log| - 1];
      FlowAlways(hash, records, before, a, b);
      StepKeeps(hash, After(hash, Start(records), before), log[|log| - 1], a, b,
                PastOf(hash, Start(records), before, a, b));
    }
  }

  lemma StartOk(records: map<string, Record>, a: string, b: string)
    requires Members(Start(records), a, b)
    ensures FlowOk(FlowOf(Start(records), a, b), Past(false, false))
  {
    hide Encoding, Decoding, Canonical, Trim, Utf8;
  }

  // ---- Main results ----

  /** No full record is in flight in either direction. */
  predicate Quiet(m: Mesh, a: string, b: string)
  {
    LastRecord(Wire(m.wires, a, b)).None? && LastRecord(Wire(m.wires, b, a)).None?
  }

  predicate BothUp(m: Mesh, a: string, b: string)
  {
    a in m.nodes && b in m.nodes && b in m.nodes[a].links && a in m.nodes[b].links
  }

  /** `b` holds `a`'s current record. */
  predicate Knows(m: Mesh, b: string, a: string)
  {
    a in m.nodes && b in m.nodes && a in m.nodes[b].dir.records && m.nodes[b].dir.records[a] == m.nodes[a].local
  }

  // Staleness: in every run of every mesh, once no record of `a` is in flight to `b` and `a`'s link is
  // up, what `b` holds for `a` is `a`'s current record exactly when no close of `b` has cut it off.
  lemma StaleExactly(hash: Hasher, records: map<string, Record>, log: seq<Action>, a: string, b: string)
    requires Members(Start(records), a, b)
    ensures var m := After(hash, Start(records), log);
            && a in m.nodes && b in m.nodes
            && (b in m.nodes[a].links && LastRecord(Wire(m.wires, a, b)).None? && a in m.nodes[b].dir.records ==>
                  (Knows(m, b, a) <==> !Cut(hash, Start(records), log, a, b)))
  {
    hide After, PastOf;
    FlowAlways(hash, records, log, a, b);
  }

  // Convergence: of two quiet Peers with both links up, one holds the other's current record exactly
  // when it has been introduced and not cut off, whatever was lost or outlived a close before.
  lemma Converges(hash: Hasher, records: map<string, Record>, log: seq<Action>, a: string, b: string)
    requires Members(Start(records), a, b)
    requires var m := After(hash, Start(records), log); BothUp(m, a, b) && Quiet(m, a, b)
    ensures var m := After(hash, Start(records), log);
            && (a in m.nodes[b].dir.records <==> Introduced(hash, Start(records), log, a, b))
            && (Knows(m, b, a) <==>
                Introduced(hash, Start(records), log, a, b) && !Cut(hash, Start(records), log, a, b))
  {
    hide After, PastOf;
    FlowAlways(hash, records, log, a, b);
  }

  // ---- Closes that lose the oldest first ----

  /** Whenever `b` closes, either no record of `a`'s survives on the wire or the newest one does. */
  predicate ClosesTidily(hash: Hasher, m: Mesh, log: seq<Action>, a: string, b: string)
  {
    forall k :: 0 <= k < |log| && Closes(log[k], b, a) ==> TidyClose(After(hash, m, log[..k]), log[k], a, b)
  }

  predicate TidyClose(m: Mesh, act: Action, a: string, b: string)
    requires act.Shut?
  {
    var w := Wire(m.wires, a, b);
    LastRecord(Kept(w, act.keptIn)).None? || LastRecord(Kept(w, act.keptIn)) == LastRecord(w)
  }

  // In such runs nothing is ever cut off, so what is held once the wire is quiet is current.
  lemma {:induction false} NeverStale(
    hash: Hasher, records: map<string, Record>, log: seq<Action>, a: string, b: string)
    requires Members(Start(records), a, b) && ClosesTidily(hash, Start(records), log, a, b)
    ensures var m := After(hash, Start(records), log);
            && a in m.nodes
            && (b in m.nodes[a].links ==> !Cut(hash, Start(records), log, a, b))
  {
    hide FlowOk, Next, PastBy, ValidPeerId, TidyClose;
    FlowAlways(hash, records, log, a, b);
    if log != [] {
      var before := log[..|log| - 1];
      var m := After(hash, Start(records), before);
      assert ClosesTidily(hash, Start(records), before, a, b) by {
        forall k | 0 <= k < |before| && Closes(before[k], b, a)
          ensures TidyClose(After(hash, Start(records), before[..k]), before[k], a, b)
        {
          assert before[k] == log[k] && before[..k] == log[..k];
        }
      }
      NeverStale(hash, records, before, a, b);
      FlowAlways(hash, records, before, a, b);
      TidyStep(hash, m, log[|log| - 1], a, b, PastOf(hash, Start(records), before, a, b));
    }
  }

  lemma TidyStep(hash: Hasher, m: Mesh, act: Action, a: string, b: string, past: Past)
    requires Members(m, a, b) && FlowOk(FlowOf(m, a, b), past) && (FlowOf(m, a, b).ready ==> !past.cut)
    requires Closes(act, b, a) ==> TidyClose(m, act, a, b)
    ensures Members(Next(hash, m, act), a, b)
    ensures var f, g := FlowOf(m, a, b), FlowOf(Next(hash, m, act), a, b);
            g.ready ==> !PastBy(f, act, g, a, b, past).cut
  {
    hide Encoding, Decoding, Canonical, LastRecord, Perform, ValidPeerId, AllSound, Kept;
    StepKeeps(hash, m, act, a, b, past);
    if Closes(act, b, a) {
      ShutFlow(hash, m, b, a, act.keptOut, act.keptIn, a, b);
    } else if past.cut {
      OnlyReadyRaises(hash, m, act, a, b);
    }
  }

  // A link that was down comes up only by turning ready, which sends the current record.
  lemma OnlyReadyRaises(hash: Hasher, m: Mesh, act: Action, a: string, b: string)
    requires Members(m, a, b)
    ensures Members(Next(hash, m, act), a, b)
    ensures var f, g := FlowOf(m, a, b), FlowOf(Next(hash, m, act), a, b);
            !f.ready && g.ready ==> LastRecord(g.out) == Some(Encoding(g.local))
  {
    hide Canonical, Encoding, Decoding, Requeue, Trim, Utf8, Post, LastRecord, DigestInterval, Broadcast, SortedIds,
         LexLe;
    if IsReady(act, a, b) {
      ReadyFlow(hash, m, a, b, act.now, a, b);
      LastRecordPush(FlowOf(m, a, b).out, FullRecord(Encoding(FlowOf(m, a, b).local)));
    }
  }

  // ---- Runs without a close ----

  /** Until `b` is ready, nothing has used up `a`'s reply; once both are, they are introduced. */
  predicate Fresh(f: Flow, past: Past)
  {
    && (!f.remoteReady ==> LastRecord(f.back).None? && (f.ready ==> f.pending))
    && (f.ready && f.remoteReady ==> past.introduced)
    && !past.cut
  }

  lemma FreshStep(hash: Hasher, m: Mesh, act: Action, a: string, b: string, past: Past)
    requires Members(m, a, b) && FlowOk(FlowOf(m, a, b), past) && Fresh(FlowOf(m, a, b), past) && !act.Shut?
    ensures Members(Next(hash, m, act), a, b)
    ensures var f, g := FlowOf(m, a, b), FlowOf(Next(hash, m, act), a, b);
            Fresh(g, PastBy(f, act, g, a, b, past))
  {
    hide Encoding, Decoding, Canonical, LastRecord, Perform, FlowOf, ValidPeerId, FlowOk, AllSound, Answers;
    StepKeeps(hash, m, act, a, b, past);
    var f := FlowOf(m, a, b);
    FlowUp(m, a, b);
    if Enabled(m, act) {
      match act
      case Ready(at, peer, now) =>
        ReadyFlow(hash, m, at, peer, now, a, b);
        LastRecordPush(f.out, FullRecord(Encoding(f.local)));
      case SetRecord(at, record) => SetRecordFlow(hash, m, at, record, a, b);
      case Poll(at, now) =>
        PollFlow(hash, m, at, now, a, b);
        LastRecordPush(f.back, Digest(hash(Encoding(m.nodes[at].local))));
      case Deliver(from, at) =>
        if (from, at) == (a, b) {
          ArriveFlow(hash, m, a, b);
          NotReadySilent(hash, m.nodes[b], a, f.out[0]);
          assert f.back + [] == f.back;
        } else if (from, at) == (b, a) {
          LastRecordPop(f.back);
          ReplyFlow(hash, m, a, b);
        } else {
          ElsewhereFlow(hash, m, from, at, a, b);
        }
      case _ =>
    }
  }

  lemma NotReadySilent(hash: Hasher, g: GossipState, peer: string, p: Payload)
    ensures peer !in g.links ==> Answers(hash, g, peer, p) == []
  {
  }

  lemma FlowUp(m: Mesh, a: string, b: string)
    requires a in m.nodes && b in m.nodes
    ensures var f := FlowOf(m, a, b);
            && f.local == m.nodes[a].local && f.ready == (b in m.nodes[a].links)
            && f.remoteReady == (a in m.nodes[b].links)
            && f.out == Wire(m.wires, a, b) && f.back == Wire(m.wires, b, a)
  {
  }

  lemma {:induction false} FreshAlways(
    hash: Hasher, records: map<string, Record>, log: seq<Action>, a: string, b: string)
    requires Members(Start(records), a, b) && forall i :: 0 <= i < |log| ==> !log[i].Shut?
    ensures var m := After(hash, Start(records), log);
            Members(m, a, b) && Fresh(FlowOf(m, a, b), PastOf(hash, Start(records), log, a, b))
  {
    hide Next, PastBy, ValidPeerId, FlowOk, Encoding, Decoding, Canonical;
    if log != [] {
      var before := log[..|log| - 1];
      FreshAlways(hash, records, before, a, b);
      FlowAlways(hash, records, before, a, b);
      FreshStep(hash, After(hash, Start(records), before), log[|log| - 1], a, b,
                PastOf(hash, Start(records), before, a, b));
    }
  }

  // In a run where no link is closed, quiet wires between two ready Peers mean that each knows the
  // other's record. No Digest is needed, whatever arrived before a link was ready and was lost.
  lemma ConvergesWithoutClose(hash: Hasher, records: map<string, Record>, log: seq<Action>, a: string, b: string)
    requires Members(Start(records), a, b)
    requires forall i :: 0 <= i < |log| ==> !log[i].Shut?
    requires var m := After(hash, Start(records), log); BothUp(m, a, b) && Quiet(m, a, b)
    ensures Knows(After(hash, Start(records), log), b, a) && Knows(After(hash, Start(records), log), a, b)
  {
    hide After, PastOf, Knows;
    FreshAlways(hash, records, log, a, b);
    FreshAlways(hash, records, log, b, a);
    Converges(hash, records, log, a, b);
    Converges(hash, records, log, b, a);
  }

  // ---- What has arrived ----

  /** Since `b` last closed its link, a record from `a` has reached it while the link was up. */
  predicate Accepted(hash: Hasher, m: Mesh, log: seq<Action>, a: string, b: string)
  {
    log != [] &&
    var now, act := After(hash, m, log[..|log| - 1]), log[|log| - 1];
    AcceptedBy(now, act, a, b, Accepted(hash, m, log[..|log| - 1], a, b))
  }

  predicate AcceptedBy(m: Mesh, act: Action, a: string, b: string, before: bool)
  {
    if !Enabled(m, act) then before
    else if Closes(act, b, a) then false
    else if act == Deliver(a, b) && a in m.nodes[b].links && Wire(m.wires, a, b)[0].FullRecord? then
      before || Decoding(Wire(m.wires, a, b)[0].encoded).Ok?
    else before
  }

  lemma AcceptStep(hash: Hasher, m: Mesh, act: Action, a: string, b: string)
    requires Members(m, a, b)
    ensures Members(Next(hash, m, act), a, b)
    ensures FlowOf(Next(hash, m, act), a, b).known.Some? <==> AcceptedBy(m, act, a, b, FlowOf(m, a, b).known.Some?)
  {
    hide Encoding, Decoding, Canonical, Requeue, Trim, Utf8, Post, SortedIds, LexLe, Broadcast, Kept, ReadyPrefixes,
         ReadyOf, Rescheduled, Due, DigestInterval, InSync;
  }

  lemma {:induction false} KnownMeansAccepted(
    hash: Hasher, records: map<string, Record>, log: seq<Action>, a: string, b: string)
    requires Members(Start(records), a, b)
    ensures var m := After(hash, Start(records), log);
            Members(m, a, b) && (FlowOf(m, a, b).known.Some? <==> Accepted(hash, Start(records), log, a, b))
  {
    hide Next, AcceptedBy;
    if log != [] {
      KnownMeansAccepted(hash, records, log[..|log| - 1], a, b);
      AcceptStep(hash, After(hash, Start(records), log[..|log| - 1]), log[|log| - 1], a, b);
    }
  }

  // With only `a`'s link known to be up, a quiet direction has converged exactly when some record of
  // `a` has reached `b` since `b` last closed, older generations included, and none was cut off.
  lemma QuietExactly(hash: Hasher, records: map<string, Record>, log: seq<Action>, a: string, b: string)
    requires Members(Start(records), a, b)
    requires var m := After(hash, Start(records), log);
             a in m.nodes && b in m.nodes[a].links && LastRecord(Wire(m.wires, a, b)).None?
    ensures Knows(After(hash, Start(records), log), b, a) <==>
            Accepted(hash, Start(records), log, a, b) && !Cut(hash, Start(records), log, a, b)
  {
    hide After, PastOf, Accepted;
    FlowAlways(hash, records, log, a, b);
    KnownMeansAccepted(hash, records, log, a, b);
  }
}
