/**
What deliveries alone will bring about, told beforehand from any state of any mesh: exactly when a
pair that is drained has converged, and that one Digest always suffices.
*/
module Drain {
  import opened Basics
  import opened RuntimeRecord
  import opened Gossip
  import opened Unicode
  import opened Mesh
  import opened Convergence
  import opened Echo

  predicate Deliveries(log: seq<Action>)
  {
    forall i :: 0 <= i < |log| ==> log[i].Deliver?
  }

  /** Both wires of the pair are empty. */
  predicate Drained(m: Mesh, a: string, b: string)
  {
    Wire(m.wires, a, b) == [] && Wire(m.wires, b, a) == []
  }

  // ---- What a wire will do ----

  predicate Readable(p: Payload)
  {
    p.FullRecord? && Decoding(p.encoded).Ok?
  }

  predicate Unsynced(hash: Hasher, known: Option<Record>, p: Payload)
  {
    p.Digest? && !(known.Some? && hash(Encoding(known.value)) == p.hash)
  }

  function Learned(known: Option<Record>, p: Payload): (r: Option<Record>)
  {
    if Readable(p) then Some(Decoding(p.encoded).value) else known
  }

  /** What the receiver holds once all of the wire has arrived. */
  function Arrives(known: Option<Record>, w: seq<Payload>): (r: Option<Record>)
    decreases |w|
  {
    if w == [] then known else Arrives(Learned(known, w[0]), w[1..])
  }

  /** Some Digest of the wire will find the receiver out of step when it arrives. */
  predicate Asks(hash: Hasher, known: Option<Record>, w: seq<Payload>)
    decreases |w|
  {
    w != [] && (Unsynced(hash, known, w[0]) || Asks(hash, Learned(known, w[0]), w[1..]))
  }

  lemma {:induction false} ArrivesPush(known: Option<Record>, w: seq<Payload>, p: Payload)
    ensures Arrives(known, w + [p]) == Learned(Arrives(known, w), p)
    decreases |w|
  {
    hide Learned;
    if w == [] {
      assert (w + [p])[1..] == [];
    } else {
      ArrivesPush(Learned(known, w[0]), w[1..], p);
      assert (w + [p])[1..] == w[1..] + [p];
    }
  }

  lemma {:induction false} AsksPush(hash: Hasher, known: Option<Record>, w: seq<Payload>, p: Payload)
    ensures Asks(hash, known, w + [p]) <==> Asks(hash, known, w) || Unsynced(hash, Arrives(known, w), p)
    decreases |w|
  {
    hide Learned, Unsynced;
    if w == [] {
      assert (w + [p])[1..] == [];
    } else {
      AsksPush(hash, Learned(known, w[0]), w[1..], p);
      assert (w + [p])[1..] == w[1..] + [p];
    }
  }

  /** What a ready controller sends back for a payload. */
  function AnswerOf(hash: Hasher, pending: bool, known: Option<Record>, local: Record, p: Payload): (r: seq<Payload>)
  {
    if (Readable(p) && pending) || p == Need then [FullRecord(Encoding(local))]
    else if Unsynced(hash, known, p) then [Need]
    else []
  }

  lemma AnswersAre(hash: Hasher, m: Mesh, a: string, b: string, p: Payload)
    requires Members(m, a, b) && BothUp(m, a, b)
    ensures Answers(hash, m.nodes[b], a, p) ==
            AnswerOf(hash, FlowOf(m, b, a).pending, FlowOf(m, a, b).known, FlowOf(m, b, a).local, p)
  {
    hide Encoding, Decoding, Canonical, Trim, Utf8;
  }

  // ---- What a pair will do ----

  /** A record of `b`'s will yet reach `a`: `f` is the direction from `a` to `b`, and `r` the other. */
  predicate Calls(hash: Hasher, f: Flow, r: Flow)
  {
    || Need in f.out
    || (exists p :: p in f.back && (Readable(p) || Unsynced(hash, r.known, p)))
    || (r.pending && exists p :: p in f.out && Readable(p))
  }

  /** `a` will yet send its record: it has been asked, will be asked, or owes a reply that will be called for. */
  predicate Sends(hash: Hasher, f: Flow, r: Flow)
  {
    Need in f.back || Asks(hash, f.known, f.out) || (f.pending && Calls(hash, f, r))
  }

  /** Deliveries will leave `b` with `a`'s current record. */
  predicate WillKnow(hash: Hasher, f: Flow, r: Flow)
  {
    Sends(hash, f, r) || Arrives(f.known, f.out) == Some(f.local)
  }

  // One delivery neither makes nor breaks that promise. First, `b` takes one from `a`.
  lemma ArriveLogic(hash: Hasher, f: Flow, r: Flow, g: Flow, q: Flow)
    requires f.out != [] && Readable(FullRecord(Encoding(r.local)))
    requires g.local == f.local && g.pending == f.pending && g.out == f.out[1..] &&
             g.known == Learned(f.known, f.out[0])
    requires g.back == f.back + AnswerOf(hash, r.pending, f.known, r.local, f.out[0])
    requires q.known == r.known && q.pending == (r.pending && !Readable(f.out[0]))
    ensures WillKnow(hash, g, q) <==> WillKnow(hash, f, r)
  {
    hide Encoding, Decoding, Canonical;
    var p := f.out[0];
    assert f.out == [p] + g.out && p in f.out;
    assert Arrives(f.known, f.out) == Arrives(g.known, g.out);
    var reply := AnswerOf(hash, r.pending, f.known, r.local, p);
    assert reply != [] ==> reply[0] in g.back;
    assert forall x :: x in g.back <==> x in f.back || x in reply;
  }

  // Second, `a` takes one from `b`.
  lemma ReplyLogic(hash: Hasher, f: Flow, r: Flow, g: Flow, q: Flow)
    requires f.back != [] && Decoding(Encoding(f.local)) == Ok(f.local)
    requires g.local == f.local && g.known == f.known && g.back == f.back[1..]
    requires g.out == f.out + AnswerOf(hash, f.pending, r.known, f.local, f.back[0])
    requires g.pending == (f.pending && !Readable(f.back[0]))
    requires q.pending == r.pending && q.known == Learned(r.known, f.back[0])
    ensures WillKnow(hash, g, q) <==> WillKnow(hash, f, r)
  {
    hide Encoding, Decoding, Canonical, Arrives, Asks;
    var p := f.back[0];
    assert f.back == [p] + g.back && p in f.back;
    var reply := AnswerOf(hash, f.pending, r.known, f.local, p);
    if reply == [] {
      assert g.out == f.out;
    } else {
      ArrivesPush(f.known, f.out, reply[0]);
      AsksPush(hash, f.known, f.out, reply[0]);
      assert g.out == f.out + [reply[0]] && reply[0] in g.out;
      assert forall x :: x in g.out <==> x in f.out || x == reply[0];
    }
  }

  lemma DeliverWillKnow(hash: Hasher, m: Mesh, act: Action, a: string, b: string)
    requires Members(m, a, b) && BothUp(m, a, b) && act.Deliver?
    ensures var n := Next(hash, m, act);
            && Members(n, a, b) && BothUp(n, a, b) && n.nodes[a].local == m.nodes[a].local
            && (WillKnow(hash, FlowOf(n, a, b), FlowOf(n, b, a)) <==> WillKnow(hash, FlowOf(m, a, b), FlowOf(m, b, a)))
  {
    hide Encoding, Decoding, Canonical, Receive, Post, Trim, Utf8, WillKnow, Answers, AnswerOf;
    if Enabled(m, act) {
      var n := Perform(hash, m, act);
      var f, r, g, q := FlowOf(m, a, b), FlowOf(m, b, a), FlowOf(n, a, b), FlowOf(n, b, a);
      RecordRoundTrip(f.local);
      RecordRoundTrip(r.local);
      if (act.from, act.at) == (a, b) {
        ArriveFlow(hash, m, a, b);
        ReplyFlow(hash, m, b, a);
        AnswersAre(hash, m, a, b, f.out[0]);
        ArriveLogic(hash, f, r, g, q);
      } else if (act.from, act.at) == (b, a) {
        ReplyFlow(hash, m, a, b);
        ArriveFlow(hash, m, b, a);
        AnswersAre(hash, m, b, a, f.back[0]);
        ReplyLogic(hash, f, r, g, q);
      } else {
        ElsewhereFlow(hash, m, act.from, act.at, a, b);
        ElsewhereFlow(hash, m, act.from, act.at, b, a);
      }
    }
  }

  lemma {:induction false} DeliveriesKeep(hash: Hasher, m: Mesh, log: seq<Action>, a: string, b: string)
    requires Members(m, a, b) && BothUp(m, a, b) && Deliveries(log)
    ensures var n := After(hash, m, log);
            && Members(n, a, b) && BothUp(n, a, b) && n.nodes[a].local == m.nodes[a].local
            && (WillKnow(hash, FlowOf(n, a, b), FlowOf(n, b, a)) <==> WillKnow(hash, FlowOf(m, a, b), FlowOf(m, b, a)))
  {
    hide WillKnow, Next, ValidPeerId;
    if log != [] {
      DeliveriesKeep(hash, m, log[..|log| - 1], a, b);
      DeliverWillKnow(hash, After(hash, m, log[..|log| - 1]), log[|log| - 1], a, b);
    }
  }

  // From any state of any mesh with both links up, reachable or not: once deliveries have drained the
  // pair, `b` holds `a`'s current record exactly when the state they started from said so.
  lemma DrainsExactly(hash: Hasher, m: Mesh, log: seq<Action>, a: string, b: string)
    requires Members(m, a, b) && BothUp(m, a, b) && Deliveries(log)
    requires Drained(After(hash, m, log), a, b)
    ensures Knows(After(hash, m, log), b, a) <==> WillKnow(hash, FlowOf(m, a, b), FlowOf(m, b, a))
  {
    hide After, ValidPeerId, Encoding, Decoding, Canonical;
    DeliveriesKeep(hash, m, log, a, b);
  }

  // ---- One Digest suffices ----

  // Anti-entropy: from any state of any mesh, stale directories and lost payloads included, one due
  // Digest of `a` and deliveries until the pair is drained leave `b` with `a`'s current record.
  lemma PollRepairs(hash: Hasher, m: Mesh, a: string, b: string, now: nat, log: seq<Action>)
    requires InjectiveOnRecords(hash) && Members(m, a, b) && BothUp(m, a, b) && Deliveries(log)
    requires IsDue(m.nodes[a].links, b, now)
    requires Drained(After(hash, Next(hash, m, Poll(a, now)), log), a, b)
    ensures Knows(After(hash, Next(hash, m, Poll(a, now)), log), b, a)
  {
    hide After, ValidPeerId, Canonical, Encoding, Decoding, PollDigests, Post, Arrives, Asks, Calls;
    PollFlow(hash, m, a, now, a, b);
    PollFlow(hash, m, a, now, b, a);
    var n := Next(hash, m, Poll(a, now));
    var f := FlowOf(m, a, b);
    var digest, known := Digest(hash(Encoding(f.local))), Arrives(f.known, f.out);
    ArrivesPush(f.known, f.out, digest);
    AsksPush(hash, f.known, f.out, digest);
    if !Unsynced(hash, known, digest) {
      EncodingInjective(known.value, f.local);
    }
    DrainsExactly(hash, n, log, a, b);
  }
}
