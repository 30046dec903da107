/** Gossip falls silent by itself, replies at most once a generation, and heals by Digest. */
module Echo {
  import opened Basics
  import opened RuntimeRecord
  import opened Directory
  import opened Gossip
  import opened Unicode
  import opened Mesh

  // ---- No echo loop ----

  /** How many deliveries a payload can still cause, counting its own. */
  function Weight(p: Payload): (w: nat)
  {
    match p
    case Digest(_) => 3
    case Need => 2
    case _ => 1
  }

  function WireWeight(w: seq<Payload>): (r: nat)
  {
    if w == [] then 0 else WireWeight(w[..|w| - 1]) + Weight(w[|w| - 1])
  }

  lemma WeightPush(w: seq<Payload>, p: Payload)
    ensures WireWeight(w + [p]) == WireWeight(w) + Weight(p)
  {
    assert (w + [p])[..|w|] == w;
  }

  lemma {:induction false} WeightPop(w: seq<Payload>)
    requires w != []
    ensures WireWeight(w) == Weight(w[0]) + WireWeight(w[1..])
  {
    if |w| == 1 {
      assert w[..0] == [] && w[1..] == [];
    } else {
      WeightPop(w[..|w| - 1]);
      assert w[1..][..|w| - 2] == w[..|w| - 1][1..];
    }
  }

  /** The wire from one Peer to another, and the reciprocal reply its first record would cause. */
  function Cost(m: Mesh, from: string, to: string): (c: nat)
  {
    WireWeight(Wire(m.wires, from, to)) +
    if to in m.nodes && from in m.nodes[to].links && m.nodes[to].links[from].reciprocalPending then 1 else 0
  }

  ghost function Total(m: Mesh, pairs: set<(string, string)>): (c: nat)
  {
    if pairs == {} then 0 else
      var p :| p in pairs;
      Cost(m, p.0, p.1) + Total(m, pairs - {p})
  }

  lemma {:induction false} TotalSplits(m: Mesh, pairs: set<(string, string)>, p: (string, string))
    requires p in pairs
    ensures Total(m, pairs) == Cost(m, p.0, p.1) + Total(m, pairs - {p})
    decreases pairs
  {
    var q :| q in pairs && Total(m, pairs) == Cost(m, q.0, q.1) + Total(m, pairs - {q});
    if p != q {
      TotalSplits(m, pairs - {q}, p);
      TotalSplits(m, pairs - {p}, q);
      assert pairs - {q} - {p} == pairs - {p} - {q};
    }
  }

  lemma {:induction false} TotalAgrees(m: Mesh, n: Mesh, pairs: set<(string, string)>)
    requires forall p :: p in pairs ==> Cost(m, p.0, p.1) == Cost(n, p.0, p.1)
    ensures Total(m, pairs) == Total(n, pairs)
    decreases pairs
  {
    if pairs != {} {
      var p :| p in pairs;
      TotalSplits(m, pairs, p);
      TotalSplits(n, pairs, p);
      TotalAgrees(m, n, pairs - {p});
    }
  }

  ghost function AllPairs(m: Mesh): (r: set<(string, string)>)
  {
    set x, y | x in m.nodes && y in m.nodes :: (x, y)
  }

  // A reply weighs less than what it answers, or uses up the reciprocal that allowed it.
  lemma ReplyIsLighter(hash: Hasher, g: GossipState, peer: string, p: Payload)
    ensures var (next, r) := Receive(hash, g, peer, p);
            var owed := peer in g.links && g.links[peer].reciprocalPending;
            var owes := peer in next.links && next.links[peer].reciprocalPending;
            && next.links.Keys == g.links.Keys
            && (forall q :: q in g.links && q != peer ==> next.links[q] == g.links[q])
            && (r.Ok? && r.value.Some? ==> r.value.value.target == peer)
            && (if r.Ok? && r.value.Some? then Weight(r.value.value.payload) else 0) + (if owes then 1 else 0)
               < Weight(p) + if owed then 1 else 0
  {
    hide Encoding, Decoding, Canonical, Replaced, Trim, Utf8;
  }

  lemma DeliveryCosts(hash: Hasher, m: Mesh, from: string, at: string)
    requires Enabled(m, Deliver(from, at))
    ensures var n := Perform(hash, m, Deliver(from, at));
            && n.nodes.Keys == m.nodes.Keys
            && Cost(n, from, at) + Cost(n, at, from) < Cost(m, from, at) + Cost(m, at, from)
            && forall p :: p in AllPairs(m) && p != (from, at) && p != (at, from) ==>
                 Cost(n, p.0, p.1) == Cost(m, p.0, p.1)
  {
    hide Encoding, Decoding, Canonical, Replaced, Trim, Utf8, Post, PayloadsTo, Receive, Weight, WireWeight;
    var queue := Wire(m.wires, from, at);
    var (next, r) := Receive(hash, m.nodes[at], from, queue[0]);
    var wires := m.wires[(from, at) := queue[1..]];
    var n := Perform(hash, m, Deliver(from, at));
    ReplyIsLighter(hash, m.nodes[at], from, queue[0]);
    WeightPop(queue);
    forall x, y ensures Wire(n.wires, x, y) == if (x, y) == (at, from) && r.Ok? && r.value.Some?
                                               then Wire(wires, x, y) + [r.value.value.payload] else Wire(wires, x, y)
    {
      PostReaches(wires, at, Replies(r), x, y);
      ReplyReaches(r, y);
    }
    if r.Ok? && r.value.Some? {
      WeightPush(Wire(m.wires, at, from), r.value.value.payload);
    }
  }

  lemma DeliveryLowersTotal(hash: Hasher, m: Mesh, from: string, at: string)
    requires Enabled(m, Deliver(from, at))
    ensures var n := Perform(hash, m, Deliver(from, at));
            AllPairs(n) == AllPairs(m) && Total(n, AllPairs(n)) < Total(m, AllPairs(m))
  {
    hide Perform, Cost;
    DeliveryCosts(hash, m, from, at);
    var n := Perform(hash, m, Deliver(from, at));
    var pairs, p, q := AllPairs(m), (from, at), (at, from);
    TotalSplits(m, pairs, p);
    TotalSplits(m, pairs - {p}, q);
    TotalSplits(n, pairs, p);
    TotalSplits(n, pairs - {p}, q);
    TotalAgrees(m, n, pairs - {p} - {q});
  }

  /** Every action of `log` is a delivery that is possible when its turn comes. */
  predicate OnlyDeliveries(hash: Hasher, m: Mesh, log: seq<Action>)
    decreases log
  {
    log == [] || (log[0].Deliver? && Enabled(m, log[0]) && OnlyDeliveries(hash, Perform(hash, m, log[0]), log[1..]))
  }

  // No echo loop: from any state of any mesh, whatever is in flight and however it was reached,
  // deliveries alone come to an end, within a number that the state determines.
  lemma {:induction false} DeliveryTerminates(hash: Hasher, m: Mesh, log: seq<Action>)
    requires OnlyDeliveries(hash, m, log)
    ensures |log| <= Total(m, AllPairs(m))
    decreases log
  {
    hide Perform, Total, AllPairs;
    if log != [] {
      DeliveryLowersTotal(hash, m, log[0].from, log[0].at);
      DeliveryTerminates(hash, Perform(hash, m, log[0]), log[1..]);
    }
  }

  // ---- One reciprocal a generation ----

  /** Delivering to `a` from `b` now would make `a` send a reciprocal record. */
  predicate Reciprocates(m: Mesh, act: Action, a: string, b: string)
  {
    && act == Deliver(b, a) && Enabled(m, act)
    && Owes(m, a, b)
    && Wire(m.wires, b, a)[0].FullRecord? && Decoding(Wire(m.wires, b, a)[0].encoded).Ok?
  }

  predicate Owes(m: Mesh, a: string, b: string)
  {
    a in m.nodes && b in m.nodes[a].links && m.nodes[a].links[b].reciprocalPending
  }

  function Reciprocals(hash: Hasher, m: Mesh, log: seq<Action>, a: string, b: string): (n: nat)
  {
    if log == [] then 0 else
      var before := log[..|log| - 1];
      Reciprocals(hash, m, before, a, b) + if Reciprocates(After(hash, m, before), log[|log| - 1], a, b) then 1 else 0
  }

  /** Link generations `a` has opened towards `b`. */
  function Generations(log: seq<Action>, a: string, b: string): (n: nat)
  {
    if log == [] then 0 else
      var last := log[|log| - 1];
      Generations(log[..|log| - 1], a, b) + if last.Ready? && (last.at, last.peer) == (a, b) then 1 else 0
  }

  lemma OweStep(hash: Hasher, m: Mesh, act: Action, a: string, b: string)
    requires a != b && ValidPeerId(b)
    ensures Owes(Next(hash, m, act), a, b) ==>
              (Owes(m, a, b) && !Reciprocates(m, act, a, b)) || (act.Ready? && (act.at, act.peer) == (a, b))
  {
    hide Encoding, Decoding, Canonical, Replaced, Removed, Trim, Utf8, Post, SortedIds, Broadcast;
  }

  // Over any run from a fresh start, each generation accounts for at most one reciprocal record.
  lemma {:induction false} OneReciprocalAGeneration(
    hash: Hasher, records: map<string, Record>, log: seq<Action>, a: string, b: string)
    requires a != b && ValidPeerId(b)
    ensures Reciprocals(hash, Start(records), log, a, b) +
            (if Owes(After(hash, Start(records), log), a, b) then 1 else 0)
            <= Generations(log, a, b)
  {
    hide Next, Reciprocates;
    if log != [] {
      var before := log[..|log| - 1];
      OneReciprocalAGeneration(hash, records, before, a, b);
      OweStep(hash, After(hash, Start(records), before), log[|log| - 1], a, b);
      ReciprocatesOwes(After(hash, Start(records), before), log[|log| - 1], a, b);
    }
  }

  lemma ReciprocatesOwes(m: Mesh, act: Action, a: string, b: string)
    ensures Reciprocates(m, act, a, b) ==> Owes(m, a, b) && !act.Ready?
  {
  }

  // ---- Repair by Digest ----

  ghost predicate InjectiveOnRecords(hash: Hasher)
  {
    forall r: Record, t: Record :: hash(Encoding(r)) == hash(Encoding(t)) ==> Encoding(r) == Encoding(t)
  }

  /** One Digest from `origin`, known to the learner as `a`, and whatever repair it sets off. */
  function RepairRound(hash: Hasher, origin: GossipState, learner: GossipState, a: string, b: string): (r: GossipState)
  {
    var (first, reply) := Receive(hash, learner, a, Digest(hash(Encoding(origin.local))));
    if reply.Err? || reply.value.None? then first else
      var (_, full) := Receive(hash, origin, b, reply.value.value.payload);
      if full.Err? || full.value.None? then first else Receive(hash, first, a, full.value.value.payload).0
  }

  /** The exporters of a prefix other than `a`, in order. */
  function OtherExporters(d: DirState, p: Prefix, a: string): (q: seq<string>)
  {
    Without(Queue(d.order, p), a)
  }

  // Whatever a learner holds for a Peer, however stale, one Digest exchange leaves it holding that
  // Peer's current record. It touches nothing learned from anybody else, no other link, no deadline
  // and the order of no other exporter.
  lemma DigestRepairs(hash: Hasher, origin: GossipState, learner: GossipState, a: string, b: string)
    requires InjectiveOnRecords(hash)
    requires ValidPeerId(a) && ValidPeerId(b) && b in origin.links && a in learner.links
    ensures var r := RepairRound(hash, origin, learner, a, b);
            && a in r.dir.records && r.dir.records[a] == origin.local
            && r.local == learner.local && r.dir.records - {a} == learner.dir.records - {a}
            && r.links - {a} == learner.links - {a}
            && a in r.links && r.links[a].nextDigestAt == learner.links[a].nextDigestAt
            && forall p :: OtherExporters(r.dir, p, a) == OtherExporters(learner.dir, p, a)
  {
    hide Encoding, Decoding, Canonical, Replaced, Trim, Utf8, OtherExporters;
    RecordRoundTrip(origin.local);
    ReplacedElsewhere(learner.dir, a, origin.local);
    if InSync(hash, learner.dir, a, hash(Encoding(origin.local))) {
      EncodingInjective(learner.dir.records[a], origin.local);
    }
  }

  lemma ReplacedElsewhere(d: DirState, a: string, record: Record)
    ensures var r := Replaced(d, a, record);
            && a in r.records && r.records[a] == record && r.records - {a} == d.records - {a}
            && forall p :: OtherExporters(r, p, a) == OtherExporters(d, p, a)
  {
    hide Canonical, ReadyPrefixes, Requeue;
    var r := Replaced(d, a, record);
    var before, next := ReadyOf(d, a), ReadyPrefixes(record);
    forall p ensures OtherExporters(r, p, a) == OtherExporters(d, p, a) {
      var q := Queue(d.order, p);
      assert Queue(r.order, p) == NextQueue(d.order, before - next, next - before, a, p);
      WithoutAbsent(Without(q, a), a);
      WithoutLast(q, a);
    }
  }

  lemma {:induction false} WithoutLast(q: seq<string>, a: string)
    ensures Without(q + [a], a) == Without(q, a)
  {
    if q == [] {
      assert (q + [a])[1..] == [];
    } else {
      WithoutLast(q[1..], a);
      assert (q + [a])[1..] == q[1..] + [a];
    }
  }
}
