/**
Any number of gossip controllers joined pairwise by first-in first-out wires, and every run of
such a mesh: links turning ready again and again, local changes, Digest polls, deliveries, and
links that one end closes on its own.
*/
module Mesh {
  import opened Basics
  import opened Ipv4
  import opened RuntimeRecord
  import opened Directory
  import opened Gossip
  import opened Unicode

  type Wires = map<(string, string), seq<Payload>>

  datatype Mesh = Mesh(nodes: map<string, GossipState>, wires: Wires)

  /** The payloads in flight from one Peer to another, oldest first. */
  function Wire(wires: Wires, from: string, to: string): (w: seq<Payload>)
  {
    if (from, to) in wires then wires[(from, to)] else []
  }

  function Post(wires: Wires, from: string, out: seq<Outbound>): (r: Wires)
  {
    if out == [] then wires else
      var before, last := Post(wires, from, out[..|out| - 1]), out[|out| - 1];
      before[(from, last.target) := Wire(before, from, last.target) + [last.payload]]
  }

  function PayloadsTo(out: seq<Outbound>, target: string): (r: seq<Payload>)
  {
    if out == [] then [] else
      var before, last := PayloadsTo(out[..|out| - 1], target), out[|out| - 1];
      if last.target == target then before + [last.payload] else before
  }

  lemma {:induction false} PostReaches(wires: Wires, from: string, out: seq<Outbound>, a: string, b: string)
    ensures Wire(Post(wires, from, out), a, b) ==
            if a == from && PayloadsTo(out, b) != [] then Wire(wires, a, b) + PayloadsTo(out, b) else Wire(wires, a, b)
  {
    if out != [] {
      PostReaches(wires, from, out[..|out| - 1], a, b);
    }
  }

  // ---- Runs ----

  datatype Action =
    | Ready(at: string, peer: string, now: nat)
    | SetRecord(at: string, record: Record)
    | Poll(at: string, now: nat)
    | Deliver(from: string, at: string)
    | Shut(at: string, peer: string, keptOut: set<nat>, keptIn: set<nat>)

  predicate Enabled(m: Mesh, act: Action)
  {
    && act.at in m.nodes
    && match act
       case Ready(at, peer, _) => peer in m.nodes && peer != at && ValidPeerId(peer)
       case SetRecord(_, _) => true
       case Poll(_, _) => true
       case Deliver(from, at) => from in m.nodes && from != at && ValidPeerId(from) && Wire(m.wires, from, at) != []
       case Shut(at, peer, _, _) => peer in m.nodes && peer != at && ValidPeerId(peer)
  }

  function Replies(r: Result<Option<Outbound>, GossipError>): (out: seq<Outbound>)
  {
    if r.Ok? && r.value.Some? then [r.value.value] else []
  }

  /** The payloads of a wire at the given places. */
  function Kept(w: seq<Payload>, places: set<nat>): (r: seq<Payload>)
    ensures forall p :: p in r ==> p in w
  {
    if w == [] then [] else
      var before, last := Kept(w[..|w| - 1], places), w[|w| - 1];
      if |w| - 1 in places then before + [last] else before
  }

  /** One step. A close tells nobody: of what either end had sent, any part may be lost and the rest still arrive. */
  function Perform(hash: Hasher, m: Mesh, act: Action): (r: Mesh)
    requires Enabled(m, act)
  {
    var g := m.nodes[act.at];
    match act
    case Ready(at, peer, now) =>
      var ready := BecomeReady(g, peer, now);
      Mesh(m.nodes[at := ready], Post(m.wires, at, [FullPush(ready, peer)]))
    case SetRecord(at, record) =>
      var (next, out) := SetLocal(g, record);
      Mesh(m.nodes[at := next], Post(m.wires, at, out))
    case Poll(at, now) =>
      var (next, out) := PollDigests(hash, g, now);
      Mesh(m.nodes[at := next], Post(m.wires, at, out))
    case Deliver(from, at) =>
      var queue := Wire(m.wires, from, at);
      var (next, r) := Receive(hash, g, from, queue[0]);
      Mesh(m.nodes[at := next], Post(m.wires[(from, at) := queue[1..]], at, Replies(r)))
    case Shut(at, peer, keptOut, keptIn) =>
      Mesh(m.nodes[at := Close(g, peer)],
           m.wires[(at, peer) := Kept(Wire(m.wires, at, peer), keptOut)]
                  [(peer, at) := Kept(Wire(m.wires, peer, at), keptIn)])
  }

  /** Peers that have learned nothing and have no links yet. */
  function Start(records: map<string, Record>): (m: Mesh)
  {
    Mesh(map id | id in records :: GossipState(records[id], map[], EMPTY), map[])
  }

  /** An action that is not possible changes nothing. */
  function Next(hash: Hasher, m: Mesh, act: Action): (r: Mesh)
  {
    if Enabled(m, act) then Perform(hash, m, act) else m
  }

  function After(hash: Hasher, m: Mesh, log: seq<Action>): (r: Mesh)
  {
    if log == [] then m else Next(hash, After(hash, m, log[..|log| - 1]), log[|log| - 1])
  }

  // ---- One direction of one pair ----

  /** What concerns the flow of `a`'s record to `b`. */
  datatype Flow = Flow(
    local: Record,          // a's record
    ready: bool,            // a's link to b
    pending: bool,          // a still owes b a reciprocal reply
    remoteReady: bool,      // b's link to a
    known: Option<Record>,  // what b holds for a
    out: seq<Payload>,      // in flight from a to b
    back: seq<Payload>)     // in flight from b to a

  function FlowOf(m: Mesh, a: string, b: string): (f: Flow)
    requires a in m.nodes && b in m.nodes
  {
    var x, y := m.nodes[a], m.nodes[b];
    Flow(x.local, b in x.links, b in x.links && x.links[b].reciprocalPending, a in y.links,
         if a in y.dir.records then Some(y.dir.records[a]) else None, Wire(m.wires, a, b), Wire(m.wires, b, a))
  }

  /** The last full record in flight. */
  function LastRecord(w: seq<Payload>): (r: Option<seq<Byte>>)
  {
    if w == [] then None
    else if w[|w| - 1].FullRecord? then Some(w[|w| - 1].encoded)
    else LastRecord(w[..|w| - 1])
  }

  /** A full record is the encoding of some record. */
  predicate Sound(p: Payload)
  {
    p.FullRecord? ==> Decoding(p.encoded).Ok? && Encoding(Decoding(p.encoded).value) == p.encoded
  }

  predicate AllSound(w: seq<Payload>)
  {
    forall p :: p in w ==> Sound(p)
  }

  lemma LastRecordPush(w: seq<Payload>, p: Payload)
    ensures LastRecord(w + [p]) == if p.FullRecord? then Some(p.encoded) else LastRecord(w)
  {
    assert (w + [p])[..|w|] == w;
  }

  lemma {:induction false} LastRecordPop(w: seq<Payload>)
    requires w != []
    ensures LastRecord(w) ==
            if LastRecord(w[1..]).Some? then LastRecord(w[1..])
            else if w[0].FullRecord? then Some(w[0].encoded) else None
  {
    if |w| > 1 {
      LastRecordPop(w[..|w| - 1]);
      assert w[1..][..|w| - 2] == w[..|w| - 1][1..];
    }
  }

  lemma {:induction false} LastRecordSound(w: seq<Payload>)
    requires AllSound(w) && LastRecord(w).Some?
    ensures Sound(FullRecord(LastRecord(w).value))
  {
    hide Encoding, Decoding, Canonical;
    if w[|w| - 1].FullRecord? {
      assert w[|w| - 1] in w;
    } else {
      LastRecordSound(w[..|w| - 1]);
    }
  }

  /**
  What a run has done to one direction. `introduced`: with no close since, both links were up while a
  record of `a` was on its way to `b`, or `b` turned ready while `a` still owed its reply. `cut`: `b`'s
  last close lost `a`'s current record and let another one through, and `a` has sent none since.
  */
  datatype Past = Past(introduced: bool, cut: bool)

  predicate FlowOk(f: Flow, past: Past)
  {
    && AllSound(f.out) && AllSound(f.back)
    // The newest record on the wire is a's current one, unless it was cut off.
    && (f.ready && LastRecord(f.out).Some? ==> (LastRecord(f.out).value == Encoding(f.local) <==> !past.cut))
    // Once nothing is on the wire, so is what b holds.
    && (f.ready && LastRecord(f.out).None? && f.known.Some? ==> (f.known.value == f.local <==> !past.cut))
    // While b's link is down it holds no learned record.
    && (!f.remoteReady ==> f.known.None?)
    // Once introduced, b has a record of a's, or it is on its way, or a reply carrying it is due.
    && (past.introduced ==>
          f.ready && f.remoteReady &&
          (f.known.Some? || LastRecord(f.out).Some? || (f.pending && LastRecord(f.back).Some?)))
    // Until then there is nothing that could bring it.
    && (f.ready && f.remoteReady && !past.introduced ==> f.known.None? && LastRecord(f.out).None? && !f.pending)
  }

  // ---- What each action does to one direction ----

  // A push to the Peers of `targets`, each named once, puts one payload on each of their wires.
  lemma {:induction false} BroadcastReaches(targets: seq<string>, payload: Payload, b: string)
    requires Distinct(targets)
    ensures PayloadsTo(Broadcast(targets, payload), b) == if b in targets then [payload] else []
  {
    if targets != [] {
      var before, last := targets[..|targets| - 1], targets[|targets| - 1];
      BroadcastReaches(before, payload, b);
      assert targets == before + [last];
      var out := Broadcast(targets, payload);
      assert out[..|out| - 1] == Broadcast(before, payload);
    }
  }

  lemma {:induction false} DueDistinct(links: map<string, Link>, ids: seq<string>, now: nat)
    requires Distinct(ids)
    ensures Distinct(Due(links, ids, now))
    ensures forall id :: id in Due(links, ids, now) <==> id in ids && IsDue(links, id, now)
  {
    if ids != [] {
      var before, last := ids[..|ids| - 1], ids[|ids| - 1];
      DueDistinct(links, before, now);
      assert ids == before + [last];
      assert last !in before;
      assert last !in Due(links, before, now);
    }
  }

  lemma ReadyFlow(hash: Hasher, m: Mesh, at: string, peer: string, now: nat, a: string, b: string)
    requires Enabled(m, Ready(at, peer, now)) && a in m.nodes && b in m.nodes && a != b
    ensures var f, g := FlowOf(m, a, b), FlowOf(Perform(hash, m, Ready(at, peer, now)), a, b);
            if (at, peer) == (a, b) then
              g == f.(ready := true, pending := true, out := f.out + [FullRecord(Encoding(f.local))])
            else if (at, peer) == (b, a) then
              g == f.(remoteReady := true, back := f.back + [FullRecord(Encoding(m.nodes[b].local))])
            else g == f
  {
    hide Canonical, Encoding, DigestInterval, Trim, Utf8, Post, PayloadsTo;
    var push := [FullPush(BecomeReady(m.nodes[at], peer, now), peer)];
    PostReaches(m.wires, at, push, a, b);
    PostReaches(m.wires, at, push, b, a);
    SingleReaches(push[0], a);
    SingleReaches(push[0], b);
  }

  lemma SingleReaches(o: Outbound, target: string)
    ensures PayloadsTo([o], target) == if o.target == target then [o.payload] else []
    ensures PayloadsTo([], target) == []
  {
    assert [o][..0] == [];
  }

  // A reply, if there is one, reaches the Peer it is for and nobody else.
  lemma ReplyReaches(r: Result<Option<Outbound>, GossipError>, target: string)
    ensures PayloadsTo(Replies(r), target) ==
            if r.Ok? && r.value.Some? && r.value.value.target == target then [r.value.value.payload] else []
  {
    if Replies(r) != [] { SingleReaches(r.value.value, target); }
  }

  // A changed record goes to every ready Peer.
  lemma SetLocalReaches(g: GossipState, record: Record, b: string)
    ensures PayloadsTo(SetLocal(g, record).1, b) ==
            if record != g.local && b in g.links then [FullRecord(Encoding(record))] else []
  {
    hide Canonical, Encoding, SortedIds, LexLe, PayloadsTo, Broadcast, Distinct;
    BroadcastReaches(SortedIds(g.links.Keys), FullRecord(Encoding(record)), b);
    SingleReaches(Outbound(b, Need), b);
  }

  lemma SetRecordFlow(hash: Hasher, m: Mesh, at: string, record: Record, a: string, b: string)
    requires at in m.nodes && a in m.nodes && b in m.nodes && a != b
    ensures var f, g := FlowOf(m, a, b), FlowOf(Perform(hash, m, SetRecord(at, record)), a, b);
            var news := [FullRecord(Encoding(record))];
            if at == a && record != f.local then
              g == f.(local := record, out := if f.ready then f.out + news else f.out)
            else if at == b && record != m.nodes[b].local then
              g == f.(back := if f.remoteReady then f.back + news else f.back)
            else g == f
  {
    hide Canonical, Encoding, SortedIds, LexLe, Trim, Utf8, Post, PayloadsTo, Broadcast;
    var out := SetLocal(m.nodes[at], record).1;
    PostReaches(m.wires, at, out, a, b);
    PostReaches(m.wires, at, out, b, a);
    SetLocalReaches(m.nodes[at], record, a);
    SetLocalReaches(m.nodes[at], record, b);
  }

  // A poll sends one Digest to each due Peer and changes nothing but deadlines.
  lemma PollReaches(hash: Hasher, g: GossipState, now: nat, b: string)
    ensures PayloadsTo(PollDigests(hash, g, now).1, b) ==
            if IsDue(g.links, b, now) then [Digest(hash(Encoding(g.local)))] else []
  {
    hide Canonical, Encoding, SortedIds, LexLe, Due, DigestInterval, PayloadsTo, Broadcast, Distinct, Rescheduled;
    var ids := SortedIds(g.links.Keys);
    DueDistinct(g.links, ids, now);
    BroadcastReaches(Due(g.links, ids, now), Digest(hash(Encoding(g.local))), b);
  }

  lemma PollKeepsNode(hash: Hasher, g: GossipState, now: nat, b: string)
    ensures var next := PollDigests(hash, g, now).0;
            && next.local == g.local && next.dir == g.dir && (b in next.links <==> b in g.links)
            && (b in g.links ==> next.links[b].reciprocalPending == g.links[b].reciprocalPending)
  {
    hide Canonical, Encoding, SortedIds, LexLe, Due, DigestInterval, Broadcast;
  }

  lemma PollFlow(hash: Hasher, m: Mesh, at: string, now: nat, a: string, b: string)
    requires at in m.nodes && a in m.nodes && b in m.nodes && a != b
    ensures var f, g := FlowOf(m, a, b), FlowOf(Perform(hash, m, Poll(at, now)), a, b);
            var digest := [Digest(hash(Encoding(m.nodes[at].local)))];
            if at == a && IsDue(m.nodes[a].links, b, now) then g == f.(out := f.out + digest)
            else if at == b && IsDue(m.nodes[b].links, a, now) then g == f.(back := f.back + digest)
            else g == f
  {
    hide Canonical, Encoding, IsDue, PollDigests, Post, PayloadsTo, Trim, Utf8;
    var node := m.nodes[at];
    var out := PollDigests(hash, node, now).1;
    PostReaches(m.wires, at, out, a, b);
    PostReaches(m.wires, at, out, b, a);
    PollReaches(hash, node, now, a);
    PollReaches(hash, node, now, b);
    PollKeepsNode(hash, node, now, a);
    PollKeepsNode(hash, node, now, b);
  }

  lemma ShutFlow(
    hash: Hasher, m: Mesh, at: string, peer: string, keptOut: set<nat>, keptIn: set<nat>, a: string, b: string)
    requires Enabled(m, Shut(at, peer, keptOut, keptIn)) && a in m.nodes && b in m.nodes && a != b
    ensures var f, g := FlowOf(m, a, b), FlowOf(Perform(hash, m, Shut(at, peer, keptOut, keptIn)), a, b);
            if (at, peer) == (a, b) then
              g == f.(ready := false, pending := false, out := Kept(f.out, keptOut), back := Kept(f.back, keptIn))
            else if (at, peer) == (b, a) then
              g == f.(remoteReady := false, known := None, out := Kept(f.out, keptIn), back := Kept(f.back, keptOut))
            else g == f
  {
    hide Canonical, Requeue, Trim, Utf8, Kept;
  }

  /** What a controller sends back to `peer` for a payload. */
  function Answers(hash: Hasher, g: GossipState, peer: string, p: Payload): (r: seq<Payload>)
  {
    if peer !in g.links then []
    else match p
      case FullRecord(encoded) =>
        if Decoding(encoded).Ok? && g.links[peer].reciprocalPending then [FullRecord(Encoding(g.local))] else []
      case Digest(h) => if InSync(hash, g.dir, peer, h) then [] else [Need]
      case Need => [FullRecord(Encoding(g.local))]
      case _ => []
  }

  // What arrives at b from a: it is learned, and b's answer goes back on the same link.
  lemma ArriveFlow(hash: Hasher, m: Mesh, a: string, b: string)
    requires Enabled(m, Deliver(a, b))
    ensures var f, g := FlowOf(m, a, b), FlowOf(Perform(hash, m, Deliver(a, b)), a, b);
            var p := f.out[0];
            && g.local == f.local && g.ready == f.ready && g.pending == f.pending && g.remoteReady == f.remoteReady
            && g.out == f.out[1..] && g.back == f.back + Answers(hash, m.nodes[b], a, p)
            && g.known == (if f.remoteReady && p.FullRecord? && Decoding(p.encoded).Ok?
                           then Some(Decoding(p.encoded).value) else f.known)
  {
    hide Canonical, Encoding, Decoding, Requeue, Trim, Utf8, Post, PayloadsTo, Replies;
    var queue := Wire(m.wires, a, b);
    var (next, r) := Receive(hash, m.nodes[b], a, queue[0]);
    var wires := m.wires[(a, b) := queue[1..]];
    PostReaches(wires, b, Replies(r), a, b);
    PostReaches(wires, b, Replies(r), b, a);
    ReplyReaches(r, a);
    ReplyReaches(r, b);
    var back := Wire(m.wires, b, a);
    assert back + [] == back;
  }

  lemma AnswersSound(hash: Hasher, g: GossipState, peer: string, p: Payload)
    ensures |Answers(hash, g, peer, p)| <= 1 && forall x :: x in Answers(hash, g, peer, p) ==> Sound(x)
    ensures forall x :: x in Answers(hash, g, peer, p) ==> x == Need || x == FullRecord(Encoding(g.local))
  {
    hide Canonical, Encoding, Decoding, Trim, Utf8;
    RecordRoundTrip(g.local);
  }

  // What arrives at a from b, as the flow from a to b sees it.
  lemma ReplyFlow(hash: Hasher, m: Mesh, a: string, b: string)
    requires Enabled(m, Deliver(b, a))
    ensures var f, g := FlowOf(m, a, b), FlowOf(Perform(hash, m, Deliver(b, a)), a, b);
            var p := f.back[0];
            && g.local == f.local && g.ready == f.ready && g.remoteReady == f.remoteReady && g.known == f.known
            && g.back == f.back[1..] && g.out == f.out + Answers(hash, m.nodes[a], b, p)
            && g.pending == (f.pending && !(p.FullRecord? && Decoding(p.encoded).Ok?))
  {
    hide Canonical, Encoding, Decoding, Requeue, Trim, Utf8, Post, PayloadsTo, Replies;
    var queue := Wire(m.wires, b, a);
    var (next, r) := Receive(hash, m.nodes[a], b, queue[0]);
    var wires := m.wires[(b, a) := queue[1..]];
    PostReaches(wires, a, Replies(r), a, b);
    PostReaches(wires, a, Replies(r), b, a);
    ReplyReaches(r, a);
    ReplyReaches(r, b);
    var out := Wire(m.wires, a, b);
    assert out + [] == out;
  }

  // A delivery between two Peers leaves every other pair alone.
  lemma ElsewhereFlow(hash: Hasher, m: Mesh, from: string, at: string, a: string, b: string)
    requires Enabled(m, Deliver(from, at)) && a in m.nodes && b in m.nodes && a != b
    requires (from, at) != (a, b) && (from, at) != (b, a)
    ensures FlowOf(Perform(hash, m, Deliver(from, at)), a, b) == FlowOf(m, a, b)
  {
    hide Canonical, Encoding, Decoding, Requeue, Trim, Utf8, Post, PayloadsTo, Replies;
    var queue := Wire(m.wires, from, at);
    var (next, r) := Receive(hash, m.nodes[at], from, queue[0]);
    var wires := m.wires[(from, at) := queue[1..]];
    PostReaches(wires, at, Replies(r), a, b);
    PostReaches(wires, at, Replies(r), b, a);
    ReplyReaches(r, a);
    ReplyReaches(r, b);
  }
}
