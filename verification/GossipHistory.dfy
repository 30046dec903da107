/**
Whole runs of one gossip controller: to whom it sends, and how often each link hears a Digest.
*/
module GossipHistory {
  import opened Basics
  import opened RuntimeRecord
  import opened Directory
  import opened Gossip
  import Unicode

  datatype Event =
    | Ready(peer: string, now: nat)
    | SetRecord(record: Record)
    | Poll(now: nat)
    | Received(peer: string, payload: Payload)
    | Closed(peer: string)

  function Step(hash: Hasher, g: GossipState, e: Event): (r: GossipState)
  {
    match e
    case Ready(peer, now) => if ValidPeerId(peer) then BecomeReady(g, peer, now) else g
    case SetRecord(record) => SetLocal(g, record).0
    case Poll(now) => PollDigests(hash, g, now).0
    case Received(peer, payload) => Receive(hash, g, peer, payload).0
    case Closed(peer) => if ValidPeerId(peer) then Close(g, peer) else g
  }

  function After(hash: Hasher, start: Record, log: seq<Event>): (g: GossipState)
  {
    if log == [] then GossipState(start, map[], Directory.EMPTY)
    else Step(hash, After(hash, start, log[..|log| - 1]), log[|log| - 1])
  }

  // ---- What is sent ----

  lemma {:induction false} BroadcastExactly(targets: seq<string>, payload: Payload, o: Outbound)
    ensures o in Broadcast(targets, payload) <==> o.target in targets && o.payload == payload
  {
    if targets != [] {
      BroadcastExactly(targets[..|targets| - 1], payload, o);
      assert targets == targets[..|targets| - 1] + [targets[|targets| - 1]];
    }
  }

  lemma {:induction false} DueExactly(links: map<string, Link>, ids: seq<string>, now: nat, id: string)
    ensures id in Due(links, ids, now) <==> id in ids && id in links && links[id].nextDigestAt <= now
  {
    if ids != [] {
      DueExactly(links, ids[..|ids| - 1], now, id);
      assert ids == ids[..|ids| - 1] + [ids[|ids| - 1]];
    }
  }

  // A changed local record goes to every ready link and to nobody else, an unchanged one to nobody.
  lemma SetLocalExactly(g: GossipState, record: Record, o: Outbound)
    ensures o in SetLocal(g, record).1 <==>
            record != g.local && o.target in g.links && o.payload == FullRecord(Encoding(record))
  {
    hide Canonical, Encoding, SortedIds, Broadcast;
    BroadcastExactly(SortedIds(g.links.Keys), FullRecord(Encoding(record)), o);
  }

  // A poll sends the hash of the local record to the ready links whose deadline has come.
  lemma PollExactly(hash: Hasher, g: GossipState, now: nat, o: Outbound)
    ensures o in PollDigests(hash, g, now).1 <==>
            && o.target in g.links && g.links[o.target].nextDigestAt <= now
            && o.payload == Digest(hash(Encoding(g.local)))
  {
    hide Canonical, Encoding, SortedIds, Broadcast, Due;
    var ids := SortedIds(g.links.Keys);
    BroadcastExactly(Due(g.links, ids, now), Digest(hash(Encoding(g.local))), o);
    DueExactly(g.links, ids, now, o.target);
  }

  // ---- How often ----

  /** Event `i` is a poll that sends the Peer a Digest. */
  predicate Digested(hash: Hasher, start: Record, log: seq<Event>, i: nat, peer: string)
  {
    i < |log| && log[i].Poll? &&
    exists o :: o in PollDigests(hash, After(hash, start, log[..i]), log[i].now).1 && o.target == peer
  }

  /** Event `i` sets the Peer's deadline: its link becomes ready, or a Digest is sent on it. */
  predicate SetsDeadline(hash: Hasher, start: Record, log: seq<Event>, i: nat, peer: string)
  {
    i < |log| &&
    ((log[i].Ready? && log[i].peer == peer && ValidPeerId(peer)) ||
     (log[i].Poll? && Digested(hash, start, log, i, peer)))
  }

  lemma DigestedWhenDue(hash: Hasher, start: Record, log: seq<Event>, i: nat, peer: string)
    requires i < |log| && log[i].Poll?
    ensures Digested(hash, start, log, i, peer) <==>
            var links := After(hash, start, log[..i]).links; peer in links && links[peer].nextDigestAt <= log[i].now
  {
    hide Canonical, Encoding, After, PollDigests;
    var g := After(hash, start, log[..i]);
    var o := Outbound(peer, Digest(hash(Encoding(g.local))));
    PollExactly(hash, g, log[i].now, o);
    forall other | other in PollDigests(hash, g, log[i].now).1 && other.target == peer ensures other == o {
      PollExactly(hash, g, log[i].now, other);
    }
  }

  lemma StepSetsDeadline(hash: Hasher, g: GossipState, e: Event, peer: string)
    requires || (e.Ready? && e.peer == peer && ValidPeerId(peer))
             || (e.Poll? && peer in g.links && g.links[peer].nextDigestAt <= e.now)
    ensures var links := Step(hash, g, e).links;
            peer in links && links[peer].nextDigestAt == e.now + DigestInterval(peer)
  {
    hide Canonical, Encoding, SortedIds, Broadcast, Due, DigestInterval;
  }

  lemma StepKeepsDeadline(hash: Hasher, g: GossipState, e: Event, peer: string)
    requires peer in g.links && e != Closed(peer)
    requires !(e.Ready? && e.peer == peer && ValidPeerId(peer))
    requires e.Poll? ==> g.links[peer].nextDigestAt > e.now
    ensures var links := Step(hash, g, e).links;
            peer in links && links[peer].nextDigestAt == g.links[peer].nextDigestAt
  {
    hide Canonical, Encoding, Decoding, SortedIds, Broadcast, Due, DigestInterval, Replaced, Removed;
  }

  lemma {:induction false} DeadlineStands(hash: Hasher, start: Record, log: seq<Event>, i: nat, m: nat, peer: string)
    requires i < m <= |log| && SetsDeadline(hash, start, log, i, peer)
    requires forall k :: i < k < m ==> !SetsDeadline(hash, start, log, k, peer) && log[k] != Closed(peer)
    ensures var links := After(hash, start, log[..m]).links;
            peer in links && links[peer].nextDigestAt == log[i].now + DigestInterval(peer)
    decreases m
  {
    hide Canonical, Step, DigestInterval, PollDigests, Digested, ValidPeerId;
    var g := After(hash, start, log[..m - 1]);
    assert log[..m][..m - 1] == log[..m - 1];
    if log[m - 1].Poll? {
      DigestedWhenDue(hash, start, log, m - 1, peer);
    }
    if m == i + 1 {
      StepSetsDeadline(hash, g, log[i], peer);
    } else {
      DeadlineStands(hash, start, log, i, m - 1, peer);
      assert !SetsDeadline(hash, start, log, m - 1, peer);
      StepKeepsDeadline(hash, g, log[m - 1], peer);
    }
  }

  // Over every run: after a link becomes ready or hears a Digest, a poll less than 25 s later sends
  // none, and the first poll at least 35 s later sends one unless the link was closed meanwhile.
  lemma DigestsArePaced(hash: Hasher, start: Record, log: seq<Event>, i: nat, j: nat, peer: string)
    requires i < j < |log| && log[j].Poll? && SetsDeadline(hash, start, log, i, peer)
    requires forall k :: i < k < j ==> !SetsDeadline(hash, start, log, k, peer) && log[k] != Closed(peer)
    ensures log[j].now < log[i].now + 25_000_000_000 ==> !Digested(hash, start, log, j, peer)
    ensures log[j].now >= log[i].now + 35_000_000_000 ==> Digested(hash, start, log, j, peer)
  {
    hide Digested, After, DigestInterval;
    DeadlineStands(hash, start, log, i, j, peer);
    DigestedWhenDue(hash, start, log, j, peer);
  }

  // A Peer whose link is not ready hears nothing.
  lemma OnlyReadyLinksHear(hash: Hasher, g: GossipState, peer: string, payload: Payload)
    ensures var (_, r) := Receive(hash, g, peer, payload);
            r.Ok? && r.value.Some? ==> r.value.value.target == peer && peer in g.links
  {
    hide Canonical, Encoding, Decoding, Replaced, Trim, Unicode.Utf8;
  }
}
