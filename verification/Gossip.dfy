/**
The pairwise gossip controller of one Peer (`PeerGossipControllerV2`): full pushes, Digest/Need
repair, and one reciprocal reply for each link generation.
*/
module Gossip {
  import opened Basics
  import opened Ipv4
  import opened RuntimeRecord
  import opened Directory
  import opened Unicode

  const MAX_PEER_ID_BYTES := 256
  const SECOND: nat := 1_000_000_000
  const DIGEST_MIN_SECONDS := 25
  const DIGEST_MAX_SECONDS := 35

  /** The digest of `sha2`; the properties that need it to be injective say so. */
  type Hasher = seq<Byte> -> seq<Byte>

  datatype Payload =
    | Open(network: string, address: string)
    | OpenResponse(success: bool, message: string)
    | FullRecord(encoded: seq<Byte>)
    | Digest(hash: seq<Byte>)
    | Need

  datatype Outbound = Outbound(target: string, payload: Payload)

  datatype Link = Link(nextDigestAt: nat, reciprocalPending: bool)

  datatype GossipError = InvalidPeerId | LinkNotReady | UnexpectedPayload | PeerRuntime(error: RuntimeError)

  datatype GossipState = GossipState(local: Record, links: map<string, Link>, dir: DirState)

  // ---- Peer identifiers ----

  predicate ValidPeerId(id: string)
  {
    id != "" && Trim(id) == id && |Utf8(id)| <= MAX_PEER_ID_BYTES
  }

  lemma ValidPeerIdExactly(id: string)
    ensures ValidPeerId(id) <==>
            id != "" && !IsWhiteSpace(id[0]) && !IsWhiteSpace(id[|id| - 1]) && |Utf8(id)| <= 256
  {
    hide Utf8;
    TrimmedExactly(IsWhiteSpace, id);
  }

  /** The wrapping 64-bit fold over the bytes of an identifier. */
  function IdHash(bytes: seq<Byte>): (h: nat)
    ensures h < 0x1_0000_0000_0000_0000
  {
    if bytes == [] then 0
    else (IdHash(bytes[..|bytes| - 1]) * 16777619 + bytes[|bytes| - 1]) % 0x1_0000_0000_0000_0000
  }

  function DigestInterval(id: string): (r: nat)
    ensures 25_000_000_000 <= r <= 35_000_000_000
  {
    (DIGEST_MIN_SECONDS + IdHash(Utf8(id)) % (DIGEST_MAX_SECONDS - DIGEST_MIN_SECONDS + 1)) * SECOND
  }

  /** The same fold without wrapping. */
  function Polynomial(bytes: seq<Byte>): (n: nat)
  {
    if bytes == [] then 0 else Polynomial(bytes[..|bytes| - 1]) * 16777619 + bytes[|bytes| - 1]
  }

  // Wrapping at every step is wrapping once.
  lemma {:induction false} FoldWrapsOnce(bytes: seq<Byte>)
    ensures IdHash(bytes) == Polynomial(bytes) % 0x1_0000_0000_0000_0000
  {
    if bytes != [] {
      var before := bytes[..|bytes| - 1];
      FoldWrapsOnce(before);
      WrapStep(Polynomial(before), bytes[|bytes| - 1]);
    }
  }

  lemma WrapStep(n: nat, b: nat)
    ensures (n % 0x1_0000_0000_0000_0000 * 16777619 + b) % 0x1_0000_0000_0000_0000 ==
            (n * 16777619 + b) % 0x1_0000_0000_0000_0000
  {
    var q, r := n / 0x1_0000_0000_0000_0000, n % 0x1_0000_0000_0000_0000;
    DropWhole(q * 16777619, r * 16777619 + b);
  }

  lemma DropWhole(c: nat, x: nat)
    ensures (c * 0x1_0000_0000_0000_0000 + x) % 0x1_0000_0000_0000_0000 == x % 0x1_0000_0000_0000_0000
  {
  }

  lemma DigestIntervalExactly(id: string)
    ensures DigestInterval(id) == (25 + Polynomial(Utf8(id)) % 0x1_0000_0000_0000_0000 % 11) * 1_000_000_000
  {
    FoldWrapsOnce(Utf8(id));
  }

  // ---- Transitions on values ----

  function FullPush(g: GossipState, peer: string): (o: Outbound)
  {
    Outbound(peer, FullRecord(Encoding(g.local)))
  }

  function BecomeReady(g: GossipState, peer: string, now: nat): (r: GossipState)
  {
    g.(links := g.links[peer := Link(now + DigestInterval(peer), true)])
  }

  function Broadcast(targets: seq<string>, payload: Payload): (r: seq<Outbound>)
    ensures |r| == |targets|
  {
    if targets == [] then [] else
      Broadcast(targets[..|targets| - 1], payload) + [Outbound(targets[|targets| - 1], payload)]
  }

  function SetLocal(g: GossipState, record: Record): (r: (GossipState, seq<Outbound>))
  {
    if record == g.local then (g, [])
    else (g.(local := record), Broadcast(SortedIds(g.links.Keys), FullRecord(Encoding(record))))
  }

  predicate IsDue(links: map<string, Link>, id: string, now: nat)
  {
    id in links && links[id].nextDigestAt <= now
  }

  /** The links of `ids` whose Digest deadline has passed, in order. */
  function Due(links: map<string, Link>, ids: seq<string>, now: nat): (r: seq<string>)
  {
    if ids == [] then [] else
      var before, last := Due(links, ids[..|ids| - 1], now), ids[|ids| - 1];
      if IsDue(links, last, now) then before + [last] else before
  }

  /** The links after the due ones among `visited` have been given their next deadline. */
  function Rescheduled(links: map<string, Link>, visited: set<string>, now: nat): (r: map<string, Link>)
  {
    map id | id in links ::
      if id in visited && IsDue(links, id, now) then links[id].(nextDigestAt := now + DigestInterval(id)) else links[id]
  }

  function PollDigests(hash: Hasher, g: GossipState, now: nat): (r: (GossipState, seq<Outbound>))
  {
    (g.(links := Rescheduled(g.links, g.links.Keys, now)),
     Broadcast(Due(g.links, SortedIds(g.links.Keys), now), Digest(hash(Encoding(g.local)))))
  }

  predicate InSync(hash: Hasher, dir: DirState, origin: string, remoteHash: seq<Byte>)
  {
    origin in dir.records && hash(Encoding(dir.records[origin])) == remoteHash
  }

  function Receive(hash: Hasher, g: GossipState, peer: string, payload: Payload)
    : (r: (GossipState, Result<Option<Outbound>, GossipError>))
  {
    if !ValidPeerId(peer) then (g, Err(InvalidPeerId))
    else if peer !in g.links then (g, Err(LinkNotReady))
    else match payload
      case FullRecord(encoded) =>
        var record := Decoding(encoded);
        if record.Err? then (g, Err(PeerRuntime(record.error))) else
          var learned := g.(dir := Replaced(g.dir, peer, record.value));
          if g.links[peer].reciprocalPending then
            (learned.(links := g.links[peer := g.links[peer].(reciprocalPending := false)]),
             Ok(Some(FullPush(g, peer))))
          else
            (learned, Ok(None))
      case Digest(remoteHash) =>
        (g, Ok(if InSync(hash, g.dir, peer, remoteHash) then None else Some(Outbound(peer, Need))))
      case Need => (g, Ok(Some(FullPush(g, peer))))
      case _ => (g, Err(UnexpectedPayload))
  }

  function Close(g: GossipState, peer: string): (r: GossipState)
  {
    g.(links := g.links - {peer}, dir := Removed(g.dir, peer))
  }

  // ---- The controller object ----

  class PeerGossipController {
    const hash: Hasher
    var localRecord: Record
    var links: map<string, Link>
    const directory: PeerGossipDirectory

    ghost function State(): (g: GossipState)
      reads this, directory
    {
      GossipState(localRecord, links, directory.State())
    }

    ghost predicate Valid()
      reads this, directory
    {
      directory.Valid()
    }

    constructor (hash: Hasher, localRecord: Record)
      ensures Valid() && fresh(directory)
      ensures this.hash == hash && State() == GossipState(localRecord, map[], EMPTY)
    {
      this.hash := hash;
      this.localRecord := localRecord;
      links := map[];
      directory := new PeerGossipDirectory();
    }

    method LinkReady(peer: string, now: nat) returns (r: Result<Outbound, GossipError>)
      requires Valid()
      modifies this
      ensures Valid()
      ensures r.Ok? <==> ValidPeerId(peer)
      ensures r.Ok? ==> r.value == FullPush(State(), peer) && State() == BecomeReady(old(State()), peer, now)
      ensures r.Err? ==> r.error == InvalidPeerId && State() == old(State())
    {
      if !ValidPeerId(peer) {
        return Err(InvalidPeerId);
      }
      links := links[peer := Link(now + DigestInterval(peer), true)];
      r := Ok(Outbound(peer, FullRecord(Encoding(localRecord))));
    }

    method SetLocalRecord(record: Record) returns (out: seq<Outbound>)
      requires Valid()
      modifies this
      ensures Valid()
      ensures (State(), out) == SetLocal(old(State()), record)
    {
      hide Canonical, Consistent, Encoding, SortedIds;
      out := [];
      if localRecord == record {
        return;
      }
      localRecord := record;
      var payload := FullRecord(Encoding(localRecord));
      var ids := SortedIds(links.Keys);
      for i := 0 to |ids|
        invariant out == Broadcast(ids[..i], payload)
        invariant localRecord == record && links == old(links)
      {
        assert ids[..i + 1] == ids[..i] + [ids[i]];
        BroadcastSnoc(ids[..i], ids[i], payload);
        out := out + [Outbound(ids[i], payload)];
      }
      assert ids[..|ids|] == ids;
    }

    // Walks the links in key order, moving each due deadline as it goes.
    method PollDueDigests(now: nat) returns (out: seq<Outbound>)
      requires Valid()
      modifies this
      ensures Valid()
      ensures (State(), out) == PollDigests(hash, old(State()), now)
    {
      hide Canonical, Consistent, Encoding, SortedIds, LexLe, DigestInterval, Rescheduled, Due, Broadcast;
      var payload := Digest(hash(Encoding(localRecord)));
      var ids := SortedIds(links.Keys);
      ghost var start, visited := links, {};
      PollStart(start, payload, now);
      out := [];
      for i := 0 to |ids|
        invariant visited == (set id | id in ids[..i])
        invariant out == Broadcast(Due(start, ids[..i], now), payload)
        invariant links == Rescheduled(start, visited, now)
        invariant localRecord == old(localRecord)
      {
        var id := ids[i];
        assert ids[..i + 1] == ids[..i] + [id] && id !in visited;
        PollStep(start, ids[..i], visited, id, payload, now);
        if links[id].nextDigestAt <= now {
          links := links[id := links[id].(nextDigestAt := now + DigestInterval(id))];
          out := out + [Outbound(id, payload)];
        }
        visited := visited + {id};
      }
      assert ids[..|ids|] == ids;
      assert visited == start.Keys;
    }

    method ReceivePayload(peer: string, payload: Payload) returns (r: Result<Option<Outbound>, GossipError>)
      requires Valid()
      modifies this, directory
      ensures Valid()
      ensures (State(), r) == Receive(hash, old(State()), peer, payload)
    {
      hide Canonical, Consistent, Trim, Utf8, Decoding, Encoding, Replaced;
      if !ValidPeerId(peer) {
        return Err(InvalidPeerId);
      }
      if peer !in links {
        return Err(LinkNotReady);
      }
      match payload {
        case FullRecord(encoded) =>
          var record := Decode(encoded);
          if record.Err? {
            return Err(PeerRuntime(record.error));
          }
          var replaced := directory.ReplaceOrigin(peer, record.value);
          assert replaced.Ok?;
          var reciprocalPending := links[peer].reciprocalPending;
          if reciprocalPending {
            links := links[peer := links[peer].(reciprocalPending := false)];
            return Ok(Some(Outbound(peer, FullRecord(Encoding(localRecord)))));
          }
          return Ok(None);
        case Digest(remoteHash) =>
          if peer in directory.records && hash(Encoding(directory.records[peer])) == remoteHash {
            return Ok(None);
          }
          return Ok(Some(Outbound(peer, Need)));
        case Need =>
          return Ok(Some(Outbound(peer, FullRecord(Encoding(localRecord)))));
        case Open(_, _) =>
          return Err(UnexpectedPayload);
        case OpenResponse(_, _) =>
          return Err(UnexpectedPayload);
      }
    }

    method LinkClosed(peer: string) returns (r: Result<bool, GossipError>)
      requires Valid()
      modifies this, directory
      ensures Valid()
      ensures r == if ValidPeerId(peer) then Ok(peer in old(links)) else Err(InvalidPeerId)
      ensures State() == if r.Ok? then Close(old(State()), peer) else old(State())
    {
      if !ValidPeerId(peer) {
        return Err(InvalidPeerId);
      }
      var wasReady := peer in links;
      links := links - {peer};
      var removed := directory.RemoveOrigin(peer);
      r := Ok(wasReady);
    }
  }

  lemma BroadcastSnoc(targets: seq<string>, last: string, payload: Payload)
    ensures Broadcast(targets + [last], payload) == Broadcast(targets, payload) + [Outbound(last, payload)]
  {
    assert (targets + [last])[..|targets|] == targets;
  }

  lemma PollStart(links: map<string, Link>, payload: Payload, now: nat)
    ensures Rescheduled(links, {}, now) == links
    ensures Broadcast(Due(links, [], now), payload) == []
  {
  }

  lemma PollStep(
    links: map<string, Link>, ids: seq<string>, visited: set<string>, id: string, payload: Payload, now: nat)
    requires id in links && id !in visited
    ensures var current := Rescheduled(links, visited, now);
            && id in current && current[id] == links[id]
            && Rescheduled(links, visited + {id}, now) ==
               (if IsDue(links, id, now)
                then current[id := links[id].(nextDigestAt := now + DigestInterval(id))] else current)
    ensures Broadcast(Due(links, ids + [id], now), payload) ==
            if IsDue(links, id, now) then Broadcast(Due(links, ids, now), payload) + [Outbound(id, payload)]
            else Broadcast(Due(links, ids, now), payload)
  {
    hide DigestInterval;
    assert (ids + [id])[..|ids|] == ids;
    BroadcastSnoc(Due(links, ids, now), id, payload);
  }
}
