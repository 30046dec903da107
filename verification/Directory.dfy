/**
The process-local directory of learned records (`PeerGossipDirectoryV2`): a record table, and for
each ready prefix the queue of its exporters in first-seen order.
*/
module Directory {
  import opened Basics
  import opened Ipv4
  import opened RuntimeRecord

  datatype DirState = DirState(records: map<string, Record>, order: map<Prefix, seq<string>>)

  const EMPTY := DirState(map[], map[])

  predicate ValidOrigin(origin: string)
  {
    Trim(origin) != "" && Trim(origin) == origin
  }

  function ReadyPrefixes(r: Record): (ready: set<Prefix>)
    ensures forall p :: p in ready <==> LanExport(p, true) in r.exports
  {
    set e | e in r.exports && e.ready :: e.prefix
  }

  function ReadyOf(d: DirState, origin: string): (ready: set<Prefix>)
  {
    if origin in d.records then ReadyPrefixes(d.records[origin]) else {}
  }

  /** The exporters of a prefix, the active one first (`exporters`). */
  function Queue(order: map<Prefix, seq<string>>, p: Prefix): (q: seq<string>)
  {
    if p in order then order[p] else []
  }

  predicate NoEmptyQueue(order: map<Prefix, seq<string>>)
  {
    forall p :: p in order ==> order[p] != []
  }

  /** The order index agrees with the record table. */
  ghost predicate Consistent(d: DirState)
  {
    && NoEmptyQueue(d.order)
    && (forall p :: Distinct(Queue(d.order, p)))
    && (forall p, origin ::
          origin in Queue(d.order, p) <==> origin in d.records && LanExport(p, true) in d.records[origin].exports)
  }

  // ---- Operations on values ----

  function Leave(order: map<Prefix, seq<string>>, p: Prefix, origin: string): (r: map<Prefix, seq<string>>)
  {
    if p !in order then order
    else if Without(order[p], origin) == [] then order - {p}
    else order[p := Without(order[p], origin)]
  }

  function Join(order: map<Prefix, seq<string>>, p: Prefix, origin: string): (r: map<Prefix, seq<string>>)
  {
    var peers := Queue(order, p);
    order[p := if origin in peers then peers else peers + [origin]]
  }

  function NextQueue(
    order: map<Prefix, seq<string>>, leaving: set<Prefix>, joining: set<Prefix>, origin: string,
    p: Prefix): (q: seq<string>)
  {
    var peers := Queue(order, p);
    if p in leaving then Without(peers, origin)
    else if p in joining && origin !in peers then peers + [origin]
    else peers
  }

  /** The order index once `origin` has left some queues and joined the tail of others. */
  function Requeue(
    order: map<Prefix, seq<string>>, leaving: set<Prefix>, joining: set<Prefix>,
    origin: string): (r: map<Prefix, seq<string>>)
    ensures NoEmptyQueue(r)
    ensures forall p :: Queue(r, p) == NextQueue(order, leaving, joining, origin, p)
  {
    map p | p in order.Keys + joining && NextQueue(order, leaving, joining, origin, p) != [] ::
      NextQueue(order, leaving, joining, origin, p)
  }

  lemma SameQueues(x: map<Prefix, seq<string>>, y: map<Prefix, seq<string>>)
    requires NoEmptyQueue(x) && NoEmptyQueue(y)
    requires forall p :: Queue(x, p) == Queue(y, p)
    ensures x == y
  {
    forall p ensures p in x <==> p in y {
      assert Queue(x, p) == Queue(y, p);
    }
    forall p | p in x ensures x[p] == y[p] {
      assert Queue(x, p) == Queue(y, p);
    }
  }

  lemma RequeueNothing(d: DirState, origin: string)
    requires Consistent(d)
    ensures Requeue(d.order, {}, {}, origin) == d.order
  {
    SameQueues(d.order, Requeue(d.order, {}, {}, origin));
  }

  function Replaced(d: DirState, origin: string, record: Record): (r: DirState)
  {
    var before, next := ReadyOf(d, origin), ReadyPrefixes(record);
    DirState(d.records[origin := record], Requeue(d.order, before - next, next - before, origin))
  }

  function Removed(d: DirState, origin: string): (r: DirState)
  {
    if origin !in d.records then d
    else DirState(d.records - {origin}, Requeue(d.order, ReadyPrefixes(d.records[origin]), {}, origin))
  }

  lemma DistinctAfter(order: map<Prefix, seq<string>>, p: Prefix, origin: string)
    requires Distinct(Queue(order, p))
    ensures forall leaving, joining :: Distinct(NextQueue(order, leaving, joining, origin, p))
  {
    WithoutKeepsDistinct(Queue(order, p), origin);
  }

  // After a replacement the origin queues exactly where its record is ready, and nobody else moves in or out.
  lemma ReplacedMembers(d: DirState, origin: string, record: Record, p: Prefix, o: string)
    requires Consistent(d)
    ensures var now := Queue(Replaced(d, origin, record).order, p);
            o in now <==> if o == origin then LanExport(p, true) in record.exports else o in Queue(d.order, p)
  {
    hide ReadyPrefixes, Requeue, Distinct;
    var before, next := ReadyOf(d, origin), ReadyPrefixes(record);
    assert origin in Queue(d.order, p) <==> p in before;
    assert Queue(Replaced(d, origin, record).order, p)
        == NextQueue(d.order, before - next, next - before, origin, p);
  }

  lemma ReplacedConsistent(d: DirState, origin: string, record: Record)
    requires Consistent(d)
    ensures Consistent(Replaced(d, origin, record))
    ensures forall p :: origin in Queue(Replaced(d, origin, record).order, p) <==> LanExport(p, true) in record.exports
  {
    hide ReadyPrefixes, Requeue, Distinct;
    var r := Replaced(d, origin, record);
    forall p ensures Distinct(Queue(r.order, p)) {
      DistinctAfter(d.order, p, origin);
    }
    forall p, o ensures o in Queue(r.order, p) <==> o in r.records && LanExport(p, true) in r.records[o].exports {
      ReplacedMembers(d, origin, record, p, o);
    }
  }

  lemma RemovedConsistent(d: DirState, origin: string)
    requires Consistent(d)
    ensures Consistent(Removed(d, origin))
  {
    if origin in d.records {
      var r := Removed(d, origin);
      forall p ensures Distinct(Queue(r.order, p)) {
        assert Distinct(Queue(d.order, p));
        WithoutKeepsDistinct(Queue(d.order, p), origin);
      }
      forall p, o ensures o in Queue(r.order, p) <==> p in ReadyOf(r, o) {
        assert o in Queue(d.order, p) <==> p in ReadyOf(d, o);
        assert Queue(r.order, p) == NextQueue(d.order, ReadyOf(d, origin), {}, origin, p);
      }
    }
  }

  // ---- The directory object ----

  class PeerGossipDirectory {
    var records: map<string, Record>
    var order: map<Prefix, seq<string>>

    ghost function State(): (d: DirState)
      reads this
    {
      DirState(records, order)
    }

    ghost predicate Valid()
      reads this
    {
      Consistent(State())
    }

    constructor ()
      ensures State() == EMPTY && Valid()
    {
      records, order := map[], map[];
    }

    // The two loops visit the changed prefixes in whatever order the set yields them.
    method ReplaceOrigin(origin: string, record: Record) returns (r: Result<(), RuntimeError>)
      requires Valid()
      modifies this
      ensures Valid()
      ensures r == if ValidOrigin(origin) then Ok(()) else Err(InvalidOrigin)
      ensures State() == if r.Ok? then Replaced(old(State()), origin, record) else old(State())
      ensures r.Ok? ==> forall p :: origin in Queue(order, p) <==> LanExport(p, true) in record.exports
    {
      hide Canonical, Trim, Consistent, Requeue, Leave, Join, ReadyPrefixes;
      if !ValidOrigin(origin) {
        return Err(InvalidOrigin);
      }
      ReplacedConsistent(State(), origin, record);
      RequeueNothing(State(), origin);
      var previousReady := if origin in records then ReadyPrefixes(records[origin]) else {};
      var nextReady := ReadyPrefixes(record);
      ghost var start := order;
      var leaving := previousReady - nextReady;
      var rest := leaving;
      ghost var left := {};
      while rest != {}
        invariant rest !! left && rest + left == leaving
        invariant order == Requeue(start, left, {}, origin)
        invariant records == old(records)
        decreases rest
      {
        var p :| p in rest;
        LeaveStep(start, left, {}, p, origin);
        order := Leave(order, p, origin);
        rest, left := rest - {p}, left + {p};
      }
      var joining := nextReady - previousReady;
      rest := joining;
      ghost var joined := {};
      while rest != {}
        invariant rest !! joined && rest + joined == joining
        invariant order == Requeue(start, leaving, joined, origin)
        invariant records == old(records)
        decreases rest
      {
        var p :| p in rest;
        JoinStep(start, leaving, joined, p, origin);
        order := Join(order, p, origin);
        rest, joined := rest - {p}, joined + {p};
      }
      records := records[origin := record];
      r := Ok(());
    }

    method RemoveOrigin(origin: string) returns (removed: bool)
      requires Valid()
      modifies this
      ensures Valid()
      ensures removed <==> origin in old(records)
      ensures State() == Removed(old(State()), origin)
    {
      hide Canonical, Consistent, Requeue, Leave, ReadyPrefixes;
      RemovedConsistent(State(), origin);
      RequeueNothing(State(), origin);
      if origin !in records {
        return false;
      }
      var leaving := ReadyPrefixes(records[origin]);
      records := records - {origin};
      ghost var start := order;
      var rest := leaving;
      ghost var left := {};
      while rest != {}
        invariant rest !! left && rest + left == leaving
        invariant order == Requeue(start, left, {}, origin)
        invariant records == old(records) - {origin}
        decreases rest
      {
        var p :| p in rest;
        LeaveStep(start, left, {}, p, origin);
        order := Leave(order, p, origin);
        rest, left := rest - {p}, left + {p};
      }
      removed := true;
    }

    // A scan over an unordered map that keeps the last of the longest prefixes it meets
    // (`max_by_key`).
    method LongestPrefixExporter(destination: Address) returns (best: Option<(Prefix, string)>)
      requires Valid()
      ensures best == NaiveLongest(ActiveSnapshot(order), destination)
      ensures LongestMatch(order, destination, best)
    {
      var rest := order.Keys;
      best := None;
      while rest != {}
        invariant rest <= order.Keys
        invariant LongestAmong(order, order.Keys - rest, destination, best)
        decreases rest
      {
        var p :| p in rest;
        if Contains(p, destination) && order[p] != [] {
          if best.None? || best.value.0.bits <= p.bits {
            best := Some((p, order[p][0]));
          }
        }
        rest := rest - {p};
      }
      assert order.Keys - {} == order.Keys;
      NaiveFindsLongest(order, destination);
      LongestUnique(order, destination, best, NaiveLongest(ActiveSnapshot(order), destination));
    }
  }

  // ---- Lookup ----

  function Front(order: map<Prefix, seq<string>>, p: Prefix): (r: (Prefix, string))
    requires p in order && order[p] != []
  {
    (p, order[p][0])
  }

  /** The active exporter of every prefix, sorted by network and then length. */
  function ActiveSnapshot(order: map<Prefix, seq<string>>): (r: seq<(Prefix, string)>)
    requires NoEmptyQueue(order)
  {
    DistinctKeys(order.Keys);
    var sorted := SortedSeq(Key, order.Keys);
    seq(|sorted|, i requires 0 <= i < |sorted| => Front(order, sorted[i]))
  }

  lemma DistinctKeys(prefixes: set<Prefix>)
    ensures forall p, q :: p in prefixes && q in prefixes && Key(p) == Key(q) ==> p == q
  {
    forall p, q | p in prefixes && q in prefixes && Key(p) == Key(q) ensures p == q {
      KeyOrdersPairs(p, q);
    }
  }

  lemma ActiveSnapshotExactly(order: map<Prefix, seq<string>>)
    requires NoEmptyQueue(order)
    ensures forall p, peer :: (p, peer) in ActiveSnapshot(order) <==> p in order && order[p][0] == peer
    ensures forall i, j :: 0 <= i < j < |ActiveSnapshot(order)| ==>
              Key(ActiveSnapshot(order)[i].0) < Key(ActiveSnapshot(order)[j].0)
  {
    hide SortedSeq, Key;
    DistinctKeys(order.Keys);
    var sorted := SortedSeq(Key, order.Keys);
    var snapshot := ActiveSnapshot(order);
    forall p, peer ensures (p, peer) in snapshot <==> p in order && order[p][0] == peer {
      if p in order && order[p][0] == peer {
        assert p in sorted;
        var i :| 0 <= i < |sorted| && sorted[i] == p;
        assert snapshot[i] == (p, peer);
      }
    }
  }

  /** The longest match of a list, first come first kept. */
  function NaiveLongest(snapshot: seq<(Prefix, string)>, destination: Address): (r: Option<(Prefix, string)>)
  {
    if snapshot == [] then None else
      var before := NaiveLongest(snapshot[..|snapshot| - 1], destination);
      var last := snapshot[|snapshot| - 1];
      if Contains(last.0, destination) && (before.None? || before.value.0.bits < last.0.bits)
      then Some(last) else before
  }

  ghost predicate LongestAmong(
    order: map<Prefix, seq<string>>, among: set<Prefix>, destination: Address, r: Option<(Prefix, string)>)
    requires NoEmptyQueue(order) && among <= order.Keys
  {
    match r
    case None => forall p :: p in among ==> !Contains(p, destination)
    case Some((p, peer)) =>
      && p in among && Contains(p, destination) && peer == order[p][0]
      && forall q :: q in among && Contains(q, destination) ==> q.bits <= p.bits
  }

  /** No exporter matches, or `r` is the front of the queue of a longest matching prefix. */
  ghost predicate LongestMatch(order: map<Prefix, seq<string>>, destination: Address, r: Option<(Prefix, string)>)
    requires NoEmptyQueue(order)
  {
    LongestAmong(order, order.Keys, destination, r)
  }

  // At most one prefix of each length contains a destination, so the answer does not depend on
  // the order in which the map is scanned.
  lemma LongestUnique(
    order: map<Prefix, seq<string>>, destination: Address, r: Option<(Prefix, string)>, t: Option<(Prefix, string)>)
    requires NoEmptyQueue(order) && LongestMatch(order, destination, r) && LongestMatch(order, destination, t)
    ensures r == t
  {
  }

  lemma NaiveFindsLongest(order: map<Prefix, seq<string>>, destination: Address)
    requires NoEmptyQueue(order)
    ensures LongestMatch(order, destination, NaiveLongest(ActiveSnapshot(order), destination))
  {
    var snapshot := ActiveSnapshot(order);
    ActiveSnapshotExactly(order);
    NaiveOverPrefix(snapshot, destination, |snapshot|);
    assert snapshot[..|snapshot|] == snapshot;
    forall p | p in order ensures (p, order[p][0]) in snapshot {}
  }

  lemma {:induction false} NaiveOverPrefix(snapshot: seq<(Prefix, string)>, destination: Address, n: nat)
    requires n <= |snapshot|
    ensures match NaiveLongest(snapshot[..n], destination)
            case None => forall i :: 0 <= i < n ==> !Contains(snapshot[i].0, destination)
            case Some(best) =>
              && best in snapshot && Contains(best.0, destination)
              && forall i :: 0 <= i < n && Contains(snapshot[i].0, destination) ==> snapshot[i].0.bits <= best.0.bits
  {
    if n > 0 {
      NaiveOverPrefix(snapshot, destination, n - 1);
      assert snapshot[..n][..n - 1] == snapshot[..n - 1];
    }
  }

  lemma LeaveStep(
    order: map<Prefix, seq<string>>, leaving: set<Prefix>, joining: set<Prefix>, p: Prefix, origin: string)
    requires p !in leaving && p !in joining
    ensures Leave(Requeue(order, leaving, joining, origin), p, origin) == Requeue(order, leaving + {p}, joining, origin)
  {
    var x, y := Leave(Requeue(order, leaving, joining, origin), p, origin),
                Requeue(order, leaving + {p}, joining, origin);
    forall q ensures Queue(x, q) == Queue(y, q) {
      assert Queue(Requeue(order, leaving, joining, origin), q) == NextQueue(order, leaving, joining, origin, q);
    }
    SameQueues(x, y);
  }

  lemma JoinStep(order: map<Prefix, seq<string>>, leaving: set<Prefix>, joining: set<Prefix>, p: Prefix, origin: string)
    requires p !in leaving && p !in joining
    ensures Join(Requeue(order, leaving, joining, origin), p, origin) == Requeue(order, leaving, joining + {p}, origin)
  {
    var x, y := Join(Requeue(order, leaving, joining, origin), p, origin),
                Requeue(order, leaving, joining + {p}, origin);
    forall q ensures Queue(x, q) == Queue(y, q) {
      assert Queue(Requeue(order, leaving, joining, origin), q) == NextQueue(order, leaving, joining, origin, q);
    }
    SameQueues(x, y);
  }
}
