/**
What the exporter queues mean over a whole run: each one lists the origins that are ready now,
ordered by when each last turned from not ready to ready.
*/
module DirectoryHistory {
  import opened Basics
  import opened RuntimeRecord
  import opened Directory

  datatype Event = Replace(origin: string, record: Record) | Remove(origin: string)

  function Step(d: DirState, e: Event): (r: DirState)
  {
    match e
    case Replace(origin, record) => if ValidOrigin(origin) then Replaced(d, origin, record) else d
    case Remove(origin) => Removed(d, origin)
  }

  /** The directory after a run from empty. */
  function After(log: seq<Event>): (d: DirState)
  {
    if log == [] then EMPTY else Step(After(log[..|log| - 1]), log[|log| - 1])
  }

  /** Read off the log alone: the last accepted word from `origin` marks `p` ready. */
  predicate Ready(log: seq<Event>, origin: string, p: Prefix)
  {
    log != [] &&
    match log[|log| - 1]
    case Replace(o, record) =>
      if o == origin && ValidOrigin(o) then LanExport(p, true) in record.exports
      else Ready(log[..|log| - 1], origin, p)
    case Remove(o) => o != origin && Ready(log[..|log| - 1], origin, p)
  }

  /** The event is about `origin`, and the directory accepts it. */
  predicate Speaks(e: Event, origin: string)
  {
    e.origin == origin && (e.Replace? ==> ValidOrigin(origin))
  }

  /** Event `i` is the last accepted one about `origin`, and it marks `p` ready. */
  predicate LastMarks(log: seq<Event>, origin: string, p: Prefix, i: nat)
  {
    && i < |log| && Speaks(log[i], origin) && log[i].Replace? && LanExport(p, true) in log[i].record.exports
    && forall j :: i < j < |log| ==> !Speaks(log[j], origin)
  }

  /** The event at which `origin` last turned from not ready to ready; -1 when it is not ready. */
  function ReadySince(log: seq<Event>, origin: string, p: Prefix): (i: int)
    ensures -1 <= i < |log|
    ensures i == -1 <==> !Ready(log, origin, p)
  {
    if !Ready(log, origin, p) then -1
    else if Ready(log[..|log| - 1], origin, p) then ReadySince(log[..|log| - 1], origin, p)
    else |log| - 1
  }

  ghost predicate OrderedByHistory(log: seq<Event>, p: Prefix, queue: seq<string>)
  {
    && (forall origin :: origin in queue <==> Ready(log, origin, p))
    && StrictlySortedBy(origin => ReadySince(log, origin, p), queue)
  }

  lemma {:induction false} AlwaysConsistent(log: seq<Event>)
    ensures Consistent(After(log))
  {
    if log != [] {
      var before := After(log[..|log| - 1]);
      AlwaysConsistent(log[..|log| - 1]);
      match log[|log| - 1]
      case Replace(origin, record) => ReplacedConsistent(before, origin, record);
      case Remove(origin) => RemovedConsistent(before, origin);
    }
  }

  lemma {:induction false} ReadyIsStored(log: seq<Event>, origin: string, p: Prefix)
    ensures Ready(log, origin, p) <==> p in ReadyOf(After(log), origin)
  {
    if log != [] { ReadyIsStored(log[..|log| - 1], origin, p); }
  }

  lemma {:induction false} ReadyIsLastWord(log: seq<Event>, origin: string, p: Prefix)
    ensures Ready(log, origin, p) <==> exists i :: LastMarks(log, origin, p, i)
  {
    if log != [] {
      var n := |log| - 1;
      ReadyIsLastWord(log[..n], origin, p);
      if Speaks(log[n], origin) {
        assert Ready(log, origin, p) <==> LastMarks(log, origin, p, n);
      } else {
        forall i: nat ensures LastMarks(log, origin, p, i) <==> LastMarks(log[..n], origin, p, i) {
          assert i < n ==> log[..n][i] == log[i];
        }
      }
    }
  }

  // Over every run: a queue holds exactly the origins whose last accepted word marks the prefix ready.
  lemma QueuedByLastWord(log: seq<Event>, origin: string, p: Prefix)
    ensures origin in Queue(After(log).order, p) <==> exists i :: LastMarks(log, origin, p, i)
  {
    AlwaysConsistent(log);
    ReadyIsStored(log, origin, p);
    ReadyIsLastWord(log, origin, p);
  }

  // One step changes a queue only by dropping an origin or by appending one.
  lemma StepQueue(d: DirState, e: Event, p: Prefix)
    requires Consistent(d)
    ensures var before, now := Queue(d.order, p), Queue(Step(d, e).order, p);
            now == (if p in ReadyOf(Step(d, e), e.origin)
                    then (if e.origin in before then before else before + [e.origin])
                    else Without(before, e.origin))
  {
    var before := Queue(d.order, p);
    assert e.origin in before <==> p in ReadyOf(d, e.origin);
    if e.origin !in before { WithoutAbsent(before, e.origin); }
    match e
    case Replace(origin, record) =>
      if ValidOrigin(origin) {
        var was, next := ReadyOf(d, origin), ReadyPrefixes(record);
        assert Queue(Step(d, e).order, p) == NextQueue(d.order, was - next, next - was, origin, p);
      }
    case Remove(origin) =>
      if origin in d.records {
        assert Queue(Step(d, e).order, p) == NextQueue(d.order, ReadyPrefixes(d.records[origin]), {}, origin, p);
      }
  }

  // The order index refines the history: after any run, a prefix has a queue exactly when some
  // origin is ready for it, and the queue is the ready origins by their last turn to ready.
  lemma {:induction false} OrderIsHistory(log: seq<Event>, p: Prefix)
    ensures OrderedByHistory(log, p, Queue(After(log).order, p))
    ensures p in After(log).order <==> Queue(After(log).order, p) != []
  {
    AlwaysConsistent(log);
    var queue := Queue(After(log).order, p);
    forall origin ensures origin in queue <==> Ready(log, origin, p) {
      ReadyIsStored(log, origin, p);
    }
    if log != [] {
      var before, e := log[..|log| - 1], log[|log| - 1];
      OrderIsHistory(before, p);
      AlwaysConsistent(before);
      StepQueue(After(before), e, p);
      ReadyIsStored(log, e.origin, p);
      var earlier := Queue(After(before).order, p);
      WithoutKeepsOrder(origin => ReadySince(before, origin, p), earlier, e.origin);
      forall i, j | 0 <= i < j < |queue| ensures ReadySince(log, queue[i], p) < ReadySince(log, queue[j], p) {
        assert queue[i] in queue && queue[j] in queue;
        SinceStep(log, queue[i], p);
        SinceStep(log, queue[j], p);
      }
    }
  }

  lemma SinceStep(log: seq<Event>, origin: string, p: Prefix)
    requires log != [] && Ready(log, origin, p)
    ensures var before := log[..|log| - 1];
            if Ready(before, origin, p) then ReadySince(log, origin, p) == ReadySince(before, origin, p)
            else ReadySince(log, origin, p) == |log| - 1 && origin == log[|log| - 1].origin
  {
  }

  // A queue is determined by the history.
  lemma HistoryDeterminesQueue(log: seq<Event>, p: Prefix, queue: seq<string>)
    requires OrderedByHistory(log, p, queue)
    ensures queue == Queue(After(log).order, p)
  {
    OrderIsHistory(log, p);
    StrictlySortedUnique(origin => ReadySince(log, origin, p), queue, Queue(After(log).order, p));
  }

  predicate Active(log: seq<Event>, p: Prefix, origin: string)
  {
    var queue := Queue(After(log).order, p);
    queue != [] && queue[0] == origin
  }

  // A still-ready active exporter is never displaced, whatever the others do.
  lemma {:induction false} ActiveNeverDisplaced(log: seq<Event>, more: seq<Event>, p: Prefix, origin: string)
    requires Active(log, p, origin)
    requires forall n :: 0 <= n <= |more| ==> Ready(log + more[..n], origin, p)
    ensures Active(log + more, p, origin)
  {
    hide After, Ready, Active;
    if more == [] {
      assert log + more == log;
    } else {
      var earlier := more[..|more| - 1];
      forall n | 0 <= n <= |earlier| ensures Ready(log + earlier[..n], origin, p) {
        assert earlier[..n] == more[..n];
      }
      ActiveNeverDisplaced(log, earlier, p, origin);
      assert log + more == log + earlier + [more[|more| - 1]];
      assert more[..|more|] == more;
      ActiveStep(log + earlier, more[|more| - 1], p, origin);
    }
  }

  lemma ActiveStep(log: seq<Event>, e: Event, p: Prefix, origin: string)
    requires Active(log, p, origin) && Ready(log + [e], origin, p)
    ensures Active(log + [e], p, origin)
  {
    assert (log + [e])[..|log|] == log;
    AlwaysConsistent(log);
    StepQueue(After(log), e, p);
    ReadyIsStored(log + [e], origin, p);
  }
}
