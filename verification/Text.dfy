/** Splitting and joining text at a separator. */
module Text {
  import opened Basics

  /** The text around the first separator. */
  function SplitOnce<T(==)>(s: seq<T>, c: T): (r: Option<(seq<T>, seq<T>)>)
    ensures match r
            case None => c !in s
            case Some((head, tail)) => s == head + [c] + tail && c !in head
  {
    if s == [] then None
    else if s[0] == c then Some(([], s[1..]))
    else
      assert s == [s[0]] + s[1..];
      match SplitOnce(s[1..], c)
      case None => None
      case Some((head, tail)) => Some(([s[0]] + head, tail))
  }

  lemma {:induction false} SplitAt<T>(head: seq<T>, c: T, tail: seq<T>)
    requires c !in head
    ensures SplitOnce(head + [c] + tail, c) == Some((head, tail))
  {
    var s := head + [c] + tail;
    if head == [] {
      assert s[1..] == tail;
    } else {
      SplitAt(head[1..], c, tail);
      assert s[1..] == head[1..] + [c] + tail && s[0] == head[0];
      assert [head[0]] + head[1..] == head;
    }
  }

  /** All parts, empty ones included. */
  function Split(s: string, c: char): (r: seq<string>)
    ensures r != []
    decreases |s|
  {
    match SplitOnce(s, c)
    case None => [s]
    case Some((head, tail)) => [head] + Split(tail, c)
  }

  function Join(parts: seq<string>, c: char): (s: string)
    requires parts != []
  {
    if |parts| == 1 then parts[0] else parts[0] + [c] + Join(parts[1..], c)
  }

  lemma {:induction false} SplitOfJoin(parts: seq<string>, c: char)
    requires parts != [] && forall i :: 0 <= i < |parts| ==> c !in parts[i]
    ensures Split(Join(parts, c), c) == parts
  {
    if |parts| > 1 {
      SplitAt(parts[0], c, Join(parts[1..], c));
      SplitOfJoin(parts[1..], c);
    }
  }

  lemma {:induction false} JoinOfSplit(s: string, c: char)
    ensures Join(Split(s, c), c) == s
    decreases |s|
  {
    match SplitOnce(s, c)
    case None =>
    case Some((head, tail)) => JoinOfSplit(tail, c);
  }

  lemma {:induction false} SplitOfBoth(x: string, c: char, y: string)
    ensures Split(x + [c] + y, c) == Split(x, c) + Split(y, c)
    decreases |x|
  {
    match SplitOnce(x, c)
    case None =>
      SplitAt(x, c, y);
    case Some((head, tail)) =>
      assert x + [c] + y == head + [c] + (tail + [c] + y);
      SplitAt(head, c, tail + [c] + y);
      SplitOfBoth(tail, c, y);
  }

  lemma {:induction false} JoinOfBoth(xs: seq<string>, c: char, ys: seq<string>)
    requires xs != [] && ys != []
    ensures Join(xs + ys, c) == Join(xs, c) + [c] + Join(ys, c)
  {
    assert (xs + ys)[1..] == xs[1..] + ys;
    if |xs| > 1 {
      JoinOfBoth(xs[1..], c, ys);
    }
  }

  predicate Somewhere(parts: seq<string>, d: char)
  {
    exists part :: part in parts && d in part
  }

  // Joining adds no character but the separator.
  lemma {:induction false} JoinHas(parts: seq<string>, c: char, d: char)
    requires parts != [] && d != c
    ensures d in Join(parts, c) <==> Somewhere(parts, d)
  {
    if |parts| > 1 {
      JoinHas(parts[1..], c, d);
      assert parts == [parts[0]] + parts[1..];
    }
  }
}
