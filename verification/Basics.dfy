/** Shared vocabulary: results, the total orders the program sorts by, and sorting itself. */
module Basics {

  datatype Option<+T> = None | Some(value: T)

  datatype Result<+T, +E> = Ok(value: T) | Err(error: E)

  predicate Distinct<T(==)>(s: seq<T>)
  {
    forall i, j :: 0 <= i < j < |s| ==> s[i] != s[j]
  }

  /** The elements of `s` other than `x`, in order (`retain(|y| y != x)`). */
  function Without<T(==, !new)>(s: seq<T>, x: T): (r: seq<T>)
    ensures forall y :: y in r <==> y in s && y != x
  {
    if s == [] then [] else (if s[0] == x then [] else [s[0]]) + Without(s[1..], x)
  }

  lemma {:induction false} WithoutKeepsDistinct<T(!new)>(s: seq<T>, x: T)
    requires Distinct(s)
    ensures Distinct(Without(s, x))
  {
    if s != [] {
      WithoutKeepsDistinct(s[1..], x);
      assert s[0] !in s[1..];
      assert s[0] !in Without(s[1..], x);
    }
  }

  lemma {:induction false} WithoutKeepsOrder<T(!new)>(key: T -> int, s: seq<T>, x: T)
    requires StrictlySortedBy(key, s)
    ensures StrictlySortedBy(key, Without(s, x))
  {
    if s != [] {
      WithoutKeepsOrder(key, s[1..], x);
      var rest := Without(s[1..], x);
      forall i | 0 <= i < |rest| ensures key(s[0]) < key(rest[i]) {
        assert rest[i] in s[1..];
      }
    }
  }

  lemma {:induction false} WithoutAbsent<T(!new)>(s: seq<T>, x: T)
    requires x !in s
    ensures Without(s, x) == s
  {
    if s != [] { WithoutAbsent(s[1..], x); }
  }

  /** The first `n` distinct elements of `s`, in order of first occurrence. */
  function FirstDistinct<T(==)>(s: seq<T>, n: nat): (r: seq<T>)
  {
    if s == [] then [] else
      var kept := FirstDistinct(s[..|s| - 1], n);
      var last := s[|s| - 1];
      if |kept| == n || last in kept then kept else kept + [last]
  }

  lemma {:induction false} FirstDistinctExactly<T>(s: seq<T>, n: nat)
    ensures |FirstDistinct(s, n)| <= n && Distinct(FirstDistinct(s, n))
    ensures forall x :: x in FirstDistinct(s, n) ==> x in s
    ensures |FirstDistinct(s, n)| < n ==> forall x :: x in s ==> x in FirstDistinct(s, n)
  {
    if s != [] {
      FirstDistinctExactly(s[..|s| - 1], n);
      assert s == s[..|s| - 1] + [s[|s| - 1]];
    }
  }

  // What comes later never displaces what was admitted earlier.
  lemma {:induction false} FirstDistinctExtends<T>(s: seq<T>, t: seq<T>, n: nat)
    ensures FirstDistinct(s, n) <= FirstDistinct(s + t, n)
  {
    if t == [] {
      assert s + t == s;
    } else {
      assert (s + t)[..|s + t| - 1] == s + t[..|t| - 1];
      FirstDistinctExtends(s, t[..|t| - 1], n);
    }
  }

  lemma {:induction false} FullStaysFull<T>(s: seq<T>, i: nat, n: nat)
    requires i <= |s|
    requires i == |s| || |FirstDistinct(s[..i], n)| >= n
    ensures FirstDistinct(s, n) == FirstDistinct(s[..i], n)
  {
    assert s == s[..i] + s[i..];
    FirstDistinctExtends(s[..i], s[i..], n);
    FirstDistinctExactly(s, n);
    FirstDistinctExactly(s[..i], n);
    if i == |s| { assert s[..i] == s; }
  }

  lemma {:induction false} DistinctCount<T>(s: seq<T>)
    requires Distinct(s)
    ensures |set x | x in s| == |s|
  {
    if s != [] {
      DistinctCount(s[1..]);
      assert s[0] !in s[1..];
      assert (set x | x in s) == {s[0]} + (set x | x in s[1..]);
    }
  }

  lemma SameElementsSameLength<T(!new)>(s: seq<T>, t: seq<T>)
    requires Distinct(s) && Distinct(t) && forall x :: x in s <==> x in t
    ensures |s| == |t|
  {
    DistinctCount(s);
    DistinctCount(t);
    assert (set x | x in s) == (set x | x in t);
  }

  lemma {:induction false} FirstDistinctCount<T>(s: seq<T>, n: nat)
    ensures var distinct := |set x | x in s|; |FirstDistinct(s, n)| == if distinct <= n then distinct else n
  {
    if s != [] {
      var before, last := s[..|s| - 1], s[|s| - 1];
      FirstDistinctCount(before, n);
      FirstDistinctExactly(before, n);
      assert (set x | x in s) == (set x | x in before) + {last};
      assert last in before ==> (set x | x in s) == (set x | x in before);
    }
  }

  // The cut, counted: the first occurrence of an element is kept exactly when fewer than `n` others precede it.
  lemma FirstDistinctRank<T>(s: seq<T>, n: nat, i: nat)
    requires i < |s| && s[i] !in s[..i]
    ensures s[i] in FirstDistinct(s, n) <==> |set x | x in s[..i]| < n
  {
    FirstDistinctCount(s[..i], n);
    FirstDistinctExactly(s[..i], n);
    if |FirstDistinct(s[..i], n)| == n {
      FullStaysFull(s, i, n);
    } else {
      assert s[..i + 1][..i] == s[..i];
      assert s == s[..i + 1] + s[i + 1..];
      FirstDistinctExtends(s[..i + 1], s[i + 1..], n);
      assert s[i] in FirstDistinct(s[..i + 1], n);
    }
  }

  // ---- Sorting by an integer key ----

  predicate SortedBy<T>(key: T -> int, s: seq<T>)
  {
    forall i, j :: 0 <= i < j < |s| ==> key(s[i]) <= key(s[j])
  }

  predicate StrictlySortedBy<T>(key: T -> int, s: seq<T>)
  {
    forall i, j :: 0 <= i < j < |s| ==> key(s[i]) < key(s[j])
  }

  function InsertBy<T(!new)>(key: T -> int, x: T, s: seq<T>): (r: seq<T>)
    ensures multiset(r) == multiset{x} + multiset(s)
    ensures forall y :: y in r <==> y == x || y in s
  {
    if s == [] || key(x) <= key(s[0]) then
      [x] + s
    else
      assert s == [s[0]] + s[1..];
      [s[0]] + InsertBy(key, x, s[1..])
  }

  lemma {:induction false} InsertKeepsSorted<T(!new)>(key: T -> int, x: T, s: seq<T>)
    requires SortedBy(key, s)
    ensures SortedBy(key, InsertBy(key, x, s))
  {
    if s != [] && key(s[0]) < key(x) {
      InsertKeepsSorted(key, x, s[1..]);
      var rest := InsertBy(key, x, s[1..]);
      assert forall y :: y in rest ==> key(s[0]) <= key(y);
    }
  }

  /** A stable sort (`sort_by_key`). */
  function SortBy<T(!new)>(key: T -> int, s: seq<T>): (r: seq<T>)
    ensures SortedBy(key, r)
    ensures multiset(r) == multiset(s)
    ensures |r| == |s|
    ensures forall y :: y in r <==> y in s
  {
    if s == [] then [] else
      var rest := SortBy(key, s[1..]);
      InsertKeepsSorted(key, s[0], rest);
      assert s == [s[0]] + s[1..];
      var r := InsertBy(key, s[0], rest);
      assert |multiset(r)| == |multiset(s)|;
      r
  }

  predicate DistinctBy<T>(key: T -> int, s: seq<T>)
  {
    forall i, j :: 0 <= i < j < |s| ==> key(s[i]) != key(s[j])
  }

  // Comparing neighbours of a sorted sequence finds every repeated key.
  lemma NeighboursSuffice<T>(key: T -> int, s: seq<T>)
    requires SortedBy(key, s)
    ensures StrictlySortedBy(key, s) <==> forall i :: 0 <= i < |s| - 1 ==> key(s[i]) != key(s[i + 1])
    ensures StrictlySortedBy(key, s) <==> DistinctBy(key, s)
  {
    if forall i :: 0 <= i < |s| - 1 ==> key(s[i]) != key(s[i + 1]) {
      forall i, j | 0 <= i < j < |s| ensures key(s[i]) < key(s[j]) {
        assert key(s[i]) <= key(s[i + 1]) <= key(s[j]);
      }
    }
  }

  lemma {:induction false} OccursOnce<T(!new)>(key: T -> int, s: seq<T>, x: T)
    requires DistinctBy(key, s)
    ensures multiset(s)[x] <= 1
  {
    if s != [] {
      OccursOnce(key, s[1..], x);
      assert s == [s[0]] + s[1..] && s[0] !in s[1..];
      assert x !in s[1..] ==> multiset(s[1..])[x] == 0;
    }
  }

  lemma PermutationKeepsDistinct<T(!new)>(key: T -> int, s: seq<T>, t: seq<T>)
    requires multiset(s) == multiset(t) && DistinctBy(key, s)
    ensures DistinctBy(key, t)
  {
    forall i, j | 0 <= i < j < |t| ensures key(t[i]) != key(t[j]) {
      assert t == t[..j] + [t[j]] + t[j + 1..];
      assert t[i] in t[..j];
      if t[i] == t[j] {
        assert multiset(t)[t[j]] >= 2;
        OccursOnce(key, s, t[j]);
      } else {
        assert t[i] in multiset(s) && t[j] in multiset(s);
      }
    }
  }

  // A strictly sorted sequence is determined by the elements it holds.
  lemma {:induction false} StrictlySortedUnique<T(!new)>(key: T -> int, s: seq<T>, t: seq<T>)
    requires StrictlySortedBy(key, s) && StrictlySortedBy(key, t)
    requires forall x :: x in s <==> x in t
    ensures s == t
  {
    assert t != [] ==> t[0] in s;
    if s != [] {
      assert s[0] in t;
      assert s[0] == t[0];
      forall x ensures x in s[1..] <==> x in t[1..] {
        assert x in s[1..] <==> x in s && x != s[0];
        assert x in t[1..] <==> x in t && x != t[0];
      }
      StrictlySortedUnique(key, s[1..], t[1..]);
    }
  }

  lemma {:induction false} SortOfSorted<T(!new)>(key: T -> int, s: seq<T>)
    requires SortedBy(key, s)
    ensures SortBy(key, s) == s
  {
    if s != [] {
      SortOfSorted(key, s[1..]);
    }
  }

  /** `dedup`: drops each element equal to the one before it. */
  function Dedup<T(==)>(s: seq<T>): (r: seq<T>)
  {
    if |s| <= 1 then s
    else if s[0] == s[1] then Dedup(s[1..])
    else [s[0]] + Dedup(s[1..])
  }

  lemma {:induction false} DedupKeepsElements<T(!new)>(s: seq<T>, x: T)
    ensures x in Dedup(s) <==> x in s
  {
    if |s| > 1 {
      DedupKeepsElements(s[1..], x);
      assert s == [s[0]] + s[1..];
    }
  }

  lemma {:induction false} DedupSorted<T(!new)>(key: T -> int, s: seq<T>)
    requires SortedBy(key, s)
    requires forall i, j :: 0 <= i < j < |s| && key(s[i]) == key(s[j]) ==> s[i] == s[j]
    ensures StrictlySortedBy(key, Dedup(s))
  {
    if |s| > 1 {
      var rest := Dedup(s[1..]);
      DedupSorted(key, s[1..]);
      if s[0] != s[1] {
        forall i | 0 <= i < |rest| ensures key(s[0]) < key(rest[i]) {
          DedupKeepsElements(s[1..], rest[i]);
          var j :| 0 <= j < |s[1..]| && s[1..][j] == rest[i];
          assert key(s[1]) <= key(s[j + 1]);
        }
      }
    }
  }

  /** The elements of a set in key order. */
  function SortedSeq<T(!new)>(key: T -> int, s: set<T>): (r: seq<T>)
    requires forall x, y :: x in s && y in s && key(x) == key(y) ==> x == y
    ensures forall x :: x in r <==> x in s
    ensures StrictlySortedBy(key, r)
  {
    if s == {} then [] else
      LeastKeyExists(key, s);
      var least :| LeastKey(key, least, s);
      var rest := SortedSeq(key, s - {least});
      assert forall i :: 0 <= i < |rest| ==> rest[i] in s - {least};
      [least] + rest
  }

  predicate LeastKey<T(==)>(key: T -> int, x: T, s: set<T>)
  {
    x in s && forall y :: y in s ==> key(x) <= key(y)
  }

  lemma LeastKeyExists<T(!new)>(key: T -> int, s: set<T>)
    requires s != {}
    ensures exists x :: LeastKey(key, x, s)
  {
    var y :| y in s;
    if s == {y} {
      assert LeastKey(key, y, s);
    } else {
      LeastKeyExists(key, s - {y});
      var m :| LeastKey(key, m, s - {y});
      assert LeastKey(key, if key(m) <= key(y) then m else y, s);
    }
  }

  // ---- The order on identifiers ----

  /** `a <= b` on strings: lexicographic by character. */
  predicate LexLe(a: string, b: string)
  {
    a == "" || (b != "" && (a[0] < b[0] || (a[0] == b[0] && LexLe(a[1..], b[1..]))))
  }

  lemma {:induction false} LexTotal(a: string, b: string)
    ensures LexLe(a, b) || LexLe(b, a)
  {
    if a != "" && b != "" { LexTotal(a[1..], b[1..]); }
  }

  lemma {:induction false} LexAntisymmetric(a: string, b: string)
    requires LexLe(a, b) && LexLe(b, a)
    ensures a == b
  {
    if a != "" && b != "" {
      LexAntisymmetric(a[1..], b[1..]);
      assert a == [a[0]] + a[1..] && b == [b[0]] + b[1..];
    }
  }

  lemma {:induction false} LexTransitive(a: string, b: string, c: string)
    requires LexLe(a, b) && LexLe(b, c)
    ensures LexLe(a, c)
  {
    if a != "" && a[0] == b[0] == c[0] { LexTransitive(a[1..], b[1..], c[1..]); }
  }

  /** The strings agree before position `i`, where `a` has the smaller character. */
  predicate FirstSmaller(a: string, b: string, i: nat)
  {
    i < |a| && i < |b| && a[..i] == b[..i] && a[i] < b[i]
  }

  // One string comes before another when it is a prefix of it, or smaller where they first differ.
  lemma {:induction false} LexLeExactly(a: string, b: string)
    ensures LexLe(a, b) <==> a <= b || exists i :: FirstSmaller(a, b, i)
  {
    if a != "" && b != "" && a[0] == b[0] {
      LexLeExactly(a[1..], b[1..]);
      assert a <= b <==> a[1..] <= b[1..];
      if i: nat :| FirstSmaller(a[1..], b[1..], i) {
        assert FirstSmaller(a, b, i + 1);
      }
      if i: nat :| FirstSmaller(a, b, i) {
        assert i > 0;
        assert a[1..][..i - 1] == a[..i][1..] && b[1..][..i - 1] == b[..i][1..];
        assert FirstSmaller(a[1..], b[1..], i - 1);
      }
    } else if a != "" && b != "" && a[0] < b[0] {
      assert FirstSmaller(a, b, 0);
    } else if a != "" && b != "" {
      assert forall i: nat :: FirstSmaller(a, b, i) ==> i == 0 || a[..i][0] == b[..i][0];
    }
  }

  predicate LeastId(x: string, ids: set<string>)
  {
    x in ids && forall y :: y in ids ==> LexLe(x, y)
  }

  lemma LeastIdExists(ids: set<string>) returns (x: string)
    requires ids != {}
    ensures LeastId(x, ids)
  {
    var y :| y in ids;
    LexTotal(y, y);
    if ids == {y} {
      x := y;
    } else {
      var m := LeastIdExists(ids - {y});
      LexTotal(m, y);
      if LexLe(m, y) {
        x := m;
      } else {
        x := y;
        forall z | z in ids ensures LexLe(x, z) {
          if z != y { LexTransitive(y, m, z); }
        }
      }
    }
  }

  lemma LeastIdUnique(ids: set<string>)
    requires ids != {}
    ensures exists x :: LeastId(x, ids)
    ensures forall x, y :: LeastId(x, ids) && LeastId(y, ids) ==> x == y
  {
    var least := LeastIdExists(ids);
    forall x, y | LeastId(x, ids) && LeastId(y, ids) ensures x == y { LexAntisymmetric(x, y); }
  }

  lemma LeastFirst(least: string, rest: seq<string>, ids: set<string>)
    requires LeastId(least, ids) && Distinct(rest)
    requires forall x :: x in rest <==> x in ids - {least}
    requires forall i, j :: 0 <= i <= j < |rest| ==> LexLe(rest[i], rest[j])
    ensures Distinct([least] + rest)
    ensures forall x :: x in [least] + rest <==> x in ids
    ensures forall i, j :: 0 <= i <= j < |[least] + rest| ==> LexLe(([least] + rest)[i], ([least] + rest)[j])
  {
    assert least !in rest;
    forall j | 0 <= j < |rest| ensures LexLe(least, rest[j]) {
      assert rest[j] in rest;
    }
  }

  /** Iteration order of a `BTreeSet<String>` or of the keys of a `BTreeMap<String, _>`. */
  function SortedIds(ids: set<string>): (r: seq<string>)
    ensures |r| == |ids| && Distinct(r)
    ensures forall x :: x in r <==> x in ids
    ensures forall i, j :: 0 <= i <= j < |r| ==> LexLe(r[i], r[j])
  {
    if ids == {} then [] else
      LeastIdUnique(ids);
      var least :| LeastId(least, ids);
      var rest := SortedIds(ids - {least});
      LeastFirst(least, rest, ids);
      [least] + rest
  }

  // ---- Text ----

  /** The Unicode White_Space characters, which `trim` removes. */
  predicate IsWhiteSpace(c: char)
  {
    || '\U{0009}' <= c <= '\U{000D}' || c == ' ' || c == '\U{0085}' || c == '\U{00A0}' || c == '\U{1680}'
    || '\U{2000}' <= c <= '\U{200A}' || c == '\U{2028}' || c == '\U{2029}' || c == '\U{202F}' || c == '\U{205F}'
    || c == '\U{3000}'
  }

  function TrimStartBy(blank: char -> bool, s: string): (r: string)
    ensures |r| <= |s|
    ensures r != "" ==> !blank(r[0])
  {
    if s != "" && blank(s[0]) then TrimStartBy(blank, s[1..]) else s
  }

  function TrimEndBy(blank: char -> bool, s: string): (r: string)
    ensures r <= s
    ensures r != "" ==> !blank(r[|r| - 1])
  {
    if s != "" && blank(s[|s| - 1]) then TrimEndBy(blank, s[..|s| - 1]) else s
  }

  function TrimBy(blank: char -> bool, s: string): (r: string)
    ensures |r| <= |s|
    ensures r != "" ==> !blank(r[0]) && !blank(r[|r| - 1])
  {
    TrimEndBy(blank, TrimStartBy(blank, s))
  }

  function Trim(s: string): (r: string)
  {
    TrimBy(IsWhiteSpace, s)
  }

  predicate AllBlank(blank: char -> bool, s: string)
  {
    forall i :: 0 <= i < |s| ==> blank(s[i])
  }

  // Trimming removes blanks from the two ends and nothing else.
  lemma TrimRemovesBlanks(blank: char -> bool, s: string) returns (before: string, after: string)
    ensures s == before + TrimBy(blank, s) + after && AllBlank(blank, before) && AllBlank(blank, after)
  {
    var rest := TrimStartBy(blank, s);
    before := TrimStartRemoves(blank, s);
    after := TrimEndRemoves(blank, rest);
  }

  // Nothing is left exactly of blank text.
  lemma BlankExactly(blank: char -> bool, s: string)
    ensures TrimBy(blank, s) == "" <==> AllBlank(blank, s)
  {
    var before, after := TrimRemovesBlanks(blank, s);
    var r := TrimBy(blank, s);
    assert r != "" ==> s[|before|] == r[0];
  }

  // Text is its own trimmed form exactly when it does not begin or end with a blank.
  lemma TrimmedExactly(blank: char -> bool, s: string)
    ensures TrimBy(blank, s) == s <==> s == "" || (!blank(s[0]) && !blank(s[|s| - 1]))
  {
  }

  lemma {:induction false} TrimStartRemoves(blank: char -> bool, s: string) returns (before: string)
    ensures s == before + TrimStartBy(blank, s) && AllBlank(blank, before)
  {
    before := "";
    if s != "" && blank(s[0]) {
      var more := TrimStartRemoves(blank, s[1..]);
      before := [s[0]] + more;
      assert s == [s[0]] + s[1..];
    }
  }

  lemma {:induction false} TrimEndRemoves(blank: char -> bool, s: string) returns (after: string)
    ensures s == TrimEndBy(blank, s) + after && AllBlank(blank, after)
  {
    after := "";
    if s != "" && blank(s[|s| - 1]) {
      var more := TrimEndRemoves(blank, s[..|s| - 1]);
      after := more + [s[|s| - 1]];
      assert s == s[..|s| - 1] + [s[|s| - 1]];
    }
  }

  // Text that starts and ends with something else keeps its ends.
  lemma NothingToTrim(blank: char -> bool, s: string)
    requires s != "" && !blank(s[0]) && !blank(s[|s| - 1])
    ensures TrimBy(blank, s) == s
  {
  }
}
