/** The insertion sort the scheduler writes out three times, over intervals by
    start and over scored slots by falling score, with the key as a parameter. */
module Sorting {

  ghost predicate SortedBy<T>(key: T -> int, s: seq<T>) {
    forall i, j | 0 <= i < j < |s| :: key(s[i]) <= key(s[j])
  }

  /** x goes right after the last element whose key is not above its own. */
  function Insert<T>(key: T -> int, s: seq<T>, x: T): seq<T> {
    if s == [] || key(s[|s|-1]) <= key(x) then s + [x]
    else Insert(key, s[..|s|-1], x) + [s[|s|-1]]
  }

  function Sort<T>(key: T -> int, s: seq<T>): seq<T> {
    if s == [] then [] else Insert(key, Sort(key, s[..|s|-1]), s[|s|-1])
  }

  /** The elements whose key is k, in order of appearance. */
  ghost function Class<T>(key: T -> int, s: seq<T>, k: int): seq<T> {
    if s == [] then []
    else Class(key, s[..|s|-1], k) + if key(s[|s|-1]) == k then [s[|s|-1]] else []
  }

  lemma {:induction false} InsertPermutes<T>(key: T -> int, s: seq<T>, x: T)
    ensures multiset(Insert(key, s, x)) == multiset(s) + multiset{x}
  {
    if s != [] && key(s[|s|-1]) > key(x) {
      InsertPermutes(key, s[..|s|-1], x);
      assert s == s[..|s|-1] + [s[|s|-1]];
    }
  }

  lemma {:induction false} InsertSorts<T>(key: T -> int, s: seq<T>, x: T, top: int)
    requires SortedBy(key, s)
    requires key(x) <= top && forall i | 0 <= i < |s| :: key(s[i]) <= top
    ensures SortedBy(key, Insert(key, s, x))
    ensures forall i | 0 <= i < |Insert(key, s, x)| :: key(Insert(key, s, x)[i]) <= top
  {
    if s != [] && key(s[|s|-1]) > key(x) {
      InsertSorts(key, s[..|s|-1], x, key(s[|s|-1]));
    }
  }

  lemma ClassAppend<T>(key: T -> int, s: seq<T>, x: T, k: int)
    ensures Class(key, s + [x], k) == Class(key, s, k) + if key(x) == k then [x] else []
  {
    assert (s + [x])[..|s|] == s;
  }

  lemma {:induction false} InsertClass<T>(key: T -> int, s: seq<T>, x: T, k: int)
    ensures Class(key, Insert(key, s, x), k) == Class(key, s + [x], k)
  {
    ClassAppend(key, s, x, k);
    if s != [] && key(s[|s|-1]) > key(x) {
      var init, last := s[..|s|-1], s[|s|-1];
      InsertClass(key, init, x, k);
      ClassAppend(key, init, x, k);
      ClassAppend(key, Insert(key, init, x), last, k);
    }
  }

  /** A sorted permutation that keeps the order of equal keys. */
  lemma {:induction false} SortIsStable<T>(key: T -> int, s: seq<T>, k: int)
    ensures SortedBy(key, Sort(key, s))
    ensures multiset(Sort(key, s)) == multiset(s)
    ensures Class(key, Sort(key, s), k) == Class(key, s, k)
  {
    if s != [] {
      var init := s[..|s|-1];
      assert s == init + [s[|s|-1]];
      SortIsStable(key, init, k);
      var sorted := Sort(key, init);
      var x := s[|s|-1];
      InsertPermutes(key, sorted, x);
      var top := if sorted == [] || key(sorted[|sorted|-1]) <= key(x) then key(x) else key(sorted[|sorted|-1]);
      InsertSorts(key, sorted, x, top);
      InsertClass(key, sorted, s[|s|-1], k);
      ClassAppend(key, sorted, s[|s|-1], k);
    }
  }

  lemma SortMembers<T>(key: T -> int, s: seq<T>)
    ensures |Sort(key, s)| == |s| && forall x :: x in Sort(key, s) <==> x in s
  {
    SortIsStable(key, s, 0);
    assert |multiset(Sort(key, s))| == |multiset(s)|;
    forall x ensures x in Sort(key, s) <==> x in s {
      assert x in Sort(key, s) <==> x in multiset(Sort(key, s));
    }
  }

  /** a goes before b: no larger a key and, of a list that came in time, the
      earlier one of equal keys. */
  predicate Ahead<T>(key: T -> int, time: T -> int, a: T, b: T, inTime: bool) {
    key(a) <= key(b) && (inTime && key(a) == key(b) ==> time(a) < time(b))
  }

  ghost predicate InTurn<T>(key: T -> int, time: T -> int, s: seq<T>, inTime: bool) {
    forall i, j | 0 <= i < j < |s| :: Ahead(key, time, s[i], s[j], inTime)
  }

  ghost predicate Rising<T>(time: T -> int, s: seq<T>) {
    forall i, j | 0 <= i < j < |s| :: time(s[i]) < time(s[j])
  }

  /** A later element sorted in goes behind its equals. */
  lemma {:induction false} InsertInTurn<T>(key: T -> int, time: T -> int, s: seq<T>, x: T, inTime: bool)
    requires InTurn(key, time, s, inTime) && (inTime ==> forall i | 0 <= i < |s| :: time(s[i]) < time(x))
    ensures InTurn(key, time, Insert(key, s, x), inTime)
  {
    if s != [] && key(s[|s|-1]) > key(x) {
      var init, last := s[..|s|-1], s[|s|-1];
      InsertInTurn(key, time, init, x, inTime);
      var r := Insert(key, init, x);
      InsertPermutes(key, init, x);
      forall i | 0 <= i < |r| ensures Ahead(key, time, r[i], last, inTime) {
        assert r[i] in multiset(r);
        if r[i] != x {
          var k :| 0 <= k < |init| && init[k] == r[i];
          assert Ahead(key, time, s[k], s[|s|-1], inTime);
        }
      }
    } else {
      forall i | 0 <= i < |s| ensures Ahead(key, time, s[i], x, inTime) {
        assert i < |s| - 1 ==> Ahead(key, time, s[i], s[|s|-1], inTime);
      }
    }
  }

  /** Sorting a list that came in time leaves equals in time. */
  lemma {:induction false} SortInTurn<T>(key: T -> int, time: T -> int, s: seq<T>, inTime: bool)
    requires inTime ==> Rising(time, s)
    ensures InTurn(key, time, Sort(key, s), inTime)
  {
    if s != [] {
      var init, x := s[..|s|-1], s[|s|-1];
      SortInTurn(key, time, init, inTime);
      SortIsStable(key, init, 0);
      var sorted := Sort(key, init);
      forall i | inTime && 0 <= i < |sorted| ensures time(sorted[i]) < time(x) {
        assert sorted[i] in multiset(sorted) && sorted[i] in init;
        var k :| 0 <= k < |init| && init[k] == sorted[i];
        assert time(s[k]) < time(s[|s|-1]);
      }
      InsertInTurn(key, time, sorted, x, inTime);
    }
  }

  /** Moving x one place left past a larger last element. */
  lemma {:induction false} InsertSplit<T>(key: T -> int, s: seq<T>, x: T, j: nat)
    requires j <= |s|
    requires forall i | j <= i < |s| :: key(x) < key(s[i])
    ensures Insert(key, s, x) == Insert(key, s[..j], x) + s[j..]
  {
    if j < |s| {
      var init := s[..|s|-1];
      InsertSplit(key, init, x, j);
      assert init[..j] == s[..j] && init[j..] + [s[|s|-1]] == s[j..];
    } else {
      assert s[..j] == s;
    }
  }

  lemma SortPrefix<T>(key: T -> int, s: seq<T>, i: nat)
    requires i < |s|
    ensures Sort(key, s[..i+1]) == Insert(key, Sort(key, s[..i]), s[i])
    ensures |Sort(key, s[..i+1])| == i + 1
  {
    SortMembers(key, s[..i+1]);
    assert s[..i+1][..i] == s[..i];
  }

  /** Element i moved to place j, past the larger ones, is element i inserted. */
  lemma SunkTo<T>(key: T -> int, was: seq<T>, now: seq<T>, i: nat, j: nat)
    requires j <= i < |was| == |now| && now[j] == was[i]
    requires forall k | 0 <= k < j :: now[k] == was[k]
    requires forall k | j < k <= i :: now[k] == was[k-1]
    requires forall k | i < k < |was| :: now[k] == was[k]
    requires forall k | j <= k < i :: key(was[i]) < key(was[k])
    requires j > 0 ==> key(was[j-1]) <= key(was[i])
    ensures now == Insert(key, was[..i], was[i]) + was[i+1..]
  {
    var before, x := was[..i], was[i];
    InsertSplit(key, before, x, j);
    assert Insert(key, before[..j], x) == before[..j] + [x];
    var inserted := before[..j] + [x] + before[j..];
    assert now[..i+1] == inserted;
    assert now[i+1..] == was[i+1..];
    assert now == now[..i+1] + now[i+1..];
  }

  /** The inner loop: element i sinks while its key is below its left
      neighbour's. */
  method Sink<T>(a: array<T>, i: nat, key: T -> int)
    requires i < a.Length
    modifies a
    ensures a[..] == Insert(key, old(a[..i]), old(a[i])) + old(a[i+1..])
  {
    ghost var was, x := a[..], a[i];
    var j := i;
    while j > 0 && key(a[j]) < key(a[j-1])
      invariant 0 <= j <= i && a[j] == x
      invariant forall k | 0 <= k < j :: a[k] == was[k]
      invariant forall k | j < k <= i :: a[k] == was[k-1]
      invariant forall k | i < k < a.Length :: a[k] == was[k]
      invariant forall k | j <= k < i :: key(x) < key(was[k])
    {
      a[j], a[j-1] := a[j-1], a[j];
      j := j - 1;
    }
    SunkTo(key, was, a[..], i, j);
  }

  /** The in-place sort: the outer loop sorts one more element at a time. */
  method InsertionSort<T>(a: array<T>, key: T -> int)
    modifies a
    ensures a[..] == Sort(key, old(a[..]))
  {
    ghost var was := a[..];
    for i := 0 to a.Length
      invariant a[..i] == Sort(key, was[..i]) && a[i..] == was[i..]
    {
      assert a[i] == was[i..][0] && a[i+1..] == was[i..][1..];
      SortPrefix(key, was, i);
      Sink(a, i, key);
    }
    assert was[..a.Length] == was;
  }
}
