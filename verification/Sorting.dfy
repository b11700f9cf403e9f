/**
 `Array.prototype.sort` with a consistent comparator: stable, so equal elements keep their order.
 */
module Sorting {

  ghost predicate Order<T(!new)>(leq: (T, T) -> bool) {
    (forall a, b :: leq(a, b) || leq(b, a)) && (forall a, b, c :: leq(a, b) && leq(b, c) ==> leq(a, c))
  }

  predicate Sorted<T>(leq: (T, T) -> bool, s: seq<T>) {
    forall i, j :: 0 <= i < j < |s| ==> leq(s[i], s[j])
  }

  /** Put `x` after everything not greater than it. */
  function Insert<T>(leq: (T, T) -> bool, s: seq<T>, x: T): seq<T> {
    if s == [] then [x]
    else if leq(s[|s| - 1], x) then s + [x]
    else Insert(leq, s[..|s| - 1], x) + [s[|s| - 1]]
  }

  function Sort<T>(leq: (T, T) -> bool, s: seq<T>): seq<T> {
    if s == [] then [] else Insert(leq, Sort(leq, s[..|s| - 1]), s[|s| - 1])
  }

  lemma {:induction false} InsertKeeps<T>(leq: (T, T) -> bool, s: seq<T>, x: T)
    ensures multiset(Insert(leq, s, x)) == multiset(s) + multiset{x}
    decreases |s|
  {
    if s != [] {
      var head, y := s[..|s| - 1], s[|s| - 1];
      InsertKeeps(leq, head, x);
      assert s == head + [y];
    }
  }

  lemma {:induction false} SortKeeps<T>(leq: (T, T) -> bool, s: seq<T>)
    ensures multiset(Sort(leq, s)) == multiset(s)
    decreases |s|
  {
    hide Insert;
    if s != [] {
      var head, x := s[..|s| - 1], s[|s| - 1];
      SortKeeps(leq, head);
      InsertKeeps(leq, Sort(leq, head), x);
      assert s == head + [x];
    }
  }

  lemma {:induction false} InsertSorts<T(!new)>(leq: (T, T) -> bool, s: seq<T>, x: T)
    requires Order(leq) && Sorted(leq, s)
    ensures Sorted(leq, Insert(leq, s, x))
    decreases |s|
  {
    if s != [] && !leq(s[|s| - 1], x) {
      var n := |s| - 1;
      var head := Insert(leq, s[..n], x);
      InsertSorts(leq, s[..n], x);
      InsertKeeps(leq, s[..n], x);
      forall i | 0 <= i < |head| ensures leq(head[i], s[n]) {
        assert head[i] in multiset(head);
        assert head[i] in s[..n] || head[i] == x;
      }
    }
  }

  /** Sorting gives the same elements in order. */
  lemma {:induction false} SortSorts<T(!new)>(leq: (T, T) -> bool, s: seq<T>)
    requires Order(leq)
    ensures Sorted(leq, Sort(leq, s)) && multiset(Sort(leq, s)) == multiset(s)
    decreases |s|
  {
    SortKeeps(leq, s);
    if s != [] {
      SortSorts(leq, s[..|s| - 1]);
      InsertSorts(leq, Sort(leq, s[..|s| - 1]), s[|s| - 1]);
    }
  }

  /** What is in order already is left as it is. */
  lemma {:induction false} SortOfSorted<T>(leq: (T, T) -> bool, s: seq<T>)
    requires Sorted(leq, s)
    ensures Sort(leq, s) == s
    decreases |s|
  {
    if s != [] {
      SortOfSorted(leq, s[..|s| - 1]);
      assert s == s[..|s| - 1] + [s[|s| - 1]];
    }
  }

  /** The elements equal in the order to `x`, as they stand. */
  function Ties<T>(leq: (T, T) -> bool, s: seq<T>, x: T): seq<T> {
    if s == [] then []
    else
      var n := |s| - 1;
      Ties(leq, s[..n], x) + if leq(s[n], x) && leq(x, s[n]) then [s[n]] else []
  }

  lemma {:induction false} InsertIsStable<T(!new)>(leq: (T, T) -> bool, s: seq<T>, x: T, y: T)
    requires Order(leq)
    ensures Ties(leq, Insert(leq, s, x), y) == Ties(leq, s + [x], y)
    decreases |s|
  {
    assert (s + [x])[..|s|] == s;
    if s != [] && !leq(s[|s| - 1], x) {
      var head, last := s[..|s| - 1], s[|s| - 1];
      InsertIsStable(leq, head, x, y);
      assert (head + [x])[..|head|] == head;
      var inserted := Insert(leq, head, x);
      assert (inserted + [last])[..|inserted|] == inserted;
    }
  }

  /** The sort is stable: elements equal in the order stand as they stood. */
  lemma {:induction false} SortIsStable<T(!new)>(leq: (T, T) -> bool, s: seq<T>, y: T)
    requires Order(leq)
    ensures Ties(leq, Sort(leq, s), y) == Ties(leq, s, y)
    decreases |s|
  {
    hide Insert;
    if s != [] {
      var head, x := s[..|s| - 1], s[|s| - 1];
      SortIsStable(leq, head, y);
      InsertIsStable(leq, Sort(leq, head), x, y);
      assert (Sort(leq, head) + [x])[..|Sort(leq, head)|] == Sort(leq, head);
    }
  }

  /** No two elements are equal in the order. */
  predicate Strict<T>(leq: (T, T) -> bool, s: seq<T>) {
    forall i, j :: 0 <= i < j < |s| ==> leq(s[i], s[j]) && !leq(s[j], s[i])
  }

  lemma LastIsGreatest<T>(leq: (T, T) -> bool, s: seq<T>, x: T)
    requires s != [] && Sorted(leq, s) && x in s
    ensures x == s[|s| - 1] || leq(x, s[|s| - 1])
  {
    var i :| 0 <= i < |s| && s[i] == x;
  }

  lemma SameLast<T>(leq: (T, T) -> bool, s: seq<T>, t: seq<T>)
    requires s != [] && t != [] && Strict(leq, s) && Sorted(leq, t)
    requires t[|t| - 1] in s && s[|s| - 1] in t
    ensures s[|s| - 1] == t[|t| - 1]
  {
    LastIsGreatest(leq, t, s[|s| - 1]);
    var i :| 0 <= i < |s| && s[i] == t[|t| - 1];
  }

  lemma WithoutLast<T>(s: seq<T>)
    requires s != []
    ensures multiset(s[..|s| - 1]) == multiset(s) - multiset{s[|s| - 1]}
    ensures s == s[..|s| - 1] + [s[|s| - 1]] && s[|s| - 1] in multiset(s)
  {
    assert s == s[..|s| - 1] + [s[|s| - 1]];
  }

  lemma OrderOfPrefix<T>(leq: (T, T) -> bool, s: seq<T>)
    requires s != []
    ensures Strict(leq, s) ==> Strict(leq, s[..|s| - 1])
    ensures Sorted(leq, s) ==> Sorted(leq, s[..|s| - 1])
  {
  }

  lemma SameElements<T>(s: seq<T>, t: seq<T>)
    requires multiset(s) == multiset(t)
    ensures |s| == |t| && forall x :: x in s ==> x in t
  {
    assert |s| == |multiset(s)| == |multiset(t)| == |t|;
    forall x | x in s ensures x in t { assert x in multiset(s); }
  }

  /** A list with no two equal elements has one sorted arrangement. */
  lemma {:induction false} SortedIsUnique<T>(leq: (T, T) -> bool, s: seq<T>, t: seq<T>)
    requires Strict(leq, s) && Sorted(leq, t) && multiset(s) == multiset(t)
    ensures s == t
    decreases |s|
  {
    hide Strict, Sorted;
    SameElements(s, t);
    SameElements(t, s);
    if s != [] {
      SameLast(leq, s, t);
      WithoutLast(s);
      WithoutLast(t);
      OrderOfPrefix(leq, s);
      OrderOfPrefix(leq, t);
      SortedIsUnique(leq, s[..|s| - 1], t[..|t| - 1]);
    }
  }
}
