/** Stable sorting by a comparator, and small facts about sequences.

    `SortBy` stands for the standard library's stable `sort_by`; callers give the
    comparator as "left may stand before right". */
module Ordering {

  ghost predicate TotalPreorder<T(!new)>(leq: (T, T) -> bool) {
    && (forall x, y :: leq(x, y) || leq(y, x))
    && (forall x, y, z :: leq(x, y) && leq(y, z) ==> leq(x, z))
  }

  ghost predicate SortedBy<T>(s: seq<T>, leq: (T, T) -> bool) {
    forall i, j :: 0 <= i < j < |s| ==> leq(s[i], s[j])
  }

  function Insert<T>(x: T, s: seq<T>, leq: (T, T) -> bool): seq<T> {
    if s == [] || leq(x, s[0]) then [x] + s else [s[0]] + Insert(x, s[1..], leq)
  }

  function SortBy<T>(s: seq<T>, leq: (T, T) -> bool): seq<T> {
    if s == [] then [] else Insert(s[0], SortBy(s[1..], leq), leq)
  }

  lemma {:induction false} InsertPermutes<T>(x: T, s: seq<T>, leq: (T, T) -> bool)
    ensures multiset(Insert(x, s, leq)) == multiset{x} + multiset(s)
  {
    if s == [] || leq(x, s[0]) {
    } else {
      InsertPermutes(x, s[1..], leq);
      assert s == [s[0]] + s[1..];
    }
  }

  lemma {:induction false} SortByPermutes<T>(s: seq<T>, leq: (T, T) -> bool)
    ensures multiset(SortBy(s, leq)) == multiset(s)
    ensures |SortBy(s, leq)| == |s|
  {
    if s == [] {
    } else {
      SortByPermutes(s[1..], leq);
      InsertPermutes(s[0], SortBy(s[1..], leq), leq);
      assert s == [s[0]] + s[1..];
    }
    assert |multiset(SortBy(s, leq))| == |multiset(s)|;
  }

  /** `leq` orders the elements of `s`; it may misbehave elsewhere. */
  ghost predicate PreorderOn<T>(s: seq<T>, leq: (T, T) -> bool) {
    && (forall x, y :: x in s && y in s ==> leq(x, y) || leq(y, x))
    && (forall x, y, z :: x in s && y in s && z in s && leq(x, y) && leq(y, z) ==> leq(x, z))
  }

  lemma {:induction false} InsertSorted<T>(x: T, s: seq<T>, leq: (T, T) -> bool)
    requires PreorderOn([x] + s, leq) && SortedBy(s, leq)
    ensures SortedBy(Insert(x, s, leq), leq)
  {
    if s == [] {
    } else if leq(x, s[0]) {
      forall j | 0 <= j < |s| ensures leq(x, s[j]) {
        assert s[0] in [x] + s && s[j] in [x] + s && x in [x] + s;
      }
    } else {
      var rest := Insert(x, s[1..], leq);
      assert forall y :: y in [x] + s[1..] ==> y in [x] + s;
      InsertSorted(x, s[1..], leq);
      InsertPermutes(x, s[1..], leq);
      forall j | 0 <= j < |rest| ensures leq(s[0], rest[j]) {
        assert rest[j] in multiset(rest);
        assert x in [x] + s && s[0] in [x] + s;
        if rest[j] != x {
          assert rest[j] in s[1..];
        }
      }
    }
  }

  /** The result of a sort is sorted and is a permutation of its input. */
  lemma {:induction false} SortBySortedOn<T>(s: seq<T>, leq: (T, T) -> bool)
    requires PreorderOn(s, leq)
    ensures SortedBy(SortBy(s, leq), leq)
    ensures multiset(SortBy(s, leq)) == multiset(s)
  {
    hide Insert;
    SortByPermutes(s, leq);
    if s != [] {
      var rest := SortBy(s[1..], leq);
      forall y | y in s[1..] ensures y in s { }
      SortBySortedOn(s[1..], leq);
      forall y | y in [s[0]] + rest ensures y in s {
        if y == s[0] {
          assert s[0] in s;
        } else {
          assert y in rest;
          assert y in multiset(rest);
          assert y in multiset(s[1..]);
          assert y in s[1..];
        }
      }
      InsertSorted(s[0], rest, leq);
    }
  }

  lemma SortBySorted<T(!new)>(s: seq<T>, leq: (T, T) -> bool)
    requires TotalPreorder(leq)
    ensures SortedBy(SortBy(s, leq), leq)
    ensures multiset(SortBy(s, leq)) == multiset(s)
  {
    SortBySortedOn(s, leq);
  }

  lemma SameElements<T>(a: seq<T>, b: seq<T>)
    requires multiset(a) == multiset(b)
    ensures |a| == |b|
    ensures forall x :: x in a <==> x in b
  {
    assert |multiset(a)| == |multiset(b)|;
    forall x ensures x in a <==> x in b {
      assert x in a <==> x in multiset(a);
      assert x in b <==> x in multiset(b);
    }
  }

  /** Sequences without repetition. */
  ghost predicate Distinct<T>(s: seq<T>) {
    forall i, j :: 0 <= i < j < |s| ==> s[i] != s[j]
  }

  lemma {:induction false} DistinctMultiplicity<T>(s: seq<T>, x: T)
    requires Distinct(s)
    ensures multiset(s)[x] <= 1
  {
    if s == [] {
    } else {
      assert s == [s[0]] + s[1..];
      DistinctMultiplicity(s[1..], x);
      if s[0] == x {
        assert x !in s[1..];
      }
    }
  }

  lemma {:induction false} MultiplicityDistinct<T>(s: seq<T>)
    requires forall x :: multiset(s)[x] <= 1
    ensures Distinct(s)
  {
    forall i, j | 0 <= i < j < |s| ensures s[i] != s[j] {
      assert s == s[..j] + s[j..];
      assert s[i] in multiset(s[..j]) by { assert s[i] == s[..j][i]; }
      assert s[j] in multiset(s[j..]) by { assert s[j] == s[j..][0]; }
      assert multiset(s) == multiset(s[..j]) + multiset(s[j..]);
      assert multiset(s)[s[i]] <= 1;
    }
  }

  lemma DistinctPermutation<T>(a: seq<T>, b: seq<T>)
    requires Distinct(a) && multiset(a) == multiset(b)
    ensures Distinct(b)
  {
    forall x ensures multiset(b)[x] <= 1 { DistinctMultiplicity(a, x); }
    MultiplicityDistinct(b);
  }

  /** Elements of `s` that satisfy `keep`, in order. */
  function Filter<T>(s: seq<T>, keep: T -> bool): (r: seq<T>)
    ensures |r| <= |s|
  {
    if s == [] then []
    else if keep(s[0]) then [s[0]] + Filter(s[1..], keep)
    else Filter(s[1..], keep)
  }

  lemma {:induction false} FilterMembers<T>(s: seq<T>, keep: T -> bool)
    ensures forall i :: 0 <= i < |Filter(s, keep)| ==> keep(Filter(s, keep)[i]) && Filter(s, keep)[i] in s
    ensures forall i :: 0 <= i < |s| && keep(s[i]) ==> s[i] in Filter(s, keep)
  {
    if s != [] {
      FilterMembers(s[1..], keep);
      assert s == [s[0]] + s[1..];
    }
  }

  lemma {:induction false} FilterAppend<T>(a: seq<T>, b: seq<T>, keep: T -> bool)
    ensures Filter(a + b, keep) == Filter(a, keep) + Filter(b, keep)
  {
    if a == [] {
      assert a + b == b;
    } else {
      var ab := a + b;
      assert ab[0] == a[0] && ab[1..] == a[1..] + b;
      FilterAppend(a[1..], b, keep);
      var x, y := Filter(a[1..], keep), Filter(b, keep);
      assert Filter(ab, keep) == if keep(a[0]) then [a[0]] + (x + y) else x + y;
      assert [a[0]] + (x + y) == [a[0]] + x + y;
    }
  }

  function Sum(s: seq<nat>): nat {
    if s == [] then 0 else s[0] + Sum(s[1..])
  }

  lemma {:induction false} SumAppend(a: seq<nat>, b: seq<nat>)
    ensures Sum(a + b) == Sum(a) + Sum(b)
  {
    if a == [] {
      assert a + b == b;
    } else {
      assert (a + b)[1..] == a[1..] + b;
      SumAppend(a[1..], b);
    }
  }

  lemma {:induction false} SumPermutation(a: seq<nat>, b: seq<nat>)
    requires multiset(a) == multiset(b)
    ensures Sum(a) == Sum(b)
  {
    if a == [] {
      assert |multiset(b)| == 0;
    } else {
      var j := PositionInPermutation(a, b);
      SumPermutation(a[1..], b[..j] + b[j + 1..]);
      assert b == b[..j] + ([a[0]] + b[j + 1..]);
      SumAppend(b[..j], [a[0]] + b[j + 1..]);
      SumAppend(b[..j], b[j + 1..]);
    }
  }

  /** Where the first element of `a` stands in a permutation `b`; dropping it from both leaves
      permutations. */
  lemma PositionInPermutation<T>(a: seq<T>, b: seq<T>) returns (j: nat)
    requires a != [] && multiset(a) == multiset(b)
    ensures j < |b| && b[j] == a[0]
    ensures multiset(a[1..]) == multiset(b[..j] + b[j + 1..])
  {
    assert a[0] in multiset(b);
    j :| 0 <= j < |b| && b[j] == a[0];
    assert b == b[..j] + [a[0]] + b[j + 1..];
    MultisetTail(a);
  }

  /** `s` lists a set in order, as iteration over an ordered set or map does. */
  ghost predicate Enumerates<T(!new)>(s: seq<T>, all: set<T>, leq: (T, T) -> bool) {
    SortedBy(s, leq) && Distinct(s) && forall x :: x in s <==> x in all
  }

  lemma InsertEnumerates<T(!new)>(x: T, s: seq<T>, all: set<T>, leq: (T, T) -> bool)
    requires TotalPreorder(leq) && Enumerates(s, all, leq) && x !in all
    ensures Enumerates(Insert(x, s, leq), all + {x}, leq)
  {
    hide Insert;
    InsertSorted(x, s, leq);
    InsertPermutes(x, s, leq);
    var more := Insert(x, s, leq);
    assert multiset([x] + s) == multiset(more);
    SameElements([x] + s, more);
    DistinctPermutation([x] + s, more);
  }

  lemma SubsetSize<T>(a: set<T>, b: set<T>)
    requires a <= b
    ensures |a| <= |b|
  {
    assert b == a + (b - a);
  }

  function Take<T>(s: seq<T>, n: nat): (r: seq<T>)
    ensures r <= s && |r| == if n <= |s| then n else |s|
  {
    if n <= |s| then s[..n] else s
  }

  function Map<A, B>(f: A -> B, s: seq<A>): (r: seq<B>)
    ensures |r| == |s|
    ensures forall i :: 0 <= i < |s| ==> r[i] == f(s[i])
  {
    seq(|s|, i requires 0 <= i < |s| => f(s[i]))
  }

  lemma {:induction false} MapPermutation<A, B>(f: A -> B, a: seq<A>, b: seq<A>)
    requires multiset(a) == multiset(b)
    ensures multiset(Map(f, a)) == multiset(Map(f, b))
  {
    if a == [] {
      assert |multiset(b)| == 0;
    } else {
      var j := PositionInPermutation(a, b);
      var rest := b[..j] + b[j + 1..];
      MapPermutation(f, a[1..], rest);
      assert Map(f, a) == [f(a[0])] + Map(f, a[1..]);
      assert Map(f, rest) == Map(f, b[..j]) + Map(f, b[j + 1..]);
      assert Map(f, b) == Map(f, b[..j]) + [f(a[0])] + Map(f, b[j + 1..]);
    }
  }

  lemma {:induction false} FilterAll<T>(s: seq<T>, keep: T -> bool)
    requires forall i :: 0 <= i < |s| ==> keep(s[i])
    ensures Filter(s, keep) == s
  {
    if s != [] {
      FilterAll(s[1..], keep);
    }
  }

  lemma FilterHead<T>(s: seq<T>, keep: T -> bool)
    requires s != []
    ensures Filter(s, keep) == (if keep(s[0]) then [s[0]] else []) + Filter(s[1..], keep)
  {
  }

  lemma FilterCut<T>(s: seq<T>, j: nat, keep: T -> bool)
    requires j < |s|
    ensures Filter(s, keep)
            == Filter(s[..j], keep) + ((if keep(s[j]) then [s[j]] else []) + Filter(s[j + 1..], keep))
  {
    hide Filter;
    var tail := s[j..];
    assert s == s[..j] + tail by { assert s[..j] + s[j..] == s; }
    FilterAppend(s[..j], tail, keep);
    FilterHead(tail, keep);
    assert tail[1..] == s[j + 1..];
  }

  lemma {:induction false} FilterPermutation<T>(keep: T -> bool, a: seq<T>, b: seq<T>)
    requires multiset(a) == multiset(b)
    ensures multiset(Filter(a, keep)) == multiset(Filter(b, keep))
  {
    if a == [] {
      assert |multiset(b)| == 0;
    } else {
      var j := PositionInPermutation(a, b);
      FilterPermutation(keep, a[1..], b[..j] + b[j + 1..]);
      FilterAppend(b[..j], b[j + 1..], keep);
      FilterCut(b, j, keep);
      FilterHead(a, keep);
    }
  }

  /** A sorted arrangement is unique when only equal elements tie. */
  lemma {:induction false} SortedUnique<T>(a: seq<T>, b: seq<T>, leq: (T, T) -> bool)
    requires SortedBy(a, leq) && SortedBy(b, leq) && multiset(a) == multiset(b)
    requires forall x, y :: x in a && y in a && leq(x, y) && leq(y, x) ==> x == y
    ensures a == b
  {
    SameElements(a, b);
    if a != [] {
      SameHead(a, b, leq);
      MultisetTail(a);
      MultisetTail(b);
      SortedUnique(a[1..], b[1..], leq);
    }
  }

  lemma MultisetTail<T>(s: seq<T>)
    requires s != []
    ensures multiset(s[1..]) == multiset(s) - multiset{s[0]}
  {
    assert s == [s[0]] + s[1..];
  }

  lemma SameHead<T>(a: seq<T>, b: seq<T>, leq: (T, T) -> bool)
    requires SortedBy(a, leq) && SortedBy(b, leq) && a != [] && b != []
    requires forall x :: x in a <==> x in b
    requires forall x, y :: x in a && y in a && leq(x, y) && leq(y, x) ==> x == y
    ensures a[0] == b[0]
  {
    assert b[0] in b && a[0] in a;
    assert b[0] in a && a[0] in b;
    var i :| 0 <= i < |a| && a[i] == b[0];
    var j :| 0 <= j < |b| && b[j] == a[0];
    if i != 0 && j != 0 {
      assert leq(a[0], a[i]) && leq(b[0], b[j]);
    }
  }
}
