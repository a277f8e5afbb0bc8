/**
  Sorting distinct elements by a strict order, the way Python's stable
  `sorted` lists them when the order already breaks ties by first
  occurrence: `Counter.most_common` and the numbered-citation listing both
  sort that way.
*/
module Ranking {

  /** `r` is in `before` order: every element goes before every later one. */
  predicate SortedBy<T>(before: (T, T) -> bool, r: seq<T>)
  {
    forall i, j :: 0 <= i < j < |r| ==> before(r[i], r[j])
  }

  /** `before` orders any two different elements of `xs`, and does so transitively. */
  predicate StrictTotalOn<T(==)>(before: (T, T) -> bool, xs: seq<T>)
  {
    && (forall a, b :: a in xs && b in xs && a != b ==> before(a, b) || before(b, a))
    && (forall a, b, c :: a in xs && b in xs && c in xs && before(a, b) && before(b, c) ==> before(a, c))
  }

  /** The index of the first occurrence of `a` in `xs`, or `|xs|` when there is none. */
  function FirstPos<T(==, !new)>(xs: seq<T>, a: T): (p: nat)
    ensures p <= |xs| && (p < |xs| <==> a in xs)
    ensures p < |xs| ==> xs[p] == a
    ensures forall j :: 0 <= j < p ==> xs[j] != a
  {
    if xs == [] then 0
    else if xs[0] == a then 0
    else 1 + FirstPos(xs[1..], a)
  }

  /** The distinct elements of `xs`, in the order of their first occurrence (the key order of a `Counter` or of a dictionary filled in that order). */
  function Distinct<T(==, !new)>(xs: seq<T>): (d: seq<T>)
    ensures forall a :: a in d <==> a in xs
    ensures forall i, j :: 0 <= i < j < |d| ==> d[i] != d[j]
  {
    if xs == [] then []
    else
      var d0 := Distinct(xs[..|xs| - 1]);
      assert forall a :: a in xs <==> a in xs[..|xs| - 1] || a == xs[|xs| - 1];
      if xs[|xs| - 1] in d0 then d0 else d0 + [xs[|xs| - 1]]
  }

  /** `t` placed before the first element it goes before. */
  function Insert<T>(before: (T, T) -> bool, t: T, s: seq<T>): seq<T>
  {
    if s == [] then [t]
    else if before(t, s[0]) then [t] + s
    else [s[0]] + Insert(before, t, s[1..])
  }

  /** The elements `ds` in `before` order (insertion sort). */
  function SortBy<T>(before: (T, T) -> bool, ds: seq<T>): seq<T>
  {
    if ds == [] then [] else Insert(before, ds[0], SortBy(before, ds[1..]))
  }

  lemma SortedTail<T>(before: (T, T) -> bool, s: seq<T>)
    requires s != [] && SortedBy(before, s)
    ensures SortedBy(before, s[1..])
  {
    var s1 := s[1..];
    forall i, j | 0 <= i < j < |s1| ensures before(s1[i], s1[j]) {
      assert s1[i] == s[i + 1] && s1[j] == s[j + 1];
    }
  }

  lemma SortedCons<T>(before: (T, T) -> bool, a: T, s: seq<T>)
    requires SortedBy(before, s) && forall j :: 0 <= j < |s| ==> before(a, s[j])
    ensures SortedBy(before, [a] + s)
  {
    var r := [a] + s;
    forall i, j | 0 <= i < j < |r| ensures before(r[i], r[j]) {
      assert r[j] == s[j - 1];
      if i > 0 {
        assert r[i] == s[i - 1];
      }
    }
  }

  /** Inserting a new element into a sorted sequence keeps it sorted and adds just that element. */
  lemma {:induction false} InsertSorted<T>(before: (T, T) -> bool, xs: seq<T>, t: T, s: seq<T>)
    requires StrictTotalOn(before, xs)
    requires SortedBy(before, s) && t in xs && t !in s && forall u :: u in s ==> u in xs
    ensures multiset(Insert(before, t, s)) == multiset(s) + multiset{t}
    ensures SortedBy(before, Insert(before, t, s))
  {
    if s != [] && !before(t, s[0]) {
      var s1 := s[1..];
      assert s == [s[0]] + s1;
      SortedTail(before, s);
      InsertSorted(before, xs, t, s1);
      assert s[0] in xs;
      var r1 := Insert(before, t, s1);
      forall j | 0 <= j < |r1| ensures before(s[0], r1[j]) {
        assert r1[j] in multiset(r1);
        if r1[j] != t {
          assert r1[j] in multiset(s1);
          var k :| 0 <= k < |s1| && s1[k] == r1[j];
          assert s1[k] == s[k + 1];
        }
      }
      SortedCons(before, s[0], r1);
    } else if s != [] {
      forall j | 0 <= j < |s| ensures before(t, s[j]) {
        if j > 0 {
          assert before(s[0], s[j]) && s[0] in xs && s[j] in xs;
        }
      }
      SortedCons(before, t, s);
    }
  }

  /** Sorting distinct elements gives the same elements, in `before` order. */
  lemma {:induction false} SortBySorted<T>(before: (T, T) -> bool, xs: seq<T>, ds: seq<T>)
    requires StrictTotalOn(before, xs)
    requires forall i, j :: 0 <= i < j < |ds| ==> ds[i] != ds[j]
    requires forall a :: a in ds ==> a in xs
    ensures multiset(SortBy(before, ds)) == multiset(ds)
    ensures SortedBy(before, SortBy(before, ds))
  {
    if ds != [] {
      var ds1 := ds[1..];
      assert ds == [ds[0]] + ds1;
      forall i, j | 0 <= i < j < |ds1| ensures ds1[i] != ds1[j] {
        assert ds1[i] == ds[i + 1] && ds1[j] == ds[j + 1];
      }
      SortBySorted(before, xs, ds1);
      var r1 := SortBy(before, ds1);
      forall k | 0 <= k < |ds1| ensures ds1[k] != ds[0] {
        assert ds1[k] == ds[k + 1];
      }
      assert ds[0] !in multiset(ds1);
      forall u | u in r1 ensures u in xs {
        assert u in multiset(ds1);
      }
      InsertSorted(before, xs, ds[0], r1);
    }
  }
}
