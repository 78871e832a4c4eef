/** Python's stable `sorted`, as insertion in order of arrival, and what callers rely on:
    the result is sorted, is a permutation, keeps equal elements in their order, and is
    the only sorted arrangement when the order separates distinct elements. */
module Ordering {
  ghost predicate TotalPreorder<T(!new)>(leq: (T, T) -> bool) {
    && (forall x, y :: leq(x, y) || leq(y, x))
    && (forall x, y, z :: leq(x, y) && leq(y, z) ==> leq(x, z))
  }

  ghost predicate Antisymmetric<T(!new)>(leq: (T, T) -> bool) {
    forall x, y :: leq(x, y) && leq(y, x) ==> x == y
  }

  ghost predicate SortedBy<T>(s: seq<T>, leq: (T, T) -> bool) {
    forall i, j :: 0 <= i < j < |s| ==> leq(s[i], s[j])
  }

  /** `s` with `x` placed after every element that may precede it. */
  function Insert<T>(s: seq<T>, x: T, leq: (T, T) -> bool): seq<T> {
    if s == [] then [x]
    else
      var last := |s| - 1;
      if leq(s[last], x) then s + [x] else Insert(s[..last], x, leq) + [s[last]]
  }

  function Sort<T>(s: seq<T>, leq: (T, T) -> bool): seq<T> {
    if s == [] then [] else Insert(Sort(s[..|s| - 1], leq), s[|s| - 1], leq)
  }

  lemma {:induction false} InsertContents<T>(s: seq<T>, x: T, leq: (T, T) -> bool)
    ensures multiset(Insert(s, x, leq)) == multiset(s) + multiset{x}
    ensures |Insert(s, x, leq)| == |s| + 1
  {
    if s != [] {
      var last := |s| - 1;
      assert s == s[..last] + [s[last]];
      InsertContents(s[..last], x, leq);
    }
  }

  lemma {:induction false} InsertSorted<T(!new)>(s: seq<T>, x: T, leq: (T, T) -> bool)
    requires TotalPreorder(leq) && SortedBy(s, leq)
    ensures SortedBy(Insert(s, x, leq), leq)
  {
    if s != [] {
      var last := |s| - 1;
      if leq(s[last], x) {
      } else {
        InsertSorted(s[..last], x, leq);
        InsertContents(s[..last], x, leq);
        var r := Insert(s[..last], x, leq);
        forall i | 0 <= i < |r| ensures leq(r[i], s[last]) {
          assert r[i] in multiset(r);
          assert r[i] == x || r[i] in s[..last];
        }
      }
    }
  }

  lemma {:induction false} SortContents<T>(s: seq<T>, leq: (T, T) -> bool)
    ensures multiset(Sort(s, leq)) == multiset(s)
    ensures |Sort(s, leq)| == |s|
  {
    if s != [] {
      var last := |s| - 1;
      assert s == s[..last] + [s[last]];
      SortContents(s[..last], leq);
      InsertContents(Sort(s[..last], leq), s[last], leq);
    }
  }

  lemma {:induction false} SortSorted<T(!new)>(s: seq<T>, leq: (T, T) -> bool)
    requires TotalPreorder(leq)
    ensures SortedBy(Sort(s, leq), leq)
  {
    if s != [] {
      SortSorted(s[..|s| - 1], leq);
      InsertSorted(Sort(s[..|s| - 1], leq), s[|s| - 1], leq);
    }
  }

  lemma SortMembers<T>(s: seq<T>, leq: (T, T) -> bool, x: T)
    ensures x in Sort(s, leq) <==> x in s
  {
    SortContents(s, leq);
    assert x in Sort(s, leq) <==> x in multiset(Sort(s, leq));
    assert x in s <==> x in multiset(s);
  }

  /** The elements of `s` that compare equal to `z`, in order. */
  function EqualTo<T>(s: seq<T>, z: T, leq: (T, T) -> bool): seq<T> {
    if s == [] then []
    else
      var last := |s| - 1;
      EqualTo(s[..last], z, leq) + (if leq(s[last], z) && leq(z, s[last]) then [s[last]] else [])
  }

  lemma {:induction false} InsertStable<T(!new)>(s: seq<T>, x: T, z: T, leq: (T, T) -> bool)
    requires TotalPreorder(leq)
    ensures EqualTo(Insert(s, x, leq), z, leq) == EqualTo(s + [x], z, leq)
  {
    assert (s + [x])[..|s|] == s;
    if s != [] {
      var last := |s| - 1;
      if leq(s[last], x) {
      } else {
        InsertStable(s[..last], x, z, leq);
        var r := Insert(s[..last], x, leq);
        assert (r + [s[last]])[..|r|] == r;
        assert (s[..last] + [x])[..last] == s[..last];
      }
    }
  }

  lemma {:induction false} EqualToAppend<T>(s: seq<T>, x: T, z: T, leq: (T, T) -> bool)
    ensures EqualTo(s + [x], z, leq) == EqualTo(s, z, leq) + (if leq(x, z) && leq(z, x) then [x] else [])
  {
    assert (s + [x])[..|s|] == s;
  }

  /** Sorting keeps every class of equal elements in its original order. */
  lemma {:induction false} SortStable<T(!new)>(s: seq<T>, z: T, leq: (T, T) -> bool)
    requires TotalPreorder(leq)
    ensures EqualTo(Sort(s, leq), z, leq) == EqualTo(s, z, leq)
  {
    hide Insert, EqualTo, TotalPreorder;
    if s != [] {
      var last := |s| - 1;
      var r := Sort(s[..last], leq);
      SortStable(s[..last], z, leq);
      InsertStable(r, s[last], z, leq);
      EqualToAppend(r, s[last], z, leq);
      EqualToAppend(s[..last], s[last], z, leq);
      assert s == s[..last] + [s[last]];
    }
  }

  lemma HeadLeast<T(!new)>(a: seq<T>, x: T, leq: (T, T) -> bool)
    requires TotalPreorder(leq) && SortedBy(a, leq) && x in a
    ensures leq(a[0], x)
  {
    var i :| 0 <= i < |a| && a[i] == x;
    assert leq(a[0], a[0]);
  }

  lemma SameHead<T(!new)>(a: seq<T>, b: seq<T>, leq: (T, T) -> bool)
    requires TotalPreorder(leq) && Antisymmetric(leq)
    requires SortedBy(a, leq) && SortedBy(b, leq) && multiset(a) == multiset(b) && a != [] && b != []
    ensures a[0] == b[0]
  {
    assert a[0] in multiset(b);
    assert b[0] in multiset(a);
    HeadLeast(a, b[0], leq);
    HeadLeast(b, a[0], leq);
  }

  lemma SortedTail<T(!new)>(a: seq<T>, leq: (T, T) -> bool)
    requires SortedBy(a, leq) && a != []
    ensures SortedBy(a[1..], leq)
  {
  }

  lemma TailContents<T>(a: seq<T>)
    requires a != []
    ensures multiset(a[1..]) == multiset(a) - multiset{a[0]}
  {
    assert a == [a[0]] + a[1..];
  }

  lemma NoContents<T>(a: seq<T>, b: seq<T>)
    requires multiset(a) == multiset(b)
    ensures |a| == |b|
  {
    assert |a| == |multiset(a)| == |multiset(b)| == |b|;
  }

  lemma SameHeadAndTail<T>(a: seq<T>, b: seq<T>)
    requires a != [] && b != [] && a[0] == b[0] && a[1..] == b[1..]
    ensures a == b
  {
    assert a == [a[0]] + a[1..] && b == [b[0]] + b[1..];
  }

  /** Under an order that separates distinct elements, a sorted arrangement is unique. */
  lemma {:induction false} SortedUnique<T(!new)>(a: seq<T>, b: seq<T>, leq: (T, T) -> bool)
    requires TotalPreorder(leq) && Antisymmetric(leq)
    requires SortedBy(a, leq) && SortedBy(b, leq) && multiset(a) == multiset(b)
    ensures a == b
  {
    hide *;
    NoContents(a, b);
    if a != [] {
      SameHead(a, b, leq);
      SortedTail(a, leq);
      SortedTail(b, leq);
      TailContents(a);
      TailContents(b);
      SortedUnique(a[1..], b[1..], leq);
      SameHeadAndTail(a, b);
    }
  }

  /** Sorting therefore depends on the contents alone. */
  lemma SortOfPermutation<T(!new)>(a: seq<T>, b: seq<T>, leq: (T, T) -> bool)
    requires TotalPreorder(leq) && Antisymmetric(leq) && multiset(a) == multiset(b)
    ensures Sort(a, leq) == Sort(b, leq)
  {
    SortSorted(a, leq);
    SortSorted(b, leq);
    SortContents(a, leq);
    SortContents(b, leq);
    SortedUnique(Sort(a, leq), Sort(b, leq), leq);
  }

  /** Lexicographic order on sequences of integers: Python's order on `str` and `bytes`. */
  predicate LexLess(a: seq<int>, b: seq<int>) {
    b != [] && (a == [] || a[0] < b[0] || (a[0] == b[0] && LexLess(a[1..], b[1..])))
  }

  lemma {:induction false} LexCommonPrefix(p: seq<int>, a: seq<int>, b: seq<int>)
    ensures LexLess(p + a, p + b) <==> LexLess(a, b)
  {
    if p == [] {
      assert p + a == a && p + b == b;
    } else {
      LexCommonPrefix(p[1..], a, b);
      assert (p + a)[1..] == p[1..] + a && (p + b)[1..] == p[1..] + b;
    }
  }

  lemma LexAtDifference(a: seq<int>, b: seq<int>, k: nat)
    requires k < |a| && k < |b| && a[..k] == b[..k] && a[k] < b[k]
    ensures LexLess(a, b) && !LexLess(b, a)
  {
    LexCommonPrefix(a[..k], a[k..], b[k..]);
    LexCommonPrefix(a[..k], b[k..], a[k..]);
    assert a == a[..k] + a[k..] && b == a[..k] + b[k..];
  }

  /** The non-strict form that `sorted` compares with. */
  predicate LexLeq(a: seq<int>, b: seq<int>) {
    a == b || LexLess(a, b)
  }

  lemma {:induction false} LexTotal(a: seq<int>, b: seq<int>)
    ensures a == b || LexLess(a, b) || LexLess(b, a)
    ensures !(LexLess(a, b) && LexLess(b, a))
    ensures !LexLess(a, a)
  {
    if a != [] {
      LexTotal(a[1..], a[1..]);
    }
    if a != [] && b != [] {
      LexTotal(a[1..], b[1..]);
    }
  }

  lemma {:induction false} LexTransitive(a: seq<int>, b: seq<int>, c: seq<int>)
    requires LexLess(a, b) && LexLess(b, c)
    ensures LexLess(a, c)
  {
    if a != [] && a[0] == b[0] == c[0] {
      LexTransitive(a[1..], b[1..], c[1..]);
    }
  }

  lemma LexOrder()
    ensures TotalPreorder(LexLeq) && Antisymmetric(LexLeq)
  {
    forall a, b ensures LexLeq(a, b) || LexLeq(b, a) {
      LexTotal(a, b);
    }
    forall a, b | LexLeq(a, b) && LexLeq(b, a) ensures a == b {
      LexTotal(a, b);
    }
    forall a, b, c | LexLeq(a, b) && LexLeq(b, c) ensures LexLeq(a, c) {
      if a != b && b != c {
        LexTransitive(a, b, c);
      }
    }
  }
}
