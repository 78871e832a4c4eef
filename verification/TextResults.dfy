/** Which records the text commands print, and in which direction. */
module TextResults {
  import opened Basics
  import opened Utf8
  import opened Ordering
  import opened TextCommands

  // ---------------------------------------------------------------- head and tail

  /** `head` takes the first records and `tail` the last ones, as many as asked for or all. */
  lemma SelectedExactly(text: Text, count: nat, fromEnd: bool)
    ensures var all, taken := Records(text), Selected(text, count, fromEnd);
      && |taken| == (if count <= |all| then count else |all|)
      && (!fromEnd ==> forall i :: 0 <= i < |taken| ==> taken[i] == all[i])
      && (fromEnd ==> forall i :: 0 <= i < |taken| ==> taken[i] == all[|all| - |taken| + i])
  {
    hide Records;
  }

  // ---------------------------------------------------------------- the direction of sort

  /** The texts agree before `k`, and there `a` ends or has the smaller code point. */
  predicate FirstApart(a: seq<int>, b: seq<int>, k: nat) {
    k <= |a| && k < |b| && a[..k] == b[..k] && (k < |a| ==> a[k] < b[k])
  }

  ghost predicate ComesBefore(a: seq<int>, b: seq<int>) {
    exists k: nat :: FirstApart(a, b, k)
  }

  lemma {:induction false} FindsApart(a: seq<int>, b: seq<int>)
    requires LexLess(a, b)
    ensures ComesBefore(a, b)
  {
    if a != [] && a[0] == b[0] {
      FindsApart(a[1..], b[1..]);
      var k: nat :| FirstApart(a[1..], b[1..], k);
      assert a[..k + 1] == [a[0]] + a[1..][..k] && b[..k + 1] == [b[0]] + b[1..][..k];
      assert FirstApart(a, b, k + 1);
    } else {
      assert FirstApart(a, b, 0);
    }
  }

  lemma LexLessExactly(a: seq<int>, b: seq<int>)
    ensures LexLess(a, b) <==> ComesBefore(a, b)
  {
    if LexLess(a, b) {
      FindsApart(a, b);
    }
    forall k: nat | FirstApart(a, b, k) ensures LexLess(a, b) {
      LexCommonPrefix(a[..k], a[k..], b[k..]);
      assert a == a[..k] + a[k..] && b == a[..k] + b[k..];
    }
  }

  lemma {:induction false} CollapseSorted(s: seq<Text>, k: Key, leq: (Text, Text) -> bool)
    requires SortedBy(s, leq)
    ensures SortedBy(Collapse(s, k), leq)
    ensures forall i :: 0 <= i < |Collapse(s, k)| ==> Collapse(s, k)[i] in s
    decreases |s|
  {
    hide SameKey;
    if s != [] {
      var init := s[..|s| - 1];
      CollapseSorted(init, k, leq);
      var less := Collapse(init, k);
      forall i | 0 <= i < |less| ensures less[i] in s && leq(less[i], s[|s| - 1]) {
        var j :| 0 <= j < |init| && init[j] == less[i];
        assert s[j] == less[i];
      }
    }
  }

  /** By bytes, no later line comes before an earlier one in code point order, or after it when
      the order is reversed; numerically, the values do not fall, or do not rise. */
  lemma SortDirection(lines: seq<Text>, k: Key, reverse: bool, unique: bool, i: nat, j: nat)
    requires i < j < |SortedLines(lines, k, reverse, unique)|
    ensures var a, b := SortedLines(lines, k, reverse, unique)[i], SortedLines(lines, k, reverse, unique)[j];
      match k
      case Bytes => if reverse then !ComesBefore(a, b) else !ComesBefore(b, a)
      case Numeric(value) => if reverse then value(a) >= value(b) else value(a) <= value(b)
  {
    KeyOrder(k, reverse);
    SortSorted(lines, Order(k, reverse));
    CollapseSorted(Sort(lines, Order(k, reverse)), k, Order(k, reverse));
    hide Sort, Encode, LexLess, Collapse;
    var r := SortedLines(lines, k, reverse, unique);
    var a, b := r[i], r[j];
    assert Order(k, reverse)(a, b);
    if k.Bytes? {
      ByteOrderIsPointOrder(a, b);
      ByteOrderIsPointOrder(b, a);
      LexLessExactly(a, b);
      LexLessExactly(b, a);
      LexTotal(Encode(a), Encode(b));
    }
  }

  // ---------------------------------------------------------------- unique lines

  lemma SameKeyExactly(k: Key, reverse: bool, a: Text, b: Text)
    ensures SameKey(k, a, b) <==> Order(k, reverse)(a, b) && Order(k, reverse)(b, a)
  {
    hide LexLess, Encode;
    LexTotal(Encode(a), Encode(b));
  }

  function FirstOf(s: seq<Text>): (r: seq<Text>)
    ensures |r| <= 1 && r <= s && (s != [] ==> r == [s[0]])
  {
    if s == [] then [] else [s[0]]
  }

  lemma {:induction false} NoneEqual(s: seq<Text>, z: Text, leq: (Text, Text) -> bool)
    requires forall i :: 0 <= i < |s| ==> !(leq(s[i], z) && leq(z, s[i]))
    ensures EqualTo(s, z, leq) == []
  {
    if s != [] {
      NoneEqual(s[..|s| - 1], z, leq);
    }
  }

  lemma SortedInit(s: seq<Text>, leq: (Text, Text) -> bool)
    requires s != [] && SortedBy(s, leq)
    ensures SortedBy(s[..|s| - 1], leq)
  {
  }

  /** Before a line with a key of its own there is none that compares equal to it. */
  lemma NewKey(s: seq<Text>, x: Text, z: Text, leq: (Text, Text) -> bool)
    requires TotalPreorder(leq) && s != [] && SortedBy(s + [x], leq) && leq(x, z) && leq(z, x)
    requires !(leq(x, s[|s| - 1]) && leq(s[|s| - 1], x))
    ensures EqualTo(s, z, leq) == []
  {
    var last, all := |s| - 1, s + [x];
    assert all[last] == s[last] && all[|s|] == x;
    assert leq(all[last], all[|s|]);
    forall i | 0 <= i < |s| ensures !(leq(s[i], z) && leq(z, s[i])) {
      assert i < last ==> leq(all[i], all[last]);
      assert all[i] == s[i] && leq(s[i], s[i]);
    }
    NoneEqual(s, z, leq);
  }

  lemma OldKey(s: seq<Text>, x: Text, z: Text, leq: (Text, Text) -> bool)
    requires TotalPreorder(leq) && s != [] && leq(x, z) && leq(z, x)
    requires leq(x, s[|s| - 1]) && leq(s[|s| - 1], x)
    ensures EqualTo(s, z, leq) != []
  {
  }

  lemma {:induction false} CollapseFirsts(s: seq<Text>, k: Key, reverse: bool, z: Text)
    requires SortedBy(s, Order(k, reverse))
    ensures EqualTo(Collapse(s, k), z, Order(k, reverse)) == FirstOf(EqualTo(s, z, Order(k, reverse)))
    decreases |s|
  {
    hide SortedBy, EqualTo, SameKey, Order, TotalPreorder, Collapse;
    var leq := Order(k, reverse);
    KeyOrder(k, reverse);
    if s == [] {
      NothingEqual(k, z, leq);
    } else {
      var init, x := s[..|s| - 1], s[|s| - 1];
      assert s == init + [x];
      SortedInit(s, leq);
      CollapseFirsts(init, k, reverse, z);
      CollapseStep(init, x, k);
      EqualToAppend(init, x, z, leq);
      EqualToAppend(Collapse(init, k), x, z, leq);
      if init == [] {
        NothingEqual(k, z, leq);
        assert [] + [x] == [x];
      } else {
        SameKeyExactly(k, reverse, x, init[|init| - 1]);
        assert leq(x, z) && leq(z, x) ==> EqualTo(init, z, leq) != [] || !SameKey(k, x, init[|init| - 1]) by {
          if leq(x, z) && leq(z, x) && SameKey(k, x, init[|init| - 1]) {
            OldKey(init, x, z, leq);
          }
        }
        if leq(x, z) && leq(z, x) && !SameKey(k, x, init[|init| - 1]) {
          NewKey(init, x, z, leq);
        }
        CollapseAdds(Collapse(init, k), x);
      }
    }
  }

  lemma CollapseAdds(s: seq<Text>, x: Text)
    ensures s + [] == s && [] + [x] == [x]
  {
  }

  lemma NothingEqual(k: Key, z: Text, leq: (Text, Text) -> bool)
    ensures Collapse([], k) == [] && EqualTo([], z, leq) == []
  {
  }

  /** With `-u`, of all lines with one key exactly the first of the input is left, in the same order. */
  lemma UniqueKeepsFirsts(lines: seq<Text>, k: Key, reverse: bool, z: Text)
    ensures EqualTo(SortedLines(lines, k, reverse, true), z, Order(k, reverse)) == FirstOf(EqualTo(lines, z, Order(k, reverse)))
    ensures SortedBy(SortedLines(lines, k, reverse, true), Order(k, reverse))
  {
    hide Order, Collapse, EqualTo, SortedBy;
    KeyOrder(k, reverse);
    SortSorted(lines, Order(k, reverse));
    SortStable(lines, z, Order(k, reverse));
    CollapseSorted(Sort(lines, Order(k, reverse)), k, Order(k, reverse));
    CollapseFirsts(Sort(lines, Order(k, reverse)), k, reverse, z);
  }
}
