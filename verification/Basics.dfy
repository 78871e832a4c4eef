/** What every other module may use. */
module Basics {
  datatype Option<+T> = None | Some(value: T)

  function Max(a: int, b: int): int {
    if a >= b then a else b
  }

  function Min(a: int, b: int): int {
    if a <= b then a else b
  }

  function Concatenated<T>(ts: seq<seq<T>>): seq<T> {
    if ts == [] then [] else ts[0] + Concatenated(ts[1..])
  }

  lemma ConcatenatedFirst<T>(t: seq<T>, ts: seq<seq<T>>)
    ensures Concatenated([t] + ts) == t + Concatenated(ts)
  {
    assert ([t] + ts)[1..] == ts;
  }

  lemma ConcatenatedNone<T>()
    ensures Concatenated<T>([]) == []
  {
  }

  lemma Associative<T>(a: seq<T>, b: seq<T>, c: seq<T>)
    ensures (a + b) + c == a + (b + c)
  {
  }

  lemma HeadAndTail<T>(a: seq<T>)
    requires a != []
    ensures a == [a[0]] + a[1..]
  {
  }

  lemma {:induction false} ConcatenatedSplit<T>(a: seq<seq<T>>, b: seq<seq<T>>)
    ensures Concatenated(a + b) == Concatenated(a) + Concatenated(b)
  {
    hide *;
    if a == [] {
      ConcatenatedNone<T>();
      assert a + b == b;
    } else {
      HeadAndTail(a);
      Associative([a[0]], a[1..], b);
      ConcatenatedFirst(a[0], a[1..]);
      ConcatenatedFirst(a[0], a[1..] + b);
      ConcatenatedSplit(a[1..], b);
      Associative(a[0], Concatenated(a[1..]), Concatenated(b));
    }
  }

  lemma ConcatenatedAppend<T>(ts: seq<seq<T>>, t: seq<T>)
    ensures Concatenated(ts + [t]) == Concatenated(ts) + t
  {
    hide *;
    ConcatenatedSplit(ts, [t]);
    ConcatenatedFirst(t, []);
    ConcatenatedNone<T>();
    assert [t] + [] == [t] && t + [] == t;
  }
}
