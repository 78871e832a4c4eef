/** One-pass span redaction, once for any element type: text and bytes use the same loops.
    A position is *covered* when some registered value occurs over it, and *joined* when an
    occurrence runs across the cut just before it.  `Redaction` says position by position
    what the result is; the loops below compute it through match spans that are sorted,
    merged where they overlap and cut out left to right. */
module SpanRedaction {
  import opened Basics
  import opened Utf8
  import opened Ordering

  datatype Span = Span(start: nat, end: nat)

  function Elements<T(==)>(s: seq<T>): set<T> {
    set x | x in s
  }

  /** `s` is where the registered value `p` occurs in `v`. */
  ghost predicate IsMatchOf<T>(v: seq<T>, p: seq<T>, s: Span) {
    s.end == s.start + |p| && Occurs(v, p, s.start)
  }

  ghost predicate IsMatch<T>(v: seq<T>, ps: set<seq<T>>, s: Span) {
    exists p :: p in ps && IsMatchOf(v, p, s)
  }

  ghost predicate Covered<T>(v: seq<T>, ps: set<seq<T>>, q: nat) {
    exists s :: IsMatch(v, ps, s) && s.start <= q < s.end
  }

  /** Some occurrence runs across the cut between positions `q - 1` and `q`. */
  ghost predicate Joined<T>(v: seq<T>, ps: set<seq<T>>, q: nat) {
    exists s :: IsMatch(v, ps, s) && s.start < q < s.end
  }

  /** What position `q` contributes to the result. */
  ghost function Piece<T>(v: seq<T>, ps: set<seq<T>>, marker: seq<T>, q: nat): seq<T>
    requires q < |v|
  {
    if !Covered(v, ps, q) then [v[q]]
    else if Joined(v, ps, q) then []
    else marker
  }

  ghost function RedactionFrom<T>(v: seq<T>, ps: set<seq<T>>, marker: seq<T>, q: nat): seq<T>
    requires q <= |v|
    decreases |v| - q
  {
    if q == |v| then [] else Piece(v, ps, marker, q) + RedactionFrom(v, ps, marker, q + 1)
  }

  /** Every uncovered element in order, and one marker for each maximal overlapping group. */
  ghost function Redaction<T>(v: seq<T>, ps: set<seq<T>>, marker: seq<T>): seq<T> {
    RedactionFrom(v, ps, marker, 0)
  }

  // ---------------------------------------------------------------- finding matches

  /** Python's `find`: the first occurrence at or after `start`, or -1. */
  method Find<T(==)>(value: seq<T>, candidate: seq<T>, start: nat) returns (at: int)
    requires candidate != []
    ensures -1 <= at
    ensures at >= 0 ==> start <= at && Occurs(value, candidate, at)
    ensures forall k :: start <= k && (at < 0 || k < at) ==> !Occurs(value, candidate, k)
  {
    at := start;
    while at + |candidate| <= |value|
      invariant start <= at
      invariant forall k :: start <= k < at ==> !Occurs(value, candidate, k)
    {
      if value[at..at + |candidate|] == candidate {
        return;
      }
      at := at + 1;
    }
    at := -1;
  }

  /** Every occurrence of every registered value, overlapping ones included. */
  method MatchSpans<T(==)>(value: seq<T>, registered: seq<seq<T>>) returns (spans: seq<Span>)
    requires [] !in registered
    ensures forall s :: s in spans <==> IsMatch(value, Elements(registered), s)
  {
    spans := [];
    for i := 0 to |registered|
      invariant forall s :: s in spans <==> exists p :: p in registered[..i] && IsMatchOf(value, p, s)
    {
      var candidate := registered[i];
      ghost var before := spans;
      var start := 0;
      var match_ := Find(value, candidate, start);
      while match_ >= 0
        invariant 0 <= start
        invariant match_ >= 0 ==> start <= match_ && Occurs(value, candidate, match_)
        invariant forall k :: start <= k && (match_ < 0 || k < match_) ==> !Occurs(value, candidate, k)
        invariant forall s :: s in spans <==> s in before || (IsMatchOf(value, candidate, s) && s.start < start)
        decreases if match_ >= 0 then |value| - match_ else -1
      {
        spans := spans + [Span(match_, match_ + |candidate|)];
        start := match_ + 1;
        match_ := Find(value, candidate, start);
      }
      forall s ensures s in spans <==> exists p :: p in registered[..i + 1] && IsMatchOf(value, p, s) {
        assert registered[..i + 1] == registered[..i] + [candidate];
        if IsMatchOf(value, candidate, s) {
          assert Occurs(value, candidate, s.start);
        }
      }
    }
    assert registered[..|registered|] == registered;
  }

  // ---------------------------------------------------------------- merging

  /** Python's key `(start, -end)`: earlier first, and the longer of two that start together. */
  predicate SpanLeq(a: Span, b: Span) {
    a.start < b.start || (a.start == b.start && a.end >= b.end)
  }

  ghost predicate SpanCovers(spans: set<Span>, q: nat) {
    exists s :: s in spans && s.start <= q < s.end
  }

  ghost predicate SpanJoins(spans: set<Span>, q: nat) {
    exists s :: s in spans && s.start < q < s.end
  }

  /** Spans in order, none empty, none overlapping the next (touching is allowed). */
  ghost predicate Separated(merged: seq<Span>) {
    && (forall i :: 0 <= i < |merged| ==> merged[i].start < merged[i].end)
    && (forall i, j :: 0 <= i < j < |merged| ==> merged[i].end <= merged[j].start)
  }

  ghost predicate Housed(s: Span, merged: seq<Span>) {
    exists i :: 0 <= i < |merged| && merged[i].start <= s.start && s.end <= merged[i].end
  }

  /** `m` opens with an input span, and every cut inside it is joined by one. */
  ghost predicate Connected(m: Span, spans: set<Span>) {
    && (exists s :: s in spans && s.start == m.start && s.end <= m.end)
    && (forall q :: m.start < q < m.end ==> SpanJoins(spans, q))
  }

  /** `merged` lists the groups of overlapping `spans`. */
  ghost predicate Groups(merged: seq<Span>, spans: set<Span>) {
    && Separated(merged)
    && (forall s {:trigger Housed(s, merged)} :: s in spans ==> Housed(s, merged))
    && (forall i {:trigger Connected(merged[i], spans)} :: 0 <= i < |merged| ==> Connected(merged[i], spans))
  }

  lemma SpanOrder()
    ensures TotalPreorder(SpanLeq) && Antisymmetric(SpanLeq)
  {
  }

  lemma ElementsEmpty<T>()
    ensures Elements<T>([]) == {}
  {
  }

  lemma ElementsAppend<T>(s: seq<T>, x: T)
    ensures Elements(s + [x]) == Elements(s) + {x}
  {
  }

  lemma NoGroups()
    ensures Groups([], {})
  {
  }

  method MergeOverlapping(spans: seq<Span>) returns (merged: seq<Span>)
    requires forall s :: s in spans ==> s.start < s.end
    ensures Groups(merged, Elements(spans))
  {
    hide Groups, SortedBy, Sort, Elements;
    var ordered := Sort(spans, SpanLeq);
    SortedSpans(spans);
    merged := [];
    NoGroups();
    assert ordered[..0] == [];
    ElementsEmpty<Span>();
    for i := 0 to |ordered|
      invariant Groups(merged, Elements(ordered[..i]))
      invariant merged != [] ==> i > 0 && merged[|merged| - 1].start <= ordered[i - 1].start
    {
      var s := ordered[i];
      ghost var seen := Elements(ordered[..i]);
      assert s in ordered;
      ElementsAppend(ordered[..i], s);
      assert ordered[..i + 1] == ordered[..i] + [s];
      ghost var before := merged;
      var last := |merged| - 1;
      if merged == [] || s.start >= merged[last].end {
        merged := merged + [s];
        Append(before, seen, s);
      } else {
        var previous := merged[last];
        assert previous.start <= s.start;
        merged := merged[last := Span(previous.start, Max(previous.end, s.end))];
        Extend(before, seen, s);
      }
    }
    assert ordered[..|ordered|] == ordered;
  }

  lemma SortedSpans(spans: seq<Span>)
    ensures var ordered := Sort(spans, SpanLeq);
      && Elements(ordered) == Elements(spans)
      && (forall s :: s in ordered <==> s in spans)
      && (forall i, j :: 0 <= i < j < |ordered| ==> ordered[i].start <= ordered[j].start)
  {
    var ordered := Sort(spans, SpanLeq);
    SpanOrder();
    SortSorted(spans, SpanLeq);
    forall s ensures s in ordered <==> s in spans {
      SortMembers(spans, SpanLeq, s);
    }
    forall i, j | 0 <= i < j < |ordered| ensures ordered[i].start <= ordered[j].start {
      assert SpanLeq(ordered[i], ordered[j]);
    }
  }

  lemma ConnectedGrows(m: Span, spans: set<Span>, s: Span)
    requires Connected(m, spans)
    ensures Connected(m, spans + {s})
  {
    var first :| first in spans && first.start == m.start && first.end <= m.end;
    assert first in spans + {s};
    forall q | m.start < q < m.end ensures SpanJoins(spans + {s}, q) {
      assert SpanJoins(spans, q);
      var t :| t in spans && t.start < q < t.end;
      assert t in spans + {s};
    }
  }

  lemma ConnectedAlone(spans: set<Span>, s: Span)
    requires s in spans
    ensures Connected(s, spans)
  {
  }

  lemma ConnectedExtends(m: Span, spans: set<Span>, s: Span)
    requires Connected(m, spans) && m.start <= s.start < m.end
    ensures Connected(Span(m.start, Max(m.end, s.end)), spans + {s})
  {
    ConnectedGrows(m, spans, s);
    var all := spans + {s};
    var first :| first in all && first.start == m.start && first.end <= m.end;
    forall q | m.start < q < Max(m.end, s.end) ensures SpanJoins(all, q) {
      if q >= m.end {
        assert s in all && s.start < q < s.end;
      }
    }
    var n := Span(m.start, Max(m.end, s.end));
    assert first in all && first.start == n.start && first.end <= n.end;
  }

  lemma AppendHoused(merged: seq<Span>, spans: set<Span>, s: Span)
    requires forall t {:trigger Housed(t, merged)} :: t in spans ==> Housed(t, merged)
    ensures forall t :: t in spans + {s} ==> Housed(t, merged + [s])
  {
    var r := merged + [s];
    forall t | t in spans + {s} ensures Housed(t, r) {
      if t == s {
        assert r[|merged|] == s;
      } else {
        assert Housed(t, merged);
        var i :| 0 <= i < |merged| && merged[i].start <= t.start && t.end <= merged[i].end;
        assert r[i] == merged[i];
      }
    }
  }

  lemma AppendConnected(merged: seq<Span>, spans: set<Span>, s: Span)
    requires forall i {:trigger Connected(merged[i], spans)} :: 0 <= i < |merged| ==> Connected(merged[i], spans)
    ensures forall i :: 0 <= i < |merged + [s]| ==> Connected((merged + [s])[i], spans + {s})
  {
    var r := merged + [s];
    forall i | 0 <= i < |r| ensures Connected(r[i], spans + {s}) {
      if i < |merged| {
        ConnectedGrows(merged[i], spans, s);
      } else {
        ConnectedAlone(spans + {s}, s);
      }
    }
  }

  lemma AppendSeparated(merged: seq<Span>, s: Span)
    requires Separated(merged) && s.start < s.end
    requires merged != [] ==> merged[|merged| - 1].end <= s.start
    ensures Separated(merged + [s])
  {
    forall i | 0 <= i < |merged| ensures merged[i].end <= s.start {
      assert i == |merged| - 1 || merged[i].end <= merged[|merged| - 1].start;
    }
  }

  lemma Append(merged: seq<Span>, spans: set<Span>, s: Span)
    requires Groups(merged, spans) && s.start < s.end
    requires merged != [] ==> merged[|merged| - 1].end <= s.start
    ensures Groups(merged + [s], spans + {s})
  {
    AppendSeparated(merged, s);
    AppendHoused(merged, spans, s);
    AppendConnected(merged, spans, s);
  }

  lemma ExtendHoused(merged: seq<Span>, spans: set<Span>, s: Span, m: Span)
    requires merged != [] && (forall t {:trigger Housed(t, merged)} :: t in spans ==> Housed(t, merged))
    requires m.start == merged[|merged| - 1].start <= s.start
    requires m.end == Max(merged[|merged| - 1].end, s.end)
    ensures forall t :: t in spans + {s} ==> Housed(t, merged[|merged| - 1 := m])
  {
    var last := |merged| - 1;
    var r := merged[last := m];
    forall t | t in spans + {s} ensures Housed(t, r) {
      if t == s {
        assert r[last] == m;
      } else {
        assert Housed(t, merged);
        var i :| 0 <= i < |merged| && merged[i].start <= t.start && t.end <= merged[i].end;
        assert r[i].start == merged[i].start && r[i].end >= merged[i].end;
      }
    }
  }

  lemma ExtendConnected(merged: seq<Span>, spans: set<Span>, s: Span, m: Span)
    requires merged != [] && (forall i {:trigger Connected(merged[i], spans)} :: 0 <= i < |merged| ==> Connected(merged[i], spans))
    requires merged[|merged| - 1].start <= s.start < merged[|merged| - 1].end
    requires m == Span(merged[|merged| - 1].start, Max(merged[|merged| - 1].end, s.end))
    ensures var r := merged[|merged| - 1 := m];
      forall i :: 0 <= i < |r| ==> Connected(r[i], spans + {s})
  {
    var last := |merged| - 1;
    var r := merged[last := m];
    forall i | 0 <= i < |r| ensures Connected(r[i], spans + {s}) {
      if i < last {
        ConnectedGrows(merged[i], spans, s);
      } else {
        ConnectedExtends(merged[last], spans, s);
      }
    }
  }

  lemma Extend(merged: seq<Span>, spans: set<Span>, s: Span)
    requires Groups(merged, spans) && merged != [] && s.start < s.end
    requires merged[|merged| - 1].start <= s.start < merged[|merged| - 1].end
    ensures var last := |merged| - 1;
      Groups(merged[last := Span(merged[last].start, Max(merged[last].end, s.end))], spans + {s})
  {
    hide Housed, Connected, SpanJoins;
    var last := |merged| - 1;
    var m := Span(merged[last].start, Max(merged[last].end, s.end));
    ExtendHoused(merged, spans, s, m);
    ExtendConnected(merged, spans, s, m);
  }

  // ---------------------------------------------------------------- what grouping means

  lemma SameGroup(merged: seq<Span>, i: nat, j: nat, q: nat)
    requires Separated(merged) && i < |merged| && j < |merged|
    requires merged[i].start <= q < merged[i].end && merged[j].start <= q < merged[j].end
    ensures i == j
  {
  }

  /** A group covers a position or joins a cut exactly when an input span does. */
  lemma GroupPositions(merged: seq<Span>, spans: set<Span>, i: nat, q: nat)
    requires Groups(merged, spans) && (forall s :: s in spans ==> s.start < s.end)
    requires i < |merged| && merged[i].start <= q < merged[i].end
    ensures SpanCovers(spans, q)
    ensures SpanJoins(spans, q) <==> q != merged[i].start
  {
    var m := merged[i];
    assert Connected(m, spans);
    if q == m.start {
      var first :| first in spans && first.start == m.start && first.end <= m.end;
      assert first.start <= q < first.end;
      forall t | t in spans ensures !(t.start < q < t.end) {
        assert Housed(t, merged);
        var j :| 0 <= j < |merged| && merged[j].start <= t.start && t.end <= merged[j].end;
      }
    } else {
      assert SpanJoins(spans, q);
      var t :| t in spans && t.start < q < t.end;
      assert t.start <= q < t.end;
    }
  }

  lemma GapPositions(merged: seq<Span>, spans: set<Span>, q: nat)
    requires Groups(merged, spans)
    requires forall i :: 0 <= i < |merged| ==> !(merged[i].start <= q < merged[i].end)
    ensures !SpanCovers(spans, q)
  {
    forall t | t in spans ensures !(t.start <= q < t.end) {
      assert Housed(t, merged);
    }
  }

  ghost predicate Overlap(a: Span, b: Span) {
    a.start < b.end && b.start < a.end
  }

  /** `path` walks from `a` to `b` through input spans, each overlapping the next. */
  ghost predicate Chain(path: seq<Span>, spans: set<Span>, a: Span, b: Span) {
    && path != [] && path[0] == a && path[|path| - 1] == b
    && (forall i :: 0 <= i < |path| ==> path[i] in spans)
    && (forall i :: 0 < i < |path| ==> Overlap(path[i - 1], path[i]))
  }

  ghost predicate Inside(s: Span, m: Span) {
    m.start <= s.start && s.end <= m.end
  }

  /** Two spans that share a group are linked by overlaps: walk right from the earlier one,
      always through a span that joins the cut where the walk has got to. */
  lemma {:induction false} GroupIsLinked(m: Span, spans: set<Span>, a: Span, b: Span) returns (path: seq<Span>)
    requires Connected(m, spans) && (forall s :: s in spans ==> s.start < s.end)
    requires a in spans && b in spans && m.start < a.end && Inside(b, m) && a.start <= b.start
    ensures Chain(path, spans, a, b)
    decreases m.end - a.end
  {
    if Overlap(a, b) {
      path := [a, b];
    } else {
      assert SpanJoins(spans, a.end);
      var t :| t in spans && t.start < a.end < t.end;
      if t.end <= b.start {
        var rest := GroupIsLinked(m, spans, t, b);
        path := [a] + rest;
      } else {
        path := [a, t, b];
      }
    }
  }

  lemma OverlapSharesGroup(merged: seq<Span>, i: nat, j: nat, a: Span, b: Span)
    requires Separated(merged) && i < |merged| && j < |merged|
    requires Inside(a, merged[i]) && Inside(b, merged[j]) && Overlap(a, b)
    requires a.start < a.end && b.start < b.end
    ensures i == j
  {
    SameGroup(merged, i, j, Max(a.start, b.start));
  }

  /** Overlapping spans share a group, and so does everything a chain links. */
  lemma {:induction false} ChainSharesGroup(merged: seq<Span>, spans: set<Span>, path: seq<Span>, a: Span, b: Span)
    requires Groups(merged, spans) && (forall s :: s in spans ==> s.start < s.end)
    requires Chain(path, spans, a, b)
    ensures exists i :: 0 <= i < |merged| && Inside(a, merged[i]) && Inside(b, merged[i])
  {
    assert a in spans && Housed(a, merged);
    var i :| 0 <= i < |merged| && Inside(a, merged[i]);
    if |path| > 1 {
      ChainSharesGroup(merged, spans, path[1..], path[1], b);
      var j :| 0 <= j < |merged| && Inside(path[1], merged[j]) && Inside(b, merged[j]);
      assert path[1] in spans && Overlap(path[0], path[1]);
      OverlapSharesGroup(merged, i, j, a, path[1]);
    }
  }

  /** The groups are the connected components of the overlap relation. */
  lemma GroupsAreComponents(merged: seq<Span>, spans: set<Span>, a: Span, b: Span)
    requires Groups(merged, spans) && (forall s :: s in spans ==> s.start < s.end)
    requires a in spans && b in spans && a.start <= b.start
    ensures (exists i :: 0 <= i < |merged| && Inside(a, merged[i]) && Inside(b, merged[i]))
      <==> (exists path :: Chain(path, spans, a, b))
  {
    if i :| 0 <= i < |merged| && Inside(a, merged[i]) && Inside(b, merged[i]) {
      assert Connected(merged[i], spans);
      var path := GroupIsLinked(merged[i], spans, a, b);
    }
    if path :| Chain(path, spans, a, b) {
      ChainSharesGroup(merged, spans, path, a, b);
    }
  }

  // ---------------------------------------------------------------- cutting out

  lemma Unfolds<T>(v: seq<T>, ps: set<seq<T>>, marker: seq<T>, q: nat)
    requires q < |v|
    ensures RedactionFrom(v, ps, marker, q) == Piece(v, ps, marker, q) + RedactionFrom(v, ps, marker, q + 1)
  {
    hide Piece;
  }

  lemma {:induction false} CopyGap<T>(v: seq<T>, ps: set<seq<T>>, marker: seq<T>, a: nat, b: nat)
    requires a <= b <= |v| && forall q :: a <= q < b ==> !Covered(v, ps, q)
    ensures RedactionFrom(v, ps, marker, a) == v[a..b] + RedactionFrom(v, ps, marker, b)
    decreases b - a
  {
    hide Covered, Joined, RedactionFrom;
    var rest := RedactionFrom(v, ps, marker, b);
    if a == b {
      assert v[a..b] + rest == rest;
    } else {
      CopyGap(v, ps, marker, a + 1, b);
      Unfolds(v, ps, marker, a);
      assert v[a..b] == [v[a]] + v[a + 1..b];
      Associative([v[a]], v[a + 1..b], rest);
    }
  }

  lemma {:induction false} DropJoined<T>(v: seq<T>, ps: set<seq<T>>, marker: seq<T>, a: nat, b: nat)
    requires a <= b <= |v| && forall q :: a <= q < b ==> Covered(v, ps, q) && Joined(v, ps, q)
    ensures RedactionFrom(v, ps, marker, a) == RedactionFrom(v, ps, marker, b)
    decreases b - a
  {
    hide Covered, Joined, RedactionFrom;
    if a < b {
      DropJoined(v, ps, marker, a + 1, b);
      Unfolds(v, ps, marker, a);
      assert [] + RedactionFrom(v, ps, marker, a + 1) == RedactionFrom(v, ps, marker, a + 1);
    }
  }

  /** Match spans cover and join exactly the positions that occurrences do. */
  lemma SpansOfMatches<T>(v: seq<T>, ps: set<seq<T>>, spans: set<Span>, q: nat)
    requires forall s :: s in spans <==> IsMatch(v, ps, s)
    ensures SpanCovers(spans, q) <==> Covered(v, ps, q)
    ensures SpanJoins(spans, q) <==> Joined(v, ps, q)
    ensures Covered(v, ps, q) ==> q < |v|
  {
  }

  lemma GroupFits<T>(v: seq<T>, ps: set<seq<T>>, spans: set<Span>, merged: seq<Span>, i: nat)
    requires forall s :: s in spans <==> IsMatch(v, ps, s)
    requires Groups(merged, spans) && (forall s :: s in spans ==> s.start < s.end) && i < |merged|
    ensures merged[i].end <= |v|
  {
    GroupPositions(merged, spans, i, merged[i].end - 1);
    SpansOfMatches(v, ps, spans, merged[i].end - 1);
  }

  lemma GapUncovered<T>(v: seq<T>, ps: set<seq<T>>, spans: set<Span>, merged: seq<Span>, i: nat, q: nat)
    requires forall s :: s in spans <==> IsMatch(v, ps, s)
    requires Groups(merged, spans) && i <= |merged|
    requires (i == 0 || merged[i - 1].end <= q) && (i == |merged| || q < merged[i].start)
    ensures !Covered(v, ps, q)
  {
    OutsideGroups(merged, i, q);
    GapPositions(merged, spans, q);
    SpansOfMatches(v, ps, spans, q);
  }

  /** One round of the loop: the gap before group `i` is copied, the group becomes a marker. */
  lemma CutGroup<T>(v: seq<T>, ps: set<seq<T>>, marker: seq<T>, spans: set<Span>, merged: seq<Span>, i: nat)
    requires forall s :: s in spans <==> IsMatch(v, ps, s)
    requires Groups(merged, spans) && (forall s :: s in spans ==> s.start < s.end) && i < |merged|
    ensures var cursor := if i == 0 then 0 else merged[i - 1].end;
      && cursor <= merged[i].start < merged[i].end <= |v|
      && RedactionFrom(v, ps, marker, cursor)
         == v[cursor..merged[i].start] + marker + RedactionFrom(v, ps, marker, merged[i].end)
  {
    hide IsMatch, Covered, Joined, SpanCovers, SpanJoins, Housed, Connected, RedactionFrom;
    var cursor := if i == 0 then 0 else merged[i - 1].end;
    var m := merged[i];
    GroupFits(v, ps, spans, merged, i);
    forall q | cursor <= q < m.start ensures !Covered(v, ps, q) {
      GapUncovered(v, ps, spans, merged, i, q);
    }
    CopyGap(v, ps, marker, cursor, m.start);
    forall q | m.start <= q < m.end
      ensures Covered(v, ps, q) && (Joined(v, ps, q) <==> q != m.start)
    {
      GroupPositions(merged, spans, i, q);
      SpansOfMatches(v, ps, spans, q);
    }
    Unfolds(v, ps, marker, m.start);
    DropJoined(v, ps, marker, m.start + 1, m.end);
    Associative(v[cursor..m.start], marker, RedactionFrom(v, ps, marker, m.end));
  }

  lemma OutsideGroups(merged: seq<Span>, i: nat, q: nat)
    requires Separated(merged) && i <= |merged|
    requires (i == 0 || merged[i - 1].end <= q) && (i == |merged| || q < merged[i].start)
    ensures forall j :: 0 <= j < |merged| ==> !(merged[j].start <= q < merged[j].end)
  {
    forall j | 0 <= j < |merged| ensures !(merged[j].start <= q < merged[j].end) {
      if j < i {
        assert j == i - 1 || merged[j].end <= merged[i - 1].start;
      } else {
        assert j == i || merged[i].end <= merged[j].start;
      }
    }
  }

  lemma CutTail<T>(v: seq<T>, ps: set<seq<T>>, marker: seq<T>, spans: set<Span>, merged: seq<Span>)
    requires forall s :: s in spans <==> IsMatch(v, ps, s)
    requires Groups(merged, spans) && (forall s :: s in spans ==> s.start < s.end)
    ensures var cursor := if merged == [] then 0 else merged[|merged| - 1].end;
      cursor <= |v| && RedactionFrom(v, ps, marker, cursor) == v[cursor..]
  {
    var cursor := if merged == [] then 0 else merged[|merged| - 1].end;
    if merged != [] {
      GroupFits(v, ps, spans, merged, |merged| - 1);
    }
    forall q | cursor <= q < |v| ensures !Covered(v, ps, q) {
      OutsideGroups(merged, |merged|, q);
      GapPositions(merged, spans, q);
      SpansOfMatches(v, ps, spans, q);
    }
    CopyGap(v, ps, marker, cursor, |v|);
    assert v[cursor..|v|] == v[cursor..];
  }

  lemma MatchNotEmpty<T>(v: seq<T>, ps: set<seq<T>>, s: Span)
    requires [] !in ps && IsMatch(v, ps, s)
    ensures s.start < s.end
  {
  }

  lemma Uncovered<T>(v: seq<T>, ps: set<seq<T>>, marker: seq<T>, spans: set<Span>)
    requires (forall s :: s in spans <==> IsMatch(v, ps, s)) && spans == {}
    ensures Redaction(v, ps, marker) == v
  {
    forall q | 0 <= q < |v| ensures !Covered(v, ps, q) {
      SpansOfMatches(v, ps, spans, q);
    }
    CopyGap(v, ps, marker, 0, |v|);
    assert v[0..|v|] == v;
  }

  method RedactSpans<T(==)>(value: seq<T>, registered: seq<seq<T>>, marker: seq<T>) returns (r: seq<T>)
    requires [] !in registered
    ensures r == Redaction(value, Elements(registered), marker)
  {
    hide IsMatch, Groups, Covered, Joined, RedactionFrom;
    ghost var ps := Elements(registered);
    var spans := MatchSpans(value, registered);
    ghost var all := Elements(spans);
    assert forall s :: s in all <==> IsMatch(value, ps, s);
    forall s | s in all ensures s.start < s.end {
      MatchNotEmpty(value, ps, s);
    }
    if spans == [] {
      Uncovered(value, ps, marker, all);
      return value;
    }
    var merged := MergeOverlapping(spans);
    r := [];
    var cursor := 0;
    for i := 0 to |merged|
      invariant cursor == if i == 0 then 0 else merged[i - 1].end
      invariant cursor <= |value|
      invariant Redaction(value, ps, marker) == r + RedactionFrom(value, ps, marker, cursor)
    {
      CutGroup(value, ps, marker, all, merged, i);
      r := r + value[cursor..merged[i].start] + marker;
      cursor := merged[i].end;
    }
    CutTail(value, ps, marker, all, merged);
    r := r + value[cursor..];
  }

  // ---------------------------------------------------------------- detection

  ghost predicate Contains<T>(v: seq<T>, p: seq<T>) {
    exists k :: Occurs(v, p, k)
  }

  lemma {:induction false} UntouchedWithoutMatches<T>(v: seq<T>, ps: set<seq<T>>, marker: seq<T>)
    requires forall p :: p in ps ==> !Contains(v, p)
    ensures Redaction(v, ps, marker) == v
  {
    forall q | 0 <= q < |v| ensures !Covered(v, ps, q) {
      forall s ensures !IsMatch(v, ps, s) {
        forall p | p in ps ensures !IsMatchOf(v, p, s) {
          assert !Contains(v, p);
        }
      }
    }
    CopyGap(v, ps, marker, 0, |v|);
    assert v[0..|v|] == v;
  }

  lemma ContainsAfter<T>(a: seq<T>, b: seq<T>, p: seq<T>)
    requires Contains(b, p)
    ensures Contains(a + b, p)
  {
    var k :| Occurs(b, p, k);
    assert (a + b)[|a| + k..|a| + k + |p|] == b[k..k + |p|];
    assert Occurs(a + b, p, |a| + k);
  }

  lemma ContainsFirst<T>(p: seq<T>, b: seq<T>)
    ensures Contains(p + b, p)
  {
    assert Occurs(p + b, p, 0);
  }

  lemma {:induction false} MarkerAppears<T>(v: seq<T>, ps: set<seq<T>>, marker: seq<T>, q: nat, start: nat)
    requires start <= q < |v| && Covered(v, ps, q) && !Joined(v, ps, q)
    ensures Contains(RedactionFrom(v, ps, marker, start), marker)
    decreases q - start
  {
    hide Covered, Joined, Contains, RedactionFrom, Occurs;
    var rest := RedactionFrom(v, ps, marker, start + 1);
    Unfolds(v, ps, marker, start);
    if start == q {
      ContainsFirst(marker, rest);
    } else {
      MarkerAppears(v, ps, marker, q, start + 1);
      ContainsAfter(Piece(v, ps, marker, start), rest, marker);
    }
  }

  /** The leftmost position covered together with `q`. */
  lemma {:induction false} GroupOpens<T>(v: seq<T>, ps: set<seq<T>>, q: nat) returns (o: nat)
    requires Covered(v, ps, q)
    ensures o <= q && Covered(v, ps, o) && !Joined(v, ps, o)
    decreases q
  {
    if !Joined(v, ps, q) {
      o := q;
    } else {
      var s :| IsMatch(v, ps, s) && s.start < q < s.end;
      assert Covered(v, ps, q - 1);
      o := GroupOpens(v, ps, q - 1);
    }
  }

  /** Comparing a value with its redaction detects registered values exactly, unless the
      value already carries the marker. */
  lemma DetectionIsExact<T>(v: seq<T>, ps: set<seq<T>>, marker: seq<T>)
    requires [] !in ps && !Contains(v, marker)
    ensures Redaction(v, ps, marker) != v <==> exists p :: p in ps && Contains(v, p)
  {
    if p :| p in ps && Contains(v, p) {
      var k :| Occurs(v, p, k);
      assert IsMatchOf(v, p, Span(k, k + |p|));
      assert IsMatch(v, ps, Span(k, k + |p|));
      assert Covered(v, ps, k);
      var o := GroupOpens(v, ps, k);
      SpansInside(v, ps, o);
      MarkerAppears(v, ps, marker, o, 0);
    } else {
      UntouchedWithoutMatches(v, ps, marker);
    }
  }

  lemma SpansInside<T>(v: seq<T>, ps: set<seq<T>>, q: nat)
    requires Covered(v, ps, q)
    ensures q < |v|
  {
  }
}
