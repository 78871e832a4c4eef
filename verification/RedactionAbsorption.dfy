/** When registering more values changes no result.  A redaction is an interleaving of kept
    elements and markers, so comparing two of them takes counting: elements that no marker
    has (here called *heavy*) show what more is covered, and the length then shows that
    neither a kept element nor a marker was lost. */
module RedactionAbsorption {
  import opened SpanRedaction

  /** A span lies inside one group of occurrences: all of it covered, and no cut in it open. */
  ghost predicate Absorbed<T>(v: seq<T>, ps: set<seq<T>>, s: Span) {
    && (forall q :: s.start <= q < s.end ==> Covered(v, ps, q))
    && (forall q :: s.start < q < s.end ==> Joined(v, ps, q))
  }

  /** Every occurrence of a further value lies inside one group of the values there were. */
  ghost predicate AllAbsorbed<T>(v: seq<T>, ps: set<seq<T>>, qs: set<seq<T>>) {
    forall s :: IsMatch(v, qs - ps, s) ==> Absorbed(v, ps, s)
  }

  ghost predicate OpensGroup<T>(v: seq<T>, ps: set<seq<T>>, q: nat) {
    Covered(v, ps, q) && !Joined(v, ps, q)
  }

  // ---------------------------------------------------------------- tallies

  ghost function Tally(p: nat -> bool, q: nat, n: nat): nat
    requires q <= n
    decreases n - q
  {
    if q == n then 0 else (if p(q) then 1 else 0) + Tally(p, q + 1, n)
  }

  lemma {:induction false} TallyMonotone(a: nat -> bool, b: nat -> bool, q: nat, n: nat)
    requires q <= n && forall k :: q <= k < n && a(k) ==> b(k)
    ensures Tally(a, q, n) <= Tally(b, q, n)
    ensures Tally(a, q, n) == Tally(b, q, n) ==> forall k :: q <= k < n ==> a(k) == b(k)
    decreases n - q
  {
    if q < n {
      TallyMonotone(a, b, q + 1, n);
      if Tally(a, q, n) == Tally(b, q, n) {
        forall k | q <= k < n ensures a(k) == b(k) {
        }
      }
    }
  }

  ghost function Heavies<T>(s: seq<T>, heavy: T -> bool): nat {
    if s == [] then 0 else (if heavy(s[0]) then 1 else 0) + Heavies(s[1..], heavy)
  }

  lemma {:induction false} HeaviesConcat<T>(a: seq<T>, b: seq<T>, heavy: T -> bool)
    ensures Heavies(a + b, heavy) == Heavies(a, heavy) + Heavies(b, heavy)
  {
    if a == [] {
      assert a + b == b;
    } else {
      HeaviesConcat(a[1..], b, heavy);
      assert (a + b)[1..] == a[1..] + b;
    }
  }

  lemma {:induction false} NoHeavies<T>(s: seq<T>, heavy: T -> bool)
    requires forall x :: x in s ==> !heavy(x)
    ensures Heavies(s, heavy) == 0
  {
    if s != [] {
      NoHeavies(s[1..], heavy);
    }
  }

  ghost function Kept<T>(v: seq<T>, ps: set<seq<T>>): nat -> bool {
    (q: nat) => !Covered(v, ps, q)
  }

  ghost function Opening<T>(v: seq<T>, ps: set<seq<T>>): nat -> bool {
    (q: nat) => OpensGroup(v, ps, q)
  }

  ghost function HeavyKept<T>(v: seq<T>, ps: set<seq<T>>, heavy: T -> bool): nat -> bool {
    (q: nat) => q < |v| && heavy(v[q]) && !Covered(v, ps, q)
  }

  lemma JoinedIsCovered<T>(v: seq<T>, ps: set<seq<T>>, q: nat)
    requires Joined(v, ps, q)
    ensures Covered(v, ps, q)
  {
    var s :| IsMatch(v, ps, s) && s.start < q < s.end;
    assert s.start <= q < s.end;
  }

  lemma OneMore(m: nat, n: nat)
    ensures m * (1 + n) == m + m * n
  {
  }

  /** A redaction is as long as the kept elements and the markers together. */
  lemma {:induction false} LengthIsTally<T>(v: seq<T>, ps: set<seq<T>>, marker: seq<T>, q: nat)
    requires q <= |v|
    ensures |RedactionFrom(v, ps, marker, q)|
      == Tally(Kept(v, ps), q, |v|) + |marker| * Tally(Opening(v, ps), q, |v|)
    decreases |v| - q
  {
    hide Covered, Joined;
    if q < |v| {
      LengthIsTally(v, ps, marker, q + 1);
      OneMore(|marker|, Tally(Opening(v, ps), q + 1, |v|));
    }
  }

  /** Its heavy elements are the heavy elements kept. */
  lemma {:induction false} HeaviesAreTally<T>(v: seq<T>, ps: set<seq<T>>, marker: seq<T>, heavy: T -> bool, q: nat)
    requires q <= |v| && forall x :: x in marker ==> !heavy(x)
    ensures Heavies(RedactionFrom(v, ps, marker, q), heavy) == Tally(HeavyKept(v, ps, heavy), q, |v|)
    decreases |v| - q
  {
    hide Covered, Joined;
    if q < |v| {
      HeaviesAreTally(v, ps, marker, heavy, q + 1);
      HeaviesConcat(Piece(v, ps, marker, q), RedactionFrom(v, ps, marker, q + 1), heavy);
      NoHeavies(marker, heavy);
      assert Heavies([v[q]], heavy) == if heavy(v[q]) then 1 else 0;
    }
  }

  // ---------------------------------------------------------------- more values cover more

  lemma MatchKept<T>(v: seq<T>, ps: set<seq<T>>, qs: set<seq<T>>, s: Span)
    requires ps <= qs && IsMatch(v, ps, s)
    ensures IsMatch(v, qs, s)
  {
    var p :| p in ps && IsMatchOf(v, p, s);
    assert p in qs;
  }

  lemma MoreCovered<T>(v: seq<T>, ps: set<seq<T>>, qs: set<seq<T>>, q: nat)
    requires ps <= qs
    ensures Covered(v, ps, q) ==> Covered(v, qs, q)
    ensures Joined(v, ps, q) ==> Joined(v, qs, q)
  {
    hide IsMatch;
    if Covered(v, ps, q) {
      var s :| IsMatch(v, ps, s) && s.start <= q < s.end;
      MatchKept(v, ps, qs, s);
    }
    if Joined(v, ps, q) {
      var s :| IsMatch(v, ps, s) && s.start < q < s.end;
      MatchKept(v, ps, qs, s);
    }
  }

  /** A match of the larger set is one of the smaller, or of a further value. */
  lemma MatchSplits<T>(v: seq<T>, ps: set<seq<T>>, qs: set<seq<T>>, s: Span)
    requires ps <= qs && IsMatch(v, qs, s)
    ensures IsMatch(v, ps, s) || IsMatch(v, qs - ps, s)
  {
    var p :| p in qs && IsMatchOf(v, p, s);
    assert p in ps || p in qs - ps;
  }

  /** The opening of a position's group, and the group that runs from there to it. */
  lemma {:induction false} GroupRuns<T>(v: seq<T>, ps: set<seq<T>>, q: nat) returns (o: nat)
    requires Covered(v, ps, q)
    ensures o <= q && OpensGroup(v, ps, o)
    ensures forall k :: o < k <= q ==> Joined(v, ps, k)
    decreases q
  {
    if !Joined(v, ps, q) {
      o := q;
    } else {
      var s :| IsMatch(v, ps, s) && s.start < q < s.end;
      assert Covered(v, ps, q - 1);
      o := GroupRuns(v, ps, q - 1);
    }
  }

  // ---------------------------------------------------------------- counting the markers

  /** Some position of every match of a further value is covered already. */
  ghost predicate Anchored<T>(v: seq<T>, ps: set<seq<T>>, qs: set<seq<T>>) {
    forall s :: IsMatch(v, qs - ps, s) ==> exists h :: s.start <= h < s.end && Covered(v, ps, h)
  }

  /** A group that runs on past the cut before `q` opens a group of `ps` at `k`. */
  ghost predicate RunsTo<T>(v: seq<T>, ps: set<seq<T>>, qs: set<seq<T>>, q: nat, k: nat) {
    && q <= k < |v| && OpensGroup(v, ps, k)
    && (forall j :: q <= j <= k ==> Joined(v, qs, j))
  }

  ghost predicate HasOpening<T>(v: seq<T>, ps: set<seq<T>>, qs: set<seq<T>>, q: nat) {
    exists k :: RunsTo(v, ps, qs, q, k)
  }

  /** Every group of the larger set opens a group of the smaller one somewhere. */
  lemma OpeningInside<T>(v: seq<T>, ps: set<seq<T>>, qs: set<seq<T>>, q: nat) returns (k: nat)
    requires ps <= qs && Anchored(v, ps, qs) && OpensGroup(v, qs, q)
    ensures q <= k < |v| && OpensGroup(v, ps, k)
    ensures forall j :: q < j <= k ==> Joined(v, qs, j)
  {
    hide IsMatch;
    var s :| IsMatch(v, qs, s) && s.start <= q < s.end;
    MatchSplits(v, ps, qs, s);
    MoreCovered(v, ps, qs, q);
    if IsMatch(v, ps, s) {
      k := q;
    } else {
      var h: nat :| s.start <= h < s.end && Covered(v, ps, h);
      k := GroupRuns(v, ps, h);
      forall j | q < j <= k ensures Joined(v, qs, j) {
        assert s.start < j < s.end;
      }
    }
    SpansInside(v, ps, k);
  }

  lemma {:induction false} NoMoreMarkers<T>(v: seq<T>, ps: set<seq<T>>, qs: set<seq<T>>, q: nat)
    requires ps <= qs && Anchored(v, ps, qs) && q <= |v|
    ensures Tally(Opening(v, qs), q, |v|) + (if HasOpening(v, ps, qs, q) then 1 else 0)
      <= Tally(Opening(v, ps), q, |v|)
    decreases |v| - q
  {
    hide Covered, Joined, Anchored;
    if q < |v| {
      NoMoreMarkers(v, ps, qs, q + 1);
      if OpensGroup(v, qs, q) {
        var k := OpeningInside(v, ps, qs, q);
        if k > q {
          assert RunsTo(v, ps, qs, q + 1, k);
        }
        assert !HasOpening(v, ps, qs, q);
      } else if HasOpening(v, ps, qs, q) {
        var k: nat :| RunsTo(v, ps, qs, q, k);
        if k > q {
          assert RunsTo(v, ps, qs, q + 1, k);
        }
      }
    }
  }

  // ---------------------------------------------------------------- the two results compared

  ghost predicate SamePlaces<T>(v: seq<T>, ps: set<seq<T>>, qs: set<seq<T>>) {
    forall q :: 0 <= q < |v| ==>
      (Covered(v, ps, q) <==> Covered(v, qs, q)) && (Joined(v, ps, q) <==> Joined(v, qs, q))
  }

  lemma {:induction false} SamePlacesSameResult<T>(v: seq<T>, ps: set<seq<T>>, qs: set<seq<T>>, marker: seq<T>, q: nat)
    requires SamePlaces(v, ps, qs) && q <= |v|
    ensures RedactionFrom(v, qs, marker, q) == RedactionFrom(v, ps, marker, q)
    decreases |v| - q
  {
    hide Covered, Joined;
    if q < |v| {
      SamePlacesSameResult(v, ps, qs, marker, q + 1);
    }
  }

  lemma AbsorbedSamePlaces<T>(v: seq<T>, ps: set<seq<T>>, qs: set<seq<T>>)
    requires ps <= qs
    ensures AllAbsorbed(v, ps, qs) ==> SamePlaces(v, ps, qs)
  {
    hide IsMatch;
    if AllAbsorbed(v, ps, qs) {
      forall q | 0 <= q < |v|
        ensures (Covered(v, ps, q) <==> Covered(v, qs, q)) && (Joined(v, ps, q) <==> Joined(v, qs, q))
      {
        MoreCovered(v, ps, qs, q);
        if s :| IsMatch(v, qs, s) && s.start <= q < s.end {
          MatchSplits(v, ps, qs, s);
        }
        if s :| IsMatch(v, qs, s) && s.start < q < s.end {
          MatchSplits(v, ps, qs, s);
        }
      }
    }
  }

  lemma SamePlacesAbsorbed<T>(v: seq<T>, ps: set<seq<T>>, qs: set<seq<T>>)
    requires ps <= qs && SamePlaces(v, ps, qs)
    ensures AllAbsorbed(v, ps, qs)
  {
    hide IsMatch;
    forall s | IsMatch(v, qs - ps, s) ensures Absorbed(v, ps, s) {
      MatchKept(v, qs - ps, qs, s);
      forall q | s.start <= q < s.end ensures Covered(v, ps, q) && (s.start < q ==> Joined(v, ps, q)) {
        assert Covered(v, qs, q);
        SpansInside(v, qs, q);
        assert s.start < q ==> Joined(v, qs, q);
      }
    }
  }

  /** Equal heavy elements: every heavy element that is covered now was covered before. */
  lemma SameHeavies<T>(v: seq<T>, ps: set<seq<T>>, qs: set<seq<T>>, marker: seq<T>, heavy: T -> bool, q: nat)
    requires ps <= qs && (forall x :: x in marker ==> !heavy(x))
    requires Redaction(v, qs, marker) == Redaction(v, ps, marker)
    requires q < |v| && heavy(v[q]) && Covered(v, qs, q)
    ensures Covered(v, ps, q)
  {
    HeaviesAreTally(v, ps, marker, heavy, 0);
    HeaviesAreTally(v, qs, marker, heavy, 0);
    var a, b := HeavyKept(v, qs, heavy), HeavyKept(v, ps, heavy);
    forall k: nat | 0 <= k < |v| && a(k) ensures b(k) {
      MoreCovered(v, ps, qs, k);
    }
    TallyMonotone(a, b, 0, |v|);
    assert a(q) == b(q);
  }

  /** Equal lengths on top of that: nothing else was lost either. */
  lemma SameLengthSamePlaces<T>(v: seq<T>, ps: set<seq<T>>, qs: set<seq<T>>, marker: seq<T>)
    requires ps <= qs && marker != [] && Anchored(v, ps, qs)
    requires |Redaction(v, qs, marker)| == |Redaction(v, ps, marker)|
    ensures SamePlaces(v, ps, qs)
  {
    hide Covered, Joined, Anchored, RedactionFrom;
    LengthIsTally(v, ps, marker, 0);
    LengthIsTally(v, qs, marker, 0);
    forall k: nat | 0 <= k < |v| && Kept(v, qs)(k) ensures Kept(v, ps)(k) {
      MoreCovered(v, ps, qs, k);
    }
    TallyMonotone(Kept(v, qs), Kept(v, ps), 0, |v|);
    NoMoreMarkers(v, ps, qs, 0);
    SumsAgree(Tally(Kept(v, qs), 0, |v|), Tally(Kept(v, ps), 0, |v|),
              Tally(Opening(v, qs), 0, |v|), Tally(Opening(v, ps), 0, |v|), |marker|);
    forall k: nat | 0 <= k < |v| && Opening(v, qs)(k) ensures Opening(v, ps)(k) {
      MoreCovered(v, ps, qs, k);
      assert Kept(v, qs)(k) == Kept(v, ps)(k);
    }
    TallyMonotone(Opening(v, qs), Opening(v, ps), 0, |v|);
    forall q | 0 <= q < |v|
      ensures (Covered(v, ps, q) <==> Covered(v, qs, q)) && (Joined(v, ps, q) <==> Joined(v, qs, q))
    {
      assert Kept(v, qs)(q) == Kept(v, ps)(q);
      assert Opening(v, qs)(q) == Opening(v, ps)(q);
      if Joined(v, ps, q) {
        JoinedIsCovered(v, ps, q);
      }
      if Joined(v, qs, q) {
        JoinedIsCovered(v, qs, q);
      }
    }
  }

  lemma Distributes(m: nat, c: nat, e: nat)
    ensures m * (c + e) == m * c + m * e
  {
  }

  lemma AtLeastFactor(m: nat, e: nat)
    requires m > 0
    ensures m * e >= e
  {
  }

  lemma SumsAgree(a: nat, b: nat, c: nat, d: nat, m: nat)
    requires a <= b && c <= d && m > 0 && a + m * c == b + m * d
    ensures a == b && c == d
  {
    Distributes(m, c, d - c);
    AtLeastFactor(m, d - c);
  }

  /** Registering further values, each with an element that the marker does not have, changes
      the result exactly when one of them occurs outside every group of the values there were. */
  lemma SameRedactionExactly<T>(v: seq<T>, ps: set<seq<T>>, qs: set<seq<T>>, marker: seq<T>, heavy: T -> bool)
    requires ps <= qs && marker != [] && (forall x :: x in marker ==> !heavy(x))
    requires forall p :: p in qs - ps ==> exists x :: x in p && heavy(x)
    ensures Redaction(v, qs, marker) == Redaction(v, ps, marker) <==> AllAbsorbed(v, ps, qs)
  {
    hide Covered, Joined, RedactionFrom;
    if Redaction(v, qs, marker) == Redaction(v, ps, marker) {
      forall s | IsMatch(v, qs - ps, s) ensures exists h :: s.start <= h < s.end && Covered(v, ps, h) {
        var h := HeavyPosition(v, qs - ps, s, heavy);
        MatchKept(v, qs - ps, qs, s);
        CoveredBy(v, qs, s, h);
        SameHeavies(v, ps, qs, marker, heavy, h);
      }
      SameLengthSamePlaces(v, ps, qs, marker);
      SamePlacesAbsorbed(v, ps, qs);
    } else if AllAbsorbed(v, ps, qs) {
      AbsorbedSamePlaces(v, ps, qs);
      SamePlacesSameResult(v, ps, qs, marker, 0);
    }
  }

  lemma CoveredBy<T>(v: seq<T>, ps: set<seq<T>>, s: Span, q: nat)
    requires IsMatch(v, ps, s) && s.start <= q < s.end
    ensures Covered(v, ps, q)
  {
  }

  lemma HeavyPosition<T>(v: seq<T>, extra: set<seq<T>>, s: Span, heavy: T -> bool) returns (h: nat)
    requires IsMatch(v, extra, s) && forall p :: p in extra ==> exists x :: x in p && heavy(x)
    ensures s.start <= h < s.end && h < |v| && heavy(v[h])
  {
    var p :| p in extra && IsMatchOf(v, p, s);
    var x :| x in p && heavy(x);
    var i :| 0 <= i < |p| && p[i] == x;
    assert v[s.start..s.start + |p|][i] == x;
    h := s.start + i;
  }
}
