/** The bounded in-memory sink: accepts an event only with a strictly larger sequence than the
    last accepted one of the same session, and only within its count and byte bounds. */
module EventSink {
  import opened Basics

  type Session = nat
  datatype Event = Event(session: Session, sequence: nat, size: nat)

  datatype Refusal = SinkClosed | OutOfSequence | BufferLimit

  datatype Sink = Sink(maxEvents: nat, maxBytes: nat, events: seq<Event>, closed: bool)

  function PayloadBytes(events: seq<Event>): nat {
    if events == [] then 0 else PayloadBytes(events[..|events| - 1]) + events[|events| - 1].size
  }

  /** The sequence of the last accepted event of `session`. */
  function LastSequence(events: seq<Event>, session: Session): Option<nat> {
    if events == [] then None
    else if events[|events| - 1].session == session then Some(events[|events| - 1].sequence)
    else LastSequence(events[..|events| - 1], session)
  }

  function EmitRefusal(s: Sink, e: Event): Option<Refusal> {
    var last := LastSequence(s.events, e.session);
    if s.closed then Some(SinkClosed)
    else if last.Some? && e.sequence <= last.value then Some(OutOfSequence)
    else if |s.events| + 1 > s.maxEvents || PayloadBytes(s.events) + e.size > s.maxBytes then Some(BufferLimit)
    else None
  }

  function Emit(s: Sink, e: Event): Sink {
    if EmitRefusal(s, e).Some? then s else s.(events := s.events + [e])
  }

  /** Both bounds hold, and each session's accepted sequences increase strictly. */
  ghost predicate Bounded(s: Sink) {
    && |s.events| <= s.maxEvents && PayloadBytes(s.events) <= s.maxBytes
    && forall i, j | 0 <= i < j < |s.events| && s.events[i].session == s.events[j].session
        :: s.events[i].sequence < s.events[j].sequence
  }

  lemma {:induction false} LastIsLargest(events: seq<Event>, session: Session)
    requires forall i, j | 0 <= i < j < |events| && events[i].session == events[j].session
      :: events[i].sequence < events[j].sequence
    ensures LastSequence(events, session) == None ==> forall i :: 0 <= i < |events| ==> events[i].session != session
    ensures var last := LastSequence(events, session);
      last.Some? ==> forall i :: 0 <= i < |events| && events[i].session == session ==> events[i].sequence <= last.value
  {
    if events != [] {
      var n := |events| - 1;
      if events[n].session != session {
        LastIsLargest(events[..n], session);
      }
    }
  }

  lemma {:induction false} LastIsThere(events: seq<Event>, session: Session) returns (i: nat)
    requires LastSequence(events, session).Some?
    ensures i < |events| && events[i].session == session && events[i].sequence == LastSequence(events, session).value
  {
    i := |events| - 1;
    if events[i].session != session {
      i := LastIsThere(events[..i], session);
    }
  }

  /** One of the collected events of the same session is not before this one. */
  predicate Overtaken(s: Sink, e: Event) {
    exists i :: 0 <= i < |s.events| && s.events[i].session == e.session && s.events[i].sequence >= e.sequence
  }

  /** What the sink answers: closed first, then the order within the session, then the bounds. */
  lemma AnswersExactly(s: Sink, e: Event, refusal: Option<Refusal>)
    requires Bounded(s)
    ensures EmitRefusal(s, e) == refusal <==>
      if s.closed then refusal == Some(SinkClosed)
      else if Overtaken(s, e) then refusal == Some(OutOfSequence)
      else if |s.events| == s.maxEvents || PayloadBytes(s.events) + e.size > s.maxBytes then refusal == Some(BufferLimit)
      else refusal == None
  {
    LastIsLargest(s.events, e.session);
    if LastSequence(s.events, e.session).Some? {
      var i := LastIsThere(s.events, e.session);
    }
  }

  lemma EmitKeepsBounds(s: Sink, e: Event)
    requires Bounded(s)
    ensures Bounded(Emit(s, e))
  {
    LastIsLargest(s.events, e.session);
    assert (s.events + [e])[..|s.events|] == s.events;
  }

  lemma Appended(events: seq<Event>, e: Event)
    ensures PayloadBytes(events + [e]) == PayloadBytes(events) + e.size
    ensures forall s :: LastSequence(events + [e], s) == if s == e.session then Some(e.sequence) else LastSequence(events, s)
  {
    assert (events + [e])[..|events|] == events;
  }

  class InMemoryEventSink {
    const maxEvents: nat
    const maxPayloadBytes: nat
    var events: seq<Event>
    var payloadBytes: nat
    var lastSequences: map<Session, nat>
    var closed: bool

    function Value(): Sink
      reads this
    {
      Sink(maxEvents, maxPayloadBytes, events, closed)
    }

    /** The running totals agree with the collected events. */
    ghost predicate Valid()
      reads this
    {
      && payloadBytes == PayloadBytes(events)
      && (forall s :: LastSequence(events, s) == if s in lastSequences then Some(lastSequences[s]) else None)
      && Bounded(Value())
    }

    constructor (maxEvents: nat, maxPayloadBytes: nat)
      requires maxEvents > 0 && maxPayloadBytes > 0
      ensures Valid() && Value() == Sink(maxEvents, maxPayloadBytes, [], false)
    {
      this.maxEvents, this.maxPayloadBytes := maxEvents, maxPayloadBytes;
      events, payloadBytes, lastSequences, closed := [], 0, map[], false;
    }

    method Accept(e: Event) returns (refusal: Option<Refusal>)
      requires Valid()
      modifies this
      ensures Valid()
      ensures refusal == EmitRefusal(old(Value()), e)
      ensures Value() == Emit(old(Value()), e)
    {
      hide Bounded, PayloadBytes, LastSequence;
      if closed {
        return Some(SinkClosed);
      }
      if e.session in lastSequences && e.sequence <= lastSequences[e.session] {
        return Some(OutOfSequence);
      }
      if |events| + 1 > maxEvents || payloadBytes + e.size > maxPayloadBytes {
        return Some(BufferLimit);
      }
      EmitKeepsBounds(Value(), e);
      Appended(events, e);
      events := events + [e];
      payloadBytes := payloadBytes + e.size;
      lastSequences := lastSequences[e.session := e.sequence];
      refusal := None;
    }

    method Close()
      requires Valid()
      modifies this
      ensures Valid() && Value() == old(Value()).(closed := true)
    {
      closed := true;
    }
  }

  /** What a sink answers to each of a list of events offered one after another. */
  function Offer(s: Sink, es: seq<Event>): Sink {
    if es == [] then s else Emit(Offer(s, es[..|es| - 1]), es[|es| - 1])
  }

  /** The offers of one session increase strictly; other sessions' may come in between. */
  ghost predicate Increasing(es: seq<Event>, session: Session) {
    forall i, j :: 0 <= i < j < |es| && es[i].session == session && es[j].session == session ==>
      es[i].sequence < es[j].sequence
  }

  /** Everything a sink has accepted of one session was offered before. */
  lemma {:induction false} AcceptedWasOffered(s: Sink, es: seq<Event>, session: Session)
    requires LastSequence(s.events, session) == None
    ensures var last := LastSequence(Offer(s, es).events, session);
      last.Some? ==> exists i :: 0 <= i < |es| && es[i].session == session && es[i].sequence == last.value
  {
    if es != [] {
      var n := |es| - 1;
      var before := Offer(s, es[..n]);
      AcceptedWasOffered(s, es[..n], session);
      Appended(before.events, es[n]);
      var last := LastSequence(before.events, session);
      if last.Some? {
        var i :| 0 <= i < n && es[..n][i].session == session && es[..n][i].sequence == last.value;
        assert es[i] == es[..n][i];
      }
    }
  }

  /** The strict-order check never fires on a session's strictly increasing offers, whatever
      other sessions offer in between and whatever is refused for other reasons. */
  lemma IncreasingOffersAreInSequence(s: Sink, es: seq<Event>, e: Event)
    requires LastSequence(s.events, e.session) == None && Increasing(es + [e], e.session)
    ensures EmitRefusal(Offer(s, es), e) != Some(OutOfSequence)
  {
    AcceptedWasOffered(s, es, e.session);
    var last := LastSequence(Offer(s, es).events, e.session);
    if last.Some? {
      var i :| 0 <= i < |es| && es[i].session == e.session && es[i].sequence == last.value;
      assert (es + [e])[i] == es[i] && (es + [e])[|es|] == e;
    }
  }

  lemma IncreasingPrefix(es: seq<Event>, session: Session, k: nat)
    requires k < |es| && Increasing(es, session)
    ensures Increasing(es[..k] + [es[k]], session)
  {
    assert es[..k] + [es[k]] == es[..k + 1];
  }

  /** The sequences that one session offers, in order. */
  function SequencesOf(es: seq<Event>, session: Session): seq<nat> {
    if es == [] then []
    else
      var last := |es| - 1;
      SequencesOf(es[..last], session) + (if es[last].session == session then [es[last].sequence] else [])
  }

  lemma {:induction false} SequencesOfMember(es: seq<Event>, session: Session, i: nat)
    requires i < |es| && es[i].session == session
    ensures es[i].sequence in SequencesOf(es, session)
  {
    if i < |es| - 1 {
      SequencesOfMember(es[..|es| - 1], session, i);
    }
  }

  ghost predicate Ascending(q: seq<nat>) {
    forall i, j :: 0 <= i < j < |q| ==> q[i] < q[j]
  }

  lemma AscendingPrefix(q: seq<nat>, p: seq<nat>)
    requires Ascending(q) && p <= q
    ensures Ascending(p)
  {
    forall i, j | 0 <= i < j < |p| ensures p[i] < p[j] {
      assert p[i] == q[i] && p[j] == q[j];
    }
  }

  lemma {:induction false} RisingSequences(es: seq<Event>, session: Session)
    requires Ascending(SequencesOf(es, session))
    ensures Increasing(es, session)
  {
    if es != [] {
      var n := |es| - 1;
      var q, before := SequencesOf(es, session), SequencesOf(es[..n], session);
      assert q == before + (if es[n].session == session then [es[n].sequence] else []);
      AscendingPrefix(q, before);
      RisingSequences(es[..n], session);
      forall i, j | 0 <= i < j < |es| && es[i].session == session && es[j].session == session
        ensures es[i].sequence < es[j].sequence
      {
        if j < n {
          assert es[..n][i] == es[i] && es[..n][j] == es[j];
        } else {
          assert es[..n][i] == es[i];
          SequencesOfMember(es[..n], session, i);
          var k :| 0 <= k < |before| && before[k] == es[i].sequence;
          assert q == before + [es[n].sequence];
          assert q[k] == es[i].sequence && q[|before|] == es[n].sequence;
        }
      }
    }
  }
}
