/** What the dispatcher makes of an offer: when it is queued, that the queue keeps its bound, what
    alone changes a fate, and that a burst within the bound is delivered in order. */
module EventRuns {
  import opened Basics
  import opened EventDelivery

  // ---------------------------------------------------------------- one offer

  /** An offer is queued exactly when the dispatcher is open, the event could be prepared and there
      is room; it is refused otherwise, and the refusal is reported if it can be shown. */
  lemma OfferedExactly(s: Dispatcher, preparation: Option<Problem>)
    ensures var u := Take(s, Emits(preparation));
      && |u.fates| == |s.fates| + 1 && u.fates[..|s.fates|] == s.fates
      && (u.fates[|s.fates|] == Queued <==> s.accepting && preparation == None && |s.queue| < s.capacity)
      && (u.fates[|s.fates|] == Refused(SINK_CLOSED) <== !s.accepting)
      && (u.fates[|s.fates|] == Refused(BUFFER_FULL) <== s.accepting && preparation == None && |s.queue| >= s.capacity)
      && (s.accepting && preparation.Some? ==> u.fates[|s.fates|] == Refused(preparation.value))
      && u.queue == (if u.fates[|s.fates|] == Queued then s.queue + [Offer(|s.fates|)] else s.queue)
      && u.reports == (if u.fates[|s.fates|] == Queued || (preparation.Some? && s.accepting && !Diagnosable(preparation.value))
                       then s.reports else s.reports + [|s.fates|])
      && u.attempts == s.attempts && u.closer == s.closer && u.accepting == s.accepting
      && (u.fates[|s.fates|] == Queued ==> u.worker == Waiting || u.worker.Attempting?)
  {
    assert (s.fates + [Queued])[..|s.fates|] == s.fates;
  }

  /** The message of a diagnostic: a sandbox error that shows something is shown, every other is
      named. */
  lemma MessageExactly(p: Problem, text: string)
    ensures Diagnose(p) == Message(text) <==>
      if p.domain && p.shown.Raises? then false
      else if p.domain && p.shown.text != "" then text == p.shown.text
      else text == "event delivery failed (" + p.typeName + ")"
  {
    if p.domain && p.shown.Says? && p.shown.text == "" {
      assert Diagnose(p) == Message("event delivery failed (" + p.typeName + ")");
    }
  }

  // ---------------------------------------------------------------- the bound of the queue

  ghost predicate Roomy(s: Dispatcher) {
    |s.queue| <= s.capacity || s.queue == [Stop]
  }

  lemma RoomyStep(s: Dispatcher, e: Event)
    requires Inv(s) && Roomy(s) && Enabled(s, e)
    ensures Roomy(Take(s, e)) && Take(s, e).capacity == s.capacity
  {
    hide Drain, LoseFirst, Tickets, QueueAgrees, AttemptsAgree, ReportsAgree;
  }

  lemma {:induction false} RoomyRun(s: Dispatcher, events: seq<Event>)
    requires Inv(s) && Roomy(s) && Legal(s, events)
    ensures Roomy(After(s, events)) && After(s, events).capacity == s.capacity
    decreases |events|
  {
    hide Inv, Roomy, Take;
    if events != [] {
      RoomyStep(s, events[0]);
      InvStep(s, events[0]);
      RoomyRun(Take(s, events[0]), events[1..]);
    }
  }

  lemma {:induction false} TicketsFit(queue: seq<Item>)
    ensures |Tickets(queue)| <= |queue|
  {
    if queue != [] {
      TicketsFit(queue[1..]);
    }
  }

  /** In no run do more offers wait than the queue was made for. */
  lemma QueueWithinCapacity(capacity: nat, events: seq<Event>)
    requires Legal(Fresh(capacity), events)
    ensures |Tickets(After(Fresh(capacity), events).queue)| <= capacity
  {
    hide Legal, After, Inv;
    var s := After(Fresh(capacity), events);
    FreshInv(capacity);
    RoomyRun(Fresh(capacity), events);
    TicketsFit(s.queue);
    if s.queue == [Stop] {
      assert [Stop][1..] == [];
    }
  }

  lemma FreshInv(capacity: nat)
    ensures Inv(Fresh(capacity))
  {
  }

  // ---------------------------------------------------------------- what changes a fate

  /** Of the offers made so far, a step changes the fate of the one it is about: taking a queued
      one to the sink, the sink's answer, or giving up what is queued when an answer can neither
      be shown nor be given. */
  lemma FatesChangeExactly(s: Dispatcher, e: Event, t: Ticket, error: Problem)
    requires Inv(s) && Enabled(s, e) && t < |s.fates|
    ensures var u := Take(s, e);
      && |u.fates| >= |s.fates|
      && (u.fates[t] == AtSink && s.fates[t] != AtSink <==> e == WorkerTakes && s.queue[0] == Offer(t))
      && (u.fates[t] == Delivered && s.fates[t] != Delivered <==> e == SinkReturns && s.worker == Attempting(t))
      && (u.fates[t] == Failed(error) && s.fates[t] != Failed(error) <==> e == SinkFails(error) && s.worker == Attempting(t))
      && (u.fates[t] == Drained && s.fates[t] != Drained <==>
            e.SinkFails? && !Diagnosable(e.error) && !Speechless(e.error) && s.fates[t] == Queued)
      && (u.fates[t] == Lost && s.fates[t] != Lost <==>
            e.SinkFails? && Speechless(e.error) && s.queue != [] && s.queue[0] == Offer(t))
      && (u.fates[t].Refused? <==> s.fates[t].Refused?)
      && (u.fates[t] == Queued ==> s.fates[t] == Queued)
  {
    hide AttemptsAgree, ReportsAgree;
    if e.SinkFails? {
      FailureChanges(s, e.error, t);
    } else if e.WorkerTakes? {
      FirstTicket(s.queue);
      assert s.queue[0].ticket in Tickets(s.queue);
    }
  }

  lemma FailureChanges(s: Dispatcher, error: Problem, t: Ticket)
    requires Inv(s) && Enabled(s, SinkFails(error)) && t < |s.fates|
    ensures var fates := Take(s, SinkFails(error)).fates;
      && |fates| == |s.fates|
      && fates[t] ==
           if s.worker == Attempting(t) then Failed(error)
           else if Diagnosable(error) then s.fates[t]
           else if !Speechless(error) then if s.fates[t] == Queued then Drained else s.fates[t]
           else if s.queue != [] && s.queue[0] == Offer(t) then Lost
           else s.fates[t]
  {
    hide AttemptsAgree, ReportsAgree;
    var w := s.worker.ticket;
    var failed := s.fates[w := Failed(error)];
    assert s.fates[w] == AtSink && w !in Tickets(s.queue);
    DrainEffect(failed, s.queue, t);
    OffersOnly(s);
    if s.queue != [] {
      FirstTicket(s.queue);
      assert s.queue[0].ticket in Tickets(s.queue);
    }
  }

  // ---------------------------------------------------------------- a burst

  function Copies(e: Event, n: nat): (r: seq<Event>)
    ensures |r| == n && forall i :: 0 <= i < n ==> r[i] == e
  {
    seq(n, _ => e)
  }

  function Offers(from: nat, to: nat): (r: seq<Item>)
    requires from <= to
    ensures |r| == to - from && forall i :: 0 <= i < |r| ==> r[i] == Offer(from + i)
  {
    seq(to - from, i requires 0 <= i => Offer(from + i))
  }

  /** The worker delivers what is queued, one offer after the other. */
  function Deliveries(n: nat): (r: seq<Event>)
  {
    if n == 0 then [] else [WorkerTakes, SinkReturns] + Deliveries(n - 1)
  }

  /** The first `made` of the offers are made, the first `given` of them delivered. */
  function Halfway(capacity: nat, made: nat, given: nat): (s: Dispatcher)
    requires given <= made
  {
    Dispatcher(
      capacity, true, Offers(given, made), if made == 0 then Absent else Waiting, Idle,
      seq(made, i => if i < given then Delivered else Queued), seq(given, i => i), [])
  }

  lemma {:induction false} LegalConcat(s: Dispatcher, a: seq<Event>, b: seq<Event>)
    requires Legal(s, a) && Legal(After(s, a), b)
    ensures Legal(s, a + b) && After(s, a + b) == After(After(s, a), b)
    decreases |a|
  {
    hide Take, Enabled;
    if a == [] {
      assert a + b == b;
    } else {
      assert (a + b)[0] == a[0] && (a + b)[1..] == a[1..] + b;
      LegalConcat(Take(s, a[0]), a[1..], b);
    }
  }

  lemma OneStep(s: Dispatcher, e: Event, more: seq<Event>)
    requires Enabled(s, e) && Legal(Take(s, e), more)
    ensures Legal(s, [e] + more) && After(s, [e] + more) == After(Take(s, e), more)
  {
    assert ([e] + more)[1..] == more;
  }

  lemma MakesOne(capacity: nat, made: nat)
    requires made < capacity
    ensures Enabled(Halfway(capacity, made, 0), Emits(None))
    ensures Take(Halfway(capacity, made, 0), Emits(None)) == Halfway(capacity, made + 1, 0)
  {
    var s, u := Halfway(capacity, made, 0), Halfway(capacity, made + 1, 0);
    assert u.queue == s.queue + [Offer(made)];
    assert u.fates == s.fates + [Queued];
    assert s.attempts == [] && u.attempts == [];
  }

  lemma GivesOne(capacity: nat, made: nat, given: nat)
    requires given < made
    ensures var s := Halfway(capacity, made, given);
      && Enabled(s, WorkerTakes) && Enabled(Take(s, WorkerTakes), SinkReturns)
      && Take(Take(s, WorkerTakes), SinkReturns) == Halfway(capacity, made, given + 1)
  {
    var s, u := Halfway(capacity, made, given), Halfway(capacity, made, given + 1);
    assert s.queue[0] == Offer(given) && s.queue[1..] == u.queue;
    assert s.fates[given := AtSink][given := Delivered] == u.fates;
    assert s.attempts + [given] == u.attempts;
  }

  lemma {:induction false} AllMade(capacity: nat, made: nat, n: nat)
    requires made + n <= capacity
    ensures Legal(Halfway(capacity, made, 0), Copies(Emits(None), n))
    ensures After(Halfway(capacity, made, 0), Copies(Emits(None), n)) == Halfway(capacity, made + n, 0)
    decreases n
  {
    hide Take, Enabled, Halfway;
    if n > 0 {
      MakesOne(capacity, made);
      AllMade(capacity, made + 1, n - 1);
      OneStep(Halfway(capacity, made, 0), Emits(None), Copies(Emits(None), n - 1));
      assert Copies(Emits(None), n) == [Emits(None)] + Copies(Emits(None), n - 1);
    }
  }

  lemma {:induction false} AllGiven(capacity: nat, made: nat, given: nat)
    requires given <= made
    ensures Legal(Halfway(capacity, made, given), Deliveries(made - given))
    ensures After(Halfway(capacity, made, given), Deliveries(made - given)) == Halfway(capacity, made, made)
    decreases made - given
  {
    hide Take, Enabled, Halfway;
    if given < made {
      var s := Halfway(capacity, made, given);
      var more := Deliveries(made - (given + 1));
      GivesOne(capacity, made, given);
      AllGiven(capacity, made, given + 1);
      OneStep(Take(s, WorkerTakes), SinkReturns, more);
      OneStep(s, WorkerTakes, [SinkReturns] + more);
      assert [WorkerTakes, SinkReturns] + more == [WorkerTakes] + ([SinkReturns] + more);
    }
  }

  const CLOSE := [CloseCalled, CloserStarts, CloserJoins, WorkerStops, CloserEnds]

  lemma CloseStarts(s: Dispatcher, s1: Dispatcher, s2: Dispatcher)
    requires s.accepting && s.closer == Idle && s.worker == Waiting
    requires s1 == s.(accepting := false, closer := Requested) && s2 == s1.(closer := Joining)
    ensures Enabled(s, CloseCalled) && Take(s, CloseCalled) == s1
    ensures Enabled(s1, CloserStarts) && Take(s1, CloserStarts) == s2
  {
  }

  lemma CloseStops(s: Dispatcher, s1: Dispatcher, s2: Dispatcher, s3: Dispatcher)
    requires s.closer == Joining && s.queue == [] && s.worker == Waiting
    requires s1 == s.(queue := [Stop], closer := Stopping)
    requires s2 == s1.(queue := [], worker := Done) && s3 == s2.(closer := Over)
    ensures Enabled(s, CloserJoins) && Take(s, CloserJoins) == s1
    ensures Enabled(s1, WorkerStops) && Take(s1, WorkerStops) == s2
    ensures Enabled(s2, CloserEnds) && Take(s2, CloserEnds) == s3
  {
    assert s.queue + [Stop] == [Stop];
    assert [Stop][1..] == [];
  }

  /** What close comes to when nothing is queued and the worker waits. */
  lemma ClosesIdle(s: Dispatcher)
    requires s.accepting && s.closer == Idle && s.queue == [] && s.worker == Waiting
    ensures Legal(s, CLOSE)
    ensures After(s, CLOSE) == s.(accepting := false, closer := Over, worker := Done)
  {
    hide Take, Enabled;
    var s1 := s.(accepting := false, closer := Requested);
    var s2 := s1.(closer := Joining);
    var s3 := s2.(queue := [Stop], closer := Stopping);
    var s4 := s3.(queue := [], worker := Done);
    var s5 := s4.(closer := Over);
    CloseStarts(s, s1, s2);
    CloseStops(s2, s3, s4, s5);
    RunThrough([s, s1, s2, s3, s4, s5], CLOSE);
  }

  /** A burst of any size within the bound can be delivered whole, in the order it was made, and
      closed after; the offer past the bound is refused as one too many. */
  lemma BurstIsDelivered(capacity: nat, n: nat)
    requires 0 < n <= capacity
    ensures var events := Copies(Emits(None), n) + Deliveries(n) + CLOSE;
      && Legal(Fresh(capacity), events)
      && var s := After(Fresh(capacity), events);
      && |s.fates| == n && |s.attempts| == n && s.reports == [] && s.closer == Over
      && forall t :: 0 <= t < n ==> s.fates[t] == Delivered && s.attempts[t] == t
  {
    hide Take, Enabled, Legal, After;
    assert Fresh(capacity) == Halfway(capacity, 0, 0);
    AllMade(capacity, 0, n);
    AllGiven(capacity, n, 0);
    ClosesIdle(Halfway(capacity, n, n));
    LegalConcat(Fresh(capacity), Copies(Emits(None), n), Deliveries(n));
    LegalConcat(Fresh(capacity), Copies(Emits(None), n) + Deliveries(n), CLOSE);
  }

  lemma OneTooMany(capacity: nat)
    ensures var events := Copies(Emits(None), capacity + 1);
      && Legal(Fresh(capacity), events)
      && var s := After(Fresh(capacity), events);
      && |s.fates| == capacity + 1 && s.fates[capacity] == Refused(BUFFER_FULL) && s.reports == [capacity]
      && forall t :: 0 <= t < capacity ==> s.fates[t] == Queued
  {
    hide Take, Enabled, Legal, After;
    assert Fresh(capacity) == Halfway(capacity, 0, 0);
    AllMade(capacity, 0, capacity);
    var s := Halfway(capacity, capacity, 0);
    OverflowsOne(s);
    NothingToDo(Take(s, Emits(None)));
    OneStep(s, Emits(None), []);
    LegalConcat(Fresh(capacity), Copies(Emits(None), capacity), [Emits(None)] + []);
    assert Copies(Emits(None), capacity + 1) == Copies(Emits(None), capacity) + ([Emits(None)] + []);
  }

  lemma OverflowsOne(s: Dispatcher)
    requires s.accepting && |s.queue| >= s.capacity
    ensures Enabled(s, Emits(None))
    ensures Take(s, Emits(None)).fates == s.fates + [Refused(BUFFER_FULL)] && Take(s, Emits(None)).reports == s.reports + [|s.fates|]
  {
    assert Diagnosable(BUFFER_FULL);
  }

  lemma NothingToDo(s: Dispatcher)
    ensures Legal(s, []) && After(s, []) == s
  {
  }
}
