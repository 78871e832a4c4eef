/** Best-effort event dispatch: a bounded queue, one worker and a close that waits for both.
    An offer is known by its ticket, its position among all calls of `emit`; a step runs from
    one suspension point of emit, the worker or the close task to the next. */
module EventDelivery {
  import opened Basics

  type Ticket = nat
  datatype Item = Offer(ticket: Ticket) | Stop
  datatype Worker = Absent | Waiting | Attempting(ticket: Ticket) | Done
  datatype Closer = Idle | Requested | Joining | Stopping | Over

  // ---------------------------------------------------------------- errors and their diagnostics

  /** An exception, as reporting it sees it: whether it is a sandbox error, and what showing it
      as text yields, which may be another exception. */
  datatype Problem = Problem(typeName: string, domain: bool, shown: Shown)
  datatype Shown = Says(text: string) | Raises(error: Problem)

  const SINK_CLOSED := Problem("EventSinkClosed", true, Says("event dispatcher is closed"))
  const BUFFER_FULL := Problem("EventBufferLimitExceeded", true, Says("best-effort event queue is full"))

  /** A message for the handler, or what was raised in its place. */
  datatype Diagnosis = Message(text: string) | Broken(error: Problem)

  predicate Diagnosable(p: Problem) {
    !p.domain || p.shown.Says?
  }

  /** Only sandbox errors are shown; others, and those that show nothing, are named.  So every
      message is one that the diagnostic's own constructor accepts. */
  function Diagnose(p: Problem): (d: Diagnosis)
    ensures d.Message? <==> Diagnosable(p)
    ensures d.Message? ==> d.text != ""
    ensures d.Broken? ==> p.shown == Raises(d.error)
  {
    var named := Message("event delivery failed (" + p.typeName + ")");
    if !p.domain then named
    else
      match p.shown
      case Raises(e) => Broken(e)
      case Says(text) => if text == "" then named else Message(text)
  }

  /** Neither the error can be shown, nor the one that showing it raises. */
  predicate Speechless(p: Problem) {
    Diagnose(p).Broken? && !Diagnosable(Diagnose(p).error)
  }

  // ---------------------------------------------------------------- the state and its steps

  /** What became of an offer.  `Drained` is reported with the worker's own error, `Lost` is
      dropped because that error could not be reported. */
  datatype Fate = Refused(error: Problem) | Queued | AtSink | Delivered | Failed(error: Problem) | Drained | Lost

  datatype Dispatcher = Dispatcher(
    capacity: nat, accepting: bool, queue: seq<Item>, worker: Worker, closer: Closer,
    fates: seq<Fate>,          // one for each call of emit
    attempts: seq<Ticket>,     // in the order the sink was called
    reports: seq<Ticket>)      // in the order the handler was called

  function Fresh(capacity: nat): Dispatcher {
    Dispatcher(capacity, true, [], Absent, Idle, [], [], [])
  }

  datatype Event =
    | Emits(preparation: Option<Problem>)   // None when the event could be prepared
    | WorkerTakes
    | SinkReturns
    | SinkFails(error: Problem)
    | WorkerStops
    | CloseCalled
    | CloserStarts
    | CloserJoins
    | CloserEnds

  predicate Enabled(s: Dispatcher, e: Event) {
    match e
    case Emits(_) => true
    case WorkerTakes => s.worker == Waiting && s.queue != [] && s.queue[0].Offer? && s.queue[0].ticket < |s.fates|
    case SinkReturns => s.worker.Attempting? && s.worker.ticket < |s.fates|
    case SinkFails(_) => s.worker.Attempting? && s.worker.ticket < |s.fates|
    case WorkerStops => s.worker == Waiting && s.queue != [] && s.queue[0] == Stop
    case CloseCalled => true
    case CloserStarts => s.closer == Requested
    case CloserJoins => s.closer == Joining && s.queue == [] && !s.worker.Attempting?
    case CloserEnds => s.closer == Stopping && s.worker == Done
  }

  function Refuse(s: Dispatcher, error: Problem): Dispatcher {
    s.(fates := s.fates + [Refused(error)], reports := if Diagnosable(error) then s.reports + [|s.fates|] else s.reports)
  }

  function EnsureWorker(s: Dispatcher): Dispatcher {
    if s.worker == Absent || s.worker == Done then s.(worker := Waiting) else s
  }

  function Emit(s: Dispatcher, preparation: Option<Problem>): Dispatcher {
    if !s.accepting then Refuse(s, SINK_CLOSED)
    else if preparation.Some? then Refuse(s, preparation.value)
    else
      var t := EnsureWorker(s);
      if |t.queue| >= t.capacity then Refuse(t, BUFFER_FULL)
      else t.(queue := t.queue + [Offer(|t.fates|)], fates := t.fates + [Queued])
  }

  /** The tickets that wait in the queue. */
  function Tickets(queue: seq<Item>): seq<Ticket> {
    if queue == [] then []
    else (if queue[0].Offer? then [queue[0].ticket] else []) + Tickets(queue[1..])
  }

  /** Every queued offer is reported and given up. */
  function Drain(fates: seq<Fate>, queue: seq<Item>): (r: seq<Fate>)
    ensures |r| == |fates|
    decreases |queue|
  {
    if queue == [] then fates
    else Drain(if queue[0].Offer? && queue[0].ticket < |fates| then fates[queue[0].ticket := Drained] else fates, queue[1..])
  }

  /** The queue past its first offer. */
  function PastFirst(queue: seq<Item>): (r: seq<Item>)
    ensures |r| <= |queue|
  {
    if queue == [] then [] else if queue[0].Offer? then queue[1..] else PastFirst(queue[1..])
  }

  /** The first offer is dropped without a report. */
  function LoseFirst(fates: seq<Fate>, queue: seq<Item>): (r: seq<Fate>)
    ensures |r| == |fates|
    decreases |queue|
  {
    if queue == [] then fates
    else if queue[0].Offer? then (if queue[0].ticket < |fates| then fates[queue[0].ticket := Lost] else fates)
    else LoseFirst(fates, queue[1..])
  }

  /** The worker ends with an error of its own, which it reports for every queued offer; when
      that raises too, the offer it was at is dropped and the others stay queued. */
  function GiveUp(s: Dispatcher, own: Problem): Dispatcher {
    if Diagnosable(own) then
      s.(worker := Done, fates := Drain(s.fates, s.queue), reports := s.reports + Tickets(s.queue), queue := [])
    else
      s.(worker := Done, fates := LoseFirst(s.fates, s.queue), queue := PastFirst(s.queue))
  }

  function Take(s: Dispatcher, e: Event): Dispatcher
    requires Enabled(s, e)
  {
    match e
    case Emits(preparation) => Emit(s, preparation)
    case WorkerTakes =>
      var t := s.queue[0].ticket;
      s.(queue := s.queue[1..], worker := Attempting(t), fates := s.fates[t := AtSink], attempts := s.attempts + [t])
    case SinkReturns => s.(worker := Waiting, fates := s.fates[s.worker.ticket := Delivered])
    case SinkFails(error) =>
      var t := s.worker.ticket;
      var failed := s.(fates := s.fates[t := Failed(error)]);
      (match Diagnose(error)
       case Message(_) => failed.(worker := Waiting, reports := s.reports + [t])
       case Broken(own) => GiveUp(failed, own))
    case WorkerStops => s.(queue := s.queue[1..], worker := Done)
    case CloseCalled => if s.closer == Idle then s.(accepting := false, closer := Requested) else s
    case CloserStarts => s.(closer := if s.worker == Absent then Over else Joining)
    case CloserJoins => if s.worker == Done then s.(closer := Over) else s.(queue := s.queue + [Stop], closer := Stopping)
    case CloserEnds => s.(closer := Over)
  }

  // ---------------------------------------------------------------- the invariant

  predicate Rising(ts: seq<Ticket>) {
    forall i, j :: 0 <= i < j < |ts| ==> ts[i] < ts[j]
  }

  predicate Unique(ts: seq<Ticket>) {
    forall i, j :: 0 <= i < j < |ts| ==> ts[i] != ts[j]
  }

  predicate WasAttempted(f: Fate) {
    f == AtSink || f == Delivered || f.Failed?
  }

  predicate WasReported(f: Fate) {
    ((f.Refused? || f.Failed?) && Diagnosable(f.error)) || f == Drained
  }

  /** The queue holds the waiting offers in order, the sink the one being attempted. */
  ghost predicate QueueAgrees(s: Dispatcher) {
    && Rising(Tickets(s.queue))
    && (forall t: Ticket :: t in Tickets(s.queue) <==> t < |s.fates| && s.fates[t] == Queued)
    && (forall t: Ticket :: t < |s.fates| && s.fates[t] == AtSink <==> s.worker == Attempting(t))
  }

  /** What the sink saw, in acceptance order and never twice, before anything still queued. */
  ghost predicate AttemptsAgree(s: Dispatcher) {
    && Rising(s.attempts)
    && (forall t: Ticket :: t in s.attempts <==> t < |s.fates| && WasAttempted(s.fates[t]))
    && (forall a: Ticket, t: Ticket :: a in s.attempts && t in Tickets(s.queue) ==> a < t)
  }

  ghost predicate ReportsAgree(s: Dispatcher) {
    && Unique(s.reports)
    && (forall t: Ticket :: t in s.reports <==> t < |s.fates| && WasReported(s.fates[t]))
  }

  /** No stop marker before the queue was joined, and no worker without one to serve it. */
  ghost predicate ClosingAgrees(s: Dispatcher) {
    && (s.accepting <==> s.closer == Idle)
    && (s.closer != Stopping ==> Stop !in s.queue)
    && (s.closer == Stopping ==> (s.queue == [Stop] && s.worker == Waiting) || (s.queue == [] && s.worker == Done))
    && (s.closer == Over ==> s.queue == [] && (s.worker == Absent || s.worker == Done))
    && (s.worker == Absent ==> s.queue == [])
    && (s.closer == Joining ==> s.worker != Absent)
  }

  ghost predicate Inv(s: Dispatcher) {
    QueueAgrees(s) && AttemptsAgree(s) && ReportsAgree(s) && ClosingAgrees(s)
  }

  // ---------------------------------------------------------------- sequence facts

  lemma {:induction false} TicketsAppend(queue: seq<Item>, item: Item)
    ensures Tickets(queue + [item]) == Tickets(queue) + (if item.Offer? then [item.ticket] else [])
  {
    if queue == [] {
      assert queue + [item] == [item];
      assert [item][1..] == [];
    } else {
      TicketsAppend(queue[1..], item);
      assert (queue + [item])[1..] == queue[1..] + [item];
    }
  }

  lemma {:induction false} DrainEffect(fates: seq<Fate>, queue: seq<Item>, t: Ticket)
    requires t < |fates|
    ensures Drain(fates, queue)[t] == if t in Tickets(queue) then Drained else fates[t]
    decreases |queue|
  {
    if queue != [] {
      var next := if queue[0].Offer? && queue[0].ticket < |fates| then fates[queue[0].ticket := Drained] else fates;
      DrainEffect(next, queue[1..], t);
    }
  }

  lemma FirstTicket(queue: seq<Item>)
    requires queue != [] && queue[0].Offer?
    ensures Tickets(queue) == [queue[0].ticket] + Tickets(queue[1..])
  {
  }

  // ---------------------------------------------------------------- steps

  lemma UniqueAppend(ts: seq<Ticket>, x: Ticket)
    requires Unique(ts) && x !in ts
    ensures Unique(ts + [x]) && forall y: Ticket :: y in ts + [x] <==> y in ts || y == x
  {
    assert forall i :: 0 <= i < |ts| ==> ts[i] in ts;
  }

  lemma RisingAppend(ts: seq<Ticket>, x: Ticket)
    requires Rising(ts) && forall y :: y in ts ==> y < x
    ensures Rising(ts + [x]) && forall y: Ticket :: y in ts + [x] <==> y in ts || y == x
  {
    assert forall i :: 0 <= i < |ts| ==> ts[i] in ts;
  }

  lemma UniqueConcat(a: seq<Ticket>, b: seq<Ticket>)
    requires Unique(a) && Rising(b) && forall x :: x in a ==> x !in b
    ensures Unique(a + b) && forall y: Ticket :: y in a + b <==> y in a || y in b
  {
    assert forall i :: 0 <= i < |a| ==> a[i] in a;
    assert forall i :: 0 <= i < |b| ==> b[i] in b;
  }

  lemma RefuseInv(s: Dispatcher, error: Problem)
    requires Inv(s)
    ensures Inv(Refuse(s, error))
  {
    hide Tickets, Rising, Unique, Diagnosable;
    if Diagnosable(error) {
      UniqueAppend(s.reports, |s.fates|);
    }
  }

  lemma EnsureWorkerInv(s: Dispatcher)
    requires Inv(s) && s.accepting
    ensures Inv(EnsureWorker(s))
  {
    hide Tickets;
  }

  lemma EnqueueInv(s: Dispatcher)
    requires Inv(s) && s.accepting && s.worker != Absent && s.worker != Done
    ensures Inv(s.(queue := s.queue + [Offer(|s.fates|)], fates := s.fates + [Queued]))
  {
    hide Tickets, Rising, Unique;
    TicketsAppend(s.queue, Offer(|s.fates|));
    RisingAppend(Tickets(s.queue), |s.fates|);
  }

  lemma EmitInv(s: Dispatcher, preparation: Option<Problem>)
    requires Inv(s)
    ensures Inv(Emit(s, preparation))
  {
    hide Inv;
    RefuseInv(s, SINK_CLOSED);
    if preparation.Some? {
      RefuseInv(s, preparation.value);
    }
    if s.accepting {
      EnsureWorkerInv(s);
      RefuseInv(EnsureWorker(s), BUFFER_FULL);
      EnqueueInv(EnsureWorker(s));
    }
  }

  lemma TakesInv(s: Dispatcher)
    requires Inv(s) && Enabled(s, WorkerTakes)
    ensures Inv(Take(s, WorkerTakes))
  {
    FirstTicket(s.queue);
    hide Tickets, Rising, Unique;
    var t, all, rest := s.queue[0].ticket, Tickets(s.queue), Tickets(s.queue[1..]);
    assert all[0] == t && all[1..] == rest;
    RisingTail(all);
    assert t in all;
    assert forall x: Ticket :: x in all <==> x == t || x in rest;
    RisingAppend(s.attempts, t);
    TakesAgree(s, Take(s, WorkerTakes), t, rest);
  }

  lemma TakesAgree(s: Dispatcher, u: Dispatcher, t: Ticket, rest: seq<Ticket>)
    requires Inv(s) && s.worker == Waiting && t < |s.fates| && s.fates[t] == Queued
    requires u == s.(queue := u.queue, worker := Attempting(t), fates := s.fates[t := AtSink], attempts := s.attempts + [t])
    requires Tickets(u.queue) == rest && Rising(rest) && Rising(s.attempts + [t])
    requires forall x: Ticket :: x in Tickets(s.queue) <==> x == t || x in rest
    requires forall x: Ticket :: x in rest ==> t < x
    requires forall x: Ticket :: x in s.attempts + [t] <==> x in s.attempts || x == t
    requires Stop in u.queue ==> Stop in s.queue
    requires s.closer != Stopping
    ensures Inv(u)
  {
    hide Tickets, Rising, Unique;
  }

  lemma RisingTail(ts: seq<Ticket>)
    requires ts != [] && Rising(ts)
    ensures Rising(ts[1..]) && forall x: Ticket :: x in ts[1..] ==> ts[0] < x
  {
  }

  lemma ReturnsInv(s: Dispatcher)
    requires Inv(s) && Enabled(s, SinkReturns)
    ensures Inv(Take(s, SinkReturns))
  {
    hide Tickets;
  }

  lemma FailsInv(s: Dispatcher, error: Problem)
    requires Inv(s) && Enabled(s, SinkFails(error)) && Diagnosable(error)
    ensures Inv(Take(s, SinkFails(error)))
  {
    hide Tickets, Rising, Unique, Diagnosable;
    UniqueAppend(s.reports, s.worker.ticket);
  }

  /** An attempt that fails without a report, before anything is done about the queue. */
  ghost predicate FailedSilently(s: Dispatcher, u: Dispatcher, error: Problem) {
    && Inv(s) && s.worker.Attempting? && s.worker.ticket < |s.fates| && !Diagnosable(error)
    && u == s.(fates := s.fates[s.worker.ticket := Failed(error)])
  }

  lemma BreaksInv(s: Dispatcher, u: Dispatcher, error: Problem, own: Problem)
    requires FailedSilently(s, u, error) && Diagnosable(own)
    ensures Inv(GiveUp(u, own))
  {
    forall x | 0 <= x < |u.fates| ensures Drain(u.fates, s.queue)[x] == if x in Tickets(s.queue) then Drained else u.fates[x] {
      DrainEffect(u.fates, s.queue, x);
    }
    assert Tickets([]) == [];
    hide Tickets, Drain, Rising, Unique, ReportsAgree, Diagnosable;
    DrainedReports(s, GiveUp(u, own), error);
  }

  lemma DrainedReports(s: Dispatcher, u: Dispatcher, error: Problem)
    requires Inv(s) && s.worker.Attempting? && s.worker.ticket < |s.fates| && !Diagnosable(error)
    requires u.reports == s.reports + Tickets(s.queue) && |u.fates| == |s.fates|
    requires forall x :: 0 <= x < |s.fates| ==>
               u.fates[x] == if x in Tickets(s.queue) then Drained else s.fates[s.worker.ticket := Failed(error)][x]
    ensures ReportsAgree(u)
  {
    hide Tickets, Rising, Unique, Diagnosable;
    forall x | x in s.reports ensures x !in Tickets(s.queue) {
      assert WasReported(s.fates[x]);
    }
    UniqueConcat(s.reports, Tickets(s.queue));
  }

  lemma OffersOnly(s: Dispatcher)
    requires Inv(s) && s.worker.Attempting?
    ensures Stop !in s.queue && s.closer != Stopping && s.closer != Over
    ensures s.queue != [] ==> s.queue[0].Offer?
  {
    if s.queue != [] {
      assert s.queue[0] in s.queue;
    }
  }

  lemma LosesInv(s: Dispatcher, u: Dispatcher, error: Problem, own: Problem)
    requires FailedSilently(s, u, error) && !Diagnosable(own)
    ensures Inv(GiveUp(u, own))
  {
    OffersOnly(s);
    if s.queue == [] {
      hide Tickets, Rising, Unique, Diagnosable;
    } else {
      hide Tickets, Rising, Unique, Diagnosable, Inv;
      FirstQueued(s);
      LosesFirst(s, u, GiveUp(u, own), error, s.queue[0].ticket, Tickets(s.queue[1..]));
    }
  }

  /** The offer at the front of the queue, and those behind it. */
  lemma FirstQueued(s: Dispatcher)
    requires Inv(s) && s.queue != [] && s.queue[0].Offer?
    ensures var t, rest := s.queue[0].ticket, Tickets(s.queue[1..]);
      && (forall x: Ticket :: x in Tickets(s.queue) <==> x == t || x in rest)
      && Rising(rest) && (forall x: Ticket :: x in rest ==> t < x)
      && t < |s.fates| && s.fates[t] == Queued
      && (Stop in s.queue[1..] ==> Stop in s.queue)
  {
    FirstTicket(s.queue);
    hide Tickets, Unique, AttemptsAgree, ReportsAgree, ClosingAgrees;
    var t, all, rest := s.queue[0].ticket, Tickets(s.queue), Tickets(s.queue[1..]);
    assert all[0] == t && all[1..] == rest;
    RisingTail(all);
    assert t in all;
    assert forall x: Ticket :: x in all <==> x == t || x in rest;
    assert forall item :: item in s.queue[1..] ==> item in s.queue;
  }

  lemma LosesFirst(s: Dispatcher, u: Dispatcher, v: Dispatcher, error: Problem, t: Ticket, rest: seq<Ticket>)
    requires FailedSilently(s, u, error) && s.closer != Stopping && s.closer != Over && Stop !in v.queue
    requires t < |s.fates| && s.fates[t] == Queued
    requires v == u.(worker := Done, fates := u.fates[t := Lost], queue := v.queue)
    requires Tickets(v.queue) == rest && Rising(rest)
    requires forall x: Ticket :: x in Tickets(s.queue) <==> x == t || x in rest
    requires forall x: Ticket :: x in rest ==> t < x
    ensures Inv(v)
  {
    hide Tickets, Rising, Unique, Diagnosable;
  }

  lemma StopsInv(s: Dispatcher)
    requires Inv(s) && Enabled(s, WorkerStops)
    ensures Inv(Take(s, WorkerStops))
  {
    assert s.closer == Stopping && s.queue == [Stop];
    assert Tickets(s.queue) == Tickets(s.queue[1..]);
    hide Tickets;
  }

  lemma CloserInv(s: Dispatcher, e: Event)
    requires Inv(s) && Enabled(s, e)
    requires e.CloseCalled? || e.CloserStarts? || e.CloserJoins? || e.CloserEnds?
    ensures Inv(Take(s, e))
  {
    TicketsAppend(s.queue, Stop);
    hide Tickets;
  }

  lemma SinkFailsInv(s: Dispatcher, error: Problem)
    requires Inv(s) && Enabled(s, SinkFails(error))
    ensures Inv(Take(s, SinkFails(error)))
  {
    hide Inv, GiveUp;
    if Diagnosable(error) {
      FailsInv(s, error);
    } else {
      var own := Diagnose(error).error;
      var u := s.(fates := s.fates[s.worker.ticket := Failed(error)]);
      if Diagnosable(own) {
        BreaksInv(s, u, error, own);
      } else {
        LosesInv(s, u, error, own);
      }
    }
  }

  lemma InvStep(s: Dispatcher, e: Event)
    requires Inv(s) && Enabled(s, e)
    ensures Inv(Take(s, e))
  {
    hide Inv;
    if e.Emits? {
      EmitInv(s, e.preparation);
    } else if e.WorkerTakes? {
      TakesInv(s);
    } else if e.SinkReturns? {
      ReturnsInv(s);
    } else if e.SinkFails? {
      SinkFailsInv(s, e.error);
    } else if e.WorkerStops? {
      StopsInv(s);
    } else {
      CloserInv(s, e);
    }
  }

  // ---------------------------------------------------------------- all runs

  predicate Legal(s: Dispatcher, events: seq<Event>)
    decreases |events|
  {
    events == [] || (Enabled(s, events[0]) && Legal(Take(s, events[0]), events[1..]))
  }

  function After(s: Dispatcher, events: seq<Event>): Dispatcher
    requires Legal(s, events)
    decreases |events|
  {
    if events == [] then s else After(Take(s, events[0]), events[1..])
  }

  lemma {:induction false} RunInv(s: Dispatcher, events: seq<Event>)
    requires Inv(s) && Legal(s, events)
    ensures Inv(After(s, events))
    decreases |events|
  {
    hide Inv;
    if events != [] {
      InvStep(s, events[0]);
      RunInv(Take(s, events[0]), events[1..]);
    }
  }

  ghost predicate Reachable(s: Dispatcher) {
    exists capacity, events :: Legal(Fresh(capacity), events) && s == After(Fresh(capacity), events)
  }

  lemma ReachableInv(s: Dispatcher)
    requires Reachable(s)
    ensures Inv(s)
  {
    var capacity, events :| Legal(Fresh(capacity), events) && s == After(Fresh(capacity), events);
    RunInv(Fresh(capacity), events);
  }

  /** Each offer is attempted at most once and in acceptance order. */
  lemma AttemptedOnceInOrder(s: Dispatcher, i: nat, j: nat)
    requires Reachable(s) && i < j < |s.attempts|
    ensures s.attempts[i] < s.attempts[j]
  {
    ReachableInv(s);
  }

  function Count(ts: seq<Ticket>, t: Ticket): nat {
    multiset(ts)[t]
  }

  lemma {:induction false} UniqueCounts(ts: seq<Ticket>, t: Ticket)
    requires Unique(ts)
    ensures Count(ts, t) == if t in ts then 1 else 0
  {
    if ts != [] {
      assert ts == [ts[0]] + ts[1..];
      UniqueCounts(ts[1..], t);
    }
  }

  /** An offer is reported exactly once if it was refused or failed at the sink with an error
      that can be shown, or was drained, and never otherwise. */
  lemma ReportedExactlyOnce(s: Dispatcher, t: Ticket)
    requires Reachable(s) && t < |s.fates|
    ensures Count(s.reports, t) == if WasReported(s.fates[t]) then 1 else 0
    ensures Count(s.attempts, t) == if WasAttempted(s.fates[t]) then 1 else 0
  {
    ReachableInv(s);
    UniqueCounts(s.reports, t);
    UniqueCounts(s.attempts, t);
  }

  /** When close has returned, nothing that was accepted is left: each accepted offer reached
      the sink, or was reported without reaching it. */
  lemma ClosedMeansSettled(s: Dispatcher, t: Ticket)
    requires Reachable(s) && s.closer == Over && t < |s.fates|
    ensures s.queue == [] && !s.worker.Attempting?
    ensures s.fates[t].Refused? || s.fates[t] == Delivered || s.fates[t].Failed? || s.fates[t] == Drained || s.fates[t] == Lost
    ensures t in s.attempts || t in s.reports || s.fates[t] == Lost || (s.fates[t].Refused? && !Diagnosable(s.fates[t].error))
  {
    ReachableInv(s);
    assert t !in Tickets(s.queue);
  }

  // ---------------------------------------------------------------- when every failure is reported

  predicate IsFinal(f: Fate) {
    f != Queued && f != AtSink
  }

  /** What became of an offer is settled once. */
  lemma FatesAreFinal(s: Dispatcher, e: Event, t: Ticket)
    requires Inv(s) && Enabled(s, e) && t < |s.fates| && IsFinal(s.fates[t])
    ensures t < |Take(s, e).fates| && Take(s, e).fates[t] == s.fates[t]
  {
    assert t !in Tickets(s.queue);
    if e.SinkFails? {
      var u := s.(fates := s.fates[s.worker.ticket := Failed(e.error)]);
      DrainEffect(u.fates, s.queue, t);
      OffersOnly(s);
      if s.queue != [] {
        FirstTicket(s.queue);
        assert s.queue[0].ticket in Tickets(s.queue);
      }
    } else if e.WorkerTakes? {
      FirstTicket(s.queue);
      assert s.queue[0].ticket in Tickets(s.queue);
    }
  }

  /** The offer was given up, or failed without a report. */
  predicate IsDropped(f: Fate) {
    f == Drained || f == Lost || ((f.Refused? || f.Failed?) && !Diagnosable(f.error))
  }

  predicate Orderly(s: Dispatcher) {
    forall t :: 0 <= t < |s.fates| ==> !IsDropped(s.fates[t])
  }

  /** An error that this step raises can be shown.  An offer to a closed dispatcher is never
      prepared, so what preparing it would raise does not matter. */
  predicate CanBeShown(s: Dispatcher, e: Event) {
    && (e.SinkFails? ==> Diagnosable(e.error))
    && (e.Emits? && s.accepting && e.preparation.Some? ==> Diagnosable(e.preparation.value))
  }

  predicate AllShown(s: Dispatcher, events: seq<Event>)
    requires Legal(s, events)
    decreases |events|
  {
    events == [] || (CanBeShown(s, events[0]) && AllShown(Take(s, events[0]), events[1..]))
  }

  lemma OrderlyGoesOn(s: Dispatcher, e: Event)
    requires Orderly(s) && Enabled(s, e) && CanBeShown(s, e)
    ensures Orderly(Take(s, e))
  {
    hide Drain, Tickets, GiveUp, Diagnosable;
    assert Diagnosable(SINK_CLOSED) && Diagnosable(BUFFER_FULL) by { Constants(); }
  }

  lemma Constants()
    ensures Diagnosable(SINK_CLOSED) && Diagnosable(BUFFER_FULL)
  {
  }

  lemma SilenceDrops(s: Dispatcher, e: Event)
    requires Inv(s) && Enabled(s, e) && !CanBeShown(s, e)
    ensures !Orderly(Take(s, e))
  {
    if e.SinkFails? {
      var t, u := s.worker.ticket, s.(fates := s.fates[s.worker.ticket := Failed(e.error)]);
      DrainEffect(u.fates, s.queue, t);
      assert t !in Tickets(s.queue);
      OffersOnly(s);
      if s.queue != [] {
        FirstTicket(s.queue);
        assert s.queue[0].ticket in Tickets(s.queue);
      }
      assert IsDropped(Take(s, e).fates[t]);
    } else {
      assert IsDropped(Take(s, e).fates[|s.fates|]);
    }
  }

  lemma DroppedStays(s: Dispatcher, e: Event)
    requires Inv(s) && Enabled(s, e) && !Orderly(s)
    ensures !Orderly(Take(s, e))
  {
    hide Take, IsFinal, Inv;
    var t :| 0 <= t < |s.fates| && IsDropped(s.fates[t]);
    assert IsFinal(s.fates[t]) by { DroppedIsFinal(s.fates[t]); }
    FatesAreFinal(s, e, t);
  }

  lemma DroppedIsFinal(f: Fate)
    requires IsDropped(f)
    ensures IsFinal(f)
  {
  }

  lemma OrderlyStep(s: Dispatcher, e: Event)
    requires Inv(s) && Enabled(s, e)
    ensures Orderly(Take(s, e)) <==> Orderly(s) && CanBeShown(s, e)
  {
    hide Orderly, Take, Inv, CanBeShown;
    if !CanBeShown(s, e) {
      SilenceDrops(s, e);
    } else if Orderly(s) {
      OrderlyGoesOn(s, e);
    } else {
      DroppedStays(s, e);
    }
  }

  /** Nothing is given up and nothing fails without a report exactly when every error raised in
      the run can be shown. */
  lemma {:induction false} OrderlyRunsReport(s: Dispatcher, events: seq<Event>)
    requires Inv(s) && Legal(s, events)
    ensures Orderly(After(s, events)) <==> Orderly(s) && AllShown(s, events)
    decreases |events|
  {
    hide Orderly, CanBeShown, Take, Inv;
    if events != [] {
      OrderlyStep(s, events[0]);
      InvStep(s, events[0]);
      OrderlyRunsReport(Take(s, events[0]), events[1..]);
    }
  }

  /** `states` are what the events lead through. */
  ghost predicate Leads(states: seq<Dispatcher>, events: seq<Event>) {
    && |states| == |events| + 1
    && forall i :: 0 <= i < |events| ==> Enabled(states[i], events[i]) && Take(states[i], events[i]) == states[i + 1]
  }

  lemma {:induction false} RunThrough(states: seq<Dispatcher>, events: seq<Event>)
    requires Leads(states, events)
    ensures Legal(states[0], events) && After(states[0], events) == states[|events|]
    decreases |events|
  {
    hide Take, Enabled;
    if events != [] {
      RunThrough(states[1..], events[1..]);
    }
  }

  /** Two offers, the first of which fails with an error that cannot be shown: it was attempted
      and is never reported, and the second is given up. */
  lemma UnshownErrorDropsOffers(capacity: nat, error: Problem)
    requires capacity > 0 && !Diagnosable(error) && !Speechless(error)
    ensures var events := [Emits(None), WorkerTakes, Emits(None), SinkFails(error)];
      && Legal(Fresh(capacity), events)
      && var s := After(Fresh(capacity), events);
      && s.fates == [Failed(error), Drained] && s.attempts == [0] && s.reports == [1]
  {
    var s0 := Fresh(capacity);
    var s1 := Dispatcher(capacity, true, [Offer(0)], Waiting, Idle, [Queued], [], []);
    var s2 := Dispatcher(capacity, true, [], Attempting(0), Idle, [AtSink], [0], []);
    var s3 := Dispatcher(capacity, true, [Offer(1)], Attempting(0), Idle, [AtSink, Queued], [0], []);
    var s4 := Dispatcher(capacity, true, [], Done, Idle, [Failed(error), Drained], [0], [1]);
    hide Take, Enabled, Speechless, Diagnosable;
    FirstThree(s0, s1, s2, s3);
    GivesUpOne(s3, s4, error);
    RunThrough([s0, s1, s2, s3, s4], [Emits(None), WorkerTakes, Emits(None), SinkFails(error)]);
  }

  /** An offer is taken and another one waits. */
  lemma FirstThree(s0: Dispatcher, s1: Dispatcher, s2: Dispatcher, s3: Dispatcher)
    requires s0.capacity > 0 && s0 == Fresh(s0.capacity)
    requires s1 == s0.(queue := [Offer(0)], worker := Waiting, fates := [Queued])
    requires s2 == s1.(queue := [], worker := Attempting(0), fates := [AtSink], attempts := [0])
    requires s3 == s2.(queue := [Offer(1)], fates := [AtSink, Queued])
    ensures Enabled(s0, Emits(None)) && Take(s0, Emits(None)) == s1
    ensures Enabled(s1, WorkerTakes) && Take(s1, WorkerTakes) == s2
    ensures Enabled(s2, Emits(None)) && Take(s2, Emits(None)) == s3
  {
  }

  lemma GivesUpOne(s: Dispatcher, u: Dispatcher, error: Problem)
    requires s == Dispatcher(s.capacity, true, [Offer(1)], Attempting(0), Idle, [AtSink, Queued], [0], [])
    requires u == Dispatcher(s.capacity, true, [], Done, Idle, [Failed(error), Drained], [0], [1])
    requires !Diagnosable(error) && !Speechless(error)
    ensures Enabled(s, SinkFails(error)) && Take(s, SinkFails(error)) == u
  {
    var fates := [Failed(error), Queued];
    assert s.queue[1..] == [];
    assert Tickets([]) == [] && Tickets(s.queue) == [1];
    assert Drain(fates, s.queue) == Drain(fates[1 := Drained], []) == [Failed(error), Drained];
  }

  // ---------------------------------------------------------------- close ends

  /** How much is left to do once close was called. */
  function Remaining(s: Dispatcher): nat {
    3 * |s.queue| + (if s.worker.Attempting? then 2 else 0)
    + (match s.closer case Idle => 12 case Requested => 10 case Joining => 8 case Stopping => 2 case Over => 0)
  }

  /** After close was called, every step but another call of emit or close brings it nearer,
      and emitting changes nothing of what is left. */
  lemma ClosingProgresses(s: Dispatcher, e: Event)
    requires Inv(s) && s.closer != Idle && Enabled(s, e)
    ensures Take(s, e).closer != Idle
    ensures e.Emits? || e.CloseCalled? ==> Remaining(Take(s, e)) == Remaining(s)
    ensures !e.Emits? && !e.CloseCalled? ==> Remaining(Take(s, e)) < Remaining(s)
  {
    hide Tickets, Drain, QueueAgrees, AttemptsAgree, ReportsAgree;
  }

  /** Offers are queued and no worker is left to take them. */
  predicate Stranded(s: Dispatcher) {
    s.worker == Done && s.queue != []
  }

  predicate Advances(s: Dispatcher, e: Event) {
    Enabled(s, e) && !e.Emits? && !e.CloseCalled?
  }

  /** The step towards the end of a close. */
  lemma NextStep(s: Dispatcher) returns (e: Event)
    requires Inv(s) && s.closer != Idle && s.closer != Over && !(Stranded(s) && s.closer == Joining)
    ensures Advances(s, e)
  {
    if s.worker.Attempting? {
      assert s.worker == Attempting(s.worker.ticket);
      e := SinkReturns;
    } else if s.closer == Requested {
      e := CloserStarts;
    } else if s.closer == Stopping {
      e := if s.queue == [] then CloserEnds else WorkerStops;
    } else if s.queue == [] {
      e := CloserJoins;
    } else {
      assert s.queue[0] in s.queue && s.queue[0] != Stop;
      FirstTicket(s.queue);
      assert s.queue[0].ticket in Tickets(s.queue);
      e := WorkerTakes;
    }
  }

  /** Until a close is over such a step is possible, exactly unless it joins a queue that was
      stranded. */
  lemma CloseNeverStuck(s: Dispatcher)
    requires Reachable(s) && s.closer != Idle && s.closer != Over
    ensures (exists e :: Advances(s, e)) <==> !(Stranded(s) && s.closer == Joining)
  {
    ReachableInv(s);
    if !(Stranded(s) && s.closer == Joining) {
      var e := NextStep(s);
    }
  }

  /** The queue is stranded exactly when the worker's own error cannot be reported either and
      more than one offer waits, and stays so until the next offer starts a new worker. */
  lemma StrandsExactly(s: Dispatcher, e: Event)
    requires Inv(s) && Enabled(s, e)
    ensures Stranded(Take(s, e)) <==>
      || (e.SinkFails? && Speechless(e.error) && |s.queue| > 1)
      || (Stranded(s) && !(e.Emits? && s.accepting && e.preparation == None))
  {
    hide Tickets, Drain, LoseFirst, QueueAgrees, AttemptsAgree, ReportsAgree;
    if s.worker.Attempting? {
      OffersOnly(s);
    }
  }

  /** Once a close joins a stranded queue it never ends. */
  lemma {:induction false} StrandedForever(s: Dispatcher, events: seq<Event>)
    requires Inv(s) && Stranded(s) && s.closer == Joining && Legal(s, events)
    ensures Stranded(After(s, events)) && After(s, events).closer == Joining
    decreases |events|
  {
    hide Inv, Take, Stranded;
    if events != [] {
      var e := events[0];
      StrandsExactly(s, e);
      JoiningWaits(s, e);
      InvStep(s, e);
      StrandedForever(Take(s, e), events[1..]);
    }
  }

  lemma JoiningWaits(s: Dispatcher, e: Event)
    requires Inv(s) && Stranded(s) && s.closer == Joining && Enabled(s, e)
    ensures Take(s, e).closer == Joining && !s.accepting
  {
    hide Tickets, Drain, LoseFirst, QueueAgrees, AttemptsAgree, ReportsAgree;
  }

  /** Three offers, the first of which fails with an error that cannot be shown, nor can the
      error that showing it raises: a close called meanwhile never ends. */
  lemma SpeechlessErrorStrandsClose(capacity: nat, error: Problem)
    requires capacity > 1 && Speechless(error)
    ensures var events := [Emits(None), WorkerTakes, Emits(None), Emits(None), CloseCalled, SinkFails(error), CloserStarts];
      && Legal(Fresh(capacity), events)
      && var s := After(Fresh(capacity), events);
      && s.fates == [Failed(error), Lost, Queued] && s.reports == [] && Stranded(s) && s.closer == Joining
  {
    var s0 := Fresh(capacity);
    var s1 := Dispatcher(capacity, true, [Offer(0)], Waiting, Idle, [Queued], [], []);
    var s2 := Dispatcher(capacity, true, [], Attempting(0), Idle, [AtSink], [0], []);
    var s3 := Dispatcher(capacity, true, [Offer(1)], Attempting(0), Idle, [AtSink, Queued], [0], []);
    var s4 := Dispatcher(capacity, true, [Offer(1), Offer(2)], Attempting(0), Idle, [AtSink, Queued, Queued], [0], []);
    var s5 := s4.(accepting := false, closer := Requested);
    var s6 := Dispatcher(capacity, false, [Offer(2)], Done, Requested, [Failed(error), Lost, Queued], [0], []);
    var s7 := s6.(closer := Joining);
    hide Take, Enabled, Speechless;
    FirstThree(s0, s1, s2, s3);
    FourthOffer(s3, s4);
    LosesOne(s5, s6, error);
    ClosesOn(s4, s5, s6, s7);
    RunThrough([s0, s1, s2, s3, s4, s5, s6, s7],
      [Emits(None), WorkerTakes, Emits(None), Emits(None), CloseCalled, SinkFails(error), CloserStarts]);
  }

  lemma FourthOffer(s3: Dispatcher, s4: Dispatcher)
    requires s3.capacity > 1 && s3.accepting && s3.worker.Attempting? && s3.queue == [Offer(1)] && |s3.fates| == 2
    requires s4 == s3.(queue := [Offer(1), Offer(2)], fates := s3.fates + [Queued])
    ensures Enabled(s3, Emits(None)) && Take(s3, Emits(None)) == s4
  {
  }

  lemma ClosesOn(s4: Dispatcher, s5: Dispatcher, s6: Dispatcher, s7: Dispatcher)
    requires s4.closer == Idle && s5 == s4.(accepting := false, closer := Requested)
    requires s6.closer == Requested && s6.worker == Done && s7 == s6.(closer := Joining)
    ensures Enabled(s4, CloseCalled) && Take(s4, CloseCalled) == s5
    ensures Enabled(s6, CloserStarts) && Take(s6, CloserStarts) == s7
  {
  }

  lemma LosesOne(s: Dispatcher, u: Dispatcher, error: Problem)
    requires s == Dispatcher(s.capacity, false, [Offer(1), Offer(2)], Attempting(0), Requested, [AtSink, Queued, Queued], [0], [])
    requires u == Dispatcher(s.capacity, false, [Offer(2)], Done, Requested, [Failed(error), Lost, Queued], [0], [])
    requires Speechless(error)
    ensures Enabled(s, SinkFails(error)) && Take(s, SinkFails(error)) == u
  {
    var fates := [Failed(error), Queued, Queued];
    assert s.queue[1..] == [Offer(2)];
    assert LoseFirst(fates, s.queue) == [Failed(error), Lost, Queued];
    assert s.fates[0 := Failed(error)] == fates;
  }

  // ---------------------------------------------------------------- the object

  lemma Unqueue(fates: seq<Fate>, reports: seq<Ticket>, queue: seq<Item>)
    requires queue != []
    ensures var item := queue[0];
      && Drain(fates, queue)
         == Drain(if item.Offer? && item.ticket < |fates| then fates[item.ticket := Drained] else fates, queue[1..])
      && reports + Tickets(queue) == (if item.Offer? then reports + [item.ticket] else reports) + Tickets(queue[1..])
      && LoseFirst(fates, queue)
         == (if !item.Offer? then LoseFirst(fates, queue[1..])
             else if item.ticket < |fates| then fates[item.ticket := Lost] else fates)
      && PastFirst(queue) == if item.Offer? then queue[1..] else PastFirst(queue[1..])
  {
    assert [] + Tickets(queue[1..]) == Tickets(queue[1..]);
  }

  lemma NothingQueued(fates: seq<Fate>, reports: seq<Ticket>)
    ensures Drain(fates, []) == fates && Tickets([]) == [] && reports + [] == reports
    ensures LoseFirst(fates, []) == fates && PastFirst([]) == []
  {
  }

  class EventDispatcher {
    const capacity: nat
    var queue: seq<Item>
    var worker: Worker
    var accepting: bool
    var closer: Closer
    // what the sink, the handler and the callers have seen
    var fates: seq<Fate>
    var attempts: seq<Ticket>
    var reports: seq<Ticket>

    ghost function Value(): Dispatcher
      reads this
    {
      Dispatcher(capacity, accepting, queue, worker, closer, fates, attempts, reports)
    }

    constructor (max: nat)
      ensures Value() == Fresh(max)
    {
      capacity, queue, worker, accepting, closer := max, [], Absent, true, Idle;
      fates, attempts, reports := [], [], [];
    }

    /** What preparing the event raises, if anything. */
    method EmitEvent(preparation: Option<Problem>)
      modifies this
      ensures Value() == Take(old(Value()), Emits(preparation))
    {
      if !accepting {
        Refuse(SINK_CLOSED);
        return;
      }
      if preparation.Some? {
        Refuse(preparation.value);
        return;
      }
      if worker == Absent || worker == Done {
        worker := Waiting;
      }
      if |queue| >= capacity {
        Refuse(BUFFER_FULL);
        return;
      }
      queue := queue + [Offer(|fates|)];
      fates := fates + [Queued];
    }

    /** The offer being made is reported, if its error can be shown; else emit raises. */
    method Refuse(error: Problem)
      modifies this`reports, this`fates
      ensures fates == old(fates) + [Fate.Refused(error)]
      ensures reports == if Diagnosable(error) then old(reports) + [|old(fates)|] else old(reports)
    {
      var raised := Report(|fates|, error);
      fates := fates + [Fate.Refused(error)];
    }

    /** Calls the handler; an error that cannot be shown raises another one instead. */
    method Report(t: Ticket, error: Problem) returns (raised: Option<Problem>)
      modifies this`reports
      ensures raised == match Diagnose(error) case Message(_) => None case Broken(own) => Some(own)
      ensures reports == if Diagnosable(error) then old(reports) + [t] else old(reports)
    {
      var diagnosis := Diagnose(error);
      if diagnosis.Broken? {
        return Some(diagnosis.error);
      }
      reports := reports + [t];
      return None;
    }

    method TakeItem()
      requires Enabled(Value(), WorkerTakes) || Enabled(Value(), WorkerStops)
      modifies this
      ensures old(queue[0]).Offer? ==> Value() == Take(old(Value()), WorkerTakes)
      ensures old(queue[0]) == Stop ==> Value() == Take(old(Value()), WorkerStops)
    {
      var item := queue[0];
      queue := queue[1..];
      if item == Stop {
        worker := Done;
        return;
      }
      worker := Attempting(item.ticket);
      fates, attempts := fates[item.ticket := AtSink], attempts + [item.ticket];
    }

    method SinkAccepted()
      requires Enabled(Value(), SinkReturns)
      modifies this
      ensures Value() == Take(old(Value()), SinkReturns)
    {
      fates := fates[worker.ticket := Delivered];
      worker := Waiting;
    }

    method SinkRefused(error: Problem)
      requires Enabled(Value(), SinkFails(error))
      modifies this
      ensures Value() == Take(old(Value()), SinkFails(error))
    {
      var t := worker.ticket;
      fates := fates[t := Failed(error)];
      var raised := Report(t, error);
      if raised == None {
        worker := Waiting;
        return;
      }
      FailQueuedEvents(raised.value);
      worker := Done;
    }

    /** Reports what is queued with the worker's own error, until that raises. */
    method FailQueuedEvents(own: Problem)
      modifies this`queue, this`fates, this`reports
      ensures Diagnosable(own) ==>
        queue == [] && fates == Drain(old(fates), old(queue)) && reports == old(reports) + Tickets(old(queue))
      ensures !Diagnosable(own) ==>
        queue == PastFirst(old(queue)) && fates == LoseFirst(old(fates), old(queue)) && reports == old(reports)
    {
      hide Drain, Tickets, LoseFirst, PastFirst, Diagnosable;
      while queue != []
        invariant Diagnosable(own) ==> Drain(fates, queue) == Drain(old(fates), old(queue))
        invariant Diagnosable(own) ==> reports + Tickets(queue) == old(reports) + Tickets(old(queue))
        invariant !Diagnosable(own) ==> LoseFirst(fates, queue) == LoseFirst(old(fates), old(queue))
        invariant !Diagnosable(own) ==> PastFirst(queue) == PastFirst(old(queue)) && reports == old(reports)
        decreases |queue|
      {
        var item := queue[0];
        Unqueue(fates, reports, queue);
        queue := queue[1..];
        if item.Offer? {
          var raised := Report(item.ticket, own);
          if item.ticket < |fates| {
            fates := fates[item.ticket := if raised == None then Drained else Lost];
          }
          if raised.Some? {
            return;
          }
        }
      }
      NothingQueued(fates, reports);
    }

    method Close()
      modifies this
      ensures Value() == Take(old(Value()), CloseCalled)
    {
      if closer == Idle {
        accepting, closer := false, Requested;
      }
    }

    method CloseOnceBegins()
      requires Enabled(Value(), CloserStarts)
      modifies this
      ensures Value() == Take(old(Value()), CloserStarts)
    {
      closer := if worker == Absent then Over else Joining;
    }

    method CloseOnceJoined()
      requires Enabled(Value(), CloserJoins)
      modifies this
      ensures Value() == Take(old(Value()), CloserJoins)
    {
      if worker == Done {
        closer := Over;
        return;
      }
      queue := queue + [Stop];
      closer := Stopping;
    }

    method CloseOnceEnds()
      requires Enabled(Value(), CloserEnds)
      modifies this
      ensures Value() == Take(old(Value()), CloserEnds)
    {
      closer := Over;
    }
  }
}
