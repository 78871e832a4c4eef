/** Every interleaving of create, resume, get_session, delete and close.  An operation is a
    program counter between its suspension points; each event is one run of one task from one
    suspension point to the next.  The service lock is never held across a suspension, so the
    success path from a started session through publication to the end of the operation is
    one event. */
module ServiceProtocol {
  import opened Basics
  import opened MapSums
  import opened SandboxService

  datatype Kind = Create | Resume

  datatype Pc =
    | Loading                                                    // nothing reserved yet
    | Building(handle: Handle, session: SessionId)               // the factory is running
    | Starting(handle: Handle, session: SessionId, runtime: Runtime)   // session.start() is running
    | StartCleanup(handle: Handle, session: SessionId, runtime: Runtime)  // create closes a session that failed to start
    | Cleanup(handle: Handle, session: SessionId, runtime: Runtime)    // the finally clause closes the runtime
    | Leaving(handles: Option<Handle>, sessions: Option<SessionId>)    // about to finish
    | Finished

  datatype Task = Task(kind: Kind, pc: Pc)

  datatype Phase = Scheduled | AwaitingClose | Ended
  datatype Deletion = Deletion(handle: Handle, session: SessionId, phase: Phase)

  datatype Closer = Idle | Requested | AwaitingPending(waited: set<Operation>, doomed: set<Runtime>)
    | AwaitingDeletions(doomed: set<Runtime>) | Over

  /** Who answers for a runtime that the factory returned. */
  datatype Home = WithOperation(op: Operation) | WithRecord(handle: Handle) | Released

  datatype System = System(
    service: Service,
    tasks: map<Operation, Task>,
    deletions: map<Runtime, Deletion>,
    closer: Closer,
    home: map<Runtime, Home>,        // its keys are the runtimes the factory returned
    attempted: set<Runtime>)         // runtimes whose close() was called

  const INITIAL := System(EMPTY, map[], map[], Idle, map[], {})

  datatype Event =
    | Begins(op: Operation, kind: Kind)
    | LoadFails(op: Operation)
    | Reserves(op: Operation, handle: Handle, session: SessionId)
    | FactoryFails(op: Operation)
    | FactoryReturns(op: Operation, runtime: Runtime)
    | StartFails(op: Operation)
    | StartCancelled(op: Operation)
    | StartCleanupReturns(op: Operation)
    | StartCleanupCancelled(op: Operation)
    | PublishFails(op: Operation)       // the clock refused
    | Starts(op: Operation)             // start() returned: publish, then finish
    | CleanupEnds(op: Operation)
    | Leaves(op: Operation)
    | Gets(handle: Handle, running: bool)
    | Deletes(handle: Handle)
    | DeletionBegins(runtime: Runtime)
    | DeletionEnds(runtime: Runtime)
    | CloseRequested
    | CloseBegins
    | PendingSettled
    | CloseEnds

  function Move(s: System, op: Operation, pc: Pc): System
    requires op in s.tasks
  {
    s.(tasks := s.tasks[op := s.tasks[op].(pc := pc)])
  }

  /** Whether the task that takes `e` is at the point where it can. */
  predicate Enabled(s: System, e: Event) {
    match e
    case Begins(op, kind) => op !in s.tasks
    case LoadFails(op) => op in s.tasks && s.tasks[op].pc.Loading?
    case Reserves(op, h, sid) => op in s.tasks && s.tasks[op].pc.Loading?
    case FactoryFails(op) => op in s.tasks && s.tasks[op].pc.Building?
    case FactoryReturns(op, rt) => op in s.tasks && s.tasks[op].pc.Building? && rt !in s.home
    case StartFails(op) => op in s.tasks && s.tasks[op].pc.Starting?
    case StartCancelled(op) => op in s.tasks && s.tasks[op].pc.Starting?
    case StartCleanupReturns(op) => op in s.tasks && s.tasks[op].pc.StartCleanup?
    case StartCleanupCancelled(op) => op in s.tasks && s.tasks[op].pc.StartCleanup?
    case PublishFails(op) => op in s.tasks && s.tasks[op].pc.Starting?
    case Starts(op) => op in s.tasks && s.tasks[op].pc.Starting?
    case CleanupEnds(op) => op in s.tasks && s.tasks[op].pc.Cleanup?
    case Leaves(op) => op in s.tasks && s.tasks[op].pc.Leaving?
    case Gets(h, running) => true
    case Deletes(h) => true
    case DeletionBegins(rt) => rt in s.deletions && s.deletions[rt].phase == Scheduled
    case DeletionEnds(rt) => rt in s.deletions && s.deletions[rt].phase == AwaitingClose
    case CloseRequested => s.closer == Idle
    case CloseBegins => s.closer == Requested
    case PendingSettled =>
      && s.closer.AwaitingPending?
      && forall op :: op in s.closer.waited ==> op in s.tasks && s.tasks[op].pc.Finished?
    case CloseEnds =>
      && s.closer.AwaitingDeletions?
      && forall rt :: rt in s.closer.doomed ==> rt in s.deletions && s.deletions[rt].phase == Ended
  }

  /** Close the runtime that `op` holds, in the named cleanup. */
  function GiveUp(s: System, op: Operation, pc: Pc): System
    requires op in s.tasks && s.tasks[op].pc.Starting?
  {
    var rt := s.tasks[op].pc.runtime;
    Move(s, op, pc).(home := s.home[rt := Released], attempted := s.attempted + {rt})
  }

  /** The deletion tasks that closing creates: one for each record that has none yet. */
  function NewDeletions(s: System): map<Runtime, Deletion> {
    map rt | rt in s.home && s.home[rt].WithRecord? && s.home[rt].handle in s.service.records
             && s.service.records[s.home[rt].handle].status == Active
      :: Deletion(s.home[rt].handle, s.service.records[s.home[rt].handle].sessionId, Scheduled)
  }

  function StartDeletionOf(s: System, h: Handle): System
    requires h in s.service.records
  {
    var r := s.service.records[h];
    s.(
      service := MarkDeleting(s.service, h),
      deletions := if r.status == Active then s.deletions[r.runtime := Deletion(h, r.sessionId, Scheduled)] else s.deletions)
  }

  function Doomed(s: Service): set<Runtime> {
    set h | h in s.records :: s.records[h].runtime
  }

  /** The state after the task that takes `e` runs to its next suspension point. */
  function Take(s: System, e: Event): System
    requires Enabled(s, e)
  {
    match e
    case Begins(op, kind) =>
      if s.service.state != Open then s
      else s.(service := BeginLifecycle(s.service, op), tasks := s.tasks[op := Task(kind, Loading)])
    case LoadFails(op) => Move(s, op, Leaving(None, None))
    case Reserves(op, h, sid) =>
      if ReserveRefusal(s.service, h, sid).Some? then Move(s, op, Leaving(None, None))
      else Move(s, op, Building(h, sid)).(service := Reserve(s.service, h, sid))
    case FactoryFails(op) =>
      var pc := s.tasks[op].pc;
      Move(s, op, Leaving(Some(pc.handle), Some(pc.session)))
    case FactoryReturns(op, rt) =>
      var pc := s.tasks[op].pc;
      Move(s, op, Starting(pc.handle, pc.session, rt)).(home := s.home[rt := WithOperation(op)])
    case StartFails(op) =>
      var pc := s.tasks[op].pc;
      if s.tasks[op].kind == Create then GiveUp(s, op, StartCleanup(pc.handle, pc.session, pc.runtime))
      else GiveUp(s, op, Cleanup(pc.handle, pc.session, pc.runtime))
    case StartCancelled(op) =>
      var pc := s.tasks[op].pc;
      GiveUp(s, op, Cleanup(pc.handle, pc.session, pc.runtime))
    case StartCleanupReturns(op) =>
      var pc := s.tasks[op].pc;
      Move(s, op, Leaving(Some(pc.handle), Some(pc.session)))
    case StartCleanupCancelled(op) =>
      var pc := s.tasks[op].pc;
      Move(s, op, Cleanup(pc.handle, pc.session, pc.runtime)).(attempted := s.attempted + {pc.runtime})
    case PublishFails(op) =>
      var pc := s.tasks[op].pc;
      GiveUp(s, op, Cleanup(pc.handle, pc.session, pc.runtime))
    case Starts(op) =>
      var pc := s.tasks[op].pc;
      if s.service.state != Open then GiveUp(s, op, Cleanup(pc.handle, pc.session, pc.runtime))
      else
        var published := Publish(s.service, pc.handle, pc.session, pc.runtime);
        Move(s, op, Finished).(
          service := FinishLifecycle(published, op, Some(pc.handle), Some(pc.session)),
          home := s.home[pc.runtime := WithRecord(pc.handle)])
    case CleanupEnds(op) =>
      var pc := s.tasks[op].pc;
      Move(s, op, Leaving(Some(pc.handle), Some(pc.session)))
    case Leaves(op) =>
      var pc := s.tasks[op].pc;
      Move(s, op, Finished).(service := FinishLifecycle(s.service, op, pc.handles, pc.sessions))
    case Gets(h, running) => if LookUp(s.service, h, running) == Reaped then StartDeletionOf(s, h) else s
    case Deletes(h) => if DeleteRefusal(s.service, h) == None then StartDeletionOf(s, h) else s
    case DeletionBegins(rt) =>
      s.(deletions := s.deletions[rt := s.deletions[rt].(phase := AwaitingClose)], attempted := s.attempted + {rt})
    case DeletionEnds(rt) =>
      var d := s.deletions[rt];
      s.(
        service := EndDeletion(s.service, d.handle, d.session, rt),
        deletions := s.deletions[rt := d.(phase := Ended)],
        home := if rt in s.home then s.home[rt := Released] else s.home)
    case CloseRequested => s.(closer := Requested)
    case CloseBegins =>
      s.(
        service := BeginClose(s.service),
        deletions := s.deletions + NewDeletions(s),
        closer := AwaitingPending(s.service.pending, Doomed(s.service)))
    case PendingSettled => s.(closer := AwaitingDeletions(s.closer.doomed))
    case CloseEnds => s.(service := EndClose(s.service), closer := Over)
  }

  // ---------------------------------------------------------------- the invariant

  /** The identifiers a task has reserved and still answers for. */
  function HandleOf(pc: Pc): Option<Handle> {
    match pc
    case Building(h, _) => Some(h)
    case Starting(h, _, _) => Some(h)
    case StartCleanup(h, _, _) => Some(h)
    case Cleanup(h, _, _) => Some(h)
    case Leaving(h, _) => h
    case _ => None
  }

  function SessionOf(pc: Pc): Option<SessionId> {
    match pc
    case Building(_, sid) => Some(sid)
    case Starting(_, sid, _) => Some(sid)
    case StartCleanup(_, sid, _) => Some(sid)
    case Cleanup(_, sid, _) => Some(sid)
    case Leaving(_, sid) => sid
    case _ => None
  }

  /** Each reservation is in the service's sets and belongs to one task. */
  ghost predicate ReservationsOwned(s: System) {
    && (forall op :: op in s.tasks && HandleOf(s.tasks[op].pc).Some? ==>
          HandleOf(s.tasks[op].pc).value in s.service.reservedHandles)
    && (forall op :: op in s.tasks && SessionOf(s.tasks[op].pc).Some? ==>
          SessionOf(s.tasks[op].pc).value in s.service.reservedSessions)
    && (forall a, b | a in s.tasks && b in s.tasks && a != b && HandleOf(s.tasks[a].pc).Some?
          :: HandleOf(s.tasks[a].pc) != HandleOf(s.tasks[b].pc))
    && (forall a, b | a in s.tasks && b in s.tasks && a != b && SessionOf(s.tasks[a].pc).Some?
          :: SessionOf(s.tasks[a].pc) != SessionOf(s.tasks[b].pc))
  }

  ghost predicate PendingIsUnfinished(s: System) {
    forall op :: op in s.service.pending <==> op in s.tasks && !s.tasks[op].pc.Finished?
  }

  /** The ledger `home` agrees with the tasks and the records, in both directions. */
  ghost predicate HomesAgree(s: System) {
    && (forall op :: op in s.tasks && s.tasks[op].pc.Starting? ==>
          s.tasks[op].pc.runtime in s.home && s.home[s.tasks[op].pc.runtime] == WithOperation(op))
    && (forall rt :: rt in s.home && s.home[rt].WithOperation? ==>
          s.home[rt].op in s.tasks && s.tasks[s.home[rt].op].pc.Starting? && s.tasks[s.home[rt].op].pc.runtime == rt)
    && (forall h :: h in s.service.records ==>
          s.service.records[h].runtime in s.home && s.home[s.service.records[h].runtime] == WithRecord(h))
    && (forall rt :: rt in s.home && s.home[rt].WithRecord? ==>
          s.home[rt].handle in s.service.records && s.service.records[s.home[rt].handle].runtime == rt)
    && (forall rt :: rt in s.home && s.home[rt] == Released ==> rt in s.attempted)
  }

  /** A deletion task that has not ended still has its record. */
  ghost predicate LiveDeletion(s: System, rt: Runtime)
    requires rt in s.deletions
  {
    var d := s.deletions[rt];
    && rt in s.home && s.home[rt] == WithRecord(d.handle)
    && d.handle in s.service.records && s.service.records[d.handle] == Record(d.session, rt, Deleting)
  }

  ghost predicate DeletionsTracked(s: System) {
    && (forall h :: h in s.service.records && s.service.records[h].status == Deleting ==>
          s.service.records[h].runtime in s.deletions)
    && (forall rt :: rt in s.deletions && s.deletions[rt].phase != Ended ==> LiveDeletion(s, rt))
    && (forall rt :: rt in s.deletions && s.deletions[rt].phase == AwaitingClose ==> rt in s.attempted)
    && (forall rt :: rt in s.deletions && s.deletions[rt].phase == Ended ==> rt in s.home && s.home[rt] == Released)
  }

  ghost predicate ClosingTracked(s: System) {
    && (s.service.state == Open <==> s.closer in {Idle, Requested})
    && (s.service.state == Closed <==> s.closer == Over)
    && (s.service.state != Open ==> forall h :: h in s.service.records ==> s.service.records[h].status == Deleting)
    && (s.closer.AwaitingPending? ==> s.service.pending <= s.closer.waited && Doomed(s.service) <= s.closer.doomed)
    && (s.closer.AwaitingDeletions? ==> s.service.pending == {} && Doomed(s.service) <= s.closer.doomed)
    && (s.closer == Over ==>
          && s.service.pending == {} && s.service.records == map[]
          && s.service.reservedHandles == {} && s.service.reservedSessions == {})
  }

  /** The closer waits only for operations that exist and deletions that were scheduled. */
  ghost predicate AwaitedExists(s: System) {
    && (s.closer.AwaitingPending? ==> s.closer.waited <= s.tasks.Keys && s.closer.doomed <= s.deletions.Keys)
    && (s.closer.AwaitingDeletions? ==> s.closer.doomed <= s.deletions.Keys)
  }

  /** A runtime whose close was called is never held by an operation, and a record that still
      owns one is being deleted. */
  ghost predicate AttemptsAgree(s: System) {
    && (forall rt :: rt in s.attempted ==> rt in s.home && !s.home[rt].WithOperation?)
    && (forall rt :: rt in s.attempted && s.home[rt].WithRecord? ==>
          rt in s.deletions && s.deletions[rt].phase == AwaitingClose)
    && (forall op :: op in s.tasks && s.tasks[op].pc.StartCleanup? ==> s.tasks[op].pc.runtime in s.attempted)
  }

  ghost predicate Inv(s: System) {
    && Distinct(s.service)
    && ReservationsOwned(s)
    && PendingIsUnfinished(s)
    && HomesAgree(s)
    && DeletionsTracked(s)
    && ClosingTracked(s)
    && AwaitedExists(s)
    && AttemptsAgree(s)
  }

  // ---------------------------------------------------------------- steps of the invariant

  lemma StartsIdentities(s: System, op: Operation)
    requires Distinct(s.service) && ReservationsOwned(s) && Enabled(s, Starts(op))
    ensures Distinct(Take(s, Starts(op)).service)
    ensures s.tasks[op].pc.handle !in s.service.records
  {
    var pc := s.tasks[op].pc;
    assert HandleOf(pc) == Some(pc.handle) && SessionOf(pc) == Some(pc.session);
    PublishDistinct(s.service, pc.handle, pc.session, pc.runtime);
    FinishDistinct(Publish(s.service, pc.handle, pc.session, pc.runtime), op, Some(pc.handle), Some(pc.session));
  }

  /** Steps in which the service takes one of its critical sections. */
  lemma SectionIdentities(s: System, e: Event)
    requires Distinct(s.service) && Enabled(s, e) && !e.Starts?
    ensures Distinct(Take(s, e).service)
  {
    hide Distinct, NewDeletions, Doomed;
    if e.Reserves? {
      ReserveDistinct(s.service, e.handle, e.session);
    } else if e.Leaves? {
      FinishDistinct(s.service, e.op, s.tasks[e.op].pc.handles, s.tasks[e.op].pc.sessions);
    } else if e.Gets? || e.Deletes? {
      DeletingDistinct(s.service, e.handle);
    } else if e.DeletionEnds? {
      EndDeletionDistinct(s.service, s.deletions[e.runtime].handle, s.deletions[e.runtime].session, e.runtime);
    } else if e.CloseBegins? || e.CloseEnds? {
      DeletingDistinct(s.service, 0);
    } else if e.Begins? {
      BeginDistinct(s.service, e.op);
    }
  }

  lemma IdentitiesStep(s: System, e: Event)
    requires Inv(s) && Enabled(s, e)
    ensures Distinct(Take(s, e).service)
  {
    hide Take, Enabled, Distinct, ReservationsOwned, HomesAgree, DeletionsTracked, ClosingTracked, AwaitedExists, PendingIsUnfinished,
      AttemptsAgree;
    if e.Starts? {
      StartsIdentities(s, e.op);
    } else {
      SectionIdentities(s, e);
    }
  }

  /** A task that keeps or drops its reservations leaves the others' alone. */
  lemma MoveReservations(s: System, op: Operation, pc: Pc)
    requires ReservationsOwned(s) && op in s.tasks
    requires HandleOf(pc) == None || HandleOf(pc) == HandleOf(s.tasks[op].pc)
    requires SessionOf(pc) == None || SessionOf(pc) == SessionOf(s.tasks[op].pc)
    ensures ReservationsOwned(Move(s, op, pc))
  {
  }

  lemma ReserveReservations(s: System, op: Operation, h: Handle, sid: SessionId)
    requires ReservationsOwned(s) && op in s.tasks && ReserveRefusal(s.service, h, sid) == None
    ensures ReservationsOwned(Move(s, op, Building(h, sid)).(service := Reserve(s.service, h, sid)))
  {
    assert HandleOf(Building(h, sid)) == Some(h) && SessionOf(Building(h, sid)) == Some(sid);
    assert h !in s.service.reservedHandles && sid !in s.service.reservedSessions;
    hide HandleOf, SessionOf, ReserveRefusal;
  }

  function Only<T(==)>(o: Option<T>): set<T> {
    if o.Some? then {o.value} else {}
  }

  /** A task that ends gives back exactly its own reservations. */
  lemma FinishReservations(s: System, op: Operation, service: Service)
    requires ReservationsOwned(s) && op in s.tasks
    requires service.reservedHandles == s.service.reservedHandles - Only(HandleOf(s.tasks[op].pc))
    requires service.reservedSessions == s.service.reservedSessions - Only(SessionOf(s.tasks[op].pc))
    ensures ReservationsOwned(Move(s, op, Finished).(service := service))
  {
    var t := Move(s, op, Finished).(service := service);
    assert HandleOf(Finished) == None && SessionOf(Finished) == None;
    hide HandleOf, SessionOf;
    forall a | a in t.tasks && HandleOf(t.tasks[a].pc).Some?
      ensures HandleOf(t.tasks[a].pc).value in service.reservedHandles
    {
      assert a != op && t.tasks[a] == s.tasks[a];
      assert HandleOf(s.tasks[a].pc) != HandleOf(s.tasks[op].pc);
    }
    forall a | a in t.tasks && SessionOf(t.tasks[a].pc).Some?
      ensures SessionOf(t.tasks[a].pc).value in service.reservedSessions
    {
      assert a != op && t.tasks[a] == s.tasks[a];
      assert SessionOf(s.tasks[a].pc) != SessionOf(s.tasks[op].pc);
    }
  }

  lemma SameReservations(s: System, t: System)
    requires ReservationsOwned(s) && t.tasks == s.tasks
    requires t.service.reservedHandles == s.service.reservedHandles
    requires t.service.reservedSessions == s.service.reservedSessions
    ensures ReservationsOwned(t)
  {
  }

  lemma BeginReservations(s: System, op: Operation, kind: Kind)
    requires ReservationsOwned(s) && op !in s.tasks
    ensures ReservationsOwned(Take(s, Begins(op, kind)))
  {
  }

  /** The task that takes `e`, if an operation does. */
  function TaskOf(e: Event): Option<Operation> {
    match e
    case Begins(op, _) => Some(op)
    case LoadFails(op) => Some(op)
    case Reserves(op, _, _) => Some(op)
    case FactoryFails(op) => Some(op)
    case FactoryReturns(op, _) => Some(op)
    case StartFails(op) => Some(op)
    case StartCancelled(op) => Some(op)
    case StartCleanupReturns(op) => Some(op)
    case StartCleanupCancelled(op) => Some(op)
    case PublishFails(op) => Some(op)
    case Starts(op) => Some(op)
    case CleanupEnds(op) => Some(op)
    case Leaves(op) => Some(op)
    case _ => None
  }

  /** Events that only move their task on, keeping its reservations or dropping none it made. */
  predicate JustMoves(e: Event) {
    TaskOf(e).Some? && !e.Begins? && !e.Reserves? && !e.Starts? && !e.Leaves?
  }

  lemma JustMovesReservations(s: System, e: Event)
    requires ReservationsOwned(s) && Enabled(s, e) && JustMoves(e)
    ensures ReservationsOwned(Take(s, e))
  {
    hide ReservationsOwned;
    var op := TaskOf(e).value;
    var t := Take(s, e);
    MoveReservations(s, op, t.tasks[op].pc);
    SameReservations(Move(s, op, t.tasks[op].pc), t);
  }

  lemma DeletionReservations(s: System, rt: Runtime)
    requires Inv(s) && Enabled(s, DeletionEnds(rt))
    ensures ReservationsOwned(Take(s, DeletionEnds(rt)))
  {
    hide ClosingTracked, AwaitedExists, PendingIsUnfinished, ReservationsOwned;
    var d := s.deletions[rt];
    assert d.handle in s.service.records && s.service.records[d.handle].sessionId == d.session;
    SameReservations(s, Take(s, DeletionEnds(rt)));
  }

  lemma CloseEndsReservations(s: System)
    requires PendingIsUnfinished(s) && ReservationsOwned(s) && s.service.pending == {}
    ensures ReservationsOwned(s.(service := EndClose(s.service), closer := Over))
  {
    forall op | op in s.tasks ensures s.tasks[op].pc.Finished? {
      assert op !in s.service.pending;
    }
  }

  lemma ReservationsStep(s: System, e: Event)
    requires Inv(s) && Enabled(s, e)
    ensures ReservationsOwned(Take(s, e))
  {
    hide HomesAgree, DeletionsTracked, AwaitedExists, ReservationsOwned, Distinct;
    if JustMoves(e) {
      JustMovesReservations(s, e);
    } else if e.Begins? {
      BeginReservations(s, e.op, e.kind);
    } else if e.Reserves? {
      MoveReservations(s, e.op, Leaving(None, None));
      if ReserveRefusal(s.service, e.handle, e.session) == None {
        ReserveReservations(s, e.op, e.handle, e.session);
      }
    } else if e.Leaves? {
      FinishReservations(s, e.op, Take(s, e).service);
    } else if e.Starts? {
      StartsReservations(s, e.op);
    } else if e.DeletionEnds? {
      DeletionReservations(s, e.runtime);
    } else if e.CloseEnds? {
      CloseEndsReservations(s);
    } else {
      SameReservations(s, Take(s, e));
    }
  }

  lemma StartsReservations(s: System, op: Operation)
    requires ReservationsOwned(s) && Enabled(s, Starts(op))
    ensures ReservationsOwned(Take(s, Starts(op)))
  {
    var t := Take(s, Starts(op));
    if s.service.state == Open {
      FinishReservations(s, op, t.service);
      SameReservations(Move(s, op, Finished).(service := t.service), t);
    } else {
      MoveReservations(s, op, t.tasks[op].pc);
      SameReservations(Move(s, op, t.tasks[op].pc), t);
    }
  }

  /** Steps that end no task and begin none. */
  lemma SamePending(s: System, t: System)
    requires PendingIsUnfinished(s) && t.service.pending == s.service.pending && t.tasks.Keys == s.tasks.Keys
    requires forall op :: op in s.tasks ==> (t.tasks[op].pc.Finished? <==> s.tasks[op].pc.Finished?)
    ensures PendingIsUnfinished(t)
  {
  }

  lemma BeginPending(s: System, op: Operation, kind: Kind)
    requires PendingIsUnfinished(s) && Enabled(s, Begins(op, kind))
    ensures PendingIsUnfinished(Take(s, Begins(op, kind)))
  {
  }

  lemma EndPending(s: System, op: Operation, t: System)
    requires PendingIsUnfinished(s) && op in s.tasks
    requires t.service.pending == s.service.pending - {op} && t.tasks.Keys == s.tasks.Keys && t.tasks[op].pc.Finished?
    requires forall p :: p in s.tasks && p != op ==> t.tasks[p] == s.tasks[p]
    ensures PendingIsUnfinished(t)
  {
  }

  lemma EndsPending(s: System, e: Event)
    requires PendingIsUnfinished(s) && Enabled(s, e) && (e.Leaves? || (e.Starts? && s.service.state == Open))
    ensures PendingIsUnfinished(Take(s, e))
  {
    hide PendingIsUnfinished;
    EndPending(s, e.op, Take(s, e));
  }

  lemma QuietPending(s: System, e: Event)
    requires PendingIsUnfinished(s) && Enabled(s, e) && !e.Begins? && !e.Leaves? && !(e.Starts? && s.service.state == Open)
    ensures PendingIsUnfinished(Take(s, e))
  {
    hide PendingIsUnfinished, NewDeletions, Doomed;
    SamePending(s, Take(s, e));
  }

  lemma PendingStep(s: System, e: Event)
    requires Inv(s) && Enabled(s, e)
    ensures PendingIsUnfinished(Take(s, e))
  {
    hide Take, Enabled, HomesAgree, DeletionsTracked, ClosingTracked, AwaitedExists, ReservationsOwned, Distinct, AttemptsAgree,
      PendingIsUnfinished;
    if e.Begins? {
      BeginPending(s, e.op, e.kind);
    } else if e.Leaves? || (e.Starts? && s.service.state == Open) {
      EndsPending(s, e);
    } else {
      QuietPending(s, e);
    }
  }

  /** A pc change that neither holds nor stops holding a runtime. */
  lemma MoveHomes(s: System, op: Operation, pc: Pc)
    requires HomesAgree(s) && op in s.tasks && !s.tasks[op].pc.Starting? && !pc.Starting?
    ensures HomesAgree(Move(s, op, pc))
  {
  }

  lemma GiveUpHomes(s: System, op: Operation, pc: Pc)
    requires HomesAgree(s) && op in s.tasks && s.tasks[op].pc.Starting? && !pc.Starting?
    ensures HomesAgree(GiveUp(s, op, pc))
  {
  }

  lemma FactoryHomes(s: System, op: Operation, rt: Runtime)
    requires HomesAgree(s) && Enabled(s, FactoryReturns(op, rt))
    ensures HomesAgree(Take(s, FactoryReturns(op, rt)))
  {
  }

  lemma PublishHomes(s: System, op: Operation)
    requires HomesAgree(s) && Enabled(s, Starts(op)) && s.service.state == Open
    requires s.tasks[op].pc.handle !in s.service.records
    ensures HomesAgree(Take(s, Starts(op)))
  {
  }

  lemma DeletionHomes(s: System, rt: Runtime)
    requires HomesAgree(s) && DeletionsTracked(s) && Enabled(s, DeletionEnds(rt)) && rt in s.attempted
    ensures HomesAgree(Take(s, DeletionEnds(rt)))
  {
  }

  lemma SameHomes(s: System, t: System)
    requires HomesAgree(s) && t.tasks == s.tasks && t.home == s.home && s.attempted <= t.attempted
    requires t.service.records.Keys == s.service.records.Keys
    requires forall h :: h in t.service.records ==> t.service.records[h].runtime == s.service.records[h].runtime
    ensures HomesAgree(t)
  {
  }

  lemma BeginHomes(s: System, op: Operation, kind: Kind)
    requires HomesAgree(s) && op !in s.tasks
    ensures HomesAgree(Take(s, Begins(op, kind)))
  {
  }

  /** Events after which the operation of `e` no longer holds the runtime it held. */
  predicate GivesUp(s: System, e: Event) {
    e.StartFails? || e.StartCancelled? || e.PublishFails? || (e.Starts? && s.service.state != Open)
  }

  lemma GivesUpHomes(s: System, e: Event)
    requires HomesAgree(s) && Enabled(s, e) && GivesUp(s, e)
    ensures HomesAgree(Take(s, e))
  {
    GiveUpHomes(s, e.op, Take(s, e).tasks[e.op].pc);
  }

  lemma QuietMoveHomes(s: System, e: Event)
    requires HomesAgree(s) && Enabled(s, e) && TaskOf(e).Some?
    requires !e.Begins? && !e.FactoryReturns? && !e.Starts? && !GivesUp(s, e)
    ensures HomesAgree(Take(s, e))
  {
    hide HomesAgree;
    var op, t := TaskOf(e).value, Take(s, e);
    MoveHomes(s, op, t.tasks[op].pc);
    SameHomes(Move(s, op, t.tasks[op].pc), t);
  }

  /** Steps of deletions and of the closer up to the end of a deletion. */
  lemma ServiceHomes(s: System, e: Event)
    requires HomesAgree(s) && Enabled(s, e) && TaskOf(e).None? && !e.DeletionEnds?
    requires e.CloseEnds? ==> s.service.records == map[]
    ensures HomesAgree(Take(s, e))
  {
    hide HomesAgree, NewDeletions, Doomed;
    SameHomes(s, Take(s, e));
  }

  lemma AwaitingWasAttempted(s: System, rt: Runtime)
    requires DeletionsTracked(s) && Enabled(s, DeletionEnds(rt))
    ensures rt in s.attempted
  {
  }

  lemma HomesStep(s: System, e: Event)
    requires Inv(s) && Enabled(s, e)
    ensures HomesAgree(Take(s, e))
  {
    hide Take, Enabled, Distinct, ReservationsOwned, HomesAgree, DeletionsTracked, ClosingTracked, AwaitedExists, PendingIsUnfinished,
      AttemptsAgree;
    if e.Begins? {
      BeginsFresh(s, e.op, e.kind);
      BeginHomes(s, e.op, e.kind);
    } else if e.FactoryReturns? {
      FactoryHomes(s, e.op, e.runtime);
    } else if GivesUp(s, e) {
      GivesUpHomes(s, e);
    } else if e.Starts? {
      StartsHomes(s, e.op);
    } else if TaskOf(e).Some? {
      QuietMoveHomes(s, e);
    } else if e.DeletionEnds? {
      AwaitingWasAttempted(s, e.runtime);
      DeletionHomes(s, e.runtime);
    } else {
      if e.CloseEnds? {
        NothingDoomed(s);
      }
      ServiceHomes(s, e);
    }
  }

  lemma BeginsFresh(s: System, op: Operation, kind: Kind)
    requires Enabled(s, Begins(op, kind))
    ensures op !in s.tasks
  {
  }

  lemma StartsHomes(s: System, op: Operation)
    requires Distinct(s.service) && ReservationsOwned(s) && HomesAgree(s) && Enabled(s, Starts(op)) && s.service.state == Open
    ensures HomesAgree(Take(s, Starts(op)))
  {
    hide Distinct, ReservationsOwned, HomesAgree, Take;
    StartsIdentities(s, op);
    PublishHomes(s, op);
  }

  // ---------------------------------------------------------------- deletions

  /** Moving a task that does not publish leaves records and deletions alone. */
  lemma SameDeletions(s: System, t: System)
    requires DeletionsTracked(s)
    requires t.service.records == s.service.records && t.deletions == s.deletions
    requires s.attempted <= t.attempted
    requires forall rt :: rt in s.home && rt in s.deletions ==> rt in t.home && t.home[rt] == s.home[rt]
    ensures DeletionsTracked(t)
  {
  }

  /** A task that moves on without publishing touches no record, no deletion, and no runtime
      that a deletion is about. */
  lemma TaskLeaves(s: System, e: Event)
    requires Enabled(s, e) && TaskOf(e).Some? && !(e.Starts? && s.service.state == Open)
    ensures var t := Take(s, e);
      && t.service.records == s.service.records && t.deletions == s.deletions && s.attempted <= t.attempted
      && s.home.Keys <= t.home.Keys
      && forall rt :: rt in s.home && t.home[rt] != s.home[rt] ==>
           e.op in s.tasks && s.tasks[e.op].pc.Starting? && rt == s.tasks[e.op].pc.runtime
  {
    hide HandleOf, SessionOf;
  }

  /** A runtime that an operation holds has no deletion. */
  lemma HeldNotDeleted(s: System, op: Operation)
    requires HomesAgree(s) && DeletionsTracked(s) && op in s.tasks && s.tasks[op].pc.Starting?
    ensures s.tasks[op].pc.runtime !in s.deletions
  {
    assert s.home[s.tasks[op].pc.runtime] == WithOperation(op);
  }

  lemma TaskDeletions(s: System, e: Event)
    requires HomesAgree(s) && DeletionsTracked(s) && Enabled(s, e) && TaskOf(e).Some? && !(e.Starts? && s.service.state == Open)
    ensures DeletionsTracked(Take(s, e))
  {
    hide Take, HomesAgree, DeletionsTracked, Enabled;
    TaskLeaves(s, e);
    if e.op in s.tasks && s.tasks[e.op].pc.Starting? {
      HeldNotDeleted(s, e.op);
    }
    SameDeletions(s, Take(s, e));
  }

  lemma PublishDeletions(s: System, op: Operation)
    requires HomesAgree(s) && DeletionsTracked(s) && Enabled(s, Starts(op)) && s.service.state == Open
    requires s.tasks[op].pc.handle !in s.service.records
    ensures DeletionsTracked(Take(s, Starts(op)))
  {
    var pc := s.tasks[op].pc;
    assert s.home[pc.runtime] == WithOperation(op);
  }

  lemma StartDeletionTracked(s: System, h: Handle)
    requires HomesAgree(s) && DeletionsTracked(s) && h in s.service.records
    ensures DeletionsTracked(StartDeletionOf(s, h))
  {
    hide HandleOf;
    assert s.home[s.service.records[h].runtime] == WithRecord(h);
  }

  lemma DeletionBeginsTracked(s: System, rt: Runtime)
    requires DeletionsTracked(s) && Enabled(s, DeletionBegins(rt))
    ensures DeletionsTracked(Take(s, DeletionBegins(rt)))
  {
  }

  lemma DeletionEndsTracked(s: System, rt: Runtime)
    requires HomesAgree(s) && DeletionsTracked(s) && Enabled(s, DeletionEnds(rt))
    ensures DeletionsTracked(Take(s, DeletionEnds(rt)))
  {
  }

  lemma CloseMarksAll(s: System, h: Handle)
    requires HomesAgree(s) && DeletionsTracked(s) && Enabled(s, CloseBegins) && h in s.service.records
    ensures s.service.records[h].runtime in Take(s, CloseBegins).deletions
  {
    var rt := s.service.records[h].runtime;
    assert s.home[rt] == WithRecord(h);
    if s.service.records[h].status == Active {
      assert rt in NewDeletions(s);
    }
  }

  lemma CloseKeepsOld(s: System, rt: Runtime)
    requires HomesAgree(s) && DeletionsTracked(s) && rt in s.deletions
    ensures rt !in NewDeletions(s)
  {
  }

  lemma CloseKeepsTrack(s: System, rt: Runtime)
    requires HomesAgree(s) && DeletionsTracked(s) && Enabled(s, CloseBegins) && s.service.state == Open
    requires rt in Take(s, CloseBegins).deletions
    ensures var t := Take(s, CloseBegins);
      && (t.deletions[rt].phase == AwaitingClose ==> rt in t.attempted)
      && (t.deletions[rt].phase == Ended ==> rt in t.home && t.home[rt] == Released)
      && (t.deletions[rt].phase != Ended ==> LiveDeletion(t, rt))
  {
    var t := Take(s, CloseBegins);
    if rt in s.deletions {
      CloseKeepsOld(s, rt);
      assert t.deletions[rt] == s.deletions[rt];
      assert s.deletions[rt].phase != Ended ==> LiveDeletion(s, rt);
    } else {
      assert t.deletions[rt] == NewDeletions(s)[rt];
    }
  }

  lemma CloseBeginsTracked(s: System)
    requires HomesAgree(s) && DeletionsTracked(s) && Enabled(s, CloseBegins) && s.service.state == Open
    ensures DeletionsTracked(Take(s, CloseBegins))
  {
    hide HomesAgree, LiveDeletion, NewDeletions;
    var t := Take(s, CloseBegins);
    forall h | h in t.service.records ensures t.service.records[h].runtime in t.deletions {
      CloseMarksAll(s, h);
    }
    forall rt | rt in t.deletions
      ensures t.deletions[rt].phase == AwaitingClose ==> rt in t.attempted
      ensures t.deletions[rt].phase == Ended ==> rt in t.home && t.home[rt] == Released
      ensures t.deletions[rt].phase != Ended ==> LiveDeletion(t, rt)
    {
      CloseKeepsTrack(s, rt);
    }
  }

  lemma ReaperTracked(s: System, e: Event)
    requires HomesAgree(s) && DeletionsTracked(s) && Enabled(s, e) && (e.Gets? || e.Deletes?)
    ensures DeletionsTracked(Take(s, e))
  {
    hide HomesAgree, DeletionsTracked, StartDeletionOf;
    if e.handle in s.service.records {
      StartDeletionTracked(s, e.handle);
    }
  }

  lemma CloserTracked(s: System, e: Event)
    requires DeletionsTracked(s) && Enabled(s, e) && (e.CloseRequested? || e.PendingSettled? || e.CloseEnds?)
    ensures DeletionsTracked(Take(s, e))
  {
    hide DeletionsTracked;
    SameDeletions(s, Take(s, e));
  }

  lemma StartsDeletions(s: System, op: Operation)
    requires Distinct(s.service) && ReservationsOwned(s) && HomesAgree(s) && DeletionsTracked(s)
    requires Enabled(s, Starts(op)) && s.service.state == Open
    ensures DeletionsTracked(Take(s, Starts(op)))
  {
    hide Distinct, ReservationsOwned, HomesAgree, DeletionsTracked, Take;
    StartsIdentities(s, op);
    PublishDeletions(s, op);
  }

  lemma DeletionsStep(s: System, e: Event)
    requires Inv(s) && Enabled(s, e)
    ensures DeletionsTracked(Take(s, e))
  {
    hide Take, Distinct, ReservationsOwned, HomesAgree, DeletionsTracked, AwaitedExists, PendingIsUnfinished, AttemptsAgree;
    if e.Starts? && s.service.state == Open {
      StartsDeletions(s, e.op);
    } else if TaskOf(e).Some? {
      TaskDeletions(s, e);
    } else if e.Gets? || e.Deletes? {
      ReaperTracked(s, e);
    } else if e.DeletionBegins? {
      DeletionBeginsTracked(s, e.runtime);
    } else if e.DeletionEnds? {
      DeletionEndsTracked(s, e.runtime);
    } else if e.CloseBegins? {
      CloseBeginsTracked(s);
    } else {
      CloserTracked(s, e);
    }
  }

  // ---------------------------------------------------------------- closing

  lemma ClosingTask(s: System, e: Event)
    requires ClosingTracked(s) && Enabled(s, e) && TaskOf(e).Some?
    ensures ClosingTracked(Take(s, e))
  {
    hide HandleOf, SessionOf;
  }

  lemma ClosingRecords(s: System, e: Event)
    requires ClosingTracked(s) && DeletionsTracked(s) && Enabled(s, e)
    requires e.Gets? || e.Deletes? || e.DeletionBegins? || e.DeletionEnds?
    ensures ClosingTracked(Take(s, e))
  {
    hide LiveDeletion;
  }

  lemma DoomedAtClose(s: Service)
    ensures Doomed(BeginClose(s)) <= Doomed(s)
  {
  }

  lemma ClosingBegins(s: System)
    requires ClosingTracked(s) && Enabled(s, CloseBegins)
    ensures ClosingTracked(Take(s, CloseBegins))
  {
    DoomedAtClose(s.service);
    hide Doomed;
  }

  lemma ClosingSettles(s: System)
    requires ClosingTracked(s) && PendingIsUnfinished(s) && AwaitedExists(s) && Enabled(s, PendingSettled)
    ensures ClosingTracked(Take(s, PendingSettled))
  {
    hide Doomed;
  }

  lemma ClosingEnds(s: System)
    requires HomesAgree(s) && DeletionsTracked(s) && ClosingTracked(s) && Enabled(s, CloseEnds)
    ensures ClosingTracked(Take(s, CloseEnds))
  {
    NothingDoomed(s);
    hide Doomed, HomesAgree, DeletionsTracked;
  }

  lemma ClosingRequested(s: System)
    requires ClosingTracked(s) && Enabled(s, CloseRequested)
    ensures ClosingTracked(Take(s, CloseRequested))
  {
  }

  lemma ClosingStep(s: System, e: Event)
    requires Inv(s) && Enabled(s, e)
    ensures ClosingTracked(Take(s, e))
  {
    hide ClosingTracked, Take, Enabled, Distinct, ReservationsOwned, HomesAgree, DeletionsTracked, AwaitedExists, PendingIsUnfinished,
      AttemptsAgree;
    if TaskOf(e).Some? {
      ClosingTask(s, e);
    } else if e.Gets? || e.Deletes? || e.DeletionBegins? || e.DeletionEnds? {
      ClosingRecords(s, e);
    } else if e.CloseBegins? {
      ClosingBegins(s);
    } else if e.PendingSettled? {
      ClosingSettles(s);
    } else if e.CloseEnds? {
      ClosingEnds(s);
    } else {
      ClosingRequested(s);
    }
  }

  lemma AwaitedAreReleased(s: System)
    requires DeletionsTracked(s) && Enabled(s, CloseEnds)
    ensures forall rt :: rt in s.closer.doomed ==> rt in s.home && s.home[rt] == Released
  {
  }

  /** When the deletions that a close waits for have ended, no record is left. */
  lemma NothingDoomed(s: System)
    requires HomesAgree(s) && DeletionsTracked(s) && ClosingTracked(s) && Enabled(s, CloseEnds)
    ensures s.service.records == map[] && s.service.pending == {}
  {
    AwaitedAreReleased(s);
    assert forall h :: h in s.service.records ==> s.service.records[h].runtime in Doomed(s.service);
  }

  /** Operations and deletions are never forgotten. */
  lemma KeysGrow(s: System, e: Event)
    requires Enabled(s, e)
    ensures s.tasks.Keys <= Take(s, e).tasks.Keys && s.deletions.Keys <= Take(s, e).deletions.Keys
  {
    hide NewDeletions, Doomed;
  }

  lemma AwaitedBegins(s: System)
    requires HomesAgree(s) && DeletionsTracked(s) && PendingIsUnfinished(s) && Enabled(s, CloseBegins)
    ensures AwaitedExists(Take(s, CloseBegins))
  {
    hide HomesAgree, DeletionsTracked, NewDeletions;
    forall rt | rt in Doomed(s.service) ensures rt in Take(s, CloseBegins).deletions {
      var h :| h in s.service.records && s.service.records[h].runtime == rt;
      CloseMarksAll(s, h);
    }
  }

  lemma SameCloser(s: System, e: Event)
    requires AwaitedExists(s) && Enabled(s, e) && !e.CloseBegins?
    requires s.tasks.Keys <= Take(s, e).tasks.Keys && s.deletions.Keys <= Take(s, e).deletions.Keys
    ensures AwaitedExists(Take(s, e))
  {
    hide NewDeletions, Doomed, HandleOf, SessionOf;
  }

  lemma AwaitedStep(s: System, e: Event)
    requires Inv(s) && Enabled(s, e)
    ensures AwaitedExists(Take(s, e))
  {
    hide Take, ReservationsOwned, Distinct, HomesAgree, DeletionsTracked, ClosingTracked, AwaitedExists, PendingIsUnfinished, AttemptsAgree;
    if e.CloseBegins? {
      AwaitedBegins(s);
    } else {
      KeysGrow(s, e);
      SameCloser(s, e);
    }
  }

  // ---------------------------------------------------------------- calls of close()

  lemma FactoryAttempts(s: System, op: Operation, rt: Runtime)
    requires AttemptsAgree(s) && Enabled(s, FactoryReturns(op, rt))
    ensures AttemptsAgree(Take(s, FactoryReturns(op, rt)))
  {
  }

  lemma GivesUpAttempts(s: System, e: Event)
    requires AttemptsAgree(s) && Enabled(s, e) && GivesUp(s, e)
    ensures AttemptsAgree(Take(s, e))
  {
  }

  lemma PublishAttempts(s: System, op: Operation)
    requires AttemptsAgree(s) && HomesAgree(s) && Enabled(s, Starts(op)) && s.service.state == Open
    ensures AttemptsAgree(Take(s, Starts(op)))
  {
    assert s.home[s.tasks[op].pc.runtime] == WithOperation(op);
  }

  /** Steps that hand no runtime over and call no close. */
  lemma SameAttempts(s: System, t: System)
    requires AttemptsAgree(s) && t.home == s.home && t.attempted == s.attempted
    requires forall rt :: rt in s.deletions && s.deletions[rt].phase == AwaitingClose ==>
               rt in t.deletions && t.deletions[rt] == s.deletions[rt]
    requires forall op :: op in t.tasks && t.tasks[op].pc.StartCleanup? ==> op in s.tasks && t.tasks[op].pc == s.tasks[op].pc
    ensures AttemptsAgree(t)
  {
  }

  lemma QuietMoveAttempts(s: System, e: Event)
    requires AttemptsAgree(s) && Enabled(s, e) && TaskOf(e).Some?
    requires !e.FactoryReturns? && !e.Starts? && !GivesUp(s, e)
    ensures AttemptsAgree(Take(s, e))
  {
    hide AttemptsAgree, HandleOf, SessionOf;
    if e.StartCleanupCancelled? {
      CancelledAttempts(s, e.op);
    } else {
      SameAttempts(s, Take(s, e));
    }
  }

  lemma CancelledAttempts(s: System, op: Operation)
    requires AttemptsAgree(s) && Enabled(s, StartCleanupCancelled(op))
    ensures AttemptsAgree(Take(s, StartCleanupCancelled(op)))
  {
    assert s.attempted + {s.tasks[op].pc.runtime} == s.attempted;
  }

  lemma StartDeletionAttempts(s: System, h: Handle)
    requires AttemptsAgree(s) && HomesAgree(s) && DeletionsTracked(s) && h in s.service.records
    ensures AttemptsAgree(StartDeletionOf(s, h))
  {
    hide HandleOf, SessionOf;
    var r := s.service.records[h];
    assert s.home[r.runtime] == WithRecord(h);
    assert r.runtime in s.deletions && s.deletions[r.runtime].phase != Ended ==> LiveDeletion(s, r.runtime);
    SameAttempts(s, StartDeletionOf(s, h));
  }

  lemma DeletionAttempts(s: System, e: Event)
    requires AttemptsAgree(s) && HomesAgree(s) && DeletionsTracked(s) && Enabled(s, e) && (e.DeletionBegins? || e.DeletionEnds?)
    ensures AttemptsAgree(Take(s, e))
  {
    hide HandleOf, SessionOf, HomesAgree;
    assert LiveDeletion(s, e.runtime);
  }

  lemma CloseBeginsAttempts(s: System)
    requires AttemptsAgree(s) && HomesAgree(s) && DeletionsTracked(s) && Enabled(s, CloseBegins)
    ensures AttemptsAgree(Take(s, CloseBegins))
  {
    hide AttemptsAgree, HomesAgree, DeletionsTracked, NewDeletions;
    forall rt | rt in s.deletions ensures rt !in NewDeletions(s) {
      CloseKeepsOld(s, rt);
    }
    SameAttempts(s, Take(s, CloseBegins));
  }

  lemma AttemptsStep(s: System, e: Event)
    requires Inv(s) && Enabled(s, e)
    ensures AttemptsAgree(Take(s, e))
  {
    hide ReservationsOwned, Distinct, HomesAgree, DeletionsTracked, ClosingTracked, AwaitedExists, PendingIsUnfinished, AttemptsAgree,
      StartDeletionOf, NewDeletions;
    if e.FactoryReturns? {
      FactoryAttempts(s, e.op, e.runtime);
    } else if GivesUp(s, e) {
      GivesUpAttempts(s, e);
    } else if e.Starts? {
      PublishAttempts(s, e.op);
    } else if TaskOf(e).Some? {
      QuietMoveAttempts(s, e);
    } else if e.Gets? || e.Deletes? {
      if e.handle in s.service.records {
        StartDeletionAttempts(s, e.handle);
      }
    } else if e.DeletionBegins? || e.DeletionEnds? {
      DeletionAttempts(s, e);
    } else if e.CloseBegins? {
      CloseBeginsAttempts(s);
    } else {
      SameAttempts(s, Take(s, e));
    }
  }

  lemma InvStep(s: System, e: Event)
    requires Inv(s) && Enabled(s, e)
    ensures Inv(Take(s, e))
  {
    hide Take, ReservationsOwned, Distinct, HomesAgree, DeletionsTracked, ClosingTracked, AwaitedExists, PendingIsUnfinished, AttemptsAgree;
    IdentitiesStep(s, e);
    ReservationsStep(s, e);
    PendingStep(s, e);
    HomesStep(s, e);
    DeletionsStep(s, e);
    ClosingStep(s, e);
    AwaitedStep(s, e);
    AttemptsStep(s, e);
  }

  // ---------------------------------------------------------------- all runs

  predicate Legal(s: System, events: seq<Event>)
    decreases |events|
  {
    events == [] || (Enabled(s, events[0]) && Legal(Take(s, events[0]), events[1..]))
  }

  function After(s: System, events: seq<Event>): System
    requires Legal(s, events)
    decreases |events|
  {
    if events == [] then s else After(Take(s, events[0]), events[1..])
  }

  lemma {:induction false} RunInv(s: System, events: seq<Event>)
    requires Inv(s) && Legal(s, events)
    ensures Inv(After(s, events))
    decreases |events|
  {
    if events != [] {
      InvStep(s, events[0]);
      RunInv(Take(s, events[0]), events[1..]);
    }
  }

  ghost predicate Reachable(s: System) {
    exists events :: Legal(INITIAL, events) && s == After(INITIAL, events)
  }

  lemma ReachableInv(s: System)
    requires Reachable(s)
    ensures Inv(s)
  {
    var events :| Legal(INITIAL, events) && s == After(INITIAL, events);
    RunInv(INITIAL, events);
  }

  ghost predicate HeldBy(s: System, rt: Runtime, op: Operation) {
    op in s.tasks && s.tasks[op].pc.Starting? && s.tasks[op].pc.runtime == rt
  }

  ghost predicate OwnedBy(s: System, rt: Runtime, h: Handle) {
    h in s.service.records && s.service.records[h].runtime == rt
  }

  /** In every interleaving, identities are distinct, and each reservation is one task's own. */
  lemma IdentitiesInEveryRun(s: System)
    requires Reachable(s)
    ensures Distinct(s.service) && ReservationsOwned(s)
  {
    ReachableInv(s);
  }

  /** Each runtime the factory ever returned has exactly one fate: its operation still holds it
      and its close() was not called, or one record owns it and close() was called only for its
      deletion, or neither does and close() was called. */
  lemma RuntimesInEveryRun(s: System, rt: Runtime)
    requires Reachable(s) && rt in s.home
    ensures (exists op :: HeldBy(s, rt, op)) || (exists h :: OwnedBy(s, rt, h)) || rt in s.attempted
    ensures forall op, p :: HeldBy(s, rt, op) && HeldBy(s, rt, p) ==> op == p
    ensures forall h, k :: OwnedBy(s, rt, h) && OwnedBy(s, rt, k) ==> h == k
    ensures forall op, h :: !(HeldBy(s, rt, op) && OwnedBy(s, rt, h))
    ensures forall op :: HeldBy(s, rt, op) ==> rt !in s.attempted
    ensures forall h :: OwnedBy(s, rt, h) && rt in s.attempted ==> s.service.records[h].status == Deleting
  {
    hide Distinct, ReservationsOwned, PendingIsUnfinished, ClosingTracked, AwaitedExists;
    ReachableInv(s);
    if s.home[rt].WithOperation? {
      assert HeldBy(s, rt, s.home[rt].op);
    } else if s.home[rt].WithRecord? {
      assert OwnedBy(s, rt, s.home[rt].handle);
    }
  }

  /** CLOSED is reached only with nothing left: no record, no reservation, no unfinished
      operation, and the close() of every runtime ever returned has been called. */
  lemma ClosedMeansEmpty(s: System)
    requires Reachable(s) && s.service.state == Closed
    ensures s.service.records == map[] && s.service.pending == {}
    ensures s.service.reservedHandles == {} && s.service.reservedSessions == {}
    ensures forall op :: op in s.tasks ==> s.tasks[op].pc.Finished?
    ensures forall rt :: rt in s.home ==> rt in s.attempted
  {
    hide Distinct, ReservationsOwned, DeletionsTracked, AwaitedExists;
    ReachableInv(s);
    forall op | op in s.tasks ensures s.tasks[op].pc.Finished? {
      assert op !in s.service.pending;
    }
  }

  lemma ClosingEvent(s: System, e: Event)
    requires Inv(s) && Enabled(s, e) && s.service.state != Open
    ensures Take(s, e).service.state != Open
    ensures Take(s, e).service.records.Keys <= s.service.records.Keys
  {
    hide HomesAgree, DeletionsTracked, Distinct, ReservationsOwned, PendingIsUnfinished, AwaitedExists, AttemptsAgree, Doomed,
      NewDeletions, HandleOf, SessionOf, ReserveRefusal;
  }

  /** No publication survives a close: once closing has begun, no continuation adds a record
      or makes one active again. */
  lemma {:induction false} NoPublishAfterClose(s: System, later: seq<Event>)
    requires Reachable(s) && s.service.state != Open && Legal(s, later)
    ensures After(s, later).service.state != Open
    ensures After(s, later).service.records.Keys <= s.service.records.Keys
    ensures forall h :: h in After(s, later).service.records ==> After(s, later).service.records[h].status == Deleting
  {
    ReachableInv(s);
    ClosingRun(s, later);
    RunInv(s, later);
  }

  lemma {:induction false} ClosingRun(s: System, later: seq<Event>)
    requires Inv(s) && s.service.state != Open && Legal(s, later)
    ensures After(s, later).service.state != Open
    ensures After(s, later).service.records.Keys <= s.service.records.Keys
    decreases |later|
  {
    if later != [] {
      ClosingEvent(s, later[0]);
      InvStep(s, later[0]);
      ClosingRun(Take(s, later[0]), later[1..]);
    }
  }

  /** What one step can do to a record: publish it, for a session that has started while the
      service is open; begin its deletion, on delete, on finding its session stopped, or on
      close; and end its deletion.  No other step touches it. */
  lemma RecordsChangeExactly(s: System, e: Event, h: Handle)
    requires Reachable(s) && Enabled(s, e)
    ensures var before, after := s.service.records, Take(s, e).service.records;
      && (h !in before ==>
            (h in after <==> e.Starts? && s.service.state == Open && s.tasks[e.op].pc.handle == h))
      && (h !in before && h in after ==> after[h] == Record(s.tasks[e.op].pc.session, s.tasks[e.op].pc.runtime, Active))
      && (h in before ==> (h !in after <==> e == DeletionEnds(before[h].runtime)))
      && (h in before && h in after ==>
            && after[h].sessionId == before[h].sessionId && after[h].runtime == before[h].runtime
            && (before[h].status == Deleting ==> after[h].status == Deleting)
            && (before[h].status == Active ==>
                  (after[h].status == Deleting <==> e == Deletes(h) || e == Gets(h, false) || e == CloseBegins)))
  {
    hide Reachable, Inv, Take;
    ReachableInv(s);
    if e.Starts? {
      RecordsAtStart(s, e.op, h);
    } else if e.DeletionEnds? {
      RecordsAtEnd(s, e.runtime, h);
    } else if e.Gets? || e.Deletes? || e.CloseBegins? {
      RecordsAtDeletion(s, e, h);
    } else {
      RecordsStay(s, e);
    }
  }

  lemma RecordsStay(s: System, e: Event)
    requires Enabled(s, e) && !e.Starts? && !e.DeletionEnds? && !e.Gets? && !e.Deletes? && !e.CloseBegins?
    ensures Take(s, e).service.records == s.service.records
  {
    hide ReserveRefusal, HandleOf, SessionOf, NewDeletions, Doomed;
  }

  lemma RecordsAtStart(s: System, op: Operation, h: Handle)
    requires Inv(s) && Enabled(s, Starts(op))
    ensures var before, after, pc := s.service.records, Take(s, Starts(op)).service.records, s.tasks[op].pc;
      && (s.service.state != Open ==> after == before)
      && (s.service.state == Open ==> pc.handle !in before && after == before[pc.handle := Record(pc.session, pc.runtime, Active)])
  {
    hide HomesAgree, DeletionsTracked, ClosingTracked, AwaitedExists, AttemptsAgree, PendingIsUnfinished;
    StartsIdentities(s, op);
  }

  lemma RecordsAtEnd(s: System, rt: Runtime, h: Handle)
    requires Inv(s) && Enabled(s, DeletionEnds(rt))
    ensures var before, after := s.service.records, Take(s, DeletionEnds(rt)).service.records;
      && (h in before ==> (h in after <==> before[h].runtime != rt))
      && (h in after ==> h in before && after[h] == before[h])
  {
    hide Distinct, ReservationsOwned, ClosingTracked, AwaitedExists, AttemptsAgree, PendingIsUnfinished, HandleOf, SessionOf;
    assert LiveDeletion(s, rt);
  }

  lemma RecordsAtDeletion(s: System, e: Event, h: Handle)
    requires Inv(s) && Enabled(s, e) && (e.Gets? || e.Deletes? || e.CloseBegins?)
    ensures var before, after := s.service.records, Take(s, e).service.records;
      && (h in after <==> h in before)
      && (h in before ==> after[h] == before[h].(status := after[h].status))
      && (h in before && before[h].status == Deleting ==> after[h].status == Deleting)
      && (h in before && before[h].status == Active ==>
            (after[h].status == Deleting <==> e == Deletes(h) || e == Gets(h, false) || e == CloseBegins))
  {
    hide Distinct, ReservationsOwned, HomesAgree, DeletionsTracked, AwaitedExists, AttemptsAgree, PendingIsUnfinished, NewDeletions, Doomed;
  }

  lemma RunOf(s: System, e: Event, rest: seq<Event>)
    requires Enabled(s, e) && Legal(Take(s, e), rest)
    ensures Legal(s, [e] + rest) && After(s, [e] + rest) == After(Take(s, e), rest)
  {
    hide Take, Enabled;
    assert ([e] + rest)[1..] == rest;
  }

  lemma RunOfOne(s: System, e: Event)
    requires Enabled(s, e)
    ensures Legal(s, [e]) && After(s, [e]) == Take(s, e)
  {
    hide Take, Enabled;
    assert [e][1..] == [];
  }

  lemma CreateReserves(s: System, op: Operation, kind: Kind, h: Handle, sid: SessionId)
    requires s.service.state == Open && op !in s.tasks && ReserveRefusal(s.service, h, sid) == None
    ensures Enabled(s, Begins(op, kind)) && Enabled(Take(s, Begins(op, kind)), Reserves(op, h, sid))
    ensures Take(Take(s, Begins(op, kind)), Reserves(op, h, sid)) == s.(
      service := s.service.(
        pending := s.service.pending + {op}, reservedHandles := s.service.reservedHandles + {h},
        reservedSessions := s.service.reservedSessions + {sid}),
      tasks := s.tasks[op := Task(kind, Building(h, sid))])
  {
    var t := Take(s, Begins(op, kind));
    assert t == s.(service := s.service.(pending := s.service.pending + {op}), tasks := s.tasks[op := Task(kind, Loading)]);
    assert ReserveRefusal(t.service, h, sid) == None;
    assert s.tasks[op := Task(kind, Loading)][op := Task(kind, Building(h, sid))] == s.tasks[op := Task(kind, Building(h, sid))];
  }

  lemma CreatePublishes(s: System, op: Operation, h: Handle, sid: SessionId, rt: Runtime)
    requires s.service.state == Open && op in s.tasks && s.tasks[op].pc == Building(h, sid) && rt !in s.home
    ensures Enabled(s, FactoryReturns(op, rt)) && Enabled(Take(s, FactoryReturns(op, rt)), Starts(op))
    ensures var t := Take(Take(s, FactoryReturns(op, rt)), Starts(op));
      && t.service == Service(Open, s.service.records[h := Record(sid, rt, Active)],
          s.service.reservedHandles - {h}, s.service.reservedSessions - {sid}, s.service.pending - {op})
      && op in t.tasks && t.tasks[op].pc == Finished && rt !in t.attempted - s.attempted
  {
    var t := Take(s, FactoryReturns(op, rt));
    assert t.service == s.service && t.tasks[op].pc == Starting(h, sid, rt);
    assert s.service.reservedHandles - {h} - {h} == s.service.reservedHandles - {h};
    assert s.service.reservedSessions - {sid} - {sid} == s.service.reservedSessions - {sid};
  }

  /** In any open service a creation with unused identifiers can run to its end, and then
      nothing but its record has been added. */
  lemma CreateSucceeds(s: System, op: Operation, kind: Kind, h: Handle, sid: SessionId, rt: Runtime)
    requires Reachable(s) && s.service.state == Open && op !in s.tasks && rt !in s.home
    requires h !in s.service.reservedHandles && h !in s.service.records && sid !in s.service.reservedSessions
    requires forall k :: k in s.service.records ==> s.service.records[k].sessionId != sid
    ensures var events := [Begins(op, kind), Reserves(op, h, sid), FactoryReturns(op, rt), Starts(op)];
      && Legal(s, events)
      && After(s, events).service == s.service.(records := s.service.records[h := Record(sid, rt, Active)])
      && After(s, events).tasks.Keys == s.tasks.Keys + {op} && After(s, events).tasks[op].pc == Finished
  {
    hide Take, Enabled, Legal, After, Reachable;
    NotPending(s, op);
    CreateReserves(s, op, kind, h, sid);
    var s1 := Take(s, Begins(op, kind));
    var s2 := Take(s1, Reserves(op, h, sid));
    CreatePublishes(s2, op, h, sid, rt);
    var s3 := Take(s2, FactoryReturns(op, rt));
    KeysOfCreate(s2, op, rt);
    RunOfOne(s3, Starts(op));
    RunOf(s2, FactoryReturns(op, rt), [Starts(op)]);
    RunOf(s1, Reserves(op, h, sid), [FactoryReturns(op, rt)] + [Starts(op)]);
    RunOf(s, Begins(op, kind), [Reserves(op, h, sid)] + ([FactoryReturns(op, rt)] + [Starts(op)]));
    assert [Begins(op, kind)] + ([Reserves(op, h, sid)] + ([FactoryReturns(op, rt)] + [Starts(op)]))
      == [Begins(op, kind), Reserves(op, h, sid), FactoryReturns(op, rt), Starts(op)];
    assert s.service.reservedHandles + {h} - {h} == s.service.reservedHandles;
    assert s.service.reservedSessions + {sid} - {sid} == s.service.reservedSessions;
    assert s.service.pending + {op} - {op} == s.service.pending;
  }

  lemma NotPending(s: System, op: Operation)
    requires Reachable(s) && op !in s.tasks
    ensures op !in s.service.pending
  {
    hide Reachable;
    ReachableInv(s);
  }

  lemma KeysOfCreate(s: System, op: Operation, rt: Runtime)
    requires Enabled(s, FactoryReturns(op, rt)) && Enabled(Take(s, FactoryReturns(op, rt)), Starts(op))
    ensures Take(Take(s, FactoryReturns(op, rt)), Starts(op)).tasks.Keys == s.tasks.Keys
  {
    hide HandleOf, SessionOf;
  }

  /** When a start fails its runtime is closed at once; cancelling that close leads to a second
      attempt in a creation, and ends the only one in a resumption. */
  lemma SecondAttemptExactly(s: System, op: Operation)
    requires Enabled(s, StartFails(op))
    ensures var t := Take(s, StartFails(op));
      && s.tasks[op].pc.runtime in t.attempted && op in t.tasks
      && (Enabled(t, StartCleanupCancelled(op)) <==> s.tasks[op].kind == Create)
      && (Enabled(t, CleanupEnds(op)) <==> s.tasks[op].kind != Create)
      && (s.tasks[op].kind == Create ==> Enabled(Take(t, StartCleanupCancelled(op)), CleanupEnds(op)))
  {
  }

  /** Deleting an active record can run to its end: its runtime's close is called, and then the
      record is gone. */
  lemma DeleteSucceeds(s: System, h: Handle)
    requires s.service.state == Open && h in s.service.records && s.service.records[h].status == Active
    ensures var rt := s.service.records[h].runtime;
      var events := [Deletes(h), DeletionBegins(rt), DeletionEnds(rt)];
      && Legal(s, events)
      && After(s, events).service.records == s.service.records - {h} && rt in After(s, events).attempted
  {
    hide Take, Enabled, Legal, After;
    var r := s.service.records[h];
    var rt := r.runtime;
    var s1 := DeletionScheduled(s, h);
    DeletionRuns(s1, h, r.sessionId, rt);
    var s2 := Take(s1, DeletionBegins(rt));
    RunOfOne(s2, DeletionEnds(rt));
    RunOf(s1, DeletionBegins(rt), [DeletionEnds(rt)]);
    RunOf(s, Deletes(h), [DeletionBegins(rt)] + [DeletionEnds(rt)]);
    assert [Deletes(h)] + ([DeletionBegins(rt)] + [DeletionEnds(rt)]) == [Deletes(h), DeletionBegins(rt), DeletionEnds(rt)];
    assert s.service.records[h := r.(status := Deleting)] - {h} == s.service.records - {h};
  }

  lemma DeletionScheduled(s: System, h: Handle) returns (t: System)
    requires s.service.state == Open && h in s.service.records && s.service.records[h].status == Active
    ensures Enabled(s, Deletes(h)) && t == Take(s, Deletes(h))
    ensures var r := s.service.records[h];
      && t.service == s.service.(records := s.service.records[h := r.(status := Deleting)])
      && r.runtime in t.deletions && t.deletions[r.runtime] == Deletion(h, r.sessionId, Scheduled)
  {
    t := Take(s, Deletes(h));
  }

  lemma DeletionRuns(s: System, h: Handle, sid: SessionId, rt: Runtime)
    requires rt in s.deletions && s.deletions[rt] == Deletion(h, sid, Scheduled)
    requires h in s.service.records && s.service.records[h].runtime == rt
    ensures Enabled(s, DeletionBegins(rt)) && Enabled(Take(s, DeletionBegins(rt)), DeletionEnds(rt))
    ensures var t := Take(Take(s, DeletionBegins(rt)), DeletionEnds(rt));
      t.service.records == s.service.records - {h} && rt in t.attempted
  {
  }

  /** How far a task still is from its end. */
  function Distance(pc: Pc): nat {
    match pc
    case Loading => 6
    case Building(_, _) => 5
    case Starting(_, _, _) => 4
    case StartCleanup(_, _, _) => 3
    case Cleanup(_, _, _) => 2
    case Leaving(_, _) => 1
    case Finished => 0
  }

  /** The event by which an unfinished task moves on when whatever it awaits fails. */
  function Onward(op: Operation, pc: Pc): Event
    requires !pc.Finished?
  {
    match pc
    case Loading => LoadFails(op)
    case Building(_, _) => FactoryFails(op)
    case Starting(_, _, _) => StartFails(op)
    case StartCleanup(_, _, _) => StartCleanupReturns(op)
    case Cleanup(_, _, _) => CleanupEnds(op)
    case Leaving(_, _) => Leaves(op)
  }

  /** An event that brings a task that the closer waits for nearer its end. */
  ghost predicate BringsNearer(s: System, e: Event) {
    && Enabled(s, e) && TaskOf(e).Some? && !e.Begins?
    && s.closer.AwaitingPending? && TaskOf(e).value in s.closer.waited
    && Distance(Take(s, e).tasks[TaskOf(e).value].pc) < Distance(s.tasks[TaskOf(e).value].pc)
  }

  lemma OnwardBringsNearer(s: System, op: Operation)
    requires s.closer.AwaitingPending? && op in s.closer.waited
    requires op in s.tasks && !s.tasks[op].pc.Finished?
    ensures BringsNearer(s, Onward(op, s.tasks[op].pc))
  {
  }

  /** A deletion that the closer waits for, at its next step. */
  ghost predicate DeletesAwaited(s: System, e: Event) {
    && Enabled(s, e) && s.closer.AwaitingDeletions? && (e.DeletionBegins? || e.DeletionEnds?)
    && e.runtime in s.closer.doomed
  }

  /** A close that has begun is never stuck: until it is over, the closer itself can move, or
      an operation it waits for can, towards its end, or a deletion it waits for can. */
  lemma CloseNeverStuck(s: System) returns (e: Event)
    requires Reachable(s) && s.service.state == Closing
    ensures Enabled(s, e)
    ensures e.PendingSettled? || e.CloseEnds? || DeletesAwaited(s, e) || BringsNearer(s, e)
  {
    hide Distinct, ReservationsOwned, DeletionsTracked, HomesAgree, Doomed, AttemptsAgree;
    ReachableInv(s);
    if s.closer.AwaitingPending? {
      if op :| op in s.closer.waited && !s.tasks[op].pc.Finished? {
        e := Onward(op, s.tasks[op].pc);
        OnwardBringsNearer(s, op);
      } else {
        e := PendingSettled;
      }
    } else {
      assert s.closer.AwaitingDeletions?;
      if rt :| rt in s.closer.doomed && s.deletions[rt].phase != Ended {
        e := if s.deletions[rt].phase == Scheduled then DeletionBegins(rt) else DeletionEnds(rt);
      } else {
        e := CloseEnds;
      }
    }
  }

  // ---------------------------------------------------------------- a close ends

  function TaskWork(t: Task): nat {
    Distance(t.pc)
  }

  function DeletionWork(d: Deletion): nat {
    match d.phase case Scheduled => 2 case AwaitingClose => 1 case Ended => 0
  }

  function CloserWork(c: Closer): nat {
    match c case Idle => 4 case Requested => 3 case AwaitingPending(_, _) => 2 case AwaitingDeletions(_) => 1 case Over => 0
  }

  /** Everything that is still to be done: steps of all tasks, all deletions and the closer. */
  ghost function Work(s: System): nat {
    Sum(s.tasks, TaskWork) + Sum(s.deletions, DeletionWork) + CloserWork(s.closer)
  }

  /** New work, which a closing service refuses. */
  predicate IsNewWork(e: Event) {
    e.Begins? || e.Gets? || e.Deletes?
  }

  lemma TaskProgresses(s: System, e: Event)
    requires Enabled(s, e) && TaskOf(e).Some? && !e.Begins? && s.service.state != Open
    ensures Work(Take(s, e)) < Work(s)
  {
    var op, t := TaskOf(e).value, Take(s, e);
    assert t.tasks == s.tasks[op := t.tasks[op]];
    assert Distance(t.tasks[op].pc) < Distance(s.tasks[op].pc);
    SumUpdate(s.tasks, op, t.tasks[op], TaskWork);
  }

  lemma DeletionProgresses(s: System, e: Event)
    requires Enabled(s, e) && (e.DeletionBegins? || e.DeletionEnds?)
    ensures Work(Take(s, e)) < Work(s)
  {
    var rt, t := e.runtime, Take(s, e);
    assert t.deletions == s.deletions[rt := t.deletions[rt]];
    SumUpdate(s.deletions, rt, t.deletions[rt], DeletionWork);
  }

  /** Once a close has begun, new work is refused and changes nothing, and every other step
      leaves less to do. */
  lemma ClosingProgresses(s: System, e: Event)
    requires Inv(s) && s.service.state != Open && Enabled(s, e)
    ensures IsNewWork(e) ==> Take(s, e) == s
    ensures !IsNewWork(e) ==> Work(Take(s, e)) < Work(s)
  {
    hide Distinct, ReservationsOwned, PendingIsUnfinished, HomesAgree, DeletionsTracked, AwaitedExists, AttemptsAgree, Doomed, Sum;
    if TaskOf(e).Some? && !e.Begins? {
      TaskProgresses(s, e);
    } else if e.DeletionBegins? || e.DeletionEnds? {
      DeletionProgresses(s, e);
    }
  }

  /** The steps of a run that are not refused new work. */
  function Steps(events: seq<Event>): nat {
    if events == [] then 0 else (if IsNewWork(events[0]) then 0 else 1) + Steps(events[1..])
  }

  /** So a close takes at most as many steps as there was work when it began. */
  lemma {:induction false} CloseTakesAtMost(s: System, events: seq<Event>)
    requires Inv(s) && s.service.state != Open && Legal(s, events)
    ensures Steps(events) + Work(After(s, events)) <= Work(s)
    decreases |events|
  {
    hide Inv, Take, Work;
    if events != [] {
      ClosingProgresses(s, events[0]);
      InvStep(s, events[0]);
      ClosingEvent(s, events[0]);
      CloseTakesAtMost(Take(s, events[0]), events[1..]);
    }
  }
}
