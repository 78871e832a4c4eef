/** The process-local lifecycle service.  Each critical section of the service is one atomic
    change of its fields: it is a function on `Service` values here, and a method of the class
    below that is proved to make exactly that change. */
module SandboxService {
  import opened Basics

  type Handle = nat
  type SessionId = nat
  type Operation = nat
  type Runtime = nat

  datatype ServiceState = Open | Closing | Closed
  datatype Status = Active | Deleting
  datatype Record = Record(sessionId: SessionId, runtime: Runtime, status: Status)

  datatype Service = Service(
    state: ServiceState,
    records: map<Handle, Record>,
    reservedHandles: set<Handle>,
    reservedSessions: set<SessionId>,
    pending: set<Operation>)

  const EMPTY := Service(Open, map[], {}, {}, {})

  datatype Refusal = ServiceClosed | HandleConflict | SessionConflict | NotFound

  function BeginLifecycle(s: Service, op: Operation): Service {
    if s.state != Open then s else s.(pending := s.pending + {op})
  }

  function ReserveRefusal(s: Service, h: Handle, sid: SessionId): Option<Refusal> {
    if s.state != Open then Some(ServiceClosed)
    else if h in s.reservedHandles || h in s.records then Some(HandleConflict)
    else if sid in s.reservedSessions || exists k :: k in s.records && s.records[k].sessionId == sid then
      Some(SessionConflict)
    else None
  }

  function Reserve(s: Service, h: Handle, sid: SessionId): Service {
    if ReserveRefusal(s, h, sid).Some? then s
    else s.(reservedHandles := s.reservedHandles + {h}, reservedSessions := s.reservedSessions + {sid})
  }

  function Publish(s: Service, h: Handle, sid: SessionId, rt: Runtime): Service {
    if s.state != Open then s
    else s.(
        records := s.records[h := Record(sid, rt, Active)],
        reservedHandles := s.reservedHandles - {h},
        reservedSessions := s.reservedSessions - {sid})
  }

  function FinishLifecycle(s: Service, op: Operation, h: Option<Handle>, sid: Option<SessionId>): Service {
    s.(
      pending := s.pending - {op},
      reservedHandles := if h.Some? then s.reservedHandles - {h.value} else s.reservedHandles,
      reservedSessions := if sid.Some? then s.reservedSessions - {sid.value} else s.reservedSessions)
  }

  function MarkDeleting(s: Service, h: Handle): Service {
    if h in s.records then s.(records := s.records[h := s.records[h].(status := Deleting)]) else s
  }

  /** What `get_session` finds under the lock. */
  datatype Lookup = Refused(reason: Refusal) | Session(runtime: Runtime) | Reaped

  function LookUp(s: Service, h: Handle, running: bool): Lookup {
    if s.state != Open then Refused(ServiceClosed)
    else if h !in s.records || s.records[h].status == Deleting then Refused(NotFound)
    else if running then Session(s.records[h].runtime)
    else Reaped
  }

  function DeleteRefusal(s: Service, h: Handle): Option<Refusal> {
    if s.state != Open then Some(ServiceClosed) else if h !in s.records then Some(NotFound) else None
  }

  function BeginClose(s: Service): Service {
    if s.state == Closed then s
    else s.(state := Closing, records := map h | h in s.records :: s.records[h].(status := Deleting))
  }

  function EndClose(s: Service): Service {
    s.(state := Closed, reservedHandles := {}, reservedSessions := {})
  }

  /** The `finally` of a deletion task: the record goes if it is still the task's own. */
  function EndDeletion(s: Service, h: Handle, sid: SessionId, rt: Runtime): Service {
    s.(
      records := if h in s.records && s.records[h].runtime == rt then s.records - {h} else s.records,
      reservedHandles := s.reservedHandles - {h},
      reservedSessions := s.reservedSessions - {sid})
  }

  /** Record handles and session ids are pairwise distinct and disjoint from the reservations. */
  ghost predicate Distinct(s: Service) {
    && (forall h :: h in s.records ==> h !in s.reservedHandles)
    && (forall h :: h in s.records ==> s.records[h].sessionId !in s.reservedSessions)
    && (forall h, k | h in s.records && k in s.records && h != k :: s.records[h].sessionId != s.records[k].sessionId)
  }

  lemma ReserveDistinct(s: Service, h: Handle, sid: SessionId)
    requires Distinct(s)
    ensures Distinct(Reserve(s, h, sid))
  {
  }

  /** Publishing keeps identities distinct because both identifiers were reserved. */
  lemma PublishDistinct(s: Service, h: Handle, sid: SessionId, rt: Runtime)
    requires Distinct(s) && h in s.reservedHandles && sid in s.reservedSessions
    ensures Distinct(Publish(s, h, sid, rt))
  {
  }

  lemma BeginDistinct(s: Service, op: Operation)
    requires Distinct(s)
    ensures Distinct(BeginLifecycle(s, op))
  {
  }

  lemma FinishDistinct(s: Service, op: Operation, h: Option<Handle>, sid: Option<SessionId>)
    requires Distinct(s)
    ensures Distinct(FinishLifecycle(s, op, h, sid))
  {
  }

  lemma DeletingDistinct(s: Service, h: Handle)
    requires Distinct(s)
    ensures Distinct(MarkDeleting(s, h)) && Distinct(BeginClose(s)) && Distinct(EndClose(s))
  {
  }

  lemma EndDeletionDistinct(s: Service, h: Handle, sid: SessionId, rt: Runtime)
    requires Distinct(s)
    ensures Distinct(EndDeletion(s, h, sid, rt))
  {
  }

  class InMemorySandboxService {
    var state: ServiceState
    var records: map<Handle, Record>
    var reservedHandles: set<Handle>
    var reservedSessions: set<SessionId>
    var pending: set<Operation>

    function Value(): Service
      reads this
    {
      Service(state, records, reservedHandles, reservedSessions, pending)
    }

    constructor ()
      ensures Value() == EMPTY
    {
      state, records, reservedHandles, reservedSessions, pending := Open, map[], {}, {}, {};
    }

    method Begin(op: Operation) returns (refusal: Option<Refusal>)
      modifies this
      ensures refusal == (if old(state) == Open then None else Some(ServiceClosed))
      ensures Value() == BeginLifecycle(old(Value()), op)
      ensures refusal == None ==> Value() == old(Value()).(pending := old(pending) + {op})
      ensures refusal != None ==> Value() == old(Value())
    {
      if state != Open {
        return Some(ServiceClosed);
      }
      pending := pending + {op};
      refusal := None;
    }

    method ReserveIdentifiers(h: Handle, sid: SessionId) returns (refusal: Option<Refusal>)
      modifies this
      ensures refusal == ReserveRefusal(old(Value()), h, sid)
      ensures Value() == Reserve(old(Value()), h, sid)
      ensures refusal == Some(ServiceClosed) <==> old(state) != Open
      ensures refusal == Some(HandleConflict) <==> old(state) == Open && (h in old(reservedHandles) || h in old(records))
      ensures refusal == Some(SessionConflict) <==>
        && old(state) == Open && h !in old(reservedHandles) && h !in old(records)
        && (sid in old(reservedSessions) || exists k :: k in old(records) && old(records)[k].sessionId == sid)
      ensures refusal == None ==>
        Value() == old(Value()).(reservedHandles := old(reservedHandles) + {h}, reservedSessions := old(reservedSessions) + {sid})
      ensures refusal != None ==> Value() == old(Value())
    {
      if state != Open {
        return Some(ServiceClosed);
      }
      if h in reservedHandles || h in records {
        return Some(HandleConflict);
      }
      if sid in reservedSessions || exists k :: k in records && records[k].sessionId == sid {
        return Some(SessionConflict);
      }
      reservedHandles := reservedHandles + {h};
      reservedSessions := reservedSessions + {sid};
      refusal := None;
    }

    method PublishRecord(h: Handle, sid: SessionId, rt: Runtime) returns (refusal: Option<Refusal>)
      modifies this
      ensures refusal == (if old(state) == Open then None else Some(ServiceClosed))
      ensures Value() == Publish(old(Value()), h, sid, rt)
      ensures refusal == None ==> Value() == old(Value()).(
        records := old(records)[h := Record(sid, rt, Active)],
        reservedHandles := old(reservedHandles) - {h}, reservedSessions := old(reservedSessions) - {sid})
      ensures refusal != None ==> Value() == old(Value())
    {
      if state != Open {
        return Some(ServiceClosed);
      }
      records := records[h := Record(sid, rt, Active)];
      reservedHandles := reservedHandles - {h};
      reservedSessions := reservedSessions - {sid};
      refusal := None;
    }

    method Finish(op: Operation, h: Option<Handle>, sid: Option<SessionId>)
      modifies this
      ensures Value() == FinishLifecycle(old(Value()), op, h, sid)
      ensures state == old(state) && records == old(records) && pending == old(pending) - {op}
      ensures reservedHandles == if h.Some? then old(reservedHandles) - {h.value} else old(reservedHandles)
      ensures reservedSessions == if sid.Some? then old(reservedSessions) - {sid.value} else old(reservedSessions)
    {
      pending := pending - {op};
      if h.Some? {
        reservedHandles := reservedHandles - {h.value};
      }
      if sid.Some? {
        reservedSessions := reservedSessions - {sid.value};
      }
    }

    /** Creates the deletion task only if the record has none yet. */
    method StartDeletion(h: Handle) returns (created: bool)
      requires h in records
      modifies this
      ensures created <==> old(records[h].status) == Active
      ensures Value() == MarkDeleting(old(Value()), h)
    {
      created := records[h].status == Active;
      records := records[h := records[h].(status := Deleting)];
    }

    method GetSession(h: Handle, running: bool) returns (found: Lookup)
      modifies this
      ensures found == LookUp(old(Value()), h, running)
      ensures Value() == if found == Reaped then MarkDeleting(old(Value()), h) else old(Value())
      // a running session is handed out, and a stopped one is reaped
      ensures old(state) != Open ==> found == Refused(ServiceClosed)
      ensures old(state) == Open && (h !in old(records) || old(records)[h].status == Deleting) ==> found == Refused(NotFound)
      ensures old(state) == Open && h in old(records) && old(records)[h].status == Active ==>
        found == if running then Session(old(records)[h].runtime) else Reaped
      ensures found != Reaped ==> Value() == old(Value())
      ensures found == Reaped ==>
        Value() == old(Value()).(records := old(records)[h := old(records)[h].(status := Deleting)])
    {
      if state != Open {
        return Refused(ServiceClosed);
      }
      if h !in records || records[h].status == Deleting {
        return Refused(NotFound);
      }
      if running {
        return Session(records[h].runtime);
      }
      var _ := StartDeletion(h);
      found := Reaped;
    }

    method Delete(h: Handle) returns (refusal: Option<Refusal>)
      modifies this
      ensures refusal == DeleteRefusal(old(Value()), h)
      ensures Value() == if refusal == None then MarkDeleting(old(Value()), h) else old(Value())
      ensures refusal == Some(ServiceClosed) <==> old(state) != Open
      ensures refusal == Some(NotFound) <==> old(state) == Open && h !in old(records)
      ensures refusal == None ==>
        h in old(records) && Value() == old(Value()).(records := old(records)[h := old(records)[h].(status := Deleting)])
    {
      if state != Open {
        return Some(ServiceClosed);
      }
      if h !in records {
        return Some(NotFound);
      }
      var _ := StartDeletion(h);
      refusal := None;
    }

    /** Refuses new work, remembers whom to wait for, and starts deleting every record. */
    method CloseBegins() returns (waited: set<Operation>, created: set<Runtime>)
      modifies this
      ensures Value() == BeginClose(old(Value()))
      ensures old(state) == Closed ==> Value() == old(Value()) && waited == {} && created == {}
      ensures old(state) != Closed ==>
        && Value() == old(Value()).(state := Closing, records := records)
        && records.Keys == old(records).Keys
        && forall h :: h in records ==> records[h] == old(records)[h].(status := Deleting)
      ensures old(state) != Closed ==> waited == old(pending)
      ensures old(state) != Closed ==> created == set h | h in old(records) && old(records[h]).status == Active :: old(records[h]).runtime
    {
      waited, created := {}, {};
      if state == Closed {
        return;
      }
      state := Closing;
      waited := pending;
      var todo := records.Keys;
      ghost var before := records;
      while todo != {}
        invariant todo <= before.Keys == records.Keys
        invariant forall h :: h in before ==> records[h] == if h in todo then before[h] else before[h].(status := Deleting)
        invariant created == set h | h in before && h !in todo && before[h].status == Active :: before[h].runtime
        invariant state == Closing && pending == old(pending)
        invariant reservedHandles == old(reservedHandles) && reservedSessions == old(reservedSessions)
        decreases todo
      {
        var h :| h in todo;
        var rt := records[h].runtime;
        var fresh_ := StartDeletion(h);
        todo := todo - {h};
        if fresh_ {
          created := created + {rt};
        }
      }
    }

    method CloseEnds()
      modifies this
      ensures Value() == EndClose(old(Value()))
      ensures Value() == Service(Closed, old(records), {}, {}, old(pending))
    {
      state := Closed;
      reservedHandles, reservedSessions := {}, {};
    }

    method DeletionEnds(h: Handle, sid: SessionId, rt: Runtime)
      modifies this
      ensures Value() == EndDeletion(old(Value()), h, sid, rt)
      ensures records == if h in old(records) && old(records)[h].runtime == rt then old(records) - {h} else old(records)
    {
      if h in records && records[h].runtime == rt {
        records := records - {h};
      }
      reservedHandles := reservedHandles - {h};
      reservedSessions := reservedSessions - {sid};
    }
  }
}
