/** The session object itself: its fields, and one method for each stretch of `start`, of an
    operation and of `close` between two suspension points.  Each is proved to be the step of
    the state machine that `SessionProtocol` reasons about. */
module LiveSession {
  import opened SessionProtocol

  class SandboxSession {
    var state: State
    var eventSequence: nat
    var gate: Holder
    var closeTask: CloseTask
    ghost var log: seq<Entry>

    ghost function Value(): Session
      reads this
    {
      Session(state, eventSequence, gate, closeTask, log)
    }

    constructor ()
      ensures Value() == FRESH
    {
      state, eventSequence, gate, closeTask := Created, 0, Free, NotCreated;
      log := [];
    }

    /** `_new_event`: the sequence is spent even when the clock then fails. */
    method NewEvent() returns (sequence: nat)
      modifies this`eventSequence
      ensures eventSequence == sequence == old(eventSequence) + 1
    {
      eventSequence := eventSequence + 1;
      sequence := eventSequence;
    }

    /** `_new_event` and the first half of `_emit_event`: up to the call of the sink. */
    method EmitEvent(kind: Kind, weather: Weather, ghost waiting: Holder, otherwise: Holder) returns (sequence: nat)
      modifies this`eventSequence, this`gate, this`log
      ensures sequence == old(eventSequence) + 1
      ensures weather == Clear ==> gate == old(gate) && log == old(log) && eventSequence == sequence
      ensures weather != Clear ==> Value() == Emit(old(Value()), kind, weather, waiting, otherwise)
    {
      sequence := NewEvent();
      if weather != Clear {
        log := log + [Entry(kind, sequence, if weather == ClockFails then NoClock else Late)];
        gate := otherwise;
      }
    }

    /** The second half of `_emit_event`: the sink returned, or did not. */
    method SinkAnswers(kind: Kind, sequence: nat, delivered: bool, next: Holder)
      modifies this`gate, this`log
      ensures Value() == Settle(old(Value()), kind, sequence, delivered, next)
    {
      log := log + [Entry(kind, sequence, Sent(delivered))];
      gate := next;
    }

    method StartEnters(weather: Weather) returns (started: bool)
      requires Enabled(Value(), Event.StartEnters(weather))
      modifies this
      ensures Value() == Take(old(Value()), Event.StartEnters(weather))
      ensures started <==> old(state) == Created && weather == Clear
    {
      if state != Created {
        return false;
      }
      var sequence := EmitEvent(SandboxStarted, weather, StarterEmits(eventSequence + 1), Free);
      started := weather == Clear;
      if started {
        gate := StarterEmits(sequence);
      } else if weather == DeadlinePassed {
        state := Failed;
      }
    }

    method StartResolves(delivered: bool)
      requires Enabled(Value(), Event.StartResolves(delivered))
      modifies this
      ensures Value() == Take(old(Value()), Event.StartResolves(delivered))
      ensures state == if !delivered then Failed else if old(state) == Created then Running else old(state)
    {
      SinkAnswers(SandboxStarted, gate.sequence, delivered, Free);
      if !delivered {
        state := Failed;
      } else if state == Created {
        state := Running;
      }
    }

    method OperationEnters(op: Operation, weather: Weather) returns (admitted: bool)
      requires Enabled(Value(), Event.OperationEnters(op, weather))
      modifies this
      ensures Value() == Take(old(Value()), Event.OperationEnters(op, weather))
      ensures admitted <==> old(state) == Running && weather == Clear
    {
      if state != Running {
        return false;
      }
      var sequence := EmitEvent(OperationStarted(op), weather, OperationOpens(op, eventSequence + 1), Free);
      admitted := weather == Clear;
      if admitted {
        gate := OperationOpens(op, sequence);
      }
    }

    method OpeningResolves(delivered: bool)
      requires Enabled(Value(), Event.OpeningResolves(delivered))
      modifies this
      ensures Value() == Take(old(Value()), Event.OpeningResolves(delivered))
    {
      var op := gate.op;
      SinkAnswers(OperationStarted(op), gate.sequence, delivered, if delivered then OperationActs(op) else Free);
    }

    method FailClosedForUnsettledCollaborator()
      requires Enabled(Value(), CollaboratorUnsettled)
      modifies this
      ensures Value() == Take(old(Value()), CollaboratorUnsettled)
    {
      if state == Running {
        state := Failed;
      }
    }

    method RestoreUnprovable(weather: Weather)
      requires Enabled(Value(), Event.RestoreUnprovable(weather))
      modifies this
      ensures Value() == Take(old(Value()), Event.RestoreUnprovable(weather))
    {
      var op := gate.op;
      state := Failed;
      var sequence := EmitEvent(SandboxFailed, weather, OperationReportsFailure(op, eventSequence + 1), OperationMustEnd(op, false));
      if weather == Clear {
        gate := OperationReportsFailure(op, sequence);
      }
    }

    method RestoreUnprovableWhileCancelled()
      requires Enabled(Value(), Event.RestoreUnprovableWhileCancelled)
      modifies this
      ensures Value() == Take(old(Value()), Event.RestoreUnprovableWhileCancelled)
    {
      state := Failed;
      gate := OperationMustEnd(gate.op, false);
    }

    method FailureResolves(delivered: bool)
      requires Enabled(Value(), Event.FailureResolves(delivered))
      modifies this
      ensures Value() == Take(old(Value()), Event.FailureResolves(delivered))
    {
      SinkAnswers(SandboxFailed, gate.sequence, delivered, OperationMustEnd(gate.op, false));
    }

    method CommitEmits(weather: Weather)
      requires Enabled(Value(), Event.CommitEmits(weather))
      modifies this
      ensures Value() == Take(old(Value()), Event.CommitEmits(weather))
    {
      var op := gate.op;
      var sequence := EmitEvent(PostCommit(op), weather, OperationCommits(op, eventSequence + 1), OperationMustEnd(op, false));
      if weather == Clear {
        gate := OperationCommits(op, sequence);
      }
    }

    method CommitResolves(delivered: bool)
      requires Enabled(Value(), Event.CommitResolves(delivered))
      modifies this
      ensures Value() == Take(old(Value()), Event.CommitResolves(delivered))
    {
      SinkAnswers(PostCommit(gate.op), gate.sequence, delivered, OperationMustEnd(gate.op, delivered));
    }

    method EmitTerminal(terminal: Terminal, weather: Weather)
      requires Enabled(Value(), OperationEnds(terminal, weather))
      modifies this
      ensures Value() == Take(old(Value()), OperationEnds(terminal, weather))
    {
      var op := gate.op;
      var sequence := EmitEvent(OperationEnded(op, terminal), weather, OperationCloses(op, terminal, eventSequence + 1), Free);
      if weather == Clear {
        gate := OperationCloses(op, terminal, sequence);
      }
    }

    method EndResolves(delivered: bool)
      requires Enabled(Value(), Event.EndResolves(delivered))
      modifies this
      ensures Value() == Take(old(Value()), Event.EndResolves(delivered))
    {
      SinkAnswers(OperationEnded(gate.op, gate.terminal), gate.sequence, delivered, Free);
    }

    /** Only the first close creates the close task. */
    method Close() returns (created: bool)
      modifies this
      ensures Value() == Take(old(Value()), CloseCalled)
      ensures created <==> old(closeTask) == NotCreated && old(state) != Closed
    {
      if closeTask != NotCreated || state == Closed {
        return false;
      }
      state := Closing;
      closeTask := Waiting;
      created := true;
    }

    method CloserEnters(weather: Weather)
      requires Enabled(Value(), Event.CloserEnters(weather))
      modifies this
      ensures Value() == Take(old(Value()), Event.CloserEnters(weather))
    {
      var sequence := EmitEvent(SandboxClosing, weather, CloserAnnounces(eventSequence + 1),
        if weather == ClockFails then Free else CloserReleases);
      closeTask := Entered;
      if weather == Clear {
        gate := CloserAnnounces(sequence);
      } else if weather == ClockFails {
        state := Closed;
        closeTask := Done;
      }
    }

    method AnnouncementResolves(delivered: bool, interrupted: bool)
      requires Enabled(Value(), Event.AnnouncementResolves(delivered, interrupted))
      modifies this
      ensures Value() == Take(old(Value()), Event.AnnouncementResolves(delivered, interrupted))
    {
      if interrupted {
        SinkAnswers(SandboxClosing, gate.sequence, false, Free);
        state := Closed;
        closeTask := Done;
      } else {
        SinkAnswers(SandboxClosing, gate.sequence, delivered, CloserReleases);
      }
    }

    method ResourcesReleased(weather: Weather)
      requires Enabled(Value(), Event.ResourcesReleased(weather))
      modifies this
      ensures Value() == Take(old(Value()), Event.ResourcesReleased(weather))
    {
      state := Closed;
      var sequence := EmitEvent(SandboxClosed, weather, CloserSignsOff(eventSequence + 1), Free);
      if weather == Clear {
        gate := CloserSignsOff(sequence);
      } else {
        closeTask := Done;
      }
    }

    method ReleaseInterrupted()
      requires Enabled(Value(), Event.ReleaseInterrupted)
      modifies this
      ensures Value() == Take(old(Value()), Event.ReleaseInterrupted)
    {
      state := Closed;
      closeTask := Done;
      gate := Free;
    }

    method SignOffResolves(delivered: bool)
      requires Enabled(Value(), Event.SignOffResolves(delivered))
      modifies this
      ensures Value() == Take(old(Value()), Event.SignOffResolves(delivered))
    {
      SinkAnswers(SandboxClosed, gate.sequence, delivered, Free);
      closeTask := Done;
    }
  }
}
