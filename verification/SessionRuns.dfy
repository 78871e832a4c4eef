/** What a session does, step by step and over whole runs: when its lifecycle state changes,
    and that it can start, run any operations and close. */
module SessionRuns {
  import opened Basics
  import opened SessionProtocol

  // ---------------------------------------------------------------- when the state changes

  /** How the start comes out. */
  lemma StartComesOut(s: Session, delivered: bool)
    requires Reachable(s) && Enabled(s, StartResolves(delivered))
    ensures var t := Take(s, StartResolves(delivered)).state;
      && (t == Running <==> s.state == Created && delivered)
      && (t == Failed <==> !delivered)
      && (t == s.state <==> s.state != Created && delivered)
  {
    hide Reachable;
    ReachableInv(s);
  }

  /** Running is entered by the delivered start and in no other way. */
  lemma RunningExactly(s: Session, e: Event)
    requires Reachable(s) && Enabled(s, e)
    ensures Take(s, e).state == Running <==>
      || (s.state == Created && e == StartResolves(true))
      || (s.state == Running && e != CloseCalled && e != CollaboratorUnsettled && !e.RestoreUnprovable?
          && e != RestoreUnprovableWhileCancelled)
  {
    hide Reachable, Scan, Numbered;
    ReachableInv(s);
  }

  /** What makes a session fail: its start, its restore, or a collaborator that did not settle. */
  lemma FailsExactly(s: Session, e: Event)
    requires Reachable(s) && Enabled(s, e) && s.state != Failed
    ensures Take(s, e).state == Failed <==>
      || (s.state == Created && e == StartEnters(DeadlinePassed))
      || e == StartResolves(false)
      || (s.state == Running && e == CollaboratorUnsettled)
      || e.RestoreUnprovable? || e == RestoreUnprovableWhileCancelled
  {
    hide Reachable, Scan, Numbered;
    ReachableInv(s);
  }

  /** Closing begins when close is first called, and only the closer's own end closes. */
  lemma ClosesExactly(s: Session, e: Event)
    requires Reachable(s) && Enabled(s, e)
    ensures s.state != Closing ==> (Take(s, e).state == Closing <==> e == CloseCalled && s.closeTask == NotCreated)
    ensures s.state != Closed ==> (Take(s, e).state == Closed <==>
      || e == CloserEnters(ClockFails) || (e.AnnouncementResolves? && e.interrupted)
      || e.ResourcesReleased? || e == ReleaseInterrupted)
  {
    hide Reachable, Scan, Numbered;
    ReachableInv(s);
  }

  /** Who may enter: an operation while the session runs, a start once, the closer when called. */
  lemma EntersExactly(s: Session, op: Operation)
    requires Reachable(s) && s.holder == Free
    ensures Take(s, OperationEnters(op, Clear)).holder != Free <==> s.state == Running
    ensures Take(s, StartEnters(Clear)).holder != Free <==> s.state == Created
    ensures Enabled(s, CloserEnters(Clear)) <==> s.closeTask == Waiting
  {
  }

  // ---------------------------------------------------------------- runs

  lemma {:induction false} RunConcat(s: Session, a: seq<Event>, b: seq<Event>)
    requires Legal(s, a) && Legal(After(s, a), b)
    ensures Legal(s, a + b) && After(s, a + b) == After(After(s, a), b)
    decreases |a|
  {
    hide Take, Enabled;
    if a == [] {
      assert a + b == b;
    } else {
      RunConcat(Take(s, a[0]), a[1..], b);
      assert (a + b)[0] == a[0] && (a + b)[1..] == a[1..] + b;
    }
  }

  /** `states` are what the events lead through. */
  ghost predicate Leads(states: seq<Session>, events: seq<Event>) {
    && |states| == |events| + 1
    && forall i :: 0 <= i < |events| ==> Enabled(states[i], events[i]) && Take(states[i], events[i]) == states[i + 1]
  }

  lemma {:induction false} RunThrough(states: seq<Session>, events: seq<Event>)
    requires Leads(states, events)
    ensures Legal(states[0], events) && After(states[0], events) == states[|events|]
    decreases |events|
  {
    hide Take, Enabled;
    if events != [] {
      RunThrough(states[1..], events[1..]);
    }
  }

  datatype Job = Job(op: Operation, terminal: Terminal)

  const STARTS := [StartEnters(Clear), StartResolves(true)]
  const CLOSES := [CloseCalled, CloserEnters(Clear), AnnouncementResolves(true, false), ResourcesReleased(Clear), SignOffResolves(true)]

  function Performs(job: Job): seq<Event> {
    [OperationEnters(job.op, Clear), OpeningResolves(true), OperationEnds(job.terminal, Clear), EndResolves(true)]
  }

  function PerformsAll(jobs: seq<Job>): seq<Event> {
    if jobs == [] then [] else PerformsAll(jobs[..|jobs| - 1]) + Performs(jobs[|jobs| - 1])
  }

  function Delivered(kind: Kind, sequence: nat): Entry {
    Entry(kind, sequence, Sent(true))
  }

  /** A block for each job, delivered from sequence `n` on. */
  function Blocks(jobs: seq<Job>, n: nat): seq<Entry> {
    if jobs == [] then []
    else
      var last := |jobs| - 1;
      Blocks(jobs[..last], n)
      + [Delivered(OperationStarted(jobs[last].op), n + 2 * last), Delivered(OperationEnded(jobs[last].op, jobs[last].terminal), n + 2 * last + 1)]
  }

  lemma StartRuns()
    ensures Legal(FRESH, STARTS) && After(FRESH, STARTS) == Session(Running, 1, Free, NotCreated, [Delivered(SandboxStarted, 1)])
  {
    var s1 := Session(Created, 1, StarterEmits(1), NotCreated, []);
    var s2 := Session(Running, 1, Free, NotCreated, [Delivered(SandboxStarted, 1)]);
    assert Take(FRESH, StartEnters(Clear)) == s1 && Take(s1, StartResolves(true)) == s2;
    RunThrough([FRESH, s1, s2], STARTS);
  }

  lemma JobOpens(s: Session, s1: Session, s2: Session, job: Job)
    requires s.state == Running && s.holder == Free
    requires s1 == s.(sequence := s.sequence + 1, holder := OperationOpens(job.op, s.sequence + 1))
    requires s2 == s1.(holder := OperationActs(job.op), log := s.log + [Delivered(OperationStarted(job.op), s.sequence + 1)])
    ensures Enabled(s, OperationEnters(job.op, Clear)) && Take(s, OperationEnters(job.op, Clear)) == s1
    ensures Enabled(s1, OpeningResolves(true)) && Take(s1, OpeningResolves(true)) == s2
  {
  }

  lemma JobCloses(s: Session, s1: Session, s2: Session, job: Job)
    requires s.state == Running && s.holder == OperationActs(job.op)
    requires s1 == s.(sequence := s.sequence + 1, holder := OperationCloses(job.op, job.terminal, s.sequence + 1))
    requires s2 == s1.(holder := Free, log := s.log + [Delivered(OperationEnded(job.op, job.terminal), s.sequence + 1)])
    ensures Enabled(s, OperationEnds(job.terminal, Clear)) && Take(s, OperationEnds(job.terminal, Clear)) == s1
    ensures Enabled(s1, EndResolves(true)) && Take(s1, EndResolves(true)) == s2
  {
  }

  lemma JobRuns(s: Session, job: Job)
    requires s.state == Running && s.holder == Free
    ensures Legal(s, Performs(job))
    ensures After(s, Performs(job)) == s.(sequence := s.sequence + 2, log := s.log
      + [Delivered(OperationStarted(job.op), s.sequence + 1), Delivered(OperationEnded(job.op, job.terminal), s.sequence + 2)])
  {
    hide Take, Enabled;
    var n := s.sequence;
    var s1 := s.(sequence := n + 1, holder := OperationOpens(job.op, n + 1));
    var s2 := s1.(holder := OperationActs(job.op), log := s.log + [Delivered(OperationStarted(job.op), n + 1)]);
    var s3 := s2.(sequence := n + 2, holder := OperationCloses(job.op, job.terminal, n + 2));
    var s4 := s3.(holder := Free, log := s2.log + [Delivered(OperationEnded(job.op, job.terminal), n + 2)]);
    JobOpens(s, s1, s2, job);
    JobCloses(s2, s3, s4, job);
    RunThrough([s, s1, s2, s3, s4], Performs(job));
    assert s4.log == s.log
      + [Delivered(OperationStarted(job.op), n + 1), Delivered(OperationEnded(job.op, job.terminal), n + 2)];
  }

  lemma NoJobs(s: Session)
    ensures PerformsAll([]) == [] && Legal(s, []) && After(s, []) == s && s.log + Blocks([], s.sequence + 1) == s.log
  {
  }

  lemma LastJob(jobs: seq<Job>, n: nat)
    requires jobs != []
    ensures var last := |jobs| - 1;
      && PerformsAll(jobs) == PerformsAll(jobs[..last]) + Performs(jobs[last])
      && Blocks(jobs, n) == Blocks(jobs[..last], n)
        + [Delivered(OperationStarted(jobs[last].op), n + 2 * last),
           Delivered(OperationEnded(jobs[last].op, jobs[last].terminal), n + 2 * last + 1)]
  {
  }

  lemma {:induction false} JobsRun(s: Session, jobs: seq<Job>)
    requires s.state == Running && s.holder == Free
    ensures Legal(s, PerformsAll(jobs))
    ensures After(s, PerformsAll(jobs))
      == s.(sequence := s.sequence + 2 * |jobs|, log := s.log + Blocks(jobs, s.sequence + 1))
    decreases |jobs|
  {
    hide Legal, After, Performs, PerformsAll, Blocks, Take;
    if jobs == [] {
      NoJobs(s);
    } else {
      var last := |jobs| - 1;
      JobsRun(s, jobs[..last]);
      var t := After(s, PerformsAll(jobs[..last]));
      JobRuns(t, jobs[last]);
      RunConcat(s, PerformsAll(jobs[..last]), Performs(jobs[last]));
      LastJob(jobs, s.sequence + 1);
      Associative(s.log, Blocks(jobs[..last], s.sequence + 1),
        [Delivered(OperationStarted(jobs[last].op), t.sequence + 1),
         Delivered(OperationEnded(jobs[last].op, jobs[last].terminal), t.sequence + 2)]);
    }
  }

  lemma ClosingSteps(s: Session, s1: Session, s2: Session, s3: Session, s4: Session, s5: Session)
    requires s.state == Running && s.holder == Free && s.closeTask == NotCreated
    requires s1 == s.(state := Closing, closeTask := Waiting)
    requires s2 == s1.(sequence := s.sequence + 1, holder := CloserAnnounces(s.sequence + 1), closeTask := Entered)
    requires s3 == s2.(holder := CloserReleases, log := s.log + [Delivered(SandboxClosing, s.sequence + 1)])
    requires s4 == s3.(state := Closed, sequence := s.sequence + 2, holder := CloserSignsOff(s.sequence + 2))
    requires s5 == s4.(holder := Free, closeTask := Done, log := s3.log + [Delivered(SandboxClosed, s.sequence + 2)])
    ensures Enabled(s, CloseCalled) && Take(s, CloseCalled) == s1
    ensures Enabled(s1, CloserEnters(Clear)) && Take(s1, CloserEnters(Clear)) == s2
    ensures Enabled(s2, AnnouncementResolves(true, false)) && Take(s2, AnnouncementResolves(true, false)) == s3
    ensures Enabled(s3, ResourcesReleased(Clear)) && Take(s3, ResourcesReleased(Clear)) == s4
    ensures Enabled(s4, SignOffResolves(true)) && Take(s4, SignOffResolves(true)) == s5
  {
  }

  lemma CloseRuns(s: Session)
    requires s.state == Running && s.holder == Free && s.closeTask == NotCreated
    ensures Legal(s, CLOSES)
    ensures After(s, CLOSES) == Session(Closed, s.sequence + 2, Free, Done,
      s.log + [Delivered(SandboxClosing, s.sequence + 1), Delivered(SandboxClosed, s.sequence + 2)])
  {
    hide Take, Enabled, Legal, After;
    var n := s.sequence;
    var s1 := s.(state := Closing, closeTask := Waiting);
    var s2 := s1.(sequence := n + 1, holder := CloserAnnounces(n + 1), closeTask := Entered);
    var s3 := s2.(holder := CloserReleases, log := s.log + [Delivered(SandboxClosing, n + 1)]);
    var s4 := s3.(state := Closed, sequence := n + 2, holder := CloserSignsOff(n + 2));
    var s5 := s4.(holder := Free, closeTask := Done, log := s3.log + [Delivered(SandboxClosed, n + 2)]);
    ClosingSteps(s, s1, s2, s3, s4, s5);
    RunThrough([s, s1, s2, s3, s4, s5], CLOSES);
    Associative(s.log, [Delivered(SandboxClosing, n + 1)], [Delivered(SandboxClosed, n + 2)]);
    assert [Delivered(SandboxClosing, n + 1)] + [Delivered(SandboxClosed, n + 2)]
      == [Delivered(SandboxClosing, n + 1), Delivered(SandboxClosed, n + 2)];
  }

  /** Any operations, with any ends, can run in a session that starts and then closes: it runs
      until the close, and its log is the started event, one delivered block for each operation
      in order, and the two closing events, numbered from one without a gap. */
  lemma EverySessionCanRun(jobs: seq<Job>)
    ensures Legal(FRESH, STARTS + PerformsAll(jobs))
    ensures var running := After(FRESH, STARTS + PerformsAll(jobs));
      && running.state == Running && running.holder == Free
      && running.log == [Delivered(SandboxStarted, 1)] + Blocks(jobs, 2)
    ensures Legal(FRESH, STARTS + PerformsAll(jobs) + CLOSES)
    ensures var closed, n := After(FRESH, STARTS + PerformsAll(jobs) + CLOSES), 2 * |jobs| + 2;
      && closed.state == Closed && closed.closeTask == Done
      && closed.log == [Delivered(SandboxStarted, 1)] + Blocks(jobs, 2) + [Delivered(SandboxClosing, n), Delivered(SandboxClosed, n + 1)]
  {
    hide Legal, After, PerformsAll, Blocks;
    StartRuns();
    var s := After(FRESH, STARTS);
    JobsRun(s, jobs);
    RunConcat(FRESH, STARTS, PerformsAll(jobs));
    var t := After(s, PerformsAll(jobs));
    CloseRuns(t);
    RunConcat(FRESH, STARTS + PerformsAll(jobs), CLOSES);
  }

  // ---------------------------------------------------------------- how operations end

  /** The entry before an operation's end agrees with it: after its commit was announced the
      operation completes exactly if that was delivered, after a failure it does not, and
      otherwise it has only been opened. */
  predicate EndsRightly(before: Entry, op: Operation, t: Terminal) {
    match before.kind
    case SandboxFailed => t != Completed
    case PostCommit(of) => of == op && (t == Completed <==> before.fate == Sent(true))
    case OperationStarted(of) => of == op && before.fate == Sent(true)
    case _ => false
  }

  ghost predicate AllEndRightly(log: seq<Entry>) {
    forall i :: 0 <= i < |log| && log[i].kind.OperationEnded? ==>
      i > 0 && EndsRightly(log[i - 1], log[i].kind.op, log[i].kind.terminal)
  }

  /** What the holder has announced last allows the ends that it may still come to. */
  ghost predicate HolderAgrees(h: Holder, log: seq<Entry>) {
    match h
    case OperationActs(op) => Opened(log, op)
    case OperationReportsFailure(op, _) => Opened(log, op)
    case OperationCommits(op, _) => Opened(log, op)
    case OperationMustEnd(op, succeeded) =>
      log != [] && EndsRightly(log[|log| - 1], op, if succeeded then Completed else Broken)
    case OperationCloses(op, t, _) => log != [] && EndsRightly(log[|log| - 1], op, t)
    case _ => true
  }

  predicate Opened(log: seq<Entry>, op: Operation) {
    log != [] && log[|log| - 1].kind == OperationStarted(op) && log[|log| - 1].fate == Sent(true)
  }

  lemma EndsGrow(log: seq<Entry>, e: Entry)
    requires AllEndRightly(log)
    requires e.kind.OperationEnded? ==> log != [] && EndsRightly(log[|log| - 1], e.kind.op, e.kind.terminal)
    ensures AllEndRightly(log + [e])
  {
    hide EndsRightly;
  }

  lemma EndStep(s: Session, e: Event)
    requires AllEndRightly(s.log) && HolderAgrees(s.holder, s.log) && Enabled(s, e)
    ensures AllEndRightly(Take(s, e).log) && HolderAgrees(Take(s, e).holder, Take(s, e).log)
  {
    hide AllEndRightly;
    var t := Take(s, e);
    if t.log != s.log {
      assert t.log == s.log + [t.log[|s.log|]];
      EndsGrow(s.log, t.log[|s.log|]);
    }
  }

  lemma {:induction false} EndRun(s: Session, events: seq<Event>)
    requires AllEndRightly(s.log) && HolderAgrees(s.holder, s.log) && Legal(s, events)
    ensures AllEndRightly(After(s, events).log)
    decreases |events|
  {
    hide AllEndRightly, HolderAgrees, Take;
    if events != [] {
      EndStep(s, events[0]);
      EndRun(Take(s, events[0]), events[1..]);
    }
  }

  /** In every run, no operation ends as completed whose commit was announced and not delivered,
      or after its session was announced as failed, and one whose commit was delivered ends so. */
  lemma EveryEndIsRight(s: Session, i: nat)
    requires Reachable(s) && i < |s.log| && s.log[i].kind.OperationEnded?
    ensures i > 0 && EndsRightly(s.log[i - 1], s.log[i].kind.op, s.log[i].kind.terminal)
  {
    hide Legal, After;
    var events :| Legal(FRESH, events) && s == After(FRESH, events);
    EndRun(FRESH, events);
  }
}
