/** One session as a state machine over the suspension points of start, every operation and
    close.  The gate is held by at most one of them; only its holder emits events. */
module SessionProtocol {
  import opened Basics
  import EventSink

  type Operation = nat

  datatype State = Created | Running | Closing | Closed | Failed

  datatype Terminal = Completed | Broken | Cancelled | TimedOut

  datatype Kind =
    | SandboxStarted | SandboxClosing | SandboxClosed | SandboxFailed
    | OperationStarted(op: Operation)
    | PostCommit(op: Operation)
    | OperationEnded(op: Operation, terminal: Terminal)

  /** What became of one attempt to emit: the clock did not answer, the deadline had passed
      before the sink was called, or the sink was called and returned or did not. */
  datatype Fate = NoClock | Late | Sent(delivered: bool)

  datatype Entry = Entry(kind: Kind, sequence: nat, fate: Fate)

  datatype Weather = Clear | ClockFails | DeadlinePassed

  /** Who holds the gate and where it is suspended; the `...Emits` points have one event at
      the sink. */
  datatype Holder =
    | Free
    | StarterEmits(sequence: nat)
    | OperationOpens(op: Operation, sequence: nat)
    | OperationActs(op: Operation)
    | OperationReportsFailure(op: Operation, sequence: nat)
    | OperationCommits(op: Operation, sequence: nat)
    | OperationMustEnd(op: Operation, succeeded: bool)
    | OperationCloses(op: Operation, terminal: Terminal, sequence: nat)
    | CloserAnnounces(sequence: nat)
    | CloserReleases
    | CloserSignsOff(sequence: nat)

  datatype CloseTask = NotCreated | Waiting | Entered | Done

  datatype Session = Session(state: State, sequence: nat, holder: Holder, closeTask: CloseTask, log: seq<Entry>)

  const FRESH := Session(Created, 0, Free, NotCreated, [])

  datatype Event =
    | StartEnters(weather: Weather)
    | StartResolves(delivered: bool)
    | OperationEnters(op: Operation, weather: Weather)
    | OpeningResolves(delivered: bool)
    | CollaboratorUnsettled
    | RestoreUnprovable(weather: Weather)       // publication failed: announce it
    | RestoreUnprovableWhileCancelled           // the same during native cancellation: no announcement
    | FailureResolves(delivered: bool)
    | CommitEmits(weather: Weather)
    | CommitResolves(delivered: bool)
    | OperationEnds(terminal: Terminal, weather: Weather)
    | EndResolves(delivered: bool)
    | CloseCalled
    | CloserEnters(weather: Weather)
    | AnnouncementResolves(delivered: bool, interrupted: bool)
    | ResourcesReleased(weather: Weather)
    | ReleaseInterrupted
    | SignOffResolves(delivered: bool)

  predicate Enabled(s: Session, e: Event) {
    match e
    case StartEnters(_) => s.holder == Free
    case StartResolves(_) => s.holder.StarterEmits?
    case OperationEnters(_, _) => s.holder == Free
    case OpeningResolves(_) => s.holder.OperationOpens?
    case CollaboratorUnsettled => s.holder.OperationActs?
    case RestoreUnprovable(_) => s.holder.OperationActs?
    case RestoreUnprovableWhileCancelled => s.holder.OperationActs?
    case FailureResolves(_) => s.holder.OperationReportsFailure?
    case CommitEmits(_) => s.holder.OperationActs?
    case CommitResolves(_) => s.holder.OperationCommits?
    case OperationEnds(t, _) =>
      s.holder.OperationActs? || (s.holder.OperationMustEnd? && (s.holder.succeeded <==> t == Completed))
    case EndResolves(_) => s.holder.OperationCloses?
    case CloseCalled => true
    case CloserEnters(_) => s.holder == Free && s.closeTask == Waiting
    case AnnouncementResolves(_, _) => s.holder.CloserAnnounces?
    case ResourcesReleased(_) => s.holder == CloserReleases
    case ReleaseInterrupted => s.holder == CloserReleases
    case SignOffResolves(_) => s.holder.CloserSignsOff?
  }

  /** `_new_event` counts before it asks the clock; `_emit_event` looks at the deadline before
      it calls the sink.  With a clear sky the event is at the sink and the holder waits. */
  function Emit(s: Session, kind: Kind, weather: Weather, waiting: Holder, otherwise: Holder): Session {
    var n := s.sequence + 1;
    match weather
    case Clear => s.(sequence := n, holder := waiting)
    case ClockFails => s.(sequence := n, holder := otherwise, log := s.log + [Entry(kind, n, NoClock)])
    case DeadlinePassed => s.(sequence := n, holder := otherwise, log := s.log + [Entry(kind, n, Late)])
  }

  function Settle(s: Session, kind: Kind, n: nat, delivered: bool, next: Holder): Session {
    s.(holder := next, log := s.log + [Entry(kind, n, Sent(delivered))])
  }

  function Take(s: Session, e: Event): Session
    requires Enabled(s, e)
  {
    match e
    case StartEnters(w) =>
      if s.state != Created then s
      else
        var t := Emit(s, SandboxStarted, w, StarterEmits(s.sequence + 1), Free);
        if w == DeadlinePassed then t.(state := Failed) else t
    case StartResolves(d) =>
      var t := Settle(s, SandboxStarted, s.holder.sequence, d, Free);
      if !d then t.(state := Failed) else if s.state == Created then t.(state := Running) else t
    case OperationEnters(op, w) =>
      if s.state != Running then s
      else Emit(s, OperationStarted(op), w, OperationOpens(op, s.sequence + 1), Free)
    case OpeningResolves(d) =>
      var op := s.holder.op;
      Settle(s, OperationStarted(op), s.holder.sequence, d, if d then OperationActs(op) else Free)
    case CollaboratorUnsettled => if s.state == Running then s.(state := Failed) else s
    case RestoreUnprovable(w) =>
      var op := s.holder.op;
      Emit(s.(state := Failed), SandboxFailed, w, OperationReportsFailure(op, s.sequence + 1), OperationMustEnd(op, false))
    case RestoreUnprovableWhileCancelled => s.(state := Failed, holder := OperationMustEnd(s.holder.op, false))
    case FailureResolves(d) =>
      Settle(s, SandboxFailed, s.holder.sequence, d, OperationMustEnd(s.holder.op, false))
    case CommitEmits(w) =>
      var op := s.holder.op;
      Emit(s, PostCommit(op), w, OperationCommits(op, s.sequence + 1), OperationMustEnd(op, false))
    case CommitResolves(d) =>
      Settle(s, PostCommit(s.holder.op), s.holder.sequence, d, OperationMustEnd(s.holder.op, d))
    case OperationEnds(t, w) =>
      var op := s.holder.op;
      Emit(s, OperationEnded(op, t), w, OperationCloses(op, t, s.sequence + 1), Free)
    case EndResolves(d) =>
      Settle(s, OperationEnded(s.holder.op, s.holder.terminal), s.holder.sequence, d, Free)
    case CloseCalled =>
      if s.closeTask != NotCreated || s.state == Closed then s else s.(state := Closing, closeTask := Waiting)
    case CloserEnters(w) =>
      var t := Emit(s, SandboxClosing, w, CloserAnnounces(s.sequence + 1), if w == ClockFails then Free else CloserReleases);
      if w == ClockFails then t.(state := Closed, closeTask := Done) else t.(closeTask := Entered)
    case AnnouncementResolves(d, interrupted) =>
      if interrupted then Settle(s, SandboxClosing, s.holder.sequence, false, Free).(state := Closed, closeTask := Done)
      else Settle(s, SandboxClosing, s.holder.sequence, d, CloserReleases)
    case ResourcesReleased(w) =>
      var t := Emit(s.(state := Closed), SandboxClosed, w, CloserSignsOff(s.sequence + 1), Free);
      if w == Clear then t else t.(closeTask := Done)
    case ReleaseInterrupted => s.(state := Closed, holder := Free, closeTask := Done)
    case SignOffResolves(d) => Settle(s, SandboxClosed, s.holder.sequence, d, Free).(closeTask := Done)
  }

  predicate Legal(s: Session, events: seq<Event>)
    decreases |events|
  {
    events == [] || (Enabled(s, events[0]) && Legal(Take(s, events[0]), events[1..]))
  }

  function After(s: Session, events: seq<Event>): Session
    requires Legal(s, events)
    decreases |events|
  {
    if events == [] then s else After(Take(s, events[0]), events[1..])
  }

  ghost predicate Reachable(s: Session) {
    exists events :: Legal(FRESH, events) && s == After(FRESH, events)
  }

  // ---------------------------------------------------------------- the grammar of a log

  /** Where a reader of the log is.  A block is open from a delivered start to its terminal
      entry; `Barren` means the session never started and only its close can follow. */
  datatype Phase = Fresh | Barren | Idle | Block(op: Operation) | ShuttingDown | Over | Bad

  function Next(p: Phase, e: Entry): Phase {
    match e.kind
    case SandboxStarted =>
      if p != Fresh then Bad
      else if e.fate == NoClock then Fresh
      else if e.fate == Sent(true) then Idle
      else Barren
    case OperationStarted(op) => if p != Idle then Bad else if e.fate == Sent(true) then Block(op) else Idle
    case PostCommit(op) => if p == Block(op) then p else Bad
    case SandboxFailed => if p.Block? then p else Bad
    case OperationEnded(op, _) => if p == Block(op) then Idle else Bad
    case SandboxClosing =>
      if p !in {Fresh, Barren, Idle} then Bad else if e.fate == NoClock then Over else ShuttingDown
    case SandboxClosed => if p == ShuttingDown then Over else Bad
  }

  function Scan(log: seq<Entry>): Phase {
    if log == [] then Fresh else Next(Scan(log[..|log| - 1]), log[|log| - 1])
  }

  lemma ScanAppend(log: seq<Entry>, e: Entry)
    ensures Scan(log + [e]) == Next(Scan(log), e)
  {
    assert (log + [e])[..|log|] == log;
  }

  ghost predicate Increasing(log: seq<Entry>, bound: nat) {
    && (forall i :: 0 <= i < |log| ==> log[i].sequence <= bound)
    && (forall i, j :: 0 <= i < j < |log| ==> log[i].sequence < log[j].sequence)
  }

  /** The sequence of the event that is at the sink, if one is. */
  function InFlight(h: Holder): Option<nat> {
    match h
    case StarterEmits(n) => Some(n)
    case OperationOpens(_, n) => Some(n)
    case OperationReportsFailure(_, n) => Some(n)
    case OperationCommits(_, n) => Some(n)
    case OperationCloses(_, _, n) => Some(n)
    case CloserAnnounces(n) => Some(n)
    case CloserSignsOff(n) => Some(n)
    case _ => None
  }

  /** The operation whose block is open. */
  function BlockOf(h: Holder): Option<Operation> {
    match h
    case OperationActs(op) => Some(op)
    case OperationReportsFailure(op, _) => Some(op)
    case OperationCommits(op, _) => Some(op)
    case OperationMustEnd(op, _) => Some(op)
    case OperationCloses(op, _, _) => Some(op)
    case _ => None
  }

  /** Sequences only grow, and the event at the sink has the newest one. */
  ghost predicate Numbered(s: Session) {
    match InFlight(s.holder)
    case None => Increasing(s.log, s.sequence)
    case Some(n) => n == s.sequence && n > 0 && Increasing(s.log, n - 1)
  }

  /** The reader of the log is exactly where the holder of the gate is, and the lifecycle
      state agrees with both. */
  predicate Consistent(s: Session, p: Phase) {
    var closer := s.holder.CloserAnnounces? || s.holder.CloserReleases? || s.holder.CloserSignsOff?;
    && (if BlockOf(s.holder).Some? then p == Block(BlockOf(s.holder).value)
        else if s.holder.StarterEmits? then p == Fresh
        else if s.holder.OperationOpens? then p == Idle
        else if s.holder.CloserAnnounces? then p in {Fresh, Barren, Idle}
        else if s.holder.CloserReleases? || s.holder.CloserSignsOff? then p == ShuttingDown
        else if s.closeTask == Done then p in {ShuttingDown, Over}
        else p in {Fresh, Barren, Idle})
    && (s.closeTask == NotCreated ==> s.state in {Created, Running, Failed})
    && (s.closeTask != NotCreated ==> s.state in {Closing, Failed, Closed})
    && (s.state == Closed <==> s.closeTask == Done || s.holder.CloserSignsOff?)
    && (s.closeTask == Entered <==> closer)
    && (s.closeTask == Done ==> s.holder == Free)
    && (s.state == Created ==> p == Fresh && (s.holder == Free || s.holder.StarterEmits?))
    && (s.state == Running ==> p == Idle || p.Block?)
    && (s.holder.StarterEmits? ==> s.state == Created || s.state == Closing)
  }

  ghost predicate Inv(s: Session) {
    Numbered(s) && Consistent(s, Scan(s.log))
  }

  /** Every event emits, settles what was at the sink, or does neither. */
  datatype Effect = Quiet | Emits(kind: Kind, weather: Weather) | Settles(kind: Kind, delivered: bool)

  function EffectOf(s: Session, e: Event): Effect
    requires Enabled(s, e)
  {
    match e
    case StartEnters(w) => if s.state != Created then Quiet else Emits(SandboxStarted, w)
    case StartResolves(d) => Settles(SandboxStarted, d)
    case OperationEnters(op, w) => if s.state != Running then Quiet else Emits(OperationStarted(op), w)
    case OpeningResolves(d) => Settles(OperationStarted(s.holder.op), d)
    case CollaboratorUnsettled => Quiet
    case RestoreUnprovable(w) => Emits(SandboxFailed, w)
    case RestoreUnprovableWhileCancelled => Quiet
    case FailureResolves(d) => Settles(SandboxFailed, d)
    case CommitEmits(w) => Emits(PostCommit(s.holder.op), w)
    case CommitResolves(d) => Settles(PostCommit(s.holder.op), d)
    case OperationEnds(t, w) => Emits(OperationEnded(s.holder.op, t), w)
    case EndResolves(d) => Settles(OperationEnded(s.holder.op, s.holder.terminal), d)
    case CloseCalled => Quiet
    case CloserEnters(w) => Emits(SandboxClosing, w)
    case AnnouncementResolves(d, interrupted) => Settles(SandboxClosing, d && !interrupted)
    case ResourcesReleased(w) => Emits(SandboxClosed, w)
    case ReleaseInterrupted => Quiet
    case SignOffResolves(d) => Settles(SandboxClosed, d)
  }

  /** What an effect does to the counter, the log and the event at the sink. */
  predicate Follows(s: Session, f: Effect, t: Session) {
    match f
    case Quiet => t.sequence == s.sequence && t.log == s.log && InFlight(t.holder) == InFlight(s.holder)
    case Emits(kind, w) =>
      && InFlight(s.holder) == None && t.sequence == s.sequence + 1
      && (w == Clear ==> InFlight(t.holder) == Some(s.sequence + 1) && t.log == s.log)
      && (w != Clear ==> InFlight(t.holder) == None)
      && (w != Clear ==> t.log == s.log + [Entry(kind, s.sequence + 1, if w == ClockFails then NoClock else Late)])
    case Settles(kind, d) =>
      && InFlight(s.holder).Some? && InFlight(t.holder) == None && t.sequence == s.sequence
      && t.log == s.log + [Entry(kind, InFlight(s.holder).value, Sent(d))]
  }

  lemma TakeFollows(s: Session, e: Event)
    requires Enabled(s, e)
    ensures Follows(s, EffectOf(s, e), Take(s, e))
  {
  }

  lemma NumberedFollows(s: Session, f: Effect, t: Session)
    requires Numbered(s) && Follows(s, f, t)
    ensures Numbered(t)
  {
  }

  lemma NumberedStep(s: Session, e: Event)
    requires Numbered(s) && Enabled(s, e)
    ensures Numbered(Take(s, e))
  {
    TakeFollows(s, e);
    NumberedFollows(s, EffectOf(s, e), Take(s, e));
  }

  /** Where the reader of the log is after an effect. */
  function PhaseAfter(s: Session, f: Effect): Phase {
    match f
    case Quiet => Scan(s.log)
    case Emits(kind, w) =>
      if w == Clear then Scan(s.log)
      else Next(Scan(s.log), Entry(kind, s.sequence + 1, if w == ClockFails then NoClock else Late))
    case Settles(kind, d) => Next(Scan(s.log), Entry(kind, s.sequence, Sent(d)))
  }

  lemma PhaseFollows(s: Session, f: Effect, t: Session)
    requires Numbered(s) && Follows(s, f, t)
    ensures Scan(t.log) == PhaseAfter(s, f)
  {
    if |t.log| > |s.log| {
      ScanAppend(s.log, t.log[|s.log|]);
    }
  }

  lemma ConsistentStep(s: Session, e: Event)
    requires Enabled(s, e) && Consistent(s, Scan(s.log))
    ensures Consistent(Take(s, e), PhaseAfter(s, EffectOf(s, e)))
  {
    hide Scan;
  }

  lemma InvStep(s: Session, e: Event)
    requires Inv(s) && Enabled(s, e)
    ensures Inv(Take(s, e))
  {
    NumberedStep(s, e);
    TakeFollows(s, e);
    PhaseFollows(s, EffectOf(s, e), Take(s, e));
    ConsistentStep(s, e);
  }

  lemma {:induction false} RunInv(s: Session, events: seq<Event>)
    requires Inv(s) && Legal(s, events)
    ensures Inv(After(s, events))
    decreases |events|
  {
    if events != [] {
      InvStep(s, events[0]);
      RunInv(Take(s, events[0]), events[1..]);
    }
  }

  lemma ReachableInv(s: Session)
    requires Reachable(s)
    ensures Inv(s)
  {
    var events :| Legal(FRESH, events) && s == After(FRESH, events);
    RunInv(FRESH, events);
  }

  // ---------------------------------------------------------------- what the grammar says

  lemma {:induction false} PrefixNotBad(log: seq<Entry>, n: nat)
    requires n <= |log| && Scan(log) != Bad
    ensures Scan(log[..n]) != Bad
    decreases |log|
  {
    if n < |log| {
      var last := |log| - 1;
      assert log[..last][..n] == log[..n];
      PrefixNotBad(log[..last], n);
    } else {
      assert log[..n] == log;
    }
  }

  lemma ScanAt(log: seq<Entry>, i: nat)
    requires i < |log| && Scan(log) != Bad
    ensures Scan(log[..i]) != Bad && Scan(log[..i + 1]) != Bad
    ensures Scan(log[..i + 1]) == Next(Scan(log[..i]), log[i])
  {
    PrefixNotBad(log, i);
    PrefixNotBad(log, i + 1);
    assert log[..i + 1][..i] == log[..i];
  }

  predicate InsideBlock(e: Entry, op: Operation) {
    e.kind == PostCommit(op) || e.kind == SandboxFailed
  }

  predicate Opens(e: Entry, op: Operation) {
    e.kind == OperationStarted(op) && e.fate == Sent(true)
  }

  predicate Ends(e: Entry, op: Operation) {
    e.kind.OperationEnded? && e.kind.op == op
  }

  /** Reading on from a delivered start, the block runs until its one terminal entry, or to
      the end of the log. */
  lemma {:induction false} BlockRuns(log: seq<Entry>, i: nat, op: Operation) returns (j: nat)
    requires Scan(log) != Bad && i < |log| && Opens(log[i], op)
    ensures i < j <= |log| && forall k :: i < k < j ==> InsideBlock(log[k], op)
    ensures j == |log| ==> Scan(log) == Block(op)
    ensures j < |log| ==> Ends(log[j], op) && Scan(log[..j + 1]) == Idle
  {
    ScanAt(log, i);
    j := i + 1;
    while j < |log| && !Ends(log[j], op)
      invariant i < j <= |log| && Scan(log[..j]) == Block(op)
      invariant forall k :: i < k < j ==> InsideBlock(log[k], op)
    {
      ScanAt(log, j);
      j := j + 1;
    }
    if j < |log| {
      ScanAt(log, j);
    } else {
      assert log[..j] == log;
    }
  }

  /** Before the gate is released, every delivered start has exactly one terminal entry, and
      the two enclose nothing but the operation's own events: blocks do not overlap. */
  lemma EveryStartEndsOnce(s: Session, i: nat, op: Operation) returns (j: nat)
    requires Reachable(s) && s.holder == Free && i < |s.log| && Opens(s.log[i], op)
    ensures i < j < |s.log| && Ends(s.log[j], op)
    ensures forall k :: i < k < j ==> InsideBlock(s.log[k], op)
  {
    ReachableInv(s);
    j := BlockRuns(s.log, i, op);
  }

  lemma EndInLog(log: seq<Entry>, j: nat, op: Operation) returns (i: nat)
    requires Scan(log) != Bad && j < |log| && (Ends(log[j], op) || log[j].kind == PostCommit(op))
    ensures i < j && Opens(log[i], op) && forall k :: i < k < j ==> InsideBlock(log[k], op)
  {
    ScanAt(log, j);
    i := BlockOpened(log[..j], op);
  }

  lemma NeverBad(s: Session)
    requires Reachable(s)
    ensures Scan(s.log) != Bad
  {
    ReachableInv(s);
  }

  /** A terminal or post-commit entry belongs to a block that a delivered start of the same
      operation opened. */
  lemma EveryEndHasAStart(s: Session, j: nat, op: Operation) returns (i: nat)
    requires Reachable(s) && j < |s.log| && (Ends(s.log[j], op) || s.log[j].kind == PostCommit(op))
    ensures i < j && Opens(s.log[i], op) && forall k :: i < k < j ==> InsideBlock(s.log[k], op)
  {
    NeverBad(s);
    i := EndInLog(s.log, j, op);
  }

  lemma {:induction false} BlockOpened(log: seq<Entry>, op: Operation) returns (i: nat)
    requires Scan(log) == Block(op)
    ensures i < |log| && Opens(log[i], op) && forall k :: i < k < |log| ==> InsideBlock(log[k], op)
  {
    var last := |log| - 1;
    if Opens(log[last], op) {
      i := last;
    } else {
      i := BlockOpened(log[..last], op);
    }
  }

  lemma AfterClosing(p: Phase, e: Entry)
    requires (e.kind == SandboxClosing || e.kind == SandboxClosed) && Next(p, e) != Bad
    ensures Next(p, e) in {ShuttingDown, Over}
    ensures e.kind == SandboxClosing ==> p !in {ShuttingDown, Over}
  {
  }

  lemma AfterShut(p: Phase, e: Entry)
    requires p in {ShuttingDown, Over} && Next(p, e) != Bad
    ensures e.kind == SandboxClosed && Next(p, e) == Over && p != Over
  {
  }

  lemma ClosingInLog(log: seq<Entry>, i: nat)
    requires Scan(log) != Bad && i < |log| && log[i].kind == SandboxClosing
    ensures |log| <= i + 2
    ensures |log| == i + 2 ==> log[i + 1].kind == SandboxClosed
    ensures forall k :: 0 <= k < i ==> log[k].kind != SandboxClosing && log[k].kind != SandboxClosed
  {
    hide Next, Scan;
    ScanAt(log, i);
    AfterClosing(Scan(log[..i]), log[i]);
    if i + 1 < |log| {
      ScanAt(log, i + 1);
      AfterShut(Scan(log[..i + 1]), log[i + 1]);
      if i + 2 < |log| {
        ScanAt(log, i + 2);
        AfterShut(Scan(log[..i + 2]), log[i + 2]);
      }
    }
    forall k | 0 <= k < i ensures log[k].kind != SandboxClosing && log[k].kind != SandboxClosed {
      ScanAt(log, k);
      if log[k].kind == SandboxClosing || log[k].kind == SandboxClosed {
        AfterClosing(Scan(log[..k]), log[k]);
        StaysShut(log, k + 1, i);
      }
    }
  }

  /** Nothing but the closed event follows the closing event, and nothing follows that. */
  lemma ClosingIsLast(s: Session, i: nat)
    requires Reachable(s) && i < |s.log| && s.log[i].kind == SandboxClosing
    ensures |s.log| <= i + 2
    ensures |s.log| == i + 2 ==> s.log[i + 1].kind == SandboxClosed
    ensures forall k :: 0 <= k < i ==> s.log[k].kind != SandboxClosing && s.log[k].kind != SandboxClosed
  {
    NeverBad(s);
    ClosingInLog(s.log, i);
  }

  lemma {:induction false} StaysShut(log: seq<Entry>, k: nat, i: nat)
    requires Scan(log) != Bad && k <= i < |log| && Scan(log[..k]) in {ShuttingDown, Over}
    ensures Scan(log[..i]) in {ShuttingDown, Over}
    decreases i
  {
    hide Next, Scan;
    if k < i {
      StaysShut(log, k, i - 1);
      ScanAt(log, i - 1);
      AfterShut(Scan(log[..i - 1]), log[i - 1]);
    }
  }

  /** The lifecycle only moves forward: RUNNING is entered at most once, from CREATED, and
      CLOSED is never left. */
  function Rank(state: State): nat {
    match state
    case Created => 0
    case Running => 1
    case Closing => 2
    case Failed => 2
    case Closed => 3
  }

  lemma RankStep(s: Session, e: Event)
    requires Inv(s) && Enabled(s, e)
    ensures Rank(s.state) <= Rank(Take(s, e).state)
  {
  }

  lemma {:induction false} LifecycleMovesForward(s: Session, events: seq<Event>)
    requires Inv(s) && Legal(s, events)
    ensures Rank(s.state) <= Rank(After(s, events).state)
    decreases |events|
  {
    if events != [] {
      RankStep(s, events[0]);
      InvStep(s, events[0]);
      LifecycleMovesForward(Take(s, events[0]), events[1..]);
    }
  }

  /** Once the close task is done, no continuation emits anything or changes the state. */
  lemma {:induction false} SilentAfterClose(s: Session, events: seq<Event>)
    requires Reachable(s) && s.closeTask == Done && Legal(s, events)
    ensures After(s, events) == s
  {
    ReachableInv(s);
    SilentRun(s, events);
  }

  lemma {:induction false} SilentRun(s: Session, events: seq<Event>)
    requires Consistent(s, Scan(s.log)) && s.closeTask == Done && Legal(s, events)
    ensures After(s, events) == s
    decreases |events|
  {
    if events != [] {
      assert Take(s, events[0]) == s;
      SilentRun(s, events[1..]);
    }
  }

  // ---------------------------------------------------------------- the sink never objects to the order

  /** The sequences of the entries that were offered to the sink, in order. */
  function OfferedSequences(log: seq<Entry>): seq<nat> {
    if log == [] then []
    else
      var last := |log| - 1;
      OfferedSequences(log[..last]) + (if log[last].fate.Sent? then [log[last].sequence] else [])
  }

  ghost predicate Rising(q: seq<nat>, bound: nat) {
    && (forall i :: 0 <= i < |q| ==> q[i] <= bound)
    && (forall i, j :: 0 <= i < j < |q| ==> q[i] < q[j])
  }

  lemma {:induction false} OfferedIncrease(log: seq<Entry>, bound: nat)
    requires Increasing(log, bound)
    ensures Rising(OfferedSequences(log), bound)
  {
    if log != [] {
      var last := |log| - 1;
      var n := log[last].sequence;
      if last == 0 {
        assert OfferedSequences(log[..0]) == [];
      } else {
        assert forall i :: 0 <= i < last ==> log[i].sequence < log[last].sequence;
        assert log[0].sequence < n;
        OfferedIncrease(log[..last], n - 1);
        assert Rising(OfferedSequences(log[..last]), n - 1);
        assert n <= bound;
      }
    }
  }

  lemma OffersAscend(s: Session)
    requires Reachable(s)
    ensures EventSink.Ascending(OfferedSequences(s.log))
  {
    hide Reachable, OfferedSequences;
    ReachableInv(s);
    OfferedIncrease(s.log, s.sequence);
  }

  /** Whatever a session's run, whatever other sessions offer to the same sink in between, and
      whatever else the sink refuses, its strict-order check never rejects an event of that
      session. */
  lemma SinkNeverObjects(s: Session, sink: EventSink.Sink, es: seq<EventSink.Event>, id: EventSink.Session, k: nat)
    requires Reachable(s) && k < |es| && es[k].session == id
    requires EventSink.SequencesOf(es, id) == OfferedSequences(s.log)
    requires EventSink.LastSequence(sink.events, id) == None
    ensures EventSink.EmitRefusal(EventSink.Offer(sink, es[..k]), es[k]) != Some(EventSink.OutOfSequence)
  {
    hide *;
    OffersAscend(s);
    EventSink.RisingSequences(es, id);
    EventSink.IncreasingPrefix(es, id, k);
    EventSink.IncreasingOffersAreInSequence(sink, es[..k], es[k]);
  }
}
