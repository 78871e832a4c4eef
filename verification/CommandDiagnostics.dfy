/** What a unit says when something is wrong: when a pipeline is cut off, which diagnostics are
    shown and in what order, and which complaint refuses a unit. */
module CommandDiagnostics {
  import opened Basics
  import opened Utf8
  import opened CommandSyntax
  import opened CommandExecution
  import opened CommandOutcomes

  // ---------------------------------------------------------------- what each call comes to

  /** What a call hands on, and what it says. */
  function Output(k: Setting, e: Event): Text
    requires e.Dispatched? && e.answer.Some?
  {
    if Persistable(k, e.answer.value) then k.redact(e.answer.value.stdout) else []
  }

  function Complaint(k: Setting, e: Event): Text
    requires e.Dispatched? && e.answer.Some? && e.argv != []
  {
    if Persistable(k, e.answer.value) then k.redact(e.answer.value.stderr) else k.say(NotPersisted, e.argv[0])
  }

  ghost predicate Called(events: seq<Event>) {
    AllAnswered(events) && forall j :: 0 <= j < |events| ==> events[j].Dispatched? && events[j].argv != []
  }

  /** What the calls say, one after the other. */
  ghost function Complaints(k: Setting, calls: seq<Event>): Text
    requires Called(calls)
  {
    if calls == [] then []
    else Complaints(k, calls[..|calls| - 1]) + Complaint(k, calls[|calls| - 1])
  }

  /** How many bytes the calls hand on. */
  ghost function Handed(k: Setting, calls: seq<Event>): nat
    requires Called(calls)
  {
    if calls == [] then 0
    else Handed(k, calls[..|calls| - 1]) + |Encode(Output(k, calls[|calls| - 1]))|
  }

  /** The output of call `j`, and all that was handed on up to it, keep to the limits. */
  ghost predicate GoesThrough(k: Setting, calls: seq<Event>, j: nat)
    requires Called(calls) && j < |calls|
  {
    |Encode(Output(k, calls[j]))| <= k.limits.maxIntermediateBytes && Handed(k, calls[..j + 1]) <= k.limits.maxAggregateBytes
  }

  /** A pipeline goes on after each of its stages but the last exactly while it keeps to them. */
  ghost predicate CutWhereTooLong(k: Setting, u: PlanUnit, calls: seq<Event>)
    requires Called(calls)
  {
    && 0 < |calls| <= |u.stages|
    && forall j :: 0 <= j < |calls| && j + 1 < |u.stages| ==> (GoesThrough(k, calls, j) <==> j + 1 < |calls|)
  }

  /** All that the calls say, and that the pipeline was cut off if it was. */
  ghost function Said(k: Setting, u: PlanUnit, calls: seq<Event>): Text
    requires Called(calls) && 0 < |calls| <= |u.stages|
  {
    Complaints(k, calls) + if |calls| < |u.stages| then k.say(PipeTooLong, calls[|calls| - 1].argv[0]) else []
  }

  // ---------------------------------------------------------------- pipelines

  /** Each result is what its call comes to. */
  ghost predicate Agree(k: Setting, calls: seq<Event>, results: seq<CommandResult>)
    requires Called(calls)
  {
    && |calls| == |results|
    && forall j :: 0 <= j < |calls| ==> results[j].stdout == Output(k, calls[j]) && results[j].stderr == Complaint(k, calls[j])
  }

  lemma CalledPrefix(calls: seq<Event>, n: nat)
    requires Called(calls) && n <= |calls|
    ensures Called(calls[..n])
  {
  }

  lemma {:induction false} ErrorsAgree(k: Setting, calls: seq<Event>, results: seq<CommandResult>)
    requires Called(calls) && Agree(k, calls, results)
    ensures Errors(results) == Complaints(k, calls) && Bytes(results) == Handed(k, calls)
    decreases |calls|
  {
    hide Complaint, Output, Called, Encode;
    if calls != [] {
      var n := |calls| - 1;
      CalledPrefix(calls, n);
      ErrorsAgree(k, calls[..n], results[..n]);
    }
  }

  lemma PassedExactly(k: Setting, calls: seq<Event>, results: seq<CommandResult>, j: nat)
    requires Called(calls) && Agree(k, calls, results) && j < |calls|
    ensures PassedOn(k, results, j) <==> GoesThrough(k, calls, j)
  {
    hide Complaint, Output, Called, Encode;
    CalledPrefix(calls, j + 1);
    ErrorsAgree(k, calls[..j + 1], results[..j + 1]);
  }

  lemma SanitizedStderr(k: Setting, r: CommandResult, name: Chars)
    ensures Sanitize(k, r, name).stderr == if Persistable(k, r) then k.redact(r.stderr) else k.say(NotPersisted, name)
  {
    hide Persistable;
  }

  lemma PipelineAgrees(
      k: Setting, u: PlanUnit, view: Environment, cwd: Chars, events: seq<Event>, results: seq<CommandResult>)
    requires ExpandableUnit(u, k.alpha) && PipelineRun(k, Argvs(k, u, view, cwd), view, cwd, events, results)
    ensures Called(events) && Agree(k, events, results) && 0 < |events| <= |u.stages|
    ensures CutWhereTooLong(k, u, events)
  {
    PipelineResults(k, u, view, cwd, events, results);
    PipelineEnds(k, Argvs(k, u, view, cwd), view, cwd, events, results);
    hide PipelineRun, Persistable, ExpandableUnit, Argv, Sanitize, PassedOn, GoesThrough, Output, Complaint, Results, Argvs;
    forall j | 0 <= j < |events| ensures events[j].Dispatched? && events[j].answer.Some? && events[j].argv != [] {
      StageCall(k, u, view, cwd, events, results, j);
    }
    forall j | 0 <= j < |events| ensures results[j].stdout == Output(k, events[j]) && results[j].stderr == Complaint(k, events[j]) {
      StageCall(k, u, view, cwd, events, results, j);
      ResultAgrees(k, events[j], results[j]);
    }
    forall j | 0 <= j < |events| && j + 1 < |u.stages| ensures GoesThrough(k, events, j) <==> j + 1 < |events| {
      PassedExactly(k, events, results, j);
    }
  }

  lemma ResultAgrees(k: Setting, e: Event, r: CommandResult)
    requires e.Dispatched? && e.answer.Some? && e.argv != [] && r == Sanitize(k, e.answer.value, e.argv[0])
    ensures r.stdout == Output(k, e) && r.stderr == Complaint(k, e)
  {
    SanitizedOutput(k, e.answer.value, e.argv[0]);
    SanitizedStderr(k, e.answer.value, e.argv[0]);
  }

  lemma PipelineEnds(
      k: Setting, argvs: seq<seq<Chars>>, view: Environment, cwd: Chars, events: seq<Event>, results: seq<CommandResult>)
    requires PipelineRun(k, argvs, view, cwd, events, results)
    ensures forall j :: 0 <= j < |results| && j + 1 < |argvs| ==> (PassedOn(k, results, j) <==> j + 1 < |results|)
  {
    hide PassedOn, StageRan;
  }

  // ---------------------------------------------------------------- one unit

  /** What the stages of an admitted unit say, and where they are cut off. */
  lemma StagesSay(k: Setting, u: PlanUnit, view: Environment, cwd: Chars, events: seq<Event>, stage: CommandResult)
    requires ExpandableUnit(u, k.alpha) && StagesRun(k, u, view, cwd, events, stage)
    ensures Called(events) && CutWhereTooLong(k, u, events)
    ensures stage.stderr == Said(k, u, events) && Persistable(k, stage)
  {
    hide ExpandableUnit, Argv, Sanitize, PipelineRun, Persistable, PipelineReport, Said, CutWhereTooLong;
    StagesNamed(u, k, view, cwd);
    var argvs := Argvs(k, u, view, cwd);
    if |argvs| == 1 {
      OneSays(k, u, events[0], stage);
      assert events == [events[0]];
    } else {
      PipelineSays(k, u, view, cwd, events, stage);
    }
  }

  lemma PipelineSays(k: Setting, u: PlanUnit, view: Environment, cwd: Chars, events: seq<Event>, stage: CommandResult)
    requires ExpandableUnit(u, k.alpha) && StagesRun(k, u, view, cwd, events, stage) && |u.stages| > 1
    ensures Called(events) && CutWhereTooLong(k, u, events)
    ensures stage.stderr == Said(k, u, events) && Persistable(k, stage)
  {
    hide ExpandableUnit, Argv, Sanitize, Persistable, PipelineReport, Said, CutWhereTooLong, StageRan, PassedOn, Called, Agree, Complaints,
      Errors, Bytes, Handed;
    var argvs := Argvs(k, u, view, cwd);
    var results :| PipelineRun(k, argvs, view, cwd, events, results) && stage == PipelineReport(k, argvs, results);
    PipelineAgrees(k, u, view, cwd, events, results);
    ErrorsAgree(k, events, results);
    StageCall(k, u, view, cwd, events, results, |events| - 1);
    ReportSays(k, u, argvs, events, results);
  }

  lemma StagesNamed(u: PlanUnit, k: Setting, view: Environment, cwd: Chars)
    requires ExpandableUnit(u, k.alpha)
    ensures u.stages != [] && forall i :: 0 <= i < |u.stages| ==> Argv(k, u, i, view, cwd) != []
  {
    hide Expandable;
  }

  lemma OneSays(k: Setting, u: PlanUnit, e: Event, stage: CommandResult)
    requires |u.stages| == 1 && e.Dispatched? && e.answer.Some? && e.argv != [] && stage == Sanitize(k, e.answer.value, e.argv[0])
    ensures Called([e]) && CutWhereTooLong(k, u, [e]) && stage.stderr == Said(k, u, [e]) && Persistable(k, stage)
  {
    SanitizedPersists(k, e.answer.value, e.argv[0]);
    ResultAgrees(k, e, stage);
    hide Sanitize, Persistable, Complaint, Output;
    assert [e][..0] == [];
    assert Complaints(k, [e]) == [] + Complaint(k, e) == Complaint(k, e);
  }

  lemma ReportSays(k: Setting, u: PlanUnit, argvs: seq<seq<Chars>>, events: seq<Event>, results: seq<CommandResult>)
    requires 0 < |events| == |results| <= |argvs| == |u.stages| && argvs[|results| - 1] != []
    requires Called(events) && Errors(results) == Complaints(k, events) && events[|events| - 1].argv == argvs[|results| - 1]
    ensures PipelineReport(k, argvs, results).stderr == Said(k, u, events) && Persistable(k, PipelineReport(k, argvs, results))
  {
    hide Errors, Complaints, Status;
  }

  /** What becomes of the output of a complete unit that has a destination. */
  ghost function FileNote(k: Setting, s: Step, calls: seq<Event>): Text
    requires ExpandableUnit(s.item, k.alpha) && |calls| <= |s.events|
    requires |s.events| > |calls| ==> s.events[|calls|].Stored? && s.events[|calls|].accepted.Some?
  {
    var name := LastCommand(k, s.item, s.environment + k.overlay, s.cwd);
    if |s.events| == |calls| then k.say(RedirectedTooLong, name)
    else if s.events[|calls|].accepted.value then []
    else k.say(NotStored, name)
  }

  lemma StorageSays(
      k: Setting, s: Step, calls: seq<Event>, more: seq<Event>, clean: CommandResult, stored: CommandResult)
    requires ExpandableUnit(s.item, k.alpha) && s.item.redirection.Some? && s.events == calls + more
    requires !k.isProtected(Target(k, s)) && Persistable(k, clean)
    requires var name := LastCommand(k, s.item, s.environment + k.overlay, s.cwd);
      RedirectionRuns(k, s.item, s.environment + k.overlay, s.cwd, name, clean, more, stored) && s.result == Sanitize(k, stored, name)
    ensures |s.events| > |calls| ==> s.events[|calls|].Stored? && s.events[|calls|].accepted.Some?
    ensures |s.events| <= |calls| + 1
    ensures s.result.stderr == k.redact(clean.stderr + FileNote(k, s, calls))
  {
    hide ExpandableUnit, Encode, DestinationOf, LastCommand;
    assert more != [] ==> s.events[|calls|] == more[0];
    assert clean.stderr + [] == clean.stderr;
    assert Persistable(k, stored);
  }

  lemma CallsSay(k: Setting, s: Step) returns (n: nat, clean: CommandResult)
    requires StepRuns(k, s) && UnitAdmissible(k, s.item, s.environment + k.overlay, s.cwd)
    ensures ExpandableUnit(s.item, k.alpha)
    ensures n <= |s.events| && Called(s.events[..n]) && CutWhereTooLong(k, s.item, s.events[..n])
    ensures StepEnds(k, s, s.environment + k.overlay, clean, s.events[n..])
    ensures clean.stderr == k.redact(Said(k, s.item, s.events[..n])) && Persistable(k, clean)
  {
    hide UnitRuns, UnitAdmissible, Sanitize, ExpandableUnit, Persistable, Said, Called, CutWhereTooLong, StepEnds;
    var view := s.environment + k.overlay;
    var stage: CommandResult;
    n, stage :|
      n <= |s.events| && UnitRuns(k, s.item, view, s.cwd, s.events[..n], stage)
      && StepEnds(k, s, view, Sanitize(k, stage, COMMAND), s.events[n..]);
    AdmissionIsExact(k, s.item, view, s.cwd);
    AdmittedRuns(k, s.item, view, s.cwd, s.events[..n], stage);
    StagesSay(k, s.item, view, s.cwd, s.events[..n], stage);
    SanitizedStderr(k, stage, COMMAND);
    SanitizedPersists(k, stage, COMMAND);
    clean := Sanitize(k, stage, COMMAND);
  }

  /** Everything that an admitted unit says: the diagnostics of its calls in order, that it was cut
      off, and what became of its file; and it is cut off exactly where a limit is exceeded. */
  lemma DiagnosticsInOrder(k: Setting, s: Step) returns (calls: seq<Event>)
    requires StepRuns(k, s) && UnitAdmissible(k, s.item, s.environment + k.overlay, s.cwd)
    ensures calls <= s.events && Called(calls) && |s.events| <= |calls| + 1
    ensures |s.events| > |calls| ==> s.events[|calls|].Stored? && s.events[|calls|].accepted.Some?
    ensures CutWhereTooLong(k, s.item, calls)
    ensures s.printed ==> s.result.stderr == k.redact(Said(k, s.item, calls))
    ensures !s.printed ==> s.result.stderr == k.redact(k.redact(Said(k, s.item, calls)) + FileNote(k, s, calls))
  {
    hide UnitRuns, UnitAdmissible, RedirectionRuns, Sanitize, ExpandableUnit, RedirectionAdmitted, Persistable, Said, FileNote, Called,
      CutWhereTooLong, StepRuns;
    var view := s.environment + k.overlay;
    var n, clean := CallsSay(k, s);
    calls := s.events[..n];
    assert s.events == calls + s.events[n..];
    if Redirects(k, s.item, view, s.cwd, clean) {
      var name := LastCommand(k, s.item, view, s.cwd);
      var stored :| RedirectionRuns(k, s.item, view, s.cwd, name, clean, s.events[n..], stored) && s.result == Sanitize(k, stored, name);
      AdmittedPath(k, s.item, view, s.cwd);
      StorageSays(k, s, calls, s.events[n..], clean, stored);
    }
  }

  // ---------------------------------------------------------------- what refuses a unit

  ghost predicate HasSecret(k: Setting, u: PlanUnit, i: nat, view: Environment, cwd: Chars)
    requires ExpandableUnit(u, k.alpha) && i < |u.stages|
  {
    exists j :: 0 <= j < |Argv(k, u, i, view, cwd)| && k.isProtected(Argv(k, u, i, view, cwd)[j])
  }

  /** A secret is in the destination, or in the first stage with which something is wrong. */
  ghost predicate RefusedForSecret(k: Setting, u: PlanUnit, view: Environment, cwd: Chars)
    requires ExpandableUnit(u, k.alpha)
  {
    || (DestinationOf(k, u, view, cwd).Some? && k.isProtected(DestinationOf(k, u, view, cwd).value))
    || exists i :: FirstMisfit(k, u, i, view, cwd) && HasSecret(k, u, i, view, cwd)
  }

  /** The last command is known, holds no secret, and does not let its output be redirected. */
  ghost predicate ForbidsRedirection(k: Setting, u: PlanUnit, view: Environment, cwd: Chars)
    requires ExpandableUnit(u, k.alpha) && u.stages != []
  {
    var last := |u.stages| - 1;
    var argv := Argv(k, u, last, view, cwd);
    && u.redirection.Some? && !HasSecret(k, u, last, view, cwd)
    && argv[0] in k.registry && !k.registry[argv[0]].permitsRedirection
  }

  lemma {:induction false} MisfitOrNone(k: Setting, u: PlanUnit, from: nat, view: Environment, cwd: Chars) returns (i: nat)
    requires ExpandableUnit(u, k.alpha) && from <= |u.stages|
    requires forall j :: 0 <= j < from ==> StageFits(k, u, j, view, cwd)
    ensures i <= |u.stages|
    ensures i < |u.stages| ==> FirstMisfit(k, u, i, view, cwd)
    ensures i == |u.stages| ==> forall j :: 0 <= j < |u.stages| ==> StageFits(k, u, j, view, cwd)
    decreases |u.stages| - from
  {
    hide StageFits, ExpandableUnit;
    if from == |u.stages| || !StageFits(k, u, from, view, cwd) {
      i := from;
    } else {
      i := MisfitOrNone(k, u, from + 1, view, cwd);
    }
  }

  lemma {:induction false} NoMisfitNoFailure(k: Setting, u: PlanUnit, from: nat, view: Environment, cwd: Chars)
    requires ExpandableUnit(u, k.alpha) && from <= |u.stages|
    requires forall j :: 0 <= j < |u.stages| ==> StageFits(k, u, j, view, cwd)
    ensures FailureFrom(k, u, from, view, cwd) == None
    decreases |u.stages| - from
  {
    hide StageFailure, StageAdmissible, Oversized, ExpandableUnit, Argv, DestinationOf;
    if from < |u.stages| {
      StageFailureMeans(k, u, from, view, cwd);
      assert StageFits(k, u, from, view, cwd);
      NoMisfitNoFailure(k, u, from + 1, view, cwd);
    }
  }

  lemma SecretMeans(k: Setting, u: PlanUnit, i: nat, view: Environment, cwd: Chars)
    requires ExpandableUnit(u, k.alpha) && i < |u.stages|
    ensures AnyProtected(k, Argv(k, u, i, view, cwd)) <==> HasSecret(k, u, i, view, cwd)
    ensures var r := StageFailure(k, u, i, view, cwd);
      r.Some? && r.value.failure == Some(ProtectedValueRejected) <==> HasSecret(k, u, i, view, cwd)
    ensures HasSecret(k, u, i, view, cwd) ==>
      StageFailure(k, u, i, view, cwd) == Some(RawResult(1, Some(ProtectedValueRejected), [], k.say(ProtectedArgument, []), None, []))
  {
    hide ExpandableUnit, Argv, AnyOversized, Measured;
  }

  /** A secret refuses a unit before all else; then a command that does not let its output be
      redirected does; then the first stage with which something is wrong. */
  lemma RefusalExactly(k: Setting, u: PlanUnit, view: Environment, cwd: Chars)
    requires ExpandableUnit(u, k.alpha)
    ensures u.stages != []
    ensures RefusedForSecret(k, u, view, cwd) ==>
      UnitFailure(k, u, view, cwd) == Some(RawResult(1, Some(ProtectedValueRejected), [], k.say(ProtectedArgument, []), None, []))
    ensures !RefusedForSecret(k, u, view, cwd) && ForbidsRedirection(k, u, view, cwd) ==>
      UnitFailure(k, u, view, cwd) ==
        Some(RawResult(2, Some(InvalidArgument), [], k.say(NoRedirection, Argv(k, u, |u.stages| - 1, view, cwd)[0]), None, []))
    ensures !RefusedForSecret(k, u, view, cwd) && !ForbidsRedirection(k, u, view, cwd) ==>
      forall i :: FirstMisfit(k, u, i, view, cwd) ==> UnitFailure(k, u, view, cwd) == StageFailure(k, u, i, view, cwd)
    ensures UnitFailure(k, u, view, cwd) == None <==>
      && !RefusedForSecret(k, u, view, cwd) && !ForbidsRedirection(k, u, view, cwd)
      && forall i :: 0 <= i < |u.stages| ==> StageFits(k, u, i, view, cwd)
  {
    hide StageFits, ExpandableUnit, Argv, StageFailure, FirstMisfit, FailureFrom, HasSecret, DestinationOf, AnyProtected, UnitFailure,
      RefusedForSecret, ForbidsRedirection;
    StagesSome(u, k.alpha);
    var i := MisfitOrNone(k, u, 0, view, cwd);
    if i < |u.stages| {
      MisfitRefuses(k, u, i, view, cwd);
      OnlyMisfit(k, u, i, view, cwd);
    } else {
      FittingRefused(k, u, view, cwd);
      NoMisfit(k, u, view, cwd);
    }
  }

  lemma MisfitRefuses(k: Setting, u: PlanUnit, i: nat, view: Environment, cwd: Chars)
    requires ExpandableUnit(u, k.alpha) && i < |u.stages| && FirstMisfit(k, u, i, view, cwd)
    ensures RefusedForSecret(k, u, view, cwd) ==>
      UnitFailure(k, u, view, cwd) == Some(RawResult(1, Some(ProtectedValueRejected), [], k.say(ProtectedArgument, []), None, []))
    ensures !RefusedForSecret(k, u, view, cwd) && ForbidsRedirection(k, u, view, cwd) ==>
      UnitFailure(k, u, view, cwd) ==
        Some(RawResult(2, Some(InvalidArgument), [], k.say(NoRedirection, Argv(k, u, |u.stages| - 1, view, cwd)[0]), None, []))
    ensures !RefusedForSecret(k, u, view, cwd) && !ForbidsRedirection(k, u, view, cwd) ==>
      UnitFailure(k, u, view, cwd) == StageFailure(k, u, i, view, cwd)
    ensures UnitFailure(k, u, view, cwd) != None
  {
    hide StageFits, ExpandableUnit, Argv, StageFailure, FirstMisfit, FailureFrom, HasSecret, DestinationOf, AnyProtected;
    SecretMeans(k, u, |u.stages| - 1, view, cwd);
    OnlyMisfit(k, u, i, view, cwd);
    FailureOfMisfit(k, u, 0, i, view, cwd);
    MisfitFails(k, u, i, view, cwd);
    SecretMeans(k, u, i, view, cwd);
  }

  lemma FittingRefused(k: Setting, u: PlanUnit, view: Environment, cwd: Chars)
    requires ExpandableUnit(u, k.alpha) && u.stages != [] && forall j :: 0 <= j < |u.stages| ==> StageFits(k, u, j, view, cwd)
    ensures RefusedForSecret(k, u, view, cwd) ==>
      UnitFailure(k, u, view, cwd) == Some(RawResult(1, Some(ProtectedValueRejected), [], k.say(ProtectedArgument, []), None, []))
    ensures !RefusedForSecret(k, u, view, cwd) && ForbidsRedirection(k, u, view, cwd) ==>
      UnitFailure(k, u, view, cwd) ==
        Some(RawResult(2, Some(InvalidArgument), [], k.say(NoRedirection, Argv(k, u, |u.stages| - 1, view, cwd)[0]), None, []))
    ensures UnitFailure(k, u, view, cwd) == None <==> !RefusedForSecret(k, u, view, cwd) && !ForbidsRedirection(k, u, view, cwd)
  {
    hide StageFits, ExpandableUnit, Argv, StageFailure, FirstMisfit, FailureFrom, HasSecret, DestinationOf, AnyProtected;
    SecretMeans(k, u, |u.stages| - 1, view, cwd);
    NoMisfit(k, u, view, cwd);
    NoMisfitNoFailure(k, u, 0, view, cwd);
  }

  lemma OnlyMisfit(k: Setting, u: PlanUnit, i: nat, view: Environment, cwd: Chars)
    requires ExpandableUnit(u, k.alpha) && FirstMisfit(k, u, i, view, cwd)
    ensures !(forall j :: 0 <= j < |u.stages| ==> StageFits(k, u, j, view, cwd))
    ensures forall j :: FirstMisfit(k, u, j, view, cwd) ==> j == i
  {
    hide StageFits, ExpandableUnit;
  }

  lemma NoMisfit(k: Setting, u: PlanUnit, view: Environment, cwd: Chars)
    requires ExpandableUnit(u, k.alpha) && forall j :: 0 <= j < |u.stages| ==> StageFits(k, u, j, view, cwd)
    ensures forall i :: !FirstMisfit(k, u, i, view, cwd)
  {
    hide StageFits, ExpandableUnit;
  }

  lemma MisfitFails(k: Setting, u: PlanUnit, i: nat, view: Environment, cwd: Chars)
    requires ExpandableUnit(u, k.alpha) && FirstMisfit(k, u, i, view, cwd)
    ensures StageFailure(k, u, i, view, cwd).Some?
  {
    hide StageFailure, StageAdmissible, Oversized, ExpandableUnit, Argv, DestinationOf;
    StageFailureMeans(k, u, i, view, cwd);
  }

  // ---------------------------------------------------------------- files of refused units

  /** Nothing but unknown commands is wrong: every word could be passed, and every command that is
      known could be where it stands. */
  ghost predicate OnlyUnknown(k: Setting, u: PlanUnit, i: nat, view: Environment, cwd: Chars)
    requires ExpandableUnit(u, k.alpha) && i < |u.stages|
  {
    var argv := Argv(k, u, i, view, cwd);
    && !HasSecret(k, u, i, view, cwd) && (forall j :: 0 <= j < |argv| ==> !Oversized(k, argv[j]))
    && (i == |u.stages| - 1 && DestinationOf(k, u, view, cwd).Some? ==> !Oversized(k, DestinationOf(k, u, view, cwd).value))
    && (argv != [] && argv[0] in k.registry ==>
          (|u.stages| > 1 ==> k.registry[argv[0]].pipelineSafe) && (i > 0 ==> k.registry[argv[0]].acceptsStdin))
  }

  lemma KeepsExactly(k: Setting, u: PlanUnit, i: nat, view: Environment, cwd: Chars)
    requires ExpandableUnit(u, k.alpha) && i < |u.stages|
    ensures StageKeepsRedirection(k, u, i, view, cwd) <==> OnlyUnknown(k, u, i, view, cwd)
  {
    StagesNamed(u, k, view, cwd);
    MeasuredParts(k, u, i, view, cwd);
    SecretMeans(k, u, i, view, cwd);
    hide ExpandableUnit, Argv, DestinationOf, Measured, HasSecret, AnyProtected, AnyOversized, Oversized;
  }

  /** A refused unit still has its empty output stored exactly when it has a destination, neither
      a secret nor its last command forbids that, and only unknown commands are wrong with it. */
  lemma RefusedStoresExactly(k: Setting, s: Step)
    requires StepRuns(k, s) && !UnitAdmissible(k, s.item, s.environment + k.overlay, s.cwd)
    ensures s.item.stages != []
    ensures var u, view := s.item, s.environment + k.overlay;
      !s.printed <==>
        && u.redirection.Some? && !RefusedForSecret(k, u, view, s.cwd) && !ForbidsRedirection(k, u, view, s.cwd)
        && forall i :: 0 <= i < |u.stages| ==> OnlyUnknown(k, u, i, view, s.cwd)
  {
    StagesSome(s.item, k.alpha);
    hide ExpandableUnit, Argv, UnitAdmissible, DestinationOf, StageKeepsRedirection, OnlyUnknown, HasSecret, RefusedForSecret,
      AnyProtected, StepRuns, ForbidsRedirection, DestinationProtected, RedirectionForbidden;
    var u, view := s.item, s.environment + k.overlay;
    RefusedEnds(k, s);
    forall i | 0 <= i < |u.stages| ensures StageKeepsRedirection(k, u, i, view, s.cwd) <==> OnlyUnknown(k, u, i, view, s.cwd) {
      KeepsExactly(k, u, i, view, s.cwd);
    }
    AdmitsExactly(k, u, view, s.cwd);
  }

  lemma RefusedEnds(k: Setting, s: Step)
    requires StepRuns(k, s) && !UnitAdmissible(k, s.item, s.environment + k.overlay, s.cwd)
    ensures !s.printed <==> s.item.redirection.Some? && RedirectionAdmitted(k, s.item, s.environment + k.overlay, s.cwd)
  {
    hide ExpandableUnit, UnitAdmissible, Sanitize, RedirectionRuns, UnitRuns, RedirectionAdmitted;
    var u, view := s.item, s.environment + k.overlay;
    var n: nat, stage: CommandResult :|
      n <= |s.events| && UnitRuns(k, u, view, s.cwd, s.events[..n], stage)
      && StepEnds(k, s, view, Sanitize(k, stage, COMMAND), s.events[n..]);
    AdmissionIsExact(k, u, view, s.cwd);
    RefusedStage(k, u, view, s.cwd, s.events[..n], stage);
  }

  lemma AdmitsExactly(k: Setting, u: PlanUnit, view: Environment, cwd: Chars)
    requires ExpandableUnit(u, k.alpha) && u.stages != []
    ensures (forall i :: 0 <= i < |u.stages| ==> OnlyUnknown(k, u, i, view, cwd)) ==>
      ((!DestinationProtected(k, u, view, cwd) && !RedirectionForbidden(k, u, view, cwd))
       <==> (!RefusedForSecret(k, u, view, cwd) && !ForbidsRedirection(k, u, view, cwd)))
  {
    SecretMeans(k, u, |u.stages| - 1, view, cwd);
    hide ExpandableUnit, Argv, StageFits, HasSecret, AnyProtected, DestinationOf;
    if forall i :: 0 <= i < |u.stages| ==> OnlyUnknown(k, u, i, view, cwd) {
      forall i | FirstMisfit(k, u, i, view, cwd) ensures !HasSecret(k, u, i, view, cwd) {
        assert OnlyUnknown(k, u, i, view, cwd);
      }
    }
  }

  lemma RefusedStage(k: Setting, u: PlanUnit, view: Environment, cwd: Chars, events: seq<Event>, stage: CommandResult)
    requires ExpandableUnit(u, k.alpha) && UnitRuns(k, u, view, cwd, events, stage) && UnitFailure(k, u, view, cwd).Some?
    ensures Sanitize(k, stage, COMMAND).failure != Some(PipelineLimitExceeded)
  {
    hide ExpandableUnit, Argv, DestinationProtected, RedirectionForbidden, FailureFrom;
    FailureCodes(k, u, 0, view, cwd);
  }

  lemma {:induction false} FailureCodes(k: Setting, u: PlanUnit, from: nat, view: Environment, cwd: Chars)
    requires ExpandableUnit(u, k.alpha) && from <= |u.stages|
    ensures var r := FailureFrom(k, u, from, view, cwd); r.Some? ==> r.value.failure != Some(PipelineLimitExceeded)
    decreases |u.stages| - from
  {
    hide ExpandableUnit, Argv, AnyProtected, AnyOversized, Measured;
    if from < |u.stages| {
      FailureCodes(k, u, from + 1, view, cwd);
    }
  }
}
