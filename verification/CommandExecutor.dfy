/** The executor's loops over a host that may answer anything: whenever they come to an end,
    what they did is a run of `CommandExecution`. */
module CommandExecutor {
  import opened Basics
  import opened Utf8
  import opened CommandSyntax
  import opened CommandExecution
  import BoundedOutput

  /** The commands, the workspace, the clock and cancellation. */
  class Host {
    ghost var log: seq<Event>
    ghost var stopped: bool    // the last look at the deadline and the cancellation

    constructor ()
      ensures log == [] && !stopped
    {
      log, stopped := [], false;
    }

    method Stopped() returns (yes: bool)
      modifies this`stopped
      ensures stopped == yes
    {
      yes := *;
      stopped := yes;
    }

    method Dispatch(argv: seq<Chars>, stdin: Text, connected: bool, view: Environment, cwd: Chars)
      returns (answer: Option<CommandResult>)
      modifies this`log
      ensures log == old(log) + [Dispatched(argv, stdin, connected, view, cwd, answer)]
    {
      answer := *;
      log := log + [Dispatched(argv, stdin, connected, view, cwd, answer)];
    }

    method Store(path: Chars, cwd: Chars, mode: Mode, content: seq<Byte>) returns (accepted: Option<bool>)
      modifies this`log
      ensures log == old(log) + [Stored(path, cwd, mode, content, accepted)]
    {
      accepted := *;
      log := log + [Stored(path, cwd, mode, content, accepted)];
    }
  }

  /** A call that ends the run without a result: it raised, or it was a pipeline's stage and
      asked for a directory or for changes. */
  predicate Breaks(k: Setting, e: Event) {
    match e
    case Dispatched(_, _, _, _, _, answer) => answer.None? || (Persistable(k, answer.value) && ChangesState(answer.value))
    case Stored(_, _, _, _, accepted) => accepted.None?
  }

  /** Why a run was abandoned after `events`. */
  predicate Abandoned(k: Setting, stopped: bool, events: seq<Event>) {
    stopped || (events != [] && Breaks(k, events[|events| - 1]))
  }

  lemma AbandonedLater(k: Setting, stopped: bool, before: seq<Event>, events: seq<Event>)
    requires Abandoned(k, stopped, events)
    ensures Abandoned(k, stopped, before + events)
  {
    hide Breaks;
  }

  lemma ChangedState(k: Setting, r: CommandResult, name: Chars)
    requires ChangesState(Sanitize(k, r, name))
    ensures Persistable(k, r) && ChangesState(r)
  {
    hide Persistable;
  }

  // ---------------------------------------------------------------- small loops

  method ApplyEnvironmentChanges(environment: Environment, changes: seq<Change>) returns (current: Environment)
    ensures current == ApplyChanges(environment, changes)
  {
    current := environment;
    for i := 0 to |changes|
      invariant current == ApplyChanges(environment, changes[..i])
    {
      assert changes[..i + 1][..i] == changes[..i];
      if changes[i].value.None? {
        current := current - {changes[i].name};
      } else {
        current := current[changes[i].name := changes[i].value.value];
      }
    }
    assert changes[..|changes|] == changes;
  }

  method SanitizeStage(k: Setting, stage: CommandResult, name: Chars) returns (r: CommandResult)
    ensures r == Sanitize(k, stage, name)
    ensures Persistable(k, stage) ==>
      r == RawResult(stage.exitCode, stage.failure, k.redact(stage.stdout), k.redact(stage.stderr), stage.cwd, stage.changes)
    ensures !Persistable(k, stage) ==>
      r == RawResult(1, Some(ProtectedValueRejected), [], k.say(NotPersisted, name), None, [])
  {
    if stage.cwd.Some? && k.isProtected(stage.cwd.value) {
      return Fail(k, 1, ProtectedValueRejected, NotPersisted, name);
    }
    for i := 0 to |stage.changes|
      invariant forall j :: 0 <= j < i ==>
                  && !k.isProtected(stage.changes[j].name) && stage.changes[j].name !in k.overlay
                  && (stage.changes[j].value.Some? ==> !k.isProtected(stage.changes[j].value.value))
    {
      var change := stage.changes[i];
      if k.isProtected(change.name) || change.name in k.overlay || (change.value.Some? && k.isProtected(change.value.value)) {
        return Fail(k, 1, ProtectedValueRejected, NotPersisted, name);
      }
    }
    return RawResult(stage.exitCode, stage.failure, k.redact(stage.stdout), k.redact(stage.stderr), stage.cwd, stage.changes);
  }

  method ArgumentError(k: Setting, arguments: seq<Chars>) returns (found: bool)
    ensures found == AnyOversized(k, arguments)
  {
    hide Oversized;
    for i := 0 to |arguments|
      invariant forall j :: 0 <= j < i ==> !Oversized(k, arguments[j])
    {
      if Oversized(k, arguments[i]) {
        return true;
      }
    }
    return false;
  }

  // ---------------------------------------------------------------- admission

  /** The complaint about one stage, and whether the unit keeps its redirection. */
  method PrepareStage(k: Setting, u: PlanUnit, i: nat, view: Environment, cwd: Chars)
    returns (failure: Option<CommandResult>, keeps: bool, resolved: Option<Descriptor>)
    requires ExpandableUnit(u, k.alpha) && i < |u.stages|
    ensures failure == StageFailure(k, u, i, view, cwd)
    ensures keeps == StageKeepsRedirection(k, u, i, view, cwd)
    ensures var argv := Argv(k, u, i, view, cwd);
      resolved == if AnyProtected(k, argv) || argv[0] !in k.registry then None else Some(k.registry[argv[0]])
  {
    hide AnyProtected, ExpandableUnit, Measured, AnyOversized;
    var argv := Argv(k, u, i, view, cwd);
    if AnyProtected(k, argv) {
      return Some(Fail(k, 1, ProtectedValueRejected, ProtectedArgument, [])), false, None;
    }
    failure, keeps, resolved := None, true, None;
    var oversized := ArgumentError(k, Measured(k, u, i, view, cwd));
    if oversized {
      failure, keeps := Some(Fail(k, 2, InvalidArgument, BadArgument, argv[0])), false;
    }
    if argv[0] !in k.registry {
      if failure == None {
        failure := Some(Fail(k, 127, CommandNotFound, NotFound, argv[0]));
      }
      return;
    }
    var command := k.registry[argv[0]];
    resolved := Some(command);
    if |u.stages| > 1 && !command.pipelineSafe {
      if failure == None {
        failure := Some(Fail(k, 2, InvalidArgument, NotInPipelines, argv[0]));
      }
      keeps := false;
    }
    if i > 0 && !command.acceptsStdin {
      if failure == None {
        failure := Some(Fail(k, 2, InvalidArgument, NoPipelineInput, argv[0]));
      }
      keeps := false;
    }
  }

  /** The last stage's command, unless its arguments are secret or it is unknown. */
  function FinalCommand(k: Setting, u: PlanUnit, view: Environment, cwd: Chars): Option<Descriptor>
    requires ExpandableUnit(u, k.alpha)
  {
    var argv := Argv(k, u, |u.stages| - 1, view, cwd);
    if AnyProtected(k, argv) || argv[0] !in k.registry then None else Some(k.registry[argv[0]])
  }

  method PrepareUnit(k: Setting, u: PlanUnit, view: Environment, cwd: Chars)
    returns (failure: Option<CommandResult>, argvs: seq<seq<Chars>>, admitted: bool)
    requires ExpandableUnit(u, k.alpha)
    ensures failure == UnitFailure(k, u, view, cwd)
    ensures admitted == RedirectionAdmitted(k, u, view, cwd)
    ensures failure == None ==> argvs == Argvs(k, u, view, cwd)
  {
    hide StageFailure, StageKeepsRedirection, Argv, AnyProtected, DestinationProtected;
    StagesSome(u, k.alpha);
    failure, argvs, admitted := None, [], true;
    var finalCommand: Option<Descriptor> := None;
    if DestinationProtected(k, u, view, cwd) {
      failure, admitted := Some(Fail(k, 1, ProtectedValueRejected, ProtectedArgument, [])), false;
    }
    ghost var refused := failure;
    for i := 0 to |u.stages|
      invariant refused.Some? ==> failure == refused
      invariant refused == None && failure.Some? ==> FailureFrom(k, u, 0, view, cwd) == failure
      invariant failure == None ==> FailureFrom(k, u, 0, view, cwd) == FailureFrom(k, u, i, view, cwd)
      invariant admitted == (!DestinationProtected(k, u, view, cwd) && forall j :: 0 <= j < i ==> StageKeepsRedirection(k, u, j, view, cwd))
      invariant failure == None ==> |argvs| == i && forall j :: 0 <= j < i ==> argvs[j] == Argv(k, u, j, view, cwd)
      invariant i == |u.stages| ==> finalCommand == FinalCommand(k, u, view, cwd)
    {
      var complaint, keeps, resolved := PrepareStage(k, u, i, view, cwd);
      if failure == None {
        failure := complaint;
      }
      admitted := admitted && keeps;
      finalCommand := resolved;
      argvs := argvs + [Argv(k, u, i, view, cwd)];
    }
    if u.redirection.Some? && finalCommand.Some? && !finalCommand.value.permitsRedirection {
      if !(failure.Some? && failure.value.failure == Some(ProtectedValueRejected)) {
        failure := Some(Fail(k, 2, InvalidArgument, NoRedirection, Argv(k, u, |u.stages| - 1, view, cwd)[0]));
      }
      admitted := false;
    }
  }

  // ---------------------------------------------------------------- stages

  method ExecutePipeline(k: Setting, host: Host, argvs: seq<seq<Chars>>, view: Environment, cwd: Chars)
    returns (r: Option<CommandResult>, ghost events: seq<Event>)
    requires argvs != [] && forall j :: 0 <= j < |argvs| ==> argvs[j] != []
    modifies host
    ensures host.log == old(host.log) + events
    ensures r == None ==> Abandoned(k, host.stopped, events)
    ensures r.Some? ==>
              exists results :: PipelineRun(k, argvs, view, cwd, events, results) && r.value == PipelineReport(k, argvs, results)
  {
    hide Sanitize, Persistable, ChangesState, StageRan, PassedOn, Status, Errors, Bytes, PipelineRun, PipelineReport, Encode;
    events := [];
    ghost var results: seq<CommandResult> := [];
    NothingRan();
    var intermediate, previous: Text, errors: Text, exitCode: nat, failure := 0, [], [], 0, None;
    for i := 0 to |argvs|
      invariant host.log == old(host.log) + events
      invariant |results| == |events| == i
      invariant forall j :: 0 <= j < i ==> StageRan(k, argvs, view, cwd, events, results, j)
      invariant forall j :: 0 <= j < i && j < |argvs| - 1 ==> PassedOn(k, results, j)
      invariant i < |argvs| ==> intermediate == Bytes(results)
      invariant previous == if i == 0 then [] else results[i - 1].stdout
      invariant errors == Errors(results) && exitCode == Status(results).exitCode && failure == Status(results).failure
    {
      var stopped := host.Stopped();
      if stopped {
        return None, events;
      }
      var answer := host.Dispatch(argvs[i], previous, i > 0, view, cwd);
      ghost var before, known := events, results;
      events := events + [Dispatched(argvs[i], previous, i > 0, view, cwd, answer)];
      if answer == None {
        return None, events;
      }
      var result := SanitizeStage(k, answer.value, argvs[i][0]);
      stopped := host.Stopped();
      if stopped || ChangesState(result) {
        if ChangesState(result) {
          ChangedState(k, answer.value, argvs[i][0]);
        }
        return None, events;
      }
      results := results + [result];
      GrowRun(k, argvs, view, cwd, before, known, events, results);
      GrowReport(known, result);
      errors := errors + result.stderr;
      if result.exitCode != 0 {
        exitCode, failure := result.exitCode, result.failure;
      }
      if i < |argvs| - 1 {
        var size := |Encode(result.stdout)|;
        intermediate := intermediate + size;
        PassedNow(k, results);
        if size > k.limits.maxIntermediateBytes || intermediate > k.limits.maxAggregateBytes {
          PipelineEnds(k, argvs, view, cwd, events, results);
          return Some(RawResult(1, Some(PipelineLimitExceeded), [], errors + k.say(PipeTooLong, argvs[i][0]), None, [])), events;
        }
      }
      previous := result.stdout;
    }
    PipelineEnds(k, argvs, view, cwd, events, results);
    return Some(RawResult(exitCode, failure, previous, errors, None, [])), events;
  }

  lemma NothingRan()
    ensures Errors([]) == [] && Bytes([]) == 0 && Status([]).exitCode == 0 && Status([]).failure == None
  {
  }

  lemma PipelineEnds(
      k: Setting, argvs: seq<seq<Chars>>, view: Environment, cwd: Chars, events: seq<Event>, results: seq<CommandResult>)
    requires 0 < |results| <= |argvs| && |events| == |results|
    requires forall j :: 0 <= j < |argvs| ==> argvs[j] != []
    requires forall j :: 0 <= j < |results| ==> StageRan(k, argvs, view, cwd, events, results, j)
    requires forall j :: 0 <= j < |results| - 1 ==> PassedOn(k, results, j)
    requires |results| < |argvs| ==> !PassedOn(k, results, |results| - 1)
    ensures PipelineRun(k, argvs, view, cwd, events, results)
    ensures PipelineReport(k, argvs, results) ==
      if |results| < |argvs| then
        RawResult(1, Some(PipelineLimitExceeded), [], Errors(results) + k.say(PipeTooLong, argvs[|results| - 1][0]), None, [])
      else
        RawResult(Status(results).exitCode, Status(results).failure, results[|results| - 1].stdout, Errors(results), None, [])
  {
    hide StageRan, PassedOn, Errors;
  }

  /** A further stage leaves what is known of the earlier ones. */
  lemma GrowRun(
      k: Setting, argvs: seq<seq<Chars>>, view: Environment, cwd: Chars,
      before: seq<Event>, known: seq<CommandResult>, events: seq<Event>, results: seq<CommandResult>)
    requires |events| == |results| == |known| + 1 == |before| + 1 && |results| <= |argvs|
    requires before == events[..|before|] && known == results[..|known|]
    requires forall j :: 0 <= j < |argvs| ==> argvs[j] != []
    requires forall j :: 0 <= j < |known| ==> StageRan(k, argvs, view, cwd, before, known, j)
    requires var j := |known|;
      && events[j].Dispatched? && events[j].answer.Some?
      && events[j] == Dispatched(argvs[j], if j == 0 then [] else results[j - 1].stdout, j > 0, view, cwd, events[j].answer)
      && results[j] == Sanitize(k, events[j].answer.value, argvs[j][0]) && !ChangesState(results[j])
    ensures forall j :: 0 <= j < |results| ==> StageRan(k, argvs, view, cwd, events, results, j)
    ensures forall j :: 0 <= j < |known| ==> (PassedOn(k, results, j) <==> PassedOn(k, known, j))
  {
    hide Sanitize, Bytes;
    forall j | 0 <= j < |known| ensures StageRan(k, argvs, view, cwd, events, results, j) {
      assert StageRan(k, argvs, view, cwd, before, known, j);
      assert events[j] == before[j] && results[j] == known[j];
    }
    forall j | 0 <= j < |known| ensures PassedOn(k, results, j) <==> PassedOn(k, known, j) {
      assert results[..j + 1] == known[..j + 1];
    }
  }

  lemma GrowReport(known: seq<CommandResult>, result: CommandResult)
    ensures Errors(known + [result]) == Errors(known) + result.stderr
    ensures Bytes(known + [result]) == Bytes(known) + |Encode(result.stdout)|
    ensures var s := Status(known + [result]);
      && (result.exitCode != 0 ==> s.exitCode == result.exitCode && s.failure == result.failure)
      && (result.exitCode == 0 ==> s == Status(known))
  {
    hide Encode;
    assert (known + [result])[..|known|] == known;
  }

  lemma PassedNow(k: Setting, results: seq<CommandResult>)
    requires results != []
    ensures PassedOn(k, results, |results| - 1) <==>
              |Encode(results[|results| - 1].stdout)| <= k.limits.maxIntermediateBytes && Bytes(results) <= k.limits.maxAggregateBytes
  {
    hide Encode, Bytes;
    assert results[..|results| - 1 + 1] == results;
  }

  method ExecuteUnit(k: Setting, host: Host, u: PlanUnit, argvs: seq<seq<Chars>>, view: Environment, cwd: Chars)
    returns (r: Option<CommandResult>, ghost events: seq<Event>)
    requires ExpandableUnit(u, k.alpha) && argvs == Argvs(k, u, view, cwd)
    modifies host
    ensures host.log == old(host.log) + events
    ensures r == None ==> Abandoned(k, host.stopped, events)
    ensures r.Some? ==> StagesRun(k, u, view, cwd, events, r.value)
  {
    hide ExpandableUnit, Argv, PipelineRun, PipelineReport, Sanitize;
    if |argvs| == 1 {
      var answer := host.Dispatch(argvs[0], [], false, view, cwd);
      events := [Dispatched(argvs[0], [], false, view, cwd, answer)];
      if answer == None {
        return None, events;
      }
      var result := SanitizeStage(k, answer.value, argvs[0][0]);
      return Some(result), events;
    }
    StagesSome(u, k.alpha);
    r, events := ExecutePipeline(k, host, argvs, view, cwd);
  }

  // ---------------------------------------------------------------- redirection

  method ApplyRedirection(k: Setting, host: Host, u: PlanUnit, view: Environment, cwd: Chars, name: Chars, stage: CommandResult)
    returns (r: Option<CommandResult>, ghost events: seq<Event>)
    requires ExpandableUnit(u, k.alpha) && u.redirection.Some? && k.limits.maxStdoutBytes > 0
    modifies host
    ensures host.log == old(host.log) + events
    ensures r == None ==> Abandoned(k, host.stopped, events)
    ensures r.Some? ==> RedirectionRuns(k, u, view, cwd, name, stage, events, r.value)
  {
    hide ExpandableUnit, Expandable, Expanded;
    events := [];
    var path := DestinationOf(k, u, view, cwd).value;
    if k.isProtected(path) {
      return Some(Fail(k, 1, ProtectedValueRejected, NotPersisted, name)), events;
    }
    var accepted, bounded := BoundedOutput.BoundText(stage.stdout, k.limits.maxStdoutBytes);
    if bounded.truncated {
      return Some(NotRedirected(k, RedirectedTooLong, name, stage)), events;
    }
    var content := Encode(stage.stdout);
    var stored := host.Store(path, cwd, u.redirection.value.mode, content);
    events := [Stored(path, cwd, u.redirection.value.mode, content, stored)];
    if stored == None {
      return None, events;
    }
    if !stored.value {
      return Some(NotRedirected(k, NotStored, name, stage)), events;
    }
    return Some(RawResult(stage.exitCode, stage.failure, [], stage.stderr, stage.cwd, stage.changes)), events;
  }

  // ---------------------------------------------------------------- one unit, one plan

  method RunUnit(k: Setting, host: Host, u: PlanUnit, environment: Environment, cwd: Chars)
    returns (r: Option<CommandResult>, printed: bool, ghost events: seq<Event>)
    requires ExpandableUnit(u, k.alpha) && k.limits.maxStdoutBytes > 0
    modifies host
    ensures host.log == old(host.log) + events
    ensures r == None ==> Abandoned(k, host.stopped, events)
    ensures r.Some? ==> StepRuns(k, Step(u, environment, cwd, events, r.value, printed))
  {
    hide ExpandableUnit, Argv, StagesRun, RedirectionRuns, Sanitize, UnitFailure, RedirectionAdmitted;
    var view := environment + k.overlay;
    printed, events := true, [];
    var failure, argvs, admitted := PrepareUnit(k, u, view, cwd);
    var stage;
    if failure.Some? {
      stage := failure.value;
    } else {
      var executed;
      executed, events := ExecuteUnit(k, host, u, argvs, view, cwd);
      if executed == None {
        return None, printed, events;
      }
      stage := executed.value;
    }
    ghost var ran, raw := events, stage;
    assert UnitRuns(k, u, view, cwd, ran, raw);
    stage := SanitizeStage(k, stage, COMMAND);
    var stopped := host.Stopped();
    if stopped {
      return None, printed, events;
    }
    if u.redirection.Some? && admitted && stage.failure != Some(PipelineLimitExceeded) {
      StagesSome(u, k.alpha);
      var name := LastCommand(k, u, view, cwd);
      var stored;
      ghost var more;
      stored, more := ApplyRedirection(k, host, u, view, cwd, name, stage);
      events := events + more;
      printed := false;
      if stored == None {
        AbandonedLater(k, host.stopped, ran, more);
        return None, printed, events;
      }
      var result := SanitizeStage(k, stored.value, name);
      stopped := host.Stopped();
      if stopped {
        return None, printed, events;
      }
      StepFrom(k, Step(u, environment, cwd, events, result, false), ran, more, raw);
      return Some(result), printed, events;
    }
    assert events == ran + [];
    StepFrom(k, Step(u, environment, cwd, events, stage, true), ran, [], raw);
    return Some(stage), printed, events;
  }

  lemma StepFrom(k: Setting, s: Step, ran: seq<Event>, more: seq<Event>, raw: CommandResult)
    requires ExpandableUnit(s.item, k.alpha) && s.events == ran + more
    requires UnitRuns(k, s.item, s.environment + k.overlay, s.cwd, ran, raw)
    requires StepEnds(k, s, s.environment + k.overlay, Sanitize(k, raw, COMMAND), more)
    ensures StepRuns(k, s)
  {
    hide ExpandableUnit, UnitRuns, StepEnds, Sanitize;
    var n := |ran|;
    assert s.events[..n] == ran && s.events[n..] == more;
  }

  datatype ExecuteResult = ExecuteResult(
    exitCode: nat, failure: Option<FailureCode>, stdout: BoundedOutput.BoundedText, stderr: BoundedOutput.BoundedText,
    cwd: Chars, changes: seq<Change>)

  function AllEvents(steps: seq<Step>): seq<Event> {
    if steps == [] then [] else AllEvents(steps[..|steps| - 1]) + steps[|steps| - 1].events
  }

  /** What remains to be done: after a failure, units that wait for success are passed over. */
  ghost predicate Resume(k: Setting, units: seq<PlanUnit>, s: State, future: seq<Step>, t: State) {
    BigStep(k, if s.exitCode == 0 then units else units[Skipped(units)..], s, future, t)
  }

  lemma ResumeSkips(k: Setting, units: seq<PlanUnit>, s: State, future: seq<Step>, t: State)
    requires units != [] && units[0].connector == OnSuccess && s.exitCode != 0
    ensures Resume(k, units, s, future, t) <==> Resume(k, units[1..], s, future, t)
  {
    hide BigStep;
    assert units[1..][Skipped(units[1..])..] == units[Skipped(units)..];
  }

  lemma ResumeRuns(k: Setting, units: seq<PlanUnit>, s: State, step: Step, future: seq<Step>, t: State)
    requires units != [] && (units[0].connector == Always || s.exitCode == 0)
    requires StepRuns(k, step) && step.item == units[0] && step.environment == s.environment && step.cwd == s.cwd
    requires Resume(k, units[1..], Commit(s, step), future, t)
    ensures Resume(k, units, s, [step] + future, t)
  {
    hide StepRuns, Commit;
    assert ([step] + future)[1..] == future;
    assert units[0..] == units;
  }

  /** Whatever completes the rest from here completes the whole plan. */
  ghost predicate Continues(k: Setting, units: seq<PlanUnit>, i: nat, start: State, steps: seq<Step>, t: State)
    requires i <= |units|
  {
    forall future, final :: Resume(k, units[i..], t, future, final) ==> Resume(k, units, start, steps + future, final)
  }

  lemma ContinuesAtStart(k: Setting, units: seq<PlanUnit>, start: State)
    ensures Continues(k, units, 0, start, [], start)
  {
    hide Resume;
    assert units[0..] == units;
    forall future: seq<Step>, final | Resume(k, units, start, future, final) ensures Resume(k, units, start, [] + future, final) {
      assert [] + future == future;
    }
  }

  lemma ContinuesPast(k: Setting, units: seq<PlanUnit>, i: nat, start: State, steps: seq<Step>, t: State)
    requires i < |units| && units[i].connector == OnSuccess && t.exitCode != 0 && Continues(k, units, i, start, steps, t)
    ensures Continues(k, units, i + 1, start, steps, t)
  {
    hide Resume;
    assert units[i..][1..] == units[i + 1..];
    forall future, final | Resume(k, units[i + 1..], t, future, final)
      ensures Resume(k, units, start, steps + future, final)
    {
      ResumeSkips(k, units[i..], t, future, final);
    }
  }

  lemma ContinuesAfter(k: Setting, units: seq<PlanUnit>, i: nat, start: State, steps: seq<Step>, t: State, step: Step)
    requires i < |units| && (units[i].connector == Always || t.exitCode == 0) && Continues(k, units, i, start, steps, t)
    requires StepRuns(k, step) && step.item == units[i] && step.environment == t.environment && step.cwd == t.cwd
    ensures Continues(k, units, i + 1, start, steps + [step], Commit(t, step))
  {
    hide Resume, StepRuns, Commit;
    assert units[i..][1..] == units[i + 1..];
    forall future, final | Resume(k, units[i + 1..], Commit(t, step), future, final)
      ensures Resume(k, units, start, steps + [step] + future, final)
    {
      ResumeRuns(k, units[i..], t, step, future, final);
      assert steps + ([step] + future) == steps + [step] + future;
    }
  }

  lemma ContinuesAtEnd(k: Setting, units: seq<PlanUnit>, start: State, steps: seq<Step>, t: State)
    requires Continues(k, units, |units|, start, steps, t)
    ensures Resume(k, units, start, steps, t)
  {
    assert units[|units|..] == [];
    NothingLeft(k, t);
    hide Resume;
    assert steps + [] == steps;
  }

  /** The executor's variables. */
  datatype Progress = Progress(
    environment: Environment, cwd: Chars, changes: seq<Change>, exitCode: nat, failure: Option<FailureCode>)

  /** They and the two collectors hold exactly the state `t`. */
  ghost predicate Holds(p: Progress, stdout: BoundedOutput.Collector, stderr: BoundedOutput.Collector, t: State)
    reads stdout, stderr
  {
    && stdout.Valid() && stderr.Valid() && stdout != stderr
    && t == State(p.environment, p.cwd, p.changes, p.exitCode, p.failure, stdout.stream, stderr.stream)
  }

  /** Output is collected, and success moves on. */
  method Record(stdout: BoundedOutput.Collector, stderr: BoundedOutput.Collector, ghost s: State, ghost step: Step,
                stage: CommandResult, printed: bool, p: Progress)
    returns (q: Progress)
    requires Holds(p, stdout, stderr, s) && step.result == stage && step.printed == printed
    modifies stdout, stderr
    ensures Holds(q, stdout, stderr, Commit(s, step))
  {
    hide BoundedOutput.Keeps;
    if printed {
      stdout.AppendText(stage.stdout);
    }
    stderr.AppendText(stage.stderr);
    q := Progress(p.environment, p.cwd, p.changes, stage.exitCode, stage.failure);
    if stage.exitCode == 0 {
      if stage.cwd.Some? {
        q := q.(cwd := stage.cwd.value);
      }
      if stage.changes != [] {
        var environment := ApplyEnvironmentChanges(p.environment, stage.changes);
        q := q.(environment := environment, changes := p.changes + stage.changes);
      }
    }
  }

  /** One eligible unit; `p` is what the variables hold afterwards, unless the run is abandoned. */
  method RunNext(k: Setting, host: Host, stdout: BoundedOutput.Collector, stderr: BoundedOutput.Collector,
                 item: PlanUnit, p: Progress, ghost s: State)
    returns (r: Option<Progress>, ghost step: Step, ghost events: seq<Event>)
    requires ExpandableUnit(item, k.alpha) && k.limits.maxStdoutBytes > 0
    requires Holds(p, stdout, stderr, s)
    modifies host, stdout, stderr
    ensures r.Some? ==>
              && StepRuns(k, step) && step.item == item && step.environment == s.environment && step.cwd == s.cwd
              && Holds(r.value, stdout, stderr, Commit(s, step))
              && events == step.events
    ensures host.log == old(host.log) + events
    ensures r == None ==> Abandoned(k, host.stopped, events)
  {
    hide StepRuns, ExpandableUnit, Commit, BoundedOutput.Keeps;
    step := Step(item, p.environment, p.cwd, [], RawResult(0, None, [], [], None, []), true);
    events := [];
    var stopped := host.Stopped();
    if stopped {
      return None, step, events;
    }
    var result, printed;
    result, printed, events := RunUnit(k, host, item, p.environment, p.cwd);
    if result == None {
      return None, step, events;
    }
    step := Step(item, p.environment, p.cwd, events, result.value, printed);
    var q := Record(stdout, stderr, s, step, result.value, printed, p);
    return Some(q), step, events;
  }

  /** Runs a parsed plan.  An abandoned run (a raised command, a timeout, a cancellation)
      returns no result. */
  method ExecutePlan(k: Setting, host: Host, units: seq<PlanUnit>, environment: Environment, cwd: Chars)
    returns (r: Option<ExecuteResult>, ghost steps: seq<Step>, ghost t: State)
    requires units != [] && units[0].connector == Always
    requires forall i :: 0 <= i < |units| ==> ExpandableUnit(units[i], k.alpha)
    requires k.limits.maxStdoutBytes > 0 && k.limits.maxStderrBytes > 0
    modifies host
    ensures r.Some? ==> BigStep(k, units, Start(environment, cwd), steps, t) && steps != []
    ensures r.Some? ==> host.log == old(host.log) + AllEvents(steps)
    ensures r.Some? ==> Reports(k, r.value, t)
    // a run is only abandoned for a reason
    ensures r == None ==>
              old(host.log) <= host.log && Abandoned(k, host.stopped, host.log[|old(host.log)|..])
  {
    hide Continues, Resume, StepRuns, ExpandableUnit, Commit, BoundedOutput.Keeps, Encode, BigStep, Reports, AllEvents;
    NoEvents();
    var stdout := new BoundedOutput.Collector(k.limits.maxStdoutBytes);
    var stderr := new BoundedOutput.Collector(k.limits.maxStderrBytes);
    var p := Progress(environment, cwd, [], 0, None);
    var executed := false;
    steps, t := [], Start(environment, cwd);
    ghost var start := t;
    ContinuesAtStart(k, units, start);
    for i := 0 to |units|
      invariant fresh(stdout) && fresh(stderr) && Holds(p, stdout, stderr, t)
      invariant stdout.maxBytes == k.limits.maxStdoutBytes && stderr.maxBytes == k.limits.maxStderrBytes
      invariant host.log == old(host.log) + AllEvents(steps)
      invariant executed == (steps != []) && (i > 0 ==> executed) && (i == 0 ==> p.exitCode == 0)
      invariant Continues(k, units, i, start, steps, t)
    {
      var item := units[i];
      if item.connector == OnSuccess && p.exitCode != 0 {
        ContinuesPast(k, units, i, start, steps, t);
        continue;
      }
      var next;
      ghost var step, events;
      next, step, events := RunNext(k, host, stdout, stderr, item, p, t);
      if next == None {
        AbandonedLater(k, host.stopped, AllEvents(steps), events);
        LogInParts(old(host.log), AllEvents(steps) + events, host.log);
        return None, steps, t;
      }
      ContinuesAfter(k, units, i, start, steps, t, step);
      EventsAppend(steps, step);
      steps, t := steps + [step], Commit(t, step);
      p, executed := next.value, true;
    }
    ContinuesAtEnd(k, units, start, steps, t);
    assert executed;
    ResumeIsBigStep(k, units, start, steps, t);
    var out := stdout.Result();
    var err := stderr.Result();
    r := Some(ExecuteResult(p.exitCode, p.failure, out, err, p.cwd, p.changes));
    ReportsFrom(k, r.value, t);
  }

  lemma LogInParts(before: seq<Event>, events: seq<Event>, log: seq<Event>)
    requires log == before + events
    ensures before <= log && log[|before|..] == events
  {
  }

  /** A result says what the final state is, its output bounded. */
  predicate Reports(k: Setting, r: ExecuteResult, t: State) {
    && r.exitCode == t.exitCode && r.failure == t.failure && r.cwd == t.cwd && r.changes == t.changes
    && Bounded(r.stdout, t.stdout, k.limits.maxStdoutBytes) && Bounded(r.stderr, t.stderr, k.limits.maxStderrBytes)
  }

  lemma ReportsFrom(k: Setting, r: ExecuteResult, t: State)
    requires r.exitCode == t.exitCode && r.failure == t.failure && r.cwd == t.cwd && r.changes == t.changes
    requires Bounded(r.stdout, t.stdout, k.limits.maxStdoutBytes) && Bounded(r.stderr, t.stderr, k.limits.maxStderrBytes)
    ensures Reports(k, r, t)
  {
  }

  lemma NoEvents()
    ensures AllEvents([]) == []
  {
  }

  lemma EventsAppend(steps: seq<Step>, step: Step)
    ensures AllEvents(steps + [step]) == AllEvents(steps) + step.events
  {
    assert (steps + [step])[..|steps|] == steps;
  }

  lemma ResumeIsBigStep(k: Setting, units: seq<PlanUnit>, s: State, steps: seq<Step>, t: State)
    requires s.exitCode == 0
    ensures Resume(k, units, s, steps, t) <==> BigStep(k, units, s, steps, t)
  {
  }

  /** The longest prefix that fits, with the truth about what there was. */
  predicate Bounded(b: BoundedOutput.BoundedText, stream: Text, max: nat) {
    && b.text == stream[..BoundedOutput.Fitting(stream, max)]
    && b.originalBytes == |Encode(stream)| && (b.truncated <==> |Encode(stream)| > max)
  }

  lemma NothingLeft(k: Setting, t: State)
    ensures Resume(k, [], t, [], t)
  {
  }
}
