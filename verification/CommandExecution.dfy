/** What executing a plan means: admission of a unit, pipelines under byte limits, redirection,
    and `;` and `&&` over them, with the working directory and environment passed along. */
module CommandExecution {
  import opened Basics
  import opened Utf8
  import opened CommandSyntax
  import opened CommandRoundTrip

  datatype FailureCode = CommandNotFound | InvalidArgument | NoMatch | WorkspaceFailure | PipelineLimitExceeded
    | RedirectionFailure | ProtectedValueRejected

  datatype Change = Change(name: Chars, value: Option<Text>)

  datatype RawResult = RawResult(
    exitCode: nat, failure: Option<FailureCode>, stdout: Text, stderr: Text, cwd: Option<Chars>, changes: seq<Change>)

  /** A failure code exactly when the exit code is not zero. */
  type CommandResult = r: RawResult | (r.exitCode == 0 <==> r.failure == None) witness RawResult(0, None, [], [], None, [])

  datatype Descriptor = Descriptor(pipelineSafe: bool, acceptsStdin: bool, permitsRedirection: bool)

  datatype Limits = Limits(
    maxArgumentBytes: nat, maxStdoutBytes: nat, maxStderrBytes: nat, maxIntermediateBytes: nat, maxAggregateBytes: nat)

  /** What a diagnostic is about.  Its wording is not part of this model. */
  datatype Note = ProtectedArgument | BadArgument | NotFound | NotInPipelines | NoPipelineInput | NoRedirection
    | PipeTooLong | RedirectedTooLong | NotStored | NotPersisted

  /** One request's surroundings: the registry, the limits, the secrets and their protection. */
  datatype Setting = Setting(
    registry: map<Chars, Descriptor>, limits: Limits, overlay: Environment,
    isProtected: Chars -> bool, redact: Text -> Text, say: (Note, Chars) -> Text, alpha: CodePoint -> bool)

  function Fail(k: Setting, exitCode: nat, code: FailureCode, note: Note, name: Chars): CommandResult
    requires exitCode > 0
  {
    RawResult(exitCode, Some(code), [], k.say(note, name), None, [])
  }

  // ---------------------------------------------------------------- expansion of a unit

  predicate ExpandableUnit(u: PlanUnit, alpha: CodePoint -> bool) {
    GoodUnit(u, w => Expandable(w, alpha))
  }

  /** Parsed words always expand. */
  function Expanded(w: Word, view: Environment, cwd: Chars, alpha: CodePoint -> bool): Chars
    requires Expandable(w, alpha)
  {
    ValidatedNeverFails(w.fragments, view, cwd, alpha);
    ExpandFragments(w.fragments, view, cwd, alpha).value
  }

  function Argv(k: Setting, u: PlanUnit, i: nat, view: Environment, cwd: Chars): (argv: seq<Chars>)
    requires ExpandableUnit(u, k.alpha) && i < |u.stages|
    ensures |argv| == |u.stages[i].words| > 0
  {
    seq(|u.stages[i].words|, j requires 0 <= j < |u.stages[i].words| => Expanded(u.stages[i].words[j], view, cwd, k.alpha))
  }

  function DestinationOf(k: Setting, u: PlanUnit, view: Environment, cwd: Chars): Option<Chars>
    requires ExpandableUnit(u, k.alpha)
  {
    if u.redirection.None? then None else Some(Expanded(u.redirection.value.destination, view, cwd, k.alpha))
  }

  // ---------------------------------------------------------------- admission

  predicate Oversized(k: Setting, argument: Chars) {
    !Encodable(argument) || |Encode(AsText(argument))| > k.limits.maxArgumentBytes
  }

  predicate AnyProtected(k: Setting, argv: seq<Chars>) {
    exists j :: 0 <= j < |argv| && k.isProtected(argv[j])
  }

  predicate AnyOversized(k: Setting, argv: seq<Chars>) {
    exists j :: 0 <= j < |argv| && Oversized(k, argv[j])
  }

  /** The arguments that are measured with stage `i`: the destination counts with the last. */
  function Measured(k: Setting, u: PlanUnit, i: nat, view: Environment, cwd: Chars): seq<Chars>
    requires ExpandableUnit(u, k.alpha) && i < |u.stages|
  {
    var destination := DestinationOf(k, u, view, cwd);
    Argv(k, u, i, view, cwd) + if i == |u.stages| - 1 && destination.Some? then [destination.value] else []
  }

  /** The complaint about stage `i`, by order of precedence. */
  function StageFailure(k: Setting, u: PlanUnit, i: nat, view: Environment, cwd: Chars): Option<CommandResult>
    requires ExpandableUnit(u, k.alpha) && i < |u.stages|
  {
    var argv := Argv(k, u, i, view, cwd);
    if AnyProtected(k, argv) then Some(Fail(k, 1, ProtectedValueRejected, ProtectedArgument, []))
    else if AnyOversized(k, Measured(k, u, i, view, cwd)) then Some(Fail(k, 2, InvalidArgument, BadArgument, argv[0]))
    else if argv[0] !in k.registry then Some(Fail(k, 127, CommandNotFound, NotFound, argv[0]))
    else if |u.stages| > 1 && !k.registry[argv[0]].pipelineSafe then
      Some(Fail(k, 2, InvalidArgument, NotInPipelines, argv[0]))
    else if i > 0 && !k.registry[argv[0]].acceptsStdin then
      Some(Fail(k, 2, InvalidArgument, NoPipelineInput, argv[0]))
    else None
  }

  function FailureFrom(k: Setting, u: PlanUnit, i: nat, view: Environment, cwd: Chars): Option<CommandResult>
    requires ExpandableUnit(u, k.alpha) && i <= |u.stages|
    decreases |u.stages| - i
  {
    if i == |u.stages| then None
    else
      var here := StageFailure(k, u, i, view, cwd);
      if here.Some? then here else FailureFrom(k, u, i + 1, view, cwd)
  }

  predicate DestinationProtected(k: Setting, u: PlanUnit, view: Environment, cwd: Chars)
    requires ExpandableUnit(u, k.alpha)
  {
    var destination := DestinationOf(k, u, view, cwd);
    destination.Some? && k.isProtected(destination.value)
  }

  /** The last command, if it could be resolved, refuses to have its output redirected. */
  predicate RedirectionForbidden(k: Setting, u: PlanUnit, view: Environment, cwd: Chars)
    requires ExpandableUnit(u, k.alpha)
  {
    var argv := Argv(k, u, |u.stages| - 1, view, cwd);
    u.redirection.Some? && !AnyProtected(k, argv) && argv[0] in k.registry && !k.registry[argv[0]].permitsRedirection
  }

  /** The first complaint in reading order; a forbidden redirection outranks all but secrets. */
  function UnitFailure(k: Setting, u: PlanUnit, view: Environment, cwd: Chars): Option<CommandResult>
    requires ExpandableUnit(u, k.alpha)
  {
    var first :=
      if DestinationProtected(k, u, view, cwd) then Some(Fail(k, 1, ProtectedValueRejected, ProtectedArgument, []))
      else FailureFrom(k, u, 0, view, cwd);
    if RedirectionForbidden(k, u, view, cwd) && !(first.Some? && first.value.failure == Some(ProtectedValueRejected)) then
      Some(Fail(k, 2, InvalidArgument, NoRedirection, Argv(k, u, |u.stages| - 1, view, cwd)[0]))
    else first
  }

  /** Nothing but unknown commands is wrong with stage `i`. */
  predicate StageKeepsRedirection(k: Setting, u: PlanUnit, i: nat, view: Environment, cwd: Chars)
    requires ExpandableUnit(u, k.alpha) && i < |u.stages|
  {
    StageFailure(k, u, i, view, cwd) == None || StageFailure(k, u, i, view, cwd).value.failure == Some(CommandNotFound)
  }

  /** A unit's output still goes to its destination, even when a command is unknown. */
  predicate RedirectionAdmitted(k: Setting, u: PlanUnit, view: Environment, cwd: Chars)
    requires ExpandableUnit(u, k.alpha)
  {
    && !DestinationProtected(k, u, view, cwd) && !RedirectionForbidden(k, u, view, cwd)
    && forall i :: 0 <= i < |u.stages| ==> StageKeepsRedirection(k, u, i, view, cwd)
  }

  /** What it takes for stage `i` to be dispatched. */
  predicate StageAdmissible(k: Setting, u: PlanUnit, i: nat, view: Environment, cwd: Chars)
    requires ExpandableUnit(u, k.alpha) && i < |u.stages|
  {
    var argv := Argv(k, u, i, view, cwd);
    && (forall j :: 0 <= j < |argv| ==> !k.isProtected(argv[j]) && !Oversized(k, argv[j]))
    && argv[0] in k.registry
    && (|u.stages| > 1 ==> k.registry[argv[0]].pipelineSafe)
    && (i > 0 ==> k.registry[argv[0]].acceptsStdin)
  }

  predicate UnitAdmissible(k: Setting, u: PlanUnit, view: Environment, cwd: Chars)
    requires ExpandableUnit(u, k.alpha)
  {
    var destination := DestinationOf(k, u, view, cwd);
    && (forall i :: 0 <= i < |u.stages| ==> StageAdmissible(k, u, i, view, cwd))
    && (destination.Some? ==> !k.isProtected(destination.value) && !Oversized(k, destination.value))
    && var last := Argv(k, u, |u.stages| - 1, view, cwd)[0];
    && (u.redirection.Some? ==> last in k.registry && k.registry[last].permitsRedirection)
  }

  lemma StageFailureMeans(k: Setting, u: PlanUnit, i: nat, view: Environment, cwd: Chars)
    requires ExpandableUnit(u, k.alpha) && i < |u.stages|
    ensures var destination := DestinationOf(k, u, view, cwd);
      StageFailure(k, u, i, view, cwd) == None <==>
        && StageAdmissible(k, u, i, view, cwd)
        && (i == |u.stages| - 1 && destination.Some? ==> !Oversized(k, destination.value))
  {
    hide Oversized, DestinationOf, Argv, ExpandableUnit;
    var argv, all := Argv(k, u, i, view, cwd), Measured(k, u, i, view, cwd);
    assert forall j :: 0 <= j < |argv| ==> all[j] == argv[j];
    var destination := DestinationOf(k, u, view, cwd);
    if i == |u.stages| - 1 && destination.Some? {
      assert all[|argv|] == destination.value;
    }
  }

  lemma {:induction false} NoFailureFrom(k: Setting, u: PlanUnit, i: nat, view: Environment, cwd: Chars)
    requires ExpandableUnit(u, k.alpha) && i <= |u.stages|
    ensures FailureFrom(k, u, i, view, cwd) == None <==> forall j :: i <= j < |u.stages| ==> StageFailure(k, u, j, view, cwd) == None
    decreases |u.stages| - i
  {
    hide StageFailure, ExpandableUnit;
    if i < |u.stages| {
      NoFailureFrom(k, u, i + 1, view, cwd);
    }
  }

  /** Admission reports no failure exactly when every stage and the destination are admissible. */
  lemma AdmissionIsExact(k: Setting, u: PlanUnit, view: Environment, cwd: Chars)
    requires ExpandableUnit(u, k.alpha)
    ensures UnitFailure(k, u, view, cwd) == None <==> UnitAdmissible(k, u, view, cwd)
    ensures UnitFailure(k, u, view, cwd) == None ==> RedirectionAdmitted(k, u, view, cwd)
  {
    hide ExpandableUnit, Oversized, DestinationOf, Argv, StageFailure, FailureFrom;
    NoFailureFrom(k, u, 0, view, cwd);
    forall i | 0 <= i < |u.stages|
      ensures StageFailure(k, u, i, view, cwd) == None <==>
        && StageAdmissible(k, u, i, view, cwd)
        && (i == |u.stages| - 1 && DestinationOf(k, u, view, cwd).Some? ==> !Oversized(k, DestinationOf(k, u, view, cwd).value))
    {
      StageFailureMeans(k, u, i, view, cwd);
    }
    assert u.redirection.Some? <==> DestinationOf(k, u, view, cwd).Some? by {
      DestinationSome(k, u, view, cwd);
    }
    assert |u.stages| > 0 by {
      StagesSome(u, k.alpha);
    }
    assert StageAdmissible(k, u, |u.stages| - 1, view, cwd) ==> !AnyProtected(k, Argv(k, u, |u.stages| - 1, view, cwd));
  }

  lemma DestinationSome(k: Setting, u: PlanUnit, view: Environment, cwd: Chars)
    requires ExpandableUnit(u, k.alpha)
    ensures u.redirection.Some? <==> DestinationOf(k, u, view, cwd).Some?
  {
  }

  lemma StagesSome(u: PlanUnit, alpha: CodePoint -> bool)
    requires ExpandableUnit(u, alpha)
    ensures |u.stages| > 0
  {
  }

  // ---------------------------------------------------------------- what the host does

  /** A call out of the executor.  A command that raised, or a store that broke, has no answer. */
  datatype Event =
    | Dispatched(argv: seq<Chars>, stdin: Text, connected: bool, view: Environment, cwd: Chars, answer: Option<CommandResult>)
    | Stored(path: Chars, cwd: Chars, mode: Mode, content: seq<Byte>, accepted: Option<bool>)

  /** Nothing protected may be carried into the session by a result. */
  predicate Persistable(k: Setting, r: CommandResult) {
    && (r.cwd.Some? ==> !k.isProtected(r.cwd.value))
    && forall i :: 0 <= i < |r.changes| ==>
         && !k.isProtected(r.changes[i].name) && r.changes[i].name !in k.overlay
         && (r.changes[i].value.Some? ==> !k.isProtected(r.changes[i].value.value))
  }

  function Sanitize(k: Setting, r: CommandResult, name: Chars): CommandResult {
    if !Persistable(k, r) then Fail(k, 1, ProtectedValueRejected, NotPersisted, name)
    else RawResult(r.exitCode, r.failure, k.redact(r.stdout), k.redact(r.stderr), r.cwd, r.changes)
  }

  lemma SanitizedPersists(k: Setting, r: CommandResult, name: Chars)
    ensures Persistable(k, Sanitize(k, r, name))
  {
  }

  // ---------------------------------------------------------------- pipelines

  predicate ChangesState(r: CommandResult) {
    r.cwd.Some? || r.changes != []
  }

  function Bytes(results: seq<CommandResult>): nat {
    if results == [] then 0 else Bytes(results[..|results| - 1]) + |Encode(results[|results| - 1].stdout)|
  }

  function Errors(results: seq<CommandResult>): Text {
    if results == [] then [] else Errors(results[..|results| - 1]) + results[|results| - 1].stderr
  }

  /** The status of the rightmost failing stage, or success. */
  function Status(results: seq<CommandResult>): (r: CommandResult)
    ensures r.stdout == [] && r.stderr == [] && r.cwd == None && r.changes == []
  {
    if results == [] then RawResult(0, None, [], [], None, [])
    else
      var last := results[|results| - 1];
      if last.exitCode != 0 then RawResult(last.exitCode, last.failure, [], [], None, []) else Status(results[..|results| - 1])
  }

  /** The output of stage `j`, passed on, is within both limits. */
  predicate PassedOn(k: Setting, results: seq<CommandResult>, j: nat)
    requires j < |results|
  {
    |Encode(results[j].stdout)| <= k.limits.maxIntermediateBytes && Bytes(results[..j + 1]) <= k.limits.maxAggregateBytes
  }

  /** Stage `j` was given what the stage before it wrote, and this was its sanitised answer. */
  predicate StageRan(
    k: Setting, argvs: seq<seq<Chars>>, view: Environment, cwd: Chars,
    events: seq<Event>, results: seq<CommandResult>, j: nat)
    requires j < |results| <= |argvs| && |events| == |results| && argvs[j] != []
  {
    && events[j].Dispatched? && events[j].answer.Some?
    && events[j].argv == argvs[j] && events[j].view == view && events[j].cwd == cwd
    && events[j].connected == (j > 0)
    && events[j].stdin == (if j == 0 then [] else results[j - 1].stdout)
    && results[j] == Sanitize(k, events[j].answer.value, argvs[j][0])
    && !ChangesState(results[j])
  }

  /** A pipeline run that reached stage |results|: cut off there, or complete. */
  ghost predicate PipelineRun(
    k: Setting, argvs: seq<seq<Chars>>, view: Environment, cwd: Chars, events: seq<Event>, results: seq<CommandResult>)
  {
    && 0 < |results| <= |argvs| && |events| == |results|
    && (forall j :: 0 <= j < |argvs| ==> argvs[j] != [])
    && (forall j :: 0 <= j < |results| ==> StageRan(k, argvs, view, cwd, events, results, j))
    && (forall j :: 0 <= j < |results| - 1 ==> PassedOn(k, results, j))
    && (|results| < |argvs| ==> !PassedOn(k, results, |results| - 1))
  }

  /** What the run reports: all diagnostics, and unless it was cut off the last stage's output
      with the status of the rightmost failing stage. */
  function PipelineReport(k: Setting, argvs: seq<seq<Chars>>, results: seq<CommandResult>): CommandResult
    requires 0 < |results| <= |argvs| && argvs[|results| - 1] != []
  {
    if |results| < |argvs| then
      RawResult(1, Some(PipelineLimitExceeded), [], Errors(results) + k.say(PipeTooLong, argvs[|results| - 1][0]), None, [])
    else
      Status(results).(stdout := results[|results| - 1].stdout, stderr := Errors(results))
  }

  /** The status of a pipeline is that of its rightmost failing stage, if one failed. */
  lemma {:induction false} StatusIsRightmost(results: seq<CommandResult>, j: nat)
    requires j <= |results|
    requires forall i :: j <= i < |results| ==> results[i].exitCode == 0
    requires j > 0 ==> results[j - 1].exitCode != 0
    ensures j > 0 ==> Status(results).exitCode == results[j - 1].exitCode && Status(results).failure == results[j - 1].failure
    ensures j == 0 ==> Status(results).exitCode == 0
    decreases |results|
  {
    if results != [] && j < |results| {
      StatusIsRightmost(results[..|results| - 1], j);
    }
  }

  /** A pipeline that came to its end kept every output that it passed on, and all of them
      together, within the limits; one that was cut off is a failure without output. */
  lemma PipelineLimits(
      k: Setting, argvs: seq<seq<Chars>>, view: Environment, cwd: Chars, events: seq<Event>, results: seq<CommandResult>)
    requires PipelineRun(k, argvs, view, cwd, events, results)
    ensures var r := PipelineReport(k, argvs, results);
      && (|results| == |argvs| ==>
            && (forall j :: 0 <= j < |results| - 1 ==> |Encode(results[j].stdout)| <= k.limits.maxIntermediateBytes)
            && (|results| > 1 ==> Bytes(results[..|results| - 1]) <= k.limits.maxAggregateBytes)
            && r.stdout == results[|results| - 1].stdout && r.exitCode == Status(results).exitCode)
      && (|results| < |argvs| ==> r.failure == Some(PipelineLimitExceeded) && r.stdout == [])
  {
    hide Encode, Bytes, StageRan, Errors, Status;
    forall j | 0 <= j < |results| - 1 ensures |Encode(results[j].stdout)| <= k.limits.maxIntermediateBytes {
      assert PassedOn(k, results, j);
    }
    if |results| > 1 {
      assert PassedOn(k, results, |results| - 2);
    }
  }

  // ---------------------------------------------------------------- one unit

  /** The arguments of every stage. */
  function Argvs(k: Setting, u: PlanUnit, view: Environment, cwd: Chars): (r: seq<seq<Chars>>)
    requires ExpandableUnit(u, k.alpha)
    ensures |r| == |u.stages| && forall i :: 0 <= i < |r| ==> r[i] == Argv(k, u, i, view, cwd)
  {
    seq(|u.stages|, i requires 0 <= i < |u.stages| => Argv(k, u, i, view, cwd))
  }

  /** How the stages of an admitted unit come to their result. */
  ghost predicate StagesRun(k: Setting, u: PlanUnit, view: Environment, cwd: Chars, events: seq<Event>, stage: CommandResult)
    requires ExpandableUnit(u, k.alpha)
  {
    var argvs := Argvs(k, u, view, cwd);
    if |argvs| == 1 then
      && |events| == 1 && events[0].Dispatched? && events[0].answer.Some?
      && events[0] == Dispatched(argvs[0], [], false, view, cwd, events[0].answer)
      && stage == Sanitize(k, events[0].answer.value, argvs[0][0])
    else
      exists results :: PipelineRun(k, argvs, view, cwd, events, results) && stage == PipelineReport(k, argvs, results)
  }

  /** A refused unit dispatches nothing. */
  ghost predicate UnitRuns(k: Setting, u: PlanUnit, view: Environment, cwd: Chars, events: seq<Event>, stage: CommandResult)
    requires ExpandableUnit(u, k.alpha)
  {
    var failure := UnitFailure(k, u, view, cwd);
    if failure.Some? then events == [] && stage == failure.value
    else StagesRun(k, u, view, cwd, events, stage)
  }

  /** Whether a result goes to the destination rather than to the output. */
  predicate Redirects(k: Setting, u: PlanUnit, view: Environment, cwd: Chars, stage: CommandResult)
    requires ExpandableUnit(u, k.alpha)
  {
    u.redirection.Some? && RedirectionAdmitted(k, u, view, cwd) && stage.failure != Some(PipelineLimitExceeded)
  }

  /** The name that redirection diagnostics carry. */
  function LastCommand(k: Setting, u: PlanUnit, view: Environment, cwd: Chars): Chars
    requires ExpandableUnit(u, k.alpha)
  {
    var name := Argv(k, u, |u.stages| - 1, view, cwd)[0];
    if Encodable(name) then name else COMMAND
  }

  function NotRedirected(k: Setting, note: Note, name: Chars, stage: CommandResult): CommandResult {
    RawResult(1, Some(RedirectionFailure), [], stage.stderr + k.say(note, name), None, [])
  }

  /** Storing the output: at most one write, of all of it, and only when it fits. */
  ghost predicate RedirectionRuns(
    k: Setting, u: PlanUnit, view: Environment, cwd: Chars, name: Chars, stage: CommandResult,
    events: seq<Event>, stored: CommandResult)
    requires ExpandableUnit(u, k.alpha) && u.redirection.Some?
  {
    var content := Encode(stage.stdout);
    var path := DestinationOf(k, u, view, cwd).value;
    if k.isProtected(path) then
      events == [] && stored == Fail(k, 1, ProtectedValueRejected, NotPersisted, name)
    else if |content| > k.limits.maxStdoutBytes then
      events == [] && stored == NotRedirected(k, RedirectedTooLong, name, stage)
    else
      && |events| == 1 && events[0].Stored? && events[0].accepted.Some?
      && events[0] == Stored(path, cwd, u.redirection.value.mode, content, events[0].accepted)
      && stored == if events[0].accepted.value then stage.(stdout := []) else NotRedirected(k, NotStored, name, stage)
  }

  // ---------------------------------------------------------------- sequencing

  /** One executed unit: where it ran, what it called, its result and whether it printed. */
  datatype Step = Step(item: PlanUnit, environment: Environment, cwd: Chars, events: seq<Event>, result: CommandResult, printed: bool)

  /** "command" */
  const COMMAND: Chars := [0x63, 0x6F, 0x6D, 0x6D, 0x61, 0x6E, 0x64]

  /** The step is what its unit does: admission or stages, sanitising, redirection, sanitising. */
  ghost predicate StepRuns(k: Setting, s: Step) {
    && ExpandableUnit(s.item, k.alpha)
    && var view := s.environment + k.overlay;
    && exists n: nat, stage: CommandResult ::
         && n <= |s.events| && UnitRuns(k, s.item, view, s.cwd, s.events[..n], stage)
         && StepEnds(k, s, view, Sanitize(k, stage, COMMAND), s.events[n..])
  }

  ghost predicate StepEnds(k: Setting, s: Step, view: Environment, stage: CommandResult, events: seq<Event>)
    requires ExpandableUnit(s.item, k.alpha)
  {
    if Redirects(k, s.item, view, s.cwd, stage) then
      && !s.printed
      && var name := LastCommand(k, s.item, view, s.cwd);
      && exists stored ::
           RedirectionRuns(k, s.item, view, s.cwd, name, stage, events, stored) && s.result == Sanitize(k, stored, name)
    else s.printed && events == [] && s.result == stage
  }

  datatype State = State(
    environment: Environment, cwd: Chars, changes: seq<Change>,
    exitCode: nat, failure: Option<FailureCode>, stdout: Text, stderr: Text)

  function Start(environment: Environment, cwd: Chars): State {
    State(environment, cwd, [], 0, None, [], [])
  }

  function ApplyChange(environment: Environment, c: Change): Environment {
    if c.value.None? then environment - {c.name} else environment[c.name := c.value.value]
  }

  function ApplyChanges(environment: Environment, changes: seq<Change>): Environment {
    if changes == [] then environment
    else ApplyChange(ApplyChanges(environment, changes[..|changes| - 1]), changes[|changes| - 1])
  }

  /** Output always accumulates; only success moves the directory and the environment. */
  function Commit(s: State, step: Step): State {
    var r := step.result;
    State(
      if r.exitCode == 0 then ApplyChanges(s.environment, r.changes) else s.environment,
      if r.exitCode == 0 && r.cwd.Some? then r.cwd.value else s.cwd,
      if r.exitCode == 0 then s.changes + r.changes else s.changes,
      r.exitCode, r.failure,
      if step.printed then s.stdout + r.stdout else s.stdout,
      s.stderr + r.stderr)
  }

  /** How many units to pass over after a failure: those that wait for success. */
  function Skipped(units: seq<PlanUnit>): (n: nat)
    ensures n <= |units|
  {
    if units == [] || units[0].connector == Always then 0 else 1 + Skipped(units[1..])
  }

  /** Big-step semantics: run the first unit; after success go on with the next one, after a
      failure with the next one that a `;` starts. */
  ghost predicate BigStep(k: Setting, units: seq<PlanUnit>, s: State, steps: seq<Step>, t: State)
    decreases |units|
  {
    if units == [] then steps == [] && t == s
    else
      && steps != [] && StepRuns(k, steps[0])
      && steps[0].item == units[0] && steps[0].environment == s.environment && steps[0].cwd == s.cwd
      && var s1 := Commit(s, steps[0]);
      && var rest := units[1..];
      && BigStep(k, if s1.exitCode == 0 then rest else rest[Skipped(rest)..], s1, steps[1..], t)
  }

  // ---------------------------------------------------------------- consequences

  /** What the parser accepts qualifies for execution, and its first unit always runs. */
  lemma ParsedPlansQualify(command: Chars, alpha: CodePoint -> bool)
    requires Parse(command, alpha).Ok?
    ensures var units := Parse(command, alpha).value;
      && units != [] && units[0].connector == Always
      && forall i :: 0 <= i < |units| ==> ExpandableUnit(units[i], alpha)
  {
    hide Tokenize, ParseUnits, GoodUnit;
    ParseThenFlatten(Tokenize(command).value, Always, alpha);
  }

  lemma AtLeastOneUnitRuns(k: Setting, units: seq<PlanUnit>, s: State, steps: seq<Step>, t: State)
    requires units != [] && BigStep(k, units, s, steps, t)
    ensures steps != [] && steps[0].item == units[0]
    ensures t.exitCode == steps[|steps| - 1].result.exitCode && t.failure == steps[|steps| - 1].result.failure
    decreases |units|
  {
    hide StepRuns;
    var s1 := Commit(s, steps[0]);
    var rest := units[1..];
    var next := if s1.exitCode == 0 then rest else rest[Skipped(rest)..];
    if next != [] {
      AtLeastOneUnitRuns(k, next, s1, steps[1..], t);
    }
  }

  lemma {:induction false} ApplyAppend(environment: Environment, a: seq<Change>, b: seq<Change>)
    ensures ApplyChanges(environment, a + b) == ApplyChanges(ApplyChanges(environment, a), b)
    decreases |b|
  {
    if b == [] {
      assert a + b == a;
    } else {
      var last := |b| - 1;
      ApplyAppend(environment, a, b[..last]);
      assert (a + b)[..|a + b| - 1] == a + b[..last];
    }
  }

  /** Replaying the published changes on the environment the session had gives, as a map, the
      environment that the executor ended with. */
  lemma {:induction false} ReplayAgrees(k: Setting, units: seq<PlanUnit>, s: State, steps: seq<Step>, t: State, original: Environment)
    requires BigStep(k, units, s, steps, t) && s.environment == ApplyChanges(original, s.changes)
    ensures t.environment == ApplyChanges(original, t.changes)
    decreases |units|
  {
    hide StepRuns;
    if units != [] {
      var s1 := Commit(s, steps[0]);
      ApplyAppend(original, s.changes, steps[0].result.changes);
      var rest := units[1..];
      ReplayAgrees(k, if s1.exitCode == 0 then rest else rest[Skipped(rest)..], s1, steps[1..], t, original);
    }
  }

  /** No secret enters the session: every published change and the final directory passed
      the protection, and no name of the overlay was changed. */
  lemma {:induction false} NothingProtectedPersists(k: Setting, units: seq<PlanUnit>, s: State, steps: seq<Step>, t: State)
    requires BigStep(k, units, s, steps, t)
    requires Clean(k, s)
    ensures Clean(k, t)
    decreases |units|
  {
    if units != [] {
      var s1 := Commit(s, steps[0]);
      StepPersistable(k, steps[0]);
      CommitClean(k, s, steps[0]);
      hide StepRuns, Clean;
      var rest := units[1..];
      NothingProtectedPersists(k, if s1.exitCode == 0 then rest else rest[Skipped(rest)..], s1, steps[1..], t);
    }
  }

  predicate Clean(k: Setting, s: State) {
    && !k.isProtected(s.cwd)
    && forall i :: 0 <= i < |s.changes| ==>
         && !k.isProtected(s.changes[i].name) && s.changes[i].name !in k.overlay
         && (s.changes[i].value.Some? ==> !k.isProtected(s.changes[i].value.value))
  }

  lemma CommitClean(k: Setting, s: State, step: Step)
    requires Clean(k, s) && Persistable(k, step.result)
    ensures Clean(k, Commit(s, step))
  {
  }

  lemma StepPersistable(k: Setting, s: Step)
    requires StepRuns(k, s)
    ensures Persistable(k, s.result)
  {
    hide UnitRuns, RedirectionRuns, Persistable, Sanitize, RedirectionAdmitted;
    var view := s.environment + k.overlay;
    var n: nat, stage: CommandResult :|
      n <= |s.events| && UnitRuns(k, s.item, view, s.cwd, s.events[..n], stage)
      && StepEnds(k, s, view, Sanitize(k, stage, COMMAND), s.events[n..]);
    SanitizedPersists(k, stage, COMMAND);
    if Redirects(k, s.item, view, s.cwd, Sanitize(k, stage, COMMAND)) {
      var name := LastCommand(k, s.item, view, s.cwd);
      var stored :|
        RedirectionRuns(k, s.item, view, s.cwd, name, Sanitize(k, stage, COMMAND), s.events[n..], stored)
        && s.result == Sanitize(k, stored, name);
      SanitizedPersists(k, stored, name);
    }
  }
}
