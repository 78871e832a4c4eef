/** What runs of a plan come to, said of what the commands answered: which units run, what
    reaches the next stage, a file or the output, and that all of it was redacted. */
module CommandOutcomes {
  import opened Basics
  import opened Utf8
  import opened CommandSyntax
  import opened CommandRoundTrip
  import opened CommandExecution

  // ---------------------------------------------------------------- what is shown is redacted

  /** `shown` holds of every redacted text, of the one note that follows redaction, and of what
      is put together from such texts. */
  ghost predicate HoldsOfRedacted(k: Setting, shown: Text -> bool) {
    && shown([])
    && (forall x: Text :: shown(k.redact(x)))
    && (forall name: Chars :: shown(k.say(NotPersisted, name)))
    && (forall x: Text, y: Text :: shown(x) && shown(y) ==> shown(x + y))
  }

  /** A call passes on only such text: to the next stage, or into a file. */
  ghost predicate PassesShown(e: Event, shown: Text -> bool) {
    match e
    case Dispatched(_, stdin, _, _, _, _) => shown(stdin)
    case Stored(_, _, _, content, _) => exists x: Text :: shown(x) && content == Encode(x)
  }

  lemma SanitizedShows(k: Setting, r: CommandResult, name: Chars, shown: Text -> bool)
    requires HoldsOfRedacted(k, shown)
    ensures shown(Sanitize(k, r, name).stdout) && shown(Sanitize(k, r, name).stderr)
  {
  }

  lemma PipelineShows(
      k: Setting, argvs: seq<seq<Chars>>, view: Environment, cwd: Chars, events: seq<Event>, results: seq<CommandResult>,
      shown: Text -> bool)
    requires HoldsOfRedacted(k, shown) && PipelineRun(k, argvs, view, cwd, events, results)
    ensures forall j :: 0 <= j < |events| ==> PassesShown(events[j], shown)
  {
    hide HoldsOfRedacted, Sanitize;
    forall j | 0 <= j < |events| ensures PassesShown(events[j], shown) {
      assert StageRan(k, argvs, view, cwd, events, results, j);
      if j > 0 {
        assert StageRan(k, argvs, view, cwd, events, results, j - 1);
        SanitizedShows(k, events[j - 1].answer.value, argvs[j - 1][0], shown);
      } else {
        NothingShows(k, shown);
      }
    }
  }

  lemma NothingShows(k: Setting, shown: Text -> bool)
    requires HoldsOfRedacted(k, shown)
    ensures shown([])
  {
  }

  lemma UnitShows(k: Setting, u: PlanUnit, view: Environment, cwd: Chars, events: seq<Event>, stage: CommandResult, shown: Text -> bool)
    requires HoldsOfRedacted(k, shown) && ExpandableUnit(u, k.alpha) && UnitRuns(k, u, view, cwd, events, stage)
    ensures forall j :: 0 <= j < |events| ==> PassesShown(events[j], shown)
  {
    hide HoldsOfRedacted, Sanitize, UnitFailure, StageRan, PassedOn, ExpandableUnit;
    NothingShows(k, shown);
    if UnitFailure(k, u, view, cwd) == None && |Argvs(k, u, view, cwd)| != 1 {
      var results :| PipelineRun(k, Argvs(k, u, view, cwd), view, cwd, events, results)
        && stage == PipelineReport(k, Argvs(k, u, view, cwd), results);
      PipelineShows(k, Argvs(k, u, view, cwd), view, cwd, events, results, shown);
    }
  }

  lemma RedirectionShows(
      k: Setting, u: PlanUnit, view: Environment, cwd: Chars, name: Chars, stage: CommandResult, events: seq<Event>,
      stored: CommandResult, shown: Text -> bool)
    requires shown(stage.stdout) && ExpandableUnit(u, k.alpha) && u.redirection.Some?
    requires RedirectionRuns(k, u, view, cwd, name, stage, events, stored)
    ensures forall j :: 0 <= j < |events| ==> PassesShown(events[j], shown)
  {
    hide Encode, ExpandableUnit;
  }

  lemma StepShows(k: Setting, s: Step, shown: Text -> bool)
    requires HoldsOfRedacted(k, shown) && StepRuns(k, s)
    ensures shown(s.result.stdout) && shown(s.result.stderr)
    ensures forall j :: 0 <= j < |s.events| ==> PassesShown(s.events[j], shown)
  {
    hide HoldsOfRedacted, Sanitize, UnitRuns, RedirectionRuns, RedirectionAdmitted, ExpandableUnit, PassesShown;
    var view := s.environment + k.overlay;
    var n: nat, stage: CommandResult :|
      n <= |s.events| && UnitRuns(k, s.item, view, s.cwd, s.events[..n], stage)
      && StepEnds(k, s, view, Sanitize(k, stage, COMMAND), s.events[n..]);
    UnitShows(k, s.item, view, s.cwd, s.events[..n], stage, shown);
    var clean := Sanitize(k, stage, COMMAND);
    SanitizedShows(k, stage, COMMAND, shown);
    if Redirects(k, s.item, view, s.cwd, clean) {
      var name := LastCommand(k, s.item, view, s.cwd);
      var stored :| RedirectionRuns(k, s.item, view, s.cwd, name, clean, s.events[n..], stored) && s.result == Sanitize(k, stored, name);
      SanitizedShows(k, stored, name, shown);
      RedirectionShows(k, s.item, view, s.cwd, name, clean, s.events[n..], stored, shown);
    }
    EventsInParts(s.events, n, shown);
  }

  lemma EventsInParts(events: seq<Event>, n: nat, shown: Text -> bool)
    requires n <= |events|
    requires forall j :: 0 <= j < n ==> PassesShown(events[..n][j], shown)
    requires forall j :: 0 <= j < |events| - n ==> PassesShown(events[n..][j], shown)
    ensures forall j :: 0 <= j < |events| ==> PassesShown(events[j], shown)
  {
    hide PassesShown;
    forall j | 0 <= j < |events| ensures PassesShown(events[j], shown) {
      if j < n {
        assert events[..n][j] == events[j];
      } else {
        assert events[n..][j - n] == events[j];
      }
    }
  }

  lemma CommitShows(k: Setting, s: State, step: Step, shown: Text -> bool)
    requires HoldsOfRedacted(k, shown) && shown(s.stdout) && shown(s.stderr)
    requires shown(step.result.stdout) && shown(step.result.stderr)
    ensures shown(Commit(s, step).stdout) && shown(Commit(s, step).stderr)
  {
    hide ApplyChanges;
  }

  /** Whatever the commands answer: all output of a plan, all that one stage hands to the next
      and all that is stored is put together from redacted texts. */
  lemma {:induction false} OnlyRedactedIsShown(
      k: Setting, units: seq<PlanUnit>, s: State, steps: seq<Step>, t: State, shown: Text -> bool)
    requires BigStep(k, units, s, steps, t) && HoldsOfRedacted(k, shown)
    requires shown(s.stdout) && shown(s.stderr)
    ensures shown(t.stdout) && shown(t.stderr)
    ensures forall i, j :: 0 <= i < |steps| && 0 <= j < |steps[i].events| ==> PassesShown(steps[i].events[j], shown)
    decreases |units|
  {
    hide StepRuns, PassesShown, HoldsOfRedacted;
    if units != [] {
      var s1 := Commit(s, steps[0]);
      StepShows(k, steps[0], shown);
      CommitShows(k, s, steps[0], shown);
      var rest := units[1..];
      OnlyRedactedIsShown(k, if s1.exitCode == 0 then rest else rest[Skipped(rest)..], s1, steps[1..], t, shown);
      forall i, j | 0 <= i < |steps| && 0 <= j < |steps[i].events| ensures PassesShown(steps[i].events[j], shown) {
        if i > 0 {
          assert steps[i] == steps[1..][i - 1];
        }
      }
    }
  }

  // ---------------------------------------------------------------- what an admitted unit comes to

  ghost predicate AllAnswered(events: seq<Event>) {
    forall j :: 0 <= j < |events| ==> events[j].Dispatched? && events[j].answer.Some?
  }

  /** Each call is of its stage; the first gets no input, and a later one gets the redacted
      output of the one before it, unless that one asked for something protected. */
  ghost predicate CallsStages(k: Setting, u: PlanUnit, view: Environment, cwd: Chars, calls: seq<Event>)
    requires ExpandableUnit(u, k.alpha)
  {
    && 0 < |calls| <= |u.stages| && AllAnswered(calls)
    && (forall j :: 0 <= j < |calls| ==>
          && calls[j].argv == Argv(k, u, j, view, cwd) && calls[j].view == view && calls[j].cwd == cwd
          && (calls[j].connected <==> j > 0))
    && calls[0].stdin == []
    && (forall j :: 0 < j < |calls| ==> HandedOn(k, calls[j - 1], calls[j]))
  }

  predicate HandedOn(k: Setting, before: Event, e: Event) {
    && before.Dispatched? && before.answer.Some? && e.Dispatched?
    && (Persistable(k, before.answer.value) ==> e.stdin == k.redact(before.answer.value.stdout))
    && (!Persistable(k, before.answer.value) ==> e.stdin == [])
  }

  /** The stage exited with zero and asked for nothing protected. */
  predicate WentWell(k: Setting, e: Event)
    requires e.Dispatched? && e.answer.Some?
  {
    e.answer.value.exitCode == 0 && Persistable(k, e.answer.value)
  }

  /** The status of the rightmost call that did not go well, or success. */
  ghost predicate StatusOf(k: Setting, events: seq<Event>, exitCode: nat, failure: Option<FailureCode>)
    requires AllAnswered(events)
  {
    && ((forall j :: 0 <= j < |events| ==> WentWell(k, events[j])) ==> exitCode == 0 && failure == None)
    && (forall j :: 0 <= j < |events| && !WentWell(k, events[j]) && (forall i :: j < i < |events| ==> WentWell(k, events[i])) ==>
          if Persistable(k, events[j].answer.value) then
            exitCode == events[j].answer.value.exitCode && failure == events[j].answer.value.failure
          else exitCode == 1 && failure == Some(ProtectedValueRejected))
  }

  /** The text that a complete run has for the output or for a file. */
  ghost predicate IsOutputOf(k: Setting, last: CommandResult, shown: Text) {
    && (Persistable(k, last) ==> shown == k.redact(k.redact(last.stdout)))
    && (!Persistable(k, last) ==> shown == k.redact([]))
  }

  /** Each result is the sanitised answer of its call. */
  ghost predicate Results(k: Setting, names: seq<Chars>, events: seq<Event>, results: seq<CommandResult>) {
    && |events| == |results| == |names| && AllAnswered(events)
    && forall j :: 0 <= j < |events| ==> results[j] == Sanitize(k, events[j].answer.value, names[j])
  }

  lemma {:induction false} StatusOfResults(k: Setting, names: seq<Chars>, events: seq<Event>, results: seq<CommandResult>)
    requires Results(k, names, events, results)
    ensures StatusOf(k, events, Status(results).exitCode, Status(results).failure)
    decreases |results|
  {
    hide Persistable, Sanitize, WentWell, StatusOf;
    if results == [] {
      NoStatus(k, events);
    } else {
      var n := |results| - 1;
      StatusOfResults(k, names[..n], events[..n], results[..n]);
      StatusOfOneMore(k, events[..n], Status(results[..n]), events[n], names[n], Status(results));
      assert events == events[..n] + [events[n]];
    }
  }

  lemma NoStatus(k: Setting, events: seq<Event>)
    requires events == []
    ensures AllAnswered(events) && StatusOf(k, events, Status([]).exitCode, Status([]).failure)
  {
  }

  lemma StatusOfOneMore(k: Setting, events: seq<Event>, before: CommandResult, e: Event, name: Chars, after: CommandResult)
    requires AllAnswered(events) && StatusOf(k, events, before.exitCode, before.failure)
    requires e.Dispatched? && e.answer.Some?
    requires var r := Sanitize(k, e.answer.value, name);
      if r.exitCode != 0 then after.exitCode == r.exitCode && after.failure == r.failure
      else after.exitCode == before.exitCode && after.failure == before.failure
    ensures AllAnswered(events + [e]) && StatusOf(k, events + [e], after.exitCode, after.failure)
  {
    hide Persistable;
    var all := events + [e];
    assert forall j :: 0 <= j < |events| ==> all[j] == events[j];
    forall j | 0 <= j < |all| && !WentWell(k, all[j]) && (forall i :: j < i < |all| ==> WentWell(k, all[i]))
      ensures if Persistable(k, all[j].answer.value) then
          after.exitCode == all[j].answer.value.exitCode && after.failure == all[j].answer.value.failure
        else after.exitCode == 1 && after.failure == Some(ProtectedValueRejected)
    {
      if j < |events| {
        assert WentWell(k, all[|events|]);
        forall i | j < i < |events| ensures WentWell(k, events[i]) {
          assert all[i] == events[i];
        }
      }
    }
    if forall j :: 0 <= j < |all| ==> WentWell(k, all[j]) {
      assert WentWell(k, all[|events|]);
      forall j | 0 <= j < |events| ensures WentWell(k, events[j]) {
        assert all[j] == events[j];
      }
    }
  }

  /** What the calls of an admitted unit come to: an output with the status of the rightmost
      one that did not go well, or nothing when a limit cut them off. */
  ghost predicate ComesTo(k: Setting, u: PlanUnit, calls: seq<Event>, r: CommandResult)
    requires 0 < |calls| <= |u.stages| && AllAnswered(calls)
  {
    var last := calls[|calls| - 1].answer.value;
    if |calls| < |u.stages| then
      r.exitCode == 1 && r.failure == Some(PipelineLimitExceeded) && r.stdout == k.redact([]) && !ChangesState(r)
    else
      && StatusOf(k, calls, r.exitCode, r.failure) && IsOutputOf(k, last, r.stdout)
      && (if |calls| == 1 && Persistable(k, last) then r.cwd == last.cwd && r.changes == last.changes else !ChangesState(r))
  }

  lemma StatusOfSingle(k: Setting, e: Event, name: Chars)
    requires e.Dispatched? && e.answer.Some?
    ensures var r := Sanitize(k, e.answer.value, name);
      AllAnswered([e]) && StatusOf(k, [e], r.exitCode, r.failure)
  {
    hide Persistable;
    NoStatus(k, []);
    StatusOfOneMore(k, [], Status([]), e, name, Sanitize(k, e.answer.value, name));
    assert [] + [e] == [e];
  }

  lemma SingleComesTo(k: Setting, u: PlanUnit, e: Event, r: CommandResult)
    requires |u.stages| == 1 && e.Dispatched? && e.answer.Some? && e.argv != []
    requires r == Sanitize(k, Sanitize(k, e.answer.value, e.argv[0]), COMMAND)
    ensures AllAnswered([e]) && ComesTo(k, u, [e], r)
  {
    SanitizedPersists(k, e.answer.value, e.argv[0]);
    StatusOfSingle(k, e, e.argv[0]);
    hide Persistable, StatusOf;
  }

  lemma StageCall(
      k: Setting, u: PlanUnit, view: Environment, cwd: Chars, events: seq<Event>, results: seq<CommandResult>, j: nat)
    requires ExpandableUnit(u, k.alpha) && PipelineRun(k, Argvs(k, u, view, cwd), view, cwd, events, results) && j < |events|
    ensures var e := events[j];
      && e.Dispatched? && e.answer.Some? && e.argv == Argv(k, u, j, view, cwd) && e.argv != [] && e.view == view && e.cwd == cwd
      && (e.connected <==> j > 0) && e.stdin == (if j == 0 then [] else results[j - 1].stdout)
      && results[j] == Sanitize(k, e.answer.value, e.argv[0]) && !ChangesState(results[j])
  {
    hide PassedOn, Sanitize, ExpandableUnit, Argv;
    assert StageRan(k, Argvs(k, u, view, cwd), view, cwd, events, results, j);
  }

  lemma PipelineResults(
      k: Setting, u: PlanUnit, view: Environment, cwd: Chars, events: seq<Event>, results: seq<CommandResult>)
    requires ExpandableUnit(u, k.alpha) && PipelineRun(k, Argvs(k, u, view, cwd), view, cwd, events, results)
    ensures 0 < |events| == |results| <= |u.stages|
    ensures Results(k, Names(events), events, results)
    ensures !ChangesState(results[|results| - 1])
  {
    assert 0 < |events| == |results| <= |u.stages|;
    hide PipelineRun, Persistable, ExpandableUnit, Argv, Sanitize;
    forall j | 0 <= j < |events|
      ensures events[j].Dispatched? && events[j].answer.Some?
      ensures results[j] == Sanitize(k, events[j].answer.value, Names(events)[j]) && !ChangesState(results[j])
    {
      StageCall(k, u, view, cwd, events, results, j);
    }
  }

  /** What the stages of one pipeline handed on. */
  lemma PipelineCalls(
      k: Setting, u: PlanUnit, view: Environment, cwd: Chars, events: seq<Event>, results: seq<CommandResult>)
    requires ExpandableUnit(u, k.alpha) && PipelineRun(k, Argvs(k, u, view, cwd), view, cwd, events, results)
    ensures CallsStages(k, u, view, cwd, events)
  {
    hide PipelineRun, Persistable, ExpandableUnit, Argv, Sanitize, Results, ChangesState;
    PipelineResults(k, u, view, cwd, events, results);
    forall j | 0 <= j < |events|
      ensures events[j].Dispatched? && events[j].answer.Some?
      ensures events[j].argv == Argv(k, u, j, view, cwd) && events[j].view == view && events[j].cwd == cwd
      ensures (events[j].connected <==> j > 0) && (j == 0 ==> events[j].stdin == [])
    {
      StageCall(k, u, view, cwd, events, results, j);
    }
    forall j | 0 < j < |events| ensures HandedOn(k, events[j - 1], events[j]) {
      StageCall(k, u, view, cwd, events, results, j);
      StageCall(k, u, view, cwd, events, results, j - 1);
      SanitizedOutput(k, events[j - 1].answer.value, events[j - 1].argv[0]);
    }
  }

  lemma SanitizedOutput(k: Setting, r: CommandResult, name: Chars)
    ensures Sanitize(k, r, name).stdout == if Persistable(k, r) then k.redact(r.stdout) else []
  {
    hide Persistable;
  }

  function Names(events: seq<Event>): (r: seq<Chars>)
    ensures |r| == |events|
    ensures forall j :: 0 <= j < |events| && events[j].Dispatched? && events[j].argv != [] ==> r[j] == events[j].argv[0]
  {
    seq(|events|, j requires 0 <= j < |events| => if events[j].Dispatched? && events[j].argv != [] then events[j].argv[0] else [])
  }

  lemma PipelineComesTo(
      k: Setting, u: PlanUnit, view: Environment, cwd: Chars, events: seq<Event>, results: seq<CommandResult>)
    requires ExpandableUnit(u, k.alpha) && PipelineRun(k, Argvs(k, u, view, cwd), view, cwd, events, results) && |u.stages| > 1
    ensures CallsStages(k, u, view, cwd, events)
    ensures ComesTo(k, u, events, Sanitize(k, PipelineReport(k, Argvs(k, u, view, cwd), results), COMMAND))
  {
    hide StageRan, PassedOn, StatusOf, Results, ExpandableUnit, Argv, CallsStages, Status, Sanitize, PipelineReport, ComesTo;
    PipelineCalls(k, u, view, cwd, events, results);
    PipelineResults(k, u, view, cwd, events, results);
    StatusOfResults(k, Names(events), events, results);
    LastResult(k, Names(events), events, results);
    CallsAnswered(k, u, view, cwd, events);
    ReportComesTo(k, u, Argvs(k, u, view, cwd), events, results, Names(events)[|events| - 1]);
  }

  lemma CallsAnswered(k: Setting, u: PlanUnit, view: Environment, cwd: Chars, calls: seq<Event>)
    requires ExpandableUnit(u, k.alpha) && CallsStages(k, u, view, cwd, calls)
    ensures 0 < |calls| <= |u.stages| && AllAnswered(calls)
  {
  }

  lemma ReportComesTo(
      k: Setting, u: PlanUnit, argvs: seq<seq<Chars>>, events: seq<Event>, results: seq<CommandResult>, name: Chars)
    requires 0 < |events| == |results| <= |argvs| == |u.stages| && |u.stages| > 1 && argvs[|results| - 1] != []
    requires AllAnswered(events) && StatusOf(k, events, Status(results).exitCode, Status(results).failure)
    requires results[|results| - 1] == Sanitize(k, events[|events| - 1].answer.value, name)
    requires !ChangesState(results[|results| - 1])
    ensures ComesTo(k, u, events, Sanitize(k, PipelineReport(k, argvs, results), COMMAND))
  {
    hide StatusOf, Status, Errors, AllAnswered;
  }

  lemma LastResult(k: Setting, names: seq<Chars>, events: seq<Event>, results: seq<CommandResult>)
    requires Results(k, names, events, results) && results != []
    ensures results[|results| - 1] == Sanitize(k, events[|events| - 1].answer.value, names[|events| - 1])
  {
  }

  lemma StagesComeTo(k: Setting, u: PlanUnit, view: Environment, cwd: Chars, events: seq<Event>, stage: CommandResult)
    requires ExpandableUnit(u, k.alpha) && StagesRun(k, u, view, cwd, events, stage)
    ensures CallsStages(k, u, view, cwd, events) && ComesTo(k, u, events, Sanitize(k, stage, COMMAND))
  {
    StagesSome(u, k.alpha);
    hide ExpandableUnit, Argv, Sanitize, PipelineRun, PipelineReport, ComesTo;
    var argvs := Argvs(k, u, view, cwd);
    if |argvs| == 1 {
      SingleComesTo(k, u, events[0], Sanitize(k, stage, COMMAND));
      assert events == [events[0]];
    } else {
      PipelineOf(k, u, view, cwd, events, stage);
    }
  }

  lemma PipelineOf(k: Setting, u: PlanUnit, view: Environment, cwd: Chars, events: seq<Event>, stage: CommandResult)
    requires ExpandableUnit(u, k.alpha) && StagesRun(k, u, view, cwd, events, stage) && |u.stages| > 1
    ensures CallsStages(k, u, view, cwd, events) && ComesTo(k, u, events, Sanitize(k, stage, COMMAND))
  {
    hide ExpandableUnit, Argv, Sanitize, ComesTo, CallsStages, StageRan, PassedOn;
    var argvs := Argvs(k, u, view, cwd);
    var results :| PipelineRun(k, argvs, view, cwd, events, results) && stage == PipelineReport(k, argvs, results);
    PipelineComesTo(k, u, view, cwd, events, results);
  }

  /** Where the output of a step's unit is to go. */
  function Target(k: Setting, s: Step): Chars
    requires ExpandableUnit(s.item, k.alpha) && s.item.redirection.Some?
  {
    DestinationOf(k, s.item, s.environment + k.overlay, s.cwd).value
  }

  /** A complete run's output, stored whole where the unit sends it, or refused. */
  ghost predicate StoresOutput(k: Setting, s: Step, calls: seq<Event>)
    requires ExpandableUnit(s.item, k.alpha) && s.item.redirection.Some?
    requires calls != [] && calls <= s.events && AllAnswered(calls)
  {
    var n, last := |calls|, calls[|calls| - 1].answer.value;
    exists shown: Text ::
      && IsOutputOf(k, last, shown) && s.result.stdout == k.redact([])
      && if |Encode(shown)| > k.limits.maxStdoutBytes then
           |s.events| == n && s.result.exitCode == 1 && s.result.failure == Some(RedirectionFailure)
         else
           && |s.events| == n + 1 && s.events[n].Stored? && s.events[n].accepted.Some?
           && s.events[n] == Stored(Target(k, s), s.cwd, s.item.redirection.value.mode, Encode(shown), s.events[n].accepted)
           && if s.events[n].accepted.value then StatusOf(k, calls, s.result.exitCode, s.result.failure)
              else s.result.exitCode == 1 && s.result.failure == Some(RedirectionFailure)
  }

  lemma StoredComesTo(
      k: Setting, s: Step, calls: seq<Event>, more: seq<Event>, last: CommandResult, clean: CommandResult, name: Chars,
      stored: CommandResult)
    requires ExpandableUnit(s.item, k.alpha) && s.item.redirection.Some?
    requires calls != [] && s.events == calls + more && AllAnswered(calls) && calls[|calls| - 1].answer == Some(last)
    requires !k.isProtected(Target(k, s))
    requires RedirectionRuns(k, s.item, s.environment + k.overlay, s.cwd, name, clean, more, stored)
    requires s.result == Sanitize(k, stored, name) && Persistable(k, clean)
    requires StatusOf(k, calls, clean.exitCode, clean.failure) && IsOutputOf(k, last, clean.stdout)
    ensures StoresOutput(k, s, calls)
    ensures s.result.failure == clean.failure || s.result.failure == Some(RedirectionFailure)
  {
    hide ExpandableUnit, StatusOf, IsOutputOf, Encode, DestinationOf, AllAnswered;
    assert more != [] ==> s.events[|calls|] == more[0];
    assert stored.cwd == clean.cwd || stored.cwd == None;
    assert Persistable(k, stored);
    assert IsOutputOf(k, last, clean.stdout);
  }

  /** The events of an admitted unit begin with the calls of its stages. */
  lemma AdmittedStages(k: Setting, s: Step) returns (n: nat, stage: CommandResult)
    requires StepRuns(k, s) && UnitAdmissible(k, s.item, s.environment + k.overlay, s.cwd)
    ensures 0 < n <= |s.events| && n <= |s.item.stages| && RedirectionAdmitted(k, s.item, s.environment + k.overlay, s.cwd)
    ensures StepEnds(k, s, s.environment + k.overlay, Sanitize(k, stage, COMMAND), s.events[n..])
    ensures CallsStages(k, s.item, s.environment + k.overlay, s.cwd, s.events[..n]) && AllAnswered(s.events[..n])
    ensures ComesTo(k, s.item, s.events[..n], Sanitize(k, stage, COMMAND)) && Persistable(k, Sanitize(k, stage, COMMAND))
  {
    hide UnitRuns, UnitAdmissible, RedirectionRuns, Sanitize, ExpandableUnit, StatusOf, IsOutputOf, CallsStages, ComesTo,
      RedirectionAdmitted, StepEnds;
    var view := s.environment + k.overlay;
    n, stage :|
      n <= |s.events| && UnitRuns(k, s.item, view, s.cwd, s.events[..n], stage)
      && StepEnds(k, s, view, Sanitize(k, stage, COMMAND), s.events[n..]);
    AdmissionIsExact(k, s.item, view, s.cwd);
    AdmittedRuns(k, s.item, view, s.cwd, s.events[..n], stage);
    StagesComeTo(k, s.item, view, s.cwd, s.events[..n], stage);
    CallsAnswered(k, s.item, view, s.cwd, s.events[..n]);
    SanitizedPersists(k, stage, COMMAND);
  }

  /** What an admitted unit comes to, from what its stages answered: `calls` are its first
      events.  Its output is printed, or stored where it sends it. */
  lemma AdmittedUnitComesTo(k: Setting, s: Step) returns (calls: seq<Event>)
    requires StepRuns(k, s) && UnitAdmissible(k, s.item, s.environment + k.overlay, s.cwd)
    ensures calls != [] && calls <= s.events && CallsStages(k, s.item, s.environment + k.overlay, s.cwd, calls)
    ensures s.printed ==> s.events == calls && ComesTo(k, s.item, calls, s.result)
    ensures !s.printed ==> s.item.redirection.Some? && |calls| == |s.item.stages| && StoresOutput(k, s, calls)
    ensures s.printed <==>
      s.item.redirection == None || |calls| < |s.item.stages|
      || s.result.failure == Some(PipelineLimitExceeded)
  {
    hide UnitRuns, UnitAdmissible, RedirectionRuns, Sanitize, ExpandableUnit, StatusOf, IsOutputOf, CallsStages, StoresOutput, ComesTo,
      RedirectionAdmitted;
    var view := s.environment + k.overlay;
    var n, stage := AdmittedStages(k, s);
    calls := s.events[..n];
    var clean := Sanitize(k, stage, COMMAND);
    ComesToParts(k, s.item, calls, clean);
    if Redirects(k, s.item, view, s.cwd, clean) {
      var name := LastCommand(k, s.item, view, s.cwd);
      var stored :| RedirectionRuns(k, s.item, view, s.cwd, name, clean, s.events[n..], stored) && s.result == Sanitize(k, stored, name);
      AdmittedPath(k, s.item, view, s.cwd);
      StoredComesTo(k, s, calls, s.events[n..], calls[n - 1].answer.value, clean, name, stored);
    } else {
      assert s.events == calls + s.events[n..];
    }
  }

  lemma AdmittedRuns(k: Setting, u: PlanUnit, view: Environment, cwd: Chars, events: seq<Event>, stage: CommandResult)
    requires ExpandableUnit(u, k.alpha) && UnitRuns(k, u, view, cwd, events, stage) && UnitFailure(k, u, view, cwd) == None
    ensures StagesRun(k, u, view, cwd, events, stage)
  {
    hide StagesRun, UnitFailure, ExpandableUnit;
  }

  lemma AdmittedPath(k: Setting, u: PlanUnit, view: Environment, cwd: Chars)
    requires ExpandableUnit(u, k.alpha) && UnitAdmissible(k, u, view, cwd) && u.redirection.Some?
    ensures DestinationOf(k, u, view, cwd).Some? && !k.isProtected(DestinationOf(k, u, view, cwd).value)
  {
    hide ExpandableUnit, StageAdmissible, Argv, Expanded;
  }

  lemma ComesToParts(k: Setting, u: PlanUnit, calls: seq<Event>, r: CommandResult)
    requires 0 < |calls| <= |u.stages| && AllAnswered(calls) && ComesTo(k, u, calls, r)
    ensures |calls| < |u.stages| ==> r.failure == Some(PipelineLimitExceeded)
    ensures |calls| == |u.stages| ==> StatusOf(k, calls, r.exitCode, r.failure) && IsOutputOf(k, calls[|calls| - 1].answer.value, r.stdout)
  {
    hide StatusOf, IsOutputOf;
  }

  // ---------------------------------------------------------------- what a refused unit comes to

  /** Nothing is wrong with stage `i`, or with the destination when it is the last. */
  ghost predicate StageFits(k: Setting, u: PlanUnit, i: nat, view: Environment, cwd: Chars)
    requires ExpandableUnit(u, k.alpha) && i < |u.stages|
  {
    && StageAdmissible(k, u, i, view, cwd)
    && (i == |u.stages| - 1 && DestinationOf(k, u, view, cwd).Some? ==> !Oversized(k, DestinationOf(k, u, view, cwd).value))
  }

  /** The first stage that does not fit. */
  ghost predicate FirstMisfit(k: Setting, u: PlanUnit, i: nat, view: Environment, cwd: Chars)
    requires ExpandableUnit(u, k.alpha)
  {
    i < |u.stages| && !StageFits(k, u, i, view, cwd) && forall j :: 0 <= j < i ==> StageFits(k, u, j, view, cwd)
  }

  lemma {:induction false} FailureOfMisfit(k: Setting, u: PlanUnit, from: nat, i: nat, view: Environment, cwd: Chars)
    requires ExpandableUnit(u, k.alpha) && FirstMisfit(k, u, i, view, cwd) && from <= i
    ensures FailureFrom(k, u, from, view, cwd) == StageFailure(k, u, i, view, cwd)
    decreases i - from
  {
    hide StageFailure, StageAdmissible, Oversized, ExpandableUnit, Argv, DestinationOf;
    StageFailureMeans(k, u, from, view, cwd);
    assert StageFits(k, u, from, view, cwd) <==> StageFailure(k, u, from, view, cwd) == None;
    if from < i {
      FailureOfMisfit(k, u, from + 1, i, view, cwd);
    }
  }

  /** The complaint about the first stage that does not fit: secrets come before all else, and
      a command is only said to be unknown when nothing is wrong with its words. */
  lemma MisfitCode(k: Setting, u: PlanUnit, i: nat, view: Environment, cwd: Chars)
    requires ExpandableUnit(u, k.alpha) && FirstMisfit(k, u, i, view, cwd)
    requires !DestinationProtected(k, u, view, cwd) && !RedirectionForbidden(k, u, view, cwd)
    ensures UnitFailure(k, u, view, cwd).Some?
    ensures var r, argv := UnitFailure(k, u, view, cwd).value, Argv(k, u, i, view, cwd);
      && (r.exitCode == 1 && r.failure == Some(ProtectedValueRejected) <==> exists j :: 0 <= j < |argv| && k.isProtected(argv[j]))
      && (r.exitCode == 127 && r.failure == Some(CommandNotFound) <==>
            && argv[0] !in k.registry
            && (forall j :: 0 <= j < |argv| ==> !k.isProtected(argv[j]) && !Oversized(k, argv[j]))
            && (i == |u.stages| - 1 && DestinationOf(k, u, view, cwd).Some? ==> !Oversized(k, DestinationOf(k, u, view, cwd).value)))
      && (r.exitCode in {1, 127} || (r.exitCode == 2 && r.failure == Some(InvalidArgument)))
      && r.stdout == [] && !ChangesState(r)
  {
    hide Oversized, ExpandableUnit, Argv, DestinationOf, StageAdmissible, DestinationProtected, RedirectionForbidden, FailureFrom;
    FailureOfMisfit(k, u, 0, i, view, cwd);
    StageFailureMeans(k, u, i, view, cwd);
    MeasuredParts(k, u, i, view, cwd);
  }

  lemma MeasuredParts(k: Setting, u: PlanUnit, i: nat, view: Environment, cwd: Chars)
    requires ExpandableUnit(u, k.alpha) && i < |u.stages|
    ensures var argv, d := Argv(k, u, i, view, cwd), DestinationOf(k, u, view, cwd);
      AnyOversized(k, Measured(k, u, i, view, cwd)) <==>
        (exists j :: 0 <= j < |argv| && Oversized(k, argv[j])) || (i == |u.stages| - 1 && d.Some? && Oversized(k, d.value))
  {
    hide Oversized, ExpandableUnit, Argv, DestinationOf;
    var argv, all, d := Argv(k, u, i, view, cwd), Measured(k, u, i, view, cwd), DestinationOf(k, u, view, cwd);
    assert forall j :: 0 <= j < |argv| ==> all[j] == argv[j];
    if i == |u.stages| - 1 && d.Some? {
      assert all[|argv|] == d.value;
    }
  }

  /** A secret in the destination refuses the unit before anything else, and a command that
      does not let its output be redirected refuses it unless a secret did. */
  lemma DestinationCode(k: Setting, u: PlanUnit, view: Environment, cwd: Chars)
    requires ExpandableUnit(u, k.alpha)
    ensures DestinationProtected(k, u, view, cwd) ==>
      UnitFailure(k, u, view, cwd).Some? && UnitFailure(k, u, view, cwd).value.failure == Some(ProtectedValueRejected)
    ensures RedirectionForbidden(k, u, view, cwd) ==>
      && UnitFailure(k, u, view, cwd).Some?
      && UnitFailure(k, u, view, cwd).value.failure in {Some(ProtectedValueRejected), Some(InvalidArgument)}
  {
    hide ExpandableUnit, FailureFrom, DestinationProtected, RedirectionForbidden, Argv;
  }

  /** A refused unit dispatches nothing and shows nothing; what it stores, if it still has a
      destination, is empty output. */
  lemma RefusedUnitComesTo(k: Setting, s: Step)
    requires StepRuns(k, s) && !UnitAdmissible(k, s.item, s.environment + k.overlay, s.cwd)
    ensures |s.events| <= 1 && s.result.exitCode > 0 && s.result.stdout == k.redact([])
    ensures s.events != [] ==> s.events[0].Stored? && s.events[0].content == Encode(k.redact([]))
    ensures s.printed ==> s.events == []
  {
    hide ExpandableUnit, Argv, FailureFrom, RedirectionAdmitted, UnitAdmissible, Encode, DestinationOf;
    var view := s.environment + k.overlay;
    AdmissionIsExact(k, s.item, view, s.cwd);
    var n: nat, stage: CommandResult :|
      n <= |s.events| && UnitRuns(k, s.item, view, s.cwd, s.events[..n], stage)
      && StepEnds(k, s, view, Sanitize(k, stage, COMMAND), s.events[n..]);
    FailureFrom0(k, s.item, view, s.cwd);
    assert s.events == s.events[..n] + s.events[n..];
  }

  lemma {:induction false} FailureFromShape(k: Setting, u: PlanUnit, i: nat, view: Environment, cwd: Chars)
    requires ExpandableUnit(u, k.alpha) && i <= |u.stages|
    ensures var r := FailureFrom(k, u, i, view, cwd); r.Some? ==> r.value.exitCode > 0 && r.value.stdout == [] && !ChangesState(r.value)
    decreases |u.stages| - i
  {
    hide ExpandableUnit, Argv, AnyProtected, AnyOversized, Measured;
    if i < |u.stages| {
      FailureFromShape(k, u, i + 1, view, cwd);
    }
  }

  lemma FailureFrom0(k: Setting, u: PlanUnit, view: Environment, cwd: Chars)
    requires ExpandableUnit(u, k.alpha)
    ensures var r := UnitFailure(k, u, view, cwd); r.Some? ==> r.value.exitCode > 0 && r.value.stdout == [] && !ChangesState(r.value)
  {
    FailureFromShape(k, u, 0, view, cwd);
    hide ExpandableUnit, Argv, FailureFrom, DestinationProtected, RedirectionForbidden;
  }

  // ---------------------------------------------------------------- which units run, and where

  /** Unit `i` comes after the unit of step `j` and before that of the next step. */
  predicate PassedOver(at: seq<nat>, n: nat, i: nat, j: nat) {
    j < |at| && at[j] < i < n && (j + 1 < |at| ==> i < at[j + 1])
  }

  /** `at` tells for each step which unit it ran.  The first unit runs; a unit is passed over
      only when it waits for success and the step before it failed. */
  ghost predicate Schedule(units: seq<PlanUnit>, steps: seq<Step>, at: seq<nat>) {
    && |at| == |steps| && (units != [] ==> at != [] && at[0] == 0)
    && (forall j :: 0 <= j < |at| ==> at[j] < |units| && steps[j].item == units[at[j]])
    && (forall i, j :: 0 <= i < j < |at| ==> at[i] < at[j])
    && (forall j :: 0 < j < |at| ==> units[at[j]].connector == Always || steps[j - 1].result.exitCode == 0)
    && (forall i: nat, j: nat :: PassedOver(at, |units|, i, j) ==>
          j < |steps| && units[i].connector == OnSuccess && steps[j].result.exitCode != 0)
  }

  lemma {:induction false} SkippedWait(units: seq<PlanUnit>)
    ensures forall i :: 0 <= i < Skipped(units) ==> units[i].connector == OnSuccess
    ensures Skipped(units) < |units| ==> units[Skipped(units)].connector == Always
  {
    if units != [] && units[0].connector != Always {
      SkippedWait(units[1..]);
      assert forall i :: 0 < i < |units| ==> units[i] == units[1..][i - 1];
    }
  }

  /** The run of what is left after the first step. */
  lemma BigStepGoesOn(k: Setting, units: seq<PlanUnit>, s: State, steps: seq<Step>, t: State) returns (skip: nat)
    requires BigStep(k, units, s, steps, t) && units != []
    ensures steps != [] && skip < |units| && steps[0].item == units[0]
    ensures steps[0].environment == s.environment && steps[0].cwd == s.cwd
    ensures BigStep(k, units[1 + skip..], Commit(s, steps[0]), steps[1..], t)
    ensures skip > 0 ==> steps[0].result.exitCode != 0
    ensures forall i :: 1 <= i < 1 + skip ==> units[i].connector == OnSuccess
    ensures 1 + skip < |units| ==> units[1 + skip].connector == Always || steps[0].result.exitCode == 0
  {
    hide StepRuns;
    var rest := units[1..];
    skip := if steps[0].result.exitCode == 0 then 0 else Skipped(rest);
    SkippedWait(rest);
    assert rest[skip..] == units[1 + skip..] && rest[0..] == rest;
    assert forall i :: 1 <= i < |units| ==> units[i] == rest[i - 1];
  }

  lemma NothingRuns(k: Setting, s: State, steps: seq<Step>, t: State)
    requires BigStep(k, [], s, steps, t)
    ensures steps == [] && t == s && Schedule([], steps, [])
  {
  }

  lemma ShiftedBy(later: seq<nat>, skip: nat) returns (at: seq<nat>)
    ensures Shifted(at, later, skip)
  {
    at := [0] + seq(|later|, j requires 0 <= j < |later| => later[j] + 1 + skip);
  }

  /** The units that run are the ones that `;` and `&&` ask for. */
  lemma {:induction false} RunsAsScheduled(k: Setting, units: seq<PlanUnit>, s: State, steps: seq<Step>, t: State) returns (at: seq<nat>)
    requires BigStep(k, units, s, steps, t)
    ensures Schedule(units, steps, at)
    decreases |units|
  {
    hide BigStep, Schedule, Commit, Shifted;
    if units == [] {
      NothingRuns(k, s, steps, t);
      at := [];
    } else {
      var skip := BigStepGoesOn(k, units, s, steps, t);
      var later := RunsAsScheduled(k, units[1 + skip..], Commit(s, steps[0]), steps[1..], t);
      at := ShiftedBy(later, skip);
      ScheduleGrows(units, steps, later, skip, at);
    }
  }

  /** `at` is `later` with the first unit put before it. */
  ghost predicate Shifted(at: seq<nat>, later: seq<nat>, skip: nat) {
    |at| == |later| + 1 && at[0] == 0 && forall j :: 0 < j < |at| ==> at[j] == later[j - 1] + 1 + skip
  }

  lemma PassedGrows(units: seq<PlanUnit>, steps: seq<Step>, later: seq<nat>, skip: nat, at: seq<nat>, i: nat, j: nat)
    requires steps != [] && skip < |units| && Shifted(at, later, skip) && Schedule(units[1 + skip..], steps[1..], later)
    requires forall i :: 1 <= i < 1 + skip ==> units[i].connector == OnSuccess
    requires skip > 0 ==> steps[0].result.exitCode != 0
    requires PassedOver(at, |units|, i, j)
    ensures j < |steps| && units[i].connector == OnSuccess && steps[j].result.exitCode != 0
  {
    var next := units[1 + skip..];
    if j == 0 {
      assert next != [] ==> later[0] == 0;
      assert 1 <= i < 1 + skip;
    } else {
      assert PassedOver(later, |next|, i - 1 - skip, j - 1);
      assert next[i - 1 - skip] == units[i] && steps[1..][j - 1] == steps[j];
    }
  }

  lemma ScheduleGrows(units: seq<PlanUnit>, steps: seq<Step>, later: seq<nat>, skip: nat, at: seq<nat>)
    requires steps != [] && skip < |units| && steps[0].item == units[0]
    requires Shifted(at, later, skip) && Schedule(units[1 + skip..], steps[1..], later)
    requires forall i :: 1 <= i < 1 + skip ==> units[i].connector == OnSuccess
    requires skip > 0 ==> steps[0].result.exitCode != 0
    requires 1 + skip < |units| ==> units[1 + skip].connector == Always || steps[0].result.exitCode == 0
    ensures Schedule(units, steps, at)
  {
    var next := units[1 + skip..];
    forall i: nat, j: nat | PassedOver(at, |units|, i, j)
      ensures j < |steps| && units[i].connector == OnSuccess && steps[j].result.exitCode != 0
    {
      PassedGrows(units, steps, later, skip, at, i, j);
    }
    hide PassedOver;
    forall j | 0 <= j < |at|
      ensures at[j] < |units| && steps[j].item == units[at[j]]
      ensures j > 0 ==> units[at[j]].connector == Always || steps[j - 1].result.exitCode == 0
    {
      if j > 0 {
        assert next[later[j - 1]] == units[at[j]] && steps[1..][j - 1] == steps[j];
        assert j > 1 ==> steps[1..][j - 2] == steps[j - 1];
      }
    }
  }

  /** What the steps printed, in order. */
  function Printed(steps: seq<Step>): Text {
    if steps == [] then [] else (if steps[0].printed then steps[0].result.stdout else []) + Printed(steps[1..])
  }

  function Complained(steps: seq<Step>): Text {
    if steps == [] then [] else steps[0].result.stderr + Complained(steps[1..])
  }

  /** The changes of the steps that succeeded, in order. */
  function Accepted(steps: seq<Step>): seq<Change> {
    if steps == [] then [] else (if steps[0].result.exitCode == 0 then steps[0].result.changes else []) + Accepted(steps[1..])
  }

  /** `after` is where the last successful change of directory led. */
  ghost predicate LeadsTo(before: Chars, steps: seq<Step>, after: Chars) {
    && ((forall j :: 0 <= j < |steps| ==> !MovesTo(steps[j])) ==> after == before)
    && (forall j :: 0 <= j < |steps| && MovesTo(steps[j]) && (forall i :: j < i < |steps| ==> !MovesTo(steps[i])) ==>
          after == steps[j].result.cwd.value)
  }

  predicate MovesTo(step: Step) {
    step.result.exitCode == 0 && step.result.cwd.Some?
  }

  lemma CommitOutput(s: State, step: Step)
    ensures var c, r := Commit(s, step), step.result;
      && c.stdout == s.stdout + (if step.printed then r.stdout else []) && c.stderr == s.stderr + r.stderr
      && c.changes == s.changes + (if r.exitCode == 0 then r.changes else [])
  {
    hide ApplyChanges;
    assert s.stdout + [] == s.stdout && s.changes + [] == s.changes;
  }

  lemma NoOutput(s: State)
    ensures s.stdout + Printed([]) == s.stdout && s.stderr + Complained([]) == s.stderr && s.changes + Accepted([]) == s.changes
  {
  }

  lemma OutputUnfolds(steps: seq<Step>)
    requires steps != []
    ensures Printed(steps) == (if steps[0].printed then steps[0].result.stdout else []) + Printed(steps[1..])
    ensures Complained(steps) == steps[0].result.stderr + Complained(steps[1..])
    ensures Accepted(steps) == (if steps[0].result.exitCode == 0 then steps[0].result.changes else []) + Accepted(steps[1..])
  {
  }

  /** All output, all complaints and all accepted changes, in the order of the steps. */
  lemma {:induction false} OutputInOrder(k: Setting, units: seq<PlanUnit>, s: State, steps: seq<Step>, t: State)
    requires BigStep(k, units, s, steps, t)
    ensures t.stdout == s.stdout + Printed(steps) && t.stderr == s.stderr + Complained(steps)
    ensures t.changes == s.changes + Accepted(steps)
    decreases |units|
  {
    hide *;
    if units == [] {
      NothingRuns(k, s, steps, t);
      NoOutput(s);
    } else {
      var skip := BigStepGoesOn(k, units, s, steps, t);
      var r := steps[0].result;
      OutputInOrder(k, units[1 + skip..], Commit(s, steps[0]), steps[1..], t);
      CommitOutput(s, steps[0]);
      OutputUnfolds(steps);
      Associative(s.stdout, if steps[0].printed then r.stdout else [], Printed(steps[1..]));
      Associative(s.stderr, r.stderr, Complained(steps[1..]));
      Associative(s.changes, if r.exitCode == 0 then r.changes else [], Accepted(steps[1..]));
    }
  }

  /** Each step runs where the successful steps before it led. */
  lemma {:induction false} DirectoryIsLast(k: Setting, units: seq<PlanUnit>, s: State, steps: seq<Step>, t: State, n: nat)
    requires BigStep(k, units, s, steps, t) && n <= |steps|
    ensures LeadsTo(s.cwd, steps[..n], if n < |steps| then steps[n].cwd else t.cwd)
    decreases |units|
  {
    hide *;
    if units == [] {
      NothingRuns(k, s, steps, t);
      LeadsNowhere(s.cwd, steps[..0]);
    } else {
      var skip := BigStepGoesOn(k, units, s, steps, t);
      if n == 0 {
        LeadsNowhere(s.cwd, steps[..0]);
      } else {
        var s1 := Commit(s, steps[0]);
        DirectoryIsLast(k, units[1 + skip..], s1, steps[1..], t, n - 1);
        FirstOf(steps, n);
        CommitMoves(s, steps[0]);
        LeadsOn(s.cwd, steps[0], s1.cwd, steps[1..][..n - 1], if n < |steps| then steps[n].cwd else t.cwd);
      }
    }
  }

  lemma FirstOf(steps: seq<Step>, n: nat)
    requires 0 < n <= |steps|
    ensures steps[..n] == [steps[0]] + steps[1..][..n - 1] && (n < |steps| ==> steps[n] == steps[1..][n - 1])
  {
  }

  lemma CommitMoves(s: State, step: Step)
    ensures Commit(s, step).cwd == if MovesTo(step) then step.result.cwd.value else s.cwd
    ensures Commit(s, step).environment == ApplyChanges(s.environment, if step.result.exitCode == 0 then step.result.changes else [])
  {
  }

  lemma LeadsNowhere(before: Chars, steps: seq<Step>)
    requires steps == []
    ensures LeadsTo(before, steps, before)
  {
  }

  lemma LeadsOn(before: Chars, step: Step, next: Chars, steps: seq<Step>, after: Chars)
    requires next == (if MovesTo(step) then step.result.cwd.value else before) && LeadsTo(next, steps, after)
    ensures LeadsTo(before, [step] + steps, after)
  {
    var all := [step] + steps;
    assert all[0] == step && forall j :: 0 <= j < |steps| ==> all[j + 1] == steps[j];
    if forall j :: 0 <= j < |all| ==> !MovesTo(all[j]) {
      assert !MovesTo(all[0]);
      forall j | 0 <= j < |steps| ensures !MovesTo(steps[j]) {
        assert all[j + 1] == steps[j];
      }
    }
    forall j | 0 <= j < |all| && MovesTo(all[j]) && (forall i :: j < i < |all| ==> !MovesTo(all[i]))
      ensures after == all[j].result.cwd.value
    {
      forall i | 0 <= i < |steps| && j < i + 1 ensures !MovesTo(steps[i]) {
        assert all[i + 1] == steps[i];
      }
      if j > 0 {
        assert all[j] == steps[j - 1];
      }
    }
  }

  /** Each step sees the changes of the successful steps before it. */
  lemma {:induction false} EnvironmentInOrder(k: Setting, units: seq<PlanUnit>, s: State, steps: seq<Step>, t: State, n: nat)
    requires BigStep(k, units, s, steps, t) && n <= |steps|
    ensures (if n < |steps| then steps[n].environment else t.environment) == ApplyChanges(s.environment, Accepted(steps[..n]))
    decreases |units|
  {
    hide *;
    NoChange(s.environment);
    if units == [] {
      NothingRuns(k, s, steps, t);
      assert steps[..n] == [];
    } else {
      var skip := BigStepGoesOn(k, units, s, steps, t);
      if n == 0 {
        assert steps[..n] == [];
      } else {
        EnvironmentInOrder(k, units[1 + skip..], Commit(s, steps[0]), steps[1..], t, n - 1);
        FirstOf(steps, n);
        CommitMoves(s, steps[0]);
        var first := if steps[0].result.exitCode == 0 then steps[0].result.changes else [];
        AcceptedFirst(steps[0], steps[1..][..n - 1]);
        ApplyAppend(s.environment, first, Accepted(steps[1..][..n - 1]));
      }
    }
  }

  lemma NoChange(environment: Environment)
    ensures ApplyChanges(environment, Accepted([])) == environment
  {
  }

  lemma AcceptedFirst(step: Step, steps: seq<Step>)
    ensures Accepted([step] + steps) == (if step.result.exitCode == 0 then step.result.changes else []) + Accepted(steps)
  {
    assert ([step] + steps)[1..] == steps;
  }

  /** Of the changes to one name the last decides. */
  lemma {:induction false} LastChangeDecides(environment: Environment, changes: seq<Change>, j: nat)
    requires j < |changes| && forall i :: j < i < |changes| ==> changes[i].name != changes[j].name
    ensures var after, name := ApplyChanges(environment, changes), changes[j].name;
      && (changes[j].value.None? ==> name !in after)
      && (changes[j].value.Some? ==> name in after && after[name] == changes[j].value.value)
    decreases |changes|
  {
    var last := |changes| - 1;
    if j < last {
      LastChangeDecides(environment, changes[..last], j);
    }
  }

  lemma {:induction false} OthersKeep(environment: Environment, changes: seq<Change>, name: Chars)
    requires forall i :: 0 <= i < |changes| ==> changes[i].name != name
    ensures name in ApplyChanges(environment, changes) <==> name in environment
    ensures name in environment ==> ApplyChanges(environment, changes)[name] == environment[name]
  {
    if changes != [] {
      OthersKeep(environment, changes[..|changes| - 1], name);
    }
  }
}
