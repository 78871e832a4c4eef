/** Printing and parsing: the parser is a bijection between well-formed plans and the token
    lists it accepts, and printed text parses back to the plan it was printed from. */
module CommandRoundTrip {
  import opened Basics
  import opened Utf8
  import opened CommandSyntax

  // ---------------------------------------------------------------- plans as token lists

  function WordTokens<W>(ws: seq<W>): (ts: seq<TokenOf<W>>)
    ensures |ts| == |ws| && forall i :: 0 <= i < |ws| ==> ts[i] == WordToken(ws[i])
  {
    seq(|ws|, i requires 0 <= i < |ws| => WordToken(ws[i]))
  }

  function FlattenStages<W>(stages: seq<StageOf<W>>): seq<TokenOf<W>> {
    if stages == [] then []
    else WordTokens(stages[0].words) + if |stages| == 1 then [] else [OperatorToken(Pipe)] + FlattenStages(stages[1..])
  }

  function FlattenRedirection<W>(r: Option<RedirectionOf<W>>): seq<TokenOf<W>> {
    if r.None? then []
    else [OperatorToken(if r.value.mode == ReplaceFile then Redirect else Append), WordToken(r.value.destination)]
  }

  function Separator(c: Connector): Operator {
    if c == Always then Sequence else And
  }

  function Flatten<W>(units: seq<UnitOf<W>>): seq<TokenOf<W>> {
    if units == [] then []
    else
      FlattenStages(units[0].stages) + FlattenRedirection(units[0].redirection)
      + if |units| == 1 then [] else [OperatorToken(Separator(units[1].connector))] + Flatten(units[1..])
  }

  /** Every stage has a word and every word passes `ok`. */
  predicate GoodStages<W>(stages: seq<StageOf<W>>, ok: W -> bool) {
    && stages != []
    && forall i :: 0 <= i < |stages| ==> stages[i].words != [] && forall j :: 0 <= j < |stages[i].words| ==> ok(stages[i].words[j])
  }

  predicate GoodUnit<W>(u: UnitOf<W>, ok: W -> bool) {
    GoodStages(u.stages, ok) && (u.redirection.Some? ==> ok(u.redirection.value.destination))
  }

  predicate GoodPlan<W>(units: seq<UnitOf<W>>, ok: W -> bool) {
    units != [] && forall i :: 0 <= i < |units| ==> GoodUnit(units[i], ok)
  }

  // ---------------------------------------------------------------- parsing a flattened plan

  lemma {:induction false} CountWords(ws: seq<Word>, rest: seq<Token>)
    requires rest == [] || rest[0].OperatorToken?
    ensures WordCount(WordTokens(ws) + rest) == |ws|
  {
    var ts := WordTokens(ws) + rest;
    if ws == [] {
      assert ts == rest;
    } else {
      CountWords(ws[1..], rest);
      assert ts[1..] == WordTokens(ws[1..]) + rest;
    }
  }

  lemma StageAhead(ws: seq<Word>, rest: seq<Token>, alpha: CodePoint -> bool)
    requires ws != [] && AllExpandable(ws, alpha) && (rest == [] || rest[0].OperatorToken?)
    ensures FirstStage(WordTokens(ws) + rest, alpha) == Ok(Stage(ws)) && AfterStage(WordTokens(ws) + rest) == rest
  {
    hide AllExpandable, FirstWords;
    CountWords(ws, rest);
    var ts := WordTokens(ws) + rest;
    assert FirstWords(ts) == ws;
    assert ts[|ws|..] == rest;
  }

  lemma FlattenUnfolds(stages: seq<Stage>)
    requires stages != []
    ensures FlattenStages(stages) == WordTokens(stages[0].words) + FlattenMore(stages)
  {
  }

  /** The later stages, with the pipe before them. */
  function FlattenMore(stages: seq<Stage>): seq<Token>
    requires stages != []
  {
    if |stages| == 1 then [] else [OperatorToken(Pipe)] + FlattenStages(stages[1..])
  }

  lemma {:induction false} StagesParse(stages: seq<Stage>, rest: seq<Token>, alpha: CodePoint -> bool)
    requires GoodStages(stages, w => Expandable(w, alpha)) && EndsPipeline(rest)
    ensures ParseStages(FlattenStages(stages) + rest, alpha) == Ok(Pipeline(stages, rest))
    decreases |stages|
  {
    hide FirstStage, AfterStage, WordTokens, AllExpandable, FlattenStages, FlattenMore, GoodStages, ParseStages, EndsPipeline, Expandable;
    FirstIsExpandable(stages, alpha);
    var ws, tail := stages[0].words, FlattenMore(stages) + rest;
    FlattenUnfolds(stages);
    Associative(WordTokens(ws), FlattenMore(stages), rest);
    FlattenMoreEnds(stages, rest);
    StageAhead(ws, tail, alpha);
    StagesStep(WordTokens(ws) + tail, alpha);
    OneStage(stages);
    if |stages| > 1 {
      StagesParse(stages[1..], rest, alpha);
      FlattenedNotEmpty(stages[1..], alpha);
    }
  }

  /** What comes after the first stage is a pipe with the others, or what follows them. */
  lemma FlattenMoreEnds(stages: seq<Stage>, rest: seq<Token>)
    requires stages != [] && EndsPipeline(rest)
    ensures var tail := FlattenMore(stages) + rest;
      && (tail == [] || tail[0].OperatorToken?)
      && (|stages| == 1 ==> tail == rest && EndsPipeline(tail))
      && (|stages| > 1 ==> tail != [] && !EndsPipeline(tail) && tail[1..] == FlattenStages(stages[1..]) + rest)
      && (|stages| > 1 && FlattenStages(stages[1..]) != [] ==> |tail| > 1)
  {
    hide FlattenStages;
  }

  lemma OneStage(stages: seq<Stage>)
    requires stages != []
    ensures stages == [Stage(stages[0].words)] + stages[1..]
    ensures |stages| == 1 ==> stages == [Stage(stages[0].words)]
  {
    assert stages[0] == Stage(stages[0].words);
  }

  lemma FirstIsExpandable(stages: seq<Stage>, alpha: CodePoint -> bool)
    requires GoodStages(stages, w => Expandable(w, alpha))
    ensures stages != [] && stages[0].words != [] && AllExpandable(stages[0].words, alpha)
    ensures |stages| > 1 ==> GoodStages(stages[1..], w => Expandable(w, alpha))
  {
    hide Expandable;
  }

  lemma FlattenedNotEmpty(stages: seq<Stage>, alpha: CodePoint -> bool)
    requires GoodStages(stages, w => Expandable(w, alpha))
    ensures FlattenStages(stages) != []
  {
  }

  lemma DestinationParses(r: Option<Redirection>, rest: seq<Token>, alpha: CodePoint -> bool)
    requires r.Some? ==> Expandable(r.value.destination, alpha)
    requires rest == [] || rest[0] == OperatorToken(Sequence) || rest[0] == OperatorToken(And)
    ensures EndsPipeline(FlattenRedirection(r) + rest)
    ensures ParseDestination(FlattenRedirection(r) + rest, alpha) == Ok(Destination(r, rest))
  {
    var ts := FlattenRedirection(r) + rest;
    if r.Some? {
      assert ts[2..] == rest;
    } else {
      assert ts == rest;
    }
  }

  lemma UnitAhead(u: PlanUnit, rest: seq<Token>, alpha: CodePoint -> bool)
    requires GoodUnit(u, w => Expandable(w, alpha))
    requires rest == [] || rest[0] == OperatorToken(Sequence) || rest[0] == OperatorToken(And)
    ensures ParseUnits(FlattenStages(u.stages) + (FlattenRedirection(u.redirection) + rest), u.connector, alpha) ==
      if rest == [] then Ok([u])
      else if |rest| == 1 then Err(Invalid)
      else
        match ParseUnits(rest[1..], if rest[0].operator == Sequence then Always else OnSuccess, alpha)
        case Err(e) => Err(e)
        case Ok(more) => Ok([u] + more)
  {
    hide Expandable, FlattenStages, FlattenRedirection, ParseStages, ParseDestination;
    DestinationParses(u.redirection, rest, alpha);
    StagesParse(u.stages, FlattenRedirection(u.redirection) + rest, alpha);
  }

  /** Flattening then parsing gives the plan back. */
  lemma {:induction false} FlattenThenParse(units: seq<PlanUnit>, alpha: CodePoint -> bool)
    requires GoodPlan(units, w => Expandable(w, alpha))
    ensures ParseUnits(Flatten(units), units[0].connector, alpha) == Ok(units)
    decreases |units|
  {
    hide ParseUnits, Expandable, FlattenStages, FlattenRedirection;
    var u := units[0];
    var front := FlattenStages(u.stages) + FlattenRedirection(u.redirection);
    var rest := if |units| == 1 then [] else [OperatorToken(Separator(units[1].connector))] + Flatten(units[1..]);
    assert GoodUnit(u, w => Expandable(w, alpha));
    UnitAhead(u, rest, alpha);
    assert FlattenStages(u.stages) + (FlattenRedirection(u.redirection) + rest) == front + rest;
    if |units| > 1 {
      FlattenThenParse(units[1..], alpha);
      assert rest[1..] == Flatten(units[1..]);
      PlanNotEmpty(units[1..], alpha);
      assert [u] + units[1..] == units;
    } else {
      assert units == [u];
    }
  }

  lemma PlanNotEmpty(units: seq<PlanUnit>, alpha: CodePoint -> bool)
    requires GoodPlan(units, w => Expandable(w, alpha))
    ensures Flatten(units) != []
  {
    assert GoodUnit(units[0], w => Expandable(w, alpha));
    FlattenedNotEmpty(units[0].stages, alpha);
  }

  // ---------------------------------------------------------------- flattening what was parsed

  lemma StageBehind(ts: seq<Token>, alpha: CodePoint -> bool)
    requires FirstStage(ts, alpha).Ok?
    ensures var ws := FirstStage(ts, alpha).value.words;
      ws != [] && AllExpandable(ws, alpha) && ts == WordTokens(ws) + AfterStage(ts)
  {
    hide WordCount, FirstWords, AllExpandable, WordTokens;
  }

  lemma {:induction false} StagesFlatten(ts: seq<Token>, alpha: CodePoint -> bool)
    requires ParseStages(ts, alpha).Ok?
    ensures var p := ParseStages(ts, alpha).value;
      GoodStages(p.stages, w => Expandable(w, alpha)) && FlattenStages(p.stages) + p.rest == ts
    decreases |ts|
  {
    hide FirstStage, AfterStage, WordTokens, FlattenStages, GoodStages, AllExpandable, ParseStages;
    StagesStep(ts, alpha);
    var stage, rest := FirstStage(ts, alpha).value, AfterStage(ts);
    StageBehind(ts, alpha);
    if EndsPipeline(rest) {
      LastStage(stage.words, alpha);
    } else {
      StagesFlatten(rest[1..], alpha);
      var more := ParseStages(rest[1..], alpha).value;
      StageBefore(stage.words, more.stages, alpha);
      assert rest == [OperatorToken(Pipe)] + rest[1..];
      assert WordTokens(stage.words) + ([OperatorToken(Pipe)] + FlattenStages(more.stages)) + more.rest
          == WordTokens(stage.words) + ([OperatorToken(Pipe)] + (FlattenStages(more.stages) + more.rest));
    }
  }

  lemma LastStage(words: seq<Word>, alpha: CodePoint -> bool)
    requires words != [] && AllExpandable(words, alpha)
    ensures FlattenStages([Stage(words)]) == WordTokens(words)
    ensures GoodStages([Stage(words)], w => Expandable(w, alpha))
  {
    hide Expandable;
    assert WordTokens(words) + [] == WordTokens(words);
  }

  lemma StageBefore(words: seq<Word>, more: seq<Stage>, alpha: CodePoint -> bool)
    requires words != [] && AllExpandable(words, alpha) && GoodStages(more, w => Expandable(w, alpha))
    ensures FlattenStages([Stage(words)] + more) == WordTokens(words) + ([OperatorToken(Pipe)] + FlattenStages(more))
    ensures GoodStages([Stage(words)] + more, w => Expandable(w, alpha))
  {
    hide Expandable;
    assert ([Stage(words)] + more)[1..] == more;
  }

  lemma DestinationFlattens(ts: seq<Token>, alpha: CodePoint -> bool)
    requires ts == [] || ts[0].OperatorToken?
    requires ParseDestination(ts, alpha).Ok?
    ensures var d := ParseDestination(ts, alpha).value;
      && FlattenRedirection(d.redirection) + d.rest == ts
      && (d.redirection.Some? ==> Expandable(d.redirection.value.destination, alpha))
  {
    hide Expandable;
    var d := ParseDestination(ts, alpha).value;
    if d.redirection.Some? {
      assert ts == [ts[0], ts[1]] + ts[2..];
    } else {
      assert [] + ts == ts;
    }
  }

  /** Parsing then flattening gives the tokens back: nothing is dropped, merged or reordered. */
  lemma {:induction false} ParseThenFlatten(ts: seq<Token>, connector: Connector, alpha: CodePoint -> bool)
    requires ParseUnits(ts, connector, alpha).Ok?
    ensures var units := ParseUnits(ts, connector, alpha).value;
      GoodPlan(units, w => Expandable(w, alpha)) && units[0].connector == connector && Flatten(units) == ts
    decreases |ts|
  {
    hide ParseStages, ParseDestination, Expandable, GoodStages, FlattenStages, FlattenRedirection;
    var units := ParseUnits(ts, connector, alpha).value;
    var p := ParseStages(ts, alpha).value;
    var d := ParseDestination(p.rest, alpha).value;
    StagesFlatten(ts, alpha);
    DestinationFlattens(p.rest, alpha);
    assert GoodUnit(units[0], w => Expandable(w, alpha));
    var flat := FlattenStages(p.stages) + FlattenRedirection(d.redirection);
    assert ts == flat + d.rest;
    if d.rest == [] {
      assert units == [units[0]];
      assert flat + [] == flat;
    } else {
      var next := if d.rest[0].operator == Sequence then Always else OnSuccess;
      ParseThenFlatten(d.rest[1..], next, alpha);
      assert units[1..] == ParseUnits(d.rest[1..], next, alpha).value;
      assert d.rest == [OperatorToken(Separator(next))] + d.rest[1..];
      GoodPlanGrows(units, alpha);
    }
  }

  lemma GoodPlanGrows(units: seq<PlanUnit>, alpha: CodePoint -> bool)
    requires |units| > 1 && GoodUnit(units[0], w => Expandable(w, alpha)) && GoodPlan(units[1..], w => Expandable(w, alpha))
    ensures GoodPlan(units, w => Expandable(w, alpha))
  {
    hide GoodUnit;
    forall i | 0 <= i < |units| ensures GoodUnit(units[i], w => Expandable(w, alpha)) {
      assert i == 0 || units[i] == units[1..][i - 1];
    }
  }
}
