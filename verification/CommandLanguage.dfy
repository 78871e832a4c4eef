/** The command language as a whole: the texts that have a plan, the plan they have, and the error
    of every other text. */
module CommandLanguage {
  import opened Basics
  import opened Utf8
  import opened CommandSyntax
  import opened CommandRoundTrip
  import CommandExpansion
  import CommandSpelling

  // ---------------------------------------------------------------- words

  ghost predicate HasParts(s: Chars, alpha: CodePoint -> bool) {
    exists parts :: CommandExpansion.IsMadeOf(parts, s, alpha)
  }

  /** A word is expandable when every text in it that expands is made of plain characters and
      variables. */
  lemma ExpandableExactly(w: Word, alpha: CodePoint -> bool)
    ensures Expandable(w, alpha) <==> forall i :: 0 <= i < |w.fragments| && w.fragments[i].expands ==> HasParts(w.fragments[i].text, alpha)
  {
    forall f: Fragment ensures Template(f.text, alpha).Some? <==> HasParts(f.text, alpha) {
      var r := Expand(f.text, map[], [], alpha);
      ExpansionFillsTemplate(f.text, map[], [], alpha);
      CommandExpansion.ExpandsExactly(f.text, map[], [], alpha, r);
    }
  }

  // ---------------------------------------------------------------- errors

  lemma {:induction false} StagesFailInvalid(ts: seq<Token>, alpha: CodePoint -> bool)
    ensures ParseStages(ts, alpha).Err? ==> ParseStages(ts, alpha) == Err(Invalid)
    decreases |ts|
  {
    hide AllExpandable, FirstWords;
    var rest := AfterStage(ts);
    if FirstStage(ts, alpha).Ok? && |rest| > 1 {
      StagesFailInvalid(rest[1..], alpha);
    }
  }

  lemma DestinationFailsInvalid(ts: seq<Token>, alpha: CodePoint -> bool)
    requires ts != [] ==> ts[0].OperatorToken?
    ensures ParseDestination(ts, alpha).Err? ==> ParseDestination(ts, alpha) == Err(Invalid)
  {
    hide Expandable;
  }

  lemma {:induction false} UnitsFailInvalid(ts: seq<Token>, connector: Connector, alpha: CodePoint -> bool)
    ensures ParseUnits(ts, connector, alpha).Err? ==> ParseUnits(ts, connector, alpha) == Err(Invalid)
    decreases |ts|
  {
    hide ParseStages, ParseDestination;
    StagesFailInvalid(ts, alpha);
    var p := ParseStages(ts, alpha);
    if p.Ok? {
      DestinationFailsInvalid(p.value.rest, alpha);
      var d := ParseDestination(p.value.rest, alpha);
      if d.Ok? && |d.value.rest| > 1 {
        UnitsFailInvalid(d.value.rest[1..], if d.value.rest[0].operator == Sequence then Always else OnSuccess, alpha);
      }
    }
  }

  // ---------------------------------------------------------------- the laws

  ghost predicate IsPlan(units: seq<PlanUnit>, alpha: CodePoint -> bool) {
    GoodPlan(units, w => Expandable(w, alpha)) && units[0].connector == Always
  }

  ghost predicate Plans(units: seq<PlanUnit>, tokens: seq<Token>, alpha: CodePoint -> bool) {
    IsPlan(units, alpha) && Flatten(units) == tokens
  }

  lemma UnitsExactly(tokens: seq<Token>, units: seq<PlanUnit>, alpha: CodePoint -> bool)
    requires tokens != []
    ensures ParseUnits(tokens, Always, alpha) == Ok(units) <==> Plans(units, tokens, alpha)
  {
    hide ParseUnits, Flatten, GoodPlan;
    if Plans(units, tokens, alpha) {
      FlattenThenParse(units, alpha);
    }
    if ParseUnits(tokens, Always, alpha) == Ok(units) {
      ParseThenFlatten(tokens, Always, alpha);
    }
  }

  /** A text has a plan exactly when it spells the tokens of that plan; whichever way the text is
      taken for a spelling, the plan is the same. */
  lemma ParsesExactly(command: Chars, units: seq<PlanUnit>, alpha: CodePoint -> bool)
    ensures Parse(command, alpha) == Ok(units) <==>
      && LF !in command && CR !in command && IsPlan(units, alpha)
      && exists pieces :: CommandSpelling.IsSpelling(pieces, command) && CommandSpelling.TokensOf(pieces) == Flatten(units)
  {
    hide ParseUnits, Flatten, GoodPlan, Tokenize, IsPlan, CommandSpelling.IsSpelling, CommandSpelling.TokensOf;
    var tokens := Tokenize(command);
    if tokens.Ok? {
      CommandSpelling.ReadExactly(command, tokens.value);
      if tokens.value != [] {
        UnitsExactly(tokens.value, units, alpha);
      }
    }
    CommandSpelling.ReadExactly(command, Flatten(units));
    if IsPlan(units, alpha) {
      PlanHasTokens(units, alpha);
    }
  }

  lemma PlanHasTokens(units: seq<PlanUnit>, alpha: CodePoint -> bool)
    requires IsPlan(units, alpha)
    ensures Flatten(units) != []
  {
    PlanNotEmpty(units, alpha);
  }

  /** Every other text fails: with the tokenizer's error, as empty when it holds no token, and as
      invalid when no plan has its tokens. */
  lemma FailsExactly(command: Chars, e: Error, alpha: CodePoint -> bool)
    ensures Parse(command, alpha) == Err(e) <==>
      match Tokenize(command)
      case Err(f) => e == f
      case Ok(tokens) => if tokens == [] then e == Empty else e == Invalid && !exists units :: Plans(units, tokens, alpha)
  {
    hide ParseUnits, Tokenize, Plans;
    var r := Tokenize(command);
    if r.Ok? && r.value != [] {
      UnitsFailInvalid(r.value, Always, alpha);
      forall units ensures ParseUnits(r.value, Always, alpha) == Ok(units) <==> Plans(units, r.value, alpha) {
        UnitsExactly(r.value, units, alpha);
      }
    }
  }
}
