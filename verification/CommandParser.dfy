/** The index-driven loops of the tokenizer, the parser and the expansion, each proved to
    compute the function of `CommandSyntax` that says what it means. */
module CommandParser {
  import opened Basics
  import opened Utf8
  import opened CommandSyntax

  // ---------------------------------------------------------------- quoted words

  lemma TailOfTail<T>(s: seq<T>, index: nat, n: nat)
    requires index + n <= |s|
    ensures s[index..][n..] == s[index + n..]
  {
  }

  lemma ThenNothing(r: Result<Quoted>)
    ensures Then([], 0, r) == r
  {
    if r.Ok? {
      assert [] + r.value.fragments == r.value.fragments;
    }
  }

  lemma ThenThen(a: seq<Fragment>, m: nat, b: seq<Fragment>, n: nat, r: Result<Quoted>)
    ensures Then(a, m, Then(b, n, r)) == Then(a + b, m + n, r)
  {
    if r.Ok? {
      Associative(a, b, r.value.fragments);
    }
  }

  lemma DoubleStep(s: Chars, segment: Chars)
    requires s != [] && s[0] != DOUBLE && (s[0] == BACKSLASH ==> |s| > 1 && !Escapable(s[1]))
    ensures DoubleQuoted(s, segment) == Then([], 1, DoubleQuoted(s[1..], segment + [s[0]]))
  {
    hide Escapable, Then;
  }

  lemma DoublePlain(s: Chars, segment: Chars, fragments: seq<Fragment>, length: nat)
    requires s != [] && s[0] != DOUBLE && (s[0] == BACKSLASH ==> |s| > 1 && !Escapable(s[1]))
    ensures Then(fragments, length, DoubleQuoted(s, segment)) == Then(fragments, length + 1, DoubleQuoted(s[1..], segment + [s[0]]))
  {
    hide DoubleQuoted, Escapable, Then;
    DoubleStep(s, segment);
    ThenThen(fragments, length, [], 1, DoubleQuoted(s[1..], segment + [s[0]]));
    assert fragments + [] == fragments;
  }

  lemma DoubleEscaped(s: Chars, segment: Chars)
    requires |s| > 1 && s[0] == BACKSLASH && Escapable(s[1])
    ensures DoubleQuoted(s, segment) == Then([Fragment(segment, true), Fragment([s[1]], false)], 2, DoubleQuoted(s[2..], []))
  {
    hide Escapable, Then;
  }

  lemma DoubleEscape(s: Chars, segment: Chars, fragments: seq<Fragment>, length: nat)
    requires |s| > 1 && s[0] == BACKSLASH && Escapable(s[1])
    ensures Then(fragments, length, DoubleQuoted(s, segment))
         == Then(fragments + [Fragment(segment, true)] + [Fragment([s[1]], false)], length + 2, DoubleQuoted(s[2..], []))
  {
    hide DoubleQuoted, Escapable, Then;
    var two := [Fragment(segment, true), Fragment([s[1]], false)];
    DoubleEscaped(s, segment);
    ThenThen(fragments, length, two, 2, DoubleQuoted(s[2..], []));
    assert fragments + two == fragments + [two[0]] + [two[1]];
  }

  lemma {:induction false} NoPosition(s: Chars, c: CodePoint)
    requires c !in s
    ensures Position(s, c) == |s|
  {
    if s != [] {
      NoPosition(s[1..], c);
    }
  }

  lemma {:induction false} FirstPosition(s: Chars, c: CodePoint, i: nat)
    requires i < |s| && s[i] == c && c !in s[..i]
    ensures Position(s, c) == i
    decreases i
  {
    if i > 0 {
      assert s[0] == s[..i][0];
      assert s[1..][..i - 1] == s[..i][1..];
      FirstPosition(s[1..], c, i - 1);
    }
  }

  /** The body of a quoted run that begins at `begin`, up to and with its closing quote. */
  method ReadQuoted(command: Chars, begin: nat, quote: CodePoint) returns (r: Result<Quoted>)
    requires begin <= |command| && IsQuote(quote)
    ensures r == QuotedBy(quote, command[begin..])
  {
    hide DoubleQuoted;
    ghost var all := command[begin..];
    var index, start: nat := begin, begin;
    var segment: Chars, fragments: seq<Fragment> := [], [];
    ThenNothing(DoubleQuoted(all, []));
    while index < |command| && command[index] != quote
      invariant begin <= start <= index <= |command|
      invariant segment == [] <==> index == start
      invariant quote == SINGLE ==> fragments == [] && segment == all[..index - begin] && SINGLE !in segment
      invariant quote == DOUBLE ==>
                  DoubleQuoted(all, []) == Then(fragments, index - begin, DoubleQuoted(command[index..], segment))
      decreases |command| - index
    {
      var current := command[index];
      ghost var s := command[index..];
      if quote == DOUBLE && current == BACKSLASH {
        if index + 1 >= |command| {
          assert |s| == 1;
          DoubleEnds(s, segment);
          return Err(Invalid);
        }
        var escaped := command[index + 1];
        if !Escapable(escaped) {
          DoublePlain(s, segment, fragments, index - begin);
          TailOfTail(command, index, 1);
          segment := segment + [BACKSLASH];
          index := index + 1;
          continue;
        }
        DoubleEscape(s, segment, fragments, index - begin);
        TailOfTail(command, index, 2);
        if segment != [] || index == start {
          fragments := fragments + [Fragment(segment, true)];
        }
        segment := [];
        fragments := fragments + [Fragment([escaped], false)];
        index := index + 2;
        start := index;
        continue;
      }
      if quote == DOUBLE {
        DoublePlain(s, segment, fragments, index - begin);
        TailOfTail(command, index, 1);
      } else {
        assert all[..index + 1 - begin] == all[..index - begin] + [current];
      }
      segment := segment + [current];
      index := index + 1;
    }
    if index >= |command| {
      if quote == SINGLE {
        assert all[..index - begin] == all;
        NoPosition(all, SINGLE);
      } else {
        DoubleEnds(command[index..], segment);
      }
      return Err(Invalid);
    }
    if quote == SINGLE {
      FirstPosition(all, SINGLE, index - begin);
      assert fragments + [Fragment(segment, false)] == [Fragment(segment, false)];
    } else {
      DoubleCloses(command[index..], segment);
    }
    return Ok(Quoted(fragments + [Fragment(segment, quote == DOUBLE)], index + 1 - begin));
  }

  lemma DoubleEnds(s: Chars, segment: Chars)
    requires s == [] || s == [BACKSLASH]
    ensures DoubleQuoted(s, segment) == Err(Invalid)
  {
  }

  lemma DoubleCloses(s: Chars, segment: Chars)
    requires s != [] && s[0] == DOUBLE
    ensures DoubleQuoted(s, segment) == Ok(Quoted([Fragment(segment, true)], 1))
  {
  }

  // ---------------------------------------------------------------- the tokenizer

  /** The steps of the lexer, one lemma for each kind of character. */
  lemma LexSpace(s: Chars, fragments: seq<Fragment>, started: bool)
    requires s != [] && IsSpace(s[0])
    ensures Lex(s, fragments, started) == Prepend(Flush(fragments, started), Lex(s[1..], [], false))
  {
    hide IsSpace, Prepend, Flush;
  }

  lemma LexQuoted(s: Chars, fragments: seq<Fragment>, started: bool)
    requires s != [] && !IsSpace(s[0]) && IsQuote(s[0])
    ensures var q := QuotedBy(s[0], s[1..]);
      Lex(s, fragments, started) == if q.Err? then Err(q.error) else Lex(s[1 + q.value.length..], fragments + q.value.fragments, true)
  {
    hide IsSpace, IsQuote, QuotedBy, Prepend, Flush;
  }

  lemma LexEscape(s: Chars, fragments: seq<Fragment>, started: bool)
    requires s != [] && s[0] == BACKSLASH
    ensures Lex(s, fragments, started)
         == if |s| == 1 then Err(Invalid) else Lex(s[2..], fragments + [Fragment([s[1]], false)], true)
  {
    assert !IsSpace(s[0]) && !IsQuote(s[0]);
    hide IsSpace, IsQuote, QuotedBy, Excluded, OperatorAt, Prepend, Flush;
  }

  /** Past spaces, quotes and escapes. */
  predicate Bare(s: Chars) {
    s != [] && !IsSpace(s[0]) && !IsQuote(s[0]) && s[0] != BACKSLASH
  }

  lemma LexExcluded(s: Chars, fragments: seq<Fragment>, started: bool)
    requires Bare(s) && Excluded(s)
    ensures Lex(s, fragments, started) == Err(Unsupported)
  {
    hide IsSpace, IsQuote, QuotedBy, Excluded, OperatorAt, Prepend, Flush;
  }

  lemma LexOperator(s: Chars, fragments: seq<Fragment>, started: bool)
    requires Bare(s) && !Excluded(s) && OperatorAt(s).Some?
    ensures var o := OperatorAt(s).value;
      && 1 <= o.1 <= |s|
      && Lex(s, fragments, started) == Prepend(Flush(fragments, started) + [OperatorToken(o.0)], Lex(s[o.1..], [], false))
  {
    OperatorFits(s);
    hide IsSpace, IsQuote, QuotedBy, Excluded, OperatorAt, Prepend, Flush;
  }

  lemma LexRun(s: Chars, fragments: seq<Fragment>, started: bool)
    requires Bare(s) && !Excluded(s) && OperatorAt(s).None?
    ensures var n := RunLength(s);
      && n > 0
      && Lex(s, fragments, started) ==
         if !started && AllDigits(s[..n]) && n < |s| && s[n] == GREATER then Err(Unsupported)
         else Lex(s[n..], fragments + [Fragment(s[..n], true)], true)
  {
    RunMoves(s);
    hide IsSpace, IsQuote, QuotedBy, Excluded, OperatorAt, Prepend, Flush, RunLength, AllDigits;
  }

  lemma PrependTwice(a: seq<Token>, b: seq<Token>, r: Result<seq<Token>>)
    ensures Prepend(a, Prepend(b, r)) == Prepend(a + b, r)
  {
    if r.Ok? {
      assert a + (b + r.value) == a + b + r.value;
    }
  }

  method ReadRun(command: Chars, start: nat) returns (index: nat)
    requires start <= |command|
    ensures start <= index <= |command| && index - start == RunLength(command[start..])
  {
    index := start;
    while index < |command| && !BreaksRun(command[index])
      invariant start <= index <= |command|
      invariant RunLength(command[start..]) == index - start + RunLength(command[index..])
    {
      assert command[index..][1..] == command[index + 1..];
      index := index + 1;
    }
  }

  lemma RunMoves(s: Chars)
    requires s != [] && !IsSpace(s[0]) && !IsQuote(s[0]) && s[0] != BACKSLASH && !Excluded(s) && OperatorAt(s) == None
    ensures RunLength(s) > 0
  {
  }

  lemma OperatorFits(s: Chars)
    requires s != [] && OperatorAt(s).Some?
    ensures 1 <= OperatorAt(s).value.1 <= |s|
  {
  }

  method TokenizeCommand(command: Chars) returns (r: Result<seq<Token>>)
    ensures r == Tokenize(command)
  {
    hide Lex, QuotedBy, Excluded, OperatorAt, RunLength, IsSpace;
    if LF in command || CR in command {
      return Err(Unsupported);
    }
    var tokens: seq<Token>, fragments: seq<Fragment>, started, index: nat := [], [], false, 0;
    assert command[0..] == command;
    PrependNothing(Lex(command, [], false));
    while index < |command|
      invariant index <= |command|
      invariant Lex(command, [], false) == Prepend(tokens, Lex(command[index..], fragments, started))
      decreases |command| - index
    {
      var character := command[index];
      ghost var s := command[index..];
      if IsSpace(character) {
        LexSpace(s, fragments, started);
        PrependTwice(tokens, Flush(fragments, started), Lex(s[1..], [], false));
        tokens, fragments, started := tokens + Flush(fragments, started), [], false;
        TailOfTail(command, index, 1);
        index := index + 1;
        continue;
      }
      if IsQuote(character) {
        LexQuoted(s, fragments, started);
        TailOfTail(command, index, 1);
        var q := ReadQuoted(command, index + 1, character);
        if q.Err? {
          return Err(q.error);
        }
        TailOfTail(command, index, 1 + q.value.length);
        fragments, started := fragments + q.value.fragments, true;
        index := index + 1 + q.value.length;
        continue;
      }
      if character == BACKSLASH {
        LexEscape(s, fragments, started);
        if index + 1 >= |command| {
          return Err(Invalid);
        }
        assert s[1] == command[index + 1];
        TailOfTail(command, index, 2);
        fragments, started := fragments + [Fragment([command[index + 1]], false)], true;
        index := index + 2;
        continue;
      }
      if Excluded(command[index..]) {
        LexExcluded(s, fragments, started);
        return Err(Unsupported);
      }
      var operator := OperatorAt(command[index..]);
      if operator.Some? {
        LexOperator(s, fragments, started);
        var consumed := operator.value.1;
        PrependTwice(tokens, Flush(fragments, started) + [OperatorToken(operator.value.0)], Lex(s[consumed..], [], false));
        assert tokens + (Flush(fragments, started) + [OperatorToken(operator.value.0)])
            == tokens + Flush(fragments, started) + [OperatorToken(operator.value.0)];
        TailOfTail(command, index, consumed);
        tokens := tokens + Flush(fragments, started) + [OperatorToken(operator.value.0)];
        fragments, started := [], false;
        index := index + consumed;
        continue;
      }
      var start := index;
      var startsWord := !started;
      LexRun(s, fragments, started);
      index := ReadRun(command, start);
      var text := command[start..index];
      assert text == s[..index - start] && command[index..] == s[index - start..];
      if startsWord && AllDigits(text) && index < |command| && command[index] == GREATER {
        return Err(Unsupported);
      }
      fragments, started := fragments + [Fragment(text, true)], true;
    }
    assert command[index..] == [];
    LexDone(fragments, started);
    return Ok(tokens + Flush(fragments, started));
  }

  lemma LexDone(fragments: seq<Fragment>, started: bool)
    ensures Lex([], fragments, started) == Ok(Flush(fragments, started))
  {
  }

  // ---------------------------------------------------------------- expansion

  lemma SliceOfTail(s: Chars, index: nat, a: nat, b: nat)
    requires index <= |s| && a <= b <= |s| - index
    ensures s[index..][a..b] == s[index + a..index + b]
  {
  }

  method ExpandText(text: Chars, environment: Environment, cwd: Chars, alpha: CodePoint -> bool) returns (r: Result<Chars>)
    ensures r == Expand(text, environment, cwd, alpha)
  {
    hide Expand, Lookup, IsName, NameLength, Position, IsNameStart;
    var output: Chars, index: nat := [], 0;
    assert text[0..] == text;
    AfterNothing(Expand(text, environment, cwd, alpha));
    while index < |text|
      invariant index <= |text|
      invariant Expand(text, environment, cwd, alpha) == After(output, Expand(text[index..], environment, cwd, alpha))
      decreases |text| - index
    {
      ghost var s := text[index..];
      ExpandUnfolds(s, output, environment, cwd, alpha);
      if text[index] != DOLLAR {
        TailOfTail(text, index, 1);
        output := output + [text[index]];
        index := index + 1;
        continue;
      }
      if index + 1 >= |text| {
        TailOfTail(text, index, 1);
        output := output + [DOLLAR];
        index := index + 1;
        continue;
      }
      assert s[1] == text[index + 1];
      TailOfTail(text, index, 2);
      if text[index + 1] == LEFT_BRACE {
        var closing := index + 2 + Position(text[index + 2..], RIGHT_BRACE);
        if closing == |text| {
          return Err(Invalid);
        }
        var name := text[index + 2..closing];
        SliceOfTail(text, index, 2, closing - index);
        if !IsName(name) {
          return Err(Invalid);
        }
        TailOfTail(text, index, closing + 1 - index);
        output := output + Lookup(name, environment, cwd);
        index := closing + 1;
        continue;
      }
      if IsNameStart(text[index + 1]) {
        var end := ReadName(text, index + 2);
        var name := text[index + 1..end];
        SliceOfTail(text, index, 1, end - index);
        TailOfTail(text, index, end - index);
        output := output + Lookup(name, environment, cwd);
        index := end;
        continue;
      }
      if alpha(text[index + 1]) {
        return Err(Invalid);
      }
      TailOfTail(text, index, 1);
      output := output + [DOLLAR];
      index := index + 1;
    }
    assert text[index..] == [];
    ExpandDone(environment, cwd, alpha);
    assert output + [] == output;
    return Ok(output);
  }

  function After(output: Chars, r: Result<Chars>): Result<Chars> {
    match r
    case Err(e) => Err(e)
    case Ok(rest) => Ok(output + rest)
  }

  lemma AfterNothing(r: Result<Chars>)
    ensures After([], r) == r
  {
    if r.Ok? {
      assert [] + r.value == r.value;
    }
  }

  lemma ExpandDone(environment: Environment, cwd: Chars, alpha: CodePoint -> bool)
    ensures Expand([], environment, cwd, alpha) == Ok([])
  {
  }

  lemma AfterTwice(a: Chars, b: Chars, r: Result<Chars>)
    ensures After(a, After(b, r)) == After(a + b, r)
  {
    if r.Ok? {
      assert a + (b + r.value) == a + b + r.value;
    }
  }

  lemma ExpandUnfolds(s: Chars, output: Chars, environment: Environment, cwd: Chars, alpha: CodePoint -> bool)
    requires s != []
    ensures After(output, Expand(s, environment, cwd, alpha)) ==
      if s[0] != DOLLAR then After(output + [s[0]], Expand(s[1..], environment, cwd, alpha))
      else if SiteAt(s, alpha).Bad? then Err(Invalid)
      else if SiteAt(s, alpha).Plain? then After(output + [DOLLAR], Expand(s[1..], environment, cwd, alpha))
      else After(
        output + Lookup(SiteAt(s, alpha).name, environment, cwd), Expand(s[SiteAt(s, alpha).length..], environment, cwd, alpha))
  {
    hide SiteAt, Lookup;
    if s[0] != DOLLAR {
      AfterTwice(output, [s[0]], Expand(s[1..], environment, cwd, alpha));
    } else {
      var site := SiteAt(s, alpha);
      if site.Variable? {
        AfterTwice(output, Lookup(site.name, environment, cwd), Expand(s[site.length..], environment, cwd, alpha));
      } else if site.Plain? {
        AfterTwice(output, [DOLLAR], Expand(s[1..], environment, cwd, alpha));
      }
    }
  }

  method ReadName(text: Chars, start: nat) returns (end: nat)
    requires start <= |text|
    ensures start <= end <= |text| && end - start == NameLength(text[start..])
  {
    end := start;
    while end < |text| && IsNameCharacter(text[end])
      invariant start <= end <= |text|
      invariant NameLength(text[start..]) == end - start + NameLength(text[end..])
    {
      assert text[end..][1..] == text[end + 1..];
      end := end + 1;
    }
  }

  // ---------------------------------------------------------------- the parser

  function WithUnits(units: seq<PlanUnit>, r: Result<seq<PlanUnit>>): Result<seq<PlanUnit>> {
    match r
    case Err(e) => Err(e)
    case Ok(more) => Ok(units + more)
  }

  lemma WithStagesTwice(a: seq<Stage>, b: seq<Stage>, r: Result<Pipeline>)
    ensures WithStages(a, WithStages(b, r)) == WithStages(a + b, r)
  {
    if r.Ok? {
      assert a + (b + r.value.stages) == a + b + r.value.stages;
    }
  }

  lemma StagesUnfold(ts: seq<Token>, stages: seq<Stage>, alpha: CodePoint -> bool)
    ensures var stage, rest := FirstStage(ts, alpha), AfterStage(ts);
      WithStages(stages, ParseStages(ts, alpha)) ==
        if stage.Err? then Err(stage.error)
        else if EndsPipeline(rest) then Ok(Pipeline(stages + [stage.value], rest))
        else if |rest| == 1 then Err(Invalid)
        else WithStages(stages + [stage.value], ParseStages(rest[1..], alpha))
  {
    hide FirstStage, AfterStage, ParseStages;
    StagesStep(ts, alpha);
    var stage, rest := FirstStage(ts, alpha), AfterStage(ts);
    if stage.Ok? && |rest| > 1 {
      WithStagesTwice(stages, [stage.value], ParseStages(rest[1..], alpha));
    }
  }

  /** The words of one stage, each validated as it is taken. */
  method ReadWords(tokens: seq<Token>, start: nat, alpha: CodePoint -> bool) returns (ok: bool, words: seq<Word>, index: nat)
    requires start <= |tokens|
    ensures index <= |tokens|
    ensures ok <==> AllExpandable(FirstWords(tokens[start..]), alpha)
    ensures ok ==> index == start + WordCount(tokens[start..]) && words == FirstWords(tokens[start..])
  {
    hide Expandable, FirstWords;
    ghost var ts := tokens[start..];
    index, words := start, [];
    while index < |tokens| && tokens[index].WordToken?
      invariant start <= index <= |tokens|
      invariant WordCount(ts) == index - start + WordCount(tokens[index..])
      invariant |words| == index - start && forall i :: 0 <= i < |words| ==> WordToken(words[i]) == ts[i]
      invariant AllExpandable(words, alpha)
    {
      assert tokens[index..][1..] == tokens[index + 1..];
      var word := tokens[index].word;
      if !Expandable(word, alpha) {
        assert FirstWords(ts)[index - start] == word;
        return false, words, index;
      }
      words := words + [word];
      index := index + 1;
    }
    assert words == FirstWords(ts);
    ok := true;
  }

  method ReadStages(tokens: seq<Token>, start: nat, alpha: CodePoint -> bool) returns (r: Result<(seq<Stage>, nat)>)
    requires start < |tokens|
    ensures r.Err? ==> ParseStages(tokens[start..], alpha) == Err(r.error)
    ensures r.Ok? ==> r.value.1 <= |tokens| && ParseStages(tokens[start..], alpha) == Ok(Pipeline(r.value.0, tokens[r.value.1..]))
  {
    hide ParseStages, WordCount, FirstWords, AllExpandable;
    var stages: seq<Stage>, index: nat := [], start;
    NoStages(ParseStages(tokens[start..], alpha));
    while true
      invariant start <= index < |tokens|
      invariant ParseStages(tokens[start..], alpha) == WithStages(stages, ParseStages(tokens[index..], alpha))
      decreases |tokens| - index
    {
      ghost var ts := tokens[index..];
      StagesUnfold(ts, stages, alpha);
      WordsAhead(ts);
      if !tokens[index].WordToken? {
        return Err(Invalid);
      }
      var ok, words, next := ReadWords(tokens, index, alpha);
      if !ok {
        return Err(Invalid);
      }
      TailOfTail(tokens, index, next - index);
      ghost var rest := AfterStage(ts);
      assert rest == tokens[next..];
      stages := stages + [Stage(words)];
      if next >= |tokens| {
        return Ok((stages, next));
      }
      assert rest[0] == tokens[next];
      if tokens[next].operator != Pipe {
        return Ok((stages, next));
      }
      TailOfTail(tokens, next, 1);
      index := next + 1;
      if index >= |tokens| {
        return Err(Invalid);
      }
    }
  }

  lemma WordsAhead(ts: seq<Token>)
    requires ts != []
    ensures WordCount(ts) == 0 <==> !ts[0].WordToken?
  {
  }

  lemma NoStages(r: Result<Pipeline>)
    ensures WithStages([], r) == r
  {
    if r.Ok? {
      assert [] + r.value.stages == r.value.stages;
    }
  }

  lemma UnitsUnfold(ts: seq<Token>, connector: Connector, p: Pipeline, units: seq<PlanUnit>, alpha: CodePoint -> bool)
    requires ParseStages(ts, alpha) == Ok(p)
    ensures p.rest == [] || p.rest[0].OperatorToken?
    ensures WithUnits(units, ParseUnits(ts, connector, alpha)) ==
      if ParseDestination(p.rest, alpha).Err? then Err(ParseDestination(p.rest, alpha).error)
      else
        var d := ParseDestination(p.rest, alpha).value;
        var all := units + [PlanUnit(connector, p.stages, d.redirection)];
        if d.rest == [] then Ok(all)
        else if d.rest[0].operator != Sequence && d.rest[0].operator != And then Err(Invalid)
        else if |d.rest| == 1 then Err(Invalid)
        else WithUnits(all, ParseUnits(d.rest[1..], if d.rest[0].operator == Sequence then Always else OnSuccess, alpha))
  {
    hide ParseStages, ParseDestination;
    var d := ParseDestination(p.rest, alpha);
    if d.Ok? && |d.value.rest| > 1 {
      var next := if d.value.rest[0].operator == Sequence then Always else OnSuccess;
      var more := ParseUnits(d.value.rest[1..], next, alpha);
      if more.Ok? {
        var first := [PlanUnit(connector, p.stages, d.value.redirection)];
        assert units + (first + more.value) == units + first + more.value;
      }
    }
  }

  /** An optional redirection, which must be trailing and the only one. */
  method ReadDestination(tokens: seq<Token>, start: nat, alpha: CodePoint -> bool)
    returns (r: Result<(Option<Redirection>, nat)>)
    requires start <= |tokens| && (start < |tokens| ==> tokens[start].OperatorToken?)
    ensures r.Err? ==> ParseDestination(tokens[start..], alpha) == Err(r.error)
    ensures r.Ok? ==>
              r.value.1 <= |tokens| && ParseDestination(tokens[start..], alpha) == Ok(Destination(r.value.0, tokens[r.value.1..]))
  {
    hide Expandable;
    var index := start;
    ghost var ts := tokens[start..];
    if index >= |tokens| || !(tokens[index].operator == Redirect || tokens[index].operator == Append) {
      return Ok((None, index));
    }
    var mode := if tokens[index].operator == Redirect then ReplaceFile else AppendFile;
    index := index + 1;
    if index >= |tokens| || !tokens[index].WordToken? {
      return Err(Invalid);
    }
    var destination := tokens[index].word;
    assert ts[1] == tokens[index] && ts[2..] == tokens[index + 1..];
    if !Expandable(destination, alpha) {
      return Err(Invalid);
    }
    index := index + 1;
    if index < |tokens| {
      assert ts[2] == tokens[index];
      if tokens[index].WordToken? {
        return Err(Invalid);
      }
      if tokens[index].operator == Pipe {
        return Err(Invalid);
      }
      if tokens[index].operator == Redirect || tokens[index].operator == Append {
        return Err(Invalid);
      }
    }
    return Ok((Some(Redirection(mode, destination)), index));
  }

  method ParseExecutionPlan(command: Chars, alpha: CodePoint -> bool) returns (r: Result<seq<PlanUnit>>)
    ensures r == Parse(command, alpha)
  {
    hide Tokenize, ParseUnits, ParseStages, ParseDestination;
    var lexed := TokenizeCommand(command);
    if lexed.Err? {
      return Err(lexed.error);
    }
    var tokens := lexed.value;
    if tokens == [] {
      return Err(Empty);
    }
    var units: seq<PlanUnit>, index: nat, connector := [], 0, Always;
    assert tokens[0..] == tokens;
    NoUnits(ParseUnits(tokens, Always, alpha));
    while index < |tokens|
      invariant index < |tokens|
      invariant ParseUnits(tokens, Always, alpha) == WithUnits(units, ParseUnits(tokens[index..], connector, alpha))
      decreases |tokens| - index
    {
      ghost var ts := tokens[index..];
      var p := ReadStages(tokens, index, alpha);
      if p.Err? {
        UnitsFail(ts, connector, p.error, alpha);
        return Err(p.error);
      }
      var stages, after := p.value.0, p.value.1;
      UnitsUnfold(ts, connector, Pipeline(stages, tokens[after..]), units, alpha);
      assert after < |tokens| ==> tokens[after..][0] == tokens[after];
      var d := ReadDestination(tokens, after, alpha);
      if d.Err? {
        return Err(d.error);
      }
      var redirection, next := d.value.0, d.value.1;
      StagesMove(ts, alpha);
      DestinationMoves(tokens[after..], alpha);
      units := units + [PlanUnit(connector, stages, redirection)];
      if next >= |tokens| {
        return Ok(units);
      }
      assert tokens[next..][0] == tokens[next] && tokens[next..][1..] == tokens[next + 1..];
      if tokens[next].operator != Sequence && tokens[next].operator != And {
        return Err(Invalid);
      }
      connector := if tokens[next].operator == Sequence then Always else OnSuccess;
      index := next + 1;
      if index >= |tokens| {
        return Err(Invalid);
      }
    }
  }

  lemma StagesMove(ts: seq<Token>, alpha: CodePoint -> bool)
    ensures ParseStages(ts, alpha).Ok? ==> |ParseStages(ts, alpha).value.rest| < |ts|
  {
  }

  lemma DestinationMoves(ts: seq<Token>, alpha: CodePoint -> bool)
    requires ts != [] ==> ts[0].OperatorToken?
    ensures ParseDestination(ts, alpha).Ok? ==> |ParseDestination(ts, alpha).value.rest| <= |ts|
    ensures ParseDestination(ts, alpha).Ok? && ParseDestination(ts, alpha).value.rest != [] ==>
              ParseDestination(ts, alpha).value.rest[0].OperatorToken?
  {
  }

  lemma UnitsFail(ts: seq<Token>, connector: Connector, e: Error, alpha: CodePoint -> bool)
    requires ParseStages(ts, alpha) == Err(e)
    ensures ParseUnits(ts, connector, alpha) == Err(e)
  {
    hide ParseStages;
  }

  lemma NoUnits(r: Result<seq<PlanUnit>>)
    ensures WithUnits([], r) == r
  {
    if r.Ok? {
      assert [] + r.value == r.value;
    }
  }
}
