/** Rendering plans as text: literal text in single quotes, variables as "${NAME}".  The text
    parses back to the same plan, whose words expand to the same text in every environment. */
module CommandPrinter {
  import opened Basics
  import opened Utf8
  import opened CommandSyntax
  import opened CommandRoundTrip

  /** A word to be printed: literal text and variables, side by side. */
  datatype Part = Quote(text: Chars) | Use(name: Chars)
  type Spelling = seq<Part>

  /** Any text on one line and any variable, at least one part to a word. */
  predicate Printable(w: Spelling) {
    w != [] && forall i :: 0 <= i < |w| ==>
                      match w[i]
                      case Quote(t) => OneLine(t)
                      case Use(name) => IsName(name)
  }

  /** A quote cannot stand inside single quotes: it closes them, is escaped, and reopens them. */
  function Escape(t: Chars): Chars {
    if t == [] then []
    else (if t[0] == SINGLE then [SINGLE, BACKSLASH, SINGLE, SINGLE] else [t[0]]) + Escape(t[1..])
  }

  function PrintPart(p: Part): Chars {
    match p
    case Quote(t) => [SINGLE] + Escape(t) + [SINGLE]
    case Use(name) => [DOUBLE] + ([DOLLAR, LEFT_BRACE] + name + [RIGHT_BRACE]) + [DOUBLE]
  }

  function PrintWord(w: Spelling): Chars {
    if w == [] then [] else PrintPart(w[0]) + PrintWord(w[1..])
  }

  function OperatorText(o: Operator): Chars {
    match o
    case Sequence => [SEMICOLON]
    case And => [AMPERSAND, AMPERSAND]
    case Pipe => [BAR]
    case Redirect => [GREATER]
    case Append => [GREATER, GREATER]
  }

  function PrintTokens(ts: seq<TokenOf<Spelling>>): Chars {
    if ts == [] then []
    else (match ts[0]
          case WordToken(w) => PrintWord(w)
          case OperatorToken(o) => OperatorText(o)) + [SPACE] + PrintTokens(ts[1..])
  }

  function Print(units: seq<UnitOf<Spelling>>): Chars {
    PrintTokens(Flatten(units))
  }

  /** What a word must expand to. */
  function Meaning(w: Spelling, environment: Environment, cwd: Chars): Chars {
    if w == [] then []
    else (match w[0]
          case Quote(t) => t
          case Use(name) => Lookup(name, environment, cwd)) + Meaning(w[1..], environment, cwd)
  }

  // ---------------------------------------------------------------- the word a spelling reads as

  /** The fragments that quoted text is read as, `segment` being open. */
  function QuoteFragments(segment: Chars, t: Chars): seq<Fragment>
    decreases |t|
  {
    if t == [] then [Fragment(segment, false)]
    else if t[0] == SINGLE then [Fragment(segment, false), Fragment([SINGLE], false)] + QuoteFragments([], t[1..])
    else QuoteFragments(segment + [t[0]], t[1..])
  }

  function PartFragments(p: Part): seq<Fragment> {
    match p
    case Quote(t) => QuoteFragments([], t)
    case Use(name) => [Fragment([DOLLAR, LEFT_BRACE] + name + [RIGHT_BRACE], true)]
  }

  function WordFragments(w: Spelling): seq<Fragment> {
    if w == [] then [] else PartFragments(w[0]) + WordFragments(w[1..])
  }

  function ReadAs(w: Spelling): Word {
    Word(WordFragments(w))
  }

  // ---------------------------------------------------------------- reading one part

  lemma {:induction false} PositionOf(s: Chars, c: CodePoint, rest: Chars)
    requires c !in s
    ensures Position(s + [c] + rest, c) == |s|
  {
    var all := s + [c] + rest;
    if s != [] {
      PositionOf(s[1..], c, rest);
      assert all[1..] == s[1..] + [c] + rest;
    }
  }

  lemma LexSingle(segment: Chars, rest: Chars, fragments: seq<Fragment>, started: bool)
    requires SINGLE !in segment
    ensures Lex([SINGLE] + segment + [SINGLE] + rest, fragments, started) == Lex(rest, fragments + [Fragment(segment, false)], true)
  {
    var s := [SINGLE] + segment + [SINGLE] + rest;
    var inner := segment + [SINGLE] + rest;
    assert s[1..] == inner;
    PositionOf(segment, SINGLE, rest);
    hide Position;
    assert inner[..|segment|] == segment;
    assert SingleQuoted(inner) == Ok(Quoted([Fragment(segment, false)], |segment| + 1));
    assert s[1 + (|segment| + 1)..] == rest;
  }

  lemma LexEscaped(c: CodePoint, rest: Chars, fragments: seq<Fragment>, started: bool)
    ensures Lex([BACKSLASH, c] + rest, fragments, started) == Lex(rest, fragments + [Fragment([c], false)], true)
  {
    var s := [BACKSLASH, c] + rest;
    assert s[2..] == rest;
  }

  lemma {:induction false} LexQuote(segment: Chars, t: Chars, rest: Chars, fragments: seq<Fragment>, started: bool)
    requires SINGLE !in segment
    ensures Lex([SINGLE] + segment + Escape(t) + [SINGLE] + rest, fragments, started)
         == Lex(rest, fragments + QuoteFragments(segment, t), true)
    decreases |t|
  {
    hide Lex;
    var s := [SINGLE] + segment + Escape(t) + [SINGLE] + rest;
    if t == [] {
      LexSingle(segment, rest, fragments, started);
      assert s == [SINGLE] + segment + [SINGLE] + rest;
    } else if t[0] == SINGLE {
      var last := [SINGLE] + [] + Escape(t[1..]) + [SINGLE] + rest;
      var middle := [BACKSLASH, SINGLE] + last;
      var first, second := Fragment(segment, false), Fragment([SINGLE], false);
      assert s == [SINGLE] + segment + [SINGLE] + middle;
      LexSingle(segment, middle, fragments, started);
      LexEscaped(SINGLE, last, fragments + [first], true);
      LexQuote([], t[1..], rest, fragments + [first] + [second], true);
      assert fragments + [first] + [second] + QuoteFragments([], t[1..]) == fragments + QuoteFragments(segment, t);
    } else {
      LexQuote(segment + [t[0]], t[1..], rest, fragments, started);
      assert s == [SINGLE] + (segment + [t[0]]) + Escape(t[1..]) + [SINGLE] + rest;
    }
  }

  lemma {:induction false} DoubleRun(content: Chars, segment: Chars, rest: Chars)
    requires DOUBLE !in content && BACKSLASH !in content
    ensures DoubleQuoted(content + [DOUBLE] + rest, segment) == Ok(Quoted([Fragment(segment + content, true)], |content| + 1))
    decreases |content|
  {
    var s := content + [DOUBLE] + rest;
    if content == [] {
      assert segment + content == segment;
    } else {
      assert content[0] in content;
      DoubleRun(content[1..], segment + [content[0]], rest);
      assert s[1..] == content[1..] + [DOUBLE] + rest;
      assert segment + [content[0]] + content[1..] == segment + content;
      assert [] + [Fragment(segment + content, true)] == [Fragment(segment + content, true)];
    }
  }

  lemma LexDouble(content: Chars, rest: Chars, fragments: seq<Fragment>, started: bool)
    requires DOUBLE !in content && BACKSLASH !in content
    ensures Lex([DOUBLE] + content + [DOUBLE] + rest, fragments, started) == Lex(rest, fragments + [Fragment(content, true)], true)
  {
    var s := [DOUBLE] + content + [DOUBLE] + rest;
    assert s[1..] == content + [DOUBLE] + rest;
    DoubleRun(content, [], rest);
    assert [] + content == content;
    hide DoubleQuoted;
    assert s[1 + (|content| + 1)..] == rest;
  }

  lemma LexPart(p: Part, rest: Chars, fragments: seq<Fragment>, started: bool)
    requires p.Use? ==> IsName(p.name)
    ensures Lex(PrintPart(p) + rest, fragments, started) == Lex(rest, fragments + PartFragments(p), true)
  {
    hide Lex;
    if p.Quote? {
      LexQuote([], p.text, rest, fragments, started);
      assert PrintPart(p) + rest == [SINGLE] + [] + Escape(p.text) + [SINGLE] + rest;
    } else {
      var content := [DOLLAR, LEFT_BRACE] + p.name + [RIGHT_BRACE];
      forall c | c in content ensures c != DOUBLE && c != BACKSLASH {
        NameHas(p.name, c);
      }
      LexDouble(content, rest, fragments, started);
      assert PrintPart(p) + rest == [DOUBLE] + content + [DOUBLE] + rest;
    }
  }

  lemma NameHas(name: Chars, c: CodePoint)
    requires IsName(name)
    ensures c in name ==> IsNameCharacter(c)
  {
    if c in name {
      var i :| 0 <= i < |name| && name[i] == c;
    }
  }

  lemma {:induction false} LexWord(w: Spelling, rest: Chars, fragments: seq<Fragment>, started: bool)
    requires forall i :: 0 <= i < |w| && w[i].Use? ==> IsName(w[i].name)
    ensures Lex(PrintWord(w) + rest, fragments, started)
         == Lex(rest, fragments + WordFragments(w), started || w != [])
    decreases |w|
  {
    hide Lex, PrintPart, PartFragments;
    if w == [] {
      assert PrintWord(w) + rest == rest && fragments + WordFragments(w) == fragments;
    } else {
      LexPart(w[0], PrintWord(w[1..]) + rest, fragments, started);
      LexWord(w[1..], rest, fragments + PartFragments(w[0]), true);
      assert PrintWord(w) + rest == PrintPart(w[0]) + (PrintWord(w[1..]) + rest);
      assert fragments + WordFragments(w) == fragments + PartFragments(w[0]) + WordFragments(w[1..]);
    }
  }

  // ---------------------------------------------------------------- reading token lists

  function ReadTokens(ts: seq<TokenOf<Spelling>>): (r: seq<Token>)
    ensures |r| == |ts|
    ensures forall i :: 0 <= i < |ts| ==> r[i] == match ts[i] case WordToken(w) => WordToken(ReadAs(w)) case OperatorToken(o) => OperatorToken(o)
  {
    seq(|ts|, i requires 0 <= i < |ts| =>
      match ts[i] case WordToken(w) => WordToken(ReadAs(w)) case OperatorToken(o) => OperatorToken(o))
  }

  lemma LexSpace(rest: Chars, fragments: seq<Fragment>, started: bool)
    ensures Lex([SPACE] + rest, fragments, started) == Prepend(Flush(fragments, started), Lex(rest, [], false))
  {
    assert ([SPACE] + rest)[1..] == rest;
  }

  lemma LexOperator(o: Operator, rest: Chars)
    ensures Lex(OperatorText(o) + [SPACE] + rest, [], false) == Prepend([OperatorToken(o)], Lex(rest, [], false))
  {
    var s := OperatorText(o) + [SPACE] + rest;
    var after := [SPACE] + rest;
    assert s[|OperatorText(o)|..] == after;
    assert s[0] == OperatorText(o)[0];
    assert OperatorAt(s) == Some((o, |OperatorText(o)|));
    LexSpace(rest, [], false);
    PrependNothing(Lex(rest, [], false));
    var tokens: seq<Token> := [OperatorToken(o)];
    assert [] + tokens == tokens;
  }

  predicate GoodToken(t: TokenOf<Spelling>) {
    t.WordToken? ==> Printable(t.word)
  }

  lemma {:induction false} LexTokens(ts: seq<TokenOf<Spelling>>)
    requires forall i :: 0 <= i < |ts| ==> GoodToken(ts[i])
    ensures Lex(PrintTokens(ts), [], false) == Ok(ReadTokens(ts))
  {
    hide Lex, PrintWord, OperatorText, WordFragments;
    if ts == [] {
      assert Lex([], [], false) == Ok([]) by {
        NothingToLex();
      }
    } else {
      LexTokens(ts[1..]);
      var rest := PrintTokens(ts[1..]);
      assert GoodToken(ts[0]);
      if ts[0].WordToken? {
        var w := ts[0].word;
        LexWord(w, [SPACE] + rest, [], false);
        LexSpace(rest, WordFragments(w), true);
        assert [] + WordFragments(w) == WordFragments(w);
        assert PrintTokens(ts) == PrintWord(w) + ([SPACE] + rest);
      } else {
        LexOperator(ts[0].operator, rest);
      }
      assert ReadTokens(ts) == [ReadTokens(ts)[0]] + ReadTokens(ts[1..]);
    }
  }

  lemma NothingToLex()
    ensures Lex([], [], false) == Ok([])
  {
  }

  // ---------------------------------------------------------------- one line

  lemma {:induction false} EscapeOneLine(t: Chars)
    requires OneLine(t)
    ensures OneLine(Escape(t))
  {
    if t != [] {
      assert forall c :: c in t[1..] ==> c in t;
      EscapeOneLine(t[1..]);
    }
  }

  lemma OneLineConcat(a: Chars, b: Chars)
    ensures OneLine(a + b) <==> OneLine(a) && OneLine(b)
  {
  }

  lemma PartOneLine(p: Part)
    requires match p case Quote(t) => OneLine(t) case Use(name) => IsName(name)
    ensures OneLine(PrintPart(p))
  {
    if p.Quote? {
      EscapeOneLine(p.text);
    } else {
      NameHas(p.name, LF);
      NameHas(p.name, CR);
    }
  }

  lemma {:induction false} WordOneLine(w: Spelling)
    requires forall i :: 0 <= i < |w| ==> match w[i] case Quote(t) => OneLine(t) case Use(name) => IsName(name)
    ensures OneLine(PrintWord(w))
  {
    hide PrintPart;
    if w != [] {
      PartOneLine(w[0]);
      WordOneLine(w[1..]);
      OneLineConcat(PrintPart(w[0]), PrintWord(w[1..]));
    }
  }

  lemma {:induction false} TokensOneLine(ts: seq<TokenOf<Spelling>>)
    requires forall i :: 0 <= i < |ts| ==> GoodToken(ts[i])
    ensures OneLine(PrintTokens(ts))
  {
    hide PrintWord;
    if ts != [] {
      assert GoodToken(ts[0]);
      TokensOneLine(ts[1..]);
      if ts[0].WordToken? {
        WordOneLine(ts[0].word);
      }
    }
  }

  // ---------------------------------------------------------------- the plan that is read

  function ReadWords(ws: seq<Spelling>): (r: seq<Word>)
    ensures |r| == |ws| && forall i :: 0 <= i < |ws| ==> r[i] == ReadAs(ws[i])
  {
    seq(|ws|, i requires 0 <= i < |ws| => ReadAs(ws[i]))
  }

  function ReadStages(stages: seq<StageOf<Spelling>>): (r: seq<Stage>)
    ensures |r| == |stages| && forall i :: 0 <= i < |stages| ==> r[i] == Stage(ReadWords(stages[i].words))
  {
    seq(|stages|, i requires 0 <= i < |stages| => Stage(ReadWords(stages[i].words)))
  }

  function ReadRedirection(r: Option<RedirectionOf<Spelling>>): Option<Redirection> {
    if r.None? then None else Some(Redirection(r.value.mode, ReadAs(r.value.destination)))
  }

  /** The same units, stages, connectors and redirections, each word as it is read. */
  function ReadPlan(units: seq<UnitOf<Spelling>>): (r: seq<PlanUnit>)
    ensures |r| == |units|
    ensures forall i :: 0 <= i < |units| ==>
              r[i] == PlanUnit(units[i].connector, ReadStages(units[i].stages), ReadRedirection(units[i].redirection))
  {
    seq(|units|, i requires 0 <= i < |units| =>
      PlanUnit(units[i].connector, ReadStages(units[i].stages), ReadRedirection(units[i].redirection)))
  }

  lemma ReadAppend(a: seq<TokenOf<Spelling>>, b: seq<TokenOf<Spelling>>)
    ensures ReadTokens(a + b) == ReadTokens(a) + ReadTokens(b)
  {
  }

  lemma {:induction false} StagesRead(stages: seq<StageOf<Spelling>>)
    ensures FlattenStages(ReadStages(stages)) == ReadTokens(FlattenStages(stages))
  {
    hide ReadAs;
    if stages != [] {
      var words := WordTokens(stages[0].words);
      assert ReadTokens(words) == WordTokens(ReadWords(stages[0].words));
      if |stages| == 1 {
        ReadAppend(words, []);
      } else {
        StagesRead(stages[1..]);
        assert ReadStages(stages)[1..] == ReadStages(stages[1..]);
        var pipe: seq<TokenOf<Spelling>>, more := [OperatorToken(Pipe)], FlattenStages(stages[1..]);
        ReadAppend(pipe, more);
        ReadAppend(words, pipe + more);
      }
    }
  }

  lemma {:induction false} PlanReads(units: seq<UnitOf<Spelling>>)
    ensures Flatten(ReadPlan(units)) == ReadTokens(Flatten(units))
  {
    hide ReadAs, ReadStages, FlattenStages;
    if units != [] {
      var stages, redirection := FlattenStages(units[0].stages), FlattenRedirection(units[0].redirection);
      StagesRead(units[0].stages);
      assert ReadTokens(redirection) == FlattenRedirection(ReadRedirection(units[0].redirection));
      ReadAppend(stages, redirection);
      if |units| == 1 {
        ReadAppend(stages + redirection, []);
      } else {
        PlanReads(units[1..]);
        assert ReadPlan(units)[1..] == ReadPlan(units[1..]);
        var separator: seq<TokenOf<Spelling>>, more := [OperatorToken(Separator(units[1].connector))], Flatten(units[1..]);
        ReadAppend(separator, more);
        ReadAppend(stages + redirection, separator + more);
      }
    }
  }

  // ---------------------------------------------------------------- what the words mean

  lemma LiteralAhead(text: Chars, rest: seq<Fragment>, expanded: Chars, environment: Environment, cwd: Chars, alpha: CodePoint -> bool)
    requires ExpandFragments(rest, environment, cwd, alpha) == Ok(expanded)
    ensures ExpandFragments([Fragment(text, false)] + rest, environment, cwd, alpha) == Ok(text + expanded)
  {
    assert ([Fragment(text, false)] + rest)[1..] == rest;
  }

  lemma BreakAhead(segment: Chars, rest: seq<Fragment>, expanded: Chars, environment: Environment, cwd: Chars, alpha: CodePoint -> bool)
    requires ExpandFragments(rest, environment, cwd, alpha) == Ok(expanded)
    ensures ExpandFragments([Fragment(segment, false), Fragment([SINGLE], false)] + rest, environment, cwd, alpha)
         == Ok(segment + ([SINGLE] + expanded))
  {
    hide ExpandFragments;
    var first, second := Fragment(segment, false), Fragment([SINGLE], false);
    LiteralAhead([SINGLE], rest, expanded, environment, cwd, alpha);
    LiteralAhead(segment, [second] + rest, [SINGLE] + expanded, environment, cwd, alpha);
    assert [first] + ([second] + rest) == [first, second] + rest;
  }

  lemma LiteralMeans(segment: Chars, environment: Environment, cwd: Chars, alpha: CodePoint -> bool)
    ensures ExpandFragments([Fragment(segment, false)], environment, cwd, alpha) == Ok(segment)
  {
    assert ExpandFragments([], environment, cwd, alpha) == Ok([]);
    assert [Fragment(segment, false)][1..] == [];
    assert segment + [] == segment;
  }

  lemma QuoteUnfolds(segment: Chars, t: Chars)
    ensures QuoteFragments(segment, []) == [Fragment(segment, false)]
    ensures t != [] && t[0] == SINGLE ==>
              QuoteFragments(segment, t) == [Fragment(segment, false), Fragment([SINGLE], false)] + QuoteFragments([], t[1..])
    ensures t != [] && t[0] != SINGLE ==> QuoteFragments(segment, t) == QuoteFragments(segment + [t[0]], t[1..])
  {
  }

  lemma {:induction false} QuoteMeans(segment: Chars, t: Chars, environment: Environment, cwd: Chars, alpha: CodePoint -> bool)
    ensures ExpandFragments(QuoteFragments(segment, t), environment, cwd, alpha) == Ok(segment + t)
    decreases |t|
  {
    hide ExpandFragments, QuoteFragments;
    QuoteUnfolds(segment, t);
    if t == [] {
      LiteralMeans(segment, environment, cwd, alpha);
      assert segment + t == segment;
    } else if t[0] == SINGLE {
      QuoteMeans([], t[1..], environment, cwd, alpha);
      BreakAhead(segment, QuoteFragments([], t[1..]), [] + t[1..], environment, cwd, alpha);
      assert segment + ([SINGLE] + ([] + t[1..])) == segment + t;
    } else {
      QuoteMeans(segment + [t[0]], t[1..], environment, cwd, alpha);
      assert segment + [t[0]] + t[1..] == segment + t;
    }
  }

  lemma UseMeans(name: Chars, environment: Environment, cwd: Chars, alpha: CodePoint -> bool)
    requires IsName(name)
    ensures Expand([DOLLAR, LEFT_BRACE] + name + [RIGHT_BRACE], environment, cwd, alpha) == Ok(Lookup(name, environment, cwd))
  {
    var s := [DOLLAR, LEFT_BRACE] + name + [RIGHT_BRACE];
    NameHas(name, RIGHT_BRACE);
    PositionOf(name, RIGHT_BRACE, []);
    assert s[2..] == name + [RIGHT_BRACE] + [];
    assert s[2..2 + |name|] == name;
    assert SiteAt(s, alpha) == Variable(name, |s|);
    assert s[|s|..] == [];
    hide SiteAt;
    assert Expand([], environment, cwd, alpha) == Ok([]);
    assert Lookup(name, environment, cwd) + [] == Lookup(name, environment, cwd);
  }

  lemma FragmentAhead(f: Fragment, rest: seq<Fragment>, environment: Environment, cwd: Chars, alpha: CodePoint -> bool)
    ensures ExpandFragments([f] + rest, environment, cwd, alpha) ==
      (match (if f.expands then Expand(f.text, environment, cwd, alpha) else Ok(f.text))
       case Err(e) => Err(e)
       case Ok(text) =>
         match ExpandFragments(rest, environment, cwd, alpha)
         case Err(e) => Err(e)
         case Ok(more) => Ok(text + more))
  {
    hide Expand;
    assert ([f] + rest)[1..] == rest;
  }

  lemma {:induction false} ExpandAppend(a: seq<Fragment>, b: seq<Fragment>, environment: Environment, cwd: Chars, alpha: CodePoint -> bool)
    requires ExpandFragments(a, environment, cwd, alpha).Ok? && ExpandFragments(b, environment, cwd, alpha).Ok?
    ensures ExpandFragments(a + b, environment, cwd, alpha)
         == Ok(ExpandFragments(a, environment, cwd, alpha).value + ExpandFragments(b, environment, cwd, alpha).value)
  {
    hide Expand, ExpandFragments;
    var eb := ExpandFragments(b, environment, cwd, alpha).value;
    if a == [] {
      NothingExpands(environment, cwd, alpha);
      assert a + b == b;
      assert [] + eb == eb;
    } else {
      HeadAndTail(a);
      Associative([a[0]], a[1..], b);
      FragmentAhead(a[0], a[1..], environment, cwd, alpha);
      FragmentAhead(a[0], a[1..] + b, environment, cwd, alpha);
      ExpandAppend(a[1..], b, environment, cwd, alpha);
      var text := (if a[0].expands then Expand(a[0].text, environment, cwd, alpha) else Ok(a[0].text)).value;
      Associative(text, ExpandFragments(a[1..], environment, cwd, alpha).value, eb);
    }
  }

  lemma NothingExpands(environment: Environment, cwd: Chars, alpha: CodePoint -> bool)
    ensures ExpandFragments([], environment, cwd, alpha) == Ok([])
  {
  }

  /** Every word expands to its meaning, in every environment. */
  lemma {:induction false} WordMeans(w: Spelling, environment: Environment, cwd: Chars, alpha: CodePoint -> bool)
    requires forall i :: 0 <= i < |w| && w[i].Use? ==> IsName(w[i].name)
    ensures ExpandFragments(WordFragments(w), environment, cwd, alpha) == Ok(Meaning(w, environment, cwd))
  {
    hide Expand, QuoteFragments;
    if w != [] {
      WordMeans(w[1..], environment, cwd, alpha);
      var part := PartFragments(w[0]);
      if w[0].Quote? {
        QuoteMeans([], w[0].text, environment, cwd, alpha);
        assert [] + w[0].text == w[0].text;
      } else {
        UseMeans(w[0].name, environment, cwd, alpha);
        SingleExpands(part[0], environment, cwd, alpha);
      }
      ExpandAppend(part, WordFragments(w[1..]), environment, cwd, alpha);
    }
  }

  lemma SingleExpands(f: Fragment, environment: Environment, cwd: Chars, alpha: CodePoint -> bool)
    requires f.expands && Expand(f.text, environment, cwd, alpha).Ok?
    ensures ExpandFragments([f], environment, cwd, alpha) == Expand(f.text, environment, cwd, alpha)
  {
    hide Expand;
    assert [f][1..] == [];
    assert ExpandFragments([], environment, cwd, alpha) == Ok([]);
    var text := Expand(f.text, environment, cwd, alpha).value;
    assert text + [] == text;
  }

  lemma ReadsExpandable(w: Spelling, alpha: CodePoint -> bool)
    requires Printable(w)
    ensures Expandable(ReadAs(w), alpha)
  {
    WordMeans(w, map[], [], alpha);
    ValidatedNeverFails(WordFragments(w), map[], [], alpha);
  }

  // ---------------------------------------------------------------- the round trip

  lemma {:induction false} FlattenedStagesGood(stages: seq<StageOf<Spelling>>)
    requires GoodStages(stages, Printable)
    ensures forall i :: 0 <= i < |FlattenStages(stages)| ==> GoodToken(FlattenStages(stages)[i])
    decreases |stages|
  {
    hide Printable;
    assert forall j :: 0 <= j < |stages[0].words| ==> Printable(stages[0].words[j]);
    if |stages| > 1 {
      FlattenedStagesGood(stages[1..]);
    }
  }

  lemma {:induction false} FlattenedGood(units: seq<UnitOf<Spelling>>)
    requires GoodPlan(units, Printable)
    ensures forall i :: 0 <= i < |Flatten(units)| ==> GoodToken(Flatten(units)[i])
    decreases |units|
  {
    hide Printable, FlattenStages;
    assert GoodUnit(units[0], Printable);
    FlattenedStagesGood(units[0].stages);
    if |units| > 1 {
      FlattenedGood(units[1..]);
    }
  }

  lemma ReadPlanGood(units: seq<UnitOf<Spelling>>, alpha: CodePoint -> bool)
    requires GoodPlan(units, Printable)
    ensures GoodPlan(ReadPlan(units), w => Expandable(w, alpha))
  {
    hide Expandable, ReadAs, Printable;
    var r := ReadPlan(units);
    forall i | 0 <= i < |r| ensures GoodUnit(r[i], w => Expandable(w, alpha)) {
      assert GoodUnit(units[i], Printable);
      ReadUnitGood(units[i], alpha);
    }
  }

  lemma ReadUnitGood(u: UnitOf<Spelling>, alpha: CodePoint -> bool)
    requires GoodUnit(u, Printable)
    ensures GoodUnit(PlanUnit(u.connector, ReadStages(u.stages), ReadRedirection(u.redirection)), w => Expandable(w, alpha))
  {
    hide Expandable, ReadAs, Printable;
    var r := ReadStages(u.stages);
    forall i, j | 0 <= i < |r| && 0 <= j < |r[i].words| ensures Expandable(r[i].words[j], alpha) {
      ReadsExpandable(u.stages[i].words[j], alpha);
    }
    if u.redirection.Some? {
      ReadsExpandable(u.redirection.value.destination, alpha);
    }
  }

  lemma ReadPlanNotEmpty(units: seq<UnitOf<Spelling>>, alpha: CodePoint -> bool)
    requires GoodPlan(units, Printable)
    ensures Flatten(ReadPlan(units)) != []
  {
    ReadPlanGood(units, alpha);
    PlanNotEmpty(ReadPlan(units), alpha);
  }

  /** Printing any plan over any words and parsing the text gives that plan back. */
  lemma PrintThenParse(units: seq<UnitOf<Spelling>>, alpha: CodePoint -> bool)
    requires GoodPlan(units, Printable) && units[0].connector == Always
    ensures Parse(Print(units), alpha) == Ok(ReadPlan(units))
  {
    hide Lex, Flatten, PrintTokens, ParseUnits, Printable, Expandable, OneLine;
    var ts := Flatten(units);
    FlattenedGood(units);
    TokensOneLine(ts);
    LexTokens(ts);
    PlanReads(units);
    ReadPlanGood(units, alpha);
    ReadPlanNotEmpty(units, alpha);
    FlattenThenParse(ReadPlan(units), alpha);
  }
}
