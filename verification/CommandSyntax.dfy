/** The constrained command language: its tokens, its plans and its expansions, as functions
    of the text.  `CommandParser` computes them with index-driven loops. */
module CommandSyntax {
  import opened Basics
  import opened Utf8

  type Chars = seq<CodePoint>

  const TAB: CodePoint := 0x09
  const LF: CodePoint := 0x0A
  const CR: CodePoint := 0x0D
  const SPACE: CodePoint := 0x20
  const DOUBLE: CodePoint := 0x22
  const HASH: CodePoint := 0x23
  const DOLLAR: CodePoint := 0x24
  const AMPERSAND: CodePoint := 0x26
  const SINGLE: CodePoint := 0x27
  const OPEN: CodePoint := 0x28
  const CLOSE: CodePoint := 0x29
  const SEMICOLON: CodePoint := 0x3B
  const LESS: CodePoint := 0x3C
  const GREATER: CodePoint := 0x3E
  const BACKSLASH: CodePoint := 0x5C
  const UNDERSCORE: CodePoint := 0x5F
  const BACKTICK: CodePoint := 0x60
  const LEFT_BRACE: CodePoint := 0x7B
  const BAR: CodePoint := 0x7C
  const RIGHT_BRACE: CodePoint := 0x7D

  datatype Error = Empty | Invalid | Unsupported

  datatype Result<+T> = Ok(value: T) | Err(error: Error) {
    predicate IsFailure() {
      Err?
    }
    function PropagateFailure<U>(): Result<U>
      requires Err?
    {
      Err(error)
    }
    function Extract(): T
      requires Ok?
    {
      value
    }
  }

  datatype Operator = Sequence | And | Pipe | Redirect | Append
  datatype Fragment = Fragment(text: Chars, expands: bool)
  datatype Word = Word(fragments: seq<Fragment>)
  /** Tokens and plans, over whatever stands for a word. */
  datatype TokenOf<W> = WordToken(word: W) | OperatorToken(operator: Operator)

  datatype Connector = Always | OnSuccess
  datatype Mode = ReplaceFile | AppendFile
  datatype RedirectionOf<W> = Redirection(mode: Mode, destination: W)
  datatype StageOf<W> = Stage(words: seq<W>)
  datatype UnitOf<W> = PlanUnit(connector: Connector, stages: seq<StageOf<W>>, redirection: Option<RedirectionOf<W>>)

  type Token = TokenOf<Word>
  type Redirection = RedirectionOf<Word>
  type Stage = StageOf<Word>
  type PlanUnit = UnitOf<Word>

  // ---------------------------------------------------------------- characters

  /** White space in the sense of `str.isspace()`. */
  predicate IsSpace(c: CodePoint) {
    0x09 <= c <= 0x0D || 0x1C <= c <= 0x20 || c == 0x85 || c == 0xA0 || c == 0x1680 || 0x2000 <= c <= 0x200A
    || c == 0x2028 || c == 0x2029 || c == 0x202F || c == 0x205F || c == 0x3000
  }

  predicate IsDigit(c: CodePoint) {
    0x30 <= c <= 0x39
  }

  predicate AllDigits(s: Chars) {
    forall i :: 0 <= i < |s| ==> IsDigit(s[i])
  }

  predicate IsQuote(c: CodePoint) {
    c == SINGLE || c == DOUBLE
  }

  /** What ends an unquoted run. */
  predicate BreaksRun(c: CodePoint) {
    IsSpace(c) || IsQuote(c) || c == BACKSLASH || c == HASH || c == BACKTICK || c == OPEN || c == CLOSE
    || c == LESS || c == GREATER || c == BAR || c == AMPERSAND || c == SEMICOLON
  }

  /** What a backslash escapes inside double quotes. */
  predicate Escapable(c: CodePoint) {
    c == DOLLAR || c == BACKTICK || c == DOUBLE || c == BACKSLASH
  }

  predicate IsNameStart(c: CodePoint) {
    c == UNDERSCORE || 0x41 <= c <= 0x5A || 0x61 <= c <= 0x7A
  }

  predicate IsNameCharacter(c: CodePoint) {
    IsNameStart(c) || IsDigit(c)
  }

  predicate IsName(s: Chars) {
    s != [] && IsNameStart(s[0]) && forall i :: 0 < i < |s| ==> IsNameCharacter(s[i])
  }

  // ---------------------------------------------------------------- tokens

  /** The position of the first `c` in `s`, or |s|. */
  function Position(s: Chars, c: CodePoint): (i: nat)
    ensures i <= |s|
  {
    if s == [] || s[0] == c then 0 else 1 + Position(s[1..], c)
  }

  /** How far an unquoted run extends. */
  function RunLength(s: Chars): (n: nat)
    ensures n <= |s|
  {
    if s == [] || BreaksRun(s[0]) then 0 else 1 + RunLength(s[1..])
  }

  /** Fragments read, and how many characters they took. */
  datatype Quoted = Quoted(fragments: seq<Fragment>, length: nat)

  /** After an opening single quote. */
  function SingleQuoted(s: Chars): (r: Result<Quoted>)
    ensures r.Ok? ==> 1 <= r.value.length <= |s|
  {
    var n := Position(s, SINGLE);
    if n == |s| then Err(Invalid) else Ok(Quoted([Fragment(s[..n], false)], n + 1))
  }

  /** After an opening double quote, or after an escape; `segment` was read since. */
  function DoubleQuoted(s: Chars, segment: Chars): (r: Result<Quoted>)
    ensures r.Ok? ==> 1 <= r.value.length <= |s|
    decreases |s|
  {
    if s == [] then Err(Invalid)
    else if s[0] == DOUBLE then Ok(Quoted([Fragment(segment, true)], 1))
    else if s[0] != BACKSLASH || (|s| > 1 && !Escapable(s[1])) then Then([], 1, DoubleQuoted(s[1..], segment + [s[0]]))
    else if |s| == 1 then Err(Invalid)
    else Then([Fragment(segment, true), Fragment([s[1]], false)], 2, DoubleQuoted(s[2..], []))
  }

  /** A quoted run whose first `length` characters, already read, gave `fragments`. */
  function Then(fragments: seq<Fragment>, length: nat, r: Result<Quoted>): Result<Quoted> {
    match r
    case Err(e) => Err(e)
    case Ok(q) => Ok(Quoted(fragments + q.fragments, length + q.length))
  }

  function QuotedBy(quote: CodePoint, s: Chars): (r: Result<Quoted>)
    ensures r.Ok? ==> 1 <= r.value.length <= |s|
  {
    if quote == SINGLE then SingleQuoted(s) else DoubleQuoted(s, [])
  }

  /** The word being read, as a token. */
  function Flush(fragments: seq<Fragment>, started: bool): seq<Token> {
    if started then [WordToken(Word(fragments))] else []
  }

  function Prepend(tokens: seq<Token>, r: Result<seq<Token>>): Result<seq<Token>> {
    match r
    case Err(e) => Err(e)
    case Ok(rest) => Ok(tokens + rest)
  }

  lemma PrependNothing(r: Result<seq<Token>>)
    ensures Prepend([], r) == r
  {
    if r.Ok? {
      assert [] + r.value == r.value;
    }
  }

  /** The operator that `s` starts with, and its length. */
  function OperatorAt(s: Chars): Option<(Operator, nat)>
    requires s != []
  {
    var doubled := |s| > 1 && s[1] == s[0];
    if s[0] == BAR then Some((Pipe, 1))
    else if s[0] == AMPERSAND && doubled then Some((And, 2))
    else if s[0] == GREATER then if doubled then Some((Append, 2)) else Some((Redirect, 1))
    else if s[0] == SEMICOLON then Some((Sequence, 1))
    else None
  }

  /** Whether `s` starts with something that the language leaves out. */
  predicate Excluded(s: Chars)
    requires s != []
  {
    var next := if |s| > 1 then s[1] else s[0];
    || s[0] == HASH || s[0] == BACKTICK || s[0] == OPEN || s[0] == CLOSE
    || (s[0] == DOLLAR && |s| > 1 && next == OPEN)
    || ((s[0] == LESS || s[0] == GREATER) && |s| > 1 && next == OPEN)
    || (s[0] == BAR && |s| > 1 && next == BAR)
    || s[0] == LESS
    || (s[0] == AMPERSAND && !(|s| > 1 && next == AMPERSAND))
  }

  /** The tokens of `s`, `fragments` being the word read so far if `started`. */
  function Lex(s: Chars, fragments: seq<Fragment>, started: bool): Result<seq<Token>>
    decreases |s|
  {
    if s == [] then Ok(Flush(fragments, started))
    else if IsSpace(s[0]) then Prepend(Flush(fragments, started), Lex(s[1..], [], false))
    else if IsQuote(s[0]) then
      var q :- QuotedBy(s[0], s[1..]);
      Lex(s[1 + q.length..], fragments + q.fragments, true)
    else if s[0] == BACKSLASH then
      if |s| == 1 then Err(Invalid)
      else Lex(s[2..], fragments + [Fragment([s[1]], false)], true)
    else if Excluded(s) then Err(Unsupported)
    else
      var operator := OperatorAt(s);
      if operator.Some? then
        Prepend(Flush(fragments, started) + [OperatorToken(operator.value.0)], Lex(s[operator.value.1..], [], false))
      else
        var n := RunLength(s);
        if !started && AllDigits(s[..n]) && n < |s| && s[n] == GREATER then Err(Unsupported)
        else
          assert !BreaksRun(s[0]);
          Lex(s[n..], fragments + [Fragment(s[..n], true)], true)
  }

  predicate OneLine(s: Chars) {
    LF !in s && CR !in s
  }

  function Tokenize(command: Chars): Result<seq<Token>> {
    if !OneLine(command) then Err(Unsupported) else Lex(command, [], false)
  }

  // ---------------------------------------------------------------- expansion

  type Environment = map<Chars, Chars>

  /** "PWD" */
  const WORKING_DIRECTORY: Chars := [0x50, 0x57, 0x44]

  function Lookup(name: Chars, environment: Environment, cwd: Chars): Chars {
    if name == WORKING_DIRECTORY then cwd else if name in environment then environment[name] else []
  }

  /** What expansion looks for at a dollar sign. */
  datatype Site = Plain | Variable(name: Chars, length: nat) | Bad

  function NameLength(s: Chars): (n: nat)
    ensures n <= |s|
  {
    if s == [] || !IsNameCharacter(s[0]) then 0 else 1 + NameLength(s[1..])
  }

  function SiteAt(s: Chars, alpha: CodePoint -> bool): (r: Site)
    requires s != [] && s[0] == DOLLAR
    ensures r.Variable? ==> 2 <= r.length <= |s|
  {
    if |s| == 1 then Plain
    else if s[1] == LEFT_BRACE then
      var n := Position(s[2..], RIGHT_BRACE);
      if n == |s[2..]| then Bad
      else if !IsName(s[2..2 + n]) then Bad
      else Variable(s[2..2 + n], n + 3)
    else if IsNameStart(s[1]) then
      var n := 1 + NameLength(s[2..]);
      Variable(s[1..1 + n], 1 + n)
    else if alpha(s[1]) then Bad
    else Plain
  }

  /** Expansion of a fragment; `alpha` is `str.isalpha()`, which only matters past ASCII. */
  function Expand(s: Chars, environment: Environment, cwd: Chars, alpha: CodePoint -> bool): Result<Chars>
    decreases |s|
  {
    if s == [] then Ok([])
    else if s[0] != DOLLAR then
      var rest :- Expand(s[1..], environment, cwd, alpha);
      Ok([s[0]] + rest)
    else
      match SiteAt(s, alpha)
      case Bad => Err(Invalid)
      case Plain =>
        var rest :- Expand(s[1..], environment, cwd, alpha);
        Ok([DOLLAR] + rest)
      case Variable(name, n) =>
        var rest :- Expand(s[n..], environment, cwd, alpha);
        Ok(Lookup(name, environment, cwd) + rest)
  }

  /** The environment-free reading of a fragment. */
  datatype Piece = Literal(text: Chars) | Reference(name: Chars)

  function Template(s: Chars, alpha: CodePoint -> bool): (r: Option<seq<Piece>>)
    ensures r.Some? ==> forall i :: 0 <= i < |r.value| && r.value[i].Reference? ==> IsName(r.value[i].name)
    decreases |s|
  {
    if s == [] then Some([])
    else if s[0] != DOLLAR then Cons(Literal([s[0]]), Template(s[1..], alpha))
    else
      match SiteAt(s, alpha)
      case Bad => None
      case Plain => Cons(Literal([DOLLAR]), Template(s[1..], alpha))
      case Variable(name, n) =>
        SiteNames(s, alpha);
        Cons(Reference(name), Template(s[n..], alpha))
  }

  function Cons(piece: Piece, rest: Option<seq<Piece>>): Option<seq<Piece>> {
    if rest.None? then None else Some([piece] + rest.value)
  }

  lemma {:induction false} NameCharacters(s: Chars)
    ensures forall i :: 0 <= i < NameLength(s) ==> IsNameCharacter(s[i])
  {
    if s != [] && IsNameCharacter(s[0]) {
      NameCharacters(s[1..]);
    }
  }

  lemma SiteNames(s: Chars, alpha: CodePoint -> bool)
    requires s != [] && s[0] == DOLLAR && SiteAt(s, alpha).Variable?
    ensures IsName(SiteAt(s, alpha).name)
  {
    if s[1] != LEFT_BRACE {
      var n := NameLength(s[2..]);
      NameCharacters(s[2..]);
      var name := s[1..2 + n];
      forall i | 0 < i < |name| ensures IsNameCharacter(name[i]) {
        assert name[i] == s[2..][i - 1];
      }
    }
  }

  function Fill(pieces: seq<Piece>, environment: Environment, cwd: Chars): Chars {
    if pieces == [] then []
    else (match pieces[0]
          case Literal(t) => t
          case Reference(name) => Lookup(name, environment, cwd)) + Fill(pieces[1..], environment, cwd)
  }

  /** One pass over a template that does not depend on the environment: whether expansion
      succeeds is settled by the text alone, and substituted values are never read again. */
  lemma {:induction false} ExpansionFillsTemplate(s: Chars, environment: Environment, cwd: Chars, alpha: CodePoint -> bool)
    ensures var t := Template(s, alpha);
      Expand(s, environment, cwd, alpha) == if t.None? then Err(Invalid) else Ok(Fill(t.value, environment, cwd))
    decreases |s|
  {
    hide SiteAt;
    if s != [] {
      if s[0] == DOLLAR {
        var site := SiteAt(s, alpha);
        if site.Variable? {
          ExpansionFillsTemplate(s[site.length..], environment, cwd, alpha);
        } else if site.Plain? {
          ExpansionFillsTemplate(s[1..], environment, cwd, alpha);
        }
      } else {
        ExpansionFillsTemplate(s[1..], environment, cwd, alpha);
      }
      ConsFills(s, environment, cwd, alpha);
    }
  }

  lemma ConsFills(s: Chars, environment: Environment, cwd: Chars, alpha: CodePoint -> bool)
    ensures forall piece: Piece, rest: seq<Piece> :: Cons(piece, Some(rest)) == Some([piece] + rest)
    ensures forall piece: Piece, rest: seq<Piece> {:trigger [piece] + rest} ::
              ([piece] + rest)[0] == piece && ([piece] + rest)[1..] == rest
  {
  }

  predicate Expandable(w: Word, alpha: CodePoint -> bool) {
    forall i :: 0 <= i < |w.fragments| && w.fragments[i].expands ==> Template(w.fragments[i].text, alpha).Some?
  }

  function ExpandFragments(fragments: seq<Fragment>, environment: Environment, cwd: Chars, alpha: CodePoint -> bool): Result<Chars> {
    if fragments == [] then Ok([])
    else
      var f := fragments[0];
      var text :- if f.expands then Expand(f.text, environment, cwd, alpha) else Ok(f.text);
      var rest :- ExpandFragments(fragments[1..], environment, cwd, alpha);
      Ok(text + rest)
  }

  /** Words that were validated once never fail to expand afterwards, in any environment. */
  lemma {:induction false} ValidatedNeverFails(
      fragments: seq<Fragment>, environment: Environment, cwd: Chars, alpha: CodePoint -> bool)
    ensures ExpandFragments(fragments, environment, cwd, alpha).Ok? <==> Expandable(Word(fragments), alpha)
  {
    if fragments != [] {
      var f := fragments[0];
      ExpansionFillsTemplate(f.text, environment, cwd, alpha);
      ValidatedNeverFails(fragments[1..], environment, cwd, alpha);
      var w := Word(fragments[1..]);
      assert Expandable(Word(fragments), alpha) <==> (f.expands ==> Template(f.text, alpha).Some?) && Expandable(w, alpha) by {
        if (f.expands ==> Template(f.text, alpha).Some?) && Expandable(w, alpha) {
          forall i | 0 <= i < |fragments| && fragments[i].expands ensures Template(fragments[i].text, alpha).Some? {
            assert i == 0 || fragments[i] == w.fragments[i - 1];
          }
        }
        if Expandable(Word(fragments), alpha) {
          forall i | 0 <= i < |w.fragments| && w.fragments[i].expands ensures Template(w.fragments[i].text, alpha).Some? {
            assert w.fragments[i] == fragments[i + 1];
          }
        }
      }
    }
  }

  // ---------------------------------------------------------------- plans

  function WordCount(ts: seq<Token>): (n: nat)
    ensures n <= |ts|
    ensures forall i :: 0 <= i < n ==> ts[i].WordToken?
    ensures n < |ts| ==> ts[n].OperatorToken?
  {
    if ts == [] || ts[0].OperatorToken? then 0 else 1 + WordCount(ts[1..])
  }

  function Words(ts: seq<Token>): (ws: seq<Word>)
    requires forall i :: 0 <= i < |ts| ==> ts[i].WordToken?
    ensures |ws| == |ts| && forall i :: 0 <= i < |ws| ==> ws[i] == ts[i].word
  {
    seq(|ts|, i requires 0 <= i < |ts| => ts[i].word)
  }

  /** The words that `ts` starts with. */
  function FirstWords(ts: seq<Token>): (ws: seq<Word>)
    ensures |ws| == WordCount(ts) && forall i :: 0 <= i < |ws| ==> ts[i] == WordToken(ws[i])
  {
    Words(ts[..WordCount(ts)])
  }

  predicate AllExpandable(ws: seq<Word>, alpha: CodePoint -> bool) {
    forall i :: 0 <= i < |ws| ==> Expandable(ws[i], alpha)
  }

  /** The stages of one pipeline, and the tokens after it. */
  datatype Pipeline = Pipeline(stages: seq<Stage>, rest: seq<Token>)

  /** One stage: its words, which must all be expandable. */
  function FirstStage(ts: seq<Token>, alpha: CodePoint -> bool): (r: Result<Stage>)
    ensures r.Ok? ==> WordCount(ts) > 0
  {
    if WordCount(ts) == 0 || !AllExpandable(FirstWords(ts), alpha) then Err(Invalid) else Ok(Stage(FirstWords(ts)))
  }

  function AfterStage(ts: seq<Token>): (rest: seq<Token>)
    ensures |rest| == |ts| - WordCount(ts) && (rest != [] ==> rest[0].OperatorToken?)
  {
    ts[WordCount(ts)..]
  }

  /** A token list at which a pipeline ends. */
  predicate EndsPipeline(ts: seq<Token>) {
    ts == [] || (ts[0].OperatorToken? && ts[0].operator != Pipe)
  }

  function ParseStages(ts: seq<Token>, alpha: CodePoint -> bool): (r: Result<Pipeline>)
    ensures r.Ok? ==> r.value.stages != [] && |r.value.rest| < |ts| && EndsPipeline(r.value.rest)
    decreases |ts|
  {
    var stage :- FirstStage(ts, alpha);
    var rest := AfterStage(ts);
    if EndsPipeline(rest) then Ok(Pipeline([stage], rest))
    else if |rest| == 1 then Err(Invalid)
    else
      var more :- ParseStages(rest[1..], alpha);
      Ok(Pipeline([stage] + more.stages, more.rest))
  }

  /** A pipeline with stages put before it. */
  function WithStages(stages: seq<Stage>, r: Result<Pipeline>): Result<Pipeline> {
    match r
    case Err(e) => Err(e)
    case Ok(p) => Ok(Pipeline(stages + p.stages, p.rest))
  }

  lemma StagesStep(ts: seq<Token>, alpha: CodePoint -> bool)
    ensures var stage, rest := FirstStage(ts, alpha), AfterStage(ts);
      ParseStages(ts, alpha) ==
        if stage.Err? then Err(stage.error)
        else if EndsPipeline(rest) then Ok(Pipeline([stage.value], rest))
        else if |rest| == 1 then Err(Invalid)
        else WithStages([stage.value], ParseStages(rest[1..], alpha))
  {
    hide FirstStage, AfterStage, EndsPipeline;
  }

  datatype Destination = Destination(redirection: Option<Redirection>, rest: seq<Token>)

  predicate IsRedirection(t: Token) {
    t == OperatorToken(Redirect) || t == OperatorToken(Append)
  }

  function ParseDestination(ts: seq<Token>, alpha: CodePoint -> bool): (r: Result<Destination>)
    requires ts != [] ==> ts[0].OperatorToken?
    ensures r.Ok? ==> |r.value.rest| <= |ts|
    ensures r.Ok? && r.value.rest != [] ==> r.value.rest[0].OperatorToken?
  {
    if ts == [] || !IsRedirection(ts[0]) then Ok(Destination(None, ts))
    else if |ts| == 1 || !ts[1].WordToken? then Err(Invalid)
    else if !Expandable(ts[1].word, alpha) then Err(Invalid)
    else if |ts| > 2 && ts[2].WordToken? then Err(Invalid)
    else if |ts| > 2 && ts[2] == OperatorToken(Pipe) then Err(Invalid)
    else if |ts| > 2 && IsRedirection(ts[2]) then Err(Invalid)
    else
      var mode := if ts[0].operator == Redirect then ReplaceFile else AppendFile;
      Ok(Destination(Some(Redirection(mode, ts[1].word)), ts[2..]))
  }

  function ParseUnits(ts: seq<Token>, connector: Connector, alpha: CodePoint -> bool): (r: Result<seq<PlanUnit>>)
    ensures r.Ok? ==> r.value != [] && r.value[0].connector == connector
    decreases |ts|
  {
    var p :- ParseStages(ts, alpha);
    var d :- ParseDestination(p.rest, alpha);
    var item := PlanUnit(connector, p.stages, d.redirection);
    if d.rest == [] then Ok([item])
    else if d.rest[0].operator != Sequence && d.rest[0].operator != And then Err(Invalid)
    else if |d.rest| == 1 then Err(Invalid)
    else
      var more :- ParseUnits(d.rest[1..], if d.rest[0].operator == Sequence then Always else OnSuccess, alpha);
      Ok([item] + more)
  }

  function Parse(command: Chars, alpha: CodePoint -> bool): (r: Result<seq<PlanUnit>>)
    ensures r.Ok? ==> r.value != [] && r.value[0].connector == Always
  {
    var tokens :- Tokenize(command);
    if tokens == [] then Err(Empty) else ParseUnits(tokens, Always, alpha)
  }
}
