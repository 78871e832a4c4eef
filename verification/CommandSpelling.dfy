/** How tokens are written: unquoted runs, quotes, escapes, blanks and operators.  The tokenizer
    reads every such text as its tokens, and refuses every other text at the place where no
    spelling goes on. */
module CommandSpelling {
  import opened Basics
  import opened Utf8
  import opened CommandSyntax
  import CommandPrinter

  /** What stands inside double quotes: text up to an escape or to the closing quote. */
  datatype Inside = Closing(text: Chars) | Escaping(text: Chars, escaped: CodePoint, rest: Inside)

  datatype Piece =
    | Blank(space: CodePoint)
    | Run(text: Chars)
    | InSingle(text: Chars)
    | InDouble(inside: Inside)
    | Backslashed(escaped: CodePoint)
    | Mark(operator: Operator)

  function InsideText(d: Inside): (r: Chars)
    ensures |r| > |d.text|
  {
    match d
    case Closing(t) => t + [DOUBLE]
    case Escaping(t, c, rest) => t + ([BACKSLASH, c] + InsideText(rest))
  }

  function PieceText(p: Piece): Chars {
    match p
    case Blank(c) => [c]
    case Run(t) => t
    case InSingle(t) => [SINGLE] + t + [SINGLE]
    case InDouble(d) => [DOUBLE] + InsideText(d)
    case Backslashed(c) => [BACKSLASH, c]
    case Mark(o) => CommandPrinter.OperatorText(o)
  }

  function Text(pieces: seq<Piece>, rest: Chars): (r: Chars)
    ensures |r| >= |rest|
  {
    if pieces == [] then rest else PieceText(pieces[0]) + Text(pieces[1..], rest)
  }

  // ---------------------------------------------------------------- what may be written

  /** Neither a closing quote nor an escape. */
  predicate Unescaped(t: Chars) {
    forall i :: 0 <= i < |t| ==> StandsFor(t, i)
  }

  /** The character stands for itself inside double quotes. */
  predicate StandsFor(t: Chars, i: nat)
    requires i < |t|
  {
    t[i] != DOUBLE && (t[i] == BACKSLASH ==> i + 1 < |t| && !Escapable(t[i + 1]))
  }

  predicate GoodInside(d: Inside) {
    Unescaped(d.text) && (d.Escaping? ==> Escapable(d.escaped) && GoodInside(d.rest))
  }

  predicate Unbroken(t: Chars) {
    t != [] && forall i :: 0 <= i < |t| ==> !BreaksRun(t[i])
  }

  predicate GoodPiece(p: Piece) {
    match p
    case Blank(c) => IsSpace(c)
    case Run(t) => Unbroken(t)
    case InSingle(t) => SINGLE !in t
    case InDouble(d) => GoodInside(d)
    case Backslashed(_) => true
    case Mark(_) => true
  }

  predicate Begins(s: Chars, c: CodePoint) {
    s != [] && s[0] == c
  }

  /** A piece is read as such before `next`: a run reaches as far as it can, and a number is not
      taken for a file descriptor. */
  predicate Fits(p: Piece, started: bool, next: Chars) {
    match p
    case Run(t) =>
      && (next == [] || BreaksRun(next[0]))
      && !(t == [DOLLAR] && Begins(next, OPEN))
      && !(!started && AllDigits(t) && Begins(next, GREATER))
    case Mark(o) =>
      && (o == Pipe ==> !Begins(next, BAR))
      && (o == Redirect ==> !Begins(next, GREATER) && !Begins(next, OPEN))
    case _ => true
  }

  predicate InWord(p: Piece) {
    !p.Blank? && !p.Mark?
  }

  /** The pieces can stand side by side, `rest` after them. */
  predicate Spelled(pieces: seq<Piece>, started: bool, rest: Chars) {
    pieces == []
    || (GoodPiece(pieces[0]) && Fits(pieces[0], started, Text(pieces[1..], rest)) && Spelled(pieces[1..], InWord(pieces[0]), rest))
  }

  /** Whether a word is open after the pieces. */
  predicate OpenAfter(pieces: seq<Piece>, started: bool) {
    if pieces == [] then started else InWord(pieces[|pieces| - 1])
  }

  // ---------------------------------------------------------------- what it means

  /** Escapes are literal, the text between them expands. */
  function InsideFragments(d: Inside): seq<Fragment> {
    match d
    case Closing(t) => [Fragment(t, true)]
    case Escaping(t, c, rest) => [Fragment(t, true), Fragment([c], false)] + InsideFragments(rest)
  }

  function Fragments(p: Piece): seq<Fragment> {
    match p
    case Run(t) => [Fragment(t, true)]
    case InSingle(t) => [Fragment(t, false)]
    case InDouble(d) => InsideFragments(d)
    case Backslashed(c) => [Fragment([c], false)]
    case _ => []
  }

  /** The fragments of the word that is open after the pieces. */
  function OpenFragments(pieces: seq<Piece>, fragments: seq<Fragment>): seq<Fragment> {
    if pieces == [] then fragments
    else OpenFragments(pieces[1..], if InWord(pieces[0]) then fragments + Fragments(pieces[0]) else [])
  }

  /** The tokens that are complete after the pieces: a word ends at a blank or an operator. */
  function Complete(pieces: seq<Piece>, fragments: seq<Fragment>, started: bool): seq<Token> {
    if pieces == [] then []
    else if InWord(pieces[0]) then Complete(pieces[1..], fragments + Fragments(pieces[0]), true)
    else
      Flush(fragments, started)
      + ((if pieces[0].Mark? then [OperatorToken(pieces[0].operator)] else []) + Complete(pieces[1..], [], false))
  }

  function TokensOf(pieces: seq<Piece>): seq<Token> {
    Complete(pieces, [], false) + Flush(OpenFragments(pieces, []), OpenAfter(pieces, false))
  }

  // ---------------------------------------------------------------- where no spelling goes on

  /** No inside of double quotes starts here. */
  ghost predicate NeverCloses(s: Chars) {
    forall d: Inside :: GoodInside(d) ==> !(InsideText(d) <= s)
  }

  predicate Descriptor(s: Chars, n: nat) {
    0 < n < |s| && AllDigits(s[..n]) && s[n] == GREATER
  }

  /** A comment, a substitution, an input redirection, an OR or a background job. */
  predicate LeftOut(s: Chars) {
    || [HASH] <= s || [BACKTICK] <= s || [OPEN] <= s || [CLOSE] <= s || [LESS] <= s
    || [DOLLAR, OPEN] <= s || [GREATER, OPEN] <= s || [BAR, BAR] <= s
    || ([AMPERSAND] <= s && !([AMPERSAND, AMPERSAND] <= s))
  }

  ghost predicate Unfit(s: Chars, started: bool, e: Error) {
    match e
    case Empty => false
    case Unsupported => LeftOut(s) || (!started && exists n :: Descriptor(s, n))
    case Invalid => s == [BACKSLASH] || (Begins(s, SINGLE) && SINGLE !in s[1..]) || (Begins(s, DOUBLE) && NeverCloses(s[1..]))
  }

  // ---------------------------------------------------------------- double quotes

  lemma DoubleGoesOn(s: Chars, segment: Chars)
    requires s != [] && s[0] != DOUBLE && (s[0] == BACKSLASH ==> |s| > 1 && !Escapable(s[1]))
    ensures DoubleQuoted(s, segment) == Then([], 1, DoubleQuoted(s[1..], segment + [s[0]]))
  {
  }

  lemma DoubleEscapes(c: CodePoint, s: Chars, segment: Chars)
    requires Escapable(c)
    ensures DoubleQuoted([BACKSLASH, c] + s, segment)
         == Then([Fragment(segment, true), Fragment([c], false)], 2, DoubleQuoted(s, []))
  {
    assert ([BACKSLASH, c] + s)[2..] == s;
  }

  lemma DoubleCloses(rest: Chars, segment: Chars)
    ensures DoubleQuoted([DOUBLE] + rest, segment) == Ok(Quoted([Fragment(segment, true)], 1))
  {
  }

  lemma InsideGrows(c: CodePoint, d: Inside)
    ensures InsideText(d.(text := [c] + d.text)) == [c] + InsideText(d)
  {
  }

  lemma {:induction false} InsideReads(d: Inside, rest: Chars, segment: Chars)
    requires GoodInside(d)
    ensures DoubleQuoted(InsideText(d) + rest, segment)
         == Ok(Quoted(InsideFragments(d.(text := segment + d.text)), |InsideText(d)|))
    decreases |InsideText(d)|
  {
    hide DoubleQuoted, Escapable;
    if d.text != [] {
      var c, less := d.text[0], d.(text := d.text[1..]);
      HeadAndTail(d.text);
      InsideGrows(c, less);
      InsideGoesOn(d, less, rest, segment);
      hide InsideText, GoodInside, InsideFragments, Unescaped;
      InsideReads(less, rest, segment + [c]);
      Associative(segment, [c], less.text);
      PrependFragments(InsideFragments(d.(text := segment + d.text)));
    } else if d.Closing? {
      assert segment + d.text == segment && InsideText(d) == [DOUBLE];
      DoubleCloses(rest, segment);
    } else {
      assert InsideText(d) + rest == [BACKSLASH, d.escaped] + (InsideText(d.rest) + rest);
      DoubleEscapes(d.escaped, InsideText(d.rest) + rest, segment);
      InsideReads(d.rest, rest, []);
      assert segment + d.text == segment && [] + d.rest.text == d.rest.text;
    }
  }

  lemma InsideGoesOn(d: Inside, less: Inside, rest: Chars, segment: Chars)
    requires GoodInside(d) && d.text != [] && less == d.(text := d.text[1..])
    ensures GoodInside(less)
    ensures DoubleQuoted(InsideText(d) + rest, segment) == Then([], 1, DoubleQuoted(InsideText(less) + rest, segment + [d.text[0]]))
  {
    hide DoubleQuoted, Escapable;
    var s := InsideText(d) + rest;
    UnescapedTail(d.text);
    assert InsideText(d)[..|d.text|] == d.text;
    assert s[0] == d.text[0] && (|d.text| > 1 ==> s[1] == d.text[1]);
    HeadAndTail(d.text);
    InsideGrows(d.text[0], less);
    assert s[1..] == InsideText(less) + rest;
    DoubleGoesOn(s, segment);
  }

  lemma UnescapedTail(t: Chars)
    requires t != [] && Unescaped(t)
    ensures Unescaped(t[1..]) && t[0] != DOUBLE && (t[0] == BACKSLASH ==> |t| > 1 && !Escapable(t[1]))
  {
    assert StandsFor(t, 0);
    forall i | 0 <= i < |t[1..]| ensures StandsFor(t[1..], i) {
      assert StandsFor(t, i + 1);
    }
  }

  lemma PrependFragments(fs: seq<Fragment>)
    ensures [] + fs == fs
  {
  }

  lemma DoubleResumes(s: Chars, segment: Chars)
    requires DoubleQuoted(s, segment).Ok?
    ensures s != []
    ensures s[0] == DOUBLE
      || (|s| > 1 && s[0] == BACKSLASH && Escapable(s[1]) && DoubleQuoted(s[2..], []).Ok?)
      || ((s[0] == BACKSLASH ==> |s| > 1 && !Escapable(s[1])) && DoubleQuoted(s[1..], segment + [s[0]]).Ok?)
  {
    hide Escapable;
  }

  lemma PrefixGrows(a: Chars, b: Chars, s: Chars)
    requires |a| <= |s| && a == s[..|a|] && b <= s[|a|..]
    ensures a + b <= s
  {
  }

  /** Where reading double quotes succeeds, an inside starts. */
  lemma {:induction false} InsideFound(s: Chars, segment: Chars) returns (d: Inside)
    requires DoubleQuoted(s, segment).Ok?
    ensures GoodInside(d) && InsideText(d) <= s
    decreases |s|
  {
    hide DoubleQuoted, Escapable, Unescaped;
    DoubleResumes(s, segment);
    EmptyUnescaped();
    if s[0] == DOUBLE {
      d := Closing([]);
      assert InsideText(d) == [DOUBLE];
    } else if |s| > 1 && s[0] == BACKSLASH && Escapable(s[1]) && DoubleQuoted(s[2..], []).Ok? {
      var more := InsideFound(s[2..], []);
      d := Escaping([], s[1], more);
      assert InsideText(d) == [s[0], s[1]] + InsideText(more);
      PrefixGrows([s[0], s[1]], InsideText(more), s);
    } else {
      var more := InsideFound(s[1..], segment + [s[0]]);
      d := more.(text := [s[0]] + more.text);
      hide GoodInside;
      GrownInside(s[0], more, s[1..]);
      InsideGrows(s[0], more);
      hide InsideText;
      PrefixGrows([s[0]], InsideText(more), s);
    }
  }

  lemma EmptyUnescaped()
    ensures Unescaped([])
  {
  }

  lemma GrownInside(c: CodePoint, d: Inside, s: Chars)
    requires GoodInside(d) && InsideText(d) <= s && c != DOUBLE && (c == BACKSLASH ==> !Escapable(s[0]))
    ensures GoodInside(d.(text := [c] + d.text))
  {
    var t := [c] + d.text;
    assert InsideText(d)[0] == s[0];
    assert d.text == [] ==> Escapable(s[0]);
    assert d.text != [] ==> d.text[0] == s[0];
    forall i | 0 <= i < |t| ensures StandsFor(t, i) {
      assert i + 1 < |t| ==> t[i + 1] == d.text[i];
      if i > 0 {
        assert StandsFor(d.text, i - 1);
      }
    }
  }

  lemma InsideCloses(d: Inside, s: Chars)
    requires GoodInside(d) && InsideText(d) <= s
    ensures DoubleQuoted(s, []).Ok?
  {
    InsideReads(d, s[|InsideText(d)|..], []);
    assert InsideText(d) + s[|InsideText(d)|..] == s;
  }

  lemma NeverClosesExactly(s: Chars)
    ensures DoubleQuoted(s, []).Err? <==> NeverCloses(s)
  {
    if DoubleQuoted(s, []).Ok? {
      var d := InsideFound(s, []);
    } else {
      forall d: Inside | GoodInside(d) ensures !(InsideText(d) <= s) {
        if InsideText(d) <= s {
          InsideCloses(d, s);
        }
      }
    }
  }

  lemma {:induction false} DoubleFailsInvalid(s: Chars, segment: Chars)
    ensures DoubleQuoted(s, segment).Err? ==> DoubleQuoted(s, segment) == Err(Invalid)
    decreases |s|
  {
    if |s| > 1 && s[0] != DOUBLE {
      if s[0] != BACKSLASH || !Escapable(s[1]) {
        DoubleFailsInvalid(s[1..], segment + [s[0]]);
      } else {
        DoubleFailsInvalid(s[2..], []);
      }
    }
  }

  // ---------------------------------------------------------------- runs

  lemma {:induction false} RunExtends(t: Chars, next: Chars)
    requires forall i :: 0 <= i < |t| ==> !BreaksRun(t[i])
    requires next == [] || BreaksRun(next[0])
    ensures RunLength(t + next) == |t|
  {
    if t == [] {
      assert t + next == next;
    } else {
      assert (t + next)[1..] == t[1..] + next;
      RunExtends(t[1..], next);
    }
  }

  lemma {:induction false} RunStops(s: Chars)
    ensures var n := RunLength(s);
      (forall i :: 0 <= i < n ==> !BreaksRun(s[i])) && (n < |s| ==> BreaksRun(s[n]))
  {
    if s != [] && !BreaksRun(s[0]) {
      RunStops(s[1..]);
    }
  }

  lemma DescriptorIsRun(s: Chars, n: nat)
    requires Descriptor(s, n)
    ensures RunLength(s) == n
  {
    assert s == s[..n] + s[n..];
    forall i | 0 <= i < n ensures !BreaksRun(s[..n][i]) {
      assert IsDigit(s[..n][i]);
    }
    RunExtends(s[..n], s[n..]);
  }

  // ---------------------------------------------------------------- reading one piece

  lemma LexBlank(c: CodePoint, next: Chars, fragments: seq<Fragment>, started: bool)
    requires IsSpace(c)
    ensures Lex([c] + next, fragments, started) == Prepend(Flush(fragments, started), Lex(next, [], false))
  {
    assert ([c] + next)[1..] == next;
  }

  lemma LexRun(t: Chars, next: Chars, fragments: seq<Fragment>, started: bool)
    requires GoodPiece(Run(t)) && Fits(Run(t), started, next)
    ensures Lex(t + next, fragments, started) == Lex(next, fragments + [Fragment(t, true)], true)
  {
    var s := t + next;
    RunExtends(t, next);
    hide RunLength;
    assert s[0] == t[0] && !BreaksRun(s[0]);
    assert s[..|t|] == t && s[|t|..] == next;
    assert |t| > 1 ==> s[1] == t[1];
    assert !Excluded(s);
  }

  lemma DoubleIsQuote()
    ensures !IsSpace(DOUBLE) && IsQuote(DOUBLE)
  {
  }

  lemma LexOpened(s: Chars, q: Quoted, fragments: seq<Fragment>, started: bool)
    requires DoubleQuoted(s, []) == Ok(q)
    ensures Lex([DOUBLE] + s, fragments, started) == Lex(s[q.length..], fragments + q.fragments, true)
  {
    hide DoubleQuoted, IsSpace, IsQuote, Excluded, OperatorAt, RunLength, BreaksRun, AllDigits, Flush, Prepend;
    var all := [DOUBLE] + s;
    assert all[0] == DOUBLE && all[1..] == s && all[1 + q.length..] == s[q.length..];
    DoubleIsQuote();
  }

  lemma LexInDouble(d: Inside, next: Chars, fragments: seq<Fragment>, started: bool)
    requires GoodInside(d)
    ensures Lex([DOUBLE] + InsideText(d) + next, fragments, started) == Lex(next, fragments + InsideFragments(d), true)
  {
    hide *;
    var text := InsideText(d);
    InsideReads(d, next, []);
    assert [] + d.text == d.text;
    LexOpened(text + next, Quoted(InsideFragments(d), |text|), fragments, started);
    assert (text + next)[|text|..] == next;
    Associative([DOUBLE], text, next);
  }

  lemma LexMark(o: Operator, next: Chars, fragments: seq<Fragment>, started: bool)
    requires Fits(Mark(o), started, next)
    ensures Lex(CommandPrinter.OperatorText(o) + next, fragments, started)
         == Prepend(Flush(fragments, started) + [OperatorToken(o)], Lex(next, [], false))
  {
    var s := CommandPrinter.OperatorText(o) + next;
    assert s[0] == CommandPrinter.OperatorText(o)[0];
    assert s[|CommandPrinter.OperatorText(o)|..] == next;
    assert OperatorAt(s) == Some((o, |CommandPrinter.OperatorText(o)|));
  }

  function Marked(p: Piece, fragments: seq<Fragment>, started: bool, r: Result<seq<Token>>): Result<seq<Token>>
    requires p.Mark?
  {
    Prepend(Flush(fragments, started) + [OperatorToken(p.operator)], r)
  }

  /** What one piece leaves to be read. */
  lemma LexPiece(p: Piece, next: Chars, fragments: seq<Fragment>, started: bool)
    requires GoodPiece(p) && Fits(p, started, next)
    ensures InWord(p) ==> Lex(PieceText(p) + next, fragments, started) == Lex(next, fragments + Fragments(p), true)
    ensures p.Blank? ==> Lex(PieceText(p) + next, fragments, started) == Prepend(Flush(fragments, started), Lex(next, [], false))
    ensures p.Mark? ==> Lex(PieceText(p) + next, fragments, started) == Marked(p, fragments, started, Lex(next, [], false))
  {
    hide Lex, InsideText, InsideFragments, GoodInside;
    match p
    case Blank(c) => LexBlank(c, next, fragments, started);
    case Run(t) => LexRun(t, next, fragments, started);
    case InSingle(t) => CommandPrinter.LexSingle(t, next, fragments, started);
    case InDouble(d) => LexInDouble(d, next, fragments, started);
    case Backslashed(c) => CommandPrinter.LexEscaped(c, next, fragments, started);
    case Mark(o) => LexMark(o, next, fragments, started);
  }

  lemma PrependTwice(a: seq<Token>, b: seq<Token>, r: Result<seq<Token>>)
    ensures Prepend(a, Prepend(b, r)) == Prepend(a + b, r)
  {
    if r.Ok? {
      Associative(a, b, r.value);
    }
  }

  lemma OpenTail(pieces: seq<Piece>, started: bool)
    requires pieces != []
    ensures OpenAfter(pieces, started) == OpenAfter(pieces[1..], InWord(pieces[0]))
  {
  }

  /** Spelled pieces are read one by one, whatever comes after them. */
  lemma {:induction false} PiecesLex(pieces: seq<Piece>, rest: Chars, fragments: seq<Fragment>, started: bool)
    requires Spelled(pieces, started, rest)
    ensures Lex(Text(pieces, rest), fragments, started)
         == Prepend(Complete(pieces, fragments, started), Lex(rest, OpenFragments(pieces, fragments), OpenAfter(pieces, started)))
    decreases |pieces|
  {
    hide Lex, PieceText, GoodPiece, Fits, Fragments, Prepend, OpenAfter;
    if pieces == [] {
      PrependNothing(Lex(rest, fragments, started));
      OpenNow(started);
    } else {
      var p, tail := pieces[0], pieces[1..];
      LexPiece(p, Text(tail, rest), fragments, started);
      OpenTail(pieces, started);
      if InWord(p) {
        PiecesLex(tail, rest, fragments + Fragments(p), true);
      } else {
        PiecesLex(tail, rest, [], false);
        var mark := if p.Mark? then [OperatorToken(p.operator)] else [];
        Associative(Flush(fragments, started), mark, Complete(tail, [], false));
        assert Flush(fragments, started) + [] == Flush(fragments, started);
        PrependTwice(Flush(fragments, started) + mark, Complete(tail, [], false), Lex(rest, OpenFragments(tail, []), OpenAfter(tail, false)));
      }
    }
  }

  lemma OpenNow(started: bool)
    ensures OpenAfter([], started) == started
  {
  }

  // ---------------------------------------------------------------- every text

  lemma UnfitFails(s: Chars, fragments: seq<Fragment>, started: bool, e: Error)
    requires Unfit(s, started, e)
    ensures Lex(s, fragments, started) == Err(e)
  {
    if e == Unsupported {
      if LeftOut(s) {
        LeftOutExcluded(s);
        hide Excluded, LeftOut;
      } else {
        var n :| Descriptor(s, n);
        DescriptorIsRun(s, n);
        hide RunLength;
        DescriptorFails(s, n, fragments);
      }
    } else if Begins(s, SINGLE) {
      NoPosition(s[1..], SINGLE);
    } else if Begins(s, DOUBLE) {
      NeverClosesExactly(s[1..]);
      DoubleFailsInvalid(s[1..], []);
      hide DoubleQuoted;
    }
  }

  lemma LeftOutExcluded(s: Chars)
    requires s != []
    ensures LeftOut(s) ==> Excluded(s) && !IsSpace(s[0]) && !IsQuote(s[0]) && s[0] != BACKSLASH
    ensures Excluded(s) ==> LeftOut(s)
  {
    assert forall c :: [c] <= s <==> s[0] == c;
    assert forall c, d :: [c, d] <= s <==> |s| > 1 && s[0] == c && s[1] == d;
  }

  lemma DescriptorFails(s: Chars, n: nat, fragments: seq<Fragment>)
    requires Descriptor(s, n) && RunLength(s) == n && !LeftOut(s)
    ensures Lex(s, fragments, false) == Err(Unsupported)
  {
    LeftOutExcluded(s);
    assert s[..n][0] == s[0] && IsDigit(s[0]);
    hide Excluded, LeftOut, RunLength;
    assert OperatorAt(s) == None;
  }

  lemma {:induction false} NoPosition(s: Chars, c: CodePoint)
    requires c !in s
    ensures Position(s, c) == |s|
  {
    if s != [] {
      NoPosition(s[1..], c);
    }
  }

  lemma {:induction false} FirstPosition(s: Chars, c: CodePoint)
    requires c in s
    ensures var n := Position(s, c); n < |s| && s[n] == c && c !in s[..n]
  {
    if s[0] != c {
      FirstPosition(s[1..], c);
      var n := Position(s[1..], c);
      assert s[..n + 1] == [s[0]] + s[1..][..n];
    }
  }

  /** The first piece of a text, unless no spelling goes on. */
  lemma NextPiece(s: Chars, started: bool) returns (p: Piece, next: Chars)
    requires s != [] && forall e :: !Unfit(s, started, e)
    ensures GoodPiece(p) && Fits(p, started, next) && PieceText(p) + next == s && |next| < |s|
  {
    assert !Unfit(s, started, Invalid) && !Unfit(s, started, Unsupported);
    LeftOutExcluded(s);
    if IsSpace(s[0]) {
      p, next := Blank(s[0]), s[1..];
    } else if s[0] == SINGLE {
      var n := Position(s[1..], SINGLE);
      FirstPosition(s[1..], SINGLE);
      p, next := InSingle(s[1..][..n]), s[n + 2..];
      assert [SINGLE] + s[1..][..n] + [SINGLE] + s[n + 2..] == s;
    } else if s[0] == DOUBLE {
      var d: Inside :| GoodInside(d) && InsideText(d) <= s[1..];
      p, next := InDouble(d), s[1 + |InsideText(d)|..];
      assert [DOUBLE] + InsideText(d) + s[1 + |InsideText(d)|..] == s;
    } else if s[0] == BACKSLASH {
      p, next := Backslashed(s[1]), s[2..];
      assert [BACKSLASH, s[1]] + s[2..] == s;
    } else if s[0] == SEMICOLON || s[0] == AMPERSAND || s[0] == BAR || s[0] == GREATER {
      p, next := NextMark(s, started);
    } else {
      p, next := NextRun(s, started);
    }
  }

  lemma NextMark(s: Chars, started: bool) returns (p: Piece, next: Chars)
    requires s != [] && !LeftOut(s) && (s[0] == SEMICOLON || s[0] == AMPERSAND || s[0] == BAR || s[0] == GREATER)
    ensures GoodPiece(p) && Fits(p, started, next) && PieceText(p) + next == s && |next| < |s|
  {
    LeftOutExcluded(s);
    hide LeftOut;
    var o := OperatorAt(s).value.0;
    p := Mark(o);
    next := s[|CommandPrinter.OperatorText(o)|..];
    assert s == CommandPrinter.OperatorText(o) + next;
  }

  lemma NextRun(s: Chars, started: bool) returns (p: Piece, next: Chars)
    requires s != [] && !Excluded(s) && !BreaksRun(s[0]) && !(!started && exists n :: Descriptor(s, n))
    ensures GoodPiece(p) && Fits(p, started, next) && PieceText(p) + next == s && |next| < |s|
  {
    var n := RunLength(s);
    RunStops(s);
    assert n > 0;
    hide RunLength;
    p, next := Run(s[..n]), s[n..];
    assert s == s[..n] + s[n..];
    assert next != [] ==> next[0] == s[n];
    assert !started ==> !Descriptor(s, n);
  }

  /** Every text is a spelling up to its end or up to a place where none goes on. */
  lemma {:induction false} SpelledSoFar(s: Chars, started: bool) returns (pieces: seq<Piece>, rest: Chars)
    ensures Spelled(pieces, started, rest) && Text(pieces, rest) == s
    ensures rest == [] || exists e :: Unfit(rest, OpenAfter(pieces, started), e)
    decreases |s|
  {
    hide GoodPiece, Fits, PieceText, Unfit, OpenAfter;
    OpenNow(started);
    if s == [] || exists e :: Unfit(s, started, e) {
      pieces, rest := [], s;
    } else {
      var p, next := NextPiece(s, started);
      var more;
      more, rest := SpelledSoFar(next, InWord(p));
      pieces := [p] + more;
      assert pieces[0] == p && pieces[1..] == more;
      OpenTail(pieces, started);
    }
  }

  // ---------------------------------------------------------------- the laws

  ghost predicate IsSpelling(pieces: seq<Piece>, s: Chars) {
    Spelled(pieces, false, []) && Text(pieces, []) == s
  }

  /** The pieces reach a place where no spelling goes on. */
  ghost predicate BreaksOff(pieces: seq<Piece>, rest: Chars, s: Chars, e: Error) {
    Spelled(pieces, false, rest) && Text(pieces, rest) == s && Unfit(rest, OpenAfter(pieces, false), e)
  }

  /** A spelling is read as its tokens. */
  lemma SpellingIsRead(pieces: seq<Piece>, s: Chars)
    requires IsSpelling(pieces, s)
    ensures Lex(s, [], false) == Ok(TokensOf(pieces))
  {
    PiecesLex(pieces, [], [], false);
  }

  lemma BrokenIsRefused(pieces: seq<Piece>, rest: Chars, s: Chars, e: Error)
    requires BreaksOff(pieces, rest, s, e)
    ensures Lex(s, [], false) == Err(e)
  {
    hide Lex, Unfit, Spelled, Complete;
    PiecesLex(pieces, rest, [], false);
    UnfitFails(rest, OpenFragments(pieces, []), OpenAfter(pieces, false), e);
  }

  /** The tokenizer accepts exactly the spellings, and what it makes of a text does not depend on
      how the text is taken for a spelling. */
  lemma ReadExactly(s: Chars, tokens: seq<Token>)
    ensures Tokenize(s) == Ok(tokens) <==> OneLine(s) && exists pieces :: IsSpelling(pieces, s) && tokens == TokensOf(pieces)
  {
    hide Lex, IsSpelling, TokensOf, BreaksOff;
    var pieces, rest := SpelledSoFar(s, false);
    Ends(pieces, rest, s);
    if rest == [] {
      SpellingIsRead(pieces, s);
    } else {
      var e :| BreaksOff(pieces, rest, s, e);
      BrokenIsRefused(pieces, rest, s, e);
    }
    forall other | IsSpelling(other, s) ensures Lex(s, [], false) == Ok(TokensOf(other)) {
      SpellingIsRead(other, s);
    }
  }

  lemma Ends(pieces: seq<Piece>, rest: Chars, s: Chars)
    requires Spelled(pieces, false, rest) && Text(pieces, rest) == s
    requires rest == [] || exists e :: Unfit(rest, OpenAfter(pieces, false), e)
    ensures rest == [] ==> IsSpelling(pieces, s)
    ensures rest != [] ==> exists e :: BreaksOff(pieces, rest, s, e)
  {
    hide Spelled, Text, Unfit;
    if rest != [] {
      var e :| Unfit(rest, OpenAfter(pieces, false), e);
      assert BreaksOff(pieces, rest, s, e);
    }
  }

  /** It refuses a text that is not on one line, and others exactly where their spelling breaks
      off, with the error of that place. */
  lemma RefusedExactly(s: Chars, e: Error)
    ensures Tokenize(s) == Err(e) <==>
      if LF in s || CR in s then e == Unsupported else exists pieces, rest :: BreaksOff(pieces, rest, s, e)
  {
    hide Lex, IsSpelling, TokensOf, BreaksOff;
    var pieces, rest := SpelledSoFar(s, false);
    Ends(pieces, rest, s);
    if rest == [] {
      SpellingIsRead(pieces, s);
    } else {
      var e' :| BreaksOff(pieces, rest, s, e');
      BrokenIsRefused(pieces, rest, s, e');
    }
    forall ps, r | BreaksOff(ps, r, s, e) ensures Lex(s, [], false) == Err(e) {
      BrokenIsRefused(ps, r, s, e);
    }
  }
}
