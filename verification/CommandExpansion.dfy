/** What expansion accepts and what comes of it: plain characters, `$NAME`, which reaches as far as
    a name can, and `${NAME}`. */
module CommandExpansion {
  import opened Basics
  import opened Utf8
  import opened CommandSyntax

  datatype Part = Plainly(c: CodePoint) | Bare(name: Chars) | Braced(name: Chars)

  function PartText(p: Part): (r: Chars)
    ensures r != []
  {
    match p
    case Plainly(c) => [c]
    case Bare(name) => [DOLLAR] + name
    case Braced(name) => [DOLLAR, LEFT_BRACE] + name + [RIGHT_BRACE]
  }

  function Text(parts: seq<Part>): Chars {
    if parts == [] then [] else PartText(parts[0]) + Text(parts[1..])
  }

  /** A part is read as such before `next`: a dollar sign is plain only where no variable could
      start, and no name goes on after its end. */
  predicate Fits(p: Part, next: Chars, alpha: CodePoint -> bool) {
    match p
    case Plainly(c) => c == DOLLAR ==> next == [] || !(next[0] == LEFT_BRACE || IsNameStart(next[0]) || alpha(next[0]))
    case Bare(name) => IsName(name) && (next == [] || !IsNameCharacter(next[0]))
    case Braced(name) => IsName(name)
  }

  predicate Fitting(parts: seq<Part>, alpha: CodePoint -> bool) {
    parts == [] || (Fits(parts[0], Text(parts[1..]), alpha) && Fitting(parts[1..], alpha))
  }

  /** A variable stands for its value once: PWD for the directory, another for what is set, and
      nothing when it is not. */
  function Value(p: Part, environment: Environment, cwd: Chars): Chars {
    match p
    case Plainly(c) => [c]
    case Bare(name) => if name == WORKING_DIRECTORY then cwd else if name in environment then environment[name] else []
    case Braced(name) => if name == WORKING_DIRECTORY then cwd else if name in environment then environment[name] else []
  }

  function Values(parts: seq<Part>, environment: Environment, cwd: Chars): Chars {
    if parts == [] then [] else Value(parts[0], environment, cwd) + Values(parts[1..], environment, cwd)
  }

  // ---------------------------------------------------------------- sites

  lemma {:induction false} NameReaches(name: Chars, next: Chars)
    requires forall i :: 0 <= i < |name| ==> IsNameCharacter(name[i])
    requires next == [] || !IsNameCharacter(next[0])
    ensures NameLength(name + next) == |name|
  {
    if name == [] {
      assert name + next == next;
    } else {
      assert (name + next)[1..] == name[1..] + next;
      NameReaches(name[1..], next);
    }
  }

  lemma {:induction false} NameEnds(s: Chars)
    ensures NameLength(s) < |s| ==> !IsNameCharacter(s[NameLength(s)])
  {
    if s != [] && IsNameCharacter(s[0]) {
      NameEnds(s[1..]);
    }
  }

  lemma {:induction false} BraceAt(name: Chars, next: Chars)
    requires RIGHT_BRACE !in name
    ensures Position(name + ([RIGHT_BRACE] + next), RIGHT_BRACE) == |name|
  {
    if name == [] {
      assert name + ([RIGHT_BRACE] + next) == [RIGHT_BRACE] + next;
    } else {
      assert (name + ([RIGHT_BRACE] + next))[1..] == name[1..] + ([RIGHT_BRACE] + next);
      BraceAt(name[1..], next);
    }
  }

  lemma {:induction false} BraceFound(s: Chars)
    ensures var n := Position(s, RIGHT_BRACE); n < |s| ==> s[n] == RIGHT_BRACE
  {
    if s != [] && s[0] != RIGHT_BRACE {
      BraceFound(s[1..]);
    }
  }

  lemma BareSite(name: Chars, next: Chars, alpha: CodePoint -> bool)
    requires IsName(name) && (next == [] || !IsNameCharacter(next[0]))
    ensures SiteAt([DOLLAR] + name + next, alpha) == Variable(name, |name| + 1)
  {
    var s := [DOLLAR] + name + next;
    assert s[2..] == name[1..] + next;
    NameReaches(name[1..], next);
    assert s[1] == name[0] && s[1..1 + |name|] == name;
  }

  lemma BracedSite(name: Chars, next: Chars, alpha: CodePoint -> bool)
    requires IsName(name)
    ensures SiteAt([DOLLAR, LEFT_BRACE] + name + [RIGHT_BRACE] + next, alpha) == Variable(name, |name| + 3)
  {
    var s := [DOLLAR, LEFT_BRACE] + name + [RIGHT_BRACE] + next;
    assert s[2..] == name + ([RIGHT_BRACE] + next);
    forall i | 0 <= i < |name| ensures name[i] != RIGHT_BRACE {
      assert i > 0 ==> IsNameCharacter(name[i]);
    }
    BraceAt(name, next);
    hide Position, IsName;
    assert s[1] == LEFT_BRACE && s[2..2 + |name|] == name;
  }

  /** The part that stands at a dollar sign. */
  lemma SitePart(s: Chars, alpha: CodePoint -> bool) returns (p: Part, next: Chars)
    requires s != [] && s[0] == DOLLAR && SiteAt(s, alpha) != Bad
    ensures Fits(p, next, alpha) && PartText(p) + next == s && |next| < |s|
  {
    var site := SiteAt(s, alpha);
    if site == Plain {
      p, next := Plainly(DOLLAR), s[1..];
    } else if s[1] == LEFT_BRACE {
      BraceFound(s[2..]);
      p, next := Braced(site.name), s[site.length..];
      hide Position, IsName;
      assert [DOLLAR, LEFT_BRACE] + site.name + [RIGHT_BRACE] + next == s;
    } else {
      SiteNames(s, alpha);
      NameEnds(s[2..]);
      p, next := Bare(site.name), s[site.length..];
      assert [DOLLAR] + site.name + next == s;
      assert next != [] ==> next[0] == s[2..][site.length - 2];
    }
  }

  // ---------------------------------------------------------------- expansion

  function With(value: Chars, r: Result<Chars>): Result<Chars> {
    match r
    case Err(e) => Err(e)
    case Ok(text) => Ok(value + text)
  }

  lemma ExpandPart(p: Part, next: Chars, environment: Environment, cwd: Chars, alpha: CodePoint -> bool)
    requires Fits(p, next, alpha)
    ensures Expand(PartText(p) + next, environment, cwd, alpha) == With(Value(p, environment, cwd), Expand(next, environment, cwd, alpha))
  {
    var s := PartText(p) + next;
    match p
    case Plainly(c) =>
      assert s[1..] == next;
      assert |s| > 1 ==> s[1] == next[0];
    case Bare(name) =>
      BareSite(name, next, alpha);
      hide SiteAt, IsName;
      assert s[|name| + 1..] == next;
    case Braced(name) =>
      BracedSite(name, next, alpha);
      hide SiteAt, IsName;
      assert s[|name| + 3..] == next;
  }

  lemma {:induction false} PartsExpand(parts: seq<Part>, environment: Environment, cwd: Chars, alpha: CodePoint -> bool)
    requires Fitting(parts, alpha)
    ensures Expand(Text(parts), environment, cwd, alpha) == Ok(Values(parts, environment, cwd))
  {
    hide Fits, PartText, Value;
    if parts != [] {
      PartsExpand(parts[1..], environment, cwd, alpha);
      ExpandPart(parts[0], Text(parts[1..]), environment, cwd, alpha);
      hide Expand;
    }
  }

  lemma {:induction false} PartsOf(s: Chars, environment: Environment, cwd: Chars, alpha: CodePoint -> bool) returns (parts: seq<Part>)
    requires Expand(s, environment, cwd, alpha).Ok?
    ensures Fitting(parts, alpha) && Text(parts) == s
    decreases |s|
  {
    hide Fits, PartText, SiteAt;
    if s == [] {
      parts := [];
    } else {
      var p, next := FirstPart(s, environment, cwd, alpha);
      var more := PartsOf(next, environment, cwd, alpha);
      parts := [p] + more;
      assert parts[0] == p && parts[1..] == more;
    }
  }

  lemma FirstPart(s: Chars, environment: Environment, cwd: Chars, alpha: CodePoint -> bool) returns (p: Part, next: Chars)
    requires s != [] && Expand(s, environment, cwd, alpha).Ok?
    ensures Fits(p, next, alpha) && PartText(p) + next == s && |next| < |s|
    ensures Expand(next, environment, cwd, alpha).Ok?
  {
    hide SiteAt, Value;
    if s[0] == DOLLAR {
      p, next := SitePart(s, alpha);
    } else {
      p, next := Plainly(s[0]), s[1..];
      HeadAndTail(s);
    }
    ExpandPart(p, next, environment, cwd, alpha);
  }

  ghost predicate IsMadeOf(parts: seq<Part>, s: Chars, alpha: CodePoint -> bool) {
    Fitting(parts, alpha) && Text(parts) == s
  }

  /** Expansion yields the values of the parts, and fails exactly when a text has no parts. */
  lemma ExpandsExactly(s: Chars, environment: Environment, cwd: Chars, alpha: CodePoint -> bool, r: Result<Chars>)
    ensures Expand(s, environment, cwd, alpha) == r <==>
      if exists parts :: IsMadeOf(parts, s, alpha)
      then exists parts :: IsMadeOf(parts, s, alpha) && r == Ok(Values(parts, environment, cwd))
      else r == Err(Invalid)
  {
    forall parts | IsMadeOf(parts, s, alpha) ensures Expand(s, environment, cwd, alpha) == Ok(Values(parts, environment, cwd)) {
      PartsExpand(parts, environment, cwd, alpha);
    }
    ExpansionFillsTemplate(s, environment, cwd, alpha);
    if Expand(s, environment, cwd, alpha).Ok? {
      var parts := PartsOf(s, environment, cwd, alpha);
      assert IsMadeOf(parts, s, alpha);
    }
  }
}
