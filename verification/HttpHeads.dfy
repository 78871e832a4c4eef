/** Which bytes are read as the heads of a response: at most eight informational ones and a final
    one, each within the reader's limits, all of them within one budget. */
module HttpHeads {
  import opened Basics
  import opened HttpSyntax
  import opened HttpFraming
  import opened HttpTransport
  import opened HttpObjections
  import opened HttpBodies

  // ---------------------------------------------------------------- one head

  /** A head as it stands in the stream, with the counters that go with it. */
  predicate Standing(h: Head) {
    && Parsed(h) && |h.statusLine| <= 1024
    && h.headerWire == LinesWire(h.lines) && h.wire == |Text(h)| && h.accounted == Max(h.headerWire, HeadersSize(h.headers))
  }

  lemma LineUnbroken(line: Bytes, h: Header)
    requires ParseHeaderLine(line) == Ok(h)
    ensures line != [] && 0x0D !in line
  {
    FieldLineExactly(line, h);
    hide ParseHeaderLine, Strip, Utf8Length;
    var rest :| line == h.name + [0x3A] + rest && IsToken(h.name) && h.value == Strip(rest, IsBlank) && !HasControl(h.value);
    var left, right := StripParts(rest, IsBlank);
    FreeOfReturn(h.name, left, h.value, right);
    assert line == h.name + [0x3A] + (left + h.value + right);
  }

  lemma FreeOfReturn(name: Bytes, left: Bytes, value: Bytes, right: Bytes)
    requires IsToken(name) && !HasControl(value)
    requires (forall i :: 0 <= i < |left| ==> IsBlank(left[i])) && (forall i :: 0 <= i < |right| ==> IsBlank(right[i]))
    ensures 0x0D !in name && 0x0D !in left && 0x0D !in value && 0x0D !in right
  {
    forall i | 0 <= i < |name| ensures name[i] != 0x0D {
      assert IsTokenByte(name[i]);
    }
    forall i | 0 <= i < |value| ensures value[i] != 0x0D {
      assert !IsControl(value[i]);
    }
  }

  lemma {:induction false} LinesUnbroken(lines: seq<Bytes>)
    requires ParseHeaderLines(lines).Ok?
    ensures Unbroken(lines)
  {
    hide ParseHeaderLine;
    if lines != [] {
      LineUnbroken(lines[0], ParseHeaderLine(lines[0]).value);
      LinesUnbroken(lines[1..]);
      assert forall i :: 0 < i < |lines| ==> lines[i] == lines[1..][i - 1];
    }
  }

  lemma StatusUnbroken(line: Bytes, status: nat)
    requires ParseStatusLine(line) == Ok(status)
    ensures line != [] && 0x0D !in line
  {
    StatusLineExactly(line, status);
    hide ParseStatusLine, DecimalValue;
    var version, code, reason :| IsStatusLine(line, version, code, reason, status);
    forall i | 0 <= i < |code| ensures code[i] != 0x0D {
      assert IsDigit(code[i]);
    }
    forall i | 0 <= i < |reason| ensures reason[i] != 0x0D {
      assert !IsControl(reason[i]);
    }
  }

  lemma ParsedUnbroken(h: Head)
    requires Parsed(h)
    ensures Unbroken([h.statusLine] + h.lines)
  {
    hide ParseStatusLine, ParseHeaderLines;
    StatusUnbroken(h.statusLine, h.status);
    LinesUnbroken(h.lines);
  }

  lemma TextWire(h: Head)
    requires Parsed(h)
    ensures |Text(h)| == |h.statusLine| + LinesWire(h.lines) + 4
    ensures SplitLines(JoinLines([h.statusLine] + h.lines)) == [h.statusLine] + h.lines
    ensures h.statusLine != []
  {
    hide ParseStatusLine, ParseHeaderLines, SplitLines;
    ParsedUnbroken(h);
    var all := [h.statusLine] + h.lines;
    assert all[0] == h.statusLine && all[1..] == h.lines;
    SplitJoined(all);
    SplitLinesWire(JoinLines(all));
  }

  lemma TextFound(h: Head, rest: Bytes, limit: nat)
    requires Standing(h) && h.wire <= limit + 4
    ensures ReadUntil(Text(h) + rest, BLANK, limit) == Found(h.wire)
    ensures h.wire >= 4 && SplitLines((Text(h) + rest)[..h.wire - 4]) == [h.statusLine] + h.lines
  {
    hide SplitLines, ParseStatusLine, ParseHeaderLines, HeadersSize, LinesWire, JoinLines, IndexOf, Unbroken;
    TextWire(h);
    ParsedUnbroken(h);
    var all, b := [h.statusLine] + h.lines, Text(h) + rest;
    EndOfHead(all, rest);
    assert b == JoinLines(all) + BLANK + rest;
    assert b[..|JoinLines(all)|] == JoinLines(all);
  }

  lemma FoundIsRead(h: Head, b: Bytes, limit: nat, maxHeader: int, maxWire: int)
    requires ReadUntil(b, BLANK, limit) == Found(h.wire) && 4 <= h.wire <= |b| && h.wire <= maxWire && h.accounted <= maxHeader
    requires SplitLines(b[..h.wire - 4]) == [h.statusLine] + h.lines
    requires Parsed(h) && 0 < |h.statusLine| <= 1024 && h.headerWire == h.wire - |h.statusLine| - 4
    requires h.accounted == Max(h.headerWire, HeadersSize(h.headers))
    ensures ReadHead(b, limit, maxHeader, maxWire) == Ok(h)
  {
    hide SplitLines, ParseStatusLine, ParseHeaderLines, HeadersSize, LinesWire, ReadUntil;
    var all := [h.statusLine] + h.lines;
    assert all[0] == h.statusLine && all[1..] == h.lines;
  }

  lemma TextIsRead(h: Head, rest: Bytes, limit: nat, maxHeader: int, maxWire: int)
    requires Standing(h) && h.wire <= limit + 4 && h.wire <= maxWire && h.accounted <= maxHeader
    ensures ReadHead(Text(h) + rest, limit, maxHeader, maxWire) == Ok(h)
  {
    hide SplitLines, ParseStatusLine, ParseHeaderLines, HeadersSize, LinesWire, ReadUntil, ReadHead, Text;
    TextWire(h);
    TextFound(h, rest, limit);
    FoundIsRead(h, Text(h) + rest, limit, maxHeader, maxWire);
  }

  lemma ReadStands(rest: Bytes, limit: nat, maxHeader: int, maxWire: int, h: Head)
    requires ReadHead(rest, limit, maxHeader, maxWire) == Ok(h)
    ensures Standing(h) && h.wire <= limit + 4 && h.wire <= maxWire && h.accounted <= maxHeader && Text(h) <= rest
  {
    HeadIsText(rest, limit, maxHeader, maxWire, h);
    TextWire(h);
    hide SplitLines, ParseStatusLine, ParseHeaderLines, HeadersSize, LinesWire, IndexOf, Text, JoinLines;
  }

  /** A head is read exactly where its text stands, if it fits the buffer and both budgets. */
  lemma HeadExactly(rest: Bytes, limit: nat, maxHeader: int, maxWire: int, h: Head)
    ensures ReadHead(rest, limit, maxHeader, maxWire) == Ok(h) <==>
      && Standing(h) && Text(h) <= rest
      && h.wire <= limit + 4 && h.wire <= maxWire && h.accounted <= maxHeader
  {
    hide ReadHead, Standing, Text;
    if ReadHead(rest, limit, maxHeader, maxWire) == Ok(h) {
      ReadStands(rest, limit, maxHeader, maxWire, h);
    }
    if Standing(h) && Text(h) <= rest && h.wire <= limit + 4 && h.wire <= maxWire && h.accounted <= maxHeader {
      TextIsRead(h, rest[|Text(h)|..], limit, maxHeader, maxWire);
      assert Text(h) + rest[|Text(h)|..] == rest;
    }
  }

  // ---------------------------------------------------------------- all heads

  function Accounted(heads: seq<Head>): nat {
    if heads == [] then 0 else heads[0].accounted + Accounted(heads[1..])
  }

  function HeaderWire(heads: seq<Head>): nat {
    if heads == [] then 0 else heads[0].headerWire + HeaderWire(heads[1..])
  }

  function HeadWire(heads: seq<Head>): nat {
    if heads == [] then 0 else heads[0].wire + HeadWire(heads[1..])
  }

  /** One head that may come before the final one. */
  predicate Precedes(h: Head, limit: nat) {
    Standing(h) && h.wire <= limit + 4 && 100 <= h.status < 200 && h.status != 101
  }

  /** The heads that come before the final one, and that one, stand at the front of `rest` and
      together keep to the budgets. */
  ghost predicate StandInFront(
    heads: seq<Head>, f: FinalHead, rest: Bytes, limit: nat, maxHeader: int, maxWire: int, atMost: nat)
  {
    && |heads| <= atMost && (forall i :: 0 <= i < |heads| ==> Precedes(heads[i], limit))
    && Standing(f.head) && f.head.wire <= limit + 4 && f.head.status >= 200
    && Texts(heads) + Text(f.head) <= rest
    && f.headerBytes == Accounted(heads) + f.head.accounted <= maxHeader
    && f.headerWire == HeaderWire(heads) + f.head.headerWire
    && f.wire == HeadWire(heads) + f.head.wire <= maxWire
  }

  lemma OnlyFinal(f: FinalHead, rest: Bytes, limit: nat, maxHeader: int, maxWire: int, atMost: nat)
    ensures StandInFront([], f, rest, limit, maxHeader, maxWire, atMost) <==>
      && Standing(f.head) && f.head.wire <= limit + 4 && f.head.status >= 200 && Text(f.head) <= rest
      && f.headerBytes == f.head.accounted <= maxHeader && f.headerWire == f.head.headerWire && f.wire == f.head.wire <= maxWire
  {
    hide Standing, Text;
    assert Texts([]) + Text(f.head) == Text(f.head);
  }

  /** The heads after the first one, and what is left to them. */
  lemma OneBefore(
      h: Head, later: seq<Head>, f: FinalHead, next: FinalHead, rest: Bytes, limit: nat, maxHeader: int, maxWire: int, atMost: nat)
    requires Precedes(h, limit) && Text(h) <= rest
    requires f == FinalHead(next.head, h.accounted + next.headerBytes, h.headerWire + next.headerWire, h.wire + next.wire)
    ensures StandInFront([h] + later, f, rest, limit, maxHeader, maxWire, atMost + 1)
      <==> StandInFront(later, next, rest[h.wire..], limit, maxHeader - h.accounted, maxWire - h.wire, atMost)
  {
    assert h.wire == |Text(h)|;
    hide Standing, Text;
    var all := [h] + later;
    assert all[0] == h && all[1..] == later;
    assert forall i :: 0 < i < |all| ==> all[i] == later[i - 1];
    assert forall i :: 0 <= i < |later| ==> later[i] == all[i + 1];
    Associative(Text(h), Texts(later), Text(f.head));
    PrefixAfter(Text(h), Texts(later) + Text(f.head), rest);
  }

  lemma PrefixAfter(a: Bytes, b: Bytes, s: Bytes)
    requires a <= s
    ensures a + b <= s <==> b <= s[|a|..]
  {
    assert a == s[..|a|];
    if b <= s[|a|..] {
      assert s == a + s[|a|..];
      assert s[|a|..] == b + s[|a|..][|b|..];
    }
    if a + b <= s {
      assert s == (a + b) + s[|a + b|..];
    }
  }

  lemma {:induction false} HeadsRead(
      heads: seq<Head>, f: FinalHead, rest: Bytes, limit: nat, maxHeader: int, maxWire: int, seen: nat)
    requires seen <= 8 && StandInFront(heads, f, rest, limit, maxHeader, maxWire, 8 - seen)
    ensures ReadFinalHead(rest, limit, maxHeader, maxWire, seen) == Ok(f)
    decreases |heads|
  {
    hide ReadFinalHead, Standing, Text, ReadHead;
    if heads == [] {
      OnlyFinal(f, rest, limit, maxHeader, maxWire, 8 - seen);
      HeadExactly(rest, limit, maxHeader, maxWire, f.head);
      FinalHeadStep(rest, limit, maxHeader, maxWire, seen, f.head);
    } else {
      var h, later := heads[0], heads[1..];
      HeadAndTail(heads);
      var next := FinalHead(
        f.head, f.headerBytes - h.accounted, f.headerWire - h.headerWire, f.wire - h.wire);
      FirstStands(heads, f, rest, limit, maxHeader, maxWire, 8 - seen);
      OneBefore(h, later, f, next, rest, limit, maxHeader, maxWire, 8 - seen - 1);
      HeadExactly(rest, limit, maxHeader, maxWire, h);
      FinalHeadStep(rest, limit, maxHeader, maxWire, seen, h);
      HeadsRead(later, next, rest[h.wire..], limit, maxHeader - h.accounted, maxWire - h.wire, seen + 1);
    }
  }

  lemma FirstStands(heads: seq<Head>, f: FinalHead, rest: Bytes, limit: nat, maxHeader: int, maxWire: int, atMost: nat)
    requires heads != [] && StandInFront(heads, f, rest, limit, maxHeader, maxWire, atMost)
    ensures Precedes(heads[0], limit) && heads[0].wire <= maxWire && heads[0].accounted <= maxHeader && Text(heads[0]) <= rest
    ensures heads[0].wire == |Text(heads[0])| <= |rest|
  {
    assert Precedes(heads[0], limit);
    assert heads[0].wire == |Text(heads[0])|;
    hide Standing, Text;
    var more := Texts(heads[1..]) + Text(f.head);
    Associative(Text(heads[0]), Texts(heads[1..]), Text(f.head));
    assert Text(heads[0]) + more <= rest;
  }

  lemma {:induction false} HeadsFound(rest: Bytes, limit: nat, maxHeader: int, maxWire: int, seen: nat, f: FinalHead)
    returns (heads: seq<Head>)
    requires seen <= 8 && ReadFinalHead(rest, limit, maxHeader, maxWire, seen) == Ok(f)
    ensures StandInFront(heads, f, rest, limit, maxHeader, maxWire, 8 - seen)
    decreases |rest|
  {
    hide ReadFinalHead, Text, ReadHead, Parsed;
    FinalHeadOpens(rest, limit, maxHeader, maxWire, seen);
    var h := ReadHead(rest, limit, maxHeader, maxWire).value;
    HeadExactly(rest, limit, maxHeader, maxWire, h);
    FinalHeadStep(rest, limit, maxHeader, maxWire, seen, h);
    HeadStatus(h);
    hide Standing;
    if h.status >= 200 {
      heads := [];
      OnlyFinal(f, rest, limit, maxHeader, maxWire, 8 - seen);
    } else {
      HeadTakes(rest, limit, maxHeader, maxWire, h);
      var next := ReadFinalHead(rest[h.wire..], limit, maxHeader - h.accounted, maxWire - h.wire, seen + 1).value;
      var later := HeadsFound(rest[h.wire..], limit, maxHeader - h.accounted, maxWire - h.wire, seen + 1, next);
      heads := [h] + later;
      OneBefore(h, later, f, next, rest, limit, maxHeader, maxWire, 8 - seen - 1);
    }
  }

  lemma HeadTakes(rest: Bytes, limit: nat, maxHeader: int, maxWire: int, h: Head)
    requires ReadHead(rest, limit, maxHeader, maxWire) == Ok(h)
    ensures 0 < h.wire <= |rest|
  {
  }

  /** The heads are read exactly when at most eight informational ones, none of which switches
      protocols, and a final one stand at the front of the stream and together keep to the
      budgets; the counters are theirs. */
  lemma HeadsExactly(rest: Bytes, limit: nat, maxHeader: int, maxWire: int, f: FinalHead)
    ensures ReadFinalHead(rest, limit, maxHeader, maxWire, 0) == Ok(f) <==>
      exists heads :: StandInFront(heads, f, rest, limit, maxHeader, maxWire, 8)
  {
    hide ReadFinalHead, StandInFront;
    if ReadFinalHead(rest, limit, maxHeader, maxWire, 0) == Ok(f) {
      var heads := HeadsFound(rest, limit, maxHeader, maxWire, 0, f);
    }
    forall heads | StandInFront(heads, f, rest, limit, maxHeader, maxWire, 8)
      ensures ReadFinalHead(rest, limit, maxHeader, maxWire, 0) == Ok(f)
    {
      HeadsRead(heads, f, rest, limit, maxHeader, maxWire, 0);
    }
  }
}
