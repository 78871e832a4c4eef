/** The chunked coding as a language (section 7.1 of RFC 9112): what is written, in any legal
    spelling of the sizes, is what the reader returns, and nothing else is accepted. */
module HttpChunks {
  import opened Basics
  import opened Utf8
  import opened HttpSyntax
  import opened HttpFraming
  import opened HttpEvidence

  datatype Chunk = Chunk(spelling: Bytes, data: Bytes)

  /** A size line: hexadecimal digits of either case, any leading zeros, at most 16 that count,
      and no more than the line reader takes. */
  predicate Spells(spelling: Bytes, n: nat) {
    spelling != [] && |spelling| + 2 <= 4096 && AllHex(spelling) && HexValue(spelling) == n && HexLength(n) <= 16
  }

  predicate Legal(chunks: seq<Chunk>) {
    forall i :: 0 <= i < |chunks| ==> chunks[i].data != [] && Spells(chunks[i].spelling, |chunks[i].data|)
  }

  function Data(chunks: seq<Chunk>): Bytes {
    if chunks == [] then [] else chunks[0].data + Data(chunks[1..])
  }

  /** The chunks, the last-chunk line `last`, then whatever follows. */
  function Written(chunks: seq<Chunk>, last: Bytes, tail: Bytes): Bytes {
    if chunks == [] then last + CRLF + tail
    else chunks[0].spelling + CRLF + (chunks[0].data + CRLF + Written(chunks[1..], last, tail))
  }

  function Wire(chunks: seq<Chunk>, last: Bytes): nat {
    if chunks == [] then |last| + 2
    else |chunks[0].spelling| + 2 + |chunks[0].data| + 2 + Wire(chunks[1..], last)
  }

  // ---------------------------------------------------------------- size lines

  /** A size line is accepted exactly when it spells a size. */
  lemma SpellsExactly(line: Bytes, n: nat)
    requires |line| + 2 <= 4096
    ensures ChunkSize(line) == Ok(n) <==> Spells(line, n)
  {
    if line != [] && AllHex(line) {
      NoSemicolon(line);
      SignificantValue(line);
      var s := Significant(line);
      SpellingLength(s);
      assert HexLength(0) == 1;
    }
  }

  lemma NoSemicolon(line: Bytes)
    requires AllHex(line)
    ensures 0x3B !in line && 0x0D !in line
  {
  }

  /** A line without a carriage return is read up to its end. */
  lemma LineAhead(line: Bytes, more: Bytes, limit: nat, maximum: int)
    requires 0x0D !in line && |line| <= limit && |line| + 2 <= maximum
    ensures ReadLine(line + CRLF + more, limit, maximum) == Ok(line)
  {
    var b := line + CRLF + more;
    IndexOfIsFirst(b, CRLF);
    var i := IndexOf(b, CRLF);
    assert Occurs<Byte>(b, CRLF, |line|) by {
      assert b[|line|..|line| + 2] == CRLF;
    }
    forall k | 0 <= k < |line| ensures !Occurs<Byte>(b, CRLF, k) {
      assert b[k] == line[k] && line[k] in line;
      OccurrenceStarts(b, CRLF, k);
    }
    assert b[..|line|] == line;
  }

  // ---------------------------------------------------------------- both directions

  lemma WrittenParts(chunks: seq<Chunk>, last: Bytes, tail: Bytes)
    requires chunks != []
    ensures var b, c := Written(chunks, last, tail), chunks[0];
      var rest := b[|c.spelling| + 2..];
      && |c.spelling| + 2 + |c.data| + 2 <= |b|
      && rest[..|c.data|] == c.data && rest[|c.data|..|c.data| + 2] == CRLF
      && rest[|c.data| + 2..] == Written(chunks[1..], last, tail)
  {
    var c, more := chunks[0], Written(chunks[1..], last, tail);
    var b := Written(chunks, last, tail);
    var rest := c.data + CRLF + more;
    assert b[|c.spelling| + 2..] == rest;
    assert rest[..|c.data|] == c.data;
    assert rest[|c.data|..|c.data| + 2] == CRLF;
    assert rest[|c.data| + 2..] == more;
  }

  lemma LastRound(rest: Bytes, limit: nat, maxBody: int, maxTrailer: int, maxWire: int, body: Bytes, wire: nat, line: Bytes, t: Trailers)
    requires ReadLine(rest, limit, 4096) == Ok(line) && ChunkSize(line) == Ok(0)
    requires wire + |line| + 2 <= maxWire
    requires ReadTrailers(rest[|line| + 2..], limit, maxTrailer, maxWire - (wire + |line| + 2), 0, 0, 0) == Ok(t)
    ensures ReadChunked(rest, limit, maxBody, maxTrailer, maxWire, body, wire) == Ok(Chunked(body, wire + |line| + 2, t))
  {
    hide ReadLine, ChunkSize, ReadTrailers;
  }

  lemma NextRound(rest: Bytes, limit: nat, maxBody: int, maxTrailer: int, maxWire: int, body: Bytes, wire: nat, line: Bytes, size: nat)
    requires ReadLine(rest, limit, 4096) == Ok(line) && ChunkSize(line) == Ok(size) && size > 0
    requires |body| + size <= maxBody && wire + |line| + 2 + size + 2 <= maxWire
    requires |line| + 2 + size + 2 <= |rest|
    requires rest[|line| + 2..][size..size + 2] == CRLF
    ensures var rest1 := rest[|line| + 2..];
      ReadChunked(rest, limit, maxBody, maxTrailer, maxWire, body, wire)
      == ReadChunked(rest1[size + 2..], limit, maxBody, maxTrailer, maxWire, body + rest1[..size], wire + |line| + 2 + size + 2)
  {
    hide ReadLine, ChunkSize, ReadTrailers;
    var rest1 := rest[|line| + 2..];
    assert rest1[..size + 2][size..] == rest1[size..size + 2];
    assert rest1[..size + 2][..size] == rest1[..size];
  }

  /** The chunks read back as the concatenated data, whatever follows them. */
  lemma {:induction false} ChunksReadBack(
      chunks: seq<Chunk>, last: Bytes, tail: Bytes,
      limit: nat, maxBody: int, maxTrailer: int, maxWire: int, body: Bytes, wire: nat, t: Trailers)
    requires Legal(chunks) && Spells(last, 0) && limit >= 4096
    requires |body| + |Data(chunks)| <= maxBody && wire + Wire(chunks, last) <= maxWire
    requires ReadTrailers(tail, limit, maxTrailer, maxWire - (wire + Wire(chunks, last)), 0, 0, 0) == Ok(t)
    ensures ReadChunked(Written(chunks, last, tail), limit, maxBody, maxTrailer, maxWire, body, wire)
         == Ok(Chunked(body + Data(chunks), wire + Wire(chunks, last), t))
    decreases |chunks|
  {
    hide ReadLine, ChunkSize, ReadTrailers, ReadChunked, AllHex, HexValue;
    var b := Written(chunks, last, tail);
    if chunks == [] {
      NoSemicolon(last);
      LineAhead(last, tail, limit, 4096);
      SpellsExactly(last, 0);
      assert b[|last| + 2..] == tail;
      LastRound(b, limit, maxBody, maxTrailer, maxWire, body, wire, last, t);
      assert body + Data(chunks) == body;
    } else {
      var c := chunks[0];
      NoSemicolon(c.spelling);
      LineAhead(c.spelling, c.data + CRLF + Written(chunks[1..], last, tail), limit, 4096);
      SpellsExactly(c.spelling, |c.data|);
      WrittenParts(chunks, last, tail);
      NextRound(b, limit, maxBody, maxTrailer, maxWire, body, wire, c.spelling, |c.data|);
      assert body + Data(chunks) == (body + c.data) + Data(chunks[1..]);
      ChunksReadBack(chunks[1..], last, tail, limit, maxBody, maxTrailer, maxWire,
        body + c.data, wire + |c.spelling| + 2 + |c.data| + 2, t);
    }
  }

  /** Conversely, what the reader accepts starts with legal chunks. */
  lemma {:induction false} ChunksWereWritten(
      rest: Bytes, limit: nat, maxBody: int, maxTrailer: int, maxWire: int, body: Bytes, wire: nat)
    returns (chunks: seq<Chunk>, last: Bytes, tail: Bytes)
    requires ReadChunked(rest, limit, maxBody, maxTrailer, maxWire, body, wire).Ok?
    ensures var c := ReadChunked(rest, limit, maxBody, maxTrailer, maxWire, body, wire).value;
      && Legal(chunks) && Spells(last, 0) && rest == Written(chunks, last, tail)
      && c.body == body + Data(chunks) && c.wire == wire + Wire(chunks, last)
      && ReadTrailers(tail, limit, maxTrailer, maxWire - c.wire, 0, 0, 0) == Ok(c.trailers)
    decreases |rest|
  {
    hide ReadLine, ChunkSize, ReadTrailers, ReadChunked, AllHex, HexValue;
    ChunkedRound(rest, limit, maxBody, maxTrailer, maxWire, body, wire);
    var line := ReadLine(rest, limit, 4096).value;
    var size, rest1 := ChunkSize(line).value, rest[|line| + 2..];
    SpellsExactly(line, size);
    LineEnds(rest, limit, 4096);
    assert rest == line + CRLF + rest1;
    if size == 0 {
      chunks, last, tail := [], line, rest1;
      assert body + Data(chunks) == body;
    } else {
      var chunk := Chunk(line, rest1[..size]);
      assert rest1 == chunk.data + CRLF + rest1[size + 2..];
      var more;
      more, last, tail := ChunksWereWritten(
        rest1[size + 2..], limit, maxBody, maxTrailer, maxWire, body + rest1[..size], wire + |line| + 2 + size + 2);
      chunks := [chunk] + more;
      assert chunks[1..] == more;
      assert body + Data(chunks) == (body + chunk.data) + Data(more);
    }
  }

  lemma LineEnds(rest: Bytes, limit: nat, maximum: int)
    requires ReadLine(rest, limit, maximum).Ok?
    ensures var n := |ReadLine(rest, limit, maximum).value|;
      n + 2 <= |rest| && rest[n..n + 2] == CRLF && n + 2 <= maximum && n <= limit
  {
    IndexOfIsFirst(rest, CRLF);
  }

  // ---------------------------------------------------------------- trailers

  /** Field lines, the empty line that ends them, then whatever follows. */
  function TrailerText(lines: seq<Bytes>, more: Bytes): Bytes {
    if lines == [] then CRLF + more else lines[0] + CRLF + TrailerText(lines[1..], more)
  }

  /** The lines are fields and within the budgets, of which some is spent already. */
  predicate TrailersFit(lines: seq<Bytes>, limit: nat, maximum: int, maxWire: int, logical: nat, headerWire: nat, wire: nat) {
    && (forall i :: 0 <= i < |lines| ==> |lines[i]| <= limit)
    && ParseHeaderLines(lines).Ok?
    && logical + HeadersSize(ParseHeaderLines(lines).value) <= maximum
    && headerWire + LinesWire(lines) <= maximum
    && wire + LinesWire(lines) + 2 <= maxWire
  }

  function TrailersOf(lines: seq<Bytes>, logical: nat, headerWire: nat, wire: nat): Trailers
    requires ParseHeaderLines(lines).Ok?
  {
    Trailers(Max(logical + HeadersSize(ParseHeaderLines(lines).value), headerWire + LinesWire(lines)),
      headerWire + LinesWire(lines), wire + LinesWire(lines) + 2)
  }

  /** Fields are counted one by one. */
  lemma TrailersSplit(lines: seq<Bytes>)
    requires lines != []
    ensures LinesWire(lines) == |lines[0]| + 2 + LinesWire(lines[1..])
    ensures ParseHeaderLines(lines).Ok? <==> ParseHeaderLines([lines[0]]).Ok? && ParseHeaderLines(lines[1..]).Ok?
    ensures ParseHeaderLines(lines).Ok? ==>
      HeadersSize(ParseHeaderLines(lines).value)
        == HeadersSize(ParseHeaderLines([lines[0]]).value) + HeadersSize(ParseHeaderLines(lines[1..]).value)
  {
    hide ParseHeaderLine, Utf8Length;
    var first := ParseHeaderLine(lines[0]);
    var one: seq<Bytes> := [lines[0]];
    assert one[1..] == [];
    assert ParseHeaderLines([]) == Ok([]);
    if first.Ok? {
      assert [first.value] + [] == [first.value];
      assert [first.value][1..] == [];
      assert HeadersSize([]) == 0;
      if ParseHeaderLines(lines[1..]).Ok? {
        var all := ParseHeaderLines(lines).value;
        assert all[0] == first.value && all[1..] == ParseHeaderLines(lines[1..]).value;
      }
    }
  }

  lemma {:induction false} StripLeftKeeps(b: Bytes, x: Byte)
    requires x in b && !IsBlank(x)
    ensures x in StripLeft(b, IsBlank)
  {
    if IsBlank(b[0]) {
      StripLeftKeeps(b[1..], x);
    }
  }

  lemma {:induction false} StripRightKeeps(b: Bytes, x: Byte)
    requires x in b && !IsBlank(x)
    ensures x in StripRight(b, IsBlank)
  {
    if IsBlank(b[|b| - 1]) {
      StripRightKeeps(b[..|b| - 1], x);
    }
  }

  lemma StripKeepsReturn(b: Bytes)
    ensures 0x0D in b ==> 0x0D in Strip(b, IsBlank)
  {
    if 0x0D in b {
      StripLeftKeeps(b, 0x0D);
      StripRightKeeps(StripLeft(b, IsBlank), 0x0D);
    }
  }

  lemma CleanHasNoReturn(b: Bytes)
    requires !HasControl(b)
    ensures 0x0D !in b
  {
    forall k | 0 <= k < |b| ensures b[k] != 0x0D {
      assert !IsControl(b[k]);
    }
  }

  /** A field line has no carriage return: a name is a token and a value has no controls. */
  lemma FieldHasNoReturn(line: Bytes)
    requires ParseHeaderLine(line).Ok?
    ensures line != [] && 0x0D !in line
  {
    hide Strip, Utf8Length, IndexOf, HasControl;
    var i := IndexOf(line, [0x3A]);
    IndexOfByte(line, 0x3A);
    ColonAt(line, i);
    var name, rest := line[..i], line[i + 1..];
    assert line == name + [0x3A] + rest;
    TokenHasNoReturn(name);
    StripKeepsReturn(rest);
    CleanHasNoReturn(Strip(rest, IsBlank));
  }

  lemma ColonAt(line: Bytes, i: nat)
    requires i == IndexOf(line, [0x3A]) && i < |line|
    ensures line[i] == 0x3A
  {
    hide IndexOf;
    IndexOfIsFirst(line, [0x3A]);
    assert line[i..i + 1][0] == line[i];
  }

  lemma TokenHasNoReturn(b: Bytes)
    requires IsToken(b)
    ensures 0x0D !in b
  {
  }

  lemma TrailersEnd(rest: Bytes, limit: nat, maximum: int, maxWire: int, logical: nat, headerWire: nat, wire: nat)
    requires ReadLine(rest, limit, maximum + 2) == Ok([]) && wire + 2 <= maxWire
    ensures ReadTrailers(rest, limit, maximum, maxWire, logical, headerWire, wire)
      == Ok(Trailers(Max(logical, headerWire), headerWire, wire + 2))
  {
    hide ReadLine;
  }

  lemma TrailersGoOn(
      rest: Bytes, limit: nat, maximum: int, maxWire: int, logical: nat, headerWire: nat, wire: nat, line: Bytes)
    requires ReadLine(rest, limit, maximum + 2) == Ok(line) && line != [] && wire + |line| + 2 <= maxWire
    requires ParseHeaderLines([line]).Ok? && logical + HeadersSize(ParseHeaderLines([line]).value) <= maximum
    requires headerWire + |line| + 2 <= maximum
    ensures |line| + 2 <= |rest|
    ensures ReadTrailers(rest, limit, maximum, maxWire, logical, headerWire, wire)
      == ReadTrailers(rest[|line| + 2..], limit, maximum, maxWire,
        logical + HeadersSize(ParseHeaderLines([line]).value), headerWire + |line| + 2, wire + |line| + 2)
  {
    hide ReadLine, ParseHeaderLines, HeadersSize;
  }

  lemma {:induction false} TrailersReadBack(
      lines: seq<Bytes>, more: Bytes, limit: nat, maximum: int, maxWire: int, logical: nat, headerWire: nat, wire: nat)
    requires 0 <= maximum && TrailersFit(lines, limit, maximum, maxWire, logical, headerWire, wire)
    ensures ReadTrailers(TrailerText(lines, more), limit, maximum, maxWire, logical, headerWire, wire)
      == Ok(TrailersOf(lines, logical, headerWire, wire))
    decreases |lines|
  {
    hide ReadLine, ReadTrailers, ParseHeaderLine, HeadersSize, LinesWire, ParseHeaderLines;
    var b := TrailerText(lines, more);
    if lines == [] {
      assert b == [] + CRLF + more;
      LineAhead([], more, limit, maximum + 2);
      NoLines();
      TrailersEnd(b, limit, maximum, maxWire, logical, headerWire, wire);
    } else {
      var line := lines[0];
      TrailersSplit(lines);
      FirstParses(lines);
      FieldHasNoReturn(line);
      LineAhead(line, TrailerText(lines[1..], more), limit, maximum + 2);
      TrailersGoOn(b, limit, maximum, maxWire, logical, headerWire, wire, line);
      assert b[|line| + 2..] == TrailerText(lines[1..], more);
      var logical1 := logical + HeadersSize(ParseHeaderLines([line]).value);
      TrailersReadBack(lines[1..], more, limit, maximum, maxWire, logical1, headerWire + |line| + 2, wire + |line| + 2);
    }
  }

  lemma NoLines()
    ensures LinesWire([]) == 0 && ParseHeaderLines([]) == Ok([]) && HeadersSize([]) == 0
  {
  }

  lemma FirstParses(lines: seq<Bytes>)
    requires lines != [] && ParseHeaderLines([lines[0]]).Ok?
    ensures ParseHeaderLine(lines[0]).Ok?
  {
  }

  lemma {:induction false} TrailersWereWritten(
      rest: Bytes, limit: nat, maximum: int, maxWire: int, logical: nat, headerWire: nat, wire: nat)
    returns (lines: seq<Bytes>, more: Bytes)
    requires ReadTrailers(rest, limit, maximum, maxWire, logical, headerWire, wire).Ok?
    requires Max(logical, headerWire) <= maximum
    ensures TrailersFit(lines, limit, maximum, maxWire, logical, headerWire, wire)
    ensures rest == TrailerText(lines, more)
    ensures ReadTrailers(rest, limit, maximum, maxWire, logical, headerWire, wire)
      == Ok(TrailersOf(lines, logical, headerWire, wire))
    decreases |rest|
  {
    hide ReadLine, ReadTrailers, ParseHeaderLine, HeadersSize, LinesWire, ParseHeaderLines;
    TrailersRound(rest, limit, maximum, maxWire, logical, headerWire, wire);
    var line := ReadLine(rest, limit, maximum + 2).value;
    LineEnds(rest, limit, maximum + 2);
    var rest1 := rest[|line| + 2..];
    assert rest == line + CRLF + rest1;
    if line == [] {
      lines, more := [], rest1;
      NoLines();
    } else {
      var logical1 := logical + HeadersSize(ParseHeaderLines([line]).value);
      var others;
      others, more := TrailersWereWritten(rest1, limit, maximum, maxWire, logical1, headerWire + |line| + 2, wire + |line| + 2);
      lines := [line] + others;
      assert lines[1..] == others;
      assert forall i :: 0 < i < |lines| ==> lines[i] == others[i - 1];
      TrailersSplit(lines);
    }
  }

  // ---------------------------------------------------------------- the whole coding

  /** Chunks, last chunk and trailer lines that are legal and within what is left of the budgets. */
  predicate Fits(
      chunks: seq<Chunk>, last: Bytes, lines: seq<Bytes>, limit: nat, maxBody: int, maxTrailer: int, maxWire: int,
      body: Bytes, wire: nat)
  {
    && Legal(chunks) && Spells(last, 0)
    && |body| + |Data(chunks)| <= maxBody
    && TrailersFit(lines, limit, maxTrailer, maxWire - (wire + Wire(chunks, last)), 0, 0, 0)
  }

  /** Everything written legally, within the budgets, reads back: the data of the chunks, and
      the counters of chunks and trailers. */
  lemma WrittenReadsBack(
      chunks: seq<Chunk>, last: Bytes, lines: seq<Bytes>, more: Bytes,
      limit: nat, maxBody: int, maxTrailer: int, maxWire: int, body: Bytes, wire: nat)
    requires limit >= 4096 && 0 <= maxTrailer
    requires Fits(chunks, last, lines, limit, maxBody, maxTrailer, maxWire, body, wire)
    ensures ReadChunked(Written(chunks, last, TrailerText(lines, more)), limit, maxBody, maxTrailer, maxWire, body, wire)
         == Ok(Chunked(body + Data(chunks), wire + Wire(chunks, last), TrailersOf(lines, 0, 0, 0)))
  {
    hide ReadChunked, ReadTrailers, ParseHeaderLines, HeadersSize, LinesWire, Written, TrailerText, Legal, Spells;
    var left := maxWire - (wire + Wire(chunks, last));
    TrailersReadBack(lines, more, limit, maxTrailer, left, 0, 0, 0);
    ChunksReadBack(chunks, last, TrailerText(lines, more), limit, maxBody, maxTrailer, maxWire, body, wire,
      TrailersOf(lines, 0, 0, 0));
  }

  /** Conversely, whatever the reader accepts is such a text: these are its chunks, its last
      chunk, its trailers and what follows. */
  lemma ReadWasWritten(
      rest: Bytes, limit: nat, maxBody: int, maxTrailer: int, maxWire: int, body: Bytes, wire: nat)
    returns (chunks: seq<Chunk>, last: Bytes, lines: seq<Bytes>, more: Bytes)
    requires ReadChunked(rest, limit, maxBody, maxTrailer, maxWire, body, wire).Ok?
    requires |body| <= maxBody && 0 <= maxTrailer
    ensures rest == Written(chunks, last, TrailerText(lines, more))
    ensures Fits(chunks, last, lines, limit, maxBody, maxTrailer, maxWire, body, wire)
    ensures ReadChunked(rest, limit, maxBody, maxTrailer, maxWire, body, wire)
         == Ok(Chunked(body + Data(chunks), wire + Wire(chunks, last), TrailersOf(lines, 0, 0, 0)))
  {
    hide ReadChunked, ReadTrailers, ParseHeaderLines, HeadersSize, LinesWire, Written, TrailerText, Legal, Spells, ChunkedLaw;
    var tail;
    chunks, last, tail := ChunksWereWritten(rest, limit, maxBody, maxTrailer, maxWire, body, wire);
    var c := ReadChunked(rest, limit, maxBody, maxTrailer, maxWire, body, wire).value;
    lines, more := TrailersWereWritten(tail, limit, maxTrailer, maxWire - c.wire, 0, 0, 0);
    DataWithin(rest, limit, maxBody, maxTrailer, maxWire, body, wire, c);
  }

  /** So the texts that are accepted are exactly these. */
  lemma AcceptedExactly(rest: Bytes, limit: nat, maxBody: int, maxTrailer: int, maxWire: int, body: Bytes, wire: nat)
    requires limit >= 4096 && |body| <= maxBody && 0 <= maxTrailer
    ensures ReadChunked(rest, limit, maxBody, maxTrailer, maxWire, body, wire).Ok?
      <==> exists chunks, last, lines, more ::
             && Fits(chunks, last, lines, limit, maxBody, maxTrailer, maxWire, body, wire)
             && rest == Written(chunks, last, TrailerText(lines, more))
  {
    hide ReadChunked, Fits, Written, TrailerText;
    if ReadChunked(rest, limit, maxBody, maxTrailer, maxWire, body, wire).Ok? {
      var chunks, last, lines, more := ReadWasWritten(rest, limit, maxBody, maxTrailer, maxWire, body, wire);
    }
    if chunks, last, lines, more :|
      && Fits(chunks, last, lines, limit, maxBody, maxTrailer, maxWire, body, wire)
      && rest == Written(chunks, last, TrailerText(lines, more))
    {
      WrittenReadsBack(chunks, last, lines, more, limit, maxBody, maxTrailer, maxWire, body, wire);
    }
  }

  lemma DataWithin(
      rest: Bytes, limit: nat, maxBody: int, maxTrailer: int, maxWire: int, body: Bytes, wire: nat, c: Chunked)
    requires ReadChunked(rest, limit, maxBody, maxTrailer, maxWire, body, wire) == Ok(c)
    requires |body| <= maxBody && 0 <= maxTrailer
    ensures |c.body| <= maxBody
  {
    hide ReadChunked;
    ChunkedFacts(rest, limit, maxBody, maxTrailer, maxWire, body, wire);
  }

  // ---------------------------------------------------------------- the least chunking

  /** The digits that print a size. */
  function HexText(n: nat): (b: Bytes)
    ensures |b| == HexLength(n) && AllHex(b) && HexValue(b) == n
    decreases n
  {
    var digit: Byte := if n % 16 < 10 then 0x30 + n % 16 else 0x61 + n % 16 - 10;
    if n < 16 then
      assert [digit][..0] == [];
      [digit]
    else
      var front := HexText(n / 16);
      assert (front + [digit])[..|front|] == front;
      front + [digit]
  }

  /** Some chunking takes no more than the least wire that the response constructor asks for, so a
      larger minimum would refuse a legal response. */
  lemma LeastIsTaken(body: Bytes) returns (chunks: seq<Chunk>, last: Bytes)
    requires HexLength(|body|) <= 16
    ensures Legal(chunks) && Spells(last, 0) && Data(chunks) == body
    ensures Wire(chunks, last) == LeastChunkedWire(|body|)
  {
    last := [0x30];
    assert last[..0] == [];
    if body == [] {
      chunks := [];
    } else {
      var one := Chunk(HexText(|body|), body);
      chunks := [one];
      assert chunks[1..] == [];
      assert Wire([], last) == 3;
      assert Data([]) == [] && body + [] == body;
    }
  }
}
