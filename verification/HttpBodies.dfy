/** What a received response says, in terms of the bytes that came: where its head is, whether
    it has a body, and which bytes the body is (sections 2, 5 and 6 of RFC 9112). */
module HttpBodies {
  import opened Basics
  import opened HttpSyntax
  import opened HttpFraming
  import opened HttpEvidence
  import opened HttpTransport
  import opened HttpChunks
  import opened HttpObjections
  import opened Ordering
  import Utf8

  // ---------------------------------------------------------------- the body

  /** No body to HEAD, for three statuses, and for a redirect that says where to go. */
  predicate HasNoBody(m: Method, status: nat, headers: seq<Header>) {
    || m == HEAD || status in {204, 205, 304}
    || (status in {301, 302, 303, 307, 308} && Values(headers, LOCATION) != [] && Values(headers, LOCATION)[0] != [])
  }

  /** The bytes as announced, or all there are. */
  predicate PlainBody(rest: Bytes, headers: seq<Header>, body: Bytes) {
    var lengths := Values(headers, CONTENT_LENGTH);
    && body <= rest
    && (lengths == [] ==> body == rest)
    && (lengths != [] ==> ParseContentLength(lengths[0]) == Ok(|body|))
  }

  /** The data of the chunks that are written there. */
  ghost predicate ChunkedText(rest: Bytes, body: Bytes, wire: nat, trailerWire: nat) {
    exists chunks, last, lines, more ::
      && Legal(chunks) && Spells(last, 0) && ParseHeaderLines(lines).Ok?
      && rest == Written(chunks, last, TrailerText(lines, more))
      && body == Data(chunks) && wire == Wire(chunks, last) && trailerWire == LinesWire(lines) + 2
  }

  /** Which of the four ways a body was read, and what came of it. */
  lemma BodyShape(rest: Bytes, limit: nat, req: Request, status: nat, headers: seq<Header>, maxTrailer: int, maxWire: int)
    requires ReadBody(rest, limit, req, status, headers, maxTrailer, maxWire).Ok?
    ensures var b, codings := ReadBody(rest, limit, req, status, headers, maxTrailer, maxWire).value, Values(headers, TRANSFER_ENCODING);
      && (b.omitted <==> HasNoBody(req.method_, status, headers))
      && (b.omitted ==> b == Body([], 0, NO_TRAILERS, true))
      && (!b.omitted && codings == [] ==>
            b.trailers == NO_TRAILERS && b.bodyWire == |b.body| && PlainBody(rest, headers, b.body))
      && (!b.omitted && codings != [] ==>
            && codings == [codings[0]] && IsChunked(codings[0])
            && var c := ReadChunked(rest, limit, req.maxBodyBytes, maxTrailer, maxWire, [], 0);
            c.Ok? && b == Body(c.value.body, c.value.wire, c.value.trailers, false))
  {
    hide Values, ReadChunked, ParseContentLength, IsChunked;
  }

  lemma ChunksRead(rest: Bytes, limit: nat, maxBody: nat, maxTrailer: int, maxWire: int)
    requires ReadChunked(rest, limit, maxBody, maxTrailer, maxWire, [], 0).Ok? && 0 <= maxTrailer
    ensures var c := ReadChunked(rest, limit, maxBody, maxTrailer, maxWire, [], 0).value;
      ChunkedText(rest, c.body, c.wire, c.trailers.wire)
  {
    hide ReadChunked, Written, TrailerText, Data, Wire, Legal, Spells, ParseHeaderLines, LinesWire, HeadersSize;
    var chunks, last, lines, more := ReadWasWritten(rest, limit, maxBody, maxTrailer, maxWire, [], 0);
    assert [] + Data(chunks) == Data(chunks);
  }

  /** Whether a response has a body, and which of the bytes after its head it is. */
  ghost predicate BodyComesFrom(rest: Bytes, head: nat, m: Method, r: HttpFraming.Response) {
    var codings := Values(r.headers, TRANSFER_ENCODING);
    && (r.omitted <==> HasNoBody(m, r.status, r.headers))
    && (r.omitted ==> r.body == [] && r.bodyWire == 0 && r.metadataWire == head)
    && (!r.omitted && codings == [] ==>
          r.metadataWire == head && r.bodyWire == |r.body| && PlainBody(rest, r.headers, r.body))
    && (!r.omitted && codings != [] ==>
          && IsChunked(codings[0]) && head <= r.metadataWire
          && ChunkedText(rest, r.body, r.bodyWire, r.metadataWire - head))
  }

  lemma BodyOfReading(rest: Bytes, req: Request, e: Evidence)
    requires e.final.headerBytes <= req.maxHeaderBytes
    requires ReadBody(rest, ReaderLimit(req), req, e.final.head.status, e.final.head.headers,
        req.maxHeaderBytes - e.final.headerBytes, req.maxWireBytes - e.final.wire) == Ok(e.body)
    ensures BodyComesFrom(rest, e.final.wire, req.method_, e.Fields())
  {
    hide ReadBody, ReadChunked, Values, HasNoBody, PlainBody, ChunkedText, IsChunked, ReaderLimit;
    var maxTrailer, maxWire := req.maxHeaderBytes - e.final.headerBytes, req.maxWireBytes - e.final.wire;
    BodyShape(rest, ReaderLimit(req), req, e.final.head.status, e.final.head.headers, maxTrailer, maxWire);
    if !e.body.omitted && Values(e.final.head.headers, TRANSFER_ENCODING) != [] {
      ChunksRead(rest, ReaderLimit(req), req.maxBodyBytes, maxTrailer, maxWire);
    }
  }

  lemma BodyIsWhatCame(data: Bytes, req: Request) returns (head: nat)
    requires Exchange(data, req).Received?
    ensures 0 < head <= |data| && BodyComesFrom(data[head..], head, req.method_, Exchange(data, req).response)
  {
    hide ReadResponse, ReadBody, Object, BodyComesFrom, FinalHeadLaw, BodyLaw, FramingLaw, ReaderLimit;
    var e := ReadResponse(data, req).value;
    ReadingFacts(data, req);
    ReadingParts(data, req, e);
    head := e.final.wire;
    HeadPositive(e, req);
    BodyOfReading(data[head..], req, e);
  }

  lemma HeadPositive(e: Evidence, req: Request)
    requires FinalHeadLaw(e.final, req.maxHeaderBytes, req.maxWireBytes)
    ensures e.final.wire > 0 && e.final.headerBytes <= req.maxHeaderBytes
  {
  }

  // ---------------------------------------------------------------- the heads

  /** The bytes of a head. */
  function Text(h: Head): Bytes {
    JoinLines([h.statusLine] + h.lines) + BLANK
  }

  function Texts(heads: seq<Head>): Bytes {
    if heads == [] then [] else Text(heads[0]) + Texts(heads[1..])
  }

  /** What a head says is parsed from its lines. */
  predicate Parsed(h: Head) {
    ParseStatusLine(h.statusLine) == Ok(h.status) && ParseHeaderLines(h.lines) == Ok(h.headers)
  }

  lemma {:induction false} JoinOfSplit(b: Bytes)
    ensures JoinLines(SplitLines(b)) == b
    decreases |b|
  {
    IndexFits(b, CRLF);
    IndexOfIsFirst(b, CRLF);
    var i := IndexOf(b, CRLF);
    if i < |b| {
      JoinOfSplit(b[i + 2..]);
      SplitUnfolds(b, i);
      assert b[i..i + 2] == CRLF;
      assert b == b[..i] + CRLF + b[i + 2..];
    }
  }

  lemma SplitUnfolds(b: Bytes, i: nat)
    requires i == IndexOf(b, CRLF) && i + 2 <= |b|
    ensures SplitLines(b) == [b[..i]] + SplitLines(b[i + 2..])
  {
    hide IndexOf;
  }

  lemma FoundAt(rest: Bytes, limit: nat, n: nat)
    requires ReadUntil(rest, BLANK, limit) == Found(n)
    ensures 4 <= n <= |rest| && n - 4 == IndexOf(rest, BLANK)
  {
    hide IndexOf;
  }

  lemma HeadParts(rest: Bytes, limit: nat, maxHeader: int, maxWire: int, h: Head)
    requires ReadHead(rest, limit, maxHeader, maxWire) == Ok(h)
    ensures ReadUntil(rest, BLANK, limit) == Found(h.wire) && 4 <= h.wire <= |rest|
    ensures SplitLines(rest[..h.wire - 4]) == [h.statusLine] + h.lines && Parsed(h)
  {
    hide ReadUntil, SplitLines, LinesWire, ParseStatusLine, ParseHeaderLines, HeadersSize;
    FirstAndRest(SplitLines(rest[..ReadUntil(rest, BLANK, limit).n - 4]));
  }

  lemma FirstAndRest(lines: seq<Bytes>)
    requires lines != []
    ensures lines == [lines[0]] + lines[1..]
  {
  }

  lemma HeadIsText(rest: Bytes, limit: nat, maxHeader: int, maxWire: int, h: Head)
    requires ReadHead(rest, limit, maxHeader, maxWire) == Ok(h)
    ensures h.wire <= |rest| && rest[..h.wire] == Text(h) && Parsed(h)
  {
    hide ReadHead, ReadUntil, Parsed, SplitLines, JoinLines, IndexOf;
    HeadParts(rest, limit, maxHeader, maxWire, h);
    FoundAt(rest, limit, h.wire);
    JoinOfSplit(rest[..h.wire - 4]);
    IndexOfIsFirst(rest, BLANK);
    BlankAt(rest, h.wire - 4);
  }

  lemma BlankAt(b: Bytes, i: nat)
    requires i < |b| && Utf8.Occurs<Utf8.Byte>(b, BLANK, i)
    ensures i + 4 <= |b| && b[..i + 4] == b[..i] + BLANK
  {
    assert b[i..i + 4] == BLANK;
  }

  /** Heads before the final one: informational, but none that switches protocols. */
  predicate Informational(heads: seq<Head>) {
    |heads| <= 8 && forall i :: 0 <= i < |heads| ==> Parsed(heads[i]) && 100 <= heads[i].status < 200 && heads[i].status != 101
  }

  lemma {:induction false} HeadsAreText(rest: Bytes, limit: nat, maxHeader: int, maxWire: int, seen: nat, f: FinalHead)
    returns (heads: seq<Head>)
    requires ReadFinalHead(rest, limit, maxHeader, maxWire, seen) == Ok(f) && seen <= 8
    ensures seen + |heads| <= 8 && Informational(heads) && Parsed(f.head) && f.head.status >= 200
    ensures f.wire <= |rest| && rest[..f.wire] == Texts(heads) + Text(f.head)
    decreases |rest|
  {
    hide ReadHead, ReadFinalHead, Parsed, Text;
    FinalHeadOpens(rest, limit, maxHeader, maxWire, seen);
    var h := ReadHead(rest, limit, maxHeader, maxWire).value;
    FinalHeadStep(rest, limit, maxHeader, maxWire, seen, h);
    HeadIsText(rest, limit, maxHeader, maxWire, h);
    HeadStatus(h);
    if h.status >= 200 {
      heads := [];
      assert [] + Text(h) == Text(h);
    } else {
      var next := ReadFinalHead(rest[h.wire..], limit, maxHeader - h.accounted, maxWire - h.wire, seen + 1).value;
      var later := HeadsAreText(rest[h.wire..], limit, maxHeader - h.accounted, maxWire - h.wire, seen + 1, next);
      heads := [h] + later;
      assert heads[1..] == later;
      PrefixInTwo(rest, h.wire, next.wire);
      Associative(Text(h), Texts(later), Text(f.head));
    }
  }

  lemma HeadStatus(h: Head)
    requires Parsed(h)
    ensures 100 <= h.status <= 599
  {
    hide ParseHeaderLines;
  }

  lemma PrefixInTwo(b: Bytes, i: nat, j: nat)
    requires i <= |b| && j <= |b[i..]|
    ensures b[..i + j] == b[..i] + b[i..][..j]
  {
  }

  lemma FinalHeadOpens(rest: Bytes, limit: nat, maxHeader: int, maxWire: int, seen: nat)
    requires ReadFinalHead(rest, limit, maxHeader, maxWire, seen).Ok?
    ensures ReadHead(rest, limit, maxHeader, maxWire).Ok?
  {
    hide ReadHead;
  }

  /** What a received response says of its status and fields is parsed from the last of the
      heads that came, and its body is what followed. */
  lemma ResponseIsWhatCame(data: Bytes, req: Request) returns (heads: seq<Head>, last: Head)
    requires Exchange(data, req).Received?
    ensures var r, text := Exchange(data, req).response, Texts(heads) + Text(last);
      && Informational(heads) && Parsed(last) && text <= data
      && r.status == last.status >= 200 && r.headers == last.headers
      && BodyComesFrom(data[|text|..], |text|, req.method_, r)
  {
    hide ReadResponse, ReadBody, Object, BodyComesFrom, FinalHeadLaw, BodyLaw, FramingLaw, ReaderLimit, Parsed, Text, Texts, ReadFinalHead;
    var e := ReadResponse(data, req).value;
    ReadingFacts(data, req);
    ReadingParts(data, req, e);
    HeadPositive(e, req);
    BodyOfReading(data[e.final.wire..], req, e);
    heads := HeadsAreText(data, ReaderLimit(req), req.maxHeaderBytes, req.maxWireBytes, 0, e.final);
    last := e.final.head;
  }

  /** "HTTP/1.0" or "HTTP/1.1", a code of three digits from 100 to 599, and a reason. */
  predicate IsStatusLine(line: Bytes, version: Bytes, code: Bytes, reason: Bytes, status: nat) {
    && line == version + [0x20] + (code + [0x20] + reason)
    && version in {[0x48, 0x54, 0x54, 0x50, 0x2F, 0x31, 0x2E, 0x30], VERSION}
    && |code| == 3 && AllDigits(code) && DecimalValue(code) == status && 100 <= status <= 599 && !HasControl(reason)
  }

  /** A status line is accepted exactly in this form. */
  lemma StatusLineExactly(line: Bytes, status: nat)
    ensures ParseStatusLine(line) == Ok(status) <==> exists version, code, reason :: IsStatusLine(line, version, code, reason, status)
  {
    hide ParseStatusLine, IsStatusLine;
    if ParseStatusLine(line) == Ok(status) {
      StatusLineParts(line, status);
    }
    if version, code, reason :| IsStatusLine(line, version, code, reason, status) {
      StatusLineReads(line, version, code, reason, status);
    }
  }

  lemma StatusLineReads(line: Bytes, version: Bytes, code: Bytes, reason: Bytes, status: nat)
    requires IsStatusLine(line, version, code, reason, status)
    ensures ParseStatusLine(line) == Ok(status)
  {
    hide DecimalValue, HasControl, IndexOf;
    var rest := code + [0x20] + reason;
    assert forall k :: 0 <= k < 3 ==> IsDigit(code[k]);
    FirstSpace(line, 8);
    FirstSpace(rest, 3);
    assert line[..8] == version && line[9..] == rest;
    assert rest[..3] == code && rest[4..] == reason;
  }

  lemma ByteAt(b: Bytes, x: Utf8.Byte, i: nat)
    requires i < |b| && Utf8.Occurs<Utf8.Byte>(b, [x], i)
    ensures b == b[..i] + [x] + b[i + 1..]
  {
    assert b[i..i + 1] == [x];
  }

  lemma SplitAtByte(b: Bytes, x: Utf8.Byte)
    requires IndexOf(b, [x]) < |b|
    ensures var i := IndexOf(b, [x]); b == b[..i] + [x] + b[i + 1..]
  {
    hide IndexOf;
    IndexOfIsFirst(b, [x]);
    ByteAt(b, x, IndexOf(b, [x]));
  }

  lemma StatusLineParts(line: Bytes, status: nat)
    requires ParseStatusLine(line) == Ok(status)
    ensures exists version, code, reason :: IsStatusLine(line, version, code, reason, status)
  {
    hide IndexOf, DecimalValue, HasControl;
    var first := IndexOf(line, [0x20]);
    var rest := line[first + 1..];
    var second := IndexOf(rest, [0x20]);
    SplitAtByte(line, 0x20);
    SplitAtByte(rest, 0x20);
    assert IsStatusLine(line, line[..first], rest[..second], rest[second + 1..], status);
  }

  /** A field line is accepted exactly as a token, a colon and a value between blanks. */
  lemma FieldLineExactly(line: Bytes, h: Header)
    ensures ParseHeaderLine(line) == Ok(h) <==>
      exists rest ::
        && line == h.name + [0x3A] + rest && IsToken(h.name)
        && h.value == Strip(rest, IsBlank) && !HasControl(h.value) && Utf8Length(h.value) <= MAX_HEADER_VALUE_BYTES
  {
    hide HasControl, Utf8Length, Strip;
    if ParseHeaderLine(line) == Ok(h) {
      var i := IndexOf(line, [0x3A]);
      IndexOfByte(line, 0x3A);
      SplitAtByte(line, 0x3A);
    }
    if rest :|
      && line == h.name + [0x3A] + rest && IsToken(h.name)
      && h.value == Strip(rest, IsBlank) && !HasControl(h.value) && Utf8Length(h.value) <= MAX_HEADER_VALUE_BYTES
    {
      TokenStart(h.name);
      FieldLine(h.name, rest);
    }
  }

  lemma TokenStart(b: Bytes)
    requires IsToken(b)
    ensures b != [] && !IsBlank(b[0]) && 0x3A !in b
  {
    assert IsTokenByte(b[0]);
    forall k | 0 <= k < |b| ensures b[k] != 0x3A {
      assert IsTokenByte(b[k]);
    }
  }

  // ---------------------------------------------------------------- what is written is received

  /** At most one field of each kind that frames a body, and not a coding with a length. */
  predicate FramedOnce(headers: seq<Header>) {
    && |Values(headers, TRANSFER_ENCODING)| <= 1 && |Values(headers, CONTENT_LENGTH)| <= 1 && |Values(headers, LOCATION)| <= 1
    && (Values(headers, TRANSFER_ENCODING) == [] || Values(headers, CONTENT_LENGTH) == [])
  }

  lemma NoBodyReads(rest: Bytes, limit: nat, req: Request, status: nat, headers: seq<Header>, maxTrailer: int, maxWire: int)
    requires FramedOnce(headers) && HasNoBody(req.method_, status, headers)
    ensures ReadBody(rest, limit, req, status, headers, maxTrailer, maxWire) == Ok(Body([], 0, NO_TRAILERS, true))
  {
    hide Values, ReadChunked, ParseContentLength, IsChunked, ReadToEof;
  }

  lemma PlainReads(rest: Bytes, limit: nat, req: Request, status: nat, headers: seq<Header>, maxTrailer: int, maxWire: int, body: Bytes)
    requires FramedOnce(headers) && !HasNoBody(req.method_, status, headers) && Values(headers, TRANSFER_ENCODING) == []
    requires PlainBody(rest, headers, body) && |body| <= req.maxBodyBytes && |body| <= maxWire
    ensures ReadBody(rest, limit, req, status, headers, maxTrailer, maxWire) == Ok(Body(body, |body|, NO_TRAILERS, false))
  {
    hide Values, ReadChunked, ParseContentLength, IsChunked;
    assert rest[..|body|] == body;
  }

  lemma CodedReads(rest: Bytes, limit: nat, req: Request, status: nat, headers: seq<Header>, maxTrailer: int, maxWire: int, c: Chunked)
    requires FramedOnce(headers) && !HasNoBody(req.method_, status, headers)
    requires Values(headers, TRANSFER_ENCODING) != [] && IsChunked(Values(headers, TRANSFER_ENCODING)[0])
    requires ReadChunked(rest, limit, req.maxBodyBytes, maxTrailer, maxWire, [], 0) == Ok(c)
    ensures ReadBody(rest, limit, req, status, headers, maxTrailer, maxWire) == Ok(Body(c.body, c.wire, c.trailers, false))
  {
    hide Values, ReadChunked, ParseContentLength, IsChunked, ReadToEof;
  }

  /** The head of what is written, within the budgets, with a blank after every colon. */
  ghost predicate GoodHead(code: Bytes, lines: seq<Bytes>, headers: seq<Header>, req: Request) {
    && |code| == 3 && AllDigits(code) && 200 <= DecimalValue(code) <= 599
    && Unbroken(lines) && ParseHeaderLines(lines) == Ok(headers) && Admits(req, lines, headers)
    && FramedOnce(headers) && forall i :: 0 <= i < |lines| ==> Padding(lines[i]) >= 1
  }

  /** Once its body reads, such a response is received. */
  lemma ReceivedOnceRead(code: Bytes, lines: seq<Bytes>, headers: seq<Header>, rest: Bytes, req: Request, body: Body)
    requires GoodHead(code, lines, headers, req)
    requires var head := HeadOf(code, lines, headers);
      ReadBody(rest, ReaderLimit(req), req, DecimalValue(code), headers, req.maxHeaderBytes - head.accounted, req.maxWireBytes - head.wire)
        == Ok(body)
    requires body.omitted && Values(headers, TRANSFER_ENCODING) != [] ==> IsChunked(Values(headers, TRANSFER_ENCODING)[0])
    ensures var x := Exchange(HeadText(code, lines) + rest, req);
      && x.Received? && x.response.status == DecimalValue(code) && x.response.headers == headers
      && x.response.body == body.body && x.response.omitted == body.omitted
  {
    hide ReadResponse, ReadBody, Values, DecimalValue, Object, HeadText, Padding, Admits, ParseHeaderLines, IsChunked, HeadersSize, LinesWire,
      PaddingSuffices, FramedOnce, ReaderLimit;
    var head := HeadOf(code, lines, headers);
    var final := FinalHead(head, head.accounted, head.headerWire, head.wire);
    ReadingOfRest(code, lines, headers, rest, req);
    assert ReadRest(rest, req, final) == Ok(Evidence(final, body));
    OneBlankEachSuffices(HeadText(code, lines) + rest, req);
  }

  /** A head for which there is no body is received without one, whatever follows. */
  lemma BodylessIsReceived(code: Bytes, lines: seq<Bytes>, headers: seq<Header>, rest: Bytes, req: Request)
    requires GoodHead(code, lines, headers, req) && HasNoBody(req.method_, DecimalValue(code), headers)
    requires Values(headers, TRANSFER_ENCODING) != [] ==> IsChunked(Values(headers, TRANSFER_ENCODING)[0])
    ensures var x := Exchange(HeadText(code, lines) + rest, req);
      x.Received? && x.response.status == DecimalValue(code) && x.response.headers == headers && x.response.omitted && x.response.body == []
  {
    hide ReadBody, Values, DecimalValue, HasNoBody, IsChunked, Exchange, HeadText, Padding, HeadersSize, LinesWire, ReaderLimit, ParseHeaderLines, Admits,
      FramedOnce;
    var head := HeadOf(code, lines, headers);
    NoBodyReads(rest, ReaderLimit(req), req, DecimalValue(code), headers, req.maxHeaderBytes - head.accounted, req.maxWireBytes - head.wire);
    ReceivedOnceRead(code, lines, headers, rest, req, Body([], 0, NO_TRAILERS, true));
  }

  /** A body of announced length, or up to the end of the connection, is received as it came. */
  lemma PlainIsReceived(code: Bytes, lines: seq<Bytes>, headers: seq<Header>, rest: Bytes, req: Request, body: Bytes)
    requires GoodHead(code, lines, headers, req) && !HasNoBody(req.method_, DecimalValue(code), headers)
    requires Values(headers, TRANSFER_ENCODING) == [] && PlainBody(rest, headers, body)
    requires |body| <= req.maxBodyBytes && LinesWire(lines) + 17 + |body| <= req.maxWireBytes
    ensures var x := Exchange(HeadText(code, lines) + rest, req);
      && x.Received? && x.response.status == DecimalValue(code) && x.response.headers == headers
      && !x.response.omitted && x.response.body == body
  {
    hide ReadBody, Values, DecimalValue, HasNoBody, PlainBody, Exchange, HeadText, Padding, HeadersSize, LinesWire, ReaderLimit, ParseHeaderLines, Admits,
      FramedOnce, IsChunked;
    var head := HeadOf(code, lines, headers);
    PlainReads(rest, ReaderLimit(req), req, DecimalValue(code), headers,
      req.maxHeaderBytes - head.accounted, req.maxWireBytes - head.wire, body);
    ReceivedOnceRead(code, lines, headers, rest, req, Body(body, |body|, NO_TRAILERS, false));
  }

  /** A chunked body within the budgets is received as the data of its chunks. */
  lemma ChunkedIsReceived(
      code: Bytes, lines: seq<Bytes>, headers: seq<Header>, req: Request,
      chunks: seq<Chunk>, last: Bytes, trailers: seq<Bytes>, more: Bytes)
    requires GoodHead(code, lines, headers, req) && !HasNoBody(req.method_, DecimalValue(code), headers)
    requires Values(headers, TRANSFER_ENCODING) != [] && IsChunked(Values(headers, TRANSFER_ENCODING)[0])
    requires var head := HeadOf(code, lines, headers);
      Fits(chunks, last, trailers, ReaderLimit(req), req.maxBodyBytes, req.maxHeaderBytes - head.accounted, req.maxWireBytes - head.wire, [], 0)
    ensures var x := Exchange(HeadText(code, lines) + Written(chunks, last, TrailerText(trailers, more)), req);
      && x.Received? && x.response.status == DecimalValue(code) && x.response.headers == headers
      && !x.response.omitted && x.response.body == Data(chunks)
  {
    hide ReadBody, ReadChunked, Values, DecimalValue, HasNoBody, Exchange, HeadText, Padding, HeadersSize, LinesWire, ParseHeaderLines,
      FramedOnce, IsChunked, Fits, Written, TrailerText, Data, Wire, TrailersOf;
    var head, rest := HeadOf(code, lines, headers), Written(chunks, last, TrailerText(trailers, more));
    var maxTrailer, maxWire := req.maxHeaderBytes - head.accounted, req.maxWireBytes - head.wire;
    TrailersParse(chunks, last, trailers, ReaderLimit(req), req.maxBodyBytes, maxTrailer, maxWire);
    WrittenReadsBack(chunks, last, trailers, more, ReaderLimit(req), req.maxBodyBytes, maxTrailer, maxWire, [], 0);
    assert [] + Data(chunks) == Data(chunks);
    var c := Chunked(Data(chunks), Wire(chunks, last), TrailersOf(trailers, 0, 0, 0));
    CodedReads(rest, ReaderLimit(req), req, DecimalValue(code), headers, maxTrailer, maxWire, c);
    ReceivedOnceRead(code, lines, headers, rest, req, Body(c.body, c.wire, c.trailers, false));
  }

  lemma TrailersParse(chunks: seq<Chunk>, last: Bytes, trailers: seq<Bytes>, limit: nat, maxBody: int, maxTrailer: int, maxWire: int)
    requires Fits(chunks, last, trailers, limit, maxBody, maxTrailer, maxWire, [], 0)
    ensures ParseHeaderLines(trailers).Ok?
  {
    hide Legal, Spells, ParseHeaderLines;
  }

  // ---------------------------------------------------------------- blanks and lengths

  lemma {:induction false} StripLeftParts(b: Bytes, blank: Utf8.Byte -> bool) returns (left: Bytes)
    ensures b == left + StripLeft(b, blank) && forall i :: 0 <= i < |left| ==> blank(left[i])
    ensures StripLeft(b, blank) != [] ==> !blank(StripLeft(b, blank)[0])
  {
    left := [];
    if b != [] && blank(b[0]) {
      var more := StripLeftParts(b[1..], blank);
      left := [b[0]] + more;
    }
  }

  lemma {:induction false} StripRightParts(b: Bytes, blank: Utf8.Byte -> bool) returns (right: Bytes)
    ensures b == StripRight(b, blank) + right && forall i :: 0 <= i < |right| ==> blank(right[i])
    ensures StripRight(b, blank) != [] ==> !blank(StripRight(b, blank)[|StripRight(b, blank)| - 1])
  {
    right := [];
    if b != [] && blank(b[|b| - 1]) {
      var more := StripRightParts(b[..|b| - 1], blank);
      right := more + [b[|b| - 1]];
    }
  }

  /** Stripping drops blanks from both ends, and all of them. */
  lemma StripParts(b: Bytes, blank: Utf8.Byte -> bool) returns (left: Bytes, right: Bytes)
    ensures var v := Strip(b, blank);
      && b == left + v + right
      && (forall i :: 0 <= i < |left| ==> blank(left[i])) && (forall i :: 0 <= i < |right| ==> blank(right[i]))
      && (v != [] ==> !blank(v[0]) && !blank(v[|v| - 1]))
  {
    hide StripLeft, StripRight;
    left := StripLeftParts(b, blank);
    right := StripRightParts(StripLeft(b, blank), blank);
  }

  /** `n` in decimal digits. */
  function Decimal(n: nat): (b: Bytes)
    ensures b != []
  {
    if n < 10 then [0x30 + n] else Decimal(n / 10) + [0x30 + n % 10]
  }

  lemma {:induction false} DecimalReads(n: nat)
    ensures AllDigits(Decimal(n)) && DecimalValue(Decimal(n)) == n
  {
    var b := Decimal(n);
    if n < 10 {
      assert b[..0] == [];
    } else {
      DecimalReads(n / 10);
      assert b[..|b| - 1] == Decimal(n / 10);
      forall i | 0 <= i < |b| ensures IsDigit(b[i]) {
        if i < |b| - 1 {
          assert b[i] == Decimal(n / 10)[i];
        }
      }
    }
  }

  /** Two sequences of one length compare like what comes before their last elements, or, where
      that is the same, like those. */
  lemma {:induction false} LexLast(a: seq<int>, b: seq<int>, x: int, y: int)
    requires |a| == |b|
    ensures LexLess(a + [x], b + [y]) <==> LexLess(a, b) || (a == b && x < y)
  {
    if a == [] {
      assert [x][1..] == [] && [y][1..] == [];
      assert [] + [x] == [x] && [] + [y] == [y];
    } else {
      LexLast(a[1..], b[1..], x, y);
      assert (a + [x])[1..] == a[1..] + [x] && (b + [y])[1..] == b[1..] + [y];
      assert a == [a[0]] + a[1..] && b == [b[0]] + b[1..];
    }
  }

  /** Numbers of the same length are ordered as their digits are. */
  lemma {:induction false} DecimalOrder(a: Bytes, b: Bytes)
    requires |a| == |b| && AllDigits(a) && AllDigits(b)
    ensures LexLess(a, b) <==> DecimalValue(a) < DecimalValue(b)
    ensures a == b <==> DecimalValue(a) == DecimalValue(b)
  {
    if a != [] {
      var n := |a| - 1;
      assert IsDigit(a[n]) && IsDigit(b[n]);
      DecimalOrder(a[..n], b[..n]);
      assert a == a[..n] + [a[n]] && b == b[..n] + [b[n]];
      LexLast(a[..n], b[..n], a[n], b[n]);
    }
  }

  lemma DecimalMore(b: Bytes, d: Utf8.Byte)
    requires AllDigits(b) && IsDigit(d)
    ensures AllDigits(b + [d]) && DecimalValue(b + [d]) == 10 * DecimalValue(b) + (d - 0x30)
  {
    assert (b + [d])[..|b|] == b;
  }

  lemma {:induction false} PrefixValue(b: Bytes, n: nat)
    requires n < |b| && AllDigits(b)
    ensures AllDigits(b[..n]) && AllDigits(b[..n + 1])
    ensures DecimalValue(b[..n + 1]) == 10 * DecimalValue(b[..n]) + (b[n] - 0x30)
  {
    assert IsDigit(b[n]);
    assert b[..n + 1] == b[..n] + [b[n]];
    DecimalMore(b[..n], b[n]);
  }

  lemma HighDigits()
    ensures AllDigits(MAX_LENGTH) && DecimalValue(MAX_LENGTH[..10]) == 9223372036
  {
    var m := MAX_LENGTH;
    hide DecimalValue;
    assert m[..0] == [];
    NoDigits();
    PrefixValue(m, 0); PrefixValue(m, 1); PrefixValue(m, 2); PrefixValue(m, 3); PrefixValue(m, 4);
    PrefixValue(m, 5); PrefixValue(m, 6); PrefixValue(m, 7); PrefixValue(m, 8); PrefixValue(m, 9);
  }

  lemma NoDigits()
    ensures DecimalValue([]) == 0
  {
  }

  lemma LargestLength()
    ensures AllDigits(MAX_LENGTH) && DecimalValue(MAX_LENGTH) == 9223372036854775807
  {
    var m := MAX_LENGTH;
    hide DecimalValue;
    HighDigits();
    PrefixValue(m, 10); PrefixValue(m, 11); PrefixValue(m, 12); PrefixValue(m, 13); PrefixValue(m, 14);
    PrefixValue(m, 15); PrefixValue(m, 16); PrefixValue(m, 17); PrefixValue(m, 18);
    assert m[..19] == m;
  }

  /** A length is accepted exactly when it is written in at most 19 digits, leading zeros
      counted, and is at most 2 to the 63 less one. */
  lemma LengthExactly(value: Bytes, n: nat)
    ensures ParseContentLength(value) == Ok(n) <==>
      var digits := Strip(value, IsBlank);
      digits != [] && |digits| <= 19 && AllDigits(digits) && DecimalValue(digits) == n && n <= 9223372036854775807
  {
    hide DecimalValue, LexLess, Strip;
    var digits := Strip(value, IsBlank);
    LargestLength();
    if |digits| == 19 && AllDigits(digits) {
      DecimalOrder(MAX_LENGTH, digits);
    } else if |digits| < 19 && AllDigits(digits) {
      ShortIsSmall(digits);
    }
  }

  function Power(n: nat): nat {
    if n == 0 then 1 else 10 * Power(n - 1)
  }

  lemma {:induction false} BelowPower(b: Bytes)
    requires AllDigits(b)
    ensures DecimalValue(b) < Power(|b|)
  {
    if b != [] {
      assert IsDigit(b[|b| - 1]);
      BelowPower(b[..|b| - 1]);
    }
  }

  lemma {:induction false} PowerGrows(m: nat, n: nat)
    requires m <= n
    ensures Power(m) <= Power(n)
    decreases n
  {
    if m < n {
      PowerGrows(m, n - 1);
    }
  }

  lemma ShortIsSmall(b: Bytes)
    requires AllDigits(b) && |b| <= 18
    ensures DecimalValue(b) <= 9223372036854775807
  {
    BelowPower(b);
    PowerGrows(|b|, 18);
    Power18();
  }

  lemma Power18()
    ensures Power(18) == 1000000000000000000
  {
    assert Power(6) == 1000000;
    assert Power(12) == 1000000 * Power(6) by {
      assert Power(9) == 1000 * Power(6);
    }
    assert Power(15) == 1000 * Power(12);
    assert Power(18) == 1000 * Power(15);
  }
}
