/** Accounting laws of the response reader: what it counts is what it consumed, its limits
    hold, and exactly when the response constructor accepts the evidence it collected. */
module HttpEvidence {
  import opened Basics
  import opened HttpSyntax
  import opened HttpFraming

  // ---------------------------------------------------------------- heads

  ghost predicate HeadLaw(h: Head, maxHeader: int, maxWire: int) {
    && 100 <= h.status <= 599
    && ParseHeaderLines(h.lines) == Ok(h.headers)
    && h.headerWire == LinesWire(h.lines)
    && h.headerWire + 17 <= h.wire <= maxWire
    && h.headerWire <= h.accounted <= maxHeader && HeadersSize(h.headers) <= h.accounted
  }

  lemma HeadFacts(rest: Bytes, limit: nat, maxHeader: int, maxWire: int)
    requires ReadHead(rest, limit, maxHeader, maxWire).Ok?
    ensures HeadLaw(ReadHead(rest, limit, maxHeader, maxWire).value, maxHeader, maxWire)
  {
    hide ReadUntil, SplitLines, LinesWire, ParseStatusLine, ParseHeaderLines, HeadersSize;
    var text := rest[..ReadUntil(rest, BLANK, limit).n - 4];
    SplitLinesWire(text);
    FirstLineWire(SplitLines(text));
  }

  lemma FirstLineWire(lines: seq<Bytes>)
    requires lines != []
    ensures LinesWire(lines) == |lines[0]| + 2 + LinesWire(lines[1..])
  {
  }

  ghost predicate FinalHeadLaw(f: FinalHead, maxHeader: int, maxWire: int) {
    && 200 <= f.head.status <= 599
    && ParseHeaderLines(f.head.lines) == Ok(f.head.headers)
    && f.head.headerWire == LinesWire(f.head.lines)
    && f.head.headerWire <= f.headerWire <= f.headerBytes <= maxHeader
    && HeadersSize(f.head.headers) <= f.headerBytes
    && f.headerWire + 17 <= f.wire <= maxWire
  }

  lemma LastHead(h: Head, maxHeader: int, maxWire: int)
    requires HeadLaw(h, maxHeader, maxWire) && h.status >= 200
    ensures FinalHeadLaw(FinalHead(h, h.accounted, h.headerWire, h.wire), maxHeader, maxWire)
  {
  }

  lemma EarlierHead(h: Head, f: FinalHead, maxHeader: int, maxWire: int)
    requires HeadLaw(h, maxHeader, maxWire)
    requires FinalHeadLaw(f, maxHeader - h.accounted, maxWire - h.wire)
    ensures FinalHeadLaw(
      FinalHead(f.head, h.accounted + f.headerBytes, h.headerWire + f.headerWire, h.wire + f.wire), maxHeader, maxWire)
  {
  }

  /** One round of the informational loop. */
  lemma FinalHeadRound(rest: Bytes, limit: nat, maxHeader: int, maxWire: int, informational: nat)
    requires ReadFinalHead(rest, limit, maxHeader, maxWire, informational).Ok?
    ensures ReadHead(rest, limit, maxHeader, maxWire).Ok?
    ensures var r, h := ReadFinalHead(rest, limit, maxHeader, maxWire, informational), ReadHead(rest, limit, maxHeader, maxWire).value;
      && h.wire <= |rest|
      && (h.status >= 200 ==> r == Ok(FinalHead(h, h.accounted, h.headerWire, h.wire)))
      && (h.status < 200 ==>
            var next := ReadFinalHead(rest[h.wire..], limit, maxHeader - h.accounted, maxWire - h.wire, informational + 1);
            && next.Ok?
            && r == Ok(FinalHead(next.value.head, h.accounted + next.value.headerBytes,
                                 h.headerWire + next.value.headerWire, h.wire + next.value.wire)))
  {
    hide ReadHead;
  }

  lemma {:induction false} FinalHeadFacts(rest: Bytes, limit: nat, maxHeader: int, maxWire: int, informational: nat, r: FinalHead)
    requires ReadFinalHead(rest, limit, maxHeader, maxWire, informational) == Ok(r)
    ensures FinalHeadLaw(r, maxHeader, maxWire)
    decreases |rest|
  {
    hide ReadHead, ReadFinalHead, FinalHeadLaw, HeadLaw;
    FinalHeadRound(rest, limit, maxHeader, maxWire, informational);
    HeadFacts(rest, limit, maxHeader, maxWire);
    var h := ReadHead(rest, limit, maxHeader, maxWire).value;
    if h.status < 200 {
      var next := ReadFinalHead(rest[h.wire..], limit, maxHeader - h.accounted, maxWire - h.wire, informational + 1).value;
      FinalHeadFacts(rest[h.wire..], limit, maxHeader - h.accounted, maxWire - h.wire, informational + 1, next);
      EarlierHead(h, next, maxHeader, maxWire);
    } else {
      LastHead(h, maxHeader, maxWire);
    }
  }

  // ---------------------------------------------------------------- trailers and chunks

  ghost predicate TrailersLaw(t: Trailers, maximum: int, maxWire: int) {
    t.headerWire <= t.headerBytes <= maximum && t.wire == t.headerWire + 2 <= maxWire
  }

  lemma TrailersRound(rest: Bytes, limit: nat, maximum: int, maxWire: int, logical: nat, headerWire: nat, wire: nat)
    requires ReadTrailers(rest, limit, maximum, maxWire, logical, headerWire, wire).Ok?
    ensures ReadLine(rest, limit, maximum + 2).Ok?
    ensures var r := ReadTrailers(rest, limit, maximum, maxWire, logical, headerWire, wire);
      var line := ReadLine(rest, limit, maximum + 2).value;
      && |line| + 2 <= |rest|
      && (line == [] ==> r == Ok(Trailers(Max(logical, headerWire), headerWire, wire + 2)) && wire + 2 <= maxWire)
      && (line != [] ==>
            && ParseHeaderLines([line]).Ok?
            && var logical1 := logical + HeadersSize(ParseHeaderLines([line]).value);
            && Max(logical1, headerWire + |line| + 2) <= maximum
            && r == ReadTrailers(rest[|line| + 2..], limit, maximum, maxWire, logical1, headerWire + |line| + 2, wire + |line| + 2))
  {
    hide ReadLine, ParseHeaderLines, HeadersSize;
  }

  lemma {:induction false} TrailersFacts(rest: Bytes, limit: nat, maximum: int, maxWire: int, logical: nat, headerWire: nat, wire: nat)
    requires ReadTrailers(rest, limit, maximum, maxWire, logical, headerWire, wire).Ok?
    requires Max(logical, headerWire) <= maximum && wire == headerWire
    ensures TrailersLaw(ReadTrailers(rest, limit, maximum, maxWire, logical, headerWire, wire).value, maximum, maxWire)
    decreases |rest|
  {
    hide ReadLine, ReadTrailers, ParseHeaderLines, HeadersSize;
    TrailersRound(rest, limit, maximum, maxWire, logical, headerWire, wire);
    var line := ReadLine(rest, limit, maximum + 2).value;
    if line != [] {
      var logical1 := logical + HeadersSize(ParseHeaderLines([line]).value);
      TrailersFacts(rest[|line| + 2..], limit, maximum, maxWire, logical1, headerWire + |line| + 2, wire + |line| + 2);
    }
  }

  lemma ChunkSizeFacts(line: Bytes)
    requires ChunkSize(line).Ok?
    ensures AllHex(line) && line != [] && ChunkSize(line).value == HexValue(line)
    ensures HexLength(ChunkSize(line).value) <= |line|
  {
    SignificantValue(line);
    SpellingLength(line);
  }

  /** One more chunk never makes the framing cheaper than one chunk for everything. */
  lemma ChunkCost(size: nat, more: nat)
    requires size > 0
    ensures LeastChunkedWire(size + more) <= HexLength(size) + 2 + size + 2 + LeastChunkedWire(more)
  {
    if more > 0 {
      HexLengthOfSum(size, more, 0);
    }
  }

  /** One round of the chunk loop. */
  lemma ChunkedRound(rest: Bytes, limit: nat, maxBody: int, maxTrailer: int, maxWire: int, body: Bytes, wire: nat)
    requires ReadChunked(rest, limit, maxBody, maxTrailer, maxWire, body, wire).Ok?
    ensures ReadLine(rest, limit, 4096).Ok?
    ensures var r := ReadChunked(rest, limit, maxBody, maxTrailer, maxWire, body, wire);
      var line := ReadLine(rest, limit, 4096).value;
      && |line| + 2 <= |rest| && ChunkSize(line).Ok?
      && var wire1, rest1, size := wire + |line| + 2, rest[|line| + 2..], ChunkSize(line).value;
      && wire1 <= maxWire
      && (size == 0 ==>
            && ReadTrailers(rest1, limit, maxTrailer, maxWire - wire1, 0, 0, 0).Ok?
            && r == Ok(Chunked(body, wire1, ReadTrailers(rest1, limit, maxTrailer, maxWire - wire1, 0, 0, 0).value)))
      && (size > 0 ==>
            && size <= maxBody - |body| && size + 2 <= maxWire - wire1 && size + 2 <= |rest1|
            && rest1[size..size + 2] == CRLF
            && r == ReadChunked(rest1[size + 2..], limit, maxBody, maxTrailer, maxWire, body + rest1[..size], wire1 + size + 2))
  {
    hide ReadLine, ReadTrailers, ChunkSize, ReadUntil, ReadChunked;
    RoundHasLine(rest, limit, maxBody, maxTrailer, maxWire, body, wire);
    var line := ReadLine(rest, limit, 4096).value;
    ChunkedLine(rest, limit, maxBody, maxTrailer, maxWire, body, wire, line);
    ChunkedSize(rest, limit, maxBody, maxTrailer, maxWire, body, wire, line);
    SizeSlices(rest[|line| + 2..], ChunkSize(line).value);
  }

  lemma RoundHasLine(rest: Bytes, limit: nat, maxBody: int, maxTrailer: int, maxWire: int, body: Bytes, wire: nat)
    requires ReadChunked(rest, limit, maxBody, maxTrailer, maxWire, body, wire).Ok?
    ensures ReadLine(rest, limit, 4096).Ok?
  {
    hide ReadLine, ReadTrailers, ChunkSize, ReadExactly;
  }

  lemma SizeSlices(rest1: Bytes, size: nat)
    ensures size + 2 <= |rest1| ==>
      rest1[..size + 2][size..] == rest1[size..size + 2] && rest1[..size + 2][..size] == rest1[..size]
  {
  }

  ghost predicate ChunkedLaw(c: Chunked, maxBody: int, maxTrailer: int, maxWire: int, had: nat, wire: nat) {
    && had <= |c.body| <= maxBody
    && c.wire >= wire + LeastChunkedWire(|c.body| - had)
    && c.wire + c.trailers.wire <= maxWire
    && TrailersLaw(c.trailers, maxTrailer, maxWire)
  }

  lemma ChunkedLawStep(c: Chunked, maxBody: int, maxTrailer: int, maxWire: int, had: nat, wire: nat, size: nat, line: nat)
    requires size > 0 && HexLength(size) <= line
    requires ChunkedLaw(c, maxBody, maxTrailer, maxWire, had + size, wire + line + 2 + size + 2)
    ensures ChunkedLaw(c, maxBody, maxTrailer, maxWire, had, wire)
  {
    ChunkCost(size, |c.body| - had - size);
  }

  lemma {:induction false} ChunkedFacts(rest: Bytes, limit: nat, maxBody: int, maxTrailer: int, maxWire: int, body: Bytes, wire: nat)
    requires ReadChunked(rest, limit, maxBody, maxTrailer, maxWire, body, wire).Ok?
    requires 0 <= maxTrailer && |body| <= maxBody
    ensures ChunkedLaw(
      ReadChunked(rest, limit, maxBody, maxTrailer, maxWire, body, wire).value, maxBody, maxTrailer, maxWire, |body|, wire)
    decreases |rest|
  {
    hide ReadLine, ReadTrailers, ReadChunked, ChunkSize;
    ChunkedRound(rest, limit, maxBody, maxTrailer, maxWire, body, wire);
    var line := ReadLine(rest, limit, 4096).value;
    var wire1, rest1, size := wire + |line| + 2, rest[|line| + 2..], ChunkSize(line).value;
    ChunkSizeFacts(line);
    if size == 0 {
      TrailersFacts(rest1, limit, maxTrailer, maxWire - wire1, 0, 0, 0);
    } else {
      ChunkedFacts(rest1[size + 2..], limit, maxBody, maxTrailer, maxWire, body + rest1[..size], wire1 + size + 2);
      ChunkedLawStep(ReadChunked(rest, limit, maxBody, maxTrailer, maxWire, body, wire).value,
        maxBody, maxTrailer, maxWire, |body|, wire, size, |line|);
    }
  }

  // ---------------------------------------------------------------- bodies

  ghost predicate BodyLaw(b: Body, maxBody: int, maxTrailer: int, maxWire: int) {
    && |b.body| <= maxBody && |b.body| <= b.bodyWire
    && b.bodyWire + b.trailers.wire <= maxWire
    && b.trailers.headerWire <= b.trailers.headerBytes <= maxTrailer
    && b.trailers.headerWire <= b.trailers.wire
    && (b.omitted ==> b.body == [] && b.bodyWire == 0)
  }

  /** What a body reading knows about the framing fields. */
  ghost predicate FramingLaw(b: Body, headers: seq<Header>) {
    var codings, lengths := Values(headers, TRANSFER_ENCODING), Values(headers, CONTENT_LENGTH);
    && |codings| <= 1 && |lengths| <= 1 && (codings == [] || lengths == [])
    && (!b.omitted && codings != [] ==>
          && IsChunked(codings[0])
          && b.bodyWire >= LeastChunkedWire(|b.body|)
          && b.trailers.wire == b.trailers.headerWire + 2)
  }

  lemma ChunkedBody(c: Chunked, headers: seq<Header>, maxBody: int, maxTrailer: int, maxWire: int)
    requires ChunkedLaw(c, maxBody, maxTrailer, maxWire, 0, 0)
    requires |Values(headers, TRANSFER_ENCODING)| == 1 && Values(headers, CONTENT_LENGTH) == []
    requires IsChunked(Values(headers, TRANSFER_ENCODING)[0])
    ensures var b := Body(c.body, c.wire, c.trailers, false);
      BodyLaw(b, maxBody, maxTrailer, maxWire) && FramingLaw(b, headers)
  {
  }

  /** Which of the four ways a body is read. */
  lemma BodyCases(rest: Bytes, limit: nat, req: Request, status: nat, headers: seq<Header>, maxTrailer: int, maxWire: int)
    requires ReadBody(rest, limit, req, status, headers, maxTrailer, maxWire).Ok?
    ensures var b := ReadBody(rest, limit, req, status, headers, maxTrailer, maxWire).value;
      var codings, lengths := Values(headers, TRANSFER_ENCODING), Values(headers, CONTENT_LENGTH);
      && |codings| <= 1 && |lengths| <= 1 && (codings == [] || lengths == [])
      && (|| b == Body([], 0, NO_TRAILERS, true)
          || (codings == [] && b.trailers == NO_TRAILERS && !b.omitted
              && |b.body| == b.bodyWire <= req.maxBodyBytes && b.bodyWire <= maxWire)
          || (codings != [] && IsChunked(codings[0])
              && var c := ReadChunked(rest, limit, req.maxBodyBytes, maxTrailer, maxWire, [], 0);
              c.Ok? && b == Body(c.value.body, c.value.wire, c.value.trailers, false)))
  {
  }

  lemma BodyFacts(rest: Bytes, limit: nat, req: Request, status: nat, headers: seq<Header>, maxTrailer: int, maxWire: int)
    requires ReadBody(rest, limit, req, status, headers, maxTrailer, maxWire).Ok?
    requires 0 <= maxTrailer && 0 <= maxWire
    ensures var b := ReadBody(rest, limit, req, status, headers, maxTrailer, maxWire).value;
      BodyLaw(b, req.maxBodyBytes, maxTrailer, maxWire) && FramingLaw(b, headers)
  {
    BodyCases(rest, limit, req, status, headers, maxTrailer, maxWire);
    var b := ReadBody(rest, limit, req, status, headers, maxTrailer, maxWire).value;
    if !b.omitted && Values(headers, TRANSFER_ENCODING) != [] {
      ChunkedFacts(rest, limit, req.maxBodyBytes, maxTrailer, maxWire, [], 0);
      ChunkedBody(ReadChunked(rest, limit, req.maxBodyBytes, maxTrailer, maxWire, [], 0).value, headers,
        req.maxBodyBytes, maxTrailer, maxWire);
    }
  }

  // ---------------------------------------------------------------- the laws

  /** Conservation: the counters of a reading add up, stay within the three budgets, and their
      sum is at most what there was to read. */
  lemma AccountingIsConserved(data: Bytes, req: Request)
    requires ReadResponse(data, req).Ok?
    ensures var r := ReadResponse(data, req).value.Fields();
      && r.wire == r.metadataWire + r.bodyWire
      && r.wire <= |data| && r.wire <= req.maxWireBytes
      && r.headerBytes <= req.maxHeaderBytes
      && |r.body| <= req.maxBodyBytes && |r.body| <= r.bodyWire
  {
    ReadingFacts(data, req);
  }

  lemma ReadingFacts(data: Bytes, req: Request)
    requires ReadResponse(data, req).Ok?
    ensures var e := ReadResponse(data, req).value;
      && FinalHeadLaw(e.final, req.maxHeaderBytes, req.maxWireBytes)
      && BodyLaw(e.body, req.maxBodyBytes, req.maxHeaderBytes - e.final.headerBytes, req.maxWireBytes - e.final.wire)
      && FramingLaw(e.body, e.final.head.headers)
      && e.final.wire + e.body.trailers.wire + e.body.bodyWire <= |data|
  {
    hide ReadFinalHead, ReadBody, ReadResponse, BodyLaw, FramingLaw;
    var e := ReadResponse(data, req).value;
    ReadingParts(data, req, e);
    FinalHeadFacts(data, ReaderLimit(req), req.maxHeaderBytes, req.maxWireBytes, 0, e.final);
    BodyFacts(data[e.final.wire..], ReaderLimit(req), req, e.final.head.status, e.final.head.headers,
      req.maxHeaderBytes - e.final.headerBytes, req.maxWireBytes - e.final.wire);
  }

  lemma ReadingParts(data: Bytes, req: Request, e: Evidence)
    requires ReadResponse(data, req) == Ok(e)
    ensures ReadFinalHead(data, ReaderLimit(req), req.maxHeaderBytes, req.maxWireBytes, 0) == Ok(e.final)
    ensures e.final.wire <= |data|
    ensures ReadBody(data[e.final.wire..], ReaderLimit(req), req, e.final.head.status, e.final.head.headers,
        req.maxHeaderBytes - e.final.headerBytes, req.maxWireBytes - e.final.wire) == Ok(e.body)
    ensures e.final.wire + e.body.trailers.wire + e.body.bodyWire <= |data|
  {
    hide *;
    HeadPart(data, req, e);
    RestPart(data[e.final.wire..], req, e);
  }

  lemma HeadPart(data: Bytes, req: Request, e: Evidence)
    requires ReadResponse(data, req) == Ok(e)
    ensures ReadFinalHead(data, ReaderLimit(req), req.maxHeaderBytes, req.maxWireBytes, 0) == Ok(e.final)
    ensures e.final.wire <= |data| && ReadRest(data[e.final.wire..], req, e.final) == Ok(e)
  {
    hide ReadFinalHead, ReadRest, ReaderLimit;
  }

  lemma RestPart(rest: Bytes, req: Request, e: Evidence)
    requires ReadRest(rest, req, e.final) == Ok(e)
    ensures ReadBody(rest, ReaderLimit(req), req, e.final.head.status, e.final.head.headers,
        req.maxHeaderBytes - e.final.headerBytes, req.maxWireBytes - e.final.wire) == Ok(e.body)
    ensures e.body.trailers.wire + e.body.bodyWire <= |rest|
  {
    hide ReadBody, ReaderLimit;
  }

  /** The blanks around the final head's values, with the field lines of informational heads
      and trailers, make up for the space that the constructor assumes after every colon. */
  predicate PaddingSuffices(e: Evidence) {
    |e.final.head.lines|
      <= TotalPadding(e.final.head.lines) + (e.final.headerWire - e.final.head.headerWire) + e.body.trailers.headerWire
  }

  /** A transfer coding on a response whose body is omitted is also plain "chunked". */
  predicate OmittedCodingIsChunked(e: Evidence) {
    var codings := Values(e.final.head.headers, TRANSFER_ENCODING);
    e.body.omitted && codings != [] ==> IsChunked(codings[0])
  }

  /** The constructor accepts the reader's own evidence exactly when both hold; every other
      check it makes, the chunk framing minimum included, is always met. */
  lemma ConstructorAcceptsExactly(data: Bytes, req: Request)
    requires ReadResponse(data, req).Ok?
    ensures var e := ReadResponse(data, req).value;
      Object(e.Fields()) == None <==> PaddingSuffices(e) && OmittedCodingIsChunked(e)
  {
    hide ReadResponse, ObjectToFraming, FramingLaw, ParseHeaderLines;
    ReadingFacts(data, req);
    var e := ReadResponse(data, req).value;
    WireSizeOfLines(e.final.head.lines);
    HeaderObjection(e);
    FramingObjection(e);
  }

  lemma HeaderObjection(e: Evidence)
    requires ParseHeaderLines(e.final.head.lines) == Ok(e.final.head.headers)
    requires e.final.head.headerWire == LinesWire(e.final.head.lines)
    ensures e.Fields().headerWire >= HeadersWireSize(e.final.head.headers) <==> PaddingSuffices(e)
  {
    WireSizeOfLines(e.final.head.lines);
  }

  lemma FramingObjection(e: Evidence)
    requires e.final.headerWire + 17 <= e.final.wire
    requires FramingLaw(e.body, e.final.head.headers)
    ensures ObjectToFraming(e.Fields()) == None <==> OmittedCodingIsChunked(e)
  {
  }

  lemma {:induction false} BlanksAddUp(lines: seq<Bytes>)
    requires forall i :: 0 <= i < |lines| ==> Padding(lines[i]) >= 1
    ensures TotalPadding(lines) >= |lines|
  {
    if lines != [] {
      BlanksAddUp(lines[1..]);
    }
  }

  /** With a blank after each colon, as servers write it, the constructor can only object to the
      transfer coding of an omitted body. */
  lemma OneBlankEachSuffices(data: Bytes, req: Request)
    requires ReadResponse(data, req).Ok?
    requires var lines := ReadResponse(data, req).value.final.head.lines;
      forall i :: 0 <= i < |lines| ==> Padding(lines[i]) >= 1
    ensures var e := ReadResponse(data, req).value;
      PaddingSuffices(e) && (Object(e.Fields()) == None <==> OmittedCodingIsChunked(e))
  {
    hide ReadResponse, TotalPadding, BodyLaw, FramingLaw, Object, OmittedCodingIsChunked, Padding;
    ReadingFacts(data, req);
    BlanksAddUp(ReadResponse(data, req).value.final.head.lines);
    ConstructorAcceptsExactly(data, req);
  }
}
