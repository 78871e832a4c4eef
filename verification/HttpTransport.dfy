/** The transport's reading loops over one connection.  `StreamReader` stands for asyncio's
    reader on bytes that will arrive in pieces of any size; each method computes the function
    of `HttpFraming` with its name, and moves on by exactly the bytes it counts. */
module HttpTransport {
  import opened Basics
  import opened HttpSyntax
  import opened HttpFraming
  import HttpEvidence

  /** How reading one response ends: a transport error, evidence that the response constructor
      refuses, or a response. */
  datatype Outcome = Failed(error: Error) | Refused(objection: Objection) | Received(response: Response)

  /** What a connection that carries `data` yields. */
  function Exchange(data: Bytes, req: Request): Outcome {
    match ReadResponse(data, req)
    case Err(e) => Failed(e)
    case Ok(evidence) =>
      match Object(evidence.Fields())
      case Some(o) => Refused(o)
      case None => Received(evidence.Fields())
  }

  // ---------------------------------------------------------------- parsing

  lemma {:induction false} ParseAppend(done: seq<Bytes>, line: Bytes)
    ensures ParseHeaderLines(done + [line]) ==
      (match ParseHeaderLines(done)
       case Err(e) => Err(e)
       case Ok(hs) =>
         match ParseHeaderLine(line)
         case Err(e) => Err(e)
         case Ok(h) => Ok(hs + [h]))
  {
    hide ParseHeaderLine;
    if done == [] {
      assert done + [line] == [line] && [line][1..] == [];
      assert ParseHeaderLines([]) == Ok([]);
      var h := ParseHeaderLine(line);
      if h.Ok? {
        assert [h.value] + [] == [h.value] == [] + [h.value];
      }
    } else {
      ParseAppend(done[1..], line);
      assert (done + [line])[0] == done[0] && (done + [line])[1..] == done[1..] + [line];
      var first, rest, h := ParseHeaderLine(done[0]), ParseHeaderLines(done[1..]), ParseHeaderLine(line);
      if first.Ok? && rest.Ok? && h.Ok? {
        assert [first.value] + (rest.value + [h.value]) == ([first.value] + rest.value) + [h.value];
      }
    }
  }

  lemma {:induction false} ParseStops(lines: seq<Bytes>, i: nat)
    requires i <= |lines| && ParseHeaderLines(lines[..i]).Err?
    ensures ParseHeaderLines(lines) == ParseHeaderLines(lines[..i])
    decreases |lines| - i
  {
    hide ParseHeaderLine, ParseHeaderLines;
    if i == |lines| {
      assert lines[..i] == lines;
    } else {
      ParseAppend(lines[..i], lines[i]);
      assert lines[..i + 1] == lines[..i] + [lines[i]];
      ParseStops(lines, i + 1);
    }
  }

  method ParseHeaders(lines: seq<Bytes>) returns (r: Result<seq<Header>>)
    ensures r == ParseHeaderLines(lines)
  {
    hide ParseHeaderLine;
    var parsed: seq<Header> := [];
    for i := 0 to |lines|
      invariant ParseHeaderLines(lines[..i]) == Ok(parsed)
    {
      ParseAppend(lines[..i], lines[i]);
      assert lines[..i + 1] == lines[..i] + [lines[i]];
      var h := ParseHeaderLine(lines[i]);
      if h.Err? {
        ParseStops(lines, i + 1);
        return Err(h.error);
      }
      parsed := parsed + [h.value];
    }
    assert lines[..|lines|] == lines;
    return Ok(parsed);
  }

  // ---------------------------------------------------------------- rounds of the loops

  /** A final head found after `headerBytes`, `headerWire` and `wire` were already spent. */
  function After(r: Result<FinalHead>, headerBytes: nat, headerWire: nat, wire: nat): Result<FinalHead> {
    match r
    case Err(e) => Err(e)
    case Ok(f) => Ok(FinalHead(f.head, headerBytes + f.headerBytes, headerWire + f.headerWire, wire + f.wire))
  }

  lemma FinalHeadStep(rest: Bytes, limit: nat, maxHeader: int, maxWire: int, informational: nat, h: Head)
    requires ReadHead(rest, limit, maxHeader, maxWire) == Ok(h)
    ensures h.wire <= |rest|
    ensures ReadFinalHead(rest, limit, maxHeader, maxWire, informational) ==
      if h.status == 101 then Err(ResponseInvalid)
      else if h.status >= 200 then Ok(FinalHead(h, h.accounted, h.headerWire, h.wire))
      else if informational + 1 > 8 then Err(ResponseInvalid)
      else After(ReadFinalHead(rest[h.wire..], limit, maxHeader - h.accounted, maxWire - h.wire, informational + 1),
        h.accounted, h.headerWire, h.wire)
  {
    hide ReadHead;
  }

  lemma FinalHeadFails(rest: Bytes, limit: nat, maxHeader: int, maxWire: int, informational: nat, e: Error)
    requires ReadHead(rest, limit, maxHeader, maxWire) == Err(e)
    ensures ReadFinalHead(rest, limit, maxHeader, maxWire, informational) == Err(e)
  {
    hide ReadHead;
  }

  lemma TrailersStep(rest: Bytes, limit: nat, maximum: int, maxWire: int, logical: nat, headerWire: nat, wire: nat, line: Bytes)
    requires ReadLine(rest, limit, maximum + 2) == Ok(line)
    ensures |line| + 2 <= |rest|
    ensures var wire1 := wire + |line| + 2;
      ReadTrailers(rest, limit, maximum, maxWire, logical, headerWire, wire) ==
        if wire1 > maxWire then Err(LimitExceeded)
        else if line == [] then Ok(Trailers(Max(logical, headerWire), headerWire, wire1))
        else
          match ParseHeaderLines([line])
          case Err(e) => Err(e)
          case Ok(parsed) =>
            var logical1, headerWire1 := logical + HeadersSize(parsed), headerWire + |line| + 2;
            if Max(logical1, headerWire1) > maximum then Err(LimitExceeded)
            else ReadTrailers(rest[|line| + 2..], limit, maximum, maxWire, logical1, headerWire1, wire1)
  {
    hide ReadLine, ParseHeaderLines, HeadersSize;
  }

  lemma ChunkedStep(rest: Bytes, limit: nat, maxBody: int, maxTrailer: int, maxWire: int, body: Bytes, wire: nat, line: Bytes)
    requires ReadLine(rest, limit, 4096) == Ok(line)
    ensures |line| + 2 <= |rest|
    ensures var wire1, rest1 := wire + |line| + 2, rest[|line| + 2..];
      ReadChunked(rest, limit, maxBody, maxTrailer, maxWire, body, wire) ==
        if wire1 > maxWire then Err(LimitExceeded)
        else
          match ChunkSize(line)
          case Err(e) => Err(e)
          case Ok(size) => AfterSize(rest1, limit, maxBody, maxTrailer, maxWire, body, wire1, size)
  {
    hide *;
    ChunkedLine(rest, limit, maxBody, maxTrailer, maxWire, body, wire, line);
    if wire + |line| + 2 <= maxWire && ChunkSize(line).Ok? {
      ChunkedSize(rest, limit, maxBody, maxTrailer, maxWire, body, wire, line);
    }
  }

  // ---------------------------------------------------------------- the reader

  class StreamReader {
    const data: Bytes
    const limit: nat
    var pos: nat

    constructor (data: Bytes, limit: nat)
      ensures this.data == data && this.limit == limit && pos == 0
    {
      this.data, this.limit, pos := data, limit, 0;
    }

    predicate Valid()
      reads this
    {
      pos <= |data|
    }

    function Rest(): Bytes
      requires Valid()
      reads this
    {
      data[pos..]
    }

    method Until(sep: Bytes) returns (u: HttpFraming.Until, raw: Bytes)
      requires Valid() && sep != []
      modifies this
      ensures Valid() && u == ReadUntil(old(Rest()), sep, limit)
      ensures !u.Found? ==> raw == []
      ensures u.Found? ==> raw == old(Rest())[..u.n] && pos == old(pos) + u.n && Rest() == old(Rest())[u.n..]
    {
      u, raw := ReadUntil(Rest(), sep, limit), [];
      if u.Found? {
        raw := Rest()[..u.n];
        pos := pos + u.n;
      }
    }

    method Line(maximum: int) returns (r: Result<Bytes>)
      requires Valid()
      modifies this
      ensures Valid() && r == ReadLine(old(Rest()), limit, maximum)
      ensures r.Ok? ==> pos == old(pos) + |r.value| + 2 && Rest() == old(Rest())[|r.value| + 2..]
    {
      hide ReadUntil;
      var u, raw := Until(CRLF);
      if u.TooLarge? || |raw| > maximum {
        return Err(LimitExceeded);
      }
      if u.Incomplete? {
        return Err(ResponseInvalid);
      }
      assert raw[..|raw| - 2] == old(Rest())[..u.n - 2];
      return Ok(raw[..|raw| - 2]);
    }

    method Exactly(n: nat) returns (r: Result<Bytes>)
      requires Valid()
      modifies this
      ensures Valid() && r == ReadExactly(old(Rest()), n)
      ensures r.Ok? ==> pos == old(pos) + n && Rest() == old(Rest())[n..]
    {
      if n > |data| - pos {
        pos := |data|;
        return Err(ResponseInvalid);
      }
      r := Ok(Rest()[..n]);
      pos := pos + n;
    }

    /** `read`: some bytes that have arrived, at most `n`, and none only at the end. */
    method Some(n: nat) returns (chunk: Bytes)
      requires Valid() && n > 0
      modifies this
      ensures Valid() && |chunk| <= n && pos == old(pos) + |chunk| && chunk == old(Rest())[..|chunk|]
      ensures chunk == [] <==> old(pos) == |data|
    {
      if pos == |data| {
        return [];
      }
      var k :| 1 <= k <= n && k <= |data| - pos;
      chunk := Rest()[..k];
      pos := pos + k;
    }

    method ToEof(maximum: nat, maxWire: nat) returns (r: Result<Bytes>)
      requires Valid()
      modifies this
      ensures Valid() && r == ReadToEof(old(Rest()), maximum, maxWire)
      ensures r.Ok? ==> pos == |data|
    {
      var body: Bytes := [];
      while true
        invariant Valid() && pos == old(pos) + |body| && body == old(Rest())[..|body|]
        invariant |body| <= maximum && |body| <= maxWire
        decreases |data| - pos
      {
        var chunk := Some(Min(64 * 1024, Min(maximum - |body| + 1, maxWire - |body| + 1)));
        if chunk == [] {
          assert old(Rest())[..|body|] == old(Rest());
          return Ok(body);
        }
        body := body + chunk;
        if |body| > maximum {
          return Err(LimitExceeded);
        }
        if |body| > maxWire {
          return Err(LimitExceeded);
        }
      }
    }

    method ResponseHead(maxHeader: int, maxWire: int) returns (r: Result<Head>)
      requires Valid()
      modifies this
      ensures Valid() && r == ReadHead(old(Rest()), limit, maxHeader, maxWire)
      ensures r.Ok? ==> r.value.wire <= |old(Rest())| && pos == old(pos) + r.value.wire && Rest() == old(Rest())[r.value.wire..]
    {
      hide ReadUntil, SplitLines, ParseHeaderLines, ParseStatusLine, HeadersSize;
      var u, raw := Until(BLANK);
      if u.TooLarge? {
        return Err(LimitExceeded);
      }
      if u.Incomplete? {
        return Err(ResponseInvalid);
      }
      if |raw| > maxWire {
        return Err(LimitExceeded);
      }
      assert raw[..|raw| - 4] == old(Rest())[..u.n - 4];
      var lines := SplitLines(raw[..|raw| - 4]);
      SplitLinesWire(raw[..|raw| - 4]);
      if lines[0] == [] || |lines[0]| > 1024 {
        return Err(ResponseInvalid);
      }
      var status := ParseStatusLine(lines[0]);
      if status.Err? {
        return Err(status.error);
      }
      var headers := ParseHeaders(lines[1..]);
      if headers.Err? {
        return Err(headers.error);
      }
      var headerWire := |raw| - |lines[0]| - 4;
      var accounted := Max(headerWire, HeadersSize(headers.value));
      if accounted > maxHeader {
        return Err(LimitExceeded);
      }
      return Ok(Head(status.value, headers.value, accounted, headerWire, |raw|, lines[0], lines[1..]));
    }

    method FinalResponseHead(maxHeader: nat, maxWire: nat) returns (r: Result<FinalHead>)
      requires Valid()
      modifies this
      ensures Valid() && r == ReadFinalHead(old(Rest()), limit, maxHeader, maxWire, 0)
      ensures r.Ok? ==> r.value.wire <= |old(Rest())| && pos == old(pos) + r.value.wire && Rest() == old(Rest())[r.value.wire..]
    {
      hide ReadHead, ReadFinalHead;
      var informational: nat, headerBytes: nat, headerWire: nat, wire: nat := 0, 0, 0, 0;
      while true
        invariant Valid() && pos == old(pos) + wire
        invariant ReadFinalHead(old(Rest()), limit, maxHeader, maxWire, 0)
               == After(ReadFinalHead(Rest(), limit, maxHeader - headerBytes, maxWire - wire, informational), headerBytes, headerWire, wire)
        decreases |data| - pos
      {
        ghost var rest := Rest();
        var head := ResponseHead(maxHeader - headerBytes, maxWire - wire);
        if head.Err? {
          FinalHeadFails(rest, limit, maxHeader - headerBytes, maxWire - wire, informational, head.error);
          return Err(head.error);
        }
        var h := head.value;
        FinalHeadStep(rest, limit, maxHeader - headerBytes, maxWire - wire, informational, h);
        headerBytes, headerWire, wire := headerBytes + h.accounted, headerWire + h.headerWire, wire + h.wire;
        if h.status == 101 {
          return Err(ResponseInvalid);
        }
        if h.status < 200 {
          informational := informational + 1;
          if informational > 8 {
            return Err(ResponseInvalid);
          }
          continue;
        }
        return Ok(FinalHead(h, headerBytes, headerWire, wire));
      }
    }

    method TrailerSection(maximum: int, maxWire: int) returns (r: Result<Trailers>)
      requires Valid()
      modifies this
      ensures Valid() && r == ReadTrailers(old(Rest()), limit, maximum, maxWire, 0, 0, 0)
      ensures r.Ok? ==> pos == old(pos) + r.value.wire
    {
      hide ReadLine, ReadTrailers, ParseHeaderLines, HeadersSize;
      var logical: nat, headerWire: nat, wire: nat := 0, 0, 0;
      while true
        invariant Valid() && pos == old(pos) + wire
        invariant ReadTrailers(old(Rest()), limit, maximum, maxWire, 0, 0, 0)
               == ReadTrailers(Rest(), limit, maximum, maxWire, logical, headerWire, wire)
        decreases |data| - pos
      {
        ghost var rest := Rest();
        var line := Line(maximum + 2);
        if line.Err? {
          TrailersFail(rest, limit, maximum, maxWire, logical, headerWire, wire, line.error);
          return Err(line.error);
        }
        TrailersStep(rest, limit, maximum, maxWire, logical, headerWire, wire, line.value);
        wire := wire + |line.value| + 2;
        if wire > maxWire {
          return Err(LimitExceeded);
        }
        if line.value == [] {
          return Ok(Trailers(Max(logical, headerWire), headerWire, wire));
        }
        var parsed := ParseHeaders([line.value]);
        if parsed.Err? {
          return Err(parsed.error);
        }
        logical := logical + HeadersSize(parsed.value);
        headerWire := headerWire + |line.value| + 2;
        if Max(logical, headerWire) > maximum {
          return Err(LimitExceeded);
        }
      }
    }

    method ChunkedBody(maxBody: nat, maxTrailer: int, maxWire: int) returns (r: Result<Chunked>)
      requires Valid()
      modifies this
      ensures Valid() && r == ReadChunked(old(Rest()), limit, maxBody, maxTrailer, maxWire, [], 0)
      ensures r.Ok? ==> pos == old(pos) + r.value.wire + r.value.trailers.wire
    {
      hide ReadLine, ReadTrailers, ReadChunked, ChunkSize;
      var body: Bytes, wire: nat := [], 0;
      while true
        invariant Valid() && pos == old(pos) + wire
        invariant ReadChunked(old(Rest()), limit, maxBody, maxTrailer, maxWire, [], 0)
               == ReadChunked(Rest(), limit, maxBody, maxTrailer, maxWire, body, wire)
        decreases |data| - pos
      {
        ghost var rest := Rest();
        var line := Line(4096);
        if line.Err? {
          ChunkedFails(rest, limit, maxBody, maxTrailer, maxWire, body, wire, line.error);
          return Err(line.error);
        }
        ChunkedStep(rest, limit, maxBody, maxTrailer, maxWire, body, wire, line.value);
        wire := wire + |line.value| + 2;
        if wire > maxWire {
          return Err(LimitExceeded);
        }
        var size := ChunkSize(line.value);
        if size.Err? {
          return Err(size.error);
        }
        if size.value == 0 {
          var trailers := TrailerSection(maxTrailer, maxWire - wire);
          if trailers.Err? {
            return Err(trailers.error);
          }
          return Ok(Chunked(body, wire, trailers.value));
        }
        if size.value > maxBody - |body| {
          return Err(LimitExceeded);
        }
        if size.value + 2 > maxWire - wire {
          return Err(LimitExceeded);
        }
        var chunk := Exactly(size.value + 2);
        if chunk.Err? {
          return Err(chunk.error);
        }
        wire := wire + size.value + 2;
        if chunk.value[size.value..] != CRLF {
          return Err(ResponseInvalid);
        }
        body := body + chunk.value[..size.value];
      }
    }

    method ResponseBody(req: Request, status: nat, headers: seq<Header>, maxTrailer: int, maxWire: nat) returns (r: Result<Body>)
      requires Valid()
      modifies this
      ensures Valid() && r == ReadBody(old(Rest()), limit, req, status, headers, maxTrailer, maxWire)
      ensures r.Ok? ==> pos == old(pos) + r.value.bodyWire + r.value.trailers.wire
    {
      hide ReadChunked, ReadTrailers, Values, IsChunked, ParseContentLength;
      var coding := SingleHeader(headers, TRANSFER_ENCODING);
      if coding.Err? {
        return Err(coding.error);
      }
      var length := SingleHeader(headers, CONTENT_LENGTH);
      if length.Err? {
        return Err(length.error);
      }
      if coding.value.Some? && length.value.Some? {
        return Err(ResponseInvalid);
      }
      if OmitsBody(req.method_, status) {
        return Ok(Body([], 0, NO_TRAILERS, true));
      }
      if IsRedirect(status) {
        var location := SingleHeader(headers, LOCATION);
        if location.Err? {
          return Err(location.error);
        }
        if location.value.Some? && location.value.value != [] {
          return Ok(Body([], 0, NO_TRAILERS, true));
        }
      }
      if coding.value.Some? {
        if !IsChunked(coding.value.value) {
          return Err(ResponseInvalid);
        }
        var c := ChunkedBody(req.maxBodyBytes, maxTrailer, maxWire);
        if c.Err? {
          return Err(c.error);
        }
        return Ok(Body(c.value.body, c.value.wire, c.value.trailers, false));
      }
      if length.value.Some? {
        var n := ParseContentLength(length.value.value);
        if n.Err? {
          return Err(n.error);
        }
        if n.value > req.maxBodyBytes || n.value > maxWire {
          return Err(LimitExceeded);
        }
        var b := Exactly(n.value);
        if b.Err? {
          return Err(b.error);
        }
        return Ok(Body(b.value, n.value, NO_TRAILERS, false));
      }
      var b := ToEof(req.maxBodyBytes, maxWire);
      if b.Err? {
        return Err(b.error);
      }
      return Ok(Body(b.value, |b.value|, NO_TRAILERS, false));
    }
  }

  lemma TrailersFail(rest: Bytes, limit: nat, maximum: int, maxWire: int, logical: nat, headerWire: nat, wire: nat, e: Error)
    requires ReadLine(rest, limit, maximum + 2) == Err(e)
    ensures ReadTrailers(rest, limit, maximum, maxWire, logical, headerWire, wire) == Err(e)
  {
    hide ReadLine;
  }

  lemma ChunkedFails(rest: Bytes, limit: nat, maxBody: int, maxTrailer: int, maxWire: int, body: Bytes, wire: nat, e: Error)
    requires ReadLine(rest, limit, 4096) == Err(e)
    ensures ReadChunked(rest, limit, maxBody, maxTrailer, maxWire, body, wire) == Err(e)
  {
    hide ReadLine;
  }

  /** One attempt on a fresh connection: exactly the bytes that a returned response accounts
      for have been taken from it. */
  method SendOnce(data: Bytes, req: Request) returns (outcome: Outcome, reader: StreamReader)
    ensures outcome == Exchange(data, req)
    ensures fresh(reader) && reader.data == data
    ensures outcome.Received? ==>
              && reader.pos == outcome.response.wire
              && outcome.response.wire == outcome.response.metadataWire + outcome.response.bodyWire
  {
    hide ReadFinalHead, ReadBody, Object;
    reader := new StreamReader(data, ReaderLimit(req));
    assert reader.Rest() == data;
    var final := reader.FinalResponseHead(req.maxHeaderBytes, req.maxWireBytes);
    if final.Err? {
      return Failed(final.error), reader;
    }
    FinalHeadWithin(data, req, final.value);
    var body := reader.ResponseBody(req, final.value.head.status, final.value.head.headers,
      req.maxHeaderBytes - final.value.headerBytes, req.maxWireBytes - final.value.wire);
    if body.Err? {
      return Failed(body.error), reader;
    }
    var evidence := Evidence(final.value, body.value);
    var objection := Object(evidence.Fields());
    if objection.Some? {
      return Refused(objection.value), reader;
    }
    return Received(evidence.Fields()), reader;
  }

  lemma FinalHeadWithin(data: Bytes, req: Request, f: FinalHead)
    requires ReadFinalHead(data, ReaderLimit(req), req.maxHeaderBytes, req.maxWireBytes, 0) == Ok(f)
    ensures f.wire <= req.maxWireBytes
  {
    hide ReadFinalHead;
    HttpEvidence.FinalHeadFacts(data, ReaderLimit(req), req.maxHeaderBytes, req.maxWireBytes, 0, f);
  }
}
