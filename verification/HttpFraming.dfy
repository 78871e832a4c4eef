/** What one HTTP/1.1 response reading means, as functions of the bytes still to come: each
    says what is accepted, what it counts as consumed and which limit it refuses.  The reader
    methods of `HttpTransport` compute exactly these. */
module HttpFraming {
  import opened Basics
  import opened HttpSyntax

  datatype Method = GET | HEAD

  /** The three budgets of one attempt. */
  datatype Request = Request(method_: Method, maxHeaderBytes: nat, maxBodyBytes: nat, maxWireBytes: nat)

  /** The stream reader's buffer limit. */
  function ReaderLimit(r: Request): nat {
    Max(Min(r.maxHeaderBytes + 1028, r.maxWireBytes + 1028), 4096)
  }

  // ---------------------------------------------------------------- asyncio's stream reader

  datatype Until = Found(n: nat) | TooLarge | Incomplete

  /** `readuntil`: succeeds when the separator starts within the limit. */
  function ReadUntil(rest: Bytes, sep: Bytes, limit: nat): (u: Until)
    requires sep != []
    ensures u.Found? ==> |sep| <= u.n <= |rest|
  {
    var i := IndexOf(rest, sep);
    IndexFits(rest, sep);
    if i < |rest| then if i <= limit then Found(i + |sep|) else TooLarge
    else if |rest| + 1 - |sep| > limit then TooLarge
    else Incomplete
  }

  /** A line without its end. */
  function ReadLine(rest: Bytes, limit: nat, maximum: int): (r: Result<Bytes>)
    ensures r.Ok? ==> |r.value| + 2 <= |rest| && r.value == rest[..|r.value|] && |r.value| + 2 <= maximum
  {
    match ReadUntil(rest, CRLF, limit)
    case TooLarge => Err(LimitExceeded)
    case Incomplete => if 0 > maximum then Err(LimitExceeded) else Err(ResponseInvalid)
    case Found(n) => if n > maximum then Err(LimitExceeded) else Ok(rest[..n - 2])
  }

  function ReadExactly(rest: Bytes, n: nat): (r: Result<Bytes>)
    ensures r.Ok? ==> n <= |rest| && r.value == rest[..n]
  {
    if n <= |rest| then Ok(rest[..n]) else Err(ResponseInvalid)
  }

  // ---------------------------------------------------------------- heads

  /** A parsed head with its counters.  `statusLine` and `lines` are the raw text it came from. */
  datatype Head = Head(
    status: nat, headers: seq<Header>, accounted: nat, headerWire: nat, wire: nat,
    statusLine: Bytes, lines: seq<Bytes>)

  function ReadHead(rest: Bytes, limit: nat, maxHeader: int, maxWire: int): (r: Result<Head>)
    ensures r.Ok? ==> 17 <= r.value.wire <= |rest|
  {
    match ReadUntil(rest, BLANK, limit)
    case TooLarge => Err(LimitExceeded)
    case Incomplete => Err(ResponseInvalid)
    case Found(n) =>
      if n > maxWire then Err(LimitExceeded)
      else
        var lines := SplitLines(rest[..n - 4]);
        SplitLinesWire(rest[..n - 4]);
        if lines[0] == [] || |lines[0]| > 1024 then Err(ResponseInvalid)
        else
          var status :- ParseStatusLine(lines[0]);
          var headers :- ParseHeaderLines(lines[1..]);
          var headerWire := n - |lines[0]| - 4;
          var accounted := Max(headerWire, HeadersSize(headers));
          if accounted > maxHeader then Err(LimitExceeded)
          else Ok(Head(status, headers, accounted, headerWire, n, lines[0], lines[1..]))
  }

  /** The final head, past at most eight informational ones, with totals over all of them. */
  datatype FinalHead = FinalHead(head: Head, headerBytes: nat, headerWire: nat, wire: nat)

  function ReadFinalHead(rest: Bytes, limit: nat, maxHeader: int, maxWire: int, informational: nat): (r: Result<FinalHead>)
    ensures r.Ok? ==> 0 < r.value.wire <= |rest|
    decreases |rest|
  {
    var head :- ReadHead(rest, limit, maxHeader, maxWire);
    if head.status == 101 then Err(ResponseInvalid)
    else if head.status < 200 then
      if informational + 1 > 8 then Err(ResponseInvalid)
      else
        var final :- ReadFinalHead(rest[head.wire..], limit, maxHeader - head.accounted, maxWire - head.wire, informational + 1);
        Ok(FinalHead(final.head, head.accounted + final.headerBytes, head.headerWire + final.headerWire, head.wire + final.wire))
    else Ok(FinalHead(head, head.accounted, head.headerWire, head.wire))
  }

  // ---------------------------------------------------------------- bodies

  datatype Trailers = Trailers(headerBytes: nat, headerWire: nat, wire: nat)

  function ReadTrailers(rest: Bytes, limit: nat, maximum: int, maxWire: int, logical: nat, headerWire: nat, wire: nat): (r: Result<Trailers>)
    ensures r.Ok? ==> wire + 2 <= r.value.wire <= wire + |rest|
    decreases |rest|
  {
    var line :- ReadLine(rest, limit, maximum + 2);
    var wire1 := wire + |line| + 2;
    if wire1 > maxWire then Err(LimitExceeded)
    else if line == [] then Ok(Trailers(Max(logical, headerWire), headerWire, wire1))
    else
      var parsed :- ParseHeaderLines([line]);
      var logical1, headerWire1 := logical + HeadersSize(parsed), headerWire + |line| + 2;
      if Max(logical1, headerWire1) > maximum then Err(LimitExceeded)
      else ReadTrailers(rest[|line| + 2..], limit, maximum, maxWire, logical1, headerWire1, wire1)
  }

  datatype Chunked = Chunked(body: Bytes, wire: nat, trailers: Trailers)

  /** The value that a chunk-size line announces. */
  function ChunkSize(line: Bytes): (r: Result<nat>) {
    if 0x3B in line then Err(ResponseInvalid)
    else if line == [] || !AllHex(line) then Err(ResponseInvalid)
    else if |Significant(line)| > 16 then Err(LimitExceeded)
    else Ok(HexValue(Significant(line)))
  }

  function ReadChunked(rest: Bytes, limit: nat, maxBody: int, maxTrailer: int, maxWire: int, body: Bytes, wire: nat): (r: Result<Chunked>)
    ensures r.Ok? ==> wire <= r.value.wire && r.value.wire + r.value.trailers.wire <= wire + |rest|
    decreases |rest|
  {
    var line :- ReadLine(rest, limit, 4096);
    var wire1 := wire + |line| + 2;
    var rest1 := rest[|line| + 2..];
    if wire1 > maxWire then Err(LimitExceeded)
    else
      var size :- ChunkSize(line);
      if size == 0 then
        var trailers :- ReadTrailers(rest1, limit, maxTrailer, maxWire - wire1, 0, 0, 0);
        Ok(Chunked(body, wire1, trailers))
      else if size > maxBody - |body| then Err(LimitExceeded)
      else if size + 2 > maxWire - wire1 then Err(LimitExceeded)
      else
        var chunk :- ReadExactly(rest1, size + 2);
        if chunk[size..] != CRLF then Err(ResponseInvalid)
        else ReadChunked(rest1[size + 2..], limit, maxBody, maxTrailer, maxWire, body + chunk[..size], wire1 + size + 2)
  }

  /** What follows a size line. */
  function AfterSize(rest1: Bytes, limit: nat, maxBody: int, maxTrailer: int, maxWire: int, body: Bytes, wire1: nat, size: nat): Result<Chunked> {
    if size == 0 then
      match ReadTrailers(rest1, limit, maxTrailer, maxWire - wire1, 0, 0, 0)
      case Err(e) => Err(e)
      case Ok(t) => Ok(Chunked(body, wire1, t))
    else if size > maxBody - |body| || size + 2 > maxWire - wire1 then Err(LimitExceeded)
    else if size + 2 > |rest1| || rest1[..size + 2][size..] != CRLF then Err(ResponseInvalid)
    else ReadChunked(rest1[size + 2..], limit, maxBody, maxTrailer, maxWire, body + rest1[..size + 2][..size], wire1 + size + 2)
  }

  lemma ChunkedLine(rest: Bytes, limit: nat, maxBody: int, maxTrailer: int, maxWire: int, body: Bytes, wire: nat, line: Bytes)
    requires ReadLine(rest, limit, 4096) == Ok(line)
    ensures |line| + 2 <= |rest|
    ensures wire + |line| + 2 > maxWire ==>
      ReadChunked(rest, limit, maxBody, maxTrailer, maxWire, body, wire) == Err(LimitExceeded)
    ensures wire + |line| + 2 <= maxWire && ChunkSize(line).Err? ==>
      ReadChunked(rest, limit, maxBody, maxTrailer, maxWire, body, wire) == Err(ChunkSize(line).error)
  {
    hide ReadLine, ChunkSize, ReadTrailers, ReadExactly;
  }

  lemma ChunkedSize(rest: Bytes, limit: nat, maxBody: int, maxTrailer: int, maxWire: int, body: Bytes, wire: nat, line: Bytes)
    requires ReadLine(rest, limit, 4096) == Ok(line) && |line| + 2 <= |rest|
    requires wire + |line| + 2 <= maxWire && ChunkSize(line).Ok?
    ensures ReadChunked(rest, limit, maxBody, maxTrailer, maxWire, body, wire)
      == AfterSize(rest[|line| + 2..], limit, maxBody, maxTrailer, maxWire, body, wire + |line| + 2, ChunkSize(line).value)
  {
    hide ReadLine, ChunkSize, ReadTrailers;
  }

  function ReadToEof(rest: Bytes, maximum: int, maxWire: int): Result<Bytes> {
    if |rest| > maximum || |rest| > maxWire then Err(LimitExceeded) else Ok(rest)
  }

  datatype Body = Body(body: Bytes, bodyWire: nat, trailers: Trailers, omitted: bool)

  const NO_TRAILERS := Trailers(0, 0, 0)

  predicate OmitsBody(m: Method, status: nat) {
    m == HEAD || status in {204, 205, 304}
  }

  predicate IsRedirect(status: nat) {
    status in {301, 302, 303, 307, 308}
  }

  function ReadBody(rest: Bytes, limit: nat, req: Request, status: nat, headers: seq<Header>, maxTrailer: int, maxWire: int): (r: Result<Body>)
    ensures r.Ok? ==> r.value.bodyWire + r.value.trailers.wire <= |rest|
  {
    var coding :- SingleHeader(headers, TRANSFER_ENCODING);
    var length :- SingleHeader(headers, CONTENT_LENGTH);
    if coding.Some? && length.Some? then Err(ResponseInvalid)
    else if OmitsBody(req.method_, status) then Ok(Body([], 0, NO_TRAILERS, true))
    else
      var location :- if IsRedirect(status) then SingleHeader(headers, LOCATION) else Ok(None);
      if location.Some? && location.value != [] then Ok(Body([], 0, NO_TRAILERS, true))
      else if coding.Some? then
        if !IsChunked(coding.value) then Err(ResponseInvalid)
        else
          var c :- ReadChunked(rest, limit, req.maxBodyBytes, maxTrailer, maxWire, [], 0);
          Ok(Body(c.body, c.wire, c.trailers, false))
      else if length.Some? then
        var n :- ParseContentLength(length.value);
        if n > req.maxBodyBytes || n > maxWire then Err(LimitExceeded)
        else
          var b :- ReadExactly(rest, n);
          Ok(Body(b, n, NO_TRAILERS, false))
      else
        var b :- ReadToEof(rest, req.maxBodyBytes, maxWire);
        Ok(Body(b, |b|, NO_TRAILERS, false))
  }

  // ---------------------------------------------------------------- the whole response

  /** The fields handed to the response constructor. */
  datatype Response = Response(
    status: nat, headers: seq<Header>, body: Bytes, headerBytes: nat, headerWire: nat,
    metadataWire: nat, bodyWire: nat, wire: nat, omitted: bool)

  /** Everything the reader established: the head, the body and the response made of them. */
  datatype Evidence = Evidence(final: FinalHead, body: Body) {
    function Fields(): Response {
      Response(
        final.head.status, final.head.headers, body.body,
        final.headerBytes + body.trailers.headerBytes,
        final.headerWire + body.trailers.headerWire,
        final.wire + body.trailers.wire,
        body.bodyWire,
        final.wire + body.trailers.wire + body.bodyWire,
        body.omitted)
    }
  }

  /** The body after a final head. */
  function ReadRest(rest: Bytes, req: Request, final: FinalHead): (r: Result<Evidence>)
    ensures r.Ok? ==> r.value.final == final && r.value.body.bodyWire + r.value.body.trailers.wire <= |rest|
  {
    var body :- ReadBody(rest, ReaderLimit(req), req, final.head.status, final.head.headers,
      req.maxHeaderBytes - final.headerBytes, req.maxWireBytes - final.wire);
    Ok(Evidence(final, body))
  }

  function ReadResponse(data: Bytes, req: Request): (r: Result<Evidence>)
  {
    var final :- ReadFinalHead(data, ReaderLimit(req), req.maxHeaderBytes, req.maxWireBytes, 0);
    ReadRest(data[final.wire..], req, final)
  }

  /** The checks of the response constructor, in its order; None when it accepts. */
  datatype Objection = BadStatus | HeaderBytes | HeaderWire | RawHeaders | Metadata | BodyWire
    | OmittedWithBody | Ambiguous | Coding | ChunkFraming | TrailerTerminator | Total

  function Object(r: Response): Option<Objection> {
    if r.status < 200 || r.status > 599 then Some(BadStatus)
    else if r.headerBytes < HeadersSize(r.headers) then Some(HeaderBytes)
    else if r.headerWire < HeadersWireSize(r.headers) then Some(HeaderWire)
    else if r.headerBytes < r.headerWire then Some(RawHeaders)
    else if r.metadataWire < r.headerWire + 17 then Some(Metadata)
    else if r.bodyWire < |r.body| then Some(BodyWire)
    else if r.omitted && (r.body != [] || r.bodyWire > 0) then Some(OmittedWithBody)
    else
      var framing := ObjectToFraming(r);
      if framing.Some? then framing
      else if r.wire != r.metadataWire + r.bodyWire then Some(Total)
      else None
  }

  function ObjectToFraming(r: Response): Option<Objection> {
    var codings, lengths := Values(r.headers, TRANSFER_ENCODING), Values(r.headers, CONTENT_LENGTH);
    if |codings| > 1 || |lengths| > 1 || (|codings| == 1 && |lengths| == 1) then Some(Ambiguous)
    else if codings == [] then None
    else if !IsChunked(codings[0]) then Some(Coding)
    else if r.omitted then None
    else if r.bodyWire < LeastChunkedWire(|r.body|) then Some(ChunkFraming)
    else if r.metadataWire < r.headerWire + 17 + 2 then Some(TrailerTerminator)
    else None
  }

  /** The least wire that any chunked framing of `n` body bytes can take. */
  function LeastChunkedWire(n: nat): nat {
    if n == 0 then 3 else n + HexLength(n) + 7
  }
}
