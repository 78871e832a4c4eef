/** Where the transport and the gateway meet: which of the reader's responses the gateway goes
    on with, past its evidence check and its look at the location field. */
module HttpHandover {
  import opened Basics
  import opened Utf8
  import opened HttpSyntax
  import opened HttpFraming
  import opened HttpEvidence
  import opened HttpTransport
  import opened HttpGateway
  import opened HttpObjections

  // ---------------------------------------------------------------- parsed values are stripped

  predicate Trimmed(b: Bytes) {
    b == [] || (!IsBlank(b[0]) && !IsBlank(b[|b| - 1]))
  }

  lemma {:induction false} StripLeftTrims(b: Bytes)
    ensures var r := StripLeft(b, IsBlank); r == [] || !IsBlank(r[0])
  {
    if b != [] && IsBlank(b[0]) {
      StripLeftTrims(b[1..]);
    }
  }

  lemma {:induction false} StripRightTrims(b: Bytes)
    ensures var r := StripRight(b, IsBlank);
      (r == [] || !IsBlank(r[|r| - 1])) && r <= b
  {
    if b != [] && IsBlank(b[|b| - 1]) {
      StripRightTrims(b[..|b| - 1]);
    }
  }

  lemma StripTrims(b: Bytes)
    ensures Trimmed(Strip(b, IsBlank))
  {
    StripLeftTrims(b);
    StripRightTrims(StripLeft(b, IsBlank));
  }

  lemma StripOfTrimmed(b: Bytes)
    requires Trimmed(b)
    ensures Strip(b, IsBlank) == b
  {
  }

  lemma {:induction false} ParsedValuesAreStripped(lines: seq<Bytes>, name: Bytes)
    requires ParseHeaderLines(lines).Ok?
    ensures Values(ParseHeaderLines(lines).value, name) == RawValues(ParseHeaderLines(lines).value, name)
  {
    hide Strip;
    if lines != [] {
      var h := ParseHeaderLine(lines[0]).value;
      var hs := ParseHeaderLines(lines).value;
      ParsedValueIsStripped(lines[0]);
      ParsedValuesAreStripped(lines[1..], name);
      assert hs[0] == h && hs[1..] == ParseHeaderLines(lines[1..]).value;
    }
  }

  lemma ParsedValueIsStripped(line: Bytes)
    requires ParseHeaderLine(line).Ok?
    ensures var v := ParseHeaderLine(line).value.value; Strip(v, IsBlank) == v
  {
    var i := IndexOf(line, [0x3A]);
    IndexOfByte(line, 0x3A);
    StripTrims(line[i + 1..]);
    StripOfTrimmed(Strip(line[i + 1..], IsBlank));
  }

  // ---------------------------------------------------------------- what the reader leaves open

  /** A redirect whose one location field is empty is read as an ordinary response. */
  predicate EmptyLocation(r: HttpFraming.Response, req: Request) {
    !OmitsBody(req.method_, r.status) && IsRedirect(r.status) && RawValues(r.headers, LOCATION) == [[]]
  }

  /** A length that is never used for reading is not looked at either. */
  predicate UnreadLength(r: HttpFraming.Response) {
    var lengths := RawValues(r.headers, CONTENT_LENGTH);
    r.omitted && lengths != [] && ParseContentLength(lengths[0]).Err?
  }

  /** When the body of an accepted reading is omitted, and how long it is when announced. */
  lemma BodyDetail(rest: Bytes, limit: nat, req: Request, status: nat, headers: seq<Header>, maxTrailer: int, maxWire: int)
    requires ReadBody(rest, limit, req, status, headers, maxTrailer, maxWire).Ok?
    ensures var b := ReadBody(rest, limit, req, status, headers, maxTrailer, maxWire).value;
      var lengths, locations := Values(headers, CONTENT_LENGTH), Values(headers, LOCATION);
      && |lengths| <= 1
      && (!OmitsBody(req.method_, status) && IsRedirect(status) ==> |locations| <= 1)
      && (b.omitted <==> OmitsBody(req.method_, status) || (IsRedirect(status) && locations != [] && locations[0] != []))
      && (!b.omitted && lengths != [] ==> ParseContentLength(lengths[0]) == Ok(|b.body|))
  {
    hide Values, ReadChunked, ParseContentLength, IsChunked, OmitsBody, IsRedirect;
  }

  lemma CheckFollows(r: HttpFraming.Response, req: Request)
    requires Object(r) == None
    requires r.headerBytes <= req.maxHeaderBytes && |r.body| <= req.maxBodyBytes && r.wire <= req.maxWireBytes
    requires var lengths, locations := RawValues(r.headers, CONTENT_LENGTH), RawValues(r.headers, LOCATION);
      && |lengths| <= 1
      && (!OmitsBody(req.method_, r.status) && IsRedirect(r.status) ==> |locations| <= 1)
      && (r.omitted <==> OmitsBody(req.method_, r.status) || (IsRedirect(r.status) && locations != [] && locations[0] != []))
      && (!r.omitted && lengths != [] ==> ParseContentLength(lengths[0]) == Ok(|r.body|))
    ensures CheckEvidence(r, req) == Ok(true) <==> !EmptyLocation(r, req) && !UnreadLength(r)
  {
    hide Object, RawValues, ParseContentLength, OmitsBody, IsRedirect;
  }

  /** The evidence check accepts a response that the transport read within its budgets exactly
      when it is not a redirect with an empty location and no unread length is malformed. */
  lemma EvidenceAccepted(data: Bytes, req: Request)
    requires Exchange(data, req).Received?
    ensures var r := Exchange(data, req).response;
      CheckEvidence(r, req) == Ok(true) <==> !EmptyLocation(r, req) && !UnreadLength(r)
  {
    hide CheckEvidence, EmptyLocation, UnreadLength, Object, ReadFinalHead, ReadBody, Values, RawValues, ParseHeaderLines, OmitsBody,
      IsRedirect, ParseContentLength, FramingLaw, BodyLaw;
    var e := ReadResponse(data, req).value;
    AccountingIsConserved(data, req);
    ReadingFacts(data, req);
    ReadingParts(data, req, e);
    BodyDetail(data[e.final.wire..], ReaderLimit(req), req, e.final.head.status, e.final.head.headers,
      req.maxHeaderBytes - e.final.headerBytes, req.maxWireBytes - e.final.wire);
    ParsedValuesAreStripped(e.final.head.lines, CONTENT_LENGTH);
    ParsedValuesAreStripped(e.final.head.lines, LOCATION);
    CheckFollows(e.Fields(), req);
  }

  /** At most one location field, and that one not empty, whatever the status. */
  predicate Locatable(r: HttpFraming.Response) {
    var locations := RawValues(r.headers, LOCATION);
    |locations| <= 1 && [] !in locations
  }

  /** The gateway goes on with a response that the transport returned, past its evidence check
      and its look at the location, exactly when the location is in order and no unread length
      is malformed. */
  lemma GatewayAcceptsTransport(
    data: Bytes, req: Request, current: Url, redirectCount: nat, maxRedirects: nat, join: (Url, Bytes) -> Option<Url>)
    requires Exchange(data, req).Received?
    ensures var r := Exchange(data, req).response;
      && CheckEvidence(r, req) == Ok(true)
      && Onward(r, current, redirectCount, maxRedirects, join) != Ends(BadLocation)
      <==> Locatable(r) && !UnreadLength(r)
  {
    hide CheckEvidence, Exchange, UnreadLength, RawValues, OmitsBody, IsRedirect;
    EvidenceAccepted(data, req);
  }

  // ---------------------------------------------------------------- one response for each refusal

  /** How the gateway gets on with what comes from the connection; a refusal of the reader or
      of the constructor is neither. */
  predicate RefusedByCheck(data: Bytes, req: Request) {
    Exchange(data, req).Received? && CheckEvidence(Exchange(data, req).response, req).Err?
  }

  predicate RefusedForLocation(data: Bytes, req: Request, current: Url, redirectCount: nat, maxRedirects: nat,
    join: (Url, Bytes) -> Option<Url>)
  {
    && Exchange(data, req).Received? && CheckEvidence(Exchange(data, req).response, req) == Ok(true)
    && Onward(Exchange(data, req).response, current, redirectCount, maxRedirects, join) == Ends(BadLocation)
  }

  /** "location: " */
  const NO_PLACE: Bytes := LOCATION + [0x3A] + [0x20]
  /** "location: a" */
  const ONE_PLACE: Bytes := LOCATION + [0x3A] + [0x20, 0x61]
  /** "content-length: x" */
  const NO_NUMBER: Bytes := CONTENT_LENGTH + [0x3A] + [0x20, 0x78]

  /** A head whose fields name no transfer coding and have a blank each is received. */
  lemma HeadReceived(code: Bytes, lines: seq<Bytes>, headers: seq<Header>, req: Request)
    requires |code| == 3 && AllDigits(code) && 200 <= DecimalValue(code) <= 599
    requires Unbroken(lines) && ParseHeaderLines(lines) == Ok(headers) && Admits(req, lines, headers)
    requires Bodyless(DecimalValue(code), headers, req) && Values(headers, TRANSFER_ENCODING) == []
    requires forall i :: 0 <= i < |lines| ==> Padding(lines[i]) >= 1
    ensures var x := Exchange(HeadText(code, lines), req);
      && x.Received? && x.response.status == DecimalValue(code) && x.response.headers == headers
      && (x.response.omitted <==> OmitsBody(req.method_, DecimalValue(code)))
  {
    hide ReadResponse, Values, DecimalValue, Object, HeadText, Padding, OmitsBody, Admits, Bodyless, ParseHeaderLines;
    ReadingOfText(code, lines, headers, req);
    OneBlankEachSuffices(HeadText(code, lines), req);
  }

  lemma Blanks()
    ensures Strip([0x20], IsBlank) == [] && Strip([0x20, 0x61], IsBlank) == [0x61] && Strip([0x20, 0x78], IsBlank) == [0x78]
  {
    assert [0x20][1..] == [];
    assert [0x20, 0x61][1..] == [0x61] && [0x20, 0x78][1..] == [0x78];
    assert StripLeft([0x20], IsBlank) == StripLeft([], IsBlank) == [];
    assert StripLeft([0x20, 0x61], IsBlank) == StripLeft([0x61], IsBlank) == [0x61];
    assert StripLeft([0x20, 0x78], IsBlank) == StripLeft([0x78], IsBlank) == [0x78];
  }

  lemma NoBlanks()
    ensures Strip([], IsBlank) == []
  {
  }

  lemma ShortValue(b: Byte)
    requires b < 0x80
    ensures Utf8Length([b]) == 1 && Utf8Length([]) == 0
  {
    var t: Text := [b];
    assert t[1..] == [];
    assert Encode(t) == EncodePoint(b) + Encode([]);
  }

  predicate IsPlain(b: Byte) {
    0x61 <= b <= 0x7A || b == 0x2D
  }

  lemma PlainName(name: Bytes)
    requires name != [] && forall k :: 0 <= k < |name| ==> IsPlain(name[k])
    ensures IsToken(name) && !IsBlank(name[0]) && 0x3A !in name && 0x0D !in name && Lower(name) == name
  {
    LowerAlready(name);
    assert IsPlain(name[0]);
  }

  lemma PlainNames()
    ensures forall k :: 0 <= k < |LOCATION| ==> IsPlain(LOCATION[k])
    ensures forall k :: 0 <= k < |CONTENT_LENGTH| ==> IsPlain(CONTENT_LENGTH[k])
  {
  }

  /** A field with one blank before its value, which is at most one byte long. */
  lemma ParsedField(name: Bytes, rest: Bytes, value: Bytes)
    requires name != [] && IsToken(name) && !IsBlank(name[0]) && 0x3A !in name && 0x0D !in name
    requires rest == [0x20] + value && Strip(rest, IsBlank) == value && 0x0D !in value
    requires Utf8Length(value) == |value| <= 1 && !HasControl(value)
    ensures var line, h := name + [0x3A] + rest, Header(name, value);
      && ParseHeaderLine(line) == Ok(h) && Padding(line) == 1 && line != [] && 0x0D !in line
      && HeadersSize([h]) == |name| + 4 + |value|
  {
    hide Strip, Utf8Length, IsToken, HasControl, ParseHeaderLine;
    FieldLine(name, rest);
    var h := Header(name, value);
    assert [h][1..] == [];
    assert HeadersSize([]) == 0;
  }

  lemma RawOfOne(h: Header, name: Bytes)
    ensures RawValues([h], name) == if Lower(h.name) == name then [h.value] else []
  {
    hide Lower;
    assert [h][1..] == [];
    assert RawValues([], name) == [];
  }

  /** A moved page without a place: the evidence check refuses it. */
  lemma EmptyRedirectIsRefused(req: Request)
    requires req.method_ == GET && req.maxWireBytes >= 29 && req.maxHeaderBytes >= 12
    ensures RefusedByCheck(HeadText(MOVED_CODE, [NO_PLACE]), req)
  {
    hide HeadText, DecimalValue, ParseHeaderLine, ParseHeaderLines, Exchange, CheckEvidence, HeadersSize, Values, RawValues, Lower, Strip,
      Padding, UnreadLength;
    var h := Header(LOCATION, []);
    PlainNames();
    PlainName(LOCATION);
    Blanks();
    ShortValue(0x61);
    ParsedField(LOCATION, [0x20], []);
    OneHeader(NO_PLACE, h);
    OneFieldOnly(h);
    LinesWireOfOne(NO_PLACE);
    Codes();
    assert Strip([], IsBlank) == [] by { NoBlanks(); }
    HeadReceived(MOVED_CODE, [NO_PLACE], [h], req);
    var data := HeadText(MOVED_CODE, [NO_PLACE]);
    RawOfOne(h, LOCATION);
    EvidenceAccepted(data, req);
    NeverOther(Exchange(data, req).response, req);
  }

  lemma NeverOther(r: HttpFraming.Response, req: Request)
    ensures CheckEvidence(r, req).Err? || CheckEvidence(r, req) == Ok(true)
  {
    hide Object, RawValues, ParseContentLength, OmitsBody, IsRedirect, RedirectLocation;
  }

  /** To a HEAD request, an ordinary response with an empty location passes the evidence check
      and is refused afterwards, although nothing is redirected. */
  lemma EmptyLocationIsRefused(
    req: Request, current: Url, redirectCount: nat, maxRedirects: nat, join: (Url, Bytes) -> Option<Url>)
    requires req.method_ == HEAD && req.maxWireBytes >= 29 && req.maxHeaderBytes >= 12
    ensures RefusedForLocation(HeadText(OK_CODE, [NO_PLACE]), req, current, redirectCount, maxRedirects, join)
  {
    hide HeadText, DecimalValue, ParseHeaderLine, ParseHeaderLines, Exchange, CheckEvidence, HeadersSize, Values, RawValues, Lower, Strip,
      Padding;
    var h := Header(LOCATION, []);
    PlainNames();
    PlainName(LOCATION);
    Blanks();
    ShortValue(0x61);
    ParsedField(LOCATION, [0x20], []);
    OneHeader(NO_PLACE, h);
    OneFieldOnly(h);
    LinesWireOfOne(NO_PLACE);
    Codes();
    HeadReceived(OK_CODE, [NO_PLACE], [h], req);
    RawOfOne(h, LOCATION);
    RawOfOne(h, CONTENT_LENGTH);
    EvidenceAccepted(HeadText(OK_CODE, [NO_PLACE]), req);
  }

  /** Two locations, which the reader does not look at, are refused there too. */
  lemma TwoLocationsAreRefused(
    req: Request, current: Url, redirectCount: nat, maxRedirects: nat, join: (Url, Bytes) -> Option<Url>)
    requires req.method_ == HEAD && req.maxWireBytes >= 43 && req.maxHeaderBytes >= 26
    ensures RefusedForLocation(HeadText(OK_CODE, [ONE_PLACE, ONE_PLACE]), req, current, redirectCount, maxRedirects, join)
  {
    hide HeadText, DecimalValue, ParseHeaderLine, ParseHeaderLines, Exchange, CheckEvidence, HeadersSize, Values, RawValues, Lower, Strip,
      Padding;
    var h := Header(LOCATION, [0x61]);
    PlainNames();
    PlainName(LOCATION);
    Blanks();
    ShortValue(0x61);
    ParsedField(LOCATION, [0x20, 0x61], [0x61]);
    Twice(ONE_PLACE, h);
    Codes();
    HeadReceived(OK_CODE, [ONE_PLACE, ONE_PLACE], [h, h], req);
    EvidenceAccepted(HeadText(OK_CODE, [ONE_PLACE, ONE_PLACE]), req);
  }

  lemma Twice(line: Bytes, h: Header)
    requires ParseHeaderLine(line) == Ok(h) && h.name == LOCATION && Lower(LOCATION) == LOCATION
    ensures ParseHeaderLines([line, line]) == Ok([h, h]) && LinesWire([line, line]) == 2 * (|line| + 2)
    ensures HeadersSize([h, h]) == 2 * HeadersSize([h])
    ensures Values([h, h], TRANSFER_ENCODING) == [] && Values([h, h], CONTENT_LENGTH) == []
    ensures RawValues([h, h], LOCATION) == [h.value, h.value] && RawValues([h, h], CONTENT_LENGTH) == []
  {
    hide ParseHeaderLine, Lower, Strip, Utf8Length;
    assert |TRANSFER_ENCODING| == 17 && |CONTENT_LENGTH| == 14 && |LOCATION| == 8;
    OneHeader(line, h);
    OneFieldOnly(h);
    LinesWireOfOne(line);
    RawOfOne(h, LOCATION);
    RawOfOne(h, CONTENT_LENGTH);
    assert [line, line][1..] == [line] && [h, h][1..] == [h] && [h][1..] == [];
    assert [h] + [h] == [h, h] && [h.value] + [h.value] == [h.value, h.value];
  }

  /** A length that no one had to read is refused when it is malformed. */
  lemma UnreadLengthIsRefused(req: Request)
    requires req.method_ == HEAD && req.maxWireBytes >= 36 && req.maxHeaderBytes >= 19
    ensures RefusedByCheck(HeadText(OK_CODE, [NO_NUMBER]), req)
  {
    hide HeadText, DecimalValue, ParseHeaderLine, ParseHeaderLines, Exchange, CheckEvidence, HeadersSize, Values, RawValues, Lower, Strip,
      Padding;
    var h := Header(CONTENT_LENGTH, [0x78]);
    PlainNames();
    PlainName(CONTENT_LENGTH);
    Blanks();
    ShortValue(0x78);
    ParsedField(CONTENT_LENGTH, [0x20, 0x78], [0x78]);
    OneHeader(NO_NUMBER, h);
    OneFieldOnly(h);
    NoCoding(h);
    LinesWireOfOne(NO_NUMBER);
    Codes();
    HeadReceived(OK_CODE, [NO_NUMBER], [h], req);
    RawOfOne(h, CONTENT_LENGTH);
    NotANumber();
    EvidenceAccepted(HeadText(OK_CODE, [NO_NUMBER]), req);
    NeverOther(Exchange(HeadText(OK_CODE, [NO_NUMBER]), req).response, req);
  }

  lemma NoCoding(h: Header)
    requires h.name == CONTENT_LENGTH && Lower(h.name) == CONTENT_LENGTH
    ensures Values([h], TRANSFER_ENCODING) == []
  {
    hide Lower, Strip;
    assert |TRANSFER_ENCODING| == 17 && |CONTENT_LENGTH| == 14;
    assert [h][1..] == [];
  }

  lemma NotANumber()
    ensures ParseContentLength([0x78]).Err?
  {
    assert Strip([0x78], IsBlank) == [0x78];
    assert !IsDigit([0x78][0]);
  }
}
