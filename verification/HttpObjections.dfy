/** Responses that the reader accepts and the response constructor then refuses: the two
    conditions of `ConstructorAcceptsExactly` are not idle. */
module HttpObjections {
  import opened Basics
  import opened Utf8
  import opened HttpSyntax
  import opened HttpFraming
  import opened HttpEvidence
  import opened HttpTransport

  /** "HTTP/1.1 " */
  const VERSION: Bytes := [0x48, 0x54, 0x54, 0x50, 0x2F, 0x31, 0x2E, 0x31]
  /** "200" and "301" */
  const OK_CODE: Bytes := [0x32, 0x30, 0x30]
  const MOVED_CODE: Bytes := [0x33, 0x30, 0x31]

  function StatusLine(code: Bytes): Bytes {
    VERSION + [0x20] + (code + [0x20])
  }

  /** Lines with line ends between them. */
  function JoinLines(lines: seq<Bytes>): Bytes
    requires lines != []
  {
    if |lines| == 1 then lines[0] else lines[0] + CRLF + JoinLines(lines[1..])
  }

  /** A response head, ended by an empty line. */
  function HeadText(code: Bytes, lines: seq<Bytes>): Bytes {
    JoinLines([StatusLine(code)] + lines) + BLANK
  }

  lemma FirstIndex(b: Bytes, sep: Bytes, i: nat)
    requires sep != [] && i < |b| && Occurs<Byte>(b, sep, i)
    requires forall k :: 0 <= k < i ==> !Occurs<Byte>(b, sep, k)
    ensures IndexOf(b, sep) == i
  {
    IndexOfIsFirst(b, sep);
  }

  lemma FirstSpace(b: Bytes, i: nat)
    requires i < |b| && b[i] == 0x20 && forall k :: 0 <= k < i ==> b[k] != 0x20
    ensures IndexOf(b, [0x20]) == i
  {
    assert b[i..i + 1] == [0x20];
    forall k | 0 <= k < i ensures !Occurs<Byte>(b, [0x20], k) {
      OccurrenceStarts(b, [0x20], k);
    }
    FirstIndex(b, [0x20], i);
  }

  lemma Codes()
    ensures AllDigits(OK_CODE) && DecimalValue(OK_CODE) == 200
    ensures AllDigits(MOVED_CODE) && DecimalValue(MOVED_CODE) == 301
  {
    assert DecimalValue([]) == 0;
    assert OK_CODE[..2] == [0x32, 0x30] && OK_CODE[..2][..1] == [0x32] && [0x32][..0] == [];
    assert DecimalValue([0x32]) == 2 && DecimalValue(OK_CODE[..2]) == 20;
    assert MOVED_CODE[..2] == [0x33, 0x30] && MOVED_CODE[..2][..1] == [0x33] && [0x33][..0] == [];
    assert DecimalValue([0x33]) == 3 && DecimalValue(MOVED_CODE[..2]) == 30;
  }

  lemma StatusFrom(code: Bytes)
    requires |code| == 3 && AllDigits(code) && 100 <= DecimalValue(code) <= 599
    ensures ParseStatusLine(StatusLine(code)) == Ok(DecimalValue(code))
    ensures |StatusLine(code)| == 13 && 0x0D !in StatusLine(code)
  {
    hide IndexOf, DecimalValue;
    var line, rest := StatusLine(code), code + [0x20];
    assert forall k :: 0 <= k < 3 ==> IsDigit(code[k]);
    FirstSpace(line, 8);
    FirstSpace(rest, 3);
    assert line[..8] == VERSION && line[9..] == rest;
    assert rest[..3] == code && rest[4..] == [];
  }

  // ---------------------------------------------------------------- heads as lines

  ghost predicate Unbroken(lines: seq<Bytes>) {
    forall i :: 0 <= i < |lines| ==> lines[i] != [] && 0x0D !in lines[i]
  }

  lemma NotYet(b: Bytes)
    requires b != [] && (b[0] != 0x0D || (|b| > 2 && b[2] != 0x0D))
    ensures IndexOf(b, BLANK) == 1 + IndexOf(b[1..], BLANK)
  {
    assert BLANK[0] == 0x0D && BLANK[2] == 0x0D;
  }

  lemma {:induction false} SkipLine(line: Bytes, more: Bytes)
    requires 0x0D !in line && more != [] && more[0] != 0x0D
    ensures IndexOf(line + CRLF + more, BLANK) == |line| + 2 + IndexOf(more, BLANK)
  {
    hide IndexOf;
    var b := line + CRLF + more;
    if line == [] {
      assert b[2] == more[0] && b[1] == 0x0A;
      NotYet(b);
      assert b[1..] == [0x0A] + more;
      NotYet(b[1..]);
      assert b[1..][1..] == more;
    } else {
      SkipLine(line[1..], more);
      assert b[0] == line[0] && line[0] in line;
      NotYet(b);
      assert b[1..] == line[1..] + CRLF + more;
    }
  }

  lemma {:induction false} LastLine(line: Bytes, rest: Bytes)
    requires 0x0D !in line
    ensures IndexOf(line + BLANK + rest, BLANK) == |line|
  {
    var b := line + BLANK + rest;
    if line == [] {
      assert BLANK <= b;
    } else {
      LastLine(line[1..], rest);
      assert b[0] == line[0] && line[0] in line;
      assert b[1..] == line[1..] + BLANK + rest;
    }
  }

  /** The head ends where its lines do, whatever follows it. */
  lemma {:induction false} EndOfHead(lines: seq<Bytes>, rest: Bytes)
    requires lines != [] && Unbroken(lines)
    ensures IndexOf(JoinLines(lines) + BLANK + rest, BLANK) == |JoinLines(lines)|
    ensures JoinLines(lines) != [] && JoinLines(lines)[0] == lines[0][0] && lines[0][0] in lines[0]
  {
    hide IndexOf;
    if |lines| == 1 {
      LastLine(lines[0], rest);
    } else {
      EndOfHead(lines[1..], rest);
      var more := JoinLines(lines[1..]);
      SkipLine(lines[0], more + BLANK + rest);
      assert lines[0] + CRLF + (more + BLANK + rest) == JoinLines(lines) + BLANK + rest;
    }
  }

  lemma NoEnd(line: Bytes)
    requires 0x0D !in line
    ensures IndexOf(line, CRLF) == |line|
  {
    IndexOfIsFirst(line, CRLF);
    if IndexOf(line, CRLF) < |line| {
      OccurrenceStarts(line, CRLF, IndexOf(line, CRLF));
    }
  }

  lemma FirstEnd(line: Bytes, more: Bytes)
    requires 0x0D !in line
    ensures IndexOf(line + CRLF + more, CRLF) == |line|
  {
    var b := line + CRLF + more;
    assert b[|line|..|line| + 2] == CRLF;
    forall k | 0 <= k < |line| ensures !Occurs<Byte>(b, CRLF, k) {
      OccurrenceStarts(b, CRLF, k);
      assert b[k] == line[k] && line[k] in line;
    }
    FirstIndex(b, CRLF, |line|);
  }

  /** Splitting gives the lines back. */
  lemma {:induction false} SplitJoined(lines: seq<Bytes>)
    requires lines != [] && Unbroken(lines)
    ensures SplitLines(JoinLines(lines)) == lines
  {
    hide IndexOf;
    if |lines| == 1 {
      NoEnd(lines[0]);
    } else {
      var more := JoinLines(lines[1..]);
      SplitJoined(lines[1..]);
      FirstEnd(lines[0], more);
      var b := JoinLines(lines);
      assert b[..|lines[0]|] == lines[0] && b[|lines[0]| + 2..] == more;
    }
  }

  /** The budgets admit a head with these lines. */
  predicate Admits(req: Request, lines: seq<Bytes>, headers: seq<Header>) {
    && LinesWire(lines) + 13 <= ReaderLimit(req) && LinesWire(lines) + 17 <= req.maxWireBytes
    && Max(LinesWire(lines), HeadersSize(headers)) <= req.maxHeaderBytes
  }

  function HeadOf(code: Bytes, lines: seq<Bytes>, headers: seq<Header>): Head
    requires AllDigits(code)
  {
    Head(DecimalValue(code), headers, Max(LinesWire(lines), HeadersSize(headers)), LinesWire(lines),
      LinesWire(lines) + 17, StatusLine(code), lines)
  }

  lemma TextLength(code: Bytes, lines: seq<Bytes>)
    requires Unbroken(lines) && 0x0D !in StatusLine(code)
    ensures var all := [StatusLine(code)] + lines;
      && Unbroken(all) && |JoinLines(all)| == |StatusLine(code)| + LinesWire(lines)
      && SplitLines(JoinLines(all)) == all
  {
    var all := [StatusLine(code)] + lines;
    SplitJoined(all);
    SplitLinesWire(JoinLines(all));
    assert all[1..] == lines;
  }

  /** What reading such a head finds, when the budgets allow. */
  lemma ReadingOfHead(code: Bytes, lines: seq<Bytes>, headers: seq<Header>, rest: Bytes, req: Request)
    requires |code| == 3 && AllDigits(code) && 200 <= DecimalValue(code) <= 599
    requires Unbroken(lines) && ParseHeaderLines(lines) == Ok(headers) && Admits(req, lines, headers)
    ensures |HeadText(code, lines)| == LinesWire(lines) + 17
    ensures var head := HeadOf(code, lines, headers);
      ReadFinalHead(HeadText(code, lines) + rest, ReaderLimit(req), req.maxHeaderBytes, req.maxWireBytes, 0)
        == Ok(FinalHead(head, head.accounted, head.headerWire, head.wire))
  {
    hide IndexOf, SplitLines, ParseStatusLine, ParseHeaderLines, HeadersSize, ReadFinalHead, DecimalValue, StatusLine, JoinLines, LinesWire, ReaderLimit;
    StatusFrom(code);
    TextLength(code, lines);
    var all := [StatusLine(code)] + lines;
    EndOfHead(all, rest);
    var b := HeadText(code, lines) + rest;
    assert b == JoinLines(all) + BLANK + rest;
    assert b[..|JoinLines(all)|] == JoinLines(all);
    assert all[0] == StatusLine(code) && all[1..] == lines;
    FinalHeadStep(b, ReaderLimit(req), req.maxHeaderBytes, req.maxWireBytes, 0, HeadOf(code, lines, headers));
  }

  /** The reading of a whole response is that of its head and of what follows it. */
  lemma ReadingOfRest(code: Bytes, lines: seq<Bytes>, headers: seq<Header>, rest: Bytes, req: Request)
    requires |code| == 3 && AllDigits(code) && 200 <= DecimalValue(code) <= 599
    requires Unbroken(lines) && ParseHeaderLines(lines) == Ok(headers) && Admits(req, lines, headers)
    ensures var head := HeadOf(code, lines, headers);
      ReadResponse(HeadText(code, lines) + rest, req)
        == ReadRest(rest, req, FinalHead(head, head.accounted, head.headerWire, head.wire))
  {
    hide ReadFinalHead, ReadRest, HeadersSize, DecimalValue, LinesWire, ReaderLimit, HeadText, ParseHeaderLines;
    ReadingOfHead(code, lines, headers, rest, req);
    var text := HeadText(code, lines);
    assert (text + rest)[LinesWire(lines) + 17..] == rest;
  }

  lemma OneHeader(line: Bytes, h: Header)
    requires ParseHeaderLine(line) == Ok(h)
    ensures ParseHeaderLines([line]) == Ok([h])
  {
    hide ParseHeaderLine;
    assert [line][1..] == [];
    assert ParseHeaderLines([]) == Ok([]);
    assert [h] + [] == [h];
  }

  /** The reading of a whole response that ends with its head. */
  lemma ReadingOfText(code: Bytes, lines: seq<Bytes>, headers: seq<Header>, req: Request)
    requires |code| == 3 && AllDigits(code) && 200 <= DecimalValue(code) <= 599
    requires Unbroken(lines) && ParseHeaderLines(lines) == Ok(headers) && Admits(req, lines, headers)
    requires Bodyless(DecimalValue(code), headers, req)
    ensures var head := HeadOf(code, lines, headers);
      ReadResponse(HeadText(code, lines), req)
        == Ok(Evidence(FinalHead(head, head.accounted, head.headerWire, head.wire),
                       Body([], 0, NO_TRAILERS, OmitsBody(req.method_, DecimalValue(code)))))
  {
    hide ReadFinalHead, ReadBody, ReadResponse, HeadersSize, DecimalValue, LinesWire, ReaderLimit, HeadText, ParseHeaderLines, Bodyless;
    ReadingOfRest(code, lines, headers, [], req);
    assert HeadText(code, lines) + [] == HeadText(code, lines);
    NothingLeft(DecimalValue(code), headers, req, req.maxHeaderBytes - HeadOf(code, lines, headers).accounted,
      req.maxWireBytes - (LinesWire(lines) + 17));
  }

  /** With these fields a response needs no bytes after its head: the body is omitted, or the
      end of the connection ends it. */
  predicate Bodyless(status: nat, headers: seq<Header>, req: Request) {
    var codings, lengths, locations := Values(headers, TRANSFER_ENCODING), Values(headers, CONTENT_LENGTH), Values(headers, LOCATION);
    && |codings| <= 1 && |lengths| <= 1 && (codings == [] || lengths == [])
    && (OmitsBody(req.method_, status) || (codings == [] && lengths == [] && (locations == [] || locations == [[]])))
  }

  lemma NothingLeft(status: nat, headers: seq<Header>, req: Request, maxTrailer: int, maxWire: int)
    requires Bodyless(status, headers, req) && maxWire >= 0
    ensures ReadBody([], ReaderLimit(req), req, status, headers, maxTrailer, maxWire)
      == Ok(Body([], 0, NO_TRAILERS, OmitsBody(req.method_, status)))
  {
    hide Values, ReadChunked, ParseContentLength, IsChunked, OmitsBody, IsRedirect;
  }

  /** "A:b", a field line without a blank after its colon, is legal (section 5 of RFC 9112),
      is read, and makes the constructor refuse. */
  lemma TightFieldIsRefused(req: Request)
    requires req.method_ == HEAD && req.maxWireBytes >= 22 && req.maxHeaderBytes >= 6
    ensures Exchange(HeadText(OK_CODE, [[0x41, 0x3A, 0x62]]), req) == Refused(HeaderWire)
  {
    hide ReadResponse, HeadText, DecimalValue, Object, Values, HeadersSize, Padding, TotalPadding, LinesWire, ParseHeaderLine, ParseHeaderLines, FinalHeadLaw,
      BodyLaw, FramingLaw;
    var line: Bytes, h := [0x41, 0x3A, 0x62], Header([0x41], [0x62]);
    TightField(line, h);
    OneHeader(line, h);
    Codes();
    OneFieldOnly(h);
    LinesWireOfOne(line);
    ReadingOfText(OK_CODE, [line], [h], req);
    NoPadding(line);
    ReadingFacts(HeadText(OK_CODE, [line]), req);
    TooTight(ReadResponse(HeadText(OK_CODE, [line]), req).value, req);
  }

  lemma NoPadding(line: Bytes)
    requires Padding(line) == 0
    ensures TotalPadding([line]) == 0
  {
    hide Padding;
    assert [line][1..] == [];
    assert TotalPadding([]) == 0;
  }

  /** The third check of the constructor. */
  lemma TooTight(e: Evidence, req: Request)
    requires FinalHeadLaw(e.final, req.maxHeaderBytes, req.maxWireBytes) && !PaddingSuffices(e)
    ensures Object(e.Fields()) == Some(HeaderWire)
  {
    hide PaddingSuffices, ParseHeaderLines, HeadersWireSize, HeadersSize, ObjectToFraming, LinesWire;
    HeaderObjection(e);
  }

  lemma LinesWireOfOne(line: Bytes)
    ensures LinesWire([line]) == |line| + 2
  {
    assert [line][1..] == [];
    assert LinesWire([]) == 0;
  }

  /** A single field is at most one coding, one length and one location, and only one of them. */
  lemma OneFieldOnly(h: Header)
    ensures var codings, lengths := Values([h], TRANSFER_ENCODING), Values([h], CONTENT_LENGTH);
      |codings| <= 1 && |lengths| <= 1 && (codings == [] || lengths == [])
    ensures var values := Values([h], LOCATION); Lower(h.name) == LOCATION ==>
      values == [Strip(h.value, IsBlank)] && Values([h], TRANSFER_ENCODING) == [] && Values([h], CONTENT_LENGTH) == []
  {
    hide Lower, Strip;
    assert |TRANSFER_ENCODING| == 17 && |CONTENT_LENGTH| == 14 && |LOCATION| == 8;
    assert [h][1..] == [];
    assert Values([], TRANSFER_ENCODING) == [] && Values([], CONTENT_LENGTH) == [] && Values([], LOCATION) == [];
  }

  lemma TightField(line: Bytes, h: Header)
    requires line == [0x41, 0x3A, 0x62] && h == Header([0x41], [0x62])
    ensures ParseHeaderLine(line) == Ok(h) && Padding(line) == 0 && HeadersSize([h]) == 6
  {
    assert line[1..2] == [0x3A] && line[0..1] == [0x41];
    FirstIndex(line, [0x3A], 1);
    assert line[..1] == [0x41] && line[2..] == [0x62];
    assert Strip([0x62], IsBlank) == [0x62];
    var v: Text := [0x62];
    assert v[1..] == [];
    assert Encode(v) == EncodePoint(0x62) + Encode(v[1..]) == [0x62];
    assert [h][1..] == [];
    assert HeadersSize([]) == 0;
  }

  lemma {:induction false} LowerAlready(b: Bytes)
    requires forall k :: 0 <= k < |b| ==> !(0x41 <= b[k] <= 0x5A)
    ensures Lower(b) == b
  {
    if b != [] {
      LowerAlready(b[1..]);
    }
  }

  /** "x" */
  const UNKNOWN_CODING: Bytes := [0x78]

  /** A field line is read as the name before its first colon and the stripped rest. */
  lemma FieldLine(name: Bytes, rest: Bytes)
    requires IsToken(name) && name != [] && !IsBlank(name[0]) && 0x3A !in name
    requires !HasControl(Strip(rest, IsBlank)) && Utf8Length(Strip(rest, IsBlank)) <= MAX_HEADER_VALUE_BYTES
    ensures ParseHeaderLine(name + [0x3A] + rest) == Ok(Header(name, Strip(rest, IsBlank)))
  {
    hide Strip, IsToken, HasControl, Utf8Length;
    var line := name + [0x3A] + rest;
    assert line[|name|..|name| + 1] == [0x3A];
    forall k | 0 <= k < |name| ensures !Occurs<Byte>(line, [0x3A], k) {
      OccurrenceStarts(line, [0x3A], k);
      assert line[k] == name[k] && name[k] in name;
    }
    FirstIndex(line, [0x3A], |name|);
    hide IndexOf;
    assert line[..|name|] == name && line[|name| + 1..] == rest;
    assert line[|name|] in line && line[0] == name[0];
  }

  lemma UnknownCoding(line: Bytes, h: Header)
    requires line == TRANSFER_ENCODING + [0x3A] + ([0x20] + UNKNOWN_CODING)
    requires h == Header(TRANSFER_ENCODING, UNKNOWN_CODING)
    ensures ParseHeaderLine(line) == Ok(h) && HeadersSize([h]) == 22
  {
    var rest := [0x20] + UNKNOWN_CODING;
    assert Strip(rest, IsBlank) == UNKNOWN_CODING by {
      assert rest[1..] == UNKNOWN_CODING;
      assert StripLeft(rest, IsBlank) == StripLeft(rest[1..], IsBlank) == UNKNOWN_CODING;
    }
    assert Utf8Length(UNKNOWN_CODING) == 1 by {
      var v: Text := UNKNOWN_CODING;
      assert v[1..] == [];
      assert Encode(v) == EncodePoint(0x78) + Encode(v[1..]) == [0x78];
    }
    hide Strip, Utf8Length;
    FieldLine(TRANSFER_ENCODING, rest);
    assert [h][1..] == [];
    assert HeadersSize([]) == 0;
  }

  lemma UnknownIsNotChunked()
    ensures !IsChunked(UNKNOWN_CODING)
  {
    assert |Strip(UNKNOWN_CODING, IsLatinSpace)| <= |UNKNOWN_CODING|;
  }

  lemma FieldValues(h: Header, name: Bytes)
    requires Lower(h.name) == name
    ensures Values([h], name) == [Strip(h.value, IsBlank)]
  {
    hide Lower, Strip;
    assert [h][1..] == [];
    assert Values([], name) == [];
  }

  /** "transfer-encoding: x" on a response without a body is read and then refused, although
      no body has to be decoded. */
  lemma OmittedCodingIsRefused(req: Request)
    requires req.method_ == HEAD && req.maxWireBytes >= 39 && req.maxHeaderBytes >= 22
    ensures Exchange(HeadText(OK_CODE, [TRANSFER_ENCODING + [0x3A] + ([0x20] + UNKNOWN_CODING)]), req).Refused?
  {
    hide ParseHeaderLine, HeadersSize, Values, IsChunked, HeadText, Lower, ReadResponse, Object, PaddingSuffices, DecimalValue;
    var line, h := TRANSFER_ENCODING + [0x3A] + ([0x20] + UNKNOWN_CODING), Header(TRANSFER_ENCODING, UNKNOWN_CODING);
    UnknownCoding(line, h);
    LowerAlready(TRANSFER_ENCODING);
    FieldValues(h, TRANSFER_ENCODING);
    assert Strip(UNKNOWN_CODING, IsBlank) == UNKNOWN_CODING;
    UnknownIsNotChunked();
    OneHeader(line, h);
    OneFieldOnly(h);
    LinesWireOfOne(line);
    Codes();
    ReadingOfText(OK_CODE, [line], [h], req);
    ConstructorAcceptsExactly(HeadText(OK_CODE, [line]), req);
  }
}
