/** HTTP/1.1 on bytes: lines, header fields, status lines, chunk sizes and lengths
    (sections 4, 5, 6 and 7.1 of RFC 9112), as the transport parses them. */
module HttpSyntax {
  import opened Basics
  import opened Utf8
  import opened Ordering

  type Bytes = seq<Byte>

  const CRLF: Bytes := [0x0D, 0x0A]
  const BLANK: Bytes := [0x0D, 0x0A, 0x0D, 0x0A]

  datatype Error = LimitExceeded | ResponseInvalid

  datatype Result<+T> = Ok(value: T) | Err(error: Error) {
    predicate IsFailure() {
      Err?
    }
    function PropagateFailure<U>(): Result<U>
      requires Err?
    {
      Err(error)
    }
    function Extract(): T
      requires Ok?
    {
      value
    }
  }

  // ---------------------------------------------------------------- searching

  /** The first position of `sep` in `b`, or |b| when there is none. */
  function IndexOf(b: Bytes, sep: Bytes): (i: nat)
    ensures i <= |b|
  {
    if b == [] || sep <= b then 0 else 1 + IndexOf(b[1..], sep)
  }

  lemma {:induction false} IndexOfIsFirst(b: Bytes, sep: Bytes)
    requires sep != []
    ensures var i := IndexOf(b, sep);
      && (i < |b| ==> Occurs<Byte>(b, sep, i))
      && (forall k :: 0 <= k < i ==> !Occurs<Byte>(b, sep, k))
      && (i == |b| ==> forall k :: !Occurs<Byte>(b, sep, k))
  {
    if b != [] {
      OccursInTail(b, sep);
      if !(sep <= b) {
        IndexOfIsFirst(b[1..], sep);
      }
    }
  }

  lemma OccurrenceStarts(b: Bytes, sep: Bytes, k: nat)
    requires sep != [] && k < |b|
    ensures Occurs<Byte>(b, sep, k) ==> b[k] == sep[0]
  {
    if Occurs<Byte>(b, sep, k) {
      assert b[k] == b[k..k + |sep|][0];
    }
  }

  lemma IndexFits(b: Bytes, sep: Bytes)
    requires sep != []
    ensures IndexOf(b, sep) < |b| ==> IndexOf(b, sep) + |sep| <= |b|
  {
    IndexOfIsFirst(b, sep);
  }

  lemma OccursInTail(b: Bytes, sep: Bytes)
    requires b != []
    ensures forall k :: 1 <= k ==> (Occurs<Byte>(b, sep, k) <==> Occurs<Byte>(b[1..], sep, k - 1))
    ensures Occurs<Byte>(b, sep, 0) <==> sep <= b
  {
    forall k | 1 <= k ensures Occurs<Byte>(b, sep, k) <==> Occurs<Byte>(b[1..], sep, k - 1) {
      if k + |sep| <= |b| {
        assert b[1..][k - 1..k - 1 + |sep|] == b[k..k + |sep|];
      }
    }
    if Occurs<Byte>(b, sep, 0) {
      assert b[..|sep|] == b[0..0 + |sep|];
    }
    if sep <= b {
      assert b[0..0 + |sep|] == sep;
    }
  }

  lemma IndexOfByte(b: Bytes, x: Byte)
    ensures x in b <==> IndexOf(b, [x]) < |b|
  {
    IndexOfIsFirst(b, [x]);
    if x in b {
      var k :| 0 <= k < |b| && b[k] == x;
      assert b[k..k + 1] == [x];
      assert Occurs<Byte>(b, [x], k);
    }
    var i := IndexOf(b, [x]);
    if i < |b| {
      assert b[i] == b[i..i + 1][0] == x;
    }
  }

  /** `bytes.split(CRLF)`. */
  function SplitLines(b: Bytes): (lines: seq<Bytes>)
    ensures lines != []
    decreases |b|
  {
    var i := IndexOf(b, CRLF);
    IndexFits(b, CRLF);
    if i == |b| then [b] else [b[..i]] + SplitLines(b[i + 2..])
  }

  function LinesWire(lines: seq<Bytes>): nat {
    if lines == [] then 0 else |lines[0]| + 2 + LinesWire(lines[1..])
  }

  lemma {:induction false} SplitLinesWire(b: Bytes)
    ensures LinesWire(SplitLines(b)) == |b| + 2
    decreases |b|
  {
    var i := IndexOf(b, CRLF);
    IndexFits(b, CRLF);
    if i == |b| {
    } else {
      SplitLinesWire(b[i + 2..]);
      assert SplitLines(b)[1..] == SplitLines(b[i + 2..]);
    }
  }

  // ---------------------------------------------------------------- characters

  predicate IsBlank(b: Byte) {
    b == 0x20 || b == 0x09
  }

  /** Latin-1 white space in the sense of `str.strip()`. */
  predicate IsLatinSpace(b: Byte) {
    0x09 <= b <= 0x0D || 0x1C <= b <= 0x20 || b == 0x85 || b == 0xA0
  }

  predicate IsControl(b: Byte) {
    (b < 0x20 && b != 0x09) || b == 0x7F
  }

  predicate IsDigit(b: Byte) {
    0x30 <= b <= 0x39
  }

  predicate IsTokenByte(b: Byte) {
    IsDigit(b) || 0x41 <= b <= 0x5A || 0x61 <= b <= 0x7A
    || b in {0x21, 0x23, 0x24, 0x25, 0x26, 0x27, 0x2A, 0x2B, 0x2D, 0x2E, 0x5E, 0x5F, 0x60, 0x7C, 0x7E}
  }

  predicate HasControl(b: Bytes) {
    exists k :: 0 <= k < |b| && IsControl(b[k])
  }

  predicate IsToken(b: Bytes) {
    b != [] && forall k :: 0 <= k < |b| ==> IsTokenByte(b[k])
  }

  predicate AllDigits(b: Bytes) {
    forall k :: 0 <= k < |b| ==> IsDigit(b[k])
  }

  function Lower(b: Bytes): (r: Bytes)
    ensures |r| == |b|
  {
    if b == [] then [] else [if 0x41 <= b[0] <= 0x5A then b[0] + 0x20 else b[0]] + Lower(b[1..])
  }

  function StripLeft(b: Bytes, blank: Byte -> bool): (r: Bytes)
    ensures |r| <= |b|
  {
    if b != [] && blank(b[0]) then StripLeft(b[1..], blank) else b
  }

  function StripRight(b: Bytes, blank: Byte -> bool): (r: Bytes)
    ensures |r| <= |b|
  {
    if b != [] && blank(b[|b| - 1]) then StripRight(b[..|b| - 1], blank) else b
  }

  function Strip(b: Bytes, blank: Byte -> bool): (r: Bytes)
    ensures |r| <= |b|
  {
    StripRight(StripLeft(b, blank), blank)
  }

  // ---------------------------------------------------------------- header fields

  /** A decoded field: the value is Latin-1, so its code points are its bytes. */
  datatype Header = Header(name: Bytes, value: Bytes)

  const MAX_HEADER_VALUE_BYTES: nat := 64 * 1024

  /** The UTF-8 length of a Latin-1 value. */
  function Utf8Length(value: Bytes): nat {
    |Encode(value)|
  }

  /** One line: a token, a colon, a value between optional blanks. */
  function ParseHeaderLine(line: Bytes): Result<Header> {
    if line == [] || IsBlank(line[0]) || 0x3A !in line then Err(ResponseInvalid)
    else
      var i := IndexOf(line, [0x3A]);
      IndexOfByte(line, 0x3A);
      var name, value := line[..i], Strip(line[i + 1..], IsBlank);
      if HasControl(value) then Err(ResponseInvalid)
      else if !IsToken(name) then Err(ResponseInvalid)
      else if Utf8Length(value) > MAX_HEADER_VALUE_BYTES then Err(LimitExceeded)
      else Ok(Header(name, value))
  }

  function ParseHeaderLines(lines: seq<Bytes>): (r: Result<seq<Header>>)
    ensures r.Ok? ==> |r.value| == |lines|
  {
    if lines == [] then Ok([])
    else
      var first :- ParseHeaderLine(lines[0]);
      var rest :- ParseHeaderLines(lines[1..]);
      Ok([first] + rest)
  }

  /** Sizes as the code counts them: with a colon, a space and a line end each. */
  function HeadersSize(headers: seq<Header>): nat {
    if headers == [] then 0
    else |headers[0].name| + 2 + Utf8Length(headers[0].value) + 2 + HeadersSize(headers[1..])
  }

  function HeadersWireSize(headers: seq<Header>): nat {
    if headers == [] then 0
    else |headers[0].name| + 2 + |headers[0].value| + 2 + HeadersWireSize(headers[1..])
  }

  /** The optional blanks that a header line spends around its value. */
  function Padding(line: Bytes): int {
    match ParseHeaderLine(line)
    case Ok(h) => |line| - |h.name| - 1 - |h.value|
    case Err(_) => 0
  }

  function TotalPadding(lines: seq<Bytes>): int {
    if lines == [] then 0 else Padding(lines[0]) + TotalPadding(lines[1..])
  }

  /** The wire size that the code assumes differs from the real one by one byte a line,
      made up for by the blanks. */
  lemma {:induction false} WireSizeOfLines(lines: seq<Bytes>)
    requires ParseHeaderLines(lines).Ok?
    ensures LinesWire(lines) == HeadersWireSize(ParseHeaderLines(lines).value) + TotalPadding(lines) - |lines|
    ensures TotalPadding(lines) >= 0
  {
    if lines != [] {
      WireSizeOfLines(lines[1..]);
      var hs := ParseHeaderLines(lines).value;
      assert hs[0] == ParseHeaderLine(lines[0]).value && hs[1..] == ParseHeaderLines(lines[1..]).value;
      PaddingNotNegative(lines[0]);
    }
  }

  lemma PaddingNotNegative(line: Bytes)
    ensures Padding(line) >= 0
  {
    IndexOfByte(line, 0x3A);
  }

  /** The value of the only field of that (lower-case) name, stripped. */
  function Values(headers: seq<Header>, name: Bytes): seq<Bytes> {
    if headers == [] then []
    else (if Lower(headers[0].name) == name then [Strip(headers[0].value, IsBlank)] else []) + Values(headers[1..], name)
  }

  function SingleHeader(headers: seq<Header>, name: Bytes): Result<Option<Bytes>> {
    var values := Values(headers, name);
    if |values| > 1 then Err(ResponseInvalid) else if values == [] then Ok(None) else Ok(Some(values[0]))
  }

  const TRANSFER_ENCODING: Bytes := [0x74, 0x72, 0x61, 0x6E, 0x73, 0x66, 0x65, 0x72, 0x2D, 0x65, 0x6E, 0x63, 0x6F, 0x64, 0x69, 0x6E, 0x67]
  const CONTENT_LENGTH: Bytes := [0x63, 0x6F, 0x6E, 0x74, 0x65, 0x6E, 0x74, 0x2D, 0x6C, 0x65, 0x6E, 0x67, 0x74, 0x68]
  const LOCATION: Bytes := [0x6C, 0x6F, 0x63, 0x61, 0x74, 0x69, 0x6F, 0x6E]
  const CHUNKED: Bytes := [0x63, 0x68, 0x75, 0x6E, 0x6B, 0x65, 0x64]

  /** Whether splitting at commas and trimming leaves the one coding "chunked". */
  predicate IsChunked(value: Bytes) {
    0x2C !in value && Lower(Strip(value, IsLatinSpace)) == CHUNKED
  }

  // ---------------------------------------------------------------- numbers

  function DecimalValue(b: Bytes): nat
    requires AllDigits(b)
  {
    if b == [] then 0
    else
      var digit := b[|b| - 1];
      assert IsDigit(digit);
      10 * DecimalValue(b[..|b| - 1]) + (digit - 0x30)
  }

  /** "9223372036854775807" */
  const MAX_LENGTH: Bytes := [0x39, 0x32, 0x32, 0x33, 0x33, 0x37, 0x32, 0x30, 0x33, 0x36, 0x38, 0x35, 0x34, 0x37, 0x37, 0x35, 0x38, 0x30, 0x37]

  function ParseContentLength(value: Bytes): Result<nat> {
    var v := Strip(value, IsBlank);
    if v == [] || |v| > |MAX_LENGTH| || !AllDigits(v)
      || (|v| == |MAX_LENGTH| && LexLess(MAX_LENGTH, v)) then Err(ResponseInvalid)
    else Ok(DecimalValue(v))
  }

  function ParseStatusLine(line: Bytes): (r: Result<nat>)
    ensures r.Ok? ==> 100 <= r.value <= 599 && |line| >= 13
  {
    var first := IndexOf(line, [0x20]);
    if first >= |line| then Err(ResponseInvalid)
    else
      var version, rest := line[..first], line[first + 1..];
      var second := IndexOf(rest, [0x20]);
      if second >= |rest| then Err(ResponseInvalid)
      else
        var code, reason := rest[..second], rest[second + 1..];
        if version !in {[0x48, 0x54, 0x54, 0x50, 0x2F, 0x31, 0x2E, 0x30], [0x48, 0x54, 0x54, 0x50, 0x2F, 0x31, 0x2E, 0x31]}
          || |code| != 3 || !AllDigits(code) || HasControl(reason) then Err(ResponseInvalid)
        else
          var status := DecimalValue(code);
          if status < 100 || status > 599 then Err(ResponseInvalid) else Ok(status)
  }

  predicate IsHexDigit(b: Byte) {
    IsDigit(b) || 0x41 <= b <= 0x46 || 0x61 <= b <= 0x66
  }

  function HexDigitValue(b: Byte): (n: nat)
    requires IsHexDigit(b)
    ensures n < 16
  {
    if IsDigit(b) then b - 0x30 else if b <= 0x46 then b - 0x41 + 10 else b - 0x61 + 10
  }

  predicate AllHex(b: Bytes) {
    forall i :: 0 <= i < |b| ==> IsHexDigit(b[i])
  }

  function HexValue(b: Bytes): nat
    requires AllHex(b)
  {
    if b == [] then 0 else 16 * HexValue(b[..|b| - 1]) + HexDigitValue(b[|b| - 1])
  }

  /** `lstrip(b"0") or b"0"` */
  function Significant(b: Bytes): (s: Bytes)
    requires AllHex(b)
    ensures AllHex(s) && s != []
  {
    var s := StripLeft(b, (x: Byte) => x == 0x30);
    StripLeftHex(b);
    if s == [] then [0x30] else s
  }

  lemma {:induction false} StripLeftHex(b: Bytes)
    requires AllHex(b)
    ensures var s := StripLeft(b, (x: Byte) => x == 0x30);
      AllHex(s) && HexValue(s) == HexValue(b) && (s != [] ==> s[0] != 0x30)
  {
    if b != [] && b[0] == 0x30 {
      StripLeftHex(b[1..]);
      HexLeadingZero(b);
    }
  }

  lemma {:induction false} HexLeadingZero(b: Bytes)
    requires AllHex(b) && b != [] && b[0] == 0x30
    ensures HexValue(b[1..]) == HexValue(b)
  {
    if |b| > 1 {
      HexLeadingZero(b[..|b| - 1]);
      assert b[1..][..|b| - 2] == b[..|b| - 1][1..];
    } else {
      assert b[..0] == [];
    }
  }

  /** Dropping leading zeros keeps the value. */
  lemma SignificantValue(b: Bytes)
    requires AllHex(b)
    ensures HexValue(Significant(b)) == HexValue(b)
    ensures Significant(b)[0] != 0x30 || Significant(b) == [0x30]
    ensures b != [] ==> |Significant(b)| <= |b|
  {
    StripLeftHex(b);
    assert HexValue([0x30]) == 0 by {
      assert [0x30][..0] == [];
    }
  }

  /** The number of hexadecimal digits that print `n`. */
  function HexLength(n: nat): (d: nat)
    ensures d >= 1
  {
    if n < 16 then 1 else 1 + HexLength(n / 16)
  }

  /** A spelling of `n` has at least as many digits as printing it takes, and exactly as many
      when it does not start with zero. */
  lemma {:induction false} SpellingLength(b: Bytes)
    requires AllHex(b) && b != []
    ensures HexLength(HexValue(b)) <= |b|
    ensures b[0] != 0x30 ==> HexValue(b) > 0 && HexLength(HexValue(b)) == |b|
  {
    if |b| == 1 {
      assert b[..0] == [];
    } else {
      var front := b[..|b| - 1];
      SpellingLength(front);
      assert HexValue(b) / 16 == HexValue(front);
    }
  }

  /** A sum, with a carry, needs at most one digit more than its longer part. */
  lemma {:induction false} HexLengthOfSum(a: nat, b: nat, carry: nat)
    requires carry <= 1
    ensures HexLength(a + b + carry) <= (if HexLength(a) >= HexLength(b) then HexLength(a) else HexLength(b)) + 1
    decreases a + b
  {
    if a >= 16 || b >= 16 {
      var next := (a % 16 + b % 16 + carry) / 16;
      assert (a + b + carry) / 16 == a / 16 + b / 16 + next;
      HexLengthOfSum(a / 16, b / 16, next);
    }
  }
}
