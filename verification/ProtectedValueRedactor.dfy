/** The event redactor: registered text and byte values, kept in both alphabets, and the
    law that redacting text and redacting its UTF-8 bytes agree. */
module ProtectedValueRedactor {
  import opened Basics
  import opened Utf8
  import opened SpanRedaction
  import opened RedactionAbsorption

  /** "[REDACTED]", which is ASCII: its text and its bytes are the same numbers. */
  const MARKER: Text := [0x5B, 0x52, 0x45, 0x44, 0x41, 0x43, 0x54, 0x45, 0x44, 0x5D]

  datatype Rejection = EmptyRegistration | NotEncodable
  datatype Creation = Created(redactor: Redactor) | Rejected(reason: Rejection)

  /** The first registration refused, texts before bytes. */
  function FirstRejection(texts: seq<seq<CodePoint>>, bytes: seq<seq<Byte>>): (r: Option<Rejection>)
    ensures r == None <==> [] !in texts && [] !in bytes && forall t :: t in texts ==> Encodable(t)
  {
    if texts != [] then
      if texts[0] == [] then Some(EmptyRegistration)
      else if !Encodable(texts[0]) then Some(NotEncodable)
      else FirstRejection(texts[1..], bytes)
    else if [] in bytes then Some(EmptyRegistration)
    else None
  }

  ghost function EncodeAll(ts: set<Text>): set<seq<Byte>> {
    set t | t in ts :: Encode(t)
  }

  /** The byte values that are UTF-8, as text. */
  ghost function DecodeAll(bs: set<seq<Byte>>): set<Text> {
    set b | b in bs && Decode(b).Decoded? :: Decode(b).text
  }

  lemma EncodeAllAdds(ts: set<Text>, t: Text)
    ensures EncodeAll(ts + {t}) == EncodeAll(ts) + {Encode(t)}
  {
  }

  lemma DecodeAllAdds(bs: set<seq<Byte>>, b: seq<Byte>)
    ensures DecodeAll(bs + {b}) == DecodeAll(bs) + (if Decode(b).Decoded? then {Decode(b).text} else {})
  {
  }

  lemma PrefixElements<T>(s: seq<T>, i: nat)
    requires i < |s|
    ensures Elements(s[..i + 1]) == Elements(s[..i]) + {s[i]}
    ensures s[i] in s
  {
    assert s[..i + 1] == s[..i] + [s[i]];
  }

  /** The loop over text registrations: each is kept, and its bytes are kept. */
  method RegisterTexts(texts: seq<Text>) returns (textRegistered: seq<Text>, byteRegistered: seq<seq<Byte>>)
    requires [] !in texts
    ensures [] !in textRegistered && [] !in byteRegistered
    ensures Elements(textRegistered) == Elements(texts)
    ensures Elements(byteRegistered) == EncodeAll(Elements(texts))
  {
    textRegistered, byteRegistered := [], [];
    for i := 0 to |texts|
      invariant [] !in textRegistered && [] !in byteRegistered
      invariant Elements(textRegistered) == Elements(texts[..i])
      invariant Elements(byteRegistered) == EncodeAll(Elements(texts[..i]))
    {
      PrefixElements(texts, i);
      EncodeAllAdds(Elements(texts[..i]), texts[i]);
      EncodeLength(texts[i]);
      textRegistered := Added(textRegistered, texts[i]);
      byteRegistered := Added(byteRegistered, Encode(texts[i]));
    }
    assert texts[..|texts|] == texts;
  }

  /** The loop over byte registrations: each is kept, and its text if it has one. */
  method RegisterBytes(bytes: seq<seq<Byte>>, texts: seq<Text>, encoded: seq<seq<Byte>>)
    returns (textRegistered: seq<Text>, byteRegistered: seq<seq<Byte>>)
    requires [] !in bytes && [] !in texts && [] !in encoded
    ensures [] !in textRegistered && [] !in byteRegistered
    ensures Elements(textRegistered) == Elements(texts) + DecodeAll(Elements(bytes))
    ensures Elements(byteRegistered) == Elements(encoded) + Elements(bytes)
  {
    textRegistered, byteRegistered := texts, encoded;
    for i := 0 to |bytes|
      invariant [] !in textRegistered && [] !in byteRegistered
      invariant Elements(textRegistered) == Elements(texts) + DecodeAll(Elements(bytes[..i]))
      invariant Elements(byteRegistered) == Elements(encoded) + Elements(bytes[..i])
    {
      PrefixElements(bytes, i);
      DecodeAllAdds(Elements(bytes[..i]), bytes[i]);
      byteRegistered := Added(byteRegistered, bytes[i]);
      var decoding := Decode(bytes[i]);
      if decoding.Decoded? {
        DecodedIsEncoded(bytes[i]);
        textRegistered := Added(textRegistered, decoding.text);
      }
    }
    assert bytes[..|bytes|] == bytes;
  }

  /** What redacting means in each alphabet. */
  ghost function RedactedText(v: seq<CodePoint>, ps: set<Text>): seq<CodePoint> {
    Redaction<CodePoint>(v, ps, MARKER)
  }

  ghost function RedactedBytes(v: seq<Byte>, ps: set<seq<Byte>>): seq<Byte> {
    Redaction<Byte>(v, ps, Encode(MARKER))
  }

  class Redactor {
    var textValues: seq<Text>
    var byteValues: seq<seq<Byte>>

    ghost predicate Valid()
      reads this
    {
      [] !in textValues && [] !in byteValues
    }

    /** Keeps every registration in both alphabets where it has a form in both. */
    constructor (texts: seq<Text>, bytes: seq<seq<Byte>>)
      requires [] !in texts && [] !in bytes
      ensures Valid()
      ensures Elements(textValues) == Elements(texts) + DecodeAll(Elements(bytes))
      ensures Elements(byteValues) == EncodeAll(Elements(texts)) + Elements(bytes)
    {
      var textRegistered, byteRegistered := RegisterTexts(texts);
      textRegistered, byteRegistered := RegisterBytes(bytes, textRegistered, byteRegistered);
      textValues, byteValues := textRegistered, byteRegistered;
    }

    method RedactText(value: seq<CodePoint>) returns (r: seq<CodePoint>)
      requires Valid()
      ensures r == RedactedText(value, Elements(textValues))
    {
      r := RedactSpans<CodePoint>(value, textValues, MARKER);
      assert Elements<seq<CodePoint>>(textValues) == Elements<Text>(textValues);
    }

    method RedactBytes(value: seq<Byte>) returns (r: seq<Byte>)
      requires Valid()
      ensures r == RedactedBytes(value, Elements(byteValues))
    {
      r := RedactSpans<Byte>(value, byteValues, Encode(MARKER));
    }

    /** How a command asks whether a text carries a protected value. */
    method ContainsProtectedText(value: seq<CodePoint>) returns (b: bool)
      requires Valid()
      ensures b <==> RedactedText(value, Elements(textValues)) != value
      ensures !Contains<CodePoint>(value, MARKER) ==> (b <==> exists p :: p in textValues && Contains<CodePoint>(value, p))
    {
      var redacted := RedactText(value);
      b := redacted != value;
      if !Contains<CodePoint>(value, MARKER) {
        DetectionIsExact<CodePoint>(value, Elements(textValues), MARKER);
        assert forall p :: p in Elements(textValues) <==> p in textValues;
      }
    }
  }

  /** `accepted` are the registered texts; each value is known in every alphabet that it has. */
  ghost predicate Registered(r: Redactor, texts: seq<seq<CodePoint>>, accepted: seq<Text>, bytes: seq<seq<Byte>>)
    reads r
  {
    && |accepted| == |texts| && (forall j :: 0 <= j < |texts| ==> accepted[j] == texts[j])
    && Elements(r.textValues) == Elements(accepted) + DecodeAll(Elements(bytes))
    && Elements(r.byteValues) == EncodeAll(Elements(accepted)) + Elements(bytes)
  }

  /** Building a redactor from untrusted registrations. */
  method Create(texts: seq<seq<CodePoint>>, bytes: seq<seq<Byte>>) returns (r: Creation)
    ensures r.Rejected? <==> FirstRejection(texts, bytes).Some?
    ensures r.Rejected? ==> Some(r.reason) == FirstRejection(texts, bytes)
    ensures r.Created? ==>
      r.redactor.Valid() && exists accepted: seq<Text> :: Registered(r.redactor, texts, accepted, bytes)
  {
    var refusal := FirstRejection(texts, bytes);
    if refusal.Some? {
      return Rejected(refusal.value);
    }
    var accepted: seq<Text> := [];
    for i := 0 to |texts|
      invariant |accepted| == i && forall j :: 0 <= j < i ==> accepted[j] == texts[j]
      invariant [] !in accepted
    {
      assert texts[i] in texts;
      accepted := accepted + [AsText(texts[i])];
    }
    var redactor := new Redactor(accepted, bytes);
    assert Registered(redactor, texts, accepted, bytes);
    r := Created(redactor);
  }

  /** Adding to a Python set, kept as a duplicate-free list. */
  function Added<T(==)>(s: seq<T>, x: T): (r: seq<T>)
    ensures Elements(r) == Elements(s) + {x}
    ensures x in r && (forall y :: y in s ==> y in r) && (forall y :: y in r ==> y in s || y == x)
  {
    if x in s then s else s + [x]
  }

  // ---------------------------------------------------------------- redaction commutes with UTF-8

  lemma MatchOfInBytes(t: Text, p: Text, s: Span)
    requires IsMatchOf<CodePoint>(t, p, s)
    ensures s.start <= s.end <= |t|
    ensures IsMatchOf<Byte>(Encode(t), Encode(p), Span(Offset(t, s.start), Offset(t, s.end)))
  {
    hide Encode, EncodePoint;
    OccursEncoded(t, p, s.start);
    OffsetSlice(t, s.start, s.end);
  }

  /** An occurrence over the text is an occurrence over its bytes, at the offsets of its ends. */
  lemma TextMatchInBytes(t: Text, ps: set<Text>, s: Span)
    requires IsMatch<CodePoint>(t, ps, s)
    ensures s.start <= s.end <= |t|
    ensures IsMatch<Byte>(Encode(t), EncodeAll(ps), Span(Offset(t, s.start), Offset(t, s.end)))
  {
    hide Encode, Offset, IsMatchOf;
    var p: Text :| p in ps && IsMatchOf<CodePoint>(t, p, s);
    MatchOfInBytes(t, p, s);
    assert Encode(p) in EncodeAll(ps);
  }

  /** Conversely, byte occurrences begin and end on code point boundaries. */
  lemma ByteMatchInText(t: Text, ps: set<Text>, s: Span) returns (u: Span)
    requires [] !in ps && IsMatch<Byte>(Encode(t), EncodeAll(ps), s)
    ensures u.start < u.end <= |t| && IsMatch<CodePoint>(t, ps, u)
    ensures s == Span(Offset(t, u.start), Offset(t, u.end))
  {
    var b :| b in EncodeAll(ps) && IsMatchOf<Byte>(Encode(t), b, s);
    var p: Text :| p in ps && Encode(p) == b;
    assert p != [];
    var i := SelfSynchronising(t, p, s.start);
    u := Span(i, i + |p|);
    OffsetSlice(t, i, i + |p|);
    assert IsMatchOf<CodePoint>(t, p, u);
  }

  /** A code point is covered when any of its bytes is. */
  lemma CoveredInBytes(t: Text, ps: set<Text>, i: nat, k: nat)
    requires [] !in ps && i < |t| && Offset(t, i) <= k < Offset(t, i + 1)
    ensures Covered<Byte>(Encode(t), EncodeAll(ps), k) <==> Covered<CodePoint>(t, ps, i)
  {
    hide Encode, Offset, EncodeAll, IsMatch;
    if Covered<CodePoint>(t, ps, i) {
      var s :| IsMatch<CodePoint>(t, ps, s) && s.start <= i < s.end;
      TextMatchInBytes(t, ps, s);
      OffsetOrder(t, s.start, i);
      OffsetOrder(t, i + 1, s.end);
    }
    if Covered<Byte>(Encode(t), EncodeAll(ps), k) {
      var s :| IsMatch<Byte>(Encode(t), EncodeAll(ps), s) && s.start <= k < s.end;
      var u := ByteMatchInText(t, ps, s);
      if i < u.start {
        OffsetOrder(t, i + 1, u.start);
      }
      if u.end <= i {
        OffsetOrder(t, u.end, i);
      }
    }
  }

  lemma JoinedTextInBytes(t: Text, ps: set<Text>, i: nat)
    requires [] !in ps && i < |t| && Joined<CodePoint>(t, ps, i)
    ensures Joined<Byte>(Encode(t), EncodeAll(ps), Offset(t, i))
  {
    var s :| IsMatch<CodePoint>(t, ps, s) && s.start < i < s.end;
    TextMatchInBytes(t, ps, s);
    OffsetMonotone(t, s.start, i);
    OffsetMonotone(t, i, s.end);
  }

  lemma JoinedBytesInText(t: Text, ps: set<Text>, i: nat)
    requires [] !in ps && i < |t| && Joined<Byte>(Encode(t), EncodeAll(ps), Offset(t, i))
    ensures Joined<CodePoint>(t, ps, i)
  {
    var k := Offset(t, i);
    var s :| IsMatch<Byte>(Encode(t), EncodeAll(ps), s) && s.start < k < s.end;
    var u := ByteMatchInText(t, ps, s);
    if i <= u.start {
      OffsetOrder(t, i, u.start);
    }
    if u.end <= i {
      OffsetOrder(t, u.end, i);
    }
    assert u.start < i < u.end;
  }

  lemma JoinedInsidePoint(t: Text, ps: set<Text>, i: nat, k: nat)
    requires [] !in ps && i < |t| && Offset(t, i) < k < Offset(t, i + 1)
    requires Covered<CodePoint>(t, ps, i)
    ensures Joined<Byte>(Encode(t), EncodeAll(ps), k)
  {
    var s :| IsMatch<CodePoint>(t, ps, s) && s.start <= i < s.end;
    TextMatchInBytes(t, ps, s);
    OffsetsAround(t, s, i);
    JoinedBy(Encode(t), EncodeAll(ps), Span(Offset(t, s.start), Offset(t, s.end)), k);
  }

  lemma OffsetsAround(t: Text, s: Span, i: nat)
    requires s.start <= i < s.end <= |t|
    ensures Offset(t, s.start) <= Offset(t, i) && Offset(t, i + 1) <= Offset(t, s.end)
  {
    OffsetOrder(t, s.start, i);
    OffsetOrder(t, i + 1, s.end);
  }

  lemma JoinedBy(v: seq<Byte>, bs: set<seq<Byte>>, s: Span, k: nat)
    requires IsMatch<Byte>(v, bs, s) && s.start < k < s.end
    ensures Joined<Byte>(v, bs, k)
  {
  }

  /** A cut between code points is joined in the bytes when it is in the text, and a cut
      inside a covered code point always is. */
  lemma JoinedInBytes(t: Text, ps: set<Text>, i: nat, k: nat)
    requires [] !in ps && i < |t| && Offset(t, i) <= k < Offset(t, i + 1)
    ensures k == Offset(t, i) ==> (Joined<Byte>(Encode(t), EncodeAll(ps), k) <==> Joined<CodePoint>(t, ps, i))
    ensures k != Offset(t, i) && Covered<CodePoint>(t, ps, i) ==> Joined<Byte>(Encode(t), EncodeAll(ps), k)
  {
    if k != Offset(t, i) {
      if Covered<CodePoint>(t, ps, i) {
        JoinedInsidePoint(t, ps, i, k);
      }
    } else if Joined<CodePoint>(t, ps, i) {
      JoinedTextInBytes(t, ps, i);
    } else if Joined<Byte>(Encode(t), EncodeAll(ps), k) {
      JoinedBytesInText(t, ps, i);
    }
  }

  lemma OffsetOrder(t: Text, i: nat, j: nat)
    requires i <= j <= |t|
    ensures Offset(t, i) <= Offset(t, j)
  {
    if i < j {
      OffsetMonotone(t, i, j);
    }
  }

  /** The redaction of the bytes of `t` from its `i`-th code point on. */
  ghost function BytesFrom(t: Text, ps: set<Text>, i: nat): seq<Byte>
    requires i <= |t|
  {
    EncodeSplit(t, i);
    RedactionFrom<Byte>(Encode(t), EncodeAll(ps), Encode(MARKER), Offset(t, i))
  }

  ghost function PieceText(t: Text, ps: set<Text>, i: nat): Text
    requires i < |t|
  {
    if !Covered<CodePoint>(t, ps, i) then [t[i]]
    else if Joined<CodePoint>(t, ps, i) then []
    else MARKER
  }

  ghost function TextFrom(t: Text, ps: set<Text>, i: nat): Text
    requires i <= |t|
    decreases |t| - i
  {
    if i == |t| then [] else PieceText(t, ps, i) + TextFrom(t, ps, i + 1)
  }

  /** A redacted text has no lone surrogates either. */
  lemma {:induction false} TextFromIsRedaction(t: Text, ps: set<Text>, i: nat)
    requires i <= |t|
    ensures RedactionFrom<CodePoint>(t, ps, MARKER, i) == TextFrom(t, ps, i)
    decreases |t| - i
  {
    if i < |t| {
      TextFromIsRedaction(t, ps, i + 1);
    }
  }

  lemma UncoveredPiece(t: Text, ps: set<Text>, i: nat)
    requires [] !in ps && i < |t| && !Covered<CodePoint>(t, ps, i)
    ensures BytesFrom(t, ps, i) == EncodePoint(t[i]) + BytesFrom(t, ps, i + 1)
  {
    OffsetStep(t, i);
    forall k | Offset(t, i) <= k < Offset(t, i + 1) ensures !Covered<Byte>(Encode(t), EncodeAll(ps), k) {
      CoveredInBytes(t, ps, i, k);
    }
    CopyGap<Byte>(Encode(t), EncodeAll(ps), Encode(MARKER), Offset(t, i), Offset(t, i + 1));
  }

  lemma CoveredPiece(t: Text, ps: set<Text>, i: nat)
    requires [] !in ps && i < |t| && Covered<CodePoint>(t, ps, i)
    ensures BytesFrom(t, ps, i)
      == (if Joined<CodePoint>(t, ps, i) then [] else Encode(MARKER)) + BytesFrom(t, ps, i + 1)
  {
    var v, bs, m := Encode(t), EncodeAll(ps), Encode(MARKER);
    var a, b := Offset(t, i), Offset(t, i + 1);
    OffsetStep(t, i);
    CoveredInBytes(t, ps, i, a);
    JoinedInBytes(t, ps, i, a);
    forall k | a < k < b ensures Covered<Byte>(v, bs, k) && Joined<Byte>(v, bs, k) {
      CoveredInBytes(t, ps, i, k);
      JoinedInBytes(t, ps, i, k);
    }
    DropJoined<Byte>(v, bs, m, a + 1, b);
  }

  /** The bytes of one code point contribute what the code point contributes, encoded. */
  lemma {:induction false} FromCommutes(t: Text, ps: set<Text>, i: nat)
    requires [] !in ps && i <= |t|
    ensures BytesFrom(t, ps, i) == Encode(TextFrom(t, ps, i))
    decreases |t| - i
  {
    if i == |t| {
      assert t[..i] == t;
    } else {
      FromCommutes(t, ps, i + 1);
      EncodeConcat(PieceText(t, ps, i), TextFrom(t, ps, i + 1));
      if !Covered<CodePoint>(t, ps, i) {
        UncoveredPiece(t, ps, i);
        assert Encode([t[i]]) == EncodePoint(t[i]) + Encode([]);
      } else {
        CoveredPiece(t, ps, i);
      }
    }
  }

  /** Redacting a text and then encoding it is redacting its bytes, whatever was registered. */
  lemma RedactionCommutesWithEncoding(t: Text, ps: set<Text>)
    requires [] !in ps
    ensures Encodable(RedactedText(t, ps))
    ensures RedactedBytes(Encode(t), EncodeAll(ps)) == Encode(AsText(RedactedText(t, ps)))
  {
    FromCommutes(t, ps, 0);
    TextFromIsRedaction(t, ps, 0);
    assert t[..0] == [];
  }

  /** The byte alphabet holds the encoded text alphabet, and beyond it just the byte values
      that are not UTF-8. */
  lemma FurtherBytes(texts: set<Text>, bytes: set<seq<Byte>>)
    ensures EncodeAll(texts + DecodeAll(bytes)) <= EncodeAll(texts) + bytes
    ensures var further := EncodeAll(texts) + bytes - EncodeAll(texts + DecodeAll(bytes));
      forall b :: (b in further <==> b in bytes && Decode(b).Malformed?)
  {
    var all := EncodeAll(texts + DecodeAll(bytes));
    forall e | e in all ensures Decode(e).Decoded? && e in EncodeAll(texts) + bytes {
      var t :| t in texts + DecodeAll(bytes) && Encode(t) == e;
      DecodeOfEncode(t);
      if t !in texts {
        var b :| b in bytes && Decode(b).Decoded? && Decode(b).text == t;
        DecodedIsEncoded(b);
      }
    }
    forall b | b in EncodeAll(texts) ensures b in all {
      var t :| t in texts && Encode(t) == b;
      assert t in texts + DecodeAll(bytes);
    }
    forall b | b in bytes && Decode(b).Decoded? ensures b in all {
      DecodedIsEncoded(b);
      assert Decode(b).text in texts + DecodeAll(bytes);
    }
  }

  /** The two alphabets of one redactor hold the same registrations exactly when every
      registered byte value is UTF-8. */
  lemma AlphabetsAgree(texts: set<Text>, bytes: set<seq<Byte>>)
    ensures EncodeAll(texts + DecodeAll(bytes)) == EncodeAll(texts) + bytes
      <==> forall b :: b in bytes ==> Decode(b).Decoded?
  {
    FurtherBytes(texts, bytes);
    var further := EncodeAll(texts) + bytes - EncodeAll(texts + DecodeAll(bytes));
    if b :| b in bytes && Decode(b).Malformed? {
      assert b in further;
    } else {
      assert further == {};
    }
  }

  /** For a redactor built from `texts` and `bytes`, redaction commutes with encoding on
      every text when all the byte registrations are UTF-8. */
  lemma RedactorCommutes(texts: set<Text>, bytes: set<seq<Byte>>, t: Text)
    requires [] !in texts && [] !in bytes
    requires forall b :: b in bytes ==> Decode(b).Decoded?
    ensures Encodable(RedactedText(t, texts + DecodeAll(bytes)))
    ensures RedactedBytes(Encode(t), EncodeAll(texts) + bytes)
      == Encode(AsText(RedactedText(t, texts + DecodeAll(bytes))))
  {
    AlphabetsAgree(texts, bytes);
    forall b | b in bytes ensures Decode(b).text != [] {
      DecodedIsEncoded(b);
    }
    RedactionCommutesWithEncoding(t, texts + DecodeAll(bytes));
  }

  // ---------------------------------------------------------------- byte values that are not UTF-8

  predicate Ascii(b: seq<Byte>) {
    forall k :: 0 <= k < |b| ==> b[k] < 0x80
  }

  lemma {:induction false} AsciiDecodes(b: seq<Byte>)
    requires Ascii(b)
    ensures Decode(b).Decoded?
  {
    if b != [] {
      AsciiDecodes(b[1..]);
      assert DecodePoint(b) == Some(b[0] as int);
    }
  }

  lemma {:induction false} EncodeAscii(t: Text)
    requires forall k :: 0 <= k < |t| ==> t[k] < 0x80
    ensures Ascii(Encode(t))
  {
    if t != [] {
      EncodeAscii(t[1..]);
    }
  }

  /** The code points from `i` to `j` belong to one group of text matches, and `s`, which
      counts bytes, lies within them. */
  ghost predicate GroupHolds(t: Text, ps: set<Text>, i: nat, j: nat, s: Span) {
    && i < j <= |t| && Offset(t, i) <= s.start && s.end <= Offset(t, j)
    && (forall x :: i <= x < j ==> Covered<CodePoint>(t, ps, x))
    && (forall x :: i < x < j ==> Joined<CodePoint>(t, ps, x))
  }

  ghost predicate InOneGroup(t: Text, ps: set<Text>, s: Span) {
    exists i, j :: GroupHolds(t, ps, i, j, s)
  }

  lemma {:induction false} OffsetReflects(t: Text, i: nat, j: nat)
    requires i <= |t| && j <= |t| && Offset(t, i) < Offset(t, j)
    ensures i < j
  {
    if j <= i {
      OffsetOrder(t, j, i);
    }
  }

  lemma AbsorbedInGroup(t: Text, ps: set<Text>, s: Span)
    requires [] !in ps && s.start < s.end <= |Encode(t)|
    requires Absorbed<Byte>(Encode(t), EncodeAll(ps), s)
    ensures InOneGroup(t, ps, s)
  {
    hide Encode, Offset, EncodeAll, Covered, Joined;
    var i := PointAt(t, s.start);
    var l := PointAt(t, s.end - 1);
    OffsetReflects(t, i, l + 1);
    forall x | i <= x < l + 1
      ensures Covered<CodePoint>(t, ps, x) && (i < x ==> Joined<CodePoint>(t, ps, x))
    {
      OffsetOrder(t, x, l);
      if i == x {
        CoveredInBytes(t, ps, x, s.start);
      } else {
        OffsetOrder(t, i + 1, x);
        OffsetMonotone(t, x, x + 1);
        CoveredInBytes(t, ps, x, Offset(t, x));
        JoinedInBytes(t, ps, x, Offset(t, x));
      }
    }
    assert GroupHolds(t, ps, i, l + 1, s);
  }

  lemma GroupAbsorbs(t: Text, ps: set<Text>, s: Span)
    requires [] !in ps && s.end <= |Encode(t)| && InOneGroup(t, ps, s)
    ensures Absorbed<Byte>(Encode(t), EncodeAll(ps), s)
  {
    hide Encode, Offset, EncodeAll, Covered, Joined;
    var i: nat, j: nat :| GroupHolds(t, ps, i, j, s);
    forall q | s.start <= q < s.end
      ensures Covered<Byte>(Encode(t), EncodeAll(ps), q)
      ensures s.start < q ==> Joined<Byte>(Encode(t), EncodeAll(ps), q)
    {
      var x := PointAt(t, q);
      OffsetReflects(t, i, x + 1);
      OffsetReflects(t, x, j);
      CoveredInBytes(t, ps, x, q);
      JoinedInBytes(t, ps, x, q);
    }
  }

  /** Every occurrence of a byte value that is not UTF-8 lies inside one group of text matches. */
  ghost predicate NothingSticksOut(t: Text, ps: set<Text>, bytes: set<seq<Byte>>) {
    forall b, k: nat :: b in bytes && Decode(b).Malformed? && Occurs(Encode(t), b, k) ==>
      InOneGroup(t, ps, Span(k, k + |b|))
  }

  lemma NothingSticksOutExactly(texts: set<Text>, bytes: set<seq<Byte>>, t: Text)
    requires [] !in texts && [] !in bytes
    ensures var ps := texts + DecodeAll(bytes);
      NothingSticksOut(t, ps, bytes) <==> AllAbsorbed<Byte>(Encode(t), EncodeAll(ps), EncodeAll(texts) + bytes)
  {
    hide Encode, Decode, EncodeAll, InOneGroup, Absorbed;
    var ps := texts + DecodeAll(bytes);
    NoEmptyForms(texts, bytes);
    FurtherBytes(texts, bytes);
    var v, all, more := Encode(t), EncodeAll(ps), EncodeAll(texts) + bytes;
    if NothingSticksOut(t, ps, bytes) {
      forall s | IsMatch<Byte>(v, more - all, s) ensures Absorbed<Byte>(v, all, s) {
        var b :| b in more - all && IsMatchOf<Byte>(v, b, s);
        assert Occurs(v, b, s.start);
        assert s == Span(s.start, s.start + |b|);
        GroupAbsorbs(t, ps, s);
      }
    }
    if AllAbsorbed<Byte>(v, all, more) {
      forall b, k: nat | b in bytes && Decode(b).Malformed? && Occurs(v, b, k)
        ensures InOneGroup(t, ps, Span(k, k + |b|))
      {
        assert IsMatchOf<Byte>(v, b, Span(k, k + |b|)) && b in more - all;
        AbsorbedInGroup(t, ps, Span(k, k + |b|));
      }
    }
  }

  lemma NoEmptyForms(texts: set<Text>, bytes: set<seq<Byte>>)
    requires [] !in texts && [] !in bytes
    ensures [] !in texts + DecodeAll(bytes)
  {
    forall b | b in bytes && Decode(b).Decoded? ensures Decode(b).text != [] {
      DecodedIsEncoded(b);
    }
  }

  /** The law, exactly: redacting the bytes of a text is encoding the redacted text just when
      no occurrence of a byte value that is not UTF-8 sticks out of a group of text matches. */
  lemma RedactorCommutesExactly(texts: set<Text>, bytes: set<seq<Byte>>, t: Text)
    requires [] !in texts && [] !in bytes
    ensures Encodable(RedactedText(t, texts + DecodeAll(bytes)))
    ensures RedactedBytes(Encode(t), EncodeAll(texts) + bytes)
        == Encode(AsText(RedactedText(t, texts + DecodeAll(bytes))))
      <==> NothingSticksOut(t, texts + DecodeAll(bytes), bytes)
  {
    hide Redaction, Encode, Decode, EncodeAll, DecodeAll, AllAbsorbed, NothingSticksOut;
    var ps := texts + DecodeAll(bytes);
    var v, all, more := Encode(t), EncodeAll(ps), EncodeAll(texts) + bytes;
    NoEmptyForms(texts, bytes);
    RedactionCommutesWithEncoding(t, ps);
    FurtherBytes(texts, bytes);
    var heavy := (b: Byte) => b >= 0x80;
    EncodeAscii(MARKER);
    EncodeLength(MARKER);
    forall b | b in more - all ensures exists x :: x in b && heavy(x) {
      if Ascii(b) {
        AsciiDecodes(b);
      }
      var k :| 0 <= k < |b| && b[k] >= 0x80;
      assert b[k] in b && heavy(b[k]);
    }
    SameRedactionExactly<Byte>(v, all, more, Encode(MARKER), heavy);
    NothingSticksOutExactly(texts, bytes, t);
  }

  lemma TailMatch(v: seq<Byte>, b: seq<Byte>)
    requires v == [0xC3, 0xA9] && b == [0xA9]
    ensures Covered<Byte>(v, {b}, 1) && !Covered<Byte>(v, {b}, 0) && !Joined<Byte>(v, {b}, 1)
  {
    assert IsMatchOf<Byte>(v, b, Span(1, 2)) && IsMatch<Byte>(v, {b}, Span(1, 2));
    forall s | IsMatch<Byte>(v, {b}, s) ensures s == Span(1, 2) {
      assert v[s.start..s.start + 1] == b;
      assert v[s.start] == 0xA9;
    }
  }

  /** Without that the law fails: the lone continuation byte 0xA9 occurs inside the two bytes
      of U+00E9, so the byte redactor cuts a code point that the text redactor keeps. */
  lemma UndecodableRegistrationBreaksTheLaw()
    ensures var t: Text, b: seq<Byte> := [0xE9], [0xA9];
      && Decode(b).Malformed?
      && RedactedText(t, DecodeAll({b})) == t
      && RedactedBytes(Encode(t), {b}) == [0xC3] + Encode(MARKER) != Encode(t)
  {
    var t: Text, b: seq<Byte> := [0xE9], [0xA9];
    assert Encode(t) == [0xC3, 0xA9] by {
      assert EncodePoint(0xE9) == [0xC3, 0xA9];
    }
    assert Decode(b).Malformed?;
    assert DecodeAll({b}) == {};
    UntouchedWithoutMatches<CodePoint>(t, {}, MARKER);
    var v := Encode(t);
    TailMatch(v, b);
    hide Covered, Joined, Encode;
    assert RedactionFrom<Byte>(v, {b}, Encode(MARKER), 2) == [];
    assert RedactionFrom<Byte>(v, {b}, Encode(MARKER), 1) == Encode(MARKER);
    assert RedactionFrom<Byte>(v, {b}, Encode(MARKER), 0) == [0xC3] + Encode(MARKER);
    EncodeLength(MARKER);
  }

  lemma {:induction false} BytesStayLow(t: Text)
    ensures forall k :: 0 <= k < |Encode(t)| ==> Encode(t)[k] < 0xF8
  {
    if t != [] {
      BytesStayLow(t[1..]);
    }
  }

  /** Not every such value is harmful: 0xFF occurs in no text, and the law holds on all of them. */
  lemma UnwritableByteKeepsTheLaw(t: Text)
    ensures Decode([0xFF]).Malformed?
    ensures Encodable(RedactedText(t, DecodeAll({[0xFF]})))
    ensures RedactedBytes(Encode(t), {[0xFF]}) == Encode(AsText(RedactedText(t, DecodeAll({[0xFF]}))))
  {
    var none: set<Text> := {};
    var b: seq<Byte> := [0xFF];
    BytesStayLow(t);
    forall k: nat ensures !Occurs(Encode(t), b, k) {
      if k < |Encode(t)| {
        assert Encode(t)[k..k + 1][0] == Encode(t)[k];
      }
    }
    assert none + DecodeAll({b}) == DecodeAll({b});
    assert EncodeAll(none) + {b} == {b};
    RedactorCommutesExactly(none, {b}, t);
  }
}
