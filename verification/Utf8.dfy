/** Code points, bytes and the strict UTF-8 codec (section 3 of RFC 3629) that every
    other module counts and cuts text with.  Python text may hold lone surrogates, which
    the strict codec refuses; a `Text` is text without them. */
module Utf8 {
  import opened Basics
  import opened Ordering

  type Byte = b: int | 0 <= b < 0x100
  type CodePoint = c: int | 0 <= c < 0x11_0000
  type Scalar = c: CodePoint | !(0xD800 <= c < 0xE000)
  type Text = seq<Scalar>

  predicate IsScalar(c: CodePoint) {
    !(0xD800 <= c < 0xE000)
  }

  /** Whether the strict codec accepts a Python string. */
  predicate Encodable(s: seq<CodePoint>) {
    forall i :: 0 <= i < |s| ==> IsScalar(s[i])
  }

  function AsText(s: seq<CodePoint>): (t: Text)
    requires Encodable(s)
    ensures t == s
  {
    if s == [] then [] else [s[0]] + AsText(s[1..])
  }

  predicate IsContinuation(b: Byte) {
    0x80 <= b < 0xC0
  }

  function EncodePoint(c: Scalar): (e: seq<Byte>)
    ensures 1 <= |e| <= 4
  {
    if c < 0x80 then [c]
    else if c < 0x800 then [0xC0 + c / 0x40, 0x80 + c % 0x40]
    else if c < 0x1_0000 then [0xE0 + c / 0x1000, 0x80 + c / 0x40 % 0x40, 0x80 + c % 0x40]
    else [0xF0 + c / 0x4_0000, 0x80 + c / 0x1000 % 0x40, 0x80 + c / 0x40 % 0x40, 0x80 + c % 0x40]
  }

  function Encode(t: Text): seq<Byte> {
    if t == [] then [] else EncodePoint(t[0]) + Encode(t[1..])
  }

  /** The sequence length that a lead byte announces; 0 for a byte that cannot lead. */
  function LeadLength(b: Byte): nat {
    if b < 0x80 then 1
    else if 0xC0 <= b < 0xE0 then 2
    else if 0xE0 <= b < 0xF0 then 3
    else if 0xF0 <= b < 0xF8 then 4
    else 0
  }

  /** The value spelled by a lead byte of length `n` and its continuation bytes. */
  function PointValue(b: seq<Byte>, n: nat): int
    requires 1 <= n <= 4 && n <= |b|
  {
    var b0: int := b[0];
    if n == 1 then b0
    else
      var b1 := b[1] as int - 0x80;
      if n == 2 then (b0 - 0xC0) * 0x40 + b1
      else
        var b2 := b[2] as int - 0x80;
        if n == 3 then (b0 - 0xE0) * 0x1000 + b1 * 0x40 + b2
        else
          var b3 := b[3] as int - 0x80;
          (b0 - 0xF0) * 0x4_0000 + b1 * 0x1000 + b2 * 0x40 + b3
  }

  /** The least value that a sequence of `n` bytes may spell. */
  function LeastOf(n: nat): int {
    if n <= 1 then 0 else if n == 2 then 0x80 else if n == 3 then 0x800 else 0x1_0000
  }

  /** The scalar at the front of `b`, refusing overlong forms, surrogates and values
      past the last code point. */
  function DecodePoint(b: seq<Byte>): (r: Option<Scalar>)
    requires b != []
  {
    var n := LeadLength(b[0]);
    if n == 0 || n > |b| || exists k :: 1 <= k < n && !IsContinuation(b[k]) then None
    else
      var c := PointValue(b, n);
      if LeastOf(n) <= c < 0x11_0000 && IsScalar(c) then Some(c) else None
  }

  /** What a strict decode yields: the text, or where the first bad sequence starts. */
  datatype Decoding = Decoded(text: Text) | Malformed(start: nat)

  function Decode(b: seq<Byte>): (d: Decoding)
    ensures d.Malformed? ==> d.start < |b|
    decreases |b|
  {
    if b == [] then Decoded([])
    else
      match DecodePoint(b)
      case None => Malformed(0)
      case Some(c) =>
        var n := LeadLength(b[0]);
        match Decode(b[n..])
        case Decoded(t) => Decoded([c] + t)
        case Malformed(s) => Malformed(n + s)
  }

  // ---------------------------------------------------------------- one code point

  lemma EncodePointShape(c: Scalar)
    ensures LeadLength(EncodePoint(c)[0]) == |EncodePoint(c)|
    ensures !IsContinuation(EncodePoint(c)[0])
    ensures forall k :: 1 <= k < |EncodePoint(c)| ==> IsContinuation(EncodePoint(c)[k])
  {
  }

  lemma DecodePointOfEncoded(c: Scalar, rest: seq<Byte>)
    ensures DecodePoint(EncodePoint(c) + rest) == Some(c)
  {
    EncodePointShape(c);
    var e := EncodePoint(c);
    var b := e + rest;
    assert forall k :: 0 <= k < |e| ==> b[k] == e[k];
    PointValueOfEncoded(c);
    assert PointValue(b, |e|) == PointValue(e, |e|);
  }

  lemma PointValueOfEncoded(c: Scalar)
    ensures PointValue(EncodePoint(c), |EncodePoint(c)|) == c
    ensures LeastOf(|EncodePoint(c)|) <= c
  {
    if c < 0x800 {
    } else if c < 0x1_0000 {
      assert EncodePoint(c) == [0xE0 + c / 0x1000, 0x80 + c / 0x40 % 0x40, 0x80 + c % 0x40];
      assert c / 0x40 == c / 0x1000 * 0x40 + c / 0x40 % 0x40;
    } else {
      assert EncodePoint(c)
        == [0xF0 + c / 0x4_0000, 0x80 + c / 0x1000 % 0x40, 0x80 + c / 0x40 % 0x40, 0x80 + c % 0x40];
      assert c / 0x1000 == c / 0x4_0000 * 0x40 + c / 0x1000 % 0x40;
      assert c / 0x40 == c / 0x1000 * 0x40 + c / 0x40 % 0x40;
    }
  }

  lemma DecodePointIsEncoded(b: seq<Byte>)
    requires b != [] && DecodePoint(b).Some?
    ensures EncodePoint(DecodePoint(b).value) <= b
  {
    var n := LeadLength(b[0]);
    var c := DecodePoint(b).value;
    assert forall k :: 1 <= k < n ==> IsContinuation(b[k]);
    if n == 2 {
      TwoByteForm(c, b[0], b[1]);
    } else if n == 3 {
      ThreeByteForm(c, b[0], b[1], b[2]);
    } else if n == 4 {
      FourByteForm(c, b[0], b[1], b[2], b[3]);
    }
  }

  lemma TwoByteForm(c: Scalar, b0: Byte, b1: Byte)
    requires 0xC0 <= b0 < 0xE0 && IsContinuation(b1)
    requires 0x80 <= c == (b0 - 0xC0) as int * 0x40 + (b1 - 0x80)
    ensures EncodePoint(c) == [b0, b1]
  {
  }

  lemma ThreeByteForm(c: Scalar, b0: Byte, b1: Byte, b2: Byte)
    requires 0xE0 <= b0 < 0xF0 && IsContinuation(b1) && IsContinuation(b2)
    requires 0x800 <= c
    requires var x: int, y: int, z: int := b0 - 0xE0, b1 - 0x80, b2 - 0x80; c == x * 0x1000 + y * 0x40 + z
    ensures EncodePoint(c) == [b0, b1, b2]
  {
    var x: int, y: int, z: int := b0 - 0xE0, b1 - 0x80, b2 - 0x80;
    assert c / 0x40 == x * 0x40 + y;
  }

  lemma FourByteForm(c: Scalar, b0: Byte, b1: Byte, b2: Byte, b3: Byte)
    requires 0xF0 <= b0 < 0xF8 && IsContinuation(b1) && IsContinuation(b2) && IsContinuation(b3)
    requires 0x1_0000 <= c
    requires var w: int, x: int, y: int, z: int := b0 - 0xF0, b1 - 0x80, b2 - 0x80, b3 - 0x80;
      c == w * 0x4_0000 + x * 0x1000 + y * 0x40 + z
    ensures EncodePoint(c) == [b0, b1, b2, b3]
  {
    var w: int, x: int, y: int, z: int := b0 - 0xF0, b1 - 0x80, b2 - 0x80, b3 - 0x80;
    FourDigits(w, x, y, z);
  }

  lemma LastDigit(high: int, low: int)
    requires 0 <= low < 0x40
    ensures (high * 0x40 + low) / 0x40 == high && (high * 0x40 + low) % 0x40 == low
  {
  }

  lemma FourDigits(w: int, x: int, y: int, z: int)
    requires 0 <= w && 0 <= x < 0x40 && 0 <= y < 0x40 && 0 <= z < 0x40
    ensures var c := w * 0x4_0000 + x * 0x1000 + y * 0x40 + z;
      c / 0x4_0000 == w && c / 0x1000 % 0x40 == x && c / 0x40 % 0x40 == y && c % 0x40 == z
  {
    var c := w * 0x4_0000 + x * 0x1000 + y * 0x40 + z;
    LastDigit(w * 0x1000 + x * 0x40 + y, z);
    LastDigit(w * 0x40 + x, y);
    LastDigit(w, x);
    assert c / 0x1000 == c / 0x40 / 0x40 && c / 0x4_0000 == c / 0x1000 / 0x40;
  }

  // ---------------------------------------------------------------- whole texts

  lemma EncodeCons(c: Scalar, t: Text)
    ensures Encode([c] + t) == EncodePoint(c) + Encode(t)
  {
    hide EncodePoint;
    assert ([c] + t)[1..] == t;
  }

  lemma EncodeNone()
    ensures Encode([]) == []
  {
  }

  lemma {:induction false} EncodeConcat(a: Text, b: Text)
    ensures Encode(a + b) == Encode(a) + Encode(b)
  {
    hide Encode, EncodePoint;
    if a == [] {
      EncodeNone();
      assert a + b == b;
      assert [] + Encode(b) == Encode(b);
    } else {
      EncodeConcat(a[1..], b);
      EncodeCons(a[0], a[1..]);
      EncodeCons(a[0], a[1..] + b);
      assert a == [a[0]] + a[1..];
      assert a + b == [a[0]] + (a[1..] + b);
      assert (EncodePoint(a[0]) + Encode(a[1..])) + Encode(b) == EncodePoint(a[0]) + (Encode(a[1..]) + Encode(b));
    }
  }

  /** Decoding accepts exactly the encodings of texts, and inverts them. */
  lemma {:induction false} DecodeOfEncode(t: Text)
    ensures Decode(Encode(t)) == Decoded(t)
  {
    if t != [] {
      DecodePointOfEncoded(t[0], Encode(t[1..]));
      EncodePointShape(t[0]);
      assert Encode(t)[|EncodePoint(t[0])|..] == Encode(t[1..]);
      DecodeOfEncode(t[1..]);
    }
  }

  lemma DecodeUnfolds(b: seq<Byte>)
    requires b != [] && Decode(b).Decoded?
    ensures DecodePoint(b).Some?
    ensures var n := LeadLength(b[0]);
      n <= |b| && Decode(b[n..]).Decoded? && Decode(b).text == [DecodePoint(b).value] + Decode(b[n..]).text
  {
    hide IsContinuation, PointValue, LeastOf, IsScalar;
  }

  lemma {:induction false} DecodedIsEncoded(b: seq<Byte>)
    requires Decode(b).Decoded?
    ensures Encode(Decode(b).text) == b
    decreases |b|
  {
    hide Decode, Encode, EncodePoint, DecodePoint, LeadLength, IsContinuation;
    if b == [] {
      EmptyDecodes();
    } else {
      DecodeUnfolds(b);
      DecodePointIsEncoded(b);
      var c := DecodePoint(b).value;
      EncodePointShape(c);
      DecodedIsEncoded(b[|EncodePoint(c)|..]);
      EncodeCons(c, Decode(b[|EncodePoint(c)|..]).text);
    }
  }

  lemma EmptyDecodes()
    ensures Decode([]) == Decoded([]) && Encode([]) == []
  {
  }

  lemma EncodeInjective(a: Text, b: Text)
    requires Encode(a) == Encode(b)
    ensures a == b
  {
    DecodeOfEncode(a);
    DecodeOfEncode(b);
  }

  lemma {:induction false} EncodeLength(t: Text)
    ensures |t| <= |Encode(t)|
  {
    if t != [] {
      EncodeLength(t[1..]);
    }
  }

  // ---------------------------------------------------------------- offsets

  /** The byte offset of the `i`-th code point of `t`. */
  function Offset(t: Text, i: nat): nat
    requires i <= |t|
  {
    |Encode(t[..i])|
  }

  lemma SplitOfConcat<T>(a: seq<T>, b: seq<T>)
    ensures (a + b)[..|a|] == a && (a + b)[|a|..] == b
  {
  }

  lemma SplitAt<T>(t: seq<T>, i: nat)
    requires i <= |t|
    ensures t[..i] + t[i..] == t
  {
  }

  lemma EncodeSplit(t: Text, i: nat)
    requires i <= |t|
    ensures Offset(t, i) <= |Encode(t)|
    ensures Encode(t)[..Offset(t, i)] == Encode(t[..i])
    ensures Encode(t)[Offset(t, i)..] == Encode(t[i..])
  {
    hide Encode;
    EncodeConcat(t[..i], t[i..]);
    SplitAt(t, i);
    SplitOfConcat(Encode(t[..i]), Encode(t[i..]));
  }

  lemma SliceOfDrop<T>(e: seq<T>, a: nat, f: seq<T>, rest: seq<T>)
    requires a <= |e| && e[a..] == f + rest
    ensures a + |f| <= |e| && e[a..a + |f|] == f
  {
    assert e[a..][..|f|] == f;
  }

  lemma DropAt<T>(t: seq<T>, i: nat)
    requires i < |t|
    ensures t[i..] == [t[i]] + t[i + 1..] && t[..i + 1] == t[..i] + [t[i]]
  {
  }

  lemma OffsetStep(t: Text, i: nat)
    requires i < |t|
    ensures Offset(t, i + 1) == Offset(t, i) + |EncodePoint(t[i])|
    ensures Offset(t, i + 1) <= |Encode(t)|
    ensures Encode(t)[Offset(t, i)..Offset(t, i + 1)] == EncodePoint(t[i])
  {
    hide Encode, EncodePoint;
    DropAt(t, i);
    EncodeSplit(t, i);
    EncodeCons(t[i], t[i + 1..]);
    SliceOfDrop(Encode(t), Offset(t, i), EncodePoint(t[i]), Encode(t[i + 1..]));
    EncodeConcat(t[..i], [t[i]]);
    SinglePoint(t[i]);
  }

  lemma SinglePoint(c: Scalar)
    ensures Encode([c]) == EncodePoint(c)
  {
    hide Encode, EncodePoint;
    EncodeCons(c, []);
    EncodeNone();
    assert [c] + [] == [c] && EncodePoint(c) + [] == EncodePoint(c);
  }

  lemma {:induction false} OffsetMonotone(t: Text, i: nat, j: nat)
    requires i < j <= |t|
    ensures Offset(t, i) < Offset(t, j)
    decreases j
  {
    OffsetStep(t, j - 1);
    if i < j - 1 {
      OffsetMonotone(t, i, j - 1);
    }
  }

  /** Offsets of slices subtract. */
  lemma OffsetSlice(t: Text, i: nat, j: nat)
    requires i <= j <= |t|
    ensures Offset(t, j) == Offset(t, i) + |Encode(t[i..j])|
  {
    assert t[..j] == t[..i] + t[i..j];
    EncodeConcat(t[..i], t[i..j]);
  }

  /** Every byte position lies in exactly one code point. */
  lemma {:induction false} PointAt(t: Text, k: nat) returns (i: nat)
    requires k < |Encode(t)|
    ensures i < |t| && Offset(t, i) <= k < Offset(t, i + 1)
  {
    i := 0;
    assert t[..0] == [];
    while !(k < Offset(t, i + 1))
      invariant i < |t| && Offset(t, i) <= k
      decreases |t| - i
    {
      assert i + 1 < |t| by {
        assert t[..|t|] == t;
      }
      i := i + 1;
    }
  }

  lemma SlicePosition<T>(e: seq<T>, a: nat, b: nat, k: nat)
    requires a <= k < b <= |e|
    ensures e[k] == e[a..b][k - a]
  {
  }

  /** Exactly the first byte of each code point is not a continuation byte. */
  lemma PointBytes(t: Text, i: nat, k: nat)
    requires i < |t| && Offset(t, i) <= k < Offset(t, i + 1)
    ensures k < |Encode(t)|
    ensures IsContinuation(Encode(t)[k]) <==> k != Offset(t, i)
  {
    hide *;
    OffsetStep(t, i);
    EncodePointShape(t[i]);
    SlicePosition(Encode(t), Offset(t, i), Offset(t, i + 1), k);
  }

  // ---------------------------------------------------------------- self-synchronisation

  lemma PrefixCancels<T>(e: seq<T>, a: seq<T>, b: seq<T>)
    ensures e + a <= e + b <==> a <= b
  {
    assert (e + a)[|e|..] == a && (e + b)[|e|..] == b;
    if e + a <= e + b {
      assert (e + b)[..|e + a|][|e|..] == b[..|a|];
    }
  }

  lemma PrefixParts<T>(p: seq<T>, t: seq<T>)
    requires p != [] && t != []
    ensures p <= t <==> p[0] == t[0] && p[1..] <= t[1..]
  {
    PrefixCancels([p[0]], p[1..], t[1..]);
    assert p == [p[0]] + p[1..] && t == [t[0]] + t[1..];
  }

  /** Encodings of which one starts with the other start with the same code point. */
  lemma SameFirstPoint(c: Scalar, a: seq<Byte>, d: Scalar, b: seq<Byte>)
    requires EncodePoint(c) + a <= EncodePoint(d) + b
    ensures c == d
  {
    hide DecodePoint, EncodePoint;
    var more := (EncodePoint(d) + b)[|EncodePoint(c) + a|..];
    assert EncodePoint(d) + b == EncodePoint(c) + (a + more);
    DecodePointOfEncoded(c, a + more);
    DecodePointOfEncoded(d, b);
  }

  lemma {:induction false} EncodePrefix(p: Text, t: Text)
    ensures Encode(p) <= Encode(t) <==> p <= t
  {
    hide Encode, EncodePoint;
    EncodeNone();
    EncodeLength(p);
    if p != [] && t != [] {
      EncodeCons(p[0], p[1..]);
      EncodeCons(t[0], t[1..]);
      assert p == [p[0]] + p[1..] && t == [t[0]] + t[1..];
      PrefixParts(p, t);
      EncodePrefix(p[1..], t[1..]);
      if Encode(p) <= Encode(t) {
        SameFirstPoint(p[0], Encode(p[1..]), t[0], Encode(t[1..]));
      }
      if p[0] == t[0] {
        PrefixCancels(EncodePoint(p[0]), Encode(p[1..]), Encode(t[1..]));
      }
    }
  }

  /** Whether `p` occurs in `v` at position `k`. */
  predicate Occurs<T(==)>(v: seq<T>, p: seq<T>, k: int) {
    0 <= k && k + |p| <= |v| && v[k..k + |p|] == p
  }

  /** A text occurrence is a byte occurrence at the corresponding offset. */
  lemma OccursIsPrefix<T>(v: seq<T>, p: seq<T>, k: nat)
    requires k <= |v|
    ensures Occurs(v, p, k) <==> p <= v[k..]
  {
    if k + |p| <= |v| {
      assert v[k..][..|p|] == v[k..k + |p|];
    }
  }

  lemma OccursEncoded(t: Text, p: Text, i: nat)
    requires i <= |t|
    ensures Occurs(t, p, i) <==> Occurs(Encode(t), Encode(p), Offset(t, i))
  {
    hide Encode, Offset, Occurs;
    EncodeSplit(t, i);
    EncodePrefix(p, t[i..]);
    OccursIsPrefix(t, p, i);
    OccursIsPrefix(Encode(t), Encode(p), Offset(t, i));
  }

  /** Self-synchronisation: the encoding of a non-empty text occurs only where the text
      itself occurs, at a code point boundary. */
  lemma SelfSynchronising(t: Text, p: Text, k: nat) returns (i: nat)
    requires p != [] && Occurs(Encode(t), Encode(p), k)
    ensures i < |t| && Offset(t, i) == k && Occurs(t, p, i)
  {
    var ep := Encode(p);
    EncodePointShape(p[0]);
    assert ep[0] == EncodePoint(p[0])[0];
    assert Encode(t)[k] == Encode(t)[k..k + |ep|][0] == ep[0];
    i := PointAt(t, k);
    PointBytes(t, i, k);
    OccursEncoded(t, p, i);
  }

  // ---------------------------------------------------------------- byte order

  /** The position of the first difference between the encodings of `c` and `d`. */
  function FirstDifference(e: seq<Byte>, f: seq<Byte>): nat
    requires e != [] && f != []
  {
    if e[0] != f[0] || |e| < 2 || |f| < 2 then 0
    else if e[1] != f[1] || |e| < 3 || |f| < 3 then 1
    else if e[2] != f[2] || |e| < 4 || |f| < 4 then 2
    else 3
  }

  lemma PointOrder(c: Scalar, d: Scalar)
    requires c < d
    ensures var e, f := EncodePoint(c), EncodePoint(d);
      var k := FirstDifference(e, f);
      k < |e| && k < |f| && e[..k] == f[..k] && e[k] < f[k]
  {
    var e, f := EncodePoint(c), EncodePoint(d);
    if |e| != |f| {
      assert e[0] < f[0];
      assert e[..0] == f[..0];
    } else {
      SameLengthOrder(c, d);
    }
  }

  lemma SameLengthOrder(c: Scalar, d: Scalar)
    requires c < d && |EncodePoint(c)| == |EncodePoint(d)|
    ensures var e, f := EncodePoint(c), EncodePoint(d);
      var k := FirstDifference(e, f);
      k < |e| && k < |f| && e[..k] == f[..k] && e[k] < f[k]
  {
    PointValueOfEncoded(c);
    PointValueOfEncoded(d);
    EncodePointShape(c);
    EncodePointShape(d);
    var e, f := EncodePoint(c), EncodePoint(d);
    var k := FirstDifference(e, f);
    ValueOrder(e, f, |e|);
    assert e[..k] == f[..k];
  }

  lemma ValueOrder(e: seq<Byte>, f: seq<Byte>, n: nat)
    requires 1 <= n <= 4 && |e| == |f| == n
    requires forall k :: 1 <= k < n ==> IsContinuation(e[k]) && IsContinuation(f[k])
    requires PointValue(e, n) < PointValue(f, n)
    ensures var k := FirstDifference(e, f); k < n && e[k] < f[k]
  {
  }

  /** UTF-8 byte order is code point order. */
  lemma {:induction false} ByteOrderIsPointOrder(a: Text, b: Text)
    ensures LexLess(Encode(a), Encode(b)) <==> LexLess(a, b)
  {
    if a == [] || b == [] {
      EncodeLength(a);
      EncodeLength(b);
    } else if a[0] == b[0] {
      ByteOrderIsPointOrder(a[1..], b[1..]);
      LexCommonPrefix(EncodePoint(a[0]), Encode(a[1..]), Encode(b[1..]));
    } else {
      var lo, hi := if a[0] < b[0] then a else b, if a[0] < b[0] then b else a;
      PointOrder(lo[0], hi[0]);
      var k := FirstDifference(EncodePoint(lo[0]), EncodePoint(hi[0]));
      assert Encode(lo)[..k] == EncodePoint(lo[0])[..k];
      assert Encode(hi)[..k] == EncodePoint(hi[0])[..k];
      LexAtDifference(Encode(lo), Encode(hi), k);
    }
  }
}
