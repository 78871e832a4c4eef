/** The UTF-8-safe bounded stream collector. */
module BoundedOutput {
  import opened Basics
  import opened Utf8

  datatype BoundedText = BoundedText(text: Text, originalBytes: nat, truncated: bool)

  /** How many leading code points of `t` fit in `max` bytes together. */
  function Fitting(t: Text, max: nat): (n: nat)
    ensures n <= |t|
    ensures Offset(t, n) <= max
    ensures n < |t| ==> Offset(t, n + 1) > max
  {
    if t == [] then 0
    else
      var size := |EncodePoint(t[0])|;
      if size > max then
        OffsetOfNone(t); OffsetStep(t, 0);
        0
      else
        var n := 1 + Fitting(t[1..], max - size);
        OffsetOfTail(t, n);
        if n < |t| then
          OffsetOfTail(t, n + 1);
          n
        else n
  }

  lemma OffsetOfNone(t: Text)
    ensures Offset(t, 0) == 0
  {
    assert t[..0] == [];
  }

  lemma OffsetOfTail(t: Text, n: nat)
    requires 1 <= n <= |t|
    ensures Offset(t, n) == |EncodePoint(t[0])| + Offset(t[1..], n - 1)
  {
    assert t[..n][0] == t[0] && t[..n][1..] == t[1..][..n - 1];
  }

  /** `Fitting` is the longest prefix within the budget, not merely one of them. */
  lemma FittingIsLongest(t: Text, max: nat, k: nat)
    requires k <= |t|
    ensures Offset(t, k) <= max <==> k <= Fitting(t, max)
  {
    var n := Fitting(t, max);
    if k < n {
      OffsetMonotone(t, k, n);
    } else if n + 1 < k {
      OffsetMonotone(t, n + 1, k);
    }
  }

  /** A code point cut short does not decode. */
  lemma CutPoint(c: Scalar, k: nat)
    requires 0 < k < |EncodePoint(c)|
    ensures DecodePoint(EncodePoint(c)[..k]) == None
  {
    EncodePointShape(c);
    assert EncodePoint(c)[..k][0] == EncodePoint(c)[0];
  }

  /** A strict decode of a cut encoding reports where the cut code point starts. */
  lemma {:induction false} DecodeOfCut(t: Text, k: nat)
    requires k <= |Encode(t)|
    ensures var n := Fitting(t, k);
      Decode(Encode(t)[..k]) == if Offset(t, n) == k then Decoded(t[..n]) else Malformed(Offset(t, n))
  {
    hide EncodePoint, DecodePoint;
    var b := Encode(t)[..k];
    var n := Fitting(t, k);
    if t == [] {
    } else if k == 0 {
      OffsetOfNone(t);
    } else {
      var size := |EncodePoint(t[0])|;
      EncodePointShape(t[0]);
      assert b[0] == EncodePoint(t[0])[0];
      if size > k {
        OffsetOfNone(t);
        CutPoint(t[0], k);
        assert b == EncodePoint(t[0])[..k];
      } else {
        DecodeOfCut(t[1..], k - size);
        assert b == EncodePoint(t[0]) + Encode(t[1..])[..k - size];
        DecodePointOfEncoded(t[0], Encode(t[1..])[..k - size]);
        assert b[size..] == Encode(t[1..])[..k - size];
        OffsetOfTail(t, n);
        assert t[..n] == [t[0]] + t[1..][..n - 1];
      }
    }
  }

  /** What the collector's fields say about everything appended so far: the kept text is its
      longest prefix of whole code points within the bound, whatever the pieces were. */
  predicate Keeps(stream: Text, max: nat, kept: Text, retained: int, original: int, truncated: bool, closed: bool) {
    && kept == stream[..Fitting(stream, max)]
    && retained == Offset(stream, Fitting(stream, max))
    && original == |Encode(stream)|
    && (truncated <==> original > max)
    && (closed <==> truncated)
  }

  lemma KeepsWhenClosed(s: Text, t: Text, max: nat, kept: Text, retained: int, original: int)
    requires Keeps(s, max, kept, retained, original, true, true)
    ensures Keeps(s + t, max, kept, retained, original + |Encode(t)|, true, true)
  {
    hide Encode, Fitting, Offset;
    EncodedLengths(s, t);
    FittingKept(s, t, max);
    KeepsIntro(s + t, max, kept, retained, original + |Encode(t)|, true);
  }

  /** While nothing was dropped, everything is kept. */
  lemma OpenKeepsAll(s: Text, max: nat, kept: Text, retained: int, original: int)
    requires Keeps(s, max, kept, retained, original, false, false)
    ensures kept == s && retained == original == |Encode(s)| <= max
  {
    hide Encode, Fitting;
    FittingWhole(s, max);
    assert s[..|s|] == s;
  }

  lemma KeepsWhenOpen(s: Text, t: Text, max: nat, kept: Text, retained: int, original: int)
    requires Keeps(s, max, kept, retained, original, false, false)
    ensures 0 <= retained <= max
    ensures var n := Fitting(t, max - retained);
      && (n == |t| <==> |Encode(t)| <= max - retained)
      && Keeps(s + t, max, kept + t[..n], retained + Offset(t, n), original + |Encode(t)|, n < |t|, n < |t|)
  {
    hide *;
    OpenKeepsAll(s, max, kept, retained, original);
    var n := Fitting(t, max - retained);
    EncodedLengths(s, t);
    FittingAfter(s, t, max);
    FittingWhole(t, max - retained);
    KeepsIntro(s + t, max, kept + t[..n], retained + Offset(t, n), original + |Encode(t)|, n < |t|);
  }

  lemma EncodedLengths(s: Text, t: Text)
    ensures |Encode(s + t)| == |Encode(s)| + |Encode(t)|
  {
    hide Encode;
    EncodeConcat(s, t);
  }

  lemma KeepsIntro(stream: Text, max: nat, kept: Text, retained: int, original: int, truncated: bool)
    requires kept == stream[..Fitting(stream, max)] && retained == Offset(stream, Fitting(stream, max))
    requires original == |Encode(stream)| && (truncated <==> original > max)
    ensures Keeps(stream, max, kept, retained, original, truncated, truncated)
  {
    hide Fitting, Offset, Encode;
  }

  lemma KeepsFlags(s: Text, max: nat, kept: Text, retained: int, original: int, truncated: bool, closed: bool)
    requires Keeps(s, max, kept, retained, original, truncated, closed)
    ensures closed <==> truncated
  {
  }

  /** The collector: `stream` is everything ever appended, of which only a prefix is kept. */
  class Collector {
    const maxBytes: nat
    var parts: seq<Text>
    var retainedBytes: nat
    var originalBytes: nat
    var truncated: bool
    var retentionClosed: bool
    ghost var stream: Text

    ghost predicate Valid()
      reads this
    {
      maxBytes > 0 && Keeps(stream, maxBytes, Concatenated(parts), retainedBytes, originalBytes, truncated, retentionClosed)
    }

    constructor (max: nat)
      requires max > 0
      ensures Valid() && stream == [] && maxBytes == max
    {
      maxBytes := max;
      parts, retainedBytes, originalBytes := [], 0, 0;
      truncated, retentionClosed := false, false;
      stream := [];
    }

    /** Text with lone surrogates is refused before anything changes. */
    method Append(text: seq<CodePoint>) returns (accepted: bool)
      requires Valid()
      modifies this
      ensures Valid()
      ensures accepted <==> Encodable(text)
      ensures stream == old(stream) + (if accepted then text else [])
    {
      if !Encodable(text) {
        return false;
      }
      accepted := true;
      AppendText(text);
    }

    method AppendText(text: Text)
      requires Valid()
      modifies this
      ensures Valid() && stream == old(stream) + text
    {
      hide Encode, Fitting, Keeps, Concatenated;
      var encoded := Encode(text);
      ghost var before, kept := stream, Concatenated(parts);
      KeepsFlags(before, maxBytes, kept, retainedBytes, originalBytes, truncated, retentionClosed);
      if retentionClosed {
        KeepsWhenClosed(before, text, maxBytes, kept, retainedBytes, originalBytes);
      } else {
        KeepsWhenOpen(before, text, maxBytes, kept, retainedBytes, originalBytes);
      }
      stream := stream + text;
      originalBytes := originalBytes + |encoded|;
      if retentionClosed {
        truncated := truncated || encoded != [];
        return;
      }
      var remaining := maxBytes - retainedBytes;
      if remaining <= 0 {
        NothingFits(text);
        assert kept + [] == kept;
        truncated := truncated || encoded != [];
        retentionClosed := encoded != [];
        return;
      }
      ghost var n := Fitting(text, remaining);
      ConcatenatedAppend(parts, text[..n]);
      if |encoded| <= remaining {
        assert n == |text| && text[..n] == text;
        assert Offset(text, n) == |encoded|;
        parts := parts + [text];
        retainedBytes := retainedBytes + |encoded|;
        return;
      }
      var retained, size := RetainedPrefix(text, encoded[..remaining]);
      parts := parts + [retained];
      retainedBytes := retainedBytes + size;
      truncated, retentionClosed := true, true;
    }

    method Result() returns (r: BoundedText)
      requires Valid()
      ensures r.text == stream[..Fitting(stream, maxBytes)]
      ensures r.originalBytes == |Encode(stream)|
      ensures r.truncated <==> |Encode(stream)| > maxBytes
    {
      r := BoundedText(Concatenated(parts), originalBytes, truncated);
    }
  }

  /** The shrinking loop: drop the tail that a strict decode stops at until one succeeds. */
  method RetainedPrefix(ghost t: Text, cut: seq<Byte>) returns (retained: Text, size: nat)
    requires cut <= Encode(t)
    ensures retained == t[..Fitting(t, |cut|)]
    ensures size == Offset(t, Fitting(t, |cut|))
  {
    var prefix := cut;
    retained, size := [], 0;
    while prefix != []
      invariant prefix <= Encode(t) && Fitting(t, |prefix|) == Fitting(t, |cut|)
      decreases |prefix|
    {
      DecodeOfCut(t, |prefix|);
      assert prefix == Encode(t)[..|prefix|];
      var decoding := Decode(prefix);
      if decoding.Decoded? {
        return decoding.text, |prefix|;
      }
      ghost var n := Fitting(t, |prefix|);
      FittingIsLongest(t, decoding.start, n);
      FittingIsLongest(t, decoding.start, Fitting(t, decoding.start));
      FittingIsLongest(t, |prefix|, Fitting(t, decoding.start));
      prefix := prefix[..decoding.start];
    }
    OffsetOfNone(t);
    FittingIsLongest(t, 0, Fitting(t, 0));
    FittingNothing(t);
  }

  lemma FittingNothing(t: Text)
    ensures Fitting(t, 0) == 0
  {
  }

  lemma NothingFits(t: Text)
    ensures t[..Fitting(t, 0)] == [] && Offset(t, Fitting(t, 0)) == 0
    ensures 0 < |t| <==> Encode(t) != []
  {
    FittingNothing(t);
    OffsetOfNone(t);
    EncodeLength(t);
  }

  lemma FittingWhole(t: Text, max: nat)
    ensures Fitting(t, max) == |t| <==> |Encode(t)| <= max
  {
    assert t[..|t|] == t;
    FittingIsLongest(t, max, |t|);
  }

  /** Once something did not fit, later text changes nothing that is kept. */
  lemma {:induction false} FittingKept(s: Text, t: Text, max: nat)
    requires |Encode(s)| > max
    ensures Fitting(s + t, max) == Fitting(s, max)
    ensures (s + t)[..Fitting(s, max)] == s[..Fitting(s, max)]
    ensures Offset(s + t, Fitting(s, max)) == Offset(s, Fitting(s, max))
  {
    hide Encode, Fitting;
    FittingWhole(s, max);
    var n := Fitting(s, max);
    assert (s + t)[..n] == s[..n];
    assert (s + t)[..n + 1] == s[..n + 1];
    FittingIsLongest(s + t, max, n);
    FittingIsLongest(s + t, max, n + 1);
  }

  /** While everything fits, the budget left over goes to the next piece. */
  lemma {:induction false} FittingAfter(s: Text, t: Text, max: nat)
    requires |Encode(s)| <= max
    ensures Fitting(s + t, max) == |s| + Fitting(t, max - |Encode(s)|)
    ensures (s + t)[..Fitting(s + t, max)] == s + t[..Fitting(t, max - |Encode(s)|)]
    ensures Offset(s + t, Fitting(s + t, max)) == |Encode(s)| + Offset(t, Fitting(t, max - |Encode(s)|))
  {
    hide Encode, Fitting;
    var n := Fitting(t, max - |Encode(s)|);
    assert (s + t)[..|s| + n] == s + t[..n];
    EncodeConcat(s, t[..n]);
    FittingIsLongest(s + t, max, |s| + n);
    if n < |t| {
      assert (s + t)[..|s| + n + 1] == s + t[..n + 1];
      EncodeConcat(s, t[..n + 1]);
      FittingIsLongest(s + t, max, |s| + n + 1);
    }
  }

  /** Bounding one stage's output on its own. */
  method BoundText(text: seq<CodePoint>, max: nat) returns (accepted: bool, r: BoundedText)
    requires max > 0
    ensures accepted <==> Encodable(text)
    // the longest prefix of whole code points within the bound
    ensures accepted ==>
      && r.text <= text
      && (forall n :: 0 <= n <= |text| ==> (|Encode(AsText(text)[..n])| <= max <==> n <= |r.text|))
    ensures accepted ==> r.originalBytes == |Encode(AsText(text))|
    ensures accepted ==> (r.truncated <==> r.text != text)
    ensures accepted ==> (r.truncated <==> |Encode(AsText(text))| > max)
  {
    var collector := new Collector(max);
    accepted := collector.Append(text);
    r := collector.Result();
    if accepted {
      assert collector.stream == text;
      FittingWhole(collector.stream, max);
      forall n | 0 <= n <= |text| ensures |Encode(AsText(text)[..n])| <= max <==> n <= |r.text| {
        FittingIsLongest(AsText(text), max, n);
      }
    }
  }
}
