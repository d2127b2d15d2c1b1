/** Capping collector output at a number of UTF-8 bytes (teaagent/automation_collector.py). */
module CollectorCap {
  import opened Json
  import opened Sequences
  import opened Utf8

  datatype CapResult = Capped(text: Text, truncated: bool) | NegativeLimit | EncodeError

  function CapCollectorOutput(text: Text, maxBytes: int): CapResult {
    if maxBytes < 0 then NegativeLimit
    else
      match Encode(text)
      case None => EncodeError
      case Some(raw) =>
        if |raw| <= maxBytes then Capped(text, false) else Capped(Decode(raw[..maxBytes]), true)
  }

  /** How many whole characters fit into m bytes. */
  function Fitting(text: Text, m: nat): (k: nat)
    ensures k <= |text|
  {
    if text == [] || |EncodePoint(text[0])| > m then 0
    else 1 + Fitting(text[1..], m - |EncodePoint(text[0])|)
  }

  lemma EncodeCons(text: Text)
    requires text != []
    ensures EncodeAll(text) == EncodePoint(text[0]) + EncodeAll(text[1..])
  {
  }

  /** The encoding of the first k characters, and what is left of m bytes after it. */
  function Whole(text: Text, k: nat): Bytes
    requires k <= |text|
  {
    EncodeAll(text[..k])
  }

  lemma WholeCons(text: Text, k: nat)
    requires 0 < k <= |text|
    ensures Whole(text, k) == EncodePoint(text[0]) + Whole(text[1..], k - 1)
  {
    hide EncodeAll, EncodePoint;
    EncodeCons(text[..k]);
    assert text[..k][1..] == text[1..][..k - 1];
  }

  lemma WholeNone(text: Text)
    ensures Whole(text, 0) == []
  {
  }

  /** Cutting the encoding after m bytes keeps the fitting characters and a proper piece of the next. */
  lemma {:induction false} CutEncoding(text: Text, m: nat)
    requires m < |EncodeAll(text)|
    ensures var k := Fitting(text, m);
            && k < |text|
            && |Whole(text, k)| <= m < |Whole(text, k)| + |EncodePoint(text[k])|
            && EncodeAll(text)[..m] == Whole(text, k) + EncodePoint(text[k])[..m - |Whole(text, k)|]
  {
    hide EncodePoint, Whole;
    assert text != [];
    var point, rest := EncodePoint(text[0]), EncodeAll(text[1..]);
    EncodeCons(text);
    TakeOfSum(point, rest, m);
    hide EncodeAll;
    var k := Fitting(text, m);
    if |point| > m {
      WholeNone(text);
    } else {
      CutEncoding(text[1..], m - |point|);
      WholeCons(text, k);
      var before := Whole(text[1..], k - 1);
      Regroup(point, before, EncodePoint(text[k])[..m - |point| - |before|]);
    }
  }

  /** A character cut short decodes to one replacement character. */
  lemma CutPoint(c: Point, n: nat)
    requires !Surrogate(c) && 0 < n < |EncodePoint(c)|
    ensures Decode(EncodePoint(c)[..n]) == [REPLACEMENT]
  {
    Digits(c);
    var p := EncodePoint(c)[..n];
    assert DecodeUnit(p) == Unit(REPLACEMENT, n);
    assert p[n..] == [];
  }

  lemma {:induction false} EncodedLength(a: Text, b: Text)
    ensures |EncodeAll(a + b)| == |EncodeAll(a)| + |EncodeAll(b)|
  {
    if a == [] {
      assert a + b == b;
    } else {
      assert (a + b)[1..] == a[1..] + b && (a + b)[0] == a[0];
      EncodeCons(a + b);
      EncodeCons(a);
      EncodedLength(a[1..], b);
    }
  }

  lemma EncodedSnoc(a: Text, c: Point)
    ensures |EncodeAll(a + [c])| == |EncodeAll(a)| + |EncodePoint(c)|
  {
    EncodedLength(a, [c]);
    EncodeCons([c]);
  }

  /** The decoding of a cut encoding. */
  lemma CutText(text: Text, m: nat)
    requires Encodable(text) && m < |EncodeAll(text)|
    ensures var k := Fitting(text, m);
            && k < |text| && |EncodeAll(text[..k])| <= m
            && Decode(EncodeAll(text)[..m]) ==
               text[..k] + if |EncodeAll(text[..k])| == m then [] else [REPLACEMENT]
  {
    var k := Fitting(text, m);
    CutEncoding(text, m);
    var n := m - |EncodeAll(text[..k])|;
    DecodeEncodedThen(text[..k], EncodePoint(text[k])[..n]);
    if n > 0 {
      CutPoint(text[k], n);
    }
  }

  lemma ReplacementSize()
    ensures |EncodePoint(REPLACEMENT)| == 3
  {
  }

  /** Capping fails exactly on a negative limit or a text with surrogates. Otherwise it keeps exactly the
      characters that fit, marks a cut character by one U+FFFD, exceeds the limit by at most two bytes, and
      flags exactly the inputs that were too long. */
  lemma CapIsExact(text: Text, maxBytes: int)
    ensures var r := CapCollectorOutput(text, maxBytes);
            && (r.NegativeLimit? <==> maxBytes < 0)
            && (r.EncodeError? <==> maxBytes >= 0 && !Encodable(text))
            && (r.Capped? ==>
                  var k := Fitting(text, maxBytes);
                  && (r.truncated <==> |EncodeAll(text)| > maxBytes)
                  && (!r.truncated ==> r.text == text)
                  && (r.truncated ==>
                        && k < |text| && |EncodeAll(text[..k])| <= maxBytes < |EncodeAll(text[..k + 1])|
                        && r.text == text[..k] + (if |EncodeAll(text[..k])| == maxBytes then [] else [REPLACEMENT]))
                  && |EncodeAll(r.text)| <= maxBytes + 2)
  {
    hide EncodePoint, EncodeAll, Decode, Fitting;
    if maxBytes >= 0 && Encodable(text) && |EncodeAll(text)| > maxBytes {
      var k := Fitting(text, maxBytes);
      CutText(text, maxBytes);
      CutEncoding(text, maxBytes);
      assert text[..k + 1] == text[..k] + [text[k]];
      EncodedSnoc(text[..k], text[k]);
      EncodedSnoc(text[..k], REPLACEMENT);
      ReplacementSize();
      assert text[..k] + [] == text[..k];
    }
  }
}
