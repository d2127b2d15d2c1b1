/** UTF-8 (RFC 3629, sections 3 and 4) as Python encodes it, and decodes it with errors='replace'. */
module Utf8 {
  import opened Json
  import opened Sequences

  /** Python strings are sequences of code points, lone surrogates included. */
  type Point = c: int | 0 <= c < 0x110000
  type Text = seq<Point>
  type Byte = b: int | 0 <= b < 256
  type Bytes = seq<Byte>

  const REPLACEMENT: Point := 0xFFFD

  predicate Surrogate(c: Point) {
    0xD800 <= c < 0xE000
  }

  ghost predicate Encodable(text: Text) {
    forall i | 0 <= i < |text| :: !Surrogate(text[i])
  }

  function EncodePoint(c: Point): Bytes {
    if c < 0x80 then [c]
    else if c < 0x800 then [0xC0 + c / 0x40, 0x80 + c % 0x40]
    else if c < 0x10000 then [0xE0 + c / 0x1000, 0x80 + c / 0x40 % 0x40, 0x80 + c % 0x40]
    else [0xF0 + c / 0x40000, 0x80 + c / 0x1000 % 0x40, 0x80 + c / 0x40 % 0x40, 0x80 + c % 0x40]
  }

  function EncodeAll(text: Text): Bytes {
    if text == [] then [] else EncodePoint(text[0]) + EncodeAll(text[1..])
  }

  /** `str.encode('utf-8')`; None stands for the UnicodeEncodeError of a surrogate. */
  function Encode(text: Text): Option<Bytes> {
    if exists i | 0 <= i < |text| :: Surrogate(text[i]) then None else Some(EncodeAll(text))
  }

  predicate IsCont(b: Byte) {
    0x80 <= b < 0xC0
  }

  /** The second bytes RFC 3629 allows after a three- or four-byte lead. */
  predicate GoodSecond(lead: Byte, b: Byte) {
    if lead == 0xE0 then 0xA0 <= b < 0xC0
    else if lead == 0xED then 0x80 <= b < 0xA0
    else if lead == 0xF0 then 0x90 <= b < 0xC0
    else if lead == 0xF4 then 0x80 <= b < 0x90
    else IsCont(b)
  }

  /** The six payload bits of a continuation byte. */
  function Low(b: Byte): int {
    b as int - 0x80
  }

  datatype Unit = Unit(point: Point, size: nat)

  /** One decoding step: a code point, or U+FFFD for a maximal ill-formed piece. */
  function DecodeUnit(bs: Bytes): Unit
    requires bs != []
  {
    var b0 := bs[0];
    if b0 < 0x80 then Unit(b0, 1)
    else if 0xC2 <= b0 < 0xE0 then
      if |bs| < 2 || !IsCont(bs[1]) then Unit(REPLACEMENT, 1)
      else Unit(0x40 * (b0 as int - 0xC0) + Low(bs[1]), 2)
    else if 0xE0 <= b0 < 0xF0 then
      if |bs| < 2 || !GoodSecond(b0, bs[1]) then Unit(REPLACEMENT, 1)
      else if |bs| < 3 || !IsCont(bs[2]) then Unit(REPLACEMENT, 2)
      else Unit(0x1000 * (b0 as int - 0xE0) + 0x40 * Low(bs[1]) + Low(bs[2]), 3)
    else if 0xF0 <= b0 < 0xF5 then
      if |bs| < 2 || !GoodSecond(b0, bs[1]) then Unit(REPLACEMENT, 1)
      else if |bs| < 3 || !IsCont(bs[2]) then Unit(REPLACEMENT, 2)
      else if |bs| < 4 || !IsCont(bs[3]) then Unit(REPLACEMENT, 3)
      else Unit(0x40000 * (b0 as int - 0xF0) + 0x1000 * Low(bs[1]) + 0x40 * Low(bs[2]) + Low(bs[3]), 4)
    else Unit(REPLACEMENT, 1)
  }

  /** A step consumes at least one byte and, after the first, only continuation bytes. */
  lemma UnitSize(bs: Bytes)
    requires bs != []
    ensures 1 <= DecodeUnit(bs).size <= 4 && DecodeUnit(bs).size <= |bs|
    ensures forall i | 1 <= i < DecodeUnit(bs).size :: IsCont(bs[i])
  {
  }

  /** A step yields a character other than U+FFFD only from that character's encoding, so overlong forms,
      surrogates and values beyond U+10FFFF never decode. */
  lemma DecodedIsEncoded(bs: Bytes)
    requires bs != [] && DecodeUnit(bs).point != REPLACEMENT
    ensures var u := DecodeUnit(bs); u.size <= |bs| && bs[..u.size] == EncodePoint(u.point) && !Surrogate(u.point)
  {
    var u, b0 := DecodeUnit(bs), bs[0];
    if 0xC2 <= b0 < 0xE0 {
      Base64Digits(0, 0, b0 - 0xC0, Low(bs[1]));
    } else if 0xE0 <= b0 < 0xF0 {
      Base64Digits(0, b0 - 0xE0, Low(bs[1]), Low(bs[2]));
    } else if b0 >= 0xF0 {
      Base64Digits(b0 - 0xF0, Low(bs[1]), Low(bs[2]), Low(bs[3]));
    }
  }

  /** The base-64 digits of a number put together from them. */
  lemma Base64Digits(d3: int, d2: int, d1: int, d0: int)
    requires 0 <= d3 && 0 <= d2 < 0x40 && 0 <= d1 < 0x40 && 0 <= d0 < 0x40
    ensures var c := 0x40000 * d3 + 0x1000 * d2 + 0x40 * d1 + d0;
            c / 0x40000 == d3 && c / 0x1000 == 0x40 * d3 + d2 && c / 0x1000 % 0x40 == d2 &&
            c / 0x40 == 0x1000 * d3 + 0x40 * d2 + d1 && c / 0x40 % 0x40 == d1 && c % 0x40 == d0
  {
  }

  function Decode(bs: Bytes): Text {
    if bs == [] then []
    else
      UnitSize(bs);
      [DecodeUnit(bs).point] + Decode(bs[DecodeUnit(bs).size..])
  }

  /** The decoding step met a well-formed character, U+FFFD among them. */
  predicate GoodUnit(bs: Bytes)
    requires bs != []
  {
    UnitSize(bs);
    bs[..DecodeUnit(bs).size] == EncodePoint(DecodeUnit(bs).point)
  }

  predicate WellFormed(bs: Bytes) {
    bs == [] || (UnitSize(bs); GoodUnit(bs) && WellFormed(bs[DecodeUnit(bs).size..]))
  }

  /** `bytes.decode('utf-8')`, the strict decoder; None stands for its UnicodeDecodeError. */
  function DecodeStrict(bs: Bytes): Option<Text> {
    if WellFormed(bs) then Some(Decode(bs)) else None
  }

  // ---------------------------------------------------------------- decoding undoes encoding

  /** A code point in base 64. */
  lemma Digits(c: Point)
    ensures c / 0x1000 == c / 0x40 / 0x40 && c / 0x40000 == c / 0x40 / 0x40 / 0x40
    ensures c == 0x40 * (c / 0x40) + c % 0x40
    ensures c / 0x40 == 0x40 * (c / 0x1000) + c / 0x40 % 0x40
    ensures c / 0x1000 == 0x40 * (c / 0x40000) + c / 0x1000 % 0x40
  {
  }

  lemma EncodedUnit(c: Point, rest: Bytes)
    requires !Surrogate(c)
    ensures DecodeUnit(EncodePoint(c) + rest) == Unit(c, |EncodePoint(c)|)
  {
    Digits(c);
    var e := EncodePoint(c);
    assert forall i | 0 <= i < |e| :: (e + rest)[i] == e[i];
  }

  lemma DecodePoint(c: Point, rest: Bytes)
    requires !Surrogate(c)
    ensures Decode(EncodePoint(c) + rest) == [c] + Decode(rest)
  {
    EncodedUnit(c, rest);
    var e := EncodePoint(c);
    assert (e + rest)[|e|..] == rest;
  }

  lemma {:induction false} DecodeEncodedThen(text: Text, rest: Bytes)
    requires Encodable(text)
    ensures Decode(EncodeAll(text) + rest) == text + Decode(rest)
  {
    if text == [] {
      assert EncodeAll(text) + rest == rest;
    } else {
      var more := EncodeAll(text[1..]) + rest;
      Regroup(EncodePoint(text[0]), EncodeAll(text[1..]), rest);
      DecodePoint(text[0], more);
      DecodeEncodedThen(text[1..], rest);
      Regroup([text[0]], text[1..], Decode(rest));
      HeadAndTail(text);
    }
  }

  lemma DecodeEncode(text: Text)
    requires Encodable(text)
    ensures Encode(text).Some? && Decode(Encode(text).value) == text
  {
    DecodeEncodedThen(text, []);
    assert EncodeAll(text) + [] == EncodeAll(text);
  }

  lemma WellFormedPoint(c: Point, rest: Bytes)
    requires !Surrogate(c)
    ensures WellFormed(EncodePoint(c) + rest) <==> WellFormed(rest)
  {
    EncodedUnit(c, rest);
    var e := EncodePoint(c);
    assert (e + rest)[..|e|] == e && (e + rest)[|e|..] == rest;
  }

  lemma {:induction false} EncodedIsWellFormed(text: Text)
    requires Encodable(text)
    ensures WellFormed(EncodeAll(text))
  {
    if text != [] {
      EncodedIsWellFormed(text[1..]);
      WellFormedPoint(text[0], EncodeAll(text[1..]));
    }
  }

  lemma GoodUnitIsEncoded(bs: Bytes)
    requires bs != [] && GoodUnit(bs)
    ensures DecodeUnit(bs).size <= |bs| && !Surrogate(DecodeUnit(bs).point)
    ensures bs == EncodePoint(DecodeUnit(bs).point) + bs[DecodeUnit(bs).size..]
  {
    hide DecodeUnit, EncodePoint;
    UnitSize(bs);
    var u := DecodeUnit(bs);
    if u.point != REPLACEMENT {
      DecodedIsEncoded(bs);
    }
    assert bs == bs[..u.size] + bs[u.size..];
  }

  lemma {:induction false} WellFormedIsEncoded(bs: Bytes)
    requires WellFormed(bs)
    ensures Encodable(Decode(bs)) && EncodeAll(Decode(bs)) == bs
  {
    if bs != [] {
      hide DecodeUnit, EncodePoint, EncodeAll, Encodable, GoodUnit;
      GoodUnitIsEncoded(bs);
      UnitSize(bs);
      var rest := bs[DecodeUnit(bs).size..];
      WellFormedIsEncoded(rest);
      EncodeHead(DecodeUnit(bs).point, Decode(rest));
    }
  }

  lemma EncodeHead(c: Point, text: Text)
    requires !Surrogate(c) && Encodable(text)
    ensures Encodable([c] + text) && EncodeAll([c] + text) == EncodePoint(c) + EncodeAll(text)
  {
    assert ([c] + text)[1..] == text;
  }

  /** The strict decoder accepts exactly the encodings of texts, and gives back the text. */
  lemma StrictDecodesEncodings(bs: Bytes)
    ensures DecodeStrict(bs).Some? <==> exists text :: Encodable(text) && bs == EncodeAll(text)
    ensures DecodeStrict(bs).Some? ==> Encodable(DecodeStrict(bs).value) && EncodeAll(DecodeStrict(bs).value) == bs
  {
    if WellFormed(bs) {
      WellFormedIsEncoded(bs);
    }
    forall text | Encodable(text) && bs == EncodeAll(text) ensures WellFormed(bs) {
      EncodedIsWellFormed(text);
    }
  }

  // ---------------------------------------------------------------- synchronisation

  lemma UnitStops(bs: Bytes, k: nat)
    requires 0 < k <= |bs| && (k == |bs| || !IsCont(bs[k]))
    ensures DecodeUnit(bs).size <= k && DecodeUnit(bs[..k]) == DecodeUnit(bs)
  {
    UnitSize(bs);
  }

  lemma DecodeStep(bs: Bytes)
    requires bs != []
    ensures 1 <= DecodeUnit(bs).size <= |bs|
    ensures Decode(bs) == [DecodeUnit(bs).point] + Decode(bs[DecodeUnit(bs).size..])
  {
    hide DecodeUnit;
    UnitSize(bs);
  }

  /** A decoding never straddles a byte that is not a continuation byte. */
  lemma {:induction false} DecodeSplits(bs: Bytes, k: nat)
    requires k <= |bs| && (k == |bs| || !IsCont(bs[k]))
    ensures Decode(bs) == Decode(bs[..k]) + Decode(bs[k..])
    decreases |bs|
  {
    hide Decode, DecodeUnit;
    if k > 0 {
      var n, point := DecodeUnit(bs).size, DecodeUnit(bs).point;
      DecodeStep(bs);
      UnitStops(bs, k);
      DecodeStep(bs[..k]);
      TakeInDrop(bs, n, k);
      DropDrop(bs, n, k - n);
      DecodeSplits(bs[n..], k - n);
      Regroup([point], Decode(bs[..k][n..]), Decode(bs[k..]));
    } else {
      assert bs[..k] == [] && bs[k..] == bs;
      NothingDecodes();
    }
  }

  lemma NothingDecodes()
    ensures Decode([]) == []
  {
  }

  /** Stray continuation bytes decode to replacement characters. */
  lemma {:induction false} DecodeStray(bs: Bytes)
    requires forall i | 0 <= i < |bs| :: IsCont(bs[i])
    ensures |Decode(bs)| == |bs| && forall i | 0 <= i < |bs| :: Decode(bs)[i] == REPLACEMENT
  {
    if bs != [] {
      DecodeStray(bs[1..]);
    }
  }
}
