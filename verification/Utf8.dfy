/** Re-encoding a UTF-16 string as UTF-8 (RFC 3629), for QR codes.  Code units, bytes and code points are 32-bit words, as
    the bit operations see them. */
module Utf8 {
  import opened Dns

  type Word = bv32

  // ---------------------------------------------------------------------------------------------------------------
  // What the strings mean
  // ---------------------------------------------------------------------------------------------------------------

  predicate IsHigh(u: Word) {
    0xd800 <= u < 0xdc00
  }

  predicate IsLow(u: Word) {
    0xdc00 <= u < 0xe000
  }

  function PairValue(high: Word, low: Word): Word {
    0x10000 + ((high - 0xd800) << 10) + (low - 0xdc00)
  }

  /** The code points of a UTF-16 string, if it is well-formed: surrogates come in pairs only. */
  function DecodeUtf16(str: seq<Word>): Option<seq<Word>> {
    if str == [] then Some([])
    else if str[0] >= 0x10000 || IsLow(str[0]) then None
    else if IsHigh(str[0]) then
      if |str| >= 2 && IsLow(str[1]) then Prepend(PairValue(str[0], str[1]), DecodeUtf16(str[2..])) else None
    else Prepend(str[0], DecodeUtf16(str[1..]))
  }

  function Prepend(c: Word, rest: Option<seq<Word>>): Option<seq<Word>> {
    match rest case None => None case Some(cs) => Some([c] + cs)
  }

  predicate IsTail(b: Word) {
    0x80 <= b < 0xc0
  }

  function Tail(b: Word): Word {
    b & 0x3f
  }

  function Value2(b0: Word, b1: Word): Word {
    ((b0 & 0x1f) << 6) | Tail(b1)
  }

  function Value3(b0: Word, b1: Word, b2: Word): Word {
    ((b0 & 0x0f) << 12) | (Tail(b1) << 6) | Tail(b2)
  }

  function Value4(b0: Word, b1: Word, b2: Word, b3: Word): Word {
    ((b0 & 0x07) << 18) | (Tail(b1) << 12) | (Tail(b2) << 6) | Tail(b3)
  }

  /** The first code point of a UTF-8 string and the number of its bytes; overlong forms, surrogates and values above
      10FFFF are invalid (sections 3 and 4 of RFC 3629). */
  function FirstUtf8(s: seq<Word>): Option<(Word, nat)>
    requires s != []
  {
    if s[0] < 0x80 then Some((s[0], 1))
    else if 0xc0 <= s[0] < 0xe0 then
      if |s| >= 2 && IsTail(s[1]) && 0x80 <= Value2(s[0], s[1]) then Some((Value2(s[0], s[1]), 2)) else None
    else if 0xe0 <= s[0] < 0xf0 then
      if |s| >= 3 && IsTail(s[1]) && IsTail(s[2]) && 0x800 <= Value3(s[0], s[1], s[2])
         && !(0xd800 <= Value3(s[0], s[1], s[2]) < 0xe000)
      then Some((Value3(s[0], s[1], s[2]), 3)) else None
    else if 0xf0 <= s[0] < 0xf8 then
      if |s| >= 4 && IsTail(s[1]) && IsTail(s[2]) && IsTail(s[3])
         && 0x10000 <= Value4(s[0], s[1], s[2], s[3]) <= 0x10ffff
      then Some((Value4(s[0], s[1], s[2], s[3]), 4)) else None
    else None
  }

  function DecodeUtf8(s: seq<Word>): Option<seq<Word>> {
    if s == [] then Some([])
    else match FirstUtf8(s)
      case None => None
      case Some((c, n)) => if n == 0 || n > |s| then None else Prepend(c, DecodeUtf8(s[n..]))
  }

  // ---------------------------------------------------------------------------------------------------------------
  // The encoder
  // ---------------------------------------------------------------------------------------------------------------

  /** The UTF-8 bytes written for a code point below 10000, and for one above. */
  function EncodeBmp(c: Word): seq<Word> {
    if c < 0x0080 then [c]
    else if c < 0x0800 then [0xc0 | (c >> 6), 0x80 | (c & 0x3f)]
    else [0xe0 | (c >> 12), 0x80 | ((c >> 6) & 0x3f), 0x80 | (c & 0x3f)]
  }

  /** The code point that the encoder makes of two code units. */
  function Joined(first: Word, second: Word): Word {
    0x10000 + (((first & 0x3ff) << 10) | (second & 0x3ff))
  }

  function EncodeSupplementary(c: Word): seq<Word> {
    [0xf0 | (c >> 18), 0x80 | ((c >> 12) & 0x3f), 0x80 | ((c >> 6) & 0x3f), 0x80 | (c & 0x3f)]
  }

  /** What the loop writes from the code units that are left.  It takes any surrogate for the first half of a pair; past
      the end of the string the other half counts as zero. */
  function Encoded(str: seq<Word>): seq<Word> {
    if str == [] then []
    else if str[0] < 0xd800 || str[0] >= 0xe000 then EncodeBmp(str[0]) + Encoded(str[1..])
    else if |str| == 1 then EncodeSupplementary(Joined(str[0], 0))
    else EncodeSupplementary(Joined(str[0], str[1])) + Encoded(str[2..])
  }

  lemma EncodedStep(str: seq<Word>, i: nat)
    requires i < |str|
    ensures Encoded(str[i..])
         == if str[i] < 0xd800 || str[i] >= 0xe000 then EncodeBmp(str[i]) + Encoded(str[i+1..])
            else if i + 1 == |str| then EncodeSupplementary(Joined(str[i], 0))
            else EncodeSupplementary(Joined(str[i], str[i+1])) + Encoded(str[i+2..])
  {
    assert str[i..][1..] == str[i+1..];
    if i + 1 < |str| {
      assert str[i..][2..] == str[i+2..];
    }
  }

  /** The three cases without surrogates. */
  method AppendBmp(utf8Str: seq<Word>, charCode: Word) returns (r: seq<Word>)
    ensures r == utf8Str + EncodeBmp(charCode)
  {
    r := utf8Str;
    if charCode < 0x0080 {
      r := r + [charCode];
    } else if charCode < 0x0800 {
      r := r + [0xc0 | (charCode >> 6)];
      r := r + [0x80 | (charCode & 0x3f)];
    } else {
      r := r + [0xe0 | (charCode >> 12)];
      r := r + [0x80 | ((charCode >> 6) & 0x3f)];
      r := r + [0x80 | (charCode & 0x3f)];
    }
  }

  /** The case of a surrogate pair. */
  method AppendPair(utf8Str: seq<Word>, first: Word, second: Word) returns (r: seq<Word>)
    ensures r == utf8Str + EncodeSupplementary(Joined(first, second))
  {
    var charCode := 0x10000 + (((first & 0x3ff) << 10) | (second & 0x3ff));
    assert charCode == Joined(first, second);
    hide Joined;
    r := AppendFour(utf8Str, charCode);
  }

  /** The four bytes of a code point above the BMP. */
  method AppendFour(utf8Str: seq<Word>, charCode: Word) returns (r: seq<Word>)
    ensures r == utf8Str + EncodeSupplementary(charCode)
  {
    r := utf8Str + [0xf0 | (charCode >> 18)];
    r := r + [0x80 | ((charCode >> 12) & 0x3f)];
    r := r + [0x80 | ((charCode >> 6) & 0x3f)];
    r := r + [0x80 | (charCode & 0x3f)];
  }

  function Rest(str: seq<Word>, i: nat): seq<Word> {
    if i < |str| then Encoded(str[i..]) else []
  }

  lemma RestEnds(str: seq<Word>)
    ensures Rest(str, 0) == Encoded(str) && Rest(str, |str|) == []
  {
    assert str[0..] == str;
  }

  lemma RestStep(str: seq<Word>, i: nat)
    requires i < |str|
    ensures Rest(str, i)
         == if str[i] < 0xd800 || str[i] >= 0xe000 then EncodeBmp(str[i]) + Rest(str, i + 1)
            else EncodeSupplementary(Joined(str[i], if i + 1 < |str| then str[i+1] else 0)) + Rest(str, i + 2)
    ensures |str| <= i + 1 ==> Rest(str, i + 1) == []
    ensures |str| <= i + 2 ==> Rest(str, i + 2) == []
  {
    hide Joined, EncodeBmp, EncodeSupplementary;
    EncodedStep(str, i);
    EncodedEmpty(str);
  }

  lemma EncodedEmpty(str: seq<Word>)
    ensures Encoded(str[|str|..]) == []
  {
  }

  method ToUTF8String(str: seq<Word>) returns (utf8Str: seq<Word>)
    ensures utf8Str == Encoded(str)
  {
    hide Rest, Joined, EncodeBmp, EncodeSupplementary;
    utf8Str := [];
    var i := 0;
    RestEnds(str);
    while i < |str|
      invariant 0 <= i
      invariant utf8Str + Rest(str, i) == Encoded(str)
      invariant i >= |str| ==> Rest(str, i) == []
    {
      RestStep(str, i);
      var charCode := str[i];
      if charCode < 0xd800 || charCode >= 0xe000 {
        utf8Str := AppendBmp(utf8Str, charCode);
      } else {
        i := i + 1;
        utf8Str := AppendPair(utf8Str, charCode, if i < |str| then str[i] else 0);
      }
      i := i + 1;
    }
  }


  // ---------------------------------------------------------------------------------------------------------------
  // Round trip
  // ---------------------------------------------------------------------------------------------------------------

  lemma Bits2(c: Word)
    requires 0x80 <= c < 0x800
    ensures 0xc0 <= 0xc0 | (c >> 6) < 0xe0 && IsTail(0x80 | (c & 0x3f))
    ensures Value2(0xc0 | (c >> 6), 0x80 | (c & 0x3f)) == c
  {
  }

  lemma Bits3(c: Word)
    requires 0x800 <= c < 0x10000
    ensures 0xe0 <= 0xe0 | (c >> 12) < 0xf0 && IsTail(0x80 | ((c >> 6) & 0x3f)) && IsTail(0x80 | (c & 0x3f))
    ensures Value3(0xe0 | (c >> 12), 0x80 | ((c >> 6) & 0x3f), 0x80 | (c & 0x3f)) == c
  {
  }

  lemma Bits4(c: Word)
    requires 0x10000 <= c <= 0x10ffff
    ensures 0xf0 <= 0xf0 | (c >> 18) < 0xf8
    ensures IsTail(0x80 | ((c >> 12) & 0x3f)) && IsTail(0x80 | ((c >> 6) & 0x3f)) && IsTail(0x80 | (c & 0x3f))
    ensures Value4(0xf0 | (c >> 18), 0x80 | ((c >> 12) & 0x3f), 0x80 | ((c >> 6) & 0x3f), 0x80 | (c & 0x3f)) == c
  {
  }

  lemma PairBits(high: Word, low: Word)
    requires IsHigh(high) && IsLow(low)
    ensures Joined(high, low) == PairValue(high, low)
    ensures 0x10000 <= PairValue(high, low) <= 0x10ffff
  {
  }

  lemma BmpRoundTrip(c: Word, rest: seq<Word>)
    requires c < 0x10000 && !(0xd800 <= c < 0xe000)
    ensures FirstUtf8(EncodeBmp(c) + rest) == Some((c, |EncodeBmp(c)|))
  {
    hide Value2, Value3, Value4, IsTail;
    if 0x80 <= c < 0x800 {
      Bits2(c);
    } else if 0x800 <= c {
      Bits3(c);
    }
  }

  lemma SupplementaryRoundTrip(c: Word, rest: seq<Word>)
    requires 0x10000 <= c <= 0x10ffff
    ensures FirstUtf8(EncodeSupplementary(c) + rest) == Some((c, 4))
  {
    hide Value2, Value3, Value4, IsTail;
    Bits4(c);
  }

  lemma DecodeStep(bytes: seq<Word>, rest: seq<Word>, c: Word)
    requires bytes != [] && FirstUtf8(bytes + rest) == Some((c, |bytes|))
    ensures DecodeUtf8(bytes + rest) == Prepend(c, DecodeUtf8(rest))
  {
    assert (bytes + rest)[|bytes|..] == rest;
  }

  lemma EncodedPair(str: seq<Word>)
    requires |str| >= 2 && IsHigh(str[0]) && IsLow(str[1])
    ensures Encoded(str) == EncodeSupplementary(PairValue(str[0], str[1])) + Encoded(str[2..])
    ensures 0x10000 <= PairValue(str[0], str[1]) <= 0x10ffff
    ensures EncodeSupplementary(PairValue(str[0], str[1])) != []
    ensures |EncodeSupplementary(PairValue(str[0], str[1]))| == 4
  {
    PairBits(str[0], str[1]);
  }

  lemma EncodedSingle(str: seq<Word>)
    requires str != [] && str[0] < 0x10000 && !IsHigh(str[0]) && !IsLow(str[0])
    ensures Encoded(str) == EncodeBmp(str[0]) + Encoded(str[1..])
    ensures !(0xd800 <= str[0] < 0xe000) && EncodeBmp(str[0]) != []
  {
  }

  /** Decoding the UTF-8 string gives the code points of the UTF-16 string, for every well-formed one. */
  lemma {:induction false} Utf8RoundTrip(str: seq<Word>)
    requires DecodeUtf16(str).Some?
    ensures DecodeUtf8(Encoded(str)) == DecodeUtf16(str)
    decreases |str|
  {
    hide PairValue, EncodeBmp, EncodeSupplementary, FirstUtf8, IsHigh, IsLow, Encoded, DecodeUtf8;
    if str == [] {
      NothingRoundTrip();
    } else if IsHigh(str[0]) {
      Utf8RoundTrip(str[2..]);
      EncodedPair(str);
      SupplementaryRoundTrip(PairValue(str[0], str[1]), Encoded(str[2..]));
      DecodeStep(EncodeSupplementary(PairValue(str[0], str[1])), Encoded(str[2..]), PairValue(str[0], str[1]));
    } else {
      Utf8RoundTrip(str[1..]);
      EncodedSingle(str);
      BmpRoundTrip(str[0], Encoded(str[1..]));
      DecodeStep(EncodeBmp(str[0]), Encoded(str[1..]), str[0]);
    }
  }

  // ---------------------------------------------------------------------------------------------------------------
  // Code points and their encodings
  // ---------------------------------------------------------------------------------------------------------------

  predicate IsScalar(c: Word) {
    c < 0xd800 || 0xe000 <= c <= 0x10ffff
  }

  predicate AreScalars(cs: seq<Word>) {
    forall i :: 0 <= i < |cs| ==> IsScalar(cs[i])
  }

  function HighBits(v: Word): Word {
    v >> 10
  }

  function LowBits(v: Word): Word {
    v & 0x3ff
  }

  function Together(high: Word, low: Word): Word {
    (high << 10) + low
  }

  function HighUnit(c: Word): Word {
    0xd800 + HighBits(c - 0x10000)
  }

  function LowUnit(c: Word): Word {
    0xdc00 + LowBits(c - 0x10000)
  }

  /** The code units of a code point, and its bytes. */
  function Units(c: Word): seq<Word> {
    if c < 0x10000 then [c] else [HighUnit(c), LowUnit(c)]
  }

  function Bytes(c: Word): seq<Word> {
    if c < 0x10000 then EncodeBmp(c) else EncodeSupplementary(c)
  }

  function Utf16(cs: seq<Word>): seq<Word> {
    if cs == [] then [] else Units(cs[0]) + Utf16(cs[1..])
  }

  function Utf8(cs: seq<Word>): seq<Word> {
    if cs == [] then [] else Bytes(cs[0]) + Utf8(cs[1..])
  }

  lemma UnitsOfValue(high: Word, low: Word)
    requires IsHigh(high) && IsLow(low)
    ensures var c := PairValue(high, low); HighUnit(c) == high && LowUnit(c) == low && 0x10000 <= c <= 0x10ffff
  {
  }

  lemma ValueOfUnits(c: Word)
    requires 0x10000 <= c <= 0x10ffff
    ensures IsHigh(HighUnit(c)) && IsLow(LowUnit(c)) && PairValue(HighUnit(c), LowUnit(c)) == c
  {
    hide PairValue, HighUnit, LowUnit, IsHigh, IsLow, Together;
    var x, y := TwentyBits(c);
    PairIsOffset(HighUnit(c), LowUnit(c), x, y);
  }

  lemma TwentyBits(c: Word) returns (x: Word, y: Word)
    requires 0x10000 <= c <= 0x10ffff
    ensures x < 0x400 && y < 0x400 && Together(x, y) == c - 0x10000
    ensures HighUnit(c) == 0xd800 + x && LowUnit(c) == 0xdc00 + y
  {
    hide HighBits, LowBits, Together;
    SplitOff(c - 0x10000);
    x, y := HighBits(c - 0x10000), LowBits(c - 0x10000);
  }

  lemma SplitOff(v: Word)
    requires v <= 0xfffff
    ensures HighBits(v) < 0x400 && LowBits(v) < 0x400 && Together(HighBits(v), LowBits(v)) == v
  {
  }

  lemma PairIsOffset(high: Word, low: Word, x: Word, y: Word)
    requires x < 0x400 && y < 0x400
    requires high == 0xd800 + x && low == 0xdc00 + y
    ensures IsHigh(high) && IsLow(low) && PairValue(high, low) == 0x10000 + Together(x, y)
  {
  }

  lemma UnitsOfPair(high: Word, low: Word)
    requires IsHigh(high) && IsLow(low)
    ensures Units(PairValue(high, low)) == [high, low] && IsScalar(PairValue(high, low))
  {
    hide PairValue, HighUnit, LowUnit, IsHigh, IsLow;
    UnitsOfValue(high, low);
  }

  lemma PairOfUnits(c: Word)
    requires 0x10000 <= c <= 0x10ffff
    ensures |Units(c)| == 2 && IsHigh(Units(c)[0]) && IsLow(Units(c)[1]) && PairValue(Units(c)[0], Units(c)[1]) == c
  {
    hide PairValue, HighUnit, LowUnit, IsHigh, IsLow;
    ValueOfUnits(c);
  }

  lemma ScalarsStep(c: Word, cs: seq<Word>)
    ensures AreScalars([c] + cs) <==> IsScalar(c) && AreScalars(cs)
    ensures Utf16([c] + cs) == Units(c) + Utf16(cs) && Utf8([c] + cs) == Bytes(c) + Utf8(cs)
  {
    var all := [c] + cs;
    assert all[1..] == cs;
    assert AreScalars(all) ==> forall i :: 0 <= i < |cs| ==> cs[i] == all[i + 1];
  }

  /** A UTF-16 string decodes to certain code points if and only if it is their encoding. */
  lemma {:induction false} DecodedUnits(str: seq<Word>)
    ensures DecodeUtf16(str).Some? ==> AreScalars(DecodeUtf16(str).value) && Utf16(DecodeUtf16(str).value) == str
    decreases |str|
  {
    hide PairValue, Units, Bytes;
    if str != [] && DecodeUtf16(str).Some? {
      if IsHigh(str[0]) {
        DecodedUnits(str[2..]);
        UnitsOfPair(str[0], str[1]);
        ScalarsStep(PairValue(str[0], str[1]), DecodeUtf16(str[2..]).value);
      } else {
        DecodedUnits(str[1..]);
        SingleUnit(str[0]);
        ScalarsStep(str[0], DecodeUtf16(str[1..]).value);
      }
    }
  }

  lemma SingleUnit(c: Word)
    ensures c < 0x10000 ==> Units(c) == [c]
  {
  }

  lemma {:induction false} UnitsDecode(cs: seq<Word>)
    requires AreScalars(cs)
    ensures DecodeUtf16(Utf16(cs)) == Some(cs)
  {
    hide PairValue, Units, Bytes;
    if cs != [] {
      var c, rest := cs[0], cs[1..];
      assert cs == [c] + rest;
      UnitsDecode(rest);
      if c < 0x10000 {
        SingleUnit(c);
        assert ([c] + Utf16(rest))[1..] == Utf16(rest);
      } else {
        PairOfUnits(c);
        assert (Units(c) + Utf16(rest))[2..] == Utf16(rest);
      }
    }
  }

  lemma Utf16Iff(str: seq<Word>, cs: seq<Word>)
    ensures DecodeUtf16(str) == Some(cs) <==> AreScalars(cs) && str == Utf16(cs)
  {
    DecodedUnits(str);
    if AreScalars(cs) {
      UnitsDecode(cs);
    }
  }

  /** The first code point is the one whose bytes come first. */
  lemma FirstBytes(s: seq<Word>)
    requires s != [] && FirstUtf8(s).Some?
    ensures var (c, n) := FirstUtf8(s).value; IsScalar(c) && 0 < n <= |s| && Bytes(c) == s[..n]
  {
    hide Value2, Value3, Value4, Bytes, IsTail;
    if s[0] < 0x80 {
      OneByte(s[0]);
      assert s[..1] == [s[0]];
    } else if s[0] < 0xe0 {
      TwoBytes(s[0], s[1]);
      assert s[..2] == [s[0], s[1]];
    } else if s[0] < 0xf0 {
      ThreeBytes(s[0], s[1], s[2]);
      assert s[..3] == [s[0], s[1], s[2]];
    } else {
      FourBytes(s[0], s[1], s[2], s[3]);
      assert s[..4] == [s[0], s[1], s[2], s[3]];
    }
  }

  lemma OneByte(b: Word)
    requires b < 0x80
    ensures Bytes(b) == [b]
  {
  }

  lemma TwoBytes(b0: Word, b1: Word)
    requires 0xc0 <= b0 < 0xe0 && IsTail(b1) && 0x80 <= Value2(b0, b1)
    ensures Bytes(Value2(b0, b1)) == [b0, b1] && Value2(b0, b1) < 0x800
  {
    hide Value2, IsTail;
    Unbits2(b0, b1);
  }

  lemma ThreeBytes(b0: Word, b1: Word, b2: Word)
    requires 0xe0 <= b0 < 0xf0 && IsTail(b1) && IsTail(b2) && 0x800 <= Value3(b0, b1, b2)
    ensures Bytes(Value3(b0, b1, b2)) == [b0, b1, b2] && Value3(b0, b1, b2) < 0x10000
  {
    hide Value3, IsTail;
    Unbits3(b0, b1, b2);
  }

  lemma FourBytes(b0: Word, b1: Word, b2: Word, b3: Word)
    requires 0xf0 <= b0 < 0xf8 && IsTail(b1) && IsTail(b2) && IsTail(b3) && 0x10000 <= Value4(b0, b1, b2, b3)
    ensures Bytes(Value4(b0, b1, b2, b3)) == [b0, b1, b2, b3]
  {
    hide Value4, IsTail;
    Unbits4(b0, b1, b2, b3);
  }

  lemma Unbits2(b0: Word, b1: Word)
    requires 0xc0 <= b0 < 0xe0 && IsTail(b1)
    ensures var c := Value2(b0, b1); 0xc0 | (c >> 6) == b0 && 0x80 | (c & 0x3f) == b1 && c < 0x800
  {
  }

  lemma Unbits3(b0: Word, b1: Word, b2: Word)
    requires 0xe0 <= b0 < 0xf0 && IsTail(b1) && IsTail(b2)
    ensures var c := Value3(b0, b1, b2);
            0xe0 | (c >> 12) == b0 && 0x80 | ((c >> 6) & 0x3f) == b1 && 0x80 | (c & 0x3f) == b2 && c < 0x10000
  {
  }

  lemma Unbits4(b0: Word, b1: Word, b2: Word, b3: Word)
    requires 0xf0 <= b0 < 0xf8 && IsTail(b1) && IsTail(b2) && IsTail(b3)
    ensures var c := Value4(b0, b1, b2, b3);
            && 0xf0 | (c >> 18) == b0 && 0x80 | ((c >> 12) & 0x3f) == b1
            && 0x80 | ((c >> 6) & 0x3f) == b2 && 0x80 | (c & 0x3f) == b3
  {
  }

  /** A UTF-8 string decodes to certain code points if and only if it is their encoding. */
  lemma {:induction false} DecodedBytes(s: seq<Word>)
    ensures DecodeUtf8(s).Some? ==> AreScalars(DecodeUtf8(s).value) && Utf8(DecodeUtf8(s).value) == s
    decreases |s|
  {
    hide FirstUtf8, Units, Bytes, IsScalar;
    if s != [] && DecodeUtf8(s).Some? {
      var (c, n) := FirstUtf8(s).value;
      FirstBytes(s);
      DecodedBytes(s[n..]);
      ScalarsStep(c, DecodeUtf8(s[n..]).value);
    }
  }

  lemma BytesFirst(c: Word, rest: seq<Word>)
    requires IsScalar(c)
    ensures Bytes(c) != [] && FirstUtf8(Bytes(c) + rest) == Some((c, |Bytes(c)|))
  {
    hide FirstUtf8;
    if c < 0x10000 {
      BmpRoundTrip(c, rest);
    } else {
      SupplementaryRoundTrip(c, rest);
    }
  }

  lemma {:induction false} BytesDecode(cs: seq<Word>)
    requires AreScalars(cs)
    ensures DecodeUtf8(Utf8(cs)) == Some(cs)
  {
    hide FirstUtf8, Bytes, IsScalar;
    if cs != [] {
      var c, rest := cs[0], cs[1..];
      assert cs == [c] + rest;
      BytesDecode(rest);
      BytesFirst(c, Utf8(rest));
      DecodeStep(Bytes(c), Utf8(rest), c);
    }
  }

  lemma Utf8Iff(s: seq<Word>, cs: seq<Word>)
    ensures DecodeUtf8(s) == Some(cs) <==> AreScalars(cs) && s == Utf8(cs)
  {
    DecodedBytes(s);
    if AreScalars(cs) {
      BytesDecode(cs);
    }
  }

  /** So the UTF-16 encoding of any code points is re-encoded as their UTF-8 encoding. */
  lemma Utf16BecomesUtf8(cs: seq<Word>)
    requires AreScalars(cs)
    ensures Encoded(Utf16(cs)) == Utf8(cs)
  {
    Utf16Iff(Utf16(cs), cs);
    Utf8RoundTrip(Utf16(cs));
    Utf8Iff(Encoded(Utf16(cs)), cs);
  }

  /** Examples of section 7 of RFC 3629. */
  lemma Examples()
    ensures Encoded([0x41, 0x2262, 0x391, 0x2e]) == [0x41, 0xe2, 0x89, 0xa2, 0xce, 0x91, 0x2e]
    ensures Encoded([0xfeff, 0xd84c, 0xdfb4]) == [0xef, 0xbb, 0xbf, 0xf0, 0xa3, 0x8e, 0xb4]
  {
    var greek: seq<Word> := [0x41, 0x2262, 0x391, 0x2e];
    assert greek[1..] == [0x2262, 0x391, 0x2e] && greek[2..] == [0x391, 0x2e] && greek[3..] == [0x2e];
    EncodedStep(greek, 0);
    EncodedStep(greek, 1);
    EncodedStep(greek, 2);
    var pair: seq<Word> := [0xfeff, 0xd84c, 0xdfb4];
    assert pair[1..] == [0xd84c, 0xdfb4];
  }

  /** What is written is always UTF-8, whatever surrogates occur alone. */
  lemma {:induction false} AlwaysUtf8(str: seq<Word>)
    requires forall i :: 0 <= i < |str| ==> str[i] < 0x10000
    ensures DecodeUtf8(Encoded(str)).Some?
    decreases |str|
  {
    hide Joined, EncodeBmp, EncodeSupplementary, FirstUtf8, DecodeUtf8;
    if str == [] {
      NothingRoundTrip();
    } else if str[0] < 0xd800 || str[0] >= 0xe000 {
      AlwaysUtf8(str[1..]);
      AppendedBmp(str[0], Encoded(str[1..]));
    } else {
      var low, rest := if |str| == 1 then 0 else str[1], if |str| == 1 then [] else str[2..];
      AlwaysUtf8(rest);
      JoinedRange(str[0], low);
      AppendedPair(Joined(str[0], low), Encoded(rest));
      assert Encoded(str) == EncodeSupplementary(Joined(str[0], low)) + Encoded(rest);
    }
  }

  lemma JoinedRange(first: Word, second: Word)
    ensures 0x10000 <= Joined(first, second) <= 0x10ffff
  {
  }

  lemma AppendedBmp(c: Word, rest: seq<Word>)
    requires c < 0x10000 && !(0xd800 <= c < 0xe000) && DecodeUtf8(rest).Some?
    ensures DecodeUtf8(EncodeBmp(c) + rest).Some?
  {
    hide FirstUtf8;
    BmpRoundTrip(c, rest);
    DecodeStep(EncodeBmp(c), rest, c);
  }

  lemma AppendedPair(c: Word, rest: seq<Word>)
    requires 0x10000 <= c <= 0x10ffff && DecodeUtf8(rest).Some?
    ensures DecodeUtf8(EncodeSupplementary(c) + rest).Some?
  {
    hide FirstUtf8;
    SupplementaryRoundTrip(c, rest);
    DecodeStep(EncodeSupplementary(c), rest, c);
  }

  /** A surrogate at the end counts as half of a pair with nothing, and a low one takes what follows for its other half. */
  lemma LoneSurrogates()
    ensures Encoded([0xd83d]) == [0xf0, 0x9f, 0x90, 0x80]
    ensures Encoded([0xdc00, 0x41]) == [0xf0, 0x90, 0x81, 0x81]
  {
    var pair: seq<Word> := [0xdc00, 0x41];
    assert pair[2..] == [];
  }

  lemma NothingRoundTrip()
    ensures DecodeUtf8(Encoded([])) == Some([])
  {
  }
}
