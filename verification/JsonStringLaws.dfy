/** What a string is after it was quoted by the writer and decoded by the reader. */
module JsonStringLaws {
  import opened Bytes
  import opened JsonString

  /** A Unicode scalar value: any code point but the surrogates. */
  predicate Scalar(cp: nat) { cp < 0xD800 || 0xE000 <= cp <= 0x10FFFF }

  predicate AllScalar(cps: seq<nat>) { forall i :: 0 <= i < |cps| ==> Scalar(cps[i]) }

  /** UTF-8 as RFC 3629, section 3 defines it. */
  function Utf8(cps: seq<nat>): Bytes {
    if cps == [] then [] else CodePointToUtf8(cps[0]) + Utf8(cps[1..])
  }

  /** The number `Utf8ToCodePoint` makes of the encoding of a scalar value. */
  function WrittenAs(cp: nat): (r: nat)
    ensures cp >= 0x10000 ==> r >= 0x10000
  {
    if 0xE000 <= cp < 0x10000 then REPLACEMENT
    else if cp >= 0x40000 then cp / 0x40000 * 0x100_0000 + cp % 0x40000
    else cp
  }

  function EscapeScalar(cp: nat): Bytes {
    if cp < 0x80 && ShortEscape(cp).Some? then [BACKSLASH, ShortEscape(cp).value]
    else EscapeCodePoint(WrittenAs(cp))
  }

  function EscapeAll(cps: seq<nat>): Bytes {
    if cps == [] then [] else EscapeScalar(cps[0]) + EscapeAll(cps[1..])
  }

  /** The two numbers escaped for a code point from U+10000. */
  function HighUnit(cp: nat): nat
    requires cp >= 0x10000
  {
    (WrittenAs(cp) - 0x10000) / 1024 + 0xD800
  }

  function LowUnit(cp: nat): nat
    requires cp >= 0x10000
  {
    (WrittenAs(cp) - 0x10000) % 1024 + 0xDC00
  }

  /** The bytes read back for one scalar value. */
  function Reread(cp: nat): Bytes {
    if 0xE000 <= cp < 0x10000 then CodePointToUtf8(REPLACEMENT)
    else if cp >= 0x40000 then CodePointToUtf8(HighUnit(cp) % 0x10000) + CodePointToUtf8(LowUnit(cp))
    else CodePointToUtf8(cp)
  }

  function RereadAll(cps: seq<nat>): Bytes {
    if cps == [] then [] else Reread(cps[0]) + RereadAll(cps[1..])
  }

  /** The scalar values that survive. */
  predicate Faithful(cp: nat) { cp < 0xD800 || cp == REPLACEMENT || 0x10000 <= cp < 0x40000 }

  // ---------------------------------------------------------------- writing

  lemma Encode2(h: nat, l: nat)
    requires 2 <= h < 32 && l < 64
    ensures CodePointToUtf8(h * 64 + l) == [0xC0 + h, 0x80 + l]
  {}

  lemma Encode3(h: nat, m: nat, l: nat)
    requires h < 16 && m < 64 && l < 64 && h * 64 + m >= 32
    ensures CodePointToUtf8(h * 4096 + m * 64 + l) == [0xE0 + h, 0x80 + m, 0x80 + l]
  {
    var cp := h * 4096 + m * 64 + l;
    assert cp / 64 == h * 64 + m && cp % 64 == l && cp / 4096 == h;
  }

  lemma Encode4(k: nat, h: nat, m: nat, l: nat)
    requires k <= 4 && h < 64 && m < 64 && l < 64 && k * 64 + h >= 16 && (k == 4 ==> h < 16)
    ensures CodePointToUtf8(k * 0x40000 + h * 4096 + m * 64 + l) == [0xF0 + k, 0x80 + h, 0x80 + m, 0x80 + l]
  {
    var cp := k * 0x40000 + h * 4096 + m * 64 + l;
    assert cp / 4096 == k * 64 + h && cp / 64 == (k * 64 + h) * 64 + m;
  }

  lemma Read2(b: Bytes, i: nat, h: nat, l: nat)
    requires i + 2 <= |b| && 2 <= h < 32 && l < 64 && b[i] == 0xC0 + h && b[i + 1] == 0x80 + l
    ensures Utf8ToCodePoint(b, i) == CodePointRead(h * 64 + l, i + 2)
  {}

  lemma Read3(b: Bytes, i: nat, h: nat, m: nat, l: nat)
    requires i + 3 <= |b| && h < 16 && m < 64 && l < 64 && h * 64 + m >= 32
    requires b[i] == 0xE0 + h && b[i + 1] == 0x80 + m && b[i + 2] == 0x80 + l
    ensures var cp := h * 4096 + m * 64 + l;
            Utf8ToCodePoint(b, i) == CodePointRead(if cp >= 0xDFFF then REPLACEMENT else cp, i + 3)
  {}

  lemma Read4(b: Bytes, i: nat, k: nat, h: nat, m: nat, l: nat)
    requires i + 4 <= |b| && k <= 4 && h < 64 && m < 64 && l < 64 && k * 64 + h >= 16
    requires b[i] == 0xF0 + k && b[i + 1] == 0x80 + h && b[i + 2] == 0x80 + m && b[i + 3] == 0x80 + l
    ensures Utf8ToCodePoint(b, i) == CodePointRead(k * 0x100_0000 + h * 4096 + m * 64 + l, i + 4)
  {}

  /** Reading an encoded scalar value back. */
  lemma ReadCodePointBack(b: Bytes, i: nat, cp: nat)
    requires Scalar(cp) && At(b, i, CodePointToUtf8(cp))
    ensures Utf8ToCodePoint(b, i) == CodePointRead(WrittenAs(cp), i + |CodePointToUtf8(cp)|)
  {
    AtIndex(b, i, CodePointToUtf8(cp), 0);
    var l, rest := cp % 64, cp / 64;
    if 0x7F < cp {
      AtIndex(b, i, CodePointToUtf8(cp), 1);
      if cp <= 0x7FF {
        Encode2(rest, l);
        Read2(b, i, rest, l);
      } else {
        AtIndex(b, i, CodePointToUtf8(cp), 2);
        var m, rest' := rest % 64, rest / 64;
        if cp <= 0xFFFF {
          Encode3(rest', m, l);
          Read3(b, i, rest', m, l);
        } else {
          AtIndex(b, i, CodePointToUtf8(cp), 3);
          ReadFourBack(b, i, cp, rest' / 64, rest' % 64, m, l);
        }
      }
    }
  }

  lemma ReadFourBack(b: Bytes, i: nat, cp: nat, k: nat, h: nat, m: nat, l: nat)
    requires k <= 4 && h < 64 && m < 64 && l < 64 && k * 64 + h >= 16 && (k == 4 ==> h < 16)
    requires cp == k * 0x40000 + h * 4096 + m * 64 + l && At(b, i, CodePointToUtf8(cp))
    ensures Utf8ToCodePoint(b, i) == CodePointRead(WrittenAs(cp), i + 4)
  {
    Encode4(k, h, m, l);
    var e := [0xF0 + k, 0x80 + h, 0x80 + m, 0x80 + l];
    AtIndex(b, i, e, 0); AtIndex(b, i, e, 1); AtIndex(b, i, e, 2); AtIndex(b, i, e, 3);
    Read4(b, i, k, h, m, l);
    assert cp / 0x40000 == k && cp % 0x40000 == h * 4096 + m * 64 + l;
  }

  lemma EscapeScalarAt(b: Bytes, i: nat, cp: nat)
    requires Scalar(cp) && At(b, i, CodePointToUtf8(cp))
    ensures i < |b| && EscapeAt(b, i) == Escaped(EscapeScalar(cp), i + |CodePointToUtf8(cp)|)
  {
    ReadCodePointBack(b, i, cp);
    assert b[i] == b[i..i + |CodePointToUtf8(cp)|][0] == CodePointToUtf8(cp)[0];
    if cp >= 0x80 { assert b[i] >= 0xC0 && ShortEscape(b[i]) == None; }
  }

  lemma {:induction false} QuoteBodyOfUtf8(b: Bytes, i: nat, cps: seq<nat>)
    requires AllScalar(cps) && i <= |b| && b[i..] == Utf8(cps)
    ensures QuoteBody(b, i) == EscapeAll(cps)
    decreases |cps|
  {
    hide EscapeAt, EscapeScalar, CodePointToUtf8;
    if cps != [] {
      var e := CodePointToUtf8(cps[0]);
      assert b[i..i + |e|] == b[i..][..|e|] == e;
      EscapeScalarAt(b, i, cps[0]);
      assert b[i + |e|..] == b[i..][|e|..] == Utf8(cps[1..]);
      QuoteBodyOfUtf8(b, i + |e|, cps[1..]);
    } else {
      assert |b[i..]| == 0;
    }
  }

  // ---------------------------------------------------------------- reading

  lemma HexRoundTrip(d: nat)
    requires d < 16
    ensures HexValueOf(HexDigit(d)) == Some(d)
  {}

  lemma HexDigitsOf(x: nat)
    ensures var hi, lo := x / 256 % 256, x % 256;
            hi / 16 < 16 && lo / 16 < 16 &&
            ((hi / 16 * 16 + hi % 16) * 16 + lo / 16) * 16 + lo % 16 == x % 0x10000
  {}

  /** A `\u` escape of the 16-bit number `x` stands at `i`. */
  predicate EscapeStandsAt(b: Bytes, i: nat, x: nat) {
    i + 6 <= |b| && b[i] == BACKSLASH && b[i + 1] == LOWER_U && DecodeHex4(b, i + 2) == HexValue(x, i + 6)
  }

  lemma DecodeHexBack(b: Bytes, i: nat, x: nat)
    requires At(b, i, UnicodeEscape(x))
    ensures EscapeStandsAt(b, i, x % 0x10000)
  {
    var e := UnicodeEscape(x);
    AtIndex(b, i, e, 0); AtIndex(b, i, e, 1); AtIndex(b, i, e, 2);
    AtIndex(b, i, e, 3); AtIndex(b, i, e, 4); AtIndex(b, i, e, 5);
    var hi, lo := x / 256 % 256, x % 256;
    HexDigitsOf(x);
    HexRoundTrip(hi / 16); HexRoundTrip(hi % 16); HexRoundTrip(lo / 16); HexRoundTrip(lo % 16);
  }

  /** A `\u` escape that is not a high surrogate is decoded alone. */
  lemma DecodeSingle(b: Bytes, i: nat, x: nat)
    requires EscapeStandsAt(b, i, x) && !(0xD800 <= x <= 0xDBFF)
    ensures DecodeFrom(b, i) == Prepend(CodePointToUtf8(x), DecodeFrom(b, i + 6))
  {
    hide DecodeHex4, CodePointToUtf8;
    assert DecodeUnit(b, i) == Emit(CodePointToUtf8(x), i + 6);
  }

  lemma DecodePair(b: Bytes, i: nat, h: nat, l: nat)
    requires h < 1024 && l < 1024
    requires EscapeStandsAt(b, i, 0xD800 + h) && EscapeStandsAt(b, i + 6, 0xDC00 + l)
    ensures DecodeFrom(b, i) == Prepend(CodePointToUtf8(0x10000 + h * 1024 + l), DecodeFrom(b, i + 12))
  {
    hide DecodeHex4, CodePointToUtf8;
    assert (0xD800 + h) % 1024 == h && (0xDC00 + l) % 1024 == l;
    var cp := 0x10000 + h * 1024 + l;
    assert DecodeCodePoint(b, i + 2) == HexValue(cp, i + 12);
    assert DecodeUnit(b, i) == Emit(CodePointToUtf8(cp), i + 12);
  }

  lemma DecodeScalarBack(b: Bytes, i: nat, cp: nat)
    requires Scalar(cp) && At(b, i, EscapeScalar(cp))
    ensures DecodeFrom(b, i) == Prepend(Reread(cp), DecodeFrom(b, i + |EscapeScalar(cp)|))
  {
    if cp >= 0x10000 {
      EscapeIsPair(cp);
      DecodeUnits(b, i, cp);
    } else {
      DecodeBasicPlane(b, i, cp);
    }
  }

  lemma DecodeBasicPlane(b: Bytes, i: nat, cp: nat)
    requires Scalar(cp) && cp < 0x10000 && At(b, i, EscapeScalar(cp))
    ensures DecodeFrom(b, i) == Prepend(Reread(cp), DecodeFrom(b, i + |EscapeScalar(cp)|))
  {
    hide DecodeHex4, ToHex16Bit;
    if cp < 0x80 && ShortEscape(cp).Some? {
      DecodeShort(b, i, cp);
    } else if 0x20 <= cp < 0x80 {
      AtIndex(b, i, [cp], 0);
    } else {
      assert EscapeScalar(cp) == UnicodeEscape(WrittenAs(cp));
      DecodeHexBack(b, i, WrittenAs(cp));
      DecodeSingle(b, i, WrittenAs(cp));
    }
  }

  lemma DecodeShort(b: Bytes, i: nat, c: byte)
    requires ShortEscape(c).Some? && At(b, i, [BACKSLASH, ShortEscape(c).value])
    ensures DecodeFrom(b, i) == Prepend([c], DecodeFrom(b, i + 2))
  {
    hide DecodeCodePoint;
    AtIndex(b, i, [BACKSLASH, ShortEscape(c).value], 0);
    AtIndex(b, i, [BACKSLASH, ShortEscape(c).value], 1);
  }

  lemma EscapeIsPair(cp: nat)
    requires 0x10000 <= cp <= 0x10FFFF
    ensures EscapeScalar(cp) == UnicodeEscape(HighUnit(cp)) + UnicodeEscape(LowUnit(cp))
    ensures |EscapeScalar(cp)| == 12
  {}

  lemma DecodeTwoSingles(b: Bytes, i: nat, high: nat, low: nat)
    requires EscapeStandsAt(b, i, high) && EscapeStandsAt(b, i + 6, low)
    requires !(0xD800 <= high <= 0xDBFF) && !(0xD800 <= low <= 0xDBFF)
    ensures DecodeFrom(b, i) == Prepend(CodePointToUtf8(high) + CodePointToUtf8(low), DecodeFrom(b, i + 12))
  {
    hide DecodeHex4, DecodeFrom, CodePointToUtf8;
    DecodeSingle(b, i, high);
    DecodeSingle(b, i + 6, low);
    PrependTwice(CodePointToUtf8(high), CodePointToUtf8(low), DecodeFrom(b, i + 12));
  }

  lemma DecodeUnits(b: Bytes, i: nat, cp: nat)
    requires 0x10000 <= cp <= 0x10FFFF
    requires At(b, i, UnicodeEscape(HighUnit(cp)) + UnicodeEscape(LowUnit(cp)))
    ensures DecodeFrom(b, i) == Prepend(Reread(cp), DecodeFrom(b, i + 12))
  {
    hide UnicodeEscape, EscapeStandsAt, DecodeFrom, CodePointToUtf8, HighUnit, Reread;
    PairOfEscapes(b, i, HighUnit(cp), LowUnit(cp));
    if cp >= 0x40000 { DecodeBrokenUnits(b, i, cp); } else { DecodeWholeUnits(b, i, cp); }
  }

  lemma DecodeBrokenUnits(b: Bytes, i: nat, cp: nat)
    requires 0x40000 <= cp <= 0x10FFFF
    requires EscapeStandsAt(b, i, HighUnit(cp) % 0x10000) && EscapeStandsAt(b, i + 6, LowUnit(cp))
    ensures DecodeFrom(b, i) == Prepend(Reread(cp), DecodeFrom(b, i + 12))
  {
    hide EscapeStandsAt, DecodeFrom, CodePointToUtf8;
    BrokenUnits(cp);
    DecodeTwoSingles(b, i, HighUnit(cp) % 0x10000, LowUnit(cp));
  }

  lemma DecodeWholeUnits(b: Bytes, i: nat, cp: nat)
    requires 0x10000 <= cp < 0x40000
    requires EscapeStandsAt(b, i, HighUnit(cp) % 0x10000) && EscapeStandsAt(b, i + 6, LowUnit(cp))
    ensures DecodeFrom(b, i) == Prepend(Reread(cp), DecodeFrom(b, i + 12))
  {
    hide EscapeStandsAt, DecodeFrom, CodePointToUtf8;
    WholeUnits(cp);
    DecodePair(b, i, HighUnit(cp) - 0xD800, LowUnit(cp) - 0xDC00);
  }

  lemma WholeUnits(cp: nat)
    requires 0x10000 <= cp < 0x40000
    ensures 0xD800 <= HighUnit(cp) < 0xD800 + 1024 && 0xDC00 <= LowUnit(cp) < 0xDC00 + 1024
    ensures cp == 0x10000 + (HighUnit(cp) - 0xD800) * 1024 + (LowUnit(cp) - 0xDC00)
    ensures Reread(cp) == CodePointToUtf8(cp)
  {}

  lemma PairOfEscapes(b: Bytes, i: nat, high: nat, low: nat)
    requires At(b, i, UnicodeEscape(high) + UnicodeEscape(low)) && low < 0x10000
    ensures EscapeStandsAt(b, i, high % 0x10000) && EscapeStandsAt(b, i + 6, low)
  {
    hide EscapeStandsAt;
    assert |UnicodeEscape(high)| == 6;
    AtConcat(b, i, UnicodeEscape(high), UnicodeEscape(low));
    DecodeHexBack(b, i, high);
    DecodeHexBack(b, i + 6, low);
  }

  /** From U+40000 the first escape never falls among the high surrogates. */
  lemma BrokenUnits(cp: nat)
    requires 0x40000 <= cp <= 0x10FFFF
    ensures !(0xD800 <= HighUnit(cp) % 0x10000 <= 0xDBFF) && 0x800 <= HighUnit(cp) % 0x10000
  {
    var k, low := cp / 0x40000, cp % 0x40000;
    assert 1 <= k <= 4;
    assert HighUnit(cp) == k * 0x4000 + low / 1024 - 64 + 0xD800;
    if k == 4 { assert low < 0x10000; }
  }

  lemma {:induction false} DecodeEscapeAll(b: Bytes, i: nat, cps: seq<nat>)
    requires AllScalar(cps) && i <= |b| && b[i..] == EscapeAll(cps)
    ensures DecodeFrom(b, i) == Good(RereadAll(cps))
    decreases |cps|
  {
    hide EscapeScalar, Reread, DecodeUnit;
    if cps != [] {
      var e := EscapeScalar(cps[0]);
      assert b[i..i + |e|] == b[i..][..|e|] == e;
      assert b[i + |e|..] == b[i..][|e|..] == EscapeAll(cps[1..]);
      DecodeScalarBack(b, i, cps[0]);
      DecodeEscapeAll(b, i + |e|, cps[1..]);
    } else {
      assert |b[i..]| == 0;
    }
  }

  /** Quoting any UTF-8 text and decoding it always succeeds, and gives each scalar value as
      `Reread` says. */
  lemma {:induction false} QuoteThenDecode(cps: seq<nat>)
    requires AllScalar(cps)
    ensures DecodeFrom(QuoteBody(Utf8(cps), 0), 0) == Good(RereadAll(cps))
  {
    QuoteBodyOfUtf8(Utf8(cps), 0, cps);
    DecodeEscapeAll(EscapeAll(cps), 0, cps);
  }

  // ---------------------------------------------------------------- which texts survive

  lemma ThreeByteForm(cp: nat)
    requires 0x800 <= cp < 0x10000
    ensures CodePointToUtf8(cp) == [0xE0 + cp / 4096, 0x80 + cp / 64 % 64, 0x80 + cp % 64]
    ensures cp == cp / 4096 * 4096 + cp / 64 % 64 * 64 + cp % 64
  {
    Encode3(cp / 64 / 64, cp / 64 % 64, cp % 64);
  }

  lemma RereadLength(cp: nat)
    requires Scalar(cp)
    ensures |Reread(cp)| >= |CodePointToUtf8(cp)|
    ensures Reread(cp) == CodePointToUtf8(cp) <==> Faithful(cp)
  {
    if cp >= 0x40000 {
      BrokenUnits(cp);
      ThreeByteForm(HighUnit(cp) % 0x10000);
      ThreeByteForm(LowUnit(cp));
    } else if 0xE000 <= cp < 0x10000 {
      ThreeByteForm(cp);
      ThreeByteForm(REPLACEMENT);
      var a, r := CodePointToUtf8(cp), CodePointToUtf8(REPLACEMENT);
      assert a == r ==> a[0] == r[0] && a[1] == r[1] && a[2] == r[2];
    }
  }

  lemma {:induction false} RereadAllLength(cps: seq<nat>)
    requires AllScalar(cps)
    ensures |RereadAll(cps)| >= |Utf8(cps)|
  {
    if cps != [] {
      RereadLength(cps[0]);
      RereadAllLength(cps[1..]);
    }
  }

  /** The text survives exactly when every scalar value in it is below U+D800, is U+FFFD, or lies in
      U+10000..U+3FFFF. */
  lemma {:induction false} SurvivesIff(cps: seq<nat>)
    requires AllScalar(cps)
    ensures RereadAll(cps) == Utf8(cps) <==> forall i :: 0 <= i < |cps| ==> Faithful(cps[i])
  {
    if cps != [] {
      var rest := cps[1..];
      SurvivesIff(rest);
      RereadLength(cps[0]);
      RereadAllLength(rest);
      assert forall i :: 0 <= i < |rest| ==> rest[i] == cps[i + 1];
      if RereadAll(cps) == Utf8(cps) {
        var n := |CodePointToUtf8(cps[0])|;
        assert RereadAll(cps)[..n] == Utf8(cps)[..n];
        assert RereadAll(cps)[n..] == Utf8(cps)[n..];
        assert RereadAll(cps)[n..] == RereadAll(rest) && Utf8(cps)[n..] == Utf8(rest);
        assert forall i :: 0 <= i < |cps| ==> i == 0 || cps[i] == rest[i - 1];
      }
      if forall i :: 0 <= i < |cps| ==> Faithful(cps[i]) {
        assert Faithful(cps[0]);
      }
    }
  }

  /** U+E000 and U+40000 are both lost, so neither limit of `Faithful` can be dropped. */
  lemma LostExamples()
    ensures DecodeFrom(QuoteBody(Utf8([0xE000]), 0), 0) == Good(CodePointToUtf8(0xFFFD))
    ensures DecodeFrom(QuoteBody(Utf8([0x40000]), 0), 0) == Good(CodePointToUtf8(0x17C0) + CodePointToUtf8(0xDC00))
  {
    RereadOne(0xE000);
    RereadOne(0x40000);
    FirstBrokenUnit();
  }

  lemma FirstBrokenUnit()
    ensures HighUnit(0x40000) % 0x10000 == 0x17C0 && LowUnit(0x40000) == 0xDC00
  {
    assert WrittenAs(0x40000) == 0x100_0000;
  }

  lemma RereadOne(cp: nat)
    requires Scalar(cp)
    ensures DecodeFrom(QuoteBody(Utf8([cp]), 0), 0) == Good(Reread(cp))
  {
    QuoteThenDecode([cp]);
    assert [cp][1..] == [];
    assert Reread(cp) + RereadAll([]) == Reread(cp);
  }

  // ---------------------------------------------------------------- bytes that are no UTF-8

  /** A byte that begins nothing, or begins what is not there in full, is read as U+FFFD and taken alone; a form
      that is longer than its number needs is read as U+FFFD and taken whole. */
  lemma DamagedIs(b: Bytes, i: nat)
    requires i < |b|
    ensures b[i] >= 248 ==> Utf8ToCodePoint(b, i) == CodePointRead(0xFFFD, i + 1)
    ensures 128 <= b[i] < 224 && |b| - i < 2 ==> Utf8ToCodePoint(b, i) == CodePointRead(0xFFFD, i + 1)
    ensures 224 <= b[i] < 240 && |b| - i < 3 ==> Utf8ToCodePoint(b, i) == CodePointRead(0xFFFD, i + 1)
    ensures 240 <= b[i] < 248 && |b| - i < 4 ==> Utf8ToCodePoint(b, i) == CodePointRead(0xFFFD, i + 1)
    ensures |b| - i >= 2 && b[i] in {192, 193} ==> Utf8ToCodePoint(b, i) == CodePointRead(0xFFFD, i + 2)
    ensures |b| - i >= 3 && b[i] == 224 && 128 <= b[i + 1] < 160 ==> Utf8ToCodePoint(b, i) == CodePointRead(0xFFFD, i + 3)
    ensures |b| - i >= 4 && b[i] == 240 && 128 <= b[i + 1] < 144 ==> Utf8ToCodePoint(b, i) == CodePointRead(0xFFFD, i + 4)
  {}

  predicate Printable(t: Bytes) { forall i :: 0 <= i < |t| ==> 32 <= t[i] < 128 }

  lemma EscapeIsPrintable(b: Bytes, i: nat)
    requires i < |b|
    ensures Printable(EscapeAt(b, i).text)
  {
    hide Utf8ToCodePoint;
    if ShortEscape(b[i]).None? { CodePointPrintable(Utf8ToCodePoint(b, i).cp); }
  }

  lemma CodePointPrintable(cp: nat)
    ensures Printable(EscapeCodePoint(cp))
  {
    hide ToHex16Bit;
    HexPrintable(cp);
    if cp >= 0x10000 {
      HexPrintable((cp - 0x10000) / 1024 + 0xD800);
      HexPrintable((cp - 0x10000) % 1024 + 0xDC00);
    }
  }

  lemma HexPrintable(x: nat)
    ensures Printable(ToHex16Bit(x))
  {}

  /** Whatever the bytes of a string, its written form is plain ASCII. */
  lemma {:induction false} WrittenIsPlain(b: Bytes, i: nat)
    requires i <= |b|
    ensures Printable(QuoteBody(b, i))
    decreases |b| - i
  {
    hide EscapeAt;
    if i < |b| {
      EscapeIsPrintable(b, i);
      WrittenIsPlain(b, EscapeAt(b, i).next);
    }
  }
}
