/** What the reader makes of any string it may be sent, written in whatever way: a string is a list of
    units, each with the bytes it stands for, perhaps followed by one of the endings that are refused. */
module JsonDecodeLaws {
  import opened Bytes
  import opened JsonString
  import opened JsonValue
  import opened JsonLexer
  import opened JsonGrammar
  import opened JsonTokens
  import opened JsonScan
  import opened JsonParseBack
  import opened JsonRefused

  /** One unit of section 7 of RFC 8259 as it is written: a byte as it is, a two-character escape by its
      letter, one `\u` escape by its digits, or a high surrogate's followed by another. */
  datatype Written =
    | Raw(c: byte)
    | Letter(c: byte)
    | Hex(digits: Bytes)
    | Pair(high: Bytes, second: Bytes)

  /** The value of a hexadecimal digit in either case, by its code; negative if it is none. */
  function Nibble(c: byte): int {
    if 48 <= c <= 57 then c - 48
    else if 65 <= c <= 70 then c - 55
    else if 97 <= c <= 102 then c - 87
    else -1
  }

  predicate FourDigits(d: Bytes) { |d| == 4 && forall i :: 0 <= i < 4 ==> Nibble(d[i]) >= 0 }

  function Number(d: Bytes): nat
    requires FourDigits(d)
  {
    assert Nibble(d[0]) >= 0 && Nibble(d[1]) >= 0 && Nibble(d[2]) >= 0 && Nibble(d[3]) >= 0;
    4096 * Nibble(d[0]) + 256 * Nibble(d[1]) + 16 * Nibble(d[2]) + Nibble(d[3])
  }

  predicate HighSurrogate(d: Bytes) { FourDigits(d) && 0xD800 <= Number(d) < 0xDC00 }

  /** The letters of the eight two-character escapes: quote, slash, backslash, b, f, n, r, t. */
  const LETTERS: Bytes := [34, 47, 92, 98, 102, 110, 114, 116]

  /** Backspace, form feed, line feed, carriage return and tab; the other three stand for themselves. */
  function LetterMeaning(c: byte): byte
    requires c in LETTERS
  {
    if c == 98 then 8 else if c == 102 then 12 else if c == 110 then 10 else if c == 114 then 13 else if c == 116 then 9 else c
  }

  predicate WellFormed(w: Written) {
    match w
    case Raw(c) => c != 34 && c != 92
    case Letter(c) => c in LETTERS
    case Hex(d) => FourDigits(d) && !HighSurrogate(d)
    case Pair(h, l) => HighSurrogate(h) && FourDigits(l)
  }

  predicate AllWellFormed(ws: seq<Written>) { forall i :: 0 <= i < |ws| ==> WellFormed(ws[i]) }

  function Text(w: Written): Bytes {
    match w
    case Raw(c) => [c]
    case Letter(c) => [92, c]
    case Hex(d) => [92, 117] + d
    case Pair(h, l) => [92, 117] + h + [92, 117] + l
  }

  /** The bytes a unit stands for: of a pair, the code point that the low ten bits of both give. */
  function Meaning(w: Written): Bytes
    requires WellFormed(w)
  {
    match w
    case Raw(c) => [c]
    case Letter(c) => [LetterMeaning(c)]
    case Hex(d) => Utf8Of(Number(d))
    case Pair(h, l) => Utf8Of(0x10000 + 1024 * (Number(h) - 0xD800) + Number(l) % 1024)
  }

  /** UTF-8 of section 3 of RFC 3629, written out. */
  function Utf8Of(cp: nat): Bytes
    requires cp < 0x110000
  {
    if cp < 128 then [cp]
    else if cp < 2048 then [192 + cp / 64, 128 + cp % 64]
    else if cp < 65536 then [224 + cp / 4096, 128 + cp / 64 % 64, 128 + cp % 64]
    else [240 + cp / 262144, 128 + cp / 4096 % 64, 128 + cp / 64 % 64, 128 + cp % 64]
  }

  function Texts(ws: seq<Written>): Bytes { if ws == [] then [] else Text(ws[0]) + Texts(ws[1..]) }

  function Meanings(ws: seq<Written>): Bytes
    requires AllWellFormed(ws)
  {
    if ws == [] then [] else Meaning(ws[0]) + Meanings(ws[1..])
  }

  /** The endings that are refused, each with its error. */
  predicate Refused(t: Bytes, e: StringError) {
    && t != [] && t[0] == 92
    && match e
       case EmptyEscape => |t| == 1
       case BadEscape => |t| > 1 && t[1] !in LETTERS && t[1] != 117
       case FourDigitsExpected => 1 < |t| < 6 && t[1] == 117
       case HexDigitExpected =>
         |t| >= 6 && t[1] == 117
         && (!FourDigits(t[2..6])
             || (HighSurrogate(t[2..6]) && |t| >= 12 && t[6] == 92 && t[7] == 117 && !FourDigits(t[8..12])))
       case SixMoreExpected => 6 <= |t| < 12 && t[1] == 117 && HighSurrogate(t[2..6])
       case SecondHalfExpected => |t| >= 12 && t[1] == 117 && HighSurrogate(t[2..6]) && !(t[6] == 92 && t[7] == 117)
  }

  // ---------------------------------------------------------------- one unit

  lemma HexIs(c: byte)
    ensures HexValueOf(c) == if Nibble(c) >= 0 then Some(Nibble(c)) else None
  {}

  lemma Utf8Is(cp: nat)
    requires cp < 0x110000
    ensures CodePointToUtf8(cp) == Utf8Of(cp)
  {}

  lemma FourIs(b: Bytes, i: nat)
    requires i + 4 <= |b|
    ensures var d := b[i..i + 4];
            DecodeHex4(b, i) == if FourDigits(d) then HexValue(Number(d), i + 4) else HexBad(HexDigitExpected)
  {
    HexIs(b[i]);
    HexIs(b[i + 1]);
    HexIs(b[i + 2]);
    HexIs(b[i + 3]);
    var d := b[i..i + 4];
    assert d[0] == b[i] && d[1] == b[i + 1] && d[2] == b[i + 2] && d[3] == b[i + 3];
  }

  lemma LetterIs(c: byte)
    requires c != 117
    ensures UnescapedLetter(c) == if c in LETTERS then Some(LetterMeaning(c)) else None
  {}

  lemma UnitDecodes(b: Bytes, i: nat, w: Written)
    requires WellFormed(w) && At(b, i, Text(w))
    ensures DecodeFrom(b, i) == Prepend(Meaning(w), DecodeFrom(b, i + |Text(w)|))
  {
    hide DecodeHex4, CodePointToUtf8, UnescapedLetter, Number;
    var t := Text(w);
    AtIndex(b, i, t, 0);
    if |t| > 1 { AtIndex(b, i, t, 1); }
    match w {
      case Raw(_) =>
      case Letter(c) => LetterIs(c);
      case Hex(d) => OneEscape(b, i, d);
      case Pair(h, l) => TwoEscapes(b, i, h, l);
    }
  }

  lemma DigitsAt(b: Bytes, i: nat, d: Bytes, rest: Bytes)
    requires At(b, i, [92, 117] + d + rest) && FourDigits(d)
    ensures i + 6 <= |b| && b[i] == 92 && b[i + 1] == 117 && DecodeHex4(b, i + 2) == HexValue(Number(d), i + 6)
    ensures At(b, i + 6, rest)
  {
    AtConcat(b, i, [92, 117] + d, rest);
    AtConcat(b, i, [92, 117], d);
    AtIndex(b, i, [92, 117], 0);
    AtIndex(b, i, [92, 117], 1);
    FourIs(b, i + 2);
  }

  lemma NumberBelow(d: Bytes)
    requires FourDigits(d)
    ensures Number(d) < 0x10000
  {
    assert forall i :: 0 <= i < 4 ==> 0 <= Nibble(d[i]) < 16;
    assert Nibble(d[0]) < 16 && Nibble(d[1]) < 16 && Nibble(d[2]) < 16 && Nibble(d[3]) < 16;
  }

  lemma OneEscape(b: Bytes, i: nat, d: Bytes)
    requires FourDigits(d) && !HighSurrogate(d) && At(b, i, [92, 117] + d)
    ensures DecodeFrom(b, i) == Prepend(Meaning(Hex(d)), DecodeFrom(b, i + 6))
  {
    hide DecodeHex4, CodePointToUtf8, FourDigits, Number;
    assert [92, 117] + d + [] == [92, 117] + d;
    DigitsAt(b, i, d, []);
    NumberBelow(d);
    Utf8Is(Number(d));
    assert DecodeCodePoint(b, i + 2) == HexValue(Number(d), i + 6);
    assert DecodeUnit(b, i) == Emit(CodePointToUtf8(Number(d)), i + 6);
  }

  lemma TwoEscapes(b: Bytes, i: nat, h: Bytes, l: Bytes)
    requires HighSurrogate(h) && FourDigits(l) && At(b, i, [92, 117] + h + [92, 117] + l)
    ensures DecodeFrom(b, i) == Prepend(Meaning(Pair(h, l)), DecodeFrom(b, i + 12))
  {
    hide DecodeHex4, CodePointToUtf8, FourDigits, Number, DecodeCodePoint, Utf8Of;
    var cp := 0x10000 + 1024 * (Number(h) - 0xD800) + Number(l) % 1024;
    PairValue(b, i, h, l);
    Utf8Is(cp);
    assert DecodeUnit(b, i) == Emit(CodePointToUtf8(cp), i + 12);
  }

  lemma PairValue(b: Bytes, i: nat, h: Bytes, l: Bytes)
    requires HighSurrogate(h) && FourDigits(l) && At(b, i, [92, 117] + h + [92, 117] + l)
    ensures i + 12 <= |b| && b[i] == 92 && b[i + 1] == 117
    ensures DecodeCodePoint(b, i + 2) == HexValue(0x10000 + 1024 * (Number(h) - 0xD800) + Number(l) % 1024, i + 12)
  {
    hide DecodeHex4, FourDigits, Number;
    assert [92, 117] + h + [92, 117] + l == [92, 117] + h + ([92, 117] + l + []);
    DigitsAt(b, i, h, [92, 117] + l + []);
    DigitsAt(b, i + 6, l, []);
    assert Number(h) % 1024 == Number(h) - 0xD800;
  }

  // ---------------------------------------------------------------- whole bodies

  lemma {:induction false} UnitsDecode(b: Bytes, i: nat, ws: seq<Written>)
    requires AllWellFormed(ws) && At(b, i, Texts(ws))
    ensures DecodeFrom(b, i) == Prepend(Meanings(ws), DecodeFrom(b, i + |Texts(ws)|))
    decreases |ws|
  {
    hide DecodeFrom, Meaning, Text, WellFormed;
    if ws == [] {
      PrependNothing(DecodeFrom(b, i));
    } else {
      var rest := ws[1..];
      assert AllWellFormed(rest) by { assert forall k :: 0 <= k < |rest| ==> rest[k] == ws[k + 1]; }
      AtConcat(b, i, Text(ws[0]), Texts(rest));
      UnitDecodes(b, i, ws[0]);
      UnitsDecode(b, i + |Text(ws[0])|, rest);
      PrependTwice(Meaning(ws[0]), Meanings(rest), DecodeFrom(b, i + |Texts(ws)|));
    }
  }

  lemma PrependNothing(d: Decoded)
    ensures Prepend([], d) == d
  {
    if d.Good? { assert [] + d.text == d.text; }
  }

  lemma RefusedDecodes(b: Bytes, i: nat, e: StringError)
    requires i <= |b| && Refused(b[i..], e)
    ensures DecodeFrom(b, i) == Bad(e)
  {
    hide DecodeHex4, CodePointToUtf8, UnescapedLetter, Number;
    var t := b[i..];
    assert b[i] == 92 && (|t| > 1 ==> b[i + 1] == t[1]);
    if |t| > 1 && t[1] != 117 { LetterIs(t[1]); }
    if 1 < |t| < 6 { FewDigits(b, i + 2); }
    if |t| >= 6 && t[1] == 117 {
      FourIs(b, i + 2);
      assert b[i + 2..i + 6] == t[2..6];
      if FourDigits(t[2..6]) { SecondRefused(b, i, e); }
    }
  }

  lemma FewDigits(b: Bytes, i: nat)
    requires i <= |b| && |b| - i < 4
    ensures DecodeHex4(b, i) == HexBad(FourDigitsExpected)
  {}

  lemma SecondRefused(b: Bytes, i: nat, e: StringError)
    requires i + 6 <= |b| && Refused(b[i..], e) && b[i + 1] == 117 && FourDigits(b[i..][2..6])
    requires DecodeHex4(b, i + 2) == HexValue(Number(b[i..][2..6]), i + 6)
    ensures DecodeCodePoint(b, i + 2) == HexBad(e)
  {
    hide DecodeHex4, Number;
    var t := b[i..];
    assert HighSurrogate(t[2..6]);
    if |t| >= 12 {
      assert b[i + 6] == t[6] && b[i + 7] == t[7];
      FourIs(b, i + 8);
      assert b[i + 8..i + 12] == t[8..12];
    }
  }

  /** What any string body decodes to: units in front of a quote or the end give the bytes they stand for,
      units in front of a refused ending give its error. */
  lemma BodyDecodes(ws: seq<Written>, tail: Bytes)
    requires AllWellFormed(ws)
    ensures tail == [] || tail[0] == 34 ==> DecodeFrom(Texts(ws) + tail, 0) == Good(Meanings(ws))
    ensures forall e :: Refused(tail, e) ==> DecodeFrom(Texts(ws) + tail, 0) == Bad(e)
  {
    hide DecodeUnit, Meanings, Refused;
    var b := Texts(ws) + tail;
    assert b[0..|Texts(ws)|] == Texts(ws) && b[|Texts(ws)|..] == tail;
    UnitsDecode(b, 0, ws);
    if tail == [] || tail[0] == 34 {
      assert DecodeFrom(b, |Texts(ws)|) == Good([]) by { StopsHere(b, |Texts(ws)|); }
      assert Meanings(ws) + [] == Meanings(ws);
    }
    forall e | Refused(tail, e) ensures DecodeFrom(b, 0) == Bad(e) { RefusedDecodes(b, |Texts(ws)|, e); }
  }

  lemma StopsHere(b: Bytes, i: nat)
    requires i <= |b| && (i == |b| || b[i] == 34)
    ensures DecodeFrom(b, i) == Good([])
  {}

  /** And every body is of that kind. */
  lemma {:induction false} EveryBody(b: Bytes) returns (ws: seq<Written>, tail: Bytes)
    ensures AllWellFormed(ws) && b == Texts(ws) + tail
    ensures tail == [] || tail[0] == 34 || exists e :: Refused(tail, e)
    decreases |b|
  {
    hide WellFormed, Text, Refused;
    ws, tail := [], b;
    if b != [] && b[0] != 34 {
      var found, w, e := FirstUnit(b);
      if found {
        assert |Text(w)| > 0 by { TextNotEmpty(w); }
        var more, rest := EveryBody(b[|Text(w)|..]);
        OneMore(b, w, more, rest);
        ws, tail := [w] + more, rest;
      } else {
        assert [] + b == b;
      }
    }
  }

  lemma TextNotEmpty(w: Written)
    ensures Text(w) != []
  {}

  lemma OneMore(b: Bytes, w: Written, more: seq<Written>, rest: Bytes)
    requires WellFormed(w) && AllWellFormed(more) && |Text(w)| <= |b| && b[..|Text(w)|] == Text(w)
    requires b[|Text(w)|..] == Texts(more) + rest
    ensures AllWellFormed([w] + more) && b == Texts([w] + more) + rest
  {
    hide WellFormed, Text;
    var ws := [w] + more;
    assert ws[1..] == more;
    assert b == Text(w) + (Texts(more) + rest);
  }

  lemma FirstUnit(b: Bytes) returns (found: bool, w: Written, e: StringError)
    requires b != [] && b[0] != 34
    ensures found ==> WellFormed(w) && |Text(w)| <= |b| && b[..|Text(w)|] == Text(w)
    ensures !found ==> Refused(b, e)
  {
    hide FourDigits, Number;
    found, w, e := true, Raw(b[0]), EmptyEscape;
    if b[0] == 92 {
      if |b| == 1 {
        found := false;
      } else if b[1] == 117 {
        found, w, e := FirstEscape(b);
      } else if b[1] in LETTERS {
        w := Letter(b[1]);
      } else {
        found, e := false, BadEscape;
      }
    }
  }

  lemma FirstEscape(b: Bytes) returns (found: bool, w: Written, e: StringError)
    requires |b| > 1 && b[0] == 92 && b[1] == 117
    ensures found ==> WellFormed(w) && |Text(w)| <= |b| && b[..|Text(w)|] == Text(w)
    ensures !found ==> Refused(b, e)
  {
    hide FourDigits, Number;
    found, w, e := false, Raw(0), EmptyEscape;
    if |b| < 6 {
      e := FourDigitsExpected;
    } else if !FourDigits(b[2..6]) {
      e := HexDigitExpected;
    } else if !HighSurrogate(b[2..6]) {
      found, w := true, Hex(b[2..6]);
      assert b[..6] == [92, 117] + b[2..6];
    } else if |b| < 12 {
      e := SixMoreExpected;
    } else if !(b[6] == 92 && b[7] == 117) {
      e := SecondHalfExpected;
    } else if !FourDigits(b[8..12]) {
      e := HexDigitExpected;
    } else {
      found, w := true, Pair(b[2..6], b[8..12]);
      assert b[..12] == [92, 117] + b[2..6] + [92, 117] + b[8..12];
    }
  }

  // ---------------------------------------------------------------- documents

  /** A string token in a document, whatever stands in it. */
  lemma StringReads(f: Features, s: Bytes, p: nat, depth: nat, cur: Value, ws: seq<Written>, tail: Bytes)
    requires p <= |s| && depth <= f.stackLimit && FirstToken(f, s, p).typ == StringToken && AllWellFormed(ws)
    requires var t := FirstToken(f, s, p); s[t.start + 1..t.end - 1] == Texts(ws) + tail
    ensures var (t, r) := (FirstToken(f, s, p), ReadValue(f, s, p, depth, cur));
            && (tail == [] || tail[0] == 34 ==> r == Done(Str(Meanings(ws)), t.end, None))
            && (forall e :: Refused(tail, e) ==> r == Done(cur, t.end, Some(BadString(e, t))))
  {
    hide FirstToken, DecodeFrom, Refused, Texts, Meanings, AllWellFormed;
    BodyDecodes(ws, tail);
  }

  function InQuotes(ws: seq<Written>): Bytes { [34] + Texts(ws) + [34] }

  lemma ScanUnit(s: Bytes, p: nat, w: Written)
    requires WellFormed(w) && At(s, p, Text(w))
    ensures ScanString(s, p, QUOTE) == ScanString(s, p + |Text(w)|, QUOTE)
  {
    match w {
      case Raw(c) => ScanPlain(s, p, [c]);
      case Letter(c) => ScanTwo(s, p, c);
      case Hex(d) => ScanDigits(s, p, d);
      case Pair(h, l) =>
        assert Text(w) == ([92, 117] + h) + ([92, 117] + l);
        AtConcat(s, p, [92, 117] + h, [92, 117] + l);
        ScanDigits(s, p, h);
        ScanDigits(s, p + 6, l);
    }
  }

  lemma ScanDigits(s: Bytes, p: nat, d: Bytes)
    requires FourDigits(d) && At(s, p, [92, 117] + d)
    ensures ScanString(s, p, QUOTE) == ScanString(s, p + 6, QUOTE)
  {
    hide ScanString;
    AtConcat(s, p, [92, 117], d);
    ScanTwo(s, p, 117);
    ScanPlain(s, p + 2, d);
  }

  lemma {:induction false} ScanUnits(s: Bytes, p: nat, ws: seq<Written>)
    requires AllWellFormed(ws) && At(s, p, Texts(ws) + [34])
    ensures ScanString(s, p, QUOTE) == Scan(true, p + |Texts(ws)| + 1)
    decreases |ws|
  {
    hide WellFormed, Text;
    AtConcat(s, p, Texts(ws), [34]);
    if ws == [] {
      AtIndex(s, p, [34], 0);
    } else {
      hide ScanString;
      var rest := ws[1..];
      assert AllWellFormed(rest) by { assert forall k :: 0 <= k < |rest| ==> rest[k] == ws[k + 1]; }
      assert Texts(ws) + [34] == Text(ws[0]) + (Texts(rest) + [34]);
      AtConcat(s, p, Text(ws[0]), Texts(rest) + [34]);
      ScanUnit(s, p, ws[0]);
      ScanUnits(s, p + |Text(ws[0])|, rest);
    }
  }

  /** A written string is one token, in any place. */
  lemma LexUnits(f: Features, s: Bytes, p: nat, ws: seq<Written>, rest: seq<Bytes>)
    requires p <= |s| && AllWellFormed(ws) && SpacedAt(s, p, [InQuotes(ws)] + rest)
    ensures var t := ReadToken(f, s, p);
            && t.typ == StringToken && t.start + 2 <= t.end && s[t.start + 1..t.end - 1] == Texts(ws)
            && SpacedAt(s, t.end, rest)
  {
    hide ScanString, Texts, AllWellFormed;
    SpacedHead(s, p, InQuotes(ws), rest);
    var q := SkipSpaces(s, p);
    assert InQuotes(ws) == [34] + (Texts(ws) + [34]);
    AtConcat(s, q, [34], Texts(ws) + [34]);
    AtConcat(s, q + 1, Texts(ws), [34]);
    AtIndex(s, q, [34], 0);
    ScanUnits(s, q + 1, ws);
  }

  /** The value at `p` is the written string. */
  lemma UnitsRead(f: Features, s: Bytes, p: nat, depth: nat, cur: Value, ws: seq<Written>, rest: seq<Bytes>)
    requires p <= |s| && AllWellFormed(ws) && SpacedAt(s, p, [InQuotes(ws)] + rest) && depth <= f.stackLimit
    ensures ReadsTo(ReadValue(f, s, p, depth, cur), s, Str(Meanings(ws)), rest)
  {
    hide JsonLexer.ReadToken, ReadValue, Texts, Meanings, AllWellFormed, SpacedAt, Refused, InQuotes;
    LexUnits(f, s, p, ws, rest);
    SameFirstToken(f, s, p);
    assert Texts(ws) + [] == Texts(ws);
    StringReads(f, s, p, depth, cur, ws, []);
  }

  /** A document that is one string. */
  lemma StringDocument(f: Features, text: Bytes, ws: seq<Written>, root: Value)
    requires AllWellFormed(ws) && Spaced(text, [InQuotes(ws)]) && f.stackLimit >= 1
    ensures Parse(f, text, root) == Parsed(Str(Meanings(ws)), RootErrors(f, Null))
  {
    hide JsonLexer.ReadToken, NextToken, FirstToken, ReadValue, Texts, Meanings, AllWellFormed, SpacedAt, InQuotes;
    assert [InQuotes(ws)] + [] == [InQuotes(ws)];
    UnitsRead(f, text, 0, 1, root, ws, []);
    LexEnd(f, text, ReadValue(f, text, 0, 1, root).pos);
  }

  /** A document with one member, its name and its value written in any way. */
  lemma MemberDocument(f: Features, text: Bytes, name: seq<Written>, value: seq<Written>, root: Value)
    requires AllWellFormed(name) && AllWellFormed(value) && f.stackLimit >= 2 && |Meanings(name)| < MAX_KEY_LENGTH
    requires Spaced(text, [[LBRACE], InQuotes(name), [COLON], InQuotes(value), [RBRACE]])
    ensures Parse(f, text, root) == Parsed(Object(Entry(Name(Meanings(name)), Str(Meanings(value)), End)), [])
  {
    hide JsonLexer.ReadToken, NextToken, FirstToken, Texts, Meanings, AllWellFormed, SpacedAt, InQuotes, ReadObject, ReadArray;
    var after := [InQuotes(value), [RBRACE]];
    var body := [InQuotes(name), [COLON]] + after;
    assert [[LBRACE], InQuotes(name), [COLON], InQuotes(value), [RBRACE]] == [[LBRACE]] + body;
    LexPunctuation(f, text, 0, LBRACE, body);
    SameFirstToken(f, text, 0);
    var p := ReadToken(f, text, 0).end;
    MemberRead(f, text, p, name, value);
    var r := ReadObject(f, text, p, 1, [], End);
    LexEnd(f, text, r.pos);
  }

  lemma NameRead(f: Features, s: Bytes, p: nat, name: seq<Written>, after: seq<Bytes>)
    requires p <= |s| && AllWellFormed(name) && |Meanings(name)| < MAX_KEY_LENGTH
    requires SpacedAt(s, p, [InQuotes(name), [COLON]] + after)
    ensures var h := MemberHead(f, s, p, [], End);
            h.Member? && h.name == Meanings(name) && h.pos <= |s| && SpacedAt(s, h.pos, after)
  {
    hide JsonLexer.ReadToken, NextToken, Texts, Meanings, AllWellFormed, SpacedAt, InQuotes, DecodeFrom, Refused;
    assert [InQuotes(name), [COLON]] + after == [InQuotes(name)] + ([[COLON]] + after);
    LexUnits(f, s, p, name, [[COLON]] + after);
    SameFirstToken(f, s, p);
    assert Texts(name) + [] == Texts(name);
    BodyDecodes(name, []);
    LexPunctuation(f, s, JsonLexer.ReadToken(f, s, p).end, COLON, after);
  }

  lemma MemberRead(f: Features, s: Bytes, p: nat, name: seq<Written>, value: seq<Written>)
    requires p <= |s| && AllWellFormed(name) && AllWellFormed(value) && f.stackLimit >= 2 && |Meanings(name)| < MAX_KEY_LENGTH
    requires SpacedAt(s, p, [InQuotes(name), [COLON]] + [InQuotes(value), [RBRACE]])
    ensures ReadsTo(ReadObject(f, s, p, 1, [], End), s, Object(Entry(Name(Meanings(name)), Str(Meanings(value)), End)), [])
  {
    hide JsonLexer.ReadToken, NextToken, Texts, Meanings, AllWellFormed, SpacedAt, InQuotes, MemberHead, MemberTail, ReadValue;
    NameRead(f, s, p, name, [InQuotes(value), [RBRACE]]);
    var h := MemberHead(f, s, p, [], End);
    assert [InQuotes(value), [RBRACE]] == [InQuotes(value)] + [[RBRACE]];
    UnitsRead(f, s, h.pos, 2, Null, value, [[RBRACE]]);
    var r := ReadValue(f, s, h.pos, 2, Null);
    assert [[RBRACE]] + [] == [[RBRACE]];
    MemberTailBack(f, s, r.pos, RBRACE, []);
    assert Find(End, Name(h.name)) == None;
  }
}
