/** JSON string escaping (`valueToQuotedStringN`) and unescaping (`OurReader::decodeString`).
    Bit masks and shifts of the source are written with `/` and `%`. */
module JsonString {
  import opened Bytes

  const REPLACEMENT: nat := 0xFFFD

  /** `codePointToUTF8`: no bytes at all above U+10FFFF. */
  function CodePointToUtf8(cp: nat): Bytes {
    if cp <= 0x7F then [cp]
    else if cp <= 0x7FF then [0xC0 + cp / 64 % 32, 0x80 + cp % 64]
    else if cp <= 0xFFFF then [0xE0 + cp / 4096 % 16, 0x80 + cp / 64 % 64, 0x80 + cp % 64]
    else if cp <= 0x10FFFF then
      [0xF0 + cp / 262144 % 8, 0x80 + cp / 4096 % 64, 0x80 + cp / 64 % 64, 0x80 + cp % 64]
    else []
  }

  /** The payload bits of a continuation byte. */
  function Low6(c: byte): nat { c % 64 }

  datatype CodePointRead = CodePointRead(cp: nat, next: nat)

  /** `utf8ToCodepoint`: the code point read at `i`, and where the caller's loop resumes.
      The surrogate test keeps only `>= 0xDFFF` of its two halves, and the four-byte form shifts
      the first byte by 24 where RFC 3629 has 18; both are as in the source. */
  function Utf8ToCodePoint(b: Bytes, i: nat): (r: CodePointRead)
    requires i < |b|
    ensures i < r.next <= |b|
  {
    var first: nat := b[i];
    if first < 0x80 then CodePointRead(first, i + 1)
    else if first < 0xE0 then
      if |b| - i < 2 then CodePointRead(REPLACEMENT, i + 1)
      else
        var calculated := first % 32 * 64 + Low6(b[i + 1]);
        CodePointRead(if calculated < 0x80 then REPLACEMENT else calculated, i + 2)
    else if first < 0xF0 then
      if |b| - i < 3 then CodePointRead(REPLACEMENT, i + 1)
      else
        var calculated := first % 16 * 4096 + Low6(b[i + 1]) * 64 + Low6(b[i + 2]);
        CodePointRead(if calculated >= 0xD800 && calculated >= 0xDFFF then REPLACEMENT
                      else if calculated < 0x800 then REPLACEMENT
                      else calculated, i + 3)
    else if first < 0xF8 then
      if |b| - i < 4 then CodePointRead(REPLACEMENT, i + 1)
      else
        var calculated := first % 8 * 0x100_0000 + Low6(b[i + 1]) * 4096 + Low6(b[i + 2]) * 64 + Low6(b[i + 3]);
        CodePointRead(if calculated < 0x10000 then REPLACEMENT else calculated, i + 4)
    else CodePointRead(REPLACEMENT, i + 1)
  }

  function HexDigit(d: nat): byte
    requires d < 16
  {
    if d < 10 then DIGIT0 + d else 0x61 + d - 10
  }

  /** `toHex16Bit`: only the low 16 bits are written. */
  function ToHex16Bit(x: nat): (h: Bytes)
    ensures |h| == 4
  {
    var hi, lo := x / 256 % 256, x % 256;
    [HexDigit(hi / 16), HexDigit(hi % 16), HexDigit(lo / 16), HexDigit(lo % 16)]
  }

  function UnicodeEscape(x: nat): (t: Bytes)
    ensures |t| == 6
  {
    [BACKSLASH, LOWER_U] + ToHex16Bit(x)
  }

  /** What the writer emits for one code point outside the short escapes. */
  function EscapeCodePoint(cp: nat): Bytes {
    if 0x20 <= cp < 0x80 then [cp]
    else if cp < 0x10000 then UnicodeEscape(cp)
    else
      var rest := cp - 0x10000;
      UnicodeEscape(rest / 1024 + 0xD800) + UnicodeEscape(rest % 1024 + 0xDC00)
  }

  /** The letter of a two-character escape, for the seven characters that have one. */
  function ShortEscape(c: byte): Option<byte> {
    if c == QUOTE then Some(QUOTE)
    else if c == BACKSLASH then Some(BACKSLASH)
    else if c == BACKSPACE then Some(LOWER_B)
    else if c == FORMFEED then Some(LOWER_F)
    else if c == LF then Some(LOWER_N)
    else if c == CR then Some(LOWER_R)
    else if c == TAB then Some(LOWER_T)
    else None
  }

  datatype Escaped = Escaped(text: Bytes, next: nat)

  /** One pass of the writer's loop at byte `i`. */
  function EscapeAt(b: Bytes, i: nat): (r: Escaped)
    requires i < |b|
    ensures i < r.next <= |b|
  {
    match ShortEscape(b[i])
    case Some(letter) => Escaped([BACKSLASH, letter], i + 1)
    case None =>
      var read := Utf8ToCodePoint(b, i);
      Escaped(EscapeCodePoint(read.cp), read.next)
  }

  function QuoteBody(b: Bytes, i: nat): Bytes
    requires i <= |b|
    decreases |b| - i
  {
    if i == |b| then [] else EscapeAt(b, i).text + QuoteBody(b, EscapeAt(b, i).next)
  }

  function Quoted(b: Bytes): Bytes { [QUOTE] + QuoteBody(b, 0) + [QUOTE] }

  /** `isAnyCharRequiredQuoting` with a signed `char`: bytes from 0x80 compare below a space and
      all others are below 0x80, so every byte asks for quoting. */
  method IsAnyCharRequiredQuoting(s: Bytes) returns (r: bool)
    ensures r <==> s != []
  {
    for cur := 0 to |s|
      invariant cur == 0
    {
      var c: int := s[cur];
      var signed := if c < 0x80 then c else c - 256;
      if s[cur] == BACKSLASH || s[cur] == QUOTE || signed < SPACE || s[cur] < 0x80 { return true; }
    }
    return false;
  }

  method ValueToQuotedStringN(value: Bytes) returns (result: Bytes)
    ensures result == Quoted(value)
  {
    var needed := IsAnyCharRequiredQuoting(value);
    if !needed { return [QUOTE] + value + [QUOTE]; }
    result := [QUOTE];
    var c := 0;
    while c != |value|
      invariant 0 <= c <= |value|
      invariant result + QuoteBody(value, c) == [QUOTE] + QuoteBody(value, 0)
      decreases |value| - c
    {
      var step := EscapeAt(value, c);
      assert result + QuoteBody(value, c) == result + step.text + QuoteBody(value, step.next);
      result, c := result + step.text, step.next;
    }
    assert result + QuoteBody(value, c) == result;
    result := result + [QUOTE];
  }

  // ---------------------------------------------------------------- decoding

  datatype StringError =
    | EmptyEscape | BadEscape | FourDigitsExpected | HexDigitExpected | SixMoreExpected | SecondHalfExpected

  datatype HexResult = HexBad(error: StringError) | HexValue(unicode: nat, next: nat)

  /** `decodeUnicodeEscapeSequence`: four hexadecimal digits at `i`. */
  function DecodeHex4(b: Bytes, i: nat): (r: HexResult)
    requires i <= |b|
    ensures r.HexValue? ==> r.next == i + 4 <= |b| && r.unicode < 0x10000
  {
    if |b| - i < 4 then HexBad(FourDigitsExpected)
    else
      match (HexValueOf(b[i]), HexValueOf(b[i + 1]), HexValueOf(b[i + 2]), HexValueOf(b[i + 3]))
      case (Some(d0), Some(d1), Some(d2), Some(d3)) =>
        assert d0 < 16 && d1 < 16 && d2 < 16 && d3 < 16;
        HexValue(((d0 * 16 + d1) * 16 + d2) * 16 + d3, i + 4)
      case _ => HexBad(HexDigitExpected)
  }

  /** `decodeUnicodeCodePoint`: one `\u` escape whose digits start at `i`, or a surrogate pair. */
  function DecodeCodePoint(b: Bytes, i: nat): (r: HexResult)
    requires i <= |b|
    ensures r.HexValue? ==> i < r.next <= |b|
  {
    match DecodeHex4(b, i)
    case HexBad(e) => HexBad(e)
    case HexValue(unicode, next) =>
      if 0xD800 <= unicode <= 0xDBFF then
        if |b| - next < 6 then HexBad(SixMoreExpected)
        else if b[next] == BACKSLASH && b[next + 1] == LOWER_U then
          match DecodeHex4(b, next + 2)
          case HexBad(e) => HexBad(e)
          case HexValue(second, after) =>
            HexValue(0x10000 + unicode % 1024 * 1024 + second % 1024, after)
        else HexBad(SecondHalfExpected)
      else HexValue(unicode, next)
  }

  datatype Unit = Stop | Fail(error: StringError) | Emit(bytes: Bytes, next: nat)

  function UnescapedLetter(c: byte): Option<byte> {
    if c == QUOTE || c == SLASH || c == BACKSLASH then Some(c)
    else if c == LOWER_B then Some(BACKSPACE)
    else if c == LOWER_F then Some(FORMFEED)
    else if c == LOWER_N then Some(LF)
    else if c == LOWER_R then Some(CR)
    else if c == LOWER_T then Some(TAB)
    else None
  }

  /** One pass of the loop of `decodeString` over the text between the quotes. */
  function DecodeUnit(b: Bytes, i: nat): (r: Unit)
    requires i < |b|
    ensures r.Emit? ==> i < r.next <= |b|
  {
    var c := b[i];
    if c == QUOTE then Stop
    else if c != BACKSLASH then Emit([c], i + 1)
    else if i + 1 == |b| then Fail(EmptyEscape)
    else if b[i + 1] == LOWER_U then
      match DecodeCodePoint(b, i + 2)
      case HexBad(e) => Fail(e)
      case HexValue(unicode, next) => Emit(CodePointToUtf8(unicode), next)
    else
      match UnescapedLetter(b[i + 1])
      case Some(letter) => Emit([letter], i + 2)
      case None => Fail(BadEscape)
  }

  datatype Decoded = Bad(error: StringError) | Good(text: Bytes)

  function Prepend(t: Bytes, d: Decoded): Decoded {
    match d
    case Bad(_) => d
    case Good(text) => Good(t + text)
  }

  function DecodeFrom(b: Bytes, i: nat): Decoded
    requires i <= |b|
    decreases |b| - i
  {
    if i == |b| then Good([])
    else
      match DecodeUnit(b, i)
      case Stop => Good([])
      case Fail(e) => Bad(e)
      case Emit(t, next) => Prepend(t, DecodeFrom(b, next))
  }

  /** `decodeString` on the text between the quotes. */
  method DecodeString(b: Bytes) returns (r: Decoded)
    ensures r == DecodeFrom(b, 0)
  {
    var decoded: Bytes := [];
    var current := 0;
    while current != |b|
      invariant 0 <= current <= |b|
      invariant Prepend(decoded, DecodeFrom(b, current)) == DecodeFrom(b, 0)
      decreases |b| - current
    {
      match DecodeUnit(b, current) {
        case Stop => return Good(decoded);
        case Fail(e) => return Bad(e);
        case Emit(t, next) =>
          PrependTwice(decoded, t, DecodeFrom(b, next));
          decoded, current := decoded + t, next;
      }
    }
    return Good(decoded);
  }

  lemma PrependTwice(a: Bytes, t: Bytes, d: Decoded)
    ensures Prepend(a, Prepend(t, d)) == Prepend(a + t, d)
  {
    if d.Good? { assert a + (t + d.text) == a + t + d.text; }
  }
}
