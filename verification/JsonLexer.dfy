/** The tokens of `OurReader`: where each scanner stops, as functions of the document and the
    cursor. */
module JsonLexer {
  import opened Bytes

  datatype TokenType =
    | EndOfStream | ObjectBegin | ObjectEnd | ArrayBegin | ArrayEnd | StringToken | NumberToken
    | TrueToken | FalseToken | NullToken | NaNToken | PosInf | NegInf
    | ArraySeparator | MemberSeparator | Comment | ErrorToken

  datatype Token = Token(typ: TokenType, start: nat, end: nat)

  /** `OurFeatures` without the dropped-null placeholders. What the C library makes of a number
      that is no integer is a parameter: whether `sscanf` reads it, and how it is printed as a
      member name. */
  datatype Features = Features(
    allowComments: bool, strictRoot: bool, allowNumericKeys: bool, allowSingleQuotes: bool,
    failIfExtra: bool, rejectDupKeys: bool, allowSpecialFloats: bool, stackLimit: int,
    scanReal: Bytes -> bool, showReal: Bytes -> Bytes)

  predicate IsSpace(c: byte) { c == SPACE || c == TAB || c == CR || c == LF }

  function SkipSpaces(s: Bytes, p: nat): (q: nat)
    requires p <= |s|
    ensures p <= q <= |s|
    ensures forall i :: p <= i < q ==> IsSpace(s[i])
    ensures q < |s| ==> !IsSpace(s[q])
    decreases |s| - p
  {
    if p < |s| && IsSpace(s[p]) then SkipSpaces(s, p + 1) else p
  }

  function SkipDigits(s: Bytes, p: nat): (q: nat)
    requires p <= |s|
    ensures p <= q <= |s|
    ensures forall i :: p <= i < q ==> IsDigit(s[i])
    ensures q < |s| ==> !IsDigit(s[q])
    decreases |s| - p
  {
    if p < |s| && IsDigit(s[p]) then SkipDigits(s, p + 1) else p
  }

  /** `readNumber`: digits, an optional fraction, an optional exponent; every part may be empty. */
  function NumberEnd(s: Bytes, p: nat): (q: nat)
    requires p <= |s|
    ensures p <= q <= |s|
  {
    ExponentEnd(s, FractionEnd(s, SkipDigits(s, p)))
  }

  function FractionEnd(s: Bytes, p: nat): (q: nat)
    requires p <= |s|
    ensures p <= q <= |s|
  {
    if p < |s| && s[p] == DOT then SkipDigits(s, p + 1) else p
  }

  function ExponentEnd(s: Bytes, p: nat): (q: nat)
    requires p <= |s|
    ensures p <= q <= |s|
  {
    if p < |s| && (s[p] == LOWER_E || s[p] == UPPER_E) then
      if p + 1 < |s| && (s[p + 1] == PLUS || s[p + 1] == MINUS) then SkipDigits(s, p + 2)
      else SkipDigits(s, p + 1)
    else p
  }

  datatype Scan = Scan(ok: bool, end: nat)

  /** `readString` and `readStringSingleQuote`, after the opening quote. */
  function ScanString(s: Bytes, p: nat, quote: byte): (r: Scan)
    requires p <= |s|
    ensures p <= r.end <= |s|
    ensures r.ok ==> p < r.end
    decreases |s| - p
  {
    if p == |s| then Scan(false, p)
    else if s[p] == BACKSLASH then ScanString(s, if p + 2 <= |s| then p + 2 else p + 1, quote)
    else if s[p] == quote then Scan(true, p + 1)
    else ScanString(s, p + 1, quote)
  }

  /** `readCStyleComment`, after the opening star; a document ending in a slash ends the comment
      even without a star. */
  function ScanCComment(s: Bytes, p: nat): (r: Scan)
    requires p <= |s|
    ensures p <= r.end <= |s|
    decreases |s| - p
  {
    if p + 1 < |s| then
      if s[p] == STAR && s[p + 1] == SLASH then Scan(true, p + 2) else ScanCComment(s, p + 1)
    else if p == |s| then Scan(false, p)
    else Scan(s[p] == SLASH, p + 1)
  }

  /** `readCppStyleComment`: up to and including the end of the line. */
  function LineCommentEnd(s: Bytes, p: nat): (q: nat)
    requires p <= |s|
    ensures p <= q <= |s|
    decreases |s| - p
  {
    if p == |s| then p
    else if s[p] == LF then p + 1
    else if s[p] == CR then (if p + 1 < |s| && s[p + 1] == LF then p + 2 else p + 1)
    else LineCommentEnd(s, p + 1)
  }

  /** `readComment`, after the first character. */
  function ScanComment(s: Bytes, p: nat): (r: Scan)
    requires p <= |s|
    ensures p <= r.end <= |s|
  {
    if p == |s| then Scan(false, p)
    else if s[p] == STAR then ScanCComment(s, p + 1)
    else if s[p] == SLASH then Scan(true, LineCommentEnd(s, p + 1))
    else Scan(false, p + 1)
  }

  /** `match`: the cursor moves only if the whole pattern is there. */
  function ScanMatch(s: Bytes, p: nat, pattern: Bytes): (r: Scan)
    requires p <= |s|
    ensures p <= r.end <= |s|
  {
    if At(s, p, pattern) then Scan(true, p + |pattern|) else Scan(false, p)
  }

  const RUE: Bytes := [0x72, 0x75, 0x65]
  const ALSE: Bytes := [0x61, 0x6C, 0x73, 0x65]
  const ULL: Bytes := [0x75, 0x6C, 0x6C]
  const AN: Bytes := [0x61, 0x4E]
  const NFINITY: Bytes := [0x6E, 0x66, 0x69, 0x6E, 0x69, 0x74, 0x79]

  function Checked(typ: TokenType, start: nat, scan: Scan): Token {
    Token(if scan.ok then typ else ErrorToken, start, scan.end)
  }

  function Punctuation(c: byte): Option<TokenType> {
    if c == LBRACE then Some(ObjectBegin)
    else if c == RBRACE then Some(ObjectEnd)
    else if c == LBRACKET then Some(ArrayBegin)
    else if c == RBRACKET then Some(ArrayEnd)
    else if c == COMMA then Some(ArraySeparator)
    else if c == COLON then Some(MemberSeparator)
    else if c == NUL then Some(EndOfStream)
    else None
  }

  /** `readToken`; afterwards the cursor is at `end`. A quote character that is not allowed starts
      a comment, as a slash does. */
  function ReadToken(f: Features, s: Bytes, p: nat): (t: Token)
    requires p <= |s|
    ensures p <= t.start <= t.end <= |s|
    ensures t.typ != EndOfStream ==> t.start < t.end
    ensures t.typ == StringToken ==> t.start + 2 <= t.end
  {
    var start := SkipSpaces(s, p);
    if start == |s| then Token(EndOfStream, start, start) else TokenAt(f, s, start)
  }

  function TokenAt(f: Features, s: Bytes, start: nat): (t: Token)
    requires start < |s|
    ensures t.start == start < t.end <= |s|
    ensures t.typ == StringToken ==> t.start + 2 <= t.end
  {
    var c, p := s[start], start + 1;
    if Punctuation(c).Some? then Token(Punctuation(c).value, start, p)
    else if c == QUOTE then Checked(StringToken, start, ScanString(s, p, QUOTE))
    else if c == APOSTROPHE && f.allowSingleQuotes then Checked(StringToken, start, ScanString(s, p, APOSTROPHE))
    else if c == APOSTROPHE || c == SLASH then Checked(Comment, start, ScanComment(s, p))
    else if IsDigit(c) then Token(NumberToken, start, NumberEnd(s, p))
    else if c == MINUS then
      if p < |s| && s[p] == UPPER_I then
        if f.allowSpecialFloats then Checked(NegInf, start, ScanMatch(s, p + 1, NFINITY))
        else Token(ErrorToken, start, p + 1)
      else Token(NumberToken, start, NumberEnd(s, p))
    else if c == LOWER_T then Checked(TrueToken, start, ScanMatch(s, p, RUE))
    else if c == LOWER_F then Checked(FalseToken, start, ScanMatch(s, p, ALSE))
    else if c == LOWER_N then Checked(NullToken, start, ScanMatch(s, p, ULL))
    else if c == UPPER_N && f.allowSpecialFloats then Checked(NaNToken, start, ScanMatch(s, p, AN))
    else if c == UPPER_I && f.allowSpecialFloats then Checked(PosInf, start, ScanMatch(s, p, NFINITY))
    else Token(ErrorToken, start, p)
  }

  /** The next token that is no comment. */
  function NextToken(f: Features, s: Bytes, p: nat): (t: Token)
    requires p <= |s|
    ensures p <= t.start <= t.end <= |s|
    ensures t.typ != EndOfStream ==> p <= t.start < t.end
    ensures t.typ == StringToken ==> t.start + 2 <= t.end
    ensures t.typ != Comment
    decreases |s| - p
  {
    var t := ReadToken(f, s, p);
    if t.typ == Comment then NextToken(f, s, t.end) else t
  }

  /** `skipCommentTokens`. */
  function FirstToken(f: Features, s: Bytes, p: nat): (t: Token)
    requires p <= |s|
    ensures p <= t.start <= t.end <= |s|
    ensures t.typ != EndOfStream ==> p <= t.start < t.end
    ensures t.typ == StringToken ==> t.start + 2 <= t.end
  {
    if f.allowComments then NextToken(f, s, p) else ReadToken(f, s, p)
  }

  /** `recoverFromError`: where reading resumes after everything up to `until` was skipped. */
  function Recover(f: Features, s: Bytes, p: nat, until: TokenType): (q: nat)
    requires p <= |s|
    ensures p <= q <= |s|
    decreases |s| - p
  {
    var t := ReadToken(f, s, p);
    if t.typ == until || t.typ == EndOfStream then t.end else Recover(f, s, t.end, until)
  }
}
