/** Reading the tokens of a laid-out text back, one at a time. */
module JsonScan {
  import opened Bytes
  import opened JsonString
  import opened JsonNumber
  import opened JsonLexer
  import opened JsonGrammar
  import opened JsonTokens

  // ---------------------------------------------------------------- strings

  lemma {:induction false} ScanPlain(s: Bytes, p: nat, t: Bytes)
    requires At(s, p, t) && forall i :: 0 <= i < |t| ==> t[i] != QUOTE && t[i] != BACKSLASH
    ensures ScanString(s, p, QUOTE) == ScanString(s, p + |t|, QUOTE)
    decreases |t|
  {
    if t != [] {
      AtIndex(s, p, t, 0);
      AtConcat(s, p, [t[0]], t[1..]);
      assert [t[0]] + t[1..] == t;
      ScanPlain(s, p + 1, t[1..]);
    }
  }

  lemma ScanTwo(s: Bytes, p: nat, letter: byte)
    requires At(s, p, [BACKSLASH, letter])
    ensures ScanString(s, p, QUOTE) == ScanString(s, p + 2, QUOTE)
  {
    AtIndex(s, p, [BACKSLASH, letter], 0);
  }

  lemma ScanUnicodeEscape(s: Bytes, p: nat, x: nat)
    requires At(s, p, UnicodeEscape(x))
    ensures ScanString(s, p, QUOTE) == ScanString(s, p + 6, QUOTE)
  {
    AtConcat(s, p, [BACKSLASH, LOWER_U], ToHex16Bit(x));
    ScanTwo(s, p, LOWER_U);
    ScanPlain(s, p + 2, ToHex16Bit(x));
  }

  lemma ScanCodePoint(s: Bytes, p: nat, cp: nat)
    requires At(s, p, EscapeCodePoint(cp)) && cp != QUOTE as int && cp != BACKSLASH as int
    ensures ScanString(s, p, QUOTE) == ScanString(s, p + |EscapeCodePoint(cp)|, QUOTE)
  {
    if 0x20 <= cp < 0x80 {
      ScanPlain(s, p, [cp]);
    } else if cp < 0x10000 {
      ScanUnicodeEscape(s, p, cp);
    } else {
      var high, low := (cp - 0x10000) / 1024 + 0xD800, (cp - 0x10000) % 1024 + 0xDC00;
      ScanUnicodePair(s, p, high, low);
    }
  }

  lemma ScanUnicodePair(s: Bytes, p: nat, high: nat, low: nat)
    requires At(s, p, UnicodeEscape(high) + UnicodeEscape(low))
    ensures ScanString(s, p, QUOTE) == ScanString(s, p + 12, QUOTE)
  {
    AtConcat(s, p, UnicodeEscape(high), UnicodeEscape(low));
    ScanUnicodeEscape(s, p, high);
    ScanUnicodeEscape(s, p + 6, low);
  }

  lemma NotQuoteRead(b: Bytes, i: nat)
    requires i < |b| && ShortEscape(b[i]).None?
    ensures Utf8ToCodePoint(b, i).cp != QUOTE as int && Utf8ToCodePoint(b, i).cp != BACKSLASH as int
  {}

  lemma ScanEscape(s: Bytes, p: nat, b: Bytes, i: nat)
    requires i < |b| && At(s, p, EscapeAt(b, i).text)
    ensures ScanString(s, p, QUOTE) == ScanString(s, p + |EscapeAt(b, i).text|, QUOTE)
  {
    hide EscapeCodePoint, Utf8ToCodePoint;
    if ShortEscape(b[i]).Some? {
      ScanTwo(s, p, ShortEscape(b[i]).value);
    } else {
      NotQuoteRead(b, i);
      ScanCodePoint(s, p, Utf8ToCodePoint(b, i).cp);
    }
  }

  /** For every byte string and whatever follows, the scanner stops exactly after the closing
      quote. */
  lemma {:induction false} ScanQuoteBody(s: Bytes, p: nat, b: Bytes, i: nat)
    requires i <= |b| && At(s, p, QuoteBody(b, i) + [QUOTE])
    ensures ScanString(s, p, QUOTE) == Scan(true, p + |QuoteBody(b, i)| + 1)
    decreases |b| - i
  {
    hide EscapeAt;
    AtConcat(s, p, QuoteBody(b, i), [QUOTE]);
    if i == |b| {
      AtIndex(s, p, [QUOTE], 0);
    } else {
      var step := EscapeAt(b, i);
      var tail := QuoteBody(b, step.next);
      assert QuoteBody(b, i) + [QUOTE] == step.text + (tail + [QUOTE]);
      AtConcat(s, p, step.text, tail + [QUOTE]);
      ScanEscape(s, p, b, i);
      hide ScanString;
      ScanQuoteBody(s, p + |step.text|, b, step.next);
    }
  }

  // ---------------------------------------------------------------- tokens

  lemma SpacedHead(s: Bytes, p: nat, tok: Bytes, rest: seq<Bytes>)
    requires p <= |s| && SpacedAt(s, p, [tok] + rest)
    ensures At(s, SkipSpaces(s, p), tok) && SpacedAt(s, SkipSpaces(s, p) + |tok|, rest)
  {
    assert ([tok] + rest)[1..] == rest;
  }

  lemma LexPunctuation(f: Features, s: Bytes, p: nat, c: byte, rest: seq<Bytes>)
    requires p <= |s| && SpacedAt(s, p, [[c]] + rest) && Punctuation(c).Some?
    ensures var t := ReadToken(f, s, p);
            t == Token(Punctuation(c).value, SkipSpaces(s, p), SkipSpaces(s, p) + 1) && SpacedAt(s, t.end, rest)
  {
    SpacedHead(s, p, [c], rest);
    AtIndex(s, SkipSpaces(s, p), [c], 0);
  }

  lemma LexString(f: Features, s: Bytes, p: nat, b: Bytes, rest: seq<Bytes>)
    requires p <= |s| && SpacedAt(s, p, [Quoted(b)] + rest)
    ensures var t := ReadToken(f, s, p);
            t.typ == StringToken && t.start + 2 <= t.end && s[t.start + 1..t.end - 1] == QuoteBody(b, 0) &&
            SpacedAt(s, t.end, rest)
  {
    hide QuoteBody, TokenAt, Quoted;
    SpacedHead(s, p, Quoted(b), rest);
    StringTokenAt(f, s, SkipSpaces(s, p), b);
  }

  lemma StringTokenAt(f: Features, s: Bytes, q: nat, b: Bytes)
    requires At(s, q, Quoted(b))
    ensures var e := q + |Quoted(b)|;
            q + 2 <= e <= |s| && TokenAt(f, s, q) == Token(StringToken, q, e) && s[q + 1..e - 1] == QuoteBody(b, 0)
  {
    hide QuoteBody;
    var body := QuoteBody(b, 0);
    assert Quoted(b) == [QUOTE] + (body + [QUOTE]);
    AtConcat(s, q, [QUOTE], body + [QUOTE]);
    AtConcat(s, q + 1, body, [QUOTE]);
    AtIndex(s, q, [QUOTE], 0);
    ScanQuoteBody(s, q + 1, b, 0);
  }

  /** A token after which a number may stop; one that begins with a slash is a comment. */
  predicate Delimiter(tok: Bytes) {
    tok == [COMMA] || tok == [RBRACKET] || tok == [RBRACE] || tok == [COLON] || (tok != [] && tok[0] == SLASH)
  }

  predicate Follows(rest: seq<Bytes>) { rest != [] ==> Delimiter(rest[0]) }

  /** What stands right after a token. */
  lemma AfterToken(s: Bytes, e: nat, rest: seq<Bytes>)
    requires e <= |s| && SpacedAt(s, e, rest) && Follows(rest)
    ensures e == |s| || IsSpace(s[e]) || s[e] in [COMMA, RBRACKET, RBRACE, COLON, SLASH]
  {
    if e < |s| && SkipSpaces(s, e) == e && rest != [] {
      AtIndex(s, e, rest[0], 0);
    }
  }

  lemma {:induction false} SkipDigitsOver(s: Bytes, p: nat, q: nat)
    requires p <= q <= |s| && (forall i :: p <= i < q ==> IsDigit(s[i])) && (q < |s| ==> !IsDigit(s[q]))
    ensures SkipDigits(s, p) == q
    decreases q - p
  {
    if p < q { SkipDigitsOver(s, p + 1, q); }
  }

  lemma IntegerShape(i: int)
    ensures var t := IntegerText(i);
            t != [] && (IsDigit(t[0]) || (t[0] == MINUS && |t| > 1)) && forall k :: 0 < k < |t| ==> IsDigit(t[k])
  {
    DigitsVisible(if i < 0 then -i else i);
  }

  lemma NumberStops(s: Bytes, p: nat, e: nat)
    requires p <= e <= |s| && forall k :: p <= k < e ==> IsDigit(s[k])
    requires e == |s| || IsSpace(s[e]) || s[e] in [COMMA, RBRACKET, RBRACE, COLON, SLASH]
    ensures NumberEnd(s, p) == e
  {
    SkipDigitsOver(s, p, e);
  }

  lemma NumberTokenAt(f: Features, s: Bytes, q: nat, e: nat)
    requires q < e <= |s| && (IsDigit(s[q]) || (s[q] == MINUS && q + 1 < e))
    requires forall k :: q < k < e ==> IsDigit(s[k])
    requires NumberEnd(s, q + 1) == e
    ensures TokenAt(f, s, q) == Token(NumberToken, q, e)
  {
    hide NumberEnd;
  }

  /** The digits of an integer in the text, and where its number token ends. */
  lemma IntegerTokenAt(f: Features, s: Bytes, q: nat, i: int)
    requires At(s, q, IntegerText(i))
    requires var e := q + |IntegerText(i)|; e == |s| || IsSpace(s[e]) || s[e] in [COMMA, RBRACKET, RBRACE, COLON, SLASH]
    ensures var e := q + |IntegerText(i)|; q < e <= |s| && TokenAt(f, s, q) == Token(NumberToken, q, e)
  {
    hide IntegerText, TokenAt, NumberEnd;
    var e := q + |IntegerText(i)|;
    IntegerShape(i);
    assert forall k :: q <= k < e ==> s[k] == s[q..e][k - q];
    NumberStops(s, q + 1, e);
    NumberTokenAt(f, s, q, e);
  }

  lemma LexInteger(f: Features, s: Bytes, p: nat, i: int, rest: seq<Bytes>)
    requires p <= |s| && SpacedAt(s, p, [IntegerText(i)] + rest) && Follows(rest)
    ensures var t := ReadToken(f, s, p);
            t.typ == NumberToken && TokenText(s, t) == IntegerText(i) && SpacedAt(s, t.end, rest)
  {
    hide IntegerText, TokenAt, SpacedAt, Follows;
    SpacedHead(s, p, IntegerText(i), rest);
    var q := SkipSpaces(s, p);
    AfterToken(s, q + |IntegerText(i)|, rest);
    IntegerTokenAt(f, s, q, i);
  }

  /** The three words. */
  function WordType(text: Bytes): Option<TokenType> {
    if text == NULL_TEXT then Some(NullToken)
    else if text == TRUE_TEXT then Some(TrueToken)
    else if text == FALSE_TEXT then Some(FalseToken)
    else None
  }

  lemma WordTokenAt(f: Features, s: Bytes, q: nat, word: Bytes)
    requires WordType(word).Some? && At(s, q, word)
    ensures q < |s| && !IsSpace(s[q]) && TokenAt(f, s, q) == Token(WordType(word).value, q, q + |word|)
  {
    AtIndex(s, q, word, 0);
    assert word == [word[0]] + word[1..];
    AtConcat(s, q, [word[0]], word[1..]);
    if word == NULL_TEXT {
      assert word[1..] == ULL;
    } else if word == TRUE_TEXT {
      assert word[1..] == RUE;
    } else {
      assert word[1..] == ALSE;
    }
  }

  lemma LexWord(f: Features, s: Bytes, p: nat, word: Bytes, rest: seq<Bytes>)
    requires p <= |s| && SpacedAt(s, p, [word] + rest) && WordType(word).Some?
    ensures var t := ReadToken(f, s, p); t.typ == WordType(word).value && SpacedAt(s, t.end, rest)
  {
    hide TokenAt, WordType;
    SpacedHead(s, p, word, rest);
    WordTokenAt(f, s, SkipSpaces(s, p), word);
  }

  /** No token of a laid-out text is a comment, so comment skipping reads the same token. */
  lemma SameFirstToken(f: Features, s: Bytes, p: nat)
    requires p <= |s| && ReadToken(f, s, p).typ != Comment
    ensures NextToken(f, s, p) == FirstToken(f, s, p) == ReadToken(f, s, p)
  {}

  lemma LexEnd(f: Features, s: Bytes, p: nat)
    requires p <= |s| && SpacedAt(s, p, [])
    ensures FirstToken(f, s, p).typ == EndOfStream
  {}
}
