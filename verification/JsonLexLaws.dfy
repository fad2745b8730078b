/** Where the tokens of a document begin and end, said of its bytes by their codes. */
module JsonLexLaws {
  import opened Bytes
  import opened JsonLexer
  import opened JsonTokens
  import opened JsonScan
  import opened JsonLax

  // ---------------------------------------------------------------- white space and marks

  /** Space, tab, line feed and carriage return: the white space of section 2 of RFC 8259. */
  predicate White(c: byte) { c == 32 || c == 9 || c == 10 || c == 13 }

  /** A token begins at the first byte that is no white space, if there is one. */
  lemma TokenBegins(f: Features, s: Bytes, p: nat)
    requires p <= |s|
    ensures var t := ReadToken(f, s, p);
            && p <= t.start <= |s| && (forall i :: p <= i < t.start ==> White(s[i]))
            && (t.start < |s| ==> !White(s[t.start]))
            && (t.start == |s| ==> t == Token(EndOfStream, |s|, |s|))
  {
    hide TokenAt;
  }

  /** The six marks, and the zero byte that ends a text. */
  lemma MarksAre(f: Features, s: Bytes, q: nat)
    requires q < |s|
    ensures s[q] == 123 ==> TokenAt(f, s, q) == Token(ObjectBegin, q, q + 1)
    ensures s[q] == 125 ==> TokenAt(f, s, q) == Token(ObjectEnd, q, q + 1)
    ensures s[q] == 91 ==> TokenAt(f, s, q) == Token(ArrayBegin, q, q + 1)
    ensures s[q] == 93 ==> TokenAt(f, s, q) == Token(ArrayEnd, q, q + 1)
    ensures s[q] == 44 ==> TokenAt(f, s, q) == Token(ArraySeparator, q, q + 1)
    ensures s[q] == 58 ==> TokenAt(f, s, q) == Token(MemberSeparator, q, q + 1)
    ensures s[q] == 0 ==> TokenAt(f, s, q) == Token(EndOfStream, q, q + 1)
  {}

  // ---------------------------------------------------------------- words

  /** The words, by their spelling. */
  lemma SpellingsAre()
    ensures TRUE_TEXT == Ascii("true") && FALSE_TEXT == Ascii("false") && NULL_TEXT == Ascii("null")
    ensures [78] + AN == Ascii("NaN") && [73] + NFINITY == Ascii("Infinity")
  {}

  /** A word is a token of its own, whatever follows; the special numbers are so only where they are allowed. */
  lemma WordsAre(f: Features, s: Bytes, q: nat)
    ensures At(s, q, Ascii("true")) ==> q < |s| && TokenAt(f, s, q) == Token(TrueToken, q, q + 4)
    ensures At(s, q, Ascii("false")) ==> q < |s| && TokenAt(f, s, q) == Token(FalseToken, q, q + 5)
    ensures At(s, q, Ascii("null")) ==> q < |s| && TokenAt(f, s, q) == Token(NullToken, q, q + 4)
  {
    hide TokenAt;
    SpellingsAre();
    if At(s, q, Ascii("true")) { WordTokenAt(f, s, q, TRUE_TEXT); }
    if At(s, q, Ascii("false")) { WordTokenAt(f, s, q, FALSE_TEXT); }
    if At(s, q, Ascii("null")) { WordTokenAt(f, s, q, NULL_TEXT); }
  }

  lemma SpecialNumbersAre(f: Features, s: Bytes, q: nat)
    requires f.allowSpecialFloats
    ensures At(s, q, [78] + AN) ==> q < |s| && TokenAt(f, s, q) == Token(NaNToken, q, q + 3)
    ensures At(s, q, [73] + NFINITY) ==> q < |s| && TokenAt(f, s, q) == Token(PosInf, q, q + 8)
    ensures At(s, q, [45, 73] + NFINITY) ==> q < |s| && TokenAt(f, s, q) == Token(NegInf, q, q + 9)
  {
    if At(s, q, [78] + AN) {
      AtConcat(s, q, [78], AN);
      AtIndex(s, q, [78], 0);
    }
    if At(s, q, [73] + NFINITY) {
      AtConcat(s, q, [73], NFINITY);
      AtIndex(s, q, [73], 0);
    }
    if At(s, q, [45, 73] + NFINITY) {
      AtConcat(s, q, [45, 73], NFINITY);
      AtIndex(s, q, [45, 73], 0);
      AtIndex(s, q, [45, 73], 1);
    }
  }

  // ---------------------------------------------------------------- numbers

  /** A number as section 6 of RFC 8259 has it, its leading zeros aside: digits, perhaps a fraction, perhaps an
      exponent with its letter and sign. */
  datatype Numeral = Numeral(minus: bool, digits: Bytes, fraction: Bytes, exponent: Bytes)

  predicate Digital(t: Bytes) { forall i :: 0 <= i < |t| ==> 48 <= t[i] <= 57 }

  predicate WellFormed(n: Numeral) {
    && n.digits != [] && Digital(n.digits)
    && (n.fraction != [] ==> n.fraction[0] == 46 && Digital(n.fraction[1..]))
    && (n.exponent != [] ==>
          && n.exponent[0] in {101, 69} && |n.exponent| > 1
          && (if n.exponent[1] in {43, 45} then Digital(n.exponent[2..]) else Digital(n.exponent[1..])))
  }

  function Spelled(n: Numeral): Bytes { (if n.minus then [45] else []) + n.digits + n.fraction + n.exponent }

  /** What may not follow, or the number would go on. */
  predicate Ends(n: Numeral, s: Bytes, e: nat) {
    e < |s| ==>
      && !(48 <= s[e] <= 57)
      && (n.exponent == [] ==> s[e] != 101 && s[e] != 69)
      && (n.exponent == [] && n.fraction == [] ==> s[e] != 46)
      && (|n.exponent| == 1 ==> s[e] != 43 && s[e] != 45)
  }

  lemma DigitsAt(s: Bytes, p: nat, t: Bytes)
    requires At(s, p, t) && Digital(t) && (p + |t| < |s| ==> !(48 <= s[p + |t|] <= 57))
    ensures SkipDigits(s, p) == p + |t|
  {
    assert forall i :: p <= i < p + |t| ==> s[i] == s[p..p + |t|][i - p];
    SkipDigitsOver(s, p, p + |t|);
  }

  lemma ExponentAt(s: Bytes, p: nat, n: Numeral)
    requires WellFormed(n) && At(s, p, n.exponent) && Ends(n, s, p + |n.exponent|)
    ensures ExponentEnd(s, p) == p + |n.exponent|
  {
    var t := n.exponent;
    if t != [] {
      AtIndex(s, p, t, 0);
      AtIndex(s, p, t, 1);
      var k := if t[1] in {43, 45} then 2 else 1;
      assert t == t[..k] + t[k..];
      AtConcat(s, p, t[..k], t[k..]);
      DigitsAt(s, p + k, t[k..]);
    }
  }

  lemma FractionAt(s: Bytes, p: nat, n: Numeral)
    requires WellFormed(n) && At(s, p, n.fraction + n.exponent) && Ends(n, s, p + |n.fraction + n.exponent|)
    ensures FractionEnd(s, p) == p + |n.fraction|
  {
    var t := n.fraction;
    AtConcat(s, p, t, n.exponent);
    if n.exponent != [] { AtIndex(s, p + |t|, n.exponent, 0); }
    if t != [] {
      AtIndex(s, p, t, 0);
      assert t == [46] + t[1..];
      AtConcat(s, p, [46], t[1..]);
      DigitsAt(s, p + 1, t[1..]);
    }
  }

  lemma RestOfNumber(s: Bytes, p: nat, d: Bytes, n: Numeral)
    requires WellFormed(n) && Digital(d) && At(s, p, d + (n.fraction + n.exponent))
    requires Ends(n, s, p + |d + (n.fraction + n.exponent)|)
    ensures NumberEnd(s, p) == p + |d + (n.fraction + n.exponent)|
  {
    hide FractionEnd, ExponentEnd, SkipDigits, WellFormed, Digital, Ends;
    var after := n.fraction + n.exponent;
    AtConcat(s, p, d, after);
    var e := p + |d|;
    AtConcat(s, e, n.fraction, n.exponent);
    NotDigitNext(s, e, n);
    DigitsAt(s, p, d);
    FractionAt(s, e, n);
    ExponentAt(s, e + |n.fraction|, n);
  }

  /** A number is one token, from its sign to the last digit of its exponent. */
  lemma NumeralIsToken(f: Features, s: Bytes, q: nat, n: Numeral)
    requires WellFormed(n) && At(s, q, Spelled(n)) && Ends(n, s, q + |Spelled(n)|)
    ensures q < |s| && TokenAt(f, s, q) == Token(NumberToken, q, q + |Spelled(n)|)
  {
    hide NumberEnd, Ends, Digital;
    var after := n.fraction + n.exponent;
    FirstDigit(n);
    var first: Bytes := if n.minus then [45] else [n.digits[0]];
    var d := if n.minus then n.digits else n.digits[1..];
    assert Spelled(n) == first + (d + after);
    AtConcat(s, q, first, d + after);
    AtIndex(s, q, first, 0);
    if n.minus { AtIndex(s, q + 1, d + after, 0); }
    RestOfNumber(s, q + 1, d, n);
  }

  lemma FirstDigit(n: Numeral)
    requires WellFormed(n)
    ensures 48 <= n.digits[0] <= 57 && Digital(n.digits) && Digital(n.digits[1..])
  {}

  lemma NotDigitNext(s: Bytes, e: nat, n: Numeral)
    requires WellFormed(n) && At(s, e, n.fraction + n.exponent) && Ends(n, s, e + |n.fraction + n.exponent|)
    ensures e < |s| ==> !(48 <= s[e] <= 57)
  {
    if n.fraction + n.exponent != [] { AtIndex(s, e, n.fraction + n.exponent, 0); }
  }

  // ---------------------------------------------------------------- comments and single quotes

  lemma {:induction false} LineEnds(s: Bytes, p: nat, q: nat)
    requires p <= q <= |s| && (forall i :: p <= i < q ==> s[i] != 10 && s[i] != 13)
    requires q < |s| ==> s[q] == 10 || s[q] == 13
    ensures LineCommentEnd(s, p) ==
              if q == |s| then q
              else if s[q] == 13 && q + 1 < |s| && s[q + 1] == 10 then q + 2
              else q + 1
    decreases q - p
  {
    if p < q { LineEnds(s, p + 1, q); }
  }

  /** Two slashes begin a comment that takes in the end of its line: LF, CR LF, CR, or the end of the text. */
  lemma LineCommentIs(f: Features, s: Bytes, p: nat, q: nat)
    requires p + 2 <= q <= |s| && s[p] == 47 && s[p + 1] == 47
    requires (forall i :: p + 2 <= i < q ==> s[i] != 10 && s[i] != 13) && (q < |s| ==> s[q] == 10 || s[q] == 13)
    ensures TokenAt(f, s, p) ==
              Token(Comment, p, if q == |s| then q
                                else if s[q] == 13 && q + 1 < |s| && s[q + 1] == 10 then q + 2
                                else q + 1)
  {
    LineEnds(s, p + 2, q);
  }

  /** A slash and a star begin a comment that goes on to the next star and slash. */
  lemma StarCommentIs(f: Features, s: Bytes, p: nat, c: Bytes)
    requires At(s, p, c) && |c| >= 4 && c[0] == 47 && c[1] == 42 && FindText(c[2..], [42, 47]) == Some(|c| - 4)
    ensures p < |s| && TokenAt(f, s, p) == Token(Comment, p, p + |c|)
  {
    CommentTokenAt(f, s, p, c);
  }

  lemma {:induction false} PlainQuoted(s: Bytes, p: nat, q: nat, quote: byte)
    requires p <= q < |s| && s[q] == quote && quote != 92 && forall i :: p <= i < q ==> s[i] != quote && s[i] != 92
    ensures ScanString(s, p, quote) == Scan(true, q + 1)
    decreases q - p
  {
    if p < q { PlainQuoted(s, p + 1, q, quote); }
  }

  /** Where single quotes are allowed, a string may stand between them. */
  lemma SingleQuotesAre(f: Features, s: Bytes, p: nat, q: nat)
    requires f.allowSingleQuotes && p < q < |s| && s[p] == 39 && s[q] == 39
    requires forall i :: p < i < q ==> s[i] != 39 && s[i] != 92
    ensures TokenAt(f, s, p) == Token(StringToken, p, q + 1)
  {
    PlainQuoted(s, p + 1, q, 39);
  }

  /** Where single quotes are not allowed, one takes the place of the first slash of a comment. */
  lemma QuoteForSlash(f: Features, s: Bytes, p: nat, slashed: Bytes)
    requires !f.allowSingleQuotes && p < |s| && s[p] == 39 && slashed == s[..p] + [47] + s[p + 1..]
    ensures TokenAt(f, s, p) == TokenAt(f, slashed, p)
  {
    hide ScanComment;
    assert |slashed| == |s| && slashed[p] == 47 && forall i :: p < i < |s| ==> slashed[i] == s[i];
    SameComment(s, slashed, p + 1);
  }

  lemma SameComment(s: Bytes, t: Bytes, p: nat)
    requires |t| == |s| && p <= |s| && forall i :: p <= i < |s| ==> t[i] == s[i]
    ensures ScanComment(t, p) == ScanComment(s, p)
  {
    if p < |s| {
      SameStar(s, t, p + 1);
      SameLine(s, t, p + 1);
    }
  }

  lemma {:induction false} SameStar(s: Bytes, t: Bytes, p: nat)
    requires |t| == |s| && p <= |s| && forall i :: p <= i < |s| ==> t[i] == s[i]
    ensures ScanCComment(t, p) == ScanCComment(s, p)
    decreases |s| - p
  {
    if p + 1 < |s| { SameStar(s, t, p + 1); }
  }

  lemma {:induction false} SameLine(s: Bytes, t: Bytes, p: nat)
    requires |t| == |s| && p <= |s| && forall i :: p <= i < |s| ==> t[i] == s[i]
    ensures LineCommentEnd(t, p) == LineCommentEnd(s, p)
    decreases |s| - p
  {
    if p < |s| { SameLine(s, t, p + 1); }
  }

  // ---------------------------------------------------------------- what is no token

  /** A byte that begins no token is refused alone; so are N and I where special numbers are not allowed, with
      a minus in front of I together with it, and a word that is misspelt by its first letter. */
  lemma NoTokens(f: Features, s: Bytes, q: nat)
    requires q < |s|
    ensures !(s[q] in {123, 125, 91, 93, 44, 58, 0, 34, 39, 47, 45, 116, 102, 110, 78, 73}) && !(48 <= s[q] <= 57) ==>
              TokenAt(f, s, q) == Token(ErrorToken, q, q + 1)
    ensures s[q] in {78, 73} && !f.allowSpecialFloats ==> TokenAt(f, s, q) == Token(ErrorToken, q, q + 1)
    ensures s[q] == 45 && q + 1 < |s| && s[q + 1] == 73 && !f.allowSpecialFloats ==> TokenAt(f, s, q) == Token(ErrorToken, q, q + 2)
    ensures s[q] == 116 && !At(s, q + 1, [114, 117, 101]) ==> TokenAt(f, s, q) == Token(ErrorToken, q, q + 1)
    ensures s[q] == 102 && !At(s, q + 1, [97, 108, 115, 101]) ==> TokenAt(f, s, q) == Token(ErrorToken, q, q + 1)
    ensures s[q] == 110 && !At(s, q + 1, [117, 108, 108]) ==> TokenAt(f, s, q) == Token(ErrorToken, q, q + 1)
  {}
}
