/** White space does not matter: two texts that lay out the same tokens are read in lockstep, errors
    and their recovery included, whether or not the tokens make up a readable value. */
module JsonLayout {
  import opened Bytes
  import opened JsonString
  import opened JsonNumber
  import opened JsonValue
  import opened JsonArray
  import opened JsonLexer
  import opened JsonGrammar
  import opened JsonTokens
  import opened JsonScan

  // ---------------------------------------------------------------- tokens that stand on their own

  predicate IsPunctuation(tok: Bytes) { |tok| == 1 && tok[0] != NUL && Punctuation(tok[0]).Some? }

  /** A token the writers make; a number is followed by a delimiter. */
  ghost predicate Lexeme(tok: Bytes, rest: seq<Bytes>) {
    || IsPunctuation(tok)
    || WordType(tok).Some?
    || (exists b :: tok == Quoted(b))
    || (Follows(rest) && exists i :: tok == IntegerText(i))
  }

  ghost predicate Lexical(toks: seq<Bytes>) { toks != [] ==> Lexeme(toks[0], toks[1..]) && Lexical(toks[1..]) }

  function TypeOf(tok: Bytes): TokenType {
    if IsPunctuation(tok) then Punctuation(tok[0]).value
    else if WordType(tok).Some? then WordType(tok).value
    else if tok != [] && tok[0] == QUOTE then StringToken
    else NumberToken
  }

  /** Two texts, each from a cursor on, are these tokens. */
  ghost predicate Aligned(s1: Bytes, p1: nat, s2: Bytes, p2: nat, toks: seq<Bytes>) {
    p1 <= |s1| && p2 <= |s2| && SpacedAt(s1, p1, toks) && SpacedAt(s2, p2, toks) && Lexical(toks)
  }

  predicate SameToken(s1: Bytes, t1: Token, s2: Bytes, t2: Token) {
    && t1.start <= t1.end <= |s1| && t2.start <= t2.end <= |s2|
    && t1.typ == t2.typ && TokenText(s1, t1) == TokenText(s2, t2)
  }

  lemma LexemeTokenAt(f: Features, s: Bytes, q: nat, tok: Bytes, rest: seq<Bytes>)
    requires Lexeme(tok, rest) && At(s, q, tok) && (Follows(rest) ==> AfterOk(s, q + |tok|))
    ensures q < |s| && q + |tok| <= |s| && TokenAt(f, s, q) == Token(TypeOf(tok), q, q + |tok|)
  {
    hide TokenAt, Quoted, IntegerText, WordType;
    if IsPunctuation(tok) {
      AtIndex(s, q, tok, 0);
      PunctuationTokenAt(f, s, q);
    } else if WordType(tok).Some? {
      WordTokenAt(f, s, q, tok);
    } else if exists b :: tok == Quoted(b) {
      var b :| tok == Quoted(b);
      StringTokenAt(f, s, q, b);
      assert tok[0] == QUOTE by { QuotedShape(b); }
    } else {
      var i :| tok == IntegerText(i);
      IntegerTokenAt(f, s, q, i);
      IntegerShape(i);
    }
  }

  predicate AfterOk(s: Bytes, e: nat) {
    e <= |s| && (e == |s| || IsSpace(s[e]) || s[e] in [COMMA, RBRACKET, RBRACE, COLON, SLASH])
  }

  lemma PunctuationTokenAt(f: Features, s: Bytes, q: nat)
    requires q < |s| && Punctuation(s[q]).Some?
    ensures TokenAt(f, s, q) == Token(Punctuation(s[q]).value, q, q + 1)
  {}

  lemma QuotedShape(b: Bytes)
    ensures |Quoted(b)| >= 2 && Quoted(b)[0] == QUOTE
  {}

  lemma SpacedStep(s: Bytes, p: nat, toks: seq<Bytes>)
    requires p <= |s| && SpacedAt(s, p, toks) && toks != []
    ensures var q := SkipSpaces(s, p);
            At(s, q, toks[0]) && q + |toks[0]| <= |s| && SpacedAt(s, q + |toks[0]|, toks[1..])
  {}

  lemma TokenThere(f: Features, s: Bytes, p: nat, tok: Bytes, typ: TokenType)
    requires p <= |s|
    requires var q := SkipSpaces(s, p); q < |s| && At(s, q, tok) && TokenAt(f, s, q) == Token(typ, q, q + |tok|)
    ensures var t := ReadToken(f, s, p); t == TokenAt(f, s, SkipSpaces(s, p)) && TokenText(s, t) == tok
  {
    hide TokenAt;
  }

  lemma AfterTokenOk(s: Bytes, e: nat, rest: seq<Bytes>)
    requires e <= |s| && SpacedAt(s, e, rest)
    ensures Follows(rest) ==> AfterOk(s, e)
  {
    hide SpacedAt;
    if Follows(rest) { AfterToken(s, e, rest); }
  }

  lemma LexFirst(f: Features, s: Bytes, p: nat, tok: Bytes, rest: seq<Bytes>)
    requires p <= |s| && Lexeme(tok, rest)
    requires var q := SkipSpaces(s, p); At(s, q, tok) && q + |tok| <= |s| && SpacedAt(s, q + |tok|, rest)
    ensures var t := ReadToken(f, s, p);
            && t == Token(TypeOf(tok), SkipSpaces(s, p), SkipSpaces(s, p) + |tok|) && TokenText(s, t) == tok
  {
    hide *;
    var q := SkipSpaces(s, p);
    AfterTokenOk(s, q + |tok|, rest);
    LexemeTokenAt(f, s, q, tok, rest);
    TokenThere(f, s, p, tok, TypeOf(tok));
  }

  lemma LexOne(f: Features, s: Bytes, p: nat, toks: seq<Bytes>)
    requires p <= |s| && SpacedAt(s, p, toks) && Lexical(toks) && toks != []
    ensures var t := ReadToken(f, s, p);
            && t.typ == TypeOf(toks[0]) && TokenText(s, t) == toks[0] && SpacedAt(s, t.end, toks[1..])
  {
    hide *;
    LexicalStep(toks);
    SpacedStep(s, p, toks);
    LexFirst(f, s, p, toks[0], toks[1..]);
  }

  lemma LexicalStep(toks: seq<Bytes>)
    requires Lexical(toks) && toks != []
    ensures Lexeme(toks[0], toks[1..]) && Lexical(toks[1..])
  {
    hide Lexeme;
  }

  lemma TypeIs(tok: Bytes, rest: seq<Bytes>)
    requires Lexeme(tok, rest)
    ensures tok != [] && TypeOf(tok) != Comment && TypeOf(tok) != EndOfStream
    ensures TypeOf(tok) == StringToken ==> |tok| >= 2
    ensures tok[0] == RBRACKET ==> tok == [RBRACKET]
  {
    hide Quoted, IntegerText;
    if exists b :: tok == Quoted(b) {
      var b :| tok == Quoted(b);
      QuotedShape(b);
    } else if exists i :: tok == IntegerText(i) {
      var i :| tok == IntegerText(i);
      IntegerShape(i);
    }
  }

  /** One token is read alike. */
  lemma TokenAlike(f: Features, s1: Bytes, p1: nat, s2: Bytes, p2: nat, toks: seq<Bytes>) returns (rest: seq<Bytes>)
    requires Aligned(s1, p1, s2, p2, toks)
    ensures var (t1, t2) := (ReadToken(f, s1, p1), ReadToken(f, s2, p2));
            && SameToken(s1, t1, s2, t2) && Aligned(s1, t1.end, s2, t2.end, rest)
            && t1.typ != Comment && (t1.typ == EndOfStream <==> toks == [])
            && NextToken(f, s1, p1) == FirstToken(f, s1, p1) == t1 && NextToken(f, s2, p2) == FirstToken(f, s2, p2) == t2
    ensures if toks == [] then rest == [] else |rest| < |toks|
  {
    hide TypeOf, Lexeme, TokenAt;
    if toks == [] {
      rest := [];
    } else {
      rest := toks[1..];
      LexOne(f, s1, p1, toks);
      LexOne(f, s2, p2, toks);
      TypeIs(toks[0], rest);
    }
  }

  lemma {:induction false} RecoverAlike(f: Features, s1: Bytes, p1: nat, s2: Bytes, p2: nat, until: TokenType, toks: seq<Bytes>)
    returns (rest: seq<Bytes>)
    requires Aligned(s1, p1, s2, p2, toks)
    ensures Aligned(s1, Recover(f, s1, p1, until), s2, Recover(f, s2, p2, until), rest) && |rest| <= |toks|
    decreases |toks|
  {
    hide Aligned, JsonLexer.ReadToken, NextToken;
    rest := TokenAlike(f, s1, p1, s2, p2, toks);
    var t1, t2 := ReadToken(f, s1, p1), ReadToken(f, s2, p2);
    if t1.typ != until && t1.typ != EndOfStream {
      rest := RecoverAlike(f, s1, t1.end, s2, t2.end, until, rest);
    }
  }

  // ---------------------------------------------------------------- outcomes that are alike

  /** The same error at the same token, wherever that token stands. */
  predicate SameError(s1: Bytes, e1: Error, s2: Bytes, e2: Error) {
    match (e1, e2)
    case (ValueExpected(t1), ValueExpected(t2)) => SameToken(s1, t1, s2, t2)
    case (BadString(why1, t1), BadString(why2, t2)) => why1 == why2 && SameToken(s1, t1, s2, t2)
    case (NotANumber(t1), NotANumber(t2)) => SameToken(s1, t1, s2, t2)
    case (MissingColon(t1), MissingColon(t2)) => SameToken(s1, t1, s2, t2)
    case (DuplicateKey(t1), DuplicateKey(t2)) => SameToken(s1, t1, s2, t2)
    case (MissingCommaOrBrace(t1), MissingCommaOrBrace(t2)) => SameToken(s1, t1, s2, t2)
    case (MissingBraceOrName(t1), MissingBraceOrName(t2)) => SameToken(s1, t1, s2, t2)
    case (MissingCommaOrBracket(t1), MissingCommaOrBracket(t2)) => SameToken(s1, t1, s2, t2)
    case (ExtraText(t1), ExtraText(t2)) => SameToken(s1, t1, s2, t2)
    case (RootNotContainer, RootNotContainer) => true
    case _ => false
  }

  predicate SameErr(s1: Bytes, e1: Option<Error>, s2: Bytes, e2: Option<Error>) {
    if e1.Some? then e2.Some? && SameError(s1, e1.value, s2, e2.value) else e2.None?
  }

  ghost predicate SameOutcome(s1: Bytes, r1: Outcome, s2: Bytes, r2: Outcome, rest: seq<Bytes>) {
    || (r1.Thrown? && r2.Thrown?)
    || (r1.Done? && r2.Done? && r1.value == r2.value && SameErr(s1, r1.err, s2, r2.err) && Aligned(s1, r1.pos, s2, r2.pos, rest))
  }

  lemma SameStringText(s1: Bytes, t1: Token, s2: Bytes, t2: Token)
    requires SameToken(s1, t1, s2, t2) && t1.start + 2 <= t1.end && t2.start + 2 <= t2.end
    ensures StringText(s1, t1) == StringText(s2, t2)
  {
    hide DecodeFrom;
    InnerText(s1, t1);
    InnerText(s2, t2);
    hide TokenText;
  }

  lemma InnerText(s: Bytes, t: Token)
    requires t.start + 2 <= t.end <= |s|
    ensures |TokenText(s, t)| >= 2 && s[t.start + 1..t.end - 1] == TokenText(s, t)[1..|TokenText(s, t)| - 1]
  {
    var text, inner := TokenText(s, t), s[t.start + 1..t.end - 1];
    assert text == [text[0]] + inner + [text[|text| - 1]];
  }

  lemma ScalarAlike(f: Features, s1: Bytes, t1: Token, s2: Bytes, t2: Token, cur: Value, rest: seq<Bytes>)
    requires SameToken(s1, t1, s2, t2) && Aligned(s1, t1.end, s2, t2.end, rest)
    requires t1.typ == StringToken ==> t1.start + 2 <= t1.end && t2.start + 2 <= t2.end
    ensures SameOutcome(s1, ScalarOutcome(f, s1, t1, cur), s2, ScalarOutcome(f, s2, t2, cur), rest)
  {
    hide Aligned, StringText, NumberValue;
    if t1.typ == StringToken { SameStringText(s1, t1, s2, t2); }
  }

  ghost predicate SameHead(s1: Bytes, h1: Head, s2: Bytes, h2: Head, rest: seq<Bytes>) {
    match (h1, h2)
    case (Closed(p1), Closed(p2)) => Aligned(s1, p1, s2, p2, rest)
    case (HeadError(p1, e1), HeadError(p2, e2)) => SameError(s1, e1, s2, e2) && Aligned(s1, p1, s2, p2, rest)
    case (HeadThrown, HeadThrown) => true
    case (Member(n1, p1), Member(n2, p2)) => n1 == n2 && Aligned(s1, p1, s2, p2, rest)
    case _ => false
  }

  lemma AfterNameAlike(f: Features, s1: Bytes, t1: Token, s2: Bytes, t2: Token, name: Bytes, obj: Entries, toks: seq<Bytes>)
    returns (rest: seq<Bytes>)
    requires SameToken(s1, t1, s2, t2) && Aligned(s1, t1.end, s2, t2.end, toks)
    ensures SameHead(s1, AfterName(f, s1, t1, name, obj), s2, AfterName(f, s2, t2, name, obj), rest) && |rest| <= |toks|
  {
    hide Aligned, JsonLexer.ReadToken, NextToken, Recover;
    rest := TokenAlike(f, s1, t1.end, s2, t2.end, toks);
    var c1, c2 := ReadToken(f, s1, t1.end), ReadToken(f, s2, t2.end);
    if !AfterName(f, s1, t1, name, obj).Member? {
      rest := RecoverAlike(f, s1, c1.end, s2, c2.end, ObjectEnd, rest);
    }
  }

  lemma MemberHeadAlike(f: Features, s1: Bytes, p1: nat, s2: Bytes, p2: nat, name: Bytes, obj: Entries, toks: seq<Bytes>)
    returns (rest: seq<Bytes>)
    requires Aligned(s1, p1, s2, p2, toks)
    ensures SameHead(s1, MemberHead(f, s1, p1, name, obj), s2, MemberHead(f, s2, p2, name, obj), rest)
    ensures |rest| <= |toks| && (MemberHead(f, s1, p1, name, obj).Member? ==> |rest| < |toks|)
  {
    hide Aligned, JsonLexer.ReadToken, NextToken, FirstToken, Recover, AfterName, StringText, NumberValue, NumberName, TokenText;
    rest := TokenAlike(f, s1, p1, s2, p2, toks);
    var t1, t2 := NextToken(f, s1, p1), NextToken(f, s2, p2);
    if t1.typ == StringToken { SameStringText(s1, t1, s2, t2); }
    if t1.typ == ObjectEnd && name == [] {
    } else if t1.typ == StringToken && StringText(s1, t1).Good? {
      rest := AfterNameAlike(f, s1, t1, s2, t2, StringText(s1, t1).text, obj, rest);
    } else if t1.typ == NumberToken && f.allowNumericKeys && NumberValue(f, TokenText(s1, t1)).Some? {
      rest := AfterNameAlike(f, s1, t1, s2, t2, NumberName(f, NumberValue(f, TokenText(s1, t1)).value), obj, rest);
    } else {
      rest := RecoverAlike(f, s1, t1.end, s2, t2.end, ObjectEnd, rest);
    }
  }

  ghost predicate SameTail(s1: Bytes, t1: Tail, s2: Bytes, t2: Tail, rest: seq<Bytes>) {
    match (t1, t2)
    case (Finished(p1), Finished(p2)) => Aligned(s1, p1, s2, p2, rest)
    case (More(p1), More(p2)) => Aligned(s1, p1, s2, p2, rest)
    case (TailError(p1, e1), TailError(p2, e2)) => SameError(s1, e1, s2, e2) && Aligned(s1, p1, s2, p2, rest)
    case _ => false
  }

  lemma MemberTailAlike(f: Features, s1: Bytes, p1: nat, s2: Bytes, p2: nat, toks: seq<Bytes>) returns (rest: seq<Bytes>)
    requires Aligned(s1, p1, s2, p2, toks)
    ensures SameTail(s1, MemberTail(f, s1, p1), s2, MemberTail(f, s2, p2), rest) && |rest| <= |toks|
  {
    hide Aligned, JsonLexer.ReadToken, NextToken, FirstToken, Recover;
    rest := TokenAlike(f, s1, p1, s2, p2, toks);
    if MemberTail(f, s1, p1).TailError? {
      rest := RecoverAlike(f, s1, ReadToken(f, s1, p1).end, s2, ReadToken(f, s2, p2).end, ObjectEnd, rest);
    }
  }

  lemma ElementTailAlike(f: Features, s1: Bytes, p1: nat, s2: Bytes, p2: nat, toks: seq<Bytes>) returns (rest: seq<Bytes>)
    requires Aligned(s1, p1, s2, p2, toks)
    ensures SameTail(s1, ElementTail(f, s1, p1), s2, ElementTail(f, s2, p2), rest) && |rest| <= |toks|
  {
    hide Aligned, JsonLexer.ReadToken, NextToken, FirstToken, Recover;
    rest := TokenAlike(f, s1, p1, s2, p2, toks);
    if ElementTail(f, s1, p1).TailError? {
      rest := RecoverAlike(f, s1, NextToken(f, s1, p1).end, s2, NextToken(f, s2, p2).end, ArrayEnd, rest);
    }
  }

  // ---------------------------------------------------------------- the readers in lockstep

  lemma BracketAlike(s1: Bytes, p1: nat, s2: Bytes, p2: nat, toks: seq<Bytes>) returns (rest: seq<Bytes>)
    requires Aligned(s1, p1, s2, p2, toks)
    ensures var (q1, q2) := (SkipSpaces(s1, p1), SkipSpaces(s2, p2));
            && (q1 < |s1| && s1[q1] == RBRACKET <==> q2 < |s2| && s2[q2] == RBRACKET)
            && if q1 < |s1| && s1[q1] == RBRACKET then Aligned(s1, q1 + 1, s2, q2 + 1, rest) else Aligned(s1, q1, s2, q2, rest)
    ensures |rest| <= |toks|
  {
    hide Lexeme;
    rest := toks;
    var q1, q2 := SkipSpaces(s1, p1), SkipSpaces(s2, p2);
    if toks != [] {
      TypeIs(toks[0], toks[1..]);
      AtIndex(s1, q1, toks[0], 0);
      AtIndex(s2, q2, toks[0], 0);
      if toks[0][0] == RBRACKET { rest := toks[1..]; }
    }
  }

  lemma {:induction false} ReadValueAlike(f: Features, s1: Bytes, p1: nat, s2: Bytes, p2: nat, depth: nat, cur: Value, toks: seq<Bytes>)
    returns (rest: seq<Bytes>)
    requires p1 <= |s1| && p2 <= |s2| && Aligned(s1, p1, s2, p2, toks)
    ensures var (r1, r2) := (ReadValue(f, s1, p1, depth, cur), ReadValue(f, s2, p2, depth, cur));
            SameOutcome(s1, r1, s2, r2, rest) && |rest| <= |toks| && (r1.Done? && r1.err.None? ==> |rest| < |toks|)
    decreases |toks|, 0
  {
    hide Aligned, JsonLexer.ReadToken, NextToken, FirstToken, ReadObject, ReadArray, SkipSpaces, TokenText;
    rest := toks;
    if depth <= f.stackLimit {
      rest := TokenAlike(f, s1, p1, s2, p2, toks);
      var t1, t2 := FirstToken(f, s1, p1), FirstToken(f, s2, p2);
      if t1.typ == ObjectBegin {
        rest := ReadObjectAlike(f, s1, t1.end, s2, t2.end, depth, [], End, rest);
      } else if t1.typ == ArrayBegin {
        rest := BracketAlike(s1, t1.end, s2, t2.end, rest);
        var q1, q2 := SkipSpaces(s1, t1.end), SkipSpaces(s2, t2.end);
        if !(q1 < |s1| && s1[q1] == RBRACKET) {
          rest := ReadArrayAlike(f, s1, q1, s2, q2, depth, 0, End, rest);
        }
      } else {
        ScalarAlike(f, s1, t1, s2, t2, cur, rest);
      }
    }
  }

  lemma {:induction false} ReadObjectAlike(f: Features, s1: Bytes, p1: nat, s2: Bytes, p2: nat, depth: nat, name: Bytes, obj: Entries, toks: seq<Bytes>)
    returns (rest: seq<Bytes>)
    requires p1 <= |s1| && p2 <= |s2| && Aligned(s1, p1, s2, p2, toks)
    ensures SameOutcome(s1, ReadObject(f, s1, p1, depth, name, obj), s2, ReadObject(f, s2, p2, depth, name, obj), rest)
    ensures |rest| <= |toks|
    decreases |toks|, 1
  {
    hide Aligned, MemberHead, MemberTail, ReadValue, Recover, SameError;
    rest := MemberHeadAlike(f, s1, p1, s2, p2, name, obj, toks);
    var h1, h2 := MemberHead(f, s1, p1, name, obj), MemberHead(f, s2, p2, name, obj);
    if h1.Member? {
      var cur := ValueOr(Find(obj, Name(h1.name)));
      rest := ReadValueAlike(f, s1, h1.pos, s2, h2.pos, depth + 1, cur, rest);
      var r1, r2 := ReadValue(f, s1, h1.pos, depth + 1, cur), ReadValue(f, s2, h2.pos, depth + 1, cur);
      if r1.Done? && r1.err.Some? {
        rest := RecoverAlike(f, s1, r1.pos, s2, r2.pos, ObjectEnd, rest);
      } else if r1.Done? {
        rest := MemberTailAlike(f, s1, r1.pos, s2, r2.pos, rest);
        var m1, m2 := MemberTail(f, s1, r1.pos), MemberTail(f, s2, r2.pos);
        if m1.More? {
          rest := ReadObjectAlike(f, s1, m1.pos, s2, m2.pos, depth, h1.name, Put(obj, Name(h1.name), r1.value), rest);
        }
      }
    }
  }

  lemma {:induction false} ReadArrayAlike(f: Features, s1: Bytes, p1: nat, s2: Bytes, p2: nat, depth: nat, index: nat, arr: Entries, toks: seq<Bytes>)
    returns (rest: seq<Bytes>)
    requires p1 <= |s1| && p2 <= |s2| && Aligned(s1, p1, s2, p2, toks)
    ensures SameOutcome(s1, ReadArray(f, s1, p1, depth, index, arr), s2, ReadArray(f, s2, p2, depth, index, arr), rest)
    ensures |rest| <= |toks|
    decreases |toks|, 1
  {
    hide Aligned, ElementTail, ReadValue, Recover, SameError;
    var cur := ValueOr(Find(arr, Index(index)));
    rest := ReadValueAlike(f, s1, p1, s2, p2, depth + 1, cur, toks);
    var r1, r2 := ReadValue(f, s1, p1, depth + 1, cur), ReadValue(f, s2, p2, depth + 1, cur);
    if r1.Done? && r1.err.Some? {
      rest := RecoverAlike(f, s1, r1.pos, s2, r2.pos, ArrayEnd, rest);
    } else if r1.Done? {
      rest := ElementTailAlike(f, s1, r1.pos, s2, r2.pos, rest);
      var m1, m2 := ElementTail(f, s1, r1.pos), ElementTail(f, s2, r2.pos);
      if m1.More? {
        rest := ReadArrayAlike(f, s1, m1.pos, s2, m2.pos, depth, index + 1, Put(arr, Index(index), r1.value), rest);
      }
    }
  }

  // ---------------------------------------------------------------- documents

  predicate SameErrors(s1: Bytes, a: seq<Error>, s2: Bytes, b: seq<Error>) {
    |a| == |b| && forall i :: 0 <= i < |a| ==> SameError(s1, a[i], s2, b[i])
  }

  predicate SameParsed(s1: Bytes, a: Parsed, s2: Bytes, b: Parsed) {
    if a.ParseThrown? then b.ParseThrown? else b.Parsed? && a.root == b.root && SameErrors(s1, a.errors, s2, b.errors)
  }

  /** Two layouts of the same tokens parse alike: the same exception, or the same value with the same
      errors at the same tokens. */
  lemma LayoutsParseAlike(f: Features, s1: Bytes, s2: Bytes, toks: seq<Bytes>, root: Value)
    requires Spaced(s1, toks) && Spaced(s2, toks) && Lexical(toks)
    ensures SameParsed(s1, Parse(f, s1, root), s2, Parse(f, s2, root))
  {
    assert Aligned(s1, 0, s2, 0, toks) by { StartAligned(s1, s2, toks); }
    hide *;
    var rest := ReadValueAlike(f, s1, 0, s2, 0, 1, root, toks);
    OutcomesParseAlike(f, s1, s2, root, rest);
  }

  lemma StartAligned(s1: Bytes, s2: Bytes, toks: seq<Bytes>)
    requires Spaced(s1, toks) && Spaced(s2, toks) && Lexical(toks)
    ensures Aligned(s1, 0, s2, 0, toks)
  {
    hide SpacedAt, Lexical;
  }

  lemma OutcomesParseAlike(f: Features, s1: Bytes, s2: Bytes, root: Value, rest: seq<Bytes>)
    requires SameOutcome(s1, ReadValue(f, s1, 0, 1, root), s2, ReadValue(f, s2, 0, 1, root), rest)
    ensures SameParsed(s1, Parse(f, s1, root), s2, Parse(f, s2, root))
  {
    hide JsonLexer.ReadToken, NextToken, FirstToken, ReadValue, SameError, Aligned, EndErrors, SameToken;
    var r1, r2 := ReadValue(f, s1, 0, 1, root), ReadValue(f, s2, 0, 1, root);
    if r1.Done? {
      var last := TokenAlike(f, s1, r1.pos, s2, r2.pos, rest);
      var t1, t2 := FirstToken(f, s1, r1.pos), FirstToken(f, s2, r2.pos);
      EndErrorsAlike(f, s1, t1, s2, t2, r1.value);
      JoinErrors(s1, ErrorList(r1.err), EndErrors(f, t1, r1.value), s2, ErrorList(r2.err), EndErrors(f, t2, r1.value));
    }
  }

  lemma JoinErrors(s1: Bytes, a: seq<Error>, b: seq<Error>, s2: Bytes, c: seq<Error>, d: seq<Error>)
    requires SameErrors(s1, a, s2, c) && SameErrors(s1, b, s2, d)
    ensures SameErrors(s1, a + b, s2, c + d)
  {
    hide SameError;
  }

  lemma EndErrorsAlike(f: Features, s1: Bytes, t1: Token, s2: Bytes, t2: Token, v: Value)
    requires SameToken(s1, t1, s2, t2)
    ensures SameErrors(s1, EndErrors(f, t1, v), s2, EndErrors(f, t2, v))
  {}

  lemma LexicalCons(tok: Bytes, rest: seq<Bytes>)
    requires Lexeme(tok, rest) && Lexical(rest)
    ensures Lexical([tok] + rest)
  {
    assert ([tok] + rest)[1..] == rest;
  }

  lemma LexicalMark(c: byte, rest: seq<Bytes>)
    requires c in [COMMA, COLON, LBRACE, RBRACE, LBRACKET, RBRACKET] && Lexical(rest)
    ensures Lexical([[c]] + rest)
    ensures c in [COMMA, COLON, RBRACE, RBRACKET] ==> Follows([[c]] + rest)
  {
    hide Lexical;
    assert IsPunctuation([c]);
    LexicalCons([c], rest);
  }

  lemma LexicalString(b: Bytes, rest: seq<Bytes>)
    requires Lexical(rest)
    ensures Lexical([Quoted(b)] + rest)
  {
    hide Lexical, Quoted;
    LexicalCons(Quoted(b), rest);
  }

  lemma LexicalScalar(v: Value, rest: seq<Bytes>)
    requires RealFree(v) && !v.Array? && !v.Object? && Lexical(rest) && Follows(rest)
    ensures Lexical(Tokens(v) + rest)
  {
    hide Lexical, Quoted, IntegerText, Follows;
    LexicalCons(Tokens(v)[0], rest);
  }

  /** The tokens of every real-free value, well-formed or not, stand on their own. */
  lemma {:induction false} TokensLexical(v: Value, rest: seq<Bytes>)
    requires RealFree(v) && Lexical(rest) && Follows(rest)
    ensures Lexical(Tokens(v) + rest)
    decreases v, 1
  {
    hide Lexical, Quoted, Follows, Size, ElementTokens, MemberTokens;
    match v {
      case Array(e) =>
        var n := Size(e);
        LexicalMark(RBRACKET, rest);
        ElementsLexical(e, 0, n, [[RBRACKET]] + rest);
        LexicalMark(LBRACKET, ElementTokens(e, 0, n) + ([[RBRACKET]] + rest));
        assert Tokens(v) + rest == [[LBRACKET]] + (ElementTokens(e, 0, n) + ([[RBRACKET]] + rest));
      case Object(e) =>
        LexicalMark(RBRACE, rest);
        MembersLexical(e, true, [[RBRACE]] + rest);
        LexicalMark(LBRACE, MemberTokens(e, true) + ([[RBRACE]] + rest));
        assert Tokens(v) + rest == [[LBRACE]] + (MemberTokens(e, true) + ([[RBRACE]] + rest));
      case _ =>
        LexicalScalar(v, rest);
    }
  }

  lemma {:induction false} ElementsLexical(e: Entries, i: nat, n: nat, rest: seq<Bytes>)
    requires AllRealFree(e) && Lexical(rest) && rest != [] && Follows(rest)
    ensures Lexical(ElementTokens(e, i, n) + rest) && (i > 0 ==> Follows(ElementTokens(e, i, n) + rest))
    decreases e, n - i
  {
    hide *;
    ElementsStep(e, i, n, rest);
    if i < n {
      ElementsLexical(e, i + 1, n, rest);
      var after := ElementTokens(e, i + 1, n) + rest;
      ElementLexical(e, i, after);
      if i > 0 { LexicalMark(COMMA, OneElement(e, i) + after); }
    }
  }

  lemma ElementsStep(e: Entries, i: nat, n: nat, rest: seq<Bytes>)
    ensures var toks := ElementTokens(e, i, n) + rest;
            if i >= n then toks == rest
            else var after := OneElement(e, i) + (ElementTokens(e, i + 1, n) + rest);
                 toks == if i > 0 then [[COMMA]] + after else after
  {
    hide OneElement;
  }

  lemma {:induction false} ElementLexical(e: Entries, i: nat, after: seq<Bytes>)
    requires AllRealFree(e) && Lexical(after) && Follows(after)
    ensures Lexical(OneElement(e, i) + after)
    decreases e, 0
  {
    hide Lexical, Follows, Tokens;
    if Find(e, Index(i)).Some? {
      FoundRealFree(e, Index(i));
      TokensLexical(Find(e, Index(i)).value, after);
    } else {
      LexicalCons(NULL_TEXT, after);
    }
  }

  lemma {:induction false} MembersLexical(e: Entries, first: bool, rest: seq<Bytes>)
    requires AllRealFree(e) && Lexical(rest) && rest != [] && Follows(rest)
    ensures Lexical(MemberTokens(e, first) + rest) && (!first ==> Follows(MemberTokens(e, first) + rest))
    decreases e, 0
  {
    hide Lexical, Tokens, Quoted, Follows, MemberTokens;
    MembersStep(e, first, rest);
    if e.Entry? {
      MembersLexical(e.rest, false, rest);
      var after := MemberTokens(e.rest, false) + rest;
      TokensLexical(e.value, after);
      LexicalMark(COLON, Tokens(e.value) + after);
      LexicalString(KeyText(e.key), [[COLON]] + (Tokens(e.value) + after));
      if !first { LexicalMark(COMMA, [Quoted(KeyText(e.key))] + ([[COLON]] + (Tokens(e.value) + after))); }
    }
  }

  lemma MembersStep(e: Entries, first: bool, rest: seq<Bytes>)
    ensures var toks := MemberTokens(e, first) + rest;
            if e.End? then toks == rest
            else var member := [Quoted(KeyText(e.key))] + ([[COLON]] + (Tokens(e.value) + (MemberTokens(e.rest, false) + rest)));
                 toks == if first then member else [[COMMA]] + member
  {
    hide Tokens, Quoted, KeyText;
  }

  /** So for every real-free value, readable or not, and however deep, any two texts the writers make
      of it parse alike. */
  lemma LayoutDoesNotMatter(f: Features, s1: Bytes, s2: Bytes, v: Value, root: Value)
    requires RealFree(v) && Spaced(s1, Tokens(v)) && Spaced(s2, Tokens(v))
    ensures SameParsed(s1, Parse(f, s1, root), s2, Parse(f, s2, root))
  {
    hide Parse, Spaced, Tokens;
    TokensLexical(v, []);
    assert Tokens(v) + [] == Tokens(v);
    LayoutsParseAlike(f, s1, s2, Tokens(v), root);
  }
}
