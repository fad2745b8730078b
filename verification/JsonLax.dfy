/** Where the reader accepts more than RFC 8259, and exactly when: numbers, the last comma of an object,
    and comments before a separator. */
module JsonLax {
  import opened Bytes
  import opened JsonString
  import opened JsonNumber
  import opened JsonValue
  import opened JsonLexer
  import opened JsonGrammar
  import opened JsonTokens
  import opened JsonScan
  import opened JsonParseBack
  import opened JsonLayout

  // ---------------------------------------------------------------- numbers

  predicate AnyDigits(t: Bytes) { t != [] ==> IsDigit(t[0]) && AnyDigits(t[1..]) }

  /** `[minus] int` of section 6 of RFC 8259: a zero, or a digit from 1 to 9 and any digits. */
  predicate RfcInteger(t: Bytes) {
    if t != [] && t[0] == MINUS then RfcUnsigned(t[1..]) else RfcUnsigned(t)
  }

  predicate RfcUnsigned(t: Bytes) {
    t == [DIGIT0] || (t != [] && IsDigit(t[0]) && t[0] != DIGIT0 && AnyDigits(t[1..]))
  }

  lemma {:induction false} AnyIsAll(t: Bytes)
    ensures AnyDigits(t) <==> AllDigits(t)
  {
    if t != [] {
      AnyIsAll(t[1..]);
      if AllDigits(t[1..]) && IsDigit(t[0]) {
        forall i | 0 <= i < |t| ensures IsDigit(t[i]) { if i > 0 { assert t[i] == t[1..][i - 1]; } }
      }
      if AllDigits(t) {
        forall i | 0 <= i < |t| - 1 ensures IsDigit(t[1..][i]) { assert t[1..][i] == t[i + 1]; }
      }
    }
  }

  /** An integer token that is decoded is an integer of the RFC, unless it has no digit at all or a
      zero in front of other digits. */
  lemma IntegerLaxIff(token: Bytes)
    requires IntegerMeaning(token) != DoublePath
    ensures var digits := SplitSign(token).1;
            RfcInteger(token) <==> digits != [] && (digits[0] == DIGIT0 ==> |digits| == 1)
  {
    hide Denoted;
    var digits := SplitSign(token).1;
    assert AllDigits(digits);
    if digits != [] {
      AnyIsAll(digits[1..]);
      if |digits| == 1 { assert digits == [digits[0]]; }
      assert AllDigits(digits[1..]) by { AnyIsAll(digits); }
    }
  }

  /** Without a digit, only the empty text and the lone minus pass for integers; both are 0. */
  lemma LoneMinusIff(token: Bytes)
    requires forall i :: 0 <= i < |token| ==> !IsDigit(token[i])
    ensures IntegerMeaning(token) != DoublePath <==> token == [] || token == [MINUS]
    ensures IntegerMeaning(token) != DoublePath ==> IntegerMeaning(token) == TaggedInt(0)
  {
    hide Denoted;
    assert Denoted([]) == 0 by { NoDigits(); }
    if token != [] {
      var digits := SplitSign(token).1;
      if digits != [] {
        assert digits[0] in token;
        assert !AllDigits(digits);
      } else {
        assert token == [MINUS];
      }
    }
  }

  /** So a minus in a document is a value of its own exactly when no number goes on behind it. */
  lemma LoneMinusValueIff(f: Features, s: Bytes, p: nat, depth: nat, cur: Value)
    requires p < |s| && s[p] == MINUS && depth <= f.stackLimit
    requires p + 1 < |s| ==> s[p + 1] != UPPER_I
    ensures var goesOn := p + 1 < |s| && (IsDigit(s[p + 1]) || s[p + 1] in [DOT, LOWER_E, UPPER_E]);
            !goesOn <==> ReadValue(f, s, p, depth, cur) == Done(Int(0), p + 1, None)
  {
    hide Denoted, IntegerMeaning;
    var t := Token(NumberToken, p, NumberEnd(s, p + 1));
    assert TokenAt(f, s, p) == t;
    assert SkipSpaces(s, p) == p;
    assert FirstToken(f, s, p) == t;
    if p + 1 < |s| && (IsDigit(s[p + 1]) || s[p + 1] in [DOT, LOWER_E, UPPER_E]) {
      assert t.end > p + 1;
    } else {
      assert t.end == p + 1;
      assert TokenText(s, t) == [MINUS];
      LoneMinusIff([MINUS]);
    }
  }

  // ---------------------------------------------------------------- objects

  /** The round of `readObject` in which a member named `key` was read without an error, up to `end`. */
  predicate ReadsMember(f: Features, s: Bytes, p: nat, depth: nat, name: Bytes, obj: Entries, key: Bytes, v: Value, end: nat)
  {
    && p <= |s|
    && MemberHead(f, s, p, name, obj).Member?
    && var head := MemberHead(f, s, p, name, obj);
    && head.name == key
    && ReadValue(f, s, head.pos, depth + 1, ValueOr(Find(obj, Name(key)))) == Done(v, end, None)
  }

  /** A member may be followed by a comma and the closing brace exactly when its name is empty. */
  lemma LastCommaIff(f: Features, s: Bytes, p: nat, depth: nat, name: Bytes, obj: Entries, key: Bytes, v: Value, end: nat)
    requires ReadsMember(f, s, p, depth, name, obj, key, v, end) && end <= |s|
    requires MemberTail(f, s, end).More? && NextToken(f, s, MemberTail(f, s, end).pos).typ == ObjectEnd
    ensures var brace := NextToken(f, s, MemberTail(f, s, end).pos);
            var r := ReadObject(f, s, p, depth, name, obj);
            && r.Done? && r.value == Object(Put(obj, Name(key), v))
            && (r.err.None? <==> key == [])
            && r.err == (if key == [] then None else Some(MissingBraceOrName(brace)))
            && (key == [] ==> r.pos == brace.end)
  {
    hide ReadValue, NextToken, ReadToken, Put, Recover;
    var q := MemberTail(f, s, end).pos;
    var head := MemberHead(f, s, p, name, obj);
    assert ReadObject(f, s, p, depth, name, obj) == ReadObject(f, s, q, depth, key, Put(obj, Name(key), v));
  }

  /** What may stand behind a member: a brace ends the object; a comma leads to the next member; and once
      a comment stands there, so does any other token. Everything else is an error. */
  lemma SeparatorIff(f: Features, s: Bytes, p: nat, depth: nat, name: Bytes, obj: Entries, key: Bytes, v: Value, end: nat)
    requires ReadsMember(f, s, p, depth, name, obj, key, v, end) && end <= |s|
    ensures var (first, separator) := (ReadToken(f, s, end), NextToken(f, s, end));
            var (r, obj') := (ReadObject(f, s, p, depth, name, obj), Put(obj, Name(key), v));
            && (separator.typ == ObjectEnd ==> r == Done(Object(obj'), separator.end, None))
            && (separator.typ != ObjectEnd && (first.typ == ArraySeparator || first.typ == Comment) ==>
                  r == ReadObject(f, s, separator.end, depth, key, obj'))
            && (separator.typ != ObjectEnd && first.typ != ArraySeparator && first.typ != Comment ==>
                  r == Done(Object(obj'), Recover(f, s, first.end, ObjectEnd), Some(MissingCommaOrBrace(first))))
  {
    hide ReadValue, ReadToken, Put, Recover;
    assert ReadToken(f, s, end).typ != Comment ==> NextToken(f, s, end) == ReadToken(f, s, end);
  }

  // ---------------------------------------------------------------- whole documents

  const COMMENT_END: Bytes := [STAR, SLASH]

  /** A comment with any text. */
  predicate IsComment(c: Bytes) {
    |c| >= 4 && c[0] == SLASH && c[1] == STAR && FindText(c[2..], COMMENT_END) == Some(|c| - 4)
  }

  lemma {:induction false} CommentEnds(s: Bytes, p: nat, t: Bytes, i: nat)
    requires p + |t| <= |s| && s[p..p + |t|] == t && |t| >= 2 && i <= |t| - 2
    requires At(t, |t| - 2, COMMENT_END) && forall j :: i <= j < |t| - 2 ==> !At(t, j, COMMENT_END)
    ensures ScanCComment(s, p + i) == Scan(true, p + |t|)
    decreases |t| - i
  {
    assert s[p + i] == t[i] && s[p + i + 1] == t[i + 1];
    if i < |t| - 2 {
      assert t[i..i + 2] == [t[i], t[i + 1]] != COMMENT_END by { assert !At(t, i, COMMENT_END); }
      CommentEnds(s, p, t, i + 1);
    } else {
      AtIndex(t, i, COMMENT_END, 0);
      AtIndex(t, i, COMMENT_END, 1);
    }
  }

  lemma CommentTokenAt(f: Features, s: Bytes, q: nat, c: Bytes)
    requires IsComment(c) && At(s, q, c)
    ensures q < |s| && q + |c| <= |s| && TokenAt(f, s, q) == Token(Comment, q, q + |c|)
  {
    AtIndex(s, q, c, 0);
    AtIndex(s, q, c, 1);
    var t := c[2..];
    assert s[q + 2..q + 2 + |t|] == s[q..q + |c|][2..] == t;
    CommentEnds(s, q + 2, t, 0);
  }

  /** A token that is no number, comment or closing brace. */
  ghost predicate IsOther(tok: Bytes) {
    tok != [RBRACE] && (IsPunctuation(tok) || WordType(tok).Some? || exists b :: tok == Quoted(b))
  }

  /** What may separate two members: a comma, or a comment and any word, string or punctuation but the
      closing brace. */
  ghost predicate Separator(sep: seq<Bytes>) {
    sep == [[COMMA]] || (|sep| == 2 && IsComment(sep[0]) && IsOther(sep[1]))
  }

  lemma LooseTail(f: Features, s: Bytes, p: nat, sep: seq<Bytes>, after: seq<Bytes>)
    requires p <= |s| && Separator(sep) && SpacedAt(s, p, sep + after)
    ensures var t := MemberTail(f, s, p); t.More? && t.pos <= |s| && SpacedAt(s, t.pos, after)
  {
    hide SpacedAt, TokenAt, IsComment, IsOther, MemberTail;
    if sep == [[COMMA]] {
      MemberTailBack(f, s, p, COMMA, after);
    } else {
      var c, tok := sep[0], sep[1];
      assert sep + after == [c] + ([tok] + after);
      SpacedHead(s, p, c, [tok] + after);
      CommentTokenAt(f, s, SkipSpaces(s, p), c);
      var q := SkipSpaces(s, p) + |c|;
      SpacedHead(s, q, tok, after);
      OtherToken(f, s, q, tok, after);
      CommentTail(f, s, p);
    }
  }

  lemma OtherToken(f: Features, s: Bytes, p: nat, tok: Bytes, after: seq<Bytes>)
    requires p <= |s| && IsOther(tok) && At(s, SkipSpaces(s, p), tok)
    ensures var t := ReadToken(f, s, p);
            t == Token(TypeOf(tok), SkipSpaces(s, p), SkipSpaces(s, p) + |tok|) && t.typ != Comment && t.typ != ObjectEnd
  {
    hide Quoted, IntegerText, TokenAt;
    LexemeTokenAt(f, s, SkipSpaces(s, p), tok, [[]]);
    TypeIs(tok, [[]]);
    assert tok == [tok[0]] || |tok| > 1;
  }

  lemma CommentTail(f: Features, s: Bytes, p: nat)
    requires p <= |s| && ReadToken(f, s, p).typ == Comment
    requires var t := ReadToken(f, s, ReadToken(f, s, p).end); t.typ != Comment && t.typ != ObjectEnd
    ensures MemberTail(f, s, p) == More(ReadToken(f, s, ReadToken(f, s, p).end).end)
  {
    hide JsonLexer.ReadToken, Recover;
    var comment := ReadToken(f, s, p);
    assert NextToken(f, s, p) == NextToken(f, s, comment.end) == ReadToken(f, s, comment.end);
  }

  /** The tokens of the members with `sep` between them. */
  function LooseTokens(e: Entries, sep: seq<Bytes>): seq<Bytes> {
    if e.End? then []
    else [Quoted(KeyText(e.key)), [COLON]] + Tokens(e.value) + (if e.rest.End? then [] else sep + LooseTokens(e.rest, sep))
  }

  function LastName(e: Entries): Bytes
    requires e.Entry?
  {
    if e.rest.End? then RereadText(KeyText(e.key)) else LastName(e.rest)
  }

  function Closing(sep: seq<Bytes>, trailing: bool, rest: seq<Bytes>): seq<Bytes> {
    (if trailing then sep else []) + ([[RBRACE]] + rest)
  }

  /** The object is read as with commas; with a separator before the closing brace, only if the last name
      is empty. */
  ghost predicate LooseEnd(r: Outcome, s: Bytes, v: Value, lastName: Bytes, trailing: bool, rest: seq<Bytes>) {
    if !trailing || lastName == [] then ReadsTo(r, s, v, rest)
    else r.Done? && r.err.Some? && r.err.value.MissingBraceOrName?
  }

  lemma BraceNext(f: Features, s: Bytes, p: nat, depth: nat, name: Bytes, obj: Entries, rest: seq<Bytes>)
    requires p <= |s| && SpacedAt(s, p, [[RBRACE]] + rest)
    ensures LooseEnd(ReadObject(f, s, p, depth, name, obj), s, Object(obj), name, true, rest)
  {
    hide JsonLexer.ReadToken, SpacedAt, Recover;
    LexPunctuation(f, s, p, RBRACE, rest);
    SameFirstToken(f, s, p);
  }

  lemma SeparatorFollows(sep: seq<Bytes>, more: seq<Bytes>)
    requires Separator(sep)
    ensures Follows(sep + more)
  {
    hide IsOther;
  }

  /** What stands behind the value of the first member. */
  function AfterMember(e: Entries, sep: seq<Bytes>, closing: seq<Bytes>): seq<Bytes>
    requires e.Entry?
  {
    (if e.rest.End? then [] else sep + LooseTokens(e.rest, sep)) + closing
  }

  lemma AfterMemberFollows(e: Entries, sep: seq<Bytes>, trailing: bool, rest: seq<Bytes>)
    requires e.Entry? && Separator(sep)
    ensures Follows(AfterMember(e, sep, Closing(sep, trailing, rest)))
  {
    hide Separator, LooseTokens, Follows;
    if !e.rest.End? {
      var more := LooseTokens(e.rest, sep) + Closing(sep, trailing, rest);
      SeparatorFollows(sep, more);
      assert AfterMember(e, sep, Closing(sep, trailing, rest)) == sep + more;
    } else if trailing {
      SeparatorFollows(sep, [[RBRACE]] + rest);
      assert AfterMember(e, sep, Closing(sep, trailing, rest)) == sep + ([[RBRACE]] + rest);
    } else {
      BraceFollows(rest);
      assert AfterMember(e, sep, Closing(sep, trailing, rest)) == [[RBRACE]] + rest;
    }
  }

  lemma BraceFollows(rest: seq<Bytes>)
    ensures Follows([[RBRACE]] + rest)
  {}

  /** How `readObject` goes on once a value was read. */
  function AfterValue(f: Features, s: Bytes, p: nat, depth: nat, name: Bytes, obj: Entries): Outcome
    requires p <= |s|
  {
    match MemberTail(f, s, p)
    case TailError(q, e) => Done(Object(obj), q, Some(e))
    case Finished(q) => Done(Object(obj), q, None)
    case More(q) => ReadObject(f, s, q, depth, name, obj)
  }

  /** The members of an object at the start of a round, whatever separates them. */
  lemma {:induction false} LooseRead(f: Features, s: Bytes, p: nat, depth: nat, name: Bytes, acc: Entries, e: Entries,
                                     seen: set<Bytes>, sep: seq<Bytes>, trailing: bool, rest: seq<Bytes>)
    requires p <= |s| && e.Entry? && AllReadable(e) && NamesReadable(e) && NamesAre(acc, seen) && Separator(sep)
    requires MembersFate(f, depth + 1, e, seen) == Read
    requires SpacedAt(s, p, LooseTokens(e, sep) + Closing(sep, trailing, rest))
    ensures LooseEnd(ReadObject(f, s, p, depth, name, acc), s, Object(RereadMembers(e, acc)), LastName(e), trailing, rest)
    decreases e, 0
  {
    hide JsonLexer.ReadToken, NextToken, ReadValue, SpacedAt, Tokens, Survives, RereadText, MemberHead, MemberTail, Quoted, FateOf;
    hide Separator, LooseEnd, Closing, RereadMembers, LastName;
    var key, tail := KeyText(e.key), AfterMember(e, sep, Closing(sep, trailing, rest));
    assert LooseTokens(e, sep) + Closing(sep, trailing, rest) == [Quoted(key)] + ([[COLON]] + (Tokens(e.value) + tail));
    MemberHeadBack(f, s, p, name, acc, key, Tokens(e.value) + tail);
    var h := MemberHead(f, s, p, name, acc);
    assert h.Member? by { NamesAreIff(acc, seen, RereadText(key)); }
    var cur := ValueOr(Find(acc, Name(h.name)));
    AfterMemberFollows(e, sep, trailing, rest);
    ValueReads(f, s, h.pos, depth + 1, cur, e.value, tail);
    var r := ReadValue(f, s, h.pos, depth + 1, cur);
    assert ReadObject(f, s, p, depth, name, acc) == AfterValue(f, s, r.pos, depth, h.name, Put(acc, Name(h.name), Reread(e.value)));
    LooseGoesOn(f, s, r.pos, depth, acc, e, seen, sep, trailing, rest);
  }

  lemma NamesAreIff(acc: Entries, seen: set<Bytes>, key: Bytes)
    requires NamesAre(acc, seen)
    ensures Find(acc, Name(key)).Some? <==> key in seen
  {}

  /** After the value of a member. */
  lemma {:induction false} LooseGoesOn(f: Features, s: Bytes, p: nat, depth: nat, acc: Entries, e: Entries,
                                       seen: set<Bytes>, sep: seq<Bytes>, trailing: bool, rest: seq<Bytes>)
    requires p <= |s| && e.Entry? && AllReadable(e) && NamesReadable(e) && NamesAre(acc, seen) && Separator(sep)
    requires MembersFate(f, depth + 1, e, seen) == Read
    requires SpacedAt(s, p, AfterMember(e, sep, Closing(sep, trailing, rest)))
    ensures var name := RereadText(KeyText(e.key));
            LooseEnd(AfterValue(f, s, p, depth, name, Put(acc, Name(name), Reread(e.value))), s,
                     Object(RereadMembers(e, acc)), LastName(e), trailing, rest)
    decreases e.rest, 1
  {
    hide JsonLexer.ReadToken, NextToken, ReadObject, SpacedAt, RereadText, MemberTail, FateOf, Separator;
    var name := RereadText(KeyText(e.key));
    var acc', closing := Put(acc, Name(name), Reread(e.value)), Closing(sep, trailing, rest);
    if !e.rest.End? {
      var next := LooseTokens(e.rest, sep) + closing;
      assert AfterMember(e, sep, closing) == sep + next;
      LooseTail(f, s, p, sep, next);
      NamesAfterPut(acc, seen, name, Reread(e.value));
      LooseRead(f, s, MemberTail(f, s, p).pos, depth, name, acc', e.rest, seen + {name}, sep, trailing, rest);
    } else if trailing {
      assert AfterMember(e, sep, closing) == sep + ([[RBRACE]] + rest);
      LooseTail(f, s, p, sep, [[RBRACE]] + rest);
      BraceNext(f, s, MemberTail(f, s, p).pos, depth, name, acc', rest);
    } else {
      assert AfterMember(e, sep, closing) == [[RBRACE]] + rest;
      MemberTailBack(f, s, p, RBRACE, rest);
    }
  }

  /** A whole document with the members of an object, any layout, any separator between them and perhaps one
      more before the closing brace. It parses without an error, to the same value as with commas, exactly if
      there is no last separator or the last name is empty. */
  lemma LooseDocumentIff(f: Features, text: Bytes, e: Entries, sep: seq<Bytes>, trailing: bool, root: Value)
    requires e.Entry? && Readable(Object(e)) && FateOf(f, 1, Object(e)) == Read && Separator(sep)
    requires Spaced(text, [[LBRACE]] + (LooseTokens(e, sep) + Closing(sep, trailing, [])))
    ensures var r := Parse(f, text, root);
            && r.Parsed?
            && (r.errors == [] <==> !trailing || LastName(e) == [])
            && (r.errors == [] ==> r.root == JsonParseBack.Reread(Object(e)))
            && (r.errors != [] ==> r.errors[0].MissingBraceOrName?)
  {
    hide JsonLexer.ReadToken, NextToken, FirstToken, ReadObject, SpacedAt, MembersFate, LooseTokens, Closing, Separator, RereadMembers;
    var body := LooseTokens(e, sep) + Closing(sep, trailing, []);
    LexPunctuation(f, text, 0, LBRACE, body);
    SameFirstToken(f, text, 0);
    var p := ReadToken(f, text, 0).end;
    assert NamesAre(End, {});
    LooseRead(f, text, p, 1, [], End, e, {}, sep, trailing, []);
    var r := ReadObject(f, text, p, 1, [], End);
    assert ReadValue(f, text, 0, 1, root) == r;
    if r.err.None? { LexEnd(f, text, r.pos); }
  }

  /** `{"":-/**/0}`, all three at once. */
  const LAX_DOCUMENT: Bytes := [LBRACE, QUOTE, QUOTE, COLON, MINUS, SLASH, STAR, STAR, SLASH, DIGIT0, RBRACE]

  lemma LaxName(f: Features)
    ensures FirstToken(f, LAX_DOCUMENT, 0) == Token(ObjectBegin, 0, 1)
    ensures MemberHead(f, LAX_DOCUMENT, 1, [], End) == Member([], 4)
  {
    hide StringText, Recover;
    var s := LAX_DOCUMENT;
    assert ReadToken(f, s, 0) == Token(ObjectBegin, 0, 1);
    assert ScanString(s, 2, QUOTE) == Scan(true, 3);
    var t := Token(StringToken, 1, 3);
    assert ReadToken(f, s, 1) == t;
    assert StringText(s, t) == Good([]) by { EmptyString(s, t); }
    assert ReadToken(f, s, 3) == Token(MemberSeparator, 3, 4);
  }

  lemma EmptyString(s: Bytes, t: Token)
    requires t.start + 2 == t.end <= |s|
    ensures StringText(s, t) == Good([])
  {
    assert s[t.start + 1..t.end - 1] == [];
  }

  lemma LaxSeparator(f: Features)
    ensures MemberTail(f, LAX_DOCUMENT, 5) == More(10)
    ensures NextToken(f, LAX_DOCUMENT, 10) == Token(ObjectEnd, 10, 11)
    ensures FirstToken(f, LAX_DOCUMENT, 11) == Token(EndOfStream, 11, 11)
  {
    hide Recover;
    var s := LAX_DOCUMENT;
    assert ScanCComment(s, 7) == Scan(true, 9);
    assert ReadToken(f, s, 5) == Token(Comment, 5, 9);
    assert ReadToken(f, s, 9) == Token(NumberToken, 9, 10);
    assert NextToken(f, s, 5) == NextToken(f, s, 9) == Token(NumberToken, 9, 10);
    assert ReadToken(f, s, 10) == Token(ObjectEnd, 10, 11);
  }

  lemma LaxDocumentParses(f: Features, root: Value)
    requires f.stackLimit >= 2
    ensures Parse(f, LAX_DOCUMENT, root) == Parsed(Object(Entry(Name([]), Int(0), End)), [])
  {
    var s := LAX_DOCUMENT;
    hide FirstToken, NextToken, ReadToken, MemberHead, MemberTail, ReadObject, Recover, ScalarOutcome;
    LaxName(f);
    LaxSeparator(f);
    LoneMinusValueIff(f, s, 4, 2, Null);
    assert ReadValue(f, s, 0, 1, root) == ReadObject(f, s, 1, 1, [], End);
    hide ReadValue;
    LastCommaIff(f, s, 1, 1, [], End, [], Int(0), 5);
    assert Put(End, Name([]), Int(0)) == Entry(Name([]), Int(0), End);
  }
}
