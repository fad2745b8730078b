/** `OurReader`: the cursor, the node stack and the error list, changed step by step, proved to
    compute the functions of JsonLexer and JsonGrammar. */
module JsonReader {
  import opened Bytes
  import opened JsonString
  import opened JsonValue
  import opened JsonLexer
  import opened JsonGrammar

  /** How a call ends: it returns its success flag, or an exception passes through it. */
  datatype Flow = Returned(ok: bool) | Exception

  class OurReader {
    const features: Features
    var document: Bytes
    var current: nat
    /** The values on the path from the root, the innermost last. A finished value is stored in its
        parent when it is popped. */
    var nodes: seq<Value>
    var errors: seq<Error>

    ghost predicate Valid()
      reads this
    {
      current <= |document|
    }

    constructor (features: Features)
      ensures Valid() && this.features == features && nodes == [] && errors == []
    {
      this.features := features;
      document, current, nodes, errors := [], 0, [], [];
    }

    // -------------------------------------------------------------- scanners

    method GetNextChar() returns (c: byte)
      requires Valid()
      modifies this`current
      ensures Valid()
      ensures old(current) == |document| ==> c == NUL && current == old(current)
      ensures old(current) < |document| ==> c == document[old(current)] && current == old(current) + 1
    {
      if current == |document| { return NUL; }
      c := document[current];
      current := current + 1;
    }

    method SkipSpaces()
      requires Valid()
      modifies this`current
      ensures Valid() && current == JsonLexer.SkipSpaces(document, old(current))
    {
      while current != |document|
        invariant Valid()
        invariant JsonLexer.SkipSpaces(document, current) == JsonLexer.SkipSpaces(document, old(current))
        decreases |document| - current
      {
        var c := document[current];
        if c == SPACE || c == TAB || c == CR || c == LF { current := current + 1; } else { break; }
      }
    }

    method Match(pattern: Bytes) returns (ok: bool)
      requires Valid()
      modifies this`current
      ensures Valid()
      ensures Scan(ok, current) == ScanMatch(document, old(current), pattern)
    {
      if |document| - current < |pattern| { return false; }
      var index := |pattern|;
      while index != 0
        invariant 0 <= index <= |pattern|
        invariant forall i :: index <= i < |pattern| ==> document[current + i] == pattern[i]
      {
        index := index - 1;
        if document[current + index] != pattern[index] {
          assert document[current..current + |pattern|][index] != pattern[index];
          return false;
        }
      }
      assert document[current..current + |pattern|] == pattern;
      current := current + |pattern|;
      return true;
    }

    method ReadCStyleComment() returns (ok: bool)
      requires Valid()
      modifies this`current
      ensures Valid() && Scan(ok, current) == ScanCComment(document, old(current))
    {
      while current + 1 < |document|
        invariant Valid()
        invariant ScanCComment(document, current) == ScanCComment(document, old(current))
        decreases |document| - current
      {
        var c := GetNextChar();
        if c == STAR && document[current] == SLASH { break; }
      }
      var last := GetNextChar();
      ok := last == SLASH;
    }

    method ReadCppStyleComment() returns (ok: bool)
      requires Valid()
      modifies this`current
      ensures Valid() && ok && current == LineCommentEnd(document, old(current))
    {
      while current != |document|
        invariant Valid()
        invariant LineCommentEnd(document, current) == LineCommentEnd(document, old(current))
        decreases |document| - current
      {
        var c := GetNextChar();
        if c == LF { break; }
        if c == CR {
          if current != |document| && document[current] == LF { var _ := GetNextChar(); }
          break;
        }
      }
      return true;
    }

    method ReadComment() returns (ok: bool)
      requires Valid()
      modifies this`current
      ensures Valid() && Scan(ok, current) == ScanComment(document, old(current))
    {
      var c := GetNextChar();
      ok := false;
      if c == STAR {
        ok := ReadCStyleComment();
      } else if c == SLASH {
        ok := ReadCppStyleComment();
      }
    }

    method ReadDigits()
      requires Valid()
      modifies this`current
      ensures Valid() && current == SkipDigits(document, old(current))
    {
      while current < |document| && IsDigit(document[current])
        invariant Valid()
        invariant SkipDigits(document, current) == SkipDigits(document, old(current))
      {
        current := current + 1;
      }
    }

    /** False, with the cursor after it, only for an `I` when `checkInf` is set. */
    method ReadNumber(checkInf: bool) returns (ok: bool)
      requires Valid()
      modifies this`current
      ensures Valid()
      ensures ok == !(checkInf && old(current) < |document| && document[old(current)] == UPPER_I)
      ensures current == if ok then NumberEnd(document, old(current)) else old(current) + 1
    {
      if checkInf && current != |document| && document[current] == UPPER_I {
        current := current + 1;
        return false;
      }
      ReadDigits();
      ReadFraction();
      ReadExponent();
      return true;
    }

    method ReadFraction()
      requires Valid()
      modifies this`current
      ensures Valid() && current == FractionEnd(document, old(current))
    {
      if current < |document| && document[current] == DOT {
        current := current + 1;
        ReadDigits();
      }
    }

    method ReadExponent()
      requires Valid()
      modifies this`current
      ensures Valid() && current == ExponentEnd(document, old(current))
    {
      if current < |document| && (document[current] == LOWER_E || document[current] == UPPER_E) {
        current := current + 1;
        if current < |document| && (document[current] == PLUS || document[current] == MINUS) {
          current := current + 1;
        }
        ReadDigits();
      }
    }

    /** `readString` and, with the other quote, `readStringSingleQuote`. */
    method ReadString(quote: byte) returns (ok: bool)
      requires Valid() && quote != NUL && quote != BACKSLASH
      modifies this`current
      ensures Valid() && Scan(ok, current) == ScanString(document, old(current), quote)
    {
      var c := NUL;
      while current != |document|
        invariant Valid() && c != quote
        invariant ScanString(document, current, quote) == ScanString(document, old(current), quote)
        decreases |document| - current
      {
        c := GetNextChar();
        if c == BACKSLASH {
          var _ := GetNextChar();
        } else if c == quote {
          break;
        }
      }
      ok := c == quote;
    }

    method ReadToken() returns (token: Token)
      requires Valid()
      modifies this`current
      ensures Valid() && token == JsonLexer.ReadToken(features, document, old(current)) && current == token.end
    {
      SkipSpaces();
      var start := current;
      var c := GetNextChar();
      var ok := true;
      var typ := ErrorToken;
      if start == |document| {
        typ := EndOfStream;
      } else if Punctuation(c).Some? {
        typ := Punctuation(c).value;
      } else if c == QUOTE {
        typ := StringToken;
        ok := ReadString(QUOTE);
      } else if c == APOSTROPHE && features.allowSingleQuotes {
        typ := StringToken;
        ok := ReadString(APOSTROPHE);
      } else if c == APOSTROPHE || c == SLASH {
        typ := Comment;
        ok := ReadComment();
      } else if IsDigit(c) {
        typ := NumberToken;
        var _ := ReadNumber(false);
      } else if c == MINUS {
        var finite := ReadNumber(true);
        if finite {
          typ := NumberToken;
        } else {
          typ := NegInf;
          if features.allowSpecialFloats { ok := Match(NFINITY); } else { ok := false; }
        }
      } else if c == LOWER_T {
        typ := TrueToken;
        ok := Match(RUE);
      } else if c == LOWER_F {
        typ := FalseToken;
        ok := Match(ALSE);
      } else if c == LOWER_N {
        typ := NullToken;
        ok := Match(ULL);
      } else if c == UPPER_N && features.allowSpecialFloats {
        typ := NaNToken;
        ok := Match(AN);
      } else if c == UPPER_I && features.allowSpecialFloats {
        typ := PosInf;
        ok := Match(NFINITY);
      } else {
        ok := false;
      }
      if !ok { typ := ErrorToken; }
      token := Token(typ, start, current);
    }

    method SkipToNonComment(first: Token) returns (token: Token)
      requires Valid() && current == first.end
      modifies this`current
      ensures Valid() && current == token.end
      ensures token == if first.typ == Comment then NextToken(features, document, first.end) else first
    {
      token := first;
      while token.typ == Comment
        invariant Valid() && current == token.end
        invariant (if token.typ == Comment then NextToken(features, document, token.end) else token)
                  == if first.typ == Comment then NextToken(features, document, first.end) else first
        decreases |document| - current, token.typ == Comment
      {
        token := ReadToken();
      }
    }

    method SkipCommentTokens() returns (token: Token)
      requires Valid()
      modifies this`current
      ensures Valid() && token == FirstToken(features, document, old(current)) && current == token.end
    {
      token := ReadToken();
      if features.allowComments { token := SkipToNonComment(token); }
    }

    // -------------------------------------------------------------- errors

    method AddError(error: Error) returns (ok: bool)
      modifies this`errors
      ensures errors == old(errors) + [error] && !ok
    {
      errors := errors + [error];
      return false;
    }

    /** Discards what follows up to `until`, and any error met on the way. */
    method RecoverFromError(until: TokenType) returns (ok: bool)
      requires Valid()
      modifies this`current, this`errors
      ensures Valid() && current == Recover(features, document, old(current), until)
      ensures errors == old(errors) && !ok
    {
      var errorCount := |errors|;
      while true
        invariant Valid() && errors == old(errors) && |errors| == errorCount
        invariant Recover(features, document, current, until) == Recover(features, document, old(current), until)
        decreases |document| - current
      {
        var skip := ReadToken();
        if skip.typ == until || skip.typ == EndOfStream { break; }
      }
      errors := errors[..errorCount];
      return false;
    }

    method AddErrorAndRecover(error: Error, until: TokenType) returns (ok: bool)
      requires Valid()
      modifies this`current, this`errors
      ensures Valid() && current == Recover(features, document, old(current), until)
      ensures errors == old(errors) + [error] && !ok
    {
      var _ := AddError(error);
      ok := RecoverFromError(until);
    }

    // -------------------------------------------------------------- values

    method SetCurrentValue(v: Value)
      requires nodes != []
      modifies this`nodes
      ensures nodes == old(nodes)[..|old(nodes)| - 1] + [v]
    {
      nodes := nodes[..|nodes| - 1] + [v];
    }

    /** What a call of a reader leaves behind, given the outcome it computes. */
    twostate predicate Leaves(new flow: Flow, outcome: Outcome)
      requires old(nodes) != []
      reads this
    {
      match outcome
      case Thrown => flow == Exception
      case Done(v, pos, err) =>
        flow == Returned(err.None?) && current == pos <= |document| &&
        nodes == old(nodes)[..|old(nodes)| - 1] + [v] &&
        errors == old(errors) + ErrorList(err)
    }

    method DecodeNumber(token: Token) returns (ok: bool)
      requires Valid() && nodes != [] && token.typ == NumberToken && token.start < token.end <= |document|
      modifies this`nodes, this`errors
      ensures ok == NumberValue(features, TokenText(document, token)).Some?
      ensures ok ==> errors == old(errors)
      ensures ok ==> nodes == old(nodes)[..|old(nodes)| - 1] + [NumberValue(features, TokenText(document, token)).value]
      ensures !ok ==> nodes == old(nodes) && errors == old(errors) + [NotANumber(token)]
    {
      var decoded := DecodeNumberValue(token);
      if decoded.None? { return false; }
      SetCurrentValue(decoded.value);
      return true;
    }

    method DecodeNumberValue(token: Token) returns (decoded: Option<Value>)
      requires Valid() && token.start < token.end <= |document|
      modifies this`errors
      ensures decoded == NumberValue(features, TokenText(document, token))
      ensures errors == if decoded.Some? then old(errors) else old(errors) + [NotANumber(token)]
    {
      var text := document[token.start..token.end];
      var number := JsonNumber.DecodeNumber(text);
      match number {
        case TaggedInt(i) => decoded := Some(Int(i));
        case TaggedUInt(u) => decoded := Some(UInt(u));
        case DoublePath =>
          if features.scanReal(text) {
            decoded := Some(Real(text));
          } else {
            var _ := AddError(NotANumber(token));
            decoded := None;
          }
      }
    }

    method DecodeStringValue(token: Token) returns (decoded: Decoded)
      requires Valid() && token.start + 2 <= token.end <= |document|
      modifies this`errors
      ensures decoded == StringText(document, token)
      ensures errors == if decoded.Good? then old(errors) else old(errors) + [BadString(decoded.error, token)]
    {
      decoded := JsonString.DecodeString(document[token.start + 1..token.end - 1]);
      if decoded.Bad? { var _ := AddError(BadString(decoded.error, token)); }
    }

    /** The scalar cases of the switch in `readValue`. */
    method ReadScalar(token: Token) returns (ok: bool)
      requires Valid() && nodes != [] && current == token.end && token.start <= token.end
      requires token.typ == StringToken ==> token.start + 2 <= token.end
      requires token.typ == NumberToken ==> token.start < token.end
      modifies this`nodes, this`errors
      ensures Leaves(Returned(ok), ScalarOutcome(features, document, token, old(nodes)[|old(nodes)| - 1]))
    {
      ok := true;
      match token.typ {
        case NumberToken => ok := DecodeNumber(token);
        case StringToken =>
          var decoded := DecodeStringValue(token);
          if decoded.Good? { SetCurrentValue(Str(decoded.text)); } else { ok := false; }
        case TrueToken => SetCurrentValue(Bool(true));
        case FalseToken => SetCurrentValue(Bool(false));
        case NullToken => SetCurrentValue(Null);
        case NaNToken => SetCurrentValue(Real(document[token.start..token.end]));
        case PosInf => SetCurrentValue(Real(document[token.start..token.end]));
        case NegInf => SetCurrentValue(Real(document[token.start..token.end]));
        case _ => ok := AddError(ValueExpected(token));
      }
    }

    /** Every path leaves the stack at its entry depth with only the top value changed, and the
        flag is false exactly when an error was added. */
    method ReadValue() returns (flow: Flow)
      requires Valid() && nodes != []
      modifies this`current, this`nodes, this`errors
      ensures Valid()
      ensures Leaves(flow, JsonGrammar.ReadValue(features, document, old(current), |old(nodes)|, old(nodes)[|old(nodes)| - 1]))
      decreases |document| - current, 1
    {
      hide JsonLexer.ReadToken, NextToken, FirstToken, ScalarOutcome, TokenAt, MemberHead, MemberTail, ElementTail;
      if |nodes| > features.stackLimit { return Exception; }
      var token := SkipCommentTokens();
      match token.typ {
        case ObjectBegin => flow := ReadObject();
        case ArrayBegin => flow := ReadArray();
        case _ =>
          var ok := ReadScalar(token);
          flow := Returned(ok);
      }
    }

    /** `nodes_.push(&value); readValue(); nodes_.pop();` for the child stored under `key` of the
        container on top, which `wrap` rebuilds from its entries. */
    method ReadChild(key: Key) returns (flow: Flow)
      requires Valid() && nodes != []
      requires key.Index? ==> nodes[|nodes| - 1].Array?
      requires key.Name? ==> nodes[|nodes| - 1].Object?
      modifies this`current, this`nodes, this`errors
      ensures Valid()
      ensures var top := old(nodes)[|old(nodes)| - 1];
              var entries := if top.Array? then top.elements else top.members;
              match JsonGrammar.ReadValue(features, document, old(current), |old(nodes)| + 1, ValueOr(Find(entries, key)))
              case Thrown => flow == Exception
              case Done(v, pos, err) =>
                flow == Returned(err.None?) && current == pos <= |document| &&
                errors == old(errors) + ErrorList(err) &&
                nodes == old(nodes)[..|old(nodes)| - 1] +
                         [if top.Array? then Array(Put(entries, key, v)) else Object(Put(entries, key, v))]
      decreases |document| - current, 2
    {
      hide JsonLexer.ReadToken, NextToken, FirstToken, Recover, ScalarOutcome, JsonGrammar.ReadValue;
      var parent := nodes[|nodes| - 1];
      var entries := if parent.Array? then parent.elements else parent.members;
      ghost var below := nodes;
      nodes := nodes + [ValueOr(Find(entries, key))];
      flow := ReadValue();
      if flow == Exception { return; }
      var child := nodes[|nodes| - 1];
      nodes := nodes[..|nodes| - 1];
      assert nodes == below;
      var entries' := Put(entries, key, child);
      SetCurrentValue(if parent.Array? then Array(entries') else Object(entries'));
    }

    method ReadObject() returns (flow: Flow)
      requires Valid() && nodes != []
      modifies this`current, this`nodes, this`errors
      ensures Valid() && Leaves(flow, JsonGrammar.ReadObject(features, document, old(current), |old(nodes)|, [], End))
      decreases |document| - current, 3
    {
      hide JsonLexer.ReadToken, NextToken, FirstToken, Recover, MemberHead, MemberTail, ScalarOutcome, JsonGrammar.ReadValue;
      var name: Bytes := [];
      SetCurrentValue(Object(End));
      ghost var depth := |nodes|;
      ghost var below := nodes[..depth - 1];
      ghost var goal := JsonGrammar.ReadObject(features, document, current, depth, [], End);
      ghost var obj := End;
      while true
        invariant Valid() && old(current) <= current && errors == old(errors)
        invariant |nodes| == depth && below == old(nodes)[..depth - 1] && nodes == below + [Object(obj)]
        invariant goal == JsonGrammar.ReadObject(features, document, current, depth, name, obj)
        decreases |document| - current
      {
        ghost var p := current;
        var head := ReadMemberHead(name, obj);
        match head {
          case Closed(_) => return Returned(true);
          case HeadError(_, _) => return Returned(false);
          case HeadThrown => return Exception;
          case Member(key, _) =>
            name := key;
            flow := ReadChild(Name(name));
            if flow == Exception { return; }
            obj := nodes[depth - 1].members;
            if !flow.ok {
              var _ := RecoverFromError(ObjectEnd);
              return Returned(false);
            }
            var tail := ReadMemberTail();
            match tail {
              case TailError(_, _) => return Returned(false);
              case Finished(_) => return Returned(true);
              case More(_) =>
            }
        }
      }
    }

    /** The first half of a round of `readObject`, up to and including the colon. */
    method ReadMemberHead(name: Bytes, ghost obj: Entries) returns (head: Head)
      requires Valid() && nodes != [] && nodes[|nodes| - 1] == Object(obj)
      modifies this`current, this`errors
      ensures Valid() && head == MemberHead(features, document, old(current), name, obj)
      ensures !head.HeadThrown? ==> current == head.pos
      ensures !head.HeadThrown? ==> errors == old(errors) + (if head.HeadError? then [head.err] else [])
    {
      hide JsonLexer.ReadToken, FirstToken, Recover, AfterName, StringText, NumberValue, NumberName;
      var tokenName := ReadToken();
      tokenName := SkipToNonComment(tokenName);
      if tokenName.typ == ObjectEnd && name == [] { return Closed(current); }
      var key: Bytes := [];
      if tokenName.typ == StringToken {
        var decoded := DecodeStringValue(tokenName);
        if decoded.Bad? {
          var _ := RecoverFromError(ObjectEnd);
          return HeadError(current, BadString(decoded.error, tokenName));
        }
        key := decoded.text;
      } else if tokenName.typ == NumberToken && features.allowNumericKeys {
        var number := DecodeNumberValue(tokenName);
        if number.None? {
          var _ := RecoverFromError(ObjectEnd);
          return HeadError(current, NotANumber(tokenName));
        }
        key := NumberName(features, number.value);
      } else {
        var _ := AddErrorAndRecover(MissingBraceOrName(tokenName), ObjectEnd);
        return HeadError(current, MissingBraceOrName(tokenName));
      }
      head := ReadAfterName(tokenName, key, obj);
    }

    method ReadAfterName(tokenName: Token, key: Bytes, ghost obj: Entries) returns (head: Head)
      requires Valid() && nodes != [] && nodes[|nodes| - 1] == Object(obj)
      requires tokenName.start <= tokenName.end == current
      modifies this`current, this`errors
      ensures Valid() && head == AfterName(features, document, tokenName, key, obj)
      ensures !head.HeadThrown? ==> current == head.pos
      ensures !head.HeadThrown? ==> errors == old(errors) + (if head.HeadError? then [head.err] else [])
    {
      var colon := ReadToken();
      if colon.typ != MemberSeparator {
        var _ := AddErrorAndRecover(MissingColon(colon), ObjectEnd);
        return HeadError(current, MissingColon(colon));
      }
      if |key| >= MAX_KEY_LENGTH { return HeadThrown; }
      if features.rejectDupKeys && Find(nodes[|nodes| - 1].members, Name(key)).Some? {
        var _ := AddErrorAndRecover(DuplicateKey(tokenName), ObjectEnd);
        return HeadError(current, DuplicateKey(tokenName));
      }
      return Member(key, current);
    }

    method ReadMemberTail() returns (tail: Tail)
      requires Valid()
      modifies this`current, this`errors
      ensures Valid() && tail == MemberTail(features, document, old(current)) && current == tail.pos
      ensures errors == old(errors) + if tail.TailError? then [tail.err] else []
    {
      var comma := ReadToken();
      if comma.typ != ObjectEnd && comma.typ != ArraySeparator && comma.typ != Comment {
        var _ := AddErrorAndRecover(MissingCommaOrBrace(comma), ObjectEnd);
        return TailError(current, MissingCommaOrBrace(comma));
      }
      comma := SkipToNonComment(comma);
      if comma.typ == ObjectEnd { return Finished(current); }
      return More(current);
    }

    method ReadArray() returns (flow: Flow)
      requires Valid() && nodes != []
      modifies this`current, this`nodes, this`errors
      ensures Valid() && Leaves(flow,
                var q := JsonLexer.SkipSpaces(document, old(current));
                if q < |document| && document[q] == RBRACKET then Done(Array(End), q + 1, None)
                else JsonGrammar.ReadArray(features, document, q, |old(nodes)|, 0, End))
      decreases |document| - current, 3
    {
      hide NextToken, FirstToken, Recover, ElementTail, ScalarOutcome, JsonGrammar.ReadValue;
      SetCurrentValue(Array(End));
      SkipSpaces();
      if current != |document| && document[current] == RBRACKET {
        var _ := ReadToken();
        return Returned(true);
      }
      var index := 0;
      ghost var depth := |nodes|;
      ghost var below := nodes[..depth - 1];
      ghost var goal := JsonGrammar.ReadArray(features, document, current, depth, 0, End);
      ghost var arr := End;
      while true
        invariant Valid() && old(current) <= current && errors == old(errors)
        invariant |nodes| == depth && below == old(nodes)[..depth - 1] && nodes == below + [Array(arr)]
        invariant goal == JsonGrammar.ReadArray(features, document, current, depth, index, arr)
        decreases |document| - current
      {
        flow := ReadChild(Index(index));
        if flow == Exception { return; }
        index := index + 1;
        arr := nodes[depth - 1].elements;
        if !flow.ok {
          var _ := RecoverFromError(ArrayEnd);
          return Returned(false);
        }
        var tail := ReadElementTail();
        if tail.TailError? { return Returned(false); }
        if tail.Finished? { break; }
      }
      return Returned(true);
    }

    method ReadElementTail() returns (tail: Tail)
      requires Valid()
      modifies this`current, this`errors
      ensures Valid() && tail == ElementTail(features, document, old(current)) && current == tail.pos
      ensures errors == old(errors) + if tail.TailError? then [tail.err] else []
    {
      hide JsonLexer.ReadToken, Recover;
      var token := ReadToken();
      token := SkipToNonComment(token);
      if token.typ != ArraySeparator && token.typ != ArrayEnd {
        var _ := AddErrorAndRecover(MissingCommaOrBracket(token), ArrayEnd);
        return TailError(current, MissingCommaOrBracket(token));
      }
      if token.typ == ArrayEnd { return Finished(current); }
      return More(current);
    }

    method Good() returns (good: bool)
      ensures good == (errors == [])
    {
      good := |errors| == 0;
    }

    /** `parse`: for every byte string it ends, by an exception or by returning; it returns true
        exactly when no error is recorded, and the node stack then holds the root alone. */
    method Parse(text: Bytes, root: Value) returns (flow: Flow)
      modifies this
      ensures JsonGrammar.Parse(features, text, root).ParseThrown? <==> flow == Exception
      ensures flow.Returned? ==> Valid() && nodes == [JsonGrammar.Parse(features, text, root).root]
      ensures flow.Returned? ==> errors == JsonGrammar.Parse(features, text, root).errors
      ensures flow.Returned? ==> (flow.ok <==> errors == [])
    {
      hide JsonLexer.ReadToken, NextToken, FirstToken, ScalarOutcome, JsonGrammar.ReadValue, EndErrors;
      document, current, errors := text, 0, [];
      nodes := [];
      nodes := nodes + [root];
      flow := ReadValue();
      if flow == Exception { return; }
      var token := SkipCommentTokens();
      var clean := CheckEnd(token);
      if !clean { return Returned(false); }
    }

    /** The checks of `parse` after the value has been read. */
    method CheckEnd(token: Token) returns (clean: bool)
      requires Valid() && |nodes| == 1
      modifies this`errors
      ensures errors == old(errors) + EndErrors(features, token, nodes[0])
      ensures clean <==> EndErrors(features, token, nodes[0]) == []
    {
      if features.failIfExtra {
        if (features.strictRoot || token.typ != ErrorToken) && token.typ != EndOfStream {
          clean := AddError(ExtraText(token));
          return;
        }
      }
      if features.strictRoot {
        if !nodes[0].Array? && !nodes[0].Object? {
          clean := AddError(RootNotContainer);
          return;
        }
      }
      clean := true;
    }
  }
}
