/** What `OurReader` makes of a document: its three mutually recursive readers as functions of the
    cursor. `err` is empty exactly when the C++ function returns true. */
module JsonGrammar {
  import opened Bytes
  import opened JsonString
  import opened JsonNumber
  import opened JsonValue
  import opened JsonLexer

  datatype Error =
    | ValueExpected(token: Token)
    | BadString(why: StringError, token: Token)
    | NotANumber(token: Token)
    | MissingColon(token: Token)
    | DuplicateKey(token: Token)
    | MissingCommaOrBrace(token: Token)
    | MissingBraceOrName(token: Token)
    | MissingCommaOrBracket(token: Token)
    | ExtraText(token: Token)
    | RootNotContainer

  /** `Thrown` is the exception for too deep a nesting or too long a key. Otherwise: the current
      value, the cursor, and the error. */
  datatype Outcome = Thrown | Done(value: Value, pos: nat, err: Option<Error>)

  const MAX_KEY_LENGTH: nat := 0x4000_0000

  function TokenText(s: Bytes, t: Token): Bytes
    requires t.start <= t.end <= |s|
  {
    s[t.start..t.end]
  }

  /** `decodeString` of a string token. */
  function StringText(s: Bytes, t: Token): Decoded
    requires t.start + 2 <= t.end <= |s|
  {
    DecodeFrom(s[t.start + 1..t.end - 1], 0)
  }

  /** `decodeNumber` of a number token, with its double path; None if the text is no number. */
  function NumberValue(f: Features, text: Bytes): Option<Value> {
    match IntegerMeaning(text)
    case TaggedInt(i) => Some(Int(i))
    case TaggedUInt(u) => Some(UInt(u))
    case DoublePath => if f.scanReal(text) then Some(Real(text)) else None
  }

  /** `asString` of a number. */
  function NumberName(f: Features, v: Value): Bytes {
    match v
    case Int(i) => IntegerText(i)
    case UInt(u) => IntegerText(u)
    case Real(t) => f.showReal(t)
    case _ => []
  }

  function ValueOr(o: Option<Value>): Value { if o.Some? then o.value else Null }

  /** The scalar a token stands for, if it is a scalar token; `cur` is the value kept on error. */
  function ScalarOutcome(f: Features, s: Bytes, t: Token, cur: Value): (r: Outcome)
    requires t.start <= t.end <= |s| && (t.typ == StringToken ==> t.start + 2 <= t.end)
    ensures r.Done? && r.pos == t.end
    ensures r.err.None? ==> t.typ != EndOfStream
  {
    match t.typ
    case NumberToken =>
      (match NumberValue(f, TokenText(s, t))
       case Some(v) => Done(v, t.end, None)
       case None => Done(cur, t.end, Some(NotANumber(t))))
    case StringToken =>
      (match StringText(s, t)
       case Good(text) => Done(Str(text), t.end, None)
       case Bad(e) => Done(cur, t.end, Some(BadString(e, t))))
    case TrueToken => Done(Bool(true), t.end, None)
    case FalseToken => Done(Bool(false), t.end, None)
    case NullToken => Done(Null, t.end, None)
    case NaNToken => Done(Real(TokenText(s, t)), t.end, None)
    case PosInf => Done(Real(TokenText(s, t)), t.end, None)
    case NegInf => Done(Real(TokenText(s, t)), t.end, None)
    case _ => Done(cur, t.end, Some(ValueExpected(t)))
  }

  datatype Head = Closed(pos: nat) | HeadError(pos: nat, err: Error) | HeadThrown | Member(name: Bytes, pos: nat)

  /** The start of one round of `readObject`: a member name and its colon, or the end of the object.
      A closing brace ends it only while `name`, the previous key, is empty. */
  function MemberHead(f: Features, s: Bytes, p: nat, name: Bytes, obj: Entries): (h: Head)
    requires p <= |s|
    ensures h.Closed? || h.HeadError? ==> p <= h.pos <= |s|
    ensures h.Closed? || h.Member? ==> p < h.pos <= |s|
  {
    var t := NextToken(f, s, p);
    if t.typ == ObjectEnd && name == [] then Closed(t.end)
    else if t.typ == StringToken then
      match StringText(s, t)
      case Bad(e) => HeadError(Recover(f, s, t.end, ObjectEnd), BadString(e, t))
      case Good(text) => AfterName(f, s, t, text, obj)
    else if t.typ == NumberToken && f.allowNumericKeys then
      match NumberValue(f, TokenText(s, t))
      case None => HeadError(Recover(f, s, t.end, ObjectEnd), NotANumber(t))
      case Some(v) => AfterName(f, s, t, NumberName(f, v), obj)
    else HeadError(Recover(f, s, t.end, ObjectEnd), MissingBraceOrName(t))
  }

  function AfterName(f: Features, s: Bytes, t: Token, name: Bytes, obj: Entries): (h: Head)
    requires t.start <= t.end <= |s|
    ensures !h.Closed?
    ensures h.HeadError? || h.Member? ==> t.end <= h.pos <= |s|
  {
    var colon := ReadToken(f, s, t.end);
    if colon.typ != MemberSeparator then HeadError(Recover(f, s, colon.end, ObjectEnd), MissingColon(colon))
    else if |name| >= MAX_KEY_LENGTH then HeadThrown
    else if f.rejectDupKeys && Find(obj, Name(name)).Some? then
      HeadError(Recover(f, s, colon.end, ObjectEnd), DuplicateKey(t))
    else Member(name, colon.end)
  }

  datatype Tail = Finished(pos: nat) | More(pos: nat) | TailError(pos: nat, err: Error)

  /** The end of one round of `readObject`. Once a comment was seen, any token but a closing brace
      passes for the comma. */
  function MemberTail(f: Features, s: Bytes, p: nat): (t: Tail)
    requires p <= |s|
    ensures p <= t.pos <= |s|
  {
    var comma := ReadToken(f, s, p);
    if comma.typ != ObjectEnd && comma.typ != ArraySeparator && comma.typ != Comment then
      TailError(Recover(f, s, comma.end, ObjectEnd), MissingCommaOrBrace(comma))
    else
      var last := NextToken(f, s, p);
      if last.typ == ObjectEnd then Finished(last.end) else More(last.end)
  }

  /** The end of one round of `readArray`. */
  function ElementTail(f: Features, s: Bytes, p: nat): (t: Tail)
    requires p <= |s|
    ensures p <= t.pos <= |s|
    ensures t.More? || t.Finished? ==> p < t.pos
  {
    var t := NextToken(f, s, p);
    if t.typ == ArraySeparator then More(t.end)
    else if t.typ == ArrayEnd then Finished(t.end)
    else TailError(Recover(f, s, t.end, ArrayEnd), MissingCommaOrBracket(t))
  }

  /** `readValue` with `depth` values on the node stack; `cur` is what the top one held before. */
  function ReadValue(f: Features, s: Bytes, p: nat, depth: nat, cur: Value): (r: Outcome)
    requires p <= |s|
    ensures r.Done? ==> p <= r.pos <= |s|
    ensures r.Done? && r.err.None? ==> p < r.pos
    decreases |s| - p, 0
  {
    if depth > f.stackLimit then Thrown
    else
      var t := FirstToken(f, s, p);
      match t.typ
      case ObjectBegin => ReadObject(f, s, t.end, depth, [], End)
      case ArrayBegin =>
        var q := SkipSpaces(s, t.end);
        if q < |s| && s[q] == RBRACKET then Done(Array(End), q + 1, None)
        else ReadArray(f, s, q, depth, 0, End)
      case _ => ScalarOutcome(f, s, t, cur)
  }

  /** `readObject` from the start of a round: `name` is the previous key, `obj` the members so far. */
  function ReadObject(f: Features, s: Bytes, p: nat, depth: nat, name: Bytes, obj: Entries): (r: Outcome)
    requires p <= |s|
    ensures r.Done? ==> p <= r.pos <= |s|
    decreases |s| - p, 1
  {
    match MemberHead(f, s, p, name, obj)
    case Closed(q) => Done(Object(obj), q, None)
    case HeadError(q, e) => Done(Object(obj), q, Some(e))
    case HeadThrown => Thrown
    case Member(key, q) =>
      match ReadValue(f, s, q, depth + 1, ValueOr(Find(obj, Name(key))))
      case Thrown => Thrown
      case Done(v, q1, err) =>
        var obj' := Put(obj, Name(key), v);
        if err.Some? then Done(Object(obj'), Recover(f, s, q1, ObjectEnd), err)
        else
          match MemberTail(f, s, q1)
          case TailError(q2, e) => Done(Object(obj'), q2, Some(e))
          case Finished(q2) => Done(Object(obj'), q2, None)
          case More(q2) => ReadObject(f, s, q2, depth, key, obj')
  }

  /** `readArray` from the start of a round. */
  function ReadArray(f: Features, s: Bytes, p: nat, depth: nat, index: nat, arr: Entries): (r: Outcome)
    requires p <= |s|
    ensures r.Done? ==> p <= r.pos <= |s|
    decreases |s| - p, 1
  {
    match ReadValue(f, s, p, depth + 1, ValueOr(Find(arr, Index(index))))
    case Thrown => Thrown
    case Done(v, q, err) =>
      var arr' := Put(arr, Index(index), v);
      if err.Some? then Done(Array(arr'), Recover(f, s, q, ArrayEnd), err)
      else
        match ElementTail(f, s, q)
        case TailError(q2, e) => Done(Array(arr'), q2, Some(e))
        case Finished(q2) => Done(Array(arr'), q2, None)
        case More(q2) => ReadArray(f, s, q2, depth, index + 1, arr')
  }

  datatype Parsed = ParseThrown | Parsed(root: Value, errors: seq<Error>)

  function ErrorList(err: Option<Error>): seq<Error> { if err.Some? then [err.value] else [] }

  /** What `parse` adds after the value: text after it, or a root that is no container. */
  function EndErrors(f: Features, t: Token, v: Value): seq<Error> {
    if f.failIfExtra && (f.strictRoot || t.typ != ErrorToken) && t.typ != EndOfStream then [ExtraText(t)]
    else if f.strictRoot && !v.Array? && !v.Object? then [RootNotContainer]
    else []
  }

  /** `OurReader::parse`: the document is accepted when `errors` is empty. */
  function Parse(f: Features, s: Bytes, root: Value): Parsed {
    match ReadValue(f, s, 0, 1, root)
    case Thrown => ParseThrown
    case Done(v, q, err) => Parsed(v, ErrorList(err) + EndErrors(f, FirstToken(f, s, q), v))
  }
}
