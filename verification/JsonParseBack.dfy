/** What becomes of any text that lays out the tokens of a value: it parses to that value, re-read, or
    is refused for its depth or for a name that comes twice. */
module JsonParseBack {
  import opened Bytes
  import opened JsonString
  import opened JsonNumber
  import opened JsonValue
  import opened JsonArray
  import opened JsonLexer
  import opened JsonGrammar
  import opened JsonTokens
  import opened JsonScan

  // ---------------------------------------------------------------- the value that comes back

  /** A byte string that can be decoded again after quoting; every UTF-8 text is one. */
  predicate Survives(b: Bytes) { DecodeFrom(QuoteBody(b, 0), 0).Good? }

  function RereadText(b: Bytes): Bytes {
    match DecodeFrom(QuoteBody(b, 0), 0)
    case Good(t) => t
    case Bad(_) => []
  }

  function NumberAsValue(n: Number): Value {
    match n
    case TaggedInt(i) => Int(i)
    case TaggedUInt(u) => UInt(u)
    case DoublePath => Null
  }

  /** The value read back: integers retagged, strings and names re-read, array holes filled with
      null, members put in order again under their re-read names. */
  function Reread(v: Value): Value {
    match v
    case Int(i) => NumberAsValue(Retagged(i))
    case UInt(u) => NumberAsValue(Retagged(u))
    case Str(s) => Str(RereadText(s))
    case Array(e) => Array(RereadElements(e, 0, Size(e), End))
    case Object(e) => Object(RereadMembers(e, End))
    case _ => v
  }

  function RereadElement(e: Entries, i: nat): Value
    decreases e, 0
  {
    match Find(e, Index(i))
    case None => Null
    case Some(v) => Reread(v)
  }

  function RereadElements(e: Entries, i: nat, n: nat, acc: Entries): Entries
    decreases e, n - i
  {
    if i >= n then acc else RereadElements(e, i + 1, n, Put(acc, Index(i), RereadElement(e, i)))
  }

  function RereadMembers(e: Entries, acc: Entries): Entries {
    if e.End? then acc
    else RereadMembers(e.rest, Put(acc, Name(RereadText(KeyText(e.key))), Reread(e.value)))
  }

  // ---------------------------------------------------------------- what is demanded of the value

  function Max(a: nat, b: nat): nat { if a < b then b else a }

  /** The nesting depth; a scalar has depth one. */
  function Height(v: Value): (h: nat)
    ensures h >= 1
  {
    match v
    case Array(e) => 1 + EntriesHeight(e)
    case Object(e) => 1 + EntriesHeight(e)
    case _ => 1
  }

  function EntriesHeight(e: Entries): nat { if e.End? then 0 else Max(Height(e.value), EntriesHeight(e.rest)) }

  /** Real-free, with readable strings and names, and names short enough for the reader. */
  predicate Readable(v: Value) {
    match v
    case Real(_) => false
    case Int(i) => MIN_LARGEST_INT <= i <= MAX_LARGEST_INT
    case UInt(u) => 0 <= u <= MAX_LARGEST_UINT
    case Str(s) => Survives(s)
    case Array(e) => AllReadable(e)
    case Object(e) => AllReadable(e) && NamesReadable(e)
    case _ => true
  }

  predicate AllReadable(e: Entries) { e.Entry? ==> Readable(e.value) && AllReadable(e.rest) }

  predicate NamesReadable(e: Entries) {
    e.Entry? ==>
      Survives(KeyText(e.key)) && |RereadText(KeyText(e.key))| < MAX_KEY_LENGTH && NamesReadable(e.rest)
  }

  /** No two members of one object have the same name once re-read. */
  predicate NoClash(v: Value) {
    match v
    case Array(e) => AllNoClash(e)
    case Object(e) => AllNoClash(e) && NamesDiffer(e, {})
    case _ => true
  }

  predicate AllNoClash(e: Entries) { e.Entry? ==> NoClash(e.value) && AllNoClash(e.rest) }

  predicate NamesDiffer(e: Entries, seen: set<Bytes>) {
    e.Entry? ==>
      RereadText(KeyText(e.key)) !in seen && NamesDiffer(e.rest, seen + {RereadText(KeyText(e.key))})
  }

  predicate Fits(f: Features, depth: nat, v: Value) {
    Readable(v) && depth + Height(v) - 1 <= f.stackLimit && (f.rejectDupKeys ==> NoClash(v))
  }

  predicate AllFit(f: Features, depth: nat, e: Entries) {
    AllReadable(e) && depth + EntriesHeight(e) - 1 <= f.stackLimit && (f.rejectDupKeys ==> AllNoClash(e))
  }

  lemma {:induction false} FoundFits(f: Features, depth: nat, e: Entries, k: Key)
    requires AllFit(f, depth, e) && Find(e, k).Some?
    ensures Fits(f, depth, Find(e, k).value)
  {
    if e.key != k { FoundFits(f, depth, e.rest, k); }
  }

  lemma {:induction false} FoundReadable(e: Entries, k: Key)
    requires AllReadable(e) && Find(e, k).Some?
    ensures Readable(Find(e, k).value)
  {
    if e.key != k { FoundReadable(e.rest, k); }
  }

  // ---------------------------------------------------------------- what is met first

  datatype Fate = Read | TooDeep | Duplicate

  /** What a reader with `depth` values on its stack meets first in the text of a value: a value too deep
      in it, a name that comes twice where that is refused, or neither. */
  function FateOf(f: Features, depth: nat, v: Value): Fate
    decreases v
  {
    if depth > f.stackLimit then TooDeep
    else
      match v
      case Array(e) => ElementsFate(f, depth + 1, e, 0, Size(e))
      case Object(e) => MembersFate(f, depth + 1, e, {})
      case _ => Read
  }

  function ElementFate(f: Features, depth: nat, e: Entries, i: nat): Fate
    decreases e, 0
  {
    match Find(e, Index(i))
    case None => FateOfHole(f, depth)
    case Some(v) => FateOf(f, depth, v)
  }

  function FateOfHole(f: Features, depth: nat): Fate { if depth > f.stackLimit then TooDeep else Read }

  function ElementsFate(f: Features, depth: nat, e: Entries, i: nat, n: nat): Fate
    decreases e, n - i
  {
    if i >= n then Read
    else if ElementFate(f, depth, e, i) != Read then ElementFate(f, depth, e, i)
    else ElementsFate(f, depth, e, i + 1, n)
  }

  function MembersFate(f: Features, depth: nat, e: Entries, seen: set<Bytes>): Fate
    decreases e
  {
    if e.End? then Read
    else
      var name := RereadText(KeyText(e.key));
      if f.rejectDupKeys && name in seen then Duplicate
      else if FateOf(f, depth, e.value) != Read then FateOf(f, depth, e.value)
      else MembersFate(f, depth, e.rest, seen + {name})
  }

  lemma {:induction false} FitsIsRead(f: Features, depth: nat, v: Value)
    requires Fits(f, depth, v)
    ensures FateOf(f, depth, v) == Read
    decreases v, 1
  {
    match v {
      case Array(e) => ElementsFitRead(f, depth + 1, e, 0, Size(e));
      case Object(e) => MembersFitRead(f, depth + 1, e, {});
      case _ =>
    }
  }

  lemma {:induction false} ElementsFitRead(f: Features, depth: nat, e: Entries, i: nat, n: nat)
    requires AllFit(f, depth, e) && n <= Size(e)
    ensures ElementsFate(f, depth, e, i, n) == Read
    decreases e, n - i
  {
    if i < n {
      if Find(e, Index(i)).Some? {
        FoundFits(f, depth, e, Index(i));
        FitsIsRead(f, depth, Find(e, Index(i)).value);
      }
      ElementsFitRead(f, depth, e, i + 1, n);
    }
  }

  lemma {:induction false} MembersFitRead(f: Features, depth: nat, e: Entries, seen: set<Bytes>)
    requires AllFit(f, depth, e) && (f.rejectDupKeys ==> NamesDiffer(e, seen))
    ensures MembersFate(f, depth, e, seen) == Read
    decreases e, 0
  {
    if e.Entry? {
      FitsIsRead(f, depth, e.value);
      MembersFitRead(f, depth, e.rest, seen + {RereadText(KeyText(e.key))});
    }
  }

  // ---------------------------------------------------------------- the main induction

  /** Reading at `p` gives `v` without an error and leaves the tokens `rest`. */
  ghost predicate ReadsTo(r: Outcome, s: Bytes, v: Value, rest: seq<Bytes>) {
    r.Done? && r.err == None && r.value == v && r.pos <= |s| && SpacedAt(s, r.pos, rest)
  }

  /** Reading ends as `fate` says. */
  ghost predicate EndsAs(r: Outcome, fate: Fate, s: Bytes, v: Value, rest: seq<Bytes>) {
    match fate
    case Read => ReadsTo(r, s, v, rest)
    case TooDeep => r.Thrown?
    case Duplicate => r.Done? && r.err.Some? && r.err.value.DuplicateKey?
  }

  lemma ScalarReads(f: Features, s: Bytes, p: nat, depth: nat, cur: Value, v: Value, rest: seq<Bytes>)
    requires p <= |s| && SpacedAt(s, p, Tokens(v) + rest) && Follows(rest)
    requires Readable(v) && !v.Array? && !v.Object? && depth <= f.stackLimit
    ensures ReadsTo(ReadValue(f, s, p, depth, cur), s, Reread(v), rest)
  {
    hide JsonLexer.ReadToken, NextToken, SpacedAt, IntegerText, Quoted, DecodeFrom, QuoteBody, IntegerMeaning;
    assert Tokens(v) == [Tokens(v)[0]];
    match v {
      case Null => LexWord(f, s, p, NULL_TEXT, rest);
      case Bool(b) => LexWord(f, s, p, if b then TRUE_TEXT else FALSE_TEXT, rest);
      case Int(i) => LexInteger(f, s, p, i, rest); IntegerRoundTrip(i);
      case UInt(u) => LexInteger(f, s, p, u, rest); IntegerRoundTrip(u);
      case Str(t) => LexString(f, s, p, t, rest);
    }
    SameFirstToken(f, s, p);
  }

  /** For every value with readable strings, at any position and depth: reading ends as its fate says. */
  lemma {:induction false} ValueReads(f: Features, s: Bytes, p: nat, depth: nat, cur: Value, v: Value, rest: seq<Bytes>)
    requires p <= |s| && SpacedAt(s, p, Tokens(v) + rest) && Follows(rest) && Readable(v)
    ensures EndsAs(ReadValue(f, s, p, depth, cur), FateOf(f, depth, v), s, Reread(v), rest)
    decreases v, 1
  {
    if depth > f.stackLimit {
    } else if v.Array? {
      WholeArrayReads(f, s, p, depth, cur, v.elements, rest);
    } else if v.Object? {
      WholeObjectReads(f, s, p, depth, cur, v.members, rest);
    } else {
      ScalarReads(f, s, p, depth, cur, v, rest);
    }
  }

  lemma {:induction false} WholeArrayReads(f: Features, s: Bytes, p: nat, depth: nat, cur: Value, e: Entries, rest: seq<Bytes>)
    requires p <= |s| && SpacedAt(s, p, Tokens(Array(e)) + rest) && Follows(rest) && AllReadable(e) && depth <= f.stackLimit
    ensures EndsAs(ReadValue(f, s, p, depth, cur), FateOf(f, depth, Array(e)), s, Reread(Array(e)), rest)
    decreases e, Size(e) + 2
  {
    hide JsonLexer.ReadToken, NextToken, FirstToken, SpacedAt, ElementTokens, Size, ElementsFate, ReadArray, RereadElements, SkipSpaces;
    hide ScalarOutcome, AllReadable, ReadObject;
    var n := Size(e);
    var body := ElementTokens(e, 0, n) + ([[RBRACKET]] + rest);
    assert Tokens(Array(e)) + rest == [[LBRACKET]] + body;
    LexPunctuation(f, s, p, LBRACKET, body);
    SameFirstToken(f, s, p);
    ArrayReads(f, s, ReadToken(f, s, p).end, depth, e, rest);
    if n == 0 { EmptyArray(f, depth + 1, e); }
  }

  lemma {:induction false} WholeObjectReads(f: Features, s: Bytes, p: nat, depth: nat, cur: Value, e: Entries, rest: seq<Bytes>)
    requires p <= |s| && SpacedAt(s, p, Tokens(Object(e)) + rest) && depth <= f.stackLimit
    requires AllReadable(e) && NamesReadable(e)
    ensures EndsAs(ReadValue(f, s, p, depth, cur), FateOf(f, depth, Object(e)), s, Reread(Object(e)), rest)
    decreases e, 2
  {
    hide JsonLexer.ReadToken, NextToken, FirstToken, SpacedAt, MemberTokens, MembersFate, ReadObject, RereadMembers, ReadArray, SkipSpaces;
    hide ScalarOutcome, EndsAs, AllReadable, NamesReadable, Quoted, Follows;
    var body := MemberTokens(e, true) + ([[RBRACE]] + rest);
    assert Tokens(Object(e)) + rest == [[LBRACE]] + body;
    LexPunctuation(f, s, p, LBRACE, body);
    SameFirstToken(f, s, p);
    ObjectReads(f, s, ReadToken(f, s, p).end, depth, e, rest);
  }

  lemma EmptyArray(f: Features, depth: nat, e: Entries)
    ensures ElementsFate(f, depth, e, 0, 0) == Read && RereadElements(e, 0, 0, End) == End
  {}

  /** A value that fits is read. */
  lemma ValueReadsBack(f: Features, s: Bytes, p: nat, depth: nat, cur: Value, v: Value, rest: seq<Bytes>)
    requires p <= |s| && SpacedAt(s, p, Tokens(v) + rest) && Follows(rest) && Fits(f, depth, v)
    ensures ReadsTo(ReadValue(f, s, p, depth, cur), s, Reread(v), rest)
  {
    FitsIsRead(f, depth, v);
    ValueReads(f, s, p, depth, cur, v, rest);
  }

  /** After the opening bracket. */
  lemma {:induction false} ArrayReads(f: Features, s: Bytes, p: nat, depth: nat, e: Entries, rest: seq<Bytes>)
    requires p <= |s| && AllReadable(e) && Follows(rest)
    requires SpacedAt(s, p, ElementTokens(e, 0, Size(e)) + ([[RBRACKET]] + rest))
    ensures var q := SkipSpaces(s, p);
            if q < |s| && s[q] == RBRACKET then Size(e) == 0 && SpacedAt(s, q + 1, rest)
            else EndsAs(ReadArray(f, s, q, depth, 0, End), ElementsFate(f, depth + 1, e, 0, Size(e)), s,
                        Array(RereadElements(e, 0, Size(e), End)), rest)
    decreases e, Size(e) + 1
  {
    hide ReadArray, RereadElements, ReadsTo, EndsAs, ElementsFate, OneElement, AllReadable, SkipSpaces, SpacedAt, Size;
    var q, n := SkipSpaces(s, p), Size(e);
    if n == 0 {
      assert ElementTokens(e, 0, n) + ([[RBRACKET]] + rest) == [[RBRACKET]] + rest;
      SpacedHead(s, p, [RBRACKET], rest);
      AtIndex(s, q, [RBRACKET], 0);
    } else {
      var after := ElementTokens(e, 1, n) + ([[RBRACKET]] + rest);
      assert ElementTokens(e, 0, n) + ([[RBRACKET]] + rest) == OneElement(e, 0) + after;
      NoBracketFirst(e, s, p, after);
      SkippedFirst(s, q, p, OneElement(e, 0) + after);
      ElementsRead(f, s, q, depth, e, 0, n, End, rest);
    }
  }

  lemma NoBracketFirst(e: Entries, s: Bytes, p: nat, after: seq<Bytes>)
    requires AllReadable(e) && p <= |s| && SpacedAt(s, p, OneElement(e, 0) + after)
    ensures var q := SkipSpaces(s, p); q < |s| && s[q] != RBRACKET
  {
    var first := OneElement(e, 0)[0];
    var v := ValueOr(Find(e, Index(0)));
    if Find(e, Index(0)).Some? { FoundReadable(e, Index(0)); }
    FirstCharacter(v);
    AtIndex(s, SkipSpaces(s, p), first, 0);
  }

  lemma FirstCharacter(v: Value)
    requires Readable(v)
    ensures Tokens(v)[0] != [] && Tokens(v)[0][0] != RBRACKET
  {
    match v {
      case Int(i) => IntegerShape(i);
      case UInt(u) => IntegerShape(u);
      case _ =>
    }
  }

  lemma ElementTailBack(f: Features, s: Bytes, p: nat, c: byte, after: seq<Bytes>)
    requires p <= |s| && SpacedAt(s, p, [[c]] + after) && (c == COMMA || c == RBRACKET)
    ensures var t := ElementTail(f, s, p);
            (if c == COMMA then t.More? else t.Finished?) && t.pos <= |s| && SpacedAt(s, t.pos, after)
  {
    hide JsonLexer.ReadToken, SpacedAt;
    LexPunctuation(f, s, p, c, after);
    SameFirstToken(f, s, p);
  }

  /** At the start of a round of `readArray`. */
  lemma {:induction false} ElementsRead(f: Features, s: Bytes, p: nat, depth: nat, e: Entries, i: nat, n: nat, acc: Entries, rest: seq<Bytes>)
    requires p <= |s| && AllReadable(e) && Follows(rest) && i < n <= Size(e)
    requires SpacedAt(s, p, OneElement(e, i) + (ElementTokens(e, i + 1, n) + ([[RBRACKET]] + rest)))
    ensures EndsAs(ReadArray(f, s, p, depth, i, acc), ElementsFate(f, depth + 1, e, i, n), s, Array(RereadElements(e, i, n, acc)), rest)
    decreases e, n - i
  {
    hide ElementTail, ReadValue, SpacedAt, Size, Tokens, AllReadable, OneElement, RereadElement, ElementFate;
    var after := ElementTokens(e, i + 1, n) + ([[RBRACKET]] + rest);
    var cur := ValueOr(Find(acc, Index(i)));
    ElementReads(f, s, p, depth, e, i, n, cur, after);
    if ElementFate(f, depth + 1, e, i) == Read {
      var r := ReadValue(f, s, p, depth + 1, cur);
      var acc' := Put(acc, Index(i), RereadElement(e, i));
      if i + 1 < n {
        var next := OneElement(e, i + 1) + (ElementTokens(e, i + 2, n) + ([[RBRACKET]] + rest));
        assert after == [[COMMA]] + next;
        ElementTailBack(f, s, r.pos, COMMA, next);
        ElementsRead(f, s, ElementTail(f, s, r.pos).pos, depth, e, i + 1, n, acc', rest);
      } else {
        assert after == [[RBRACKET]] + rest;
        ElementTailBack(f, s, r.pos, RBRACKET, rest);
      }
    }
  }

  lemma {:induction false} ElementReads(f: Features, s: Bytes, p: nat, depth: nat, e: Entries, i: nat, n: nat, cur: Value, after: seq<Bytes>)
    requires p <= |s| && AllReadable(e) && i < n <= Size(e) && Follows(after)
    requires SpacedAt(s, p, OneElement(e, i) + after)
    ensures EndsAs(ReadValue(f, s, p, depth + 1, cur), ElementFate(f, depth + 1, e, i), s, RereadElement(e, i), after)
    decreases e, 0
  {
    hide JsonLexer.ReadToken, NextToken, SpacedAt, Size, AllReadable, FirstToken, ReadArray, ReadObject, ScalarOutcome;
    match Find(e, Index(i)) {
      case None => if depth + 1 <= f.stackLimit { ScalarReads(f, s, p, depth + 1, cur, Null, after); }
      case Some(v) =>
        FoundReadable(e, Index(i));
        ValueReads(f, s, p, depth + 1, cur, v, after);
    }
  }

  // ---------------------------------------------------------------- objects

  lemma MemberHeadBack(f: Features, s: Bytes, p: nat, name: Bytes, acc: Entries, key: Bytes, after: seq<Bytes>)
    requires p <= |s| && SpacedAt(s, p, [Quoted(key)] + ([[COLON]] + after))
    requires Survives(key) && |RereadText(key)| < MAX_KEY_LENGTH
    ensures var h := MemberHead(f, s, p, name, acc);
            if f.rejectDupKeys && Find(acc, Name(RereadText(key))).Some? then h.HeadError? && h.err.DuplicateKey?
            else h.Member? && h.name == RereadText(key) && h.pos <= |s| && SpacedAt(s, h.pos, after)
  {
    hide JsonLexer.ReadToken, NextToken, SpacedAt, Quoted, DecodeFrom, QuoteBody;
    LexString(f, s, p, key, [[COLON]] + after);
    SameFirstToken(f, s, p);
    LexPunctuation(f, s, JsonLexer.ReadToken(f, s, p).end, COLON, after);
  }

  lemma MemberTailBack(f: Features, s: Bytes, p: nat, c: byte, after: seq<Bytes>)
    requires p <= |s| && SpacedAt(s, p, [[c]] + after) && (c == COMMA || c == RBRACE)
    ensures var t := MemberTail(f, s, p);
            (if c == COMMA then t.More? else t.Finished?) && t.pos <= |s| && SpacedAt(s, t.pos, after)
  {
    hide JsonLexer.ReadToken, SpacedAt;
    LexPunctuation(f, s, p, c, after);
    SameFirstToken(f, s, p);
  }

  lemma EmptyObjectBack(f: Features, s: Bytes, p: nat, rest: seq<Bytes>)
    requires p <= |s| && SpacedAt(s, p, [[RBRACE]] + rest)
    ensures var h := MemberHead(f, s, p, [], End); h.Closed? && h.pos <= |s| && SpacedAt(s, h.pos, rest)
  {
    hide JsonLexer.ReadToken, SpacedAt;
    LexPunctuation(f, s, p, RBRACE, rest);
    SameFirstToken(f, s, p);
  }

  lemma {:induction false} PutFind(e: Entries, k: Key, v: Value, j: Key)
    ensures Find(Put(e, k, v), j).Some? <==> j == k || Find(e, j).Some?
  {
    if e.Entry? { PutFind(e.rest, k, v, j); }
  }

  ghost predicate NamesAre(acc: Entries, seen: set<Bytes>) {
    forall k :: Find(acc, Name(k)).Some? <==> k in seen
  }

  lemma NamesAfterPut(acc: Entries, seen: set<Bytes>, key: Bytes, v: Value)
    requires NamesAre(acc, seen)
    ensures NamesAre(Put(acc, Name(key), v), seen + {key})
  {
    forall k ensures Find(Put(acc, Name(key), v), Name(k)).Some? <==> k in seen + {key} {
      PutFind(acc, Name(key), v, Name(k));
    }
  }

  /** At the start of a round of `readObject`. */
  lemma {:induction false} MembersRead(f: Features, s: Bytes, p: nat, depth: nat, name: Bytes, acc: Entries, e: Entries, seen: set<Bytes>, rest: seq<Bytes>)
    requires p <= |s| && e.Entry? && AllReadable(e) && NamesReadable(e) && NamesAre(acc, seen)
    requires SpacedAt(s, p, MemberTokens(e, true) + ([[RBRACE]] + rest))
    ensures EndsAs(ReadObject(f, s, p, depth, name, acc), MembersFate(f, depth + 1, e, seen), s, Object(RereadMembers(e, acc)), rest)
    decreases e, 0
  {
    hide JsonLexer.ReadToken, NextToken, ReadValue, SpacedAt, Tokens, Survives, RereadText, MemberHead, MemberTail, Quoted, FateOf;
    var key, tail := KeyText(e.key), MemberTokens(e.rest, false) + ([[RBRACE]] + rest);
    assert MemberTokens(e, true) + ([[RBRACE]] + rest) == [Quoted(key)] + ([[COLON]] + (Tokens(e.value) + tail));
    MemberHeadBack(f, s, p, name, acc, key, Tokens(e.value) + tail);
    var h := MemberHead(f, s, p, name, acc);
    if h.Member? {
      var cur := ValueOr(Find(acc, Name(h.name)));
      FollowsMember(e.rest, rest);
      ValueReads(f, s, h.pos, depth + 1, cur, e.value, tail);
      if FateOf(f, depth + 1, e.value) == Read {
        MembersGoOn(f, s, ReadValue(f, s, h.pos, depth + 1, cur).pos, depth, h.name, acc, e, seen, rest);
      }
    }
  }

  /** After a member was read. */
  lemma {:induction false} MembersGoOn(f: Features, s: Bytes, p: nat, depth: nat, name: Bytes, acc: Entries, e: Entries, seen: set<Bytes>, rest: seq<Bytes>)
    requires p <= |s| && e.Entry? && AllReadable(e) && NamesReadable(e) && NamesAre(acc, seen) && name == RereadText(KeyText(e.key))
    requires SpacedAt(s, p, MemberTokens(e.rest, false) + ([[RBRACE]] + rest))
    ensures var t, acc' := MemberTail(f, s, p), Put(acc, Name(name), Reread(e.value));
            if t.More? then
              EndsAs(ReadObject(f, s, t.pos, depth, name, acc'), MembersFate(f, depth + 1, e.rest, seen + {name}), s,
                     Object(RereadMembers(e, acc)), rest)
            else t.Finished? && e.rest.End? && t.pos <= |s| && SpacedAt(s, t.pos, rest)
    decreases e.rest, 1
  {
    hide JsonLexer.ReadToken, NextToken, ReadObject, SpacedAt, Tokens, MemberTokens, RereadText, KeyText, MemberTail, MembersFate, EndsAs;
    hide AllReadable, NamesReadable, NamesAre, RereadMembers, Put, Quoted, SkipSpaces;
    MembersUnfold(e, acc, rest);
    if e.rest.End? {
      MemberTailBack(f, s, p, RBRACE, rest);
    } else {
      MemberTailBack(f, s, p, COMMA, MemberTokens(e.rest, true) + ([[RBRACE]] + rest));
      var acc' := Put(acc, Name(name), Reread(e.value));
      NamesAfterPut(acc, seen, name, Reread(e.value));
      MembersRead(f, s, MemberTail(f, s, p).pos, depth, name, acc', e.rest, seen + {name}, rest);
    }
  }

  /** What the definitions say of the members behind the first. */
  lemma MembersUnfold(e: Entries, acc: Entries, rest: seq<Bytes>)
    requires e.Entry?
    ensures MemberTokens(e.rest, false) + ([[RBRACE]] + rest) ==
              if e.rest.End? then [[RBRACE]] + rest else [[COMMA]] + (MemberTokens(e.rest, true) + ([[RBRACE]] + rest))
    ensures RereadMembers(e, acc) == RereadMembers(e.rest, Put(acc, Name(RereadText(KeyText(e.key))), Reread(e.value)))
    ensures AllReadable(e) && NamesReadable(e) ==> AllReadable(e.rest) && NamesReadable(e.rest)
  {
    hide Tokens, Quoted, RereadText, KeyText, Readable, Survives;
  }

  lemma FollowsMember(e: Entries, rest: seq<Bytes>)
    ensures Follows(MemberTokens(e, false) + ([[RBRACE]] + rest))
  {
    hide Tokens, Quoted;
  }

  /** After the opening brace. */
  lemma {:induction false} ObjectReads(f: Features, s: Bytes, p: nat, depth: nat, e: Entries, rest: seq<Bytes>)
    requires p <= |s| && AllReadable(e) && NamesReadable(e)
    requires SpacedAt(s, p, MemberTokens(e, true) + ([[RBRACE]] + rest))
    ensures EndsAs(ReadObject(f, s, p, depth, [], End), MembersFate(f, depth + 1, e, {}), s, Object(RereadMembers(e, End)), rest)
    decreases e, 1
  {
    hide JsonLexer.ReadToken, NextToken, ReadValue, SpacedAt, Tokens, MemberHead, Quoted;
    if e.End? {
      assert MemberTokens(e, true) + ([[RBRACE]] + rest) == [[RBRACE]] + rest;
      EmptyObjectBack(f, s, p, rest);
    } else {
      assert NamesAre(End, {});
      MembersRead(f, s, p, depth, [], End, e, {}, rest);
    }
  }
}
