/** The language of the reader: a grammar over the tokens of a document, and the proof that the reader accepts
    exactly its sentences, each with the value of its tree. */
module JsonLanguage {
  import opened Bytes
  import opened JsonNumber
  import opened JsonValue
  import opened JsonLexer
  import opened JsonGrammar
  import opened JsonParseBack

  /** All tokens from `p` on, comments included. */
  function Lexed(f: Features, s: Bytes, p: nat): seq<Token>
    requires p <= |s|
    decreases |s| - p
  {
    var t := ReadToken(f, s, p);
    if t.start == |s| then [] else [t] + Lexed(f, s, t.end)
  }

  // ---------------------------------------------------------------- trees

  datatype Tree =
    | Leaf(before: seq<Token>, token: Token)
    | EmptyArray(before: seq<Token>, open: Token, close: Token)
    | FullArray(before: seq<Token>, open: Token, elements: Elements)
    | ObjectTree(before: seq<Token>, open: Token, members: Members)

  datatype Elements =
    | LastElement(value: Tree, gap: seq<Token>, close: Token)
    | NextElement(value: Tree, gap: seq<Token>, comma: Token, others: Elements)

  /** `Closing` is a brace where a member might begin. */
  datatype Members =
    | Closing(before: seq<Token>, close: Token)
    | LastMember(before: seq<Token>, name: Token, colon: Token, value: Tree, gap: seq<Token>, close: Token)
    | NextMember(before: seq<Token>, name: Token, colon: Token, value: Tree, gap: seq<Token>, mark: Token, others: Members)

  function Yield(t: Tree): seq<Token> {
    match t
    case Leaf(before, token) => before + [token]
    case EmptyArray(before, open, close) => before + [open, close]
    case FullArray(before, open, elements) => before + ([open] + ElementsYield(elements))
    case ObjectTree(before, open, members) => before + ([open] + MembersYield(members))
  }

  function ElementsYield(e: Elements): seq<Token> {
    match e
    case LastElement(value, gap, close) => Yield(value) + (gap + [close])
    case NextElement(value, gap, comma, others) => Yield(value) + (gap + ([comma] + ElementsYield(others)))
  }

  function MembersYield(m: Members): seq<Token> {
    match m
    case Closing(before, close) => before + [close]
    case LastMember(before, name, colon, value, gap, close) => before + ([name, colon] + (Yield(value) + (gap + [close])))
    case NextMember(before, name, colon, value, gap, mark, others) =>
      before + ([name, colon] + (Yield(value) + (gap + ([mark] + MembersYield(others)))))
  }

  // ---------------------------------------------------------------- the grammar

  predicate Comments(ts: seq<Token>) { forall i :: 0 <= i < |ts| ==> ts[i].typ == Comment }

  /** The value a token stands for on its own. */
  function LeafValue(f: Features, s: Bytes, t: Token): Option<Value> {
    if !(t.start <= t.end <= |s|) then None
    else
      match t.typ
      case NumberToken => NumberValue(f, TokenText(s, t))
      case StringToken =>
        if t.start + 2 > t.end then None
        else (match StringText(s, t) case Good(b) => Some(Str(b)) case Bad(_) => None)
      case TrueToken => Some(Bool(true))
      case FalseToken => Some(Bool(false))
      case NullToken => Some(Null)
      case NaNToken => Some(Real(TokenText(s, t)))
      case PosInf => Some(Real(TokenText(s, t)))
      case NegInf => Some(Real(TokenText(s, t)))
      case _ => None
  }

  /** The name a token gives a member: a string, or a number where those are allowed. */
  function NameOf(f: Features, s: Bytes, t: Token): Option<Bytes> {
    match LeafValue(f, s, t)
    case Some(Str(b)) => if t.typ == StringToken then Some(b) else None
    case Some(v) => if t.typ == NumberToken && f.allowNumericKeys then Some(NumberName(f, v)) else None
    case None => None
  }

  /** A number names a member by its decimal text if it is an integer that fits 64 bits, and else by what the C
      library prints for it. */
  lemma NumericNamesAre(f: Features, s: Bytes, t: Token)
    requires t.typ == NumberToken && t.start <= t.end <= |s| && f.allowNumericKeys
    ensures var text := s[t.start..t.end];
            NameOf(f, s, t) ==
              match IntegerMeaning(text)
              case TaggedInt(i) => Some(IntegerText(i))
              case TaggedUInt(u) => Some(IntegerText(u))
              case DoublePath => if f.scanReal(text) then Some(f.showReal(text)) else None
  {
    hide IntegerMeaning, IntegerText;
  }

  /** Comments may stand before a value where they are allowed, before a name, a separator or a closing mark
      always. */
  predicate Sentence(f: Features, s: Bytes, t: Tree, depth: nat) {
    depth <= f.stackLimit && Comments(t.before) && (t.before != [] ==> f.allowComments)
    && match t
       case Leaf(_, token) => LeafValue(f, s, token).Some?
       case EmptyArray(_, open, close) => open.typ == ArrayBegin && close.typ == ArrayEnd
       case FullArray(_, open, elements) => open.typ == ArrayBegin && ElementsSentence(f, s, elements, depth + 1)
       case ObjectTree(_, open, members) => open.typ == ObjectBegin && MembersSentence(f, s, members, depth + 1, [], {})
  }

  predicate ElementsSentence(f: Features, s: Bytes, e: Elements, depth: nat) {
    Sentence(f, s, e.value, depth) && Comments(e.gap)
    && match e
       case LastElement(_, _, close) => close.typ == ArrayEnd
       case NextElement(_, _, comma, others) => comma.typ == ArraySeparator && ElementsSentence(f, s, others, depth)
  }

  predicate Named(f: Features, s: Bytes, name: Token, colon: Token, seen: set<Bytes>) {
    && NameOf(f, s, name).Some? && colon.typ == MemberSeparator
    && |NameOf(f, s, name).value| < MAX_KEY_LENGTH && (f.rejectDupKeys ==> NameOf(f, s, name).value !in seen)
  }

  /** `last` is the name before; only after an empty one may the brace close where a member might begin. Between
      members stands a comma, or behind a comment any other token. */
  predicate MembersSentence(f: Features, s: Bytes, m: Members, depth: nat, last: Bytes, seen: set<Bytes>) {
    Comments(m.before)
    && match m
       case Closing(_, close) => close.typ == ObjectEnd && last == []
       case LastMember(_, name, colon, value, gap, close) =>
         && Named(f, s, name, colon, seen) && Sentence(f, s, value, depth) && Comments(gap) && close.typ == ObjectEnd
       case NextMember(_, name, colon, value, gap, mark, others) =>
         && Named(f, s, name, colon, seen) && Sentence(f, s, value, depth) && Comments(gap)
         && mark.typ != ObjectEnd && mark.typ != Comment && (gap == [] ==> mark.typ == ArraySeparator)
         && MembersSentence(f, s, others, depth, NameOf(f, s, name).value, seen + {NameOf(f, s, name).value})
  }

  // ---------------------------------------------------------------- the value of a tree

  function TreeValue(f: Features, s: Bytes, t: Tree): Value {
    match t
    case Leaf(_, token) => ValueOr(LeafValue(f, s, token))
    case EmptyArray(_, _, _) => Array(End)
    case FullArray(_, _, elements) => Array(ElementsValue(f, s, elements, 0, End))
    case ObjectTree(_, _, members) => Object(MembersValue(f, s, members, End))
  }

  function ElementsValue(f: Features, s: Bytes, e: Elements, i: nat, acc: Entries): Entries {
    var more := Put(acc, Index(i), TreeValue(f, s, e.value));
    match e
    case LastElement(_, _, _) => more
    case NextElement(_, _, _, others) => ElementsValue(f, s, others, i + 1, more)
  }

  function MembersValue(f: Features, s: Bytes, m: Members, acc: Entries): Entries {
    if m.Closing? then acc
    else
      var name := NameOf(f, s, m.name);
      var more := Put(acc, Name(if name.Some? then name.value else []), TreeValue(f, s, m.value));
      if m.LastMember? then more else MembersValue(f, s, m.others, more)
  }

  // ---------------------------------------------------------------- tokens one by one

  /** The comments in front, and the first token behind them. */
  function Skipped(f: Features, s: Bytes, p: nat): seq<Token>
    requires p <= |s|
    decreases |s| - p
  {
    var t := ReadToken(f, s, p);
    if t.typ == Comment then [t] + Skipped(f, s, t.end) else []
  }

  lemma FirstIs(f: Features, s: Bytes, p: nat)
    requires p <= |s| && ReadToken(f, s, p).start < |s|
    ensures Lexed(f, s, p) == [ReadToken(f, s, p)] + Lexed(f, s, ReadToken(f, s, p).end)
  {}

  lemma Assoc(a: seq<Token>, b: seq<Token>, c: seq<Token>)
    ensures a + (b + c) == (a + b) + c
  {}

  lemma MoreComments(t: Token, c: seq<Token>)
    requires t.typ == Comment && Comments(c)
    ensures Comments([t] + c)
  {}

  lemma SkippedIs(f: Features, s: Bytes, p: nat)
    requires p <= |s|
    ensures var t := ReadToken(f, s, p);
            Skipped(f, s, p) == if t.typ == Comment then [t] + Skipped(f, s, t.end) else []
    ensures NextToken(f, s, p) == if ReadToken(f, s, p).typ == Comment then NextToken(f, s, ReadToken(f, s, p).end) else ReadToken(f, s, p)
    ensures ReadToken(f, s, p).start == |s| ==> Lexed(f, s, p) == [] && ReadToken(f, s, p).typ == EndOfStream
  {
    hide TokenAt;
  }

  lemma {:induction false} NextIs(f: Features, s: Bytes, p: nat)
    requires p <= |s|
    ensures var (t, c) := (NextToken(f, s, p), Skipped(f, s, p));
            && Comments(c)
            && (t.start < |s| ==> Lexed(f, s, p) == c + ([t] + Lexed(f, s, t.end)))
            && (t.start == |s| ==> Lexed(f, s, p) == c && t.typ == EndOfStream)
            && (c == [] <==> ReadToken(f, s, p).typ != Comment) && (c == [] ==> t == ReadToken(f, s, p))
    decreases |s| - p
  {
    hide Lexed, Skipped, NextToken, JsonLexer.ReadToken, Comments;
    var first := ReadToken(f, s, p);
    SkippedIs(f, s, p);
    assert Comments([]) by { NoComments(); }
    if first.start < |s| { FirstIs(f, s, p); }
    if first.typ == Comment {
      NextIs(f, s, first.end);
      var c, t := Skipped(f, s, first.end), NextToken(f, s, first.end);
      MoreComments(first, c);
      if t.start < |s| { Assoc([first], c, [t] + Lexed(f, s, t.end)); }
    } else if first.start < |s| {
      assert [] + ([first] + Lexed(f, s, first.end)) == [first] + Lexed(f, s, first.end);
    }
  }

  lemma NoComments()
    ensures Comments([])
  {}

  /** What comments and a token in the list say of the text. */
  lemma {:induction false} NextBack(f: Features, s: Bytes, p: nat, c: seq<Token>, t: Token, rest: seq<Token>)
    requires p <= |s| && Lexed(f, s, p) == c + ([t] + rest) && Comments(c) && t.typ != Comment
    ensures NextToken(f, s, p) == t && t.start < |s| && t.start <= t.end <= |s| && Lexed(f, s, t.end) == rest
    ensures c == [] <==> ReadToken(f, s, p).typ != Comment
    ensures c == [] ==> ReadToken(f, s, p) == t
    decreases |c|
  {
    hide TokenAt;
    var all, first := Lexed(f, s, p), ReadToken(f, s, p);
    assert all == [all[0]] + all[1..] && all[0] == first;
    if c == [] {
      assert all == [t] + rest;
      assert all[1..] == rest;
    } else {
      assert all == [c[0]] + (c[1..] + ([t] + rest));
      assert all[1..] == c[1..] + ([t] + rest) && first == c[0];
      NextBack(f, s, first.end, c[1..], t, rest);
    }
  }

  /** A token in the list that stands in front. */
  lemma FirstBack(f: Features, s: Bytes, p: nat, t: Token, rest: seq<Token>)
    requires p <= |s| && Lexed(f, s, p) == [t] + rest
    ensures ReadToken(f, s, p) == t && t.start < |s| && t.start <= t.end <= |s| && Lexed(f, s, t.end) == rest
  {
    hide TokenAt;
    assert Lexed(f, s, p)[0] == t && Lexed(f, s, p)[1..] == rest;
  }

  // ---------------------------------------------------------------- the reader accepts only sentences

  lemma FirstTokenIs(f: Features, s: Bytes, p: nat) returns (c: seq<Token>)
    requires p <= |s|
    ensures var t := FirstToken(f, s, p);
            && Comments(c) && (c != [] ==> f.allowComments)
            && (t.start < |s| ==> Lexed(f, s, p) == c + ([t] + Lexed(f, s, t.end)))
            && (t.start == |s| ==> t.typ == EndOfStream)
  {
    hide TokenAt, NextToken;
    NextIs(f, s, p);
    c := if f.allowComments then Skipped(f, s, p) else [];
    if !f.allowComments && ReadToken(f, s, p).start < |s| { FirstIs(f, s, p); }
  }

  lemma LeafIs(f: Features, s: Bytes, t: Token, cur: Value)
    requires t.start <= t.end <= |s| && (t.typ == StringToken ==> t.start + 2 <= t.end)
    ensures var r := ScalarOutcome(f, s, t, cur);
            && (r.err.None? <==> LeafValue(f, s, t).Some?)
            && (r.err.None? ==> Some(r.value) == LeafValue(f, s, t))
  {
    hide NumberValue, StringText;
  }

  lemma LexedSkips(f: Features, s: Bytes, p: nat)
    requires p <= |s|
    ensures ReadToken(f, s, SkipSpaces(s, p)) == ReadToken(f, s, p)
    ensures Lexed(f, s, SkipSpaces(s, p)) == Lexed(f, s, p)
  {
    hide TokenAt;
    SkipTwice(s, p);
  }

  lemma SkipTwice(s: Bytes, p: nat)
    requires p <= |s|
    ensures SkipSpaces(s, SkipSpaces(s, p)) == SkipSpaces(s, p)
  {}

  lemma BracketIs(f: Features, s: Bytes, p: nat)
    requires p <= |s|
    ensures var q := SkipSpaces(s, p);
            q < |s| && s[q] == RBRACKET <==> ReadToken(f, s, p).typ == ArrayEnd
    ensures ReadToken(f, s, p).typ == ArrayEnd ==> ReadToken(f, s, p) == Token(ArrayEnd, SkipSpaces(s, p), SkipSpaces(s, p) + 1)
  {}

  /** The tokens from `p` to `q` are `ts`. */
  ghost predicate Between(f: Features, s: Bytes, p: nat, q: nat, ts: seq<Token>) {
    p <= |s| && q <= |s| && Lexed(f, s, p) == ts + Lexed(f, s, q)
  }

  /** Comments and an opening token in front of what lies between two places. */
  lemma Opened(f: Features, s: Bytes, p: nat, q: nat, c: seq<Token>, open: Token, inner: seq<Token>)
    requires p <= |s| && open.end <= |s| && Lexed(f, s, p) == c + ([open] + Lexed(f, s, open.end)) && Between(f, s, open.end, q, inner)
    ensures Between(f, s, p, q, c + ([open] + inner))
  {
    hide Lexed;
    assert c + ([open] + (inner + Lexed(f, s, q))) == c + ([open] + inner) + Lexed(f, s, q);
  }

  lemma {:induction false} ReadIsSentence(f: Features, s: Bytes, p: nat, depth: nat, cur: Value) returns (t: Tree)
    requires p <= |s| && ReadValue(f, s, p, depth, cur).Done? && ReadValue(f, s, p, depth, cur).err.None?
    ensures var r := ReadValue(f, s, p, depth, cur);
            Sentence(f, s, t, depth) && Between(f, s, p, r.pos, Yield(t)) && r.value == TreeValue(f, s, t)
    decreases |s| - p, 0
  {
    hide JsonLexer.ReadToken, NextToken, FirstToken, ReadObject, ReadArray, LeafValue, ScalarOutcome, Lexed, SkipSpaces, Between;
    hide ElementsYield, MembersYield, ElementsSentence, MembersSentence, ElementsValue, MembersValue, Comments;
    var c := FirstTokenIs(f, s, p);
    var first := FirstToken(f, s, p);
    if first.typ == ObjectBegin {
      var m := ObjectIsSentence(f, s, first.end, depth, [], End, {}) by { NothingNamed(); }
      t := ObjectTree(c, first, m);
      Opened(f, s, p, ReadObject(f, s, first.end, depth, [], End).pos, c, first, MembersYield(m));
    } else if first.typ == ArrayBegin {
      t := WholeArrayIsSentence(f, s, p, first.end, depth, c, first);
    } else {
      LeafIs(f, s, first, cur);
      t := Leaf(c, first);
      LeafBetween(f, s, p, c, first);
    }
  }

  lemma NothingNamed()
    ensures NamesAre(End, {})
  {}

  lemma LeafBetween(f: Features, s: Bytes, p: nat, c: seq<Token>, t: Token)
    requires p <= |s| && t.end <= |s| && Lexed(f, s, p) == c + ([t] + Lexed(f, s, t.end))
    ensures Between(f, s, p, t.end, c + [t])
  {
    hide Lexed;
    Assoc(c, [t], Lexed(f, s, t.end));
  }

  lemma {:induction false} WholeArrayIsSentence(f: Features, s: Bytes, p: nat, p1: nat, depth: nat, c: seq<Token>, open: Token)
    returns (t: Tree)
    requires p < p1 <= |s| && open.end == p1 && open.typ == ArrayBegin && depth <= f.stackLimit
    requires Comments(c) && (c != [] ==> f.allowComments) && Lexed(f, s, p) == c + ([open] + Lexed(f, s, p1))
    requires var q := SkipSpaces(s, p1);
             !(q < |s| && s[q] == RBRACKET) ==>
               ReadArray(f, s, q, depth, 0, End).Done? && ReadArray(f, s, q, depth, 0, End).err.None?
    ensures var q := SkipSpaces(s, p1);
            var r := if q < |s| && s[q] == RBRACKET then Done(Array(End), q + 1, None) else ReadArray(f, s, q, depth, 0, End);
            Sentence(f, s, t, depth) && Between(f, s, p, r.pos, Yield(t)) && r.value == TreeValue(f, s, t)
    decreases |s| - p1, 2
  {
    hide JsonLexer.ReadToken, NextToken, ReadArray, Lexed, SkipSpaces, ElementsYield, ElementsSentence, ElementsValue, Comments;
    BracketIs(f, s, p1);
    LexedSkips(f, s, p1);
    if ReadToken(f, s, p1).typ == ArrayEnd {
      var close := ReadToken(f, s, p1);
      FirstIs(f, s, p1);
      t := EmptyArray(c, open, close);
      assert c + ([open] + ([close] + Lexed(f, s, close.end))) == Yield(t) + Lexed(f, s, close.end);
    } else {
      var e := ArrayIsSentence(f, s, SkipSpaces(s, p1), depth, 0, End);
      t := FullArray(c, open, e);
      Opened(f, s, p, ReadArray(f, s, SkipSpaces(s, p1), depth, 0, End).pos, c, open, ElementsYield(e));
    }
  }

  lemma RegroupElement(value: seq<Token>, gap: seq<Token>, mark: Token, others: seq<Token>, rest: seq<Token>)
    ensures value + (gap + ([mark] + (others + rest))) == value + (gap + ([mark] + others)) + rest
  {}

  lemma {:induction false} ArrayIsSentence(f: Features, s: Bytes, p: nat, depth: nat, i: nat, arr: Entries) returns (e: Elements)
    requires p <= |s| && ReadArray(f, s, p, depth, i, arr).Done? && ReadArray(f, s, p, depth, i, arr).err.None?
    ensures var r := ReadArray(f, s, p, depth, i, arr);
            && ElementsSentence(f, s, e, depth + 1) && Between(f, s, p, r.pos, ElementsYield(e))
            && r.value == Array(ElementsValue(f, s, e, i, arr))
    decreases |s| - p, 1
  {
    hide JsonLexer.ReadToken, NextToken, ReadValue, Lexed, Sentence, TreeValue, Put, Comments, Recover;
    var cur := ValueOr(Find(arr, Index(i)));
    var value := ReadIsSentence(f, s, p, depth + 1, cur);
    var r := ReadValue(f, s, p, depth + 1, cur);
    NextIs(f, s, r.pos);
    var gap, mark, q := Skipped(f, s, r.pos), NextToken(f, s, r.pos), ReadArray(f, s, p, depth, i, arr).pos;
    if mark.typ == ArrayEnd {
      e := LastElement(value, gap, mark);
      RegroupElement(Yield(value), gap, mark, [], Lexed(f, s, q));
      assert [mark] + [] == [mark] && [] + Lexed(f, s, q) == Lexed(f, s, q);
    } else {
      var others := ArrayIsSentence(f, s, mark.end, depth, i + 1, Put(arr, Index(i), r.value));
      e := NextElement(value, gap, mark, others);
      RegroupElement(Yield(value), gap, mark, ElementsYield(others), Lexed(f, s, q));
    }
  }

  lemma HeadIs(f: Features, s: Bytes, p: nat, last: Bytes, obj: Entries, seen: set<Bytes>)
    requires p <= |s| && NamesAre(obj, seen)
    ensures var (h, name) := (MemberHead(f, s, p, last, obj), NextToken(f, s, p));
            && (h.Closed? ==> name.typ == ObjectEnd && last == [] && h.pos == name.end && name.start < |s|)
            && (h.Member? ==>
                  var colon := ReadToken(f, s, name.end);
                  && Named(f, s, name, colon, seen) && h.name == NameOf(f, s, name).value && h.pos == colon.end
                  && name.start < |s| && colon.start < |s|)
  {
    hide JsonLexer.ReadToken, NextToken, NumberValue, StringText, Recover, NumberName;
    NumberNameIs(f, s, NextToken(f, s, p));
  }

  lemma NumberNameIs(f: Features, s: Bytes, t: Token)
    requires t.start <= t.end <= |s|
    ensures t.typ == NumberToken ==> LeafValue(f, s, t) == NumberValue(f, TokenText(s, t))
    ensures t.typ == NumberToken && NumberValue(f, TokenText(s, t)).Some? ==> !NumberValue(f, TokenText(s, t)).value.Str?
  {}

  lemma HasName(f: Features, s: Bytes, name: Token, colon: Token, seen: set<Bytes>)
    requires Named(f, s, name, colon, seen)
    ensures NameOf(f, s, name).Some?
  {}

  lemma Regroup(before: seq<Token>, name: Token, colon: Token, value: seq<Token>, gap: seq<Token>, mark: Token, others: seq<Token>, rest: seq<Token>)
    ensures before + ([name] + ([colon] + (value + (gap + ([mark] + (others + rest))))))
            == before + ([name, colon] + (value + (gap + ([mark] + others)))) + rest
  {}

  lemma {:induction false} ObjectIsSentence(f: Features, s: Bytes, p: nat, depth: nat, last: Bytes, obj: Entries, seen: set<Bytes>)
    returns (m: Members)
    requires p <= |s| && NamesAre(obj, seen)
    requires ReadObject(f, s, p, depth, last, obj).Done? && ReadObject(f, s, p, depth, last, obj).err.None?
    ensures var r := ReadObject(f, s, p, depth, last, obj);
            && MembersSentence(f, s, m, depth + 1, last, seen) && Between(f, s, p, r.pos, MembersYield(m))
            && r.value == Object(MembersValue(f, s, m, obj))
    decreases |s| - p, 1
  {
    hide JsonLexer.ReadToken, NextToken, ReadValue, Lexed, Sentence, TreeValue, MemberHead, Put, NameOf, NamesAre, Recover, Named;
    HeadIs(f, s, p, last, obj, seen);
    NextIs(f, s, p);
    var h, before, name := MemberHead(f, s, p, last, obj), Skipped(f, s, p), NextToken(f, s, p);
    if h.Closed? {
      m := Closing(before, name);
      assert before + ([name] + Lexed(f, s, h.pos)) == MembersYield(m) + Lexed(f, s, h.pos);
    } else {
      m := MemberIsSentence(f, s, p, depth, last, obj, seen, before, name);
    }
  }

  lemma {:induction false} MemberIsSentence(f: Features, s: Bytes, p: nat, depth: nat, last: Bytes, obj: Entries, seen: set<Bytes>,
                                            before: seq<Token>, name: Token)
    returns (m: Members)
    requires p <= |s| && NamesAre(obj, seen) && MemberHead(f, s, p, last, obj).Member? && name.end <= |s|
    requires ReadObject(f, s, p, depth, last, obj).Done? && ReadObject(f, s, p, depth, last, obj).err.None?
    requires Comments(before) && Lexed(f, s, p) == before + ([name] + Lexed(f, s, name.end))
    requires var (h, colon) := (MemberHead(f, s, p, last, obj), ReadToken(f, s, name.end));
             Named(f, s, name, colon, seen) && h.name == NameOf(f, s, name).value && h.pos == colon.end && colon.start < |s|
    ensures var r := ReadObject(f, s, p, depth, last, obj);
            && MembersSentence(f, s, m, depth + 1, last, seen) && Between(f, s, p, r.pos, MembersYield(m))
            && r.value == Object(MembersValue(f, s, m, obj))
    decreases |s| - p, 0
  {
    hide JsonLexer.ReadToken, NextToken, ReadValue, Lexed, Sentence, TreeValue, MemberHead, Put, NameOf, NamesAre, Recover, Named;
    var h, colon := MemberHead(f, s, p, last, obj), ReadToken(f, s, name.end);
    HasName(f, s, name, colon, seen);
    FirstIs(f, s, name.end);
    var cur := ValueOr(Find(obj, Name(h.name)));
    var value := ReadIsSentence(f, s, h.pos, depth + 1, cur);
    var r := ReadValue(f, s, h.pos, depth + 1, cur);
    NextIs(f, s, r.pos);
    var gap, mark := Skipped(f, s, r.pos), NextToken(f, s, r.pos);
    var obj', q := Put(obj, Name(h.name), r.value), ReadObject(f, s, p, depth, last, obj).pos;
    if mark.typ == ObjectEnd {
      m := LastMember(before, name, colon, value, gap, mark);
      Regroup(before, name, colon, Yield(value), gap, mark, [], Lexed(f, s, q));
      assert [mark] + [] == [mark] && [] + Lexed(f, s, q) == Lexed(f, s, q);
    } else {
      NamesAfterPut(obj, seen, h.name, r.value);
      assert mark.start < |s| by { EndHasNoMember(f, s, depth, h.name, obj'); }
      var others := ObjectIsSentence(f, s, mark.end, depth, h.name, obj', seen + {h.name});
      m := NextMember(before, name, colon, value, gap, mark, others);
      Regroup(before, name, colon, Yield(value), gap, mark, MembersYield(others), Lexed(f, s, q));
    }
  }

  /** At the end of the text no member can follow. */
  lemma EndHasNoMember(f: Features, s: Bytes, depth: nat, last: Bytes, obj: Entries)
    ensures var r := ReadObject(f, s, |s|, depth, last, obj); r.Done? && r.err.Some?
  {
    assert NextToken(f, s, |s|) == Token(EndOfStream, |s|, |s|);
  }

  // ---------------------------------------------------------------- every sentence is accepted

  lemma FirstTokenBack(f: Features, s: Bytes, p: nat, c: seq<Token>, t: Token, rest: seq<Token>)
    requires p <= |s| && Lexed(f, s, p) == c + ([t] + rest) && Comments(c) && t.typ != Comment && (c != [] ==> f.allowComments)
    ensures FirstToken(f, s, p) == t && t.start < |s| && t.start <= t.end <= |s| && Lexed(f, s, t.end) == rest
  {
    hide NextToken, JsonLexer.ReadToken, Lexed;
    NextBack(f, s, p, c, t, rest);
  }

  lemma {:induction false} YieldBegins(t: Tree)
    ensures Yield(t) != [] && (t.before == [] ==> Yield(t)[0] == if t.Leaf? then t.token else t.open)
    ensures t.before != [] ==> Yield(t)[0] == t.before[0]
  {}

  lemma NotBracketFirst(f: Features, s: Bytes, t: Tree, depth: nat)
    requires Sentence(f, s, t, depth)
    ensures Yield(t) != [] && Yield(t)[0].typ != ArrayEnd
  {
    hide NumberValue, StringText;
    YieldBegins(t);
  }

  /** Reading at `p` gives `v` without an error and leaves the tokens `rest`. */
  ghost predicate LeavesTokens(f: Features, s: Bytes, r: Outcome, v: Value, rest: seq<Token>) {
    r.Done? && r.err.None? && r.value == v && r.pos <= |s| && Lexed(f, s, r.pos) == rest
  }

  lemma RegroupOpen(before: seq<Token>, open: Token, inner: seq<Token>, rest: seq<Token>)
    ensures before + ([open] + inner) + rest == before + ([open] + (inner + rest))
    ensures before + [open] + rest == before + ([open] + rest)
  {}

  lemma {:induction false} SentenceReads(f: Features, s: Bytes, p: nat, depth: nat, cur: Value, t: Tree, rest: seq<Token>)
    requires p <= |s| && Sentence(f, s, t, depth) && Lexed(f, s, p) == Yield(t) + rest
    ensures LeavesTokens(f, s, ReadValue(f, s, p, depth, cur), TreeValue(f, s, t), rest)
    decreases t, 1
  {
    hide JsonLexer.ReadToken, NextToken, FirstToken, ReadObject, ReadArray, LeafValue, ScalarOutcome, Lexed, SkipSpaces;
    hide ElementsYield, MembersYield, ElementsSentence, MembersSentence, ElementsValue, MembersValue, Comments, LeavesTokens;
    match t {
      case Leaf(before, token) =>
        RegroupOpen(before, token, [], rest);
        LeafNoComment(f, s, token);
        FirstTokenBack(f, s, p, before, token, rest);
        LeafReads(f, s, p, depth, cur, token, rest);
      case ObjectTree(before, open, members) =>
        RegroupOpen(before, open, MembersYield(members), rest);
        FirstTokenBack(f, s, p, before, open, MembersYield(members) + rest);
        NothingNamed();
        MembersRead(f, s, open.end, depth, [], End, {}, members, rest);
      case _ => WholeArrayReads(f, s, p, depth, cur, t, rest);
    }
  }

  lemma LeafReads(f: Features, s: Bytes, p: nat, depth: nat, cur: Value, token: Token, rest: seq<Token>)
    requires p <= |s| && depth <= f.stackLimit && FirstToken(f, s, p) == token && LeafValue(f, s, token).Some?
    requires token.end <= |s| && Lexed(f, s, token.end) == rest
    ensures LeavesTokens(f, s, ReadValue(f, s, p, depth, cur), ValueOr(LeafValue(f, s, token)), rest)
  {
    hide JsonLexer.ReadToken, NextToken, FirstToken, ReadObject, ReadArray, LeafValue, ScalarOutcome, Lexed, SkipSpaces;
    TokenShape(f, s, p);
    LeafIs(f, s, token, cur);
    LeafNoMark(f, s, token);
  }

  lemma {:induction false} WholeArrayReads(f: Features, s: Bytes, p: nat, depth: nat, cur: Value, t: Tree, rest: seq<Token>)
    requires p <= |s| && Sentence(f, s, t, depth) && Lexed(f, s, p) == Yield(t) + rest && (t.EmptyArray? || t.FullArray?)
    ensures LeavesTokens(f, s, ReadValue(f, s, p, depth, cur), TreeValue(f, s, t), rest)
    decreases t, 0
  {
    hide JsonLexer.ReadToken, NextToken, FirstToken, ReadObject, ReadArray, LeafValue, ScalarOutcome, Lexed, SkipSpaces;
    hide ElementsYield, ElementsSentence, ElementsValue, Comments;
    if t.EmptyArray? {
      assert [t.open, t.close] == [t.open] + [t.close];
      RegroupOpen(t.before, t.open, [t.close], rest);
      FirstTokenBack(f, s, p, t.before, t.open, [t.close] + rest);
      FirstBack(f, s, t.open.end, t.close, rest);
      BracketIs(f, s, t.open.end);
    } else {
      var inner := ElementsYield(t.elements);
      RegroupOpen(t.before, t.open, inner, rest);
      FirstTokenBack(f, s, p, t.before, t.open, inner + rest);
      LexedSkips(f, s, t.open.end);
      NoEmptyArray(f, s, t.open.end, t.elements, depth + 1, rest);
      ElementsRead(f, s, SkipSpaces(s, t.open.end), depth, 0, End, t.elements, rest);
    }
  }

  lemma TokenShape(f: Features, s: Bytes, p: nat)
    requires p <= |s|
    ensures var t := FirstToken(f, s, p); t.start <= t.end <= |s| && (t.typ == StringToken ==> t.start + 2 <= t.end)
  {}

  lemma LeafNoComment(f: Features, s: Bytes, t: Token)
    requires LeafValue(f, s, t).Some?
    ensures t.typ != Comment
  {}

  lemma LeafNoMark(f: Features, s: Bytes, t: Token)
    requires LeafValue(f, s, t).Some?
    ensures t.typ != ObjectBegin && t.typ != ArrayBegin
  {}

  lemma NoEmptyArray(f: Features, s: Bytes, p: nat, e: Elements, depth: nat, rest: seq<Token>)
    requires p <= |s| && ElementsSentence(f, s, e, depth) && Lexed(f, s, p) == ElementsYield(e) + rest
    ensures var q := SkipSpaces(s, p); !(q < |s| && s[q] == RBRACKET)
  {
    hide JsonLexer.ReadToken, Lexed, SkipSpaces, Sentence;
    NotBracketFirst(f, s, e.value, depth);
    BracketIs(f, s, p);
    var all := Lexed(f, s, p);
    assert all == [all[0]] + all[1..] && all[0] == Yield(e.value)[0];
    FirstBack(f, s, p, all[0], all[1..]);
  }

  lemma {:induction false} ElementsRead(f: Features, s: Bytes, p: nat, depth: nat, i: nat, arr: Entries, e: Elements, rest: seq<Token>)
    requires p <= |s| && ElementsSentence(f, s, e, depth + 1) && Lexed(f, s, p) == ElementsYield(e) + rest
    ensures LeavesTokens(f, s, ReadArray(f, s, p, depth, i, arr), Array(ElementsValue(f, s, e, i, arr)), rest)
    decreases e
  {
    hide JsonLexer.ReadToken, NextToken, ReadValue, Lexed, Sentence, TreeValue, Put;
    var cur := ValueOr(Find(arr, Index(i)));
    if e.LastElement? {
      assert ElementsYield(e) + rest == Yield(e.value) + (e.gap + ([e.close] + rest));
      SentenceReads(f, s, p, depth + 1, cur, e.value, e.gap + ([e.close] + rest));
      var r := ReadValue(f, s, p, depth + 1, cur);
      NextBack(f, s, r.pos, e.gap, e.close, rest);
    } else {
      var after := ElementsYield(e.others) + rest;
      assert ElementsYield(e) + rest == Yield(e.value) + (e.gap + ([e.comma] + after));
      SentenceReads(f, s, p, depth + 1, cur, e.value, e.gap + ([e.comma] + after));
      var r := ReadValue(f, s, p, depth + 1, cur);
      NextBack(f, s, r.pos, e.gap, e.comma, after);
      ElementsRead(f, s, e.comma.end, depth, i + 1, Put(arr, Index(i), r.value), e.others, rest);
    }
  }

  lemma HeadBack(f: Features, s: Bytes, p: nat, last: Bytes, obj: Entries, seen: set<Bytes>, before: seq<Token>, name: Token, colon: Token,
                 rest: seq<Token>)
    requires p <= |s| && NamesAre(obj, seen) && Comments(before) && Named(f, s, name, colon, seen)
    requires Lexed(f, s, p) == before + ([name, colon] + rest)
    ensures MemberHead(f, s, p, last, obj) == Member(NameOf(f, s, name).value, colon.end) && colon.end <= |s|
    ensures Lexed(f, s, colon.end) == rest
  {
    hide JsonLexer.ReadToken, NextToken, NumberValue, StringText, Recover, NumberName, Lexed;
    NameNoMark(f, s, name);
    assert [name, colon] + rest == [name] + ([colon] + rest);
    NextBack(f, s, p, before, name, [colon] + rest);
    FirstBack(f, s, name.end, colon, rest);
    NextShape(f, s, p);
    NumberNameIs(f, s, name);
  }

  lemma NextShape(f: Features, s: Bytes, p: nat)
    requires p <= |s|
    ensures var t := NextToken(f, s, p); t.start <= t.end <= |s| && (t.typ == StringToken ==> t.start + 2 <= t.end)
  {}

  lemma NameNoMark(f: Features, s: Bytes, t: Token)
    requires NameOf(f, s, t).Some?
    ensures t.typ == StringToken || (t.typ == NumberToken && f.allowNumericKeys)
  {}

  lemma {:induction false} MembersRead(f: Features, s: Bytes, p: nat, depth: nat, last: Bytes, obj: Entries, seen: set<Bytes>, m: Members,
                                       rest: seq<Token>)
    requires p <= |s| && NamesAre(obj, seen) && MembersSentence(f, s, m, depth + 1, last, seen)
    requires Lexed(f, s, p) == MembersYield(m) + rest
    ensures LeavesTokens(f, s, ReadObject(f, s, p, depth, last, obj), Object(MembersValue(f, s, m, obj)), rest)
    decreases m
  {
    hide JsonLexer.ReadToken, NextToken, ReadValue, Lexed, Sentence, TreeValue, MemberHead, Put, NameOf, NamesAre, Recover, Named;
    if m.Closing? {
      assert MembersYield(m) + rest == m.before + ([m.close] + rest);
      NextBack(f, s, p, m.before, m.close, rest);
      assert MemberHead(f, s, p, last, obj) == Closed(m.close.end) by { ClosesHere(f, s, p, obj); }
    } else {
      MemberReads(f, s, p, depth, last, obj, seen, m, rest);
    }
  }

  lemma ClosesHere(f: Features, s: Bytes, p: nat, obj: Entries)
    requires p <= |s| && NextToken(f, s, p).typ == ObjectEnd
    ensures MemberHead(f, s, p, [], obj) == Closed(NextToken(f, s, p).end)
  {}

  lemma {:induction false} MemberReads(f: Features, s: Bytes, p: nat, depth: nat, last: Bytes, obj: Entries, seen: set<Bytes>, m: Members,
                                       rest: seq<Token>)
    requires p <= |s| && NamesAre(obj, seen) && MembersSentence(f, s, m, depth + 1, last, seen) && !m.Closing?
    requires Lexed(f, s, p) == MembersYield(m) + rest
    ensures LeavesTokens(f, s, ReadObject(f, s, p, depth, last, obj), Object(MembersValue(f, s, m, obj)), rest)
    decreases m, 0
  {
    hide JsonLexer.ReadToken, NextToken, ReadValue, Lexed, Sentence, TreeValue, MemberHead, MemberTail, Put, NameOf, NamesAre, Recover, Named;
    hide LeavesTokens, Comments, Yield;
    var (mark, others) := if m.LastMember? then (m.close, []) else (m.mark, MembersYield(m.others));
    var tail := m.gap + ([mark] + (others + rest));
    Regroup(m.before, m.name, m.colon, Yield(m.value), m.gap, mark, others, rest);
    assert m.LastMember? ==> [mark] + [] == [mark];
    HasName(f, s, m.name, m.colon, seen);
    assert [m.name, m.colon] + (Yield(m.value) + tail) == [m.name] + ([m.colon] + (Yield(m.value) + tail));
    HeadBack(f, s, p, last, obj, seen, m.before, m.name, m.colon, Yield(m.value) + tail);
    var h := MemberHead(f, s, p, last, obj);
    var cur := ValueOr(Find(obj, Name(h.name)));
    SentenceReads(f, s, h.pos, depth + 1, cur, m.value, tail);
    var r := ReadValue(f, s, h.pos, depth + 1, cur);
    LeavesIs(f, s, r, TreeValue(f, s, m.value), tail);
    TailBack(f, s, r.pos, m, mark, others + rest);
    if m.LastMember? {
      assert [] + rest == rest;
      Leaves(f, s, ReadObject(f, s, p, depth, last, obj), Object(MembersValue(f, s, m, obj)), rest);
    } else {
      NamesAfterPut(obj, seen, h.name, r.value);
      MembersRead(f, s, m.mark.end, depth, h.name, Put(obj, Name(h.name), r.value), seen + {h.name}, m.others, rest);
    }
  }

  lemma LeavesIs(f: Features, s: Bytes, r: Outcome, v: Value, rest: seq<Token>)
    requires LeavesTokens(f, s, r, v, rest)
    ensures r.Done? && r.err.None? && r.value == v && r.pos <= |s| && Lexed(f, s, r.pos) == rest
  {}

  lemma Leaves(f: Features, s: Bytes, r: Outcome, v: Value, rest: seq<Token>)
    requires r.Done? && r.err.None? && r.value == v && r.pos <= |s| && Lexed(f, s, r.pos) == rest
    ensures LeavesTokens(f, s, r, v, rest)
  {}

  /** The separator behind a member. */
  lemma TailBack(f: Features, s: Bytes, p: nat, m: Members, mark: Token, after: seq<Token>)
    requires p <= |s| && !m.Closing? && Comments(m.gap) && Lexed(f, s, p) == m.gap + ([mark] + after)
    requires m.LastMember? ==> mark == m.close && mark.typ == ObjectEnd
    requires m.NextMember? ==>
               mark == m.mark && mark.typ != ObjectEnd && mark.typ != Comment && (m.gap == [] ==> mark.typ == ArraySeparator)
    ensures mark.end <= |s| && Lexed(f, s, mark.end) == after
    ensures MemberTail(f, s, p) == if m.LastMember? then Finished(mark.end) else More(mark.end)
  {
    hide JsonLexer.ReadToken, NextToken, Lexed, Recover;
    NextBack(f, s, p, m.gap, mark, after);
  }

  // ---------------------------------------------------------------- documents

  /** A document of the language with the value `v`: a sentence, and behind it nothing but comments where extra
      text is refused, and a container where one is asked for. */
  ghost predicate Document(f: Features, s: Bytes, t: Tree, rest: seq<Token>, v: Value) {
    && Sentence(f, s, t, 1) && Lexed(f, s, 0) == Yield(t) + rest && v == TreeValue(f, s, t)
    && (f.failIfExtra ==> NothingMore(f, rest))
    && (f.strictRoot ==> v.Array? || v.Object?)
  }

  /** No token but comments, where those are allowed; a zero byte ends the text; a token that is none at all is
      overlooked unless a container is asked for. */
  predicate NothingMore(f: Features, rest: seq<Token>) {
    rest != [] ==>
      if rest[0].typ == Comment && f.allowComments then NothingMore(f, rest[1..])
      else rest[0].typ == EndOfStream || (rest[0].typ == ErrorToken && !f.strictRoot)
  }

  lemma {:induction false} NothingMoreIs(f: Features, s: Bytes, p: nat)
    requires p <= |s|
    ensures var t := FirstToken(f, s, p);
            NothingMore(f, Lexed(f, s, p)) <==> t.typ == EndOfStream || (t.typ == ErrorToken && !f.strictRoot)
    decreases |s| - p
  {
    hide TokenAt;
    var t := ReadToken(f, s, p);
    if t.start < |s| {
      assert Lexed(f, s, p)[0] == t && Lexed(f, s, p)[1..] == Lexed(f, s, t.end);
      if t.typ == Comment && f.allowComments { NothingMoreIs(f, s, t.end); }
    }
  }

  lemma EndErrorsIff(f: Features, s: Bytes, p: nat, v: Value)
    requires p <= |s|
    ensures EndErrors(f, FirstToken(f, s, p), v) == [] <==>
              (f.failIfExtra ==> NothingMore(f, Lexed(f, s, p))) && (f.strictRoot ==> v.Array? || v.Object?)
  {
    hide FirstToken, NothingMore, Lexed;
    NothingMoreIs(f, s, p);
  }

  /** The reader accepts exactly the documents of the language, and gives each the value of its tree. */
  lemma AcceptedIff(f: Features, s: Bytes, root: Value, v: Value)
    ensures Parse(f, s, root) == Parsed(v, []) <==> exists t, rest :: Document(f, s, t, rest, v)
  {
    hide FirstToken, ReadValue, Lexed, Sentence, TreeValue, Yield, EndErrors, NothingMore;
    var r := ReadValue(f, s, 0, 1, root);
    if Parse(f, s, root) == Parsed(v, []) {
      var t := ReadIsSentence(f, s, 0, 1, root);
      EndErrorsIff(f, s, r.pos, v);
      assert Document(f, s, t, Lexed(f, s, r.pos), v);
    }
    forall t, rest | Document(f, s, t, rest, v) ensures Parse(f, s, root) == Parsed(v, []) {
      SentenceReads(f, s, 0, 1, root, t, rest);
      EndErrorsIff(f, s, r.pos, v);
    }
  }
}
