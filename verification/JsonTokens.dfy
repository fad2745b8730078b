/** The token sequence of a value, and the texts that lay those tokens out with white space. */
module JsonTokens {
  import opened Bytes
  import opened JsonString
  import opened JsonNumber
  import opened JsonValue
  import opened JsonArray
  import opened JsonLexer

  const NULL_TEXT: Bytes := [0x6E, 0x75, 0x6C, 0x6C]
  const TRUE_TEXT: Bytes := [0x74, 0x72, 0x75, 0x65]
  const FALSE_TEXT: Bytes := [0x66, 0x61, 0x6C, 0x73, 0x65]

  function KeyText(k: Key): Bytes { if k.Name? then k.text else [] }

  /** The tokens of a value, in order. An absent array element is written as null. */
  function Tokens(v: Value): (toks: seq<Bytes>)
    ensures toks != []
  {
    match v
    case Null => [NULL_TEXT]
    case Int(i) => [IntegerText(i)]
    case UInt(u) => [IntegerText(u)]
    case Real(t) => [t]
    case Str(s) => [Quoted(s)]
    case Bool(b) => [if b then TRUE_TEXT else FALSE_TEXT]
    case Array(e) => [[LBRACKET]] + ElementTokens(e, 0, Size(e)) + [[RBRACKET]]
    case Object(e) => [[LBRACE]] + MemberTokens(e, true) + [[RBRACE]]
  }

  function ElementTokens(e: Entries, i: nat, n: nat): seq<Bytes>
    decreases e, n - i
  {
    if i >= n then []
    else (if i > 0 then [[COMMA]] else []) + OneElement(e, i) + ElementTokens(e, i + 1, n)
  }

  function OneElement(e: Entries, i: nat): (toks: seq<Bytes>)
    ensures toks != []
    decreases e, 0
  {
    match Find(e, Index(i))
    case None => [NULL_TEXT]
    case Some(v) => Tokens(v)
  }

  function MemberTokens(e: Entries, first: bool): seq<Bytes> {
    if e.End? then []
    else (if first then [] else [[COMMA]]) + ([Quoted(KeyText(e.key)), [COLON]] + Tokens(e.value)) + MemberTokens(e.rest, false)
  }

  // ---------------------------------------------------------------- layout

  /** From `p` on, `s` is these tokens in order, with any white space before, between and after. */
  predicate SpacedAt(s: Bytes, p: nat, toks: seq<Bytes>)
    requires p <= |s|
    decreases |toks|
  {
    var q := SkipSpaces(s, p);
    if toks == [] then q == |s|
    else At(s, q, toks[0]) && SpacedAt(s, q + |toks[0]|, toks[1..])
  }

  predicate Spaced(s: Bytes, toks: seq<Bytes>) { SpacedAt(s, 0, toks) }

  predicate Visible(tok: Bytes) { tok != [] && !IsSpace(tok[0]) }

  predicate AllVisible(toks: seq<Bytes>) { forall i :: 0 <= i < |toks| ==> Visible(toks[i]) }

  lemma {:induction false} SkipSpacesUnique(s: Bytes, p: nat, q: nat)
    requires p <= q <= |s|
    requires forall i :: p <= i < q ==> IsSpace(s[i])
    requires q < |s| ==> !IsSpace(s[q])
    ensures SkipSpaces(s, p) == q
    decreases q - p
  {
    if p < q { SkipSpacesUnique(s, p + 1, q); }
  }

  lemma {:induction false} SkipSpacesOver(s: Bytes, p: nat, q: nat)
    requires p <= q <= |s|
    requires forall i :: p <= i < q ==> IsSpace(s[i])
    ensures SkipSpaces(s, p) == SkipSpaces(s, q)
    decreases q - p
  {
    if p < q { SkipSpacesOver(s, p + 1, q); }
  }

  lemma ShiftedStep(a: Bytes, t: Bytes, p: nat, tok: Bytes)
    requires p <= |t|
    ensures SkipSpaces(a + t, |a| + p) == |a| + SkipSpaces(t, p)
    ensures At(t, SkipSpaces(t, p), tok) ==> At(a + t, |a| + SkipSpaces(t, p), tok)
  {
    var s, q := a + t, SkipSpaces(t, p);
    assert forall i :: |a| + p <= i < |a| + q ==> s[i] == t[i - |a|];
    SkipSpacesUnique(s, |a| + p, |a| + q);
    if At(t, q, tok) { assert s[|a| + q..|a| + q + |tok|] == t[q..q + |tok|]; }
  }

  lemma {:induction false} SpacedShift(a: Bytes, t: Bytes, p: nat, toks: seq<Bytes>)
    requires p <= |t| && SpacedAt(t, p, toks)
    ensures SpacedAt(a + t, |a| + p, toks)
    decreases |toks|
  {
    var q := SkipSpaces(t, p);
    ShiftedStep(a, t, p, if toks == [] then [] else toks[0]);
    if toks != [] {
      SpacedShift(a, t, q + |toks[0]|, toks[1..]);
    }
  }

  lemma SkipSpacesInPrefix(t: Bytes, u: Bytes, p: nat)
    requires p <= |t|
    ensures SkipSpaces(t, p) < |t| ==> SkipSpaces(t + u, p) == SkipSpaces(t, p)
    ensures SkipSpaces(t, p) == |t| ==> SkipSpaces(t + u, p) == |t| + SkipSpaces(u, 0)
  {
    var s, q := t + u, SkipSpaces(t, p);
    assert forall i :: 0 <= i < |t| ==> s[i] == t[i];
    if q < |t| {
      SkipSpacesUnique(s, p, q);
    } else {
      var r := SkipSpaces(u, 0);
      assert forall i :: |t| <= i < |s| ==> s[i] == u[i - |t|];
      SkipSpacesUnique(s, p, |t| + r);
    }
  }

  lemma AtInPrefix(t: Bytes, u: Bytes, q: nat, tok: Bytes)
    requires At(t, q, tok)
    ensures At(t + u, q, tok)
  {
    assert (t + u)[q..q + |tok|] == t[q..q + |tok|];
  }

  lemma SkippedFirst(s: Bytes, p: nat, q: nat, toks: seq<Bytes>)
    requires p <= |s| && q <= |s| && SkipSpaces(s, p) == SkipSpaces(s, q) && SpacedAt(s, q, toks)
    ensures SpacedAt(s, p, toks)
  {}

  /** Two laid-out texts one after the other lay out both token lists. */
  lemma {:induction false} SpacedConcatAt(t: Bytes, p: nat, a: seq<Bytes>, u: Bytes, b: seq<Bytes>)
    requires p <= |t| && SpacedAt(t, p, a) && Spaced(u, b) && AllVisible(a)
    ensures SpacedAt(t + u, p, a + b)
    decreases |a|
  {
    hide At;
    SkipSpacesInPrefix(t, u, p);
    if a == [] {
      SpacedShift(t, u, 0, b);
      SkipSpacesInPrefix(t, u, |t|);
      SkippedFirst(t + u, p, |t|, b);
      assert a + b == b;
    } else {
      var q := SkipSpaces(t, p);
      AtInPrefix(t, u, q, a[0]);
      TailVisible(a);
      TokenInside(t, q, a[0]);
      SpacedConcatAt(t, q + |a[0]|, a[1..], u, b);
      SpacedCons(t + u, p, a[0], a[1..] + b);
      assert a + b == [a[0]] + (a[1..] + b);
    }
  }

  lemma TokenInside(t: Bytes, q: nat, tok: Bytes)
    requires At(t, q, tok) && Visible(tok)
    ensures q < |t| && q + |tok| <= |t|
  {}

  lemma SpacedCons(s: Bytes, p: nat, tok: Bytes, toks: seq<Bytes>)
    requires p <= |s| && At(s, SkipSpaces(s, p), tok)
    requires SpacedAt(s, SkipSpaces(s, p) + |tok|, toks)
    ensures SpacedAt(s, p, [tok] + toks)
  {
    assert ([tok] + toks)[1..] == toks;
  }

  lemma TailVisible(a: seq<Bytes>)
    requires AllVisible(a) && a != []
    ensures AllVisible(a[1..]) && Visible(a[0])
  {
    assert forall i :: 0 <= i < |a[1..]| ==> a[1..][i] == a[i + 1];
  }

  lemma SpacedConcat(t: Bytes, a: seq<Bytes>, u: Bytes, b: seq<Bytes>)
    requires Spaced(t, a) && Spaced(u, b) && AllVisible(a)
    ensures Spaced(t + u, a + b)
  {
    SpacedConcatAt(t, 0, a, u, b);
  }

  lemma SpacedOne(tok: Bytes)
    requires Visible(tok)
    ensures Spaced(tok, [tok])
  {
    assert SkipSpaces(tok, |tok|) == |tok|;
    assert tok[0..|tok|] == tok;
  }

  predicate AllSpaces(t: Bytes) { forall i :: 0 <= i < |t| ==> IsSpace(t[i]) }

  lemma SpacedNone(t: Bytes)
    requires AllSpaces(t)
    ensures Spaced(t, [])
  {
    SkipSpacesUnique(t, 0, |t|);
  }

  lemma {:induction false} SpacedFlatten(toks: seq<Bytes>)
    requires AllVisible(toks)
    ensures Spaced(Flatten(toks), toks)
  {
    if toks != [] {
      TailVisible(toks);
      SpacedFlatten(toks[1..]);
      SpacedOne(toks[0]);
      SpacedConcat(toks[0], [toks[0]], Flatten(toks[1..]), toks[1..]);
      assert [toks[0]] + toks[1..] == toks;
    } else {
      SpacedNone([]);
    }
  }

  // ---------------------------------------------------------------- tokens are visible

  lemma {:induction false} DigitsVisible(n: nat)
    ensures Digits(n) != [] && forall i :: 0 <= i < |Digits(n)| ==> IsDigit(Digits(n)[i])
  {
    if n >= 10 { DigitsVisible(n / 10); }
  }

  lemma IntegerVisible(i: int)
    ensures Visible(IntegerText(i))
  {
    DigitsVisible(if i < 0 then -i else i);
  }

  lemma {:induction false} TokensVisible(v: Value)
    requires RealFree(v)
    ensures AllVisible(Tokens(v))
    decreases v
  {
    match v {
      case Int(i) => IntegerVisible(i);
      case UInt(u) => IntegerVisible(u);
      case Array(e) => ElementsVisible(e, 0, Size(e));
      case Object(e) => MembersVisible(e, true);
      case _ =>
    }
  }

  lemma {:induction false} FoundRealFree(e: Entries, k: Key)
    requires AllRealFree(e) && Find(e, k).Some?
    ensures RealFree(Find(e, k).value)
  {
    if e.key != k { FoundRealFree(e.rest, k); }
  }

  lemma {:induction false} ElementVisible(e: Entries, i: nat)
    requires AllRealFree(e)
    ensures AllVisible(OneElement(e, i))
    decreases e, 0
  {
    if Find(e, Index(i)).Some? {
      FoundRealFree(e, Index(i));
      TokensVisible(Find(e, Index(i)).value);
    }
  }

  lemma {:induction false} ElementsVisible(e: Entries, i: nat, n: nat)
    requires AllRealFree(e)
    ensures AllVisible(ElementTokens(e, i, n))
    decreases e, n - i
  {
    if i < n {
      ElementVisible(e, i);
      ElementsVisible(e, i + 1, n);
    }
  }

  lemma {:induction false} MembersVisible(e: Entries, first: bool)
    requires AllRealFree(e)
    ensures AllVisible(MemberTokens(e, first))
  {
    if e.Entry? {
      TokensVisible(e.value);
      MembersVisible(e.rest, false);
    }
  }
}
