/** `FastWriter` and `BuiltStyledStreamWriter`: what they write lays out the tokens of the value. */
module JsonWriter {
  import opened Bytes
  import opened JsonString
  import opened JsonNumber
  import opened JsonValue
  import opened JsonArray
  import opened JsonTokens

  // ---------------------------------------------------------------- lemmas shared by the writers

  /** The text `t` lays out `toks`, and is the bare tokens when `exact`. */
  ghost predicate Wrote(t: Bytes, toks: seq<Bytes>, exact: bool) {
    Spaced(t, toks) && AllVisible(toks) && (exact ==> t == Flatten(toks))
  }

  lemma WroteConcat(t: Bytes, a: seq<Bytes>, u: Bytes, b: seq<Bytes>, exact: bool)
    requires Wrote(t, a, exact) && Wrote(u, b, exact)
    ensures Wrote(t + u, a + b, exact)
  {
    SpacedConcat(t, a, u, b);
    FlattenConcat(a, b);
  }

  lemma WroteOne(tok: Bytes, exact: bool)
    requires Visible(tok)
    ensures Wrote(tok, [tok], exact)
  {
    SpacedOne(tok);
    assert Flatten([tok]) == tok + Flatten([]);
  }

  lemma WroteSpaces(t: Bytes)
    requires AllSpaces(t)
    ensures Wrote(t, [], false)
  {
    SpacedNone(t);
  }

  /** The text of a value that is neither an array nor an object. */
  method ScalarText(value: Value) returns (text: Bytes)
    requires Valid(value) && RealFree(value) && !value.Array? && !value.Object?
    ensures [text] == Tokens(value) && Visible(text)
  {
    match value {
      case Null => text := NULL_TEXT;
      case Int(i) => IntegerVisible(i); text := ValueToStringInt(i);
      case UInt(u) => IntegerVisible(u); text := ValueToStringUInt(u);
      case Str(s) => text := ValueToQuotedStringN(s);
      case Bool(b) => text := if b then TRUE_TEXT else FALSE_TEXT;
    }
  }

  /** `operator[](ArrayIndex) const`: an absent element is null. */
  function ElementAt(e: Entries, i: nat): Value {
    match Find(e, Index(i))
    case None => Null
    case Some(v) => v
  }

  lemma ElementWritable(e: Entries, i: nat)
    requires AllValid(e) && AllRealFree(e)
    ensures Valid(ElementAt(e, i)) && RealFree(ElementAt(e, i)) && Tokens(ElementAt(e, i)) == OneElement(e, i)
  {
    if Find(e, Index(i)).Some? {
      FoundRealFree(e, Index(i));
      FoundIsValid(e, Index(i));
    }
  }

  lemma {:induction false} FoundIsValid(e: Entries, k: Key)
    requires AllValid(e) && Find(e, k).Some?
    ensures Valid(Find(e, k).value)
  {
    if e.key != k { FoundIsValid(e.rest, k); }
  }

  /** `getMemberNames` */
  function MemberNames(e: Entries): seq<Bytes> { if e.End? then [] else [KeyText(e.key)] + MemberNames(e.rest) }

  /** `tail` is what is left of the members of `e`. */
  ghost predicate Remaining(tail: Entries, e: Entries) {
    Sorted(tail, false) && AllValid(tail) && AllRealFree(tail) &&
    forall k :: Find(tail, k).Some? ==> Find(e, k) == Find(tail, k)
  }

  lemma MembersRound(tail: Entries, e: Entries, first: bool)
    requires e == tail ==> Sorted(e, false) && AllValid(e) && AllRealFree(e)
    ensures e == tail ==> Remaining(tail, e)
    ensures tail.End? <==> MemberNames(tail) == []
    ensures tail.End? ==> MemberTokens(tail, first) == []
    ensures tail.Entry? ==> MemberNames(tail) == [KeyText(tail.key)] + MemberNames(tail.rest)
    ensures tail.Entry? ==> (
              var member := [Quoted(KeyText(tail.key)), [COLON]] + Tokens(tail.value);
              MemberTokens(tail, first) == (if first then [] else [[COMMA]]) + member + MemberTokens(tail.rest, false))
  {}

  lemma NextRemaining(tail: Entries, e: Entries)
    requires Remaining(tail, e) && tail.Entry?
    ensures Find(e, Name(KeyText(tail.key))) == Some(tail.value) && Remaining(tail.rest, e)
  {
    assert Find(tail, tail.key) == Some(tail.value);
    KeyOrder(tail.key, tail.key, tail.key);
    FindBelow(tail.rest, tail.key, tail.key);
    forall k | Find(tail.rest, k).Some? ensures Find(e, k) == Find(tail.rest, k) {
      assert Find(tail, k) == Find(tail.rest, k);
    }
  }

  // ---------------------------------------------------------------- FastWriter

  class FastWriter {
    var document: Bytes
    const yamlCompatibility: bool
    const omitEndingLineFeed: bool

    constructor (yamlCompatibility: bool, omitEndingLineFeed: bool)
      ensures this.yamlCompatibility == yamlCompatibility && this.omitEndingLineFeed == omitEndingLineFeed
    {
      this.yamlCompatibility := yamlCompatibility;
      this.omitEndingLineFeed := omitEndingLineFeed;
      document := [];
    }

    /** Without the YAML option the text is the bare tokens and a line feed. */
    method Write(root: Value) returns (text: Bytes)
      requires Valid(root) && RealFree(root)
      modifies this
      ensures Spaced(text, Tokens(root))
      ensures !yamlCompatibility ==> text == Flatten(Tokens(root)) + if omitEndingLineFeed then [] else [LF]
    {
      document := [];
      ghost var t := WriteValue(root);
      assert document == t;
      if !omitEndingLineFeed {
        WroteSpaces([LF]);
        SpacedConcat(t, Tokens(root), [LF], []);
        assert Tokens(root) + [] == Tokens(root);
        document := document + [LF];
      }
      text := document;
    }

    method WriteValue(value: Value) returns (ghost t: Bytes)
      requires Valid(value) && RealFree(value)
      modifies this`document
      ensures document == old(document) + t && Wrote(t, Tokens(value), !yamlCompatibility)
      decreases value, 1
    {
      hide Spaced, Quoted;
      if value.Array? {
        t := WriteArray(value.elements);
      } else if value.Object? {
        t := WriteObject(value.members);
      } else {
        var text := ScalarText(value);
        t := Append(text);
      }
    }

    method Append(tok: Bytes) returns (ghost t: Bytes)
      requires Visible(tok)
      modifies this`document
      ensures document == old(document) + t && t == tok && Wrote(t, [tok], !yamlCompatibility)
    {
      document := document + tok;
      t := tok;
      WroteOne(tok, !yamlCompatibility);
    }

    /** Appends a token behind what has been written since some earlier point. */
    method AppendAfter(tok: Bytes, ghost t: Bytes, ghost done: seq<Bytes>) returns (ghost more: Bytes)
      requires Visible(tok) && Wrote(t, done, !yamlCompatibility)
      modifies this`document
      ensures document == old(document) + tok && more == t + tok && Wrote(more, done + [tok], !yamlCompatibility)
    {
      hide Wrote, Visible;
      ghost var u := Append(tok);
      WroteConcat(t, done, u, [tok], !yamlCompatibility);
      more := t + u;
    }

    method WriteArray(e: Entries) returns (ghost t: Bytes)
      requires AllValid(e) && AllRealFree(e)
      modifies this`document
      ensures document == old(document) + t && Wrote(t, Tokens(Array(e)), !yamlCompatibility)
      decreases e, 2
    {
      hide Wrote, Visible, Quoted, Tokens, ElementTokens, OneElement;
      ghost var exact := !yamlCompatibility;
      assert Visible([LBRACKET]) && Visible([COMMA]) && Visible([RBRACKET]) by { Punctuated(); }
      t := Append([LBRACKET]);
      ghost var done := [[LBRACKET]];
      var size := Size(e);
      for index := 0 to size
        invariant document == old(document) + t && Wrote(t, done, exact)
        invariant done + ElementTokens(e, index, size) == [[LBRACKET]] + ElementTokens(e, 0, size)
      {
        ElementRound(e, index, size);
        if index > 0 {
          t := AppendAfter([COMMA], t, done);
          done := done + [[COMMA]];
        }
        ElementWritable(e, index);
        ghost var u := WriteElement(e, index);
        WroteConcat(t, done, u, OneElement(e, index), exact);
        t, done := t + u, done + OneElement(e, index);
      }
      ElementRound(e, size, size);
      assert done == [[LBRACKET]] + ElementTokens(e, 0, size);
      t := AppendAfter([RBRACKET], t, done);
      TokensOfArray(e);
    }

    method WriteElement(e: Entries, index: nat) returns (ghost t: Bytes)
      requires AllValid(e) && AllRealFree(e)
      modifies this`document
      ensures document == old(document) + t && Wrote(t, OneElement(e, index), !yamlCompatibility)
      decreases e, 1
    {
      ElementWritable(e, index);
      match Find(e, Index(index)) {
        case None => t := Append(NULL_TEXT);
        case Some(v) => t := WriteValue(v);
      }
    }

    method WriteObject(e: Entries) returns (ghost t: Bytes)
      requires Sorted(e, false) && AllValid(e) && AllRealFree(e)
      modifies this`document
      ensures document == old(document) + t && Wrote(t, Tokens(Object(e)), !yamlCompatibility)
      decreases e, 2
    {
      hide Wrote, Visible, Quoted, Tokens, MemberTokens, Remaining;
      ghost var exact := !yamlCompatibility;
      assert Visible([LBRACE]) && Visible([COMMA]) && Visible([RBRACE]) by { Punctuated(); }
      var members := MemberNames(e);
      t := Append([LBRACE]);
      ghost var done := [[LBRACE]];
      ghost var tail := e;
      MembersRound(e, e, true);
      for it := 0 to |members|
        invariant document == old(document) + t && Wrote(t, done, exact)
        invariant Remaining(tail, e) && MemberNames(tail) == members[it..]
        invariant done + MemberTokens(tail, it == 0) == [[LBRACE]] + MemberTokens(e, true)
      {
        NextRemaining(tail, e);
        MembersRound(tail, e, it == 0);
        if it != 0 {
          t := AppendAfter([COMMA], t, done);
          done := done + [[COMMA]];
        }
        ghost var u := WriteMember(e, members[it]);
        ghost var toks := [Quoted(members[it]), [COLON]] + Tokens(tail.value);
        WroteConcat(t, done, u, toks, exact);
        t, done, tail := t + u, done + toks, tail.rest;
      }
      MembersRound(tail, e, |members| == 0);
      assert done == [[LBRACE]] + MemberTokens(e, true);
      t := AppendAfter([RBRACE], t, done);
      assert Tokens(Object(e)) == done + [[RBRACE]] by { TokensOfObject(e); }
    }

    method WriteMember(e: Entries, name: Bytes) returns (ghost t: Bytes)
      requires AllValid(e) && AllRealFree(e) && Find(e, Name(name)).Some?
      modifies this`document
      ensures document == old(document) + t
      ensures Wrote(t, [Quoted(name), [COLON]] + Tokens(Find(e, Name(name)).value), !yamlCompatibility)
      decreases e, 1
    {
      hide Wrote, Tokens, Quoted;
      ghost var exact := !yamlCompatibility;
      FoundIsValid(e, Name(name));
      FoundRealFree(e, Name(name));
      var value := Find(e, Name(name)).value;
      var quoted := ValueToQuotedStringN(name);
      assert Visible(quoted) by { QuotedVisible(name); }
      t := Append(quoted);
      ghost var u := WriteColon();
      WroteConcat(t, [quoted], u, [[COLON]], exact);
      t := t + u;
      u := WriteValue(value);
      WroteConcat(t, [quoted] + [[COLON]], u, Tokens(value), exact);
      t := t + u;
      assert [quoted] + [[COLON]] == [quoted, [COLON]];
    }

    method WriteColon() returns (ghost t: Bytes)
      modifies this`document
      ensures document == old(document) + t && Wrote(t, [[COLON]], !yamlCompatibility)
    {
      WroteOne([COLON], !yamlCompatibility);
      if yamlCompatibility {
        WroteSpaces([SPACE]);
        WroteConcat([COLON], [[COLON]], [SPACE], [], false);
        assert [[COLON]] + [] == [[COLON]];
        t := [COLON] + [SPACE];
      } else {
        t := [COLON];
      }
      document := document + if yamlCompatibility then [COLON, SPACE] else [COLON];
    }
  }

  lemma Punctuated()
    ensures Visible([LBRACKET]) && Visible([COMMA]) && Visible([RBRACKET]) && Visible([LBRACE]) && Visible([RBRACE]) && Visible([COLON])
  {}

  lemma QuotedVisible(b: Bytes)
    ensures Visible(Quoted(b))
  {}

  lemma ElementRound(e: Entries, i: nat, n: nat)
    ensures i >= n ==> ElementTokens(e, i, n) == []
    ensures 0 == i < n ==> ElementTokens(e, i, n) == OneElement(e, i) + ElementTokens(e, i + 1, n)
    ensures 0 < i < n ==> ElementTokens(e, i, n) == [[COMMA]] + (OneElement(e, i) + ElementTokens(e, i + 1, n))
  {}

  lemma TokensOfArray(e: Entries)
    ensures Tokens(Array(e)) == [[LBRACKET]] + ElementTokens(e, 0, Size(e)) + [[RBRACKET]]
  {}

  lemma TokensOfObject(e: Entries)
    ensures Tokens(Object(e)) == [[LBRACE]] + MemberTokens(e, true) + [[RBRACE]]
  {}
}
