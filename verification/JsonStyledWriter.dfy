/** `BuiltStyledStreamWriter` for values without comments: indentation, the choice between one line
    and many, and the shared `childValues_` buffer change white space only. */
module JsonStyledWriter {
  import opened Bytes
  import opened JsonString
  import opened JsonValue
  import opened JsonArray
  import opened JsonLexer
  import opened JsonTokens
  import opened JsonWriter

  const RIGHT_MARGIN: nat := 74

  /** A value written in one piece: a scalar or an empty container. */
  predicate Leaf(v: Value) {
    match v
    case Array(e) => Size(e) == 0
    case Object(e) => e.End?
    case _ => true
  }

  class BuiltStyledStreamWriter {
    const indentation: Bytes
    const allComments: bool
    const colonSymbol: Bytes
    var sout: Bytes
    var childValues: seq<Bytes>
    var indentString: Bytes
    var addChildValues: bool
    var indented: bool

    /** With comment style `All` the buffer of child texts is never used. */
    ghost predicate Valid()
      reads this
    {
      AllSpaces(indentation) && AllSpaces(indentString) &&
      (exists a, b :: AllSpaces(a) && AllSpaces(b) && colonSymbol == a + [COLON] + b) &&
      (allComments ==> childValues == [] && !addChildValues)
    }

    /** `newStreamWriter` with null written as null; the line-feed symbol is empty. */
    constructor (indentation: Bytes, allComments: bool, yamlCompatibility: bool)
      requires AllSpaces(indentation)
      ensures Valid() && this.indentation == indentation && this.allComments == allComments
    {
      this.indentation := indentation;
      this.allComments := allComments;
      colonSymbol := if yamlCompatibility then [COLON, SPACE]
                     else if indentation == [] then [COLON]
                     else [SPACE, COLON, SPACE];
      sout, childValues, indentString, addChildValues, indented := [], [], [], false, false;
      new;
      assert colonSymbol == [] + [COLON] + [SPACE] || colonSymbol == [] + [COLON] + [] ||
             colonSymbol == [SPACE] + [COLON] + [SPACE];
      assert AllSpaces([]) && AllSpaces([SPACE]);
    }

    /** Whatever the indentation, what is written lays out the tokens of the value. */
    method Write(root: Value) returns (text: Bytes)
      requires Valid() && JsonValue.Valid(root) && RealFree(root)
      modifies this
      ensures Valid() && Spaced(text, Tokens(root))
    {
      sout := [];
      addChildValues := false;
      indented := true;
      indentString := [];
      ghost var t := WriteValue(root);
      assert sout == t;
      text := sout;
    }

    // -------------------------------------------------------------- pieces

    method PushLeaf(value: Bytes, ghost toks: seq<Bytes>) returns (ghost t: Bytes)
      requires Valid() && Wrote(value, toks, false)
      modifies this`sout, this`childValues
      ensures Valid() && t == value
      ensures addChildValues ==> sout == old(sout) && childValues == old(childValues) + [t]
      ensures !addChildValues ==> sout == old(sout) + t && childValues == old(childValues)
      ensures Wrote(t, toks, false)
    {
      if addChildValues { childValues := childValues + [value]; } else { sout := sout + value; }
      t := value;
    }

    method WriteIndent() returns (ghost t: Bytes)
      requires Valid()
      modifies this`sout
      ensures Valid() && sout == old(sout) + t && Wrote(t, [], false)
    {
      t := [];
      if indentation != [] {
        t := [LF] + indentString;
        sout := sout + ([LF] + indentString);
      }
      WroteSpaces(t);
    }

    method WriteWithIndent(value: Bytes, ghost toks: seq<Bytes>) returns (ghost t: Bytes)
      requires Valid() && Wrote(value, toks, false)
      modifies this`sout, this`indented
      ensures Valid() && sout == old(sout) + t && Wrote(t, toks, false)
    {
      t := [];
      WroteSpaces([]);
      if !indented { t := WriteIndent(); }
      sout := sout + value;
      indented := false;
      WroteConcat(t, [], value, toks, false);
      assert [] + toks == toks;
      t := t + value;
    }

    method Emit(value: Bytes, ghost toks: seq<Bytes>) returns (ghost t: Bytes)
      requires Valid() && Wrote(value, toks, false)
      modifies this`sout
      ensures Valid() && sout == old(sout) + t && Wrote(t, toks, false)
    {
      sout := sout + value;
      t := value;
    }

    method Indent()
      requires Valid()
      modifies this`indentString
      ensures Valid() && indentString == old(indentString) + indentation
    {
      indentString := indentString + indentation;
    }

    method Unindent()
      requires Valid() && |indentString| >= |indentation|
      modifies this`indentString
      ensures Valid() && indentString == old(indentString)[..|old(indentString)| - |indentation|]
    {
      indentString := indentString[..|indentString| - |indentation|];
    }

    // -------------------------------------------------------------- values

    /** While child texts are collected only leaves are written, and they go to the buffer. */
    method WriteValue(value: Value) returns (ghost t: Bytes)
      requires Valid() && JsonValue.Valid(value) && RealFree(value) && (addChildValues ==> Leaf(value))
      modifies this`sout, this`childValues, this`indentString, this`addChildValues, this`indented
      ensures Valid() && Wrote(t, Tokens(value), false)
      ensures addChildValues == old(addChildValues) && indentString == old(indentString)
      ensures addChildValues ==> sout == old(sout) && childValues == old(childValues) + [t]
      ensures !addChildValues ==> sout == old(sout) + t
      decreases value, 1
    {
      hide Spaced, Quoted;
      if value.Array? {
        t := WriteArrayValue(value.elements);
      } else if value.Object? {
        t := WriteObjectValue(value.members);
      } else {
        var text := ScalarText(value);
        WroteOne(text, false);
        t := PushLeaf(text, Tokens(value));
      }
    }

    method WriteObjectValue(e: Entries) returns (ghost t: Bytes)
      requires Valid() && Sorted(e, false) && AllValid(e) && AllRealFree(e) && (addChildValues ==> e.End?)
      modifies this`sout, this`childValues, this`indentString, this`addChildValues, this`indented
      ensures Valid() && Wrote(t, Tokens(Object(e)), false)
      ensures addChildValues == old(addChildValues) && indentString == old(indentString)
      ensures addChildValues ==> sout == old(sout) && childValues == old(childValues) + [t]
      ensures !addChildValues ==> sout == old(sout) + t
      decreases e, 3
    {
      hide Wrote, Quoted, Tokens, MemberTokens, Remaining, AllSpaces;
      var members := MemberNames(e);
      MembersRound(e, e, true);
      assert Tokens(Object(e)) == [[LBRACE]] + MemberTokens(e, true) + [[RBRACE]] by { TokensOfObject(e); }
      if members == [] {
        assert Tokens(Object(e)) == [[LBRACE], [RBRACE]];
        TwoBytes(LBRACE, RBRACE);
        t := PushLeaf([LBRACE, RBRACE], Tokens(Object(e)));
        return;
      }
      OneByte(LBRACE);
      OneByte(RBRACE);
      OneByte(COMMA);
      t := WriteWithIndent([LBRACE], [[LBRACE]]);
      Indent();
      ghost var done := [[LBRACE]];
      ghost var tail := e;
      ghost var u;
      var it := 0;
      while true
        invariant 0 <= it < |members| && Valid() && !addChildValues && indentString == old(indentString) + indentation
        invariant sout == old(sout) + t && Wrote(t, done, false)
        invariant Remaining(tail, e) && MemberNames(tail) == members[it..]
        invariant done + MemberTokens(tail, true) == [[LBRACE]] + MemberTokens(e, true)
        decreases |members| - it
      {
        NextRemaining(tail, e);
        MembersRound(tail, e, true);
        u := WriteMember(e, members[it]);
        ghost var toks := [Quoted(members[it]), [COLON]] + Tokens(tail.value);
        WroteConcat(t, done, u, toks, false);
        t, done, tail, it := t + u, done + toks, tail.rest, it + 1;
        MembersRound(tail, e, true);
        MembersRound(tail, e, false);
        if it == |members| { break; }
        u := Emit([COMMA], [[COMMA]]);
        WroteConcat(t, done, u, [[COMMA]], false);
        t, done := t + u, done + [[COMMA]];
      }
      assert done == [[LBRACE]] + MemberTokens(e, true);
      Unindent();
      u := WriteWithIndent([RBRACE], [[RBRACE]]);
      WroteConcat(t, done, u, [[RBRACE]], false);
      t := t + u;
    }

    method WriteMember(e: Entries, name: Bytes) returns (ghost t: Bytes)
      requires Valid() && AllValid(e) && AllRealFree(e) && Find(e, Name(name)).Some? && !addChildValues
      modifies this`sout, this`childValues, this`indentString, this`addChildValues, this`indented
      ensures Valid() && !addChildValues && indentString == old(indentString) && sout == old(sout) + t
      ensures Wrote(t, [Quoted(name), [COLON]] + Tokens(Find(e, Name(name)).value), false)
      decreases e, 2
    {
      hide Wrote, Tokens, Quoted, AllSpaces;
      FoundIsValid(e, Name(name));
      FoundRealFree(e, Name(name));
      var childValue := Find(e, Name(name)).value;
      var quoted := ValueToQuotedStringN(name);
      assert Wrote(quoted, [quoted], false) by { QuotedVisible(name); WroteOne(quoted, false); }
      t := WriteWithIndent(quoted, [quoted]);
      ColonWrote(colonSymbol);
      ghost var u := Emit(colonSymbol, [[COLON]]);
      WroteConcat(t, [quoted], u, [[COLON]], false);
      t := t + u;
      u := WriteValue(childValue);
      WroteConcat(t, [quoted] + [[COLON]], u, Tokens(childValue), false);
      t := t + u;
      assert [quoted] + [[COLON]] == [quoted, [COLON]];
    }

    method WriteArrayValue(e: Entries) returns (ghost t: Bytes)
      requires Valid() && Sorted(e, true) && AllValid(e) && AllRealFree(e) && (addChildValues ==> Size(e) == 0)
      modifies this`sout, this`childValues, this`indentString, this`addChildValues, this`indented
      ensures Valid() && Wrote(t, Tokens(Array(e)), false)
      ensures addChildValues == old(addChildValues) && indentString == old(indentString)
      ensures addChildValues ==> sout == old(sout) && childValues == old(childValues) + [t]
      ensures !addChildValues ==> sout == old(sout) + t
      decreases e, 4
    {
      hide Wrote, Quoted, Size, AllSpaces;
      var size := Size(e);
      if size == 0 {
        assert Tokens(Array(e)) == [[LBRACKET], [RBRACKET]];
        TwoBytes(LBRACKET, RBRACKET);
        t := PushLeaf([LBRACKET, RBRACKET], Tokens(Array(e)));
        return;
      }
      var isMultiLine := true;
      if !allComments { isMultiLine := IsMultilineArray(e); }
      if isMultiLine { t := WriteLines(e, size); } else { t := WriteOneLine(e, size); }
    }

    /** The buffer holds the texts of all elements, or nothing. */
    ghost predicate ChildrenReady(e: Entries, n: nat)
      reads this
    {
      |childValues| == n && forall i :: 0 <= i < n ==> Wrote(childValues[i], OneElement(e, i), false)
    }

    /** Element texts are collected only when every child is a leaf; the buffer then serves both
        the one-line form and, if the line is too long, the many-line form. */
    method IsMultilineArray(e: Entries) returns (isMultiLine: bool)
      requires Valid() && AllValid(e) && AllRealFree(e) && !addChildValues && !allComments
      modifies this`sout, this`childValues, this`indentString, this`addChildValues, this`indented
      ensures Valid() && !addChildValues && sout == old(sout) && indentString == old(indentString)
      ensures childValues == [] || ChildrenReady(e, Size(e))
      ensures !isMultiLine ==> ChildrenReady(e, Size(e))
      decreases e, 2
    {
      hide Wrote, Tokens, Size, AllSpaces;
      var size := Size(e);
      isMultiLine := ToUInt32(size * 3) >= RIGHT_MARGIN;
      childValues := [];
      var index := 0;
      while index < size && !isMultiLine
        invariant !isMultiLine ==> forall i :: 0 <= i < index ==> Leaf(ElementAt(e, i))
        invariant index <= size
      {
        var childValue := ElementAt(e, index);
        isMultiLine := (childValue.Array? && Size(childValue.elements) > 0) || (childValue.Object? && childValue.members.Entry?);
        index := index + 1;
      }
      if !isMultiLine {
        addChildValues := true;
        var lineLength := ToUInt32(4 + size * 2 - 2);
        for i := 0 to size
          invariant Valid() && addChildValues && sout == old(sout) && indentString == old(indentString)
          invariant ChildrenReady(e, i)
        {
          ElementWritable(e, i);
          ghost var before := childValues;
          ghost var t := WriteElement(e, i);
          assert childValues[..i] == before;
          lineLength := ToUInt32(lineLength + |childValues[i]|);
        }
        addChildValues := false;
        isMultiLine := lineLength >= RIGHT_MARGIN;
      }
    }

    method WriteElement(e: Entries, i: nat) returns (ghost t: Bytes)
      requires Valid() && AllValid(e) && AllRealFree(e) && (addChildValues ==> Leaf(ElementAt(e, i)))
      modifies this`sout, this`childValues, this`indentString, this`addChildValues, this`indented
      ensures Valid() && Wrote(t, OneElement(e, i), false)
      ensures addChildValues == old(addChildValues) && indentString == old(indentString)
      ensures addChildValues ==> sout == old(sout) && childValues == old(childValues) + [t]
      ensures !addChildValues ==> sout == old(sout) + t
      decreases e, 1
    {
      hide Wrote, AllSpaces;
      ElementWritable(e, i);
      match Find(e, Index(i)) {
        case None =>
          assert Wrote(NULL_TEXT, [NULL_TEXT], false) by { WroteOne(NULL_TEXT, false); }
          t := PushLeaf(NULL_TEXT, [NULL_TEXT]);
        case Some(v) => t := WriteValue(v);
      }
    }

    method WriteLines(e: Entries, size: nat) returns (ghost t: Bytes)
      requires Valid() && AllValid(e) && AllRealFree(e) && !addChildValues && size == Size(e) > 0
      requires childValues == [] || ChildrenReady(e, size)
      modifies this`sout, this`childValues, this`indentString, this`addChildValues, this`indented
      ensures Valid() && !addChildValues && indentString == old(indentString)
      ensures sout == old(sout) + t && Wrote(t, Tokens(Array(e)), false)
      decreases e, 3
    {
      hide Wrote, Quoted, Size, AllSpaces, Tokens, ElementTokens, OneElement;
      ElementRound(e, 0, size);
      OneByte(LBRACKET);
      OneByte(COMMA);
      OneByte(RBRACKET);
      t := WriteWithIndent([LBRACKET], [[LBRACKET]]);
      Indent();
      ghost var done := [[LBRACKET]];
      ghost var u;
      var hasChildValue := childValues != [];
      var index := 0;
      while true
        invariant 0 <= index < size && Valid() && !addChildValues && indentString == old(indentString) + indentation
        invariant hasChildValue ==> ChildrenReady(e, size)
        invariant sout == old(sout) + t && Wrote(t, done, false)
        invariant done + (OneElement(e, index) + ElementTokens(e, index + 1, size)) == [[LBRACKET]] + ElementTokens(e, 0, size)
        decreases size - index
      {
        if hasChildValue {
          u := WriteWithIndent(childValues[index], OneElement(e, index));
        } else {
          u := WriteIndented(e, index);
        }
        WroteConcat(t, done, u, OneElement(e, index), false);
        t, done := t + u, done + OneElement(e, index);
        index := index + 1;
        ElementRound(e, index, size);
        if index == size { break; }
        u := Emit([COMMA], [[COMMA]]);
        WroteConcat(t, done, u, [[COMMA]], false);
        t, done := t + u, done + [[COMMA]];
      }
      assert done == [[LBRACKET]] + ElementTokens(e, 0, size);
      Unindent();
      u := WriteWithIndent([RBRACKET], [[RBRACKET]]);
      WroteConcat(t, done, u, [[RBRACKET]], false);
      t := t + u;
      TokensOfArray(e);
    }

    method WriteIndented(e: Entries, i: nat) returns (ghost t: Bytes)
      requires Valid() && AllValid(e) && AllRealFree(e) && !addChildValues
      modifies this`sout, this`childValues, this`indentString, this`addChildValues, this`indented
      ensures Valid() && !addChildValues && indentString == old(indentString)
      ensures sout == old(sout) + t && Wrote(t, OneElement(e, i), false)
      decreases e, 2
    {
      hide Wrote, AllSpaces;
      t := [];
      assert Wrote([], [], false) by { WroteNothing(); }
      if !indented { t := WriteIndent(); }
      indented := true;
      ghost var u := WriteElement(e, i);
      indented := false;
      WroteConcat(t, [], u, OneElement(e, i), false);
      assert [] + OneElement(e, i) == OneElement(e, i);
      t := t + u;
    }

    method WriteOneLine(e: Entries, size: nat) returns (ghost t: Bytes)
      requires Valid() && !addChildValues && size == Size(e) > 0 && ChildrenReady(e, size)
      modifies this`sout
      ensures Valid() && sout == old(sout) + t && Wrote(t, Tokens(Array(e)), false)
    {
      hide Wrote, Quoted, Size, AllSpaces, Tokens, ElementTokens, OneElement;
      OneByte(LBRACKET);
      t := Emit([LBRACKET], [[LBRACKET]]);
      ghost var done := [[LBRACKET]];
      ghost var u := EmitSpace();
      WroteConcat(t, done, u, [], false);
      t := t + u;
      assert done + [] == done;
      for index := 0 to size
        invariant Valid() && ChildrenReady(e, size) && sout == old(sout) + t && Wrote(t, done, false)
        invariant done + ElementTokens(e, index, size) == [[LBRACKET]] + ElementTokens(e, 0, size)
      {
        ElementRound(e, index, size);
        if index > 0 {
          OneByte(COMMA);
          u := Emit([COMMA], [[COMMA]]);
          WroteConcat(t, done, u, [[COMMA]], false);
          t, done := t + u, done + [[COMMA]];
          u := EmitSpace();
          WroteConcat(t, done, u, [], false);
          t := t + u;
          assert done + [] == done;
        }
        u := Emit(childValues[index], OneElement(e, index));
        WroteConcat(t, done, u, OneElement(e, index), false);
        t, done := t + u, done + OneElement(e, index);
      }
      ElementRound(e, size, size);
      assert done == [[LBRACKET]] + ElementTokens(e, 0, size);
      u := EmitSpace();
      WroteConcat(t, done, u, [], false);
      t := t + u;
      assert done + [] == done;
      OneByte(RBRACKET);
      u := Emit([RBRACKET], [[RBRACKET]]);
      WroteConcat(t, done, u, [[RBRACKET]], false);
      t := t + u;
      TokensOfArray(e);
    }

    /** A space, unless the indentation is empty. */
    method EmitSpace() returns (ghost t: Bytes)
      requires Valid()
      modifies this`sout
      ensures Valid() && sout == old(sout) + t && Wrote(t, [], false)
    {
      t := if indentation != [] then [SPACE] else [];
      sout := sout + if indentation != [] then [SPACE] else [];
      WroteSpaces(t);
    }
  }

  lemma WroteNothing()
    ensures Wrote([], [], false)
  {
    WroteSpaces([]);
  }

  lemma OneByte(c: byte)
    requires !IsSpace(c)
    ensures Wrote([c], [[c]], false)
  {
    WroteOne([c], false);
  }

  lemma TwoBytes(a: byte, b: byte)
    requires !IsSpace(a) && !IsSpace(b)
    ensures Wrote([a, b], [[a], [b]], false)
  {
    OneByte(a);
    OneByte(b);
    WroteConcat([a], [[a]], [b], [[b]], false);
    assert [a] + [b] == [a, b] && [[a]] + [[b]] == [[a], [b]];
  }

  lemma ColonWrote(colonSymbol: Bytes)
    requires exists a, b :: AllSpaces(a) && AllSpaces(b) && colonSymbol == a + [COLON] + b
    ensures Wrote(colonSymbol, [[COLON]], false)
  {
    var a, b :| AllSpaces(a) && AllSpaces(b) && colonSymbol == a + [COLON] + b;
    WroteSpaces(a);
    OneByte(COLON);
    WroteSpaces(b);
    WroteConcat(a, [], [COLON], [[COLON]], false);
    assert [] + [[COLON]] == [[COLON]];
    WroteConcat(a + [COLON], [[COLON]], b, [], false);
    assert [[COLON]] + [] == [[COLON]];
  }
}
