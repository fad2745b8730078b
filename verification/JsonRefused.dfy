/** Which written texts are refused: those of a value nested too deep, and of one with a name that comes
    twice where that is not allowed. */
module JsonRefused {
  import opened Bytes
  import opened JsonValue
  import opened JsonArray
  import opened JsonLexer
  import opened JsonGrammar
  import opened JsonTokens
  import opened JsonScan
  import opened JsonParseBack
  import opened JsonRoundTrip

  /** Too deep is what exceeds the limit as it is written, holes as nulls and nothing beyond the size. */
  predicate Deep(f: Features, depth: nat, v: Value) { depth + Height(Filled(v)) - 1 > f.stackLimit }

  predicate Clashes(f: Features, v: Value) { f.rejectDupKeys && !NoClash(Filled(v)) }

  lemma {:induction false} FateIs(f: Features, depth: nat, v: Value)
    ensures FateOf(f, depth, v) == Read ==> !Deep(f, depth, v) && !Clashes(f, v)
    ensures FateOf(f, depth, v) == TooDeep ==> Deep(f, depth, v)
    ensures FateOf(f, depth, v) == Duplicate ==> Clashes(f, v)
    decreases v, 1
  {
    if depth <= f.stackLimit {
      match v {
        case Array(e) => ElementsFateIs(f, depth + 1, e, 0, Size(e));
        case Object(e) => MembersFateIs(f, depth + 1, e, {});
        case _ =>
      }
    }
  }

  predicate AllDeep(f: Features, depth: nat, filled: Entries) { depth + EntriesHeight(filled) - 1 > f.stackLimit }

  lemma {:induction false} ElementsFateIs(f: Features, depth: nat, e: Entries, i: nat, n: nat)
    requires depth - 1 <= f.stackLimit
    ensures var (fate, filled) := (ElementsFate(f, depth, e, i, n), FilledElements(e, i, n));
            && (fate == Read ==> !AllDeep(f, depth, filled) && !(f.rejectDupKeys && !AllNoClash(filled)))
            && (fate == TooDeep ==> AllDeep(f, depth, filled))
            && (fate == Duplicate ==> f.rejectDupKeys && !AllNoClash(filled))
    decreases e, n - i
  {
    hide Height, NoClash, FilledElement, ElementFate;
    if i < n {
      ElementFateIs(f, depth, e, i);
      ElementsFateIs(f, depth, e, i + 1, n);
    }
  }

  lemma {:induction false} ElementFateIs(f: Features, depth: nat, e: Entries, i: nat)
    ensures var (fate, filled) := (ElementFate(f, depth, e, i), FilledElement(e, i));
            var (deep, clash) := (depth + Height(filled) - 1 > f.stackLimit, f.rejectDupKeys && !NoClash(filled));
            (fate == Read ==> !deep && !clash) && (fate == TooDeep ==> deep) && (fate == Duplicate ==> clash)
    decreases e, 0
  {
    if Find(e, Index(i)).Some? {
      hide Height, NoClash, Filled;
      FateIs(f, depth, Find(e, Index(i)).value);
    }
  }

  lemma {:induction false} MembersFateIs(f: Features, depth: nat, e: Entries, seen: set<Bytes>)
    requires depth - 1 <= f.stackLimit
    ensures var (fate, filled) := (MembersFate(f, depth, e, seen), FilledMembers(e));
            var clash := f.rejectDupKeys && !(AllNoClash(filled) && NamesDiffer(filled, seen));
            && (fate == Read ==> !AllDeep(f, depth, filled) && !clash)
            && (fate == TooDeep ==> AllDeep(f, depth, filled))
            && (fate == Duplicate ==> clash)
    decreases e, 0
  {
    hide RereadText, KeyText, Height, NoClash, Filled, FateOf;
    if e.Entry? {
      FateIs(f, depth, e.value);
      MembersFateIs(f, depth, e.rest, seen + {RereadText(KeyText(e.key))});
    }
  }

  predicate RejectedForName(r: Parsed) { r.Parsed? && r.errors != [] && r.errors[0].DuplicateKey? }

  function RootErrors(f: Features, v: Value): seq<Error> {
    if f.strictRoot && !v.Array? && !v.Object? then [RootNotContainer] else []
  }

  /** Nothing but its strings stands against reading the value back. */
  predicate Accepted(f: Features, v: Value) { !Deep(f, 1, v) && !Clashes(f, v) && RootErrors(f, v) == [] }

  /** Every layout of a value with readable strings ends as its fate says. */
  lemma FateOfText(f: Features, text: Bytes, v: Value, root: Value)
    requires Spaced(text, Tokens(v)) && Readable(v)
    ensures FateOf(f, 1, v) == Read ==> Parse(f, text, root) == Parsed(JsonParseBack.Reread(v), RootErrors(f, v))
    ensures FateOf(f, 1, v) == TooDeep ==> Parse(f, text, root) == ParseThrown
    ensures FateOf(f, 1, v) == Duplicate ==> RejectedForName(Parse(f, text, root))
  {
    hide JsonLexer.ReadToken, NextToken, FirstToken, ReadValue, SpacedAt, Tokens, FateOf;
    assert Tokens(v) + [] == Tokens(v);
    ValueReads(f, text, 0, 1, root, v, []);
    if FateOf(f, 1, v) == Read {
      LexEnd(f, text, ReadValue(f, text, 0, 1, root).pos);
      SameKind(v);
    }
  }

  lemma SameKind(v: Value)
    requires Readable(v)
    ensures var r := JsonParseBack.Reread(v); r.Array? == v.Array? && r.Object? == v.Object?
  {}

  /** The written text of a value is read back exactly if the value is not too deep and, where duplicate
      names are refused, no two names of an object are the same once re-read. A value that is too deep but
      has no such names ends in the exception, and one that has them but is not too deep is rejected for
      them; one that is both ends in one of the two ways. */
  lemma ReadBackIff(f: Features, text: Bytes, v: Value, root: Value)
    requires Spaced(text, Tokens(v)) && Readable(v)
    ensures var r := Parse(f, text, root);
            && (!Deep(f, 1, v) && !Clashes(f, v) <==> r == Parsed(JsonParseBack.Reread(v), RootErrors(f, v)))
            && (!Clashes(f, v) ==> (r == ParseThrown <==> Deep(f, 1, v)))
            && (!Deep(f, 1, v) ==> (RejectedForName(r) <==> Clashes(f, v)))
            && (Deep(f, 1, v) && Clashes(f, v) ==> r == ParseThrown || RejectedForName(r))
  {
    hide Parse, Deep, Clashes, FateOf, Spaced, Readable;
    FateIs(f, 1, v);
    FateOfText(f, text, v, root);
  }
}
