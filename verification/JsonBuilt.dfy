/** What every value is that the reader builds, on accepted and rejected documents alike. */
module JsonBuilt {
  import opened Bytes
  import opened JsonValue
  import opened JsonArray
  import opened JsonLexer
  import opened JsonGrammar
  import opened JsonParseBack
  import opened JsonRoundTrip

  /** Every array at any depth is indexed 0, 1, 2, ... without holes. */
  predicate Dense(v: Value) {
    match v
    case Array(e) => DenseFrom(e, 0) && AllDense(e)
    case Object(e) => AllDense(e)
    case _ => true
  }

  predicate AllDense(e: Entries) { e.Entry? ==> Dense(e.value) && AllDense(e.rest) }

  /** In key order and in range, without array holes, and at most `h` deep. */
  predicate Built(v: Value, h: int) { Valid(v) && Dense(v) && Height(v) <= h }

  predicate AllBuilt(e: Entries, h: int) { AllValid(e) && AllDense(e) && EntriesHeight(e) <= h }

  lemma {:induction false} FoundBuilt(e: Entries, h: int, k: Key)
    requires AllBuilt(e, h) && Find(e, k).Some?
    ensures Built(Find(e, k).value, h)
  {
    if e.key != k { FoundBuilt(e.rest, h, k); }
  }

  lemma {:induction false} PutBuilt(e: Entries, h: int, k: Key, v: Value)
    requires AllBuilt(e, h) && Built(v, h)
    ensures AllBuilt(Put(e, k, v), h)
  {
    if e.Entry? && e.key != k { PutBuilt(e.rest, h, k, v); }
  }

  lemma {:induction false} PutDense(e: Entries, start: nat, k: nat, v: Value)
    requires DenseFrom(e, start) && k == start + Count(e)
    ensures DenseFrom(Put(e, Index(k), v), start) && Count(Put(e, Index(k), v)) == Count(e) + 1
  {
    if e.Entry? { PutDense(e.rest, start + 1, k, v); }
  }

  lemma {:induction false} DenseIsSorted(e: Entries, start: nat)
    requires DenseFrom(e, start)
    ensures Sorted(e, true)
  {
    if e.Entry? { DenseIsSorted(e.rest, start + 1); }
  }

  predicate OutcomeBuilt(r: Outcome, h: int) { r.Done? ==> Built(r.value, h) }

  /** Whatever the text, whether it ends in an error or not: if the value on top of the stack was
      well built, so is the one that replaces it, and it is nested at most as deep as the stack
      limit leaves room for. */
  lemma {:induction false} ReadValueBuilds(f: Features, s: Bytes, p: nat, depth: nat, cur: Value)
    requires p <= |s| && Built(cur, f.stackLimit - depth + 1)
    ensures OutcomeBuilt(ReadValue(f, s, p, depth, cur), f.stackLimit - depth + 1)
    decreases |s| - p, 0
  {
    hide NextToken, JsonLexer.ReadToken, FirstToken, ScalarOutcome;
    if depth <= f.stackLimit {
      var t := FirstToken(f, s, p);
      if t.typ == ObjectBegin {
        ReadObjectBuilds(f, s, t.end, depth, [], End);
      } else if t.typ == ArrayBegin {
        var q := SkipSpaces(s, t.end);
        if !(q < |s| && s[q] == RBRACKET) { ReadArrayBuilds(f, s, q, depth, 0, End); }
      } else {
        ScalarBuilt(f, s, t, cur, f.stackLimit - depth + 1);
      }
    }
  }

  lemma ScalarBuilt(f: Features, s: Bytes, t: Token, cur: Value, h: int)
    requires t.start <= t.end <= |s| && (t.typ == StringToken ==> t.start + 2 <= t.end)
    requires Built(cur, h) && h >= 1
    ensures OutcomeBuilt(ScalarOutcome(f, s, t, cur), h)
  {
    hide StringText;
  }

  lemma {:induction false} ReadObjectBuilds(f: Features, s: Bytes, p: nat, depth: nat, name: Bytes, obj: Entries)
    requires p <= |s| && depth <= f.stackLimit && AllBuilt(obj, f.stackLimit - depth) && Sorted(obj, false)
    ensures OutcomeBuilt(ReadObject(f, s, p, depth, name, obj), f.stackLimit - depth + 1)
    decreases |s| - p, 1
  {
    hide MemberHead, MemberTail, Recover, ReadValue;
    var h := MemberHead(f, s, p, name, obj);
    if h.Member? {
      var k, room := Name(h.name), f.stackLimit - depth;
      var cur := ValueOr(Find(obj, k));
      if Find(obj, k).Some? { FoundBuilt(obj, room, k); }
      var r := ReadValue(f, s, h.pos, depth + 1, cur);
      if depth < f.stackLimit || Find(obj, k).Some? {
        ReadValueBuilds(f, s, h.pos, depth + 1, cur);
      } else {
        TooDeep(f, s, h.pos, depth + 1, cur);
      }
      if r.Done? {
        PutBuilt(obj, room, k, r.value);
        PutKeepsOrder(obj, false, k, r.value);
        if r.err.None? {
          var t := MemberTail(f, s, r.pos);
          if t.More? { ReadObjectBuilds(f, s, t.pos, depth, h.name, Put(obj, k, r.value)); }
        }
      }
    }
  }

  lemma TooDeep(f: Features, s: Bytes, p: nat, depth: nat, cur: Value)
    requires p <= |s| && depth > f.stackLimit
    ensures ReadValue(f, s, p, depth, cur) == Thrown
  {}

  lemma {:induction false} ReadArrayBuilds(f: Features, s: Bytes, p: nat, depth: nat, index: nat, arr: Entries)
    requires p <= |s| && depth <= f.stackLimit && AllBuilt(arr, f.stackLimit - depth)
    requires DenseFrom(arr, 0) && Count(arr) == index
    ensures OutcomeBuilt(ReadArray(f, s, p, depth, index, arr), f.stackLimit - depth + 1)
    decreases |s| - p, 1
  {
    hide ElementTail, Recover, ReadValue;
    var k, room := Index(index), f.stackLimit - depth;
    var cur := ValueOr(Find(arr, k));
    if Find(arr, k).Some? { FoundBuilt(arr, room, k); }
    var r := ReadValue(f, s, p, depth + 1, cur);
    if depth < f.stackLimit || Find(arr, k).Some? {
      ReadValueBuilds(f, s, p, depth + 1, cur);
    } else {
      TooDeep(f, s, p, depth + 1, cur);
    }
    if r.Done? {
      PutBuilt(arr, room, k, r.value);
      PutDense(arr, 0, index, r.value);
      DenseIsSorted(Put(arr, k, r.value), 0);
      if r.err.None? {
        var t := ElementTail(f, s, r.pos);
        if t.More? { ReadArrayBuilds(f, s, t.pos, depth, index + 1, Put(arr, k, r.value)); }
      }
    }
  }

  /** Every document that is not refused by an exception leaves a root in key order, in range,
      without array holes, at most `stackLimit` deep. */
  lemma ParsedRootIsBuilt(f: Features, s: Bytes, root: Value)
    requires Built(root, f.stackLimit)
    ensures Parse(f, s, root).Parsed? ==> Built(Parse(f, s, root).root, f.stackLimit)
  {
    hide FirstToken, ReadValue;
    ReadValueBuilds(f, s, 0, 1, root);
  }

  /** Every array has fewer than 2^32 elements. */
  predicate Sized(v: Value) {
    match v
    case Array(e) => Count(e) < 0x1_0000_0000 && AllSized(e)
    case Object(e) => AllSized(e)
    case _ => true
  }

  predicate AllSized(e: Entries) { e.Entry? ==> Sized(e.value) && AllSized(e.rest) }

  /** Filling holes changes nothing in a value that has none, such as the reader builds. */
  lemma {:induction false} DenseIsFilled(v: Value)
    requires Dense(v) && Sized(v)
    ensures Filled(v) == v
    decreases v, 1
  {
    match v {
      case Array(e) =>
        DenseLookup(e);
        DenseIsSorted(e, 0);
        FilledElementsLookup(e, 0, Size(e));
        var g := FilledElements(e, 0, Size(e));
        forall k ensures Find(g, k) == Find(e, k) {
          if Find(e, k).Some? {
            FoundSized(e, k);
            DenseIsFilled(Find(e, k).value);
          }
        }
        MapExtensionality(g, e, true);
      case Object(e) => DenseMembersFilled(e);
      case _ =>
    }
  }

  lemma {:induction false} DenseMembersFilled(e: Entries)
    requires AllDense(e) && AllSized(e)
    ensures FilledMembers(e) == e
    decreases e, 0
  {
    if e.Entry? {
      DenseIsFilled(e.value);
      DenseMembersFilled(e.rest);
    }
  }

  lemma {:induction false} FoundSized(e: Entries, k: Key)
    requires AllDense(e) && AllSized(e) && Find(e, k).Some?
    ensures Dense(Find(e, k).value) && Sized(Find(e, k).value)
  {
    if e.key != k { FoundSized(e.rest, k); }
  }

  lemma DenseLookup(e: Entries)
    requires DenseFrom(e, 0) && Count(e) < 0x1_0000_0000
    ensures forall k :: Find(e, k).Some? <==> k.Index? && k.i < Size(e)
  {
    DenseIsFromSeq(e, 0);
    FromSeqLookup(Values(e), 0);
    CountValues(e);
    RepresentsIffDense(e, Values(e));
    SizeOfRepresented(e, Values(e));
  }

  lemma {:induction false} CountValues(e: Entries)
    ensures |Values(e)| == Count(e)
  {
    if e.Entry? { CountValues(e.rest); }
  }

  // ---------------------------------------------------------------- what is kept after an error

  lemma {:induction false} PutKeeps(e: Entries, k: Key, v: Value, j: Key)
    ensures Find(Put(e, k, v), j).Some? <==> j == k || Find(e, j).Some?
  {
    if e.Entry? { PutKeeps(e.rest, k, v, j); }
  }

  /** An object keeps every member it has begun to read, whether reading ends in an error or not. */
  lemma {:induction false} MembersAreKept(f: Features, s: Bytes, p: nat, depth: nat, last: Bytes, obj: Entries, k: Key)
    requires p <= |s| && ReadObject(f, s, p, depth, last, obj).Done?
    requires var h := MemberHead(f, s, p, last, obj); Find(obj, k).Some? || (h.Member? && k == Name(h.name))
    ensures var r := ReadObject(f, s, p, depth, last, obj); r.value.Object? && Find(r.value.members, k).Some?
    decreases |s| - p
  {
    hide ReadValue, MemberHead, MemberTail, Recover, Put;
    var h := MemberHead(f, s, p, last, obj);
    if h.Member? {
      var r := ReadValue(f, s, h.pos, depth + 1, ValueOr(Find(obj, Name(h.name))));
      PutKeeps(obj, Name(h.name), r.value, k);
      if r.err.None? && MemberTail(f, s, r.pos).More? {
        MembersAreKept(f, s, MemberTail(f, s, r.pos).pos, depth, h.name, Put(obj, Name(h.name), r.value), k);
      }
    }
  }
}
