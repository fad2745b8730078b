/** Whole documents: any layout parses back, and which values come back unchanged. */
module JsonRoundTrip {
  import opened Bytes
  import opened JsonStringLaws
  import opened JsonNumber
  import opened JsonValue
  import opened JsonArray
  import opened JsonLexer
  import opened JsonGrammar
  import opened JsonTokens
  import opened JsonScan
  import opened JsonParseBack

  /** Every layout of the tokens of `v`, whatever white space it uses, parses without an error to
      the one value `Reread(v)`. */
  lemma LaidOutTextParses(f: Features, text: Bytes, v: Value, root: Value)
    requires Spaced(text, Tokens(v)) && Fits(f, 1, v)
    requires f.strictRoot ==> v.Array? || v.Object?
    ensures Parse(f, text, root) == Parsed(JsonParseBack.Reread(v), [])
  {
    hide JsonLexer.ReadToken, NextToken, FirstToken, ReadValue, SpacedAt, Tokens;
    assert Tokens(v) + [] == Tokens(v);
    ValueReadsBack(f, text, 0, 1, root, v, []);
    LexEnd(f, text, ReadValue(f, text, 0, 1, root).pos);
  }

  // ---------------------------------------------------------------- faithful values

  /** UTF-8 text without the scalar values the writer or the reader damages. */
  ghost predicate FaithfulText(b: Bytes) {
    exists cps :: AllScalar(cps) && b == Utf8(cps) && forall i :: 0 <= i < |cps| ==> Faithful(cps[i])
  }

  /** All UTF-8 text is readable, and it is unchanged exactly when it is faithful. */
  lemma Utf8TextSurvives(cps: seq<nat>)
    requires AllScalar(cps)
    ensures Survives(Utf8(cps)) && RereadText(Utf8(cps)) == RereadAll(cps)
    ensures RereadText(Utf8(cps)) == Utf8(cps) <==> forall i :: 0 <= i < |cps| ==> Faithful(cps[i])
  {
    QuoteThenDecode(cps);
    SurvivesIff(cps);
  }

  lemma FaithfulTextUnchanged(b: Bytes)
    requires FaithfulText(b)
    ensures Survives(b) && RereadText(b) == b
  {
    var cps :| AllScalar(cps) && b == Utf8(cps) && forall i :: 0 <= i < |cps| ==> Faithful(cps[i]);
    Utf8TextSurvives(cps);
  }

  /** Real-free, every string and name faithful. Arrays may have holes. */
  ghost predicate FaithfulValue(v: Value) {
    match v
    case Real(_) => false
    case Str(s) => FaithfulText(s)
    case Array(e) => AllFaithful(e)
    case Object(e) => AllFaithful(e)
    case _ => true
  }

  ghost predicate AllFaithful(e: Entries) {
    e.Entry? ==>
      FaithfulValue(e.value) && FaithfulText(KeyText(e.key)) && |KeyText(e.key)| < MAX_KEY_LENGTH && AllFaithful(e.rest)
  }

  // ---------------------------------------------------------------- holes

  /** The value with the holes of its arrays filled by null, up to their size. */
  function Filled(v: Value): Value {
    match v
    case Array(e) => Array(FilledElements(e, 0, Size(e)))
    case Object(e) => Object(FilledMembers(e))
    case _ => v
  }

  function FilledElement(e: Entries, i: nat): Value
    decreases e, 0
  {
    match Find(e, Index(i))
    case None => Null
    case Some(v) => Filled(v)
  }

  function FilledElements(e: Entries, i: nat, n: nat): Entries
    decreases e, n - i
  {
    if i >= n then End else Entry(Index(i), FilledElement(e, i), FilledElements(e, i + 1, n))
  }

  function FilledMembers(e: Entries): Entries {
    if e.End? then End else Entry(e.key, Filled(e.value), FilledMembers(e.rest))
  }

  lemma {:induction false} FilledElementsLookup(e: Entries, i: nat, n: nat)
    ensures forall k :: Find(FilledElements(e, i, n), k) == if k.Index? && i <= k.i < n then Some(FilledElement(e, k.i)) else None
    ensures Sorted(FilledElements(e, i, n), true) && DenseFrom(FilledElements(e, i, n), i)
    ensures i > 0 ==> SortedAbove(FilledElements(e, i, n), Index(i - 1))
    decreases n - i
  {
    hide FilledElement;
    if i < n { FilledElementsLookup(e, i + 1, n); }
  }

  function FilledFound(o: Option<Value>): Option<Value> { if o.Some? then Some(Filled(o.value)) else None }

  lemma {:induction false} FilledMembersLookup(e: Entries, k: Key)
    ensures Find(FilledMembers(e), k) == FilledFound(Find(e, k))
  {
    if e.Entry? { FilledMembersLookup(e.rest, k); }
  }

  lemma {:induction false} FilledMembersAbove(e: Entries, low: Key)
    requires SortedAbove(e, low)
    ensures SortedAbove(FilledMembers(e), low)
  {
    if e.Entry? { FilledMembersAbove(e.rest, e.key); }
  }

  /** Filling holes loses nothing and adds only nulls: below the size every element stays at its
      index, and every element is below the size unless the last index is 2^32-1. */
  lemma FillingKeepsElements(e: Entries, k: Key)
    requires e.Entry? && Sorted(e, true) && LastKey(e).Index? && LastKey(e).i < 0xFFFF_FFFF
    ensures Find(e, k).Some? ==> Find(FilledElements(e, 0, Size(e)), k) == FilledFound(Find(e, k))
    ensures Find(FilledElements(e, 0, Size(e)), k).Some? && Find(e, k).None? ==> Find(FilledElements(e, 0, Size(e)), k).value == Null
  {
    LastKeyIsHighest(e);
    FilledElementsLookup(e, 0, Size(e));
    if Find(e, k).Some? && !k.Index? { IndexFound(e, k); }
  }

  lemma {:induction false} IndexFound(e: Entries, k: Key)
    requires Sorted(e, true) && Find(e, k).Some?
    ensures k.Index?
  {
    if e.key != k { IndexFound(e.rest, k); }
  }

  /** `size()` of an array whose last index is 2^32-1 is 0, so such an array is written empty. */
  lemma LastIndexLost(e: Entries)
    requires e.Entry? && LastKey(e) == Index(0xFFFF_FFFF)
    ensures Filled(Array(e)) == Array(End)
  {}

  /** Faithful strings stay faithful in what is left after filling. */
  lemma {:induction false} FilledFaithful(v: Value)
    requires FaithfulValue(v)
    ensures FaithfulValue(Filled(v))
    decreases v, 1
  {
    match v {
      case Array(e) => FilledElementsFaithful(e, 0, Size(e));
      case Object(e) => FilledMembersFaithful(e);
      case _ =>
    }
  }

  lemma {:induction false} FilledElementsFaithful(e: Entries, i: nat, n: nat)
    requires AllFaithful(e)
    ensures AllFaithful(FilledElements(e, i, n))
    decreases e, n - i
  {
    if i < n {
      if Find(e, Index(i)).Some? {
        FoundFaithful(e, Index(i));
        FilledFaithful(Find(e, Index(i)).value);
      }
      NoName();
      FilledElementsFaithful(e, i + 1, n);
    }
  }

  lemma NoName()
    ensures FaithfulText([])
  {
    var none: seq<nat> := [];
    assert AllScalar(none) && Utf8(none) == [];
  }

  lemma {:induction false} FilledMembersFaithful(e: Entries)
    requires AllFaithful(e)
    ensures AllFaithful(FilledMembers(e))
    decreases e, 1
  {
    if e.Entry? {
      FilledFaithful(e.value);
      FilledMembersFaithful(e.rest);
    }
  }

  // ---------------------------------------------------------------- integer tags

  /** The same value with the integer tags a reader gives. */
  function Retag(v: Value): Value {
    match v
    case Int(i) => NumberAsValue(Retagged(i))
    case UInt(u) => NumberAsValue(Retagged(u))
    case Array(e) => Array(RetagAll(e))
    case Object(e) => Object(RetagAll(e))
    case _ => v
  }

  function RetagAll(e: Entries): Entries {
    if e.End? then End else Entry(e.key, Retag(e.value), RetagAll(e.rest))
  }

  function RetagFound(o: Option<Value>): Option<Value> { if o.Some? then Some(Retag(o.value)) else None }

  lemma {:induction false} RetagAllLookup(e: Entries, k: Key)
    ensures Find(RetagAll(e), k) == RetagFound(Find(e, k))
  {
    if e.Entry? { RetagAllLookup(e.rest, k); }
  }

  lemma {:induction false} RetagAllAbove(e: Entries, low: Key)
    requires SortedAbove(e, low)
    ensures SortedAbove(RetagAll(e), low)
  {
    if e.Entry? { RetagAllAbove(e.rest, e.key); }
  }

  lemma {:induction false} RereadElementsLookup(e: Entries, i: nat, n: nat, acc: Entries)
    requires Sorted(acc, true)
    ensures Sorted(RereadElements(e, i, n, acc), true)
    ensures forall k :: Find(RereadElements(e, i, n, acc), k) ==
              if k.Index? && i <= k.i < n then Some(RereadElement(e, k.i)) else Find(acc, k)
    decreases n - i
  {
    if i < n {
      PutKeepsOrder(acc, true, Index(i), RereadElement(e, i));
      RereadElementsLookup(e, i + 1, n, Put(acc, Index(i), RereadElement(e, i)));
    }
  }

  lemma {:induction false} FoundFaithful(e: Entries, k: Key)
    requires AllFaithful(e) && Find(e, k).Some?
    ensures FaithfulValue(Find(e, k).value)
  {
    if e.key != k { FoundFaithful(e.rest, k); }
  }

  /** What comes back is the value with its holes read as null, up to the integer tags, whenever
      every string that is written is faithful. */
  lemma {:induction false} FilledUnchanged(v: Value)
    requires FaithfulValue(Filled(v)) && Valid(v)
    ensures JsonParseBack.Reread(v) == Retag(Filled(v))
    decreases v, 1
  {
    match v {
      case Str(s) => FaithfulTextUnchanged(s);
      case Array(e) => ElementsUnchanged(e);
      case Object(e) =>
        MembersUnchanged(e, End);
        if e.Entry? {
          FilledMembersAbove(e.rest, e.key);
          RetagAllAbove(FilledMembers(e.rest), e.key);
        }
        forall k ensures Find(RereadMembers(e, End), k) == Find(RetagAll(FilledMembers(e)), k) {
          RetagAllLookup(FilledMembers(e), k);
          FilledMembersLookup(e, k);
          MembersLookup(e, End, k);
        }
        MapExtensionality(RereadMembers(e, End), RetagAll(FilledMembers(e)), false);
      case _ =>
    }
  }

  lemma {:induction false} ElementsUnchanged(e: Entries)
    requires AllFaithful(FilledElements(e, 0, Size(e))) && AllValid(e)
    ensures RereadElements(e, 0, Size(e), End) == RetagAll(FilledElements(e, 0, Size(e)))
    decreases e, 1
  {
    hide Size, Retag, Filled;
    var n := Size(e);
    var r, g := RereadElements(e, 0, n, End), FilledElements(e, 0, n);
    RereadElementsLookup(e, 0, n, End);
    FilledElementsLookup(e, 0, n);
    forall k ensures Find(r, k) == Find(RetagAll(g), k) {
      RetagAllLookup(g, k);
      if k.Index? && k.i < n {
        if Find(e, k).Some? {
          FoundFaithful(g, k);
          FoundValid(e, k);
          FilledUnchanged(Find(e, k).value);
        } else {
          NullStays();
        }
      }
    }
    if g.Entry? { RetagAllAbove(g.rest, g.key); }
    MapExtensionality(r, RetagAll(g), true);
  }

  lemma NullStays()
    ensures Retag(Null) == Null
  {}

  lemma {:induction false} FoundValid(e: Entries, k: Key)
    requires AllValid(e) && Find(e, k).Some?
    ensures Valid(Find(e, k).value)
  {
    if e.key != k { FoundValid(e.rest, k); }
  }

  predicate AllNamed(e: Entries) { e.Entry? ==> e.key.Name? && AllNamed(e.rest) }

  lemma {:induction false} SortedNamed(e: Entries)
    requires Sorted(e, false)
    ensures AllNamed(e)
  {
    if e.Entry? { SortedNamed(e.rest); }
  }

  /** Re-reading the members inserts each one under its own name. */
  lemma {:induction false} MembersUnchanged(e: Entries, acc: Entries)
    requires Sorted(e, false) && AllFaithful(FilledMembers(e)) && AllValid(e) && Sorted(acc, false)
    ensures Sorted(RereadMembers(e, acc), false)
    decreases e, 0
  {
    if e.Entry? {
      FaithfulTextUnchanged(e.key.text);
      PutKeepsOrder(acc, false, e.key, JsonParseBack.Reread(e.value));
      MembersUnchanged(e.rest, Put(acc, e.key, JsonParseBack.Reread(e.value)));
    }
  }

  lemma {:induction false} MembersLookup(e: Entries, acc: Entries, k: Key)
    requires Sorted(e, false) && AllFaithful(FilledMembers(e)) && AllValid(e) && Sorted(acc, false)
    ensures Find(RereadMembers(e, acc), k) == if Find(e, k).Some? then RetagFound(FilledFound(Find(e, k))) else Find(acc, k)
    decreases e, 0
  {
    if e.Entry? {
      FaithfulTextUnchanged(e.key.text);
      FilledUnchanged(e.value);
      PutKeepsOrder(acc, false, e.key, Retag(Filled(e.value)));
      MembersLookup(e.rest, Put(acc, e.key, Retag(Filled(e.value))), k);
      if e.key == k {
        KeyOrder(k, k, k);
        FindBelow(e.rest, e.key, k);
      }
    }
  }

  // ---------------------------------------------------------------- faithful values fit

  lemma {:induction false} FaithfulReadable(v: Value)
    requires FaithfulValue(v) && Valid(v)
    ensures Readable(v) && NoClash(v)
    decreases v
  {
    match v {
      case Str(s) => FaithfulTextUnchanged(s);
      case Array(e) => AllFaithfulReadable(e);
      case Object(e) =>
        AllFaithfulReadable(e);
        SortedNamed(e);
        NamesFaithful(e);
        NamesStayDifferent(e, {});
      case _ =>
    }
  }

  lemma {:induction false} AllFaithfulReadable(e: Entries)
    requires AllFaithful(e) && AllValid(e)
    ensures AllReadable(e) && AllNoClash(e)
    decreases e
  {
    if e.Entry? {
      FaithfulReadable(e.value);
      AllFaithfulReadable(e.rest);
    }
  }

  lemma {:induction false} NamesFaithful(e: Entries)
    requires AllFaithful(e)
    ensures NamesReadable(e)
  {
    if e.Entry? {
      FaithfulTextUnchanged(KeyText(e.key));
      NamesFaithful(e.rest);
    }
  }

  lemma {:induction false} NamesStayDifferent(e: Entries, seen: set<Bytes>)
    requires Sorted(e, false) && AllFaithful(e)
    requires forall k :: Find(e, Name(k)).Some? ==> k !in seen
    ensures NamesDiffer(e, seen)
  {
    if e.Entry? {
      FaithfulTextUnchanged(KeyText(e.key));
      assert Find(e, Name(e.key.text)).Some?;
      KeyOrder(e.key, e.key, e.key);
      FindBelow(e.rest, e.key, e.key);
      assert forall k :: Find(e.rest, Name(k)).Some? ==> k != e.key.text && Find(e, Name(k)).Some?;
      NamesStayDifferent(e.rest, seen + {e.key.text});
    }
  }

  /** The round trip, for every real-free value with faithful strings no deeper than the stack limit:
      every layout of its tokens parses to the value itself, array holes read as null, up to the
      integer tags, duplicate-key rejection or not. */
  lemma FaithfulRoundTrip(f: Features, text: Bytes, v: Value, root: Value)
    requires FaithfulValue(v) && Valid(v) && Height(v) <= f.stackLimit
    requires f.strictRoot ==> v.Array? || v.Object?
    requires Spaced(text, Tokens(v))
    ensures Parse(f, text, root) == Parsed(Retag(Filled(v)), [])
  {
    hide Parse, Spaced;
    FaithfulReadable(v);
    LaidOutTextParses(f, text, v, root);
    FilledFaithful(v);
    FilledUnchanged(v);
  }
}
