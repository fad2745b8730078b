/** The converse of the round trip: among values whose strings are UTF-8, only the faithful ones
    come back unchanged. */
module JsonFaithful {
  import opened Bytes
  import opened JsonString
  import opened JsonStringLaws
  import opened JsonValue
  import opened JsonArray
  import opened JsonLexer
  import opened JsonGrammar
  import opened JsonTokens
  import opened JsonParseBack
  import opened JsonRoundTrip
  import opened JsonRefused

  // ---------------------------------------------------------------- encodings are unique

  lemma FirstByte(cp: nat)
    requires cp <= 0x10FFFF
    ensures var b := CodePointToUtf8(cp);
            && |b| == (if cp <= 0x7F then 1 else if cp <= 0x7FF then 2 else if cp <= 0xFFFF then 3 else 4)
            && (|b| == 1 <==> b[0] < 0x80) && (|b| == 2 <==> 0x80 <= b[0] < 0xE0) && (|b| == 3 <==> 0xE0 <= b[0] < 0xF0)
  {}

  /** The code point spelled by the bytes of its encoding. */
  function Spelled(b: Bytes): int {
    if |b| == 1 then b[0] as int
    else if |b| == 2 then (b[0] as int - 0xC0) * 64 + (b[1] as int - 0x80)
    else if |b| == 3 then (b[0] as int - 0xE0) * 4096 + (b[1] as int - 0x80) * 64 + (b[2] as int - 0x80)
    else if |b| == 4 then
      (b[0] as int - 0xF0) * 262144 + (b[1] as int - 0x80) * 4096 + (b[2] as int - 0x80) * 64 + (b[3] as int - 0x80)
    else 0
  }

  lemma Sextets(n: nat)
    ensures n == n / 64 * 64 + n % 64
    ensures n / 64 == n / 4096 * 64 + n / 64 % 64
  {
    assert n / 64 / 64 == n / 4096;
  }

  lemma SpelledBack(cp: nat)
    requires cp <= 0x10FFFF
    ensures Spelled(CodePointToUtf8(cp)) == cp
  {
    Sextets(cp);
    if cp > 0xFFFF { TopSextets(cp); }
  }

  lemma TopSextets(cp: nat)
    requires 0xFFFF < cp <= 0x10FFFF
    ensures cp / 4096 == cp / 262144 * 64 + cp / 4096 % 64 && cp / 262144 % 8 == cp / 262144
  {
    assert cp / 4096 / 64 == cp / 262144;
  }

  /** No encoding begins another, surrogates included. */
  lemma EncodingUnique(a: nat, b: nat, x: Bytes, y: Bytes)
    requires a <= 0x10FFFF && b <= 0x10FFFF && CodePointToUtf8(a) + x == CodePointToUtf8(b) + y
    ensures a == b && x == y
  {
    hide CodePointToUtf8;
    var p, q := CodePointToUtf8(a), CodePointToUtf8(b);
    FirstByte(a);
    FirstByte(b);
    assert (p + x)[0] == p[0] && (q + y)[0] == q[0];
    assert |p| == |q|;
    assert p == (p + x)[..|p|] == (q + y)[..|q|] == q;
    assert x == (p + x)[|p|..] == (q + y)[|q|..] == y;
    SpelledBack(a);
    SpelledBack(b);
  }

  /** What is read back, if it is UTF-8 at all, is faithful: reading never yields a text that a
      second reading would change. */
  lemma {:induction false} RereadIsFaithful(m: seq<nat>, n: seq<nat>)
    requires AllScalar(m) && AllScalar(n) && RereadAll(m) == Utf8(n)
    ensures forall i :: 0 <= i < |n| ==> Faithful(n[i])
    decreases |m|
  {
    hide CodePointToUtf8;
    if n != [] {
      var c := n[0];
      assert Scalar(c);
      FirstByte(c);
      assert m != [];
      assert Scalar(m[0]);
      assert AllScalar(m[1..]) && AllScalar(n[1..]);
      var rest := RereadAll(m[1..]);
      if m[0] >= 0x40000 {
        NoUnits(m[0], rest, n);
      } else {
        var u := if 0xE000 <= m[0] < 0x10000 then REPLACEMENT else m[0];
        EncodingUnique(u, c, rest, Utf8(n[1..]));
        RereadIsFaithful(m[1..], n[1..]);
        assert forall i :: 0 < i < |n| ==> n[i] == n[1..][i - 1];
      }
    }
  }

  /** The broken pair of units is not UTF-8. */
  lemma NoUnits(cp: nat, rest: Bytes, n: seq<nat>)
    requires Scalar(cp) && cp >= 0x40000 && AllScalar(n) && n != []
    ensures JsonStringLaws.Reread(cp) + rest != Utf8(n)
  {
    hide CodePointToUtf8;
    var h, l := HighUnit(cp) % 0x10000, LowUnit(cp);
    if JsonStringLaws.Reread(cp) + rest == Utf8(n) {
      assert Scalar(n[0]);
      assert CodePointToUtf8(h) + (CodePointToUtf8(l) + rest) == CodePointToUtf8(n[0]) + Utf8(n[1..]);
      EncodingUnique(h, n[0], CodePointToUtf8(l) + rest, Utf8(n[1..]));
      FirstByte(l);
      EncodingUnique(l, n[1], rest, Utf8(n[1..][1..]));
    }
  }

  // ---------------------------------------------------------------- values

  ghost predicate IsUtf8(b: Bytes) { exists cps :: AllScalar(cps) && b == Utf8(cps) }

  lemma RereadTextFaithful(a: Bytes, b: Bytes)
    requires IsUtf8(a) && IsUtf8(b) && RereadText(a) == b
    ensures FaithfulText(b)
  {
    var m :| AllScalar(m) && a == Utf8(m);
    var n :| AllScalar(n) && b == Utf8(n);
    Utf8TextSurvives(m);
    RereadIsFaithful(m, n);
  }

  /** Real-free, every string and name UTF-8. Arrays may have holes. */
  ghost predicate Utf8Value(v: Value) {
    match v
    case Real(_) => false
    case Str(s) => IsUtf8(s)
    case Array(e) => AllUtf8(e)
    case Object(e) => AllUtf8(e)
    case _ => true
  }

  ghost predicate AllUtf8(e: Entries) {
    e.Entry? ==>
      && Utf8Value(e.value) && IsUtf8(KeyText(e.key))
      && |KeyText(e.key)| < MAX_KEY_LENGTH && |RereadText(KeyText(e.key))| < MAX_KEY_LENGTH
      && AllUtf8(e.rest)
  }

  lemma {:induction false} FoundUtf8(e: Entries, k: Key)
    requires AllUtf8(e) && Find(e, k).Some?
    ensures Utf8Value(Find(e, k).value) && IsUtf8(KeyText(k)) && |KeyText(k)| < MAX_KEY_LENGTH
  {
    if e.key != k { FoundUtf8(e.rest, k); }
  }

  lemma {:induction false} CollectFaithful(e: Entries, indexed: bool)
    requires Sorted(e, indexed)
    requires forall k :: Find(e, k).Some? ==>
               FaithfulValue(Find(e, k).value) && FaithfulText(KeyText(k)) && |KeyText(k)| < MAX_KEY_LENGTH
    ensures AllFaithful(e)
  {
    if e.Entry? {
      assert Find(e, e.key) == Some(e.value);
      forall k | Find(e.rest, k).Some?
        ensures FaithfulValue(Find(e.rest, k).value) && FaithfulText(KeyText(k)) && |KeyText(k)| < MAX_KEY_LENGTH
      {
        if k == e.key {
          KeyOrder(k, k, k);
          FindBelow(e.rest, e.key, k);
        }
        assert Find(e, k) == Find(e.rest, k);
      }
      CollectFaithful(e.rest, indexed);
    }
  }

  /** Every name read back comes from some member. */
  lemma {:induction false} MemberOrigin(e: Entries, acc: Entries, k: Key)
    requires Sorted(acc, false) && Find(RereadMembers(e, acc), k).Some? && Find(acc, k).None?
    ensures exists j :: Find(e, j).Some? && k == Name(RereadText(KeyText(j)))
  {
    if e.Entry? {
      var name, value := Name(RereadText(KeyText(e.key))), JsonParseBack.Reread(e.value);
      PutKeepsOrder(acc, false, name, value);
      assert Find(e, e.key).Some?;
      if k != name {
        MemberOrigin(e.rest, Put(acc, name, value), k);
        var j :| Find(e.rest, j).Some? && k == Name(RereadText(KeyText(j)));
        assert Find(e, j).Some?;
      }
    }
  }

  /** With faithful names the members are re-read one by one. */
  lemma {:induction false} NamedLookup(e: Entries, acc: Entries, k: Key)
    requires Sorted(e, false) && Sorted(acc, false)
    requires forall j :: Find(e, j).Some? ==> FaithfulText(KeyText(j))
    ensures Find(RereadMembers(e, acc), k)
            == if Find(e, k).Some? then Some(JsonParseBack.Reread(Find(e, k).value)) else Find(acc, k)
  {
    if e.Entry? {
      var value := JsonParseBack.Reread(e.value);
      assert Find(e, e.key).Some?;
      FaithfulTextUnchanged(e.key.text);
      PutKeepsOrder(acc, false, e.key, value);
      assert forall j :: Find(e.rest, j).Some? ==> Find(e, j).Some?;
      NamedLookup(e.rest, Put(acc, e.key, value), k);
      if e.key == k {
        KeyOrder(k, k, k);
        FindBelow(e.rest, e.key, k);
      }
    }
  }

  lemma {:induction false} NameFound(e: Entries, k: Key)
    requires Sorted(e, false) && Find(e, k).Some?
    ensures k.Name?
  {
    if e.key != k { NameFound(e.rest, k); }
  }

  /** The names of an object that comes back with the same names are faithful. */
  lemma NamesMustBeFaithful(e: Entries, k: Key)
    requires Sorted(e, false) && AllUtf8(e) && RereadMembers(e, End) == RetagAll(FilledMembers(e)) && Find(e, k).Some?
    ensures FaithfulText(KeyText(k))
  {
    RetagAllLookup(FilledMembers(e), k);
    FilledMembersLookup(e, k);
    MemberOrigin(e, End, k);
    NameFound(e, k);
    var j :| Find(e, j).Some? && k == Name(RereadText(KeyText(j)));
    FoundUtf8(e, j);
    FoundUtf8(e, k);
    RereadTextFaithful(KeyText(j), KeyText(k));
  }

  /** A value that comes back unchanged has only faithful strings among those that are written. */
  lemma {:induction false} UnchangedOnlyIfFaithful(v: Value)
    requires Utf8Value(v) && Valid(v) && JsonParseBack.Reread(v) == Retag(Filled(v))
    ensures FaithfulValue(Filled(v))
    decreases v, 1
  {
    match v {
      case Str(s) => RereadTextFaithful(s, s);
      case Array(e) => ElementsOnlyIfFaithful(e);
      case Object(e) => MembersOnlyIfFaithful(e);
      case _ =>
    }
  }

  lemma {:induction false} MembersOnlyIfFaithful(e: Entries)
    requires Sorted(e, false) && AllUtf8(e) && AllValid(e) && RereadMembers(e, End) == RetagAll(FilledMembers(e))
    ensures AllFaithful(FilledMembers(e))
    decreases e, 1
  {
    hide Filled, Retag;
    var g := FilledMembers(e);
    forall k | Find(e, k).Some? ensures FaithfulText(KeyText(k)) { NamesMustBeFaithful(e, k); }
    forall k | Find(g, k).Some?
      ensures FaithfulValue(Find(g, k).value) && FaithfulText(KeyText(k)) && |KeyText(k)| < MAX_KEY_LENGTH
    {
      FilledMembersLookup(e, k);
      NamedLookup(e, End, k);
      RetagAllLookup(g, k);
      FoundUtf8(e, k);
      FoundValid(e, k);
      UnchangedOnlyIfFaithful(Find(e, k).value);
    }
    if e.Entry? { FilledMembersAbove(e.rest, e.key); }
    CollectFaithful(g, false);
  }

  lemma {:induction false} ElementsOnlyIfFaithful(e: Entries)
    requires AllUtf8(e) && AllValid(e)
    requires RereadElements(e, 0, Size(e), End) == RetagAll(FilledElements(e, 0, Size(e)))
    ensures AllFaithful(FilledElements(e, 0, Size(e)))
    decreases e, 1
  {
    hide Size, Filled, Retag;
    var n, g := Size(e), FilledElements(e, 0, Size(e));
    RereadElementsLookup(e, 0, n, End);
    FilledElementsLookup(e, 0, n);
    NoName();
    forall k | Find(g, k).Some?
      ensures FaithfulValue(Find(g, k).value) && FaithfulText(KeyText(k)) && |KeyText(k)| < MAX_KEY_LENGTH
    {
      RetagAllLookup(g, k);
      if Find(e, k).Some? {
        FoundUtf8(e, k);
        FoundValid(e, k);
        UnchangedOnlyIfFaithful(Find(e, k).value);
      }
    }
    CollectFaithful(g, true);
  }

  // ---------------------------------------------------------------- documents

  lemma {:induction false} Utf8Readable(v: Value)
    requires Utf8Value(v) && Valid(v)
    ensures Readable(v)
    decreases v
  {
    match v {
      case Str(s) => Utf8Survives(s);
      case Array(e) => AllUtf8Readable(e);
      case Object(e) =>
        AllUtf8Readable(e);
        Utf8NamesReadable(e);
      case _ =>
    }
  }

  lemma {:induction false} AllUtf8Readable(e: Entries)
    requires AllUtf8(e) && AllValid(e)
    ensures AllReadable(e)
    decreases e
  {
    if e.Entry? {
      Utf8Readable(e.value);
      AllUtf8Readable(e.rest);
    }
  }

  lemma {:induction false} Utf8NamesReadable(e: Entries)
    requires AllUtf8(e)
    ensures NamesReadable(e)
  {
    if e.Entry? {
      Utf8Survives(KeyText(e.key));
      Utf8NamesReadable(e.rest);
    }
  }

  lemma Utf8Survives(b: Bytes)
    requires IsUtf8(b)
    ensures Survives(b)
  {
    var cps :| AllScalar(cps) && b == Utf8(cps);
    Utf8TextSurvives(cps);
  }

  /** The exact round trip: every layout of a value with UTF-8 strings parses without an error if and only
      if the value is accepted, and to the value itself, array holes read as null, up to the integer tags,
      if and only if moreover every string that is written is faithful. */
  lemma RoundTripIff(f: Features, text: Bytes, v: Value, root: Value)
    requires Utf8Value(v) && Valid(v) && Spaced(text, Tokens(v))
    ensures var r := Parse(f, text, root);
            && (Accepted(f, v) <==> r.Parsed? && r.errors == [])
            && (Accepted(f, v) ==> r.root == JsonParseBack.Reread(v))
            && (Accepted(f, v) && FaithfulValue(Filled(v)) <==> r == Parsed(Retag(Filled(v)), []))
            && (!Clashes(f, v) ==> (r == ParseThrown <==> Deep(f, 1, v)))
            && (!Deep(f, 1, v) ==> (RejectedForName(r) <==> Clashes(f, v)))
    ensures JsonParseBack.Reread(v) == Retag(Filled(v)) <==> FaithfulValue(Filled(v))
  {
    hide Spaced, Parse, Deep, Clashes, FateOf;
    Utf8Readable(v);
    FateIs(f, 1, v);
    FateOfText(f, text, v, root);
    if FaithfulValue(Filled(v)) { FilledUnchanged(v); }
    if JsonParseBack.Reread(v) == Retag(Filled(v)) { UnchangedOnlyIfFaithful(v); }
  }
}
