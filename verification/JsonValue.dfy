/** `Json::Value`: the tree, its containers (`std::map<CZString, Value>` kept as a list in key
    order), and the comparison operators. */
module JsonValue {
  import opened Bytes
  import opened JsonNumber

  /** `CZString`: an array index or a member name. */
  datatype Key = Index(i: nat) | Name(text: Bytes)

  /** The entries of one container, in increasing key order. */
  datatype Entries = End | Entry(key: Key, value: Value, rest: Entries)

  /** A real number is kept as the token text it was scanned from. */
  datatype Value =
    | Null
    | Int(i: int)
    | UInt(u: int)
    | Real(text: Bytes)
    | Str(s: Bytes)
    | Bool(b: bool)
    | Array(elements: Entries)
    | Object(members: Entries)

  // ---------------------------------------------------------------- key order

  /** `memcmp` on the common prefix, then the lengths. */
  predicate BytesLess(a: Bytes, b: Bytes) {
    if b == [] then false
    else if a == [] then true
    else if a[0] != b[0] then a[0] < b[0]
    else BytesLess(a[1..], b[1..])
  }

  /** `CZString::operator<`; keys of one container are all of one kind. */
  predicate KeyLess(a: Key, b: Key) {
    match (a, b)
    case (Index(i), Index(j)) => i < j
    case (Name(s), Name(t)) => BytesLess(s, t)
    case _ => false
  }

  predicate SameKind(a: Key, b: Key) { a.Index? == b.Index? }

  lemma {:induction false} BytesOrder(a: Bytes, b: Bytes, c: Bytes)
    ensures !BytesLess(a, a)
    ensures !(BytesLess(a, b) && BytesLess(b, a))
    ensures BytesLess(a, b) || BytesLess(b, a) || a == b
    ensures BytesLess(a, b) && BytesLess(b, c) ==> BytesLess(a, c)
    decreases |a| + |b| + |c|
  {
    if a != [] {
      if |a| > 1 || |b| > 0 || |c| > 0 {
        BytesOrder(a[1..], if b == [] then [] else b[1..], if c == [] then [] else c[1..]);
      } else {
        assert !BytesLess(a[1..], a[1..]);
      }
      if b != [] && a[0] == b[0] && a[1..] == b[1..] {
        assert a == [a[0]] + a[1..] && b == [b[0]] + b[1..];
      }
    }
  }

  lemma KeyOrder(a: Key, b: Key, c: Key)
    ensures !KeyLess(a, a)
    ensures !(KeyLess(a, b) && KeyLess(b, a))
    ensures SameKind(a, b) ==> KeyLess(a, b) || KeyLess(b, a) || a == b
    ensures KeyLess(a, b) && KeyLess(b, c) ==> KeyLess(a, c)
  {
    if a.Name? && b.Name? {
      BytesOrder(a.text, b.text, if c.Name? then c.text else []);
    } else if a.Name? {
      BytesOrder(a.text, a.text, a.text);
    }
  }

  // ---------------------------------------------------------------- std::map operations

  function Count(e: Entries): nat { if e.End? then 0 else 1 + Count(e.rest) }

  function Find(e: Entries, k: Key): (r: Option<Value>)
    ensures r.Some? ==> r.value < e
  {
    if e.End? then None else if e.key == k then Some(e.value) else Find(e.rest, k)
  }

  /** `(*map)[k] = v`: insert in key order or overwrite. */
  function Put(e: Entries, k: Key, v: Value): Entries {
    if e.End? then Entry(k, v, End)
    else if e.key == k then Entry(k, v, e.rest)
    else if KeyLess(k, e.key) then Entry(k, v, e)
    else Entry(e.key, e.value, Put(e.rest, k, v))
  }

  function Erase(e: Entries, k: Key): Entries {
    if e.End? then End else if e.key == k then e.rest else Entry(e.key, e.value, Erase(e.rest, k))
  }

  /** Keys strictly increasing and above `low`. */
  predicate SortedAbove(e: Entries, low: Key) {
    e.Entry? ==> SameKind(low, e.key) && KeyLess(low, e.key) && SortedAbove(e.rest, e.key)
  }

  predicate Sorted(e: Entries, indexed: bool) {
    e.Entry? ==> e.key.Index? == indexed && SortedAbove(e.rest, e.key)
  }

  lemma {:induction false} FindBelow(e: Entries, low: Key, k: Key)
    requires SortedAbove(e, low) && SameKind(low, k) && !KeyLess(low, k)
    ensures Find(e, k) == None
  {
    if e.Entry? {
      KeyOrder(low, e.key, k);
      KeyOrder(low, k, e.key);
      KeyOrder(e.key, k, low);
      FindBelow(e.rest, e.key, k);
    }
  }

  lemma {:induction false} PutAbove(e: Entries, low: Key, k: Key, v: Value)
    requires SortedAbove(e, low) && SameKind(low, k) && KeyLess(low, k)
    ensures SortedAbove(Put(e, k, v), low)
    ensures Find(Put(e, k, v), k) == Some(v)
    ensures forall j :: j != k ==> Find(Put(e, k, v), j) == Find(e, j)
  {
    if e.Entry? && e.key != k {
      KeyOrder(k, e.key, low);
      if !KeyLess(k, e.key) { PutAbove(e.rest, e.key, k, v); }
    }
  }

  /** Writing an entry keeps the order and changes that entry only. */
  lemma {:induction false} PutKeepsOrder(e: Entries, indexed: bool, k: Key, v: Value)
    requires Sorted(e, indexed) && k.Index? == indexed
    ensures Sorted(Put(e, k, v), indexed)
    ensures Find(Put(e, k, v), k) == Some(v)
    ensures forall j :: j != k ==> Find(Put(e, k, v), j) == Find(e, j)
  {
    if e.Entry? && e.key != k {
      KeyOrder(k, e.key, k);
      if !KeyLess(k, e.key) { PutAbove(e.rest, e.key, k, v); }
    }
  }

  // ---------------------------------------------------------------- shape

  /** What every reachable value satisfies: containers in key order and of one key kind, integers
      in their 64-bit ranges. */
  predicate Valid(v: Value) {
    match v
    case Int(i) => MIN_LARGEST_INT <= i <= MAX_LARGEST_INT
    case UInt(u) => 0 <= u <= MAX_LARGEST_UINT
    case Array(e) => Sorted(e, true) && AllValid(e)
    case Object(e) => Sorted(e, false) && AllValid(e)
    case _ => true
  }

  predicate AllValid(e: Entries) { e.Entry? ==> Valid(e.value) && AllValid(e.rest) }

  predicate RealFree(v: Value) {
    match v
    case Real(_) => false
    case Array(e) => AllRealFree(e)
    case Object(e) => AllRealFree(e)
    case _ => true
  }

  predicate AllRealFree(e: Entries) { e.Entry? ==> RealFree(e.value) && AllRealFree(e.rest) }

  // ---------------------------------------------------------------- comparison

  function TypeCode(v: Value): nat {
    match v
    case Null => 0
    case Int(_) => 1
    case UInt(_) => 2
    case Real(_) => 3
    case Str(_) => 4
    case Bool(_) => 5
    case Array(_) => 6
    case Object(_) => 7
  }

  /** `int(size() - other.size())`: an unsigned difference cut to an `int`. */
  function SizeDelta(a: Entries, b: Entries): int { ToInt32(ToUInt64(Count(a) - Count(b))) }

  function Weight(v: Value): nat {
    match v
    case Array(e) => 1 + EntriesWeight(e)
    case Object(e) => 1 + EntriesWeight(e)
    case _ => 1
  }

  function EntriesWeight(e: Entries): nat {
    if e.End? then 0 else 1 + Weight(e.value) + EntriesWeight(e.rest)
  }

  /** `Value::operator<`. Two reals are not compared here. */
  predicate Less(a: Value, b: Value)
    decreases Weight(a) + Weight(b)
  {
    if TypeCode(a) != TypeCode(b) then TypeCode(a) < TypeCode(b)
    else
      match a
      case Int(i) => i < b.i
      case UInt(u) => u < b.u
      case Bool(x) => !x && b.b
      case Str(s) => BytesLess(s, b.s)
      case Array(e) => if SizeDelta(e, b.elements) != 0 then SizeDelta(e, b.elements) < 0 else EntriesLess(e, b.elements)
      case Object(e) => if SizeDelta(e, b.members) != 0 then SizeDelta(e, b.members) < 0 else EntriesLess(e, b.members)
      case _ => false
  }

  /** `operator<` of `std::map`: lexicographic, with `std::pair`'s own `operator<` on each entry. */
  predicate EntriesLess(a: Entries, b: Entries)
    decreases EntriesWeight(a) + EntriesWeight(b)
  {
    if b.End? then false
    else if a.End? then true
    else if KeyLess(a.key, b.key) || (!KeyLess(b.key, a.key) && Less(a.value, b.value)) then true
    else if KeyLess(b.key, a.key) || (!KeyLess(a.key, b.key) && Less(b.value, a.value)) then false
    else EntriesLess(a.rest, b.rest)
  }

  /** `Value::operator==`. */
  predicate Equal(a: Value, b: Value) {
    TypeCode(a) == TypeCode(b) &&
    match a
    case Null => true
    case Int(i) => i == b.i
    case UInt(u) => u == b.u
    case Bool(x) => x == b.b
    case Str(s) => s == b.s
    case Array(e) => Count(e) == Count(b.elements) && EntriesEqual(e, b.elements)
    case Object(e) => Count(e) == Count(b.members) && EntriesEqual(e, b.members)
    case Real(_) => false
  }

  predicate EntriesEqual(a: Entries, b: Entries) {
    if a.End? || b.End? then a.End? && b.End?
    else a.key == b.key && Equal(a.value, b.value) && EntriesEqual(a.rest, b.rest)
  }
}
