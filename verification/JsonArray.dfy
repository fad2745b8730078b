/** Arrays as index-keyed maps: `Value::size`, `operator[]`, `append`, `resize`, `removeIndex`,
    against plain sequences. */
module JsonArray {
  import opened Bytes
  import opened JsonValue

  function LastKey(e: Entries): Key
    requires e.Entry?
  {
    if e.rest.End? then e.key else LastKey(e.rest)
  }

  /** `Value::size` of an array: the highest index plus one, as an unsigned 32-bit number. */
  function Size(e: Entries): (n: nat)
    ensures n < 0x1_0000_0000
  {
    if e.Entry? && LastKey(e).Index? then (LastKey(e).i + 1) % 0x1_0000_0000 else 0
  }

  /** The keys are exactly `start`, `start + 1`, ... */
  predicate DenseFrom(e: Entries, start: nat) {
    e.Entry? ==> e.key == Index(start) && DenseFrom(e.rest, start + 1)
  }

  function Values(e: Entries): seq<Value> { if e.End? then [] else [e.value] + Values(e.rest) }

  function FromSeq(vs: seq<Value>, start: nat): Entries {
    if vs == [] then End else Entry(Index(start), vs[0], FromSeq(vs[1..], start + 1))
  }

  /** Element lookup of a dense array of `vs`. */
  function Element(vs: seq<Value>, start: nat, k: Key): Option<Value> {
    if k.Index? && start <= k.i < start + |vs| then Some(vs[k.i - start]) else None
  }

  // ---------------------------------------------------------------- map facts

  lemma {:induction false} LastKeyIsHighest(e: Entries)
    requires e.Entry? && Sorted(e, true)
    ensures LastKey(e).Index? && Find(e, LastKey(e)).Some?
    ensures forall j: nat :: Find(e, Index(j)).Some? ==> j <= LastKey(e).i
    ensures e.key.i <= LastKey(e).i
  {
    if e.rest.Entry? {
      LastKeyIsHighest(e.rest);
      assert LastKey(e) == LastKey(e.rest);
    }
  }

  /** Two maps with the same lookups are the same map. */
  lemma {:induction false} MapExtensionality(a: Entries, b: Entries, indexed: bool)
    requires Sorted(a, indexed) && Sorted(b, indexed)
    requires forall k :: Find(a, k) == Find(b, k)
    ensures a == b
  {
    if a.Entry? { assert Find(a, a.key).Some?; }
    if b.Entry? { assert Find(b, b.key).Some?; }
    if a.Entry? && b.Entry? {
      KeyOrder(a.key, b.key, a.key);
      if KeyLess(a.key, b.key) { FindBelow(b.rest, b.key, a.key); }
      if KeyLess(b.key, a.key) { FindBelow(a.rest, a.key, b.key); }
      FindBelow(a.rest, a.key, a.key);
      FindBelow(b.rest, b.key, b.key);
      forall k ensures Find(a.rest, k) == Find(b.rest, k) {
        assert Find(a, k) == Find(b, k);
      }
      MapExtensionality(a.rest, b.rest, indexed);
    }
  }

  lemma {:induction false} EraseAbove(e: Entries, low: Key, k: Key)
    requires SortedAbove(e, low)
    ensures SortedAbove(Erase(e, k), low)
    ensures Find(Erase(e, k), k) == None
    ensures forall j :: j != k ==> Find(Erase(e, k), j) == Find(e, j)
  {
    if e.Entry? {
      if e.key == k {
        KeyOrder(k, k, k);
        FindBelow(e.rest, e.key, k);
        if e.rest.Entry? { KeyOrder(low, e.key, e.rest.key); }
      } else {
        EraseAbove(e.rest, e.key, k);
      }
    }
  }

  /** Erasing removes that key only and keeps the order. */
  lemma {:induction false} EraseKeepsOrder(e: Entries, indexed: bool, k: Key)
    requires Sorted(e, indexed)
    ensures Sorted(Erase(e, k), indexed)
    ensures Find(Erase(e, k), k) == None
    ensures forall j :: j != k ==> Find(Erase(e, k), j) == Find(e, j)
  {
    if e.Entry? {
      KeyOrder(k, k, k);
      if e.key == k { FindBelow(e.rest, e.key, k); } else { EraseAbove(e.rest, e.key, k); }
    }
  }

  lemma {:induction false} FromSeqLookup(vs: seq<Value>, start: nat)
    ensures DenseFrom(FromSeq(vs, start), start) && Values(FromSeq(vs, start)) == vs
    ensures Sorted(FromSeq(vs, start), true)
    ensures start > 0 ==> SortedAbove(FromSeq(vs, start), Index(start - 1))
    ensures forall k :: Find(FromSeq(vs, start), k) == Element(vs, start, k)
    decreases |vs|
  {
    if vs != [] {
      FromSeqLookup(vs[1..], start + 1);
      forall k ensures Find(FromSeq(vs, start), k) == Element(vs, start, k) {
        assert Find(FromSeq(vs[1..], start + 1), k) == Element(vs[1..], start + 1, k);
      }
    }
  }

  lemma {:induction false} DenseIsFromSeq(e: Entries, start: nat)
    requires DenseFrom(e, start)
    ensures e == FromSeq(Values(e), start)
  {
    if e.Entry? { DenseIsFromSeq(e.rest, start + 1); }
  }

  /** The representation relation: the map holds exactly the elements of `vs`. */
  ghost predicate Represents(e: Entries, vs: seq<Value>) {
    Sorted(e, true) && forall k :: Find(e, k) == Element(vs, 0, k)
  }

  /** A map represents a sequence exactly when it is dense, and then that sequence is its values. */
  lemma RepresentsIffDense(e: Entries, vs: seq<Value>)
    ensures Represents(e, vs) <==> DenseFrom(e, 0) && Values(e) == vs
  {
    FromSeqLookup(vs, 0);
    if Represents(e, vs) { MapExtensionality(e, FromSeq(vs, 0), true); }
    if DenseFrom(e, 0) && Values(e) == vs { DenseIsFromSeq(e, 0); }
  }

  lemma SizeOfRepresented(e: Entries, vs: seq<Value>)
    requires Represents(e, vs) && |vs| < 0x1_0000_0000
    ensures Size(e) == |vs|
  {
    if e.End? {
      assert Element(vs, 0, Index(0)) == Find(e, Index(0));
    } else {
      LastKeyIsHighest(e);
      var last := LastKey(e);
      assert Find(e, last) == Element(vs, 0, last);
      assert Find(e, Index(|vs| - 1)) == Element(vs, 0, Index(|vs| - 1));
    }
  }

  // ---------------------------------------------------------------- operations

  /** A `Value` of array type; `map_` is `*value_.map_`. */
  class ArrayValue {
    var map_: Entries

    ghost predicate Valid()
      reads this
    {
      Sorted(map_, true)
    }

    ghost predicate Holds(vs: seq<Value>)
      reads this
    {
      Represents(map_, vs)
    }

    constructor ()
      ensures Valid() && Holds([])
    {
      map_ := End;
    }

    /** `operator[](ArrayIndex)`: creates a null element when the index is absent. */
    method Subscript(index: nat)
      requires Valid()
      modifies this
      ensures Valid()
      ensures map_ == if Find(old(map_), Index(index)).Some? then old(map_) else Put(old(map_), Index(index), Null)
    {
      var it := Find(map_, Index(index));
      if it.None? {
        PutKeepsOrder(map_, true, Index(index), Null);
        map_ := Put(map_, Index(index), Null);
      }
    }

    method Assign(index: nat, value: Value)
      requires Valid()
      modifies this
      ensures Valid() && map_ == Put(old(map_), Index(index), value)
    {
      PutKeepsOrder(map_, true, Index(index), value);
      map_ := Put(map_, Index(index), value);
    }

    /** `append`: `(*this)[size()] = value`. */
    method Append(value: Value, ghost vs: seq<Value>)
      requires Holds(vs) && |vs| < 0xFFFF_FFFF
      modifies this
      ensures Holds(vs + [value])
    {
      SizeOfRepresented(map_, vs);
      var n := Size(map_);
      PutAtEnd(map_, vs, Null);
      Subscript(n);
      PutOver(map_, vs + [Null], n, value);
      assert (vs + [Null])[n := value] == vs + [value];
      Assign(n, value);
    }

    /** `operator[]` past the end keeps an array dense only at the very next index. */
    method SubscriptDense(index: nat, ghost vs: seq<Value>)
      requires Holds(vs)
      modifies this
      ensures index < |vs| ==> Holds(vs)
      ensures index == |vs| ==> Holds(vs + [Null])
      ensures index > |vs| ==> Find(map_, Index(index)) == Some(Null) && Find(map_, Index(|vs|)) == None
    {
      assert Find(map_, Index(index)) == Element(vs, 0, Index(index));
      assert Find(map_, Index(|vs|)) == Element(vs, 0, Index(|vs|));
      PutKeepsOrder(map_, true, Index(index), Null);
      if index == |vs| { PutAtEnd(map_, vs, Null); }
      Subscript(index);
    }

    /** `resize` to a smaller or equal size erases the tail one index at a time; to a larger size
        it creates only the last element, so the result is dense exactly up to one more. */
    method Resize(newSize: nat, ghost vs: seq<Value>)
      requires Holds(vs) && |vs| < 0x1_0000_0000
      modifies this
      ensures newSize <= |vs| ==> Holds(vs[..newSize])
      ensures newSize == |vs| + 1 ==> Holds(vs + [Null])
      ensures newSize > |vs| + 1 ==> Find(map_, Index(newSize - 1)) == Some(Null) && Find(map_, Index(|vs|)) == None
    {
      SizeOfRepresented(map_, vs);
      var oldSize := Size(map_);
      if newSize == 0 {
        map_ := End;
      } else if newSize > oldSize {
        SubscriptDense(newSize - 1, vs);
      } else {
        for index := newSize to oldSize
          invariant Valid()
          invariant forall k :: Find(map_, k) ==
                      if k.Index? && newSize <= k.i < index then None else Element(vs, 0, k)
        {
          EraseKeepsOrder(map_, true, Index(index));
          map_ := Erase(map_, Index(index));
        }
      }
    }

    /** `removeIndex`: shifts every later element one place left, then erases the last. */
    method RemoveIndex(index: nat, ghost vs: seq<Value>) returns (removed: Option<Value>)
      requires Holds(vs) && |vs| < 0x1_0000_0000
      modifies this
      ensures index >= |vs| ==> removed == None && Holds(vs)
      ensures index < |vs| ==> removed == Some(vs[index]) && Holds(vs[..index] + vs[index + 1..])
    {
      assert Find(map_, Index(index)) == Element(vs, 0, Index(index));
      removed := Find(map_, Index(index));
      if removed.None? { return; }
      SizeOfRepresented(map_, vs);
      var oldSize := Size(map_);
      for i := index to oldSize - 1
        invariant Valid() && Shifted(map_, vs, index, i)
      {
        ShiftOne(map_, vs, index, i);
        Subscript(i + 1);
        var moved := Find(map_, Index(i + 1)).value;
        Assign(i, moved);
      }
      EraseLast(map_, vs, index);
      map_ := Erase(map_, Index(oldSize - 1));
    }
  }

  /** The map while `removeIndex` is under way: the elements from `index` to `i` are already shifted. */
  ghost predicate Shifted(e: Entries, vs: seq<Value>, index: nat, i: nat)
    requires index <= i < |vs|
  {
    forall k :: Find(e, k) == if k.Index? && index <= k.i < i then Some(vs[k.i + 1]) else Element(vs, 0, k)
  }

  lemma ShiftOne(e: Entries, vs: seq<Value>, index: nat, i: nat)
    requires index <= i < |vs| - 1 && Sorted(e, true) && Shifted(e, vs, index, i)
    ensures Find(e, Index(i + 1)) == Some(vs[i + 1])
    ensures Shifted(Put(e, Index(i), vs[i + 1]), vs, index, i + 1)
  {
    assert Find(e, Index(i + 1)) == Element(vs, 0, Index(i + 1));
    PutKeepsOrder(e, true, Index(i), vs[i + 1]);
  }

  lemma EraseLast(e: Entries, vs: seq<Value>, index: nat)
    requires index < |vs| && Sorted(e, true) && Shifted(e, vs, index, |vs| - 1)
    ensures Represents(Erase(e, Index(|vs| - 1)), vs[..index] + vs[index + 1..])
  {
    var after := Erase(e, Index(|vs| - 1));
    EraseKeepsOrder(e, true, Index(|vs| - 1));
    var ws := vs[..index] + vs[index + 1..];
    forall k ensures Find(after, k) == Element(ws, 0, k) {
      if k != Index(|vs| - 1) { assert Find(after, k) == Find(e, k); }
    }
  }

  lemma PutAtEnd(e: Entries, vs: seq<Value>, v: Value)
    requires Represents(e, vs)
    ensures Find(e, Index(|vs|)) == None
    ensures Represents(Put(e, Index(|vs|), v), vs + [v])
  {
    assert Find(e, Index(|vs|)) == Element(vs, 0, Index(|vs|));
    PutKeepsOrder(e, true, Index(|vs|), v);
  }

  lemma PutOver(e: Entries, vs: seq<Value>, i: nat, v: Value)
    requires Represents(e, vs) && i < |vs|
    ensures Represents(Put(e, Index(i), v), vs[i := v])
  {
    PutKeepsOrder(e, true, Index(i), v);
  }
}
