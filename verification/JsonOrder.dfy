/** `Value::operator<` and `operator==` on real-free values of any size: exactly where they order
    values, and where the size comparison, cut to an `int`, breaks them. */
module JsonOrder {
  import opened Bytes
  import opened JsonValue

  const HALF := 0x8000_0000
  const FULL := 0x1_0000_0000

  /** How many entries `b` has more than `a`, modulo 2^32. */
  function StepUp(a: Entries, b: Entries): (r: int)
    ensures 0 <= r < FULL
  {
    (Count(b) - Count(a)) % FULL
  }

  /** What the `int` keeps of a difference of sizes. */
  lemma SizeDeltaSigns(a: Entries, b: Entries)
    ensures SizeDelta(a, b) == 0 <==> StepUp(a, b) == 0
    ensures SizeDelta(a, b) < 0 <==> 0 < StepUp(a, b) <= HALF
  {
    hide ToInt32, ToUInt64;
    var x := Count(a) - Count(b);
    var k := UInt64Multiple(x);
    var j := Int32Multiple(ToUInt64(x));
    Residue(x, SizeDelta(a, b), j + FULL * k);
    assert Count(b) - Count(a) == -x;
  }

  lemma Residue(x: int, r: int, k: int)
    requires r == x - FULL * k && -HALF <= r < HALF
    ensures r == 0 <==> -x % FULL == 0
    ensures r < 0 <==> 0 < -x % FULL <= HALF
  {
    ModuloIs(-x, if r <= 0 then -r else FULL - r, if r <= 0 then -k else -k - 1);
  }

  lemma ModuloIs(x: int, r: int, k: int)
    requires x == r + FULL * k && 0 <= r < FULL
    ensures x % FULL == r
  {}

  // ---------------------------------------------------------------- two values

  predicate HalfApart(a: Entries, b: Entries) { StepUp(a, b) == HALF }

  /** The comparison meets two containers whose sizes are 2^31 apart modulo 2^32, before anything
      else tells the values apart. */
  predicate Clash(a: Value, b: Value)
    decreases Weight(a) + Weight(b)
  {
    match (a, b)
    case (Array(x), Array(y)) => HalfApart(x, y) || (StepUp(x, y) == 0 && EntriesClash(x, y))
    case (Object(x), Object(y)) => HalfApart(x, y) || (StepUp(x, y) == 0 && EntriesClash(x, y))
    case _ => false
  }

  predicate EntriesClash(x: Entries, y: Entries)
    decreases EntriesWeight(x) + EntriesWeight(y)
  {
    x.Entry? && y.Entry? && x.key == y.key
    && (Clash(x.value, y.value) || (x.value == y.value && EntriesClash(x.rest, y.rest)))
  }

  predicate Comparable(v: Value) { Valid(v) && RealFree(v) }

  predicate AllComparable(e: Entries) { AllValid(e) && AllRealFree(e) }

  lemma OppositeSteps(a: Entries, b: Entries)
    ensures StepUp(b, a) == if StepUp(a, b) == 0 then 0 else FULL - StepUp(a, b)
  {
    var x, k := Count(b) - Count(a), (Count(b) - Count(a)) / FULL;
    assert Count(a) - Count(b) == -x;
    if StepUp(a, b) == 0 { ModuloIs(-x, 0, -k); } else { ModuloIs(-x, FULL - StepUp(a, b), -k - 1); }
  }

  lemma HalfApartBothWays(a: Entries, b: Entries)
    ensures SizeDelta(a, b) < 0 && SizeDelta(b, a) < 0 <==> HalfApart(a, b)
    ensures SizeDelta(a, b) == 0 <==> SizeDelta(b, a) == 0
    ensures SizeDelta(a, b) < 0 || SizeDelta(b, a) < 0 || SizeDelta(a, b) == 0
    ensures HalfApart(a, b) ==> SizeDelta(a, b) != 0
  {
    hide StepUp, SizeDelta;
    SizeDeltaSigns(a, b);
    SizeDeltaSigns(b, a);
    OppositeSteps(a, b);
  }

  lemma SameSize(e: Entries)
    ensures SizeDelta(e, e) == 0
  {}

  /** Two real-free values, of any size: `Equal` means identical; values neither of which is less are
      equal; and each is less than the other exactly when their sizes clash. So for values that do
      not clash exactly one of less, greater and equal holds. */
  lemma {:induction false} LessTrichotomy(a: Value, b: Value)
    requires Comparable(a) && Comparable(b)
    ensures Equal(a, b) <==> a == b
    ensures Equal(a, b) <==> !Less(a, b) && !Less(b, a)
    ensures Less(a, b) && Less(b, a) <==> Clash(a, b)
    decreases a
  {
    hide SizeDelta, HalfApart, StepUp;
    if TypeCode(a) == TypeCode(b) {
      match a {
        case Str(s) => BytesOrder(s, b.s, s);
        case Array(e) =>
          HalfApartBothWays(e, b.elements);
          SizeDeltaSigns(e, b.elements);
          if a == b { SameSize(e); }
          EntriesTrichotomy(e, b.elements, true);
        case Object(e) =>
          HalfApartBothWays(e, b.members);
          SizeDeltaSigns(e, b.members);
          if a == b { SameSize(e); }
          EntriesTrichotomy(e, b.members, false);
        case _ =>
      }
    }
  }

  lemma {:induction false} EntriesTrichotomy(a: Entries, b: Entries, indexed: bool)
    requires Sorted(a, indexed) && Sorted(b, indexed) && AllComparable(a) && AllComparable(b)
    ensures EntriesEqual(a, b) <==> a == b
    ensures EntriesEqual(a, b) <==> !EntriesLess(a, b) && !EntriesLess(b, a)
    ensures EntriesLess(a, b) && EntriesLess(b, a) <==> EntriesClash(a, b)
    decreases a
  {
    if a.Entry? && b.Entry? {
      KeyOrder(a.key, b.key, a.key);
      LessTrichotomy(a.value, b.value);
      EntriesTrichotomy(a.rest, b.rest, indexed);
    }
  }

  /** Arrays or objects whose entries do not clash: each is less than the other exactly when their
      sizes differ by 2^31 modulo 2^32. How large they are does not matter. */
  lemma BothLessIff(a: Entries, b: Entries, indexed: bool)
    requires Sorted(a, indexed) && Sorted(b, indexed) && AllComparable(a) && AllComparable(b)
    requires !EntriesClash(a, b)
    ensures indexed ==> (Less(Array(a), Array(b)) && Less(Array(b), Array(a)) <==> StepUp(a, b) == HALF)
    ensures !indexed ==> (Less(Object(a), Object(b)) && Less(Object(b), Object(a)) <==> StepUp(a, b) == HALF)
  {
    if indexed { LessTrichotomy(Array(a), Array(b)); } else { LessTrichotomy(Object(a), Object(b)); }
  }

  // ---------------------------------------------------------------- three values

  /** Where three values in a row stop being in order from end to end. At the first entry that tells
      them apart, or for containers that their sizes tell apart at once: the two steps up in size, each
      taken modulo 2^32, pass 2^31 together. Two steps of 2^31 lead back to the first size; then the
      entries of the first and the last decide. */
  predicate Overshoots(a: Value, b: Value, c: Value)
    decreases a
  {
    match (a, b, c)
    case (Array(x), Array(y), Array(z)) => StepsOvershoot(x, y, z)
    case (Object(x), Object(y), Object(z)) => StepsOvershoot(x, y, z)
    case _ => false
  }

  predicate StepsOvershoot(x: Entries, y: Entries, z: Entries)
    decreases x, 1
  {
    var up := StepUp(x, y) + StepUp(y, z);
    if up == 0 then EntriesOvershoot(x, y, z)
    else if up == FULL then !EntriesLess(x, z)
    else up > HALF
  }

  predicate EntriesOvershoot(x: Entries, y: Entries, z: Entries)
    decreases x, 0
  {
    x.Entry? && y.Entry? && z.Entry? && x.key == y.key == z.key
    && if x.value == y.value == z.value then EntriesOvershoot(x.rest, y.rest, z.rest)
       else x.value != y.value && y.value != z.value && Overshoots(x.value, y.value, z.value)
            && (x.value == z.value ==> !EntriesLess(x.rest, z.rest))
  }

  lemma StepsTransitiveIff(x: Entries, y: Entries, z: Entries)
    requires SizeDelta(x, y) <= 0 && SizeDelta(y, z) <= 0
    ensures var up := StepUp(x, y) + StepUp(y, z);
            if up == 0 || up == FULL then SizeDelta(x, z) == 0
            else SizeDelta(x, z) != 0 && (SizeDelta(x, z) < 0 <==> up <= HALF)
  {
    hide SizeDelta, StepUp;
    SizeDeltaSigns(x, y);
    SizeDeltaSigns(y, z);
    SizeDeltaSigns(x, z);
    if StepUp(x, y) + StepUp(y, z) < FULL { AddSteps(x, y, z); } else { FullCircle(x, y, z); }
  }

  lemma FullCircle(a: Entries, b: Entries, c: Entries)
    requires StepUp(a, b) + StepUp(b, c) == FULL
    ensures StepUp(a, c) == 0
  {
    ModuloIs(Count(c) - Count(a), 0, (Count(b) - Count(a)) / FULL + (Count(c) - Count(b)) / FULL + 1);
  }

  /** Transitivity, exactly: for real-free values of any size and nesting, three values that are in
      order pair by pair are in order from end to end if and only if their sizes do not overshoot. */
  lemma {:induction false} TransitiveIff(a: Value, b: Value, c: Value)
    requires Comparable(a) && Comparable(b) && Comparable(c)
    requires Less(a, b) && Less(b, c)
    ensures Less(a, c) <==> !Overshoots(a, b, c)
    decreases a, 1
  {
    hide SizeDelta, StepUp;
    if TypeCode(a) == TypeCode(b) == TypeCode(c) {
      match a {
        case Str(s) => BytesOrder(s, b.s, c.s);
        case Array(e) => ContainersTransitiveIff(e, b.elements, c.elements, true);
        case Object(e) => ContainersTransitiveIff(e, b.members, c.members, false);
        case _ =>
      }
    }
  }

  predicate SizeThenEntries(a: Entries, b: Entries) {
    if SizeDelta(a, b) != 0 then SizeDelta(a, b) < 0 else EntriesLess(a, b)
  }

  lemma {:induction false} ContainersTransitiveIff(a: Entries, b: Entries, c: Entries, indexed: bool)
    requires Sorted(a, indexed) && Sorted(b, indexed) && Sorted(c, indexed)
    requires AllComparable(a) && AllComparable(b) && AllComparable(c)
    requires SizeThenEntries(a, b) && SizeThenEntries(b, c)
    ensures SizeThenEntries(a, c) <==> !StepsOvershoot(a, b, c)
    decreases a, 1
  {
    hide SizeDelta, StepUp, EntriesLess, EntriesOvershoot;
    StepsTransitiveIff(a, b, c);
    SizeDeltaSigns(a, b);
    SizeDeltaSigns(b, c);
    if StepUp(a, b) + StepUp(b, c) == 0 { EntriesTransitiveIff(a, b, c, indexed); }
  }

  lemma {:induction false} EntriesTransitiveIff(a: Entries, b: Entries, c: Entries, indexed: bool)
    requires Sorted(a, indexed) && Sorted(b, indexed) && Sorted(c, indexed)
    requires AllComparable(a) && AllComparable(b) && AllComparable(c)
    requires EntriesLess(a, b) && EntriesLess(b, c)
    ensures EntriesLess(a, c) <==> !EntriesOvershoot(a, b, c)
    decreases a, 0
  {
    hide Less, Overshoots, Clash;
    if a.Entry? {
      KeyOrder(a.key, b.key, c.key);
      KeyOrder(b.key, c.key, a.key);
      KeyOrder(a.key, c.key, b.key);
      if a.key == b.key == c.key {
        LessTrichotomy(a.value, b.value);
        LessTrichotomy(b.value, c.value);
        LessTrichotomy(a.value, c.value);
        if a.value == b.value == c.value {
          EntriesTransitiveIff(a.rest, b.rest, c.rest, indexed);
        } else if a.value != b.value && b.value != c.value {
          TransitiveIff(a.value, b.value, c.value);
        }
      }
    }
  }

  /** The same where not both steps are clashes: a matter of sizes alone. */
  predicate SizesOvershoot(a: Value, b: Value, c: Value)
    decreases a
  {
    match (a, b, c)
    case (Array(x), Array(y), Array(z)) =>
      StepUp(x, y) + StepUp(y, z) > HALF || (StepUp(x, y) + StepUp(y, z) == 0 && EntrySizesOvershoot(x, y, z))
    case (Object(x), Object(y), Object(z)) =>
      StepUp(x, y) + StepUp(y, z) > HALF || (StepUp(x, y) + StepUp(y, z) == 0 && EntrySizesOvershoot(x, y, z))
    case _ => false
  }

  predicate EntrySizesOvershoot(x: Entries, y: Entries, z: Entries)
    decreases x
  {
    x.Entry? && y.Entry? && z.Entry? && x.key == y.key == z.key
    && if x.value == y.value == z.value then EntrySizesOvershoot(x.rest, y.rest, z.rest)
       else x.value != y.value && y.value != z.value && SizesOvershoot(x.value, y.value, z.value)
  }

  lemma {:induction false} OvershootBySizes(a: Value, b: Value, c: Value)
    requires Comparable(a) && Comparable(b) && Comparable(c)
    requires Less(a, b) && Less(b, c) && !(Clash(a, b) && Clash(b, c))
    ensures Overshoots(a, b, c) <==> SizesOvershoot(a, b, c)
    decreases a, 1
  {
    hide SizeDelta, StepUp;
    match (a, b, c) {
      case (Array(x), Array(y), Array(z)) =>
        SizeDeltaSigns(x, y);
        SizeDeltaSigns(y, z);
        if StepUp(x, y) + StepUp(y, z) == 0 { EntriesOvershootBySizes(x, y, z, true); }
      case (Object(x), Object(y), Object(z)) =>
        SizeDeltaSigns(x, y);
        SizeDeltaSigns(y, z);
        if StepUp(x, y) + StepUp(y, z) == 0 { EntriesOvershootBySizes(x, y, z, false); }
      case _ =>
    }
  }

  lemma {:induction false} EntriesOvershootBySizes(a: Entries, b: Entries, c: Entries, indexed: bool)
    requires Sorted(a, indexed) && Sorted(b, indexed) && Sorted(c, indexed)
    requires AllComparable(a) && AllComparable(b) && AllComparable(c)
    requires EntriesLess(a, b) && EntriesLess(b, c) && !(EntriesClash(a, b) && EntriesClash(b, c))
    ensures EntriesOvershoot(a, b, c) <==> EntrySizesOvershoot(a, b, c)
    decreases a, 0
  {
    hide Less, Overshoots, SizesOvershoot, Clash;
    if a.Entry? && a.key == b.key == c.key {
      KeyOrder(a.key, b.key, c.key);
      LessTrichotomy(a.value, b.value);
      LessTrichotomy(b.value, c.value);
      if a.value == b.value == c.value {
        EntriesOvershootBySizes(a.rest, b.rest, c.rest, indexed);
      } else if a.value != b.value && b.value != c.value {
        OvershootBySizes(a.value, b.value, c.value);
      }
    }
  }

  /** Unless both steps are clashes, transitivity depends on nothing but the sizes that the comparison
      comes to look at. */
  lemma TransitiveIffBySizes(a: Value, b: Value, c: Value)
    requires Comparable(a) && Comparable(b) && Comparable(c)
    requires Less(a, b) && Less(b, c) && !(Clash(a, b) && Clash(b, c))
    ensures Less(a, c) <==> !SizesOvershoot(a, b, c)
  {
    TransitiveIff(a, b, c);
    OvershootBySizes(a, b, c);
  }

  /** The sizes that the comparison looks at are less than 2^31 apart. */
  predicate Near(a: Value, b: Value)
    decreases Weight(a) + Weight(b)
  {
    match (a, b)
    case (Array(x), Array(y)) => -HALF < Count(x) - Count(y) < HALF && EntriesNear(x, y)
    case (Object(x), Object(y)) => -HALF < Count(x) - Count(y) < HALF && EntriesNear(x, y)
    case _ => true
  }

  predicate EntriesNear(x: Entries, y: Entries)
    decreases EntriesWeight(x) + EntriesWeight(y)
  {
    x.Entry? && y.Entry? && x.key == y.key ==>
      Near(x.value, y.value) && (x.value == y.value ==> EntriesNear(x.rest, y.rest))
  }

  lemma NearDelta(a: Entries, b: Entries)
    requires -HALF < Count(a) - Count(b) < HALF
    ensures SizeDelta(a, b) == Count(a) - Count(b)
  {
    hide ToInt32, ToUInt64;
    var k := UInt64Multiple(Count(a) - Count(b));
    var j := Int32Multiple(ToUInt64(Count(a) - Count(b)));
    Unwrapped(Count(a) - Count(b), SizeDelta(a, b), j + FULL * k);
  }

  lemma Unwrapped(x: int, r: int, k: int)
    requires r == x - FULL * k && -HALF <= r < HALF && -HALF < x < HALF
    ensures r == x
  {}

  lemma {:induction false} NearNeverClashes(a: Value, b: Value)
    requires Near(a, b)
    ensures !Clash(a, b)
    decreases a
  {
    match (a, b) {
      case (Array(x), Array(y)) => SmallResidue(Count(x) - Count(y)); EntriesNeverClash(x, y);
      case (Object(x), Object(y)) => SmallResidue(Count(x) - Count(y)); EntriesNeverClash(x, y);
      case _ =>
    }
  }

  lemma SmallResidue(x: int)
    requires -HALF < x < HALF
    ensures x % FULL != HALF
    ensures -x % FULL != HALF
  {}

  lemma {:induction false} EntriesNeverClash(x: Entries, y: Entries)
    requires EntriesNear(x, y)
    ensures !EntriesClash(x, y)
    decreases x
  {
    if x.Entry? && y.Entry? && x.key == y.key {
      NearNeverClashes(x.value, y.value);
      if x.value == y.value { EntriesNeverClash(x.rest, y.rest); }
    }
  }

  lemma NearSteps(a: Entries, b: Entries, c: Entries)
    requires -HALF < Count(a) - Count(b) < HALF && -HALF < Count(b) - Count(c) < HALF && -HALF < Count(a) - Count(c) < HALF
    requires SizeDelta(a, b) <= 0 && SizeDelta(b, c) <= 0
    ensures StepUp(a, b) + StepUp(b, c) <= HALF
  {
    hide SizeDelta, StepUp;
    NearDelta(a, b);
    NearDelta(b, c);
    SmallStep(a, b);
    SmallStep(b, c);
  }

  lemma SmallStep(a: Entries, b: Entries)
    requires 0 <= Count(b) - Count(a) < HALF
    ensures StepUp(a, b) == Count(b) - Count(a)
  {
    ModuloIs(Count(b) - Count(a), Count(b) - Count(a), 0);
  }

  lemma {:induction false} NearNeverOvershoots(a: Value, b: Value, c: Value)
    requires Comparable(a) && Comparable(b) && Comparable(c)
    requires Near(a, b) && Near(b, c) && Near(a, c) && Less(a, b) && Less(b, c)
    ensures !SizesOvershoot(a, b, c)
    decreases a, 1
  {
    hide SizeDelta, StepUp;
    match (a, b, c) {
      case (Array(x), Array(y), Array(z)) =>
        NearSteps(x, y, z);
        SizeDeltaSigns(x, y);
        SizeDeltaSigns(y, z);
        if StepUp(x, y) + StepUp(y, z) == 0 { NearEntriesNeverOvershoot(x, y, z, true); }
      case (Object(x), Object(y), Object(z)) =>
        NearSteps(x, y, z);
        SizeDeltaSigns(x, y);
        SizeDeltaSigns(y, z);
        if StepUp(x, y) + StepUp(y, z) == 0 { NearEntriesNeverOvershoot(x, y, z, false); }
      case _ =>
    }
  }

  lemma {:induction false} NearEntriesNeverOvershoot(a: Entries, b: Entries, c: Entries, indexed: bool)
    requires Sorted(a, indexed) && Sorted(b, indexed) && Sorted(c, indexed)
    requires AllComparable(a) && AllComparable(b) && AllComparable(c)
    requires EntriesNear(a, b) && EntriesNear(b, c) && EntriesNear(a, c) && EntriesLess(a, b) && EntriesLess(b, c)
    ensures !EntrySizesOvershoot(a, b, c)
    decreases a, 0
  {
    hide Less, SizesOvershoot, Near;
    if a.Entry? && a.key == b.key == c.key {
      KeyOrder(a.key, b.key, c.key);
      LessTrichotomy(a.value, b.value);
      LessTrichotomy(b.value, c.value);
      if a.value == b.value == c.value {
        NearEntriesNeverOvershoot(a.rest, b.rest, c.rest, indexed);
      } else if a.value != b.value && b.value != c.value {
        NearNeverOvershoots(a.value, b.value, c.value);
      }
    }
  }

  /** So among values whose compared sizes are near, `Less` is transitive, through nested arrays and
      objects. */
  lemma LessTransitive(a: Value, b: Value, c: Value)
    requires Comparable(a) && Comparable(b) && Comparable(c)
    requires Near(a, b) && Near(b, c) && Near(a, c)
    requires Less(a, b) && Less(b, c)
    ensures Less(a, c)
  {
    NearNeverClashes(a, b);
    NearNeverOvershoots(a, b, c);
    TransitiveIffBySizes(a, b, c);
  }

  /** When three arrays are told apart by size, transitivity holds exactly while the two steps up,
      taken modulo 2^32, stay within 2^31 together. */
  lemma SizesTransitiveIff(a: Entries, b: Entries, c: Entries)
    requires 0 < StepUp(a, b) <= HALF && 0 < StepUp(b, c) <= HALF && StepUp(a, b) + StepUp(b, c) < FULL
    ensures Less(Array(a), Array(b)) && Less(Array(b), Array(c))
    ensures Less(Array(a), Array(c)) <==> StepUp(a, b) + StepUp(b, c) <= HALF
  {
    hide Less, StepUp;
    LessBySize(a, b);
    LessBySize(b, c);
    AddSteps(a, b, c);
    LessBySize(a, c);
  }

  lemma LessBySize(a: Entries, b: Entries)
    requires StepUp(a, b) != 0
    ensures Less(Array(a), Array(b)) <==> StepUp(a, b) <= HALF
  {
    hide SizeDelta, EntriesLess, StepUp;
    SizeDeltaSigns(a, b);
  }

  lemma AddSteps(a: Entries, b: Entries, c: Entries)
    requires StepUp(a, b) + StepUp(b, c) < FULL
    ensures StepUp(a, c) == StepUp(a, b) + StepUp(b, c)
  {
    ModuloIs(Count(c) - Count(a), StepUp(a, b) + StepUp(b, c), (Count(b) - Count(a)) / FULL + (Count(c) - Count(b)) / FULL);
  }

  // ---------------------------------------------------------------- which way the order goes

  /** The kinds of values in ascending order. */
  function Rank(v: Value): nat {
    if v.Null? then 0 else if v.Int? then 1 else if v.UInt? then 2 else if v.Real? then 3 else if v.Str? then 4
    else if v.Bool? then 5 else if v.Array? then 6 else 7
  }

  /** Is `a` a proper prefix of `b`, or has it the smaller byte where the two part? */
  predicate PartsBelow(a: Bytes, b: Bytes, k: nat) {
    k <= |a| && k < |b| && a[..k] == b[..k] && (k == |a| || a[k] < b[k])
  }

  lemma {:induction false} BytesLessIff(a: Bytes, b: Bytes)
    ensures BytesLess(a, b) <==> exists k :: PartsBelow(a, b, k)
  {
    if a == [] {
      if b != [] { assert PartsBelow(a, b, 0); }
    } else if b != [] {
      if a[0] != b[0] {
        PartAtOnce(a, b);
      } else {
        BytesLessIff(a[1..], b[1..]);
        PartLater(a, b);
      }
    }
  }

  lemma PartAtOnce(a: Bytes, b: Bytes)
    requires a != [] && b != [] && a[0] != b[0]
    ensures a[0] < b[0] <==> exists k :: PartsBelow(a, b, k)
  {
    if a[0] < b[0] { assert PartsBelow(a, b, 0); }
    forall k: nat ensures PartsBelow(a, b, k) ==> k == 0 {
      if 0 < k <= |a| && k <= |b| { assert a[..k][0] == a[0] && b[..k][0] == b[0]; }
    }
  }

  lemma PartLater(a: Bytes, b: Bytes)
    requires a != [] && b != [] && a[0] == b[0]
    ensures (exists k :: PartsBelow(a, b, k)) <==> exists k :: PartsBelow(a[1..], b[1..], k)
  {
    forall k: nat | PartsBelow(a, b, k) ensures k > 0 && PartsBelow(a[1..], b[1..], k - 1) {
      if k > 0 { assert a[1..][..k - 1] == a[..k][1..] && b[1..][..k - 1] == b[..k][1..]; }
    }
    forall k: nat | PartsBelow(a[1..], b[1..], k) ensures PartsBelow(a, b, k + 1) {
      assert a[..k + 1] == [a[0]] + a[1..][..k] && b[..k + 1] == [b[0]] + b[1..][..k];
    }
  }

  /** Values of different kinds go by kind, numbers by value, false before true, and strings by their bytes. */
  lemma ScalarsInOrder(a: Value, b: Value)
    ensures Rank(a) != Rank(b) ==> (Less(a, b) <==> Rank(a) < Rank(b))
    ensures a.Int? && b.Int? ==> (Less(a, b) <==> a.i < b.i)
    ensures a.UInt? && b.UInt? ==> (Less(a, b) <==> a.u < b.u)
    ensures a.Bool? && b.Bool? ==> (Less(a, b) <==> !a.b && b.b)
    ensures a.Str? && b.Str? ==> (Less(a, b) <==> exists k :: PartsBelow(a.s, b.s, k))
    ensures a.Null? && b.Null? ==> !Less(a, b)
  {
    if a.Str? && b.Str? { BytesLessIff(a.s, b.s); }
  }

  /** What stands behind the first `n` entries. */
  function Behind(e: Entries, n: nat): Entries { if n == 0 || e.End? then e else Behind(e.rest, n - 1) }

  predicate SameFirst(a: Entries, b: Entries, n: nat) {
    n > 0 ==> a.Entry? && b.Entry? && a.key == b.key && a.value == b.value && SameFirst(a.rest, b.rest, n - 1)
  }

  /** The first entry that is not the same decides: a missing one, one with the smaller key, or one with the
      same key and the smaller value comes first. */
  predicate DecidesBelow(a: Entries, b: Entries) {
    b.Entry? && (a.End? || KeyLess(a.key, b.key) || (a.key == b.key && a.value != b.value && Less(a.value, b.value)))
  }

  predicate DecidedAt(a: Entries, b: Entries, n: nat) { SameFirst(a, b, n) && DecidesBelow(Behind(a, n), Behind(b, n)) }

  lemma {:induction false} EntriesLessIff(a: Entries, b: Entries, indexed: bool)
    requires Sorted(a, indexed) && Sorted(b, indexed) && AllComparable(a) && AllComparable(b)
    ensures EntriesLess(a, b) <==> exists n :: DecidedAt(a, b, n)
    decreases a
  {
    hide Less, Clash;
    if DecidesBelow(a, b) {
      assert DecidedAt(a, b, 0);
      if a.Entry? { KeyOrder(a.key, b.key, a.key); }
    } else if a.Entry? && b.Entry? {
      KeyOrder(a.key, b.key, a.key);
      LessTrichotomy(a.value, b.value);
      if a.key == b.key && a.value == b.value {
        EntriesLessIff(a.rest, b.rest, indexed);
        DecidedLater(a, b);
      } else {
        forall n: nat ensures !DecidedAt(a, b, n) {}
      }
    } else {
      forall n: nat ensures !DecidedAt(a, b, n) {}
    }
  }

  lemma DecidedLater(a: Entries, b: Entries)
    requires a.Entry? && b.Entry? && a.key == b.key && a.value == b.value && !DecidesBelow(a, b)
    ensures (exists n :: DecidedAt(a, b, n)) <==> exists n :: DecidedAt(a.rest, b.rest, n)
  {
    hide DecidesBelow;
    forall n: nat | DecidedAt(a, b, n) ensures n > 0 && DecidedAt(a.rest, b.rest, n - 1) {}
    forall n: nat | DecidedAt(a.rest, b.rest, n) ensures DecidedAt(a, b, n + 1) {}
  }

  /** Containers of one kind go by size, as far as it differs modulo 2^32, and else by their entries. */
  lemma ContainersInOrder(a: Entries, b: Entries, indexed: bool)
    requires Sorted(a, indexed) && Sorted(b, indexed) && AllComparable(a) && AllComparable(b)
    ensures var below := if StepUp(a, b) != 0 then StepUp(a, b) <= HALF
                         else exists n :: DecidedAt(a, b, n);
            (indexed ==> (Less(Array(a), Array(b)) <==> below)) && (!indexed ==> (Less(Object(a), Object(b)) <==> below))
  {
    hide SizeDelta, StepUp, EntriesLess, DecidedAt;
    SizeDeltaSigns(a, b);
    EntriesLessIff(a, b, indexed);
  }

  // ---------------------------------------------------------------- the failures exist

  /** `n` nulls under consecutive indices. */
  function Nulls(n: nat, start: nat): Entries
    decreases n
  {
    if n == 0 then End else Entry(Index(start), Null, Nulls(n - 1, start + 1))
  }

  lemma {:induction false} NullsAreComparable(n: nat, start: nat)
    ensures Count(Nulls(n, start)) == n
    ensures Sorted(Nulls(n, start), true) && AllComparable(Nulls(n, start))
    ensures start > 0 ==> SortedAbove(Nulls(n, start), Index(start - 1))
    decreases n
  {
    if n > 0 { NullsAreComparable(n - 1, start + 1); }
  }

  /** Two values each less than the other. */
  lemma BothLessExample() returns (a: Value, b: Value)
    ensures Comparable(a) && Comparable(b) && Less(a, b) && Less(b, a)
  {
    hide Nulls;
    NullsAreComparable(HALF, 0);
    var x, y := Nulls(HALF, 0), End;
    a, b := Array(x), Array(y);
    BothLessIff(x, y, true);
  }

  /** Three values in a row of which the first is not less than the last. */
  lemma TransitivityFails() returns (a: Value, b: Value, c: Value)
    ensures Comparable(a) && Comparable(b) && Comparable(c)
    ensures Less(a, b) && Less(b, c) && !Less(a, c)
  {
    hide Nulls, Less;
    NullsAreComparable(0x6000_0000, 0);
    NullsAreComparable(0xC000_0000, 0);
    var x, y := Nulls(0x6000_0000, 0), Nulls(0xC000_0000, 0);
    a, b, c := Array(End), Array(x), Array(y);
    SizesTransitiveIff(End, x, y);
  }
}
