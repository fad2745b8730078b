/** Decimal integers: `uintToString`/`valueToString` for integers and `OurReader::decodeNumber`. */
module JsonNumber {
  import opened Bytes

  const MAX_INT: int := 0x7FFF_FFFF
  const MAX_LARGEST_INT: int := 0x7FFF_FFFF_FFFF_FFFF
  const MIN_LARGEST_INT: int := -0x8000_0000_0000_0000
  const MAX_LARGEST_UINT: int := 0xFFFF_FFFF_FFFF_FFFF

  /** `3 * sizeof(LargestUInt) + 1` */
  const UINT_TO_STRING_BUFFER_SIZE: nat := 25

  // ---------------------------------------------------------------- writing

  /** The decimal digits of `n`, without leading zeros. */
  function Digits(n: nat): Bytes {
    if n < 10 then [DIGIT0 + n] else Digits(n / 10) + [DIGIT0 + n % 10]
  }

  function IntegerText(i: int): Bytes {
    if i < 0 then [MINUS] + Digits(-i) else Digits(i)
  }

  function Power10(k: nat): nat { if k == 0 then 1 else 10 * Power10(k - 1) }

  lemma {:induction false} DigitsLength(n: nat, k: nat)
    requires 1 <= k && n < Power10(k)
    ensures |Digits(n)| <= k
  {
    if n >= 10 { DigitsLength(n / 10, k - 1); }
  }

  /** One more digit in front of those written. */
  lemma DigitInFront(v: nat, written: Bytes)
    requires v != 0
    ensures (if v / 10 == 0 then [] else Digits(v / 10)) + ([DIGIT0 + v % 10] + written) == Digits(v) + written
  {}

  /** `*--current = c` */
  method PutBefore(buffer: array<byte>, current: nat, ghost end: nat, c: byte) returns (next: nat)
    requires 0 < current <= end <= buffer.Length
    modifies buffer
    ensures next == current - 1
    ensures buffer[next..end] == [c] + old(buffer[current..end])
    ensures buffer[end..] == old(buffer[end..])
  {
    next := current - 1;
    buffer[next] := c;
  }

  /** Writes the digits backwards from `current`; `current` is left on the first digit. */
  method UintToString(value: nat, buffer: array<byte>, start: nat) returns (current: nat)
    requires |Digits(value)| < start <= buffer.Length
    modifies buffer
    ensures current == start - 1 - |Digits(value)|
    ensures buffer[current..start] == Digits(value) + [NUL]
    ensures buffer[start..] == old(buffer[start..])
  {
    current := PutBefore(buffer, start, start, NUL);
    var v := value;
    current := PutBefore(buffer, current, start, DIGIT0 + v % 10);
    v := v / 10;
    ghost var text := Digits(value) + [NUL];
    ghost var left := if v == 0 then [] else Digits(v);
    while v != 0
      invariant left == if v == 0 then [] else Digits(v)
      invariant current < start && left + buffer[current..start] == text
      invariant buffer[start..] == old(buffer[start..])
    {
      hide Digits;
      assert |left| + (start - current) == |text|;
      DigitInFront(v, buffer[current..start]);
      current := PutBefore(buffer, current, start, DIGIT0 + v % 10);
      v := v / 10;
      left := if v == 0 then [] else Digits(v);
    }
    assert |buffer[current..start]| == |text|;
  }

  lemma TwentyDigits(n: nat)
    requires n <= MAX_LARGEST_UINT
    ensures |Digits(n)| <= 20
  {
    assert Power10(5) == 100_000;
    assert Power10(10) == 100_000 * Power10(5);
    assert Power10(15) == 100_000 * Power10(10);
    assert Power10(20) == 100_000 * Power10(15);
    DigitsLength(n, 20);
  }

  /** `valueToString(LargestInt)`; the most negative value cannot be negated and is taken apart. */
  method ValueToStringInt(value: int) returns (text: Bytes)
    requires MIN_LARGEST_INT <= value <= MAX_LARGEST_INT
    ensures text == IntegerText(value)
  {
    var buffer := new byte[UINT_TO_STRING_BUFFER_SIZE](_ => 0);
    var current;
    var magnitude := if value == MIN_LARGEST_INT then ToUInt64(MAX_LARGEST_INT) + 1
                     else if value < 0 then ToUInt64(-value)
                     else ToUInt64(value);
    TwentyDigits(magnitude);
    current := UintToString(magnitude, buffer, buffer.Length);
    ghost var end := buffer.Length - 1;
    assert buffer[current..end] == buffer[current..buffer.Length][..end - current] == Digits(magnitude);
    if value < 0 {
      current := PutBefore(buffer, current, end, MINUS);
      assert buffer[current..end] == [MINUS] + buffer[current + 1..end];
    }
    text := buffer[current..buffer.Length - 1];
  }

  method ValueToStringUInt(value: int) returns (text: Bytes)
    requires 0 <= value <= MAX_LARGEST_UINT
    ensures text == IntegerText(value)
  {
    var buffer := new byte[UINT_TO_STRING_BUFFER_SIZE](_ => 0);
    TwentyDigits(value);
    var current := UintToString(value, buffer, buffer.Length);
    ghost var end := buffer.Length - 1;
    assert buffer[current..end] == buffer[current..buffer.Length][..end - current];
    text := buffer[current..buffer.Length - 1];
  }

  // ---------------------------------------------------------------- reading

  predicate AllDigits(t: Bytes) { forall i :: 0 <= i < |t| ==> IsDigit(t[i]) }

  /** The number a string of decimal digits denotes. */
  function Denoted(t: Bytes): nat
    requires AllDigits(t)
  {
    if t == [] then 0 else Denoted(t[..|t| - 1]) * 10 + (t[|t| - 1] - DIGIT0)
  }

  datatype Number = TaggedInt(i: int) | TaggedUInt(u: int) | DoublePath

  function SplitSign(token: Bytes): (bool, Bytes) {
    if token != [] && token[0] == MINUS then (true, token[1..]) else (false, token)
  }

  /** What an integer token means: its value, tagged, if it is written with digits only and fits,
      and the double path otherwise. The result stands on its own; the loop below is proved to
      compute it. */
  function IntegerMeaning(token: Bytes): Number {
    var (negative, digits) := SplitSign(token);
    if !AllDigits(digits) then DoublePath
    else
      var n: int := Denoted(digits);
      if negative then (if n <= -MIN_LARGEST_INT then TaggedInt(-n) else DoublePath)
      else if n <= MAX_INT then TaggedInt(n)
      else if n <= MAX_LARGEST_UINT then TaggedUInt(n)
      else DoublePath
  }

  lemma {:induction false} DenotedGrows(t: Bytes, k: nat)
    requires AllDigits(t) && k <= |t|
    ensures Denoted(t) >= Denoted(t[..k])
    ensures k < |t| ==> Denoted(t) >= 10 * Denoted(t[..k])
    decreases |t|
  {
    if k < |t| {
      var u := t[..|t| - 1];
      assert u[..k] == t[..k];
      DenotedGrows(u, k);
    } else {
      assert t[..k] == t;
    }
  }

  lemma DenotedStep(t: Bytes, k: nat)
    requires k < |t| && AllDigits(t[..k + 1])
    ensures AllDigits(t[..k]) && IsDigit(t[k])
    ensures Denoted(t[..k + 1]) == Denoted(t[..k]) * 10 + (t[k] - DIGIT0)
  {
    assert t[..k + 1][..k] == t[..k];
    assert t[..k + 1][k] == t[k];
    assert forall i :: 0 <= i < k ==> t[..k][i] == t[..k + 1][i];
  }

  /** The guard of the threshold loop rejects only numbers above the limit. */
  lemma OverThreshold(digits: Bytes, k: nat, limit: nat)
    requires AllDigits(digits) && k < |digits|
    requires Denoted(digits[..k]) >= limit / 10
    requires Denoted(digits[..k]) > limit / 10 || k + 1 != |digits| || digits[k] - DIGIT0 > limit % 10
    requires limit >= 100
    ensures Denoted(digits) > limit
  {
    DenotedStep(digits, k);
    DenotedGrows(digits, k + 1);
    assert digits[..|digits|] == digits;
  }

  /** One pass of the loop: the digit just read extends the prefix, or the token is not an integer
      in range. */
  lemma DigitStep(digits: Bytes, k: nat, limit: nat)
    requires k < |digits| && AllDigits(digits[..k]) && limit >= 100
    ensures !IsDigit(digits[k]) ==> !AllDigits(digits)
    ensures IsDigit(digits[k]) ==>
              AllDigits(digits[..k + 1]) &&
              Denoted(digits[..k + 1]) == Denoted(digits[..k]) * 10 + (digits[k] - DIGIT0)
    ensures AllDigits(digits) && Denoted(digits[..k]) >= limit / 10 &&
            (Denoted(digits[..k]) > limit / 10 || k + 1 != |digits| || digits[k] - DIGIT0 > limit % 10)
            ==> Denoted(digits) > limit
  {
    assert digits[..k + 1] == digits[..k] + [digits[k]];
    if IsDigit(digits[k]) { DenotedStep(digits, k); }
    if AllDigits(digits) && Denoted(digits[..k]) >= limit / 10 &&
       (Denoted(digits[..k]) > limit / 10 || k + 1 != |digits| || digits[k] - DIGIT0 > limit % 10)
    {
      OverThreshold(digits, k, limit);
    }
  }

  lemma NoDigits()
    ensures AllDigits([]) && Denoted([]) == 0
  {}

  /** `OurReader::decodeNumber`. The accumulator never leaves 64 bits. */
  method DecodeNumber(token: Bytes) returns (decoded: Number)
    requires token != []
    ensures decoded == IntegerMeaning(token)
  {
    hide Denoted, AllDigits;
    assert AllDigits([]) && Denoted([]) == 0 by { NoDigits(); }
    var current := 0;
    var isNegative := token[current] == MINUS;
    if isNegative { current := current + 1; }
    var maxIntegerValue := if isNegative then ToUInt64(ToInt64(-MIN_LARGEST_INT)) else MAX_LARGEST_UINT;
    var threshold := maxIntegerValue / 10;
    var value: nat := 0;
    ghost var digits := SplitSign(token).1;
    ghost var k := 0;
    ghost var sign := current;
    while current < |token|
      invariant k <= |digits| && current == sign + k && |token| == sign + |digits|
      invariant AllDigits(digits[..k]) && value == Denoted(digits[..k]) <= maxIntegerValue
    {
      var c: int := token[current];
      assert c == digits[k];
      DigitStep(digits, k, maxIntegerValue);
      current := current + 1;
      if c < DIGIT0 || c > DIGIT0 + 9 { return DoublePath; }
      var digit := c - DIGIT0;
      if value >= threshold {
        if value > threshold || current != |token| || digit > maxIntegerValue % 10 { return DoublePath; }
      }
      value := value * 10 + digit;
      k := k + 1;
    }
    assert digits[..k] == digits;
    if isNegative {
      decoded := TaggedInt(ToInt64(-ToInt64(value)));
    } else if value <= MAX_INT {
      decoded := TaggedInt(value);
    } else {
      decoded := TaggedUInt(value);
    }
  }

  // ---------------------------------------------------------------- inverse

  lemma {:induction false} DigitsDenote(n: nat)
    ensures AllDigits(Digits(n)) && Denoted(Digits(n)) == n
    ensures Digits(n) != [] && Digits(n)[0] != MINUS
  {
    if n >= 10 {
      DigitsDenote(n / 10);
      var d := Digits(n);
      assert d[..|d| - 1] == Digits(n / 10);
    } else {
      assert Digits(n)[..0] == [];
    }
  }

  /** The tag an integer has after it was written and read. */
  function Retagged(i: int): Number {
    if i <= MAX_INT then TaggedInt(i) else TaggedUInt(i)
  }

  /** Writing any 64-bit integer and decoding it gives the same integer. */
  lemma IntegerRoundTrip(i: int)
    requires MIN_LARGEST_INT <= i <= MAX_LARGEST_UINT
    ensures IntegerMeaning(IntegerText(i)) == Retagged(i)
  {
    hide Digits, Denoted, AllDigits;
    if i < 0 {
      DigitsDenote(-i);
      assert IntegerText(i)[1..] == Digits(-i);
    } else {
      DigitsDenote(i);
    }
  }

  // ---------------------------------------------------------------- the limits

  /** What the decimal text of a number means. */
  lemma DigitsMean(n: nat)
    ensures IntegerMeaning(Digits(n)) ==
              if n <= 2147483647 then TaggedInt(n) else if n <= 18446744073709551615 then TaggedUInt(n) else DoublePath
  {
    hide Digits, Denoted, AllDigits;
    DigitsDenote(n);
  }

  /** The limits by their decimal digits, and the tags at them. */
  lemma LimitsAre()
    ensures MAX_LARGEST_UINT == 18446744073709551615 && MAX_LARGEST_INT == 9223372036854775807
    ensures MIN_LARGEST_INT == -9223372036854775808 && MAX_INT == 2147483647
    ensures IntegerMeaning(Digits(2147483647)) == TaggedInt(2147483647)
    ensures IntegerMeaning(Digits(2147483648)) == TaggedUInt(2147483648)
    ensures IntegerMeaning(Digits(18446744073709551615)) == TaggedUInt(18446744073709551615)
    ensures IntegerMeaning(Digits(18446744073709551616)) == DoublePath
  {
    hide Digits, Denoted, AllDigits;
    DigitsMean(2147483647);
    DigitsMean(2147483648);
    DigitsMean(18446744073709551615);
    DigitsMean(18446744073709551616);
  }
}
