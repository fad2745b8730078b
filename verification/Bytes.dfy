/** Byte strings, the ASCII codes the codecs compare against, and small shared types. */
module Bytes {
  type byte = b: int | 0 <= b < 256
  type Bytes = seq<byte>

  datatype Option<+T> = None | Some(value: T)

  const NUL: byte := 0x00
  const BACKSPACE: byte := 0x08
  const TAB: byte := 0x09
  const LF: byte := 0x0A
  const FORMFEED: byte := 0x0C
  const CR: byte := 0x0D
  const SPACE: byte := 0x20
  const QUOTE: byte := 0x22
  const APOSTROPHE: byte := 0x27
  const STAR: byte := 0x2A
  const PLUS: byte := 0x2B
  const COMMA: byte := 0x2C
  const MINUS: byte := 0x2D
  const DOT: byte := 0x2E
  const SLASH: byte := 0x2F
  const DIGIT0: byte := 0x30
  const COLON: byte := 0x3A
  const UPPER_E: byte := 0x45
  const UPPER_I: byte := 0x49
  const UPPER_N: byte := 0x4E
  const LBRACKET: byte := 0x5B
  const BACKSLASH: byte := 0x5C
  const RBRACKET: byte := 0x5D
  const LOWER_B: byte := 0x62
  const LOWER_E: byte := 0x65
  const LOWER_F: byte := 0x66
  const LOWER_N: byte := 0x6E
  const LOWER_R: byte := 0x72
  const LOWER_T: byte := 0x74
  const LOWER_U: byte := 0x75
  const LBRACE: byte := 0x7B
  const RBRACE: byte := 0x7D

  predicate IsDigit(c: byte) { DIGIT0 <= c <= DIGIT0 + 9 }

  /** Does the text `w` stand at position `p` of `s`? */
  predicate At(s: Bytes, p: nat, w: Bytes) {
    p + |w| <= |s| && s[p..p + |w|] == w
  }

  lemma AtConcat(s: Bytes, p: nat, a: Bytes, b: Bytes)
    ensures At(s, p, a + b) <==> At(s, p, a) && At(s, p + |a|, b)
  {
    if At(s, p, a + b) {
      assert s[p..p + |a|] == (a + b)[..|a|] == a;
      assert s[p + |a|..p + |a| + |b|] == (a + b)[|a|..] == b;
    }
    if At(s, p, a) && At(s, p + |a|, b) {
      assert s[p..p + |a| + |b|] == s[p..p + |a|] + s[p + |a|..p + |a| + |b|];
    }
  }

  lemma AtIndex(s: Bytes, p: nat, w: Bytes, k: nat)
    requires At(s, p, w) && k < |w|
    ensures s[p + k] == w[k]
  {
    assert s[p..p + |w|][k] == s[p + k];
  }

  /** The codes of an ASCII text. */
  function Ascii(t: string): (r: Bytes)
    ensures |r| == |t| && forall i :: 0 <= i < |t| ==> r[i] == t[i] as int % 256
  {
    seq(|t|, i requires 0 <= i < |t| => t[i] as int % 256)
  }

  function Flatten(parts: seq<Bytes>): Bytes { if parts == [] then [] else parts[0] + Flatten(parts[1..]) }

  lemma {:induction false} FlattenConcat(a: seq<Bytes>, b: seq<Bytes>)
    ensures Flatten(a + b) == Flatten(a) + Flatten(b)
  {
    if a == [] {
      assert a + b == b;
    } else {
      assert (a + b)[1..] == a[1..] + b;
      FlattenConcat(a[1..], b);
    }
  }

  function FindFrom(d: Bytes, pattern: Bytes, p: nat): (r: Option<nat>)
    requires p <= |d|
    ensures r.Some? ==> p <= r.value && At(d, r.value, pattern)
    ensures r.Some? ==> forall i :: p <= i < r.value ==> !At(d, i, pattern)
    ensures r.None? ==> forall i :: p <= i ==> !At(d, i, pattern) || i == |d|
    decreases |d| - p
  {
    if At(d, p, pattern) then Some(p)
    else if p == |d| then None
    else FindFrom(d, pattern, p + 1)
  }

  /** `std::string::find` */
  function FindText(d: Bytes, pattern: Bytes): Option<nat> { FindFrom(d, pattern, 0) }

  predicate Contains(d: Bytes, pattern: Bytes) { FindText(d, pattern).Some? }

  function HexValueOf(c: byte): Option<nat> {
    if IsDigit(c) then Some(c - DIGIT0)
    else if 0x61 <= c <= 0x66 then Some(c - 0x61 + 10)
    else if 0x41 <= c <= 0x46 then Some(c - 0x41 + 10)
    else None
  }

  /** The bytes of the C `int` that an out-of-range value converts to. */
  function ToInt32(x: int): (r: int)
    ensures -0x8000_0000 <= r < 0x8000_0000
    ensures -0x8000_0000 <= x < 0x8000_0000 ==> r == x
  {
    (x + 0x8000_0000) % 0x1_0000_0000 - 0x8000_0000
  }

  lemma Int32Multiple(x: int) returns (k: int)
    ensures ToInt32(x) == x - 0x1_0000_0000 * k
  {
    k := (x + 0x8000_0000) / 0x1_0000_0000;
  }

  type uint16 = x: int | 0 <= x < 0x1_0000
  type int32 = x: int | -0x8000_0000 <= x < 0x8000_0000
  type uint32 = x: int | 0 <= x < 0x1_0000_0000

  /** Conversion to `uint32_t`. */
  function ToUInt32(x: int): (r: uint32)
    ensures 0 <= x < 0x1_0000_0000 ==> r == x
  {
    x % 0x1_0000_0000
  }

  lemma UInt32Multiple(x: int) returns (k: int)
    ensures ToUInt32(x) == x - 0x1_0000_0000 * k
  {
    k := x / 0x1_0000_0000;
  }

  /** Conversion to `int64_t`. */
  function ToInt64(x: int): (r: int)
    ensures -0x8000_0000_0000_0000 <= r < 0x8000_0000_0000_0000
    ensures -0x8000_0000_0000_0000 <= x < 0x8000_0000_0000_0000 ==> r == x
  {
    (x + 0x8000_0000_0000_0000) % 0x1_0000_0000_0000_0000 - 0x8000_0000_0000_0000
  }

  /** Conversion to `uint64_t`. */
  function ToUInt64(x: int): (r: int)
    ensures 0 <= r < 0x1_0000_0000_0000_0000
    ensures 0 <= x < 0x1_0000_0000_0000_0000 ==> r == x
  {
    x % 0x1_0000_0000_0000_0000
  }

  lemma UInt64Multiple(x: int) returns (k: int)
    ensures ToUInt64(x) == x - 0x1_0000_0000_0000_0000 * k
  {
    k := x / 0x1_0000_0000_0000_0000;
  }
}
