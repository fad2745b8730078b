/** `Base64_Encode` and `Base64Decode` of the WebSocket client. */
module Base64 {
  import opened Bytes

  const PADDING: byte := 0x3D

  /** `base64_chars`: A to Z, a to z, 0 to 9, plus, slash. */
  function Letter(i: nat): byte
    requires i < 64
  {
    if i < 26 then 0x41 + i
    else if i < 52 then 0x61 + i - 26
    else if i < 62 then 0x30 + i - 52
    else if i == 62 then PLUS
    else SLASH
  }

  /** `base64_chars.find` cast to a byte: 255 when the character is not there. */
  function FindChar(c: byte, i: nat): byte
    requires i <= 64
    decreases 64 - i
  {
    if i == 64 then 255 else if Letter(i) == c then i else FindChar(c, i + 1)
  }

  predicate IsBase64(c: byte) {
    (0x30 <= c <= 0x39) || (0x41 <= c <= 0x5A) || (0x61 <= c <= 0x7A) || c == PLUS || c == SLASH
  }

  /** Three bytes as four six-bit numbers, as characters. */
  function EncodeGroup(a: byte, b: byte, c: byte): (r: Bytes)
    ensures |r| == 4
  {
    [Letter(a / 4), Letter(a % 4 * 16 + b / 16), Letter(b % 16 * 4 + c / 64), Letter(c % 64)]
  }

  function Encode(s: Bytes): Bytes {
    if |s| == 0 then []
    else if |s| == 1 then EncodeGroup(s[0], 0, 0)[..2] + [PADDING, PADDING]
    else if |s| == 2 then EncodeGroup(s[0], s[1], 0)[..3] + [PADDING]
    else EncodeGroup(s[0], s[1], s[2]) + Encode(s[3..])
  }

  /** Four six-bit numbers as three bytes; sums are cut to a byte. */
  function JoinSextets(a: int, b: int, c: int, d: int): (r: Bytes)
    ensures |r| == 3
  {
    [(a * 4 + b / 16 % 4) % 256, (b % 16 * 16 + c / 4 % 16) % 256, (c % 4 * 64 + d) % 256]
  }

  function Index(c: byte): int { FindChar(c, 0) }

  function DecodeGroup(t: Bytes): (r: Bytes)
    requires |t| == 4
    ensures |r| == 3
  {
    JoinSextets(Index(t[0]), Index(t[1]), Index(t[2]), Index(t[3]))
  }

  /** The characters before the first that is padding or foreign. */
  function Body(t: Bytes): (r: Bytes) {
    if t == [] || t[0] == PADDING || !IsBase64(t[0]) then [] else [t[0]] + Body(t[1..])
  }

  /** Whole groups, then a tail completed with the character 0, which is never found. */
  function DecodeBody(t: Bytes): Bytes {
    if |t| == 0 then []
    else if |t| >= 4 then DecodeGroup(t[..4]) + DecodeBody(t[4..])
    else DecodeGroup(t + Zeros(4 - |t|))[..|t| - 1]
  }

  function Zeros(n: nat): (r: Bytes)
    ensures |r| == n
  {
    seq(n, _ => 0)
  }

  function Decode(t: Bytes): Bytes { DecodeBody(Body(t)) }

  // ---------------------------------------------------------------- the loops

  /** One more byte moves from the input to the group being filled. */
  lemma Moved(group: Bytes, i: nat, s: Bytes, pos: nat)
    requires i < |group| && pos < |s|
    ensures group[i := s[pos]][..i + 1] + s[pos + 1..] == group[..i] + s[pos..]
  {}

  lemma EncodeFirst(g: Bytes, rest: Bytes)
    requires |g| == 3
    ensures Encode(g + rest) == EncodeGroup(g[0], g[1], g[2]) + Encode(rest)
  {
    hide EncodeGroup;
    assert (g + rest)[3..] == rest;
  }

  method Base64Encode(bytesToEncode: Bytes) returns (ret: Bytes)
    ensures ret == Encode(bytesToEncode)
  {
    hide EncodeGroup, Encode;
    ret := [];
    var i := 0;
    var charArray3: Bytes := [0, 0, 0];
    var pos := 0;
    ghost var left := bytesToEncode;
    while pos < |bytesToEncode|
      invariant 0 <= i < 3 && pos <= |bytesToEncode| && |charArray3| == 3
      invariant left == charArray3[..i] + bytesToEncode[pos..]
      invariant Encode(bytesToEncode) == ret + Encode(left)
    {
      Moved(charArray3, i, bytesToEncode, pos);
      charArray3 := charArray3[i := bytesToEncode[pos]];
      i, pos := i + 1, pos + 1;
      assert left == charArray3[..i] + bytesToEncode[pos..];
      if i == 3 {
        assert charArray3[..i] == charArray3;
        EncodeFirst(charArray3, bytesToEncode[pos..]);
        var charArray4 := EncodeGroup(charArray3[0], charArray3[1], charArray3[2]);
        assert ret + (charArray4 + Encode(bytesToEncode[pos..])) == ret + charArray4 + Encode(bytesToEncode[pos..]);
        ret := ret + charArray4;
        i, left := 0, bytesToEncode[pos..];
      }
    }
    assert left == charArray3[..i];
    if i != 0 {
      var last := EncodeTail(charArray3, i);
      ret := ret + last;
    } else {
      assert Encode([]) == [] by { NothingEncoded(); }
    }
  }

  lemma NothingEncoded()
    ensures Encode([]) == []
  {}

  /** The last, incomplete group, with its padding. */
  method EncodeTail(group: Bytes, i: nat) returns (ret: Bytes)
    requires |group| == 3 && 0 < i < 3
    ensures ret == Encode(group[..i])
  {
    hide EncodeGroup;
    var charArray3 := group;
    for j := i to 3
      invariant |charArray3| == 3 && charArray3[..i] == group[..i]
      invariant forall k :: i <= k < j ==> charArray3[k] == 0
    {
      charArray3 := charArray3[j := 0];
    }
    var charArray4 := EncodeGroup(charArray3[0], charArray3[1], charArray3[2]);
    ret := charArray4[..i + 1];
    var padding: Bytes := [];
    for k := i to 3
      invariant padding == seq(k - i, _ => PADDING)
    {
      padding := padding + [PADDING];
    }
    ret := ret + padding;
    assert group[..i][0] == charArray3[..i][0] == charArray3[0];
    if i == 2 { assert group[..i][1] == charArray3[..i][1] == charArray3[1]; }
  }

  lemma DecodeFirst(g: Bytes, rest: Bytes)
    requires |g| == 4
    ensures DecodeBody(g + rest) == DecodeGroup(g) + DecodeBody(rest)
  {
    hide DecodeGroup;
    assert (g + rest)[..4] == g && (g + rest)[4..] == rest;
  }

  lemma BodyStep(t: Bytes, pos: nat)
    requires pos <= |t|
    ensures Body(t[pos..]) == if pos < |t| && t[pos] != PADDING && IsBase64(t[pos]) then [t[pos]] + Body(t[pos + 1..]) else []
  {
    if pos < |t| { assert t[pos..][1..] == t[pos + 1..]; }
  }

  method Base64Decode(encoded: Bytes) returns (ret: Bytes)
    ensures ret == Decode(encoded)
  {
    hide DecodeGroup, DecodeBody, IsBase64, Body;
    ret := [];
    var i, pos := 0, 0;
    var charArray4: Bytes := [0, 0, 0, 0];
    ghost var left := Body(encoded);
    assert encoded[0..] == encoded;
    while pos < |encoded| && encoded[pos] != PADDING && IsBase64(encoded[pos])
      invariant 0 <= i < 4 && pos <= |encoded| && |charArray4| == 4
      invariant left == charArray4[..i] + Body(encoded[pos..])
      invariant Decode(encoded) == ret + DecodeBody(left)
    {
      BodyStep(encoded, pos);
      Moved(charArray4, i, [encoded[pos]] + Body(encoded[pos + 1..]), 0);
      charArray4 := charArray4[i := encoded[pos]];
      i, pos := i + 1, pos + 1;
      assert left == charArray4[..i] + Body(encoded[pos..]);
      if i == 4 {
        DecodeFirst(charArray4, Body(encoded[pos..]));
        assert left == charArray4 + Body(encoded[pos..]);
        ret := ret + DecodeGroup(charArray4);
        i, left := 0, Body(encoded[pos..]);
      }
    }
    BodyStep(encoded, pos);
    assert left == charArray4[..i];
    if i != 0 {
      var last := DecodeTail(charArray4, i);
      ret := ret + last;
    } else {
      assert DecodeBody([]) == [] by { NothingDecoded(); }
    }
  }

  lemma NothingDecoded()
    ensures DecodeBody([]) == []
  {}

  /** The last, incomplete group. */
  method DecodeTail(group: Bytes, i: nat) returns (bytes: Bytes)
    requires |group| == 4 && 0 < i < 4
    ensures bytes == DecodeBody(group[..i])
  {
    hide DecodeGroup;
    var charArray4 := group;
    for j := i to 4
      invariant |charArray4| == 4 && charArray4[..i] == group[..i]
      invariant forall k :: i <= k < j ==> charArray4[k] == 0
    {
      charArray4 := charArray4[j := 0];
    }
    assert charArray4 == group[..i] + Zeros(4 - i);
    bytes := DecodeGroup(charArray4)[..i - 1];
  }

  lemma {:induction false} BodyPrefix(t: Bytes, n: nat)
    requires n <= |t| && forall i :: 0 <= i < n ==> t[i] != PADDING && IsBase64(t[i])
    ensures Body(t) == t[..n] + Body(t[n..])
    decreases n
  {
    if n > 0 {
      assert t[1..][n - 1..] == t[n..];
      BodyPrefix(t[1..], n - 1);
      assert t[..n] == [t[0]] + t[1..][..n - 1];
    }
  }

  // ---------------------------------------------------------------- inverse

  lemma {:induction false} FindLetter(i: nat, k: nat)
    requires k <= i < 64
    ensures FindChar(Letter(i), k) == i
    decreases i - k
  {
    if k < i { FindLetter(i, k + 1); }
  }

  lemma LetterBack(i: nat)
    requires i < 64
    ensures Index(Letter(i)) == i && IsBase64(Letter(i)) && Letter(i) != PADDING
  {
    FindLetter(i, 0);
  }

  lemma FirstByte(a: byte, b: byte)
    ensures (a / 4 * 4 + (a % 4 * 16 + b / 16) / 16 % 4) % 256 == a
  {
    assert (a % 4 * 16 + b / 16) / 16 == a % 4;
  }

  lemma SecondByte(a: byte, b: byte, c: byte)
    ensures ((a % 4 * 16 + b / 16) % 16 * 16 + (b % 16 * 4 + c / 64) / 4 % 16) % 256 == b
  {
    assert (a % 4 * 16 + b / 16) % 16 == b / 16;
    assert (b % 16 * 4 + c / 64) / 4 == b % 16;
  }

  lemma ThirdByte(b: byte, c: byte)
    ensures ((b % 16 * 4 + c / 64) % 4 * 64 + c % 64) % 256 == c
  {
    assert (b % 16 * 4 + c / 64) % 4 == c / 64;
  }

  lemma SextetsBack(a: byte, b: byte, c: byte)
    ensures JoinSextets(a / 4, a % 4 * 16 + b / 16, b % 16 * 4 + c / 64, c % 64) == [a, b, c]
  {
    FirstByte(a, b);
    SecondByte(a, b, c);
    ThirdByte(b, c);
  }

  lemma GroupBack(a: byte, b: byte, c: byte)
    ensures DecodeGroup(EncodeGroup(a, b, c)) == [a, b, c]
  {
    LetterBack(a / 4);
    LetterBack(a % 4 * 16 + b / 16);
    LetterBack(b % 16 * 4 + c / 64);
    LetterBack(c % 64);
    SextetsBack(a, b, c);
  }

  lemma GroupInBody(a: byte, b: byte, c: byte)
    ensures forall i :: 0 <= i < 4 ==> IsBase64(EncodeGroup(a, b, c)[i]) && EncodeGroup(a, b, c)[i] != PADDING
  {
    LetterBack(a / 4);
    LetterBack(a % 4 * 16 + b / 16);
    LetterBack(b % 16 * 4 + c / 64);
    LetterBack(c % 64);
  }

  lemma FirstByteBack(a: byte, c: int, d: int)
    ensures JoinSextets(a / 4, a % 4 * 16, c, d)[0] == a
  {}

  lemma OneByteTail(a: byte)
    ensures DecodeBody(EncodeGroup(a, 0, 0)[..2]) == [a]
  {
    hide FindChar, Letter, JoinSextets;
    var g := EncodeGroup(a, 0, 0);
    LetterBack(a / 4);
    LetterBack(a % 4 * 16);
    var t := g[..2] + Zeros(2);
    assert t[0] == g[0] && t[1] == g[1];
    FirstByteBack(a, Index(t[2]), Index(t[3]));
    assert DecodeGroup(t)[..1] == [a];
  }

  lemma TwoByteTail(a: byte, b: byte)
    ensures DecodeBody(EncodeGroup(a, b, 0)[..3]) == [a, b]
  {
    hide FindChar, Letter, JoinSextets;
    var g := EncodeGroup(a, b, 0);
    LetterBack(a / 4);
    LetterBack(a % 4 * 16 + b / 16);
    LetterBack(b % 16 * 4);
    var t := g[..3] + Zeros(1);
    assert t[0] == g[0] && t[1] == g[1] && t[2] == g[2];
    SecondByteBack(a, b, Index(t[3]));
    assert DecodeGroup(t)[..2] == [a, b];
  }

  lemma SecondByteBack(a: byte, b: byte, d: int)
    ensures JoinSextets(a / 4, a % 4 * 16 + b / 16, b % 16 * 4, d)[..2] == [a, b]
  {
    FirstByte(a, b);
    SecondByte(a, b, 0);
  }

  /** Decoding the encoding of any bytes gives them back, with no, one or two bytes in the last
      group. */
  lemma {:induction false} Base64RoundTrip(s: Bytes)
    ensures Decode(Encode(s)) == s
    decreases |s|
  {
    hide EncodeGroup, DecodeGroup;
    if |s| >= 3 {
      var g := EncodeGroup(s[0], s[1], s[2]);
      GroupInBody(s[0], s[1], s[2]);
      var t := Encode(s);
      assert t[..4] == g && t[4..] == Encode(s[3..]);
      assert forall i :: 0 <= i < 4 ==> t[i] == g[i];
      BodyPrefix(t, 4);
      DecodeFirst(g, Body(t[4..]));
      GroupBack(s[0], s[1], s[2]);
      Base64RoundTrip(s[3..]);
      assert s == s[..3] + s[3..];
    } else if |s| == 2 {
      TailInBody(s[0], s[1], 3);
      TwoByteTail(s[0], s[1]);
    } else if |s| == 1 {
      TailInBody(s[0], 0, 2);
      OneByteTail(s[0]);
    }
  }

  lemma TailInBody(a: byte, b: byte, n: nat)
    requires n == 2 || n == 3
    ensures var t := EncodeGroup(a, b, 0)[..n] + (if n == 2 then [PADDING, PADDING] else [PADDING]);
            Body(t) == EncodeGroup(a, b, 0)[..n]
  {
    hide EncodeGroup;
    var g := EncodeGroup(a, b, 0);
    var t := g[..n] + (if n == 2 then [PADDING, PADDING] else [PADDING]);
    GroupInBody(a, b, 0);
    assert forall i :: 0 <= i < n ==> t[i] == g[i];
    BodyPrefix(t, n);
    assert t[n] == PADDING;
  }

  // ---------------------------------------------------------------- the alphabet

  /** The letters, spelled out as in section 4 of RFC 4648. */
  lemma AlphabetIs(i: nat)
    requires i < 64
    ensures i < 26 ==> Letter(i) == "ABCDEFGHIJKLMNOPQRSTUVWXYZ"[i] as int
    ensures 26 <= i < 52 ==> Letter(i) == "abcdefghijklmnopqrstuvwxyz"[i - 26] as int
    ensures i >= 52 ==> Letter(i) == "0123456789+/"[i - 52] as int
  {}

  /** Three bytes and the four letters that stand for them are one number in two bases. */
  lemma GroupIs(a: byte, b: byte, c: byte) returns (i: nat, j: nat, k: nat, l: nat)
    ensures i < 64 && j < 64 && k < 64 && l < 64 && EncodeGroup(a, b, c) == [Letter(i), Letter(j), Letter(k), Letter(l)]
    ensures 65536 * a + 256 * b + c == 262144 * i + 4096 * j + 64 * k + l
  {
    i, j, k, l := a / 4, a % 4 * 16 + b / 16, b % 16 * 4 + c / 64, c % 64;
  }

  /** Test vectors of section 10 of RFC 4648: "foobar", "fooba" and "foob". */
  lemma FoobarExamples()
    ensures Encode([102, 111, 111, 98, 97, 114]) == [90, 109, 57, 118, 89, 109, 70, 121]
    ensures Encode([102, 111, 111, 98, 97]) == [90, 109, 57, 118, 89, 109, 69, 61]
    ensures Encode([102, 111, 111, 98]) == [90, 109, 57, 118, 89, 103, 61, 61]
  {
    hide Encode;
    TailExamples();
    FirstThree([98, 97, 114]);
    FirstThree([98, 97]);
    FirstThree([98]);
    assert [102, 111, 111] + [98, 97, 114] == [102, 111, 111, 98, 97, 114];
    assert [102, 111, 111] + [98, 97] == [102, 111, 111, 98, 97];
    assert [102, 111, 111] + [98] == [102, 111, 111, 98];
  }

  lemma FirstThree(rest: Bytes)
    ensures Encode([102, 111, 111] + rest) == [90, 109, 57, 118] + Encode(rest)
  {
    hide Encode;
    EncodeFirst([102, 111, 111], rest);
  }

  lemma TailExamples()
    ensures Encode([98, 97, 114]) == [89, 109, 70, 121]
    ensures Encode([98, 97]) == [89, 109, 69, 61]
    ensures Encode([98]) == [89, 103, 61, 61]
  {
    EncodeFirst([98, 97, 114], []);
    assert [98, 97, 114] + [] == [98, 97, 114];
  }
}
