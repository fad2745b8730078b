/** Decoding of the chunked transfer coding, section 4.1 of RFC 7230, whole and in parts. */
module HttpLaws {
  import opened Bytes
  import opened HttpChunked

  /** A chunk as it is sent: its size in hexadecimal, an optional extension, its data. */
  datatype Chunk = Chunk(sizeText: Bytes, extension: Bytes, data: Bytes)

  predicate HexDigits(t: Bytes) { forall i :: 0 <= i < |t| ==> HexValueOf(t[i]).Some? }

  /** Any spelling of the size with hexadecimal digits, leading zeros included. */
  predicate WellFormed(c: Chunk) {
    && 0 < |c.data| < 0x8000_0000
    && c.sizeText != [] && HexDigits(c.sizeText) && HexRun(c.sizeText, 0, 0) == |c.data|
    && (c.extension != [] ==> c.extension[0] == 0x3B)
    && CR !in c.extension
  }

  function Line(c: Chunk): Bytes { c.sizeText + c.extension }

  /** What follows the header, from the line end before a chunk size on. */
  function Body(cs: seq<Chunk>): Bytes {
    if cs == [] then BODY_END else LINE_END + Line(cs[0]) + LINE_END + cs[0].data + Body(cs[1..])
  }

  function Joined(cs: seq<Chunk>): Bytes { if cs == [] then [] else cs[0].data + Joined(cs[1..]) }

  /** A header with its empty line: no NUL, no earlier empty line, no Content-Length field. */
  predicate Header(h: Bytes) {
    && |h| >= 4 && NUL !in h
    && FindText(h, LINE_END + LINE_END) == Some(|h| - 4)
    && !Contains(h, CONTENT_LENGTH_FIELD)
  }

  /** The message: the last line end of the header is the one before the first chunk size. */
  function Message(h: Bytes, cs: seq<Chunk>): Bytes
    requires |h| >= 2
  {
    h[..|h| - 2] + Body(cs)
  }

  /** Positions right after the data of a chunk, when the body begins at `p`. */
  predicate AtDataEnd(cs: seq<Chunk>, p: int, k: int)
    decreases |cs|
  {
    cs != [] && (k == p + Head(cs[0]) + |cs[0].data| || AtDataEnd(cs[1..], p + Head(cs[0]) + |cs[0].data|, k))
  }

  /** The bytes of a chunk before its data. */
  function Head(c: Chunk): nat { 4 + |Line(c)| }

  // ---------------------------------------------------------------- sizes

  lemma {:induction false} HexRunStops(t: Bytes, x: Bytes, i: nat, sum: nat)
    requires i <= |t| && HexDigits(t) && (x != [] ==> HexValueOf(x[0]).None?)
    ensures HexRun(t + x, i, sum) == HexRun(t, i, sum)
    decreases |t| - i
  {
    if i < |t| {
      assert (t + x)[i] == t[i];
      HexRunStops(t, x, i + 1, sum * 16 + HexValueOf(t[i]).value);
    } else if x != [] {
      assert (t + x)[i] == x[0];
    }
  }

  lemma SizeRead(c: Chunk)
    requires WellFormed(c)
    ensures ChunkSize(Line(c)) == |c.data|
  {
    hide HexRun, ToInt32;
    var t := Line(c);
    assert t[0] == c.sizeText[0] && HexValueOf(t[0]).Some?;
    assert SkipSpaces(t, 0) == 0 && t[0] != MINUS && t[0] != PLUS;
    HexRunStops(c.sizeText, c.extension, 0, 0);
    if |t| > 2 && HexValueOf(t[2]).Some? {
      assert t[1] != 0x78 && t[1] != 0x58 by {
        if |c.sizeText| > 1 { assert t[1] == c.sizeText[1]; } else { assert t[1] == c.extension[0]; }
      }
    }
  }

  /** The digits of a size, as a sender would write them. */
  function ToHex(n: nat): Bytes {
    if n < 16 then [HexDigit(n)] else ToHex(n / 16) + [HexDigit(n % 16)]
  }

  function HexDigit(d: nat): byte
    requires d < 16
  {
    if d < 10 then DIGIT0 + d else 0x41 + d - 10
  }

  lemma {:induction false} HexRunAppend(t: Bytes, x: byte, i: nat, sum: nat)
    requires i <= |t| && HexDigits(t) && HexValueOf(x).Some?
    ensures HexRun(t + [x], i, sum) == HexRun(t, i, sum) * 16 + HexValueOf(x).value
    decreases |t| - i
  {
    if i < |t| {
      assert (t + [x])[i] == t[i];
      HexRunAppend(t, x, i + 1, sum * 16 + HexValueOf(t[i]).value);
    } else {
      assert (t + [x])[i] == x;
      assert HexRun(t + [x], i + 1, sum * 16 + HexValueOf(x).value) == sum * 16 + HexValueOf(x).value;
    }
  }

  /** Every size can be written: the chunks of the theorems below exist for all data. */
  lemma {:induction false} EveryDataHasAChunk(data: Bytes)
    requires 0 < |data| < 0x8000_0000
    ensures WellFormed(Chunk(ToHex(|data|), [], data))
  {
    ToHexReads(|data|);
  }

  lemma {:induction false} ToHexReads(n: nat)
    ensures ToHex(n) != [] && HexDigits(ToHex(n)) && HexRun(ToHex(n), 0, 0) == n
  {
    if n < 16 {
      assert HexRun(ToHex(n), 1, n) == n;
    } else {
      ToHexReads(n / 16);
      HexRunAppend(ToHex(n / 16), HexDigit(n % 16), 0, 0);
    }
  }

  // ---------------------------------------------------------------- one pass

  lemma {:induction false} SizeEndFound(d: Bytes, p: nat, e: nat, index: nat)
    requires p + 2 + index <= e && At(d, e, LINE_END) && (forall i :: p + 2 + index <= i < e ==> d[i] != CR)
    ensures FindSizeEnd(d, p, index) == EndAt(e)
    decreases e - index
  {
    if p + 2 + index < e {
      SizeEndFound(d, p, e, index + 1);
    } else {
      AtIndex(d, e, LINE_END, 0);
      AtIndex(d, e, LINE_END, 1);
    }
  }

  /** The beginning of a body cut off at `k`, at position `p` of the text. */
  predicate CutBody(d: Bytes, p: nat, cs: seq<Chunk>) {
    p <= |d| <= p + |Body(cs)| && d[p..] == Body(cs)[..|d| - p]
  }

  lemma HeadBytes(d: Bytes, p: nat, cs: seq<Chunk>, line: Bytes, rest: Bytes)
    requires CutBody(d, p, cs) && Body(cs) == LINE_END + line + LINE_END + rest && CR !in line
    ensures forall i :: p + 2 <= i < |d| && i < p + 2 + |line| ==> d[i] != CR
    ensures p < |d| ==> d[p] == CR
    ensures |d| >= p + 4 + |line| ==> At(d, p + 2 + |line|, LINE_END) && d[p + 2..p + 2 + |line|] == line
  {
    hide Body;
    var b := Body(cs);
    assert forall i :: p <= i < |d| ==> d[i] == d[p..][i - p] == b[i - p];
    assert forall i :: 0 <= i < |line| ==> b[2 + i] == line[i];
    if |d| >= p + 4 + |line| {
      assert b[2 + |line|..4 + |line|] == LINE_END;
      assert d[p + 2 + |line|..p + 4 + |line|] == b[2 + |line|..4 + |line|];
      assert d[p + 2..p + 2 + |line|] == b[2..2 + |line|] == line;
    }
  }

  lemma LineHasNoEnd(c: Chunk)
    requires WellFormed(c)
    ensures CR !in Line(c)
  {
    forall i | 0 <= i < |Line(c)| ensures Line(c)[i] != CR {
      if i < |c.sizeText| {
        assert HexValueOf(c.sizeText[i]).Some?;
      } else {
        assert Line(c)[i] == c.extension[i - |c.sizeText|];
      }
    }
  }

  /** A size line that is not there in full is never taken for one. */
  lemma CutLine(d: Bytes, p: nat, cs: seq<Chunk>, line: Bytes, rest: Bytes, content: Bytes)
    requires CutBody(d, p, cs) && Body(cs) == LINE_END + line + LINE_END + rest && CR !in line
    requires p < |d| < p + 4 + |line|
    ensures !Chunks(d, p, content).Complete?
  {
    hide Body, FindSizeEnd;
    HeadBytes(d, p, cs, line, rest);
    forall e: nat | p + 2 <= e && e + 2 <= |d| ensures !At(d, e, LINE_END) {
      assert d[e..e + 2][0] == d[e] != CR;
    }
  }

  lemma OnePass(d: Bytes, p: nat, content: Bytes, e: nat, size: nat)
    requires p < |d| && d[p] == CR && FindSizeEnd(d, p, 0) == EndAt(e) && ChunkSize(d[p + 2..e]) == size > 0
    ensures e + 2 + size <= |d| ==> Chunks(d, p, content) == Chunks(d, e + 2 + size, content + d[e + 2..e + 2 + size])
    ensures e + 2 + size > |d| ==> !Chunks(d, p, content).Complete?
  {
    hide FindSizeEnd, ChunkSize;
  }

  /** A pass over a chunk that is there in full, or over one that is cut off inside. */
  lemma ChunkPass(d: Bytes, p: nat, cs: seq<Chunk>, content: Bytes)
    requires CutBody(d, p, cs) && cs != [] && WellFormed(cs[0])
    ensures var q := p + Head(cs[0]) + |cs[0].data|;
            && (|d| >= q ==> Chunks(d, p, content) == Chunks(d, q, content + cs[0].data) && CutBody(d, q, cs[1..]))
            && (p < |d| < q ==> !Chunks(d, p, content).Complete?)
  {
    hide FindSizeEnd, ChunkSize, WellFormed, Chunks, CutBody;
    var c := cs[0];
    var line, rest := Line(c), c.data + Body(cs[1..]);
    var e, q := p + 2 + |line|, p + Head(c) + |c.data|;
    LineHasNoEnd(c);
    assert Body(cs) == LINE_END + line + LINE_END + rest;
    assert |c.data| > 0 by { DataNotEmpty(c); }
    if |d| >= p + 4 + |line| {
      HeadBytes(d, p, cs, line, rest);
      SizeEndFound(d, p, e, 0);
      SizeRead(c);
      OnePass(d, p, content, e, |c.data|);
      if |d| >= q { DataBytes(d, p, cs); }
    } else if p < |d| {
      CutLine(d, p, cs, line, rest, content);
    }
  }

  lemma DataNotEmpty(c: Chunk)
    requires WellFormed(c)
    ensures |c.data| > 0
  {}

  lemma DataBytes(d: Bytes, p: nat, cs: seq<Chunk>)
    requires CutBody(d, p, cs) && cs != [] && |d| >= p + Head(cs[0]) + |cs[0].data|
    ensures var b, q := p + Head(cs[0]), p + Head(cs[0]) + |cs[0].data|;
            d[b..q] == cs[0].data && CutBody(d, q, cs[1..])
  {
    var c := cs[0];
    var start := LINE_END + Line(c) + LINE_END;
    var b, q := p + Head(c), p + Head(c) + |c.data|;
    var body, rest := Body(cs), Body(cs[1..]);
    assert body == start + c.data + rest && |start| == Head(c);
    assert d[b..q] == d[p..][Head(c)..Head(c) + |c.data|] == body[Head(c)..Head(c) + |c.data|] == c.data;
    assert d[q..] == d[p..][Head(c) + |c.data|..];
    assert body[..|d| - p][Head(c) + |c.data|..] == rest[..|d| - q];
  }

  // ---------------------------------------------------------------- the loop

  lemma LastPass(d: Bytes, p: nat, content: Bytes)
    requires CutBody(d, p, [])
    ensures |d| == p + 7 ==> Chunks(d, p, content) == Complete(content, |d|)
    ensures p < |d| < p + 5 ==> !Chunks(d, p, content).Complete?
  {
    hide FindSizeEnd, ChunkSize;
    var line, rest := [DIGIT0], LINE_END;
    assert Body([]) == LINE_END + line + LINE_END + rest;
    if |d| >= p + 5 {
      HeadBytes(d, p, [], line, rest);
      SizeEndFound(d, p, p + 3, 0);
      assert ChunkSize(line) == 0 by { ZeroSize(); }
      assert content + d[p + 5..p + 5] == content;
    } else if p < |d| {
      CutLine(d, p, [], line, rest, content);
    }
  }

  lemma ZeroSize()
    ensures ChunkSize([DIGIT0]) == 0
  {
    assert HexRun([DIGIT0], 1, 0) == 0;
    assert HexRun([DIGIT0], 0, 0) == 0;
  }

  /** The loop on a whole body gives back the data; on a body cut off before its end it completes
      only right after the data of some chunk, the last two bytes of the body aside. */
  lemma {:induction false} ChunksDecode(d: Bytes, p: nat, cs: seq<Chunk>, content: Bytes)
    requires CutBody(d, p, cs) && forall c :: c in cs ==> WellFormed(c)
    ensures |d| == p + |Body(cs)| ==> Chunks(d, p, content) == Complete(content + Joined(cs), |d|)
    ensures p < |d| && |d| + 2 < p + |Body(cs)| ==> (Chunks(d, p, content).Complete? <==> AtDataEnd(cs, p, |d|))
    ensures p == |d| ==> Chunks(d, p, content).Complete?
    decreases |cs|
  {
    hide WellFormed, Chunks;
    assert p == |d| ==> Chunks(d, p, content).Complete? by { AtEnd(d, p, content); }
    if cs == [] {
      LastPass(d, p, content);
      assert content + [] == content;
    } else {
      var q := p + Head(cs[0]) + |cs[0].data|;
      assert WellFormed(cs[0]);
      ChunkPass(d, p, cs, content);
      if |d| >= q {
        ChunksDecode(d, q, cs[1..], content + cs[0].data);
        assert content + cs[0].data + Joined(cs[1..]) == content + (cs[0].data + Joined(cs[1..]));
      } else {
        NotBefore(cs, p, |d|);
      }
    }
  }

  lemma AtEnd(d: Bytes, p: nat, content: Bytes)
    ensures p == |d| ==> Chunks(d, p, content).Complete?
  {}

  lemma {:induction false} NotBefore(cs: seq<Chunk>, p: int, k: int)
    requires cs != [] && k < p + Head(cs[0]) + |cs[0].data|
    ensures !AtDataEnd(cs, p, k)
    decreases |cs|
  {
    if |cs| > 1 { NotBefore(cs[1..], p + Head(cs[0]) + |cs[0].data|, k); }
  }

  // ---------------------------------------------------------------- the message

  lemma {:induction false} StrnLenPrefix(d: Bytes, n: nat, len: nat)
    requires n <= len <= |d| && (forall i :: 0 <= i < n ==> d[i] != NUL)
    ensures StrnLen(d, len) >= n
  {}

  /** The header's end is found, once at least one more byte is there. */
  lemma HeaderFound(d: Bytes, h: Bytes)
    requires Header(h) && |d| > |h| && d[..|h|] == h && d[|h|] != NUL
    ensures Find(d, LINE_END + LINE_END, |d|) == Some(|h| - 4)
    ensures Find(d, CONTENT_LENGTH_FIELD, |h|) == None
  {
    var mark, n := LINE_END + LINE_END, StrnLen(d, |d|);
    assert forall i :: 0 <= i < |h| ==> d[i] == d[..|h|][i] == h[i];
    StrnLenPrefix(d, |h| + 1, |d|);
    var text := d[..n];
    assert text[|h| - 4..|h|] == h[|h| - 4..|h|];
    forall i | 0 <= i < |h| - 4 ensures !At(text, i, mark) {
      assert text[i..i + 4] == h[i..i + 4];
      assert !At(h, i, mark);
    }
    FirstFind(text, mark, |h| - 4);
    StrnLenPrefix(d, |h|, |h|);
    assert d[..StrnLen(d, |h|)] == h;
  }

  lemma FirstFind(d: Bytes, needle: Bytes, at: nat)
    requires At(d, at, needle) && forall i :: 0 <= i < at ==> !At(d, i, needle)
    ensures FindText(d, needle) == Some(at)
  {}

  lemma BodyBegins(cs: seq<Chunk>)
    requires forall c :: c in cs ==> WellFormed(c)
    ensures |Body(cs)| >= 7 && Body(cs)[..2] == LINE_END && Body(cs)[2] != NUL
    ensures Body(cs)[2] != NUL
  {
    if cs != [] {
      assert WellFormed(cs[0]);
      assert Body(cs)[2] == cs[0].sizeText[0];
      assert HexValueOf(cs[0].sizeText[0]).Some?;
    }
  }

  /** A message cut off after the header: what the loop gets to see. */
  lemma MessageCut(h: Bytes, cs: seq<Chunk>, k: nat)
    requires Header(h) && (forall c :: c in cs ==> WellFormed(c)) && |h| < k <= |Message(h, cs)|
    ensures var d := Message(h, cs)[..k];
            && CutBody(d, |h| - 2, cs)
            && Find(d, LINE_END + LINE_END, k) == Some(|h| - 4) && Find(d, CONTENT_LENGTH_FIELD, |h|) == None
  {
    hide Body, WellFormed, Find;
    var d, p := Message(h, cs)[..k], |h| - 2;
    BodyBegins(cs);
    assert Message(h, cs)[p..] == Body(cs);
    assert d[p..] == Body(cs)[..k - p];
    HeaderEnds(h);
    assert d[..|h|] == h[..p] + Body(cs)[..2];
    assert d[|h|] == Body(cs)[2];
    HeaderFound(d, h);
  }

  lemma HeaderEnds(h: Bytes)
    requires Header(h)
    ensures h == h[..|h| - 2] + LINE_END
  {
    var p := |h| - 2;
    assert At(h, |h| - 4, LINE_END + LINE_END);
    AtConcat(h, |h| - 4, LINE_END, LINE_END);
    assert h[p..|h|] == LINE_END;
  }

  lemma {:induction false} BodyEnds(cs: seq<Chunk>)
    ensures |Body(cs)| >= 7 && Body(cs)[|Body(cs)| - 7..] == BODY_END
    decreases |cs|
  {
    if cs != [] {
      BodyEnds(cs[1..]);
      var b, r := Body(cs), Body(cs[1..]);
      assert b[|b| - |r|..] == r;
      assert b[|b| - 7..] == r[|r| - 7..];
    }
  }

  /** Decoding the chunked coding of any chunks gives their data joined and takes the whole message. */
  lemma MessageDecodes(h: Bytes, cs: seq<Chunk>)
    requires Header(h) && forall c :: c in cs ==> WellFormed(c)
    ensures Handle(Message(h, cs)) == Complete(Joined(cs), |Message(h, cs)|)
  {
    hide Body, WellFormed, Find, Chunks, Joined;
    var m := Message(h, cs);
    BodyEnds(cs);
    MessageCut(h, cs, |m|);
    assert m[..|m|] == m;
    ChunksDecode(m, |h| - 2, cs, []);
    assert [] + Joined(cs) == Joined(cs);
    assert m[|m| - 7..|m|] == Body(cs)[|Body(cs)| - 7..];
  }

  /** Every proper part that a read may end with: the decoder completes too early exactly if the part
      looks like the end of a body and stops right after the data of a chunk. */
  lemma PartCompletesIff(h: Bytes, cs: seq<Chunk>, k: nat)
    requires Header(h) && (forall c :: c in cs ==> WellFormed(c)) && |h| < k < |Message(h, cs)|
    ensures var d := Message(h, cs)[..k];
            Handle(d).Complete? <==> k >= 7 && At(d, k - 7, BODY_END) && AtDataEnd(cs, |h| - 2, k)
  {
    hide Body, WellFormed, Find, Chunks, AtDataEnd;
    var d, m := Message(h, cs)[..k], Message(h, cs);
    MessageCut(h, cs, k);
    BodyEnds(cs);
    if k >= 7 && At(d, k - 7, BODY_END) {
      assert k + 2 < |m| by { NotAlmostWhole(h, cs, k); }
      ChunksDecode(d, |h| - 2, cs, []);
    }
  }

  /** A message of one chunk, whose data is the text that ends a body: with the first read stopping right
      after that data, the message is taken for complete there. */
  lemma CompletesEarly() returns (h: Bytes, cs: seq<Chunk>, k: nat)
    ensures Header(h) && (forall c :: c in cs ==> WellFormed(c)) && |h| < k < |Message(h, cs)|
    ensures Handle(Message(h, cs)[..k]).Complete?
  {
    var c := Chunk([0x37], [], BODY_END);
    h, cs, k := LINE_END + LINE_END, [c], 14;
    assert WellFormed(c) by {
      assert HexRun(c.sizeText, 1, 7) == 7;
      assert HexRun(c.sizeText, 0, 0) == 7;
    }
    assert At(h, 0, LINE_END + LINE_END) by { assert h[0..4] == h; }
    assert Body(cs) == LINE_END + Line(c) + LINE_END + c.data + Body([]);
    var m := Message(h, cs);
    assert |m| == 21 && m[7..14] == BODY_END;
    assert m[..k][k - 7..k] == BODY_END;
    hide Body, WellFormed, Handle, FindFrom;
    assert AtDataEnd(cs, |h| - 2, k);
    PartCompletesIff(h, cs, k);
  }

  /** One or two bytes short of the whole, the text does not end like a body. */
  lemma NotAlmostWhole(h: Bytes, cs: seq<Chunk>, k: nat)
    requires |h| >= 2 && 7 <= k < |Message(h, cs)| && At(Message(h, cs)[..k], k - 7, BODY_END)
    ensures k + 2 < |Message(h, cs)|
  {
    hide Body;
    var m, d := Message(h, cs), Message(h, cs)[..k];
    BodyEnds(cs);
    assert m[|m| - 7..] == Body(cs)[|Body(cs)| - 7..] == BODY_END;
    assert m[|m| - 4] == m[|m| - 7..][3] == CR && m[|m| - 5] == m[|m| - 7..][2] == DIGIT0;
    assert m[|m| - 2] == m[|m| - 7..][5] == CR && m[|m| - 3] == m[|m| - 7..][4] == LF;
    assert d[k - 1] == m[k - 1] && d[k - 3] == m[k - 3];
    AtIndex(d, k - 7, BODY_END, 6);
    AtIndex(d, k - 7, BODY_END, 4);
  }

  /** Up to its end the header alone is never enough. */
  lemma HeaderAloneWaits(h: Bytes, k: nat)
    requires Header(h) && k <= |h|
    ensures Handle(h[..k]) == Incomplete
  {
    var d, mark := h[..k], LINE_END + LINE_END;
    if d != [] {
      var text := d[..StrnLen(d, k)];
      assert text == h[..|text|];
      match FindText(text, mark) {
        case Some(i) =>
          assert text[i..i + 4] == h[i..i + 4];
          assert At(h, i, mark);
        case None =>
      }
    }
  }

  // ---------------------------------------------------------------- Content-Length

  predicate DecimalDigits(t: Bytes) { forall i :: 0 <= i < |t| ==> IsDigit(t[i]) }

  /** Space, tab, vertical tab and form feed. */
  predicate Blanks(t: Bytes) { forall i :: 0 <= i < |t| ==> t[i] in {32, 9, 11, 12} }

  /** How a length is written: blanks, perhaps a sign, digits. */
  datatype Amount = Amount(gap: Bytes, sign: Bytes, digits: Bytes)

  predicate Proper(a: Amount) {
    Blanks(a.gap) && (a.sign == [] || a.sign == [43] || a.sign == [45]) && DecimalDigits(a.digits) && a.digits != []
  }

  function Text(a: Amount): Bytes { a.gap + (a.sign + a.digits) }

  /** The number the digits denote. */
  function Decimal(digits: Bytes): nat { DecimalRun(digits, 0, 0) }

  function Value(a: Amount): int { if a.sign == [45] then 0 - Decimal(a.digits) else Decimal(a.digits) }

  /** A header with its empty line and a Content-Length field. */
  function SizedHeader(before: Bytes, a: Amount, after: Bytes): Bytes { before + FieldLine(Text(a)) + after }

  function FieldLine(text: Bytes): Bytes { CONTENT_LENGTH_FIELD + [COLON] + text }

  predicate SizedParts(before: Bytes, a: Amount, after: Bytes) {
    var h := SizedHeader(before, a, after);
    && Proper(a) && Decimal(a.digits) < 0x8000_0000
    && |after| >= 4 && At(after, 0, LINE_END) && NUL !in h
    && FindText(h, LINE_END + LINE_END) == Some(|h| - 4)
    && FindText(h, CONTENT_LENGTH_FIELD) == Some(|before|)
  }

  lemma {:induction false} SkipGap(t: Bytes, gap: nat, i: nat)
    requires i <= gap <= |t| && (forall k :: i <= k < gap ==> HttpChunked.IsSpace(t[k]))
    requires gap < |t| ==> !HttpChunked.IsSpace(t[gap])
    ensures HttpChunked.SkipSpaces(t, i) == gap
    decreases gap - i
  {
    if i < gap { SkipGap(t, gap, i + 1); }
  }

  lemma {:induction false} DecimalShift(front: Bytes, digits: Bytes, i: nat, sum: nat)
    requires i <= |digits|
    ensures DecimalRun(front + digits, |front| + i, sum) == DecimalRun(digits, i, sum)
    decreases |digits| - i
  {
    if i < |digits| {
      assert (front + digits)[|front| + i] == digits[i];
      if IsDigit(digits[i]) { DecimalShift(front, digits, i + 1, sum * 10 + (digits[i] - DIGIT0)); }
    }
  }

  lemma AmountRead(a: Amount)
    requires Proper(a) && Decimal(a.digits) < 0x8000_0000
    ensures StringToInt(Text(a)) == Value(a)
  {
    hide DecimalRun;
    var t, g := Text(a), |a.gap|;
    assert forall k :: 0 <= k < g ==> t[k] == a.gap[k];
    assert IsDigit(a.digits[0]);
    assert t[g] == (a.sign + a.digits)[0] == if a.sign == [] then a.digits[0] else a.sign[0];
    SkipGap(t, g, 0);
    DecimalShift(a.gap + a.sign, a.digits, 0, 0);
    assert t == a.gap + a.sign + a.digits;
  }

  lemma TextIsPlain(a: Amount)
    requires Proper(a)
    ensures CR !in Text(a) && NUL !in Text(a) && Text(a) != []
  {
    var t := Text(a);
    forall i | 0 <= i < |t| ensures t[i] != CR && t[i] != NUL {
      if i < |a.gap| {
        assert t[i] == a.gap[i];
      } else if i < |a.gap| + |a.sign| {
        assert t[i] == a.sign[i - |a.gap|];
      } else {
        assert t[i] == a.digits[i - |a.gap| - |a.sign|] && IsDigit(a.digits[i - |a.gap| - |a.sign|]);
      }
    }
  }

  /** A header is found as soon as one more byte, no NUL, is there, and never otherwise. */
  lemma HeaderEndFound(h: Bytes, body: Bytes)
    requires |h| >= 4 && NUL !in h && FindText(h, LINE_END + LINE_END) == Some(|h| - 4)
    ensures var d := h + body;
            && Find(d, LINE_END + LINE_END, |d|) == (if body != [] && body[0] != NUL then Some(|h| - 4) else None)
            && d[..StrnLen(d, |h|)] == h
  {
    hide FindFrom;
    var d := h + body;
    var n := StrnLen(d, |d|);
    assert n >= |h| && StrnLen(d, |h|) == |h| && (n > |h| <==> body != [] && body[0] != NUL) by { TextEnds(h, body); }
    hide StrnLen;
    assert d[..n][..|h|] == h;
    SameFirst(d[..n], h);
  }

  lemma TextEnds(h: Bytes, body: Bytes)
    requires NUL !in h
    ensures var (d, n) := (h + body, StrnLen(h + body, |h + body|));
            n >= |h| && StrnLen(d, |h|) == |h| && (n > |h| <==> body != [] && body[0] != NUL)
  {
    var d := h + body;
    assert forall i :: 0 <= i < |h| ==> d[i] == h[i];
    StrnLenPrefix(d, |h|, |d|);
    StrnLenPrefix(d, |h|, |h|);
    if body != [] {
      assert d[|h|] == body[0];
      if body[0] != NUL { StrnLenPrefix(d, |h| + 1, |d|); }
    }
  }

  lemma SameFirst(text: Bytes, h: Bytes)
    requires 4 <= |h| <= |text| && text[..|h|] == h && FindText(h, LINE_END + LINE_END) == Some(|h| - 4)
    ensures FindText(text, LINE_END + LINE_END) == Some(|h| - 4)
  {
    hide FindFrom;
    var mark := LINE_END + LINE_END;
    assert text[|h| - 4..|h|] == h[|h| - 4..|h|];
    forall i | 0 <= i < |h| - 4 ensures !At(text, i, mark) {
      assert text[i..i + 4] == h[i..i + 4];
      assert !At(h, i, mark);
    }
    FirstFind(text, mark, |h| - 4);
  }

  /** The bytes of the field's line. */
  lemma LineBytes(text: Bytes)
    requires CR !in text && NUL !in text
    ensures var line := FieldLine(text);
            && |line| == 15 + |text| && line[14] == COLON && line[15..] == text
            && (forall i :: 0 <= i < 14 ==> line[i] == CONTENT_LENGTH_FIELD[i] && line[i] != COLON)
            && CR !in line && NUL !in line
  {
    var line := FieldLine(text);
    assert forall i :: 15 <= i < |line| ==> line[i] == text[i - 15];
  }

  lemma LineEndFound(line: Bytes, after: Bytes)
    requires CR !in line && At(after, 0, LINE_END)
    ensures FindText(line + after, LINE_END) == Some(|line|)
  {
    var d := line + after;
    assert d[|line|..|line| + 2] == after[0..2];
    forall i | 0 <= i < |line| ensures !At(d, i, LINE_END) {
      if At(d, i, LINE_END) { AtIndex(d, i, LINE_END, 0); }
    }
    FirstFind(d, LINE_END, |line|);
  }

  lemma ColonFound(d: Bytes, line: Bytes)
    requires |d| >= |line| > 15 && d[..|line|] == line && NUL !in line && line[14] == COLON
    requires forall i :: 0 <= i < 14 ==> line[i] != COLON
    ensures Find(d, [COLON], |line|) == Some(14)
  {
    assert forall i :: 0 <= i < |line| ==> d[i] == d[..|line|][i] == line[i];
    StrnLenPrefix(d, |line|, |line|);
    var text := d[..StrnLen(d, |line|)];
    assert text == line && text[14..15] == [COLON];
    forall i | 0 <= i < 14 ensures !At(text, i, [COLON]) {
      assert text[i..i + 1][0] == line[i];
    }
    FirstFind(text, [COLON], 14);
  }

  /** The field is read whatever stands around it; a text of more than 20 bytes is refused, and one of 20 fills
      the buffer it is copied to. */
  lemma LengthRead(before: Bytes, a: Amount, after: Bytes, body: Bytes)
    requires SizedParts(before, a, after)
    ensures var (h, n) := (SizedHeader(before, a, after), |Text(a)|);
            ContentLength(h + body, |h|) == if n > 20 then Malformed else if n == 20 then Unterminated else Length(Value(a))
  {
    hide DecimalRun, FindFrom, StringToInt, StrnLen, FieldLine, Proper, Text, Value;
    var h, line := SizedHeader(before, a, after), FieldLine(Text(a));
    var d, f := h + body, |before|;
    HeaderEndFound(h, body);
    TextIsPlain(a);
    LineBytes(Text(a));
    assert Find(d, CONTENT_LENGTH_FIELD, |h|) == Some(f);
    Slices(before, line, after, body);
    LineEndFound(line, after);
    ColonFound(d[f..], line);
    AmountRead(a);
  }

  lemma Slices(before: Bytes, line: Bytes, after: Bytes, body: Bytes)
    requires |line| >= 15
    ensures var (h, f) := (before + line + after, |before|);
            && (h + body)[f..|h|] == line + after
            && (h + body)[f..][..|line|] == line
            && (h + body)[f + 15..f + |line|] == line[15..]
  {
    var h, f := before + line + after, |before|;
    assert (h + body)[f..] == line + after + body;
    assert (h + body)[f + 15..f + |line|] == (h + body)[f..][15..|line|];
  }

  /** A message with a Content-Length field: nothing is taken before the announced number of bytes is
      there, and then exactly those. A body that begins with a NUL is never taken, and an announced size
      of 0 only once a further byte has come. A negative size throws, and so many blanks or digits that the
      text has 20 bytes leave it without its end. */
  lemma SizedMessage(before: Bytes, a: Amount, after: Bytes, body: Bytes)
    requires SizedParts(before, a, after) && |SizedHeader(before, a, after)| + Decimal(a.digits) < 0x8000_0000
    ensures var (h, n, size) := (SizedHeader(before, a, after), |Text(a)|, Value(a));
            Handle(h + body) ==
              if body == [] || body[0] == NUL || n > 20 then Incomplete
              else if n == 20 then OutsideBuffer
              else if size < 0 then Throws
              else if |body| < size then Incomplete
              else Complete(body[..size], |h| + size)
  {
    hide DecimalRun, Find, ContentLength, FindFrom, StrnLen, Text, Proper, FieldLine, Chunks, At;
    var h, size := SizedHeader(before, a, after), Value(a);
    var d := h + body;
    HeaderEndFound(h, body);
    LengthRead(before, a, after, body);
    if 0 <= size <= |body| { assert d[|h|..|h| + size] == body[..size]; }
  }

  // ---------------------------------------------------------------- chunk sizes in general

  lemma {:induction false} HexShift(front: Bytes, t: Bytes, i: nat, sum: nat)
    requires i <= |t|
    ensures HexRun(front + t, |front| + i, sum) == HexRun(t, i, sum)
    decreases |t| - i
  {
    if i < |t| {
      assert (front + t)[|front| + i] == t[i];
      if HexValueOf(t[i]).Some? { HexShift(front, t, i + 1, sum * 16 + HexValueOf(t[i]).value); }
    }
  }

  predicate White(t: Bytes) { forall i :: 0 <= i < |t| ==> t[i] == 32 || 9 <= t[i] <= 13 }

  /** A size as `strtol` reads it: white space, perhaps a sign, perhaps `0x`, hexadecimal digits, and anything
      that is none; the value is cut at the ends of a 64-bit `long`. */
  lemma LongIs(gap: Bytes, sign: Bytes, prefix: Bytes, digits: Bytes, more: Bytes)
    requires White(gap) && (sign == [] || sign == [43] || sign == [45]) && HexDigits(digits) && digits != []
    requires prefix == [] || prefix == [48, 120] || prefix == [48, 88]
    requires more != [] ==> HexValueOf(more[0]).None?
    requires prefix == [] && |digits| == 1 && digits[0] == 48 && |more| > 1 && more[0] in {120, 88} ==> HexValueOf(more[1]).None?
    ensures var n := HexRun(digits, 0, 0);
            StrToLong(gap + (sign + (prefix + (digits + more)))) ==
              if sign == [45] then (if n > 0x8000_0000_0000_0000 then -0x8000_0000_0000_0000 else 0 - n)
              else if n > 0x7FFF_FFFF_FFFF_FFFF then 0x7FFF_FFFF_FFFF_FFFF else n
  {
    hide HexRun, SkipSpaces, StrToLong;
    var number := digits + more;
    var rest := prefix + number;
    var t, g, j := gap + (sign + rest), |gap|, |gap| + |sign|;
    assert rest[0] == (if prefix == [] then digits[0] else 48);
    assert HexValueOf(digits[0]).Some?;
    SignAt(gap, sign, rest);
    MagnitudeIs(gap + sign, prefix, digits, more);
    assert t == (gap + sign) + rest;
    PrefixIs(gap + sign, prefix, digits, more);
    LongFrom(t, g, j, j + |prefix|);
  }

  predicate PrefixAt(t: Bytes, j: nat) {
    j + 2 < |t| && t[j] == 48 && (t[j + 1] == 120 || t[j + 1] == 88) && HexValueOf(t[j + 2]).Some?
  }

  lemma PrefixIs(front: Bytes, prefix: Bytes, digits: Bytes, more: Bytes)
    requires HexDigits(digits) && digits != [] && (prefix == [] || prefix == [48, 120] || prefix == [48, 88])
    requires more != [] ==> HexValueOf(more[0]).None?
    requires prefix == [] && |digits| == 1 && digits[0] == 48 && |more| > 1 && more[0] in {120, 88} ==> HexValueOf(more[1]).None?
    ensures PrefixAt(front + (prefix + (digits + more)), |front|) <==> prefix != []
  {
    var rest := prefix + (digits + more);
    var t := front + rest;
    assert forall k :: 0 <= k < |rest| ==> t[|front| + k] == rest[k];
    if prefix == [] {
      assert rest == digits + more;
      NoPrefix(digits, more);
    } else {
      assert rest[2] == digits[0] && HexValueOf(digits[0]).Some?;
    }
  }

  lemma LongFrom(t: Bytes, g: nat, j: nat, k: nat)
    requires g == SkipSpaces(t, 0) < |t| && j == (if t[g] == 45 || t[g] == 43 then g + 1 else g)
    requires k == (if PrefixAt(t, j) then j + 2 else j)
    ensures var n := HexRun(t, k, 0);
            StrToLong(t) ==
              if t[g] == 45 then (if n > 0x8000_0000_0000_0000 then -0x8000_0000_0000_0000 else 0 - n)
              else if n > 0x7FFF_FFFF_FFFF_FFFF then 0x7FFF_FFFF_FFFF_FFFF else n
  {
    hide HexRun, SkipSpaces;
  }

  lemma SignAt(gap: Bytes, sign: Bytes, rest: Bytes)
    requires White(gap) && (sign == [] || sign == [43] || sign == [45]) && rest != [] && !HttpChunked.IsSpace(rest[0])
    ensures var t, g := gap + (sign + rest), |gap|;
            SkipSpaces(t, 0) == g && t[g] == (if sign == [] then rest[0] else sign[0])
  {
    var t, g := gap + (sign + rest), |gap|;
    assert forall k :: 0 <= k < g ==> t[k] == gap[k];
    assert t[g] == (sign + rest)[0];
    SkipGap(t, g, 0);
  }

  lemma MagnitudeIs(front: Bytes, prefix: Bytes, digits: Bytes, more: Bytes)
    requires HexDigits(digits) && (more != [] ==> HexValueOf(more[0]).None?)
    ensures HexRun(front + (prefix + (digits + more)), |front| + |prefix|, 0) == HexRun(digits, 0, 0)
  {
    hide HexRun;
    HexShift(front + prefix, digits + more, 0, 0);
    assert front + (prefix + (digits + more)) == front + prefix + (digits + more);
    HexRunStops(digits, more, 0, 0);
  }

  lemma NoPrefix(digits: Bytes, more: Bytes)
    requires HexDigits(digits) && digits != [] && (more != [] ==> HexValueOf(more[0]).None?)
    requires |digits| == 1 && digits[0] == 48 && |more| > 1 && more[0] in {120, 88} ==> HexValueOf(more[1]).None?
    ensures var t := digits + more; !(|t| > 2 && t[0] == 48 && t[1] in {120, 88} && HexValueOf(t[2]).Some?)
  {
    var t := digits + more;
    if |digits| > 1 {
      assert t[1] == digits[1] && HexValueOf(digits[1]).Some?;
    } else if |more| > 1 {
      assert t[0] == digits[0] && t[1] == more[0] && t[2] == more[1];
    }
  }

  /** What one pass makes of a size line that is there in full: a size that goes beyond the data is refused
      when it is measured from the line, and read outside the buffer when it is measured from its data; a
      negative one throws; zero ends the body. */
  lemma PassIs(d: Bytes, p: nat, content: Bytes, line: Bytes)
    requires p + 4 + |line| <= |d| && d[p] == CR && CR !in line && d[p + 2..p + 2 + |line|] == line
    requires At(d, p + 2 + |line|, LINE_END)
    ensures var (size, e) := (ToInt32(StrToLong(line)), p + 4 + |line|);
            Chunks(d, p, content) ==
              if size > |d| - p then Refused
              else if size < 0 then Throws
              else if size > |d| - e then OutsideBuffer
              else if size == 0 then Complete(content, |d|)
              else Chunks(d, e + size, content + d[e..e + size])
  {
    hide StrToLong, FindSizeEnd;
    assert forall i :: p + 2 <= i < p + 2 + |line| ==> d[i] == d[p + 2..p + 2 + |line|][i - p - 2];
    SizeEndFound(d, p, p + 2 + |line|, 0);
    assert content + d[p + 4 + |line|..p + 4 + |line|] == content;
  }

  /** A pass that does not begin at a line end is refused. */
  lemma NoLineEndRefused(d: Bytes, p: nat, content: Bytes)
    requires p + 1 < |d| && d[p] != CR && d[p + 1] != LF
    ensures Chunks(d, p, content) == Refused
  {}

  // ---------------------------------------------------------------- spellings

  lemma SpellingsAre()
    ensures CONTENT_LENGTH_FIELD == Ascii("Content-Length")
    ensures LINE_END == [13, 10] && BODY_END == [13, 10, 48, 13, 10, 13, 10]
  {}
}
