/** Reassembly does not depend on how the stream is cut into reads, exactly when two guards hold;
    and frames written by `MakeTextData` come back. */
module WebSocketLaws {
  import opened Bytes
  import opened WebSocketFrames

  // ---------------------------------------------------------------- more bytes do not change a frame

  lemma FrameStable(d: Bytes, x: Bytes)
    requires FrameStep(d) != Wait
    ensures FrameStep(d + x) == FrameStep(d)
  {
    SizesStable(d, x);
    var z := FrameSizes(d).value;
    if ReadSize(z) >= 0 && ToInt32(z.payload) >= 0 {
      PayloadInside(z);
      ParseStable(d, x, z);
    }
  }

  lemma SizesStable(d: Bytes, x: Bytes)
    requires FrameSizes(d).Some?
    ensures FrameSizes(d + x) == FrameSizes(d)
  {
    var e := d + x;
    assert e[1] == d[1];
    if |d| >= 4 { assert e[2..4] == d[2..4]; }
    if |d| >= 10 { assert e[2..10] == d[2..10]; }
  }

  lemma ParseStable(d: Bytes, x: Bytes, z: Sizes)
    requires 2 <= |d| && 0 <= ReadSize(z) <= |d| && ToInt32(z.payload) >= 0 && z.header <= 10
    ensures ParseFrame(d + x, z) == ParseFrame(d, z)
  {
    hide Unmask, ReadSize;
    PayloadInside(z);
    var e, length := d + x, ToInt32(z.payload);
    assert e[0] == d[0];
    if z.masked {
      assert e[z.header + 4..z.header + 4 + length] == d[z.header + 4..z.header + 4 + length];
      assert e[z.header..z.header + 4] == d[z.header..z.header + 4];
    } else {
      assert e[z.header..z.header + length] == d[z.header..z.header + length];
    }
  }

  /** Only a frame whose second byte is zero has size 0. */
  lemma EmptyFrame(d: Bytes)
    requires FrameStep(d).Frame?
    ensures FrameStep(d).size == 0 <==> d[1] == 0
    ensures |d| >= 3
  {
    PayloadInside(FrameSizes(d).value);
  }

  // ---------------------------------------------------------------- the frame loop

  /** The stream holds an accepted frame of size 0 with at least one byte after the three that are
      needed to see it; each later read delivers it once more. */
  predicate Repeats(accept: Accept, delivered: seq<Message>, d: Bytes)
    decreases |d|
  {
    match FrameStep(d)
    case Frame(m, n) =>
      accept(delivered + [m]) && (if n == 0 then |d| >= 4 else Repeats(accept, delivered + [m], d[n..]))
    case _ => false
  }

  function Then(accept: Accept, r: Drained, d: Bytes, x: Bytes): Drained
    requires r.used <= |d|
  {
    if r.status != Open then r
    else
      var more := Drain(accept, r.delivered, d[r.used..] + x);
      more.(used := r.used + more.used)
  }

  /** Draining what has come and then the leftover with the rest is draining all at once. */
  lemma {:induction false} DrainMore(accept: Accept, delivered: seq<Message>, d: Bytes, x: Bytes)
    requires x != [] && !Repeats(accept, delivered, d + x)
    ensures Drain(accept, delivered, d + x) == Then(accept, Drain(accept, delivered, d), d, x)
    decreases |d|
  {
    hide FrameStep, Unmask;
    match FrameStep(d) {
      case Wait => assert d[0..] == d;
      case Frame(m, n) =>
        FrameStable(d, x);
        EmptyFrame(d);
        if accept(delivered + [m]) && n > 0 {
          assert (d + x)[n..] == d[n..] + x;
          assert !Repeats(accept, delivered + [m], d[n..] + x) by { DrainFrame(accept, delivered, d + x); }
          DrainMore(accept, delivered + [m], d[n..], x);
          DrainMoreFrame(accept, delivered, d, x, m, n);
        }
      case _ => FrameStable(d, x);
    }
  }

  /** The step of DrainMore over an accepted frame. */
  lemma DrainMoreFrame(accept: Accept, delivered: seq<Message>, d: Bytes, x: Bytes, m: Message, n: nat)
    requires FrameStep(d) == Frame(m, n) && FrameStep(d + x) == Frame(m, n) && 0 < n <= |d| && accept(delivered + [m])
    requires var next := delivered + [m];
             Drain(accept, next, d[n..] + x) == Then(accept, Drain(accept, next, d[n..]), d[n..], x)
    ensures Drain(accept, delivered, d + x) == Then(accept, Drain(accept, delivered, d), d, x)
  {
    hide FrameStep, Drain, Then;
    DrainFrame(accept, delivered, d);
    DrainFrame(accept, delivered, d + x);
    assert (d + x)[n..] == d[n..] + x;
    ThenShift(accept, Drain(accept, delivered + [m], d[n..]), d, n, x);
  }

  /** An accepted frame and what follows it. */
  lemma DrainFrame(accept: Accept, delivered: seq<Message>, d: Bytes)
    requires FrameStep(d).Frame? && FrameStep(d).size > 0 && accept(delivered + [FrameStep(d).message])
    ensures var Frame(m, n) := FrameStep(d);
            var r := Drain(accept, delivered + [m], d[n..]);
            && Drain(accept, delivered, d) == r.(used := n + r.used)
            && Repeats(accept, delivered, d) == Repeats(accept, delivered + [m], d[n..])
  {
    hide FrameStep;
  }

  lemma ThenShift(accept: Accept, r: Drained, d: Bytes, n: nat, x: Bytes)
    requires n <= |d| && r.used <= |d| - n
    ensures var t := Then(accept, r, d[n..], x);
            Then(accept, r.(used := n + r.used), d, x) == t.(used := n + t.used)
  {
    hide Drain;
    assert d[n..][r.used..] == d[n + r.used..];
  }

  lemma {:induction false} RepeatsLater(accept: Accept, delivered: seq<Message>, d: Bytes, x: Bytes)
    requires !Repeats(accept, delivered, d + x)
    ensures !Repeats(accept, delivered, d)
    decreases |d|
  {
    hide FrameStep;
    if FrameStep(d).Frame? {
      FrameStable(d, x);
      var Frame(m, n) := FrameStep(d);
      if n > 0 && accept(delivered + [m]) {
        assert (d + x)[n..] == d[n..] + x;
        RepeatsLater(accept, delivered + [m], d[n..], x);
      }
    }
  }

  /** What is left over never repeats either. */
  lemma {:induction false} RepeatsRest(accept: Accept, delivered: seq<Message>, d: Bytes, x: Bytes)
    requires x != [] && !Repeats(accept, delivered, d + x)
    ensures var r := Drain(accept, delivered, d);
            r.status == Open ==> !Repeats(accept, r.delivered, d[r.used..] + x)
    decreases |d|
  {
    hide FrameStep, Unmask;
    match FrameStep(d) {
      case Wait => assert d[0..] == d;
      case Frame(m, n) =>
        FrameStable(d, x);
        EmptyFrame(d);
        if accept(delivered + [m]) && n > 0 {
          assert (d + x)[n..] == d[n..] + x;
          RepeatsRest(accept, delivered + [m], d[n..], x);
          var r := Drain(accept, delivered + [m], d[n..]);
          assert d[n..][r.used..] == d[n + r.used..];
        }
      case _ =>
    }
  }

  // ---------------------------------------------------------------- finding the header

  lemma FindStable(d: Bytes, x: Bytes, pattern: Bytes, p: nat)
    requires p <= |d| && FindFrom(d, pattern, p).Some?
    ensures FindFrom(d + x, pattern, p) == FindFrom(d, pattern, p)
    decreases |d| - p
  {
    var q := FindFrom(d, pattern, p).value;
    assert (d + x)[q..q + |pattern|] == d[q..q + |pattern|];
    if p < q {
      assert (d + x)[p..p + |pattern|] == d[p..p + |pattern|];
      FindStable(d, x, pattern, p + 1);
    }
  }

  lemma ContainsMore(d: Bytes, x: Bytes, pattern: Bytes)
    requires Contains(d, pattern)
    ensures Contains(d + x, pattern)
  {
    FindStable(d, x, pattern, 0);
  }

  // ---------------------------------------------------------------- the whole connection

  /** The guard on the stream: the first header, if it ends at all, names the status itself or
      nothing in the stream does; and no empty frame repeats. */
  predicate SplitSafe(accept: Accept, s: Bytes) {
    match FindText(s, HTTP_HEADER_END_DELIMITER)
    case None => true
    case Some(h) =>
      if Contains(s[..h + 4], SWITCHING_PROTOCOLS) then !Repeats(accept, [], s[h + 4..])
      else !Contains(s, SWITCHING_PROTOCOLS)
  }

  /** What remains to be guarded once `c` is reached and `x` is still to come. */
  predicate SafeFrom(accept: Accept, c: Connection, x: Bytes) {
    c.status == Open && x != [] ==>
      if c.handshake then !Repeats(accept, c.delivered, c.rest + x)
      else c.delivered == [] && FindText(c.rest, HTTP_HEADER_END_DELIMITER).None? && SplitSafe(accept, c.rest + x)
  }

  lemma ReceiveTwice(accept: Accept, c: Connection, a: Bytes, b: Bytes)
    requires b != [] && SafeFrom(accept, c, a + b)
    ensures Receive(accept, Receive(accept, c, a), b) == Receive(accept, c, a + b)
    ensures SafeFrom(accept, Receive(accept, c, a), b)
  {
    hide FrameStep, FindText;
    if c.status == Open {
      var d := c.rest + a;
      assert c.rest + (a + b) == d + b;
      if c.handshake {
        FramesTwice(accept, c.delivered, d, b);
      } else {
        HandshakeTwice(accept, c, a, b);
      }
    }
  }

  lemma FramesTwice(accept: Accept, delivered: seq<Message>, d: Bytes, b: Bytes)
    requires b != [] && !Repeats(accept, delivered, d + b)
    ensures var c := AfterDrain(d, Drain(accept, delivered, d));
            Receive(accept, c, b) == AfterDrain(d + b, Drain(accept, delivered, d + b)) && SafeFrom(accept, c, b)
  {
    hide FrameStep, Drain, Repeats;
    DrainMore(accept, delivered, d, b);
    RepeatsRest(accept, delivered, d, b);
    var r := Drain(accept, delivered, d);
    if r.status == Open {
      var more := Drain(accept, r.delivered, d[r.used..] + b);
      assert (d[r.used..] + b)[more.used..] == (d + b)[r.used + more.used..];
    }
  }

  lemma HandshakeTwice(accept: Accept, c: Connection, a: Bytes, b: Bytes)
    requires c.status == Open && !c.handshake && b != [] && c.delivered == []
    requires SplitSafe(accept, c.rest + a + b)
    ensures Receive(accept, Receive(accept, c, a), b) == Receive(accept, c, a + b)
    ensures SafeFrom(accept, Receive(accept, c, a), b)
  {
    hide FrameStep, Drain, Repeats, FindFrom;
    var d := c.rest + a;
    assert c.rest + (a + b) == d + b;
    match FindText(d, HTTP_HEADER_END_DELIMITER) {
      case None =>
      case Some(h) =>
        FindStable(d, b, HTTP_HEADER_END_DELIMITER, 0);
        assert (d + b)[..h + 4] == d[..h + 4] && d[..h + 4] + d[h + 4..] == d;
        if Contains(d[..h + 4], SWITCHING_PROTOCOLS) {
          ContainsMore(d[..h + 4], d[h + 4..], SWITCHING_PROTOCOLS);
          ContainsMore(d, b, SWITCHING_PROTOCOLS);
          assert (d + b)[h + 4..] == d[h + 4..] + b;
          FramesTwice(accept, [], d[h + 4..], b);
        } else if Contains(d, SWITCHING_PROTOCOLS) {
          ContainsMore(d, b, SWITCHING_PROTOCOLS);
        }
    }
  }

  predicate NonEmpty(chunks: seq<Bytes>) { forall i :: 0 <= i < |chunks| ==> chunks[i] != [] }

  lemma {:induction false} FeedIsReceive(accept: Accept, c: Connection, chunks: seq<Bytes>)
    requires chunks != [] && NonEmpty(chunks) && SafeFrom(accept, c, Flatten(chunks))
    ensures Feed(accept, c, chunks) == Receive(accept, c, Flatten(chunks))
    decreases |chunks|
  {
    var first, others := chunks[0], chunks[1..];
    if others == [] {
      assert first + [] == first;
    } else {
      assert NonEmpty(others) && Flatten(others) != [] by { assert others[0] == chunks[1]; }
      ReceiveTwice(accept, c, first, Flatten(others));
      FeedIsReceive(accept, Receive(accept, c, first), others);
    }
  }

  /** Every split of `s` into reads ends as one read does. */
  ghost predicate SplitIndependent(accept: Accept, s: Bytes) {
    forall chunks: seq<Bytes> :: NonEmpty(chunks) && Flatten(chunks) == s ==>
      Feed(accept, START, chunks) == Feed(accept, START, [s])
  }

  /** Chunking independence, exactly: the payloads, their order, the handshake and closed state and
      the leftover are the same for every split if and only if the stream is `SplitSafe`. */
  lemma ChunkingIndependence(accept: Accept, s: Bytes)
    requires s != []
    ensures SplitIndependent(accept, s) <==> SplitSafe(accept, s)
  {
    hide SplitSafe;
    if SplitSafe(accept, s) {
      forall chunks | NonEmpty(chunks) && Flatten(chunks) == s
        ensures Feed(accept, START, chunks) == Feed(accept, START, [s])
      {
        SafeSplit(accept, s, chunks);
        SafeSplit(accept, s, [s]);
      }
    } else {
      UnsafeSplits(accept, s);
    }
  }

  lemma SafeSplit(accept: Accept, s: Bytes, chunks: seq<Bytes>)
    requires s != [] && SplitSafe(accept, s) && NonEmpty(chunks) && (Flatten(chunks) == s || chunks == [s])
    ensures Feed(accept, START, chunks) == Receive(accept, START, s)
  {
    hide SplitSafe, SafeFrom;
    SafeStart(accept, s);
    assert [s][1..] == [] && s + Flatten([]) == s;
    FeedIsReceive(accept, START, chunks);
  }

  lemma SafeStart(accept: Accept, s: Bytes)
    requires SplitSafe(accept, s)
    ensures SafeFrom(accept, START, s)
  {
    assert [] + s == s;
    assert FindText([], HTTP_HEADER_END_DELIMITER).None?;
  }

  // ---------------------------------------------------------------- unsafe streams

  /** Where a repeating stream stops: the last message is that of an empty frame still in front. */
  lemma {:induction false} RepeatingFront(accept: Accept, delivered: seq<Message>, d: Bytes)
    requires Repeats(accept, delivered, d)
    ensures var r := Drain(accept, delivered, d);
            r.status == Open && r == Drain(accept, delivered, d[..|d| - 1]) && r.used + 4 <= |d| &&
            FrameStep(d[r.used..]).Frame? && FrameStep(d[r.used..]).size == 0
    decreases |d|
  {
    hide FrameStep;
    var Frame(m, n) := FrameStep(d);
    var u := d[..|d| - 1];
    EmptyFrame(d);
    if n == 0 {
      EmptyFrameSoon(d);
      assert d[0..] == d;
    } else {
      RepeatingFront(accept, delivered + [m], d[n..]);
      var r := Drain(accept, delivered + [m], d[n..]);
      assert d[n..][r.used..] == d[n + r.used..];
      assert n + 4 <= |d|;
      assert u[n..] == d[n..][..|d[n..]| - 1];
      FrameWithoutLast(d);
    }
  }

  lemma EmptyFrameSoon(d: Bytes)
    requires FrameStep(d).Frame? && FrameStep(d).size == 0 && |d| >= 4
    ensures FrameStep(d[..|d| - 1]) == FrameStep(d)
  {
    EmptyFrame(d);
    var u := d[..|d| - 1];
    assert u[1] == d[1] && u[0] == d[0];
  }

  lemma FrameWithoutLast(d: Bytes)
    requires FrameStep(d).Frame? && 0 < FrameStep(d).size < |d| - 3
    ensures FrameStep(d[..|d| - 1]) == FrameStep(d)
  {
    var z := FrameSizes(d).value;
    PayloadInside(z);
    var u := d[..|d| - 1];
    assert u + d[|d| - 1..] == d;
    assert FrameSizes(u) == FrameSizes(d) by {
      assert u[1] == d[1];
      if |u| >= 4 { assert u[2..4] == d[2..4]; }
      if |u| >= 10 { assert u[2..10] == d[2..10]; }
    }
    ParseStable(u, d[|d| - 1..], z);
  }

  lemma UnsafeSplits(accept: Accept, s: Bytes)
    requires s != [] && !SplitSafe(accept, s)
    ensures !SplitIndependent(accept, s)
  {
    var h := FindText(s, HTTP_HEADER_END_DELIMITER).value;
    if Contains(s[..h + 4], SWITCHING_PROTOCOLS) {
      RepeatSplits(accept, s, h);
    } else {
      LateStatusSplits(accept, s, h);
    }
  }

  lemma TwoChunks(accept: Accept, s: Bytes, k: nat)
    requires 0 < k < |s|
    requires Receive(accept, Receive(accept, START, s[..k]), s[k..]) != Receive(accept, START, s)
    ensures !SplitIndependent(accept, s)
  {
    hide Receive;
    var chunks := [s[..k], s[k..]];
    var none: seq<Bytes> := [];
    assert chunks[1..] == [s[k..]] && chunks[1..][1..] == none && [s][1..] == none;
    assert Flatten([s[k..]]) == s[k..] + [];
    assert Flatten(chunks) == s;
    assert Feed(accept, START, [s]) == Receive(accept, START, s);
    assert chunks[1..][0] == s[k..] && |chunks[1..]| == 1;
    assert Feed(accept, START, chunks) == Feed(accept, Receive(accept, START, s[..k]), chunks[1..]);
    assert Feed(accept, Receive(accept, START, s[..k]), [s[k..]]) == Receive(accept, Receive(accept, START, s[..k]), s[k..]) by {
      assert [s[k..]][1..] == none;
    }
  }

  /** A status that stands only after the header: cut there, the handshake fails. */
  lemma LateStatusSplits(accept: Accept, s: Bytes, h: nat)
    requires FindText(s, HTTP_HEADER_END_DELIMITER) == Some(h)
    requires !Contains(s[..h + 4], SWITCHING_PROTOCOLS) && Contains(s, SWITCHING_PROTOCOLS)
    ensures !SplitIndependent(accept, s)
  {
    hide Drain, FindFrom;
    var k := h + 4;
    assert s[..|s|] == s;
    FindInPrefix(s, k);
    assert [] + s[..k] == s[..k] && [] + s == s;
    assert Receive(accept, START, s[..k]).status == Closed;
    assert Receive(accept, START, s).handshake;
    TwoChunks(accept, s, k);
  }

  lemma FindInPrefix(s: Bytes, k: nat)
    requires FindText(s, HTTP_HEADER_END_DELIMITER).Some?
    requires FindText(s, HTTP_HEADER_END_DELIMITER).value + 4 <= k <= |s|
    ensures FindText(s[..k], HTTP_HEADER_END_DELIMITER) == FindText(s, HTTP_HEADER_END_DELIMITER)
  {
    var h := FindText(s, HTTP_HEADER_END_DELIMITER).value;
    assert At(s[..k], h, HTTP_HEADER_END_DELIMITER) by { assert s[..k][h..h + 4] == s[h..h + 4]; }
    var r := FindText(s[..k], HTTP_HEADER_END_DELIMITER);
    assert r.Some?;
    assert s[..k] + s[k..] == s;
    FindStable(s[..k], s[k..], HTTP_HEADER_END_DELIMITER, 0);
  }

  lemma HandshakeInFront(s: Bytes, h: nat, k: nat)
    requires FindText(s, HTTP_HEADER_END_DELIMITER) == Some(h) && h + 4 <= k <= |s|
    requires Contains(s[..h + 4], SWITCHING_PROTOCOLS)
    ensures FindText(s[..k], HTTP_HEADER_END_DELIMITER) == Some(h) && Contains(s[..k], SWITCHING_PROTOCOLS)
  {
    hide FindText;
    FindInPrefix(s, k);
    assert s[..h + 4] + s[..k][h + 4..] == s[..k];
    ContainsMore(s[..h + 4], s[..k][h + 4..], SWITCHING_PROTOCOLS);
  }

  lemma FirstReceive(accept: Accept, d: Bytes, h: nat)
    requires FindText(d, HTTP_HEADER_END_DELIMITER) == Some(h) && Contains(d, SWITCHING_PROTOCOLS)
    ensures Receive(accept, START, d) == AfterDrain(d[h + 4..], Drain(accept, [], d[h + 4..]))
  {
    hide Drain, FindFrom;
    assert [] + d == d;
  }

  lemma NextReceive(accept: Accept, c: Connection, chunk: Bytes)
    requires c.status == Open && c.handshake
    ensures Receive(accept, c, chunk) == AfterDrain(c.rest + chunk, Drain(accept, c.delivered, c.rest + chunk))
  {
    hide Drain;
  }

  /** A repeating empty frame: with its last byte on its own it is delivered twice. */
  lemma RepeatSplits(accept: Accept, s: Bytes, h: nat)
    requires FindText(s, HTTP_HEADER_END_DELIMITER) == Some(h) && Contains(s[..h + 4], SWITCHING_PROTOCOLS)
    requires Repeats(accept, [], s[h + 4..])
    ensures !SplitIndependent(accept, s)
  {
    hide Drain, FindFrom, FrameStep, Repeats, Receive;
    var body, k := s[h + 4..], |s| - 1;
    RepeatingFront(accept, [], body);
    var r := Drain(accept, [], body);
    HandshakeInFront(s, h, k);
    HandshakeInFront(s, h, |s|);
    assert s[..|s|] == s;
    assert s[..k][h + 4..] == body[..|body| - 1];
    FirstReceive(accept, s[..k], h);
    FirstReceive(accept, s, h);
    var first := Receive(accept, START, s[..k]);
    assert first.rest + s[k..] == body[r.used..];
    DeliversAgain(accept, r.delivered, body[r.used..]);
    NextReceive(accept, first, s[k..]);
    assert |Receive(accept, first, s[k..]).delivered| == |r.delivered| + 1;
    assert Receive(accept, START, s).delivered == r.delivered;
    TwoChunks(accept, s, k);
  }

  lemma DeliversAgain(accept: Accept, delivered: seq<Message>, d: Bytes)
    requires FrameStep(d).Frame? && FrameStep(d).size == 0
    ensures |Drain(accept, delivered, d).delivered| == |delivered| + 1
  {}

  // ---------------------------------------------------------------- both patterns occur

  /** A status text after the header: read at once it is found, in two reads it is not. */
  lemma LateStatusExample(accept: Accept)
    ensures var s := HTTP_HEADER_END_DELIMITER + SWITCHING_PROTOCOLS;
            !SplitSafe(accept, s) && !SplitIndependent(accept, s)
  {
    hide SplitIndependent, Repeats;
    var s := HTTP_HEADER_END_DELIMITER + SWITCHING_PROTOCOLS;
    assert s[0..4] == HTTP_HEADER_END_DELIMITER && s[4..4 + |SWITCHING_PROTOCOLS|] == SWITCHING_PROTOCOLS;
    assert At(s, 0, HTTP_HEADER_END_DELIMITER) && At(s, 4, SWITCHING_PROTOCOLS);
    assert |s[..4]| < |SWITCHING_PROTOCOLS|;
    ChunkingIndependence(accept, s);
  }

  /** An empty text frame that is accepted, with two more bytes behind it: it is delivered once or twice. */
  lemma RepeatsExample(accept: Accept)
    requires accept([Message(TEXT_FRAME, [NUL])])
    ensures var s := SWITCHING_PROTOCOLS + HTTP_HEADER_END_DELIMITER + [TEXT_FRAME + 128, 0, 0, 0];
            !SplitSafe(accept, s) && !SplitIndependent(accept, s)
  {
    hide SplitIndependent, FindFrom;
    var frame: Bytes := [TEXT_FRAME + 128, 0, 0, 0];
    var n := |SWITCHING_PROTOCOLS|;
    var s := SWITCHING_PROTOCOLS + HTTP_HEADER_END_DELIMITER + frame;
    assert s[n..n + 4] == HTTP_HEADER_END_DELIMITER && s[n + 4..] == frame;
    assert FindText(s, HTTP_HEADER_END_DELIMITER) == Some(n) by { HeaderEndsAt(s, n); }
    assert At(s[..n + 4], 0, SWITCHING_PROTOCOLS) by { assert s[..n + 4][0..n] == SWITCHING_PROTOCOLS; }
    assert FrameStep(frame) == Frame(Message(TEXT_FRAME, [NUL]), 0) by { EmptyText(frame); }
    assert [] + [Message(TEXT_FRAME, [NUL])] == [Message(TEXT_FRAME, [NUL])];
    hide FrameStep;
    assert Repeats(accept, [], frame);
    ChunkingIndependence(accept, s);
  }

  lemma HeaderEndsAt(s: Bytes, n: nat)
    requires n + 4 <= |s| && s[n..n + 4] == HTTP_HEADER_END_DELIMITER && CR !in s[..n]
    ensures FindText(s, HTTP_HEADER_END_DELIMITER) == Some(n)
  {
    forall i | 0 <= i < n ensures !At(s, i, HTTP_HEADER_END_DELIMITER) {
      assert s[i] == s[..n][i] != CR;
      if At(s, i, HTTP_HEADER_END_DELIMITER) { AtIndex(s, i, HTTP_HEADER_END_DELIMITER, 0); }
    }
    assert At(s, n, HTTP_HEADER_END_DELIMITER);
  }

  lemma EmptyText(d: Bytes)
    requires |d| >= 3 && d[0] == TEXT_FRAME + 128 && d[1] == 0
    ensures FrameStep(d) == Frame(Message(TEXT_FRAME, [NUL]), 0)
  {
    assert d[0..0] + [NUL] == [NUL];
  }

  // ---------------------------------------------------------------- frames sent and received

  lemma {:induction false} BigEndianBack(n: nat, k: nat)
    requires n < Power256(k)
    ensures BigEndian(BigEndianBytes(n, k)) == n
  {
    if k > 0 {
      BigEndianBack(n / 256, k - 1);
      var d := BigEndianBytes(n, k);
      assert d[..k - 1] == BigEndianBytes(n / 256, k - 1);
    }
  }

  function Power256(k: nat): nat { if k == 0 then 1 else 256 * Power256(k - 1) }

  lemma Power256Values()
    ensures Power256(2) == 65536 && Power256(8) > 0x7FFF_FFFF
  {
    assert Power256(4) == 256 * Power256(3) == 65536 * Power256(2);
    assert Power256(8) == 256 * Power256(7) == 65536 * Power256(6) == 65536 * 256 * Power256(5);
  }

  /** The longest text whose frame size fits an `int`. */
  const MAX_TEXT: nat := 0x7FFF_FFFF - 10

  lemma TextFrameSizes(text: Bytes, more: Bytes)
    requires 126 <= |text| <= MAX_TEXT
    ensures FrameSizes(TextFrame(text) + more) == Some(Sizes(if |text| < 65536 then 4 else 10, |text|, false))
  {
    var d, n := TextFrame(text) + more, |text|;
    Power256Values();
    if n < 65536 {
      BigEndianBack(n, 2);
      assert d[2..4] == BigEndianBytes(n, 2);
    } else {
      BigEndianBack(n, 8);
      assert d[2..10] == BigEndianBytes(n, 8);
    }
  }

  /** A text frame is taken off the front of any stream, with a terminator added to its text. */
  lemma TextFrameReceived(text: Bytes, more: Bytes)
    requires 126 <= |text| <= MAX_TEXT
    ensures FrameStep(TextFrame(text) + more) == Frame(Message(TEXT_FRAME, text + [NUL]), |TextFrame(text)|)
  {
    hide FrameSizes, BigEndianBytes;
    TextFrameSizes(text, more);
    var d, z := TextFrame(text) + more, FrameSizes(TextFrame(text) + more).value;
    PayloadInside(z);
    assert d[0] == TEXT_FRAME + 128;
    assert d[z.header..z.header + |text|] == text;
    assert ReadSize(z) == |TextFrame(text)|;
  }

  function Frames(texts: seq<Bytes>): Bytes { if texts == [] then [] else TextFrame(texts[0]) + Frames(texts[1..]) }

  function Texts(texts: seq<Bytes>): seq<Message> {
    seq(|texts|, i requires 0 <= i < |texts| => Message(TEXT_FRAME, texts[i] + [NUL]))
  }

  /** Any list of texts from 126 bytes up: the concatenated frames are consumed to the last byte,
      and each text is delivered once, in order, with its terminator. */
  lemma {:induction false} FramesRoundTrip(accept: Accept, delivered: seq<Message>, texts: seq<Bytes>)
    requires forall i :: 0 <= i < |texts| ==> 126 <= |texts[i]| <= MAX_TEXT
    requires forall i :: 0 < i <= |texts| ==> accept(delivered + Texts(texts)[..i])
    ensures Drain(accept, delivered, Frames(texts)) == Drained(Open, delivered + Texts(texts), |Frames(texts)|)
    decreases |texts|
  {
    hide FrameStep, TextFrame;
    if texts == [] {
      assert FrameStep([]) == Wait by { NothingToRead(); }
      assert delivered + Texts(texts) == delivered;
    } else {
      var others, all := texts[1..], Texts(texts);
      var d := Frames(texts);
      TextFrameReceived(texts[0], Frames(others));
      var next := delivered + [all[0]];
      assert next == delivered + all[..1];
      assert all == [all[0]] + Texts(others);
      forall i | 0 < i <= |others| ensures accept(next + Texts(others)[..i]) {
        assert next + Texts(others)[..i] == delivered + all[..i + 1];
      }
      FramesRoundTrip(accept, next, others);
      assert next + Texts(others) == delivered + all;
      assert d[|TextFrame(texts[0])|..] == Frames(others);
      assert |TextFrame(texts[0])| > 0 by { FrameNotEmpty(texts[0]); }
    }
  }

  lemma NothingToRead()
    ensures FrameStep([]) == Wait
  {}

  lemma FrameNotEmpty(text: Bytes)
    ensures |TextFrame(text)| > 1
  {}

  /** A short text in front is delivered with the two header bytes before it, an empty one is not taken
      off the stream. */
  lemma ShortFirst(accept: Accept, delivered: seq<Message>, text: Bytes, more: Bytes)
    requires |text| < 126 && (text != [] ==> text[0] != TEXT_FRAME + 128)
    ensures var r, n := Drain(accept, delivered, TextFrame(text) + more), |delivered|;
            r.used == 0 || (|r.delivered| > n && r.delivered[n] != Message(TEXT_FRAME, text + [NUL]))
  {
    var d, n := TextFrame(text) + more, |text|;
    assert d[0] == TEXT_FRAME + 128 && d[1] == n;
    if n > 0 {
      var z := Sizes(0, n, false);
      assert FrameSizes(d) == Some(z);
      PayloadInside(z);
      assert FrameStep(d) == Frame(Message(TEXT_FRAME, d[0..n] + [NUL]), n);
      assert (d[0..n] + [NUL])[0] != (text + [NUL])[0];
      var next := delivered + [Message(TEXT_FRAME, d[0..n] + [NUL])];
      assert next[|delivered|] == Message(TEXT_FRAME, d[0..n] + [NUL]);
      hide FrameStep;
      assert next <= Drain(accept, delivered, d).delivered;
    } else if |d| >= 3 {
      EmptyText(d);
      hide FrameStep;
    }
  }

  /** A list of texts that do not begin with the byte 0x81, which no UTF-8 text does: they are delivered
      once each, in order, and every byte is consumed, if and only if none is shorter than 126 bytes. */
  lemma {:induction false} FramesRoundTripIff(accept: Accept, delivered: seq<Message>, texts: seq<Bytes>)
    requires forall i :: 0 <= i < |texts| ==> |texts[i]| <= MAX_TEXT && (texts[i] != [] ==> texts[i][0] != TEXT_FRAME + 128)
    requires forall i :: 0 < i <= |texts| ==> accept(delivered + Texts(texts)[..i])
    ensures Drain(accept, delivered, Frames(texts)) == Drained(Open, delivered + Texts(texts), |Frames(texts)|)
            <==> forall i :: 0 <= i < |texts| ==> |texts[i]| >= 126
    decreases |texts|
  {
    hide FrameStep, TextFrame;
    if forall i :: 0 <= i < |texts| ==> |texts[i]| >= 126 {
      FramesRoundTrip(accept, delivered, texts);
    } else {
      var all := Texts(texts);
      assert all[0] == Message(TEXT_FRAME, texts[0] + [NUL]);
      assert (delivered + all)[|delivered|] == all[0];
      FrameNotEmpty(texts[0]);
      if |texts[0]| < 126 {
        ShortFirst(accept, delivered, texts[0], Frames(texts[1..]));
      } else {
        var others, d := texts[1..], Frames(texts);
        TextFrameReceived(texts[0], Frames(others));
        var next := delivered + [all[0]];
        assert next == delivered + all[..1];
        assert all == [all[0]] + Texts(others);
        forall i | 0 < i <= |others| ensures accept(next + Texts(others)[..i]) {
          assert next + Texts(others)[..i] == delivered + all[..i + 1];
        }
        assert !forall i :: 0 <= i < |others| ==> |others[i]| >= 126 by {
          var i :| 0 <= i < |texts| && |texts[i]| < 126;
          assert others[i - 1] == texts[i];
        }
        FramesRoundTripIff(accept, next, others);
        assert d[|TextFrame(texts[0])|..] == Frames(others);
        assert next + Texts(others) == delivered + all;
      }
    }
  }

  /** One text is delivered and its frame consumed exactly when the text has 126 bytes or more:
      below that the receiver takes no header off. */
  lemma OneTextIff(accept: Accept, text: Bytes)
    requires |text| <= MAX_TEXT && forall log :: accept(log)
    ensures Drain(accept, [], TextFrame(text)) ==
              Drained(Open, [Message(TEXT_FRAME, text + [NUL])], |TextFrame(text)|)
            <==> |text| >= 126
  {
    if |text| >= 126 {
      var texts := [text];
      assert texts[1..] == [] && TextFrame(text) + Frames([]) == TextFrame(text);
      assert Frames(texts) == TextFrame(text);
      assert Texts(texts) == [Message(TEXT_FRAME, text + [NUL])];
      assert [] + Texts(texts) == Texts(texts);
      FramesRoundTrip(accept, [], texts);
    } else {
      ShortTextLeavesTwo(accept, text);
    }
  }

  lemma ShortTextLeavesTwo(accept: Accept, text: Bytes)
    requires |text| < 126 && forall log :: accept(log)
    ensures Drain(accept, [], TextFrame(text)).used + 2 == |TextFrame(text)|
  {
    var d, n := TextFrame(text), |text|;
    assert d[0] == TEXT_FRAME + 128 && d[1] == n && |d| == n + 2;
    if n > 0 {
      var z := Sizes(0, n, false);
      assert FrameSizes(d) == Some(z);
      PayloadInside(z);
      assert FrameStep(d).size == n;
      assert |d[n..]| == 2 && FrameStep(d[n..]) == Wait;
    }
  }
}
