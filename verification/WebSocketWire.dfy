/** Frames as a server may send them, byte by byte: every opcode, every form of the length, masked or not. */
module WebSocketWire {
  import opened Bytes
  import opened Bits
  import opened WebSocketFrames

  /** How the length is written: in seven bits, in two further bytes, or in eight. */
  datatype Form = Short | Two | Eight

  predicate Fits(form: Form, n: nat) {
    match form
    case Short => n < 126
    case Two => n < 65536
    case Eight => n < 0x8000_0000 - 14
  }

  /** The second byte and the length bytes, the highest first. */
  function LengthPart(form: Form, n: nat, masked: bool): Bytes
    requires Fits(form, n)
  {
    var mark := if masked then 128 else 0;
    match form
    case Short => [mark + n]
    case Two => [mark + 126, n / 256, n % 256]
    case Eight => [mark + 127, 0, 0, 0, 0, n / 16777216, n / 65536 % 256, n / 256 % 256, n % 256]
  }

  /** Byte by byte with the key, which repeats after four bytes. */
  function Masked(payload: Bytes, key: Bytes): (r: Bytes)
    requires |key| == 4
    ensures |r| == |payload|
  {
    seq(|payload|, i requires 0 <= i < |payload| => ((payload[i] as bv8) ^ (key[i % 4] as bv8)) as int)
  }

  /** A frame with the given first byte; without a mask the key is empty. */
  function Wire(first: byte, form: Form, key: Bytes, payload: Bytes): Bytes
    requires Fits(form, |payload|) && |key| in {0, 4}
  {
    [first] + LengthPart(form, |payload|, |key| == 4) + key + (if |key| == 4 then Masked(payload, key) else payload)
  }

  // ---------------------------------------------------------------- sizes

  lemma XorTwice(a: byte, b: byte)
    ensures 0 <= ((a as bv8) ^ (b as bv8)) as int < 256
    ensures Xor(((a as bv8) ^ (b as bv8)) as int, b) == a
  {
    hide Xor;
    BitsBack((a as bv8) ^ (b as bv8));
    BitsTwice(a as bv8, b as bv8);
    ByteBack(a);
    XorBits(((a as bv8) ^ (b as bv8)) as int, b, (a as bv8) ^ (b as bv8));
  }

  lemma XorBits(m: byte, b: byte, z: bv8)
    requires m as bv8 == z
    ensures Xor(m, b) == (z ^ (b as bv8)) as int
  {}

  lemma UnmaskBack(payload: Bytes, key: Bytes)
    requires |key| == 4
    ensures Unmask(Masked(payload, key), key) == payload
  {
    hide Xor;
    forall i | 0 <= i < |payload| ensures Unmask(Masked(payload, key), key)[i] == payload[i] {
      XorTwice(payload[i], key[i % 4]);
    }
  }

  lemma TwoBytes(a: byte, b: byte)
    ensures BigEndian([a, b]) == 256 * a + b
  {
    assert [a, b][..1] == [a] && [a][..0] == [];
    assert BigEndian([a]) == a;
  }

  lemma FourBytes(a: byte, b: byte, c: byte, d: byte)
    ensures BigEndian([0, 0, 0, 0, a, b, c, d]) == 16777216 * a + 65536 * b + 256 * c + d
  {
    TwoBytes(0, 0);
    assert [0, 0, 0][..2] == [0, 0] && [0, 0, 0, 0][..3] == [0, 0, 0];
    assert BigEndian([0, 0, 0]) == 0 && BigEndian([0, 0, 0, 0]) == 0;
    assert [0, 0, 0, 0, a][..4] == [0, 0, 0, 0];
    assert BigEndian([0, 0, 0, 0, a]) == a;
    assert [0, 0, 0, 0, a, b][..5] == [0, 0, 0, 0, a];
    assert BigEndian([0, 0, 0, 0, a, b]) == 256 * a + b;
    assert [0, 0, 0, 0, a, b, c][..6] == [0, 0, 0, 0, a, b];
    assert [0, 0, 0, 0, a, b, c, d][..7] == [0, 0, 0, 0, a, b, c];
  }

  /** What the client takes for the header's size: none at all where the length has seven bits. */
  function HeaderSize(form: Form): nat { match form case Short => 0 case Two => 4 case Eight => 10 }

  /** The bytes of the frame that its last byte lies behind the place where the client stops: the two bytes
      in front of a short payload. */
  function Unread(form: Form): nat { if form.Short? then 2 else 0 }

  lemma WireSizes(first: byte, form: Form, key: Bytes, payload: Bytes, more: Bytes)
    requires Fits(form, |payload|) && |key| in {0, 4} && |Wire(first, form, key, payload) + more| >= 3
    ensures FrameSizes(Wire(first, form, key, payload) + more) == Some(Sizes(HeaderSize(form), |payload|, |key| == 4))
    ensures var w := Wire(first, form, key, payload);
            |w| == HeaderSize(form) + Unread(form) + |key| + |payload| && w[0] == first
  {
    hide BigEndian, Masked, FrameSizes;
    var d, n := Wire(first, form, key, payload) + more, |payload|;
    var rest := key + (if |key| == 4 then Masked(payload, key) else payload) + more;
    assert d == [first] + LengthPart(form, n, |key| == 4) + rest;
    HeadSizes(d, first, form, n, |key| == 4, rest);
  }

  lemma HeadSizes(d: Bytes, first: byte, form: Form, n: nat, masked: bool, rest: Bytes)
    requires Fits(form, n) && d == [first] + LengthPart(form, n, masked) + rest && |d| >= 3
    ensures FrameSizes(d) == Some(Sizes(HeaderSize(form), n, masked))
  {
    hide BigEndian;
    var mark := if masked then 128 else 0;
    match form {
      case Short => assert d[1] == mark + n;
      case Two =>
        assert d == [first, mark + 126] + [n / 256, n % 256] + rest;
        assert d[2..4] == [n / 256, n % 256];
        TwoBytes(n / 256, n % 256);
      case Eight =>
        assert d == [first, mark + 127] + [0, 0, 0, 0, n / 16777216, n / 65536 % 256, n / 256 % 256, n % 256] + rest;
        assert d[2..10] == [0, 0, 0, 0, n / 16777216, n / 65536 % 256, n / 256 % 256, n % 256];
        FourBytes(n / 16777216, n / 65536 % 256, n / 256 % 256, n % 256);
        Base256(n);
    }
  }

  lemma Base256(n: nat)
    ensures 16777216 * (n / 16777216) + 65536 * (n / 65536 % 256) + 256 * (n / 256 % 256) + n % 256 == n
  {
    assert n / 256 / 256 == n / 65536 && n / 65536 / 256 == n / 16777216;
  }

  lemma SizeRead(z: Sizes)
    requires z.header <= 10 && z.payload < 0x8000_0000 - 14
    ensures ReadSize(z) == z.header + (if z.masked then 4 else 0) + z.payload && ToInt32(z.payload) == z.payload
  {}

  // ---------------------------------------------------------------- close frames

  predicate IsFinalClose(first: byte) { first >= 128 && first % 16 == 8 }

  /** A final close frame ends the session, whatever its length, mask and payload, and whatever follows;
      nothing of it is delivered. One of two bytes is waited on until a third byte is there. */
  lemma CloseEnds(accept: Accept, delivered: seq<Message>, first: byte, form: Form, key: Bytes, payload: Bytes, more: Bytes)
    requires IsFinalClose(first) && Fits(form, |payload|) && |key| in {0, 4}
    ensures var d := Wire(first, form, key, payload) + more;
            Drain(accept, delivered, d) == Drained(if |d| < 3 then Open else Closed, delivered, 0)
  {
    hide FrameSizes, Wire, BigEndian;
    var d := Wire(first, form, key, payload) + more;
    if |d| >= 3 {
      WireSizes(first, form, key, payload, more);
      SizeRead(FrameSizes(d).value);
      assert FrameStep(d) == CloseRequest;
    } else {
      assert FrameSizes(d) == None by { TooFew(d); }
    }
  }

  lemma TooFew(d: Bytes)
    requires |d| < 3
    ensures FrameSizes(d) == None
  {}

  // ---------------------------------------------------------------- all other frames

  /** What the client takes for the payload: for a length in seven bits it starts at the first byte of the
      frame, and with a mask takes the first four bytes of the frame for the key. */
  function Taken(first: byte, form: Form, key: Bytes, payload: Bytes): Bytes
    requires Fits(form, |payload|) && |key| in {0, 4}
  {
    var w := Wire(first, form, key, payload);
    if !form.Short? then payload
    else if |key| == 4 then Masked(w[4..4 + |payload|], w[..4])
    else w[..|payload|]
  }

  /** Every frame but a final close is delivered once, with its opcode and with its payload, a text with a
      zero byte behind it. */
  lemma FrameDelivered(first: byte, form: Form, key: Bytes, payload: Bytes, more: Bytes)
    requires !IsFinalClose(first) && Fits(form, |payload|) && |key| in {0, 4} && |Wire(first, form, key, payload) + more| >= 3
    ensures var w := Wire(first, form, key, payload);
            FrameStep(w + more) ==
              Frame(Message(first % 16, Taken(first, form, key, payload) + (if first % 16 == 1 then [0] else [])),
                    |w| - Unread(form))
  {
    hide FrameSizes, Wire, BigEndian, Unmask, Masked, ReadSize, ToInt32;
    var w := Wire(first, form, key, payload);
    var d, n := w + more, |payload|;
    WireSizes(first, form, key, payload, more);
    var z := FrameSizes(d).value;
    SizeRead(z);
    assert d[0] == first;
    PayloadTaken(first, form, key, payload, more);
    var taken := Taken(first, form, key, payload);
    assert taken + [] == taken;
  }

  lemma PayloadTaken(first: byte, form: Form, key: Bytes, payload: Bytes, more: Bytes)
    requires Fits(form, |payload|) && |key| in {0, 4} && |Wire(first, form, key, payload) + more| >= 3
    ensures var (d, h, n) := (Wire(first, form, key, payload) + more, HeaderSize(form), |payload|);
            && h + |key| + n <= |d|
            && Taken(first, form, key, payload) ==
                 if |key| == 4 then Unmask(d[h + 4..h + 4 + n], d[h..h + 4]) else d[h..h + n]
  {
    hide BigEndian, Unmask, Masked;
    WireSizes(first, form, key, payload, more);
    var w := Wire(first, form, key, payload);
    var d, h, n := w + more, HeaderSize(form), |payload|;
    if form.Short? {
      if |key| == 4 {
        assert d[0..4] == w[..4];
        assert d[4..4 + n] == w[4..4 + n];
        MaskIsUnmask(w[4..4 + n], w[..4]);
      } else {
        assert d[0..n] == w[..n];
      }
    } else if |key| == 4 {
      assert d[h..h + 4] == key && d[h + 4..h + 4 + n] == Masked(payload, key);
      UnmaskBack(payload, key);
    } else {
      assert d[h..h + n] == payload;
    }
  }

  lemma MaskIsUnmask(payload: Bytes, key: Bytes)
    requires |key| == 4
    ensures Unmask(payload, key) == Masked(payload, key)
  {}

  /** In a stream: an accepted frame is delivered and what follows it is drained next; a refused one closes
      the session. A frame that ends with the two unread bytes leaves them in front of what follows. */
  lemma FrameDrains(accept: Accept, delivered: seq<Message>, first: byte, form: Form, key: Bytes, payload: Bytes, more: Bytes)
    requires !IsFinalClose(first) && Fits(form, |payload|) && |key| in {0, 4} && |Wire(first, form, key, payload) + more| >= 3
    requires |Wire(first, form, key, payload)| > Unread(form)
    ensures var (w, text) := (Wire(first, form, key, payload), Taken(first, form, key, payload));
            var all := delivered + [Message(first % 16, if first % 16 == 1 then text + [0] else text)];
            var left := w[|w| - Unread(form)..] + more;
            Drain(accept, delivered, w + more) ==
              if !accept(all) then Drained(Closed, all, 0)
              else var r := Drain(accept, all, left); r.(used := |w| - Unread(form) + r.used)
  {
    hide FrameSizes, Wire, BigEndian, Masked, FrameStep;
    var w, text := Wire(first, form, key, payload), Taken(first, form, key, payload);
    FrameDelivered(first, form, key, payload, more);
    assert text + [] == text;
    assert (w + more)[|w| - Unread(form)..] == w[|w| - Unread(form)..] + more;
  }

  datatype Sent = Sent(first: byte, form: Form, key: Bytes, payload: Bytes)

  predicate Whole(f: Sent) { !IsFinalClose(f.first) && !f.form.Short? && Fits(f.form, |f.payload|) && |f.key| in {0, 4} }

  predicate AllWhole(fs: seq<Sent>) { forall i :: 0 <= i < |fs| ==> Whole(fs[i]) }

  function Stream(fs: seq<Sent>): Bytes
    requires AllWhole(fs)
  {
    if fs == [] then [] else WireOf(fs[0]) + Stream(fs[1..])
  }

  function MessageOf(f: Sent): Message {
    Message(f.first % 16, if f.first % 16 == 1 then f.payload + [0] else f.payload)
  }

  function Messages(fs: seq<Sent>): seq<Message> {
    seq(|fs|, i requires 0 <= i < |fs| => MessageOf(fs[i]))
  }

  /** A list of frames with lengths in two or eight bytes, masked or not, is delivered frame by frame. */
  lemma {:induction false} StreamDrains(accept: Accept, delivered: seq<Message>, fs: seq<Sent>, more: Bytes)
    requires AllWhole(fs) && forall i :: 0 < i <= |fs| ==> accept(delivered + Messages(fs)[..i])
    ensures var r := Drain(accept, delivered + Messages(fs), more);
            Drain(accept, delivered, Stream(fs) + more) == r.(used := |Stream(fs)| + r.used)
    decreases |fs|
  {
    hide Drain, Wire, FrameStep, Whole;
    if fs == [] {
      assert delivered + Messages(fs) == delivered && [] + more == more;
    } else {
      var others, m := fs[1..], MessageOf(fs[0]);
      SentOnce(delivered, fs);
      assert forall i :: 0 < i <= |others| ==> accept(delivered + [m] + Messages(others)[..i]);
      OneDrains(accept, delivered, fs[0], Stream(others) + more);
      StreamDrains(accept, delivered + [m], others, more);
      assert Stream(fs) + more == WireOf(fs[0]) + (Stream(others) + more);
    }
  }

  lemma SentOnce(delivered: seq<Message>, fs: seq<Sent>)
    requires fs != [] && AllWhole(fs)
    ensures Whole(fs[0]) && AllWhole(fs[1..])
    ensures delivered + [MessageOf(fs[0])] == delivered + Messages(fs)[..1]
    ensures delivered + [MessageOf(fs[0])] + Messages(fs[1..]) == delivered + Messages(fs)
    ensures forall i :: 0 < i <= |fs[1..]| ==> delivered + [MessageOf(fs[0])] + Messages(fs[1..])[..i] == delivered + Messages(fs)[..i + 1]
  {
    hide Whole, MessageOf;
    assert forall i :: 0 <= i < |fs[1..]| ==> fs[1..][i] == fs[i + 1];
    assert Messages(fs) == [MessageOf(fs[0])] + Messages(fs[1..]);
  }

  function WireOf(f: Sent): Bytes
    requires Whole(f)
  {
    Wire(f.first, f.form, f.key, f.payload)
  }

  lemma OneDrains(accept: Accept, delivered: seq<Message>, f: Sent, more: Bytes)
    requires Whole(f)
    requires accept(delivered + [MessageOf(f)])
    ensures var r := Drain(accept, delivered + [MessageOf(f)], more);
            Drain(accept, delivered, WireOf(f) + more) == r.(used := |WireOf(f)| + r.used)
  {
    hide Drain, Wire;
    WireLong(f);
    FrameDrains(accept, delivered, f.first, f.form, f.key, f.payload, more);
    assert WireOf(f)[|WireOf(f)| - 0..] + more == more;
  }

  lemma WireLong(f: Sent)
    requires Whole(f)
    ensures |WireOf(f)| >= 4
  {}

  /** And the first final close frame ends the session, whatever stands behind it. */
  lemma CloseAfterFrames(accept: Accept, fs: seq<Sent>, close: Sent, more: Bytes)
    requires AllWhole(fs) && forall i :: 0 < i <= |fs| ==> accept(Messages(fs)[..i])
    requires IsFinalClose(close.first) && Fits(close.form, |close.payload|) && |close.key| in {0, 4}
    requires |Wire(close.first, close.form, close.key, close.payload) + more| >= 3
    ensures var w := Wire(close.first, close.form, close.key, close.payload);
            var r := Drain(accept, [], Stream(fs) + (w + more));
            r.status == Closed && r.delivered == Messages(fs)
  {
    hide Drain, Wire;
    assert [] + Messages(fs) == Messages(fs);
    assert forall i :: 0 < i <= |fs| ==> [] + Messages(fs)[..i] == Messages(fs)[..i];
    var w := Wire(close.first, close.form, close.key, close.payload);
    StreamDrains(accept, [], fs, w + more);
    CloseEnds(accept, Messages(fs), close.first, close.form, close.key, close.payload, more);
  }

  /** For the connection: it closes with nothing more delivered, and ignores all later reads. */
  lemma CloseEndsConnection(accept: Accept, c: Connection, close: Sent, more: Bytes, later: seq<Bytes>)
    requires c.status == Open && c.handshake && c.rest == []
    requires IsFinalClose(close.first) && Fits(close.form, |close.payload|) && |close.key| in {0, 4}
    requires |Wire(close.first, close.form, close.key, close.payload) + more| >= 3
    ensures var w := Wire(close.first, close.form, close.key, close.payload);
            Feed(accept, Receive(accept, c, w + more), later) == Connection(Closed, true, c.delivered, [])
  {
    hide Drain, Wire;
    var w := Wire(close.first, close.form, close.key, close.payload);
    assert [] + (w + more) == w + more;
    CloseEnds(accept, c.delivered, close.first, close.form, close.key, close.payload, more);
    ClosedStays(accept, Receive(accept, c, w + more), later);
  }

  lemma {:induction false} ClosedStays(accept: Accept, c: Connection, later: seq<Bytes>)
    requires c.status == Closed
    ensures Feed(accept, c, later) == c
    decreases |later|
  {
    if later != [] { ClosedStays(accept, c, later[1..]); }
  }

  /** The frame `88 02 03 E8`, a close with status 1000. */
  lemma CloseExample(accept: Accept)
    ensures Drain(accept, [], [0x88, 0x02, 0x03, 0xE8]) == Drained(Closed, [], 0)
  {
    CloseEnds(accept, [], 0x88, Short, [], [0x03, 0xE8], []);
    assert Wire(0x88, Short, [], [0x03, 0xE8]) + [] == [0x88, 0x02, 0x03, 0xE8];
  }

  // ---------------------------------------------------------------- the handshake

  /** The answer to the handshake, by its spelling. */
  lemma StatusLineIs()
    ensures SWITCHING_PROTOCOLS == Ascii("HTTP/1.1 101 Switching Protocols")
    ensures HTTP_HEADER_END_DELIMITER == [13, 10, 13, 10]
  {}

  /** The first read of a session: up to an empty line nothing happens; a header without the status closes the
      session; one with it opens it, and what stands behind is drained. */
  lemma HandshakeIs(accept: Accept, d: Bytes)
    ensures var c := Receive(accept, START, d);
            match FindText(d, [13, 10, 13, 10])
            case None => c == Connection(Open, false, [], d)
            case Some(h) =>
              if !Contains(d, Ascii("HTTP/1.1 101 Switching Protocols")) then c == Connection(Closed, false, [], [])
              else c.handshake && c == AfterDrain(d[h + 4..], Drain(accept, [], d[h + 4..]))
  {
    hide Drain, FindFrom;
    StatusLineIs();
    assert [] + d == d;
  }
}
