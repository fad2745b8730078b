/** What the WebSocket client makes of a byte stream: handshake, frames, and the leftover carried
    from one read to the next. */
module WebSocketFrames {
  import opened Bytes

  const WEBSOCKET_MIN_SIZE: nat := 3
  const WEBSOCKET_MASKING_SIZE: nat := 4
  const TEXT_FRAME: byte := 0x1
  const CLOSE_FRAME: byte := 0x8
  const MAX_INT: nat := 0x7FFF_FFFF

  /** CR LF CR LF */
  const HTTP_HEADER_END_DELIMITER: Bytes := [CR, LF, CR, LF]

  /** `HTTP/1.1 101 Switching Protocols` */
  const SWITCHING_PROTOCOLS: Bytes := [
    0x48, 0x54, 0x54, 0x50, 0x2F, 0x31, 0x2E, 0x31, 0x20, 0x31, 0x30, 0x31, 0x20, 0x53, 0x77, 0x69,
    0x74, 0x63, 0x68, 0x69, 0x6E, 0x67, 0x20, 0x50, 0x72, 0x6F, 0x74, 0x6F, 0x63, 0x6F, 0x6C, 0x73]

  /** One call of `OnRecvWebsocketData`. */
  datatype Message = Message(opcode: byte, payload: Bytes)

  /** What the application answers to the newest of all messages so far. */
  type Accept = seq<Message> -> bool

  // ---------------------------------------------------------------- one frame

  /** Header size, payload length and mask flag. The header size stays 0 for lengths below 126, as
      in the source; section 5.2 of RFC 6455 has two bytes there. */
  datatype Sizes = Sizes(header: nat, payload: nat, masked: bool)

  function BigEndian(d: Bytes): nat { if d == [] then 0 else BigEndian(d[..|d| - 1]) * 256 + d[|d| - 1] }

  /** None until the length bytes are there. */
  function FrameSizes(d: Bytes): Option<Sizes> {
    if |d| < WEBSOCKET_MIN_SIZE then None
    else
      var length, masked := d[1] % 128, d[1] >= 128;
      if (length == 126 && |d| < 4) || (length == 127 && |d| < 10) then None
      else if length == 126 then Some(Sizes(4, BigEndian(d[2..4]), masked))
      else if length == 127 then Some(Sizes(10, BigEndian(d[2..10]), masked))
      else Some(Sizes(0, length, masked))
  }

  /** `read_size`: a 64-bit sum cut to an `int`. */
  function ReadSize(z: Sizes): int {
    ToInt32(ToUInt64(z.header + (if z.masked then WEBSOCKET_MASKING_SIZE else 0) + z.payload))
  }

  function Xor(a: byte, b: byte): byte { (a as bv8 ^ b as bv8) as int }

  function Unmask(payload: Bytes, key: Bytes): (r: Bytes)
    requires |key| == 4
    ensures |r| == |payload|
  {
    seq(|payload|, i requires 0 <= i < |payload| => Xor(payload[i], key[i % 4]))
  }

  /** `Crash` is a negative length handed to `vector::insert`. */
  datatype Step = Wait | Crash | CloseRequest | Frame(message: Message, size: nat)

  /** A close frame with the fin bit, which is refused before its length matters. */
  predicate FinalClose(d: Bytes)
    requires d != []
  {
    d[0] >= 128 && d[0] % 16 == CLOSE_FRAME
  }

  /** `RecvDataProc` without its callback. */
  function FrameStep(d: Bytes): (r: Step)
    ensures r.Frame? ==> r.size <= |d|
  {
    match FrameSizes(d)
    case None => Wait
    case Some(z) =>
      if |d| < ReadSize(z) then Wait
      else if FinalClose(d) then CloseRequest
      else if ReadSize(z) < 0 || ToInt32(z.payload) < 0 then Crash
      else ParseFrame(d, z)
  }

  function ParseFrame(d: Bytes, z: Sizes): (r: Step)
    requires 2 <= |d| && 0 <= ReadSize(z) <= |d| && ToInt32(z.payload) >= 0
    requires z.header <= 10
    ensures r.Frame? && r.size == ReadSize(z)
  {
    PayloadInside(z);
    var opcode, length := d[0] % 16, ToInt32(z.payload);
    var payload :=
      if z.masked then Unmask(d[z.header + 4..z.header + 4 + length], d[z.header..z.header + 4])
      else d[z.header..z.header + length];
    Frame(Message(opcode, if opcode == TEXT_FRAME then payload + [NUL] else payload), ReadSize(z))
  }

  /** When neither 32-bit number is negative, they belong to the same frame. */
  lemma PayloadInside(z: Sizes)
    requires ReadSize(z) >= 0 && ToInt32(z.payload) >= 0 && z.header <= 10
    ensures ReadSize(z) == z.header + (if z.masked then 4 else 0) + ToInt32(z.payload)
  {
    hide ToInt32, ToUInt64;
    var total := z.header + (if z.masked then 4 else 0) + z.payload;
    var i := UInt64Multiple(total);
    var j := Int32Multiple(ToUInt64(total));
    var k := Int32Multiple(z.payload);
    assert ReadSize(z) - (total - z.payload + ToInt32(z.payload)) == 0x1_0000_0000 * (k - j - 0x1_0000_0000 * i);
  }

  // ---------------------------------------------------------------- a run of frames

  datatype Status = Open | Closed | Crashed

  datatype Drained = Drained(status: Status, delivered: seq<Message>, used: nat)

  /** The frame loop of `RecvHandler`. A frame of size 0 is delivered and stops the loop as if more
      bytes were needed. */
  function Drain(accept: Accept, delivered: seq<Message>, d: Bytes): (r: Drained)
    ensures r.used <= |d|
    ensures delivered <= r.delivered
    decreases |d|
  {
    match FrameStep(d)
    case Wait => Drained(Open, delivered, 0)
    case Crash => Drained(Crashed, delivered, 0)
    case CloseRequest => Drained(Closed, delivered, 0)
    case Frame(m, n) =>
      if !accept(delivered + [m]) then Drained(Closed, delivered + [m], 0)
      else if n == 0 then Drained(Open, delivered + [m], 0)
      else
        var r := Drain(accept, delivered + [m], d[n..]);
        r.(used := n + r.used)
  }

  // ---------------------------------------------------------------- the connection

  /** The session between two reads: `rest` is `_rest_data`. */
  datatype Connection = Connection(status: Status, handshake: bool, delivered: seq<Message>, rest: Bytes)

  const START := Connection(Open, false, [], [])

  function AfterDrain(d: Bytes, r: Drained): Connection
    requires r.used <= |d|
  {
    Connection(r.status, true, r.delivered, if r.status == Open then d[r.used..] else [])
  }

  /** `OnReceive` with `RecvHandler`, for one successful read. A closed session ignores it. */
  function Receive(accept: Accept, c: Connection, chunk: Bytes): Connection {
    if c.status != Open then c
    else
      var d := c.rest + chunk;
      if c.handshake then AfterDrain(d, Drain(accept, c.delivered, d))
      else
        match FindText(d, HTTP_HEADER_END_DELIMITER)
        case None => c.(rest := d)
        case Some(h) =>
          if !Contains(d, SWITCHING_PROTOCOLS) then Connection(Closed, false, c.delivered, [])
          else
            var body := d[h + 4..];
            AfterDrain(body, Drain(accept, c.delivered, body))
  }

  function Feed(accept: Accept, c: Connection, chunks: seq<Bytes>): Connection
    decreases |chunks|
  {
    if chunks == [] then c else Feed(accept, Receive(accept, c, chunks[0]), chunks[1..])
  }

  // ---------------------------------------------------------------- sending

  /** `MakeTextData`: fin and text, then the length in one of its three forms. */
  function TextFrame(text: Bytes): Bytes {
    [TEXT_FRAME + 128] + LengthBytes(|text|) + text
  }

  function LengthBytes(n: nat): Bytes {
    if n < 126 then [n]
    else if n < 65536 then [126] + BigEndianBytes(n, 2)
    else [127] + BigEndianBytes(n, 8)
  }

  /** The low `k` bytes of `n`, the highest first. */
  function BigEndianBytes(n: nat, k: nat): (d: Bytes)
    ensures |d| == k
  {
    if k == 0 then [] else BigEndianBytes(n / 256, k - 1) + [n % 256]
  }
}
