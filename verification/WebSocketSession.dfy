/** `TcpNetworkObject::OnReceive` with `WebSocketRequestObject`'s handlers, as they change the
    session's fields, proved to compute `WebSocketFrames.Receive`. */
module WebSocketSession {
  import opened Bytes
  import opened WebSocketFrames

  /** What a handler returns: how much it processed, a negative result, or undefined behaviour. */
  datatype Handled = Processed(size: nat) | Failed | Undefined

  class Session {
    const accept: Accept
    var isClosing: bool
    var crashed: bool
    var handshakeComplete: bool
    var restData: Bytes
    var recvTraffic: nat
    /** Every call of `OnRecvWebsocketData`, in order. */
    var delivered: seq<Message>
    ghost var received: nat

    constructor (accept: Accept)
      ensures Valid() && View() == START && this.accept == accept && received == 0
    {
      this.accept := accept;
      isClosing, crashed, handshakeComplete, restData, recvTraffic := false, false, false, [], 0;
      delivered, received := [], 0;
    }

    function View(): Connection
      reads this
    {
      Connection(if crashed then Crashed else if isClosing then Closed else Open,
                 handshakeComplete, delivered, restData)
    }

    /** While the session is open, every byte received is processed or left over. */
    ghost predicate Valid()
      reads this
    {
      View().status == Open ==> recvTraffic == (received - |restData|) * 8
    }

    /** A successful read of `chunk`. */
    method OnReceive(chunk: Bytes)
      requires Valid() && chunk != []
      modifies this
      ensures Valid() && View() == Receive(accept, old(View()), chunk)
      ensures received == old(received) + |chunk|
    {
      hide Receive, Drain, FrameStep, FindFrom, AfterDrain;
      received := received + |chunk|;
      ReceiveRest(accept, View(), chunk);
      if isClosing || crashed { return; }
      var recvData := restData + chunk;
      restData := [];
      var handled := RecvHandler(recvData);
      match handled {
        case Undefined => crashed := true;
        case Failed => isClosing := true;
        case Processed(processSize) =>
          var restDataSize := |recvData| - processSize;
          if restDataSize > 0 { restData := recvData[processSize..]; }
          recvTraffic := recvTraffic + processSize * 8;
      }
    }

    method RecvHandler(data: Bytes) returns (handled: Handled)
      requires data != [] && View().status == Open
      modifies this`handshakeComplete, this`delivered
      ensures handled.Processed? ==> handled.size <= |data|
      ensures var after := Connection(
                match handled { case Processed(_) => Open case Failed => Closed case Undefined => Crashed },
                handshakeComplete, delivered, if handled.Processed? then data[handled.size..] else []);
              after == Receive(accept, old(View()).(rest := []), data)
    {
      hide FrameStep, FindFrom, Drain;
      assert [] + data == data && data[0..] == data;
      var processSize := 0;
      if !handshakeComplete {
        var header := RecvHandshakeProc(data);
        if header.Failed? || header.size == 0 || header.size == |data| {
          if header == Processed(|data|) { DrainNothing(accept, delivered, data[header.size..]); }
          return header;
        }
        processSize := header.size;
      }
      handled := RecvFrames(data[processSize..]);
      if handled.Processed? {
        assert data[processSize..][handled.size..] == data[processSize + handled.size..];
        handled := Processed(processSize + handled.size);
      }
    }

    /** The loop over the frames in `data`. */
    method RecvFrames(data: Bytes) returns (handled: Handled)
      requires handshakeComplete
      modifies this`delivered
      ensures var r := Drain(accept, old(delivered), data);
              && delivered == r.delivered
              && handled == (match r.status case Open => Processed(r.used) case Closed => Failed case Crashed => Undefined)
    {
      hide FrameStep, Drain;
      ghost var goal := Drain(accept, delivered, data);
      var processSize := 0;
      assert data[0..] == data;
      while processSize < |data|
        invariant 0 <= processSize <= |data| && handshakeComplete
        invariant goal == AfterFrames(processSize, Drain(accept, delivered, data[processSize..]))
        decreases |data| - processSize
      {
        DrainStep(accept, delivered, data[processSize..]);
        var read := RecvDataProc(data[processSize..]);
        if !read.Processed? { return read; }
        if read.size == 0 { break; }
        assert data[processSize..][read.size..] == data[processSize + read.size..];
        processSize := processSize + read.size;
      }
      if processSize == |data| { DrainNothing(accept, delivered, data[processSize..]); }
      return Processed(processSize);
    }

    /** The size of the header once its end and the status text are there. */
    method RecvHandshakeProc(data: Bytes) returns (handled: Handled)
      requires !handshakeComplete
      modifies this`handshakeComplete
      ensures !handled.Undefined?
      ensures match FindText(data, HTTP_HEADER_END_DELIMITER)
              case None => handled == Processed(0) && !handshakeComplete
              case Some(h) =>
                if Contains(data, SWITCHING_PROTOCOLS) then handled == Processed(h + 4) && handshakeComplete
                else handled == Failed && !handshakeComplete
    {
      hide FindFrom;
      var headerEndPos := FindText(data, HTTP_HEADER_END_DELIMITER);
      if headerEndPos.None? { return Processed(0); }
      if FindText(data, SWITCHING_PROTOCOLS).None? { return Failed; }
      handshakeComplete := true;
      return Processed(headerEndPos.value + 4);
    }

    /** One frame off the front of `data`; 0 when more is needed, or after an empty frame. */
    method RecvDataProc(data: Bytes) returns (handled: Handled)
      modifies this`delivered
      ensures match FrameStep(data)
              case Wait => handled == Processed(0) && delivered == old(delivered)
              case Crash => handled == Undefined && delivered == old(delivered)
              case CloseRequest => handled == Failed && delivered == old(delivered)
              case Frame(m, n) =>
                delivered == old(delivered) + [m] && handled == if accept(delivered) then Processed(n) else Failed
    {
      var dataSize := |data|;
      if dataSize < WEBSOCKET_MIN_SIZE { return Processed(0); }
      var payloadHeaderSize := 0;
      var payloadSize: nat := data[1] % 128;
      var isMask := data[1] >= 128;
      if (payloadSize == 126 && dataSize < 4) || (payloadSize == 127 && dataSize < 10) { return Processed(0); }
      if payloadSize == 126 {
        payloadSize := BigEndian(data[2..4]);
        payloadHeaderSize := 4;
      } else if payloadSize == 127 {
        payloadSize := BigEndian(data[2..10]);
        payloadHeaderSize := 10;
      }
      var z := Sizes(payloadHeaderSize, payloadSize, isMask);
      var readSize := ReadSize(z);
      if dataSize < readSize { return Processed(0); }
      var parsed := ParsingData(data, z);
      match parsed {
        case CloseRequest => return Failed;
        case Frame(message, _) => delivered := delivered + [message];
        case _ => return Undefined;
      }
      if !accept(delivered) { return Failed; }
      return Processed(readSize);
    }

    /** A final close frame is refused whatever its length; otherwise the payload, unmasked in place. */
    method ParsingData(data: Bytes, z: Sizes) returns (parsed: Step)
      requires 3 <= |data| && ReadSize(z) <= |data| && z.header <= 10
      ensures parsed == if FinalClose(data) then CloseRequest
                        else if ReadSize(z) < 0 || ToInt32(z.payload) < 0 then Crash
                        else ParseFrame(data, z)
    {
      hide ReadSize, Unmask;
      var fin := data[0] >= 128;
      var opcode: byte := data[0] % 16;
      if fin && opcode == CLOSE_FRAME { return CloseRequest; }
      var payloadSize := ToInt32(z.payload);
      if ReadSize(z) < 0 || payloadSize < 0 { return Crash; }
      PayloadInside(z);
      var payload;
      if z.masked {
        payload := data[z.header + 4..z.header + 4 + payloadSize];
        payload := UnmaskPayload(payload, data[z.header..z.header + 4]);
      } else {
        payload := data[z.header..z.header + payloadSize];
      }
      if opcode == TEXT_FRAME { payload := payload + [NUL]; }
      return Frame(Message(opcode, payload), ReadSize(z));
    }
  }

  /** The masking loop over the payload vector. */
  method UnmaskPayload(masked: Bytes, maskingKey: Bytes) returns (payload: Bytes)
    requires |maskingKey| == 4
    ensures payload == Unmask(masked, maskingKey)
  {
    hide Xor;
    payload := masked;
    for index := 0 to |payload|
      invariant |payload| == |masked|
      invariant forall i :: 0 <= i < index ==> payload[i] == Xor(masked[i], maskingKey[i % 4])
      invariant forall i :: index <= i < |payload| ==> payload[i] == masked[i]
    {
      payload := payload[index := Xor(payload[index], maskingKey[index % 4])];
    }
  }

  /** A shut session ignores a read; an open one takes it behind its leftover. */
  lemma ReceiveRest(accept: Accept, c: Connection, chunk: Bytes)
    ensures c.status != Open ==> Receive(accept, c, chunk) == c
    ensures c.status == Open ==> Receive(accept, c, chunk) == Receive(accept, c.(rest := []), c.rest + chunk)
  {
    hide Drain, FindFrom;
    assert [] + (c.rest + chunk) == c.rest + chunk;
  }

  function AfterFrames(processed: nat, r: Drained): Drained { r.(used := processed + r.used) }

  /** What draining makes of the first frame. */
  predicate FirstFrame(accept: Accept, delivered: seq<Message>, d: Bytes, r: Drained)
    requires d != []
  {
    match FrameStep(d)
    case Wait => r == Drained(Open, delivered, 0)
    case Crash => r.status == Crashed && r.delivered == delivered
    case CloseRequest => r.status == Closed && r.delivered == delivered
    case Frame(m, n) =>
      if !accept(delivered + [m]) then r.status == Closed && r.delivered == delivered + [m]
      else if n == 0 then r == Drained(Open, delivered + [m], 0)
      else r == AfterFrames(n, Drain(accept, delivered + [m], d[n..]))
  }

  lemma DrainStep(accept: Accept, delivered: seq<Message>, d: Bytes)
    requires d != []
    ensures FirstFrame(accept, delivered, d, Drain(accept, delivered, d))
  {
    hide FrameStep;
  }

  lemma DrainNothing(accept: Accept, delivered: seq<Message>, d: Bytes)
    requires d == []
    ensures Drain(accept, delivered, d) == Drained(Open, delivered, 0)
  {}

  /** `MakeTextData` into an empty buffer. */
  method MakeTextData(data: Bytes) returns (outData: Bytes)
    ensures outData == TextFrame(data)
  {
    hide BigEndianBytes;
    var dataSize := |data|;
    outData := [TEXT_FRAME + 128];
    if dataSize < 126 {
      outData := outData + [dataSize];
    } else if dataSize < 65536 {
      outData := outData + [126];
      outData := outData + [dataSize / 0x100 % 256] + [dataSize % 256];
      Shifted2(dataSize);
    } else {
      outData := outData + [127];
      outData := outData + [dataSize / 0x100_0000_0000_0000 % 256] + [dataSize / 0x1_0000_0000_0000 % 256] +
        [dataSize / 0x100_0000_0000 % 256] + [dataSize / 0x1_0000_0000 % 256] + [dataSize / 0x100_0000 % 256] +
        [dataSize / 0x1_0000 % 256] + [dataSize / 0x100 % 256] + [dataSize % 256];
      Shifted8(dataSize);
    }
    assert outData == [TEXT_FRAME + 128] + LengthBytes(dataSize);
    outData := outData + data;
  }

  lemma Shifted2(n: nat)
    ensures BigEndianBytes(n, 2) == [n / 0x100 % 256, n % 256]
  {
    assert BigEndianBytes(n / 0x100, 1) == [n / 0x100 % 256];
  }

  lemma Shifted4(n: nat)
    ensures BigEndianBytes(n, 4) == [n / 0x100_0000 % 256, n / 0x1_0000 % 256, n / 0x100 % 256, n % 256]
  {
    Shifted2(n / 0x1_0000);
    assert n / 0x100 / 0x100 == n / 0x1_0000 && n / 0x1_0000 / 0x100 == n / 0x100_0000;
    assert BigEndianBytes(n / 0x100, 3) == BigEndianBytes(n / 0x1_0000, 2) + [n / 0x100 % 256];
  }

  lemma Shifted8(n: nat)
    ensures BigEndianBytes(n, 8) ==
              [n / 0x100_0000_0000_0000 % 256, n / 0x1_0000_0000_0000 % 256, n / 0x100_0000_0000 % 256,
               n / 0x1_0000_0000 % 256, n / 0x100_0000 % 256, n / 0x1_0000 % 256, n / 0x100 % 256, n % 256]
  {
    var m := n / 0x1_0000_0000;
    Shifted4(m);
    assert m / 0x100 == n / 0x100_0000_0000 && m / 0x1_0000 == n / 0x1_0000_0000_0000 && m / 0x100_0000 == n / 0x100_0000_0000_0000;
    assert n / 0x100 / 0x100 == n / 0x1_0000 && n / 0x1_0000 / 0x100 == n / 0x100_0000 && n / 0x100_0000 / 0x100 == m;
    assert BigEndianBytes(n / 0x100_0000, 5) == BigEndianBytes(m, 4) + [n / 0x100_0000 % 256];
    assert BigEndianBytes(n / 0x1_0000, 6) == BigEndianBytes(n / 0x100_0000, 5) + [n / 0x1_0000 % 256];
    assert BigEndianBytes(n / 0x100, 7) == BigEndianBytes(n / 0x1_0000, 6) + [n / 0x100 % 256];
  }
}
