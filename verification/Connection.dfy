/** The two halves of a connection, updating their buffers in place, refined to the functions of `Protocol`. */
module Connection {
  import opened Bytes
  import opened Base
  import opened Io
  import opened Protocol
  import opened Reading
  import opened Deflate
  import Inflation

  /** Write header and payload data, masked on the client side. Payloads that are not shared are masked in place. */
  method Write(client: bool, codec: Codec, writer: Writer, rng: Rng, header: Header, data: Storage, maskBuffer: ByteVec)
    returns (ok: bool)
    requires codec.Valid() && maskBuffer !in data.Repr()
    modifies codec.headerBuffer, writer, rng, maskBuffer, data.Repr()
    ensures var sent := Sent(client, rng.keys, old(rng.drawn), header, old(data.AsRef()));
      && ok == Fit(writer.failAt, old(writer.wire), sent, old(data.AsRef()))
      && writer.wire == Put(writer.failAt, old(writer.wire), sent, old(data.AsRef()))
      && (!data.Shared? ==> data.vec.data == LeftBehind(writer.failAt, old(writer.wire), sent, old(data.AsRef())))
    ensures rng.drawn == if client then old(rng.drawn) + 1 else old(rng.drawn)
  {
    var header := header;
    if client {
      var key := rng.Next();
      header := header.(masked := true, mask := key);
    }
    header := header.(payloadLen := |data.AsRef()|);
    ghost var payload := data.AsRef();
    var n := codec.EncodeInto(header);
    ok := writer.WriteAll(codec.headerBuffer[..n]);
    if !ok {
      return;
    }
    if !header.masked {
      ok := writer.WriteAll(data.AsRef());
      return;
    }
    match data {
      case Shared(slice) =>
        maskBuffer.data := slice;
        Codec.ApplyMask(header, maskBuffer, 0);
        assert maskBuffer.data == Masked(header, payload);
        ok := writer.WriteAll(maskBuffer.data);
      case Unique(vec) =>
        Codec.ApplyMask(header, vec, 0);
        assert vec.data == Masked(header, payload);
        ok := writer.WriteAll(vec.data);
      case Owned(vec) =>
        Codec.ApplyMask(header, vec, 0);
        assert vec.data == Masked(header, payload);
        ok := writer.WriteAll(vec.data);
    }
  }

  /** `Builder::add_extensions` for one extension: only an enabled one is used, and its reserved bits are claimed. */
  method AddExtension(codec: Codec, extension: Deflate) returns (used: Deflate?)
    requires codec.Valid()
    modifies codec
    ensures codec.Valid() && used == if extension.enabled then extension else null
    ensures codec.Bounds() == WithExtension(old(codec.Bounds()), extension.Negotiated())
  {
    used := null;
    if extension.enabled {
      codec.AddReservedBits(true, false, false);
      used := extension;
    }
  }

  class Receiver {
    const client: bool
    const codec: Codec
    const reader: Reader
    const writer: Writer
    const rng: Rng
    const deflate: Deflate?
    const buffer: ByteVec
    const ctrlBuffer: ByteVec
    const maxMessageSize: nat
    var isClosed: bool

    ghost predicate Valid(message: ByteVec)
      reads codec
    {
      codec.Valid() && buffer != ctrlBuffer && message != buffer && message != ctrlBuffer
    }

    /** The receiving half of a new connection; `buffer` holds what the handshake read ahead. */
    constructor (client: bool, codec: Codec, reader: Reader, writer: Writer, rng: Rng, deflate: Deflate?,
                 buffer: ByteVec, maxMessageSize: nat)
      ensures this.client == client && this.codec == codec && this.reader == reader && this.writer == writer
      ensures this.rng == rng && this.deflate == deflate && this.buffer == buffer && fresh(ctrlBuffer)
      ensures this.maxMessageSize == maxMessageSize && !isClosed
    {
      this.client, this.codec, this.reader, this.writer := client, codec, reader, writer;
      this.rng, this.deflate, this.buffer, this.maxMessageSize := rng, deflate, buffer, maxMessageSize;
      ctrlBuffer := new ByteVec([]);
      isClosed := false;
    }

    function Setup(): Setup
      reads codec
    {
      Protocol.Setup.Setup(client, codec.Bounds(), maxMessageSize, rng.keys, writer.failAt, writer.flushes,
        if deflate == null then _ => None else deflate.inflate)
    }

    function State(message: ByteVec): State
      reads this, buffer, reader, writer, rng, message, deflate
    {
      Protocol.State.State(buffer.data, reader.unread, writer.wire, rng.drawn, isClosed, message.data,
        if deflate == null then None else Some(deflate.awaitLastFragment))
    }

    /** What the extension negotiated, which receiving leaves alone. */
    function Agreed(): Option<Window>
      reads deflate
    {
      if deflate == null then None else Some(deflate.Negotiated())
    }

    /** Read the next frame header; reads ask for no more than the header still needs. */
    method ReceiveHeader() returns (header: Header, error: Option<Protocol.Error>)
      requires codec.Valid()
      modifies buffer, reader
      ensures match NextHeader(codec.Bounds(), old(buffer.data), old(reader.unread))
        case Got(h, b, u) => error == None && header == h && buffer.data == b && reader.unread == u
        case Bad(e, b, u) => error == Some(e) && buffer.data == b && reader.unread == u
    {
      header := NewHeader(Continue);
      while true
        invariant NextHeader(codec.Bounds(), buffer.data, reader.unread)
          == NextHeader(codec.Bounds(), old(buffer.data), old(reader.unread))
        decreases |reader.unread|
      {
        hide DecodeHeader;
        match DecodeHeader(codec.Bounds(), buffer.data) {
          case Done(h, offset) =>
            buffer.data := buffer.data[offset..];
            return h, None;
          case Failed(e) => return header, Some(Codec(e));
          case NeedMore(n) =>
            ghost var before, unread := buffer.data, reader.unread;
            var ok := Io.Read(reader, buffer, n);
            if !ok {
              assert buffer.data == before && reader.unread == unread;
              return header, Some(ConnectionClosed);
            }
            ShortReadsSameHeader(codec.Bounds(), before, unread, |buffer.data| - |before|);
        }
      }
    }

    /** Read the complete payload of a control frame into the read buffer. */
    method ReadBuffer(header: Header) returns (ok: bool)
      modifies buffer, reader
      ensures var input, n := old(buffer.data) + old(reader.unread), header.payloadLen;
        && ok == (n <= |input|)
        && (ok ==>
          if n <= |old(buffer.data)| then buffer.data == old(buffer.data) && reader.unread == old(reader.unread)
          else buffer.data == input[..n] && reader.unread == old(reader.unread)[n - |old(buffer.data)|..])
        && (!ok ==> buffer.data == input + Zeros(n - |input|) && reader.unread == [])
    {
      if header.payloadLen <= |buffer.data| {
        return true;
      }
      var i := |buffer.data|;
      var d := header.payloadLen - i;
      buffer.data := buffer.data + Zeros(d);
      ok := reader.ReadExact(buffer, i);
    }

    /** Write a control frame in reply, with the payload in `data`. */
    method WriteReply(opcode: OpCode, data: ByteVec, ghost message: ByteVec) returns (ok: bool)
      requires Valid(message) && data != message && data != buffer
      modifies data, writer, rng, codec.headerBuffer
      ensures State(message) == Replied(Setup(), old(State(message)), opcode, old(data.data))
      ensures ok == ReplyFits(Setup(), old(State(message)), opcode, old(data.data))
    {
      hide Put, Fit;
      var unused := new ByteVec([]);
      ok := Write(client, codec, writer, rng, NewHeader(opcode), Unique(data), unused);
    }

    /** Answer the Ping or Close whose payload is in the control buffer. */
    method OnControl(opcode: OpCode, ghost p: Progress, ghost message: ByteVec)
      returns (reason: Option<CloseReason>, error: Option<Protocol.Error>)
      requires Valid(message) && !isClosed && (opcode.Ping? || opcode.Close?)
      modifies this`isClosed, ctrlBuffer, writer, rng, codec.headerBuffer
      ensures var step := Protocol.OnControl(Setup(), p, old(State(message)), opcode, old(ctrlBuffer.data));
        && State(message) == step.state
        && match step
           case Return(_, Err(e)) => error == Some(e)
           case Return(_, Ok(incoming)) => error == None && reason.Some? && incoming == Closing(reason.value)
           case Loop(_, p') => error == None && reason == None && p' == p
    {
      hide Replied, ReplyFits, AnswerClose, AnswerPayload;
      reason, error := None, None;
      if opcode.Ping? {
        var ok := WriteReply(Pong, ctrlBuffer, message);
        if !ok || !writer.flushes {
          error := Some(ConnectionClosed);
        }
        return;
      }
      var answer := AnswerClose(ctrlBuffer.data);
      if answer.BadReason? {
        error := Some(Utf8);
        return;
      }
      reason := answer.reason;
      var data := new ByteVec(AnswerPayload(reason));
      var _ := WriteReply(Close, data, message);
      if !writer.flushes {
        error := Some(ConnectionClosed);
        return;
      }
      isClosed := true;
    }

    /** Apply the extension, if there is one, to the header and the message. */
    method DecodeWithExtensions(header: Header, message: ByteVec) returns (ok: bool)
      requires Valid(message)
      modifies message, deflate
      ensures (State(message), ok) == Decoded(Setup(), old(State(message)), header)
      ensures Agreed() == old(Agreed())
    {
      if deflate == null {
        return true;
      }
      var _, success := deflate.Decode(header, message);
      ok := success;
    }

    /** Append `required` bytes to the message, from the read buffer first and then from the reader. */
    method TakePayload(required: nat, message: ByteVec) returns (ok: bool)
      requires Valid(message)
      modifies buffer, reader, message
      ensures var b, u, m := old(buffer.data), old(reader.unread), old(message.data);
        && ok == (required <= |b| + |u|)
        && (!ok ==> buffer.data == [] && reader.unread == [] && message.data == m + (b + u) + Zeros(required - |b + u|))
        && (ok && required <= |b| ==>
          buffer.data == b[required..] && reader.unread == u && message.data == m + b[..required])
        && (ok && required > |b| ==>
          buffer.data == [] && reader.unread == u[required - |b|..] && message.data == m + (b + u[..required - |b|]))
    {
      var buffered := |buffer.data|;
      var bytesToRead: nat;
      if buffered == 0 {
        bytesToRead := required;
      } else if required > buffered {
        message.data := message.data + buffer.data;
        buffer.data := [];
        bytesToRead := required - buffered;
      } else {
        message.data := message.data + buffer.data[..required];
        buffer.data := buffer.data[required..];
        bytesToRead := 0;
      }
      ok := true;
      if bytesToRead > 0 {
        var n := |message.data|;
        message.data := message.data + Zeros(bytesToRead);
        ok := reader.ReadExact(message, n);
      }
    }

    /** Append a data frame's unmasked payload to the message; only the new bytes are unmasked. */
    method ReadPayload(header: Header, message: ByteVec) returns (ok: bool)
      requires Valid(message)
      modifies buffer, reader, message
      ensures var s, n := old(State(message)), header.payloadLen;
        var input := s.Input();
        && ok == (n <= |input|)
        && State(message) ==
          if ok then s.Advance(n).(message := s.message + Masked(header, input[..n]))
          else s.(buffer := [], unread := [], message := s.message + input + Zeros(n - |input|))
    {
      hide Masked, Zeros;
      ghost var s := State(message);
      var oldMsgLen := |message.data|;
      ok := TakePayload(header.payloadLen, message);
      if ok {
        assert message.data == s.message + s.Input()[..header.payloadLen];
        Codec.ApplyMask(header, message, oldMsgLen);
      }
    }

    /** The part of `receive` that handles a control frame whose header was read; `None` if the loop goes on. */
    method ReceiveControl(header: Header, ghost p: Progress, message: ByteVec) returns (result: Option<Outcome>)
      requires Valid(message) && !isClosed && header.opcode.IsControl()
      modifies this`isClosed, buffer, ctrlBuffer, reader, writer, rng, codec.headerBuffer
      ensures var step := OnFrame(Setup(), p, old(State(message)), header);
        && State(message) == step.state
        && step == if result.Some? then Return(step.state, result.value) else Loop(step.state, p)
    {
      hide Masked, Protocol.OnControl;
      ghost var s := State(message);
      var ok := ReadBuffer(header);
      if !ok {
        return Some(Err(ConnectionClosed));
      }
      ctrlBuffer.data := buffer.data[..header.payloadLen];
      buffer.data := buffer.data[header.payloadLen..];
      assert ctrlBuffer.data == s.Input()[..header.payloadLen];
      assert State(message) == s.Advance(header.payloadLen);
      Codec.ApplyMask(header, ctrlBuffer, 0);
      assert ctrlBuffer.data == Masked(header, s.Input()[..header.payloadLen]);
      if header.opcode.Pong? {
        return Some(Ok(PongData(ctrlBuffer.data)));
      }
      var reason, error := OnControl(header.opcode, p, message);
      if error.Some? {
        return Some(Err(error.value));
      }
      result := if reason.Some? then Some(Ok(Closing(reason.value))) else None;
    }

    /** The part of `receive` that fits a data frame into the message, once its payload was appended; `None` if the
        loop goes on. */
    method Assemble(header: Header, first: Option<OpCode>, messageLen: nat, ghost length: nat, message: ByteVec)
      returns (result: Option<Outcome>, first': Option<OpCode>)
      requires Valid(message)
      modifies message, deflate
      ensures var step := OnData(Setup(), Progress(first, length, messageLen), old(State(message)), header);
        && State(message) == step.state
        && step ==
          if result.Some? then Return(step.state, result.value)
          else Loop(step.state, Progress(first', length, messageLen))
      ensures Agreed() == old(Agreed())
    {
      hide Decoded, Growth;
      result, first' := None, first;
      var kind, ok;
      if !header.fin && header.opcode.Continue? {
        if first.None? {
          result := Some(Err(UnexpectedOpCode(Continue)));
        }
        return;
      } else if !header.fin {
        if first.Some? {
          return Some(Err(UnexpectedOpCode(header.opcode))), first;
        }
        first' := Some(header.opcode);
        ok := DecodeWithExtensions(header, message);
        if !ok {
          result := Some(Err(Extension));
        }
        return;
      } else if header.opcode.Continue? {
        if first.None? {
          return Some(Err(UnexpectedOpCode(Continue))), first;
        }
        kind, first' := first.value, None;
        ok := DecodeWithExtensions(header.(payloadLen := |message.data|), message);
      } else {
        if first.Some? {
          return Some(Err(UnexpectedOpCode(header.opcode))), first;
        }
        kind := header.opcode;
        ok := DecodeWithExtensions(header, message);
      }
      if !ok {
        return Some(Err(Extension)), first';
      }
      var numBytes := Growth(messageLen, message.data);
      result := Some(Ok(if kind.Text? then TextData(numBytes) else BinaryData(numBytes)));
    }

    /** The part of `receive` that handles a data frame whose header was read; `None` if the loop goes on. */
    method ReceiveFragment(header: Header, first: Option<OpCode>, length: nat, messageLen: nat, message: ByteVec)
      returns (result: Option<Outcome>, first': Option<OpCode>, length': nat)
      requires Valid(message) && !header.opcode.IsControl()
      modifies buffer, reader, message, deflate
      ensures var step := OnFrame(Setup(), Progress(first, length, messageLen), old(State(message)), header);
        && State(message) == step.state
        && step ==
          if result.Some? then Return(step.state, result.value)
          else Loop(step.state, Progress(first', length', messageLen))
      ensures Agreed() == old(Agreed())
    {
      hide Masked, OnData;
      result, first', length' := None, first, SaturatingAdd(length, header.payloadLen);
      if length' > maxMessageSize {
        reader.Discard(length');
        result := Some(Err(MessageTooLarge(length', maxMessageSize)));
        return;
      }
      var ok := ReadPayload(header, message);
      if !ok {
        result := Some(Err(ConnectionClosed));
        return;
      }
      result, first' := Assemble(header, first, messageLen, length', message);
    }

    /** Receive the next message, appending its payload to `message`. */
    method Receive(message: ByteVec) returns (outcome: Outcome)
      requires Valid(message)
      modifies this`isClosed, buffer, ctrlBuffer, reader, writer, rng, codec.headerBuffer, message, deflate
      ensures Valid(message) && Agreed() == old(Agreed())
      ensures (State(message), outcome) == Protocol.Receive(Setup(), old(State(message)))
    {
      hide NextHeader, OnFrame;
      var firstFragmentOpcode: Option<OpCode> := None;
      var length: nat := 0;
      var messageLen := |message.data|;
      while true
        invariant Continued(Setup(), Progress(firstFragmentOpcode, length, messageLen), State(message))
          == Protocol.Receive(Setup(), old(State(message)))
        invariant Agreed() == old(Agreed())
        decreases |State(message).Input()|
      {
        ghost var p, s := Progress(firstFragmentOpcode, length, messageLen), State(message);
        if isClosed {
          return Err(ConnectionClosed);
        }
        ctrlBuffer.data := [];
        var header, error := ReceiveHeader();
        if error.Some? {
          return Err(error.value);
        }
        assert Iterate(Setup(), p, s) == OnFrame(Setup(), p, State(message), header);
        var result;
        if header.opcode.IsControl() {
          result := ReceiveControl(header, p, message);
        } else {
          result, firstFragmentOpcode, length :=
            ReceiveFragment(header, firstFragmentOpcode, length, messageLen, message);
        }
        if result.Some? {
          return result.value;
        }
      }
    }

    /** Receive the next text or binary message, skipping everything else. */
    method ReceiveData(message: ByteVec) returns (outcome: Outcome)
      requires Valid(message)
      modifies this`isClosed, buffer, ctrlBuffer, reader, writer, rng, codec.headerBuffer, message, deflate
      ensures Valid(message) && Agreed() == old(Agreed())
      ensures (State(message), outcome) == Protocol.ReceiveData(Setup(), old(State(message)))
    {
      hide Protocol.Receive;
      while true
        invariant Protocol.ReceiveData(Setup(), State(message)) == Protocol.ReceiveData(Setup(), old(State(message)))
        invariant Agreed() == old(Agreed())
        decreases |State(message).Input()|
      {
        ReceiveConsumes(Setup(), State(message));
        outcome := Receive(message);
        if outcome.Err? || outcome.incoming.TextData? || outcome.incoming.BinaryData? {
          return;
        }
      }
    }
  }

  class Sender {
    const client: bool
    const codec: Codec
    const writer: Writer
    const rng: Rng
    const deflate: Deflate?
    const maskBuffer: ByteVec

    ghost predicate Valid()
      reads codec
    {
      codec.Valid()
    }

    constructor (client: bool, codec: Codec, writer: Writer, rng: Rng, deflate: Deflate?)
      requires codec.Valid()
      ensures this.client == client && this.codec == codec && this.writer == writer && this.rng == rng
      ensures this.deflate == deflate && Valid() && fresh(maskBuffer)
    {
      this.client, this.codec, this.writer, this.rng, this.deflate := client, codec, writer, rng, deflate;
      maskBuffer := new ByteVec([]);
    }

    function Output(): Output
      reads writer, rng
    {
      Protocol.Output.Output(client, rng.keys, rng.drawn, writer.failAt, writer.wire)
    }

    /** Write a frame that no extension touches. */
    method WriteFrame(header: Header, data: Storage) returns (error: Option<Protocol.Error>)
      requires Valid() && maskBuffer !in data.Repr()
      modifies codec.headerBuffer, writer, rng, maskBuffer, data.Repr()
      ensures (Output(), error) == Protocol.WriteFrame(old(Output()), header, old(data.AsRef()))
      ensures !data.Shared? ==> data.vec.data == BorrowedAfter(old(Output()), None, header, old(data.AsRef()))
    {
      hide Put, Fit, Sent;
      var ok := Write(client, codec, writer, rng, header, data, maskBuffer);
      error := if ok then None else Some(ConnectionClosed);
    }

    function Encoder(): Option<Inflation.Encoder>
      reads deflate
    {
      if deflate == null then None else Some(deflate.Encoder())
    }

    /** The extension's state outside its buffer, which sending leaves alone. */
    function ExtensionState(): Option<(Window, bool)>
      reads deflate
    {
      if deflate == null then None else Some((deflate.Negotiated(), deflate.awaitLastFragment))
    }

    /** Send a frame after applying the extension, if there is one. */
    method SendFrame(header: Header, data: Storage) returns (error: Option<Protocol.Error>)
      requires Valid() && maskBuffer !in data.Repr()
      modifies codec.headerBuffer, writer, rng, maskBuffer, data.Repr(), deflate
      ensures (Output(), error) == Protocol.SendFrame(old(Output()), old(Encoder()), header, old(data.AsRef()))
      ensures data.Owned? ==> data.vec.data == OwnedAfter(old(Output()), old(Encoder()), header, old(data.AsRef()))
      ensures data.Unique? ==> data.vec.data == BorrowedAfter(old(Output()), old(Encoder()), header, old(data.AsRef()))
      ensures ExtensionState() == old(ExtensionState())
    {
      hide Protocol.WriteFrame, Inflation.Encode, Inflation.Encodes, LeftBehind, Sent;
      if deflate == null {
        error := WriteFrame(header, data);
        return;
      }
      var header', data', ok := deflate.Encode(header, data);
      if !ok {
        return Some(Extension);
      }
      error := WriteFrame(header', data');
    }

    method SendText(data: bytes) returns (error: Option<Protocol.Error>)
      requires Valid()
      modifies codec.headerBuffer, writer, rng, maskBuffer, deflate
      ensures (Output(), error) == Protocol.SendFrame(old(Output()), old(Encoder()), NewHeader(Text), data)
      ensures ExtensionState() == old(ExtensionState())
    {
      error := SendFrame(NewHeader(Text), Shared(data));
    }

    method SendTextOwned(data: ByteVec) returns (error: Option<Protocol.Error>)
      requires Valid() && data != maskBuffer
      modifies codec.headerBuffer, writer, rng, maskBuffer, deflate, data
      ensures (Output(), error) == Protocol.SendFrame(old(Output()), old(Encoder()), NewHeader(Text), old(data.data))
      ensures data.data == OwnedAfter(old(Output()), old(Encoder()), NewHeader(Text), old(data.data))
      ensures ExtensionState() == old(ExtensionState())
    {
      error := SendFrame(NewHeader(Text), Owned(data));
    }

    method SendBinary(data: bytes) returns (error: Option<Protocol.Error>)
      requires Valid()
      modifies codec.headerBuffer, writer, rng, maskBuffer, deflate
      ensures (Output(), error) == Protocol.SendFrame(old(Output()), old(Encoder()), NewHeader(Binary), data)
      ensures ExtensionState() == old(ExtensionState())
    {
      error := SendFrame(NewHeader(Binary), Shared(data));
    }

    method SendBinaryMut(data: ByteVec) returns (error: Option<Protocol.Error>)
      requires Valid() && data != maskBuffer
      modifies codec.headerBuffer, writer, rng, maskBuffer, deflate, data
      ensures (Output(), error) == Protocol.SendFrame(old(Output()), old(Encoder()), NewHeader(Binary), old(data.data))
      ensures data.data == BorrowedAfter(old(Output()), old(Encoder()), NewHeader(Binary), old(data.data))
      ensures ExtensionState() == old(ExtensionState())
    {
      error := SendFrame(NewHeader(Binary), Unique(data));
    }

    method SendPing(data: bytes) returns (error: Option<Protocol.Error>)
      requires Valid() && |data| <= 125
      modifies codec.headerBuffer, writer, rng, maskBuffer
      ensures (Output(), error) == Protocol.WriteFrame(old(Output()), NewHeader(Ping), data)
    {
      error := WriteFrame(NewHeader(Ping), Shared(data));
    }

    method SendPong(data: bytes) returns (error: Option<Protocol.Error>)
      requires Valid() && |data| <= 125
      modifies codec.headerBuffer, writer, rng, maskBuffer
      ensures (Output(), error) == Protocol.WriteFrame(old(Output()), NewHeader(Pong), data)
    {
      error := WriteFrame(NewHeader(Pong), Shared(data));
    }

    /** Send a Close with the code for a normal closure. */
    method Close() returns (error: Option<Protocol.Error>)
      requires Valid()
      modifies codec.headerBuffer, writer, rng, maskBuffer
      ensures var (out, e) := Protocol.WriteFrame(old(Output()), NewHeader(OpCode.Close), ToBigEndian(1000, 2));
        Output() == out && error == if e == None && !writer.flushes then Some(ConnectionClosed) else e
    {
      error := WriteFrame(NewHeader(OpCode.Close), Shared(ToBigEndian(1000, 2)));
      if error == None && !writer.flushes {
        error := Some(ConnectionClosed);
      }
    }
  }
}
