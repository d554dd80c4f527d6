/** End-to-end delivery: what one side sends is what the other side's calls of `receive` return. */
module Delivery {
  import opened Bytes
  import opened Base
  import opened Protocol
  import opened Reading
  import opened Reassembly
  import Inflation

  /** A call of `send_text`, `send_binary`, `send_ping` or `send_pong`. */
  datatype Send = SendText(data: bytes) | SendBinary(data: bytes) | SendPing(data: bytes) | SendPong(data: bytes) {
    function OpCode(): OpCode {
      match this
      case SendText(_) => Text
      case SendBinary(_) => Binary
      case SendPing(_) => Ping
      case SendPong(_) => Pong
    }
  }

  /** What is sent for a call: the extension encodes text and binary messages. */
  function Prepared(encoder: Option<Inflation.Encoder>, send: Send): Inflation.Encoded {
    if encoder.Some? && (send.SendText? || send.SendBinary?) then
      Inflation.Encode(encoder.value, NewHeader(send.OpCode()), send.data)
    else Inflation.Encoded(NewHeader(send.OpCode()), send.data, true)
  }

  /** Can the receiver take this? Control payloads are `ByteSlice125`. With the extension, RSV1 is in use, and the
      inflater undoes the compressor. */
  predicate WithinLimits(setup: Setup, encoder: Option<Inflation.Encoder>, send: Send) {
    var sent := Prepared(encoder, send);
    && sent.ok
    && |sent.data| <= setup.limits.maxDataSize && |sent.data| <= USIZE_MAX && |send.data| <= USIZE_MAX
    && |sent.data| <= (if send.SendPing? || send.SendPong? then MAX_CTRL_BODY_SIZE else setup.maxMessageSize)
    && (sent.header.rsv1 ==>
      setup.limits.rsv1 && sent.data != [] && setup.inflate(sent.data + Inflation.TAIL) == Some(send.data))
  }

  /** The receiver is between messages, and has an extension if the sender has one. */
  predicate Matches(encoder: Option<Inflation.Encoder>, await: Option<bool>) {
    await == Some(false) || (await == None && encoder == None)
  }

  function SentFrame(out: Output, encoder: Option<Inflation.Encoder>, send: Send): Frame {
    var sent := Prepared(encoder, send);
    Frame(Sent(out.client, out.keys, out.drawn, sent.header, sent.data), sent.data)
  }

  function AfterSend(out: Output, encoder: Option<Inflation.Encoder>, send: Send): Output {
    if send.SendText? || send.SendBinary? then SendFrame(out, encoder, NewHeader(send.OpCode()), send.data).0
    else WriteFrame(out, NewHeader(send.OpCode()), send.data).0
  }

  function SendAll(out: Output, encoder: Option<Inflation.Encoder>, sends: seq<Send>): Output
    decreases |sends|
  {
    if sends == [] then out else SendAll(AfterSend(out, encoder, sends[0]), encoder, sends[1..])
  }

  /** The frames of these calls. */
  function SentFrames(out: Output, encoder: Option<Inflation.Encoder>, sends: seq<Send>): seq<Frame>
    decreases |sends|
  {
    if sends == [] then []
    else [SentFrame(out, encoder, sends[0])] + SentFrames(AfterSend(out, encoder, sends[0]), encoder, sends[1..])
  }

  /** What a call of `receive` hands to its caller. */
  datatype Delivered = Message(kind: OpCode, payload: bytes) | PongPayload(payload: bytes)

  function ExpectedOf(send: Send): seq<Delivered> {
    match send
    case SendText(data) => [Message(Text, data)]
    case SendBinary(data) => [Message(Binary, data)]
    case SendPing(_) => []
    case SendPong(data) => [PongPayload(data)]
  }

  /** What the peer of a sender should be handed for these calls. */
  function Expected(sends: seq<Send>): seq<Delivered> {
    if sends == [] then [] else ExpectedOf(sends[0]) + Expected(sends[1..])
  }

  function DeliveredBy(incoming: Incoming, message: bytes): seq<Delivered> {
    match incoming
    case TextData(_) => [Message(Text, message)]
    case BinaryData(_) => [Message(Binary, message)]
    case PongData(payload) => [PongPayload(payload)]
    case Closing(_) => []
  }

  /** Call `receive` with an empty message until it fails: all that was delivered, the state left, and the error. */
  function ReceiveAll(setup: Setup, s: State): (seq<Delivered>, State, Protocol.Error)
    decreases |s.Input()|
  {
    ReceiveConsumes(setup, s.(message := []));
    var (s1, outcome) := Receive(setup, s.(message := []));
    match outcome
    case Err(e) => ([], s1, e)
    case Ok(incoming) =>
      var (more, s2, e) := ReceiveAll(setup, s1);
      (DeliveredBy(incoming, s1.message) + more, s2, e)
  }

  /** Is this the frame of such a call, whatever its key? */
  predicate Carries(encoder: Option<Inflation.Encoder>, f: Frame, send: Send) {
    var sent := Prepared(encoder, send);
    && f == Frame(sent.header.(masked := f.header.masked, mask := f.header.mask, payloadLen := |sent.data|), sent.data)
    && (if f.header.masked then f.header.mask < 0x1_0000_0000 else f.header.mask == 0)
  }

  ghost predicate CarriesAll(encoder: Option<Inflation.Encoder>, fs: seq<Frame>, sends: seq<Send>) {
    |fs| == |sends| && forall i | 0 <= i < |fs| :: Carries(encoder, fs[i], sends[i])
  }

  lemma SentCarries(out: Output, encoder: Option<Inflation.Encoder>, send: Send)
    ensures Carries(encoder, SentFrame(out, encoder, send), send)
  {}

  lemma {:induction false} SentFramesCarry(out: Output, encoder: Option<Inflation.Encoder>, sends: seq<Send>)
    ensures CarriesAll(encoder, SentFrames(out, encoder, sends), sends)
    decreases |sends|
  {
    hide Carries, SentFrame, AfterSend;
    if sends != [] {
      SentCarries(out, encoder, sends[0]);
      SentFramesCarry(AfterSend(out, encoder, sends[0]), encoder, sends[1..]);
    }
  }

  lemma CarriedFits(setup: Setup, encoder: Option<Inflation.Encoder>, f: Frame, send: Send)
    requires Carries(encoder, f, send) && WithinLimits(setup, encoder, send)
    ensures Fits(setup.limits, f) && f.header.opcode == send.OpCode() && IsPing(f) == send.SendPing?
    ensures IsData(f) ==> |f.payload| <= setup.maxMessageSize
    ensures send.SendPing? || send.SendPong? ==> f.payload == send.data
  {}

  /** The wire carries the frames of the calls. */
  lemma {:induction false} SendsFrames(out: Output, encoder: Option<Inflation.Encoder>, sends: seq<Send>)
    requires out.failAt.None? && forall send | send in sends :: Prepared(encoder, send).ok
    ensures SendAll(out, encoder, sends).wire == out.wire + Wires(SentFrames(out, encoder, sends))
    decreases |sends|
  {
    hide Put, Sent, FrameBytes, Inflation.Encode, Prepared, AfterSend, SentFrame, Wire;
    if sends != [] {
      var f := SentFrame(out, encoder, sends[0]);
      SendsFrame(out, encoder, sends[0]);
      var out1 := AfterSend(out, encoder, sends[0]);
      var more := SentFrames(out1, encoder, sends[1..]);
      PrependWire(f, more);
      SendsFrames(out1, encoder, sends[1..]);
      AppendAssociates(out.wire, Wire(f), Wires(more));
    }
  }

  lemma SendsFrame(out: Output, encoder: Option<Inflation.Encoder>, send: Send)
    requires out.failAt.None? && Prepared(encoder, send).ok
    ensures AfterSend(out, encoder, send).wire == out.wire + Wire(SentFrame(out, encoder, send))
    ensures AfterSend(out, encoder, send).failAt.None?
  {
    hide Put, Sent, FrameBytes, Inflation.Encode;
    var f := SentFrame(out, encoder, send);
    PutWhole(out.wire, f.header, f.payload);
    WireOf(f);
  }

  lemma PlainMessage(setup: Setup, s: State, f: Frame)
    requires (f.header.opcode.Text? || f.header.opcode.Binary?) && f.header.fin && !f.header.rsv1
    requires s.message == [] && |f.payload| <= USIZE_MAX
    ensures OnWhole(setup, Progress(None, 0, 0), s, f) ==
      Return(s.(message := f.payload), Ok(DataOf(f.header.opcode, |f.payload|)))
  {
    assert [] + f.payload == f.payload;
  }

  lemma CompressedMessage(setup: Setup, s: State, f: Frame, data: bytes)
    requires (f.header.opcode.Text? || f.header.opcode.Binary?) && f.header.fin && f.header.rsv1
    requires s.message == [] && s.await.Some? && |data| <= USIZE_MAX
    requires f.payload != [] && setup.inflate(f.payload + Inflation.TAIL) == Some(data)
    ensures OnWhole(setup, Progress(None, 0, 0), s, f) ==
      Return(s.(message := data), Ok(DataOf(f.header.opcode, |data|)))
  {
    assert [] + f.payload == f.payload;
  }

  /** A data frame as it was sent is a message of its own, which the extension decodes. */
  lemma WholeMessage(setup: Setup, s: State, f: Frame, encoder: Option<Inflation.Encoder>, send: Send)
    requires (send.SendText? || send.SendBinary?) && Carries(encoder, f, send) && WithinLimits(setup, encoder, send)
    requires Matches(encoder, s.await) && s.message == []
    ensures OnWhole(setup, Progress(None, 0, 0), s, f) ==
      Return(s.(message := send.data), Ok(DataOf(send.OpCode(), |send.data|)))
  {
    hide OnWhole;
    if f.header.rsv1 {
      CompressedMessage(setup, s, f, send.data);
    } else {
      PlainMessage(setup, s, f);
    }
  }

  /** The next frame at the start of the input is delivered by the next call, or answered within it. */
  lemma DeliversOne(setup: Setup, s: State, f: Frame, encoder: Option<Inflation.Encoder>, send: Send, rest: bytes)
    requires Healthy(setup) && !s.closed && Matches(encoder, s.await) && s.message == []
    requires Carries(encoder, f, send) && WithinLimits(setup, encoder, send) && s.Input() == Wire(f) + rest
    ensures var s1 := s.Advance(|Wire(f)|);
      && s1.Input() == rest
      && match send
         case SendText(data) => Receive(setup, s) == (s1.(message := data), Ok(TextData(|data|)))
         case SendBinary(data) => Receive(setup, s) == (s1.(message := data), Ok(BinaryData(|data|)))
         case SendPing(data) => Receive(setup, s) == Receive(setup, AbsorbOne(setup, s, f))
         case SendPong(data) => Receive(setup, s) == (s1, Ok(PongData(data)))
  {
    var p := Progress(None, 0, 0);
    CarriedFits(setup, encoder, f, send);
    hide Iterate, Wire, Fits, Put, Fit, Drop, Carries, WithinLimits;
    IterateFrame(setup, p, s, f, rest);
    if send.SendText? || send.SendBinary? {
      WholeMessage(setup, s.Advance(|Wire(f)|), f, encoder, send);
    } else if send.SendPing? {
      PingGoesOn(setup, p, s.Advance(|Wire(f)|), f);
    }
  }

  lemma EndOfInput(setup: Setup, p: Progress, s: State)
    requires !s.closed && s.Input() == []
    ensures Continued(setup, p, s) == (s, Err(ConnectionClosed))
  {}

  function DrawnOnce(setup: Setup, s: State): nat { if setup.client then s.drawn + 1 else s.drawn }

  lemma PingAnswered(setup: Setup, s: State, f: Frame)
    requires Healthy(setup) && IsPing(f)
    ensures var reply := ReplyFrame(setup, s.drawn, Pong, f.payload);
      AbsorbOne(setup, s, f) ==
        s.Advance(|Wire(f)|).(wire := s.wire + Wire(reply), drawn := DrawnOnce(setup, s))
  {
    hide Put, FrameBytes, Sent, Drop;
    var reply := ReplyFrame(setup, s.drawn, Pong, f.payload);
    PutWhole(s.wire, reply.header, reply.payload);
    WireOf(reply);
  }

  /** What a receiver makes of one more frame: the state its later calls start from. */
  function Beyond(setup: Setup, s: State, f: Frame): State {
    var s0 := s.(message := []);
    if IsPing(f) then AbsorbOne(setup, s0, f) else Receive(setup, s0).0
  }

  lemma ExpectedOne(send: Send)
    ensures Expected([send]) == ExpectedOf(send)
  {
    assert [send][1..] == [];
  }

  lemma SameReceiveAll(setup: Setup, s: State, t: State)
    requires Receive(setup, s.(message := [])) == Receive(setup, t.(message := []))
    ensures ReceiveAll(setup, s) == ReceiveAll(setup, t)
  {
    hide Receive;
  }

  lemma ReceivesOne(setup: Setup, s: State, t: State, incoming: Incoming)
    requires Receive(setup, s.(message := [])) == (t, Ok(incoming))
    ensures var (delivered, u, e) := ReceiveAll(setup, t);
      ReceiveAll(setup, s) == (DeliveredBy(incoming, t.message) + delivered, u, e)
  {
    hide Receive;
  }

  /** The first of the frames, and what becomes of the other calls. */
  lemma FirstDelivered(setup: Setup, s: State, f: Frame, encoder: Option<Inflation.Encoder>, send: Send, rest: bytes)
    requires Healthy(setup) && !s.closed && Matches(encoder, s.await)
    requires Carries(encoder, f, send) && WithinLimits(setup, encoder, send) && s.Input() == Wire(f) + rest
    ensures var t := Beyond(setup, s, f);
      && t.Input() == rest && !t.closed && t.await == s.await && IsPing(f) == send.SendPing?
      && (if IsPing(f) then
            t.wire == s.wire + Wire(ReplyFrame(setup, s.drawn, Pong, f.payload)) && t.drawn == DrawnOnce(setup, s)
          else t.wire == s.wire && t.drawn == s.drawn)
      && var (delivered, u, e) := ReceiveAll(setup, t);
         ReceiveAll(setup, s) == (Expected([send]) + delivered, u, e)
  {
    CarriedFits(setup, encoder, f, send);
    hide Receive, Wire, Sent, AbsorbOne, Drop, Carries, WithinLimits, State.Advance, ReceiveAll, Expected;
    var s0 := s.(message := []);
    assert s0.Input() == s.Input() by { SameInput(s, []); }
    DeliversOne(setup, s0, f, encoder, send, rest);
    AdvanceOnlyInput(s0, |Wire(f)|);
    ExpectedOne(send);
    if IsPing(f) {
      PingAnswered(setup, s0, f);
      var t := AbsorbOne(setup, s0, f);
      assert t.(message := []) == t;
      SameReceiveAll(setup, s, t);
      assert [] + ReceiveAll(setup, t).0 == ReceiveAll(setup, t).0;
    } else {
      var (t, outcome) := Receive(setup, s0);
      ReceivesOne(setup, s, t, outcome.incoming);
    }
  }

  lemma PongsHead(setup: Setup, drawn: nat, f: Frame, fs: seq<Frame>)
    ensures Pongs(setup, drawn, [f] + fs) ==
      if IsPing(f) then
        [ReplyFrame(setup, drawn, Pong, f.payload)] + Pongs(setup, if setup.client then drawn + 1 else drawn, fs)
      else Pongs(setup, drawn, fs)
  {
    hide ReplyFrame;
    assert ([f] + fs)[0] == f && ([f] + fs)[1..] == fs;
  }

  lemma {:induction false} ExpectedConcat(sends: seq<Send>, more: seq<Send>)
    ensures Expected(sends + more) == Expected(sends) + Expected(more)
  {
    hide ExpectedOf;
    if sends == [] {
      assert sends + more == more;
    } else {
      assert (sends + more)[0] == sends[0] && (sends + more)[1..] == sends[1..] + more;
      ExpectedConcat(sends[1..], more);
      AppendAssociates(ExpectedOf(sends[0]), Expected(sends[1..]), Expected(more));
    }
  }

  /** Frames of calls at the start of the input: what they carry is delivered, their Pings are answered, and the later
      calls see what comes after them. */
  lemma {:induction false} DeliversFrames(
    setup: Setup, s: State, fs: seq<Frame>, encoder: Option<Inflation.Encoder>, sends: seq<Send>, rest: bytes)
    returns (t: State)
    requires Healthy(setup) && !s.closed && Matches(encoder, s.await)
    requires CarriesAll(encoder, fs, sends) && forall send | send in sends :: WithinLimits(setup, encoder, send)
    requires s.Input() == Wires(fs) + rest
    ensures t.Input() == rest && !t.closed && t.await == s.await
    ensures t.wire == s.wire + Wires(Pongs(setup, s.drawn, fs))
    ensures var (delivered, u, e) := ReceiveAll(setup, t);
      ReceiveAll(setup, s) == (Expected(sends) + delivered, u, e)
    decreases |fs|
  {
    hide Carries, WithinLimits, Wire, Beyond, ReplyFrame, ReceiveAll, State.Input;
    if fs == [] {
      t := s;
      NothingMore(setup, s.drawn, rest);
      assert Expected(sends) + ReceiveAll(setup, t).0 == ReceiveAll(setup, t).0;
    } else {
      var f, more := fs[0], fs[1..];
      assert fs == [f] + more && sends == [sends[0]] + sends[1..];
      ExpectedConcat([sends[0]], sends[1..]);
      PongsHead(setup, s.drawn, f, more);
      PrependWire(f, more);
      AppendAssociates(Wire(f), Wires(more), rest);
      hide Wires, Pongs, Expected;
      FirstDelivered(setup, s, f, encoder, sends[0], Wires(more) + rest);
      var s1 := Beyond(setup, s, f);
      t := DeliversFrames(setup, s1, more, encoder, sends[1..], rest);
      var reply, pongs := ReplyFrame(setup, s.drawn, Pong, f.payload), Pongs(setup, s1.drawn, more);
      PrependWire(reply, pongs);
      AppendAssociates(s.wire, Wire(reply), Wires(pongs));
      AppendAssociates(Expected([sends[0]]), Expected(sends[1..]), ReceiveAll(setup, t).0);
    }
  }

  lemma NothingMore(setup: Setup, drawn: nat, rest: bytes)
    ensures Wires([]) + rest == rest && Wires(Pongs(setup, drawn, [])) == [] && Expected([]) == []
  {}

  /** When the input ends behind the frames. */
  lemma DeliversToEnd(
    setup: Setup, s: State, fs: seq<Frame>, encoder: Option<Inflation.Encoder>, sends: seq<Send>)
    requires Healthy(setup) && !s.closed && Matches(encoder, s.await)
    requires CarriesAll(encoder, fs, sends) && forall send | send in sends :: WithinLimits(setup, encoder, send)
    requires s.Input() == Wires(fs)
    ensures AllArrives(setup, s, fs, sends)
  {
    assert Wires(fs) + [] == Wires(fs);
    hide Wires, CarriesAll, Matches, WithinLimits, Receive, Pongs, Expected;
    var t := DeliversFrames(setup, s, fs, encoder, sends, []);
    var t0 := t.(message := []);
    EndOfInput(setup, Progress(None, 0, 0), t0);
    NothingReceived(setup, t0);
    assert Expected(sends) + [] == Expected(sends);
  }

  /** The calls of a receiver return exactly the messages and Pong payloads of these calls, in order, until the input
      ends, and it has written exactly one Pong for each Ping, with the same payload. */
  predicate AllArrives(setup: Setup, s: State, fs: seq<Frame>, sends: seq<Send>) {
    var (delivered, t, e) := ReceiveAll(setup, s);
    && delivered == Expected(sends)
    && e == ConnectionClosed && t.Input() == []
    && t.wire == s.wire + Wires(Pongs(setup, s.drawn, fs))
  }

  /** End-to-end delivery: for any messages within the limits, any keys, either side, and with or without the
      extension, everything sent arrives. */
  lemma Delivers(
    setup: Setup, s: State, out: Output, encoder: Option<Inflation.Encoder>, sends: seq<Send>)
    requires Healthy(setup) && !s.closed && Matches(encoder, s.await)
    requires forall send | send in sends :: WithinLimits(setup, encoder, send)
    requires s.Input() == Wires(SentFrames(out, encoder, sends))
    ensures AllArrives(setup, s, SentFrames(out, encoder, sends), sends)
  {
    hide WithinLimits, Matches, CarriesAll, AllArrives, Wires, SentFrames;
    SentFramesCarry(out, encoder, sends);
    DeliversToEnd(setup, s, SentFrames(out, encoder, sends), encoder, sends);
  }

  lemma SameInput(s: State, message: bytes)
    ensures s.(message := message).Input() == s.Input()
  {}

  lemma AdvanceOnlyInput(s: State, k: nat)
    ensures var t := s.Advance(k);
      t == s.(buffer := t.buffer, unread := t.unread)
  {}

  lemma NothingReceived(setup: Setup, s: State)
    requires Continued(setup, Progress(None, 0, |s.message|), s) == (s, Err(ConnectionClosed))
    ensures Receive(setup, s) == (s, Err(ConnectionClosed))
  {}
}
