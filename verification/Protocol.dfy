/** `Receiver::receive` as a state transformer: one step per loop iteration, over the bytes still to be received. */
module Protocol {
  import opened Bytes
  import opened Base
  import opened Io
  import Inflation
  import opened Utf8

  /** What does not change while a connection is in use. */
  datatype Setup = Setup(
    client: bool, limits: Limits, maxMessageSize: nat, keys: nat -> nat,
    failAt: Option<nat>, flushes: bool, inflate: bytes -> Option<bytes>)

  /** What `receive` reads and updates. `await` is the deflate extension's flag, if there is such an extension. */
  datatype State = State(
    buffer: bytes, unread: bytes, wire: bytes, drawn: nat, closed: bool, message: bytes, await: Option<bool>)
  {
    /** All bytes still to be received, wherever they are. */
    function Input(): bytes { buffer + unread }

    /** The state after the next `k` bytes were taken, from the read buffer first. */
    function Advance(k: nat): State {
      this.(buffer := Drop(buffer, k), unread := Drop(unread, if k <= |buffer| then 0 else k - |buffer|))
    }
  }

  datatype CloseReason = CloseReason(code: nat, descr: Option<bytes>)

  datatype Incoming =
    | TextData(size: nat)
    | BinaryData(size: nat)
    | PongData(payload: bytes)
    | Closing(reason: CloseReason)

  datatype Error =
    | Codec(error: Base.Error)
    | Extension
    | UnexpectedOpCode(opcode: OpCode)
    | Utf8
    | MessageTooLarge(current: nat, maximum: nat)
    | ConnectionClosed

  datatype Outcome = Ok(incoming: Incoming) | Err(error: Error)

  /** The locals of `receive`: the first fragment's opcode, the accepted payload bytes, the message size on entry. */
  datatype Progress = Progress(first: Option<OpCode>, length: nat, start: nat)

  datatype Step = Return(state: State, outcome: Outcome) | Loop(state: State, progress: Progress)

  // Frame headers ////////////////////////////////////////////////////////////////////////////////

  datatype HeaderRead =
    | Got(header: Header, buffer: bytes, unread: bytes)
    | Bad(error: Error, buffer: bytes, unread: bytes)

  /** `receive_header` when every read delivers all it was asked for. */
  function NextHeader(limits: Limits, buffer: bytes, unread: bytes): HeaderRead
    decreases |unread|
  {
    match DecodeHeader(limits, buffer)
    case Done(h, n) => Got(h, buffer[n..], unread)
    case Failed(e) => Bad(Codec(e), buffer, unread)
    case NeedMore(n) =>
      var k := Min(n, |unread|);
      if k == 0 then Bad(ConnectionClosed, buffer, unread)
      else NextHeader(limits, buffer + unread[..k], unread[k..])
  }

  // Writing //////////////////////////////////////////////////////////////////////////////////////

  /** The bytes of a frame with this header. */
  function FrameBytes(h: Header, data: bytes): bytes { EncodeHeader(h) + Masked(h, data) }

  /** The header `write` sends: masked with the next key on the client side, with the data's length. */
  function Sent(client: bool, keys: nat -> nat, drawn: nat, h: Header, data: bytes): Header {
    (if client then h.(masked := true, mask := KeyAt(keys, drawn)) else h).(payloadLen := |data|)
  }

  /** The wire after writing a header and then its payload, unless the writer broke before. */
  function Put(failAt: Option<nat>, wire: bytes, h: Header, data: bytes): bytes {
    var head := Accepted(failAt, wire, EncodeHeader(h));
    if HasRoom(failAt, wire, |EncodeHeader(h)|) then Accepted(failAt, head, Masked(h, data)) else head
  }

  /** Does the writer take a whole frame? */
  predicate Fit(failAt: Option<nat>, wire: bytes, h: Header, data: bytes) {
    HasRoom(failAt, wire, |EncodeHeader(h)|) && HasRoom(failAt, wire + EncodeHeader(h), |data|)
  }

  /** What a buffer holds after it was written: it is masked in place, unless the header did not go through. */
  function LeftBehind(failAt: Option<nat>, wire: bytes, h: Header, data: bytes): bytes {
    if HasRoom(failAt, wire, |EncodeHeader(h)|) then Masked(h, data) else data
  }

  /** What a sender writes with. */
  datatype Output = Output(client: bool, keys: nat -> nat, drawn: nat, failAt: Option<nat>, wire: bytes)

  /** `write`: the next key is drawn, and the frame goes out as far as the writer takes it. */
  function WriteFrame(out: Output, h: Header, data: bytes): (Output, Option<Error>) {
    var sent := Sent(out.client, out.keys, out.drawn, h, data);
    (out.(wire := Put(out.failAt, out.wire, sent, data), drawn := if out.client then out.drawn + 1 else out.drawn),
     if Fit(out.failAt, out.wire, sent, data) then None else Some(ConnectionClosed))
  }

  /** `send_frame`: the extension comes first, if there is one. */
  function SendFrame(out: Output, encoder: Option<Inflation.Encoder>, h: Header, data: bytes): (Output, Option<Error>) {
    match encoder
    case None => WriteFrame(out, h, data)
    case Some(enc) =>
      var e := Inflation.Encode(enc, h, data);
      if e.ok then WriteFrame(out, e.header, e.data) else (out, Some(Extension))
  }

  /** What an owned buffer holds after it was sent: the data as it was written. */
  function OwnedAfter(out: Output, encoder: Option<Inflation.Encoder>, h: Header, data: bytes): bytes {
    var e := if encoder.Some? then Inflation.Encode(encoder.value, h, data) else Inflation.Encoded(h, data, true);
    if e.ok then LeftBehind(out.failAt, out.wire, Sent(out.client, out.keys, out.drawn, e.header, e.data), e.data)
    else data
  }

  /** What a borrowed buffer holds after it was sent: encoded data goes into a buffer of its own. */
  function BorrowedAfter(out: Output, encoder: Option<Inflation.Encoder>, h: Header, data: bytes): bytes {
    if encoder.Some? && Inflation.Encodes(h, data) then data
    else LeftBehind(out.failAt, out.wire, Sent(out.client, out.keys, out.drawn, h, data), data)
  }

  function Reply(setup: Setup, s: State, opcode: OpCode, data: bytes): Header {
    Sent(setup.client, setup.keys, s.drawn, NewHeader(opcode), data)
  }

  predicate ReplyFits(setup: Setup, s: State, opcode: OpCode, data: bytes) {
    Fit(setup.failAt, s.wire, Reply(setup, s, opcode, data), data)
  }

  /** The state after `write` sent a control frame in reply. */
  function Replied(setup: Setup, s: State, opcode: OpCode, data: bytes): State {
    s.(wire := Put(setup.failAt, s.wire, Reply(setup, s, opcode, data), data),
       drawn := if setup.client then s.drawn + 1 else s.drawn)
  }

  // Control frames ///////////////////////////////////////////////////////////////////////////////

  predicate IsAcceptableCode(code: nat) {
    1000 <= code <= 1003 || 1007 <= code <= 1013 || code == 1015 || 3000 <= code <= 4999
  }

  datatype CloseAnswer = Answer(reason: Option<CloseReason>) | BadReason

  /** `close_answer`. */
  function AnswerClose(data: bytes): CloseAnswer {
    if |data| < 2 then Answer(None)
    else if !IsUtf8(data[2..]) then BadReason
    else
      var code := FromBigEndian(data[..2]);
      Answer(Some(if IsAcceptableCode(code) then CloseReason(code, Some(data[2..])) else CloseReason(1002, None)))
  }

  function AnswerPayload(reason: Option<CloseReason>): bytes {
    match reason
    case Some(r) => ToBigEndian(r.code, 2)
    case None => []
  }

  /** `on_control`, and what `receive` makes of its result. */
  function OnControl(setup: Setup, p: Progress, s: State, opcode: OpCode, payload: bytes): Step
    requires opcode.Ping? || opcode.Close?
  {
    if opcode.Ping? then
      var s' := Replied(setup, s, Pong, payload);
      if ReplyFits(setup, s, Pong, payload) && setup.flushes then Loop(s', p)
      else Return(s', Err(ConnectionClosed))
    else
      match AnswerClose(payload)
      case BadReason => Return(s, Err(Utf8))
      case Answer(reason) =>
        var s' := Replied(setup, s, Close, AnswerPayload(reason));
        if !setup.flushes then Return(s', Err(ConnectionClosed))
        else if reason.Some? then Return(s'.(closed := true), Ok(Closing(reason.value)))
        else Loop(s'.(closed := true), p)
  }

  // Data frames //////////////////////////////////////////////////////////////////////////////////

  /** `decode_with_extensions`: the state, and whether the extension succeeded. */
  function Decoded(setup: Setup, s: State, h: Header): (State, bool) {
    match s.await
    case None => (s, true)
    case Some(await) =>
      var r := Inflation.Decode(setup.inflate, await, h, s.message);
      (s.(await := Some(r.await), message := r.data), r.ok)
  }

  /** The growth of the message as `receive` counts it, in wrapping 64-bit arithmetic. */
  function Growth(start: nat, message: bytes): nat { (|message| - start) % (USIZE_MAX + 1) }

  function Finished(setup: Setup, p: Progress, s: State, h: Header, kind: OpCode): Step {
    var (s', ok) := Decoded(setup, s, h);
    if !ok then Return(s', Err(Extension)) else
    var n := Growth(p.start, s'.message);
    Return(s', Ok(if kind.Text? then TextData(n) else BinaryData(n)))
  }

  /** What a data frame does once its payload is part of the message (section 5.4 of RFC 6455). */
  function OnData(setup: Setup, p: Progress, s: State, h: Header): Step {
    if !h.fin && h.opcode.Continue? then
      if p.first.None? then Return(s, Err(UnexpectedOpCode(Continue))) else Loop(s, p)
    else if !h.fin then
      if p.first.Some? then Return(s, Err(UnexpectedOpCode(h.opcode))) else
      var (s', ok) := Decoded(setup, s, h);
      if ok then Loop(s', p.(first := Some(h.opcode))) else Return(s', Err(Extension))
    else if h.opcode.Continue? then
      if p.first.None? then Return(s, Err(UnexpectedOpCode(Continue)))
      else Finished(setup, p, s, h.(payloadLen := |s.message|), p.first.value)
    else
      if p.first.Some? then Return(s, Err(UnexpectedOpCode(h.opcode))) else Finished(setup, p, s, h, h.opcode)
  }

  // Frames ///////////////////////////////////////////////////////////////////////////////////////

  /** One frame after its header: a control frame's answer, the size check, or the payload joining the message. */
  function OnFrame(setup: Setup, p: Progress, s: State, h: Header): (r: Step)
    ensures r.Loop? || r.outcome.Ok? ==> |r.state.Input()| <= |s.Input()|
  {
    var input, n := s.Input(), h.payloadLen;
    if h.opcode.IsControl() then
      if |input| < n then Return(s.(buffer := input + Zeros(n - |input|), unread := []), Err(ConnectionClosed)) else
      var payload := Masked(h, input[..n]);
      if h.opcode.Pong? then Return(s.Advance(n), Ok(PongData(payload)))
      else OnControl(setup, p, s.Advance(n), h.opcode, payload)
    else
      var length := SaturatingAdd(p.length, n);
      if length > setup.maxMessageSize then
        Return(s.(unread := Drop(s.unread, length)), Err(MessageTooLarge(length, setup.maxMessageSize)))
      else if |input| < n then
        Return(s.(buffer := [], unread := [], message := s.message + input + Zeros(n - |input|)), Err(ConnectionClosed))
      else
        var s' := s.Advance(n);
        OnData(setup, p.(length := length), s'.(message := s.message + Masked(h, input[..n])), h)
  }

  /** One iteration of the loop in `receive`. */
  function Iterate(setup: Setup, p: Progress, s: State): (r: Step)
    ensures r.Loop? || r.outcome.Ok? ==> |r.state.Input()| < |s.Input()|
  {
    if s.closed then Return(s, Err(ConnectionClosed)) else
    match NextHeader(setup.limits, s.buffer, s.unread)
    case Bad(e, b, u) => Return(s.(buffer := b, unread := u), Err(e))
    case Got(h, b, u) =>
      NextHeaderConsumes(setup.limits, s.buffer, s.unread);
      OnFrame(setup, p, s.(buffer := b, unread := u), h)
  }

  lemma {:induction false} NextHeaderConsumes(limits: Limits, buffer: bytes, unread: bytes)
    ensures var r := NextHeader(limits, buffer, unread);
      r.Got? ==> |r.buffer| + |r.unread| < |buffer| + |unread|
    decreases |unread|
  {
    var d := DecodeHeader(limits, buffer);
    if d.NeedMore? && Min(d.count, |unread|) > 0 {
      var k := Min(d.count, |unread|);
      NextHeaderConsumes(limits, buffer + unread[..k], unread[k..]);
    }
  }

  /** `receive` from inside its loop. */
  function Continued(setup: Setup, p: Progress, s: State): (r: (State, Outcome))
    decreases |s.Input()|
  {
    match Iterate(setup, p, s)
    case Return(s', outcome) => (s', outcome)
    case Loop(s', p') => Continued(setup, p', s')
  }

  /** `Receiver::receive`, appending to `s.message`. */
  function Receive(setup: Setup, s: State): (State, Outcome) {
    Continued(setup, Progress(None, 0, |s.message|), s)
  }

  lemma {:induction false} ContinuedConsumes(setup: Setup, p: Progress, s: State)
    ensures var (s', outcome) := Continued(setup, p, s);
      outcome.Ok? ==> |s'.Input()| < |s.Input()|
    decreases |s.Input()|
  {
    hide OnFrame;
    var step := Iterate(setup, p, s);
    if step.Loop? {
      ContinuedConsumes(setup, step.progress, step.state);
    }
  }

  /** A call that returns something has taken at least one frame from the input. */
  lemma ReceiveConsumes(setup: Setup, s: State)
    ensures Receive(setup, s).1.Ok? ==> |Receive(setup, s).0.Input()| < |s.Input()|
  {
    ContinuedConsumes(setup, Progress(None, 0, |s.message|), s);
  }

  /** `Receiver::receive_data`: whatever calls that yield no data leave in the message stays there. */
  function ReceiveData(setup: Setup, s: State): (State, Outcome)
    decreases |s.Input()|
  {
    ReceiveConsumes(setup, s);
    var (s', outcome) := Receive(setup, s);
    if outcome.Err? || outcome.incoming.TextData? || outcome.incoming.BinaryData? then (s', outcome)
    else ReceiveData(setup, s')
  }
}
