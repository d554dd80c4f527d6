/** The closing handshake over whole runs of `receive` calls (section 5.5.1 of RFC 6455). */
module Closing {
  import opened Bytes
  import opened Base
  import opened Protocol
  import opened Utf8
  import opened Reading
  import opened Reassembly
  import opened Writing
  import WireFormat

  /** Calls of `receive`, one after the other, each with the message buffer the caller passes. */
  function Calls(setup: Setup, s: State, messages: seq<bytes>): (State, seq<Outcome>)
    decreases |messages|
  {
    if messages == [] then (s, [])
    else
      var (s1, outcome) := Receive(setup, s.(message := messages[0]));
      var (s2, outcomes) := Calls(setup, s1, messages[1..]);
      (s2, [outcome] + outcomes)
  }

  /** What a receiver says: Pongs, and one Close at the very end exactly if it is closed. Every frame is one that a
      peer with room for control payloads accepts. */
  ghost predicate IsTalk(rs: seq<Frame>, closed: bool) {
    && (closed ==> rs != [])
    && (forall i | 0 <= i < |rs| :: rs[i].header.opcode == if closed && i == |rs| - 1 then Close else Pong)
    && (forall f | f in rs :: Fits(Limits(MAX_CTRL_BODY_SIZE, false, false, false), f))
  }

  lemma TalkJoins(qs: seq<Frame>, rs: seq<Frame>, closed: bool)
    requires IsTalk(qs, false) && IsTalk(rs, closed)
    ensures IsTalk(qs + rs, closed)
  {}

  lemma AnswerFits(data: bytes)
    ensures AnswerClose(data).Answer? ==>
      var payload := AnswerPayload(AnswerClose(data).reason);
      |payload| <= 2
  {}

  lemma ReplyIsTalk(setup: Setup, s: State, opcode: OpCode, data: bytes)
    requires Healthy(setup) && (opcode.Pong? || opcode.Close?) && |data| <= MAX_CTRL_BODY_SIZE
    ensures Replied(setup, s, opcode, data).wire == s.wire + Wires([ReplyFrame(setup, s.drawn, opcode, data)])
    ensures IsTalk([ReplyFrame(setup, s.drawn, opcode, data)], opcode.Close?)
  {
    hide Put, FrameBytes;
    PutWhole(s.wire, Reply(setup, s, opcode, data), data);
    var r := ReplyFrame(setup, s.drawn, opcode, data);
    WireOf(r);
    assert Wires([r]) == Wire(r) by { assert [r][1..] == []; }
  }

  lemma ControlReplies(setup: Setup, p: Progress, s: State, opcode: OpCode, data: bytes) returns (rs: seq<Frame>)
    requires Healthy(setup) && !s.closed && (opcode.Ping? || opcode.Close?) && |data| <= MAX_CTRL_BODY_SIZE
    ensures var t := OnControl(setup, p, s, opcode, data).state;
      t.wire == s.wire + Wires(rs) && IsTalk(rs, t.closed)
  {
    hide Put, AnswerClose, ToBigEndian, Fits, Wire;
    if opcode.Ping? {
      ReplyIsTalk(setup, s, Pong, data);
      rs := [ReplyFrame(setup, s.drawn, Pong, data)];
    } else {
      AnswerFits(data);
      match AnswerClose(data) {
        case BadReason => rs := [];
        case Answer(reason) =>
          ReplyIsTalk(setup, s, Close, AnswerPayload(reason));
          rs := [ReplyFrame(setup, s.drawn, Close, AnswerPayload(reason))];
      }
    }
  }

  lemma FrameReplies(setup: Setup, p: Progress, s: State, h: Header) returns (rs: seq<Frame>)
    requires Healthy(setup) && !s.closed && (h.opcode.IsControl() ==> h.payloadLen <= MAX_CTRL_BODY_SIZE)
    ensures var t := OnFrame(setup, p, s, h).state;
      t.wire == s.wire + Wires(rs) && IsTalk(rs, t.closed)
  {
    hide OnControl, OnData, Masked, Drop;
    rs := [];
    var n := h.payloadLen;
    if n <= |s.Input()| {
      var payload := Masked(h, s.Input()[..n]);
      if h.opcode.Ping? || h.opcode.Close? {
        rs := ControlReplies(setup, p, s.Advance(n), h.opcode, payload);
      } else if !h.opcode.IsControl() {
        DataKeeps(setup, p.(length := SaturatingAdd(p.length, n)), s.Advance(n).(message := s.message + payload), h);
      }
    }
  }

  lemma StepReplies(setup: Setup, p: Progress, s: State) returns (rs: seq<Frame>)
    requires Healthy(setup) && !s.closed
    ensures var t := Iterate(setup, p, s).state;
      t.wire == s.wire + Wires(rs) && IsTalk(rs, t.closed)
  {
    hide NextHeader, OnFrame, DecodeHeader, Wires;
    rs := [];
    assert Wires([]) == [] by { NoWires(); }
    NextHeaderOfInput(setup.limits, s.buffer, s.unread);
    var next := NextHeader(setup.limits, s.buffer, s.unread);
    if next.Got? {
      ControlSize(setup.limits, s.Input());
      rs := FrameReplies(setup, p, s.(buffer := next.buffer, unread := next.unread), next.header);
    }
  }

  lemma NoWires()
    ensures Wires([]) == []
  {}

  lemma ControlSize(limits: Limits, bs: bytes)
    requires DecodeHeader(limits, bs).Done?
    ensures var h := DecodeHeader(limits, bs).header;
      h.opcode.IsControl() ==> h.payloadLen <= MAX_CTRL_BODY_SIZE
  {}

  lemma {:induction false} CallReplies(setup: Setup, p: Progress, s: State) returns (rs: seq<Frame>)
    requires Healthy(setup) && !s.closed
    ensures var t := Continued(setup, p, s).0;
      t.wire == s.wire + Wires(rs) && IsTalk(rs, t.closed)
    decreases |s.Input()|
  {
    hide Iterate, Wires, IsTalk;
    rs := StepReplies(setup, p, s);
    var step := Iterate(setup, p, s);
    if step.Loop? {
      if step.state.closed {
        StaysClosed(setup, step.progress, step.state);
      } else {
        var more := CallReplies(setup, step.progress, step.state);
        TalkJoins(rs, more, Continued(setup, p, s).0.closed);
        WiresConcat(rs, more);
        rs := rs + more;
      }
    }
  }

  /** A closed receiver returns at once, without reading or writing. */
  lemma StaysClosed(setup: Setup, p: Progress, s: State)
    requires s.closed
    ensures Continued(setup, p, s) == (s, Err(ConnectionClosed))
  {}

  /** Every call on a closed receiver fails and changes nothing but which message buffer was passed. */
  lemma {:induction false} ClosedRun(setup: Setup, s: State, messages: seq<bytes>)
    requires s.closed
    ensures var (t, outcomes) := Calls(setup, s, messages);
      && t == s.(message := t.message) && |outcomes| == |messages|
      && forall o | o in outcomes :: o == Err(ConnectionClosed)
    decreases |messages|
  {
    if messages != [] {
      var s1 := s.(message := messages[0]);
      StaysClosed(setup, Progress(None, 0, |s1.message|), s1);
      ClosedRun(setup, s1, messages[1..]);
    }
  }

  /** Over any run of calls, the receiver writes whole frames: Pongs, and exactly one Close if it ends up closed,
      which is then the last frame; otherwise none. */
  lemma {:induction false} RunReplies(setup: Setup, s: State, messages: seq<bytes>) returns (rs: seq<Frame>)
    requires Healthy(setup) && !s.closed
    ensures var t := Calls(setup, s, messages).0;
      t.wire == s.wire + Wires(rs) && IsTalk(rs, t.closed)
    decreases |messages|
  {
    hide Wires, IsTalk, Continued;
    rs := [];
    if messages == [] {
      NoWires();
      assert IsTalk([], false) by { Silence(); }
    } else {
      var s1 := s.(message := messages[0]);
      rs := CallReplies(setup, Progress(None, 0, |s1.message|), s1);
      var s2 := Receive(setup, s1).0;
      if s2.closed {
        ClosedRun(setup, s2, messages[1..]);
      } else {
        var more := RunReplies(setup, s2, messages[1..]);
        TalkJoins(rs, more, Calls(setup, s, messages).0.closed);
        WiresConcat(rs, more);
        rs := rs + more;
      }
    }
  }

  lemma Silence()
    ensures IsTalk([], false)
  {}

  /** The writer takes everything, or it takes nothing more, as after the sender closed it; flushing succeeds. */
  predicate TakesAllOrNothing(setup: Setup, s: State) {
    setup.flushes && (setup.failAt == None || setup.failAt == Some(|s.wire|))
  }

  /** The answer to a Close, as far as the writer takes it. */
  function CloseAnswered(setup: Setup, s: State, reason: Option<CloseReason>): bytes {
    if setup.failAt.None? then Wire(ReplyFrame(setup, s.drawn, Close, AnswerPayload(reason))) else []
  }

  lemma PutNothing(wire: bytes, h: Header, data: bytes)
    ensures Put(Some(|wire|), wire, h, data) == wire
  {
    assert EncodeHeader(h) != [];
    hide EncodeHeader, Masked;
  }

  lemma CloseReplied(setup: Setup, s: State, reason: Option<CloseReason>)
    requires TakesAllOrNothing(setup, s) && |AnswerPayload(reason)| <= MAX_CTRL_BODY_SIZE
    ensures Replied(setup, s, Close, AnswerPayload(reason)).wire == s.wire + CloseAnswered(setup, s, reason)
  {
    hide Put, Wire, FrameBytes, AnswerPayload;
    var h, data := Reply(setup, s, Close, AnswerPayload(reason)), AnswerPayload(reason);
    WireOf(ReplyFrame(setup, s.drawn, Close, data));
    PutWhole(s.wire, h, data);
    PutNothing(s.wire, h, data);
  }

  /** What a Close frame does, also inside a message: with a reason that is not UTF-8 the call fails and the receiver
      stays open without a reply; otherwise it is closed and has answered, even if nothing is written any more. */
  lemma OnClose(setup: Setup, p: Progress, s: State, f: Frame, rest: bytes)
    requires TakesAllOrNothing(setup, s) && !s.closed && Fits(setup.limits, f) && f.header.opcode.Close?
    requires s.Input() == Wire(f) + rest
    ensures var (t, outcome) := Continued(setup, p, s);
      && t.Input() == rest
      && (t.closed <==> |f.payload| < 2 || IsUtf8(f.payload[2..]))
      && match AnswerClose(f.payload)
         case BadReason => outcome == Err(Utf8) && t.wire == s.wire
         case Answer(reason) =>
           && outcome == (if reason.Some? then Ok(Incoming.Closing(reason.value)) else Err(ConnectionClosed))
           && t.wire == s.wire + CloseAnswered(setup, s, reason)
  {
    hide Iterate, Wire, Put, Fit, IsUtf8, ToBigEndian, IsAcceptableCode, FromBigEndian, Drop, Fits;
    IterateFrame(setup, p, s, f, rest);
    AnswerFits(f.payload);
    var s1 := s.Advance(|Wire(f)|);
    match AnswerClose(f.payload) {
      case BadReason =>
      case Answer(reason) =>
        CloseReplied(setup, s1, reason);
        if reason.None? {
          StaysClosed(setup, p, OnControl(setup, p, s1, Close, f.payload).state);
        }
    }
  }

  /** The code of a Close answer is one that would be answered with itself. */
  lemma AnsweredCodeIsFixed(data: bytes)
    requires AnswerClose(data).Answer? && AnswerClose(data).reason.Some?
    ensures var answer := AnswerPayload(AnswerClose(data).reason);
      AnswerClose(answer).Answer? && AnswerPayload(AnswerClose(answer).reason) == answer
  {
    var code := AnswerClose(data).reason.value.code;
    assert IsAcceptableCode(code) && Pow256(2) == 0x1_0000;
    BigEndianReads(code, 2);
    var answer := ToBigEndian(code, 2);
    assert answer[..2] == answer && IsUtf8(answer[2..]);
  }

  /** The codes nobody may put in a Close frame (section 7.4 of RFC 6455), except 1015, which the receiver accepts. */
  predicate IsForbiddenCode(code: nat) {
    code < 1000 || code in {1004, 1005, 1006, 1014} || 1015 < code < 3000 || code >= 5000
  }

  /** A Close frame's code comes back with its reason, unless it is one nobody may send: then it is answered with a
      protocol error. */
  lemma AnswersCode(code: nat, reason: bytes)
    requires code < 0x1_0000 && IsUtf8(reason)
    ensures AnswerClose(ToBigEndian(code, 2) + reason) ==
      Answer(Some(if IsForbiddenCode(code) then CloseReason(1002, None) else CloseReason(code, Some(reason))))
  {
    assert Pow256(2) == 0x1_0000;
    BigEndianReads(code, 2);
    var data := ToBigEndian(code, 2) + reason;
    assert data[..2] == ToBigEndian(code, 2) && data[2..] == reason;
  }

  /** A Close with a code and a reason in UTF-8, byte by byte: the answer carries the code, or 1002 if nobody may send
      that code, and nothing else; the call returns it, and the receiver is closed. */
  lemma ClosesWithCode(setup: Setup, p: Progress, s: State, f: Frame, code: nat, reason: bytes, rest: bytes)
    requires TakesAllOrNothing(setup, s) && !s.closed && Fits(setup.limits, f) && f.header.opcode.Close?
    requires s.Input() == Wire(f) + rest
    requires code < 0x1_0000 && IsUtf8(reason) && f.payload == [code / 256, code % 256] + reason
    ensures var (t, outcome) := Continued(setup, p, s);
      var answered := if IsForbiddenCode(code) then 1002 else code;
      && t.closed && t.Input() == rest
      && outcome == Ok(Incoming.Closing(
           if IsForbiddenCode(code) then CloseReason(1002, None) else CloseReason(code, Some(reason))))
      && t.wire == s.wire +
           if setup.failAt.None? then Wire(ReplyFrame(setup, s.drawn, Close, [answered / 256, answered % 256])) else []
  {
    WireFormat.TwoBytes(code);
    AnswersCode(code, reason);
    hide AnswerClose, Wire, ReplyFrame, ToBigEndian, Iterate, Fits, IsUtf8, IsForbiddenCode;
    OnClose(setup, p, s, f, rest);
    ClosedOnlyByAnswer(f.payload);
    WireFormat.TwoBytes(if IsForbiddenCode(code) then 1002 else code);
  }

  /** A Close without a code is answered with one without a code; the receiver is closed, and the call says so. */
  lemma ClosesWithoutCode(setup: Setup, p: Progress, s: State, f: Frame, rest: bytes)
    requires TakesAllOrNothing(setup, s) && !s.closed && Fits(setup.limits, f) && f.header.opcode.Close?
    requires s.Input() == Wire(f) + rest && |f.payload| < 2
    ensures var (t, outcome) := Continued(setup, p, s);
      && t.closed && t.Input() == rest && outcome == Err(ConnectionClosed)
      && t.wire == s.wire + if setup.failAt.None? then Wire(ReplyFrame(setup, s.drawn, Close, [])) else []
  {
    hide Wire, ReplyFrame, Iterate, Fits, IsUtf8;
    OnClose(setup, p, s, f, rest);
  }

  /** A Close whose reason is not UTF-8 is not answered, and the receiver stays open. */
  lemma RefusesReason(setup: Setup, p: Progress, s: State, f: Frame, rest: bytes)
    requires TakesAllOrNothing(setup, s) && !s.closed && Fits(setup.limits, f) && f.header.opcode.Close?
    requires s.Input() == Wire(f) + rest && |f.payload| >= 2 && !IsUtf8(f.payload[2..])
    ensures var (t, outcome) := Continued(setup, p, s);
      !t.closed && t.Input() == rest && outcome == Err(Utf8) && t.wire == s.wire
  {
    hide Wire, Iterate, Fits, IsUtf8;
    OnClose(setup, p, s, f, rest);
  }

  /** A Ping with any writer: if the writer takes the whole Pong and can be flushed, the loop goes on behind it;
      otherwise the call fails with an open receiver, and the wire has got a beginning of the Pong. */
  lemma PingNeedsWriter(setup: Setup, p: Progress, s: State, f: Frame, rest: bytes)
    requires !s.closed && Fits(setup.limits, f) && f.header.opcode.Ping? && s.Input() == Wire(f) + rest
    ensures var t, reply := Replied(setup, s.Advance(|Wire(f)|), Pong, f.payload),
        Wire(ReplyFrame(setup, s.drawn, Pong, f.payload));
      && t.Input() == rest && !t.closed && t.message == s.message && s.wire <= t.wire <= s.wire + reply
      && Continued(setup, p, s) ==
        if t.wire == s.wire + reply && setup.flushes then Continued(setup, p, t) else (t, Err(ConnectionClosed))
  {
    hide Iterate, Wire, Put, Fit, Fits, FrameBytes, Sent;
    IterateFrame(setup, p, s, f, rest);
    var reply := ReplyFrame(setup, s.drawn, Pong, f.payload);
    WireOf(reply);
    PutsBeginning(setup.failAt, s.wire, reply.header, reply.payload);
  }

  /** A Close with any writer, if its reason is fine: what the writer takes of the answer does not matter, but flushing
      does. If that fails, so does the call, and the receiver is still open. */
  lemma CloseNeedsFlush(setup: Setup, p: Progress, s: State, f: Frame, rest: bytes)
    requires !s.closed && Fits(setup.limits, f) && f.header.opcode.Close? && s.Input() == Wire(f) + rest
    requires |f.payload| >= 2 ==> IsUtf8(f.payload[2..])
    ensures var (t, outcome) := Continued(setup, p, s);
      && t.Input() == rest && (t.closed <==> setup.flushes)
      && (outcome.Ok? <==> setup.flushes && |f.payload| >= 2)
      && (outcome.Ok? ==> outcome.incoming.Closing?) && (outcome.Err? ==> outcome.error.ConnectionClosed?)
      && exists answer: bytes :: s.wire <= t.wire <= s.wire + Wire(ReplyFrame(setup, s.drawn, Close, answer))
  {
    hide Iterate, Wire, Put, Fit, Fits, FrameBytes, IsUtf8, FromBigEndian, ToBigEndian, IsAcceptableCode, Sent;
    IterateFrame(setup, p, s, f, rest);
    var s1 := s.Advance(|Wire(f)|);
    var answer := AnswerPayload(AnswerClose(f.payload).reason);
    var reply := ReplyFrame(setup, s.drawn, Close, answer);
    WireOf(reply);
    PutsBeginning(setup.failAt, s.wire, reply.header, reply.payload);
    var t := OnControl(setup, p, s1, Close, f.payload).state;
    if t.closed {
      StaysClosed(setup, p, t);
    }
  }

  /** The payload of `Sender::close`. */
  function NormalClosure(): (data: bytes)
    ensures data == [0x03, 0xE8]
  {
    WireFormat.TwoBytes(1000);
    ToBigEndian(1000, 2)
  }

  /** The frame of `Sender::close`. */
  function CloseFrame(out: Output): Frame {
    Frame(Sent(out.client, out.keys, out.drawn, NewHeader(Close), NormalClosure()), NormalClosure())
  }

  /** The reason of a normal closure. */
  function Normal(): CloseReason { CloseReason(1000, Some([])) }

  lemma ClosesNormally(setup: Setup, s: State, f: Frame)
    requires TakesAllOrNothing(setup, s) && !s.closed && Fits(setup.limits, f) && f.header.opcode.Close?
    requires f.payload == NormalClosure() && s.Input() == Wire(f)
    ensures var (t, outcome) := Receive(setup, s);
      && t.closed && t.Input() == [] && outcome == Ok(Incoming.Closing(Normal()))
      && t.wire == s.wire + CloseAnswered(setup, s, Some(Normal()))
  {
    AnswersCode(1000, []);
    assert f.payload + [] == f.payload && Wire(f) + [] == Wire(f);
    hide AnswerClose, Wire, ReplyFrame, ToBigEndian, Iterate, Fits, IsUtf8;
    OnClose(setup, Progress(None, 0, |s.message|), s, f, []);
    ClosedOnlyByAnswer(f.payload);
  }

  lemma ClosedOnlyByAnswer(data: bytes)
    ensures AnswerClose(data).Answer? <==> |data| < 2 || IsUtf8(data[2..])
  {}

  lemma CloseFits(limits: Limits, client: bool, keys: nat -> nat, drawn: nat)
    requires limits.maxDataSize >= 2
    ensures Fits(limits, Frame(Sent(client, keys, drawn, NewHeader(Close), NormalClosure()), NormalClosure()))
  {}

  lemma PutFits(failAt: Option<nat>, wire: bytes, h: Header, data: bytes)
    requires Fit(failAt, wire, h, data)
    ensures Put(failAt, wire, h, data) == wire + FrameBytes(h, data)
  {
    hide EncodeHeader, Masked;
  }

  /** The closing side after its `Sender::close`: the receiver shares the writer and the keys. A writer that was broken
      by closing it takes no more bytes. */
  ghost predicate HasClosed(setup: Setup, s: State, out: Output) {
    var (out1, error) := WriteFrame(out, NewHeader(Close), NormalClosure());
    && error == None && TakesAllOrNothing(setup, s)
    && setup.client == out.client && setup.keys == out.keys && setup.failAt == out.failAt
    && s.wire == out1.wire && s.drawn == out1.drawn
  }

  /** The closing handshake: after `Sender::close` the peer's call returns a normal closure and answers it, and the
      answer makes the closing side's own receiver return the same. Both receivers are closed then. The closing side
      answers the answer: if its writer still takes bytes, it has sent two Close frames. */
  lemma CloseHandshake(setup: Setup, s: State, out: Output, peer: Setup, t: State)
    requires HasClosed(setup, s, out) && Healthy(peer) && !s.closed && !t.closed
    requires setup.limits.maxDataSize >= 2 && peer.limits.maxDataSize >= 2
    requires t.Input() == Wire(CloseFrame(out)) && s.Input() == Wire(ReplyFrame(peer, t.drawn, Close, NormalClosure()))
    ensures var (t', outcome) := Receive(peer, t);
      && t'.closed && outcome == Ok(Incoming.Closing(Normal()))
      && t'.wire == t.wire + Wire(ReplyFrame(peer, t.drawn, Close, NormalClosure()))
    ensures var (s', outcome) := Receive(setup, s);
      && s'.closed && outcome == Ok(Incoming.Closing(Normal()))
      && s'.wire == out.wire + Wire(CloseFrame(out))
        + if setup.failAt.None? then Wire(ReplyFrame(setup, s.drawn, Close, NormalClosure())) else []
  {
    CloseFits(peer.limits, out.client, out.keys, out.drawn);
    CloseFits(setup.limits, peer.client, peer.keys, t.drawn);
    PutFits(out.failAt, out.wire, CloseFrame(out).header, NormalClosure());
    WireOf(CloseFrame(out));
    assert AnswerPayload(Some(Normal())) == NormalClosure();
    hide Receive, Wire, Fits, FrameBytes, Put, Fit, NormalClosure, AnswerPayload;
    ClosesNormally(peer, t, CloseFrame(out));
    ClosesNormally(setup, s, ReplyFrame(peer, t.drawn, Close, NormalClosure()));
  }
}
