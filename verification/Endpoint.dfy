/** One end of a connection over a whole life: calls of its Sender and its Receiver in any order. */
module Endpoint {
  import opened Bytes
  import opened Base
  import opened Protocol
  import opened Reading
  import opened Reassembly
  import opened Closing
  import opened Delivery
  import Inflation

  /** A call at this end: `receive` after some more bytes arrived, one of the sends, or `close`. */
  datatype Action = Receiving(message: bytes, arrived: bytes) | Sending(send: Send) | Ending

  /** The writer and the keys, which both halves share. */
  function OutputOf(setup: Setup, s: State): Output {
    Output(setup.client, setup.keys, s.drawn, setup.failAt, s.wire)
  }

  function AfterAction(setup: Setup, encoder: Option<Inflation.Encoder>, s: State, a: Action): State {
    match a
    case Receiving(message, arrived) => Receive(setup, s.(message := message, unread := s.unread + arrived)).0
    case Sending(send) =>
      var out := AfterSend(OutputOf(setup, s), encoder, send);
      s.(wire := out.wire, drawn := out.drawn)
    case Ending =>
      var out := WriteFrame(OutputOf(setup, s), NewHeader(Close), NormalClosure()).0;
      s.(wire := out.wire, drawn := out.drawn)
  }

  function AfterActions(setup: Setup, encoder: Option<Inflation.Encoder>, s: State, actions: seq<Action>): State
    decreases |actions|
  {
    if actions == [] then s else AfterActions(setup, encoder, AfterAction(setup, encoder, s, actions[0]), actions[1..])
  }

  /** The number of Close frames. */
  function Closes(fs: seq<Frame>): nat {
    if fs == [] then 0 else (if fs[0].header.opcode.Close? then 1 else 0) + Closes(fs[1..])
  }

  /** The number of calls of `close`. */
  function Endings(actions: seq<Action>): nat {
    if actions == [] then 0 else (if actions[0].Ending? then 1 else 0) + Endings(actions[1..])
  }

  lemma {:induction false} ClosesConcat(fs: seq<Frame>, gs: seq<Frame>)
    ensures Closes(fs + gs) == Closes(fs) + Closes(gs)
  {
    if fs == [] {
      assert fs + gs == gs;
    } else {
      assert (fs + gs)[1..] == fs[1..] + gs;
      ClosesConcat(fs[1..], gs);
    }
  }

  lemma {:induction false} NoCloses(fs: seq<Frame>)
    requires forall f | f in fs :: !f.header.opcode.Close?
    ensures Closes(fs) == 0
  {
    if fs != [] {
      NoCloses(fs[1..]);
    }
  }

  lemma TalkCloses(rs: seq<Frame>, closed: bool)
    requires IsTalk(rs, closed)
    ensures Closes(rs) == if closed then 1 else 0
  {
    if closed {
      var front, last := rs[..|rs| - 1], rs[|rs| - 1];
      assert rs == front + [last];
      ClosesConcat(front, [last]);
      NoCloses(front);
      assert [last][1..] == [];
    } else {
      NoCloses(rs);
    }
  }

  lemma OneFrame(f: Frame)
    ensures Wires([f]) == Wire(f) && Closes([f]) == if f.header.opcode.Close? then 1 else 0
  {
    hide Wire;
    assert [f][1..] == [];
  }

  lemma EndingWrites(setup: Setup, s: State)
    requires Healthy(setup)
    ensures WriteFrame(OutputOf(setup, s), NewHeader(Close), NormalClosure()).0.wire
      == s.wire + Wire(CloseFrame(OutputOf(setup, s)))
    ensures CloseFrame(OutputOf(setup, s)).header.opcode.Close?
  {
    hide Put, Fit, FrameBytes;
    var f := CloseFrame(OutputOf(setup, s));
    PutWhole(s.wire, f.header, f.payload);
    WireOf(f);
  }

  lemma SendingWrites(setup: Setup, encoder: Option<Inflation.Encoder>, s: State, send: Send) returns (fs: seq<Frame>)
    requires Healthy(setup)
    ensures AfterSend(OutputOf(setup, s), encoder, send).wire == s.wire + Wires(fs) && Closes(fs) == 0
  {
    var out := OutputOf(setup, s);
    if Prepared(encoder, send).ok {
      SendsFrame(out, encoder, send);
      fs := [SentFrame(out, encoder, send)];
      SentCarries(out, encoder, send);
      assert !fs[0].header.opcode.Close?;
      OneFrame(fs[0]);
    } else {
      fs := [];
      NoWires();
    }
  }

  /** What one call writes: whole frames, with a Close for `close` and for a `receive` that closes the receiver. */
  lemma ActionWrites(setup: Setup, encoder: Option<Inflation.Encoder>, s: State, a: Action) returns (fs: seq<Frame>)
    requires Healthy(setup)
    ensures var t := AfterAction(setup, encoder, s, a);
      && t.wire == s.wire + Wires(fs) && (s.closed ==> t.closed)
      && Closes(fs) == (if a.Ending? then 1 else 0) + if t.closed && !s.closed then 1 else 0
  {
    hide Wires, Wire, IsTalk, Continued, AfterSend, CloseFrame, WriteFrame;
    match a {
      case Receiving(message, arrived) =>
        var s1 := s.(message := message, unread := s.unread + arrived);
        if s.closed {
          StaysClosed(setup, Progress(None, 0, |message|), s1);
          fs := [];
          NoWires();
        } else {
          fs := CallReplies(setup, Progress(None, 0, |message|), s1);
          TalkCloses(fs, AfterAction(setup, encoder, s, a).closed);
        }
      case Sending(send) => fs := SendingWrites(setup, encoder, s, send);
      case Ending =>
        EndingWrites(setup, s);
        fs := [CloseFrame(OutputOf(setup, s))];
        OneFrame(fs[0]);
    }
  }

  /** While the writer takes every byte, also after it was closed: over any life of an end, its wire grows by whole
      frames, with one Close for each call of `close` and one more if its receiver was closed by the peer. So an end
      whose receiver is closed has sent exactly one Close if and only if its own `close` was not called. */
  lemma {:induction false} ClosesSent(
    setup: Setup, encoder: Option<Inflation.Encoder>, s: State, actions: seq<Action>) returns (fs: seq<Frame>)
    requires Healthy(setup)
    ensures var t := AfterActions(setup, encoder, s, actions);
      && t.wire == s.wire + Wires(fs) && (s.closed ==> t.closed)
      && Closes(fs) == Endings(actions) + (if t.closed && !s.closed then 1 else 0)
      && (t.closed && !s.closed ==> (Closes(fs) == 1 <==> Ending !in actions))
    decreases |actions|
  {
    hide AfterAction, Wires;
    fs := [];
    if actions == [] {
      NoWires();
    } else {
      var a, more := actions[0], actions[1..];
      fs := ActionWrites(setup, encoder, s, a);
      var s1 := AfterAction(setup, encoder, s, a);
      var gs := ClosesSent(setup, encoder, s1, more);
      WiresConcat(fs, gs);
      ClosesConcat(fs, gs);
      AppendAssociates(s.wire, Wires(fs), Wires(gs));
      fs := fs + gs;
    }
    EndingsCounted(actions);
  }

  lemma {:induction false} EndingsCounted(actions: seq<Action>)
    ensures Endings(actions) == 0 <==> Ending !in actions
  {
    if actions != [] {
      assert actions == [actions[0]] + actions[1..];
      EndingsCounted(actions[1..]);
    }
  }

  // A writer that closing breaks ///////////////////////////////////////////////////////////////////

  /** An end, and whether its writer was closed. */
  datatype End = End(state: State, shut: bool)

  /** A writer that was closed takes no more bytes; whether it can still be flushed is its own affair. */
  function SetupOf(setup: Setup, flushes: bool, e: End): Setup {
    if e.shut then setup.(failAt := Some(|e.state.wire|), flushes := flushes) else setup
  }

  /** Does this call close the writer? `close` does if it gets that far, and so does a `receive` that closes the
      receiver. */
  predicate Shuts(setup: Setup, s: State, t: State, a: Action) {
    if a.Ending? then
      WriteFrame(OutputOf(setup, s), NewHeader(Close), NormalClosure()).1 == None && setup.flushes
    else t.closed && !s.closed
  }

  function AfterCall(setup: Setup, flushes: bool, encoder: Option<Inflation.Encoder>, e: End, a: Action): End {
    var setup' := SetupOf(setup, flushes, e);
    var t := AfterAction(setup', encoder, e.state, a);
    End(t, e.shut || Shuts(setup', e.state, t, a))
  }

  function Life(setup: Setup, flushes: bool, encoder: Option<Inflation.Encoder>, e: End, actions: seq<Action>): End
    decreases |actions|
  {
    if actions == [] then e
    else Life(setup, flushes, encoder, AfterCall(setup, flushes, encoder, e, actions[0]), actions[1..])
  }

  lemma ControlSilent(setup: Setup, p: Progress, s: State, opcode: OpCode, data: bytes)
    requires setup.failAt == Some(|s.wire|) && (opcode.Ping? || opcode.Close?)
    ensures OnControl(setup, p, s, opcode, data).state.wire == s.wire
  {
    hide Put, Fit, AnswerClose, AnswerPayload, Reply;
    PutNothing(s.wire, Reply(setup, s, Pong, data), data);
    var answer := AnswerClose(data);
    if answer.Answer? {
      var payload := AnswerPayload(answer.reason);
      PutNothing(s.wire, Reply(setup, s, Close, payload), payload);
    }
  }

  /** A receiver whose writer takes nothing writes nothing. */
  lemma StepSilent(setup: Setup, p: Progress, s: State)
    requires setup.failAt == Some(|s.wire|)
    ensures Iterate(setup, p, s).state.wire == s.wire
  {
    hide NextHeader, OnControl, OnData, Masked, Drop, Zeros;
    var next := NextHeader(setup.limits, s.buffer, s.unread);
    if !s.closed && next.Got? {
      var h, s1 := next.header, s.(buffer := next.buffer, unread := next.unread);
      var n := h.payloadLen;
      if n <= |s1.Input()| {
        var payload := Masked(h, s1.Input()[..n]);
        if h.opcode.Ping? || h.opcode.Close? {
          ControlSilent(setup, p, s1.Advance(n), h.opcode, payload);
        } else if !h.opcode.IsControl() {
          var s2 := s1.Advance(n).(message := s1.message + payload);
          DataKeeps(setup, p.(length := SaturatingAdd(p.length, n)), s2, h);
        }
      }
    }
  }

  lemma {:induction false} ReceivingSilent(setup: Setup, p: Progress, s: State)
    requires setup.failAt == Some(|s.wire|)
    ensures Continued(setup, p, s).0.wire == s.wire
    decreases |s.Input()|
  {
    hide Iterate;
    StepSilent(setup, p, s);
    var step := Iterate(setup, p, s);
    if step.Loop? {
      ReceivingSilent(setup, step.progress, step.state);
    }
  }

  lemma WritingSilent(out: Output, h: Header, data: bytes)
    requires out.failAt == Some(|out.wire|)
    ensures WriteFrame(out, h, data).0.wire == out.wire
  {
    hide Put, Fit, Sent;
    PutNothing(out.wire, Sent(out.client, out.keys, out.drawn, h, data), data);
  }

  lemma SendingSilent(out: Output, encoder: Option<Inflation.Encoder>, send: Send)
    requires out.failAt == Some(|out.wire|)
    ensures AfterSend(out, encoder, send).wire == out.wire
  {
    hide WriteFrame, Inflation.Encode;
    WritingSilent(out, NewHeader(send.OpCode()), send.data);
    if encoder.Some? {
      var e := Inflation.Encode(encoder.value, NewHeader(send.OpCode()), send.data);
      WritingSilent(out, e.header, e.data);
    }
  }

  /** No call writes anything to a writer that takes nothing, and none opens the receiver again. */
  lemma ActionSilent(setup: Setup, encoder: Option<Inflation.Encoder>, s: State, a: Action)
    requires setup.failAt == Some(|s.wire|)
    ensures var t := AfterAction(setup, encoder, s, a);
      t.wire == s.wire && (s.closed ==> t.closed)
  {
    hide Continued, AfterSend, WriteFrame;
    var out := OutputOf(setup, s);
    match a {
      case Receiving(message, arrived) =>
        var s1 := s.(message := message, unread := s.unread + arrived);
        ReceivingSilent(setup, Progress(None, 0, |message|), s1);
        if s.closed {
          StaysClosed(setup, Progress(None, 0, |message|), s1);
        }
      case Sending(send) => SendingSilent(out, encoder, send);
      case Ending => WritingSilent(out, NewHeader(Close), NormalClosure());
    }
  }

  /** Once its writer was closed, an end writes nothing any more. */
  lemma {:induction false} NothingAfterShut(
    setup: Setup, flushes: bool, encoder: Option<Inflation.Encoder>, e: End, actions: seq<Action>)
    requires e.shut
    ensures var after := Life(setup, flushes, encoder, e, actions);
      after.shut && after.state.wire == e.state.wire && (e.state.closed ==> after.state.closed)
    decreases |actions|
  {
    hide AfterAction, Shuts;
    if actions != [] {
      ActionSilent(SetupOf(setup, flushes, e), encoder, e.state, actions[0]);
      NothingAfterShut(setup, flushes, encoder, AfterCall(setup, flushes, encoder, e, actions[0]), actions[1..]);
    }
  }

  lemma EndingShuts(setup: Setup, s: State)
    requires Healthy(setup)
    ensures WriteFrame(OutputOf(setup, s), NewHeader(Close), NormalClosure()).1 == None
  {
    hide Put, EncodeHeader, FrameBytes;
    var f := CloseFrame(OutputOf(setup, s));
    PutWhole(s.wire, f.header, f.payload);
  }

  /** One call at an end that is open: it closes the writer exactly if it writes a Close. */
  lemma CallWrites(setup: Setup, flushes: bool, encoder: Option<Inflation.Encoder>, e: End, a: Action)
    returns (fs: seq<Frame>)
    requires Healthy(setup) && !e.shut && !e.state.closed
    ensures var after := AfterCall(setup, flushes, encoder, e, a);
      && after.state.wire == e.state.wire + Wires(fs)
      && Closes(fs) == (if after.shut then 1 else 0)
      && (after.shut <==> a.Ending? || after.state.closed)
  {
    hide AfterAction, Wires, WriteFrame;
    fs := ActionWrites(setup, encoder, e.state, a);
    EndingShuts(setup, e.state);
    EndingKeepsOpen(setup, encoder, e.state);
  }

  lemma EndingKeepsOpen(setup: Setup, encoder: Option<Inflation.Encoder>, s: State)
    ensures AfterAction(setup, encoder, s, Ending).closed == s.closed
  {}

  /** An end whose writer takes nothing once it was closed: over any life from an open end on, the wire grows by whole
      frames with exactly one Close if `close` was called or the receiver was closed, and no Close otherwise. */
  lemma {:induction false} ClosesSentOnce(
    setup: Setup, flushes: bool, encoder: Option<Inflation.Encoder>, e: End, actions: seq<Action>)
    returns (fs: seq<Frame>)
    requires Healthy(setup) && !e.shut && !e.state.closed
    ensures var after := Life(setup, flushes, encoder, e, actions);
      && after.state.wire == e.state.wire + Wires(fs)
      && Closes(fs) == (if Ending in actions || after.state.closed then 1 else 0)
      && (after.shut <==> Closes(fs) == 1)
    decreases |actions|
  {
    hide AfterCall, Wires;
    fs := [];
    if actions == [] {
      NoWires();
    } else {
      var a, more := actions[0], actions[1..];
      assert actions == [a] + more;
      fs := CallWrites(setup, flushes, encoder, e, a);
      var e1 := AfterCall(setup, flushes, encoder, e, a);
      if e1.shut {
        NothingAfterShut(setup, flushes, encoder, e1, more);
      } else {
        var gs := ClosesSentOnce(setup, flushes, encoder, e1, more);
        WiresConcat(fs, gs);
        ClosesConcat(fs, gs);
        AppendAssociates(e.state.wire, Wires(fs), Wires(gs));
        fs := fs + gs;
      }
    }
  }
}
