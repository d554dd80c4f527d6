/** Which bytes `receive` takes, how much the message grows, and where an oversized message leaves the reader. */
module Accounting {
  import opened Bytes
  import opened Base
  import opened Protocol
  import opened Reading
  import opened Chunking
  import HeaderLaws

  // No over-read /////////////////////////////////////////////////////////////////////////////////

  /** `t`'s input is what is left of `s`'s input after some bytes were taken, from the read buffer first; no byte was
      moved from the reader into the buffer. */
  predicate TookFirst(s: State, t: State) {
    var k := |s.Input()| - |t.Input()|;
    k >= 0 && t.buffer == s.Advance(k).buffer && t.unread == s.Advance(k).unread
  }

  /** Did the call run out of input, as far as it can tell? Then there is nothing left to read ahead. */
  predicate RanOut(t: State, outcome: Outcome) {
    outcome == Err(ConnectionClosed) && !t.closed && t.unread == []
  }

  /** A call that stops in front of a header it cannot use has not taken a frame. */
  predicate GotFrame(t: State, outcome: Outcome) {
    !(outcome.Err? && outcome.error.Codec?) && !RanOut(t, outcome)
  }

  /** The bytes that were taken. */
  function TakenBytes(s: State, t: State): bytes
    requires TookFirst(s, t)
  {
    s.Input()[..|s.Input()| - |t.Input()|]
  }

  /** Whole frames were taken. */
  predicate TookFrames(limits: Limits, s: State, t: State) {
    TookFirst(s, t) && IsWhole(limits, TakenBytes(s, t))
  }

  /** Whole frames and one header were taken: the first `k` bytes are the frames. */
  predicate TookHeader(limits: Limits, s: State, t: State, k: nat) {
    && TookFirst(s, t) && k <= |TakenBytes(s, t)| && IsWhole(limits, TakenBytes(s, t)[..k])
    && var d := DecodeHeader(limits, TakenBytes(s, t)[k..]);
      d.Done? && d.offset == |TakenBytes(s, t)| - k
  }

  lemma TookTwice(s: State, t: State, u: State)
    requires TookFirst(s, t) && TookFirst(t, u)
    ensures TookFirst(s, u) && TakenBytes(s, u) == TakenBytes(s, t) + TakenBytes(t, u)
  {
    var j, k := |s.Input()| - |t.Input()|, |t.Input()| - |u.Input()|;
    AdvanceTwice(s, j, k);
    AdvanceInput(s, j);
    assert t.Input() == s.Input()[j..];
  }

  lemma TookFramesTwice(limits: Limits, s: State, t: State, u: State)
    requires TookFrames(limits, s, t) && TookFrames(limits, t, u)
    ensures TookFrames(limits, s, u)
  {
    hide CutFrames, TookFirst, TakenBytes;
    TookTwice(s, t, u);
    WholeThen(limits, TakenBytes(s, t), TakenBytes(t, u));
  }

  lemma TookHeaderLater(limits: Limits, s: State, t: State, u: State, k: nat)
    requires TookFrames(limits, s, t) && TookHeader(limits, t, u, k)
    ensures TookHeader(limits, s, u, |TakenBytes(s, t)| + k)
  {
    hide CutFrames, DecodeHeader, TookFirst, TakenBytes;
    TookTwice(s, t, u);
    var before, after := TakenBytes(s, t), TakenBytes(t, u);
    assert (before + after)[..|before| + k] == before + after[..k] && (before + after)[|before| + k..] == after[k..];
    WholeThen(limits, before, after[..k]);
  }

  /** Where an oversized message leaves the input: everything up to its header was taken; its payload stays in the read
      buffer and is skipped in the reader. */
  predicate SkipsFrom(limits: Limits, s: State, t0: State, k: nat, t: State, length: nat) {
    TookHeader(limits, s, t0, k) && t.buffer == t0.buffer && t.unread == Drop(t0.unread, length)
  }

  /** Where a step leaves the input: whole frames are taken, from the read buffer first. */
  ghost predicate TakesFrame(limits: Limits, s: State, step: Step) {
    match step
    case Loop(t, _) => TookFrames(limits, s, t)
    case Return(t, o) =>
      if IsTooLarge(o) then exists t0: State, k: nat :: SkipsFrom(limits, s, t0, k, t, o.error.current)
      else GotFrame(t, o) ==> TookFrames(limits, s, t)
  }

  lemma NoAdvance(s: State)
    ensures s.Advance(0) == s
  {}

  /** The parts of `ControlKeeps` and `DataKeeps` for a frame whose payload is in the input. */
  lemma UseFrame(setup: Setup, p: Progress, s: State, h: Header)
    requires h.payloadLen <= |s.Input()|
    ensures var step, n := OnFrame(setup, p, s, h), h.payloadLen;
      var t := step.state;
      if step.Return? && IsTooLarge(step.outcome) then
        t == s.(unread := Drop(s.unread, step.outcome.error.current))
      else
        t == s.Advance(n).(
          message := t.message, await := t.await, wire := t.wire, drawn := t.drawn, closed := t.closed)
  {
    hide Masked, OnControl, OnData, Zeros, Drop;
    var n := h.payloadLen;
    var payload := Masked(h, s.Input()[..n]);
    if h.opcode.Ping? || h.opcode.Close? {
      ControlKeeps(setup, p, s.Advance(n), h.opcode, payload);
    } else if !h.opcode.IsControl() {
      DataKeeps(setup, p.(length := SaturatingAdd(p.length, n)), s.Advance(n).(message := s.message + payload), h);
    }
  }

  /** A frame whose payload is not in the input as a whole. */
  lemma ShortFrame(setup: Setup, p: Progress, s: State, h: Header)
    requires !s.closed && h.payloadLen > |s.Input()|
    ensures var step := OnFrame(setup, p, s, h);
      step.Return? &&
      if IsTooLarge(step.outcome) then step.state == s.(unread := Drop(s.unread, step.outcome.error.current))
      else RanOut(step.state, step.outcome)
  {
    hide Masked, Zeros, Drop, OnControl, OnData;
  }

  lemma AdvanceTakes(s: State, k: nat)
    requires k <= |s.Input()|
    ensures TookFirst(s, s.Advance(k)) && TakenBytes(s, s.Advance(k)) == s.Input()[..k]
  {
    AdvanceInput(s, k);
  }

  lemma HeaderTaken(limits: Limits, s: State, n: nat)
    requires DecodeHeader(limits, s.Input()).Done? && DecodeHeader(limits, s.Input()).offset == n
    ensures TookHeader(limits, s, s.Advance(n), 0)
  {
    AdvanceTakes(s, n);
    HeaderOfPrefix(limits, s.Input(), n);
    NothingToCut(limits);
    hide DecodeHeader, CutFrames, State.Advance;
    assert s.Input()[..n][..0] == [] && s.Input()[..n][0..] == s.Input()[..n];
  }

  lemma FrameTaken(limits: Limits, s: State, t: State)
    requires DecodeHeader(limits, s.Input()).Done?
    requires var d := DecodeHeader(limits, s.Input());
      var m := d.offset + d.header.payloadLen;
      m <= |s.Input()| && t.buffer == s.Advance(m).buffer && t.unread == s.Advance(m).unread
    ensures TookFrames(limits, s, t)
  {
    hide DecodeHeader, CutFrames;
    var d := DecodeHeader(limits, s.Input());
    var m := d.offset + d.header.payloadLen;
    AdvanceTakes(s, m);
    OneFrameIsWhole(limits, s.Input());
  }

  lemma NothingTaken(limits: Limits, s: State)
    ensures TookFrames(limits, s, s)
  {
    NoAdvance(s);
    NothingToCut(limits);
    hide CutFrames;
    assert s.Input()[..0] == [];
  }

  lemma StepTakes(setup: Setup, p: Progress, s: State)
    ensures TakesFrame(setup.limits, s, Iterate(setup, p, s))
  {
    hide DecodeHeader, OnFrame, NextHeader, TookFrames, TookHeader, State.Advance;
    if s.closed {
      NothingTaken(setup.limits, s);
      return;
    }
    NextHeaderOfInput(setup.limits, s.buffer, s.unread);
    match DecodeHeader(setup.limits, s.Input()) {
      case Done(h, n) => DecodedStep(setup, p, s, h, n);
      case Failed(_) =>
      case NeedMore(_) =>
    }
  }

  /** A step that got as far as the end of a header. */
  lemma DecodedStep(setup: Setup, p: Progress, s: State, h: Header, n: nat)
    requires !s.closed && DecodeHeader(setup.limits, s.Input()) == Done(h, n)
    ensures TakesFrame(setup.limits, s, Iterate(setup, p, s))
  {
    hide DecodeHeader, OnFrame, NextHeader, State.Advance, State.Input, TakesFrame;
    AdvanceParts(s, n);
    NextHeaderOfInput(setup.limits, s.buffer, s.unread);
    AfterHeader(setup, p, s, h, n);
  }

  lemma AdvanceParts(s: State, n: nat)
    ensures s.Input() == s.buffer + s.unread
    ensures s.Advance(n) == s.(buffer := s.Advance(n).buffer, unread := s.Advance(n).unread)
    ensures s.Advance(n).buffer == Drop(s.buffer, n)
    ensures s.Advance(n).unread == Drop(s.unread, if n <= |s.buffer| then 0 else n - |s.buffer|)
  {}

  lemma AfterHeader(setup: Setup, p: Progress, s: State, h: Header, n: nat)
    requires !s.closed && DecodeHeader(setup.limits, s.Input()) == Done(h, n)
    ensures TakesFrame(setup.limits, s, OnFrame(setup, p, s.Advance(n), h))
  {
    var s1 := s.Advance(n);
    assert !s1.closed;
    AdvanceInput(s, n);
    HeaderTaken(setup.limits, s, n);
    AdvanceTwice(s, n, h.payloadLen);
    hide DecodeHeader, OnFrame, TookFrames, TookHeader, State.Advance, Drop, State.Input, RanOut;
    var step := OnFrame(setup, p, s1, h);
    if h.payloadLen > |s1.Input()| {
      ShortFrame(setup, p, s1, h);
    } else {
      UseFrame(setup, p, s1, h);
    }
    if step.Return? && IsTooLarge(step.outcome) {
      assert SkipsFrom(setup.limits, s, s1, 0, step.state, step.outcome.error.current);
    } else if h.payloadLen <= |s1.Input()| {
      FrameTaken(setup.limits, s, step.state);
    }
  }

  /** No over-read: a call takes whole frames, from the read buffer first, and never reads ahead. */
  lemma {:induction false} TakesWholeFrames(setup: Setup, p: Progress, s: State)
    ensures var (s', o) := Continued(setup, p, s);
      TakesFrame(setup.limits, s, Return(s', o))
    decreases |s.Input()|
  {
    hide Iterate, TookFrames, TookHeader, RanOut;
    StepTakes(setup, p, s);
    var step := Iterate(setup, p, s);
    if step.Loop? {
      TakesWholeFrames(setup, step.progress, step.state);
      var (s', o) := Continued(setup, step.progress, step.state);
      if IsTooLarge(o) {
        var t0: State, k: nat :| SkipsFrom(setup.limits, step.state, t0, k, s', o.error.current);
        FramesFirst(setup.limits, s, step.state);
        TookHeaderLater(setup.limits, s, step.state, t0, k);
        assert SkipsFrom(setup.limits, s, t0, |TakenBytes(s, step.state)| + k, s', o.error.current);
      } else if GotFrame(s', o) {
        TookFramesTwice(setup.limits, s, step.state, s');
      }
    }
  }

  lemma FramesFirst(limits: Limits, s: State, t: State)
    requires TookFrames(limits, s, t)
    ensures TookFirst(s, t)
  {}

  /** An empty read buffer is empty again after every call that is not stopped by a bad header or by the end of the
      stream, also after one that fails in answering a control frame. */
  lemma NoOverRead(setup: Setup, s: State)
    requires s.buffer == [] && GotFrame(Receive(setup, s).0, Receive(setup, s).1)
    ensures Receive(setup, s).0.buffer == []
  {
    TakesWholeFrames(setup, Progress(None, 0, |s.message|), s);
  }

  // Size conservation ////////////////////////////////////////////////////////////////////////////

  /** The loop's account of the message: it has grown by the payload bytes accepted so far. */
  predicate Accounted(setup: Setup, p: Progress, s: State) {
    s.await.None? && p.length == |s.message| - p.start && p.length <= setup.maxMessageSize < USIZE_MAX
  }

  /** A step without an extension keeps the earlier message, keeps the account, and counts the growth exactly. */
  lemma StepConserves(setup: Setup, p: Progress, s: State)
    requires Accounted(setup, p, s)
    ensures var step := Iterate(setup, p, s);
      && s.message <= step.state.message && |step.state.message| - p.start <= setup.maxMessageSize
      && (step.Loop? ==> Accounted(setup, step.progress, step.state) && step.progress.start == p.start)
      && (step.Return? && step.outcome.Ok? ==>
        match step.outcome.incoming
        case TextData(n) => n == |step.state.message| - p.start
        case BinaryData(n) => n == |step.state.message| - p.start
        case _ => true)
  {
    hide NextHeader, OnControl, OnData, Masked, Drop;
    var next := NextHeader(setup.limits, s.buffer, s.unread);
    if !s.closed && next.Got? {
      var h, s1 := next.header, s.(buffer := next.buffer, unread := next.unread);
      var n := h.payloadLen;
      if n <= |s1.Input()| {
        var payload := Masked(h, s1.Input()[..n]);
        if h.opcode.Ping? || h.opcode.Close? {
          ControlKeeps(setup, p, s1.Advance(n), h.opcode, payload);
        } else if !h.opcode.IsControl() {
          DataKeeps(setup, p.(length := SaturatingAdd(p.length, n)), s1.Advance(n).(message := s.message + payload), h);
        }
      }
    }
  }

  /** Size conservation: the caller's bytes stay, the message never grows beyond the maximum, and a returned size is
      the growth. */
  lemma {:induction false} SizeConservation(setup: Setup, p: Progress, s: State)
    requires Accounted(setup, p, s)
    ensures var (s', o) := Continued(setup, p, s);
      && s.message <= s'.message && |s'.message| - p.start <= setup.maxMessageSize
      && (o.Ok? && o.incoming.TextData? ==> o.incoming.size == |s'.message| - p.start)
      && (o.Ok? && o.incoming.BinaryData? ==> o.incoming.size == |s'.message| - p.start)
    decreases |s.Input()|
  {
    hide Iterate;
    StepConserves(setup, p, s);
    var step := Iterate(setup, p, s);
    if step.Loop? {
      SizeConservation(setup, step.progress, step.state);
    }
  }

  // Oversized messages ///////////////////////////////////////////////////////////////////////////

  /** The input `all` with its first `k` bytes in the read buffer. */
  function SplitInput(s: State, all: bytes, k: nat): State
    requires k <= |all|
  {
    s.(buffer := all[..k], unread := all[k..])
  }

  /** An oversized data frame ends the call; the accumulated length is skipped in the reader, whatever the read buffer
      holds. */
  lemma OversizeStep(setup: Setup, p: Progress, s: State, f: Frame, rest: bytes)
    requires !s.closed && Fits(setup.limits, f) && !f.header.opcode.IsControl() && s.Input() == Wire(f) + rest
    requires SaturatingAdd(p.length, |f.payload|) > setup.maxMessageSize
    ensures var s1, length := s.Advance(|EncodeHeader(f.header)|), SaturatingAdd(p.length, |f.payload|);
      && s1.Input() == Masked(f.header, f.payload) + rest
      && Iterate(setup, p, s) ==
        Return(s1.(unread := Drop(s1.unread, length)), Err(MessageTooLarge(length, setup.maxMessageSize)))
  {
    HeaderOfFrame(setup.limits, s, f, rest);
    hide Wire, EncodeHeader, Masked, NextHeader, State.Advance, Drop;
  }

  /** Does the call end exactly behind the oversized frame? */
  predicate LandsOn(step: Step, rest: bytes) {
    step.Return? && IsTooLarge(step.outcome) && step.state.Input() == rest
  }

  function Repeat(b: byte, n: nat): (bs: bytes)
    ensures |bs| == n && forall i | 0 <= i < n :: bs[i] == b
  {
    seq(n, _ => b)
  }

  /** The oversize branch resynchronises for every continuation of the stream exactly when the read buffer holds
      nothing beyond the header and no payload byte was accepted before. */
  lemma ResyncExactly(setup: Setup, p: Progress, s: State, f: Frame, k: nat)
    requires !s.closed && Fits(setup.limits, f) && !f.header.opcode.IsControl()
    requires p.length <= setup.maxMessageSize < SaturatingAdd(p.length, |f.payload|)
    ensures
      (forall rest: bytes | k <= |Wire(f) + rest| :: LandsOn(Iterate(setup, p, SplitInput(s, Wire(f) + rest, k)), rest))
      <==> k <= |EncodeHeader(f.header)| && SaturatingAdd(p.length, |f.payload|) == |f.payload|
  {
    hide Iterate, Wire, EncodeHeader, Fits;
    if k <= |EncodeHeader(f.header)| && SaturatingAdd(p.length, |f.payload|) == |f.payload| {
      forall rest: bytes | k <= |Wire(f) + rest|
        ensures LandsOn(Iterate(setup, p, SplitInput(s, Wire(f) + rest, k)), rest)
      {
        WireParts(f);
        OversizeStep(setup, p, SplitInput(s, Wire(f) + rest, k), f, rest);
      }
    } else {
      var rest := MissedBy(setup, p, s, f, k);
    }
  }

  /** A continuation of the stream that the oversize branch does not land on. */
  lemma MissedBy(setup: Setup, p: Progress, s: State, f: Frame, k: nat) returns (rest: bytes)
    requires !s.closed && Fits(setup.limits, f) && !f.header.opcode.IsControl()
    requires p.length <= setup.maxMessageSize < SaturatingAdd(p.length, |f.payload|)
    requires !(k <= |EncodeHeader(f.header)| && SaturatingAdd(p.length, |f.payload|) == |f.payload|)
    ensures k <= |Wire(f) + rest| && !LandsOn(Iterate(setup, p, SplitInput(s, Wire(f) + rest, k)), rest)
  {
    var head, body, length := EncodeHeader(f.header), Masked(f.header, f.payload), SaturatingAdd(p.length, |f.payload|);
    var other: byte := if body[0] == 0 then 1 else 0;
    rest := Repeat(other, length + k + 1);
    WireParts(f);
    hide Iterate, Wire, EncodeHeader, Masked, Fits;
    OversizeStep(setup, p, SplitInput(s, Wire(f) + rest, k), f, rest);
    var s1 := SplitInput(s, Wire(f) + rest, k).Advance(|head|);
    assert s1.Input() == body + rest;
    var left := s1.buffer + Drop(s1.unread, length);
    if k > |head| {
      assert left[0] == s1.buffer[0] == s1.Input()[0] == body[0] != rest[0];
    } else {
      assert s1.buffer == [] && |left| != |rest|;
    }
  }

  lemma WireParts(f: Frame)
    ensures Wire(f) == EncodeHeader(f.header) + Masked(f.header, f.payload)
  {}

  /** With an empty read buffer, an unfragmented oversized message is skipped: the state is as if the frame had not
      been sent. */
  lemma OversizeIsSkipped(setup: Setup, s: State, f: Frame, rest: bytes)
    requires !s.closed && s.buffer == [] && Fits(setup.limits, f) && !f.header.opcode.IsControl()
    requires |f.payload| > setup.maxMessageSize && s.unread == Wire(f) + rest
    ensures Receive(setup, s) == (s.(unread := rest), Err(MessageTooLarge(|f.payload|, setup.maxMessageSize)))
  {
    OversizeStep(setup, Progress(None, 0, |s.message|), s, f, rest);
    hide Iterate, Wire, EncodeHeader, Masked, Fits;
  }

  /** The error names the payload bytes accepted so far together with the frame's, or the largest machine word if they
      are more. */
  lemma OversizeReported(setup: Setup, p: Progress, s: State, f: Frame, rest: bytes)
    requires !s.closed && Fits(setup.limits, f) && !f.header.opcode.IsControl() && s.Input() == Wire(f) + rest
    requires SaturatingAdd(p.length, |f.payload|) > setup.maxMessageSize
    ensures var sum, most := p.length + |f.payload|, 0xFFFF_FFFF_FFFF_FFFF;
      Continued(setup, p, s).1 == Err(MessageTooLarge(if sum <= most then sum else most, setup.maxMessageSize))
  {
    hide Iterate, Wire, EncodeHeader, Masked, Fits, Drop;
    OversizeStep(setup, p, s, f, rest);
  }

  /** The size that is returned is the growth modulo 2 to the 64, also if an inflated message is shorter than what was
      there before. */
  lemma GrowthIsModular(start: nat, message: bytes)
    ensures Growth(start, message) < 0x1_0000_0000_0000_0000
    ensures (Growth(start, message) + start) % 0x1_0000_0000_0000_0000 == |message| % 0x1_0000_0000_0000_0000
  {
    assert USIZE_MAX + 1 == 0x1_0000_0000_0000_0000;
  }

  /** A frame that the end of the stream cuts off in its payload: the call fails. Of a data frame, the bytes that came
      are in the message as they came, followed by zeroes; of a control frame, they are in the read buffer like that. */
  lemma TruncatedFrame(setup: Setup, p: Progress, s: State, f: Frame, k: nat)
    requires !s.closed && Fits(setup.limits, f)
    requires |EncodeHeader(f.header)| <= k < |Wire(f)| && s.Input() == Wire(f)[..k]
    requires !f.header.opcode.IsControl() ==> SaturatingAdd(p.length, |f.payload|) <= setup.maxMessageSize
    ensures var t := Continued(setup, p, s).0;
      var came := Wire(f)[|EncodeHeader(f.header)|..k] + Zeros(|Wire(f)| - k);
      && Continued(setup, p, s).1 == Err(ConnectionClosed) && t.unread == [] && t.wire == s.wire
      && if f.header.opcode.IsControl() then t.buffer == came && t.message == s.message
         else t.buffer == [] && t.message == s.message + came
  {
    var s1 := s.Advance(|EncodeHeader(f.header)|);
    var part := Wire(f)[|EncodeHeader(f.header)|..k];
    HeaderOfPart(setup.limits, s, f, k);
    hide EncodeHeader, NextHeader, Masked, Zeros, Wire, State.Advance, OnFrame;
    TruncatedPayload(setup, p, s1, f.header, part);
  }

  lemma HeaderOfPart(limits: Limits, s: State, f: Frame, k: nat)
    requires Fits(limits, f) && |EncodeHeader(f.header)| <= k <= |Wire(f)| && s.Input() == Wire(f)[..k]
    ensures var s1 := s.Advance(|EncodeHeader(f.header)|);
      && NextHeader(limits, s.buffer, s.unread) == Got(f.header, s1.buffer, s1.unread)
      && s1 == s.(buffer := s1.buffer, unread := s1.unread)
      && s1.Input() == Wire(f)[|EncodeHeader(f.header)|..k]
      && |Wire(f)| == |EncodeHeader(f.header)| + f.header.payloadLen
  {
    var head, body := EncodeHeader(f.header), Masked(f.header, f.payload);
    assert |body| == f.header.payloadLen && Wire(f) == head + body;
    HeaderLaws.HeaderRoundTrip(limits, f.header, body[..k - |head|]);
    hide DecodeHeader, EncodeHeader, NextHeader, Masked, Wire, Fits;
    var part := body[..k - |head|];
    assert Wire(f)[..k] == head + part && Wire(f)[|head|..k] == part;
    NextHeaderOfInput(limits, s.buffer, s.unread);
    AdvanceInput(s, |head|);
  }

  lemma TruncatedPayload(setup: Setup, p: Progress, s: State, h: Header, part: bytes)
    requires s.Input() == part && |part| < h.payloadLen
    requires !h.opcode.IsControl() ==> SaturatingAdd(p.length, h.payloadLen) <= setup.maxMessageSize
    ensures var step := OnFrame(setup, p, s, h);
      var came := part + Zeros(h.payloadLen - |part|);
      step == Return(
        if h.opcode.IsControl() then s.(buffer := came, unread := [])
        else s.(buffer := [], unread := [], message := s.message + came),
        Err(ConnectionClosed))
  {
    hide Masked, Zeros, OnControl, OnData, Drop;
    AppendAssociates(s.message, part, Zeros(h.payloadLen - |part|));
  }
}
