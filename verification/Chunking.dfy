/** What `receive` does depends on the bytes still to be received, not on how they are split or delivered. */
module Chunking {
  import opened Bytes
  import opened Base
  import opened Protocol
  import opened Reading
  import Inflation

  /** Two states that differ at most in how much of their input is already in the read buffer. */
  predicate Similar(s: State, t: State) {
    s.Input() == t.Input() && t == s.(buffer := t.buffer, unread := t.unread)
  }

  predicate IsTooLarge(outcome: Outcome) {
    outcome.Err? && outcome.error.MessageTooLarge?
  }

  /** Steps with the same effect on everything but the split of the input; after an oversized message, on everything
      but the input. */
  predicate SameEffect(q: Step, r: Step) {
    match (q, r)
    case (Loop(s, p), Loop(t, p')) => Similar(s, t) && p == p'
    case (Return(s, o), Return(t, o')) =>
      && o == o'
      && if IsTooLarge(o) then t == s.(buffer := t.buffer, unread := t.unread) else Similar(s, t)
    case _ => false
  }

  lemma ControlSameEffect(setup: Setup, p: Progress, s: State, t: State, opcode: OpCode, payload: bytes)
    requires Similar(s, t) && (opcode.Ping? || opcode.Close?)
    ensures SameEffect(OnControl(setup, p, s, opcode, payload), OnControl(setup, p, t, opcode, payload))
  {
    hide Put, Fit, AnswerClose, ToBigEndian;
  }

  lemma DecodedSameEffect(setup: Setup, s: State, t: State, h: Header)
    requires Similar(s, t)
    ensures var ((s', ok), (t', ok')) := (Decoded(setup, s, h), Decoded(setup, t, h));
      Similar(s', t') && ok == ok'
  {
    hide Inflation.Decode;
  }

  lemma DataSameEffect(setup: Setup, p: Progress, s: State, t: State, h: Header)
    requires Similar(s, t)
    ensures SameEffect(OnData(setup, p, s, h), OnData(setup, p, t, h))
  {
    hide Growth, Decoded;
    DecodedSameEffect(setup, s, t, h);
    DecodedSameEffect(setup, s, t, h.(payloadLen := |s.message|));
  }

  lemma FrameSameEffect(setup: Setup, p: Progress, s: State, t: State, h: Header)
    requires Similar(s, t)
    ensures SameEffect(OnFrame(setup, p, s, h), OnFrame(setup, p, t, h))
  {
    hide Masked, OnControl, OnData, Zeros, Drop;
    var n := h.payloadLen;
    if n <= |s.Input()| {
      AdvanceInput(s, n);
      AdvanceInput(t, n);
      var payload := Masked(h, s.Input()[..n]);
      if h.opcode.Ping? || h.opcode.Close? {
        ControlSameEffect(setup, p, s.Advance(n), t.Advance(n), h.opcode, payload);
      } else if !h.opcode.IsControl() {
        DataSameEffect(setup, p.(length := SaturatingAdd(p.length, n)), s.Advance(n).(message := s.message + payload),
          t.Advance(n).(message := s.message + payload), h);
      }
    }
  }

  lemma StepSameEffect(setup: Setup, p: Progress, s: State, t: State)
    requires Similar(s, t)
    ensures SameEffect(Iterate(setup, p, s), Iterate(setup, p, t))
  {
    hide DecodeHeader, OnFrame, NextHeader;
    NextHeaderOfInput(setup.limits, s.buffer, s.unread);
    NextHeaderOfInput(setup.limits, t.buffer, t.unread);
    if !s.closed {
      match DecodeHeader(setup.limits, s.Input()) {
        case Done(h, n) =>
          AdvanceInput(s, n);
          AdvanceInput(t, n);
          FrameSameEffect(setup, p, s.Advance(n), t.Advance(n), h);
        case Failed(_) =>
        case NeedMore(_) =>
      }
    }
  }

  /** Chunking independence: the result, the message, the replies, the flags, and except after an oversized message
      also the bytes left over, depend only on the read buffer and the unread stream together. */
  lemma {:induction false} ChunkingIndependence(setup: Setup, p: Progress, s: State, t: State)
    requires Similar(s, t)
    ensures var ((s', o), (t', o')) := (Continued(setup, p, s), Continued(setup, p, t));
      o == o' && if IsTooLarge(o) then t' == s'.(buffer := t'.buffer, unread := t'.unread) else Similar(s', t')
    decreases |s.Input()|
  {
    hide Iterate;
    StepSameEffect(setup, p, s, t);
    var step := Iterate(setup, p, s);
    if step.Loop? {
      ChunkingIndependence(setup, step.progress, step.state, Iterate(setup, p, t).state);
    }
  }
}
