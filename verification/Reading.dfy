/** How headers and frames come out of the bytes still to be received, however they are split and delivered. */
module Reading {
  import opened Bytes
  import opened Base
  import opened HeaderLaws
  import opened Protocol
  import Inflation

  /** A header is the same, and leaves the same bytes, however little a read delivers. */
  lemma {:induction false} ShortReadsSameHeader(limits: Limits, buffer: bytes, unread: bytes, k: nat)
    requires DecodeHeader(limits, buffer).NeedMore?
    requires 0 < k <= Min(DecodeHeader(limits, buffer).count, |unread|)
    ensures NextHeader(limits, buffer + unread[..k], unread[k..]) == NextHeader(limits, buffer, unread)
  {
    hide DecodeHeader;
    var n := DecodeHeader(limits, buffer).count;
    DecodeExtends(limits, buffer, unread[..k]);
    if k < n && k < |unread| {
      var j := Min(n - k, |unread| - k);
      assert buffer + unread[..k] + unread[k..][..j] == buffer + unread[..k + j];
      assert unread[k..][j..] == unread[k + j..];
    }
  }

  /** The next header depends only on the input as a whole; it is taken from the read buffer first, and no
      byte beyond it leaves the reader. */
  lemma {:induction false} NextHeaderOfInput(limits: Limits, buffer: bytes, unread: bytes)
    ensures var r := NextHeader(limits, buffer, unread);
      match DecodeHeader(limits, buffer + unread)
      case Done(h, n) => r == Got(h, Drop(buffer, n), Drop(unread, if n <= |buffer| then 0 else n - |buffer|))
      case Failed(e) => r.Bad? && r.error == Codec(e) && r.buffer + r.unread == buffer + unread
      case NeedMore(_) => r == Bad(ConnectionClosed, buffer + unread, [])
    decreases |unread|
  {
    hide DecodeHeader;
    DecodeExtends(limits, buffer, unread);
    var d := DecodeHeader(limits, buffer);
    if d.NeedMore? {
      var k := Min(d.count, |unread|);
      if k == 0 {
        assert buffer + unread == buffer;
      } else {
        assert buffer + unread[..k] + unread[k..] == buffer + unread;
        NextHeaderOfInput(limits, buffer + unread[..k], unread[k..]);
      }
    }
  }

  lemma AdvanceInput(s: State, k: nat)
    requires k <= |s.Input()|
    ensures s.Advance(k).Input() == s.Input()[k..]
  {}

  lemma AdvanceTwice(s: State, i: nat, j: nat)
    ensures s.Advance(i).Advance(j) == s.Advance(i + j)
  {}

  /** A frame with its payload in the clear. */
  datatype Frame = Frame(header: Header, payload: bytes)

  predicate Fits(limits: Limits, f: Frame) {
    Admits(limits, f.header) && |f.payload| == f.header.payloadLen
  }

  function Wire(f: Frame): bytes { FrameBytes(f.header, f.payload) }

  function Wires(fs: seq<Frame>): bytes {
    if fs == [] then [] else Wire(fs[0]) + Wires(fs[1..])
  }

  lemma {:induction false} WiresConcat(fs: seq<Frame>, gs: seq<Frame>)
    ensures Wires(fs + gs) == Wires(fs) + Wires(gs)
  {
    if fs == [] {
      assert fs + gs == gs;
    } else {
      assert (fs + gs)[1..] == fs[1..] + gs;
      WiresConcat(fs[1..], gs);
    }
  }

  lemma PrependWire(f: Frame, fs: seq<Frame>)
    ensures Wires([f] + fs) == Wire(f) + Wires(fs)
  {
    assert ([f] + fs)[1..] == fs;
  }

  lemma WiresSplit(fs: seq<Frame>, i: nat)
    requires i < |fs|
    ensures Wires(fs) == Wires(fs[..i]) + (Wire(fs[i]) + Wires(fs[i + 1..]))
  {
    hide Wire, Wires;
    assert fs == fs[..i] + fs[i..] && fs[i..] == [fs[i]] + fs[i + 1..];
    WiresConcat(fs[..i], fs[i..]);
    PrependWire(fs[i], fs[i + 1..]);
  }

  /** Cut bytes into frames, as far as they go: the frames, and what is left. */
  function CutFrames(limits: Limits, bs: bytes): (seq<Frame>, bytes)
    decreases |bs|
  {
    match DecodeHeader(limits, bs)
    case Done(h, n) =>
      if |bs| < n + h.payloadLen then ([], bs)
      else
        var (fs, rest) := CutFrames(limits, bs[n + h.payloadLen..]);
        ([Frame(h, Masked(h, bs[n..n + h.payloadLen]))] + fs, rest)
    case _ => ([], bs)
  }

  /** A header is decided by its own bytes. */
  lemma HeaderOfPrefix(limits: Limits, bs: bytes, m: nat)
    requires DecodeHeader(limits, bs).Done? && DecodeHeader(limits, bs).offset <= m <= |bs|
    ensures DecodeHeader(limits, bs[..m]) == DecodeHeader(limits, bs)
  {
    hide DecodeHeader;
    assert bs[..m] + bs[m..] == bs;
    DecodeExtends(limits, bs[..m], bs[m..]);
  }

  /** Do the bytes consist of whole frames? */
  predicate IsWhole(limits: Limits, bs: bytes) { CutFrames(limits, bs).1 == [] }

  lemma OneFrameIsWhole(limits: Limits, bs: bytes)
    requires DecodeHeader(limits, bs).Done?
    requires DecodeHeader(limits, bs).offset + DecodeHeader(limits, bs).header.payloadLen <= |bs|
    ensures IsWhole(limits, bs[..DecodeHeader(limits, bs).offset + DecodeHeader(limits, bs).header.payloadLen])
  {
    hide DecodeHeader, Masked;
    var m := DecodeHeader(limits, bs).offset + DecodeHeader(limits, bs).header.payloadLen;
    HeaderOfPrefix(limits, bs, m);
    NothingToCut(limits);
    assert bs[..m][m..] == [];
  }

  lemma NothingToCut(limits: Limits)
    ensures CutFrames(limits, []) == ([], [])
  {}

  lemma {:induction false} WholeThen(limits: Limits, bs: bytes, more: bytes)
    requires IsWhole(limits, bs)
    ensures CutFrames(limits, bs + more).1 == CutFrames(limits, more).1
    decreases |bs|
  {
    hide DecodeHeader, Masked;
    if bs == [] {
      assert bs + more == more;
    } else {
      DecodeExtends(limits, bs, more);
      var d := DecodeHeader(limits, bs);
      var m := d.offset + d.header.payloadLen;
      assert (bs + more)[m..] == bs[m..] + more;
      WholeThen(limits, bs[m..], more);
    }
  }

  /** What a whole frame does once it has left the input, when the size check passes. */
  function OnWhole(setup: Setup, p: Progress, s: State, f: Frame): Step {
    if f.header.opcode.Pong? then Return(s, Ok(PongData(f.payload)))
    else if f.header.opcode.IsControl() then OnControl(setup, p, s, f.header.opcode, f.payload)
    else
      OnData(setup, p.(length := SaturatingAdd(p.length, |f.payload|)), s.(message := s.message + f.payload), f.header)
  }

  /** The header of a frame at the start of the input. */
  lemma HeaderOfFrame(limits: Limits, s: State, f: Frame, rest: bytes)
    requires Fits(limits, f) && s.Input() == Wire(f) + rest
    ensures var s1 := s.Advance(|EncodeHeader(f.header)|);
      && NextHeader(limits, s.buffer, s.unread) == Got(f.header, s1.buffer, s1.unread)
      && s1.Input() == Masked(f.header, f.payload) + rest
  {
    hide DecodeHeader, EncodeHeader, NextHeader, Masked, Admits;
    var head, body := EncodeHeader(f.header), Masked(f.header, f.payload);
    assert s.Input() == head + (body + rest);
    HeaderRoundTrip(limits, f.header, body + rest);
    NextHeaderOfInput(limits, s.buffer, s.unread);
    AdvanceInput(s, |head|);
  }

  /** The rest of a frame whose masked payload is at the start of the input. */
  lemma PayloadOfFrame(setup: Setup, p: Progress, s: State, f: Frame, rest: bytes)
    requires |f.payload| == f.header.payloadLen && s.Input() == Masked(f.header, f.payload) + rest
    requires !f.header.opcode.IsControl() ==> SaturatingAdd(p.length, |f.payload|) <= setup.maxMessageSize
    ensures OnFrame(setup, p, s, f.header) == OnWhole(setup, p, s.Advance(|f.payload|), f)
    ensures s.Advance(|f.payload|).Input() == rest
  {
    hide Masked, OnControl, OnData;
    assert s.Input()[..|f.payload|] == Masked(f.header, f.payload);
    MaskInvolution(f.header, f.payload);
    AdvanceInput(s, |f.payload|);
  }

  /** An iteration on an input that starts with a frame's wire form handles exactly that frame. */
  lemma IterateFrame(setup: Setup, p: Progress, s: State, f: Frame, rest: bytes)
    requires !s.closed && Fits(setup.limits, f) && s.Input() == Wire(f) + rest
    requires !f.header.opcode.IsControl() ==> SaturatingAdd(p.length, |f.payload|) <= setup.maxMessageSize
    ensures Iterate(setup, p, s) == OnWhole(setup, p, s.Advance(|Wire(f)|), f)
    ensures s.Advance(|Wire(f)|).Input() == rest
  {
    hide OnFrame, OnWhole, NextHeader, EncodeHeader, Masked;
    HeaderOfFrame(setup.limits, s, f, rest);
    var s1 := s.Advance(|EncodeHeader(f.header)|);
    PayloadOfFrame(setup, p, s1, f, rest);
    AdvanceTwice(s, |EncodeHeader(f.header)|, |f.payload|);
  }

  /** A control frame's answer touches nothing but the writer, the keys and the closed flag. */
  lemma ControlKeeps(setup: Setup, p: Progress, s: State, opcode: OpCode, payload: bytes)
    requires opcode.Ping? || opcode.Close?
    ensures var step := OnControl(setup, p, s, opcode, payload);
      var t := step.state;
      && t == s.(wire := t.wire, drawn := t.drawn, closed := t.closed)
      && match step
         case Loop(_, p') => p' == p
         case Return(_, Ok(incoming)) => incoming.Closing?
         case Return(_, Err(e)) => !e.MessageTooLarge?
  {
    hide Put, Fit, AnswerClose, ToBigEndian;
  }

  /** Fitting a data frame into the message touches nothing but the message and the extension; without an extension,
      nothing at all. */
  lemma DataKeeps(setup: Setup, p: Progress, s: State, h: Header)
    ensures var step := OnData(setup, p, s, h);
      var t := step.state;
      && t == s.(message := t.message, await := t.await)
      && (s.await.None? ==> t == s)
      && match step
         case Loop(_, p') => p'.length == p.length && p'.start == p.start
         case Return(t, Ok(incoming)) =>
           incoming == TextData(Growth(p.start, t.message)) || incoming == BinaryData(Growth(p.start, t.message))
         case Return(_, Err(e)) => !e.MessageTooLarge?
  {
    hide Growth, Inflation.Decode;
  }
}
