/** The deflate flag and the receiver's fragmentation state: which messages are inflated, and on what bytes. */
module Coupling {
  import opened Bytes
  import opened Base
  import opened Protocol
  import opened Reading
  import opened Reassembly
  import opened Accounting
  import opened Grammar
  import opened Chunking
  import Inflation

  /** Does the extension take the frames for a compressed message? Their first data frame has RSV1, and the caller's
      message is not empty after it. */
  predicate Compressed(message: bytes, fs: seq<Frame>) {
    && fs != []
    && if IsData(fs[0]) then fs[0].header.rsv1 && message + fs[0].payload != [] else Compressed(message, fs[1..])
  }

  lemma {:induction false} AwaitOnceOpen(setup: Setup, s: State, fs: seq<Frame>)
    requires s.await.Some? && Inside(fs, true)
    ensures Absorb(setup, s, fs).await == s.await
    decreases |fs|
  {
    hide Inside, Put, Wire, Drop;
    if fs != [] {
      InsideSplit(fs, true);
      AwaitOnceOpen(setup, AbsorbOne(setup, s, fs[0]), fs[1..]);
    }
  }

  /** Inside a message, the flag is up exactly when it was up before or the message counts as compressed. */
  lemma {:induction false} AwaitTracksMessage(setup: Setup, s: State, fs: seq<Frame>)
    requires s.await.Some? && Inside(fs, false)
    ensures Absorb(setup, s, fs).await == Some(s.await.value || Compressed(s.message, fs))
    decreases |fs|
  {
    hide Inside, Put, Wire, Drop;
    if fs != [] {
      InsideSplit(fs, false);
      var s1 := AbsorbOne(setup, s, fs[0]);
      if IsData(fs[0]) {
        AwaitOnceOpen(setup, s1, fs[1..]);
      } else {
        AwaitTracksMessage(setup, s1, fs[1..]);
      }
    }
  }

  /** What a message becomes of what the caller passed, as the extension decodes it. */
  function DecodedData(setup: Setup, await: Option<bool>, message: bytes, fs: seq<Frame>): Option<bytes> {
    var data := message + Payloads(fs);
    if await.Some? && Compressed(message, fs) then setup.inflate(data + Inflation.TAIL) else Some(data)
  }

  /** The last data frame of a message, with the flag the message has left. */
  lemma LastWithFlag(setup: Setup, p: Progress, s: State, f: Frame)
    requires s.await.Some? && Ends(f, p.first.Some?) && !f.header.opcode.IsReserved()
    ensures var message := s.message + f.payload;
      var compressed := message != [] && if p.first.Some? then s.await.value else f.header.rsv1;
      var await := if p.first.Some? then Some(false) else s.await;
      OnWhole(setup, p, s, f) ==
        if !compressed then
          Return(s.(message := message),
            Ok(DataOf(if p.first.Some? then p.first.value else f.header.opcode, Growth(p.start, message))))
        else
          match setup.inflate(message + Inflation.TAIL)
          case None => Return(s.(message := message + Inflation.TAIL, await := await), Err(Extension))
          case Some(out) =>
            Return(s.(message := out, await := await),
              Ok(DataOf(if p.first.Some? then p.first.value else f.header.opcode, Growth(p.start, out))))
  {
    hide Growth;
  }

  lemma {:induction false} CompressedSnoc(message: bytes, fs: seq<Frame>, f: Frame)
    requires IsData(f)
    ensures Compressed(message, fs + [f]) ==
      if Kind(fs).Some? then Compressed(message, fs) else f.header.rsv1 && message + f.payload != []
    ensures Compressed(message, fs) ==> message != [] || Payloads(fs) != []
    ensures Kind(fs).None? ==> Payloads(fs) == [] && !Compressed(message, fs)
  {
    if fs == [] {
      assert fs + [f] == [f];
    } else {
      assert (fs + [f])[0] == fs[0] && (fs + [f])[1..] == fs[1..] + [f];
      CompressedSnoc(message, fs[1..], f);
    }
  }

  /** The loop at the first frame that may not be inside the message, with the flag. */
  lemma ReachesFlagged(setup: Setup, s: State, inside: seq<Frame>, f: Frame, rest: bytes)
    requires Healthy(setup) && !s.closed && s.await.Some?
    requires AllFit(setup, inside) && Fits(setup.limits, f) && s.Input() == Wires(inside) + (Wire(f) + rest)
    requires Inside(inside, false)
    requires |Payloads(inside)| + (if IsData(f) then |f.payload| else 0) <= setup.maxMessageSize
    ensures var p := Progressed(Progress(None, 0, |s.message|), inside);
      var flag := s.await.value || Compressed(s.message, inside);
      var s' := After(setup, s, inside).(await := Some(flag)).Advance(|Wire(f)|);
      && s'.Input() == rest && !s'.closed
      && Receive(setup, s) == Resumed(setup, OnWhole(setup, p, s', f))
  {
    hide Inside, Wire, Wires, OnWhole, Absorb, Fits, AllFit, After, Drop, Payloads, Kind, Compressed, Receive;
    AwaitTracksMessage(setup, s, inside);
    ReachesFrame(setup, s, inside, f, rest);
  }

  /** Is the message spread over more than one data frame? */
  predicate IsFragmented(fs: seq<Frame>)
    requires fs != []
  {
    Kind(fs[..|fs| - 1]).Some?
  }

  /** Is the message inflated, with the flag up or not at its beginning? */
  predicate TakenForCompressed(flag: bool, message: bytes, fs: seq<Frame>)
    requires fs != []
  {
    && message + Payloads(fs) != []
    && if IsFragmented(fs) then flag || Compressed(message, fs[..|fs| - 1]) else fs[|fs| - 1].header.rsv1
  }

  /** The flag after the message: only the last of several fragments lowers it, if there is anything to decode. */
  predicate FlagAfter(flag: bool, message: bytes, fs: seq<Frame>)
    requires fs != []
  {
    flag && (!IsFragmented(fs) || message + Payloads(fs) == [])
  }

  /** What a message becomes with the flag up or not at its beginning. */
  lemma MessageFlagged(setup: Setup, s: State, fs: seq<Frame>, rest: bytes)
    requires Healthy(setup) && !s.closed && s.await.Some?
    requires AllFit(setup, fs) && IsMessage(fs) && |Payloads(fs)| <= setup.maxMessageSize
    requires s.Input() == Wires(fs) + rest
    ensures Kind(fs).Some? && After(setup, s, fs).Input() == rest
    ensures var (t, outcome) := Receive(setup, s);
      var data := s.message + Payloads(fs);
      var inflated := TakenForCompressed(s.await.value, s.message, fs);
      && t.await == Some(FlagAfter(s.await.value, s.message, fs))
      && match if inflated then setup.inflate(data + Inflation.TAIL) else Some(data)
         case None => outcome == Err(Extension)
         case Some(out) =>
           && t == After(setup, s, fs).(message := out, await := t.await)
           && outcome == Ok(DataOf(Kind(fs).value, Growth(|s.message|, out)))
  {
    hide After, Wire, Wires, Payloads, Pongs, Inside, HasData, Kind, DrawnAfter, Fits, Receive, Drop, Compressed;
    var inside, f := fs[..|fs| - 1], fs[|fs| - 1];
    assert AllFit(setup, inside) && Fits(setup.limits, f);
    hide AllFit;
    assert fs == inside + [f];
    SnocParts(setup, s.drawn, inside, f);
    Snoc(setup, s, inside, f);
    CompressedSnoc(s.message, inside, f);
    KindIsData(inside);
    AppendAssociates(Wires(inside), Wire(f), rest);
    ReachesFlagged(setup, s, inside, f, rest);
    NotReserved(setup.limits, f);
    AfterMessage(setup, s, inside);
    AppendAssociates(s.message, Payloads(inside), f.payload);
    LastWithFlag(setup, Progressed(Progress(None, 0, |s.message|), inside),
      After(setup, s, inside).(await := Some(s.await.value || Compressed(s.message, inside))).Advance(|Wire(f)|), f);
  }

  /** A message, fragmented or not, arrives as the extension decodes it: inflated once, together with whatever the
      caller passed and with the tail restored, exactly if it counts as compressed. Afterwards the flag is down. */
  lemma MessageDecoded(setup: Setup, s: State, fs: seq<Frame>, rest: bytes)
    requires Healthy(setup) && !s.closed && s.await == Some(false)
    requires AllFit(setup, fs) && IsMessage(fs) && |Payloads(fs)| <= setup.maxMessageSize
    requires s.Input() == Wires(fs) + rest
    ensures Kind(fs).Some? && After(setup, s, fs).Input() == rest
    ensures var (t, outcome) := Receive(setup, s);
      match DecodedData(setup, s.await, s.message, fs)
      case None => outcome == Err(Extension)
      case Some(data) =>
        t == After(setup, s, fs).(message := data) && outcome == Ok(DataOf(Kind(fs).value, Growth(|s.message|, data)))
  {
    hide Wires, Payloads, Kind, Receive, After, Drop, Compressed, AllFit, IsMessage, TakenForCompressed;
    MessageFlagged(setup, s, fs, rest);
    AfterMessage(setup, s, fs);
    WithoutFlag(s.message, fs);
  }

  /** With the flag down, a message is inflated exactly if it counts as compressed. */
  lemma WithoutFlag(message: bytes, fs: seq<Frame>)
    requires IsMessage(fs)
    ensures TakenForCompressed(false, message, fs) <==> Compressed(message, fs)
  {
    var inside, f := fs[..|fs| - 1], fs[|fs| - 1];
    assert fs == inside + [f];
    hide Payloads, Kind, Compressed, Inside, HasData;
    CompressedSnoc(message, inside, f);
    OneMoreFrame(inside, f);
    AppendAssociates(message, Payloads(inside), f.payload);
  }

  /** The flag after a call whose frame `i` is the first that is not inside the message: where the message does not end
      there (with a Pong, a Close or a data frame out of place), it is up exactly when it was up before or the message
      begun counts as compressed. */
  lemma FlagLeft(setup: Setup, s: State, fs: seq<Frame>, i: nat, rest: bytes)
    requires Healthy(setup) && !s.closed && s.await.Some? && AllFit(setup, fs)
    requires i < |fs| && Inside(fs[..i], false) && !GoesOn(fs[i], HasData(fs[..i]))
    requires |Payloads(fs[..i + 1])| <= setup.maxMessageSize && s.Input() == Wires(fs[..i + 1]) + rest
    ensures Receive(setup, s).0.await == Some(
      if Ends(fs[i], HasData(fs[..i])) then FlagAfter(s.await.value, s.message, fs[..i + 1])
      else s.await.value || Compressed(s.message, fs[..i]))
  {
    var inside, f := fs[..i], fs[i];
    assert fs[..i + 1] == inside + [f] && AllFit(setup, inside) && AllFit(setup, fs[..i + 1]) && Fits(setup.limits, f);
    hide AllFit, Fits, Inside, Wire, Wires, Payloads, Receive, After, HasData, Drop, Compressed, Kind, FlagAfter;
    if Ends(f, HasData(inside)) {
      assert IsMessage(fs[..i + 1]) by { assert fs[..i + 1][..i] == inside; }
      MessageFlagged(setup, s, fs[..i + 1], rest);
    } else {
      KindIsData(inside);
      OneMoreFrame(inside, f);
      AppendAssociates(Wires(inside), Wire(f), rest);
      ReachesFlagged(setup, s, inside, f, rest);
      NotEnding(setup, Progressed(Progress(None, 0, |s.message|), inside),
        After(setup, s, inside).(await := Some(s.await.value || Compressed(s.message, inside))).Advance(|Wire(f)|), f);
    }
  }

  /** A message that gets too large leaves the flag the same way. */
  lemma FlagWhenTooLarge(setup: Setup, s: State, inside: seq<Frame>, f: Frame, rest: bytes)
    requires Healthy(setup) && !s.closed && s.await.Some?
    requires AllFit(setup, inside) && Fits(setup.limits, f) && s.Input() == Wires(inside) + (Wire(f) + rest)
    requires Inside(inside, false) && IsData(f)
    requires |Payloads(inside)| <= setup.maxMessageSize < SaturatingAdd(|Payloads(inside)|, |f.payload|)
    ensures IsTooLarge(Receive(setup, s).1)
    ensures Receive(setup, s).0.await == Some(s.await.value || Compressed(s.message, inside))
  {
    hide Inside, Wire, Wires, Absorb, Fits, AllFit, Iterate, Payloads, Kind, Compressed, EncodeHeader, Masked;
    var p := Progress(None, 0, |s.message|);
    LoopOver(setup, p, s, inside, Wire(f) + rest);
    AwaitTracksMessage(setup, s, inside);
    OversizeStep(setup, Progressed(p, inside), Absorb(setup, s, inside), f, rest);
  }

  /** A step on an input without a whole frame leaves the flag alone. */
  lemma NoFrameKeepsFlag(setup: Setup, p: Progress, s: State)
    requires !s.closed && HasNoFrame(setup.limits, s.Input())
    ensures Continued(setup, p, s).0.await == s.await
  {
    hide DecodeHeader, NextHeader, Masked, Zeros, OnControl, OnData, Drop;
    NextHeaderOfInput(setup.limits, s.buffer, s.unread);
    match DecodeHeader(setup.limits, s.Input()) {
      case Done(h, n) => AdvanceInput(s, n);
      case _ =>
    }
  }

  /** So does a call that is stopped inside a message by the end of the stream or a bad header. */
  lemma FlagAtEnd(setup: Setup, s: State, inside: seq<Frame>, rest: bytes)
    requires Healthy(setup) && !s.closed && s.await.Some? && AllFit(setup, inside) && Inside(inside, false)
    requires |Payloads(inside)| <= setup.maxMessageSize && s.Input() == Wires(inside) + rest
    requires HasNoFrame(setup.limits, rest)
    ensures Receive(setup, s).1.Err?
    ensures Receive(setup, s).0.await == Some(s.await.value || Compressed(s.message, inside))
  {
    hide Inside, Wires, Absorb, AllFit, Payloads, Kind, Compressed, HasNoFrame;
    var p := Progress(None, 0, |s.message|);
    LoopOver(setup, p, s, inside, rest);
    AwaitTracksMessage(setup, s, inside);
    NoFrameKeepsFlag(setup, Progressed(p, inside), Absorb(setup, s, inside));
    NoFrameFails(setup, Progressed(p, inside), Absorb(setup, s, inside));
  }

  lemma NoFrameFails(setup: Setup, p: Progress, s: State)
    requires !s.closed && HasNoFrame(setup.limits, s.Input())
    ensures Continued(setup, p, s).1.Err?
  {
    hide DecodeHeader, NextHeader, Masked, Zeros, OnControl, OnData, Drop;
    NextHeaderOfInput(setup.limits, s.buffer, s.unread);
    match DecodeHeader(setup.limits, s.Input()) {
      case Done(h, n) => AdvanceInput(s, n);
      case _ =>
    }
  }

  /** A frame that neither goes on with a message nor ends it leaves the flag alone. */
  lemma NotEnding(setup: Setup, p: Progress, s: State, f: Frame)
    requires Healthy(setup) && !GoesOn(f, p.first.Some?) && !Ends(f, p.first.Some?)
    ensures Resumed(setup, OnWhole(setup, p, s, f)).0.await == s.await
  {
    hide Put, Fit, AnswerClose, AnswerPayload, NextHeader, Inflation.Decode;
  }

  /** What a flag that was left up does: the next message of more than one fragment is inflated although it is not
      compressed, unless there is nothing in it. Then the flag is down. */
  lemma StrayInflation(setup: Setup, s: State, fs: seq<Frame>, rest: bytes)
    requires Healthy(setup) && !s.closed && s.await == Some(true)
    requires AllFit(setup, fs) && IsMessage(fs) && |Payloads(fs)| <= setup.maxMessageSize
    requires s.Input() == Wires(fs) + rest
    requires IsFragmented(fs) && !Compressed(s.message, fs)
    ensures var (t, outcome) := Receive(setup, s);
      var data := s.message + Payloads(fs);
      if data == [] then t.await == Some(true) && outcome.Ok?
      else
        && t.await == Some(false)
        && match setup.inflate(data + Inflation.TAIL)
           case None => outcome == Err(Extension)
           case Some(out) => t.message == out && outcome.Ok?
  {
    MessageFlagged(setup, s, fs, rest);
  }

  /** The first data frame. */
  function FirstFragment(fs: seq<Frame>): Option<Frame> {
    if fs == [] then None else if IsData(fs[0]) then Some(fs[0]) else FirstFragment(fs[1..])
  }

  lemma {:induction false} CompressedIs(message: bytes, fs: seq<Frame>)
    ensures var first := FirstFragment(fs);
      && (Kind(fs).Some? <==> first.Some?)
      && (Compressed(message, fs) <==>
        first.Some? && first.value.header.rsv1 && (message != [] || first.value.payload != []))
  {
    if fs != [] {
      CompressedIs(message, fs[1..]);
    }
  }

  /** A compressed message is delivered as section 7.2.2 of RFC 7692 has it: the inflater gets the message's payload
      with the tail restored and nothing else, and the call delivers what comes out. */
  predicate Inflates(setup: Setup, s: State, fs: seq<Frame>) {
    var (t, outcome) := Receive(setup, s);
    match setup.inflate(Payloads(fs) + Inflation.TAIL)
    case None => outcome == Err(Extension)
    case Some(data) => Kind(fs).Some? && t.message == data && outcome == Ok(DataOf(Kind(fs).value, Growth(0, data)))
  }

  /** Compressed messages are delivered that way, whatever the inflater, exactly when the caller passes an empty message
      and the first fragment has a payload. */
  lemma InflatesExactly(setup: Setup, s: State, fs: seq<Frame>, rest: bytes)
    requires Healthy(setup) && !s.closed && s.await == Some(false)
    requires AllFit(setup, fs) && IsMessage(fs) && |Payloads(fs)| <= setup.maxMessageSize
    requires s.Input() == Wires(fs) + rest
    requires FirstFragment(fs).Some? && FirstFragment(fs).value.header.rsv1
    ensures (forall inflate: bytes -> Option<bytes> :: Inflates(setup.(inflate := inflate), s, fs))
      <==> s.message == [] && FirstFragment(fs).value.payload != []
  {
    CompressedIs(s.message, fs);
    var expected := Payloads(fs) + Inflation.TAIL;
    forall inflate: bytes -> Option<bytes>
      ensures (s.message == [] && FirstFragment(fs).value.payload != [] ==> Inflates(setup.(inflate := inflate), s, fs))
    {
      var setup' := setup.(inflate := inflate);
      assert AllFit(setup', fs);
      hide AllFit, IsMessage, Wires, Payloads, Receive, Growth, Drop, Pongs, Kind, FirstFragment, Compressed;
      MessageDecoded(setup', s, fs, rest);
      assert [] + Payloads(fs) == Payloads(fs);
    }
    if s.message != [] || FirstFragment(fs).value.payload == [] {
      var setup' := setup.(inflate := (bs: bytes) => if bs == expected then None else Some([]));
      assert AllFit(setup', fs);
      MessageDecoded(setup', s, fs, rest);
      assert s.message != [] ==> s.message + Payloads(fs) + Inflation.TAIL != expected by {
        assert |s.message + Payloads(fs) + Inflation.TAIL| == |s.message| + |expected|;
      }
      assert !Inflates(setup', s, fs);
    }
  }

  lemma AfterMessage(setup: Setup, s: State, fs: seq<Frame>)
    ensures After(setup, s, fs).message == s.message + Payloads(fs) && After(setup, s, fs).await == s.await
  {}

  lemma NotReserved(limits: Limits, f: Frame)
    requires Fits(limits, f)
    ensures !f.header.opcode.IsReserved()
  {}
}
