/** Whole runs of calls on a stream of fragmented messages, and `receive_data`. */
module Runs {
  import opened Bytes
  import opened Base
  import opened Protocol
  import opened Reading
  import opened Reassembly
  import opened Grammar
  import opened Closing
  import opened Coupling
  import opened Utf8
  import opened Delivery

  /** A message of section 5.4 within the receiver's limits, which the extension, if any, can decode. */
  ghost predicate IsReceivable(setup: Setup, await: Option<bool>, message: bytes, fs: seq<Frame>) {
    && AllFit(setup, fs) && IsMessage(fs) && |Payloads(fs)| <= setup.maxMessageSize
    && DecodedData(setup, await, message, fs).Some?
  }

  /** The bytes of messages one after the other. */
  function Stream(messages: seq<seq<Frame>>): bytes {
    if messages == [] then [] else Wires(messages[0]) + Stream(messages[1..])
  }

  /** The messages as their recipient should see them. */
  ghost function Contents(setup: Setup, await: Option<bool>, messages: seq<seq<Frame>>): seq<Delivered>
    requires forall fs | fs in messages :: IsReceivable(setup, await, [], fs)
  {
    if messages == [] then []
    else
      assert messages[0] in messages && IsReceivable(setup, await, [], messages[0]);
      var kind := if Kind(messages[0]) == Some(Text) then Text else Binary;
      [Message(kind, DecodedData(setup, await, [], messages[0]).value)] + Contents(setup, await, messages[1..])
  }

  lemma OneMessage(setup: Setup, s: State, fs: seq<Frame>, rest: bytes)
    requires Healthy(setup) && !s.closed && (s.await == None || s.await == Some(false))
    requires IsReceivable(setup, s.await, s.message, fs) && s.Input() == Wires(fs) + rest
    ensures Kind(fs).Some?
    ensures var data := DecodedData(setup, s.await, s.message, fs).value;
      Receive(setup, s) ==
        (After(setup, s, fs).(message := data), Ok(DataOf(Kind(fs).value, Growth(|s.message|, data))))
    ensures After(setup, s, fs).Input() == rest && After(setup, s, fs).await == s.await && !After(setup, s, fs).closed
  {
    hide AllFit, IsMessage, Wires, Receive, Kind, Payloads, Compressed, Pongs, Drop, DrawnAfter;
    if s.await.None? {
      Reassembles(setup, s, fs, rest);
      assert |s.message + Payloads(fs)| - |s.message| == |Payloads(fs)|;
    } else {
      MessageDecoded(setup, s, fs, rest);
    }
  }

  /** For any stream of messages, each fragmented, masked and interleaved with Pings in its own way, compressed or not,
      the calls return their contents in order, each inflated at most once, until the stream ends. */
  lemma {:induction false} MessagesArrive(setup: Setup, s: State, messages: seq<seq<Frame>>)
    requires Healthy(setup) && !s.closed && (s.await == None || s.await == Some(false))
    requires forall fs | fs in messages :: IsReceivable(setup, s.await, [], fs)
    requires s.Input() == Stream(messages)
    ensures var (delivered, t, e) := ReceiveAll(setup, s);
      delivered == Contents(setup, s.await, messages) && e == ConnectionClosed && t.Input() == [] && t.await == s.await
    decreases |messages|
  {
    hide IsReceivable, Wires, Receive, Kind, After, DecodedData;
    var s0 := s.(message := []);
    if messages == [] {
      EndOfInput(setup, Progress(None, 0, 0), s0);
      NothingReceived(setup, s0);
    } else {
      assert messages[0] in messages;
      OneMessage(setup, s0, messages[0], Stream(messages[1..]));
      MessagesArrive(setup, Receive(setup, s0).0, messages[1..]);
    }
  }

  /** `receive_data` skips Pings and Pongs: after any number of them it returns the next data message, as the extension,
      if any, decodes it behind what the caller's message held before. */
  lemma {:induction false} SkipsControl(setup: Setup, s: State, control: seq<Frame>, fs: seq<Frame>, rest: bytes)
    requires Healthy(setup) && !s.closed && (s.await == None || s.await == Some(false))
    requires forall f | f in control :: Fits(setup.limits, f) && (IsPing(f) || f.header.opcode.Pong?)
    requires IsReceivable(setup, s.await, s.message, fs) && s.Input() == Wires(control) + (Wires(fs) + rest)
    ensures Kind(fs).Some?
    ensures var (t, outcome) := ReceiveData(setup, s);
      var data := DecodedData(setup, s.await, s.message, fs).value;
      && outcome == Ok(DataOf(Kind(fs).value, Growth(|s.message|, data))) && t.message == data && t.Input() == rest
    ensures s.await.None? ==> DecodedData(setup, s.await, s.message, fs) == Some(s.message + Payloads(fs))
    decreases |control|
  {
    hide IsReceivable, Receive, Kind, AllFit, IsMessage, Wires, Payloads, Fits, AbsorbOne, After, Growth;
    if control == [] {
      NoFrames(Wires(fs) + rest);
      OneMessage(setup, s, fs, rest);
    } else {
      var f, more := control[0], control[1..];
      assert control == [f] + more;
      PrependWire(f, more);
      var after := Wires(more) + (Wires(fs) + rest);
      assert Wires(control) + (Wires(fs) + rest) == Wire(f) + after;
      SkipsOne(setup, s, f, after);
      if IsPing(f) {
        SkipsControl(setup, AbsorbOne(setup, s, f), more, fs, rest);
        SameReceiveData(setup, s, AbsorbOne(setup, s, f));
      } else {
        SkipsControl(setup, s.Advance(|Wire(f)|), more, fs, rest);
      }
    }
  }

  lemma NoFrames(bs: bytes)
    ensures Wires([]) + bs == bs
  {}

  lemma SameReceiveData(setup: Setup, s: State, t: State)
    requires Receive(setup, s) == Receive(setup, t)
    ensures ReceiveData(setup, s) == ReceiveData(setup, t)
  {
    hide Receive;
  }

  /** A Ping is answered within a call; a Pong ends it. */
  lemma SkipsOne(setup: Setup, s: State, f: Frame, rest: bytes)
    requires Healthy(setup) && !s.closed && Fits(setup.limits, f) && s.Input() == Wire(f) + rest
    requires IsPing(f) || f.header.opcode.Pong?
    ensures var t := if IsPing(f) then AbsorbOne(setup, s, f) else s.Advance(|Wire(f)|);
      && t.Input() == rest && t.message == s.message && !t.closed && t.await == s.await
      && Receive(setup, s) == if IsPing(f) then Receive(setup, t) else (t, Ok(PongData(f.payload)))
  {
    hide Iterate, Wire, Fits, Put, Fit, Drop;
    IterateFrame(setup, Progress(None, 0, |s.message|), s, f, rest);
    if IsPing(f) {
      PingGoesOn(setup, Progress(None, 0, |s.message|), s.Advance(|Wire(f)|), f);
    }
  }

  /** What a call makes of a message of section 5.4, also of one the extension cannot decode. */
  function OutcomeOf(setup: Setup, s: State, fs: seq<Frame>): Outcome
    requires Kind(fs).Some?
  {
    match DecodedData(setup, s.await, s.message, fs)
    case None => Err(Extension)
    case Some(data) => Ok(DataOf(Kind(fs).value, Growth(|s.message|, data)))
  }

  /** If the extension can decode the message, does the caller's message end up with it, and the input behind it? */
  predicate MessageArrived(setup: Setup, s: State, fs: seq<Frame>, rest: bytes) {
    var data, t := DecodedData(setup, s.await, s.message, fs), ReceiveData(setup, s).0;
    data.Some? ==> t.message == data.value && t.Input() == rest
  }

  lemma MessageOutcome(setup: Setup, s: State, fs: seq<Frame>, rest: bytes)
    requires Healthy(setup) && !s.closed && (s.await == None || s.await == Some(false))
    requires AllFit(setup, fs) && IsMessage(fs) && |Payloads(fs)| <= setup.maxMessageSize
    requires s.Input() == Wires(fs) + rest
    ensures Kind(fs).Some? && ReceiveData(setup, s).1 == OutcomeOf(setup, s, fs)
    ensures MessageArrived(setup, s, fs, rest)
  {
    hide AllFit, IsMessage, Wires, Receive, Kind, Payloads, Compressed, After, ReceiveData;
    AfterMessage(setup, s, fs);
    if s.await.None? {
      Reassembles(setup, s, fs, rest);
      assert |s.message + Payloads(fs)| - |s.message| == |Payloads(fs)|;
    } else {
      MessageDecoded(setup, s, fs, rest);
    }
    DataFirst(setup, s);
  }

  lemma {:induction false} CompressedFrom(message: bytes, fs: seq<Frame>, k: nat)
    requires k <= |fs| && forall i | 0 <= i < k :: !IsData(fs[i])
    ensures Compressed(message, fs[k..]) == Compressed(message, fs)
    decreases k
  {
    hide IsData;
    if k == 0 {
      assert fs[0..] == fs;
    } else {
      assert fs[1..][k - 1..] == fs[k..];
      CompressedFrom(message, fs[1..], k - 1);
    }
  }

  /** A message the RFC allows is what `receive_data` returns next, as the extension decodes it, exactly when no Pong
      comes after its first fragment; otherwise it is lost, and the call fails. A message that is returned is in the
      caller's message, behind what that held before, and the input behind it is left. */
  lemma {:induction false} DeliveredUnlessPong(setup: Setup, s: State, fs: seq<Frame>, rest: bytes)
    requires Healthy(setup) && !s.closed && (s.await == None || s.await == Some(false)) && AllFit(setup, fs)
    requires |Payloads(fs)| <= setup.maxMessageSize && s.Input() == Wires(fs) + rest
    requires IsMessageWithPongs(fs)
    ensures Kind(fs).Some? && FirstData(fs) < |fs|
    ensures ReceiveData(setup, s).1 ==
      if HasPong(fs[FirstData(fs)..]) then Err(UnexpectedOpCode(Continue)) else OutcomeOf(setup, s, fs)
    ensures !HasPong(fs[FirstData(fs)..]) ==> MessageArrived(setup, s, fs, rest)
    decreases |fs|
  {
    hide AllFit, Wires, StateAt, Payloads, HasPong, Kind, IsMessageWithPongs, ReceiveData, State.Input;
    hide FirstPong, FirstData, OutcomeOf, MessageArrived, IsMessage, Healthy;
    PongsOfMessage(fs);
    var i, j := FirstPong(fs), FirstData(fs);
    if i == |fs| {
      NoPongIsMessage(fs);
      MessageOutcome(setup, s, fs, rest);
    } else if i < j {
      LeadingStep(setup, s, fs, rest);
      SameOutcome(setup, s, fs, i);
      DeliveredUnlessPong(setup, StateAt(setup, s, fs, i), fs[i + 1..], rest);
    } else {
      LostStep(setup, s, fs, rest);
    }
  }

  lemma PongsOfMessage(fs: seq<Frame>)
    requires IsMessageWithPongs(fs)
    ensures Kind(fs).Some? && FirstData(fs) < |fs| && FirstPong(fs) != FirstData(fs)
    ensures HasPong(fs[FirstData(fs)..]) ==> FirstPong(fs) < |fs|
    ensures FirstData(fs) < FirstPong(fs) < |fs| ==> HasPong(fs[FirstData(fs)..])
  {
    PlacedInMessage(fs, |fs| - 1);
    PongsFrom(fs);
    KindOfMessage(fs);
  }

  /** A Pong in front of the message is returned to `receive_data`, which goes on with what is behind it. */
  lemma LeadingStep(setup: Setup, s: State, fs: seq<Frame>, rest: bytes)
    requires Healthy(setup) && !s.closed && AllFit(setup, fs)
    requires |Payloads(fs)| <= setup.maxMessageSize && s.Input() == Wires(fs) + rest
    requires IsMessageWithPongs(fs) && FirstPong(fs) < FirstData(fs) && Kind(fs).Some?
    ensures var i := FirstPong(fs);
      var t, tail := StateAt(setup, s, fs, i), fs[i + 1..];
      && t.Input() == Wires(tail) + rest && !t.closed && t.await == s.await
      && AllFit(setup, tail) && |Payloads(tail)| <= setup.maxMessageSize && IsMessageWithPongs(tail)
      && tail[FirstData(tail)..] == fs[FirstData(fs)..] && ReceiveData(setup, s) == ReceiveData(setup, t)
  {
    hide AllFit, Wires, Receive, StateAt, Payloads, Kind, IsMessageWithPongs, IsData, ReceiveData;
    hide FirstPong, FirstData, Inside, OutcomeOf, MessageArrived;
    var i := FirstPong(fs);
    FirstPongEndsCall(setup, s, fs, rest);
    SkipsPong(setup, s, StateAt(setup, s, fs, i), fs[i].payload);
    LeadingPong(setup, fs, i + 1);
    LeadingKeeps(setup, s, fs, i);
  }

  lemma LostStep(setup: Setup, s: State, fs: seq<Frame>, rest: bytes)
    requires Healthy(setup) && !s.closed && AllFit(setup, fs)
    requires |Payloads(fs)| <= setup.maxMessageSize && s.Input() == Wires(fs) + rest
    requires IsMessageWithPongs(fs) && FirstData(fs) < FirstPong(fs) < |fs|
    ensures ReceiveData(setup, s).1 == Err(UnexpectedOpCode(Continue))
  {
    hide AllFit, Wires, Receive, StateAt, Payloads, IsMessageWithPongs, ReceiveData, FirstPong, FirstData;
    var i := FirstPong(fs);
    var t := StateAt(setup, s, fs, i);
    PongLosesMessage(setup, s, fs, t.message, rest);
    SkipsPong(setup, s, t, fs[i].payload);
    assert t.(message := t.message) == t;
  }

  lemma SameOutcome(setup: Setup, s: State, fs: seq<Frame>, i: nat)
    requires AllFit(setup, fs) && IsMessageWithPongs(fs) && i < FirstData(fs) && Kind(fs).Some?
    ensures Kind(fs[i + 1..]).Some?
    ensures var t := StateAt(setup, s, fs, i);
      && t.await == s.await && OutcomeOf(setup, t, fs[i + 1..]) == OutcomeOf(setup, s, fs)
      && (ReceiveData(setup, t) == ReceiveData(setup, s) ==>
        forall rest :: MessageArrived(setup, t, fs[i + 1..], rest) <==> MessageArrived(setup, s, fs, rest))
  {
    hide AllFit, IsMessageWithPongs, StateAt, Payloads, Kind, IsData, FirstData, Compressed, Growth, ReceiveData;
    LeadingPong(setup, fs, i + 1);
    CompressedFrom(s.message, fs, i + 1);
    LeadingKeeps(setup, s, fs, i);
  }

  /** Control frames in front of a message leave the caller's message and the flag alone. */
  lemma LeadingKeeps(setup: Setup, s: State, fs: seq<Frame>, i: nat)
    requires i < |fs| && forall k | 0 <= k < i :: !IsData(fs[k])
    ensures StateAt(setup, s, fs, i).message == s.message && StateAt(setup, s, fs, i).await == s.await
  {
    hide AbsorbOne, IsData, Wires, Pongs;
    ControlOnly(setup, s, fs[..i]);
    assert s.message + [] == s.message;
  }

  lemma {:induction false} ControlOnly(setup: Setup, s: State, fs: seq<Frame>)
    requires forall k | 0 <= k < |fs| :: !IsData(fs[k])
    ensures Absorb(setup, s, fs).await == s.await && Payloads(fs) == []
    decreases |fs|
  {
    if fs != [] {
      assert AbsorbOne(setup, s, fs[0]).await == s.await;
      hide AbsorbOne, IsData;
      ControlOnly(setup, AbsorbOne(setup, s, fs[0]), fs[1..]);
    }
  }

  /** `receive_data` returns nothing but data. */
  lemma {:induction false} OnlyData(setup: Setup, s: State)
    ensures var outcome := ReceiveData(setup, s).1;
      outcome.Ok? ==> outcome.incoming.TextData? || outcome.incoming.BinaryData?
    decreases |s.Input()|
  {
    hide Receive;
    ReceiveConsumes(setup, s);
    var (s', outcome) := Receive(setup, s);
    if outcome.Ok? && !outcome.incoming.TextData? && !outcome.incoming.BinaryData? {
      OnlyData(setup, s');
    }
  }

  /** A Close ends `receive_data`: it answers and closes the receiver, as `receive` does, but reports that the
      connection is closed, and does not touch what is behind the Close. */
  lemma CloseEndsReceiveData(setup: Setup, s: State, f: Frame, rest: bytes)
    requires Healthy(setup) && !s.closed && Fits(setup.limits, f) && f.header.opcode.Close?
    requires s.Input() == Wire(f) + rest && (|f.payload| >= 2 ==> IsUtf8(f.payload[2..]))
    ensures var (t, outcome) := ReceiveData(setup, s);
      && outcome == Err(ConnectionClosed) && t.closed && t.Input() == rest && t.message == s.message
      && t == Receive(setup, s).0
  {
    hide Iterate, Wire, Fits, IsUtf8, Put;
    var p := Progress(None, 0, |s.message|);
    OnClose(setup, p, s, f, rest);
    CloseKeepsMessage(setup, p, s, f, rest);
    ClosedOnlyByAnswer(f.payload);
    hide Continued, AnswerClose;
    var (t, outcome) := Receive(setup, s);
    ReceiveConsumes(setup, s);
    StaysClosed(setup, Progress(None, 0, |t.message|), t);
    if outcome.Ok? {
      ClosedReceiveData(setup, t);
    }
  }

  lemma ClosedReceiveData(setup: Setup, s: State)
    requires s.closed
    ensures ReceiveData(setup, s) == (s, Err(ConnectionClosed))
  {
    StaysClosed(setup, Progress(None, 0, |s.message|), s);
    hide Continued;
  }

  lemma CloseKeepsMessage(setup: Setup, p: Progress, s: State, f: Frame, rest: bytes)
    requires !s.closed && Fits(setup.limits, f) && f.header.opcode.Close? && s.Input() == Wire(f) + rest
    ensures Continued(setup, p, s).0.message == s.message
  {
    hide Iterate, Wire, Fits, Put, Fit, AnswerClose, AnswerPayload, Reply;
    IterateFrame(setup, p, s, f, rest);
    var t := OnControl(setup, p, s.Advance(|Wire(f)|), Close, f.payload).state;
    if t.closed {
      StaysClosed(setup, p, t);
    }
  }
}
