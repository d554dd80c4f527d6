/** Both directions at once: what the peer receives when Sender and Receiver write through one lock. */
module Duplex {
  import opened Bytes
  import opened Base
  import opened Protocol
  import opened Reading
  import opened Reassembly
  import opened Delivery
  import opened WriterLock
  import Inflation

  /** The calls among `merged` whose frames one side completed. */
  function SideCalls(log: seq<Entry>, merged: seq<Send>, side: Side): seq<Send>
    requires |log| == |merged|
  {
    if log == [] then []
    else
      var last := |log| - 1;
      SideCalls(log[..last], merged[..last], side) + if log[last].side == side then [merged[last]] else []
  }

  /** Is `merged` an order-preserving merge of what the two sides were asked for, in the order of the log? */
  predicate Merges(log: seq<Entry>, merged: seq<Send>, sends: seq<Send>, pongs: seq<Send>) {
    && |log| == |merged|
    && SideCalls(log, merged, SenderSide) == sends && SideCalls(log, merged, ReceiverSide) == pongs
  }

  function IfMessage(d: Delivered): seq<Delivered> { if d.Message? then [d] else [] }

  /** The messages among what was delivered. */
  function Messages(delivered: seq<Delivered>): seq<Delivered> {
    if delivered == [] then [] else IfMessage(delivered[0]) + Messages(delivered[1..])
  }

  lemma {:induction false} MessagesConcat(ds: seq<Delivered>, es: seq<Delivered>)
    ensures Messages(ds + es) == Messages(ds) + Messages(es)
  {
    hide IfMessage;
    if ds == [] {
      assert ds + es == es;
    } else {
      assert (ds + es)[0] == ds[0] && (ds + es)[1..] == ds[1..] + es;
      MessagesConcat(ds[1..], es);
      AppendAssociates(IfMessage(ds[0]), Messages(ds[1..]), Messages(es));
    }
  }

  /** A receiver's replies are calls of `send_pong`, as far as its peer can tell. */
  predicate ArePongs(pongs: seq<Send>) { forall send | send in pongs :: send.SendPong? }

  lemma CarriesLast(encoder: Option<Inflation.Encoder>, fs: seq<Frame>, f: Frame, sends: seq<Send>)
    requires CarriesAll(encoder, fs + [f], sends)
    ensures sends != [] && CarriesAll(encoder, fs, sends[..|fs|]) && Carries(encoder, f, sends[|fs|])
    ensures sends == sends[..|fs|] + [sends[|fs|]]
  {
    hide Carries;
    forall i | 0 <= i < |fs| ensures Carries(encoder, fs[i], sends[i]) {
      assert (fs + [f])[i] == fs[i];
    }
    assert (fs + [f])[|fs|] == f;
  }

  lemma CarriesSnoc(encoder: Option<Inflation.Encoder>, fs: seq<Frame>, f: Frame, sends: seq<Send>, send: Send)
    requires CarriesAll(encoder, fs, sends) && Carries(encoder, f, send)
    ensures CarriesAll(encoder, fs + [f], sends + [send])
  {
    hide Carries;
  }

  lemma SideCallsSnoc(log: seq<Entry>, e: Entry, merged: seq<Send>, send: Send, side: Side)
    requires |log| == |merged|
    ensures SideCalls(log + [e], merged + [send], side) ==
      SideCalls(log, merged, side) + if e.side == side then [send] else []
  {
    assert (log + [e])[..|log|] == log && (merged + [send])[..|log|] == merged;
  }

  /** The log's frames carry a merge of the calls of both sides. */
  lemma {:induction false} LogCarries(
    encoder: Option<Inflation.Encoder>, log: seq<Entry>, sends: seq<Send>, pongs: seq<Send>) returns (merged: seq<Send>)
    requires CarriesAll(encoder, SideFrames(log, SenderSide), sends)
    requires CarriesAll(encoder, SideFrames(log, ReceiverSide), pongs)
    ensures Merges(log, merged, sends, pongs) && CarriesAll(encoder, Frames(log), merged)
    decreases |log|
  {
    hide Carries;
    merged := [];
    if log != [] {
      hide CarriesAll;
      var front, e := log[..|log| - 1], log[|log| - 1];
      assert log == front + [e];
      LogGrows(front, e, SenderSide);
      LogGrows(front, e, ReceiverSide);
      var bySender, byReceiver := SideFrames(front, SenderSide), SideFrames(front, ReceiverSide);
      hide SideFrames, Frames;
      var send;
      if e.side.SenderSide? {
        CarriesLast(encoder, bySender, e.frame, sends);
        assert byReceiver + [] == byReceiver;
        send := sends[|bySender|];
        merged := LogCarries(encoder, front, sends[..|bySender|], pongs);
      } else {
        CarriesLast(encoder, byReceiver, e.frame, pongs);
        assert bySender + [] == bySender;
        send := pongs[|byReceiver|];
        merged := LogCarries(encoder, front, sends, pongs[..|byReceiver|]);
      }
      SideCallsSnoc(front, e, merged, send, SenderSide);
      SideCallsSnoc(front, e, merged, send, ReceiverSide);
      CarriesSnoc(encoder, Frames(front), e.frame, merged, send);
      merged := merged + [send];
    }
  }

  lemma {:induction false} MergedFrom(log: seq<Entry>, merged: seq<Send>, send: Send)
    requires |log| == |merged| && send in merged
    ensures send in SideCalls(log, merged, SenderSide) || send in SideCalls(log, merged, ReceiverSide)
    decreases |log|
  {
    var last := |log| - 1;
    if send != merged[last] {
      MergedFrom(log[..last], merged[..last], send);
    }
  }

  /** The last entry of a log whose receiver's calls are Pongs. */
  lemma LastEntry(log: seq<Entry>, merged: seq<Send>)
    requires |log| == |merged| > 0 && ArePongs(SideCalls(log, merged, ReceiverSide))
    ensures var last := |log| - 1;
      var before, front, send := log[..last], merged[..last], merged[last];
      && merged == front + [send] && ArePongs(SideCalls(before, front, ReceiverSide))
      && if log[last].side.ReceiverSide? then
           send.SendPong? && SideCalls(log, merged, SenderSide) == SideCalls(before, front, SenderSide)
         else SideCalls(log, merged, SenderSide) == SideCalls(before, front, SenderSide) + [send]
  {
    var last := |log| - 1;
    var before, e, front, send := log[..last], log[last], merged[..last], merged[last];
    assert log == before + [e] && merged == front + [send];
    SideCallsSnoc(before, e, front, send, SenderSide);
    SideCallsSnoc(before, e, front, send, ReceiverSide);
    hide SideCalls;
    var mine, theirs := SideCalls(before, front, SenderSide), SideCalls(before, front, ReceiverSide);
    assert mine + [] == mine;
    if e.side.ReceiverSide? {
      assert (theirs + [send])[|theirs|] == send;
    }
  }

  /** Pongs between them do not change the messages or their order. */
  lemma {:induction false} MessagesOfMerge(log: seq<Entry>, merged: seq<Send>)
    requires |log| == |merged| && ArePongs(SideCalls(log, merged, ReceiverSide))
    ensures Messages(Expected(merged)) == Messages(Expected(SideCalls(log, merged, SenderSide)))
    decreases |log|
  {
    if log != [] {
      hide SideCalls, Expected, Messages, ArePongs;
      var last := |log| - 1;
      var before, front, send := log[..last], merged[..last], merged[last];
      LastEntry(log, merged);
      MessagesOfMerge(before, front);
      MessagesSnoc(front, send);
      if log[last].side.ReceiverSide? {
        NoMessage(send);
        assert Messages(Expected(front)) + [] == Messages(Expected(front));
      } else {
        MessagesSnoc(SideCalls(before, front, SenderSide), send);
      }
    }
  }

  lemma MessagesSnoc(sends: seq<Send>, send: Send)
    ensures Messages(Expected(sends + [send])) == Messages(Expected(sends)) + Messages(Expected([send]))
  {
    hide Expected, Messages;
    ExpectedConcat(sends, [send]);
    MessagesConcat(Expected(sends), Expected([send]));
  }

  lemma NoMessage(send: Send)
    requires send.SendPong?
    ensures Messages(Expected([send])) == []
  {
    ExpectedOne(send);
    assert [PongPayload(send.data)][1..] == [];
  }

  predicate Quiescent(s: System) { s.todo == PerSide([], []) }

  /** Full duplex: when both sides have written what they were asked for, in any interleaving of their steps, the peer's
      calls return an order-preserving merge of what the sender sent and the receiver's Pongs. In particular they
      return the sender's messages, all of them and in order. */
  lemma FullDuplex(
    run: seq<System>, setup: Setup, t: State, encoder: Option<Inflation.Encoder>, sends: seq<Send>, pongs: seq<Send>)
    returns (merged: seq<Send>)
    requires IsRun(run) && Quiescent(run[|run| - 1])
    requires var s := run[|run| - 1];
      && CarriesAll(encoder, s.asked.sender, sends) && CarriesAll(encoder, s.asked.receiver, pongs) && ArePongs(pongs)
      && t.Input() == s.wire
    requires Healthy(setup) && !t.closed && Matches(encoder, t.await)
    requires forall send | send in sends || send in pongs :: WithinLimits(setup, encoder, send)
    ensures var s := run[|run| - 1];
      && Merges(s.log, merged, sends, pongs) && AllArrives(setup, t, Frames(s.log), merged)
      && Messages(ReceiveAll(setup, t).0) == Messages(Expected(sends))
  {
    var s := run[|run| - 1];
    RunKeeps(run);
    hide IsRun;
    assert SideFrames(s.log, SenderSide) + [] == SideFrames(s.log, SenderSide);
    assert SideFrames(s.log, ReceiverSide) + [] == SideFrames(s.log, ReceiverSide);
    assert Wires(Frames(s.log)) + [] == Wires(Frames(s.log));
    hide Carries, CarriesAll, WithinLimits, Matches, SideFrames, Frames, Wires;
    hide Expected, Messages, SideCalls, ReceiveAll;
    merged := LogCarries(encoder, s.log, sends, pongs);
    forall send | send in merged ensures WithinLimits(setup, encoder, send) {
      MergedFrom(s.log, merged, send);
    }
    DeliversToEnd(setup, t, Frames(s.log), encoder, merged);
    MessagesOfMerge(s.log, merged);
  }

  /** The payloads of the Pings among frames, as calls that send them back. */
  function PongCalls(fs: seq<Frame>): seq<Send> {
    if fs == [] then [] else (if IsPing(fs[0]) then [SendPong(fs[0].payload)] else []) + PongCalls(fs[1..])
  }

  /** A receiver's answers to Pings are such calls: one for each Ping, with its payload. */
  lemma {:induction false} PongsCarry(setup: Setup, encoder: Option<Inflation.Encoder>, drawn: nat, fs: seq<Frame>)
    ensures CarriesAll(encoder, Pongs(setup, drawn, fs), PongCalls(fs)) && ArePongs(PongCalls(fs))
    decreases |fs|
  {
    hide Carries, ReplyFrame;
    if fs != [] {
      PongsCarry(setup, encoder, if setup.client && IsPing(fs[0]) then drawn + 1 else drawn, fs[1..]);
      ReplyCarries(setup, encoder, drawn, fs[0].payload);
    }
  }

  lemma ReplyCarries(setup: Setup, encoder: Option<Inflation.Encoder>, drawn: nat, data: bytes)
    ensures Carries(encoder, ReplyFrame(setup, drawn, Pong, data), SendPong(data))
  {}

  // Both ends //////////////////////////////////////////////////////////////////////////////////////

  function OwedFor(send: Send): seq<Send> { if send.SendPing? then [SendPong(send.data)] else [] }

  /** The Pongs an end owes for these calls of its peer: one for each Ping, with its payload. */
  function Owed(sends: seq<Send>): seq<Send> {
    if sends == [] then [] else OwedFor(sends[0]) + Owed(sends[1..])
  }

  lemma {:induction false} OwedConcat(sends: seq<Send>, more: seq<Send>)
    ensures Owed(sends + more) == Owed(sends) + Owed(more)
  {
    hide OwedFor;
    if sends == [] {
      assert sends + more == more;
    } else {
      assert (sends + more)[0] == sends[0] && (sends + more)[1..] == sends[1..] + more;
      OwedConcat(sends[1..], more);
      AppendAssociates(OwedFor(sends[0]), Owed(sends[1..]), Owed(more));
    }
  }

  lemma OwedOne(send: Send)
    ensures Owed([send]) == if send.SendPing? then [SendPong(send.data)] else []
  {
    assert [send][1..] == [];
  }

  /** Frames are answered as the calls they carry. */
  lemma {:induction false} CarriedAreOwed(encoder: Option<Inflation.Encoder>, fs: seq<Frame>, sends: seq<Send>)
    requires CarriesAll(encoder, fs, sends)
    ensures PongCalls(fs) == Owed(sends)
    decreases |fs|
  {
    hide Carries;
    if fs != [] {
      CarriedPing(encoder, fs[0], sends[0]);
      CarriedAreOwed(encoder, fs[1..], sends[1..]);
    }
  }

  lemma CarriedPing(encoder: Option<Inflation.Encoder>, f: Frame, send: Send)
    requires Carries(encoder, f, send)
    ensures IsPing(f) <==> send.SendPing?
    ensures send.SendPing? ==> f.payload == send.data
  {}

  /** A receiver's Pongs are not answered. */
  lemma {:induction false} OwedOfMerge(log: seq<Entry>, merged: seq<Send>)
    requires |log| == |merged| && ArePongs(SideCalls(log, merged, ReceiverSide))
    ensures Owed(merged) == Owed(SideCalls(log, merged, SenderSide))
    decreases |log|
  {
    if log != [] {
      hide SideCalls, Owed, ArePongs;
      var last := |log| - 1;
      var before, front, send := log[..last], merged[..last], merged[last];
      LastEntry(log, merged);
      OwedOfMerge(before, front);
      OwedConcat(front, [send]);
      OwedConcat(SideCalls(before, front, SenderSide), [send]);
      OwedOne(send);
      assert Owed(front) + [] == Owed(front);
    }
  }

  /** The frames an end has written when it is quiescent, if its receiver wrote nothing but Pongs. */
  lemma Answered(
    run: seq<System>, encoder: Option<Inflation.Encoder>, sends: seq<Send>, pongs: seq<Send>)
    requires IsRun(run) && Quiescent(run[|run| - 1])
    requires var s := run[|run| - 1];
      CarriesAll(encoder, s.asked.sender, sends) && CarriesAll(encoder, s.asked.receiver, pongs) && ArePongs(pongs)
    ensures PongCalls(Frames(run[|run| - 1].log)) == Owed(sends)
  {
    var s := run[|run| - 1];
    RunKeeps(run);
    hide IsRun;
    assert SideFrames(s.log, SenderSide) + [] == SideFrames(s.log, SenderSide);
    assert SideFrames(s.log, ReceiverSide) + [] == SideFrames(s.log, ReceiverSide);
    hide Carries, CarriesAll, SideFrames, Frames, SideCalls, Owed, PongCalls;
    var merged := LogCarries(encoder, s.log, sends, pongs);
    CarriedAreOwed(encoder, Frames(s.log), merged);
    OwedOfMerge(s.log, merged);
  }

  /** One end of a connection that came to rest: how it is set up, the state its receiver started from, its sender's
      extension, what its sender was called with, and the steps its two halves took. */
  datatype Party = Party(
    setup: Setup, start: State, encoder: Option<Inflation.Encoder>, sends: seq<Send>, run: seq<System>)

  /** Has `x` come to rest, having received all that `y` wrote and answered it? */
  ghost predicate Talks(x: Party, y: Party) {
    && x.run != [] && y.run != []
    && var (mine, theirs) := (x.run[|x.run| - 1], y.run[|y.run| - 1]);
    && IsRun(x.run) && Quiescent(mine)
    && CarriesAll(x.encoder, mine.asked.sender, x.sends)
    && mine.asked.receiver == Pongs(x.setup, x.start.drawn, Frames(theirs.log))
    && Healthy(x.setup) && !x.start.closed && Matches(y.encoder, x.start.await) && x.start.Input() == theirs.wire
    && forall send | send in y.sends || send in Owed(x.sends) :: WithinLimits(x.setup, y.encoder, send)
  }

  lemma OwesWhatWasSent(x: Party, y: Party)
    requires Talks(x, y) && Talks(y, x)
    ensures var s := y.run[|y.run| - 1];
      CarriesAll(y.encoder, s.asked.receiver, Owed(x.sends)) && ArePongs(Owed(x.sends))
  {
    var (mine, theirs) := (x.run[|x.run| - 1], y.run[|y.run| - 1]);
    hide IsRun, Carries, CarriesAll, WithinLimits, Frames, Wires, Pongs, PongCalls, Owed, Matches, ArePongs, Healthy;
    PongsCarry(x.setup, x.encoder, x.start.drawn, Frames(theirs.log));
    PongsCarry(y.setup, y.encoder, y.start.drawn, Frames(mine.log));
    Answered(x.run, x.encoder, x.sends, PongCalls(Frames(theirs.log)));
  }

  /** Both directions at once: when two ends have come to rest, each having received all the other wrote and answered
      its Pings, the calls of `x` return an order-preserving merge of what the sender of `y` sent and one Pong for each
      Ping that the sender of `x` sent, with its payload and in their order. */
  lemma BothDirections(x: Party, y: Party) returns (merged: seq<Send>)
    requires Talks(x, y) && Talks(y, x)
    ensures var s := y.run[|y.run| - 1];
      && Merges(s.log, merged, y.sends, Owed(x.sends)) && AllArrives(x.setup, x.start, Frames(s.log), merged)
      && Messages(ReceiveAll(x.setup, x.start).0) == Messages(Expected(y.sends))
  {
    OwesWhatWasSent(x, y);
    hide IsRun, Carries, CarriesAll, WithinLimits, Frames, Wires, Pongs, Owed, Matches, ArePongs, Healthy;
    hide Expected, Messages, Merges, AllArrives, ReceiveAll;
    merged := FullDuplex(y.run, x.setup, x.start, y.encoder, y.sends, Owed(x.sends));
  }
}
