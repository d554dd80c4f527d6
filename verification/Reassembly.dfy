/** Fragmentation (section 5.4 of RFC 6455): what `receive` makes of a sequence of frames. */
module Reassembly {
  import opened Bytes
  import opened Base
  import opened Protocol
  import opened Reading

  /** The writer never breaks, and the size bound is a machine word. */
  predicate Healthy(setup: Setup) {
    setup.failAt.None? && setup.flushes && setup.maxMessageSize <= USIZE_MAX
  }

  predicate IsData(f: Frame) { !f.header.opcode.IsControl() }

  predicate IsPing(f: Frame) { f.header.opcode.Ping? }

  /** The application payload of a frame sequence. */
  function Payloads(fs: seq<Frame>): bytes {
    if fs == [] then [] else (if IsData(fs[0]) then fs[0].payload else []) + Payloads(fs[1..])
  }

  lemma {:induction false} PayloadsConcat(fs: seq<Frame>, gs: seq<Frame>)
    ensures Payloads(fs + gs) == Payloads(fs) + Payloads(gs)
  {
    if fs == [] {
      assert fs + gs == gs;
    } else {
      assert (fs + gs)[1..] == fs[1..] + gs;
      PayloadsConcat(fs[1..], gs);
    }
  }

  lemma OneMoreFrame(fs: seq<Frame>, f: Frame)
    ensures Wires(fs + [f]) == Wires(fs) + Wire(f)
    ensures Payloads(fs + [f]) == Payloads(fs) + if IsData(f) then f.payload else []
  {
    hide Wire;
    WiresConcat(fs, [f]);
    PayloadsConcat(fs, [f]);
    assert [f][1..] == [];
  }

  /** The frame a receiver replies with, masked with key number `drawn` on the client side. */
  function ReplyFrame(setup: Setup, drawn: nat, opcode: OpCode, data: bytes): Frame {
    Frame(Sent(setup.client, setup.keys, drawn, NewHeader(opcode), data), data)
  }

  /** The Pongs that answer the Pings of a frame sequence, with the replier's keys from `drawn` on. */
  function Pongs(setup: Setup, drawn: nat, fs: seq<Frame>): seq<Frame>
    decreases |fs|
  {
    if fs == [] then []
    else if IsPing(fs[0]) then
      [ReplyFrame(setup, drawn, Pong, fs[0].payload)]
      + Pongs(setup, if setup.client then drawn + 1 else drawn, fs[1..])
    else Pongs(setup, drawn, fs[1..])
  }

  function DrawnAfter(setup: Setup, drawn: nat, fs: seq<Frame>): nat
    decreases |fs|
  {
    if fs == [] then drawn
    else DrawnAfter(setup, if setup.client && IsPing(fs[0]) then drawn + 1 else drawn, fs[1..])
  }

  ghost predicate HasData(fs: seq<Frame>) { exists f | f in fs :: IsData(f) }

  /** Is frame `i` a data frame where section 5.4 allows it, if the message is already open at the start or not?
      An opening frame carries an opcode, every later frame of the message is a continuation. */
  ghost predicate WellPlaced(fs: seq<Frame>, i: nat, open: bool)
    requires i < |fs|
  {
    IsData(fs[i]) && (fs[i].header.opcode.Continue? <==> open || HasData(fs[..i]))
  }

  /** Frames inside a message: Pings, and fragments that are not the last one. */
  ghost predicate Inside(fs: seq<Frame>, open: bool) {
    forall i | 0 <= i < |fs| :: IsPing(fs[i]) || (WellPlaced(fs, i, open) && !fs[i].header.fin)
  }

  ghost predicate AllFit(setup: Setup, fs: seq<Frame>) {
    forall f | f in fs :: Fits(setup.limits, f)
  }

  /** The deflate flag after a data frame that is not the last of its message. */
  function Armed(await: Option<bool>, h: Header, message: bytes): Option<bool> {
    match await
    case None => None
    case Some(a) => Some(a || (!h.opcode.Continue? && h.rsv1 && message != []))
  }

  /** The state after a frame inside a message. */
  function AbsorbOne(setup: Setup, s: State, f: Frame): State {
    var s' := s.Advance(|Wire(f)|);
    if IsData(f) then
      var message := s.message + f.payload;
      s'.(message := message, await := Armed(s.await, f.header, message))
    else Replied(setup, s', Pong, f.payload)
  }

  function Absorb(setup: Setup, s: State, fs: seq<Frame>): State
    decreases |fs|
  {
    if fs == [] then s else Absorb(setup, AbsorbOne(setup, s, fs[0]), fs[1..])
  }

  /** The opcode of the first data frame. */
  function Kind(fs: seq<Frame>): Option<OpCode> {
    if fs == [] then None else if IsData(fs[0]) then Some(fs[0].header.opcode) else Kind(fs[1..])
  }

  function Progressed(p: Progress, fs: seq<Frame>): Progress {
    Progress(if p.first.Some? then p.first else Kind(fs), p.length + |Payloads(fs)|, p.start)
  }

  /** May this frame come next inside a message? */
  predicate GoesOn(f: Frame, open: bool) {
    IsPing(f) || (IsData(f) && !f.header.fin && (f.header.opcode.Continue? <==> open))
  }

  lemma InsideSplit(fs: seq<Frame>, open: bool)
    requires fs != [] && Inside(fs, open)
    ensures GoesOn(fs[0], open) && Inside(fs[1..], open || IsData(fs[0]))
  {
    assert IsPing(fs[0]) || WellPlaced(fs, 0, open);
    forall i | 0 <= i < |fs| - 1
      ensures IsPing(fs[1..][i]) || (WellPlaced(fs[1..], i, open || IsData(fs[0])) && !fs[1..][i].header.fin)
    {
      assert fs[..i + 1] == [fs[0]] + fs[1..][..i];
    }
  }

  /** The loop's locals after a frame inside a message. */
  function ProgressedOne(p: Progress, f: Frame): Progress {
    if IsData(f) then
      p.(first := if p.first.Some? then p.first else Some(f.header.opcode), length := p.length + |f.payload|)
    else p
  }

  lemma PingGoesOn(setup: Setup, p: Progress, s: State, f: Frame)
    requires Healthy(setup) && IsPing(f)
    ensures OnWhole(setup, p, s, f) == Loop(Replied(setup, s, Pong, f.payload), p)
  {
    hide Put, EncodeHeader;
  }

  lemma FragmentGoesOn(setup: Setup, p: Progress, s: State, f: Frame)
    requires IsData(f) && GoesOn(f, p.first.Some?) && !f.header.opcode.IsReserved()
    requires p.length + |f.payload| <= USIZE_MAX
    ensures var message := s.message + f.payload;
      OnWhole(setup, p, s, f) ==
        Loop(s.(message := message, await := Armed(s.await, f.header, message)), ProgressedOne(p, f))
  {}

  /** One frame inside a message makes the loop go round once. */
  lemma LoopOnce(setup: Setup, p: Progress, s: State, f: Frame, rest: bytes)
    requires Healthy(setup) && !s.closed && Fits(setup.limits, f) && s.Input() == Wire(f) + rest
    requires GoesOn(f, p.first.Some?) && (IsData(f) ==> p.length + |f.payload| <= setup.maxMessageSize)
    ensures Iterate(setup, p, s) == Loop(AbsorbOne(setup, s, f), ProgressedOne(p, f))
    ensures AbsorbOne(setup, s, f).Input() == rest && !AbsorbOne(setup, s, f).closed
  {
    assert !f.header.opcode.IsReserved();
    hide Iterate, Wire, Fits, Put, State.Advance, OnWhole, Reply;
    IterateFrame(setup, p, s, f, rest);
    if IsPing(f) {
      PingGoesOn(setup, p, s.Advance(|Wire(f)|), f);
    } else {
      FragmentGoesOn(setup, p, s.Advance(|Wire(f)|), f);
    }
  }

  /** Frames inside a message only bring the loop to a later state. */
  lemma {:induction false} LoopOver(setup: Setup, p: Progress, s: State, fs: seq<Frame>, rest: bytes)
    requires Healthy(setup) && !s.closed && AllFit(setup, fs) && s.Input() == Wires(fs) + rest
    requires Inside(fs, p.first.Some?) && p.length + |Payloads(fs)| <= setup.maxMessageSize
    ensures Continued(setup, p, s) == Continued(setup, Progressed(p, fs), Absorb(setup, s, fs))
    ensures Absorb(setup, s, fs).Input() == rest && !Absorb(setup, s, fs).closed
    decreases |fs|
  {
    hide Iterate, Wire, Fits, AbsorbOne, Inside;
    if fs == [] {
      assert Wires(fs) + rest == rest;
    } else {
      var f, fs' := fs[0], fs[1..];
      InsideSplit(fs, p.first.Some?);
      assert AllFit(setup, fs');
      hide AllFit;
      assert Wires(fs) + rest == Wire(f) + (Wires(fs') + rest);
      LoopOnce(setup, p, s, f, Wires(fs') + rest);
      LoopOver(setup, ProgressedOne(p, f), AbsorbOne(setup, s, f), fs', rest);
    }
  }

  /** The state after frames inside a message or a whole message, without an extension: the payload joined the
      message, and every Ping was answered. */
  function After(setup: Setup, s: State, fs: seq<Frame>): State {
    s.Advance(|Wires(fs)|).(
      message := s.message + Payloads(fs),
      wire := s.wire + Wires(Pongs(setup, s.drawn, fs)),
      drawn := DrawnAfter(setup, s.drawn, fs))
  }

  lemma PutWhole(wire: bytes, h: Header, data: bytes)
    ensures Put(None, wire, h, data) == wire + FrameBytes(h, data) && Fit(None, wire, h, data)
  {
    hide EncodeHeader, Masked;
  }

  lemma AfterPing(setup: Setup, s: State, f: Frame, fs: seq<Frame>)
    requires Healthy(setup) && IsPing(f)
    ensures After(setup, s, [f] + fs) == After(setup, AbsorbOne(setup, s, f), fs).(await := s.await)
  {
    hide Drop, Wire, FrameBytes, Put, Fit, Sent;
    var s', gs := s.Advance(|Wire(f)|), [f] + fs;
    assert gs[0] == f && gs[1..] == fs;
    AdvanceTwice(s, |Wire(f)|, |Wires(fs)|);
    var h := Reply(setup, s', Pong, f.payload);
    PutWhole(s.wire, h, f.payload);
    WireOf(Frame(h, f.payload));
    var more := Pongs(setup, AbsorbOne(setup, s, f).drawn, fs);
    assert ([Frame(h, f.payload)] + more)[1..] == more;
    assert s.wire + Wires([Frame(h, f.payload)] + more) == s.wire + FrameBytes(h, f.payload) + Wires(more);
  }

  lemma WireOf(f: Frame)
    ensures Wire(f) == FrameBytes(f.header, f.payload)
  {}

  lemma AfterFragment(setup: Setup, s: State, f: Frame, fs: seq<Frame>)
    requires Healthy(setup) && IsData(f)
    ensures After(setup, s, [f] + fs) == After(setup, AbsorbOne(setup, s, f), fs).(await := s.await)
  {
    hide Drop, Wire, Sent;
    var gs := [f] + fs;
    assert gs[0] == f && gs[1..] == fs;
    AdvanceTwice(s, |Wire(f)|, |Wires(fs)|);
    assert s.message + (f.payload + Payloads(fs)) == s.message + f.payload + Payloads(fs);
  }

  /** What a run of frames inside a message does to the state, in closed form. */
  lemma {:induction false} AbsorbIsAfter(setup: Setup, s: State, fs: seq<Frame>)
    requires Healthy(setup) && forall f | f in fs :: IsPing(f) || IsData(f)
    ensures Absorb(setup, s, fs) == After(setup, s, fs).(await := Absorb(setup, s, fs).await)
    ensures Absorb(setup, s, fs).await.None? <==> s.await.None?
    decreases |fs|
  {
    hide AbsorbOne, Replied;
    if fs == [] {
      assert s.Advance(0) == s;
    } else {
      assert fs == [fs[0]] + fs[1..];
      if IsPing(fs[0]) {
        AfterPing(setup, s, fs[0], fs[1..]);
      } else {
        AfterFragment(setup, s, fs[0], fs[1..]);
      }
      AbsorbOneKeepsExtension(setup, s, fs[0]);
      AbsorbIsAfter(setup, AbsorbOne(setup, s, fs[0]), fs[1..]);
    }
  }

  lemma AbsorbOneKeepsExtension(setup: Setup, s: State, f: Frame)
    ensures AbsorbOne(setup, s, f).await.None? <==> s.await.None?
  {}

  /** Does a data frame at this point end the message properly? */
  predicate Ends(f: Frame, open: bool) {
    IsData(f) && f.header.fin && (f.header.opcode.Continue? <==> open)
  }

  /** One message of section 5.4: frames inside it, with Pings between them, and a last fragment. */
  ghost predicate IsMessage(fs: seq<Frame>) {
    fs != [] && Inside(fs[..|fs| - 1], false) && Ends(fs[|fs| - 1], HasData(fs[..|fs| - 1]))
  }

  function DataOf(kind: OpCode, size: nat): Incoming {
    if kind.Text? then TextData(size) else BinaryData(size)
  }

  lemma {:induction false} KindIsData(fs: seq<Frame>)
    ensures HasData(fs) <==> Kind(fs).Some?
  {
    if fs != [] {
      KindIsData(fs[1..]);
      assert HasData(fs) <==> IsData(fs[0]) || HasData(fs[1..]);
    }
  }

  /** The rest of a `receive` call after a step of its loop. */
  function Resumed(setup: Setup, step: Step): (State, Outcome) {
    match step
    case Return(s, outcome) => (s, outcome)
    case Loop(s, p) => Continued(setup, p, s)
  }

  /** The state of the loop at the first frame that may not be inside the message, with the flag the frames before it
      have left. */
  lemma ReachesFrame(setup: Setup, s: State, inside: seq<Frame>, f: Frame, rest: bytes)
    requires Healthy(setup) && !s.closed
    requires AllFit(setup, inside) && Fits(setup.limits, f) && s.Input() == Wires(inside) + (Wire(f) + rest)
    requires Inside(inside, false)
    requires |Payloads(inside)| + (if IsData(f) then |f.payload| else 0) <= setup.maxMessageSize
    ensures var p := Progressed(Progress(None, 0, |s.message|), inside);
      var s' := After(setup, s, inside).(await := Absorb(setup, s, inside).await).Advance(|Wire(f)|);
      && s'.Input() == rest && !s'.closed
      && Receive(setup, s) == Resumed(setup, OnWhole(setup, p, s', f))
    ensures s.await.None? ==>
      After(setup, s, inside).(await := Absorb(setup, s, inside).await) == After(setup, s, inside)
  {
    var p := Progress(None, 0, |s.message|);
    LoopOver(setup, p, s, inside, Wire(f) + rest);
    InsideKinds(inside, false);
    AbsorbIsAfter(setup, s, inside);
    hide Inside, Wire, OnWhole, Absorb, Fits, Iterate;
    IterateFrame(setup, Progressed(p, inside), Absorb(setup, s, inside), f, rest);
  }

  lemma InsideKinds(fs: seq<Frame>, open: bool)
    requires Inside(fs, open)
    ensures forall f | f in fs :: IsPing(f) || IsData(f)
  {
    forall f | f in fs ensures IsPing(f) || IsData(f) {
      var i :| 0 <= i < |fs| && fs[i] == f;
      assert IsPing(fs[i]) || WellPlaced(fs, i, open);
    }
  }

  /** The last data frame of a message without an extension. */
  lemma LastFragment(setup: Setup, p: Progress, s: State, f: Frame)
    requires s.await.None? && Ends(f, p.first.Some?)
    requires 0 <= |s.message| + |f.payload| - p.start <= USIZE_MAX
    ensures OnWhole(setup, p, s, f) ==
      Return(s.(message := s.message + f.payload),
        Ok(DataOf(if p.first.Some? then p.first.value else f.header.opcode, |s.message| + |f.payload| - p.start)))
  {}

  lemma ReassemblyOf(setup: Setup, s: State, inside: seq<Frame>, f: Frame, rest: bytes)
    requires Healthy(setup) && !s.closed && s.await.None?
    requires AllFit(setup, inside) && Fits(setup.limits, f) && s.Input() == Wires(inside) + (Wire(f) + rest)
    requires Inside(inside, false) && Ends(f, HasData(inside))
    requires |Payloads(inside)| + |f.payload| <= setup.maxMessageSize
    ensures var kind := if Kind(inside).Some? then Kind(inside).value else f.header.opcode;
      Receive(setup, s) ==
        (After(setup, s, inside).Advance(|Wire(f)|).(message := s.message + Payloads(inside) + f.payload),
         Ok(DataOf(kind, |Payloads(inside)| + |f.payload|)))
    ensures After(setup, s, inside).Advance(|Wire(f)|).Input() == rest
  {
    hide Wire, Wires, Payloads, Pongs, Inside, DrawnAfter, Fits, AllFit, Receive, OnWhole, Drop, State.Input;
    KindIsData(inside);
    ReachesFrame(setup, s, inside, f, rest);
    var p := Progressed(Progress(None, 0, |s.message|), inside);
    LastFragment(setup, p, After(setup, s, inside).Advance(|Wire(f)|), f);
  }

  /** Reassembly: whatever the number of fragments, their keys and the Pings between them, the message is the
      concatenation of the payloads, its kind is the first fragment's, and every Ping is answered. */
  lemma Reassembles(setup: Setup, s: State, fs: seq<Frame>, rest: bytes)
    requires Healthy(setup) && !s.closed && s.await.None?
    requires AllFit(setup, fs) && IsMessage(fs) && |Payloads(fs)| <= setup.maxMessageSize
    requires s.Input() == Wires(fs) + rest
    ensures Kind(fs).Some?
    ensures Receive(setup, s) == (After(setup, s, fs), Ok(DataOf(Kind(fs).value, |Payloads(fs)|)))
    ensures After(setup, s, fs).Input() == rest
  {
    hide After, Wire, Wires, Payloads, Pongs, Inside, HasData, Kind, DrawnAfter, Fits, Receive, State.Advance;
    var inside, f := fs[..|fs| - 1], fs[|fs| - 1];
    assert AllFit(setup, inside) && Fits(setup.limits, f);
    hide AllFit;
    assert fs == inside + [f];
    SnocParts(setup, s.drawn, inside, f);
    Snoc(setup, s, inside, f);
    assert Wires(inside) + Wire(f) + rest == Wires(inside) + (Wire(f) + rest);
    ReassemblyOf(setup, s, inside, f, rest);
  }

  lemma SnocParts(setup: Setup, drawn: nat, fs: seq<Frame>, f: Frame)
    requires IsData(f)
    ensures Wires(fs + [f]) == Wires(fs) + Wire(f)
    ensures Payloads(fs + [f]) == Payloads(fs) + f.payload
    ensures Kind(fs + [f]) == if Kind(fs).Some? then Kind(fs) else Some(f.header.opcode)
    ensures Pongs(setup, drawn, fs + [f]) == Pongs(setup, drawn, fs)
    ensures DrawnAfter(setup, drawn, fs + [f]) == DrawnAfter(setup, drawn, fs)
  {
    hide Wire, Wires, Payloads, Kind, Pongs, DrawnAfter;
    OneMoreFrame(fs, f);
    KindSnoc(fs, f);
    PongsSnoc(setup, drawn, fs, f);
  }

  lemma {:induction false} KindSnoc(fs: seq<Frame>, f: Frame)
    requires IsData(f)
    ensures Kind(fs + [f]) == if Kind(fs).Some? then Kind(fs) else Some(f.header.opcode)
  {
    if fs == [] {
      assert fs + [f] == [f];
    } else {
      assert (fs + [f])[0] == fs[0] && (fs + [f])[1..] == fs[1..] + [f];
      KindSnoc(fs[1..], f);
    }
  }

  lemma {:induction false} PongsSnoc(setup: Setup, drawn: nat, fs: seq<Frame>, f: Frame)
    requires IsData(f)
    ensures Pongs(setup, drawn, fs + [f]) == Pongs(setup, drawn, fs)
    ensures DrawnAfter(setup, drawn, fs + [f]) == DrawnAfter(setup, drawn, fs)
    decreases |fs|
  {
    hide ReplyFrame;
    if fs == [] {
      assert fs + [f] == [f] && [f][1..] == [];
    } else {
      assert (fs + [f])[0] == fs[0] && (fs + [f])[1..] == fs[1..] + [f];
      PongsSnoc(setup, if setup.client && IsPing(fs[0]) then drawn + 1 else drawn, fs[1..], f);
    }
  }

  lemma Snoc(setup: Setup, s: State, fs: seq<Frame>, f: Frame)
    requires IsData(f)
    ensures After(setup, s, fs + [f]) ==
      After(setup, s, fs).Advance(|Wire(f)|).(message := s.message + Payloads(fs) + f.payload)
  {
    hide Wire, Drop, Wires, Payloads, Pongs, DrawnAfter;
    SnocParts(setup, s.drawn, fs, f);
    AdvanceTwice(s, |Wires(fs)|, |Wire(f)|);
  }
}
