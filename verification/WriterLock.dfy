/** Sender and Receiver write through one lock: every interleaving of their steps leaves whole frames on the wire. */
module WriterLock {
  import opened Bytes
  import opened Base
  import opened HeaderLaws
  import opened Reading

  /** The two holders of the lock. */
  datatype Side = SenderSide | ReceiverSide

  /** A value for each side. */
  datatype PerSide<T> = PerSide(sender: T, receiver: T) {
    function Of(side: Side): T { if side.SenderSide? then sender else receiver }

    function With(side: Side, value: T): PerSide<T> {
      if side.SenderSide? then this.(sender := value) else this.(receiver := value)
    }
  }

  /** A frame somebody completed. */
  datatype Entry = Entry(side: Side, frame: Frame)

  /** The writer, its lock, the frames each side still has to write, and how far the lock holder is with its first
      one. `log` records the frames in the order in which they were completed, `asked` what each side was asked for. */
  datatype System = System(
    wire: bytes, lock: Option<Side>, todo: PerSide<seq<Frame>>, pos: nat, log: seq<Entry>, asked: PerSide<seq<Frame>>)
  {
    predicate Holds(side: Side) { lock == Some(side) && todo.Of(side) != [] }

    /** The bytes of the frame `side` is writing. */
    function Current(side: Side): bytes
      requires Holds(side)
    {
      Wire(todo.Of(side)[0])
    }
  }

  predicate Init(s: System) {
    s == System([], None, PerSide([], []), 0, [], PerSide([], []))
  }

  /** A call to `write` with a frame whose header is already encoded. */
  predicate Ask(s: System, t: System, side: Side, f: Frame) {
    t == s.(todo := s.todo.With(side, s.todo.Of(side) + [f]), asked := s.asked.With(side, s.asked.Of(side) + [f]))
  }

  /** `writer.lock().await` succeeds for a side that has a frame to write. */
  predicate Acquire(s: System, t: System, side: Side) {
    s.lock == None && s.todo.Of(side) != [] && t == s.(lock := Some(side), pos := 0)
  }

  /** The lock holder's `write_all` gets some more bytes of header or payload through. */
  predicate WriteSome(s: System, t: System, side: Side, n: nat) {
    && s.Holds(side) && s.pos + n <= |s.Current(side)|
    && t == s.(wire := s.wire + s.Current(side)[s.pos..s.pos + n], pos := s.pos + n)
  }

  /** `write` returns after the whole frame and drops the guard. */
  predicate Release(s: System, t: System, side: Side) {
    && s.Holds(side) && s.pos == |s.Current(side)|
    && t == s.(lock := None, pos := 0, todo := s.todo.With(side, s.todo.Of(side)[1..]),
               log := s.log + [Entry(side, s.todo.Of(side)[0])])
  }

  ghost predicate Next(s: System, t: System) {
    || (exists side, f :: Ask(s, t, side, f))
    || (exists side :: Acquire(s, t, side))
    || (exists side, n :: WriteSome(s, t, side, n))
    || (exists side :: Release(s, t, side))
  }

  /** The frames of the log, and those of one side. */
  function Frames(log: seq<Entry>): seq<Frame> {
    if log == [] then [] else Frames(log[..|log| - 1]) + [log[|log| - 1].frame]
  }

  function SideFrames(log: seq<Entry>, side: Side): seq<Frame> {
    if log == [] then []
    else SideFrames(log[..|log| - 1], side) + if log[|log| - 1].side == side then [log[|log| - 1].frame] else []
  }

  /** What the lock holder has written of its current frame. */
  function Partial(s: System): bytes
    requires LockIsUsed(s)
  {
    if s.lock.Some? then s.Current(s.lock.value)[..s.pos] else []
  }

  predicate LockIsUsed(s: System) {
    s.lock.Some? ==> s.Holds(s.lock.value) && s.pos <= |s.Current(s.lock.value)|
  }

  /** Each side's frames are written in the order in which that side asked for them. */
  predicate InOrder(s: System, side: Side) {
    s.asked.Of(side) == SideFrames(s.log, side) + s.todo.Of(side)
  }

  /** The wire is whole frames plus at most one partial frame, which belongs to the lock holder. */
  predicate Inv(s: System) {
    LockIsUsed(s) && s.wire == Wires(Frames(s.log)) + Partial(s) && InOrder(s, SenderSide) && InOrder(s, ReceiverSide)
  }

  lemma AskKeeps(s: System, t: System, side: Side, f: Frame)
    requires Inv(s) && Ask(s, t, side, f)
    ensures Inv(t)
  {
    hide Wire, Wires, Frames, SideFrames;
    if s.lock.Some? {
      assert t.todo.Of(s.lock.value)[0] == s.todo.Of(s.lock.value)[0];
    }
    assert SideFrames(s.log, side) + s.todo.Of(side) + [f] == SideFrames(s.log, side) + (s.todo.Of(side) + [f]);
  }

  lemma WriteKeeps(s: System, t: System, side: Side, n: nat)
    requires Inv(s) && WriteSome(s, t, side, n)
    ensures Inv(t)
  {
    hide Wire, Wires, Frames, SideFrames;
    var bs := s.Current(side);
    assert bs[..s.pos] + bs[s.pos..s.pos + n] == bs[..s.pos + n];
    assert Wires(Frames(s.log)) + bs[..s.pos] + bs[s.pos..s.pos + n] == Wires(Frames(s.log)) + bs[..s.pos + n];
  }

  lemma LogGrows(log: seq<Entry>, e: Entry, side: Side)
    ensures Frames(log + [e]) == Frames(log) + [e.frame]
    ensures SideFrames(log + [e], side) == SideFrames(log, side) + if e.side == side then [e.frame] else []
  {
    assert (log + [e])[..|log|] == log;
  }

  lemma OneMore(fs: seq<Frame>, f: Frame)
    ensures Wires(fs + [f]) == Wires(fs) + Wire(f)
  {
    hide Wire;
    WiresConcat(fs, [f]);
    assert [f][1..] == [];
  }

  lemma ReleaseKeeps(s: System, t: System, side: Side)
    requires Inv(s) && Release(s, t, side)
    ensures Inv(t)
  {
    hide Wire, Wires, Frames, SideFrames;
    var f := s.todo.Of(side)[0];
    var e := Entry(side, f);
    LogGrows(s.log, e, SenderSide);
    LogGrows(s.log, e, ReceiverSide);
    OneMore(Frames(s.log), f);
    assert s.Current(side)[..s.pos] == Wire(f);
    assert SideFrames(s.log, side) + s.todo.Of(side) == SideFrames(s.log, side) + [f] + s.todo.Of(side)[1..];
  }

  lemma NextKeeps(s: System, t: System)
    requires Inv(s) && Next(s, t)
    ensures Inv(t)
  {
    hide Inv, Ask, WriteSome, Release;
    if side, f :| Ask(s, t, side, f) {
      AskKeeps(s, t, side, f);
    } else if side :| Acquire(s, t, side) {
      AcquireKeeps(s, t, side);
    } else if side, n :| WriteSome(s, t, side, n) {
      WriteKeeps(s, t, side, n);
    } else {
      var side :| Release(s, t, side);
      ReleaseKeeps(s, t, side);
    }
  }

  lemma AcquireKeeps(s: System, t: System, side: Side)
    requires Inv(s) && Acquire(s, t, side)
    ensures Inv(t)
  {
    hide Wire, Wires, Frames, SideFrames;
  }

  /** A run: an initial state, and steps of either side in any order. */
  ghost predicate IsRun(run: seq<System>) {
    run != [] && Init(run[0]) && forall i | 0 <= i < |run| - 1 :: Next(run[i], run[i + 1])
  }

  lemma RunFront(run: seq<System>)
    requires IsRun(run) && |run| > 1
    ensures IsRun(run[..|run| - 1]) && Next(run[|run| - 2], run[|run| - 1])
  {
    hide Next, Init;
    var front := run[..|run| - 1];
    forall i | 0 <= i < |front| - 1 ensures Next(front[i], front[i + 1]) {
      assert front[i] == run[i] && front[i + 1] == run[i + 1];
    }
    assert Next(run[|run| - 2], run[|run| - 2 + 1]);
  }

  lemma {:induction false} RunKeeps(run: seq<System>)
    requires IsRun(run)
    ensures Inv(run[|run| - 1])
  {
    if |run| > 1 {
      hide Inv, Next, Init, IsRun;
      RunFront(run);
      RunKeeps(run[..|run| - 1]);
      NextKeeps(run[|run| - 2], run[|run| - 1]);
    }
  }

  // The peer's view ////////////////////////////////////////////////////////////////////////////////

  /** An unfinished frame yields nothing. */
  lemma UnfinishedFrame(limits: Limits, f: Frame, k: nat)
    requires Fits(limits, f) && k < |Wire(f)|
    ensures CutFrames(limits, Wire(f)[..k]) == ([], Wire(f)[..k])
  {
    var bs := Wire(f);
    HeaderRoundTrip(limits, f.header, Masked(f.header, f.payload));
    hide DecodeHeader, EncodeHeader, Masked, Admits;
    assert bs[..k] + bs[k..] == bs;
    DecodeExtends(limits, bs[..k], bs[k..]);
  }

  /** A whole frame is cut off. */
  lemma CutsOne(limits: Limits, f: Frame, tail: bytes)
    requires Fits(limits, f)
    ensures CutFrames(limits, Wire(f) + tail) ==
      var (more, left) := CutFrames(limits, tail);
      ([f] + more, left)
  {
    var head, body := EncodeHeader(f.header), Masked(f.header, f.payload);
    assert Wire(f) == head + body && |body| == f.header.payloadLen;
    HeaderRoundTrip(limits, f.header, body + tail);
    hide DecodeHeader, EncodeHeader, Masked, Admits, Wire;
    AppendAssociates(head, body, tail);
    MaskInvolution(f.header, f.payload);
    Middle(head, body, tail);
  }

  lemma Middle(a: bytes, b: bytes, c: bytes)
    ensures var s := a + b + c;
      s[|a|..|a| + |b|] == b && s[|a| + |b|..] == c
  {}

  lemma {:induction false} CutsWires(limits: Limits, fs: seq<Frame>, rest: bytes)
    requires forall f | f in fs :: Fits(limits, f)
    ensures CutFrames(limits, Wires(fs) + rest) ==
      var (more, left) := CutFrames(limits, rest);
      (fs + more, left)
    decreases |fs|
  {
    hide CutFrames, Fits, Wire;
    if fs == [] {
      assert Wires(fs) + rest == rest;
      assert fs + CutFrames(limits, rest).0 == CutFrames(limits, rest).0;
    } else {
      var f, tail := fs[0], Wires(fs[1..]) + rest;
      assert f in fs;
      assert Wires(fs) + rest == Wire(f) + tail;
      CutsOne(limits, f, tail);
      CutsWires(limits, fs[1..], rest);
      var more := CutFrames(limits, rest).0;
      assert fs + more == [f] + (fs[1..] + more);
    }
  }

  lemma {:induction false} LoggedWasAsked(log: seq<Entry>, f: Frame)
    requires f in Frames(log)
    ensures f in SideFrames(log, SenderSide) || f in SideFrames(log, ReceiverSide)
  {
    var e := log[|log| - 1];
    if f != e.frame {
      LoggedWasAsked(log[..|log| - 1], f);
    }
  }

  /** Frame atomicity: in every run the peer cuts the wire into exactly the completed frames, which are an
      order-preserving merge of what the two sides were asked to send; only while the lock is held is there more, and
      that is the beginning of the lock holder's frame, or all of it. */
  lemma FrameAtomicity(limits: Limits, run: seq<System>)
    requires IsRun(run)
    requires var s := run[|run| - 1];
      forall f | f in s.asked.sender || f in s.asked.receiver :: Fits(limits, f)
    ensures var s := run[|run| - 1];
      && LockIsUsed(s)
      && InOrder(s, SenderSide) && InOrder(s, ReceiverSide)
      && CutFrames(limits, s.wire) ==
        if s.lock.Some? && s.pos == |s.Current(s.lock.value)| then
          (Frames(s.log) + [s.todo.Of(s.lock.value)[0]], [])
        else (Frames(s.log), Partial(s))
  {
    RunKeeps(run);
    hide IsRun;
    CutsSystem(limits, run[|run| - 1]);
  }

  lemma CutsSystem(limits: Limits, s: System)
    requires Inv(s) && forall f | f in s.asked.sender || f in s.asked.receiver :: Fits(limits, f)
    ensures CutFrames(limits, s.wire) ==
      if s.lock.Some? && s.pos == |s.Current(s.lock.value)| then
        (Frames(s.log) + [s.todo.Of(s.lock.value)[0]], [])
      else (Frames(s.log), Partial(s))
  {
    hide Fits, Wire, Wires, Frames, SideFrames, CutFrames;
    forall f | f in Frames(s.log) ensures Fits(limits, f) {
      LoggedWasAsked(s.log, f);
    }
    CutsWires(limits, Frames(s.log), Partial(s));
    NothingToCut(limits);
    assert Frames(s.log) + [] == Frames(s.log);
    if s.lock.Some? {
      var f := s.todo.Of(s.lock.value)[0];
      assert f in s.asked.Of(s.lock.value);
      if s.pos == |Wire(f)| {
        CutsOne(limits, f, []);
        assert Partial(s) == Wire(f) + [] && [f] + [] == [f];
      } else {
        UnfinishedFrame(limits, f, s.pos);
      }
    }
  }
}
