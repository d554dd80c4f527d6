/** When `receive` rejects a frame sequence, and what a Pong inside a message does. */
module Grammar {
  import opened Bytes
  import opened Base
  import opened Protocol
  import opened Utf8
  import opened Reading
  import opened Reassembly

  /** Frame `i` is the first to break the fragmentation grammar: everything before it is inside one message, and
      it is a data frame that section 5.4 does not allow there. */
  ghost predicate Breaks(fs: seq<Frame>, i: nat) {
    i < |fs| && Inside(fs[..i], false) && IsData(fs[i]) && !WellPlaced(fs, i, false)
  }

  /** The number of frames from the start that are inside one message. */
  ghost function InsideCount(fs: seq<Frame>, open: bool): (n: nat)
    ensures n <= |fs|
    decreases |fs|
  {
    if fs == [] || !GoesOn(fs[0], open) then 0 else 1 + InsideCount(fs[1..], open || IsData(fs[0]))
  }

  lemma InsideJoin(f: Frame, fs: seq<Frame>, open: bool)
    requires GoesOn(f, open) && Inside(fs, open || IsData(f))
    ensures Inside([f] + fs, open)
  {
    var gs := [f] + fs;
    forall i | 0 <= i < |gs| ensures IsPing(gs[i]) || (WellPlaced(gs, i, open) && !gs[i].header.fin) {
      if i > 0 {
        assert gs[i] == fs[i - 1] && gs[..i] == [f] + fs[..i - 1];
        assert IsPing(fs[i - 1]) || WellPlaced(fs, i - 1, open || IsData(f));
      }
    }
  }

  lemma {:induction false} InsideCounted(fs: seq<Frame>, open: bool)
    ensures var n := InsideCount(fs, open);
      Inside(fs[..n], open) && (n < |fs| ==> !GoesOn(fs[n], open || HasData(fs[..n])))
    decreases |fs|
  {
    var n := InsideCount(fs, open);
    if n > 0 {
      var f, fs', n' := fs[0], fs[1..], n - 1;
      InsideCounted(fs', open || IsData(f));
      assert fs[..n] == [f] + fs'[..n'];
      InsideJoin(f, fs'[..n'], open);
      assert HasData(fs[..n]) <==> IsData(f) || HasData(fs'[..n']);
    }
  }

  predicate IsUnexpected(outcome: Outcome) {
    outcome.Err? && outcome.error.UnexpectedOpCode?
  }

  /** A data frame that is neither inside nor at the end of a message is rejected, and nothing else is rejected
      that way. */
  lemma RejectsFrame(setup: Setup, p: Progress, s: State, f: Frame)
    requires Healthy(setup) && !GoesOn(f, p.first.Some?)
    ensures var r := Resumed(setup, OnWhole(setup, p, s, f)).1;
      if IsData(f) && (f.header.opcode.Continue? <==> !p.first.Some?) then r == Err(UnexpectedOpCode(f.header.opcode))
      else !IsUnexpected(r)
  {
    hide Put, IsUtf8, FromBigEndian, ToBigEndian, IsAcceptableCode, NextHeader;
  }

  lemma PayloadsNext(fs: seq<Frame>, i: nat)
    requires i < |fs|
    ensures Payloads(fs[..i + 1]) == Payloads(fs[..i]) + if IsData(fs[i]) then fs[i].payload else []
  {
    hide IsData, Payloads, Wires;
    assert fs[..i + 1] == fs[..i] + [fs[i]];
    OneMoreFrame(fs[..i], fs[i]);
  }

  function ProgressAt(s: State, fs: seq<Frame>, i: nat): Progress
    requires i <= |fs|
  {
    Progressed(Progress(None, 0, |s.message|), fs[..i])
  }

  /** The state when frame `i` has left the input, as long as everything before it was inside the message. */
  function StateAt(setup: Setup, s: State, fs: seq<Frame>, i: nat): State
    requires i < |fs|
  {
    After(setup, s, fs[..i]).(await := Absorb(setup, s, fs[..i]).await).Advance(|Wire(fs[i])|)
  }

  /** A call that gets to frame `i` without leaving its loop. */
  lemma AtFrame(setup: Setup, s: State, fs: seq<Frame>, i: nat, rest: bytes)
    requires Healthy(setup) && !s.closed && AllFit(setup, fs)
    requires i < |fs| && |Payloads(fs[..i + 1])| <= setup.maxMessageSize && s.Input() == Wires(fs) + rest
    requires Inside(fs[..i], false)
    ensures ProgressAt(s, fs, i).first.Some? <==> HasData(fs[..i])
    ensures StateAt(setup, s, fs, i).Input() == Wires(fs[i + 1..]) + rest
    ensures !StateAt(setup, s, fs, i).closed
    ensures Receive(setup, s) == Resumed(setup, OnWhole(setup, ProgressAt(s, fs, i), StateAt(setup, s, fs, i), fs[i]))
  {
    assert AllFit(setup, fs[..i]) && Fits(setup.limits, fs[i]);
    hide AllFit, Fits, Inside, Wire, Wires, Payloads, Pongs, Receive, OnWhole, Resumed, Kind, HasData, DrawnAfter;
    hide State.Input, Drop, Absorb, After;
    WiresSplit(fs, i);
    PayloadsNext(fs, i);
    AppendAssociates(Wires(fs[..i]), Wire(fs[i]) + Wires(fs[i + 1..]), rest);
    AppendAssociates(Wire(fs[i]), Wires(fs[i + 1..]), rest);
    KindIsData(fs[..i]);
    ReachesFrame(setup, s, fs[..i], fs[i], Wires(fs[i + 1..]) + rest);
  }

  /** What becomes of a call at the first frame that is not inside the message. */
  lemma RejectsAt(setup: Setup, s: State, fs: seq<Frame>, i: nat, rest: bytes)
    requires Healthy(setup) && !s.closed && AllFit(setup, fs)
    requires i < |fs| && |Payloads(fs[..i + 1])| <= setup.maxMessageSize && s.Input() == Wires(fs) + rest
    requires Inside(fs[..i], false) && !GoesOn(fs[i], HasData(fs[..i]))
    ensures var outcome := Receive(setup, s).1;
      if Breaks(fs, i) then outcome == Err(UnexpectedOpCode(fs[i].header.opcode)) else !IsUnexpected(outcome)
  {
    hide AllFit, Inside, Wires, Receive, After, OnWhole, Resumed, Progressed, HasData;
    AtFrame(setup, s, fs, i, rest);
    RejectsFrame(setup, ProgressAt(s, fs, i), StateAt(setup, s, fs, i), fs[i]);
  }

  /** Bytes that do not start with a whole frame: an incomplete or invalid header, or an incomplete payload. */
  predicate HasNoFrame(limits: Limits, bs: bytes) {
    match DecodeHeader(limits, bs)
    case Done(h, n) => |bs| < n + h.payloadLen
    case _ => true
  }

  /** A call whose input has no further frame does not reject one. */
  lemma RejectsNothing(setup: Setup, p: Progress, s: State)
    requires !s.closed && HasNoFrame(setup.limits, s.Input())
    ensures !IsUnexpected(Continued(setup, p, s).1)
  {
    hide DecodeHeader, NextHeader, Masked, Zeros, OnControl, OnData;
    NextHeaderOfInput(setup.limits, s.buffer, s.unread);
    match DecodeHeader(setup.limits, s.Input()) {
      case Done(h, n) => AdvanceInput(s, n);
      case _ =>
    }
  }

  /** A call whose input leaves it inside a message. */
  lemma AtEnd(setup: Setup, s: State, fs: seq<Frame>, rest: bytes)
    requires Healthy(setup) && !s.closed && AllFit(setup, fs)
    requires |Payloads(fs)| <= setup.maxMessageSize && s.Input() == Wires(fs) + rest && Inside(fs, false)
    requires HasNoFrame(setup.limits, rest)
    ensures !IsUnexpected(Receive(setup, s).1)
  {
    hide Absorb, AllFit, Inside, Wires, HasNoFrame, IsUnexpected, Iterate;
    LoopOver(setup, Progress(None, 0, |s.message|), s, fs, rest);
    RejectsNothing(setup, Progressed(Progress(None, 0, |s.message|), fs), Absorb(setup, s, fs));
  }

  /** The frames up to the first that is not inside the message. */
  ghost function UpToFirst(fs: seq<Frame>): seq<Frame> { fs[..Min(InsideCount(fs, false) + 1, |fs|)] }

  /** `UnexpectedOpCode` is returned exactly when a data frame breaks the fragmentation grammar, and it names the
      first one that does. What comes behind the frames matters only if they leave the call inside a message. */
  lemma UnexpectedExactly(setup: Setup, s: State, fs: seq<Frame>, rest: bytes)
    requires Healthy(setup) && !s.closed && AllFit(setup, fs)
    requires |Payloads(UpToFirst(fs))| <= setup.maxMessageSize && s.Input() == Wires(fs) + rest
    requires InsideCount(fs, false) == |fs| ==> HasNoFrame(setup.limits, rest)
    ensures IsUnexpected(Receive(setup, s).1) <==> exists i: nat :: Breaks(fs, i)
    ensures forall i: nat :: Breaks(fs, i) ==> Receive(setup, s).1 == Err(UnexpectedOpCode(fs[i].header.opcode))
  {
    var n := InsideCount(fs, false);
    InsideCounted(fs, false);
    forall i: nat | Breaks(fs, i) ensures i == n {
      InsideUntil(fs, i);
    }
    hide AllFit, Inside, Wires, Receive, HasData, HasNoFrame;
    if n == |fs| {
      assert fs[..n] == fs;
      AtEnd(setup, s, fs, rest);
    } else {
      RejectsAt(setup, s, fs, n, rest);
    }
  }

  lemma InsideAt(fs: seq<Frame>, n: nat, i: nat)
    requires i < n <= |fs| && Inside(fs[..n], false)
    ensures IsPing(fs[i]) || (WellPlaced(fs, i, false) && !fs[i].header.fin)
  {
    assert IsPing(fs[..n][i]) || (WellPlaced(fs[..n], i, false) && !fs[..n][i].header.fin);
    assert fs[..n][..i] == fs[..i];
  }

  /** The number of frames inside the message is where a frame first breaks the grammar. */
  lemma InsideUntil(fs: seq<Frame>, i: nat)
    requires Breaks(fs, i)
    ensures InsideCount(fs, false) == i
  {
    hide Inside;
    InsideCounted(fs, false);
    var n := InsideCount(fs, false);
    if n < i {
      InsideAt(fs, i, n);
    } else if n > i {
      InsideAt(fs, n, i);
    }
  }

  /** Frames inside a message as the RFC allows them, with Pings and Pongs between the fragments. */
  ghost predicate InsideWithPongs(fs: seq<Frame>) {
    forall i | 0 <= i < |fs| ::
      IsPing(fs[i]) || fs[i].header.opcode.Pong? || (WellPlaced(fs, i, false) && !fs[i].header.fin)
  }

  ghost predicate IsMessageWithPongs(fs: seq<Frame>) {
    fs != [] && InsideWithPongs(fs[..|fs| - 1]) && Ends(fs[|fs| - 1], HasData(fs[..|fs| - 1]))
  }

  ghost predicate HasPong(fs: seq<Frame>) { exists f | f in fs :: f.header.opcode.Pong? }

  /** The index of the first Pong. */
  function FirstPong(fs: seq<Frame>): (i: nat)
    ensures i <= |fs| && (i < |fs| ==> fs[i].header.opcode.Pong?)
    ensures forall j | 0 <= j < i :: !fs[j].header.opcode.Pong?
  {
    if fs == [] || fs[0].header.opcode.Pong? then 0 else 1 + FirstPong(fs[1..])
  }

  lemma InsideUntilPong(fs: seq<Frame>, i: nat)
    requires i <= |fs| && InsideWithPongs(fs) && forall j | 0 <= j < i :: !fs[j].header.opcode.Pong?
    ensures Inside(fs[..i], false)
  {
    forall j | 0 <= j < i ensures IsPing(fs[..i][j]) || (WellPlaced(fs[..i], j, false) && !fs[..i][j].header.fin) {
      assert fs[..i][..j] == fs[..j];
    }
  }

  /** A call that is given a message the RFC allows ends with the first Pong, if there is one. */
  lemma FirstPongEndsCall(setup: Setup, s: State, fs: seq<Frame>, rest: bytes)
    requires Healthy(setup) && !s.closed && AllFit(setup, fs)
    requires |Payloads(fs)| <= setup.maxMessageSize && s.Input() == Wires(fs) + rest
    requires IsMessageWithPongs(fs) && FirstPong(fs) < |fs|
    ensures var i := FirstPong(fs);
      var t := StateAt(setup, s, fs, i);
      && Receive(setup, s) == (t, Ok(PongData(fs[i].payload)))
      && t.Input() == Wires(fs[i + 1..]) + rest && !t.closed && Inside(fs[..i], false)
  {
    hide AllFit, Wires, Receive, After, Progressed, Absorb;
    var i, last := FirstPong(fs), |fs| - 1;
    assert fs[..last][..i] == fs[..i];
    InsideUntilPong(fs[..last], i);
    PayloadsPrefix(fs, i + 1);
    AtFrame(setup, s, fs, i, rest);
  }

  /** Without a Pong, such a message is one of section 5.4. */
  lemma NoPongIsMessage(fs: seq<Frame>)
    requires IsMessageWithPongs(fs) && FirstPong(fs) == |fs|
    ensures IsMessage(fs)
  {
    var last := |fs| - 1;
    InsideUntilPong(fs[..last], last);
    assert fs[..last][..last] == fs[..last];
  }

  lemma PayloadsPrefix(fs: seq<Frame>, k: nat)
    requires k <= |fs|
    ensures |Payloads(fs[..k])| <= |Payloads(fs)| && |Payloads(fs[k..])| <= |Payloads(fs)|
    ensures Payloads(fs) == Payloads(fs[..k]) + Payloads(fs[k..])
  {
    assert fs == fs[..k] + fs[k..];
    PayloadsConcat(fs[..k], fs[k..]);
  }

  /** Pings and Pongs, and then a continuation at index `j`. */
  predicate ContinuesAt(fs: seq<Frame>, j: nat) {
    && j < |fs| && fs[j].header.opcode.Continue?
    && forall k | 0 <= k < j :: IsPing(fs[k]) || fs[k].header.opcode.Pong?
  }

  lemma PingsAreInside(fs: seq<Frame>, n: nat, j: nat)
    requires ContinuesAt(fs, j) && n <= j && forall k | 0 <= k < n :: !fs[k].header.opcode.Pong?
    ensures Inside(fs[..n], false) && !HasData(fs[..n])
    ensures n == j ==> Breaks(fs, n) && !GoesOn(fs[n], HasData(fs[..n])) && fs[n].header.opcode.Continue?
  {
    assert forall k | 0 <= k < n :: IsPing(fs[k]);
  }

  /** The first of the frames that is no Ping, if that is a Pong, is all a call gets. */
  lemma PongFirst(setup: Setup, s: State, fs: seq<Frame>, i: nat, rest: bytes)
    requires Healthy(setup) && !s.closed && AllFit(setup, fs)
    requires |Payloads(fs)| <= setup.maxMessageSize && s.Input() == Wires(fs) + rest
    requires i < |fs| && fs[i].header.opcode.Pong? && Inside(fs[..i], false)
    ensures var t := StateAt(setup, s, fs, i);
      && t.Input() == Wires(fs[i + 1..]) + rest && !t.closed
      && ReceiveData(setup, s) == ReceiveData(setup, t)
  {
    hide AllFit, Wires, Receive, StateAt, ProgressAt, Inside, HasData;
    PayloadsPrefix(fs, i + 1);
    AtFrame(setup, s, fs, i, rest);
    SkipsPong(setup, s, StateAt(setup, s, fs, i), fs[i].payload);
  }

  lemma SkipsPong(setup: Setup, s: State, t: State, payload: bytes)
    requires Receive(setup, s) == (t, Ok(PongData(payload)))
    ensures ReceiveData(setup, s) == ReceiveData(setup, t)
  {
    hide Receive;
  }

  lemma DataFirst(setup: Setup, s: State)
    requires var outcome := Receive(setup, s).1;
      outcome.Err? || outcome.incoming.TextData? || outcome.incoming.BinaryData?
    ensures ReceiveData(setup, s) == Receive(setup, s)
  {
    hide Receive;
  }

  /** What is left of a message whose beginning was lost is rejected at its next fragment, whatever Pings and Pongs come
      before that. */
  lemma {:induction false} ContinuationRejected(setup: Setup, s: State, fs: seq<Frame>, j: nat, rest: bytes)
    requires Healthy(setup) && !s.closed && AllFit(setup, fs)
    requires |Payloads(fs)| <= setup.maxMessageSize && s.Input() == Wires(fs) + rest && ContinuesAt(fs, j)
    ensures ReceiveData(setup, s).1 == Err(UnexpectedOpCode(Continue))
    decreases j
  {
    hide Wires, Payloads, StateAt, Inside, HasData, FirstPong, AllFit;
    hide Receive, ReceiveData, ContinuesAt, Breaks, GoesOn;
    var i := FirstPong(fs);
    ContinuesInside(fs, j);
    if i < j {
      PingsAreInside(fs, i, j);
      PongFirst(setup, s, fs, i, rest);
      TailContinues(fs, i + 1, j);
      Sublist(setup, fs, i + 1);
      PayloadsPrefix(fs, i + 1);
      ContinuationRejected(setup, StateAt(setup, s, fs, i), fs[i + 1..], j - i - 1, rest);
    } else {
      PingsAreInside(fs, j, j);
      PayloadsPrefix(fs, j + 1);
      RejectsAt(setup, s, fs, j, rest);
      DataFirst(setup, s);
    }
  }

  lemma ContinuesInside(fs: seq<Frame>, j: nat)
    requires ContinuesAt(fs, j)
    ensures j < |fs|
  {}

  lemma TailContinues(fs: seq<Frame>, k: nat, j: nat)
    requires ContinuesAt(fs, j) && k <= j
    ensures ContinuesAt(fs[k..], j - k)
  {
    hide IsPing;
  }

  lemma {:induction false} DropFirstData(fs: seq<Frame>, k: nat)
    requires k <= FirstData(fs)
    ensures FirstData(fs[k..]) == FirstData(fs) - k
    decreases k
  {
    if k == 0 {
      assert fs[0..] == fs;
    } else {
      assert fs[1..][k - 1..] == fs[k..];
      DropFirstData(fs[1..], k - 1);
    }
  }

  /** A Pong between the fragments loses the message: the call ends with the first Pong after the first fragment, and
      afterwards, whatever message the caller passes, the next fragment is rejected. */
  lemma PongLosesMessage(setup: Setup, s: State, fs: seq<Frame>, message: bytes, rest: bytes)
    requires Healthy(setup) && !s.closed && AllFit(setup, fs)
    requires |Payloads(fs)| <= setup.maxMessageSize && s.Input() == Wires(fs) + rest
    requires IsMessageWithPongs(fs) && FirstData(fs) < FirstPong(fs) < |fs|
    ensures var i := FirstPong(fs);
      && Receive(setup, s) == (StateAt(setup, s, fs, i), Ok(PongData(fs[i].payload)))
      && ReceiveData(setup, StateAt(setup, s, fs, i).(message := message)).1 == Err(UnexpectedOpCode(Continue))
  {
    hide AllFit, Wires, Receive, StateAt, IsMessageWithPongs, Payloads, ContinuesAt, ReceiveData;
    hide FirstPong, FirstData;
    var i := FirstPong(fs);
    var j := AfterPongContinues(fs, i);
    Sublist(setup, fs, i + 1);
    PayloadsPrefix(fs, i + 1);
    FirstPongEndsCall(setup, s, fs, rest);
    ContinuationRejected(setup, StateAt(setup, s, fs, i).(message := message), fs[i + 1..], j, rest);
  }

  /** What comes before the first fragment can be left out. */
  lemma LeadingPong(setup: Setup, fs: seq<Frame>, k: nat)
    requires AllFit(setup, fs) && IsMessageWithPongs(fs) && k <= FirstData(fs)
    ensures var tail := fs[k..];
      && AllFit(setup, tail) && IsMessageWithPongs(tail) && Kind(tail) == Kind(fs) && Payloads(tail) == Payloads(fs)
      && tail[FirstData(tail)..] == fs[FirstData(fs)..]
  {
    Sublist(setup, fs, k);
    hide AllFit, IsMessageWithPongs, IsData, FirstData, Kind, Payloads;
    MessageFrom(fs, k);
    DropFirstData(fs, k);
  }

  lemma PongsFrom(fs: seq<Frame>)
    ensures var i, j := FirstPong(fs), FirstData(fs);
      && (i == |fs| ==> !HasPong(fs[j..]))
      && (j < i < |fs| ==> HasPong(fs[j..]))
      && (i == j ==> i == |fs|)
  {
    hide FirstPong, FirstData;
    var i, j := FirstPong(fs), FirstData(fs);
    if j < i < |fs| {
      assert fs[j..][i - j] == fs[i];
    }
  }

  lemma KindOfMessage(fs: seq<Frame>)
    requires FirstData(fs) < |fs|
    ensures Kind(fs).Some?
  {
    assert HasData(fs) by { assert fs[FirstData(fs)] in fs; }
    KindIsData(fs);
  }

  /** What comes before the first fragment is not part of the message. */
  lemma {:induction false} MessageFrom(fs: seq<Frame>, k: nat)
    requires IsMessageWithPongs(fs) && k <= |fs| && forall i | 0 <= i < k :: !IsData(fs[i])
    ensures IsMessageWithPongs(fs[k..]) && Kind(fs[k..]) == Kind(fs) && Payloads(fs[k..]) == Payloads(fs)
    decreases k
  {
    hide IsMessageWithPongs, Kind, Payloads, IsData;
    if k == 0 {
      assert fs[0..] == fs;
    } else {
      assert fs == [fs[0]] + fs[1..];
      DropsOne(fs[0], fs[1..]);
      SameData(fs[0], fs[1..]);
      assert fs[1..][k - 1..] == fs[k..];
      MessageFrom(fs[1..], k - 1);
    }
  }

  /** A control frame in front makes no difference to the data. */
  lemma SameData(f: Frame, fs: seq<Frame>)
    requires !IsData(f)
    ensures HasData([f] + fs) <==> HasData(fs)
    ensures Kind([f] + fs) == Kind(fs) && Payloads([f] + fs) == Payloads(fs)
  {
    assert ([f] + fs)[1..] == fs;
    forall g | g in fs ensures g in [f] + fs {}
  }

  lemma InsideDropsOne(f: Frame, fs: seq<Frame>)
    requires InsideWithPongs([f] + fs) && !IsData(f)
    ensures InsideWithPongs(fs)
  {
    hide HasData, Kind, Payloads, IsData;
    var gs := [f] + fs;
    forall i | 0 <= i < |fs|
      ensures IsPing(fs[i]) || fs[i].header.opcode.Pong? || (WellPlaced(fs, i, false) && !fs[i].header.fin)
    {
      assert fs[i] == gs[i + 1] && gs[..i + 1] == [f] + fs[..i];
      SameData(f, fs[..i]);
    }
  }

  lemma DropsOne(f: Frame, fs: seq<Frame>)
    requires IsMessageWithPongs([f] + fs) && !IsData(f)
    ensures IsMessageWithPongs(fs)
  {
    hide HasData, InsideWithPongs, Kind, Payloads, IsData;
    var gs, n := [f] + fs, |fs| - 1;
    assert fs != [];
    assert gs[..|gs| - 1] == [f] + fs[..n] && gs[|gs| - 1] == fs[n];
    InsideDropsOne(f, fs[..n]);
    SameData(f, fs[..n]);
  }

  /** After a Pong inside a message, the next data frame is a continuation. */
  lemma AfterPongContinues(fs: seq<Frame>, i: nat) returns (j: nat)
    requires IsMessageWithPongs(fs) && FirstData(fs) < i < |fs| && fs[i].header.opcode.Pong?
    ensures ContinuesAt(fs[i + 1..], j)
  {
    hide FirstData, IsMessageWithPongs;
    PlacedInMessage(fs, i);
    var tail := fs[i + 1..];
    j := FirstData(tail);
    PlacedInMessage(fs, |fs| - 1);
    assert tail[|tail| - 1] == fs[|fs| - 1];
    PlacedInMessage(fs, i + 1 + j);
    assert HasData(fs[..i + 1 + j]) by { assert fs[FirstData(fs)] in fs[..i + 1 + j]; }
    forall k | 0 <= k < j ensures IsPing(tail[k]) || tail[k].header.opcode.Pong? {
      PlacedInMessage(fs, i + 1 + k);
      assert tail[k] == fs[i + 1 + k];
    }
  }

  /** There are such messages: a fragment, a Pong, and the last fragment. */
  lemma PongBetweenFragments(limits: Limits)
    ensures var f := Frame(NewHeader(Text).(fin := false), []);
      var fs := [f, Frame(NewHeader(Pong), []), Frame(NewHeader(Continue), [])];
      && IsMessageWithPongs(fs) && FirstData(fs) < FirstPong(fs) < |fs|
      && forall g | g in fs :: Fits(limits, g)
  {
    var f := Frame(NewHeader(Text).(fin := false), []);
    var fs := [f, Frame(NewHeader(Pong), []), Frame(NewHeader(Continue), [])];
    assert IsData(f) && fs[..2][0] == f;
    assert fs[..2][..0] == [] && HasData(fs[..2]);
    assert WellPlaced(fs[..2], 0, false);
    assert fs[1..][0] == fs[1] && fs[0].header.opcode.Text?;
  }

  lemma Sublist(setup: Setup, fs: seq<Frame>, k: nat)
    requires AllFit(setup, fs) && k <= |fs|
    ensures AllFit(setup, fs[k..])
  {}

  /** The index of the first data frame. */
  function FirstData(fs: seq<Frame>): (i: nat)
    ensures i <= |fs| && (i < |fs| ==> IsData(fs[i]))
    ensures forall j | 0 <= j < i :: !IsData(fs[j])
  {
    if fs == [] || IsData(fs[0]) then 0 else 1 + FirstData(fs[1..])
  }

  /** Every frame of a message is where the RFC allows it. */
  lemma PlacedInMessage(fs: seq<Frame>, i: nat)
    requires IsMessageWithPongs(fs) && i < |fs|
    ensures IsData(fs[i]) ==> WellPlaced(fs, i, false)
    ensures !IsData(fs[i]) ==> i < |fs| - 1 && (IsPing(fs[i]) || fs[i].header.opcode.Pong?)
  {
    var front := fs[..|fs| - 1];
    assert fs[..i] == if i < |front| then front[..i] else front;
  }
}
