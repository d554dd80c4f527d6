/** A whole session: the printed handshake, and then compressed messages in either direction. */
module Session {
  import opened Bytes
  import opened Base
  import opened Protocol
  import opened Reading
  import opened Reassembly
  import opened Delivery
  import opened Deflate
  import opened Negotiation
  import HeaderLaws
  import Inflation

  /** What zlib is trusted with, for a window of so many bits: data that was compressed and flushed ends with an empty
      block (section 7.2.1 of RFC 7692), and inflates to the data. */
  ghost predicate IsZlib(inflate: bytes -> Option<bytes>, compress: (nat, bytes) -> Option<bytes>, bits: nat) {
    forall data: bytes | data != [] :: Restores(inflate, compress, bits, data)
  }

  predicate Restores(
    inflate: bytes -> Option<bytes>, compress: (nat, bytes) -> Option<bytes>, bits: nat, data: bytes)
  {
    var out := compress(bits, data);
    && out.Some? && |out.value| > 4 && out.value[|out.value| - 4..] == [0, 0, 0xFF, 0xFF]
    && inflate(out.value) == Some(data)
  }

  /** The simplest compressor: it stores the data and a byte before the tail. */
  function Store(bits: nat, data: bytes): Option<bytes> { Some(data + [0] + Inflation.TAIL) }

  function Unstore(stored: bytes): Option<bytes> {
    if |stored| < 5 then None else Some(stored[..|stored| - 5])
  }

  /** There are pairs that do what zlib is trusted with. */
  lemma StoringIsZlib()
    ensures forall bits: nat :: IsZlib(Unstore, Store, bits)
  {
    forall bits: nat, data: bytes | data != [] ensures Restores(Unstore, Store, bits, data) {
      assert Unstore(Store(bits, data).value).value == data;
    }
  }

  /** The encoder of a connection that was built with this end's extension. */
  function EncoderOf(w: Window, compress: (nat, bytes) -> Option<bytes>): Option<Inflation.Encoder> {
    if w.enabled then Some(Inflation.Encoder.Encoder(compress, w.our)) else None
  }

  /** The deflate flag of a new connection. */
  function FlagOf(w: Window): Option<bool> { if w.enabled then Some(false) else None }

  /** Do the sizes of what is sent stay within the receiver's limits? */
  predicate IsSmallEnough(setup: Setup, encoder: Option<Inflation.Encoder>, send: Send) {
    var sent := Prepared(encoder, send);
    && |sent.data| <= setup.limits.maxDataSize && |sent.data| <= USIZE_MAX && |send.data| <= USIZE_MAX
    && |sent.data| <= if send.SendPing? || send.SendPong? then MAX_CTRL_BODY_SIZE else setup.maxMessageSize
  }

  /** Can `to`, as a new connection, take what `from` sends in these calls? */
  ghost predicate IsSession(
    from: Window, to: Window, setup: Setup, s: State, compress: (nat, bytes) -> Option<bytes>, base: Limits,
    out: Output, sends: seq<Send>)
  {
    && Healthy(setup) && setup.limits == WithExtension(base, to) && !base.rsv1
    && (from.enabled ==> IsZlib(setup.inflate, compress, from.our))
    && !s.closed && s.await == FlagOf(to)
    && (forall send | send in sends :: IsSmallEnough(setup, EncoderOf(from, compress), send))
    && s.Input() == Wires(SentFrames(out, EncoderOf(from, compress), sends))
  }

  lemma SendWithin(setup: Setup, from: Window, compress: (nat, bytes) -> Option<bytes>, send: Send)
    requires from.enabled ==> IsZlib(setup.inflate, compress, from.our)
    requires IsSmallEnough(setup, EncoderOf(from, compress), send)
    requires from.enabled ==> setup.limits.rsv1
    ensures WithinLimits(setup, EncoderOf(from, compress), send)
  {
    if from.enabled && send.data != [] && (send.SendText? || send.SendBinary?) {
      assert Restores(setup.inflate, compress, from.our, send.data);
      var out := compress(from.our, send.data).value;
      assert out == out[..|out| - 4] + Inflation.TAIL;
    }
  }

  lemma Arrives(
    from: Window, to: Window, setup: Setup, s: State, compress: (nat, bytes) -> Option<bytes>, base: Limits,
    out: Output, sends: seq<Send>)
    requires IsSession(from, to, setup, s, compress, base, out, sends)
    requires from.enabled ==> to.enabled && InRange(from)
    ensures AllArrives(setup, s, SentFrames(out, EncoderOf(from, compress), sends), sends)
  {
    hide IsZlib, IsSmallEnough, WithinLimits, SentFrames, Wires, AllArrives;
    forall send | send in sends ensures WithinLimits(setup, EncoderOf(from, compress), send) {
      SendWithin(setup, from, compress, send);
    }
    Delivers(setup, s, out, EncoderOf(from, compress), sends);
  }

  /** Does this call put RSV1 on the wire if the extension is in use? */
  predicate IsCompressible(send: Send) { (send.SendText? || send.SendBinary?) && send.data != [] }

  /** The index of the first compressible call, or the number of calls. */
  function FirstCompressible(sends: seq<Send>): (i: nat)
    ensures i <= |sends| && (i < |sends| ==> IsCompressible(sends[i]))
    ensures forall j | 0 <= j < i :: !IsCompressible(sends[j])
  {
    if sends == [] || IsCompressible(sends[0]) then 0 else 1 + FirstCompressible(sends[1..])
  }

  /** What is not compressible is sent as if there was no extension. */
  lemma PlainAnyway(setup: Setup, encoder: Option<Inflation.Encoder>, f: Frame, send: Send)
    requires Carries(encoder, f, send) && !IsCompressible(send) && IsSmallEnough(setup, encoder, send)
    ensures Carries(None, f, send) && WithinLimits(setup, None, send)
  {}

  lemma PlainPrefix(setup: Setup, encoder: Option<Inflation.Encoder>, fs: seq<Frame>, sends: seq<Send>, k: nat)
    requires CarriesAll(encoder, fs, sends) && k <= FirstCompressible(sends)
    requires forall send | send in sends :: IsSmallEnough(setup, encoder, send)
    ensures CarriesAll(None, fs[..k], sends[..k])
    ensures forall send | send in sends[..k] :: WithinLimits(setup, None, send)
  {
    hide Carries, WithinLimits, IsSmallEnough, IsCompressible;
    forall i | 0 <= i < k ensures Carries(None, fs[i], sends[i]) && WithinLimits(setup, None, sends[i]) {
      PlainAnyway(setup, encoder, fs[i], sends[i]);
    }
  }

  /** The frame of a compressible call, to a codec without the extension. */
  lemma CompressedObjection(
    setup: Setup, from: Window, compress: (nat, bytes) -> Option<bytes>, f: Frame, send: Send)
    requires from.enabled && InRange(from) && !setup.limits.rsv1 && IsZlib(setup.inflate, compress, from.our)
    requires IsCompressible(send) && IsSmallEnough(setup, EncoderOf(from, compress), send)
    requires Carries(EncoderOf(from, compress), f, send)
    ensures f.header.payloadLen <= USIZE_MAX
    ensures HeaderLaws.Objection(setup.limits, f.header) == Some(InvalidReservedBit(1))
  {
    assert Restores(setup.inflate, compress, from.our, send.data);
  }

  lemma RejectedFirst(setup: Setup, s: State, f: Frame, rest: bytes)
    requires !s.closed && s.Input() == Wire(f) + rest && f.header.payloadLen <= USIZE_MAX
    requires HeaderLaws.Objection(setup.limits, f.header).Some?
    ensures Receive(setup, s).1 == Err(Codec(HeaderLaws.Objection(setup.limits, f.header).value))
  {
    var head, body := EncodeHeader(f.header), Masked(f.header, f.payload);
    HeaderLaws.RejectsInOrder(setup.limits, f.header, body + rest);
    hide DecodeHeader, EncodeHeader, Masked, HeaderLaws.Objection;
    AppendAssociates(head, body, rest);
    NextHeaderOfInput(setup.limits, s.buffer, s.unread);
  }

  /** Without an extension, everything before the first compressed frame arrives; that frame is an error. */
  lemma ArrivesUntilCompressed(
    from: Window, to: Window, setup: Setup, s: State, compress: (nat, bytes) -> Option<bytes>, base: Limits,
    out: Output, sends: seq<Send>)
    requires IsSession(from, to, setup, s, compress, base, out, sends)
    requires from.enabled && InRange(from) && !to.enabled
    ensures var i := FirstCompressible(sends);
      if i < |sends| then
        ReceiveAll(setup, s).0 == Expected(sends[..i]) && ReceiveAll(setup, s).2 == Codec(InvalidReservedBit(1))
      else AllArrives(setup, s, SentFrames(out, EncoderOf(from, compress), sends), sends)
  {
    var encoder, i := EncoderOf(from, compress), FirstCompressible(sends);
    var fs := SentFrames(out, encoder, sends);
    hide IsZlib, IsSmallEnough, WithinLimits, SentFrames, Wires, Wire, AllArrives, Carries, Receive, Expected;
    SentFramesCarry(out, encoder, sends);
    PlainPrefix(setup, encoder, fs, sends, i);
    if i < |sends| {
      CompressedObjection(setup, from, compress, fs[i], sends[i]);
      WiresSplit(fs, i);
      var t := DeliversFrames(setup, s, fs[..i], None, sends[..i], Wire(fs[i]) + Wires(fs[i + 1..]));
      SameInput(t, []);
      RejectedFirst(setup, t.(message := []), fs[i], Wires(fs[i + 1..]));
      assert Expected(sends[..i]) + [] == Expected(sends[..i]);
    } else {
      assert fs[..i] == fs && sends[..i] == sends;
      DeliversToEnd(setup, s, fs, None, sends);
    }
  }

  /** From the client's settings to delivered messages: after the printed handshake, whatever the client sends arrives.
      What the server sends arrives if and only if the client settled on one server window or none of it is
      compressible; otherwise everything before the first compressible call arrives, and then comes an error. */
  lemma SessionDelivers(
    calls: seq<Call>, serverSends: bool, setup: Setup, s: State, compress: (nat, bytes) -> Option<bytes>, base: Limits,
    out: Output, sends: seq<Send>)
    requires forall call | call in calls :: IsAllowed(true, call) && !call.Configure?
    requires var (server, client) := Handshaken(AfterCalls(NewWindow(true), calls));
      if serverSends then IsSession(server, client, setup, s, compress, base, out, sends)
      else IsSession(client, server, setup, s, compress, base, out, sends)
    ensures var (server, client) := Handshaken(AfterCalls(NewWindow(true), calls));
      var fs := SentFrames(out, EncoderOf(if serverSends then server else client, compress), sends);
      var agreed, i := AllEqual(ServerValues(calls)), FirstCompressible(sends);
      && (!serverSends ==> AllArrives(setup, s, fs, sends))
      && (serverSends ==> (AllArrives(setup, s, fs, sends) <==> agreed || i == |sends|))
      && (serverSends && !agreed && i < |sends| ==>
        ReceiveAll(setup, s).0 == Expected(sends[..i]) && ReceiveAll(setup, s).2 == Codec(InvalidReservedBit(1)))
  {
    Agreement(calls);
    hide IsSession, Handshaken, AfterCalls, ServerValues, NewWindow, AllEqual, IsAllowed, FirstCompressible;
    hide ReceiveAll, SentFrames, Expected, Wires, Pongs;
    var (server, client) := Handshaken(AfterCalls(NewWindow(true), calls));
    if !serverSends {
      Arrives(client, server, setup, s, compress, base, out, sends);
    } else if client.enabled {
      Arrives(server, client, setup, s, compress, base, out, sends);
    } else {
      ArrivesUntilCompressed(server, client, setup, s, compress, base, out, sends);
    }
  }
}
