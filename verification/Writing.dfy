/** What a call that sends or replies puts on the wire. */
module Writing {
  import opened Bytes
  import opened Base
  import opened HeaderLaws
  import opened Io
  import opened Protocol
  import opened Reading
  import opened Reassembly
  import opened WireFormat
  import opened WriterLock
  import Inflation

  /** Does the payload `data` follow a header of `head` bytes? Without a mask it is there as it is, with a mask it is
      combined with the four bytes before it. */
  ghost predicate IsPayload(bs: bytes, head: nat, masked: bool, data: bytes) {
    && head <= |bs| && (masked ==> head >= 4)
    && if masked then IsMaskedWith(bs[head - 4..head], data, bs[head..]) else bs[head..] == data
  }

  /** Are `bs` the bytes of one frame: header `h` with an own key exactly if `masked`, and payload `data`? */
  ghost predicate IsFrame(limits: Limits, bs: bytes, h: Header, masked: bool, key: nat, data: bytes) {
    var d := DecodeHeader(limits, bs);
    && d.Done? && d.header == h.(payloadLen := |data|, masked := masked, mask := if masked then key else 0)
    && IsPayload(bs, d.offset, masked, data)
    && CutFrames(limits, bs) == ([Frame(d.header, data)], [])
  }

  lemma FrameIsFrame(limits: Limits, h: Header, data: bytes)
    requires Admits(limits, h) && h.payloadLen == |data|
    ensures IsFrame(limits, FrameBytes(h, data), h, h.masked, h.mask, data)
  {
    var head, f := EncodeHeader(h), Frame(h, data);
    var bs := FrameBytes(h, data);
    HeaderRoundTrip(limits, h, Masked(h, data));
    hide DecodeHeader, EncodeHeader, Masked, Admits, BitAt, CutFrames;
    assert bs[|head|..] == Masked(h, data) && bs[..|head|] == head;
    if h.masked {
      LengthMeansKey(h);
      assert bs[|head| - 4..|head|] == head[|head| - 4..];
      MasksWithKey(h, data);
    }
    WireOf(f);
    assert Wire(f) + [] == bs;
    CutsOne(limits, f, []);
    NothingToCut(limits);
    assert [f] + [] == [f];
  }

  lemma LengthMeansKey(h: Header)
    requires h.masked
    ensures |EncodeHeader(h)| >= 6
  {
    hide FirstByte, ToBigEndian;
  }

  /** A call of `write`, or a sender's frame, with a working writer: the wire grows by the bytes of exactly this frame.
      It is masked exactly on the client side, with the key drawn for it; the next frame gets the next key. */
  lemma WritesFrame(limits: Limits, out: Output, h: Header, data: bytes)
    requires out.failAt.None? && !h.masked && h.mask == 0 && Admits(limits, h.(payloadLen := |data|))
    ensures var (out', error) := WriteFrame(out, h, data);
      && error == None && out.wire <= out'.wire
      && out'.drawn == (if out.client then out.drawn + 1 else out.drawn)
      && IsFrame(limits, out'.wire[|out.wire|..], h, out.client, KeyAt(out.keys, out.drawn), data)
  {
    var sent := Sent(out.client, out.keys, out.drawn, h, data);
    PutWhole(out.wire, sent, data);
    assert Admits(limits, sent);
    hide Put, Fit, FrameBytes, IsFrame, Admits;
    FrameIsFrame(limits, sent, data);
    FrameUnmasked(limits, FrameBytes(sent, data), sent, h, data);
  }

  lemma FrameUnmasked(limits: Limits, bs: bytes, sent: Header, h: Header, data: bytes)
    requires IsFrame(limits, bs, sent, sent.masked, sent.mask, data)
    requires sent == h.(payloadLen := |data|, masked := sent.masked, mask := sent.mask)
    requires !sent.masked ==> sent.mask == 0
    ensures IsFrame(limits, bs, h, sent.masked, sent.mask, data)
  {
    hide DecodeHeader, IsPayload, CutFrames;
  }

  /** A receiver's reply is such a frame: final, without reserved bits, masked exactly on the client side. */
  lemma WritesReply(limits: Limits, setup: Setup, s: State, opcode: OpCode, data: bytes)
    requires setup.failAt.None? && opcode.IsControl() && |data| <= MAX_CTRL_BODY_SIZE && |data| <= limits.maxDataSize
    ensures var t := Replied(setup, s, opcode, data);
      && s.wire <= t.wire && t.drawn == (if setup.client then s.drawn + 1 else s.drawn)
      && IsFrame(limits, t.wire[|s.wire|..], Header(true, false, false, false, false, opcode, 0, 0), setup.client,
                 KeyAt(setup.keys, s.drawn), data)
  {
    WritesFrame(limits, Output(setup.client, setup.keys, s.drawn, setup.failAt, s.wire), NewHeader(opcode), data);
    hide IsFrame, Put;
  }

  /** Whatever the writer takes: the wire grows by a beginning of the frame, by all of it exactly if there is no error,
      and a key is used up on the client side either way. */
  lemma WritesBeginning(out: Output, h: Header, data: bytes)
    ensures var (out', error) := WriteFrame(out, h, data);
      var frame := FrameBytes(Sent(out.client, out.keys, out.drawn, h, data), data);
      && out.wire <= out'.wire <= out.wire + frame
      && (error == None <==> out'.wire == out.wire + frame)
      && (error == None || error == Some(ConnectionClosed))
      && out' == out.(wire := out'.wire, drawn := if out.client then out.drawn + 1 else out.drawn)
  {
    var sent := Sent(out.client, out.keys, out.drawn, h, data);
    assert EncodeHeader(sent) != [];
    hide EncodeHeader, Masked, Sent;
    PutsBeginning(out.failAt, out.wire, sent, data);
  }

  lemma PutsBeginning(failAt: Option<nat>, wire: bytes, h: Header, data: bytes)
    ensures wire <= Put(failAt, wire, h, data) <= wire + FrameBytes(h, data)
    ensures Fit(failAt, wire, h, data) <==> Put(failAt, wire, h, data) == wire + FrameBytes(h, data)
  {
    assert EncodeHeader(h) != [];
    hide EncodeHeader, Masked;
    var head, body := EncodeHeader(h), Masked(h, data);
    assert wire + (head + body) == wire + head + body;
  }

  /** What a buffer holds after it was sent successfully and not replaced is what the wire ends with. */
  lemma BufferIsOnWire(out: Output, encoder: Option<Inflation.Encoder>, h: Header, data: bytes)
    requires SendFrame(out, encoder, h, data).1 == None
    ensures var wire, owned := SendFrame(out, encoder, h, data).0.wire, OwnedAfter(out, encoder, h, data);
      |owned| <= |wire| && wire[|wire| - |owned|..] == owned
    ensures BorrowedAfter(out, encoder, h, data) ==
      if encoder.Some? && data != [] && (h.opcode.Text? || h.opcode.Binary?) then data
      else OwnedAfter(out, encoder, h, data)
  {
    var e := if encoder.Some? then Inflation.Encode(encoder.value, h, data) else Inflation.Encoded(h, data, true);
    var sent := Sent(out.client, out.keys, out.drawn, e.header, e.data);
    hide EncodeHeader, Masked, Sent, Put;
    PutsBeginning(out.failAt, out.wire, sent, e.data);
    var wire, body := out.wire + FrameBytes(sent, e.data), Masked(sent, e.data);
    assert wire == out.wire + EncodeHeader(sent) + body;
  }

  /** If the extension fails, nothing is sent and no key is used. */
  lemma FailedEncoding(out: Output, encoder: Inflation.Encoder, h: Header, data: bytes)
    ensures SendFrame(out, Some(encoder), h, data).1 == Some(Extension) <==>
      && data != [] && (h.opcode.Text? || h.opcode.Binary?)
      && var flushed := encoder.compress(encoder.bits, data);
        !(flushed.Some? && |flushed.value| >= 4 && flushed.value[|flushed.value| - 4..] == [0, 0, 0xFF, 0xFF])
    ensures SendFrame(out, Some(encoder), h, data).1 == Some(Extension) ==>
      SendFrame(out, Some(encoder), h, data).0 == out && OwnedAfter(out, Some(encoder), h, data) == data
  {
    hide Put, Fit, Sent, LeftBehind;
    Inflation.EncodesFlushed(encoder, h, data);
  }
}
