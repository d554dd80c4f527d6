/** What the deflate extension does to frames, as functions over an abstract inflater and compressor (RFC 7692). */
module Inflation {
  import opened Bytes
  import opened Base

  /** The empty block's LEN and NLEN that senders strip (section 7.2.1 of RFC 7692). */
  const TAIL: bytes := [0, 0, 0xFF, 0xFF]

  /** The outcome of `Extension::decode`: the flag, the header and the data they leave. */
  datatype Coded = Coded(await: bool, header: Header, data: bytes, ok: bool)

  /** `Deflate::decode` past its checks: inflate the message with its tail restored. */
  function Expand(inflate: bytes -> Option<bytes>, await: bool, h: Header, data: bytes): Coded {
    match inflate(data + TAIL)
    case None => Coded(await, h, data + TAIL, false)
    case Some(out) => Coded(await, h.(rsv1 := false, payloadLen := |out|), out, true)
  }

  /** `Deflate::decode`. */
  function Decode(inflate: bytes -> Option<bytes>, await: bool, h: Header, data: bytes): Coded {
    if data == [] then Coded(await, h, data, true)
    else if (h.opcode.Binary? || h.opcode.Text?) && h.rsv1 then
      if !h.fin then Coded(true, h, data, true) else Expand(inflate, await, h, data)
    else if h.opcode.Continue? && h.fin && await then Expand(inflate, false, h, data)
    else Coded(await, h, data, true)
  }

  predicate EndsWithTail(s: bytes) { |s| >= 4 && s[|s| - 4..] == TAIL }

  /** The compressor a sender uses, for a window of so many bits; its output is flushed. */
  datatype Encoder = Encoder(compress: (nat, bytes) -> Option<bytes>, bits: nat)

  /** The outcome of `Extension::encode`: the header and the data to send. */
  datatype Encoded = Encoded(header: Header, data: bytes, ok: bool)

  /** Does the extension encode this frame at all? */
  predicate Encodes(h: Header, data: bytes) { data != [] && (h.opcode.Binary? || h.opcode.Text?) }

  /** `Deflate::encode`, from the compressor's output on: strip the tail and claim RSV1. */
  function Encode(encoder: Encoder, h: Header, data: bytes): Encoded {
    if !Encodes(h, data) then Encoded(h, data, true)
    else
      match encoder.compress(encoder.bits, data)
      case None => Encoded(h, data, false)
      case Some(out) =>
        if !EndsWithTail(out) then Encoded(h, data, false)
        else Encoded(h.(rsv1 := true, payloadLen := |out| - 4), out[..|out| - 4], true)
  }

  /** Encoding a text or binary message succeeds exactly if the flushed output ends with an empty block, whose four
      bytes are cut off; the frame then claims RSV1 and has the new length. Everything else is sent as it is. */
  lemma EncodesFlushed(encoder: Encoder, h: Header, data: bytes)
    ensures var e := Encode(encoder, h, data);
      if data == [] || !(h.opcode.Text? || h.opcode.Binary?) then e == Encoded(h, data, true)
      else
        var out := encoder.compress(encoder.bits, data);
        && (e.ok <==> out.Some? && |out.value| >= 4 && out.value[|out.value| - 4..] == [0, 0, 0xFF, 0xFF])
        && (e.ok ==> e.data + [0, 0, 0xFF, 0xFF] == out.value && e.header == h.(rsv1 := true, payloadLen := |e.data|))
        && (!e.ok ==> e.header == h && e.data == data)
  {
    if Encodes(h, data) && encoder.compress(encoder.bits, data).Some? {
      var out := encoder.compress(encoder.bits, data).value;
      assert |out| >= 4 ==> out == out[..|out| - 4] + out[|out| - 4..];
    }
  }

  /** Which frames are decoded, on what, and what their header says afterwards: the data are those of one inflation of
      what was there followed by four bytes, with RSV1 cleared, or nothing is touched. */
  lemma DecodesOnce(inflate: bytes -> Option<bytes>, await: bool, h: Header, data: bytes)
    ensures var r, whole := Decode(inflate, await, h, data), data + [0, 0, 0xFF, 0xFF];
      var isData, isLast := h.opcode.Text? || h.opcode.Binary?, h.opcode.Continue? && h.fin && await;
      if data != [] && h.fin && (isLast || (isData && h.rsv1)) then
        && r.await == (await && !isLast)
        && (r.ok <==> inflate(whole).Some?)
        && (r.ok ==> inflate(whole) == Some(r.data) && r.header == h.(rsv1 := false, payloadLen := |r.data|))
        && (!r.ok ==> r.data == whole && r.header == h)
      else r == Coded(await || (data != [] && isData && h.rsv1), h, data, true)
  {}
}
