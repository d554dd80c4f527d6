/** Laws of the header codec: printer and parser undo each other, and the parser is sound on every prefix. */
module HeaderLaws {
  import opened Bytes
  import opened Base

  lemma OpCodeRoundTrip(opcode: OpCode, b: byte)
    ensures opcode.ToByte() < 16 && OpCodeFromByte(opcode.ToByte()) == Some(opcode)
    ensures OpCodeFromByte(b).Some? <==> b < 16
    ensures OpCodeFromByte(b).Some? ==> OpCodeFromByte(b).value.ToByte() == b
  {}

  /** The flag bits of an admitted header survive printing, whatever the second byte carries besides the mask bit. */
  lemma FlagsRoundTrip(limits: Limits, h: Header, second: byte)
    requires Admits(limits, h) && Bit(second, 7) == h.masked
    ensures DecodeFlags(limits, FirstByte(h), second) == Done(h.(mask := 0, payloadLen := 0), 2)
  {
    OpCodeRoundTrip(h.opcode, 0);
    FlagBits(h.fin, h.rsv1, h.rsv2, h.rsv3, h.opcode.ToByte());
    hide Bit, OpCodeFromByte, OpCode.ToByte;
  }

  lemma FlagBits(b7: bool, b6: bool, b5: bool, b4: bool, low: nat)
    requires low < 16
    ensures var b := Flag(b7, 0x80) + Flag(b6, 0x40) + Flag(b5, 0x20) + Flag(b4, 0x10) + low;
      Bit(b, 7) == b7 && Bit(b, 6) == b6 && Bit(b, 5) == b5 && Bit(b, 4) == b4 && b % 16 == low
  {}

  lemma LengthRoundTrip(masked: bool, len: nat, tail: bytes, first: byte)
    requires len <= USIZE_MAX
    ensures var bs := [first] + LengthBytes(masked, len) + tail;
      && Bit(bs[1], 7) == masked
      && 2 + LengthSize(bs[1]) == 1 + |LengthBytes(masked, len)|
      && DecodeLength(bs) == len
  {
    var lb := LengthBytes(masked, len);
    var bs := [first] + lb + tail;
    assert bs[1] == lb[0];
    if len >= 126 {
      var k := if len <= 0xFFFF then 2 else 8;
      assert Pow256(2) == 0x1_0000 && Pow256(8) == 0x1_0000_0000_0000_0000;
      assert bs[2..2 + k] == ToBigEndian(len, k);
      BigEndianReads(len, k);
    }
  }

  /** Decoding the encoding of an admitted header, followed by anything, gives it back and stops at its end. */
  lemma HeaderRoundTrip(limits: Limits, h: Header, tail: bytes)
    requires Admits(limits, h)
    ensures DecodeHeader(limits, EncodeHeader(h) + tail) == Done(h, |EncodeHeader(h)|)
  {
    var lb := LengthBytes(h.masked, h.payloadLen);
    var key := if h.masked then ToBigEndian(h.mask, 4) else [];
    var bs := EncodeHeader(h) + tail;
    assert bs == [FirstByte(h)] + lb + (key + tail);
    LengthRoundTrip(h.masked, h.payloadLen, key + tail, FirstByte(h));
    FlagsRoundTrip(limits, h, bs[1]);
    if h.masked {
      assert bs[1 + |lb|..1 + |lb| + 4] == ToBigEndian(h.mask, 4);
      BigEndianReads(h.mask, 4);
      assert Pow256(4) == 0x1_0000_0000;
    }
  }

  /** Decoding is stable: what is decided on a prefix stays decided, and a request for more is exact. */
  lemma DecodeExtends(limits: Limits, prefix: bytes, more: bytes)
    ensures var r, r' := DecodeHeader(limits, prefix), DecodeHeader(limits, prefix + more);
      && (!r.NeedMore? ==> r' == r)
      && (r.NeedMore? ==> r.count > 0)
      && (r.NeedMore? && |more| < r.count ==> r' == NeedMore(r.count - |more|))
      && (r.NeedMore? && r'.Done? ==> |prefix| + r.count <= r'.offset)
  {
    var bs := prefix + more;
    if |prefix| >= 2 {
      assert bs[0] == prefix[0] && bs[1] == prefix[1];
      var offset := 2 + LengthSize(bs[1]);
      if |prefix| >= offset {
        assert bs[2..offset] == prefix[2..offset];
        if |prefix| >= offset + 4 {
          assert bs[offset..offset + 4] == prefix[offset..offset + 4];
        }
      }
    }
  }

  /** The size of a header with this second byte. */
  function HeaderSize(second: byte): nat { 2 + LengthSize(second) + Flag(Bit(second, 7), 4) }

  lemma BitsOf(b: byte)
    ensures b == b % 16 + Flag(Bit(b, 7), 0x80) + Flag(Bit(b, 6), 0x40) + Flag(Bit(b, 5), 0x20) + Flag(Bit(b, 4), 0x10)
  {}

  lemma FlagsCanonical(limits: Limits, first: byte, second: byte)
    requires DecodeFlags(limits, first, second).Done?
    ensures var h := DecodeFlags(limits, first, second).header;
      && FirstByte(h) == first && h.masked == Bit(second, 7)
      && !h.opcode.IsReserved() && (h.opcode.IsControl() ==> h.fin)
      && (h.rsv1 ==> limits.rsv1) && (h.rsv2 ==> limits.rsv2) && (h.rsv3 ==> limits.rsv3)
  {
    OpCodeRoundTrip(Continue, first % 16);
    BitsOf(first);
    hide Bit, OpCodeFromByte;
  }

  /** Whatever is decoded is a header the codec admits; its fields are those of the bytes, and it ends where
      its second byte says. */
  lemma DecodedFields(limits: Limits, bs: bytes)
    requires DecodeHeader(limits, bs).Done?
    ensures var Done(h, n) := DecodeHeader(limits, bs);
      && Admits(limits, h)
      && n == HeaderSize(bs[1]) <= |bs|
      && FirstByte(h) == bs[0] && h.masked == Bit(bs[1], 7) && h.payloadLen == DecodeLength(bs)
      && (h.masked ==> h.mask == FromBigEndian(bs[n - 4..n]))
  {
    FlagsCanonical(limits, bs[0], bs[1]);
    assert Pow256(2) == 0x1_0000 && Pow256(4) == 0x1_0000_0000 && Pow256(8) == 0x1_0000_0000_0000_0000;
  }

  /** Did the sender use the shortest length form? (section 5.2 of RFC 6455) */
  predicate ShortestLength(bs: bytes)
    requires |bs| >= 2 && |bs| >= 2 + LengthSize(bs[1])
  {
    match LengthSize(bs[1])
    case 2 => DecodeLength(bs) >= 126
    case 8 => DecodeLength(bs) > 0xFFFF
    case _ => true
  }

  lemma LengthCanonical(bs: bytes)
    requires |bs| >= 2 && |bs| >= 2 + LengthSize(bs[1])
    ensures var lb := LengthBytes(Bit(bs[1], 7), DecodeLength(bs));
      && |lb| <= 1 + LengthSize(bs[1])
      && (|lb| == 1 + LengthSize(bs[1]) <==> ShortestLength(bs))
      && (ShortestLength(bs) ==> lb == bs[1..2 + LengthSize(bs[1])])
  {
    assert Pow256(2) == 0x1_0000 && Pow256(8) == 0x1_0000_0000_0000_0000;
    var k := LengthSize(bs[1]);
    BigEndianWrites(bs[2..2 + k]);
    assert bs[1..2 + k] == [bs[1]] + bs[2..2 + k];
    assert bs[1] == bs[1] % 128 + Flag(Bit(bs[1], 7), 0x80);
  }

  /** The encoding of decoded fields, next to the bytes they came from. */
  lemma EncodesFields(h: Header, bs: bytes, n: nat)
    requires |bs| >= 2 && n == HeaderSize(bs[1]) <= |bs|
    requires FirstByte(h) == bs[0] && h.masked == Bit(bs[1], 7) && h.payloadLen == DecodeLength(bs)
    requires h.masked ==> h.mask == FromBigEndian(bs[n - 4..n])
    ensures |EncodeHeader(h)| <= n
    ensures EncodeHeader(h) == bs[..n] <==> ShortestLength(bs)
  {
    var k := 2 + LengthSize(bs[1]);
    LengthCanonical(bs);
    if h.masked {
      BigEndianWrites(bs[k..n]);
    }
    assert EncodeHeader(h) == [bs[0]] + LengthBytes(h.masked, h.payloadLen) + bs[k..n];
    assert bs[..n] == [bs[0]] + bs[1..k] + bs[k..n];
  }

  /** Re-encoding a decoded header is never longer, decodes to the same header, and gives back the
      received bytes exactly when they used the shortest length form. */
  lemma CanonicalReencoding(limits: Limits, bs: bytes)
    requires DecodeHeader(limits, bs).Done?
    ensures var Done(h, n) := DecodeHeader(limits, bs);
      && n <= |bs|
      && |EncodeHeader(h)| <= n
      && DecodeHeader(limits, EncodeHeader(h)) == Done(h, |EncodeHeader(h)|)
      && (EncodeHeader(h) == bs[..n] <==> ShortestLength(bs))
  {
    var Done(h, n) := DecodeHeader(limits, bs);
    DecodedFields(limits, bs);
    HeaderRoundTrip(limits, h, []);
    assert EncodeHeader(h) + [] == EncodeHeader(h);
    EncodesFields(h, bs, n);
  }

  /** A header comes back from its own encoding exactly when the codec admits it. */
  lemma HeaderRoundTripExactly(limits: Limits, h: Header, tail: bytes)
    ensures DecodeHeader(limits, EncodeHeader(h) + tail) == Done(h, |EncodeHeader(h)|) <==> Admits(limits, h)
  {
    if Admits(limits, h) {
      HeaderRoundTrip(limits, h, tail);
    } else if DecodeHeader(limits, EncodeHeader(h) + tail) == Done(h, |EncodeHeader(h)|) {
      DecodedFields(limits, EncodeHeader(h) + tail);
      assert false;
    }
  }

  /** What the codec has against a header, first objection first; nothing if it admits it. */
  function Objection(limits: Limits, h: Header): Option<Error> {
    if h.opcode.IsReserved() then Some(ReservedOpCode)
    else if h.opcode.IsControl() && !h.fin then Some(FragmentedControl)
    else if h.rsv1 && !limits.rsv1 then Some(InvalidReservedBit(1))
    else if h.rsv2 && !limits.rsv2 then Some(InvalidReservedBit(2))
    else if h.rsv3 && !limits.rsv3 then Some(InvalidReservedBit(3))
    else if h.opcode.IsControl() && h.payloadLen > 125 then Some(InvalidControlFrameLen)
    else if h.payloadLen > limits.maxDataSize then Some(PayloadTooLarge(h.payloadLen, limits.maxDataSize))
    else None
  }

  /** The objection to a header's flags survives printing. */
  lemma FlagsRejected(limits: Limits, h: Header, second: byte)
    ensures var e := Objection(limits, h);
      e.Some? && !e.value.InvalidControlFrameLen? && !e.value.PayloadTooLarge? ==>
        DecodeFlags(limits, FirstByte(h), second) == Failed(e.value)
    ensures var e := Objection(limits, h);
      e.Some? && (e.value.InvalidControlFrameLen? || e.value.PayloadTooLarge?) ==>
        DecodeFlags(limits, FirstByte(h), second).Done?
        && DecodeFlags(limits, FirstByte(h), second).header.opcode == h.opcode
  {
    OpCodeRoundTrip(h.opcode, 0);
    FlagBits(h.fin, h.rsv1, h.rsv2, h.rsv3, h.opcode.ToByte());
    hide Bit, OpCodeFromByte, OpCode.ToByte;
  }

  /** A printed header the codec has an objection to is rejected with that error, whatever follows it. */
  lemma RejectsInOrder(limits: Limits, h: Header, tail: bytes)
    requires h.payloadLen <= USIZE_MAX && Objection(limits, h).Some?
    ensures DecodeHeader(limits, EncodeHeader(h) + tail) == Failed(Objection(limits, h).value)
  {
    var lb := LengthBytes(h.masked, h.payloadLen);
    var key := if h.masked then ToBigEndian(h.mask, 4) else [];
    var bs := EncodeHeader(h) + tail;
    assert bs == [FirstByte(h)] + lb + (key + tail);
    LengthRoundTrip(h.masked, h.payloadLen, key + tail, FirstByte(h));
    FlagsRejected(limits, h, bs[1]);
  }

  /** No bytes make the decoder report an unknown opcode: four bits are always one of the sixteen. */
  lemma NeverUnknown(limits: Limits, bs: bytes)
    ensures DecodeHeader(limits, bs) != Failed(UnknownOpCode)
  {
    if |bs| >= 2 {
      OpCodeRoundTrip(Continue, bs[0] % 16);
      hide Bit, OpCodeFromByte;
    }
  }
}
