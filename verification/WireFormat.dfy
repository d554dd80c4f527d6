/** What the bytes of a frame mean, bit by bit (sections 5.2 and 5.3 of RFC 6455). */
module WireFormat {
  import opened Bytes
  import opened Base
  import opened HeaderLaws

  /** Bit `j` of a number; 0 is the lowest. */
  predicate BitAt(n: nat, j: nat) {
    if j == 0 then n % 2 == 1 else BitAt(n / 2, j - 1)
  }

  /** The number these bytes stand for, the first one being the most significant. */
  function Number(bs: bytes): nat {
    if bs == [] then 0 else bs[0] * Pow256(|bs| - 1) + Number(bs[1..])
  }

  lemma {:induction false} BigEndianIsPositional(bs: bytes)
    ensures FromBigEndian(bs) == Number(bs)
  {
    if bs != [] {
      var front, last := bs[..|bs| - 1], bs[|bs| - 1];
      BigEndianIsPositional(front);
      NumberSnoc(front, last);
      assert bs == front + [last];
    }
  }

  lemma {:induction false} NumberSnoc(bs: bytes, b: byte)
    ensures Number(bs + [b]) == Number(bs) * 256 + b
  {
    if bs == [] {
      assert [b][1..] == [] && bs + [b] == [b];
    } else {
      assert (bs + [b])[1..] == bs[1..] + [b];
      NumberSnoc(bs[1..], b);
      Shifted(bs[0], Pow256(|bs| - 1), Number(bs[1..]));
    }
  }

  lemma Shifted(a: nat, power: nat, low: nat)
    ensures a * (256 * power) + low * 256 == (a * power + low) * 256
  {}

  /** The operation code's number. */
  function Code(opcode: OpCode): Option<nat> {
    match opcode
    case Continue => Some(0)
    case Text => Some(1)
    case Binary => Some(2)
    case Close => Some(8)
    case Ping => Some(9)
    case Pong => Some(10)
    case _ => None
  }

  lemma Peel(n: nat, j: nat)
    ensures BitAt(n, j + 1) == BitAt(n / 2, j)
  {}

  lemma PeelFour(n: nat, j: nat)
    ensures BitAt(n, j + 4) == BitAt(n / 16, j)
  {
    hide BitAt;
    Peel(n, j + 3);
    Peel(n / 2, j + 2);
    Peel(n / 2 / 2, j + 1);
    Peel(n / 2 / 2 / 2, j);
    Sixteenth(n);
  }

  lemma Sixteenth(n: nat)
    ensures n / 2 / 2 / 2 / 2 == n / 16
  {
    assert n / 2 / 2 == n / 4;
    assert n / 4 / 2 == n / 8;
  }

  lemma NibbleBits(b3: bool, b2: bool, b1: bool, b0: bool)
    ensures var n := Flag(b3, 8) + Flag(b2, 4) + Flag(b1, 2) + Flag(b0, 1);
      BitAt(n, 3) == b3 && BitAt(n, 2) == b2 && BitAt(n, 1) == b1 && BitAt(n, 0) == b0
  {
    var n := Flag(b3, 8) + Flag(b2, 4) + Flag(b1, 2) + Flag(b0, 1);
    assert n / 2 == Flag(b3, 4) + Flag(b2, 2) + Flag(b1, 1);
    assert n / 2 / 2 == Flag(b3, 2) + Flag(b2, 1) && n / 2 / 2 / 2 == Flag(b3, 1);
    Peel(n, 2);
    Peel(n / 2, 1);
    Peel(n / 2 / 2, 0);
    Peel(n, 1);
    Peel(n / 2, 0);
    Peel(n, 0);
  }

  lemma FirstByteBits(b7: bool, b6: bool, b5: bool, b4: bool, low: nat)
    requires low < 16
    ensures var b := Flag(b7, 0x80) + Flag(b6, 0x40) + Flag(b5, 0x20) + Flag(b4, 0x10) + low;
      BitAt(b, 7) == b7 && BitAt(b, 6) == b6 && BitAt(b, 5) == b5 && BitAt(b, 4) == b4 && b % 16 == low
  {
    var b := Flag(b7, 0x80) + Flag(b6, 0x40) + Flag(b5, 0x20) + Flag(b4, 0x10) + low;
    var n := Flag(b7, 8) + Flag(b6, 4) + Flag(b5, 2) + Flag(b4, 1);
    assert b == 16 * n + low && b / 16 == n;
    hide BitAt, Flag;
    NibbleBits(b7, b6, b5, b4);
    PeelFour(b, 0);
    PeelFour(b, 1);
    PeelFour(b, 2);
    PeelFour(b, 3);
  }

  lemma TopBit(masked: bool, low: nat)
    requires low < 128
    ensures BitAt(Flag(masked, 0x80) + low, 7) == masked
  {
    var b := Flag(masked, 0x80) + low;
    PeelFour(b, 3);
    Peel(b / 16, 2);
    Peel(b / 16 / 2, 1);
    Peel(b / 16 / 2 / 2, 0);
    assert b / 16 / 2 == b / 32;
    assert b / 32 / 2 == b / 64;
    assert b / 64 / 2 == Flag(masked, 1);
  }

  /** The first byte: the final flag, the reserved bits and the operation code. */
  lemma FirstByteMeans(h: Header)
    ensures var b := EncodeHeader(h)[0];
      && BitAt(b, 7) == h.fin && BitAt(b, 6) == h.rsv1 && BitAt(b, 5) == h.rsv2 && BitAt(b, 4) == h.rsv3
      && (!h.opcode.IsReserved() ==> Code(h.opcode) == Some(b % 16))
  {
    FirstByteBits(h.fin, h.rsv1, h.rsv2, h.rsv3, h.opcode.ToByte());
    hide BitAt;
  }

  /** The bytes of a header one after the other. */
  lemma HeaderParts(h: Header, ext: bytes, low: nat)
    requires low < 128
    requires LengthBytes(h.masked, h.payloadLen) == [Flag(h.masked, 0x80) + low] + ext
    ensures var bs, key := EncodeHeader(h), if h.masked then 4 else 0;
      && |bs| == 2 + |ext| + key && bs[2..2 + |ext|] == ext
      && BitAt(bs[1], 7) == h.masked && bs[1] % 128 == low
      && (h.masked ==> bs[|bs| - 4..] == ToBigEndian(h.mask, 4))
  {
    TopBit(h.masked, low);
    hide BitAt, FirstByte, ToBigEndian, LengthBytes;
    assert EncodeHeader(h) == [FirstByte(h), Flag(h.masked, 0x80) + low] + ext
      + if h.masked then ToBigEndian(h.mask, 4) else [];
  }

  /** The second byte, and what is behind it: the mask flag, the length in one of three forms, and four bytes of key. */
  lemma LengthMeans(h: Header)
    requires h.payloadLen <= USIZE_MAX && (h.masked ==> h.mask < 0x1_0000_0000)
    ensures var bs, len, key := EncodeHeader(h), h.payloadLen, if h.masked then 4 else 0;
      && BitAt(bs[1], 7) == h.masked
      && (len < 126 ==> |bs| == 2 + key && bs[1] % 128 == len)
      && (126 <= len <= 0xFFFF ==> |bs| == 4 + key && bs[1] % 128 == 126 && Number(bs[2..4]) == len)
      && (len > 0xFFFF ==> |bs| == 10 + key && bs[1] % 128 == 127 && Number(bs[2..10]) == len)
      && (h.masked ==> Number(bs[|bs| - 4..]) == h.mask)
  {
    assert Pow256(2) == 0x1_0000 && Pow256(4) == 0x1_0000_0000 && Pow256(8) == 0x1_0000_0000_0000_0000;
    hide BitAt, Number, EncodeHeader, ToBigEndian, Pow256;
    var len := h.payloadLen;
    if len < 126 {
      assert LengthBytes(h.masked, len) == [Flag(h.masked, 0x80) + len] + [];
      HeaderParts(h, [], len);
    } else if len <= 0xFFFF {
      HeaderParts(h, ToBigEndian(len, 2), 126);
      PrintsNumber(len, 2);
    } else {
      HeaderParts(h, ToBigEndian(len, 8), 127);
      PrintsNumber(len, 8);
    }
    if h.masked {
      PrintsNumber(h.mask, 4);
    }
  }

  lemma PrintsNumber(n: nat, k: nat)
    requires n < Pow256(k)
    ensures Number(ToBigEndian(n, k)) == n
  {
    BigEndianReads(n, k);
    BigEndianIsPositional(ToBigEndian(n, k));
  }

  lemma XorParts(a: nat, b: nat)
    ensures Xor(a, b) % 2 == (a + b) % 2 && Xor(a, b) / 2 == Xor(a / 2, b / 2)
  {
    if a != 0 || b != 0 {
      Halves(Xor(a / 2, b / 2), (a + b) % 2);
    }
  }

  lemma {:induction false} XorBits(a: nat, b: nat, j: nat)
    ensures BitAt(Xor(a, b), j) == (BitAt(a, j) != BitAt(b, j))
    decreases j
  {
    hide Xor;
    XorParts(a, b);
    if j > 0 {
      XorBits(a / 2, b / 2, j - 1);
    }
  }

  /** Masking is exclusive or, bit by bit, with the key as it stands at the end of the header: payload byte `i` goes
      with key byte `i` modulo 4. */
  lemma MaskMeans(h: Header, data: bytes, i: nat, j: nat)
    requires h.masked && i < |data|
    ensures var head := EncodeHeader(h);
      var key := head[|head| - 4..];
      |Masked(h, data)| == |data| && BitAt(Masked(h, data)[i], j) == (BitAt(data[i], j) != BitAt(key[i % 4], j))
  {
    var head := EncodeHeader(h);
    assert head[|head| - 4..] == ToBigEndian(h.mask, 4);
    XorBits(data[i], ToBigEndian(h.mask, 4)[i % 4], j);
  }

  /** Is `masked` what `data` becomes with this key? (section 5.3 of RFC 6455) */
  ghost predicate IsMaskedWith(key: bytes, data: bytes, masked: bytes)
    requires |key| == 4
  {
    |masked| == |data|
    && forall i, j: nat | 0 <= i < |data| :: BitAt(masked[i], j) == (BitAt(data[i], j) != BitAt(key[i % 4], j))
  }

  lemma MasksWithKey(h: Header, data: bytes)
    requires h.masked
    ensures IsMaskedWith(EncodeHeader(h)[|EncodeHeader(h)| - 4..], data, Masked(h, data))
  {
    hide BitAt, EncodeHeader;
    forall i, j: nat | 0 <= i < |data| {
      MaskMeans(h, data, i, j);
    }
  }

  /** Headers of section 5.7 of RFC 6455: a text, a Ping, a message in two fragments, and a longer message. */
  lemma Examples()
    ensures EncodeHeader(NewHeader(Text).(payloadLen := 5)) == [0x81, 0x05]
    ensures EncodeHeader(NewHeader(Ping).(payloadLen := 5)) == [0x89, 0x05]
    ensures EncodeHeader(NewHeader(Text).(fin := false, payloadLen := 3)) == [0x01, 0x03]
    ensures EncodeHeader(NewHeader(Continue).(payloadLen := 2)) == [0x80, 0x02]
    ensures EncodeHeader(NewHeader(Binary).(payloadLen := 256)) == [0x82, 0x7E, 0x01, 0x00]
    ensures EncodeHeader(NewHeader(Pong).(masked := true, mask := 0x37FA_213D, payloadLen := 5))
      == [0x8A, 0x85, 0x37, 0xFA, 0x21, 0x3D]
  {
    TwoBytes(256);
    FourBytes(0x37FA_213D);
    hide ToBigEndian;
  }

  lemma TwoBytes(n: nat)
    requires n < 0x1_0000
    ensures ToBigEndian(n, 2) == [n / 256, n % 256]
  {
    assert ToBigEndian(n / 256, 1) == ToBigEndian(n / 256 / 256, 0) + [n / 256 % 256];
  }

  lemma FourBytes(n: nat)
    requires n < 0x1_0000_0000
    ensures ToBigEndian(n, 4) == [n / 0x100_0000, n / 0x1_0000 % 256, n / 256 % 256, n % 256]
  {
    TwoBytes(n / 0x1_0000);
    assert ToBigEndian(n, 4) == ToBigEndian(n / 256, 3) + [n % 256];
    assert ToBigEndian(n / 256, 3) == ToBigEndian(n / 256 / 256, 2) + [n / 256 % 256];
    assert n / 256 / 256 == n / 0x1_0000 && n / 0x1_0000 / 256 == n / 0x100_0000;
  }
}
