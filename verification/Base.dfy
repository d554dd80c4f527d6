/** The base frame codec: operation codes, frame headers and payload masking (section 5.2 and 5.3 of RFC 6455). */
module Base {
  import opened Bytes
  import opened Io

  const MAX_HEADER_SIZE: nat := 14
  const MAX_CTRL_BODY_SIZE: nat := 125
  const TWO_EXT: byte := 126
  const EIGHT_EXT: byte := 127

  datatype OpCode =
    | Continue | Text | Binary | Close | Ping | Pong
    | Reserved3 | Reserved4 | Reserved5 | Reserved6 | Reserved7
    | Reserved11 | Reserved12 | Reserved13 | Reserved14 | Reserved15
  {
    predicate IsControl() { Close? || Ping? || Pong? }

    predicate IsReserved() {
      !(Continue? || Text? || Binary? || IsControl())
    }

    function ToByte(): (b: byte)
      ensures b < 16
    {
      match this
      case Continue => 0
      case Text => 1
      case Binary => 2
      case Close => 8
      case Ping => 9
      case Pong => 10
      case Reserved3 => 3
      case Reserved4 => 4
      case Reserved5 => 5
      case Reserved6 => 6
      case Reserved7 => 7
      case Reserved11 => 11
      case Reserved12 => 12
      case Reserved13 => 13
      case Reserved14 => 14
      case Reserved15 => 15
    }
  }

  /** `OpCode::try_from`; `None` is the unknown-opcode error. */
  function OpCodeFromByte(b: byte): Option<OpCode> {
    match b
    case 0 => Some(Continue)
    case 1 => Some(Text)
    case 2 => Some(Binary)
    case 3 => Some(Reserved3)
    case 4 => Some(Reserved4)
    case 5 => Some(Reserved5)
    case 6 => Some(Reserved6)
    case 7 => Some(Reserved7)
    case 8 => Some(Close)
    case 9 => Some(Ping)
    case 10 => Some(Pong)
    case 11 => Some(Reserved11)
    case 12 => Some(Reserved12)
    case 13 => Some(Reserved13)
    case 14 => Some(Reserved14)
    case 15 => Some(Reserved15)
    case _ => None
  }

  datatype Header = Header(
    fin: bool, rsv1: bool, rsv2: bool, rsv3: bool, masked: bool, opcode: OpCode, mask: nat, payloadLen: nat)

  function NewHeader(opcode: OpCode): Header {
    Header(true, false, false, false, false, opcode, 0, 0)
  }

  datatype Error =
    | UnknownOpCode
    | ReservedOpCode
    | FragmentedControl
    | InvalidReservedBit(bit: nat)
    | InvalidControlFrameLen
    | PayloadTooLarge(actual: nat, maximum: nat)

  /** The outcome of incremental parsing, with the parser's error. */
  datatype Parsing = Done(header: Header, offset: nat) | NeedMore(count: nat) | Failed(error: Error)

  /** The part of a codec that decides what it decodes; the reserved bits are those an extension claimed. */
  datatype Limits = Limits(maxDataSize: nat, rsv1: bool, rsv2: bool, rsv3: bool)

  /** The length field: extension bytes after the second header byte. */
  function LengthSize(second: byte): nat {
    match second % 128
    case 126 => 2
    case 127 => 8
    case _ => 0
  }

  /** `Codec::decode_header` up to the first byte's checks: the header so far, or the error. */
  function DecodeFlags(limits: Limits, first: byte, second: byte): (r: Parsing)
    ensures !r.NeedMore?
  {
    var fin := Bit(first, 7);
    match OpCodeFromByte(first % 16)
    case None => Failed(UnknownOpCode)
    case Some(opcode) =>
      if opcode.IsReserved() then Failed(ReservedOpCode)
      else if opcode.IsControl() && !fin then Failed(FragmentedControl)
      else
        var rsv1 := Bit(first, 6);
        if rsv1 && !limits.rsv1 then Failed(InvalidReservedBit(1)) else
        var rsv2 := Bit(first, 5);
        if rsv2 && !limits.rsv2 then Failed(InvalidReservedBit(2)) else
        var rsv3 := Bit(first, 4);
        if rsv3 && !limits.rsv3 then Failed(InvalidReservedBit(3)) else
        Done(NewHeader(opcode).(fin := fin, rsv1 := rsv1, rsv2 := rsv2, rsv3 := rsv3, masked := Bit(second, 7)), 2)
  }

  /** The payload length announced by the second byte and the extension bytes after it. */
  function DecodeLength(bs: bytes): nat
    requires |bs| >= 2 && |bs| >= 2 + LengthSize(bs[1])
  {
    if LengthSize(bs[1]) == 0 then bs[1] % 128 else FromBigEndian(bs[2..2 + LengthSize(bs[1])])
  }

  /** `Codec::decode_header`. */
  function DecodeHeader(limits: Limits, bs: bytes): (r: Parsing)
    ensures r.Done? ==> 2 <= r.offset <= |bs|
  {
    if |bs| < 2 then NeedMore(2 - |bs|) else
    var flags := DecodeFlags(limits, bs[0], bs[1]);
    if flags.Failed? then flags else
    var header, offset := flags.header, 2 + LengthSize(bs[1]);
    if |bs| < offset then NeedMore(offset - |bs|) else
    var len := DecodeLength(bs);
    if len > MAX_CTRL_BODY_SIZE && header.opcode.IsControl() then Failed(InvalidControlFrameLen) else
    if len > limits.maxDataSize then Failed(PayloadTooLarge(len, limits.maxDataSize)) else
    var header := header.(payloadLen := len);
    if !header.masked then Done(header, offset)
    else if |bs| < offset + 4 then NeedMore(offset + 4 - |bs|)
    else Done(header.(mask := FromBigEndian(bs[offset..offset + 4])), offset + 4)
  }

  /** The weight of a flag bit; the bits of a header byte are disjoint, so adding them is combining them. */
  function Flag(on: bool, weight: nat): nat { if on then weight else 0 }

  function FirstByte(h: Header): byte {
    Flag(h.fin, 0x80) + Flag(h.rsv1, 0x40) + Flag(h.rsv2, 0x20) + Flag(h.rsv3, 0x10) + h.opcode.ToByte()
  }

  /** The second byte and the length extension in its shortest form. */
  function LengthBytes(masked: bool, len: nat): (bs: bytes)
    ensures |bs| == if len < 126 then 1 else if len <= 0xFFFF then 3 else 9
  {
    if len < 126 then [Flag(masked, 0x80) + len]
    else if len <= 0xFFFF then [Flag(masked, 0x80) + TWO_EXT] + ToBigEndian(len, 2)
    else [Flag(masked, 0x80) + EIGHT_EXT] + ToBigEndian(len, 8)
  }

  /** `Codec::encode_header`. */
  function EncodeHeader(h: Header): (bs: bytes)
    ensures 2 <= |bs| <= MAX_HEADER_SIZE
  {
    [FirstByte(h)] + LengthBytes(h.masked, h.payloadLen) + (if h.masked then ToBigEndian(h.mask, 4) else [])
  }

  /** The headers a codec with these limits encodes for a peer with the same limits. */
  predicate Admits(limits: Limits, h: Header) {
    && !h.opcode.IsReserved()
    && (h.opcode.IsControl() ==> h.fin && h.payloadLen <= MAX_CTRL_BODY_SIZE)
    && (h.rsv1 ==> limits.rsv1)
    && (h.rsv2 ==> limits.rsv2)
    && (h.rsv3 ==> limits.rsv3)
    && h.payloadLen <= limits.maxDataSize
    && h.payloadLen <= USIZE_MAX
    && (if h.masked then h.mask < 0x1_0000_0000 else h.mask == 0)
  }

  /** `Codec::apply_mask` as a function: byte `i` is combined with key byte `i` modulo 4. */
  function Masked(h: Header, data: bytes): (r: bytes)
    ensures |r| == |data|
  {
    if !h.masked then data
    else seq(|data|, i requires 0 <= i < |data| => XorByte(data[i], ToBigEndian(h.mask, 4)[i % 4]))
  }

  lemma MaskInvolution(h: Header, data: bytes)
    ensures Masked(h, Masked(h, data)) == data
  {
    if h.masked {
      forall i | 0 <= i < |data| ensures Masked(h, Masked(h, data))[i] == data[i] {
        XorInvolution(data[i], ToBigEndian(h.mask, 4)[i % 4]);
      }
    }
  }

  /** A codec: its limits, and the scratch buffer headers are encoded into. */
  class Codec {
    var maxDataSize: nat
    var reservedBits: byte
    const headerBuffer: array<byte>

    ghost predicate Valid()
      reads this
    {
      headerBuffer.Length == MAX_HEADER_SIZE && reservedBits < 8
    }

    function Bounds(): Limits
      reads this
    {
      Limits(maxDataSize, Bit(reservedBits, 2), Bit(reservedBits, 1), Bit(reservedBits, 0))
    }

    constructor ()
      ensures Valid() && fresh(headerBuffer)
      ensures Bounds() == Limits(256 * 1024 * 1024, false, false, false)
    {
      maxDataSize := 256 * 1024 * 1024;
      reservedBits := 0;
      headerBuffer := new byte[MAX_HEADER_SIZE](_ => 0);
    }

    method AddReservedBits(rsv1: bool, rsv2: bool, rsv3: bool)
      requires Valid()
      modifies this
      ensures Valid() && maxDataSize == old(maxDataSize)
      ensures Bounds() ==
        var l := old(Bounds());
        Limits(maxDataSize, l.rsv1 || rsv1, l.rsv2 || rsv2, l.rsv3 || rsv3)
    {
      reservedBits := Flag(Bit(reservedBits, 2) || rsv1, 4) + Flag(Bit(reservedBits, 1) || rsv2, 2)
        + Flag(Bit(reservedBits, 0) || rsv3, 1);
    }

    /** Write `bs` into the scratch buffer from `offset` on. */
    method CopyFromSlice(offset: nat, bs: bytes)
      requires offset + |bs| <= headerBuffer.Length
      modifies headerBuffer
      ensures headerBuffer[..offset + |bs|] == old(headerBuffer[..offset]) + bs
    {
      forall i | 0 <= i < |bs| {
        headerBuffer[offset + i] := bs[i];
      }
    }

    /** Encode a header into the scratch buffer; `offset` is the encoding's length. */
    method EncodeInto(header: Header) returns (offset: nat)
      requires Valid()
      modifies headerBuffer
      ensures offset <= MAX_HEADER_SIZE && headerBuffer[..offset] == EncodeHeader(header)
    {
      headerBuffer[0] := FirstByte(header);
      offset := 1;
      assert headerBuffer[..offset] == [FirstByte(header)];
      var len, high := header.payloadLen, Flag(header.masked, 0x80);
      if len < 126 {
        CopyFromSlice(offset, [high + len]);
        offset := offset + 1;
      } else if len <= 0xFFFF {
        CopyFromSlice(offset, [high + TWO_EXT]);
        offset := offset + 1;
        CopyFromSlice(offset, ToBigEndian(len, 2));
        offset := offset + 2;
      } else {
        CopyFromSlice(offset, [high + EIGHT_EXT]);
        offset := offset + 1;
        CopyFromSlice(offset, ToBigEndian(len, 8));
        offset := offset + 8;
      }
      assert headerBuffer[..offset] == [FirstByte(header)] + LengthBytes(header.masked, len);
      if header.masked {
        CopyFromSlice(offset, ToBigEndian(header.mask, 4));
        offset := offset + 4;
      }
    }

    /** Mask `data` in place from index `start` on. */
    static method ApplyMask(header: Header, data: ByteVec, start: nat)
      requires start <= |data.data|
      modifies data
      ensures data.data == old(data.data)[..start] + Masked(header, old(data.data)[start..])
    {
      if header.masked {
        var mask := ToBigEndian(header.mask, 4);
        var i := start;
        while i < |data.data|
          invariant start <= i <= |data.data| == |old(data.data)|
          invariant data.data[..start] == old(data.data)[..start] && data.data[i..] == old(data.data)[i..]
          invariant forall j :: start <= j < i ==> data.data[j] == Masked(header, old(data.data)[start..])[j - start]
        {
          data.data := data.data[i := XorByte(data.data[i], mask[(i - start) % 4])];
          i := i + 1;
        }
      }
    }
  }
}
