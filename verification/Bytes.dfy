/** Bytes, big-endian integers and small sequence helpers shared by all modules. */
module Bytes {
  type byte = x: nat | x < 256
  type bytes = seq<byte>

  /** `usize::MAX` and `u64::MAX` of a 64-bit target. */
  const USIZE_MAX: nat := 0xFFFF_FFFF_FFFF_FFFF

  datatype Option<+T> = None | Some(value: T)

  function Min(a: nat, b: nat): nat { if a <= b then a else b }

  /** `usize::saturating_add`. */
  function SaturatingAdd(a: nat, b: nat): nat { Min(a + b, USIZE_MAX) }

  /** What is left of `s` after its first `k` elements; nothing if there are fewer. */
  function Drop<T>(s: seq<T>, k: nat): seq<T> { if k <= |s| then s[k..] else [] }

  lemma AppendAssociates<T>(a: seq<T>, b: seq<T>, c: seq<T>)
    ensures a + b + c == a + (b + c)
  {}

  function Zeros(n: nat): (zeros: bytes)
    ensures |zeros| == n
  {
    seq(n, _ => 0)
  }

  /** Is bit `i` (0 is the lowest) of `b` set? */
  predicate Bit(b: byte, i: nat) {
    match i
    case 0 => b % 2 == 1
    case 1 => b / 2 % 2 == 1
    case 2 => b / 4 % 2 == 1
    case 3 => b / 8 % 2 == 1
    case 4 => b / 16 % 2 == 1
    case 5 => b / 32 % 2 == 1
    case 6 => b / 64 % 2 == 1
    case 7 => b / 128 == 1
    case _ => false
  }

  /** Bitwise exclusive or. */
  function Xor(a: nat, b: nat): nat {
    if a == 0 && b == 0 then 0 else 2 * Xor(a / 2, b / 2) + (a + b) % 2
  }

  lemma {:induction false} XorBound(a: nat, b: nat, bound: nat, bits: nat)
    requires bound == Pow2(bits) && a < bound && b < bound
    ensures Xor(a, b) < bound
  {
    if a != 0 || b != 0 {
      XorBound(a / 2, b / 2, bound / 2, bits - 1);
    }
  }

  lemma Halves(x: nat, bit: nat)
    requires bit < 2
    ensures (2 * x + bit) / 2 == x && (2 * x + bit) % 2 == bit
  {}

  lemma BitTwice(a: nat, b: nat)
    ensures ((a + b) % 2 + b) % 2 == a % 2
  {}

  lemma SameParity(a: nat, b: nat, c: nat)
    requires a % 2 == b % 2
    ensures (a + c) % 2 == (b + c) % 2
  {}

  lemma {:induction false} XorInvolution(a: nat, b: nat)
    ensures Xor(Xor(a, b), b) == a
  {
    if a != 0 || b != 0 {
      var x, bit, y := Xor(a / 2, b / 2), (a + b) % 2, Xor(a, b);
      XorInvolution(a / 2, b / 2);
      assert y == 2 * x + bit;
      Halves(x, bit);
      SameParity(y, bit, b);
      BitTwice(a, b);
      assert a == 2 * (a / 2) + a % 2;
    }
  }

  function XorByte(a: byte, b: byte): byte {
    assert Pow2(8) == 256;
    XorBound(a, b, 256, 8);
    Xor(a, b)
  }

  function Pow2(k: nat): (p: nat)
    ensures p > 0
  {
    if k == 0 then 1 else 2 * Pow2(k - 1)
  }

  function Pow256(k: nat): (p: nat)
    ensures p > 0
  {
    if k == 0 then 1 else 256 * Pow256(k - 1)
  }

  /** The low `k` bytes of `n`, most significant first (`to_be_bytes`). */
  function ToBigEndian(n: nat, k: nat): (bs: bytes)
    ensures |bs| == k
  {
    if k == 0 then [] else ToBigEndian(n / 256, k - 1) + [n % 256]
  }

  /** `from_be_bytes`. */
  function FromBigEndian(bs: bytes): (n: nat)
    ensures n < Pow256(|bs|)
  {
    if bs == [] then 0 else FromBigEndian(bs[..|bs| - 1]) * 256 + bs[|bs| - 1]
  }

  lemma {:induction false} BigEndianReads(n: nat, k: nat)
    requires n < Pow256(k)
    ensures FromBigEndian(ToBigEndian(n, k)) == n
  {
    if k > 0 {
      BigEndianReads(n / 256, k - 1);
      var bs := ToBigEndian(n, k);
      assert bs[..k - 1] == ToBigEndian(n / 256, k - 1);
    }
  }

  lemma {:induction false} BigEndianWrites(bs: bytes)
    ensures ToBigEndian(FromBigEndian(bs), |bs|) == bs
  {
    if bs != [] {
      var front, last := bs[..|bs| - 1], bs[|bs| - 1];
      var high := FromBigEndian(front);
      assert (high * 256 + last) / 256 == high && (high * 256 + last) % 256 == last;
      BigEndianWrites(front);
      assert bs == front + [last];
    }
  }
}
