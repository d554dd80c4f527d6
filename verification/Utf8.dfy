/** UTF-8 validation of close reasons. */
module Utf8 {
  import opened Bytes

  /** Is `s` well-formed UTF-8 (`str::from_utf8`; RFC 3629)? */
  predicate IsUtf8(s: bytes) {
    if s == [] then true
    else if s[0] < 0x80 then IsUtf8(s[1..])
    else if 0xC2 <= s[0] < 0xE0 then |s| >= 2 && IsTail(s[1]) && IsUtf8(s[2..])
    else if 0xE0 <= s[0] < 0xF0 then
      && |s| >= 3 && IsTail(s[1]) && IsTail(s[2])
      && (s[0] == 0xE0 ==> s[1] >= 0xA0) && (s[0] == 0xED ==> s[1] < 0xA0) && IsUtf8(s[3..])
    else
      && 0xF0 <= s[0] < 0xF5
      && |s| >= 4 && IsTail(s[1]) && IsTail(s[2]) && IsTail(s[3])
      && (s[0] == 0xF0 ==> s[1] >= 0x90) && (s[0] == 0xF4 ==> s[1] < 0x90) && IsUtf8(s[4..])
  }

  predicate IsTail(b: byte) { 0x80 <= b < 0xC0 }

  /** A Unicode scalar value: a code point that is not a surrogate. */
  type Scalar = c: nat | c < 0xD800 || 0xE000 <= c < 0x11_0000

  /** The UTF-8 encoding of a scalar value (section 3 of RFC 3629). */
  function EncodeScalar(c: Scalar): bytes {
    if c < 0x80 then [c]
    else if c < 0x800 then [0xC0 + c / 64, 0x80 + c % 64]
    else if c < 0x1_0000 then [0xE0 + c / 4096, 0x80 + c / 64 % 64, 0x80 + c % 64]
    else [0xF0 + c / 0x4_0000, 0x80 + c / 4096 % 64, 0x80 + c / 64 % 64, 0x80 + c % 64]
  }

  function Encode(cs: seq<Scalar>): bytes {
    if cs == [] then [] else EncodeScalar(cs[0]) + Encode(cs[1..])
  }

  /** The six bits a tail byte carries. */
  function Low(b: byte): (n: nat)
    requires IsTail(b)
    ensures n < 64
  {
    b as int - 0x80
  }

  lemma Sextet(high: nat, low: nat)
    requires low < 64
    ensures (high * 64 + low) / 64 == high && (high * 64 + low) % 64 == low
  {}

  /** Taking a value apart into sextets and putting it together again. */
  lemma Sextets(high: nat, a: nat, b: nat, c: nat)
    requires a < 64 && b < 64 && c < 64
    ensures var n := ((high * 64 + a) * 64 + b) * 64 + c;
      n % 64 == c && n / 64 % 64 == b && n / 4096 % 64 == a && n / 4096 == high * 64 + a && n / 0x4_0000 == high
  {
    Sextet((high * 64 + a) * 64 + b, c);
    Sextet(high * 64 + a, b);
    Sextet(high, a);
    var n := ((high * 64 + a) * 64 + b) * 64 + c;
    assert n / 4096 == n / 64 / 64 && n / 0x4_0000 == n / 4096 / 64;
  }

  /** The scalar value at the start of well-formed bytes, and the rest of them. */
  lemma FirstScalar(s: bytes) returns (c: Scalar, rest: bytes)
    requires s != [] && IsUtf8(s)
    ensures s == EncodeScalar(c) + rest && IsUtf8(rest) && |rest| < |s|
  {
    var lead: int := s[0];
    if lead < 0x80 {
      c, rest := lead, s[1..];
    } else if lead < 0xE0 {
      c := TwoBytes(s[0], s[1]);
      rest := s[2..];
    } else if lead < 0xF0 {
      c := ThreeBytes(s[0], s[1], s[2]);
      rest := s[3..];
    } else {
      c := FourBytes(s[0], s[1], s[2], s[3]);
      rest := s[4..];
    }
    hide EncodeScalar;
  }

  lemma TwoBytes(a: byte, b: byte) returns (c: Scalar)
    requires 0xC2 <= a < 0xE0 && IsTail(b)
    ensures EncodeScalar(c) == [a, b]
  {
    Sextets(0, 0, a as int - 0xC0, Low(b));
    c := (a as int - 0xC0) * 64 + Low(b);
  }

  lemma ThreeBytes(a: byte, b: byte, d: byte) returns (c: Scalar)
    requires 0xE0 <= a < 0xF0 && IsTail(b) && IsTail(d)
    requires (a == 0xE0 ==> b >= 0xA0) && (a == 0xED ==> b < 0xA0)
    ensures EncodeScalar(c) == [a, b, d]
  {
    Sextets(0, a as int - 0xE0, Low(b), Low(d));
    c := ((a as int - 0xE0) * 64 + Low(b)) * 64 + Low(d);
  }

  lemma FourBytes(a: byte, b: byte, d: byte, e: byte) returns (c: Scalar)
    requires 0xF0 <= a < 0xF5 && IsTail(b) && IsTail(d) && IsTail(e)
    requires (a == 0xF0 ==> b >= 0x90) && (a == 0xF4 ==> b < 0x90)
    ensures EncodeScalar(c) == [a, b, d, e]
  {
    Sextets(a as int - 0xF0, Low(b), Low(d), Low(e));
    c := (((a as int - 0xF0) * 64 + Low(b)) * 64 + Low(d)) * 64 + Low(e);
  }

  /** Is `e` the encoding of one scalar value, by its bytes? */
  predicate IsSequence(e: bytes) {
    match |e|
    case 1 => e[0] < 0x80
    case 2 => 0xC2 <= e[0] < 0xE0 && IsTail(e[1])
    case 3 =>
      && 0xE0 <= e[0] < 0xF0 && IsTail(e[1]) && IsTail(e[2])
      && (e[0] == 0xE0 ==> e[1] >= 0xA0) && (e[0] == 0xED ==> e[1] < 0xA0)
    case 4 =>
      && 0xF0 <= e[0] < 0xF5 && IsTail(e[1]) && IsTail(e[2]) && IsTail(e[3])
      && (e[0] == 0xF0 ==> e[1] >= 0x90) && (e[0] == 0xF4 ==> e[1] < 0x90)
    case _ => false
  }

  lemma EncodesSequence(c: Scalar)
    ensures IsSequence(EncodeScalar(c))
  {}

  lemma SequenceIsUtf8(e: bytes, rest: bytes)
    requires IsSequence(e) && IsUtf8(rest)
    ensures IsUtf8(e + rest)
  {
    assert (e + rest)[|e|..] == rest;
  }

  lemma {:induction false} EncodedIsUtf8(cs: seq<Scalar>)
    ensures IsUtf8(Encode(cs))
  {
    if cs != [] {
      EncodedIsUtf8(cs[1..]);
      EncodesSequence(cs[0]);
      SequenceIsUtf8(EncodeScalar(cs[0]), Encode(cs[1..]));
    }
  }

  lemma {:induction false} Utf8IsEncoded(s: bytes) returns (cs: seq<Scalar>)
    requires IsUtf8(s)
    ensures Encode(cs) == s
    decreases |s|
  {
    cs := [];
    if s != [] {
      var c, tail := FirstScalar(s);
      var rest := Utf8IsEncoded(tail);
      cs := [c] + rest;
      assert cs[1..] == rest;
    }
  }

  /** The bytes a close reason may hold are exactly the encodings of scalar values. */
  lemma WellFormedExactly(s: bytes)
    ensures IsUtf8(s) <==> exists cs: seq<Scalar> :: Encode(cs) == s
  {
    if IsUtf8(s) {
      var cs := Utf8IsEncoded(s);
    }
    forall cs: seq<Scalar> | Encode(cs) == s ensures IsUtf8(s) {
      EncodedIsUtf8(cs);
    }
  }

  /** An example of section 7 of RFC 3629, a scalar value of four bytes, and the bytes of a surrogate. */
  lemma Examples()
    ensures EncodeScalar(0x2262) == [0xE2, 0x89, 0xA2] && EncodeScalar(0x391) == [0xCE, 0x91]
    ensures EncodeScalar(0x2_33B4) == [0xF0, 0xA3, 0x8E, 0xB4] && !IsUtf8([0xED, 0xA0, 0x80])
  {}
}
