/** Extension parameters and the string handling negotiation relies on. */
module Extension {
  import opened Bytes

  datatype Param = Param(name: string, value: Option<string>)

  predicate IsDigit(c: char) { '0' <= c <= '9' }

  function DigitValue(c: char): nat
    requires IsDigit(c)
  {
    c as int - '0' as int
  }

  /** The value of a string of decimal digits. */
  function DigitsValue(s: string): (n: nat)
    requires forall c | c in s :: IsDigit(c)
  {
    if s == "" then 0 else DigitsValue(s[..|s| - 1]) * 10 + DigitValue(s[|s| - 1])
  }

  /** `str::parse::<u8>`: digits with an optional plus sign, at most 255. */
  function ParseU8(s: string): Option<nat> {
    var digits := if s != "" && s[0] == '+' then s[1..] else s;
    if digits == "" || (exists c | c in digits :: !IsDigit(c)) then None
    else if DigitsValue(digits) > 255 then None else Some(DigitsValue(digits))
  }

  /** `to_string` of an unsigned integer. */
  function ToDecimal(n: nat): string {
    if n < 10 then [('0' as nat + n) as char] else ToDecimal(n / 10) + [('0' as nat + n % 10) as char]
  }

  lemma {:induction false} DecimalReads(n: nat)
    ensures ToDecimal(n) != "" && (forall c | c in ToDecimal(n) :: IsDigit(c)) && DigitsValue(ToDecimal(n)) == n
  {
    if n >= 10 {
      DecimalReads(n / 10);
      var s := ToDecimal(n);
      assert s[..|s| - 1] == ToDecimal(n / 10);
    }
  }

  lemma ParsesBack(n: nat)
    requires n <= 255
    ensures ParseU8(ToDecimal(n)) == Some(n)
  {
    DecimalReads(n);
    assert ToDecimal(n)[0] in ToDecimal(n);
  }

  function Zeroes(k: nat): (s: string)
    ensures |s| == k && forall i | 0 <= i < k :: s[i] == '0'
  {
    if k == 0 then "" else Zeroes(k - 1) + "0"
  }

  lemma DecimalSnoc(m: nat, last: char)
    requires IsDigit(last)
    ensures ToDecimal(m * 10 + DigitValue(last)) == (if m == 0 then "" else ToDecimal(m)) + [last]
  {
    var n := m * 10 + DigitValue(last);
    assert n / 10 == m && n % 10 == DigitValue(last);
    assert ('0' as nat + DigitValue(last)) as char == last;
  }

  lemma {:induction false} DigitsAreDecimal(s: string) returns (k: nat)
    requires s != "" && forall c | c in s :: IsDigit(c)
    ensures s == Zeroes(k) + ToDecimal(DigitsValue(s))
    decreases |s|
  {
    hide ToDecimal, Zeroes, IsDigit, DigitValue;
    var front, last := s[..|s| - 1], s[|s| - 1];
    assert s == front + [last];
    if front == "" {
      k := 0;
      OneDigit(last);
    } else {
      k := DigitsAreDecimal(front);
      SnocDecimal(front, k, DigitsValue(front), last);
      k := if DigitsValue(front) == 0 then k + 1 else k;
    }
  }

  lemma OneDigit(c: char)
    requires IsDigit(c)
    ensures [c] == Zeroes(0) + ToDecimal(DigitValue(c)) && DigitsValue([c]) == DigitValue(c)
  {
    DecimalSnoc(0, c);
    assert [c][..0] == "";
  }

  lemma SnocDecimal(front: string, k: nat, m: nat, last: char)
    requires front == Zeroes(k) + ToDecimal(m) && IsDigit(last)
    ensures front + [last] == Zeroes(if m == 0 then k + 1 else k) + ToDecimal(m * 10 + DigitValue(last))
  {
    DecimalSnoc(m, last);
    assert ToDecimal(0) == "0" && Zeroes(k + 1) == Zeroes(k) + "0";
    hide ToDecimal, DigitValue, IsDigit, Zeroes;
    AppendAssociates(Zeroes(k), ToDecimal(m), [last]);
  }

  lemma {:induction false} LeadingZeroes(k: nat, s: string)
    requires forall c | c in s :: IsDigit(c)
    ensures forall c | c in Zeroes(k) + s :: IsDigit(c)
    ensures DigitsValue(Zeroes(k) + s) == DigitsValue(s)
    decreases |s|, k
  {
    var t := Zeroes(k) + s;
    if s != "" {
      LeadingZeroes(k, s[..|s| - 1]);
      assert t[..|t| - 1] == Zeroes(k) + s[..|s| - 1];
    } else if k > 0 {
      LeadingZeroes(k - 1, "");
      assert Zeroes(k - 1) + "" == Zeroes(k - 1) && t == Zeroes(k);
      assert t[..k - 1] == Zeroes(k - 1);
    }
  }

  /** Is `s` the number `n` with `k` zeroes in front, and with a plus sign or without? */
  predicate IsWritten(s: string, n: nat, k: nat, plus: bool) {
    s == (if plus then "+" else "") + (Zeroes(k) + ToDecimal(n))
  }

  lemma ReadIsWritten(s: string) returns (k: nat)
    requires ParseU8(s).Some?
    ensures ParseU8(s).value <= 255 && IsWritten(s, ParseU8(s).value, k, s != "" && s[0] == '+')
  {
    var plus := s != "" && s[0] == '+';
    var digits := if plus then s[1..] else s;
    k := DigitsAreDecimal(digits);
    assert plus ==> s == "+" + digits;
  }

  lemma ReadsDigits(digits: string, plus: bool)
    requires digits != "" && (forall c | c in digits :: IsDigit(c)) && DigitsValue(digits) <= 255
    ensures ParseU8((if plus then "+" else "") + digits) == Some(DigitsValue(digits))
  {
    hide DigitsValue;
    assert IsDigit(digits[0]);
    var s := (if plus then "+" else "") + digits;
    assert if plus then s[1..] == digits else s == digits;
  }

  lemma WrittenIsRead(s: string, n: nat, k: nat, plus: bool)
    requires n <= 255 && IsWritten(s, n, k, plus)
    ensures ParseU8(s) == Some(n)
  {
    hide ToDecimal, Zeroes, DigitsValue, ParseU8, IsDigit;
    DecimalReads(n);
    LeadingZeroes(k, ToDecimal(n));
    ReadsDigits(Zeroes(k) + ToDecimal(n), plus);
  }

  /** A number is read from exactly these ways to write it, as long as it fits into a byte. */
  lemma ReadsExactly(s: string, n: nat)
    ensures ParseU8(s) == Some(n) <==> n <= 255 && exists k: nat, plus: bool :: IsWritten(s, n, k, plus)
  {
    hide ParseU8, IsWritten;
    if ParseU8(s) == Some(n) {
      var k := ReadIsWritten(s);
    }
    if k: nat, plus: bool :| n <= 255 && IsWritten(s, n, k, plus) {
      WrittenIsRead(s, n, k, plus);
    }
  }

  /** Numbers as they are printed. */
  lemma Decimals()
    ensures ToDecimal(0) == "0" && ToDecimal(9) == "9" && ToDecimal(10) == "10" && ToDecimal(15) == "15"
    ensures ToDecimal(255) == "255"
  {
    assert ToDecimal(25) == ToDecimal(2) + ['5'];
  }
}
