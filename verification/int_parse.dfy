/**
 * Decimal parsing of a 32-bit signed integer as Rust's `str::parse::<i32>()`
 * does it: an optional `+` or `-`, then one or more ASCII digits (leading
 * zeros allowed), and failure when the value lies outside [-2^31, 2^31 - 1].
 * The formatter `ShowInt` is its inverse on that range.
 */
module IntParse {
  import opened Wrappers

  const I32_MIN: int := -0x8000_0000
  const I32_MAX: int := 0x7FFF_FFFF

  /** Rust's `i32`. */
  type I32 = x: int | I32_MIN <= x <= I32_MAX

  predicate InI32(v: int) { I32_MIN <= v <= I32_MAX }

  predicate IsDigit(c: char) { '0' <= c <= '9' }

  predicate AllDigits(s: string) {
    forall i :: 0 <= i < |s| ==> IsDigit(s[i])
  }

  function DigitValue(c: char): (d: nat)
    requires IsDigit(c)
    ensures d < 10
  {
    (c as int) - ('0' as int)
  }

  function DigitChar(d: nat): (c: char)
    requires d < 10
    ensures IsDigit(c) && DigitValue(c) == d
  {
    ('0' as int + d) as char
  }

  /** The number a string of decimal digits denotes, most significant first. */
  function DigitsValue(s: string): nat
    requires AllDigits(s)
  {
    if s == [] then 0
    else DigitsValue(s[..|s| - 1]) * 10 + DigitValue(s[|s| - 1])
  }

  /**
   * `s.parse::<i32>()`: `None` stands for every `Err` Rust can return
   * (empty string, a lone sign, a non-digit, overflow in either direction).
   */
  function ParseI32(s: string): (r: Option<I32>)
    ensures s == [] || s == "+" || s == "-" ==> r == None
    ensures (exists i :: 0 < i < |s| && !IsDigit(s[i])) ==> r == None
    ensures s != [] && !IsDigit(s[0]) && s[0] != '+' && s[0] != '-' ==> r == None
    ensures r.Some? && s[0] == '-' ==> r.value <= 0
    ensures r.Some? && s[0] != '-' ==> r.value >= 0
  {
    if s == [] then None
    else
      var signed := s[0] == '+' || s[0] == '-';
      var digits := if signed then s[1..] else s;
      if digits == [] || !AllDigits(digits) then None
      else
        assert signed ==> forall i :: 0 < i < |s| ==> s[i] == digits[i - 1];
        var magnitude: int := DigitsValue(digits);
        var v: int := if s[0] == '-' then -magnitude else magnitude;
        if InI32(v) then Some(v) else None
  }

  /** Decimal digits of `n`, without leading zeros. */
  function ShowNat(n: nat): (s: string)
    ensures s != [] && AllDigits(s)
  {
    if n < 10 then [DigitChar(n)] else ShowNat(n / 10) + [DigitChar(n % 10)]
  }

  /** Decimal text of `n`, with a leading `-` when it is negative. */
  function ShowInt(n: int): (s: string)
    ensures s != [] && (s[0] == '-' || IsDigit(s[0]))
  {
    if n < 0 then "-" + ShowNat(-n) else ShowNat(n)
  }

  lemma {:induction false} ShowNatValue(n: nat)
    ensures DigitsValue(ShowNat(n)) == n
  {
    if n >= 10 {
      var s := ShowNat(n);
      assert s[..|s| - 1] == ShowNat(n / 10);
      ShowNatValue(n / 10);
    }
  }

  /**
   * Parsing undoes formatting on the whole `i32` range and fails with an
   * overflow just outside it: `ParseI32(ShowInt(n))` is `Some(n)` exactly
   * when `n` fits in 32 signed bits.
   */
  lemma ParseShowInt(n: int)
    ensures ParseI32(ShowInt(n)) == if InI32(n) then Some(n) else None
  {
    ShowNatValue(if n < 0 then -n else n);
    if n < 0 {
      assert ShowInt(n)[1..] == ShowNat(-n);
    }
  }

  /** The value `ParseI32` gives a sign followed by digits, when it is in range. */
  function SignedValue(sign: string, magnitude: nat): int {
    var m: int := magnitude;
    if sign == "-" then -m else m
  }

  /** A sign (or none) followed by one or more digits parses to their signed value, or overflows. */
  lemma ParseSignedDigits(sign: string, digits: string)
    requires sign == "" || sign == "+" || sign == "-"
    requires digits != [] && AllDigits(digits)
    ensures ParseI32(sign + digits)
            == var v := SignedValue(sign, DigitsValue(digits)); if InI32(v) then Some(v) else None
  {
    var s := sign + digits;
    if sign == "" {
      assert s == digits;
    } else {
      assert s[0] == sign[0] && s[1..] == digits;
    }
  }

  /**
   * Any sign, any number of leading zeros: the text parses to the signed
   * value when it fits in `i32` and fails with an overflow otherwise.
   */
  lemma ParseSignedPadded(sign: string, k: nat, n: nat)
    requires sign == "" || sign == "+" || sign == "-"
    ensures ParseI32(sign + Zeros(k) + ShowNat(n))
            == var v := SignedValue(sign, n); if InI32(v) then Some(v) else None
  {
    var digits := Zeros(k) + ShowNat(n);
    ZerosValue(k, ShowNat(n));
    ShowNatValue(n);
    assert DigitsValue(digits) == n;
    ParseSignedDigits(sign, digits);
    assert sign + Zeros(k) + ShowNat(n) == sign + digits;
  }

  /**
   * Every non-empty run of decimal digits is some leading zeros followed by
   * the canonical decimal text of a number, so `ParseSignedPadded` covers
   * every text `ParseI32` can accept.
   */
  lemma {:induction false} DigitsArePaddedDecimal(s: string)
    requires s != [] && AllDigits(s)
    ensures exists k: nat, n: nat :: s == Zeros(k) + ShowNat(n)
    decreases |s|
  {
    if s[0] == '0' && |s| > 1 {
      DigitsArePaddedDecimal(s[1..]);
      var k: nat, n: nat :| s[1..] == Zeros(k) + ShowNat(n);
      assert s == Zeros(k + 1) + ShowNat(n);
    } else {
      ShowNatCanonical(s);
      assert s == Zeros(0) + ShowNat(DigitsValue(s));
    }
  }

  /** Formatting the value of digits without a leading zero gives the digits back. */
  lemma {:induction false} ShowNatCanonical(s: string)
    requires s != [] && AllDigits(s) && (s[0] != '0' || |s| == 1)
    ensures ShowNat(DigitsValue(s)) == s
    decreases |s|
  {
    var c := s[|s| - 1];
    assert DigitChar(DigitValue(c)) == c;
    if |s| > 1 {
      var t := s[..|s| - 1];
      assert t[0] == s[0];
      ShowNatCanonical(t);
      var v := DigitsValue(s);
      assert ShowNat(0) == "0" && t != "0";
      assert v / 10 == DigitsValue(t) && v % 10 == DigitValue(c);
      assert s == t + [c];
    }
  }

  /** Examples: padded, and padded negative. */
  lemma ParsePaddedExamples()
    ensures ParseI32("007") == Some(7)
    ensures ParseI32("-05") == Some(-5)
  {
    ParseSignedPadded("", 2, 7);
    assert "" + Zeros(2) + ShowNat(7) == "007";
    ParseSignedPadded("-", 1, 5);
    assert "-" + Zeros(1) + ShowNat(5) == "-05";
  }

  function Zeros(k: nat): (s: string)
    ensures |s| == k && AllDigits(s)
  {
    if k == 0 then [] else "0" + Zeros(k - 1)
  }

  lemma {:induction false} ZerosValue(k: nat, s: string)
    requires AllDigits(s)
    ensures AllDigits(Zeros(k) + s) && DigitsValue(Zeros(k) + s) == DigitsValue(s)
    decreases k, |s|
  {
    if s == [] {
      assert Zeros(k) + s == Zeros(k);
      ZerosValueOnly(k);
    } else {
      var t := Zeros(k) + s;
      assert t[..|t| - 1] == Zeros(k) + s[..|s| - 1];
      ZerosValue(k, s[..|s| - 1]);
    }
  }

  lemma {:induction false} ZerosValueOnly(k: nat)
    ensures DigitsValue(Zeros(k)) == 0
  {
    if k > 0 {
      var z := Zeros(k);
      assert z[..k - 1] == Zeros(k - 1) by {
        ZerosAllZero(k);
        ZerosAllZero(k - 1);
      }
      ZerosValueOnly(k - 1);
      ZerosAllZero(k);
    }
  }

  lemma {:induction false} ZerosAllZero(k: nat)
    ensures forall i :: 0 <= i < k ==> Zeros(k)[i] == '0'
  {
    if k > 0 {
      ZerosAllZero(k - 1);
    }
  }
}
