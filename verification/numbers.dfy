/**
 Decimal rendering and parsing of the integers that appear on the wire:
 length and count headers (`usize`) and integer payloads (`i64`).
 */
module Numbers {
  import opened Results
  import opened Bytes

  const I64_MIN: int := -0x8000_0000_0000_0000
  const I64_MAX: int := 0x7FFF_FFFF_FFFF_FFFF
  const USIZE_MAX: int := 0xFFFF_FFFF_FFFF_FFFF

  /** The values of Rust's `i64`. */
  type I64 = x: int | -0x8000_0000_0000_0000 <= x <= 0x7FFF_FFFF_FFFF_FFFF

  const PLUS: Byte := 43
  const MINUS: Byte := 45
  const ZERO: Byte := 48

  predicate IsDigit(b: Byte) {
    ZERO <= b <= ZERO + 9
  }

  predicate AllDigits(s: seq<Byte>) {
    forall i :: 0 <= i < |s| ==> IsDigit(s[i])
  }

  /** The value of a string of decimal digits, most significant first. */
  function DigitsValue(s: seq<Byte>): nat
    requires AllDigits(s)
  {
    if s == [] then 0 else DigitsValue(s[..|s| - 1]) * 10 + (s[|s| - 1] - ZERO)
  }

  /** Decimal rendering of a natural number, as Rust's `{}` formats a `usize`. */
  function Decimal(n: nat): (r: seq<Byte>)
    ensures |r| >= 1 && AllDigits(r)
    ensures DigitsValue(r) == n
  {
    if n < 10 then [ZERO + n]
    else
      var r := Decimal(n / 10) + [ZERO + n % 10];
      assert r[..|r| - 1] == Decimal(n / 10);
      r
  }

  /**
   `str::parse::<usize>`: an optional '+', then one or more ASCII digits
   whose value fits in 64 bits.
   */
  function ParseUsize(s: seq<Byte>): (r: Option<nat>)
    ensures r.Some? ==> r.value <= USIZE_MAX
    ensures |s| > 0 && s[0] == MINUS ==> r.None?
  {
    var digits := if |s| > 0 && s[0] == PLUS then s[1..] else s;
    if |digits| == 0 || !AllDigits(digits) then None
    else if DigitsValue(digits) > USIZE_MAX then None
    else Some(DigitsValue(digits))
  }

  /**
   `str::parse::<i64>`: an optional '+' or '-', then one or more ASCII
   digits whose signed value fits in 64 bits.
   */
  function ParseI64(s: seq<Byte>): (r: Option<I64>)
    ensures r.Some? ==> |s| > 0 && (r.value < 0 ==> s[0] == MINUS)
  {
    if |s| == 0 then None
    else if s[0] == MINUS then
      var digits := s[1..];
      if |digits| == 0 || !AllDigits(digits) || DigitsValue(digits) > -I64_MIN then None
      else var v: I64 := 0 - DigitsValue(digits) as int; Some(v)
    else
      var digits := if s[0] == PLUS then s[1..] else s;
      if |digits| == 0 || !AllDigits(digits) || DigitsValue(digits) > I64_MAX then None
      else Some(DigitsValue(digits))
  }

  /**
   The integer payload the encoder writes: an explicit '+' before a
   non-negative value, the '-' of the rendering otherwise.
   */
  function IntegerText(i: int): seq<Byte> {
    if i < 0 then [MINUS] + Decimal(-i) else [PLUS] + Decimal(i)
  }

  /** A rendered header parses back to its value. */
  lemma ParseDecimal(n: nat)
    requires n <= USIZE_MAX
    ensures ParseUsize(Decimal(n)) == Some(n)
  {
  }

  /** Every `i64` survives rendering with its sign and parsing back. */
  lemma ParseIntegerText(i: I64)
    ensures ParseI64(IntegerText(i)) == Some(i)
  {
    var t := IntegerText(i);
    if i < 0 {
      assert t[1..] == Decimal(-(i as int));
    } else {
      assert t[1..] == Decimal(i);
    }
  }

  /** Digit strings carry no CRLF and are plain ASCII. */
  lemma DigitsAreInert(s: seq<Byte>)
    requires AllDigits(s)
    ensures !HasCrlf(s) && IsAscii(s)
  {
  }

  /** The integer payload carries no CRLF, is plain ASCII and starts with a sign. */
  lemma IntegerTextIsInert(i: int)
    ensures !HasCrlf(IntegerText(i)) && IsAscii(IntegerText(i))
    ensures |IntegerText(i)| >= 2
  {
    var t := IntegerText(i);
    var d := if i < 0 then Decimal(-i) else Decimal(i);
    assert t[1..] == d;
    forall k | 0 <= k < |t| ensures t[k] < 128 && t[k] != CR {
      if k > 0 { assert t[k] == d[k - 1]; }
    }
  }

  const DOT: Byte := 46
  const LOWER_E: Byte := 101
  const UPPER_E: Byte := 69

  /** Length of the run of digits that starts `s`. */
  function DigitRun(s: seq<Byte>): (n: nat)
    ensures n <= |s| && AllDigits(s[..n])
    ensures n < |s| ==> !IsDigit(s[n])
  {
    if s == [] || !IsDigit(s[0]) then 0
    else
      var n := 1 + DigitRun(s[1..]);
      assert s[..n] == [s[0]] + s[1..][..n - 1];
      n
  }

  /** Length of an optional leading sign. */
  function SignLength(s: seq<Byte>): (n: nat)
    ensures n <= 1 && n <= |s|
  {
    if |s| > 0 && (s[0] == PLUS || s[0] == MINUS) then 1 else 0
  }

  /**
   The double payload grammar `[+|-]<integral>[.<fractional>][<E|e>[sign]<exponent>]`,
   each digit part non-empty.
   */
  predicate IsDoubleText(s: seq<Byte>) {
    var a := SignLength(s);
    var ip := DigitRun(s[a..]);
    ip > 0 && IsFractionAndExponent(s[a + ip..])
  }

  predicate IsFractionAndExponent(s: seq<Byte>) {
    if |s| > 0 && s[0] == DOT then
      var fp := DigitRun(s[1..]);
      fp > 0 && IsExponent(s[1 + fp..])
    else IsExponent(s)
  }

  predicate IsExponent(s: seq<Byte>) {
    s == [] ||
    ((s[0] == LOWER_E || s[0] == UPPER_E) &&
     var b := SignLength(s[1..]);
     var ep := DigitRun(s[1 + b..]);
     ep > 0 && 1 + b + ep == |s|)
  }

  /** The bytes a double payload is made of. */
  predicate IsDoubleByte(b: Byte) {
    IsDigit(b) || b == PLUS || b == MINUS || b == DOT || b == LOWER_E || b == UPPER_E
  }

  lemma DigitsThenRest(s: seq<Byte>, n: nat)
    requires n <= |s| && AllDigits(s[..n])
    requires forall i :: 0 <= i < |s| - n ==> IsDoubleByte(s[n..][i])
    ensures forall i :: 0 <= i < |s| ==> IsDoubleByte(s[i])
  {
    forall i | 0 <= i < |s| ensures IsDoubleByte(s[i]) {
      if i < n { assert s[i] == s[..n][i]; } else { assert s[i] == s[n..][i - n]; }
    }
  }

  lemma ExponentBytes(s: seq<Byte>)
    requires IsExponent(s)
    ensures forall i :: 0 <= i < |s| ==> IsDoubleByte(s[i])
  {
    if s != [] {
      var b := SignLength(s[1..]);
      var ep := DigitRun(s[1 + b..]);
      assert s[1 + b..][..ep] == s[1 + b..];
      forall i | 0 <= i < |s| ensures IsDoubleByte(s[i]) {
        if i > b { assert s[i] == s[1 + b..][i - 1 - b]; }
      }
    }
  }

  lemma FractionBytes(u: seq<Byte>)
    requires IsFractionAndExponent(u)
    ensures forall i :: 0 <= i < |u| ==> IsDoubleByte(u[i])
  {
    if |u| > 0 && u[0] == DOT {
      var fp := DigitRun(u[1..]);
      ExponentBytes(u[1 + fp..]);
      DigitsThenRest(u[1..], fp);
      forall i | 0 <= i < |u| ensures IsDoubleByte(u[i]) {
        if i > 0 { assert u[i] == u[1..][i - 1]; }
      }
    } else {
      ExponentBytes(u);
    }
  }

  lemma DoubleBytesAreInert(s: seq<Byte>)
    requires forall i :: 0 <= i < |s| ==> IsDoubleByte(s[i])
    ensures !HasCrlf(s) && IsAscii(s)
  {
  }

  lemma SignThenRest(s: seq<Byte>)
    requires forall i :: 0 <= i < |s| - SignLength(s) ==> IsDoubleByte(s[SignLength(s)..][i])
    ensures forall i :: 0 <= i < |s| ==> IsDoubleByte(s[i])
  {
    var a := SignLength(s);
    forall i | 0 <= i < |s| ensures IsDoubleByte(s[i]) {
      if i >= a { assert s[i] == s[a..][i - a]; }
    }
  }

  /** A double payload is plain ASCII and carries no CRLF. */
  lemma DoubleTextIsInert(s: seq<Byte>)
    requires IsDoubleText(s)
    ensures !HasCrlf(s) && IsAscii(s)
  {
    hide IsExponent, IsFractionAndExponent, HasCrlf, IsAscii, IsDoubleByte, DigitRun;
    var t := s[SignLength(s)..];
    var ip := DigitRun(t);
    FractionBytes(t[ip..]);
    DigitsThenRest(t, ip);
    SignThenRest(s);
    DoubleBytesAreInert(s);
  }

  /** The most significant digits a double text may carry and still be read back unchanged. */
  const DOUBLE_DIGITS: nat := 15

  /**
   The texts `RespDouble::new` writes that read back unchanged: a sign,
   then either the plain `{:+}` form of a magnitude up to 1e8 or the
   `{:+e}` form of a magnitude above it, with no redundant zero and at most
   `DOUBLE_DIGITS` significant digits, so that the parse to `f64` and the
   shortest rendering of the result give the same digits back.
   */
  predicate IsCanonicalDouble(t: seq<Byte>) {
    |t| >= 2 && (t[0] == PLUS || t[0] == MINUS) &&
    (IsPlainMagnitude(t[1..]) || IsScientificMagnitude(t[1..]))
  }

  /** Fraction digits that end in a non-zero digit, at most `room` of them. */
  predicate IsTrimmedFraction(f: seq<Byte>, room: int) {
    0 < |f| <= room && AllDigits(f) && f[|f| - 1] != ZERO
  }

  /** `{:+}` below 1e8: integral digits without a leading zero, then an optional fraction. */
  predicate IsPlainMagnitude(u: seq<Byte>) {
    var ip := DigitRun(u);
    0 < ip <= 8 && (u[0] != ZERO || ip == 1) &&
    (ip == |u| || (u[ip] == DOT && IsTrimmedFraction(u[ip + 1..], DOUBLE_DIGITS - ip)))
  }

  /** `{:+e}` above 1e8: one non-zero digit, an optional fraction, `e` and the exponent. */
  predicate IsScientificMagnitude(u: seq<Byte>) {
    |u| >= 3 && IsDigit(u[0]) && u[0] != ZERO &&
    var k := if u[1] == DOT then 2 + DigitRun(u[2..]) else 1;
    k < |u| && (k > 1 ==> IsTrimmedFraction(u[2..k], DOUBLE_DIGITS - 1)) &&
    u[k] == LOWER_E && IsExponentDigits(u[k + 1..], k > 1)
  }

  /**
   The exponent of a magnitude above 1e8: no sign, no leading zero, at
   least 8 (and above 8 unless the mantissa has a fraction) and at most 300,
   far from the overflow to infinity.
   */
  predicate IsExponentDigits(e: seq<Byte>, fraction: bool) {
    0 < |e| <= 3 && AllDigits(e) && e[0] != ZERO &&
    (if fraction then 8 else 9) <= DigitsValue(e) <= 300
  }

  /** A run of digits is measured in full. */
  lemma DigitRunOfDigits(s: seq<Byte>, rest: seq<Byte>)
    requires AllDigits(s) && (rest == [] || !IsDigit(rest[0]))
    ensures DigitRun(s + rest) == |s|
  {
    if s != [] {
      assert (s + rest)[1..] == s[1..] + rest;
      DigitRunOfDigits(s[1..], rest);
    }
  }

  /** A plain magnitude is integral digits and an optional fraction, with no exponent. */
  lemma PlainIsGrammar(u: seq<Byte>)
    requires IsPlainMagnitude(u)
    ensures DigitRun(u) > 0 && IsFractionAndExponent(u[DigitRun(u)..])
  {
    var ip := DigitRun(u);
    if ip < |u| {
      var f := u[ip + 1..];
      assert AllDigits(f);
      DigitRunOfDigits(f, []);
      assert f + [] == f;
      var x := u[ip..];
      assert x[0] == DOT && x[1..] == f;
      assert x[1 + DigitRun(f)..] == [];
    } else {
      assert u[ip..] == [];
    }
  }

  /** The exponent part of a scientific magnitude: `e` and its digits. */
  lemma ExponentIsGrammar(x: seq<Byte>, fraction: bool)
    requires |x| > 0 && x[0] == LOWER_E && IsExponentDigits(x[1..], fraction)
    ensures IsExponent(x)
  {
    var e := x[1..];
    DigitRunOfDigits(e, []);
    assert e + [] == e;
    assert SignLength(e) == 0;
    assert x[1 + 0..] == e;
  }

  /** A scientific magnitude is one digit, an optional fraction and an exponent. */
  lemma ScientificIsGrammar(u: seq<Byte>)
    requires IsScientificMagnitude(u)
    ensures DigitRun(u) > 0 && IsFractionAndExponent(u[DigitRun(u)..])
  {
    var k := if u[1] == DOT then 2 + DigitRun(u[2..]) else 1;
    var x := u[k..];
    ExponentIsGrammar(x, k > 1);
    assert DigitRun(u) == 1 by {
      assert u[1..][0] == u[1] && !IsDigit(u[1]);
    }
    var v := u[1..];
    hide IsExponent, IsExponentDigits, IsTrimmedFraction;
    if u[1] == DOT {
      assert v[0] == DOT && v[1..] == u[2..];
      assert v[1 + DigitRun(u[2..])..] == x;
    } else {
      assert v == x;
    }
  }

  /** Every canonical text is in the documented double grammar. */
  lemma CanonicalIsDoubleText(t: seq<Byte>)
    requires IsCanonicalDouble(t)
    ensures IsDoubleText(t)
  {
    var u := t[1..];
    assert t[SignLength(t)..] == u;
    if IsPlainMagnitude(u) {
      PlainIsGrammar(u);
    } else {
      ScientificIsGrammar(u);
    }
  }
}
