/**
 The double exchanges the codec's own tests pin down. Each test's text is
 canonical, so it is written and read back unchanged; a grammatical but
 non-canonical text marks where the model stops following the source.
 */
module DoubleExamples {
  import opened Results
  import opened Bytes
  import opened Numbers
  import opened Frames
  import opened Encoder
  import opened Decoder
  import opened WireExamples
  import opened Rejections

  const PLUS_123_456: seq<Byte> := [43, 49, 50, 51, 46, 52, 53, 54]     // "+123.456"
  const MINUS_123_456: seq<Byte> := [45, 49, 50, 51, 46, 52, 53, 54]    // "-123.456"
  const PLUS_123_45: seq<Byte> := [43, 49, 50, 51, 46, 52, 53]          // "+123.45"
  const PLUS_1_23456_E8: seq<Byte> := [43, 49, 46, 50, 51, 52, 53, 54, 101, 56]   // "+1.23456e8"
  const MINUS_1_23456_E8: seq<Byte> := [45, 49, 46, 50, 51, 52, 53, 54, 101, 56]  // "-1.23456e8"
  const PLUS_123_45_X: seq<Byte> := [43, 49, 50, 51, 46, 52, 53, 120]   // "+123.45x"
  const ONE_POINT_ZERO: seq<Byte> := [49, 46, 48]                       // "1.0"

  lemma DigitRunOf123(rest: seq<Byte>)
    requires rest == [] || !IsDigit(rest[0])
    ensures DigitRun([49, 50, 51] + rest) == 3
  {
    DigitRunOfDigits([49, 50, 51], rest);
  }

  /** `123.456` and `123.45` are plain magnitudes below 1e8. */
  lemma PlainTexts()
    ensures IsCanonicalDouble(PLUS_123_456) && IsCanonicalDouble(MINUS_123_456)
    ensures IsCanonicalDouble(PLUS_123_45)
  {
    DigitRunOf123([46, 52, 53, 54]);
    assert PLUS_123_456[1..] == MINUS_123_456[1..] == [49, 50, 51] + [46, 52, 53, 54];
    DigitRunOf123([46, 52, 53]);
    assert PLUS_123_45[1..] == [49, 50, 51] + [46, 52, 53];
  }

  /** `1.23456e8` is a scientific magnitude above 1e8. */
  lemma ScientificTexts()
    ensures IsCanonicalDouble(PLUS_1_23456_E8) && IsCanonicalDouble(MINUS_1_23456_E8)
  {
    var u: seq<Byte> := [49, 46, 50, 51, 52, 53, 54, 101, 56];
    ScientificMagnitude();
    assert PLUS_1_23456_E8[1..] == MINUS_1_23456_E8[1..] == u;
  }

  lemma ScientificMagnitude()
    ensures IsScientificMagnitude([49, 46, 50, 51, 52, 53, 54, 101, 56])
  {
    var u: seq<Byte> := [49, 46, 50, 51, 52, 53, 54, 101, 56];
    assert DigitRun(u[2..]) == 5 by {
      DigitRunOfDigits([50, 51, 52, 53, 54], [101, 56]);
      assert u[2..] == [50, 51, 52, 53, 54] + [101, 56];
    }
    assert IsTrimmedFraction(u[2..7], DOUBLE_DIGITS - 1) by {
      assert u[2..7] == [50, 51, 52, 53, 54];
    }
    assert IsExponentDigits(u[8..], true) by {
      assert u[8..] == [56];
      assert DigitsValue([56]) == 8 by { assert [56][..0] == []; }
    }
    hide IsTrimmedFraction, IsExponentDigits, DigitRun;
    assert u[7] == LOWER_E;
  }

  /** A canonical text is written between `,` and CRLF and decodes back to itself. */
  lemma CanonicalExchange(t: seq<Byte>)
    requires IsCanonicalDouble(t)
    ensures Encode(Double(t)) == [44] + t + CRLF
    ensures Decode(Encode(Double(t))) == Ok((Double(t), []))
  {
    hide IsCanonicalDouble;
    Exchange(Double(t));
  }

  /** The encode test: each of its four values is written in canonical form and decodes back to itself. */
  lemma DoubleEncode()
    ensures Encode(Double(PLUS_123_456)) == [44] + PLUS_123_456 + CRLF
    ensures Encode(Double(MINUS_1_23456_E8)) == [44] + MINUS_1_23456_E8 + CRLF
    ensures Decode(Encode(Double(PLUS_123_456))) == Ok((Double(PLUS_123_456), []))
    ensures Decode(Encode(Double(MINUS_123_456))) == Ok((Double(MINUS_123_456), []))
    ensures Decode(Encode(Double(PLUS_1_23456_E8))) == Ok((Double(PLUS_1_23456_E8), []))
    ensures Decode(Encode(Double(MINUS_1_23456_E8))) == Ok((Double(MINUS_1_23456_E8), []))
  {
    PlainTexts();
    ScientificTexts();
    hide IsCanonicalDouble, Encode, Decode;
    CanonicalExchange(PLUS_123_456);
    CanonicalExchange(MINUS_123_456);
    CanonicalExchange(PLUS_1_23456_E8);
    CanonicalExchange(MINUS_1_23456_E8);
  }

  /** The decode test: `,+123.45\r\n` reads as the double `+123.45`. */
  lemma DoubleDecode()
    ensures Decode([44] + PLUS_123_45 + CRLF) == Ok((Double(PLUS_123_45), []))
  {
    PlainTexts();
    Exchange(Double(PLUS_123_45));
  }

  /** `+123.45x` leaves the grammar at the `x`, where an exponent would have to start. */
  lemma NotDoubleX()
    ensures !IsDoubleText(PLUS_123_45_X)
  {
    var x := PLUS_123_45_X;
    assert SignLength(x) == 1;
    assert DigitRun(x[1..]) == 3 by {
      DigitRunOf123([46, 52, 53, 120]);
      assert x[1..] == [49, 50, 51] + [46, 52, 53, 120];
    }
    var u := x[4..];
    assert u == [46, 52, 53, 120];
    assert DigitRun(u[1..]) == 2 by {
      DigitRunOfDigits([52, 53], [120]);
      assert u[1..] == [52, 53] + [120];
    }
    assert u[3..] == [120];
    assert !IsExponent(u[3..]);
    hide DigitRun, IsExponent;
    assert !IsFractionAndExponent(u);
  }

  lemma XLine()
    ensures IsText(PLUS_123_45_X)
    ensures [44] + PLUS_123_45_X + CRLF == Line(PREFIX_DOUBLE, PLUS_123_45_X) + []
  {
    var x := PLUS_123_45_X;
    assert forall i :: 0 <= i < |x| ==> 32 <= x[i] < 127;
    PrintableIsText(x);
  }

  /** The decode test: `,+123.45x\r\n` is not a double. */
  lemma DoubleX()
    ensures Decode([44] + PLUS_123_45_X + CRLF) == Err(Invalid("not a double"))
  {
    NotDoubleX();
    XLine();
    hide IsDoubleText, Decode, IsText, Line;
    DoubleRejects(PLUS_123_45_X, []);
  }

  /**
   `1.0` is in the documented grammar but is not canonical: the model
   decodes it to its own text, where the source renders the parsed value
   as `+1`. No round trip is claimed for it.
   */
  lemma NonCanonicalOne()
    ensures IsDoubleText(ONE_POINT_ZERO) && !IsCanonicalDouble(ONE_POINT_ZERO)
    ensures Decode([44] + ONE_POINT_ZERO + CRLF) == Ok((Double(ONE_POINT_ZERO), []))
  {
    var t := ONE_POINT_ZERO;
    DigitRunOfDigits([49], [46, 48]);
    assert t == [49] + [46, 48];
    assert DigitRun([48]) == 1 by { DigitRunOfDigits([48], []); assert [48] + [] == [48]; }
    assert t[2..] == [48];
    assert IsDoubleText(t);
    PrintableIsText(t);
    assert [44] + t + CRLF == Line(PREFIX_DOUBLE, t) + [];
    LineRead(PREFIX_DOUBLE, t, []);
  }
}
