/**
 What the decoder refuses. A one-line frame whose payload is not what its
 variant admits is invalid; a sized frame whose header declares a length
 other than the bytes between its two CRLFs has an invalid frame length.
 The last group shows the consequence for the bulk encoder as written,
 which declares the raw length but writes the lossily converted bytes.
 */
module Rejections {
  import opened Results
  import opened Bytes
  import opened Numbers
  import opened Utf8
  import opened Frames
  import opened Encoder
  import opened Scanner
  import opened Framing
  import opened Decoder
  import opened RoundTrip

  /** A written line's reader result, and its dispatch by the first byte. */
  lemma LineRead(p: Byte, t: seq<Byte>, rest: seq<Byte>)
    requires IsPrefixByte(p) && IsText(t)
    ensures ReadLine(Line(p, t) + rest, p) == Ok((t, rest))
    ensures (Line(p, t) + rest)[0] == p
  {
    ReadTextOfLine(p, t, rest);
  }

  /** A line that is not a signed 64-bit decimal is not an integer. */
  lemma IntegerRejects(t: seq<Byte>, rest: seq<Byte>)
    requires IsText(t) && ParseI64(t).None?
    ensures Decode(Line(PREFIX_INTEGER, t) + rest) == Err(Invalid("not an integer"))
  {
    LineRead(PREFIX_INTEGER, t, rest);
    DecodeDispatch(Line(PREFIX_INTEGER, t) + rest);
  }

  /** A line other than `t` and `f` is not a boolean. */
  lemma BooleanRejects(t: seq<Byte>, rest: seq<Byte>)
    requires IsText(t) && t != TRUE_TEXT && t != FALSE_TEXT
    ensures Decode(Line(PREFIX_BOOLEAN, t) + rest) == Err(Invalid("not a boolean"))
  {
    LineRead(PREFIX_BOOLEAN, t, rest);
    DecodeDispatch(Line(PREFIX_BOOLEAN, t) + rest);
  }

  /** A null with a payload is invalid. */
  lemma NullRejects(t: seq<Byte>, rest: seq<Byte>)
    requires IsText(t) && t != []
    ensures Decode(Line(PREFIX_NULL, t) + rest) == Err(Invalid("unexpected payload"))
  {
    LineRead(PREFIX_NULL, t, rest);
    DecodeDispatch(Line(PREFIX_NULL, t) + rest);
  }

  /** A line that is not a decimal floating-point literal is not a double. */
  lemma DoubleRejects(t: seq<Byte>, rest: seq<Byte>)
    requires IsText(t) && !IsDoubleText(t)
    ensures Decode(Line(PREFIX_DOUBLE, t) + rest) == Err(Invalid("not a double"))
  {
    LineRead(PREFIX_DOUBLE, t, rest);
    DecodeDispatch(Line(PREFIX_DOUBLE, t) + rest);
  }

  /** The null reader accepts exactly the line `-1` and finds any other line invalid. */
  lemma NullReaderDecides(p: Byte, t: seq<Byte>, rest: seq<Byte>)
    requires IsPrefixByte(p) && IsText(t)
    ensures t == NULL_LENGTH ==> ReadFixed(Line(p, t) + rest, p, NULL_LENGTH) == Ok(rest)
    ensures t != NULL_LENGTH ==> ReadFixed(Line(p, t) + rest, p, NULL_LENGTH) == Err(Invalid("unexpected payload"))
  {
    LineRead(p, t, rest);
  }

  /** Where the header, the payload and the two CRLFs sit in a sized frame declaring `n` bytes. */
  lemma DeclaredParts(p: Byte, n: nat, d: seq<Byte>, rest: seq<Byte>)
    ensures var buf := Line(p, Decimal(n)) + d + CRLF + rest; var h := [p] + Decimal(n);
      && |Line(p, Decimal(n)) + d + CRLF| == |h| + |d| + 4
      && buf[..|h|] == h && IsCrlfAt(buf, |h|)
      && buf[|h| + 2..|h| + 2 + |d|] == d && IsCrlfAt(buf, |h| + 2 + |d|)
      && buf[..|h| + |d| + 4] == Line(p, Decimal(n)) + d + CRLF
      && buf[|h| + |d| + 4..] == rest
  {
    var h := [p] + Decimal(n);
    var buf := Line(p, Decimal(n)) + d + CRLF + rest;
    assert buf == h + CRLF + d + CRLF + rest;
  }

  /** The first CRLF of such a frame ends its header, the second ends its payload. */
  lemma DeclaredCrlfs(p: Byte, n: nat, d: seq<Byte>, rest: seq<Byte>)
    requires IsPrefixByte(p) && !HasCrlf(d)
    ensures var buf := Line(p, Decimal(n)) + d + CRLF + rest; var e := |Decimal(n)| + 1;
      FindCrlf(buf, 1) == Some(e) && FindCrlf(buf, 2) == Some(e + 2 + |d|)
  {
    hide Line, Decimal, FindCrlf, FindCrlfFrom, CountCrlf, HasCrlf, IsCrlfAt;
    var D := Decimal(n);
    var h := [p] + D;
    var buf := Line(p, D) + d + CRLF + rest;
    DeclaredParts(p, n, d, rest);
    DigitsAreText(D);
    NoCrlfCons(p, D);
    FindCrlfIsScan(buf, 1);
    FindCrlfIsScan(buf, 2);
    CrlfAfterBlock(buf, 0, h, 2);
    CrlfAfterBlock(buf, 0, h, 1);
    CrlfAfterBlock(buf, |h| + 2, d, 1);
  }

  /**
   The length check of a sized frame: it passes exactly when the declared
   length is the number of payload bytes, and fails with an invalid frame
   length otherwise.
   */
  lemma DeclaredLength(p: Byte, n: nat, d: seq<Byte>)
    requires IsPrefixByte(p) && !HasCrlf(d) && n <= USIZE_MAX
    ensures n == |d| ==> ParseLength(Line(p, Decimal(n)) + d + CRLF) == Ok((|Decimal(n)| + 1, n))
    ensures n != |d| ==> ParseLength(Line(p, Decimal(n)) + d + CRLF) == Err(InvalidFrameLength)
  {
    hide Line, FindCrlf, FindCrlfFrom, CountCrlf, Lossy, Decimal, ParseUsize, HasCrlf;
    var D := Decimal(n);
    var w := Line(p, D) + d + CRLF;
    DeclaredCrlfs(p, n, d, []);
    DeclaredParts(p, n, d, []);
    assert w + [] == w;
    assert w[1..|D| + 1] == w[..|D| + 1][1..];
    DigitsAreText(D);
    ParseDecimal(n);
  }

  /**
   A sized frame is read back exactly when its declared length matches its
   payload; otherwise its length is invalid, whatever follows it.
   */
  lemma DeclaredLengthDecides(p: Byte, n: nat, d: seq<Byte>, rest: seq<Byte>)
    requires IsPrefixByte(p) && !HasCrlf(d) && n <= USIZE_MAX
    ensures n == |d| ==> ReadSized(Line(p, Decimal(n)) + d + CRLF + rest, p) == Ok((d, rest))
    ensures n != |d| ==> ReadSized(Line(p, Decimal(n)) + d + CRLF + rest, p) == Err(InvalidFrameLength)
  {
    hide Line, ParseLength, FindCrlf, FindCrlfFrom, CountCrlf, Lossy, Decimal, ParseUsize, HasCrlf;
    var D := Decimal(n);
    var h := [p] + D;
    var w := Line(p, D) + d + CRLF;
    var buf := w + rest;
    DeclaredParts(p, n, d, rest);
    DeclaredCrlfs(p, n, d, rest);
    DeclaredLength(p, n, d);
    assert buf[0] == p by { assert buf[0] == buf[..|h|][0]; }
    assert SizedLength(buf) == Ok(|w|);
    if n == |d| {
      ReadSizedAt(buf, p, |w|, |D| + 1, n);
    }
  }

  /** A bulk error whose header misdeclares its length is rejected. */
  lemma BulkErrorLengthMismatch(n: nat, d: seq<Byte>, rest: seq<Byte>)
    requires !HasCrlf(d) && n <= USIZE_MAX && n != |d|
    ensures Decode(Line(PREFIX_BULK_ERROR, Decimal(n)) + d + CRLF + rest) == Err(InvalidFrameLength)
  {
    hide Line, Decimal, ReadSized, ReadLine, FindCrlf, HasCrlf, Lossy, ParseUsize;
    var buf := Line(PREFIX_BULK_ERROR, Decimal(n)) + d + CRLF + rest;
    DeclaredLengthDecides(PREFIX_BULK_ERROR, n, d, rest);
    DeclaredParts(PREFIX_BULK_ERROR, n, d, rest);
    DecodeDispatch(buf);
  }

  /** A bulk string whose header misdeclares its length is rejected; it is not taken for the null. */
  lemma BulkStringLengthMismatch(n: nat, d: seq<Byte>, rest: seq<Byte>)
    requires !HasCrlf(d) && n <= USIZE_MAX && n != |d|
    ensures Decode(Line(PREFIX_BULK_STRING, Decimal(n)) + d + CRLF + rest) == Err(InvalidFrameLength)
  {
    hide Line, Decimal, ReadSized, ReadFixed, ReadLine, FindCrlf, HasCrlf, Lossy, ParseUsize;
    var buf := Line(PREFIX_BULK_STRING, Decimal(n)) + d + CRLF + rest;
    DeclaredLengthDecides(PREFIX_BULK_STRING, n, d, rest);
    DeclaredParts(PREFIX_BULK_STRING, n, d, rest);
    assert buf == Line(PREFIX_BULK_STRING, Decimal(n)) + (d + CRLF + rest);
    HeaderIsNotNull(PREFIX_BULK_STRING, n, d + CRLF + rest);
    DecodeDispatch(buf);
  }

  /**
   The bulk encoder as written declares the raw payload length but writes
   the lossily converted payload; when the conversion changes the length,
   what it writes cannot be decoded.
   */
  lemma AsWrittenRejected(d: seq<Byte>, rest: seq<Byte>)
    requires !HasCrlf(Lossy(d)) && |d| <= USIZE_MAX && |Lossy(d)| != |d|
    ensures Decode(SizedAsWritten(PREFIX_BULK_STRING, d) + rest) == Err(InvalidFrameLength)
  {
    BulkStringLengthMismatch(|d|, Lossy(d), rest);
  }

  /** The single byte 0xFF is written as a one-byte header over a three-byte replacement character. */
  lemma AsWrittenLosesFF()
    ensures Decode(SizedAsWritten(PREFIX_BULK_STRING, [0xFF])) == Err(InvalidFrameLength)
    ensures Decode(Encode(BulkString([0xFF]))) == Ok((BulkString([0xFF]), []))
  {
    LossyOfFF();
    assert !HasCrlf(REPLACEMENT);
    AsWrittenRejected([0xFF], []);
    assert SizedAsWritten(PREFIX_BULK_STRING, [0xFF]) + [] == SizedAsWritten(PREFIX_BULK_STRING, [0xFF]);
    assert Encodable(BulkString([0xFF])) by { assert !HasCrlf([0xFF]); }
    assert Encode(BulkString([0xFF])) + [] == Encode(BulkString([0xFF]));
    DecodeOfEncode(BulkString([0xFF]), []);
  }
}
