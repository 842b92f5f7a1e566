/**
 The literal exchanges the codec's own tests pin down, stated on the wire
 bytes and derived from the general laws.
 */
module WireExamples {
  import opened Results
  import opened Bytes
  import opened Numbers
  import opened Utf8
  import opened Frames
  import opened Encoder
  import opened Framing
  import opened Scanner
  import opened Decoder
  import opened Sizing
  import opened RoundTrip
  import opened Prefixes
  import opened Rejections

  /** A frame's encoding with nothing after it decodes back to the frame and sizes to its own length. */
  lemma Exchange(f: Frame)
    requires Encodable(f)
    ensures Decode(Encode(f)) == Ok((f, []))
    ensures ExpectLength(Encode(f)) == Ok(|Encode(f)|)
  {
    assert Encode(f) + [] == Encode(f);
    DecodeOfEncode(f, []);
    ExpectLengthOfEncode(f, []);
  }

  lemma AsciiText(t: seq<Byte>)
    requires IsAscii(t) && !HasCrlf(t)
    ensures IsText(t) && ValidUtf8(t)
  {
    AsciiIsText(t);
  }

  /** `+OK\r\n` is the simple string "OK", both ways. */
  lemma SimpleStringOk()
    ensures Encode(SimpleString(Ascii("OK"))) == Ascii("+OK\r\n")
    ensures Decode(Ascii("+OK\r\n")) == Ok((SimpleString(Ascii("OK")), []))
  {
    hide Encode, Decode, Ascii;
    OkBytes();
    Exchange(SimpleString(Ascii("OK")));
  }

  lemma OkBytes()
    ensures Encode(SimpleString(Ascii("OK"))) == Ascii("+OK\r\n")
    ensures Encodable(SimpleString(Ascii("OK")))
  {
    AsciiText(Ascii("OK"));
    LineOf(SimpleString(Ascii("OK")));
    hide Encode;
  }

  /** `+OK\r` lacks its line feed and is incomplete. */
  lemma SimpleStringCut()
    ensures Decode(Ascii("+OK\r")) == Err(Incomplete)
  {
    AsciiText(Ascii("OK"));
    PrefixIncomplete(SimpleString(Ascii("OK")), Ascii("+OK\r"));
  }

  lemma IntegerPlusBytes()
    ensures Ascii(":+123\r\n") == [58, 43, 49, 50, 51, 13, 10]
    ensures Encode(Integer(123)) == [58, 43, 49, 50, 51, 13, 10]
  {
    assert Decimal(123) == [49, 50, 51] by {
      assert Decimal(1) == [49];
      assert Decimal(12) == [49, 50];
    }
    hide Decimal;
    assert IntegerText(123) == [43, 49, 50, 51];
  }

  /** `:+123\r\n` is the integer 123, written with an explicit plus sign. */
  lemma IntegerPlus()
    ensures Encode(Integer(123)) == Ascii(":+123\r\n")
    ensures Decode(Ascii(":+123\r\n")) == Ok((Integer(123), []))
  {
    hide Encode, Decode, Ascii;
    IntegerPlusBytes();
    Exchange(Integer(123));
  }

  lemma IntegerMinusBytes()
    ensures Ascii(":-123\r\n") == [58, 45, 49, 50, 51, 13, 10]
    ensures Encode(Integer(-123)) == [58, 45, 49, 50, 51, 13, 10]
  {
    assert Decimal(123) == [49, 50, 51] by {
      assert Decimal(1) == [49];
      assert Decimal(12) == [49, 50];
    }
    hide Decimal;
    assert IntegerText(-123) == [45, 49, 50, 51];
  }

  /** `:-123\r\n` is the integer -123. */
  lemma IntegerMinus()
    ensures Encode(Integer(-123)) == Ascii(":-123\r\n")
    ensures Decode(Ascii(":-123\r\n")) == Ok((Integer(-123), []))
  {
    hide Encode, Decode, Ascii;
    IntegerMinusBytes();
    Exchange(Integer(-123));
  }

  lemma HelloBytes()
    ensures Ascii("Hello") == [72, 101, 108, 108, 111]
    ensures Ascii("$5\r\nHello\r\n") == [36, 53, 13, 10, 72, 101, 108, 108, 111, 13, 10]
    ensures Encode(BulkString([72, 101, 108, 108, 111])) == [36, 53, 13, 10, 72, 101, 108, 108, 111, 13, 10]
  {
    assert Decimal(5) == [53];
    hide Decimal;
  }

  /** `$5\r\nHello\r\n` is the bulk string "Hello". */
  lemma BulkStringHello()
    ensures Encode(BulkString(Ascii("Hello"))) == Ascii("$5\r\nHello\r\n")
    ensures Decode(Ascii("$5\r\nHello\r\n")) == Ok((BulkString(Ascii("Hello")), []))
  {
    hide Encode, Decode, Ascii;
    HelloBytes();
    assert Encodable(BulkString([72, 101, 108, 108, 111]));
    Exchange(BulkString([72, 101, 108, 108, 111]));
  }

  lemma NullBytes()
    ensures Ascii("$-1\r\n") == [36, 45, 49, 13, 10] == Encode(NullBulkString)
    ensures Ascii("*-1\r\n") == [42, 45, 49, 13, 10] == Encode(NullArray)
    ensures Ascii("_\r\n") == [95, 13, 10] == Encode(Null)
  {
  }

  /** `$-1\r\n`, `*-1\r\n` and `_\r\n` are the null bulk string, the null array and the null. */
  lemma NullLiterals()
    ensures Encode(NullBulkString) == Ascii("$-1\r\n")
    ensures Encode(NullArray) == Ascii("*-1\r\n")
    ensures Encode(Null) == Ascii("_\r\n")
    ensures Decode(Ascii("$-1\r\n")) == Ok((NullBulkString, []))
    ensures Decode(Ascii("*-1\r\n")) == Ok((NullArray, []))
    ensures Decode(Ascii("_\r\n")) == Ok((Null, []))
  {
    hide Encode, Decode, Ascii;
    NullBytes();
    Exchange(NullBulkString);
    Exchange(NullArray);
    Exchange(Null);
  }

  lemma BooleanBytes()
    ensures Ascii("#t\r\n") == [35, 116, 13, 10] == Encode(Boolean(true))
    ensures Ascii("#f\r\n") == [35, 102, 13, 10] == Encode(Boolean(false))
  {
  }

  /** `#t\r\n` and `#f\r\n` are the booleans. */
  lemma BooleanLiterals()
    ensures Encode(Boolean(true)) == Ascii("#t\r\n")
    ensures Encode(Boolean(false)) == Ascii("#f\r\n")
    ensures Decode(Ascii("#t\r\n")) == Ok((Boolean(true), []))
    ensures Decode(Ascii("#f\r\n")) == Ok((Boolean(false), []))
  {
    hide Encode, Decode, Ascii;
    BooleanBytes();
    Exchange(Boolean(true));
    Exchange(Boolean(false));
  }

  /** `#x\r\n` is not a boolean. */
  lemma BooleanX()
    ensures Decode(Ascii("#x\r\n")) == Err(Invalid("not a boolean"))
  {
    var x: seq<Byte> := [120];
    assert Ascii("#x\r\n") == Line(PREFIX_BOOLEAN, x) + [];
    AsciiText(x);
    BooleanRejects(x, []);
  }

  /** `_x\r\n` is a null with a payload, which is invalid. */
  lemma NullX()
    ensures Decode(Ascii("_x\r\n")) == Err(Invalid("unexpected payload"))
  {
    var x: seq<Byte> := [120];
    assert Ascii("_x\r\n") == Line(PREFIX_NULL, x) + [];
    AsciiText(x);
    NullRejects(x, []);
  }

  /** `:xxx\r\n` is not an integer. */
  lemma IntegerXxx()
    ensures Decode(Ascii(":xxx\r\n")) == Err(Invalid("not an integer"))
  {
    var x: seq<Byte> := [120, 120, 120];
    assert Ascii(":xxx\r\n") == Line(PREFIX_INTEGER, x) + [];
    assert !IsDigit(x[0]);
    AsciiText(x);
    IntegerRejects(x, []);
  }

  /** `$-2\r\n` is not the null bulk string. */
  lemma NullBulkMinusTwo()
    ensures ReadFixed(Ascii("$-2\r\n"), PREFIX_BULK_STRING, NULL_LENGTH) == Err(Invalid("unexpected payload"))
  {
    var x: seq<Byte> := [45, 50];
    assert Ascii("$-2\r\n") == Line(PREFIX_BULK_STRING, x) + [];
    AsciiText(x);
    NullReaderDecides(PREFIX_BULK_STRING, x, []);
  }

  /** `Error message`, the text of the error tests. */
  const ERROR_MESSAGE: seq<Byte> := [69, 114, 114, 111, 114, 32, 109, 101, 115, 115, 97, 103, 101]
  /** `Hello, world!` and the same text one byte short. */
  const HELLO_WORLD: seq<Byte> := [72, 101, 108, 108, 111, 44, 32, 119, 111, 114, 108, 100, 33]
  const HELLO_WORLD_CUT: seq<Byte> := [72, 101, 108, 108, 111, 44, 32, 119, 111, 114, 108, 100]

  /** Printable ASCII is text. */
  lemma PrintableIsText(t: seq<Byte>)
    requires forall i :: 0 <= i < |t| ==> 32 <= t[i] < 127
    ensures IsText(t)
  {
    AsciiText(t);
  }

  lemma ErrorMessageIsText()
    ensures IsText(ERROR_MESSAGE) && |ERROR_MESSAGE| == 13
  {
    assert forall i :: 0 <= i < |ERROR_MESSAGE| ==> 32 <= ERROR_MESSAGE[i] < 127;
    PrintableIsText(ERROR_MESSAGE);
  }

  lemma HelloWorldIsText()
    ensures IsText(HELLO_WORLD) && |HELLO_WORLD| == 13
  {
    assert forall i :: 0 <= i < |HELLO_WORLD| ==> 32 <= HELLO_WORLD[i] < 127;
    PrintableIsText(HELLO_WORLD);
  }

  lemma HelloWorldCutIsText()
    ensures IsText(HELLO_WORLD_CUT) && |HELLO_WORLD_CUT| == 12
  {
    assert forall i :: 0 <= i < |HELLO_WORLD_CUT| ==> 32 <= HELLO_WORLD_CUT[i] < 127;
    PrintableIsText(HELLO_WORLD_CUT);
  }

  lemma MessagesAreText()
    ensures IsText(ERROR_MESSAGE) && IsText(HELLO_WORLD) && IsText(HELLO_WORLD_CUT)
    ensures |ERROR_MESSAGE| == 13 && |HELLO_WORLD| == 13 && |HELLO_WORLD_CUT| == 12
  {
    ErrorMessageIsText();
    HelloWorldIsText();
    HelloWorldCutIsText();
  }

  lemma ShortHeaders()
    ensures Decimal(12) == [49, 50] && Decimal(13) == [49, 51]
    ensures Ascii("!13\r\n") == Line(PREFIX_BULK_ERROR, [49, 51])
    ensures Ascii("!12\r\n") == Line(PREFIX_BULK_ERROR, [49, 50])
    ensures Ascii("$13\r\n") == Line(PREFIX_BULK_STRING, [49, 51])
    ensures Ascii("-") == [PREFIX_SIMPLE_ERROR] && Ascii("\r\n") == CRLF
  {
    assert Decimal(1) == [49];
  }

  /** `-Error message\r\n` is the simple error "Error message", both ways. */
  lemma SimpleErrorMessage()
    ensures Encode(SimpleError(ERROR_MESSAGE)) == Ascii("-") + ERROR_MESSAGE + Ascii("\r\n")
    ensures Decode(Ascii("-") + ERROR_MESSAGE + Ascii("\r\n")) == Ok((SimpleError(ERROR_MESSAGE), []))
  {
    hide Encode, Decode, Ascii;
    MessagesAreText();
    ShortHeaders();
    assert Encode(SimpleError(ERROR_MESSAGE)) == Line(PREFIX_SIMPLE_ERROR, ERROR_MESSAGE) by { LineOf(SimpleError(ERROR_MESSAGE)); }
    Exchange(SimpleError(ERROR_MESSAGE));
  }

  /** The one-line variants are written as their prefix, their text and a CRLF. */
  lemma LineOf(f: Frame)
    requires f.SimpleString? || f.SimpleError?
    ensures Encode(f) == Line(Prefix(f), f.text)
  {
  }

  /** The sized variants are written as their header line, their payload and a CRLF. */
  lemma SizedOf(f: Frame)
    requires f.BulkString? || f.BulkError?
    ensures Encode(f) == Line(Prefix(f), Decimal(|f.data|)) + f.data + CRLF
  {
  }

  /** `!13\r\nError message\r\n` is the bulk error "Error message", both ways. */
  lemma BulkErrorMessage()
    ensures Encode(BulkError(ERROR_MESSAGE)) == Ascii("!13\r\n") + ERROR_MESSAGE + Ascii("\r\n")
    ensures Decode(Ascii("!13\r\n") + ERROR_MESSAGE + Ascii("\r\n")) == Ok((BulkError(ERROR_MESSAGE), []))
  {
    hide Encode, Decode, Ascii, Decimal;
    MessagesAreText();
    ShortHeaders();
    SizedOf(BulkError(ERROR_MESSAGE));
    Exchange(BulkError(ERROR_MESSAGE));
  }

  lemma TwelveLayout()
    ensures Line(PREFIX_BULK_ERROR, Decimal(12)) + ERROR_MESSAGE + CRLF + [] == Ascii("!12\r\n") + ERROR_MESSAGE + Ascii("\r\n")
    ensures Line(PREFIX_BULK_STRING, Decimal(13)) + HELLO_WORLD_CUT + CRLF + [] == Ascii("$13\r\n") + HELLO_WORLD_CUT + Ascii("\r\n")
  {
    hide Decimal, Ascii, Line;
    ShortHeaders();
  }

  /** `!12\r\nError message\r\n` declares twelve bytes but carries thirteen. */
  lemma BulkErrorTwelve()
    ensures Decode(Ascii("!12\r\n") + ERROR_MESSAGE + Ascii("\r\n")) == Err(InvalidFrameLength)
  {
    hide Decode, Ascii, Decimal, Line;
    TwelveLayout();
    MessagesAreText();
    BulkErrorLengthMismatch(12, ERROR_MESSAGE, []);
  }

  /** `$13\r\nHello, world!\r\n` is the bulk string of those thirteen bytes. */
  lemma BulkStringThirteen()
    ensures Decode(Ascii("$13\r\n") + HELLO_WORLD + Ascii("\r\n")) == Ok((BulkString(HELLO_WORLD), []))
  {
    hide Encode, Decode, Ascii, Decimal;
    MessagesAreText();
    ShortHeaders();
    SizedOf(BulkString(HELLO_WORLD));
    Exchange(BulkString(HELLO_WORLD));
  }

  /** `$13\r\nHello, world\r\n` declares thirteen bytes but carries twelve. */
  lemma BulkStringShort()
    ensures Decode(Ascii("$13\r\n") + HELLO_WORLD_CUT + Ascii("\r\n")) == Err(InvalidFrameLength)
  {
    hide Decode, Ascii, Decimal, Line;
    TwelveLayout();
    MessagesAreText();
    BulkStringLengthMismatch(13, HELLO_WORLD_CUT, []);
  }

  /** `:123\r\n`, without the plus sign the encoder writes, is still the integer 123. */
  lemma IntegerUnsigned()
    ensures Decode(Ascii(":123\r\n")) == Ok((Integer(123), []))
  {
    var x: seq<Byte> := [49, 50, 51];
    assert Ascii(":123\r\n") == Line(PREFIX_INTEGER, x) + [];
    UnsignedText(x);
    hide Ascii, ParseI64, ReadLine, IsText;
    LineRead(PREFIX_INTEGER, x, []);
    DecodeDispatch(Line(PREFIX_INTEGER, x) + []);
  }

  lemma UnsignedText(x: seq<Byte>)
    requires x == [49, 50, 51]
    ensures IsText(x) && ParseI64(x) == Some(123)
  {
    AsciiText(x);
    assert x == Decimal(123) by {
      assert Decimal(1) == [49];
      assert Decimal(12) == [49, 50];
    }
  }

  /** `-OK\r\n` is not a simple string: its prefix names another variant. */
  lemma SimpleStringWrongPrefix()
    ensures DecodeSimpleString(Ascii("-OK\r\n")).Err?
    ensures DecodeSimpleString(Ascii("-OK\r\n")).error.InvalidFrameType?
  {
  }
}
