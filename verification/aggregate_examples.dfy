/**
 The codec's aggregate tests, stated on frames and on their wire bytes: a
 fragmented array, a map written in ascending key order, and a set that
 drops a duplicate and orders its elements.
 */
module AggregateExamples {
  import opened Results
  import opened Bytes
  import opened Numbers
  import opened Frames
  import opened FrameOrder
  import opened Collections
  import opened ByteOrder
  import opened Encoder
  import opened Decoder
  import opened Framing
  import opened Sizing
  import opened RoundTrip
  import opened Prefixes
  import opened WireExamples

  const GET_TEXT: seq<Byte> := [103, 101, 116]             // "get"
  const SET_TEXT: seq<Byte> := [115, 101, 116]             // "set"
  const HELLO_TEXT: seq<Byte> := [104, 101, 108, 108, 111] // "hello"
  const WORLD_TEXT: seq<Byte> := [119, 111, 114, 108, 100] // "world"

  const FOO_TEXT: seq<Byte> := [102, 111, 111]             // "foo"
  /** `-123456.789`, the text of the double in the map test. */
  const DOUBLE_TEXT := Ascii("-123456.789")

  /** `*2\r\n$3\r\nset\r\n`: an array of two whose second element has not arrived. */
  const ARRAY_HEAD := Ascii("*2\r\n$3\r\nset\r\n")
  /** `$5\r\nhello\r\n`: the rest of that array. */
  const ARRAY_TAIL := Ascii("$5\r\nhello\r\n")

  lemma SmallDecimals()
    ensures Decimal(2) == [50] && Decimal(3) == [51] && Decimal(5) == [53]
  {
  }

  lemma TwoItems(x: Frame, y: Frame)
    ensures EncodeItems([x, y]) == Encode(x) + Encode(y)
  {
    hide Encode;
    var xs := [x, y];
    assert xs[1..] == [y] && xs[1..][1..] == [];
  }

  lemma BulkBytes3(d: seq<Byte>)
    requires |d| == 3
    ensures Encode(BulkString(d)) == [36, 51, 13, 10] + d + [13, 10]
  {
    SmallDecimals();
    hide Decimal;
  }

  lemma BulkBytes5(d: seq<Byte>)
    requires |d| == 5
    ensures Encode(BulkString(d)) == [36, 53, 13, 10] + d + [13, 10]
  {
    SmallDecimals();
    hide Decimal;
  }

  lemma ArrayLiterals()
    ensures ARRAY_HEAD == [42, 50, 13, 10] + [36, 51, 13, 10] + SET_TEXT + [13, 10]
    ensures ARRAY_TAIL == [36, 53, 13, 10] + HELLO_TEXT + [13, 10]
  {
  }

  lemma ArrayBytes()
    ensures ARRAY_HEAD == [42, 50, 13, 10] + Encode(BulkString(SET_TEXT))
    ensures ARRAY_TAIL == Encode(BulkString(HELLO_TEXT))
    ensures Encode(Array([BulkString(SET_TEXT), BulkString(HELLO_TEXT)])) == ARRAY_HEAD + ARRAY_TAIL
  {
    hide Encode, Decimal, EncodeItems, Ascii;
    var xs := [BulkString(SET_TEXT), BulkString(HELLO_TEXT)];
    ArrayLiterals();
    BulkBytes3(SET_TEXT);
    BulkBytes5(HELLO_TEXT);
    SmallDecimals();
    TwoItems(xs[0], xs[1]);
    EncodeOfArray(xs, []);
    assert Encode(Array(xs)) + [] == Encode(Array(xs));
    assert EncodeItems(xs) + [] == EncodeItems(xs);
    assert Line(PREFIX_ARRAY, Decimal(2)) == [42, 50, 13, 10];
  }

  /**
   The head of an array whose second element is missing is incomplete;
   once the rest arrives the whole array is read.
   */
  lemma ArrayFragment()
    ensures Decode(ARRAY_HEAD) == Err(Incomplete)
    ensures Decode(ARRAY_HEAD + ARRAY_TAIL) == Ok((Array([BulkString(SET_TEXT), BulkString(HELLO_TEXT)]), []))
  {
    hide Encode, Decode;
    var f := Array([BulkString(SET_TEXT), BulkString(HELLO_TEXT)]);
    ArrayBytes();
    assert Encodable(f) by { assert !HasCrlf(SET_TEXT) && !HasCrlf(HELLO_TEXT); }
    PrefixIncomplete(f, ARRAY_HEAD);
    DecodeOfEncode(f, []);
    assert Encode(f) + [] == Encode(f);
  }

  lemma DoubleBytes(t: seq<Byte>)
    ensures Encode(Double(t)) == Line(PREFIX_DOUBLE, t)
  {
  }

  lemma TwoEntries(a: Entry, b: Entry)
    ensures EncodeEntries([a, b])
         == Line(PREFIX_SIMPLE_STRING, a.key) + Encode(a.value) + Line(PREFIX_SIMPLE_STRING, b.key) + Encode(b.value)
  {
    hide Encode, Line;
    var es := [a, b];
    assert es[1..] == [b] && es[1..][1..] == [];
  }

  /** `%2\r\n+foo\r\n,-123456.789\r\n+hello\r\n$5\r\nworld\r\n`, one piece per line of the encoding. */
  const MAP_ENCODED := Ascii("%2\r\n") + (Ascii("+foo\r\n") + Ascii(",-123456.789\r\n") + Ascii("+hello\r\n") + Ascii("$5\r\nworld\r\n"))

  lemma MapEncodedPieces()
    ensures Ascii("%2\r\n") == Line(PREFIX_MAP, [50])
    ensures Ascii("+foo\r\n") == Line(PREFIX_SIMPLE_STRING, FOO_TEXT)
    ensures Ascii("+hello\r\n") == Line(PREFIX_SIMPLE_STRING, HELLO_TEXT)
  {
  }

  lemma MapEncodedDouble()
    ensures Ascii(",-123456.789\r\n") == Line(PREFIX_DOUBLE, DOUBLE_TEXT)
  {
  }

  lemma MapEncodedWorld()
    ensures Ascii("$5\r\nworld\r\n") == [36, 53, 13, 10] + WORLD_TEXT + [13, 10]
  {
  }

  lemma MapEncodedLiteral()
    ensures MAP_ENCODED == Line(PREFIX_MAP, [50])
      + (Line(PREFIX_SIMPLE_STRING, FOO_TEXT) + Line(PREFIX_DOUBLE, DOUBLE_TEXT)
         + Line(PREFIX_SIMPLE_STRING, HELLO_TEXT) + ([36, 53, 13, 10] + WORLD_TEXT + [13, 10]))
  {
    hide Line;
    MapEncodedPieces();
    MapEncodedDouble();
    MapEncodedWorld();
  }

  /** The map built by inserting hello and then foo. */
  function FooHello(): seq<Entry> {
    MapInsert(MapInsert([], HELLO_TEXT, BulkString(WORLD_TEXT)), FOO_TEXT, Double(DOUBLE_TEXT))
  }

  /** Inserted after hello, foo still comes first. */
  lemma FooHelloOrder()
    ensures FooHello() == [Entry(FOO_TEXT, Double(DOUBLE_TEXT)), Entry(HELLO_TEXT, BulkString(WORLD_TEXT))]
  {
    hide Ascii;
    assert CmpBytes(FOO_TEXT, HELLO_TEXT) < 0;
  }

  /** The map holds foo before hello, and is written in that order. */
  lemma MapEncode()
    ensures FooHello() == [Entry(FOO_TEXT, Double(DOUBLE_TEXT)), Entry(HELLO_TEXT, BulkString(WORLD_TEXT))]
    ensures Encode(Map(FooHello())) == MAP_ENCODED
  {
    hide Encode, Decimal, EncodeEntries, Ascii, MapInsert, FooHello, Line;
    var es := [Entry(FOO_TEXT, Double(DOUBLE_TEXT)), Entry(HELLO_TEXT, BulkString(WORLD_TEXT))];
    FooHelloOrder();
    MapEncodedLiteral();
    BulkBytes5(WORLD_TEXT);
    SmallDecimals();
    TwoEntries(es[0], es[1]);
    EncodeOfMap(es, []);
    assert Encode(Map(es)) + [] == Encode(Map(es));
    assert EncodeEntries(es) + [] == EncodeEntries(es);
    assert Decimal(2) == [50];
    DoubleBytes(DOUBLE_TEXT);
  }

  /** `%2\r\n+get\r\n$5\r\nhello\r\n+set\r\n$5\r\nworld\r\n`, one piece per line of the encoding. */
  const MAP_WIRE := Ascii("%2\r\n") + (Ascii("+get\r\n") + Ascii("$5\r\nhello\r\n") + Ascii("+set\r\n") + Ascii("$5\r\nworld\r\n"))

  lemma MapWirePieces()
    ensures Ascii("%2\r\n") == Line(PREFIX_MAP, [50])
    ensures Ascii("+get\r\n") == Line(PREFIX_SIMPLE_STRING, GET_TEXT)
    ensures Ascii("+set\r\n") == Line(PREFIX_SIMPLE_STRING, SET_TEXT)
  {
  }

  lemma MapWireBulks()
    ensures Ascii("$5\r\nhello\r\n") == [36, 53, 13, 10] + HELLO_TEXT + [13, 10]
    ensures Ascii("$5\r\nworld\r\n") == [36, 53, 13, 10] + WORLD_TEXT + [13, 10]
  {
  }

  /** The map built by inserting get and then set. */
  function GetSet(): seq<Entry> {
    MapInsert(MapInsert([], GET_TEXT, BulkString(HELLO_TEXT)), SET_TEXT, BulkString(WORLD_TEXT))
  }

  lemma GetSetOrder()
    ensures GetSet() == [Entry(GET_TEXT, BulkString(HELLO_TEXT)), Entry(SET_TEXT, BulkString(WORLD_TEXT))]
  {
    assert CmpBytes(SET_TEXT, GET_TEXT) > 0;
  }

  lemma GetSetBytes()
    ensures Encode(Map(GetSet())) == MAP_WIRE
  {
    hide Encode, Decimal, EncodeEntries, Ascii, MapInsert, GetSet, Line;
    var es := [Entry(GET_TEXT, BulkString(HELLO_TEXT)), Entry(SET_TEXT, BulkString(WORLD_TEXT))];
    GetSetOrder();
    MapWirePieces();
    MapWireBulks();
    BulkBytes5(HELLO_TEXT);
    BulkBytes5(WORLD_TEXT);
    TwoEntries(es[0], es[1]);
    EncodeOfMap(es, []);
    assert Encode(Map(es)) + [] == Encode(Map(es));
    assert EncodeEntries(es) + [] == EncodeEntries(es);
    assert Decimal(2) == [50] by { SmallDecimals(); }
  }

  lemma GetSetEncodable()
    ensures Encodable(Map([Entry(GET_TEXT, BulkString(HELLO_TEXT)), Entry(SET_TEXT, BulkString(WORLD_TEXT))]))
  {
    var es := [Entry(GET_TEXT, BulkString(HELLO_TEXT)), Entry(SET_TEXT, BulkString(WORLD_TEXT))];
    WordsAreText();
    hide IsText, HasCrlf;
    assert CmpBytes(GET_TEXT, SET_TEXT) < 0;
  }

  lemma WordsAreText()
    ensures IsText(GET_TEXT) && IsText(SET_TEXT) && !HasCrlf(HELLO_TEXT) && !HasCrlf(WORLD_TEXT)
  {
    AsciiIsText(GET_TEXT);
    AsciiIsText(SET_TEXT);
  }

  /** The map test's bytes decode to the map holding get and set. */
  lemma MapDecode()
    ensures Decode(MAP_WIRE) == Ok((Map(GetSet()), []))
  {
    hide Encode, Decode, Ascii, MapInsert, GetSet;
    var es := [Entry(GET_TEXT, BulkString(HELLO_TEXT)), Entry(SET_TEXT, BulkString(WORLD_TEXT))];
    GetSetOrder();
    GetSetBytes();
    GetSetEncodable();
    Exchange(Map(es));
  }


  /** The array of the set test: the integer 1234 and true. */
  const PAIR := Array([Integer(1234), Boolean(true)])

  /** The set built by inserting the array, then "world" twice. */
  function WorldSet(): seq<Frame> {
    SetInsert(SetInsert(SetInsert([], PAIR), BulkString(WORLD_TEXT)), BulkString(WORLD_TEXT))
  }

  /** The duplicate is dropped, and the bulk string sorts before the array. */
  lemma WorldSetOrder()
    ensures WorldSet() == [BulkString(WORLD_TEXT), PAIR]
  {
    var w := BulkString(WORLD_TEXT);
    assert SetInsert([], PAIR) == [PAIR];
    assert SetInsert([PAIR], w) == [w, PAIR];
  }

  /** `~2\r\n$5\r\nworld\r\n*2\r\n:+1234\r\n#t\r\n`, one piece per line of the encoding. */
  const SET_ENCODED := Ascii("~2\r\n") + (Ascii("$5\r\nworld\r\n") + (Ascii("*2\r\n") + (Ascii(":+1234\r\n") + Ascii("#t\r\n"))))

  lemma SetEncodedPieces()
    ensures Ascii("~2\r\n") == Line(PREFIX_SET, [50])
    ensures Ascii("*2\r\n") == Line(PREFIX_ARRAY, [50])
    ensures Ascii(":+1234\r\n") == Line(PREFIX_INTEGER, [43, 49, 50, 51, 52])
    ensures Ascii("#t\r\n") == Line(PREFIX_BOOLEAN, TRUE_TEXT)
  {
  }

  lemma PairBytes()
    ensures Encode(Integer(1234)) == Line(PREFIX_INTEGER, [43, 49, 50, 51, 52])
    ensures Encode(Boolean(true)) == Line(PREFIX_BOOLEAN, TRUE_TEXT)
  {
    assert Decimal(1234) == [49, 50, 51, 52] by {
      assert Decimal(1) == [49];
      assert Decimal(12) == [49, 50];
      assert Decimal(123) == [49, 50, 51];
    }
    hide Decimal;
    assert IntegerText(1234) == [43, 49, 50, 51, 52];
  }

  lemma PairEncoding()
    ensures Encode(PAIR) == Line(PREFIX_ARRAY, [50]) + (Line(PREFIX_INTEGER, [43, 49, 50, 51, 52]) + Line(PREFIX_BOOLEAN, TRUE_TEXT))
  {
    hide Encode, Decimal, EncodeItems, Line;
    var xs := [Integer(1234), Boolean(true)];
    PairBytes();
    TwoItems(xs[0], xs[1]);
    EncodeOfArray(xs, []);
    assert Encode(Array(xs)) + [] == Encode(Array(xs));
    assert EncodeItems(xs) + [] == EncodeItems(xs);
    assert Decimal(2) == [50] by { SmallDecimals(); }
  }

  /** The set is written with its two distinct elements, the bulk string first. */
  lemma SetEncode()
    ensures Encode(Set(WorldSet())) == SET_ENCODED
  {
    hide Encode, Decimal, EncodeItems, Line, Ascii, SetInsert, WorldSet;
    var xs := [BulkString(WORLD_TEXT), PAIR];
    WorldSetOrder();
    SetEncodedPieces();
    MapWireBulks();
    BulkBytes5(WORLD_TEXT);
    PairEncoding();
    TwoItems(xs[0], xs[1]);
    EncodeOfSet(xs, []);
    assert Encode(Set(xs)) + [] == Encode(Set(xs));
    assert EncodeItems(xs) + [] == EncodeItems(xs);
    assert Decimal(2) == [50] by { SmallDecimals(); }
  }

  /** `~2\r\n$3\r\nget\r\n$5\r\nhello\r\n`, one piece per element. */
  const SET_WIRE := Ascii("~2\r\n") + (Ascii("$3\r\nget\r\n") + Ascii("$5\r\nhello\r\n"))

  /** The set built by inserting get and then hello. */
  function GetHello(): seq<Frame> {
    SetInsert(SetInsert([], BulkString(GET_TEXT)), BulkString(HELLO_TEXT))
  }

  lemma GetHelloOrder()
    ensures GetHello() == [BulkString(GET_TEXT), BulkString(HELLO_TEXT)]
    ensures Encodable(Set(GetHello()))
  {
    assert SetInsert([], BulkString(GET_TEXT)) == [BulkString(GET_TEXT)];
    assert CmpBytes(HELLO_TEXT, GET_TEXT) > 0;
    WordsAreText();
  }

  lemma GetHelloBytes()
    ensures Encode(Set([BulkString(GET_TEXT), BulkString(HELLO_TEXT)])) == SET_WIRE
  {
    hide Encode, Decimal, EncodeItems, Line, Ascii;
    var xs := [BulkString(GET_TEXT), BulkString(HELLO_TEXT)];
    assert Ascii("~2\r\n") == Line(PREFIX_SET, [50]) by { SetEncodedPieces(); }
    assert Ascii("$3\r\nget\r\n") == [36, 51, 13, 10] + GET_TEXT + [13, 10] by { GetBulk(); }
    MapWireBulks();
    BulkBytes3(GET_TEXT);
    BulkBytes5(HELLO_TEXT);
    TwoItems(xs[0], xs[1]);
    EncodeOfSet(xs, []);
    assert Encode(Set(xs)) + [] == Encode(Set(xs));
    assert EncodeItems(xs) + [] == EncodeItems(xs);
    assert Decimal(2) == [50] by { SmallDecimals(); }
  }

  lemma GetBulk()
    ensures Ascii("$3\r\nget\r\n") == [36, 51, 13, 10] + GET_TEXT + [13, 10]
  {
  }

  /** The set test's bytes decode to the set holding get and hello. */
  lemma SetDecode()
    ensures Decode(SET_WIRE) == Ok((Set(GetHello()), []))
  {
    hide Encode, Decode, Ascii, SetInsert, GetHello;
    GetHelloOrder();
    GetHelloBytes();
    Exchange(Set(GetHello()));
  }
}
