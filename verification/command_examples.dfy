/**
 The command layer's tests, stated on commands, on the store and on the
 wire bytes of the requests: GET on a fresh store, SET then GET, HSET then
 HGET and a sorted HGETALL, HMGET with a missing field, SADD then
 SISMEMBER, and the ECHO request.
 */
module CommandExamples {
  import opened Results
  import opened Bytes
  import opened Numbers
  import opened Utf8
  import opened Frames
  import opened ByteOrder
  import opened Encoder
  import opened Decoder
  import opened Sizing
  import opened RoundTrip
  import opened Commands
  import opened Executor
  import opened Session
  import opened WireExamples
  import opened AggregateExamples

  const MAP_TEXT: seq<Byte> := [109, 97, 112]                  // "map"
  const HELLO1_TEXT: seq<Byte> := HELLO_TEXT + [49]            // "hello1"
  const WORLD1_TEXT: seq<Byte> := WORLD_TEXT + [49]            // "world1"
  const FIELD_TEXT: seq<Byte> := [102, 105, 101, 108, 100]     // "field"
  const FIELD2_TEXT: seq<Byte> := FIELD_TEXT + [50]            // "field2"
  const FIELD3_TEXT: seq<Byte> := FIELD_TEXT + [51]            // "field3"
  const MYSET_TEXT: seq<Byte> := [109, 121, 115, 101, 116]     // "myset"
  const ONE_TEXT: seq<Byte> := [111, 110, 101]                 // "one"
  const TWO_TEXT: seq<Byte> := [116, 119, 111]                 // "two"

  /** `*2\r\n$3\r\nget\r\n`: the head of the request GET hello. */
  const GET_HEAD := Ascii("*2\r\n$3\r\nget\r\n")
  /** `*2\r\n$4\r\necho\r\n`: the head of the request ECHO hello. */
  const ECHO_HEAD := Ascii("*2\r\n$4\r\necho\r\n")

  /** SET hello world answers OK, and GET hello then answers world. */
  lemma SetThenGet()
    ensures Reply(Command.Set(HELLO_TEXT, BulkString(WORLD_TEXT)), EMPTY) == OK
    ensures Reply(Get(HELLO_TEXT), After(Command.Set(HELLO_TEXT, BulkString(WORLD_TEXT)), EMPTY)) == BulkString(WORLD_TEXT)
  {
    GetAfterSet(EMPTY, HELLO_TEXT, BulkString(WORLD_TEXT), HELLO_TEXT);
  }

  /** The store after HSET map hello world and HSET map hello1 world1. */
  function TwoFields(): Backend {
    After(HSet(MAP_TEXT, HELLO1_TEXT, BulkString(WORLD1_TEXT)), After(HSet(MAP_TEXT, HELLO_TEXT, BulkString(WORLD_TEXT)), EMPTY))
  }

  lemma TwoFieldsHash()
    ensures MAP_TEXT in TwoFields().hashes
    ensures TwoFields().hashes[MAP_TEXT] == TwoFieldHash()
  {
  }

  lemma HelloBeforeHello1()
    ensures LessBytes(HELLO_TEXT, HELLO1_TEXT) && !LessBytes(HELLO1_TEXT, HELLO_TEXT)
  {
    assert HELLO_TEXT == HELLO1_TEXT[..5];
    assert LexLess(HELLO_TEXT, HELLO1_TEXT);
    CmpBytesIsLexLess(HELLO_TEXT, HELLO1_TEXT);
    CmpBytesFlip(HELLO_TEXT, HELLO1_TEXT);
  }

  /** Two distinct fields of the hash, in ascending order, are hello then hello1. */
  lemma AscendingFields(f0: Text, f1: Text)
    requires f0 == HELLO_TEXT || f0 == HELLO1_TEXT
    requires f1 == HELLO_TEXT || f1 == HELLO1_TEXT
    requires LessBytes(f0, f1)
    ensures f0 == HELLO_TEXT && f1 == HELLO1_TEXT
  {
    HelloBeforeHello1();
    CmpBytesZero(f0, f1);
  }

  /** The hash HSET map hello world and HSET map hello1 world1 leave. */
  function TwoFieldHash(): map<Text, Frame> {
    map[HELLO_TEXT := BulkString(WORLD_TEXT), HELLO1_TEXT := BulkString(WORLD1_TEXT)]
  }

  lemma TwoFieldHashFacts()
    ensures |TwoFieldHash()| == 2
    ensures forall k :: k in TwoFieldHash() <==> k == HELLO_TEXT || k == HELLO1_TEXT
    ensures TwoFieldHash()[HELLO_TEXT] == BulkString(WORLD_TEXT) && TwoFieldHash()[HELLO1_TEXT] == BulkString(WORLD1_TEXT)
  {
    assert TwoFieldHash().Keys == {HELLO_TEXT, HELLO1_TEXT};
  }

  lemma FourItems(r: seq<Frame>, f0: Frame, v0: Frame, f1: Frame, v1: Frame)
    requires |r| == 4 && FieldAt(r, 0) == f0 && ValueAt(r, 0) == v0 && FieldAt(r, 1) == f1 && ValueAt(r, 1) == v1
    ensures r == [f0, v0, f1, v1]
  {
  }

  /** Sorted, that hash lists hello then hello1, each followed by its value. */
  lemma SortedItems(order: seq<Text>)
    requires ListsKeys(order, TwoFieldHash())
    ensures HGetAllItems(TwoFieldHash(), true, order)
         == [BulkString(HELLO_TEXT), BulkString(WORLD_TEXT), BulkString(HELLO1_TEXT), BulkString(WORLD1_TEXT)]
  {
    TwoFieldHashFacts();
    hide HGetAllItems, LessBytes, TwoFieldHash, ListsKeys;
    var m := TwoFieldHash();
    var r := HGetAllItems(m, true, order);
    AscendingFields(FieldAt(r, 0).data, FieldAt(r, 1).data);
    FourItems(r, BulkString(HELLO_TEXT), BulkString(WORLD_TEXT), BulkString(HELLO1_TEXT), BulkString(WORLD1_TEXT));
  }

  /**
   HGETALL with sorting lists hello before hello1 with their values,
   whatever order the store iterates in.
   */
  lemma SortedHGetAll(order: seq<Text>)
    requires ListsKeys(order, TwoFieldHash())
    ensures Execute(HGetAll(MAP_TEXT, true), TwoFields(), order).0
         == Array([BulkString(HELLO_TEXT), BulkString(WORLD_TEXT), BulkString(HELLO1_TEXT), BulkString(WORLD1_TEXT)])
  {
    TwoFieldsHash();
    SortedItems(order);
    hide TwoFields, HGetAllItems, TwoFieldHash, ListsKeys;
  }

  /** HGET map hello on that store answers world. */
  lemma HGetOfTwoFields()
    ensures Reply(HGet(MAP_TEXT, HELLO_TEXT), TwoFields()) == BulkString(WORLD_TEXT)
  {
    TwoFieldsHash();
    TwoFieldHashFacts();
    hide TwoFields, TwoFieldHash;
  }

  /** The store after HSET map field hello and HSET map field2 world. */
  function FieldPair(): Backend {
    After(HSet(MAP_TEXT, FIELD2_TEXT, BulkString(WORLD_TEXT)), After(HSet(MAP_TEXT, FIELD_TEXT, BulkString(HELLO_TEXT)), EMPTY))
  }

  /** HMGET map field field2 field3 answers hello, world and Null for the missing field. */
  lemma HMGetWithMissing()
    ensures Reply(HMGet(MAP_TEXT, [FIELD_TEXT, FIELD2_TEXT, FIELD3_TEXT]), FieldPair())
         == Array([BulkString(HELLO_TEXT), BulkString(WORLD_TEXT), Null])
  {
    var fs := [FIELD_TEXT, FIELD2_TEXT, FIELD3_TEXT];
    HMGetIsHGet(FieldPair(), MAP_TEXT, fs);
    assert FIELD3_TEXT[5] != FIELD2_TEXT[5];
  }

  /** SADD myset one answers OK; SISMEMBER then answers 1 for one and 0 for two. */
  lemma SAddThenSIsMember()
    ensures Reply(SAdd(MYSET_TEXT, [BulkString(ONE_TEXT)]), EMPTY) == OK
    ensures Reply(SIsMember(MYSET_TEXT, BulkString(ONE_TEXT)), After(SAdd(MYSET_TEXT, [BulkString(ONE_TEXT)]), EMPTY)) == Integer(1)
    ensures Reply(SIsMember(MYSET_TEXT, BulkString(TWO_TEXT)), After(SAdd(MYSET_TEXT, [BulkString(ONE_TEXT)]), EMPTY)) == Integer(0)
  {
    var ms := [BulkString(ONE_TEXT)];
    SIsMemberAfterSAdd(EMPTY, MYSET_TEXT, ms, MYSET_TEXT, BulkString(ONE_TEXT));
    SIsMemberAfterSAdd(EMPTY, MYSET_TEXT, ms, MYSET_TEXT, BulkString(TWO_TEXT));
    assert BulkString(TWO_TEXT) !in ms by { assert TWO_TEXT[0] != ONE_TEXT[0]; }
  }

  lemma BulkBytes4(d: seq<Byte>)
    requires |d| == 4
    ensures Encode(BulkString(d)) == [36, 52, 13, 10] + d + [13, 10]
  {
    assert Decimal(4) == [52];
    hide Decimal;
  }

  lemma RequestLiterals()
    ensures GET_HEAD == [42, 50, 13, 10] + [36, 51, 13, 10] + GET + [13, 10]
    ensures ECHO_HEAD == [42, 50, 13, 10] + [36, 52, 13, 10] + ECHO + [13, 10]
    ensures GET == GET_TEXT && |ECHO| == 4
  {
  }

  /** A two-element request: the array header, then both bulk strings. */
  lemma PairRequestBytes(name: seq<Byte>, arg: seq<Byte>)
    ensures Encode(Array([BulkString(name), BulkString(arg)]))
         == [42, 50, 13, 10] + Encode(BulkString(name)) + Encode(BulkString(arg))
  {
    hide Encode, Decimal, EncodeItems;
    var xs := [BulkString(name), BulkString(arg)];
    SmallDecimals();
    TwoItems(xs[0], xs[1]);
    EncodeOfArray(xs, []);
    assert Encode(Array(xs)) + [] == Encode(Array(xs));
    assert EncodeItems(xs) + [] == EncodeItems(xs);
    assert Line(PREFIX_ARRAY, Decimal(2)) == [42, 50, 13, 10];
  }

  lemma RequestBytes()
    ensures Request(Get(HELLO_TEXT)) == [BulkString(GET), BulkString(HELLO_TEXT)]
    ensures Request(Echo(HELLO_TEXT)) == [BulkString(ECHO), BulkString(HELLO_TEXT)]
    ensures Encode(Array(Request(Get(HELLO_TEXT)))) == GET_HEAD + ARRAY_TAIL
    ensures Encode(Array(Request(Echo(HELLO_TEXT)))) == ECHO_HEAD + ARRAY_TAIL
  {
    hide Encode, Decimal, EncodeItems, Ascii;
    RequestLiterals();
    ArrayLiterals();
    BulkBytes3(GET);
    BulkBytes4(ECHO);
    BulkBytes5(HELLO_TEXT);
    PairRequestBytes(GET, HELLO_TEXT);
    PairRequestBytes(ECHO, HELLO_TEXT);
  }

  lemma HelloIsSizedText()
    ensures ValidUtf8(HELLO_TEXT) && IsSizedPayload(HELLO_TEXT)
  {
    assert forall i :: 0 <= i < |HELLO_TEXT| ==> 32 <= HELLO_TEXT[i] < 127;
    PrintableIsText(HELLO_TEXT);
  }

  lemma EchoIsSizedText()
    ensures ValidUtf8(ECHO) && IsSizedPayload(ECHO)
  {
    assert ECHO == [101, 99, 104, 111];
    hide Ascii;
    assert forall i :: 0 <= i < |ECHO| ==> 32 <= ECHO[i] < 127;
    PrintableIsText(ECHO);
  }

  /** `*2\r\n$3\r\nget\r\n$5\r\nhello\r\n` is received whole and, on a fresh store, answers Null. */
  lemma GetRequestOfEmpty()
    ensures Poll(GET_HEAD + ARRAY_TAIL) == Ok(Ready(Array(Request(Get(HELLO_TEXT))), []))
    ensures Handle(Array(Request(Get(HELLO_TEXT))), EMPTY, []) == Ok((Null, EMPTY))
  {
    RequestBytes();
    HelloIsSizedText();
    hide Encode, Decode, Ascii, Poll, Handle, Request, ValidUtf8, IsSizedPayload;
    ServeGetOfEmpty(HELLO_TEXT);
  }

  /** `*2\r\n$4\r\necho\r\n$5\r\nhello\r\n` decodes to the ECHO request, which parses to the message hello. */
  lemma EchoRequest()
    ensures Decode(ECHO_HEAD + ARRAY_TAIL) == Ok((Array(Request(Echo(HELLO_TEXT))), []))
    ensures ParseEcho(Request(Echo(HELLO_TEXT))) == Ok(Echo(HELLO_TEXT))
  {
    RequestBytes();
    HelloIsSizedText();
    EchoIsSizedText();
    hide Encode, Decode, Ascii, Request, ValidUtf8, IsSizedPayload, ParseEcho;
    var xs := [BulkString(ECHO), BulkString(HELLO_TEXT)];
    assert Encodable(xs[0]) && Encodable(xs[1]);
    assert Encodable(Array(xs));
    DecodeOfEncode(Array(xs), []);
    assert Encode(Array(xs)) + [] == Encode(Array(xs));
    EchoIsNotDispatched(HELLO_TEXT, EMPTY, []);
  }
}
