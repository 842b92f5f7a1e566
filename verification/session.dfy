/**
 The connection: the stream codec around the frame decoder, and the
 handler that turns one request frame into one reply. The codec asks for
 more bytes when the frame at the front is incomplete and ends the stream
 on any other decoding error; the handler ends it on a frame that is not
 a command.
 */
module Session {
  import opened Results
  import opened Bytes
  import opened Utf8
  import opened Frames
  import opened Encoder
  import opened Scanner
  import opened Framing
  import opened Decoder
  import opened RoundTrip
  import opened Prefixes
  import opened Commands
  import opened Executor

  /** What one call of the stream decoder yields: a frame and the bytes after it, or a request for more. */
  datatype Polled = Ready(frame: Frame, rest: seq<Byte>) | NeedMore

  /** One call of the stream decoder on the bytes received so far. */
  function Poll(buf: seq<Byte>): (r: Decoded<Polled>)
    ensures r.Ok? && r.value.Ready? ==> Consumed(buf, r.value.rest, 3)
    ensures |buf| == 0 ==> r == Ok(NeedMore)
    ensures r != Err(Incomplete)
  {
    match Decode(buf)
    case Ok(d) => Ok(Ready(d.0, d.1))
    case Err(e) => if e.Incomplete? then Ok(NeedMore) else Err(e)
  }

  /** A whole encoded frame at the front of the buffer is handed over with what follows it. */
  lemma PollOfEncode(f: Frame, rest: seq<Byte>)
    requires Encodable(f)
    ensures Poll(Encode(f) + rest) == Ok(Ready(f, rest))
  {
    DecodeOfEncode(f, rest);
  }

  /** Any strict prefix of an encoded frame makes the decoder wait for more bytes. */
  lemma PollOfPrefix(f: Frame, q: seq<Byte>)
    requires Encodable(f) && StrictPrefix(q, Encode(f))
    ensures Poll(q) == Ok(NeedMore)
  {
    PrefixIncomplete(f, q);
  }

  /**
   Repeated polls over one buffer: the frames it holds, in order, and the
   tail kept until more bytes arrive.
   */
  function Drain(buf: seq<Byte>): (r: Decoded<(seq<Frame>, seq<Byte>)>)
    ensures r.Ok? ==> Consumed(buf, r.value.1, 3 * |r.value.0|)
    ensures r.Ok? ==> Poll(r.value.1) == Ok(NeedMore)
    ensures r.Err? ==> r.error != Incomplete
    decreases |buf|
  {
    var p :- Poll(buf);
    match p
    case NeedMore => Ok(([], buf))
    case Ready(f, rest) =>
      var d :- Drain(rest);
      Ok(([f] + d.0, d.1))
  }

  /**
   Frames written back to back, followed by a tail the decoder waits on,
   are received as exactly those frames with that tail kept.
   */
  lemma {:induction false} DrainOfEncodings(fs: seq<Frame>, q: seq<Byte>)
    requires forall i :: 0 <= i < |fs| ==> Encodable(fs[i])
    requires Poll(q) == Ok(NeedMore)
    ensures Drain(EncodeItems(fs) + q) == Ok((fs, q))
    decreases |fs|
  {
    hide Decode, Encode, Poll, Consumed;
    if fs == [] {
      assert EncodeItems(fs) + q == q;
    } else {
      var tail := EncodeItems(fs[1..]) + q;
      assert EncodeItems(fs) + q == Encode(fs[0]) + tail;
      PollOfEncode(fs[0], tail);
      DrainOfEncodings(fs[1..], q);
      assert [fs[0]] + fs[1..] == fs;
    }
  }

  /** A pipeline of requests cut inside the next frame yields the whole ones and keeps the cut one. */
  lemma PipelineCut(fs: seq<Frame>, g: Frame, q: seq<Byte>)
    requires forall i :: 0 <= i < |fs| ==> Encodable(fs[i])
    requires Encodable(g) && StrictPrefix(q, Encode(g))
    ensures Drain(EncodeItems(fs) + q) == Ok((fs, q))
  {
    PollOfPrefix(g, q);
    DrainOfEncodings(fs, q);
  }

  /** HGETALL reads the hash in `order`, which must list that hash's fields. */
  predicate OrderFits(f: Frame, b: Backend, order: seq<Text>) {
    var c := ParseFrame(f);
    c.Ok? && c.value.HGetAll? && c.value.key in b.hashes ==> ListsKeys(order, b.hashes[c.value.key])
  }

  /** One request frame in, one reply frame and the updated store out. */
  function Handle(f: Frame, b: Backend, order: seq<Text>): (r: Parsed<(Frame, Backend)>)
    requires OrderFits(f, b, order)
    ensures r.Ok? <==> ParseFrame(f).Ok?
    ensures !f.Array? ==> r == Err(InvalidCommand)
    ensures r.Ok? ==> exists c :: Dispatched(c) && f == Array(Request(c)) && r.value == Execute(c, b, order)
  {
    var c :- ParseFrame(f);
    Ok(Execute(c, b, order))
  }

  /**
   A dispatched command, written as its request array and sent over the
   wire, is received, parsed back to itself and executed.
   */
  lemma Serve(c: Command, b: Backend, order: seq<Text>, rest: seq<Byte>)
    requires Dispatched(c) && Parsable(c) && Encodable(Array(Request(c)))
    requires c.HGetAll? && c.key in b.hashes ==> ListsKeys(order, b.hashes[c.key])
    ensures Poll(Encode(Array(Request(c))) + rest) == Ok(Ready(Array(Request(c)), rest))
    ensures OrderFits(Array(Request(c)), b, order)
    ensures Handle(Array(Request(c)), b, order) == Ok(Execute(c, b, order))
  {
    PollOfEncode(Array(Request(c)), rest);
    ParseOfRequest(c);
  }

  /** GET on a fresh store, sent over the wire, is received whole and answers Null. */
  lemma ServeGetOfEmpty(k: Text)
    requires ValidUtf8(k) && IsSizedPayload(k)
    ensures Poll(Encode(Array(Request(Get(k))))) == Ok(Ready(Array(Request(Get(k))), []))
    ensures Handle(Array(Request(Get(k))), EMPTY, []) == Ok((Null, EMPTY))
  {
    var f := Array(Request(Get(k)));
    assert Encodable(f) by {
      assert Request(Get(k)) == [BulkString(GET), BulkString(k)];
      assert IsSizedPayload(GET);
    }
    Serve(Get(k), EMPTY, [], []);
    assert Encode(f) + [] == Encode(f);
    GetOfEmpty(k);
  }

  /** SET with a key and no value reaches its parser and is refused for its argument count. */
  lemma SetWithoutValue(k: Text, b: Backend, order: seq<Text>)
    ensures OrderFits(Array([BulkString(SET), BulkString(k)]), b, order)
    ensures Handle(Array([BulkString(SET), BulkString(k)]), b, order) == Err(InvalidArguments)
  {
    DispatchedNamesDiffer();
  }

  /** ECHO is parsed by its own parser but is not one of the names the dispatcher knows. */
  lemma EchoIsNotDispatched(m: Text, b: Backend, order: seq<Text>)
    requires ValidUtf8(m)
    ensures ParseEcho(Request(Echo(m))) == Ok(Echo(m))
    ensures OrderFits(Array(Request(Echo(m))), b, order)
    ensures Handle(Array(Request(Echo(m))), b, order) == Err(InvalidCommand)
  {
    var arr := Request(Echo(m));
    NamesAreLower(Echo(m));
    ParseOfRequests(arr, Echo(m));
    EchoIsNotADispatchedName();
    assert arr[0] == BulkString(ECHO);
  }

  lemma EchoIsNotADispatchedName()
    ensures ECHO !in {GET, SET, HGET, HSET, HGETALL}
  {
    DispatchedNamesDiffer();
    assert ECHO[..2] == [101, 99];
  }
}
