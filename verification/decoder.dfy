/**
 The sizing oracle and the decoder. `ExpectLength` measures the frame at
 the front of a buffer without consuming it; `Decode` reads one frame and
 returns it with the bytes that follow. Both dispatch on the first byte.
 Aggregates are sized before they are read, and a buffer shorter than the
 size is reported incomplete. A `$` or `*` whose line reads `-1` is the
 null bulk string or the null array; an `Incomplete` while reading that
 line is final, any other failure falls back to the bulk string or array
 reader.
 */
module Decoder {
  import opened Results
  import opened Bytes
  import opened Numbers
  import opened Frames
  import opened Collections
  import opened Scanner
  import opened Encoder

  predicate IsLinePrefix(p: Byte) {
    p == PREFIX_SIMPLE_STRING || p == PREFIX_SIMPLE_ERROR || p == PREFIX_INTEGER
    || p == PREFIX_NULL || p == PREFIX_BOOLEAN || p == PREFIX_DOUBLE
  }

  /** The size of the frame at the front of `buf`. */
  function ExpectLength(buf: seq<Byte>): (r: Decoded<nat>)
    ensures r.Ok? ==> 3 <= r.value <= |buf|
    ensures |buf| < 3 ==> r == Err(Incomplete)
    ensures |buf| >= 3 && !IsPrefixByte(buf[0]) ==> r.Err? && r.error.InvalidFrameType?
    decreases |buf|, 1, 0
  {
    if |buf| < 3 then Err(Incomplete)
    else
      var p := buf[0];
      if IsLinePrefix(p) then LineLength(buf)
      else if p == PREFIX_BULK_ERROR then SizedLength(buf)
      else if p == PREFIX_BULK_STRING then
        if buf[1..3] == NULL_LENGTH then LineLength(buf) else SizedLength(buf)
      else if p == PREFIX_ARRAY then
        if buf[1..3] == NULL_LENGTH then LineLength(buf) else AggregateLength(buf)
      else if p == PREFIX_MAP then MapLength(buf)
      else if p == PREFIX_SET then AggregateLength(buf)
      else Err(InvalidFrameType("unknown prefix"))
  }

  /** The size of an array or set: its header and `n` frames. */
  function AggregateLength(buf: seq<Byte>): (r: Decoded<nat>)
    requires |buf| > 0 && buf[0] != CR
    ensures r.Ok? ==> 3 <= r.value <= |buf|
    decreases |buf|, 0, 0
  {
    var (n, e) :- CountHeader(buf);
    var total :- ItemsLength(buf[e + 2..], n);
    Ok(e + 2 + total)
  }

  /** The size of a map: its header and `n` key frames each followed by a value frame. */
  function MapLength(buf: seq<Byte>): (r: Decoded<nat>)
    requires |buf| > 0 && buf[0] != CR
    ensures r.Ok? ==> 3 <= r.value <= |buf|
    decreases |buf|, 0, 0
  {
    var (n, e) :- CountHeader(buf);
    var total :- EntriesLength(buf[e + 2..], n);
    Ok(e + 2 + total)
  }

  /** The total size of `n` consecutive frames. */
  function ItemsLength(buf: seq<Byte>, n: nat): (r: Decoded<nat>)
    ensures r.Ok? ==> 3 * n <= r.value <= |buf|
    decreases |buf|, 2, n
  {
    if n == 0 then Ok(0)
    else
      var len :- ExpectLength(buf);
      var more :- ItemsLength(buf[len..], n - 1);
      Ok(len + more)
  }

  /**
   The total size of `n` consecutive key and value frames: each entry's key
   is sized, then its value, then the next entry, which is sizing `2 * n`
   frames in turn.
   */
  function EntriesLength(buf: seq<Byte>, n: nat): (r: Decoded<nat>)
    ensures r.Ok? ==> 6 * n <= r.value <= |buf|
    decreases |buf|, 3, 0
  {
    ItemsLength(buf, 2 * n)
  }

  /** Reads the frame at the front of `buf` and returns it with the bytes that follow. */
  function Decode(buf: seq<Byte>): (r: Decoded<(Frame, seq<Byte>)>)
    ensures r.Ok? ==> Consumed(buf, r.value.1, 3)
    ensures |buf| == 0 ==> r == Err(Incomplete)
    ensures |buf| > 0 && !IsPrefixByte(buf[0]) ==> r.Err? && r.error.InvalidFrameType?
    decreases |buf|, 1, 0
  {
    if |buf| == 0 then Err(Incomplete)
    else
      var p := buf[0];
      if p == PREFIX_SIMPLE_STRING then DecodeSimpleString(buf)
      else if p == PREFIX_SIMPLE_ERROR then DecodeSimpleError(buf)
      else if p == PREFIX_BULK_ERROR then DecodeBulkError(buf)
      else if p == PREFIX_INTEGER then DecodeInteger(buf)
      else if p == PREFIX_BULK_STRING then DecodeBulkString(buf)
      else if p == PREFIX_NULL then DecodeNull(buf)
      else if p == PREFIX_BOOLEAN then DecodeBoolean(buf)
      else if p == PREFIX_DOUBLE then DecodeDouble(buf)
      else if p == PREFIX_ARRAY then DecodeArray(buf)
      else if p == PREFIX_MAP then DecodeMap(buf)
      else if p == PREFIX_SET then DecodeSet(buf)
      else Err(InvalidFrameType("unknown prefix"))
  }

  function DecodeSimpleString(buf: seq<Byte>): (r: Decoded<(Frame, seq<Byte>)>)
    ensures r.Ok? ==> Consumed(buf, r.value.1, 3) && r.value.0.SimpleString?
  {
    var (t, rest) :- ReadLine(buf, PREFIX_SIMPLE_STRING);
    Ok((SimpleString(t), rest))
  }

  function DecodeSimpleError(buf: seq<Byte>): (r: Decoded<(Frame, seq<Byte>)>)
    ensures r.Ok? ==> Consumed(buf, r.value.1, 3) && r.value.0.SimpleError?
  {
    var (t, rest) :- ReadLine(buf, PREFIX_SIMPLE_ERROR);
    Ok((SimpleError(t), rest))
  }

  function DecodeBulkError(buf: seq<Byte>): (r: Decoded<(Frame, seq<Byte>)>)
    ensures r.Ok? ==> Consumed(buf, r.value.1, 3) && r.value.0.BulkError?
  {
    var (d, rest) :- ReadSized(buf, PREFIX_BULK_ERROR);
    Ok((BulkError(d), rest))
  }

  function DecodeInteger(buf: seq<Byte>): (r: Decoded<(Frame, seq<Byte>)>)
    ensures r.Ok? ==> Consumed(buf, r.value.1, 3) && r.value.0.Integer?
  {
    var (t, rest) :- ReadLine(buf, PREFIX_INTEGER);
    match ParseI64(t)
    case None => Err(Invalid("not an integer"))
    case Some(i) => Ok((Integer(i), rest))
  }

  /** `$-1` is the null bulk string; any other complete line falls back to the bulk string reader. */
  function DecodeBulkString(buf: seq<Byte>): (r: Decoded<(Frame, seq<Byte>)>)
    ensures r.Ok? ==> Consumed(buf, r.value.1, 3) && (r.value.0.BulkString? || r.value.0.NullBulkString?)
  {
    match ReadFixed(buf, PREFIX_BULK_STRING, NULL_LENGTH)
    case Ok(rest) => Ok((NullBulkString, rest))
    case Err(e) =>
      if e == Incomplete then Err(Incomplete)
      else
        var (d, rest) :- ReadSized(buf, PREFIX_BULK_STRING);
        Ok((BulkString(d), rest))
  }

  function DecodeNull(buf: seq<Byte>): (r: Decoded<(Frame, seq<Byte>)>)
    ensures r.Ok? ==> Consumed(buf, r.value.1, 3) && r.value.0.Null?
  {
    var rest :- ReadFixed(buf, PREFIX_NULL, []);
    Ok((Null, rest))
  }

  function DecodeBoolean(buf: seq<Byte>): (r: Decoded<(Frame, seq<Byte>)>)
    ensures r.Ok? ==> Consumed(buf, r.value.1, 3) && r.value.0.Boolean?
  {
    var (t, rest) :- ReadLine(buf, PREFIX_BOOLEAN);
    if t == TRUE_TEXT then Ok((Boolean(true), rest))
    else if t == FALSE_TEXT then Ok((Boolean(false), rest))
    else Err(Invalid("not a boolean"))
  }

  function DecodeDouble(buf: seq<Byte>): (r: Decoded<(Frame, seq<Byte>)>)
    ensures r.Ok? ==> Consumed(buf, r.value.1, 3) && r.value.0.Double?
  {
    var (t, rest) :- ReadLine(buf, PREFIX_DOUBLE);
    if IsDoubleText(t) then Ok((Double(t), rest)) else Err(Invalid("not a double"))
  }

  /** `*-1` is the null array; any other complete line falls back to the array reader. */
  function DecodeArray(buf: seq<Byte>): (r: Decoded<(Frame, seq<Byte>)>)
    requires |buf| > 0 && buf[0] == PREFIX_ARRAY
    ensures r.Ok? ==> Consumed(buf, r.value.1, 3) && (r.value.0.Array? || r.value.0.NullArray?)
    decreases |buf|, 0, 0
  {
    match ReadFixed(buf, PREFIX_ARRAY, NULL_LENGTH)
    case Ok(rest) => Ok((NullArray, rest))
    case Err(e) =>
      if e == Incomplete then Err(Incomplete)
      else
        var total :- AggregateLength(buf);
        if |buf| < total then Err(Incomplete)
        else
          var (n, rest) :- ReadCount(buf, PREFIX_ARRAY);
          var (items, rest') :- DecodeItems(rest, n);
          Ok((Array(items), rest'))
  }

  function DecodeMap(buf: seq<Byte>): (r: Decoded<(Frame, seq<Byte>)>)
    requires |buf| > 0 && buf[0] == PREFIX_MAP
    ensures r.Ok? ==> Consumed(buf, r.value.1, 3) && r.value.0.Map?
    decreases |buf|, 0, 0
  {
    var total :- MapLength(buf);
    if |buf| < total then Err(Incomplete)
    else
      var (n, rest) :- ReadCount(buf, PREFIX_MAP);
      var (entries, rest') :- DecodeEntries(rest, n, []);
      Ok((Map(entries), rest'))
  }

  function DecodeSet(buf: seq<Byte>): (r: Decoded<(Frame, seq<Byte>)>)
    requires |buf| > 0 && buf[0] == PREFIX_SET
    ensures r.Ok? ==> Consumed(buf, r.value.1, 3) && r.value.0.Set?
    decreases |buf|, 0, 0
  {
    var total :- AggregateLength(buf);
    if |buf| < total then Err(Incomplete)
    else
      var (n, rest) :- ReadCount(buf, PREFIX_SET);
      var (elems, rest') :- DecodeSetItems(rest, n, []);
      Ok((Set(elems), rest'))
  }

  /** Reads `n` frames in order. */
  function DecodeItems(buf: seq<Byte>, n: nat): (r: Decoded<(seq<Frame>, seq<Byte>)>)
    ensures r.Ok? ==> |r.value.0| == n && Consumed(buf, r.value.1, 3 * n)
    decreases |buf|, 2, n
  {
    if n == 0 then Ok(([], buf))
    else
      var (f, rest) :- Decode(buf);
      var (fs, rest') :- DecodeItems(rest, n - 1);
      Ok(([f] + fs, rest'))
  }

  /** Reads `n` frames and inserts each into the ordered set `acc`. */
  function DecodeSetItems(buf: seq<Byte>, n: nat, acc: seq<Frame>): (r: Decoded<(seq<Frame>, seq<Byte>)>)
    requires SortedFrames(acc)
    ensures r.Ok? ==> SortedFrames(r.value.0) && Consumed(buf, r.value.1, 3 * n)
    ensures r.Ok? ==> |acc| <= |r.value.0| <= |acc| + n
    decreases |buf|, 2, n
  {
    if n == 0 then Ok((acc, buf))
    else
      var (f, rest) :- Decode(buf);
      DecodeSetItems(rest, n - 1, SetInsert(acc, f))
  }

  /** Reads `n` simple-string keys each followed by a value, inserting each pair into `acc`. */
  function DecodeEntries(buf: seq<Byte>, n: nat, acc: seq<Entry>): (r: Decoded<(seq<Entry>, seq<Byte>)>)
    requires SortedKeys(acc)
    ensures r.Ok? ==> SortedKeys(r.value.0) && Consumed(buf, r.value.1, 6 * n)
    ensures r.Ok? ==> |acc| <= |r.value.0| <= |acc| + n
    decreases |buf|, 2, n
  {
    if n == 0 then Ok((acc, buf))
    else
      var (k, rest) :- ReadLine(buf, PREFIX_SIMPLE_STRING);
      var (v, rest') :- Decode(rest);
      DecodeEntries(rest', n - 1, MapInsert(acc, k, v))
  }
}
