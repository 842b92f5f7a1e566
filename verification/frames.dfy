/**
 The RESP frame model: the thirteen frame variants, the codec's error kinds,
 the one-byte prefix of every variant, and the conversions into frames.
 */
module Frames {
  import opened Results
  import opened Bytes
  import opened Numbers

  /** Why a decode or a sizing did not produce a frame. */
  datatype RespError =
    | Incomplete
    | Invalid(detail: string)
    | InvalidFrameLength
    | InvalidFrameType(detail: string)

  type Decoded<T> = Result<T, RespError>

  /** One entry of a map frame: a simple-string key and any frame as value. */
  datatype Entry = Entry(key: seq<Byte>, value: Frame)

  /**
   A RESP2/RESP3 frame. Text payloads are the UTF-8 bytes of the text; a
   double is held as its rendered text; a map is a sequence of entries in
   ascending key order and a set a sequence of frames in ascending frame
   order, as their ordered containers iterate them.
   */
  datatype Frame =
    | SimpleString(text: seq<Byte>)
    | SimpleError(text: seq<Byte>)
    | BulkError(data: seq<Byte>)
    | Integer(value: I64)
    | BulkString(data: seq<Byte>)
    | NullBulkString
    | Array(items: seq<Frame>)
    | NullArray
    | Null
    | Boolean(flag: bool)
    | Double(text: seq<Byte>)
    | Map(entries: seq<Entry>)
    | Set(elems: seq<Frame>)

  const PREFIX_SIMPLE_STRING: Byte := 43  // '+'
  const PREFIX_SIMPLE_ERROR: Byte := 45   // '-'
  const PREFIX_BULK_ERROR: Byte := 33     // '!'
  const PREFIX_INTEGER: Byte := 58        // ':'
  const PREFIX_BULK_STRING: Byte := 36    // '$'
  const PREFIX_ARRAY: Byte := 42          // '*'
  const PREFIX_NULL: Byte := 95           // '_'
  const PREFIX_BOOLEAN: Byte := 35        // '#'
  const PREFIX_DOUBLE: Byte := 44         // ','
  const PREFIX_MAP: Byte := 37            // '%'
  const PREFIX_SET: Byte := 126           // '~'

  /** The payload that marks the null bulk string and the null array. */
  const NULL_LENGTH: seq<Byte> := [MINUS, ZERO + 1]  // "-1"

  /** Position of the variant in declaration order; the first key of the frame order. */
  function Tag(f: Frame): nat {
    match f
    case SimpleString(_) => 0
    case SimpleError(_) => 1
    case BulkError(_) => 2
    case Integer(_) => 3
    case BulkString(_) => 4
    case NullBulkString => 5
    case Array(_) => 6
    case NullArray => 7
    case Null => 8
    case Boolean(_) => 9
    case Double(_) => 10
    case Map(_) => 11
    case Set(_) => 12
  }

  /** The prefix byte a frame is written with and dispatched on. */
  function Prefix(f: Frame): Byte {
    match f
    case SimpleString(_) => PREFIX_SIMPLE_STRING
    case SimpleError(_) => PREFIX_SIMPLE_ERROR
    case BulkError(_) => PREFIX_BULK_ERROR
    case Integer(_) => PREFIX_INTEGER
    case BulkString(_) => PREFIX_BULK_STRING
    case NullBulkString => PREFIX_BULK_STRING
    case Array(_) => PREFIX_ARRAY
    case NullArray => PREFIX_ARRAY
    case Null => PREFIX_NULL
    case Boolean(_) => PREFIX_BOOLEAN
    case Double(_) => PREFIX_DOUBLE
    case Map(_) => PREFIX_MAP
    case Set(_) => PREFIX_SET
  }

  predicate IsPrefixByte(b: Byte) {
    b in {PREFIX_SIMPLE_STRING, PREFIX_SIMPLE_ERROR, PREFIX_BULK_ERROR, PREFIX_INTEGER,
          PREFIX_BULK_STRING, PREFIX_ARRAY, PREFIX_NULL, PREFIX_BOOLEAN, PREFIX_DOUBLE,
          PREFIX_MAP, PREFIX_SET}
  }

  /** Every variant is written with one of the eleven prefix bytes, none of them CR. */
  lemma PrefixIsKnown(f: Frame)
    ensures IsPrefixByte(Prefix(f)) && Prefix(f) != CR
  {
  }
}
