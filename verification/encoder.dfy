/**
 The encoder: every frame is written as its prefix byte, a payload and
 CRLF; sized payloads carry a decimal byte count; aggregates carry an
 element count followed by their children's encodings. The predicate
 `Encodable` collects the conditions under which decoding gives the frame
 back.
 */
module Encoder {
  import opened Bytes
  import opened Numbers
  import opened Utf8
  import opened Frames
  import opened Collections

  const TRUE_TEXT: seq<Byte> := [116]   // "t"
  const FALSE_TEXT: seq<Byte> := [102]  // "f"

  /** An encoding: a prefix byte, at least one more byte, and a final CRLF. */
  predicate Framed(r: seq<Byte>, prefix: Byte) {
    |r| >= 3 && r[0] == prefix && r[|r| - 2..] == CRLF
  }

  /** `<prefix><payload>\r\n` */
  function Line(prefix: Byte, payload: seq<Byte>): (r: seq<Byte>)
    ensures |r| == |payload| + 3 && Framed(r, prefix)
  {
    [prefix] + payload + CRLF
  }

  /** `<prefix><byte count>\r\n<data>\r\n` */
  function Sized(prefix: Byte, data: seq<Byte>): (r: seq<Byte>)
    ensures |r| == |Decimal(|data|)| + |data| + 5 && Framed(r, prefix)
  {
    Line(prefix, Decimal(|data|)) + data + CRLF
  }

  function BoolText(b: bool): seq<Byte> {
    if b then TRUE_TEXT else FALSE_TEXT
  }

  /** `<prefix><count>\r\n<children>`, where the children are empty or end in CRLF. */
  function Aggregate(prefix: Byte, count: nat, children: seq<Byte>): (r: seq<Byte>)
    requires children == [] || (|children| >= 2 && children[|children| - 2..] == CRLF)
    ensures Framed(r, prefix)
  {
    var r := Line(prefix, Decimal(count)) + children;
    assert children != [] ==> r[|r| - 2..] == children[|children| - 2..];
    r
  }

  /** `RespEncoder::encode` for every variant. */
  function Encode(f: Frame): (r: seq<Byte>)
    ensures Framed(r, Prefix(f))
  {
    match f
    case Array(xs) => Aggregate(PREFIX_ARRAY, |xs|, EncodeItems(xs))
    case Map(es) => Aggregate(PREFIX_MAP, |es|, EncodeEntries(es))
    case Set(xs) => Aggregate(PREFIX_SET, |xs|, EncodeItems(xs))
    case _ => EncodeScalar(f)
  }

  /** The variants without children: one line, or a sized payload. */
  function EncodeScalar(f: Frame): (r: seq<Byte>)
    requires !f.Array? && !f.Map? && !f.Set?
    ensures Framed(r, Prefix(f))
  {
    match f
    case SimpleString(t) => Line(PREFIX_SIMPLE_STRING, t)
    case SimpleError(t) => Line(PREFIX_SIMPLE_ERROR, t)
    case BulkError(d) => Sized(PREFIX_BULK_ERROR, d)
    case Integer(i) => Line(PREFIX_INTEGER, IntegerText(i))
    case BulkString(d) => Sized(PREFIX_BULK_STRING, d)
    case NullBulkString => Line(PREFIX_BULK_STRING, NULL_LENGTH)
    case NullArray => Line(PREFIX_ARRAY, NULL_LENGTH)
    case Null => Line(PREFIX_NULL, [])
    case Boolean(b) => Line(PREFIX_BOOLEAN, BoolText(b))
    case Double(t) => Line(PREFIX_DOUBLE, t)
  }

  /** The children of an array or set, one encoding after another. */
  function EncodeItems(xs: seq<Frame>): (r: seq<Byte>)
    ensures |r| >= 3 * |xs|
    ensures xs == [] ==> r == []
    ensures xs != [] ==> r[|r| - 2..] == CRLF
  {
    if xs == [] then []
    else
      var r := Encode(xs[0]) + EncodeItems(xs[1..]);
      assert xs[1..] == [] ==> r == Encode(xs[0]);
      r
  }

  /** The entries of a map: each key as a simple string, then its value. */
  function EncodeEntries(es: seq<Entry>): (r: seq<Byte>)
    ensures |r| >= 6 * |es|
    ensures es == [] ==> r == []
    ensures es != [] ==> r[|r| - 2..] == CRLF
  {
    if es == [] then []
    else
      var r := Line(PREFIX_SIMPLE_STRING, es[0].key) + Encode(es[0].value) + EncodeEntries(es[1..]);
      assert es[1..] == [] ==> r == Line(PREFIX_SIMPLE_STRING, es[0].key) + Encode(es[0].value);
      r
  }

  /** Text that survives a line: valid UTF-8 and no CRLF. */
  predicate IsText(t: seq<Byte>) {
    ValidUtf8(t) && !HasCrlf(t)
  }

  /** A sized payload: no CRLF, and a length a `usize` can hold. */
  predicate IsSizedPayload(d: seq<Byte>) {
    !HasCrlf(d) && |d| <= USIZE_MAX
  }

  /**
   The frames that decode back to themselves: texts, map keys and bulk
   payloads are free of CRLF; texts and keys are valid UTF-8 (they are
   Rust strings); a double is a canonical text, one `RespDouble::new`
   writes and the decoder gives back unchanged; maps are in
   strictly ascending key order and sets in strictly ascending frame
   order, as their ordered containers hold them.
   */
  predicate Encodable(f: Frame) {
    match f
    case SimpleString(t) => IsText(t)
    case SimpleError(t) => IsText(t)
    case BulkError(d) => IsSizedPayload(d)
    case BulkString(d) => IsSizedPayload(d)
    case Double(t) => IsCanonicalDouble(t)
    case Array(xs) => |xs| <= USIZE_MAX && forall i :: 0 <= i < |xs| ==> Encodable(xs[i])
    case Map(es) =>
      |es| <= USIZE_MAX && SortedKeys(es) &&
      forall i :: 0 <= i < |es| ==> IsText(es[i].key) && Encodable(es[i].value)
    case Set(xs) =>
      |xs| <= USIZE_MAX && SortedFrames(xs) && forall i :: 0 <= i < |xs| ==> Encodable(xs[i])
    case _ => true
  }

  /**
   The bulk encoder as the source writes it: the header counts the raw
   bytes but the payload is the lossy UTF-8 conversion of them.
   */
  function SizedAsWritten(prefix: Byte, data: seq<Byte>): seq<Byte> {
    Line(prefix, Decimal(|data|)) + Lossy(data) + CRLF
  }

  /** On valid UTF-8 payloads the written and the corrected bulk encoders agree. */
  lemma SizedAsWrittenOnUtf8(prefix: Byte, data: seq<Byte>)
    ensures SizedAsWritten(prefix, data) == Sized(prefix, data) <==> ValidUtf8(data)
  {
    LossyFixesExactlyValid(data);
    var h := Line(prefix, Decimal(|data|));
    if SizedAsWritten(prefix, data) == Sized(prefix, data) {
      assert Lossy(data) == SizedAsWritten(prefix, data)[|h|..|SizedAsWritten(prefix, data)| - 2];
      assert data == Sized(prefix, data)[|h|..|Sized(prefix, data)| - 2];
    }
  }

  /** Every bulk payload in the frame, at any depth, is valid UTF-8. */
  predicate AllBulkUtf8(f: Frame) {
    match f
    case BulkError(d) => ValidUtf8(d)
    case BulkString(d) => ValidUtf8(d)
    case Array(xs) => forall i :: 0 <= i < |xs| ==> AllBulkUtf8(xs[i])
    case Map(es) => forall i :: 0 <= i < |es| ==> AllBulkUtf8(es[i].value)
    case Set(xs) => forall i :: 0 <= i < |xs| ==> AllBulkUtf8(xs[i])
    case _ => true
  }

  /** The whole encoder as the source writes it: bulk payloads, at any depth, go through the lossy conversion. */
  function EncodeAsWritten(f: Frame): seq<Byte> {
    match f
    case BulkError(d) => SizedAsWritten(PREFIX_BULK_ERROR, d)
    case BulkString(d) => SizedAsWritten(PREFIX_BULK_STRING, d)
    case Array(xs) => Line(PREFIX_ARRAY, Decimal(|xs|)) + EncodeItemsAsWritten(xs)
    case Map(es) => Line(PREFIX_MAP, Decimal(|es|)) + EncodeEntriesAsWritten(es)
    case Set(xs) => Line(PREFIX_SET, Decimal(|xs|)) + EncodeItemsAsWritten(xs)
    case _ => EncodeScalar(f)
  }

  function EncodeItemsAsWritten(xs: seq<Frame>): seq<Byte> {
    if xs == [] then [] else EncodeAsWritten(xs[0]) + EncodeItemsAsWritten(xs[1..])
  }

  function EncodeEntriesAsWritten(es: seq<Entry>): seq<Byte> {
    if es == [] then []
    else Line(PREFIX_SIMPLE_STRING, es[0].key) + EncodeAsWritten(es[0].value) + EncodeEntriesAsWritten(es[1..])
  }

  /**
   On frames whose bulk payloads are all valid UTF-8 the encoder as
   written and the corrected one write the same bytes, so every law about
   `Encode` holds of the program as written on those frames.
   */
  lemma {:induction false} EncodeAsWrittenOnUtf8(f: Frame)
    requires AllBulkUtf8(f)
    ensures EncodeAsWritten(f) == Encode(f)
  {
    match f
    case BulkError(d) => SizedAsWrittenOnUtf8(PREFIX_BULK_ERROR, d);
    case BulkString(d) => SizedAsWrittenOnUtf8(PREFIX_BULK_STRING, d);
    case Array(xs) => ItemsAsWrittenOnUtf8(xs);
    case Map(es) => EntriesAsWrittenOnUtf8(es);
    case Set(xs) => ItemsAsWrittenOnUtf8(xs);
    case _ =>
  }

  lemma {:induction false} ItemsAsWrittenOnUtf8(xs: seq<Frame>)
    requires forall i :: 0 <= i < |xs| ==> AllBulkUtf8(xs[i])
    ensures EncodeItemsAsWritten(xs) == EncodeItems(xs)
  {
    if xs != [] {
      EncodeAsWrittenOnUtf8(xs[0]);
      ItemsAsWrittenOnUtf8(xs[1..]);
    }
  }

  lemma {:induction false} EntriesAsWrittenOnUtf8(es: seq<Entry>)
    requires forall i :: 0 <= i < |es| ==> AllBulkUtf8(es[i].value)
    ensures EncodeEntriesAsWritten(es) == EncodeEntries(es)
  {
    if es != [] {
      EncodeAsWrittenOnUtf8(es[0].value);
      EntriesAsWrittenOnUtf8(es[1..]);
    }
  }
}
