/**
 Decoding reads back what the encoder writes: the encoding of an encodable
 frame, followed by any bytes, decodes to that frame and exactly the bytes
 that follow it.
 */
module RoundTrip {
  import opened Results
  import opened Bytes
  import opened Numbers
  import opened Utf8
  import opened Frames
  import opened ByteOrder
  import opened FrameOrder
  import opened Collections
  import opened Scanner
  import opened Encoder
  import opened Framing
  import opened Decoder
  import opened Sizing

  /** A line of text is read back as the same text. */
  lemma ReadTextOfLine(p: Byte, t: seq<Byte>, rest: seq<Byte>)
    requires IsPrefixByte(p) && IsText(t)
    ensures ReadLine(Line(p, t) + rest, p) == Ok((t, rest))
  {
    ReadLineOfLine(p, t, rest);
    LossyOfValid(t);
  }

  /** ASCII without CRLF is text. */
  lemma AsciiIsText(t: seq<Byte>)
    requires IsAscii(t) && !HasCrlf(t)
    ensures IsText(t)
  {
    AsciiIsValid(t);
  }

  /** A count or length header is not the null marker, so the null reader finds it invalid. */
  lemma HeaderIsNotNull(p: Byte, n: nat, tail: seq<Byte>)
    requires IsPrefixByte(p)
    ensures ReadFixed(Line(p, Decimal(n)) + tail, p, NULL_LENGTH).Err?
    ensures ReadFixed(Line(p, Decimal(n)) + tail, p, NULL_LENGTH).error.Invalid?
  {
    DigitsAreText(Decimal(n));
    ReadLineOfLine(p, Decimal(n), tail);
    assert Decimal(n)[0] != NULL_LENGTH[0];
  }

  /** A sized payload is its header line followed by the payload and a CRLF. */
  lemma SizedAsHeader(p: Byte, d: seq<Byte>, rest: seq<Byte>)
    ensures Sized(p, d) + rest == Line(p, Decimal(|d|)) + (d + (CRLF + rest))
  {
    hide Line, Decimal;
    Regroup(Line(p, Decimal(|d|)), d, CRLF, rest);
  }

  /** `decode` selects the reader by the first byte. */
  lemma DecodeDispatch(buf: seq<Byte>)
    requires |buf| > 0
    ensures buf[0] == PREFIX_SIMPLE_STRING ==> Decode(buf) == DecodeSimpleString(buf)
    ensures buf[0] == PREFIX_SIMPLE_ERROR ==> Decode(buf) == DecodeSimpleError(buf)
    ensures buf[0] == PREFIX_BULK_ERROR ==> Decode(buf) == DecodeBulkError(buf)
    ensures buf[0] == PREFIX_INTEGER ==> Decode(buf) == DecodeInteger(buf)
    ensures buf[0] == PREFIX_BULK_STRING ==> Decode(buf) == DecodeBulkString(buf)
    ensures buf[0] == PREFIX_NULL ==> Decode(buf) == DecodeNull(buf)
    ensures buf[0] == PREFIX_BOOLEAN ==> Decode(buf) == DecodeBoolean(buf)
    ensures buf[0] == PREFIX_DOUBLE ==> Decode(buf) == DecodeDouble(buf)
    ensures buf[0] == PREFIX_ARRAY ==> Decode(buf) == DecodeArray(buf)
    ensures buf[0] == PREFIX_MAP ==> Decode(buf) == DecodeMap(buf)
    ensures buf[0] == PREFIX_SET ==> Decode(buf) == DecodeSet(buf)
  {
    hide DecodeSimpleString, DecodeSimpleError, DecodeBulkError, DecodeInteger, DecodeBulkString,
         DecodeNull, DecodeBoolean, DecodeDouble, DecodeArray, DecodeMap, DecodeSet;
  }

  lemma DecodeOfText(f: Frame, rest: seq<Byte>)
    requires (f.SimpleString? || f.SimpleError?) && IsText(f.text)
    ensures Decode(Encode(f) + rest) == Ok((f, rest))
  {
    hide Decode, ReadLine;
    var p := Prefix(f);
    ReadTextOfLine(p, f.text, rest);
    DecodeDispatch(Encode(f) + rest);
  }

  lemma DecodeOfInteger(i: I64, rest: seq<Byte>)
    ensures Decode(Encode(Integer(i)) + rest) == Ok((Integer(i), rest))
  {
    hide Decode, ReadLine, ParseI64, IntegerText;
    var t := IntegerText(i);
    IntegerTextIsInert(i);
    AsciiIsText(t);
    ReadTextOfLine(PREFIX_INTEGER, t, rest);
    ParseIntegerText(i);
    DecodeDispatch(Encode(Integer(i)) + rest);
  }

  lemma DecodeOfBulk(f: Frame, rest: seq<Byte>)
    requires (f.BulkString? || f.BulkError?) && IsSizedPayload(f.data)
    ensures Decode(Encode(f) + rest) == Ok((f, rest))
  {
    hide Decode, ReadSized, ReadLine, ReadFixed, Sized, Line, Decimal;
    var p := Prefix(f);
    var d := f.data;
    var buf := Sized(p, d) + rest;
    ReadSizedOfSized(p, d, rest);
    SizedFront(p, d, rest);
    SizedAsHeader(p, d, rest);
    HeaderIsNotNull(p, |d|, d + (CRLF + rest));
    DecodeDispatch(buf);
  }

  lemma DecodeOfNullLine(f: Frame, rest: seq<Byte>)
    requires f.NullBulkString? || f.NullArray? || f.Null?
    ensures Decode(Encode(f) + rest) == Ok((f, rest))
  {
    hide Decode, ReadLine;
    var p := Prefix(f);
    var t: seq<Byte> := if f.Null? then [] else NULL_LENGTH;
    assert IsAscii(t) && !HasCrlf(t);
    AsciiIsText(t);
    ReadTextOfLine(p, t, rest);
    DecodeDispatch(Encode(f) + rest);
  }

  lemma DecodeOfBoolean(b: bool, rest: seq<Byte>)
    ensures Decode(Encode(Boolean(b)) + rest) == Ok((Boolean(b), rest))
  {
    hide Decode, ReadLine;
    var t := BoolText(b);
    assert IsAscii(t) && !HasCrlf(t);
    AsciiIsText(t);
    ReadTextOfLine(PREFIX_BOOLEAN, t, rest);
    DecodeDispatch(Encode(Boolean(b)) + rest);
  }

  /** A canonical double text, as `RespDouble::new` writes it, decodes to itself. */
  lemma DecodeOfDouble(t: seq<Byte>, rest: seq<Byte>)
    requires IsCanonicalDouble(t)
    ensures Decode(Encode(Double(t)) + rest) == Ok((Double(t), rest))
  {
    CanonicalIsDoubleText(t);
    hide Decode, ReadLine, IsDoubleText, IsCanonicalDouble;
    DoubleTextIsInert(t);
    AsciiIsText(t);
    ReadTextOfLine(PREFIX_DOUBLE, t, rest);
    DecodeDispatch(Encode(Double(t)) + rest);
  }

  /** An encodable frame without children decodes back from its encoding. */
  lemma DecodeOfScalar(f: Frame, rest: seq<Byte>)
    requires Encodable(f) && !f.Array? && !f.Map? && !f.Set?
    ensures Decode(Encode(f) + rest) == Ok((f, rest))
  {
    hide Decode, Encode;
    match f
    case SimpleString(_) => DecodeOfText(f, rest);
    case SimpleError(_) => DecodeOfText(f, rest);
    case BulkError(_) => DecodeOfBulk(f, rest);
    case Integer(i) => DecodeOfInteger(i, rest);
    case BulkString(_) => DecodeOfBulk(f, rest);
    case NullBulkString => DecodeOfNullLine(f, rest);
    case NullArray => DecodeOfNullLine(f, rest);
    case Null => DecodeOfNullLine(f, rest);
    case Boolean(b) => DecodeOfBoolean(b, rest);
    case Double(t) => DecodeOfDouble(t, rest);
  }

  /** The size of an array or set header followed by its encoded children. */
  lemma AggregateLengthOfItems(p: Byte, xs: seq<Frame>, rest: seq<Byte>)
    requires p == PREFIX_ARRAY || p == PREFIX_SET
    requires |xs| <= USIZE_MAX && forall i :: 0 <= i < |xs| ==> Encodable(xs[i])
    ensures AggregateLength(Line(p, Decimal(|xs|)) + (EncodeItems(xs) + rest))
         == Ok(|Line(p, Decimal(|xs|))| + |EncodeItems(xs)|)
  {
    hide CountHeader, AggregateLength, ItemsLength, ExpectLength, Encode, EncodeItems, Encodable, Line, Decimal;
    var tail := EncodeItems(xs) + rest;
    var buf := Line(p, Decimal(|xs|)) + tail;
    ReadCountOfHeader(p, |xs|, tail);
    HeaderFront(p, |xs|, tail);
    ItemsLengthOfEncode(xs, rest);
    AggregateLengthStep(buf, |xs|, |Decimal(|xs|)| + 1, |EncodeItems(xs)|);
  }

  /** The size of a map header followed by its encoded entries. */
  lemma MapLengthOfEntries(es: seq<Entry>, rest: seq<Byte>)
    requires |es| <= USIZE_MAX
    requires forall i :: 0 <= i < |es| ==> IsText(es[i].key) && Encodable(es[i].value)
    ensures MapLength(Line(PREFIX_MAP, Decimal(|es|)) + (EncodeEntries(es) + rest))
         == Ok(|Line(PREFIX_MAP, Decimal(|es|))| + |EncodeEntries(es)|)
  {
    hide CountHeader, MapLength, EntriesLength, ItemsLength, ExpectLength, Encode, EncodeEntries, Encodable, Line, Decimal;
    var tail := EncodeEntries(es) + rest;
    var buf := Line(PREFIX_MAP, Decimal(|es|)) + tail;
    ReadCountOfHeader(PREFIX_MAP, |es|, tail);
    HeaderFront(PREFIX_MAP, |es|, tail);
    EntriesLengthOfEncode(es, rest);
    MapLengthStep(buf, |es|, |Decimal(|es|)| + 1, |EncodeEntries(es)|);
  }

  /** An array whose children decode back decodes back. */
  lemma DecodeOfArray(xs: seq<Frame>, rest: seq<Byte>)
    requires Encodable(Array(xs))
    requires DecodeItems(EncodeItems(xs) + rest, |xs|) == Ok((xs, rest))
    ensures Decode(Encode(Array(xs)) + rest) == Ok((Array(xs), rest))
  {
    hide Decode, DecodeItems, ReadFixed, ReadCount, ReadLine, AggregateLength, ItemsLength, Encode, EncodeItems,
         Line, Decimal;
    var tail := EncodeItems(xs) + rest;
    var buf := Line(PREFIX_ARRAY, Decimal(|xs|)) + tail;
    EncodeOfArray(xs, rest);
    HeaderFront(PREFIX_ARRAY, |xs|, tail);
    HeaderIsNotNull(PREFIX_ARRAY, |xs|, tail);
    AggregateLengthOfItems(PREFIX_ARRAY, xs, rest);
    ReadCountOfHeader(PREFIX_ARRAY, |xs|, tail);
    DecodeDispatch(buf);
  }

  /** A set whose elements decode back, in order, decodes back. */
  lemma DecodeOfSet(xs: seq<Frame>, rest: seq<Byte>)
    requires Encodable(Set(xs))
    requires DecodeSetItems(EncodeItems(xs) + rest, |xs|, []) == Ok((xs, rest))
    ensures Decode(Encode(Set(xs)) + rest) == Ok((Set(xs), rest))
  {
    hide Decode, DecodeSetItems, ReadCount, ReadLine, AggregateLength, ItemsLength, Encode, EncodeItems,
         Line, Decimal;
    var tail := EncodeItems(xs) + rest;
    var buf := Line(PREFIX_SET, Decimal(|xs|)) + tail;
    EncodeOfSet(xs, rest);
    HeaderFront(PREFIX_SET, |xs|, tail);
    AggregateLengthOfItems(PREFIX_SET, xs, rest);
    ReadCountOfHeader(PREFIX_SET, |xs|, tail);
    DecodeDispatch(buf);
  }

  /** A map whose entries decode back, in order, decodes back. */
  lemma DecodeOfMap(es: seq<Entry>, rest: seq<Byte>)
    requires Encodable(Map(es))
    requires DecodeEntries(EncodeEntries(es) + rest, |es|, []) == Ok((es, rest))
    ensures Decode(Encode(Map(es)) + rest) == Ok((Map(es), rest))
  {
    hide Decode, DecodeEntries, ReadCount, ReadLine, MapLength, EntriesLength, Encode, EncodeEntries,
         Line, Decimal;
    var tail := EncodeEntries(es) + rest;
    var buf := Line(PREFIX_MAP, Decimal(|es|)) + tail;
    EncodeOfMap(es, rest);
    HeaderFront(PREFIX_MAP, |es|, tail);
    MapLengthOfEntries(es, rest);
    ReadCountOfHeader(PREFIX_MAP, |es|, tail);
    DecodeDispatch(buf);
  }

  lemma DecodeItemsOfNone(buf: seq<Byte>)
    ensures DecodeItems(buf, 0) == Ok(([], buf))
  {
  }

  lemma DecodeSetItemsOfNone(buf: seq<Byte>, acc: seq<Frame>)
    requires SortedFrames(acc)
    ensures DecodeSetItems(buf, 0, acc) == Ok((acc, buf))
  {
  }

  lemma DecodeEntriesOfNone(buf: seq<Byte>, acc: seq<Entry>)
    requires SortedKeys(acc)
    ensures DecodeEntries(buf, 0, acc) == Ok((acc, buf))
  {
  }

  lemma DecodeItemsStep(buf: seq<Byte>, n: nat, f: Frame, mid: seq<Byte>, fs: seq<Frame>, rest: seq<Byte>)
    requires n > 0 && Decode(buf) == Ok((f, mid))
    requires DecodeItems(mid, n - 1) == Ok((fs, rest))
    ensures DecodeItems(buf, n) == Ok(([f] + fs, rest))
  {
    hide Decode;
  }

  lemma DecodeSetItemsStep(buf: seq<Byte>, n: nat, acc: seq<Frame>, f: Frame, mid: seq<Byte>)
    requires n > 0 && SortedFrames(acc) && Decode(buf) == Ok((f, mid))
    ensures DecodeSetItems(buf, n, acc) == DecodeSetItems(mid, n - 1, SetInsert(acc, f))
  {
    hide Decode, SetInsert;
  }

  lemma DecodeEntriesStep(buf: seq<Byte>, n: nat, acc: seq<Entry>, k: seq<Byte>, mid: seq<Byte>, v: Frame,
                          tail: seq<Byte>)
    requires n > 0 && SortedKeys(acc)
    requires ReadLine(buf, PREFIX_SIMPLE_STRING) == Ok((k, mid)) && Decode(mid) == Ok((v, tail))
    ensures DecodeEntries(buf, n, acc) == DecodeEntries(tail, n - 1, MapInsert(acc, k, v))
  {
    hide Decode, ReadLine, MapInsert;
  }

  /** Splitting a sorted run after its first element of `xs`. */
  lemma SortedSplit(acc: seq<Frame>, xs: seq<Frame>)
    requires xs != [] && SortedFrames(acc + xs)
    ensures SortedFrames(acc + [xs[0]]) && AllBelow(acc, xs[0])
    ensures (acc + [xs[0]]) + xs[1..] == acc + xs
  {
    hide Less;
    var s := acc + xs;
    forall i | 0 <= i < |acc| ensures Less(acc[i], xs[0]) {
      assert acc[i] == s[i] && xs[0] == s[|acc|];
    }
    var t := acc + [xs[0]];
    forall i, j | 0 <= i < j < |t| ensures Less(t[i], t[j]) {
      assert t[i] == s[i] && t[j] == s[j];
    }
  }

  /** Splitting a key-sorted run after its first entry of `es`. */
  lemma SortedKeysSplit(acc: seq<Entry>, es: seq<Entry>)
    requires es != [] && SortedKeys(acc + es)
    ensures SortedKeys(acc + [es[0]]) && KeysBelow(acc, es[0].key)
    ensures (acc + [es[0]]) + es[1..] == acc + es
  {
    hide LessBytes;
    var s := acc + es;
    forall i | 0 <= i < |acc| ensures LessBytes(acc[i].key, es[0].key) {
      assert acc[i] == s[i] && es[0] == s[|acc|];
    }
    var t := acc + [es[0]];
    forall i, j | 0 <= i < j < |t| ensures LessBytes(t[i].key, t[j].key) {
      assert t[i] == s[i] && t[j] == s[j];
    }
  }

  /** The encoding of any encodable frame, followed by anything, decodes to the frame and the rest. */
  lemma {:induction false} DecodeOfEncode(f: Frame, rest: seq<Byte>)
    requires Encodable(f)
    ensures Decode(Encode(f) + rest) == Ok((f, rest))
    decreases f, 1
  {
    hide Decode, Encode, DecodeItems, DecodeSetItems, DecodeEntries, EncodeItems, EncodeEntries;
    match f
    case Array(xs) =>
      DecodeItemsOfEncode(xs, rest);
      DecodeOfArray(xs, rest);
    case Set(xs) =>
      DecodeSetItemsOfEncode(xs, rest, []);
      assert [] + xs == xs;
      DecodeOfSet(xs, rest);
    case Map(es) =>
      DecodeEntriesOfEncode(es, rest, []);
      assert [] + es == es;
      DecodeOfMap(es, rest);
    case _ => DecodeOfScalar(f, rest);
  }

  /** Encoded children, followed by anything, are read back one by one in order. */
  lemma {:induction false} DecodeItemsOfEncode(xs: seq<Frame>, rest: seq<Byte>)
    requires forall i :: 0 <= i < |xs| ==> Encodable(xs[i])
    ensures DecodeItems(EncodeItems(xs) + rest, |xs|) == Ok((xs, rest))
    decreases xs, 0
  {
    hide Decode, DecodeItems, Encode, EncodeItems, Encodable;
    if xs == [] {
      assert EncodeItems(xs) + rest == rest;
      DecodeItemsOfNone(rest);
    } else {
      var tail := EncodeItems(xs[1..]) + rest;
      ItemsSplit(xs, rest);
      DecodeOfEncode(xs[0], tail);
      DecodeItemsOfEncode(xs[1..], rest);
      DecodeItemsStep(EncodeItems(xs) + rest, |xs|, xs[0], tail, xs[1..], rest);
      assert [xs[0]] + xs[1..] == xs;
    }
  }

  /**
   Encoded set elements in ascending order, followed by anything, are read
   back and each lands after everything inserted before it.
   */
  lemma {:induction false} DecodeSetItemsOfEncode(xs: seq<Frame>, rest: seq<Byte>, acc: seq<Frame>)
    requires SortedFrames(acc) && SortedFrames(acc + xs)
    requires forall i :: 0 <= i < |xs| ==> Encodable(xs[i])
    ensures DecodeSetItems(EncodeItems(xs) + rest, |xs|, acc) == Ok((acc + xs, rest))
    decreases xs, 0
  {
    hide Decode, DecodeSetItems, Encode, EncodeItems, Encodable, SetInsert, SortedFrames;
    if xs == [] {
      assert EncodeItems(xs) + rest == rest;
      assert acc + xs == acc;
      DecodeSetItemsOfNone(rest, acc);
    } else {
      var tail := EncodeItems(xs[1..]) + rest;
      ItemsSplit(xs, rest);
      DecodeOfEncode(xs[0], tail);
      SortedSplit(acc, xs);
      SetInsertAbove(acc, xs[0]);
      DecodeSetItemsOfEncode(xs[1..], rest, acc + [xs[0]]);
      DecodeSetItemsStep(EncodeItems(xs) + rest, |xs|, acc, xs[0], tail);
    }
  }

  /**
   Encoded map entries in ascending key order, followed by anything, are
   read back and each lands after every entry inserted before it.
   */
  lemma {:induction false} DecodeEntriesOfEncode(es: seq<Entry>, rest: seq<Byte>, acc: seq<Entry>)
    requires SortedKeys(acc) && SortedKeys(acc + es)
    requires forall i :: 0 <= i < |es| ==> IsText(es[i].key) && Encodable(es[i].value)
    ensures DecodeEntries(EncodeEntries(es) + rest, |es|, acc) == Ok((acc + es, rest))
    decreases es, 0
  {
    hide Decode, DecodeEntries, ReadLine, Encode, EncodeEntries, Encodable, MapInsert, SortedKeys, Line;
    if es == [] {
      assert EncodeEntries(es) + rest == rest;
      assert acc + es == acc;
      DecodeEntriesOfNone(rest, acc);
    } else {
      var e := es[0];
      var value := Encode(e.value);
      var tail := EncodeEntries(es[1..]) + rest;
      EntriesSplit(es, rest);
      ReadTextOfLine(PREFIX_SIMPLE_STRING, e.key, value + tail);
      DecodeOfEncode(e.value, tail);
      SortedKeysSplit(acc, es);
      MapInsertAbove(acc, e.key, e.value);
      DecodeEntriesOfEncode(es[1..], rest, acc + [e]);
      DecodeEntriesStep(EncodeEntries(es) + rest, |es|, acc, e.key, value + tail, e.value, tail);
    }
  }

  /**
   The round trip of the encoder as the source writes it: whenever every
   bulk payload is valid UTF-8, its bytes decode back to the frame.
   */
  lemma DecodeOfEncodeAsWritten(f: Frame, rest: seq<Byte>)
    requires Encodable(f) && AllBulkUtf8(f)
    ensures Decode(EncodeAsWritten(f) + rest) == Ok((f, rest))
  {
    EncodeAsWrittenOnUtf8(f);
    DecodeOfEncode(f, rest);
  }
}
