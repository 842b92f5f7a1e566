/**
 The sizing oracle agrees with the encoder: the size it reports for an
 encoded frame followed by anything is exactly the encoding's length.
 */
module Sizing {
  import opened Results
  import opened Bytes
  import opened Numbers
  import opened Utf8
  import opened Frames
  import opened Scanner
  import opened Encoder
  import opened Framing
  import opened Decoder

  /** The front of a count header followed by `tail`: its prefix, and digits where `-1` would be. */
  lemma HeaderFront(p: Byte, n: nat, tail: seq<Byte>)
    ensures var buf := Line(p, Decimal(n)) + tail;
      |buf| >= 3 && buf[0] == p && buf[1..3] != NULL_LENGTH && buf[|Decimal(n)| + 3..] == tail
  {
    var buf := Line(p, Decimal(n)) + tail;
    assert buf[1] == Decimal(n)[0];
    LineParts(p, Decimal(n), tail);
  }

  /** The front of a sized payload followed by `rest`: its prefix, and digits where `-1` would be. */
  lemma SizedFront(p: Byte, d: seq<Byte>, rest: seq<Byte>)
    ensures var buf := Sized(p, d) + rest;
      |buf| >= 3 && buf[0] == p && buf[1..3] != NULL_LENGTH
  {
    var tail := d + CRLF + rest;
    assert Sized(p, d) + rest == Line(p, Decimal(|d|)) + tail;
    HeaderFront(p, |d|, tail);
  }

  lemma AggregateLengthStep(buf: seq<Byte>, n: nat, e: nat, total: nat)
    requires |buf| > 0 && buf[0] != CR
    requires CountHeader(buf) == Ok((n, e))
    requires ItemsLength(buf[e + 2..], n) == Ok(total)
    ensures AggregateLength(buf) == Ok(e + 2 + total)
  {
    hide CountHeader, ItemsLength;
  }

  lemma MapLengthStep(buf: seq<Byte>, n: nat, e: nat, total: nat)
    requires |buf| > 0 && buf[0] != CR
    requires CountHeader(buf) == Ok((n, e))
    requires EntriesLength(buf[e + 2..], n) == Ok(total)
    ensures MapLength(buf) == Ok(e + 2 + total)
  {
    hide CountHeader, EntriesLength;
  }

  lemma ItemsLengthStep(buf: seq<Byte>, n: nat, len: nat, more: nat)
    requires n > 0 && ExpectLength(buf) == Ok(len)
    requires ItemsLength(buf[len..], n - 1) == Ok(more)
    ensures ItemsLength(buf, n) == Ok(len + more)
  {
    hide ExpectLength;
  }

  lemma ItemsLengthOfNone(buf: seq<Byte>)
    ensures ItemsLength(buf, 0) == Ok(0)
  {
  }

  lemma ExpectLengthOfLine(p: Byte, t: seq<Byte>, rest: seq<Byte>)
    requires IsLinePrefix(p) && !HasCrlf(t)
    ensures ExpectLength(Line(p, t) + rest) == Ok(|t| + 3)
    ensures ExpectLength(Line(p, t) + rest) == Ok(|Line(p, t)|)
  {
    ReadLineOfLine(p, t, rest);
    assert (Line(p, t) + rest)[0] == p;
  }

  lemma ExpectLengthOfSized(p: Byte, d: seq<Byte>, rest: seq<Byte>)
    requires p == PREFIX_BULK_STRING || p == PREFIX_BULK_ERROR
    requires IsSizedPayload(d)
    ensures ExpectLength(Sized(p, d) + rest) == Ok(|Sized(p, d)|)
  {
    hide ReadSized, ReadLine;
    ReadSizedOfSized(p, d, rest);
    SizedFront(p, d, rest);
  }

  lemma ExpectLengthOfNull(p: Byte, rest: seq<Byte>)
    requires p == PREFIX_BULK_STRING || p == PREFIX_ARRAY
    ensures ExpectLength(Line(p, NULL_LENGTH) + rest) == Ok(5)
  {
    ReadLineOfLine(p, NULL_LENGTH, rest);
    var buf := Line(p, NULL_LENGTH) + rest;
    assert buf[0] == p && buf[1..3] == NULL_LENGTH;
  }

  /** An aggregate header followed by correctly sized children. */
  lemma ExpectLengthOfAggregate(p: Byte, n: nat, tail: seq<Byte>, total: nat)
    requires p == PREFIX_ARRAY || p == PREFIX_SET || p == PREFIX_MAP
    requires n <= USIZE_MAX
    requires p != PREFIX_MAP ==> ItemsLength(tail, n) == Ok(total)
    requires p == PREFIX_MAP ==> EntriesLength(tail, n) == Ok(total)
    ensures ExpectLength(Line(p, Decimal(n)) + tail) == Ok(|Line(p, Decimal(n))| + total)
  {
    hide CountHeader, AggregateLength, MapLength, ItemsLength, EntriesLength, LineLength, SizedLength, ReadCount, ReadLine;
    var buf := Line(p, Decimal(n)) + tail;
    HeaderFront(p, n, tail);
    ReadCountOfHeader(p, n, tail);
    if p == PREFIX_MAP {
      MapLengthStep(buf, n, |Decimal(n)| + 1, total);
    } else {
      AggregateLengthStep(buf, n, |Decimal(n)| + 1, total);
    }
  }

  /** An encodable frame that is not an aggregate is sized as its encoding. */
  lemma ExpectLengthOfScalar(f: Frame, rest: seq<Byte>)
    requires Encodable(f) && !f.Array? && !f.Map? && !f.Set?
    ensures ExpectLength(Encode(f) + rest) == Ok(|Encode(f)|)
  {
    hide ExpectLength, ItemsLength, EntriesLength;
    match f
    case SimpleString(t) => ExpectLengthOfLine(PREFIX_SIMPLE_STRING, t, rest);
    case SimpleError(t) => ExpectLengthOfLine(PREFIX_SIMPLE_ERROR, t, rest);
    case BulkError(d) => ExpectLengthOfSized(PREFIX_BULK_ERROR, d, rest);
    case Integer(i) =>
      IntegerTextIsInert(i);
      ExpectLengthOfLine(PREFIX_INTEGER, IntegerText(i), rest);
    case BulkString(d) => ExpectLengthOfSized(PREFIX_BULK_STRING, d, rest);
    case NullBulkString => ExpectLengthOfNull(PREFIX_BULK_STRING, rest);
    case NullArray => ExpectLengthOfNull(PREFIX_ARRAY, rest);
    case Null =>
      assert !HasCrlf([]);
      ExpectLengthOfLine(PREFIX_NULL, [], rest);
    case Boolean(b) =>
      assert !HasCrlf(BoolText(b));
      ExpectLengthOfLine(PREFIX_BOOLEAN, BoolText(b), rest);
    case Double(t) =>
      CanonicalIsDoubleText(t);
      DoubleTextIsInert(t);
      ExpectLengthOfLine(PREFIX_DOUBLE, t, rest);
  }

  /** The encoding of an array: its count header, then its items. */
  lemma EncodeOfArray(xs: seq<Frame>, rest: seq<Byte>)
    ensures Encode(Array(xs)) + rest == Line(PREFIX_ARRAY, Decimal(|xs|)) + (EncodeItems(xs) + rest)
    ensures |Encode(Array(xs))| == |Line(PREFIX_ARRAY, Decimal(|xs|))| + |EncodeItems(xs)|
  {
    hide EncodeItems, EncodeEntries, Line, Decimal;
  }

  /** The encoding of a set: its count header, then its elements. */
  lemma EncodeOfSet(xs: seq<Frame>, rest: seq<Byte>)
    ensures Encode(Set(xs)) + rest == Line(PREFIX_SET, Decimal(|xs|)) + (EncodeItems(xs) + rest)
    ensures |Encode(Set(xs))| == |Line(PREFIX_SET, Decimal(|xs|))| + |EncodeItems(xs)|
  {
    hide EncodeItems, EncodeEntries, Line, Decimal;
  }

  /** The encoding of a map: its count header, then its entries. */
  lemma EncodeOfMap(es: seq<Entry>, rest: seq<Byte>)
    ensures Encode(Map(es)) + rest == Line(PREFIX_MAP, Decimal(|es|)) + (EncodeEntries(es) + rest)
    ensures |Encode(Map(es))| == |Line(PREFIX_MAP, Decimal(|es|))| + |EncodeEntries(es)|
  {
    hide EncodeItems, EncodeEntries, Line, Decimal;
  }

  /** An array or set whose children are sized as their encodings is sized as its encoding. */
  lemma ExpectLengthOfItems(f: Frame, xs: seq<Frame>, rest: seq<Byte>)
    requires f == Array(xs) || f == Set(xs)
    requires |xs| <= USIZE_MAX
    requires ItemsLength(EncodeItems(xs) + rest, |xs|) == Ok(|EncodeItems(xs)|)
    ensures ExpectLength(Encode(f) + rest) == Ok(|Encode(f)|)
  {
    hide ExpectLength, ItemsLength, EntriesLength, AggregateLength, MapLength, Encode, EncodeItems, EncodeEntries, Line, Decimal;
    if f == Array(xs) {
      EncodeOfArray(xs, rest);
      ExpectLengthOfAggregate(PREFIX_ARRAY, |xs|, EncodeItems(xs) + rest, |EncodeItems(xs)|);
    } else {
      EncodeOfSet(xs, rest);
      ExpectLengthOfAggregate(PREFIX_SET, |xs|, EncodeItems(xs) + rest, |EncodeItems(xs)|);
    }
  }

  /** A map whose entries are sized as their encodings is sized as its encoding. */
  lemma ExpectLengthOfMap(es: seq<Entry>, rest: seq<Byte>)
    requires |es| <= USIZE_MAX
    requires EntriesLength(EncodeEntries(es) + rest, |es|) == Ok(|EncodeEntries(es)|)
    ensures ExpectLength(Encode(Map(es)) + rest) == Ok(|Encode(Map(es))|)
  {
    hide ExpectLength, ItemsLength, EntriesLength, AggregateLength, MapLength, Encode, EncodeItems, EncodeEntries, Line, Decimal;
    EncodeOfMap(es, rest);
    ExpectLengthOfAggregate(PREFIX_MAP, |es|, EncodeEntries(es) + rest, |EncodeEntries(es)|);
  }

  /** The size of an encodable frame's encoding, followed by anything, is its length. */
  lemma {:induction false} ExpectLengthOfEncode(f: Frame, rest: seq<Byte>)
    requires Encodable(f)
    ensures ExpectLength(Encode(f) + rest) == Ok(|Encode(f)|)
    decreases f, 1
  {
    hide ExpectLength, ItemsLength, EntriesLength, Encode;
    match f
    case Array(xs) =>
      ItemsLengthOfEncode(xs, rest);
      ExpectLengthOfItems(f, xs, rest);
    case Set(xs) =>
      ItemsLengthOfEncode(xs, rest);
      ExpectLengthOfItems(f, xs, rest);
    case Map(es) =>
      EntriesLengthOfEncode(es, rest);
      ExpectLengthOfMap(es, rest);
    case _ => ExpectLengthOfScalar(f, rest);
  }

  lemma ItemsSplit(xs: seq<Frame>, rest: seq<Byte>)
    requires xs != []
    ensures EncodeItems(xs) + rest == Encode(xs[0]) + (EncodeItems(xs[1..]) + rest)
  {
    hide Encode, EncodeEntries;
  }

  lemma EntriesSplit(es: seq<Entry>, rest: seq<Byte>)
    requires es != []
    ensures EncodeEntries(es) + rest
         == Line(PREFIX_SIMPLE_STRING, es[0].key) + (Encode(es[0].value) + (EncodeEntries(es[1..]) + rest))
    ensures |EncodeEntries(es)|
         == |Line(PREFIX_SIMPLE_STRING, es[0].key)| + |Encode(es[0].value)| + |EncodeEntries(es[1..])|
  {
    var a := Line(PREFIX_SIMPLE_STRING, es[0].key);
    var b := Encode(es[0].value);
    var c := EncodeEntries(es[1..]);
    assert EncodeEntries(es) == a + b + c;
    Regroup(a, b, c, rest);
  }

  lemma Regroup(a: seq<Byte>, b: seq<Byte>, c: seq<Byte>, d: seq<Byte>)
    ensures (a + b + c) + d == a + (b + (c + d))
  {
  }

  lemma DropFront(a: seq<Byte>, b: seq<Byte>)
    ensures (a + b)[|a|..] == b
  {
  }

  /** The children of an aggregate are sized one after another. */
  lemma {:induction false} ItemsLengthOfEncode(xs: seq<Frame>, rest: seq<Byte>)
    requires forall i :: 0 <= i < |xs| ==> Encodable(xs[i])
    ensures ItemsLength(EncodeItems(xs) + rest, |xs|) == Ok(|EncodeItems(xs)|)
    decreases xs, 0
  {
    hide ExpectLength, ItemsLength, Encode, Encodable, LineLength, SizedLength;
    if xs == [] {
      assert EncodeItems(xs) + rest == rest;
      ItemsLengthOfNone(rest);
    } else {
      var head := Encode(xs[0]);
      var tail := EncodeItems(xs[1..]) + rest;
      var buf := EncodeItems(xs) + rest;
      ItemsSplit(xs, rest);
      ExpectLengthOfEncode(xs[0], tail);
      ItemsLengthOfEncode(xs[1..], rest);
      DropFront(head, tail);
      ItemsLengthStep(buf, |xs|, |head|, |EncodeItems(xs[1..])|);
    }
  }

  /** Map entries are sized as a key frame followed by a value frame. */
  lemma {:induction false} EntriesLengthOfEncode(es: seq<Entry>, rest: seq<Byte>)
    requires forall i :: 0 <= i < |es| ==> IsText(es[i].key) && Encodable(es[i].value)
    ensures EntriesLength(EncodeEntries(es) + rest, |es|) == Ok(|EncodeEntries(es)|)
    decreases es, 1
  {
    PairsLengthOfEncode(es, rest);
  }

  /** The keys and values of map entries, sized as one run of frames. */
  lemma {:induction false} PairsLengthOfEncode(es: seq<Entry>, rest: seq<Byte>)
    requires forall i :: 0 <= i < |es| ==> IsText(es[i].key) && Encodable(es[i].value)
    ensures ItemsLength(EncodeEntries(es) + rest, 2 * |es|) == Ok(|EncodeEntries(es)|)
    decreases es, 0
  {
    hide ExpectLength, ItemsLength, EntriesLength, Encode, Encodable, Line, LineLength, SizedLength;
    if es == [] {
      assert EncodeEntries(es) + rest == rest;
      ItemsLengthOfNone(rest);
    } else {
      var key := Line(PREFIX_SIMPLE_STRING, es[0].key);
      var value := Encode(es[0].value);
      var tail := EncodeEntries(es[1..]) + rest;
      var buf := EncodeEntries(es) + rest;
      var more := |EncodeEntries(es[1..])|;
      EntriesSplit(es, rest);
      ExpectLengthOfLine(PREFIX_SIMPLE_STRING, es[0].key, value + tail);
      DropFront(key, value + tail);
      ExpectLengthOfEncode(es[0].value, tail);
      DropFront(value, tail);
      PairsLengthOfEncode(es[1..], rest);
      ItemsLengthStep(value + tail, 2 * |es| - 1, |value|, more);
      ItemsLengthStep(buf, 2 * |es|, |key|, |value| + more);
    }
  }
}
