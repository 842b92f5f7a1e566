/**
 A frame that has only partly arrived is reported incomplete: every strict
 prefix of an encodable frame's encoding sizes and decodes to `Incomplete`,
 never to one of the invalid-frame errors.
 */
module Prefixes {
  import opened Results
  import opened Bytes
  import opened Numbers
  import opened Frames
  import opened Scanner
  import opened Encoder
  import opened Framing
  import opened Decoder
  import opened Sizing
  import opened RoundTrip

  /** A strict prefix of `a + b` that reaches past `a` is `a` followed by a strict prefix of `b`. */
  lemma PrefixAfter(a: seq<Byte>, b: seq<Byte>, q: seq<Byte>)
    requires StrictPrefix(q, a + b) && |q| >= |a|
    ensures StrictPrefix(q[|a|..], b) && q == a + q[|a|..]
  {
    assert q[|a|..] == (a + b)[|a|..|q|];
  }

  /** A strict prefix of `a + b` that stops inside `a` is a strict prefix of `a`. */
  lemma PrefixWithin(a: seq<Byte>, b: seq<Byte>, q: seq<Byte>)
    requires StrictPrefix(q, a + b) && |q| < |a|
    ensures StrictPrefix(q, a)
  {
    assert (a + b)[..|q|] == a[..|q|];
  }

  /** A prefix starts with the first bytes of what it is a prefix of. */
  lemma PrefixFront(q: seq<Byte>, w: seq<Byte>)
    requires StrictPrefix(q, w)
    ensures |q| > 0 ==> q[0] == w[0]
    ensures |q| >= 3 ==> q[1..3] == w[1..3]
  {
  }

  /** A strict prefix of a line frame is incomplete to the sizing and to the line reader. */
  lemma LinePrefixSizing(p: Byte, t: seq<Byte>, q: seq<Byte>)
    requires IsPrefixByte(p) && p != PREFIX_BULK_ERROR && p != PREFIX_MAP && p != PREFIX_SET
    requires !HasCrlf(t) && ((p == PREFIX_BULK_STRING || p == PREFIX_ARRAY) ==> t == NULL_LENGTH)
    requires StrictPrefix(q, Line(p, t))
    ensures ExpectLength(q) == Err(Incomplete)
    ensures ReadLine(q, p) == Err(Incomplete)
    ensures ReadFixed(q, p, t) == Err(Incomplete)
  {
    hide ReadLine, LineLength, SizedLength, AggregateLength, MapLength;
    LinePrefixIncomplete(p, t, q);
    PrefixFront(q, Line(p, t));
    if |q| >= 3 && (p == PREFIX_BULK_STRING || p == PREFIX_ARRAY) {
      assert Line(p, t)[1..3] == t;
    }
  }

  /** A strict prefix of any frame written as one line is incomplete. */
  lemma LineFramePrefix(f: Frame, q: seq<Byte>)
    requires Encodable(f)
    requires f.SimpleString? || f.SimpleError? || f.Integer? || f.NullBulkString? || f.NullArray?
          || f.Null? || f.Boolean? || f.Double?
    requires StrictPrefix(q, Encode(f))
    ensures ExpectLength(q) == Err(Incomplete)
    ensures Decode(q) == Err(Incomplete)
  {
    hide ExpectLength, Decode, ReadLine, ReadFixed, Line;
    var p := Prefix(f);
    PrefixFront(q, Encode(f));
    match f {
    case SimpleString(t) => LinePrefixSizing(p, t, q);
    case SimpleError(t) => LinePrefixSizing(p, t, q);
    case Integer(i) =>
      IntegerTextIsInert(i);
      LinePrefixSizing(p, IntegerText(i), q);
    case NullBulkString => LinePrefixSizing(p, NULL_LENGTH, q);
    case NullArray => LinePrefixSizing(p, NULL_LENGTH, q);
    case Null =>
      assert !HasCrlf([]);
      LinePrefixSizing(p, [], q);
    case Boolean(b) =>
      assert !HasCrlf(BoolText(b));
      LinePrefixSizing(p, BoolText(b), q);
    case Double(t) =>
      CanonicalIsDoubleText(t);
      DoubleTextIsInert(t);
      LinePrefixSizing(p, t, q);
    }
    if |q| > 0 {
      DecodeDispatch(q);
    }
  }

  /** The null reader fails on any prefix of a header line written with a count. */
  lemma HeaderPrefixNotNull(p: Byte, n: nat, tail: seq<Byte>, q: seq<Byte>)
    requires IsPrefixByte(p) && StrictPrefix(q, Line(p, Decimal(n)) + tail)
    ensures ReadFixed(q, p, NULL_LENGTH).Err?
  {
    hide ReadFixed, ReadLine, Line, Decimal;
    var h := Line(p, Decimal(n));
    DigitsAreText(Decimal(n));
    if |q| < |h| {
      PrefixWithin(h, tail, q);
      LinePrefixIncomplete(p, Decimal(n), q);
      NullReaderNeedsLine(q, p);
    } else {
      PrefixAfter(h, tail, q);
      HeaderIsNotNull(p, n, q[|h|..]);
    }
  }

  lemma NullReaderNeedsLine(q: seq<Byte>, p: Byte)
    requires IsPrefixByte(p) && ReadLine(q, p).Err?
    ensures ReadFixed(q, p, NULL_LENGTH).Err?
  {
    hide ReadLine;
  }

  /** A sized payload is its header line followed by the payload and a CRLF. */
  lemma SizedIsHeaderThen(p: Byte, d: seq<Byte>)
    ensures Sized(p, d) == Line(p, Decimal(|d|)) + (d + CRLF)
  {
    hide Line, Decimal;
  }

  /** A strict prefix of a bulk string or bulk error is incomplete. */
  lemma BulkPrefix(f: Frame, q: seq<Byte>)
    requires (f.BulkString? || f.BulkError?) && IsSizedPayload(f.data)
    requires StrictPrefix(q, Encode(f))
    ensures ExpectLength(q) == Err(Incomplete)
    ensures Decode(q) == Err(Incomplete)
  {
    hide ExpectLength, Decode, ReadSized, SizedLength, ReadFixed, ReadLine, Sized, Line, Decimal;
    var p := Prefix(f);
    var d := f.data;
    SizedPrefixIncomplete(p, d, q);
    SizedFront(p, d, []);
    assert Sized(p, d) + [] == Sized(p, d);
    PrefixFront(q, Sized(p, d));
    SizedIsHeaderThen(p, d);
    HeaderPrefixNotNull(p, |d|, d + CRLF, q);
    if |q| > 0 {
      DecodeDispatch(q);
      BulkSizing(q, p);
    }
  }

  lemma BulkSizing(q: seq<Byte>, p: Byte)
    requires p == PREFIX_BULK_STRING || p == PREFIX_BULK_ERROR
    requires SizedLength(q) == Err(Incomplete)
    requires |q| >= 3 ==> q[0] == p && q[1..3] != NULL_LENGTH
    ensures ExpectLength(q) == Err(Incomplete)
  {
    hide SizedLength, LineLength, AggregateLength, MapLength;
  }

  /** An array or set header whose count or children have not fully arrived. */
  lemma AggregateLengthIncomplete(buf: seq<Byte>)
    requires |buf| > 0 && buf[0] != CR
    requires CountHeader(buf).Err? || ItemsLength(buf[CountHeader(buf).value.1 + 2..], CountHeader(buf).value.0).Err?
    requires CountHeader(buf).Err? ==> CountHeader(buf).error == Incomplete
    requires CountHeader(buf).Ok? ==>
      ItemsLength(buf[CountHeader(buf).value.1 + 2..], CountHeader(buf).value.0) == Err(Incomplete)
    ensures AggregateLength(buf) == Err(Incomplete)
  {
    hide CountHeader, ItemsLength;
  }

  /** A map header whose count or entries have not fully arrived. */
  lemma MapLengthIncomplete(buf: seq<Byte>)
    requires |buf| > 0 && buf[0] != CR
    requires CountHeader(buf).Err? || EntriesLength(buf[CountHeader(buf).value.1 + 2..], CountHeader(buf).value.0).Err?
    requires CountHeader(buf).Err? ==> CountHeader(buf).error == Incomplete
    requires CountHeader(buf).Ok? ==>
      EntriesLength(buf[CountHeader(buf).value.1 + 2..], CountHeader(buf).value.0) == Err(Incomplete)
    ensures MapLength(buf) == Err(Incomplete)
  {
    hide CountHeader, EntriesLength;
  }

  /** The sizing of an aggregate whose header or children have not fully arrived. */
  lemma AggregateSizeIncomplete(p: Byte, n: nat, children: seq<Byte>, q: seq<Byte>)
    requires p == PREFIX_ARRAY || p == PREFIX_SET || p == PREFIX_MAP
    requires n <= USIZE_MAX
    requires StrictPrefix(q, Line(p, Decimal(n)) + children) && |q| > 0
    requires |q| >= |Line(p, Decimal(n))| && p != PREFIX_MAP ==>
      ItemsLength(q[|Line(p, Decimal(n))|..], n) == Err(Incomplete)
    requires |q| >= |Line(p, Decimal(n))| && p == PREFIX_MAP ==>
      EntriesLength(q[|Line(p, Decimal(n))|..], n) == Err(Incomplete)
    ensures p != PREFIX_MAP ==> AggregateLength(q) == Err(Incomplete)
    ensures p == PREFIX_MAP ==> MapLength(q) == Err(Incomplete)
  {
    hide CountHeader, AggregateLength, MapLength, ItemsLength, EntriesLength, ReadLine, Line, Decimal;
    var h := Line(p, Decimal(n));
    PrefixFront(q, h + children);
    assert q[0] == p;
    if |q| < |h| {
      PrefixWithin(h, children, q);
      HeaderPrefixIncomplete(p, n, q);
    } else {
      PrefixAfter(h, children, q);
      ReadCountOfHeader(p, n, q[|h|..]);
    }
    if p == PREFIX_MAP {
      MapLengthIncomplete(q);
    } else {
      AggregateLengthIncomplete(q);
    }
  }

  /** An aggregate whose header or children have not fully arrived is incomplete. */
  lemma AggregatePrefix(f: Frame, n: nat, children: seq<Byte>, q: seq<Byte>)
    requires f.Array? || f.Set? || f.Map?
    requires n <= USIZE_MAX
    requires Encode(f) == Line(Prefix(f), Decimal(n)) + children
    requires StrictPrefix(q, Encode(f))
    requires |q| >= |Line(Prefix(f), Decimal(n))| && !f.Map? ==>
      ItemsLength(q[|Line(Prefix(f), Decimal(n))|..], n) == Err(Incomplete)
    requires |q| >= |Line(Prefix(f), Decimal(n))| && f.Map? ==>
      EntriesLength(q[|Line(Prefix(f), Decimal(n))|..], n) == Err(Incomplete)
    ensures ExpectLength(q) == Err(Incomplete)
    ensures Decode(q) == Err(Incomplete)
  {
    hide ExpectLength, Decode, AggregateLength, MapLength, ItemsLength, EntriesLength, ReadFixed, ReadCount,
         DecodeItems, DecodeSetItems, DecodeEntries, CountHeader, LineLength, SizedLength, Encode, Line, Decimal;
    var p := Prefix(f);
    if |q| > 0 {
      AggregateSizeIncomplete(p, n, children, q);
      HeaderPrefixNotNull(p, n, children, q);
      HeaderFront(p, n, children);
      PrefixFront(q, Encode(f));
      AggregateDispatch(q, p);
    }
  }

  lemma AggregateDispatch(q: seq<Byte>, p: Byte)
    requires p == PREFIX_ARRAY || p == PREFIX_SET || p == PREFIX_MAP
    requires |q| > 0 && q[0] == p && (|q| >= 3 ==> q[1..3] != NULL_LENGTH)
    requires ReadFixed(q, p, NULL_LENGTH).Err?
    requires p != PREFIX_MAP ==> AggregateLength(q) == Err(Incomplete)
    requires p == PREFIX_MAP ==> MapLength(q) == Err(Incomplete)
    ensures ExpectLength(q) == Err(Incomplete)
    ensures Decode(q) == Err(Incomplete)
  {
    hide AggregateLength, MapLength, ReadFixed, LineLength, SizedLength, ReadCount, DecodeItems, DecodeSetItems,
         DecodeEntries;
    DecodeDispatch(q);
  }

  lemma ItemsLengthIncompleteHead(buf: seq<Byte>, n: nat)
    requires n > 0 && ExpectLength(buf) == Err(Incomplete)
    ensures ItemsLength(buf, n) == Err(Incomplete)
  {
    hide ExpectLength;
  }

  lemma ItemsLengthIncompleteLater(buf: seq<Byte>, n: nat, len: nat)
    requires n > 0 && ExpectLength(buf) == Ok(len)
    requires ItemsLength(buf[len..], n - 1) == Err(Incomplete)
    ensures ItemsLength(buf, n) == Err(Incomplete)
  {
    hide ExpectLength;
  }

  /** Every strict prefix of an encodable frame's encoding is incomplete, to the sizing and to the decoder. */
  lemma {:induction false} PrefixIncomplete(f: Frame, q: seq<Byte>)
    requires Encodable(f) && StrictPrefix(q, Encode(f))
    ensures ExpectLength(q) == Err(Incomplete)
    ensures Decode(q) == Err(Incomplete)
    decreases f, 1
  {
    hide ExpectLength, Decode, ItemsLength, EntriesLength, EncodeItems, EncodeEntries, Line, Decimal;
    match f
    case Array(xs) =>
      var h := Line(PREFIX_ARRAY, Decimal(|xs|));
      EncodeOfArray(xs, []);
      assert Encode(f) == h + EncodeItems(xs);
      if |q| >= |h| {
        PrefixAfter(h, EncodeItems(xs), q);
        ItemsPrefixIncomplete(xs, q[|h|..]);
      }
      AggregatePrefix(f, |xs|, EncodeItems(xs), q);
    case Set(xs) =>
      var h := Line(PREFIX_SET, Decimal(|xs|));
      EncodeOfSet(xs, []);
      assert Encode(f) == h + EncodeItems(xs);
      if |q| >= |h| {
        PrefixAfter(h, EncodeItems(xs), q);
        ItemsPrefixIncomplete(xs, q[|h|..]);
      }
      AggregatePrefix(f, |xs|, EncodeItems(xs), q);
    case Map(es) =>
      var h := Line(PREFIX_MAP, Decimal(|es|));
      EncodeOfMap(es, []);
      assert Encode(f) == h + EncodeEntries(es);
      if |q| >= |h| {
        PrefixAfter(h, EncodeEntries(es), q);
        PairsPrefixIncomplete(es, q[|h|..]);
      }
      AggregatePrefix(f, |es|, EncodeEntries(es), q);
    case BulkString(_) => BulkPrefix(f, q);
    case BulkError(_) => BulkPrefix(f, q);
    case _ => LineFramePrefix(f, q);
  }

  /** A strict prefix of encoded children is incomplete to the sizing of that many frames. */
  lemma {:induction false} ItemsPrefixIncomplete(xs: seq<Frame>, q: seq<Byte>)
    requires forall i :: 0 <= i < |xs| ==> Encodable(xs[i])
    requires StrictPrefix(q, EncodeItems(xs))
    ensures ItemsLength(q, |xs|) == Err(Incomplete)
    decreases xs, 0
  {
    hide ExpectLength, Decode, ItemsLength, Encode, EncodeItems, Encodable;
    var head := Encode(xs[0]);
    var tail := EncodeItems(xs[1..]);
    ItemsSplit(xs, []);
    assert EncodeItems(xs) + [] == EncodeItems(xs) && tail + [] == tail;
    if |q| < |head| {
      PrefixWithin(head, tail, q);
      PrefixIncomplete(xs[0], q);
      ItemsLengthIncompleteHead(q, |xs|);
    } else {
      PrefixAfter(head, tail, q);
      ExpectLengthOfEncode(xs[0], q[|head|..]);
      ItemsPrefixIncomplete(xs[1..], q[|head|..]);
      ItemsLengthIncompleteLater(q, |xs|, |head|);
    }
  }

  /** A strict prefix of encoded map entries is incomplete to the sizing of twice that many frames. */
  lemma {:induction false} PairsPrefixIncomplete(es: seq<Entry>, q: seq<Byte>)
    requires forall i :: 0 <= i < |es| ==> IsText(es[i].key) && Encodable(es[i].value)
    requires StrictPrefix(q, EncodeEntries(es))
    ensures EntriesLength(q, |es|) == Err(Incomplete)
    decreases es, 0
  {
    hide ExpectLength, Decode, ItemsLength, Encode, EncodeEntries, Encodable, Line;
    var key := Line(PREFIX_SIMPLE_STRING, es[0].key);
    var value := Encode(es[0].value);
    var tail := EncodeEntries(es[1..]);
    var n := 2 * |es|;
    EntriesSplit(es, []);
    assert EncodeEntries(es) + [] == EncodeEntries(es) && tail + [] == tail;
    if |q| < |key| {
      PrefixWithin(key, value + tail, q);
      LinePrefixSizing(PREFIX_SIMPLE_STRING, es[0].key, q);
      ItemsLengthIncompleteHead(q, n);
    } else {
      var q1 := q[|key|..];
      PrefixAfter(key, value + tail, q);
      ExpectLengthOfLine(PREFIX_SIMPLE_STRING, es[0].key, q1);
      if |q1| < |value| {
        PrefixWithin(value, tail, q1);
        PrefixIncomplete(es[0].value, q1);
        ItemsLengthIncompleteHead(q1, n - 1);
      } else {
        PrefixAfter(value, tail, q1);
        ExpectLengthOfEncode(es[0].value, q1[|value|..]);
        PairsPrefixIncomplete(es[1..], q1[|value|..]);
        ItemsLengthIncompleteLater(q1, n - 1, |value|);
      }
      ItemsLengthIncompleteLater(q, n, |key|);
    }
  }
}
