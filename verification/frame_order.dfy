/**
 The derived order on frames: first the variant's position in declaration
 order, then the payload (bytes lexicographically, integers numerically,
 false before true, sequences of frames and map entries lexicographically).
 Sets are stored and written in this order.
 */
module FrameOrder {
  import opened Bytes
  import opened ByteOrder
  import opened Frames

  function CmpInt(x: int, y: int): (c: int)
    ensures c < 0 <==> x < y
    ensures c == 0 <==> x == y
  {
    if x < y then -1 else if x > y then 1 else 0
  }

  function CmpBool(x: bool, y: bool): (c: int)
    ensures c < 0 <==> !x && y
    ensures c == 0 <==> x == y
  {
    if x == y then 0 else if x then 1 else -1
  }

  /** Three-way comparison of frames. */
  function Cmp(a: Frame, b: Frame): (c: int)
    ensures -1 <= c <= 1
    ensures Tag(a) < Tag(b) ==> c < 0
    ensures Tag(a) > Tag(b) ==> c > 0
  {
    var byTag := CmpInt(Tag(a), Tag(b));
    match a
    case SimpleString(x) => (match b case SimpleString(y) => CmpBytes(x, y) case _ => byTag)
    case SimpleError(x) => (match b case SimpleError(y) => CmpBytes(x, y) case _ => byTag)
    case BulkError(x) => (match b case BulkError(y) => CmpBytes(x, y) case _ => byTag)
    case Integer(x) => (match b case Integer(y) => CmpInt(x, y) case _ => byTag)
    case BulkString(x) => (match b case BulkString(y) => CmpBytes(x, y) case _ => byTag)
    case Array(xs) => (match b case Array(ys) => CmpSeq(xs, ys) case _ => byTag)
    case Boolean(x) => (match b case Boolean(y) => CmpBool(x, y) case _ => byTag)
    case Double(x) => (match b case Double(y) => CmpBytes(x, y) case _ => byTag)
    case Map(xs) => (match b case Map(ys) => CmpEntries(xs, ys) case _ => byTag)
    case Set(xs) => (match b case Set(ys) => CmpSeq(xs, ys) case _ => byTag)
    case _ => byTag
  }

  /** Lexicographic comparison of frame sequences. */
  function CmpSeq(xs: seq<Frame>, ys: seq<Frame>): (c: int)
    ensures -1 <= c <= 1
  {
    if xs == [] then (if ys == [] then 0 else -1)
    else if ys == [] then 1
    else
      var c := Cmp(xs[0], ys[0]);
      if c != 0 then c else CmpSeq(xs[1..], ys[1..])
  }

  /** Lexicographic comparison of entry sequences, each entry by key and then by value. */
  function CmpEntries(xs: seq<Entry>, ys: seq<Entry>): (c: int)
    ensures -1 <= c <= 1
  {
    if xs == [] then (if ys == [] then 0 else -1)
    else if ys == [] then 1
    else
      var k := CmpBytes(xs[0].key, ys[0].key);
      if k != 0 then k
      else
        var v := Cmp(xs[0].value, ys[0].value);
        if v != 0 then v else CmpEntries(xs[1..], ys[1..])
  }

  predicate Less(a: Frame, b: Frame) {
    Cmp(a, b) < 0
  }

  /** Frames of different variants compare by variant alone, so the order flips. */
  lemma CmpFlipByTag(a: Frame, b: Frame)
    requires Tag(a) != Tag(b)
    ensures Cmp(a, b) == -Cmp(b, a) && Cmp(a, b) != 0
  {
    hide Cmp;
  }

  lemma {:induction false} CmpFlip(a: Frame, b: Frame)
    ensures Cmp(a, b) == -Cmp(b, a)
  {
    hide CmpSeq, CmpEntries, CmpBytes;
    if Tag(a) != Tag(b) {
      CmpFlipByTag(a, b);
    } else {
      match a
      case SimpleString(x) => CmpBytesFlip(x, b.text);
      case SimpleError(x) => CmpBytesFlip(x, b.text);
      case BulkError(x) => CmpBytesFlip(x, b.data);
      case BulkString(x) => CmpBytesFlip(x, b.data);
      case Array(xs) => CmpSeqFlip(xs, b.items);
      case Double(x) => CmpBytesFlip(x, b.text);
      case Map(xs) => CmpEntriesFlip(xs, b.entries);
      case Set(xs) => CmpSeqFlip(xs, b.elems);
      case _ =>
    }
  }

  lemma {:induction false} CmpSeqFlip(xs: seq<Frame>, ys: seq<Frame>)
    ensures CmpSeq(xs, ys) == -CmpSeq(ys, xs)
  {
    if xs != [] && ys != [] {
      CmpFlip(xs[0], ys[0]);
      CmpSeqFlip(xs[1..], ys[1..]);
    }
  }

  lemma {:induction false} CmpEntriesFlip(xs: seq<Entry>, ys: seq<Entry>)
    ensures CmpEntries(xs, ys) == -CmpEntries(ys, xs)
  {
    if xs != [] && ys != [] {
      CmpBytesFlip(xs[0].key, ys[0].key);
      CmpFlip(xs[0].value, ys[0].value);
      CmpEntriesFlip(xs[1..], ys[1..]);
    }
  }

  lemma {:induction false} CmpZero(a: Frame, b: Frame)
    ensures Cmp(a, b) == 0 <==> a == b
  {
    hide CmpSeq, CmpEntries, CmpBytes;
    if Tag(a) != Tag(b) {
      CmpFlipByTag(a, b);
    } else {
      match a
      case SimpleString(x) => CmpBytesZero(x, b.text);
      case SimpleError(x) => CmpBytesZero(x, b.text);
      case BulkError(x) => CmpBytesZero(x, b.data);
      case BulkString(x) => CmpBytesZero(x, b.data);
      case Array(xs) => CmpSeqZero(xs, b.items);
      case Double(x) => CmpBytesZero(x, b.text);
      case Map(xs) => CmpEntriesZero(xs, b.entries);
      case Set(xs) => CmpSeqZero(xs, b.elems);
      case _ =>
    }
  }

  lemma {:induction false} CmpSeqZero(xs: seq<Frame>, ys: seq<Frame>)
    ensures CmpSeq(xs, ys) == 0 <==> xs == ys
  {
    if xs != [] && ys != [] {
      CmpZero(xs[0], ys[0]);
      CmpSeqZero(xs[1..], ys[1..]);
      assert xs == [xs[0]] + xs[1..] && ys == [ys[0]] + ys[1..];
    }
  }

  lemma {:induction false} CmpEntriesZero(xs: seq<Entry>, ys: seq<Entry>)
    ensures CmpEntries(xs, ys) == 0 <==> xs == ys
  {
    if xs != [] && ys != [] {
      CmpBytesZero(xs[0].key, ys[0].key);
      CmpZero(xs[0].value, ys[0].value);
      CmpEntriesZero(xs[1..], ys[1..]);
      assert xs == [xs[0]] + xs[1..] && ys == [ys[0]] + ys[1..];
    }
  }

  /** Below the first and above the last: the variants are in order. */
  lemma CmpTransByTag(a: Frame, b: Frame, c: Frame)
    requires Cmp(a, b) < 0 && Cmp(b, c) < 0
    ensures Tag(a) <= Tag(b) <= Tag(c)
    ensures Tag(a) < Tag(c) ==> Cmp(a, c) < 0
  {
    hide Cmp;
  }

  lemma {:induction false} CmpTrans(a: Frame, b: Frame, c: Frame)
    requires Cmp(a, b) < 0 && Cmp(b, c) < 0
    ensures Cmp(a, c) < 0
  {
    hide CmpSeq, CmpEntries, CmpBytes;
    CmpTransByTag(a, b, c);
    if Tag(a) == Tag(c) {
      match a
      case SimpleString(x) => CmpBytesTrans(x, b.text, c.text);
      case SimpleError(x) => CmpBytesTrans(x, b.text, c.text);
      case BulkError(x) => CmpBytesTrans(x, b.data, c.data);
      case BulkString(x) => CmpBytesTrans(x, b.data, c.data);
      case Array(xs) => CmpSeqTrans(xs, b.items, c.items);
      case Double(x) => CmpBytesTrans(x, b.text, c.text);
      case Map(xs) => CmpEntriesTrans(xs, b.entries, c.entries);
      case Set(xs) => CmpSeqTrans(xs, b.elems, c.elems);
      case _ =>
    }
  }

  lemma {:induction false} CmpSeqTrans(xs: seq<Frame>, ys: seq<Frame>, zs: seq<Frame>)
    requires CmpSeq(xs, ys) < 0 && CmpSeq(ys, zs) < 0
    ensures CmpSeq(xs, zs) < 0
  {
    if xs != [] && ys != [] && zs != [] {
      var c1, c2 := Cmp(xs[0], ys[0]), Cmp(ys[0], zs[0]);
      CmpZero(xs[0], ys[0]);
      CmpZero(ys[0], zs[0]);
      if c1 < 0 && c2 < 0 {
        CmpTrans(xs[0], ys[0], zs[0]);
      } else if c1 == 0 && c2 == 0 {
        CmpSeqTrans(xs[1..], ys[1..], zs[1..]);
      }
    }
  }

  lemma {:induction false} CmpEntriesTrans(xs: seq<Entry>, ys: seq<Entry>, zs: seq<Entry>)
    requires CmpEntries(xs, ys) < 0 && CmpEntries(ys, zs) < 0
    ensures CmpEntries(xs, zs) < 0
  {
    if xs != [] && ys != [] && zs != [] {
      var x, y, z := xs[0], ys[0], zs[0];
      CmpBytesZero(x.key, y.key);
      CmpBytesZero(y.key, z.key);
      CmpZero(x.value, y.value);
      CmpZero(y.value, z.value);
      if CmpBytes(x.key, y.key) < 0 && CmpBytes(y.key, z.key) < 0 {
        CmpBytesTrans(x.key, y.key, z.key);
      } else if CmpBytes(x.key, y.key) == 0 && CmpBytes(y.key, z.key) == 0 {
        if Cmp(x.value, y.value) < 0 && Cmp(y.value, z.value) < 0 {
          CmpTrans(x.value, y.value, z.value);
        } else if Cmp(x.value, y.value) == 0 && Cmp(y.value, z.value) == 0 {
          CmpEntriesTrans(xs[1..], ys[1..], zs[1..]);
        }
      }
    }
  }
}
