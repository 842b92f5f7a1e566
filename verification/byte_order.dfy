/**
 Lexicographic order on byte strings, the order of Rust's `Ord` for
 `String` and `Vec<u8>`: the first differing byte decides, and a proper
 prefix comes first.
 */
module ByteOrder {
  import opened Bytes

  /** Three-way comparison: negative, zero or positive. */
  function CmpBytes(a: seq<Byte>, b: seq<Byte>): (c: int)
    ensures -1 <= c <= 1
  {
    if a == [] then (if b == [] then 0 else -1)
    else if b == [] then 1
    else if a[0] < b[0] then -1
    else if a[0] > b[0] then 1
    else CmpBytes(a[1..], b[1..])
  }

  predicate LessBytes(a: seq<Byte>, b: seq<Byte>) {
    CmpBytes(a, b) < 0
  }

  /** An independent description of "a sorts strictly before b". */
  predicate LexLess(a: seq<Byte>, b: seq<Byte>) {
    (|a| < |b| && a == b[..|a|])
    || exists k :: 0 <= k < |a| && k < |b| && a[..k] == b[..k] && a[k] < b[k]
  }

  lemma {:induction false} CmpBytesFlip(a: seq<Byte>, b: seq<Byte>)
    ensures CmpBytes(a, b) == -CmpBytes(b, a)
    decreases |a|
  {
    if a != [] && b != [] && a[0] == b[0] {
      CmpBytesFlip(a[1..], b[1..]);
    }
  }

  lemma {:induction false} CmpBytesZero(a: seq<Byte>, b: seq<Byte>)
    ensures CmpBytes(a, b) == 0 <==> a == b
    decreases |a|
  {
    if a != [] && b != [] && a[0] == b[0] {
      CmpBytesZero(a[1..], b[1..]);
      if a[1..] == b[1..] {
        assert a == [a[0]] + a[1..] && b == [b[0]] + b[1..];
      }
    }
  }

  lemma {:induction false} CmpBytesTrans(a: seq<Byte>, b: seq<Byte>, c: seq<Byte>)
    requires CmpBytes(a, b) < 0 && CmpBytes(b, c) < 0
    ensures CmpBytes(a, c) < 0
    decreases |a|
  {
    if a != [] && b != [] && c != [] && a[0] == b[0] && b[0] == c[0] {
      CmpBytesTrans(a[1..], b[1..], c[1..]);
    }
  }

  /** When the first bytes differ, or one side is empty, the first position decides. */
  lemma LexLessAtHead(a: seq<Byte>, b: seq<Byte>)
    requires a == [] || b == [] || a[0] != b[0]
    ensures CmpBytes(a, b) < 0 <==> LexLess(a, b)
  {
    if a == [] {
      if b != [] { assert a == b[..0]; }
    } else if b != [] && a[0] < b[0] {
      assert a[..0] == b[..0];
    }
  }

  /** Dropping a shared first byte keeps a strict lexicographic order. */
  lemma LexLessOfTail(a: seq<Byte>, b: seq<Byte>)
    requires a != [] && b != [] && a[0] == b[0]
    requires LexLess(a[1..], b[1..])
    ensures LexLess(a, b)
  {
    hide CmpBytes;
    if |a[1..]| < |b[1..]| && a[1..] == b[1..][..|a[1..]|] {
      assert a == [a[0]] + a[1..] && b[..|a|] == [b[0]] + b[1..][..|a[1..]|];
    } else {
      var k :| 0 <= k < |a[1..]| && k < |b[1..]| && a[1..][..k] == b[1..][..k] && a[1..][k] < b[1..][k];
      assert a[..k + 1] == [a[0]] + a[1..][..k] && b[..k + 1] == [b[0]] + b[1..][..k];
      assert a[k + 1] < b[k + 1];
    }
  }

  /** A strict lexicographic order survives dropping a shared first byte. */
  lemma LexLessOfCons(a: seq<Byte>, b: seq<Byte>)
    requires a != [] && b != [] && a[0] == b[0]
    requires LexLess(a, b)
    ensures LexLess(a[1..], b[1..])
  {
    hide CmpBytes;
    if |a| < |b| && a == b[..|a|] {
      assert a[1..] == b[1..][..|a[1..]|];
    } else {
      var k :| 0 <= k < |a| && k < |b| && a[..k] == b[..k] && a[k] < b[k];
      assert k > 0;
      assert a[1..][..k - 1] == a[..k][1..] == b[..k][1..] == b[1..][..k - 1];
      assert a[1..][k - 1] < b[1..][k - 1];
    }
  }

  /** The recursive comparison agrees with the positional description of the order. */
  lemma {:induction false} CmpBytesIsLexLess(a: seq<Byte>, b: seq<Byte>)
    ensures CmpBytes(a, b) < 0 <==> LexLess(a, b)
    decreases |a|
  {
    if a != [] && b != [] && a[0] == b[0] {
      CmpBytesIsLexLess(a[1..], b[1..]);
      if LexLess(a[1..], b[1..]) { LexLessOfTail(a, b); }
      if LexLess(a, b) { LexLessOfCons(a, b); }
    } else {
      LexLessAtHead(a, b);
    }
  }

  /** A non-empty finite set of byte strings has a least element. */
  lemma {:induction false} LeastBytesExists(s: set<seq<Byte>>)
    requires s != {}
    ensures exists m :: m in s && forall x :: x in s ==> CmpBytes(m, x) <= 0
    decreases |s|
  {
    var y :| y in s;
    var s' := s - {y};
    if s' == {} {
      CmpBytesZero(y, y);
      assert s == {y};
    } else {
      LeastBytesExists(s');
      var m :| m in s' && forall x :: x in s' ==> CmpBytes(m, x) <= 0;
      if CmpBytes(m, y) <= 0 {
        assert forall x :: x in s ==> CmpBytes(m, x) <= 0;
      } else {
        CmpBytesFlip(m, y);
        forall x | x in s
          ensures CmpBytes(y, x) <= 0
        {
          if x == y {
            CmpBytesZero(y, y);
          } else if CmpBytes(m, x) < 0 {
            CmpBytesTrans(y, m, x);
          } else {
            CmpBytesZero(m, x);
          }
        }
      }
    }
  }
}
