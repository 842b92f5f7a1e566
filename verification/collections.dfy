/**
 The ordered containers behind map and set frames: a map is a sequence of
 entries in strictly ascending key order, a set a sequence of frames in
 strictly ascending frame order. Insertion keeps the order, so iteration
 (and hence encoding) always visits keys and elements in ascending order.
 */
module Collections {
  import opened Results
  import opened Bytes
  import opened ByteOrder
  import opened Frames
  import opened FrameOrder

  predicate SortedFrames(xs: seq<Frame>) {
    forall i, j :: 0 <= i < j < |xs| ==> Less(xs[i], xs[j])
  }

  predicate SortedKeys(es: seq<Entry>) {
    forall i, j :: 0 <= i < j < |es| ==> LessBytes(es[i].key, es[j].key)
  }

  /** Every element of `xs` sorts strictly before `x`. */
  predicate AllBelow(xs: seq<Frame>, x: Frame) {
    forall i :: 0 <= i < |xs| ==> Less(xs[i], x)
  }

  /** Every key of `es` sorts strictly before `k`. */
  predicate KeysBelow(es: seq<Entry>, k: seq<Byte>) {
    forall i :: 0 <= i < |es| ==> LessBytes(es[i].key, k)
  }

  /** Every element of `xs` sorts strictly after `x`. */
  predicate AllAbove(x: Frame, xs: seq<Frame>) {
    forall i :: 0 <= i < |xs| ==> Less(x, xs[i])
  }

  lemma SortedCons(x: Frame, xs: seq<Frame>)
    requires SortedFrames(xs) && AllAbove(x, xs)
    ensures SortedFrames([x] + xs)
  {
    var r := [x] + xs;
    forall i, j | 0 <= i < j < |r| ensures Less(r[i], r[j]) {
      assert r[j] == xs[j - 1];
      if i > 0 { assert r[i] == xs[i - 1]; }
    }
  }

  lemma SortedSnoc(xs: seq<Frame>, x: Frame)
    requires SortedFrames(xs) && AllBelow(xs, x)
    ensures SortedFrames(xs + [x])
  {
    var r := xs + [x];
    forall i, j | 0 <= i < j < |r| ensures Less(r[i], r[j]) {
      assert r[i] == xs[i];
      if j < |xs| { assert r[j] == xs[j]; }
    }
  }

  /** An element below the first of a sorted sequence is below all of them, so it is absent. */
  lemma BelowFirst(xs: seq<Frame>, x: Frame)
    requires SortedFrames(xs) && xs != [] && Cmp(x, xs[0]) < 0
    ensures AllAbove(x, xs) && x !in xs
  {
    hide Cmp;
    forall i | 0 <= i < |xs| ensures Less(x, xs[i]) && xs[i] != x {
      if i > 0 { CmpTrans(x, xs[0], xs[i]); }
      CmpZero(x, xs[i]);
    }
  }

  /** Every element of an insertion result is the inserted one or was present before. */
  lemma InsertedAbove(xs: seq<Frame>, r: seq<Frame>, x: Frame, bound: Frame)
    requires forall y :: y in r <==> y in xs || y == x
    requires AllAbove(bound, xs) && Less(bound, x)
    ensures AllAbove(bound, r)
  {
    hide Cmp;
    forall i | 0 <= i < |r| ensures Less(bound, r[i]) {
      if r[i] != x {
        assert r[i] in xs;
      }
    }
  }

  /** The tail of a sorted sequence is sorted and above its first element. */
  lemma SortedTail(xs: seq<Frame>)
    requires SortedFrames(xs) && xs != []
    ensures SortedFrames(xs[1..]) && AllAbove(xs[0], xs[1..])
  {
    hide Cmp;
  }

  /** `BTreeSet::insert`: add `x` unless an equal element is present. */
  function SetInsert(xs: seq<Frame>, x: Frame): (r: seq<Frame>)
    requires SortedFrames(xs)
    ensures SortedFrames(r)
    ensures forall y :: y in r <==> y in xs || y == x
    ensures x in xs ==> r == xs
    ensures x !in xs ==> |r| == |xs| + 1
  {
    if xs == [] then [x]
    else
      var c := Cmp(x, xs[0]);
      CmpZero(x, xs[0]);
      CmpFlip(x, xs[0]);
      SortedTail(xs);
      assert xs == [xs[0]] + xs[1..];
      if c < 0 then
        BelowFirst(xs, x);
        SortedCons(x, xs);
        [x] + xs
      else if c == 0 then xs
      else
        var tail := SetInsert(xs[1..], x);
        InsertedAbove(xs[1..], tail, x, xs[0]);
        SortedCons(xs[0], tail);
        [xs[0]] + tail
  }

  /** The first value stored under `k`, if any. */
  function Lookup(es: seq<Entry>, k: seq<Byte>): (r: Option<Frame>)
    ensures r.Some? <==> exists i :: 0 <= i < |es| && es[i].key == k
  {
    if es == [] then None
    else if es[0].key == k then Some(es[0].value)
    else
      var r := Lookup(es[1..], k);
      assert forall i :: 0 < i < |es| ==> es[i] == es[1..][i - 1];
      r
  }

  function Keys(es: seq<Entry>): (ks: set<seq<Byte>>)
    ensures forall k :: k in ks <==> Lookup(es, k).Some?
  {
    set i | 0 <= i < |es| :: es[i].key
  }

  /** Every key of `es` sorts strictly after `k`. */
  predicate KeysAbove(k: seq<Byte>, es: seq<Entry>) {
    forall i :: 0 <= i < |es| ==> LessBytes(k, es[i].key)
  }

  lemma LookupCons(e: Entry, es: seq<Entry>, k: seq<Byte>)
    ensures Lookup([e] + es, k) == if e.key == k then Some(e.value) else Lookup(es, k)
  {
    assert ([e] + es)[1..] == es;
  }

  lemma SortedKeysCons(e: Entry, es: seq<Entry>)
    requires SortedKeys(es) && KeysAbove(e.key, es)
    ensures SortedKeys([e] + es)
  {
    var r := [e] + es;
    forall i, j | 0 <= i < j < |r| ensures LessBytes(r[i].key, r[j].key) {
      assert r[j] == es[j - 1];
      if i > 0 { assert r[i] == es[i - 1]; }
    }
  }

  /** The tail of a sorted map is sorted, above its first key, and lacks that key. */
  lemma SortedKeysTail(es: seq<Entry>)
    requires SortedKeys(es) && es != []
    ensures SortedKeys(es[1..]) && KeysAbove(es[0].key, es[1..]) && Lookup(es[1..], es[0].key).None?
  {
    var tail := es[1..];
    forall i | 0 <= i < |tail| ensures LessBytes(es[0].key, tail[i].key) && tail[i].key != es[0].key {
      assert tail[i] == es[i + 1];
      CmpBytesZero(es[0].key, tail[i].key);
    }
  }

  /** A key below the first key of a sorted map is below all of them, so it is absent. */
  lemma BelowFirstKey(es: seq<Entry>, k: seq<Byte>)
    requires SortedKeys(es) && es != [] && CmpBytes(k, es[0].key) < 0
    ensures KeysAbove(k, es) && Lookup(es, k).None?
  {
    forall i | 0 <= i < |es| ensures LessBytes(k, es[i].key) && es[i].key != k {
      if i > 0 { CmpBytesTrans(k, es[0].key, es[i].key); }
      CmpBytesZero(k, es[i].key);
    }
  }

  /** Every key of an insertion result is the inserted key or was present before. */
  lemma InsertedKeysAbove(es: seq<Entry>, r: seq<Entry>, k: seq<Byte>, bound: seq<Byte>)
    requires forall k' :: k' != k ==> Lookup(r, k') == Lookup(es, k')
    requires KeysAbove(bound, es) && LessBytes(bound, k)
    ensures KeysAbove(bound, r)
  {
    forall i | 0 <= i < |r| ensures LessBytes(bound, r[i].key) {
      if r[i].key != k {
        assert Lookup(r, r[i].key).Some?;
        var j :| 0 <= j < |es| && es[j].key == r[i].key;
      }
    }
  }

  /** `BTreeMap::insert`: store `v` under `k`, replacing any earlier value. */
  function MapInsert(es: seq<Entry>, k: seq<Byte>, v: Frame): (r: seq<Entry>)
    requires SortedKeys(es)
    ensures SortedKeys(r)
    ensures Lookup(r, k) == Some(v)
    ensures forall k' :: k' != k ==> Lookup(r, k') == Lookup(es, k')
    ensures Lookup(es, k).Some? ==> |r| == |es|
    ensures Lookup(es, k).None? ==> |r| == |es| + 1
  {
    var e := Entry(k, v);
    if es == [] then
      forall k' { LookupCons(e, [], k'); }
      [e]
    else
      var c := CmpBytes(k, es[0].key);
      CmpBytesZero(k, es[0].key);
      CmpBytesFlip(k, es[0].key);
      assert es == [es[0]] + es[1..];
      forall k' { LookupCons(es[0], es[1..], k'); }
      SortedKeysTail(es);
      if c < 0 then
        BelowFirstKey(es, k);
        SortedKeysCons(e, es);
        forall k' { LookupCons(e, es, k'); }
        [e] + es
      else if c == 0 then
        SortedKeysCons(e, es[1..]);
        forall k' { LookupCons(e, es[1..], k'); }
        [e] + es[1..]
      else
        var tail := MapInsert(es[1..], k, v);
        InsertedKeysAbove(es[1..], tail, k, es[0].key);
        SortedKeysCons(es[0], tail);
        forall k' { LookupCons(es[0], tail, k'); }
        [es[0]] + tail
  }

  /** Inserting an element above every present one appends it. */
  lemma {:induction false} SetInsertAbove(xs: seq<Frame>, x: Frame)
    requires SortedFrames(xs) && AllBelow(xs, x)
    ensures SetInsert(xs, x) == xs + [x]
    decreases |xs|
  {
    if xs != [] {
      CmpFlip(x, xs[0]);
      assert AllBelow(xs[1..], x);
      SetInsertAbove(xs[1..], x);
      assert [xs[0]] + (xs[1..] + [x]) == xs + [x];
    }
  }

  lemma SortedKeysSnoc(es: seq<Entry>, e: Entry)
    requires SortedKeys(es) && KeysBelow(es, e.key)
    ensures SortedKeys(es + [e])
  {
    var r := es + [e];
    forall i, j | 0 <= i < j < |r| ensures LessBytes(r[i].key, r[j].key) {
      assert r[i] == es[i];
      if j < |es| { assert r[j] == es[j]; }
    }
  }

  /** Inserting a key above every present one appends the entry. */
  lemma {:induction false} MapInsertAbove(es: seq<Entry>, k: seq<Byte>, v: Frame)
    requires SortedKeys(es) && KeysBelow(es, k)
    ensures MapInsert(es, k, v) == es + [Entry(k, v)]
    decreases |es|
  {
    if es != [] {
      CmpBytesFlip(k, es[0].key);
      assert CmpBytes(k, es[0].key) > 0;
      assert KeysBelow(es[1..], k);
      MapInsertAbove(es[1..], k, v);
      assert MapInsert(es, k, v) == [es[0]] + MapInsert(es[1..], k, v);
      assert [es[0]] + (es[1..] + [Entry(k, v)]) == es + [Entry(k, v)];
    }
  }
}
