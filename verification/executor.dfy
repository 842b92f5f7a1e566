/**
 Executing commands against the store. The store is three maps: plain
 keys to frames, hash keys to field maps, and set keys to sets of frames.
 Every command returns one reply frame; SET, HSET and SADD also return
 the updated store and answer "OK".
 */
module Executor {
  import opened Results
  import opened Bytes
  import opened Frames
  import opened ByteOrder
  import opened Commands

  datatype Backend = Backend(kv: map<Text, Frame>, hashes: map<Text, map<Text, Frame>>, sets: map<Text, set<Frame>>)

  const EMPTY: Backend := Backend(map[], map[], map[])

  const OK: Frame := SimpleString(Ascii("OK"))

  /** The field `field` of the hash at `key`, if both exist. */
  function HashField(b: Backend, key: Text, field: Text): Option<Frame> {
    if key in b.hashes && field in b.hashes[key] then Some(b.hashes[key][field]) else None
  }

  /** The reply for a lookup that may miss: the frame found, or Null. */
  function OrNull(o: Option<Frame>): Frame {
    match o
    case Some(v) => v
    case None => Null
  }

  /** HMGET's replies: one per requested field, in request order. */
  function HMGetItems(b: Backend, key: Text, fields: seq<Text>): (r: seq<Frame>)
    ensures |r| == |fields|
    ensures forall i :: 0 <= i < |fields| ==> r[i] == OrNull(HashField(b, key, fields[i]))
  {
    if fields == [] then []
    else [OrNull(HashField(b, key, fields[0]))] + HMGetItems(b, key, fields[1..])
  }

  /** SADD's loop: each member inserted in turn. */
  function AddMembers(s: set<Frame>, members: seq<Frame>): (r: set<Frame>)
    ensures forall x :: x in r <==> x in s || x in members
    decreases members
  {
    if members == [] then s else AddMembers(s + {members[0]}, members[1..])
  }

  /** `order` lists the fields of `m`, each exactly once. */
  predicate ListsKeys(order: seq<Text>, m: map<Text, Frame>) {
    |order| == |m| && multiset(order) == multiset(m.Keys)
  }

  /** Byte strings in strictly ascending order. */
  predicate Ascending(xs: seq<Text>) {
    forall i, j :: 0 <= i < j < |xs| ==> LessBytes(xs[i], xs[j])
  }

  /** Inserts a new text into an ascending list. */
  function InsertText(x: Text, xs: seq<Text>): (r: seq<Text>)
    requires Ascending(xs) && x !in xs
    ensures multiset(r) == multiset(xs) + multiset{x}
    ensures Ascending(r)
  {
    if xs == [] then [x]
    else if CmpBytes(x, xs[0]) <= 0 then
      CmpBytesZero(x, xs[0]);
      AscendingCons(x, xs);
      [x] + xs
    else
      var r' := InsertText(x, xs[1..]);
      assert xs == [xs[0]] + xs[1..];
      CmpBytesFlip(x, xs[0]);
      AscendingHead(xs[0], r', xs[1..], x);
      [xs[0]] + r'
  }

  lemma AscendingCons(x: Text, xs: seq<Text>)
    requires Ascending(xs) && xs != [] && LessBytes(x, xs[0])
    ensures Ascending([x] + xs)
  {
    var r := [x] + xs;
    forall i, j | 0 <= i < j < |r|
      ensures LessBytes(r[i], r[j])
    {
      assert r[j] == xs[j - 1];
      if i == 0 {
        if j > 1 {
          CmpBytesTrans(x, xs[0], xs[j - 1]);
        }
      } else {
        assert r[i] == xs[i - 1];
      }
    }
  }

  lemma AscendingHead(h: Text, r: seq<Text>, tail: seq<Text>, x: Text)
    requires Ascending(r) && multiset(r) == multiset(tail) + multiset{x}
    requires LessBytes(h, x) && forall i :: 0 <= i < |tail| ==> LessBytes(h, tail[i])
    ensures Ascending([h] + r)
  {
    forall j | 0 <= j < |r|
      ensures LessBytes(h, r[j])
    {
      assert r[j] in multiset(r);
      if r[j] != x {
        assert r[j] in multiset(tail);
        var k :| 0 <= k < |tail| && tail[k] == r[j];
      }
    }
  }

  /** Sorting the distinct fields of a hash, as HGETALL does when asked to sort. */
  function SortTexts(xs: seq<Text>): (r: seq<Text>)
    requires Distinct(xs)
    ensures multiset(r) == multiset(xs)
    ensures Ascending(r)
  {
    if xs == [] then []
    else
      var rest := SortTexts(xs[1..]);
      assert xs == [xs[0]] + xs[1..];
      assert xs[0] !in multiset(xs[1..]);
      InsertText(xs[0], rest)
  }

  predicate Distinct(xs: seq<Text>) {
    forall i, j :: 0 <= i < j < |xs| ==> xs[i] != xs[j]
  }

  /** A list of a map's fields has no repeats. */
  lemma ListedKeysAreDistinct(order: seq<Text>, m: map<Text, Frame>)
    requires ListsKeys(order, m)
    ensures Distinct(order)
  {
    forall i, j | 0 <= i < j < |order|
      ensures order[i] != order[j]
    {
      var x := order[i];
      assert order == order[..j] + order[j..];
      assert x in order[..j];
      assert multiset(order)[x] == multiset(order[..j])[x] + multiset(order[j..])[x];
    }
  }

  /** A list of a map's fields names exactly the map's fields, as many as the map has. */
  lemma ListedKeysCover(fields: seq<Text>, m: map<Text, Frame>)
    requires ListsKeys(fields, m)
    ensures |fields| == |m|
    ensures forall i :: 0 <= i < |fields| ==> fields[i] in m
    ensures forall k :: k in m ==> k in fields
  {
    assert |multiset(fields)| == |fields|;
    assert |multiset(m.Keys)| == |m.Keys|;
    assert forall i :: 0 <= i < |fields| ==> fields[i] in multiset(fields);
    forall k | k in m
      ensures k in fields
    {
      assert k in multiset(m.Keys);
    }
  }

  function FieldAt(items: seq<Frame>, i: nat): Frame
    requires 2 * i + 1 < |items|
  {
    items[2 * i]
  }

  function ValueAt(items: seq<Frame>, i: nat): Frame
    requires 2 * i + 1 < |items|
  {
    items[2 * i + 1]
  }

  /** Each field as a bulk string followed by its value. */
  function Pairs(fields: seq<Text>, m: map<Text, Frame>): (r: seq<Frame>)
    requires forall i :: 0 <= i < |fields| ==> fields[i] in m
    ensures |r| == 2 * |fields|
    ensures forall i :: 0 <= i < |fields| ==> FieldAt(r, i) == BulkString(fields[i]) && ValueAt(r, i) == m[fields[i]]
  {
    if fields == [] then []
    else
      var rest := Pairs(fields[1..], m);
      var r := [BulkString(fields[0]), m[fields[0]]] + rest;
      assert forall i :: 1 <= i < |fields| ==> FieldAt(r, i) == FieldAt(rest, i - 1) && ValueAt(r, i) == ValueAt(rest, i - 1);
      r
  }

  /**
   HGETALL's reply items for the hash `m`: each field (as a bulk string)
   followed by its value, in the map's own iteration order `order`, or in
   ascending field order when `sort` is set.
   */
  function HGetAllItems(m: map<Text, Frame>, sort: bool, order: seq<Text>): (r: seq<Frame>)
    requires ListsKeys(order, m)
    ensures |r| == 2 * |m|
    ensures forall i :: 0 <= i < |m| ==>
      FieldAt(r, i).BulkString? && FieldAt(r, i).data in m && ValueAt(r, i) == m[FieldAt(r, i).data]
    ensures forall k :: k in m ==> exists i :: 0 <= i < |m| && FieldAt(r, i) == BulkString(k)
    ensures sort ==> forall i, j :: 0 <= i < j < |m| ==> LessBytes(FieldAt(r, i).data, FieldAt(r, j).data)
    ensures !sort ==> forall i :: 0 <= i < |m| ==> FieldAt(r, i) == BulkString(order[i])
  {
    ListedKeysAreDistinct(order, m);
    var fields := if sort then SortTexts(order) else order;
    ListedKeysCover(fields, m);
    var r := Pairs(fields, m);
    PairsCover(fields, m, r);
    r
  }

  lemma PairsCover(fields: seq<Text>, m: map<Text, Frame>, r: seq<Frame>)
    requires forall k :: k in m ==> k in fields
    requires |r| == 2 * |fields| && |fields| == |m|
    requires forall i :: 0 <= i < |fields| ==> FieldAt(r, i) == BulkString(fields[i])
    ensures forall k :: k in m ==> exists i :: 0 <= i < |m| && FieldAt(r, i) == BulkString(k)
  {
    forall k | k in m
      ensures exists i :: 0 <= i < |m| && FieldAt(r, i) == BulkString(k)
    {
      var i :| 0 <= i < |fields| && fields[i] == k;
      assert FieldAt(r, i) == BulkString(k);
    }
  }

  /**
   Runs one command. `order` is the iteration order of the hash HGETALL
   reads, which belongs to the store and is not modelled further.
   */
  function Execute(c: Command, b: Backend, order: seq<Text>): (r: (Frame, Backend))
    requires c.HGetAll? && c.key in b.hashes ==> ListsKeys(order, b.hashes[c.key])
    ensures c.Set? || c.HSet? || c.SAdd? ==> r.0 == OK
    ensures !(c.Set? || c.HSet? || c.SAdd?) ==> r.1 == b
    ensures c.Set? ==> r.1.hashes == b.hashes && r.1.sets == b.sets
    ensures c.HSet? ==> r.1.kv == b.kv && r.1.sets == b.sets
    ensures c.SAdd? ==> r.1.kv == b.kv && r.1.hashes == b.hashes
    ensures c.SIsMember? ==> r.0 == Integer(1) || r.0 == Integer(0)
  {
    match c
    case Get(k) => (OrNull(if k in b.kv then Some(b.kv[k]) else None), b)
    case Set(k, v) => (OK, b.(kv := b.kv[k := v]))
    case HGet(k, f) => (OrNull(HashField(b, k, f)), b)
    case HSet(k, f, v) =>
      var h := if k in b.hashes then b.hashes[k] else map[];
      (OK, b.(hashes := b.hashes[k := h[f := v]]))
    case HGetAll(k, sort) =>
      if k in b.hashes then (Array(HGetAllItems(b.hashes[k], sort, order)), b) else (Null, b)
    case HMGet(k, fs) => (Array(HMGetItems(b, k, fs)), b)
    case SAdd(k, ms) =>
      var s := if k in b.sets then b.sets[k] else {};
      (OK, b.(sets := b.sets[k := AddMembers(s, ms)]))
    case SIsMember(k, m) =>
      (if k in b.sets && m in b.sets[k] then Integer(1) else Integer(0), b)
    case Echo(msg) => (BulkString(msg), b)
  }

  function Reply(c: Command, b: Backend): Frame
    requires !c.HGetAll?
  {
    Execute(c, b, []).0
  }

  function After(c: Command, b: Backend): Backend
    requires !c.HGetAll?
  {
    Execute(c, b, []).1
  }

  /** GET on a fresh store answers Null. */
  lemma GetOfEmpty(k: Text)
    ensures Reply(Get(k), EMPTY) == Null
  {
  }

  /** GET after SET sees the value just stored, and only under that key. */
  lemma GetAfterSet(b: Backend, k: Text, v: Frame, k': Text)
    ensures Reply(Get(k'), After(Command.Set(k, v), b)) == if k' == k then v else Reply(Get(k'), b)
  {
  }

  /** HGET after HSET sees the value just stored, and only under that key and field. */
  lemma HGetAfterHSet(b: Backend, k: Text, f: Text, v: Frame, k': Text, f': Text)
    ensures Reply(HGet(k', f'), After(HSet(k, f, v), b)) == if k' == k && f' == f then v else Reply(HGet(k', f'), b)
  {
  }

  /** HMGET answers what HGET answers for each requested field, in request order. */
  lemma HMGetIsHGet(b: Backend, k: Text, fs: seq<Text>)
    ensures Reply(HMGet(k, fs), b).Array?
    ensures |Reply(HMGet(k, fs), b).items| == |fs|
    ensures forall i :: 0 <= i < |fs| ==> Reply(HMGet(k, fs), b).items[i] == Reply(HGet(k, fs[i]), b)
  {
  }

  /** After SADD, SISMEMBER answers 1 exactly for the added members and for the earlier ones. */
  lemma SIsMemberAfterSAdd(b: Backend, k: Text, ms: seq<Frame>, k': Text, m: Frame)
    ensures Reply(SIsMember(k', m), After(SAdd(k, ms), b)) == Integer(1)
        <==> (k' == k && m in ms) || Reply(SIsMember(k', m), b) == Integer(1)
  {
  }

  /** Adding the same members twice leaves the store as adding them once. */
  lemma SAddIdempotent(b: Backend, k: Text, ms: seq<Frame>)
    ensures After(SAdd(k, ms), After(SAdd(k, ms), b)) == After(SAdd(k, ms), b)
  {
    var once := After(SAdd(k, ms), b);
    var s := if k in b.sets then b.sets[k] else {};
    assert AddMembers(AddMembers(s, ms), ms) == AddMembers(s, ms);
  }

  /** A second SET under the same key replaces the first. */
  lemma SetReplaces(b: Backend, k: Text, v1: Frame, v2: Frame)
    ensures After(Command.Set(k, v2), After(Command.Set(k, v1), b)) == After(Command.Set(k, v2), b)
  {
  }
}
