/**
 The byte-level scanner every decoder is built on: bytes, the CRLF
 terminator, and `find_crlf`, which locates the n-th CRLF of a buffer.
 */
module Bytes {
  import opened Results

  type Byte = b: int | 0 <= b < 256

  const CR: Byte := 13
  const LF: Byte := 10
  const CRLF: seq<Byte> := [CR, LF]

  /** The bytes of a Latin-1 string literal; used to write wire examples. */
  function Ascii(s: string): seq<Byte>
    requires forall i :: 0 <= i < |s| ==> s[i] as int < 256
  {
    seq(|s|, i requires 0 <= i < |s| => s[i] as int)
  }

  /** Every byte is 7-bit ASCII. */
  predicate IsAscii(s: seq<Byte>) {
    forall i :: 0 <= i < |s| ==> s[i] < 128
  }

  /** A CRLF starts at index `i` of `buf`. */
  predicate IsCrlfAt(buf: seq<Byte>, i: int) {
    0 <= i && i + 1 < |buf| && buf[i] == CR && buf[i + 1] == LF
  }

  predicate HasCrlf(s: seq<Byte>) {
    exists i :: 0 <= i < |s| && IsCrlfAt(s, i)
  }

  /** No CRLF starts in the index range [lo, hi). */
  predicate NoCrlfIn(buf: seq<Byte>, lo: int, hi: int) {
    forall k :: lo <= k < hi ==> !IsCrlfAt(buf, k)
  }

  /** Number of CRLFs starting strictly before index `k`. */
  function CountCrlf(buf: seq<Byte>, k: nat): nat
    requires k <= |buf|
  {
    if k == 0 then 0
    else CountCrlf(buf, k - 1) + (if IsCrlfAt(buf, k - 1) then 1 else 0)
  }

  /**
   The scan of `find_crlf` from index `i`, still looking for the `n`-th
   occurrence counted from `i`.
   */
  function FindCrlfFrom(buf: seq<Byte>, i: nat, n: nat): (r: Option<nat>)
    requires i <= |buf| && n >= 1
    ensures r.Some? ==> i <= r.value && IsCrlfAt(buf, r.value)
                        && CountCrlf(buf, r.value) - CountCrlf(buf, i) == n - 1
    ensures r.None? ==> CountCrlf(buf, |buf|) - CountCrlf(buf, i) < n
    decreases |buf| - i
  {
    if i + 1 >= |buf| then
      None
    else if IsCrlfAt(buf, i) then
      if n == 1 then Some(i) else FindCrlfFrom(buf, i + 1, n - 1)
    else
      FindCrlfFrom(buf, i + 1, n)
  }

  /**
   Index of the CR of the `n`-th CRLF in `buf`, or None when there are fewer
   than `n` (and always None for `n == 0`, whose count is never reached).
   */
  function FindCrlf(buf: seq<Byte>, n: nat): (r: Option<nat>)
    ensures r.Some? <==> n >= 1 && CountCrlf(buf, |buf|) >= n
    ensures r.Some? ==> IsCrlfAt(buf, r.value) && CountCrlf(buf, r.value) == n - 1
  {
    if n == 0 then None
    else
      var r := FindCrlfFrom(buf, 0, n);
      if r.Some? then CountCrlfMonotone(buf, r.value + 1, |buf|); r else r
  }

  lemma FindCrlfIsScan(buf: seq<Byte>, n: nat)
    requires n >= 1
    ensures FindCrlf(buf, n) == FindCrlfFrom(buf, 0, n)
  {
  }

  lemma {:induction false} CountCrlfMonotone(buf: seq<Byte>, a: nat, b: nat)
    requires a <= b <= |buf|
    ensures CountCrlf(buf, a) <= CountCrlf(buf, b)
    decreases b - a
  {
    if a < b {
      CountCrlfMonotone(buf, a, b - 1);
    }
  }

  /** The counting loop of `find_crlf`, computing what `FindCrlf` specifies. */
  method FindCrlfScan(buf: seq<Byte>, nth: nat) returns (r: Option<nat>)
    ensures r.Some? <==> nth >= 1 && CountCrlf(buf, |buf|) >= nth
    ensures r.Some? ==> IsCrlfAt(buf, r.value) && CountCrlf(buf, r.value) == nth - 1
  {
    if |buf| == 0 {
      return None;
    }
    var count := 0;
    for i := 0 to |buf| - 1
      invariant count == CountCrlf(buf, i)
      invariant nth == 0 || count < nth
    {
      if buf[i] == CR && buf[i + 1] == LF {
        count := count + 1;
        if count == nth {
          CountCrlfMonotone(buf, i + 1, |buf|);
          return Some(i);
        }
      }
    }
    assert !IsCrlfAt(buf, |buf| - 1);
    return None;
  }

  /** Scanning across a CRLF-free range changes nothing. */
  lemma {:induction false} FindCrlfSkips(buf: seq<Byte>, i: nat, j: nat, n: nat)
    requires i <= j <= |buf| && n >= 1
    requires NoCrlfIn(buf, i, j)
    ensures FindCrlfFrom(buf, i, n) == FindCrlfFrom(buf, j, n)
    decreases j - i
  {
    if i < j {
      FindCrlfSkips(buf, i + 1, j, n);
    }
  }

  /** The first CRLF at or after `i` is the one at `j`. */
  lemma FindCrlfFirstAt(buf: seq<Byte>, i: nat, j: nat, n: nat)
    requires i <= j && IsCrlfAt(buf, j) && n >= 1
    requires NoCrlfIn(buf, i, j)
    ensures FindCrlfFrom(buf, i, n) == if n == 1 then Some(j) else FindCrlfFrom(buf, j + 1, n - 1)
  {
    FindCrlfSkips(buf, i, j, n);
  }

  /** A buffer with no CRLF from `i` on yields None. */
  lemma FindCrlfNoneFrom(buf: seq<Byte>, i: nat, n: nat)
    requires i <= |buf| && n >= 1
    requires NoCrlfIn(buf, i, |buf|)
    ensures FindCrlfFrom(buf, i, n) == None
  {
    FindCrlfSkips(buf, i, |buf|, n);
  }

  /**
   A CRLF-free block `a` placed at offset `off` of `buf` contributes no CRLF,
   provided the byte after it (if any) is not LF.
   */
  lemma NoCrlfInBlock(buf: seq<Byte>, a: seq<Byte>, off: nat)
    requires off + |a| <= |buf| && buf[off..off + |a|] == a
    requires !HasCrlf(a)
    requires off + |a| < |buf| ==> buf[off + |a|] != LF
    ensures NoCrlfIn(buf, off, off + |a|)
  {
    forall k | off <= k < off + |a|
      ensures !IsCrlfAt(buf, k)
    {
      if k + 1 < off + |a| {
        assert buf[k] == a[k - off] && buf[k + 1] == a[k - off + 1];
        assert !IsCrlfAt(a, k - off);
      }
    }
  }

  /** A CRLF-free block followed by a CRLF: the scan stops there, or continues after it. */
  lemma CrlfAfterBlock(buf: seq<Byte>, off: nat, a: seq<Byte>, n: nat)
    requires off + |a| + 2 <= |buf| && buf[off..off + |a|] == a && !HasCrlf(a)
    requires IsCrlfAt(buf, off + |a|) && n >= 1
    ensures FindCrlfFrom(buf, off, n) ==
            if n == 1 then Some(off + |a|) else FindCrlfFrom(buf, off + |a| + 2, n - 1)
  {
    NoCrlfInBlock(buf, a, off);
    FindCrlfFirstAt(buf, off, off + |a|, n);
    if n > 1 {
      FindCrlfSkips(buf, off + |a| + 1, off + |a| + 2, n - 1);
    }
  }

  /**
   When the bytes of `buf` from `off` on are a prefix of a CRLF-free block
   followed by a lone CR, no CRLF starts there.
   */
  lemma NoCrlfInPartial(buf: seq<Byte>, off: nat, a: seq<Byte>)
    requires off <= |buf| && |buf| - off <= |a| + 1
    requires buf[off..] == (a + [CR])[..|buf| - off]
    requires !HasCrlf(a)
    ensures NoCrlfIn(buf, off, |buf|)
  {
    var w := a + [CR];
    forall k | off <= k < |buf|
      ensures !IsCrlfAt(buf, k)
    {
      if k + 1 < |buf| {
        assert buf[k] == buf[off..][k - off] == w[k - off];
        assert buf[k + 1] == buf[off..][k + 1 - off] == w[k + 1 - off];
        if k + 1 - off < |a| {
          assert !IsCrlfAt(a, k - off);
        }
      }
    }
  }

  lemma NoCrlfCons(b: Byte, t: seq<Byte>)
    requires b != CR && !HasCrlf(t)
    ensures !HasCrlf([b] + t)
  {
    var s := [b] + t;
    forall k | 0 <= k < |s| ensures !IsCrlfAt(s, k) {
      if k > 0 && k + 1 < |s| {
        assert s[k] == t[k - 1] && s[k + 1] == t[k];
        assert !IsCrlfAt(t, k - 1);
      }
    }
  }

  /** Some CRLF starts before `k` exactly when the count up to `k` is positive. */
  lemma {:induction false} CrlfCounted(buf: seq<Byte>, k: nat)
    requires k <= |buf|
    ensures CountCrlf(buf, k) >= 1 <==> exists i :: 0 <= i < k && IsCrlfAt(buf, i)
  {
    if k > 0 {
      CrlfCounted(buf, k - 1);
    }
  }
}
