/**
 UTF-8 well-formedness and `String::from_utf8_lossy`, following the chunk
 scanner of the Rust standard library: each step either accepts one
 well-formed scalar or rejects a maximal ill-formed subpart of 1 to 3 bytes,
 which the lossy conversion replaces by U+FFFD.
 */
module Utf8 {
  import opened Bytes

  /** One step of the scanner over a non-empty input. */
  datatype Step = Char(len: nat) | Bad(len: nat)

  /** U+FFFD REPLACEMENT CHARACTER in UTF-8. */
  const REPLACEMENT: seq<Byte> := [0xEF, 0xBF, 0xBD]

  /** Byte `i` of `b`, or 0 past the end (the scanner's `safe_get`). */
  function At(b: seq<Byte>, i: nat): Byte {
    if i < |b| then b[i] else 0
  }

  predicate IsCont(x: Byte) {
    0x80 <= x <= 0xBF
  }

  /** Allowed second bytes of a three-byte sequence led by `x`. */
  predicate SecondOf3(x: Byte, y: Byte) {
    || (x == 0xE0 && 0xA0 <= y <= 0xBF)
    || (0xE1 <= x <= 0xEC && IsCont(y))
    || (x == 0xED && 0x80 <= y <= 0x9F)
    || (0xEE <= x <= 0xEF && IsCont(y))
  }

  /** Allowed second bytes of a four-byte sequence led by `x`. */
  predicate SecondOf4(x: Byte, y: Byte) {
    || (x == 0xF0 && 0x90 <= y <= 0xBF)
    || (0xF1 <= x <= 0xF3 && IsCont(y))
    || (x == 0xF4 && 0x80 <= y <= 0x8F)
  }

  function Scan(b: seq<Byte>): (s: Step)
    requires |b| > 0
    ensures 1 <= s.len <= |b| && s.len <= 4
  {
    var x := b[0];
    if x < 0x80 then Char(1)
    else if 0xC2 <= x <= 0xDF then
      if IsCont(At(b, 1)) then Char(2) else Bad(1)
    else if 0xE0 <= x <= 0xEF then
      if !SecondOf3(x, At(b, 1)) then Bad(1)
      else if !IsCont(At(b, 2)) then Bad(2)
      else Char(3)
    else if 0xF0 <= x <= 0xF4 then
      if !SecondOf4(x, At(b, 1)) then Bad(1)
      else if !IsCont(At(b, 2)) then Bad(2)
      else if !IsCont(At(b, 3)) then Bad(3)
      else Char(4)
    else Bad(1)
  }

  /** Well-formed UTF-8: the scanner accepts every step. */
  predicate ValidUtf8(b: seq<Byte>)
    decreases |b|
  {
    b == [] || (Scan(b).Char? && ValidUtf8(b[Scan(b).len..]))
  }

  /** `String::from_utf8_lossy`: keep accepted scalars, replace rejected subparts. */
  function Lossy(b: seq<Byte>): seq<Byte>
    decreases |b|
  {
    if b == [] then []
    else
      var s := Scan(b);
      (if s.Char? then b[..s.len] else REPLACEMENT) + Lossy(b[s.len..])
  }

  /** The scanner's verdict on a scalar depends only on that scalar's bytes. */
  lemma ScanKeepsChar(b: seq<Byte>, tail: seq<Byte>)
    requires |b| > 0 && Scan(b).Char?
    ensures Scan(b[..Scan(b).len] + tail) == Scan(b)
  {
    var n := Scan(b).len;
    var c := b[..n] + tail;
    assert forall i :: 0 <= i < n ==> At(c, i) == At(b, i);
  }

  /** Valid input is returned unchanged. */
  lemma {:induction false} LossyOfValid(b: seq<Byte>)
    requires ValidUtf8(b)
    ensures Lossy(b) == b
    decreases |b|
  {
    if b != [] {
      var n := Scan(b).len;
      LossyOfValid(b[n..]);
      assert b == b[..n] + b[n..];
    }
  }

  /** The lossy conversion always produces valid UTF-8. */
  lemma {:induction false} LossyIsValid(b: seq<Byte>)
    ensures ValidUtf8(Lossy(b))
    decreases |b|
  {
    if b != [] {
      var s := Scan(b);
      var rest := Lossy(b[s.len..]);
      LossyIsValid(b[s.len..]);
      var head := if s.Char? then b[..s.len] else REPLACEMENT;
      var out := head + rest;
      if s.Char? {
        ScanKeepsChar(b, rest);
      } else {
        assert Scan(out) == Char(3);
      }
      assert out[|head|..] == rest;
    }
  }

  /** Both directions: the lossy conversion is the identity exactly on valid UTF-8. */
  lemma LossyFixesExactlyValid(b: seq<Byte>)
    ensures ValidUtf8(b) <==> Lossy(b) == b
  {
    if ValidUtf8(b) {
      LossyOfValid(b);
    } else {
      LossyIsValid(b);
    }
  }

  /** ASCII text is valid UTF-8. */
  lemma {:induction false} AsciiIsValid(b: seq<Byte>)
    requires IsAscii(b)
    ensures ValidUtf8(b)
    decreases |b|
  {
    if b != [] {
      AsciiIsValid(b[1..]);
    }
  }

  /** A lone 0xFF byte is replaced, growing the text from one byte to three. */
  lemma LossyOfFF()
    ensures Lossy([0xFF]) == REPLACEMENT
  {
    var b: seq<Byte> := [0xFF];
    assert Scan(b) == Bad(1);
    assert b[1..] == [];
  }
}
