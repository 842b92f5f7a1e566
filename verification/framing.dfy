/**
 How the scanner reads what the encoder writes: a whole line or sized
 payload followed by anything is read back exactly, and any strict prefix
 of one is reported as incomplete.
 */
module Framing {
  import opened Results
  import opened Bytes
  import opened Numbers
  import opened Utf8
  import opened Frames
  import opened Scanner
  import opened Encoder

  /** A strict prefix of `whole`. */
  predicate StrictPrefix(q: seq<Byte>, whole: seq<Byte>) {
    |q| < |whole| && q == whole[..|q|]
  }

  lemma DigitsAreText(d: seq<Byte>)
    requires AllDigits(d)
    ensures !HasCrlf(d) && Lossy(d) == d
  {
    DigitsAreInert(d);
    AsciiIsValid(d);
    LossyOfValid(d);
  }

  /** The first CRLF of a written line is the one that ends it. */
  lemma FirstCrlfOfLine(p: Byte, t: seq<Byte>, rest: seq<Byte>)
    requires IsPrefixByte(p) && !HasCrlf(t)
    ensures FindCrlf(Line(p, t) + rest, 1) == Some(|t| + 1)
  {
    var buf := Line(p, t) + rest;
    var e := |t| + 1;
    NoCrlfCons(p, t);
    assert buf[..e] == [p] + t;
    assert buf[e] == CR && buf[e + 1] == LF;
    CrlfAfterBlock(buf, 0, [p] + t, 1);
  }

  lemma LineParts(p: Byte, t: seq<Byte>, rest: seq<Byte>)
    ensures (Line(p, t) + rest)[1..|t| + 1] == t
    ensures (Line(p, t) + rest)[|t| + 3..] == rest
  {
    var buf := Line(p, t) + rest;
    assert buf == [p] + t + CRLF + rest;
  }

  /** Reading a line whose first CRLF is known. */
  lemma ReadLineAt(buf: seq<Byte>, p: Byte, e: nat)
    requires IsPrefixByte(p) && |buf| >= 3 && buf[0] == p && FindCrlf(buf, 1) == Some(e)
    ensures 1 <= e && e + 2 <= |buf|
    ensures ReadLine(buf, p) == Ok((Lossy(buf[1..e]), buf[e + 2..]))
    ensures LineLength(buf) == Ok(e + 2)
  {
  }

  /** A written line followed by anything is read back, and sized as the line. */
  lemma ReadLineOfLine(p: Byte, t: seq<Byte>, rest: seq<Byte>)
    requires IsPrefixByte(p) && !HasCrlf(t)
    ensures ReadLine(Line(p, t) + rest, p) == Ok((Lossy(t), rest))
    ensures LineLength(Line(p, t) + rest) == Ok(|t| + 3)
  {
    var buf := Line(p, t) + rest;
    var e := |t| + 1;
    FirstCrlfOfLine(p, t, rest);
    ReadLineAt(buf, p, e);
    LineParts(p, t, rest);
  }

  /** Every strict prefix of a written line is incomplete, to the reader and to the sizing. */
  lemma LinePrefixIncomplete(p: Byte, t: seq<Byte>, q: seq<Byte>)
    requires IsPrefixByte(p) && !HasCrlf(t)
    requires StrictPrefix(q, Line(p, t))
    ensures ReadLine(q, p) == Err(Incomplete)
    ensures LineLength(q) == Err(Incomplete)
  {
    NoCrlfCons(p, t);
    assert q[0..] == (([p] + t) + [CR])[..|q|];
    NoCrlfInPartial(q, 0, [p] + t);
    FindCrlfNoneFrom(q, 0, 1);
  }

  /** A count header followed by anything is read back, with or without the prefix check. */
  lemma ReadCountOfHeader(p: Byte, n: nat, rest: seq<Byte>)
    requires IsPrefixByte(p) && n <= USIZE_MAX
    ensures ReadCount(Line(p, Decimal(n)) + rest, p) == Ok((n, rest))
    ensures CountHeader(Line(p, Decimal(n)) + rest) == Ok((n, |Decimal(n)| + 1))
  {
    hide ReadLine, FindCrlf, FindCrlfFrom, CountCrlf, Lossy, Decimal, ParseUsize, HasCrlf, Line;
    var d := Decimal(n);
    DigitsAreText(d);
    ReadLineOfLine(p, d, rest);
    FirstCrlfOfLine(p, d, rest);
    LineParts(p, d, rest);
    ParseDecimal(n);
  }

  /** Every strict prefix of a count header is incomplete. */
  lemma HeaderPrefixIncomplete(p: Byte, n: nat, q: seq<Byte>)
    requires IsPrefixByte(p)
    requires StrictPrefix(q, Line(p, Decimal(n))) && |q| > 0
    ensures CountHeader(q) == Err(Incomplete)
  {
    DigitsAreText(Decimal(n));
    LinePrefixIncomplete(p, Decimal(n), q);
  }

  lemma SizedLayout(p: Byte, d: seq<Byte>)
    ensures Sized(p, d) == ([p] + Decimal(|d|)) + CRLF + d + CRLF
    ensures Sized(p, d)[..|Decimal(|d|)| + 3] == Line(p, Decimal(|d|))
  {
  }

  /** Where the header, its CRLF, the payload and the final CRLF sit in a written sized payload. */
  lemma SizedParts(p: Byte, d: seq<Byte>)
    ensures var w := Sized(p, d); var h := [p] + Decimal(|d|);
      && |w| == |h| + |d| + 4 && w[..|h|] == h && w[|h|] == CR && w[|h| + 1] == LF
      && w[|h| + 2..|h| + 2 + |d|] == d && w[|h| + 2 + |d|] == CR && w[|h| + 3 + |d|] == LF
  {
    var h := [p] + Decimal(|d|);
    SizedLayout(p, d);
    assert Sized(p, d) == h + (CRLF + (d + CRLF));
  }

  /** The parts of a written sized payload, followed by anything. */
  lemma SizedInBuffer(p: Byte, d: seq<Byte>, rest: seq<Byte>)
    ensures var buf := Sized(p, d) + rest; var h := [p] + Decimal(|d|);
      && |Sized(p, d)| == |h| + |d| + 4 && buf[..|h|] == h && IsCrlfAt(buf, |h|)
      && buf[|h| + 2..|h| + 2 + |d|] == d && IsCrlfAt(buf, |h| + 2 + |d|)
  {
    hide Sized, Decimal;
    var h := [p] + Decimal(|d|);
    var w := Sized(p, d);
    var buf := w + rest;
    SizedParts(p, d);
    assert buf[..|h|] == w[..|h|];
    assert buf[|h| + 2..|h| + 2 + |d|] == w[|h| + 2..|h| + 2 + |d|];
  }

  /** The two CRLFs of a written sized payload are the one ending its header and the final one. */
  lemma CrlfsOfSized(p: Byte, d: seq<Byte>, rest: seq<Byte>)
    requires IsPrefixByte(p) && IsSizedPayload(d)
    ensures FindCrlf(Sized(p, d) + rest, 2) == Some(|Sized(p, d)| - 2)
    ensures FindCrlf(Sized(p, d) + rest, 1) == Some(|Decimal(|d|)| + 1)
  {
    hide Sized, Decimal, FindCrlf, FindCrlfFrom, CountCrlf, HasCrlf, IsCrlfAt;
    var D := Decimal(|d|);
    var h := [p] + D;
    var buf := Sized(p, d) + rest;
    SizedInBuffer(p, d, rest);
    DigitsAreText(D);
    NoCrlfCons(p, D);
    FindCrlfIsScan(buf, 1);
    FindCrlfIsScan(buf, 2);
    CrlfAfterBlock(buf, 0, h, 2);
    CrlfAfterBlock(buf, 0, h, 1);
    CrlfAfterBlock(buf, |h| + 2, d, 1);
  }

  /** The header of a written sized payload declares exactly its length. */
  lemma ParseLengthOfSized(p: Byte, d: seq<Byte>)
    requires IsPrefixByte(p) && IsSizedPayload(d)
    ensures ParseLength(Sized(p, d)) == Ok((|Decimal(|d|)| + 1, |d|))
  {
    hide Sized, FindCrlf, FindCrlfFrom, CountCrlf, Lossy, Decimal, ParseUsize, HasCrlf, Line;
    var D := Decimal(|d|);
    var w := Sized(p, d);
    CrlfsOfSized(p, d, []);
    assert w + [] == w;
    SizedParts(p, d);
    assert w[1..|D| + 1] == w[..|D| + 1][1..];
    DigitsAreText(D);
    ParseDecimal(|d|);
  }

  /** Reading a sized payload whose frame length and header are known. */
  lemma ReadSizedAt(buf: seq<Byte>, p: Byte, total: nat, lenEnd: nat, len: nat)
    requires IsPrefixByte(p) && |buf| >= 3 && buf[0] == p
    requires SizedLength(buf) == Ok(total)
    requires ParseLength(buf[..total]) == Ok((lenEnd, len))
    ensures ReadSized(buf, p) == Ok((buf[lenEnd + 2..lenEnd + 2 + len], buf[total..]))
  {
    hide SizedLength, ParseLength, FindCrlf;
    assert buf[..total][lenEnd + 2..lenEnd + 2 + len] == buf[lenEnd + 2..lenEnd + 2 + len];
  }

  /** A written sized payload followed by anything is read back, and sized as written. */
  lemma ReadSizedOfSized(p: Byte, d: seq<Byte>, rest: seq<Byte>)
    requires IsPrefixByte(p) && IsSizedPayload(d)
    ensures SizedLength(Sized(p, d) + rest) == Ok(|Sized(p, d)|)
    ensures ReadSized(Sized(p, d) + rest, p) == Ok((d, rest))
  {
    hide Sized, ReadSized, ParseLength, FindCrlf, FindCrlfFrom, CountCrlf, Lossy, Decimal, ParseUsize, HasCrlf, Line;
    var whole := Sized(p, d);
    var buf := whole + rest;
    var lenEnd := |Decimal(|d|)| + 1;
    CrlfsOfSized(p, d, rest);
    ParseLengthOfSized(p, d);
    SizedInBuffer(p, d, rest);
    assert buf[..|whole|] == whole;
    assert buf[0] == p by { assert buf[0] == buf[..1 + |Decimal(|d|)|][0]; }
    ReadSizedAt(buf, p, |whole|, lenEnd, |d|);
    assert buf[|whole|..] == rest;
  }

  /** A strict prefix of a sized payload that stops inside its header has no CRLF. */
  lemma SizedPrefixInHeader(p: Byte, d: seq<Byte>, q: seq<Byte>)
    requires IsPrefixByte(p)
    requires StrictPrefix(q, Sized(p, d)) && |q| <= |Decimal(|d|)| + 2
    ensures FindCrlf(q, 2).None?
  {
    hide Sized, Decimal, FindCrlf, FindCrlfFrom, CountCrlf, HasCrlf, IsCrlfAt;
    var D := Decimal(|d|);
    var h := [p] + D;
    var w := Sized(p, d);
    SizedParts(p, d);
    DigitsAreText(D);
    NoCrlfCons(p, D);
    FindCrlfIsScan(q, 2);
    assert q == w[..|q|];
    assert w[..|h| + 1] == h + [CR];
    assert q[0..] == (h + [CR])[..|q|];
    NoCrlfInPartial(q, 0, h);
    FindCrlfNoneFrom(q, 0, 2);
  }

  /** The parts of a strict prefix of a sized payload that stops inside its payload. */
  lemma SizedPrefixParts(p: Byte, d: seq<Byte>, q: seq<Byte>)
    requires StrictPrefix(q, Sized(p, d)) && |q| > |Decimal(|d|)| + 2
    ensures var h := [p] + Decimal(|d|);
      && |q| - (|h| + 2) <= |d| + 1
      && q[..|h|] == h && IsCrlfAt(q, |h|) && q[|h| + 2..] == (d + [CR])[..|q| - (|h| + 2)]
  {
    hide Sized, Decimal;
    var h := [p] + Decimal(|d|);
    var w := Sized(p, d);
    SizedParts(p, d);
    assert q == w[..|q|];
    assert q[..|h|] == w[..|h|];
    assert w[|h| + 2..|h| + 3 + |d|] == d + [CR];
    assert q[|h| + 2..] == w[|h| + 2..|q|];
  }

  /** A strict prefix of a sized payload that stops inside its payload has one CRLF. */
  lemma SizedPrefixInPayload(p: Byte, d: seq<Byte>, q: seq<Byte>)
    requires IsPrefixByte(p) && IsSizedPayload(d)
    requires StrictPrefix(q, Sized(p, d)) && |q| > |Decimal(|d|)| + 2
    ensures FindCrlf(q, 2).None?
  {
    hide Sized, Decimal, FindCrlf, FindCrlfFrom, CountCrlf, HasCrlf, IsCrlfAt;
    var D := Decimal(|d|);
    var h := [p] + D;
    SizedPrefixParts(p, d, q);
    DigitsAreText(D);
    NoCrlfCons(p, D);
    FindCrlfIsScan(q, 2);
    CrlfAfterBlock(q, 0, h, 2);
    NoCrlfInPartial(q, |h| + 2, d);
    FindCrlfNoneFrom(q, |h| + 2, 1);
  }

  /** Every strict prefix of a sized payload is incomplete, to the reader and to the sizing. */
  lemma SizedPrefixIncomplete(p: Byte, d: seq<Byte>, q: seq<Byte>)
    requires IsPrefixByte(p) && IsSizedPayload(d)
    requires StrictPrefix(q, Sized(p, d))
    ensures SizedLength(q) == Err(Incomplete)
    ensures ReadSized(q, p) == Err(Incomplete)
  {
    hide ReadSized, SizedLength, FindCrlf;
    if |q| <= |Decimal(|d|)| + 2 {
      SizedPrefixInHeader(p, d, q);
    } else {
      SizedPrefixInPayload(p, d, q);
    }
    assert |q| >= 3 ==> q[0] == Sized(p, d)[0];
    SizedNoneIncomplete(q, p);
  }

  /** With no second CRLF, sizing and reading a sized payload are incomplete. */
  lemma SizedNoneIncomplete(q: seq<Byte>, p: Byte)
    requires IsPrefixByte(p) && FindCrlf(q, 2).None?
    requires |q| >= 3 ==> q[0] == p
    ensures SizedLength(q) == Err(Incomplete)
    ensures ReadSized(q, p) == Err(Incomplete)
  {
  }
}
