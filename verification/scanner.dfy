/**
 The byte-level helpers the per-variant decoders share: reading one line
 with a given prefix, a fixed line, a count header, and a length-prefixed
 payload; and the two sizings every frame is measured with (up to the
 first CRLF for one-line frames, up to the second for sized ones).
 */
module Scanner {
  import opened Results
  import opened Bytes
  import opened Numbers
  import opened Utf8
  import opened Frames

  /** `rest` is what remains of `buf` after at least `k` bytes were consumed from its front. */
  predicate Consumed(buf: seq<Byte>, rest: seq<Byte>, k: nat) {
    |rest| + k <= |buf| && rest == buf[|buf| - |rest|..]
  }

  /**
   The payload of a one-line frame with the given prefix (converted to text
   lossily) and the bytes after its CRLF.
   */
  function ReadLine(buf: seq<Byte>, prefix: Byte): (r: Decoded<(seq<Byte>, seq<Byte>)>)
    requires IsPrefixByte(prefix)
    ensures r.Ok? ==> Consumed(buf, r.value.1, 3)
    ensures r.Err? ==> r.error == Incomplete || r.error.InvalidFrameType?
    ensures (r.Err? && r.error.InvalidFrameType?) <==> |buf| >= 3 && buf[0] != prefix
    ensures r.Ok? ==> ValidUtf8(r.value.0)
  {
    if |buf| < 3 then Err(Incomplete)
    else if buf[0] != prefix then Err(InvalidFrameType("unexpected prefix"))
    else match FindCrlf(buf, 1)
      case None => Err(Incomplete)
      case Some(e) =>
        LossyIsValid(buf[1..e]);
        Ok((Lossy(buf[1..e]), buf[e + 2..]))
  }

  /** A one-line frame whose payload must be exactly `expected`. */
  function ReadFixed(buf: seq<Byte>, prefix: Byte, expected: seq<Byte>): (r: Decoded<seq<Byte>>)
    requires IsPrefixByte(prefix)
    ensures r.Ok? ==> Consumed(buf, r.value, 3)
    ensures r.Ok? ==> ReadLine(buf, prefix).Ok? && ReadLine(buf, prefix).value.0 == expected
    ensures r.Err? && r.error.Invalid? ==> ReadLine(buf, prefix).Ok?
    ensures r.Err? && !r.error.Invalid? ==> ReadLine(buf, prefix).Err?
  {
    var (data, rest) :- ReadLine(buf, prefix);
    if data == expected then Ok(rest) else Err(Invalid("unexpected payload"))
  }

  /** A count header: the number of elements of an aggregate and the bytes after the header. */
  function ReadCount(buf: seq<Byte>, prefix: Byte): (r: Decoded<(nat, seq<Byte>)>)
    requires IsPrefixByte(prefix)
    ensures r.Ok? ==> Consumed(buf, r.value.1, 3) && r.value.0 <= USIZE_MAX
  {
    var (data, rest) :- ReadLine(buf, prefix);
    match ParseUsize(data)
    case None => Err(Invalid("bad count"))
    case Some(n) => Ok((n, rest))
  }

  /**
   The count of an aggregate and the index of the CRLF that ends its header,
   read without checking the prefix.
   */
  function CountHeader(buf: seq<Byte>): (r: Decoded<(nat, nat)>)
    requires |buf| > 0 && buf[0] != CR
    ensures r.Ok? ==> 1 <= r.value.1 && r.value.1 + 2 <= |buf| && r.value.0 <= USIZE_MAX
    ensures r.Err? ==> r.error == Incomplete || r.error.Invalid?
  {
    match FindCrlf(buf, 1)
    case None => Err(Incomplete)
    case Some(e) =>
      match ParseUsize(Lossy(buf[1..e]))
      case None => Err(Invalid("bad count"))
      case Some(n) => Ok((n, e))
  }

  /** The size of a one-line frame: through its first CRLF. */
  function LineLength(buf: seq<Byte>): (r: Decoded<nat>)
    ensures r.Ok? ==> 2 <= r.value <= |buf| && IsCrlfAt(buf, r.value - 2)
    ensures r.Ok? <==> HasCrlf(buf)
    ensures r.Err? ==> r.error == Incomplete
  {
    CrlfCounted(buf, |buf|);
    match FindCrlf(buf, 1)
    case None => Err(Incomplete)
    case Some(e) => Ok(e + 2)
  }

  /** The size of a sized frame: through its second CRLF. */
  function SizedLength(buf: seq<Byte>): (r: Decoded<nat>)
    ensures r.Ok? ==> 4 <= r.value <= |buf| && IsCrlfAt(buf, r.value - 2)
    ensures r.Ok? <==> CountCrlf(buf, |buf|) >= 2
    ensures r.Err? ==> r.error == Incomplete
  {
    match FindCrlf(buf, 2)
    case None => Err(Incomplete)
    case Some(e) => Ok(e + 2)
  }

  /**
   The declared length of a sized frame that spans exactly `frame`, and the
   index of the CRLF ending its header; a header that is not a decimal, or
   a declared length that does not fill `frame` exactly, is rejected.
   */
  function ParseLength(frame: seq<Byte>): (r: Decoded<(nat, nat)>)
    requires |frame| > 0 && frame[0] != CR
    ensures r.Ok? ==> r.value.0 >= 1 && r.value.0 + 2 + r.value.1 + 2 == |frame|
    ensures r.Err? ==> r.error == Incomplete || r.error == InvalidFrameLength
  {
    match FindCrlf(frame, 1)
    case None => Err(Incomplete)
    case Some(lenEnd) =>
      match ParseUsize(Lossy(frame[1..lenEnd]))
      case None => Err(InvalidFrameLength)
      case Some(len) =>
        if lenEnd + 2 + len + 2 != |frame| then Err(InvalidFrameLength)
        else Ok((lenEnd, len))
  }

  /** The payload of a sized frame with the given prefix and the bytes after it. */
  function ReadSized(buf: seq<Byte>, prefix: Byte): (r: Decoded<(seq<Byte>, seq<Byte>)>)
    requires IsPrefixByte(prefix)
    ensures r.Ok? ==> Consumed(buf, r.value.1, 4 + |r.value.0|)
    ensures (r.Err? && r.error.InvalidFrameType?) <==> |buf| >= 3 && buf[0] != prefix
  {
    if |buf| < 3 then Err(Incomplete)
    else if buf[0] != prefix then Err(InvalidFrameType("unexpected prefix"))
    else
      var total :- SizedLength(buf);
      var frame := buf[..total];
      var (lenEnd, len) :- ParseLength(frame);
      Ok((frame[lenEnd + 2..lenEnd + 2 + len], buf[total..]))
  }
}
