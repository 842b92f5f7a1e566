/**
 The conversions into frames (`From<&str>`, `From<&[u8]>` and
 `RespMap::new`), stated by what the built frame does on the wire: each
 one is written and read back as itself whenever its contents allow it.
 */
module Conversions {
  import opened Results
  import opened Bytes
  import opened Numbers
  import opened Frames
  import opened Collections
  import opened Encoder
  import opened Decoder
  import opened RoundTrip

  /**
   `From<&str>`: a string becomes a simple string of the same text, which
   survives the wire whenever the text fits on one line.
   */
  function FromText(s: seq<Byte>): (r: Frame)
    ensures r.SimpleString? && r.text == s
    ensures IsText(s) ==> Decode(Encode(r)) == Ok((r, []))
  {
    var r := SimpleString(s);
    if IsText(s) then
      DecodeOfText(r, []);
      assert Encode(r) + [] == Encode(r);
      r
    else r
  }

  /**
   `From<&[u8]>` and `From<&[u8; N]>`: bytes become a bulk string of the
   same bytes, written with their count and read back as themselves.
   */
  function FromBytes(b: seq<Byte>): (r: Frame)
    ensures r.BulkString? && r.data == b
    ensures Encode(r) == Sized(PREFIX_BULK_STRING, b)
    ensures IsSizedPayload(b) ==> Decode(Encode(r)) == Ok((r, []))
  {
    var r := BulkString(b);
    if IsSizedPayload(b) then
      DecodeOfBulk(r, []);
      assert Encode(r) + [] == Encode(r);
      r
    else r
  }

  /** `RespMap::new()`: a map in which no key is found, written `%0\r\n` and read back as itself. */
  function EmptyMap(): (r: Frame)
    ensures r.Map? && Keys(r.entries) == {}
    ensures Encode(r) == [PREFIX_MAP, ZERO] + CRLF
    ensures Decode(Encode(r)) == Ok((r, []))
  {
    var r := Map([]);
    DecodeOfEncode(r, []);
    assert Encode(r) + [] == Encode(r);
    r
  }
}
