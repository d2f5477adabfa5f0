/**
 * The record codec: one byte buffer holding an 8-byte length header, the
 * UTF-8 JSON text of a value, and an optional opaque attachment taken
 * verbatim as whatever bytes remain.
 */
module DataBuffer {
  import opened Wrappers
  import Octets
  import opened Json
  import LengthHeader

  /** What decoding yields: the bare value, or the `{ value, attachment }` pair. */
  datatype Decoded = Bare(value: Json) | Attached(value: Json, attachment: Bytes)

  /** Why decoding throws. */
  datatype DecodeError =
    | HeaderOutOfRange  // fewer than 8 bytes: `readDoubleBE(0)` throws
    | HeaderNotALength  // the header is not a non-negative integer
    | BadJson           // `JSON.parse` throws

  /** `attachment ? attachment : <nothing>`: a missing attachment contributes no bytes. */
  function AttachmentBytes(attachment: Option<Bytes>): Bytes {
    match attachment
    case None => []
    case Some(a) => a
  }

  /** The JSON text of `v` is short enough for its length to be written exactly. */
  ghost predicate Encodable(c: TextCodec, v: Json) {
    LengthHeader.Exact(|c.stringify(v)|)
  }

  /** The buffer `fromValue(v, attachment)` builds. */
  function Encode(c: TextCodec, v: Json, attachment: Option<Bytes>): (buf: Bytes)
    requires Encodable(c, v)
    ensures |buf| == LengthHeader.HeaderSize + |c.stringify(v)| + |AttachmentBytes(attachment)|
    ensures buf[LengthHeader.HeaderSize..] == c.stringify(v) + AttachmentBytes(attachment)
  {
    LengthHeader.EncodeLength(|c.stringify(v)|) + c.stringify(v) + AttachmentBytes(attachment)
  }

  /**
   * The record a buffer holds. The JSON text is read from offset 8 up to
   * offset 8 + N, cut short at the end of the buffer as `toString` does; bytes
   * beyond 8 + N are the attachment.
   */
  function Decode(c: TextCodec, buf: Bytes): (r: Result<Decoded, DecodeError>)
    ensures r == Err(HeaderOutOfRange) <==> |buf| < LengthHeader.HeaderSize
    ensures |buf| >= LengthHeader.HeaderSize ==>
      (r == Err(HeaderNotALength) <==> LengthHeader.DecodeLength(buf[..LengthHeader.HeaderSize]).None?)
    ensures r.Ok? ==>
      && var n := LengthHeader.DecodeLength(buf[..LengthHeader.HeaderSize]).value;
      && (r.value.Attached? <==> |buf| > LengthHeader.HeaderSize + n)
      && (r.value.Attached? ==> r.value.attachment == buf[LengthHeader.HeaderSize + n..])
  {
    if |buf| < LengthHeader.HeaderSize then Err(HeaderOutOfRange)
    else
      match LengthHeader.DecodeLength(buf[..LengthHeader.HeaderSize])
      case None => Err(HeaderNotALength)
      case Some(n) =>
        var start := LengthHeader.HeaderSize + n;
        var text := buf[LengthHeader.HeaderSize .. if start < |buf| then start else |buf|];
        match c.parse(text)
        case None => Err(BadJson)
        case Some(v) =>
          if |buf| > start then Ok(Attached(v, buf[start..])) else Ok(Bare(v))
  }

  /** `toValue`: as `Decode`, except that a missing buffer yields `null`. */
  function ToValue(c: TextCodec, buf: Option<Bytes>): (r: Result<Decoded, DecodeError>)
    ensures buf.None? ==> r == Ok(Bare(Null))
    ensures r.Err? ==> buf.Some? && r == Decode(c, buf.value)
  {
    match buf
    case None => Ok(Bare(Null))
    case Some(b) => Decode(c, b)
  }

  /** `buf.write(src, offset)` / `buf.fill(src, offset)` where `src` fits exactly. */
  method Write(buf: array<Octets.byte>, offset: nat, src: Bytes)
    requires offset + |src| <= buf.Length
    modifies buf
    ensures buf[..] == old(buf[..offset]) + src + old(buf[offset + |src|..])
  {
    var i := 0;
    while i < |src|
      invariant 0 <= i <= |src|
      invariant buf[..offset] == old(buf[..offset])
      invariant buf[offset..offset + i] == src[..i]
      invariant buf[offset + |src|..] == old(buf[offset + |src|..])
      invariant buf[offset + i..offset + |src|] == old(buf[offset + i..offset + |src|])
    {
      buf[offset + i] := src[i];
      i := i + 1;
    }
    assert buf[..] == buf[..offset] + buf[offset..offset + |src|] + buf[offset + |src|..];
  }

  /** `fromValue(v, attachment)`: allocate the buffer and fill in its three parts. */
  method FromValue(c: TextCodec, v: Json, attachment: Option<Bytes>) returns (buf: array<Octets.byte>)
    requires Encodable(c, v)
    ensures fresh(buf)
    ensures buf[..] == Encode(c, v, attachment)
  {
    var text := c.stringify(v);
    var extra := AttachmentBytes(attachment);
    var start := LengthHeader.HeaderSize + |text|;
    buf := new Octets.byte[start + |extra|](_ => 0);
    var header := LengthHeader.EncodeLength(|text|);
    Write(buf, 0, header);
    assert buf[..LengthHeader.HeaderSize] == header;
    ghost var afterHeader := buf[..];
    Write(buf, LengthHeader.HeaderSize, text);
    assert buf[..start] == afterHeader[..LengthHeader.HeaderSize] + text;
    if |extra| > 0 {
      ghost var afterText := buf[..];
      Write(buf, start, extra);
      assert buf[..] == afterText[..start] + extra;
    } else {
      assert buf[..] == buf[..start];
    }
  }

  /** What decoding a freshly encoded buffer is expected to give back. */
  function Expected(v: Json, attachment: Option<Bytes>): Decoded {
    if |AttachmentBytes(attachment)| > 0 then Attached(v, AttachmentBytes(attachment)) else Bare(v)
  }

  /**
   * The layout of an encoded buffer: its length is 8 + N + the attachment
   * length, the header reads back as N, bytes [8, 8 + N) are the JSON text and
   * bytes [8 + N, end) are the attachment verbatim.
   */
  lemma EncodeLayout(c: TextCodec, v: Json, attachment: Option<Bytes>)
    requires Encodable(c, v)
    ensures var buf, n := Encode(c, v, attachment), |c.stringify(v)|;
      && |buf| == LengthHeader.HeaderSize + n + |AttachmentBytes(attachment)|
      && LengthHeader.DecodeLength(buf[..LengthHeader.HeaderSize]) == Some(n)
      && buf[LengthHeader.HeaderSize..LengthHeader.HeaderSize + n] == c.stringify(v)
      && buf[LengthHeader.HeaderSize + n..] == AttachmentBytes(attachment)
  {
    var buf, n := Encode(c, v, attachment), |c.stringify(v)|;
    assert buf[..LengthHeader.HeaderSize] == LengthHeader.EncodeLength(n);
    LengthHeader.LengthRoundTrip(n);
  }

  /**
   * Decoding an encoded buffer gives back the value, paired with the
   * attachment when the attachment has bytes, and bare otherwise.
   */
  lemma RoundTrip(c: TextCodec, v: Json, attachment: Option<Bytes>)
    requires Lawful(c) && Plain(v) && Encodable(c, v)
    ensures Decode(c, Encode(c, v, attachment)) == Ok(Expected(v, attachment))
  {
    EncodeLayout(c, v, attachment);
    assert c.parse(c.stringify(v)) == Some(v);
  }

  /** With a non-empty attachment, decoding returns `{ value, attachment }`. */
  lemma RoundTripWithAttachment(c: TextCodec, v: Json, attachment: Bytes)
    requires Lawful(c) && Plain(v) && Encodable(c, v) && |attachment| > 0
    ensures Decode(c, Encode(c, v, Some(attachment))) == Ok(Attached(v, attachment))
  {
    RoundTrip(c, v, Some(attachment));
  }

  /**
   * With no attachment, or an empty one, the buffer is exactly 8 + N bytes,
   * both encode alike, and decoding returns the bare value.
   */
  lemma RoundTripWithoutAttachment(c: TextCodec, v: Json)
    requires Lawful(c) && Plain(v) && Encodable(c, v)
    ensures Encode(c, v, Some([])) == Encode(c, v, None)
    ensures |Encode(c, v, None)| == LengthHeader.HeaderSize + |c.stringify(v)|
    ensures Decode(c, Encode(c, v, None)) == Ok(Bare(v))
  {
    RoundTrip(c, v, None);
  }

  /**
   * `toValue` of a missing buffer is `null`; `toValue` of a buffer built by
   * `fromValue` gives back what was put in.
   */
  lemma ToValueRoundTrip(c: TextCodec, v: Json, attachment: Option<Bytes>)
    requires Lawful(c) && Plain(v) && Encodable(c, v)
    ensures ToValue(c, None) == Ok(Bare(Null))
    ensures ToValue(c, Some(Encode(c, v, attachment))) == Ok(Expected(v, attachment))
  {
    RoundTrip(c, v, attachment);
  }

  /**
   * The value is decided by the first 8 + N bytes alone: appending bytes to a
   * complete record changes only the attachment it decodes to.
   */
  lemma SuffixOnlyAttachment(c: TextCodec, record: Bytes, suffix: Bytes)
    requires |record| >= LengthHeader.HeaderSize
    requires LengthHeader.DecodeLength(record[..LengthHeader.HeaderSize])
      == Some(|record| - LengthHeader.HeaderSize)
    ensures Decode(c, record + suffix) ==
      match Decode(c, record)
      case Ok(d) => Ok(if |suffix| > 0 then Attached(d.value, suffix) else Bare(d.value))
      case Err(e) => Err(e)
  {
    var buf, h := record + suffix, LengthHeader.HeaderSize;
    assert buf[..h] == record[..h];
    assert LengthHeader.DecodeLength(buf[..h]) == Some(|record| - h);
    assert buf[h..|record|] == record[h..|record|];
    assert buf[|record|..] == suffix;
  }
}
