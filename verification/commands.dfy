/** Command and response framing (commands.rs): the ten-byte header that
    starts every TPM command and every TPM response. */
module Commands {
  import opened Wire
  import opened InOut
  import opened Tcg

  /** The header of a command: tag, total size of the command in bytes
      (header included), command code. */
  datatype CommandHeader = CommandHeader(tag: TpmiStCommandTag, commandSize: u32, commandCode: TpmCc)

  /** The header of a response: tag, total size, response code. */
  datatype ResponseHeader = ResponseHeader(tag: TpmiStCommandTag, responseSize: u32, responseCode: TpmRc)

  /** `size_of` tag + `size_of` u32 + `size_of` command code. */
  const HeaderSize: nat := 10

  /** `ResponseHeader::new()`: the value a response starts from before it
      is unpacked. */
  const NewResponseHeader: ResponseHeader := ResponseHeader(0, 0, Success)

  /** The bytes `pack` writes for a command header: the three fields in
      declaration order, each big-endian. */
  function EncodeCommandHeader(h: CommandHeader): (r: seq<byte>)
    ensures |r| == HeaderSize
  {
    Encode(U16, h.tag) + Encode(U32, h.commandSize) + Encode(U32, h.commandCode)
  }

  /** `CommandHeader::pack`: the tag, then the size, then the code, each
      appended by the primitive `pack`. */
  function PackCommandHeader(h: CommandHeader, out: seq<byte>): (r: seq<byte>)
    ensures |r| == |out| + HeaderSize
    ensures r[..|out|] == out
    ensures FromBigEndian(r[|out|..|out| + 2]) == h.tag
    ensures FromBigEndian(r[|out| + 2..|out| + 6]) == h.commandSize
    ensures FromBigEndian(r[|out| + 6..]) == h.commandCode
  {
    var o1 := Pack(U16, h.tag, out);
    var o2 := Pack(U32, h.commandSize, o1);
    var o3 := Pack(U32, h.commandCode, o2);
    assert o3[|out|..|out| + 2] == o1[|out|..] by {
      assert o3[..|o1|] == o1;
    }
    assert o3[|out| + 2..|out| + 6] == o2[|o1|..] by {
      assert o3[..|o2|] == o2;
    }
    o3
  }

  /** The packing order is the encoding: the header's bytes follow what was
      already in the buffer. */
  lemma PackCommandHeaderIsEncoding(h: CommandHeader, out: seq<byte>)
    ensures PackCommandHeader(h, out) == out + EncodeCommandHeader(h)
  {
    var s := Encode(U16, h.tag);
    var z := Encode(U32, h.commandSize);
    var c := Encode(U32, h.commandCode);
    assert out + s + z + c == out + (s + z + c);
  }

  /** The header as the TPM writes it (the inverse direction, which the
      client never performs). */
  function EncodeResponseHeader(h: ResponseHeader): (r: seq<byte>)
    ensures |r| == HeaderSize
  {
    Encode(U16, h.tag) + Encode(U32, h.responseSize) + EncodeRc(h.responseCode)
  }

  /** `ResponseHeader::unpack`: the tag, the size and the code, each
      unpacked in place in that order; the first failure is returned at
      once, so the fields unpacked before it keep their new values. */
  function UnpackResponseHeader(target: ResponseHeader, input: seq<byte>): (r: Unpacked<ResponseHeader>)
    ensures r.status.Ok? <==> HeaderSize <= |input|
    ensures r.status.Ok? ==> r.status.value == input[HeaderSize..]
    ensures r.status.Ok? ==> r.value == ResponseHeader(FromBigEndian(input[..2]), FromBigEndian(input[2..6]),
                                                       TpmRc(FromBigEndian(input[6..10])))
    ensures r.status.Err? ==> r.status.error == Deserialization
    ensures |input| < 2 ==> r.value == target
    ensures 2 <= |input| < 6 ==> r.value == target.(tag := FromBigEndian(input[..2]))
    ensures 6 <= |input| < 10 ==>
              r.value == target.(tag := FromBigEndian(input[..2]), responseSize := FromBigEndian(input[2..6]))
  {
    var t := Unpack(U16, target.tag, input);
    var h1 := target.(tag := t.value);
    if t.status.Err? then Unpacked(h1, Err(t.status.error))
    else
      var rest1 := t.status.value;
      var s := Unpack(U32, target.responseSize, rest1);
      var h2 := h1.(responseSize := s.value);
      if s.status.Err? then Unpacked(h2, Err(s.status.error))
      else
        assert rest1[..4] == input[2..6];
        var rest2 := s.status.value;
        var c := UnpackRc(target.responseCode, rest2);
        var h3 := h2.(responseCode := c.value);
        if c.status.Err? then Unpacked(h3, Err(c.status.error))
        else
          assert rest2[..4] == input[6..10] && rest2[4..] == input[10..];
          Unpacked(h3, Ok(c.status.value))
  }

  /** Round trip: unpacking the bytes the TPM writes for a header yields
      that header, whatever the target held, and leaves the bytes after it. */
  lemma ResponseHeaderRoundTrip(h: ResponseHeader, target: ResponseHeader, rest: seq<byte>)
    ensures UnpackResponseHeader(target, EncodeResponseHeader(h) + rest) == Unpacked(h, Ok(rest))
  {
    var input := EncodeResponseHeader(h) + rest;
    var t := Encode(U16, h.tag);
    var s := Encode(U32, h.responseSize);
    var c := EncodeRc(h.responseCode);
    assert input == t + (s + (c + rest));
    UnpackEncoded(U16, h.tag, target.tag, s + (c + rest));
    UnpackEncoded(U32, h.responseSize, target.responseSize, c + rest);
    UnpackRcEncoded(h.responseCode, target.responseCode, rest);
  }
}
