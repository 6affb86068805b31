/** The TPM structures the PCR-read command carries but whose definitions
    (tcg.rs, rc.rs) are not part of this model. Their layouts follow the
    TPM 2.0 Library Part 2 structures TPMI_ST_COMMAND_TAG (u16), TPM_CC
    (u32), TPM_RC (u32), TPMS_PCR_SELECTION, TPML_PCR_SELECTION,
    TPM2B_DIGEST and TPML_DIGEST: counted lists are a u32 count followed by
    the elements, sized buffers a u16 size followed by the bytes. */
module Tcg {
  import opened Wire
  import opened InOut

  /** TPMI_ALG_HASH: the hash-algorithm field of a selection. The callers
      fill it from module constants (`tcg::TPM_ALG_SHA256`), so it is the
      plain u16 code, not the closed `TpmAlgId` enumeration. */
  type TpmiAlgHash = u16
  type TpmiStCommandTag = u16
  type TpmCc = u32

  /** The crate's name for TPM_ST_NO_SESSIONS, the tag of a command sent
      without an authorization session. */
  const TPM_ST_NO_SESSION: TpmiStCommandTag := 0x8001
  /** TPM_CC_PCR_Read. */
  const TPM_CC_PCR_READ: TpmCc := 0x0000_017E
  /** TPM_ALG_SHA256. */
  const TPM_ALG_SHA256: TpmiAlgHash := 0x000B

  /** A response code. Its table of named codes is not part of this model,
      so every 4-byte value is a code; `Success` is 0. */
  datatype TpmRc = TpmRc(code: u32)

  const Success: TpmRc := TpmRc(0)

  function EncodeRc(rc: TpmRc): (r: seq<byte>)
    ensures |r| == 4 && FromBigEndian(r) == rc.code
  {
    Encode(U32, rc.code)
  }

  /** In-place `unpack` of a response code: four bytes, target unchanged on
      failure. */
  function UnpackRc(target: TpmRc, input: seq<byte>): (r: Unpacked<TpmRc>)
    ensures r.status.Ok? <==> 4 <= |input|
    ensures r.status.Ok? ==> r.value.code == FromBigEndian(input[..4]) && r.status.value == input[4..]
    ensures r.status.Err? ==> r.value == target && r.status.error == Deserialization
  {
    match Decode(U32, input)
    case Ok((c, rest)) => Unpacked(TpmRc(c), Ok(rest))
    case Err(e) => Unpacked(target, Err(e))
  }

  lemma UnpackRcEncoded(rc: TpmRc, target: TpmRc, rest: seq<byte>)
    ensures UnpackRc(target, EncodeRc(rc) + rest) == Unpacked(rc, Ok(rest))
  {
    DecodeEncoded(U32, rc.code, rest);
  }

  // ---------------------------------------------------------------- selections

  /** TPMS_PCR_SELECTION: the hash algorithm, the bitmap length and the
      bitmap; bit n of byte i selects register 8*i + n. */
  datatype TpmsPcrSelection = TpmsPcrSelection(hash: TpmiAlgHash, sizeofSelect: u8, pcrSelect: seq<byte>)

  /** TPML_PCR_SELECTION: a count and that many selections. */
  datatype TpmlPcrSelection = TpmlPcrSelection(count: u32, pcrSelections: seq<TpmsPcrSelection>)

  /** The length fields agree with the data they describe. */
  predicate WellFormedSelection(s: TpmsPcrSelection) {
    s.sizeofSelect == |s.pcrSelect|
  }

  predicate WellFormedSelectionList(l: TpmlPcrSelection) {
    && l.count == |l.pcrSelections|
    && forall i :: 0 <= i < |l.pcrSelections| ==> WellFormedSelection(l.pcrSelections[i])
  }

  function EncodeSelection(s: TpmsPcrSelection): (r: seq<byte>)
    ensures |r| == 3 + |s.pcrSelect|
  {
    Encode(U16, s.hash) + Encode(U8, s.sizeofSelect) + s.pcrSelect
  }

  function EncodeSelectionList(l: TpmlPcrSelection): seq<byte> {
    Encode(U32, l.count) + Concat(l.pcrSelections, EncodeSelection)
  }

  /** The encoded length of a run of selections: three bytes and the bitmap
      for every entry. */
  function SelectionsLength(ss: seq<TpmsPcrSelection>): nat {
    if |ss| == 0 then 0 else 3 + |ss[0].pcrSelect| + SelectionsLength(ss[1..])
  }

  lemma {:induction false} ConcatSelectionsLength(ss: seq<TpmsPcrSelection>)
    ensures |Concat(ss, EncodeSelection)| == SelectionsLength(ss)
  {
    if |ss| > 0 {
      ConcatSelectionsLength(ss[1..]);
    }
  }

  /** The encoded length of a selection list: the count field plus every
      entry. */
  lemma SelectionListLength(l: TpmlPcrSelection)
    ensures |EncodeSelectionList(l)| == 4 + SelectionsLength(l.pcrSelections)
  {
    ConcatSelectionsLength(l.pcrSelections);
  }

  function DecodeSelection(input: seq<byte>): Result<(TpmsPcrSelection, seq<byte>)> {
    var (hash, rest) :- Decode(U16, input);
    var (size, rest) :- Decode(U8, rest);
    var (bytes, rest) :- Read(rest, size);
    Ok((TpmsPcrSelection(hash, size, bytes), rest))
  }

  /** The count, then that many selections; fails as soon as the bytes run
      out, so a count larger than the data can hold is rejected. */
  function DecodeSelectionList(input: seq<byte>): (r: Result<(TpmlPcrSelection, seq<byte>)>)
    ensures r.Ok? ==> r.value.0.count == |r.value.0.pcrSelections|
  {
    var (count, rest) :- Decode(U32, input);
    var (ss, rest) :- DecodeMany(count, DecodeSelection, rest);
    Ok((TpmlPcrSelection(count, ss), rest))
  }

  /** Decoding a selection reads back its encoding. */
  lemma SelectionRoundTrip(s: TpmsPcrSelection, rest: seq<byte>)
    requires WellFormedSelection(s)
    ensures DecodeSelection(EncodeSelection(s) + rest) == Ok((s, rest))
  {
    var h := Encode(U16, s.hash);
    var z := Encode(U8, s.sizeofSelect);
    assert EncodeSelection(s) + rest == h + (z + (s.pcrSelect + rest));
    DecodeEncoded(U16, s.hash, z + (s.pcrSelect + rest));
    DecodeEncoded(U8, s.sizeofSelect, s.pcrSelect + rest);
    ReadPrefix(s.pcrSelect, rest);
  }

  lemma SelectionInverts()
    ensures Inverts(EncodeSelection, DecodeSelection, WellFormedSelection)
  {
    forall s, rest | WellFormedSelection(s)
      ensures DecodeSelection(EncodeSelection(s) + rest) == Ok((s, rest))
    {
      SelectionRoundTrip(s, rest);
    }
  }

  /** Round trip for a well-formed selection list. */
  lemma SelectionListRoundTrip(l: TpmlPcrSelection, rest: seq<byte>)
    requires WellFormedSelectionList(l)
    ensures DecodeSelectionList(EncodeSelectionList(l) + rest) == Ok((l, rest))
  {
    var tail := Concat(l.pcrSelections, EncodeSelection) + rest;
    assert Decode(U32, EncodeSelectionList(l) + rest) == Ok((l.count, tail)) by {
      assert EncodeSelectionList(l) + rest == Encode(U32, l.count) + tail;
      DecodeEncoded(U32, l.count, tail);
    }
    assert DecodeMany(l.count, DecodeSelection, tail) == Ok((l.pcrSelections, rest)) by {
      SelectionInverts();
      DecodeManyConcat(l.pcrSelections, EncodeSelection, DecodeSelection, WellFormedSelection, rest);
    }
  }

  /** Every decoded selection list is well formed: its count and every
      bitmap length agree with the data. */
  lemma DecodedSelectionListWellFormed(input: seq<byte>)
    ensures DecodeSelectionList(input).Ok? ==> WellFormedSelectionList(DecodeSelectionList(input).value.0)
  {
    if DecodeSelectionList(input).Ok? {
      var (count, rest) := Decode(U32, input).value;
      assert YieldsValid(DecodeSelection, WellFormedSelection);
      DecodeManyValid(count, DecodeSelection, WellFormedSelection, rest);
    }
  }

  lemma SelectionReadsBack()
    ensures ReadsBack(EncodeSelection, DecodeSelection)
  {
    forall b | DecodeSelection(b).Ok?
      ensures b == EncodeSelection(DecodeSelection(b).value.0) + DecodeSelection(b).value.1
    {
      var (hash, r1) := Decode(U16, b).value;
      EncodeDecoded(U16, b);
      var (size, r2) := Decode(U8, r1).value;
      EncodeDecoded(U8, r1);
      var (bytes, rest) := Read(r2, size).value;
      assert DecodeSelection(b).value == (TpmsPcrSelection(hash, size, bytes), rest);
      assert b == Encode(U16, hash) + Encode(U8, size) + bytes + rest;
    }
  }

  /** A selection list the decoder accepts is exactly the encoding of the
      list it yields, followed by the bytes it leaves. */
  lemma SelectionListReadsBack(input: seq<byte>)
    ensures DecodeSelectionList(input).Ok? ==>
              input == EncodeSelectionList(DecodeSelectionList(input).value.0) + DecodeSelectionList(input).value.1
  {
    if DecodeSelectionList(input).Ok? {
      var (count, rest) := Decode(U32, input).value;
      EncodeDecoded(U32, input);
      SelectionReadsBack();
      DecodeManyReadsBack(count, EncodeSelection, DecodeSelection, rest);
      var (xs, rest') := DecodeMany(count, DecodeSelection, rest).value;
      assert DecodeSelectionList(input).value == (TpmlPcrSelection(count, xs), rest');
      assert input == Encode(U32, count) + (Concat(xs, EncodeSelection) + rest');
    }
  }

  /** In-place `unpack` of a selection list: on success the target becomes
      a well-formed list whose encoding is exactly the bytes consumed; on
      failure it keeps its old value. */
  function UnpackSelectionList(target: TpmlPcrSelection, input: seq<byte>): (r: Unpacked<TpmlPcrSelection>)
    ensures r.status.Ok? <==> DecodeSelectionList(input).Ok?
    ensures r.status.Ok? ==> (r.value, r.status.value) == DecodeSelectionList(input).value
    ensures r.status.Ok? ==> WellFormedSelectionList(r.value) && input == EncodeSelectionList(r.value) + r.status.value
    ensures r.status.Err? ==> r.value == target
  {
    DecodedSelectionListWellFormed(input);
    SelectionListReadsBack(input);
    match DecodeSelectionList(input)
    case Ok((l, rest)) => Unpacked(l, Ok(rest))
    case Err(e) => Unpacked(target, Err(e))
  }

  /** Unpacking the encoding of a well-formed selection list sets the
      target to that list, whatever it held, and leaves the bytes after it. */
  lemma UnpackSelectionListEncoded(l: TpmlPcrSelection, target: TpmlPcrSelection, rest: seq<byte>)
    requires WellFormedSelectionList(l)
    ensures UnpackSelectionList(target, EncodeSelectionList(l) + rest) == Unpacked(l, Ok(rest))
  {
    SelectionListRoundTrip(l, rest);
  }

  // ------------------------------------------------------------------- digests

  /** TPM2B_DIGEST: a size and the digest bytes. */
  datatype Tpm2bDigest = Tpm2bDigest(size: u16, buffer: seq<byte>)

  /** TPML_DIGEST: a count and that many digests. */
  datatype TpmlDigest = TpmlDigest(count: u32, digests: seq<Tpm2bDigest>)

  predicate WellFormedDigest(d: Tpm2bDigest) {
    d.size == |d.buffer|
  }

  predicate WellFormedDigestList(l: TpmlDigest) {
    && l.count == |l.digests|
    && forall i :: 0 <= i < |l.digests| ==> WellFormedDigest(l.digests[i])
  }

  function EncodeDigest(d: Tpm2bDigest): seq<byte> {
    Encode(U16, d.size) + d.buffer
  }

  function EncodeDigestList(l: TpmlDigest): seq<byte> {
    Encode(U32, l.count) + Concat(l.digests, EncodeDigest)
  }

  function DecodeDigest(input: seq<byte>): Result<(Tpm2bDigest, seq<byte>)> {
    var (size, rest) :- Decode(U16, input);
    var (bytes, rest) :- Read(rest, size);
    Ok((Tpm2bDigest(size, bytes), rest))
  }

  function DecodeDigestList(input: seq<byte>): (r: Result<(TpmlDigest, seq<byte>)>)
    ensures r.Ok? ==> r.value.0.count == |r.value.0.digests|
  {
    var (count, rest) :- Decode(U32, input);
    var (ds, rest) :- DecodeMany(count, DecodeDigest, rest);
    Ok((TpmlDigest(count, ds), rest))
  }

  /** Decoding a digest reads back its encoding. */
  lemma DigestRoundTrip(d: Tpm2bDigest, rest: seq<byte>)
    requires WellFormedDigest(d)
    ensures DecodeDigest(EncodeDigest(d) + rest) == Ok((d, rest))
  {
    assert EncodeDigest(d) + rest == Encode(U16, d.size) + (d.buffer + rest);
    DecodeEncoded(U16, d.size, d.buffer + rest);
    ReadPrefix(d.buffer, rest);
  }

  lemma DigestInverts()
    ensures Inverts(EncodeDigest, DecodeDigest, WellFormedDigest)
  {
    forall d, rest | WellFormedDigest(d)
      ensures DecodeDigest(EncodeDigest(d) + rest) == Ok((d, rest))
    {
      DigestRoundTrip(d, rest);
    }
  }

  /** Round trip for a well-formed digest list. */
  lemma DigestListRoundTrip(l: TpmlDigest, rest: seq<byte>)
    requires WellFormedDigestList(l)
    ensures DecodeDigestList(EncodeDigestList(l) + rest) == Ok((l, rest))
  {
    var tail := Concat(l.digests, EncodeDigest) + rest;
    assert Decode(U32, EncodeDigestList(l) + rest) == Ok((l.count, tail)) by {
      assert EncodeDigestList(l) + rest == Encode(U32, l.count) + tail;
      DecodeEncoded(U32, l.count, tail);
    }
    assert DecodeMany(l.count, DecodeDigest, tail) == Ok((l.digests, rest)) by {
      DigestInverts();
      DecodeManyConcat(l.digests, EncodeDigest, DecodeDigest, WellFormedDigest, rest);
    }
  }

  /** Every decoded digest list is well formed. */
  lemma DecodedDigestListWellFormed(input: seq<byte>)
    ensures DecodeDigestList(input).Ok? ==> WellFormedDigestList(DecodeDigestList(input).value.0)
  {
    if DecodeDigestList(input).Ok? {
      var (count, rest) := Decode(U32, input).value;
      assert YieldsValid(DecodeDigest, WellFormedDigest);
      DecodeManyValid(count, DecodeDigest, WellFormedDigest, rest);
    }
  }

  lemma DigestReadsBack()
    ensures ReadsBack(EncodeDigest, DecodeDigest)
  {
    forall b | DecodeDigest(b).Ok?
      ensures b == EncodeDigest(DecodeDigest(b).value.0) + DecodeDigest(b).value.1
    {
      var (size, r1) := Decode(U16, b).value;
      EncodeDecoded(U16, b);
      var (bytes, rest) := Read(r1, size).value;
      assert DecodeDigest(b).value == (Tpm2bDigest(size, bytes), rest);
      assert b == Encode(U16, size) + (bytes + rest);
    }
  }

  /** A digest list the decoder accepts is exactly the encoding of the list
      it yields, followed by the bytes it leaves. */
  lemma DigestListReadsBack(input: seq<byte>)
    ensures DecodeDigestList(input).Ok? ==>
              input == EncodeDigestList(DecodeDigestList(input).value.0) + DecodeDigestList(input).value.1
  {
    if DecodeDigestList(input).Ok? {
      var (count, rest) := Decode(U32, input).value;
      EncodeDecoded(U32, input);
      DigestReadsBack();
      DecodeManyReadsBack(count, EncodeDigest, DecodeDigest, rest);
      var (xs, rest') := DecodeMany(count, DecodeDigest, rest).value;
      assert DecodeDigestList(input).value == (TpmlDigest(count, xs), rest');
      assert input == Encode(U32, count) + (Concat(xs, EncodeDigest) + rest');
    }
  }

  /** In-place `unpack` of a digest list: on success the target becomes a
      well-formed list whose encoding is exactly the bytes consumed; on
      failure it keeps its old value. */
  function UnpackDigestList(target: TpmlDigest, input: seq<byte>): (r: Unpacked<TpmlDigest>)
    ensures r.status.Ok? <==> DecodeDigestList(input).Ok?
    ensures r.status.Ok? ==> (r.value, r.status.value) == DecodeDigestList(input).value
    ensures r.status.Ok? ==> WellFormedDigestList(r.value) && input == EncodeDigestList(r.value) + r.status.value
    ensures r.status.Err? ==> r.value == target
  {
    DecodedDigestListWellFormed(input);
    DigestListReadsBack(input);
    match DecodeDigestList(input)
    case Ok((l, rest)) => Unpacked(l, Ok(rest))
    case Err(e) => Unpacked(target, Err(e))
  }

  /** Unpacking the encoding of a well-formed digest list sets the target to
      that list, whatever it held, and leaves the bytes after it. */
  lemma UnpackDigestListEncoded(l: TpmlDigest, target: TpmlDigest, rest: seq<byte>)
    requires WellFormedDigestList(l)
    ensures UnpackDigestList(target, EncodeDigestList(l) + rest) == Unpacked(l, Ok(rest))
  {
    DigestListRoundTrip(l, rest);
  }

  /** `get_digest(k)`: the bytes of the k-th digest, if there is one. */
  function GetDigest(l: TpmlDigest, k: nat): (r: Option<seq<byte>>)
    ensures r.Some? <==> k < |l.digests|
    ensures r.Some? ==> r.value == l.digests[k].buffer
  {
    if k < |l.digests| then Some(l.digests[k].buffer) else None
  }
}
