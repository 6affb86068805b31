/** TPM2_PCR_Read (pcrread.rs): building and packing the command,
    unpacking the response, and turning the response into PCR values. */
module PcrRead {
  import opened Wire
  import opened InOut
  import opened Tcg
  import opened Commands
  import opened Bitmap

  const U32Max: nat := 0xFFFF_FFFF

  /** u32 `+` with release-build wrap-around. */
  function AddU32(a: u32, b: u32): u32 {
    if a + b <= U32Max then a + b else a + b - 0x1_0000_0000
  }

  /** `usize as u32`: keeps the low 32 bits. */
  function TruncateU32(n: nat): u32 {
    n % 0x1_0000_0000
  }

  /** Adding the header size to a truncated length in u32 arithmetic is
      reducing the full sum modulo 2^32. */
  lemma WrapSum(len: nat)
    ensures AddU32(HeaderSize, TruncateU32(len)) == (HeaderSize + len) % 0x1_0000_0000
  {
    var q := len / 0x1_0000_0000;
    var t := len % 0x1_0000_0000;
    assert len == q * 0x1_0000_0000 + t;
    if HeaderSize + t > U32Max {
      assert HeaderSize + len == (q + 1) * 0x1_0000_0000 + (HeaderSize + t - 0x1_0000_0000);
    } else {
      assert HeaderSize + len == q * 0x1_0000_0000 + (HeaderSize + t);
    }
  }

  lemma SmallModulus(n: nat)
    requires n <= U32Max
    ensures n % 0x1_0000_0000 == n
  {
  }

  // ------------------------------------------------------------------ command

  datatype PcrReadCommand = PcrReadCommand(header: CommandHeader, pcrSelectionIn: TpmlPcrSelection)

  /** `PcrReadCommand::pack`: the header, then the selection list. */
  function EncodePcrReadCommand(cmd: PcrReadCommand): seq<byte> {
    EncodeCommandHeader(cmd.header) + EncodeSelectionList(cmd.pcrSelectionIn)
  }

  function PackPcrReadCommand(cmd: PcrReadCommand, out: seq<byte>): (r: seq<byte>)
    ensures r == out + EncodePcrReadCommand(cmd)
  {
    PackCommandHeaderIsEncoding(cmd.header, out);
    PackCommandHeader(cmd.header, out) + EncodeSelectionList(cmd.pcrSelectionIn)
  }

  /** `PcrReadCommand::new` as written: the selection list is packed to
      measure it, the oversize test builds an error value and drops it, and
      the size is summed in u32 arithmetic. The result is always `Ok`. */
  function NewPcrReadCommand(tag: TpmiStCommandTag, sel: TpmlPcrSelection): (r: Result<PcrReadCommand>)
    ensures r.Ok?
    ensures r.value.header.tag == tag && r.value.header.commandCode == TPM_CC_PCR_READ
    ensures r.value.pcrSelectionIn == sel
    ensures r.value.header.commandSize == (HeaderSize + |EncodeSelectionList(sel)|) % 0x1_0000_0000
  {
    var selectionSize := |EncodeSelectionList(sel)|;
    // `if pcr_selection_size > u32::MAX { TpmError { .. }; }`: no effect.
    var size := AddU32(AddU32(AddU32(2, 4), 4), TruncateU32(selectionSize));
    WrapSum(selectionSize);
    Ok(PcrReadCommand(CommandHeader(tag, size, TPM_CC_PCR_READ), sel))
  }

  /** When the command fits the u32 size field, its size field is exactly
      the length of the packed command. */
  lemma CommandSizeMatches(tag: TpmiStCommandTag, sel: TpmlPcrSelection)
    requires HeaderSize + |EncodeSelectionList(sel)| <= U32Max
    ensures NewPcrReadCommand(tag, sel).value.header.commandSize == |EncodePcrReadCommand(NewPcrReadCommand(tag, sel).value)|
  {
    var cmd := NewPcrReadCommand(tag, sel).value;
    var total := HeaderSize + |EncodeSelectionList(sel)|;
    SmallModulus(total);
    assert |EncodePcrReadCommand(cmd)| == total;
  }

  /** The oversize test has no effect: a selection list whose encoding
      leaves no room for the header still yields `Ok`, with a size field
      that is not the length of the packed command. */
  lemma OversizeAccepted(tag: TpmiStCommandTag, sel: TpmlPcrSelection)
    requires HeaderSize + |EncodeSelectionList(sel)| > U32Max
    ensures NewPcrReadCommand(tag, sel).Ok?
    ensures NewPcrReadCommand(tag, sel).value.header.commandSize != |EncodePcrReadCommand(NewPcrReadCommand(tag, sel).value)|
  {
  }

  /** `PcrReadCommand::new` as evidently intended: a command whose total
      size does not fit the u32 size field is refused. */
  function NewPcrReadCommandChecked(tag: TpmiStCommandTag, sel: TpmlPcrSelection): (r: Result<PcrReadCommand>)
    ensures r.Ok? <==> HeaderSize + |EncodeSelectionList(sel)| <= U32Max
    ensures r.Err? ==> r.error == SizeTooBig
    ensures r.Ok? ==> r.value.header.tag == tag && r.value.header.commandCode == TPM_CC_PCR_READ
    ensures r.Ok? ==> r.value.pcrSelectionIn == sel
    ensures r.Ok? ==> r.value.header.commandSize == |EncodePcrReadCommand(r.value)|
  {
    var selectionSize := |EncodeSelectionList(sel)|;
    if HeaderSize + selectionSize > U32Max then Err(SizeTooBig)
    else Ok(PcrReadCommand(CommandHeader(tag, HeaderSize + selectionSize, TPM_CC_PCR_READ), sel))
  }

  /** Where the command fits, the corrected constructor and the one as
      written build the same command. */
  lemma CheckedAgreesWhenFits(tag: TpmiStCommandTag, sel: TpmlPcrSelection)
    requires HeaderSize + |EncodeSelectionList(sel)| <= U32Max
    ensures NewPcrReadCommandChecked(tag, sel) == NewPcrReadCommand(tag, sel)
  {
    SmallModulus(HeaderSize + |EncodeSelectionList(sel)|);
  }

  /** The layout of a packed command as the TPM reads it: tag, size and
      code at bytes 0, 2 and 6, and from byte 10 to the end the selection
      list, which decodes back to the one given. */
  lemma CommandLayout(cmd: PcrReadCommand)
    requires WellFormedSelectionList(cmd.pcrSelectionIn)
    ensures FromBigEndian(EncodePcrReadCommand(cmd)[..2]) == cmd.header.tag
    ensures FromBigEndian(EncodePcrReadCommand(cmd)[2..6]) == cmd.header.commandSize
    ensures FromBigEndian(EncodePcrReadCommand(cmd)[6..HeaderSize]) == cmd.header.commandCode
    ensures DecodeSelectionList(EncodePcrReadCommand(cmd)[HeaderSize..]) == Ok((cmd.pcrSelectionIn, []))
  {
    var t := Encode(U16, cmd.header.tag);
    var z := Encode(U32, cmd.header.commandSize);
    var c := Encode(U32, cmd.header.commandCode);
    var l := EncodeSelectionList(cmd.pcrSelectionIn);
    assert EncodePcrReadCommand(cmd) == t + (z + (c + l));
    Fields(t, z, c, l);
    assert DecodeSelectionList(l) == Ok((cmd.pcrSelectionIn, [])) by {
      assert l == l + [];
      SelectionListRoundTrip(cmd.pcrSelectionIn, []);
    }
  }

  // ----------------------------------------------------------------- response

  datatype PcrReadResponse = PcrReadResponse(
    header: ResponseHeader,
    pcrUpdateCounter: u32,
    pcrSelectionIn: TpmlPcrSelection,
    pcrValues: TpmlDigest)

  /** `Default::default()`: the value `PcrReadResponse::new` unpacks into.
      It is observable only through a failed unpack, whose result is
      dropped. */
  const DefaultResponse: PcrReadResponse :=
    PcrReadResponse(NewResponseHeader, 0, TpmlPcrSelection(0, []), TpmlDigest(0, []))

  predicate WellFormedResponse(r: PcrReadResponse) {
    WellFormedSelectionList(r.pcrSelectionIn) && WellFormedDigestList(r.pcrValues)
  }

  /** The bytes a TPM sends for a response (the inverse direction). */
  function EncodePcrReadResponse(r: PcrReadResponse): seq<byte> {
    EncodeResponseHeader(r.header) + (Encode(U32, r.pcrUpdateCounter)
      + (EncodeSelectionList(r.pcrSelectionIn) + EncodeDigestList(r.pcrValues)))
  }

  /** `PcrReadResponse::unpack`: the header, the update counter, the
      selection list and the digest list, each unpacked in place in that
      order; the first failure is returned at once, so the fields unpacked
      before it keep their new values. The response code is not looked at. */
  function UnpackPcrReadResponse(target: PcrReadResponse, input: seq<byte>): (r: Unpacked<PcrReadResponse>)
    ensures |input| < HeaderSize + 4 ==> r.status.Err?
    ensures |input| < HeaderSize ==>
              r.value == target.(header := UnpackResponseHeader(target.header, input).value)
    ensures HeaderSize <= |input| ==> r.value.header == UnpackResponseHeader(target.header, input).value
    ensures |input| < HeaderSize + 4 ==>
              r.value.pcrSelectionIn == target.pcrSelectionIn && r.value.pcrValues == target.pcrValues
  {
    var h := UnpackResponseHeader(target.header, input);
    var r1 := target.(header := h.value);
    if h.status.Err? then Unpacked(r1, Err(h.status.error))
    else
      var c := Unpack(U32, target.pcrUpdateCounter, h.status.value);
      var r2 := r1.(pcrUpdateCounter := c.value);
      if c.status.Err? then Unpacked(r2, Err(c.status.error))
      else
        var s := UnpackSelectionList(target.pcrSelectionIn, c.status.value);
        var r3 := r2.(pcrSelectionIn := s.value);
        if s.status.Err? then Unpacked(r3, Err(s.status.error))
        else
          var d := UnpackDigestList(target.pcrValues, s.status.value);
          var r4 := r3.(pcrValues := d.value);
          if d.status.Err? then Unpacked(r4, Err(d.status.error))
          else Unpacked(r4, Ok(d.status.value))
  }

  /** Round trip: unpacking the bytes the TPM sends for a well-formed
      response yields that response, whatever the target held. */
  lemma ResponseRoundTrip(r: PcrReadResponse, target: PcrReadResponse, rest: seq<byte>)
    requires WellFormedResponse(r)
    ensures UnpackPcrReadResponse(target, EncodePcrReadResponse(r) + rest) == Unpacked(r, Ok(rest))
  {
    var db := EncodeDigestList(r.pcrValues) + rest;
    var sb := EncodeSelectionList(r.pcrSelectionIn) + db;
    var cb := Encode(U32, r.pcrUpdateCounter) + sb;
    var input := EncodeResponseHeader(r.header) + cb;
    assert EncodePcrReadResponse(r) + rest == input;
    ResponseHeaderRoundTrip(r.header, target.header, cb);
    UnpackEncoded(U32, r.pcrUpdateCounter, target.pcrUpdateCounter, sb);
    SelectionListRoundTrip(r.pcrSelectionIn, db);
    assert UnpackSelectionList(target.pcrSelectionIn, sb) == Unpacked(r.pcrSelectionIn, Ok(db));
    DigestListRoundTrip(r.pcrValues, rest);
    assert UnpackDigestList(target.pcrValues, db) == Unpacked(r.pcrValues, Ok(rest));
  }

  /** `PcrReadResponse::new`: unpack into a default response; on failure
      the partly updated value is dropped and only the error is returned. */
  function NewPcrReadResponse(input: seq<byte>): (r: Result<PcrReadResponse>)
    ensures |input| < HeaderSize + 4 ==> r.Err?
  {
    var u := UnpackPcrReadResponse(DefaultResponse, input);
    if u.status.Ok? then Ok(u.value) else Err(u.status.error)
  }

  /** A well-formed response is read back exactly from the bytes the TPM
      sends for it. */
  lemma NewResponseRoundTrip(r: PcrReadResponse, rest: seq<byte>)
    requires WellFormedResponse(r)
    ensures NewPcrReadResponse(EncodePcrReadResponse(r) + rest) == Ok(r)
  {
    ResponseRoundTrip(r, DefaultResponse, rest);
  }

  // --------------------------------------------------------------- PCR values

  /** A (hash algorithm, register) pair. */
  datatype PcrKey = PcrKey(hash: TpmiAlgHash, register: nat)

  /** One `pcrs.add(algorithm, register, digest)` call. pcrs.rs is not part
      of this model: the PCR collection is the sequence of these calls. */
  datatype PcrEntry = PcrEntry(hash: TpmiAlgHash, register: nat, digest: seq<byte>)

  function KeysOf(hash: TpmiAlgHash, regs: seq<nat>): (ks: seq<PcrKey>)
    ensures |ks| == |regs|
    ensures forall k :: 0 <= k < |regs| ==> ks[k] == PcrKey(hash, regs[k])
  {
    seq(|regs|, k requires 0 <= k < |regs| => PcrKey(hash, regs[k]))
  }

  lemma KeysOfAppend(hash: TpmiAlgHash, a: seq<nat>, b: seq<nat>)
    ensures KeysOf(hash, a + b) == KeysOf(hash, a) + KeysOf(hash, b)
  {
  }

  /** Every (algorithm, register) pair a selection list selects, selection
      by selection, registers in increasing order. */
  function SelectedKeys(sels: seq<TpmsPcrSelection>): seq<PcrKey> {
    if |sels| == 0 then []
    else KeysOf(sels[0].hash, SelectedRegisters(sels[0].pcrSelect)) + SelectedKeys(sels[1..])
  }

  /** Sequencing of two loop phases: the first failure wins, otherwise the
      entries are concatenated. */
  function Combine(a: Result<seq<PcrEntry>>, b: Result<seq<PcrEntry>>): Result<seq<PcrEntry>> {
    if a.Err? then a else if b.Err? then b else Ok(a.value + b.value)
  }

  lemma CombineAssociative(a: Result<seq<PcrEntry>>, b: Result<seq<PcrEntry>>, c: Result<seq<PcrEntry>>)
    ensures Combine(Combine(a, b), c) == Combine(a, Combine(b, c))
  {
    if a.Ok? && b.Ok? && c.Ok? {
      assert (a.value + b.value) + c.value == a.value + (b.value + c.value);
    }
  }

  /** A phase that adds nothing leaves the next one's outcome as it is. */
  lemma CombineEmpty(b: Result<seq<PcrEntry>>)
    ensures Combine(Ok([]), b) == b
  {
    if b.Ok? {
      assert [] + b.value == b.value;
    }
  }

  /** `get_digest(register)` and `pcrs.add` for one set bit. */
  function FetchDigest(key: PcrKey, digests: TpmlDigest): Result<seq<PcrEntry>> {
    match GetDigest(digests, key.register)
    case Some(d) => Ok([PcrEntry(key.hash, key.register, d)])
    case None => Err(MissingDigest(key.register))
  }

  /** The reference walk: each key in turn looks up the digest numbered by
      its register. */
  function LookupByRegister(keys: seq<PcrKey>, digests: TpmlDigest): Result<seq<PcrEntry>> {
    if |keys| == 0 then Ok([])
    else Combine(FetchDigest(keys[0], digests), LookupByRegister(keys[1..], digests))
  }

  /** Every key's register names a digest of the list. */
  predicate RegistersPresent(keys: seq<PcrKey>, digests: seq<Tpm2bDigest>) {
    forall k :: 0 <= k < |keys| ==> keys[k].register < |digests|
  }

  /** What the reference walk computes: it succeeds exactly when every
      register names a digest, and then pairs key k with the digest
      numbered by k's register; otherwise it names a selected register
      with no digest. */
  lemma {:induction false} LookupByRegisterSpec(keys: seq<PcrKey>, digests: TpmlDigest)
    ensures var r := LookupByRegister(keys, digests);
            && (r.Ok? <==> RegistersPresent(keys, digests.digests))
            && (r.Ok? ==> |r.value| == |keys| && forall k :: 0 <= k < |keys| ==>
                  r.value[k] == PcrEntry(keys[k].hash, keys[k].register, digests.digests[keys[k].register].buffer))
            && (r.Err? ==> r.error.MissingDigest? && r.error.index >= |digests.digests|
                           && exists k :: 0 <= k < |keys| && keys[k].register == r.error.index)
  {
    if |keys| > 0 {
      LookupByRegisterSpec(keys[1..], digests);
      var r := LookupByRegister(keys, digests);
      var later := LookupByRegister(keys[1..], digests);
      if r.Ok? {
        forall k | 0 <= k < |keys|
          ensures r.value[k] == PcrEntry(keys[k].hash, keys[k].register, digests.digests[keys[k].register].buffer)
        {
          if k > 0 {
            assert r.value[k] == later.value[k - 1];
          }
        }
      }
      if r.Err? {
        if FetchDigest(keys[0], digests).Err? {
          assert keys[0].register == r.error.index;
        } else {
          var k :| 0 <= k < |keys[1..]| && keys[1..][k].register == r.error.index;
          assert keys[k + 1].register == r.error.index;
        }
      }
      if !RegistersPresent(keys[1..], digests.digests) {
        var k :| 0 <= k < |keys[1..]| && keys[1..][k].register >= |digests.digests|;
        assert keys[k + 1].register >= |digests.digests|;
      }
    }
  }

  lemma {:induction false} LookupByRegisterAppend(a: seq<PcrKey>, b: seq<PcrKey>, digests: TpmlDigest)
    ensures LookupByRegister(a + b, digests) == Combine(LookupByRegister(a, digests), LookupByRegister(b, digests))
  {
    if |a| == 0 {
      assert a + b == b;
      var y := LookupByRegister(b, digests);
      if y.Ok? {
        assert [] + y.value == y.value;
      }
    } else {
      assert (a + b)[1..] == a[1..] + b;
      LookupByRegisterAppend(a[1..], b, digests);
      CombineAssociative(FetchDigest(a[0], digests), LookupByRegister(a[1..], digests), LookupByRegister(b, digests));
    }
  }

  /** The innermost loop of `to_pcr_values` as written: bits n..7 of byte
      `index`; a set bit looks up digest `n + 8 * index`. */
  function VisitBits(hash: TpmiAlgHash, bm: seq<byte>, index: nat, n: nat, digests: TpmlDigest): Result<seq<PcrEntry>>
    requires index < |bm| && n <= 8
    decreases 8 - n
  {
    if n == 8 then Ok([])
    else
      var here := if Bit(bm[index], n) then FetchDigest(PcrKey(hash, n + 8 * index), digests) else Ok([]);
      Combine(here, VisitBits(hash, bm, index, n + 1, digests))
  }

  /** The middle loop: bytes `index..` of one selection's bitmap. */
  function VisitBytes(hash: TpmiAlgHash, bm: seq<byte>, index: nat, digests: TpmlDigest): Result<seq<PcrEntry>>
    requires index <= |bm|
    decreases |bm| - index
  {
    if index == |bm| then Ok([])
    else Combine(VisitBits(hash, bm, index, 0, digests), VisitBytes(hash, bm, index + 1, digests))
  }

  /** The outer loop: one selection after another. */
  function VisitSelections(sels: seq<TpmsPcrSelection>, digests: TpmlDigest): Result<seq<PcrEntry>> {
    if |sels| == 0 then Ok([])
    else Combine(VisitBytes(sels[0].hash, sels[0].pcrSelect, 0, digests), VisitSelections(sels[1..], digests))
  }

  /** `to_pcr_values` as written. */
  function ToPcrValues(resp: PcrReadResponse): Result<seq<PcrEntry>> {
    VisitSelections(resp.pcrSelectionIn.pcrSelections, resp.pcrValues)
  }

  /** Register `n + 8 * index` is bit n of byte `index`. */
  lemma RegisterPosition(bm: seq<byte>, index: nat, n: nat)
    requires index < |bm| && n < 8
    ensures Selects(bm, n + 8 * index) <==> Bit(bm[index], n)
  {
    assert (n + 8 * index) / 8 == index && (n + 8 * index) % 8 == n;
  }

  /** One turn of the bit loop, stated with the register number. */
  lemma VisitBitsStep(hash: TpmiAlgHash, bm: seq<byte>, index: nat, n: nat, lo: nat, digests: TpmlDigest)
    requires index < |bm| && n < 8 && lo == 8 * index + n
    ensures VisitBits(hash, bm, index, n, digests)
         == Combine(if Selects(bm, lo) then FetchDigest(PcrKey(hash, lo), digests) else Ok([]),
                    VisitBits(hash, bm, index, n + 1, digests))
  {
    RegisterPosition(bm, index, n);
  }

  /** A key in front of others: fetch its digest, then look up the rest. */
  lemma SelectedStep(key: PcrKey, keys: seq<PcrKey>, digests: TpmlDigest)
    ensures LookupByRegister([key] + keys, digests) == Combine(FetchDigest(key, digests), LookupByRegister(keys, digests))
  {
    assert ([key] + keys)[0] == key && ([key] + keys)[1..] == keys;
  }

  /** A turn of the bit loop on a set bit adds the register in front. */
  lemma BitSetTurn(hash: TpmiAlgHash, bm: seq<byte>, index: nat, n: nat, lo: nat, hi: nat, digests: TpmlDigest)
    requires index < |bm| && n < 8 && lo == 8 * index + n && hi == 8 * index + 8 && Selects(bm, lo)
    requires VisitBits(hash, bm, index, n + 1, digests) == LookupByRegister(KeysOf(hash, RegistersIn(bm, lo + 1, hi)), digests)
    ensures VisitBits(hash, bm, index, n, digests) == LookupByRegister(KeysOf(hash, RegistersIn(bm, lo, hi)), digests)
  {
    var tail := RegistersIn(bm, lo + 1, hi);
    var key := PcrKey(hash, lo);
    VisitBitsStep(hash, bm, index, n, lo, digests);
    assert RegistersIn(bm, lo, hi) == [lo] + tail;
    KeysOfAppend(hash, [lo], tail);
    assert KeysOf(hash, [lo]) == [key];
    SelectedStep(key, KeysOf(hash, tail), digests);
  }

  /** A turn of the bit loop on a clear bit adds nothing. */
  lemma BitClearTurn(hash: TpmiAlgHash, bm: seq<byte>, index: nat, n: nat, lo: nat, hi: nat, digests: TpmlDigest)
    requires index < |bm| && n < 8 && lo == 8 * index + n && hi == 8 * index + 8 && !Selects(bm, lo)
    requires VisitBits(hash, bm, index, n + 1, digests) == LookupByRegister(KeysOf(hash, RegistersIn(bm, lo + 1, hi)), digests)
    ensures VisitBits(hash, bm, index, n, digests) == LookupByRegister(KeysOf(hash, RegistersIn(bm, lo, hi)), digests)
  {
    VisitBitsStep(hash, bm, index, n, lo, digests);
    CombineEmpty(VisitBits(hash, bm, index, n + 1, digests));
    assert RegistersIn(bm, lo, hi) == RegistersIn(bm, lo + 1, hi);
  }

  /** The bit loop visits the selected registers of its byte, from
      register `lo` on, in increasing order. */
  lemma {:induction false} VisitBitsIsLookup(hash: TpmiAlgHash, bm: seq<byte>, index: nat, n: nat, lo: nat, hi: nat, digests: TpmlDigest)
    requires index < |bm| && n <= 8 && lo == 8 * index + n && hi == 8 * index + 8
    ensures VisitBits(hash, bm, index, n, digests) == LookupByRegister(KeysOf(hash, RegistersIn(bm, lo, hi)), digests)
    decreases 8 - n
  {
    if n < 8 {
      VisitBitsIsLookup(hash, bm, index, n + 1, lo + 1, hi, digests);
      if Selects(bm, lo) {
        BitSetTurn(hash, bm, index, n, lo, hi, digests);
      } else {
        BitClearTurn(hash, bm, index, n, lo, hi, digests);
      }
    }
  }

  /** The byte loop visits the selected registers of bytes `index..` in
      increasing order. */
  lemma {:induction false} VisitBytesIsLookup(hash: TpmiAlgHash, bm: seq<byte>, index: nat, lo: nat, digests: TpmlDigest)
    requires index <= |bm| && lo == 8 * index
    ensures VisitBytes(hash, bm, index, digests)
         == LookupByRegister(KeysOf(hash, RegistersIn(bm, lo, 8 * |bm|)), digests)
    decreases |bm| - index
  {
    if index < |bm| {
      var front := KeysOf(hash, RegistersIn(bm, lo, lo + 8));
      var back := KeysOf(hash, RegistersIn(bm, lo + 8, 8 * |bm|));
      assert VisitBits(hash, bm, index, 0, digests) == LookupByRegister(front, digests) by {
        VisitBitsIsLookup(hash, bm, index, 0, lo, lo + 8, digests);
      }
      assert VisitBytes(hash, bm, index + 1, digests) == LookupByRegister(back, digests) by {
        VisitBytesIsLookup(hash, bm, index + 1, lo + 8, digests);
      }
      assert KeysOf(hash, RegistersIn(bm, lo, 8 * |bm|)) == front + back by {
        KeysSplit(hash, bm, lo, lo + 8, 8 * |bm|);
      }
      assert LookupByRegister(front + back, digests)
          == Combine(LookupByRegister(front, digests), LookupByRegister(back, digests)) by {
        LookupByRegisterAppend(front, back, digests);
      }
    }
  }

  /** The keys of a range are the keys of its two halves. */
  lemma KeysSplit(hash: TpmiAlgHash, bm: seq<byte>, lo: nat, mid: nat, hi: nat)
    requires lo <= mid <= hi
    ensures KeysOf(hash, RegistersIn(bm, lo, hi))
         == KeysOf(hash, RegistersIn(bm, lo, mid)) + KeysOf(hash, RegistersIn(bm, mid, hi))
  {
    RegistersInSplit(bm, lo, mid, hi);
    KeysOfAppend(hash, RegistersIn(bm, lo, mid), RegistersIn(bm, mid, hi));
  }

  lemma {:induction false} VisitSelectionsIsLookup(sels: seq<TpmsPcrSelection>, digests: TpmlDigest)
    ensures VisitSelections(sels, digests) == LookupByRegister(SelectedKeys(sels), digests)
  {
    if |sels| > 0 {
      VisitBytesIsLookup(sels[0].hash, sels[0].pcrSelect, 0, 0, digests);
      VisitSelectionsIsLookup(sels[1..], digests);
      LookupByRegisterAppend(KeysOf(sels[0].hash, SelectedRegisters(sels[0].pcrSelect)), SelectedKeys(sels[1..]), digests);
    }
  }

  /** `to_pcr_values` as written: every selected register r of every
      selection, in order, is paired with digest number r of the digest
      list; it fails exactly when some selected register has no digest of
      that number. */
  lemma ToPcrValuesByRegister(resp: PcrReadResponse)
    ensures var keys := SelectedKeys(resp.pcrSelectionIn.pcrSelections);
            var digests := resp.pcrValues.digests;
            var r := ToPcrValues(resp);
            && (r.Ok? <==> RegistersPresent(keys, digests))
            && (r.Ok? ==> |r.value| == |keys| && forall k :: 0 <= k < |keys| ==>
                  r.value[k] == PcrEntry(keys[k].hash, keys[k].register, digests[keys[k].register].buffer))
            && (r.Err? ==> r.error.MissingDigest? && r.error.index >= |digests|
                           && exists k :: 0 <= k < |keys| && keys[k].register == r.error.index)
  {
    VisitSelectionsIsLookup(resp.pcrSelectionIn.pcrSelections, resp.pcrValues);
    LookupByRegisterSpec(SelectedKeys(resp.pcrSelectionIn.pcrSelections), resp.pcrValues);
  }

  /** The walk as evidently intended: key k takes the next unused digest,
      starting at digest `next`. */
  function LookupInOrder(keys: seq<PcrKey>, digests: TpmlDigest, next: nat): Result<seq<PcrEntry>>
    decreases |keys|
  {
    if |keys| == 0 then Ok([])
    else
      match GetDigest(digests, next)
      case Some(d) => Combine(Ok([PcrEntry(keys[0].hash, keys[0].register, d)]), LookupInOrder(keys[1..], digests, next + 1))
      case None => Err(MissingDigest(next))
  }

  /** `to_pcr_values` as evidently intended: the TPM returns one digest per
      selected register, in selection order. */
  function ToPcrValuesInOrder(resp: PcrReadResponse): Result<seq<PcrEntry>> {
    LookupInOrder(SelectedKeys(resp.pcrSelectionIn.pcrSelections), resp.pcrValues, 0)
  }

  lemma {:induction false} LookupInOrderSpec(keys: seq<PcrKey>, digests: TpmlDigest, next: nat)
    requires next <= |digests.digests|
    ensures var r := LookupInOrder(keys, digests, next);
            && (r.Ok? <==> next + |keys| <= |digests.digests|)
            && (r.Ok? ==> |r.value| == |keys| && forall k :: 0 <= k < |keys| ==>
                  r.value[k] == PcrEntry(keys[k].hash, keys[k].register, digests.digests[next + k].buffer))
            && (r.Err? ==> r.error == MissingDigest(|digests.digests|))
    decreases |keys|
  {
    if |keys| > 0 && next < |digests.digests| {
      LookupInOrderSpec(keys[1..], digests, next + 1);
      var r := LookupInOrder(keys, digests, next);
      var later := LookupInOrder(keys[1..], digests, next + 1);
      if r.Ok? {
        forall k | 0 <= k < |keys|
          ensures r.value[k] == PcrEntry(keys[k].hash, keys[k].register, digests.digests[next + k].buffer)
        {
          if k > 0 {
            assert r.value[k] == later.value[k - 1];
          }
        }
      }
    }
  }

  /** `to_pcr_values` as evidently intended: the k-th selected register
      takes the k-th digest; it fails exactly when there are fewer digests
      than selected registers. */
  lemma ToPcrValuesInOrderSpec(resp: PcrReadResponse)
    ensures var keys := SelectedKeys(resp.pcrSelectionIn.pcrSelections);
            var digests := resp.pcrValues.digests;
            var r := ToPcrValuesInOrder(resp);
            && (r.Ok? <==> |keys| <= |digests|)
            && (r.Ok? ==> |r.value| == |keys| && forall k :: 0 <= k < |keys| ==>
                  r.value[k] == PcrEntry(keys[k].hash, keys[k].register, digests[k].buffer))
            && (r.Err? ==> r.error == MissingDigest(|digests|))
  {
    LookupInOrderSpec(SelectedKeys(resp.pcrSelectionIn.pcrSelections), resp.pcrValues, 0);
  }

  /** A response that selects register 1 of SHA-256 and carries its one
      digest. */
  const OneRegisterResponse: PcrReadResponse :=
    PcrReadResponse(NewResponseHeader, 0,
                    TpmlPcrSelection(1, [TpmsPcrSelection(TPM_ALG_SHA256, 3, [0x02, 0x00, 0x00])]),
                    TpmlDigest(1, [Tpm2bDigest(1, [0xAA])]))

  /** The walk as written rejects this well-formed response: register 1
      asks for digest number 1 of a one-digest list. */
  lemma ToPcrValuesMisindexes()
    ensures WellFormedResponse(OneRegisterResponse)
    ensures ToPcrValues(OneRegisterResponse) == Err(MissingDigest(1))
  {
    var sel := OneRegisterResponse.pcrSelectionIn.pcrSelections[0];
    var digests := OneRegisterResponse.pcrValues;
    assert !Bit(0x02, 0) && Bit(0x02, 1);
    assert VisitBits(sel.hash, sel.pcrSelect, 0, 1, digests).Err?;
  }

  /** The walk as intended pairs register 1 with the one digest. */
  lemma ToPcrValuesInOrderAccepts()
    ensures ToPcrValuesInOrder(OneRegisterResponse) == Ok([PcrEntry(TPM_ALG_SHA256, 1, [0xAA])])
  {
    var bm := OneRegisterResponse.pcrSelectionIn.pcrSelections[0].pcrSelect;
    forall r | 2 <= r < 24
      ensures !Selects(bm, r)
    {
      if r < 8 {
        assert r / 8 == 0 && r % 8 == r;
        assert Bit(0x02, r) == Bit(0x01, r - 1) == Bit(0x00, r - 2);
        NoBitOfZero(r - 2);
      } else {
        NoBitOfZero(r % 8);
      }
    }
    RegistersInNone(bm, 2, 24);
    assert !Bit(0x02, 0) && Bit(0x02, 1);
    assert SelectedRegisters(bm) == [1];
    var sels := OneRegisterResponse.pcrSelectionIn.pcrSelections;
    assert SelectedKeys(sels) == [PcrKey(TPM_ALG_SHA256, 1)] by {
      assert sels[1..] == [];
    }
    ToPcrValuesInOrderSpec(OneRegisterResponse);
    var r := ToPcrValuesInOrder(OneRegisterResponse);
    assert r.Ok? && |r.value| == 1;
    assert r.value[0] == PcrEntry(TPM_ALG_SHA256, 1, [0xAA]);
    assert r.value == [PcrEntry(TPM_ALG_SHA256, 1, [0xAA])];
  }
}
