/** TPM_ST (TPM 2.0 Library Part 2, section 6.9): structure tags, a closed
    enumeration carried on the wire as a big-endian u16. */
module St {
  import opened Wire
  import opened InOut

  datatype TpmSt =
    | RspCommand | Null | NoSessions | Sessions | AttestNv
    | AttestCommandAudit | AttestSessionAudit | AttestCertify | AttestQuote
    | AttestTime | AttestCreation | Attest_nvDigest | Creation | Verified
    | AuthSecret | HashCheck | AuthSigned | FuManifest

  /** `#[default]`. */
  const Default: TpmSt := Null

  /** The `#[repr(u16)]` discriminant each variant is declared with. */
  function Discriminant(s: TpmSt): u16 {
    match s
    case RspCommand => 0x00c4
    case Null => 0x8000
    case NoSessions => 0x8001
    case Sessions => 0x8002
    case AttestNv => 0x8014
    case AttestCommandAudit => 0x8015
    case AttestSessionAudit => 0x8016
    case AttestCertify => 0x8017
    case AttestQuote => 0x8018
    case AttestTime => 0x8019
    case AttestCreation => 0x801a
    case Attest_nvDigest => 0x801c
    case Creation => 0x8021
    case Verified => 0x8022
    case AuthSecret => 0x8023
    case HashCheck => 0x8024
    case AuthSigned => 0x8025
    case FuManifest => 0x8029
  }

  /** The decoding table of `unpack`: guarded arms that compare the code with
      each variant's discriminant in declaration order; the first arm that
      matches wins. Its contract: whatever it returns carries that code. */
  function FromCode(c: u16): (r: Option<TpmSt>)
    ensures r.Some? ==> Discriminant(r.value) == c
  {
    if c == Discriminant(RspCommand) then Some(RspCommand)
    else if c == Discriminant(Null) then Some(Null)
    else if c == Discriminant(NoSessions) then Some(NoSessions)
    else if c == Discriminant(Sessions) then Some(Sessions)
    else if c == Discriminant(AttestNv) then Some(AttestNv)
    else if c == Discriminant(AttestCommandAudit) then Some(AttestCommandAudit)
    else if c == Discriminant(AttestSessionAudit) then Some(AttestSessionAudit)
    else if c == Discriminant(AttestCertify) then Some(AttestCertify)
    else if c == Discriminant(AttestQuote) then Some(AttestQuote)
    else if c == Discriminant(AttestTime) then Some(AttestTime)
    else if c == Discriminant(AttestCreation) then Some(AttestCreation)
    else if c == Discriminant(Attest_nvDigest) then Some(Attest_nvDigest)
    else if c == Discriminant(Creation) then Some(Creation)
    else if c == Discriminant(Verified) then Some(Verified)
    else if c == Discriminant(AuthSecret) then Some(AuthSecret)
    else if c == Discriminant(HashCheck) then Some(HashCheck)
    else if c == Discriminant(AuthSigned) then Some(AuthSigned)
    else if c == Discriminant(FuManifest) then Some(FuManifest)
    else None
  }

  /** Every declared discriminant decodes to its own variant: no earlier
      arm shadows a later one, because the discriminants are distinct. */
  lemma DecodeDiscriminant(s: TpmSt)
    ensures FromCode(Discriminant(s)) == Some(s)
  {
  }

  /** Distinct variants have distinct codes, and the default variant is
      `Null` with code 0x8000. */
  lemma CodeTableShape()
    ensures forall s1, s2 :: Discriminant(s1) == Discriminant(s2) ==> s1 == s2
    ensures Discriminant(Default) == 0x8000
  {
    forall s1, s2 | Discriminant(s1) == Discriminant(s2)
      ensures s1 == s2
    {
      DecodeDiscriminant(s1);
      DecodeDiscriminant(s2);
    }
  }

  /** `pack`: exactly two bytes, the big-endian discriminant. */
  function Encode(s: TpmSt): (r: seq<byte>)
    ensures |r| == 2
    ensures FromBigEndian(r) == Discriminant(s)
  {
    InOut.Encode(U16, Discriminant(s))
  }

  /** `pack` into a buffer: the bytes already there are kept, and two
      bytes holding the big-endian discriminant follow them. */
  function Pack(s: TpmSt, out: seq<byte>): (r: seq<byte>)
    ensures |r| == |out| + 2
    ensures r[..|out|] == out
    ensures FromBigEndian(r[|out|..]) == Discriminant(s)
    ensures r == out + Encode(s)
  {
    assert (out + Encode(s))[|out|..] == Encode(s);
    out + Encode(s)
  }

  /** The decoding half of `unpack`: two bytes through the table. */
  function Decode(input: seq<byte>): (r: Result<(TpmSt, seq<byte>)>)
    ensures r.Ok? <==> 2 <= |input| && FromCode(FromBigEndian(input[..2])).Some?
    ensures r.Ok? ==> Discriminant(r.value.0) == FromBigEndian(input[..2])
    ensures r.Ok? ==> r.value.1 == input[2..]
    ensures r.Err? ==> r.error == Deserialization
  {
    var (code, rest) :- InOut.Decode(U16, input);
    match FromCode(code)
    case Some(s) => Ok((s, rest))
    case None => Err(Deserialization)
  }

  /** `unpack(&mut self, buff)`: the target changes only on success. */
  function Unpack(target: TpmSt, input: seq<byte>): (r: Unpacked<TpmSt>)
    ensures r.status.Ok? <==> 2 <= |input| && FromCode(FromBigEndian(input[..2])).Some?
    ensures r.status.Ok? ==> Discriminant(r.value) == FromBigEndian(input[..2])
    ensures r.status.Ok? ==> r.status.value == input[2..]
    ensures r.status.Err? ==> r.value == target && r.status.error == Deserialization
  {
    match Decode(input)
    case Ok((s, rest)) => Unpacked(s, Ok(rest))
    case Err(e) => Unpacked(target, Err(e))
  }

  /** Decoding the encoding of `s` yields `s` and the bytes after it. */
  lemma DecodeEncoded(s: TpmSt, rest: seq<byte>)
    ensures Decode(Encode(s) + rest) == Ok((s, rest))
  {
    InOut.DecodeEncoded(U16, Discriminant(s), rest);
    DecodeDiscriminant(s);
  }

  /** Round trip of the in-place form: unpacking the encoding of `s` sets
      the target to `s` and leaves exactly the bytes after it. */
  lemma UnpackEncoded(s: TpmSt, target: TpmSt, rest: seq<byte>)
    ensures Unpack(target, Encode(s) + rest) == Unpacked(s, Ok(rest))
  {
    DecodeEncoded(s, rest);
  }

  /** Codes the table leaves out (0x0000, 0x8003, 0x801b): unpacking them
      fails and leaves the target unchanged. */
  lemma UnknownCodesRejected(target: TpmSt, hi: byte, lo: byte)
    requires [hi, lo] in {[0x00, 0x00], [0x80, 0x03], [0x80, 0x1b]}
    ensures Unpack(target, [hi, lo]) == Unpacked(target, Err(Deserialization))
  {
    assert [hi, lo][..2] == [hi, lo];
    assert FromBigEndian([hi, lo]) == hi as int * 256 + lo as int by {
      assert [hi, lo][..1] == [hi];
      assert [hi][..0] == [];
    }
    var code := FromBigEndian([hi, lo]);
    assert code in {0x0000, 0x8003, 0x801b};
    assert FromCode(code) == None;
  }

  /** Fewer than two unread bytes: a decode error, target unchanged. */
  lemma ShortInputRejected(target: TpmSt, input: seq<byte>)
    requires |input| < 2
    ensures Unpack(target, input) == Unpacked(target, Err(Deserialization))
  {
  }
}
