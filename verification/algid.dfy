/** TPM_ALG_ID (TPM 2.0 Library Part 2, section 6.3): a closed enumeration
    carried on the wire as a big-endian u16. */
module AlgId {
  import opened Wire
  import opened InOut

  datatype TpmAlgId =
    | Error | RSA | TDES | SHA1 | HMAC | AES | MGF1 | KeyedHash | XOR
    | SHA256 | SHA384 | SHA512 | Null | SM3_256 | SM4 | RSASSA | RSAES
    | RSAPSS | OAEP | ECDH | ECDAA | SM2 | ECSCHNORR | ECMQV
    | KDF1_SP800_56A | KDF2 | KDF1_SP800_108 | ECC | SymCipher | Camellia
    | SHA3_256 | SHA3_384 | SHA3_512 | CTR | OFB | CBC | CFB | ECB

  /** `#[default]`. */
  const Default: TpmAlgId := Error

  /** The `#[repr(u16)]` discriminant each variant is declared with. */
  function Discriminant(a: TpmAlgId): u16 {
    match a
    case Error => 0x0000
    case RSA => 0x0001
    case TDES => 0x0003
    case SHA1 => 0x0004
    case HMAC => 0x0005
    case AES => 0x0006
    case MGF1 => 0x0007
    case KeyedHash => 0x0008
    case XOR => 0x000A
    case SHA256 => 0x000B
    case SHA384 => 0x000C
    case SHA512 => 0x000D
    case Null => 0x0010
    case SM3_256 => 0x0012
    case SM4 => 0x0013
    case RSASSA => 0x0014
    case RSAES => 0x0015
    case RSAPSS => 0x0016
    case OAEP => 0x0017
    case ECDH => 0x0019
    case ECDAA => 0x001A
    case SM2 => 0x001B
    case ECSCHNORR => 0x001C
    case ECMQV => 0x001D
    case KDF1_SP800_56A => 0x0020
    case KDF2 => 0x0021
    case KDF1_SP800_108 => 0x0022
    case ECC => 0x0023
    case SymCipher => 0x0025
    case Camellia => 0x0026
    case SHA3_256 => 0x0027
    case SHA3_384 => 0x0028
    case SHA3_512 => 0x0029
    case CTR => 0x0040
    case OFB => 0x0041
    case CBC => 0x0042
    case CFB => 0x0043
    case ECB => 0x0044
  }

  /** The decoding table of `unpack`, written separately from the
      declarations; a code with no entry has no variant. */
  function FromCode(c: u16): Option<TpmAlgId>
  {
    match c
    case 0x0000 => Some(Error)
    case 0x0001 => Some(RSA)
    case 0x0003 => Some(TDES)
    case 0x0004 => Some(SHA1)
    case 0x0005 => Some(HMAC)
    case 0x0006 => Some(AES)
    case 0x0007 => Some(MGF1)
    case 0x0008 => Some(KeyedHash)
    case 0x000A => Some(XOR)
    case 0x000B => Some(SHA256)
    case 0x000C => Some(SHA384)
    case 0x000D => Some(SHA512)
    case 0x0010 => Some(Null)
    case 0x0012 => Some(SM3_256)
    case 0x0013 => Some(SM4)
    case 0x0014 => Some(RSASSA)
    case 0x0015 => Some(RSAES)
    case 0x0016 => Some(RSAPSS)
    case 0x0017 => Some(OAEP)
    case 0x0019 => Some(ECDH)
    case 0x001A => Some(ECDAA)
    case 0x001B => Some(SM2)
    case 0x001C => Some(ECSCHNORR)
    case 0x001D => Some(ECMQV)
    case 0x0020 => Some(KDF1_SP800_56A)
    case 0x0021 => Some(KDF2)
    case 0x0022 => Some(KDF1_SP800_108)
    case 0x0023 => Some(ECC)
    case 0x0025 => Some(SymCipher)
    case 0x0026 => Some(Camellia)
    case 0x0027 => Some(SHA3_256)
    case 0x0028 => Some(SHA3_384)
    case 0x0029 => Some(SHA3_512)
    case 0x0040 => Some(CTR)
    case 0x0041 => Some(OFB)
    case 0x0042 => Some(CBC)
    case 0x0043 => Some(CFB)
    case 0x0044 => Some(ECB)
    case _ => None
  }

  /** The two tables agree: a code that decodes is the discriminant of the
      variant it decodes to. The table is checked in four ranges of codes,
      which keeps each proof small. */
  lemma FromCodeSound(c: u16)
    ensures FromCode(c).Some? ==> Discriminant(FromCode(c).value) == c
  {
    if c < 0x000A {
      FromCodeSoundLow(c);
    } else if c < 0x0017 {
      FromCodeSoundMidLow(c);
    } else if c < 0x0023 {
      FromCodeSoundMidHigh(c);
    } else {
      FromCodeSoundHigh(c);
    }
  }

  lemma FromCodeSoundLow(c: u16)
    requires 0x0000 <= c < 0x000A
    ensures FromCode(c).Some? ==> Discriminant(FromCode(c).value) == c
  {
  }

  lemma FromCodeSoundMidLow(c: u16)
    requires 0x000A <= c < 0x0017
    ensures FromCode(c).Some? ==> Discriminant(FromCode(c).value) == c
  {
  }

  lemma FromCodeSoundMidHigh(c: u16)
    requires 0x0017 <= c < 0x0023
    ensures FromCode(c).Some? ==> Discriminant(FromCode(c).value) == c
  {
  }

  lemma FromCodeSoundHigh(c: u16)
    requires 0x0023 <= c < 0x1_0000
    ensures FromCode(c).Some? ==> Discriminant(FromCode(c).value) == c
  {
  }

  /** The two tables agree: every declared discriminant decodes to the
      variant declared with it. */
  lemma DecodeDiscriminant(a: TpmAlgId)
    ensures FromCode(Discriminant(a)) == Some(a)
  {
  }

  /** Distinct variants have distinct codes, and the default variant is
      `Error` with code 0. */
  lemma CodeTableShape()
    ensures forall a1, a2 :: Discriminant(a1) == Discriminant(a2) ==> a1 == a2
    ensures Discriminant(Default) == 0x0000
  {
    forall a1, a2 | Discriminant(a1) == Discriminant(a2)
      ensures a1 == a2
    {
      DecodeDiscriminant(a1);
      DecodeDiscriminant(a2);
    }
  }

  /** `pack`: exactly two bytes, the big-endian discriminant. */
  function Encode(a: TpmAlgId): (r: seq<byte>)
    ensures |r| == 2
    ensures FromBigEndian(r) == Discriminant(a)
  {
    InOut.Encode(U16, Discriminant(a))
  }

  /** `pack` into a buffer: the bytes already there are kept, and two
      bytes holding the big-endian discriminant follow them. */
  function Pack(a: TpmAlgId, out: seq<byte>): (r: seq<byte>)
    ensures |r| == |out| + 2
    ensures r[..|out|] == out
    ensures FromBigEndian(r[|out|..]) == Discriminant(a)
    ensures r == out + Encode(a)
  {
    assert (out + Encode(a))[|out|..] == Encode(a);
    out + Encode(a)
  }

  /** The decoding half of `unpack`: two bytes through the table. */
  function Decode(input: seq<byte>): (r: Result<(TpmAlgId, seq<byte>)>)
    ensures r.Ok? <==> 2 <= |input| && FromCode(FromBigEndian(input[..2])).Some?
    ensures r.Ok? ==> Discriminant(r.value.0) == FromBigEndian(input[..2])
    ensures r.Ok? ==> r.value.1 == input[2..]
    ensures r.Err? ==> r.error == Deserialization
  {
    var (code, rest) :- InOut.Decode(U16, input);
    FromCodeSound(code);
    match FromCode(code)
    case Some(a) => Ok((a, rest))
    case None => Err(Deserialization)
  }

  /** `unpack(&mut self, buff)`: the target changes only on success. */
  function Unpack(target: TpmAlgId, input: seq<byte>): (r: Unpacked<TpmAlgId>)
    ensures r.status.Ok? <==> 2 <= |input| && FromCode(FromBigEndian(input[..2])).Some?
    ensures r.status.Ok? ==> Discriminant(r.value) == FromBigEndian(input[..2])
    ensures r.status.Ok? ==> r.status.value == input[2..]
    ensures r.status.Err? ==> r.value == target && r.status.error == Deserialization
  {
    match Decode(input)
    case Ok((a, rest)) => Unpacked(a, Ok(rest))
    case Err(e) => Unpacked(target, Err(e))
  }

  /** Decoding the encoding of `a` yields `a` and the bytes after it. */
  lemma DecodeEncoded(a: TpmAlgId, rest: seq<byte>)
    ensures Decode(Encode(a) + rest) == Ok((a, rest))
  {
    InOut.DecodeEncoded(U16, Discriminant(a), rest);
    DecodeDiscriminant(a);
  }

  /** Round trip of the in-place form: unpacking the encoding of `a` sets
      the target to `a` and leaves exactly the bytes after it. */
  lemma UnpackEncoded(a: TpmAlgId, target: TpmAlgId, rest: seq<byte>)
    ensures Unpack(target, Encode(a) + rest) == Unpacked(a, Ok(rest))
  {
    DecodeEncoded(a, rest);
  }

  /** A few codes the table leaves out: unpacking them fails and leaves the
      target unchanged. */
  lemma UnknownCodesRejected(target: TpmAlgId, hi: byte, lo: byte)
    requires [hi, lo] in {[0x00, 0x02], [0x00, 0x09], [0x00, 0x11], [0x00, 0x45]}
    ensures Unpack(target, [hi, lo]) == Unpacked(target, Err(Deserialization))
  {
    assert [hi, lo][..2] == [hi, lo];
    assert FromBigEndian([hi, lo]) == hi as int * 256 + lo as int by {
      assert [hi, lo][..1] == [hi];
      assert [hi][..0] == [];
    }
    var code := FromBigEndian([hi, lo]);
    assert code in {0x0002, 0x0009, 0x0011, 0x0045};
    assert FromCode(code) == None;
  }

  /** Fewer than two unread bytes: a decode error, target unchanged. */
  lemma ShortInputRejected(target: TpmAlgId, input: seq<byte>)
    requires |input| < 2
    ensures Unpack(target, input) == Unpacked(target, Err(Deserialization))
  {
  }
}
