/** Fixed-width big-endian integers (`impl_tpm2_io!` for u8/u16/u32/u64)
    and the field-sequencing `pack` helper. */
module InOut {
  import opened Wire
  import ByteValues

  /** 256^n: one more than the largest value n bytes can hold. */
  function Pow256(n: nat): (r: nat)
    ensures r >= 1
  {
    if n == 0 then 1 else 256 * Pow256(n - 1)
  }

  type u8 = x: int | 0 <= x < 0x100
  type u16 = x: int | 0 <= x < 0x1_0000
  type u32 = x: int | 0 <= x < 0x1_0000_0000
  type u64 = x: int | 0 <= x < 0x1_0000_0000_0000_0000

  /** The four primitive types the macro is instantiated for. */
  datatype Width = U8 | U16 | U32 | U64

  /** `size_of!` of each primitive. */
  function Size(w: Width): nat {
    match w
    case U8 => 1
    case U16 => 2
    case U32 => 4
    case U64 => 8
  }

  /** Exclusive upper bound of the values of a width. */
  function Bound(w: Width): nat {
    match w
    case U8 => 0x100
    case U16 => 0x1_0000
    case U32 => 0x1_0000_0000
    case U64 => 0x1_0000_0000_0000_0000
  }

  lemma BoundIsPow256(w: Width)
    ensures Bound(w) == Pow256(Size(w))
  {
    assert Pow256(2) == 0x1_0000;
    assert Pow256(4) == 0x1_0000 * Pow256(2);
    assert Pow256(6) == 0x1_0000 * Pow256(4);
    assert Pow256(8) == 0x1_0000 * Pow256(6);
  }

  /** The value of a byte string read most-significant byte first. */
  function FromBigEndian(s: seq<byte>): (x: nat)
    ensures x < Pow256(|s|)
  {
    if |s| == 0 then 0 else FromBigEndian(s[..|s| - 1]) * 256 + s[|s| - 1] as int
  }

  /** `to_be_bytes`: the n-byte most-significant-first representation. */
  function ToBigEndian(x: nat, n: nat): (r: seq<byte>)
    requires x < Pow256(n)
    ensures |r| == n
  {
    if n == 0 then [] else ToBigEndian(x / 256, n - 1) + [ByteValues.ByteOf(x % 256)]
  }

  /** Reading back a big-endian representation gives the value. */
  lemma {:induction false} FromToBigEndian(x: nat, n: nat)
    requires x < Pow256(n)
    ensures FromBigEndian(ToBigEndian(x, n)) == x
  {
    if n > 0 {
      var s := ToBigEndian(x, n);
      assert s[..|s| - 1] == ToBigEndian(x / 256, n - 1);
      FromToBigEndian(x / 256, n - 1);
      ByteValues.ByteOfValue(x % 256);
    }
  }

  /** Every byte string is the big-endian representation of its value. */
  lemma {:induction false} ToFromBigEndian(s: seq<byte>)
    ensures ToBigEndian(FromBigEndian(s), |s|) == s
  {
    if |s| > 0 {
      var p := s[..|s| - 1];
      ToFromBigEndian(p);
      ByteValues.LowByte(FromBigEndian(p), s[|s| - 1]);
      assert s == p + [s[|s| - 1]];
    }
  }

  /** Distinct byte strings of one length have distinct values. */
  lemma FromBigEndianInjective(s: seq<byte>, t: seq<byte>)
    requires |s| == |t| && FromBigEndian(s) == FromBigEndian(t)
    ensures s == t
  {
    ToFromBigEndian(s);
    ToFromBigEndian(t);
  }

  /** The bytes `pack` writes for a primitive of width `w`. */
  function Encode(w: Width, x: nat): (r: seq<byte>)
    requires x < Bound(w)
    ensures |r| == Size(w)
    ensures FromBigEndian(r) == x
  {
    BoundIsPow256(w);
    FromToBigEndian(x, Size(w));
    ToBigEndian(x, Size(w))
  }

  /** `pack`: append the big-endian bytes of `x`; bytes already present are
      kept. */
  function Pack(w: Width, x: nat, out: seq<byte>): (r: seq<byte>)
    requires x < Bound(w)
    ensures |r| == |out| + Size(w)
    ensures r[..|out|] == out
    ensures FromBigEndian(r[|out|..]) == x
  {
    assert (out + Encode(w, x))[|out|..] == Encode(w, x);
    out + Encode(w, x)
  }

  /** The decoding half of `unpack`: consume `Size(w)` bytes and read them
      big-endian, or fail when fewer remain. */
  function Decode(w: Width, input: seq<byte>): (r: Result<(nat, seq<byte>)>)
    ensures r.Ok? <==> Size(w) <= |input|
    ensures r.Ok? ==> r.value.0 < Bound(w)
    ensures r.Ok? ==> r.value.0 == FromBigEndian(input[..Size(w)])
    ensures r.Ok? ==> r.value.1 == input[Size(w)..]
    ensures r.Err? ==> r.error == Deserialization
  {
    var (bytes, rest) :- Read(input, Size(w));
    BoundIsPow256(w);
    assert bytes == input[..Size(w)] && rest == input[Size(w)..];
    Ok((FromBigEndian(bytes), rest))
  }

  /** `unpack(&mut self, buff)`: on success the target becomes the decoded
      value; on failure it keeps its old value. */
  function Unpack(w: Width, target: nat, input: seq<byte>): (r: Unpacked<nat>)
    requires target < Bound(w)
    ensures r.value < Bound(w)
    ensures r.status.Ok? <==> Size(w) <= |input|
    ensures r.status.Ok? ==> r.value == FromBigEndian(input[..Size(w)])
    ensures r.status.Ok? ==> r.status.value == input[Size(w)..]
    ensures r.status.Err? ==> r.value == target && r.status.error == Deserialization
  {
    match Decode(w, input)
    case Ok((x, rest)) => Unpacked(x, Ok(rest))
    case Err(e) => Unpacked(target, Err(e))
  }

  /** Decoding the encoding of `x` followed by anything yields `x` and the
      bytes after it. */
  lemma DecodeEncoded(w: Width, x: nat, rest: seq<byte>)
    requires x < Bound(w)
    ensures Decode(w, Encode(w, x) + rest) == Ok((x, rest))
  {
    ReadPrefix(Encode(w, x), rest);
  }

  /** Round trip of the in-place form: unpacking the encoding of `x` sets
      the target to `x` and leaves exactly the bytes after it. */
  lemma UnpackEncoded(w: Width, x: nat, target: nat, rest: seq<byte>)
    requires x < Bound(w) && target < Bound(w)
    ensures Unpack(w, target, Encode(w, x) + rest) == Unpacked(x, Ok(rest))
  {
    DecodeEncoded(w, x, rest);
  }

  /** Unpacking from fewer bytes than the width fails and leaves the target
      unchanged. */
  lemma ShortInputRejected(w: Width, target: nat, input: seq<byte>)
    requires target < Bound(w) && |input| < Size(w)
    ensures Unpack(w, target, input) == Unpacked(target, Err(Deserialization))
  {
  }

  /** The other half of the round trip: whatever `Decode` accepts is the
      encoding of the value it yields, followed by the bytes it leaves. */
  lemma EncodeDecoded(w: Width, input: seq<byte>)
    requires Decode(w, input).Ok?
    ensures input == Encode(w, Decode(w, input).value.0) + Decode(w, input).value.1
  {
    var s := input[..Size(w)];
    ToFromBigEndian(s);
    BoundIsPow256(w);
    assert input == s + input[Size(w)..];
  }

  /** The concatenation of the fields' encodings, in list order. */
  function Concat<T>(fields: seq<T>, encode: T -> seq<byte>): seq<byte> {
    if |fields| == 0 then [] else encode(fields[0]) + Concat(fields[1..], encode)
  }

  /** `pack(fields, buff)`: pack each field in turn. The result is the old
      contents followed by every field's encoding, in order. */
  function PackFields<T>(fields: seq<T>, encode: T -> seq<byte>, out: seq<byte>): (r: seq<byte>)
    ensures r == out + Concat(fields, encode)
  {
    if |fields| == 0 then out
    else
      var r := PackFields(fields[1..], encode, out + encode(fields[0]));
      assert r == out + (encode(fields[0]) + Concat(fields[1..], encode));
      r
  }

  /** `n` values in a row, each read by `decode`; fails with the first
      failure, so a count larger than the data can hold is rejected. */
  function DecodeMany<T>(n: nat, decode: seq<byte> -> Result<(T, seq<byte>)>, input: seq<byte>): (r: Result<(seq<T>, seq<byte>)>)
    ensures r.Ok? ==> |r.value.0| == n
    decreases n
  {
    if n == 0 then Ok(([], input))
    else
      var (x, rest) :- decode(input);
      var (xs, rest') :- DecodeMany(n - 1, decode, rest);
      Ok(([x] + xs, rest'))
  }

  /** `decode` reads back what `encode` writes, for every value satisfying
      `valid`, whatever follows it. */
  ghost predicate Inverts<T(!new)>(encode: T -> seq<byte>, decode: seq<byte> -> Result<(T, seq<byte>)>, valid: T -> bool) {
    forall x, rest {:trigger decode(encode(x) + rest)} :: valid(x) ==> decode(encode(x) + rest) == Ok((x, rest))
  }

  /** Everything `decode` yields satisfies `valid`. */
  ghost predicate YieldsValid<T>(decode: seq<byte> -> Result<(T, seq<byte>)>, valid: T -> bool) {
    forall input :: decode(input).Ok? ==> valid(decode(input).value.0)
  }

  /** Round trip of a run of values: decoding `|xs|` values from the
      concatenated encodings yields `xs` and leaves exactly the bytes after
      them. */
  lemma {:induction false} DecodeManyConcat<T(!new)>(xs: seq<T>, encode: T -> seq<byte>,
                                                    decode: seq<byte> -> Result<(T, seq<byte>)>,
                                                    valid: T -> bool, rest: seq<byte>)
    requires Inverts(encode, decode, valid)
    requires forall i :: 0 <= i < |xs| ==> valid(xs[i])
    ensures DecodeMany(|xs|, decode, Concat(xs, encode) + rest) == Ok((xs, rest))
    decreases |xs|
  {
    if |xs| > 0 {
      var tail := Concat(xs[1..], encode) + rest;
      assert Concat(xs, encode) + rest == encode(xs[0]) + tail;
      assert decode(encode(xs[0]) + tail) == Ok((xs[0], tail));
      DecodeManyConcat(xs[1..], encode, decode, valid, rest);
      assert DecodeMany(|xs|, decode, encode(xs[0]) + tail) == Ok(([xs[0]] + xs[1..], rest));
      assert [xs[0]] + xs[1..] == xs;
    } else {
      assert Concat(xs, encode) + rest == rest;
    }
  }

  /** Whatever `decode` accepts is the encoding of the value it yields,
      followed by the bytes it leaves. */
  ghost predicate ReadsBack<T>(encode: T -> seq<byte>, decode: seq<byte> -> Result<(T, seq<byte>)>) {
    forall input :: decode(input).Ok? ==> input == encode(decode(input).value.0) + decode(input).value.1
  }

  /** A successful run consumed exactly the concatenated encodings of the
      values it yields. */
  lemma {:induction false} DecodeManyReadsBack<T>(n: nat, encode: T -> seq<byte>,
                                                 decode: seq<byte> -> Result<(T, seq<byte>)>, input: seq<byte>)
    requires ReadsBack(encode, decode)
    ensures DecodeMany(n, decode, input).Ok? ==>
              input == Concat(DecodeMany(n, decode, input).value.0, encode) + DecodeMany(n, decode, input).value.1
    decreases n
  {
    if n > 0 && DecodeMany(n, decode, input).Ok? {
      var (x, rest) := decode(input).value;
      DecodeManyReadsBack(n - 1, encode, decode, rest);
      var (xs, rest') := DecodeMany(n - 1, decode, rest).value;
      assert DecodeMany(n, decode, input).value == ([x] + xs, rest');
      assert ([x] + xs)[1..] == xs;
      assert input == encode(x) + (Concat(xs, encode) + rest');
    } else if n == 0 {
      assert Concat(DecodeMany(n, decode, input).value.0, encode) == [];
    }
  }

  /** Every value of a successful run satisfies `valid`. */
  lemma {:induction false} DecodeManyValid<T>(n: nat, decode: seq<byte> -> Result<(T, seq<byte>)>, valid: T -> bool, input: seq<byte>)
    requires YieldsValid(decode, valid)
    ensures DecodeMany(n, decode, input).Ok? ==> forall i :: 0 <= i < n ==> valid(DecodeMany(n, decode, input).value.0[i])
    decreases n
  {
    if n > 0 && decode(input).Ok? {
      DecodeManyValid(n - 1, decode, valid, decode(input).value.1);
    }
  }
}
