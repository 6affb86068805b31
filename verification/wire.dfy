/** The byte-level substrate shared by every codec: bytes, the single error
    type and the result wrappers.

    A `ByteBuffer` is used in one direction only in the core: a fresh buffer
    is packed into and sent, or a received buffer is unpacked from. So the
    writing side is modelled by the buffer's contents (`pack` appends) and
    the reading side by its unread bytes (`unpack` consumes a prefix and
    leaves the rest). */
module Wire {

  type byte = bv8

  /** Every failure the core can report. The source has two error structs
      (`TpmError`, `DeserializationError`) that carry only a message; they are
      unified here and told apart by constructor. */
  datatype Error =
    | Deserialization           // too few bytes, or a code with no table entry
    | MissingDigest(index: nat) // `to_pcr_values`: the digest list has no entry `index`
    | SizeTooBig                // a command whose size does not fit its u32 field
    | NotImplemented            // `tpm2_pcr_read` after every response was accepted

  datatype Option<+T> = None | Some(value: T)

  datatype Result<+T> = Ok(value: T) | Err(error: Error) {
    predicate IsFailure() {
      Err?
    }

    function PropagateFailure<U>(): Result<U>
      requires Err?
    {
      Err(error)
    }

    function Extract(): T
      requires Ok?
    {
      value
    }
  }

  /** `read_bytes(n)`: the next `n` bytes and the bytes after them, or a
      decode failure when fewer than `n` bytes remain. */
  function Read(input: seq<byte>, n: nat): (r: Result<(seq<byte>, seq<byte>)>)
    ensures r.Ok? <==> n <= |input|
    ensures r.Ok? ==> r.value.0 + r.value.1 == input && |r.value.0| == n
    ensures r.Err? ==> r.error == Deserialization
  {
    if n <= |input| then Ok((input[..n], input[n..])) else Err(Deserialization)
  }

  /** Reading the first |s| bytes of `s + rest` yields `s` and leaves `rest`. */
  lemma ReadPrefix(s: seq<byte>, rest: seq<byte>)
    ensures Read(s + rest, |s|) == Ok((s, rest))
  {
    assert (s + rest)[..|s|] == s;
    assert (s + rest)[|s|..] == rest;
  }

  /** Where three fields and what follows them sit in their concatenation. */
  lemma Fields(a: seq<byte>, b: seq<byte>, c: seq<byte>, rest: seq<byte>)
    ensures var s := a + (b + (c + rest));
            && s[..|a|] == a && s[|a|..|a| + |b|] == b
            && s[|a| + |b|..|a| + |b| + |c|] == c && s[|a| + |b| + |c|..] == rest
  {
    var s := a + (b + (c + rest));
    assert s[|a|..] == b + (c + rest);
    assert s[|a| + |b|..] == c + rest;
  }

  /** The state of an in-place `unpack(&mut self, buff)` call: `value` is
      the target after the call; `status` holds the unread bytes after a
      successful decode, or the error. */
  datatype Unpacked<+T> = Unpacked(value: T, status: Result<seq<byte>>)
}
