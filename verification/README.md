# TPM2_PCR_Read client core, modelled in Dafny

This project models the byte-level core of the rust-tpm2 client. That
client builds TPM 2.0 commands, serializes them big-endian, and decodes
the TPM's responses. The project covers four pieces:

- **Primitive codec** (`inout.rs`, module `InOut`). `pack` appends the
  big-endian bytes of a `u8`/`u16`/`u32`/`u64`. `unpack` consumes exactly
  that many bytes, or fails and leaves its target unchanged. `pack(fields)`
  packs a list of fields in order.
- **Closed enumerations** `TPM_ALG_ID` and `TPM_ST` (`algid.rs`, `st.rs`,
  modules `AlgId` and `St`). Both use the code tables of sections 6.3 and
  6.9 of TPM 2.0 Library Part 2. Each value travels as a two-byte
  big-endian discriminant and is decoded through an explicit table. An
  unknown code or a short input is a deserialization error, and the
  target is then left unchanged.
- **Command and response headers** (`commands.rs`, module `Commands`). A
  header is tag, size, then code, ten bytes in all. The response header
  is unpacked field by field and stops at the first failure, so the
  fields read before the failure keep their new values.
- **TPM2_PCR_Read** (`pcrread.rs`, modules `PcrRead` and `PcrChunking`),
  the command of section 22.4 of TPM 2.0 Library Part 3. The model covers:
  - the size computation in `PcrReadCommand::new`;
  - packing the command;
  - unpacking the response and `PcrReadResponse::new`;
  - the bitmap walk of `to_pcr_values`;
  - `tpm2_pcr_read`. It splits each requested register list into runs
    of at most eight registers. Each run becomes a three-byte bitmap,
    sent as one single-selection PCR_Read command. Each response goes
    through `PcrReadResponse::new` and `to_pcr_values`, and the first one
    rejected ends the read with its error.

Shared pieces:
- Module `Wire` defines bytes (`bv8`), the error type, `Result`/`Option`
  and `Unpacked`. `Unpacked` is the outcome of an in-place `unpack`: the
  target's value afterwards, plus either the unread bytes or the error.
- Module `ByteValues` converts between a byte and its numeric value.
- Module `Bitmap` defines PCR bitmaps: bit n of byte i selects register
  8i + n.
- Module `Tcg` defines the TCG structures the command uses: selection
  lists, digest lists and response codes. `tcg.rs` is not part of this
  model, so these use the layouts of TPM 2.0 Library Part 2:
  - `TPML_PCR_SELECTION`: a u32 count, then per selection a u16
    algorithm, a u8 `sizeofSelect` and that many bitmap bytes;
  - `TPML_DIGEST`: a u32 count, then u16-sized digests.

How the model is built:
- A buffer is the sequence of its unread bytes. Decoding returns the
  value and the bytes after it. Packing appends to a byte sequence.
- Every decoder is paired with an encoder. For each pair a round-trip
  lemma is proved.
- The loops of `tpm2_pcr_read` are methods with loop invariants. The
  commands they send are proved to be a prefix of a functional
  reference: the partition of each list into runs of eight, one command
  per run. The prefix ends at the first rejected response, or covers
  every run.
- The device is a parameter: the bytes it replies to each command, in
  order. The outcome of an exchange is those bytes run through
  `PcrReadResponse::new` and then `to_pcr_values`.
- The loop builds each command with `PcrReadCommand::new`. The reference
  commands are written out as `PcrChunking.CommandFor`: tag
  `TPM_ST_NO_SESSION`, size 20, code PCR_Read and the chunk's
  selection. `PcrChunking.ChunkCommandSize` proves that `new` builds
  exactly that command.
- `CommandHeader::new` is the `CommandHeader` datatype constructor.
  `ResponseHeader::new` is the constant `Commands.NewResponseHeader`:
  tag 0, size 0, response code `TPM_RC_SUCCESS`.
- Integers are unbounded. The `u32` sum that gives `command_size` is
  written out with release-build wrap-around.

The model follows the code as written, including where it departs from
what the TPM 2.0 protocol expects:
- `to_pcr_values` takes digest number 8i + n, the register number, not
  the next unused digest.
- The response code is not checked before the payload is parsed.
- There is no register-range check before the device is used.
- `tpm2_pcr_read` never returns the values it collected. It returns the
  first rejected response's error or, once every response is accepted,
  a "not implemented" error. Because of the digest indexing above, a
  real TPM's answer to a run is accepted only when the run's registers
  are exactly 0, 1, ..., n - 1. Registers 0 to 9, for example, stop
  after the second command.

## Model

| member | source | states |
|---|---|---|
| InOut.Encode | src/tpm2/serialization/inout.rs:23-27 | `pack` of a width-w value gives exactly w bytes, whose big-endian value is the packed number |
| InOut.Pack | src/tpm2/serialization/inout.rs:24-26 | packing only appends: the result is the old buffer followed by the value's encoding |
| InOut.Decode | src/tpm2/serialization/inout.rs:29-42 | decoding succeeds exactly when w bytes remain, yields the big-endian value of the first w bytes (below 2^(8w)) and leaves the rest; otherwise a deserialization error |
| InOut.Unpack | src/tpm2/serialization/inout.rs:29-42 | in-place unpack: on success the target becomes the big-endian value of the first w bytes and exactly w bytes are consumed; on failure the target keeps its old value |
| InOut.DecodeEncoded | src/tpm2/serialization/inout.rs:23-36 | decoding the encoding of any in-range x yields x and exactly the bytes that followed |
| InOut.UnpackEncoded | src/tpm2/serialization/inout.rs:23-36 | unpacking the encoding of x sets the target to x whatever it held, and leaves the following bytes |
| InOut.EncodeDecoded | src/tpm2/serialization/inout.rs:29-36 | whatever decoding accepts is the encoding of the value it yields followed by the bytes it leaves, so exactly w bytes are consumed and they are the value's representation |
| InOut.ShortInputRejected | src/tpm2/serialization/inout.rs:31-39 | with fewer than w bytes, unpack fails and the target is unchanged |
| InOut.FromToBigEndian | src/tpm2/serialization/inout.rs:25 | reading back the n-byte big-endian representation of x < 256^n gives x |
| InOut.ToFromBigEndian | src/tpm2/serialization/inout.rs:34 | every byte string is the big-endian representation of its own value |
| InOut.FromBigEndianInjective | src/tpm2/serialization/inout.rs:34 | two byte strings of one length with the same big-endian value are equal |
| InOut.PackFields | src/tpm2/serialization/inout.rs:52-56 | `pack(fields)` gives the old buffer followed by every field's encoding, in list order |
| InOut.DecodeManyConcat | src/tpm2/serialization/inout.rs:52-56 | decoding \|xs\| values from the concatenated encodings of xs yields xs and the bytes after them, for any codec whose decoder inverts its encoder |
| InOut.DecodeManyReadsBack | src/tpm2/serialization/inout.rs:29-36 | a successful run of n decodes consumed exactly the concatenated encodings of the values it yields, for any codec whose decoder reads back its encoder |
| AlgId.FromCodeSound | src/tpm2/types/constants/algid.rs:70-108 | every code the unpack table accepts is the declared discriminant of the variant it yields |
| AlgId.DecodeDiscriminant | src/tpm2/types/constants/algid.rs:14-108 | each of the 38 declared discriminants decodes to its own variant |
| AlgId.CodeTableShape | src/tpm2/types/constants/algid.rs:12-16 | distinct variants have distinct codes, and the default variant `Error` has code 0x0000 |
| AlgId.Encode | src/tpm2/types/constants/algid.rs:56-60 | `pack` writes exactly two bytes whose big-endian value is the variant's discriminant |
| AlgId.Pack | src/tpm2/types/constants/algid.rs:56-60 | `pack` keeps the buffer's old contents and appends exactly two bytes, whose big-endian value is the variant's discriminant |
| AlgId.Decode | src/tpm2/types/constants/algid.rs:62-120 | decoding succeeds exactly when two bytes remain and their code is in the table; the variant then has that code and two bytes are consumed; otherwise a deserialization error |
| AlgId.Unpack | src/tpm2/types/constants/algid.rs:62-120 | the same outcome in place: on any error the target is unchanged |
| AlgId.DecodeEncoded | src/tpm2/types/constants/algid.rs:56-113 | decoding the encoding of any variant yields that variant and the following bytes |
| AlgId.UnpackEncoded | src/tpm2/types/constants/algid.rs:56-113 | unpacking the encoding of any variant sets the target to it, whatever the target held |
| AlgId.UnknownCodesRejected | src/tpm2/types/constants/algid.rs:109-111 | codes 0x0002, 0x0009, 0x0011 and 0x0045 are rejected and the target is unchanged |
| AlgId.ShortInputRejected | src/tpm2/types/constants/algid.rs:67-117 | fewer than two bytes: an error, and the target is unchanged |
| St.DecodeDiscriminant | src/tpm2/types/constants/st.rs:14-68 | each of the 18 declared discriminants decodes to its own variant |
| St.CodeTableShape | src/tpm2/types/constants/st.rs:14-17 | distinct variants have distinct codes, and the default variant `Null` has code 0x8000 |
| St.Encode | src/tpm2/types/constants/st.rs:36-40 | `pack` writes exactly two bytes whose big-endian value is the variant's discriminant |
| St.Pack | src/tpm2/types/constants/st.rs:36-40 | `pack` keeps the buffer's old contents and appends exactly two bytes, whose big-endian value is the variant's discriminant |
| St.Decode | src/tpm2/types/constants/st.rs:42-80 | decoding succeeds exactly when two bytes remain and their code is in the table; otherwise a deserialization error |
| St.Unpack | src/tpm2/types/constants/st.rs:42-80 | the same outcome in place: on any error the target is unchanged |
| St.DecodeEncoded | src/tpm2/types/constants/st.rs:36-73 | decoding the encoding of any variant yields that variant and the following bytes |
| St.UnpackEncoded | src/tpm2/types/constants/st.rs:36-73 | unpacking the encoding of any variant sets the target to it |
| St.UnknownCodesRejected | src/tpm2/types/constants/st.rs:69-71 | codes 0x0000, 0x8003 and 0x801b are rejected and the target is unchanged |
| St.ShortInputRejected | src/tpm2/types/constants/st.rs:47-77 | fewer than two bytes: an error, and the target is unchanged |
| Commands.PackCommandHeader | src/tpm2/commands/commands.rs:42-48 | packing a header appends ten bytes and keeps the old buffer: the tag, then the command size, then the command code, each big-endian |
| Commands.PackCommandHeaderIsEncoding | src/tpm2/commands/commands.rs:42-48 | the packed header is the old buffer followed by the header's ten-byte encoding |
| Commands.UnpackResponseHeader | src/tpm2/commands/commands.rs:50-60 | reads tag, size and code from bytes 0-1, 2-5 and 6-9 in that order; with fewer than 2, 6 or 10 bytes it fails at the tag, the size or the code, keeping the fields already overwritten. With every 32-bit response code accepted (see "Left out"), it succeeds exactly when ten bytes remain |
| Commands.ResponseHeaderRoundTrip | src/tpm2/commands/commands.rs:50-60 | unpacking the ten bytes of a header yields that header, whatever the target held, and leaves the following bytes |
| Tcg.UnpackRc | src/tpm2/commands/commands.rs:56-58 | unpacking a response code succeeds exactly when four bytes remain, and otherwise leaves the target unchanged |
| Tcg.SelectionListRoundTrip | src/tpm2/commands/pcrread.rs:82-85 | decoding the encoding of a well-formed selection list yields that list and the following bytes |
| Tcg.DigestListRoundTrip | src/tpm2/commands/pcrread.rs:87-90 | decoding the encoding of a well-formed digest list yields that list and the following bytes |
| Tcg.UnpackSelectionList | src/tpm2/commands/pcrread.rs:82-85 | in-place unpack of a selection list: on success the target is a well-formed list and the consumed bytes are exactly its encoding; on failure the target keeps its old value |
| Tcg.UnpackSelectionListEncoded | src/tpm2/commands/pcrread.rs:82-85 | unpacking the encoding of a well-formed selection list sets the target to that list, whatever it held, and leaves the following bytes |
| Tcg.SelectionListReadsBack | src/tpm2/commands/pcrread.rs:82-85 | whatever the selection-list decoder accepts is the encoding of the list it yields followed by the bytes it leaves |
| Tcg.UnpackDigestList | src/tpm2/commands/pcrread.rs:87-90 | in-place unpack of a digest list: on success the target is a well-formed list and the consumed bytes are exactly its encoding; on failure the target keeps its old value |
| Tcg.UnpackDigestListEncoded | src/tpm2/commands/pcrread.rs:87-90 | unpacking the encoding of a well-formed digest list sets the target to that list, whatever it held, and leaves the following bytes |
| Tcg.DigestListReadsBack | src/tpm2/commands/pcrread.rs:87-90 | whatever the digest-list decoder accepts is the encoding of the list it yields followed by the bytes it leaves |
| Tcg.DecodedSelectionListWellFormed | src/tpm2/commands/pcrread.rs:82-85 | every selection list the decoder accepts is well formed: its count is the number of selections, and each bitmap is `sizeofSelect` bytes long |
| Tcg.DecodedDigestListWellFormed | src/tpm2/commands/pcrread.rs:87-90 | every digest list the decoder accepts is well formed: its count is the number of digests, and each digest is as long as its size field |
| PcrRead.WrapSum | src/tpm2/commands/pcrread.rs:41-49 | adding the header size to the truncated selection length in u32 arithmetic is the true sum modulo 2^32 |
| PcrRead.PackPcrReadCommand | src/tpm2/commands/pcrread.rs:55-60 | packing a command appends the header's bytes and then the selection list's bytes |
| PcrRead.NewPcrReadCommand | src/tpm2/commands/pcrread.rs:25-52 | as written: always succeeds, with the given tag, code `TPM_CC_PCR_Read` (0x17E), the given selection, and size (10 + packed selection length) mod 2^32 |
| PcrRead.CommandSizeMatches | src/tpm2/commands/pcrread.rs:41-60 | when the command fits in a u32 size, `command_size` equals the length of the packed command |
| PcrRead.OversizeAccepted | src/tpm2/commands/pcrread.rs:35-39 | a selection whose command exceeds the u32 range is still accepted, with a size field that does not match the packed length |
| PcrRead.NewPcrReadCommandChecked | src/tpm2/commands/pcrread.rs:25-52 | corrected: succeeds exactly when the command fits in a u32 size, otherwise a size error; on success the size field equals the packed length |
| PcrRead.CheckedAgreesWhenFits | src/tpm2/commands/pcrread.rs:25-52 | where the command fits, the corrected and the as-written constructors build the same command |
| PcrRead.CommandLayout | src/tpm2/commands/pcrread.rs:55-60 | a packed command reads back as tag, size and code in bytes 0-9, followed by exactly the selection list |
| PcrRead.UnpackPcrReadResponse | src/tpm2/commands/pcrread.rs:71-93 | fewer than 14 bytes is an error; fields are unpacked in order, so a short input overwrites only the header (and counter), never the lists |
| PcrRead.ResponseRoundTrip | src/tpm2/commands/pcrread.rs:71-93 | unpacking the bytes of a well-formed response yields that response, whatever the target held, and leaves the following bytes |
| PcrRead.NewPcrReadResponse | src/tpm2/commands/pcrread.rs:95-104 | building a response from fewer than 14 bytes fails |
| PcrRead.NewResponseRoundTrip | src/tpm2/commands/pcrread.rs:95-104 | `PcrReadResponse::new` on the bytes of a well-formed response returns exactly that response |
| PcrRead.LookupByRegisterSpec | src/tpm2/commands/pcrread.rs:117-131 | looking up digests by register succeeds exactly when every register names a digest; entry k then pairs key k with the digest numbered by its register; otherwise the error names a selected register with no digest |
| PcrRead.VisitSelectionsIsLookup | src/tpm2/commands/pcrread.rs:111-135 | the three nested loops visit every selected (algorithm, register) pair, selection by selection, in increasing register order |
| PcrRead.ToPcrValuesByRegister | src/tpm2/commands/pcrread.rs:108-140 | `to_pcr_values` as written: succeeds exactly when every selected register r has a digest numbered r, then records (hash, r, digest r) per set bit in order; otherwise fails naming such an r |
| PcrRead.ToPcrValuesMisindexes | src/tpm2/commands/pcrread.rs:119 | a well-formed response selecting register 1 with its one digest is rejected with a missing-digest error for index 1 |
| PcrRead.LookupInOrderSpec | src/tpm2/commands/pcrread.rs:108-140 | corrected walk: succeeds exactly when enough digests remain, pairing the k-th key with the k-th unused digest |
| PcrRead.ToPcrValuesInOrderSpec | src/tpm2/commands/pcrread.rs:108-140 | corrected `to_pcr_values`: succeeds exactly when there are at least as many digests as selected registers, pairing the k-th selected register with digest k |
| PcrRead.ToPcrValuesInOrderAccepts | src/tpm2/commands/pcrread.rs:119 | the corrected walk accepts the one-register response and records register 1 with its digest |
| Bitmap.BitIsShift | src/tpm2/commands/pcrread.rs:118 | the bit test is `byte >> n & 0x1 == 0x1` |
| Bitmap.MaskIsShift | src/tpm2/commands/pcrread.rs:158 | the mask is `0x1 << n` |
| Bitmap.SetRegisterSelects | src/tpm2/commands/pcrread.rs:157-158 | or-ing register p into a three-byte map selects p and leaves every other register as it was |
| Bitmap.RegistersInMembers | src/tpm2/commands/pcrread.rs:113-118 | a register is listed for a range exactly when it lies in the range and its bit is set |
| Bitmap.RegistersInIncreasing | src/tpm2/commands/pcrread.rs:113-117 | selected registers are listed in strictly increasing order |
| PcrChunking.BitmapOfSelects | src/tpm2/commands/pcrread.rs:156-158 | the bitmap of a run of registers selects exactly the registers of the run |
| PcrChunking.PopcountOfBitmap | src/tpm2/commands/pcrread.rs:156-159 | a run's bitmap has one bit per distinct register, so at most as many bits as list entries, and exactly as many for distinct entries |
| PcrChunking.PartitionShape | src/tpm2/commands/pcrread.rs:159-202 | a list of N registers is split into ⌈N/8⌉ runs, run k being positions 8k up to 8k + 8 or the end of the list |
| PcrChunking.ChunkCount | src/tpm2/commands/pcrread.rs:154-202 | a list of N registers is split into ⌈N/8⌉ bitmaps, all sent when every response is accepted |
| PcrChunking.ChunkPopcount | src/tpm2/commands/pcrread.rs:154-161 | each sent bitmap has at most eight bits set, one per distinct register of its run |
| PcrChunking.ChunkSelects | src/tpm2/commands/pcrread.rs:156-201 | bitmap k selects exactly the registers at positions 8k to 8k + 7 |
| PcrChunking.ChunkUnion | src/tpm2/commands/pcrread.rs:156-201 | a register is selected by some sent bitmap exactly when it was requested |
| PcrChunking.ChunksDisjoint | src/tpm2/commands/pcrread.rs:156-201 | when no register is requested twice, no register is selected by two different bitmaps |
| PcrChunking.ChunkCommandSize | src/tpm2/commands/pcrread.rs:164-177 | `PcrReadCommand::new` on a chunk selection (count 1, `sizeof_select` 3) succeeds with the command whose size field is 20, which packs to exactly 20 bytes; the corrected constructor builds the same command |
| PcrChunking.ChunkCommandDecodes | src/tpm2/commands/pcrread.rs:164-180 | after the header, a chunk command decodes to exactly the one selection of the chunk's algorithm and bitmap |
| PcrChunking.CommandsOf | src/tpm2/commands/pcrread.rs:173-180 | one command per bitmap, command k built from bitmap k |
| PcrChunking.ScanStep | src/tpm2/commands/pcrread.rs:156-202 | one turn of the inner loop keeps its invariant: the open map is the map of the open run, and the closed maps are the first chunk maps |
| PcrChunking.ScanDone | src/tpm2/commands/pcrread.rs:156-204 | when the list is exhausted, the closed maps are exactly the chunk maps |
| PcrChunking.ClosedPrefix | src/tpm2/commands/pcrread.rs:156-180 | the commands of the maps closed so far are the first chunk commands of the selection |
| PcrChunking.ReadCommandsPrefix | src/tpm2/commands/pcrread.rs:152-180 | the commands of the first j selections are the first commands of the whole read |
| PcrChunking.FirstRejected | src/tpm2/commands/pcrread.rs:192-199 | the first exchange from lo on whose response is rejected: every exchange before it is accepted, and it is rejected unless it is hi |
| PcrChunking.FirstRejectedUnique | src/tpm2/commands/pcrread.rs:192-199 | any index with those properties is the first rejection |
| PcrChunking.StopCarries | src/tpm2/commands/pcrread.rs:152-199 | a selection that ends at a rejection after earlier accepted exchanges ends the whole read there, with that error |
| PcrChunking.Exchange | src/tpm2/commands/pcrread.rs:161-199 | one closed map: the command built by `new` is appended to the sent commands; a rejected answer ends the read there, reporting its error and the values so far; an accepted one appends its values |
| PcrChunking.ReadSelection | src/tpm2/commands/pcrread.rs:153-201 | one selection: the sent commands are its chunk commands in order, up to and including the first rejected one, or all of them; the values are those of the accepted exchanges; the failure is the rejected one's error, or none |
| PcrChunking.ReadPcrs | src/tpm2/commands/pcrread.rs:152-210 | the whole read: the commands sent are those of every selection in order, up to and including the first rejected one; the values are the accepted exchanges'; the error is the first rejection's, or "not implemented" when every response is accepted |
| PcrChunking.TpmPcrRead | src/tpm2/commands/pcrread.rs:145-211 | the same against a device replying with the given bytes, each reply going through `PcrReadResponse::new` and `to_pcr_values` |
| PcrChunking.SecondRunRejected | src/tpm2/commands/pcrread.rs:113-131 | a response for the map 00 03 00 carrying the two digests of registers 8 and 9 is rejected by `to_pcr_values` |
| PcrChunking.TenRegistersReadStops | src/tpm2/commands/pcrread.rs:152-199 | reading registers 0 to 9 takes two commands, and with that second response the read stops at the second one |
| PcrChunking.TenRegistersChunks | src/tpm2/commands/pcrread.rs:153-202 | registers 0 to 9 go out as the two bitmaps FF 00 00 and 00 03 00 |

## Left out

- Device I/O in `tpm2_pcr_read` is left out: the TCP transport, `send_recv`, and the buffer each command is packed into, which only goes to the device. The device is the sequence of byte strings it replies. A failed `send_recv` is only printed, so its response buffer is parsed all the same; a command beyond the given replies gets an empty buffer.
- The `println!`/`hex::encode` logging is left out, as are the `Display` impls of `TpmAlgId` and `TpmSt`.
- InOut.Decode: a read past the end of the buffer is modelled as a deserialization error. This assumes `ByteBuffer::read_bytes` hands back the short slice, so that the fixed-size `try_from` fails. A version of the `bytebuffer` crate whose `read_bytes` panics instead would abort there. That crate is not part of this model. The same holds for InOut.Unpack and every decoder built on them.
- `pcr.rs` (a superseded earlier PCR read), `import.rs` (key import) and `constants/mod.rs` (re-exports only) are not part of this model.
- `tcg.rs`, `rc.rs` and `pcrs.rs` are not part of this model. Their types are modelled from the TPM 2.0 Library Part 2 layouts.
- Tcg.UnpackRc: every 32-bit response code is accepted, because the response-code table of `rc.rs` is not part of this model.
- Commands.UnpackResponseHeader: it succeeds on every ten-byte input only because Tcg.UnpackRc accepts every code. The crate's `TpmRc` unpack presumably rejects codes outside its table, as the `TpmAlgId` and `TpmSt` unpacks do; such a header would then fail after its tag and size were overwritten. That rejection is not modelled.
- Tcg.GetDigest: it is the assumed definition of `get_digest(k)`, the k-th digest when the list has more than k entries and none otherwise. `tcg.rs`, which defines it, is not part of this model.
- PcrRead.UnpackPcrReadResponse: its contract covers only the failure and partial-update cases. The success case is stated by PcrRead.ResponseRoundTrip, for well-formed input only.
- PcrRead.NewPcrReadResponse: its contract states only the short-input failure. Success is stated by PcrRead.NewResponseRoundTrip.
- The `PCRs` collection is modelled as the sequence of its `add` calls, because `pcrs.rs` is not part of this model.
- A register index of 24 or more makes `tpm2_pcr_read` index out of bounds. It is excluded by the precondition `InRange` rather than modelled as a panic.
- PcrRead.NewPcrReadCommand: the overflowing `u32` sum is modelled with release-build wrap-around. The debug-build overflow panic is not modelled.
- A `ByteBuffer`'s read cursor after a failed read is not modelled. Every caller returns the error at once and drops the buffer.
- `DeserializationError` and `TpmError` are merged into one error type. It distinguishes a decode failure, a missing digest, an oversize command and the final "not implemented" of `tpm2_pcr_read`. Error message strings are not modelled.

## Findings

| source | as written | input that shows it | evidently intended | confidence | as-written member | corrected member |
|---|---|---|---|---|---|---|
| src/tpm2/commands/pcrread.rs:35-39 | the oversize check builds an error value and drops it, so `new` always succeeds; its threshold also tests the selection alone, not the selection plus the 10 header bytes | a selection list whose packed length plus 10 exceeds 0xFFFF_FFFF: the command is built with a wrapped, wrong `command_size` | return a size error whenever the whole command does not fit in the u32 size field | not executed | PcrRead.OversizeAccepted | PcrRead.NewPcrReadCommandChecked |
| src/tpm2/commands/pcrread.rs:119 | the digest for set bit n of byte i is fetched at index 8i + n, the register number | one SHA-256 selection with only register 1 set (`02 00 00`) and one digest: digest 1 does not exist, so the read fails | the TPM returns one digest per selected register in selection order, so the k-th set bit takes digest k | not executed | PcrRead.ToPcrValuesMisindexes | PcrRead.ToPcrValuesInOrderSpec |
