# rust-rapidsnark, modelled in Dafny

rust-rapidsnark connects a circuit's witness function to the native
rapidsnark Groth16 prover and verifier over BN254. This project models the
Rust side of that boundary and proves its byte-level behaviour. The parts
modelled are:

- **The `wtns` encoder.** `parse_bigints_to_witness` writes the iden3 /
  witnesscalc container. At offsets 0-11 are the magic "wtns", version 2
  and section count 2. Section 1 (field parameters) sits at 12-63 and
  section 2 (witness data) starts at 64. The 32-byte value slots start at
  offset 76. The model pairs the encoder with a decoder written for it.
  Decoding inverts encoding in both directions.
- **The native-boundary wrappers.** `groth16_prover_zkey_file_wrapper` and
  `groth16_verify_wrapper` allocate zero-filled buffers and make one native
  call. They read the buffers back as C strings and map the native status
  to `Ok`/`Err`.
- **`generate_proof`.** Inputs are parsed as base 10 and the witness is
  flattened into a headerless buffer of 32-byte chunks. One call goes to
  `groth16_api_prove`, the native result is freed exactly once, and two
  strings are wrapped in a fixed JSON envelope. This part also includes
  the verification-key projection of `verify_proof`.
- **The test helpers.** `bytes_to_bits` expands bytes LSB-first,
  `bytes_to_circuit_inputs` builds `"0"`/`"1"` strings under the single
  key `"in"`, and `compute_witness` ends in a `wtns` file.

The modules follow the source files:

- `Wtns` (wtns.dfy) and `RapidsnarkFfi` (ffi.dfy) model `crates/src/lib.rs`.
- `CircuitInputs` (inputs.dfy) models the input parsing that
  `generate_proof` (src/lib.rs) and `compute_witness` (tests/src/lib.rs)
  both do.
- `Api` (api.dfy) and `VerificationKeys` (vkey.dfy) model `src/lib.rs`.
- `TestHelpers` (testhelpers.dfy) models `tests/src/lib.rs`.
- `Bytes`, `CStrings` and `Decimal` model library behaviour the code
  relies on: num-bigint byte encodings and `Vec::resize`, `CStr::from_ptr`,
  and `BigInt::from_str` together with base-10 printing.
- `Wrappers` holds `Option` and `Result`.

The native library is modelled as classes whose fields hold the reply the
next call will give. A call writes the reply's bytes into the caller's
arrays, returns its status and sizes, and appends its arguments to a call
log. Any reply is allowed that leaves a NUL in every buffer the wrapper
reads back (`ProveReplyReadable`, `VerifyReplyReadable`). For every such
reply, each wrapper's `ensures` specifies its result. It also specifies
that exactly one call was made, and with which capacities.

Rust strings that cross the C boundary are modelled as their UTF-8 bytes
(`seq<byte>`). Circuit-input texts and verification-key strings are Dafny
`string`s.

Where the code and its documentation differ, the model follows the code:

- The encoder never fails, not even on empty input.
- The verify wrapper maps every status other than 0 and 2 to `Ok(false)`.
- The prove wrapper reads its outputs up to the first NUL. It does not use
  the sizes the native side reports.

## Model

| member | source | states |
|---|---|---|
| Wtns.ParseBigintsToWitness | crates/src/lib.rs:64-112 | always returns `Ok`, holding exactly the container `WtnsFile(bigints)`: header pieces in write order, then one slot per value |
| Wtns.AppendValues | crates/src/lib.rs:103-108 | the value loop appends exactly the slots of all values, in input order, after what was already written |
| Wtns.PreambleFields | crates/src/lib.rs:75-83 | offsets 0-11 are "wtns", then 2 as u32 LE (version), then 2 as u32 LE (section count) |
| Wtns.FieldSectionFields | crates/src/lib.rs:86-95 | section 1 is 52 bytes: id 1 (u32) and declared length 40 (u64); the payload after it is exactly 40 bytes; it holds n8 = 32, q as exactly 32 LE bytes decoding to q, and the count `n mod 2^32` |
| Wtns.QEncoding | crates/src/lib.rs:69-72 | `to_signed_bytes_le` of q is its 32-byte LE encoding, its top byte is below 0x80, and it decodes to q |
| Wtns.DataSectionFields | crates/src/lib.rs:97-108 | section 2 is id 2 (u32), declared length 32·n mod 2^64 (the wrapping u64 multiply), then exactly n 32-byte slots; below 2^59 values the declared length equals the payload's |
| Wtns.WtnsLayout | crates/src/lib.rs:64-112 | output length is 76 + 32·n; bytes 0-11, 12-63 and 64- are the three parts; bytes 76- are the slots |
| Wtns.WtnsParts | crates/src/lib.rs:75-108 | the appended pieces regroup into preamble, section 1 and section 2 |
| Wtns.EmptyWitness | crates/src/lib.rs:64-111 | empty input gives a 76-byte buffer whose count and section-2 length are both 0 |
| Wtns.SlotsAt | crates/src/lib.rs:104-107 | slot i of the data section is value i's slot |
| Wtns.Slot | crates/src/lib.rs:105-107 | every value, whatever its size or sign, takes exactly 32 bytes |
| Wtns.Slots | crates/src/lib.rs:104-108 | the data payload is exactly 32 bytes per value |
| Wtns.ValueSlot | crates/src/lib.rs:104-107 | the 32 bytes at offset 76+32·i are value i's slot. A non-negative value is its 32-byte LE encoding and decodes to it mod 2^256. A negative v ≥ -2^255 is its L-byte two's-complement bytes followed by zeros, and decodes to v + 256^L |
| Wtns.SlotOfNonneg | crates/src/lib.rs:105-106 | the slot of a non-negative value is its 32-byte LE encoding and reads back as the value mod 2^256 |
| Wtns.SlotOfNegative | crates/src/lib.rs:105-106 | the slot of a negative v is the 32-byte LE encoding of v + 256^L, where L is the minimal signed length. If v ≥ -2^255 it is the L signed bytes zero-padded, reading back as v + 256^L, so the value is not sign-extended |
| Wtns.NegativeOneSlot | crates/src/lib.rs:105-106 | a negative value is zero-padded, not sign-extended: -1 is written as [255, 0, …, 0], which reads back as 255 |
| Wtns.SlotOfReduced | crates/src/lib.rs:105-106 | the slot of a value in [0, q) is its 32-byte LE encoding and decodes to the value |
| Wtns.DecodeSlotsOfSlots | crates/src/lib.rs:104-107 | the slots of reduced values decode to those values, in order |
| Wtns.DecodeOfEncode | crates/src/lib.rs:64-112 | for values in [0, q), fewer than 2^32 of them, decoding the output gives back the input sequence |
| Wtns.EncodeOfDecode | crates/src/lib.rs:64-112 | whatever the decoder accepts is reduced, has fewer than 2^32 values, and is exactly the encoder's output for them |
| Wtns.SlotsOfDecodeSlots | crates/src/lib.rs:104-107 | accepted slot data holds reduced values and is exactly their slots |
| Wtns.DecodeOfParts | crates/src/lib.rs:75-108 | the decoder checks the three parts independently |
| Wtns.PreambleOfDecode | crates/src/lib.rs:75-83 | an accepted preamble is exactly the one the encoder writes |
| Wtns.FieldSectionOfDecode | crates/src/lib.rs:86-95 | an accepted section 1 declares a count below 2^32 and is exactly the encoder's section 1 for that count |
| Wtns.DataSectionOfDecode | crates/src/lib.rs:97-108 | an accepted section 2 holds exactly n reduced values and is the encoder's section 2 for them |
| Wtns.FieldSectionDecodes | crates/src/lib.rs:86-95 | the decoder accepts the encoder's section 1 and reads the count back |
| Wtns.DataSectionDecodes | crates/src/lib.rs:97-108 | the decoder accepts the encoder's section 2 and reads the values back |
| Bytes.SignedLe | crates/src/lib.rs:94 | `to_signed_bytes_le` / `BigInt::to_le_bytes`: at least one byte, and the low byte is `v mod 256`; minimality and the full bytes are stated by the next two rows |
| Bytes.SignedLeNonneg | crates/src/lib.rs:105 | for v ≥ 0 the signed encoding is the L-byte LE encoding of v, where L ≥ 1 and SignBound(L-1) ≤ v < SignBound(L), with SignBound(k) = 2^(8k-1) and SignBound(0) = 0; so L is the shortest length whose two's complement holds v |
| Bytes.SignedLeNeg | crates/src/lib.rs:105 | for v < 0 the signed encoding is the L-byte LE encoding of v mod 256^L = v + 256^L, where L ≥ 1 and -SignBound(L) ≤ v < -SignBound(L-1); so L is the shortest length whose two's complement holds v |
| Bytes.Le | crates/src/lib.rs:80-101 | `to_le_bytes` of a u32 / u64 gives exactly `width` bytes |
| Bytes.LeMod | crates/src/lib.rs:99-101 | `width` LE bytes keep only the value mod 256^width, as a wrapping cast or multiply leaves it |
| Bytes.UnsignedLeIsLe | src/lib.rs:149 | `BigUint::to_bytes_le` is the LE encoding of v in its own length L, and v < 256^L |
| Bytes.ResizeUnsigned | src/lib.rs:149-150 | `to_bytes_le` resized to n bytes with zero fill is the n-byte LE encoding |
| Bytes.ResizeSignedNonneg | crates/src/lib.rs:105-106 | for v ≥ 0, resizing the signed bytes to n with zero fill gives the n-byte LE encoding |
| Bytes.Resize | crates/src/lib.rs:106 | `Vec::resize`: exactly n bytes; byte i is the input's byte i, or the fill value past the input's end |
| Bytes.LeValueOfLe | crates/src/lib.rs:80-101 | a value below 256^w encoded in w LE bytes decodes to itself |
| Bytes.LeOfLeValue | crates/src/lib.rs:80-101 | w LE bytes are the w-byte encoding of their value, so a fixed-width field is determined by its value |
| CircuitInputs.ParseInputs | src/lib.rs:133-143 | same keys and lengths; every integer is `BigInt::from_str` of the text in its place |
| Decimal.FromStrAccepts | src/lib.rs:139 | `BigInt::from_str` accepts exactly an optional sign, then a non-empty run of digits and `_` that does not start with `_`; the value is the run's, negated after `-` |
| Decimal.DigitsValueAccepts | src/lib.rs:139 | a digit run is accepted exactly when every character is a digit or `_` |
| Decimal.DecimalInjective | src/lib.rs:82-106 | distinct numbers print differently, so the key's decimal strings determine its coordinates |
| Decimal.DecimalRoundTrip | tests/src/lib.rs:27 | printing a natural number in base 10 and parsing it back gives the number |
| Decimal.NatToDecimal | src/lib.rs:83-105 | `to_string` of a field element: all digits, with a leading 0 only for the number 0 |
| CStrings.CStr | crates/src/lib.rs:146-157 | the C string of a buffer: a prefix without NUL, followed by a NUL unless it is the whole buffer |
| CStrings.ReadCString | crates/src/lib.rs:152-157 | `CStr::from_ptr` on a buffer that holds a NUL returns exactly the bytes before the first NUL |
| CStrings.CStrOfText | crates/src/lib.rs:152-157 | text without NUL followed by a NUL is read back whole |
| RapidsnarkFfi.Groth16ProverZkeyFileWrapper | crates/src/lib.rs:115-163 | allocates zero-filled buffers of capacity 4 MiB, 4 MiB and 256; makes exactly one native call, passing those capacities as the sizes, 256 as the error capacity and the witness length; returns `ProveOutcome` of the reply |
| RapidsnarkFfi.Groth16VerifyWrapper | crates/src/lib.rs:166-192 | passes the three texts NUL-terminated and makes exactly one native call with a 256-byte error buffer; returns `VerifyOutcome` of the reply |
| RapidsnarkFfi.Rapidsnark.Groth16ProverZkeyFile | crates/src/lib.rs:38-48 | the native prover writes its bytes at the start of each buffer, at most its capacity; it reports status and sizes and logs its arguments |
| RapidsnarkFfi.Rapidsnark.Groth16Verify | crates/src/lib.rs:50-56 | the native verifier writes its error bytes into the buffer and reports its status; it logs its arguments |
| RapidsnarkFfi.WriteBytes | crates/src/lib.rs:134-144 | a native write replaces the first min(len, capacity) bytes of a buffer and leaves the rest |
| RapidsnarkFfi.Fill | crates/src/lib.rs:134-144 | the written buffer keeps its length; byte i is the written byte i, or the old byte past the written length |
| RapidsnarkFfi.CStringNew | crates/src/lib.rs:167-169 | `CString::new` succeeds exactly when the text has no NUL; the result is the text plus a NUL, which reads back as the text |
| RapidsnarkFfi.ProveFailsIffNonzero | crates/src/lib.rs:145-161 | the prove wrapper fails exactly when the status is non-zero; the error then starts with "Proof generation failed: " |
| RapidsnarkFfi.ProveIgnoresSizes | crates/src/lib.rs:139-161 | the sizes the native side reports never change the result |
| RapidsnarkFfi.EmptyProveError | crates/src/lib.rs:145-150 | non-zero status with nothing written gives exactly "Proof generation failed: " |
| RapidsnarkFfi.ProveSuccess | crates/src/lib.rs:151-161 | status 0 with NUL-free outputs shorter than capacity returns the proof and public signals exactly as written |
| RapidsnarkFfi.ReadBackShort | crates/src/lib.rs:146-157 | text free of NUL and shorter than the zero-filled buffer is read back whole |
| RapidsnarkFfi.ReadBackPrefix | crates/src/lib.rs:146-157 | the text read back is the written bytes up to their first NUL, and holds no NUL |
| RapidsnarkFfi.ReadBackBounded | crates/src/lib.rs:146-157 | the text read back is no longer than the buffer and no longer than what was written |
| RapidsnarkFfi.VerifyStatus | crates/src/lib.rs:181-190 | status 0 is `Ok(true)`; status 2 is `Err("Proof verification failed: " + message)`; every other status, 1 included, is `Ok(false)`, in both directions |
| Api.GenerateProof | src/lib.rs:127-179 | a zkey path with a NUL gives the CString error and no native call; a null native result gives "Proof generation failed" after exactly one prove call, with nothing freed; otherwise it returns the JSON envelope of both strings, after one prove call, one read of both strings and then one free, in that order; on the NUL-path error the native result's liveness is unchanged |
| Api.ProverApi.ReadProofResult | src/lib.rs:166-173 | both strings are copied from a live, NUL-terminated result, exactly as `CStr` reads them, and the read is logged |
| Api.ProverApi.FreeProofResult | src/lib.rs:174 | a live result is freed, logged and no longer live |
| Api.ProverApi.Groth16ApiProve | src/lib.rs:159-160 | logs exactly the arguments it receives and returns the scripted result; `GenerateProof` fixes those arguments as the NUL-terminated path, the raw witness and its length mod 2^32 |
| Api.RawWitness | src/lib.rs:145-153 | the raw buffer is exactly 32 bytes per witness value, with no header |
| Api.Chunk | src/lib.rs:147-152 | each value's chunk is exactly 32 bytes |
| Api.RawChunkAt | src/lib.rs:147-152 | chunk i is the 32-byte LE encoding of value i and decodes to it mod 2^256 |
| Api.RawIsWtnsData | src/lib.rs:145-153 | the raw buffer equals section 2's payload (`Slots`), without section 2's 12-byte id and length, so a `wtns` file is the header followed by the raw buffer |
| Api.RawWitnessDecodes | src/lib.rs:145-153 | for values in [0, q) the raw buffer decodes back to the witness, in order |
| Api.ProofJsonShape | src/lib.rs:175-177 | the result is exactly `{ "proof": ` + proof + `,"signals": ` + signals + `}`, each piece at its offset |
| Api.ProofJsonInjective | src/lib.rs:175-177 | given the proof's length, the envelope determines the proof and the signals |
| VerificationKeys.ToVerificationKey | src/lib.rs:78-107 | protocol "groth16", curve "bn128" and nPublic 0 for every key; alpha is [x, y, "1"]; beta, gamma and delta are [[x.c0, x.c1], [y.c0, y.c1], ["1", "0"]]; IC has one [x, y, "1"] per `gamma_abc_g1` point, in order |
| VerificationKeys.G1Json | src/lib.rs:82-86 | a G1 entry has three strings, the last "1" |
| VerificationKeys.G2Json | src/lib.rs:87-101 | a G2 entry is two pairs followed by ["1", "0"] |
| VerificationKeys.RecoverOfProjection | src/lib.rs:78-107 | the projected record reads back as the key it came from, so no coordinate is lost or reordered |
| VerificationKeys.ProjectionInjective | src/lib.rs:78-107 | distinct keys project to distinct records |
| VerificationKeys.G1RoundTrip | src/lib.rs:82-86 | a G1 entry reads back as its point |
| VerificationKeys.G2RoundTrip | src/lib.rs:87-101 | a G2 entry reads back as its point |
| VerificationKeys.IcRoundTrip | src/lib.rs:102-106 | the IC list reads back as the `gamma_abc_g1` points, in order |
| TestHelpers.BytesToBits | tests/src/lib.rs:12-21 | the nested loops produce exactly `BitsOf(bytes)`: 8 bits per byte, byte order kept |
| TestHelpers.BitsOf | tests/src/lib.rs:12-21 | exactly 8 × (input length) bits |
| TestHelpers.BitAt | tests/src/lib.rs:14-18 | bit 8·i+j is `(bytes[i] >> j) & 1 == 1` |
| TestHelpers.BitsRoundTrip | tests/src/lib.rs:14-18 | regrouping the bits 8 at a time, LSB first, gives back the bytes |
| TestHelpers.ByteOfBits | tests/src/lib.rs:15-18 | the eight bits of a byte, LSB first, reassemble to the byte |
| TestHelpers.FromLowBits | tests/src/lib.rs:15-18 | the low k shifted-and-masked bits of b reassemble to b mod 2^k |
| TestHelpers.BytesToCircuitInputs | tests/src/lib.rs:23-32 | the result is exactly `CircuitInputsOf(input)` |
| TestHelpers.CircuitInputsShape | tests/src/lib.rs:23-32 | exactly one key, "in", with 8·n strings; string 8·i+j is "1" if bit j of byte i is set and "0" otherwise |
| TestHelpers.CircuitInputsParse | tests/src/lib.rs:23-32 | these inputs always parse; each becomes 1 or 0 according to its bit |
| TestHelpers.ComputeWitness | tests/src/lib.rs:34-54 | returns `Ok` of the `wtns` file of the witness function applied to the inputs parsed in base 10 |

## Left out

- build.rs and crates/build.rs are left out: they are download, link and copy steps at build time, with no run-time logic.
- The native functions (`groth16_prover_zkey_file`, `groth16_verify`, `groth16_api_prove`, `groth16_api_verify`, `free_proof_result`) are not modelled as Groth16 mathematics. They are classes whose outputs are unconstrained replies.
- `verify_proof` is modelled only as its key projection. Reading the zkey (`ZkeyHeaderReader`, `read_proving_key`, file I/O), the `serde_json` serialisation and parsing of the key and the proof, and the native verify call are library code or I/O.
- The key's points are taken as input; ark's field `Display` is taken to be canonical base 10.
- `to_string_lossy` is taken as the identity on bytes. Replacing invalid UTF-8 is library behaviour and is not modelled.
- Memory hazards are stated as preconditions, not modelled as behaviour:
  - `CStr::from_ptr` on a buffer without a NUL overruns it (`ProveReplyReadable`, `VerifyReplyReadable`, `Readable`).
  - `CString::new(..).unwrap()` panics on an interior NUL (`Groth16VerifyWrapper`).
  - A freed or foreign proof result must not be freed again (`FreeProofResult`).
- The zkey path in `groth16_prover_zkey_file_wrapper` is passed from a `String` with no NUL terminator. The model logs the path bytes as given; whatever the native side reads past them is not modelled.
- The `CString::into_raw` leak in `verify_proof` is not modelled: it is memory management inside the left-out verify path.
- Panics are modelled as preconditions:
  - `BigInt::from_str(..).unwrap()` on non-decimal text (`AllParse`);
  - `to_biguint().unwrap()` on a negative witness value (`NonNegative`).
- The generated witness functions (`rust_witness::witness!`) and the end-to-end test bodies, which need zkey and vkey files, are left out. The witness function is an arbitrary function parameter.
- The copies of `bytes_to_bits` and `bytes_to_circuit_inputs` in src/lib.rs:192-212 are identical to those in tests/src/lib.rs and are not modelled separately.
- Wtns.DataSectionFields: the encoder writes the section-2 length as `32n mod 2^64`, which is what the wrapping u64 multiply gives. A debug build would panic instead of wrapping. The fact that the declared length equals the payload's is stated only for fewer than 2^59 values.
- Wtns.DecodeOfEncode: the round trip is stated for fewer than 2^32 values, because the count field is `len as u32` and wraps beyond that. The encoder itself is modelled with the wrap.
- The native status codes are modelled as unbounded integers, not `i32`.
