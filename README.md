# A verified model of the automerge binary codec

This project models the binary codec of automerge's JavaScript backend
(`backend/encoding`): the `Encoder` that appends values to a growable byte
buffer and the `Decoder` that reads them back with a read cursor. The codec
writes three kinds of values:

- 32-bit unsigned integers as unsigned LEB128 (`appendUint32` / `readUint32`);
- 32-bit signed integers as signed LEB128 (`appendInt32` / `readInt32`);
- strings as an unsigned LEB128 byte count followed by the UTF-8 bytes
  (`appendPrefixedString` / `readPrefixedString`).

LEB128 is the variable-length integer encoding of section 7.6 of the DWARF 4
standard ("Variable Length Data"): 7-bit groups, low group first, bit 7 set on
every byte but the last. UTF-8 follows section 3 of RFC 3629.

The implementation file `backend/encoding.js` is not part of this model. The
behaviour modelled is the one the codec's test suite,
`test/encoding_test.js`, fixes byte for byte: exact encodings of boundary
values, round trips, and the three error kinds "out of range", "not an
integer" and "incomplete number".

Layout:

- `base.dfy` (module `Base`): bytes, the closed set of error kinds, the
  numeric argument of an append (`Int(i)` or `NonInteger`), `Result`.
- `leb128.dfy` (module `Leb128`): reference functions for both LEB128
  variants and for the 32-bit readers' state machine. Proved here:
  - what the encodings mean, and that they are the shortest;
  - the exact byte lengths at each group boundary;
  - exactly which byte sequences the readers accept and reject, and with which error;
  - the round trips at any position in a buffer.
- `utf8.dfy` (module `Utf8`): a UTF-8 encoder and a validating decoder. Proved
  here: decoding undoes encoding, and the decoder accepts only the encoder's
  output.
- `encoding.dfy` (module `Encoding`):
  - the prefixed string format and its round trip;
  - the `checkEncoded` comparison;
  - the `Encoder` class: an `array` plus a write offset, its append loops
    proved to append exactly the reference encodings;
  - the `Decoder` class: a fixed buffer plus a `position` cursor, its reads
    proved to agree with the reference decoders.
- `vectors.dfy` (module `EncodingVectors`): the test suite's concrete cases,
  and its encode-then-decode scenarios on the two classes.

## Model

| member | source | states |
|---|---|---|
| `Leb128.EncodeUnsignedGroups` | test/encoding_test.js:15-33 | The unsigned encoding has bit 7 set on every byte but the last, and its 7-bit groups, low first, add up to the value. |
| `Leb128.UnsignedShortest` | test/encoding_test.js:19-30 | No complete group sequence standing for the same value is shorter than the unsigned encoding. |
| `Leb128.UnsignedLength` | test/encoding_test.js:19-30 | The unsigned encoding has at most n bytes exactly when the value is below 128^n (both directions). |
| `Leb128.UnsignedLengthSteps` | test/encoding_test.js:19-33 | A 32-bit unsigned value takes 1 to 5 bytes, stepping exactly at 0x80, 0x4000, 0x200000 and 0x10000000. |
| `Leb128.EncodeSignedGroups` | test/encoding_test.js:57-82 | The signed encoding is a complete group sequence whose groups, sign-extended from bit 6 of the last one, equal the value. |
| `Leb128.SignedShortest` | test/encoding_test.js:62-77 | No complete group sequence with the same signed value is shorter than the signed encoding. |
| `Leb128.SignedLength` | test/encoding_test.js:62-77 | The signed encoding has at most n bytes exactly when the value lies in [-64*128^(n-1), 64*128^(n-1)) (both directions). |
| `Leb128.SignedLengthSteps` | test/encoding_test.js:58-81 | A 32-bit signed value takes 1 to 5 bytes, stepping exactly at ±2^6, ±2^13, ±2^20 and ±2^27. |
| `Leb128.GroupCount` | test/encoding_test.js:127-135 | The readers' state machine: on success it consumes more bytes than it started from, at most 5, all inside the buffer. |
| `Leb128.GroupCountExact` | test/encoding_test.js:127-135 | Exact acceptance, each an if-and-only-if. A read succeeds with n bytes iff they form a complete group sequence of at most 5 bytes whose fifth byte fits. It fails OutOfRange iff four continued bytes are followed by a fifth that does not fit (continued, or unsigned ≥ 0x10, or signed outside 0x00-0x07 and 0x78-0x7f). It fails IncompleteNumber iff the buffer ends first. |
| `Leb128.DecodeUnsigned` | test/encoding_test.js:36-55 | An unsigned read yields a value below 2^32 and moves the cursor forward by 1 to 5 bytes, staying inside the buffer. |
| `Leb128.DecodeSigned` | test/encoding_test.js:84-109 | A signed read yields a value in [-2^31, 2^31) and moves the cursor forward by 1 to 5 bytes, staying inside the buffer. |
| `Leb128.UnsignedDecodedFits` | test/encoding_test.js:130 | Every byte sequence the unsigned reader accepts stands for a value below 2^32. |
| `Leb128.SignedDecodedFits` | test/encoding_test.js:131-132 | Every byte sequence the signed reader accepts stands for a value in [-2^31, 2^31). |
| `Leb128.UnsignedFifthFits` | test/encoding_test.js:30-33 | The fifth byte of any 32-bit unsigned encoding is below 0x10, so the reader accepts it. |
| `Leb128.SignedFifthFits` | test/encoding_test.js:75-81 | The fifth byte of any 32-bit signed encoding is 0x00-0x07 or 0x78-0x7f, so the reader accepts it. |
| `Leb128.UnsignedRoundTrip` | test/encoding_test.js:36-55 | For every v in [0, 2^32), reading the unsigned encoding placed anywhere in a buffer gives v back and moves just past the encoding. |
| `Leb128.SignedRoundTrip` | test/encoding_test.js:84-109 | For every v in [-2^31, 2^31), reading the signed encoding placed anywhere in a buffer gives v back and moves just past the encoding. |
| `Leb128.UnsignedDecodedNotShorter` | test/encoding_test.js:36-55 | Whatever the unsigned reader consumes, padded forms included, is never shorter than the encoder's output for the value read. |
| `Leb128.SignedDecodedNotShorter` | test/encoding_test.js:84-109 | Whatever the signed reader consumes is never shorter than the encoder's output for the value read. |
| `Utf8.EncodeChar` | test/encoding_test.js:140-141 | One character takes 1 to 4 UTF-8 bytes. |
| `Utf8.DecodeChar` | test/encoding_test.js:147-148 | A decoded character consumes 1 to 4 bytes, all present. |
| `Utf8.Encode` | test/encoding_test.js:140-141 | A text of k characters takes between k and 4k bytes. |
| `Utf8.Decode` | test/encoding_test.js:144-149 | Decoding yields at most one character per byte. |
| `Utf8.CharRoundTrip` | test/encoding_test.js:147-148 | Decoding a character's bytes, whatever follows them, gives the character and its byte length. |
| `Utf8.CharCanonical` | test/encoding_test.js:147-148 | The bytes of a decoded character are exactly that character's encoding: no overlong form is accepted. |
| `Utf8.RoundTrip` | test/encoding_test.js:144-149 | Every text survives UTF-8 encoding and decoding unchanged. |
| `Utf8.Canonical` | test/encoding_test.js:144-149 | Any byte sequence the decoder accepts re-encodes to the same bytes. |
| `Encoding.EncodePrefixedString` | test/encoding_test.js:137-142 | A prefixed string can be written exactly when its UTF-8 form is shorter than 2^32 bytes; otherwise the error is OutOfRange. |
| `Encoding.DecodePrefixedString` | test/encoding_test.js:144-149 | A prefixed-string read moves the cursor forward and stays inside the buffer. |
| `Encoding.PrefixedStringRoundTrip` | test/encoding_test.js:144-149 | Reading a prefixed string placed anywhere in a buffer gives the text back and moves just past its bytes. |
| `Encoding.PrefixCountsBytes` | test/encoding_test.js:140 | The prefix reads back as the number of bytes that follow it, between one and four per character: it counts bytes, not characters. |
| `Encoding.CheckEncoded` | test/encoding_test.js:4-11 | The length-then-bytes comparison answers true exactly when the two byte sequences are equal. |
| `Encoding.Encoder.constructor` | test/encoding_test.js:16 | A new encoder exposes no bytes. |
| `Encoding.Encoder.Buffer` | test/encoding_test.js:5 | `.buffer` is exactly the bytes written so far, without the spare capacity. |
| `Encoding.Encoder.Reserve` | test/encoding_test.js:16 | Making room keeps the written bytes and leaves at least the requested spare capacity. |
| `Encoding.Encoder.AppendByte` | test/encoding_test.js:16 | The written bytes grow by exactly the one byte. |
| `Encoding.Encoder.AppendRawBytes` | test/encoding_test.js:137-142 | The written bytes grow by exactly the given bytes, in order. |
| `Encoding.Encoder.AppendUint32` | test/encoding_test.js:111-118 | NotAnInteger for a non-integral argument and OutOfRange outside [0, 2^32), with the buffer unchanged. Otherwise it returns the encoder itself and appends exactly the unsigned encoding. |
| `Encoding.Encoder.AppendUnsigned` | test/encoding_test.js:15-33 | The group loop appends exactly the unsigned encoding of the value. |
| `Encoding.Encoder.AppendInt32` | test/encoding_test.js:119-124 | NotAnInteger for a non-integral argument and OutOfRange outside [-2^31, 2^31), with the buffer unchanged. Otherwise it returns the encoder itself and appends exactly the signed encoding. |
| `Encoding.Encoder.AppendSigned` | test/encoding_test.js:57-82 | The sign-extension loop appends exactly the signed encoding of the value. |
| `Encoding.Encoder.AppendPrefixedString` | test/encoding_test.js:137-142 | Appends exactly the prefixed string and returns the encoder; if the UTF-8 form has 2^32 bytes or more it fails OutOfRange with the buffer unchanged. |
| `Encoding.Decoder.constructor` | test/encoding_test.js:37 | A new decoder reads the given bytes from position 0. |
| `Encoding.Decoder.ReadGroups` | test/encoding_test.js:127-135 | The accumulating loop agrees with the state machine. It yields the unsigned value of exactly the bytes the machine accepts, or the machine's error. |
| `Encoding.Decoder.ReadUint32` | test/encoding_test.js:128-133 | Agrees with the unsigned reference reader: on success the value, with the cursor just past it; on failure the error, with the cursor unchanged. |
| `Encoding.Decoder.ReadInt32` | test/encoding_test.js:129-134 | Agrees with the signed reference reader, sign-extending from bit 6 of the last group; the cursor moves only on success. |
| `Encoding.Decoder.ReadPrefixedString` | test/encoding_test.js:144-149 | Agrees with the reference prefixed-string reader; the cursor moves only on success. |
| `EncodingVectors.UnsignedVectorsShort` | test/encoding_test.js:16-23 | Exact bytes of the one- and two-byte unsigned cases. |
| `EncodingVectors.UnsignedVectorsMiddle` | test/encoding_test.js:24-29 | Exact bytes of the three- and four-byte unsigned cases. |
| `EncodingVectors.UnsignedVectorFirstFiveGroup` | test/encoding_test.js:30 | 0x10000000 is [0x80, 0x80, 0x80, 0x80, 0x01]. |
| `EncodingVectors.UnsignedVectorLargestSigned` | test/encoding_test.js:31 | 0x7fffffff is [0xff, 0xff, 0xff, 0xff, 0x07]. |
| `EncodingVectors.UnsignedVectorTopBitSet` | test/encoding_test.js:32 | 0x87654321 is [0xa1, 0x86, 0x95, 0xbb, 0x08]. |
| `EncodingVectors.UnsignedVectorLargest` | test/encoding_test.js:33 | 0xffffffff is [0xff, 0xff, 0xff, 0xff, 0x0f]. |
| `EncodingVectors.SignedVectorsShort` | test/encoding_test.js:58-69 | Exact bytes of the one- and two-byte signed cases, and of the first three-byte values. |
| `EncodingVectors.SignedVectorsThreeGroups` | test/encoding_test.js:70-72 | 0xfffff and -0x100000 take three bytes. |
| `EncodingVectors.SignedVectorsFourGroupsPositive` | test/encoding_test.js:71-74 | 0x100000 and 0x7ffffff take four bytes. |
| `EncodingVectors.SignedVectorsFourGroupsNegative` | test/encoding_test.js:73-76 | -0x100001 and -0x8000000 take four bytes. |
| `EncodingVectors.SignedVectorFirstFiveGroupPositive` | test/encoding_test.js:75 | 0x8000000 is [0x80, 0x80, 0x80, 0xc0, 0x00]. |
| `EncodingVectors.SignedVectorFirstFiveGroupNegative` | test/encoding_test.js:77 | -0x8000001 is [0xff, 0xff, 0xff, 0xbf, 0x7f]. |
| `EncodingVectors.SignedVectorPositive` | test/encoding_test.js:78 | 0x76543210 is [0x90, 0xe4, 0xd0, 0xb2, 0x07]. |
| `EncodingVectors.SignedVectorNegative` | test/encoding_test.js:79 | -0x76543210 is [0xf0, 0x9b, 0xaf, 0xcd, 0x78]. |
| `EncodingVectors.SignedVectorLargest` | test/encoding_test.js:80 | 0x7fffffff is [0xff, 0xff, 0xff, 0xff, 0x07]. |
| `EncodingVectors.SignedVectorSmallest` | test/encoding_test.js:81 | -0x80000000 is [0x80, 0x80, 0x80, 0x80, 0x78]. |
| `EncodingVectors.DecoderRejectionVectors` | test/encoding_test.js:127-135 | The seven malformed buffers are rejected as the test expects: five with OutOfRange and two with IncompleteNumber. |
| `EncodingVectors.AsciiStringVectors` | test/encoding_test.js:138-139 | '' is [0] and 'a' is [1, 0x61]. |
| `EncodingVectors.AccentedUtf8Bytes` | test/encoding_test.js:140 | The UTF-8 bytes of 'Oh là là' are ten bytes, two for each 'à'. |
| `EncodingVectors.AccentedStringVector` | test/encoding_test.js:140 | 'Oh là là' is prefixed with 10, its byte count, not its character count 8. |
| `EncodingVectors.AstralStringVector` | test/encoding_test.js:141 | U+1F604 is [4, 0xf0, 0x9f, 0x98, 0x84]. |
| `EncodingVectors.AppendRejections` | test/encoding_test.js:111-125 | Each of the thirteen rejected arguments, appended to a fresh encoder, gives its error kind. |
| `EncodingVectors.UnsignedObjectRoundTrip` | test/encoding_test.js:36-55 | Creating an encoder, appending v with `appendUint32`, then reading the buffer with a fresh decoder's `readUint32` gives v, for every 32-bit unsigned v. |
| `EncodingVectors.SignedObjectRoundTrip` | test/encoding_test.js:84-109 | Creating an encoder, appending v with `appendInt32`, then reading the buffer with a fresh decoder's `readInt32` gives v, for every 32-bit signed v. |
| `EncodingVectors.StringObjectRoundTrip` | test/encoding_test.js:144-149 | The same for `appendPrefixedString` and `readPrefixedString`, for every text shorter than 2^32 UTF-8 bytes. |

The reference functions `Leb128.EncodeUnsigned`, `Leb128.EncodeSigned`,
`Leb128.UValue` and `Leb128.SValue` only compute. What they mean is stated by
the lemmas about them listed above.

## Left out

- JavaScript `Number` semantics. NaN, the infinities, fractional values and
  `Number.MAX_SAFE_INTEGER` are IEEE doubles. An append's argument is modelled
  as `Int(i)` (any mathematical integer) or `NonInteger`, which keeps the
  NotAnInteger branch without modelling floating point.
- JavaScript strings are UTF-16 and may hold lone surrogates, which the host's
  `TextEncoder` would replace. Text here is a sequence of Unicode scalar values
  (Dafny `char`), so that case cannot arise. `TextEncoder` and `TextDecoder`
  themselves are replaced by the hand-written UTF-8 functions in `Utf8`.
- The test harness (`describe`, `it`, `assert.throws`) and the matching of
  error-message text. Errors are the closed `Error` datatype.
- The capacity-growth policy of the encoder's backing array. The model grows
  to twice the old capacity plus the bytes needed. What it proves is only
  that the written bytes are kept and the exposed buffer is exactly those
  bytes.
- The behaviour of a failed read on the decoder's cursor is not fixed by the
  test suite. The model leaves the cursor where it was.
- `readPrefixedString` on a length that runs past the end of the buffer, or on
  bytes that are not well-formed UTF-8, is not fixed by the test suite. The
  model fails with the error kinds `Truncated` and `MalformedUtf8`.
- The readers accept padded (non-minimal) encodings such as [0x80, 0x00] for 0,
  as the group-accumulating algorithm does. The test suite neither requires
  nor forbids this.
- `Encoding.Decoder.ReadGroups` accumulates each group by adding
  `payload * 128^i`. This equals the bitwise OR of shifted groups used on
  32-bit integers, because the groups occupy disjoint bits. JavaScript's
  32-bit bitwise conversions are not modelled.
- The chaining of append calls is modelled by each append returning
  `Success(this)`. Scenarios that chain several appends in one expression are
  not stated as separate members; the round trips at any position in a buffer
  cover reading values back to back.
