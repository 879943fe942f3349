# pinblock: ISO 9564-1 format 0 PIN blocks in Dafny

This project models the plaintext PIN block codec of the `pinblock` library
(`src/pinblock.c`) and proves properties of the model. The codec follows
ISO 9564-1:2017. A format 0 PIN block is the bytewise XOR of two 8-byte fields:

- the **PIN field**: control nibble 0, the PIN length, one PIN digit per
  nibble, then fill nibbles 0xF (section 9.3.2.2);
- the **PAN field**: at least four zero nibbles, then up to twelve digits:
  the rightmost twelve digits of the primary account number, without its pad
  nibbles and its check digit, right-justified and padded on the left with
  zeros (sections 9.3.2.3 and 9.3.5.3).

The model has five modules:

- `Bytes` (`bytes.dfy`): bytes as `bv8`, nibbles, bytewise XOR, and the
  in-place XOR the library takes from its crypto helpers.
- `PinPacking` (`pin_packing.dfy`): `pinblock_pack_pin` and
  `pinblock_unpack_pin`, as methods on arrays. Their results are tied to the
  functions `PinField` and `PinDigits`.
- `PanPacking` (`pan_packing.dfy`): `pinblock_pack_pan`, as a method whose
  loop mirrors the C loop. The function `PanField` is the field that the
  backward scan produces. The lemma `PanFieldStandard` proves it equal to the
  left-to-right layout of the standard.
- `PinBlock` (`pin_block.dfy`): the public entry points
  `pinblock_encode_iso9564_format0`, `pinblock_decode_iso9564_format0`,
  `pinblock_get_format` and `pinblock_decode`. `GetFormat` is a function that
  models `pinblock_get_format` directly. Each of the three methods is
  specified against a function of its inputs (`Encode0`, `Decode0Outputs` and
  `DecodeOutputs`, which are built on `Decode0`), and the round trip is proved
  on those functions.
- `Vectors` (`vectors.dfy`): the fixtures of `test/pinblock_format0_test.c`,
  proved on the functions and called through the methods on arrays.

C pointers to buffers are nullable arrays (`array?<byte>`). The scalar
out-parameters `size_t* pin_len` and `uint8_t* format` are nullable objects
(`SizeCell?` and `ByteCell?`) with one `value` field. A C return code is an
`int`.

Some of the library's own tests expect behaviour that `src/pinblock.c` does
not have. The model follows the code:

- **Wrong-PAN detection.** `test/pinblock_format0_test.c:143-161` expects
  decoding the test block with a different PAN (`bad_pan`) to fail. The only
  check that could make it fail compares the first two bytes before and after
  the XOR, and it never fails, because the first two bytes of every PAN field
  are zero. `SanityCheckNeverFails` proves that no input gives -3.
  `WrongPanAccepted` proves that the test's wrong PAN decodes successfully, to
  the same PIN.
- **Block sizes.** `test/pinblock_format4_test.c:205-214` expects
  `pinblock_get_format` on a 16-byte block to return 4. The code accepts only
  8-byte blocks and returns -1 for any other length (`GetFormat`).
- **Dispatch.** `test/pinblock_format1_test.c:140-153`,
  `test/pinblock_format2_test.c:104`, `test/pinblock_format3_test.c:248` and
  `test/pinblock_format4_test.c:217` expect `pinblock_decode` to succeed. The
  code decodes only format 0 and returns 5 for every other control field,
  including formats 1 to 3, which `pinblock_get_format` accepts
  (`DecodeOutputs`).

## Model

| member | source | states |
|---|---|---|
| Bytes.XorInPlace | src/pinblock.c:165 | XORs the first `n` bytes of `src` into `dst`, each new byte computed from the old contents; the rest of `dst` is unchanged |
| Bytes.XorBytes | src/pinblock.c:165 | the bytewise XOR of two equal-length buffers has their length; `XorBytesCancel` and `XorZeroPrefix` state what the callers rely on |
| Bytes.XorBytesCancel | src/pinblock.c:217-219 | XOR-ing the same mask twice gives the original buffer back: this is how the decoder recovers the PIN field |
| PinPacking.PinField | src/pinblock.c:29-58 | the PIN field, byte by byte from `PinFieldByte` (control and length byte, digit pairs, fill), is 8 bytes; `PinFieldLayout` states its nibbles |
| PinPacking.PinDigits | src/pinblock.c:60-78 | the `n` nibbles from nibble 2 of the field on: exactly `n` of them, each at most 0xF |
| PinPacking.PackPin | src/pinblock.c:29-58 | after the call the 8-byte buffer is exactly the PIN field for the control nibble, the first `pin_len & 0xF` digits and the fill digit |
| PinPacking.PinFieldLayout | src/pinblock.c:29-58 | nibble 0 is the control field, nibble 1 the masked length, nibble `i+2` the low nibble of digit `i`, and every later nibble is the fill digit, including the trailing nibble of an odd-length PIN |
| PinPacking.UnpackPin | src/pinblock.c:60-78 | writes nibbles 2 to `pin_len+1` of the field into `pin[0..pin_len)`, one per byte, with no range check, and leaves the rest of `pin` unchanged |
| PinPacking.UnpackPackPin | src/pinblock.c:29-78 | unpacking a packed PIN gives the low nibble of every digit, which is the PIN itself when every digit is at most 0xF |
| PanPacking.NonPad | src/pinblock.c:108-111 | the elements of a nibble sequence that are not the pad value 0xF, in order; never longer than the input |
| PanPacking.FieldDigitsOf | src/pinblock.c:92-94 | the account digits that enter the field: at most twelve, each a nibble |
| PanPacking.ScannedDigits | src/pinblock.c:94-111 | the first `k` steps of the backward scan keep at most `k` digits, and none of them is the pad value 0xF |
| PanPacking.ScannedIsNonPad | src/pinblock.c:94-111 | the digits kept after `k` steps of the scan are the non-pad nibbles among the first `k` nibbles, read from the last nibble of the PAN backwards |
| PanPacking.PanField | src/pinblock.c:80-131 | the PAN field is 8 bytes, and its first two bytes are always zero |
| PanPacking.PanFieldStandard | src/pinblock.c:80-131 | the field built by the backward scan equals the layout of the standard: four or more zero nibbles, then the rightmost twelve digits of the PAN without pads and without the check digit, left to right |
| PanPacking.ScanStops | src/pinblock.c:94 | once twelve digits are written, or every nibble has been visited, the written digits are the first twelve of the full scan |
| PanPacking.ScanDone | src/pinblock.c:94-131 | a buffer that holds the right-filled digits when the loop stops is the PAN field |
| PanPacking.NextNibble | src/pinblock.c:98-106 | the digit read at scan index `i`: the low nibble of byte `pan_len-1` when `i` is even, the high nibble when odd; `pan_len` drops after each high nibble |
| PanPacking.PutDigit | src/pinblock.c:122-130 | writing field digit `i` changes exactly one byte: its low nibble when `i` is even, OR-ed into its high nibble when odd |
| PanPacking.PackPan | src/pinblock.c:80-131 | zeroes the field, runs the scan to completion and leaves exactly the PAN field of `pan[0..pan_len)` |
| PinBlock.GetFormat | src/pinblock.c:237-256 | returns a value in 0..3 if and only if the block is 8 bytes long and its control field is at most 3, in which case the value is the control field; otherwise -1 |
| PinBlock.Encode0 | src/pinblock.c:134-170 | succeeds if and only if the PIN and PAN are non-empty and the PIN has 4 to 12 digits; fails with -1 for an empty input and -2 for a bad length; the block is 8 bytes |
| PinBlock.Decode0 | src/pinblock.c:172-234 | succeeds if and only if the block is 8 bytes, the PAN is non-empty, the control field is 0 and the length nibble is 4 to 12; otherwise it fails with the first C check that fails: -1 (empty input), 1 (size), 2 (control field), -2 (length), and never -3; the PIN has as many digits as the length nibble says, each a nibble |
| PinBlock.Decode0Outputs | src/pinblock.c:186-234 | on -1 the PIN buffer and `*pin_len` keep their values; on any other error `*pin_len` is 0 and the buffer is unchanged; on success the digits overwrite the start of the buffer and `*pin_len` is their number |
| PinBlock.DecodeOutputs | src/pinblock.c:268-294 | a block that is not 8 bytes gives 1; any control field other than 0 gives 5 with nothing written, including 1, 2 and 3, which `GetFormat` accepts; format 0 without `other` gives -1 with nothing written; format 0 with `other` gives exactly what the format 0 decoder leaves |
| PinBlock.EncodeFormat0 | src/pinblock.c:134-170 | returns -1 for a null pointer and otherwise the code of `Encode0`; on success the block holds the PIN field XOR the PAN field; on failure the block is unchanged |
| PinBlock.ExtractPinField | src/pinblock.c:217-219 | returns a fresh 8-byte buffer that holds the block XOR the PAN field |
| PinBlock.DecodeFormat0 | src/pinblock.c:172-235 | returns -1 for a null pointer and changes nothing; otherwise the return code, the PIN buffer and `*pin_len` are those of `Decode0Outputs` on the inputs |
| PinBlock.Decode | src/pinblock.c:258-294 | returns -1 for a null pointer or an empty block and changes nothing; otherwise its outputs are those of `DecodeOutputs`, with a null `other` taken as absent, and `*format` becomes the control field exactly when the block is 8 bytes |
| PinBlock.EncodedHeader | src/pinblock.c:157-165 | an encoded block has control field 0, the PIN length as its second nibble, and reads as format 0 |
| PinBlock.Format0RoundTrip | src/pinblock.c:157-229 | for a PIN of 4 to 12 nibbles and any non-empty PAN, encoding succeeds and decoding the block with the same PAN gives the PIN back |
| PinBlock.SanityCheckNeverFails | src/pinblock.c:217-226 | XOR-ing the PAN field leaves the first two bytes of any 8-byte block unchanged, so the decoder never returns -3 |
| Vectors.TestPanField | test/pinblock_format0_test.c:27-30 | the PAN field of PAN 4012345678909 is 00 00 40 12 34 56 78 90 |
| Vectors.BadPanField | test/pinblock_format0_test.c:32-33 | the PAN field of the wrong PAN is 00 00 40 22 34 56 78 90 |
| Vectors.EncodeTestVector | test/pinblock_format0_test.c:53-71 | PIN 1234 with the test PAN encodes to 04 12 74 ED CB A9 87 6F |
| Vectors.DecodeTestVector | test/pinblock_format0_test.c:73-109 | that block decodes with the test PAN to PIN 1234 and reads as format 0 |
| Vectors.WrongPanField | test/pinblock_format0_test.c:143-151 | with the wrong PAN, the recovered PIN field is 04 12 34 CF FF FF FF FF |
| Vectors.WrongPanAccepted | test/pinblock_format0_test.c:143-161 | decoding the test block with the wrong PAN succeeds, with PIN 1234 |
| Vectors.EncodeExample | test/pinblock_format0_test.c:53-71 | calling the encoder method on the test arrays returns 0 and the published block |
| Vectors.DecodeExample | test/pinblock_format0_test.c:111-141 | calling the dispatcher method on the test block and PAN returns 0, format 0 and PIN 1234 |
| Vectors.WrongPanExample | test/pinblock_format0_test.c:143-161 | calling the format 0 decoder method with the wrong PAN returns 0 and a PIN length of 4 |

## Left out

- `crypto_cleanse`: it zeroes the local buffers before they go out of scope. That has no observable effect on the outputs, so it is not modelled.
- Bytes.XorInPlace: stands in for `crypto_xor`, whose source (`crypto_mem.h`) is not part of this model. It is specified as the bytewise XOR the call sites rely on.
- Formats 1 to 4, their random fill, the format 4 PAN field and the test-only format 3 verifier: `src/pinblock.c` does not implement them. The test files for those formats, including the format 1, 2, 3 and 4 tests that expect `pinblock_decode` to succeed, are not modelled. For control fields 1 to 3 the code returns 5.
- Wrong-PAN detection: the format 0 test expects decoding with a different PAN to fail, but the code performs no such check. The model proves the opposite on the test's own data (`WrongPanAccepted`, `WrongPanExample`) and does not model a check the code does not make.
- Buffer sizes and aliasing are stated as preconditions that C leaves to the caller:
  - arrays hold at least `pin_len` or `pan_len` bytes, and the decoders'
    `pinblock_len` and `other_len` are at most the lengths of their arrays;
  - the decoder's PIN buffer holds at least twelve bytes;
  - `pinblock_unpack_pin` is given at most fourteen digits, the most that
    follow the control byte in an 8-byte field (its callers pass 4 to 12);
  - the encoder's output block is 8 bytes and distinct from the PIN and PAN buffers, because C writes the block before it has read them.
- C pointers that overlap partially do not exist in the model. `pin_len` and `format` are separate objects and cannot alias the byte buffers.
- PinBlock.GetFormat: takes the block as a sequence, so the C case of a null pointer with length 8 (which dereferences the null pointer) is not modelled.
- PinPacking.PackPin: requires the masked length `pin_len & 0xF` to be at most 14. At 15 the C loop writes one byte past the 8-byte field. The only caller passes 4 to 12.
- Local variables of the C functions are ghost or ordinary local variables. The loop bodies of `pinblock_pack_pan` and the extraction step of the decoder are split into the helper methods `NextNibble`, `PutDigit` and `ExtractPinField`, which the C code has inline.
- `print_buf`, the test `main` functions and all standard I/O are not modelled.
