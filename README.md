# z3_oof_patcher, modelled in Dafny

The patcher rewrites a Japanese v1.0 "A Link to the Past" ROM image so that
the "oof" sound effect plays a custom BRR sample. The model covers the work
the patcher does on the inputs once they have been read:

- `GetRomFile` checks that the ROM has been expanded to 2 MiB (2097152 bytes)
  and that the 48 bytes at 0xFFB0 are the header of the expected release.
- `GetSampleFile` checks that the sample has at most 0xA71 bytes.
- `GetPatches` builds the ordered list of patches. There are six fixed
  patches, then a 58-byte hook at 0x128000. The sample length is written into
  the hook in hexadecimal with `"X4"`, and its two byte pairs are swapped so
  that the value sits little-endian. Last comes the sample at 0x12803A,
  followed by the sentinel EB EB.
- Every patch payload is a hex string that the `Patch` constructor decodes
  (`ParseByteString`). A string that is not hex makes construction fail.
- `ApplyPatch` copies each payload into the ROM buffer byte by byte, in list
  order.

Modules, one per file:

- `Errors` (errors.dfy): the patcher's failures and the `Result` and
  `Outcome` wrappers.
- `Hex` (hex.dfy): bytes, hex decoding and encoding, and the `"X4"` format.
- `Patches` (patches.dfy): the `Patch` record and its constructor. Also the
  meaning of writing a list of patches into an image, as functions on byte
  sequences (`Write`, `ApplyAll`), with their laws.
- `Rom` (rom.dfy): the ROM check, an imperative loop over an `array`.
- `Sample` (sample.dfy): the sample check.
- `Catalog` (catalog.dfy): `GetPatches`. The six fixed payloads and the
  fixed parts of the hook are given as byte tables. The two templated
  payloads go through hex strings as in the source: the hook, with the
  `"X4"` length field spliced between its re-encoded fixed parts, and the
  sample with `"EBEB"` appended. `DecodedPatches` is the same list with
  every payload given as bytes. The module also proves the catalog's shape,
  the length field, disjointness and bounds.
- `Patcher` (patcher.dfy):
  - `ApplyPatch`, nested loops writing into an `array<byte>` in place.
  - `PatchedImage`, what the patched image holds, assembled from
    `PatchedContents`, `PatchedSample`, `PatchedLengthField` and
    `PatchedKeepsHeader`.
  - `Run`, the order of the two checks and the write as in `Main`.

`ApplyPatch` is proved against `ApplyAll(old(rom[..]), DecodedPatches(sample))`.
The contract of `GetPatches` states that this list is what it builds from
its hex strings. The laws of `ApplyAll` and the catalog lemmas then give the
byte-exact content of the result.

The message for an oversized sample says 2672 bytes, but the code rejects
only lengths above 0xA71 = 2673. The model follows the code:
`CheckSample` accepts 2673 bytes. Message texts are not modelled.

## Model

| member | source | states |
|---|---|---|
| Hex.DecodeHex | z3_oof_patcher/Program.cs:250 | decoding an even-length string of hex digits yields half as many bytes as it has characters |
| Hex.DecodeHexAt | z3_oof_patcher/Program.cs:250 | byte k of the decoded string is the value of characters 2k (high nibble) and 2k+1 (low nibble) |
| Hex.ParseByteString | z3_oof_patcher/Program.cs:246-257 | succeeds exactly when the string has even length and only hex digits (either case); the result has half the length and holds each pair's value; otherwise fails with the invalid-hex-string error carrying the string |
| Hex.ToHexString | z3_oof_patcher/Program.cs:229 | the encoding has two characters per byte and is itself a valid hex string |
| Hex.HexConcat | z3_oof_patcher/Program.cs:208-209 | concatenating two hex strings gives a hex string that decodes to the concatenation of their decodings |
| Hex.DecodeToHex | z3_oof_patcher/Program.cs:229 | decoding the hex encoding of any byte sequence gives that sequence back, and parsing it never fails |
| Hex.ToHexDecode | z3_oof_patcher/Program.cs:229 | encoding the decoding of a hex string gives the string back with its letters in upper case |
| Hex.DigitRoundTrip | z3_oof_patcher/Program.cs:229 | the upper-case digit of a digit's value is that digit in upper case |
| Hex.FormatHex | z3_oof_patcher/Program.cs:173 | the formatted number has at least the requested number of digits and at least one, all upper-case hex digits |
| Hex.FormatHexValue | z3_oof_patcher/Program.cs:173 | the formatted digits, read back as a hex numeral, give the number |
| Hex.FormatHexWidth | z3_oof_patcher/Program.cs:173 | a number below 16^w is written with exactly w digits when w digits are requested |
| Hex.FormatX4Digits | z3_oof_patcher/Program.cs:173 | `"X4"` of a value below 0x10000 is its four nibbles, most significant first |
| Patches.NewPatch | z3_oof_patcher/Program.cs:240-244 | the constructor succeeds exactly for a hex string, keeps the offset and holds the decoded bytes; otherwise fails with the invalid-hex-string error |
| Patches.Write | z3_oof_patcher/Program.cs:159-163 | writing one payload keeps the image length |
| Patches.WriteAt | z3_oof_patcher/Program.cs:159-163 | after one payload is written, a byte in its range holds the payload byte and every other byte is unchanged |
| Patches.ApplyAll | z3_oof_patcher/Program.cs:156-164 | writing the patches in order keeps the image length |
| Patches.ApplyAllOutside | z3_oof_patcher/Program.cs:156-164 | a byte that no patch covers keeps its value |
| Patches.ApplyAllLastWriter | z3_oof_patcher/Program.cs:156-164 | a byte holds the payload of the last patch that covers it |
| Patches.ApplyAllDisjoint | z3_oof_patcher/Program.cs:156-164 | with pairwise disjoint patches, each patch's range holds exactly its payload |
| Patches.ApplyAllChanges | z3_oof_patcher/Program.cs:156-164 | any byte that changes is covered by some patch |
| Patches.ApplyAllPayload | z3_oof_patcher/Program.cs:156-164 | with pairwise disjoint patches, the whole range of each patch is its payload |
| Patches.LastCover | z3_oof_patcher/Program.cs:156-164 | a byte that some patch covers has a last patch covering it, with no later patch covering it |
| Patches.ApplyAllIdempotent | z3_oof_patcher/Program.cs:156-164 | writing any list of patches a second time leaves the image as it is |
| Rom.MatchesAt | z3_oof_patcher/Program.cs:115-121 | the byte-by-byte comparison loop returns true exactly when the bytes from the offset on equal the expected sequence |
| Rom.CheckRom | z3_oof_patcher/Program.cs:109-121 | passes exactly for an image of at least 2097152 bytes whose 48 bytes at 0xFFB0 are the expected header; a shorter image fails with the not-expanded error, and a long enough one with a wrong header fails with the header-mismatch error |
| Rom.HeaderByteChangeRejected | z3_oof_patcher/Program.cs:114-121 | changing any one of the 48 header bytes of an accepted image makes it rejected |
| Rom.HeaderOnlyMatters | z3_oof_patcher/Program.cs:110-121 | an image of at least 2097152 bytes that agrees with an accepted image on the header bytes is accepted |
| Sample.CheckSample | z3_oof_patcher/Program.cs:145-149 | accepts exactly the samples of at most 0xA71 bytes and returns them unchanged; longer ones fail with the sample-too-large error |
| Catalog.LengthField | z3_oof_patcher/Program.cs:173-174 | the swapped `"X4"` field is four hex digits |
| Catalog.LengthFieldLittleEndian | z3_oof_patcher/Program.cs:173-174 | for a length up to 0xFFFF the field decodes to the low byte and then the high byte of the length |
| Catalog.SentinelDecodes | z3_oof_patcher/Program.cs:229 | the sentinel string decodes to EB EB |
| Catalog.HookDecodes | z3_oof_patcher/Program.cs:208-209 | the hook string is valid hex for every length and decodes to 58 bytes: the fixed head, the decoded length field and the fixed tail |
| Catalog.SamplePayloadDecodes | z3_oof_patcher/Program.cs:229 | the sample's hex encoding followed by "EBEB" is valid hex and decodes to the sample followed by EB EB |
| Catalog.HookBytes | z3_oof_patcher/Program.cs:208 | the hook payload has 58 bytes whatever the sample length |
| Catalog.HookHex | z3_oof_patcher/Program.cs:208 | the interpolated hook string is a valid hex string of 116 characters for every length |
| Catalog.GetPatches | z3_oof_patcher/Program.cs:169-232 | building the catalog from its hex strings never fails and yields the decoded catalog |
| Catalog.CatalogTail | z3_oof_patcher/Program.cs:208-229 | the catalog has eight entries; the seventh is the hook at 0x128000 and the eighth is the sample followed by EB EB at 0x12803A |
| Catalog.CatalogShape | z3_oof_patcher/Program.cs:180-229 | eight patches in this order at 0x8CF, 0xC806C, 0xCFB18, 0xD1BF5, 0xD1BF8, 0xD1C55, 0x128000, 0x12803A, with payloads of 4, 4, 2, 1, 1, 9, 58 and sample length + 2 bytes |
| Catalog.HookLengthField | z3_oof_patcher/Program.cs:173-174 | for a sample of up to 0xFFFF bytes the hook is the fixed head, the length's low byte, its high byte and the fixed tail; bytes 19 and 20 are len % 256 and len / 256 |
| Catalog.SortedDisjoint | z3_oof_patcher/Program.cs:180-229 | patches each ending before the next begins are pairwise ordered and do not overlap |
| Catalog.CatalogDisjoint | z3_oof_patcher/Program.cs:180-229 | the patch ranges are pairwise disjoint and in increasing order, and the hook ends exactly where the sample patch begins |
| Catalog.CatalogFits | z3_oof_patcher/Program.cs:156-164 | for a ROM of at least 2097152 bytes and a sample of at most 0xA71 bytes, every patch lies inside the ROM; the last one ends by 0x12803A + 0xA71 + 2, which is inside 2 MiB |
| Catalog.CatalogAvoidsHeader | z3_oof_patcher/Program.cs:114-121 | no patch writes any of the header bytes at 0xFFB0..0xFFDF |
| Patcher.ApplyPatch | z3_oof_patcher/Program.cs:152-164 | building the catalog succeeds, and after the in-place loops the buffer is the old image with the decoded patches written in order |
| Patcher.WritePatch | z3_oof_patcher/Program.cs:158-163 | after the inner loop the buffer is the old image with the one payload written at its offset |
| Patcher.PatchedContents | z3_oof_patcher/Program.cs:156-164 | for a ROM of at least 2097152 bytes and a checked sample, each patch's range holds its payload and every uncovered byte is unchanged |
| Patcher.SentinelTerminated | z3_oof_patcher/Program.cs:229 | a range holding a payload followed by EB EB holds the payload at its start and the two sentinel bytes after it |
| Patcher.PatchedSample | z3_oof_patcher/Program.cs:229 | the patched image holds the sample at 0x12803A followed by EB EB |
| Patcher.PatchedLengthField | z3_oof_patcher/Program.cs:173-174 | the patched image holds the sample length's low byte at 0x128013 and its high byte at 0x128014 |
| Patcher.PatchedKeepsHeader | z3_oof_patcher/Program.cs:114-121 | the patched image of an accepted ROM passes the ROM check again |
| Patcher.PatchedImage | z3_oof_patcher/Program.cs:152-164 | for a valid ROM and a sample of at most 0xA71 bytes the patched image keeps its length and passes the ROM check again. It holds the sample at 0x12803A followed by EB EB, the length little-endian at 0x128013 and each patch's payload in its range. Every uncovered byte is unchanged, and patching again changes nothing |
| Patcher.Run | z3_oof_patcher/Program.cs:52-58 | the ROM is checked before the sample. Both errors are reported as the checks define them, and the buffer is left alone on any failure. On success it holds the patched image, which still passes the ROM check |

## Left out

- Command-line parsing in `Main`, the `default.brr` fallback and the `patched_` output name are not modelled. Neither is the printing of the exception chain. They are console plumbing; `Run` starts from the two byte sequences.
- `FindRomFile` is not modelled. It scans the current directory for a `.sfc` file, which is file-system I/O.
- Reading the two files in `GetRomFile` and `GetSampleFile` is not modelled, including the filtering of I/O exceptions. The checks start from the bytes already read.
- Writing the output file and the success message in `ApplyPatch` are not modelled. They are output I/O.
- The archipelago variant is not modelled. It is commented out in the source, so `GetPatches` takes only the sample.
- The library routines `Convert.FromHexString` and `Convert.ToHexString` are replaced by `DecodeHex` and `ToHexString`. These follow the library's documented behaviour: two digits per byte, either case accepted, upper case written.
- The fixed payloads and the expected header are given as the bytes their hex strings spell. The model does not re-derive the decoding of those literals. The two templated payloads (the hook with its length field, and the sample with its sentinel) do go through the hex strings.
- Patcher.ApplyPatch: a write outside the buffer, which would raise `IndexOutOfRangeException` part way through, is excluded by a precondition instead of modelled. `CatalogFits` proves that a checked ROM and sample always meet it.
- Message texts are not modelled; only the kind of each error is.
- The meaning of the payload bytes for the SNES sound engine is not modelled. They are data to be reproduced exactly.
