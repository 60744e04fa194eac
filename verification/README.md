# Palworld / Unreal Engine `.sav` decoder, modelled in Dafny

This project models how `pal-world-tools-utils` decodes an Unreal Engine
(Palworld) `.sav` file into a `GvasObject`. A file starts with a 12-byte
header of three little-endian Java `int`s: the uncompressed length, the
compressed length and a magic int. Zlib data follows. The top byte of the
magic int picks the save type. `0x31` means single zlib: the body is inflated
once. `0x32` means double zlib: the body is inflated twice, and the first
result must be as long as the declared compressed length. Any other byte
fails. The final payload must be as long as the declared uncompressed length.
The result holds the payload, the save type, and three marker bytes: bits
16-23, 8-15 and 0-7 of the magic int, in that order.

Files (all modules are top-level and import one another):

- `wrappers.dfy` (`Wrappers`): `Option`, standing in for Java `null`.
- `java_int.dfy` (`JavaInt`): Java `byte` and `int` as bounded integers. It also
  holds the `(byte)` narrowing cast and the arithmetic `>>` that the decoder
  applies, and the `& 0xff` masking that `ByteBuffer.getInt` applies to each
  byte when it assembles an int, plus a few arithmetic lemmas.
- `byte_buffer.dfy` (`ByteBuffers`): the little-endian `getInt` of
  `java.nio.ByteBuffer`. It is a class with a cursor that advances, and the
  lemmas about the little-endian encoding live beside it.
- `entity.dfy` (`Entity`): the `SaveType` enum, `getValue`, `values()`,
  `fromValue` (a loop, proved against a first-match lookup) and the
  `GvasObject` record.
- `inflater.dfy` (`Inflaters`): `java.util.zip.Inflater` as the decoder drives
  it. It hands out an abstract inflation result in buffer-sized pieces.
- `save_file_utils.dfy` (`UnrealEngineSaveFileUtils`): the specification
  function `Decode` and its helpers `ReadHeader`, `TypeByte`, `MagicBytes`,
  `InflateOnce` and `Payload`. It also holds the methods `GetHeader`,
  `Decompress` and `DecompressSavToGvas`, each proved equal to the
  specification, and the lemmas about decoding.

The DEFLATE algorithm is not modelled. Every decoding member takes a
function `zlib: seq<JByte> -> Inflation` saying what the library does with
one compressed input. It can decode to some bytes (`Inflated`), reject the
data (`Corrupt`, Java's `DataFormatException`), or stall (`Stalls`). A stall
means `inflate` keeps returning 0 and `finished()` never becomes true, so
`while (!inflater.finished())` never exits. `Decode` reports that case as
`Diverges`. Java exceptions become `Failed(DecodeError)`, with one error per
`throw` site or library exception.

Where the code and its documentation disagree, the model follows the code:

- The class comment says the save type is the byte at offset 12 and the data
  starts at offset 13. The code takes the type from the top byte of the int at
  offsets 8-11 and slices the body from offset 12.
- The header fields are signed Java `int`s, not unsigned 32-bit values. So a
  length field with its top bit set is negative and can never match a length.
- A 12-byte file (empty body) is not claimed to fail cleanly. What happens is
  up to the inflater, and the Java loop may spin forever on it.

## Model

| member | source | states |
|---|---|---|
| `JavaInt.ToByte` | pal-world-tools-utils/src/main/java/kr/nerdlab/palworld/sav/UnrealEngineSaveFileUtils.java:92 | the `(byte)` cast gives the unique byte congruent to its argument modulo 256 |
| `JavaInt.ShiftRight` | pal-world-tools-utils/src/main/java/kr/nerdlab/palworld/sav/UnrealEngineSaveFileUtils.java:72 | `x >> n` on an `int` is the quotient rounded down (sign-propagating) |
| `ByteBuffers.LittleEndianInt` | pal-world-tools-utils/src/main/java/kr/nerdlab/palworld/sav/UnrealEngineSaveFileUtils.java:68-70 | the int `getInt` decodes is the unsigned base-256 number the four bytes spell (least significant first), wrapped into 32-bit two's complement |
| `ByteBuffers.ByteBuffer.Wrap` | pal-world-tools-utils/src/main/java/kr/nerdlab/palworld/sav/UnrealEngineSaveFileUtils.java:67 | a wrapped buffer reads the given bytes from position 0 |
| `ByteBuffers.ByteBuffer.GetInt` | pal-world-tools-utils/src/main/java/kr/nerdlab/palworld/sav/UnrealEngineSaveFileUtils.java:68-70 | with four bytes left, returns the little-endian int at the cursor and advances it by 4; otherwise underflows and leaves the cursor alone |
| `ByteBuffers.LittleEndianIntDigits` | pal-world-tools-utils/src/main/java/kr/nerdlab/palworld/sav/UnrealEngineSaveFileUtils.java:68-70 | the decoded int is the base-256 number whose top digit is the last byte read as signed; it is negative exactly when that byte is |
| `ByteBuffers.LittleEndianIntBytes` | pal-world-tools-utils/src/main/java/kr/nerdlab/palworld/sav/UnrealEngineSaveFileUtils.java:70-72 | shifting the decoded int right by 24, 16, 8 or 0 and narrowing gives bytes 3, 2, 1, 0 of its encoding |
| `ByteBuffers.BytesRoundTrip` | pal-world-tools-utils/src/main/java/kr/nerdlab/palworld/sav/UnrealEngineSaveFileUtils.java:68-70 | writing back a decoded int in little-endian order reproduces the four bytes |
| `ByteBuffers.IntRoundTrip` | pal-world-tools-utils/src/main/java/kr/nerdlab/palworld/sav/UnrealEngineSaveFileUtils.java:68-70 | reading back an int written in little-endian order gives the int |
| `Entity.SaveType.GetValue` | pal-world-tools-utils/src/main/java/kr/nerdlab/palworld/entity/SaveType.java:4-15 | narrowing the constructor arguments with `(byte)` keeps them: SINGLE_ZLIB carries 0x31, DOUBLE_ZLIB 0x32 |
| `Entity.Values` | pal-world-tools-utils/src/main/java/kr/nerdlab/palworld/entity/SaveType.java:3-5 | `values()` lists both constants, two entries in all |
| `Entity.Lookup` | pal-world-tools-utils/src/main/java/kr/nerdlab/palworld/entity/SaveType.java:17-24 | a found type is the first in order whose value matches; `None` means no type has that value |
| `Entity.FromValue` | pal-world-tools-utils/src/main/java/kr/nerdlab/palworld/entity/SaveType.java:17-24 | the for-loop search with early return and null fallback returns exactly the first-match lookup over `values()` |
| `Entity.LookupValues` | pal-world-tools-utils/src/main/java/kr/nerdlab/palworld/entity/SaveType.java:4-24 | `fromValue(0x31)` is SINGLE_ZLIB, `fromValue(0x32)` is DOUBLE_ZLIB, every other byte gives null |
| `Entity.ValueRoundTrip` | pal-world-tools-utils/src/main/java/kr/nerdlab/palworld/entity/SaveType.java:13-24 | `fromValue(t.getValue()) == t` for every constant |
| `Entity.GetValueInjective` | pal-world-tools-utils/src/main/java/kr/nerdlab/palworld/entity/SaveType.java:4-15 | distinct constants carry distinct byte values |
| `Entity.LookupUnique` | pal-world-tools-utils/src/main/java/kr/nerdlab/palworld/entity/SaveType.java:17-24 | the constant `fromValue` finds is the only one carrying that value |
| `Inflaters.Inflater.constructor` | pal-world-tools-utils/src/main/java/kr/nerdlab/palworld/sav/UnrealEngineSaveFileUtils.java:96-97 | a new inflater on `data` has handed out nothing and will produce what the library makes of `data` |
| `Inflaters.Inflater.Finished` | pal-world-tools-utils/src/main/java/kr/nerdlab/palworld/sav/UnrealEngineSaveFileUtils.java:103 | a corrupt or stalled inflater never reports itself finished; an unfinished one that inflates still has output to hand out |
| `Inflaters.Inflater.Inflate` | pal-world-tools-utils/src/main/java/kr/nerdlab/palworld/sav/UnrealEngineSaveFileUtils.java:104 | copies the next at most `buf.length` output bytes to the front of `buf`, leaves the rest of `buf` alone and returns their count; a corrupt stream fails, a stalled one returns 0 without progress |
| `UnrealEngineSaveFileUtils.ReadHeader` | pal-world-tools-utils/src/main/java/kr/nerdlab/palworld/sav/UnrealEngineSaveFileUtils.java:67-70 | a header exists exactly when there are at least 12 bytes, and its three fields are the ints whose little-endian encodings are bytes 0-3, 4-7 and 8-11 |
| `UnrealEngineSaveFileUtils.TypeByte` | pal-world-tools-utils/src/main/java/kr/nerdlab/palworld/sav/UnrealEngineSaveFileUtils.java:72 | `(byte) (magicInt >> 24)` is the top byte of the magic int read as signed: `b * 2^24 <= magic < (b + 1) * 2^24` |
| `UnrealEngineSaveFileUtils.MagicBytes` | pal-world-tools-utils/src/main/java/kr/nerdlab/palworld/sav/UnrealEngineSaveFileUtils.java:91-93 | the three marker bytes, reversed and followed by the type byte, are the little-endian encoding of the magic int, so together they rebuild it |
| `UnrealEngineSaveFileUtils.Payload` | pal-world-tools-utils/src/main/java/kr/nerdlab/palworld/sav/UnrealEngineSaveFileUtils.java:74-82 | single zlib succeeds iff the body inflates, giving that output; double zlib succeeds iff the body inflates to exactly the compressed length and that inflates again, giving the second output; the only non-stream error is the intermediate length mismatch, and only for double zlib |
| `UnrealEngineSaveFileUtils.DecodeBody` | pal-world-tools-utils/src/main/java/kr/nerdlab/palworld/sav/UnrealEngineSaveFileUtils.java:72-88 | once the header is read, a success has the declared uncompressed length, a save type whose value is the type byte and the marker of the magic int; no buffer underflow can arise |
| `UnrealEngineSaveFileUtils.Decode` | pal-world-tools-utils/src/main/java/kr/nerdlab/palworld/sav/UnrealEngineSaveFileUtils.java:66-89 | decoding reports a buffer underflow exactly when the input is shorter than 12 bytes |
| `UnrealEngineSaveFileUtils.Decompress` | pal-world-tools-utils/src/main/java/kr/nerdlab/palworld/sav/UnrealEngineSaveFileUtils.java:95-110 | draining the inflater through a 1024-byte buffer yields exactly the whole inflated output, or the corrupt-stream failure |
| `UnrealEngineSaveFileUtils.GetHeader` | pal-world-tools-utils/src/main/java/kr/nerdlab/palworld/sav/UnrealEngineSaveFileUtils.java:67-70 | three `getInt` calls give the little-endian ints at offsets 0, 4 and 8, or underflow when fewer than 12 bytes exist |
| `UnrealEngineSaveFileUtils.DecompressSavToGvas` | pal-world-tools-utils/src/main/java/kr/nerdlab/palworld/sav/UnrealEngineSaveFileUtils.java:66-89 | the step-by-step decoder returns exactly what `Decode` specifies, on every input where it terminates |
| `UnrealEngineSaveFileUtils.MagicIntBytes` | pal-world-tools-utils/src/main/java/kr/nerdlab/palworld/sav/UnrealEngineSaveFileUtils.java:91-93 | the type byte is the last byte of the magic int's encoding, and the marker is the other three bytes in reverse order |
| `UnrealEngineSaveFileUtils.ShortInputFails` | pal-world-tools-utils/src/main/java/kr/nerdlab/palworld/sav/UnrealEngineSaveFileUtils.java:67-70 | fewer than 12 bytes fail with a buffer underflow, never with a partial result |
| `UnrealEngineSaveFileUtils.UnknownSaveTypeFailsBeforeInflating` | pal-world-tools-utils/src/main/java/kr/nerdlab/palworld/sav/UnrealEngineSaveFileUtils.java:72-75 | a type byte outside {0x31, 0x32} fails with that byte, whatever the inflater would do |
| `UnrealEngineSaveFileUtils.SingleZlibDecoding` | pal-world-tools-utils/src/main/java/kr/nerdlab/palworld/sav/UnrealEngineSaveFileUtils.java:74-88 | single zlib succeeds iff inflating `data[12..]` succeeds with the declared uncompressed length, and then returns that output, SINGLE_ZLIB and bytes 10, 9, 8 |
| `UnrealEngineSaveFileUtils.DoubleZlibDecoding` | pal-world-tools-utils/src/main/java/kr/nerdlab/palworld/sav/UnrealEngineSaveFileUtils.java:74-88 | double zlib succeeds iff the first inflate of `data[12..]` has the declared compressed length and the second inflate has the declared uncompressed length; then it returns the second output |
| `UnrealEngineSaveFileUtils.SingleZlibIgnoresCompressedLength` | pal-world-tools-utils/src/main/java/kr/nerdlab/palworld/sav/UnrealEngineSaveFileUtils.java:77-82 | for single zlib, changing header bytes 4-7 never changes the outcome |
| `UnrealEngineSaveFileUtils.MarkerDoesNotAffectDecoding` | pal-world-tools-utils/src/main/java/kr/nerdlab/palworld/sav/UnrealEngineSaveFileUtils.java:70-88 | changing the low 24 bits of magic never changes the save type or whether decoding succeeds; on success only the marker differs |
| `UnrealEngineSaveFileUtils.NegativeLengthNeverDecodes` | pal-world-tools-utils/src/main/java/kr/nerdlab/palworld/sav/UnrealEngineSaveFileUtils.java:78-86 | a declared uncompressed length at or above 2^31 (negative as an `int`) never decodes; nor does such a compressed length under double zlib |
| `UnrealEngineSaveFileUtils.DecodedAgreesWithHeader` | pal-world-tools-utils/src/main/java/kr/nerdlab/palworld/sav/UnrealEngineSaveFileUtils.java:84-88 | on success the payload length equals the uncompressed length field, the save type's value is byte 11, and the marker is bytes 10, 9, 8 |
| `UnrealEngineSaveFileUtils.HeaderLayout` | pal-world-tools-utils/src/main/java/kr/nerdlab/palworld/sav/UnrealEngineSaveFileUtils.java:67-74 | a file of three little-endian ints and a body reads back as that header, and exactly that body goes to the first inflate |
| `UnrealEngineSaveFileUtils.MagicExample` | pal-world-tools-utils/src/main/java/kr/nerdlab/palworld/sav/UnrealEngineSaveFileUtils.java:88-93 | magic 0x31AABBCC resolves to SINGLE_ZLIB and yields marker bytes 0xAA, 0xBB, 0xCC whatever the rest of the file, and a file with that magic that decodes carries both |

## Left out

- The DEFLATE/zlib algorithm inside `java.util.zip.Inflater` is a foreign library. It is the `zlib` parameter; nothing is assumed about it.
- `Inflaters.Inflater.Inflate`: a corrupt stream fails on the first `inflate` call. The real library may first hand out some output. No partial result reaches the caller either way.
- `Inflaters.Inflater.Finished`: an inflater whose output is empty counts as finished before any `inflate` call. Java reports this only after one call. The decoded bytes are the same.
- `UnrealEngineSaveFileUtils.Decompress` and `UnrealEngineSaveFileUtils.DecompressSavToGvas` require that the inflater never stalls. On a stalling input the Java loop never terminates. The specification `Decode` reports that case as `Diverges`.
- `inflater.end()` only releases native memory, so it is not modelled.
- The `Path` overload of `decompressSavToGvas` is file I/O plus exception wrapping, so it is not modelled.
- Exception classes and message texts are reduced to the `DecodeError` kinds.
- `ByteBuffer` is modelled only in little-endian order and only for `getInt`, the one read the decoder uses.
- Java arrays cannot hold more than 2^31 - 1 bytes, and `ByteArrayOutputStream` throws `OutOfMemoryError` when asked to. Sequences here are unbounded, so such overflows are not modelled.
- There is no compressor in the repository. So there is no compress/decompress round trip; the round trips proved are for the header ints.
- `GvasObject.java` names its save type `UnrealEngineSaveFileUtils.SaveType`, but the enum is declared in the `entity` package. The model uses that enum.
- The Electron GUI (`pal-world-config-gui/src/main.ts`, `renderer.ts`) is UI plumbing and is not part of this model. The test class walks resource files on disk, so it is not part of this model either.
