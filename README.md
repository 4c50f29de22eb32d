# fix_wave_header, modelled in Dafny

`fix_wave_header.swift` repairs 24-bit mono 44.1 kHz PCM WAV recordings whose
first 80 bytes (`headerSize`) were overwritten with zeros. For each file it

1. decides whether the file is broken: every byte of its first 80 bytes is zero;
2. resolves the length of the sample data: the payload after offset 80 with its
   trailing zero bytes dropped, rounded back up to a whole number of 3-byte
   samples (`countExcludingPadding(alignment:)`);
3. builds an 80-byte RIFF/WAVE header by appending ASCII tags and
   little-endian fixed-width integers to an empty `Data`: the `RIFF`
   descriptor (file length minus 8, `WAVE`), a `JUNK` chunk of 28 zero bytes
   that keeps the header at exactly 80 bytes, a 16-byte PCM `fmt ` chunk
   (format 1, 1 channel, 44100 Hz, 132300 bytes/s, block align 3, 24 bits) and
   the `data` chunk header carrying the resolved length;
4. replaces bytes `0..<80` of the file with that header and writes it back.

The Dafny project follows the same split:

- `bytes.dfy` (module `Bytes`): bytes, Swift's `Int16`/`Int32`, their
  little-endian two's-complement images (`LE16`, `LE32`) with decoders and
  round trips, the ASCII encoding of tags, zero-filled data.
- `data_buffer.dfy` (module `DataBuffer`): class `Data`, a growable buffer
  whose `append` methods update its `bytes` in place, as the
  `mutating` extension methods of fix_wave_header.swift do.
- `padding.dfy` (module `Padding`): `TrailingZeroCount` and
  `CountExcludingPadding`, with their properties.
- `wave_header.dfy` (module `WaveHeader`): the header constants, the header as
  a function (`Header`), its byte layout, a reader for it (`ParseHeader`) with
  round trips in both directions, and `BuildHeader`, the imperative builder
  that appends field by field to a `Data` and stops where the Swift code would
  trap.
- `repair.dfy` (module `Repair`): the broken-header test, the outcome of one
  repair (`Skipped`, `Fixed`, or `Trapped`), the file's contents afterwards,
  the in-place splice over an `array<Byte>`, `FixIfBroken`, and the lemmas
  about the whole repair.

Where the Swift code can trap, the model returns a `Trapped` outcome instead of
requiring the input away: a file longer than `Int32.max` bytes traps when its
length is converted to `Int32` (fix_wave_header.swift:42), and a broken file
shorter than 80 bytes traps when the payload is sliced from offset 80
(fix_wave_header.swift:59). In both cases nothing is written.

Swift's `prefix(headerSize)` takes the whole file when it is shorter than 80
bytes, so an all-zero short file also counts as broken and then traps at the
payload slice (fix_wave_header.swift:35, 59).

## Model

| member | source | states |
|---|---|---|
| Bytes.LE16 | fix_wave_header.swift:12-16 | appending an `Int16` adds exactly 2 bytes, whose little-endian value is the value modulo 2^16 (its two's-complement image) |
| Bytes.LE32 | fix_wave_header.swift:12-16 | appending an `Int32` adds exactly 4 bytes, whose little-endian value is the value modulo 2^32 |
| Bytes.LE16RoundTrip | fix_wave_header.swift:12-16 | reading the 2 emitted bytes back as a signed 16-bit value gives the value appended |
| Bytes.LE32RoundTrip | fix_wave_header.swift:12-16 | reading the 4 emitted bytes back as a signed 32-bit value gives the value appended |
| Bytes.LE16OfDecode | fix_wave_header.swift:12-16 | every 2-byte field is the image of the `Int16` it decodes to, so the encoding is onto |
| Bytes.LE32OfDecode | fix_wave_header.swift:12-16 | every 4-byte field is the image of the `Int32` it decodes to |
| Bytes.Ascii | fix_wave_header.swift:6-10 | a string has an ASCII encoding exactly when all its characters are below 128; the encoding has one byte per character, equal to its code |
| Bytes.Zeros | fix_wave_header.swift:46 | `Data(count:)` holds the given number of bytes, all zero |
| DataBuffer.Data.constructor | fix_wave_header.swift:40 | a new `Data` is empty |
| DataBuffer.Data.AppendData | fix_wave_header.swift:46 | appending data leaves the old bytes in front and adds the new ones after them |
| DataBuffer.Data.AppendString | fix_wave_header.swift:6-10 | appending a string adds its ASCII bytes, or nothing when it has a non-ASCII character |
| DataBuffer.Data.AppendInt16 | fix_wave_header.swift:12-16 | appending an `Int16` adds its 2 little-endian bytes after the old contents |
| DataBuffer.Data.AppendInt32 | fix_wave_header.swift:12-16 | appending an `Int32` adds its 4 little-endian bytes after the old contents |
| Padding.TrailingZeroCount | fix_wave_header.swift:19-20 | the count of trailing zero bytes: every byte it covers is zero and the byte before them, if any, is not |
| Padding.CountExcludingPadding | fix_wave_header.swift:18-26 | the result is a multiple of `alignment`, at least the unpadded length `u` and less than `u + alignment` |
| Padding.RoundUpToMultiple | fix_wave_header.swift:22-25 | adding `(alignment - u % alignment) % alignment` to `u` gives a multiple of `alignment` in `[u, u + alignment)` |
| Padding.CountIsLeastAlignedCover | fix_wave_header.swift:22-25 | every multiple of `alignment` that is at least the unpadded length is at least the result: the result is the least such multiple |
| Padding.UnpaddedBoundary | fix_wave_header.swift:19-22 | every byte at or past `u = count - paddingCount` is zero, and when `u > 0` the byte at `u - 1` is not |
| Padding.AllZeroResolvesToZero | fix_wave_header.swift:20-25 | an empty or all-zero payload resolves to 0 |
| Padding.ZeroResultMeansAllZero | fix_wave_header.swift:20-25 | a result of 0 means the payload has no non-zero byte |
| Padding.CountAtMostPayloadPlusSlack | fix_wave_header.swift:22-25 | the result is at most `count + alignment - 1` |
| Padding.PaddingAbsorbsRounding | fix_wave_header.swift:22-25 | with at least `alignment - 1` trailing zeros the result does not exceed the payload length |
| Padding.StrippedPayloadExample | fix_wave_header.swift:19-25 | 111 non-zero bytes followed by 9 zeros resolve to 111 with alignment 3 |
| Padding.OverCountExample | fix_wave_header.swift:22-25 | 5 non-zero bytes resolve to 6 with alignment 3, one byte more than the payload holds |
| WaveHeader.TagsAreAscii | fix_wave_header.swift:41-58 | the strings `RIFF`, `WAVE`, `JUNK`, `fmt ` and `data` are ASCII and encode to the tag bytes of the header |
| WaveHeader.Header | fix_wave_header.swift:40-59 | the header is exactly `headerSize` = 80 bytes long whatever the two sizes are |
| WaveHeader.HeaderLayout | fix_wave_header.swift:40-59 | each field sits at its fixed offset: `RIFF` at 0, the RIFF size at 4, `WAVE` at 8, `JUNK` at 12, 28 at 16, zeros over 20-47, `fmt ` at 48, 16 at 52, 1, 1, 44100, 132300, 3, 24 at 56-71, `data` at 72, the data size at 76 |
| WaveHeader.ParseHeaderOfHeader | fix_wave_header.swift:40-59 | reading a built header back yields the RIFF size and data size it was built with and the 24-bit mono 44.1 kHz PCM format |
| WaveHeader.HeaderOfParseHeader | fix_wave_header.swift:40-59 | any 80 bytes that read as a 24-bit mono PCM header of this shape are exactly the header built from the sizes read |
| WaveHeader.HeaderFor | fix_wave_header.swift:40-59 | building a header fails exactly for files shorter than 80 bytes or longer than `Int32.max`, the latter as a length-conversion trap; otherwise the header is 80 bytes |
| WaveHeader.DataLengthFits | fix_wave_header.swift:59 | converting the resolved data length to `Int32` cannot trap once the file length fits in an `Int32` |
| WaveHeader.BuildHeader | fix_wave_header.swift:40-59 | appending the fields one by one to an empty `Data` yields the header `HeaderFor` describes, or the same trap |
| WaveHeader.HeaderForDescribesFile | fix_wave_header.swift:40-59 | the built header reads back with RIFF size equal to the file length minus 8, the PCM format, and a data size that is a multiple of 3, covers every non-zero byte after offset 80 and ends at most 2 bytes past the file |
| Repair.ContainsNonZero | fix_wave_header.swift:35 | true exactly when some byte is non-zero |
| Repair.IsBroken | fix_wave_header.swift:35 | a file is broken exactly when every byte among its first 80 (or all of them, if fewer) is zero |
| Repair.OutcomeOf | fix_wave_header.swift:35-62 | a file is skipped exactly when one of its first 80 bytes is non-zero; it is fixed exactly when it is broken and its length is between 80 and `Int32.max`; a broken file shorter than 80 bytes traps at the payload slice |
| Repair.FileAfter | fix_wave_header.swift:61-63 | the contents afterwards have the original length and the original bytes from offset 80 on |
| Repair.ReplaceSubrange | fix_wave_header.swift:61-62 | replacing the first n bytes with n new bytes yields the new bytes followed by the old bytes from offset n |
| Repair.FixIfBroken | fix_wave_header.swift:32-65 | returns the outcome `OutcomeOf` gives for the old contents and leaves the file holding `FileAfter` of them |
| Repair.FixedFileLayout | fix_wave_header.swift:40-62 | a fixed file is the header built from its length and resolved payload length followed by its bytes from offset 80 on |
| Repair.ChangedIffFixed | fix_wave_header.swift:35-37 | the contents change exactly when the file is fixed; a skipped or trapped file is left as it was |
| Repair.FixedHeaderReadsBack | fix_wave_header.swift:40-62 | a fixed file's first 80 bytes read as a PCM header whose RIFF size is the file length minus 8 and whose data size is the resolved payload length |
| Repair.FixIsIdempotent | fix_wave_header.swift:35-62 | repairing a fixed file again skips it and leaves it unchanged |
| Repair.FixExample | fix_wave_header.swift:35-62 | a 200-byte file with a zeroed header, 111 non-zero payload bytes and 9 zero bytes is fixed with RIFF size 192 and data size 111 |

## Left out

- Reading the file and writing it back atomically (fix_wave_header.swift:33, 63) are I/O; the file is an in-memory `array<Byte>` that `FixIfBroken` updates, and an outcome other than `Fixed` means nothing was written.
- Printing `SKIP`/`FIXD` (fix_wave_header.swift:36, 64) is reporting; it becomes the `Outcome` value.
- `fail`, the usage check, the loop over command-line paths and `try!` (fix_wave_header.swift:67-81) are orchestration with no logic of their own.
- A trap is modelled as the `Trapped` outcome; the process abort it causes, and the files not processed after it, are not modelled.
- The byte order of the host: `Data(bytes: &v.littleEndian, …)` gives little-endian bytes on any host, and the model writes every integer that way. Only the RIFF size at fix_wave_header.swift:42 depends on the host, because `- 8` is applied after the byte swap. On a big-endian host it would subtract 8 from the byte-swapped length. The model computes the length minus 8, which is the little-endian host's result.
- Padding.CountExcludingPadding: requires `alignment > 0`; with 0 Swift traps, and negative alignments (which Swift's truncating `%` would accept) are not modelled, because the only caller passes 3.
- Swift's copy-on-write `var newData = fileData` is not modelled separately: the copy is updated and written whole, which the in-place update of the buffer stands for.
