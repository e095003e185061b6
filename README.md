# rust-edid base block decoder, modelled in Dafny

This project models the decoder in `src/lib.rs` of rust-edid. The decoder reads
the 128-byte base block of a display's EDID (Extended Display Identification
Data). It is a chain of nom parser combinators:

- the 20-byte header: magic, packed vendor letters, product and serial numbers,
  and the date and version bytes;
- the five display-parameter bytes;
- three regions it consumes without decoding them (chromaticity, established
  timings, standard timings);
- four 18-byte descriptor slots, each either a detailed timing or a monitor
  descriptor with 13 bytes of text;
- the extension-count and checksum bytes, which it consumes without looking at
  them.

The code is pure, so the model is functions on `seq<byte>`, with lemmas about
them. Every parser returns `Parsed<T>`: either `Ok(value, rest)` with the
unconsumed input, or `Err(error)`. `ParseEdid` returns an `Outcome`, because a
failure in the descriptor stage is unwrapped and panics instead of being
returned.

Modules, one per part of the block:

- `Nom` holds the combinators the decoder uses (`take`, `tag`, the fixed-width
  reads, `map`, `preceded`, `peek`, `alt`, `count`) and the byte-order helpers.
- `HeaderDecoder`, `DisplayDecoder`, `TimingDecoder`, `TextDecoder`,
  `DescriptorDecoder` and `EdidDecoder` follow the decoder's own functions.

Each decoder has a partner: an encoder, a field-by-field layout predicate or
function, or a stated outcome for every input length. Lemmas connect each
decoder to its partner.

The model follows the code where the code departs from the EDID standard or
from what the EDID standard prescribes. The lemmas state each departure:

- The EDID standard makes vendor letters `A`-`Z`; the code does not restrict them. A five-bit field of 0 or 27-31
  decodes to `@` or `[`..`_`, and bit 15 is ignored
  (`VendorAdmitsNonLetters`, `VendorUppercaseIff`, `VendorIgnoresTopBit`).
- The two extension bits of the vertical front porch and sync width are
  shifted into bits 9-8 rather than bits 5-4 (`VerticalExtensionShiftedByEight`,
  measured against `StandardVerticalFrontPorch` and
  `StandardVerticalSyncWidth`).
- The tag byte of a monitor descriptor is consumed and never looked at. The
  first alternative (serial number text) succeeds whenever the other ten
  would, so every monitor descriptor decodes as `SerialNumber`
  (`OnlyTimingOrSerialNumber`, `MonitorTagIgnored`).
- A block of 54 to 125 bytes that starts with the magic panics, while 126 or
  127 bytes give an end-of-input error (`EdidOutcome`).
- The checksum and the three skipped regions do not affect the result
  (`EdidIgnoresSkippedBytes`).

## Model

| member | source | states |
|---|---|---|
| Nom.Take | src/lib.rs:90 | `take(n)` succeeds exactly when `n` bytes remain; the value and the rest put back together give the input; otherwise it is an end-of-input error |
| Nom.Tag | src/lib.rs:41 | `tag` succeeds exactly when the input starts with the pattern; a short or different input is a tag mismatch |
| Nom.LeU8 | src/lib.rs:45-48 | `le_u8` needs one byte and returns it; otherwise it is an end-of-input error |
| Nom.LeU16 | src/lib.rs:43 | `le_u16` needs two bytes and returns them little-endian; otherwise it is an end-of-input error |
| Nom.BeU16 | src/lib.rs:42 | `be_u16` needs two bytes and returns them big-endian; otherwise it is an end-of-input error |
| Nom.LeU32 | src/lib.rs:44 | `le_u32` needs four bytes and returns them little-endian; otherwise it is an end-of-input error |
| Nom.LittleEndian16RoundTrip | src/lib.rs:43 | two bytes and a 16-bit value convert both ways without loss |
| Nom.LittleEndian32RoundTrip | src/lib.rs:44 | four bytes and a 32-bit value convert both ways without loss |
| Nom.LittleEndian16Value | src/lib.rs:144 | a little-endian pair stands for `b0 + 256 * b1` |
| Nom.Map | src/lib.rs:235 | `map(p, f)`: stated where used, by `TextAlternativeLong`, `SkipAlternativeLong`, `UnknownAlternativeLong` and `TimingBranch` |
| Nom.Preceded | src/lib.rs:232 | `preceded(a, b)`: stated where used, by `MonitorSkipsTag` and the three `...AlternativeLong` lemmas |
| Nom.Peek | src/lib.rs:226 | `peek(p)`: stated where used, by `PeekType` |
| Nom.Alt | src/lib.rs:234-249 | `alt(...)`: the first success, as `FirstSuccess` states |
| Nom.Count | src/lib.rs:246 | `count(p, n)`: `n` runs of `p`, as `Repeat` states |
| Nom.FirstSuccess | src/lib.rs:234-249 | `alt` returns the first alternative that succeeds, with all earlier ones failing; when all fail, it returns the last one's error |
| Nom.Repeat | src/lib.rs:276 | `count(p, n)` returns exactly `n` values when it succeeds |
| HeaderDecoder.VendorField | src/lib.rs:28-35 | each letter's field is a five-bit value |
| HeaderDecoder.VendorLetter | src/lib.rs:30-34 | a field decodes to the character with code `field + 64`, one of '@'..'_' |
| HeaderDecoder.ParseVendor | src/lib.rs:28-36 | three characters, each '@'..'_', each `64 +` its field in bits 14-10, 9-5 and 4-0 |
| HeaderDecoder.VendorCode | src/lib.rs:30-34 | the five-bit code of a vendor character, the inverse of the letter mapping |
| HeaderDecoder.PackFieldsRoundTrip | src/lib.rs:28-35 | packing the three fields and reading them back are inverse; bit 15 is lost |
| HeaderDecoder.VendorLetterCodeInverse | src/lib.rs:30-34 | letter and code are inverse on '@'..'_' and on five-bit fields |
| HeaderDecoder.VendorRoundTrip | src/lib.rs:28-36 | every three-character code in '@'..'_' is decoded back from its packing |
| HeaderDecoder.VendorIgnoresTopBit | src/lib.rs:28-36 | decoding then encoding gives back the 16-bit value without bit 15, so bit 15 never affects the letters |
| HeaderDecoder.VendorUppercaseIff | src/lib.rs:28-36 | the letters are all 'A'..'Z' if and only if every field is 1..26 |
| HeaderDecoder.VendorAdmitsNonLetters | src/lib.rs:28-36 | fields 0, 31 and 27 decode to '@', '_' and '[', which are not letters |
| HeaderDecoder.VendorSamsung | src/lib.rs:28-36 | bytes `4C 2D` decode to "SAM" |
| HeaderDecoder.ParseHeader | src/lib.rs:37-60 | succeeds exactly on the magic followed by 12 more bytes; a bad magic is a tag error and a short input an end-of-input error; it consumes 20 bytes and puts each field at its offset: vendor big-endian from 8-9, product and serial little-endian from 10-15, week, year, version and revision from 16-19 |
| DisplayDecoder.ParseDisplay | src/lib.rs:70-87 | succeeds exactly on 5 bytes, consumes them, and stores them in order |
| DisplayDecoder.EncodeDisplay | src/lib.rs:70-87 | the five bytes of a display record parse back to that record with nothing left over |
| DisplayDecoder.ParseChromaticity | src/lib.rs:89-92 | consumes exactly 10 bytes, or fails with end-of-input |
| DisplayDecoder.ParseEstablishedTiming | src/lib.rs:94-97 | consumes exactly 3 bytes, or fails with end-of-input |
| DisplayDecoder.ParseStandardTiming | src/lib.rs:99-102 | consumes exactly 16 bytes, or fails with end-of-input |
| TimingDecoder.ParseDetailedTiming | src/lib.rs:141-205 | succeeds exactly on 18 bytes, consumes them, and gives the decoding of that block |
| TimingDecoder.DecodeDetailedTiming | src/lib.rs:162-203 | every field comes from the bits the layout assigns it, and stays within the width those bits allow |
| TimingDecoder.Join | src/lib.rs:182-199 | `lo \| (hi << 8)` keeps `lo` as bits 7-0 and `hi` as bits 15-8, with the bounds a nibble or a two-bit `hi` implies |
| TimingDecoder.EncodeDetailedTiming | src/lib.rs:141-205 | writing a representable record back gives an 18-byte block |
| TimingDecoder.TimingEncodeDecode | src/lib.rs:141-205 | every representable record parses back from its encoding with nothing left over |
| TimingDecoder.EncodeDecodeClock | src/lib.rs:181 | the pixel clock survives encoding and decoding |
| TimingDecoder.EncodeDecodeActiveBlanking | src/lib.rs:182-189 | the active and blanking fields survive encoding and decoding |
| TimingDecoder.EncodeDecodePorchSync | src/lib.rs:190-197 | the porch and sync fields survive encoding and decoding |
| TimingDecoder.EncodeDecodeSize | src/lib.rs:198-199 | the image size fields survive encoding and decoding |
| TimingDecoder.TimingDecodeEncode | src/lib.rs:141-205 | every 18-byte block is encoded back from what it parses to, so no two blocks give the same record |
| TimingDecoder.DecodeEncodeBlock | src/lib.rs:162-203 | decoding then encoding an 18-byte block gives the block back |
| TimingDecoder.DecodeEncodeClock | src/lib.rs:181 | the clock bytes 0-1 are written back unchanged |
| TimingDecoder.DecodeEncodeHorizontal | src/lib.rs:182-185 | bytes 2-4 are written back unchanged |
| TimingDecoder.DecodeEncodeVertical | src/lib.rs:186-189 | bytes 5-7 are written back unchanged |
| TimingDecoder.DecodeEncodePorchSync | src/lib.rs:190-197 | bytes 8-11 are written back unchanged |
| TimingDecoder.DecodeEncodeSize | src/lib.rs:198-202 | bytes 12-17 are written back unchanged |
| TimingDecoder.NibblePairRoundTrip | src/lib.rs:182-189 | two fields that share a byte of high nibbles give back their three bytes |
| TimingDecoder.PorchRoundTrip | src/lib.rs:190-197 | the four porch and sync fields give back bytes 8-11 |
| TimingDecoder.JoinLowHigh | src/lib.rs:182-199 | joining a value's low and high bytes gives the value |
| TimingDecoder.JoinParts | src/lib.rs:182-199 | the low and high bytes of a join are its two parts |
| TimingDecoder.ClockRange | src/lib.rs:181 | the clock in kHz is a multiple of 10 and at most 655350, so `as u32 * 10` cannot overflow |
| TimingDecoder.PixelClockFromBytes | src/lib.rs:181 | a representable clock is rebuilt from the two bytes of its tenth |
| TimingDecoder.ClockBytesFromPixelClock | src/lib.rs:181 | the two clock bytes are rebuilt from the clock they decode to |
| TimingDecoder.SharedNibbles | src/lib.rs:182-189 | two 12-bit fields packed into one byte of nibbles unpack to their high nibbles |
| TimingDecoder.PorchBits | src/lib.rs:190-197 | the porch and sync extension bits packed into bytes 10-11 unpack to the fields' parts |
| TimingDecoder.StandardVerticalFrontPorch | src/lib.rs:194-195 | the standard's six-bit vertical front porch is below 64 |
| TimingDecoder.StandardVerticalSyncWidth | src/lib.rs:196-197 | the standard's six-bit vertical sync width is below 64 |
| TimingDecoder.VerticalExtensionShiftedByEight | src/lib.rs:194-197 | the decoder agrees with the standard's six-bit fields if and only if the extension bits are zero; otherwise it yields 256..783 |
| TimingDecoder.TimingExample | src/lib.rs:141-205 | a 1680x1050 block decodes to its known timing |
| TextDecoder.StripNewlines | src/lib.rs:110 | keeps every byte except 0x0A, each as often as it occurs in the input, and no 0x0A (as a multiset: the input with its newlines removed) |
| TextDecoder.StripNewlinesSingle | src/lib.rs:110 | a single byte is kept exactly when it is not 0x0A; with `StripNewlinesAppend` this fixes the kept bytes' order |
| TextDecoder.StripNewlinesAppend | src/lib.rs:110 | filtering a concatenation filters each part |
| TextDecoder.NoNewlinesKept | src/lib.rs:110 | a field without 0x0A passes through the filter unchanged |
| TextDecoder.Translate | src/lib.rs:111 | one character per byte |
| TextDecoder.TrimStart | src/lib.rs:114 | removes exactly the leading whitespace |
| TextDecoder.TrimEnd | src/lib.rs:114 | removes exactly the trailing whitespace |
| TextDecoder.Trim | src/lib.rs:114 | the result is a slice of the input, with only whitespace cut on each side, that neither starts nor ends with whitespace |
| TextDecoder.TrimKeeps | src/lib.rs:114 | every character left by trimming was in the input |
| TextDecoder.TrimIdempotent | src/lib.rs:114 | trimming twice is trimming once |
| TextDecoder.DecodeText | src/lib.rs:108-114 | the text is no longer than the field and has no whitespace at either end |
| TextDecoder.ParseDescriptorText | src/lib.rs:105-116 | succeeds exactly on 13 bytes, consumes them, and gives their decoded text |
| TextDecoder.DecodedTextFromField | src/lib.rs:108-114 | every character of the text is the translation of some non-newline byte of the field |
| TextDecoder.DecodedTextWhole | src/lib.rs:108-114 | a field with no newline and no byte translating to whitespace decodes to the translation of every byte |
| DescriptorDecoder.TextAlternative | src/lib.rs:235-238 | `map(preceded(le_u8, parse_descriptor_text), wrap)`: stated by `TextAlternativeLong` and `TextAlternativeShort` |
| DescriptorDecoder.TextAlternativeLong | src/lib.rs:235-238 | on 14 bytes or more, a text alternative skips the padding byte, wraps the decoded text of the next 13, and leaves the rest after them |
| DescriptorDecoder.SkipAlternative | src/lib.rs:237-244 | `map(preceded(le_u8, take(13)), ...)` with a fixed variant: stated by `SkipAlternativeLong` and `SkipAlternativeShort` |
| DescriptorDecoder.SkipAlternativeLong | src/lib.rs:237-244 | on 14 bytes or more, a skipping alternative gives its fixed variant and consumes 14 bytes |
| DescriptorDecoder.UnknownAlternative | src/lib.rs:245-248 | `map(preceded(le_u8, count(le_u8, 13)), Unknown)`: stated by `UnknownAlternativeLong` and `UnknownAlternativeShort` |
| DescriptorDecoder.UnknownAlternativeLong | src/lib.rs:245-248 | on 14 bytes or more, the `Unknown` alternative keeps the 13 bytes after the padding byte and consumes 14 |
| DescriptorDecoder.Monitor | src/lib.rs:232-250 | `preceded(le_u8, alt(...))`: stated by `MonitorFromFirst`, `MonitorShort` and `MonitorLong` |
| DescriptorDecoder.SlotValue | src/lib.rs:225-258 | the closed form of one slot: serial number text of bytes 5-17 after two zero bytes, the detailed timing of all 18 otherwise; `DescriptorLayout` proves the parser computes it |
| DescriptorDecoder.Alternatives | src/lib.rs:234-249 | the eleven alternatives, in source order |
| DescriptorDecoder.ParseDescriptor | src/lib.rs:225-258 | succeeds exactly on 18 bytes and consumes them; fails with end-of-input otherwise |
| DescriptorDecoder.ParseMonitorDescriptor | src/lib.rs:229-252 | after two zero bytes, succeeds exactly on 18 bytes and always yields serial number text of bytes 5-17 |
| DescriptorDecoder.ParseTimingDescriptor | src/lib.rs:253-256 | otherwise, succeeds exactly on 18 bytes and yields their detailed timing |
| DescriptorDecoder.MonitorAfterHeader | src/lib.rs:231-250 | the monitor stage after the three header bytes needs 18 bytes in all and reads text from bytes 5-17 |
| DescriptorDecoder.MonitorLongAfterHeader | src/lib.rs:231-250 | on 18 bytes, the monitor stage after the header gives serial number text of bytes 5-17 and the rest after byte 18 |
| DescriptorDecoder.PeekType | src/lib.rs:226 | `peek(le_u16)` reads bytes 0-1 little-endian and consumes nothing |
| DescriptorDecoder.TimingBranch | src/lib.rs:255 | the timing branch succeeds exactly on 18 bytes and wraps their timing |
| DescriptorDecoder.MonitorFromFirst | src/lib.rs:232-250 | the tag-skipping stage succeeds exactly on 15 bytes and always gives serial number text of the last 13 |
| DescriptorDecoder.MonitorShort | src/lib.rs:232-250 | with fewer than 15 bytes the tag-skipping stage fails with end-of-input |
| DescriptorDecoder.MonitorLong | src/lib.rs:232-250 | with 15 bytes or more it gives serial number text of bytes 2-14 and the rest after them |
| DescriptorDecoder.MonitorSkipsTag | src/lib.rs:232-233 | the stage drops one byte, the tag, and hands the rest to `alt` |
| DescriptorDecoder.AlternativesFromFirst | src/lib.rs:234-249 | `alt` succeeds exactly on 14 bytes, and then with the first alternative's result |
| DescriptorDecoder.AlternativesShort | src/lib.rs:234-249 | with fewer than 14 bytes every alternative fails with end-of-input |
| DescriptorDecoder.TextAlternativeShort | src/lib.rs:235-238 | a text alternative fails with end-of-input on fewer than 14 bytes |
| DescriptorDecoder.SkipAlternativeShort | src/lib.rs:237-244 | a skipping alternative fails with end-of-input on fewer than 14 bytes |
| DescriptorDecoder.UnknownAlternativeShort | src/lib.rs:245-248 | the `Unknown` alternative fails with end-of-input on fewer than 14 bytes |
| DescriptorDecoder.SerialNumberBranch | src/lib.rs:235 | on 14 bytes, the first alternative skips the padding byte and gives serial number text of the next 13 |
| DescriptorDecoder.DescriptorLayout | src/lib.rs:225-258 | a slot parses to `SlotValue` of its 18 bytes, with the rest after them |
| DescriptorDecoder.MonitorLayout | src/lib.rs:229-252 | a slot opening with two zero bytes parses to serial number text of bytes 5-17 |
| DescriptorDecoder.TimingLayout | src/lib.rs:253-256 | any other slot parses to the detailed timing of its 18 bytes |
| DescriptorDecoder.OnlyTimingOrSerialNumber | src/lib.rs:234-236 | of the twelve variants, only `DetailedTiming` and `SerialNumber` are ever produced |
| DescriptorDecoder.MonitorTagIgnored | src/lib.rs:231-236 | in a monitor descriptor, changing bytes 2-4 (header, tag, padding) does not change the result |
| DescriptorDecoder.DescriptorDependsOnSlot | src/lib.rs:225-258 | the value read depends only on the slot's 18 bytes |
| DescriptorDecoder.DescriptorConsumesSlot | src/lib.rs:225-258 | the descriptor parser consumes exactly 18 bytes, and fails exactly when fewer remain |
| DescriptorDecoder.RepeatBytes | src/lib.rs:246 | `count(le_u8, n)` succeeds exactly on `n` bytes and returns them |
| DescriptorDecoder.RepeatBytesShort | src/lib.rs:246 | on fewer than `n` bytes, `count(le_u8, n)` fails with end-of-input |
| DescriptorDecoder.RepeatBytesLong | src/lib.rs:246 | on `n` bytes or more, `count(le_u8, n)` returns the first `n` |
| EdidDecoder.ParseEdid | src/lib.rs:270-295 | `parse_edid` and `parse`: stated for every input by `EdidOutcome`, and field by field by `EdidLayout` |
| EdidDecoder.ParseFixedPart | src/lib.rs:271-275 | the first five stages succeed exactly on the magic and 54 bytes, consume 54, and give the header and display records at their offsets; a bad magic is a tag error, a short input an end-of-input error |
| EdidDecoder.ParseTrailer | src/lib.rs:277-278 | the extension-count and checksum stages consume two bytes, or fail with end-of-input |
| EdidDecoder.RepeatSlots | src/lib.rs:276 | `count` of an 18-byte parser needs `18 * n` bytes and parses item `i` from offset `18 * i` |
| EdidDecoder.RepeatSlotsLength | src/lib.rs:276 | `count` of an 18-byte parser succeeds exactly on `18 * n` bytes and leaves the rest after them |
| EdidDecoder.RepeatSlotsValues | src/lib.rs:276 | item `i` of such a `count` is what the parser reads at offset `18 * i` |
| EdidDecoder.DescriptorSlots | src/lib.rs:276 | the descriptor stage succeeds exactly on 72 bytes and gives four descriptors, one per slot |
| EdidDecoder.EdidOutcome | src/lib.rs:270-295 | for every input: a bad magic is a tag error; under 54 bytes an end-of-input error; 54 to 125 bytes panic; 126 or 127 bytes an end-of-input error; 128 or more succeed with four descriptors and everything after byte 128 left over |
| EdidDecoder.DescriptorStageOutcome | src/lib.rs:276-278 | between 54 and 127 bytes, the descriptor stage panics below 126 and the trailer fails above |
| EdidDecoder.DescriptorStagePanics | src/lib.rs:276 | with the magic and 54 to 125 bytes, `parse_edid` panics |
| EdidDecoder.TrailerStageFails | src/lib.rs:277-278 | with the magic and 126 or 127 bytes, `parse_edid` returns an end-of-input error |
| EdidDecoder.EdidLayout | src/lib.rs:270-291 | a full block parses to the header, display record and four slots read from their fixed offsets |
| EdidDecoder.SlotsLaidOut | src/lib.rs:276 | the descriptor stage reads the four slots at offsets 54, 72, 90 and 108 and leaves the input from byte 126 |
| EdidDecoder.SlotRead | src/lib.rs:276 | what the stage reads at slot `k` is `SlotValue` of bytes `54 + 18k` to `72 + 18k` |
| EdidDecoder.EdidIgnoresSkippedBytes | src/lib.rs:270-291 | two blocks that agree on bytes 0-24 and 54-125 parse to the same record, whatever their chromaticity, timing regions, extension count and checksum |
| EdidDecoder.LaidOutFromBytes | src/lib.rs:270-291 | the field-by-field reading depends only on bytes 0-24 and 54-125 |
| EdidDecoder.SlotFromBytes | src/lib.rs:276 | each slot's reading depends only on its own 18 bytes |
| EdidDecoder.HeaderFromBytes | src/lib.rs:37-60 | the header depends only on bytes 0-19 |
| EdidDecoder.DisplayFromBytes | src/lib.rs:70-87 | the display record depends only on bytes 20-24 |

## Left out

- The code page 437 table (`cp437::forward`, in `src/cp437.rs`) is not part of this model. It is a parameter `cp437: byte -> char`.
- nom's error values are reduced to their kind: a tag mismatch or an unexpected end. The input positions they carry and the `VerboseError` context are not modelled.
- The three skipped regions and the last two bytes are consumed, not decoded. The record's unit fields stand for the source's `()`.
- The gamma byte is kept raw. The floating-point gamma it encodes is never computed, neither by the source nor by the model.
- Extension blocks after byte 128 are returned as rest and not decoded.
- The tests at the end of `src/lib.rs` are commented out, so no property is taken from them.
- `str::trim` is modelled on Unicode's White_Space set. The UTF-8 encoding of the `String` and Rust's `char` validity rules are not modelled.
- `Unknown` holds a `seq<byte>` where the source has `[u8; 13]`. The alternative that builds it is never reached, so nothing depends on the difference.
- The fixed-width `tuple` reads in `parse_header` and `parse_detailed_timing` are modelled as one block taken at once, then decoded at fixed offsets. This is equivalent, because each read fails with an end-of-input error exactly when the block is short.
- Where the EDID standard says vendor letters are always `A`-`Z`, the model follows the code, which admits `@` and `[`..`_`.
- Where the EDID standard chooses a monitor descriptor's kind by its tag byte, the model follows the code, which ignores that byte.
- The panic in `parse_edid` is modelled as an outcome (`Panicked`), not as process termination.
