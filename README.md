# A verified model of the win16ne New Executable reader

win16ne reads Microsoft "New Executable" (NE) files, the 16-bit Windows and
OS/2 executable format. It reads the MS-DOS stub header, checks its "MZ"
magic, follows `lfanew` to the NE header and checks its "NE" magic. It then
reads the segment, resource, resident-name, module-reference, entry and
nonresident-name tables and finally loads every segment's data. The
repository also has a small x86 opcode classifier with a decode loop, and
little/big-endian integer wrapper types.

This project models those readers in Dafny over an immutable byte sequence
`src: seq<byte>` and an explicit cursor `pos: nat`:

- A `read_exact` of `n` bytes at the cursor either fails, when fewer than
  `n` bytes remain, or gives the bytes and the cursor after them.
- A seek simply sets the cursor.
- Every `io::Error` becomes the one failure value `None` of an `Option`.

Modules follow the source files:

| module | source | form |
|---|---|---|
| `Endian` | `util/endian.rs` | pure |
| `Stream` | shared | generic `ReadMany` for the `(0..n).map(..).collect()` comprehensions, plus u16/u32 field decoding |
| `Mz` | `mz.rs` | `check_sum` is a method with its loop |
| `Header` | `ne/header.rs` | pure |
| `SegmentTable` | `ne/segment_table.rs` | `NeSegment` is a class whose `data` field `ReadData` fills in place |
| `SegmentEntry` | `ne/segment_entry.rs` | pure |
| `ResourceTable` | `ne/resource_table.rs` | pure |
| `NameTable` | `ne/resident_name_table.rs` and `ne/nonresident_name_table.rs` | the two files are identical apart from the type names; the `while let` loop is a method |
| `ModuleReferences` | `ne/module_reference_table.rs` | entries are objects whose `name` is resolved in place |
| `EntryTable` | `ne/entry_table.rs` | the `while pos < end` loop is a method |
| `SegmentRelocations` | `ne/segment_relocations.rs` | the `for` loop is a method |
| `X86` | `x86.rs` | the decode loop of `disassemble` is a method |
| `Executable` | `NeExecutable::read` in `ne/mod.rs` | methods that create the segment and module-reference objects and then run the second pass over them |

Each loop method and each two-pass method is proved against a function or
predicate of the inputs, and lemmas state the format's properties about
those functions:

- decoding and encoding are inverse round trips;
- fields sit at fixed offsets;
- bytes consumed are exact;
- the failure cases are named;
- the decode loop has forward progress and exact coverage.

`NeResourceTable::read_variadic` and `EntryTable::read_sf` are called by
`NeExecutable::read` but are defined nowhere in the repository. The model
takes them as parameters (`readVariadic`, `readSf`) and assumes nothing
about them. Where the source's callers and callees disagree (for example,
`ne/mod.rs` calls `.value()` on fields that `mz.rs` and `ne/header.rs`
declare as plain integers), the model follows what the called code defines.

## Model

| member | source | states |
|---|---|---|
| Endian.LeValue | src/util/endian.rs:17-20 | The little-endian reading of `n` bytes is below 256^n. |
| Endian.LeBytes | src/util/endian.rs:13-16 | The little-endian image of a value that fits has exactly `n` bytes. |
| Endian.LeRoundTrip | src/util/endian.rs:13-20 | Reading the little-endian image of `v` gives back `v`. |
| Endian.LeBytesOfValue | src/util/endian.rs:13-20 | Re-encoding the value of any byte sequence gives back the same bytes. |
| Endian.BeRoundTrip | src/util/endian.rs:49-56 | Reading the big-endian image of `v` gives back `v`. |
| Endian.BeBytesOfValue | src/util/endian.rs:49-56 | Re-encoding the big-endian value of any byte sequence gives back the same bytes. |
| Endian.BeIsReversedLe | src/util/endian.rs:13-16 | The big-endian image of `v` is its little-endian image reversed. |
| Endian.LuNew | src/util/endian.rs:12-16 | `Lu*::new(v)` stores `width` bytes whose value is `v`. |
| Endian.BuNew | src/util/endian.rs:48-52 | `Bu*::new(v)` stores `width` bytes whose value is `v`. |
| Endian.LuValueOfNew | src/util/endian.rs:22-34 | `value(new(v)) == v` for the little-endian wrappers and their `From` conversions; this repeats what `Endian.LuNew` ensures, and is the partner of `Endian.LuNewOfValue`. |
| Endian.LuNewOfValue | src/util/endian.rs:22-34 | `new(value(w)) == w` for every little-endian wrapper. |
| Endian.BuNewOfValue | src/util/endian.rs:58-70 | `new(value(w)) == w` for every big-endian wrapper. |
| Endian.BuIsReversedLu | src/util/endian.rs:7-9 | `Bu*::new(v)` stores the byte reversal of what `Lu*::new(v)` stores. |
| Endian.DefaultIsZero | src/util/endian.rs:6 | The derived `Default` of either wrapper has value 0. |
| Endian.LuEqualIffValueEqual | src/util/endian.rs:6 | Two little-endian wrappers of one width are equal iff their values are equal. |
| Endian.BuEqualIffValueEqual | src/util/endian.rs:42 | Two big-endian wrappers of one width are equal iff their values are equal. |
| Stream.GetU16IsLeValue | src/mz.rs:50 | `u16::from_le_bytes` of two bytes is the little-endian value of those bytes. |
| Stream.GetU32IsLeValue | src/mz.rs:51 | `u32::from_le_bytes` of four bytes is the little-endian value of those bytes. |
| Stream.ReadExact | src/mz.rs:48-49 | `read_exact` of `n` bytes succeeds iff `n` bytes remain, and gives exactly the `n` bytes at the cursor and the cursor after them. |
| Stream.GetU16 | src/mz.rs:50 | The decoder behind every u16 field; `Stream.GetU16IsLeValue` states its value. |
| Stream.GetU32 | src/mz.rs:51 | The decoder behind every u32 field; `Stream.GetU32IsLeValue` states its value. |
| Stream.WordsOfWordBytes | src/mz.rs:53-84 | Splitting the bytes of a word sequence into words gives the words back. |
| Stream.WordBytesOfWords | src/mz.rs:53-84 | Laying an even-length buffer's words out as bytes gives the buffer back. |
| Mz.FromToWords | src/mz.rs:53-84 | A well-formed DOS header comes back from the 32 words of its image. |
| Mz.ToFromWords | src/mz.rs:53-84 | The 32 words of a buffer come back from the header built from them: the fields tile the words. |
| Mz.DecodeDosHeaderOffsets | src/mz.rs:53-84 | Every field is the little-endian u16 at its fixed offset, the reserved arrays at 0x1C and 0x28, and `lfanew` is the u32 at 0x3C. |
| Mz.DecodeDosHeader | src/mz.rs:53-84 | The decoded header is well formed (its reserved arrays have 4 and 10 words); `Mz.DecodeDosHeaderOffsets` places every field, and `Mz.EncodeDecodeDosHeader` and `Mz.DecodeEncodeDosHeader` make it invertible. |
| Mz.CheckMagic | src/mz.rs:87-93 | `check_magic` accepts `magic == 0x5A4D`; `Mz.CheckMagicIffMZ` states it as the bytes 'M' 'Z'. |
| Mz.ReadDosHeader | src/mz.rs:47-85 | The read succeeds iff 64 bytes remain; it consumes exactly 64 and decodes them. |
| Mz.CheckMagicIffMZ | src/mz.rs:87-93 | The magic check accepts a header exactly when its first two bytes are 'M' 'Z'. |
| Mz.EncodeDecodeDosHeader | src/mz.rs:53-84 | Decoding and re-encoding a 64-byte buffer gives the buffer back. |
| Mz.DecodeEncodeDosHeader | src/mz.rs:53-84 | Encoding and decoding a well-formed header gives the header back. |
| Mz.CheckSum | src/mz.rs:95-111 | The loop succeeds iff the 16-bit wrapping sum of the little-endian words, with an odd final byte's high byte taken as 0, is 0. |
| Mz.WordSum | src/mz.rs:97-103 | The plain sum of the first `n` words is at most `0xFFFF * n`; `Mz.OddBytePaddedWithZero` and `Mz.ChecksumOfConcat` state how it adds up. |
| Mz.Checksum | src/mz.rs:95-111 | The wrapping sum that `Mz.CheckSum` is proved to compute; `Mz.ChecksumOfEmpty`, `Mz.OddBytePaddedWithZero` and `Mz.ChecksumOfConcat` state its properties. |
| Mz.ChecksumOfEmpty | src/mz.rs:96-104 | The checksum of an empty buffer is 0, so `check_sum` succeeds on it. |
| Mz.OddBytePaddedWithZero | src/mz.rs:99-100 | A trailing odd byte counts as if padded with a zero byte. |
| Mz.ChecksumOfConcat | src/mz.rs:95-111 | The checksum of two word-aligned pieces is the sum of their checksums modulo 2^16. |
| Header.FromToWords | src/ne/header.rs:47-78 | A well-formed NE header comes back from the 32 words of its image. |
| Header.ToFromWords | src/ne/header.rs:47-78 | The 32 words come back from the header built from them: byte pairs share a word and u32 fields take two. |
| Header.ToFromLowWords | src/ne/header.rs:48-61 | The words at offsets 0 to 0x1F come back from the fields. |
| Header.ToFromHighWords | src/ne/header.rs:62-77 | The words at offsets 0x20 to 0x3F come back from the fields. |
| Header.DecodeNeHeaderBytes | src/ne/header.rs:48-77 | `magic` is bytes 0..2, the linker versions are bytes 2 and 3, `target_os` and `os2_exe_flags` are bytes 0x36 and 0x37, and `expected_win_ver` is bytes 0x3E..0x40. |
| Header.DecodeNeHeaderWords | src/ne/header.rs:51-76 | Every u16 and u32 field is the little-endian value at its fixed offset, from `entry_table_offset` at 4 to `min_code_swap` at 0x3C. |
| Header.DecodeNeHeader | src/ne/header.rs:47-78 | The decoded header is well formed; `Header.DecodeNeHeaderBytes` and `Header.DecodeNeHeaderWords` place every field, and the two round trips make it invertible. |
| Header.ReadNeHeader | src/ne/header.rs:40-46 | The read succeeds iff 64 bytes remain; it consumes exactly 64 and decodes them. |
| Header.CheckMagicIffNE | src/ne/header.rs:81-86 | The magic check accepts a header exactly when its first two bytes are 'N' 'E'. |
| Header.CheckMagic | src/ne/header.rs:81-86 | `check_magic` accepts the "NE" magic; `Header.CheckMagicIffNE` states it as the bytes 'N' 'E'. |
| Header.EncodeDecodeNeHeader | src/ne/header.rs:47-78 | Every byte of the 64-byte buffer lands in exactly one field: decoding and re-encoding gives the buffer back. |
| Header.DecodeEncodeNeHeader | src/ne/header.rs:47-78 | Encoding and decoding a well-formed header gives the header back. |
| SegmentTable.DecodeEncodeSegmentHeader | src/ne/segment_table.rs:59-70 | Encoding a segment header and decoding the 8 bytes gives it back. |
| SegmentTable.EncodeDecodeSegmentHeader | src/ne/segment_table.rs:59-70 | Decoding 8 bytes and re-encoding them gives the bytes back. |
| SegmentTable.ReadSegmentHeader | src/ne/segment_table.rs:59-70 | The read succeeds iff 8 bytes remain; it consumes 8 and decodes the four words in order. |
| SegmentTable.DecodeSegmentHeader | src/ne/segment_table.rs:62-69 | The four words of the 8-byte image in order; `SegmentTable.DecodeEncodeSegmentHeader` and `SegmentTable.EncodeDecodeSegmentHeader` make it invertible. |
| SegmentTable.ShiftLeft64 | src/ne/segment_table.rs:30-32 | `(v as u64) << s` as a release build computes it: `v * 2^(s mod 64)` modulo 2^64, and exactly `v * 2^s` when `s <= 48`. |
| SegmentTable.SizeOf | src/ne/segment_table.rs:34-40 | A stored size maps into 1..0x10000 with the stored value as its low 16 bits, so 0 stands for 0x10000. |
| SegmentTable.SizeOfUnique | src/ne/segment_table.rs:34-48 | This is the only size in 1..0x10000 with those low 16 bits. |
| SegmentTable.NeSegment.constructor | src/ne/segment_table.rs:13-19 | A new segment keeps its header and shift count and has no data. |
| SegmentTable.NeSegment.DataOffset | src/ne/segment_table.rs:30-32 | The stored offset times 2^(shift mod 64), modulo 2^64; no bits are lost when the shift is at most 48. |
| SegmentTable.NeSegment.DataLength | src/ne/segment_table.rs:34-40 | The length lies in 1..0x10000 with the stored value as its low 16 bits. |
| SegmentTable.NeSegment.MinAlloc | src/ne/segment_table.rs:42-48 | The minimum allocation lies in 1..0x10000 with the stored value as its low 16 bits. |
| SegmentTable.NeSegment.ReadData | src/ne/segment_table.rs:21-28 | Succeeds iff the shift is below 64 and the data fits the file. The data is then exactly `data_length()` bytes at `data_offset()`, and only `data` changes. |
| SegmentTable.ReadSegment | src/ne/segment_table.rs:13-19 | Succeeds iff 8 bytes remain; gives a fresh segment with the decoded header, the given shift count and empty data. |
| SegmentEntry.Read | src/ne/segment_entry.rs:15-26 | The read succeeds iff 8 bytes remain and consumes them; the four fields are the little-endian words at 0, 2, 4 and 6. |
| SegmentEntry.ReadAgreesWithSegmentHeader | src/ne/segment_entry.rs:15-26 | This record and the segment table's header read the same bytes to the same fields. |
| SegmentEntry.DataOffset | src/ne/segment_entry.rs:28-30 | The stored offset times 2^(`file_alignment_shift_count` mod 64), modulo 2^64; exact when the shift is at most 48. |
| SegmentEntry.DataLength | src/ne/segment_entry.rs:32-38 | The length is 0x10000 iff the stored value is 0, and otherwise the stored value. |
| SegmentEntry.MinAlloc | src/ne/segment_entry.rs:40-46 | The minimum allocation is 0x10000 iff the stored value is 0, and otherwise the stored value. |
| ResourceTable.ReadTableHeader | src/ne/resource_table.rs:27-36 | Succeeds iff 2 bytes remain; the alignment shift is the little-endian u16 there. |
| ResourceTable.ReadTypeHeader | src/ne/resource_table.rs:61-71 | Succeeds iff 8 bytes remain, consumes them and decodes the four words. |
| ResourceTable.ReadResource | src/ne/resource_table.rs:79-83 | Succeeds iff 12 bytes remain, consumes them and decodes the six words. |
| ResourceTable.ReadResources | src/ne/resource_table.rs:45-50 | `n` resources are read iff `12 * n` bytes remain; there are exactly `n` and they consume exactly those bytes. |
| ResourceTable.ReadResourcesElements | src/ne/resource_table.rs:45-50 | Resource `i` is decoded from the `i`-th 12-byte record. |
| ResourceTable.ReadResourceType | src/ne/resource_table.rs:45-51 | Succeeds iff the type header and the `num_resources` records it announces fit. The type then holds that many resources and consumes `8 + 12 * num_resources` bytes. |
| ResourceTable.Read | src/ne/resource_table.rs:10-19 | On success the table has the alignment shift at `pos` and exactly `num_entries` well-formed types, and the cursor ends after `2 + Σ(8 + 12 * num_resources)` bytes within the file; `ResourceTable.ReadIffEncoded` pins down which types. |
| ResourceTable.DecodeEncodeResourceHeader | src/ne/resource_table.rs:95-107 | Encoding a resource header and decoding the 12 bytes gives it back. |
| ResourceTable.DecodeEncodeTypeHeader | src/ne/resource_table.rs:61-71 | Encoding a type header and decoding the 8 bytes gives it back. |
| ResourceTable.EncodeDecodeResourceHeader | src/ne/resource_table.rs:95-107 | Decoding 12 bytes as a resource header and re-encoding it gives the bytes back. |
| ResourceTable.EncodeDecodeTypeHeader | src/ne/resource_table.rs:61-71 | Decoding 8 bytes as a type header and re-encoding it gives the bytes back. |
| ResourceTable.ReadResourcesEncoding | src/ne/resource_table.rs:45-50 | The resources read are those whose encodings fill exactly the bytes consumed. |
| ResourceTable.ReadResourceTypeEncoding | src/ne/resource_table.rs:45-51 | A resource type read consumed exactly the encoding of the type it returned. |
| ResourceTable.ReadTypesEncoding | src/ne/resource_table.rs:14-17 | The resource types read are those whose encodings fill exactly the bytes consumed, in order. |
| ResourceTable.ReadTableEncoding | src/ne/resource_table.rs:10-19 | A table read consumed exactly the encoding of the table it returned. |
| ResourceTable.ReadIffEncoded | src/ne/resource_table.rs:10-19 | The read at `pos` with `n` types gives table `t` ending at `e` iff `t` is well formed with `n` types, `e` is `pos` plus its size, and its encoding is the bytes `pos..e`. |
| ResourceTable.ReadEncodedResources | src/ne/resource_table.rs:45-50 | Resources laid out back to back are read back exactly, 12 bytes each. |
| ResourceTable.ReadEncodedResourceType | src/ne/resource_table.rs:45-51 | A well-formed resource type laid out at `pos` is read back, consuming exactly its bytes. |
| ResourceTable.ReadEncodedResourceTypes | src/ne/resource_table.rs:14-17 | Well-formed types laid out back to back are read back in order, consuming exactly their bytes. |
| ResourceTable.ReadEncodedTable | src/ne/resource_table.rs:10-19 | A well-formed table laid out at `pos` is read back whole, consuming exactly its bytes. |
| ResourceTable.ReadOfParts | src/ne/resource_table.rs:10-19 | The table read is the header read followed by the read of `num_entries` types. |
| NameTable.ReadEntry | src/ne/resident_name_table.rs:25-45 | A successful entry read consumes at least one byte and ends within the file. |
| NameTable.ReadEncodedEntry | src/ne/resident_name_table.rs:25-45 | The bytes length, name, index are read back as that entry, whatever follows them. |
| NameTable.ReadEncodedEntries | src/ne/resident_name_table.rs:9-15 | A table's records followed by the zero terminator are read back in order, consuming exactly those bytes. |
| NameTable.EncodingOfReadEntry | src/ne/nonresident_name_table.rs:25-45 | A record read has a name of 1..255 bytes taken verbatim, followed by its little-endian index, and consumes `3 + len` bytes. |
| NameTable.ReadEntriesSize | src/ne/nonresident_name_table.rs:9-15 | Every name read is 1..255 bytes long, and the table read consumes `Σ(3 + len) + 1` bytes. |
| NameTable.ReadEntriesEncoding | src/ne/resident_name_table.rs:9-15 | The bytes consumed are exactly the encoding of the records read, in file order, then the terminator. |
| NameTable.ReadTableTruncated | src/ne/resident_name_table.rs:28-41 | A stream cut anywhere before the end of a table that reads fails the read. |
| NameTable.ReadTableOfTerminator | src/ne/resident_name_table.rs:31-33 | A zero length byte at the cursor gives an empty table and consumes that one byte. |
| NameTable.ReadEntries | src/ne/resident_name_table.rs:9-15 | The records up to the terminator; `NameTable.ReadEntriesSize`, `NameTable.ReadEntriesEncoding` and `NameTable.ReadEncodedEntries` state what it consumes and yields. |
| NameTable.ReadTable | src/ne/resident_name_table.rs:9-15 | The table that `NameTable.Read` is proved to compute; `NameTable.ReadTableTruncated` and `NameTable.ReadTableOfTerminator` state its properties. |
| NameTable.Read | src/ne/resident_name_table.rs:9-15 | The `while let` push loop computes the table read. |
| ModuleReferences.ReadHeader | src/ne/module_reference_table.rs:57-64 | Succeeds iff 2 bytes remain, and consumes them. |
| ModuleReferences.ReadHeadersShape | src/ne/module_reference_table.rs:9-14 | `num` headers are read iff `2 * num` bytes remain; there are exactly `num` and header `i` is the u16 at `pos + 2i`. |
| ModuleReferences.NameAtShape | src/ne/module_reference_table.rs:39-46 | The name is read iff its length byte and that many bytes are present, and then its length is that byte. |
| ModuleReferences.NameAt | src/ne/module_reference_table.rs:39-46 | A name read at `p` has at most 255 bytes; `ModuleReferences.NameAtShape` gives when it succeeds and its length. |
| ModuleReferences.ModuleReferenceEntry.constructor | src/ne/module_reference_table.rs:31-36 | A new entry holds its header and an empty name. |
| ModuleReferences.ModuleReferenceEntry.ReadName | src/ne/module_reference_table.rs:38-48 | Succeeds iff the name at `base + offset` can be read, and the name is then exactly those bytes. On a short name read the name is resized to the length byte. Only `name` changes. |
| ModuleReferences.ModuleReferenceTable.constructor | src/ne/module_reference_table.rs:9-14 | The table holds the given entries. |
| ModuleReferences.ModuleReferenceTable.ReadNames | src/ne/module_reference_table.rs:16-21 | Succeeds iff every entry's name can be read against the one base, and then every entry holds its name. The entry list itself never changes. |
| ModuleReferences.Read | src/ne/module_reference_table.rs:9-14 | Succeeds iff the headers read. The table then has exactly `num` fresh, distinct entries in order, each with its header and an empty name. |
| EntryTable.ReadFixedEntry | src/ne/entry_table.rs:80-87 | Succeeds iff 3 bytes remain, and consumes them. |
| EntryTable.ReadMoveableEntry | src/ne/entry_table.rs:100-110 | Succeeds iff 6 bytes remain, and consumes them. |
| EntryTable.ReadFixedBundle | src/ne/entry_table.rs:51-56 | `num` fixed entries are read iff `3 * num` bytes remain, consuming exactly those bytes. |
| EntryTable.ReadFixedBundleEntries | src/ne/entry_table.rs:51-56 | The bundle keeps its segment and has `num` entries; entry `i` is the flags byte and the little-endian offset of the `i`-th 3-byte record. |
| EntryTable.ReadMoveableBundle | src/ne/entry_table.rs:65-70 | `num` moveable entries are read iff `6 * num` bytes remain, consuming exactly those bytes. |
| EntryTable.ReadMoveableBundleEntries | src/ne/entry_table.rs:65-70 | The bundle has `num` entries; entry `i` is the flags, unknown, magic and segment bytes and the offset of the `i`-th 6-byte record. |
| EntryTable.ReadBundle | src/ne/entry_table.rs:30-41 | Every bundle read consumes at least its 2-byte header, so the table loop always advances. |
| EntryTable.ReadBundleShape | src/ne/entry_table.rs:30-41 | Indicator 0 gives `Unused` and consumes 2 bytes, ignoring the count. 1..0xFE gives `Fixed` with `2 + 3 * num` bytes, and 0xFF gives `Moveable` with `2 + 6 * num`. The bundle reads exactly when those bytes are present. |
| EntryTable.ReadBundleSize | src/ne/entry_table.rs:30-41 | A bundle read consumes exactly the bundle's size. |
| EntryTable.ReadBundlesEnd | src/ne/entry_table.rs:14-17 | The loop ends at or past `end`, having consumed exactly the bundles' sizes. |
| EntryTable.ReadTableOfEmpty | src/ne/entry_table.rs:11-17 | A length of 0 gives no bundles and leaves the cursor at `offset`. |
| EntryTable.ReadTableEnd | src/ne/entry_table.rs:11-19 | A successful read ends at or past `offset + length`, after exactly its bundles' bytes. |
| EntryTable.OverrunIsAccepted | src/ne/entry_table.rs:14-18 | A last bundle may run past `offset + length` without an error. |
| EntryTable.ReadBundles | src/ne/entry_table.rs:14-17 | The bundles read until the cursor reaches `end`; `EntryTable.ReadBundlesEnd` states where it stops and what it consumes. |
| EntryTable.ReadTable | src/ne/entry_table.rs:10-19 | The table that `EntryTable.Read` is proved to compute; `EntryTable.ReadTableOfEmpty` and `EntryTable.ReadTableEnd` state its properties. |
| EntryTable.Read | src/ne/entry_table.rs:10-19 | The seek and the `while pos < offset + length` loop compute the table read. |
| SegmentRelocations.DecodeEntry | src/ne/segment_relocations.rs:62-124 | A record fails to decode exactly when its relocation type (`flags & 3`) is 3. |
| SegmentRelocations.DecodeEntryFields | src/ne/segment_relocations.rs:62-124 | The address type is byte 0, the type is `flags & 3`, additive is bit 2 and the segment offset is bytes 2..4. Type 0 is `Internal` with byte 4, movable iff it is 0xFF, and bytes 6..8. Types 1 and 2 are the imports by ordinal and by name with bytes 4..6 and 6..8. |
| SegmentRelocations.ReadEntryDecodes | src/ne/segment_relocations.rs:62-124 | A record read succeeds iff its 8 bytes are present and its type is not 3, and it is their decoding. |
| SegmentRelocations.ReadTableOfCount | src/ne/segment_relocations.rs:54-61 | Without the 2-byte count the read fails; otherwise it is the count's worth of records after it. |
| SegmentRelocations.ReadTableSucceeds | src/ne/segment_relocations.rs:54-128 | The table reads iff the count and all `count` 8-byte records are present and none has type 3. |
| SegmentRelocations.ReadEntriesSucceed | src/ne/segment_relocations.rs:58-124 | `count` records read iff each is present and none has type 3. |
| SegmentRelocations.ReadTableEntries | src/ne/segment_relocations.rs:54-128 | On success there are exactly `count` entries in file order, each the decoding of its record, and `2 + 8 * count` bytes are consumed. |
| SegmentRelocations.ReadEntriesItems | src/ne/segment_relocations.rs:58-124 | `count` records read from `start` are the decodings of the consecutive 8-byte records there. |
| SegmentRelocations.ReadEntry | src/ne/segment_relocations.rs:62-124 | A successful record read consumes exactly 8 bytes; `SegmentRelocations.ReadEntryDecodes` gives when it succeeds and what it yields. |
| SegmentRelocations.ReadTable | src/ne/segment_relocations.rs:54-128 | The table that `SegmentRelocations.Read` is proved to compute; `SegmentRelocations.ReadTableSucceeds` and `SegmentRelocations.ReadTableEntries` state its properties. |
| SegmentRelocations.Read | src/ne/segment_relocations.rs:54-128 | The count read and the `for` loop, with its early return on type 3, compute the table read. |
| X86.FromId | src/x86.rs:206-209 | `from_id(v)` is the register numbered `v`. |
| X86.FromIdOfRegisterId | src/x86.rs:206-209 | Every register is the one its own number names. |
| X86.Len | src/x86.rs:90-97 | The length is 1 or 2, and 2 exactly for a register/memory operation. |
| X86.EatClassifies | src/x86.rs:36-81 | `eat` recognises exactly: 0x40..0x5F; arithmetic opcodes (below 0x40, bit 2 clear) with a second byte; 0x88..0x8B with a second byte. The result is at position 0. |
| X86.EatRegisterOp | src/x86.rs:37-44 | 0x40..0x5F is inc, dec, push or pop by row, of the register named by the low three bits, with length 1. |
| X86.EatAluOp | src/x86.rs:45-61 | With the corrected table (see Findings), an arithmetic opcode with a second byte is the operation of its row, with `inverse` from bit 1, `wide` from bit 0 and the next byte as ModRM, and length 2. |
| X86.EatMovOp | src/x86.rs:62-77 | 0x88..0x8B with a second byte is `mov` with the same flag and ModRM rule, and length 2. |
| X86.AluKindPerRow | src/x86.rs:50 | With the corrected table, two arithmetic opcodes get the same operation iff they are in the same row. |
| X86.AsWrittenMisclassifies | src/x86.rs:50 | As written, 0x28 0xC0 (`sub al, al`) is classified as `or`, where the corrected table gives `sub`; 0x20 decodes as `add`. |
| X86.AsWrittenMissesUpperRows | src/x86.rs:50 | As written, no opcode decodes to `and`, `sub`, `xor` or `cmp`. |
| X86.EatAgreesWithAsWritten | src/x86.rs:45-61 | The two versions recognise the same bytes with the same lengths, agree below 0x20, and differ on the kind of every arithmetic opcode of rows 4..7. |
| X86.EatAsWritten | src/x86.rs:36-81 | `eat` as written: a recognised instruction is at position 0 and never claims more bytes than are present. |
| X86.Eat | src/x86.rs:36-81 | `eat` with the corrected table (see Findings): a recognised instruction is at position 0 and never claims more bytes than are present. |
| X86.DecodeAt | src/x86.rs:7-11 | One loop step yields an instruction at `pos` that ends within the code. |
| X86.DecodeAtUnknown | src/x86.rs:7-10 | A step yields `Unknown(code[pos])` of length 1 exactly when `eat` rejects the bytes at `pos`. |
| X86.DisassemblyCovers | src/x86.rs:5-13 | The listing is empty iff there is no code. It starts at `pos` and ends at the end of the code. Each instruction starts where the previous one ends and is the decoding at its own position. |
| X86.DisassemblyChained | src/x86.rs:5-13 | Positions start at `pos`, each is the previous position plus the previous length, and the last instruction ends at the end of the code. |
| X86.DisassemblyDecodes | src/x86.rs:6-13 | Every recorded instruction lies within the code and is the decoding at its own position. |
| X86.DisassemblyLength | src/x86.rs:6-13 | The lengths sum to exactly the number of bytes decoded, so the count lies between half of them and all of them. |
| X86.DisassemblyPositionsAgree | src/x86.rs:6-13 | The loop records the same positions whichever lookup table `eat` uses. |
| X86.DecodeLengthsAgree | src/x86.rs:7-12 | A step has the same length whichever lookup table `eat` uses. |
| X86.DecodeAtAsWritten | src/x86.rs:7-11 | A step with `eat` as written yields an instruction at `pos` that ends within the code. |
| X86.Disassembly | src/x86.rs:5-13 | The listing `X86.Disassemble` is proved to compute: empty exactly when no code remains, and at most one instruction per remaining byte. |
| X86.DisassemblyAsWritten | src/x86.rs:5-13 | The listing with `eat` as written: empty exactly when no code remains, and at most one instruction per remaining byte. |
| X86.Split233 | src/x86.rs:226-228 | The fields are below 4, 8 and 8 and recompose to the byte as `m*64 + r*8 + x`. |
| X86.Split233Unique | src/x86.rs:226-228 | Any fields in range that recompose to the byte are its split. |
| X86.DisassemblyStep | src/x86.rs:6-13 | One loop iteration appends the instruction at `pos` and continues from `pos + len`. |
| X86.Disassemble | src/x86.rs:3-14 | The `while pos < code.len()` loop produces exactly the listing from position 0 with the corrected `eat`; the listing with `eat` as written records the same positions and lengths (`X86.DisassemblyPositionsAgree`, `X86.DecodeLengthsAgree`). |
| Executable.ReadResourceTable | src/ne/mod.rs:60-66 | A count of 0xFFFF gives exactly the alternate reader's result. Any other count succeeds iff the count-bounded reader does, and gives its table: well formed, with exactly that many types, and whose encoding is the bytes at the cursor. |
| Executable.TablesAt | src/ne/mod.rs:51-92 | The tables read keep the two headers they were read with (an unfolding the proofs use). |
| Executable.ReadSegments | src/ne/mod.rs:51-57 | Succeeds iff the `segment_count` records at `lfanew + segment_table_offset` read. Each segment is fresh, with its header in table order, the header's shift count and no data. |
| Executable.LoadSegmentData | src/ne/mod.rs:95-97 | Succeeds iff every segment's data fits the file, and then every segment holds its data. |
| Executable.ReadLeading | src/ne/mod.rs:51-71 | Succeeds iff the segment, resource and resident-name reads at their `lfanew`-relative offsets do, and yields their values. |
| Executable.ReadResidentTables | src/ne/mod.rs:60-71 | Computes the resource table and resident-name table reads at `lfanew` plus their fields. |
| Executable.ReadTrailing | src/ne/mod.rs:74-92 | Succeeds iff the module-reference, entry and nonresident-name reads do. Yields fresh entries with the headers in order; the entry table comes from `lfanew + entry_table_offset` and the nonresident names from their absolute offset. |
| Executable.ResolveAndLoad | src/ne/mod.rs:80-97 | The second pass succeeds iff every module name resolves at the import-name base and every segment's data fits, and then both are filled in. |
| Executable.Load | src/ne/mod.rs:80-97 | On an executable built from the tables read, the second pass succeeds under the same condition, and the executable then holds the tables. |
| Executable.ReadTablesOfHeaders | src/ne/mod.rs:39-49 | Once both headers are read and checked, the tables are those at the offsets these headers give (an unfolding of `ReadTables` the proofs use). |
| Executable.HeadersOfRead | src/ne/mod.rs:39-49 | In a file that reads, the DOS header is the first 64 bytes and carries "MZ", `lfanew` is the u32 at 0x3C, and the NE header is the 64 bytes at `lfanew` and carries "NE". |
| Executable.DosHeaderOfRead | src/ne/mod.rs:39-45 | The DOS header read is the decoding of the first 64 bytes and carries "MZ"; `lfanew` is the u32 at 0x3C. |
| Executable.ShortFileFails | src/ne/mod.rs:39-40 | A file shorter than 64 bytes does not read. |
| Executable.BadDosMagicFails | src/ne/mod.rs:39-41 | A file not starting with "MZ" does not read, whatever follows. |
| Executable.LeadingTablesOffsets | src/ne/mod.rs:51-71 | The segment, resource and resident-name tables are the reads at `lfanew` plus their header fields (an unfolding of `TablesAt` the proofs use). |
| Executable.TrailingTablesOffsets | src/ne/mod.rs:74-92 | The module-reference and entry tables are the reads at `lfanew` plus their fields; the nonresident-name table is the read at its absolute offset (an unfolding of `TablesAt` the proofs use). |
| Executable.TableOffsets | src/ne/mod.rs:51-92 | The tables of a file that reads are those at the offsets its own headers give. |
| Executable.ReadTables | src/ne/mod.rs:38-92 | The headers and tables `read` takes before its second pass; `Executable.HeadersOfRead` and `Executable.TableOffsets` state where each comes from. |
| Executable.ReadSucceeds | src/ne/mod.rs:38-109 | The condition under which `Executable.Read` succeeds: every table reads, every module name resolves and every segment's data fits. |
| Executable.Read | src/ne/mod.rs:38-109 | `read` succeeds iff every step succeeds, every module name resolves and all segment data loads. The executable then holds the checked headers, every table as read at its offset, the segments with their data and the module references with their names. |

## Left out

- I/O: `Read`/`Seek` become a cursor into an immutable byte sequence. A seek never fails, and every `io::Error` kind becomes the single failure `None`.
- `log::debug!` calls, `NeExecutable::describe`, the printing half of `disassemble` and every `Display`/`name*` function are text output, not decoding.
- `src/main.rs` (opening the file, `BufReader`, logger set-up) is not part of this model.
- `NeResourceTable::read_variadic` and `EntryTable::read_sf` are defined nowhere in the repository. They are the uninterpreted parameters `readVariadic` and `readSf`, and nothing is assumed about them.
- `ne/segment_entry.rs` and `ne/segment_relocations.rs` are not declared as submodules of `ne/mod.rs`. They are modelled standalone, and `read` does not use them.
- Host-endianness (`to_le`/`from_le`), the `bytemuck::TransparentWrapper` reinterpretation and the derived `Ord`, `Hash` and `Debug` are not modelled. The wrappers are modelled by their byte layout.
- u64 and usize cursor arithmetic is unbounded `nat`. A cursor or offset past 2^64 cannot arise from the u16 and u32 fields here.
- SegmentTable.NeSegment.ReadData: a shift count of 64 or more makes Rust's `<<` panic in a debug build (a release build shifts by the count mod 64); the model counts it as a failed read that leaves `data` unchanged.
- SegmentTable.ShiftLeft64: nothing checks the shift count before the shift, so a count of 64 or more reaches it. A debug build panics there; the model computes the release build's `v << (s % 64)`.
- SegmentTable.NeSegment.DataOffset: the same shift, so for a shift count of 64 or more it gives the release build's masked value, where a debug build panics.
- SegmentEntry.DataOffset: the same shift by `file_alignment_shift_count`, so for a count of 64 or more it gives the release build's masked value, where a debug build panics.
- SegmentTable.NeSegment.ReadData: after a failed read that got past the resize, only the length of `data` is specified, not its contents.
- ModuleReferences.ModuleReferenceEntry.ReadName: after a short read of the name bytes, only the length of `name` is specified, not its contents.
- ModuleReferences.ModuleReferenceTable.ReadNames: after a failure, it does not say which names were already resolved; `Executable.Read` then returns no executable anyway.
- Executable.ResolveAndLoad: `read` calls `read_names` before it reads the entry and nonresident-name tables. The model calls it after them, together with the segment-data pass. Every read is a pure function of the bytes and every failure gives `None`, so the outcome is the same.
- NameTable.ReadEntry: the three `read_exact` calls (length byte, name, index) are written as one bounds check on the remaining bytes. The outcome is the same.
- X86.Disassemble: it uses the corrected `eat` (see Findings). The listing with `eat` as written is `X86.DisassemblyAsWritten`, proved to record the same positions and lengths.
- The `.value()` calls in `ne/mod.rs` on fields that `mz.rs` and `ne/header.rs` declare as plain integers are read as those integers.

## Findings

| source | as written | input that shows it | evidently intended | confidence | as-written member | corrected member |
|---|---|---|---|---|---|---|
| src/x86.rs:50 | `[Add, Or, Adc, Sbb, Add, Sub, Xor, Cmp][(code[0] >> 3) as usize & 3]`: the index keeps only two bits of the opcode row, and the table lists `Add` where `And` belongs | `0x28 0xC0` (`sub al, al`) decodes as `or`; `0x20 0xC0` (`and al, al`) decodes as `add` | the row `(code[0] >> 3) & 7` indexes `[Add, Or, Adc, Sbb, And, Sub, Xor, Cmp]`, so each of the eight operations comes from exactly one row | high (not executed) | X86.EatAsWritten, shown by X86.AsWrittenMisclassifies and X86.AsWrittenMissesUpperRows | X86.Eat, proved by X86.AluKindPerRow and X86.EatAluOp |
