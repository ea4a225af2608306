/**
 * The 64-byte New Executable header (src/ne/header.rs). Its u16 and u32
 * fields all sit at even offsets; the four pairs of one-byte fields fill
 * the words at offsets 0, 2, 0x36 and 0x3E. The image is therefore handled
 * as 32 little-endian words, as for the DOS header.
 */
module Header {

  import opened Endian
  import opened Stream

  const NeHeaderSize: nat := 0x40

  /** `b"NE"`. */
  const NeMagic: seq<byte> := [0x4E, 0x45]

  datatype NeHeader = NeHeader(
    magic: seq<byte>,
    majorLinkerVersion: u8,
    minorLinkerVersion: u8,
    entryTableOffset: u16,
    entryTableLength: u16,
    fileLoadCrc: u32,
    flags: u16,
    autoDataSegmentIndex: u16,
    initHeapSize: u16,
    initStackSize: u16,
    entryPoint: u32,
    initStack: u32,
    segmentCount: u16,
    moduleReferences: u16,
    nonResidentNamesSize: u16,
    segmentTableOffset: u16,
    resourceTableOffset: u16,
    residentNamesTableOffset: u16,
    moduleReferenceTableOffset: u16,
    importNameTableOffset: u16,
    nonResidentNamesTableOffset: u32,
    movableEntryPointCount: u16,
    fileAlignmentShiftCount: u16,
    resourceTableEntries: u16,
    targetOs: u8,
    os2ExeFlags: u8,
    returnThunkOffset: u16,
    segmentReferenceThunkOffset: u16,
    minCodeSwap: u16,
    expectedWinVer: seq<byte>)
  {
    /** The two byte arrays have their fixed length `[u8; 2]`. */
    predicate WellFormed() { |magic| == 2 && |expectedWinVer| == 2 }
  }

  /** The header whose fields are the 32 words of its image, in declaration order. */
  function FromWords(w: seq<u16>): (h: NeHeader)
    requires |w| == NeHeaderSize / 2
    ensures h.WellFormed()
  {
    NeHeader(
      magic := [Lo(w[0]), Hi(w[0])],
      majorLinkerVersion := Lo(w[1]),
      minorLinkerVersion := Hi(w[1]),
      entryTableOffset := w[2],
      entryTableLength := w[3],
      fileLoadCrc := w[4] as int + 0x1_0000 * w[5] as int,
      flags := w[6],
      autoDataSegmentIndex := w[7],
      initHeapSize := w[8],
      initStackSize := w[9],
      entryPoint := w[10] as int + 0x1_0000 * w[11] as int,
      initStack := w[12] as int + 0x1_0000 * w[13] as int,
      segmentCount := w[14],
      moduleReferences := w[15],
      nonResidentNamesSize := w[16],
      segmentTableOffset := w[17],
      resourceTableOffset := w[18],
      residentNamesTableOffset := w[19],
      moduleReferenceTableOffset := w[20],
      importNameTableOffset := w[21],
      nonResidentNamesTableOffset := w[22] as int + 0x1_0000 * w[23] as int,
      movableEntryPointCount := w[24],
      fileAlignmentShiftCount := w[25],
      resourceTableEntries := w[26],
      targetOs := Lo(w[27]),
      os2ExeFlags := Hi(w[27]),
      returnThunkOffset := w[28],
      segmentReferenceThunkOffset := w[29],
      minCodeSwap := w[30],
      expectedWinVer := [Lo(w[31]), Hi(w[31])])
  }

  /** The 32 words of a header's image; byte pairs share a word, u32 fields take two. */
  function ToWords(h: NeHeader): (w: seq<u16>)
    requires h.WellFormed()
    ensures |w| == NeHeaderSize / 2
  {
    [Word(h.magic[0], h.magic[1]), Word(h.majorLinkerVersion, h.minorLinkerVersion),
     h.entryTableOffset, h.entryTableLength,
     LoWord(h.fileLoadCrc), HiWord(h.fileLoadCrc),
     h.flags, h.autoDataSegmentIndex, h.initHeapSize, h.initStackSize,
     LoWord(h.entryPoint), HiWord(h.entryPoint),
     LoWord(h.initStack), HiWord(h.initStack),
     h.segmentCount, h.moduleReferences, h.nonResidentNamesSize,
     h.segmentTableOffset, h.resourceTableOffset, h.residentNamesTableOffset,
     h.moduleReferenceTableOffset, h.importNameTableOffset,
     LoWord(h.nonResidentNamesTableOffset), HiWord(h.nonResidentNamesTableOffset),
     h.movableEntryPointCount, h.fileAlignmentShiftCount, h.resourceTableEntries,
     Word(h.targetOs, h.os2ExeFlags),
     h.returnThunkOffset, h.segmentReferenceThunkOffset, h.minCodeSwap,
     Word(h.expectedWinVer[0], h.expectedWinVer[1])]
  }

  lemma FromToWords(h: NeHeader)
    requires h.WellFormed()
    ensures FromWords(ToWords(h)) == h
  {
    U16OfBytes(h.magic[0], h.magic[1]);
    U16OfBytes(h.majorLinkerVersion, h.minorLinkerVersion);
    U16OfBytes(h.targetOs, h.os2ExeFlags);
    U16OfBytes(h.expectedWinVer[0], h.expectedWinVer[1]);
    U32Words(h.fileLoadCrc);
    U32Words(h.entryPoint);
    U32Words(h.initStack);
    U32Words(h.nonResidentNamesTableOffset);
  }

  lemma ToFromWords(w: seq<u16>)
    requires |w| == NeHeaderSize / 2
    ensures ToWords(FromWords(w)) == w
  {
    var v := ToWords(FromWords(w));
    ToFromLowWords(w);
    ToFromHighWords(w);
    assert v == v[..16] + v[16..];
    assert w == w[..16] + w[16..];
  }

  /** The words at offsets 0 to 0x1F come back from the fields. */
  lemma ToFromLowWords(w: seq<u16>)
    requires |w| == NeHeaderSize / 2
    ensures ToWords(FromWords(w))[..16] == w[..16]
  {
    U16Bytes(w[0]);
    U16Bytes(w[1]);
    U32OfWords(w[4], w[5]);
    U32OfWords(w[10], w[11]);
    U32OfWords(w[12], w[13]);
    var h := FromWords(w);
    assert Word(h.magic[0], h.magic[1]) == w[0] && Word(h.majorLinkerVersion, h.minorLinkerVersion) == w[1];
    assert LoWord(h.fileLoadCrc) == w[4] && HiWord(h.fileLoadCrc) == w[5];
    assert LoWord(h.entryPoint) == w[10] && HiWord(h.entryPoint) == w[11];
    assert LoWord(h.initStack) == w[12] && HiWord(h.initStack) == w[13];
    var v := ToWords(h);
    forall i | 0 <= i < 16 ensures v[i] == w[i] {
    }
  }

  /** The words at offsets 0x20 to 0x3F come back from the fields. */
  lemma ToFromHighWords(w: seq<u16>)
    requires |w| == NeHeaderSize / 2
    ensures ToWords(FromWords(w))[16..] == w[16..]
  {
    U16Bytes(w[27]);
    U16Bytes(w[31]);
    U32OfWords(w[22], w[23]);
    var h := FromWords(w);
    assert Word(h.targetOs, h.os2ExeFlags) == w[27] && Word(h.expectedWinVer[0], h.expectedWinVer[1]) == w[31];
    assert LoWord(h.nonResidentNamesTableOffset) == w[22] && HiWord(h.nonResidentNamesTableOffset) == w[23];
    var v := ToWords(h);
    forall i | 16 <= i < 32 ensures v[i] == w[i] {
    }
  }

  /** The field extraction of `NeHeader::read` over the 64-byte buffer. */
  function DecodeNeHeader(buf: seq<byte>): (h: NeHeader)
    requires |buf| == NeHeaderSize
    ensures h.WellFormed()
  {
    FromWords(Words(buf))
  }

  /** The 64 bytes a header is read from. */
  function EncodeNeHeader(h: NeHeader): (buf: seq<byte>)
    requires h.WellFormed()
    ensures |buf| == NeHeaderSize
  {
    WordBytes(ToWords(h))
  }

  /** The byte fields are the raw bytes at their offsets. */
  lemma DecodeNeHeaderBytes(buf: seq<byte>)
    requires |buf| == NeHeaderSize
    ensures var h := DecodeNeHeader(buf);
      && h.magic == buf[0..2]
      && h.majorLinkerVersion == buf[2] && h.minorLinkerVersion == buf[3]
      && h.targetOs == buf[0x36] && h.os2ExeFlags == buf[0x37]
      && h.expectedWinVer == buf[0x3E..0x40]
  {
    U16OfBytes(buf[0], buf[1]);
    U16OfBytes(buf[2], buf[3]);
    U16OfBytes(buf[0x36], buf[0x37]);
    U16OfBytes(buf[0x3E], buf[0x3F]);
  }

  /** The u16 and u32 fields are the little-endian values at their offsets. */
  lemma DecodeNeHeaderWords(buf: seq<byte>)
    requires |buf| == NeHeaderSize
    ensures var h := DecodeNeHeader(buf);
      && h.entryTableOffset == GetU16(buf, 4) && h.entryTableLength == GetU16(buf, 6)
      && h.fileLoadCrc == GetU32(buf, 8) && h.flags == GetU16(buf, 0xC)
      && h.autoDataSegmentIndex == GetU16(buf, 0xE) && h.initHeapSize == GetU16(buf, 0x10)
      && h.initStackSize == GetU16(buf, 0x12) && h.entryPoint == GetU32(buf, 0x14)
      && h.initStack == GetU32(buf, 0x18) && h.segmentCount == GetU16(buf, 0x1C)
      && h.moduleReferences == GetU16(buf, 0x1E) && h.nonResidentNamesSize == GetU16(buf, 0x20)
      && h.segmentTableOffset == GetU16(buf, 0x22) && h.resourceTableOffset == GetU16(buf, 0x24)
      && h.residentNamesTableOffset == GetU16(buf, 0x26)
      && h.moduleReferenceTableOffset == GetU16(buf, 0x28)
      && h.importNameTableOffset == GetU16(buf, 0x2A)
      && h.nonResidentNamesTableOffset == GetU32(buf, 0x2C)
      && h.movableEntryPointCount == GetU16(buf, 0x30)
      && h.fileAlignmentShiftCount == GetU16(buf, 0x32)
      && h.resourceTableEntries == GetU16(buf, 0x34)
      && h.returnThunkOffset == GetU16(buf, 0x38)
      && h.segmentReferenceThunkOffset == GetU16(buf, 0x3A)
      && h.minCodeSwap == GetU16(buf, 0x3C)
  {
    var w := Words(buf);
    assert w[4] == GetU16(buf, 8) && w[5] == GetU16(buf, 0xA);
    assert w[10] == GetU16(buf, 0x14) && w[11] == GetU16(buf, 0x16);
    assert w[12] == GetU16(buf, 0x18) && w[13] == GetU16(buf, 0x1A);
    assert w[22] == GetU16(buf, 0x2C) && w[23] == GetU16(buf, 0x2E);
  }

  /** `NeHeader::read`: one 64-byte read at the cursor, then field extraction. */
  function ReadNeHeader(src: seq<byte>, pos: nat): (r: Option<Parsed<NeHeader>>)
    ensures r.Some? <==> pos + NeHeaderSize <= |src|
    ensures r.Some? ==> r.value.next == pos + NeHeaderSize
    ensures r.Some? ==> r.value.value == DecodeNeHeader(src[pos..pos + NeHeaderSize])
  {
    var buf :- ReadExact(src, pos, NeHeaderSize);
    Some(Parsed(DecodeNeHeader(buf.value), buf.next))
  }

  /** `NeHeader::check_magic`. */
  predicate CheckMagic(h: NeHeader)
  {
    h.magic == NeMagic
  }

  /** The magic check accepts exactly the buffers that start with the bytes 'N' 'E'. */
  lemma CheckMagicIffNE(buf: seq<byte>)
    requires |buf| == NeHeaderSize
    ensures CheckMagic(DecodeNeHeader(buf)) <==> buf[0] == 0x4E && buf[1] == 0x45
  {
    DecodeNeHeaderBytes(buf);
  }

  /** Every byte of the buffer lands in exactly one field. */
  lemma EncodeDecodeNeHeader(buf: seq<byte>)
    requires |buf| == NeHeaderSize
    ensures EncodeNeHeader(DecodeNeHeader(buf)) == buf
  {
    ToFromWords(Words(buf));
    WordBytesOfWords(buf);
  }

  /** Each field is read back from the offset it is encoded at. */
  lemma DecodeEncodeNeHeader(h: NeHeader)
    requires h.WellFormed()
    ensures DecodeNeHeader(EncodeNeHeader(h)) == h
  {
    WordsOfWordBytes(ToWords(h));
    FromToWords(h);
  }
}
