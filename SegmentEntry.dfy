/**
 * The alternate, self-contained segment record of src/ne/segment_entry.rs:
 * the same 8-byte layout as a segment header, with the alignment shift
 * taken from the NE header when the data offset is computed.
 */
module SegmentEntry {

  import opened Endian
  import opened Stream
  import Header
  import SegmentTable

  datatype NeSegment = NeSegment(
    dataOffset: u16,
    dataLength: u16,
    flags: u16,
    minAlloc: u16)

  /** `NeSegment::read`: one 8-byte read, then the little-endian words at 0, 2, 4 and 6. */
  function Read(src: seq<byte>, pos: nat): (r: Option<Parsed<NeSegment>>)
    ensures r.Some? <==> pos + SegmentTable.SegmentHeaderSize <= |src|
    ensures r.Some? ==> r.value.next == pos + SegmentTable.SegmentHeaderSize
    ensures r.Some? ==> var s := r.value.value;
      && s.dataOffset == GetU16(src, pos) && s.dataLength == GetU16(src, pos + 2)
      && s.flags == GetU16(src, pos + 4) && s.minAlloc == GetU16(src, pos + 6)
  {
    var buf :- ReadExact(src, pos, SegmentTable.SegmentHeaderSize);
    var b := buf.value;
    Some(Parsed(NeSegment(GetU16(b, 0), GetU16(b, 2), GetU16(b, 4), GetU16(b, 6)), buf.next))
  }

  /** This record and the segment table's header are read from the same bytes, field for field. */
  lemma ReadAgreesWithSegmentHeader(src: seq<byte>, pos: nat)
    ensures Read(src, pos).Some? <==> SegmentTable.ReadSegmentHeader(src, pos).Some?
    ensures Read(src, pos).Some? ==>
      var s := Read(src, pos).value;
      var h := SegmentTable.ReadSegmentHeader(src, pos).value;
      && s.next == h.next
      && s.value.dataOffset == h.value.dataOffsetShifted && s.value.dataLength == h.value.dataLength
      && s.value.flags == h.value.flags && s.value.minAlloc == h.value.minAlloc
  {
  }

  /** `data_offset(header)`: the stored offset shifted by the header's alignment shift. */
  function DataOffset(s: NeSegment, header: Header.NeHeader): (r: nat)
    ensures r == (s.dataOffset * SegmentTable.Pow2(header.fileAlignmentShiftCount % 64)) % SegmentTable.U64Modulus
    ensures header.fileAlignmentShiftCount <= 48 ==>
      r == s.dataOffset * SegmentTable.Pow2(header.fileAlignmentShiftCount)
  {
    SegmentTable.ShiftLeft64(s.dataOffset, header.fileAlignmentShiftCount)
  }

  /** `data_length`: 0 stands for 0x10000. */
  function DataLength(s: NeSegment): (r: nat)
    ensures 1 <= r <= 0x1_0000 && r % 0x1_0000 == s.dataLength
    ensures r == 0x1_0000 <==> s.dataLength == 0
  {
    SegmentTable.SizeOf(s.dataLength)
  }

  /** `min_alloc`: 0 stands for 0x10000. */
  function MinAlloc(s: NeSegment): (r: nat)
    ensures 1 <= r <= 0x1_0000 && r % 0x1_0000 == s.minAlloc
    ensures r == 0x1_0000 <==> s.minAlloc == 0
  {
    SegmentTable.SizeOf(s.minAlloc)
  }
}
