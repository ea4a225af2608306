/**
 * Segment table records (src/ne/segment_table.rs): an 8-byte header per
 * segment, tagged with the file's alignment shift, whose data is loaded
 * later, in place, by `read_data`.
 */
module SegmentTable {

  import opened Endian
  import opened Stream

  const SegmentHeaderSize: nat := 8
  const U64Modulus: nat := 0x1_0000_0000_0000_0000

  datatype NeSegmentHeader = NeSegmentHeader(
    dataOffsetShifted: u16,
    dataLength: u16,
    flags: u16,
    minAlloc: u16)

  /** The header whose fields are the four words of its image, in order. */
  function DecodeSegmentHeader(buf: seq<byte>): (h: NeSegmentHeader)
    requires |buf| == SegmentHeaderSize
  {
    NeSegmentHeader(GetU16(buf, 0), GetU16(buf, 2), GetU16(buf, 4), GetU16(buf, 6))
  }

  function EncodeSegmentHeader(h: NeSegmentHeader): (buf: seq<byte>)
    ensures |buf| == SegmentHeaderSize
  {
    WordBytes([h.dataOffsetShifted, h.dataLength, h.flags, h.minAlloc])
  }

  lemma DecodeEncodeSegmentHeader(h: NeSegmentHeader)
    ensures DecodeSegmentHeader(EncodeSegmentHeader(h)) == h
  {
    var ws := [h.dataOffsetShifted, h.dataLength, h.flags, h.minAlloc];
    WordsOfWordBytes(ws);
    assert Words(EncodeSegmentHeader(h))[3] == GetU16(EncodeSegmentHeader(h), 6);
  }

  lemma EncodeDecodeSegmentHeader(buf: seq<byte>)
    requires |buf| == SegmentHeaderSize
    ensures EncodeSegmentHeader(DecodeSegmentHeader(buf)) == buf
  {
    var ws := Words(buf);
    assert ws == [GetU16(buf, 0), GetU16(buf, 2), GetU16(buf, 4), GetU16(buf, 6)];
    WordBytesOfWords(buf);
  }

  /** `NeSegmentHeader::read`: one 8-byte read, then four little-endian words. */
  function ReadSegmentHeader(src: seq<byte>, pos: nat): (r: Option<Parsed<NeSegmentHeader>>)
    ensures r.Some? <==> pos + SegmentHeaderSize <= |src|
    ensures r.Some? ==> r.value.next == pos + SegmentHeaderSize
    ensures r.Some? ==> r.value.value == DecodeSegmentHeader(src[pos..pos + SegmentHeaderSize])
  {
    var buf :- ReadExact(src, pos, SegmentHeaderSize);
    Some(Parsed(DecodeSegmentHeader(buf.value), buf.next))
  }

  function Pow2(n: nat): (r: nat)
    ensures r >= 1
  {
    if n == 0 then 1 else 2 * Pow2(n - 1)
  }

  lemma {:induction false} Pow2Add(a: nat, b: nat)
    ensures Pow2(a + b) == Pow2(a) * Pow2(b)
  {
    if b > 0 {
      Pow2Add(a, b - 1);
      assert Pow2(a + b) == 2 * Pow2(a + b - 1);
    }
  }

  lemma {:induction false} Pow2Monotone(a: nat, b: nat)
    requires a <= b
    ensures Pow2(a) <= Pow2(b)
  {
    if a < b {
      Pow2Monotone(a, b - 1);
    }
  }

  lemma Pow2Of48()
    ensures Pow2(48) == 0x1_0000_0000_0000
  {
    assert Pow2(4) == 16 by {
      assert Pow2(1) == 2;
      assert Pow2(2) == 4;
      assert Pow2(3) == 8;
    }
    Pow2Add(4, 4);
    assert Pow2(8) == 0x100;
    Pow2Add(8, 8);
    assert Pow2(16) == 0x1_0000;
    Pow2Add(16, 16);
    assert Pow2(32) == 0x1_0000_0000;
    Pow2Add(32, 16);
  }

  /**
   * `(v as u64) << s` as a release build computes it: the shift amount is
   * taken modulo 64, and bits above bit 63 are lost.
   */
  function ShiftLeft64(v: u16, s: nat): (r: nat)
    ensures r == (v * Pow2(s % 64)) % U64Modulus
    ensures s <= 48 ==> r == v * Pow2(s)
  {
    if s <= 48 then
      ShiftWithin64(v, s);
      v * Pow2(s)
    else
      (v * Pow2(s % 64)) % U64Modulus
  }

  /** A 16-bit value shifted by at most 48 bits fits 64 bits. */
  lemma ShiftWithin64(v: u16, s: nat)
    requires s <= 48
    ensures v * Pow2(s) < U64Modulus
  {
    Pow2Monotone(s, 48);
    Pow2Of48();
    ProductBelow(v, 0x1_0000, Pow2(s), 0x1_0000_0000_0000);
  }

  /** A product of factors below their bounds is below the product of the bounds. */
  lemma ProductBelow(a: nat, bound: nat, b: nat, limit: nat)
    requires a < bound && 0 < b <= limit
    ensures a * b < bound * limit
  {
    assert a * b <= a * limit;
    assert a * limit < bound * limit;
  }

  /** A u16 size field in which 0 stands for 0x10000. */
  function SizeOf(stored: u16): (n: nat)
    ensures 1 <= n <= 0x1_0000
    ensures n % 0x1_0000 == stored
  {
    if stored == 0 then 0x1_0000 else stored
  }

  /** `SizeOf` is the unique size in 1..0x10000 with the stored value as its low 16 bits. */
  lemma SizeOfUnique(stored: u16, n: nat)
    requires 1 <= n <= 0x1_0000 && n % 0x1_0000 == stored
    ensures n == SizeOf(stored)
  {
  }

  /** A segment table entry: its header, the file's alignment shift, and its loaded data. */
  class NeSegment {
    const header: NeSegmentHeader
    const shiftCount: u16
    var data: seq<byte>

    /** The value built by `NeSegment::read` once the header is read: no data yet. */
    constructor (header: NeSegmentHeader, shiftCount: u16)
      ensures this.header == header && this.shiftCount == shiftCount && data == []
    {
      this.header := header;
      this.shiftCount := shiftCount;
      data := [];
    }

    /** `data_offset`: the stored sector offset shifted left by the alignment shift. */
    function DataOffset(): (r: nat)
      ensures r == (header.dataOffsetShifted * Pow2(shiftCount % 64)) % U64Modulus
      ensures shiftCount <= 48 ==> r == header.dataOffsetShifted * Pow2(shiftCount)
    {
      ShiftLeft64(header.dataOffsetShifted, shiftCount)
    }

    /** `data_length`: 0 stands for 0x10000. */
    function DataLength(): (r: nat)
      ensures 1 <= r <= 0x1_0000 && r % 0x1_0000 == header.dataLength
    {
      SizeOf(header.dataLength)
    }

    /** `min_alloc`: 0 stands for 0x10000. */
    function MinAlloc(): (r: nat)
      ensures 1 <= r <= 0x1_0000 && r % 0x1_0000 == header.minAlloc
    {
      SizeOf(header.minAlloc)
    }

    /**
     * `read_data`: seek to the data offset, resize `data` to the data length,
     * and fill it from the source. A shift of 64 or more, which makes Rust's
     * `<<` panic, fails without touching `data`.
     */
    method ReadData(src: seq<byte>) returns (ok: bool)
      modifies this`data
      ensures ok <==> shiftCount < 64 && DataOffset() + DataLength() <= |src|
      ensures ok ==> data == src[DataOffset()..DataOffset() + DataLength()]
      ensures !ok && shiftCount < 64 ==> |data| == DataLength()
      ensures !ok && shiftCount >= 64 ==> data == old(data)
    {
      if shiftCount >= 64 {
        return false;
      }
      var offset := DataOffset();
      var length := DataLength();
      data := Resized(data, length);
      var read := ReadExact(src, offset, length);
      if read.None? {
        return false;
      }
      data := read.value.value;
      ok := true;
    }
  }

  /** `NeSegment::read`: a segment header at the cursor, tagged with the shift, with empty data. */
  method ReadSegment(src: seq<byte>, pos: nat, shiftCount: u16) returns (r: Option<Parsed<NeSegment>>)
    ensures r.Some? <==> pos + SegmentHeaderSize <= |src|
    ensures r.Some? ==> r.value.next == pos + SegmentHeaderSize && fresh(r.value.value)
    ensures r.Some? ==> r.value.value.header == DecodeSegmentHeader(src[pos..pos + SegmentHeaderSize])
    ensures r.Some? ==> r.value.value.shiftCount == shiftCount && r.value.value.data == []
  {
    var header := ReadSegmentHeader(src, pos);
    if header.None? {
      return None;
    }
    var segment := new NeSegment(header.value.value, shiftCount);
    r := Some(Parsed(segment, header.value.next));
  }
}
