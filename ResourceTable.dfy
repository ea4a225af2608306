/**
 * The resource table (src/ne/resource_table.rs): a 2-byte alignment-shift
 * header, then a caller-given number of resource types, each an 8-byte type
 * header followed by as many 12-byte resource headers as it announces.
 * Every `collect` over a `0..n` range is `Stream.ReadMany`.
 */
module ResourceTable {

  import opened Endian
  import opened Stream

  const TableHeaderSize: nat := 2
  const TypeHeaderSize: nat := 8
  const ResourceHeaderSize: nat := 12

  datatype NeResourceTableHeader = NeResourceTableHeader(alignmentShiftCount: u16)

  datatype NeResourceTypeHeader = NeResourceTypeHeader(typeId: u16, numResources: u16, res: (u16, u16))

  datatype NeResourceHeader = NeResourceHeader(
    dataOffsetShifted: u16,
    dataLength: u16,
    flags: u16,
    resourceId: u16,
    res: (u16, u16))

  datatype NeResource = NeResource(header: NeResourceHeader)

  datatype NeResourceType = NeResourceType(header: NeResourceTypeHeader, resources: seq<NeResource>)
  {
    /** The type holds as many resources as it announces. */
    predicate WellFormed()
    {
      |resources| == header.numResources
    }
  }

  /** Every type of the sequence is well formed. */
  predicate TypesWellFormed(ts: seq<NeResourceType>)
  {
    forall i :: 0 <= i < |ts| ==> TypeWellFormed(ts[i])
  }

  datatype NeResourceTable = NeResourceTable(header: NeResourceTableHeader, resourceTypes: seq<NeResourceType>)
  {
    predicate WellFormed()
    {
      TypesWellFormed(resourceTypes)
    }
  }

  // Decoding of the fixed-size records.

  function DecodeResourceHeader(buf: seq<byte>): (h: NeResourceHeader)
    requires |buf| == ResourceHeaderSize
  {
    NeResourceHeader(GetU16(buf, 0), GetU16(buf, 2), GetU16(buf, 4), GetU16(buf, 6),
                     (GetU16(buf, 8), GetU16(buf, 10)))
  }

  function DecodeTypeHeader(buf: seq<byte>): (h: NeResourceTypeHeader)
    requires |buf| == TypeHeaderSize
  {
    NeResourceTypeHeader(GetU16(buf, 0), GetU16(buf, 2), (GetU16(buf, 4), GetU16(buf, 6)))
  }

  /** `NeResourceTableHeader::read`: one little-endian u16. */
  function ReadTableHeader(src: seq<byte>, pos: nat): (r: Option<Parsed<NeResourceTableHeader>>)
    ensures r.Some? <==> pos + TableHeaderSize <= |src|
    ensures r.Some? ==> r.value.next == pos + TableHeaderSize
    ensures r.Some? ==> r.value.value.alignmentShiftCount == GetU16(src, pos)
  {
    var buf :- ReadExact(src, pos, TableHeaderSize);
    Some(Parsed(NeResourceTableHeader(GetU16(buf.value, 0)), buf.next))
  }

  /** `NeResourceTypeHeader::read`: 8 bytes, four little-endian words. */
  function ReadTypeHeader(src: seq<byte>, pos: nat): (r: Option<Parsed<NeResourceTypeHeader>>)
    ensures r.Some? <==> pos + TypeHeaderSize <= |src|
    ensures r.Some? ==> r.value.next == pos + TypeHeaderSize
    ensures r.Some? ==> r.value.value == DecodeTypeHeader(src[pos..pos + TypeHeaderSize])
  {
    var buf :- ReadExact(src, pos, TypeHeaderSize);
    Some(Parsed(DecodeTypeHeader(buf.value), buf.next))
  }

  /** `NeResource::read` (through `NeResourceHeader::read`): 12 bytes, six little-endian words. */
  function ReadResource(src: seq<byte>, pos: nat): (r: Option<Parsed<NeResource>>)
    ensures r.Some? <==> pos + ResourceHeaderSize <= |src|
    ensures r.Some? ==> r.value.next == pos + ResourceHeaderSize
    ensures r.Some? ==> r.value.value.header == DecodeResourceHeader(src[pos..pos + ResourceHeaderSize])
  {
    var buf :- ReadExact(src, pos, ResourceHeaderSize);
    Some(Parsed(NeResource(DecodeResourceHeader(buf.value)), buf.next))
  }

  /** The `collect` of `n` resources: they are read back to back, 12 bytes each. */
  function ReadResources(src: seq<byte>, pos: nat, n: nat): (r: Option<Parsed<seq<NeResource>>>)
    ensures r.Some? <==> n == 0 || pos + ResourceHeaderSize * n <= |src|
    ensures r.Some? ==> r.value.next == pos + ResourceHeaderSize * n && |r.value.value| == n
  {
    ReadManyFixed(ReadResource, ResourceHeaderSize, src, pos, n);
    ReadMany(ReadResource, src, pos, n)
  }

  /** Resource i is decoded from the i-th 12-byte record after `pos`. */
  lemma ReadResourcesElements(src: seq<byte>, pos: nat, n: nat)
    requires ReadResources(src, pos, n).Some?
    ensures forall i :: 0 <= i < n ==>
      ReadResources(src, pos, n).value.value[i].header
        == DecodeResourceHeader(src[pos + ResourceHeaderSize * i..pos + ResourceHeaderSize * i + ResourceHeaderSize])
  {
    ReadManyFixedItems(ReadResource, ResourceHeaderSize, src, pos, n);
  }

  /** `NeResourceType::read`: a type header, then as many resources as it announces. */
  function ReadResourceType(src: seq<byte>, pos: nat): (r: Option<Parsed<NeResourceType>>)
    ensures r.Some? <==> pos + TypeHeaderSize <= |src|
                         && pos + TypeHeaderSize + ResourceHeaderSize * GetU16(src, pos + 2) <= |src|
    ensures r.Some? ==> r.value.value.WellFormed()
    ensures r.Some? ==> r.value.value.header == DecodeTypeHeader(src[pos..pos + TypeHeaderSize])
    ensures r.Some? ==> r.value.next == pos + TypeSize(r.value.value)
  {
    var header :- ReadTypeHeader(src, pos);
    var resources :- ReadResources(src, header.next, header.value.numResources);
    Some(Parsed(NeResourceType(header.value, resources.value), resources.next))
  }

  /** Bytes a resource type occupies in the file. */
  function TypeSize(t: NeResourceType): nat
  {
    TypeHeaderSize + ResourceHeaderSize * |t.resources|
  }

  /** Bytes a sequence of resource types occupies in the file. */
  function TypesSize(ts: seq<NeResourceType>): nat
  {
    SumSizes(TypeSize, ts)
  }

  /** A resource type holds as many resources as it announces. */
  predicate TypeWellFormed(t: NeResourceType)
  {
    t.WellFormed()
  }

  /** Bytes a whole resource table occupies: its header, then every type. */
  function TableSize(t: NeResourceTable): nat
  {
    TableHeaderSize + TypesSize(t.resourceTypes)
  }

  /**
   * `NeResourceTable::read`: the table header, then exactly `numEntries`
   * resource types. A short read anywhere fails the whole table.
   */
  function Read(src: seq<byte>, pos: nat, numEntries: u16): (r: Option<Parsed<NeResourceTable>>)
    ensures r.Some? ==> r.value.value.WellFormed() && |r.value.value.resourceTypes| == numEntries
    ensures r.Some? ==> pos + TableHeaderSize <= |src|
                        && r.value.value.header.alignmentShiftCount == GetU16(src, pos)
    ensures r.Some? ==> r.value.next == pos + TableSize(r.value.value) <= |src|
  {
    var header :- ReadTableHeader(src, pos);
    ReadManyConsumes(ReadResourceType, TypeSize, src, header.next, numEntries);
    ReadManyYields(ReadResourceType, TypeWellFormed, src, header.next, numEntries);
    ReadManyStaysWithin(ReadResourceType, src, header.next, numEntries);
    var types :- ReadMany(ReadResourceType, src, header.next, numEntries);
    Some(Parsed(NeResourceTable(header.value, types.value), types.next))
  }

  // Encoding: the bytes each record is read from, used to state round trips.

  function EncodeResourceHeader(h: NeResourceHeader): (buf: seq<byte>)
    ensures |buf| == ResourceHeaderSize
  {
    WordBytes([h.dataOffsetShifted, h.dataLength, h.flags, h.resourceId, h.res.0, h.res.1])
  }

  function EncodeTypeHeader(h: NeResourceTypeHeader): (buf: seq<byte>)
    ensures |buf| == TypeHeaderSize
  {
    WordBytes([h.typeId, h.numResources, h.res.0, h.res.1])
  }

  function EncodeResource(r: NeResource): (buf: seq<byte>)
    ensures |buf| == ResourceSize(r)
  {
    EncodeResourceHeader(r.header)
  }

  /** Bytes a resource occupies in the file. */
  function ResourceSize(r: NeResource): nat
  {
    ResourceHeaderSize
  }

  function EncodeResources(rs: seq<NeResource>): (buf: seq<byte>)
    ensures |buf| == ResourceHeaderSize * |rs|
  {
    ConcatLength(EncodeResource, ResourceSize, rs);
    SumSizesOfConstant(ResourceSize, ResourceHeaderSize, rs);
    Concat(EncodeResource, rs)
  }

  function EncodeResourceType(t: NeResourceType): (buf: seq<byte>)
    ensures |buf| == TypeSize(t)
  {
    EncodeTypeHeader(t.header) + EncodeResources(t.resources)
  }

  function EncodeResourceTypes(ts: seq<NeResourceType>): (buf: seq<byte>)
    ensures |buf| == TypesSize(ts)
  {
    ConcatLength(EncodeResourceType, TypeSize, ts);
    Concat(EncodeResourceType, ts)
  }

  function EncodeTableHeader(h: NeResourceTableHeader): (buf: seq<byte>)
    ensures |buf| == TableHeaderSize
  {
    [Lo(h.alignmentShiftCount), Hi(h.alignmentShiftCount)]
  }

  function EncodeTable(t: NeResourceTable): (buf: seq<byte>)
    ensures |buf| == TableSize(t)
  {
    EncodeTableHeader(t.header) + EncodeResourceTypes(t.resourceTypes)
  }

  lemma DecodeEncodeResourceHeader(h: NeResourceHeader)
    ensures DecodeResourceHeader(EncodeResourceHeader(h)) == h
  {
    var ws := [h.dataOffsetShifted, h.dataLength, h.flags, h.resourceId, h.res.0, h.res.1];
    WordsOfWordBytes(ws);
    var buf := EncodeResourceHeader(h);
    assert Words(buf)[4] == GetU16(buf, 8) && Words(buf)[5] == GetU16(buf, 10);
  }

  lemma DecodeEncodeTypeHeader(h: NeResourceTypeHeader)
    ensures DecodeTypeHeader(EncodeTypeHeader(h)) == h
  {
    var ws := [h.typeId, h.numResources, h.res.0, h.res.1];
    WordsOfWordBytes(ws);
    var buf := EncodeTypeHeader(h);
    assert Words(buf)[3] == GetU16(buf, 6);
  }

  predicate AnyResource(r: NeResource)
  {
    true
  }

  /** A resource is read back from wherever its encoding sits. */
  lemma ResourceReadsEncoding(src: seq<byte>)
    ensures ReadsEncoding(ReadResource, EncodeResource, ResourceSize, AnyResource, src)
  {
    forall p: nat, r | AnyResource(r) && EncodedAt(EncodeResource, ResourceSize, src, p, r)
      ensures ReadResource(src, p) == Some(Parsed(r, p + ResourceSize(r)))
    {
      DecodeEncodeResourceHeader(r.header);
    }
  }

  /** Resources laid out back to back are read back, consuming 12 bytes each. */
  lemma ReadEncodedResources(src: seq<byte>, pos: nat, rs: seq<NeResource>)
    requires pos + ResourceHeaderSize * |rs| <= |src|
    requires src[pos..pos + ResourceHeaderSize * |rs|] == EncodeResources(rs)
    ensures ReadResources(src, pos, |rs|) == Some(Parsed(rs, pos + ResourceHeaderSize * |rs|))
  {
    ResourceReadsEncoding(src);
    SumSizesOfConstant(ResourceSize, ResourceHeaderSize, rs);
    ReadManyOfConcat(ReadResource, EncodeResource, ResourceSize, AnyResource, src, pos, rs);
  }

  /** A well-formed resource type laid out at `pos` is read back, consuming exactly its bytes. */
  lemma ReadEncodedResourceType(src: seq<byte>, pos: nat, t: NeResourceType)
    requires t.WellFormed()
    requires pos + TypeSize(t) <= |src|
    requires src[pos..pos + TypeSize(t)] == EncodeResourceType(t)
    ensures ReadResourceType(src, pos) == Some(Parsed(t, pos + TypeSize(t)))
  {
    var head := EncodeTypeHeader(t.header);
    var body := EncodeResources(t.resources);
    SliceSplit(src, pos, head, body);
    DecodeEncodeTypeHeader(t.header);
    ReadEncodedResources(src, pos + TypeHeaderSize, t.resources);
  }

  lemma TypesSized()
    ensures Sized(EncodeResourceType, TypeSize)
  {
  }

  lemma TypeReadsEncoding(src: seq<byte>)
    ensures ReadsEncoding(ReadResourceType, EncodeResourceType, TypeSize, TypeWellFormed, src)
  {
    forall p: nat, t {:trigger EncodedAt(EncodeResourceType, TypeSize, src, p, t)}
      | TypeWellFormed(t) && EncodedAt(EncodeResourceType, TypeSize, src, p, t)
      ensures ReadResourceType(src, p) == Some(Parsed(t, p + TypeSize(t)))
    {
      ReadEncodedResourceTypeAt(src, p, t);
    }
  }

  lemma ReadEncodedResourceTypeAt(src: seq<byte>, p: nat, t: NeResourceType)
    requires TypeWellFormed(t) && EncodedAt(EncodeResourceType, TypeSize, src, p, t)
    ensures ReadResourceType(src, p) == Some(Parsed(t, p + TypeSize(t)))
  {
    ReadEncodedResourceType(src, p, t);
  }

  /** Well-formed resource types laid out back to back are read back, consuming exactly their bytes. */
  lemma ReadEncodedResourceTypes(src: seq<byte>, pos: nat, ts: seq<NeResourceType>)
    requires TypesWellFormed(ts)
    requires pos + TypesSize(ts) <= |src|
    requires src[pos..pos + TypesSize(ts)] == EncodeResourceTypes(ts)
    ensures ReadMany(ReadResourceType, src, pos, |ts|) == Some(Parsed(ts, pos + TypesSize(ts)))
  {
    TypeReadsEncoding(src);
    TypesSized();
    ReadManyOfConcat(ReadResourceType, EncodeResourceType, TypeSize, TypeWellFormed, src, pos, ts);
  }

  lemma ReadEncodedTableHeader(src: seq<byte>, pos: nat, h: NeResourceTableHeader)
    requires pos + TableHeaderSize <= |src|
    requires src[pos..pos + TableHeaderSize] == EncodeTableHeader(h)
    ensures ReadTableHeader(src, pos) == Some(Parsed(h, pos + TableHeaderSize))
  {
    assert src[pos] == Lo(h.alignmentShiftCount) && src[pos + 1] == Hi(h.alignmentShiftCount);
    U16Bytes(h.alignmentShiftCount);
  }

  /** A well-formed table laid out at `pos` is read back whole, consuming exactly its bytes. */
  lemma ReadEncodedTable(src: seq<byte>, pos: nat, t: NeResourceTable)
    requires t.WellFormed() && |t.resourceTypes| < 0x1_0000
    requires pos + TableSize(t) <= |src|
    requires src[pos..pos + TableSize(t)] == EncodeTable(t)
    ensures Read(src, pos, |t.resourceTypes|) == Some(Parsed(t, pos + TableSize(t)))
  {
    var head, body := EncodeTableHeader(t.header), EncodeResourceTypes(t.resourceTypes);
    SliceSplit(src, pos, head, body);
    ReadEncodedTableHeader(src, pos, t.header);
    ReadEncodedResourceTypes(src, pos + TableHeaderSize, t.resourceTypes);
    ReadOfParts(src, pos, |t.resourceTypes|, t.header, t.resourceTypes, pos + TableSize(t));
  }

  lemma EncodeDecodeResourceHeader(buf: seq<byte>)
    requires |buf| == ResourceHeaderSize
    ensures EncodeResourceHeader(DecodeResourceHeader(buf)) == buf
  {
    var h := DecodeResourceHeader(buf);
    assert Words(buf) == [h.dataOffsetShifted, h.dataLength, h.flags, h.resourceId, h.res.0, h.res.1];
    WordBytesOfWords(buf);
  }

  lemma EncodeDecodeTypeHeader(buf: seq<byte>)
    requires |buf| == TypeHeaderSize
    ensures EncodeTypeHeader(DecodeTypeHeader(buf)) == buf
  {
    var h := DecodeTypeHeader(buf);
    assert Words(buf) == [h.typeId, h.numResources, h.res.0, h.res.1];
    WordBytesOfWords(buf);
  }

  /** Whatever a resource read returns is the decoding of the 12 bytes it consumed. */
  lemma ResourceReadIsEncoding(src: seq<byte>)
    ensures ReadIsEncoding(ReadResource, EncodeResource, src)
  {
    forall p: nat | ReadResource(src, p).Some?
      ensures p <= ReadResource(src, p).value.next <= |src|
      ensures src[p..ReadResource(src, p).value.next] == EncodeResource(ReadResource(src, p).value.value)
    {
      EncodeDecodeResourceHeader(src[p..p + ResourceHeaderSize]);
    }
  }

  /** The resources read are the ones whose encodings fill the bytes consumed. */
  lemma ReadResourcesEncoding(src: seq<byte>, pos: nat, n: nat)
    requires pos <= |src| && ReadResources(src, pos, n).Some?
    ensures var r := ReadResources(src, pos, n).value;
      r.next <= |src| && src[pos..r.next] == EncodeResources(r.value)
  {
    ResourceReadIsEncoding(src);
    ReadManyIsConcat(ReadResource, EncodeResource, src, pos, n);
  }

  /** A resource type read consumed exactly the encoding of the type it returned. */
  lemma ReadResourceTypeEncoding(src: seq<byte>, pos: nat)
    requires ReadResourceType(src, pos).Some?
    ensures var r := ReadResourceType(src, pos).value;
      r.next <= |src| && src[pos..r.next] == EncodeResourceType(r.value)
  {
    var t := ReadResourceType(src, pos).value.value;
    EncodeDecodeTypeHeader(src[pos..pos + TypeHeaderSize]);
    ReadResourcesEncoding(src, pos + TypeHeaderSize, t.header.numResources);
    SliceSplit(src, pos, EncodeTypeHeader(t.header), EncodeResources(t.resources));
  }

  lemma TypeReadIsEncoding(src: seq<byte>)
    ensures ReadIsEncoding(ReadResourceType, EncodeResourceType, src)
  {
    forall p: nat | ReadResourceType(src, p).Some?
      ensures p <= ReadResourceType(src, p).value.next <= |src|
      ensures src[p..ReadResourceType(src, p).value.next] == EncodeResourceType(ReadResourceType(src, p).value.value)
    {
      ReadResourceTypeEncoding(src, p);
    }
  }

  /** The resource types read are the ones whose encodings fill the bytes consumed. */
  lemma ReadTypesEncoding(src: seq<byte>, pos: nat, n: nat)
    requires pos <= |src| && ReadMany(ReadResourceType, src, pos, n).Some?
    ensures var r := ReadMany(ReadResourceType, src, pos, n).value;
      pos <= r.next <= |src| && src[pos..r.next] == EncodeResourceTypes(r.value)
  {
    TypeReadIsEncoding(src);
    ReadManyIsConcat(ReadResourceType, EncodeResourceType, src, pos, n);
  }

  /** The table header's bytes followed by the types' bytes are the table's bytes. */
  lemma TableEncodingOfPieces(src: seq<byte>, pos: nat, h: NeResourceTableHeader, ts: seq<NeResourceType>, end: nat)
    requires pos + TableHeaderSize <= end <= |src|
    requires h.alignmentShiftCount == GetU16(src, pos)
    requires src[pos + TableHeaderSize..end] == EncodeResourceTypes(ts)
    ensures src[pos..end] == EncodeTable(NeResourceTable(h, ts))
  {
    U16OfBytes(src[pos], src[pos + 1]);
    assert EncodeTableHeader(h) == src[pos..pos + TableHeaderSize];
    assert src[pos..end] == src[pos..pos + TableHeaderSize] + src[pos + TableHeaderSize..end];
  }

  /** A table read consumed exactly the encoding of the table it returned. */
  lemma ReadTableEncoding(src: seq<byte>, pos: nat, n: u16)
    requires Read(src, pos, n).Some?
    ensures var r := Read(src, pos, n).value;
      r.next <= |src| && src[pos..r.next] == EncodeTable(r.value)
  {
    var h := ReadTableHeader(src, pos).value;
    var types := ReadMany(ReadResourceType, src, h.next, n).value;
    assert Read(src, pos, n) == Some(Parsed(NeResourceTable(h.value, types.value), types.next));
    ReadTypesEncoding(src, h.next, n);
    TableEncodingOfPieces(src, pos, h.value, types.value, types.next);
  }

  /**
   * The table read at `pos` with `n` types is exactly the well-formed table
   * of `n` types whose encoding sits at `pos`, and the read ends after it.
   */
  lemma ReadIffEncoded(src: seq<byte>, pos: nat, n: u16, t: NeResourceTable, end: nat)
    ensures Read(src, pos, n) == Some(Parsed(t, end)) <==>
      && t.WellFormed() && |t.resourceTypes| == n
      && end == pos + TableSize(t) <= |src| && src[pos..end] == EncodeTable(t)
  {
    if Read(src, pos, n) == Some(Parsed(t, end)) {
      ReadTableEncoding(src, pos, n);
    }
    if t.WellFormed() && |t.resourceTypes| == n && end == pos + TableSize(t) <= |src| && src[pos..end] == EncodeTable(t) {
      ReadEncodedTable(src, pos, t);
    }
  }

  /** `Read` is the header read followed by the types read. */
  lemma ReadOfParts(src: seq<byte>, pos: nat, n: u16, h: NeResourceTableHeader, ts: seq<NeResourceType>, end: nat)
    requires ReadTableHeader(src, pos) == Some(Parsed(h, pos + TableHeaderSize))
    requires ReadMany(ReadResourceType, src, pos + TableHeaderSize, n) == Some(Parsed(ts, end))
    ensures Read(src, pos, n) == Some(Parsed(NeResourceTable(h, ts), end))
  {
  }
}
