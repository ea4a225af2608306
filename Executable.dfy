/**
 * `NeExecutable::read` (src/ne/mod.rs): the MS-DOS header at the start of
 * the file, the NE header at `lfanew`, then every table at its offset, and
 * finally the data of every segment. All table offsets except the
 * nonresident-name table's are relative to `lfanew`.
 */
module Executable {

  import opened Endian
  import opened Stream
  import Mz
  import Header
  import SegmentTable
  import ResourceTable
  import NameTable
  import ModuleReferences
  import EntryTable

  datatype NeExecutable = NeExecutable(
    dosHeader: Mz.DosHeader,
    neHeader: Header.NeHeader,
    segmentEntries: seq<SegmentTable.NeSegment>,
    resourceTable: ResourceTable.NeResourceTable,
    residentNameTable: NameTable.NameTable,
    moduleReferenceTable: ModuleReferences.ModuleReferenceTable,
    entryTable: EntryTable.EntryTable,
    nonresidentNameTable: NameTable.NameTable)

  /** `NeResourceTable::read_variadic`, which is not part of this model: a reader at a cursor. */
  type VariadicReader = (seq<byte>, nat) -> Option<ResourceTable.NeResourceTable>

  /** `EntryTable::read_sf(file, offset, length)`, which is not part of this model: a reader at a cursor. */
  type EntryTableReader = (seq<byte>, nat, u16, u16) -> Option<EntryTable.EntryTable>

  /** The resource table at `pos`: the alternate reader for the count 0xFFFF, else `count` types. */
  function ReadResourceTable(src: seq<byte>, pos: nat, count: u16, readVariadic: VariadicReader)
    : (r: Option<ResourceTable.NeResourceTable>)
    ensures count == 0xFFFF ==> r == readVariadic(src, pos)
    ensures count != 0xFFFF ==> (r.Some? <==> ResourceTable.Read(src, pos, count).Some?)
    ensures count != 0xFFFF && r.Some? ==> r.value == ResourceTable.Read(src, pos, count).value.value
    ensures count != 0xFFFF && r.Some? ==>
      && r.value.WellFormed() && |r.value.resourceTypes| == count
      && pos + ResourceTable.TableSize(r.value) <= |src|
      && src[pos..pos + ResourceTable.TableSize(r.value)] == ResourceTable.EncodeTable(r.value)
  {
    if count == 0xFFFF then
      readVariadic(src, pos)
    else
      var table :- ResourceTable.Read(src, pos, count);
      ResourceTable.ReadTableEncoding(src, pos, count);
      Some(table.value)
  }

  /** The data of a segment with this header lies within the file, and the shift is below 64, where a debug build would panic. */
  predicate SegmentDataFits(h: SegmentTable.NeSegmentHeader, shiftCount: u16, src: seq<byte>)
  {
    shiftCount < 64
    && SegmentTable.ShiftLeft64(h.dataOffsetShifted, shiftCount) + SegmentTable.SizeOf(h.dataLength) <= |src|
  }

  /** The DOS header at the start of the file, when present and carrying the "MZ" magic. */
  function DosHeaderAt(src: seq<byte>): Option<Mz.DosHeader>
  {
    var dos :- Mz.ReadDosHeader(src, 0);
    if Mz.CheckMagic(dos.value) then Some(dos.value) else None
  }

  /** The NE header at `lfanew`, when present and carrying the "NE" magic. */
  function NeHeaderAt(src: seq<byte>, lfanew: nat): Option<Header.NeHeader>
  {
    var ne :- Header.ReadNeHeader(src, lfanew);
    if Header.CheckMagic(ne.value) then Some(ne.value) else None
  }

  /** The segment headers, `segment_count` records at `lfanew + segment_table_offset`. */
  function SegmentHeaders(src: seq<byte>, lfanew: nat, h: Header.NeHeader)
    : Option<Parsed<seq<SegmentTable.NeSegmentHeader>>>
  {
    ReadMany(SegmentTable.ReadSegmentHeader, src, lfanew + h.segmentTableOffset, h.segmentCount)
  }

  /** The module-reference headers, `module_references` records at `lfanew + module_reference_table_offset`. */
  function ModuleReferenceHeaders(src: seq<byte>, lfanew: nat, h: Header.NeHeader)
    : Option<Parsed<seq<ModuleReferences.ModuleReferenceEntryHeader>>>
  {
    ReadMany(ModuleReferences.ReadHeader, src, lfanew + h.moduleReferenceTableOffset, h.moduleReferences)
  }

  /** The values `NeExecutable::read` reads before it resolves names and loads segment data. */
  datatype Tables = Tables(
    dosHeader: Mz.DosHeader,
    neHeader: Header.NeHeader,
    segmentHeaders: seq<SegmentTable.NeSegmentHeader>,
    resourceTable: ResourceTable.NeResourceTable,
    residentNameTable: NameTable.NameTable,
    moduleReferenceHeaders: seq<ModuleReferences.ModuleReferenceEntryHeader>,
    entryTable: EntryTable.EntryTable,
    nonresidentNameTable: NameTable.NameTable)
  {
    /** `lfanew`: the base of every table offset except the nonresident-name table's. */
    function Lfanew(): nat { dosHeader.lfanew }

    /** `int_offset`: the base the module names are read from. */
    function ImportNameBase(): nat { Lfanew() + neHeader.importNameTableOffset }
  }

  /**
   * The headers and tables. The DOS header is read at 0 and the NE header at
   * `lfanew`, each with its magic checked; then the tables follow.
   */
  function ReadTables(src: seq<byte>, readVariadic: VariadicReader, readSf: EntryTableReader): Option<Tables>
  {
    var dos :- DosHeaderAt(src);
    var h :- NeHeaderAt(src, dos.lfanew);
    TablesAt(src, readVariadic, readSf, dos, h)
  }

  /**
   * The tables of a file with these headers, in the order `read` takes
   * them. Each table sits at `lfanew` plus its header field, except the
   * nonresident-name table, which sits at its absolute offset.
   */
  function TablesAt(src: seq<byte>, readVariadic: VariadicReader, readSf: EntryTableReader,
                    dos: Mz.DosHeader, h: Header.NeHeader): (r: Option<Tables>)
    ensures r.Some? ==> r.value.dosHeader == dos && r.value.neHeader == h
  {
    var leading :- LeadingTablesAt(src, readVariadic, dos.lfanew, h);
    var trailing :- TrailingTablesAt(src, readSf, dos.lfanew, h);
    Some(Tables(dos, h, leading.segmentHeaders, leading.resourceTable, leading.residentNameTable,
                trailing.moduleReferenceHeaders, trailing.entryTable, trailing.nonresidentNameTable))
  }

  datatype LeadingTables = LeadingTables(
    segmentHeaders: seq<SegmentTable.NeSegmentHeader>,
    resourceTable: ResourceTable.NeResourceTable,
    residentNameTable: NameTable.NameTable)

  datatype TrailingTables = TrailingTables(
    moduleReferenceHeaders: seq<ModuleReferences.ModuleReferenceEntryHeader>,
    entryTable: EntryTable.EntryTable,
    nonresidentNameTable: NameTable.NameTable)

  /** The segment table, then the resource and resident-name tables, in that order. */
  function LeadingTablesAt(src: seq<byte>, readVariadic: VariadicReader, lfanew: nat, h: Header.NeHeader)
    : Option<LeadingTables>
  {
    var segments :- SegmentHeaders(src, lfanew, h);
    var rest :- ResidentTablesAt(src, readVariadic, lfanew, h);
    Some(LeadingTables(segments.value, rest.0, rest.1))
  }

  /** The resource table, then the resident-name table, each at `lfanew` plus its header field. */
  function ResidentTablesAt(src: seq<byte>, readVariadic: VariadicReader, lfanew: nat, h: Header.NeHeader)
    : Option<(ResourceTable.NeResourceTable, NameTable.NameTable)>
  {
    var resources :- ReadResourceTable(src, lfanew + h.resourceTableOffset, h.resourceTableEntries, readVariadic);
    var residentNames :- NameTable.ReadTable(src, lfanew + h.residentNamesTableOffset);
    Some((resources, residentNames.value))
  }

  /** The module-reference table, entry table and nonresident-name table, in that order. */
  function TrailingTablesAt(src: seq<byte>, readSf: EntryTableReader, lfanew: nat, h: Header.NeHeader)
    : Option<TrailingTables>
  {
    var references :- ModuleReferenceHeaders(src, lfanew, h);
    var entries :- readSf(src, lfanew + h.entryTableOffset, h.entryTableOffset, h.entryTableLength);
    var nonresidentNames :- NameTable.ReadTable(src, h.nonResidentNamesTableOffset);
    Some(TrailingTables(references.value, entries, nonresidentNames.value))
  }

  /** Every module name is readable at `base` plus its entry's offset. */
  predicate NamesResolvable(src: seq<byte>, base: nat, headers: seq<ModuleReferences.ModuleReferenceEntryHeader>)
  {
    forall i :: 0 <= i < |headers| ==> ModuleReferences.NameAt(src, base + headers[i].offset).Some?
  }

  /** Every segment's data lies within the file. */
  predicate SegmentDataLoads(src: seq<byte>, headers: seq<SegmentTable.NeSegmentHeader>, shiftCount: u16)
  {
    forall i :: 0 <= i < |headers| ==> SegmentDataFits(headers[i], shiftCount, src)
  }

  /** When `NeExecutable::read` succeeds: every read succeeds, every module name resolves, all segment data loads. */
  predicate ReadSucceeds(src: seq<byte>, readVariadic: VariadicReader, readSf: EntryTableReader)
  {
    var t := ReadTables(src, readVariadic, readSf);
    && t.Some?
    && NamesResolvable(src, t.value.ImportNameBase(), t.value.moduleReferenceHeaders)
    && SegmentDataLoads(src, t.value.segmentHeaders, t.value.neHeader.fileAlignmentShiftCount)
  }

  /** The executable holds the tables as read, its segments' data loaded and its module names resolved. */
  ghost predicate Holds(e: NeExecutable, t: Tables, src: seq<byte>)
    reads e.segmentEntries, e.moduleReferenceTable.entries
  {
    && e.dosHeader == t.dosHeader && e.neHeader == t.neHeader
    && e.resourceTable == t.resourceTable
    && e.residentNameTable == t.residentNameTable
    && e.entryTable == t.entryTable
    && e.nonresidentNameTable == t.nonresidentNameTable
    && Loaded(e.moduleReferenceTable, e.segmentEntries, t.moduleReferenceHeaders, t.segmentHeaders,
              t.neHeader.fileAlignmentShiftCount, t.ImportNameBase(), src)
  }

  /**
   * The module references carry their headers in order with the names at
   * `base` plus their offsets, and the segments carry the segment headers in
   * table order with the file's shift and their loaded data.
   */
  ghost predicate Loaded(references: ModuleReferences.ModuleReferenceTable, segments: seq<SegmentTable.NeSegment>,
                         referenceHeaders: seq<ModuleReferences.ModuleReferenceEntryHeader>,
                         segmentHeaders: seq<SegmentTable.NeSegmentHeader>, shiftCount: u16, base: nat, src: seq<byte>)
    reads references.entries, segments
  {
    && |references.entries| == |referenceHeaders|
    && (forall i :: 0 <= i < |referenceHeaders| ==>
          var m := references.entries[i];
          && m.header == referenceHeaders[i]
          && ModuleReferences.NameAt(src, base + m.header.offset).Some?
          && m.name == ModuleReferences.NameAt(src, base + m.header.offset).value)
    && |segments| == |segmentHeaders|
    && (forall i :: 0 <= i < |segmentHeaders| ==>
          var s := segments[i];
          && s.header == segmentHeaders[i]
          && s.shiftCount == shiftCount
          && SegmentDataFits(s.header, s.shiftCount, src)
          && s.data == src[s.DataOffset()..s.DataOffset() + s.DataLength()])
  }

  /** The segment entries of `read`: `segment_count` segments read in turn, each with the file's shift count. */
  method ReadSegments(src: seq<byte>, lfanew: nat, h: Header.NeHeader)
    returns (r: Option<seq<SegmentTable.NeSegment>>)
    ensures r.Some? <==> SegmentHeaders(src, lfanew, h).Some?
    ensures r.Some? ==>
      var hs := SegmentHeaders(src, lfanew, h).value.value;
      && |r.value| == |hs|
      && forall i :: 0 <= i < |hs| ==>
           && fresh(r.value[i])
           && r.value[i].header == hs[i]
           && r.value[i].shiftCount == h.fileAlignmentShiftCount
           && r.value[i].data == []
  {
    var pos: nat, count: u16, shiftCount: u16 := lfanew + h.segmentTableOffset, h.segmentCount, h.fileAlignmentShiftCount;
    var segments: seq<SegmentTable.NeSegment> := [];
    ghost var headers: seq<SegmentTable.NeSegmentHeader> := [];
    var cur: nat := pos;
    ReadManyLoopInit(SegmentTable.ReadSegmentHeader, src, pos, count);
    for i := 0 to count
      invariant ReadManyLoop(SegmentTable.ReadSegmentHeader, src, pos, count, headers, cur, i)
      invariant |segments| == i && |headers| == i
      invariant forall k :: 0 <= k < i ==>
        fresh(segments[k]) && segments[k].header == headers[k]
        && segments[k].shiftCount == shiftCount && segments[k].data == []
    {
      ReadManyLoopStep(SegmentTable.ReadSegmentHeader, src, pos, count, headers, cur, i);
      var segment := SegmentTable.ReadSegment(src, cur, shiftCount);
      if segment.None? {
        return None;
      }
      segments := segments + [segment.value.value];
      headers := headers + [segment.value.value.header];
      cur := segment.value.next;
    }
    ReadManyLoopEnd(SegmentTable.ReadSegmentHeader, src, pos, count, headers, cur);
    r := Some(segments);
  }

  /** Every segment's data fits the file and is the bytes at its data offset. */
  ghost predicate SegmentsLoaded(segments: seq<SegmentTable.NeSegment>, src: seq<byte>)
    reads segments
  {
    forall i :: 0 <= i < |segments| ==>
      && SegmentDataFits(segments[i].header, segments[i].shiftCount, src)
      && segments[i].data == src[segments[i].DataOffset()..segments[i].DataOffset() + segments[i].DataLength()]
  }

  /** The pass of `read` that reads every segment's data in order; the first failure stops it. */
  method LoadSegmentData(segments: seq<SegmentTable.NeSegment>, src: seq<byte>) returns (ok: bool)
    modifies segments
    ensures ok <==> forall i :: 0 <= i < |segments| ==>
      SegmentDataFits(segments[i].header, segments[i].shiftCount, src)
    ensures ok ==> SegmentsLoaded(segments, src)
  {
    for i := 0 to |segments|
      invariant forall k :: 0 <= k < i ==>
        && SegmentDataFits(segments[k].header, segments[k].shiftCount, src)
        && segments[k].data == src[segments[k].DataOffset()..segments[k].DataOffset() + segments[k].DataLength()]
    {
      ok := segments[i].ReadData(src);
      if !ok {
        return false;
      }
    }
    ok := true;
  }

  /** The first three table reads of `read`: fresh segments without data, and two tables. */
  method ReadLeading(src: seq<byte>, readVariadic: VariadicReader, lfanew: nat, h: Header.NeHeader)
    returns (r: Option<(seq<SegmentTable.NeSegment>, ResourceTable.NeResourceTable, NameTable.NameTable)>)
    ensures r.Some? <==> LeadingTablesAt(src, readVariadic, lfanew, h).Some?
    ensures r.Some? ==>
      var l := LeadingTablesAt(src, readVariadic, lfanew, h).value;
      && r.value.1 == l.resourceTable && r.value.2 == l.residentNameTable
      && |r.value.0| == |l.segmentHeaders|
      && forall i :: 0 <= i < |l.segmentHeaders| ==>
           && fresh(r.value.0[i])
           && r.value.0[i].header == l.segmentHeaders[i]
           && r.value.0[i].shiftCount == h.fileAlignmentShiftCount
  {
    var segments := ReadSegments(src, lfanew, h);
    if segments.None? {
      return None;
    }
    var rest := ReadResidentTables(src, readVariadic, lfanew, h);
    if rest.None? {
      return None;
    }
    r := Some((segments.value, rest.value.0, rest.value.1));
  }

  /** The resource-table and resident-name-table reads of `read`. */
  method ReadResidentTables(src: seq<byte>, readVariadic: VariadicReader, lfanew: nat, h: Header.NeHeader)
    returns (r: Option<(ResourceTable.NeResourceTable, NameTable.NameTable)>)
    ensures r == ResidentTablesAt(src, readVariadic, lfanew, h)
  {
    var resources := ReadResourceTable(src, lfanew + h.resourceTableOffset, h.resourceTableEntries, readVariadic);
    if resources.None? {
      return None;
    }
    var residentNames := NameTable.Read(src, lfanew + h.residentNamesTableOffset);
    if residentNames.None? {
      return None;
    }
    r := Some((resources.value, residentNames.value.value));
  }

  /** The last three table reads of `read`: a fresh module-reference table with empty names, and two tables. */
  method ReadTrailing(src: seq<byte>, readSf: EntryTableReader, lfanew: nat, h: Header.NeHeader)
    returns (r: Option<(ModuleReferences.ModuleReferenceTable, EntryTable.EntryTable, NameTable.NameTable)>)
    ensures r.Some? <==> TrailingTablesAt(src, readSf, lfanew, h).Some?
    ensures r.Some? ==>
      var l := TrailingTablesAt(src, readSf, lfanew, h).value;
      && r.value.1 == l.entryTable && r.value.2 == l.nonresidentNameTable
      && |r.value.0.entries| == |l.moduleReferenceHeaders|
      && forall i :: 0 <= i < |l.moduleReferenceHeaders| ==>
           && fresh(r.value.0.entries[i])
           && r.value.0.entries[i].header == l.moduleReferenceHeaders[i]
  {
    var references := ModuleReferences.Read(src, lfanew + h.moduleReferenceTableOffset, h.moduleReferences);
    if references.None? {
      return None;
    }
    var entries := readSf(src, lfanew + h.entryTableOffset, h.entryTableOffset, h.entryTableLength);
    if entries.None? {
      return None;
    }
    var nonresidentNames := NameTable.Read(src, h.nonResidentNamesTableOffset);
    if nonresidentNames.None? {
      return None;
    }
    r := Some((references.value.value, entries.value, nonresidentNames.value.value));
  }

  /**
   * The module references and segments as read, before names and data are
   * filled in: one module reference per header, one segment per segment
   * header with the file's shift.
   */
  predicate Unloaded(references: ModuleReferences.ModuleReferenceTable, segments: seq<SegmentTable.NeSegment>,
                     referenceHeaders: seq<ModuleReferences.ModuleReferenceEntryHeader>,
                     segmentHeaders: seq<SegmentTable.NeSegmentHeader>, shiftCount: u16)
  {
    && |references.entries| == |referenceHeaders|
    && (forall i :: 0 <= i < |referenceHeaders| ==> references.entries[i].header == referenceHeaders[i])
    && |segments| == |segmentHeaders|
    && (forall i :: 0 <= i < |segmentHeaders| ==>
          segments[i].header == segmentHeaders[i] && segments[i].shiftCount == shiftCount)
  }

  /**
   * The second pass of `read`: `read_names` against the import-name base,
   * then `read_data` of every segment in order; the first failure stops it.
   */
  method ResolveAndLoad(references: ModuleReferences.ModuleReferenceTable, segments: seq<SegmentTable.NeSegment>,
              ghost referenceHeaders: seq<ModuleReferences.ModuleReferenceEntryHeader>,
              ghost segmentHeaders: seq<SegmentTable.NeSegmentHeader>, ghost shiftCount: u16,
              base: nat, src: seq<byte>) returns (ok: bool)
    requires Unloaded(references, segments, referenceHeaders, segmentHeaders, shiftCount)
    modifies references.entries, segments
    ensures ok <==> NamesResolvable(src, base, referenceHeaders) && SegmentDataLoads(src, segmentHeaders, shiftCount)
    ensures ok ==> Loaded(references, segments, referenceHeaders, segmentHeaders, shiftCount, base, src)
  {
    ok := references.ReadNames(src, base);
    if !ok {
      assert !NamesResolvable(src, base, referenceHeaders) by {
        var i :| 0 <= i < |references.entries| &&
          ModuleReferences.NameAt(src, base + references.entries[i].header.offset).None?;
        assert references.entries[i].header == referenceHeaders[i];
      }
      return;
    }
    ok := LoadSegmentData(segments, src);
    if !ok {
      assert !SegmentDataLoads(src, segmentHeaders, shiftCount) by {
        var i :| 0 <= i < |segments| && !SegmentDataFits(segments[i].header, segments[i].shiftCount, src);
        assert segments[i].header == segmentHeaders[i];
      }
    }
  }

  /**
   * The second pass on an executable built from the tables as read: it
   * succeeds exactly when every module name resolves and all segment data
   * loads, and then the executable holds the tables.
   */
  method Load(e: NeExecutable, ghost t: Tables, src: seq<byte>) returns (ok: bool)
    requires e.dosHeader == t.dosHeader && e.neHeader == t.neHeader
    requires e.resourceTable == t.resourceTable && e.residentNameTable == t.residentNameTable
    requires e.entryTable == t.entryTable && e.nonresidentNameTable == t.nonresidentNameTable
    requires Unloaded(e.moduleReferenceTable, e.segmentEntries, t.moduleReferenceHeaders, t.segmentHeaders,
                      t.neHeader.fileAlignmentShiftCount)
    modifies e.moduleReferenceTable.entries, e.segmentEntries
    ensures ok <==>
      && NamesResolvable(src, t.ImportNameBase(), t.moduleReferenceHeaders)
      && SegmentDataLoads(src, t.segmentHeaders, t.neHeader.fileAlignmentShiftCount)
    ensures ok ==> Holds(e, t, src)
  {
    ok := ResolveAndLoad(e.moduleReferenceTable, e.segmentEntries, t.moduleReferenceHeaders, t.segmentHeaders,
                         t.neHeader.fileAlignmentShiftCount, e.dosHeader.lfanew + e.neHeader.importNameTableOffset, src);
  }

  /** Once both headers are read, the tables are those of a file with these headers. */
  lemma ReadTablesOfHeaders(src: seq<byte>, readVariadic: VariadicReader, readSf: EntryTableReader,
                            dos: Mz.DosHeader, h: Header.NeHeader)
    requires DosHeaderAt(src) == Some(dos) && NeHeaderAt(src, dos.lfanew) == Some(h)
    ensures ReadTables(src, readVariadic, readSf) == TablesAt(src, readVariadic, readSf, dos, h)
  {
  }

  /**
   * The two headers of a file that reads: the DOS header is the 64 bytes at
   * the start and carries "MZ", `lfanew` is the u32 at 0x3C, and the NE
   * header is the 64 bytes at `lfanew` and carries "NE".
   */
  lemma HeadersOfRead(src: seq<byte>, readVariadic: VariadicReader, readSf: EntryTableReader)
    requires ReadTables(src, readVariadic, readSf).Some?
    ensures var t := ReadTables(src, readVariadic, readSf).value;
      && Mz.DosHeaderSize <= |src|
      && t.dosHeader == Mz.DecodeDosHeader(src[..Mz.DosHeaderSize]) && Mz.CheckMagic(t.dosHeader)
      && t.Lfanew() == GetU32(src, 0x3C)
      && t.Lfanew() + Header.NeHeaderSize <= |src|
      && t.neHeader == Header.DecodeNeHeader(src[t.Lfanew()..t.Lfanew() + Header.NeHeaderSize])
      && Header.CheckMagic(t.neHeader)
  {
    var dos := DosHeaderAt(src).value;
    var h := NeHeaderAt(src, dos.lfanew).value;
    ReadTablesOfHeaders(src, readVariadic, readSf, dos, h);
    DosHeaderOfRead(src, dos);
  }

  /** The DOS header read at the start is the decoding of the first 64 bytes, and `lfanew` is the u32 at 0x3C. */
  lemma DosHeaderOfRead(src: seq<byte>, dos: Mz.DosHeader)
    requires DosHeaderAt(src) == Some(dos)
    ensures Mz.DosHeaderSize <= |src|
    ensures dos == Mz.DecodeDosHeader(src[..Mz.DosHeaderSize]) && Mz.CheckMagic(dos)
    ensures dos.lfanew == GetU32(src, 0x3C)
  {
    var buf := src[..Mz.DosHeaderSize];
    Mz.DecodeDosHeaderOffsets(buf);
    assert GetU32(buf, 0x3C) == GetU32(src, 0x3C) by {
      assert buf[0x3C] == src[0x3C] && buf[0x3D] == src[0x3D];
      assert buf[0x3E] == src[0x3E] && buf[0x3F] == src[0x3F];
    }
  }

  /** A file shorter than the DOS header does not read. */
  lemma ShortFileFails(src: seq<byte>, readVariadic: VariadicReader, readSf: EntryTableReader)
    requires |src| < Mz.DosHeaderSize
    ensures !ReadSucceeds(src, readVariadic, readSf)
  {
  }

  /** A file whose first two bytes are not "MZ" does not read, whatever follows. */
  lemma BadDosMagicFails(src: seq<byte>, readVariadic: VariadicReader, readSf: EntryTableReader)
    requires Mz.DosHeaderSize <= |src| && !(src[0] == 0x4D && src[1] == 0x5A)
    ensures !ReadSucceeds(src, readVariadic, readSf)
  {
    Mz.CheckMagicIffMZ(src[..Mz.DosHeaderSize]);
  }

  /** The segment, resource and resident-name tables come from `lfanew` plus their header fields. */
  lemma LeadingTablesOffsets(src: seq<byte>, readVariadic: VariadicReader, lfanew: nat, h: Header.NeHeader)
    requires LeadingTablesAt(src, readVariadic, lfanew, h).Some?
    ensures var l := LeadingTablesAt(src, readVariadic, lfanew, h).value;
      && ReadMany(SegmentTable.ReadSegmentHeader, src, lfanew + h.segmentTableOffset, h.segmentCount).Some?
      && l.segmentHeaders
           == ReadMany(SegmentTable.ReadSegmentHeader, src, lfanew + h.segmentTableOffset, h.segmentCount).value.value
      && ReadResourceTable(src, lfanew + h.resourceTableOffset, h.resourceTableEntries, readVariadic)
           == Some(l.resourceTable)
      && NameTable.ReadTable(src, lfanew + h.residentNamesTableOffset).Some?
      && NameTable.ReadTable(src, lfanew + h.residentNamesTableOffset).value.value == l.residentNameTable
  {
  }

  /**
   * The module-reference and entry tables come from `lfanew` plus their
   * header fields; the nonresident-name table from its header field alone.
   */
  lemma TrailingTablesOffsets(src: seq<byte>, readSf: EntryTableReader, lfanew: nat, h: Header.NeHeader)
    requires TrailingTablesAt(src, readSf, lfanew, h).Some?
    ensures var l := TrailingTablesAt(src, readSf, lfanew, h).value;
      && ReadMany(ModuleReferences.ReadHeader, src, lfanew + h.moduleReferenceTableOffset, h.moduleReferences).Some?
      && l.moduleReferenceHeaders
           == ReadMany(ModuleReferences.ReadHeader, src, lfanew + h.moduleReferenceTableOffset, h.moduleReferences).value.value
      && readSf(src, lfanew + h.entryTableOffset, h.entryTableOffset, h.entryTableLength) == Some(l.entryTable)
      && NameTable.ReadTable(src, h.nonResidentNamesTableOffset).Some?
      && NameTable.ReadTable(src, h.nonResidentNamesTableOffset).value.value == l.nonresidentNameTable
  {
  }

  /** The tables of a file that reads are the ones at the offsets its headers give. */
  lemma TableOffsets(src: seq<byte>, readVariadic: VariadicReader, readSf: EntryTableReader)
    requires ReadTables(src, readVariadic, readSf).Some?
    ensures var t := ReadTables(src, readVariadic, readSf).value;
      TablesAt(src, readVariadic, readSf, t.dosHeader, t.neHeader) == Some(t)
  {
    var dos := DosHeaderAt(src).value;
    ReadTablesOfHeaders(src, readVariadic, readSf, dos, NeHeaderAt(src, dos.lfanew).value);
  }

  /**
   * `NeExecutable::read`. It fails unless every step succeeds; on success it
   * holds the two checked headers, every table as read at its offset, the
   * segments with their data and the module references with their names.
   */
  method Read(src: seq<byte>, readVariadic: VariadicReader, readSf: EntryTableReader)
    returns (r: Option<NeExecutable>)
    ensures r.Some? <==> ReadSucceeds(src, readVariadic, readSf)
    ensures r.Some? ==> Holds(r.value, ReadTables(src, readVariadic, readSf).value, src)
  {
    var dos := DosHeaderAt(src);
    if dos.None? {
      return None;
    }
    var ne := NeHeaderAt(src, dos.value.lfanew);
    if ne.None? {
      return None;
    }
    var lfanew := dos.value.lfanew;
    var h := ne.value;
    ReadTablesOfHeaders(src, readVariadic, readSf, dos.value, h);
    var leading := ReadLeading(src, readVariadic, lfanew, h);
    if leading.None? {
      return None;
    }
    var trailing := ReadTrailing(src, readSf, lfanew, h);
    if trailing.None? {
      return None;
    }
    var e := NeExecutable(dos.value, h, leading.value.0, leading.value.1, leading.value.2,
                          trailing.value.0, trailing.value.1, trailing.value.2);
    ghost var t := TablesAt(src, readVariadic, readSf, dos.value, h).value;
    assert ReadTables(src, readVariadic, readSf) == Some(t);
    var loaded := Load(e, t, src);
    if !loaded {
      return None;
    }
    r := Some(e);
  }
}
