/**
 * The per-segment relocation table (src/ne/segment_relocations.rs): a
 * little-endian u16 count, then that many 8-byte relocation records. The low
 * two bits of each record's flag byte say what the record refers to;
 * the value 3 is rejected and fails the whole table.
 */
module SegmentRelocations {

  import opened Endian
  import opened Stream

  const CountSize: nat := 2
  const EntrySize: nat := 8

  /** What a relocation record points at (the payloads of `InternalFixes`, `ImportByOrdinal`, `ImportByName`). */
  datatype RelocationTarget =
    | Internal(segment: u8, isMovable: bool, offsetOrOrdinal: u16)
    | ImportByOrdinal(moduleIndex: u16, ordinal: u16)
    | ImportByName(moduleIndex: u16, nameOffset: u16)

  datatype RelocationEntry = RelocationEntry(
    addressType: u8,
    relocType: u8,
    isAdditive: bool,
    segmentOffset: u16,
    target: RelocationTarget)

  datatype RelocationTable = RelocationTable(entries: seq<RelocationEntry>)

  /*
   * The masks of `RelocationEntry::read` on the flags byte, written as
   * division and remainder: `b & 0x03` is `b % 4` and `b & 0x04` is bit 2.
   */

  /** `reloc_flags & 0x03`: the low two bits. */
  function RelocType(flags: u8): u8
  {
    flags % 4
  }

  /** `(reloc_flags & 0x04) != 0`: bit 2. */
  function IsAdditive(flags: u8): bool
  {
    (flags / 4) % 2 == 1
  }

  /** The decoding of one 8-byte record; relocation type 3 has no target. */
  function DecodeEntry(buf: seq<byte>): (r: Option<RelocationEntry>)
    requires |buf| == EntrySize
    ensures r.None? <==> buf[1] % 4 == 3
  {
    var relocType := RelocType(buf[1]);
    var target :-
      if relocType == 0 then
        Some(Internal(buf[4], buf[4] == 0xFF, GetU16(buf, 6)))
      else if relocType == 1 then
        Some(ImportByOrdinal(GetU16(buf, 4), GetU16(buf, 6)))
      else if relocType == 2 then
        Some(ImportByName(GetU16(buf, 4), GetU16(buf, 6)))
      else
        None;
    Some(RelocationEntry(buf[0], relocType, IsAdditive(buf[1]), GetU16(buf, 2), target))
  }

  /**
   * The fields of a decoded record: the address type is byte 0, the type and
   * additive bit come from byte 1, the segment offset is the u16 at 2, the
   * type picks the target kind, and the target's payload sits at bytes 4..8.
   */
  lemma DecodeEntryFields(buf: seq<byte>)
    requires |buf| == EntrySize && DecodeEntry(buf).Some?
    ensures var e := DecodeEntry(buf).value;
      && e.addressType == buf[0]
      && e.relocType == buf[1] % 4
      && (e.isAdditive <==> (buf[1] / 4) % 2 == 1)
      && e.segmentOffset == GetU16(buf, 2)
      && (e.target.Internal? <==> buf[1] % 4 == 0)
      && (e.target.ImportByOrdinal? <==> buf[1] % 4 == 1)
      && (e.target.ImportByName? <==> buf[1] % 4 == 2)
    ensures var t := DecodeEntry(buf).value.target;
      && (t.Internal? ==> t.segment == buf[4] && (t.isMovable <==> buf[4] == 0xFF)
                          && t.offsetOrOrdinal == GetU16(buf, 6))
      && (t.ImportByOrdinal? ==> t.moduleIndex == GetU16(buf, 4) && t.ordinal == GetU16(buf, 6))
      && (t.ImportByName? ==> t.moduleIndex == GetU16(buf, 4) && t.nameOffset == GetU16(buf, 6))
  {
  }

  /** One loop iteration of `RelocationTable::read`: an 8-byte read, then the decoding. */
  function ReadEntry(src: seq<byte>, pos: nat): (r: Option<Parsed<RelocationEntry>>)
    ensures r.Some? ==> r.value.next == pos + EntrySize
  {
    var buf :- ReadExact(src, pos, EntrySize);
    var entry :- DecodeEntry(buf.value);
    Some(Parsed(entry, buf.next))
  }

  /** A record is read exactly when its 8 bytes are present and its type is not 3; it is their decoding. */
  lemma ReadEntryDecodes(src: seq<byte>, pos: nat)
    ensures ReadEntry(src, pos).Some? <==> pos + EntrySize <= |src| && src[pos + 1] % 4 != 3
    ensures ReadEntry(src, pos).Some? ==>
      Some(ReadEntry(src, pos).value.value) == DecodeEntry(src[pos..pos + EntrySize])
  {
  }

  /** The result `RelocationTable::read` computes: the count, then that many records. */
  function ReadTable(src: seq<byte>, pos: nat): (r: Option<Parsed<RelocationTable>>)
  {
    var count :- ReadExact(src, pos, CountSize);
    var entries :- ReadMany(ReadEntry, src, count.next, GetU16(count.value, 0));
    Some(Parsed(RelocationTable(entries.value), entries.next))
  }

  /** With the count present, the table is the `ReadMany` of that many records after it. */
  lemma ReadTableOfCount(src: seq<byte>, pos: nat)
    ensures pos + CountSize > |src| ==> ReadTable(src, pos).None?
    ensures pos + CountSize <= |src| ==>
      var entries := ReadMany(ReadEntry, src, pos + CountSize, GetU16(src, pos));
      && (ReadTable(src, pos).Some? <==> entries.Some?)
      && (entries.Some? ==> ReadTable(src, pos).value == Parsed(RelocationTable(entries.value.value), entries.value.next))
  {
    if pos + CountSize <= |src| {
      assert GetU16(src[pos..pos + CountSize], 0) == GetU16(src, pos);
    }
  }

  /**
   * The table is read exactly when the count and all its records are
   * present and no record has relocation type 3.
   */
  lemma ReadTableSucceeds(src: seq<byte>, pos: nat)
    ensures ReadTable(src, pos).Some? <==>
      pos + CountSize <= |src|
      && forall i :: 0 <= i < GetU16(src, pos) ==>
           pos + CountSize + EntrySize * i + EntrySize <= |src|
           && src[pos + CountSize + EntrySize * i + 1] % 4 != 3
  {
    ReadTableOfCount(src, pos);
    if pos + CountSize <= |src| {
      ReadEntriesSucceed(src, pos + CountSize, GetU16(src, pos));
    }
  }

  /** `count` records are read from `start` exactly when each is present and none has type 3. */
  lemma ReadEntriesSucceed(src: seq<byte>, start: nat, count: nat)
    ensures ReadMany(ReadEntry, src, start, count).Some? <==>
      forall i :: 0 <= i < count ==>
        start + EntrySize * i + EntrySize <= |src| && src[start + EntrySize * i + 1] % 4 != 3
  {
    ReadManyAdvancing(ReadEntry, EntrySize, src, start, count);
    forall i | 0 <= i < count {
      ReadEntryDecodes(src, start + EntrySize * i);
    }
  }

  /**
   * A table read holds `count` entries, entry i decoded from the i-th record
   * in file order, and ends `2 + 8 * count` bytes after `pos`.
   */
  lemma ReadTableEntries(src: seq<byte>, pos: nat)
    requires ReadTable(src, pos).Some?
    ensures var count := GetU16(src, pos);
      var t := ReadTable(src, pos).value;
      && |t.value.entries| == count
      && t.next == pos + CountSize + EntrySize * count
      && forall i :: 0 <= i < count ==>
           pos + CountSize + EntrySize * i + EntrySize <= |src|
           && Some(t.value.entries[i])
                == DecodeEntry(src[pos + CountSize + EntrySize * i..pos + CountSize + EntrySize * i + EntrySize])
  {
    ReadTableOfCount(src, pos);
    var m := ReadMany(ReadEntry, src, pos + CountSize, GetU16(src, pos)).value;
    assert ReadTable(src, pos).value.value.entries == m.value && ReadTable(src, pos).value.next == m.next;
    ReadEntriesItems(src, pos + CountSize, GetU16(src, pos));
  }

  /** `count` records read from `start` are the decodings of the consecutive 8-byte records there. */
  lemma ReadEntriesItems(src: seq<byte>, start: nat, count: nat)
    requires ReadMany(ReadEntry, src, start, count).Some?
    ensures var m := ReadMany(ReadEntry, src, start, count).value;
      && |m.value| == count
      && m.next == start + EntrySize * count
      && forall i :: 0 <= i < count ==>
           start + EntrySize * i + EntrySize <= |src|
           && Some(m.value[i]) == DecodeEntry(src[start + EntrySize * i..start + EntrySize * i + EntrySize])
  {
    ReadManyAdvancing(ReadEntry, EntrySize, src, start, count);
    ReadManyFixedItems(ReadEntry, EntrySize, src, start, count);
    forall i | 0 <= i < count {
      ReadEntryDecodes(src, start + EntrySize * i);
    }
  }

  /** `RelocationTable::read`: the count, then a loop reading and decoding one record per iteration. */
  method Read(src: seq<byte>, pos: nat) returns (r: Option<Parsed<RelocationTable>>)
    ensures r == ReadTable(src, pos)
  {
    ReadTableOfCount(src, pos);
    var countBuf := ReadExact(src, pos, CountSize);
    if countBuf.None? {
      return None;
    }
    var count := GetU16(countBuf.value.value, 0);
    var start := countBuf.value.next;
    var entries: seq<RelocationEntry> := [];
    var cur := start;
    ReadManyLoopInit(ReadEntry, src, start, count);
    for i := 0 to count
      invariant ReadManyLoop(ReadEntry, src, start, count, entries, cur, i)
    {
      ReadManyLoopStep(ReadEntry, src, start, count, entries, cur, i);
      var entryBuf := ReadExact(src, cur, EntrySize);
      if entryBuf.None? {
        return None;
      }
      var entry := DecodeEntry(entryBuf.value.value);
      if entry.None? {
        return None;
      }
      entries := entries + [entry.value];
      cur := entryBuf.value.next;
    }
    ReadManyLoopEnd(ReadEntry, src, start, count, entries, cur);
    r := Some(Parsed(RelocationTable(entries), cur));
  }
}
