/**
 * The entry table (src/ne/entry_table.rs): bundles read one after another
 * while the cursor is before `offset + length`. Each bundle starts with a
 * count byte and a segment indicator: 0 marks an unused bundle, 1..0xFE a
 * bundle of 3-byte fixed-segment entries, 0xFF a bundle of 6-byte
 * moveable-segment entries.
 */
module EntryTable {

  import opened Endian
  import opened Stream

  const BundleHeaderSize: nat := 2
  const FixedEntrySize: nat := 3
  const MoveableEntrySize: nat := 6

  datatype FixedSegmentEntry = FixedSegmentEntry(flags: u8, offset: u16)

  datatype MoveableSegmentEntry = MoveableSegmentEntry(flags: u8, unknown: u8, magic: u8, segment: u8, offset: u16)

  datatype FixedEntryBundle = FixedEntryBundle(segment: u8, entries: seq<FixedSegmentEntry>)

  datatype MoveableEntryBundle = MoveableEntryBundle(entries: seq<MoveableSegmentEntry>)

  datatype EntryBundle =
    | Unused
    | Fixed(fixed: FixedEntryBundle)
    | Moveable(moveable: MoveableEntryBundle)

  datatype EntryTable = EntryTable(bundles: seq<EntryBundle>)

  /** `FixedSegmentEntry::read`: 3 bytes, the flags byte then a little-endian offset. */
  function ReadFixedEntry(src: seq<byte>, pos: nat): (r: Option<Parsed<FixedSegmentEntry>>)
    ensures r.Some? <==> pos + FixedEntrySize <= |src|
    ensures r.Some? ==> r.value.next == pos + FixedEntrySize
  {
    var buf :- ReadExact(src, pos, FixedEntrySize);
    Some(Parsed(FixedSegmentEntry(buf.value[0], GetU16(buf.value, 1)), buf.next))
  }

  /** `MoveableSegmentEntry::read`: 6 bytes, four single bytes then a little-endian offset. */
  function ReadMoveableEntry(src: seq<byte>, pos: nat): (r: Option<Parsed<MoveableSegmentEntry>>)
    ensures r.Some? <==> pos + MoveableEntrySize <= |src|
    ensures r.Some? ==> r.value.next == pos + MoveableEntrySize
  {
    var buf :- ReadExact(src, pos, MoveableEntrySize);
    var b := buf.value;
    Some(Parsed(MoveableSegmentEntry(b[0], b[1], b[2], b[3], GetU16(b, 4)), buf.next))
  }

  /** `FixedEntryBundle::read`: `num` fixed entries. */
  function ReadFixedBundle(src: seq<byte>, pos: nat, num: u8, segment: u8): (r: Option<Parsed<FixedEntryBundle>>)
    ensures r.Some? <==> num == 0 || pos + FixedEntrySize * num <= |src|
    ensures r.Some? ==> r.value.next == pos + FixedEntrySize * num
  {
    ReadManyFixed(ReadFixedEntry, FixedEntrySize, src, pos, num);
    var entries :- ReadMany(ReadFixedEntry, src, pos, num);
    Some(Parsed(FixedEntryBundle(segment, entries.value), entries.next))
  }

  /** The bundle keeps its segment and holds `num` entries, entry i decoded from the i-th 3-byte record. */
  lemma ReadFixedBundleEntries(src: seq<byte>, pos: nat, num: u8, segment: u8)
    requires ReadFixedBundle(src, pos, num, segment).Some?
    ensures var b := ReadFixedBundle(src, pos, num, segment).value.value;
      && b.segment == segment && |b.entries| == num
      && forall i :: 0 <= i < num ==>
           var p := pos + FixedEntrySize * i;
           p + FixedEntrySize <= |src| && b.entries[i] == FixedSegmentEntry(src[p], GetU16(src, p + 1))
  {
    ReadManyFixedItems(ReadFixedEntry, FixedEntrySize, src, pos, num);
    forall i | 0 <= i < num ensures GetU16(src[pos + FixedEntrySize * i..pos + FixedEntrySize * i + FixedEntrySize], 1)
                                    == GetU16(src, pos + FixedEntrySize * i + 1) {
    }
  }

  /** `MoveableEntryBundle::read`: `num` moveable entries. */
  function ReadMoveableBundle(src: seq<byte>, pos: nat, num: u8): (r: Option<Parsed<MoveableEntryBundle>>)
    ensures r.Some? <==> num == 0 || pos + MoveableEntrySize * num <= |src|
    ensures r.Some? ==> r.value.next == pos + MoveableEntrySize * num
  {
    ReadManyFixed(ReadMoveableEntry, MoveableEntrySize, src, pos, num);
    var entries :- ReadMany(ReadMoveableEntry, src, pos, num);
    Some(Parsed(MoveableEntryBundle(entries.value), entries.next))
  }

  /** The bundle holds `num` entries, entry i decoded from the i-th 6-byte record. */
  lemma ReadMoveableBundleEntries(src: seq<byte>, pos: nat, num: u8)
    requires ReadMoveableBundle(src, pos, num).Some?
    ensures var b := ReadMoveableBundle(src, pos, num).value.value;
      && |b.entries| == num
      && forall i :: 0 <= i < num ==>
           var p := pos + MoveableEntrySize * i;
           p + MoveableEntrySize <= |src|
           && b.entries[i] == MoveableSegmentEntry(src[p], src[p + 1], src[p + 2], src[p + 3], GetU16(src, p + 4))
  {
    ReadManyFixedItems(ReadMoveableEntry, MoveableEntrySize, src, pos, num);
    forall i | 0 <= i < num
      ensures GetU16(src[pos + MoveableEntrySize * i..pos + MoveableEntrySize * i + MoveableEntrySize], 4)
              == GetU16(src, pos + MoveableEntrySize * i + 4)
    {
    }
  }

  /** Bytes per entry for a segment indicator: none for unused, 3 fixed, 6 moveable. */
  function EntryWidth(segment: u8): nat
  {
    if segment == 0 then 0 else if segment < 0xFF then FixedEntrySize else MoveableEntrySize
  }

  /** `EntryBundle::read`: the count and indicator bytes, then the bundle they announce. */
  function ReadBundle(src: seq<byte>, pos: nat): (r: Option<Parsed<EntryBundle>>)
    ensures r.Some? ==> r.value.next >= pos + BundleHeaderSize
  {
    var buf :- ReadExact(src, pos, BundleHeaderSize);
    var num, segment := buf.value[0], buf.value[1];
    if segment == 0 then
      Some(Parsed(Unused, buf.next))
    else if segment < 0xFF then
      var b :- ReadFixedBundle(src, buf.next, num, segment);
      Some(Parsed(Fixed(b.value), b.next))
    else
      var b :- ReadMoveableBundle(src, buf.next, num);
      Some(Parsed(Moveable(b.value), b.next))
  }

  /**
   * A bundle is read exactly when its two header bytes and all the entries
   * they announce are present; it consumes `2 + width * count` bytes, and its
   * kind follows the indicator byte (the count byte of an unused bundle is
   * ignored).
   */
  lemma ReadBundleShape(src: seq<byte>, pos: nat)
    ensures ReadBundle(src, pos).Some? <==>
      pos + BundleHeaderSize <= |src|
      && (src[pos + 1] == 0 || pos + BundleHeaderSize + EntryWidth(src[pos + 1]) * src[pos] <= |src|)
    ensures ReadBundle(src, pos).Some? ==>
      var b := ReadBundle(src, pos).value;
      var num, segment := src[pos], src[pos + 1];
      && b.next == pos + BundleHeaderSize + EntryWidth(segment) * num
      && (b.value.Unused? <==> segment == 0)
      && (b.value.Fixed? <==> 0 < segment < 0xFF)
      && (b.value.Moveable? <==> segment == 0xFF)
      && (b.value.Fixed? ==> b.value.fixed == ReadFixedBundle(src, pos + BundleHeaderSize, num, segment).value.value)
      && (b.value.Moveable? ==> b.value.moveable == ReadMoveableBundle(src, pos + BundleHeaderSize, num).value.value)
  {
  }

  /** The bundles read from `pos` while the cursor is before `end`. */
  function ReadBundles(src: seq<byte>, pos: nat, end: nat): (r: Option<Parsed<seq<EntryBundle>>>)
    decreases end - pos
  {
    if pos >= end then Some(Parsed([], pos))
    else
      match ReadBundle(src, pos)
      case None => None
      case Some(b) => Prepend([b.value], ReadBundles(src, b.next, end))
  }

  /** Bytes a bundle occupies. */
  function BundleSize(b: EntryBundle): nat
  {
    match b
    case Unused => BundleHeaderSize
    case Fixed(f) => BundleHeaderSize + FixedEntrySize * |f.entries|
    case Moveable(m) => BundleHeaderSize + MoveableEntrySize * |m.entries|
  }

  lemma ReadBundleSize(src: seq<byte>, pos: nat)
    requires ReadBundle(src, pos).Some?
    ensures ReadBundle(src, pos).value.next == pos + BundleSize(ReadBundle(src, pos).value.value)
  {
    ReadBundleShape(src, pos);
    var b := ReadBundle(src, pos).value.value;
    if b.Fixed? {
      ReadFixedBundleEntries(src, pos + BundleHeaderSize, src[pos], src[pos + 1]);
    } else if b.Moveable? {
      ReadMoveableBundleEntries(src, pos + BundleHeaderSize, src[pos]);
    }
  }

  /**
   * The loop stops only once the cursor has reached `end`, and the cursor
   * has then moved by exactly the sizes of the bundles read.
   */
  lemma {:induction false} ReadBundlesEnd(src: seq<byte>, pos: nat, end: nat)
    requires ReadBundles(src, pos, end).Some?
    ensures ReadBundles(src, pos, end).value.next >= end
    ensures ReadBundles(src, pos, end).value.next >= pos
    ensures ReadBundles(src, pos, end).value.next == pos + SumSizes(BundleSize, ReadBundles(src, pos, end).value.value)
    decreases end - pos
  {
    if pos < end {
      var b := ReadBundle(src, pos).value;
      ReadBundleSize(src, pos);
      ReadBundlesEnd(src, b.next, end);
      var rest := ReadBundles(src, b.next, end).value.value;
      assert ([b.value] + rest)[1..] == rest;
    }
  }

  /** What `EntryTable::read` computes: the bundles from `offset` up to `offset + length`. */
  function ReadTable(src: seq<byte>, offset: nat, length: u16): (r: Option<Parsed<EntryTable>>)
  {
    var bundles :- ReadBundles(src, offset, offset + length);
    Some(Parsed(EntryTable(bundles.value), bundles.next))
  }

  /** A length of 0 gives an empty table and leaves the cursor at `offset`. */
  lemma ReadTableOfEmpty(src: seq<byte>, offset: nat)
    ensures ReadTable(src, offset, 0) == Some(Parsed(EntryTable([]), offset))
  {
  }

  /** A successful read ends at or past `offset + length`, having consumed exactly its bundles. */
  lemma ReadTableEnd(src: seq<byte>, offset: nat, length: u16)
    requires ReadTable(src, offset, length).Some?
    ensures var t := ReadTable(src, offset, length).value;
      t.next >= offset + length && t.next == offset + SumSizes(BundleSize, t.value.bundles)
  {
    ReadBundlesEnd(src, offset, offset + length);
  }

  /** The last bundle may run past `offset + length` without an error: one fixed bundle read for a length of 1. */
  lemma OverrunIsAccepted()
    ensures ReadTable([1, 1, 0, 0, 0], 0, 1)
      == Some(Parsed(EntryTable([Fixed(FixedEntryBundle(1, [FixedSegmentEntry(0, 0)]))]), 5))
  {
    var src: seq<byte> := [1, 1, 0, 0, 0];
    var entry := FixedSegmentEntry(0, 0);
    assert ReadFixedEntry(src, 2) == Some(Parsed(entry, 5));
    var entries := ReadMany(ReadFixedEntry, src, 2, 1);
    assert entries.Some? && entries.value.next == 5 && entries.value.value == [entry];
    var bundle := ReadBundle(src, 0);
    assert bundle.Some? && bundle.value.next == 5 && bundle.value.value == Fixed(FixedEntryBundle(1, [entry]));
    var bundles := ReadBundles(src, 0, 1);
    assert bundles.Some? && bundles.value.next == 5 && bundles.value.value == [Fixed(FixedEntryBundle(1, [entry]))];
  }

  /** `EntryTable::read`: seek to `offset`, then read bundles while the cursor is before `offset + length`. */
  method Read(src: seq<byte>, offset: nat, length: u16) returns (r: Option<Parsed<EntryTable>>)
    ensures r == ReadTable(src, offset, length)
  {
    var end := offset + length;
    var pos := offset;
    var bundles: seq<EntryBundle> := [];
    PrependNil(ReadBundles(src, offset, end));
    while pos < end
      invariant ReadBundles(src, offset, end) == Prepend(bundles, ReadBundles(src, pos, end))
      decreases end - pos
    {
      var bundle := ReadBundle(src, pos);
      if bundle.None? {
        return None;
      }
      PrependPrepend(bundles, [bundle.value.value], ReadBundles(src, bundle.value.next, end));
      bundles := bundles + [bundle.value.value];
      pos := bundle.value.next;
    }
    assert bundles + [] == bundles;
    r := Some(Parsed(EntryTable(bundles), pos));
  }
}
