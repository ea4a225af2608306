/**
 * The module-reference table (src/ne/module_reference_table.rs): `num`
 * little-endian u16 offsets into the imported-names table, read first with
 * empty names; a second pass resolves every entry's name in place from the
 * length-prefixed string at `base + offset`.
 */
module ModuleReferences {

  import opened Endian
  import opened Stream

  const HeaderSize: nat := 2

  datatype ModuleReferenceEntryHeader = ModuleReferenceEntryHeader(offset: u16)

  /** `ModuleReferenceEntryHeader::read`: one little-endian u16. */
  function ReadHeader(src: seq<byte>, pos: nat): (r: Option<Parsed<ModuleReferenceEntryHeader>>)
    ensures r.Some? <==> pos + HeaderSize <= |src|
    ensures r.Some? ==> r.value.next == pos + HeaderSize
  {
    var buf :- ReadExact(src, pos, HeaderSize);
    Some(Parsed(ModuleReferenceEntryHeader(GetU16(buf.value, 0)), buf.next))
  }

  /** The headers of a table of `num` entries are read exactly when `2 * num` bytes are present. */
  lemma ReadHeadersShape(src: seq<byte>, pos: nat, num: u16)
    ensures ReadMany(ReadHeader, src, pos, num).Some? <==> num == 0 || pos + HeaderSize * num <= |src|
    ensures ReadMany(ReadHeader, src, pos, num).Some? ==>
      var hs := ReadMany(ReadHeader, src, pos, num).value;
      && hs.next == pos + HeaderSize * num
      && |hs.value| == num
      && forall i :: 0 <= i < num ==>
           pos + HeaderSize * i + HeaderSize <= |src| && hs.value[i].offset == GetU16(src, pos + HeaderSize * i)
  {
    ReadManyFixed(ReadHeader, HeaderSize, src, pos, num);
    if ReadMany(ReadHeader, src, pos, num).Some? {
      ReadManyFixedItems(ReadHeader, HeaderSize, src, pos, num);
      forall i | 0 <= i < num
        ensures GetU16(src[pos + HeaderSize * i..pos + HeaderSize * i + HeaderSize], 0) == GetU16(src, pos + HeaderSize * i)
      {
      }
    }
  }

  /** The length-prefixed name at `p`: its length byte, then that many bytes. */
  function NameAt(src: seq<byte>, p: nat): (r: Option<seq<byte>>)
    ensures r.Some? ==> |r.value| <= 255
  {
    if p < |src| && p + 1 + src[p] <= |src| then Some(src[p + 1..p + 1 + src[p]]) else None
  }

  /** The name is read exactly when its length byte and that many bytes are present, and has that length. */
  lemma NameAtShape(src: seq<byte>, p: nat)
    ensures NameAt(src, p).Some? <==> p < |src| && p + 1 + src[p] <= |src|
    ensures NameAt(src, p).Some? ==> |NameAt(src, p).value| == src[p]
  {
  }

  class ModuleReferenceEntry {
    const header: ModuleReferenceEntryHeader
    var name: seq<byte>

    /** The entry `ModuleReferenceEntry::read` builds: the header and an empty name. */
    constructor (header: ModuleReferenceEntryHeader)
      ensures this.header == header && name == []
    {
      this.header := header;
      name := [];
    }

    /**
     * `read_name`: seek to `base + offset`, read the length byte, resize the
     * name to that length, then fill it. When the name bytes are short, the
     * name has been resized but its contents are not specified.
     */
    method ReadName(src: seq<byte>, base: nat) returns (ok: bool)
      modifies this`name
      ensures ok <==> NameAt(src, base + header.offset).Some?
      ensures ok ==> name == NameAt(src, base + header.offset).value
      ensures !ok && base + header.offset < |src| ==> |name| == src[base + header.offset]
      ensures base + header.offset >= |src| ==> name == old(name)
    {
      var start := base + header.offset;
      var len := ReadExact(src, start, 1);
      if len.None? {
        return false;
      }
      var n := len.value.value[0];
      name := Resized(name, n);
      var bytes := ReadExact(src, len.value.next, n);
      if bytes.None? {
        return false;
      }
      name := bytes.value.value;
      ok := true;
    }
  }

  class ModuleReferenceTable {
    const entries: seq<ModuleReferenceEntry>

    constructor (entries: seq<ModuleReferenceEntry>)
      ensures this.entries == entries
    {
      this.entries := entries;
    }

    /** Every entry's name is the one at `base` plus its offset. */
    ghost predicate Resolved(src: seq<byte>, base: nat)
      reads entries
    {
      forall i :: 0 <= i < |entries| ==>
        NameAt(src, base + entries[i].header.offset).Some?
        && entries[i].name == NameAt(src, base + entries[i].header.offset).value
    }

    /**
     * `read_names`: resolve every entry in order against the same base; the
     * first failure stops the pass. The headers and the entries themselves
     * (their number and order) are never changed.
     */
    method ReadNames(src: seq<byte>, base: nat) returns (ok: bool)
      modifies entries
      ensures ok <==> forall i :: 0 <= i < |entries| ==> NameAt(src, base + entries[i].header.offset).Some?
      ensures ok ==> Resolved(src, base)
    {
      for i := 0 to |entries|
        invariant forall k :: 0 <= k < i ==>
          NameAt(src, base + entries[k].header.offset).Some?
          && entries[k].name == NameAt(src, base + entries[k].header.offset).value
      {
        ok := entries[i].ReadName(src, base);
        if !ok {
          return false;
        }
      }
      ok := true;
    }
  }

  /** The entries are distinct objects, as the elements of a `Vec` are. */
  ghost predicate Distinct(entries: seq<ModuleReferenceEntry>)
  {
    forall k, l :: 0 <= k < l < |entries| ==> entries[k] != entries[l]
  }

  /** `ModuleReferenceTable::read(num)`: `num` entries, each a header read in turn and an empty name. */
  method Read(src: seq<byte>, pos: nat, num: u16) returns (r: Option<Parsed<ModuleReferenceTable>>)
    ensures r.Some? <==> ReadMany(ReadHeader, src, pos, num).Some?
    ensures r.Some? ==>
      var hs := ReadMany(ReadHeader, src, pos, num).value;
      && r.value.next == hs.next
      && fresh(r.value.value)
      && |r.value.value.entries| == num
      && Distinct(r.value.value.entries)
      && forall i :: 0 <= i < num ==>
           && fresh(r.value.value.entries[i])
           && r.value.value.entries[i].header == hs.value[i]
           && r.value.value.entries[i].name == []
  {
    var entries: seq<ModuleReferenceEntry> := [];
    ghost var headers: seq<ModuleReferenceEntryHeader> := [];
    var cur := pos;
    ReadManyLoopInit(ReadHeader, src, pos, num);
    for i := 0 to num
      invariant ReadManyLoop(ReadHeader, src, pos, num, headers, cur, i)
      invariant |entries| == i && |headers| == i && Distinct(entries)
      invariant forall k :: 0 <= k < i ==>
        fresh(entries[k]) && entries[k].header == headers[k] && entries[k].name == []
    {
      ReadManyLoopStep(ReadHeader, src, pos, num, headers, cur, i);
      var header := ReadHeader(src, cur);
      if header.None? {
        return None;
      }
      var entry := new ModuleReferenceEntry(header.value.value);
      entries := entries + [entry];
      headers := headers + [header.value.value];
      cur := header.value.next;
    }
    ReadManyLoopEnd(ReadHeader, src, pos, num, headers, cur);
    var table := new ModuleReferenceTable(entries);
    r := Some(Parsed(table, cur));
  }
}
