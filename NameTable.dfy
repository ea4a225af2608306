/**
 * The resident and nonresident name tables (src/ne/resident_name_table.rs and
 * src/ne/nonresident_name_table.rs, which are the same code under two
 * names): records of a length byte, that many name bytes and a
 * little-endian u16 index, ended by a zero length byte.
 */
module NameTable {

  import opened Endian
  import opened Stream

  const IndexSize: nat := 2

  datatype NameEntry = NameEntry(name: seq<byte>, index: u16)

  datatype NameTable = NameTable(entries: seq<NameEntry>)

  /**
   * `ResidentNameEntry::read` / `NonresidentNameEntry::read`: read the length
   * byte; `None` when it is zero; otherwise read that many name bytes and
   * then the two index bytes. A byte missing at any of the three reads is an
   * error.
   */
  function ReadEntry(src: seq<byte>, pos: nat): (r: Option<Parsed<Option<NameEntry>>>)
    ensures r.Some? ==> pos < r.value.next <= |src|
  {
    if pos + 1 > |src| then None
    else
      var len := src[pos];
      if len == 0 then Some(Parsed(None, pos + 1))
      else if pos + 1 + len > |src| then None
      else if pos + 1 + len + IndexSize > |src| then None
      else
        var name := src[pos + 1..pos + 1 + len];
        var index := GetU16(src, pos + 1 + len);
        Some(Parsed(Some(NameEntry(name, index)), pos + 1 + len + IndexSize))
  }

  /** The records from `pos` up to and including the terminator (the `while let` loop). */
  function ReadEntries(src: seq<byte>, pos: nat): (r: Option<Parsed<seq<NameEntry>>>)
    decreases |src| - pos
  {
    match ReadEntry(src, pos)
    case None => None
    case Some(p) =>
      match p.value
      case None => Some(Parsed([], p.next))
      case Some(e) => Prepend([e], ReadEntries(src, p.next))
  }

  /** `ResidentNameTable::read` / `NonresidentNameTable::read` as a value. */
  function ReadTable(src: seq<byte>, pos: nat): (r: Option<Parsed<NameTable>>)
  {
    var entries :- ReadEntries(src, pos);
    Some(Parsed(NameTable(entries.value), entries.next))
  }

  /** A name a length byte can announce: non-empty, at most 255 bytes. */
  predicate EntryWellFormed(e: NameEntry)
  {
    1 <= |e.name| <= 255
  }

  predicate EntriesWellFormed(es: seq<NameEntry>)
  {
    forall i :: 0 <= i < |es| ==> EntryWellFormed(es[i])
  }

  /** Bytes a record occupies: length byte, name, index. */
  function EntrySize(e: NameEntry): nat
  {
    1 + |e.name| + IndexSize
  }

  /** The bytes a record is read from. */
  function EncodeEntry(e: NameEntry): (bytes: seq<byte>)
    requires EntryWellFormed(e)
    ensures |bytes| == EntrySize(e)
  {
    [|e.name|] + e.name + [Lo(e.index), Hi(e.index)]
  }

  /** The bytes a table is read from: every record in order, then the zero terminator. */
  function EncodeEntries(es: seq<NameEntry>): (bytes: seq<byte>)
    requires EntriesWellFormed(es)
    ensures |bytes| == SumSizes(EntrySize, es) + 1
  {
    if es == [] then [0] else EncodeEntry(es[0]) + EncodeEntries(es[1..])
  }

  /** A record is read back from its encoding, whatever follows it. */
  lemma ReadEncodedEntry(src: seq<byte>, pos: nat, e: NameEntry)
    requires EntryWellFormed(e)
    requires pos + EntrySize(e) <= |src| && src[pos..pos + EntrySize(e)] == EncodeEntry(e)
    ensures ReadEntry(src, pos) == Some(Parsed(Some(e), pos + EntrySize(e)))
  {
    var enc := EncodeEntry(e);
    var len := |e.name|;
    var bytes := src[pos..pos + EntrySize(e)];
    assert src[pos] == bytes[0] == enc[0] == len;
    forall i | 0 <= i < len ensures src[pos + 1 + i] == e.name[i] {
      assert src[pos + 1 + i] == bytes[1 + i] == enc[1 + i];
    }
    assert src[pos + 1..pos + 1 + len] == e.name;
    assert src[pos + 1 + len] == enc[1 + len] == Lo(e.index);
    assert src[pos + 1 + len + 1] == enc[1 + len + 1] == Hi(e.index);
    U16Bytes(e.index);
  }

  /** The records of `es` are read one after the other from `pos`, and a terminator follows them. */
  predicate RecordsAt(src: seq<byte>, pos: nat, es: seq<NameEntry>)
    decreases |es|
  {
    if es == [] then pos < |src| && src[pos] == 0
    else
      && ReadEntry(src, pos) == Some(Parsed(Some(es[0]), pos + EntrySize(es[0])))
      && RecordsAt(src, pos + EntrySize(es[0]), es[1..])
  }

  /** The encoding of a table, placed at `pos`, has its records read one after the other. */
  lemma {:induction false} RecordsAtOfEncoding(src: seq<byte>, pos: nat, es: seq<NameEntry>)
    requires EntriesWellFormed(es)
    requires pos + |EncodeEntries(es)| <= |src| && src[pos..pos + |EncodeEntries(es)|] == EncodeEntries(es)
    ensures RecordsAt(src, pos, es)
    decreases |es|
  {
    if es == [] {
      assert src[pos] == EncodeEntries(es)[0];
    } else {
      EncodingSplits(src, pos, es);
      ReadEncodedEntry(src, pos, es[0]);
      RecordsAtOfEncoding(src, pos + EntrySize(es[0]), es[1..]);
    }
  }

  /** The encoding of a non-empty table at `pos`: its first record's bytes, then the rest's. */
  lemma EncodingSplits(src: seq<byte>, pos: nat, es: seq<NameEntry>)
    requires EntriesWellFormed(es) && es != []
    requires pos + |EncodeEntries(es)| <= |src| && src[pos..pos + |EncodeEntries(es)|] == EncodeEntries(es)
    ensures EntryWellFormed(es[0]) && EntriesWellFormed(es[1..])
    ensures pos + EntrySize(es[0]) <= |src| && src[pos..pos + EntrySize(es[0])] == EncodeEntry(es[0])
    ensures var next, rest := pos + EntrySize(es[0]), es[1..];
      next + |EncodeEntries(rest)| <= |src| && src[next..next + |EncodeEntries(rest)|] == EncodeEntries(rest)
  {
    EncodeEntriesCons(es);
    var a, b := EncodeEntry(es[0]), EncodeEntries(es[1..]);
    assert |a + b| == |EncodeEntries(es)|;
    SplitSlice(src, pos, a, b);
  }

  /** Records read one after the other make up the table, the cursor ending past the terminator. */
  lemma {:induction false} ReadRecordsAt(src: seq<byte>, pos: nat, es: seq<NameEntry>)
    requires RecordsAt(src, pos, es)
    ensures ReadEntries(src, pos) == Some(Parsed(es, pos + SumSizes(EntrySize, es) + 1))
    decreases |es|
  {
    if es != [] {
      var k := EntrySize(es[0]);
      ReadRecordsAt(src, pos + k, es[1..]);
      ReadEntriesOfRecord(src, pos, es[0], pos + k, es[1..], pos + k + SumSizes(EntrySize, es[1..]) + 1);
      assert [es[0]] + es[1..] == es;
    }
  }

  /**
   * Every table read succeeds on its own encoding: the encoded records come
   * back in order, with the cursor just past the terminator.
   */
  lemma ReadEncodedEntries(src: seq<byte>, pos: nat, es: seq<NameEntry>)
    requires EntriesWellFormed(es)
    requires pos + |EncodeEntries(es)| <= |src| && src[pos..pos + |EncodeEntries(es)|] == EncodeEntries(es)
    ensures ReadEntries(src, pos) == Some(Parsed(es, pos + |EncodeEntries(es)|))
  {
    RecordsAtOfEncoding(src, pos, es);
    ReadRecordsAt(src, pos, es);
  }

  /** A record followed by more records: the table read is that record, then the rest. */
  lemma ReadEntriesOfRecord(src: seq<byte>, pos: nat, e: NameEntry, next: nat, es: seq<NameEntry>, end: nat)
    requires ReadEntry(src, pos) == Some(Parsed(Some(e), next))
    requires ReadEntries(src, next) == Some(Parsed(es, end))
    ensures ReadEntries(src, pos) == Some(Parsed([e] + es, end))
  {
  }

  /** A non-empty table's bytes are its first record's bytes, then the rest's. */
  lemma EncodeEntriesCons(es: seq<NameEntry>)
    requires EntriesWellFormed(es) && es != []
    ensures EntriesWellFormed(es[1..])
    ensures EncodeEntries(es) == EncodeEntry(es[0]) + EncodeEntries(es[1..])
  {
    forall i | 0 <= i < |es| - 1 ensures EntryWellFormed(es[1..][i]) {
      assert es[1..][i] == es[i + 1];
    }
  }

  /** The bytes at `pos` that spell `a + b` spell `a`, then `b` right after it. */
  lemma SplitSlice(src: seq<byte>, pos: nat, a: seq<byte>, b: seq<byte>)
    requires pos + |a + b| <= |src| && src[pos..pos + |a + b|] == a + b
    ensures src[pos..pos + |a|] == a
    ensures src[pos + |a|..pos + |a| + |b|] == b
  {
    assert src[pos..pos + |a|] == (a + b)[..|a|];
    assert src[pos + |a|..pos + |a| + |b|] == (a + b)[|a|..];
  }

  /** A record read from the stream is well formed and is the encoding of the bytes it consumed. */
  lemma EncodingOfReadEntry(src: seq<byte>, pos: nat)
    requires ReadEntry(src, pos).Some? && ReadEntry(src, pos).value.value.Some?
    ensures var r := ReadEntry(src, pos).value;
      && EntryWellFormed(r.value.value)
      && r.next == pos + EntrySize(r.value.value)
      && src[pos..r.next] == EncodeEntry(r.value.value)
  {
    var r := ReadEntry(src, pos).value;
    var len := src[pos];
    var e := r.value.value;
    assert src[pos..r.next] == [src[pos]] + src[pos + 1..pos + 1 + len]
      + [src[pos + 1 + len], src[pos + 1 + len + 1]];
    U16OfBytes(src[pos + 1 + len], src[pos + 1 + len + 1]);
  }

  /** The records read are well formed, and the read consumes `Σ(3 + len) + 1` bytes of the stream. */
  lemma {:induction false} ReadEntriesSize(src: seq<byte>, pos: nat)
    requires ReadEntries(src, pos).Some?
    ensures var r := ReadEntries(src, pos).value;
      && EntriesWellFormed(r.value)
      && pos < r.next <= |src|
      && r.next == pos + SumSizes(EntrySize, r.value) + 1
    decreases |src| - pos
  {
    var p := ReadEntry(src, pos).value;
    if p.value.Some? {
      EncodingOfReadEntry(src, pos);
      ReadEntriesSize(src, p.next);
      var rest := ReadEntries(src, p.next).value.value;
      var es := [p.value.value] + rest;
      assert es[1..] == rest;
      assert EntriesWellFormed(es) by {
        forall i | 0 <= i < |es| ensures EntryWellFormed(es[i]) {
          if i > 0 {
            assert es[i] == rest[i - 1];
          }
        }
      }
    } else {
    }
  }

  /**
   * Conversely, whatever a successful read returns is exactly the encoding
   * of the bytes it consumed: each name is taken verbatim after its length
   * byte, each index is the u16 after its name, entries keep file order,
   * and the bytes end with the zero terminator.
   */
  lemma {:induction false} ReadEntriesEncoding(src: seq<byte>, pos: nat)
    requires ReadEntries(src, pos).Some?
    ensures var r := ReadEntries(src, pos).value;
      EntriesWellFormed(r.value) && pos <= r.next <= |src| && src[pos..r.next] == EncodeEntries(r.value)
    decreases |src| - pos
  {
    ReadEntriesSize(src, pos);
    var p := ReadEntry(src, pos).value;
    if p.value.None? {
      assert src[pos..p.next] == [0];
    } else {
      EncodingOfReadEntry(src, pos);
      ReadEntriesEncoding(src, p.next);
      var rest := ReadEntries(src, p.next).value;
      EncodeEntriesOfPieces(src, pos, p.next, rest.next, p.value.value, rest.value);
    }
  }

  /** The bytes of a record followed by the bytes of a table are the bytes of the longer table. */
  lemma EncodeEntriesOfPieces(src: seq<byte>, pos: nat, mid: nat, end: nat, e: NameEntry, es: seq<NameEntry>)
    requires pos <= mid <= end <= |src|
    requires EntryWellFormed(e) && EntriesWellFormed(es) && EntriesWellFormed([e] + es)
    requires src[pos..mid] == EncodeEntry(e) && src[mid..end] == EncodeEntries(es)
    ensures src[pos..end] == EncodeEntries([e] + es)
  {
    assert ([e] + es)[0] == e && ([e] + es)[1..] == es;
    assert src[pos..end] == src[pos..mid] + src[mid..end];
  }

  /** A stream that ends before the terminator fails the read. */
  lemma ReadTableTruncated(src: seq<byte>, pos: nat, k: nat)
    requires k <= |src|
    requires ReadTable(src, pos).Some? && k < ReadTable(src, pos).value.next
    ensures ReadTable(src[..k], pos).None?
  {
    var short := src[..k];
    if ReadEntries(short, pos).Some? {
      ReadEntriesEncoding(short, pos);
      ReadEntriesSize(short, pos);
      var r := ReadEntries(short, pos).value;
      assert src[pos..r.next] == short[pos..r.next];
      ReadEncodedEntries(src, pos, r.value);
    }
  }

  /** An empty table is the single terminator byte. */
  lemma ReadTableOfTerminator(src: seq<byte>, pos: nat)
    requires pos < |src| && src[pos] == 0
    ensures ReadTable(src, pos) == Some(Parsed(NameTable([]), pos + 1))
  {
  }

  /** The table's read loop: push the entries read until the terminator. */
  method Read(src: seq<byte>, pos: nat) returns (r: Option<Parsed<NameTable>>)
    ensures r == ReadTable(src, pos)
  {
    var entries: seq<NameEntry> := [];
    var cur := pos;
    PrependNil(ReadEntries(src, pos));
    while true
      invariant ReadEntries(src, pos) == Prepend(entries, ReadEntries(src, cur))
      decreases |src| - cur
    {
      var entry := ReadEntry(src, cur);
      if entry.None? {
        return None;
      }
      match entry.value.value
      case None =>
        assert entries + [] == entries;
        return Some(Parsed(NameTable(entries), entry.value.next));
      case Some(e) =>
        PrependPrepend(entries, [e], ReadEntries(src, entry.value.next));
        entries := entries + [e];
        cur := entry.value.next;
    }
  }
}
