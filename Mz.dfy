/**
 * The legacy MS-DOS ("MZ") header that precedes the NE header
 * (src/mz.rs): a 64-byte record of little-endian words whose last field,
 * `lfanew`, is the file offset of the extended header.
 */
module Mz {

  import opened Endian
  import opened Stream

  const DosHeaderSize: nat := 0x40

  /** `b"MZ"` read as a little-endian u16. */
  const DosMagic: u16 := 0x5A4D

  datatype DosHeader = DosHeader(
    magic: u16,
    cblp: u16,
    cp: u16,
    crlc: u16,
    cparhdr: u16,
    minalloc: u16,
    maxalloc: u16,
    ss: u16,
    sp: u16,
    csum: u16,
    ip: u16,
    cs: u16,
    lfarlc: u16,
    ovno: u16,
    res: seq<u16>,
    oemid: u16,
    oeminfo: u16,
    res2: seq<u16>,
    lfanew: u32)
  {
    /** The two reserved arrays have their fixed lengths `[u16; 4]` and `[u16; 10]`. */
    predicate WellFormed() { |res| == 4 && |res2| == 10 }
  }

  /** The header whose fields are the 32 words of its image, in declaration order. */
  function FromWords(w: seq<u16>): (h: DosHeader)
    requires |w| == DosHeaderSize / 2
    ensures h.WellFormed()
  {
    DosHeader(
      magic := w[0], cblp := w[1], cp := w[2], crlc := w[3],
      cparhdr := w[4], minalloc := w[5], maxalloc := w[6], ss := w[7],
      sp := w[8], csum := w[9], ip := w[10], cs := w[11],
      lfarlc := w[12], ovno := w[13],
      res := w[14..18],
      oemid := w[18], oeminfo := w[19],
      res2 := w[20..30],
      lfanew := w[30] as int + 0x1_0000 * w[31] as int)
  }

  /** The 32 words of a header's image: each field in order, `lfanew` as its low then high word. */
  function ToWords(h: DosHeader): (w: seq<u16>)
    requires h.WellFormed()
    ensures |w| == DosHeaderSize / 2
  {
    [h.magic, h.cblp, h.cp, h.crlc, h.cparhdr, h.minalloc, h.maxalloc, h.ss,
     h.sp, h.csum, h.ip, h.cs, h.lfarlc, h.ovno]
    + h.res + [h.oemid, h.oeminfo] + h.res2
    + [LoWord(h.lfanew), HiWord(h.lfanew)]
  }

  lemma FromToWords(h: DosHeader)
    requires h.WellFormed()
    ensures FromWords(ToWords(h)) == h
  {
    var w := ToWords(h);
    assert w[14..18] == h.res;
    assert w[20..30] == h.res2;
    U32Words(h.lfanew);
  }

  lemma ToFromWords(w: seq<u16>)
    requires |w| == DosHeaderSize / 2
    ensures ToWords(FromWords(w)) == w
  {
    U32OfWords(w[30], w[31]);
    var h := FromWords(w);
    assert ToWords(h)[30] == w[30] && ToWords(h)[31] == w[31];
    assert ToWords(h)[..14] == w[..14];
    assert ToWords(h)[14..30] == w[14..30];
    assert ToWords(h) == ToWords(h)[..14] + ToWords(h)[14..30] + ToWords(h)[30..];
    assert w == w[..14] + w[14..30] + w[30..];
  }

  /** The field extraction of `DosHeader::read` over the 64-byte buffer. */
  function DecodeDosHeader(buf: seq<byte>): (h: DosHeader)
    requires |buf| == DosHeaderSize
    ensures h.WellFormed()
  {
    FromWords(Words(buf))
  }

  /** The fields sit at the offsets `DosHeader::read` takes them from. */
  lemma DecodeDosHeaderOffsets(buf: seq<byte>)
    requires |buf| == DosHeaderSize
    ensures var h := DecodeDosHeader(buf);
      && h.magic == GetU16(buf, 0) && h.cblp == GetU16(buf, 2) && h.cp == GetU16(buf, 4)
      && h.crlc == GetU16(buf, 6) && h.cparhdr == GetU16(buf, 8) && h.minalloc == GetU16(buf, 0xA)
      && h.maxalloc == GetU16(buf, 0xC) && h.ss == GetU16(buf, 0xE) && h.sp == GetU16(buf, 0x10)
      && h.csum == GetU16(buf, 0x12) && h.ip == GetU16(buf, 0x14) && h.cs == GetU16(buf, 0x16)
      && h.lfarlc == GetU16(buf, 0x18) && h.ovno == GetU16(buf, 0x1A)
      && (forall j :: 0 <= j < 4 ==> h.res[j] == GetU16(buf, 0x1C + 2 * j))
      && h.oemid == GetU16(buf, 0x24) && h.oeminfo == GetU16(buf, 0x26)
      && (forall j :: 0 <= j < 10 ==> h.res2[j] == GetU16(buf, 0x28 + 2 * j))
      && h.lfanew == GetU32(buf, 0x3C)
  {
    var w := Words(buf);
    assert w[30] == GetU16(buf, 0x3C) && w[31] == GetU16(buf, 0x3E);
    assert forall j :: 0 <= j < 4 ==> w[14..18][j] == w[14 + j];
    assert forall j :: 0 <= j < 10 ==> w[20..30][j] == w[20 + j];
  }

  /** `DosHeader::read`: one 64-byte read at the cursor, then field extraction. */
  function ReadDosHeader(src: seq<byte>, pos: nat): (r: Option<Parsed<DosHeader>>)
    ensures r.Some? <==> pos + DosHeaderSize <= |src|
    ensures r.Some? ==> r.value.next == pos + DosHeaderSize
    ensures r.Some? ==> r.value.value == DecodeDosHeader(src[pos..pos + DosHeaderSize])
  {
    var buf :- ReadExact(src, pos, DosHeaderSize);
    Some(Parsed(DecodeDosHeader(buf.value), buf.next))
  }

  /** The 64 bytes a header is read from: every field as its little-endian bytes, in order. */
  function EncodeDosHeader(h: DosHeader): (buf: seq<byte>)
    requires h.WellFormed()
    ensures |buf| == DosHeaderSize
  {
    WordBytes(ToWords(h))
  }

  /** `DosHeader::check_magic`. */
  predicate CheckMagic(h: DosHeader)
  {
    h.magic == DosMagic
  }

  /** The magic check accepts exactly the buffers that start with the bytes 'M' 'Z'. */
  lemma CheckMagicIffMZ(buf: seq<byte>)
    requires |buf| == DosHeaderSize
    ensures CheckMagic(DecodeDosHeader(buf)) <==> buf[0] == 0x4D && buf[1] == 0x5A
  {
    assert DecodeDosHeader(buf).magic == GetU16(buf, 0);
    U16OfBytes(buf[0], buf[1]);
  }

  /** Every byte of the buffer lands in exactly one field: decoding then encoding gives the buffer back. */
  lemma EncodeDecodeDosHeader(buf: seq<byte>)
    requires |buf| == DosHeaderSize
    ensures EncodeDosHeader(DecodeDosHeader(buf)) == buf
  {
    ToFromWords(Words(buf));
    WordBytesOfWords(buf);
  }

  /** Each field is read back from the offset it is encoded at. */
  lemma DecodeEncodeDosHeader(h: DosHeader)
    requires h.WellFormed()
    ensures DecodeDosHeader(EncodeDosHeader(h)) == h
  {
    WordsOfWordBytes(ToWords(h));
    FromToWords(h);
  }

  /** The k-th little-endian word of `buf`; a missing high byte reads as 0 (`unwrap_or(&0)`). */
  function WordAt(buf: seq<byte>, k: nat): (w: u16)
    requires 2 * k < |buf|
  {
    buf[2 * k] as int + 256 * (if 2 * k + 1 < |buf| then buf[2 * k + 1] as int else 0)
  }

  /** Number of words `check_sum` adds: one per two bytes, a trailing odd byte counting as a word. */
  function WordCount(buf: seq<byte>): nat
  {
    (|buf| + 1) / 2
  }

  /** The plain (unbounded) sum of the first n words. */
  function WordSum(buf: seq<byte>, n: nat): (sum: nat)
    requires n <= WordCount(buf)
    ensures sum <= 0xFFFF * n
  {
    if n == 0 then 0 else WordSum(buf, n - 1) + WordAt(buf, n - 1)
  }

  /** The 16-bit wrapping sum of all words of `buf`. */
  function Checksum(buf: seq<byte>): u16
  {
    WordSum(buf, WordCount(buf)) % 0x1_0000
  }

  /** `DosHeader::check_sum`: succeeds iff the wrapping word sum is 0. */
  method CheckSum(buf: seq<byte>) returns (ok: bool)
    ensures ok <==> Checksum(buf) == 0
  {
    var sum: u16 := 0;
    var pos: nat := 0;
    while pos < |buf|
      invariant pos % 2 == 0 && pos <= |buf| + 1
      invariant pos / 2 <= WordCount(buf)
      invariant sum == WordSum(buf, pos / 2) % 0x1_0000
      invariant pos >= |buf| ==> pos / 2 == WordCount(buf)
      decreases |buf| - pos
    {
      var high: u16 := if pos + 1 < |buf| then buf[pos + 1] as int else 0;
      var word: u16 := buf[pos] as int + 256 * high;
      assert word == WordAt(buf, pos / 2);
      sum := (sum + word) % 0x1_0000;
      pos := pos + 2;
    }
    ok := sum == 0;
  }

  /** `check_sum` of an empty buffer succeeds. */
  lemma ChecksumOfEmpty()
    ensures Checksum([]) == 0
  {
  }

  lemma {:induction false} WordSumOfAgreeing(a: seq<byte>, b: seq<byte>, n: nat)
    requires n <= WordCount(a) && n <= WordCount(b)
    requires forall k :: 0 <= k < n ==> WordAt(a, k) == WordAt(b, k)
    ensures WordSum(a, n) == WordSum(b, n)
  {
    if n > 0 {
      WordSumOfAgreeing(a, b, n - 1);
    }
  }

  /** An odd trailing byte is added as if padded with a zero byte. */
  lemma OddBytePaddedWithZero(buf: seq<byte>)
    requires |buf| % 2 == 1
    ensures Checksum(buf + [0]) == Checksum(buf)
  {
    var padded := buf + [0];
    assert WordCount(padded) == WordCount(buf);
    forall k | 0 <= k < WordCount(buf) ensures WordAt(padded, k) == WordAt(buf, k) {
    }
    WordSumOfAgreeing(padded, buf, WordCount(buf));
  }

  lemma {:induction false} WordSumOfConcat(a: seq<byte>, b: seq<byte>, n: nat)
    requires |a| % 2 == 0 && n <= WordCount(b)
    ensures WordCount(a + b) == WordCount(a) + WordCount(b)
    ensures WordSum(a + b, WordCount(a) + n) == WordSum(a, WordCount(a)) + WordSum(b, n)
  {
    var ab := a + b;
    if n == 0 {
      forall k | 0 <= k < WordCount(a) ensures WordAt(ab, k) == WordAt(a, k) {
      }
      WordSumOfAgreeing(ab, a, WordCount(a));
    } else {
      WordSumOfConcat(a, b, n - 1);
      var k := WordCount(a) + n - 1;
      assert 2 * k == |a| + 2 * (n - 1);
      assert WordAt(ab, k) == WordAt(b, n - 1);
    }
  }

  /** Checksums of word-aligned pieces add up modulo 2^16. */
  lemma ChecksumOfConcat(a: seq<byte>, b: seq<byte>)
    requires |a| % 2 == 0
    ensures Checksum(a + b) == (Checksum(a) + Checksum(b)) % 0x1_0000
  {
    WordSumOfConcat(a, b, WordCount(b));
    ModOfSum(WordSum(a, WordCount(a)), WordSum(b, WordCount(b)));
  }

  lemma ModOfSum(x: nat, y: nat)
    ensures (x + y) % 0x1_0000 == (x % 0x1_0000 + y % 0x1_0000) % 0x1_0000
  {
  }
}
