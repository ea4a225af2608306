/**
 * The byte source every reader works on: an immutable sequence of bytes and
 * a cursor position. A `Read` of n bytes at the cursor fails when fewer than
 * n bytes remain; a `Seek` to an absolute position always succeeds and only
 * moves the cursor (as `SeekFrom::Start` does on a file or an in-memory
 * cursor), so a later read is what fails. All failures are a single outcome.
 */
module Stream {

  import opened Endian

  type u8 = x: int | 0 <= x < 0x100
  type u16 = x: int | 0 <= x < 0x1_0000
  type u32 = x: int | 0 <= x < 0x1_0000_0000

  datatype Option<+T> = None | Some(value: T) {
    predicate IsFailure() { None? }

    function PropagateFailure<U>(): Option<U>
      requires None?
    {
      None
    }

    function Extract(): T
      requires Some?
    {
      value
    }
  }

  /** A value read from the source and the cursor position just after it. */
  datatype Parsed<+T> = Parsed(value: T, next: nat)

  /** `read_exact` of n bytes at cursor `pos`. */
  function ReadExact(src: seq<byte>, pos: nat, n: nat): (r: Option<Parsed<seq<byte>>>)
    ensures r.Some? <==> pos + n <= |src|
    ensures r.Some? ==> r.value.next == pos + n && |r.value.value| == n
    ensures r.Some? ==> forall i :: 0 <= i < n ==> r.value.value[i] == src[pos + i]
  {
    if pos + n <= |src| then Some(Parsed(src[pos..pos + n], pos + n)) else None
  }

  /** `u16::from_le_bytes(buf[p..p + 2])`. */
  function GetU16(buf: seq<byte>, p: nat): u16
    requires p + 2 <= |buf|
  {
    buf[p] as int + 256 * buf[p + 1] as int
  }

  /** `u32::from_le_bytes(buf[p..p + 4])`: two little-endian words, low word first. */
  function GetU32(buf: seq<byte>, p: nat): u32
    requires p + 4 <= |buf|
  {
    GetU16(buf, p) + 0x1_0000 * GetU16(buf, p + 2)
  }

  /** The decoders above agree with the endian wrappers' little-endian reading. */
  lemma GetU16IsLeValue(buf: seq<byte>, p: nat)
    requires p + 2 <= |buf|
    ensures GetU16(buf, p) == LeValue(buf[p..p + 2])
  {
    LeValueOfTwo(buf[p..p + 2]);
  }

  lemma GetU32IsLeValue(buf: seq<byte>, p: nat)
    requires p + 4 <= |buf|
    ensures GetU32(buf, p) == LeValue(buf[p..p + 4])
  {
    LeValueOfFour(buf[p..p + 4]);
  }

  lemma LeValueOfTwo(s: seq<byte>)
    requires |s| == 2
    ensures LeValue(s) == s[0] as int + 256 * s[1] as int
  {
    assert s[1..][1..] == [];
    assert LeValue(s[1..]) == s[1] as int + 256 * LeValue(s[1..][1..]);
  }

  lemma LeValueOfFour(s: seq<byte>)
    requires |s| == 4
    ensures LeValue(s) == s[0] as int + 256 * s[1] as int
                          + 0x1_0000 * (s[2] as int + 256 * s[3] as int)
  {
    LeValueOfTwo(s[2..]);
    assert s[1..][1..] == s[2..];
    assert LeValue(s[1..]) == s[1] as int + 256 * LeValue(s[2..]);
  }

  /** The low and high byte of a 16-bit value, as `to_le_bytes` lays them out. */
  function Lo(v: u16): byte { (v % 256) as byte }
  function Hi(v: u16): byte { (v / 256) as byte }

  /** The 16-bit value with low byte `lo` and high byte `hi`. */
  function Word(lo: byte, hi: byte): u16 { lo as int + 256 * hi as int }

  /** The low and high 16-bit halves of a 32-bit value. */
  function LoWord(v: u32): u16 { v % 0x1_0000 }
  function HiWord(v: u32): u16 { v / 0x1_0000 }

  lemma U16Bytes(v: u16)
    ensures Lo(v) as int + 256 * Hi(v) as int == v
  {
    ByteOfNat(v % 256);
    ByteOfNat(v / 256);
  }

  lemma U16OfBytes(b0: byte, b1: byte)
    ensures Lo(b0 as int + 256 * b1 as int) == b0
    ensures Hi(b0 as int + 256 * b1 as int) == b1
  {
    DivModByte(b0 as nat, b1 as nat);
  }

  lemma U32Words(v: u32)
    ensures LoWord(v) + 0x1_0000 * HiWord(v) == v
  {
  }

  lemma U32OfWords(w0: u16, w1: u16)
    ensures 0 <= w0 + 0x1_0000 * w1 < 0x1_0000_0000
    ensures LoWord(w0 + 0x1_0000 * w1) == w0 && HiWord(w0 + 0x1_0000 * w1) == w1
  {
  }

  /** The buffer as a sequence of little-endian words: word k is the u16 at offset 2k. */
  function Words(buf: seq<byte>): (ws: seq<u16>)
    requires |buf| % 2 == 0
    ensures |ws| == |buf| / 2
    ensures forall k :: 0 <= k < |ws| ==> ws[k] == GetU16(buf, 2 * k)
  {
    seq(|buf| / 2, k requires 0 <= k < |buf| / 2 => GetU16(buf, 2 * k))
  }

  /** The little-endian bytes of a sequence of words. */
  function WordBytes(ws: seq<u16>): (buf: seq<byte>)
    ensures |buf| == 2 * |ws|
  {
    seq(2 * |ws|, i requires 0 <= i < 2 * |ws| => if i % 2 == 0 then Lo(ws[i / 2]) else Hi(ws[i / 2]))
  }

  lemma WordsOfWordBytes(ws: seq<u16>)
    ensures Words(WordBytes(ws)) == ws
  {
    var buf := WordBytes(ws);
    forall k | 0 <= k < |ws| ensures Words(buf)[k] == ws[k] {
      U16Bytes(ws[k]);
    }
  }

  lemma WordBytesOfWords(buf: seq<byte>)
    requires |buf| % 2 == 0
    ensures WordBytes(Words(buf)) == buf
  {
    var ws := Words(buf);
    forall i | 0 <= i < |buf| ensures WordBytes(ws)[i] == buf[i] {
      var k := i / 2;
      U16OfBytes(buf[2 * k], buf[2 * k + 1]);
    }
  }

  /** The bytes at `pos` are `a + b` exactly when `a` is at `pos` and `b` follows it. */
  lemma SliceSplit(src: seq<byte>, pos: nat, a: seq<byte>, b: seq<byte>)
    requires pos + |a| + |b| <= |src|
    ensures src[pos..pos + |a| + |b|] == a + b <==>
      src[pos..pos + |a|] == a && src[pos + |a|..pos + |a| + |b|] == b
  {
    var whole := src[pos..pos + |a| + |b|];
    assert whole[..|a|] == src[pos..pos + |a|];
    assert whole[|a|..] == src[pos + |a|..pos + |a| + |b|];
    if src[pos..pos + |a|] == a && src[pos + |a|..pos + |a| + |b|] == b {
      assert whole == whole[..|a|] + whole[|a|..];
    }
  }

  /**
   * A range of `n` reads collected into a `Result<Vec<_>, _>`: n items read
   * back to back, each from where the previous one ended; the first failure
   * fails the whole.
   */
  function ReadMany<T>(read: (seq<byte>, nat) -> Option<Parsed<T>>, src: seq<byte>, pos: nat, n: nat)
    : (r: Option<Parsed<seq<T>>>)
    ensures r.Some? ==> |r.value.value| == n
    decreases n
  {
    if n == 0 then Some(Parsed([], pos))
    else
      match read(src, pos)
      case None => None
      case Some(first) =>
        match ReadMany(read, src, first.next, n - 1)
        case None => None
        case Some(rest) => Some(Parsed([first.value] + rest.value, rest.next))
  }

  /** The total size of a sequence of items. */
  function SumSizes<T>(size: T -> nat, xs: seq<T>): nat
  {
    if xs == [] then 0 else size(xs[0]) + SumSizes(size, xs[1..])
  }

  /** Every successful `read` on `src` consumes exactly the size of what it returns. */
  ghost predicate Consumes<T>(read: (seq<byte>, nat) -> Option<Parsed<T>>, size: T -> nat, src: seq<byte>)
  {
    forall p: nat :: read(src, p).Some? ==> read(src, p).value.next == p + size(read(src, p).value.value)
  }

  lemma {:induction false} ReadManyConsumes<T>(read: (seq<byte>, nat) -> Option<Parsed<T>>, size: T -> nat,
                                               src: seq<byte>, pos: nat, n: nat)
    requires Consumes(read, size, src)
    ensures ReadMany(read, src, pos, n).Some? ==>
      ReadMany(read, src, pos, n).value.next == pos + SumSizes(size, ReadMany(read, src, pos, n).value.value)
    decreases n
  {
    if n > 0 && read(src, pos).Some? {
      var first := read(src, pos).value;
      ReadManyConsumes(read, size, src, first.next, n - 1);
      var rest := ReadMany(read, src, first.next, n - 1);
      if rest.Some? {
        var all := [first.value] + rest.value.value;
        assert all[1..] == rest.value.value;
      }
    }
  }

  /** Each successful `read` on `src` returns an item satisfying `P`. */
  ghost predicate Yields<T>(read: (seq<byte>, nat) -> Option<Parsed<T>>, P: T -> bool, src: seq<byte>)
  {
    forall p: nat :: read(src, p).Some? ==> P(read(src, p).value.value)
  }

  lemma {:induction false} ReadManyYields<T>(read: (seq<byte>, nat) -> Option<Parsed<T>>, P: T -> bool,
                                             src: seq<byte>, pos: nat, n: nat)
    requires Yields(read, P, src)
    ensures ReadMany(read, src, pos, n).Some? ==>
      forall i :: 0 <= i < n ==> P(ReadMany(read, src, pos, n).value.value[i])
    decreases n
  {
    if n > 0 && read(src, pos).Some? {
      var first := read(src, pos).value;
      ReadManyYields(read, P, src, first.next, n - 1);
      var rest := ReadMany(read, src, first.next, n - 1);
      if rest.Some? {
        var all := [first.value] + rest.value.value;
        forall i | 1 <= i < n ensures P(all[i]) {
          assert all[i] == rest.value.value[i - 1];
        }
      }
    }
  }

  /** `read` on `src` succeeds exactly when k bytes remain at the cursor, and then consumes them. */
  ghost predicate FixedSize<T>(read: (seq<byte>, nat) -> Option<Parsed<T>>, k: nat, src: seq<byte>)
  {
    forall p: nat :: (read(src, p).Some? <==> p + k <= |src|)
                     && (read(src, p).Some? ==> read(src, p).value.next == p + k)
  }

  /** Every successful `read` on `src` consumes exactly k bytes. */
  ghost predicate Advances<T>(read: (seq<byte>, nat) -> Option<Parsed<T>>, k: nat, src: seq<byte>)
  {
    forall p: nat :: read(src, p).Some? ==> read(src, p).value.next == p + k
  }

  lemma MulStep(pos: nat, k: nat, i: nat)
    requires i > 0
    ensures pos + k + k * (i - 1) == pos + k * i
  {
  }

  /** Every successful `read` on `src` ends within `src`. */
  ghost predicate StaysWithin<T>(read: (seq<byte>, nat) -> Option<Parsed<T>>, src: seq<byte>)
  {
    forall p: nat :: read(src, p).Some? ==> read(src, p).value.next <= |src|
  }

  lemma {:induction false} ReadManyStaysWithin<T>(read: (seq<byte>, nat) -> Option<Parsed<T>>,
                                                  src: seq<byte>, pos: nat, n: nat)
    requires StaysWithin(read, src)
    ensures ReadMany(read, src, pos, n).Some? && n > 0 ==> ReadMany(read, src, pos, n).value.next <= |src|
    decreases n
  {
    if n > 1 && read(src, pos).Some? {
      ReadManyStaysWithin(read, src, read(src, pos).value.next, n - 1);
    }
  }

  /** With fixed-size items the whole read needs, and consumes, `k * n` bytes. */
  lemma {:induction false} ReadManyFixed<T>(read: (seq<byte>, nat) -> Option<Parsed<T>>, k: nat,
                                            src: seq<byte>, pos: nat, n: nat)
    requires FixedSize(read, k, src)
    ensures ReadMany(read, src, pos, n).Some? <==> n == 0 || pos + k * n <= |src|
    ensures ReadMany(read, src, pos, n).Some? ==> ReadMany(read, src, pos, n).value.next == pos + k * n
    decreases n
  {
    if n > 0 {
      ReadManyFixed(read, k, src, pos + k, n - 1);
      MulStep(pos, k, n);
    }
  }

  /** With fixed-size items, item i is the one read at `pos + k * i`. */
  lemma {:induction false} ReadManyFixedItems<T>(read: (seq<byte>, nat) -> Option<Parsed<T>>, k: nat,
                                                 src: seq<byte>, pos: nat, n: nat)
    requires Advances(read, k, src)
    ensures ReadMany(read, src, pos, n).Some? ==> forall i :: 0 <= i < n ==>
      read(src, pos + k * i).Some? && ReadMany(read, src, pos, n).value.value[i] == read(src, pos + k * i).value.value
    decreases n
  {
    var r := ReadMany(read, src, pos, n);
    if n > 0 && r.Some? {
      ReadManyFixedItems(read, k, src, pos + k, n - 1);
      var first := read(src, pos).value;
      var rest := ReadMany(read, src, pos + k, n - 1).value;
      assert r.value.value == [first.value] + rest.value;
      forall i | 0 <= i < n
        ensures read(src, pos + k * i).Some? && r.value.value[i] == read(src, pos + k * i).value.value
      {
        if i > 0 {
          MulStep(pos, k, i);
          assert r.value.value[i] == rest.value[i - 1];
        }
      }
    }
  }

  /** Reads at `pos + k * i` for i < n: the first one, then those at `pos + k + k * j` for j < n - 1. */
  lemma AllReadsStep<T>(read: (seq<byte>, nat) -> Option<Parsed<T>>, k: nat, src: seq<byte>, pos: nat, n: nat)
    requires n > 0
    ensures (forall i :: 0 <= i < n ==> read(src, pos + k * i).Some?) <==>
      read(src, pos).Some? && forall j :: 0 <= j < n - 1 ==> read(src, pos + k + k * j).Some?
  {
    if forall i :: 0 <= i < n ==> read(src, pos + k * i).Some? {
      AllReadsTail(read, k, src, pos, n);
    }
    if read(src, pos).Some? && forall j :: 0 <= j < n - 1 ==> read(src, pos + k + k * j).Some? {
      AllReadsOfTail(read, k, src, pos, n);
    }
  }

  /** All n reads succeeding include the first one and the n - 1 after it. */
  lemma AllReadsTail<T>(read: (seq<byte>, nat) -> Option<Parsed<T>>, k: nat, src: seq<byte>, pos: nat, n: nat)
    requires n > 0 && forall i :: 0 <= i < n ==> read(src, pos + k * i).Some?
    ensures read(src, pos).Some? && forall j :: 0 <= j < n - 1 ==> read(src, pos + k + k * j).Some?
  {
    assert read(src, pos + k * 0).Some?;
    forall j | 0 <= j < n - 1 ensures read(src, pos + k + k * j).Some? {
      MulStep(pos, k, j + 1);
      assert read(src, pos + k * (j + 1)).Some?;
    }
  }

  /** The first read and the n - 1 after it are all n reads. */
  lemma AllReadsOfTail<T>(read: (seq<byte>, nat) -> Option<Parsed<T>>, k: nat, src: seq<byte>, pos: nat, n: nat)
    requires read(src, pos).Some? && forall j :: 0 <= j < n - 1 ==> read(src, pos + k + k * j).Some?
    ensures forall i :: 0 <= i < n ==> read(src, pos + k * i).Some?
  {
    forall i | 0 <= i < n ensures read(src, pos + k * i).Some? {
      if i > 0 {
        MulStep(pos, k, i);
        assert read(src, pos + k + k * (i - 1)).Some?;
      }
    }
  }

  /** With k-byte items, the whole read succeeds exactly when each of the n reads at `pos + k * i` does. */
  lemma {:induction false} ReadManyAdvancing<T>(read: (seq<byte>, nat) -> Option<Parsed<T>>, k: nat,
                                                src: seq<byte>, pos: nat, n: nat)
    requires Advances(read, k, src)
    ensures ReadMany(read, src, pos, n).Some? <==> forall i :: 0 <= i < n ==> read(src, pos + k * i).Some?
    ensures ReadMany(read, src, pos, n).Some? ==> ReadMany(read, src, pos, n).value.next == pos + k * n
    decreases n
  {
    if n > 0 {
      ReadManyStep(read, src, pos, n);
      AllReadsStep(read, k, src, pos, n);
      if read(src, pos).Some? {
        assert read(src, pos).value.next == pos + k;
        ReadManyAdvancing(read, k, src, pos + k, n - 1);
        MulStep(pos, k, n);
      }
    }
  }

  /** The items' encodings laid end to end. */
  function Concat<T>(enc: T -> seq<byte>, xs: seq<T>): (buf: seq<byte>)
  {
    if xs == [] then [] else enc(xs[0]) + Concat(enc, xs[1..])
  }

  /** `enc` lays every item out in exactly `size` bytes. */
  ghost predicate Sized<T(!new)>(enc: T -> seq<byte>, size: T -> nat)
  {
    forall x :: |enc(x)| == size(x)
  }

  lemma {:induction false} ConcatLength<T(!new)>(enc: T -> seq<byte>, size: T -> nat, xs: seq<T>)
    requires Sized(enc, size)
    ensures |Concat(enc, xs)| == SumSizes(size, xs)
  {
    if xs != [] {
      ConcatLength(enc, size, xs[1..]);
    }
  }

  lemma {:induction false} SumSizesOfConstant<T>(size: T -> nat, k: nat, xs: seq<T>)
    requires forall x :: size(x) == k
    ensures SumSizes(size, xs) == k * |xs|
  {
    if xs != [] {
      SumSizesOfConstant(size, k, xs[1..]);
    }
  }

  /** The encoding of `x` sits in `src` at `p`. */
  ghost predicate EncodedAt<T>(enc: T -> seq<byte>, size: T -> nat, src: seq<byte>, p: nat, x: T)
  {
    p + size(x) <= |src| && src[p..p + size(x)] == enc(x)
  }

  /** Wherever the encoding of an item satisfying `P` sits in `src`, `read` there returns that item and its end. */
  ghost predicate ReadsEncoding<T(!new)>(read: (seq<byte>, nat) -> Option<Parsed<T>>, enc: T -> seq<byte>,
                                   size: T -> nat, P: T -> bool, src: seq<byte>)
  {
    forall p: nat, x {:trigger EncodedAt(enc, size, src, p, x)} :: P(x) && EncodedAt(enc, size, src, p, x) ==> read(src, p) == Some(Parsed(x, p + size(x)))
  }

  /** Items laid out back to back are read back by `ReadMany`, which consumes exactly their bytes. */
  lemma {:induction false} ReadManyOfConcat<T(!new)>(read: (seq<byte>, nat) -> Option<Parsed<T>>, enc: T -> seq<byte>,
                                               size: T -> nat, P: T -> bool, src: seq<byte>, pos: nat, xs: seq<T>)
    requires Sized(enc, size) && ReadsEncoding(read, enc, size, P, src)
    requires forall i :: 0 <= i < |xs| ==> P(xs[i])
    requires pos + SumSizes(size, xs) <= |src|
    requires src[pos..pos + SumSizes(size, xs)] == Concat(enc, xs)
    ensures ReadMany(read, src, pos, |xs|) == Some(Parsed(xs, pos + SumSizes(size, xs)))
    decreases |xs|
  {
    if xs != [] {
      var x, rest := xs[0], xs[1..];
      ConcatHead(enc, size, src, pos, xs);
      var next := pos + size(x);
      ReadOfEncoding(read, enc, size, P, src, pos, x);
      assert forall i :: 0 <= i < |rest| ==> P(rest[i]) by {
        forall i | 0 <= i < |rest| ensures P(rest[i]) { assert rest[i] == xs[i + 1]; }
      }
      ReadManyOfConcat(read, enc, size, P, src, next, rest);
      ReadManyCons(read, src, pos, xs, next, next + SumSizes(size, rest));
      assert [x] + rest == xs;
    }
  }

  /** The first item read at `pos`, then the others after it: `ReadMany` gives them all. */
  lemma ReadManyCons<T>(read: (seq<byte>, nat) -> Option<Parsed<T>>, src: seq<byte>, pos: nat,
                        xs: seq<T>, next: nat, end: nat)
    requires xs != [] && read(src, pos) == Some(Parsed(xs[0], next))
    requires ReadMany(read, src, next, |xs| - 1) == Some(Parsed(xs[1..], end))
    ensures ReadMany(read, src, pos, |xs|) == Some(Parsed(xs, end))
  {
    assert [xs[0]] + xs[1..] == xs;
  }

  /** Where an item's encoding sits, `read` returns the item and its end. */
  lemma ReadOfEncoding<T(!new)>(read: (seq<byte>, nat) -> Option<Parsed<T>>, enc: T -> seq<byte>,
                                size: T -> nat, P: T -> bool, src: seq<byte>, pos: nat, x: T)
    requires ReadsEncoding(read, enc, size, P, src) && P(x)
    requires pos + size(x) <= |src| && src[pos..pos + size(x)] == enc(x)
    ensures read(src, pos) == Some(Parsed(x, pos + size(x)))
  {
    assert EncodedAt(enc, size, src, pos, x);
  }

  /** Items laid out back to back at `pos`: the first item's encoding, then the rest's right after it. */
  lemma ConcatHead<T(!new)>(enc: T -> seq<byte>, size: T -> nat, src: seq<byte>, pos: nat, xs: seq<T>)
    requires Sized(enc, size) && xs != []
    requires pos + SumSizes(size, xs) <= |src|
    requires src[pos..pos + SumSizes(size, xs)] == Concat(enc, xs)
    ensures pos + size(xs[0]) <= |src| && src[pos..pos + size(xs[0])] == enc(xs[0])
    ensures pos + size(xs[0]) + SumSizes(size, xs[1..]) == pos + SumSizes(size, xs)
    ensures src[pos + size(xs[0])..pos + size(xs[0]) + SumSizes(size, xs[1..])] == Concat(enc, xs[1..])
  {
    var x, rest := xs[0], xs[1..];
    assert SumSizes(size, xs) == size(x) + SumSizes(size, rest);
    assert Concat(enc, xs) == enc(x) + Concat(enc, rest);
    ConcatLength(enc, size, rest);
    SliceSplit(src, pos, enc(x), Concat(enc, rest));
  }

  /** Every successful `read` on `src` consumed exactly the encoding of the item it returned. */
  ghost predicate ReadIsEncoding<T>(read: (seq<byte>, nat) -> Option<Parsed<T>>, enc: T -> seq<byte>, src: seq<byte>)
  {
    forall p: nat :: read(src, p).Some? ==>
      p <= read(src, p).value.next <= |src| && src[p..read(src, p).value.next] == enc(read(src, p).value.value)
  }

  /** What `ReadMany` consumed is exactly the items' encodings laid end to end. */
  lemma {:induction false} ReadManyIsConcat<T>(read: (seq<byte>, nat) -> Option<Parsed<T>>, enc: T -> seq<byte>,
                                               src: seq<byte>, pos: nat, n: nat)
    requires ReadIsEncoding(read, enc, src) && pos <= |src|
    ensures ReadMany(read, src, pos, n).Some? ==>
      var r := ReadMany(read, src, pos, n).value;
      pos <= r.next <= |src| && src[pos..r.next] == Concat(enc, r.value)
    decreases n
  {
    if n > 0 && ReadMany(read, src, pos, n).Some? {
      var first := read(src, pos).value;
      ReadManyIsConcat(read, enc, src, first.next, n - 1);
      var rest := ReadMany(read, src, first.next, n - 1).value;
      ConcatCons(enc, src, pos, first.next, rest.next, first.value, rest.value);
    }
  }

  /** An item's encoding followed by more items' encodings is the encoding of the longer sequence. */
  lemma ConcatCons<T>(enc: T -> seq<byte>, src: seq<byte>, pos: nat, mid: nat, end: nat, x: T, xs: seq<T>)
    requires pos <= mid <= end <= |src|
    requires src[pos..mid] == enc(x) && src[mid..end] == Concat(enc, xs)
    ensures src[pos..end] == Concat(enc, [x] + xs)
  {
    assert ([x] + xs)[0] == x && ([x] + xs)[1..] == xs;
    assert src[pos..end] == src[pos..mid] + src[mid..end];
  }

  /** The items of `acc` in front of a read result's items; a failure stays a failure. */
  function Prepend<T>(acc: seq<T>, r: Option<Parsed<seq<T>>>): (s: Option<Parsed<seq<T>>>)
    ensures s.Some? <==> r.Some?
    ensures s.Some? ==> s.value.value == acc + r.value.value && s.value.next == r.value.next
  {
    match r
    case None => None
    case Some(p) => Some(Parsed(acc + p.value, p.next))
  }

  lemma PrependNil<T>(r: Option<Parsed<seq<T>>>)
    ensures Prepend([], r) == r
  {
    if r.Some? {
      assert [] + r.value.value == r.value.value;
    }
  }

  lemma PrependPrepend<T>(acc: seq<T>, more: seq<T>, r: Option<Parsed<seq<T>>>)
    ensures Prepend(acc, Prepend(more, r)) == Prepend(acc + more, r)
  {
    if r.Some? {
      assert acc + (more + r.value.value) == (acc + more) + r.value.value;
    }
  }

  /** One step of `ReadMany`: the first item in front of the other n - 1. */
  lemma ReadManyStep<T>(read: (seq<byte>, nat) -> Option<Parsed<T>>, src: seq<byte>, pos: nat, n: nat)
    requires n > 0
    ensures read(src, pos).None? ==> ReadMany(read, src, pos, n).None?
    ensures read(src, pos).Some? ==>
      ReadMany(read, src, pos, n)
        == Prepend([read(src, pos).value.value], ReadMany(read, src, read(src, pos).value.next, n - 1))
  {
  }

  /**
   * The invariant of a loop that performs `ReadMany` one item at a time:
   * after i of the n reads, the items so far are `acc`, the cursor is `cur`,
   * and the remaining reads complete the whole.
   */
  ghost predicate ReadManyLoop<T>(read: (seq<byte>, nat) -> Option<Parsed<T>>, src: seq<byte>, start: nat, n: nat,
                                  acc: seq<T>, cur: nat, i: nat)
  {
    i <= n && ReadMany(read, src, start, n) == Prepend(acc, ReadMany(read, src, cur, n - i))
  }

  lemma ReadManyLoopInit<T>(read: (seq<byte>, nat) -> Option<Parsed<T>>, src: seq<byte>, start: nat, n: nat)
    ensures ReadManyLoop(read, src, start, n, [], start, 0)
  {
    PrependNil(ReadMany(read, src, start, n));
  }

  lemma ReadManyLoopStep<T>(read: (seq<byte>, nat) -> Option<Parsed<T>>, src: seq<byte>, start: nat, n: nat,
                            acc: seq<T>, cur: nat, i: nat)
    requires ReadManyLoop(read, src, start, n, acc, cur, i) && i < n
    ensures read(src, cur).None? ==> ReadMany(read, src, start, n).None?
    ensures read(src, cur).Some? ==>
      ReadManyLoop(read, src, start, n, acc + [read(src, cur).value.value], read(src, cur).value.next, i + 1)
  {
    ReadManyStep(read, src, cur, n - i);
    if read(src, cur).Some? {
      var x := read(src, cur).value;
      PrependPrepend(acc, [x.value], ReadMany(read, src, x.next, n - i - 1));
    }
  }

  lemma ReadManyLoopEnd<T>(read: (seq<byte>, nat) -> Option<Parsed<T>>, src: seq<byte>, start: nat, n: nat,
                           acc: seq<T>, cur: nat)
    requires ReadManyLoop(read, src, start, n, acc, cur, n)
    ensures ReadMany(read, src, start, n) == Some(Parsed(acc, cur))
  {
    assert acc + [] == acc;
  }

  /** `Vec::resize(n, 0)`: truncate, or extend with zero bytes. */
  function Resized(data: seq<byte>, n: nat): (r: seq<byte>)
    ensures |r| == n
    ensures forall i :: 0 <= i < n ==> r[i] == (if i < |data| then data[i] else 0)
  {
    if n <= |data| then data[..n] else data + seq(n - |data|, _ => 0)
  }
}
