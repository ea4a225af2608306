/**
 * Fixed-endianness integer wrappers (the `define_int!` macro of src/util/endian.rs).
 *
 * The macro defines, for each width (u16, u32, u64, u128), a little-endian
 * wrapper `Lu*` that stores the value in little-endian byte order and a
 * big-endian wrapper `Bu*` that stores it in big-endian byte order. The model
 * states the stored representation directly as a byte sequence, so one
 * generic definition, parameterised by the width in bytes, covers all four
 * instantiations.
 */
module Endian {

  type byte = x: int | 0 <= x < 0x100

  /** Widths, in bytes, of the four instantiations of the macro. */
  const Width16: nat := 2
  const Width32: nat := 4
  const Width64: nat := 8
  const Width128: nat := 16

  /** 256^n: one more than the largest value that fits in n bytes. */
  function Pow256(n: nat): (r: nat)
    ensures r >= 1
  {
    if n == 0 then 1 else 256 * Pow256(n - 1)
  }

  /** The number whose little-endian byte image is `bytes`. */
  function LeValue(bytes: seq<byte>): (v: nat)
    ensures v < Pow256(|bytes|)
  {
    if bytes == [] then 0 else bytes[0] as nat + 256 * LeValue(bytes[1..])
  }

  /** The n-byte little-endian image of `v`. */
  function LeBytes(n: nat, v: nat): (bytes: seq<byte>)
    requires v < Pow256(n)
    ensures |bytes| == n
  {
    if n == 0 then [] else [(v % 256) as byte] + LeBytes(n - 1, v / 256)
  }

  /** The number whose big-endian byte image is `bytes`. */
  function BeValue(bytes: seq<byte>): (v: nat)
    ensures v < Pow256(|bytes|)
  {
    if bytes == [] then 0
    else 256 * BeValue(bytes[..|bytes| - 1]) + bytes[|bytes| - 1] as nat
  }

  /** The n-byte big-endian image of `v`. */
  function BeBytes(n: nat, v: nat): (bytes: seq<byte>)
    requires v < Pow256(n)
    ensures |bytes| == n
  {
    if n == 0 then [] else BeBytes(n - 1, v / 256) + [(v % 256) as byte]
  }

  function Reverse(s: seq<byte>): (r: seq<byte>)
    ensures |r| == |s|
  {
    if s == [] then [] else Reverse(s[1..]) + [s[0]]
  }

  /** `Lu*`: the field `le_value` holds the value in little-endian byte order. */
  datatype Lu = Lu(leValue: seq<byte>)

  /** `Bu*`: the field `be_value` holds the value in big-endian byte order. */
  datatype Bu = Bu(beValue: seq<byte>)

  /** `Lu*::new` and `From<V> for Lu*` (width bytes wide). */
  function LuNew(width: nat, value: nat): (w: Lu)
    requires value < Pow256(width)
    ensures |w.leValue| == width
    ensures LuValue(w) == value
  {
    LeRoundTrip(width, value);
    Lu(LeBytes(width, value))
  }

  /** `Lu*::value` and `From<Lu*> for V`. */
  function LuValue(w: Lu): (v: nat)
    ensures v < Pow256(|w.leValue|)
  {
    LeValue(w.leValue)
  }

  /** `Bu*::new` and `From<V> for Bu*`. */
  function BuNew(width: nat, value: nat): (w: Bu)
    requires value < Pow256(width)
    ensures |w.beValue| == width
    ensures BuValue(w) == value
  {
    BeRoundTrip(width, value);
    Bu(BeBytes(width, value))
  }

  /** `Bu*::value` and `From<Bu*> for V`. */
  function BuValue(w: Bu): (v: nat)
    ensures v < Pow256(|w.beValue|)
  {
    BeValue(w.beValue)
  }

  /** The derived `Default`: all storage bytes zero. */
  function LuDefault(width: nat): (w: Lu)
    ensures |w.leValue| == width
  {
    Lu(seq(width, _ => 0 as byte))
  }

  function BuDefault(width: nat): (w: Bu)
    ensures |w.beValue| == width
  {
    Bu(seq(width, _ => 0 as byte))
  }

  /** Dividing by 256 drops one byte of width. */
  lemma DivBound(n: nat, v: nat)
    requires n > 0 && v < Pow256(n)
    ensures v / 256 < Pow256(n - 1)
  {
  }

  lemma ByteOfNat(m: nat)
    requires m < 256
    ensures (m as byte) as nat == m
  {
  }

  lemma LowByte(v: nat)
    ensures ((v % 256) as byte) as nat == v % 256
  {
    ByteOfNat(v % 256);
  }

  lemma DivModByte(b: nat, r: nat)
    requires b < 256
    ensures (b + 256 * r) % 256 == b && (b + 256 * r) / 256 == r
  {
  }

  lemma {:induction false} LeRoundTrip(n: nat, v: nat)
    requires v < Pow256(n)
    ensures LeValue(LeBytes(n, v)) == v
  {
    if n > 0 {
      DivBound(n, v);
      LeRoundTrip(n - 1, v / 256);
      var bytes := LeBytes(n, v);
      assert bytes[1..] == LeBytes(n - 1, v / 256);
      LowByte(v);
      assert LeValue(bytes) == bytes[0] as nat + 256 * LeValue(bytes[1..]);
    }
  }

  lemma {:induction false} LeBytesOfValue(bytes: seq<byte>)
    ensures LeBytes(|bytes|, LeValue(bytes)) == bytes
  {
    if bytes != [] {
      var rest := LeValue(bytes[1..]);
      var v := LeValue(bytes);
      assert v == bytes[0] as nat + 256 * rest;
      DivModByte(bytes[0] as nat, rest);
      LeBytesOfValue(bytes[1..]);
      assert ((v % 256) as byte) == bytes[0];
    }
  }

  lemma {:induction false} BeRoundTrip(n: nat, v: nat)
    requires v < Pow256(n)
    ensures BeValue(BeBytes(n, v)) == v
  {
    if n > 0 {
      DivBound(n, v);
      BeRoundTrip(n - 1, v / 256);
      var bytes := BeBytes(n, v);
      assert bytes[..n - 1] == BeBytes(n - 1, v / 256);
      LowByte(v);
      assert bytes[n - 1] as nat == v % 256;
    }
  }

  /** The last byte of a big-endian image is the value's low byte; the rest is the value / 256. */
  lemma BeValueSplit(bytes: seq<byte>)
    requires bytes != []
    ensures BeValue(bytes) % 256 == bytes[|bytes| - 1] as nat
    ensures BeValue(bytes) / 256 == BeValue(bytes[..|bytes| - 1])
  {
    DivModByte(bytes[|bytes| - 1] as nat, BeValue(bytes[..|bytes| - 1]));
  }

  lemma {:induction false} BeBytesOfValue(bytes: seq<byte>)
    ensures BeBytes(|bytes|, BeValue(bytes)) == bytes
  {
    if bytes != [] {
      var n := |bytes|;
      var init, last := bytes[..n - 1], bytes[n - 1];
      var v := BeValue(bytes);
      BeValueSplit(bytes);
      BeBytesOfValue(init);
      assert (last as nat) as byte == last;
      assert bytes == init + [last];
    }
  }

  /** The big-endian image is exactly the little-endian image reversed. */
  lemma {:induction false} BeIsReversedLe(n: nat, v: nat)
    requires v < Pow256(n)
    ensures BeBytes(n, v) == Reverse(LeBytes(n, v))
  {
    if n > 0 {
      DivBound(n, v);
      BeIsReversedLe(n - 1, v / 256);
      var le := LeBytes(n, v);
      assert le[1..] == LeBytes(n - 1, v / 256);
    }
  }

  /** value(new(v)) == v, little-endian. */
  lemma LuValueOfNew(width: nat, v: nat)
    requires v < Pow256(width)
    ensures LuValue(LuNew(width, v)) == v
  {
  }

  /** new(value(w)) == w, little-endian. */
  lemma LuNewOfValue(w: Lu)
    ensures LuNew(|w.leValue|, LuValue(w)) == w
  {
    LeBytesOfValue(w.leValue);
  }

  /** new(value(w)) == w, big-endian. */
  lemma BuNewOfValue(w: Bu)
    ensures BuNew(|w.beValue|, BuValue(w)) == w
  {
    BeBytesOfValue(w.beValue);
  }

  /** The two wrappers of one value store byte-reversed images of each other. */
  lemma BuIsReversedLu(width: nat, v: nat)
    requires v < Pow256(width)
    ensures BuNew(width, v).beValue == Reverse(LuNew(width, v).leValue)
  {
    BeIsReversedLe(width, v);
  }

  lemma {:induction false} LeValueOfZeros(n: nat)
    ensures LeValue(seq(n, _ => 0 as byte)) == 0
  {
    if n > 0 {
      assert seq(n, _ => 0 as byte)[1..] == seq(n - 1, _ => 0 as byte);
      LeValueOfZeros(n - 1);
    }
  }

  lemma {:induction false} BeValueOfZeros(n: nat)
    ensures BeValue(seq(n, _ => 0 as byte)) == 0
  {
    if n > 0 {
      assert seq(n, _ => 0 as byte)[..n - 1] == seq(n - 1, _ => 0 as byte);
      BeValueOfZeros(n - 1);
    }
  }

  /** The derived `Default` of either wrapper has value 0. */
  lemma DefaultIsZero(width: nat)
    ensures LuValue(LuDefault(width)) == 0
    ensures BuValue(BuDefault(width)) == 0
  {
    LeValueOfZeros(width);
    BeValueOfZeros(width);
  }

  /** The derived `PartialEq`: two wrappers of one width are equal iff their values are. */
  lemma LuEqualIffValueEqual(a: Lu, b: Lu)
    requires |a.leValue| == |b.leValue|
    ensures a == b <==> LuValue(a) == LuValue(b)
  {
    LuNewOfValue(a);
    LuNewOfValue(b);
  }

  lemma BuEqualIffValueEqual(a: Bu, b: Bu)
    requires |a.beValue| == |b.beValue|
    ensures a == b <==> BuValue(a) == BuValue(b)
  {
    BuNewOfValue(a);
    BuNewOfValue(b);
  }
}
