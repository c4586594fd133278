/** Fixed-width unsigned machine words as lists of bits, least significant bit first,
    and the little-endian packing of 96. bitcask/helper.c. */
module Words {
  import Framing

  type Bits = seq<bool>
  type Byte = b: Bits | |b| == 8 witness Zeros(8)
  type Word32 = w: Bits | |w| == 32 witness Zeros(32)
  type Word64 = w: Bits | |w| == 64 witness Zeros(64)

  function Zeros(n: nat): (z: Bits)
    ensures |z| == n && forall i :: 0 <= i < n ==> !z[i]
  {
    seq(n, _ => false)
  }

  function Complement(a: Bits): (r: Bits)
    ensures |r| == |a| && forall i :: 0 <= i < |a| ==> r[i] == !a[i]
  {
    seq(|a|, i requires 0 <= i < |a| => !a[i])
  }

  function Xor(a: Bits, b: Bits): (r: Bits)
    requires |a| == |b|
    ensures |r| == |a| && forall i :: 0 <= i < |a| ==> r[i] == (a[i] != b[i])
  {
    seq(|a|, i requires 0 <= i < |a| => a[i] != b[i])
  }

  function ShiftRight(a: Bits, k: nat): (r: Bits)
    requires k <= |a|
    ensures |r| == |a|
  {
    a[k..] + Zeros(k)
  }

  /** Zero-extension of a byte, as when C promotes it to a 32-bit operand. */
  function Extend(b: Byte): Word32 {
    b + Zeros(24)
  }

  function ToNat(a: Bits): nat {
    if a == [] then 0 else (if a[0] then 1 else 0) + 2 * ToNat(a[1..])
  }

  /** The width-bit word holding n modulo 2^width: C's unsigned conversion. */
  function FromNat(n: nat, width: nat): (a: Bits)
    ensures |a| == width
  {
    if width == 0 then [] else [n % 2 == 1] + FromNat(n / 2, width - 1)
  }

  function Pow2(k: nat): nat {
    if k == 0 then 1 else 2 * Pow2(k - 1)
  }

  lemma {:induction false} ToNatBounded(a: Bits)
    ensures ToNat(a) < Pow2(|a|)
  {
    if a != [] {
      ToNatBounded(a[1..]);
    }
  }

  lemma {:induction false} FromToNat(a: Bits)
    ensures FromNat(ToNat(a), |a|) == a
  {
    if a != [] {
      FromToNat(a[1..]);
    }
  }

  /** Conversion keeps a number exactly when it fits the width. */
  lemma {:induction false} ToFromNat(n: nat, width: nat)
    ensures ToNat(FromNat(n, width)) == n <==> n < Pow2(width)
  {
    if width > 0 {
      ToFromNat(n / 2, width - 1);
      assert FromNat(n, width)[1..] == FromNat(n / 2, width - 1);
      if n < Pow2(width) {
        assert n / 2 < Pow2(width - 1);
      }
    }
  }

  // ----- C values -----

  /** The bit-vector with only bit i set. */
  function Mask(i: nat): bv32 {
    if i == 0 then 1 else Mask(i - 1) << 1
  }

  predicate Has(v: bv32, mask: bv32) { v & mask != 0 }

  /** The bits of a 32-bit C value. */
  function OfBv(v: bv32): (w: Word32) {
    seq(32, i requires 0 <= i < 32 => Has(v, Mask(i)))
  }

  lemma MaskValues()
    ensures Mask(0) == 0x1 && Mask(1) == 0x2 && Mask(2) == 0x4 && Mask(3) == 0x8
    ensures Mask(4) == 0x10 && Mask(5) == 0x20 && Mask(6) == 0x40 && Mask(7) == 0x80
    ensures Mask(8) == 0x100 && Mask(9) == 0x200 && Mask(10) == 0x400 && Mask(11) == 0x800
    ensures Mask(12) == 0x1000 && Mask(13) == 0x2000 && Mask(14) == 0x4000 && Mask(15) == 0x8000
    ensures Mask(16) == 0x10000 && Mask(17) == 0x20000 && Mask(18) == 0x40000 && Mask(19) == 0x80000
    ensures Mask(20) == 0x100000 && Mask(21) == 0x200000 && Mask(22) == 0x400000 && Mask(23) == 0x800000
    ensures Mask(24) == 0x1000000 && Mask(25) == 0x2000000 && Mask(26) == 0x4000000 && Mask(27) == 0x8000000
    ensures Mask(28) == 0x10000000 && Mask(29) == 0x20000000 && Mask(30) == 0x40000000 && Mask(31) == 0x80000000
  {}

  predicate OneBit(m: bv32) { m != 0 && m & (m - 1) == 0 }

  lemma MaskOneBit(i: nat)
    requires i < 32
    ensures OneBit(Mask(i))
  {
    MaskValues();
  }

  lemma MaskNext(i: nat)
    ensures Mask(i + 1) == Mask(i) << 1
  {}

  lemma XorHas(x: bv32, y: bv32, m: bv32)
    requires OneBit(m)
    ensures Has(x ^ y, m) <==> Has(x, m) != Has(y, m)
  {}

  lemma ShiftHas(x: bv32, m: bv32)
    ensures Has(x >> 1, m) <==> Has(x, m << 1)
  {}

  lemma OnesHave(m: bv32)
    requires OneBit(m)
    ensures Has(0xFFFF_FFFF, m)
  {}

  lemma NoBit32(x: bv32)
    ensures !Has(x, Mask(32))
  {
    MaskValues();
    assert Mask(32) == 0;
  }

  lemma ShiftedBit(x: bv32, i: nat)
    ensures Has(x >> 1, Mask(i)) <==> Has(x, Mask(i + 1))
  {
    MaskNext(i);
    ShiftHas(x, Mask(i));
  }

  lemma OfBvShift(x: bv32)
    ensures OfBv(x >> 1) == ShiftRight(OfBv(x), 1)
  {
    NoBit32(x);
    forall i | 0 <= i < 32 ensures OfBv(x >> 1)[i] == ShiftRight(OfBv(x), 1)[i] {
      ShiftedBit(x, i);
    }
  }

  lemma OfBvXor(x: bv32, y: bv32)
    ensures OfBv(x ^ y) == Xor(OfBv(x), OfBv(y))
  {
    forall i | 0 <= i < 32 ensures OfBv(x ^ y)[i] == Xor(OfBv(x), OfBv(y))[i] {
      MaskOneBit(i);
      XorHas(x, y, Mask(i));
    }
  }

  lemma LowBit(x: bv32)
    ensures Has(x, 1) <==> x & 1 == 1
  {}

  lemma OfBvLowBit(x: bv32)
    ensures OfBv(x)[0] <==> x & 1 == 1
  {
    assert Mask(0) == 1;
    LowBit(x);
  }

  lemma OfBvOnes()
    ensures OfBv(0xFFFF_FFFF) == Complement(Zeros(32))
  {
    forall i | 0 <= i < 32 ensures OfBv(0xFFFF_FFFF)[i] {
      MaskOneBit(i);
      OnesHave(Mask(i));
    }
  }

  // ----- little-endian packing -----

  /** The bytes of a word, least significant first. */
  function LittleEndian(w: Bits): (s: seq<Byte>)
    requires |w| % 8 == 0
    ensures |s| == |w| / 8
  {
    if w == [] then [] else [w[..8]] + LittleEndian(w[8..])
  }

  function Flatten(s: seq<Byte>): (w: Bits)
    ensures |w| == 8 * |s|
  {
    if s == [] then [] else s[0] + Flatten(s[1..])
  }

  lemma {:induction false} FlattenAppend(s: seq<Byte>, t: seq<Byte>)
    ensures Flatten(s + t) == Flatten(s) + Flatten(t)
  {
    if s == [] {
      assert s + t == t;
    } else {
      assert (s + t)[1..] == s[1..] + t && (s + t)[0] == s[0];
      FlattenAppend(s[1..], t);
      Framing.Associates(s[0], Flatten(s[1..]), Flatten(t));
    }
  }

  lemma {:induction false} FlattenLittleEndian(w: Bits)
    requires |w| % 8 == 0
    ensures Flatten(LittleEndian(w)) == w
  {
    if w != [] {
      FlattenLittleEndian(w[8..]);
      assert LittleEndian(w)[1..] == LittleEndian(w[8..]);
    }
  }

  lemma {:induction false} LittleEndianFlatten(s: seq<Byte>)
    ensures LittleEndian(Flatten(s)) == s
  {
    if s != [] {
      LittleEndianFlatten(s[1..]);
      assert Flatten(s)[8..] == Flatten(s[1..]);
    }
  }

  lemma {:induction false} FlattenInjective(s: seq<Byte>, t: seq<Byte>)
    requires Flatten(s) == Flatten(t)
    ensures s == t
  {
    LittleEndianFlatten(s);
    LittleEndianFlatten(t);
  }

  /** The low byte that `value & 0xFF` keeps. */
  function LowByte(w: Bits): Byte
    requires |w| >= 8
  {
    w[..8]
  }

  lemma {:induction false} LittleEndianByShifts(w: Bits, k: nat)
    requires |w| % 8 == 0 && 8 * k < |w|
    ensures LittleEndian(w)[k] == LowByte(ShiftRight(w, 8 * k))
  {
    if k == 0 {
      assert ShiftRight(w, 0) == w;
    } else {
      LittleEndianByShifts(w[8..], k - 1);
      assert LowByte(ShiftRight(w[8..], 8 * (k - 1))) == LowByte(ShiftRight(w, 8 * k));
    }
  }

  /** One assignment of pack_u32 or pack_u64: byte k of the value. */
  method PackByte(buf: array<Byte>, at: nat, value: Bits, k: nat)
    requires |value| % 8 == 0 && 8 * k < |value| && at + k < buf.Length
    modifies buf
    ensures buf[..] == old(buf[..])[at + k := LittleEndian(value)[k]]
  {
    LittleEndianByShifts(value, k);
    buf[at + k] := LowByte(ShiftRight(value, 8 * k));
  }

  /** pack_u32: the four bytes at `at`, least significant first; nothing else moves. */
  method PackU32(buf: array<Byte>, at: nat, value: Word32)
    requires at + 4 <= buf.Length
    modifies buf
    ensures buf[..] == old(buf[..at]) + LittleEndian(value) + old(buf[at + 4..])
  {
    PackByte(buf, at, value, 0);
    PackByte(buf, at, value, 1);
    PackByte(buf, at, value, 2);
    PackByte(buf, at, value, 3);
  }

  /** pack_u64: the eight bytes at `at`, least significant first; nothing else moves. */
  method PackU64(buf: array<Byte>, at: nat, value: Word64)
    requires at + 8 <= buf.Length
    modifies buf
    ensures buf[..] == old(buf[..at]) + LittleEndian(value) + old(buf[at + 8..])
  {
    PackByte(buf, at, value, 0);
    PackByte(buf, at, value, 1);
    PackByte(buf, at, value, 2);
    PackByte(buf, at, value, 3);
    PackByte(buf, at, value, 4);
    PackByte(buf, at, value, 5);
    PackByte(buf, at, value, 6);
    PackByte(buf, at, value, 7);
  }
}
