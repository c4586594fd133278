/** The table-driven reflected CRC-32 of 96. bitcask/helper.c: that it is polynomial
    division, and what it guarantees about corrupted messages. */
module Crc32 {
  import opened Words

  const POLYNOMIAL: Word32 := OfBv(0xEDB8_8320)

  const ONES: Word32 := Complement(Zeros(32))

  /** One pass of the inner loop of crc32_init. */
  function Step(c: Word32): Word32 {
    if c[0] then Xor(ShiftRight(c, 1), POLYNOMIAL) else ShiftRight(c, 1)
  }

  function Steps(c: Word32, k: nat): Word32
    decreases k
  {
    if k == 0 then c else Steps(Step(c), k - 1)
  }

  /** The message bit meets the low end of the register. */
  function FeedBit(c: Word32, b: bool): Word32 {
    Step(c[0 := c[0] != b])
  }

  /** The bit-serial register, fed in transmission order. */
  function Run(c: Word32, bits: Bits): Word32
    decreases bits
  {
    if bits == [] then c else Run(FeedBit(c, bits[0]), bits[1..])
  }

  /** The checksum: all-ones register in, complemented register out. */
  function Crc(data: seq<Byte>): Word32 {
    Complement(Run(ONES, Flatten(data)))
  }

  // ----- one step -----

  /** The generator x^32 + x^26 + ... + 1 of RFC 1952, section 8: POLYNOMIAL lists the
      coefficients of x^31 down to x^0. */
  function GeneratorExponents(): set<nat> {
    {26, 23, 22, 16, 12, 11, 10, 8, 7, 5, 4, 2, 1, 0}
  }

  lemma PolynomialCoefficients(i: nat)
    requires i < 32
    ensures POLYNOMIAL[i] <==> 31 - i in GeneratorExponents()
  {
    MaskValues();
  }

  lemma StepAt(c: Word32, i: nat)
    requires i < 32
    ensures Step(c)[i] == ((i < 31 && c[i + 1]) != (c[0] && POLYNOMIAL[i]))
  {}

  lemma StepLinear(a: Word32, b: Word32)
    ensures Step(Xor(a, b)) == Xor(Step(a), Step(b))
  {
    forall i | 0 <= i < 32 ensures Step(Xor(a, b))[i] == Xor(Step(a), Step(b))[i] {
      StepAt(a, i);
      StepAt(b, i);
      StepAt(Xor(a, b), i);
    }
  }

  lemma StepInjective(a: Word32, b: Word32)
    requires Step(a) == Step(b)
    ensures a == b
  {
    PolynomialCoefficients(31);
    StepAt(a, 31);
    StepAt(b, 31);
    forall i | 0 < i < 32 ensures a[i] == b[i] {
      StepAt(a, i - 1);
      StepAt(b, i - 1);
    }
  }

  lemma {:induction false} StepsLinear(a: Word32, b: Word32, k: nat)
    ensures Steps(Xor(a, b), k) == Xor(Steps(a, k), Steps(b, k))
    decreases k
  {
    if k > 0 {
      StepLinear(a, b);
      StepsLinear(Step(a), Step(b), k - 1);
    }
  }

  lemma {:induction false} StepsInjective(a: Word32, b: Word32, k: nat)
    requires Steps(a, k) == Steps(b, k)
    ensures a == b
    decreases k
  {
    if k > 0 {
      StepsInjective(Step(a), Step(b), k - 1);
      StepInjective(a, b);
    }
  }

  /** Steps on a register whose k low bits are clear only shift it. */
  lemma {:induction false} QuietSteps(h: Bits, k: nat)
    requires |h| + k == 32
    ensures Steps(Zeros(k) + h, k) == h + Zeros(k)
    decreases k
  {
    if k == 0 {
      assert Zeros(0) + h == h == h + Zeros(0);
    } else {
      assert Step(Zeros(k) + h) == Zeros(k - 1) + (h + [false]);
      QuietSteps(h + [false], k - 1);
      assert (h + [false]) + Zeros(k - 1) == h + Zeros(k);
    }
  }

  /** The table lookup of crc32_of: eight steps are one shift and one table entry. */
  lemma TableLookup(x: Word32)
    ensures Steps(x, 8) == Xor(ShiftRight(x, 8), Steps(Extend(LowByte(x)), 8))
  {
    var h: Word32 := Zeros(8) + x[8..];
    assert x == Xor(h, Extend(LowByte(x)));
    StepsLinear(h, Extend(LowByte(x)), 8);
    QuietSteps(x[8..], 8);
  }

  // ----- whole messages -----

  lemma FeedBitMix(c: Word32, b: bool, rest: Bits)
    requires |rest| == 31
    ensures Step(Xor(c, [b] + rest)) == Xor(FeedBit(c, b), rest + [false])
  {
    var c': Word32, w: Word32 := c[0 := c[0] != b], [false] + rest;
    assert Xor(c, [b] + rest) == Xor(c', w);
    StepLinear(c', w);
    assert Step(w) == rest + [false];
  }

  /** Feeding at most 32 bits is running free from the register with those bits mixed in:
      for 32 bits, 32 steps of `register ^ word`. */
  lemma {:induction false} RunIsSteps(c: Word32, bits: Bits)
    requires |bits| <= 32
    ensures Run(c, bits) == Steps(Xor(c, bits + Zeros(32 - |bits|)), |bits|)
    decreases bits
  {
    if bits == [] {
      assert Xor(c, Zeros(32)) == c && [] + Zeros(32) == Zeros(32);
    } else {
      var pad := Zeros(32 - |bits|);
      var f := FeedBit(c, bits[0]);
      assert Step(Xor(c, bits + pad)) == Xor(f, bits[1..] + Zeros(33 - |bits|)) by {
        FeedBitMix(c, bits[0], bits[1..] + pad);
        assert bits + pad == [bits[0]] + (bits[1..] + pad);
        assert (bits[1..] + pad) + [false] == bits[1..] + Zeros(33 - |bits|);
      }
      RunIsSteps(f, bits[1..]);
    }
  }

  lemma {:induction false} RunAppend(c: Word32, s: Bits, t: Bits)
    ensures Run(c, s + t) == Run(Run(c, s), t)
    decreases s
  {
    if s == [] {
      assert s + t == t;
    } else {
      assert (s + t)[1..] == s[1..] + t;
      RunAppend(FeedBit(c, s[0]), s[1..], t);
    }
  }

  lemma {:induction false} RunLinear(x: Word32, y: Word32, a: Bits, b: Bits)
    requires |a| == |b|
    ensures Run(Xor(x, y), Xor(a, b)) == Xor(Run(x, a), Run(y, b))
    decreases a
  {
    if a == [] {
    } else {
      var x': Word32, y': Word32 := x[0 := x[0] != a[0]], y[0 := y[0] != b[0]];
      assert Xor(x, y)[0 := Xor(x, y)[0] != Xor(a, b)[0]] == Xor(x', y');
      StepLinear(x', y');
      assert Xor(a, b)[1..] == Xor(a[1..], b[1..]);
      RunLinear(Step(x'), Step(y'), a[1..], b[1..]);
    }
  }

  lemma {:induction false} RunInjective(x: Word32, y: Word32, bits: Bits)
    requires Run(x, bits) == Run(y, bits)
    ensures x == y
    decreases bits
  {
    if bits != [] {
      RunInjective(FeedBit(x, bits[0]), FeedBit(y, bits[0]), bits[1..]);
      var x': Word32, y': Word32 := x[0 := x[0] != bits[0]], y[0 := y[0] != bits[0]];
      StepInjective(x', y');
      assert x == x'[0 := x'[0] != bits[0]] && y == y'[0 := y'[0] != bits[0]];
    }
  }

  /** Bytewise exclusive or of two messages of one length. */
  function XorBytes(a: seq<Byte>, b: seq<Byte>): (r: seq<Byte>)
    requires |a| == |b|
    ensures |r| == |a|
  {
    seq(|a|, i requires 0 <= i < |a| => Xor(a[i], b[i]))
  }

  lemma {:induction false} FlattenXor(a: seq<Byte>, b: seq<Byte>)
    requires |a| == |b|
    ensures Flatten(XorBytes(a, b)) == Xor(Flatten(a), Flatten(b))
  {
    if a != [] {
      assert XorBytes(a, b)[1..] == XorBytes(a[1..], b[1..]);
      FlattenXor(a[1..], b[1..]);
    }
  }

  /** The checksum is affine: over three messages of one length the complements cancel. */
  lemma CrcAffine(a: seq<Byte>, b: seq<Byte>, c: seq<Byte>)
    requires |a| == |b| == |c|
    ensures Crc(XorBytes(XorBytes(a, b), c)) == Xor(Xor(Crc(a), Crc(b)), Crc(c))
  {
    FlattenXor(a, b);
    FlattenXor(XorBytes(a, b), c);
    RunLinear(ONES, ONES, Flatten(a), Flatten(b));
    RunLinear(Xor(ONES, ONES), ONES, Flatten(XorBytes(a, b)), Flatten(c));
    assert Xor(Xor(ONES, ONES), ONES) == ONES;
  }

  /** A corruption goes unnoticed exactly when the difference alone drives the all-zero
      register back to zero: detection does not depend on the message. */
  lemma UndetectedIff(a: seq<Byte>, b: seq<Byte>)
    requires |a| == |b|
    ensures Crc(a) == Crc(b) <==> Run(Zeros(32), Flatten(XorBytes(a, b))) == Zeros(32)
  {
    var p, q := Run(ONES, Flatten(a)), Run(ONES, Flatten(b));
    FlattenXor(a, b);
    RunLinear(ONES, ONES, Flatten(a), Flatten(b));
    assert Xor(ONES, ONES) == Zeros(32);
    assert Run(Zeros(32), Flatten(XorBytes(a, b))) == Xor(p, q);
    forall i | 0 <= i < 32 ensures Complement(p)[i] == Complement(q)[i] <==> !Xor(p, q)[i] {}
  }

  lemma {:induction false} RunQuiet(k: nat)
    ensures Run(Zeros(32), Zeros(k)) == Zeros(32)
    decreases k
  {
    if k > 0 {
      assert Zeros(k)[1..] == Zeros(k - 1);
      assert Step(Zeros(32)) == Zeros(32);
      RunQuiet(k - 1);
    }
  }

  /** Windows of at most 32 bits are told apart by the register. */
  lemma WindowSeparates(c: Word32, u: Bits, v: Bits)
    requires |u| == |v| <= 32 && Run(c, u) == Run(c, v)
    ensures u == v
  {
    var k := |u|;
    var cu: Word32, cv: Word32 := Xor(c, u + Zeros(32 - k)), Xor(c, v + Zeros(32 - k));
    RunIsSteps(c, u);
    RunIsSteps(c, v);
    StepsInjective(cu, cv, k);
    forall i | 0 <= i < k ensures u[i] == v[i] {
      assert cu[i] == (c[i] != u[i]) && cv[i] == (c[i] != v[i]);
    }
  }

  lemma RunThree(c: Word32, s: Bits, u: Bits, t: Bits)
    ensures Run(c, s + u + t) == Run(Run(Run(c, s), u), t)
  {
    RunAppend(c, s + u, t);
    RunAppend(c, s, u);
  }

  lemma WindowsDetected(s: Bits, u: Bits, v: Bits, t: Bits)
    requires |u| == |v| <= 32 && Run(ONES, s + u + t) == Run(ONES, s + v + t)
    ensures u == v
  {
    var c := Run(ONES, s);
    RunThree(ONES, s, u, t);
    RunThree(ONES, s, v, t);
    RunInjective(Run(c, u), Run(c, v), t);
    WindowSeparates(c, u, v);
  }

  lemma ThreeParts(x: Bits, lo: nat, hi: nat)
    requires lo <= hi <= |x|
    ensures x == x[..lo] + x[lo..hi] + x[hi..]
  {}

  /** Every error burst of at most 32 bits is detected, wherever it starts and whatever the
      message: two messages that agree outside such a window have different checksums. */
  lemma {:induction false} BurstDetected(a: seq<Byte>, b: seq<Byte>, lo: nat, k: nat)
    requires |a| == |b| && k <= 32 && lo + k <= 8 * |a|
    requires Flatten(a)[..lo] == Flatten(b)[..lo] && Flatten(a)[lo + k..] == Flatten(b)[lo + k..]
    requires a != b
    ensures Crc(a) != Crc(b)
  {
    var x, y := Flatten(a), Flatten(b);
    ThreeParts(x, lo, lo + k);
    ThreeParts(y, lo, lo + k);
    if Crc(a) == Crc(b) {
      ComplementInjective(Run(ONES, x), Run(ONES, y));
      WindowsDetected(x[..lo], x[lo..lo + k], y[lo..lo + k], x[lo + k..]);
      FlattenInjective(a, b);
    }
  }

  lemma ComplementInjective(p: Word32, q: Word32)
    requires Complement(p) == Complement(q)
    ensures p == q
  {
    assert Complement(Complement(p)) == p && Complement(Complement(q)) == q;
  }

  /** The same for a window of four bytes. */
  lemma FourByteBurstDetected(a: seq<Byte>, b: seq<Byte>, lo: nat, k: nat)
    requires |a| == |b| && k <= 4 && lo + k <= |a|
    requires a[..lo] == b[..lo] && a[lo + k..] == b[lo + k..]
    requires a != b
    ensures Crc(a) != Crc(b)
  {
    FlattenAgree(a, b, lo, lo + k);
    BurstDetected(a, b, 8 * lo, 8 * k);
  }

  lemma FlattenAgree(a: seq<Byte>, b: seq<Byte>, lo: nat, hi: nat)
    requires |a| == |b| && lo <= hi <= |a| && a[..lo] == b[..lo] && a[hi..] == b[hi..]
    ensures Flatten(a)[..8 * lo] == Flatten(b)[..8 * lo] && Flatten(a)[8 * hi..] == Flatten(b)[8 * hi..]
  {
    FlattenSplit(a, lo);
    FlattenSplit(b, lo);
    FlattenSplit(a, hi);
    FlattenSplit(b, hi);
  }

  lemma FlattenSplit(a: seq<Byte>, n: nat)
    requires n <= |a|
    ensures Flatten(a)[..8 * n] == Flatten(a[..n]) && Flatten(a)[8 * n..] == Flatten(a[n..])
  {
    assert a == a[..n] + a[n..];
    FlattenAppend(a[..n], a[n..]);
  }

  lemma PaddedVanishes(g: Bits, before: nat, after: nat)
    requires Run(Zeros(32), g) == Zeros(32)
    ensures Run(Zeros(32), Zeros(before) + g + Zeros(after)) == Zeros(32)
  {
    RunThree(Zeros(32), Zeros(before), g, Zeros(after));
    RunQuiet(before);
    RunQuiet(after);
  }

  /** An error pattern that clears the register is missed wherever it strikes. */
  lemma PatternMissed(a: seq<Byte>, lo: nat, g: Bits) returns (b: seq<Byte>)
    requires lo + |g| <= 8 * |a| && g != [] && g[0] && Run(Zeros(32), g) == Zeros(32)
    ensures |b| == |a| && b != a && Crc(b) == Crc(a)
    ensures Flatten(a)[..lo] == Flatten(b)[..lo] && Flatten(a)[lo + |g|..] == Flatten(b)[lo + |g|..]
  {
    var x := Flatten(a);
    var e := Zeros(lo) + g + Zeros(|x| - lo - |g|);
    var y := Xor(x, e);
    b := LittleEndian(y);
    FlattenLittleEndian(y);
    PatternPlaced(x, lo, g);
    FlattenXor(a, b);
    XorTwice(x, e);
    PaddedVanishes(g, lo, |x| - lo - |g|);
    UndetectedIff(a, b);
  }

  lemma XorTwice(x: Bits, e: Bits)
    requires |x| == |e|
    ensures Xor(x, Xor(x, e)) == e
  {}

  lemma PatternPlaced(x: Bits, lo: nat, g: Bits)
    requires lo + |g| <= |x| && g != [] && g[0]
    ensures var y := Xor(x, Zeros(lo) + g + Zeros(|x| - lo - |g|));
      y[lo] != x[lo] && y[..lo] == x[..lo] && y[lo + |g|..] == x[lo + |g|..]
  {}

  /** The bound is tight: the 33-bit generator pattern, anywhere in any message long enough
      to hold it, is an error the checksum misses. */
  lemma {:induction false} BurstBoundTight(a: seq<Byte>, lo: nat) returns (b: seq<Byte>)
    requires lo + 33 <= 8 * |a|
    ensures |b| == |a| && b != a && Crc(b) == Crc(a)
    ensures Flatten(a)[..lo] == Flatten(b)[..lo] && Flatten(a)[lo + 33..] == Flatten(b)[lo + 33..]
  {
    GeneratorVanishes();
    b := PatternMissed(a, lo, [true] + POLYNOMIAL);
  }

  lemma RunSelf(c: Word32)
    ensures Run(c, c) == Zeros(32)
  {
    RunIsSteps(c, c);
    assert c + Zeros(0) == c;
    assert Xor(c, c) == Zeros(32) + [];
    QuietSteps([], 32);
  }

  lemma RunFront(c: Word32, b: bool, bits: Bits)
    ensures Run(c, [b] + bits) == Run(FeedBit(c, b), bits)
  {
    assert ([b] + bits)[1..] == bits;
  }

  lemma FeedOne()
    ensures FeedBit(Zeros(32), true) == POLYNOMIAL
  {
    var c: Word32 := Zeros(32)[0 := true];
    forall i | 0 <= i < 32 ensures Step(c)[i] == POLYNOMIAL[i] {
      StepAt(c, i);
    }
  }

  lemma GeneratorVanishes()
    ensures Run(Zeros(32), [true] + POLYNOMIAL) == Zeros(32)
  {
    RunFront(Zeros(32), true, POLYNOMIAL);
    FeedOne();
    RunSelf(POLYNOMIAL);
  }

  lemma CrcWithTrailer(data: seq<Byte>, w: Word32)
    ensures Crc(data + LittleEndian(w)) == Complement(Steps(Xor(Run(ONES, Flatten(data)), w), 32))
  {
    FlattenAppend(data, LittleEndian(w));
    FlattenLittleEndian(w);
    RunAppend(ONES, Flatten(data), w);
    RunIsSteps(Run(ONES, Flatten(data)), w);
    assert w + Zeros(0) == w;
  }

  /** One pass of the inner loop of crc32_init on the C word itself. */
  function StepBv(c: bv32): bv32 {
    if c & 1 == 1 then (c >> 1) ^ 0xEDB8_8320 else c >> 1
  }

  function StepsBv(c: bv32, k: nat): bv32
    decreases k
  {
    if k == 0 then c else StepsBv(StepBv(c), k - 1)
  }

  lemma StepOfBv(c: bv32)
    ensures Step(OfBv(c)) == OfBv(StepBv(c))
  {
    OfBvLowBit(c);
    OfBvShift(c);
    OfBvXor(c >> 1, 0xEDB8_8320);
  }

  lemma {:induction false} StepsOfBv(c: bv32, k: nat)
    ensures Steps(OfBv(c), k) == OfBv(StepsBv(c, k))
    decreases k
  {
    if k > 0 {
      StepOfBv(c);
      StepsOfBv(StepBv(c), k - 1);
    }
  }

  lemma {:induction false} StepsBvAdd(c: bv32, j: nat, k: nat)
    ensures StepsBv(c, j + k) == StepsBv(StepsBv(c, j), k)
    decreases j
  {
    if j > 0 {
      StepsBvAdd(StepBv(c), j - 1, k);
    }
  }

  lemma OnesAfterWord()
    ensures StepsBv(0xFFFF_FFFF, 32) == !0x2144_DF1C
  {
    assert StepsBv(0xFFFFFFFF, 8) == 0x2DFD1072;
    assert StepsBv(0x2DFD1072, 8) == 0xBE26ED00;
    assert StepsBv(0xBE26ED00, 8) == 0xBE26ED;
    assert StepsBv(0xBE26ED, 8) == 0xDEBB20E3;
    StepsBvAdd(0xFFFF_FFFF, 8, 24);
    StepsBvAdd(0x2DFD1072, 8, 16);
    StepsBvAdd(0xBE26ED00, 8, 8);
  }

  lemma OnesRun()
    ensures Complement(Steps(ONES, 32)) == OfBv(0x2144_DF1C)
  {
    OfBvOnes();
    StepsOfBv(0xFFFF_FFFF, 32);
    OnesAfterWord();
    OfBvXor(!0x2144_DF1C, 0xFFFF_FFFF);
  }

  /** A message followed by four little-endian bytes checks to 0x2144DF1C, whatever the
      message, exactly when those bytes are its checksum. */
  lemma CrcResidueIff(data: seq<Byte>, w: Word32)
    ensures Crc(data + LittleEndian(w)) == OfBv(0x2144_DF1C) <==> w == Crc(data)
  {
    var c := Run(ONES, Flatten(data));
    CrcWithTrailer(data, w);
    OnesRun();
    XorIsOnesIff(c, w);
    if Crc(data + LittleEndian(w)) == OfBv(0x2144_DF1C) {
      ComplementInjective(Steps(Xor(c, w), 32), Steps(ONES, 32));
      StepsInjective(Xor(c, w), ONES, 32);
    }
  }

  lemma XorIsOnesIff(c: Word32, w: Word32)
    ensures Xor(c, w) == ONES <==> w == Complement(c)
  {
    forall i | 0 <= i < 32 ensures Xor(c, w)[i] == ONES[i] <==> w[i] == Complement(c)[i] {}
  }

  // ----- the checksum as a polynomial remainder -----

  /** Coefficient of x^31, ..., x^0 of the generator, below its leading x^32. */
  function Generator(): (g: Word32) {
    seq(32, i requires 0 <= i < 32 => 31 - i in GeneratorExponents())
  }

  /** Adds d to the leading coefficients of s. */
  function XorHead(s: Bits, d: Bits): (r: Bits)
    requires |d| <= |s|
    ensures |r| == |s|
  {
    Xor(s[..|d|], d) + s[|d|..]
  }

  /** Schoolbook division over GF(2), leading coefficient first: the remainder of s modulo
      the generator. */
  function Remainder(s: Bits): Word32
    requires |s| >= 32
    decreases |s|
  {
    if |s| == 32 then s
    else if s[0] then Remainder(XorHead(s[1..], Generator()))
    else Remainder(s[1..])
  }

  lemma DivisionStep(c: Word32, s: Bits)
    requires |s| > 32
    ensures var r := XorHead(s, c);
      XorHead(s[1..], FeedBit(c, s[0])) == if r[0] then XorHead(r[1..], Generator()) else r[1..]
  {
    var r := XorHead(s, c);
    var e: Word32 := c[0 := c[0] != s[0]];
    assert r[0] == e[0];
    forall i | 0 <= i < |s| - 1
      ensures XorHead(s[1..], Step(e))[i] == (if r[0] then XorHead(r[1..], Generator()) else r[1..])[i]
    {
      if i < 32 {
        StepAt(e, i);
        PolynomialCoefficients(i);
      }
    }
  }

  lemma {:induction false} RunDivides(c: Word32, bits: Bits)
    ensures Remainder(XorHead(bits + Zeros(32), c)) == Run(c, bits)
    decreases bits
  {
    var s := bits + Zeros(32);
    if bits == [] {
      assert XorHead(s, c) == c;
    } else {
      DivisionStep(c, s);
      assert s[1..] == bits[1..] + Zeros(32);
      RunDivides(FeedBit(c, bits[0]), bits[1..]);
    }
  }

  /** The checksum as RFC 1952 defines it: complement the first 32 coefficients of the
      message times x^32, divide, complement the remainder. */
  lemma CrcIsRemainder(data: seq<Byte>)
    ensures Crc(data) == Complement(Remainder(XorHead(Flatten(data) + Zeros(32), ONES)))
  {
    RunDivides(ONES, Flatten(data));
  }

  // ----- the code -----

  ghost predicate IsTable(t: seq<Word32>) {
    |t| == 256 && forall i :: 0 <= i < 256 ==> t[i] == Steps(FromNat(i, 32), 8)
  }

  /** The inner loop of crc32_init, for any number of turns. */
  method TableEntry(start: Word32, turns: nat) returns (crc: Word32)
    ensures crc == Steps(start, turns)
  {
    crc := start;
    for j := 0 to turns
      invariant Steps(crc, turns - j) == Steps(start, turns)
    {
      ghost var next := Step(crc);
      if crc[0] {
        crc := Xor(ShiftRight(crc, 1), POLYNOMIAL);
      } else {
        crc := ShiftRight(crc, 1);
      }
      assert crc == next;
    }
  }

  ghost function Entries(): (t: seq<Word32>)
    ensures IsTable(t)
  {
    seq(256, i requires 0 <= i < 256 => Steps(FromNat(i, 32), 8))
  }

  /** The pass of the outer loop of crc32_init for one index. */
  method EntryOf(i: nat) returns (entry: Word32)
    requires i < 256
    ensures entry == Entries()[i]
  {
    entry := TableEntry(FromNat(i, 32), 8);
  }

  class Checksum {
    const table: array<Word32>

    constructor ()
      ensures fresh(table) && table.Length == 256
    {
      table := new Word32[256];
    }

    /** crc32_init. */
    method Init()
      requires table.Length == 256
      modifies table
      ensures IsTable(table[..])
    {
      ghost var entries := Entries();
      for i := 0 to 256
        invariant table[..i] == entries[..i]
      {
        var entry := EntryOf(i);
        table[i] := entry;
      }
      assert table[..] == table[..256] && entries == entries[..256];
    }

    /** crc32_of. */
    method Of(bytes: seq<Byte>) returns (result: Word32)
      requires table.Length == 256
      modifies table
      ensures result == Crc(bytes)
    {
      Init();
      var crc: Word32 := ONES;
      for i := 0 to |bytes|
        invariant Run(crc, Flatten(bytes[i..])) == Run(ONES, Flatten(bytes))
        invariant IsTable(table[..])
      {
        var index := ToNat(LowByte(Xor(crc, Extend(bytes[i]))));
        IndexInTable(Xor(crc, Extend(bytes[i])));
        assert table[index] == table[..][index];
        RunByte(crc, bytes[i]);
        RunAppend(crc, bytes[i], Flatten(bytes[i + 1..]));
        assert bytes[i..][1..] == bytes[i + 1..];
        crc := Xor(ShiftRight(crc, 8), table[index]);
      }
      result := Xor(crc, ONES);
    }
  }

  lemma IndexInTable(x: Word32)
    ensures ToNat(LowByte(x)) < 256 && FromNat(ToNat(LowByte(x)), 32) == Extend(LowByte(x))
  {
    ToNatBounded(LowByte(x));
    FromNatExtends(LowByte(x), 24);
  }

  lemma {:induction false} FromNatExtends(a: Bits, k: nat)
    ensures FromNat(ToNat(a), |a| + k) == a + Zeros(k)
  {
    if a == [] {
      if k > 0 {
        FromNatExtends([], k - 1);
      }
    } else {
      FromNatExtends(a[1..], k);
    }
  }

  /** One pass of the loop in crc32_of on the bits of one byte. */
  lemma RunByte(c: Word32, b: Byte)
    ensures var x := Xor(c, Extend(b));
      Run(c, b) == Xor(ShiftRight(c, 8), Steps(Extend(LowByte(x)), 8))
  {
    var x: Word32 := Xor(c, Extend(b));
    RunIsSteps(c, b);
    TableLookup(x);
    assert ShiftRight(x, 8) == ShiftRight(c, 8) by {
      assert x[8..] == c[8..];
    }
  }
}
