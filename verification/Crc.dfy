/** The checksum of the link (Quad/mavlink/checksum.h): the 16-bit frame check sequence of
    Appendix C.2 of RFC 1662 (reflected polynomial 0x8408, initial value 0xffff), which this
    protocol sends without complementing it. */
module Crc {

  const INIT: bv16 := 0xffff
  const POLYNOMIAL: bv16 := 0x8408

  /** Addition of polynomials over the two-element field, in a register. */
  function Xor(x: bv16, y: bv16): bv16 { x ^ y }

  // ---- The byte-wise form used by the program ----

  function Tmp(data: bv8, crc: bv16): bv8 {
    var t := data ^ Lo(crc);
    t ^ (t << 4)
  }

  function Spread(high: bv16, tmp: bv16): bv16 {
    high ^ (tmp << 8) ^ (tmp << 3) ^ (tmp >> 4)
  }

  /** One byte of checksum. */
  function Accumulate(data: bv8, crc: bv16): bv16 {
    Spread(crc >> 8, Tmp(data, crc) as bv16)
  }

  /** The checksum of a byte string, continued from `crc`. */
  function Over(crc: bv16, s: seq<bv8>): bv16 {
    if s == [] then crc else Accumulate(s[|s| - 1], Over(crc, s[..|s| - 1]))
  }

  function Lo(crc: bv16): bv8 { (crc & 0xff) as bv8 }

  function Hi(crc: bv16): bv8 { (crc >> 8) as bv8 }

  // ---- The definition of the standard: a shift register, one bit at a time ----

  function ShiftBit(crc: bv16): bv16 {
    if crc & 1 == 1 then (crc >> 1) ^ POLYNOMIAL else crc >> 1
  }

  function ShiftBits(crc: bv16, n: nat): bv16 {
    if n == 0 then crc else ShiftBit(ShiftBits(crc, n - 1))
  }

  /** Each byte is added to the low end of the register, which is then shifted eight times. */
  function Defined(crc: bv16, s: seq<bv8>): bv16 {
    if s == [] then crc
    else ShiftBits(Xor(Defined(crc, s[..|s| - 1]), s[|s| - 1] as bv16), 8)
  }

  // ---- The two forms agree ----

  /** Four shifts at once. */
  function Nibble(u: bv16): bv16 {
    var v := u & 0xf;
    (u >> 4) ^ (v << 12) ^ (v << 7) ^ v
  }

  /** Eight shifts at once. */
  function ShiftByte(u: bv16): bv16 { Nibble(Nibble(u)) }

  /** Two shifts at once. */
  function Pair(u: bv16): bv16 {
    var v := u & 3;
    (u >> 2) ^ (v << 14) ^ (v << 9) ^ (v << 2)
  }

  lemma PairIsTwoShifts(u: bv16)
    ensures ShiftBit(ShiftBit(u)) == Pair(u)
  {
    var v := u & 3;
    if v == 0 {
    } else if v == 1 {
    } else if v == 2 {
    } else {
      assert v == 3;
    }
  }

  lemma NibbleIsTwoPairs(u: bv16)
    ensures Pair(Pair(u)) == Nibble(u)
  {}

  lemma FourShifts(u: bv16)
    ensures ShiftBit(ShiftBit(ShiftBit(ShiftBit(u)))) == Nibble(u)
  {
    hide ShiftBit, Pair, Nibble;
    PairIsTwoShifts(u);
    PairIsTwoShifts(ShiftBit(ShiftBit(u)));
    NibbleIsTwoPairs(u);
  }

  lemma EightShifts(u: bv16)
    ensures ShiftBits(u, 8) == ShiftByte(u)
  {
    hide ShiftBit, Nibble;
    var u4 := ShiftBit(ShiftBit(ShiftBit(ShiftBit(u))));
    assert ShiftBits(u, 4) == u4 by {
      assert ShiftBits(u, 0) == u;
      assert ShiftBits(u, 1) == ShiftBit(u);
      assert ShiftBits(u, 2) == ShiftBit(ShiftBit(u));
      assert ShiftBits(u, 3) == ShiftBit(ShiftBit(ShiftBit(u)));
    }
    assert ShiftBits(u, 8) == ShiftBit(ShiftBit(ShiftBit(ShiftBit(u4)))) by {
      assert ShiftBits(u, 5) == ShiftBit(u4);
      assert ShiftBits(u, 6) == ShiftBit(ShiftBit(u4));
      assert ShiftBits(u, 7) == ShiftBit(ShiftBit(ShiftBit(u4)));
    }
    FourShifts(u);
    FourShifts(u4);
  }

  function Doubled(w: bv16): bv16 { w ^ ((w << 4) & 0xff) }

  lemma SpreadIsShift(u: bv16)
    ensures Spread(u >> 8, Doubled(u & 0xff)) == ShiftByte(u)
  {}

  lemma LowByte(data: bv8, crc: bv16)
    ensures Xor(crc, data as bv16) >> 8 == crc >> 8
    ensures (data ^ Lo(crc)) as bv16 == Xor(crc, data as bv16) & 0xff
  {}

  lemma WidenTmp(t: bv8)
    ensures (t ^ (t << 4)) as bv16 == Doubled(t as bv16)
  {}

  lemma TmpWide(data: bv8, crc: bv16)
    ensures Tmp(data, crc) as bv16 == Doubled(Xor(crc, data as bv16) & 0xff)
  {
    hide Doubled, Xor, Lo;
    LowByte(data, crc);
    WidenTmp(data ^ Lo(crc));
  }

  /** One byte of checksum is eight shifts of the register with the byte added. */
  lemma ByteIsEightShifts(data: bv8, crc: bv16)
    ensures Accumulate(data, crc) == ShiftByte(Xor(crc, data as bv16))
  {
    hide Spread, Tmp, ShiftByte, Xor, Doubled;
    LowByte(data, crc);
    TmpWide(data, crc);
    SpreadIsShift(Xor(crc, data as bv16));
  }

  lemma {:induction false} FastRefinesDefinition(crc: bv16, s: seq<bv8>)
    ensures Over(crc, s) == Defined(crc, s)
  {
    hide Accumulate, ShiftByte, ShiftBits, Xor;
    if s != [] {
      var front, last := s[..|s| - 1], s[|s| - 1];
      FastRefinesDefinition(crc, front);
      ByteIsEightShifts(last, Over(crc, front));
      EightShifts(Xor(Over(crc, front), last as bv16));
    }
  }

  /** The two bytes of a checksum as it is sent. */
  lemma SplitHalves(c: bv16, x: bv8, y: bv8)
    ensures x == Lo(c) <==> x as bv16 == c & 0xff
    ensures y == Hi(c) <==> y as bv16 == c >> 8
  {}

  // ---- Concatenation ----

  lemma {:induction false} OverConcat(crc: bv16, a: seq<bv8>, b: seq<bv8>)
    ensures Over(crc, a + b) == Over(Over(crc, a), b)
  {
    if b == [] {
      assert a + b == a;
    } else {
      assert (a + b)[..|a + b| - 1] == a + b[..|b| - 1];
      OverConcat(crc, a, b[..|b| - 1]);
    }
  }

  lemma OverSnoc(crc: bv16, s: seq<bv8>, x: bv8)
    ensures Over(crc, s + [x]) == Accumulate(x, Over(crc, s))
  {
    assert (s + [x])[..|s + [x]| - 1] == s;
  }

  lemma OverNil(crc: bv16)
    ensures Over(crc, []) == crc
  {}

  lemma OverPair(crc: bv16, x: bv8, y: bv8)
    ensures Over(crc, [x, y]) == Accumulate(y, Accumulate(x, crc))
  {
    assert [x, y] == ([] + [x]) + [y];
    OverSnoc(crc, [], x);
    OverSnoc(crc, [] + [x], y);
  }

  lemma KnownSteps()
    ensures Accumulate(0x31, 0xffff) == 0x2f8d && Accumulate(0x32, 0x2f8d) == 0x4d53
    ensures Accumulate(0x33, 0x4d53) == 0x634b && Accumulate(0x34, 0x634b) == 0x8b13
    ensures Accumulate(0x35, 0x8b13) == 0x44bf && Accumulate(0x36, 0x44bf) == 0x198d
    ensures Accumulate(0x37, 0x198d) == 0x1ac8 && Accumulate(0x38, 0x1ac8) == 0xf795
    ensures Accumulate(0x39, 0xf795) == 0x6f91
  {}

  lemma OverNext(crc: bv16, s: seq<bv8>, k: nat, c: bv16)
    requires k < |s| && Over(crc, s[..k]) == c
    ensures Over(crc, s[..k + 1]) == Accumulate(s[k], c)
  {
    assert s[..k + 1] == s[..k] + [s[k]];
    OverSnoc(crc, s[..k], s[k]);
  }

  /** A known checksum: that of the digits 1 to 9 in ASCII. */
  lemma KnownChecksum()
    ensures Defined(0xffff, [0x31, 0x32, 0x33, 0x34, 0x35, 0x36, 0x37, 0x38, 0x39]) == 0x6f91
  {
    hide Accumulate, Over, Defined;
    var s: seq<bv8> := [0x31, 0x32, 0x33, 0x34, 0x35, 0x36, 0x37, 0x38, 0x39];
    KnownSteps();
    OverNil(0xffff);
    OverNext(0xffff, s, 0, 0xffff);
    OverNext(0xffff, s, 1, 0x2f8d);
    OverNext(0xffff, s, 2, 0x4d53);
    OverNext(0xffff, s, 3, 0x634b);
    OverNext(0xffff, s, 4, 0x8b13);
    OverNext(0xffff, s, 5, 0x44bf);
    OverNext(0xffff, s, 6, 0x198d);
    OverNext(0xffff, s, 7, 0x1ac8);
    OverNext(0xffff, s, 8, 0xf795);
    assert s[..9] == s;
    FastRefinesDefinition(0xffff, s);
  }

  // ---- Linearity and injectivity ----

  lemma XorZero(x: bv16)
    ensures Xor(x, 0) == x && Xor(0, x) == x && Xor(x, x) == 0
  {}

  lemma XorTwice(x: bv16, y: bv16)
    ensures Xor(Xor(x, y), y) == x
  {}

  lemma XorLaws(x: bv16, y: bv16)
    ensures Xor(x, 0) == x
    ensures Xor(x, y) == 0 <==> x == y
  {
    hide Xor;
    XorZero(x);
    XorZero(y);
    XorTwice(x, y);
  }

  lemma XorAssociative(x: bv16, y: bv16, z: bv16)
    ensures Xor(x, Xor(y, z)) == Xor(Xor(x, y), z)
  {}

  lemma XorCommutes(x: bv16, y: bv16)
    ensures Xor(x, y) == Xor(y, x)
  {}

  lemma XorSwap(a: bv16, b: bv16, c: bv16, d: bv16)
    ensures Xor(Xor(a, b), Xor(c, d)) == Xor(Xor(a, c), Xor(b, d))
  {
    hide Xor;
    XorAssociative(a, b, Xor(c, d));
    XorAssociative(b, c, d);
    XorCommutes(b, c);
    XorAssociative(c, b, d);
    XorAssociative(a, c, Xor(b, d));
  }

  lemma WidenXor(x: bv8, y: bv8)
    ensures (x ^ y) as bv16 == Xor(x as bv16, y as bv16)
  {}

  lemma NibbleLinear(x: bv16, y: bv16)
    ensures Nibble(Xor(x, y)) == Xor(Nibble(x), Nibble(y))
  {
    var v, w := x & 0xf, y & 0xf;
    assert (x ^ y) & 0xf == v ^ w;
    assert (x ^ y) >> 4 == (x >> 4) ^ (y >> 4);
    assert (v ^ w) << 12 == (v << 12) ^ (w << 12);
    assert (v ^ w) << 7 == (v << 7) ^ (w << 7);
  }

  lemma ShiftByteLinear(x: bv16, y: bv16)
    ensures ShiftByte(Xor(x, y)) == Xor(ShiftByte(x), ShiftByte(y))
  {
    hide Nibble, Xor;
    NibbleLinear(x, y);
    NibbleLinear(Nibble(x), Nibble(y));
  }

  lemma NibbleKernel(z: bv16)
    ensures Nibble(z) == 0 <==> z == 0
  {}

  lemma ShiftByteKernel(z: bv16)
    ensures ShiftByte(z) == 0 <==> z == 0
  {
    NibbleKernel(z);
    NibbleKernel(Nibble(z));
  }

  lemma AccumulateLinear(x: bv8, y: bv8, c: bv16, d: bv16)
    ensures Accumulate(x ^ y, Xor(c, d)) == Xor(Accumulate(x, c), Accumulate(y, d))
  {
    hide Accumulate, ShiftByte, Xor;
    ByteIsEightShifts(x ^ y, Xor(c, d));
    ByteIsEightShifts(x, c);
    ByteIsEightShifts(y, d);
    WidenXor(x, y);
    XorSwap(c, d, x as bv16, y as bv16);
    ShiftByteLinear(Xor(c, x as bv16), Xor(d, y as bv16));
  }

  lemma AccumulateKernel(x: bv8, c: bv16)
    ensures Accumulate(x, c) == 0 <==> c == x as bv16
  {
    hide Accumulate, ShiftByte, Xor;
    ByteIsEightShifts(x, c);
    ShiftByteKernel(Xor(c, x as bv16));
    XorLaws(c, x as bv16);
  }

  // ---- The residue ----

  lemma ShiftHighByte(h: bv8)
    ensures ShiftByte((h as bv16) << 8) == h as bv16
  {}

  lemma SplitXor(crc: bv16, lo: bv8, hi: bv8)
    ensures Xor(crc, lo as bv16) == (hi as bv16) << 8 <==> lo == Lo(crc) && hi == Hi(crc)
  {}

  /** Running the checksum on over two further bytes gives 0 exactly when those bytes are the
      checksum itself, low byte first. */
  lemma ResidueZeroIffChecksum(crc: bv16, lo: bv8, hi: bv8)
    ensures Over(crc, [lo, hi]) == 0 <==> lo == Lo(crc) && hi == Hi(crc)
  {
    hide Accumulate, ShiftByte, Xor, Lo, Hi;
    OverPair(crc, lo, hi);
    AccumulateKernel(hi, Accumulate(lo, crc));
    ByteIsEightShifts(lo, crc);
    ShiftHighByte(hi);
    var a, b := Xor(crc, lo as bv16), (hi as bv16) << 8;
    ShiftByteLinear(a, b);
    XorLaws(ShiftByte(a), ShiftByte(b));
    ShiftByteKernel(Xor(a, b));
    XorLaws(a, b);
    SplitXor(crc, lo, hi);
  }

  // ---- Error patterns ----

  /** The bytes of `s` with the bits of the error pattern `e` flipped. */
  function Flip(s: seq<bv8>, e: seq<bv8>): (r: seq<bv8>)
    requires |s| == |e|
    ensures |r| == |s|
  {
    seq(|s|, i requires 0 <= i < |s| => s[i] ^ e[i])
  }

  function Zeros(n: nat): (z: seq<bv8>)
    ensures |z| == n
  {
    seq(n, _ => 0)
  }

  /** The checksum of a corrupted string differs from the original one by the checksum, from
      zero, of the error pattern alone. */
  lemma {:induction false} ErrorSyndrome(c: bv16, d: bv16, s: seq<bv8>, e: seq<bv8>)
    requires |s| == |e|
    ensures Over(Xor(c, d), Flip(s, e)) == Xor(Over(c, s), Over(d, e))
  {
    hide Accumulate, Xor;
    if s != [] {
      var n := |s| - 1;
      ErrorSyndrome(c, d, s[..n], e[..n]);
      assert Flip(s, e)[..n] == Flip(s[..n], e[..n]);
      AccumulateLinear(s[n], e[n], Over(c, s[..n]), Over(d, e[..n]));
    }
  }

  lemma {:induction false} OverZeros(c: bv16, n: nat)
    ensures Over(c, Zeros(n)) == 0 <==> c == 0
  {
    hide Accumulate;
    if n > 0 {
      assert Zeros(n)[..n - 1] == Zeros(n - 1);
      OverZeros(c, n - 1);
      AccumulateKernel(0, Over(c, Zeros(n - 1)));
    }
  }

  /** A one- or two-byte error, wherever it sits in a string of any length, has a nonzero syndrome. */
  lemma ShortBurstSyndrome(before: nat, x: bv8, y: bv8, after: nat)
    requires x != 0 || y != 0
    ensures Over(0, Zeros(before) + [x, y] + Zeros(after)) != 0
  {
    OverConcat(0, Zeros(before) + [x, y], Zeros(after));
    OverConcat(0, Zeros(before), [x, y]);
    OverZeros(0, before);
    OverZeros(Over(0, [x, y]), after);
    ResidueZeroIffChecksum(0, x, y);
  }

  lemma TwoShifts(x: bv8, y: bv8)
    ensures ShiftByte(ShiftByte(x as bv16)) == y as bv16 <==> (x == 0 && y == 0) || (x == 0x91 && y == 0x85)
  {}

  lemma FirstByte(x: bv8)
    ensures Accumulate(x, 0) == ShiftByte(x as bv16)
  {
    hide Accumulate, ShiftByte, Xor;
    ByteIsEightShifts(x, 0);
    XorCommutes(0, x as bv16);
    XorLaws(x as bv16, 0);
  }

  lemma ZeroByte(crc: bv16)
    ensures Accumulate(0, crc) == ShiftByte(crc)
  {
    hide Accumulate, ShiftByte, Xor;
    ByteIsEightShifts(0, crc);
    XorLaws(crc, 0);
  }

  /** Two wrong bytes with a correct one between them: a single pattern escapes. */
  lemma GappedPairSyndrome(before: nat, x: bv8, y: bv8, after: nat)
    requires x != 0 || y != 0
    ensures Over(0, Zeros(before) + [x, 0, y] + Zeros(after)) == 0 <==> x == 0x91 && y == 0x85
  {
    hide Accumulate, ShiftByte;
    OverConcat(0, Zeros(before) + [x, 0, y], Zeros(after));
    OverConcat(0, Zeros(before), [x, 0, y]);
    OverZeros(0, before);
    OverZeros(Over(0, [x, 0, y]), after);
    assert [x, 0, y] == [x, 0] + [y];
    OverSnoc(0, [x, 0], y);
    OverPair(0, x, 0);
    FirstByte(x);
    ZeroByte(ShiftByte(x as bv16));
    AccumulateKernel(y, ShiftByte(ShiftByte(x as bv16)));
    TwoShifts(x, y);
  }
}
