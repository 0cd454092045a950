/** 64-bit words: the arithmetic the hash is built from, and why each piece of it loses no information.
    Addition, multiplication, xor and shifts of `bv64` wrap exactly as C's uint64_t does. */
module Words {

  type Byte = bv8
  type Word = bv64

  // The multiplier (digits of e).
  const K: Word := 0x2B7E151628AED2A7

  function Add(x: Word, y: Word): Word {
    x + y
  }

  function Sub(x: Word, y: Word): Word {
    x - y
  }

  function Xor(x: Word, y: Word): Word {
    x ^ y
  }

  function Mul(x: Word, y: Word): Word {
    x * y
  }

  /** x * K, with K spelt out so that the product is linear for the verifier; see TimesKIsProduct. */
  function TimesK(x: Word): Word {
    x * 0x2B7E151628AED2A7
  }

  /** Undoes TimesK: K is odd, and this is its inverse modulo 2^64. */
  function OverK(x: Word): Word {
    x * 0x1515B8835A2DB517
  }

  function Low(x: Word): Word {
    x & 0xFFFF_FFFF
  }

  function High(x: Word): Word {
    x >> 32
  }

  /** Left rotation. `(0 - n) & 63` is C's `-n & 63`. */
  function Rotl(x: Word, n: Word): Word
    requires n < 64
  {
    (x << n) | (x >> ((0 - n) & 63))
  }

  /** x ^= rotl(x, 15) ^ rotl(x, 42) */
  function MixBefore(x: Word): Word {
    x ^ (x.RotateLeft(15) ^ x.RotateLeft(42))
  }

  /** x ^= rotl(x, 13) ^ rotl(x, 31) */
  function MixAfter(x: Word): Word {
    x ^ (x.RotateLeft(13) ^ x.RotateLeft(31))
  }

  /** x ^= rotl(x, 29) */
  function MixLength(x: Word): Word {
    x ^ x.RotateLeft(29)
  }

  /** How a tail lane enters its partner. */
  function Cross(h: Word): Word {
    Xor(Rotl(TimesK(h), 31), h >> 31)
  }

  /** y ^= y >> 31 */
  function FoldDown(y: Word): Word {
    y ^ (y >> 31)
  }

  // ---- Addition and multiplication ----

  lemma SubUndoesAdd(x: Word, c: Word)
    ensures Sub(Add(x, c), c) == x
  {
    assert Sub(x + c, c) == x;
  }

  lemma AddUndoesSub(x: Word, c: Word)
    ensures Add(Sub(x, c), c) == x
  {
    assert Add(x - c, c) == x;
  }

  lemma AddCommutes(x: Word, y: Word)
    ensures Add(x, y) == Add(y, x)
  {
  }

  lemma AddCancels(x: Word, c: Word)
    ensures Sub(Add(x, c), c) == x
    ensures Add(Sub(x, c), c) == x
    ensures Add(c, x) == Add(x, c)
  {
    hide Add, Sub;
    SubUndoesAdd(x, c);
    AddUndoesSub(x, c);
    AddCommutes(x, c);
  }

  lemma AddInjective(x: Word, y: Word, c: Word)
    requires Add(x, c) == Add(y, c)
    ensures x == y
  {
    hide Add, Sub;
    AddCancels(x, c);
    AddCancels(y, c);
  }

  lemma TimesKIsProduct(x: Word)
    ensures TimesK(x) == Mul(x, K)
  {
    assert Mul(x, 0x2B7E151628AED2A7) == TimesK(x);
  }

  lemma TimesKBijective(x: Word)
    ensures OverK(TimesK(x)) == x
    ensures TimesK(OverK(x)) == x
  {
    assert OverK(x * 0x2B7E151628AED2A7) == x;
    assert TimesK(x * 0x1515B8835A2DB517) == x;
  }

  lemma TimesKInjective(x: Word, y: Word)
    requires TimesK(x) == TimesK(y)
    ensures x == y
  {
    TimesKBijective(x);
    TimesKBijective(y);
  }

  lemma TimesKExpands(x: Word, y: Word)
    ensures TimesK(x + y) == x * 0x2B7E151628AED2A7 + y * 0x2B7E151628AED2A7
  {
  }

  lemma TimesKDistributes(x: Word, y: Word)
    ensures TimesK(Add(x, y)) == Add(TimesK(x), TimesK(y))
  {
    TimesKExpands(x, y);
    assert TimesK(Add(x, y)) == TimesK(x + y);
    assert Add(x * 0x2B7E151628AED2A7, y * 0x2B7E151628AED2A7) == x * 0x2B7E151628AED2A7 + y * 0x2B7E151628AED2A7;
  }

  // ---- Rotations ----

  /** On every amount the hash uses, the source's two shifts are a rotation. */
  lemma RotlIsRotation(x: Word)
    ensures Rotl(x, 13) == x.RotateLeft(13)
    ensures Rotl(x, 15) == x.RotateLeft(15)
    ensures Rotl(x, 27) == x.RotateLeft(27)
    ensures Rotl(x, 29) == x.RotateLeft(29)
    ensures Rotl(x, 31) == x.RotateLeft(31)
    ensures Rotl(x, 42) == x.RotateLeft(42)
    ensures Rotl(x, 47) == x.RotateLeft(47)
  {
  }

  lemma MixBeforeIs(x: Word)
    ensures MixBefore(x) == Xor(x, Xor(x.RotateLeft(15), x.RotateLeft(42)))
  {
    assert Xor(x, x.RotateLeft(15) ^ x.RotateLeft(42)) == MixBefore(x);
  }

  lemma MixAfterIs(x: Word)
    ensures MixAfter(x) == Xor(x, Xor(x.RotateLeft(13), x.RotateLeft(31)))
  {
    assert Xor(x, x.RotateLeft(13) ^ x.RotateLeft(31)) == MixAfter(x);
  }

  lemma MixLengthIs(x: Word)
    ensures MixLength(x) == Xor(x, x.RotateLeft(29))
  {
  }

  /** The mixers below are the source's xors of rotations. */
  lemma MixersAsWritten(x: Word)
    ensures MixBefore(x) == Xor(x, Xor(Rotl(x, 15), Rotl(x, 42)))
    ensures MixAfter(x) == Xor(x, Xor(Rotl(x, 13), Rotl(x, 31)))
    ensures MixLength(x) == Xor(x, Rotl(x, 29))
  {
    hide Rotl, MixBefore, MixAfter, MixLength;
    RotlIsRotation(x);
    MixBeforeIs(x);
    MixAfterIs(x);
    MixLengthIs(x);
  }

  lemma Rotl27Injective(x: Word, y: Word)
    requires Rotl(x, 27) == Rotl(y, 27)
    ensures x == y
  {
    RotlIsRotation(x);
    RotlIsRotation(y);
    assert x.RotateLeft(27).RotateLeft(37) == x;
    assert y.RotateLeft(27).RotateLeft(37) == y;
  }

  // ---- The xor mixers ----
  // As a polynomial in "rotate by one", a mixer is 1 + z^a + z^b modulo z^64 - 1 over GF(2). Squaring it doubles
  // a and b, so its 64th power (for MixAfter already its 32nd) is the identity; the power before that is the inverse.

  /** MixBefore applied 63 times. */
  function UnmixBefore(y: Word): Word {
    y.RotateLeft(1) ^ y.RotateLeft(2) ^ y.RotateLeft(7) ^ y.RotateLeft(13) ^ y.RotateLeft(15) ^ y.RotateLeft(18)
    ^ y.RotateLeft(19) ^ y.RotateLeft(20) ^ y.RotateLeft(21) ^ y.RotateLeft(24) ^ y.RotateLeft(25) ^ y.RotateLeft(26)
    ^ y.RotateLeft(27) ^ y.RotateLeft(31) ^ y.RotateLeft(32) ^ y.RotateLeft(33) ^ y.RotateLeft(35) ^ y.RotateLeft(37)
    ^ y.RotateLeft(38) ^ y.RotateLeft(39) ^ y.RotateLeft(40) ^ y.RotateLeft(41) ^ y.RotateLeft(42) ^ y.RotateLeft(43)
    ^ y.RotateLeft(44) ^ y.RotateLeft(46) ^ y.RotateLeft(47) ^ y.RotateLeft(48) ^ y.RotateLeft(49) ^ y.RotateLeft(50)
    ^ y.RotateLeft(52) ^ y.RotateLeft(53) ^ y.RotateLeft(54) ^ y.RotateLeft(56) ^ y.RotateLeft(58) ^ y.RotateLeft(59)
    ^ y.RotateLeft(60)
  }

  /** MixAfter applied 31 times. */
  function UnmixAfter(y: Word): Word {
    y ^ y.RotateLeft(1) ^ y.RotateLeft(3) ^ y.RotateLeft(8) ^ y.RotateLeft(10) ^ y.RotateLeft(11)
    ^ y.RotateLeft(13) ^ y.RotateLeft(15) ^ y.RotateLeft(16)
    ^ y.RotateLeft(18) ^ y.RotateLeft(19) ^ y.RotateLeft(20)
    ^ y.RotateLeft(21) ^ y.RotateLeft(22) ^ y.RotateLeft(23) ^ y.RotateLeft(24) ^ y.RotateLeft(26) ^ y.RotateLeft(29)
    ^ y.RotateLeft(33) ^ y.RotateLeft(35) ^ y.RotateLeft(36) ^ y.RotateLeft(37) ^ y.RotateLeft(41) ^ y.RotateLeft(44)
    ^ y.RotateLeft(47) ^ y.RotateLeft(48) ^ y.RotateLeft(51) ^ y.RotateLeft(52) ^ y.RotateLeft(53) ^ y.RotateLeft(55)
    ^ y.RotateLeft(61)
  }

  lemma MixBeforeBijective(x: Word)
    ensures UnmixBefore(MixBefore(x)) == x
    ensures MixBefore(UnmixBefore(x)) == x
  {
    assert UnmixBefore(x ^ (x.RotateLeft(15) ^ x.RotateLeft(42))) == x;
    assert MixBefore(x.RotateLeft(1) ^ x.RotateLeft(2) ^ x.RotateLeft(7) ^ x.RotateLeft(13)
      ^ x.RotateLeft(15) ^ x.RotateLeft(18)
      ^ x.RotateLeft(19) ^ x.RotateLeft(20) ^ x.RotateLeft(21) ^ x.RotateLeft(24) ^ x.RotateLeft(25) ^ x.RotateLeft(26)
      ^ x.RotateLeft(27) ^ x.RotateLeft(31) ^ x.RotateLeft(32) ^ x.RotateLeft(33) ^ x.RotateLeft(35) ^ x.RotateLeft(37)
      ^ x.RotateLeft(38) ^ x.RotateLeft(39) ^ x.RotateLeft(40) ^ x.RotateLeft(41) ^ x.RotateLeft(42) ^ x.RotateLeft(43)
      ^ x.RotateLeft(44) ^ x.RotateLeft(46) ^ x.RotateLeft(47) ^ x.RotateLeft(48) ^ x.RotateLeft(49) ^ x.RotateLeft(50)
      ^ x.RotateLeft(52) ^ x.RotateLeft(53) ^ x.RotateLeft(54) ^ x.RotateLeft(56) ^ x.RotateLeft(58) ^ x.RotateLeft(59)
      ^ x.RotateLeft(60)) == x;
  }

  lemma MixAfterBijective(x: Word)
    ensures UnmixAfter(MixAfter(x)) == x
    ensures MixAfter(UnmixAfter(x)) == x
  {
    assert UnmixAfter(x ^ (x.RotateLeft(13) ^ x.RotateLeft(31))) == x;
    assert MixAfter(x ^ x.RotateLeft(1) ^ x.RotateLeft(3) ^ x.RotateLeft(8) ^ x.RotateLeft(10) ^ x.RotateLeft(11)
      ^ x.RotateLeft(13) ^ x.RotateLeft(15) ^ x.RotateLeft(16) ^ x.RotateLeft(18) ^ x.RotateLeft(19) ^ x.RotateLeft(20)
      ^ x.RotateLeft(21) ^ x.RotateLeft(22) ^ x.RotateLeft(23) ^ x.RotateLeft(24) ^ x.RotateLeft(26) ^ x.RotateLeft(29)
      ^ x.RotateLeft(33) ^ x.RotateLeft(35) ^ x.RotateLeft(36) ^ x.RotateLeft(37) ^ x.RotateLeft(41) ^ x.RotateLeft(44)
      ^ x.RotateLeft(47) ^ x.RotateLeft(48) ^ x.RotateLeft(51) ^ x.RotateLeft(52) ^ x.RotateLeft(53) ^ x.RotateLeft(55)
      ^ x.RotateLeft(61)) == x;
  }

  /** Folding down three times undoes folding down once: a fourth shift by 31 leaves the word. */
  lemma FoldDownBijective(x: Word)
    ensures FoldDown(FoldDown(FoldDown(FoldDown(x)))) == x
  {
    assert FoldDown(x ^ (x >> 31)) == x ^ (x >> 62);
    assert FoldDown(x ^ (x >> 62)) == x ^ (x >> 31) ^ (x >> 62);
    assert FoldDown(x ^ (x >> 31) ^ (x >> 62)) == x;
  }

  // ---- Xor ----

  lemma XorZero(x: Word, y: Word)
    ensures Xor(x, y) == 0 <==> x == y
  {
    assert x ^ y == 0 <==> x == y;
  }

  lemma XorCancels(x: Word, y: Word)
    ensures Xor(Xor(x, y), y) == x
  {
    assert Xor(x ^ y, y) == x;
  }

  lemma XorCommutes(x: Word, y: Word)
    ensures Xor(x, y) == Xor(y, x)
  {
  }

  // ---- A tail lane crossing over ----
  // Two words with the same upper half, shifted down by 31, differ at most in the lowest bit. If they cross over alike,
  // their products by K differ at most in bit 33, so the words themselves differ by a multiple of 2^33.

  function Down31(x: Word): Word {
    x >> 31
  }

  function Up31(x: Word): Word {
    x.RotateLeft(31)
  }

  lemma CrossIs(h: Word)
    ensures Cross(h) == Xor(Up31(TimesK(h)), Down31(h))
  {
    hide TimesK, Xor, Rotl;
    RotlIsRotation(TimesK(h));
  }

  lemma ShiftsShareBits(h: Word, g: Word)
    requires h >> 32 == g >> 32
    ensures (h >> 31) ^ (g >> 31) <= 1
  {
  }

  lemma ShiftsAlmostAgree(h: Word, g: Word)
    requires High(h) == High(g)
    ensures Xor(Down31(h), Down31(g)) <= 1
  {
    ShiftsShareBits(h, g);
  }

  lemma BitRotatedBack(a: Word, b: Word, x: Word, y: Word)
    requires a.RotateLeft(31) ^ x == b.RotateLeft(31) ^ y && x ^ y <= 1
    ensures a ^ b == 0 || a ^ b == 0x2_0000_0000
  {
  }

  lemma RotationsAlmostAgree(a: Word, b: Word, x: Word, y: Word)
    requires Xor(Up31(a), x) == Xor(Up31(b), y) && Xor(x, y) <= 1
    ensures Xor(a, b) == 0 || Xor(a, b) == 0x2_0000_0000
  {
    BitRotatedBack(a, b, x, y);
  }

  lemma BitFlipped(a: Word, b: Word)
    requires Xor(a, b) == 0x2_0000_0000
    ensures a == Add(b, 0x2_0000_0000) || a == Sub(b, 0x2_0000_0000)
  {
  }

  /** 0xB45B6A2E00000000 is 2^33 times the inverse of K. */
  lemma BitDividedByK(b: Word)
    ensures OverK(Add(b, 0x2_0000_0000)) == Add(OverK(b), 0xB45B_6A2E_0000_0000)
    ensures OverK(Sub(b, 0x2_0000_0000)) == Sub(OverK(b), 0xB45B_6A2E_0000_0000)
  {
    assert OverK(b + 0x2_0000_0000) == b * 0x1515B8835A2DB517 + 0xB45B_6A2E_0000_0000;
    assert OverK(b - 0x2_0000_0000) == b * 0x1515B8835A2DB517 - 0xB45B_6A2E_0000_0000;
  }

  lemma UpperHalvesClash(h: Word, g: Word)
    requires h >> 32 == g >> 32
    ensures h != g + 0xB45B_6A2E_0000_0000 && h != g - 0xB45B_6A2E_0000_0000
  {
  }

  lemma UpperHalvesDiffer(h: Word, g: Word)
    requires High(h) == High(g)
    ensures h != Add(g, 0xB45B_6A2E_0000_0000) && h != Sub(g, 0xB45B_6A2E_0000_0000)
  {
    UpperHalvesClash(h, g);
  }

  lemma ProductsClose(a: Word, b: Word, x: Word, y: Word)
    requires Xor(Up31(a), x) == Xor(Up31(b), y) && Xor(x, y) <= 1
    ensures a == b || a == Add(b, 0x2_0000_0000) || a == Sub(b, 0x2_0000_0000)
  {
    hide Add, Sub, Xor, Up31;
    RotationsAlmostAgree(a, b, x, y);
    XorZero(a, b);
    if Xor(a, b) == 0x2_0000_0000 {
      BitFlipped(a, b);
    }
  }

  lemma FactorsClose(h: Word, g: Word)
    requires || TimesK(h) == TimesK(g)
             || TimesK(h) == Add(TimesK(g), 0x2_0000_0000) || TimesK(h) == Sub(TimesK(g), 0x2_0000_0000)
    ensures h == g || h == Add(g, 0xB45B_6A2E_0000_0000) || h == Sub(g, 0xB45B_6A2E_0000_0000)
  {
    hide TimesK, OverK, Add, Sub;
    TimesKBijective(h);
    TimesKBijective(g);
    BitDividedByK(TimesK(g));
  }

  /** Words with the same upper half never cross over alike, unless they are equal. */
  lemma CrossInjective(h: Word, g: Word)
    requires High(h) == High(g)
    ensures Cross(h) == Cross(g) <==> h == g
  {
    hide TimesK, Cross, High, Up31, Down31, Xor, Add, Sub;
    CrossIs(h);
    CrossIs(g);
    if Cross(h) == Cross(g) {
      ShiftsAlmostAgree(h, g);
      ProductsClose(TimesK(h), TimesK(g), Down31(h), Down31(g));
      FactorsClose(h, g);
      UpperHalvesDiffer(h, g);
    }
  }

  lemma UpperHalfOfXor(c: Word, w: Word)
    requires w < 0x1_0000_0000
    ensures (c ^ w) >> 32 == c >> 32
  {
  }

  /** A word that fits 32 bits leaves the upper half alone. */
  lemma XorKeepsHigh(c: Word, w: Word)
    requires w < 0x1_0000_0000
    ensures High(Xor(c, w)) == High(c)
  {
    UpperHalfOfXor(c, w);
  }

  // ---- The length word ----

  lemma OnesXor(y: Word)
    ensures Xor(0xFFFF_FFFF_FFFF_FFFF, y) == !y
    ensures Xor(!y, y) == 0xFFFF_FFFF_FFFF_FFFF
  {
  }

  lemma XorOnes(x: Word, y: Word)
    ensures Xor(x, y) == 0xFFFF_FFFF_FFFF_FFFF <==> x == !y
  {
    XorCancels(x, y);
    OnesXor(y);
  }

  /** 29 and 64 are coprime: only the two constant words survive a rotation by 29 unchanged. */
  lemma MixLengthKernel(d: Word)
    ensures MixLength(d) == 0 <==> d == 0 || d == 0xFFFF_FFFF_FFFF_FFFF
  {
    assert d ^ d.RotateLeft(29) == 0 ==> d == 0 || d == 0xFFFF_FFFF_FFFF_FFFF;
  }

  lemma MixLengthLinear(x: Word, y: Word)
    ensures MixLength(Xor(x, y)) == Xor(MixLength(x), MixLength(y))
  {
    assert MixLength(x ^ y) == MixLength(Xor(x, y));
    assert Xor(x ^ x.RotateLeft(29), y ^ y.RotateLeft(29)) == MixLength(x ^ y);
  }

  lemma MixLengthTwoToOne(x: Word, y: Word)
    ensures MixLength(x) == MixLength(y) <==> x == y || x == !y
  {
    MixLengthLinear(x, y);
    MixLengthKernel(Xor(x, y));
    XorZero(x, y);
    XorOnes(x, y);
    XorZero(MixLength(x), MixLength(y));
  }

  lemma NotPlusSelf(y: Word)
    ensures Add(!y, y) == 0xFFFF_FFFF_FFFF_FFFF
  {
  }

  lemma SumIsOnes(x: Word, y: Word)
    ensures Add(x, y) == 0xFFFF_FFFF_FFFF_FFFF <==> x == !y
  {
    NotPlusSelf(y);
    if Add(x, y) == 0xFFFF_FFFF_FFFF_FFFF {
      AddInjective(x, !y, y);
    }
  }

  lemma ComplementSum(u: Word, v: Word)
    requires Add(u, v) == 0xEAEA477CA5D24AE9
    ensures TimesK(u) == !TimesK(v)
  {
    TimesKDistributes(u, v);
    assert TimesK(Add(u, v)) == 0xFFFF_FFFF_FFFF_FFFF;
    SumIsOnes(TimesK(u), TimesK(v));
  }

  lemma SumComplement(u: Word, v: Word)
    requires TimesK(u) == !TimesK(v)
    ensures Add(u, v) == 0xEAEA477CA5D24AE9
  {
    SumIsOnes(TimesK(u), TimesK(v));
    TimesKDistributes(u, v);
    TimesKBijective(Add(u, v));
    assert OverK(0xFFFF_FFFF_FFFF_FFFF) == 0xEAEA477CA5D24AE9;
  }

  /** Multiplying by K and folding in the rotation confuses two words exactly when they are equal or add up to minus
      the inverse of K. */
  lemma LengthWordTwoToOne(u: Word, v: Word)
    ensures MixLength(TimesK(u)) == MixLength(TimesK(v)) <==> u == v || Add(u, v) == 0xEAEA477CA5D24AE9
  {
    MixLengthTwoToOne(TimesK(u), TimesK(v));
    if Add(u, v) == 0xEAEA477CA5D24AE9 {
      ComplementSum(u, v);
    }
    if TimesK(u) == !TimesK(v) {
      SumComplement(u, v);
    }
    if TimesK(u) == TimesK(v) {
      TimesKInjective(u, v);
    }
  }
}
