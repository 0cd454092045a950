/** (uint64_t)n: numbers as 64-bit words, modulo 2^64. */
module Casts {
  import opened Common
  import opened Words

  // ---- The conversion ----

  function Twice(u: Word): Word {
    u + u
  }

  /** (uint64_t)n: from the binary digits of n, of which a word keeps the 64 lowest. */
  function ToWord(n: nat): Word {
    if n == 0 then 0 else if n % 2 == 0 then Twice(ToWord(n / 2)) else Add(Twice(ToWord(n / 2)), 1)
  }

  lemma TwiceSuccessor(u: Word)
    ensures Twice(Add(u, 1)) == Add(Add(Twice(u), 1), 1)
  {
    assert Twice(u + 1) == u + u + 2;
    assert Add(Add(u + u, 1), 1) == u + u + 2;
  }

  lemma TwiceZero()
    ensures Twice(0) == 0
  {
  }

  lemma {:induction false} ToWordSuccessor(n: nat)
    ensures ToWord(n + 1) == Add(ToWord(n), 1)
  {
    hide Add, Twice;
    TwiceZero();
    TwiceSuccessor(ToWord(n / 2));
    if n % 2 == 1 {
      assert (n + 1) / 2 == n / 2 + 1;
      ToWordSuccessor(n / 2);
    } else {
      assert (n + 1) / 2 == n / 2;
    }
  }

  lemma AddZero(u: Word)
    ensures Add(u, 0) == u
  {
  }

  lemma OneMore(u: Word, v: Word)
    ensures Add(u, Add(v, 1)) == Add(Add(u, v), 1)
  {
    assert Add(u, v + 1) == u + v + 1;
    assert Add(u + v, 1) == u + v + 1;
  }

  lemma WordOfZero()
    ensures ToWord(0) == 0
  {
  }

  /** Sums of numbers become sums of words. */
  lemma {:induction false} ToWordAdds(m: nat, n: nat)
    ensures ToWord(m + n) == Add(ToWord(m), ToWord(n))
  {
    hide Add, ToWord;
    if n == 0 {
      WordOfZero();
      AddZero(ToWord(m));
    } else {
      OneMore(ToWord(m), ToWord(n - 1));
      ToWordAdds(m, n - 1);
      ToWordSuccessor(m + n - 1);
      ToWordSuccessor(n - 1);
    }
  }

  // ---- Numbers below 2^64 stay apart ----

  /** 2^k */
  function Power(k: Word): nat {
    if k == 0 then 1 else 2 * Power(k - 1)
  }

  lemma EightSteps(k: Word)
    requires k < 56
    ensures Power(k + 8) == 256 * Power(k)
  {
    assert Power(k + 1) == 2 * Power(k);
    assert Power(k + 2) == 2 * Power(k + 1);
    assert Power(k + 3) == 2 * Power(k + 2);
    assert Power(k + 4) == 2 * Power(k + 3);
    assert Power(k + 5) == 2 * Power(k + 4);
    assert Power(k + 6) == 2 * Power(k + 5);
    assert Power(k + 7) == 2 * Power(k + 6);
    assert Power(k + 8) == 2 * Power(k + 7);
  }

  lemma HalfOfTop()
    ensures 2 * Power(63) == TOP
  {
    assert Power(7) == 0x80;
    hide Power;
    EightSteps(7);
    EightSteps(15);
    EightSteps(23);
    EightSteps(31);
    EightSteps(39);
    EightSteps(47);
    EightSteps(55);
  }

  /** What is left of u above its k lowest bits. */
  function Above(u: Word, k: Word): Word
    requires k < 64
  {
    u >> k
  }

  lemma TwiceShifts(u: Word, k: Word)
    requires 0 < k <= 63 && u >> (k - 1) == 0
    ensures (u + u) >> k == 0 && ((u + u) + 1) >> k == 0
  {
  }

  lemma TwiceFits(u: Word, k: Word)
    requires 0 < k <= 63 && Above(u, k - 1) == 0
    ensures Above(Twice(u), k) == 0 && Above(Add(Twice(u), 1), k) == 0
  {
    TwiceShifts(u, k);
    assert Add(u + u, 1) == (u + u) + 1;
  }

  lemma AboveZero(k: Word)
    requires k < 64
    ensures Above(0, k) == 0
  {
  }

  /** A number of k binary digits fills no more than k bits. */
  lemma {:induction false} ToWordFits(n: nat, k: Word)
    requires k <= 63 && n < Power(k)
    ensures Above(ToWord(n), k) == 0
  {
    hide Above, Add, Twice;
    AboveZero(k);
    if n > 0 {
      ToWordFits(n / 2, k - 1);
      TwiceFits(ToWord(n / 2), k);
    }
  }

  lemma TwiceIsZero(u: Word)
    requires Above(u, 63) == 0
    ensures Twice(u) == 0 ==> u == 0
    ensures Add(Twice(u), 1) != 0
  {
    assert u >> 63 == 0;
    assert Add(u + u, 1) != 0;
  }

  lemma {:induction false} OnlyZeroIsZero(n: nat)
    requires n < TOP && ToWord(n) == 0
    ensures n == 0
  {
    hide Add, Twice, Above, Power;
    if n > 0 {
      HalfOfTop();
      ToWordFits(n / 2, 63);
      TwiceIsZero(ToWord(n / 2));
      OnlyZeroIsZero(n / 2);
    }
  }

  lemma AddsNothing(u: Word, v: Word)
    ensures Add(u, v) == u <==> v == 0
  {
  }

  lemma DifferenceShows(m: nat, d: nat)
    requires d < TOP
    ensures ToWord(m + d) == ToWord(m) <==> d == 0
  {
    hide Add, ToWord;
    ToWordAdds(m, d);
    AddsNothing(ToWord(m), ToWord(d));
    if ToWord(d) == 0 {
      OnlyZeroIsZero(d);
    }
  }

  /** Numbers below 2^64 keep their identity as words. */
  lemma ToWordInjective(m: nat, n: nat)
    requires m < TOP && n < TOP
    ensures ToWord(m) == ToWord(n) <==> m == n
  {
    hide ToWord;
    if m <= n {
      DifferenceShows(m, n - m);
    } else {
      DifferenceShows(n, m - n);
    }
  }

  // ---- ... and numbers 2^64 apart do not ----

  lemma Doubled(n: nat)
    ensures ToWord(2 * n) == Twice(ToWord(n))
  {
    TwiceZero();
  }

  lemma TwiceIsShift(u: Word)
    ensures Twice(u) == u << 1
  {
    assert u << 1 == u + u;
  }

  lemma FourTimesTwice(u: Word)
    ensures Twice(Twice(Twice(Twice(u)))) == u << 4
  {
    TwiceIsShift(u);
    TwiceIsShift(u << 1);
    TwiceIsShift(u << 2);
    TwiceIsShift(u << 3);
  }

  /** Appending a hexadecimal digit. */
  lemma NextDigit(n: nat, d: nat)
    ensures ToWord(16 * n + d) == Add(ToWord(n) << 4, ToWord(d))
  {
    hide ToWord, Add, Twice;
    ToWordAdds(16 * n, d);
    Doubled(n);
    Doubled(2 * n);
    Doubled(4 * n);
    Doubled(8 * n);
    FourTimesTwice(ToWord(n));
  }

  /** The hexadecimal digits that occur below. */
  lemma Digits()
    ensures ToWord(0) == 0 && ToWord(1) == 1 && ToWord(2) == 2 && ToWord(4) == 4 && ToWord(5) == 5 && ToWord(7) == 7
    ensures ToWord(9) == 9 && ToWord(10) == 10 && ToWord(12) == 12 && ToWord(13) == 13 && ToWord(14) == 14
  {
    hide ToWord;
    WordOfZero();
    ToWordSuccessor(0);
    ToWordSuccessor(1);
    ToWordSuccessor(2);
    ToWordSuccessor(3);
    ToWordSuccessor(4);
    ToWordSuccessor(5);
    ToWordSuccessor(6);
    ToWordSuccessor(7);
    ToWordSuccessor(8);
    ToWordSuccessor(9);
    ToWordSuccessor(10);
    ToWordSuccessor(11);
    ToWordSuccessor(12);
    ToWordSuccessor(13);
  }

  lemma WordOfTop()
    ensures ToWord(TOP) == 0
  {
    hide ToWord;
    Digits();
    NextDigit(1, 0);
    NextDigit(0x10, 0);
    NextDigit(0x100, 0);
    NextDigit(0x1000, 0);
    NextDigit(0x1_0000, 0);
    NextDigit(0x10_0000, 0);
    NextDigit(0x100_0000, 0);
    NextDigit(0x1000_0000, 0);
    NextDigit(0x1_0000_0000, 0);
    NextDigit(0x10_0000_0000, 0);
    NextDigit(0x100_0000_0000, 0);
    NextDigit(0x1000_0000_0000, 0);
    NextDigit(0x1_0000_0000_0000, 0);
    NextDigit(0x10_0000_0000_0000, 0);
    NextDigit(0x100_0000_0000_0000, 0);
    NextDigit(0x1000_0000_0000_0000, 0);
  }

  lemma WrapDown(n: nat)
    requires n >= TOP
    ensures Wrap(n - TOP) == Wrap(n)
  {
  }

  /** A number and its remainder modulo 2^64 are one word. */
  lemma {:induction false} ToWordWraps(n: nat)
    ensures ToWord(n) == ToWord(Wrap(n))
  {
    hide ToWord, Add;
    if n >= TOP {
      ToWordWraps(n - TOP);
      ToWordAdds(n - TOP, TOP);
      WordOfTop();
      AddZero(ToWord(n - TOP));
      WrapDown(n);
    }
  }

  /** Two numbers are one word exactly when they agree modulo 2^64. */
  lemma ToWordIsModulo(m: nat, n: nat)
    ensures ToWord(m) == ToWord(n) <==> Wrap(m) == Wrap(n)
  {
    hide ToWord, Wrap;
    ToWordWraps(m);
    ToWordWraps(n);
    ToWordInjective(Wrap(m), Wrap(n));
  }

  // ---- The critical sum of two lengths ----

  const CRITICAL_SUM: nat := 0xEAEA_477C_A5D2_4AE9

  lemma WordOfCriticalSum()
    ensures ToWord(CRITICAL_SUM) == 0xEAEA_477C_A5D2_4AE9
  {
    hide ToWord;
    Digits();
    NextDigit(0xE, 10);
    NextDigit(0xEA, 14);
    NextDigit(0xEAE, 10);
    NextDigit(0xEAEA, 4);
    NextDigit(0xE_AEA4, 7);
    NextDigit(0xEA_EA47, 7);
    NextDigit(0xEAE_A477, 12);
    NextDigit(0xEAEA_477C, 10);
    NextDigit(0xE_AEA4_77CA, 5);
    NextDigit(0xEA_EA47_7CA5, 13);
    NextDigit(0xEAE_A477_CA5D, 2);
    NextDigit(0xEAEA_477C_A5D2, 4);
    NextDigit(0xE_AEA4_77CA_5D24, 10);
    NextDigit(0xEA_EA47_7CA5_D24A, 14);
    NextDigit(0xEAE_A477_CA5D_24AE, 9);
  }
}
