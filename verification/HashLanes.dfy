/** What absorbing a message does to the four lanes: each lane evolves on its own, reversibly, and every byte of
    the message leaves a trace in the lanes. */
module HashLanes {
  import opened Words
  import opened ChibiHash

  // ---- Loads lose nothing ----

  lemma PackInjective(a: Byte, b: Byte, c: Byte, d: Byte, a': Byte, b': Byte, c': Byte, d': Byte)
    ensures Pack(a, b, c, d) == Pack(a', b', c', d') <==> a == a' && b == b' && c == c' && d == d'
  {
  }

  lemma JoinInjective(lo: Word, hi: Word, lo': Word, hi': Word)
    requires lo < 0x1_0000_0000 && hi < 0x1_0000_0000 && lo' < 0x1_0000_0000 && hi' < 0x1_0000_0000
    ensures Join(lo, hi) == Join(lo', hi') <==> lo == lo' && hi == hi'
  {
    hide Join, Low, High;
    JoinParts(lo, hi);
    JoinParts(lo', hi');
  }

  lemma Load32Injective(m: seq<Byte>, m': seq<Byte>, p: nat)
    requires p + 4 <= |m| && p + 4 <= |m'|
    ensures Load32(m, p) == Load32(m', p) <==> m[p..p + 4] == m'[p..p + 4]
  {
    hide Pack;
    PackInjective(m[p], m[p + 1], m[p + 2], m[p + 3], m'[p], m'[p + 1], m'[p + 2], m'[p + 3]);
    assert m[p..p + 4] == [m[p], m[p + 1], m[p + 2], m[p + 3]];
    assert m'[p..p + 4] == [m'[p], m'[p + 1], m'[p + 2], m'[p + 3]];
  }

  lemma SplitSlice(m: seq<Byte>, m': seq<Byte>, p: nat, q: nat, r: nat)
    requires p <= q <= r <= |m| && r <= |m'|
    ensures m[p..r] == m'[p..r] <==> m[p..q] == m'[p..q] && m[q..r] == m'[q..r]
  {
    assert m[p..r] == m[p..q] + m[q..r];
    assert m'[p..r] == m'[p..q] + m'[q..r];
    if m[p..r] == m'[p..r] {
      assert m[p..q] == m[p..r][..q - p] && m[q..r] == m[p..r][q - p..];
    }
  }

  lemma Load64Injective(m: seq<Byte>, m': seq<Byte>, p: nat)
    requires p + 8 <= |m| && p + 8 <= |m'|
    ensures Load64(m, p) == Load64(m', p) <==> m[p..p + 8] == m'[p..p + 8]
  {
    hide Pack, Join;
    PackFits(m[p], m[p + 1], m[p + 2], m[p + 3]);
    PackFits(m'[p], m'[p + 1], m'[p + 2], m'[p + 3]);
    PackFits(m[p + 4], m[p + 5], m[p + 6], m[p + 7]);
    PackFits(m'[p + 4], m'[p + 5], m'[p + 6], m'[p + 7]);
    JoinInjective(Load32(m, p), Load32(m, p + 4), Load32(m', p), Load32(m', p + 4));
    Load32Injective(m, m', p);
    Load32Injective(m, m', p + 4);
    SplitSlice(m, m', p, p + 4, p + 8);
  }

  // ---- Each lane evolves on its own ----

  /** What the block at p does to lane i. */
  function BlockLane(m: seq<Byte>, p: nat, i: nat, x: Word): Word
    requires i < 4 && p + 32 <= |m|
  {
    if i == 0 then Add(TimesK(Add(Load64(m, p), x)), Rotl(Load64(m, p + 24), 27))
    else TimesK(Add(Load64(m, p + 8 * i), Add(x, Rotl(Load64(m, p + 8 * i - 8), 27))))
  }

  function BlocksLane(m: seq<Byte>, n: nat, i: nat, x: Word): Word
    requires i < 4 && 32 * n <= |m|
  {
    if n == 0 then x else BlockLane(m, 32 * (n - 1), i, BlocksLane(m, n - 1, i, x))
  }

  /** What the 8-byte step at p does to lane i. */
  function PairLane(m: seq<Byte>, p: nat, i: nat, x: Word): Word
    requires i < 4 && p + 8 <= |m|
  {
    if i < 2 then TimesK(Xor(x, Load32(m, p + 4 * i))) else x
  }

  function PairsLane(m: seq<Byte>, p: nat, n: nat, i: nat, x: Word): Word
    requires i < 4 && p + 8 * n <= |m|
  {
    if n == 0 then x else PairLane(m, p + 8 * (n - 1), i, PairsLane(m, p, n - 1, i, x))
  }

  function TailLane(m: seq<Byte>, p: nat, i: nat, x: Word): Word
    requires i < 4 && p <= |m| < p + 8
  {
    if i < 2 || p == |m| then x else Xor(x, if i == 2 then TailWords(m, p).0 else TailWords(m, p).1)
  }

  function AbsorbLane(m: seq<Byte>, i: nat, x: Word): Word
    requires i < 4
  {
    var n := |m| / 32;
    var w := |m| % 32 / 8;
    TailLane(m, 32 * n + 8 * w, i, PairsLane(m, 32 * n, w, i, BlocksLane(m, n, i, x)))
  }

  lemma StripeLane(st: Lanes, i: nat, s: Word, k: nat)
    requires i < 4 && k < 4
    ensures Stripe(st, i, s)[k] == if k == i then TimesK(Add(s, st[k]))
                                   else if k == (i + 1) % 4 then Add(st[k], Rotl(s, 27)) else st[k]
  {
    hide TimesK, Add, Rotl;
  }

  /** The in-place sweep over the four stripes amounts to four independent lane updates. */
  lemma BlockLanes(st: Lanes, m: seq<Byte>, p: nat, i: nat)
    requires i < 4 && p + 32 <= |m|
    ensures Stripes(st, m, p, 4)[i] == BlockLane(m, p, i, st[i])
  {
    hide TimesK, Add, Rotl, Load64, Stripe;
    assert Stripes(st, m, p, 0) == st;
    StripeLane(st, 0, Load64(m, p), i);
    var t1 := Stripes(st, m, p, 1);
    assert t1 == Stripe(st, 0, Load64(m, p));
    StripeLane(t1, 1, Load64(m, p + 8), i);
    var t2 := Stripes(st, m, p, 2);
    StripeLane(t2, 2, Load64(m, p + 16), i);
    var t3 := Stripes(st, m, p, 3);
    StripeLane(t3, 3, Load64(m, p + 24), i);
  }

  lemma {:induction false} BlocksLanes(st: Lanes, m: seq<Byte>, n: nat, i: nat)
    requires i < 4 && 32 * n <= |m|
    ensures Blocks(st, m, n)[i] == BlocksLane(m, n, i, st[i])
  {
    hide TimesK, Add, Rotl, Load64, BlockLane;
    if n > 0 {
      BlocksLanes(st, m, n - 1, i);
      BlockLanes(Blocks(st, m, n - 1), m, 32 * (n - 1), i);
    }
  }

  lemma {:induction false} PairsLanes(st: Lanes, m: seq<Byte>, p: nat, n: nat, i: nat)
    requires i < 4 && p + 8 * n <= |m|
    ensures WordPairs(st, m, p, n)[i] == PairsLane(m, p, n, i, st[i])
  {
    hide TimesK, Xor, Load32;
    if n > 0 {
      PairsLanes(st, m, p, n - 1, i);
    }
  }

  /** The message alone decides what happens to a lane; the other lanes have no say. */
  lemma LaneIndependence(st: Lanes, m: seq<Byte>, i: nat)
    requires i < 4
    ensures Absorb(st, m)[i] == AbsorbLane(m, i, st[i])
  {
    hide Blocks, WordPairs, BlocksLane, PairsLane, Xor, TailWords;
    var n := |m| / 32;
    BlocksLanes(st, m, n, i);
    PairsLanes(Blocks(st, m, n), m, 32 * n, |m| % 32 / 8, i);
  }

  // ---- ... and reversibly ----

  function UnblockLane(m: seq<Byte>, p: nat, i: nat, y: Word): Word
    requires i < 4 && p + 32 <= |m|
  {
    if i == 0 then Sub(OverK(Sub(y, Rotl(Load64(m, p + 24), 27))), Load64(m, p))
    else Sub(Sub(OverK(y), Load64(m, p + 8 * i)), Rotl(Load64(m, p + 8 * i - 8), 27))
  }

  function UnblocksLane(m: seq<Byte>, n: nat, i: nat, y: Word): Word
    requires i < 4 && 32 * n <= |m|
  {
    if n == 0 then y else UnblocksLane(m, n - 1, i, UnblockLane(m, 32 * (n - 1), i, y))
  }

  function UnpairLane(m: seq<Byte>, p: nat, i: nat, y: Word): Word
    requires i < 4 && p + 8 <= |m|
  {
    if i < 2 then Xor(OverK(y), Load32(m, p + 4 * i)) else y
  }

  function UnpairsLane(m: seq<Byte>, p: nat, n: nat, i: nat, y: Word): Word
    requires i < 4 && p + 8 * n <= |m|
  {
    if n == 0 then y else UnpairsLane(m, p, n - 1, i, UnpairLane(m, p + 8 * (n - 1), i, y))
  }

  /** Runs the message backwards through lane i. */
  function UnabsorbLane(m: seq<Byte>, i: nat, y: Word): Word
    requires i < 4
  {
    var n := |m| / 32;
    var w := |m| % 32 / 8;
    UnblocksLane(m, n, i, UnpairsLane(m, 32 * n, w, i, TailLane(m, 32 * n + 8 * w, i, y)))
  }

  lemma BlockLaneReversible(m: seq<Byte>, p: nat, i: nat, x: Word)
    requires i < 4 && p + 32 <= |m|
    ensures UnblockLane(m, p, i, BlockLane(m, p, i, x)) == x
    ensures BlockLane(m, p, i, UnblockLane(m, p, i, x)) == x
  {
    hide TimesK, OverK, Add, Sub, Rotl, Load64;
    var s := Load64(m, p + 8 * i);
    if i == 0 {
      var r := Rotl(Load64(m, p + 24), 27);
      AddCancels(TimesK(Add(s, x)), r);
      TimesKBijective(Add(s, x));
      AddCancels(x, s);
      AddCancels(x, r);
      AddCancels(OverK(Sub(x, r)), s);
      AddCancels(Sub(OverK(Sub(x, r)), s), s);
      TimesKBijective(Sub(x, r));
    } else {
      var r := Rotl(Load64(m, p + 8 * i - 8), 27);
      TimesKBijective(Add(s, Add(x, r)));
      AddCancels(Add(x, r), s);
      AddCancels(x, r);
      TimesKBijective(x);
      AddCancels(OverK(x), s);
      AddCancels(Sub(OverK(x), s), s);
      AddCancels(Sub(OverK(x), s), r);
    }
  }

  lemma {:induction false} BlocksLaneReversible(m: seq<Byte>, n: nat, i: nat, x: Word)
    requires i < 4 && 32 * n <= |m|
    ensures UnblocksLane(m, n, i, BlocksLane(m, n, i, x)) == x
    ensures BlocksLane(m, n, i, UnblocksLane(m, n, i, x)) == x
  {
    hide BlockLane, UnblockLane;
    if n > 0 {
      BlockLaneReversible(m, 32 * (n - 1), i, BlocksLane(m, n - 1, i, x));
      BlocksLaneReversible(m, n - 1, i, x);
      BlockLaneReversible(m, 32 * (n - 1), i, x);
      BlocksLaneReversible(m, n - 1, i, UnblockLane(m, 32 * (n - 1), i, x));
    }
  }

  lemma PairLaneReversible(m: seq<Byte>, p: nat, i: nat, x: Word)
    requires i < 4 && p + 8 <= |m|
    ensures UnpairLane(m, p, i, PairLane(m, p, i, x)) == x
    ensures PairLane(m, p, i, UnpairLane(m, p, i, x)) == x
  {
    hide TimesK, OverK, Xor, Load32;
    if i < 2 {
      var w := Load32(m, p + 4 * i);
      TimesKBijective(Xor(x, w));
      XorCancels(x, w);
      XorCancels(OverK(x), w);
      TimesKBijective(x);
    }
  }

  lemma {:induction false} PairsLaneReversible(m: seq<Byte>, p: nat, n: nat, i: nat, x: Word)
    requires i < 4 && p + 8 * n <= |m|
    ensures UnpairsLane(m, p, n, i, PairsLane(m, p, n, i, x)) == x
    ensures PairsLane(m, p, n, i, UnpairsLane(m, p, n, i, x)) == x
  {
    hide PairLane, UnpairLane;
    if n > 0 {
      PairLaneReversible(m, p + 8 * (n - 1), i, PairsLane(m, p, n - 1, i, x));
      PairsLaneReversible(m, p, n - 1, i, x);
      PairLaneReversible(m, p + 8 * (n - 1), i, x);
      PairsLaneReversible(m, p, n - 1, i, UnpairLane(m, p + 8 * (n - 1), i, x));
    }
  }

  lemma TailLaneReversible(m: seq<Byte>, p: nat, i: nat, x: Word)
    requires i < 4 && p <= |m| < p + 8
    ensures TailLane(m, p, i, TailLane(m, p, i, x)) == x
  {
    hide Xor, TailWords;
    XorCancels(x, TailWords(m, p).0);
    XorCancels(x, TailWords(m, p).1);
  }

  /** For a fixed message, absorbing is a permutation of each lane: it can be run backwards from any final state. */
  lemma AbsorbReversible(m: seq<Byte>, i: nat, x: Word)
    requires i < 4
    ensures UnabsorbLane(m, i, AbsorbLane(m, i, x)) == x
    ensures AbsorbLane(m, i, UnabsorbLane(m, i, x)) == x
  {
    hide BlocksLane, UnblocksLane, PairsLane, UnpairsLane, TailLane;
    var n, w := |m| / 32, |m| % 32 / 8;
    var b := BlocksLane(m, n, i, x);
    var c := PairsLane(m, 32 * n, w, i, b);
    TailLaneReversible(m, 32 * n + 8 * w, i, c);
    PairsLaneReversible(m, 32 * n, w, i, b);
    BlocksLaneReversible(m, n, i, x);
    var t := TailLane(m, 32 * n + 8 * w, i, x);
    var u := UnpairsLane(m, 32 * n, w, i, t);
    BlocksLaneReversible(m, n, i, u);
    PairsLaneReversible(m, 32 * n, w, i, t);
    TailLaneReversible(m, 32 * n + 8 * w, i, x);
  }
}
