/** Which changes to a message the hash must notice, and when equal-length messages collide. */
module HashCollisions {
  import opened Common
  import opened Words
  import opened Casts
  import opened ChibiHash
  import opened HashLanes

  /** m and m' have the same bytes at positions a, ..., b - 1. */
  ghost predicate AgreeOn(m: seq<Byte>, m': seq<Byte>, a: nat, b: nat)
    requires a <= b <= |m| == |m'|
  {
    forall k | a <= k < b :: m[k] == m'[k]
  }

  /** m and m' have the same length and differ only inside [a, b). */
  ghost predicate ChangedOnlyIn(m: seq<Byte>, m': seq<Byte>, a: nat, b: nat) {
    |m| == |m'| && a <= b <= |m| && AgreeOn(m, m', 0, a) && AgreeOn(m, m', b, |m|)
  }

  // ---- A common suffix neither merges nor separates lanes ----

  lemma BlockLaneOnAgreement(m: seq<Byte>, m': seq<Byte>, p: nat, i: nat, x: Word, x': Word)
    requires i < 4 && p + 32 <= |m| == |m'| && AgreeOn(m, m', p, p + 32)
    ensures BlockLane(m, p, i, x) == BlockLane(m', p, i, x') <==> x == x'
  {
    hide TimesK, Add, Rotl, Join, Pack, UnblockLane;
    assert forall q | p <= q <= p + 24 :: Load64(m, q) == Load64(m', q);
    BlockLaneReversible(m, p, i, x);
    BlockLaneReversible(m, p, i, x');
  }

  lemma {:induction false} BlocksOnAgreement(m: seq<Byte>, m': seq<Byte>, n0: nat, n: nat, i: nat, x: Word)
    requires i < 4 && n0 <= n && 32 * n <= |m| == |m'| && AgreeOn(m, m', 32 * n0, 32 * n)
    ensures BlocksLane(m, n, i, x) == BlocksLane(m', n, i, x) <==> BlocksLane(m, n0, i, x) == BlocksLane(m', n0, i, x)
  {
    hide BlockLane;
    if n0 < n {
      BlocksOnAgreement(m, m', n0, n - 1, i, x);
      BlockLaneOnAgreement(m, m', 32 * (n - 1), i, BlocksLane(m, n - 1, i, x), BlocksLane(m', n - 1, i, x));
    }
  }

  lemma PairLaneOnAgreement(m: seq<Byte>, m': seq<Byte>, p: nat, i: nat, x: Word, x': Word)
    requires i < 4 && p + 8 <= |m| == |m'| && AgreeOn(m, m', p, p + 8)
    ensures PairLane(m, p, i, x) == PairLane(m', p, i, x') <==> x == x'
  {
    hide TimesK, Xor, Pack, UnpairLane;
    assert forall q | p <= q <= p + 4 :: Load32(m, q) == Load32(m', q);
    PairLaneReversible(m, p, i, x);
    PairLaneReversible(m, p, i, x');
  }

  lemma {:induction false} PairsOnAgreement(m: seq<Byte>, m': seq<Byte>, p: nat, n0: nat, n: nat, i: nat,
                                            x: Word, x': Word)
    requires i < 4 && n0 <= n && p + 8 * n <= |m| == |m'| && AgreeOn(m, m', p + 8 * n0, p + 8 * n)
    ensures PairsLane(m, p, n, i, x) == PairsLane(m', p, n, i, x')
       <==> PairsLane(m, p, n0, i, x) == PairsLane(m', p, n0, i, x')
  {
    hide PairLane;
    if n0 < n {
      PairsOnAgreement(m, m', p, n0, n - 1, i, x, x');
      PairLaneOnAgreement(m, m', p + 8 * (n - 1), i, PairsLane(m, p, n - 1, i, x), PairsLane(m', p, n - 1, i, x'));
    }
  }

  lemma TailLaneOnAgreement(m: seq<Byte>, m': seq<Byte>, p: nat, i: nat, x: Word, x': Word)
    requires i < 4 && p <= |m| == |m'| < p + 8 && AgreeOn(m, m', p, |m|)
    ensures TailLane(m, p, i, x) == TailLane(m', p, i, x') <==> x == x'
  {
    hide Xor, Pack;
    assert TailWords(m, p) == TailWords(m', p);
    TailLaneReversible(m, p, i, x);
    TailLaneReversible(m, p, i, x');
  }

  /** Lane i just before 8-byte step j of the 8-byte region. */
  function LaneAtPair(m: seq<Byte>, j: nat, i: nat, x: Word): Word
    requires i < 4 && j <= |m| % 32 / 8
  {
    PairsLane(m, 32 * (|m| / 32), j, i, BlocksLane(m, |m| / 32, i, x))
  }

  /** Whatever common suffix follows 8-byte step j, a lane ends equal exactly when it was equal there. */
  lemma SuffixAfterPairs(m: seq<Byte>, m': seq<Byte>, j: nat, i: nat, x: Word)
    requires i < 4 && |m| == |m'| && j <= |m| % 32 / 8 && AgreeOn(m, m', 32 * (|m| / 32) + 8 * j, |m|)
    ensures AbsorbLane(m, i, x) == AbsorbLane(m', i, x) <==> LaneAtPair(m, j, i, x) == LaneAtPair(m', j, i, x)
  {
    hide BlocksLane, PairsLane, TailLane;
    var p, w := 32 * (|m| / 32), |m| % 32 / 8;
    PairsOnAgreement(m, m', p, j, w, i, BlocksLane(m, |m| / 32, i, x), BlocksLane(m', |m| / 32, i, x));
    TailLaneOnAgreement(m, m', p + 8 * w, i, LaneAtPair(m, w, i, x), LaneAtPair(m', w, i, x));
  }

  /** Likewise after block n0. */
  lemma SuffixAfterBlocks(m: seq<Byte>, m': seq<Byte>, n0: nat, i: nat, x: Word)
    requires i < 4 && 32 * n0 <= |m| == |m'| && AgreeOn(m, m', 32 * n0, |m|)
    ensures AbsorbLane(m, i, x) == AbsorbLane(m', i, x) <==> BlocksLane(m, n0, i, x) == BlocksLane(m', n0, i, x)
  {
    hide BlocksLane, AbsorbLane;
    BlocksOnAgreement(m, m', n0, |m| / 32, i, x);
    SuffixAfterPairs(m, m', 0, i, x);
  }

  lemma {:induction false} BlocksOnSamePrefix(m: seq<Byte>, m': seq<Byte>, n: nat, i: nat, x: Word)
    requires i < 4 && 32 * n <= |m| == |m'| && AgreeOn(m, m', 0, 32 * n)
    ensures BlocksLane(m, n, i, x) == BlocksLane(m', n, i, x)
  {
    hide BlockLane;
    BlocksOnAgreement(m, m', 0, n, i, x);
  }

  lemma PairsOnSamePrefix(m: seq<Byte>, m': seq<Byte>, j: nat, i: nat, x: Word)
    requires i < 4 && |m| == |m'| && j <= |m| % 32 / 8 && AgreeOn(m, m', 0, 32 * (|m| / 32) + 8 * j)
    ensures LaneAtPair(m, j, i, x) == LaneAtPair(m', j, i, x)
  {
    hide BlocksLane, PairLane;
    BlocksOnSamePrefix(m, m', |m| / 32, i, x);
    var b := BlocksLane(m, |m| / 32, i, x);
    PairsOnAgreement(m, m', 32 * (|m| / 32), 0, j, i, b, b);
  }

  // ---- Changing one stripe ----

  lemma ChangeIsInside(m: seq<Byte>, m': seq<Byte>, a: nat, b: nat)
    requires ChangedOnlyIn(m, m', a, b)
    ensures m == m' <==> m[a..b] == m'[a..b]
  {
    if m[a..b] == m'[a..b] {
      assert forall k | a <= k < b :: m[k] == m[a..b][k - a] && m'[k] == m'[a..b][k - a];
    }
  }

  /** Only the changed stripe loads differently. */
  lemma StripeLoads(m: seq<Byte>, m': seq<Byte>, p: nat, i: nat, k: nat)
    requires i < 4 && k < 4 && p + 32 <= |m|
    requires ChangedOnlyIn(m, m', p + 8 * i, p + 8 * i + 8) && m != m'
    ensures Load64(m, p + 8 * k) == Load64(m', p + 8 * k) <==> k != i
  {
    hide Load64;
    Load64Injective(m, m', p + 8 * k);
    ChangeIsInside(m, m', p + 8 * i, p + 8 * i + 8);
  }

  lemma AddCancelsEither(a: Word, b: Word, a': Word, b': Word)
    ensures Add(a, b) == Add(a', b') ==> (a == a' <==> b == b')
  {
    hide Add, Sub;
    AddCancels(a, b);
    AddCancels(a', b');
    AddCancels(b, a);
    AddCancels(b', a');
  }

  /** What enters lane 0, when at most one of the two stripes it reads has changed. */
  lemma FirstLaneChange(s: Word, s': Word, r: Word, r': Word, x: Word)
    requires s == s' || r == r'
    ensures Add(TimesK(Add(s, x)), r) == Add(TimesK(Add(s', x)), r') <==> s == s' && r == r'
  {
    hide TimesK, Add;
    AddCancelsEither(TimesK(Add(s, x)), r, TimesK(Add(s', x)), r');
    AddCancelsEither(s, x, s', x);
    if TimesK(Add(s, x)) == TimesK(Add(s', x)) {
      TimesKInjective(Add(s, x), Add(s', x));
    }
  }

  /** Likewise for the lanes that multiply both stripes. */
  lemma LaterLaneChange(s: Word, s': Word, r: Word, r': Word, x: Word)
    requires s == s' || r == r'
    ensures TimesK(Add(s, Add(x, r))) == TimesK(Add(s', Add(x, r'))) <==> s == s' && r == r'
  {
    hide TimesK, Add;
    if TimesK(Add(s, Add(x, r))) == TimesK(Add(s', Add(x, r'))) {
      TimesKInjective(Add(s, Add(x, r)), Add(s', Add(x, r')));
      AddCancelsEither(s, Add(x, r), s', Add(x, r'));
      AddCancelsEither(x, r, x, r');
    }
  }

  /** A changed stripe i changes lanes i and i + 1 (round) of its own block and no other lane. */
  lemma StripeChangeInBlock(m: seq<Byte>, m': seq<Byte>, p: nat, i: nat, k: nat, x: Word)
    requires i < 4 && k < 4 && p + 32 <= |m|
    requires ChangedOnlyIn(m, m', p + 8 * i, p + 8 * i + 8) && m != m'
    ensures BlockLane(m, p, k, x) == BlockLane(m', p, k, x) <==> k != i && k != (i + 1) % 4
  {
    hide TimesK, Add, Rotl, Load64;
    var prev := (k + 3) % 4;
    StripeLoads(m, m', p, i, k);
    StripeLoads(m, m', p, i, prev);
    var s, s' := Load64(m, p + 8 * k), Load64(m', p + 8 * k);
    var t, t' := Load64(m, p + 8 * prev), Load64(m', p + 8 * prev);
    if Rotl(t, 27) == Rotl(t', 27) {
      Rotl27Injective(t, t');
    }
    if k == 0 {
      FirstLaneChange(s, s', Rotl(t, 27), Rotl(t', 27), x);
    } else {
      LaterLaneChange(s, s', Rotl(t, 27), Rotl(t', 27), x);
    }
  }

  /** Changing exactly one 8-byte stripe of the 32-byte region changes exactly two of the final lanes,
      whatever blocks and tail follow. */
  lemma OneStripeChangesTwoLanes(st: Lanes, m: seq<Byte>, m': seq<Byte>, j: nat, i: nat, k: nat)
    requires i < 4 && k < 4 && 32 * (j + 1) <= |m|
    requires ChangedOnlyIn(m, m', 32 * j + 8 * i, 32 * j + 8 * i + 8) && m != m'
    ensures Absorb(st, m)[k] == Absorb(st, m')[k] <==> k != i && k != (i + 1) % 4
  {
    hide BlockLane, AbsorbLane, Absorb;
    LaneIndependence(st, m, k);
    LaneIndependence(st, m', k);
    BlocksOnSamePrefix(m, m', j, k, st[k]);
    StripeChangeInBlock(m, m', 32 * j, i, k, BlocksLane(m, j, k, st[k]));
    SuffixAfterBlocks(m, m', j + 1, k, st[k]);
  }

  // ---- Changing one 4-byte word of the 8-byte region ----

  lemma MultipleOf4(k: nat, r: nat)
    requires (4 * k + r) % 4 == 0 && r < 8
    ensures r == 0 || r == 4
  {
  }

  lemma StepBoundary(n: nat, j: nat)
    ensures (32 * n + 8 * j) % 8 == 0
  {
    assert 32 * n + 8 * j == 8 * (4 * n + j);
  }

  lemma StepOfWord(n: nat, w: nat, e: nat)
    requires (32 * n + e) % 4 == 0 && e + 4 <= 8 * w
    ensures var j := e / 8; var q := 32 * n + 8 * j;
            j < w && (32 * n + e == q || 32 * n + e == q + 4) && q % 8 == 0
  {
    var j, r := e / 8, e % 8;
    assert e == 8 * j + r;
    MultipleOf4(8 * n + 2 * j, r);
    StepBoundary(n, j);
  }

  /** Nothing of the 8-byte region is 32 bytes or more past the last whole block. */
  lemma RegionWithinBlock(len: nat, p: nat)
    requires 32 * (len / 32) <= p && p + 4 <= 8 * (len / 8)
    ensures p - 32 * (len / 32) < 32
  {
    assert len == 32 * (len / 32) + len % 32;
    assert len == 8 * (len / 8) + len % 8;
  }

  lemma BlockOffset(p: nat, n: nat, e: nat)
    requires p == 32 * n + e && e < 32
    ensures p % 32 == e
  {
  }

  lemma EighthIs(n: nat, q: nat, r: nat)
    requires n == 8 * q + r && r < 8
    ensures n / 8 == q
  {
  }

  lemma TailPosition(len: nat)
    ensures 32 * (len / 32) + 8 * (len % 32 / 8) == 8 * (len / 8)
  {
    EighthIs(len, 4 * (len / 32) + len % 32 / 8, len % 32 % 8);
  }

  /** Word p of the 8-byte region is half of 8-byte step p % 32 / 8. */
  lemma WordPosition(len: nat, p: nat)
    requires p % 4 == 0 && 32 * (len / 32) <= p && p + 4 <= 8 * (len / 8)
    ensures p % 32 / 8 < len % 32 / 8
    ensures var q := 32 * (len / 32) + 8 * (p % 32 / 8); (p == q || p == q + 4) && q % 8 == 0 && q + 8 <= len
  {
    var n, e := len / 32, p - 32 * (len / 32);
    RegionWithinBlock(len, p);
    BlockOffset(p, n, e);
    TailPosition(len);
    StepOfWord(n, len % 32 / 8, e);
  }

  lemma HalfOfPair(q: nat, p: nat)
    requires q % 8 == 0 && (p == q || p == q + 4)
    ensures p == q + 4 * (p / 4 % 2)
  {
    var j := q / 8;
    assert q == 8 * j;
    assert p / 4 == 2 * j + (if p == q then 0 else 1);
  }

  lemma XorInjective(x: Word, w: Word, w': Word)
    ensures Xor(x, w) == Xor(x, w') <==> w == w'
  {
    XorCancels(w, x);
    XorCancels(w', x);
    XorCommutes(x, w);
    XorCommutes(x, w');
  }

  lemma PairChange(m: seq<Byte>, m': seq<Byte>, q: nat, p: nat, k: nat, x: Word)
    requires k < 4 && (p == q || p == q + 4) && q % 8 == 0 && q + 8 <= |m|
    requires ChangedOnlyIn(m, m', p, p + 4) && m != m'
    ensures PairLane(m, q, k, x) == PairLane(m', q, k, x) <==> k != p / 4 % 2
  {
    hide TimesK, Xor, Load32;
    if k < 2 {
      var r := q + 4 * k;
      var w, w' := Load32(m, r), Load32(m', r);
      Load32Injective(m, m', r);
      ChangeIsInside(m, m', p, p + 4);
      HalfOfPair(q, p);
      assert p != r ==> m[r..r + 4] == m'[r..r + 4];
      if TimesK(Xor(x, w)) == TimesK(Xor(x, w')) {
        TimesKInjective(Xor(x, w), Xor(x, w'));
        XorInjective(x, w, w');
      }
    }
  }

  lemma OneWordChange(m: seq<Byte>, m': seq<Byte>, p: nat, k: nat, x: Word)
    requires k < 4 && p % 4 == 0 && 32 * (|m| / 32) <= p && p + 4 <= 8 * (|m| / 8)
    requires ChangedOnlyIn(m, m', p, p + 4) && m != m'
    ensures AbsorbLane(m, k, x) == AbsorbLane(m', k, x) <==> k != p / 4 % 2
  {
    hide AbsorbLane, BlocksLane, PairLane;
    var j := p % 32 / 8;
    WordPosition(|m|, p);
    PairsOnSamePrefix(m, m', j, k, x);
    PairChange(m, m', 32 * (|m| / 32) + 8 * j, p, k, LaneAtPair(m, j, k, x));
    SuffixAfterPairs(m, m', j + 1, k, x);
  }

  /** Changing one aligned word between the last whole block and the tail changes exactly its own lane:
      lane 0 for the first half of an 8-byte step, lane 1 for the second. */
  lemma OneWordChangesOneLane(st: Lanes, m: seq<Byte>, m': seq<Byte>, p: nat, k: nat)
    requires k < 4 && p % 4 == 0 && 32 * (|m| / 32) <= p && p + 4 <= 8 * (|m| / 8)
    requires ChangedOnlyIn(m, m', p, p + 4) && m != m'
    ensures Absorb(st, m)[k] == Absorb(st, m')[k] <==> k != p / 4 % 2
  {
    hide AbsorbLane, Absorb;
    LaneIndependence(st, m, k);
    LaneIndependence(st, m', k);
    OneWordChange(m, m', p, k, st[k]);
  }

  // ---- Changing the tail ----

  lemma ShortTailInjective(m: seq<Byte>, m': seq<Byte>, p: nat)
    requires p < |m| == |m'| < p + 4
    ensures TailWords(m, p) == TailWords(m', p) <==> m[p..] == m'[p..]
  {
    hide Pack;
    var l := |m| - p;
    PackInjective(m[p], 0, 0, 0, m'[p], 0, 0, 0);
    PackInjective(m[p + l / 2], m[p + l - 1], 0, 0, m'[p + l / 2], m'[p + l - 1], 0, 0);
    assert m[p..] == [m[p]] + (if l >= 2 then [m[p + 1]] else []) + (if l == 3 then [m[p + 2]] else []);
    assert m'[p..] == [m'[p]] + (if l >= 2 then [m'[p + 1]] else []) + (if l == 3 then [m'[p + 2]] else []);
  }

  /** Two slices that overlap or touch cover what lies between their ends. */
  lemma OverlapCovers(m: seq<Byte>, m': seq<Byte>, p: nat, q: nat, r: nat)
    requires p <= r <= q <= |m| == |m'|
    ensures m[p..q] == m'[p..q] && m[r..|m|] == m'[r..|m|] <==> m[p..] == m'[p..]
  {
    var e := |m|;
    assert m[r..e] == m[r..] && m'[r..e] == m'[r..];
    if m[p..q] == m'[p..q] && m[r..] == m'[r..] {
      assert m[p..] == m[p..q] + m[r..][q - r..];
      assert m'[p..] == m'[p..q] + m'[r..][q - r..];
    }
    assert m[p..q] == m[p..][..q - p] && m'[p..q] == m'[p..][..q - p];
    assert m[r..] == m[p..][r - p..] && m'[r..] == m'[p..][r - p..];
  }

  /** The tail loses nothing: two tails of one length give the same pair of words exactly when they are equal,
      although for 4 to 7 bytes the two loads overlap and for 1 or 2 bytes a byte is read twice. */
  lemma TailWordsInjective(m: seq<Byte>, m': seq<Byte>, p: nat)
    requires p <= |m| == |m'| < p + 8
    ensures TailWords(m, p) == TailWords(m', p) <==> m[p..] == m'[p..]
  {
    hide Pack, Load32;
    if |m| - p >= 4 {
      Load32Injective(m, m', p);
      Load32Injective(m, m', |m| - 4);
      OverlapCovers(m, m', p, p + 4, |m| - 4);
      assert TailWords(m, p) == (Load32(m, p), Load32(m, |m| - 4));
      assert TailWords(m', p) == (Load32(m', p), Load32(m', |m| - 4));
    } else if |m| > p {
      ShortTailInjective(m, m', p);
    } else {
      assert m[p..] == [] && m'[p..] == [];
    }
  }

  lemma EmptyTail(m: seq<Byte>, p: nat)
    requires p <= |m| < p + 8
    ensures p == |m| ==> TailWords(m, p) == (0, 0)
  {
  }

  lemma TailLaneOfWord(m: seq<Byte>, m': seq<Byte>, p: nat, k: nat, c: Word)
    requires 2 <= k < 4 && p <= |m| == |m'| < p + 8
    ensures TailLane(m, p, k, c) == TailLane(m', p, k, c) <==>
            if k == 2 then TailWords(m, p).0 == TailWords(m', p).0 else TailWords(m, p).1 == TailWords(m', p).1
  {
    hide TailWords, Xor;
    XorInjective(c, TailWords(m, p).0, TailWords(m', p).0);
    XorInjective(c, TailWords(m, p).1, TailWords(m', p).1);
    EmptyTail(m, p);
    EmptyTail(m', p);
  }

  lemma AbsorbLaneEnds(m: seq<Byte>, i: nat, x: Word)
    requires i < 4
    ensures AbsorbLane(m, i, x) == TailLane(m, 8 * (|m| / 8), i, LaneAtPair(m, |m| % 32 / 8, i, x))
  {
    hide BlocksLane, PairsLane, TailLane;
    TailPosition(|m|);
  }

  /** On a common prefix, lanes 2 and 3 end equal exactly when they receive the same tail word. */
  lemma LaneBeforeTail(m: seq<Byte>, m': seq<Byte>, k: nat, x: Word)
    requires 2 <= k < 4 && |m| == |m'| && AgreeOn(m, m', 0, 8 * (|m| / 8))
    ensures AbsorbLane(m, k, x) == AbsorbLane(m', k, x) <==>
            if k == 2 then TailWords(m, 8 * (|m| / 8)).0 == TailWords(m', 8 * (|m| / 8)).0
            else TailWords(m, 8 * (|m| / 8)).1 == TailWords(m', 8 * (|m| / 8)).1
  {
    hide LaneAtPair, AbsorbLane, TailLane, TailWords;
    TailPosition(|m|);
    PairsOnSamePrefix(m, m', |m| % 32 / 8, k, x);
    AbsorbLaneEnds(m, k, x);
    AbsorbLaneEnds(m', k, x);
    TailLaneOfWord(m, m', 8 * (|m| / 8), k, LaneAtPair(m, |m| % 32 / 8, k, x));
  }

  /** Messages that agree up to the tail leave the same lanes exactly when they are the same message. */
  lemma TailChangeShows(st: Lanes, m: seq<Byte>, m': seq<Byte>)
    requires |m| == |m'| && AgreeOn(m, m', 0, 8 * (|m| / 8))
    ensures Absorb(st, m) == Absorb(st, m') <==> m == m'
  {
    hide Absorb, AbsorbLane;
    var p := 8 * (|m| / 8);
    TailWordsInjective(m, m', p);
    assert m == m[..p] + m[p..] && m' == m'[..p] + m'[p..];
    forall k: nat | k < 4
      ensures Absorb(st, m)[k] == AbsorbLane(m, k, st[k]) && Absorb(st, m')[k] == AbsorbLane(m', k, st[k])
    {
      LaneIndependence(st, m, k);
      LaneIndependence(st, m', k);
    }
    if Absorb(st, m) == Absorb(st, m') {
      LaneBeforeTail(m, m', 2, st[2]);
      LaneBeforeTail(m, m', 3, st[3]);
      assert m[p..] == m'[p..];
    }
  }

  lemma ChangeWithin(m: seq<Byte>, m': seq<Byte>, p: nat, a: nat, b: nat)
    requires ChangedOnlyIn(m, m', p, p + 1) && a <= p < b <= |m|
    ensures ChangedOnlyIn(m, m', a, b)
  {
  }

  /** The stripe that holds byte p. */
  lemma StripePosition(len: nat, p: nat)
    requires p < 32 * (len / 32)
    ensures 32 * (p / 32 + 1) <= len && var q := 32 * (p / 32) + 8 * (p % 32 / 8); q <= p < q + 8
  {
    assert p / 32 < len / 32;
  }

  lemma RoundDown(p: nat, q: nat, a: nat, b: nat)
    requires q == p / 4 && 4 * a <= p < 4 * b
    ensures (4 * q) % 4 == 0 && 4 * a <= 4 * q <= p < 4 * q + 4 <= 4 * b
  {
    assert p == 4 * q + p % 4;
  }

  /** The aligned word of the 8-byte region that holds byte p. */
  lemma AlignedWord(len: nat, p: nat)
    requires 32 * (len / 32) <= p < 8 * (len / 8)
    ensures var q := 4 * (p / 4); q % 4 == 0 && 32 * (len / 32) <= q <= p < q + 4 <= 8 * (len / 8)
  {
    var q := p / 4;
    RoundDown(p, q, 8 * (len / 32), 2 * (len / 8));
  }

  lemma ChangeAfter(m: seq<Byte>, m': seq<Byte>, p: nat, a: nat)
    requires ChangedOnlyIn(m, m', p, p + 1) && a <= p
    ensures |m| == |m'| && AgreeOn(m, m', 0, a)
  {
  }

  /** Whichever single byte of a message is changed, the lanes notice. */
  lemma OneByteShows(st: Lanes, m: seq<Byte>, m': seq<Byte>, p: nat)
    requires p < |m| && ChangedOnlyIn(m, m', p, p + 1) && m[p] != m'[p]
    ensures Absorb(st, m) != Absorb(st, m')
  {
    hide Absorb, ChangedOnlyIn;
    if p < 32 * (|m| / 32) {
      StripePosition(|m|, p);
      var i := p % 32 / 8;
      ChangeWithin(m, m', p, 32 * (p / 32) + 8 * i, 32 * (p / 32) + 8 * i + 8);
      OneStripeChangesTwoLanes(st, m, m', p / 32, i, i);
    } else if p < 8 * (|m| / 8) {
      AlignedWord(|m|, p);
      var q := 4 * (p / 4);
      ChangeWithin(m, m', p, q, q + 4);
      OneWordChangesOneLane(st, m, m', q, q / 4 % 2);
    } else {
      ChangeAfter(m, m', p, 8 * (|m| / 8));
      TailChangeShows(st, m, m');
    }
  }

  // ---- The output ----

  /** Reads h[1] back from the output. */
  function Unoutput(x: Word, len: Word, seed: Word): Word {
    Xor(UnmixBefore(OverK(UnmixAfter(x))), Add(LengthWord(len), seed))
  }

  /** For a fixed length and seed the output is a bijection of the final h[1]. */
  lemma OutputBijective(h: Word, len: Word, seed: Word)
    ensures Unoutput(Output(h, len, seed), len, seed) == h
    ensures Output(Unoutput(h, len, seed), len, seed) == h
  {
    hide TimesK, OverK, Xor, Add, MixBefore, MixAfter, UnmixBefore, UnmixAfter, LengthWord;
    var c := Add(LengthWord(len), seed);
    var mixed := MixBefore(Xor(c, h));
    MixAfterBijective(TimesK(mixed));
    TimesKBijective(mixed);
    MixBeforeBijective(Xor(c, h));
    XorCommutes(c, h);
    XorCancels(h, c);
    var y := UnmixBefore(OverK(UnmixAfter(h)));
    XorCommutes(c, Xor(y, c));
    XorCancels(y, c);
    MixBeforeBijective(OverK(UnmixAfter(h)));
    TimesKBijective(UnmixAfter(h));
    MixAfterBijective(h);
  }

  lemma OutputInjective(h: Word, h': Word, len: Word, seed: Word)
    ensures Output(h, len, seed) == Output(h', len, seed) <==> h == h'
  {
    hide Output, Unoutput;
    OutputBijective(h, len, seed);
    OutputBijective(h', len, seed);
  }

  /** Equal-length messages collide exactly when their final h[1] do. */
  lemma CollideIffCombineEqual(m: seq<Byte>, m': seq<Byte>, seed: Word)
    requires |m| == |m'| < 0x8000_0000_0000_0000
    ensures Hash(m, seed) == Hash(m', seed)
       <==> Combine(Absorb(Init(seed), m)) == Combine(Absorb(Init(seed), m'))
  {
    hide Combine, Absorb, Output, Init, ToWord;
    OutputInjective(Combine(Absorb(Init(seed), m)), Combine(Absorb(Init(seed), m')), ToWord(|m|), seed);
  }

  /** A difference confined to lane 0, or to lane 1, always reaches h[1]. */
  lemma OneLaneReachesOutput(st: Lanes, st': Lanes, i: nat)
    requires i < 2 && forall k | 0 <= k < 4 :: st[k] == st'[k] <==> k != i
    ensures Combine(st) != Combine(st')
  {
    hide TimesK, Add, Sub, FoldDown, Cross;
    var a, a' := Add(st[0], Cross(st[2])), Add(st'[0], Cross(st'[2]));
    var b, b' := Add(st[1], Cross(st[3])), Add(st'[1], Cross(st'[3]));
    AddCancelsEither(b, FoldDown(TimesK(a)), b', FoldDown(TimesK(a')));
    AddCancelsEither(st[0], Cross(st[2]), st'[0], Cross(st'[2]));
    AddCancelsEither(st[1], Cross(st[3]), st'[1], Cross(st'[3]));
    if Combine(st) == Combine(st') {
      FoldDownBijective(TimesK(a));
      FoldDownBijective(TimesK(a'));
      if TimesK(a) == TimesK(a') {
        TimesKInjective(a, a');
      }
    }
  }

  /** Of states that differ at most in tail lane i, exactly those meet in h[1] whose tail lanes cross over alike. */
  lemma TailLaneReachesOutput(st: Lanes, st': Lanes, i: nat)
    requires 2 <= i < 4 && forall k | 0 <= k < 4 && k != i :: st[k] == st'[k]
    ensures Combine(st) == Combine(st') <==> Cross(st[i]) == Cross(st'[i])
  {
    hide TimesK, Add, Sub, FoldDown, Cross;
    var a, a' := Add(st[0], Cross(st[2])), Add(st'[0], Cross(st'[2]));
    var b, b' := Add(st[1], Cross(st[3])), Add(st'[1], Cross(st'[3]));
    AddCancelsEither(b, FoldDown(TimesK(a)), b', FoldDown(TimesK(a')));
    AddCancelsEither(st[0], Cross(st[2]), st'[0], Cross(st'[2]));
    AddCancelsEither(st[1], Cross(st[3]), st'[1], Cross(st'[3]));
    if Combine(st) == Combine(st') {
      FoldDownBijective(TimesK(a));
      FoldDownBijective(TimesK(a'));
      if TimesK(a) == TimesK(a') {
        TimesKInjective(a, a');
      }
    }
  }

  /** Two equal-length messages that differ only inside one aligned 4-byte word of the 8-byte region never collide,
      for any seed and any length. */
  lemma OneWordNeverCollides(m: seq<Byte>, m': seq<Byte>, p: nat, seed: Word)
    requires |m| == |m'| < 0x8000_0000_0000_0000
    requires p % 4 == 0 && 32 * (|m| / 32) <= p && p + 4 <= 8 * (|m| / 8)
    requires ChangedOnlyIn(m, m', p, p + 4) && m != m'
    ensures Hash(m, seed) != Hash(m', seed)
  {
    hide Absorb, Combine, Hash, Init;
    var st := Init(seed);
    forall k: nat | k < 4 ensures Absorb(st, m)[k] == Absorb(st, m')[k] <==> k != p / 4 % 2 {
      OneWordChangesOneLane(st, m, m', p, k);
    }
    OneLaneReachesOutput(Absorb(st, m), Absorb(st, m'), p / 4 % 2);
    CollideIffCombineEqual(m, m', seed);
  }

  // ---- Changing what one tail word sees ----

  lemma TailWordsFit(m: seq<Byte>, p: nat)
    requires p <= |m| < p + 8
    ensures TailWords(m, p).0 < 0x1_0000_0000 && TailWords(m, p).1 < 0x1_0000_0000
  {
    hide Pack;
    var l := |m| - p;
    if l >= 4 {
      PackFits(m[p], m[p + 1], m[p + 2], m[p + 3]);
      PackFits(m[|m| - 4], m[|m| - 3], m[|m| - 2], m[|m| - 1]);
    } else if l > 0 {
      PackFits(m[p], 0, 0, 0);
      PackFits(m[p + l / 2], m[p + l - 1], 0, 0);
    }
  }

  /** The tail reaches the lower half of a lane only. */
  lemma TailLaneHigh(m: seq<Byte>, p: nat, i: nat, x: Word)
    requires i < 4 && p <= |m| < p + 8
    ensures High(TailLane(m, p, i, x)) == High(x)
  {
    hide Xor, High, TailWords;
    TailWordsFit(m, p);
    XorKeepsHigh(x, TailWords(m, p).0);
    XorKeepsHigh(x, TailWords(m, p).1);
  }

  /** On a common prefix a lane keeps its upper half. */
  lemma SamePrefixHigh(m: seq<Byte>, m': seq<Byte>, i: nat, x: Word)
    requires i < 4 && |m| == |m'| && AgreeOn(m, m', 0, 8 * (|m| / 8))
    ensures High(AbsorbLane(m, i, x)) == High(AbsorbLane(m', i, x))
  {
    hide LaneAtPair, AbsorbLane, TailLane, High;
    TailPosition(|m|);
    PairsOnSamePrefix(m, m', |m| % 32 / 8, i, x);
    AbsorbLaneEnds(m, i, x);
    AbsorbLaneEnds(m', i, x);
    TailLaneHigh(m, 8 * (|m| / 8), i, LaneAtPair(m, |m| % 32 / 8, i, x));
    TailLaneHigh(m', 8 * (|m| / 8), i, LaneAtPair(m', |m| % 32 / 8, i, x));
  }

  /** The tail does not reach lanes 0 and 1. */
  lemma SamePrefixFrontLanes(m: seq<Byte>, m': seq<Byte>, i: nat, x: Word)
    requires i < 2 && |m| == |m'| && AgreeOn(m, m', 0, 8 * (|m| / 8))
    ensures AbsorbLane(m, i, x) == AbsorbLane(m', i, x)
  {
    hide LaneAtPair, AbsorbLane;
    TailPosition(|m|);
    PairsOnSamePrefix(m, m', |m| % 32 / 8, i, x);
    AbsorbLaneEnds(m, i, x);
    AbsorbLaneEnds(m', i, x);
  }

  /** The word the tail puts into lane i. */
  function TailWord(m: seq<Byte>, i: nat): Word
    requires 2 <= i < 4
  {
    if i == 2 then TailWords(m, 8 * (|m| / 8)).0 else TailWords(m, 8 * (|m| / 8)).1
  }

  /** m and m' differ in their tails only, where the loads for the tail lane other than i do not see it. */
  ghost predicate OnlyTailWordDiffers(m: seq<Byte>, m': seq<Byte>, i: nat) {
    && 2 <= i < 4 && |m| == |m'| && m != m' && AgreeOn(m, m', 0, 8 * (|m| / 8))
    && TailWord(m, 5 - i) == TailWord(m', 5 - i)
  }

  lemma TailWordDiffers(m: seq<Byte>, m': seq<Byte>, i: nat)
    requires OnlyTailWordDiffers(m, m', i)
    ensures 2 <= i < 4 && |m| == |m'|
    ensures TailWord(m, i) != TailWord(m', i)
  {
    hide TailWords;
    var p := 8 * (|m| / 8);
    TailWordsInjective(m, m', p);
    assert m == m[..p] + m[p..] && m' == m'[..p] + m'[p..];
  }

  /** Such a change shows in lane i alone, and in its lower half alone. */
  lemma OneTailWordChangesOneLane(m: seq<Byte>, m': seq<Byte>, i: nat, k: nat, x: Word)
    requires k < 4 && OnlyTailWordDiffers(m, m', i)
    ensures AbsorbLane(m, k, x) == AbsorbLane(m', k, x) <==> k != i
    ensures High(AbsorbLane(m, k, x)) == High(AbsorbLane(m', k, x))
  {
    hide AbsorbLane, TailWords, High;
    TailWordDiffers(m, m', i);
    SamePrefixHigh(m, m', k, x);
    if k < 2 {
      SamePrefixFrontLanes(m, m', k, x);
    } else {
      LaneBeforeTail(m, m', k, x);
    }
  }

  /** Two equal-length messages that differ in their tails only, through a single tail word, never collide, for any seed
      and any length. */
  lemma OneTailWordNeverCollides(m: seq<Byte>, m': seq<Byte>, i: nat, seed: Word)
    requires |m| < 0x8000_0000_0000_0000 && OnlyTailWordDiffers(m, m', i)
    ensures Hash(m, seed) != Hash(m', seed)
  {
    hide Absorb, AbsorbLane, OnlyTailWordDiffers, TailWord, Combine, Hash, Init, High, Cross;
    var st, st' := Absorb(Init(seed), m), Absorb(Init(seed), m');
    forall k: nat | k < 4 ensures (st[k] == st'[k] <==> k != i) && High(st[k]) == High(st'[k]) {
      LaneIndependence(Init(seed), m, k);
      LaneIndependence(Init(seed), m', k);
      OneTailWordChangesOneLane(m, m', i, k, Init(seed)[k]);
    }
    assert 2 <= i < 4 && |m| == |m'| by {
      TailWordDiffers(m, m', i);
    }
    CrossInjective(st[i], st'[i]);
    TailLaneReachesOutput(st, st', i);
    CollideIffCombineEqual(m, m', seed);
  }

  /** Byte p is in the tail of a message of len bytes, and only one of the two tail words depends on it: a tail of 2 or
      3 bytes reads each byte into one word; longer ones have two loads of 4 bytes, which may overlap. */
  predicate ReadOnce(len: nat, p: nat) {
    var l, k := len % 8, p - 8 * (len / 8);
    0 <= k < l && if l < 4 then l >= 2 else k < l - 4 || k >= 4
  }

  lemma OneTailByte(m: seq<Byte>, m': seq<Byte>, p: nat)
    requires p < |m| && ReadOnce(|m|, p) && ChangedOnlyIn(m, m', p, p + 1) && m[p] != m'[p]
    ensures OnlyTailWordDiffers(m, m', 2) || OnlyTailWordDiffers(m, m', 3)
  {
    hide Pack;
    var q := 8 * (|m| / 8);
    var l := |m| - q;
    assert l == |m| % 8;
  }

  /** Changing one tail byte that only one of the two words depends on never goes unnoticed. */
  lemma OneTailByteNeverCollides(m: seq<Byte>, m': seq<Byte>, p: nat, seed: Word)
    requires p < |m| < 0x8000_0000_0000_0000 && ReadOnce(|m|, p)
    requires ChangedOnlyIn(m, m', p, p + 1) && m[p] != m'[p]
    ensures Hash(m, seed) != Hash(m', seed)
  {
    hide Hash, OnlyTailWordDiffers, ReadOnce;
    OneTailByte(m, m', p);
    OneTailWordNeverCollides(m, m', if OnlyTailWordDiffers(m, m', 2) then 2 else 3, seed);
  }

  // ---- Messages of different lengths ----

  /** What the final mixing turns into the output. */
  function BeforeMixing(h: Word, len: Word, seed: Word): Word {
    Xor(Add(LengthWord(len), seed), h)
  }

  /** The final mixing separates whatever differs before it, for any two lengths. */
  lemma OutputsMeet(h: Word, len: Word, h': Word, len': Word, seed: Word)
    ensures Output(h, len, seed) == Output(h', len', seed)
       <==> BeforeMixing(h, len, seed) == BeforeMixing(h', len', seed)
  {
    hide TimesK, MixBefore, MixAfter, UnmixBefore, UnmixAfter, LengthWord, Xor, Add;
    var x, x' := BeforeMixing(h, len, seed), BeforeMixing(h', len', seed);
    MixBeforeBijective(x);
    MixBeforeBijective(x');
    MixAfterBijective(TimesK(MixBefore(x)));
    MixAfterBijective(TimesK(MixBefore(x')));
    if TimesK(MixBefore(x)) == TimesK(MixBefore(x')) {
      TimesKInjective(MixBefore(x), MixBefore(x'));
    }
  }

  /** For one h[1], two lengths collide exactly when they share their length word. */
  lemma LengthsMeet(h: Word, len: Word, len': Word, seed: Word)
    ensures Output(h, len, seed) == Output(h, len', seed) <==> LengthWord(len) == LengthWord(len')
  {
    hide Output, LengthWord, Xor, Add, Sub;
    OutputsMeet(h, len, h, len', seed);
    XorCancels(Add(LengthWord(len), seed), h);
    XorCancels(Add(LengthWord(len'), seed), h);
    AddCancels(LengthWord(len), seed);
    AddCancels(LengthWord(len'), seed);
  }

  /** Lengths that add up to the critical sum, modulo 2^64. */
  predicate CriticalLengths(m: nat, n: nat) {
    Wrap(m + n) == CRITICAL_SUM
  }

  lemma CriticalLengthWords(m: nat, n: nat)
    ensures Add(ToWord(m), ToWord(n)) == 0xEAEA477CA5D24AE9 <==> CriticalLengths(m, n)
  {
    hide ToWord, Add;
    ToWordAdds(m, n);
    WordOfCriticalSum();
    ToWordIsModulo(m + n, CRITICAL_SUM);
  }

  /** Two lengths share a length word exactly when they are equal or have the critical sum. */
  lemma LengthWordsTwoToOne(m: nat, n: nat)
    requires m < TOP && n < TOP
    ensures LengthWord(ToWord(m)) == LengthWord(ToWord(n)) <==> m == n || CriticalLengths(m, n)
  {
    hide ToWord, CriticalLengths, TimesK, MixLength, Add;
    LengthWordTwoToOne(ToWord(m), ToWord(n));
    CriticalLengthWords(m, n);
    ToWordInjective(m, n);
  }

  /** In particular lengths up to half that sum never share a length word. */
  lemma SmallLengthsDistinct(m: nat, n: nat)
    requires m <= CRITICAL_SUM / 2 && n <= CRITICAL_SUM / 2
    ensures LengthWord(ToWord(m)) == LengthWord(ToWord(n)) <==> m == n
  {
    hide ToWord, LengthWord;
    LengthWordsTwoToOne(m, n);
  }

  /** Any two messages collide exactly when length word and h[1] together put the same word into the final mixing. */
  lemma CollideIff(m: seq<Byte>, m': seq<Byte>, seed: Word)
    requires |m| < 0x8000_0000_0000_0000 && |m'| < 0x8000_0000_0000_0000
    ensures Hash(m, seed) == Hash(m', seed) <==>
            BeforeMixing(Combine(Absorb(Init(seed), m)), ToWord(|m|), seed)
            == BeforeMixing(Combine(Absorb(Init(seed), m')), ToWord(|m'|), seed)
  {
    hide Combine, Absorb, Init, ToWord, BeforeMixing, Output;
    OutputsMeet(Combine(Absorb(Init(seed), m)), ToWord(|m|), Combine(Absorb(Init(seed), m')), ToWord(|m'|), seed);
  }

  /** Messages that reach the same h[1], of whatever lengths, collide exactly when their lengths are equal or have the
      critical sum. */
  lemma SameCombineCollides(m: seq<Byte>, m': seq<Byte>, seed: Word)
    requires |m| < 0x8000_0000_0000_0000 && |m'| < 0x8000_0000_0000_0000
    requires Combine(Absorb(Init(seed), m)) == Combine(Absorb(Init(seed), m'))
    ensures Hash(m, seed) == Hash(m', seed) <==> |m| == |m'| || |m| + |m'| == CRITICAL_SUM
  {
    hide Combine, Absorb, Init, ToWord, Output, LengthWord;
    LengthsMeet(Combine(Absorb(Init(seed), m)), ToWord(|m|), ToWord(|m'|), seed);
    LengthWordsTwoToOne(|m|, |m'|);
  }
}
