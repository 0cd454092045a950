/** Absorbing in pieces, and the closed form of the stripe loop. */
module HashStreaming {
  import opened Words
  import opened Casts
  import opened ChibiHash
  import opened HashLanes

  // ---- Streaming ----

  lemma LoadShift(m: seq<Byte>, p: nat, m': seq<Byte>, p': nat, q: nat)
    requires p + 32 <= |m| && p' + 32 <= |m'| && q + 8 <= 32
    requires m[p..p + 32] == m'[p'..p' + 32]
    ensures Load64(m, p + q) == Load64(m', p' + q)
  {
    hide Pack, Join;
    var s, s' := m[p..p + 32], m'[p'..p' + 32];
    assert forall k | 0 <= k < 32 :: s[k] == m[p + k];
    assert forall k | 0 <= k < 32 :: s'[k] == m'[p' + k];
    assert Load64(m, p + q) == Load64(s, q) && Load64(m', p' + q) == Load64(s', q);
  }

  lemma {:induction false} StripesShift(st: Lanes, m: seq<Byte>, p: nat, m': seq<Byte>, p': nat, i: nat)
    requires i <= 4 && p + 32 <= |m| && p' + 32 <= |m'|
    requires m[p..p + 32] == m'[p'..p' + 32]
    ensures Stripes(st, m, p, i) == Stripes(st, m', p', i)
  {
    hide Stripe, Load64;
    if i > 0 {
      StripesShift(st, m, p, m', p', i - 1);
      LoadShift(m, p, m', p', 8 * (i - 1));
    }
  }

  lemma {:induction false} BlocksOfPrefix(st: Lanes, a: seq<Byte>, b: seq<Byte>, n: nat)
    requires 32 * n <= |a|
    ensures Blocks(st, a + b, n) == Blocks(st, a, n)
  {
    hide Stripe, Pack, Join;
    if n > 0 {
      BlocksOfPrefix(st, a, b, n - 1);
      StripesShift(Blocks(st, a, n - 1), a + b, 32 * (n - 1), a, 32 * (n - 1), 4);
    }
  }

  lemma {:induction false} BlocksConcat(st: Lanes, a: seq<Byte>, b: seq<Byte>, n: nat)
    requires |a| % 32 == 0 && 32 * n <= |b|
    ensures Blocks(st, a + b, |a| / 32 + n) == Blocks(Blocks(st, a, |a| / 32), b, n)
  {
    hide Stripes;
    if n == 0 {
      BlocksOfPrefix(st, a, b, |a| / 32);
    } else {
      BlocksConcat(st, a, b, n - 1);
      var q := 32 * (n - 1);
      assert (a + b)[|a| + q..|a| + q + 32] == b[q..q + 32];
      StripesShift(Blocks(st, a + b, |a| / 32 + n - 1), a + b, |a| + q, b, q, 4);
    }
  }

  lemma {:induction false} PairsShift(st: Lanes, a: seq<Byte>, b: seq<Byte>, p: nat, n: nat)
    requires p + 8 * n <= |b|
    ensures WordPairs(st, a + b, |a| + p, n) == WordPairs(st, b, p, n)
  {
    hide TimesK, Xor, Pack;
    if n > 0 {
      PairsShift(st, a, b, p, n - 1);
    }
  }

  lemma TailShift(st: Lanes, a: seq<Byte>, b: seq<Byte>, p: nat)
    requires p <= |b| < p + 8
    ensures Tail(st, a + b, |a| + p) == Tail(st, b, p)
  {
    hide Xor, Pack;
    assert TailWords(a + b, |a| + p) == TailWords(b, p);
  }

  lemma BlockCount(a: nat, b: nat)
    requires a % 32 == 0
    ensures (a + b) / 32 == a / 32 + b / 32 && (a + b) % 32 == b % 32 && 32 * ((a + b) / 32) == a + 32 * (b / 32)
  {
  }

  /** Absorbing a prefix of whole blocks and going on from its lanes is absorbing everything at once. */
  lemma AbsorbResumes(st: Lanes, a: seq<Byte>, b: seq<Byte>)
    requires |a| % 32 == 0
    ensures Absorb(st, a + b) == Absorb(Blocks(st, a, |a| / 32), b)
  {
    hide Blocks, WordPairs, Tail;
    var n, w := |b| / 32, |b| % 32 / 8;
    BlockCount(|a|, |b|);
    BlocksConcat(st, a, b, n);
    var t := Blocks(Blocks(st, a, |a| / 32), b, n);
    PairsShift(t, a, b, 32 * n, w);
    TailShift(WordPairs(t, b, 32 * n, w), a, b, 32 * n + 8 * w);
  }

  function Flatten(chunks: seq<seq<Byte>>): seq<Byte> {
    if chunks == [] then [] else chunks[0] + Flatten(chunks[1..])
  }

  /** Feeds the chunks one after another, keeping only the four lanes in between. */
  function AbsorbChunks(st: Lanes, chunks: seq<seq<Byte>>): Lanes
    decreases |chunks|
  {
    if chunks == [] then st else AbsorbChunks(Blocks(st, chunks[0], |chunks[0]| / 32), chunks[1..])
  }

  lemma {:induction false} ChunksAbsorbAsOne(st: Lanes, chunks: seq<seq<Byte>>, last: seq<Byte>)
    requires forall c | c in chunks :: |c| % 32 == 0
    ensures Absorb(st, Flatten(chunks) + last) == Absorb(AbsorbChunks(st, chunks), last)
    decreases |chunks|
  {
    hide Absorb, Blocks;
    if chunks == [] {
      assert Flatten(chunks) + last == last;
    } else {
      var a, rest := chunks[0], chunks[1..];
      assert Flatten(chunks) + last == a + (Flatten(rest) + last);
      AbsorbResumes(st, a, Flatten(rest) + last);
      ChunksAbsorbAsOne(Blocks(st, a, |a| / 32), rest, last);
    }
  }

  /** The hash of a message cut into whole-block chunks and a remainder: the total length is needed only at the end. */
  lemma HashStreams(chunks: seq<seq<Byte>>, last: seq<Byte>, seed: Word)
    requires forall c | c in chunks :: |c| % 32 == 0
    requires |Flatten(chunks)| + |last| < 0x8000_0000_0000_0000
    ensures Hash(Flatten(chunks) + last, seed)
         == Output(Combine(Absorb(AbsorbChunks(Init(seed), chunks), last)), ToWord(|Flatten(chunks)| + |last|), seed)
  {
    hide Absorb, AbsorbChunks, Combine, Output, Init, ToWord, Flatten;
    ChunksAbsorbAsOne(Init(seed), chunks, last);
    assert |Flatten(chunks) + last| == |Flatten(chunks)| + |last|;
  }

  // ---- The stripe loop in closed form ----

  /** K to the n. */
  function Power(n: nat): Word {
    if n == 0 then 1 else TimesK(Power(n - 1))
  }

  /** What block j contributes to lane i. */
  function Term(m: seq<Byte>, j: nat, i: nat): Word
    requires i < 4 && 32 * (j + 1) <= |m|
  {
    if i == 0 then Add(TimesK(Load64(m, 32 * j)), Rotl(Load64(m, 32 * j + 24), 27))
    else TimesK(Add(Load64(m, 32 * j + 8 * i), Rotl(Load64(m, 32 * j + 8 * i - 8), 27)))
  }

  /** The sum over j < count of Term(j) * K^(n - 1 - j). */
  function WeightedSum(m: seq<Byte>, i: nat, n: nat, count: nat): Word
    requires i < 4 && count <= n && 32 * count <= |m|
  {
    if count == 0 then 0
    else Add(WeightedSum(m, i, n, count - 1), Mul(Term(m, count - 1, i), Power(n - count)))
  }

  lemma AddAssociative(x: Word, y: Word, z: Word)
    ensures Add(Add(x, y), z) == Add(x, Add(y, z))
  {
    assert Add(x + y, z) == Add(x, y + z);
  }

  lemma TimesKOfMul(x: Word, y: Word)
    ensures TimesK(Mul(x, y)) == Mul(x, TimesK(y))
  {
    assert TimesK(x * y) == Mul(x, y * 0x2B7E151628AED2A7);
  }

  lemma MulUnits(x: Word)
    ensures Mul(x, 1) == x && TimesK(0) == 0 && Add(x, 0) == x && Add(0, x) == x
  {
  }

  lemma {:induction false} WeightedSumStep(m: seq<Byte>, i: nat, n: nat, count: nat)
    requires i < 4 && count <= n && 32 * count <= |m|
    ensures WeightedSum(m, i, n + 1, count) == TimesK(WeightedSum(m, i, n, count))
  {
    hide TimesK, Add, Mul, Term;
    MulUnits(0);
    if count > 0 {
      WeightedSumStep(m, i, n, count - 1);
      TimesKDistributes(WeightedSum(m, i, n, count - 1), Mul(Term(m, count - 1, i), Power(n - count)));
      TimesKOfMul(Term(m, count - 1, i), Power(n - count));
    }
  }

  lemma BlockLaneAffine(m: seq<Byte>, j: nat, i: nat, x: Word)
    requires i < 4 && 32 * (j + 1) <= |m|
    ensures BlockLane(m, 32 * j, i, x) == Add(TimesK(x), Term(m, j, i))
  {
    hide TimesK, Add, Rotl, Load64;
    var s := Load64(m, 32 * j + 8 * i);
    AddCommutes(s, x);
    TimesKDistributes(x, s);
    if i == 0 {
      AddAssociative(TimesK(x), TimesK(s), Rotl(Load64(m, 32 * j + 24), 27));
    } else {
      var r := Rotl(Load64(m, 32 * j + 8 * i - 8), 27);
      AddAssociative(s, x, r);
      AddAssociative(x, s, r);
      TimesKDistributes(x, Add(s, r));
    }
  }

  /** After n blocks, lane i is K^n times where it started plus the blocks' terms weighted by powers of K. */
  lemma {:induction false} StripeLoopClosedForm(st: Lanes, m: seq<Byte>, n: nat, i: nat)
    requires i < 4 && 32 * n <= |m|
    ensures Blocks(st, m, n)[i] == Add(Mul(st[i], Power(n)), WeightedSum(m, i, n, n))
  {
    hide TimesK, Add, Mul, Term, BlockLane, Stripes;
    MulUnits(st[i]);
    if n > 0 {
      StripeLoopClosedForm(st, m, n - 1, i);
      BlockLanes(Blocks(st, m, n - 1), m, 32 * (n - 1), i);
      BlockLaneAffine(m, n - 1, i, Blocks(st, m, n - 1)[i]);
      var a, w, t := Mul(st[i], Power(n - 1)), WeightedSum(m, i, n - 1, n - 1), Term(m, n - 1, i);
      TimesKDistributes(a, w);
      TimesKOfMul(st[i], Power(n - 1));
      WeightedSumStep(m, i, n - 1, n - 1);
      AddAssociative(TimesK(a), TimesK(w), t);
      MulUnits(t);
    }
  }
}
