/** ChibiHash64 version 2: a recursive specification over the message, and the four-lane in-place
    algorithm proved to compute it. */
module ChibiHash {
  import opened Common
  import opened Words
  import opened Casts

  /** The four lanes h[0..4]. */
  type Lanes = s: seq<Word> | |s| == 4 witness [0, 0, 0, 0]

  // ---- Loads ----

  /** Little-endian word from bytes. */
  function Pack(a: Byte, b: Byte, c: Byte, d: Byte): Word {
    (a as Word) | ((b as Word) << 8) | ((c as Word) << 16) | ((d as Word) << 24)
  }

  function Load32(m: seq<Byte>, p: nat): Word
    requires p + 4 <= |m|
  {
    Pack(m[p], m[p + 1], m[p + 2], m[p + 3])
  }

  /** Byte i of the word is byte i of the memory: little-endian. */
  lemma PackBytes(a: Byte, b: Byte, c: Byte, d: Byte)
    ensures Pack(a, b, c, d) & 0xFF == a as Word
    ensures (Pack(a, b, c, d) >> 8) & 0xFF == b as Word
    ensures (Pack(a, b, c, d) >> 16) & 0xFF == c as Word
    ensures Pack(a, b, c, d) >> 24 == d as Word
  {
  }

  function Join(lo: Word, hi: Word): Word {
    lo | (hi << 32)
  }

  lemma PackFits(a: Byte, b: Byte, c: Byte, d: Byte)
    ensures Pack(a, b, c, d) < 0x1_0000_0000
  {
  }

  lemma HalvesOfOr(lo: Word, hi: Word)
    requires lo < 0x1_0000_0000 && hi < 0x1_0000_0000
    ensures (lo | (hi << 32)) & 0xFFFF_FFFF == lo && (lo | (hi << 32)) >> 32 == hi
  {
  }

  lemma JoinParts(lo: Word, hi: Word)
    requires lo < 0x1_0000_0000 && hi < 0x1_0000_0000
    ensures Low(Join(lo, hi)) == lo && High(Join(lo, hi)) == hi
  {
    HalvesOfOr(lo, hi);
    assert Low(lo | (hi << 32)) == (lo | (hi << 32)) & 0xFFFF_FFFF;
    assert High(lo | (hi << 32)) == (lo | (hi << 32)) >> 32;
    assert Join(lo, hi) == lo | (hi << 32);
  }

  function Load64(m: seq<Byte>, p: nat): Word
    requires p + 8 <= |m|
  {
    Join(Load32(m, p), Load32(m, p + 4))
  }

  /** The lower half is loaded first. */
  lemma Load64Halves(m: seq<Byte>, p: nat)
    requires p + 8 <= |m|
    ensures Low(Load64(m, p)) == Load32(m, p) && High(Load64(m, p)) == Load32(m, p + 4)
  {
    hide Join, Pack, Low, High;
    PackFits(m[p], m[p + 1], m[p + 2], m[p + 3]);
    PackFits(m[p + 4], m[p + 5], m[p + 6], m[p + 7]);
    JoinParts(Load32(m, p), Load32(m, p + 4));
  }

  // ---- Absorbing the message ----

  function Init(seed: Word): Lanes {
    var seed2 := Add(Rotl(seed - K, 15), Rotl(seed - K, 47));
    [seed, Add(seed, K), seed2, Add(seed2, Xor(TimesK(K), K))]
  }

  /** Stripe i multiplies into lane i and, rotated, adds into the next lane round. */
  function Stripe(st: Lanes, i: nat, s: Word): Lanes
    requires i < 4
  {
    var j := (i + 1) % 4;
    st[i := TimesK(Add(s, st[i]))][j := Add(st[j], Rotl(s, 27))]
  }

  /** The first i stripes of the block at p. */
  function Stripes(st: Lanes, m: seq<Byte>, p: nat, i: nat): Lanes
    requires i <= 4 && p + 32 <= |m|
  {
    if i == 0 then st else Stripe(Stripes(st, m, p, i - 1), i - 1, Load64(m, p + 8 * (i - 1)))
  }

  /** The first n 32-byte blocks of m. */
  function Blocks(st: Lanes, m: seq<Byte>, n: nat): Lanes
    requires 32 * n <= |m|
  {
    if n == 0 then st else Stripes(Blocks(st, m, n - 1), m, 32 * (n - 1), 4)
  }

  /** One 8-byte step: its halves enter lanes 0 and 1. */
  function WordPair(st: Lanes, m: seq<Byte>, p: nat): Lanes
    requires p + 8 <= |m|
  {
    st[0 := TimesK(Xor(st[0], Load32(m, p)))][1 := TimesK(Xor(st[1], Load32(m, p + 4)))]
  }

  /** n 8-byte steps from p. */
  function WordPairs(st: Lanes, m: seq<Byte>, p: nat, n: nat): Lanes
    requires p + 8 * n <= |m|
  {
    if n == 0 then st else WordPair(WordPairs(st, m, p, n - 1), m, p + 8 * (n - 1))
  }

  /** What the last l = 0..7 bytes, from p, put into lanes 2 and 3; the reads may overlap. */
  function TailWords(m: seq<Byte>, p: nat): (Word, Word)
    requires p <= |m| < p + 8
  {
    var l := |m| - p;
    if l >= 4 then (Load32(m, p), Load32(m, p + l - 4))
    else if l > 0 then (Pack(m[p], 0, 0, 0), Pack(m[p + l / 2], m[p + l - 1], 0, 0))
    else (0, 0)
  }

  lemma ShortPack(b: Byte, c: Byte)
    ensures Pack(b, 0, 0, 0) == b as Word
    ensures Pack(b, c, 0, 0) == (b as Word) | ((c as Word) << 8)
  {
  }

  function Tail(st: Lanes, m: seq<Byte>, p: nat): Lanes
    requires p <= |m| < p + 8
  {
    if p == |m| then st else st[2 := Xor(st[2], TailWords(m, p).0)][3 := Xor(st[3], TailWords(m, p).1)]
  }

  /** What the tail puts into lanes 2 and 3: for 1 to 3 bytes the first byte itself, and the middle byte with the last
      one above it; for 4 to 7 bytes the first four and the last four. */
  lemma TailEnters(st: Lanes, m: seq<Byte>, p: nat)
    requires p <= |m| < p + 8
    ensures Tail(st, m, p)[0] == st[0] && Tail(st, m, p)[1] == st[1]
    ensures p == |m| ==> Tail(st, m, p) == st
    ensures 0 < |m| - p < 4 ==>
              && Tail(st, m, p)[2] == Xor(st[2], m[p] as Word)
              && Tail(st, m, p)[3] == Xor(st[3], (m[p + (|m| - p) / 2] as Word) | ((m[|m| - 1] as Word) << 8))
    ensures |m| - p >= 4 ==>
              && Tail(st, m, p)[2] == Xor(st[2], Load32(m, p))
              && Tail(st, m, p)[3] == Xor(st[3], Load32(m, |m| - 4))
  {
    hide Load32, Pack, Xor;
    if 0 < |m| - p < 4 {
      ShortPack(m[p], 0);
      ShortPack(m[p + (|m| - p) / 2], m[|m| - 1]);
    }
  }

  /** The lanes after the whole of m. */
  function Absorb(st: Lanes, m: seq<Byte>): Lanes {
    var n := |m| / 32;
    var w := |m| % 32 / 8;
    Tail(WordPairs(Blocks(st, m, n), m, 32 * n, w), m, 32 * n + 8 * w)
  }

  // ---- Output ----

  /** h[1] after the four lanes have been folded together. */
  function Combine(st: Lanes): Word {
    Add(Add(st[1], Cross(st[3])), FoldDown(TimesK(Add(st[0], Cross(st[2])))))
  }

  function LengthWord(len: Word): Word {
    MixLength(TimesK(len))
  }

  function Output(h: Word, len: Word, seed: Word): Word {
    MixAfter(TimesK(MixBefore(Xor(Add(LengthWord(len), seed), h))))
  }

  function Hash(m: seq<Byte>, seed: Word): Word
    requires |m| < 0x8000_0000_0000_0000
  {
    Output(Combine(Absorb(Init(seed), m)), ToWord(|m|), seed)
  }

  // ---- Reading the key ----

  /** The byte positions p, ..., p + n - 1. */
  ghost function Span(p: nat, n: nat): (s: set<nat>)
    ensures forall i: nat :: i in s <==> p <= i < p + n
  {
    if n == 0 then {} else Span(p, n - 1) + {p + n - 1}
  }

  lemma EmptySpan(p: nat)
    ensures Span(p, 0) == {}
  {
  }

  lemma SpansJoin(p: nat, a: nat, b: nat)
    ensures Span(p, a) + Span(p + a, b) == Span(p, a + b)
  {
  }

  /** The memory behind the key pointer. The algorithm below reaches the key only through these three loads, and only
      they write the log of positions read. */
  class Reader {
    const bytes: seq<Byte>
    ghost var seen: set<nat>

    constructor (key: array<Byte>, len: nat)
      requires len <= key.Length
      ensures bytes == key[..len] && seen == {}
    {
      bytes := key[..len];
      seen := {};
    }

    method ReadByte(p: nat) returns (b: Byte)
      requires p < |bytes|
      modifies this`seen
      ensures b == bytes[p]
      ensures seen == old(seen) + Span(p, 1)
    {
      b := bytes[p];
      seen := seen + Span(p, 1);
    }

    method Read32(p: nat) returns (w: Word)
      requires p + 4 <= |bytes|
      modifies this`seen
      ensures w == Load32(bytes, p)
      ensures w & 0xFF == bytes[p] as Word && (w >> 8) & 0xFF == bytes[p + 1] as Word
      ensures (w >> 16) & 0xFF == bytes[p + 2] as Word && w >> 24 == bytes[p + 3] as Word
      ensures seen == old(seen) + Span(p, 4)
    {
      hide Pack, Span;
      SpansJoin(p, 1, 1);
      SpansJoin(p, 2, 1);
      SpansJoin(p, 3, 1);
      var a := ReadByte(p);
      var b := ReadByte(p + 1);
      var c := ReadByte(p + 2);
      var d := ReadByte(p + 3);
      w := Pack(a, b, c, d);
      PackBytes(a, b, c, d);
    }

    method Read64(p: nat) returns (w: Word)
      requires p + 8 <= |bytes|
      modifies this`seen
      ensures w == Load64(bytes, p)
      ensures Low(w) == Load32(bytes, p) && High(w) == Load32(bytes, p + 4)
      ensures seen == old(seen) + Span(p, 8)
    {
      hide Load32, Join, Span, Low, High;
      SpansJoin(p, 4, 4);
      Load64Halves(bytes, p);
      var lo := Read32(p);
      var hi := Read32(p + 4);
      w := Join(lo, hi);
    }
  }

  // ---- The algorithm ----

  // The compound assignments h[i] += w, h[i] ^= w and h[i] *= K.

  method AddInto(h: array<Word>, i: nat, w: Word)
    requires i < h.Length
    modifies h
    ensures h[..] == old(h[..])[i := Add(old(h[i]), w)]
  {
    h[i] := Add(h[i], w);
  }

  method XorInto(h: array<Word>, i: nat, w: Word)
    requires i < h.Length
    modifies h
    ensures h[..] == old(h[..])[i := Xor(old(h[i]), w)]
  {
    h[i] := Xor(h[i], w);
  }

  method TimesKInto(h: array<Word>, i: nat)
    requires i < h.Length
    modifies h
    ensures h[..] == old(h[..])[i := TimesK(old(h[i]))]
  {
    h[i] := TimesK(h[i]);
  }

  method InitLanes(seed: Word) returns (h: array<Word>)
    ensures fresh(h) && h.Length == 4 && h[..] == Init(seed)
  {
    hide TimesK, Xor, Add, Rotl;
    var seed2 := Add(Rotl(seed - K, 15), Rotl(seed - K, 47));
    h := new Word[4];
    h[0], h[1], h[2], h[3] := seed, Add(seed, K), seed2, Add(seed2, Xor(TimesK(K), K));
  }

  method AbsorbStripe(h: array<Word>, i: nat, stripe: Word)
    requires h.Length == 4 && i < 4
    modifies h
    ensures h[..] == Stripe(old(h[..]), i, stripe)
  {
    hide TimesK, Rotl, Add;
    h[i] := TimesK(Add(stripe, h[i]));
    AddInto(h, (i + 1) % 4, Rotl(stripe, 27));
  }

  /** The four stripes at p. */
  method AbsorbBlock(r: Reader, p: nat, h: array<Word>)
    requires h.Length == 4 && p + 32 <= |r.bytes|
    modifies h, r`seen
    ensures h[..] == Stripes(old(h[..]), r.bytes, p, 4)
    ensures r.seen == old(r.seen) + Span(p, 32)
  {
    hide Stripe, Load64, Span;
    var i, q := 0, p;
    EmptySpan(p);
    while i < 4
      invariant 0 <= i <= 4 && q == p + 8 * i
      invariant h[..] == Stripes(old(h[..]), r.bytes, p, i)
      invariant r.seen == old(r.seen) + Span(p, 8 * i)
    {
      var stripe := r.Read64(q);
      SpansJoin(p, 8 * i, 8);
      AbsorbStripe(h, i, stripe);
      i, q := i + 1, q + 8;
    }
  }

  method AbsorbPair(r: Reader, p: nat, h: array<Word>)
    requires h.Length == 4 && p + 8 <= |r.bytes|
    modifies h, r`seen
    ensures h[..] == WordPair(old(h[..]), r.bytes, p)
    ensures r.seen == old(r.seen) + Span(p, 8)
  {
    hide TimesK, Xor, Load32, Span;
    SpansJoin(p, 4, 4);
    var w := r.Read32(p);
    XorInto(h, 0, w);
    TimesKInto(h, 0);
    w := r.Read32(p + 4);
    XorInto(h, 1, w);
    TimesKInto(h, 1);
  }

  lemma LongTail(m: seq<Byte>, seen: set<nat>, p: nat, l: nat)
    requires p + l == |m| && 4 <= l < 8
    ensures TailWords(m, p) == (Load32(m, p), Load32(m, p + l - 4))
    ensures seen + Span(p, 4) + Span(p + l - 4, 4) == seen + Span(p, l)
  {
    hide Load32;
  }

  lemma ShortTail(m: seq<Byte>, seen: set<nat>, p: nat, l: nat)
    requires p + l == |m| && 0 < l < 4
    ensures TailWords(m, p) == (Pack(m[p], 0, 0, 0), Pack(m[p + l / 2], m[p + l - 1], 0, 0))
    ensures seen + Span(p, 1) + Span(p + l / 2, 1) + Span(p + l - 1, 1) == seen + Span(p, l)
  {
    hide Pack;
  }

  /** The last 4 to 7 bytes, in two loads that may overlap. */
  method AbsorbLongTail(r: Reader, p: nat, l: nat, h: array<Word>)
    requires h.Length == 4 && 4 <= l < 8 && p + l == |r.bytes|
    modifies h, r`seen
    ensures h[..] == Tail(old(h[..]), r.bytes, p)
    ensures r.seen == old(r.seen) + Span(p, l)
  {
    hide Load32, Xor, Span, TailWords;
    LongTail(r.bytes, r.seen, p, l);
    var w := r.Read32(p);
    XorInto(h, 2, w);
    w := r.Read32(p + l - 4);
    XorInto(h, 3, w);
  }

  /** The last 1 to 3 bytes, some of them read twice. */
  method AbsorbShortTail(r: Reader, p: nat, l: nat, h: array<Word>)
    requires h.Length == 4 && 0 < l < 4 && p + l == |r.bytes|
    modifies h, r`seen
    ensures h[..] == Tail(old(h[..]), r.bytes, p)
    ensures r.seen == old(r.seen) + Span(p, l)
  {
    hide Pack, Xor, Span, TailWords;
    ShortTail(r.bytes, r.seen, p, l);
    var a := r.ReadByte(p);
    XorInto(h, 2, Pack(a, 0, 0, 0));
    var b := r.ReadByte(p + l / 2);
    var c := r.ReadByte(p + l - 1);
    XorInto(h, 3, Pack(b, c, 0, 0));
  }

  /** The last l bytes. A negative l, which only a negative length leaves, reads nothing. */
  method AbsorbTail(r: Reader, p: nat, l: int, h: array<Word>)
    requires h.Length == 4 && p <= |r.bytes| < p + 8
    requires if l < 0 then p == |r.bytes| else p + l == |r.bytes|
    modifies h, r`seen
    ensures h[..] == Tail(old(h[..]), r.bytes, p)
    ensures r.seen == old(r.seen) + Span(p, |r.bytes| - p)
  {
    hide Xor, Span, TailWords;
    if l >= 4 {
      AbsorbLongTail(r, p, l, h);
    } else if l > 0 {
      AbsorbShortTail(r, p, l, h);
    } else {
      EmptySpan(p);
    }
  }

  /** The bytes a signed length makes the loops read. */
  function Readable(len: int): nat {
    if len < 0 then 0 else len
  }

  method AbsorbBlocks(r: Reader, len: int, h: array<Word>) returns (p: nat, l: int)
    requires h.Length == 4 && |r.bytes| == Readable(len) && r.seen == {}
    modifies h, r`seen
    ensures p == 32 * (|r.bytes| / 32) && l == len - p && l < 32
    ensures h[..] == Blocks(old(h[..]), r.bytes, |r.bytes| / 32)
    ensures r.seen == Span(0, p)
  {
    hide Stripes, Span;
    p, l := 0, len;
    ghost var blocks := 0;
    EmptySpan(0);
    while l >= 32
      invariant p == 32 * blocks && l == len - p && p <= |r.bytes|
      invariant h[..] == Blocks(old(h[..]), r.bytes, blocks)
      invariant r.seen == Span(0, p)
    {
      AbsorbBlock(r, p, h);
      SpansJoin(0, p, 32);
      p, l, blocks := p + 32, l - 32, blocks + 1;
    }
    assert blocks == |r.bytes| / 32;
  }

  method AbsorbMessage(r: Reader, len: int, h: array<Word>)
    requires h.Length == 4 && |r.bytes| == Readable(len) && r.seen == {}
    modifies h, r`seen
    ensures h[..] == Absorb(old(h[..]), r.bytes)
    ensures r.seen == Span(0, |r.bytes|)
  {
    hide Blocks, WordPair, Tail, Span;
    var p, l := AbsorbBlocks(r, len, h);
    ghost var st: Lanes := h[..];
    ghost var pairs := 0;
    ghost var start := p;
    while l >= 8
      invariant p == start + 8 * pairs && l == len - p && p <= |r.bytes|
      invariant h[..] == WordPairs(st, r.bytes, start, pairs)
      invariant r.seen == Span(0, p)
    {
      AbsorbPair(r, p, h);
      SpansJoin(0, p, 8);
      p, l, pairs := p + 8, l - 8, pairs + 1;
    }
    assert pairs == |r.bytes| % 32 / 8;
    SpansJoin(0, p, |r.bytes| - p);
    AbsorbTail(r, p, l, h);
  }

  method Finish(h: array<Word>, len: Word, seed: Word) returns (x: Word)
    requires h.Length == 4
    modifies h
    ensures x == Output(Combine(old(h[..])), len, seed)
  {
    hide TimesK, Xor, Add, Rotl, FoldDown, MixLength, MixBefore, MixAfter, Cross;
    AddInto(h, 0, Cross(h[2]));
    AddInto(h, 1, Cross(h[3]));
    TimesKInto(h, 0);
    h[0] := FoldDown(h[0]);
    AddInto(h, 1, h[0]);

    x := TimesK(len);
    MixersAsWritten(x);
    x := Xor(x, Rotl(x, 29));
    x := Add(x, seed);
    x := Xor(x, h[1]);
    MixersAsWritten(x);
    x := Xor(x, Xor(Rotl(x, 15), Rotl(x, 42)));
    x := TimesK(x);
    MixersAsWritten(x);
    x := Xor(x, Xor(Rotl(x, 13), Rotl(x, 31)));
  }

  /** What a signed length makes of the first bytes of the key: a negative one hashes no byte but still enters the
      length word. */
  function SignedHash(m: seq<Byte>, len: int, seed: Word): Word {
    Output(Combine(Absorb(Init(seed), m)), ToWord(Wrap(len)), seed)
  }

  lemma SignedHashes(m: seq<Byte>, len: int, seed: Word)
    requires |m| == Readable(len) && len < 0x8000_0000_0000_0000
    ensures len >= 0 ==> SignedHash(m, len, seed) == Hash(m, seed)
    ensures len < 0 ==> SignedHash(m, len, seed) == Output(Combine(Init(seed)), ToWord(Wrap(len)), seed)
  {
    hide Output, Combine, Init, ToWord, Stripes, WordPair;
    if len < 0 {
      assert Absorb(Init(seed), m) == Init(seed);
    }
  }

  /** The hash of the first len bytes of key. Every one of them is loaded and no other byte is; a negative length, which
      the source's signed type admits, loads nothing. */
  method ChibiHash64(key: array<Byte>, len: int, seed: Word) returns (x: Word, ghost seen: set<nat>)
    requires len <= key.Length && -0x8000_0000_0000_0000 <= len < 0x8000_0000_0000_0000
    ensures len >= 0 ==> x == Hash(key[..len], seed)
    ensures len < 0 ==> x == Output(Combine(Init(seed)), ToWord(Wrap(len)), seed)
    ensures seen == Span(0, Readable(len))
  {
    hide Output, Combine, Absorb, Init, ToWord, Wrap, Hash;
    var h := InitLanes(seed);
    var r := new Reader(key, Readable(len));
    AbsorbMessage(r, len, h);
    seen := r.seen;
    SignedHashes(r.bytes, len, seed);
    x := Finish(h, ToWord(Wrap(len)), seed);
  }
}
