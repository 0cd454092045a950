/** The radiating scan that locates kallsyms_lookup_name: from an anchor it probes every 64 bytes, alternately above
    and below, and recognises the symbol from printed symbol text. */
module SymbolScan {
  import opened Common
  import opened KernelText
  import opened SymbolText

  const SYM := "kallsyms_lookup_name"
  const MAX_ITER: int := 400000

  /** strstarts(text, "kallsyms_lookup_name+") */
  predicate StartsWithSym(text: string) {
    SYM + "+" <= text
  }

  /** What a probe should report: the start of the symbol covering a readable address, if it is the one sought. */
  function Target(k: Kernel, a: nat): Option<nat> {
    var s := Lookup(k.symbols, a);
    if a in k.word32 && s.Some? && s.value.name == SYM then Some(s.value.start) else None
  }

  /** The multiple of the stride that probe j adds to the anchor: 0, 1, -1, 2, -2, ... */
  function Step(j: nat): int {
    if j % 2 == 1 then (j + 1) / 2 else -(j / 2)
  }

  function Sample(anchor: nat, j: nat): nat {
    Wrap(anchor + 64 * Step(j))
  }

  function Abs(t: int): nat {
    if t < 0 then -t else t
  }

  /** The probe that visits step t. */
  function Probe(t: int): nat {
    if t > 0 then 2 * t - 1 else 2 * Abs(t)
  }

  // ---- The order of the probes ----

  /** The first 2m - 1 probes visit each step strictly between -m and m once, nearer steps first and, at the same
      distance, upwards first. */
  lemma RadiatingOrder(m: nat, i: nat, j: nat)
    requires m > 0
    ensures j < 2 * m - 1 <==> Abs(Step(j)) < m
    ensures Probe(Step(j)) == j
    ensures i < j ==> Abs(Step(i)) <= Abs(Step(j)) && Step(i) != Step(j)
    ensures i < j && Abs(Step(i)) == Abs(Step(j)) ==> Step(i) > 0
  {
    assert j % 2 == 1 ==> j == 2 * ((j + 1) / 2) - 1;
    assert j % 2 == 0 ==> j == 2 * (j / 2);
    assert i % 2 == 1 ==> i == 2 * ((i + 1) / 2) - 1;
    assert i % 2 == 0 ==> i == 2 * (i / 2);
  }

  /** The addresses probed: the anchor, then 64 bytes above, 64 below, 128 above, 128 below, ... */
  lemma SamplesRadiate(anchor: nat, i: nat)
    ensures Sample(anchor, 0) == Wrap(anchor)
    ensures i > 0 ==> Sample(anchor, 2 * i - 1) == Wrap(anchor + 64 * i)
    ensures Sample(anchor, 2 * i) == Wrap(anchor - 64 * i)
  {
    hide Wrap;
    assert i > 0 ==> Step(2 * i - 1) == i;
    assert Step(2 * i) == 0 - i;
  }

  lemma StepOfProbe(t: int)
    ensures Step(Probe(t)) == t
  {
  }

  lemma WrapDistinct(a: int, b: int)
    requires a != b && -TOP < a - b < TOP
    ensures Wrap(a) != Wrap(b)
  {
    assert a == TOP * (a / TOP) + Wrap(a) && b == TOP * (b / TOP) + Wrap(b);
  }

  /** No address is probed twice, even though addresses wrap. */
  lemma SamplesDistinct(anchor: nat, m: nat, i: nat, j: nat)
    requires 0 < 128 * m <= TOP && i < j < 2 * m - 1
    ensures Sample(anchor, i) != Sample(anchor, j)
  {
    RadiatingOrder(m, i, j);
    RadiatingOrder(m, j, i);
    WrapDistinct(anchor + 64 * Step(i), anchor + 64 * Step(j));
  }

  // ---- Which symbols the scan cannot miss ----

  /** A probe at step t finds the symbol. */
  ghost predicate HitAt(k: Kernel, anchor: nat, t: int) {
    Target(k, Wrap(anchor + 64 * t)).Some?
  }

  /** a belongs to a symbol of the name sought that starts at v. */
  ghost predicate Belongs(k: Kernel, a: nat, v: nat) {
    exists s | s in k.symbols :: s.name == "kallsyms_lookup_name" && s.Covers(a) && s.start == v
  }

  /** Target without the lookup: exactly the readable addresses of the symbol sought are hits. */
  lemma TargetIs(k: Kernel, a: nat)
    requires WellFormed(k)
    ensures Target(k, a).Some?
       <==> a in k.word32 && exists s | s in k.symbols :: s.name == "kallsyms_lookup_name" && s.Covers(a)
    ensures forall s | s in k.symbols && s.Covers(a) && Target(k, a).Some? :: Target(k, a) == Some(s.start)
  {
    forall s | s in k.symbols && s.Covers(a) ensures Lookup(k.symbols, a) == Some(s) {
      LookupFinds(k, s, a);
    }
  }

  lemma TargetBelongs(k: Kernel, a: nat)
    requires WellFormed(k)
    ensures forall v: nat :: Target(k, a) == Some(v) <==> a in k.word32 && Belongs(k, a, v)
  {
    TargetIs(k, a);
  }

  /** A step hits exactly when its address is readable and belongs to a symbol of that name. */
  lemma HitIs(k: Kernel, anchor: nat, t: int)
    requires WellFormed(k)
    ensures HitAt(k, anchor, t) <==>
            var a := Wrap(anchor + 64 * t);
            a in k.word32 && exists s | s in k.symbols :: s.name == "kallsyms_lookup_name" && s.Covers(a)
  {
    hide Target, Wrap;
    TargetIs(k, Wrap(anchor + 64 * t));
  }

  /** A readable symbol of at least 64 bytes that starts d bytes from the anchor, with its first 64 bytes inside the
      window that m iterations sweep. */
  ghost predicate InWindow(k: Kernel, anchor: nat, m: nat, s: Symbol, d: int) {
    && s in k.symbols && s.name == SYM && s.size >= 64
    && s.start == Wrap(anchor + d) && -64 * (m - 1) <= d && d + 63 <= 64 * (m - 1)
    && forall a: nat | s.start <= a < s.start + s.size :: a in k.word32
  }

  lemma WrapOffset(a: int, e: int)
    requires 0 <= Wrap(a) + e < TOP
    ensures Wrap(a + e) == Wrap(a) + e
  {
    assert a + e == TOP * (a / TOP) + (Wrap(a) + e);
    var q := a / TOP;
    assert (TOP * q + (Wrap(a) + e)) / TOP == q;
  }

  /** The stride is no longer than the symbol, so some probe lands inside it. */
  lemma StrideCannotMiss(k: Kernel, anchor: nat, m: nat, s: Symbol, d: int)
    requires WellFormed(k) && InWindow(k, anchor, m, s, d)
    ensures var t := (d + 63) / 64; Abs(t) < m && Target(k, Wrap(anchor + 64 * t)) == Some(s.start)
  {
    var t := (d + 63) / 64;
    assert d <= 64 * t <= d + 63;
    var a := s.start + (64 * t - d);
    WrapOffset(anchor + d, 64 * t - d);
    LookupFinds(k, s, a);
  }

  /** Step t finds the symbol at address v; no nearer step finds it, nor does the step above at the same distance. */
  ghost predicate NearestHit(k: Kernel, anchor: nat, t: int, v: nat) {
    && Abs(t) < MAX_ITER
    && Target(k, Wrap(anchor + 64 * t)) == Some(v)
    && forall u | HitAt(k, anchor, u) :: Abs(t) <= Abs(u) && (u == -t ==> u <= t)
  }

  lemma NoSymbolText(k: Kernel, a: nat)
    requires Lookup(k.symbols, a).None?
    ensures !StartsWithSym(SprintSymbol(k, a))
  {
    assert SprintSymbol(k, a)[0] == '0';
  }

  lemma SymPrefix(s: Symbol, off: nat)
    requires PlainName(s.name) && (s.owner.Some? ==> PlainName(s.owner.value))
    ensures StartsWithSym(HeadText(s, off) + "/" + TailText(s)) <==> s.name == SYM
  {
    hide HeadText, TailText;
    StartsWithName(s, off, SYM);
  }

  lemma HeadLength(s: Symbol, off: nat)
    ensures |HeadText(s, off)| > |s.name| + 3
  {
  }

  /** The two cuts and the two prints of a candidate, computed for a symbol that covers the probed address. */
  lemma CandidateText(k: Kernel, s: Symbol, a: nat)
    requires WellFormed(k) && a < TOP && s in k.symbols && s.Covers(a)
    ensures var text := SprintSymbol(k, a);
            var head := HeadText(s, a - s.start);
            && (StartsWithSym(text) <==> s.name == SYM)
            && |text| > |s.name| + 3
            && StrChr(text, '/') == Some(|head|) && text[..|head|] == head
            && StrChr(head, '+') == Some(|s.name|)
            && KStrToUl(head[|s.name| + 1..]) == Some(a - s.start)
  {
    hide SprintSymbol, HeadText, TailText, Hex, StrChr, KStrToUl, StartsWithSym;
    PrintedSymbol(k, s, a);
    SymPrefix(s, a - s.start);
    CutsIsolateNumbers(s, a - s.start);
    HexRoundTrip(a - s.start);
    HeadLength(s, a - s.start);
  }

  lemma StartText(k: Kernel, s: Symbol)
    requires WellFormed(k) && s in k.symbols
    ensures |SprintSymbol(k, s.start)| > 0 && Contains(SprintSymbol(k, s.start), "+0x0")
  {
    PrintedSymbol(k, s, s.start);
    ZeroOffsetText(s, 0);
    hide SprintSymbol, Hex, Contains, TailText;
  }

  lemma NextSample(anchor: nat, iter: nat, up: bool)
    requires up || iter > 0
    ensures Sample(anchor, 2 * iter - (if up then 0 else 1))
         == if up then Wrap(anchor - 4 * 16 * iter) else Wrap(anchor + 4 * 16 * iter)
  {
    hide Wrap;
    assert Step(2 * iter - (if up then 0 else 1)) == if up then 0 - iter else iter;
  }

  lemma FirstHitIsNearest(k: Kernel, anchor: nat, j: nat)
    requires j < 2 * MAX_ITER - 1 && HitAt(k, anchor, Step(j))
    requires forall i: nat | i < j :: !HitAt(k, anchor, Step(i))
    ensures NearestHit(k, anchor, Step(j), Target(k, Sample(anchor, j)).value)
    ensures exists s | s in k.symbols :: s.name == SYM && s.start == Target(k, Sample(anchor, j)).value
  {
    var t := Step(j);
    RadiatingOrder(MAX_ITER, j, j);
    forall u | HitAt(k, anchor, u) ensures Abs(t) <= Abs(u) && (u == -t ==> u <= t) {
      StepOfProbe(u);
      if j < Probe(u) {
        RadiatingOrder(MAX_ITER, j, Probe(u));
      }
    }
  }

  lemma AllStepsVisited(k: Kernel, anchor: nat, n: nat)
    requires n == 2 * MAX_ITER - 1
    requires forall i: nat | i < n :: !HitAt(k, anchor, Step(i))
    ensures forall t | Abs(t) < MAX_ITER :: !HitAt(k, anchor, t)
  {
    forall t | Abs(t) < MAX_ITER ensures !HitAt(k, anchor, t) {
      StepOfProbe(t);
      RadiatingOrder(MAX_ITER, 0, Probe(t));
    }
  }

  lemma WindowIsSwept(k: Kernel, anchor: nat)
    requires WellFormed(k)
    ensures (exists s, d :: InWindow(k, anchor, MAX_ITER, s, d)) ==> exists t | Abs(t) < MAX_ITER :: HitAt(k, anchor, t)
  {
    if s, d :| InWindow(k, anchor, MAX_ITER, s, d) {
      StrideCannotMiss(k, anchor, MAX_ITER, s, d);
      assert HitAt(k, anchor, (d + 63) / 64);
    }
  }

  lemma StepDistance(ptr: nat, t: int)
    requires Abs(t) < MAX_ITER
    ensures Wrap(Wrap(ptr + 64 * t) - ptr) == if t >= 0 then 64 * t else TOP + 64 * t
  {
    WrapAdds(ptr + 64 * t, 0 - ptr);
  }

  lemma WrapDown(a: int)
    ensures Wrap(a - TOP) == Wrap(a)
  {
    WrapAdds(a, -TOP);
  }

  lemma StepTo(ptr: nat, a: nat) returns (t: int)
    requires a < TOP && Wrap(a - ptr) % 64 == 0
    requires Wrap(a - ptr) < 25_600_000 || Wrap(a - ptr) > TOP - 25_600_000
    ensures Abs(t) < MAX_ITER && Wrap(ptr + 64 * t) == a
  {
    var d := Wrap(a - ptr);
    t := if d < 25_600_000 then d / 64 else d / 64 - TOP / 64;
    WrapAdds(a - ptr, ptr);
    WrapDown(ptr + d);
  }

  /** The steps within the bound, seen as distances from the anchor modulo 2^64. */
  lemma HitsInReach(k: Kernel, ptr: nat)
    requires WellFormed(k)
    ensures (exists t | Abs(t) < MAX_ITER :: HitAt(k, ptr, t))
       <==> exists a: nat, s | a in k.word32 && s in k.symbols ::
              a < TOP && Wrap(a - ptr) % 64 == 0 && (Wrap(a - ptr) < 25_600_000 || Wrap(a - ptr) > TOP - 25_600_000)
              && s.name == "kallsyms_lookup_name" && s.Covers(a)
  {
    hide HitAt, Wrap;
    if t :| Abs(t) < MAX_ITER && HitAt(k, ptr, t) {
      HitIs(k, ptr, t);
      StepDistance(ptr, t);
    }
    if a: nat, s :| a in k.word32 && s in k.symbols && a < TOP && Wrap(a - ptr) % 64 == 0
                    && (Wrap(a - ptr) < 25_600_000 || Wrap(a - ptr) > TOP - 25_600_000)
                    && s.name == "kallsyms_lookup_name" && s.Covers(a) {
      var t := StepTo(ptr, a);
      HitIs(k, ptr, t);
    }
  }

  lemma SampleHit(k: Kernel, anchor: nat, j: nat)
    ensures HitAt(k, anchor, Step(j)) <==> Target(k, Sample(anchor, j)).Some?
  {
    hide Target, Step, Wrap;
  }

  lemma SampleZero(anchor: nat)
    requires anchor < TOP
    ensures Sample(anchor, 0) == anchor
  {
  }

  class Lkm {
    const k: Kernel
    var kallsymsLookupNameFn: nat

    constructor (k: Kernel)
      ensures this.k == k && kallsymsLookupNameFn == 0
    {
      this.k := k;
      kallsymsLookupNameFn := 0;
    }

    /** The checks made at one probed address. The text searches recover exactly the start of the symbol sought. */
    method CandidateStart(curr: nat) returns (r: Option<nat>)
      requires WellFormed(k) && curr < TOP
      ensures r == Target(k, curr)
      ensures forall v: nat :: r == Some(v) <==> curr in k.word32 && Belongs(k, curr, v)
    {
      hide Hex, StrChr, KStrToUl, Contains, SprintSymbol, HeadText, StartsWithSym, Belongs;
      TargetBelongs(k, curr);
      if curr !in k.word32 {
        return None;
      }
      var buf := SprintSymbol(k, curr);
      match Lookup(k.symbols, curr) {
        case None =>
          NoSymbolText(k, curr);
        case Some(s) =>
          CandidateText(k, s, curr);
          StartText(k, s);
      }
      // sizeof counts the terminator of the search string
      if |buf| < |SYM + "+"| + 1 {
        return None;
      }
      if !StartsWithSym(buf) {
        return None;
      }
      var sl := StrChr(buf, '/');
      if sl.None? {
        return None;
      }
      buf := buf[..sl.value];
      var pl := StrChr(buf, '+');
      if pl.None? {
        return None;
      }
      var offset := KStrToUl(buf[pl.value + 1..]);
      if offset.None? {
        return None;
      }
      var test := Wrap(curr - offset.value);
      var text := SprintSymbol(k, test);
      if |text| == 0 {
        return None;
      }
      if !Contains(text, "+0x0") {
        return None;
      }
      return Some(test);
    }

    /** The scan. `probes` records the addresses visited.
        It succeeds exactly when some step within the bound finds the symbol; then the pointer is the start of a symbol
        of that name, found at a nearest such step. A failed scan has visited every step within the bound. */
    method Bootstrap(ptr: nat) returns (ret: int, ghost probes: seq<nat>)
      requires WellFormed(k) && ptr < TOP
      modifies this
      ensures ret == 0 || ret == -34
      ensures ret == 0
         <==> exists a: nat, s | a in k.word32 && s in k.symbols ::
                a < TOP && Wrap(a - ptr) % 64 == 0 && (Wrap(a - ptr) < 25_600_000 || Wrap(a - ptr) > TOP - 25_600_000)
                && s.name == "kallsyms_lookup_name" && s.Covers(a)
      ensures ret == 0 <==> exists t | Abs(t) < MAX_ITER :: HitAt(k, ptr, t)
      ensures (exists s, d :: InWindow(k, ptr, MAX_ITER, s, d)) ==> ret == 0
      ensures forall i | 0 <= i < |probes| :: probes[i] == Sample(ptr, i)
      ensures ret == 0 ==> 0 < |probes| < 2 * MAX_ITER && NearestHit(k, ptr, Step(|probes| - 1), kallsymsLookupNameFn)
      ensures ret == 0 ==>
                var a := probes[|probes| - 1];
                && a in k.word32
                && exists s | s in k.symbols ::
                     s.name == "kallsyms_lookup_name" && s.Covers(a) && s.start == kallsymsLookupNameFn
      ensures ret != 0 ==> |probes| == 799_999 && kallsymsLookupNameFn == old(kallsymsLookupNameFn)
    {
      hide InWindow, Target, Lookup, Wrap, Sample, HitAt, NearestHit, WellFormed, Step, Abs;
      WindowIsSwept(k, ptr);
      HitsInReach(k, ptr);
      var anchor := ptr;
      var iter, curr, up := 0, ptr, true;
      assert Sample(ptr, 0) == ptr by {
        SampleZero(ptr);
      }
      probes := [];
      while iter < MAX_ITER
        invariant 0 <= iter <= MAX_ITER && (if up then iter < MAX_ITER else iter > 0)
        invariant |probes| == 2 * iter - (if up then 0 else 1)
        invariant curr == Sample(anchor, |probes|) && curr < TOP
        invariant forall i | 0 <= i < |probes| :: probes[i] == Sample(anchor, i)
        invariant forall i: nat | i < |probes| :: !HitAt(k, anchor, Step(i))
        invariant kallsymsLookupNameFn == old(kallsymsLookupNameFn)
        decreases 2 * (MAX_ITER - iter) - (if up then 1 else 0)
      {
        ghost var j: nat := |probes|;
        SampleHit(k, ptr, j);
        probes := probes + [curr];
        var found := CandidateStart(curr);
        if found.Some? {
          kallsymsLookupNameFn := found.value;
          FirstHitIsNearest(k, ptr, j);
          return 0, probes;
        }
        if up {
          iter := iter + 1;
          curr := Wrap(anchor + 4 * 16 * iter);
          up := false;
        } else {
          curr := Wrap(anchor - 4 * 16 * iter);
          up := true;
        }
        NextSample(anchor, iter, up);
      }
      AllStepsVisited(k, ptr, |probes|);
      return -ERANGE, probes;
    }
  }
}
