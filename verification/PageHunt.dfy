/** Locating the system call table: symbol sizes read back from symbol text, and the nested scan over ADRP
    instructions and the words of the pages they address. */
module PageHunt {
  import opened Common
  import opened KernelText
  import opened SymbolText

  const MAX_TRIES: int := 4096 / 8

  // ---- Sizes and offsets from symbol text ----

  /** What compat_kallsyms_lookup_size_offset can recover: only built-in symbols print a size kstrtoul accepts. */
  function SizeOffset(k: Kernel, a: nat): Option<(nat, nat)> {
    match Lookup(k.symbols, a)
    case None => None
    case Some(s) => if a == 0 || s.owner.Some? then None else Some((s.size, a - s.start))
  }

  lemma NoSlashWithoutSymbol(k: Kernel, a: nat)
    requires Lookup(k.symbols, a).None?
    ensures StrChr(SprintSymbol(k, a), '/') == None
  {
    forall c | c in Hex(a) ensures c != '/' {
      HexCharsAreDigits(c);
    }
  }

  /** The size is read back exactly, unless a module's name follows it. */
  lemma SizeText(s: Symbol)
    requires s.size < TOP
    ensures KStrToUl(TailText(s)) == if s.owner.None? then Some(s.size) else None
  {
    match s.owner
    case None =>
      HexRoundTrip(s.size);
      assert TailText(s) == "0x" + Hex(s.size);
    case Some(m) =>
      HexWithSuffixRejected(s.size, " [" + m + "]");
      assert TailText(s) == "0x" + Hex(s.size) + (" [" + m + "]");
  }

  /** The two numbers the parser cuts out of a symbol's text. */
  lemma SymbolNumbers(k: Kernel, s: Symbol, a: nat)
    requires WellFormed(k) && s in k.symbols && s.Covers(a) && a < TOP
    ensures var text := SprintSymbol(k, a);
            var head := HeadText(s, a - s.start);
            && StrChr(text, '/') == Some(|head|) && |head| < |text| && text[..|head|] == head
            && KStrToUl(text[|head| + 1..]) == (if s.owner.None? then Some(s.size) else None)
            && StrChr(head, '+') == Some(|s.name|) && |s.name| < |head|
            && KStrToUl(head[|s.name| + 1..]) == Some(a - s.start)
  {
    hide SprintSymbol, StrChr, KStrToUl, Hex, OwnerText, TailText, Lookup;
    PrintedSymbol(k, s, a);
    CutsIsolateNumbers(s, a - s.start);
    SizeText(s);
    HexRoundTrip(a - s.start);
  }

  lemma CoveringSymbol(k: Kernel, a: nat)
    requires WellFormed(k)
    ensures forall s | s in k.symbols && s.Covers(a) :: Lookup(k.symbols, a) == Some(s)
  {
    forall s | s in k.symbols && s.Covers(a) ensures Lookup(k.symbols, a) == Some(s) {
      LookupFinds(k, s, a);
    }
  }

  lemma TextNonEmpty(k: Kernel, a: nat)
    ensures |SprintSymbol(k, a)| > 0
  {
  }

  method LookupSizeOffset(k: Kernel, addr: nat) returns (r: Option<(nat, nat)>)
    requires WellFormed(k) && addr < TOP
    ensures r == SizeOffset(k, addr)
    ensures addr != 0 ==>
              forall s | s in k.symbols && s.Covers(addr) && s.owner.None? :: r == Some((s.size, addr - s.start))
    ensures addr == 0 || (forall s | s in k.symbols :: !s.Covers(addr)) ==> r == None
    ensures forall s | s in k.symbols && s.Covers(addr) && s.owner.Some? :: r == None
  {
    hide SprintSymbol, StrChr, KStrToUl, HeadText, TailText;
    CoveringSymbol(k, addr);
    if addr == 0 {
      return None;
    }
    var buf := SprintSymbol(k, addr);
    TextNonEmpty(k, addr);
    if !(|buf| > 0) {
      return None;
    }
    match Lookup(k.symbols, addr) {
      case None =>
        NoSlashWithoutSymbol(k, addr);
      case Some(s) =>
        SymbolNumbers(k, s, addr);
    }
    var cSz := StrChr(buf, '/');
    if cSz.None? {
      return None;
    }
    var uSz := KStrToUl(buf[cSz.value + 1..]);
    if uSz.None? {
      return None;
    }
    buf := buf[..cSz.value];
    var cOff := StrChr(buf, '+');
    if cOff.None? {
      return None;
    }
    var uOff := KStrToUl(buf[cOff.value + 1..]);
    if uOff.None? {
      return None;
    }
    return Some((uSz.value, uOff.value));
  }

  /** The scan depth get_ksym_size reports. */
  function KsymSize(k: Kernel, a: nat, retfail: nat): nat {
    match SizeOffset(k, a)
    case None => retfail
    case Some(p) => if p == (0, 0) then retfail else p.0
  }

  method GetKsymSize(k: Kernel, addr: nat, retfail: nat) returns (r: nat)
    requires WellFormed(k) && addr < TOP
    ensures r == KsymSize(k, addr, retfail)
    ensures addr != 0 ==>
              forall s | s in k.symbols && s.Covers(addr) && s.owner.None? ::
                r == if s.size == 0 then retfail else s.size
    ensures addr == 0 || (forall s | s in k.symbols :: !s.Covers(addr)) ==> r == retfail
    ensures forall s | s in k.symbols && s.Covers(addr) && s.owner.Some? :: r == retfail
  {
    var p := LookupSizeOffset(k, addr);
    if p.None? {
      return retfail;
    }
    if p.value.0 == 0 && p.value.1 == 0 {
      return retfail;
    }
    return p.value.0;
  }

  /** At the start of a built-in symbol of nonzero size the true size is recovered; a module's symbol, or one of
      size zero, gets the fallback. */
  lemma SizeAtSymbolStart(k: Kernel, s: Symbol, retfail: nat)
    requires WellFormed(k) && s in k.symbols && s.start != 0
    ensures KsymSize(k, s.start, retfail) == if s.owner.None? && s.size != 0 then s.size else retfail
  {
    LookupFinds(k, s, s.start);
  }

  // ---- The words of one page ----

  /** The word at slot points to readable memory whose symbol is the table's first entry. */
  predicate TableSlot(k: Kernel, slot: nat) {
    && slot in k.word64
    && k.word64[slot] in k.word64
    && var s := Lookup(k.symbols, k.word64[slot]);
       s.Some? && NamesIoSetup(s.value)
  }

  /** Word t counted from the page an ADRP instruction addresses. */
  function Slot(k: Kernel, insn: nat, t: nat): nat
    requires insn in k.word32
  {
    Wrap(insn - insn % 4096 + k.adrpOffset(k.word32[insn]) + 8 * t)
  }

  ghost predicate FirstSlot(k: Kernel, insn: nat, t: nat)
    requires insn in k.word32
  {
    t <= MAX_TRIES && TableSlot(k, Slot(k, insn, t)) && forall u: nat | u < t :: !TableSlot(k, Slot(k, insn, u))
  }

  lemma SlotZero(k: Kernel, insn: nat)
    requires insn in k.word32
    ensures Slot(k, insn, 0) == Wrap(insn - insn % 4096 + k.adrpOffset(k.word32[insn]))
  {
  }

  lemma NextSlot(k: Kernel, insn: nat, t: nat)
    requires insn in k.word32
    ensures Slot(k, insn, t + 1) == Wrap(Slot(k, insn, t) + 8)
  {
    WrapAdds(insn - insn % 4096 + k.adrpOffset(k.word32[insn]) + 8 * t, 8);
  }

  /** Tries words 0 to 512 inclusive, one more than the page holds. */
  method ScanPage(k: Kernel, insn: nat) returns (found: Option<nat>)
    requires WellFormed(k) && insn in k.word32
    ensures found.None? ==> forall t: nat | t <= MAX_TRIES :: !TableSlot(k, Slot(k, insn, t))
    ensures found.Some? ==> exists t: nat :: FirstSlot(k, insn, t) && found.value == Slot(k, insn, t)
  {
    hide NamesIoSetup, Lookup, SprintSymbol, Contains;
    var tgt := Wrap(insn - insn % 4096 + k.adrpOffset(k.word32[insn]));
    var curr, tries := tgt, 0;
    SlotZero(k, insn);
    while tries <= MAX_TRIES
      invariant 0 <= tries <= MAX_TRIES + 1
      invariant curr == Slot(k, insn, tries)
      invariant forall u: nat | u < tries :: !TableSlot(k, Slot(k, insn, u))
    {
      if curr in k.word64 && k.word64[curr] in k.word64 {
        var p := k.word64[curr];
        var buf := SprintSymbol(k, p);
        IoSetupText(k, p);
        if |buf| > 0 && Contains(buf, SYS_IO_SETUP) {
          assert FirstSlot(k, insn, tries);
          return Some(curr);
        }
        TextNonEmpty(k, p);
      }
      NextSlot(k, insn, tries);
      tries, curr := tries + 1, Wrap(curr + 8);
    }
    return None;
  }

  /** How far slot lies past the start of the page that the instruction at a addresses. */
  function PastPage(k: Kernel, a: nat, slot: nat): nat
    requires a in k.word32
  {
    Wrap(slot - (a - a % 4096 + k.adrpOffset(k.word32[a])))
  }

  /** Said of the text that is read: slot is one of the 513 words from the page that the readable ADRP at a addresses,
      it points to readable memory, and the symbol printed for that memory contains sys_io_setup. */
  ghost predicate Leads(k: Kernel, a: nat, slot: nat) {
    && a in k.word32 && k.isAdrp(k.word32[a])
    && slot < TOP && slot in k.word64 && k.word64[slot] in k.word64
    && PastPage(k, a, slot) <= 4096 && PastPage(k, a, slot) % 8 == 0
    && Contains(SprintSymbol(k, k.word64[slot]), "sys_io_setup")
  }

  lemma SlotDistance(k: Kernel, a: nat, slot: nat, t: nat)
    requires a in k.word32 && slot < TOP && t <= MAX_TRIES
    ensures slot == Slot(k, a, t) <==> PastPage(k, a, slot) == 8 * t
  {
    hide Wrap;
    WrapDifference(a - a % 4096 + k.adrpOffset(k.word32[a]), slot, 8 * t);
  }

  lemma TableSlotText(k: Kernel, slot: nat)
    requires WellFormed(k)
    ensures TableSlot(k, slot)
       <==> slot in k.word64 && k.word64[slot] in k.word64 && Contains(SprintSymbol(k, k.word64[slot]), "sys_io_setup")
  {
    hide Contains, SprintSymbol, NamesIoSetup, Lookup;
    if slot in k.word64 {
      IoSetupText(k, k.word64[slot]);
    }
  }

  lemma LeadsAtSlot(k: Kernel, a: nat, t: nat)
    requires WellFormed(k) && a in k.word32 && k.isAdrp(k.word32[a]) && t <= MAX_TRIES
    ensures TableSlot(k, Slot(k, a, t)) <==> Leads(k, a, Slot(k, a, t))
    ensures PastPage(k, a, Slot(k, a, t)) == 8 * t
  {
    hide Contains, SprintSymbol, TableSlot, PastPage;
    TableSlotText(k, Slot(k, a, t));
    SlotDistance(k, a, Slot(k, a, t), t);
  }

  lemma LeadsIsAdrp(k: Kernel, a: nat, slot: nat)
    requires Leads(k, a, slot)
    ensures a in k.word32 && k.isAdrp(k.word32[a])
  {
  }

  lemma LeadsToSlot(k: Kernel, a: nat, slot: nat)
    requires WellFormed(k) && Leads(k, a, slot)
    ensures var t := PastPage(k, a, slot) / 8; t <= MAX_TRIES && slot == Slot(k, a, t) && TableSlot(k, slot)
  {
    hide Contains, SprintSymbol, TableSlot, PastPage, Slot;
    TableSlotText(k, slot);
    SlotDistance(k, a, slot, PastPage(k, a, slot) / 8);
  }

  /** The first table slot of an ADRP is the nearest word that it leads to. */
  lemma FirstSlotLeads(k: Kernel, a: nat, t: nat)
    requires WellFormed(k) && a in k.word32 && k.isAdrp(k.word32[a]) && FirstSlot(k, a, t)
    ensures Leads(k, a, Slot(k, a, t))
    ensures forall other | Leads(k, a, other) :: PastPage(k, a, Slot(k, a, t)) <= PastPage(k, a, other)
  {
    hide Leads, PastPage, TableSlot, Slot;
    LeadsAtSlot(k, a, t);
    forall other | Leads(k, a, other) ensures 8 * t <= PastPage(k, a, other) {
      LeadsToSlot(k, a, other);
      assert !(PastPage(k, a, other) / 8 < t);
    }
  }

  // ---- Words beyond the page ----

  /** The start of the page an ADRP instruction addresses. */
  function Page(k: Kernel, insn: nat): nat
    requires insn in k.word32
  {
    Slot(k, insn, 0)
  }

  /** As the hardware has it: ADRP offsets are whole pages. */
  predicate WholePages(k: Kernel, insn: nat)
    requires insn in k.word32
  {
    k.adrpOffset(k.word32[insn]) % 4096 == 0
  }

  lemma WrappedPage(q: int) returns (z: nat)
    ensures Wrap(4096 * q) == 4096 * z && 4096 * z + 4096 <= TOP
  {
    z := q - 0x10_0000_0000_0000 * (4096 * q / TOP);
  }

  lemma MultipleOf4096(z: nat)
    ensures 4096 * z % 4096 == 0
  {
  }

  lemma PageAligned(k: Kernel, insn: nat)
    requires insn in k.word32 && WholePages(k, insn)
    ensures Page(k, insn) % 4096 == 0 && Page(k, insn) + 4096 <= TOP
  {
    hide Wrap;
    SlotZero(k, insn);
    var q := insn / 4096 + k.adrpOffset(k.word32[insn]) / 4096;
    assert insn - insn % 4096 + k.adrpOffset(k.word32[insn]) == 4096 * q;
    var z := WrappedPage(q);
    MultipleOf4096(z);
  }

  lemma SlotFromPage(k: Kernel, insn: nat, t: nat)
    requires insn in k.word32
    ensures Slot(k, insn, t) == Wrap(Page(k, insn) + 8 * t)
  {
    WrapAdds(insn - insn % 4096 + k.adrpOffset(k.word32[insn]), 8 * t);
  }

  /** Of the words the scan tries, exactly the first 512 lie in the page. */
  lemma SlotInPage(k: Kernel, insn: nat, t: nat)
    requires insn in k.word32 && WholePages(k, insn) && t <= MAX_TRIES
    ensures Page(k, insn) <= Slot(k, insn, t) < Page(k, insn) + 4096 <==> t < 512
  {
    hide Page, Slot;
    PageAligned(k, insn);
    SlotFromPage(k, insn, t);
  }

  /** The slot reported lies in the page exactly when the page holds a table slot at all. */
  lemma ReportInPage(k: Kernel, insn: nat, t: nat)
    requires insn in k.word32 && WholePages(k, insn) && FirstSlot(k, insn, t)
    ensures Page(k, insn) <= Slot(k, insn, t) < Page(k, insn) + 4096
       <==> exists u: nat | u < 512 :: TableSlot(k, Slot(k, insn, u))
  {
    hide Page, Slot, TableSlot;
    SlotInPage(k, insn, t);
  }

  /** A page without a table slot, in front of one that starts with a slot. */
  const OVERRUN: Kernel := Kernel([Symbol("sys_io_setup", 65536, 8, None)], map[0 := 0], map[8192 := 65536, 65536 := 0],
                                  w => true, w => 4096)

  lemma OneSymbolWellFormed(k: Kernel, s: Symbol)
    requires k.symbols == [s] && PlainName(s.name) && s.start + s.size < TOP && s.owner.None?
    ensures WellFormed(k)
  {
    hide PlainName;
  }

  lemma OverrunWellFormed()
    ensures WellFormed(OVERRUN) && WholePages(OVERRUN, 0)
  {
    hide WellFormed;
    OneSymbolWellFormed(OVERRUN, OVERRUN.symbols[0]);
  }

  lemma OverrunSlot(t: nat)
    requires t <= 512
    ensures Slot(OVERRUN, 0, t) == 4096 + 8 * t
  {
  }

  lemma OverrunTable(slot: nat)
    ensures TableSlot(OVERRUN, slot) <==> slot == 8192
  {
    var s := OVERRUN.symbols[0];
    assert Lookup(OVERRUN.symbols, 65536) == Some(s);
    assert Lookup(OVERRUN.symbols, 0) == None;
    assert SYS_IO_SETUP <= s.name[0..];
  }

  /** There the scan of page 4096 reports the first word of page 8192. */
  lemma ScanLeavesPage()
    ensures WellFormed(OVERRUN) && WholePages(OVERRUN, 0) && Page(OVERRUN, 0) == 4096
    ensures FirstSlot(OVERRUN, 0, 512) && Slot(OVERRUN, 0, 512) == 8192
  {
    hide TableSlot, Slot, WellFormed, WholePages;
    OverrunWellFormed();
    OverrunSlot(0);
    OverrunSlot(512);
    forall u: nat | u <= 512 ensures TableSlot(OVERRUN, Slot(OVERRUN, 0, u)) <==> u == 512 {
      OverrunSlot(u);
      OverrunTable(4096 + 8 * u);
    }
  }

  // ---- The instructions ----

  /** A readable ADRP whose page leads to the table. */
  ghost predicate InsnHit(k: Kernel, insn: nat) {
    insn in k.word32 && k.isAdrp(k.word32[insn]) && exists t: nat :: t <= MAX_TRIES && TableSlot(k, Slot(k, insn, t))
  }

  /** A hit is an ADRP that leads somewhere. */
  lemma HitLeads(k: Kernel, a: nat)
    requires WellFormed(k)
    ensures InsnHit(k, a) <==> exists slot :: Leads(k, a, slot)
  {
    hide Leads, TableSlot, Slot;
    if InsnHit(k, a) {
      var t: nat :| t <= MAX_TRIES && TableSlot(k, Slot(k, a, t));
      LeadsAtSlot(k, a, t);
    }
    if slot :| Leads(k, a, slot) {
      LeadsToSlot(k, a, slot);
      LeadsIsAdrp(k, a, slot);
    }
  }

  function Insn(start: nat, n: nat): (a: nat)
    ensures a < TOP
  {
    Wrap(start + 4 * n)
  }

  /** The scan stops at step n: it has left the range or found the table. */
  ghost predicate Stops(k: Kernel, start: nat, end: nat, n: nat) {
    Insn(start, n) >= end || InsnHit(k, Insn(start, n))
  }

  ghost predicate FirstStop(k: Kernel, start: nat, end: nat, n: nat) {
    Stops(k, start, end, n) && forall i: nat | i < n :: !Stops(k, start, end, i)
  }

  /** The scan stopped at step n, and reports the instruction there with the first table slot of its page, or
      nothing if it had left the range. */
  ghost predicate Reports(k: Kernel, start: nat, end: nat, n: nat, found: Option<(nat, nat)>) {
    && FirstStop(k, start, end, n)
    && (found.Some? <==> Insn(start, n) < end)
    && (found.Some? ==>
          && found.value.0 == Insn(start, n)
          && found.value.0 in k.word32
          && exists t: nat :: FirstSlot(k, found.value.0, t) && found.value.1 == Slot(k, found.value.0, t))
  }

  ghost predicate CanStop(k: Kernel, start: nat, end: nat) {
    exists n: nat :: Stops(k, start, end, n)
  }

  ghost predicate FoundFirst(k: Kernel, start: nat, end: nat, found: Option<(nat, nat)>) {
    exists n: nat :: Reports(k, start, end, n, found)
  }

  /** No instruction position below end is the last one before addresses wrap. */
  predicate EndsBeforeWrap(start: nat, end: nat) {
    end <= TOP - 4 + start % 4
  }

  lemma StartIsFirst(start: nat)
    requires start < TOP
    ensures Insn(start, 0) == start
  {
  }

  lemma NextInsn(start: nat, n: nat)
    ensures Insn(start, n + 1) == Wrap(Insn(start, n) + 4)
  {
    hide Wrap;
    assert start + 4 * (n + 1) == start + 4 * n + 4;
    WrapAdds(start + 4 * n, 4);
  }

  /** Instruction positions keep their alignment, wrapping or not. */
  lemma InsnAligned(start: nat, n: nat)
    ensures Insn(start, n) % 4 == start % 4
  {
    var a := start + 4 * n;
    var q := a / TOP;
    assert a == TOP * q + Insn(start, n);
    assert Insn(start, n) == start + 4 * (n - (TOP / 4) * q);
  }

  lemma InsnBeforeWrap(start: nat, n: nat)
    requires start + 4 * n < TOP
    ensures Insn(start, n) == start + 4 * n
  {
  }

  /** How many steps lead to the last position of the same alignment. */
  lemma StepsToTop(start: nat) returns (n: nat)
    requires start < TOP
    ensures start + 4 * n == TOP - 4 + start % 4
  {
    n := TOP / 4 - 1 - start / 4;
  }

  lemma AlignedBound(a: nat)
    requires a < TOP
    ensures a <= TOP - 4 + a % 4
  {
    assert a == 4 * (a / 4) + a % 4;
  }

  /** The scan leaves its range, whatever the kernel holds, exactly when the range ends before addresses wrap;
      otherwise only a hit can stop it. */
  lemma HuntStops(start: nat, end: nat)
    requires start < TOP && end < TOP
    ensures (exists n: nat :: Insn(start, n) >= end) <==> EndsBeforeWrap(start, end)
  {
    hide Insn;
    var n := StepsToTop(start);
    InsnBeforeWrap(start, n);
    if m: nat :| Insn(start, m) >= end {
      InsnAligned(start, m);
      AlignedBound(Insn(start, m));
    }
  }

  /** Exactly when hunt_sct_adrp returns at all. */
  lemma WhenHuntReturns(k: Kernel, start: nat, end: nat)
    requires start < TOP && end < TOP
    ensures CanStop(k, start, end) <==> EndsBeforeWrap(start, end) || exists n: nat :: InsnHit(k, Insn(start, n))
  {
    hide InsnHit, Insn, EndsBeforeWrap;
    HuntStops(start, end);
    if EndsBeforeWrap(start, end) {
      var n: nat :| Insn(start, n) >= end;
      assert Stops(k, start, end, n);
    }
    if n: nat :| InsnHit(k, Insn(start, n)) {
      assert Stops(k, start, end, n);
    }
  }

  lemma StepsBetween(start: nat, a: nat) returns (i: nat)
    requires start <= a && a % 4 == start % 4
    ensures a == start + 4 * i
  {
    i := a / 4 - start / 4;
  }

  lemma NoHitBefore(k: Kernel, start: nat, end: nat, n: nat)
    requires start + 4 * n < TOP && forall i: nat | i < n :: !Stops(k, start, end, i)
    ensures forall a: nat | start <= a < start + 4 * n && a % 4 == start % 4 :: !InsnHit(k, a)
  {
    hide InsnHit, Insn;
    forall a: nat | start <= a < start + 4 * n && a % 4 == start % 4 ensures !InsnHit(k, a) {
      var i := StepsBetween(start, a);
      InsnBeforeWrap(start, i);
      assert !Stops(k, start, end, i);
    }
  }

  lemma {:induction false} StepsDoNotWrap(k: Kernel, start: nat, end: nat, n: nat)
    requires start < TOP && end < TOP && EndsBeforeWrap(start, end)
    requires forall i: nat | i < n :: !Stops(k, start, end, i)
    ensures start + 4 * n < TOP && Insn(start, n) == start + 4 * n
  {
    if n > 0 {
      StepsDoNotWrap(k, start, end, n - 1);
      assert !Stops(k, start, end, n - 1);
    }
    InsnBeforeWrap(start, n);
  }

  /** Instruction and slot: the lowest hit of its alignment in the range, and the first table slot of its page. */
  ghost predicate LowestHit(k: Kernel, start: nat, end: nat, hit: (nat, nat)) {
    && start <= hit.0 < end && hit.0 % 4 == start % 4 && InsnHit(k, hit.0)
    && (forall a: nat | start <= a < hit.0 && a % 4 == start % 4 :: !InsnHit(k, a))
    && exists t: nat :: FirstSlot(k, hit.0, t) && hit.1 == Slot(k, hit.0, t)
  }

  /** When the range ends before addresses wrap, the scan succeeds exactly when some aligned position in the range
      leads to the table, and it reports the lowest. */
  lemma HuntCoversRange(k: Kernel, start: nat, end: nat, found: Option<(nat, nat)>)
    requires start < TOP && end < TOP && EndsBeforeWrap(start, end)
    requires FoundFirst(k, start, end, found)
    ensures found.Some? <==> exists a: nat | start <= a < end && a % 4 == start % 4 :: InsnHit(k, a)
    ensures found.Some? ==> LowestHit(k, start, end, found.value)
  {
    hide InsnHit, FirstSlot, Slot, Wrap;
    var n: nat :| Reports(k, start, end, n, found);
    StepsDoNotWrap(k, start, end, n);
    NoHitBefore(k, start, end, n);
    InsnAligned(start, n);
  }

  lemma ReportIsHit(k: Kernel, start: nat, end: nat, found: Option<(nat, nat)>)
    requires FoundFirst(k, start, end, found) && found.Some?
    ensures InsnHit(k, found.value.0)
    ensures exists t: nat :: FirstSlot(k, found.value.0, t) && found.value.1 == Slot(k, found.value.0, t)
  {
    hide InsnHit, FirstSlot, Slot, Insn;
    var n: nat :| Reports(k, start, end, n, found);
    assert Stops(k, start, end, n);
  }

  lemma HitIsAdrp(k: Kernel, a: nat)
    requires InsnHit(k, a)
    ensures a in k.word32 && k.isAdrp(k.word32[a])
  {
  }

  /** What a report means in the text that is read: the word reported is the nearest one the ADRP leads to, and on a
      range that ends before addresses wrap no aligned ADRP before the one reported, or before the end, leads
      anywhere. */
  lemma ReportLeads(k: Kernel, start: nat, end: nat, found: Option<(nat, nat)>)
    requires WellFormed(k) && start < TOP && end < TOP && FoundFirst(k, start, end, found)
    ensures found.Some? ==>
              && Leads(k, found.value.0, found.value.1)
              && forall other {:trigger other in k.word64} | Leads(k, found.value.0, other) ::
                   PastPage(k, found.value.0, found.value.1) <= PastPage(k, found.value.0, other)
    ensures EndsBeforeWrap(start, end) ==>
              && (found.Some? ==> start <= found.value.0 < end && found.value.0 % 4 == start % 4)
              && var stop := if found.Some? then found.value.0 else end;
              forall a: nat, slot: nat {:trigger a in k.word32, slot in k.word64}
                | start <= a < stop && a % 4 == start % 4 :: !Leads(k, a, slot)
  {
    hide Leads, PastPage, InsnHit, Insn, Slot, FirstSlot, FoundFirst, EndsBeforeWrap;
    if found.Some? {
      ReportIsHit(k, start, end, found);
      HitIsAdrp(k, found.value.0);
      var t: nat :| FirstSlot(k, found.value.0, t) && found.value.1 == Slot(k, found.value.0, t);
      FirstSlotLeads(k, found.value.0, t);
    }
    if EndsBeforeWrap(start, end) {
      HuntCoversRange(k, start, end, found);
      forall a: nat, slot: nat | start <= a < (if found.Some? then found.value.0 else end) && a % 4 == start % 4
        ensures !Leads(k, a, slot)
      {
        HitLeads(k, a);
        assert !InsnHit(k, a);
      }
    }
  }

  /** Scans [start, start + depth). The reported pair is the first ADRP that leads to the table, and the first word of
      its page that does. The precondition is exactly that the scan ever stops; see WhenHuntReturns. */
  method HuntSctAdrp(k: Kernel, start: nat, depth: int) returns (ret: int, found: Option<(nat, nat)>)
    requires WellFormed(k) && start < TOP
    requires CanStop(k, start, Wrap(start + depth))
    ensures ret == if found.Some? then 0 else -34
    ensures FoundFirst(k, start, Wrap(start + depth), found)
    ensures found.Some? ==>
              var insn, slot := found.value.0, found.value.1;
              && insn in k.word32 && k.isAdrp(k.word32[insn])
              && slot in k.word64 && k.word64[slot] in k.word64
              && Contains(SprintSymbol(k, k.word64[slot]), "sys_io_setup")
              && var past := Wrap(slot - (insn - insn % 4096 + k.adrpOffset(k.word32[insn])));
              && past <= 4096 && past % 8 == 0
              && forall other: nat | other < TOP && other in k.word64 && k.word64[other] in k.word64
                                     && Contains(SprintSymbol(k, k.word64[other]), "sys_io_setup") ::
                   var otherPast := Wrap(other - (insn - insn % 4096 + k.adrpOffset(k.word32[insn])));
                   otherPast % 8 == 0 ==> past <= otherPast
    ensures EndsBeforeWrap(start, Wrap(start + depth)) ==>
              var stop := if found.Some? then found.value.0 else Wrap(start + depth);
              && (found.Some? ==> start <= stop < Wrap(start + depth) && stop % 4 == start % 4)
              && forall a: nat, slot: nat | start <= a < stop && a % 4 == start % 4
                                            && a in k.word32 && k.isAdrp(k.word32[a])
                                            && slot < TOP && slot in k.word64 && k.word64[slot] in k.word64
                                            && Contains(SprintSymbol(k, k.word64[slot]), "sys_io_setup") ::
                   var past := Wrap(slot - (a - a % 4096 + k.adrpOffset(k.word32[a])));
                   past > 4096 || past % 8 != 0
  {
    hide TableSlot, Slot, Wrap, Contains, SprintSymbol, EndsBeforeWrap;
    var end := Wrap(start + depth);
    ghost var last: nat :| Stops(k, start, end, last);
    ghost var n: nat := 0;
    var insn := start;
    assert Insn(start, 0) == start by {
      StartIsFirst(start);
    }
    while insn < end
      invariant insn == Insn(start, n) && n <= last
      invariant forall i: nat | i < n :: !Stops(k, start, end, i)
      decreases last - n
    {
      if insn in k.word32 && k.isAdrp(k.word32[insn]) {
        var slot := ScanPage(k, insn);
        if slot.Some? {
          assert InsnHit(k, insn);
          found := Some((insn, slot.value));
          assert Reports(k, start, end, n, found);
          ReportLeads(k, start, end, found);
          return 0, found;
        }
      }
      assert !Stops(k, start, end, n);
      NextInsn(start, n);
      insn, n := Wrap(insn + 4), n + 1;
    }
    assert Reports(k, start, end, n, None);
    ReportLeads(k, start, end, None);
    return -ERANGE, None;
  }

  // ---- Resolving a handler ----

  /** The address kallsyms_lookup_name returns, 0 for an unknown name. */
  function NameLookup(symbols: seq<Symbol>, name: string): nat {
    if symbols == [] then 0
    else if symbols[0].name == name then symbols[0].start
    else NameLookup(symbols[1..], name)
  }

  /** The address is the start of the first symbol of that name, and 0 only for want of one or if that start is 0. */
  lemma {:induction false} NameLookupFinds(symbols: seq<Symbol>, name: string)
    ensures forall i | 0 <= i < |symbols| && symbols[i].name == name && forall j | 0 <= j < i :: symbols[j].name != name
              :: NameLookup(symbols, name) == symbols[i].start
    ensures NameLookup(symbols, name) != 0 ==>
              exists s | s in symbols :: s.name == name && s.start == NameLookup(symbols, name)
    ensures (forall s | s in symbols :: s.name != name) ==> NameLookup(symbols, name) == 0
  {
    if symbols != [] && symbols[0].name != name {
      NameLookupFinds(symbols[1..], name);
    }
  }

  /** Where the hunt for a handler at t ends: the size read back from the symbol's text, or the fallback depth. */
  function HuntEnd(k: Kernel, t: nat, scanDepth: nat): nat {
    Wrap(t + KsymSize(k, t, scanDepth))
  }

  method ResolveSvcHandler(k: Kernel, nativeSym: string, scanDepth: nat) returns (ret: int, found: Option<(nat, nat)>)
    requires WellFormed(k)
    requires var t := NameLookup(k.symbols, nativeSym);
             t != 0 ==> CanStop(k, t, HuntEnd(k, t, scanDepth))
    ensures var t := NameLookup(k.symbols, nativeSym);
            && (t == 0 ==> ret == -ENOENT && found.None?)
            && (t != 0 ==>
                  && (ret == 0 || ret == -ERANGE) && (ret == 0 <==> found.Some?)
                  && FoundFirst(k, t, HuntEnd(k, t, scanDepth), found))
  {
    hide CanStop, FoundFirst, KsymSize, Wrap;
    NameLookupFinds(k.symbols, nativeSym);
    var target := NameLookup(k.symbols, nativeSym);
    if target == 0 {
      return -ENOENT, None;
    }
    var depth := GetKsymSize(k, target, scanDepth);
    ret, found := HuntSctAdrp(k, target, depth);
  }

  /** The fallback depth serves a module's symbol, or one of size zero. */
  lemma HuntEndIs(k: Kernel, s: Symbol, scanDepth: nat)
    requires WellFormed(k) && s in k.symbols && s.start != 0
    ensures HuntEnd(k, s.start, scanDepth)
         == if s.owner.None? && s.size != 0 then s.start + s.size else Wrap(s.start + scanDepth)
  {
    SizeAtSymbolStart(k, s, scanDepth);
  }

  const LAST_BYTES: Kernel := Kernel([Symbol("do_el0_svc", TOP - 8, 7, None)], map[], map[], w => false, w => 0)

  /** A handler of 7 bytes that ends at the last address keeps the search going for ever: whatever the scan depth given,
      no step from the range it resolves to ever stops. */
  lemma ResolveNeedNotReturn(scanDepth: nat)
    ensures WellFormed(LAST_BYTES)
    ensures var t := NameLookup(LAST_BYTES.symbols, "do_el0_svc");
            t == TOP - 8 && !CanStop(LAST_BYTES, t, HuntEnd(LAST_BYTES, t, scanDepth))
  {
    hide SizeOffset, Lookup, CanStop, WellFormed;
    OneSymbolWellFormed(LAST_BYTES, LAST_BYTES.symbols[0]);
    SizeAtSymbolStart(LAST_BYTES, LAST_BYTES.symbols[0], scanDepth);
    WhenHuntReturns(LAST_BYTES, TOP - 8, TOP - 1);
  }

  /** For a built-in symbol of nonzero size the range scanned is exactly the function's body. */
  lemma ScansFunctionBody(k: Kernel, s: Symbol, scanDepth: nat)
    requires WellFormed(k) && s in k.symbols && s.start != 0 && s.size != 0 && s.owner.None?
    ensures HuntEnd(k, s.start, scanDepth) == s.start + s.size
  {
    HuntEndIs(k, s, scanDepth);
  }

  /** A built-in function made of whole instructions ends before addresses wrap, so that the hunt over it returns. */
  lemma WholeInstructionsReturn(k: Kernel, s: Symbol, scanDepth: nat)
    requires WellFormed(k) && s in k.symbols && s.start != 0 && s.size != 0 && s.owner.None?
    requires s.start % 4 == 0 && s.size % 4 == 0
    ensures EndsBeforeWrap(s.start, s.start + s.size)
    ensures CanStop(k, s.start, HuntEnd(k, s.start, scanDepth))
  {
    hide CanStop, KsymSize, Insn;
    ScansFunctionBody(k, s, scanDepth);
    WhenHuntReturns(k, s.start, s.start + s.size);
  }

  /** Over a built-in function the hunt succeeds exactly when some aligned instruction of the function's own body leads
      to the table, and it reports the lowest such instruction with the first table slot of its page. */
  lemma HandlerBodySearched(k: Kernel, s: Symbol, scanDepth: nat, found: Option<(nat, nat)>)
    requires WellFormed(k) && s in k.symbols && s.start != 0 && s.size != 0 && s.owner.None?
    requires EndsBeforeWrap(s.start, s.start + s.size)
    requires FoundFirst(k, s.start, HuntEnd(k, s.start, scanDepth), found)
    ensures found.Some? <==> exists a: nat | s.Covers(a) && a % 4 == s.start % 4 :: InsnHit(k, a)
    ensures found.Some? ==> LowestHit(k, s.start, s.start + s.size, found.value)
  {
    hide InsnHit, Wrap, KsymSize, FirstSlot, Slot;
    ScansFunctionBody(k, s, scanDepth);
    HuntCoversRange(k, s.start, s.start + s.size, found);
  }

  /** Whatever the hunt over a range found, if the range ends before addresses wrap it is the lowest hit or there is
      none; a range that does not can only be left by a hit. */
  lemma HuntDecides(k: Kernel, start: nat, end: nat, found: Option<(nat, nat)>)
    requires start < TOP && end < TOP && FoundFirst(k, start, end, found)
    ensures EndsBeforeWrap(start, end) ==>
              && (found.Some? <==> exists a: nat | start <= a < end && a % 4 == start % 4 :: InsnHit(k, a))
              && (found.Some? ==> LowestHit(k, start, end, found.value))
    ensures !EndsBeforeWrap(start, end) ==> found.Some?
  {
    hide InsnHit, LowestHit, EndsBeforeWrap, Insn, FirstSlot, Slot;
    if EndsBeforeWrap(start, end) {
      HuntCoversRange(k, start, end, found);
    } else {
      HuntStops(start, end);
    }
  }

  /** The whole search for one handler name. It is required only that the search returns at all, which WhenHuntReturns
      decides. An unknown name fails with -ENOENT. Otherwise, on a range that ends before addresses wrap, the search
      succeeds exactly when some aligned position in the range leads to the table; on any other it succeeds. */
  method ResolveHandler(k: Kernel, name: string, scanDepth: nat) returns (ret: int, found: Option<(nat, nat)>)
    requires WellFormed(k)
    requires var t := NameLookup(k.symbols, name); t != 0 ==> CanStop(k, t, HuntEnd(k, t, scanDepth))
    ensures ret == -2 <==> NameLookup(k.symbols, name) == 0
    ensures ret == 0 <==> found.Some?
    ensures (forall s | s in k.symbols :: s.name != name) ==> ret == -2
    ensures ret != -2 ==>
              var t := NameLookup(k.symbols, name);
              var end := HuntEnd(k, t, scanDepth);
              && (exists s | s in k.symbols :: s.name == name && s.start == t)
              && (forall s | s in k.symbols && s.start == t ::
                    end == if s.owner.None? && s.size != 0 then t + s.size else Wrap(t + scanDepth))
              && (ret == 0 || ret == -34)
              && (ret == 0 <==> || !EndsBeforeWrap(t, end)
                                || exists a: nat | t <= a < end && a % 4 == t % 4 :: InsnHit(k, a))
              && (ret == 0 && EndsBeforeWrap(t, end) ==> LowestHit(k, t, end, found.value))
              && (ret == 0 ==> FoundFirst(k, t, end, found))
  {
    hide InsnHit, KsymSize, NameLookup, CanStop, FoundFirst, LowestHit, EndsBeforeWrap, Wrap;
    NameLookupFinds(k.symbols, name);
    var t := NameLookup(k.symbols, name);
    ret, found := ResolveSvcHandler(k, name, scanDepth);
    if t != 0 {
      forall s | s in k.symbols && s.start == t
        ensures HuntEnd(k, t, scanDepth) == if s.owner.None? && s.size != 0 then t + s.size else Wrap(t + scanDepth)
      {
        HuntEndIs(k, s, scanDepth);
      }
      HuntDecides(k, t, HuntEnd(k, t, scanDepth), found);
    }
  }

  /** The same for a name that leads to a built-in function of nonzero size whose body ends before addresses wrap: the
      search always returns, and it succeeds exactly when that body leads to the table. */
  method ResolveBuiltinHandler(k: Kernel, name: string, scanDepth: nat, ghost s: Symbol)
    returns (ret: int, found: Option<(nat, nat)>)
    requires WellFormed(k) && s in k.symbols && NameLookup(k.symbols, name) == s.start
    requires s.start != 0 && s.size != 0 && s.owner.None? && EndsBeforeWrap(s.start, s.start + s.size)
    ensures ret == 0 || ret == -ERANGE
    ensures ret == 0 <==> exists a: nat | s.Covers(a) && a % 4 == s.start % 4 :: InsnHit(k, a)
    ensures ret == 0 ==> found.Some? && LowestHit(k, s.start, s.start + s.size, found.value)
  {
    hide InsnHit, KsymSize, NameLookup, CanStop, FoundFirst, LowestHit, EndsBeforeWrap, Wrap;
    ScansFunctionBody(k, s, scanDepth);
    WhenHuntReturns(k, s.start, s.start + s.size);
    ret, found := ResolveHandler(k, name, scanDepth);
  }
}
