/** What the module's string searches find in printed symbols. */
module SymbolText {
  import opened Common
  import opened KernelText

  function HeadText(s: Symbol, off: nat): string {
    s.name + "+0x" + Hex(off)
  }

  function TailText(s: Symbol): string {
    "0x" + Hex(s.size) + OwnerText(s.owner)
  }

  lemma PrintedSymbol(k: Kernel, s: Symbol, a: nat)
    requires WellFormed(k) && s in k.symbols && s.Covers(a)
    ensures SprintSymbol(k, a) == HeadText(s, a - s.start) + "/" + TailText(s)
  {
    LookupFinds(k, s, a);
    assert "/0x" == "/" + "0x";
  }

  lemma AbsentBefore(s: string, c: char, i: nat)
    requires i <= |s| && c !in s[..i]
    ensures forall j | 0 <= j < i :: s[j] != c
  {
    assert forall j | 0 <= j < i :: s[j] == s[..i][j];
  }

  lemma StrChrIs(s: string, c: char, i: nat)
    requires i < |s| && s[i] == c && c !in s[..i]
    ensures StrChr(s, c) == Some(i)
  {
    AbsentBefore(s, c, i);
    AbsentBefore(s, c, StrChr(s, c).value);
  }

  lemma SplitAtFirst(a: string, c: char, b: string)
    requires c !in a
    ensures var s := a + [c] + b; StrChr(s, c) == Some(|a|) && s[..|a|] == a && s[|a| + 1..] == b
  {
    var s := a + [c] + b;
    assert s[..|a|] == a;
    StrChrIs(s, c, |a|);
  }

  lemma PlainHead(s: Symbol, off: nat)
    requires PlainName(s.name)
    ensures '/' !in HeadText(s, off) && '+' !in Hex(off)
  {
    forall c | c in Hex(off) ensures c != '/' && c != '+' {
      HexCharsAreDigits(c);
    }
  }

  lemma HeadSplits(s: Symbol, off: nat)
    requires PlainName(s.name)
    ensures StrChr(HeadText(s, off), '+') == Some(|s.name|)
    ensures HeadText(s, off)[|s.name| + 1..] == "0x" + Hex(off)
  {
    hide Hex, StrChr;
    assert HeadText(s, off) == s.name + ['+'] + ("0x" + Hex(off));
    SplitAtFirst(s.name, '+', "0x" + Hex(off));
  }

  /** Cutting at the first slash and then at the first plus isolates the offset; what follows the slash is the size
      and, for a symbol of a loadable module, the module's name. */
  lemma CutsIsolateNumbers(s: Symbol, off: nat)
    requires PlainName(s.name)
    ensures var text := HeadText(s, off) + "/" + TailText(s);
            var slash := |HeadText(s, off)|;
            && StrChr(text, '/') == Some(slash)
            && text[slash + 1..] == TailText(s)
            && text[..slash] == HeadText(s, off)
    ensures StrChr(HeadText(s, off), '+') == Some(|s.name|)
    ensures HeadText(s, off)[|s.name| + 1..] == "0x" + Hex(off)
  {
    hide Hex, StrChr, TailText;
    var head := HeadText(s, off);
    PlainHead(s, off);
    SplitAtFirst(head, '/', TailText(s));
    HeadSplits(s, off);
  }

  // ---- Substrings across a separator ----

  lemma OccurrenceAt(s: string, i: nat, p: nat, pat: string)
    requires p < |s| && i <= |s| && pat <= s[i..]
    ensures i <= p < i + |pat| ==> s[p] in pat
  {
    if i <= p < i + |pat| {
      assert pat[p - i] == s[p];
    }
  }

  lemma ContainsFromEither(a: string, c: char, b: string, pat: string)
    requires Contains(a, pat) || Contains(b, pat)
    ensures Contains(a + [c] + b, pat)
  {
    var s := a + [c] + b;
    if i :| 0 <= i <= |a| && pat <= a[i..] {
      assert s[i..] == a[i..] + ([c] + b);
    } else {
      var j :| 0 <= j <= |b| && pat <= b[j..];
      assert s[|a| + 1 + j..] == b[j..];
    }
  }

  /** A pattern without the separator occurs in the whole exactly when it occurs on one side. */
  lemma ContainsAcross(a: string, c: char, b: string, pat: string)
    requires c !in pat && pat != []
    ensures Contains(a + [c] + b, pat) <==> Contains(a, pat) || Contains(b, pat)
  {
    var s := a + [c] + b;
    if Contains(s, pat) {
      var i :| 0 <= i <= |s| && pat <= s[i..];
      OccurrenceAt(s, i, |a|, pat);
      if i < |a| {
        assert s[i..][..|pat|] == a[i..][..|pat|];
        assert pat <= a[i..];
      } else {
        assert s[i..] == b[i - |a| - 1..];
      }
    } else if Contains(a, pat) || Contains(b, pat) {
      ContainsFromEither(a, c, b, pat);
    }
  }

  lemma ContainsNeeds(s: string, pat: string, c: char)
    requires c in pat
    ensures Contains(s, pat) ==> c in s
  {
    if Contains(s, pat) {
      var i :| 0 <= i <= |s| && pat <= s[i..];
      var j :| 0 <= j < |pat| && pat[j] == c;
      assert s[i + j] == c;
    }
  }

  /** In a + [c] + b, c stands only between two parts that lack it. */
  lemma OnlySeparator(a: string, c: char, b: string)
    requires c !in a && c !in b
    ensures forall i | 0 <= i < |a + [c] + b| :: (a + [c] + b)[i] == c <==> i == |a|
  {
    var s := a + [c] + b;
    assert forall i | 0 <= i < |a| :: s[i] == a[i];
    assert forall i | |a| < i < |s| :: s[i] == b[i - |a| - 1];
  }

  /** What follows the first plus sign. */
  function AfterPlus(s: Symbol, off: nat): string {
    "0x" + Hex(off) + "/" + TailText(s)
  }

  lemma TextAroundPlus(s: Symbol, off: nat)
    ensures HeadText(s, off) + "/" + TailText(s) == s.name + ['+'] + AfterPlus(s, off)
  {
    hide Hex, TailText;
  }

  lemma NoSecondPlus(s: Symbol, off: nat)
    requires PlainName(s.name) && (s.owner.Some? ==> PlainName(s.owner.value))
    ensures '+' !in AfterPlus(s, off)
  {
    PlainHead(s, off);
    PlainHead(s, s.size);
    hide Hex;
  }

  lemma OnlyPlus(s: Symbol, off: nat)
    requires PlainName(s.name) && (s.owner.Some? ==> PlainName(s.owner.value))
    ensures var text := HeadText(s, off) + "/" + TailText(s);
            forall i | 0 <= i < |text| :: text[i] == '+' <==> i == |s.name|
  {
    hide AfterPlus, HeadText, TailText;
    NoSecondPlus(s, off);
    TextAroundPlus(s, off);
    OnlySeparator(s.name, '+', AfterPlus(s, off));
  }

  /** "+0x0" appears in a symbol's text exactly when the offset is zero. */
  lemma ZeroOffsetText(s: Symbol, off: nat)
    requires PlainName(s.name) && (s.owner.Some? ==> PlainName(s.owner.value))
    ensures Contains(HeadText(s, off) + "/" + TailText(s), "+0x0") <==> off == 0
  {
    var text := HeadText(s, off) + "/" + TailText(s);
    var n := |s.name|;
    PlainHead(s, off);
    LeadingDigit(off);
    assert text[n..] == "+0x" + Hex(off) + "/" + TailText(s);
    if off == 0 {
      assert "+0x0" <= text[n..];
    }
    if Contains(text, "+0x0") {
      var i :| 0 <= i <= |text| && "+0x0" <= text[i..];
      assert text[i] == text[i..][0] == '+';
      OnlyPlus(s, off);
      assert text[n + 3] == text[i..][3] == '0';
      assert text[n + 3] == Hex(off)[0];
    }
  }

  /** The text starts with a plain name and a plus exactly when that is the symbol's whole name. */
  lemma StartsWithName(s: Symbol, off: nat, name: string)
    requires PlainName(s.name) && PlainName(name) && (s.owner.Some? ==> PlainName(s.owner.value))
    ensures name + "+" <= HeadText(s, off) + "/" + TailText(s) <==> s.name == name
  {
    var text := HeadText(s, off) + "/" + TailText(s);
    assert text == s.name + ("+0x" + Hex(off) + "/" + TailText(s));
    OnlyPlus(s, off);
    if name + "+" <= text {
      assert (name + "+")[|name|] == '+';
      assert text[|name|] == '+';
      assert name == text[..|name|] == s.name;
    }
  }

  // ---- sys_io_setup ----

  const SYS_IO_SETUP := "sys_io_setup"

  /** A symbol whose own name, or whose module's name, contains sys_io_setup. */
  predicate NamesIoSetup(s: Symbol) {
    Contains(s.name, SYS_IO_SETUP) || (s.owner.Some? && Contains(s.owner.value, SYS_IO_SETUP))
  }

  lemma NumberHasNoIoSetup(n: nat)
    ensures !Contains("0x" + Hex(n), SYS_IO_SETUP)
  {
    forall c | c in Hex(n) ensures c != '_' {
      assert c in DIGITS;
    }
    assert SYS_IO_SETUP[3] == '_';
    ContainsNeeds("0x" + Hex(n), SYS_IO_SETUP, '_');
  }

  lemma IoSetupInHead(s: Symbol, off: nat)
    ensures Contains(HeadText(s, off), SYS_IO_SETUP) <==> Contains(s.name, SYS_IO_SETUP)
  {
    NumberHasNoIoSetup(off);
    assert HeadText(s, off) == s.name + ['+'] + ("0x" + Hex(off));
    ContainsAcross(s.name, '+', "0x" + Hex(off), SYS_IO_SETUP);
  }

  lemma IoSetupInBrackets(m: string)
    ensures Contains("[" + m + "]", SYS_IO_SETUP) <==> Contains(m, SYS_IO_SETUP)
  {
    ContainsNeeds([], SYS_IO_SETUP, SYS_IO_SETUP[3]);
    assert "[" + m + "]" == [] + ['['] + (m + "]");
    ContainsAcross([], '[', m + "]", SYS_IO_SETUP);
    assert m + "]" == m + [']'] + [];
    ContainsAcross(m, ']', [], SYS_IO_SETUP);
  }

  lemma IoSetupInTail(s: Symbol)
    ensures Contains(TailText(s), SYS_IO_SETUP) <==> s.owner.Some? && Contains(s.owner.value, SYS_IO_SETUP)
  {
    NumberHasNoIoSetup(s.size);
    match s.owner {
      case None =>
        assert TailText(s) == "0x" + Hex(s.size);
      case Some(m) =>
        assert TailText(s) == ("0x" + Hex(s.size)) + [' '] + ("[" + m + "]");
        ContainsAcross("0x" + Hex(s.size), ' ', "[" + m + "]", SYS_IO_SETUP);
        IoSetupInBrackets(m);
    }
  }

  /** No digit, separator or bracket of the text can take part in an occurrence. */
  lemma IoSetupText(k: Kernel, a: nat)
    requires WellFormed(k)
    ensures Contains(SprintSymbol(k, a), SYS_IO_SETUP)
       <==> Lookup(k.symbols, a).Some? && NamesIoSetup(Lookup(k.symbols, a).value)
  {
    match Lookup(k.symbols, a)
    case None =>
      NumberHasNoIoSetup(a);
    case Some(s) =>
      PrintedSymbol(k, s, a);
      ContainsAcross(HeadText(s, a - s.start), '/', TailText(s), SYS_IO_SETUP);
      IoSetupInHead(s, a - s.start);
      IoSetupInTail(s);
  }
}
