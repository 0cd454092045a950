/** The kernel as the module sees it: symbols, readable words, and symbol text of the form name+0xOFFSET/0xSIZE,
    together with the C string routines the module parses that text with. */
module KernelText {
  import opened Common
  import opened Numerals

  /** A named address interval. A symbol from a loadable module carries the module's name as owner. */
  datatype Symbol = Symbol(name: string, start: nat, size: nat, owner: Option<string>) {
    /** A symbol of recorded size 0 still owns its start address. */
    predicate Covers(a: nat) {
      start <= a && (a < start + size || a == start)
    }
  }

  /** word32 and word64 hold what a fault-tolerant copy of 4 or 8 bytes yields; an address without an entry faults. */
  datatype Kernel = Kernel(
    symbols: seq<Symbol>,
    word32: map<nat, nat>,
    word64: map<nat, nat>,
    isAdrp: nat -> bool,
    adrpOffset: nat -> int)

  predicate PlainName(s: string) {
    '+' !in s && '/' !in s
  }

  ghost predicate WellFormed(k: Kernel) {
    && (forall s | s in k.symbols :: PlainName(s.name) && s.start + s.size < TOP)
    && (forall s | s in k.symbols && s.owner.Some? :: PlainName(s.owner.value))
    && (forall s, s', a: nat | s in k.symbols && s' in k.symbols && s.Covers(a) && s'.Covers(a) :: s == s')
  }

  /** The symbol that covers an address. */
  function Lookup(symbols: seq<Symbol>, a: nat): (r: Option<Symbol>)
    ensures r.Some? ==> r.value in symbols && r.value.Covers(a)
    ensures r.None? ==> forall s | s in symbols :: !s.Covers(a)
  {
    if symbols == [] then None
    else if symbols[0].Covers(a) then Some(symbols[0])
    else Lookup(symbols[1..], a)
  }

  lemma LookupFinds(k: Kernel, s: Symbol, a: nat)
    requires WellFormed(k) && s in k.symbols && s.Covers(a)
    ensures Lookup(k.symbols, a) == Some(s)
  {
  }

  // ---- Hexadecimal text ----

  const DIGITS := "0123456789abcdef"

  /** %lx: no leading zeros. */
  function Hex(n: nat): (s: string)
    ensures |s| > 0
    ensures forall c | c in s :: c in DIGITS
  {
    if n < 16 then [DIGITS[n]] else Hex(n / 16) + [DIGITS[n % 16]]
  }

  function OwnerText(owner: Option<string>): string {
    match owner
    case None => ""
    case Some(m) => " [" + m + "]"
  }

  /** The text sprint_symbol writes. */
  function SprintSymbol(k: Kernel, a: nat): string {
    match Lookup(k.symbols, a)
    case None => "0x" + Hex(a)
    case Some(s) => s.name + "+0x" + Hex(a - s.start) + "/0x" + Hex(s.size) + OwnerText(s.owner)
  }

  // ---- C string routines ----

  /** strchr: the first position of c. */
  function StrChr(s: string, c: char): (r: Option<nat>)
    ensures r.None? <==> c !in s
    ensures r.Some? ==> r.value < |s| && s[r.value] == c && c !in s[..r.value]
  {
    if s == [] then None
    else if s[0] == c then Some(0)
    else match StrChr(s[1..], c)
      case None => None
      case Some(i) =>
        assert s[..i + 1] == [s[0]] + s[1..][..i];
        Some(i + 1)
  }

  /** strstr as a test. */
  predicate Contains(s: string, pat: string) {
    exists i | 0 <= i <= |s| :: pat <= s[i..]
  }

  /** kstrtoul with base 0: an optional plus sign, a radix prefix, at least one digit, at most one newline after
      the digits, nothing else, and no overflow. */
  function KStrToUl(text: string): Option<nat> {
    var s := if text != [] && text[0] == '+' then text[1..] else text;
    var hex := |s| > 2 && s[0] == '0' && (s[1] == 'x' || s[1] == 'X') && DigitValue(s[2]) < 16;
    var base := if hex then 16 else if s != [] && s[0] == '0' then 8 else 10;
    var d := if hex then s[2..] else s;
    var n := DigitRun(d, base);
    if n == 0 || Value(d[..n], base) >= TOP then None
    else if d[n..] == "" || d[n..] == "\n" then Some(Value(d[..n], base))
    else None
  }

  // ---- Reading back printed text ----

  lemma DigitsReadBack(i: nat)
    requires i < 16
    ensures DigitValue(DIGITS[i]) == i
  {
  }

  lemma {:induction false} HexValue(n: nat)
    ensures Value(Hex(n), 16) == n
  {
    if n < 16 {
      DigitsReadBack(n);
      assert Hex(n)[..0] == [];
    } else {
      HexValue(n / 16);
      DigitsReadBack(n % 16);
      var s := Hex(n);
      assert s[..|s| - 1] == Hex(n / 16);
    }
  }

  lemma HexCharsAreDigits(c: char)
    requires c in DIGITS
    ensures DigitValue(c) < 16 && PlainName([c]) && c != 'x' && c != '\n'
  {
  }

  lemma {:induction false} DigitRunOfHex(s: string, rest: string)
    requires forall c | c in s :: c in DIGITS
    requires rest == [] || DigitValue(rest[0]) >= 16
    ensures DigitRun(s + rest, 16) == |s|
  {
    if s == [] {
      assert s + rest == rest;
    } else {
      HexCharsAreDigits(s[0]);
      assert (s + rest)[1..] == s[1..] + rest;
      DigitRunOfHex(s[1..], rest);
    }
  }

  /** Printing a word with %#lx and parsing it with kstrtoul is the identity. */
  lemma HexRoundTrip(n: nat)
    requires n < TOP
    ensures KStrToUl("0x" + Hex(n)) == Some(n)
  {
    var s := "0x" + Hex(n);
    assert s[2..] == Hex(n);
    assert s[2] in DIGITS;
    HexCharsAreDigits(s[2]);
    assert Hex(n) + [] == Hex(n);
    DigitRunOfHex(Hex(n), []);
    assert Hex(n)[..|Hex(n)|] == Hex(n);
    HexValue(n);
  }

  /** Anything that is no digit and no final newline after the number makes kstrtoul reject the text. */
  lemma HexWithSuffixRejected(n: nat, suffix: string)
    requires suffix != [] && suffix[0] == ' '
    ensures KStrToUl("0x" + Hex(n) + suffix) == None
  {
    var s := "0x" + Hex(n) + suffix;
    hide Hex, Value;
    assert s[2..] == Hex(n) + suffix;
    assert s[2] == Hex(n)[0];
    assert s[2] in DIGITS;
    HexCharsAreDigits(s[2]);
    DigitRunOfHex(Hex(n), suffix);
    assert s[2..][|Hex(n)|..] == suffix;
  }

  /** The first digit is 0 only in the text of zero itself. */
  lemma {:induction false} LeadingDigit(n: nat)
    ensures Hex(n)[0] == '0' <==> n == 0
  {
    if n >= 16 {
      LeadingDigit(n / 16);
      assert Hex(n)[0] == Hex(n / 16)[0];
    }
  }
}
