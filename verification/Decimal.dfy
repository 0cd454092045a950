/** The fixed-width decimal printer, the decimal parser, and the benchmark's reused result line. */
module Decimal {
  import opened Common
  import opened Numerals
  import opened CString

  const INT_MAX: int := 0x7FFF_FFFF
  const NUL: char := '\0'

  function Pow10(n: nat): (p: nat)
    ensures p > 0
  {
    if n == 0 then 1 else 10 * Pow10(n - 1)
  }

  predicate IsDigit(c: char) {
    '0' <= c <= '9'
  }

  predicate AllDigits(s: string) {
    forall i | 0 <= i < |s| :: IsDigit(s[i])
  }

  // ---- Printing ----

  function DigitChar(d: nat): (c: char)
    requires d < 10
    ensures IsDigit(c) && DigitValue(c) == d
  {
    (48 + d) as char
  }

  /** The last len decimal digits of n, zero-padded. */
  function Digits(n: nat, len: nat): (s: string)
    ensures |s| == len && AllDigits(s)
  {
    if len == 0 then "" else Digits(n / 10, len - 1) + [DigitChar(n % 10)]
  }

  lemma MultipleIsFar(d: nat, k: int)
    ensures k >= 1 ==> d * k >= d
    ensures k <= -1 ==> d * k <= 0 - d
  {
    assert d * k == d + d * (k - 1) == d * (k + 1) - d;
  }

  lemma DivModUnique(n: nat, d: nat, q: nat, r: nat)
    requires r < d && n == d * q + r
    ensures n % d == r && n / d == q
  {
    var k := n / d - q;
    assert d * k == r - n % d;
    MultipleIsFar(d, k);
  }

  lemma DivDiv(n: nat, p: nat)
    requires p > 0
    ensures n / 10 / p == n / (10 * p)
  {
    var q, r := n / 10 / p, n / 10 % p;
    assert n / 10 == p * q + r;
    assert n == 10 * (p * q + r) + n % 10;
    assert n == (10 * p) * q + (10 * r + n % 10);
    DivModUnique(n, 10 * p, q, 10 * r + n % 10);
  }

  /** Position i holds the digit of weight 10^(len - 1 - i). */
  lemma {:induction false} DigitAt(n: nat, len: nat, i: nat)
    requires i < len
    ensures Digits(n, len)[i] as int - 48 == n / Pow10(len - 1 - i) % 10
  {
    if i < len - 1 {
      DigitAt(n / 10, len - 1, i);
      DivDiv(n, Pow10(len - 2 - i));
    }
  }

  lemma NoDigits(n: nat)
    ensures Digits(n, 0) == ""
  {
  }

  /** Moving the last of l digits in front of those already written. */
  lemma NextDigitPrinted(all: string, n: nat, l: nat, done: string)
    requires l > 0 && all == Digits(n, l) + done
    ensures all == Digits(n / 10, l - 1) + ([DigitChar(n % 10)] + done)
  {
    assert Digits(n, l) + done == Digits(n / 10, l - 1) + ([DigitChar(n % 10)] + done);
  }

  /** Writes len digits at buf[off..], last digit first, and nothing else. */
  method LongToStr(number: nat, len: nat, buf: array<char>, off: nat)
    requires len >= 1 && off + len <= buf.Length
    modifies buf
    ensures buf[..] == old(buf[..off]) + Digits(number, len) + old(buf[off + len..])
  {
    hide Digits;
    var n, l := number, len;
    NoDigits(n);
    assert Digits(number, len) + buf[off + len..off + len] == Digits(number, len);
    while l > 0
      invariant l <= len
      invariant Digits(number, len) == Digits(n, l) + buf[off + l..off + len]
      invariant buf[..off] == old(buf[..off]) && buf[off + len..] == old(buf[off + len..])
    {
      ghost var done := buf[off + l..off + len];
      NextDigitPrinted(Digits(number, len), n, l, done);
      buf[off + l - 1] := (48 + n % 10) as char;
      assert buf[off + l - 1..off + len] == [DigitChar(n % 10)] + done;
      n, l := n / 10, l - 1;
    }
    NoDigits(n);
    assert Digits(number, len) == buf[off..off + len];
    assert buf[..] == buf[..off] + buf[off..off + len] + buf[off + len..];
  }

  // ---- Parsing ----

  /** What the parser makes of a text: None when its int accumulator overflows, which C leaves undefined. */
  function Parse(t: string): Option<int> {
    var d := DigitRun(t, 10);
    if Value(t[..d], 10) > INT_MAX then None
    else if d == |t| && t != "" then Some(Value(t, 10))
    else Some(INT_MAX)
  }

  lemma {:induction false} RunEnds(t: string, n: nat)
    requires n <= |t| && AllDigits(t[..n]) && (n < |t| ==> !IsDigit(t[n]))
    ensures DigitRun(t, 10) == n
  {
    if n > 0 {
      assert t[..n][0] == t[0];
      assert t[1..][..n - 1] == t[..n][1..];
      RunEnds(t[1..], n - 1);
    }
  }

  /** Reading further digits never brings the value back down. */
  lemma {:induction false} ValueGrows(t: string, i: nat, j: nat)
    requires i <= j <= |t|
    ensures Value(t[..i], 10) <= Value(t[..j], 10)
    decreases j
  {
    if i < j {
      ValueGrows(t, i, j - 1);
      assert t[..j][..j - 1] == t[..j - 1];
    }
  }

  lemma {:induction false} RunCovers(t: string, n: nat)
    requires n <= |t| && AllDigits(t[..n])
    ensures n <= DigitRun(t, 10)
  {
    if n > 0 {
      assert t[..n][0] == t[0];
      assert t[1..][..n - 1] == t[..n][1..];
      RunCovers(t[1..], n - 1);
    }
  }

  lemma OverflowPersists(t: string, n: nat)
    requires n <= |t| && AllDigits(t[..n]) && Value(t[..n], 10) > INT_MAX
    ensures Parse(t) == None
  {
    RunCovers(t, n);
    ValueGrows(t, n, DigitRun(t, 10));
  }

  lemma EmptyText(t: string)
    ensures AllDigits(t[..0]) && Value(t[..0], 10) == 0
  {
  }

  lemma {:induction false} DigitRunEnds(t: string)
    ensures var d := DigitRun(t, 10); AllDigits(t[..d]) && (d < |t| ==> !IsDigit(t[d]))
  {
    if t != "" && IsDigit(t[0]) {
      DigitRunEnds(t[1..]);
      assert t[..DigitRun(t, 10)] == [t[0]] + t[1..][..DigitRun(t[1..], 10)];
    }
  }

  /** The parser has no answer exactly when some leading digits exceed INT_MAX; otherwise it answers the value of a text
      of digits, and INT_MAX for any other text. */
  lemma ParseReads(t: string)
    ensures Parse(t) == None <==> exists n | 0 <= n <= |t| :: AllDigits(t[..n]) && Value(t[..n], 10) > 2147483647
    ensures Parse(t) != None ==> Parse(t) == Some(if t != "" && AllDigits(t) then Value(t, 10) else 2147483647)
  {
    DigitRunEnds(t);
    hide Value, DigitRun;
    forall n | 0 <= n <= |t| && AllDigits(t[..n]) && Value(t[..n], 10) > 2147483647 ensures Parse(t) == None {
      OverflowPersists(t, n);
    }
    assert t[..|t|] == t;
    if AllDigits(t) {
      RunCovers(t, |t|);
    }
  }

  /** What the parser makes of a text whose leading digits end at n without overflow. */
  lemma ParseStops(t: string, n: nat)
    requires n <= |t| && AllDigits(t[..n]) && (n < |t| ==> !IsDigit(t[n])) && Value(t[..n], 10) <= INT_MAX
    ensures Parse(t) == Some(if 0 < n == |t| then Value(t[..n], 10) else INT_MAX)
  {
    RunEnds(t, n);
    assert n == |t| ==> t[..n] == t;
  }

  lemma NextDigit(t: string, i: nat)
    requires i < |t| && AllDigits(t[..i]) && IsDigit(t[i])
    ensures AllDigits(t[..i + 1]) && Value(t[..i + 1], 10) == Value(t[..i], 10) * 10 + (t[i] as int - 48)
  {
    assert t[..i + 1][..i] == t[..i];
  }

  method DumbAtoi(str: array<char>) returns (r: Option<int>)
    requires Terminated(str[..], NUL)
    ensures r == Parse(Text(str[..], NUL))
    ensures var t := Text(str[..], NUL);
            && (r == None <==> exists n | 0 <= n <= |t| :: AllDigits(t[..n]) && Value(t[..n], 10) > 2147483647)
            && (r != None ==> r == Some(if t != "" && AllDigits(t) then Value(t, 10) else 2147483647))
  {
    hide Parse, Value, DigitRun, AllDigits;
    ghost var t := Text(str[..], NUL);
    ParseReads(t);
    assert forall k | 0 <= k < |t| :: t[k] == str[k];
    var res, i := 0, 0;
    EmptyText(t);
    while true
      invariant 0 <= i <= |t| && (i > 0 ==> i < |t|)
      invariant AllDigits(t[..i])
      invariant res == Value(t[..i], 10) <= INT_MAX
      decreases |t| - i
    {
      if !IsDigit(str[i]) {
        assert i < |t| ==> t[i] == str[i];
        ParseStops(t, i);
        return Some(INT_MAX);
      }
      assert i < |t| && t[i] == str[i];
      NextDigit(t, i);
      var next := res * 10 + (str[i] as int - 48);
      if next > INT_MAX {
        OverflowPersists(t, i + 1);
        return None;
      }
      res, i := next, i + 1;
      if str[i] == NUL {
        assert i == |t|;
        ParseStops(t, i);
        return Some(res);
      }
    }
  }

  // ---- Printing and parsing undo each other ----

  lemma ModSplit(n: nat, p: nat)
    requires p > 0
    ensures n % (10 * p) == n / 10 % p * 10 + n % 10
  {
    var q, r := n / 10 / p, n / 10 % p;
    assert n == 10 * (n / 10) + n % 10 && n / 10 == p * q + r;
    assert n == 10 * p * q + (10 * r + n % 10);
    DivModUnique(n, 10 * p, q, 10 * r + n % 10);
  }

  lemma {:induction false} DigitsValue(n: nat, len: nat)
    ensures Value(Digits(n, len), 10) == n % Pow10(len)
  {
    if len > 0 {
      DigitsValue(n / 10, len - 1);
      assert Digits(n, len)[..len - 1] == Digits(n / 10, len - 1);
      ModSplit(n, Pow10(len - 1));
    }
  }

  /** Parsing a printed number gives it back modulo 10^len, unless that does not fit an int. */
  lemma PrintThenParse(n: nat, len: nat)
    requires len >= 1
    ensures Parse(Digits(n, len)) == if n % Pow10(len) <= 2147483647 then Some(n % Pow10(len)) else None
  {
    var t := Digits(n, len);
    assert t[..len] == t;
    RunEnds(t, len);
    DigitsValue(n, len);
  }

  /** Printing the value of a text of digits at its own width gives the text back. */
  lemma {:induction false} ParseThenPrint(t: string)
    requires AllDigits(t)
    ensures Digits(Value(t, 10), |t|) == t
  {
    if t != "" {
      var init, c := t[..|t| - 1], t[|t| - 1];
      ParseThenPrint(init);
      var v := Value(init, 10) * 10 + DigitValue(c);
      assert v / 10 == Value(init, 10) && v % 10 == DigitValue(c);
      assert t == init + [c];
    }
  }

  /** The parser answers INT_MAX exactly for texts that are no number (the sentinel) and for INT_MAX itself. */
  lemma SentinelMeaning(t: string)
    ensures Parse(t) == Some(2147483647)
       <==> Value(t[..DigitRun(t, 10)], 10) <= 2147483647 && (t == "" || !AllDigits(t) || Value(t, 10) == 2147483647)
  {
    var d := DigitRun(t, 10);
    DigitRunEnds(t);
    if AllDigits(t) {
      assert t[..|t|] == t;
      RunEnds(t, |t|);
    }
  }

  // ---- The benchmark's result line ----

  const ITERATIONS: nat := 1000000

  /** The nanoseconds per iteration between two clock readings, which wrap. */
  function Average(t0: nat, t1: nat): nat {
    Wrap(t1 - t0) / ITERATIONS
  }

  function Line(digits: string): string {
    "(" + digits + " ns avg)\n"
  }

  /** The line a run between two clock readings shows. */
  function RunLine(time: (nat, nat)): (s: string) {
    Line(Digits(Average(time.0, time.1), 7))
  }

  /** The second reading is the later one, even if the clock has wrapped in between. */
  function Elapsed(time: (nat, nat)): nat
    requires time.0 < TOP && time.1 < TOP
  {
    if time.0 <= time.1 then time.1 - time.0 else time.1 + TOP - time.0
  }

  /** The line reads as the nanoseconds per iteration, cut to seven digits, between two clock readings of 64 bits. */
  ghost predicate Shows(line: string, time: (nat, nat))
    requires time.0 < TOP && time.1 < TOP
  {
    && |line| == 17 && line[..1] == "(" && line[8..] == " ns avg)\n" && AllDigits(line[1..8])
    && Value(line[1..8], 10) == Elapsed(time) / 1_000_000 % 10_000_000
  }

  lemma AverageIs(time: (nat, nat))
    requires time.0 < TOP && time.1 < TOP
    ensures Average(time.0, time.1) == Elapsed(time) / 1_000_000
  {
  }

  lemma LineParts(digits: string)
    requires |digits| == 7
    ensures var line := Line(digits);
            |line| == 17 && line[..1] == "(" && line[1..8] == digits && line[8..] == " ns avg)\n"
  {
  }

  lemma SevenDigits()
    ensures Pow10(7) == 10_000_000
  {
    assert Pow10(4) == 10_000;
  }

  lemma RunLineShows(time: (nat, nat))
    requires time.0 < TOP && time.1 < TOP
    ensures Shows(RunLine(time), time)
  {
    hide Line, Digits, Average, Elapsed, Value, AllDigits;
    var avg := Average(time.0, time.1);
    AverageIs(time);
    LineParts(Digits(avg, 7));
    DigitsValue(avg, 7);
    SevenDigits();
  }

  lemma TemplateReads(line: string, time: (nat, nat))
    requires time.0 < TOP && time.1 < TOP && line == RunLine(time) + [NUL]
    ensures |line| == 18 && line[..1] == "(" && line[8..] == " ns avg)\n\0" && AllDigits(line[1..8])
    ensures Value(line[1..8], 10) == Elapsed(time) / 1_000_000 % 10_000_000
  {
    hide RunLine, Elapsed, Value, AllDigits;
    RunLineShows(time);
    assert line[..1] == RunLine(time)[..1] && line[1..8] == RunLine(time)[1..8];
    assert line[8..] == RunLine(time)[8..] + [NUL];
  }

  /** A line of seven digits is a string of length 17. */
  lemma LineLength(digits: string)
    requires |digits| == 7 && AllDigits(digits)
    ensures Terminated(Line(digits) + [NUL], NUL)
    ensures Text(Line(digits) + [NUL], NUL) == Line(digits) && |Line(digits)| == 17
  {
    var s := Line(digits) + [NUL];
    assert s[..17] == Line(digits);
    assert forall i | 1 <= i < 8 :: s[i] == digits[i - 1];
    assert EndsAt(s, NUL, 17);
    TextIs(s, NUL, 17);
  }

  /** Replacing the seven digits of a line gives the line of the new digits. */
  lemma DigitsReplaced(d: string, d': string)
    requires |d| == |d'| == 7
    ensures var s := Line(d) + [NUL]; |s| == 18 && s[..1] + d' + s[8..] == Line(d') + [NUL]
  {
    var s := Line(d) + [NUL];
    assert s[..1] == "(" && s[8..] == " ns avg)\n" + [NUL];
  }

  /** One run: what to announce it with, and the clock readings around it. */
  datatype Run = Run(title: array<char>, time: (nat, nat))

  /** What a sequence of runs writes: title and line of each. */
  function Report(titles: seq<string>, times: seq<(nat, nat)>): seq<string>
    requires |titles| == |times|
  {
    if times == [] then []
    else
      var n := |times| - 1;
      Report(titles[..n], times[..n]) + [titles[n], RunLine(times[n])]
  }

  lemma ReportGrows(titles: seq<string>, times: seq<(nat, nat)>, title: string, time: (nat, nat))
    requires |titles| == |times|
    ensures Report(titles + [title], times + [time]) == Report(titles, times) + [title, RunLine(time)]
  {
    assert (titles + [title])[..|titles|] == titles && (times + [time])[..|times|] == times;
  }

  /** Title and line of run i stand side by side. */
  lemma {:induction false} ReportAt(titles: seq<string>, times: seq<(nat, nat)>, i: nat)
    requires i < |titles| == |times|
    ensures |Report(titles, times)| == 2 * |times|
    ensures Report(titles, times)[2 * i] == titles[i] && Report(titles, times)[2 * i + 1] == RunLine(times[i])
  {
    hide RunLine;
    var n := |times| - 1;
    if i < n {
      ReportAt(titles[..n], times[..n], i);
    } else if n > 0 {
      ReportAt(titles[..n], times[..n], 0);
    }
  }

  lemma NoReport(titles: seq<string>, times: seq<(nat, nat)>)
    requires |titles| == |times| == 0
    ensures Report(titles, times) == []
  {
  }

  lemma ReportReads(titles: seq<string>, times: seq<(nat, nat)>)
    requires |titles| == |times| && forall i | 0 <= i < |times| :: times[i].0 < TOP && times[i].1 < TOP
    ensures |Report(titles, times)| == 2 * |times|
    ensures forall i | 0 <= i < |times| ::
              Report(titles, times)[2 * i] == titles[i] && Shows(Report(titles, times)[2 * i + 1], times[i])
  {
    hide RunLine, Report, Shows;
    if times != [] {
      forall i | 0 <= i < |times|
        ensures |Report(titles, times)| == 2 * |times|
        ensures Report(titles, times)[2 * i] == titles[i] && Shows(Report(titles, times)[2 * i + 1], times[i])
      {
        ReportAt(titles, times, i);
        RunLineShows(times[i]);
      }
      ReportAt(titles, times, 0);
    } else {
      NoReport(titles, times);
    }
  }

  /** What the template holds after runs at these times. */
  function LastShown(times: seq<(nat, nat)>, before: string): string {
    if times == [] then before else RunLine(times[|times| - 1]) + [NUL]
  }

  lemma LastShownIs(times: seq<(nat, nat)>, time: (nat, nat), before: string)
    ensures LastShown([], before) == before
    ensures LastShown(times + [time], before) == RunLine(time) + [NUL]
  {
  }

  // ---- The program's sequence of runs ----

  const NEWLINE := "\n"
  const SETRESUID := "[ ] setresuid:\t "

  /** The title of test j, whose digit is written into the template. */
  function Title(j: nat, name: string): string
    requires j < 4
  {
    "[" + [(49 + j) as char] + "] " + name + ":\t "
  }

  function Round(times: seq<(nat, nat)>, j: nat): seq<string>
    requires j < 4 && |times| == 13
  {
    [Title(j, "newfstatat"), RunLine(times[3 * j + 1]),
     Title(j, "faccessat"), RunLine(times[3 * j + 2]),
     Title(j, "execve"), RunLine(times[3 * j + 3]),
     NEWLINE]
  }

  function Rounds(times: seq<(nat, nat)>, n: nat): seq<string>
    requires n <= 4 && |times| == 13
  {
    if n == 0 then [] else Rounds(times, n - 1) + Round(times, n - 1)
  }

  /** Everything written from the first newline on. */
  function Suite(times: seq<(nat, nat)>): seq<string>
    requires |times| == 13
  {
    [NEWLINE, SETRESUID, RunLine(times[0]), NEWLINE] + Rounds(times, 4)
  }

  lemma RoundLength(times: seq<(nat, nat)>, j: nat)
    requires j < 4 && |times| == 13
    ensures |Round(times, j)| == 7
  {
  }

  lemma {:induction false} RoundsAt(times: seq<(nat, nat)>, n: nat, j: nat)
    requires j < n <= 4 && |times| == 13
    ensures |Rounds(times, n)| == 7 * n && Rounds(times, n)[7 * j..7 * j + 7] == Round(times, j)
  {
    hide Round;
    RoundLength(times, n - 1);
    if j < n - 1 {
      RoundsAt(times, n - 1, j);
      assert Rounds(times, n)[7 * j..7 * j + 7] == Rounds(times, n - 1)[7 * j..7 * j + 7];
    } else if n > 1 {
      RoundsAt(times, n - 1, 0);
    }
  }

  /** The seven strings of a round, to the letter. */
  ghost predicate RoundReads(w: seq<string>, times: seq<(nat, nat)>, j: nat)
    requires |times| == 13 && forall n | 0 <= n < 13 :: times[n].0 < TOP && times[n].1 < TOP
    requires j < 4
  {
    && |w| == 7
    && w[0] == "[" + ["1234"[j]] + "] newfstatat:\t " && Shows(w[1], times[3 * j + 1])
    && w[2] == "[" + ["1234"[j]] + "] faccessat:\t " && Shows(w[3], times[3 * j + 2])
    && w[4] == "[" + ["1234"[j]] + "] execve:\t " && Shows(w[5], times[3 * j + 3])
    && w[6] == "\n"
  }

  lemma RoundIsRead(times: seq<(nat, nat)>, j: nat)
    requires |times| == 13 && forall n | 0 <= n < 13 :: times[n].0 < TOP && times[n].1 < TOP
    requires j < 4
    ensures RoundReads(Round(times, j), times, j)
  {
    hide RunLine, Shows;
    RunLineShows(times[3 * j + 1]);
    RunLineShows(times[3 * j + 2]);
    RunLineShows(times[3 * j + 3]);
    assert (49 + j) as char == "1234"[j];
  }

  /** The whole output: newline, the setresuid run, newline, and the four rounds of seven strings. */
  lemma SuiteReads(times: seq<(nat, nat)>)
    requires |times| == 13 && forall n | 0 <= n < 13 :: times[n].0 < TOP && times[n].1 < TOP
    ensures var w := Suite(times);
            && |w| == 32 && w[0] == "\n" && w[1] == "[ ] setresuid:\t " && Shows(w[2], times[0]) && w[3] == "\n"
            && RoundReads(w[4..11], times, 0) && RoundReads(w[11..18], times, 1)
            && RoundReads(w[18..25], times, 2) && RoundReads(w[25..32], times, 3)
  {
    hide RunLine, Shows, Round, Rounds, RoundReads;
    RunLineShows(times[0]);
    forall j: nat | j < 4
      ensures |Rounds(times, 4)| == 28 && RoundReads(Suite(times)[4 + 7 * j..11 + 7 * j], times, j)
    {
      RoundsAt(times, 4, j);
      RoundIsRead(times, j);
      assert Suite(times)[4 + 7 * j..11 + 7 * j] == Rounds(times, 4)[7 * j..7 * j + 7];
    }
    assert |Rounds(times, 4)| == 28 by {
      RoundsAt(times, 4, 0);
    }
    assert RoundReads(Suite(times)[4 + 7 * 0..11 + 7 * 0], times, 0);
    assert RoundReads(Suite(times)[4 + 7 * 1..11 + 7 * 1], times, 1);
    assert RoundReads(Suite(times)[4 + 7 * 2..11 + 7 * 2], times, 2);
    assert RoundReads(Suite(times)[4 + 7 * 3..11 + 7 * 3], times, 3);
  }

  lemma TitlesPlain()
    ensures NUL !in SETRESUID
    ensures NUL !in Title(0, "newfstatat") && NUL !in Title(0, "faccessat") && NUL !in Title(0, "execve")
  {
  }

  method NewTemplate(text: string) returns (a: array<char>)
    requires NUL !in text
    ensures fresh(a) && a[..] == text + [NUL]
  {
    a := new char[|text| + 1](i requires 0 <= i < |text| + 1 => if i < |text| then text[i] else NUL);
  }

  lemma TemplateText(a: seq<char>, text: string)
    requires a == text + [NUL] && NUL !in text
    ensures Terminated(a, NUL) && Text(a, NUL) == text
  {
    assert a[|text|] == NUL;
    assert forall i | 0 <= i < |text| :: a[i] == text[i];
    assert a[..|text|] == text;
    TextIs(a, NUL, |text|);
  }

  /** Overwriting the digit of a title gives the title of another test. */
  lemma Retitled(a: seq<char>, i: nat, j: nat, name: string)
    requires i < 4 && j < 4 && a == Title(i, name) + [NUL]
    ensures |a| > 1 && a[1 := (49 + j) as char] == Title(j, name) + [NUL]
  {
  }

  /** Writes the digit of test j into a title. */
  method SetTitle(a: array<char>, ghost i: nat, j: nat, ghost name: string)
    requires i < 4 && j < 4 && a[..] == Title(i, name) + [NUL] && NUL !in name
    modifies a
    ensures a[..] == Title(j, name) + [NUL]
    ensures Terminated(a[..], NUL) && Text(a[..], NUL) == Title(j, name)
  {
    Retitled(a[..], i, j, name);
    a[1] := (49 + j) as char;
    TemplateText(a[..], Title(j, name));
  }

  /** The three titles of a round. */
  method SetTitles(ghost i: nat, j: nat, newfstatat: array<char>, faccessat: array<char>, execve: array<char>)
    requires i < 4 && j < 4 && newfstatat != faccessat && newfstatat != execve && faccessat != execve
    requires newfstatat[..] == Title(i, "newfstatat") + [NUL]
    requires faccessat[..] == Title(i, "faccessat") + [NUL]
    requires execve[..] == Title(i, "execve") + [NUL]
    modifies newfstatat, faccessat, execve
    ensures newfstatat[..] == Title(j, "newfstatat") + [NUL]
    ensures faccessat[..] == Title(j, "faccessat") + [NUL]
    ensures execve[..] == Title(j, "execve") + [NUL]
    ensures Terminated(newfstatat[..], NUL) && Text(newfstatat[..], NUL) == Title(j, "newfstatat")
    ensures Terminated(faccessat[..], NUL) && Text(faccessat[..], NUL) == Title(j, "faccessat")
    ensures Terminated(execve[..], NUL) && Text(execve[..], NUL) == Title(j, "execve")
  {
    hide Text, Terminated, Title;
    SetTitle(newfstatat, i, j, "newfstatat");
    SetTitle(faccessat, i, j, "faccessat");
    SetTitle(execve, i, j, "execve");
  }

  /** One template line, overwritten by every run; `out` is what has been written so far. */
  class Bench {
    const result: array<char>
    var out: seq<string>

    /** The line holds some seven digits and is otherwise untouched. */
    ghost predicate Valid()
      reads result
    {
      exists d: string :: |d| == 7 && AllDigits(d) && result[..] == Line(d) + [NUL]
    }

    constructor ()
      ensures Valid() && fresh(result) && out == []
      ensures result[..] == Line("0000000") + [NUL]
    {
      var text := "(0000000 ns avg)\n\0";
      result := new char[18](i requires 0 <= i < 18 => text[i]);
      out := [];
      new;
      assert text == Line("0000000") + [NUL];
      assert result[..] == text;
    }

    method PrintOut(str: array<char>)
      requires Terminated(str[..], NUL)
      modifies this`out
      ensures out == old(out) + [Text(str[..], NUL)]
    {
      var n := StrLen(str, NUL);
      assert str[..n] == Text(str[..], NUL);
      out := out + [str[..n]];
    }

    /** One run, its title read from a template of its own. */
    method RunBench(template: array<char>, time: (nat, nat))
      requires Valid() && time.0 < TOP && time.1 < TOP
      requires template != result && Terminated(template[..], NUL)
      modifies this`out, result
      ensures Valid()
      ensures result[..] == RunLine(time) + [NUL]
      ensures out == old(out) + [Text(template[..], NUL), RunLine(time)]
      ensures var line := result[..];
              && |line| == 18 && line[..1] == "(" && line[8..] == " ns avg)\n\0" && AllDigits(line[1..8])
              && (time.0 <= time.1 ==>
                    Value(line[1..8], 10) == (time.1 - time.0) / 1_000_000 % 10_000_000)
              && (time.0 > time.1 ==>
                    Value(line[1..8], 10) == (time.1 + 0x1_0000_0000_0000_0000 - time.0) / 1_000_000 % 10_000_000)
    {
      hide Line, Digits, Text, Average;
      ghost var d: string :| |d| == 7 && AllDigits(d) && result[..] == Line(d) + [NUL];
      ghost var digits := Digits(Average(time.0, time.1), 7);
      DigitsReplaced(d, digits);
      LineLength(digits);
      PrintOut(template);
      LongToStr(Average(time.0, time.1), 7, result, 1);
      PrintOut(result);
      TemplateReads(result[..], time);
    }

    /** Any sequence of runs: every line written is the run's own average, whatever the runs before left in the
        shared template. */
    method RunAll(runs: seq<Run>) returns (ghost titles: seq<string>, ghost times: seq<(nat, nat)>)
      requires Valid() && forall i | 0 <= i < |runs| :: runs[i].time.0 < TOP && runs[i].time.1 < TOP
      requires forall i | 0 <= i < |runs| :: runs[i].title != result && Terminated(runs[i].title[..], NUL)
      modifies this`out, result
      ensures Valid()
      ensures |titles| == |times| == |runs|
      ensures forall i | 0 <= i < |runs| :: titles[i] == Text(runs[i].title[..], NUL) && times[i] == runs[i].time
      ensures out == old(out) + Report(titles, times)
      ensures |out| == |old(out)| + 2 * |runs|
      ensures forall i | 0 <= i < |runs| ::
                && out[|old(out)| + 2 * i] == Text(runs[i].title[..], NUL)
                && Shows(out[|old(out)| + 2 * i + 1], runs[i].time)
      ensures result[..] == LastShown(times, old(result[..]))
    {
      hide Valid, RunLine, Text, Terminated, Shows, Report, LastShown;
      titles, times := [], [];
      NoReport(titles, times);
      LastShownIs([], (0, 0), result[..]);
      var i := 0;
      while i < |runs|
        invariant 0 <= i <= |runs| && |titles| == |times| == i
        invariant Valid()
        invariant forall j | 0 <= j < |runs| :: Terminated(runs[j].title[..], NUL)
        invariant forall j | 0 <= j < i :: titles[j] == Text(runs[j].title[..], NUL) && times[j] == runs[j].time
        invariant out == old(out) + Report(titles, times)
        invariant result[..] == LastShown(times, old(result[..]))
      {
        ghost var title, time := Text(runs[i].title[..], NUL), runs[i].time;
        label before:
        RunBench(runs[i].title, runs[i].time);
        assert forall j | 0 <= j < |runs| :: runs[j].title[..] == old@before(runs[j].title[..]);
        ReportGrows(titles, times, title, time);
        LastShownIs(times, time, old(result[..]));
        titles, times := titles + [title], times + [time];
        i := i + 1;
      }
      ReportReads(titles, times);
    }

    /** Round j of the program: the three titles are renumbered in place and their tests run. */
    method RunRound(times: seq<(nat, nat)>, ghost i: nat, j: nat,
                    newfstatat: array<char>, faccessat: array<char>, execve: array<char>)
      requires Valid() && |times| == 13 && forall n | 0 <= n < 13 :: times[n].0 < TOP && times[n].1 < TOP
      requires i < 4 && j < 4 && result !in {newfstatat, faccessat, execve}
      requires newfstatat != faccessat && newfstatat != execve && faccessat != execve
      requires newfstatat[..] == Title(i, "newfstatat") + [NUL]
      requires faccessat[..] == Title(i, "faccessat") + [NUL]
      requires execve[..] == Title(i, "execve") + [NUL]
      modifies this`out, result, newfstatat, faccessat, execve
      ensures Valid() && out == old(out) + Round(times, j)
      ensures newfstatat[..] == Title(j, "newfstatat") + [NUL]
      ensures faccessat[..] == Title(j, "faccessat") + [NUL]
      ensures execve[..] == Title(j, "execve") + [NUL]
    {
      hide Valid, RunLine, Text, Terminated, Title;
      SetTitles(i, j, newfstatat, faccessat, execve);
      RunBench(newfstatat, times[3 * j + 1]);
      RunBench(faccessat, times[3 * j + 2]);
      RunBench(execve, times[3 * j + 3]);
      out := out + [NEWLINE];
    }

    /** The opening run. */
    method RunSetresuid(time: (nat, nat))
      requires Valid() && time.0 < TOP && time.1 < TOP
      modifies this`out, result
      ensures Valid() && out == old(out) + [NEWLINE, SETRESUID, RunLine(time), NEWLINE]
    {
      hide Valid, RunLine, Text, Terminated, Title;
      TitlesPlain();
      var setresuid := NewTemplate(SETRESUID);
      TemplateText(setresuid[..], SETRESUID);
      out := out + [NEWLINE];
      RunBench(setresuid, time);
      out := out + [NEWLINE];
    }

    /** The program's own sequence: setresuid, then four rounds of three tests. */
    method RunSuite(times: seq<(nat, nat)>)
      requires Valid() && |times| == 13 && forall n | 0 <= n < 13 :: times[n].0 < TOP && times[n].1 < TOP
      modifies this`out, result
      ensures Valid()
      ensures out == old(out) + Suite(times)
      ensures |out| == |old(out)| + 32
      ensures var w := out[|old(out)|..];
              && w[0] == "\n" && w[1] == "[ ] setresuid:\t " && Shows(w[2], times[0]) && w[3] == "\n"
              && RoundReads(w[4..11], times, 0) && RoundReads(w[11..18], times, 1)
              && RoundReads(w[18..25], times, 2) && RoundReads(w[25..32], times, 3)
    {
      hide Valid, RunLine, Text, Terminated, Title, Round, Shows, RoundReads;
      RunSetresuid(times[0]);
      TitlesPlain();
      var newfstatat := NewTemplate(Title(0, "newfstatat"));
      var faccessat := NewTemplate(Title(0, "faccessat"));
      var execve := NewTemplate(Title(0, "execve"));
      ghost var shown := 0;
      var j := 0;
      while j < 4
        invariant 0 <= j <= 4 && 0 <= shown < 4 && Valid()
        invariant newfstatat[..] == Title(shown, "newfstatat") + [NUL]
        invariant faccessat[..] == Title(shown, "faccessat") + [NUL]
        invariant execve[..] == Title(shown, "execve") + [NUL]
        invariant out == old(out) + [NEWLINE, SETRESUID, RunLine(times[0]), NEWLINE] + Rounds(times, j)
      {
        RunRound(times, shown, j, newfstatat, faccessat, execve);
        shown, j := j, j + 1;
      }
      SuiteReads(times);
      assert out[|old(out)|..] == Suite(times);
    }
  }
}
