/** `parse_validation_output` (agents/reporting.py): reads a summary line
    such as "4 tests, 3 passed, 0 warnings, 1 failure, 0 exceptions" out of
    conftest's output. Only the first line that mentions both
    `tests,` and `passed` is looked at; ANSI colour escapes are removed
    from it and its first five digit runs become the five counts. Anything
    else gives all zeros. */
module ValidationOutput {
  import opened Strings

  datatype TestSummary = TestSummary(totalTests: nat, passed: nat, warnings: nat, failures: nat, exceptions: nat)

  const Zero: TestSummary := TestSummary(0, 0, 0, 0, 0)

  const Esc: char := '\U{1B}'

  /** The line filter of the loop. */
  predicate IsSummaryLine(line: string) {
    Contains(line, "tests,") && Contains(line, "passed")
  }

  // ---------------------------------------------------------------------
  // re.sub(r'\x1b\[[0-9;]*m', '', line)

  predicate IsParam(c: char) {
    IsDigit(c) || c == ';'
  }

  /** The length of the leading run of `[0-9;]`. */
  function ParamLen(s: string): (n: nat)
    ensures n <= |s|
    ensures forall i :: 0 <= i < n ==> IsParam(s[i])
    ensures n < |s| ==> !IsParam(s[n])
    decreases |s|
  {
    if |s| > 0 && IsParam(s[0]) then 1 + ParamLen(s[1..]) else 0
  }

  /** An escape sequence `ESC [ <params> m` starts `s`, and this is its
      length. */
  predicate EscapeAt(s: string) {
    |s| >= 2 && s[0] == Esc && s[1] == '[' && 2 + ParamLen(s[2..]) < |s| && s[2 + ParamLen(s[2..])] == 'm'
  }

  /** The substitution, scanning left to right: a complete escape sequence
      is dropped, any other character kept. */
  function StripAnsi(s: string): (r: string)
    ensures |r| <= |s|
    ensures forall i :: 0 <= i < |r| ==> r[i] in s
    decreases |s|
  {
    if |s| == 0 then []
    else if EscapeAt(s) then
      var rest := s[3 + ParamLen(s[2..])..];
      assert forall c :: c in rest ==> c in s;
      StripAnsi(rest)
    else
      assert forall c :: c in s[1..] ==> c in s;
      [s[0]] + StripAnsi(s[1..])
  }

  /** `ESC [ code m`: a Select Graphic Rendition sequence (a colour). */
  function Sgr(code: string): string {
    [Esc, '['] + code + "m"
  }

  predicate IsCode(code: string) {
    forall i :: 0 <= i < |code| ==> IsParam(code[i])
  }

  lemma {:induction false} StripAnsiNoEscape(s: string)
    requires Esc !in s
    ensures StripAnsi(s) == s
    decreases |s|
  {
    if |s| > 0 {
      StripAnsiNoEscape(s[1..]);
    }
  }

  lemma {:induction false} StripAnsiKeepsPlainPrefix(s: string, t: string)
    requires Esc !in s
    ensures StripAnsi(s + t) == s + StripAnsi(t)
    decreases |s|
  {
    if |s| > 0 {
      assert (s + t)[1..] == s[1..] + t;
      StripAnsiKeepsPlainPrefix(s[1..], t);
    } else {
      assert s + t == t;
    }
  }

  lemma StripAnsiDropsSgr(code: string, t: string)
    requires IsCode(code)
    ensures StripAnsi(Sgr(code) + t) == StripAnsi(t)
  {
    var s := Sgr(code) + t;
    assert s[2..] == code + "m" + t;
    assert ParamLen(s[2..]) == |code| by {
      ParamLenOf(code, "m" + t);
      assert s[2..] == code + ("m" + t);
    }
    assert s[3 + |code|..] == t;
  }

  lemma {:induction false} ParamLenOf(code: string, rest: string)
    requires IsCode(code) && |rest| > 0 && !IsParam(rest[0])
    ensures ParamLen(code + rest) == |code|
    decreases |code|
  {
    if |code| > 0 {
      assert (code + rest)[1..] == code[1..] + rest;
      ParamLenOf(code[1..], rest);
    } else {
      assert code + rest == rest;
    }
  }

  // ---------------------------------------------------------------------
  // re.findall(r'\d+', clean_line)

  /** The length of the leading run of digits. */
  function DigitRunLen(s: string): (n: nat)
    ensures n <= |s|
    ensures forall i :: 0 <= i < n ==> IsDigit(s[i])
    ensures n < |s| ==> !IsDigit(s[n])
    decreases |s|
  {
    if |s| > 0 && IsDigit(s[0]) then 1 + DigitRunLen(s[1..]) else 0
  }

  /** The numbers of the maximal digit runs of `s`, left to right. */
  function DigitRuns(s: string): (r: seq<nat>)
    ensures |r| <= |s|
    ensures r == [] <==> NoDigits(s)
    decreases |s|
  {
    if |s| == 0 then []
    else if IsDigit(s[0]) then
      var n := DigitRunLen(s);
      assert AllDigits(s[..n]);
      [DecimalValue(s[..n])] + DigitRuns(s[n..])
    else
      assert NoDigits(s) <==> NoDigits(s[1..]);
      DigitRuns(s[1..])
  }

  predicate NoDigits(s: string) {
    forall i :: 0 <= i < |s| ==> !IsDigit(s[i])
  }

  lemma {:induction false} DigitRunLenOf(d: string, w: string)
    requires AllDigits(d) && (w == [] || !IsDigit(w[0]))
    ensures DigitRunLen(d + w) == |d|
    decreases |d|
  {
    if |d| > 0 {
      assert (d + w)[1..] == d[1..] + w;
      DigitRunLenOf(d[1..], w);
    } else {
      assert d + w == w;
    }
  }

  /** A number followed by digit-free text yields that number alone. */
  lemma NumberThenWords(n: nat, w: string)
    requires NoDigits(w)
    ensures DigitRuns(NatToString(n) + w) == [n]
  {
    var d := NatToString(n);
    var s := d + w;
    DigitRunLenOf(d, w);
    assert s[..|d|] == d && s[|d|..] == w;
    DecimalValueOfNatToString(n);
  }

  /** A non-digit at the end of `a` separates its runs from those of `b`. */
  lemma {:induction false} DigitRunsAppend(a: string, b: string)
    requires |a| > 0 && !IsDigit(a[|a| - 1])
    ensures DigitRuns(a + b) == DigitRuns(a) + DigitRuns(b)
    decreases |a|
  {
    var s := a + b;
    if IsDigit(a[0]) {
      var n := DigitRunLen(a);
      DigitRunLenOf(a[..n], a[n..] + b);
      assert a[..n] + (a[n..] + b) == s;
      assert s[..n] == a[..n];
      assert s[n..] == a[n..] + b;
      DigitRunsAppend(a[n..], b);
    } else if |a| == 1 {
      assert s[1..] == b;
    } else {
      assert s[1..] == a[1..] + b;
      DigitRunsAppend(a[1..], b);
    }
  }

  // ---------------------------------------------------------------------
  // the parser

  /** The counts one candidate line gives: its first five numbers, or all
      zeros when it has fewer. */
  function SummaryOfLine(line: string): (t: TestSummary)
    ensures |DigitRuns(StripAnsi(line))| < 5 ==> t == Zero
    ensures |DigitRuns(StripAnsi(line))| >= 5 ==>
      [t.totalTests, t.passed, t.warnings, t.failures, t.exceptions] == DigitRuns(StripAnsi(line))[..5]
  {
    var numbers := DigitRuns(StripAnsi(line));
    if |numbers| >= 5 then
      FirstFive(numbers);
      TestSummary(numbers[0], numbers[1], numbers[2], numbers[3], numbers[4])
    else Zero
  }

  lemma FirstFive(xs: seq<nat>)
    requires |xs| >= 5
    ensures xs[..5] == [xs[0], xs[1], xs[2], xs[3], xs[4]]
  {
  }

  /** The loop: the first candidate line decides, then the loop breaks. */
  function ScanLines(lines: seq<string>): (r: TestSummary)
    ensures (forall i :: 0 <= i < |lines| ==> !IsSummaryLine(lines[i])) ==> r == Zero
    ensures forall i :: (0 <= i < |lines| && IsSummaryLine(lines[i]) &&
      (forall j :: 0 <= j < i ==> !IsSummaryLine(lines[j]))) ==> r == SummaryOfLine(lines[i])
    decreases |lines|
  {
    if |lines| == 0 then Zero
    else if IsSummaryLine(lines[0]) then SummaryOfLine(lines[0])
    else
      var r := ScanLines(lines[1..]);
      assert forall i :: 1 <= i < |lines| ==> lines[1..][i - 1] == lines[i];
      r
  }

  /** The lines the loop walks: the stripped output split at newlines. */
  function OutputLines(output: string): seq<string> {
    Split(Strip(output), '\n')
  }

  /** `parse_validation_output(validation_output)`: the first line of the
      stripped output that holds both `tests,` and `passed` decides the
      counts, and with no such line they are all zero. */
  function ParseValidationOutput(output: string): (t: TestSummary)
    ensures (forall i :: 0 <= i < |OutputLines(output)| ==> !IsSummaryLine(OutputLines(output)[i])) ==> t == Zero
    ensures forall i :: (0 <= i < |OutputLines(output)| && IsSummaryLine(OutputLines(output)[i]) &&
      (forall j :: 0 <= j < i ==> !IsSummaryLine(OutputLines(output)[j]))) ==> t == SummaryOfLine(OutputLines(output)[i])
  {
    ScanLines(OutputLines(output))
  }

  /** Lines after the first candidate are never read. */
  lemma LaterLinesIgnored(a: seq<string>, b: seq<string>, i: nat)
    requires i < |a| && IsSummaryLine(a[i])
    ensures ScanLines(a + b) == ScanLines(a)
  {
    var k :| 0 <= k <= i && IsSummaryLine(a[k]) && forall j :: 0 <= j < k ==> !IsSummaryLine(a[j]) by {
      FirstCandidate(a, i);
    }
    assert (a + b)[k] == a[k];
    assert forall j :: 0 <= j < k ==> (a + b)[j] == a[j];
  }

  lemma {:induction false} FirstCandidate(a: seq<string>, i: nat)
    requires i < |a| && IsSummaryLine(a[i])
    ensures exists k :: 0 <= k <= i && IsSummaryLine(a[k]) && forall j :: 0 <= j < k ==> !IsSummaryLine(a[j])
    decreases i
  {
    if exists j :: 0 <= j < i && IsSummaryLine(a[j]) {
      var j :| 0 <= j < i && IsSummaryLine(a[j]);
      FirstCandidate(a, j);
    }
  }

  // ---------------------------------------------------------------------
  // the summary-line format the unit tests use

  /** `word` after a count, with the plural `s` unless the count is 1. */
  function Noun(n: nat, word: string): string {
    if n == 1 then word else word + "s"
  }

  /** A count and the words that follow it. */
  function Tally(n: nat, words: string): string {
    NatToString(n) + words
  }

  /** A summary line in the format of the unit tests' fixtures
      (tests/unit-tests.py:71-120), e.g. "1 tests, 0 passed, 0 warnings, 1
      failure, 0 exceptions": `tests` stays plural, the last three nouns
      drop their `s` for a count of one. */
  function FormatSummary(t: TestSummary): string {
    Tally(t.totalTests, " tests, ") +
    (Tally(t.passed, " passed, ") +
    (Tally(t.warnings, " " + Noun(t.warnings, "warning") + ", ") +
    (Tally(t.failures, " " + Noun(t.failures, "failure") + ", ") +
     Tally(t.exceptions, " " + Noun(t.exceptions, "exception")))))
  }

  /** A count followed by non-empty digit-free words yields the count alone,
      and ends in a non-digit. */
  lemma TallyRuns(n: nat, words: string)
    requires |words| > 0 && NoDigits(words)
    ensures DigitRuns(Tally(n, words)) == [n]
    ensures EndsInNonDigit(Tally(n, words))
  {
    NumberThenWords(n, words);
  }

  lemma SummaryWordsHaveNoDigits()
    ensures NoDigits(" tests, ") && NoDigits(" passed, ")
    ensures NoDigits("warning") && NoDigits("failure") && NoDigits("exception")
  {
  }

  lemma NounWords(n: nat, word: string)
    requires NoDigits(word)
    ensures NoDigits(" " + Noun(n, word))
    ensures NoDigits(" " + Noun(n, word) + ", ")
  {
  }

  /** The five counts are the five digit runs of the line, in order. */
  lemma FormatSummaryRuns(t: TestSummary)
    ensures DigitRuns(FormatSummary(t)) == [t.totalTests, t.passed, t.warnings, t.failures, t.exceptions]
  {
    var w3 := " " + Noun(t.warnings, "warning") + ", ";
    var w4 := " " + Noun(t.failures, "failure") + ", ";
    var w5 := " " + Noun(t.exceptions, "exception");
    SummaryWordsHaveNoDigits();
    NounWords(t.warnings, "warning");
    NounWords(t.failures, "failure");
    NounWords(t.exceptions, "exception");
    var p1, p2, p3, p4, p5 :=
      Tally(t.totalTests, " tests, "), Tally(t.passed, " passed, "), Tally(t.warnings, w3),
      Tally(t.failures, w4), Tally(t.exceptions, w5);
    TallyRuns(t.totalTests, " tests, ");
    TallyRuns(t.passed, " passed, ");
    TallyRuns(t.warnings, w3);
    TallyRuns(t.failures, w4);
    TallyRuns(t.exceptions, w5);
    FiveRuns(p1, p2, p3, p4, p5, t.totalTests, t.passed, t.warnings, t.failures, t.exceptions);
    assert FormatSummary(t) == p1 + (p2 + (p3 + (p4 + p5)));
  }

  predicate EndsInNonDigit(s: string) {
    |s| > 0 && !IsDigit(s[|s| - 1])
  }

  lemma FiveRuns(p1: string, p2: string, p3: string, p4: string, p5: string, a: nat, b: nat, c: nat, d: nat, e: nat)
    requires DigitRuns(p1) == [a] && DigitRuns(p2) == [b] && DigitRuns(p3) == [c]
    requires DigitRuns(p4) == [d] && DigitRuns(p5) == [e]
    requires EndsInNonDigit(p1) && EndsInNonDigit(p2) && EndsInNonDigit(p3) && EndsInNonDigit(p4)
    ensures DigitRuns(p1 + (p2 + (p3 + (p4 + p5)))) == [a, b, c, d, e]
  {
    DigitRunsAppend(p4, p5);
    DigitRunsAppend(p3, p4 + p5);
    DigitRunsAppend(p2, p3 + (p4 + p5));
    DigitRunsAppend(p1, p2 + (p3 + (p4 + p5)));
    FiveSingletons(a, b, c, d, e);
  }

  lemma FiveSingletons(a: nat, b: nat, c: nat, d: nat, e: nat)
    ensures [a] + ([b] + ([c] + ([d] + [e]))) == [a, b, c, d, e]
  {
  }

  // ---------------------------------------------------------------------
  // round trips

  /** Printable ASCII: no escape character, no line break. */
  predicate Printable(s: string) {
    forall i :: 0 <= i < |s| ==> ' ' <= s[i] <= '~'
  }

  lemma PrintableConcat(a: string, b: string)
    requires Printable(a) && Printable(b)
    ensures Printable(a + b)
  {
  }

  lemma PrintableTally(n: nat, words: string)
    requires Printable(words)
    ensures Printable(Tally(n, words))
  {
    var d := NatToString(n);
    assert forall i :: 0 <= i < |d| ==> IsDigit(d[i]);
    PrintableConcat(d, words);
  }

  lemma SummaryWordsArePrintable(t: TestSummary)
    ensures Printable(" tests, ") && Printable(" passed, ")
    ensures Printable(" " + Noun(t.warnings, "warning") + ", ")
    ensures Printable(" " + Noun(t.failures, "failure") + ", ")
    ensures Printable(" " + Noun(t.exceptions, "exception"))
  {
  }

  lemma FivePrintable(p1: string, p2: string, p3: string, p4: string, p5: string)
    requires Printable(p1) && Printable(p2) && Printable(p3) && Printable(p4) && Printable(p5)
    ensures Printable(p1 + (p2 + (p3 + (p4 + p5))))
  {
    PrintableConcat(p4, p5);
    PrintableConcat(p3, p4 + p5);
    PrintableConcat(p2, p3 + (p4 + p5));
    PrintableConcat(p1, p2 + (p3 + (p4 + p5)));
  }

  /** The summary line is printable: no escape, no line break. */
  lemma FormatSummaryPrintable(t: TestSummary)
    ensures Printable(FormatSummary(t))
  {
    var w3 := " " + Noun(t.warnings, "warning") + ", ";
    var w4 := " " + Noun(t.failures, "failure") + ", ";
    var w5 := " " + Noun(t.exceptions, "exception");
    SummaryWordsArePrintable(t);
    PrintableTally(t.totalTests, " tests, ");
    PrintableTally(t.passed, " passed, ");
    PrintableTally(t.warnings, w3);
    PrintableTally(t.failures, w4);
    PrintableTally(t.exceptions, w5);
    FivePrintable(Tally(t.totalTests, " tests, "), Tally(t.passed, " passed, "), Tally(t.warnings, w3),
      Tally(t.failures, w4), Tally(t.exceptions, w5));
  }

  lemma FiveEnds(p1: string, p2: string, p3: string, p4: string, p5: string)
    requires |p1| > 0 && |p5| > 0
    ensures var s := p1 + (p2 + (p3 + (p4 + p5)));
      s[0] == p1[0] && s[|s| - 1] == p5[|p5| - 1]
  {
  }

  /** The summary line has no outer whitespace: it starts with a digit and
      ends with a letter. */
  lemma FormatSummaryStripped(t: TestSummary)
    ensures IsStripped(FormatSummary(t))
  {
    var w5 := " " + Noun(t.exceptions, "exception");
    var p1 := Tally(t.totalTests, " tests, ");
    var p5 := Tally(t.exceptions, w5);
    FiveEnds(p1, Tally(t.passed, " passed, "), Tally(t.warnings, " " + Noun(t.warnings, "warning") + ", "),
      Tally(t.failures, " " + Noun(t.failures, "failure") + ", "), p5);
    assert p1[0] == NatToString(t.totalTests)[0];
    assert p5[|p5| - 1] == w5[|w5| - 1];
  }

  /** The summary line passes the loop's filter. */
  lemma FormatSummaryIsCandidate(t: TestSummary)
    ensures IsSummaryLine(FormatSummary(t))
  {
    var line := FormatSummary(t);
    var d1, d2 := NatToString(t.totalTests), NatToString(t.passed);
    var rest := Tally(t.warnings, " " + Noun(t.warnings, "warning") + ", ") +
      (Tally(t.failures, " " + Noun(t.failures, "failure") + ", ") +
       Tally(t.exceptions, " " + Noun(t.exceptions, "exception")));
    assert line == d1 + " tests, " + (d2 + " passed, " + rest);
    SummaryWordsContainKeys();
    BothInside(d1, " tests, ", d2, " passed, ", rest, "tests,", "passed");
  }

  lemma BothInside(d1: string, w1: string, d2: string, w2: string, rest: string, x: string, y: string)
    requires Contains(w1, x) && Contains(w2, y)
    ensures Contains(d1 + w1 + (d2 + w2 + rest), x) && Contains(d1 + w1 + (d2 + w2 + rest), y)
  {
    ContainsWithin(w1, x, d1, d2 + w2 + rest);
    assert d1 + w1 + (d2 + w2 + rest) == (d1 + w1 + d2) + w2 + rest;
    ContainsWithin(w2, y, d1 + w1 + d2, rest);
  }

  lemma SummaryWordsContainKeys()
    ensures Contains(" tests, ", "tests,") && Contains(" passed, ", "passed")
  {
    assert OccursAt(" tests, ", "tests,", 1);
    assert OccursAt(" passed, ", "passed", 1);
  }

  /** The counts read from the summary line are the ones printed. */
  lemma SummaryOfFormat(t: TestSummary)
    ensures SummaryOfLine(FormatSummary(t)) == t
  {
    var line := FormatSummary(t);
    FormatSummaryPrintable(t);
    assert Esc !in line by {
      forall i | 0 <= i < |line| ensures line[i] != Esc { }
    }
    StripAnsiNoEscape(line);
    FormatSummaryRuns(t);
  }

  /** The parser reads back the counts of the summary line. */
  lemma FormatThenParse(t: TestSummary)
    ensures ParseValidationOutput(FormatSummary(t)) == t
  {
    var line := FormatSummary(t);
    FormatSummaryPrintable(t);
    FormatSummaryStripped(t);
    FormatSummaryIsCandidate(t);
    assert '\n' !in line by {
      forall i | 0 <= i < |line| ensures line[i] != '\n' { }
    }
    SplitSingle(line, '\n');
    SummaryOfFormat(t);
  }

  /** A summary line wrapped in a colour and a reset. */
  function Coloured(code: string, line: string): string {
    Sgr(code) + line + Sgr("0")
  }

  /** An escape sequence shares no character with the words the filter
      looks for. */
  lemma SgrDisjoint(code: string, w: string)
    requires IsCode(code)
    requires forall i :: 0 <= i < |w| ==> w[i] != Esc && w[i] != '[' && w[i] != 'm' && !IsParam(w[i])
    ensures Disjoint(Sgr(code), w)
  {
    var s := Sgr(code);
    forall i | 0 <= i < |s| ensures s[i] !in w {
      assert s[i] == Esc || s[i] == '[' || s[i] == 'm' || IsParam(s[i]);
    }
  }

  /** Colouring a line changes neither whether it is the candidate nor the
      counts read from it. */
  lemma ColourIsIgnored(code: string, line: string)
    requires IsCode(code) && Esc !in line
    ensures IsSummaryLine(Coloured(code, line)) <==> IsSummaryLine(line)
    ensures SummaryOfLine(Coloured(code, line)) == SummaryOfLine(line)
  {
    var c := Coloured(code, line);
    assert IsCode("0");
    SgrDisjoint(code, "tests,");
    SgrDisjoint("0", "tests,");
    SgrDisjoint(code, "passed");
    SgrDisjoint("0", "passed");
    ContainsPadded(Sgr(code), line, Sgr("0"), "tests,");
    ContainsPadded(Sgr(code), line, Sgr("0"), "passed");
    assert c == Sgr(code) + (line + Sgr("0"));
    StripAnsiDropsSgr(code, line + Sgr("0"));
    StripAnsiKeepsPlainPrefix(line, Sgr("0"));
    StripAnsiDropsSgr("0", []);
    assert Sgr("0") + [] == Sgr("0");
    assert line + [] == line;
    StripAnsiNoEscape(line);
  }

  /** A coloured line is still one line, without outer whitespace. */
  lemma ColouredShape(code: string, line: string)
    requires IsCode(code) && '\n' !in line
    ensures '\n' !in Coloured(code, line) && IsStripped(Coloured(code, line))
  {
    var c := Coloured(code, line);
    forall i | 0 <= i < |c| ensures c[i] != '\n' {
      assert c[i] == Esc || c[i] == '[' || c[i] == 'm' || IsParam(c[i]) || c[i] in line;
    }
    assert c[0] == Esc && c[|c| - 1] == 'm';
  }

  /** A coloured summary line parses like the plain one. */
  lemma ColouredThenParse(code: string, t: TestSummary)
    requires IsCode(code)
    ensures ParseValidationOutput(Coloured(code, FormatSummary(t))) == t
  {
    var line := FormatSummary(t);
    var c := Coloured(code, line);
    FormatSummaryPrintable(t);
    FormatSummaryIsCandidate(t);
    assert Esc !in line && '\n' !in line by {
      forall i | 0 <= i < |line| ensures line[i] != Esc && line[i] != '\n' { }
    }
    ColourIsIgnored(code, line);
    ColouredShape(code, line);
    SplitSingle(c, '\n');
    SummaryOfFormat(t);
  }
}
