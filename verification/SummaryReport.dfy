/** The linter's summary and its reading back by the build
    (scripts/safe_template_linter.py:500-548, pavelib/quality.py:365-405, 517-546). */
module SummaryReport {
  import opened Text

  // ---------- Decimal numbers ----------

  const DIGITS := "0123456789"

  predicate IsDigit(c: char) {
    '0' <= c <= '9'
  }

  function Decimal(n: nat): (d: string)
    ensures d != "" && forall k :: 0 <= k < |d| ==> IsDigit(d[k])
  {
    if n < 10 then [DIGITS[n]] else Decimal(n / 10) + [DIGITS[n % 10]]
  }

  function DigitValue(c: char): nat
    requires IsDigit(c)
  {
    c as int - '0' as int
  }

  /** int(d). */
  function Value(d: string): nat
    requires forall k :: 0 <= k < |d| ==> IsDigit(d[k])
  {
    if d == "" then 0 else 10 * Value(d[..|d| - 1]) + DigitValue(d[|d| - 1])
  }

  /** Reading a printed number gives the number; there are no leading zeros. */
  lemma {:induction false} DecimalValue(n: nat)
    ensures Value(Decimal(n)) == n && (Decimal(n)[0] == '0' ==> Decimal(n) == "0")
  {
    assert forall k :: 0 <= k < 10 ==> DigitValue(DIGITS[k]) == k;
    if n < 10 {
      assert Decimal(n)[..0] == "";
    } else {
      DecimalValue(n / 10);
      assert Decimal(n)[..|Decimal(n)| - 1] == Decimal(n / 10);
    }
  }

  // ---------- The regular expressions ----------

  predicate IsRuleChar(c: char) {
    'a' <= c <= 'z' || c == '-'
  }

  lemma {:induction false} SpanOf(a: string, b: string, holds: char -> bool)
    requires (forall k :: 0 <= k < |a| ==> holds(a[k])) && (b != "" ==> !holds(b[0]))
    ensures Span(a + b, holds) == |a|
  {
    if a == "" {
      assert a + b == b;
    } else {
      assert (a + b)[1..] == a[1..] + b;
      SpanOf(a[1..], b, holds);
    }
  }

  const VIOLATIONS := " violations"
  const VIOLATIONS_TOTAL := " violations total"

  /** A match of `^(?P<rule_id>[a-z-]+):\s+(?P<count>\d+) violations` and the text after it. */
  datatype Match = Match(ruleId: string, count: nat, rest: string)

  /** A match of the part `\s+(?P<count>\d+) violations` at the beginning of t, and the text after it. */
  datatype Number = Number(count: nat, rest: string)

  function MatchNumber(t: string): (n: Option<Number>)
    ensures n.Some? ==> |n.value.rest| < |t|
  {
    var w := Span(t, IsSpace);
    var v := t[w..];
    var d := Span(v, IsDigit);
    if w == 0 || d == 0 || !(VIOLATIONS <= v[d..]) then None
    else Some(Number(Value(v[..d]), v[d + |VIOLATIONS|..]))
  }

  /** The match at the beginning of t. No class holds the character that must follow it, so each part is as long
      as it can be. */
  function MatchCount(t: string): (m: Option<Match>)
    ensures m.Some? ==> |m.value.rest| < |t|
  {
    var k := Span(t, IsRuleChar);
    if k == 0 || k == |t| || t[k] != ':' then None
    else
      match MatchNumber(t[k + 1..])
      case None => None
      case Some(number) => Some(Match(t[..k], number.count, number.rest))
  }

  /** The next match in t; `lineStart` tells whether t begins at the start of a line. */
  function NextMatch(t: string, lineStart: bool): (m: Option<Match>)
    ensures m.Some? ==> |m.value.rest| < |t|
  {
    if lineStart && MatchCount(t).Some? then MatchCount(t)
    else if t == "" then None
    else NextMatch(t[1..], t[0] == '\n')
  }

  /** The counts by rule id that the matches give, a later one replacing an earlier one. */
  function Counts(t: string, lineStart: bool, sofar: map<string, nat>): map<string, nat>
    decreases |t|
  {
    match NextMatch(t, lineStart)
    case None => sofar
    case Some(m) => Counts(m.rest, false, sofar[m.ruleId := m.count])
  }

  /** The first match of `^(?P<count>\d+) violations total`. */
  function Total(t: string, lineStart: bool): Option<nat>
    decreases |t|
  {
    var d := Span(t, IsDigit);
    if lineStart && d > 0 && VIOLATIONS_TOTAL <= t[d..] then Some(Value(t[..d]))
    else if t == "" then None
    else Total(t[1..], t[0] == '\n')
  }

  /** _get_safelint_counts. */
  method GetSafelintCounts(report: string) returns (rules: map<string, nat>, total: Option<nat>)
    ensures rules == Counts(report, true, map[]) && total == Total(report, true)
  {
    rules := map[];
    var rest, lineStart := report, true;
    while true
      invariant Counts(rest, lineStart, rules) == Counts(report, true, map[])
      decreases |rest|
    {
      var violationMatch := NextMatch(rest, lineStart);
      if violationMatch.None? {
        break;
      }
      rules := rules[violationMatch.value.ruleId := violationMatch.value.count];
      rest, lineStart := violationMatch.value.rest, false;
    }
    total := Total(report, true);
  }

  // ---------- Printing ----------

  /** Rule ids, as the enumeration of rules has them: distinct, and of lower-case letters and dashes. */
  ghost predicate RuleIds(rules: seq<string>) {
    && (forall k :: 0 <= k < |rules| ==> RuleId(rules[k]))
    && (forall j, k :: 0 <= j < k < |rules| ==> rules[j] != rules[k])
  }

  predicate RuleId(rule: string) {
    rule != "" && forall k :: 0 <= k < |rule| ==> IsRuleChar(rule[k])
  }

  function Spaces(n: nat): (s: string)
    ensures |s| == n && forall k :: 0 <= k < n ==> s[k] == ' '
  {
    if n == 0 then "" else " " + Spaces(n - 1)
  }

  function MaxLength(rules: seq<string>): (n: nat)
    ensures forall k :: 0 <= k < |rules| ==> |rules[k]| <= n
    ensures rules != [] ==> exists k :: 0 <= k < |rules| && |rules[k]| == n
  {
    if rules == [] then 0
    else
      var n := MaxLength(rules[..|rules| - 1]);
      if n < |rules[|rules| - 1]| then |rules[|rules| - 1]| else n
  }

  /** The line of one rule, without the line break. */
  function RuleLine(rule: string, width: nat, count: nat): string
    requires |rule| <= width
  {
    rule + (": " + (Spaces(width - |rule|) + (Decimal(count) + VIOLATIONS)))
  }

  /** Lines printed one after the other, before other text. */
  function Printed(lines: seq<string>, after: string): string {
    if lines == [] then after else lines[0] + ("\n" + Printed(lines[1..], after))
  }

  /** The last line. */
  function TotalLine(total: nat): string {
    (Decimal(total) + VIOLATIONS_TOTAL) + ("\n" + "")
  }

  /** The lines with the rule totals, before other text. */
  function RuleTotals(rules: seq<string>, width: nat, totals: map<string, nat>, after: string): string
    requires forall k :: 0 <= k < |rules| ==> |rules[k]| <= width && rules[k] in totals
  {
    if rules == [] then after
    else RuleLine(rules[0], width, totals[rules[0]]) + ("\n" + RuleTotals(rules[1..], width, totals, after))
  }

  /** What SummaryResults.print_results prints with rule totals: an empty line, the totals, and two empty lines
      before the total. */
  function Summary(rules: seq<string>, totals: map<string, nat>, total: nat): string
    requires forall k :: 0 <= k < |rules| ==> rules[k] in totals
  {
    Printed([""], RuleTotals(rules, MaxLength(rules), totals, Printed(["", ""], TotalLine(total))))
  }

  // ---------- The texts that are printed and read ----------

  /** The line reads: the rule, a colon and a space, spaces that fill the rule up to the width, the count in decimal
      and " violations". */
  predicate RuleText(line: string, rule: string, width: nat, count: nat) {
    var fill := width - |rule|;
    && 0 <= fill && rule + ": " <= line && |line| == width + 13 + |Decimal(count)|
    && (forall k :: |rule| + 2 <= k < width + 2 ==> line[k] == ' ')
    && line[width + 2..|line| - 11] == Decimal(count) && line[|line| - 11..] == " violations"
  }

  lemma {:induction false} RuleLineText(rule: string, width: nat, count: nat)
    requires |rule| <= width
    ensures RuleText(RuleLine(rule, width, count), rule, width, count)
  {
    var spaces, digits, line := Spaces(width - |rule|), Decimal(count), RuleLine(rule, width, count);
    var end := digits + " violations";
    assert line == (rule + ": ") + (spaces + end);
    hide Decimal, Spaces;
    assert line[..|rule| + 2] == rule + ": " && line[|rule| + 2..] == spaces + end;
    assert forall k :: |rule| + 2 <= k < width + 2 ==> line[k] == spaces[k - |rule| - 2];
    assert line[width + 2..] == end;
    assert end[..|digits|] == digits && end[|digits|..] == " violations";
  }

  /** The lines read like the rules' totals, one after the other. */
  predicate RuleTexts(lines: seq<string>, rules: seq<string>, width: nat, totals: map<string, nat>) {
    |lines| == |rules|
    && forall k :: 0 <= k < |rules| ==> rules[k] in totals && RuleText(lines[k], rules[k], width, totals[rules[k]])
  }

  lemma {:induction false} RuleTotalsText(rules: seq<string>, width: nat, totals: map<string, nat>, after: string)
    returns (lines: seq<string>)
    requires forall k :: 0 <= k < |rules| ==> |rules[k]| <= width && rules[k] in totals
    ensures RuleTexts(lines, rules, width, totals) && RuleTotals(rules, width, totals, after) == Printed(lines, after)
  {
    hide RuleText, RuleLine;
    if rules == [] {
      lines := [];
    } else {
      var rest := RuleTotalsText(rules[1..], width, totals, after);
      RuleLineText(rules[0], width, totals[rules[0]]);
      lines := [RuleLine(rules[0], width, totals[rules[0]])] + rest;
      assert lines[1..] == rest;
    }
  }

  lemma {:induction false} PrintedBoth(a: seq<string>, b: seq<string>, after: string)
    ensures Printed(a + b, after) == Printed(a, Printed(b, after))
  {
    if a == [] {
      assert a + b == b;
    } else {
      assert (a + b)[1..] == a[1..] + b;
      PrintedBoth(a[1..], b, after);
    }
  }

  /** The summary is these lines: an empty one, one for each rule, as wide as the longest rule demands, two empty ones
      and the total. */
  lemma {:induction false} SummaryText(rules: seq<string>, totals: map<string, nat>, total: nat)
    requires forall k :: 0 <= k < |rules| ==> rules[k] in totals
    ensures exists lines, width: nat ::
      && Summary(rules, totals, total) == Printed([""] + lines + ["", "", Decimal(total) + " violations total"], "")
      && RuleTexts(lines, rules, width, totals)
      && (rules != [] ==> exists k :: 0 <= k < |rules| && |rules[k]| == width)
  {
    hide RuleTexts, RuleTotals, MaxLength, Decimal;
    var last := [Decimal(total) + " violations total"];
    assert TotalLine(total) == Printed(last, "") && ["", ""] + last == ["", "", last[0]];
    var lines := RuleTotalsText(rules, MaxLength(rules), totals, Printed(["", ""], TotalLine(total)));
    hide Printed, TotalLine;
    PrintedBoth(["", ""], last, "");
    PrintedBoth(lines, ["", ""] + last, "");
    PrintedBoth([""], lines + (["", ""] + last), "");
    assert [""] + (lines + (["", ""] + last)) == [""] + lines + ["", "", last[0]];
  }

  predicate AllDigits(d: string) {
    d != "" && forall k :: 0 <= k < |d| ==> '0' <= d[k] <= '9'
  }

  /** The text reads: lower-case letters and hyphens, a colon, white space, digits, " violations", and the rest. */
  predicate CountText(t: string, rule: string, gap: string, digits: string, rest: string) {
    && rule != "" && (forall k :: 0 <= k < |rule| ==> 'a' <= rule[k] <= 'z' || rule[k] == '-')
    && gap != ""
    && (forall k :: 0 <= k < |gap| ==> gap[k] in {' ', '\t', '\n', '\r', '\U{00000b}', '\U{00000c}'})
    && AllDigits(digits) && t == rule + (":" + (gap + (digits + (" violations" + rest))))
  }

  /** What a match of the rules' expression is, at the beginning of a text. */
  lemma {:induction false} MatchCountIff(t: string, m: Match)
    ensures MatchCount(t) == Some(m) <==>
      exists gap, digits ::
        AllDigits(digits) && m.count == Value(digits) && CountText(t, m.ruleId, gap, digits, m.rest)
  {
    hide MatchCount, CountText, Value;
    if gap, digits :| AllDigits(digits) && m.count == Value(digits) && CountText(t, m.ruleId, gap, digits, m.rest) {
      TextIsMatch(t, m.ruleId, gap, digits, m.rest);
    }
    if MatchCount(t) == Some(m) {
      var gap, digits := MatchText(t);
    }
  }

  lemma {:induction false} TextIsMatch(t: string, rule: string, gap: string, digits: string, rest: string)
    requires AllDigits(digits) && CountText(t, rule, gap, digits, rest)
    ensures MatchCount(t) == Some(Match(rule, Value(digits), rest))
  {
    hide MatchCount, Value;
    MatchParts(rule, gap, digits, rest);
  }

  lemma {:induction false} MatchText(t: string) returns (gap: string, digits: string)
    requires MatchCount(t).Some?
    ensures var m := MatchCount(t).value;
      AllDigits(digits) && m.count == Value(digits) && CountText(t, m.ruleId, gap, digits, m.rest)
  {
    var k := MatchColon(t);
    var u, m := t[k + 1..], MatchCount(t).value;
    hide MatchCount, MatchNumber, Value;
    gap, digits := NumberText(u);
    CutText(t, k);
    hide *;
    TextOf(t, m.ruleId, gap, digits, m.rest, u);
  }

  lemma {:induction false} TextOf(t: string, rule: string, gap: string, digits: string, rest: string, u: string)
    requires rule != "" && (forall k :: 0 <= k < |rule| ==> IsRuleChar(rule[k])) && AllDigits(digits)
    requires gap != "" && (forall k :: 0 <= k < |gap| ==> IsSpace(gap[k]))
    requires t == rule + (":" + u) && u == gap + (digits + (" violations" + rest))
    ensures CountText(t, rule, gap, digits, rest)
  {
  }

  /** A match is cut at the colon. */
  lemma {:induction false} MatchColon(t: string) returns (k: nat)
    requires MatchCount(t).Some?
    ensures k < |t| && t[k] == ':' && MatchNumber(t[k + 1..]).Some?
    ensures var m, number := MatchCount(t).value, MatchNumber(t[k + 1..]).value;
      m == Match(t[..k], number.count, number.rest)
    ensures k > 0 && forall i :: 0 <= i < k ==> IsRuleChar(t[i])
  {
    k := Span(t, IsRuleChar);
    hide MatchNumber;
  }

  lemma {:induction false} CutText(t: string, k: nat)
    requires k < |t| && t[k] == ':'
    ensures t == t[..k] + (":" + t[k + 1..])
  {
  }

  lemma {:induction false} NumberText(u: string) returns (gap: string, digits: string)
    requires MatchNumber(u).Some?
    ensures gap != "" && (forall k :: 0 <= k < |gap| ==> IsSpace(gap[k])) && AllDigits(digits)
    ensures u == gap + (digits + (" violations" + MatchNumber(u).value.rest))
    ensures MatchNumber(u).value.count == Value(digits)
  {
    var w := Span(u, IsSpace);
    var v := u[w..];
    var d := Span(v, IsDigit);
    gap, digits := u[..w], v[..d];
    assert v[d..][..|VIOLATIONS|] == VIOLATIONS && v[d..][|VIOLATIONS|..] == v[d + |VIOLATIONS|..];
    assert v[d..] == " violations" + v[d + |VIOLATIONS|..];
    hide Value, Span;
    assert u == gap + v && v == digits + v[d..];
  }

  /** The search finds the first place, at the start of a line, at which the expression matches. */
  lemma {:induction false} NextMatchIsFirst(t: string, lineStart: bool)
    ensures match NextMatch(t, lineStart)
      case None => forall i: nat :: !MatchesAt(t, lineStart, i)
      case Some(m) =>
        exists i: nat :: MatchesAt(t, lineStart, i) && MatchCount(t[i..]) == Some(m)
                         && forall j: nat :: j < i ==> !MatchesAt(t, lineStart, j)
  {
    hide MatchCount;
    assert t[0..] == t;
    if lineStart && MatchCount(t).Some? {
      assert MatchesAt(t, lineStart, 0);
    } else if t == "" {
      EmptyHasNoCount();
    } else {
      var rest, next := t[1..], t[0] == '\n';
      NextMatchIsFirst(rest, next);
      forall i: nat | 0 < i
        ensures MatchesAt(t, lineStart, i) <==> MatchesAt(rest, next, i - 1)
        ensures i <= |t| ==> t[i..] == rest[i - 1..]
      {
      }
      assert !MatchesAt(t, lineStart, 0);
      if NextMatch(t, lineStart).Some? {
        var m := NextMatch(t, lineStart).value;
        var i: nat :| MatchesAt(rest, next, i) && MatchCount(rest[i..]) == Some(m)
                      && forall j: nat :: j < i ==> !MatchesAt(rest, next, j);
        assert MatchesAt(t, lineStart, i + 1);
        forall j: nat | j < i + 1 ensures !MatchesAt(t, lineStart, j) {
          if j > 0 {
            assert !MatchesAt(rest, next, j - 1);
          }
        }
      }
    }
  }

  lemma {:induction false} EmptyHasNoCount()
    ensures MatchCount("").None?
  {
  }

  predicate MatchesAt(t: string, lineStart: bool, i: nat) {
    i <= |t| && (if i == 0 then lineStart else t[i - 1] == '\n') && MatchCount(t[i..]).Some?
  }

  /** The matches that the repeated search finds. */
  function Matches(t: string, lineStart: bool): seq<Match>
    decreases |t|
  {
    match NextMatch(t, lineStart)
    case None => []
    case Some(m) => [m] + Matches(m.rest, false)
  }

  /** A rule has a count if and only if it is matched, and the last of its matches counts. */
  lemma {:induction false} CountsLastMatch(t: string, lineStart: bool, sofar: map<string, nat>, rule: string)
    ensures var counts, matches := Counts(t, lineStart, sofar), Matches(t, lineStart);
      if exists k :: LastOf(matches, rule, k) then
        rule in counts && exists k :: LastOf(matches, rule, k) && counts[rule] == matches[k].count
      else (rule in counts <==> rule in sofar) && (rule in counts ==> counts[rule] == sofar[rule])
    decreases |t|
  {
    hide NextMatch;
    var next := NextMatch(t, lineStart);
    if next.Some? {
      var m := next.value;
      var rest, all := Matches(m.rest, false), Matches(t, lineStart);
      CountsLastMatch(m.rest, false, sofar[m.ruleId := m.count], rule);
      assert all == [m] + rest;
      hide Matches, Counts;
      forall k: int | 0 <= k < |rest| ensures LastOf(rest, rule, k) <==> LastOf(all, rule, k + 1) {
        LastOfNext(m, rest, rule, k);
      }
      if exists k :: LastOf(rest, rule, k) {
        var k :| LastOf(rest, rule, k) && Counts(t, lineStart, sofar)[rule] == rest[k].count;
        assert LastOf(all, rule, k + 1);
      } else {
        NotMatched(rest, rule);
        assert m.ruleId == rule ==> LastOf(all, rule, 0);
        assert forall k :: LastOf(all, rule, k) ==> k == 0;
      }
    }
  }

  predicate LastOf(matches: seq<Match>, rule: string, k: int) {
    0 <= k < |matches| && matches[k].ruleId == rule && forall j :: k < j < |matches| ==> matches[j].ruleId != rule
  }

  lemma {:induction false} LastOfNext(m: Match, rest: seq<Match>, rule: string, k: nat)
    requires k < |rest|
    ensures LastOf(rest, rule, k) <==> LastOf([m] + rest, rule, k + 1)
  {
    var all := [m] + rest;
    assert forall j :: 0 < j < |all| ==> all[j] == rest[j - 1];
    assert forall j :: 0 <= j < |rest| ==> rest[j] == all[j + 1];
  }

  lemma {:induction false} NotMatched(matches: seq<Match>, rule: string)
    requires !exists k :: LastOf(matches, rule, k)
    ensures forall k :: 0 <= k < |matches| ==> matches[k].ruleId != rule
  {
    var k := |matches|;
    while k > 0
      invariant 0 <= k <= |matches|
      invariant forall j :: k <= j < |matches| ==> matches[j].ruleId != rule
    {
      k := k - 1;
      assert !LastOf(matches, rule, k);
    }
  }

  /** From i, the start of a line, the text reads: digits, then " violations total". */
  predicate TotalTextAt(t: string, lineStart: bool, i: nat, digits: string) {
    && i <= |t| && (if i == 0 then lineStart else t[i - 1] == '\n')
    && AllDigits(digits) && StandsAt(t, digits, i) && StandsAt(t, " violations total", i + |digits|)
  }

  /** The number n stands there. */
  ghost predicate ReadsTotal(t: string, lineStart: bool, i: nat, n: nat) {
    exists digits :: TotalTextAt(t, lineStart, i, digits) && n == Value(digits)
  }

  ghost predicate NoneBefore(t: string, lineStart: bool, i: nat) {
    forall j: nat, n: nat :: j < i ==> !ReadsTotal(t, lineStart, j, n)
  }

  /** The total is the number at the first such place. */
  lemma {:induction false} TotalIsFirst(t: string, lineStart: bool)
    ensures match Total(t, lineStart)
      case None => forall i: nat, n: nat :: !ReadsTotal(t, lineStart, i, n)
      case Some(n) =>
        exists i: nat :: ReadsTotal(t, lineStart, i, n) && NoneBefore(t, lineStart, i)
  {
    hide ReadsTotal, Span, Value;
    ReadsTotalHere(t, lineStart);
    if lineStart && Span(t, IsDigit) > 0 && VIOLATIONS_TOTAL <= t[Span(t, IsDigit)..] {
      assert ReadsTotal(t, lineStart, 0, Total(t, lineStart).value) && NoneBefore(t, lineStart, 0);
    } else if t == "" {
      forall i: nat, n: nat | i > 0 ensures !ReadsTotal(t, lineStart, i, n) {
        ReadsInside(t, lineStart, i, n);
      }
    } else {
      var rest, next := t[1..], t[0] == '\n';
      assert Total(t, lineStart) == Total(rest, next);
      hide Total;
      TotalIsFirst(rest, next);
      forall i: nat, n: nat | 0 < i
        ensures ReadsTotal(t, lineStart, i, n) <==> ReadsTotal(rest, next, i - 1, n)
      {
        ReadsTotalLater(t, lineStart, i, n);
      }
      if Total(rest, next).Some? {
        var n := Total(rest, next).value;
        var i: nat :| ReadsTotal(rest, next, i, n) && NoneBefore(rest, next, i);
        assert ReadsTotal(t, lineStart, i + 1, n) && NoneBefore(t, lineStart, i + 1);
      }
    }
  }

  lemma {:induction false} ReadsInside(t: string, lineStart: bool, i: nat, n: nat)
    ensures ReadsTotal(t, lineStart, i, n) ==> i < |t|
  {
    hide Value;
  }

  lemma {:induction false} ReadsTotalHere(t: string, lineStart: bool)
    ensures var d := Span(t, IsDigit);
      if lineStart && d > 0 && VIOLATIONS_TOTAL <= t[d..] then ReadsTotal(t, lineStart, 0, Value(t[..d]))
      else forall n: nat :: !ReadsTotal(t, lineStart, 0, n)
  {
    hide Value;
    forall digits
      ensures TotalTextAt(t, true, 0, digits) <==>
        digits == t[..Span(t, IsDigit)] && digits != "" && VIOLATIONS_TOTAL <= t[Span(t, IsDigit)..]
    {
      TotalTextHere(t, digits);
    }
  }

  lemma {:induction false} ReadsTotalLater(t: string, lineStart: bool, i: nat, n: nat)
    requires t != "" && i > 0
    ensures ReadsTotal(t, lineStart, i, n) <==> ReadsTotal(t[1..], t[0] == '\n', i - 1, n)
  {
    forall digits
      ensures TotalTextAt(t, lineStart, i, digits) <==> TotalTextAt(t[1..], t[0] == '\n', i - 1, digits)
    {
      TotalTextLater(t, lineStart, i, digits);
    }
    hide StandsAt, Value;
  }

  lemma {:induction false} TotalTextHere(t: string, digits: string)
    ensures TotalTextAt(t, true, 0, digits) <==>
      digits == t[..Span(t, IsDigit)] && digits != "" && VIOLATIONS_TOTAL <= t[Span(t, IsDigit)..]
  {
    var d := Span(t, IsDigit);
    if TotalTextAt(t, true, 0, digits) {
      var n := |digits|;
      assert t[..n] == digits && forall k :: 0 <= k < n ==> t[k] == digits[k];
      assert t[n] == t[n..n + 17][0] == ' ';
      SpanIs(t, IsDigit, n);
      assert t[n..][..17] == t[n..n + 17];
    }
    if digits == t[..d] && digits != "" && VIOLATIONS_TOTAL <= t[d..] {
      assert t[d..][..17] == t[d..d + 17];
      assert forall k :: 0 <= k < d ==> IsDigit(t[k]);
    }
  }

  lemma {:induction false} TotalTextLater(t: string, lineStart: bool, i: nat, digits: string)
    requires t != "" && i > 0
    ensures TotalTextAt(t, lineStart, i, digits) <==> TotalTextAt(t[1..], t[0] == '\n', i - 1, digits)
  {
    StandsLater(t, digits, i);
    StandsLater(t, " violations total", i + |digits|);
    hide StandsAt;
  }

  lemma {:induction false} StandsLater(t: string, pat: string, i: nat)
    requires t != "" && i > 0
    ensures StandsAt(t, pat, i) <==> StandsAt(t[1..], pat, i - 1)
  {
    if i + |pat| <= |t| {
      assert t[1..][i - 1..i - 1 + |pat|] == t[i..i + |pat|];
    }
  }

  // ---------- The order of the rules ----------

  /** String comparison. */
  predicate Before(a: string, b: string) {
    b != "" && (a == "" || a[0] < b[0] || (a[0] == b[0] && Before(a[1..], b[1..])))
  }

  function Insert(rule: string, sorted: seq<string>): seq<string> {
    if sorted == [] || Before(rule, sorted[0]) then [rule] + sorted else [sorted[0]] + Insert(rule, sorted[1..])
  }

  /** `sorted(rules)`. */
  function Sorted(rules: seq<string>): seq<string> {
    if rules == [] then [] else Insert(rules[0], Sorted(rules[1..]))
  }

  ghost predicate Ascending(rules: seq<string>) {
    forall j, k :: 0 <= j < k < |rules| ==> Before(rules[j], rules[k])
  }

  /** One string is before another if it is a proper beginning of it, or has the smaller character where they first
      differ. */
  lemma {:induction false} BeforeIff(a: string, b: string)
    ensures Before(a, b) <==> exists n: nat :: FirstDifference(a, b, n)
  {
    if a != "" && b != "" && a[0] == b[0] {
      BeforeIff(a[1..], b[1..]);
      if n: nat :| FirstDifference(a[1..], b[1..], n) {
        forall k | 0 <= k < n + 1 ensures a[k] == b[k] {
          assert k > 0 ==> a[1..][k - 1] == b[1..][k - 1];
        }
        assert FirstDifference(a, b, n + 1);
      }
      if n: nat :| FirstDifference(a, b, n) {
        assert n > 0 && forall k :: 0 <= k < n - 1 ==> a[1..][k] == a[k + 1] && b[1..][k] == b[k + 1];
        assert FirstDifference(a[1..], b[1..], n - 1);
      }
    } else if Before(a, b) {
      assert FirstDifference(a, b, 0);
    }
  }

  predicate FirstDifference(a: string, b: string, n: nat) {
    && n <= |a| && n < |b| && (n < |a| ==> a[n] < b[n]) && forall k :: 0 <= k < n ==> a[k] == b[k]
  }

  lemma {:induction false} BeforeTotal(a: string, b: string)
    requires a != b
    ensures Before(a, b) || Before(b, a)
  {
    if a != "" && b != "" && a[0] == b[0] {
      assert a == [a[0]] + a[1..] && b == [b[0]] + b[1..];
      BeforeTotal(a[1..], b[1..]);
    }
  }

  lemma {:induction false} BeforeTransitive(a: string, b: string, c: string)
    requires Before(a, b) && Before(b, c)
    ensures Before(a, c)
  {
    if a != "" && a[0] == b[0] == c[0] {
      BeforeTransitive(a[1..], b[1..], c[1..]);
    }
  }

  lemma {:induction false} BeforeIrreflexive(a: string)
    ensures !Before(a, a)
  {
    if a != "" {
      BeforeIrreflexive(a[1..]);
    }
  }

  lemma {:induction false} InsertAddsOne(rule: string, sorted: seq<string>)
    ensures multiset(Insert(rule, sorted)) == multiset(sorted) + multiset{rule}
  {
    hide Before;
    if sorted != [] {
      assert sorted == [sorted[0]] + sorted[1..];
      InsertAddsOne(rule, sorted[1..]);
    }
  }

  lemma {:induction false} FirstKeepsAscending(first: string, rest: seq<string>)
    requires Ascending(rest) && forall r :: r in rest ==> Before(first, r)
    ensures Ascending([first] + rest)
  {
  }

  lemma {:induction false} FirstIsBefore(sorted: seq<string>)
    requires Ascending(sorted) && sorted != []
    ensures Ascending(sorted[1..]) && forall r :: r in sorted[1..] ==> Before(sorted[0], r)
  {
  }

  lemma {:induction false} InsertKeepsAscending(rule: string, sorted: seq<string>)
    requires Ascending(sorted) && rule !in sorted
    ensures Ascending(Insert(rule, sorted))
  {
    hide Before, Ascending;
    if sorted == [] {
      OneIsAscending(rule);
      assert Insert(rule, sorted) == [rule];
    } else {
      FirstIsBefore(sorted);
      if Before(rule, sorted[0]) {
        forall r | r in sorted ensures Before(rule, r) {
          if r != sorted[0] {
            BeforeTransitive(rule, sorted[0], r);
          }
        }
        FirstKeepsAscending(rule, sorted);
      } else {
        BeforeTotal(rule, sorted[0]);
        InsertKeepsAscending(rule, sorted[1..]);
        var rest := Insert(rule, sorted[1..]);
        InsertAddsOne(rule, sorted[1..]);
        forall r | r in rest ensures Before(sorted[0], r) {
          assert r in multiset(rest);
        }
        FirstKeepsAscending(sorted[0], rest);
      }
    }
  }

  lemma {:induction false} OneIsAscending(rule: string)
    ensures Ascending([rule])
  {
  }

  /** Sorting rearranges the rules so that each comes before those after it. */
  lemma {:induction false} SortedIsAscending(rules: seq<string>)
    requires forall j, k :: 0 <= j < k < |rules| ==> rules[j] != rules[k]
    ensures Ascending(Sorted(rules)) && multiset(Sorted(rules)) == multiset(rules)
  {
    if rules != [] {
      var rest := Sorted(rules[1..]);
      SortedIsAscending(rules[1..]);
      assert rules == [rules[0]] + rules[1..];
      assert rules[0] !in multiset(rules[1..]) && rules[0] !in multiset(rest);
      hide Ascending, Insert;
      InsertAddsOne(rules[0], rest);
      InsertKeepsAscending(rules[0], rest);
    }
  }

  lemma {:induction false} SortedRuleIds(rules: seq<string>)
    requires RuleIds(rules)
    ensures RuleIds(Sorted(rules)) && forall rule :: rule in Sorted(rules) <==> rule in rules
  {
    SortedIsAscending(rules);
    hide Sorted, Before, RuleId;
    forall rule ensures rule in Sorted(rules) <==> rule in rules {
      assert rule in Sorted(rules) <==> rule in multiset(Sorted(rules));
    }
    forall j, k | 0 <= j < k < |Sorted(rules)| ensures Sorted(rules)[j] != Sorted(rules)[k] {
      BeforeIrreflexive(Sorted(rules)[j]);
    }
    forall k | 0 <= k < |Sorted(rules)| ensures RuleId(Sorted(rules)[k]) {
      assert Sorted(rules)[k] in rules;
    }
  }

  // ---------- Reading back ----------

  /** No match of the rules' regular expression begins at the start of the line, whatever lines follow: the space
      after a colon may reach into the next line. */
  predicate StartsNoCount(line: string) {
    var k := Span(line, IsRuleChar);
    k == 0 || k == |line| || line[k] != ':'
    || (MatchNumber(line[k + 1..]).None? && Span(line[k + 1..], IsSpace) < |line| - k - 1)
  }

  predicate StartsNoTotal(line: string) {
    var d := Span(line, IsDigit);
    d == 0 || !(VIOLATIONS_TOTAL <= line[d..])
  }

  predicate NoBreak(line: string) {
    forall k :: 0 <= k < |line| ==> line[k] != '\n'
  }

  /** A line, without a break, at whose start neither regular expression matches. */
  predicate Harmless(line: string) {
    NoBreak(line) && StartsNoCount(line) && StartsNoTotal(line)
  }

  /** The searches go from the middle of a line to the start of the next. */
  lemma {:induction false} RestOfLine(line: string, rest: string, sofar: map<string, nat>)
    requires forall k :: 0 <= k < |line| ==> line[k] != '\n'
    ensures Counts(line + ("\n" + rest), false, sofar) == Counts(rest, true, sofar)
    ensures Total(line + ("\n" + rest), false) == Total(rest, true)
  {
    var t := line + ("\n" + rest);
    if line == "" {
      assert t[0] == '\n' && t[1..] == rest;
    } else {
      assert t[0] == line[0] && t[1..] == line[1..] + ("\n" + rest);
      RestOfLine(line[1..], rest, sofar);
    }
  }

  lemma {:induction false} PrefixBeforeBreak(prefix: string, v: string, rest: string)
    requires forall k :: 0 <= k < |prefix| ==> prefix[k] != '\n'
    ensures prefix <= v + ("\n" + rest) <==> prefix <= v
  {
    var t := v + ("\n" + rest);
    assert t[|v|] == '\n';
    if prefix <= t {
      forall k | 0 <= k < |prefix| ensures t[k] != '\n' {
        assert t[k] == prefix[k];
      }
    }
  }

  /** The text after a longest prefix stays what comes after it when lines are added. */
  lemma {:induction false} SpanBeforeBreak(v: string, rest: string, holds: char -> bool)
    requires Span(v, holds) < |v| || !holds('\n')
    ensures var k, t := Span(v, holds), v + ("\n" + rest);
      Span(t, holds) == k && t[..k] == v[..k] && t[k..] == v[k..] + ("\n" + rest)
  {
    var k := Span(v, holds);
    assert v + ("\n" + rest) == v[..k] + (v[k..] + ("\n" + rest));
    SpanOf(v[..k], v[k..] + ("\n" + rest), holds);
  }

  lemma {:induction false} NoNumberLater(v: string, rest: string)
    requires MatchNumber(v).None? && Span(v, IsSpace) < |v|
    ensures MatchNumber(v + ("\n" + rest)).None?
  {
    var digits := v[Span(v, IsSpace)..];
    SpanBeforeBreak(v, rest, IsSpace);
    SpanBeforeBreak(digits, rest, IsDigit);
    PrefixBeforeBreak(VIOLATIONS, digits[Span(digits, IsDigit)..], rest);
  }

  lemma {:induction false} CutLater(line: string, tail: string, k: nat)
    requires k < |line|
    ensures (line + tail)[k] == line[k] && (line + tail)[k + 1..] == line[k + 1..] + tail
  {
  }

  lemma {:induction false} NoCountLater(line: string, rest: string)
    requires StartsNoCount(line)
    ensures MatchCount(line + ("\n" + rest)).None?
  {
    var k := Span(line, IsRuleChar);
    SpanBeforeBreak(line, rest, IsRuleChar);
    hide Span, MatchNumber;
    if k < |line| {
      CutLater(line, "\n" + rest, k);
      if 0 < k && line[k] == ':' {
        NoNumberLater(line[k + 1..], rest);
      }
    } else {
      assert k > 0 ==> (line + ("\n" + rest))[k] == '\n';
    }
  }

  lemma {:induction false} NoTotalLater(line: string, rest: string)
    requires StartsNoTotal(line)
    ensures StartsNoTotal(line + ("\n" + rest))
  {
    SpanBeforeBreak(line, rest, IsDigit);
    PrefixBeforeBreak(VIOLATIONS_TOTAL, line[Span(line, IsDigit)..], rest);
  }

  lemma {:induction false} HarmlessLine(line: string, rest: string, sofar: map<string, nat>)
    requires Harmless(line)
    ensures Counts(line + ("\n" + rest), true, sofar) == Counts(rest, true, sofar)
    ensures Total(line + ("\n" + rest), true) == Total(rest, true)
  {
    var t := line + ("\n" + rest);
    NoCountLater(line, rest);
    NoTotalLater(line, rest);
    RestOfLine(line, rest, sofar);
    hide MatchCount, MatchNumber, Span, Value, StartsNoCount;
    assert t != "" && NextMatch(t, true) == NextMatch(t, false);
    assert Total(t, true) == Total(t, false);
  }

  /** The line printed for a violation. */
  function ViolationLine(path: string, row: nat, rest: string): string {
    path + (": " + (Decimal(row) + (":" + rest)))
  }

  /** The line printed for a violation of a file as a whole. */
  function FileLine(path: string, rule: string): string {
    path + (": " + rule)
  }

  predicate PlainPath(path: string) {
    forall k :: 0 <= k < |path| ==> path[k] != ':' && path[k] != ' ' && path[k] != '\n'
  }

  /** After a path without spaces and colons, only what comes after the first colon can begin like a count. */
  lemma {:induction false} AfterPath(path: string, v: string)
    requires PlainPath(path) && v != ""
    requires MatchNumber(v).None? && Span(v, IsSpace) < |v|
    ensures StartsNoCount(path + (":" + v)) && StartsNoTotal(path + (":" + v))
  {
    AfterPathNoTotal(path, ":" + v);
    AfterPathNoCount(path, v, path + (":" + v));
  }

  lemma {:induction false} AfterPathNoCount(path: string, v: string, line: string)
    requires PlainPath(path) && line == path + (":" + v)
    requires MatchNumber(v).None? && Span(v, IsSpace) < |v|
    ensures StartsNoCount(line)
  {
    var k := Span(path, IsRuleChar);
    hide Span, MatchNumber, PlainPath;
    SpanInPath(path, ":" + v, IsRuleChar);
    assert Span(line, IsRuleChar) == k;
    AfterColon(path, v, line);
    if k < |path| {
      assert path[k] != ':' by {
        ColonFree(path, k);
      }
    }
  }

  lemma {:induction false} AfterColon(path: string, v: string, line: string)
    requires line == path + (":" + v)
    ensures |line| == |path| + 1 + |v| && line[|path|] == ':' && line[|path| + 1..] == v
    ensures forall i :: 0 <= i < |path| ==> line[i] == path[i]
  {
  }

  lemma {:induction false} ColonFree(path: string, k: nat)
    requires PlainPath(path) && k < |path|
    ensures path[k] != ':'
  {
  }

  lemma {:induction false} AfterPathNoTotal(path: string, b: string)
    requires PlainPath(path) && b != "" && b[0] == ':'
    ensures StartsNoTotal(path + b)
  {
    var d, line := Span(path, IsDigit), path + b;
    SpanInPath(path, b, IsDigit);
    hide Span;
    assert line[d..][0] == (if d < |path| then path[d] else b[0]);
    SameFirst(VIOLATIONS_TOTAL, line[d..]);
  }

  lemma {:induction false} SameFirst(prefix: string, s: string)
    requires prefix != "" && s != ""
    ensures prefix <= s ==> prefix[0] == s[0]
  {
  }

  lemma {:induction false} ColonSpace(x: string)
    ensures ": " + x == ":" + (" " + x)
  {
  }

  lemma {:induction false} NoBreakInBoth(a: string, b: string)
    requires NoBreak(a) && NoBreak(b)
    ensures NoBreak(a + b)
  {
  }

  lemma {:induction false} SpanInPath(path: string, b: string, holds: char -> bool)
    requires b != "" && !holds(b[0])
    ensures Span(path + b, holds) == Span(path, holds)
  {
    var k := Span(path, holds);
    assert path + b == path[..k] + (path[k..] + b);
    SpanOf(path[..k], path[k..] + b, holds);
  }

  lemma {:induction false} RowIsNoCount(digits: string, end: string)
    requires digits != "" && (forall k :: 0 <= k < |digits| ==> IsDigit(digits[k]))
    requires end != "" && end[0] == ':'
    ensures var v := " " + (digits + end); MatchNumber(v).None? && Span(v, IsSpace) < |v|
  {
    var v := " " + (digits + end);
    SpanOf(" ", digits + end, IsSpace);
    assert v[1..] == digits + end;
    SpanOf(digits, end, IsDigit);
    assert (digits + end)[|digits|..] == end;
    SameFirst(VIOLATIONS, end);
  }

  /** The lines printed for the violations of files whose path has no space and no colon do no harm. */
  lemma {:induction false} ViolationLineIsHarmless(path: string, row: nat, rest: string)
    requires PlainPath(path) && NoBreak(rest)
    ensures Harmless(ViolationLine(path, row, rest))
  {
    var digits, end := Decimal(row), ":" + rest;
    RowIsNoCount(digits, end);
    assert NoBreak(path) && NoBreak(digits) && NoBreak(": ") && NoBreak(":");
    hide Decimal, Span, MatchNumber, StartsNoCount, StartsNoTotal, NoBreak;
    AfterPath(path, " " + (digits + end));
    ColonSpace(digits + end);
    NoBreakInBoth(":", rest);
    NoBreakInBoth(digits, end);
    NoBreakInBoth(": ", digits + end);
    NoBreakInBoth(path, ": " + (digits + end));
  }

  lemma {:induction false} FileLineIsHarmless(path: string, rule: string)
    requires PlainPath(path) && RuleId(rule)
    ensures Harmless(FileLine(path, rule))
  {
    var v := " " + rule;
    SpanOf(" ", rule, IsSpace);
    assert v[1..] == rule && IsRuleChar(rule[0]);
    assert NoBreak(path) && NoBreak(rule) && NoBreak(": ");
    AfterPath(path, v);
    hide Span, MatchNumber, StartsNoCount, StartsNoTotal, NoBreak;
    ColonSpace(rule);
    NoBreakInBoth(": ", rule);
    NoBreakInBoth(path, ": " + rule);
  }

  lemma {:induction false} NumberParts(gap: string, digits: string, tail: string)
    requires gap != "" && digits != ""
    requires forall k :: 0 <= k < |gap| ==> IsSpace(gap[k])
    requires forall k :: 0 <= k < |digits| ==> IsDigit(digits[k])
    ensures MatchNumber(gap + (digits + (VIOLATIONS + tail))) == Some(Number(Value(digits), tail))
  {
    var end := VIOLATIONS + tail;
    var v := digits + end;
    SpanOf(gap, v, IsSpace);
    assert (gap + v)[|gap|..] == v;
    SpanOf(digits, end, IsDigit);
    assert v[..|digits|] == digits && v[|digits|..] == end;
    assert v[|digits| + |VIOLATIONS|..] == tail;
  }

  lemma {:induction false} MatchParts(rule: string, gap: string, digits: string, tail: string)
    requires RuleId(rule) && gap != "" && digits != ""
    requires forall k :: 0 <= k < |gap| ==> IsSpace(gap[k])
    requires forall k :: 0 <= k < |digits| ==> IsDigit(digits[k])
    ensures MatchCount(rule + (":" + (gap + (digits + (VIOLATIONS + tail))))) == Some(Match(rule, Value(digits), tail))
  {
    var u := gap + (digits + (VIOLATIONS + tail));
    NumberParts(gap, digits, tail);
    hide MatchNumber, Value, Span;
    RuleBeforeColon(rule, u);
  }

  lemma {:induction false} RuleBeforeColon(rule: string, u: string)
    requires RuleId(rule)
    ensures MatchCount(rule + (":" + u))
         == match MatchNumber(u) case None => None case Some(number) => Some(Match(rule, number.count, number.rest))
  {
    hide MatchNumber, Span;
    SpanOf(rule, ":" + u, IsRuleChar);
    CutAt(rule, ':', u);
  }

  lemma {:induction false} CutAt(a: string, c: char, b: string)
    ensures var t := a + ([c] + b); t[..|a|] == a && t[|a|] == c && t[|a| + 1..] == b
  {
  }

  lemma {:induction false} RuleLineParts(rule: string, width: nat, count: nat, rest: string)
    requires |rule| <= width
    ensures RuleLine(rule, width, count) + ("\n" + rest)
         == rule + (":" + ((" " + Spaces(width - |rule|)) + (Decimal(count) + (VIOLATIONS + ("\n" + rest)))))
  {
    var spaces, digits, tail := Spaces(width - |rule|), Decimal(count), "\n" + rest;
    hide Spaces, Decimal;
    assert ": " == ":" + " ";
    assert (digits + VIOLATIONS) + tail == digits + (VIOLATIONS + tail);
    assert (spaces + (digits + VIOLATIONS)) + tail == spaces + ((digits + VIOLATIONS) + tail);
  }

  /** A rule's line is read as that rule's count. */
  lemma {:induction false} ReadRuleLine(rule: string, width: nat, count: nat, rest: string, sofar: map<string, nat>)
    requires RuleId(rule) && |rule| <= width
    ensures var t := RuleLine(rule, width, count) + ("\n" + rest);
      Counts(t, true, sofar) == Counts(rest, true, sofar[rule := count]) && Total(t, true) == Total(rest, true)
  {
    var line := RuleLine(rule, width, count);
    var t := line + ("\n" + rest);
    RuleLineParts(rule, width, count, rest);
    MatchParts(rule, " " + Spaces(width - |rule|), Decimal(count), "\n" + rest);
    DecimalValue(count);
    NoBreakInRuleLine(rule, width, count);
    hide RuleLine, MatchCount, Spaces, Decimal, Value, RuleId;
    assert NextMatch(t, true) == Some(Match(rule, count, "\n" + rest));
    RestOfLine("", rest, sofar[rule := count]);
    assert "" + ("\n" + rest) == "\n" + rest;
    LettersFirst(rule, line, rest);
  }

  lemma {:induction false} NoBreakInRuleLine(rule: string, width: nat, count: nat)
    requires RuleId(rule) && |rule| <= width
    ensures rule <= RuleLine(rule, width, count)
    ensures forall k :: 0 <= k < |RuleLine(rule, width, count)| ==> RuleLine(rule, width, count)[k] != '\n'
  {
  }

  lemma {:induction false} LettersFirst(rule: string, line: string, rest: string)
    requires RuleId(rule) && rule <= line && forall k :: 0 <= k < |line| ==> line[k] != '\n'
    ensures Total(line + ("\n" + rest), true) == Total(rest, true)
  {
    var t := line + ("\n" + rest);
    assert t[0] == rule[0] && IsRuleChar(t[0]) && !IsDigit(t[0]);
    assert Span(t, IsDigit) == 0;
    RestOfLine(line, rest, map[]);
  }

  lemma {:induction false} TotalParts(digits: string, tail: string)
    requires digits != "" && forall k :: 0 <= k < |digits| ==> IsDigit(digits[k])
    ensures var t := digits + (VIOLATIONS_TOTAL + tail);
      MatchCount(t).None? && Total(t, true) == Some(Value(digits))
  {
    var end := VIOLATIONS_TOTAL + tail;
    var t := digits + end;
    assert t[0] == digits[0] && !IsRuleChar(t[0]);
    assert Span(t, IsRuleChar) == 0;
    SpanOf(digits, end, IsDigit);
    assert t[|digits|..] == end && t[..|digits|] == digits;
  }

  lemma {:induction false} ReadTotalLine(total: nat, sofar: map<string, nat>)
    ensures Counts(TotalLine(total), true, sofar) == sofar && Total(TotalLine(total), true) == Some(total)
  {
    var digits, tail := Decimal(total), "\n" + "";
    TotalParts(digits, tail);
    DecimalValue(total);
    Associative(digits, VIOLATIONS_TOTAL, tail);
    NoBreakInTotal(digits);
    RestOfLine(digits + VIOLATIONS_TOTAL, "", sofar);
    var t := TotalLine(total);
    hide Decimal, Value, MatchCount, Total, TotalLine;
    assert t != "" && NextMatch(t, true) == NextMatch(t, false);
  }

  lemma {:induction false} Associative(a: string, b: string, c: string)
    ensures (a + b) + c == a + (b + c)
  {
  }

  lemma {:induction false} NoBreakInTotal(digits: string)
    requires forall k :: 0 <= k < |digits| ==> IsDigit(digits[k])
    ensures forall k :: 0 <= k < |digits + VIOLATIONS_TOTAL| ==> (digits + VIOLATIONS_TOTAL)[k] != '\n'
  {
  }

  function Updated(sofar: map<string, nat>, rules: seq<string>, totals: map<string, nat>): map<string, nat>
    requires forall k :: 0 <= k < |rules| ==> rules[k] in totals
    decreases |rules|
  {
    if rules == [] then sofar else Updated(sofar[rules[0] := totals[rules[0]]], rules[1..], totals)
  }

  lemma {:induction false} UpdatedLookup(sofar: map<string, nat>, rules: seq<string>, totals: map<string, nat>,
                                         rule: string)
    requires forall k :: 0 <= k < |rules| ==> rules[k] in totals
    ensures rule in Updated(sofar, rules, totals) <==> rule in sofar || rule in rules
    ensures rule in rules || (rule in sofar && rule in totals && sofar[rule] == totals[rule]) ==>
      Updated(sofar, rules, totals)[rule] == totals[rule]
    decreases |rules|
  {
    if rules != [] {
      UpdatedLookup(sofar[rules[0] := totals[rules[0]]], rules[1..], totals, rule);
      assert rule in rules <==> rule == rules[0] || rule in rules[1..];
    }
  }

  lemma {:induction false} UpdatedFromNothing(rules: seq<string>, totals: map<string, nat>)
    requires forall rule :: rule in totals <==> rule in rules
    ensures Updated(map[], rules, totals) == totals
  {
    forall rule
      ensures rule in Updated(map[], rules, totals) <==> rule in totals
      ensures rule in totals ==> Updated(map[], rules, totals)[rule] == totals[rule]
    {
      UpdatedLookup(map[], rules, totals, rule);
    }
  }

  lemma {:induction false} ReadRuleTotals(rules: seq<string>, width: nat, totals: map<string, nat>, after: string,
                                          sofar: map<string, nat>)
    requires forall k :: 0 <= k < |rules| ==> RuleId(rules[k]) && |rules[k]| <= width && rules[k] in totals
    ensures var t := RuleTotals(rules, width, totals, after);
      && Counts(t, true, sofar) == Counts(after, true, Updated(sofar, rules, totals))
      && Total(t, true) == Total(after, true)
    decreases |rules|
  {
    hide Counts, Total, RuleLine, RuleId;
    if rules != [] {
      var rest := RuleTotals(rules[1..], width, totals, after);
      ReadRuleLine(rules[0], width, totals[rules[0]], rest, sofar);
      ReadRuleTotals(rules[1..], width, totals, after, sofar[rules[0] := totals[rules[0]]]);
    }
  }

  lemma {:induction false} ReadHarmless(lines: seq<string>, after: string, sofar: map<string, nat>)
    requires forall k :: 0 <= k < |lines| ==> Harmless(lines[k])
    ensures Counts(Printed(lines, after), true, sofar) == Counts(after, true, sofar)
    ensures Total(Printed(lines, after), true) == Total(after, true)
  {
    hide Counts, Total, Harmless;
    if lines != [] {
      HarmlessLine(lines[0], Printed(lines[1..], after), sofar);
      ReadHarmless(lines[1..], after, sofar);
    }
  }

  /** Reading a printed report gives back the totals by rule and the total, whatever harmless lines the violations
      printed before. */
  lemma {:induction false} ReportReadsBack(violations: seq<string>, rules: seq<string>, totals: map<string, nat>,
                                           total: nat)
    requires RuleIds(rules) && (forall rule :: rule in totals <==> rule in rules)
    requires forall k :: 0 <= k < |violations| ==> Harmless(violations[k])
    ensures var report := Printed(violations, Summary(rules, totals, total));
      Counts(report, true, map[]) == totals && Total(report, true) == Some(total)
  {
    hide *;
    var width, end := MaxLength(rules), TotalLine(total);
    EmptyIsHarmless();
    FromTheTotals(rules, totals, total);
    ReadTotalLine(total, totals);
    UpdatedFromNothing(rules, totals);
    ReadHarmless(violations, Summary(rules, totals, total), map[]);
    ReadHarmless([""], RuleTotals(rules, width, totals, Printed(["", ""], end)), map[]);
    ReadRuleTotals(rules, width, totals, Printed(["", ""], end), map[]);
    ReadHarmless(["", ""], end, totals);
  }

  lemma {:induction false} EmptyIsHarmless()
    ensures Harmless("")
  {
  }

  /** What a summary is made of. */
  lemma {:induction false} FromTheTotals(rules: seq<string>, totals: map<string, nat>, total: nat)
    requires RuleIds(rules) && (forall rule :: rule in totals <==> rule in rules)
    ensures forall k :: 0 <= k < |rules| ==> RuleId(rules[k]) && |rules[k]| <= MaxLength(rules) && rules[k] in totals
    ensures Summary(rules, totals, total)
         == Printed([""], RuleTotals(rules, MaxLength(rules), totals, Printed(["", ""], TotalLine(total))))
  {
    hide RuleId, MaxLength, Printed, RuleTotals, TotalLine;
  }
}
